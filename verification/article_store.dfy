/**
 * The parts of `ArticleDatabase` that shape data rather than talk to
 * sqlite: how a reference list is serialised into the `ArticleReferences`
 * column, how the `?` placeholders of the title lookup are built, and which
 * titles the lookup reports as missing.
 */
module ArticleStore {
  import opened Wrappers
  import opened Text
  import opened Seqs
  import opened Clustering

  /** The separator both writers put between references. */
  const ReferenceSeparator: string := ", "

  /** The value written to `ArticleReferences` for a reference list. */
  function StoredReferences(refs: seq<string>): (stored: string)
    ensures |refs| == 0 ==> stored == ""
    ensures |refs| == 1 ==> stored == refs[0]
  {
    Join(refs, ReferenceSeparator)
  }

  /** The reference list the CrossRef lookup hands over: the `DOI` of each
      reference, `None` where the reference carries none. */
  function Present(refs: seq<Option<string>>): (r: Option<seq<string>>)
    ensures r.None? <==> exists k :: 0 <= k < |refs| && refs[k].None?
    ensures r.Some? ==> |r.value| == |refs| && forall k :: 0 <= k < |refs| ==> refs[k] == Some(r.value[k])
    decreases |refs|
  {
    if |refs| == 0 then Some([])
    else
      match Present(refs[1..])
      case None => None
      case Some(rest) =>
        match refs[0]
        case None => None
        case Some(doi) => Some([doi] + rest)
  }

  /** Every item of a list of identifiers, each wrapped as present. */
  function Somes(refs: seq<string>): (wrapped: seq<Option<string>>)
    ensures |wrapped| == |refs|
    ensures forall k :: 0 <= k < |refs| ==> wrapped[k] == Some(refs[k])
  {
    seq(|refs|, k requires 0 <= k < |refs| => Some(refs[k]))
  }

  /** `", ".join(references_val)` on what the lookup returned: the stored
      value, or `None` for the `TypeError` a missing identifier raises. */
  function JoinReferences(refs: seq<Option<string>>): (r: Option<string>)
    ensures r.None? <==> exists k :: 0 <= k < |refs| && refs[k].None?
    ensures r.Some? ==> r.value == StoredReferences(Present(refs).value)
  {
    match Present(refs)
    case None => None
    case Some(dois) => Some(StoredReferences(dois))
  }

  /** A list where every identifier is present is stored exactly as the
      plain list is, and reads back unchanged when no identifier holds ", ". */
  lemma JoinPresentReferences(refs: seq<string>)
    requires |refs| >= 1
    requires forall k :: 0 <= k < |refs| ==> !Contains(refs[k], ReferenceSeparator)
    ensures JoinReferences(Somes(refs)) == Some(StoredReferences(refs))
    ensures ReadReferences(JoinReferences(Somes(refs)).value) == refs
  {
    var p := Present(Somes(refs));
    assert p.Some? && p.value == refs by {
      assert |p.value| == |refs|;
      forall k | 0 <= k < |refs|
        ensures p.value[k] == refs[k]
      {
        assert Somes(refs)[k] == Some(p.value[k]);
      }
    }
    StoredReferencesRoundTrip(refs);
  }

  /** What the clustering reads back from a stored column value. */
  function ReadReferences(stored: string): (refs: seq<string>)
    ensures refs == Tokens(Article("", Some(stored)))
    ensures |refs| >= 1
  {
    Split(stored, ReferenceSeparator)
  }

  /** A non-empty list whose items do not contain ", " survives the
      write-then-read trip unchanged. */
  lemma StoredReferencesRoundTrip(refs: seq<string>)
    requires |refs| >= 1
    requires forall k :: 0 <= k < |refs| ==> !Contains(refs[k], ReferenceSeparator)
    ensures ReadReferences(StoredReferences(refs)) == refs
  {
    CommaSpaceBorderFree();
    SplitJoin(refs, ReferenceSeparator);
  }

  /** Every stored value is the serialisation of what is read back from it,
      so the read side loses nothing. */
  lemma ReadThenStore(stored: string)
    ensures StoredReferences(ReadReferences(stored)) == stored
  {
    JoinSplit(stored, ReferenceSeparator);
  }

  /** The empty list is stored as "" and read back as [""], not []; the
      empty identifier then enters the feature universe. */
  lemma EmptyReferencesReadBack(title: string)
    ensures StoredReferences([]) == ""
    ensures ReadReferences(StoredReferences([])) == [""]
    ensures "" in Universe([Article(title, Some(StoredReferences([])))])
  {
    var a := Article(title, Some(""));
    assert Tokens(a) == [""];
    assert a in [a] && "" in Tokens(a);
  }

  /** `["?"] * n` */
  function QuestionMarks(n: nat): (marks: seq<string>)
    ensures |marks| == n
    ensures forall k :: 0 <= k < n ==> marks[k] == "?"
  {
    seq(n, _ => "?")
  }

  /** The placeholder list of the `IN (...)` clause. */
  function Placeholders(n: nat): string {
    Join(QuestionMarks(n), ReferenceSeparator)
  }

  /** The placeholder list holds exactly one `?` per title and nothing
      but the separators between them. */
  lemma {:induction false} PlaceholdersShape(n: nat)
    ensures CountChar(Placeholders(n), '?') == n
    ensures |Placeholders(n)| == if n == 0 then 0 else 3 * n - 2
  {
    if n > 1 {
      PlaceholdersShape(n - 1);
      assert QuestionMarks(n) == ["?"] + QuestionMarks(n - 1);
      JoinCons("?", QuestionMarks(n - 1), ReferenceSeparator);
      CountCharAppend("?" + ReferenceSeparator, Placeholders(n - 1), '?');
      CountCharAppend("?", ReferenceSeparator, '?');
      assert CountChar(ReferenceSeparator, '?') == 0;
    } else if n == 1 {
      assert QuestionMarks(1) == ["?"];
    }
  }

  /** Splitting the placeholder list on its separator gives one `?` per title. */
  lemma PlaceholdersSplit(n: nat)
    requires n >= 1
    ensures Split(Placeholders(n), ReferenceSeparator) == QuestionMarks(n)
  {
    var marks := QuestionMarks(n);
    forall k | 0 <= k < n
      ensures !Contains(marks[k], ReferenceSeparator)
    {
      assert !IsPrefix(ReferenceSeparator, "?");
      assert "?"[1..] == "";
      assert !Contains("", ReferenceSeparator);
    }
    CommaSpaceBorderFree();
    SplitJoin(marks, ReferenceSeparator);
  }

  /** The rows `SELECT Title ... WHERE Title IN (titles)` returns from a
      table whose Title column is `table`, in table order. */
  function ExistingTitles(titles: seq<string>, table: seq<string>): (existing: seq<string>)
    ensures forall t :: t in existing <==> t in table && t in titles
  {
    Filter(table, t => t in titles)
  }

  /** `check_titles_exist`: the titles of the list that the table lacks. */
  function MissingTitles(titles: seq<string>, table: seq<string>): (missing: seq<string>)
    ensures forall t :: t in missing <==> t in titles && t !in table
  {
    var existing := ExistingTitles(titles, table);
    Filter(titles, t => t !in existing)
  }

  /** The missing titles are the input filtered by absence from the table:
      the same order, and every copy of a missing title kept. */
  lemma MissingTitlesIsFilter(titles: seq<string>, table: seq<string>)
    ensures MissingTitles(titles, table) == Filter(titles, t => t !in table)
  {
    var existing := ExistingTitles(titles, table);
    FilterAgrees(titles, t => t !in existing, t => t !in table);
  }

  /** Order: the missing titles of a concatenation are those of its parts,
      judged against the same table. */
  lemma MissingTitlesOrder(a: seq<string>, b: seq<string>, table: seq<string>)
    ensures MissingTitles(a + b, table) == MissingTitles(a, table) + MissingTitles(b, table)
  {
    MissingTitlesIsFilter(a + b, table);
    MissingTitlesIsFilter(a, table);
    MissingTitlesIsFilter(b, table);
    FilterAppend(a, b, t => t !in table);
  }

  /** Duplicates: a missing title appears as often as in the input. */
  lemma MissingTitlesMultiplicity(titles: seq<string>, table: seq<string>, t: string)
    ensures multiset(MissingTitles(titles, table))[t]
              == if t in table then 0 else multiset(titles)[t]
  {
    MissingTitlesIsFilter(titles, table);
    FilterMultiplicity(titles, u => u !in table, t);
  }
}
