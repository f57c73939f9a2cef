/**
 * `DataExtractor` (the preprocessor module holds an identical copy): turning
 * Google Scholar alert messages into article records. The HTML scraping and
 * the date reformatting are parameters; what is modelled is the subject
 * filter, the cited-author rule, the all-or-nothing zipping into records,
 * the duplicate removal, the first-value propagation and the chunking.
 */
module ScholarMessages {
  import opened Wrappers
  import opened Text
  import opened Seqs

  /** The three headers the extractor reads from a message. */
  datatype Message = Message(subject: string, body: string, received: string)

  /** The five parallel lists the HTML scraper returns for one body. */
  datatype Scraped = Scraped(
    titles: seq<string>, authors: seq<string>, links: seq<string>,
    abstracts: seq<string>, saveLinks: seq<string>)

  /** One entry of `extracted_data`: (cited author, scraped lists, date). */
  datatype Extracted = Extracted(citedAuthor: Option<string>, data: Scraped, received: string)

  /** The domain whose dates are reformatted. */
  const Outlook: string := "Outlook"

  // ------------------------------------------------------------------
  // Subject filter and cited author (`extract_raw_metadata`)

  /** The subject test, with both of its disjuncts. */
  predicate IsCitationAlert(subject: string) {
    Contains(subject, "new citations") || Contains(subject, "new citation")
  }

  /** The "new citations" disjunct adds nothing. */
  lemma CitationAlertIff(subject: string)
    ensures IsCitationAlert(subject) <==> Contains(subject, "new citation")
  {
    assert "new citations" == "new citation" + "s";
    if Contains(subject, "new citations") {
      ContainsPrefixOf(subject, "new citation", "s");
    }
  }

  /** Position `p` is where `(?<=by\s)([^,]+)` can start a match, with
      `re.IGNORECASE`: "by" in any case, one whitespace character, then a
      character that is not a comma. */
  predicate AuthorStart(s: string, p: int) {
    3 <= p < |s|
    && (s[p - 3] == 'b' || s[p - 3] == 'B')
    && (s[p - 2] == 'y' || s[p - 2] == 'Y')
    && IsSpace(s[p - 1])
    && s[p] != ','
  }

  /** The leftmost match start at or after `from`, as `re.search` scans. */
  function FindAuthorStart(s: string, from: nat): (r: Option<nat>)
    ensures r.Some? ==> from <= r.value && AuthorStart(s, r.value)
    ensures forall p :: from <= p < (if r.Some? then r.value else |s|) ==> !AuthorStart(s, p)
    decreases |s| - from
  {
    if from >= |s| then None
    else if AuthorStart(s, from) then Some(from)
    else FindAuthorStart(s, from + 1)
  }

  /** End of the greedy `[^,]+` run that starts at `p`. */
  function RunEnd(s: string, p: nat): (e: nat)
    requires p <= |s|
    ensures p <= e <= |s|
    ensures forall k :: p <= k < e ==> s[k] != ','
    ensures e == |s| || s[e] == ','
    decreases |s| - p
  {
    if p == |s| || s[p] == ',' then p else RunEnd(s, p + 1)
  }

  /** `match.group(1)` of the search, or None when nothing matches. */
  function AuthorAfterBy(s: string): (r: Option<string>)
    ensures r.None? <==> forall p :: 0 <= p < |s| ==> !AuthorStart(s, p)
    ensures r.Some? ==> exists p ::
      AuthorStart(s, p) && (forall q :: 0 <= q < p ==> !AuthorStart(s, q))
      && r.value == s[p..RunEnd(s, p)]
  {
    match FindAuthorStart(s, 0)
    case None => None
    case Some(p) => Some(s[p..RunEnd(s, p)])
  }

  /** The cited author of an alert. The two guards are case-sensitive
      substring tests; only the regular expression ignores case. */
  function CitedAuthor(subject: string): (r: Option<string>)
    ensures Contains(subject, "your") ==> r == Some("Yourself")
    ensures !Contains(subject, "your") && !Contains(subject, "by") ==> r.None?
    ensures !Contains(subject, "your") && Contains(subject, "by") ==> r == AuthorAfterBy(subject)
    ensures !Contains(subject, "your") && Contains(subject, "by") ==>
      (r.None? <==> forall p :: 0 <= p < |subject| ==> !AuthorStart(subject, p))
  {
    if Contains(subject, "your") then Some("Yourself")
    else if Contains(subject, "by") then AuthorAfterBy(subject)
    else None
  }

  /** A captured author is a non-empty, comma-free, maximal run. */
  lemma CapturedAuthorShape(subject: string)
    requires !Contains(subject, "your") && CitedAuthor(subject).Some?
    ensures var a := CitedAuthor(subject).value;
            |a| > 0 && (forall k :: 0 <= k < |a| ==> a[k] != ',')
  {
    var p :| AuthorStart(subject, p) && CitedAuthor(subject).value == subject[p..RunEnd(subject, p)];
    assert subject[p] != ',';
  }

  /** One kept message. `scrape` stands for `extract_data_from_html_body`
      and `toIsoDate` for the strptime/strftime round. */
  function ExtractOne(m: Message, domain: string, scrape: string -> Scraped, toIsoDate: string -> string): Extracted {
    Extracted(CitedAuthor(m.subject), scrape(m.body), if domain == Outlook then toIsoDate(m.received) else m.received)
  }

  /** `extract_raw_metadata` */
  function ExtractRawMetadata(msgs: seq<Message>, domain: string, scrape: string -> Scraped, toIsoDate: string -> string)
    : (extracted: seq<Extracted>)
    ensures |extracted| <= |msgs|
  {
    if |msgs| == 0 then []
    else
      (if IsCitationAlert(msgs[0].subject) then [ExtractOne(msgs[0], domain, scrape, toIsoDate)] else [])
      + ExtractRawMetadata(msgs[1..], domain, scrape, toIsoDate)
  }

  /** The alerts the extractor keeps: subjects containing "new citation". */
  function CitationAlerts(msgs: seq<Message>): seq<Message> {
    Filter(msgs, (m: Message) => Contains(m.subject, "new citation"))
  }

  /** One triple per message whose subject contains "new citation", in
      message order. */
  lemma {:induction false} ExtractRawMetadataSpec(msgs: seq<Message>, domain: string, scrape: string -> Scraped, toIsoDate: string -> string)
    ensures var extracted := ExtractRawMetadata(msgs, domain, scrape, toIsoDate);
            var kept := CitationAlerts(msgs);
            |extracted| == |kept|
            && forall i :: 0 <= i < |kept| ==> extracted[i] == ExtractOne(kept[i], domain, scrape, toIsoDate)
    decreases |msgs|
  {
    if |msgs| > 0 {
      ExtractRawMetadataSpec(msgs[1..], domain, scrape, toIsoDate);
      CitationAlertIff(msgs[0].subject);
    }
  }

  // ------------------------------------------------------------------
  // Records (`create_article_records`)

  /** The seven columns, in `journals_list` order. */
  datatype Record = Record(
    title: string, author: string, link: string, abstractText: string,
    citedAuthor: string, saveLink: string, receivedDate: string)

  /** `x.rstrip().strip()`: the rstrip is redundant. */
  function Clean(s: string): (r: string)
    ensures r == Strip(s)
    ensures IsStripped(r)
  {
    RStripThenStrip(s);
    Strip(RStrip(s))
  }

  /** The five lists have one entry per article. */
  predicate Consistent(d: Scraped) {
    |d.titles| == |d.authors| && |d.titles| == |d.links|
    && |d.titles| == |d.abstracts| && |d.titles| == |d.saveLinks|
  }

  /** The cited-author column: "" for no author. */
  function CitedAuthorField(c: Option<string>): (f: string)
    ensures c.None? ==> f == ""
    ensures c.Some? ==> f == Strip(c.value)
  {
    match c
    case None => ""
    case Some(a) => Clean(a)
  }

  /** The records of one extracted message: all of them, or none when the
      five lists disagree in length. That every field comes out stripped is
      `RecordsStripped`. */
  function MessageRecords(e: Extracted): (records: seq<Record>)
    ensures |records| == if Consistent(e.data) then |e.data.titles| else 0
    ensures forall i :: 0 <= i < |records| ==>
      records[i].title == Strip(e.data.titles[i])
      && records[i].author == Strip(e.data.authors[i])
      && records[i].link == Strip(e.data.links[i])
      && records[i].abstractText == Strip(e.data.abstracts[i])
      && records[i].saveLink == Strip(e.data.saveLinks[i])
      && records[i].citedAuthor == CitedAuthorField(e.citedAuthor)
      && records[i].receivedDate == e.received
  {
    var d := e.data;
    if Consistent(d) then
      seq(|d.titles|, i requires 0 <= i < |d.titles| =>
        Record(Clean(d.titles[i]), Clean(d.authors[i]), Clean(d.links[i]), Clean(d.abstracts[i]),
               CitedAuthorField(e.citedAuthor), Clean(d.saveLinks[i]), e.received))
    else []
  }

  /** `create_article_records` */
  function CreateArticleRecords(data: seq<Extracted>): seq<Record> {
    if |data| == 0 then [] else MessageRecords(data[0]) + CreateArticleRecords(data[1..])
  }

  /** No field of a record has leading or trailing whitespace. */
  predicate RecordStripped(r: Record) {
    IsStripped(r.title) && IsStripped(r.author) && IsStripped(r.link)
    && IsStripped(r.abstractText) && IsStripped(r.citedAuthor) && IsStripped(r.saveLink)
  }

  /** Every text field of every record is whitespace-stripped. */
  lemma {:induction false} RecordsStripped(data: seq<Extracted>)
    ensures forall r :: r in CreateArticleRecords(data) ==> RecordStripped(r)
    decreases |data|
  {
    if |data| > 0 {
      RecordsStripped(data[1..]);
      var head := MessageRecords(data[0]);
      forall r | r in head
        ensures RecordStripped(r)
      {
        var i :| 0 <= i < |head| && head[i] == r;
      }
    }
  }

  /** Messages contribute their records in message order. */
  lemma {:induction false} CreateArticleRecordsAppend(a: seq<Extracted>, b: seq<Extracted>)
    ensures CreateArticleRecords(a + b) == CreateArticleRecords(a) + CreateArticleRecords(b)
    decreases |a|
  {
    if |a| == 0 {
      assert a + b == b;
    } else {
      assert (a + b)[1..] == a[1..] + b;
      CreateArticleRecordsAppend(a[1..], b);
    }
  }

  /** The messages whose five lists agree in length. */
  predicate IsConsistentMessage(e: Extracted) {
    Consistent(e.data)
  }

  /** Sum of the title counts of some extracted messages. */
  function TitleCount(data: seq<Extracted>): nat {
    if |data| == 0 then 0 else |data[0].data.titles| + TitleCount(data[1..])
  }

  /** There is one record per title of every consistent message. */
  lemma {:induction false} CreateArticleRecordsCount(data: seq<Extracted>)
    ensures |CreateArticleRecords(data)| == TitleCount(Filter(data, IsConsistentMessage))
    decreases |data|
  {
    if |data| > 0 {
      CreateArticleRecordsCount(data[1..]);
      var rest := Filter(data[1..], IsConsistentMessage);
      assert |MessageRecords(data[0])| == if IsConsistentMessage(data[0]) then |data[0].data.titles| else 0;
      if IsConsistentMessage(data[0]) {
        assert Filter(data, IsConsistentMessage) == [data[0]] + rest;
        assert ([data[0]] + rest)[1..] == rest;
      } else {
        assert Filter(data, IsConsistentMessage) == rest;
      }
    }
  }

  // ------------------------------------------------------------------
  // Duplicate removal (`drop_duplicates(subset=[Title, CitedAuthor])`)

  /** The duplicate key. */
  function KeyOf(r: Record): (string, string) {
    (r.title, r.citedAuthor)
  }

  /** The keys occurring in some rows. */
  function KeysOf(rows: seq<Record>): set<(string, string)> {
    set r | r in rows :: KeyOf(r)
  }

  /** The rows whose key is neither in `seen` nor on an earlier row. */
  function FirstOccurrences(rows: seq<Record>, seen: set<(string, string)>): (kept: seq<Record>)
    ensures forall i :: 0 <= i < |kept| ==> kept[i] in rows && KeyOf(kept[i]) !in seen
    ensures forall i, j :: 0 <= i < j < |kept| ==> KeyOf(kept[i]) != KeyOf(kept[j])
    ensures KeysOf(kept) == KeysOf(rows) - seen
    decreases |rows|
  {
    if |rows| == 0 then []
    else if KeyOf(rows[0]) in seen then
      var rest := FirstOccurrences(rows[1..], seen);
      assert KeysOf(rows) == {KeyOf(rows[0])} + KeysOf(rows[1..]) by {
        assert rows == [rows[0]] + rows[1..];
      }
      rest
    else
      var key := KeyOf(rows[0]);
      var rest := FirstOccurrences(rows[1..], seen + {key});
      assert KeysOf(rows) == {key} + KeysOf(rows[1..]) by {
        assert rows == [rows[0]] + rows[1..];
      }
      assert KeysOf([rows[0]] + rest) == {key} + KeysOf(rest) by {
        assert forall r :: r in [rows[0]] + rest <==> r == rows[0] || r in rest;
      }
      [rows[0]] + rest
  }

  /** The same scan as `FirstOccurrences(rows, {})`, with a set of seen
      keys, as the dataframe does it. */
  method DropDuplicates(rows: seq<Record>) returns (kept: seq<Record>)
    ensures kept == FirstOccurrences(rows, {})
    ensures forall i, j :: 0 <= i < j < |kept| ==> KeyOf(kept[i]) != KeyOf(kept[j])
    ensures KeysOf(kept) == KeysOf(rows)
  {
    kept := [];
    var seen: set<(string, string)> := {};
    var i := 0;
    assert rows[0..] == rows;
    while i < |rows|
      invariant 0 <= i <= |rows|
      invariant kept + FirstOccurrences(rows[i..], seen) == FirstOccurrences(rows, {})
    {
      assert rows[i..][1..] == rows[i + 1..];
      if KeyOf(rows[i]) !in seen {
        kept := kept + [rows[i]];
        seen := seen + {KeyOf(rows[i])};
      }
      i := i + 1;
    }
  }

  /** The scan over a concatenation: the second part is judged against
      the keys the first part already showed, so relative order is kept. */
  lemma {:induction false} FirstOccurrencesAppend(a: seq<Record>, b: seq<Record>, seen: set<(string, string)>)
    ensures FirstOccurrences(a + b, seen) == FirstOccurrences(a, seen) + FirstOccurrences(b, seen + KeysOf(a))
    decreases |a|
  {
    if |a| == 0 {
      assert a + b == b;
      assert seen + KeysOf(a) == seen;
    } else {
      assert (a + b)[1..] == a[1..] + b;
      var key := KeyOf(a[0]);
      assert KeysOf(a) == {key} + KeysOf(a[1..]) by {
        assert a == [a[0]] + a[1..];
      }
      if key in seen {
        FirstOccurrencesAppend(a[1..], b, seen);
        assert seen + KeysOf(a[1..]) == seen + KeysOf(a);
      } else {
        FirstOccurrencesAppend(a[1..], b, seen + {key});
        assert seen + {key} + KeysOf(a[1..]) == seen + KeysOf(a);
      }
    }
  }

  /** The first row with a given key survives. */
  lemma FirstOccurrenceKept(rows: seq<Record>, i: nat)
    requires i < |rows|
    requires forall j :: 0 <= j < i ==> KeyOf(rows[j]) != KeyOf(rows[i])
    ensures rows[i] in FirstOccurrences(rows, {})
  {
    FirstOccurrenceKeptFrom(rows, {}, i);
  }

  lemma {:induction false} FirstOccurrenceKeptFrom(rows: seq<Record>, seen: set<(string, string)>, i: nat)
    requires i < |rows| && KeyOf(rows[i]) !in seen
    requires forall j :: 0 <= j < i ==> KeyOf(rows[j]) != KeyOf(rows[i])
    ensures rows[i] in FirstOccurrences(rows, seen)
    decreases i
  {
    if i > 0 {
      var key := KeyOf(rows[0]);
      var next := if key in seen then seen else seen + {key};
      var tail := rows[1..];
      assert tail[i - 1] == rows[i];
      assert forall j :: 0 <= j < i - 1 ==> tail[j] == rows[j + 1];
      FirstOccurrenceKeptFrom(tail, next, i - 1);
      var rest := FirstOccurrences(tail, next);
      assert FirstOccurrences(rows, seen) == if key in seen then rest else [rows[0]] + rest;
    }
  }

  // ------------------------------------------------------------------
  // First-value propagation (`groupby(Title)[...].transform('first')`)

  /** Index of the first row with the given title. */
  function FirstTitleIndex(rows: seq<Record>, title: string): (i: nat)
    requires exists k :: 0 <= k < |rows| && rows[k].title == title
    ensures i < |rows| && rows[i].title == title
    ensures forall k :: 0 <= k < i ==> rows[k].title != title
  {
    if rows[0].title == title then 0
    else
      var k :| 0 <= k < |rows| && rows[k].title == title;
      assert rows[1..][k - 1] == rows[k];
      1 + FirstTitleIndex(rows[1..], title)
  }

  /** Link, SaveLink and Abstract of every row replaced by those of the
      first row with its title. */
  function PropagateFirst(rows: seq<Record>): (out: seq<Record>)
    ensures |out| == |rows|
    ensures forall i :: 0 <= i < |rows| ==>
      out[i].title == rows[i].title && out[i].author == rows[i].author
      && out[i].citedAuthor == rows[i].citedAuthor && out[i].receivedDate == rows[i].receivedDate
  {
    seq(|rows|, i requires 0 <= i < |rows| =>
      var f := rows[FirstTitleIndex(rows, rows[i].title)];
      rows[i].(link := f.link, abstractText := f.abstractText, saveLink := f.saveLink))
  }

  /** Rows with the same title agree on the three propagated columns. */
  lemma PropagateFirstUniform(rows: seq<Record>, i: nat, j: nat)
    requires i < |rows| && j < |rows| && rows[i].title == rows[j].title
    ensures var out := PropagateFirst(rows);
            out[i].link == out[j].link && out[i].saveLink == out[j].saveLink
            && out[i].abstractText == out[j].abstractText
  {
  }

  /** The first row of each title is left as it was. */
  lemma PropagateFirstKeepsFirstRows(rows: seq<Record>, i: nat)
    requires i < |rows|
    requires forall k :: 0 <= k < i ==> rows[k].title != rows[i].title
    ensures PropagateFirst(rows)[i] == rows[i]
  {
    assert FirstTitleIndex(rows, rows[i].title) == i;
  }

  /** Propagating twice changes nothing more. */
  lemma PropagateFirstIdempotent(rows: seq<Record>)
    ensures PropagateFirst(PropagateFirst(rows)) == PropagateFirst(rows)
  {
    var once := PropagateFirst(rows);
    forall i | 0 <= i < |rows|
      ensures PropagateFirst(once)[i] == once[i]
    {
      var f := FirstTitleIndex(rows, rows[i].title);
      assert FirstTitleIndex(once, once[i].title) == f;
      PropagateFirstKeepsFirstRows(rows, f);
    }
  }

  // ------------------------------------------------------------------
  // Chunking (`split_dataframe_into_multiple_dataframes`)

  /** `k` consecutive sections of `s`, the first `r` of length `q + 1` and
      the rest of length `q`. */
  function Sections<T>(s: seq<T>, k: nat, q: nat, r: nat): (parts: seq<seq<T>>)
    requires r <= k && |s| == k * q + r
    ensures |parts| == k
    ensures forall i :: 0 <= i < k ==> |parts[i]| == q + (if i < r then 1 else 0)
    ensures Flatten(parts) == s
    decreases k
  {
    if k == 0 then []
    else
      var size := q + (if r > 0 then 1 else 0);
      PeelFactor(k, q);
      var rest := Sections(s[size..], k - 1, q, if r > 0 then r - 1 else 0);
      assert ([s[..size]] + rest)[1..] == rest;
      assert s == s[..size] + s[size..];
      [s[..size]] + rest
  }

  /** `np.array_split(s, k)`: `k` sections whose lengths differ by at most
      one, the longer ones first, concatenating back to `s`. */
  function ArraySplit<T>(s: seq<T>, k: nat): (parts: seq<seq<T>>)
    requires k > 0
    ensures |parts| == k
    ensures forall i :: 0 <= i < k ==> |parts[i]| == |s| / k + (if i < |s| % k then 1 else 0)
    ensures Flatten(parts) == s
  {
    Sections(s, k, |s| / k, |s| % k)
  }

  /** The frame size above which the frame is split. */
  const SplitThreshold: nat := 10

  /** `max_split_size` */
  const MaxSplitSize: nat := 10

  /** `split_dataframe_into_multiple_dataframes`; None stands for the
      `split_dfs = None` that the inner else branch would return. */
  function SplitFrame<T>(rows: seq<T>): (r: Option<seq<seq<T>>>)
    ensures r.Some?
    ensures |rows| <= SplitThreshold ==> r == Some([rows])
  {
    if |rows| > SplitThreshold then
      if |rows| > MaxSplitSize then Some(ArraySplit(rows, CeilDiv(|rows|, MaxSplitSize)))
      else None
    else Some([rows])
  }

  /** Section sizes for `k = ceil(n / 10)` sections of `n > 10` rows. */
  lemma TenRowSections(n: nat)
    requires n > MaxSplitSize
    ensures var k := CeilDiv(n, MaxSplitSize);
            k > 0 && 1 <= n / k && n / k + (if n % k > 0 then 1 else 0) <= MaxSplitSize
  {
    var k := CeilDiv(n, MaxSplitSize);
    var q, r := n / k, n % k;
    assert n == k * q + r;
    if q > 10 {
      MultiplyMonotone(11, q, k);
    }
  }

  /** A frame of more than ten rows becomes ceil(n/10) non-empty parts of at
      most ten rows, sizes differing by at most one, that concatenate back
      to the frame. */
  lemma SplitFrameSpec<T>(rows: seq<T>)
    requires |rows| > SplitThreshold
    ensures var parts := SplitFrame(rows).value;
            |parts| == CeilDiv(|rows|, MaxSplitSize)
            && Flatten(parts) == rows
            && (forall i :: 0 <= i < |parts| ==> 1 <= |parts[i]| <= MaxSplitSize)
            && (forall i, j :: 0 <= i < |parts| && 0 <= j < |parts| ==> |parts[i]| <= |parts[j]| + 1)
  {
    var n := |rows|;
    var k := CeilDiv(n, MaxSplitSize);
    TenRowSections(n);
  }
}
