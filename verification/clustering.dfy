/**
 * `ClusterEngine` of modules/clustering.py: the reference-set similarity
 * table, the binary feature encoding of the reference lists, the table that
 * picks a clustering estimator, the grouping of titles by label and the
 * guard in front of the quality scores. The clustering algorithms and the
 * scores are library code; they enter the model as uninterpreted functions.
 */
module Clustering {
  import opened Wrappers
  import opened Text
  import opened Seqs

  /** One row of the articles table as the engine reads it: the title and the
      stored reference text, which is NULL for articles never looked up. */
  datatype Article = Article(title: string, references: Option<string>)

  /** The token stored for an article whose references could not be found. */
  const NotAvailable: string := "N/A"

  // ------------------------------------------------------------------
  // Jaccard similarity on reference sets

  lemma SubsetCardinality<T>(x: set<T>, y: set<T>)
    requires x <= y
    ensures |y| == |x| + |y - x|
    ensures |x| == |y| ==> x == y
  {
    assert y == x + (y - x);
    assert x * (y - x) == {};
  }

  /** `|A ∩ B| / |A ∪ B|`, computed exactly. The source has no guard for an
      empty union, so the model asks for a non-empty one. */
  function Jaccard(a: set<string>, b: set<string>): (r: real)
    requires a + b != {}
    ensures 0.0 <= r <= 1.0
    ensures r == 0.0 <==> a * b == {}
    ensures r == 1.0 <==> a == b
  {
    var common := |a * b|;
    var all := |a + b|;
    SubsetCardinality(a * b, a + b);
    assert common == all ==> a == b by {
      if common == all {
        assert a * b == a + b;
      }
    }
    assert common == 0 <==> a * b == {};
    var r := (common as real) / (all as real);
    assert r * (all as real) == common as real;
    r
  }

  lemma JaccardSymmetric(a: set<string>, b: set<string>)
    requires a + b != {}
    ensures Jaccard(a, b) == Jaccard(b, a)
  {
    assert a * b == b * a;
    assert a + b == b + a;
  }

  // ------------------------------------------------------------------
  // The pairwise similarity table (`calculate_jaccard_similarity`)

  predicate HasReferences(a: Article) {
    a.references.Some?
  }

  /** The rows that take part in the similarity table, in table order. */
  function WithReferences(articles: seq<Article>): (present: seq<Article>)
    ensures forall k :: 0 <= k < |present| ==> present[k].references.Some? && present[k] in articles
    ensures forall k :: 0 <= k < |articles| && articles[k].references.Some? ==> articles[k] in present
  {
    Filter(articles, HasReferences)
  }

  /** `set(x.split(","))`: the set path cuts at a bare comma, so the blank
      after a comma stays in the next identifier, and "N/A" is kept. A split
      always yields at least one piece, so the set is never empty. */
  function ReferenceSet(refs: string): (r: set<string>)
    ensures r != {}
    ensures forall t :: t in r ==> !Contains(t, ",")
  {
    var pieces := Split(refs, ",");
    var r := set t | t in pieces;
    assert pieces[0] in r;
    r
  }

  /** The set path on two concrete reference texts. */
  lemma SetPathExamples()
    ensures ReferenceSet("a, b") == {"a", " b"}
    ensures Jaccard(ReferenceSet("N/A"), ReferenceSet("N/A")) == 1.0
  {
    var e, b, sb, csb, all := "", "b", " b", ", b", "a, b";
    assert b[1..] == e && sb[1..] == b && csb[1..] == sb && all[1..] == csb;
    assert !IsPrefix(",", b) && !IsPrefix(",", sb) && !IsPrefix(",", all);
    assert IsPrefix(",", csb);
    assert Split(e, ",") == [""];
    SplitStep(b, ",");
    assert [b[0]] + "" == "b";
    assert Split(b, ",") == ["b"];
    SplitStep(sb, ",");
    assert [sb[0]] + "b" == " b";
    assert Split(sb, ",") == [" b"];
    assert Split(csb, ",") == ["", " b"];
    SplitStep(all, ",");
    assert [all[0]] + "" == "a";
    assert Split("a, b", ",") == ["a", " b"];
  }

  /** Lexicographic order on index pairs. */
  predicate PairBefore(p: (nat, nat), q: (nat, nat)) {
    p.0 < q.0 || (p.0 == q.0 && p.1 < q.1)
  }

  /** The pairs `(a, b)`, `i <= a < b < m`, in the order `combinations` yields them. */
  function PairsFrom(i: nat, m: nat): (pairs: seq<(nat, nat)>)
    ensures forall k :: 0 <= k < |pairs| ==> i <= pairs[k].0 < pairs[k].1 < m
    ensures forall k, l :: 0 <= k < l < |pairs| ==> PairBefore(pairs[k], pairs[l])
    ensures forall a: nat, b: nat :: i <= a < b < m ==> (a, b) in pairs
    decreases m - i
  {
    if i >= m then []
    else
      var row := seq(m - i - 1, k requires 0 <= k < m - i - 1 => (i, i + 1 + k));
      var rest := PairsFrom(i + 1, m);
      assert forall b: nat :: i < b < m ==> row[b - i - 1] == (i, b);
      row + rest
  }

  /** `combinations(range(m), 2)`: every unordered pair of positions exactly
      once, as (earlier, later), in lexicographic order. */
  function Combinations(m: nat): (pairs: seq<(nat, nat)>)
    ensures forall k :: 0 <= k < |pairs| ==> pairs[k].0 < pairs[k].1 < m
    ensures forall k, l :: 0 <= k < l < |pairs| ==> PairBefore(pairs[k], pairs[l])
    ensures forall a: nat, b: nat :: a < b < m ==> (a, b) in pairs
  {
    PairsFrom(0, m)
  }

  /** One row of the similarity table. */
  datatype SimilarityRow = SimilarityRow(title1: string, title2: string, similarity: real)

  function PairRow(present: seq<Article>, i: nat, j: nat): SimilarityRow
    requires i < |present| && j < |present|
    requires present[i].references.Some? && present[j].references.Some?
  {
    SimilarityRow(present[i].title, present[j].title,
                  Jaccard(ReferenceSet(present[i].references.value),
                          ReferenceSet(present[j].references.value)))
  }

  predicate NonZero(r: SimilarityRow) {
    r.similarity != 0.0
  }

  /** All rows the loop appends, one per pair in `combinations` order. */
  function AllPairRows(present: seq<Article>): (rows: seq<SimilarityRow>)
    requires forall k :: 0 <= k < |present| ==> present[k].references.Some?
  {
    var pairs := Combinations(|present|);
    seq(|pairs|, k requires 0 <= k < |pairs| => PairRow(present, pairs[k].0, pairs[k].1))
  }

  /** `calculate_jaccard_similarity`: NULL rows dropped, every pair scored,
      zero scores dropped. */
  function SimilarityTable(articles: seq<Article>): seq<SimilarityRow> {
    Filter(AllPairRows(WithReferences(articles)), NonZero)
  }

  /** Every row of the table is a pair of non-NULL rows, earlier row first,
      with a similarity in (0, 1]. */
  lemma SimilarityTableRows(articles: seq<Article>, k: nat)
    requires k < |SimilarityTable(articles)|
    ensures var row := SimilarityTable(articles)[k];
            0.0 < row.similarity <= 1.0 &&
            exists i: nat, j: nat :: i < j < |WithReferences(articles)| && row == PairRow(WithReferences(articles), i, j)
  {
    var present := WithReferences(articles);
    var pairs := Combinations(|present|);
    var all := AllPairRows(present);
    var row := SimilarityTable(articles)[k];
    assert row in all && NonZero(row);
    var idx :| 0 <= idx < |all| && all[idx] == row;
    assert row == PairRow(present, pairs[idx].0, pairs[idx].1);
  }

  /** Every pair of non-NULL rows with a non-zero similarity is in the table. */
  lemma SimilarityTableComplete(articles: seq<Article>, i: nat, j: nat)
    requires i < j < |WithReferences(articles)|
    requires NonZero(PairRow(WithReferences(articles), i, j))
    ensures PairRow(WithReferences(articles), i, j) in SimilarityTable(articles)
  {
    var present := WithReferences(articles);
    var pairs := Combinations(|present|);
    var all := AllPairRows(present);
    assert (i, j) in pairs;
    var idx :| 0 <= idx < |pairs| && pairs[idx] == (i, j);
    assert all[idx] == PairRow(present, i, j);
  }

  // ------------------------------------------------------------------
  // The feature vectors (front half of `perform_clustering`)

  /** How the vector path reads the references column: `x.split(", ")`, or
      `[]` for NULL. */
  function Tokens(a: Article): (tokens: seq<string>)
    ensures |tokens| == 0 <==> a.references.None?
  {
    match a.references
    case None => []
    case Some(refs) => Split(refs, ", ")
  }

  /** The identifier universe: every token of every row, except "N/A". */
  function Universe(articles: seq<Article>): set<string> {
    set a, t | a in articles && t in Tokens(a) && t != NotAvailable :: t
  }

  /** `cols` lists the set `u`, each member once. */
  predicate Enumerates(cols: seq<string>, u: set<string>) {
    NoDuplicates(cols) && (forall t :: t in cols ==> t in u) && (forall t :: t in u ==> t in cols)
  }

  function AddTokens(cols: seq<string>, tokens: seq<string>): (r: seq<string>)
    requires NoDuplicates(cols)
    ensures NoDuplicates(r)
    ensures forall t :: t in r <==> t in cols || (t in tokens && t != NotAvailable)
    decreases |tokens|
  {
    if |tokens| == 0 then cols
    else if tokens[0] == NotAvailable || tokens[0] in cols then AddTokens(cols, tokens[1..])
    else AddTokens(cols + [tokens[0]], tokens[1..])
  }

  /** One column order for the universe: first appearance. The source lists
      a Python set, whose order it does not fix; every lemma about the
      matrix below holds for any enumeration. */
  function UniverseColumns(articles: seq<Article>): (cols: seq<string>)
    ensures Enumerates(cols, Universe(articles))
    decreases |articles|
  {
    if |articles| == 0 then []
    else
      var init := articles[..|articles| - 1];
      var last := articles[|articles| - 1];
      var cols := AddTokens(UniverseColumns(init), Tokens(last));
      assert articles == init + [last];
      assert forall t :: t in Universe(articles) <==> t in Universe(init) || (t in Tokens(last) && t != NotAvailable);
      cols
  }

  /** One presence row: 1 where the column's identifier is among the tokens.
      `FeatureRowDecodes` reads the row back as the row's own identifiers. */
  function FeatureRow(tokens: seq<string>, cols: seq<string>): (row: seq<int>)
    ensures |row| == |cols|
    ensures forall j :: 0 <= j < |cols| ==> row[j] == (if cols[j] in tokens then 1 else 0)
  {
    seq(|cols|, j requires 0 <= j < |cols| => if cols[j] in tokens then 1 else 0)
  }

  /** The matrix `X`: one row per article, NULL rows included. What each row
      says about its article is `FeatureRowDecodes` and `UnreferencedRowsAreZero`. */
  function FeatureMatrix(articles: seq<Article>, cols: seq<string>): (x: seq<seq<int>>)
    ensures |x| == |articles|
    ensures forall i :: 0 <= i < |x| ==> x[i] == FeatureRow(Tokens(articles[i]), cols)
  {
    seq(|articles|, i requires 0 <= i < |articles| => FeatureRow(Tokens(articles[i]), cols))
  }

  /** The universe is free of "N/A". */
  lemma NotAvailableOutsideUniverse(articles: seq<Article>)
    ensures NotAvailable !in Universe(articles)
  {
  }

  /** Over any enumeration of the universe, a row reads back as the row's
      own identifiers minus "N/A": the encoding loses nothing else. */
  lemma FeatureRowDecodes(articles: seq<Article>, cols: seq<string>, i: nat)
    requires Enumerates(cols, Universe(articles)) && i < |articles|
    ensures var row := FeatureMatrix(articles, cols)[i];
            (set j | 0 <= j < |cols| && row[j] == 1 :: cols[j])
              == (set t | t in Tokens(articles[i]) && t != NotAvailable)
  {
    var a := articles[i];
    var row := FeatureMatrix(articles, cols)[i];
    var decoded := set j | 0 <= j < |cols| && row[j] == 1 :: cols[j];
    var own := set t | t in Tokens(a) && t != NotAvailable;
    forall t | t in own
      ensures t in decoded
    {
      assert t in Universe(articles);
      var j :| 0 <= j < |cols| && cols[j] == t;
      assert row[j] == 1;
    }
    forall t | t in decoded
      ensures t in own
    {
      var j :| 0 <= j < |cols| && row[j] == 1 && cols[j] == t;
      assert t in Universe(articles);
    }
  }

  /** A NULL row, or one whose only identifiers are "N/A", is all zeros. */
  lemma UnreferencedRowsAreZero(articles: seq<Article>, cols: seq<string>, i: nat)
    requires Enumerates(cols, Universe(articles)) && i < |articles|
    requires forall t :: t in Tokens(articles[i]) ==> t == NotAvailable
    ensures forall j :: 0 <= j < |cols| ==> FeatureMatrix(articles, cols)[i][j] == 0
  {
    forall j | 0 <= j < |cols|
      ensures FeatureMatrix(articles, cols)[i][j] == 0
    {
      assert cols[j] in Universe(articles);
    }
  }

  // ------------------------------------------------------------------
  // Choosing the estimator (the `algorithms` table)

  datatype Linkage = Average | Complete

  /** The estimators the table can hold. `precomputed` is `metric="precomputed"`. */
  datatype Estimator =
    | KMeans(nClusters: int)
    | KMedoids(nClusters: int, precomputed: bool)
    | Agglomerative(nClusters: int, linkage: Linkage, precomputed: bool)

  /** What the clustering step can raise: `KeyError` for an unknown method name,
      the `AttributeError` of calling `fit` on the `None` entry, and the
      `ValueError` the clustering library raises from `fit` itself. */
  datatype ClusterError = UnknownMethod(name: string) | NoEstimator | FitFailed

  const Euclidean: string := "euclidean"

  /** The `algorithms` dictionary built for one call. */
  function Algorithms(nClusters: int, metric: string): map<string, Option<Estimator>> {
    map[
      "KMeans" := if metric == Euclidean then Some(KMeans(nClusters)) else None,
      "KMedoids" := Some(KMedoids(nClusters, metric != Euclidean)),
      "Agglomerative" :=
        if metric == Euclidean then Some(Agglomerative(nClusters, Average, false))
        else Some(Agglomerative(nClusters, Complete, true))
    ]
  }

  function SelectEstimator(name: string, metric: string, nClusters: int): (r: Result<Estimator, ClusterError>)
    ensures r == Err(UnknownMethod(name)) <==> name !in {"KMeans", "KMedoids", "Agglomerative"}
    ensures r == Err(NoEstimator) <==> name == "KMeans" && metric != Euclidean
    ensures r.Ok? ==> r.value.nClusters == nClusters
    ensures r.Ok? && !r.value.KMeans? ==> (r.value.precomputed <==> metric != Euclidean)
    ensures r.Ok? && r.value.Agglomerative? ==> (r.value.linkage == Average <==> metric == Euclidean)
    ensures r.Ok? ==> ((name == "KMeans" <==> r.value.KMeans?)
                       && (name == "KMedoids" <==> r.value.KMedoids?)
                       && (name == "Agglomerative" <==> r.value.Agglomerative?))
  {
    var table := Algorithms(nClusters, metric);
    if name !in table then Err(UnknownMethod(name))
    else if table[name].None? then Err(NoEstimator)
    else Ok(table[name].value)
  }

  /** What `fit` is given: the feature matrix itself, or (for any metric
      other than "euclidean") `squareform(pdist(X, metric='jaccard'))` of it,
      which is library code and stays symbolic here. */
  datatype FitInput = Features(x: seq<seq<int>>) | JaccardDistances(x: seq<seq<int>>)

  function FitInputFor(metric: string, x: seq<seq<int>>): (input: FitInput)
    ensures input.x == x
    ensures input.Features? <==> metric == Euclidean
  {
    if metric != Euclidean then JaccardDistances(x) else Features(x)
  }

  // ------------------------------------------------------------------
  // Grouping titles by label

  predicate StrictlyIncreasing(s: seq<int>) {
    forall i, j :: 0 <= i < j < |s| ==> s[i] < s[j]
  }

  function InsertSorted(keys: seq<int>, x: int): (r: seq<int>)
    requires StrictlyIncreasing(keys)
    ensures StrictlyIncreasing(r)
    ensures forall l :: l in r <==> l in keys || l == x
  {
    if |keys| == 0 then [x]
    else if x < keys[0] then [x] + keys
    else if x == keys[0] then keys
    else
      var rest := InsertSorted(keys[1..], x);
      assert forall k :: 0 <= k < |rest| ==> keys[0] < rest[k] by {
        forall k | 0 <= k < |rest|
          ensures keys[0] < rest[k]
        {
          assert rest[k] in rest;
        }
      }
      [keys[0]] + rest
  }

  /** `np.unique(labels)`: the distinct labels, ascending. */
  function UniqueLabels(labels: seq<int>): (keys: seq<int>)
    ensures StrictlyIncreasing(keys)
    ensures forall l :: l in keys <==> l in labels
    decreases |labels|
  {
    if |labels| == 0 then []
    else
      var keys := InsertSorted(UniqueLabels(labels[..|labels| - 1]), labels[|labels| - 1]);
      assert labels == labels[..|labels| - 1] + [labels[|labels| - 1]];
      keys
  }

  /** One entry of `cluster_groups`, kept in the dictionary's key order. */
  datatype Group = Group(key: int, titles: seq<string>)

  /** `{i: [] for i in np.unique(labels)}` */
  function EmptyGroups(keys: seq<int>): seq<Group> {
    seq(|keys|, k requires 0 <= k < |keys| => Group(keys[k], []))
  }

  /** `cluster_groups[label].append(title)` */
  function AddTitle(groups: seq<Group>, key: int, title: string): seq<Group> {
    seq(|groups|, k requires 0 <= k < |groups| =>
      if groups[k].key == key then Group(key, groups[k].titles + [title]) else groups[k])
  }

  /** The loop over `enumerate(labels)`, run on the first |titles| rows. */
  function AssignTitles(groups: seq<Group>, titles: seq<string>, labels: seq<int>): seq<Group>
    requires |titles| == |labels|
    decreases |titles|
  {
    if |titles| == 0 then groups
    else
      var n := |titles| - 1;
      AddTitle(AssignTitles(groups, titles[..n], labels[..n]), labels[n], titles[n])
  }

  /** `cluster_groups` as `perform_clustering` builds it. */
  function GroupByLabel(titles: seq<string>, labels: seq<int>): seq<Group>
    requires |titles| == |labels|
  {
    AssignTitles(EmptyGroups(UniqueLabels(labels)), titles, labels)
  }

  /** Reference definition: the titles at the positions labelled `l`, in
      position order. */
  function TitlesLabelled(titles: seq<string>, labels: seq<int>, l: int): seq<string>
    requires |titles| == |labels|
    decreases |titles|
  {
    if |titles| == 0 then []
    else (if labels[0] == l then [titles[0]] else []) + TitlesLabelled(titles[1..], labels[1..], l)
  }

  lemma {:induction false} TitlesLabelledSnoc(titles: seq<string>, labels: seq<int>, l: int)
    requires |titles| == |labels| > 0
    ensures var n := |titles| - 1;
            TitlesLabelled(titles, labels, l)
              == TitlesLabelled(titles[..n], labels[..n], l) + (if labels[n] == l then [titles[n]] else [])
    decreases |titles|
  {
    var n := |titles| - 1;
    if n > 0 {
      TitlesLabelledSnoc(titles[1..], labels[1..], l);
      assert titles[1..][..n - 1] == titles[..n][1..];
      assert labels[1..][..n - 1] == labels[..n][1..];
    }
  }

  lemma {:induction false} TitlesLabelledMembers(titles: seq<string>, labels: seq<int>, l: int, t: string)
    requires |titles| == |labels|
    ensures t in TitlesLabelled(titles, labels, l)
            <==> exists i :: 0 <= i < |titles| && labels[i] == l && titles[i] == t
    decreases |titles|
  {
    if |titles| > 0 {
      TitlesLabelledMembers(titles[1..], labels[1..], l, t);
      if exists i :: 0 <= i < |titles| && labels[i] == l && titles[i] == t {
        var i :| 0 <= i < |titles| && labels[i] == l && titles[i] == t;
        if i > 0 {
          assert labels[1..][i - 1] == l && titles[1..][i - 1] == t;
        }
      }
      if t in TitlesLabelled(titles[1..], labels[1..], l) {
        var i :| 0 <= i < |titles[1..]| && labels[1..][i] == l && titles[1..][i] == t;
        assert labels[i + 1] == l && titles[i + 1] == t;
      }
    }
  }

  /** The loop fills the group for key `keys[k]` with exactly the titles
      labelled `keys[k]`, in encounter order. */
  lemma {:induction false} AssignTitlesContents(keys: seq<int>, titles: seq<string>, labels: seq<int>)
    requires |titles| == |labels|
    ensures var groups := AssignTitles(EmptyGroups(keys), titles, labels);
            |groups| == |keys| &&
            forall k :: 0 <= k < |keys| ==> groups[k] == Group(keys[k], TitlesLabelled(titles, labels, keys[k]))
    decreases |titles|
  {
    if |titles| > 0 {
      var n := |titles| - 1;
      AssignTitlesContents(keys, titles[..n], labels[..n]);
      forall k | 0 <= k < |keys|
        ensures TitlesLabelled(titles, labels, keys[k])
                == TitlesLabelled(titles[..n], labels[..n], keys[k]) + (if labels[n] == keys[k] then [titles[n]] else [])
      {
        TitlesLabelledSnoc(titles, labels, keys[k]);
      }
    }
  }

  /** Number of titles over all groups. */
  function TotalTitles(groups: seq<Group>): nat {
    if |groups| == 0 then 0 else |groups[0].titles| + TotalTitles(groups[1..])
  }

  function LabelledCount(labels: seq<int>, l: int): nat {
    if |labels| == 0 then 0 else (if labels[0] == l then 1 else 0) + LabelledCount(labels[1..], l)
  }

  lemma {:induction false} TitlesLabelledLength(titles: seq<string>, labels: seq<int>, l: int)
    requires |titles| == |labels|
    ensures |TitlesLabelled(titles, labels, l)| == LabelledCount(labels, l)
    decreases |titles|
  {
    if |titles| > 0 {
      TitlesLabelledLength(titles[1..], labels[1..], l);
    }
  }

  /** Summing, over distinct keys that cover every label, how often each
      key occurs counts every position once. */
  lemma {:induction false} CountsOverKeys(keys: seq<int>, labels: seq<int>)
    requires StrictlyIncreasing(keys)
    requires forall l :: l in labels ==> l in keys
    ensures TotalTitles(seq(|keys|, k requires 0 <= k < |keys| => Group(keys[k], seq(LabelledCount(labels, keys[k]), _ => ""))))
            == |labels|
    decreases |labels|
  {
    var counts := seq(|keys|, k requires 0 <= k < |keys| => Group(keys[k], seq(LabelledCount(labels, keys[k]), _ => "")));
    if |labels| == 0 {
      ZeroCounts(counts);
    } else {
      CountsOverKeys(keys, labels[1..]);
      var rest := seq(|keys|, k requires 0 <= k < |keys| => Group(keys[k], seq(LabelledCount(labels[1..], keys[k]), _ => "")));
      var first := labels[0];
      assert first in labels;
      assert first in keys;
      var pos :| 0 <= pos < |keys| && keys[pos] == first;
      TotalOneMore(counts, rest, pos);
    }
  }

  lemma {:induction false} ZeroCounts(groups: seq<Group>)
    requires forall k :: 0 <= k < |groups| ==> |groups[k].titles| == 0
    ensures TotalTitles(groups) == 0
    decreases |groups|
  {
    if |groups| > 0 {
      ZeroCounts(groups[1..]);
    }
  }

  /** Two group lists that differ by one title in the group at `pos`. */
  lemma {:induction false} TotalOneMore(g: seq<Group>, h: seq<Group>, pos: nat)
    requires |g| == |h| && pos < |g|
    requires |g[pos].titles| == |h[pos].titles| + 1
    requires forall k :: 0 <= k < |g| && k != pos ==> |g[k].titles| == |h[k].titles|
    ensures TotalTitles(g) == TotalTitles(h) + 1
    decreases |g|
  {
    if pos == 0 {
      TotalSame(g[1..], h[1..]);
    } else {
      TotalOneMore(g[1..], h[1..], pos - 1);
    }
  }

  lemma {:induction false} TotalSame(g: seq<Group>, h: seq<Group>)
    requires |g| == |h|
    requires forall k :: 0 <= k < |g| ==> |g[k].titles| == |h[k].titles|
    ensures TotalTitles(g) == TotalTitles(h)
    decreases |g|
  {
    if |g| > 0 {
      TotalSame(g[1..], h[1..]);
    }
  }

  /** What `cluster_groups` holds: its keys are the distinct labels in
      ascending order; the entry for a key lists exactly the titles of the
      rows with that key, in row order; there are as many entries as rows. */
  lemma GroupByLabelSpec(titles: seq<string>, labels: seq<int>)
    requires |titles| == |labels|
    ensures var groups := GroupByLabel(titles, labels);
            && StrictlyIncreasing(seq(|groups|, k requires 0 <= k < |groups| => groups[k].key))
            && (forall l :: l in labels <==> exists k :: 0 <= k < |groups| && groups[k].key == l)
            && (forall k :: 0 <= k < |groups| ==> groups[k].titles == TitlesLabelled(titles, labels, groups[k].key))
            && TotalTitles(groups) == |titles|
  {
    var keys := UniqueLabels(labels);
    var groups := GroupByLabel(titles, labels);
    AssignTitlesContents(keys, titles, labels);
    forall l | l in labels
      ensures exists k :: 0 <= k < |groups| && groups[k].key == l
    {
      var k :| 0 <= k < |keys| && keys[k] == l;
      assert groups[k].key == l;
    }
    var counts := seq(|keys|, k requires 0 <= k < |keys| => Group(keys[k], seq(LabelledCount(labels, keys[k]), _ => "")));
    forall k | 0 <= k < |keys|
      ensures |groups[k].titles| == |counts[k].titles|
    {
      TitlesLabelledLength(titles, labels, keys[k]);
    }
    TotalSame(groups, counts);
    CountsOverKeys(keys, labels);
  }

  /** Every title lands in the group of its own row's key, and only there. */
  lemma GroupMembership(titles: seq<string>, labels: seq<int>, k: nat, t: string)
    requires |titles| == |labels|
    requires k < |GroupByLabel(titles, labels)|
    ensures var g := GroupByLabel(titles, labels)[k];
            t in g.titles <==> exists i :: 0 <= i < |titles| && labels[i] == g.key && titles[i] == t
  {
    AssignTitlesContents(UniqueLabels(labels), titles, labels);
    var g := GroupByLabel(titles, labels)[k];
    TitlesLabelledMembers(titles, labels, g.key, t);
  }

  // ------------------------------------------------------------------
  // `perform_clustering` end to end

  /** The `labels_` of a fitted estimator: the key it gives to row `i`.
      One key per row holds by construction. */
  type Labelling = nat -> int

  /** The clustering library's `fit`, left uninterpreted: the labelling, or
      `None` where the library raises for a reason the model does not decide
      (a degenerate input, a convergence failure). */
  type Fit = (Estimator, FitInput) -> Option<Labelling>

  /** Every estimator in the table checks `n_clusters` against the number of
      rows it is fitted on and raises `ValueError` outside `1..rows`. */
  predicate ClusterCountFits(nClusters: int, rows: nat)
  {
    1 <= nClusters <= rows
  }

  /** `article_vectors` as a matrix: one row per article over all cited DOIs. */
  function ArticleVectors(articles: seq<Article>): (x: seq<seq<int>>)
    ensures |x| == |articles|
  {
    FeatureMatrix(articles, UniverseColumns(articles))
  }

  function Titles(articles: seq<Article>): (titles: seq<string>)
    ensures |titles| == |articles|
    ensures forall i :: 0 <= i < |articles| ==> titles[i] == articles[i].title
  {
    seq(|articles|, i requires 0 <= i < |articles| => articles[i].title)
  }

  function Labels(articles: seq<Article>, labelling: Labelling): (labels: seq<int>)
    ensures |labels| == |articles|
    ensures forall i :: 0 <= i < |articles| ==> labels[i] == labelling(i)
  {
    seq(|articles|, i requires 0 <= i < |articles| => labelling(i))
  }

  /** `perform_clustering` raises: the method name or the metric selects no
      estimator, `n_clusters` does not fit the row count, or the library's
      own `fit` fails. */
  predicate ClusteringRaises(articles: seq<Article>, nClusters: int, name: string, metric: string, fit: Fit)
  {
    || SelectEstimator(name, metric, nClusters).Err?
    || !ClusterCountFits(nClusters, |articles|)
    || fit(SelectEstimator(name, metric, nClusters).value, FitInputFor(metric, ArticleVectors(articles))).None?
  }

  function PerformClustering(articles: seq<Article>, nClusters: int, name: string, metric: string, fit: Fit)
    : (r: Result<seq<Group>, ClusterError>)
    ensures r.Err? <==> ClusteringRaises(articles, nClusters, name, metric, fit)
    ensures SelectEstimator(name, metric, nClusters).Err? ==> r == Err(SelectEstimator(name, metric, nClusters).error)
    ensures SelectEstimator(name, metric, nClusters).Ok? && r.Err? ==> r.error == FitFailed
  {
    var x := ArticleVectors(articles);
    var estimator :- SelectEstimator(name, metric, nClusters);
    var input := FitInputFor(metric, x);
    if !ClusterCountFits(nClusters, |articles|) then Err(FitFailed)
    else
      match fit(estimator, input)
      case None => Err(FitFailed)
      case Some(labelling) => Ok(GroupByLabel(Titles(articles), Labels(articles, labelling)))
  }

  /** The labelling a successful call grouped by. */
  function FittedLabelling(articles: seq<Article>, nClusters: int, name: string, metric: string, fit: Fit): Labelling
    requires !ClusteringRaises(articles, nClusters, name, metric, fit)
  {
    fit(SelectEstimator(name, metric, nClusters).value, FitInputFor(metric, ArticleVectors(articles))).value
  }

  /** Asking for more clusters than there are articles always raises, whatever
      the library does: the defaults of ten clusters over three articles fail. */
  lemma MoreClustersThanArticlesRaises(articles: seq<Article>, nClusters: int, name: string, metric: string, fit: Fit)
    requires nClusters > |articles|
    ensures PerformClustering(articles, nClusters, name, metric, fit).Err?
  {
  }

  /** A successful call groups every article exactly once: the group count
      is the number of distinct labels and the entries add up to the rows. */
  lemma PerformClusteringCounts(articles: seq<Article>, nClusters: int, name: string, metric: string, fit: Fit)
    requires PerformClustering(articles, nClusters, name, metric, fit).Ok?
    ensures TotalTitles(PerformClustering(articles, nClusters, name, metric, fit).value) == |articles|
  {
    var labelling := FittedLabelling(articles, nClusters, name, metric, fit);
    GroupByLabelSpec(Titles(articles), Labels(articles, labelling));
  }

  // ------------------------------------------------------------------
  // `analyse_cluster_results`

  datatype Scores = Scores(silhouette: Option<real>, daviesBouldin: Option<real>, calinskiHarabasz: Option<real>)

  /** The library scores, by name; the precomputed silhouette is
      `silhouette_score(..., metric='precomputed')`. */
  datatype Score = Silhouette | PrecomputedSilhouette | DaviesBouldin | CalinskiHarabasz

  /** The scoring library, left uninterpreted. */
  type Scorer = (Score, seq<seq<real>>, seq<int>) -> real

  /** `1 - data`, elementwise. */
  function Complement(m: seq<seq<real>>): (c: seq<seq<real>>)
    ensures |c| == |m|
    ensures forall i :: 0 <= i < |m| ==> |c[i]| == |m[i]|
    ensures forall i, j :: 0 <= i < |m| && 0 <= j < |m[i]| ==> c[i][j] + m[i][j] == 1.0
  {
    seq(|m|, i requires 0 <= i < |m| => seq(|m[i]|, j requires 0 <= j < |m[i]| => 1.0 - m[i][j]))
  }

  /** Converting twice gives the matrix back, so a double conversion would
      hand the precomputed silhouette similarities instead of distances. */
  lemma ComplementTwice(m: seq<seq<real>>)
    ensures Complement(Complement(m)) == m
  {
    var c := Complement(Complement(m));
    forall i | 0 <= i < |m|
      ensures c[i] == m[i]
    {
    }
  }

  /** The methods scored on the data as given. */
  predicate CentroidMethod(name: string) {
    name in ["KMeans", "KMeans++", "BisectKMeans"]
  }

  /** `len(np.unique(clusters)) > 1` */
  predicate SeveralClusters(labels: seq<int>) {
    |set l | l in labels| > 1
  }

  function AnalyseClusterResults(labels: seq<int>, data: seq<seq<real>>, name: string, score: Scorer): (r: Scores)
    ensures r.silhouette.Some? <==> exists i, j :: 0 <= i < |labels| && 0 <= j < |labels| && labels[i] != labels[j]
    ensures r.silhouette.Some? <==> r.daviesBouldin.Some?
    ensures r.silhouette.Some? <==> r.calinskiHarabasz.Some?
    ensures r.daviesBouldin.Some? ==> r.daviesBouldin.value == score(DaviesBouldin, data, labels)
    ensures r.calinskiHarabasz.Some? ==> r.calinskiHarabasz.value == score(CalinskiHarabasz, data, labels)
    ensures r.silhouette.Some? && CentroidMethod(name) ==> r.silhouette.value == score(Silhouette, data, labels)
    ensures r.silhouette.Some? && !CentroidMethod(name) ==>
              r.silhouette.value == score(PrecomputedSilhouette, Complement(data), labels)
  {
    SeveralClustersIff(labels);
    if SeveralClusters(labels) then
      if CentroidMethod(name) then
        Scores(Some(score(Silhouette, data, labels)),
               Some(score(DaviesBouldin, data, labels)),
               Some(score(CalinskiHarabasz, data, labels)))
      else
        var m := Complement(data);
        Scores(Some(score(PrecomputedSilhouette, m, labels)),
               Some(score(DaviesBouldin, data, labels)),
               Some(score(CalinskiHarabasz, data, labels)))
    else
      Scores(None, None, None)
  }

  /** More than one distinct key means two positions with different labels. */
  lemma SeveralClustersIff(labels: seq<int>)
    ensures SeveralClusters(labels)
            <==> exists i, j :: 0 <= i < |labels| && 0 <= j < |labels| && labels[i] != labels[j]
  {
    var distinct := set l | l in labels;
    if exists i, j :: 0 <= i < |labels| && 0 <= j < |labels| && labels[i] != labels[j] {
      var i, j :| 0 <= i < |labels| && 0 <= j < |labels| && labels[i] != labels[j];
      assert {labels[i], labels[j]} <= distinct;
      assert |{labels[i], labels[j]}| == 2;
      SubsetCardinality({labels[i], labels[j]}, distinct);
    } else if |labels| > 0 {
      assert distinct == {labels[0]};
    } else {
      assert distinct == {};
    }
  }
}
