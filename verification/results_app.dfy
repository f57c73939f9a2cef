/**
 * The paging logic of `DisplayResultsPage`: titles cut into pages of
 * twenty, the Previous/Next buttons, and the group buttons whose label
 * `Group k` is parsed back into the key `k`. Widgets are left out; a page
 * is modelled by the titles it shows and the state of its two buttons.
 */
module ResultsApp {
  import opened Wrappers
  import opened Text
  import opened Seqs
  import opened Clustering
  import opened Workflow

  /** The exceptions the handlers can raise. */
  datatype UiError =
    | ZeroStep          // `range(0, n, 0)`: ValueError
    | IndexOutOfRange   // `titles_lists[page]`: IndexError
    | NotAnInteger      // `int(...)` on a label that is not a number: ValueError

  // ------------------------------------------------------------------
  // `divide_list_into_chunks`

  /** The pages of a positive chunk size: full pages, then the rest. */
  function Chunks<T>(s: seq<T>, size: nat): (chunks: seq<seq<T>>)
    requires size > 0
    ensures |s| > 0 ==> |chunks| > 0
    ensures forall i :: 0 <= i < |chunks| ==> 0 < |chunks[i]| <= size
    ensures forall i :: 0 <= i < |chunks| - 1 ==> |chunks[i]| == size
    decreases |s|
  {
    if |s| == 0 then []
    else if |s| <= size then
      assert [s][1..] == [];
      [s]
    else
      [s[..size]] + Chunks(s[size..], size)
  }

  /** `divide_list_into_chunks(lst, chunk_size)`. A zero step is an error;
      a negative step gives an empty range and so no chunks. */
  function DivideIntoChunks<T>(s: seq<T>, size: int): (r: Result<seq<seq<T>>, UiError>)
    ensures r.Err? <==> size == 0
    ensures size < 0 ==> r == Ok([])
    ensures size > 0 ==> r.Ok? && Flatten(r.value) == s
  {
    if size == 0 then Err(ZeroStep)
    else if size < 0 then Ok([])
    else
      ChunksFlatten(s, size);
      Ok(Chunks(s, size))
  }

  /** The chunks concatenate back to the list. */
  lemma {:induction false} ChunksFlatten<T>(s: seq<T>, size: nat)
    requires size > 0
    ensures Flatten(Chunks(s, size)) == s
    decreases |s|
  {
    if |s| > size {
      var rest := Chunks(s[size..], size);
      ChunksFlatten(s[size..], size);
      assert ([s[..size]] + rest)[1..] == rest;
      assert s == s[..size] + s[size..];
    }
  }

  /** There are ceil(n / size) chunks. */
  lemma ChunkCount<T>(s: seq<T>, size: nat)
    requires size > 0
    ensures |Chunks(s, size)| == CeilDiv(|s|, size)
  {
    ChunkCountBounds(s, size);
    CeilDivUnique(|s|, size, |Chunks(s, size)|);
  }

  lemma {:induction false} ChunkCountBounds<T>(s: seq<T>, size: nat)
    requires size > 0
    ensures var c := |Chunks(s, size)|;
            |s| <= c * size && (c == 0 || (c - 1) * size < |s|)
    decreases |s|
  {
    if |s| > size {
      var rest := Chunks(s[size..], size);
      ChunkCountBounds(s[size..], size);
      PeelFactor(|rest| + 1, size);
      PeelFactor(|rest|, size);
    }
  }

  /** Chunk `i` is the slice `lst[i*size : i*size + size]`, as the list
      comprehension takes it. */
  lemma ChunksAreSlices<T>(s: seq<T>, size: nat, i: nat)
    requires size > 0 && i < |Chunks(s, size)|
    ensures i * size < |s|
    ensures Chunks(s, size)[i] == s[i * size..if i * size + size <= |s| then i * size + size else |s|]
  {
    ChunkAt(s, size, i);
    OffsetIsProduct(i, size);
  }

  /** `i * size` without the multiplication. */
  function Offset(i: nat, size: nat): nat {
    if i == 0 then 0 else Offset(i - 1, size) + size
  }

  lemma {:induction false} OffsetIsProduct(i: nat, size: nat)
    ensures Offset(i, size) == i * size
  {
    if i > 0 {
      OffsetIsProduct(i - 1, size);
      PeelFactor(i, size);
    }
  }

  lemma {:induction false} ChunkAt<T>(s: seq<T>, size: nat, i: nat)
    requires size > 0 && i < |Chunks(s, size)|
    ensures Offset(i, size) < |s|
    ensures Chunks(s, size)[i] == s[Offset(i, size)..if Offset(i, size) + size <= |s| then Offset(i, size) + size else |s|]
    decreases i
  {
    if i == 0 {
      ChunkFirst(s, size);
    } else {
      ChunkRest(s, size, i);
      var t := s[size..];
      var prev := Offset(i - 1, size);
      ChunkAt(t, size, i - 1);
      var stop := if prev + size <= |t| then prev + size else |t|;
      assert Chunks(t, size)[i - 1] == t[prev..stop];
      SliceOfTail(s, size, prev, stop);
      assert Offset(i, size) == prev + size;
    }
  }

  lemma ChunkFirst<T>(s: seq<T>, size: nat)
    requires size > 0 && 0 < |Chunks(s, size)|
    ensures 0 < |s|
    ensures Chunks(s, size)[0] == s[0..if size <= |s| then size else |s|]
  {
  }

  lemma ChunkRest<T>(s: seq<T>, size: nat, i: nat)
    requires size > 0 && 0 < i < |Chunks(s, size)|
    ensures size < |s|
    ensures i - 1 < |Chunks(s[size..], size)|
    ensures Chunks(s, size)[i] == Chunks(s[size..], size)[i - 1]
  {
    assert size < |s|;
    var rest := Chunks(s[size..], size);
    assert Chunks(s, size) == [s[..size]] + rest;
    assert Chunks(s, size)[i] == rest[i - 1];
  }

  lemma SliceOfTail<T>(s: seq<T>, size: nat, lo: nat, hi: nat)
    requires size <= |s| && lo <= hi <= |s| - size
    ensures s[size..][lo..hi] == s[lo + size..hi + size]
  {
  }

  // ------------------------------------------------------------------
  // Pages and the Previous/Next buttons

  datatype NavButton = PreviousPage | NextPage

  datatype ButtonState = Normal | Disabled

  /** What `display_page_titles` shows: a page of titles and two buttons. */
  datatype PageView = PageView(titles: seq<string>, previous: ButtonState, next: ButtonState)

  /** The state a button gets on page `page` of `count` pages. */
  function ButtonStateOf(count: nat, page: int, b: NavButton): (state: ButtonState)
    ensures b == PreviousPage ==> (state == Disabled <==> page == 0)
    ensures b == NextPage ==> (state == Disabled <==> page == count - 1)
  {
    match b
    case PreviousPage => if page == 0 then Disabled else Normal
    case NextPage => if page == count - 1 then Disabled else Normal
  }

  /** `display_page_titles(page)`, with Python's indexing: a negative page
      counts from the end, anything else out of range raises. */
  function DisplayPage(chunks: seq<seq<string>>, page: int): (r: Result<PageView, UiError>)
    ensures r.Ok? <==> -|chunks| <= page < |chunks|
    ensures r.Ok? && page >= 0 ==> r.value.titles == chunks[page]
    ensures r.Ok? && page < 0 ==> r.value.titles == chunks[|chunks| + page]
    ensures r.Ok? ==> (r.value.previous == Disabled <==> page == 0)
    ensures r.Ok? ==> (r.value.next == Disabled <==> page == |chunks| - 1)
  {
    var n := |chunks|;
    if -n <= page < n then
      var titles := if page >= 0 then chunks[page] else chunks[n + page];
      Ok(PageView(titles, ButtonStateOf(n, page, PreviousPage), ButtonStateOf(n, page, NextPage)))
    else Err(IndexOutOfRange)
  }

  /** A single page disables both buttons. */
  lemma SinglePageDisablesBoth(chunks: seq<seq<string>>)
    requires |chunks| == 1
    ensures DisplayPage(chunks, 0) == Ok(PageView(chunks[0], Disabled, Disabled))
  {
  }

  /** `hande_page_navigation_event`: a disabled button does nothing. */
  function Navigate(count: nat, page: int, b: NavButton): (next: int)
    ensures page - 1 <= next <= page + 1
  {
    if ButtonStateOf(count, page, b) == Disabled then page
    else if b == PreviousPage then page - 1
    else page + 1
  }

  /** Navigation never leaves the pages. */
  lemma NavigateInRange(count: nat, page: int, b: NavButton)
    requires 0 <= page < count
    ensures 0 <= Navigate(count, page, b) < count
    ensures b == PreviousPage && page > 0 ==> Navigate(count, page, b) == page - 1
    ensures b == NextPage && page < count - 1 ==> Navigate(count, page, b) == page + 1
  {
  }

  /** The page reached from page 0 by a sequence of clicks. */
  function Walk(count: nat, clicks: seq<NavButton>): int
    decreases |clicks|
  {
    if |clicks| == 0 then 0
    else Navigate(count, Walk(count, clicks[..|clicks| - 1]), clicks[|clicks| - 1])
  }

  /** Once the first page is shown, no sequence of clicks reaches a page
      that cannot be displayed. */
  lemma {:induction false} WalkDisplays(chunks: seq<seq<string>>, clicks: seq<NavButton>)
    requires |chunks| > 0
    ensures 0 <= Walk(|chunks|, clicks) < |chunks|
    ensures DisplayPage(chunks, Walk(|chunks|, clicks)).Ok?
    decreases |clicks|
  {
    if |clicks| > 0 {
      WalkDisplays(chunks, clicks[..|clicks| - 1]);
      NavigateInRange(|chunks|, Walk(|chunks|, clicks[..|clicks| - 1]), clicks[|clicks| - 1]);
    }
  }

  // ------------------------------------------------------------------
  // Group buttons

  const AllButton: string := "All"

  const GroupPrefix: string := "Group "

  /** Titles per page. */
  const PageSize: nat := 20

  /** `f'Group {cluster}'` */
  function GroupButtonText(key: int): string {
    GroupPrefix + IntToString(key)
  }

  /** `int(button_text.replace('Group ', ''))`, None for a ValueError. */
  function ParseGroupButton(text: string): Option<int> {
    ParseInt(Replace(text, GroupPrefix, ""))
  }

  /** Every key survives the label round trip. */
  lemma GroupButtonRoundTrip(key: int)
    ensures ParseGroupButton(GroupButtonText(key)) == Some(key)
  {
    var digits := IntToString(key);
    NumberHasNoPrefix(key);
    StripGroupPrefix(digits);
    ParseIntToString(key);
  }

  /** A printed integer is a sign and digits, so it cannot contain "Group ". */
  lemma NumberHasNoPrefix(key: int)
    ensures !Contains(IntToString(key), GroupPrefix)
  {
    var digits := IntToString(key);
    assert forall k :: 0 <= k < |digits| ==> digits[k] != GroupPrefix[0] by {
      if key < 0 {
        assert digits == "-" + NatToString(-key);
      }
    }
    NotContainsWithoutFirst(digits, GroupPrefix);
  }

  /** The replace removes exactly the leading "Group ". */
  lemma StripGroupPrefix(rest: string)
    requires !Contains(rest, GroupPrefix)
    ensures Replace(GroupPrefix + rest, GroupPrefix, "") == rest
  {
    var text := GroupPrefix + rest;
    assert IsPrefix(GroupPrefix, text) && text[|GroupPrefix|..] == rest;
    ReplaceAbsent(rest, GroupPrefix, "");
  }

  /** The titles a button selects: every metadata title for "All", else
      the frame's titles of the parsed group. */
  function SelectTitles(text: string, metadataTitles: seq<string>, rows: seq<GroupRow>): (r: Result<seq<string>, UiError>)
    ensures text == AllButton ==> r == Ok(metadataTitles)
    ensures text != AllButton ==> (r.Err? <==> ParseGroupButton(text).None?)
  {
    if text == AllButton then Ok(metadataTitles)
    else
      match ParseGroupButton(text)
      case None => Err(NotAnInteger)
      case Some(key) => Ok(TitlesOfGroup(rows, key))
  }

  /** `handle_cluster_button_click`: select, cut into pages of twenty, show
      the first page. */
  function ClusterButtonClick(text: string, metadataTitles: seq<string>, rows: seq<GroupRow>): (r: Result<PageView, UiError>)
    ensures SelectTitles(text, metadataTitles, rows).Err? ==> r == Err(SelectTitles(text, metadataTitles, rows).error)
    ensures r.Ok? ==> r.value.previous == Disabled
  {
    var titles :- SelectTitles(text, metadataTitles, rows);
    match DivideIntoChunks(titles, PageSize)
    case Err(e) => Err(e)
    case Ok(chunks) => DisplayPage(chunks, 0)
  }

  /** A click shows the first twenty selected titles with Previous
      disabled, and fails with an IndexError when nothing is selected;
      "All" with no articles is one such case. */
  lemma ClusterButtonClickSpec(text: string, metadataTitles: seq<string>, rows: seq<GroupRow>)
    requires SelectTitles(text, metadataTitles, rows).Ok?
    ensures var titles := SelectTitles(text, metadataTitles, rows).value;
            var r := ClusterButtonClick(text, metadataTitles, rows);
            (|titles| == 0 ==> r == Err(IndexOutOfRange))
            && (|titles| > 0 ==>
                  (r.Ok? && r.value.previous == Disabled
                   && r.value.titles == titles[..if |titles| < PageSize then |titles| else PageSize]))
  {
    var titles := SelectTitles(text, metadataTitles, rows).value;
    var chunks := Chunks(titles, PageSize);
    if |titles| > 0 {
      ChunksAreSlices(titles, PageSize, 0);
    }
  }

  /** Clicking the button of a group of a results frame selects exactly
      that group's titles. */
  lemma GroupButtonSelectsGroup(groups: seq<Group>, k: nat, metadataTitles: seq<string>)
    requires k < |groups|
    requires forall i, j :: 0 <= i < j < |groups| ==> groups[i].key != groups[j].key
    ensures SelectTitles(GroupButtonText(groups[k].key), metadataTitles, FlattenGroups(groups)) == Ok(groups[k].titles)
  {
    var text := GroupButtonText(groups[k].key);
    assert text[0] == 'G';
    assert text != AllButton;
    GroupButtonRoundTrip(groups[k].key);
    SelectFromFlattened(groups, k);
  }

  /** End to end: on the frame the clustering workflow produces, the button
      of a group shows that group's titles, which are the titles of the
      rows the fitted labelling gave its key. */
  lemma WorkflowButtonsSelectGroups(articles: seq<Article>, name: string, nClusters: int, metric: string,
                                    fit: Fit, k: nat, metadataTitles: seq<string>)
    requires PerformClustering(articles, nClusters, name, metric, fit).Ok?
    requires k < |PerformClustering(articles, nClusters, name, metric, fit).value|
    ensures var groups := PerformClustering(articles, nClusters, name, metric, fit).value;
            var frame := RunClusteringWorkflow(articles, name, nClusters, metric, fit).value;
            SelectTitles(GroupButtonText(groups[k].key), metadataTitles, frame.rows) == Ok(groups[k].titles)
  {
    var groups := PerformClustering(articles, nClusters, name, metric, fit).value;
    GroupByLabelSpec(Titles(articles), Labels(articles, FittedLabelling(articles, nClusters, name, metric, fit)));
    var keys := seq(|groups|, i requires 0 <= i < |groups| => groups[i].key);
    assert forall i, j :: 0 <= i < j < |groups| ==> groups[i].key != groups[j].key by {
      forall i, j | 0 <= i < j < |groups|
        ensures groups[i].key != groups[j].key
      {
        assert keys[i] < keys[j];
      }
    }
    GroupButtonSelectsGroup(groups, k, metadataTitles);
  }
}
