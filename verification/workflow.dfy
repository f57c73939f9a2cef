/**
 * `run_clustering_workflow`: the grouping that `perform_clustering`
 * returns, flattened into a two-column (Group, Title) frame.
 */
module Workflow {
  import opened Wrappers
  import opened Seqs
  import opened Clustering

  /** One row of the results frame. */
  datatype GroupRow = GroupRow(group: int, title: string)

  /** A frame: its column names and its rows. */
  datatype Frame = Frame(columns: seq<string>, rows: seq<GroupRow>)

  /** The column names of the results frame. */
  const ResultColumns: seq<string> := ["Group", "Title"]

  /** The rows one group contributes: its key beside each of its titles.
      Reading a group back out of the flattened rows is `SelectFromFlattened`. */
  function GroupRows(g: Group): (rows: seq<GroupRow>)
    ensures |rows| == |g.titles|
    ensures forall i :: 0 <= i < |rows| ==> rows[i].group == g.key && rows[i].title == g.titles[i]
  {
    seq(|g.titles|, i requires 0 <= i < |g.titles| => GroupRow(g.key, g.titles[i]))
  }

  /** `[(key, title) for key, titles in results.items() for title in titles]` */
  function FlattenGroups(groups: seq<Group>): seq<GroupRow> {
    if |groups| == 0 then [] else GroupRows(groups[0]) + FlattenGroups(groups[1..])
  }

  /** One row per (group, title) entry. */
  lemma {:induction false} FlattenGroupsCount(groups: seq<Group>)
    ensures |FlattenGroups(groups)| == TotalTitles(groups)
  {
    if |groups| > 0 {
      FlattenGroupsCount(groups[1..]);
    }
  }

  /** Rows follow the groups' order, so flattening commutes with
      concatenating group lists. */
  lemma {:induction false} FlattenGroupsAppend(a: seq<Group>, b: seq<Group>)
    ensures FlattenGroups(a + b) == FlattenGroups(a) + FlattenGroups(b)
    decreases |a|
  {
    if |a| == 0 {
      assert a + b == b;
    } else {
      assert (a + b)[1..] == a[1..] + b;
      FlattenGroupsAppend(a[1..], b);
    }
  }

  /** A group with no titles contributes no rows. */
  lemma EmptyGroupAddsNothing(a: seq<Group>, key: int, b: seq<Group>)
    ensures FlattenGroups(a + [Group(key, [])] + b) == FlattenGroups(a + b)
  {
    FlattenGroupsAppend(a + [Group(key, [])], b);
    FlattenGroupsAppend(a, [Group(key, [])]);
    FlattenGroupsAppend(a, b);
  }

  /** A row is in the frame exactly when its title is in its group. */
  lemma {:induction false} FlattenGroupsMembership(groups: seq<Group>, row: GroupRow)
    ensures row in FlattenGroups(groups) <==>
      exists k :: 0 <= k < |groups| && groups[k].key == row.group && row.title in groups[k].titles
  {
    if |groups| > 0 {
      FlattenGroupsMembership(groups[1..], row);
      var g := groups[0];
      assert row in GroupRows(g) <==> g.key == row.group && row.title in g.titles by {
        if g.key == row.group && row.title in g.titles {
          var i :| 0 <= i < |g.titles| && g.titles[i] == row.title;
          assert GroupRows(g)[i] == row;
        }
      }
      if exists k :: 0 <= k < |groups| && groups[k].key == row.group && row.title in groups[k].titles {
        var k :| 0 <= k < |groups| && groups[k].key == row.group && row.title in groups[k].titles;
        if k > 0 {
          assert groups[1..][k - 1] == groups[k];
        }
      }
    }
  }

  /** The titles of the rows of group `key`, in row order: what selecting
      `Group == key` from the frame yields. */
  function TitlesOfGroup(rows: seq<GroupRow>, key: int): (titles: seq<string>)
    ensures |titles| <= |rows|
  {
    if |rows| == 0 then []
    else (if rows[0].group == key then [rows[0].title] else []) + TitlesOfGroup(rows[1..], key)
  }

  lemma {:induction false} TitlesOfGroupAppend(a: seq<GroupRow>, b: seq<GroupRow>, key: int)
    ensures TitlesOfGroup(a + b, key) == TitlesOfGroup(a, key) + TitlesOfGroup(b, key)
    decreases |a|
  {
    if |a| == 0 {
      assert a + b == b;
    } else {
      var head := if a[0].group == key then [a[0].title] else [];
      assert (a + b)[0] == a[0];
      assert (a + b)[1..] == a[1..] + b;
      assert TitlesOfGroup(a + b, key) == head + TitlesOfGroup(a[1..] + b, key);
      assert TitlesOfGroup(a, key) == head + TitlesOfGroup(a[1..], key);
      TitlesOfGroupAppend(a[1..], b, key);
    }
  }

  lemma {:induction false} TitlesOfGroupRows(g: Group, key: int)
    ensures TitlesOfGroup(GroupRows(g), key) == if g.key == key then g.titles else []
    decreases |g.titles|
  {
    if |g.titles| > 0 {
      var rest := Group(g.key, g.titles[1..]);
      TitlesOfGroupRows(rest, key);
      assert GroupRows(g)[1..] == GroupRows(rest);
    }
  }

  /** When group keys are distinct, selecting a group's key from the frame
      gives back exactly that group's titles. */
  lemma {:induction false} SelectFromFlattened(groups: seq<Group>, k: nat)
    requires k < |groups|
    requires forall i, j :: 0 <= i < j < |groups| ==> groups[i].key != groups[j].key
    ensures TitlesOfGroup(FlattenGroups(groups), groups[k].key) == groups[k].titles
  {
    var key := groups[k].key;
    assert groups == groups[..k] + [groups[k]] + groups[k + 1..];
    FlattenGroupsAppend(groups[..k] + [groups[k]], groups[k + 1..]);
    FlattenGroupsAppend(groups[..k], [groups[k]]);
    TitlesOfGroupAppend(FlattenGroups(groups[..k]) + FlattenGroups([groups[k]]), FlattenGroups(groups[k + 1..]), key);
    TitlesOfGroupAppend(FlattenGroups(groups[..k]), FlattenGroups([groups[k]]), key);
    NoOtherGroup(groups[..k], key);
    NoOtherGroup(groups[k + 1..], key);
    TitlesOfGroupRows(groups[k], key);
    assert FlattenGroups([groups[k]]) == GroupRows(groups[k]);
  }

  lemma {:induction false} NoOtherGroup(groups: seq<Group>, key: int)
    requires forall i :: 0 <= i < |groups| ==> groups[i].key != key
    ensures TitlesOfGroup(FlattenGroups(groups), key) == []
  {
    if |groups| > 0 {
      NoOtherGroup(groups[1..], key);
      TitlesOfGroupRows(groups[0], key);
      TitlesOfGroupAppend(GroupRows(groups[0]), FlattenGroups(groups[1..]), key);
    }
  }

  /** `run_clustering_workflow(data, method, n_clusters, metric)`: the
      frame, or None where the source logs an exception. */
  function RunClusteringWorkflow(articles: seq<Article>, name: string, nClusters: int, metric: string, fit: Fit)
    : (r: Option<Frame>)
    ensures r.None? <==> ClusteringRaises(articles, nClusters, name, metric, fit)
    ensures r.Some? ==> r.value.columns == ["Group", "Title"]
  {
    match PerformClustering(articles, nClusters, name, metric, fit)
    case Err(_) => None
    case Ok(groups) => Some(Frame(ResultColumns, FlattenGroups(groups)))
  }

  /** The frame has one row per article. */
  lemma RunClusteringWorkflowRows(articles: seq<Article>, name: string, nClusters: int, metric: string, fit: Fit)
    requires RunClusteringWorkflow(articles, name, nClusters, metric, fit).Some?
    ensures |RunClusteringWorkflow(articles, name, nClusters, metric, fit).value.rows| == |articles|
  {
    var groups := PerformClustering(articles, nClusters, name, metric, fit).value;
    PerformClusteringCounts(articles, nClusters, name, metric, fit);
    FlattenGroupsCount(groups);
  }
}
