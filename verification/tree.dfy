/** The tree assembler of app/crud.py (`get_project_tasks_as_tree`).

    A flat list of tasks, each carrying an optional parent identity, is
    turned into a forest. The forest is kept at the identity level: the list
    of root identities, and for every task identity the ordered list of the
    identities nested under it (its `subtasks`).
 */
module Tree {
  import opened Tasks

  /** Roots in output order, and the `subtasks` list of every task, by identity. */
  datatype Forest = Forest(roots: seq<int>, subtasks: map<int, seq<int>>)

  /** Python truthiness of `parent_id`: both `None` and `0` read as "no parent". */
  predicate HasNoParent(t: Task)
  {
    t.parentId == None || t.parentId == Some(0)
  }

  /** `t` names `p` as its parent, and `p` is a truthy identity. */
  predicate IsChildOf(t: Task, p: int)
  {
    p != 0 && t.parentId == Some(p)
  }

  /** The identities of the tasks that `keep` selects, in list order. */
  function Select(ts: seq<Task>, keep: Task -> bool): (r: seq<int>)
    ensures |r| <= |ts|
  {
    if |ts| == 0 then []
    else Select(ts[..|ts| - 1], keep) + (if keep(ts[|ts| - 1]) then [ts[|ts| - 1].id] else [])
  }

  /** Reference definition of the root list: the parentless tasks, in input order. */
  function RootIds(ts: seq<Task>): seq<int>
  {
    Select(ts, HasNoParent)
  }

  /** Reference definition of the `subtasks` of `p`: the tasks naming `p` as parent, in input order. */
  function ChildIds(ts: seq<Task>, p: int): seq<int>
  {
    Select(ts, t => IsChildOf(t, p))
  }

  /** `f` holds exactly the roots and `subtasks` lists the reference definitions give for `ts`. */
  predicate AssembledFrom(f: Forest, ts: seq<Task>)
  {
    && f.roots == RootIds(ts)
    && f.subtasks.Keys == Ids(ts)
    && (forall p :: p in f.subtasks ==> f.subtasks[p] == ChildIds(ts, p))
  }

  /** `path` starts at a root of `f` and steps each time into the `subtasks` of the previous identity. */
  predicate IsPath(f: Forest, path: seq<int>)
  {
    && |path| > 0
    && path[0] in f.roots
    && (forall k :: 0 <= k < |path| - 1 ==> path[k] in f.subtasks && path[k + 1] in f.subtasks[path[k]])
  }

  /** `x` belongs to the returned forest: a caller, who receives only the roots,
      reaches it by descending through `subtasks`. */
  ghost predicate Reachable(f: Forest, x: int)
  {
    exists path :: IsPath(f, path) && path[|path| - 1] == x
  }

  /** The two passes of `get_project_tasks_as_tree`: first one empty node per
      identity, then each task is appended to its parent's node, made a root,
      or dropped when its parent is not among the tasks. */
  method AssembleTree(tasks: seq<Task>) returns (f: Forest)
    requires UniqueIds(tasks)
    ensures f.roots == RootIds(tasks)
    ensures f.subtasks.Keys == Ids(tasks)
    ensures forall p :: p in f.subtasks ==> f.subtasks[p] == ChildIds(tasks, p)
    ensures forall i :: 0 <= i < |tasks| ==>
              multiset(f.roots)[tasks[i].id] == (if HasNoParent(tasks[i]) then 1 else 0)
    ensures forall i, p :: 0 <= i < |tasks| && p in f.subtasks ==>
              multiset(f.subtasks[p])[tasks[i].id] == (if IsChildOf(tasks[i], p) then 1 else 0)
    ensures |tasks| == 0 ==> f.roots == [] && f.subtasks == map[]
    ensures AssembledFrom(f, tasks)
  {
    var nodes := EmptyNodes(tasks);
    var roots;
    roots, nodes := NestTasks(tasks, nodes);
    f := Forest(roots, nodes);
    AssembledCounts(tasks, f);
  }

  /** First pass: an empty node for every identity. */
  method EmptyNodes(tasks: seq<Task>) returns (nodes: map<int, seq<int>>)
    ensures nodes.Keys == Ids(tasks)
    ensures forall p :: p in nodes ==> nodes[p] == []
  {
    nodes := map[];
    var i := 0;
    while i < |tasks|
      invariant 0 <= i <= |tasks|
      invariant nodes.Keys == Ids(tasks[..i])
      invariant forall p :: p in nodes ==> nodes[p] == []
    {
      IdsOfLongerPrefix(tasks, i);
      nodes := nodes[tasks[i].id := []];
      i := i + 1;
    }
    assert tasks[..|tasks|] == tasks;
  }

  /** Second pass: make each parentless task a root and append every other
      task to its parent's node, in input order, dropping it when the parent
      has no node. */
  method NestTasks(tasks: seq<Task>, empty: map<int, seq<int>>) returns (roots: seq<int>, nodes: map<int, seq<int>>)
    requires empty.Keys == Ids(tasks)
    requires forall p :: p in empty ==> empty[p] == []
    ensures roots == RootIds(tasks)
    ensures nodes.Keys == Ids(tasks)
    ensures forall p :: p in nodes ==> nodes[p] == ChildIds(tasks, p)
  {
    nodes := empty;
    roots := [];
    var i := 0;
    while i < |tasks|
      invariant 0 <= i <= |tasks|
      invariant nodes.Keys == Ids(tasks)
      invariant roots == RootIds(tasks[..i])
      invariant forall p :: p in nodes ==> nodes[p] == ChildIds(tasks[..i], p)
    {
      var t := tasks[i];
      var before := nodes;
      RootsOfLongerPrefix(tasks, i);
      if HasNoParent(t) {
        roots := roots + [t.id];
      } else if t.parentId.value in nodes {
        var q := t.parentId.value;
        nodes := nodes[q := nodes[q] + [t.id]];
      }
      NodesOfLongerPrefix(tasks, i, before, nodes);
      i := i + 1;
    }
    assert tasks[..|tasks|] == tasks;
  }


  /** One more task of the list adds its identity to the identities of the prefix. */
  lemma IdsOfLongerPrefix(ts: seq<Task>, i: int)
    requires 0 <= i < |ts|
    ensures Ids(ts[..i + 1]) == Ids(ts[..i]) + {ts[i].id}
  {
  }

  /** One more task of the list extends the roots of the prefix when it is parentless. */
  lemma RootsOfLongerPrefix(ts: seq<Task>, i: int)
    requires 0 <= i < |ts|
    ensures RootIds(ts[..i + 1]) == RootIds(ts[..i]) + (if HasNoParent(ts[i]) then [ts[i].id] else [])
  {
    assert ts[..i + 1] == ts[..i] + [ts[i]];
    RootIdsSnoc(ts[..i], ts[i]);
  }

  /** The second pass's update of the nodes for task `i` turns the `subtasks`
      of the first `i` tasks into those of the first `i + 1`. */
  lemma NodesOfLongerPrefix(ts: seq<Task>, i: int, before: map<int, seq<int>>, after: map<int, seq<int>>)
    requires 0 <= i < |ts|
    requires before.Keys == Ids(ts)
    requires forall p :: p in before ==> before[p] == ChildIds(ts[..i], p)
    requires HasNoParent(ts[i]) || ts[i].parentId.value !in before ==> after == before
    requires !HasNoParent(ts[i]) && ts[i].parentId.value in before ==>
               var q := ts[i].parentId.value;
               after == before[q := before[q] + [ts[i].id]]
    ensures after.Keys == Ids(ts)
    ensures forall p :: p in after ==> after[p] == ChildIds(ts[..i + 1], p)
  {
    assert ts[..i + 1] == ts[..i] + [ts[i]];
    forall p | p in after
      ensures after[p] == ChildIds(ts[..i + 1], p)
    {
      ChildIdsSnoc(ts[..i], ts[i], p);
    }
  }

  /** With unique identities, an assembled forest holds each parentless task
      once among the roots and each child once in its parent's `subtasks`. */
  lemma AssembledCounts(ts: seq<Task>, f: Forest)
    requires UniqueIds(ts)
    requires AssembledFrom(f, ts)
    ensures forall i :: 0 <= i < |ts| ==>
              multiset(f.roots)[ts[i].id] == (if HasNoParent(ts[i]) then 1 else 0)
    ensures forall i, p :: 0 <= i < |ts| && p in f.subtasks ==>
              multiset(f.subtasks[p])[ts[i].id] == (if IsChildOf(ts[i], p) then 1 else 0)
  {
    forall k | 0 <= k < |ts|
      ensures multiset(f.roots)[ts[k].id] == (if HasNoParent(ts[k]) then 1 else 0)
    {
      SelectCount(ts, HasNoParent, k);
    }
    forall k, p | 0 <= k < |ts| && p in f.subtasks
      ensures multiset(f.subtasks[p])[ts[k].id] == (if IsChildOf(ts[k], p) then 1 else 0)
    {
      SelectCount(ts, t => IsChildOf(t, p), k);
    }
  }


  /** A task whose parent identity is truthy but names no task of the list is
      dropped: it is neither a root nor in any task's `subtasks`. */
  lemma DanglingTaskDropped(ts: seq<Task>, i: int)
    requires UniqueIds(ts)
    requires 0 <= i < |ts|
    requires ts[i].parentId.Some? && ts[i].parentId.value != 0
    requires ts[i].parentId.value !in Ids(ts)
    ensures ts[i].id !in RootIds(ts)
    ensures forall p :: p in Ids(ts) ==> ts[i].id !in ChildIds(ts, p)
  {
    SelectCount(ts, HasNoParent, i);
    forall p | p in Ids(ts)
      ensures ts[i].id !in ChildIds(ts, p)
    {
      SelectCount(ts, t => IsChildOf(t, p), i);
    }
  }

  /** A task whose parent identity is its own identity is listed in its own
      `subtasks`: the assembler does not guard against the self-loop. */
  lemma SelfParentIsOwnSubtask(ts: seq<Task>, i: int)
    requires 0 <= i < |ts|
    requires ts[i].id != 0 && ts[i].parentId == Some(ts[i].id)
    ensures ts[i].id in Ids(ts)
    ensures ts[i].id in ChildIds(ts, ts[i].id)
    ensures UniqueIds(ts) ==> ts[i].id !in RootIds(ts)
  {
    var p := ts[i].id;
    SelectMembership(ts, t => IsChildOf(t, p), p);
    if UniqueIds(ts) {
      SelectCount(ts, HasNoParent, i);
    }
  }

  /** When no task names the falsy parent `0`, a task is a root exactly when it
      has no parent, and a task with a parent is in that parent's `subtasks`. */
  lemma TasksPlacedByParent(ts: seq<Task>)
    requires UniqueIds(ts)
    requires forall k :: 0 <= k < |ts| ==> ts[k].parentId != Some(0)
    ensures forall j :: 0 <= j < |ts| ==>
              && (ts[j].id in RootIds(ts) <==> ts[j].parentId == None)
              && (ts[j].parentId.Some? ==> ts[j].id in ChildIds(ts, ts[j].parentId.value))
  {
    forall j | 0 <= j < |ts|
      ensures ts[j].id in RootIds(ts) <==> ts[j].parentId == None
      ensures ts[j].parentId.Some? ==> ts[j].id in ChildIds(ts, ts[j].parentId.value)
    {
      RootMembership(ts, ts[j].id);
      if ts[j].parentId.Some? {
        ChildMembership(ts, ts[j].parentId.value, ts[j].id);
      }
    }
  }

  /** A set of identities whose tasks all name a truthy parent inside the set,
      such as a task naming itself or the tasks of a parent cycle. */
  predicate ParentClosed(ts: seq<Task>, s: set<int>)
  {
    forall i :: 0 <= i < |ts| && ts[i].id in s ==>
      ts[i].parentId.Some? && ts[i].parentId.value != 0 && ts[i].parentId.value in s
  }

  /** No path from a root ends inside a parent-closed set. */
  lemma {:induction false} NoPathEndsInParentClosed(ts: seq<Task>, f: Forest, s: set<int>, path: seq<int>)
    requires AssembledFrom(f, ts)
    requires ParentClosed(ts, s)
    requires IsPath(f, path)
    ensures path[|path| - 1] !in s
    decreases |path|
  {
    var n := |path|;
    var x := path[n - 1];
    if n == 1 {
      RootMembership(ts, x);
    } else {
      var prev := path[n - 2];
      var init := path[..n - 1];
      assert forall k :: 0 <= k < n - 1 ==> init[k] == path[k];
      assert IsPath(f, init);
      NoPathEndsInParentClosed(ts, f, s, init);
      ChildMembership(ts, prev, x);
    }
  }

  /** The tasks of a parent-closed set are absent from the returned forest:
      they sit in the internal map only, out of reach of every root. */
  lemma ParentClosedUnreachable(ts: seq<Task>, f: Forest, s: set<int>, x: int)
    requires AssembledFrom(f, ts)
    requires ParentClosed(ts, s)
    requires x in s
    ensures !Reachable(f, x)
  {
    forall path | IsPath(f, path)
      ensures path[|path| - 1] != x
    {
      NoPathEndsInParentClosed(ts, f, s, path);
    }
  }

  /** A task naming itself as parent is listed in its own `subtasks` in the
      internal map, yet it is not part of the returned forest. */
  lemma SelfParentUnreachable(ts: seq<Task>, f: Forest, i: int)
    requires UniqueIds(ts)
    requires AssembledFrom(f, ts)
    requires 0 <= i < |ts|
    requires ts[i].id != 0 && ts[i].parentId == Some(ts[i].id)
    ensures ts[i].id in f.subtasks && ts[i].id in f.subtasks[ts[i].id]
    ensures !Reachable(f, ts[i].id)
  {
    SelfParentIsOwnSubtask(ts, i);
    ParentClosedUnreachable(ts, f, {ts[i].id}, ts[i].id);
  }

  /** Every identity the forest reaches is the identity of an input task. */
  lemma ReachableIsInputTask(ts: seq<Task>, f: Forest, x: int)
    requires AssembledFrom(f, ts)
    ensures Reachable(f, x) ==> x in Ids(ts)
  {
    if Reachable(f, x) {
      var path :| IsPath(f, path) && path[|path| - 1] == x;
      var n := |path|;
      if n == 1 {
        RootMembership(ts, x);
      } else {
        ChildMembership(ts, path[n - 2], x);
      }
    }
  }

  /** A reachable task with a truthy parent is reached through that parent. */
  lemma ReachableParentReachable(ts: seq<Task>, f: Forest, i: int)
    requires UniqueIds(ts)
    requires AssembledFrom(f, ts)
    requires 0 <= i < |ts| && !HasNoParent(ts[i])
    ensures Reachable(f, ts[i].id) ==> Reachable(f, ts[i].parentId.value)
  {
    if Reachable(f, ts[i].id) {
      var x := ts[i].id;
      var path :| IsPath(f, path) && path[|path| - 1] == x;
      var n := |path|;
      RootMembership(ts, x);
      assert n > 1;
      var prev := path[n - 2];
      ChildMembership(ts, prev, x);
      assert prev == ts[i].parentId.value;
      var init := path[..n - 1];
      assert forall k :: 0 <= k < n - 1 ==> init[k] == path[k];
      assert IsPath(f, init) && init[|init| - 1] == prev;
    }
  }

  /** Whatever hangs below a task the forest does not reach is not reached either. */
  lemma UnreachableParentHidesChild(ts: seq<Task>, f: Forest, i: int)
    requires UniqueIds(ts)
    requires AssembledFrom(f, ts)
    requires 0 <= i < |ts| && !HasNoParent(ts[i])
    requires !Reachable(f, ts[i].parentId.value)
    ensures !Reachable(f, ts[i].id)
  {
    ReachableParentReachable(ts, f, i);
  }

  /** A task whose truthy parent names no input task is not in the returned forest. */
  lemma DanglingUnreachable(ts: seq<Task>, f: Forest, i: int)
    requires UniqueIds(ts)
    requires AssembledFrom(f, ts)
    requires 0 <= i < |ts|
    requires ts[i].parentId.Some? && ts[i].parentId.value != 0
    requires ts[i].parentId.value !in Ids(ts)
    ensures !Reachable(f, ts[i].id)
  {
    ReachableIsInputTask(ts, f, ts[i].parentId.value);
    UnreachableParentHidesChild(ts, f, i);
  }

  /** When every task is parentless or names a truthy parent that appears
      earlier in the list, the whole list is reachable in its forest. */
  lemma {:induction false} EarlierParentsAllReachable(ts: seq<Task>, f: Forest, j: int)
    requires AssembledFrom(f, ts)
    requires forall k :: 0 <= k < |ts| && ts[k].parentId.Some? ==>
               ts[k].parentId.value != 0 && exists i :: 0 <= i < k && ts[i].id == ts[k].parentId.value
    requires 0 <= j < |ts|
    ensures Reachable(f, ts[j].id)
    decreases j
  {
    var x := ts[j].id;
    if ts[j].parentId.None? {
      RootMembership(ts, x);
      assert IsPath(f, [x]);
    } else {
      var p := ts[j].parentId.value;
      var i :| 0 <= i < j && ts[i].id == p;
      EarlierParentsAllReachable(ts, f, i);
      var path :| IsPath(f, path) && path[|path| - 1] == p;
      assert p in Ids(ts);
      ChildMembership(ts, p, x);
      var longer := path + [x];
      assert IsPath(f, longer) && longer[|longer| - 1] == x;
    }
  }

  /** Roots keep the order of the input list. */
  lemma RootsInInputOrder(ts: seq<Task>, i: int, j: int)
    requires 0 <= i < j < |ts|
    requires HasNoParent(ts[i]) && HasNoParent(ts[j])
    ensures exists a, b :: 0 <= a < b < |RootIds(ts)| &&
              RootIds(ts)[a] == ts[i].id && RootIds(ts)[b] == ts[j].id
  {
    SelectOrder(ts, HasNoParent, i, j);
    var r := RootIds(ts);
    var a, b :| 0 <= a < b < |r| && r[a] == ts[i].id && r[b] == ts[j].id;
  }

  /** The `subtasks` of a task keep the order of the input list. */
  lemma SubtasksInInputOrder(ts: seq<Task>, p: int, i: int, j: int)
    requires 0 <= i < j < |ts|
    requires IsChildOf(ts[i], p) && IsChildOf(ts[j], p)
    ensures exists a, b :: 0 <= a < b < |ChildIds(ts, p)| &&
              ChildIds(ts, p)[a] == ts[i].id && ChildIds(ts, p)[b] == ts[j].id
  {
    SelectOrder(ts, t => IsChildOf(t, p), i, j);
    var c := ChildIds(ts, p);
    var a, b :| 0 <= a < b < |c| && c[a] == ts[i].id && c[b] == ts[j].id;
  }

  /** An identity is a root exactly when some parentless task carries it. */
  lemma RootMembership(ts: seq<Task>, x: int)
    ensures x in RootIds(ts) <==> exists i :: 0 <= i < |ts| && HasNoParent(ts[i]) && ts[i].id == x
  {
    SelectMembership(ts, HasNoParent, x);
  }

  /** An identity is in the `subtasks` of `p` exactly when some task carrying
      it names `p` as parent. */
  lemma ChildMembership(ts: seq<Task>, p: int, x: int)
    ensures x in ChildIds(ts, p) <==> exists i :: 0 <= i < |ts| && IsChildOf(ts[i], p) && ts[i].id == x
  {
    SelectMembership(ts, t => IsChildOf(t, p), x);
  }

  /** Appending a task to the list appends it to the roots when it is parentless. */
  lemma RootIdsSnoc(ts: seq<Task>, t: Task)
    ensures RootIds(ts + [t]) == RootIds(ts) + (if HasNoParent(t) then [t.id] else [])
  {
  }

  /** Appending a task to the list appends it to the `subtasks` of the parent it names. */
  lemma ChildIdsSnoc(ts: seq<Task>, t: Task, p: int)
    ensures ChildIds(ts + [t], p) == ChildIds(ts, p) + (if IsChildOf(t, p) then [t.id] else [])
  {
  }

  /** An identity is selected exactly when some selected task carries it. */
  lemma {:induction false} SelectMembership(ts: seq<Task>, keep: Task -> bool, x: int)
    ensures x in Select(ts, keep) <==> exists i :: 0 <= i < |ts| && keep(ts[i]) && ts[i].id == x
  {
    if |ts| > 0 {
      var init := ts[..|ts| - 1];
      SelectMembership(init, keep, x);
      assert forall i :: 0 <= i < |init| ==> init[i] == ts[i];
    }
  }

  /** With unique identities, a selected task is listed once and any other task not at all. */
  lemma {:induction false} SelectCount(ts: seq<Task>, keep: Task -> bool, i: int)
    requires UniqueIds(ts)
    requires 0 <= i < |ts|
    ensures multiset(Select(ts, keep))[ts[i].id] == (if keep(ts[i]) then 1 else 0)
  {
    var n := |ts| - 1;
    var init := ts[..n];
    assert UniqueIds(init) by {
      assert forall k :: 0 <= k < n ==> init[k] == ts[k];
    }
    if i == n {
      SelectMembership(init, keep, ts[i].id);
      forall k | 0 <= k < |init|
        ensures init[k].id != ts[i].id
      {
        assert init[k] == ts[k];
      }
    } else {
      SelectCount(init, keep, i);
      assert init[i] == ts[i];
      assert ts[n].id != ts[i].id;
    }
  }

  /** Selection keeps the relative order of the input list. */
  lemma {:induction false} SelectOrder(ts: seq<Task>, keep: Task -> bool, i: int, j: int)
    requires 0 <= i < j < |ts|
    requires keep(ts[i]) && keep(ts[j])
    ensures exists a, b :: 0 <= a < b < |Select(ts, keep)| &&
              Select(ts, keep)[a] == ts[i].id && Select(ts, keep)[b] == ts[j].id
  {
    var n := |ts| - 1;
    var init := ts[..n];
    var pre := Select(init, keep);
    var s := Select(ts, keep);
    assert forall k :: 0 <= k < |init| ==> init[k] == ts[k];
    assert s[..|pre|] == pre;
    if j == n {
      SelectMembership(init, keep, ts[i].id);
      var a :| 0 <= a < |pre| && pre[a] == ts[i].id;
      assert s[a] == ts[i].id && s[|pre|] == ts[j].id;
    } else {
      SelectOrder(init, keep, i, j);
      var a, b :| 0 <= a < b < |pre| && pre[a] == ts[i].id && pre[b] == ts[j].id;
      assert s[a] == ts[i].id && s[b] == ts[j].id;
    }
  }
}
