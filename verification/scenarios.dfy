/** What an import leaves behind, read back through the tree assembler,
    and worked examples of the level tracker. */
module Scenarios {
  import opened Tasks
  import opened Tree
  import opened Importer

  /** The tasks an import from a fresh tracker creates, in creation order. */
  function Imported(store: Store, rows: seq<Row>, accepts: seq<bool>, projectId: int): seq<Task>
    requires |accepts| == |rows|
  {
    CreatedTasks(Import(Start(store), rows, accepts, projectId).1)
  }

  /** The tasks of one import have distinct identities, every parent they name
      is one of them, and in the assembled forest every edge goes from a
      smaller identity to a larger one, so no imported task is its own
      ancestor. With positive identities an imported task is a root exactly
      when it has no parent, and otherwise it is in its parent's `subtasks`. */
  lemma ImportedForestIsAcyclic(store: Store, rows: seq<Row>, accepts: seq<bool>, projectId: int)
    requires |accepts| == |rows|
    ensures var cs := Imported(store, rows, accepts, projectId);
            && UniqueIds(cs)
            && (forall j :: 0 <= j < |cs| && cs[j].parentId.Some? ==> cs[j].parentId.value in Ids(cs))
            && (forall p, x :: x in ChildIds(cs, p) ==> p < x)
            && (store.nextId > 0 ==>
                  forall j :: 0 <= j < |cs| ==>
                    && (cs[j].id in RootIds(cs) <==> cs[j].parentId == None)
                    && (cs[j].parentId.Some? ==> cs[j].id in ChildIds(cs, cs[j].parentId.value)))
  {
    var cs := Imported(store, rows, accepts, projectId);
    ImportedParentsPrecedeChildren(store, rows, accepts, projectId);
    forall j | 0 <= j < |cs| && cs[j].parentId.Some?
      ensures cs[j].parentId.value in Ids(cs)
    {
      var i :| 0 <= i < j && cs[i].id == cs[j].parentId.value;
    }
    forall p, x | x in ChildIds(cs, p)
      ensures p < x
    {
      ChildMembership(cs, p, x);
    }
    if store.nextId > 0 {
      assert forall k :: 0 <= k < |cs| ==> cs[k].parentId != Some(0);
      TasksPlacedByParent(cs);
    }
  }

  /** With positive identities the forest assembled from one import's tasks
      reaches every one of them: nothing an import creates is lost. */
  lemma ImportedTasksAllReachable(store: Store, rows: seq<Row>, accepts: seq<bool>, projectId: int, f: Forest)
    requires |accepts| == |rows|
    requires store.nextId > 0
    requires AssembledFrom(f, Imported(store, rows, accepts, projectId))
    ensures forall x :: x in Ids(Imported(store, rows, accepts, projectId)) ==> Reachable(f, x)
  {
    var cs := Imported(store, rows, accepts, projectId);
    ImportedParentsPrecedeChildren(store, rows, accepts, projectId);
    forall x | x in Ids(cs)
      ensures Reachable(f, x)
    {
      var j :| 0 <= j < |cs| && cs[j].id == x;
      EarlierParentsAllReachable(cs, f, j);
    }
  }


  const day := Date(0)

  function RowAt(level: int, name: string): Row
  {
    Row(Some(level), Some(name), Some(day), Some(day), None, 5)
  }

  function ExampleRows(): seq<Row>
  {
    [RowAt(1, "A"), RowAt(2, "B"), RowAt(3, "C"), RowAt(2, "D")]
  }

  function ExampleTasks(projectId: int): seq<Task>
  {
    [Task(1, "A", None, day, day, None, projectId),
     Task(2, "B", None, day, day, Some(1), projectId),
     Task(3, "C", None, day, day, Some(2), projectId),
     Task(4, "D", None, day, day, Some(1), projectId)]
  }

  /** The tracker comment reads `{1: A, 2: B, 3: C}` as "a level-3 task gets
      parent C"; the code looks up level 3 - 1 and picks B. C is the parent a
      level-4 row gets, and a level-2 row gets A as the comment says. */
  lemma TrackerCommentExample(st: ImportState, projectId: int)
    requires st.tracker == map[1 := 1, 2 := 2, 3 := 3]
    ensures Step(st, RowAt(3, "E"), true, projectId).1 == Created(Task(st.store.nextId, "E", None, day, day, Some(2), projectId))
    ensures Step(st, RowAt(4, "E"), true, projectId).1 == Created(Task(st.store.nextId, "E", None, day, day, Some(3), projectId))
    ensures Step(st, RowAt(2, "E"), true, projectId).1 == Created(Task(st.store.nextId, "E", None, day, day, Some(1), projectId))
  {
  }

  /** Importing rows 1 A, 2 B, 3 C, 2 D into an empty store creates four tasks:
      B under A, C under B, and D under A, because D's row forgets the
      level-3 entry for C but keeps level 1's entry for A. */
  lemma ExampleImport(projectId: int)
    ensures Import(Start(Store(1, [])), ExampleRows(), [true, true, true, true], projectId).0.created == 4
    ensures Imported(Store(1, []), ExampleRows(), [true, true, true, true], projectId) == ExampleTasks(projectId)
  {
  }

  /** The forest of those four tasks is A -> [B -> [C], D]. */
  lemma ExampleTree(projectId: int)
    ensures var cs := ExampleTasks(projectId);
            && RootIds(cs) == [1]
            && ChildIds(cs, 1) == [2, 4]
            && ChildIds(cs, 2) == [3]
            && ChildIds(cs, 3) == []
            && ChildIds(cs, 4) == []
  {
    var cs := ExampleTasks(projectId);
    var l1 := [cs[0]];
    var l2 := l1 + [cs[1]];
    var l3 := l2 + [cs[2]];
    assert l3 + [cs[3]] == cs;
    RootIdsSnoc([], cs[0]);
    RootIdsSnoc(l1, cs[1]);
    RootIdsSnoc(l2, cs[2]);
    RootIdsSnoc(l3, cs[3]);
    ChildrenAfterSnocs(l1, l2, l3, cs, 1, [], [2], [2], [2, 4]);
    ChildrenAfterSnocs(l1, l2, l3, cs, 2, [], [], [3], [3]);
    ChildrenAfterSnocs(l1, l2, l3, cs, 3, [], [], [], []);
    ChildrenAfterSnocs(l1, l2, l3, cs, 4, [], [], [], []);
  }

  /** Tracks the `subtasks` of `p` as the example's tasks are appended one by one. */
  lemma ChildrenAfterSnocs(l1: seq<Task>, l2: seq<Task>, l3: seq<Task>, l4: seq<Task>, p: int,
                           c1: seq<int>, c2: seq<int>, c3: seq<int>, c4: seq<int>)
    requires |l1| == 1 && |l2| == 2 && |l3| == 3 && |l4| == 4
    requires l2 == l1 + [l2[1]] && l3 == l2 + [l3[2]] && l4 == l3 + [l4[3]]
    requires c1 == (if IsChildOf(l1[0], p) then [l1[0].id] else [])
    requires c2 == c1 + (if IsChildOf(l2[1], p) then [l2[1].id] else [])
    requires c3 == c2 + (if IsChildOf(l3[2], p) then [l3[2].id] else [])
    requires c4 == c3 + (if IsChildOf(l4[3], p) then [l4[3].id] else [])
    ensures ChildIds(l4, p) == c4
  {
    assert l1 == [] + [l1[0]];
    ChildIdsSnoc([], l1[0], p);
    ChildIdsSnoc(l1, l2[1], p);
    ChildIdsSnoc(l2, l3[2], p);
    ChildIdsSnoc(l3, l4[3], p);
  }

  /** A level-3 row with no level-2 row before it becomes a root, without error. */
  lemma LevelGapYieldsRoot(projectId: int)
    ensures var r := Import(Start(Store(1, [])), [RowAt(1, "A"), RowAt(3, "C")], [true, true], projectId);
            CreatedTasks(r.1) == [
              Task(1, "A", None, day, day, None, projectId),
              Task(2, "C", None, day, day, None, projectId)]
  {
  }

  /** An empty name cell reads as the text "None", which is not empty: the
      row is imported, while a cell holding the empty text is skipped. */
  lemma MissingNameCellIsImported(level: int)
    ensures Decode(Row(Some(level), None, Some(day), Some(day), None, 5)).Valid?
    ensures Decode(Row(Some(level), None, Some(day), Some(day), None, 5)).fields.name == "None"
    ensures Decode(Row(Some(level), Some(""), Some(day), Some(day), None, 5)) == Invalid(EmptyName)
  {
  }
}
