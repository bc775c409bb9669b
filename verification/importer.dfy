/** The level-based importer of app/crud.py (`import_tasks_from_excel`).

    Rows arrive already decoded from the workbook, in sheet order. The import
    folds over them carrying the level tracker (`last_parent_at_level`: the
    most recently created task at each level) and the count of created tasks.
    The task store is abstract: a counter that hands out fresh identities, and
    a per-row answer saying whether creating that row's task succeeds.
 */
module Importer {
  import opened Tasks

  /** One sheet row, columns A to E, after cell decoding.
      `level` is `None` when `int(...)` of column A fails; `name` and
      `description` are `None` for an empty cell; a date is `None` when absent.
      `cells` is the width of the row tuple, which is the width of the sheet's
      used range: reading a column beyond it raises `IndexError`. */
  datatype Row = Row(
    level: Option<int>,
    name: Option<string>,
    start: Option<Date>,
    end: Option<Date>,
    description: Option<string>,
    cells: nat
  )

  /** Why a row was skipped. */
  datatype SkipReason = ShortRow | LevelNotInteger | EmptyName | MissingStart | MissingEnd | CreateFailed

  /** The fields of a row that passed validation. */
  datatype Fields = Fields(level: int, name: string, start: Date, end: Date, description: Option<string>)

  datatype Decoded = Valid(fields: Fields) | Invalid(reason: SkipReason)

  /** The task store: the identity the next insert receives, and the stored tasks. */
  datatype Store = Store(nextId: int, tasks: seq<Task>)

  /** The state carried from row to row: level tracker, created count, store. */
  datatype ImportState = ImportState(tracker: map<int, int>, created: nat, store: Store)

  /** What became of one row. */
  datatype RowOutcome = Created(task: Task) | Skipped(reason: SkipReason)

  /** Python's `str(cell)`: an empty cell becomes the text "None". */
  function CellText(cell: Option<string>): string
  {
    match cell
    case None => "None"
    case Some(text) => text
  }

  /** Python's `str(cell) if cell else None`: an empty or blank-text cell gives no description. */
  function OptionalText(cell: Option<string>): Option<string>
  {
    match cell
    case Some(text) => if text == "" then None else Some(text)
    case None => None
  }

  /** Validation of one row in the order the source performs it: the level
      first, then the reads of columns B to E, then name, start date and end date. */
  function Decode(row: Row): (d: Decoded)
    ensures d.Valid? <==>
              row.cells >= 5 && row.level.Some? && row.name != Some("") && row.start.Some? && row.end.Some?
    ensures row.cells < 5 ==> d.Invalid?
    ensures d.Valid? ==>
              && d.fields.level == row.level.value
              && d.fields.name == CellText(row.name) && d.fields.name != ""
              && d.fields.start == row.start.value && d.fields.end == row.end.value
              && d.fields.description == OptionalText(row.description)
    ensures row.cells >= 1 && row.level.None? ==> d == Invalid(LevelNotInteger)
  {
    if row.cells < 1 then Invalid(ShortRow)
    else if row.level.None? then Invalid(LevelNotInteger)
    else if row.cells < 5 then Invalid(ShortRow)
    else
      var name := CellText(row.name);
      if name == "" then Invalid(EmptyName)
      else if row.start.None? then Invalid(MissingStart)
      else if row.end.None? then Invalid(MissingEnd)
      else Valid(Fields(row.level.value, name, row.start.value, row.end.value, OptionalText(row.description)))
  }

  /** The parent chosen for a row at `level`: none at level 1 or below,
      otherwise the task last recorded one level up, if any. */
  function ParentFor(tracker: map<int, int>, level: int): Option<int>
  {
    if level > 1 && level - 1 in tracker then Some(tracker[level - 1]) else None
  }

  /** Record `id` at `level` and forget every deeper level. */
  function Record(tracker: map<int, int>, level: int, id: int): (t: map<int, int>)
    ensures level in t && t[level] == id
    ensures forall k :: k in t ==> k <= level
    ensures forall k :: k < level ==> (k in t <==> k in tracker)
    ensures forall k :: k < level && k in tracker ==> t[k] == tracker[k]
  {
    var updated := tracker[level := id];
    map k | k in updated && k <= level :: updated[k]
  }

  /** `create_task`: the store inserts the task under the next fresh identity. */
  function Create(store: Store, f: Fields, parent: Option<int>, projectId: int): (Store, Task)
  {
    var task := Task(store.nextId, f.name, f.description, f.start, f.end, parent, projectId);
    (Store(store.nextId + 1, store.tasks + [task]), task)
  }

  /** One iteration of the import loop. `accepted` says whether the store
      accepts the row's task; a rejected create is caught and the row skipped. */
  function Step(st: ImportState, row: Row, accepted: bool, projectId: int): (r: (ImportState, RowOutcome))
    ensures r.1.Skipped? <==> Decode(row).Invalid? || !accepted
    ensures r.1.Skipped? ==> r.0 == st
    ensures r.1.Skipped? && Decode(row).Invalid? ==> r.1.reason == Decode(row).reason
    ensures r.1.Skipped? && Decode(row).Valid? ==> r.1.reason == CreateFailed
    ensures r.1.Created? ==>
              var level := Decode(row).fields.level;
              var t := r.1.task;
              && t.id == st.store.nextId
              && t.projectId == projectId
              && t.name == Decode(row).fields.name
              && t.description == Decode(row).fields.description
              && t.start == Decode(row).fields.start && t.end == Decode(row).fields.end
              && (level <= 1 ==> t.parentId == None)
              && (level > 1 && level - 1 in st.tracker ==> t.parentId == Some(st.tracker[level - 1]))
              && (level > 1 && level - 1 !in st.tracker ==> t.parentId == None)
              && level in r.0.tracker && r.0.tracker[level] == t.id
              && (forall k :: k in r.0.tracker ==> k <= level)
              && (forall k :: k < level ==> (k in r.0.tracker <==> k in st.tracker))
              && (forall k :: k < level && k in st.tracker ==> r.0.tracker[k] == st.tracker[k])
              && r.0.created == st.created + 1
              && r.0.store.tasks == st.store.tasks + [t]
              && r.0.store.nextId == st.store.nextId + 1
  {
    match Decode(row)
    case Invalid(reason) => (st, Skipped(reason))
    case Valid(f) =>
      if !accepted then (st, Skipped(CreateFailed))
      else
        var (store', task) := Create(st.store, f, ParentFor(st.tracker, f.level), projectId);
        (ImportState(Record(st.tracker, f.level, task.id), st.created + 1, store'), Created(task))
  }

  /** The tasks created, in creation order. */
  function CreatedTasks(outcomes: seq<RowOutcome>): (ts: seq<Task>)
    ensures |ts| <= |outcomes|
  {
    if |outcomes| == 0 then []
    else (if outcomes[0].Created? then [outcomes[0].task] else []) + CreatedTasks(outcomes[1..])
  }

  /** The state an import starts from: an empty tracker and no rows created. */
  function Start(store: Store): ImportState
  {
    ImportState(map[], 0, store)
  }

  /** The import as a fold of `Step` over the rows; `accepts[i]` answers for row i. */
  function Import(st: ImportState, rows: seq<Row>, accepts: seq<bool>, projectId: int): (r: (ImportState, seq<RowOutcome>))
    requires |accepts| == |rows|
    ensures |r.1| == |rows|
    ensures forall i :: 0 <= i < |rows| ==> (r.1[i].Skipped? <==> Decode(rows[i]).Invalid? || !accepts[i])
    ensures r.0.created == st.created + |CreatedTasks(r.1)|
    ensures r.0.created <= st.created + |rows|
    ensures r.0.store.tasks == st.store.tasks + CreatedTasks(r.1)
    ensures r.0.store.nextId == st.store.nextId + |CreatedTasks(r.1)|
    decreases |rows|
  {
    if |rows| == 0 then (st, [])
    else
      var (st1, outcome) := Step(st, rows[0], accepts[0], projectId);
      var (st2, outcomes) := Import(st1, rows[1..], accepts[1..], projectId);
      assert ([outcome] + outcomes)[1..] == outcomes;
      (st2, [outcome] + outcomes)
  }

  /** `import_tasks_from_excel`: the loop over the rows, returning the created count. */
  method ImportTasks(store: Store, projectId: int, rows: seq<Row>, accepts: seq<bool>) returns (created: nat, store': Store)
    requires |accepts| == |rows|
    ensures created == Import(Start(store), rows, accepts, projectId).0.created
    ensures store' == Import(Start(store), rows, accepts, projectId).0.store
    ensures created <= |rows|
    ensures store'.tasks == store.tasks + CreatedTasks(Import(Start(store), rows, accepts, projectId).1)
  {
    var st := Start(store);
    var i := 0;
    while i < |rows|
      invariant 0 <= i <= |rows|
      invariant Import(st, rows[i..], accepts[i..], projectId).0 == Import(Start(store), rows, accepts, projectId).0
    {
      assert rows[i..][1..] == rows[i + 1..];
      assert accepts[i..][1..] == accepts[i + 1..];
      var (next, _) := Step(st, rows[i], accepts[i], projectId);
      st := next;
      i := i + 1;
    }
    created := st.created;
    store' := st.store;
  }

  /** Every tracked identity was handed out before the store's next one. */
  predicate TrackerBelowNext(st: ImportState)
  {
    forall k :: k in st.tracker ==> st.tracker[k] < st.store.nextId
  }

  /** `cs` were created with consecutive identities from `first`, all in
      `projectId`, and each parent precedes its child and is either one of
      `prior` or an identity from `first` on. */
  predicate ConsecutiveWithEarlierParents(cs: seq<Task>, first: int, prior: set<int>, projectId: int)
  {
    forall j :: 0 <= j < |cs| ==>
      && cs[j].id == first + j
      && cs[j].projectId == projectId
      && (cs[j].parentId.Some? ==>
            && cs[j].parentId.value < cs[j].id
            && (cs[j].parentId.value in prior || cs[j].parentId.value >= first))
  }

  /** Tasks created by an import receive consecutive identities, and each
      parent is either an identity tracked when the import began or one
      handed out earlier in the same import. */
  lemma {:induction false} CreatedIdsAndParents(st: ImportState, rows: seq<Row>, accepts: seq<bool>, projectId: int)
    requires |accepts| == |rows|
    requires TrackerBelowNext(st)
    ensures ConsecutiveWithEarlierParents(
              CreatedTasks(Import(st, rows, accepts, projectId).1), st.store.nextId, st.tracker.Values, projectId)
    decreases |rows|
  {
    if |rows| > 0 {
      var (st1, outcome) := Step(st, rows[0], accepts[0], projectId);
      var rest := Import(st1, rows[1..], accepts[1..], projectId).1;
      var outcomes := Import(st, rows, accepts, projectId).1;
      assert outcomes == [outcome] + rest;
      assert outcomes[1..] == rest;
      var cs := CreatedTasks(outcomes);
      var later := CreatedTasks(rest);
      CreatedIdsAndParents(st1, rows[1..], accepts[1..], projectId);
      if outcome.Created? {
        var level := Decode(rows[0]).fields.level;
        forall k | k in st1.tracker
          ensures st1.tracker[k] in st.tracker.Values || st1.tracker[k] == st.store.nextId
        {
          if k < level {
            assert st1.tracker[k] == st.tracker[k];
          }
        }
        assert TrackerBelowNext(st1);
        assert cs == [outcome.task] + later;
        forall j | 0 < j < |cs|
          ensures cs[j] == later[j - 1]
        {
        }
      } else {
        assert cs == later;
      }
    }
  }

  /** Within one import, every parent is a task created earlier by that same
      import, with a smaller identity; in particular the first task created
      is a root, whatever its level. */
  lemma ImportedParentsPrecedeChildren(store: Store, rows: seq<Row>, accepts: seq<bool>, projectId: int)
    requires |accepts| == |rows|
    ensures var cs := CreatedTasks(Import(Start(store), rows, accepts, projectId).1);
            && (forall j :: 0 <= j < |cs| ==> cs[j].id == store.nextId + j && cs[j].projectId == projectId)
            && (forall j :: 0 <= j < |cs| && cs[j].parentId.Some? ==>
                  cs[j].parentId.value < cs[j].id &&
                  exists i :: 0 <= i < j && cs[i].id == cs[j].parentId.value)
            && (|cs| > 0 ==> cs[0].parentId == None)
  {
    var cs := CreatedTasks(Import(Start(store), rows, accepts, projectId).1);
    CreatedIdsAndParents(Start(store), rows, accepts, projectId);
    assert Start(store).tracker.Values == {};
    assert ConsecutiveWithEarlierParents(cs, store.nextId, {}, projectId);
    forall j | 0 <= j < |cs| && cs[j].parentId.Some?
      ensures exists i :: 0 <= i < j && cs[i].id == cs[j].parentId.value
    {
      var i := cs[j].parentId.value - store.nextId;
      assert cs[i].id == cs[j].parentId.value;
    }
  }

  /** How many rows an import creates depends only on the rows and on the
      store's answers, never on the tracker or on what the store holds. */
  lemma {:induction false} CreatedCountIndependentOfState(st1: ImportState, st2: ImportState, rows: seq<Row>, accepts: seq<bool>, projectId: int)
    requires |accepts| == |rows|
    ensures Import(st1, rows, accepts, projectId).0.created - st1.created
         == Import(st2, rows, accepts, projectId).0.created - st2.created
    decreases |rows|
  {
    if |rows| > 0 {
      var (a, _) := Step(st1, rows[0], accepts[0], projectId);
      var (b, _) := Step(st2, rows[0], accepts[0], projectId);
      CreatedCountIndependentOfState(a, b, rows[1..], accepts[1..], projectId);
    }
  }

  /** Nothing is deduplicated: importing the same rows again into the store
      the first import left, with the same store answers, creates as many
      tasks again. */
  lemma ReimportCreatesAgain(store: Store, rows: seq<Row>, accepts: seq<bool>, projectId: int)
    requires |accepts| == |rows|
    ensures var first := Import(Start(store), rows, accepts, projectId).0;
            var second := Import(Start(first.store), rows, accepts, projectId).0;
            && second.created == first.created
            && |second.store.tasks| == |store.tasks| + 2 * first.created
  {
    var first := Import(Start(store), rows, accepts, projectId).0;
    CreatedCountIndependentOfState(Start(store), Start(first.store), rows, accepts, projectId);
  }

  /** A sheet whose used range stops before column E imports nothing: reading
      the description cell fails on every row, and each failure is swallowed. */
  lemma {:induction false} ShortSheetImportsNothing(st: ImportState, rows: seq<Row>, accepts: seq<bool>, projectId: int)
    requires |accepts| == |rows|
    requires forall i :: 0 <= i < |rows| ==> rows[i].cells < 5
    ensures Import(st, rows, accepts, projectId).0 == st
    decreases |rows|
  {
    if |rows| > 0 {
      ShortSheetImportsNothing(st, rows[1..], accepts[1..], projectId);
    }
  }

  /** Row `row` creates a task when the store answers `accepted`. */
  predicate Creates(row: Row, accepted: bool)
  {
    Decode(row).Valid? && accepted
  }

  /** How many of the first `j` rows create a task. */
  function CreatedBefore(rows: seq<Row>, accepts: seq<bool>, j: nat): (n: nat)
    requires |accepts| == |rows| && j <= |rows|
    ensures n <= j
  {
    if j == 0 then 0
    else CreatedBefore(rows, accepts, j - 1) + (if Creates(rows[j - 1], accepts[j - 1]) then 1 else 0)
  }

  /** The task "last seen at level `m`" after the first `j` rows, read off the
      rows alone: scanning back, the first created row at level `m` or
      shallower decides; it counts when it sits exactly at `m`, and a
      shallower one hides every earlier row at `m`. Row identities are handed
      out from `first` in creation order. */
  function LatestAt(rows: seq<Row>, accepts: seq<bool>, j: nat, m: int, first: int): Option<int>
    requires |accepts| == |rows| && j <= |rows|
  {
    if j == 0 then None
    else if Creates(rows[j - 1], accepts[j - 1]) && Decode(rows[j - 1]).fields.level <= m then
      if Decode(rows[j - 1]).fields.level == m then Some(first + CreatedBefore(rows, accepts, j - 1)) else None
    else LatestAt(rows, accepts, j - 1, m, first)
  }

  /** Reference parent of row `i` at `level`: none at level 1 or below,
      otherwise the nearest earlier created row at a shallower level when it
      sits exactly one level up, and none when it sits higher still. */
  function NearestParent(rows: seq<Row>, accepts: seq<bool>, i: nat, level: int, first: int): Option<int>
    requires |accepts| == |rows| && i <= |rows|
  {
    if level > 1 then LatestAt(rows, accepts, i, level - 1, first) else None
  }

  /** The state after the first `j` rows of an import. */
  function StateAfter(store: Store, rows: seq<Row>, accepts: seq<bool>, projectId: int, j: nat): ImportState
    requires |accepts| == |rows| && j <= |rows|
  {
    Import(Start(store), rows[..j], accepts[..j], projectId).0
  }

  /** The fold over a non-empty list is one `Step`, then the fold over the rest. */
  lemma ImportCons(st: ImportState, rows: seq<Row>, accepts: seq<bool>, projectId: int)
    requires |accepts| == |rows| && |rows| > 0
    ensures var r := Step(st, rows[0], accepts[0], projectId);
            var rest := Import(r.0, rows[1..], accepts[1..], projectId);
            Import(st, rows, accepts, projectId) == (rest.0, [r.1] + rest.1)
  {
  }

  /** Folding over the rows is folding over a prefix, then over the rest. */
  lemma {:induction false} ImportSplit(st: ImportState, rows: seq<Row>, accepts: seq<bool>, projectId: int, j: nat)
    requires |accepts| == |rows| && j <= |rows|
    ensures var front := Import(st, rows[..j], accepts[..j], projectId);
            var back := Import(front.0, rows[j..], accepts[j..], projectId);
            && Import(st, rows, accepts, projectId).0 == back.0
            && Import(st, rows, accepts, projectId).1 == front.1 + back.1
    decreases j
  {
    if j == 0 {
      assert rows[..0] == [] && accepts[..0] == [];
      assert rows[0..] == rows && accepts[0..] == accepts;
    } else {
      var r := Step(st, rows[0], accepts[0], projectId);
      var front, frontA := rows[..j], accepts[..j];
      var rest := Import(r.0, rows[1..], accepts[1..], projectId);
      var f' := Import(r.0, rows[1..][..j - 1], accepts[1..][..j - 1], projectId);
      var back := Import(f'.0, rows[j..], accepts[j..], projectId);
      var whole := Import(st, rows, accepts, projectId);
      var fr := Import(st, front, frontA, projectId);
      assert whole == (rest.0, [r.1] + rest.1) by {
        ImportCons(st, rows, accepts, projectId);
      }
      assert fr == (f'.0, [r.1] + f'.1) by {
        assert front[1..] == rows[1..][..j - 1] && frontA[1..] == accepts[1..][..j - 1];
        ImportCons(st, front, frontA, projectId);
      }
      assert rest.0 == back.0 && rest.1 == f'.1 + back.1 by {
        assert rows[1..][j - 1..] == rows[j..] && accepts[1..][j - 1..] == accepts[j..];
        ImportSplit(r.0, rows[1..], accepts[1..], projectId, j - 1);
      }
      Regroup(whole, fr, rest, f', back, r.1);
    }
  }

  /** The outcome bookkeeping of one `ImportSplit` step. */
  lemma Regroup<S, O>(whole: (S, seq<O>), front: (S, seq<O>), rest: (S, seq<O>), front': (S, seq<O>), back: (S, seq<O>), o: O)
    requires whole == (rest.0, [o] + rest.1) && front == (front'.0, [o] + front'.1)
    requires rest.0 == back.0 && rest.1 == front'.1 + back.1
    ensures whole.0 == back.0 && whole.1 == front.1 + back.1
  {
  }

  /** Row `j` moves the state the first `j` rows left by one `Step`. */
  lemma StateAfterStep(store: Store, rows: seq<Row>, accepts: seq<bool>, projectId: int, j: nat)
    requires |accepts| == |rows| && j < |rows|
    ensures StateAfter(store, rows, accepts, projectId, j + 1)
              == Step(StateAfter(store, rows, accepts, projectId, j), rows[j], accepts[j], projectId).0
  {
    var rs := rows[..j + 1];
    var acs := accepts[..j + 1];
    ImportSplit(Start(store), rs, acs, projectId, j);
    assert rs[..j] == rows[..j] && acs[..j] == accepts[..j];
    assert rs[j..] == [rows[j]] && acs[j..] == [accepts[j]];
    assert [rows[j]][1..] == [] && [accepts[j]][1..] == [];
  }

  /** The outcome of row `j` is the one `Step` gives from the state the first `j` rows left. */
  lemma OutcomeAfter(store: Store, rows: seq<Row>, accepts: seq<bool>, projectId: int, j: nat)
    requires |accepts| == |rows| && j < |rows|
    ensures Import(Start(store), rows, accepts, projectId).1[j]
              == Step(StateAfter(store, rows, accepts, projectId, j), rows[j], accepts[j], projectId).1
  {
    ImportSplit(Start(store), rows, accepts, projectId, j);
    assert rows[j..][0] == rows[j] && accepts[j..][0] == accepts[j];
    assert rows[j..][1..] == rows[j + 1..] && accepts[j..][1..] == accepts[j + 1..];
  }

  /** The tracker holds at each level exactly the reference entry `LatestAt`
      for the first `j` rows, and the next identity follows the created count. */
  ghost predicate TrackerMatches(st: ImportState, rows: seq<Row>, accepts: seq<bool>, j: nat, first: int)
    requires |accepts| == |rows| && j <= |rows|
  {
    && st.store.nextId == first + CreatedBefore(rows, accepts, j)
    && (forall m :: m in st.tracker <==> LatestAt(rows, accepts, j, m, first).Some?)
    && (forall m :: m in st.tracker ==> st.tracker[m] == LatestAt(rows, accepts, j, m, first).value)
  }

  /** One `Step` over row `k` carries the match from `k` rows to `k + 1`. */
  lemma StepKeepsTrackerMatch(st: ImportState, rows: seq<Row>, accepts: seq<bool>, projectId: int, k: nat, first: int)
    requires |accepts| == |rows| && k < |rows|
    requires TrackerMatches(st, rows, accepts, k, first)
    ensures TrackerMatches(Step(st, rows[k], accepts[k], projectId).0, rows, accepts, k + 1, first)
  {
  }

  /** After any prefix of an import, the tracker holds at each level exactly
      the reference entry `LatestAt`, and the next identity follows the
      created count. */
  lemma {:induction false} TrackerIsLatest(store: Store, rows: seq<Row>, accepts: seq<bool>, projectId: int, j: nat)
    requires |accepts| == |rows| && j <= |rows|
    ensures TrackerMatches(StateAfter(store, rows, accepts, projectId, j), rows, accepts, j, store.nextId)
    decreases j
  {
    if j == 0 {
      assert rows[..0] == [] && accepts[..0] == [];
    } else {
      TrackerIsLatest(store, rows, accepts, projectId, j - 1);
      StateAfterStep(store, rows, accepts, projectId, j - 1);
      StepKeepsTrackerMatch(StateAfter(store, rows, accepts, projectId, j - 1), rows, accepts, projectId, j - 1, store.nextId);
    }
  }

  /** Which task becomes a created row's parent, stated without the tracker:
      from a fresh import, row `i` gets the next identity in creation order
      and the reference parent `NearestParent`. */
  lemma ParentIsNearestShallowerRow(store: Store, rows: seq<Row>, accepts: seq<bool>, projectId: int, i: nat)
    requires |accepts| == |rows| && i < |rows|
    ensures var o := Import(Start(store), rows, accepts, projectId).1[i];
            o.Created? ==>
              && o.task.id == store.nextId + CreatedBefore(rows, accepts, i)
              && o.task.parentId == NearestParent(rows, accepts, i, Decode(rows[i]).fields.level, store.nextId)
  {
    TrackerIsLatest(store, rows, accepts, projectId, i);
    OutcomeAfter(store, rows, accepts, projectId, i);
    StepGivesNearestParent(StateAfter(store, rows, accepts, projectId, i), rows, accepts, projectId, i, store.nextId);
  }

  /** From a state whose tracker matches the reference, a created row gets the
      next identity and the reference parent. */
  lemma StepGivesNearestParent(st: ImportState, rows: seq<Row>, accepts: seq<bool>, projectId: int, i: nat, first: int)
    requires |accepts| == |rows| && i < |rows|
    requires TrackerMatches(st, rows, accepts, i, first)
    ensures var o := Step(st, rows[i], accepts[i], projectId).1;
            o.Created? ==>
              && o.task.id == first + CreatedBefore(rows, accepts, i)
              && o.task.parentId == NearestParent(rows, accepts, i, Decode(rows[i]).fields.level, first)
  {
  }
}
