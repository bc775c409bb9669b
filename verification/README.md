# Task hierarchy core: level-based import and tree assembly

This project models, in Dafny, the two algorithms of `app/crud.py` of a small
project-management service whose projects hold tasks nested to any depth.
Each task is stored flat, with an optional parent identity.

- **Tree assembler** (`get_project_tasks_as_tree`). It turns the flat task
  list of a project into a forest in two passes. The first pass makes one
  node per identity. The second pass makes a task with a falsy `parent_id`
  (`None` or `0`) a root. It appends a task whose parent is among the tasks to
  that parent's `subtasks`. It silently drops a task whose parent is not among
  them. The model keeps the forest at the identity level: `Forest(roots,
  subtasks)`, where `subtasks` maps every task identity to the ordered
  identities nested under it. `RootIds` and `ChildIds` are the reference
  definitions: the parentless tasks, and the tasks naming `p` as parent, each
  in input order.
- **Level-based importer** (`import_tasks_from_excel`). It folds over
  spreadsheet rows `(level, name, start, end, description)` that are already
  decoded, each with the number of cells its tuple holds. The fold carries the level tracker `last_parent_at_level`, the
  created count and the task store. A row at level `L <= 1` gets no parent.
  A deeper row gets the task last recorded at `L - 1`, or no parent if there
  is none. After a task is created at level `L`, the tracker records it at
  `L` and forgets every deeper level. A row that fails validation or whose
  create fails is skipped and leaves the state unchanged. `Step` is one loop
  iteration. `Import` is the fold. `ImportTasks` is the source's loop,
  proved to compute the fold.

The task store is abstract (module `Importer`). It is a counter holding the
next identity to hand out, plus the list of stored tasks. A per-row boolean
says whether creating that row's task succeeds. That boolean stands for the
pydantic validation at `app/crud.py:52` and the database insert at
`app/crud.py:61`.

Files: `tasks.dfy` holds the shared `Task` record. `tree.dfy` holds the
assembler. `importer.dfy` holds the importer. `scenarios.dfy` reads an
import's result back through the assembler and works examples of the tracker.

## Behaviour of the code worth knowing

The model follows the code, including where its own comments or a natural
reading say otherwise.

- **Only roots are returned.** `get_project_tasks_as_tree` returns the root
  list (`app/crud.py:138`). A task belongs to the result only if it can be
  reached from a root by descending through `subtasks`. This is
  `Tree.Reachable`. A task naming itself as parent is appended to its own
  `subtasks` in the internal map, but nothing reaches it
  (`Tree.SelfParentUnreachable`). The same holds for the tasks of a parent
  cycle (`Tree.ParentClosedUnreachable`), for a task whose parent is not in
  the list (`Tree.DanglingUnreachable`), and for everything below any of
  them (`Tree.UnreachableParentHidesChild`). None of them raises an error;
  they are silently absent.
- **Missing name.** The name cell is converted with `str(...)`. An empty cell
  therefore becomes the text `"None"`, which is not empty, and the row is
  imported. Only a cell holding the empty text is skipped
  (`Scenarios.MissingNameCellIsImported`).
- **Tracker comment.** The comment at `app/crud.py:26-27` reads the tracker
  `{1: A, 2: B, 3: C}` as "a level-3 task gets parent C". The code looks up
  level `3 - 1` and gives B. C is what a level-4 row gets
  (`Scenarios.TrackerCommentExample`).
- **Sheets without column E.** The description cell `row[4]` is read
  unconditionally. A row tuple holds as many cells as the sheet's used range
  is wide, so on a sheet that ends before column E every row raises
  `IndexError`, is skipped, and the import creates nothing
  (`Importer.ShortSheetImportsNothing`).

## Model

| member | source | states |
|---|---|---|
| Tree.AssembleTree | app/crud.py:111-138 | The two passes produce exactly the reference roots and `subtasks`, with one entry per identity. With unique identities, each parentless task is a root exactly once. Each task naming a present truthy parent `p` is in `p`'s `subtasks` exactly once. No task appears anywhere else. Empty input gives an empty forest. |
| Tree.EmptyNodes | app/crud.py:120-123 | The first pass yields a node for exactly the identities of the list, each with no `subtasks`. |
| Tree.NestTasks | app/crud.py:126-136 | Starting from those empty nodes, the second pass yields exactly the reference roots and, for every identity, the reference `subtasks`, keeping one node per identity. |
| Tree.RootMembership | app/crud.py:126-136 | An identity is a root if and only if some task carrying it has a falsy parent identity. |
| Tree.ChildMembership | app/crud.py:127-133 | An identity is in `p`'s `subtasks` if and only if some task carrying it names the truthy `p` as parent. |
| Tree.DanglingTaskDropped | app/crud.py:128-133 | A task whose truthy parent identity names no task of the list is neither a root nor in any task's `subtasks`. |
| Tree.SelfParentIsOwnSubtask | app/crud.py:128-133 | A task whose parent identity is its own nonzero identity appears in its own `subtasks`. With unique identities it is not a root. |
| Tree.RootsInInputOrder | app/crud.py:120-136 | Two parentless tasks appear among the roots in the order of the input list. |
| Tree.SubtasksInInputOrder | app/crud.py:120-133 | Two children of the same parent appear in its `subtasks` in the order of the input list. |
| Tree.TasksPlacedByParent | app/crud.py:127-136 | With unique identities and no task naming the falsy parent `0`, a task is a root exactly when it has no parent, and a task with a parent is in that parent's `subtasks`. |
| Tree.ReachableIsInputTask | app/crud.py:127-138 | Every identity reachable from the returned roots is the identity of an input task. |
| Tree.ReachableParentReachable | app/crud.py:127-138 | A reachable task with a truthy parent identity is reached through that parent, which is therefore reachable too. |
| Tree.UnreachableParentHidesChild | app/crud.py:127-138 | A task whose parent is not reachable from the returned roots is not reachable either. |
| Tree.ParentClosedUnreachable | app/crud.py:127-138 | The tasks of a set in which every task names a truthy parent inside the set, such as a parent cycle, are not reachable from the returned roots. |
| Tree.SelfParentUnreachable | app/crud.py:127-138 | A task naming itself as parent is in its own `subtasks` in the internal map, yet is not reachable from the returned roots. |
| Tree.DanglingUnreachable | app/crud.py:127-138 | A task whose truthy parent identity names no input task is not reachable from the returned roots. |
| Tree.EarlierParentsAllReachable | app/crud.py:127-138 | When every task is parentless or names a truthy parent that appears earlier in the list, every task is reachable from the returned roots. |
| Importer.Decode | app/crud.py:36-44 | A row is valid if and only if it reaches column E, the level is an integer, the name is not the empty text, and both dates are present. A valid row carries those values. A row shorter than five cells is invalid. A non-integer level is reported first. |
| Importer.Record | app/crud.py:63-71 | After recording identity `id` at level `L`, `L` maps to `id`, no level deeper than `L` remains, and every level below `L` keeps its entry or its absence. |
| Importer.Step | app/crud.py:35-78 | A row is skipped if and only if it is invalid or its create fails. A skipped row leaves tracker, count and store untouched. It reports the validation failure for an invalid row and `CreateFailed` for a rejected create. Otherwise: the new task gets the next identity and carries the row's name, description and both dates into the project. A level of 1 or below gives no parent. A deeper level gives the task recorded at `L - 1`, or no parent when there is none. The tracker records the task at `L` and drops deeper levels. The count and the store grow by one. |
| Importer.Import | app/crud.py:34-80 | Every row gets an outcome, in order. Row `i` is skipped exactly when it is invalid or its create fails, whatever came before. The count grows by the number of created tasks and by at most the number of rows. The store gains exactly the created tasks, in order. |
| Importer.ImportTasks | app/crud.py:8-80 | The loop over the rows returns the fold's final count, which is at most the number of rows, and leaves the fold's final store. |
| Importer.CreatedIdsAndParents | app/crud.py:46-71 | Tasks created by an import get consecutive identities in one project. Each parent is smaller than its child. Each parent was either tracked before the import began or handed out during it. |
| Importer.ImportedParentsPrecedeChildren | app/crud.py:29-71 | Starting from an empty tracker, every parent is a task created earlier by the same import, with a smaller identity. The first task created is always a root, whatever its level. |
| Importer.CreatedCountIndependentOfState | app/crud.py:35-78 | How many tasks an import creates depends only on the rows and on whether each create succeeds. It never depends on the tracker or on the store's contents. |
| Importer.ReimportCreatesAgain | app/crud.py:29-80 | Importing the same rows again into the store the first import left creates as many tasks again, given the same store answers, so the store holds twice as many new tasks. Nothing is deduplicated. |
| Importer.ShortSheetImportsNothing | app/crud.py:36-78 | When every row is shorter than five cells, the import leaves tracker, count and store unchanged. |
| Importer.TrackerIsLatest | app/crud.py:29-71 | After any prefix of the rows, the tracker holds an entry at level `m` exactly when the reference `LatestAt` gives one, and with the same identity. The reference scans back to the nearest created row at level `m` or shallower, and yields it only if it sits exactly at `m`. The next identity equals the first one plus the number of created rows. |
| Importer.ParentIsNearestShallowerRow | app/crud.py:25-71 | Stated without the tracker: in a fresh import, a created row gets the next identity in creation order. Its parent is the reference `NearestParent`: none at level 1 or below, otherwise the nearest earlier created row at a shallower level if it sits exactly one level up, and none if it sits higher. |
| Scenarios.ImportedForestIsAcyclic | app/crud.py:46-71 | The tasks of one import have distinct identities. Every parent they name is one of them. In their assembled forest every parent identity is smaller than its child's, so no imported task is its own ancestor. With positive identities an imported task is a root exactly when it has no parent, and otherwise it is in its parent's `subtasks`. |
| Scenarios.ImportedTasksAllReachable | app/crud.py:46-71 | With positive identities, every task of one import is reachable from the roots of the forest assembled from those tasks. |
| Scenarios.TrackerCommentExample | app/crud.py:25-49 | With tracker `{1: A, 2: B, 3: C}`, a level-3 row gets parent B, a level-4 row gets C and a level-2 row gets A. |
| Scenarios.ExampleImport | app/crud.py:46-71 | Rows 1 A, 2 B, 3 C, 2 D create four tasks: B under A, C under B, D under A. |
| Scenarios.ExampleTree | app/crud.py:126-136 | Those four tasks assemble into A -> [B -> [C], D]. |
| Scenarios.LevelGapYieldsRoot | app/crud.py:46-49 | A level-3 row with no level-2 row before it is created as a root, without error. |
| Scenarios.MissingNameCellIsImported | app/crud.py:37-44 | A row whose name cell is empty is imported under the name "None". A row whose name is the empty text is skipped with reason `EmptyName`. |

`AssembleTree`'s contract determines its whole result, so two calls on the
same list return equal forests.

## Left out

- The HTTP layer (`app/main.py`) is not modelled: endpoints, the 404/400/500 responses, the `.xlsx` file-name check and the parent check of direct task creation. It is request plumbing over the store.
- Engine and session handling (`app/database.py`), the ORM mappings (`app/models.py`) and the pydantic schemas (`app/schemas.py`) are not modelled. Only the task's shape is kept, as a plain datatype.
- Workbook loading, skipping the header row, and the printed error log (`app/crud.py:21-22`, `34`, `77`) are left out as file parsing and I/O. Rows enter the model already decoded.
- A row's width is modelled as a cell count (`Row.cells`). Reading a column past it raises `IndexError`; which of the reads at `app/crud.py:36-40` fails first does not matter, since every failure skips the row.
- The import's return value is modelled as the created count. The message text built around it is left out.
- Cell decoding is abstracted. `int(...)` of the level cell appears only as "an integer or not", so truncation of fractional levels is not modelled. The name cell is modelled as text or empty, so `str(...)` of numeric names is not modelled. A date cell is modelled as present or absent; a falsy non-date value counts as absent.
- `create_task` and the pydantic validation of `TaskCreate` are one abstract step. The store hands out consecutive identities. Whether a create succeeds is given per row. A failed create consumes no identity and stores nothing. A failure after the commit (in `refresh`) is not modelled. No other writer inserts tasks while an import runs, for example a direct task creation served concurrently or a second import. The consecutive identities of `Importer.CreatedIdsAndParents` depend on this. "Parent smaller than child" holds for any increasing allocator.
- `get_project`, `get_projects`, `create_project` and `get_project_tasks` are left out as database queries. The assembler receives the flat task list directly.
- Tree.AssembleTree: requires unique identities, as the `id` primary key guarantees. The dictionary overwrite on duplicate identities at `app/crud.py:123` is not modelled.
- Tree.AssembleTree: returns identities, not task records. It models each node's `subtasks` as starting empty, as the first pass intends. What the ORM-to-schema conversion at `app/crud.py:122` would copy from the ORM `subtasks` relationship depends on library behaviour that is not part of this model.
- Scenarios.ImportedForestIsAcyclic: states acyclicity as "every parent identity is smaller than its child's" instead of through an ancestor relation. Any chain of parents strictly decreases, which implies that no task is its own ancestor.
