/** The shared task record of the project store (app/models.py, app/schemas.py).

    Only the shape matters to the core: an identity assigned by the store,
    an optional parent identity and the owning project. Name, description
    and dates are carried along unchanged.
 */
module Tasks {

  /** An optional value: Python's `None` or a present value. */
  datatype Option<+T> = None | Some(value: T)

  /** A calendar date. The core never inspects a date, it only needs to know
      whether the cell held one. */
  datatype Date = Date(ordinal: int)

  /** A persisted task. `parentId` is `None` for a task stored without a parent. */
  datatype Task = Task(
    id: int,
    name: string,
    description: Option<string>,
    start: Date,
    end: Date,
    parentId: Option<int>,
    projectId: int
  )

  /** No two tasks of the list share an identity (the `id` primary key). */
  predicate UniqueIds(ts: seq<Task>)
  {
    forall i, j :: 0 <= i < j < |ts| ==> ts[i].id != ts[j].id
  }

  /** The identities of the tasks of a list. */
  function Ids(ts: seq<Task>): set<int>
  {
    set i | 0 <= i < |ts| :: ts[i].id
  }
}
