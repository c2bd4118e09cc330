/** Records kept by the task store, and the outcome of one store operation.
    Callback-based completion is represented by the Outcome a call returns. */
module Records {

  datatype Option<+T> = None | Some(value: T)

  /** Identifier the collection assigns to a record on insert. */
  type Id = nat

  /** The period that marks a task as non-recurring. */
  const NonRecurring: int := -1

  /** Status of an open task; only open tasks are listed by the find queries. */
  const StatusOpen: int := 0

  /** Status of a task that was marked as done. */
  const StatusDone: int := 1

  /** A task as stored in the task collection. Times are milliseconds since the
      epoch; `units` is carried through unchanged from the parser. */
  datatype Task = Task(text: string, start: int, end: int, units: string, period: int, status: int)

  /** A found task projected to text, start, end, units and period; the
      collection adds the record's identifier to every projection. */
  datatype TaskView = TaskView(id: Id, text: string, start: int, end: int, units: string, period: int)

  function View(id: Id, t: Task): (v: TaskView)
    ensures v.id == id && v.text == t.text && v.units == t.units && v.period == t.period
    ensures v.start == t.start && v.end == t.end
  {
    TaskView(id, t.text, t.start, t.end, t.units, t.period)
  }

  /** An idea is a single free-text note. */
  datatype Idea = Idea(idea: string)

  /** A found idea projected to its text, with its identifier. */
  datatype IdeaView = IdeaView(id: Id, idea: string)

  /** A document of the settings collection. The two flags are absent until set:
      the default record only carries `notyet`. */
  datatype SettingsDoc = SettingsDoc(name: string, notyet: Option<bool>, fullscreen: Option<bool>)

  /** The storage error an operation reports to the host process. */
  datatype ErrorKind = InsertError | FindError | UpdateError | RemoveError

  /** How one operation completes. */
  datatype Outcome<+T> =
    | Answered(value: T)         // the callback is invoked with the value (or with nothing)
    | Failed(kind: ErrorKind)    // the error is reported and handed to the callback
    | Reported(kind: ErrorKind)  // the error is reported; the callback is never invoked
    | NotFound                   // the record the operation reads does not exist
    | Silent                     // neither the callback nor the host hears anything
}
