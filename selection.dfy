/** The three task queries of `find`: which stored tasks each one selects. */
module Selection {
  import opened Records

  datatype Query = Open | Overdue | NotYet

  /** The query a `type` argument names; any other string names none. */
  function ParseQuery(kind: string): (q: Option<Query>)
    ensures q == Some(Open) <==> kind == "open"
    ensures q == Some(Overdue) <==> kind == "overdue"
    ensures q == Some(NotYet) <==> kind == "notyet"
  {
    if kind == "open" then Some(Open)
    else if kind == "overdue" then Some(Overdue)
    else if kind == "notyet" then Some(NotYet)
    else None
  }

  /** The filter a query sends to the task collection, evaluated at `now`: every
      query keeps open tasks only, and a task the open query keeps has a window
      that opens before it closes. */
  predicate Matches(q: Query, t: Task, now: int)
    ensures Matches(q, t, now) ==> t.status == StatusOpen
    ensures q == Open && Matches(q, t, now) ==> t.start < t.end
  {
    match q
    case Open => t.start < now && t.end > now && t.status == StatusOpen
    case Overdue => t.end < now && t.status == StatusOpen
    case NotYet => t.start > now && t.status == StatusOpen
  }

  /** A task the `type` argument selects at `now`; false for an unknown type. */
  predicate Selected(kind: string, t: Task, now: int) {
    ParseQuery(kind).Some? && Matches(ParseQuery(kind).value, t, now)
  }

  /** Only open tasks are listed: a task with any other status, a done task in
      particular, is selected by none of the queries. */
  lemma NotOpenNeverSelected(t: Task, kind: string, now: int)
    requires t.status != StatusOpen
    ensures !Selected(kind, t, now)
  {
  }

  /** For an open task whose window is well formed, an instant other than its two
      ends falls in exactly one of the three queries. */
  lemma ExactlyOneQuery(t: Task, now: int)
    requires t.status == StatusOpen && t.start < t.end
    requires now != t.start && now != t.end
    ensures (if Matches(Open, t, now) then 1 else 0)
          + (if Matches(Overdue, t, now) then 1 else 0)
          + (if Matches(NotYet, t, now) then 1 else 0) == 1
  {
  }

  /** The comparisons are strict: at the very instant a window opens or closes,
      the task is in none of the three lists. */
  lemma WindowEndsAreInNoQuery(t: Task, now: int)
    requires t.start < t.end
    requires now == t.start || now == t.end
    ensures !Matches(Open, t, now) && !Matches(Overdue, t, now) && !Matches(NotYet, t, now)
  {
  }

  /** Exactly the selected tasks, each once and projected: every element is the
      view of a stored task the query selects, every such task is present, and no
      identifier occurs twice. */
  ghost predicate SelectsExactly(r: seq<TaskView>, tasks: map<Id, Task>, q: Query, now: int) {
    (forall i :: 0 <= i < |r| ==>
       r[i].id in tasks && Matches(q, tasks[r[i].id], now) && r[i] == View(r[i].id, tasks[r[i].id]))
    && (forall id :: id in tasks && Matches(q, tasks[id], now) ==> View(id, tasks[id]) in r)
    && IdsDistinct(r)
  }

  predicate IdsDistinct(r: seq<TaskView>) {
    forall i, j :: 0 <= i < j < |r| ==> r[i].id != r[j].id
  }
}
