/** The task store facade: three collections (tasks, ideas, settings) held by one
    object, with the facade's operations as sequential methods. A storage call
    that fails is chosen by the caller through a `fault` flag. */
module TaskStore {
  import opened Records
  import opened Selection
  import opened Urgency
  import opened SettingsDocs

  /** What `markAsDone` writes back: a non-recurring task becomes done, a
      recurring one has its whole window moved one period later instead. */
  function Advance(t: Task): (r: Task)
    ensures r.text == t.text && r.units == t.units && r.period == t.period
    ensures r.end - r.start == t.end - t.start
    ensures t.period == NonRecurring ==> r.status == StatusDone && r.start == t.start
    ensures t.period != NonRecurring ==> r.status == t.status && r.start - t.start == t.period
  {
    if t.period == NonRecurring then t.(status := StatusDone)
    else t.(start := t.start + t.period, end := t.end + t.period)
  }

  /** A completed non-recurring task drops out of every list. */
  lemma CompletedTaskNeverListed(t: Task, kind: string, now: int)
    requires t.period == NonRecurring
    ensures !Selected(kind, Advance(t), now)
  {
    NotOpenNeverSelected(Advance(t), kind, now);
  }

  /** A rolled-forward task is, one period later, exactly as urgent as it was. */
  lemma RolledTaskKeepsUrgency(id: Id, t: Task, ref: int)
    requires t.period != NonRecurring && t.end != t.start
    ensures Ratio(View(id, Advance(t)), ref + t.period) == Ratio(View(id, t), ref)
  {
    RatioShiftInvariant(View(id, t), ref, t.period);
    assert View(id, Advance(t)) == View(id, t).(start := t.start + t.period, end := t.end + t.period);
  }

  /** Ranking the tasks a query selected still lists exactly those tasks. */
  lemma RankKeepsSelection(found: seq<TaskView>, tasks: map<Id, Task>, q: Query, now: int, ref: int)
    requires SelectsExactly(found, tasks, q, now)
    requires forall id :: id in tasks && Matches(q, tasks[id], now) ==> tasks[id].end != tasks[id].start
    ensures Rankable(found)
    ensures SelectsExactly(Rank(found, ref), tasks, q, now)
  {
    forall v | v in found ensures v.end != v.start {
      var k :| 0 <= k < |found| && found[k] == v;
    }
    var ranked := Rank(found, ref);
    RankKeepsIdsDistinct(found, ref);
    forall i | 0 <= i < |ranked|
      ensures ranked[i].id in tasks && Matches(q, tasks[ranked[i].id], now)
           && ranked[i] == View(ranked[i].id, tasks[ranked[i].id])
    {
      assert ranked[i] in multiset(found);
      var k :| 0 <= k < |found| && found[k] == ranked[i];
    }
    forall id | id in tasks && Matches(q, tasks[id], now) ensures View(id, tasks[id]) in ranked {
      assert View(id, tasks[id]) in multiset(found);
    }
  }

  class Store {
    var tasks: map<Id, Task>
    var ideas: map<Id, Idea>
    var settings: seq<SettingsDoc>
    var nextTaskId: Id
    var nextIdeaId: Id

    /** Identifiers handed out so far are below the counters, and the settings
        collection holds at most one record named "settings". */
    ghost predicate Valid()
      reads this
    {
      (forall id :: id in tasks ==> id < nextTaskId)
      && (forall id :: id in ideas ==> id < nextIdeaId)
      && NamedCount(settings) <= 1
    }

    constructor ()
      ensures Valid()
      ensures tasks == map[] && ideas == map[] && settings == []
    {
      tasks, ideas, settings := map[], map[], [];
      nextTaskId, nextIdeaId := 0, 0;
    }

    /** `insert`: stores the parsed task under a fresh identifier. A failed
        insert is reported and the callback never runs. */
    method Insert(t: Task, fault: bool) returns (r: Outcome<()>, id: Id)
      requires Valid()
      modifies this
      ensures Valid()
      ensures fault ==> r == Reported(InsertError) && tasks == old(tasks)
      ensures !fault ==> r == Answered(()) && id !in old(tasks) && tasks == old(tasks)[id := t]
      ensures ideas == old(ideas) && settings == old(settings)
      ensures nextIdeaId == old(nextIdeaId) && (fault ==> nextTaskId == old(nextTaskId))
    {
      id := nextTaskId;
      if fault {
        return Reported(InsertError), id;
      }
      tasks := tasks[id := t];
      nextTaskId := nextTaskId + 1;
      r := Answered(());
    }

    /** `insertIdea`: stores `{idea}` under a fresh identifier. A failed insert
        is reported and handed to the callback. */
    method InsertIdea(text: string, fault: bool) returns (r: Outcome<()>, id: Id)
      requires Valid()
      modifies this
      ensures Valid()
      ensures fault ==> r == Failed(InsertError) && ideas == old(ideas)
      ensures !fault ==> r == Answered(()) && id !in old(ideas) && ideas == old(ideas)[id := Idea(text)]
      ensures tasks == old(tasks) && settings == old(settings)
      ensures nextTaskId == old(nextTaskId) && (fault ==> nextIdeaId == old(nextIdeaId))
    {
      id := nextIdeaId;
      if fault {
        return Failed(InsertError), id;
      }
      ideas := ideas[id := Idea(text)];
      nextIdeaId := nextIdeaId + 1;
      r := Answered(());
    }

    /** The query `find` sends to the task collection: the projected records the
        filter selects, in the collection's own order. */
    method Select(q: Query, now: int) returns (found: seq<TaskView>)
      ensures SelectsExactly(found, tasks, q, now)
    {
      var pending := tasks.Keys;
      found := [];
      while pending != {}
        invariant pending <= tasks.Keys
        invariant forall i :: 0 <= i < |found| ==>
          found[i].id in tasks && found[i].id !in pending
          && Matches(q, tasks[found[i].id], now) && found[i] == View(found[i].id, tasks[found[i].id])
        invariant forall id :: id in tasks && id !in pending && Matches(q, tasks[id], now) ==>
          View(id, tasks[id]) in found
        invariant IdsDistinct(found)
        decreases pending
      {
        var id :| id in pending;
        if Matches(q, tasks[id], now) {
          found := found + [View(id, tasks[id])];
        }
        pending := pending - {id};
      }
    }

    /** `find`: the open tasks a query selects at `now`, projected and ranked by
        urgency against the reference instant of `clock`. An unknown type does
        nothing at all. */
    method Find(kind: string, now: int, clock: int, tzOffset: int, fault: bool)
      returns (r: Outcome<seq<TaskView>>)
      requires !fault ==> forall id :: id in tasks && Selected(kind, tasks[id], now) ==> tasks[id].end != tasks[id].start
      ensures ParseQuery(kind).None? ==> r == Silent
      ensures ParseQuery(kind).Some? && fault ==> r == Failed(FindError)
      ensures ParseQuery(kind).Some? && !fault ==>
        r.Answered? && SelectsExactly(r.value, tasks, ParseQuery(kind).value, now)
        && Rankable(r.value) && RankedDesc(r.value, ReferenceInstant(clock, tzOffset))
    {
      var q := ParseQuery(kind);
      if q.None? {
        return Silent;
      }
      if fault {
        return Failed(FindError);
      }
      var found := Select(q.value, now);
      var ref := ReferenceInstant(clock, tzOffset);
      RankKeepsSelection(found, tasks, q.value, now, ref);
      r := Answered(Rank(found, ref));
    }

    /** `findIdeas`: every stored idea, projected, in no particular order. A
        failed query is reported and the callback never runs. */
    method FindIdeas(fault: bool) returns (r: Outcome<seq<IdeaView>>)
      ensures fault ==> r == Reported(FindError)
      ensures !fault ==> r.Answered?
      ensures !fault ==> forall i :: 0 <= i < |r.value| ==>
        r.value[i].id in ideas && r.value[i].idea == ideas[r.value[i].id].idea
      ensures !fault ==> forall id :: id in ideas ==> IdeaView(id, ideas[id].idea) in r.value
      ensures !fault ==> forall i, j :: 0 <= i < j < |r.value| ==> r.value[i].id != r.value[j].id
    {
      if fault {
        return Reported(FindError);
      }
      var pending := ideas.Keys;
      var found: seq<IdeaView> := [];
      while pending != {}
        invariant pending <= ideas.Keys
        invariant forall i :: 0 <= i < |found| ==>
          found[i].id in ideas && found[i].id !in pending && found[i].idea == ideas[found[i].id].idea
        invariant forall id :: id in ideas && id !in pending ==> IdeaView(id, ideas[id].idea) in found
        invariant forall i, j :: 0 <= i < j < |found| ==> found[i].id != found[j].id
        decreases pending
      {
        var id :| id in pending;
        found := found + [IdeaView(id, ideas[id].idea)];
        pending := pending - {id};
      }
      r := Answered(found);
    }

    /** `markAsDone`: completes a non-recurring task and rolls a recurring one
        forward by its period. A failed lookup is handed to the callback; a
        failed update is only reported. */
    method MarkAsDone(id: Id, findFault: bool, updateFault: bool) returns (r: Outcome<()>)
      requires Valid()
      modifies this
      ensures Valid()
      ensures findFault ==> r == Failed(FindError) && tasks == old(tasks)
      ensures !findFault && id !in old(tasks) ==> r == NotFound && tasks == old(tasks)
      ensures !findFault && id in old(tasks) && updateFault ==> r == Reported(UpdateError) && tasks == old(tasks)
      ensures !findFault && id in old(tasks) && !updateFault ==>
        r == Answered(()) && tasks == old(tasks)[id := Advance(old(tasks)[id])]
      ensures ideas == old(ideas) && settings == old(settings)
      ensures nextTaskId == old(nextTaskId) && nextIdeaId == old(nextIdeaId)
    {
      if findFault {
        return Failed(FindError);
      }
      if id !in tasks {
        return NotFound;
      }
      if updateFault {
        return Reported(UpdateError);
      }
      tasks := tasks[id := Advance(tasks[id])];
      r := Answered(());
    }

    /** `remove`: deletes the task with this identifier; an absent one is no error. */
    method Remove(id: Id, fault: bool) returns (r: Outcome<()>)
      requires Valid()
      modifies this
      ensures Valid()
      ensures fault ==> r == Failed(RemoveError) && tasks == old(tasks)
      ensures !fault ==> r == Answered(()) && tasks == old(tasks) - {id}
      ensures forall other :: other != id && other in old(tasks) ==> other in tasks && tasks[other] == old(tasks)[other]
      ensures ideas == old(ideas) && settings == old(settings)
      ensures nextTaskId == old(nextTaskId) && nextIdeaId == old(nextIdeaId)
    {
      if fault {
        return Failed(RemoveError);
      }
      tasks := tasks - {id};
      r := Answered(());
    }

    /** `removeIdea`: deletes the idea with this identifier; an absent one is no error. */
    method RemoveIdea(id: Id, fault: bool) returns (r: Outcome<()>)
      requires Valid()
      modifies this
      ensures Valid()
      ensures fault ==> r == Failed(RemoveError) && ideas == old(ideas)
      ensures !fault ==> r == Answered(()) && ideas == old(ideas) - {id}
      ensures forall other :: other != id && other in old(ideas) ==> other in ideas && ideas[other] == old(ideas)[other]
      ensures tasks == old(tasks) && settings == old(settings)
      ensures nextTaskId == old(nextTaskId) && nextIdeaId == old(nextIdeaId)
    {
      if fault {
        return Failed(RemoveError);
      }
      ideas := ideas - {id};
      r := Answered(());
    }

    /** `edit`: replaces the text of the task with this identifier; an update
        that matches no task succeeds and changes nothing. */
    method Edit(id: Id, text: string, fault: bool) returns (r: Outcome<()>)
      requires Valid()
      modifies this
      ensures Valid()
      ensures fault ==> r == Failed(UpdateError) && tasks == old(tasks)
      ensures !fault ==> r == Answered(())
      ensures !fault && id in old(tasks) ==> tasks == old(tasks)[id := old(tasks)[id].(text := text)]
      ensures id !in old(tasks) ==> tasks == old(tasks)
      ensures ideas == old(ideas) && settings == old(settings)
      ensures nextTaskId == old(nextTaskId) && nextIdeaId == old(nextIdeaId)
    {
      if fault {
        return Failed(UpdateError);
      }
      if id in tasks {
        tasks := tasks[id := tasks[id].(text := text)];
      }
      r := Answered(());
    }

    /** `editIdea`: replaces the text of the idea with this identifier; an
        update that matches no idea succeeds and changes nothing. */
    method EditIdea(id: Id, text: string, fault: bool) returns (r: Outcome<()>)
      requires Valid()
      modifies this
      ensures Valid()
      ensures fault ==> r == Failed(UpdateError) && ideas == old(ideas)
      ensures !fault ==> r == Answered(())
      ensures !fault && id in old(ideas) ==> ideas == old(ideas)[id := Idea(text)]
      ensures id !in old(ideas) ==> ideas == old(ideas)
      ensures tasks == old(tasks) && settings == old(settings)
      ensures nextTaskId == old(nextTaskId) && nextIdeaId == old(nextIdeaId)
    {
      if fault {
        return Failed(UpdateError);
      }
      if id in ideas {
        ideas := ideas[id := Idea(text)];
      }
      r := Answered(());
    }

    /** `setDefaultSettings`: inserts the default record when the lookup finds
        none. A failed lookup is reported and the callback is dropped; a failed
        insert is ignored and the callback still runs. */
    method SetDefaultSettings(findFault: bool, insertFault: bool) returns (r: Outcome<()>)
      requires Valid()
      modifies this
      ensures Valid()
      ensures r == if findFault then Reported(FindError) else Answered(())
      ensures settings == if findFault || insertFault then old(settings) else WithDefault(old(settings))
      ensures !findFault && !insertFault ==> NamedCount(settings) == 1
      ensures tasks == old(tasks) && ideas == old(ideas)
      ensures nextTaskId == old(nextTaskId) && nextIdeaId == old(nextIdeaId)
    {
      if findFault {
        return Reported(FindError);
      }
      if SettingsIndex(settings).None? && !insertFault {
        settings := settings + [DefaultDoc];
      }
      DefaultGivesSingleton(old(settings));
      r := Answered(());
    }

    /** `fetchNotYet`: the `notyet` flag of the settings record (absent if never
        set). A missing record is reported as not found. */
    method FetchNotYet(fault: bool) returns (r: Outcome<Option<bool>>)
      ensures fault ==> r == Reported(FindError)
      ensures !fault && SettingsIndex(settings).None? ==> r == NotFound
      ensures !fault && SettingsIndex(settings).Some? ==>
        r == Answered(settings[SettingsIndex(settings).value].notyet)
    {
      if fault {
        return Reported(FindError);
      }
      var i := SettingsIndex(settings);
      if i.None? {
        return NotFound;
      }
      r := Answered(settings[i.value].notyet);
    }

    /** `fetchFullscreen`: the `fullscreen` flag of the settings record (absent
        if never set). A missing record is reported as not found. */
    method FetchFullscreen(fault: bool) returns (r: Outcome<Option<bool>>)
      ensures fault ==> r == Reported(FindError)
      ensures !fault && SettingsIndex(settings).None? ==> r == NotFound
      ensures !fault && SettingsIndex(settings).Some? ==>
        r == Answered(settings[SettingsIndex(settings).value].fullscreen)
    {
      if fault {
        return Reported(FindError);
      }
      var i := SettingsIndex(settings);
      if i.None? {
        return NotFound;
      }
      r := Answered(settings[i.value].fullscreen);
    }

    /** `setNotYet`: fire-and-forget update of the flag; a failure is swallowed. */
    method SetNotYet(state: bool, fault: bool)
      requires Valid()
      modifies this
      ensures Valid()
      ensures settings == if fault then old(settings) else Patched(old(settings), NotYetFlag(state))
      ensures tasks == old(tasks) && ideas == old(ideas)
      ensures nextTaskId == old(nextTaskId) && nextIdeaId == old(nextIdeaId)
    {
      if !fault {
        PatchedKeepsCount(settings, NotYetFlag(state));
        settings := Patched(settings, NotYetFlag(state));
      }
    }

    /** `setFullscreen`: fire-and-forget update of the flag; a failure is swallowed. */
    method SetFullscreen(state: bool, fault: bool)
      requires Valid()
      modifies this
      ensures Valid()
      ensures settings == if fault then old(settings) else Patched(old(settings), FullscreenFlag(state))
      ensures tasks == old(tasks) && ideas == old(ideas)
      ensures nextTaskId == old(nextTaskId) && nextIdeaId == old(nextIdeaId)
    {
      if !fault {
        PatchedKeepsCount(settings, FullscreenFlag(state));
        settings := Patched(settings, FullscreenFlag(state));
      }
    }
  }
}
