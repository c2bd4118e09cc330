# Task store facade of the wanna desktop app, in Dafny

This project models the database facade of the wanna desktop application. The
facade keeps three collections: tasks, ideas, and a settings collection that
holds one record named `settings`. Its operations are:

- inserting, editing and removing tasks and ideas;
- three task lists, `open`, `overdue` and `notyet`, each ranked by urgency;
- `markAsDone`, which closes a non-recurring task or rolls a recurring one
  forward by its period;
- lazy creation of the settings record, and reading and writing its two flags.

Layout:

- `records.dfy` (`Records`): the records, their projections, the error kinds
  and `Outcome`, which says how an operation ends:
  - `Answered`: the callback runs with a value;
  - `Failed`: the error goes to the host and to the callback;
  - `Reported`: the error goes to the host and the callback never runs;
  - `NotFound`: the record the source would index does not exist;
  - `Silent`: nothing happens.
- `selection.dfy` (`Selection`): the three find filters, what each selects, and
  what an exact selection is.
- `urgency.dfy` (`Urgency`): the `nowInner` clock arithmetic, with JavaScript's
  truncating `%` written out. Also the elapsed-window ratio (a `real`) and the
  ranking, an insertion sort by non-increasing ratio that keeps tasks of
  equal ratio in input order.
- `settings_docs.dfy` (`SettingsDocs`): the settings collection as a sequence
  of documents, with lookup by name, defaulting and flag updates.
- `task_store.dfy` (`TaskStore`): the task update `markAsDone` writes, and the
  class `Store` whose fields are the three collections. Each facade function
  is one method of `Store`.

Inputs the source reads from its environment are method parameters here:
- the clock (`now` for the filter, `clock` for the reference instant);
- the timezone offset in minutes;
- whether each storage call fails (`fault`, `findFault`, `updateFault`,
  `insertFault`).

The parsed task passed to `insert` is also a parameter. `units` is carried
through unchanged and is modelled as a string.

Three facts about the code that the model keeps:
- The find filters compare strictly (`db_factory.js:92-93, 119, 145`). A task
  whose `start` or `end` equals `now` is in none of the three lists
  (`Selection.WindowEndsAreInNoQuery`).
- `setDefaultSettings` ignores a failed insert and runs its callback anyway
  (`db_factory.js:336-338`).
- The reference instant (`db_factory.js:102-103`) is the next multiple of a day
  after the clock, in UTC, plus `getTimezoneOffset()` minutes. JavaScript's `%`
  truncates toward zero, so a clock before the epoch that is not a whole day
  skips one boundary (`Urgency.NextDayBoundaryBeforeEpoch`).

## Model

| member | source | states |
|---|---|---|
| `Records.View` | desktop/app/shared/database/db_factory.js:96 | the projection `{text, start, end, units, period}` with the record's id: it keeps every field but `status` |
| `Selection.ParseQuery` | desktop/app/shared/database/db_factory.js:89-170 | exactly the strings `open`, `overdue` and `notyet` name a query; every other `type` names none |
| `Selection.Matches` | desktop/app/shared/database/db_factory.js:91-147 | the filters `start < now && end > now`, `end < now` and `start > now`, each with `status == 0`: a matched task is open, and a task the open filter keeps has `start < end` |
| `Selection.NotOpenNeverSelected` | desktop/app/shared/database/db_factory.js:91-147 | every query filters on `status == 0`, so a task with any other status is never selected |
| `Selection.ExactlyOneQuery` | desktop/app/shared/database/db_factory.js:91-147 | an open task with `start < end`, at an instant other than its two ends, is selected by exactly one of the three queries |
| `Selection.WindowEndsAreInNoQuery` | desktop/app/shared/database/db_factory.js:91-147 | the comparisons are strict: at `now == start` or `now == end` the task is selected by no query |
| `Urgency.DayRemainder` | desktop/app/shared/database/db_factory.js:102 | JavaScript's `now % 86400000`: lies strictly between minus one day and one day, has the sign of `now`, and `now` minus it is a multiple of a day |
| `Urgency.NextDayBoundary` | desktop/app/shared/database/db_factory.js:102 | `now + (86400000 - now % 86400000)` is a multiple of a day and strictly later than `now`; for `now >= 0` it is at most one day later |
| `Urgency.NextDayBoundaryIsLeast` | desktop/app/shared/database/db_factory.js:102 | for `now >= 0` no multiple of a day lies strictly between `now` and its next day boundary |
| `Urgency.NextDayBoundaryBeforeEpoch` | desktop/app/shared/database/db_factory.js:102 | for a clock before the epoch that is not a whole day, the result is two days above the whole day below it, so one boundary after the clock is skipped |
| `Urgency.ReferenceInstant` | desktop/app/shared/database/db_factory.js:102-103 | `nowInner`, minus `tzOffset * 60000`, is a multiple of a day; it is later than `now + tzOffset * 60000`, and for `now >= 0` by at most one day |
| `Urgency.Ratio` | desktop/app/shared/database/db_factory.js:105-110 | `(nowInner - start) / (end - start)` is 0 when the window opens and 1 when it closes |
| `Urgency.RatioLocatesInstant` | desktop/app/shared/database/db_factory.js:105-110 | for `start < end` the ratio is negative exactly before the window, in `[0, 1]` exactly inside it, and above 1 exactly after it |
| `Urgency.RatioOrderCrossMultiplied` | desktop/app/shared/database/db_factory.js:105-111 | for windows with `end > start`, comparing the ratios `(nowInner - start) / (end - start)` is the same as comparing the cross-multiplied integers |
| `Urgency.RatioShiftInvariant` | desktop/app/shared/database/db_factory.js:105-110 | moving a window and the reference instant by the same amount leaves the ratio unchanged |
| `Urgency.Place` | desktop/app/shared/database/db_factory.js:104-112 | inserting one view gives a sequence with that view added to the multiset, and no other element |
| `Urgency.PlaceKeepsRanked` | desktop/app/shared/database/db_factory.js:104-112 | inserting into a list ordered by non-increasing ratio keeps it ordered |
| `Urgency.ConsKeepsRanked` | desktop/app/shared/database/db_factory.js:104-112 | putting a view that is at least as urgent as every element of an ordered list in front keeps the list ordered |
| `Urgency.Rank` | desktop/app/shared/database/db_factory.js:104-113 | the sort with comparator `ratioB - ratioA` returns a permutation of its input, ordered by non-increasing ratio |
| `Urgency.RankOfRankedIsIdentity` | desktop/app/shared/database/db_factory.js:104-113 | a list that is already in ranking order is returned unchanged |
| `Urgency.RankIdempotent` | desktop/app/shared/database/db_factory.js:104-113 | ranking a ranked result again yields the same order |
| `Urgency.RankKeepsTiedPair` | desktop/app/shared/database/db_factory.js:104-113 | two tasks with equal ratio keep the order the collection returned them in |
| `Urgency.PlaceKeepsIdsDistinct` | desktop/app/shared/database/db_factory.js:104-112 | inserting a view whose id is new into a list without repeated ids leaves no repeated ids |
| `Urgency.RankKeepsIdsDistinct` | desktop/app/shared/database/db_factory.js:104-113 | ranking neither merges nor duplicates records: ids distinct before are distinct after |
| `TaskStore.RankKeepsSelection` | desktop/app/shared/database/db_factory.js:96-113 | the ranked list still holds exactly the tasks the filter selected, each once and projected, provided none of them has `start == end` |
| `TaskStore.Store.Select` | desktop/app/shared/database/db_factory.js:91-96 | the collection query returns every stored task the filter selects, projected to id, text, start, end, units and period, each once, and nothing else |
| `TaskStore.Store.Find` | desktop/app/shared/database/db_factory.js:87-171 | an unknown `type` gives no callback; a failed query is reported and handed to the callback; otherwise the result is exactly the selected tasks, ordered by non-increasing ratio at `nowInner` |
| `TaskStore.Store.FindIdeas` | desktop/app/shared/database/db_factory.js:177-185 | a failed query is reported and the callback is dropped; otherwise the result is every stored idea with its id, each once, and nothing else |
| `SettingsDocs.SettingsIndex` | desktop/app/shared/database/db_factory.js:326-328 | the lookup by name finds the first document named `settings`, or reports that there is none |
| `SettingsDocs.NamedCount` | desktop/app/shared/database/db_factory.js:332 | `settings.length`, the number of documents named `settings`, is at most the size of the collection and is zero exactly when the lookup finds none |
| `SettingsDocs.NamedCountAppend` | desktop/app/shared/database/db_factory.js:333-336 | appending a document adds one to the count of settings records exactly when its name is `settings` |
| `SettingsDocs.WithDefault` | desktop/app/shared/database/db_factory.js:332-341 | after `setDefaultSettings` the lookup always finds a settings record; the documents before are kept in place and at most one is appended |
| `SettingsDocs.DefaultGivesSingleton` | desktop/app/shared/database/db_factory.js:325-344 | starting from at most one settings record, defaulting leaves exactly one |
| `SettingsDocs.DefaultCreatesOrKeeps` | desktop/app/shared/database/db_factory.js:332-341 | with no settings record, defaulting appends exactly one document, `{name: 'settings', notyet: true}`, keeps the rest in place, and the lookup then finds it; with one, the collection is unchanged |
| `SettingsDocs.DefaultIdempotent` | desktop/app/shared/database/db_factory.js:325-344 | defaulting twice gives the same collection as defaulting once |
| `SettingsDocs.Apply` | desktop/app/shared/database/db_factory.js:395-408 | `$set` of `notyet` or `fullscreen` writes the new value into that flag and keeps the name and the other flag |
| `SettingsDocs.Patched` | desktop/app/shared/database/db_factory.js:392-410 | a flag update keeps the length of the collection and every document's name, and changes no document other than the settings record the lookup finds |
| `SettingsDocs.PatchedKeepsCount` | desktop/app/shared/database/db_factory.js:392-410 | a flag update neither adds nor removes settings records |
| `SettingsDocs.SameNamesSameCount` | desktop/app/shared/database/db_factory.js:392-410 | two collections with the same names in the same places hold the same number of settings records |
| `SettingsDocs.SameNamesSameIndex` | desktop/app/shared/database/db_factory.js:352-410 | two collections with the same names in the same places find the settings record at the same position |
| `SettingsDocs.PatchedReadsBack` | desktop/app/shared/database/db_factory.js:352-410 | after a flag is set on an existing record, a fetch reads back the value written, and the other flag is unchanged |
| `TaskStore.Advance` | desktop/app/shared/database/db_factory.js:202-228 | the fields `markAsDone` writes: with `period == -1` the status becomes 1 and the window stays; otherwise the window moves by `period` and the status stays. Text, units, period and window length never change |
| `TaskStore.CompletedTaskNeverListed` | desktop/app/shared/database/db_factory.js:203-214 | a completed non-recurring task is selected by no query at any instant |
| `TaskStore.RolledTaskKeepsUrgency` | desktop/app/shared/database/db_factory.js:215-227 | after a roll-forward, one period later, the task has the ratio it had before |
| `TaskStore.Store.constructor` | desktop/app/shared/database/db_factory.js:6-42 | the store opens with three empty collections |
| `TaskStore.Store.Insert` | desktop/app/shared/database/db_factory.js:52-61 | a failed insert is reported, the callback is dropped and nothing changes; otherwise the task is stored unchanged under a fresh id; the other collections and the idea counter are unchanged, and the task counter moves only on success |
| `TaskStore.Store.InsertIdea` | desktop/app/shared/database/db_factory.js:69-78 | a failed insert is reported, handed to the callback, and nothing changes; otherwise `{idea}` is stored under a fresh id; the other collections and the task counter are unchanged, and the idea counter moves only on success |
| `TaskStore.Store.MarkAsDone` | desktop/app/shared/database/db_factory.js:193-232 | a failed lookup goes to the callback; a missing id is NotFound; a failed update is only reported; otherwise exactly that task becomes `Advance` of itself and every other record is unchanged |
| `TaskStore.Store.Remove` | desktop/app/shared/database/db_factory.js:240-251 | on success only the task with that id is gone, and an absent id is no error; a failure changes nothing and goes to the callback |
| `TaskStore.Store.RemoveIdea` | desktop/app/shared/database/db_factory.js:259-270 | on success only the idea with that id is gone, and an absent id is no error; a failure changes nothing and goes to the callback |
| `TaskStore.Store.Edit` | desktop/app/shared/database/db_factory.js:279-294 | on success only the text of the task with that id changes; an absent id changes nothing; a failure goes to the callback |
| `TaskStore.Store.EditIdea` | desktop/app/shared/database/db_factory.js:303-318 | on success only the text of the idea with that id changes; an absent id changes nothing; a failure goes to the callback |
| `TaskStore.Store.SetDefaultSettings` | desktop/app/shared/database/db_factory.js:325-344 | a failed lookup drops the callback; otherwise the callback runs; the collection becomes `WithDefault` of itself unless the lookup or the insert failed, leaving exactly one record |
| `TaskStore.Store.FetchNotYet` | desktop/app/shared/database/db_factory.js:352-364 | returns the `notyet` field of the settings record (absent if never set); NotFound when there is no record; a failure drops the callback |
| `TaskStore.Store.FetchFullscreen` | desktop/app/shared/database/db_factory.js:372-384 | returns the `fullscreen` field of the settings record (absent if never set); NotFound when there is no record; a failure drops the callback |
| `TaskStore.Store.SetNotYet` | desktop/app/shared/database/db_factory.js:392-397 | sets `notyet` on the settings record and changes nothing else; an update that fails, or matches nothing, changes nothing |
| `TaskStore.Store.SetFullscreen` | desktop/app/shared/database/db_factory.js:405-410 | sets `fullscreen` on the settings record and changes nothing else; an update that fails, or matches nothing, changes nothing |

## Left out

- Datastore construction, file persistence and the AES serialization hooks
  (`db_factory.js:4-42`). The collections are in-memory maps and a sequence;
  the encryption round trip through the file is not modelled.
- Host-process error messages (`ipc.send`). Only the error kind in the
  `Outcome` is kept. The payload is not modelled, so the model does not show
  that `markAsDone` sends the lookup's `err` (null there) on an update failure
  (`db_factory.js:210, 224`).
- The task parser (`db_factory.js:2, 53`). It is not part of this model, so
  the parsed task is an input.
- `Date.now()` and `getTimezoneOffset()` are parameters. `find` reads the clock
  three times (lines 88 and 102). The model takes one instant for the filter
  and one for the reference instant, so the two reads on line 102 give the
  same value.
- IEEE floating point. The ratio is an exact `real`, so two ratios that
  differ by less than double precision can order differently from the source.
  A window with `start == end` makes the JavaScript ratio NaN or infinite;
  `TaskStore.Store.Find` requires, when the query does not fail, that no
  selected task has such a window.
- Collection-native result order. nedb's order is not modelled: `Select` may
  return the matches in any order, and the ranking is proved only up to ties.
- `Urgency.Rank`: the model fixes the order of tasks of equal ratio to their
  input order, as `Array.prototype.sort` must since ECMAScript 2019. Older
  engines (V8 before 7.0 sorted lists of more than ten elements with an
  unstable quicksort) may reorder such ties, and there
  `Urgency.RankOfRankedIsIdentity` and `Urgency.RankIdempotent` need not hold
  of the source's sort. Stability itself is proved only for two tasks
  (`Urgency.RankKeepsTiedPair`), not for lists of any length.
- Identifiers. nedb's random `_id` strings are modelled as natural numbers
  drawn from a counter; the model only relies on each new id being fresh.
- `tasks[0]` and `settings[0]` on an empty result (`db_factory.js:202, 360,
  380`). The source fails with a TypeError there; the model returns
  `NotFound`.
- Angular factory registration (`db_factory.js:412-431`). This is framework
  wiring.
- Asynchronous callback scheduling. Each operation is one sequential step,
  so interleavings between concurrent callers are not modelled.
- The UI test files with dialog and due-date rendering. They contain no
  logic of the store.
