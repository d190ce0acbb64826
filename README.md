# Eisenhour: a Dafny model of the timer server

Eisenhour is a time tracker whose Node server keeps timers, todos and task
groups in JSON save files and mirrors timers to a Google calendar. This
project models the server's core in Dafny and proves what it promises:

- **The archive** (`server/save-structure.js`): timers, or todos, filed by day
  under `save.y<year>.m<month>.d<day>`. Each level is a JavaScript object. It is
  modelled as an insertion-ordered association list with unique keys (module
  `Objects`), because that is the order `Object.entries` visits. The keys here
  (`y2021`, `m1`, `d30`) are never integer-like, so insertion order is exact.
  The archive is a class (`SaveStructure.Archive`). The handlers' module
  variables `currentTimers` and `currentTodos` point at one day's array, and
  every in-place change through them changes the save. That aliasing is
  modelled by `SaveStructure.Current`: it holds the day's path, and every write
  goes through `Archive.SetBucket`.
- **The change queue** (`server/queue.js`): the calendar changes still to be
  sent, at most one per timer. `addToQueue` drops stale entries, turns changes
  to timers the calendar never saw (21-character local ids) into `new` entries,
  and cancels a `new` with a later `delete`. The class also tracks what the
  sync-info file holds, so reload behaviour can be stated. JSON parsing copies
  objects, so it also tracks which entries hold the archive's own timer
  objects and whether `syncInfo.upQueue` is still the module's array.
- **Sync** (`server/sync.js`): sync down stores calendar events page by page.
  Sync up dispatches every queued change. It then removes the fulfilled entries
  from the queue, largest index first. An accepted insert renames the timer
  object in the queue entry; that reaches the archive only while the entry
  holds the archive's own object.
- **Routes** for timers, todos and task groups (`server/timers.js`,
  `server/todos.js`, `server/task-groups.js`, and the older root copy
  `task-groups.js`).
- **Statistics** (`server/statistics.js`): per-group tallies and rounded
  durations over a year, and the count of running queued timers. The scenario
  lemmas restate the repository's own jest cases.
- **Helpers** (`server/utils.js`, `utils.js`): `tryDeleteObject`,
  `getYearMonthDay` and `getDateStr`.
- **The elapsed-time display** (`client/src/components/TimerElapsed.js`).
- **The older monolithic server** (`server/server.js`). It shares most of the
  logic above. Module `LegacyServer` models what differs: the lost queue file,
  sync up without the running-timer skip, `/timerAdd` without enqueueing, and
  `/timerDuplicate`, which appends to the current day with the clock as start
  and without enqueueing.

Outside inputs are parameters of the model:
- the calendar's answers (`Reply` per queue entry, `Page` per list call);
- the clock and date parsing (`DateParts`);
- nanoid's fresh id;
- the regular-expression test `timerMatches` (a `matches` function).

JavaScript's `Math.floor` and `Math.round` on millisecond counts are written
out with Dafny's `/`, which floors for a positive divisor.

## Model

| member | source | states |
|---|---|---|
| Utils.IndexOfKey | server/utils.js:9 | `findIndex` returns -1 exactly when no element has the key; otherwise it returns the first index that has it |
| Utils.SpliceStart | server/utils.js:12 | the clamped start of `splice` lies within the array |
| Utils.SpliceOutAt | server/utils.js:12 | `splice(i, 1)` inside the array removes exactly element i; later elements shift down and the multiset loses that element |
| Utils.SpliceInOut | server/todos.js:55-56 | `splice(p, 0, x)` puts x at the clamped place; removing there gives the array back; the multiset gains x |
| Utils.ReplaceFirstEffect | server/timers.js:60-61 | assigning at the `findIndex` result replaces only the first match; with no match the elements are unchanged; a same-key value keeps every key |
| Utils.TryDeleteObject | server/utils.js:8-17 | returns true iff some element has the key value; on true exactly the first such element is removed and the length drops by one; on false the array is unchanged |
| Utils.DeleteFirstEffect | utils.js:8-17 | the root copy of `tryDeleteObject`: with a match, one element leaves and the order of the rest is kept; with none, nothing changes |
| Utils.GetYearMonthDay | server/utils.js:24-28 | year and day as the Date gives them; the month is `getMonth() + 1`, so 1..12 for a valid date |
| Utils.PadTwoDigits | server/utils.js:36 | `pad` writes any 0..99 as two digits that read back as the number |
| Utils.ParseNatString | server/save-structure.js:21-23 | a number written in decimal reads back as itself |
| Utils.DateStrMonthCountsFromZero | server/utils.js:35-40 | `getDateStr` as written: 19 characters in the `yyyy-mm-dd_HH-MM-SS` layout, every field reads back, and the month field is the calendar month minus one |
| Utils.DecemberWrittenAsEleven | server/utils.js:37 | 6 December 2022 is written with month "11" while `getYearMonthDay` gives 12 |
| Utils.DateStrOneBasedRoundTrip | server/utils.js:35-40 | with the month counted from 1, the string reads back as the calendar date and time |
| Objects.KeyIndex | server/save-structure.js:24-26 | the key's position in insertion order, -1 exactly when the object lacks it |
| Objects.Get | server/save-structure.js:24-26 | `o[k]` is missing exactly when the key is absent, otherwise it is the value stored under it |
| Objects.Put | server/save-structure.js:24-26 | `o[k] = v` keeps an existing key's place, appends a new key, and leaves every other slot alone |
| Objects.PutGet | server/save-structure.js:24-26 | after `o[k] = v`, reading k gives v and reading any other key gives what it gave before |
| Objects.PutSame | server/save-structure.js:24-26 | writing back the stored value changes nothing, so "create if missing" is idempotent |
| Objects.PutKeepsUnique | server/save-structure.js:24-26 | writing a key never makes a key occur twice |
| Objects.PutPut | server/task-groups.js:76-78 | writing a key twice keeps only the second value |
| Objects.FlatPut | server/sync.js:63-64 | replacing one slot's list changes the flattened contents by exactly the old and new lists |
| SaveStructure.KeysForInjective | server/save-structure.js:21-23 | distinct dates give distinct day keys |
| SaveStructure.BucketAtWith | server/save-structure.js:24-27 | a day written is read back at its own path, and no other day changes |
| SaveStructure.WithBucketSame | server/save-structure.js:24-26 | rewriting a day with its current array leaves the save as it was |
| SaveStructure.WithBucketTwice | server/save-structure.js:40 | two writes to one day equal the second write |
| SaveStructure.WithBucketValid | server/save-structure.js:24-26 | writing a day keeps every level free of repeated keys |
| SaveStructure.EnsuredEffect | server/save-structure.js:20-28 | after the structure check the day exists, holding its old timers or none; no other day changes; an existing day leaves the save unchanged; the check is idempotent |
| SaveStructure.WithBucketIds | server/save-structure.js:40 | writing a day exchanges the old day's ids for the new day's ids in the save's ids |
| SaveStructure.IdsDeleteFirst | server/save-structure.js:101 | deleting a present id from a day removes one occurrence of it from the day's ids |
| SaveStructure.IdsRename | server/save-structure.js:115 | renaming one stored timer exchanges one occurrence of the old id for the new one |
| SaveStructure.FindBucketFound | server/save-structure.js:49-61 | `getDayArrayById` finds a day iff the id is somewhere in the save |
| SaveStructure.FindBucketSound | server/save-structure.js:49-61 | the day it reports exists and holds the id |
| SaveStructure.TimerByIdFound | server/save-structure.js:69-78 | `getTimerById` finds a timer iff the id is in the save, and the timer found carries that id |
| SaveStructure.SingleDay | server/save-structure.js:24-26 | in a save of one day, writing that day keeps the shape; writing into an empty save creates exactly the three levels |
| SaveStructure.DeleteFromSingleDay | server/save-structure.js:99-103 | deleting from a one-day save that holds the id removes the first such timer from that day |
| SaveStructure.AppendedIds | server/sync.js:64-70 | pushing a timer onto a day adds exactly its id to the save's ids |
| SaveStructure.DeletedFromSaveEffect | server/save-structure.js:99-103 | the delete keeps the save valid; it removes exactly one occurrence of a present id and touches no other day; an absent id changes nothing |
| SaveStructure.DeletedIsGone | server/save-structure.js:99-103 | with unique ids, a deleted id is gone from the save |
| SaveStructure.RenamedInSaveEffect | server/save-structure.js:112-119 | the id update keeps the save valid; it exchanges one occurrence of the id for the new one in the found day only; an absent id changes nothing |
| SaveStructure.SortByStartEffect | server/save-structure.js:85-91 | `sortArrayByStart` orders the day by start and keeps the same timers (a permutation) |
| SaveStructure.SortByStartIds | server/save-structure.js:85-91 | sorting keeps the day's ids |
| SaveStructure.SortSortedIsIdentity | server/save-structure.js:85-91 | sorting an ordered day changes nothing; the comparator returns 0 on ties and the engine's sort is stable |
| SaveStructure.Archive.GetSaveKeysAndVerifyStructureFor | server/save-structure.js:20-28 | returns the keys `y<year>`, `m<month>`, `d<day>`; afterwards the day exists with its old content or empty, and every other day is unchanged; the copy at `server/server.js:59-67` does the same |
| SaveStructure.Archive.GetDayArray | server/save-structure.js:38-41 | gives that day's (possibly new) array, which stays in the save |
| SaveStructure.Archive.SetBucket | server/save-structure.js:40 | a change made in place through the day's array is the save with that day rewritten, and nothing else changes |
| SaveStructure.GetDayArrayById | server/save-structure.js:49-61 | the three nested loops return the first day, in key order, whose array holds the id, or false; the copy at `server/server.js:86-98` does the same |
| SaveStructure.GetTimerById | server/save-structure.js:69-78 | the timer with the id in the day found, or false |
| SaveStructure.TryDeleteTimerFromSave | server/save-structure.js:99-103 | true iff the id was in the save; the timer is spliced out of its day; the copy at `server/server.js:155-159` does the same |
| SaveStructure.TryUpdateTimerId | server/save-structure.js:112-119 | true iff a stored timer had the id; that stored timer takes the new id in place |
| SaveStructure.Current.Attach | server/timers.js:40 | `currentTimers = getDayArray(...)` makes the variable refer to that day |
| SaveStructure.Current.SetItems | server/timers.js:61 | a change through the variable is seen in the save's day, and only there |
| Queue.FirstFor | server/queue.js:22-25 | the first entry with a truthy value whose id matches, or -1 |
| Queue.DropStale | server/queue.js:20-29 | the do-while leaves exactly the entries for other timers and the falsy entries, in order, and no entry for this timer |
| Queue.ChangeQueue.constructor | server/save.js:59 | the queue starts as the file's `upQueue`, or empty when there is none; that array is `syncInfo.upQueue`, its entries are parsed copies, and the file holds the queue |
| Queue.ChangeQueue.Read | server/save.js:138-143 | `getQueue()` gives the module's array while it is shared and the parsed file otherwise; with the file up to date, both are the queue |
| Queue.ChangeQueue.Linked | server/save.js:92-94 | the ids whose entry `getQueue()` hands out as the archive's own object: the held ones while the array is shared, none otherwise |
| Queue.ChangeQueue.Reread | server/save.js:105-108 | `getSyncToken` parses the file anew: `syncInfo.upQueue` is a copy from then on, and the module's queue is unchanged |
| Queue.HeldAfter | server/timers.js:59-87 | after a push, the timer's id is held iff the caller passed the archive's object (the delete routes pass a JSON copy); other ids keep their state |
| Queue.ChangeQueue.AddToQueue | server/queue.js:18-45 | the queue becomes the stale-free queue plus the pushed entry; the file holds the queue, which `syncInfo` shares again; the id is held iff the archive's object was passed; at most one entry per timer is kept |
| Queue.ChangeQueue.RemoveFromQueue | server/queue.js:51-55 | splices out one entry and saves the queue, which `syncInfo` shares again; at most one entry per timer is kept |
| Queue.WithoutIdEffect | server/queue.js:20-29 | the stale-entry loop removes every entry for the id and keeps the entries for every other id, and the falsy ones, in order |
| Queue.PushedKind | server/queue.js:32-41 | a local id gets `new` for any change except delete, which pushes nothing; a calendar id gets the change as given |
| Queue.EnqueuedEffect | server/queue.js:18-45 | afterwards the timer's only entry is the pushed one, and it is last; other timers' entries and falsy entries are unchanged; the length is stated |
| Queue.EnqueuedKeepsAtMostOne | server/queue.js:19-29 | `addToQueue` keeps at most one pending change per timer |
| Queue.SpliceOutCounts | server/queue.js:51-55 | removing an entry never adds an entry for any timer |
| Queue.SpliceOutKeepsAtMostOne | server/queue.js:51-55 | `removeFromQueue` keeps at most one pending change per timer |
| Queue.EnqueuedIdempotent | server/queue.js:18-45 | queueing the same change twice equals queueing it once |
| Queue.AddThenDeleteLocal | server/queue.js:32-35 | a local timer created and deleted before a sync leaves no entry behind |
| Sync.StopPage | server/sync.js:98-104 | the index of the first page without a next-page token; every earlier page has one |
| Sync.SyncCursor.SaveSyncToken | server/save.js:79-86 | the stored sync token becomes the given one |
| Sync.StoreNewEvents | server/sync.js:54-72 | each event in turn: delete any timer with its id, skip it if cancelled, else append it to its start day; the copy at `server/server.js:231-249` does the same |
| Sync.SyncDown | server/sync.js:77-109 | one list request per page until the first page without a next-page token; each page's events are stored and the latest sync token kept; reading the token parts the queue from the sync-info file, so no entry links to the archive afterwards; the copy at `server/server.js:254-286` does the same to the archive and the token |
| Sync.RequestsShape | server/sync.js:91-105 | every request carries the stored sync token; the first has no page token and each later one the previous page's non-empty token |
| Sync.PagesStep | server/sync.js:95-97 | reading one more page stores its events and takes its sync token |
| Sync.ReadPage | server/sync.js:96-97 | one page: the save is the old one with the page's events stored, and the stored token is the page's sync token when it has one, else unchanged |
| Sync.StoreEventEffect | server/sync.js:54-72 | storing an event keeps the save valid and ids unique; a cancelled event's id is gone; any other event's id occurs once, last in its start day; other ids keep their counts |
| Sync.DroppedEffect | server/sync.js:57 | deleting an id from a valid save with unique ids keeps it so, removes the id, and leaves every other id's count |
| Sync.AppendedEffect | server/sync.js:62-70 | appending a timer with a new id to a day keeps the save valid with unique ids; the id occurs once, at the end of that day; no other count changes |
| Sync.AppendedCounts | server/sync.js:62-70 | after appending a timer whose id is new, that id occurs once, every other id as often as before, and no id twice |
| Sync.StoreEventsUnique | server/sync.js:54-72 | storing a batch of events keeps the save valid with unique ids |
| Sync.StorePagesUnique | server/sync.js:77-109 | a whole sync down never duplicates a timer |
| Sync.LatestTokenSource | server/sync.js:97 | the stored token is the old one or one a page sent; it is never emptied once set; the last page's token wins |
| Sync.SixthOfDecember | server/sync.js:63 | an event starting on 6 December 2022 files under `y2022.m12.d6` |
| Sync.EventIntoEmptySave | server/sync.test.js:222-229 | one event synced into an empty save creates its day with just that timer |
| Sync.UpstreamChangeReplaces | server/sync.test.js:230-238 | an event changed upstream replaces the stored timer with its id |
| Sync.MergeEventProperties | server/sync.js:155-174 | the merged update keeps the fetched summary and description only where the timer's are empty: updating twice equals updating once, and a timer with title and description writes what an insert writes whatever was fetched |
| Sync.SettleShape | server/sync.js:199-242 | result i is how entry i's promise settles, and every fulfilled value is its own index |
| Sync.DispatchEntry | server/sync.js:199-241 | one entry: the calls it makes (an update gets the event, then writes back the fetched event merged with the timer) and how its promise settles; an accepted insert renames the stored timer only when the entry holds the archive's object, and nothing else changes the save |
| Sync.DispatchStep | server/sync.js:198-241 | one more entry extends the settled results, the calls and the renamed save by exactly that entry's share |
| Sync.Dispatch | server/sync.js:199-242 | the calls made and the results are those of each entry in queue order; accepted inserts of linked entries rename their stored timers |
| Sync.SyncUp | server/sync.js:179-258 | the queue keeps exactly the rejected entries, in order, and at most one per timer; the calls are as dispatched; the archive has the accepted inserts of the linked entries renamed; the file is saved, and the queue shared again, iff some entry was removed |
| Sync.RemoveEach | server/sync.js:252 | removing each index in turn gives the queue with those removals applied; the file is saved iff there was one |
| Sync.FulfilledIncreasing | server/sync.js:248-250 | the fulfilled indices are strictly increasing and below the queue length |
| Sync.SortDescendingOfIncreasing | server/sync.js:251 | sorting with `b - a` reverses increasing indices, a decreasing permutation of them |
| Sync.SortDescendingIsReversed | server/sync.js:251 | the insertion sort of increasing indices, largest first, is their reverse |
| Sync.ReversedMultiset | server/sync.js:251 | reversing keeps the same indices |
| Sync.RemoveDescending | server/sync.js:244-253 | removing the fulfilled indices largest first removes exactly the fulfilled entries |
| Sync.SurvivorsCount | server/sync.js:244-253 | kept plus removed equals the queue; all rejected keeps the queue; all fulfilled empties it |
| Sync.SurvivorsLength | server/sync.js:244-253 | the entries kept plus the indices removed make up the queue |
| Sync.AllRejected | server/sync.js:244-253 | when every promise is rejected the queue is unchanged |
| Sync.AllFulfilled | server/sync.js:244-253 | when every promise is fulfilled the queue is emptied |
| Sync.RunningNeverSent | server/sync.js:187-195 | with the skip, no insert or update sends a timer without an end, and no entry makes more than two calls |
| Sync.SettledCases | server/sync.js:202-240 | a running timer's new or update stays queued; a delete answered 410 leaves the queue; an update whose get failed stays; other errors keep the entry; success of the last call removes it |
| Sync.AfterInsertsKeepsTimers | server/sync.js:220-224 | renaming after inserts keeps the save valid and the number of timers |
| Sync.DetachedRenamesNothing | server/sync.js:198-224 | when no entry holds the archive's objects, as after a restart or a sync down, sync up leaves the archive as it was |
| Sync.SurvivorsCounts | server/sync.js:244-253 | keeping the rejected entries never adds an entry for any timer |
| Sync.SurvivorsKeepAtMostOne | server/sync.js:244-253 | sync up keeps at most one pending change per timer |
| Sync.SkipsRunningTimer | server/sync.test.js:158-162 | a running timer's `new` makes no call and stays queued |
| Sync.SyncsDeletedTimer | server/sync.test.js:163-167 | a queued delete makes one delete call and leaves the queue on success |
| Sync.SyncsNewTimer | server/sync.test.js:168-186 | a finished timer's `new` makes one insert. It leaves the queue on success and stays on a server error |
| Sync.SyncsUpdatedTimer | server/sync.test.js:173-177 | a finished timer's `update` gets its event and writes back the fetched event merged with the timer, then leaves the queue; when the get fails, nothing is written and it stays |
| Sync.RestartedInsertDuplicates | server/sync.js:219-223 | after a restart the accepted insert leaves the archive as it was, and the next sync down stores the timer twice, under its local id and the event id |
| Sync.LinkedInsertReplaces | server/sync.js:219-223 | when the insert renames the stored timer, the next sync down replaces it: the event id occurs once and the local id is gone |
| Sync.RenamedCounts | server/save-structure.js:112-119 | exchanging one occurrence of a present id for an absent one takes the old id to none and keeps every id at most once |
| Statistics.GroupTallies | server/statistics.js:12-15 | the tallies list every group of the matchers, in their order |
| Statistics.TalliesForYear | server/statistics.js:11-36 | undefined when the year is missing; otherwise every group's tally over the year's timers in visiting order, where a timer with a null end counts back to the epoch and one with an absent end gives NaN |
| Statistics.CountMonth | server/statistics.js:20-33 | one month's loop adds its days' timers to the tallies |
| Statistics.CountDay | server/statistics.js:21-31 | one day's loop adds its timers |
| Statistics.CountTimer | server/statistics.js:23-30 | the `forEach` over the groups counts the timer for each group |
| Statistics.CountMatchers | server/statistics.js:24-29 | each matching matcher adds one and the timer's seconds to its group and touches no other group |
| Statistics.CountRunning | server/statistics.js:66-76 | the running count; an entry without a timer makes it throw |
| Statistics.MatchersTallyEffect | server/statistics.js:24-29 | a timer adds one per matching matcher, and as many times its seconds: two matching matchers count it twice |
| Statistics.TimersTallyCounts | server/statistics.js:22-31 | a group's tally is the number of matching (timer, matcher) pairs and its seconds their summed durations |
| Statistics.RunningPoisonsSeconds | server/statistics.js:53-59 | one matching timer whose end is absent makes the group's seconds NaN |
| Statistics.TimerSecondsMeaning | server/statistics.js:53-59 | an ended timer's seconds are its duration to the nearest second; a null end, `new Date(null)`, counts from the start back to the epoch, negative for any later start; only an absent end gives NaN |
| Statistics.RunningTimerCountsBack | server/statistics.js:53-59 | the test save with its dev timer still running (end null) tallies dev as 1 timer and -1635840846 seconds |
| Statistics.RoundSecondsNearest | server/statistics.js:57 | `Math.round(ms / 1000)` is the nearest whole second, halves up |
| Statistics.RunningSpecCounts | server/statistics.js:66-76 | the count is the number of queued timers without an end, at most the queue length |
| Statistics.OneGroupOneMatch | server/statistics.test.js:27-30 | the repository's test: group dev counts 1 timer, 5766 seconds |
| Statistics.TwoGroups | server/statistics.test.js:32-38 | dev counts 1 and 5766 s; w counts 1 and 9366 s |
| Statistics.TwoMatches | server/statistics.test.js:40-46 | with a second day, dev counts 2 timers and 11532 seconds |
| Statistics.CountRunningExamples | server/statistics.test.js:65-87 | the empty queue gives 0; one ended timer gives 0; one running timer, end null, gives 1 |
| Timers.GetCurrentTimers | server/timers.js:28-30 | sorts the current day in place: ordered by start, same timers, written to the save |
| Timers.UpdateCurrentTimers | server/timers.js:39-42 | the current day becomes that date's day, created if missing, returned sorted; the copy at `server/server.js:120-123` does the same |
| Timers.FindTimer | server/timers.js:49-56 | found iff the id is in the save; the timer found has the id; the copy at `server/server.js:166-173` does the same |
| Timers.UpdateRoute | server/timers.js:59-66 | the first timer with the body's id becomes the body, the save follows, and an update is queued that holds the stored object iff the id was in the current day |
| Timers.PushNew | server/timers.js:68-77 | opens the start day, sorts it, appends the timer and queues it as new |
| Timers.AddRoute | server/timers.js:68-77 | a fresh-id timer with the title and start and no end ends the sorted start day and is queued as new |
| Timers.DeleteRoute | server/timers.js:79-87 | a present id queues a snapshot for deletion and removes the first match; a missing id changes nothing |
| Timers.DuplicateRoute | server/timers.js:89-100 | the copy with a fresh id ends its start day and is queued as new; the new id is returned |
| Timers.ReplacedEffect | server/timers.js:60-61 | the body ends up in the day iff a timer with its id was there |
| Timers.ReplacedIds | server/timers.js:60-61 | the update keeps the day's ids |
| Timers.PushNewKeepsIdsUnique | server/timers.js:70-71 | adding a fresh id keeps every id in the save unique |
| Timers.AddThenDeleteQueuesNothing | server/timers.js:68-87 | adding then deleting a timer before a sync leaves no entry for it |
| Todos.UpdateCurrentTodos | server/todos.js:42-45 | the current todos become that date's day of the todos save, created empty if missing |
| Todos.SwapItems | server/todos.js:54-57 | on a non-empty day: the element at id1's index (the last one if id1 is missing) moves to id2's index, taken before the removal |
| Todos.AddRoute | server/todos.js:65-70 | appends a not-done todo with a fresh id and the title |
| Todos.UpdateRoute | server/todos.js:72-78 | the first todo with the body's id becomes the body; no match changes no element |
| Todos.DeleteRoute | server/todos.js:80-85 | removes the first todo with the id, if any |
| Todos.MovedKeepsTodos | server/todos.js:54-57 | a swap keeps the same todos: same length, same multiset |
| Todos.MovedPlacesTodo | server/todos.js:54-57 | with both ids present, id1's todo lands at id2's index and the others keep their order |
| Todos.MovedOntoItself | server/todos.js:54-57 | `swapItems(x, x)` leaves the order unchanged |
| Todos.MovedNeighbours | server/todos.js:54-57 | for adjacent todos, in either order, the move is a true swap |
| Todos.SwapForward | server/todos.js:54-57 | taking an element out and putting it back one place later swaps it with its right neighbour |
| Todos.SwapBackward | server/todos.js:54-57 | taking an element out and putting it back one place earlier swaps it with its left neighbour |
| Todos.AddThenDelete | server/todos.js:65-85 | deleting the todo just added restores the day |
| Todos.UpdateKeepsIds | server/todos.js:72-78 | the update keeps every todo's id; the body is in the day afterwards iff its id was |
| TaskGroups.GroupStore.Update | server/task-groups.js:56-65 | a new name is appended; a known name replaces its first group; the whole array is returned; the copy at `task-groups.js:37-46` does the same |
| TaskGroups.GroupStore.Delete | server/task-groups.js:67-71 | removes the first group with the name and answers with the name; the copy at `task-groups.js:48-52` does the same |
| TaskGroups.GroupStore.MatchersByName | server/task-groups.js:75-78 | the loop builds the matcher map, group by group; the copy at `task-groups.js:56-59` does the same |
| TaskGroups.GroupStore.MatchingGroupsFor | server/task-groups.js:38-50 | the groups with at least one matching matcher, in array order, each added once |
| TaskGroups.UpsertedEffect | server/task-groups.js:56-65 | after `/update` the body is present; a new name adds one group at the end; a known name keeps the length; other groups and all names stay |
| TaskGroups.UpsertedTwice | server/task-groups.js:56-65 | sending the same group twice equals sending it once |
| TaskGroups.UpsertThenDelete | server/task-groups.js:56-71 | deleting a group just added under a new name restores the array |
| TaskGroups.MatcherMapKeys | server/task-groups.js:75-78 | the matcher map has one key per name, present iff some group has that name |
| TaskGroups.MatcherMapLastWins | server/task-groups.js:76-78 | a name several groups share maps to the matchers of the last of them |
| TaskGroups.MatchingCounts | server/task-groups.js:38-50 | each matching group is listed as often as the array holds it, and no other group is listed |
| TaskGroups.MatchingMembers | server/task-groups.js:38-50 | a group is listed iff it is in the array and one of its matchers matches |
| TimerElapsed.ElapsedPartsMeaning | client/src/components/TimerElapsed.js:32-37 | minutes and seconds are 0..59, hours is `floor(ms / 3600000)` without bound, and together they give the whole seconds of ms |
| TimerElapsed.ElapsedPartsUnique | client/src/components/TimerElapsed.js:32-37 | that split is the only one with minutes and seconds in 0..59 |
| TimerElapsed.ElapsedRoundTrip | client/src/components/TimerElapsed.js:31-42 | the H:MM:SS display reads back as the whole seconds between start and end |
| TimerElapsed.DisplayReads | client/src/components/TimerElapsed.js:38-41 | any hours with minutes and seconds below 60 display as a string that reads back as their total in seconds |
| TimerElapsed.DisplayFields | client/src/components/TimerElapsed.js:38-41 | minutes and seconds are two digits that read back as the numbers; the hours field reads back as the hours; the whole display reads back as the total seconds |
| TimerElapsed.ZeroElapsed | client/src/components/TimerElapsed.js:31-42 | under one second displays '0:00:00' |
| TimerElapsed.InitialState | client/src/components/TimerElapsed.js:12-22 | no end shows '0:00:00', and so does a timer that starts running; it is initially running iff there is a start and no end; after the effect, iff the end is null |
| TimerElapsed.EndedElapsed | client/src/components/TimerElapsed.js:14-17 | with an end, the first display reads back as the whole seconds from start to end |
| LegacyServer.LegacyQueue.constructor | server/server.js:35-38 | loads the file's queue, empty when absent, holding parsed copies |
| LegacyServer.LegacyQueue.AddToQueue | server/server.js:422-449 | the same queue change as the split module, with the id held iff the archive's object was passed; the file keeps no queue unless the call was a local delete |
| LegacyServer.LegacyQueue.RemoveFromQueue | server/server.js:455-458 | splices one entry out; the file again keeps no queue |
| LegacyServer.SyncUp | server/server.js:356-415 | like the split sync up but with no running-timer skip, reading the module's own array, so every held entry renames its stored timer; the file loses the queue once an entry is removed |
| LegacyServer.TimerAddRoute | server/server.js:140-148 | opens the start day and appends the new timer; nothing is queued |
| LegacyServer.TimerDuplicateRoute | server/server.js:183-192 | appends the copy, with a fresh id and the clock reading as start and no end, to whatever day is current (no start day opened, no sort); the other paths of the archive and the queue are untouched |
| LegacyServer.TimerDeleteRoute | server/server.js:175-181 | queues a snapshot for deletion and removes the first match; a missing id changes nothing |
| LegacyServer.QueueLostOnRestart | server/server.js:442-448 | after any change but a local delete, memory holds the change while a restart loads an empty queue |
| LegacyServer.UpdateNotPersisted | server/server.js:447-448 | one update of a calendar timer on an empty queue: memory has it, the file has none |
| LegacyServer.OneCallPerEntry | server/server.js:358-399 | without the skip, every entry with a value makes one call, an update whose get succeeded one more, and falsy entries none |
| LegacyServer.LegacySettledCases | server/server.js:361-397 | an entry is removed iff the calendar accepted its change (for an update, the get and the update) or it is a delete answered 410 |
| LegacyServer.SendsRunningTimer | server/server.js:376-387 | a running timer's `new` is sent and leaves the queue on success, where the split module keeps it |
| LegacyServer.AddThenDeleteLeavesFile | server/server.js:437-440 | deleting a local timer drops its entries, pushes nothing and leaves the file alone |

## Left out

- HTTP: express routing, body parsing and `res.send` are not modelled. Route methods return what the route sends.
- File writes (`saveSave`, `saveTodos`, `saveGroups`, the backups) are not modelled, nor is loading at start-up. Only the queue's saved copy is tracked, as `persisted`.
- Authentication (`authentication.js`, `getCalendar`) and the calendar API are parameters: one `Reply` per queue entry and one `Page` per list call. A fetched event's fields other than summary, description, start and end are sent back unchanged and are not modelled.
- SettledFor: after `reject(err)`, the insert callback (server/sync.js:143-145) and both update callbacks (server/sync.js:159-161, 168-170) go on to read `res.data` of the missing response and throw inside the calendar client's callback. Where that exception goes belongs to the client library, which is not modelled. The model settles the entry as rejected and, after a failed get, sends no update.
- `getEvents` never settles when the list call fails; that hang is not modelled.
- Concurrency: promises settle in queue order in the model. The real interleaving of asynchronous callbacks is not modelled.
- The rate-limit test ('bottlenecks insert operations', server/sync.test.js:187-212) exercises a throttle that server/sync.js does not contain.
- Ids, clocks and pattern tests are parameters: nanoid's id, `new Date()` and date parsing (`DateParts`, milliseconds as `int`), and the regular-expression test `timerMatches`.
- Time zones are folded into the `DateParts` the caller supplies.
- All-day calendar events (no `dateTime`) would give an Invalid Date in the source; they are not modelled.
- `Array.prototype.sort` is modelled by its result: a stable insertion sort on start. The engine's algorithm is not modelled. `sortArrayByStart` (server/save-structure.js:85-91) compares the `start` strings with `<` and `>`; the model compares milliseconds. The two orders agree because every start the split server stores has the one `toJSON()` ISO format (server/sync.js:66 and the client's JSON dates), whose string order is the time order; the legacy server's `Date` objects are the exception noted below.
- JavaScript numbers are doubles; the model uses unbounded integers. Millisecond timestamps are exact integers well inside the double range.
- `timerSeconds` yields NaN for an absent end; the model uses a `Num | NaN` datatype. NaN serialising to `null` is not modelled.
- A timer's `end` is an instant, `null` or absent (`End`). An end string that does not parse as a date is not modelled.
- Timer, todo and group records have fixed fields. Extra fields copied by `{...req.body}` are not modelled.
- Timers.AddRoute: the source leaves the description unset; the model stores "" there. LegacyServer.TimerAddRoute does the same.
- Timers.UpdateRoute: with no timer of that id, the source stores the body under the array property "-1". The model leaves the elements unchanged and does not represent that property. The same holds for Todos.UpdateRoute.
- Todos.SwapItems: on an empty day the source inserts `undefined`. The model leaves the empty day unchanged.
- Queue entries are `{[change]: timer}` with one of the three changes. An entry `{}`, or one with another change name, is not representable; either would make sync up throw or never settle.
- Object identity of queued timers is tracked per id (`held`): an entry holds the archive's object when its push passed that object. The rename after an insert (`timer.id = v`) then renames the stored timer with that id. That is exact as long as no calendar event is filed under a queued local id, which nanoid's ids make unlikely.
- `getSyncToken`'s failure branches (no sync-info file, a parse error) are not modelled; `ChangeQueue.Reread` is the successful re-parse.
- Objects: JavaScript visits integer-like keys first, in numeric order. The model keeps insertion order for every key, which matters only for a task group named like a number.
- `'y' + year` is built from the route's year. The model takes the year, month and day as integers.
- `todosSave` and `save` are null until the asynchronous load at start-up finishes. The model starts from a loaded archive.
- Statistics: `talliesForMonth`, `talliesForType`, `getDatesFromRange` and `getNeededStructureForDates`, which server/statistics.test.js calls, are not defined in server/statistics.js and are not part of this model. `countRunning`'s loop over `Object.values` looks at the single value of each entry.
- TimerElapsed: the React state, the one-second ticking interval and its cleanup are not modelled. Only the initial state, the effect's running value and `calculateElapsed` are.
- The legacy server stores `Date` objects, not ISO strings, for synced and duplicated timers. Comparisons between the two kinds are not modelled.
- The legacy `/timerUpdate` and `/day` routes are not part of this model. Their logic is the split modules' `/update` and `/day` logic modelled above, apart from the `saveQueue()` without the queue that LegacyServer.UpdateNotPersisted shows.
- The replies of the sync-down routes are not modelled. The legacy `/syncDown` (server/server.js:194-197) replies with `currentTimers` as they are; the split `/down` (server/sync.js:260-262) replies with `getCurrentTimers()`, which also sorts the current day in place (Timers.GetCurrentTimers).
- Utils.TryDeleteObject works on a value and returns the shortened array. The callers write it back through `Current.SetItems` or `Archive.SetBucket`, which is where the in-place update and its aliasing are modelled.

## Findings

| source | as written | input that shows it | evidently intended | confidence | as-written member | corrected member |
|---|---|---|---|---|---|---|
| server/utils.js:37 | the month field of `getDateStr` is `getMonth()`, counted from 0 | 6 December 2022, 20:18:06 is written "2022-11-06_20-18-06" | "2022-12-06_20-18-06", the calendar month as `getYearMonthDay` gives it | not executed | Utils.DecemberWrittenAsEleven | Utils.DateStrOneBasedRoundTrip |
| server/sync.js:222 | `timer.id = v` renames the object inside the queue entry. After a restart, or after any sync down, `getQueue()` hands out parsed copies, so the stored timer keeps its local id | restart with `upQueue` = [{new: t}] and t, local id L, in save.json; sync up gets the event id ev1; the next sync down lists ev1: the save holds t under L and the event under ev1 | rename the stored timer, which `tryUpdateTimerId` (server/save-structure.js:112-119) does and sync up never calls | not executed | Sync.RestartedInsertDuplicates | Sync.LinkedInsertReplaces |
| server/server.js:442 | `saveQueue()` is called without the queue, so `upQueue` becomes undefined and the sync-info file drops it | an update to a calendar timer, starting from an empty saved queue: a restart loads no queue and the change is never synced | `saveQueue(queue)`, as server/queue.js:44 does | not executed | LegacyServer.UpdateNotPersisted | Queue.ChangeQueue.AddToQueue |
