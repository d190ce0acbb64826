/** The older, single-file server (`server/server.js`): the same archive and
    calendar logic as the split modules, with four differences kept here.
    Its `saveQueue()` is called without the queue, so the sync-info file
    loses the queue on every save; its sync up sends running timers too; its
    `/timerAdd` route does not queue the new timer at all; and its
    `/timerDuplicate` route appends to the current day, stamps the clock as
    the start and queues nothing. */
module LegacyServer {
  import opened Model
  import opened Utils
  import opened Queue
  import opened SaveStructure
  import opened Sync
  import Timers

  /** What the sync-info file holds after `addToQueue`: a local delete returns
      before saving; every other change calls `saveQueue()`, which sets
      `upQueue` to undefined, and `JSON.stringify` then leaves it out. */
  function SavedAfterAdd(p: Option<seq<Entry>>, change: Change, timer: Timer): Option<seq<Entry>> {
    if IsLocal(timer.id) && change == Delete then p else None
  }

  /** The module's `queue` and the `upQueue` of the sync-info file. */
  class LegacyQueue {
    var entries: seq<Entry>
    var persisted: Option<seq<Entry>>
    /** The ids whose entry holds the timer object the archive stores; sync up
        reads this array itself, so these stay linked for good. */
    var held: set<string>

    /** The queue as loaded at start-up: `syncInfo.upQueue`, or [] when absent. */
    constructor (stored: Option<seq<Entry>>)
      ensures entries == stored.GetOr([])
      ensures persisted == stored
      ensures held == {}
    {
      entries := stored.GetOr([]);
      persisted := stored;
      held := {};
    }

    /** What a restart would load. */
    function Reloaded(): seq<Entry>
      reads this
    {
      persisted.GetOr([])
    }

    /** `addToQueue(typeOfChange, timer)`: the in-memory queue changes as in
        the split modules; the file does not keep it. `stored` says whether
        `timer` is the archive's own object. */
    method AddToQueue(change: Change, timer: Timer, stored: bool)
      modifies this
      ensures entries == Enqueued(old(entries), change, timer)
      ensures persisted == SavedAfterAdd(old(persisted), change, timer)
      ensures held == HeldAfter(old(held), timer, stored)
    {
      held := HeldAfter(held, timer, stored);
      entries := DropStale(entries, timer.id);
      if IsLocal(timer.id) {
        if change == Delete {
          return;
        } else {
          entries := entries + [Entry(New, Some(timer))];
          persisted := None;
          return;
        }
      }
      entries := entries + [Entry(change, Some(timer))];
      persisted := None;
    }

    /** `removeFromQueue(index)`: splice one entry out; `saveQueue()` again
        drops the queue from the file. */
    method RemoveFromQueue(index: int)
      modifies this
      ensures entries == SpliceOut(old(entries), index)
      ensures persisted == None
      ensures held == old(held)
    {
      entries := SpliceOut(entries, index);
      persisted := None;
    }
  }

  /** `syncUp()`: as in the split modules, but every `new` and `update` entry is
      sent, running or not, and the module's own array is read, so every
      entry pushed with the archive's object still holds it. `replies` holds
      the calendar's answers per entry. */
  method SyncUp(q: LegacyQueue, a: Archive<Timer>, replies: seq<Reply>) returns (calls: seq<Call>)
    requires a.Valid() && |replies| == |q.entries|
    modifies q, a
    ensures a.Valid()
    ensures calls == CallsFor(old(q.entries), replies, false)
    ensures a.root == AfterInserts(old(a.root), old(q.entries), replies, false, old(q.held))
    ensures q.held == old(q.held)
    ensures q.entries == Survivors(old(q.entries), Settle(old(q.entries), replies, false))
    ensures q.persisted == if FulfilledIndices(Settle(old(q.entries), replies, false)) == [] then old(q.persisted)
                           else None
  {
    var queue := q.entries;
    var results;
    results, calls := Dispatch(a, queue, replies, false, q.held);
    var indices := FulfilledIndices(results);
    SettleShape(queue, replies, false);
    FulfilledIncreasing(results);
    SortDescendingOfIncreasing(indices);
    RemoveDescending(queue, results);
    indices := SortDescending(indices);
    ghost var root := a.root;
    var k := 0;
    while k < |indices|
      invariant 0 <= k <= |indices|
      invariant a.root == root
      invariant RemoveAll(q.entries, indices[k..]) == RemoveAll(queue, indices)
      invariant k == 0 ==> q.persisted == old(q.persisted)
      invariant k > 0 ==> q.persisted == None
      invariant q.held == old(q.held)
    {
      assert indices[k..][1..] == indices[k + 1..];
      q.RemoveFromQueue(indices[k]);
      k := k + 1;
    }
    ReversedEmpty(FulfilledIndices(results));
  }

  /** The `/timerAdd` route: open the start day, append a timer with a fresh
      id, the title and the start (no end, description ""), and queue nothing. */
  method TimerAddRoute(cur: Current<Timer>, a: Archive<Timer>, title: string, start: int, startDay: DateParts,
                       freshId: string)
    returns (r: seq<Timer>)
    requires a.Valid() && IsLocal(freshId)
    modifies cur, a
    ensures a.Valid()
    ensures var keys := KeysFor(GetYearMonthDay(startDay).year, GetYearMonthDay(startDay).month, GetYearMonthDay(startDay).day);
      && cur.path == Some(keys)
      && r == SortByStart(BucketAt(old(a.root), keys).GetOr([])) + [Timers.NewTimer(freshId, title, "", start)]
      && a.root == WithBucket(old(a.root), keys, r)
    ensures cur.Items(a) == r
  {
    var ymd := GetYearMonthDay(startDay);
    var sorted := Timers.UpdateCurrentTimers(cur, a, ymd.year, ymd.month, ymd.day);
    var keys := KeysFor(ymd.year, ymd.month, ymd.day);
    cur.SetItems(a, sorted + [Timers.NewTimer(freshId, title, "", start)]);
    WithBucketTwice(old(a.root), keys, sorted, sorted + [Timers.NewTimer(freshId, title, "", start)]);
    r := cur.Items(a);
  }

  /** The `/timerDelete` route: queue a copy of the first current timer with
      the id for deletion, then remove that timer. When there is none,
      `JSON.parse(undefined)` throws before anything changes; `deleted` is
      false then. */
  method TimerDeleteRoute(cur: Current<Timer>, a: Archive<Timer>, q: LegacyQueue, id: string) returns (deleted: bool)
    requires a.Valid()
    modifies cur, a, q
    ensures a.Valid()
    ensures deleted <==> IndexOfKey(old(cur.Items(a)), TimerId, id) != -1
    ensures cur.path == old(cur.path)
    ensures cur.Items(a) == DeleteFirst(old(cur.Items(a)), TimerId, id)
    ensures cur.path.Some? && deleted ==> a.root == WithBucket(old(a.root), cur.path.value, cur.Items(a))
    ensures cur.path.None? || !deleted ==> a.root == old(a.root)
    ensures deleted ==>
      var snapshot := old(cur.Items(a))[IndexOfKey(old(cur.Items(a)), TimerId, id)];
      && q.entries == Enqueued(old(q.entries), Delete, snapshot)
      && q.persisted == SavedAfterAdd(old(q.persisted), Delete, snapshot)
      && q.held == old(q.held) - {id}
    ensures !deleted ==> q.entries == old(q.entries) && q.persisted == old(q.persisted) && q.held == old(q.held)
  {
    var items := cur.Items(a);
    var k := IndexOfKey(items, TimerId, id);
    if k == -1 {
      deleted := false;
      return;
    }
    q.AddToQueue(Delete, items[k], false);
    var rest;
    deleted, rest := TryDeleteObject(id, items, TimerId);
    cur.SetItems(a, rest);
  }

  /** The `/timerDuplicate` route: append a timer with a fresh id, the title
      and the description to whatever array is current, started at the clock
      reading `now` (no end). Unlike the split `/duplicate`, it opens no start
      day, does not sort, and queues nothing. */
  method TimerDuplicateRoute(cur: Current<Timer>, a: Archive<Timer>, title: string, description: string, now: int,
                             freshId: string)
    returns (newId: string)
    requires a.Valid() && IsLocal(freshId)
    modifies cur, a
    ensures a.Valid()
    ensures newId == freshId
    ensures cur.path == old(cur.path)
    ensures cur.Items(a) == old(cur.Items(a)) + [Timers.NewTimer(freshId, title, description, now)]
    ensures cur.path.Some? ==> a.root == WithBucket(old(a.root), cur.path.value, cur.Items(a))
    ensures cur.path.None? ==> a.root == old(a.root)
  {
    var duplicateTimer := Timers.NewTimer(freshId, title, description, now);
    cur.SetItems(a, cur.Items(a) + [duplicateTimer]);
    newId := duplicateTimer.id;
  }

  // ---------------------------------------------------------------------------
  // Properties

  /** The lost queue: after any change other than the delete of a local timer,
      the in-memory queue holds the change but a restart loads an empty queue. */
  lemma QueueLostOnRestart(q: seq<Entry>, p: Option<seq<Entry>>, change: Change, timer: Timer)
    requires !(IsLocal(timer.id) && change == Delete)
    ensures SavedAfterAdd(p, change, timer).GetOr([]) == []
    ensures Enqueued(q, change, timer) != []
    ensures Enqueued(q, change, timer)[|Enqueued(q, change, timer)| - 1].timer == Some(timer)
  {
    assert Pushed(change, timer) != [];
    assert Enqueued(q, change, timer) == WithoutId(q, timer.id) + Pushed(change, timer);
  }

  /** A concrete run: one update of a calendar timer on an empty queue that
      was saved empty. The queue in memory has the update; the file has none. */
  lemma UpdateNotPersisted(t: Timer)
    requires !IsLocal(t.id)
    ensures Enqueued([], Update, t) == [Entry(Update, Some(t))]
    ensures SavedAfterAdd(Some([]), Update, t).GetOr([]) == []
  {
    assert WithoutId([], t.id) == [];
  }

  /** The update entries whose get succeeded. */
  function FetchedUpdates(q: seq<Entry>, replies: seq<Reply>): nat
    requires |replies| == |q|
  {
    if q == [] then 0
    else
      var n := |q| - 1;
      FetchedUpdates(q[..n], replies[..n])
      + (if q[n].change == Update && q[n].timer.Some? && replies[n].fetched.Some? then 1 else 0)
  }

  /** With no running-timer skip, every entry with a value makes one call, an
      update whose get succeeded one more, and only falsy entries make none. */
  lemma {:induction false} OneCallPerEntry(q: seq<Entry>, replies: seq<Reply>)
    requires |replies| == |q|
    ensures |CallsFor(q, replies, false)| == |q| - |Falsy(q)| + FetchedUpdates(q, replies)
  {
    if q != [] {
      var n := |q| - 1;
      OneCallPerEntry(q[..n], replies[..n]);
      assert q == q[..n] + [q[n]];
      FalsyAppend(q[..n], [q[n]]);
    }
  }

  /** Without the skip, an entry for a value settles fulfilled exactly when the
      calendar accepted its change (for an update, the get and the update), or
      when it is a delete of an event already gone. */
  lemma LegacySettledCases(e: Entry, reply: Reply, index: nat)
    requires e.timer.Some?
    ensures SettledFor(e, reply, index, false) == Fulfilled(index)
        <==> (reply.outcome.Ok? && (e.change == Update ==> reply.fetched.Some?))
             || (e.change == Delete && reply.outcome.Err? && reply.outcome.code == GONE)
    ensures SettledFor(e, reply, index, false) != Fulfilled(index) ==> SettledFor(e, reply, index, false) == Rejected
  {
  }

  /** A running timer's `new` entry is sent and leaves the queue once the
      calendar accepts it, where the split modules keep it queued. */
  lemma SendsRunningTimer(t: Timer, id: string)
    requires IsRunning(t)
    ensures CallsFor([Entry(New, Some(t))], [Reply(None, Ok(id))], false) == [InsertCall(InsertBody(t))]
    ensures Survivors([Entry(New, Some(t))], Settle([Entry(New, Some(t))], [Reply(None, Ok(id))], false)) == []
    ensures CallsFor([Entry(New, Some(t))], [Reply(None, Ok(id))], true) == []
  {
    assert [Entry(New, Some(t))][..0] == [];
  }

  /** A timer added through `/timerAdd` and deleted before any sync leaves the
      queue as it was apart from entries for its id; the file is untouched. */
  lemma AddThenDeleteLeavesFile(q: seq<Entry>, p: Option<seq<Entry>>, snapshot: Timer)
    requires IsLocal(snapshot.id)
    ensures Enqueued(q, Delete, snapshot) == WithoutId(q, snapshot.id)
    ensures SavedAfterAdd(p, Delete, snapshot) == p
    ensures EntriesFor(Enqueued(q, Delete, snapshot), snapshot.id) == []
  {
    WithoutIdEffect(q, snapshot.id);
    assert Pushed(Delete, snapshot) == [];
    assert Enqueued(q, Delete, snapshot) == WithoutId(q, snapshot.id) + [];
  }
}
