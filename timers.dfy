/** The timer routes (`server/timers.js`): the module's `currentTimers` is the
    day array the client is looking at, shared with the archive, and every
    change to it is also queued for the calendar. */
module Timers {
  import opened Model
  import opened Utils
  import opened Queue
  import opened SaveStructure

  /** The timer a route creates: a fresh id, no end yet. */
  function NewTimer(id: string, title: string, description: string, start: int): Timer {
    Timer(id, start, Undefined, title, description)
  }

  /** `getCurrentTimers()`: sorts the current array in place by start and
      returns it. */
  method GetCurrentTimers(cur: Current<Timer>, a: Archive<Timer>) returns (r: seq<Timer>)
    requires a.Valid()
    modifies cur, a
    ensures a.Valid()
    ensures r == SortByStart(old(cur.Items(a)))
    ensures SortedByStart(r) && multiset(r) == multiset(old(cur.Items(a)))
    ensures cur.Items(a) == r && cur.path == old(cur.path)
    ensures cur.path.Some? ==> a.root == WithBucket(old(a.root), cur.path.value, r)
    ensures cur.path.None? ==> a.root == old(a.root)
  {
    r := SortByStart(cur.Items(a));
    SortByStartEffect(cur.Items(a));
    cur.SetItems(a, r);
  }

  /** `updateCurrentTimers(year, month, day)`: the current array becomes that
      day's array, created when missing, and comes back sorted. */
  method UpdateCurrentTimers(cur: Current<Timer>, a: Archive<Timer>, year: int, month: int, day: int) returns (r: seq<Timer>)
    requires a.Valid()
    modifies cur, a
    ensures a.Valid()
    ensures cur.path == Some(KeysFor(year, month, day))
    ensures r == SortByStart(BucketAt(old(a.root), KeysFor(year, month, day)).GetOr([]))
    ensures a.root == WithBucket(old(a.root), KeysFor(year, month, day), r)
    ensures cur.Items(a) == r
  {
    var keys := a.GetDayArray(year, month, day);
    ghost var ensured := a.root;
    cur.Attach(keys);
    r := GetCurrentTimers(cur, a);
    WithBucketTwice(old(a.root), keys, BucketAt(old(a.root), keys).GetOr([]), r);
  }

  /** `findTimer(id)`: the first timer with the id in the first day holding
      it, or None (the source's `false`) when the archive has no such timer. */
  method FindTimer(a: Archive<Timer>, id: string) returns (r: Option<Timer>)
    requires a.Valid()
    ensures r.Some? <==> id in SaveIds(a.root)
    ensures r.Some? ==> r.value.id == id
    ensures r == TimerById(a.root, id)
  {
    var dayArray := GetDayArrayById(a, id);
    r := None;
    if dayArray.Some? {
      var b := a.Bucket(dayArray.value).GetOr([]);
      var k := IndexOfKey(b, TimerId, id);
      if k != -1 {
        r := Some(b[k]);
      }
    }
    TimerByIdFound(a.root, id);
  }

  /** The `/update` route: the timer with the body's id is replaced by the
      body, and an update is queued for it. */
  method UpdateRoute(cur: Current<Timer>, a: Archive<Timer>, q: ChangeQueue, body: Timer) returns (sent: Timer)
    requires a.Valid()
    modifies cur, a, q
    ensures a.Valid()
    ensures sent == body
    ensures cur.path == old(cur.path) && cur.Items(a) == ReplaceFirst(old(cur.Items(a)), TimerId, body.id, body)
    ensures cur.path.Some? && body.id in Ids(old(cur.Items(a))) ==>
      a.root == WithBucket(old(a.root), cur.path.value, cur.Items(a))
    ensures cur.path.None? || body.id !in Ids(old(cur.Items(a))) ==> a.root == old(a.root)
    ensures q.entries == Enqueued(old(q.entries), Update, body)
    ensures q.persisted == Some(q.entries)
    ensures q.shared && q.held == HeldAfter(old(q.held), body, cur.path.Some? && body.id in Ids(old(cur.Items(a))))
  {
    var items := cur.Items(a);
    var timerIndex := IndexOfKey(items, TimerId, body.id);
    IdsOf(items, body.id);
    if timerIndex != -1 {
      cur.SetItems(a, items[timerIndex := body]);
    }
    sent := body;
    // With no timer of that id, `currentTimers[-1]` is a property of the
    // array, not one of its elements, and the save never holds it.
    q.AddToQueue(Update, sent, cur.path.Some? && timerIndex != -1);
  }

  /** What `/add` and `/duplicate` share: open the day the timer starts on,
      append the timer to it and queue it as new. */
  method PushNew(cur: Current<Timer>, a: Archive<Timer>, q: ChangeQueue, startDay: DateParts, t: Timer)
    requires a.Valid()
    modifies cur, a, q
    ensures a.Valid()
    ensures var keys := KeysFor(GetYearMonthDay(startDay).year, GetYearMonthDay(startDay).month, GetYearMonthDay(startDay).day);
      && cur.path == Some(keys)
      && cur.Items(a) == SortByStart(BucketAt(old(a.root), keys).GetOr([])) + [t]
      && a.root == WithBucket(old(a.root), keys, cur.Items(a))
    ensures q.entries == Enqueued(old(q.entries), New, t)
    ensures q.persisted == Some(q.entries)
    ensures q.shared && q.held == HeldAfter(old(q.held), t, true)
  {
    var ymd := GetYearMonthDay(startDay);
    var sorted := UpdateCurrentTimers(cur, a, ymd.year, ymd.month, ymd.day);
    var keys := KeysFor(ymd.year, ymd.month, ymd.day);
    cur.SetItems(a, sorted + [t]);
    WithBucketTwice(old(a.root), keys, sorted, sorted + [t]);
    q.AddToQueue(New, t, true);
  }

  /** The `/add` route: a new timer with a fresh id (nanoid's 21 characters),
      the given title and start and no end, appended to its start day. The
      source leaves the description unset; it is "" here. */
  method AddRoute(cur: Current<Timer>, a: Archive<Timer>, q: ChangeQueue, title: string, start: int, startDay: DateParts,
             freshId: string)
    returns (r: seq<Timer>)
    requires a.Valid() && IsLocal(freshId)
    modifies cur, a, q
    ensures a.Valid()
    ensures var keys := KeysFor(GetYearMonthDay(startDay).year, GetYearMonthDay(startDay).month, GetYearMonthDay(startDay).day);
      && cur.path == Some(keys)
      && r == SortByStart(BucketAt(old(a.root), keys).GetOr([])) + [NewTimer(freshId, title, "", start)]
      && a.root == WithBucket(old(a.root), keys, r)
    ensures cur.Items(a) == r
    ensures q.entries == Enqueued(old(q.entries), New, NewTimer(freshId, title, "", start))
    ensures q.persisted == Some(q.entries)
    ensures q.shared && q.held == HeldAfter(old(q.held), NewTimer(freshId, title, "", start), true)
  {
    PushNew(cur, a, q, startDay, NewTimer(freshId, title, "", start));
    r := cur.Items(a);
  }

  /** The `/delete` route: a copy of the first current timer with the id is
      queued for deletion, then that timer is removed. When there is none,
      `JSON.parse(undefined)` throws before anything changes; `deleted` is
      false then. */
  method DeleteRoute(cur: Current<Timer>, a: Archive<Timer>, q: ChangeQueue, id: string) returns (deleted: bool)
    requires a.Valid()
    modifies cur, a, q
    ensures a.Valid()
    ensures deleted <==> IndexOfKey(old(cur.Items(a)), TimerId, id) != -1
    ensures cur.path == old(cur.path)
    ensures cur.Items(a) == DeleteFirst(old(cur.Items(a)), TimerId, id)
    ensures cur.path.Some? && deleted ==> a.root == WithBucket(old(a.root), cur.path.value, cur.Items(a))
    ensures cur.path.None? || !deleted ==> a.root == old(a.root)
    ensures deleted ==>
      var snapshot := old(cur.Items(a))[IndexOfKey(old(cur.Items(a)), TimerId, id)];
      && q.entries == Enqueued(old(q.entries), Delete, snapshot)
      && q.persisted == Some(q.entries)
      && q.shared && q.held == HeldAfter(old(q.held), snapshot, false)
    ensures !deleted ==>
      q.entries == old(q.entries) && q.persisted == old(q.persisted) && q.shared == old(q.shared) && q.held == old(q.held)
  {
    var items := cur.Items(a);
    var k := IndexOfKey(items, TimerId, id);
    if k == -1 {
      deleted := false;
      return;
    }
    q.AddToQueue(Delete, items[k], false);
    var rest;
    deleted, rest := TryDeleteObject(id, items, TimerId);
    cur.SetItems(a, rest);
  }

  /** The `/duplicate` route: a timer with a fresh id and the title,
      description and start of the request, appended to its start day and
      queued as new. Returns the new id. */
  method DuplicateRoute(cur: Current<Timer>, a: Archive<Timer>, q: ChangeQueue, title: string, description: string,
                   start: int, startDay: DateParts, freshId: string)
    returns (newId: string)
    requires a.Valid() && IsLocal(freshId)
    modifies cur, a, q
    ensures a.Valid()
    ensures newId == freshId
    ensures var keys := KeysFor(GetYearMonthDay(startDay).year, GetYearMonthDay(startDay).month, GetYearMonthDay(startDay).day);
      && cur.path == Some(keys)
      && cur.Items(a) == SortByStart(BucketAt(old(a.root), keys).GetOr([])) + [NewTimer(freshId, title, description, start)]
      && a.root == WithBucket(old(a.root), keys, cur.Items(a))
    ensures q.entries == Enqueued(old(q.entries), New, NewTimer(freshId, title, description, start))
    ensures q.persisted == Some(q.entries)
    ensures q.shared && q.held == HeldAfter(old(q.held), NewTimer(freshId, title, description, start), true)
  {
    var duplicateTimer := NewTimer(freshId, title, description, start);
    PushNew(cur, a, q, startDay, duplicateTimer);
    newId := duplicateTimer.id;
  }

  // ---------------------------------------------------------------------------
  // Properties

  /** The `/update` body ends up in the day's array exactly when a timer with
      its id was there. */
  lemma ReplacedEffect(items: seq<Timer>, body: Timer)
    ensures body.id in Ids(items) <==> body in ReplaceFirst(items, TimerId, body.id, body)
  {
    IdsOf(items, body.id);
    ReplaceFirstEffect(items, TimerId, body.id, body);
    if body in items {
      var j :| 0 <= j < |items| && items[j] == body;
      assert Ids(items)[j] == body.id;
    }
  }

  /** Replacing a timer by one with the same id keeps the day's ids. */
  lemma ReplacedIds(items: seq<Timer>, body: Timer)
    ensures Ids(ReplaceFirst(items, TimerId, body.id, body)) == Ids(items)
  {
    ReplaceFirstEffect(items, TimerId, body.id, body);
    assert forall j :: 0 <= j < |items| ==> Ids(ReplaceFirst(items, TimerId, body.id, body))[j] == Ids(items)[j];
  }

  /** A timer added with an id the archive does not hold keeps every id in
      the archive unique, and is then the only timer with that id. */
  lemma PushNewKeepsIdsUnique(s: Save<Timer>, keys: Path, t: Timer)
    requires UniqueIds(s) && t.id !in SaveIds(s)
    ensures UniqueIds(WithBucket(s, keys, SortByStart(BucketAt(s, keys).GetOr([])) + [t]))
    ensures multiset(SaveIds(WithBucket(s, keys, SortByStart(BucketAt(s, keys).GetOr([])) + [t])))[t.id] == 1
  {
    var b := BucketAt(s, keys).GetOr([]);
    var b' := SortByStart(b) + [t];
    WithBucketIds(s, keys, b');
    IdsAppend(SortByStart(b), [t]);
    assert Ids([t]) == [t.id];
    SortByStartIds(b);
    Exchange(multiset(SaveIds(WithBucket(s, keys, b'))), multiset(SaveIds(s)), multiset(Ids(b)), multiset(Ids(b')),
      multiset{}, multiset{t.id});
    assert multiset(SaveIds(s))[t.id] == 0;
    assert multiset(SaveIds(WithBucket(s, keys, b'))) == multiset(SaveIds(s)) + multiset{t.id};
  }

  /** Adding a timer and deleting it before any sync leaves the queue without
      any entry for it: its fresh id is local, so the delete cancels the new. */
  lemma AddThenDeleteQueuesNothing(q: seq<Entry>, title: string, start: int, freshId: string, snapshot: Timer)
    requires IsLocal(freshId) && snapshot.id == freshId
    ensures EntriesFor(Enqueued(Enqueued(q, New, NewTimer(freshId, title, "", start)), Delete, snapshot), freshId) == []
    ensures Enqueued(Enqueued(q, New, NewTimer(freshId, title, "", start)), Delete, snapshot) == WithoutId(q, freshId)
  {
    AddThenDeleteLocal(q, NewTimer(freshId, title, "", start), snapshot);
    WithoutIdEffect(q, freshId);
  }
}
