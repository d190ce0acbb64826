/** The up-sync change queue of server/queue.js: the list of changes still to
    be sent to the calendar, with at most the latest change per timer. */
module Queue {
  import opened Model
  import opened Utils

  // ---------------------------------------------------------------------------
  // Specification

  /** The queue with every entry for `id` dropped; the others keep their order. */
  function WithoutId(q: seq<Entry>, id: string): seq<Entry> {
    if q == [] then []
    else if IsFor(q[0], id) then WithoutId(q[1..], id)
    else [q[0]] + WithoutId(q[1..], id)
  }

  /** The entries for `id`, in queue order. */
  function EntriesFor(q: seq<Entry>, id: string): seq<Entry> {
    if q == [] then []
    else if IsFor(q[0], id) then [q[0]] + EntriesFor(q[1..], id)
    else EntriesFor(q[1..], id)
  }

  /** The entries whose value is falsy, in queue order; no id ever matches them. */
  function Falsy(q: seq<Entry>): seq<Entry> {
    if q == [] then []
    else if q[0].timer.None? then [q[0]] + Falsy(q[1..])
    else Falsy(q[1..])
  }

  function CountFor(q: seq<Entry>, id: string): nat {
    |EntriesFor(q, id)|
  }

  /** The invariant the queue is meant to keep: no timer has two pending changes. */
  ghost predicate AtMostOnePerId(q: seq<Entry>) {
    forall id :: CountFor(q, id) <= 1
  }

  /** What `addToQueue` appends after dropping the stale entries: nothing for a
      deletion of a timer the calendar never saw, a `new` entry for any other
      change to such a timer, and the change as given otherwise. */
  function Pushed(change: Change, timer: Timer): seq<Entry> {
    if IsLocal(timer.id) then
      (if change == Delete then [] else [Entry(New, Some(timer))])
    else [Entry(change, Some(timer))]
  }

  /** The queue after `addToQueue(change, timer)`. */
  function Enqueued(q: seq<Entry>, change: Change, timer: Timer): seq<Entry> {
    WithoutId(q, timer.id) + Pushed(change, timer)
  }

  /** `queue.findIndex(entry => value truthy && value.id === id)`. */
  function FirstFor(q: seq<Entry>, id: string): (r: int)
    ensures -1 <= r < |q|
    ensures r == -1 <==> forall i :: 0 <= i < |q| ==> !IsFor(q[i], id)
    ensures r >= 0 ==> IsFor(q[r], id) && forall i :: 0 <= i < r ==> !IsFor(q[i], id)
  {
    if q == [] then -1
    else if IsFor(q[0], id) then 0
    else
      var r := FirstFor(q[1..], id);
      if r == -1 then -1 else r + 1
  }

  /** The do-while of `addToQueue`: find the first entry for `id`, splice it
      out and search again, until none is left (the first search is hoisted
      out of the loop). */
  method DropStale(q: seq<Entry>, id: string) returns (r: seq<Entry>)
    ensures r == WithoutId(q, id)
    ensures FirstFor(r, id) == -1
  {
    r := q;
    var stale := FirstFor(r, id);
    while stale != -1
      invariant stale == FirstFor(r, id)
      invariant WithoutId(r, id) == WithoutId(q, id)
      decreases |r|
    {
      SpliceOutMatching(r, stale, id);
      r := SpliceOut(r, stale);
      stale := FirstFor(r, id);
    }
    NoneMatching(r, id);
  }

  // ---------------------------------------------------------------------------
  // The queue object

  /** The ids whose entry holds the timer object the archive stores, after
      `addToQueue(change, timer)`: `stored` says whether `timer` is that
      object or a copy of it. */
  function HeldAfter(held: set<string>, timer: Timer, stored: bool): (r: set<string>)
    ensures stored <==> timer.id in r
    ensures r - {timer.id} == held - {timer.id}
  {
    if stored then held + {timer.id} else held - {timer.id}
  }

  /** The module's `queue` together with the copy `saveQueue` last wrote to the
      sync-info file (`upQueue`; None when the file holds no queue). JSON
      values are copied on every parse, so the queue also records which
      entries hold the archive's own timer objects and whether
      `syncInfo.upQueue` is this very array. */
  class ChangeQueue {
    var entries: seq<Entry>
    var persisted: Option<seq<Entry>>
    /** `syncInfo.upQueue` is the module's array: so it is from start-up and
        after every `saveQueue`, until `getSyncToken` parses the file anew. */
    var shared: bool
    /** The ids whose entry was pushed, since start-up, with the timer object
        the archive stores; the delete route queues a JSON copy instead, and
        entries parsed from the file hold copies. */
    var held: set<string>

    /** The queue as loaded at start-up: `syncInfo.upQueue || []`. */
    constructor (stored: Option<seq<Entry>>)
      ensures entries == stored.GetOr([])
      ensures persisted == stored
      ensures shared == stored.Some? && held == {}
      ensures Valid()
    {
      entries := stored.GetOr([]);
      persisted := stored;
      shared := stored.Some?;
      held := {};
    }

    /** The file holds the queue that is in memory. */
    predicate Valid()
      reads this
    {
      persisted.GetOr([]) == entries
    }

    /** What a restart would load. */
    function Reloaded(): seq<Entry>
      reads this
    {
      persisted.GetOr([])
    }

    /** `getQueue()`: `syncInfo.upQueue || []`, the module's array while it is
        shared and the parsed file otherwise. */
    function Read(): (r: seq<Entry>)
      reads this
      ensures Valid() ==> r == entries
    {
      if shared then entries else persisted.GetOr([])
    }

    /** The ids whose timer `getQueue()` hands out as the archive's own object. */
    function Linked(): (r: set<string>)
      reads this
      ensures r <= held
      ensures shared ==> r == held
    {
      if shared then held else {}
    }

    /** `addToQueue(typeOfChange, timer)`: drop every earlier entry for the
        timer, push the change the calendar needs, and persist the queue.
        `stored` says whether `timer` is the archive's own object. */
    method AddToQueue(change: Change, timer: Timer, stored: bool)
      modifies this
      ensures entries == Enqueued(old(entries), change, timer)
      ensures persisted == Some(entries)
      ensures shared && held == HeldAfter(old(held), timer, stored)
      ensures Valid()
      ensures AtMostOnePerId(old(entries)) ==> AtMostOnePerId(entries)
    {
      entries := DropStale(entries, timer.id);
      if IsLocal(timer.id) {
        if change == Delete {
          // pass
        } else {
          entries := entries + [Entry(New, Some(timer))];
        }
      } else {
        entries := entries + [Entry(change, Some(timer))];
      }
      persisted := Some(entries);
      shared := true;
      held := HeldAfter(held, timer, stored);
      if AtMostOnePerId(old(entries)) {
        EnqueuedKeepsAtMostOne(old(entries), change, timer);
      }
    }

    /** `removeFromQueue(index)`: splice one entry out and persist the queue. */
    method RemoveFromQueue(index: int)
      modifies this
      ensures entries == SpliceOut(old(entries), index)
      ensures persisted == Some(entries)
      ensures shared && held == old(held)
      ensures Valid()
      ensures AtMostOnePerId(old(entries)) ==> AtMostOnePerId(entries)
    {
      entries := SpliceOut(entries, index);
      persisted := Some(entries);
      shared := true;
      if AtMostOnePerId(old(entries)) {
        SpliceOutKeepsAtMostOne(old(entries), index);
      }
    }

    /** `getSyncToken()` replaces `syncInfo` by a fresh parse of the file, so
        `syncInfo.upQueue` is a copy from then on; the module's array and the
        objects in it stay as they were. */
    method Reread()
      modifies this
      ensures entries == old(entries) && persisted == old(persisted) && held == old(held)
      ensures !shared
    {
      shared := false;
    }
  }

  // ---------------------------------------------------------------------------
  // Lemmas

  lemma {:induction false} WithoutIdAppend(a: seq<Entry>, b: seq<Entry>, id: string)
    ensures WithoutId(a + b, id) == WithoutId(a, id) + WithoutId(b, id)
  {
    if a == [] {
      assert a + b == b;
    } else {
      assert (a + b)[1..] == a[1..] + b;
      WithoutIdAppend(a[1..], b, id);
    }
  }

  lemma {:induction false} EntriesForAppend(a: seq<Entry>, b: seq<Entry>, id: string)
    ensures EntriesFor(a + b, id) == EntriesFor(a, id) + EntriesFor(b, id)
  {
    if a == [] {
      assert a + b == b;
    } else {
      assert (a + b)[1..] == a[1..] + b;
      EntriesForAppend(a[1..], b, id);
    }
  }

  lemma {:induction false} FalsyAppend(a: seq<Entry>, b: seq<Entry>)
    ensures Falsy(a + b) == Falsy(a) + Falsy(b)
  {
    if a == [] {
      assert a + b == b;
    } else {
      assert (a + b)[1..] == a[1..] + b;
      FalsyAppend(a[1..], b);
    }
  }

  /** Splicing out an entry for `id` does not change what survives the filter. */
  lemma SpliceOutMatching(q: seq<Entry>, i: int, id: string)
    requires 0 <= i < |q| && IsFor(q[i], id)
    ensures WithoutId(SpliceOut(q, i), id) == WithoutId(q, id)
    ensures |SpliceOut(q, i)| < |q|
  {
    var front, x, back := q[..i], q[i], q[i + 1..];
    assert SpliceStart(|q|, i) == i;
    assert SpliceOut(q, i) == front + back;
    assert q == (front + [x]) + back;
    assert WithoutId([x], id) == [] by {
      assert [x][1..] == [];
    }
    WithoutIdAppend(front + [x], back, id);
    WithoutIdAppend(front, [x], id);
    WithoutIdAppend(front, back, id);
  }

  /** A queue with no entry for `id` passes the filter untouched. */
  lemma {:induction false} NoneMatching(q: seq<Entry>, id: string)
    requires forall i :: 0 <= i < |q| ==> !IsFor(q[i], id)
    ensures WithoutId(q, id) == q
  {
    if q != [] {
      assert !IsFor(q[0], id);
      NoneMatching(q[1..], id);
    }
  }

  /** The filter removes exactly the entries for `id` and keeps the rest: the
      entries for every other id, and the falsy entries, in their order. */
  lemma {:induction false} WithoutIdEffect(q: seq<Entry>, id: string)
    ensures CountFor(WithoutId(q, id), id) == 0
    ensures |WithoutId(q, id)| == |q| - CountFor(q, id)
    ensures forall other :: other != id ==> EntriesFor(WithoutId(q, id), other) == EntriesFor(q, other)
    ensures Falsy(WithoutId(q, id)) == Falsy(q)
  {
    if q != [] {
      WithoutIdEffect(q[1..], id);
      if !IsFor(q[0], id) {
        var w := WithoutId(q[1..], id);
        assert WithoutId(q, id) == [q[0]] + w;
        assert ([q[0]] + w)[1..] == w;
        forall other | other != id
          ensures EntriesFor(WithoutId(q, id), other) == EntriesFor(q, other)
        {
        }
      }
    }
  }

  lemma PushedEffect(change: Change, timer: Timer)
    ensures CountFor(Pushed(change, timer), timer.id) == |Pushed(change, timer)| <= 1
    ensures forall other :: other != timer.id ==> EntriesFor(Pushed(change, timer), other) == []
    ensures Falsy(Pushed(change, timer)) == []
  {
    var p := Pushed(change, timer);
    if p != [] {
      assert p[1..] == [];
      assert EntriesFor(p, timer.id) == p;
    }
  }

  /** After `addToQueue` the timer has at most one entry, it is the last one,
      and it is the one just pushed. Entries for other timers, and falsy
      entries, are exactly those of before, in the same order. */
  lemma EnqueuedEffect(q: seq<Entry>, change: Change, timer: Timer)
    ensures EntriesFor(Enqueued(q, change, timer), timer.id) == Pushed(change, timer)
    ensures |Pushed(change, timer)| == 1 ==> Enqueued(q, change, timer)[|Enqueued(q, change, timer)| - 1] == Pushed(change, timer)[0]
    ensures forall other :: other != timer.id ==> EntriesFor(Enqueued(q, change, timer), other) == EntriesFor(q, other)
    ensures Falsy(Enqueued(q, change, timer)) == Falsy(q)
    ensures |Enqueued(q, change, timer)| == |q| - CountFor(q, timer.id) + |Pushed(change, timer)|
  {
    var w := WithoutId(q, timer.id);
    var p := Pushed(change, timer);
    assert Enqueued(q, change, timer) == w + p;
    WithoutIdEffect(q, timer.id);
    PushedEffect(change, timer);
    EntriesForAppend(w, p, timer.id);
    FalsyAppend(w, p);
    assert EntriesFor(p, timer.id) == p by {
      if p != [] {
        assert p[1..] == [];
      }
    }
    assert |EntriesFor(w, timer.id)| == 0;
    forall other | other != timer.id
      ensures EntriesFor(w + p, other) == EntriesFor(q, other)
    {
      EntriesForAppend(w, p, other);
    }
  }

  /** The pushed entry is always `new` for a timer the calendar never saw, and
      carries the requested change otherwise; only deleting a local timer pushes
      nothing. */
  lemma PushedKind(change: Change, timer: Timer)
    ensures |Pushed(change, timer)| == 0 <==> IsLocal(timer.id) && change == Delete
    ensures IsLocal(timer.id) && change != Delete ==> Pushed(change, timer) == [Entry(New, Some(timer))]
    ensures !IsLocal(timer.id) ==> Pushed(change, timer) == [Entry(change, Some(timer))]
  {
  }

  /** `addToQueue` keeps the one-change-per-timer invariant. */
  lemma EnqueuedKeepsAtMostOne(q: seq<Entry>, change: Change, timer: Timer)
    requires AtMostOnePerId(q)
    ensures AtMostOnePerId(Enqueued(q, change, timer))
  {
    EnqueuedEffect(q, change, timer);
    PushedEffect(change, timer);
    forall id
      ensures CountFor(Enqueued(q, change, timer), id) <= 1
    {
      if id != timer.id {
        assert CountFor(Enqueued(q, change, timer), id) == CountFor(q, id);
      }
    }
  }

  /** Splicing an entry out never adds an entry for any id. */
  lemma SpliceOutCounts(q: seq<Entry>, index: int, id: string)
    ensures CountFor(SpliceOut(q, index), id) <= CountFor(q, id)
  {
    var i := SpliceStart(|q|, index);
    if i < |q| {
      assert q == (q[..i] + [q[i]]) + q[i + 1..];
      EntriesForAppend(q[..i] + [q[i]], q[i + 1..], id);
      EntriesForAppend(q[..i], [q[i]], id);
      EntriesForAppend(q[..i], q[i + 1..], id);
    }
  }

  /** `removeFromQueue` keeps at most one entry per timer. */
  lemma SpliceOutKeepsAtMostOne(q: seq<Entry>, index: int)
    requires AtMostOnePerId(q)
    ensures AtMostOnePerId(SpliceOut(q, index))
  {
    forall id {
      SpliceOutCounts(q, index, id);
    }
  }

  /** Repeating the same change leaves the queue as the first call left it. */
  lemma EnqueuedIdempotent(q: seq<Entry>, change: Change, timer: Timer)
    ensures Enqueued(Enqueued(q, change, timer), change, timer) == Enqueued(q, change, timer)
  {
    var w := WithoutId(q, timer.id);
    var p := Pushed(change, timer);
    WithoutIdAppend(w, p, timer.id);
    WithoutIdTwice(q, timer.id);
    assert WithoutId(p, timer.id) == [] by {
      if p != [] {
        assert p[1..] == [];
      }
    }
    assert w + [] == w;
  }

  lemma {:induction false} WithoutIdTwice(q: seq<Entry>, id: string)
    ensures WithoutId(WithoutId(q, id), id) == WithoutId(q, id)
  {
    if q != [] {
      WithoutIdTwice(q[1..], id);
      if !IsFor(q[0], id) {
        var w := WithoutId(q[1..], id);
        assert ([q[0]] + w)[1..] == w;
      }
    }
  }

  /** A timer created and then deleted before any sync leaves no trace in the
      queue: the `new` entry is dropped and no `delete` is pushed. */
  lemma AddThenDeleteLocal(q: seq<Entry>, timer: Timer, deleted: Timer)
    requires IsLocal(timer.id) && deleted.id == timer.id
    ensures Enqueued(Enqueued(q, New, timer), Delete, deleted) == WithoutId(q, timer.id)
  {
    var w := WithoutId(q, timer.id);
    WithoutIdAppend(w, [Entry(New, Some(timer))], timer.id);
    WithoutIdTwice(q, timer.id);
    assert WithoutId([Entry(New, Some(timer))], timer.id) == [];
    assert w + [] == w;
  }
}
