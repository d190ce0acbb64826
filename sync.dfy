/** Two-way calendar sync of server/sync.js. Sync down reads the calendar's
    event list page by page and files each event in the archive under its
    start day; sync up sends every queued change to the calendar and drops
    from the queue the changes the calendar took. The calendar itself is an
    oracle: the pages it returns, and for each queued change the outcome of
    the calls made for it. */
module Sync {
  import opened Model
  import opened Objects
  import opened Utils
  import opened Queue
  import opened SaveStructure

  // ===========================================================================
  // Sync down

  /** A calendar event as the event list reports it. `start` and `end` are
      instants in milliseconds; `startParts` are the local-time components of
      `start` (time zones are not modelled). An absent summary or description is "". */
  datatype Event = Event(id: string, cancelled: bool, start: int, startParts: DateParts,
                         end: int, summary: string, description: string)

  /** One page of `events.list`; an empty token stands for an absent one. */
  datatype Page = Page(items: seq<Event>, nextSyncToken: string, nextPageToken: string)

  /** Parameters of one `events.list` call; an empty token is not sent. */
  datatype Request = Request(syncToken: string, pageToken: string)

  /** The timer an event is stored as. */
  function EventTimer(e: Event): Timer {
    Timer(e.id, e.start, At(e.end), e.summary, e.description)
  }

  /** The keys of the day the event starts on. */
  function EventDay(e: Event): Path {
    var ymd := GetYearMonthDay(e.startParts);
    KeysFor(ymd.year, ymd.month, ymd.day)
  }

  /** One step of `storeNewEvents`: drop any timer with the event's id, then,
      unless the event was cancelled, append the event to its start day. */
  function StoreEvent(s: Save<Timer>, e: Event): Save<Timer> {
    var s1 := DeletedFromSave(s, e.id);
    if e.cancelled then s1
    else WithBucket(s1, EventDay(e), BucketAt(s1, EventDay(e)).GetOr([]) + [EventTimer(e)])
  }

  function StoreEvents(s: Save<Timer>, events: seq<Event>): Save<Timer> {
    if events == [] then s
    else StoreEvent(StoreEvents(s, events[..|events| - 1]), events[|events| - 1])
  }

  function StorePages(s: Save<Timer>, read: seq<Page>): Save<Timer> {
    if read == [] then s
    else StoreEvents(StorePages(s, read[..|read| - 1]), read[|read| - 1].items)
  }

  /** The sync token stored after reading these pages: the last non-empty
      `nextSyncToken`, or the one stored before when no page had one. */
  function LatestToken(token: string, read: seq<Page>): string {
    if read == [] then token
    else if read[|read| - 1].nextSyncToken != "" then read[|read| - 1].nextSyncToken
    else LatestToken(token, read[..|read| - 1])
  }

  /** Index of the first page without a next-page token (|pages| when none). */
  function StopPage(pages: seq<Page>): (n: nat)
    ensures n <= |pages|
    ensures forall i :: 0 <= i < n ==> pages[i].nextPageToken != ""
    ensures n < |pages| ==> pages[n].nextPageToken == ""
  {
    if pages == [] then 0
    else if pages[0].nextPageToken == "" then 0
    else 1 + StopPage(pages[1..])
  }

  /** The stored sync token (`syncInfo.syncToken`); "" when there is none,
      which `getSyncToken` reports as null. */
  class SyncCursor {
    var syncToken: string

    constructor (token: string)
      ensures syncToken == token
    {
      syncToken := token;
    }

    /** `saveSyncToken(token)`. */
    method SaveSyncToken(token: string)
      modifies this
      ensures syncToken == token
    {
      syncToken := token;
    }
  }

  /** `storeNewEvents(events)`. */
  method StoreNewEvents(a: Archive<Timer>, events: seq<Event>)
    requires a.Valid()
    modifies a
    ensures a.Valid()
    ensures a.root == StoreEvents(old(a.root), events)
  {
    var i := 0;
    while i < |events|
      invariant 0 <= i <= |events|
      invariant a.Valid()
      invariant a.root == StoreEvents(old(a.root), events[..i])
    {
      var event := events[i];
      assert events[..i + 1][..i] == events[..i];
      var _ := TryDeleteTimerFromSave(a, event.id);
      if !event.cancelled {
        ghost var s1 := a.root;
        var ymd := GetYearMonthDay(event.startParts);
        var dayArray := a.GetDayArray(ymd.year, ymd.month, ymd.day);
        a.SetBucket(dayArray, a.Bucket(dayArray).value + [EventTimer(event)]);
        WithBucketTwice(s1, dayArray, BucketAt(s1, dayArray).GetOr([]), BucketAt(s1, dayArray).GetOr([]) + [EventTimer(event)]);
      }
      i := i + 1;
    }
    assert events[..|events|] == events;
  }

  /** The body of the sync-down loop for one page: store its events, then
      save its sync token when it has one. */
  method ReadPage(cursor: SyncCursor, a: Archive<Timer>, res: Page)
    requires a.Valid()
    modifies cursor, a
    ensures a.Valid()
    ensures a.root == StoreEvents(old(a.root), res.items)
    ensures cursor.syncToken == if res.nextSyncToken != "" then res.nextSyncToken else old(cursor.syncToken)
  {
    StoreNewEvents(a, res.items);
    if res.nextSyncToken != "" {
      cursor.SaveSyncToken(res.nextSyncToken);
    }
  }

  /** `syncDown()`: one `events.list` call per page, each with the stored sync
      token and, after the first, the previous page's next-page token; every
      page's events are stored and its sync token saved; the loop ends at the
      first page without a next-page token. `pages` holds the calendar's
      answers in order; it must contain such a last page. Reading the token
      parses the sync-info file anew, which parts the queue from it. */
  method SyncDown(cursor: SyncCursor, a: Archive<Timer>, q: ChangeQueue, pages: seq<Page>) returns (requests: seq<Request>)
    requires a.Valid()
    requires StopPage(pages) < |pages|
    modifies cursor, a, q
    ensures a.Valid()
    ensures q.entries == old(q.entries) && q.persisted == old(q.persisted) && q.held == old(q.held)
    ensures q.Linked() == {}
    ensures requests == RequestsFor(old(cursor.syncToken), pages, StopPage(pages) + 1)
    ensures a.root == StorePages(old(a.root), pages[..StopPage(pages) + 1])
    ensures cursor.syncToken == LatestToken(old(cursor.syncToken), pages[..StopPage(pages) + 1])
  {
    ghost var last := StopPage(pages);
    ghost var root := a.root;
    q.Reread();
    var syncToken := cursor.syncToken;
    var nextPageToken := "";
    requests := [];
    var i := 0;
    var more := true;
    while more
      invariant 0 <= i <= last + 1
      invariant more <==> i <= last
      invariant more ==> nextPageToken == PageTokenBefore(pages, i)
      invariant a.Valid()
      invariant requests == RequestsFor(syncToken, pages, i)
      invariant a.root == StorePages(root, pages[..i])
      invariant cursor.syncToken == LatestToken(syncToken, pages[..i])
      invariant !q.shared && q.entries == old(q.entries) && q.persisted == old(q.persisted) && q.held == old(q.held)
      decreases last + 1 - i
    {
      requests := requests + [Request(syncToken, nextPageToken)];
      var res := pages[i];
      PagesStep(root, syncToken, pages, i);
      RequestsStep(syncToken, pages, i);
      ReadPage(cursor, a, res);
      nextPageToken := res.nextPageToken;
      more := nextPageToken != "";
      i := i + 1;
    }
  }

  /** The first n calls: each with the stored sync token, the first without a
      page token, every later one with the page token of the page before. */
  function RequestsFor(token: string, pages: seq<Page>, n: nat): (r: seq<Request>)
    requires n <= |pages|
  {
    seq(n, j requires 0 <= j < n => Request(token, PageTokenBefore(pages, j)))
  }

  /** The page token sent with call j: none for the first. */
  function PageTokenBefore(pages: seq<Page>, j: nat): string
    requires j <= |pages|
  {
    if j == 0 then "" else pages[j - 1].nextPageToken
  }

  lemma RequestsStep(token: string, pages: seq<Page>, i: nat)
    requires i < |pages|
    ensures RequestsFor(token, pages, i + 1) == RequestsFor(token, pages, i) + [Request(token, PageTokenBefore(pages, i))]
  {
  }

  /** The calls of a whole sync down: one per page up to the first without a
      next-page token, all with the stored sync token, and every page token
      sent is one the calendar returned, never an empty one. */
  lemma RequestsShape(token: string, pages: seq<Page>)
    requires StopPage(pages) < |pages|
    ensures var requests := RequestsFor(token, pages, StopPage(pages) + 1);
      && |requests| == StopPage(pages) + 1
      && (forall r :: r in requests ==> r.syncToken == token)
      && requests[0].pageToken == ""
      && forall j :: 0 < j < |requests| ==> requests[j].pageToken == pages[j - 1].nextPageToken != ""
  {
    var requests := RequestsFor(token, pages, StopPage(pages) + 1);
    assert requests[0] == Request(token, PageTokenBefore(pages, 0));
    forall j | 0 < j < |requests|
      ensures requests[j].pageToken == pages[j - 1].nextPageToken != ""
    {
      assert requests[j] == Request(token, PageTokenBefore(pages, j));
    }
  }

  /** Reading one more page stores its events and takes its sync token. */
  lemma PagesStep(s: Save<Timer>, token: string, pages: seq<Page>, i: nat)
    requires i < |pages|
    ensures StorePages(s, pages[..i + 1]) == StoreEvents(StorePages(s, pages[..i]), pages[i].items)
    ensures LatestToken(token, pages[..i + 1])
         == if pages[i].nextSyncToken != "" then pages[i].nextSyncToken else LatestToken(token, pages[..i])
  {
    assert pages[..i + 1][..i] == pages[..i];
  }

  // ---------------------------------------------------------------------------
  // Sync-down properties

  /** Storing one event leaves the save valid and keeps every id unique: a
      cancelled event's id is gone afterwards, any other event's id occurs
      exactly once and its timer ends the start day's array; no other id's
      count changes. */
  lemma StoreEventEffect(s: Save<Timer>, e: Event)
    requires ValidSave(s) && UniqueIds(s)
    ensures ValidSave(StoreEvent(s, e))
    ensures UniqueIds(StoreEvent(s, e))
    ensures e.cancelled ==> e.id !in SaveIds(StoreEvent(s, e))
    ensures !e.cancelled ==> multiset(SaveIds(StoreEvent(s, e)))[e.id] == 1
    ensures !e.cancelled ==>
      BucketAt(StoreEvent(s, e), EventDay(e)) == Some(BucketAt(DeletedFromSave(s, e.id), EventDay(e)).GetOr([]) + [EventTimer(e)])
    ensures forall id :: id != e.id ==> multiset(SaveIds(StoreEvent(s, e)))[id] == multiset(SaveIds(s))[id]
  {
    DroppedEffect(s, e.id);
    if !e.cancelled {
      AppendedEffect(DeletedFromSave(s, e.id), EventTimer(e), EventDay(e));
    }
  }

  /** The first half of storing an event: its id is gone afterwards and no
      other id's count changes. */
  lemma DroppedEffect(s: Save<Timer>, id: string)
    requires ValidSave(s) && UniqueIds(s)
    ensures ValidSave(DeletedFromSave(s, id)) && UniqueIds(DeletedFromSave(s, id))
    ensures id !in SaveIds(DeletedFromSave(s, id))
    ensures forall other :: other != id ==> multiset(SaveIds(DeletedFromSave(s, id)))[other] == multiset(SaveIds(s))[other]
  {
    DeletedFromSaveEffect(s, id);
    DeletedIsGone(s, id);
    var s1 := DeletedFromSave(s, id);
    if id in SaveIds(s) {
      assert forall other :: other != id ==> multiset(SaveIds(s1))[other] == multiset(SaveIds(s))[other];
    }
  }

  /** The second half: appending a timer whose id the save lacks gives that id
      one occurrence, at the end of its day, and changes no other count. */
  lemma AppendedEffect(s: Save<Timer>, t: Timer, p: Path)
    requires ValidSave(s) && UniqueIds(s) && t.id !in SaveIds(s)
    ensures var s2 := WithBucket(s, p, BucketAt(s, p).GetOr([]) + [t]);
      && ValidSave(s2) && UniqueIds(s2)
      && multiset(SaveIds(s2))[t.id] == 1
      && BucketAt(s2, p) == Some(BucketAt(s, p).GetOr([]) + [t])
      && forall id :: id != t.id ==> multiset(SaveIds(s2))[id] == multiset(SaveIds(s))[id]
  {
    var b := BucketAt(s, p).GetOr([]) + [t];
    WithBucketValid(s, p, b);
    BucketAtWith(s, p, b, p);
    AppendedCounts(s, t, p);
  }

  /** The counts of ids after that append: one more for the timer's id; with
      the id absent before, every id still occurs at most once. */
  lemma AppendedCounts(s: Save<Timer>, t: Timer, p: Path)
    requires UniqueIds(s) && t.id !in SaveIds(s)
    ensures var after := multiset(SaveIds(WithBucket(s, p, BucketAt(s, p).GetOr([]) + [t])));
      && after[t.id] == 1
      && (forall id :: id != t.id ==> after[id] == multiset(SaveIds(s))[id])
      && forall id :: after[id] <= 1
  {
    AppendedIds(s, p, t);
    AddedOnce(multiset(SaveIds(s)), multiset(SaveIds(WithBucket(s, p, BucketAt(s, p).GetOr([]) + [t]))), t.id);
  }

  /** Adding one occurrence of an absent id to counts of at most one. */
  lemma AddedOnce(before: multiset<string>, after: multiset<string>, x: string)
    requires after == before + multiset{x} && before[x] == 0
    requires forall id :: before[id] <= 1
    ensures after[x] == 1
    ensures forall id :: id != x ==> after[id] == before[id]
    ensures forall id :: after[id] <= 1
  {
  }

  lemma {:induction false} StoreEventsUnique(s: Save<Timer>, events: seq<Event>)
    requires ValidSave(s) && UniqueIds(s)
    ensures ValidSave(StoreEvents(s, events)) && UniqueIds(StoreEvents(s, events))
  {
    if events != [] {
      StoreEventsUnique(s, events[..|events| - 1]);
      StoreEventEffect(StoreEvents(s, events[..|events| - 1]), events[|events| - 1]);
    }
  }

  /** A whole sync down keeps the save valid and never duplicates a timer. */
  lemma {:induction false} StorePagesUnique(s: Save<Timer>, read: seq<Page>)
    requires ValidSave(s) && UniqueIds(s)
    ensures ValidSave(StorePages(s, read)) && UniqueIds(StorePages(s, read))
  {
    if read != [] {
      StorePagesUnique(s, read[..|read| - 1]);
      StoreEventsUnique(StorePages(s, read[..|read| - 1]), read[|read| - 1].items);
    }
  }

  /** The stored token is the old one or one a page supplied, and never "" once it was set. */
  lemma {:induction false} LatestTokenSource(token: string, read: seq<Page>)
    ensures LatestToken(token, read) == token
      || exists j :: 0 <= j < |read| && read[j].nextSyncToken == LatestToken(token, read) != ""
    ensures token != "" ==> LatestToken(token, read) != ""
    ensures |read| > 0 && read[|read| - 1].nextSyncToken != "" ==>
      LatestToken(token, read) == read[|read| - 1].nextSyncToken
  {
    if read != [] && read[|read| - 1].nextSyncToken == "" {
      LatestTokenSource(token, read[..|read| - 1]);
      if LatestToken(token, read) != token {
        var j :| 0 <= j < |read| - 1 && read[..|read| - 1][j].nextSyncToken == LatestToken(token, read) != "";
        assert read[j].nextSyncToken == LatestToken(token, read);
      }
    }
  }

  /** The day keys of 6 December 2022 (`getMonth()` gives 11 for December). */
  lemma SixthOfDecember(e: Event)
    requires e.startParts.fullYear == 2022 && e.startParts.month == 11 && e.startParts.date == 6
    ensures EventDay(e) == Path("y2022", "m12", "d6")
  {
    assert NatString(2022) == "2022" by {
      assert NatString(2) == "2";
      assert NatString(20) == "20";
      assert NatString(202) == "202";
    }
    assert NatString(12) == "12";
    assert NatString(6) == "6";
  }

  /** One event synced down into an empty save lands in its start day, which
      is created on the way. */
  lemma EventIntoEmptySave(e: Event)
    requires !e.cancelled && e.startParts.fullYear == 2022 && e.startParts.month == 11 && e.startParts.date == 6
    ensures StoreEvent([], e) == [Slot("y2022", [Slot("m12", [Slot("d6", [EventTimer(e)])])])]
  {
    SixthOfDecember(e);
    var empty: Save<Timer> := [];
    assert DeletedFromSave(empty, e.id) == empty;
    SingleDay(EventDay(e), [], [EventTimer(e)]);
    assert BucketAt(empty, EventDay(e)) == None;
    assert [] + [EventTimer(e)] == [EventTimer(e)];
    assert StoreEvent(empty, e) == WithBucket(empty, EventDay(e), [EventTimer(e)]);
  }

  /** An event changed upstream replaces the stored timer with the same id,
      here in a save that holds only the event's start day. */
  lemma UpstreamChangeReplaces(e: Event, stored: Timer)
    requires !e.cancelled && stored.id == e.id
    ensures var p := EventDay(e);
      StoreEvent([Slot(p.y, [Slot(p.m, [Slot(p.d, [stored])])])], e) == [Slot(p.y, [Slot(p.m, [Slot(p.d, [EventTimer(e)])])])]
  {
    var p := EventDay(e);
    var s1: Save<Timer> := [Slot(p.y, [Slot(p.m, [Slot(p.d, [])])])];
    assert IndexOfKey([stored], TimerId, e.id) == 0;
    DeleteFromSingleDay(p, [stored], e.id);
    assert DeleteFirst([stored], TimerId, e.id) == [];
    SingleDay(p, [], [EventTimer(e)]);
    assert BucketAt(s1, p) == Some([]);
    assert [] + [EventTimer(e)] == [EventTimer(e)];
  }

  // ===========================================================================
  // Sync up

  /** The answer to the last call made for one queue entry: success (with the
      new event's id, for an insert) or an error with its HTTP code. */
  datatype Outcome = Ok(eventId: string) | Err(code: int)

  /** What the calendar answered for one queue entry. For an update,
      `fetched` is the event `events.get` returned, None when the get failed;
      `outcome` answers the insert, the delete or the update. */
  datatype Reply = Reply(fetched: Option<EventBody>, outcome: Outcome)

  /** How one entry's promise settles: fulfilled with its queue index, or rejected. */
  datatype Settled = Fulfilled(index: nat) | Rejected

  /** The fields of a calendar event that the server writes; an event's other
      fields are sent back as fetched and are not modelled. */
  datatype EventBody = EventBody(summary: string, description: string, start: int, end: End)

  /** A call made to the calendar. */
  datatype Call =
    | InsertCall(body: EventBody)
    | GetCall(eventId: string)
    | UpdateCall(eventId: string, body: EventBody)
    | DeleteCall(eventId: string)

  /** The calendar's answer to deleting an event that is already gone. */
  const GONE: int := 410

  /** The event `insertEvent` creates for a timer. */
  function InsertBody(t: Timer): EventBody {
    EventBody(t.title, t.description, t.start, t.end)
  }

  /** The event `updateEvent` writes back: the fetched event with the timer's
      title and description where those are non-empty, and the timer's times. */
  function MergeEvent(existing: EventBody, t: Timer): EventBody {
    EventBody(if t.title != "" then t.title else existing.summary,
              if t.description != "" then t.description else existing.description,
              t.start, t.end)
  }

  /** Sending the same update twice leaves the event as one update did; an
      update from a timer with a title and a description writes exactly what an
      insert of it would, whatever was fetched. */
  lemma MergeEventProperties(existing: EventBody, t: Timer)
    ensures MergeEvent(MergeEvent(existing, t), t) == MergeEvent(existing, t)
    ensures t.title != "" && t.description != "" ==> MergeEvent(existing, t) == InsertBody(t)
    ensures MergeEvent(InsertBody(t), t) == InsertBody(t)
  {
  }

  /** `maybeSkipRunningTimer`: a timer whose end is null or absent is not sent
      (sync.js only). */
  predicate Skipped(t: Timer, skipRunning: bool) {
    skipRunning && IsRunning(t)
  }

  /** The calls made for one entry. An entry with a falsy value makes none:
      reading its fields throws inside the promise's executor. An update first
      gets the event and writes the merged event back only when the get
      succeeded. */
  function CallFor(e: Entry, reply: Reply, skipRunning: bool): seq<Call> {
    match e.timer
    case None => []
    case Some(t) =>
      match e.change
      case Delete => [DeleteCall(t.id)]
      case New => if Skipped(t, skipRunning) then [] else [InsertCall(InsertBody(t))]
      case Update =>
        if Skipped(t, skipRunning) then []
        else if reply.fetched.None? then [GetCall(t.id)]
        else [GetCall(t.id), UpdateCall(t.id, MergeEvent(reply.fetched.value, t))]
  }

  /** How the promise for the entry at `index` settles. A delete succeeds when
      the call succeeds or the event is already gone (410); an insert when it
      succeeds; an update when the get and the update both succeed; and
      neither of the last two when the timer was skipped. */
  function SettledFor(e: Entry, reply: Reply, index: nat, skipRunning: bool): Settled {
    match e.timer
    case None => Rejected
    case Some(t) =>
      match e.change
      case Delete => if reply.outcome.Ok? || reply.outcome.code == GONE then Fulfilled(index) else Rejected
      case New => if !Skipped(t, skipRunning) && reply.outcome.Ok? then Fulfilled(index) else Rejected
      case Update =>
        if !Skipped(t, skipRunning) && reply.fetched.Some? && reply.outcome.Ok? then Fulfilled(index) else Rejected
  }

  /** The entry is a `new` that the calendar accepted, so its timer takes the
      new event's id. */
  predicate InsertAccepted(e: Entry, reply: Reply, skipRunning: bool) {
    e.change == New && e.timer.Some? && !Skipped(e.timer.value, skipRunning) && reply.outcome.Ok?
  }

  /** The results of `Promise.allSettled`, in queue order. */
  function Settle(q: seq<Entry>, replies: seq<Reply>, skipRunning: bool): (r: seq<Settled>)
    requires |replies| == |q|
    ensures |r| == |q|
  {
    if q == [] then []
    else
      var last := SettledFor(q[|q| - 1], replies[|q| - 1], |q| - 1, skipRunning);
      Settle(q[..|q| - 1], replies[..|q| - 1], skipRunning) + [last]
  }

  /** Every call made by one sync up, in queue order. */
  function CallsFor(q: seq<Entry>, replies: seq<Reply>, skipRunning: bool): seq<Call>
    requires |replies| == |q|
  {
    if q == [] then []
    else CallsFor(q[..|q| - 1], replies[..|q| - 1], skipRunning) + CallFor(q[|q| - 1], replies[|q| - 1], skipRunning)
  }

  /** The save after the accepted inserts have renamed their timers
      (`timer.id = v`). The assignment reaches the save only when the entry
      holds the archive's own timer object, that is for the ids in `linked`;
      on a parsed copy it changes nothing that outlives the entry. */
  function AfterInserts(s: Save<Timer>, q: seq<Entry>, replies: seq<Reply>, skipRunning: bool, linked: set<string>)
    : Save<Timer>
    requires |replies| == |q|
  {
    if q == [] then s
    else
      var prev := AfterInserts(s, q[..|q| - 1], replies[..|q| - 1], skipRunning, linked);
      var e := q[|q| - 1];
      var reply := replies[|q| - 1];
      if InsertAccepted(e, reply, skipRunning) && e.timer.value.id in linked
      then RenamedInSave(prev, e.timer.value.id, reply.outcome.eventId)
      else prev
  }

  /** `results.flatMap(...)`: the values of the fulfilled results, in order. */
  function FulfilledIndices(rs: seq<Settled>): seq<nat> {
    if rs == [] then []
    else FulfilledIndices(rs[..|rs| - 1]) + (if rs[|rs| - 1].Fulfilled? then [rs[|rs| - 1].index] else [])
  }

  /** The entries whose promise was rejected, in queue order. */
  function Survivors(q: seq<Entry>, rs: seq<Settled>): seq<Entry>
    requires |rs| == |q|
  {
    if q == [] then []
    else
      var kept := if rs[|q| - 1].Rejected? then [q[|q| - 1]] else [];
      Survivors(q[..|q| - 1], rs[..|q| - 1]) + kept
  }

  /** `removeFromQueue` applied to each index in turn. */
  function RemoveAll(q: seq<Entry>, indices: seq<nat>): seq<Entry> {
    if indices == [] then q else RemoveAll(SpliceOut(q, indices[0]), indices[1..])
  }

  /** x placed before the first element not greater than it. */
  function InsertDescending(x: nat, s: seq<nat>): seq<nat> {
    if s == [] || x >= s[0] then [x] + s else [s[0]] + InsertDescending(x, s[1..])
  }

  /** `indices.sort((a, b) => b - a)`: largest first. */
  function SortDescending(s: seq<nat>): seq<nat> {
    if s == [] then [] else InsertDescending(s[0], SortDescending(s[1..]))
  }

  function Reversed(s: seq<nat>): seq<nat> {
    if s == [] then [] else [s[|s| - 1]] + Reversed(s[..|s| - 1])
  }

  predicate Increasing(s: seq<nat>) {
    forall i, j :: 0 <= i < j < |s| ==> s[i] < s[j]
  }

  predicate Decreasing(s: seq<nat>) {
    forall i, j :: 0 <= i < j < |s| ==> s[i] > s[j]
  }

  /** Every index is below n. */
  predicate AllBelow(s: seq<nat>, n: int) {
    forall j :: 0 <= j < |s| ==> s[j] < n
  }

  /** Fulfilled results carry their own queue index. */
  predicate WellIndexed(rs: seq<Settled>) {
    forall i :: 0 <= i < |rs| && rs[i].Fulfilled? ==> rs[i].index == i
  }

  /** The callback of the queue's `map` for the entry at `index`: make its
      calls and settle its promise. An accepted insert renames the stored
      timer when the entry holds it (its id is in `linked`). */
  method DispatchEntry(a: Archive<Timer>, entry: Entry, reply: Reply, index: nat, skipRunning: bool,
                       linked: set<string>)
    returns (settled: Settled, made: seq<Call>)
    requires a.Valid()
    modifies a
    ensures a.Valid()
    ensures settled == SettledFor(entry, reply, index, skipRunning)
    ensures made == CallFor(entry, reply, skipRunning)
    ensures a.root == if InsertAccepted(entry, reply, skipRunning) && entry.timer.value.id in linked
                      then RenamedInSave(old(a.root), entry.timer.value.id, reply.outcome.eventId)
                      else old(a.root)
  {
    settled := Rejected;
    made := [];
    match entry.timer {
      case None =>
      case Some(timer) =>
        if entry.change == Delete {
          made := [DeleteCall(timer.id)];
          if reply.outcome.Ok? || reply.outcome.code == GONE {
            settled := Fulfilled(index);
          }
        } else if entry.change == New {
          if !(skipRunning && IsRunning(timer)) {
            made := [InsertCall(InsertBody(timer))];
            if reply.outcome.Ok? {
              if timer.id in linked {
                var _ := TryUpdateTimerId(a, timer, reply.outcome.eventId);
              }
              settled := Fulfilled(index);
            }
          }
        } else {
          if !(skipRunning && IsRunning(timer)) {
            made := [GetCall(timer.id)];
            match reply.fetched {
              case None =>
              case Some(event) =>
                made := made + [UpdateCall(timer.id, MergeEvent(event, timer))];
                if reply.outcome.Ok? {
                  settled := Fulfilled(index);
                }
            }
          }
        }
    }
  }

  /** Dispatching one more entry extends each of the three records by that entry. */
  lemma DispatchStep(s: Save<Timer>, entries: seq<Entry>, replies: seq<Reply>, index: nat, skipRunning: bool,
                     linked: set<string>)
    requires index < |entries| == |replies|
    ensures Settle(entries[..index + 1], replies[..index + 1], skipRunning)
         == Settle(entries[..index], replies[..index], skipRunning) + [SettledFor(entries[index], replies[index], index, skipRunning)]
    ensures CallsFor(entries[..index + 1], replies[..index + 1], skipRunning)
         == CallsFor(entries[..index], replies[..index], skipRunning) + CallFor(entries[index], replies[index], skipRunning)
    ensures var prev := AfterInserts(s, entries[..index], replies[..index], skipRunning, linked);
      AfterInserts(s, entries[..index + 1], replies[..index + 1], skipRunning, linked)
      == if InsertAccepted(entries[index], replies[index], skipRunning) && entries[index].timer.value.id in linked
         then RenamedInSave(prev, entries[index].timer.value.id, replies[index].outcome.eventId)
         else prev
  {
    assert entries[..index + 1][..index] == entries[..index];
    assert replies[..index + 1][..index] == replies[..index];
  }

  /** The queue's `map` over its entries: start the calls for each entry and
      record how its promise settles; accepted inserts of the entries in
      `linked` rename the stored timer. */
  method Dispatch(a: Archive<Timer>, entries: seq<Entry>, replies: seq<Reply>, skipRunning: bool, linked: set<string>)
    returns (results: seq<Settled>, calls: seq<Call>)
    requires a.Valid() && |replies| == |entries|
    modifies a
    ensures a.Valid()
    ensures results == Settle(entries, replies, skipRunning)
    ensures calls == CallsFor(entries, replies, skipRunning)
    ensures a.root == AfterInserts(old(a.root), entries, replies, skipRunning, linked)
  {
    results := [];
    calls := [];
    var index := 0;
    while index < |entries|
      invariant 0 <= index <= |entries|
      invariant a.Valid()
      invariant results == Settle(entries[..index], replies[..index], skipRunning)
      invariant calls == CallsFor(entries[..index], replies[..index], skipRunning)
      invariant a.root == AfterInserts(old(a.root), entries[..index], replies[..index], skipRunning, linked)
    {
      var entry := entries[index];
      var reply := replies[index];
      DispatchStep(old(a.root), entries, replies, index, skipRunning, linked);
      var settled, made := DispatchEntry(a, entry, reply, index, skipRunning, linked);
      calls := calls + made;
      results := results + [settled];
      index := index + 1;
    }
    assert entries[..|entries|] == entries;
    assert replies[..|replies|] == replies;
  }

  /** `syncUp()`: dispatch every change `getQueue()` returns, wait for all of
      them to settle, then remove the entries whose change the calendar took
      from the module's queue, largest index first so that earlier removals
      do not shift the later indices. `replies` holds the calendar's answers
      for each entry. */
  method SyncUp(q: ChangeQueue, a: Archive<Timer>, replies: seq<Reply>) returns (calls: seq<Call>)
    requires a.Valid() && q.Valid() && |replies| == |q.entries|
    modifies q, a
    ensures a.Valid() && q.Valid()
    ensures calls == CallsFor(old(q.entries), replies, true)
    ensures a.root == AfterInserts(old(a.root), old(q.entries), replies, true, old(q.Linked()))
    ensures q.entries == Survivors(old(q.entries), Settle(old(q.entries), replies, true))
    ensures q.persisted == if FulfilledIndices(Settle(old(q.entries), replies, true)) == [] then old(q.persisted)
                           else Some(q.entries)
    ensures q.held == old(q.held)
    ensures q.shared == (old(q.shared) || FulfilledIndices(Settle(old(q.entries), replies, true)) != [])
    ensures AtMostOnePerId(old(q.entries)) ==> AtMostOnePerId(q.entries)
  {
    var queue := q.Read();
    var linked := q.Linked();
    var results;
    results, calls := Dispatch(a, queue, replies, true, linked);
    var indices := FulfilledIndices(results);
    SettleShape(queue, replies, true);
    FulfilledIncreasing(results);
    SortDescendingOfIncreasing(indices);
    RemoveDescending(queue, results);
    indices := SortDescending(indices);
    RemoveEach(q, indices);
    ReversedEmpty(FulfilledIndices(results));
    if AtMostOnePerId(queue) {
      SurvivorsKeepAtMostOne(queue, results);
    }
  }

  /** `for (const index of indices) removeFromQueue(index)`. */
  method RemoveEach(q: ChangeQueue, indices: seq<nat>)
    modifies q
    ensures q.entries == RemoveAll(old(q.entries), indices)
    ensures q.held == old(q.held)
    ensures indices == [] ==> q.persisted == old(q.persisted) && q.shared == old(q.shared)
    ensures indices != [] ==> q.persisted == Some(q.entries) && q.shared
  {
    var k := 0;
    while k < |indices|
      invariant 0 <= k <= |indices|
      invariant RemoveAll(q.entries, indices[k..]) == RemoveAll(old(q.entries), indices)
      invariant q.held == old(q.held)
      invariant k == 0 ==> q.persisted == old(q.persisted) && q.shared == old(q.shared) && q.entries == old(q.entries)
      invariant k > 0 ==> q.persisted == Some(q.entries) && q.shared
    {
      assert indices[k..][1..] == indices[k + 1..];
      q.RemoveFromQueue(indices[k]);
      k := k + 1;
    }
  }

  // ---------------------------------------------------------------------------
  // Removing the settled entries

  lemma {:induction false} SettleShape(q: seq<Entry>, replies: seq<Reply>, skipRunning: bool)
    requires |replies| == |q|
    ensures |Settle(q, replies, skipRunning)| == |q|
    ensures forall i :: 0 <= i < |q| ==> Settle(q, replies, skipRunning)[i] == SettledFor(q[i], replies[i], i, skipRunning)
    ensures WellIndexed(Settle(q, replies, skipRunning))
  {
    if q != [] {
      SettleShape(q[..|q| - 1], replies[..|q| - 1], skipRunning);
    }
  }

  lemma {:induction false} FulfilledIncreasing(rs: seq<Settled>)
    requires WellIndexed(rs)
    ensures Increasing(FulfilledIndices(rs))
    ensures forall j :: 0 <= j < |FulfilledIndices(rs)| ==> FulfilledIndices(rs)[j] < |rs|
    ensures |FulfilledIndices(rs)| <= |rs|
  {
    if rs != [] {
      FulfilledIncreasing(rs[..|rs| - 1]);
    }
  }

  lemma {:induction false} ReversedElems(s: seq<nat>)
    ensures |Reversed(s)| == |s|
    ensures forall j :: 0 <= j < |s| ==> Reversed(s)[j] == s[|s| - 1 - j]
  {
    if s != [] {
      ReversedElems(s[..|s| - 1]);
    }
  }

  lemma ReversedEmpty(s: seq<nat>)
    ensures Reversed(s) == [] <==> s == []
  {
    ReversedElems(s);
  }

  lemma InsertDescendingLast(x: nat, s: seq<nat>)
    requires forall j :: 0 <= j < |s| ==> s[j] > x
    ensures InsertDescending(x, s) == s + [x]
  {
  }

  /** Sorting strictly increasing indices largest-first is reversing them. */
  lemma SortDescendingOfIncreasing(s: seq<nat>)
    requires Increasing(s)
    ensures SortDescending(s) == Reversed(s)
    ensures Decreasing(SortDescending(s))
    ensures multiset(SortDescending(s)) == multiset(s)
  {
    SortDescendingIsReversed(s);
    ReversedElems(s);
    ReversedMultiset(s);
  }

  lemma {:induction false} SortDescendingIsReversed(s: seq<nat>)
    requires Increasing(s)
    ensures SortDescending(s) == Reversed(s)
  {
    if s != [] {
      SortDescendingIsReversed(s[1..]);
      ReversedElems(s);
      ReversedElems(s[1..]);
      InsertDescendingLast(s[0], Reversed(s[1..]));
      assert Reversed(s) == Reversed(s[1..]) + [s[0]];
    }
  }

  lemma {:induction false} ReversedMultiset(s: seq<nat>)
    ensures multiset(Reversed(s)) == multiset(s)
  {
    if s != [] {
      var n := |s| - 1;
      ReversedMultiset(s[..n]);
      assert s == s[..n] + [s[n]];
    }
  }

  /** Removing indices, largest first, below the end of `p` leaves an element
      appended after `p` in place. */
  lemma {:induction false} RemoveAllAppend(p: seq<Entry>, indices: seq<nat>, x: Entry)
    requires Decreasing(indices)
    requires AllBelow(indices, |p|)
    ensures RemoveAll(p + [x], indices) == RemoveAll(p, indices) + [x]
  {
    if indices != [] {
      var i := indices[0];
      assert SpliceOut(p + [x], i) == SpliceOut(p, i) + [x];
      RemoveAllAppend(SpliceOut(p, i), indices[1..], x);
    }
  }

  /** The heart of `settle`: removing the fulfilled indices largest first
      removes exactly the fulfilled entries and keeps the rejected ones in
      their order. */
  lemma {:induction false} RemoveDescending(q: seq<Entry>, rs: seq<Settled>)
    requires |rs| == |q| && WellIndexed(rs)
    ensures RemoveAll(q, Reversed(FulfilledIndices(rs))) == Survivors(q, rs)
  {
    if q != [] {
      var n := |q| - 1;
      RemoveDescending(q[..n], rs[..n]);
      if rs[n].Rejected? {
        RejectedLast(q, rs);
      } else {
        FulfilledLast(q, rs);
      }
    }
  }

  /** The fulfilled indices before the last entry, reversed: decreasing and
      below the last index. */
  lemma EarlierIndices(rs: seq<Settled>)
    requires |rs| > 0 && WellIndexed(rs)
    ensures Decreasing(Reversed(FulfilledIndices(rs[..|rs| - 1])))
    ensures AllBelow(Reversed(FulfilledIndices(rs[..|rs| - 1])), |rs| - 1)
  {
    var f := FulfilledIndices(rs[..|rs| - 1]);
    FulfilledIncreasing(rs[..|rs| - 1]);
    ReversedElems(f);
  }

  lemma RejectedLast(q: seq<Entry>, rs: seq<Settled>)
    requires |rs| == |q| > 0 && WellIndexed(rs) && rs[|q| - 1].Rejected?
    ensures RemoveAll(q, Reversed(FulfilledIndices(rs)))
         == RemoveAll(q[..|q| - 1], Reversed(FulfilledIndices(rs[..|q| - 1]))) + [q[|q| - 1]]
  {
    var n := |q| - 1;
    EarlierIndices(rs);
    assert FulfilledIndices(rs) == FulfilledIndices(rs[..n]);
    assert q == q[..n] + [q[n]];
    RemoveAllAppend(q[..n], Reversed(FulfilledIndices(rs[..n])), q[n]);
  }

  lemma FulfilledLast(q: seq<Entry>, rs: seq<Settled>)
    requires |rs| == |q| > 0 && WellIndexed(rs) && rs[|q| - 1].Fulfilled?
    ensures RemoveAll(q, Reversed(FulfilledIndices(rs))) == RemoveAll(q[..|q| - 1], Reversed(FulfilledIndices(rs[..|q| - 1])))
  {
    var n := |q| - 1;
    var f := FulfilledIndices(rs[..n]);
    assert FulfilledIndices(rs) == f + [n];
    assert (f + [n])[..|f|] == f;
    assert Reversed(f + [n]) == [n] + Reversed(f);
    assert ([n] + Reversed(f))[1..] == Reversed(f);
    assert SpliceOut(q, n) == q[..n];
  }

  lemma {:induction false} SurvivorsCount(q: seq<Entry>, rs: seq<Settled>)
    requires |rs| == |q|
    ensures |Survivors(q, rs)| + |FulfilledIndices(rs)| == |q|
    ensures (forall i :: 0 <= i < |rs| ==> rs[i].Rejected?) ==> Survivors(q, rs) == q
    ensures (forall i :: 0 <= i < |rs| ==> rs[i].Fulfilled?) ==> Survivors(q, rs) == []
  {
    SurvivorsLength(q, rs);
    if forall i :: 0 <= i < |rs| ==> rs[i].Rejected? {
      AllRejected(q, rs);
    }
    if forall i :: 0 <= i < |rs| ==> rs[i].Fulfilled? {
      AllFulfilled(q, rs);
    }
  }

  lemma {:induction false} SurvivorsLength(q: seq<Entry>, rs: seq<Settled>)
    requires |rs| == |q|
    ensures |Survivors(q, rs)| + |FulfilledIndices(rs)| == |q|
  {
    if q != [] {
      SurvivorsLength(q[..|q| - 1], rs[..|q| - 1]);
    }
  }

  lemma {:induction false} AllRejected(q: seq<Entry>, rs: seq<Settled>)
    requires |rs| == |q| && forall i :: 0 <= i < |rs| ==> rs[i].Rejected?
    ensures Survivors(q, rs) == q
  {
    if q != [] {
      var n := |q| - 1;
      assert forall i :: 0 <= i < n ==> rs[..n][i] == rs[i];
      AllRejected(q[..n], rs[..n]);
      assert q == q[..n] + [q[n]];
    }
  }

  lemma {:induction false} AllFulfilled(q: seq<Entry>, rs: seq<Settled>)
    requires |rs| == |q| && forall i :: 0 <= i < |rs| ==> rs[i].Fulfilled?
    ensures Survivors(q, rs) == []
  {
    if q != [] {
      var n := |q| - 1;
      assert forall i :: 0 <= i < n ==> rs[..n][i] == rs[i];
      AllFulfilled(q[..n], rs[..n]);
    }
  }

  // ---------------------------------------------------------------------------
  // Sync-up properties

  /** A call that sends a timer's times with an end. */
  predicate SendsEnd(c: Call) {
    match c
    case InsertCall(body) => body.end.At?
    case GetCall(_) => true
    case UpdateCall(_, body) => body.end.At?
    case DeleteCall(_) => true
  }

  /** With skipping on, no insert or update ever sends a running timer, and
      no entry makes more than two calls. */
  lemma {:induction false} RunningNeverSent(q: seq<Entry>, replies: seq<Reply>)
    requires |replies| == |q|
    ensures forall i :: 0 <= i < |CallsFor(q, replies, true)| ==> SendsEnd(CallsFor(q, replies, true)[i])
    ensures |CallsFor(q, replies, true)| <= 2 * |q|
  {
    if q != [] {
      RunningNeverSent(q[..|q| - 1], replies[..|q| - 1]);
    }
  }

  /** An entry for a running timer stays queued whatever the calendar says;
      a delete of an event that is already gone leaves the queue; an update
      whose get failed stays; any other entry leaves exactly when its last
      call succeeded. */
  lemma SettledCases(e: Entry, reply: Reply, index: nat)
    ensures e.change != Delete && e.timer.Some? && IsRunning(e.timer.value) ==> SettledFor(e, reply, index, true) == Rejected
    ensures e.change == Delete && e.timer.Some? && reply.outcome == Err(GONE) ==> SettledFor(e, reply, index, true) == Fulfilled(index)
    ensures e.change == Update && reply.fetched.None? ==> SettledFor(e, reply, index, true) == Rejected
    ensures reply.outcome.Err? && reply.outcome.code != GONE ==> SettledFor(e, reply, index, true) == Rejected
    ensures (e.timer.Some? && reply.outcome.Ok? && !(e.change != Delete && IsRunning(e.timer.value))
             && !(e.change == Update && reply.fetched.None?)) ==>
      SettledFor(e, reply, index, true) == Fulfilled(index)
  {
  }

  /** Sync up renames timers but never adds or drops one from the archive. */
  lemma {:induction false} AfterInsertsKeepsTimers(s: Save<Timer>, q: seq<Entry>, replies: seq<Reply>, skipRunning: bool,
                                                   linked: set<string>)
    requires ValidSave(s) && |replies| == |q|
    ensures ValidSave(AfterInserts(s, q, replies, skipRunning, linked))
    ensures |SaveIds(AfterInserts(s, q, replies, skipRunning, linked))| == |SaveIds(s)|
  {
    if q != [] {
      var prev := AfterInserts(s, q[..|q| - 1], replies[..|q| - 1], skipRunning, linked);
      AfterInsertsKeepsTimers(s, q[..|q| - 1], replies[..|q| - 1], skipRunning, linked);
      var e := q[|q| - 1];
      var reply := replies[|q| - 1];
      if InsertAccepted(e, reply, skipRunning) && e.timer.value.id in linked {
        RenamedInSaveEffect(prev, e.timer.value.id, reply.outcome.eventId);
        if e.timer.value.id in SaveIds(prev) {
          var r := RenamedInSave(prev, e.timer.value.id, reply.outcome.eventId);
          assert |multiset(SaveIds(r)) + multiset{e.timer.value.id}| == |multiset(SaveIds(prev)) + multiset{reply.outcome.eventId}|;
        }
      }
    }
  }

  /** With no entry holding the archive's objects, as after a restart or a
      sync down, sync up leaves the archive exactly as it was. */
  lemma {:induction false} DetachedRenamesNothing(s: Save<Timer>, q: seq<Entry>, replies: seq<Reply>, skipRunning: bool)
    requires |replies| == |q|
    ensures AfterInserts(s, q, replies, skipRunning, {}) == s
  {
    if q != [] {
      DetachedRenamesNothing(s, q[..|q| - 1], replies[..|q| - 1], skipRunning);
    }
  }

  /** Keeping the rejected entries never adds an entry for any id. */
  lemma {:induction false} SurvivorsCounts(q: seq<Entry>, rs: seq<Settled>, id: string)
    requires |rs| == |q|
    ensures CountFor(Survivors(q, rs), id) <= CountFor(q, id)
  {
    if q != [] {
      var n := |q| - 1;
      SurvivorsCounts(q[..n], rs[..n], id);
      var kept := if rs[n].Rejected? then [q[n]] else [];
      assert q == q[..n] + [q[n]];
      EntriesForAppend(q[..n], [q[n]], id);
      EntriesForAppend(Survivors(q[..n], rs[..n]), kept, id);
    }
  }

  /** Sync up keeps at most one entry per timer. */
  lemma SurvivorsKeepAtMostOne(q: seq<Entry>, rs: seq<Settled>)
    requires |rs| == |q| && AtMostOnePerId(q)
    ensures AtMostOnePerId(Survivors(q, rs))
  {
    forall id {
      SurvivorsCounts(q, rs, id);
    }
  }

  /** A running timer's `new` entry: no call, and it stays queued. */
  lemma SkipsRunningTimer(t: Timer, reply: Reply)
    requires IsRunning(t)
    ensures CallsFor([Entry(New, Some(t))], [reply], true) == []
    ensures Survivors([Entry(New, Some(t))], Settle([Entry(New, Some(t))], [reply], true)) == [Entry(New, Some(t))]
  {
    assert [Entry(New, Some(t))][..0] == [];
  }

  /** A queued delete: one delete call; removed when it succeeds. */
  lemma SyncsDeletedTimer(t: Timer)
    ensures CallsFor([Entry(Delete, Some(t))], [Reply(None, Ok(""))], true) == [DeleteCall(t.id)]
    ensures Survivors([Entry(Delete, Some(t))], Settle([Entry(Delete, Some(t))], [Reply(None, Ok(""))], true)) == []
  {
    assert [Entry(Delete, Some(t))][..0] == [];
  }

  /** A finished timer's `new` entry: one insert call; removed when the
      calendar accepts it, kept when the calendar fails. */
  lemma SyncsNewTimer(t: Timer, id: string, code: int)
    requires !IsRunning(t)
    ensures CallsFor([Entry(New, Some(t))], [Reply(None, Ok(id))], true) == [InsertCall(InsertBody(t))]
    ensures Survivors([Entry(New, Some(t))], Settle([Entry(New, Some(t))], [Reply(None, Ok(id))], true)) == []
    ensures Survivors([Entry(New, Some(t))], Settle([Entry(New, Some(t))], [Reply(None, Err(code))], true))
         == [Entry(New, Some(t))]
  {
    assert [Entry(New, Some(t))][..0] == [];
  }

  /** A finished timer's `update` entry: a get of its event, then the fetched
      event merged with the timer is written back and the entry leaves the
      queue; when the get fails, nothing is written and the entry stays. */
  lemma SyncsUpdatedTimer(t: Timer, fetched: EventBody, code: int)
    requires !IsRunning(t)
    ensures CallsFor([Entry(Update, Some(t))], [Reply(Some(fetched), Ok(""))], true)
         == [GetCall(t.id), UpdateCall(t.id, MergeEvent(fetched, t))]
    ensures Survivors([Entry(Update, Some(t))], Settle([Entry(Update, Some(t))], [Reply(Some(fetched), Ok(""))], true)) == []
    ensures CallsFor([Entry(Update, Some(t))], [Reply(None, Err(code))], true) == [GetCall(t.id)]
    ensures Survivors([Entry(Update, Some(t))], Settle([Entry(Update, Some(t))], [Reply(None, Err(code))], true))
         == [Entry(Update, Some(t))]
  {
    assert [Entry(Update, Some(t))][..0] == [];
  }

  // ---------------------------------------------------------------------------
  // The lost rename

  /** As written: after a restart (or a sync down) the queued `new` holds a
      parsed copy of the timer, so the accepted insert renames nothing, and
      the next sync down files the new event beside the local timer, which is
      then stored twice under two ids. */
  lemma RestartedInsertDuplicates(s: Save<Timer>, t: Timer, e: Event)
    requires ValidSave(s) && UniqueIds(s) && t.id in SaveIds(s) && !IsRunning(t)
    requires !e.cancelled && e.id != t.id
    ensures AfterInserts(s, [Entry(New, Some(t))], [Reply(None, Ok(e.id))], true, {}) == s
    ensures t.id in SaveIds(StoreEvent(s, e)) && e.id in SaveIds(StoreEvent(s, e))
  {
    DetachedRenamesNothing(s, [Entry(New, Some(t))], [Reply(None, Ok(e.id))], true);
    StoreEventEffect(s, e);
    assert multiset(SaveIds(StoreEvent(s, e)))[t.id] == multiset(SaveIds(s))[t.id];
  }

  /** As intended: when the accepted insert renames the stored timer, as it
      does while the entry holds the archive's own object, the next sync down
      replaces that timer: the event's id occurs once and the local id is gone. */
  lemma LinkedInsertReplaces(s: Save<Timer>, t: Timer, e: Event)
    requires ValidSave(s) && UniqueIds(s) && t.id in SaveIds(s) && !IsRunning(t)
    requires !e.cancelled && e.id != t.id && e.id !in SaveIds(s)
    ensures var after := StoreEvent(AfterInserts(s, [Entry(New, Some(t))], [Reply(None, Ok(e.id))], true, {t.id}), e);
      multiset(SaveIds(after))[e.id] == 1 && t.id !in SaveIds(after)
  {
    var r := RenamedInSave(s, t.id, e.id);
    assert [Entry(New, Some(t))][..0] == [];
    assert AfterInserts(s, [Entry(New, Some(t))], [Reply(None, Ok(e.id))], true, {t.id}) == r;
    RenamedInSaveEffect(s, t.id, e.id);
    RenamedCounts(multiset(SaveIds(s)), multiset(SaveIds(r)), t.id, e.id);
    StoreEventEffect(r, e);
  }

  /** Exchanging one occurrence of a present id for an absent one keeps every
      count at most one and takes the old id's count to zero. */
  lemma RenamedCounts(before: multiset<string>, after: multiset<string>, x: string, y: string)
    requires after + multiset{x} == before + multiset{y}
    requires x != y && before[x] == 1 && before[y] == 0 && forall id :: before[id] <= 1
    ensures after[x] == 0 && after[y] == 1
    ensures forall id :: after[id] <= 1
  {
    assert (after + multiset{x})[x] == after[x] + 1 == (before + multiset{y})[x];
    assert (after + multiset{x})[y] == after[y] == (before + multiset{y})[y];
    assert forall id :: id != x && id != y ==> (after + multiset{x})[id] == after[id];
  }
}
