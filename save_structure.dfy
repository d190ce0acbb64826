/** The archive of server/save-structure.js: timers (or todos) filed by day
    under `save.y<year>.m<month>.d<day>`, each day an array, and the searches
    and in-place edits the handlers and the sync make on it. */
module SaveStructure {
  import opened Model
  import opened Objects
  import opened Utils

  type Month<T> = seq<Slot<seq<T>>>
  type Year<T> = seq<Slot<Month<T>>>
  type Save<T> = seq<Slot<Year<T>>>

  /** The three keys `[y, m, d]` of one day. */
  datatype Path = Path(y: string, m: string, d: string)

  function KeysFor(year: int, month: int, day: int): Path {
    Path("y" + DecimalString(year), "m" + DecimalString(month), "d" + DecimalString(day))
  }

  /** Every level is a JavaScript object, so no level repeats a key. */
  predicate ValidSave<T>(s: Save<T>) {
    && UniqueKeys(s)
    && (forall i :: 0 <= i < |s| ==> UniqueKeys(s[i].val))
    && (forall i, j :: 0 <= i < |s| && 0 <= j < |s[i].val| ==> UniqueKeys(s[i].val[j].val))
  }

  /** `save[y][m][d]`, or None when any level is missing. */
  function BucketAt<T>(s: Save<T>, p: Path): Option<seq<T>> {
    match Get(s, p.y)
    case None => None
    case Some(year) =>
      match Get(year, p.m)
      case None => None
      case Some(month) => Get(month, p.d)
  }

  /** The save with `save[y][m][d] = b`, creating the missing levels. */
  function WithBucket<T>(s: Save<T>, p: Path, b: seq<T>): Save<T> {
    var year := Get(s, p.y).GetOr([]);
    var month := Get(year, p.m).GetOr([]);
    Put(s, p.y, Put(year, p.m, Put(month, p.d, b)))
  }

  /** The save once the day exists: its bucket is the old one, or a new empty one. */
  function Ensured<T>(s: Save<T>, p: Path): Save<T> {
    WithBucket(s, p, BucketAt(s, p).GetOr([]))
  }

  // ---------------------------------------------------------------------------
  // Lemmas about the structure

  /** Day keys are distinct for distinct non-negative dates. */
  lemma KeysForInjective(y1: nat, m1: nat, d1: nat, y2: nat, m2: nat, d2: nat)
    requires KeysFor(y1, m1, d1) == KeysFor(y2, m2, d2)
    ensures y1 == y2 && m1 == m2 && d1 == d2
  {
    var p := KeysFor(y1, m1, d1);
    assert p.y[1..] == NatString(y1) == NatString(y2);
    assert p.m[1..] == NatString(m1) == NatString(m2);
    assert p.d[1..] == NatString(d1) == NatString(d2);
    ParseNatString(y1); ParseNatString(y2);
    ParseNatString(m1); ParseNatString(m2);
    ParseNatString(d1); ParseNatString(d2);
  }

  /** Writing a bucket is seen at its own path and nowhere else. */
  lemma BucketAtWith<T>(s: Save<T>, p: Path, b: seq<T>, q: Path)
    ensures BucketAt(WithBucket(s, p, b), q) == if q == p then Some(b) else BucketAt(s, q)
  {
    var year := Get(s, p.y).GetOr([]);
    var month := Get(year, p.m).GetOr([]);
    var month' := Put(month, p.d, b);
    var year' := Put(year, p.m, month');
    PutGet(s, p.y, year', q.y);
    if q.y == p.y {
      PutGet(year, p.m, month', q.m);
      if q.m == p.m {
        PutGet(month, p.d, b, q.d);
        if Get(s, p.y).Some? && Get(year, p.m).None? {
          assert BucketAt(s, q) == None;
        }
      }
    }
  }

  /** Rewriting a bucket with what it already holds changes nothing. */
  lemma WithBucketSame<T>(s: Save<T>, p: Path)
    requires BucketAt(s, p).Some?
    ensures WithBucket(s, p, BucketAt(s, p).value) == s
  {
    var year := Get(s, p.y).value;
    var month := Get(year, p.m).value;
    PutSame(month, p.d);
    PutSame(year, p.m);
    PutSame(s, p.y);
  }

  /** Writing a bucket twice keeps only the second write. */
  lemma WithBucketTwice<T>(s: Save<T>, p: Path, b: seq<T>, c: seq<T>)
    ensures WithBucket(WithBucket(s, p, b), p, c) == WithBucket(s, p, c)
  {
    var year := Get(s, p.y).GetOr([]);
    var month := Get(year, p.m).GetOr([]);
    var year' := Put(year, p.m, Put(month, p.d, b));
    PutGet(s, p.y, year', p.y);
    PutGet(year, p.m, Put(month, p.d, b), p.m);
    PutPut(month, p.d, b, c);
    PutPut(year, p.m, Put(month, p.d, b), Put(month, p.d, c));
    PutPut(s, p.y, year', Put(year, p.m, Put(month, p.d, c)));
  }

  /** The values stored at each level of a valid save have unique keys. */
  lemma LevelsUnique<T>(s: Save<T>, p: Path)
    requires ValidSave(s)
    ensures UniqueKeys(Get(s, p.y).GetOr([]))
    ensures UniqueKeys(Get(Get(s, p.y).GetOr([]), p.m).GetOr([]))
  {
    if Get(s, p.y).Some? {
      var i := KeyIndex(s, p.y);
      var year := s[i].val;
      if Get(year, p.m).Some? {
        var j := KeyIndex(year, p.m);
        assert Get(year, p.m).value == s[i].val[j].val;
      }
    }
  }

  /** Writing a bucket keeps every level free of repeated keys. */
  lemma WithBucketValid<T>(s: Save<T>, p: Path, b: seq<T>)
    requires ValidSave(s)
    ensures ValidSave(WithBucket(s, p, b))
  {
    var year := Get(s, p.y).GetOr([]);
    var month := Get(year, p.m).GetOr([]);
    var month' := Put(month, p.d, b);
    var year' := Put(year, p.m, month');
    var s' := Put(s, p.y, year');
    LevelsUnique(s, p);
    PutKeepsUnique(month, p.d, b);
    PutKeepsUnique(year, p.m, month');
    PutKeepsUnique(s, p.y, year');
    assert forall j :: 0 <= j < |year| ==> UniqueKeys(year[j].val) by {
      if Get(s, p.y).Some? {
        var i := KeyIndex(s, p.y);
        assert year == s[i].val;
      }
    }
    forall j | 0 <= j < |year'|
      ensures UniqueKeys(year'[j].val)
    {
      PutSlots(year, p.m, month', j);
    }
    forall i | 0 <= i < |s'|
      ensures UniqueKeys(s'[i].val)
      ensures forall j :: 0 <= j < |s'[i].val| ==> UniqueKeys(s'[i].val[j].val)
    {
      PutSlots(s, p.y, year', i);
    }
  }

  /** Making sure a day exists: its bucket is there afterwards, holding what it
      held before (or nothing, if it is new); no other day changes; an existing
      day leaves the save exactly as it was. */
  lemma EnsuredEffect<T>(s: Save<T>, p: Path)
    requires ValidSave(s)
    ensures ValidSave(Ensured(s, p))
    ensures BucketAt(Ensured(s, p), p) == Some(BucketAt(s, p).GetOr([]))
    ensures forall q :: q != p ==> BucketAt(Ensured(s, p), q) == BucketAt(s, q)
    ensures BucketAt(s, p).Some? ==> Ensured(s, p) == s
    ensures Ensured(Ensured(s, p), p) == Ensured(s, p)
  {
    var b := BucketAt(s, p).GetOr([]);
    WithBucketValid(s, p, b);
    BucketAtWith(s, p, b, p);
    forall q | q != p
      ensures BucketAt(Ensured(s, p), q) == BucketAt(s, q)
    {
      BucketAtWith(s, p, b, q);
    }
    if BucketAt(s, p).Some? {
      WithBucketSame(s, p);
    }
    WithBucketSame(Ensured(s, p), p);
  }

  // ---------------------------------------------------------------------------
  // Timer ids stored in the save

  /** The ids of a day's timers, in order. */
  function Ids(b: seq<Timer>): seq<string> {
    seq(|b|, i requires 0 <= i < |b| => b[i].id)
  }

  function MonthIds(m: Month<Timer>): seq<string> { Flat(m, Ids) }
  function YearIds(y: Year<Timer>): seq<string> { Flat(y, MonthIds) }

  /** Every id in the save, day by day in key order. */
  function SaveIds(s: Save<Timer>): seq<string> { Flat(s, YearIds) }

  /** No timer id occurs twice anywhere in the save. */
  ghost predicate UniqueIds(s: Save<Timer>) {
    forall id :: multiset(SaveIds(s))[id] <= 1
  }

  lemma IdsOf(b: seq<Timer>, id: string)
    ensures id in Ids(b) <==> IndexOfKey(b, TimerId, id) != -1
  {
    if id in Ids(b) {
      var i :| 0 <= i < |Ids(b)| && Ids(b)[i] == id;
      assert TimerId(b[i]) == id;
    }
    var k := IndexOfKey(b, TimerId, id);
    if k != -1 {
      assert Ids(b)[k] == id;
    }
  }

  lemma IdsAppend(a: seq<Timer>, c: seq<Timer>)
    ensures Ids(a + c) == Ids(a) + Ids(c)
  {
  }

  /** Writing bucket `b` at `p` exchanges the ids of the old bucket for those of `b`. */
  lemma WithBucketIds(s: Save<Timer>, p: Path, b: seq<Timer>)
    ensures multiset(SaveIds(WithBucket(s, p, b))) + multiset(Ids(BucketAt(s, p).GetOr([])))
         == multiset(SaveIds(s)) + multiset(Ids(b))
  {
    var year := Get(s, p.y).GetOr([]);
    var month := Get(year, p.m).GetOr([]);
    var month' := Put(month, p.d, b);
    var year' := Put(year, p.m, month');
    var b0 := Get(month, p.d).GetOr([]);
    assert Ids([]) == [] && MonthIds([]) == [] && YearIds([]) == [];
    FlatPut(month, p.d, b, [], Ids);
    FlatPut(year, p.m, month', [], MonthIds);
    FlatPut(s, p.y, year', [], YearIds);
    Telescope(multiset(Ids(b0)), multiset(Ids(b)), multiset(MonthIds(month)), multiset(MonthIds(month')),
      multiset(YearIds(year)), multiset(YearIds(year')), multiset(SaveIds(s)), multiset(SaveIds(WithBucket(s, p, b))));
    assert b0 == BucketAt(s, p).GetOr([]);
  }

  lemma Telescope(dayOld: multiset<string>, dayNew: multiset<string>, monthOld: multiset<string>, monthNew: multiset<string>,
                  yearOld: multiset<string>, yearNew: multiset<string>, saveOld: multiset<string>, saveNew: multiset<string>)
    requires monthNew + dayOld == monthOld + dayNew
    requires yearNew + monthOld == yearOld + monthNew
    requires saveNew + yearOld == saveOld + yearNew
    ensures saveNew + dayOld == saveOld + dayNew
  {
    forall x
      ensures (saveNew + dayOld)[x] == (saveOld + dayNew)[x]
    {
      assert (monthNew + dayOld)[x] == (monthOld + dayNew)[x];
      assert (yearNew + monthOld)[x] == (yearOld + monthNew)[x];
      assert (saveNew + yearOld)[x] == (saveOld + yearNew)[x];
    }
  }

  lemma Exchange(a: multiset<string>, c: multiset<string>, old_: multiset<string>, new_: multiset<string>,
                 x: multiset<string>, y: multiset<string>)
    requires a + old_ == c + new_
    requires new_ + x == old_ + y
    ensures a + x == c + y
  {
    forall z
      ensures (a + x)[z] == (c + y)[z]
    {
      assert (a + old_)[z] == (c + new_)[z];
      assert (new_ + x)[z] == (old_ + y)[z];
    }
  }

  /** Deleting a present id from a day takes one occurrence of it out of the day's ids. */
  lemma IdsDeleteFirst(b: seq<Timer>, id: string)
    requires IndexOfKey(b, TimerId, id) != -1
    ensures multiset(Ids(DeleteFirst(b, TimerId, id))) + multiset{id} == multiset(Ids(b))
  {
    var k := IndexOfKey(b, TimerId, id);
    var pre, x, post := b[..k], b[k], b[k + 1..];
    assert b == pre + [x] + post;
    assert DeleteFirst(b, TimerId, id) == pre + post;
    IdsAppend(pre + [x], post);
    IdsAppend(pre, [x]);
    IdsAppend(pre, post);
    assert Ids([x]) == [id];
    calc {
      multiset(Ids(b));
      multiset(Ids(pre) + [id] + Ids(post));
      multiset(Ids(pre)) + multiset{id} + multiset(Ids(post));
    }
  }

  /** Renaming one timer of a day exchanges its id in the day's ids. */
  lemma IdsRename(b: seq<Timer>, k: nat, newId: string)
    requires k < |b|
    ensures multiset(Ids(b[k := b[k].(id := newId)])) + multiset{b[k].id} == multiset(Ids(b)) + multiset{newId}
  {
    assert Ids(b[k := b[k].(id := newId)]) == Ids(b)[k := newId];
  }

  // ---------------------------------------------------------------------------
  // Finding a timer's day

  /** Key of the first day in the month whose array holds `id`. */
  function FindInMonth(m: Month<Timer>, id: string): Option<string> {
    if m == [] then None
    else if IndexOfKey(m[0].val, TimerId, id) != -1 then Some(m[0].key)
    else FindInMonth(m[1..], id)
  }

  /** Month and day keys of the first day in the year whose array holds `id`. */
  function FindInYear(y: Year<Timer>, id: string): Option<(string, string)> {
    if y == [] then None
    else match FindInMonth(y[0].val, id)
      case Some(dk) => Some((y[0].key, dk))
      case None => FindInYear(y[1..], id)
  }

  /** `getDayArrayById(id)`: the first day, in the save's key order, whose
      array holds a timer with that id; None stands for `false`. */
  function FindBucket(s: Save<Timer>, id: string): Option<Path> {
    if s == [] then None
    else match FindInYear(s[0].val, id)
      case Some(md) => Some(Path(s[0].key, md.0, md.1))
      case None => FindBucket(s[1..], id)
  }

  lemma {:induction false} FindInMonthFound(m: Month<Timer>, id: string)
    ensures FindInMonth(m, id).Some? <==> id in MonthIds(m)
  {
    if m != [] {
      FindInMonthFound(m[1..], id);
      IdsOf(m[0].val, id);
    }
  }

  lemma {:induction false} FindInYearFound(y: Year<Timer>, id: string)
    ensures FindInYear(y, id).Some? <==> id in YearIds(y)
  {
    if y != [] {
      FindInYearFound(y[1..], id);
      FindInMonthFound(y[0].val, id);
    }
  }

  /** The search finds a day exactly when the id is somewhere in the save. */
  lemma {:induction false} FindBucketFound(s: Save<Timer>, id: string)
    ensures FindBucket(s, id).Some? <==> id in SaveIds(s)
  {
    if s != [] {
      FindBucketFound(s[1..], id);
      FindInYearFound(s[0].val, id);
    }
  }

  lemma {:induction false} FindInMonthSound(m: Month<Timer>, id: string)
    requires UniqueKeys(m) && FindInMonth(m, id).Some?
    ensures KeyIndex(m, FindInMonth(m, id).value) != -1
    ensures Get(m, FindInMonth(m, id).value).Some?
    ensures IndexOfKey(Get(m, FindInMonth(m, id).value).value, TimerId, id) != -1
  {
    if IndexOfKey(m[0].val, TimerId, id) == -1 {
      FindInMonthSound(m[1..], id);
      assert KeyIndex(m, FindInMonth(m, id).value) != 0;
    }
  }

  lemma {:induction false} FindInYearSound(y: Year<Timer>, id: string)
    requires UniqueKeys(y) && (forall j :: 0 <= j < |y| ==> UniqueKeys(y[j].val))
    requires FindInYear(y, id).Some?
    ensures KeyIndex(y, FindInYear(y, id).value.0) != -1
    ensures Get(y, FindInYear(y, id).value.0).Some?
    ensures FindInMonth(Get(y, FindInYear(y, id).value.0).value, id) == Some(FindInYear(y, id).value.1)
  {
    if FindInMonth(y[0].val, id).None? {
      FindInYearSound(y[1..], id);
      assert KeyIndex(y, FindInYear(y, id).value.0) != 0;
    }
  }

  /** The day the search reports exists and holds the id. */
  lemma {:induction false} FindBucketSound(s: Save<Timer>, id: string)
    requires ValidSave(s) && FindBucket(s, id).Some?
    ensures KeyIndex(s, FindBucket(s, id).value.y) != -1
    ensures BucketAt(s, FindBucket(s, id).value).Some?
    ensures IndexOfKey(BucketAt(s, FindBucket(s, id).value).value, TimerId, id) != -1
  {
    var p := FindBucket(s, id).value;
    if FindInYear(s[0].val, id).None? {
      assert ValidSave(s[1..]);
      FindBucketSound(s[1..], id);
      assert KeyIndex(s, p.y) != 0;
      assert Get(s, p.y) == Get(s[1..], p.y);
    } else {
      var year := s[0].val;
      FindInYearSound(year, id);
      var month := Get(year, p.m).value;
      assert month == year[KeyIndex(year, p.m)].val;
      FindInMonthSound(month, id);
    }
  }

  /** `getTimerById(id)`: the timer with that id in the day the search finds. */
  function TimerById(s: Save<Timer>, id: string): Option<Timer> {
    match FindBucket(s, id)
    case None => None
    case Some(p) =>
      var b := BucketAt(s, p).GetOr([]);
      var k := IndexOfKey(b, TimerId, id);
      if k == -1 then None else Some(b[k])
  }

  /** A timer is found exactly when its id is in the save, and the one found
      carries that id. */
  lemma TimerByIdFound(s: Save<Timer>, id: string)
    requires ValidSave(s)
    ensures TimerById(s, id).Some? <==> id in SaveIds(s)
    ensures TimerById(s, id).Some? ==> TimerById(s, id).value.id == id
  {
    FindBucketFound(s, id);
    if FindBucket(s, id).Some? {
      FindBucketSound(s, id);
    }
  }

  /** The save after `tryDeleteTimerFromSave(id)`. */
  function DeletedFromSave(s: Save<Timer>, id: string): Save<Timer> {
    match FindBucket(s, id)
    case None => s
    case Some(p) => WithBucket(s, p, DeleteFirst(BucketAt(s, p).GetOr([]), TimerId, id))
  }

  /** A save holding a single day: writing that day's bucket keeps the shape,
      and writing into an empty save creates exactly that shape. */
  lemma SingleDay<T>(p: Path, b0: seq<T>, b: seq<T>)
    ensures BucketAt([Slot(p.y, [Slot(p.m, [Slot(p.d, b0)])])], p) == Some(b0)
    ensures WithBucket([Slot(p.y, [Slot(p.m, [Slot(p.d, b0)])])], p, b) == [Slot(p.y, [Slot(p.m, [Slot(p.d, b)])])]
    ensures WithBucket([], p, b) == [Slot(p.y, [Slot(p.m, [Slot(p.d, b)])])]
  {
    var day := [Slot(p.d, b0)];
    assert Put(day, p.d, b) == [Slot(p.d, b)];
    assert Put([Slot(p.m, day)], p.m, [Slot(p.d, b)]) == [Slot(p.m, [Slot(p.d, b)])];
    var noMonth: Month<T> := [];
    var noYear: Year<T> := [];
    var noSave: Save<T> := [];
    assert Put(noMonth, p.d, b) == [Slot(p.d, b)];
    assert Put(noYear, p.m, [Slot(p.d, b)]) == [Slot(p.m, [Slot(p.d, b)])];
    assert Put(noSave, p.y, [Slot(p.m, [Slot(p.d, b)])]) == [Slot(p.y, [Slot(p.m, [Slot(p.d, b)])])];
  }

  /** Deleting a timer from a save holding a single day that has it. */
  lemma DeleteFromSingleDay(p: Path, b: seq<Timer>, id: string)
    requires IndexOfKey(b, TimerId, id) != -1
    ensures DeletedFromSave([Slot(p.y, [Slot(p.m, [Slot(p.d, b)])])], id)
         == [Slot(p.y, [Slot(p.m, [Slot(p.d, DeleteFirst(b, TimerId, id))])])]
  {
    var month := [Slot(p.d, b)];
    var year := [Slot(p.m, month)];
    assert FindInMonth(month, id) == Some(p.d);
    assert FindInYear(year, id) == Some((p.m, p.d));
    assert FindBucket([Slot(p.y, year)], id) == Some(p);
    SingleDay(p, b, DeleteFirst(b, TimerId, id));
  }

  /** Appending timer t to the bucket at p adds exactly t's id to the save. */
  lemma AppendedIds(s: Save<Timer>, p: Path, t: Timer)
    ensures multiset(SaveIds(WithBucket(s, p, BucketAt(s, p).GetOr([]) + [t])))
         == multiset(SaveIds(s)) + multiset{t.id}
  {
    var b := BucketAt(s, p).GetOr([]);
    WithBucketIds(s, p, b + [t]);
    IdsAppend(b, [t]);
    assert Ids([t]) == [t.id];
    Exchange(multiset(SaveIds(WithBucket(s, p, b + [t]))), multiset(SaveIds(s)),
      multiset(Ids(b)), multiset(Ids(b + [t])), multiset{}, multiset{t.id});
  }

  /** Deleting takes exactly one occurrence of the id out of the save, touches
      no other day, and does nothing when the id is absent. */
  lemma DeletedFromSaveEffect(s: Save<Timer>, id: string)
    requires ValidSave(s)
    ensures ValidSave(DeletedFromSave(s, id))
    ensures id in SaveIds(s) ==> multiset(SaveIds(DeletedFromSave(s, id))) + multiset{id} == multiset(SaveIds(s))
    ensures id !in SaveIds(s) ==> DeletedFromSave(s, id) == s
    ensures FindBucket(s, id).Some? ==> forall q :: q != FindBucket(s, id).value ==>
      BucketAt(DeletedFromSave(s, id), q) == BucketAt(s, q)
  {
    FindBucketFound(s, id);
    if FindBucket(s, id).Some? {
      var p := FindBucket(s, id).value;
      FindBucketSound(s, id);
      var b := BucketAt(s, p).value;
      var b' := DeleteFirst(b, TimerId, id);
      assert DeletedFromSave(s, id) == WithBucket(s, p, b');
      WithBucketValid(s, p, b');
      WithBucketIds(s, p, b');
      IdsDeleteFirst(b, id);
      Exchange(multiset(SaveIds(WithBucket(s, p, b'))), multiset(SaveIds(s)), multiset(Ids(b)), multiset(Ids(b')),
        multiset{id}, multiset{});
      OtherBucketsKept(s, p, b');
    }
  }

  lemma OtherBucketsKept<T>(s: Save<T>, p: Path, b: seq<T>)
    ensures forall q :: q != p ==> BucketAt(WithBucket(s, p, b), q) == BucketAt(s, q)
  {
    forall q | q != p
      ensures BucketAt(WithBucket(s, p, b), q) == BucketAt(s, q)
    {
      BucketAtWith(s, p, b, q);
    }
  }

  /** With unique ids, a deleted id is gone from the save. */
  lemma DeletedIsGone(s: Save<Timer>, id: string)
    requires ValidSave(s) && UniqueIds(s)
    ensures id !in SaveIds(DeletedFromSave(s, id))
  {
    DeletedFromSaveEffect(s, id);
    assert multiset(SaveIds(s))[id] <= 1;
  }

  /** The save after `tryUpdateTimerId(timer, newId)` for a timer with id `id`. */
  function RenamedInSave(s: Save<Timer>, id: string, newId: string): Save<Timer> {
    match FindBucket(s, id)
    case None => s
    case Some(p) =>
      var b := BucketAt(s, p).GetOr([]);
      var k := IndexOfKey(b, TimerId, id);
      if k == -1 then s else WithBucket(s, p, b[k := b[k].(id := newId)])
  }

  /** Renaming exchanges one occurrence of the old id for the new one, touches no
      other day, and does nothing when the id is absent. */
  lemma RenamedInSaveEffect(s: Save<Timer>, id: string, newId: string)
    requires ValidSave(s)
    ensures ValidSave(RenamedInSave(s, id, newId))
    ensures id in SaveIds(s) ==>
      multiset(SaveIds(RenamedInSave(s, id, newId))) + multiset{id} == multiset(SaveIds(s)) + multiset{newId}
    ensures id !in SaveIds(s) ==> RenamedInSave(s, id, newId) == s
    ensures FindBucket(s, id).Some? ==> forall q :: q != FindBucket(s, id).value ==>
      BucketAt(RenamedInSave(s, id, newId), q) == BucketAt(s, q)
  {
    FindBucketFound(s, id);
    if FindBucket(s, id).Some? {
      var p := FindBucket(s, id).value;
      FindBucketSound(s, id);
      var b := BucketAt(s, p).value;
      var k := IndexOfKey(b, TimerId, id);
      var b' := b[k := b[k].(id := newId)];
      assert RenamedInSave(s, id, newId) == WithBucket(s, p, b');
      WithBucketValid(s, p, b');
      WithBucketIds(s, p, b');
      IdsRename(b, k, newId);
      Exchange(multiset(SaveIds(WithBucket(s, p, b'))), multiset(SaveIds(s)), multiset(Ids(b)), multiset(Ids(b')),
        multiset{id}, multiset{newId});
      OtherBucketsKept(s, p, b');
    }
  }

  // ---------------------------------------------------------------------------
  // Sorting a day

  predicate SortedByStart(s: seq<Timer>) {
    forall i, j :: 0 <= i < j < |s| ==> s[i].start <= s[j].start
  }

  /** x placed before the first timer that starts no earlier than it. */
  function InsertByStart(x: Timer, s: seq<Timer>): seq<Timer> {
    if s == [] then [x]
    else if x.start <= s[0].start then [x] + s
    else [s[0]] + InsertByStart(x, s[1..])
  }

  /** `sortArrayByStart(array)`: the array ordered by start; the comparator
      returns 0 for equal starts and the engine's sort is stable, so timers
      with equal starts keep their order. */
  function SortByStart(s: seq<Timer>): seq<Timer> {
    if s == [] then [] else InsertByStart(s[0], SortByStart(s[1..]))
  }

  lemma {:induction false} InsertByStartElems(x: Timer, s: seq<Timer>)
    ensures |InsertByStart(x, s)| == |s| + 1
    ensures forall i :: 0 <= i < |InsertByStart(x, s)| ==> InsertByStart(x, s)[i] == x || InsertByStart(x, s)[i] in s
    ensures multiset(InsertByStart(x, s)) == multiset(s) + multiset{x}
  {
    if s != [] && x.start > s[0].start {
      InsertByStartElems(x, s[1..]);
      assert s == [s[0]] + s[1..];
    }
  }

  lemma {:induction false} InsertByStartSorted(x: Timer, s: seq<Timer>)
    requires SortedByStart(s)
    ensures SortedByStart(InsertByStart(x, s))
  {
    if s != [] && x.start > s[0].start {
      InsertByStartSorted(x, s[1..]);
      InsertByStartElems(x, s[1..]);
      var r := InsertByStart(x, s[1..]);
      assert forall i :: 0 <= i < |r| ==> s[0].start <= r[i].start;
    }
  }

  /** The sorted day is ordered by start and holds the same timers. */
  lemma {:induction false} SortByStartEffect(s: seq<Timer>)
    ensures SortedByStart(SortByStart(s))
    ensures multiset(SortByStart(s)) == multiset(s)
    ensures |SortByStart(s)| == |s|
  {
    if s != [] {
      SortByStartEffect(s[1..]);
      InsertByStartSorted(s[0], SortByStart(s[1..]));
      InsertByStartElems(s[0], SortByStart(s[1..]));
      assert s == [s[0]] + s[1..];
    }
  }

  lemma {:induction false} InsertByStartIds(x: Timer, s: seq<Timer>)
    ensures multiset(Ids(InsertByStart(x, s))) == multiset(Ids(s)) + multiset{x.id}
  {
    if s == [] {
      assert Ids([x]) == [x.id];
    } else if x.start <= s[0].start {
      IdsAppend([x], s);
      assert Ids([x]) == [x.id];
    } else {
      InsertByStartIds(x, s[1..]);
      IdsAppend([s[0]], InsertByStart(x, s[1..]));
      IdsAppend([s[0]], s[1..]);
      assert Ids([s[0]]) == [s[0].id];
      assert s == [s[0]] + s[1..];
    }
  }

  /** Sorting a day keeps the ids it holds. */
  lemma {:induction false} SortByStartIds(s: seq<Timer>)
    ensures multiset(Ids(SortByStart(s))) == multiset(Ids(s))
  {
    if s != [] {
      SortByStartIds(s[1..]);
      InsertByStartIds(s[0], SortByStart(s[1..]));
      IdsAppend([s[0]], s[1..]);
      assert Ids([s[0]]) == [s[0].id];
      assert s == [s[0]] + s[1..];
    }
  }

  /** Sorting a day that is already ordered leaves it as it is. */
  lemma {:induction false} SortSortedIsIdentity(s: seq<Timer>)
    requires SortedByStart(s)
    ensures SortByStart(s) == s
  {
    if s != [] {
      SortSortedIsIdentity(s[1..]);
      assert SortByStart(s) == InsertByStart(s[0], s[1..]);
    }
  }

  // ---------------------------------------------------------------------------
  // The mutable save

  /** A save held in memory (the module's `save`, or the todos' `todosSave`),
      updated in place by the handlers. */
  class Archive<T> {
    var root: Save<T>

    constructor (s: Save<T>)
      requires ValidSave(s)
      ensures root == s && Valid()
    {
      root := s;
    }

    predicate Valid()
      reads this
    {
      ValidSave(root)
    }

    function Bucket(p: Path): Option<seq<T>>
      reads this
    {
      BucketAt(root, p)
    }

    /** `getSaveKeysAndVerifyStructureFor(year, month, day, save_)`: the day's
        keys, each missing level created on the way down. */
    method GetSaveKeysAndVerifyStructureFor(year: int, month: int, day: int) returns (keys: Path)
      requires Valid()
      modifies this
      ensures keys == KeysFor(year, month, day)
      ensures root == Ensured(old(root), keys)
      ensures Valid()
      ensures Bucket(keys) == Some(BucketAt(old(root), keys).GetOr([]))
      ensures forall q :: q != keys ==> Bucket(q) == BucketAt(old(root), q)
    {
      var y := "y" + DecimalString(year);
      var m := "m" + DecimalString(month);
      var d := "d" + DecimalString(day);
      ghost var s0 := root;
      ghost var y0 := Get(s0, y).GetOr([]);
      ghost var m0 := Get(y0, m).GetOr([]);
      ghost var b0 := Get(m0, d).GetOr([]);
      if Get(root, y).None? {
        root := Put(root, y, []);
      } else {
        PutSame(s0, y);
      }
      assert root == Put(s0, y, y0);
      PutGet(s0, y, y0, y);
      if Get(Get(root, y).value, m).None? {
        root := Put(root, y, Put(Get(root, y).value, m, []));
        PutPut(s0, y, y0, Put(y0, m, []));
      } else {
        PutSame(y0, m);
      }
      assert root == Put(s0, y, Put(y0, m, m0));
      PutGet(s0, y, Put(y0, m, m0), y);
      PutGet(y0, m, m0, m);
      if Get(Get(Get(root, y).value, m).value, d).None? {
        root := Put(root, y, Put(Get(root, y).value, m, Put(Get(Get(root, y).value, m).value, d, [])));
        PutPut(s0, y, Put(y0, m, m0), Put(Put(y0, m, m0), m, Put(m0, d, [])));
        PutPut(y0, m, m0, Put(m0, d, []));
      } else {
        PutSame(m0, d);
      }
      keys := Path(y, m, d);
      assert b0 == BucketAt(s0, keys).GetOr([]);
      assert root == Put(s0, y, Put(y0, m, Put(m0, d, b0)));
      EnsuredEffect(s0, keys);
    }

    /** `getDayArray(year, month, day, save_)`: the day's array, created empty
        when missing. The keys returned stand for the array itself, which the
        save keeps and the caller goes on to change. */
    method GetDayArray(year: int, month: int, day: int) returns (keys: Path)
      requires Valid()
      modifies this
      ensures keys == KeysFor(year, month, day)
      ensures root == Ensured(old(root), keys)
      ensures Valid()
      ensures Bucket(keys) == Some(BucketAt(old(root), keys).GetOr([]))
    {
      keys := GetSaveKeysAndVerifyStructureFor(year, month, day);
    }

    /** An in-place change to one day's array, seen by every alias of it. */
    method SetBucket(p: Path, b: seq<T>)
      requires Valid()
      modifies this
      ensures root == WithBucket(old(root), p, b)
      ensures Valid()
      ensures Bucket(p) == Some(b)
      ensures forall q :: q != p ==> Bucket(q) == BucketAt(old(root), q)
    {
      WithBucketValid(root, p, b);
      BucketAtWith(root, p, b, p);
      forall q | q != p
        ensures BucketAt(WithBucket(root, p, b), q) == BucketAt(root, q)
      {
        BucketAtWith(root, p, b, q);
      }
      root := WithBucket(root, p, b);
    }
  }

  // ---------------------------------------------------------------------------
  // Searches and edits on the timer save

  /** `getDayArrayById(id, save_)`: three nested loops over the levels in key
      order, stopping at the first day whose array holds the id. */
  method GetDayArrayById(a: Archive<Timer>, id: string) returns (r: Option<Path>)
    ensures r == FindBucket(a.root, id)
  {
    var s := a.root;
    var i := 0;
    while i < |s|
      invariant 0 <= i <= |s|
      invariant FindBucket(s, id) == FindBucket(s[i..], id)
    {
      var year := s[i].val;
      var j := 0;
      while j < |year|
        invariant 0 <= j <= |year|
        invariant FindInYear(year, id) == FindInYear(year[j..], id)
      {
        var month := year[j].val;
        var k := 0;
        while k < |month|
          invariant 0 <= k <= |month|
          invariant FindInMonth(month, id) == FindInMonth(month[k..], id)
        {
          var index := IndexOfKey(month[k].val, TimerId, id);
          if index != -1 {
            assert FindInMonth(month, id) == Some(month[k].key);
            assert FindInYear(year[j..], id) == Some((year[j].key, month[k].key));
            assert FindBucket(s[i..], id) == Some(Path(s[i].key, year[j].key, month[k].key));
            return Some(Path(s[i].key, year[j].key, month[k].key));
          }
          assert month[k..][1..] == month[k + 1..];
          k := k + 1;
        }
        assert year[j..][1..] == year[j + 1..];
        j := j + 1;
      }
      assert s[i..][1..] == s[i + 1..];
      i := i + 1;
    }
    return None;
  }

  /** `getTimerById(id, save_)`; None stands for `false`. */
  method GetTimerById(a: Archive<Timer>, id: string) returns (t: Option<Timer>)
    ensures t == TimerById(a.root, id)
  {
    var found := GetDayArrayById(a, id);
    t := None;
    if found.Some? {
      var dayArray := a.Bucket(found.value).GetOr([]);
      var index := IndexOfKey(dayArray, TimerId, id);
      if index != -1 {
        t := Some(dayArray[index]);
      }
    }
  }

  /** `tryDeleteTimerFromSave(id, save_)`: splices the timer out of its day. */
  method TryDeleteTimerFromSave(a: Archive<Timer>, id: string) returns (deleted: bool)
    requires a.Valid()
    modifies a
    ensures a.Valid()
    ensures deleted <==> id in SaveIds(old(a.root))
    ensures a.root == DeletedFromSave(old(a.root), id)
  {
    ghost var s0 := a.root;
    FindBucketFound(s0, id);
    var found := GetDayArrayById(a, id);
    if found.Some? {
      FindBucketSound(s0, id);
      var dayArray := a.Bucket(found.value).value;
      var removed, rest := TryDeleteObject(id, dayArray, TimerId);
      if removed {
        a.SetBucket(found.value, rest);
        return true;
      }
    }
    return false;
  }

  /** `tryUpdateTimerId(timer, newId, save_)`: finds the stored timer with the
      same id and gives it the new id in place. The lookup of getTimerById is
      written out here so the update can reach the stored object. */
  method TryUpdateTimerId(a: Archive<Timer>, timer: Timer, newId: string) returns (updated: bool)
    requires a.Valid()
    modifies a
    ensures a.Valid()
    ensures updated <==> timer.id in SaveIds(old(a.root))
    ensures a.root == RenamedInSave(old(a.root), timer.id, newId)
  {
    ghost var s0 := a.root;
    FindBucketFound(s0, timer.id);
    var found := GetDayArrayById(a, timer.id);
    if found.Some? {
      FindBucketSound(s0, timer.id);
      var dayArray := a.Bucket(found.value).value;
      var index := IndexOfKey(dayArray, TimerId, timer.id);
      if index != -1 {
        a.SetBucket(found.value, dayArray[index := dayArray[index].(id := newId)]);
        return true;
      }
    }
    return false;
  }

  // ---------------------------------------------------------------------------
  // Module variables that alias a day's array

  /** A variable such as `currentTimers` or `currentTodos`: before the first
      `getDayArray` it holds its own empty array; once attached it is the day's
      array in the save, so every change through it is a change to the save.
      Days are never removed from a save, so the alias stays valid. */
  class Current<T> {
    var path: Option<Path>
    var detached: seq<T>

    constructor ()
      ensures path == None && detached == []
    {
      path := None;
      detached := [];
    }

    /** The array the variable refers to. */
    function Items(a: Archive<T>): seq<T>
      reads this, a
    {
      match path
      case None => detached
      case Some(p) => a.Bucket(p).GetOr([])
    }

    /** `current = getDayArray(...)`: the variable now refers to that day. */
    method Attach(p: Path)
      modifies this
      ensures path == Some(p) && detached == old(detached)
    {
      path := Some(p);
    }

    /** Change the referenced array in place. */
    method SetItems(a: Archive<T>, items: seq<T>)
      requires a.Valid()
      modifies this, a
      ensures a.Valid()
      ensures Items(a) == items
      ensures path == old(path)
      ensures path.None? ==> a.root == old(a.root)
      ensures path.Some? ==> a.root == WithBucket(old(a.root), path.value, items)
    {
      match path
      case None =>
        detached := items;
      case Some(p) =>
        a.SetBucket(p, items);
    }
  }
}
