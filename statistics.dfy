/** Tallies over the archive (`server/statistics.js`): how many timers of one
    year match each task group, and for how long they ran; and how many
    queued timers are still running. */
module Statistics {
  import opened Model
  import opened Objects
  import opened Utils
  import opened SaveStructure

  /** A JavaScript number as far as the tallies need one: an integer, or NaN
      (what a duration becomes when the timer's end is absent). */
  datatype Num = Num(n: int) | NaN

  function Plus(a: Num, b: Num): Num {
    if a.NaN? || b.NaN? then NaN else Num(a.n + b.n)
  }

  /** `Math.round(ms / 1000)`: the nearest whole second, halves rounded up. */
  function RoundSeconds(ms: int): int {
    (ms + 500) / 1000
  }

  /** `timerSeconds(timer)`: the rounded milliseconds from `new Date(timer.start)`
      to `new Date(timer.end)`. `new Date(null)` is the epoch, so a null end
      counts back to 0; an absent end is an invalid date and gives NaN. */
  function TimerSeconds(t: Timer): Num {
    match t.end
    case At(e) => Num(RoundSeconds(e - t.start))
    case Null => Num(RoundSeconds(0 - t.start))
    case Undefined => NaN
  }

  /** One group's entry in the result of `talliesForYear`. */
  datatype Tally = Tally(tally: int, seconds: Num)

  const ZERO_TALLY := Tally(0, Num(0))

  /** One match of a timer: one more in the tally, its seconds added. */
  function Counted(t: Tally, seconds: Num): Tally {
    Tally(t.tally + 1, Plus(t.seconds, seconds))
  }

  /** A group's tally after trying each of its matchers on one timer. */
  function MatchersTally(acc: Tally, t: Timer, matchers: seq<string>, matches: (string, string) -> bool): Tally {
    if matchers == [] then acc
    else
      var a := MatchersTally(acc, t, matchers[..|matchers| - 1], matches);
      if matches(matchers[|matchers| - 1], t.title) then Counted(a, TimerSeconds(t)) else a
  }

  /** A group's tally after visiting the timers in order. */
  function TimersTally(acc: Tally, ts: seq<Timer>, matchers: seq<string>, matches: (string, string) -> bool): Tally {
    if ts == [] then acc
    else MatchersTally(TimersTally(acc, ts[..|ts| - 1], matchers, matches), ts[|ts| - 1], matchers, matches)
  }

  /** The tallies object lists the groups in the order of the matchers object. */
  predicate Aligned(tallies: seq<Slot<Tally>>, groups: seq<Slot<seq<string>>>) {
    |tallies| == |groups| && forall g :: 0 <= g < |tallies| ==> tallies[g].key == groups[g].key
  }

  /** Every group's tally once the timers `ts` have been visited. */
  function GroupTallies(ts: seq<Timer>, groups: seq<Slot<seq<string>>>, matches: (string, string) -> bool)
    : (r: seq<Slot<Tally>>)
    ensures Aligned(r, groups)
  {
    seq(|groups|, g requires 0 <= g < |groups| => Slot(groups[g].key, TimersTally(ZERO_TALLY, ts, groups[g].val, matches)))
  }

  /** A day's timers are its array. A named function, not a lambda, so that
      the loop invariants and lemmas below name the same function value as
      `MonthTimers`. */
  function DayTimers(b: seq<Timer>): seq<Timer> { b }

  /** The month's timers in the order `Object.entries` visits them. */
  function MonthTimers(m: Month<Timer>): seq<Timer> { Flat(m, DayTimers) }

  /** The year's timers in the order `Object.entries` visits them. */
  function YearTimers(y: Year<Timer>): seq<Timer> { Flat(y, MonthTimers) }

  /** What `talliesForYear` returns: None (the source's `undefined`) when the
      save has no such year, else every group's tally over that year's timers. */
  function TalliesSpec(year: int, save: Save<Timer>, groups: seq<Slot<seq<string>>>, matches: (string, string) -> bool)
    : Option<seq<Slot<Tally>>>
  {
    match Get(save, "y" + DecimalString(year))
    case None => None
    case Some(y) => Some(GroupTallies(YearTimers(y), groups, matches))
  }

  // ---------------------------------------------------------------------------
  // The loops

  /** `talliesForYear(year, save, matchers)`; `matches` stands for
      `timerMatches`, which tests a regular expression against the title. */
  method TalliesForYear(year: int, save: Save<Timer>, groups: seq<Slot<seq<string>>>, matches: (string, string) -> bool)
    returns (r: Option<seq<Slot<Tally>>>)
    requires UniqueKeys(groups)
    ensures r == TalliesSpec(year, save, groups, matches)
  {
    var tallies: seq<Slot<Tally>> := [];
    var g := 0;
    while g < |groups|
      invariant 0 <= g <= |groups|
      invariant tallies == GroupTallies([], groups[..g], matches)
    {
      assert KeyIndex(tallies, groups[g].key) == -1;
      tallies := Put(tallies, groups[g].key, ZERO_TALLY);
      g := g + 1;
    }
    assert groups[..g] == groups;

    var yearDict := Get(save, "y" + DecimalString(year));
    if yearDict.None? {
      return None;
    }
    var y := yearDict.value;
    ghost var visited: seq<Timer> := [];
    var i := 0;
    while i < |y|
      invariant 0 <= i <= |y|
      invariant visited == Flat(y[..i], MonthTimers)
      invariant tallies == GroupTallies(visited, groups, matches)
    {
      tallies := CountMonth(tallies, y[i].val, groups, matches, visited);
      FlatStep(y, i, MonthTimers);
      visited := visited + MonthTimers(y[i].val);
      i := i + 1;
    }
    assert y[..i] == y;
    r := Some(tallies);
  }

  /** The loop over one month's days. */
  method CountMonth(tallies: seq<Slot<Tally>>, month: Month<Timer>, groups: seq<Slot<seq<string>>>,
                    matches: (string, string) -> bool, ghost visited: seq<Timer>)
    returns (r: seq<Slot<Tally>>)
    requires UniqueKeys(groups) && tallies == GroupTallies(visited, groups, matches)
    ensures r == GroupTallies(visited + MonthTimers(month), groups, matches)
  {
    r := tallies;
    ghost var done: seq<Timer> := visited;
    var j := 0;
    while j < |month|
      invariant 0 <= j <= |month|
      invariant done == visited + Flat(month[..j], DayTimers)
      invariant r == GroupTallies(done, groups, matches)
    {
      r := CountDay(r, month[j].val, groups, matches, done);
      FlatStep(month, j, DayTimers);
      done := done + month[j].val;
      j := j + 1;
    }
    assert month[..j] == month;
  }

  /** The loop over one day's timers. */
  method CountDay(tallies: seq<Slot<Tally>>, dayArray: seq<Timer>, groups: seq<Slot<seq<string>>>,
                  matches: (string, string) -> bool, ghost visited: seq<Timer>)
    returns (r: seq<Slot<Tally>>)
    requires UniqueKeys(groups) && tallies == GroupTallies(visited, groups, matches)
    ensures r == GroupTallies(visited + dayArray, groups, matches)
  {
    r := tallies;
    var k := 0;
    assert visited + dayArray[..0] == visited;
    while k < |dayArray|
      invariant 0 <= k <= |dayArray|
      invariant r == GroupTallies(visited + dayArray[..k], groups, matches)
    {
      var timer := dayArray[k];
      var next := CountTimer(r, timer, groups, matches);
      VisitStep(visited + dayArray[..k], timer, groups, matches, r, next);
      r := next;
      assert visited + dayArray[..k + 1] == visited + dayArray[..k] + [timer];
      k := k + 1;
    }
    assert dayArray[..k] == dayArray;
  }

  /** The `forEach` over the groups for one timer. */
  method CountTimer(tallies: seq<Slot<Tally>>, timer: Timer, groups: seq<Slot<seq<string>>>, matches: (string, string) -> bool)
    returns (r: seq<Slot<Tally>>)
    requires UniqueKeys(groups) && Aligned(tallies, groups)
    ensures Aligned(r, groups)
    ensures forall g :: 0 <= g < |groups| ==>
      r[g] == Slot(groups[g].key, MatchersTally(tallies[g].val, timer, groups[g].val, matches))
  {
    r := tallies;
    var g := 0;
    while g < |groups|
      invariant 0 <= g <= |groups|
      invariant Aligned(r, groups)
      invariant forall h :: 0 <= h < g ==>
        r[h] == Slot(groups[h].key, MatchersTally(tallies[h].val, timer, groups[h].val, matches))
      invariant forall h :: g <= h < |groups| ==> r[h] == tallies[h]
    {
      r := CountMatchers(r, g, timer, groups, matches);
      g := g + 1;
    }
  }

  /** The loop over one group's matchers: every match bumps the group's tally. */
  method CountMatchers(tallies: seq<Slot<Tally>>, g: nat, timer: Timer, groups: seq<Slot<seq<string>>>,
                       matches: (string, string) -> bool)
    returns (r: seq<Slot<Tally>>)
    requires UniqueKeys(groups) && Aligned(tallies, groups) && g < |groups|
    ensures r == tallies[g := Slot(groups[g].key, MatchersTally(tallies[g].val, timer, groups[g].val, matches))]
  {
    var group := groups[g].key;
    var matchersArray := groups[g].val;
    r := tallies;
    var k := 0;
    while k < |matchersArray|
      invariant 0 <= k <= |matchersArray|
      invariant r == tallies[g := Slot(group, MatchersTally(tallies[g].val, timer, matchersArray[..k], matches))]
    {
      assert matchersArray[..k + 1][..k] == matchersArray[..k];
      if matches(matchersArray[k], timer.title) {
        AlignedUnique(r, groups);
        GetAt(r, g);
        PutAt(r, g, Counted(r[g].val, TimerSeconds(timer)));
        r := Put(r, group, Counted(Get(r, group).value, TimerSeconds(timer)));
      }
      k := k + 1;
    }
    assert matchersArray[..k] == matchersArray;
  }

  /** `countRunning(upQueue)`: the queued timers without an end. An entry
      whose timer is null makes `timer.end` throw; the result is None then. */
  method CountRunning(upQueue: seq<Entry>) returns (r: Option<nat>)
    ensures r == RunningSpec(upQueue)
  {
    var num := 0;
    var i := 0;
    while i < |upQueue|
      invariant 0 <= i <= |upQueue|
      invariant RunningSpec(upQueue[..i]) == Some(num)
    {
      assert upQueue[..i + 1][..i] == upQueue[..i];
      var listing := upQueue[i];
      if listing.timer.None? {
        NullStaysNull(upQueue[..i + 1], upQueue[i + 1..]);
        assert upQueue[..i + 1] + upQueue[i + 1..] == upQueue;
        return None;
      }
      if !listing.timer.value.end.At? {
        num := num + 1;
      }
      i := i + 1;
    }
    assert upQueue[..i] == upQueue;
    r := Some(num);
  }

  /** The running count of a queue, None once an entry without a timer is met. */
  function RunningSpec(q: seq<Entry>): Option<nat> {
    if q == [] then Some(0)
    else match RunningSpec(q[..|q| - 1])
      case None => None
      case Some(n) =>
        var e := q[|q| - 1];
        if e.timer.None? then None
        else if IsRunning(e.timer.value) then Some(n + 1) else Some(n)
  }

  // ---------------------------------------------------------------------------
  // Helpers for the loops

  lemma AlignedUnique(tallies: seq<Slot<Tally>>, groups: seq<Slot<seq<string>>>)
    requires UniqueKeys(groups) && Aligned(tallies, groups)
    ensures UniqueKeys(tallies)
  {
    forall i, j | 0 <= i < j < |tallies|
      ensures tallies[i].key != tallies[j].key
    {
      assert tallies[i].key == groups[i].key && tallies[j].key == groups[j].key;
    }
  }

  lemma FlatStep<V, U>(o: seq<Slot<V>>, i: nat, f: V -> seq<U>)
    requires i < |o|
    ensures Flat(o[..i + 1], f) == Flat(o[..i], f) + f(o[i].val)
  {
    assert o[..i + 1] == o[..i] + [o[i]];
    FlatAppend(o[..i], [o[i]], f);
    assert Flat([o[i]], f) == f(o[i].val);
  }

  /** Visiting one more timer is what the `forEach` over the groups does. */
  lemma VisitStep(visited: seq<Timer>, t: Timer, groups: seq<Slot<seq<string>>>, matches: (string, string) -> bool,
                  before: seq<Slot<Tally>>, after: seq<Slot<Tally>>)
    requires before == GroupTallies(visited, groups, matches) && Aligned(after, groups)
    requires forall g :: 0 <= g < |groups| ==>
      after[g] == Slot(groups[g].key, MatchersTally(before[g].val, t, groups[g].val, matches))
    ensures after == GroupTallies(visited + [t], groups, matches)
  {
    assert (visited + [t])[..|visited|] == visited;
    var expected := GroupTallies(visited + [t], groups, matches);
    forall g | 0 <= g < |groups|
      ensures after[g] == expected[g]
    {
      assert TimersTally(ZERO_TALLY, visited + [t], groups[g].val, matches)
          == MatchersTally(TimersTally(ZERO_TALLY, visited, groups[g].val, matches), t, groups[g].val, matches);
    }
  }

  lemma {:induction false} NullStaysNull(a: seq<Entry>, b: seq<Entry>)
    requires RunningSpec(a) == None
    ensures RunningSpec(a + b) == None
  {
    if b == [] {
      assert a + b == a;
    } else {
      assert (a + b)[..|a + b| - 1] == a + b[..|b| - 1];
      NullStaysNull(a, b[..|b| - 1]);
      assert RunningSpec((a + b)[..|a + b| - 1]) == None;
    }
  }

  // ---------------------------------------------------------------------------
  // What the tallies mean

  /** How many of the matchers match the timer's title. */
  function MatchCount(t: Timer, matchers: seq<string>, matches: (string, string) -> bool): nat {
    if matchers == [] then 0
    else (if matches(matchers[0], t.title) then 1 else 0) + MatchCount(t, matchers[1..], matches)
  }

  /** The number of (timer, matcher) pairs that match, over all timers. */
  function Hits(ts: seq<Timer>, matchers: seq<string>, matches: (string, string) -> bool): nat {
    if ts == [] then 0 else MatchCount(ts[0], matchers, matches) + Hits(ts[1..], matchers, matches)
  }

  /** n copies of x added up. */
  function Times(n: nat, x: Num): Num {
    if n == 0 then Num(0) else Plus(x, Times(n - 1, x))
  }

  /** The seconds of every matching pair added up. */
  function PairSeconds(ts: seq<Timer>, matchers: seq<string>, matches: (string, string) -> bool): Num {
    if ts == [] then Num(0)
    else Plus(Times(MatchCount(ts[0], matchers, matches), TimerSeconds(ts[0])), PairSeconds(ts[1..], matchers, matches))
  }

  lemma {:induction false} MatchCountSnoc(t: Timer, matchers: seq<string>, m: string, matches: (string, string) -> bool)
    ensures MatchCount(t, matchers + [m], matches) == MatchCount(t, matchers, matches) + (if matches(m, t.title) then 1 else 0)
  {
    if matchers != [] {
      assert (matchers + [m])[1..] == matchers[1..] + [m];
      MatchCountSnoc(t, matchers[1..], m, matches);
    } else {
      assert [] + [m] == [m];
    }
  }

  lemma PlusAssoc(a: Num, b: Num, c: Num)
    ensures Plus(Plus(a, b), c) == Plus(a, Plus(b, c))
  {
  }

  lemma {:induction false} TimesSucc(n: nat, x: Num)
    ensures Times(n + 1, x) == Plus(Times(n, x), x)
  {
    if n > 0 {
      TimesSucc(n - 1, x);
    }
  }

  /** Trying the matchers on a timer adds one per matching matcher, and that
      many times the timer's seconds: a timer that two matchers of a group
      match counts twice. */
  lemma {:induction false} MatchersTallyEffect(acc: Tally, t: Timer, matchers: seq<string>, matches: (string, string) -> bool)
    ensures MatchersTally(acc, t, matchers, matches).tally == acc.tally + MatchCount(t, matchers, matches)
    ensures MatchersTally(acc, t, matchers, matches).seconds
         == Plus(acc.seconds, Times(MatchCount(t, matchers, matches), TimerSeconds(t)))
  {
    if matchers != [] {
      var n := |matchers| - 1;
      MatchersTallyEffect(acc, t, matchers[..n], matches);
      assert matchers == matchers[..n] + [matchers[n]];
      MatchCountSnoc(t, matchers[..n], matchers[n], matches);
      var c := MatchCount(t, matchers[..n], matches);
      if matches(matchers[n], t.title) {
        TimesSucc(c, TimerSeconds(t));
        PlusAssoc(acc.seconds, Times(c, TimerSeconds(t)), TimerSeconds(t));
      }
    }
  }

  lemma {:induction false} HitsSnoc(ts: seq<Timer>, t: Timer, matchers: seq<string>, matches: (string, string) -> bool)
    ensures Hits(ts + [t], matchers, matches) == Hits(ts, matchers, matches) + MatchCount(t, matchers, matches)
    ensures PairSeconds(ts + [t], matchers, matches)
         == Plus(PairSeconds(ts, matchers, matches), Times(MatchCount(t, matchers, matches), TimerSeconds(t)))
  {
    if ts == [] {
      assert [] + [t] == [t];
      assert [t][1..] == [];
    } else {
      assert (ts + [t])[1..] == ts[1..] + [t];
      HitsSnoc(ts[1..], t, matchers, matches);
      PlusAssoc(Times(MatchCount(ts[0], matchers, matches), TimerSeconds(ts[0])), PairSeconds(ts[1..], matchers, matches),
        Times(MatchCount(t, matchers, matches), TimerSeconds(t)));
    }
  }

  /** A group's tally is the number of matching (timer, matcher) pairs, and
      its seconds the sum of their durations. */
  lemma TimersTallyCounts(ts: seq<Timer>, matchers: seq<string>, matches: (string, string) -> bool)
    ensures TimersTally(ZERO_TALLY, ts, matchers, matches) == Tally(Hits(ts, matchers, matches), PairSeconds(ts, matchers, matches))
  {
    TimersTallyFrom(ts, matchers, matches);
  }

  lemma {:induction false} TimersTallyFrom(ts: seq<Timer>, matchers: seq<string>, matches: (string, string) -> bool)
    ensures TimersTally(ZERO_TALLY, ts, matchers, matches).tally == Hits(ts, matchers, matches)
    ensures TimersTally(ZERO_TALLY, ts, matchers, matches).seconds == PairSeconds(ts, matchers, matches)
  {
    if ts != [] {
      var n := |ts| - 1;
      var init := ts[..n];
      var last := ts[n];
      assert ts == init + [last];
      var before := TimersTally(ZERO_TALLY, init, matchers, matches);
      TimersTallyFrom(init, matchers, matches);
      var c := MatchCount(last, matchers, matches);
      var x := Times(c, TimerSeconds(last));
      MatchersTallyEffect(before, last, matchers, matches);
      HitsSnoc(init, last, matchers, matches);
      assert TimersTally(ZERO_TALLY, ts, matchers, matches) == MatchersTally(before, last, matchers, matches);
      assert MatchersTally(before, last, matchers, matches).seconds == Plus(PairSeconds(init, matchers, matches), x);
      assert PairSeconds(ts, matchers, matches) == Plus(PairSeconds(init, matchers, matches), x);
    }
  }

  /** A duration whose timer's end is absent makes the group's seconds NaN
      for good, once any matcher matches that timer. */
  lemma {:induction false} RunningPoisonsSeconds(ts: seq<Timer>, i: nat, matchers: seq<string>, matches: (string, string) -> bool)
    requires i < |ts| && ts[i].end == Undefined && MatchCount(ts[i], matchers, matches) > 0
    ensures PairSeconds(ts, matchers, matches) == NaN
  {
    if i > 0 {
      assert ts[1..][i - 1] == ts[i];
      RunningPoisonsSeconds(ts[1..], i - 1, matchers, matches);
    } else {
      assert TimerSeconds(ts[0]) == NaN;
      assert Times(MatchCount(ts[0], matchers, matches), NaN) == NaN;
    }
  }

  /** What a timer's seconds mean: with an end, the duration to the nearest
      second; with a null end, minus the start to the nearest second (the time
      from the start back to the epoch), negative for any start after
      1970-01-01T00:00:00.500Z; with an absent end, NaN. */
  lemma TimerSecondsMeaning(t: Timer)
    ensures t.end.At? ==>
      TimerSeconds(t).Num? && 1000 * TimerSeconds(t).n - 500 <= t.end.time - t.start < 1000 * TimerSeconds(t).n + 500
    ensures t.end == Null ==>
      TimerSeconds(t).Num? && 1000 * TimerSeconds(t).n - 500 <= 0 - t.start < 1000 * TimerSeconds(t).n + 500
    ensures t.end == Null && t.start > 500 ==> TimerSeconds(t).n < 0
    ensures t.end == Undefined <==> TimerSeconds(t) == NaN
  {
    match t.end {
      case At(e) => RoundSecondsNearest(e - t.start);
      case Null => RoundSecondsNearest(0 - t.start);
      case Undefined =>
    }
  }

  /** `Math.round` gives the nearest whole second, halves going up. */
  lemma RoundSecondsNearest(ms: int)
    ensures 1000 * RoundSeconds(ms) - 500 <= ms < 1000 * RoundSeconds(ms) + 500
  {
  }

  /** The running count is the number of queued timers without an end. */
  lemma {:induction false} RunningSpecCounts(q: seq<Entry>)
    requires forall i :: 0 <= i < |q| ==> q[i].timer.Some?
    ensures RunningSpec(q).Some?
    ensures RunningSpec(q).value == |set i | 0 <= i < |q| && IsRunning(q[i].timer.value)|
    ensures RunningSpec(q).value <= |q|
  {
    if q != [] {
      var n := |q| - 1;
      RunningSpecCounts(q[..n]);
      var before := set i | 0 <= i < n && IsRunning(q[..n][i].timer.value);
      var after := set i | 0 <= i < |q| && IsRunning(q[i].timer.value);
      assert before == set i | 0 <= i < n && IsRunning(q[i].timer.value);
      if IsRunning(q[n].timer.value) {
        assert after == before + {n};
      } else {
        assert after == before;
      }
    }
  }

  // ---------------------------------------------------------------------------
  // The examples of statistics.test.js

  /** 2021-11-02T08:14:06Z in milliseconds. */
  const START := 1635840846000

  function Ended(title: string, end: int): Timer {
    Timer("", START, At(end), title, "")
  }

  /** The test timers; 09:50:12 is 5766 s after the start, 10:50:12 is 9366 s. */
  const DEV_HI := Ended("dev:hi", 1635846612000)
  const LDEV := Ended("ldev:", 1635843012000)
  const YOGS := Ended("w: yogs", 1635850212000)
  const DEV_BYE := Ended("dev: bye", 1635846612000)

  /** Only '^dev:' and '^w:' match, and only titles that start with them. */
  predicate TestMatches(matches: (string, string) -> bool) {
    && matches("^dev:", "dev:hi") && matches("^dev:", "dev: bye") && matches("^w:", "w: yogs")
    && !matches("^dev:", "ldev:") && !matches("^dev:", "w: yogs")
    && !matches("^w:", "dev:hi") && !matches("^w:", "ldev:") && !matches("^w:", "dev: bye")
  }

  /** The save of the tests, with day d2 of 2021 optional and the first timer
      of 2021 given. */
  function TestSave(first: Timer, withSecondDay: bool): Save<Timer> {
    var days := [Slot("d1", [first, LDEV]), Slot("d30", [YOGS])] + (if withSecondDay then [Slot("d2", [DEV_BYE])] else []);
    [ Slot("y2021", [Slot("m1", days)]),
      Slot("y2022", [Slot("m1", [Slot("d1", [DEV_HI, Ended("ldev:", 1635850212000)])])]) ]
  }

  lemma TestYearTimers(first: Timer, withSecondDay: bool)
    ensures Get(TestSave(first, withSecondDay), "y" + DecimalString(2021)) == Some(TestSave(first, withSecondDay)[0].val)
    ensures YearTimers(TestSave(first, withSecondDay)[0].val) == [first, LDEV, YOGS] + (if withSecondDay then [DEV_BYE] else [])
  {
    YearKey2021();
    var save := TestSave(first, withSecondDay);
    var y := save[0].val;
    var m := y[0].val;
    assert save[0].key == "y2021";
    var head: Month<Timer> := [Slot("d1", [first, LDEV])];
    var second: Month<Timer> := [Slot("d30", [YOGS])];
    var extra: Month<Timer> := if withSecondDay then [Slot("d2", [DEV_BYE])] else [];
    assert m == head + second + extra;
    FlatAppend(head + second, extra, DayTimers);
    FlatAppend(head, second, DayTimers);
    FlatSingle("d1", [first, LDEV], DayTimers);
    FlatSingle("d30", [YOGS], DayTimers);
    if withSecondDay {
      FlatSingle("d2", [DEV_BYE], DayTimers);
    }
    assert y == [Slot("m1", m)];
    FlatSingle("m1", m, MonthTimers);
  }

  lemma YearKey2021()
    ensures "y" + DecimalString(2021) == "y2021"
  {
    assert NatString(2) == "2";
    assert NatString(20) == "20";
    assert NatString(202) == "202";
    assert NatString(2021) == "2021";
  }

  lemma FlatSingle<V, U>(k: string, v: V, f: V -> seq<U>)
    ensures Flat([Slot(k, v)], f) == f(v)
  {
    assert [Slot(k, v)][1..] == [];
  }

  lemma OneMatcher(t: Timer, m: string, matches: (string, string) -> bool)
    ensures MatchCount(t, [m], matches) == if matches(m, t.title) then 1 else 0
  {
    assert [m][1..] == [];
  }

  lemma HitsCons(t: Timer, ts: seq<Timer>, matchers: seq<string>, matches: (string, string) -> bool)
    ensures Hits([t] + ts, matchers, matches) == MatchCount(t, matchers, matches) + Hits(ts, matchers, matches)
    ensures PairSeconds([t] + ts, matchers, matches)
         == Plus(Times(MatchCount(t, matchers, matches), TimerSeconds(t)), PairSeconds(ts, matchers, matches))
  {
    assert ([t] + ts)[1..] == ts;
  }

  lemma FirstTimers(ts: seq<Timer>, m: string, matches: (string, string) -> bool)
    requires |ts| == 3
    ensures Hits(ts, [m], matches)
         == (if matches(m, ts[0].title) then 1 else 0) + (if matches(m, ts[1].title) then 1 else 0)
            + (if matches(m, ts[2].title) then 1 else 0)
  {
    var s1 := ts[1..];
    var s2 := s1[1..];
    assert s1[0] == ts[1] && s2[0] == ts[2] && s2[1..] == [];
    assert Hits(s2, [m], matches) == MatchCount(ts[2], [m], matches);
    assert Hits(s1, [m], matches) == MatchCount(ts[1], [m], matches) + Hits(s2, [m], matches);
    assert Hits(ts, [m], matches) == MatchCount(ts[0], [m], matches) + Hits(s1, [m], matches);
    OneMatcher(ts[0], m, matches);
    OneMatcher(ts[1], m, matches);
    OneMatcher(ts[2], m, matches);
  }

  lemma FirstSeconds(ts: seq<Timer>, m: string, matches: (string, string) -> bool)
    requires |ts| == 3
    ensures PairSeconds(ts, [m], matches)
         == Plus(Times(MatchCount(ts[0], [m], matches), TimerSeconds(ts[0])),
                 Plus(Times(MatchCount(ts[1], [m], matches), TimerSeconds(ts[1])),
                      Plus(Times(MatchCount(ts[2], [m], matches), TimerSeconds(ts[2])), Num(0))))
  {
    var s1 := ts[1..];
    var s2 := s1[1..];
    assert s1[0] == ts[1] && s2[0] == ts[2] && s2[1..] == [];
    assert PairSeconds(s2, [m], matches) == Plus(Times(MatchCount(ts[2], [m], matches), TimerSeconds(ts[2])), Num(0));
    assert PairSeconds(s1, [m], matches) == Plus(Times(MatchCount(ts[1], [m], matches), TimerSeconds(ts[1])), PairSeconds(s2, [m], matches));
  }

  lemma LiteralTimers()
    ensures DEV_HI.title == "dev:hi" && LDEV.title == "ldev:" && YOGS.title == "w: yogs" && DEV_BYE.title == "dev: bye"
    ensures TimerSeconds(DEV_HI) == Num(5766) && TimerSeconds(LDEV) == Num(2166)
    ensures TimerSeconds(YOGS) == Num(9366) && TimerSeconds(DEV_BYE) == Num(5766)
  {
  }

  lemma SingleGroup(ts: seq<Timer>, k: string, matchers: seq<string>, matches: (string, string) -> bool)
    ensures GroupTallies(ts, [Slot(k, matchers)], matches) == [Slot(k, TimersTally(ZERO_TALLY, ts, matchers, matches))]
  {
  }

  /** Of three timers, only the first matches the one matcher. */
  lemma OnlyFirst(ts: seq<Timer>, m: string, matches: (string, string) -> bool)
    requires |ts| == 3 && matches(m, ts[0].title) && !matches(m, ts[1].title) && !matches(m, ts[2].title)
    requires TimerSeconds(ts[0]).Num?
    ensures Hits(ts, [m], matches) == 1 && PairSeconds(ts, [m], matches) == TimerSeconds(ts[0])
  {
    FirstTimers(ts, m, matches);
    FirstSeconds(ts, m, matches);
    OneMatcher(ts[0], m, matches);
    OneMatcher(ts[1], m, matches);
    OneMatcher(ts[2], m, matches);
    var x, y, z := TimerSeconds(ts[0]), TimerSeconds(ts[1]), TimerSeconds(ts[2]);
    TimesOneZero(x);
    TimesOneZero(y);
    TimesOneZero(z);
    var rest := Plus(Times(0, y), Plus(Times(0, z), Num(0)));
    assert rest == Num(0);
    calc {
      PairSeconds(ts, [m], matches);
      Plus(Times(1, x), rest);
      Plus(Plus(x, Num(0)), Num(0));
      x;
    }
  }

  /** Times(1, x) is x, and Times(0, x) is zero even when x is NaN. */
  lemma TimesOneZero(x: Num)
    ensures Times(1, x) == Plus(x, Num(0)) && Times(0, x) == Num(0)
  {
  }

  /** 'tallies with 1 group and 1 matching timer'. */
  lemma OneGroupOneMatch(matches: (string, string) -> bool)
    requires TestMatches(matches)
    ensures TalliesSpec(2021, TestSave(DEV_HI, false), [Slot("dev", ["^dev:"])], matches)
         == Some([Slot("dev", Tally(1, Num(5766)))])
  {
    TestYearTimers(DEV_HI, false);
    var ts := YearTimers(TestSave(DEV_HI, false)[0].val);
    assert ts == [DEV_HI, LDEV, YOGS];
    LiteralTimers();
    OnlyFirst(ts, "^dev:", matches);
    TimersTallyCounts(ts, ["^dev:"], matches);
    SingleGroup(ts, "dev", ["^dev:"], matches);
  }

  /** Of three timers, only the last matches the one matcher. */
  lemma OnlyLast(ts: seq<Timer>, m: string, matches: (string, string) -> bool)
    requires |ts| == 3 && !matches(m, ts[0].title) && !matches(m, ts[1].title) && matches(m, ts[2].title)
    requires TimerSeconds(ts[2]).Num?
    ensures Hits(ts, [m], matches) == 1 && PairSeconds(ts, [m], matches) == TimerSeconds(ts[2])
  {
    FirstTimers(ts, m, matches);
    FirstSeconds(ts, m, matches);
    OneMatcher(ts[0], m, matches);
    OneMatcher(ts[1], m, matches);
    OneMatcher(ts[2], m, matches);
    var x, y, z := TimerSeconds(ts[0]), TimerSeconds(ts[1]), TimerSeconds(ts[2]);
    TimesOneZero(x);
    TimesOneZero(y);
    TimesOneZero(z);
    var last := Plus(Times(1, z), Num(0));
    assert last == z;
    assert PairSeconds(ts, [m], matches) == Plus(Times(0, x), Plus(Times(0, y), last));
  }

  lemma TwoGroupsShape(ts: seq<Timer>, k1: string, m1: seq<string>, k2: string, m2: seq<string>, matches: (string, string) -> bool)
    ensures GroupTallies(ts, [Slot(k1, m1), Slot(k2, m2)], matches)
         == [Slot(k1, TimersTally(ZERO_TALLY, ts, m1, matches)), Slot(k2, TimersTally(ZERO_TALLY, ts, m2, matches))]
  {
  }

  /** 'tallies with 2 different groups'. */
  lemma TwoGroups(matches: (string, string) -> bool)
    requires TestMatches(matches)
    ensures TalliesSpec(2021, TestSave(DEV_HI, false), [Slot("dev", ["^dev:"]), Slot("w", ["^w:"])], matches)
         == Some([Slot("dev", Tally(1, Num(5766))), Slot("w", Tally(1, Num(9366)))])
  {
    TestYearTimers(DEV_HI, false);
    var ts := YearTimers(TestSave(DEV_HI, false)[0].val);
    assert ts == [DEV_HI, LDEV, YOGS];
    LiteralTimers();
    OnlyFirst(ts, "^dev:", matches);
    OnlyLast(ts, "^w:", matches);
    TimersTallyCounts(ts, ["^dev:"], matches);
    TimersTallyCounts(ts, ["^w:"], matches);
    TwoGroupsShape(ts, "dev", ["^dev:"], "w", ["^w:"], matches);
  }

  /** 'tallies with 2 matching timers'. */
  lemma TwoMatches(matches: (string, string) -> bool)
    requires TestMatches(matches)
    ensures TalliesSpec(2021, TestSave(DEV_HI, true), [Slot("dev", ["^dev:"])], matches)
         == Some([Slot("dev", Tally(2, Num(5766 * 2)))])
  {
    TestYearTimers(DEV_HI, true);
    var ts := YearTimers(TestSave(DEV_HI, true)[0].val);
    var first := [DEV_HI, LDEV, YOGS];
    assert ts == first + [DEV_BYE];
    LiteralTimers();
    OnlyFirst(first, "^dev:", matches);
    HitsSnoc(first, DEV_BYE, ["^dev:"], matches);
    OneMatcher(DEV_BYE, "^dev:", matches);
    TimersTallyCounts(ts, ["^dev:"], matches);
    SingleGroup(ts, "dev", ["^dev:"], matches);
  }

  /** The first timer of the tests, still running: the client sent its end
      as null. */
  const DEV_RUNNING := Timer("", START, Null, "dev:hi", "")

  /** A running timer that matches is counted, and its seconds run from its
      start back to the epoch. */
  lemma RunningTimerCountsBack(matches: (string, string) -> bool)
    requires TestMatches(matches)
    ensures TalliesSpec(2021, TestSave(DEV_RUNNING, false), [Slot("dev", ["^dev:"])], matches)
         == Some([Slot("dev", Tally(1, Num(-1635840846)))])
  {
    TestYearTimers(DEV_RUNNING, false);
    var ts := YearTimers(TestSave(DEV_RUNNING, false)[0].val);
    assert ts == [DEV_RUNNING, LDEV, YOGS];
    LiteralTimers();
    assert TimerSeconds(DEV_RUNNING) == Num(-1635840846);
    OnlyFirst(ts, "^dev:", matches);
    TimersTallyCounts(ts, ["^dev:"], matches);
    SingleGroup(ts, "dev", ["^dev:"], matches);
  }

  /** 'countRunning empty array', 'zero running timers', 'one running timer'. */
  lemma CountRunningExamples(t: Timer)
    ensures RunningSpec([]) == Some(0)
    ensures t.end.At? ==> RunningSpec([Entry(New, Some(t))]) == Some(0)
    ensures t.end == Null ==> RunningSpec([Entry(New, Some(t))]) == Some(1)
  {
    assert [Entry(New, Some(t))][..0] == [];
  }
}
