/** The client's elapsed-time display (`client/src/components/TimerElapsed.js`):
    `calculateElapsed` writes the time between two instants as H:MM:SS, and
    the component decides from its `end` prop whether the timer is running.
    Instants are milliseconds since the epoch, as `Date.getTime()` returns. */
module TimerElapsed {
  import opened Model
  import opened Utils

  /** The three numbers `calculateElapsed` writes. */
  datatype Parts = Parts(hours: int, minutes: int, seconds: int)

  /** Hours first (3600000 ms each), then minutes of what is left (60000 ms
      each), then seconds of what is left (1000 ms each); `Math.floor` on a
      positive divisor is Dafny's `/`. */
  function ElapsedParts(ms: int): Parts {
    var hours := ms / 3600000;
    var afterHours := ms - hours * 3600000;
    var minutes := afterHours / 60000;
    var afterMinutes := afterHours - minutes * 60000;
    Parts(hours, minutes, afterMinutes / 1000)
  }

  /** `calculateElapsed(start, end)`: hours unpadded, minutes and seconds
      with a leading '0' below 10. */
  function CalculateElapsed(start: int, end: int): string {
    Display(ElapsedParts(end - start))
  }

  function Display(p: Parts): string {
    DecimalString(p.hours) + ":" + Pad(p.minutes) + ":" + Pad(p.seconds)
  }

  /** `props.start && !props.end`: the first value of `isRunning`. The `end`
      prop is the timer's end as the server sends it. */
  predicate InitiallyRunning(start: Option<int>, end: End) {
    start.Some? && !end.At?
  }

  /** The value the effect on `props.end` gives `isRunning`: `end === null`. */
  predicate RunningAfterEffect(end: End) {
    end == Null
  }

  /** The first value of `elapsed`: the difference when there is an end,
      '0:00:00' otherwise. */
  function InitialElapsed(start: int, end: End): string {
    if end.At? then CalculateElapsed(start, end.time) else "0:00:00"
  }

  // ---------------------------------------------------------------------------
  // Reading a display back

  /** An integer as JavaScript writes it: an optional '-' and decimal digits. */
  function ParseInt(s: string): Option<int> {
    if |s| >= 2 && s[0] == '-' && AllDigits(s[1..]) then Some(0 - ParseNat(s[1..]) as int)
    else if |s| >= 1 && AllDigits(s) then Some(ParseNat(s) as int)
    else None
  }

  /** The whole seconds an H:MM:SS display stands for, or None when the
      string does not have that shape. */
  function ReadElapsed(r: string): Option<int> {
    if |r| < 7 || r[|r| - 6] != ':' || r[|r| - 3] != ':' then None
    else
      var mm := r[|r| - 5..|r| - 3];
      var ss := r[|r| - 2..];
      if !AllDigits(mm) || !AllDigits(ss) then None
      else
        match ParseInt(r[..|r| - 6])
        case None => None
        case Some(h) => Some(h * 3600 + ParseNat(mm) * 60 + ParseNat(ss))
  }

  // ---------------------------------------------------------------------------
  // Properties

  /** Minutes and seconds are 0..59, hours are `floor(ms / 3600000)` without
      bound, and together they give the whole seconds of `ms`: the
      milliseconds below a second are dropped. */
  lemma ElapsedPartsMeaning(ms: int)
    ensures var p := ElapsedParts(ms);
      && 0 <= p.minutes < 60 && 0 <= p.seconds < 60
      && p.hours == ms / 3600000
      && p.hours * 3600 + p.minutes * 60 + p.seconds == ms / 1000
  {
    var h := ms / 3600000;
    var a := ms - h * 3600000;
    assert 0 <= a < 3600000;
    var m := a / 60000;
    var b := a - m * 60000;
    assert 0 <= m < 60 by {
      assert m * 60000 <= a < 60 * 60000;
    }
    assert 0 <= b < 60000;
    var s := b / 1000;
    assert 0 <= s < 60 by {
      assert s * 1000 <= b < 60 * 1000;
    }
    var c := b - s * 1000;
    assert 0 <= c < 1000;
    assert ms == (h * 3600 + m * 60 + s) * 1000 + c;
    WholeSeconds(ms, h * 3600 + m * 60 + s, c);
  }

  /** The decomposition is the only one with minutes and seconds in 0..59. */
  lemma ElapsedPartsUnique(ms: int, h: int, m: int, s: int)
    requires 0 <= m < 60 && 0 <= s < 60
    requires h * 3600 + m * 60 + s == ms / 1000
    ensures ElapsedParts(ms) == Parts(h, m, s)
  {
    ElapsedPartsMeaning(ms);
    var p := ElapsedParts(ms);
    var t := ms / 1000;
    assert 0 <= m * 60 + s < 3600 && 0 <= p.minutes * 60 + p.seconds < 3600;
    assert h == t / 3600 by {
      WholeSeconds(t, h, m * 60 + s);
    }
    assert p.hours == t / 3600 by {
      WholeSeconds(t, p.hours, p.minutes * 60 + p.seconds);
    }
    assert m * 60 + s == p.minutes * 60 + p.seconds;
    WholeSeconds(m * 60 + s, m, s);
    WholeSeconds(m * 60 + s, p.minutes, p.seconds);
  }

  /** x == q * d + r with r in 0..d-1 fixes q as x / d; d is 1000, 3600 or 60. */
  lemma WholeSeconds(x: int, q: int, r: int)
    requires (0 <= r < 1000 && x == q * 1000 + r) || (0 <= r < 3600 && x == q * 3600 + r) || (0 <= r < 60 && x == q * 60 + r)
    ensures 0 <= r < 1000 && x == q * 1000 + r ==> q == x / 1000
    ensures 0 <= r < 3600 && x == q * 3600 + r ==> q == x / 3600
    ensures 0 <= r < 60 && x == q * 60 + r ==> q == x / 60
  {
  }

  /** What DecimalString writes, ParseInt reads back. */
  lemma ParseDecimalString(n: int)
    ensures ParseInt(DecimalString(n)) == Some(n)
  {
    if n < 0 {
      ParseNegative(-n);
    } else {
      ParseNatString(n);
      ParseDigits(NatString(n));
    }
  }

  lemma ParseNegative(k: nat)
    requires k > 0
    ensures ParseInt(DecimalString(0 - k)) == Some(0 - k)
  {
    assert DecimalString(0 - k) == "-" + NatString(k);
    ParseNatString(k);
    ParseMinus(NatString(k));
  }

  lemma ParseDigits(digits: string)
    requires |digits| >= 1 && AllDigits(digits)
    ensures ParseInt(digits) == Some(ParseNat(digits) as int)
  {
    assert IsDigit(digits[0]);
  }

  lemma ParseMinus(digits: string)
    requires |digits| >= 1 && AllDigits(digits)
    ensures ParseInt("-" + digits) == Some(0 - ParseNat(digits) as int)
  {
    assert ("-" + digits)[1..] == digits;
  }

  /** The display reads back as the whole seconds between start and end. */
  lemma ElapsedRoundTrip(start: int, end: int)
    ensures ReadElapsed(CalculateElapsed(start, end)) == Some((end - start) / 1000)
  {
    var p := ElapsedParts(end - start);
    ElapsedPartsMeaning(end - start);
    DisplayReads(p);
  }

  /** The display of any hours, minutes and seconds below 60 reads back as
      their total in seconds. */
  lemma DisplayReads(p: Parts)
    requires 0 <= p.minutes < 60 && 0 <= p.seconds < 60
    ensures ReadElapsed(Display(p)) == Some(p.hours * 3600 + p.minutes * 60 + p.seconds)
  {
    DisplayFields(p);
  }

  /** The fields of that display: two digits each for minutes and seconds,
      which read back as the numbers, and the hours read back as the hours. */
  lemma DisplayFields(p: Parts)
    requires 0 <= p.minutes < 60 && 0 <= p.seconds < 60
    ensures var r := Display(p);
      && ReadElapsed(r) == Some(p.hours * 3600 + p.minutes * 60 + p.seconds)
      && |r| >= 7
      && AllDigits(r[|r| - 5..|r| - 3]) && ParseNat(r[|r| - 5..|r| - 3]) == p.minutes
      && AllDigits(r[|r| - 2..]) && ParseNat(r[|r| - 2..]) == p.seconds
      && ParseInt(r[..|r| - 6]) == Some(p.hours)
  {
    PadTwoDigits(p.minutes);
    PadTwoDigits(p.seconds);
    ParseDecimalString(p.hours);
    ReadDisplay(DecimalString(p.hours), Pad(p.minutes), Pad(p.seconds));
  }

  /** Where the fields of an H:MM:SS display sit, and what reading it gives. */
  lemma ReadDisplay(hs: string, mm: string, ss: string)
    requires |hs| >= 1 && |mm| == 2 && |ss| == 2 && AllDigits(mm) && AllDigits(ss)
    ensures var r := hs + ":" + mm + ":" + ss;
      && |r| >= 7 && r[..|r| - 6] == hs && r[|r| - 5..|r| - 3] == mm && r[|r| - 2..] == ss
      && ReadElapsed(r) == if ParseInt(hs).None? then None else Some(ParseInt(hs).value * 3600 + ParseNat(mm) * 60 + ParseNat(ss))
  {
    var r := hs + ":" + mm + ":" + ss;
    var n := |r|;
    assert n == |hs| + 6;
    assert r[..n - 6] == hs;
    assert r[n - 6] == ':' && r[n - 3] == ':';
    assert r[n - 5..n - 3] == mm;
    assert r[n - 2..] == ss;
  }

  /** No time gives '0:00:00', and so does less than a second. */
  lemma ZeroElapsed(start: int, end: int)
    requires start <= end < start + 1000
    ensures CalculateElapsed(start, end) == "0:00:00"
  {
    var p := ElapsedParts(end - start);
    assert p == Parts(0, 0, 0);
    assert DecimalString(0) == "0";
    assert Pad(0) == "00";
  }

  /** A timer with an end date shows the whole seconds from start to end. */
  lemma EndedElapsed(start: int, time: int)
    ensures ReadElapsed(InitialElapsed(start, At(time))) == Some((time - start) / 1000)
  {
    ElapsedRoundTrip(start, time);
  }

  /** A timer without an end starts at '0:00:00'. A timer with a start and no
      end date starts running, and so shows '0:00:00' until its first tick;
      after the effect it is running only for a `null` end, so an absent end
      stops it. A timer with no start never runs. */
  lemma InitialState(start: int, end: End)
    ensures !end.At? ==> InitialElapsed(start, end) == "0:00:00"
    ensures InitiallyRunning(Some(start), end) ==> InitialElapsed(start, end) == "0:00:00"
    ensures InitiallyRunning(Some(start), end) <==> end == Null || end == Undefined
    ensures InitiallyRunning(Some(start), end) && !RunningAfterEffect(end) <==> end == Undefined
    ensures !InitiallyRunning(None, end)
  {
  }
}
