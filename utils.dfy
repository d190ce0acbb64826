/** Array and date helpers shared by the server modules, and the JavaScript
    behaviours they rely on: `findIndex`, `splice` and number-to-string. */
module Utils {
  import opened Model

  // ---------------------------------------------------------------------------
  // Arrays

  /** `array.findIndex((t) => key(t) === value)`. */
  function IndexOfKey<T>(s: seq<T>, key: T -> string, value: string): (r: int)
    ensures -1 <= r < |s|
    ensures r == -1 <==> forall i :: 0 <= i < |s| ==> key(s[i]) != value
    ensures r >= 0 ==> key(s[r]) == value && forall i :: 0 <= i < r ==> key(s[i]) != value
  {
    if s == [] then -1
    else if key(s[0]) == value then 0
    else
      var r := IndexOfKey(s[1..], key, value);
      if r == -1 then -1 else r + 1
  }

  predicate HasKey<T>(s: seq<T>, key: T -> string, value: string) {
    exists i :: 0 <= i < |s| && key(s[i]) == value
  }

  /** Where `splice(start, ...)` starts: a negative start counts from the end,
      and both ends are clamped to the array. */
  function SpliceStart(len: nat, start: int): (r: nat)
    ensures r <= len
  {
    if start < 0 then (if len + start < 0 then 0 else len + start)
    else if start > len then len
    else start
  }

  /** `s.splice(start, 1)`: the array without the element at the clamped start,
      unchanged when the start is past the end. */
  function SpliceOut<T>(s: seq<T>, start: int): seq<T> {
    var i := SpliceStart(|s|, start);
    if i < |s| then s[..i] + s[i + 1..] else s
  }

  /** `s.splice(start, 0, x)`: x inserted before the clamped start. */
  function SpliceIn<T>(s: seq<T>, start: int, x: T): seq<T> {
    var i := SpliceStart(|s|, start);
    s[..i] + [x] + s[i..]
  }

  /** With an index inside the array, splice removes exactly that element and
      the later ones shift down one place. */
  lemma SpliceOutAt<T>(s: seq<T>, i: int)
    requires 0 <= i < |s|
    ensures |SpliceOut(s, i)| == |s| - 1
    ensures forall k :: 0 <= k < i ==> SpliceOut(s, i)[k] == s[k]
    ensures forall k :: i <= k < |s| - 1 ==> SpliceOut(s, i)[k] == s[k + 1]
    ensures multiset(SpliceOut(s, i)) + multiset{s[i]} == multiset(s)
  {
    assert s == s[..i] + [s[i]] + s[i + 1..];
  }

  /** Inserting and then removing at the same clamped place gives the array
      back, and the inserted element sits at that place. */
  lemma SpliceInOut<T>(s: seq<T>, start: int, x: T)
    ensures |SpliceIn(s, start, x)| == |s| + 1
    ensures SpliceIn(s, start, x)[SpliceStart(|s|, start)] == x
    ensures SpliceOut(SpliceIn(s, start, x), SpliceStart(|s|, start)) == s
    ensures multiset(SpliceIn(s, start, x)) == multiset(s) + multiset{x}
  {
    var i := SpliceStart(|s|, start);
    var r := SpliceIn(s, start, x);
    assert r == s[..i] + [x] + s[i..];
    assert SpliceStart(|r|, i) == i;
    assert r[..i] == s[..i] && r[i + 1..] == s[i..];
    assert s == s[..i] + s[i..];
  }

  /** `s[s.findIndex((t) => key(t) === value)] = x`. When nothing matches, the
      index is -1, which JavaScript stores as an ordinary property beside the
      elements, so the elements stay as they were. */
  function ReplaceFirst<T>(s: seq<T>, key: T -> string, value: string, x: T): seq<T> {
    var k := IndexOfKey(s, key, value);
    if k == -1 then s else s[k := x]
  }

  /** Only the first match is replaced; with no match nothing changes, and a
      replacement with the same key keeps every element's key. */
  lemma ReplaceFirstEffect<T>(s: seq<T>, key: T -> string, value: string, x: T)
    ensures |ReplaceFirst(s, key, value, x)| == |s|
    ensures var k := IndexOfKey(s, key, value);
      forall j :: 0 <= j < |s| && j != k ==> ReplaceFirst(s, key, value, x)[j] == s[j]
    ensures HasKey(s, key, value) ==> ReplaceFirst(s, key, value, x)[IndexOfKey(s, key, value)] == x
    ensures !HasKey(s, key, value) ==> ReplaceFirst(s, key, value, x) == s
    ensures key(x) == value ==> forall j :: 0 <= j < |s| ==> key(ReplaceFirst(s, key, value, x)[j]) == key(s[j])
  {
    var k := IndexOfKey(s, key, value);
    if k != -1 {
      assert ReplaceFirst(s, key, value, x)[k] == x;
    }
  }

  /** The array after `tryDeleteObject(value, array, key)`. */
  function DeleteFirst<T>(s: seq<T>, key: T -> string, value: string): seq<T> {
    var i := IndexOfKey(s, key, value);
    if i == -1 then s else s[..i] + s[i + 1..]
  }

  /** `tryDeleteObject(value, array, key)`: removes the first element whose key
      is `value` and reports whether there was one. The source's `key`
      defaults to 'id'; here the caller passes the field as a function. */
  method TryDeleteObject<T>(value: string, items: seq<T>, key: T -> string) returns (deleted: bool, rest: seq<T>)
    ensures deleted <==> HasKey(items, key, value)
    ensures deleted ==> |rest| == |items| - 1
    ensures deleted ==> exists i :: (0 <= i < |items| && key(items[i]) == value
      && (forall j :: 0 <= j < i ==> key(items[j]) != value)
      && rest == items[..i] + items[i + 1..])
    ensures !deleted ==> rest == items
    ensures rest == DeleteFirst(items, key, value)
  {
    var index := IndexOfKey(items, key, value);
    if index != -1 {
      rest := SpliceOut(items, index);
      deleted := true;
    } else {
      rest := items;
      deleted := false;
    }
  }

  /** Deleting removes one element (the first match) and keeps the order of the
      rest; nothing changes when no element matches. */
  lemma {:induction false} DeleteFirstEffect<T>(s: seq<T>, key: T -> string, value: string)
    ensures HasKey(s, key, value) ==>
      var i := IndexOfKey(s, key, value);
      |DeleteFirst(s, key, value)| == |s| - 1
      && multiset(DeleteFirst(s, key, value)) + multiset{s[i]} == multiset(s)
      && (forall k :: 0 <= k < i ==> DeleteFirst(s, key, value)[k] == s[k])
      && (forall k :: i <= k < |s| - 1 ==> DeleteFirst(s, key, value)[k] == s[k + 1])
    ensures !HasKey(s, key, value) ==> DeleteFirst(s, key, value) == s
  {
    var i := IndexOfKey(s, key, value);
    if i >= 0 {
      SpliceOutAt(s, i);
    }
  }

  // ---------------------------------------------------------------------------
  // Numbers as text

  predicate IsDigit(c: char) { '0' <= c <= '9' }

  predicate AllDigits(s: string) { forall i :: 0 <= i < |s| ==> IsDigit(s[i]) }

  function DigitChar(d: nat): char
    requires d < 10
  {
    "0123456789"[d]
  }

  function DigitValue(c: char): nat
    requires IsDigit(c)
  {
    c as int - '0' as int
  }

  /** How JavaScript writes a non-negative integer: decimal, no leading zeros. */
  function NatString(n: nat): (s: string)
    ensures |s| >= 1 && AllDigits(s)
  {
    if n < 10 then [DigitChar(n)] else NatString(n / 10) + [DigitChar(n % 10)]
  }

  /** How JavaScript writes an integer. */
  function DecimalString(n: int): string {
    if n < 0 then "-" + NatString(-n) else NatString(n)
  }

  /** The value of a string of decimal digits. */
  function ParseNat(s: string): nat
    requires AllDigits(s)
  {
    if s == [] then 0 else ParseNat(s[..|s| - 1]) * 10 + DigitValue(s[|s| - 1])
  }

  /** Reading back what NatString wrote gives the number. */
  lemma {:induction false} ParseNatString(n: nat)
    ensures ParseNat(NatString(n)) == n
  {
    var s := NatString(n);
    if n >= 10 {
      assert s[..|s| - 1] == NatString(n / 10);
      ParseNatString(n / 10);
    }
  }

  /** A number of four decimal digits, such as a year 1000..9999, is written
      with exactly four characters. */
  lemma NatStringFourDigits(n: nat)
    requires 1000 <= n <= 9999
    ensures |NatString(n)| == 4
  {
    var hundreds := n / 10;
    var tens := hundreds / 10;
    var ones := tens / 10;
    assert 100 <= hundreds <= 999 && 10 <= tens <= 99 && 1 <= ones <= 9;
    assert |NatString(ones)| == 1;
    assert |NatString(tens)| == |NatString(ones)| + 1;
    assert |NatString(hundreds)| == |NatString(tens)| + 1;
    assert |NatString(n)| == |NatString(hundreds)| + 1;
  }

  /** getDateStr's `pad`: numbers up to 9 get a leading '0'. */
  function Pad(n: int): string {
    if n <= 9 then "0" + DecimalString(n) else DecimalString(n)
  }

  /** Any value 0..99 is padded to exactly two digits that read back as it. */
  lemma PadTwoDigits(n: int)
    requires 0 <= n <= 99
    ensures |Pad(n)| == 2 && AllDigits(Pad(n)) && ParseNat(Pad(n)) == n
  {
    ParseNatString(n);
    if n <= 9 {
      assert Pad(n) == ['0', DigitChar(n)];
      assert Pad(n)[..1] == "0";
    } else {
      assert NatString(n) == NatString(n / 10) + [DigitChar(n % 10)];
    }
  }

  // ---------------------------------------------------------------------------
  // Dates

  /** What the getters of a JavaScript `Date` return in local time: `month` is
      `getMonth()`, which counts from 0. Parsing and time zones are left to
      the caller, who supplies these components. */
  datatype DateParts = DateParts(fullYear: int, month: int, date: int, hours: int, minutes: int, seconds: int)

  predicate ValidParts(d: DateParts) {
    && 0 <= d.month <= 11 && 1 <= d.date <= 31
    && 0 <= d.hours <= 23 && 0 <= d.minutes <= 59 && 0 <= d.seconds <= 59
  }

  datatype YearMonthDay = YearMonthDay(year: int, month: int, day: int)

  /** `getYearMonthDay(date)`: year, calendar month counted from 1, day of month. */
  function GetYearMonthDay(d: DateParts): (r: YearMonthDay)
    ensures r.year == d.fullYear && r.day == d.date
    ensures r.month - 1 == d.month
    ensures ValidParts(d) ==> 1 <= r.month <= 12 && 1 <= r.day <= 31
  {
    YearMonthDay(d.fullYear, d.month + 1, d.date)
  }

  /** `getDateStr(date)`, as written: `yyyy-mm-dd_HH-MM-SS` where the month
      field is `getMonth()`, so counted from 0. */
  function GetDateStr(d: DateParts): string {
    DecimalString(d.fullYear) + "-" + Pad(d.month) + "-" + Pad(d.date) + "_"
      + Pad(d.hours) + "-" + Pad(d.minutes) + "-" + Pad(d.seconds)
  }

  /** The same string with a month field counted from 1, as `getYearMonthDay`
      and the client's own date string count it. */
  function GetDateStrOneBased(d: DateParts): string {
    var ymd := GetYearMonthDay(d);
    DecimalString(d.fullYear) + "-" + Pad(ymd.month) + "-" + Pad(d.date) + "_"
      + Pad(d.hours) + "-" + Pad(d.minutes) + "-" + Pad(d.seconds)
  }

  /** Shape of a date string built from a four-digit year and fields 0..99:
      19 characters, separators at fixed places, and each field reads back as
      the number written into it. */
  predicate DateStrReads(s: string, year: int, month: int, d: DateParts) {
    && |s| == 19
    && s[4] == '-' && s[7] == '-' && s[10] == '_' && s[13] == '-' && s[16] == '-'
    && AllDigits(s[..4]) && ParseNat(s[..4]) == year
    && AllDigits(s[5..7]) && ParseNat(s[5..7]) == month
    && AllDigits(s[8..10]) && ParseNat(s[8..10]) == d.date
    && AllDigits(s[11..13]) && ParseNat(s[11..13]) == d.hours
    && AllDigits(s[14..16]) && ParseNat(s[14..16]) == d.minutes
    && AllDigits(s[17..19]) && ParseNat(s[17..19]) == d.seconds
  }

  lemma DateStrLayout(y: string, mo: string, da: string, h: string, mi: string, se: string)
    requires |y| == 4 && |mo| == 2 && |da| == 2 && |h| == 2 && |mi| == 2 && |se| == 2
    ensures var s := y + "-" + mo + "-" + da + "_" + h + "-" + mi + "-" + se;
      |s| == 19 && s[4] == '-' && s[7] == '-' && s[10] == '_' && s[13] == '-' && s[16] == '-'
      && s[..4] == y && s[5..7] == mo && s[8..10] == da && s[11..13] == h && s[14..16] == mi && s[17..19] == se
  {
    var front := y + "-" + mo + "-" + da + "_";
    var back := h + "-" + mi + "-" + se;
    var s := front + back;
    assert s == y + "-" + mo + "-" + da + "_" + h + "-" + mi + "-" + se;
    assert |front| == 11 && s[..11] == front && s[11..] == back;
    assert front[..4] == y && front[5..7] == mo && front[8..10] == da;
    assert back[..2] == h && back[3..5] == mi && back[6..8] == se;
    assert s[11..13] == back[..2] && s[14..16] == back[3..5] && s[17..19] == back[6..8];
  }

  /** getDateStr as written: the month field reads back as `getMonth()`, one
      less than the calendar month that getYearMonthDay reports. */
  lemma DateStrMonthCountsFromZero(d: DateParts)
    requires ValidParts(d) && 1000 <= d.fullYear <= 9999
    ensures DateStrReads(GetDateStr(d), d.fullYear, GetYearMonthDay(d).month - 1, d)
  {
    NatStringFourDigits(d.fullYear);
    ParseNatString(d.fullYear);
    PadTwoDigits(d.month); PadTwoDigits(d.date); PadTwoDigits(d.hours);
    PadTwoDigits(d.minutes); PadTwoDigits(d.seconds);
    DateStrLayout(DecimalString(d.fullYear), Pad(d.month), Pad(d.date), Pad(d.hours), Pad(d.minutes), Pad(d.seconds));
  }

  /** A concrete instance: 6 December 2022 is written with month "11". */
  lemma DecemberWrittenAsEleven()
    ensures GetDateStr(DateParts(2022, 11, 6, 20, 18, 6))[5..7] == "11"
    ensures GetYearMonthDay(DateParts(2022, 11, 6, 20, 18, 6)).month == 12
  {
    var d := DateParts(2022, 11, 6, 20, 18, 6);
    DateStrMonthCountsFromZero(d);
    PadTwoDigits(11);
    assert Pad(11) == "11";
  }

  /** The one-based string is a faithful yyyy-mm-dd_HH-MM-SS rendering: its
      month field reads back as the calendar month. */
  lemma DateStrOneBasedRoundTrip(d: DateParts)
    requires ValidParts(d) && 1000 <= d.fullYear <= 9999
    ensures DateStrReads(GetDateStrOneBased(d), d.fullYear, GetYearMonthDay(d).month, d)
  {
    var ymd := GetYearMonthDay(d);
    NatStringFourDigits(d.fullYear);
    ParseNatString(d.fullYear);
    PadTwoDigits(ymd.month); PadTwoDigits(d.date); PadTwoDigits(d.hours);
    PadTwoDigits(d.minutes); PadTwoDigits(d.seconds);
    DateStrLayout(DecimalString(d.fullYear), Pad(ymd.month), Pad(d.date), Pad(d.hours), Pad(d.minutes), Pad(d.seconds));
  }
}
