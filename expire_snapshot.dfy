/**
 * zfs-expire-snapshot.py: parse `auto-YYYYMMDD[-]HHMM` snapshot names and
 * destroy those that every one of their retention classes has outlived.
 *
 * The thresholds (`now` minus the hourly, daily and weekly retention) are
 * inputs, as instants in microseconds since 0001-01-01 00:00; the listing
 * is the text `zfs list` printed.
 */
module ExpireSnapshot {
  import opened Wrappers
  import opened Lines
  import opened Calendar

  // ---------------------------------------------------------------------
  // Digits

  predicate IsDigit(c: char)
  {
    '0' <= c <= '9'
  }

  predicate AllDigits(s: string)
  {
    forall i :: 0 <= i < |s| ==> IsDigit(s[i])
  }

  function Pow10(n: nat): (p: nat)
    ensures p >= 1
  {
    if n == 0 then 1 else 10 * Pow10(n - 1)
  }

  lemma DigitsSlice(s: string, i: nat, j: nat)
    requires AllDigits(s) && i <= j <= |s|
    ensures AllDigits(s[i..j])
  {
    assert forall k :: 0 <= k < j - i ==> s[i..j][k] == s[i + k];
  }

  /** `int(s)` of a string of decimal digits. */
  function DigitsValue(s: string): (n: nat)
    requires AllDigits(s)
    ensures n < Pow10(|s|)
  {
    if |s| == 0 then 0
    else DigitsValue(s[..|s| - 1]) * 10 + (s[|s| - 1] as int - '0' as int)
  }

  /** The `width` lowest decimal digits of `n`, zero-padded. */
  function Digits(n: nat, width: nat): (s: string)
    ensures |s| == width && AllDigits(s)
  {
    if width == 0 then ""
    else Digits(n / 10, width - 1) + [('0' as int + n % 10) as char]
  }

  lemma {:induction false} DigitsValueOfDigits(n: nat, width: nat)
    requires n < Pow10(width)
    ensures DigitsValue(Digits(n, width)) == n
  {
    if width > 0 {
      DigitsValueOfDigits(n / 10, width - 1);
      var s := Digits(n, width);
      assert s[..|s| - 1] == Digits(n / 10, width - 1);
    }
  }

  lemma {:induction false} DigitsOfDigitsValue(s: string)
    requires AllDigits(s)
    ensures Digits(DigitsValue(s), |s|) == s
  {
    if |s| > 0 {
      var init := s[..|s| - 1];
      DigitsOfDigitsValue(init);
      var n := DigitsValue(s);
      var d := s[|s| - 1] as int - '0' as int;
      assert n / 10 == DigitsValue(init) && n % 10 == d;
      assert init + [s[|s| - 1]] == s;
    }
  }

  // ---------------------------------------------------------------------
  // The name pattern `auto-(\d{4})(\d{2})(\d{2})-?(\d{2})(\d{2})`

  /** The five captured fields, not yet checked as a date. */
  datatype Stamp = Stamp(year: int, month: int, day: int, hour: int, minute: int)

  /** The fields a match can capture: four digits, then two, two, two and two. */
  predicate InRange(st: Stamp)
  {
    0 <= st.year < 10000 && 0 <= st.month < 100 && 0 <= st.day < 100 &&
    0 <= st.hour < 100 && 0 <= st.minute < 100
  }

  /** Where the time digits start: after the optional `-`. */
  function ClockStart(name: string): nat
    requires |name| >= 14
  {
    if name[13] == '-' then 14 else 13
  }

  /** The five groups of a match, from its eight date digits and four time digits. */
  function ReadStamp(date: string, clock: string): Stamp
    requires |date| == 8 && |clock| == 4 && AllDigits(date) && AllDigits(clock)
  {
    DigitsSlice(date, 0, 4);
    DigitsSlice(date, 4, 6);
    DigitsSlice(date, 6, 8);
    DigitsSlice(clock, 0, 2);
    DigitsSlice(clock, 2, 4);
    Stamp(DigitsValue(date[0..4]), DigitsValue(date[4..6]), DigitsValue(date[6..8]),
          DigitsValue(clock[0..2]), DigitsValue(clock[2..4]))
  }

  /** `tsreg.match(name)`: anchored at the start only, so anything may follow. */
  function MatchName(name: string): (r: Option<Stamp>)
    ensures r.Some? ==> |name| >= 17 && name[..5] == "auto-" && AllDigits(name[5..13])
  {
    if |name| >= 17 && name[..5] == "auto-" && AllDigits(name[5..13]) then
      var c := ClockStart(name);
      if |name| >= c + 4 && AllDigits(name[c..c + 4]) then
        Some(ReadStamp(name[5..13], name[c..c + 4]))
      else None
    else None
  }

  function DateDigits(st: Stamp): string
    requires InRange(st)
  {
    Digits(st.year, 4) + Digits(st.month, 2) + Digits(st.day, 2)
  }

  function ClockDigits(st: Stamp): string
    requires InRange(st)
  {
    Digits(st.hour, 2) + Digits(st.minute, 2)
  }

  /** The name the pattern reads `st` from, with or without the dash before the time. */
  function FormatName(st: Stamp, dash: bool): string
    requires InRange(st)
  {
    "auto-" + DateDigits(st) + (if dash then "-" else "") + ClockDigits(st)
  }

  lemma DateDigitsValues(st: Stamp)
    requires InRange(st)
    ensures var s := DateDigits(st);
            && |s| == 8 && AllDigits(s)
            && DigitsValue(s[0..4]) == st.year
            && DigitsValue(s[4..6]) == st.month
            && DigitsValue(s[6..8]) == st.day
  {
    var s := DateDigits(st);
    assert s[0..4] == Digits(st.year, 4);
    assert s[4..6] == Digits(st.month, 2);
    assert s[6..8] == Digits(st.day, 2);
    assert Pow10(2) == 100;
    assert Pow10(4) == 10000;
    DigitsValueOfDigits(st.year, 4);
    DigitsValueOfDigits(st.month, 2);
    DigitsValueOfDigits(st.day, 2);
  }

  lemma ClockDigitsValues(st: Stamp)
    requires InRange(st)
    ensures var s := ClockDigits(st);
            && |s| == 4 && AllDigits(s)
            && DigitsValue(s[0..2]) == st.hour
            && DigitsValue(s[2..4]) == st.minute
  {
    var s := ClockDigits(st);
    assert s[0..2] == Digits(st.hour, 2);
    assert s[2..4] == Digits(st.minute, 2);
    assert Pow10(2) == 100;
    DigitsValueOfDigits(st.hour, 2);
    DigitsValueOfDigits(st.minute, 2);
  }

  /** Every formatted name matches, with its own fields, whatever text follows it. */
  lemma MatchFormatted(st: Stamp, dash: bool, rest: string)
    requires InRange(st)
    ensures MatchName(FormatName(st, dash) + rest) == Some(st)
  {
    var date := DateDigits(st);
    var sep := if dash then "-" else "";
    var clock := ClockDigits(st);
    var name := FormatName(st, dash) + rest;
    DateDigitsValues(st);
    ClockDigitsValues(st);
    assert name == "auto-" + date + (sep + clock + rest);
    SliceThree("auto-", date, sep + clock + rest);
    var c := 13 + |sep|;
    assert name[13..] == sep + clock + rest;
    assert name[c..c + 4] == clock;
    if !dash {
      assert IsDigit(clock[0]);
    }
  }

  /** A digit slice reads back to itself. */
  lemma DigitsSliceBack(s: string, i: nat, j: nat)
    requires AllDigits(s) && i <= j <= |s|
    ensures AllDigits(s[i..j]) && Digits(DigitsValue(s[i..j]), j - i) == s[i..j]
  {
    DigitsSlice(s, i, j);
    DigitsOfDigitsValue(s[i..j]);
  }

  /** The groups read from any digits are in range and format back to those digits. */
  lemma ReadStampDigits(date: string, clock: string)
    requires |date| == 8 && |clock| == 4 && AllDigits(date) && AllDigits(clock)
    ensures InRange(ReadStamp(date, clock))
    ensures DateDigits(ReadStamp(date, clock)) == date
    ensures ClockDigits(ReadStamp(date, clock)) == clock
  {
    assert Pow10(2) == 100;
    assert Pow10(4) == 10000;
    DigitsSliceBack(date, 0, 4);
    DigitsSliceBack(date, 4, 6);
    DigitsSliceBack(date, 6, 8);
    DigitsSliceBack(clock, 0, 2);
    DigitsSliceBack(clock, 2, 4);
    assert date == date[0..4] + date[4..6] + date[6..8];
    assert clock == clock[0..2] + clock[2..4];
  }

  /** Every matching name starts with the formatted name of the fields it yields. */
  lemma MatchedIsFormatted(name: string)
    requires MatchName(name).Some?
    ensures InRange(MatchName(name).value)
    ensures FormatName(MatchName(name).value, name[13] == '-') <= name
  {
    var c := ClockStart(name);
    ReadStampDigits(name[5..13], name[c..c + 4]);
    var sep := if name[13] == '-' then "-" else "";
    assert sep == name[13..c];
    assert name[..13] == name[..5] + name[5..13];
    assert name[..c] == name[..13] + name[13..c];
    assert name[..c + 4] == name[..c] + name[c..c + 4];
  }

  // ---------------------------------------------------------------------
  // parse_snapshot

  predicate ValidStamp(st: Stamp)
  {
    ValidDateTime(st.year, st.month, st.day, st.hour, st.minute)
  }

  predicate IsClass(c: char)
  {
    c == 'h' || c == 'd' || c == 'w'
  }

  /** The class string: hourly always, daily at hour 0, weekly at hour 0 on a Monday. */
  function Classes(st: Stamp): (typ: string)
    requires ValidStamp(st)
    ensures typ == "h" || typ == "hd" || typ == "hdw"
    ensures forall i :: 0 <= i < |typ| ==> IsClass(typ[i])
    ensures typ[0] == 'h'
    ensures 'd' in typ <==> st.hour == 0
    ensures 'w' in typ <==> st.hour == 0 && Weekday(st.year, st.month, st.day) == 0
  {
    if st.hour == 0 then
      if Weekday(st.year, st.month, st.day) == 0 then "h" + "d" + "w" else "h" + "d"
    else "h"
  }

  /** What parse_snapshot gives: None (no match), a ValueError (no such date), or the pair. */
  datatype Parse = NoMatch | BadDate(fields: Stamp) | Parsed(ts: Stamp, typ: string)

  function ParseSnapshot(name: string): (r: Parse)
    ensures r.Parsed? ==> ValidStamp(r.ts) && r.typ == Classes(r.ts)
  {
    match MatchName(name)
    case None => NoMatch
    case Some(st) => if ValidStamp(st) then Parsed(st, Classes(st)) else BadDate(st)
  }

  /**
   * A formatted name parses to its fields and classes when they form a
   * date and time, and to a date error when they do not (year 0, month 0
   * or 13, a day past the month's end, hour 24 or more, minute 60 or more).
   */
  lemma ParseFormatted(st: Stamp, dash: bool, rest: string)
    requires InRange(st)
    ensures ParseSnapshot(FormatName(st, dash) + rest) ==
            if ValidStamp(st) then Parsed(st, Classes(st)) else BadDate(st)
  {
    MatchFormatted(st, dash, rest);
  }

  /** Anything that is not a formatted name followed by some text does not match. */
  lemma NoMatchUnlessFormatted(name: string)
    requires forall st: Stamp, dash: bool :: InRange(st) ==> !(FormatName(st, dash) <= name)
    ensures ParseSnapshot(name) == NoMatch
  {
    if MatchName(name).Some? {
      MatchedIsFormatted(name);
    }
  }

  // ---------------------------------------------------------------------
  // The keep decision

  /** The three thresholds `expires['h']`, `expires['d']`, `expires['w']`, as instants. */
  datatype Expires = Expires(hourly: int, daily: int, weekly: int)

  function Threshold(e: Expires, c: char): int
    requires IsClass(c)
  {
    if c == 'h' then e.hourly else if c == 'd' then e.daily else e.weekly
  }

  function SnapInstant(st: Stamp): int
    requires ValidStamp(st)
  {
    Instant(st.year, st.month, st.day, st.hour, st.minute)
  }

  /** A snapshot is kept when some class it has still retains it. */
  predicate Kept(ts: Stamp, typ: string, e: Expires)
    requires ValidStamp(ts)
    requires forall i :: 0 <= i < |typ| ==> IsClass(typ[i])
  {
    exists i :: 0 <= i < |typ| && SnapInstant(ts) >= Threshold(e, typ[i])
  }

  /** Lines 42-46: look at the classes in order and stop at the first that keeps the snapshot. */
  method KeepSnapshot(ts: Stamp, typ: string, e: Expires) returns (keep: bool)
    requires ValidStamp(ts)
    requires forall i :: 0 <= i < |typ| ==> IsClass(typ[i])
    ensures keep == Kept(ts, typ, e)
  {
    keep := false;
    var i := 0;
    while i < |typ|
      invariant 0 <= i <= |typ|
      invariant forall j :: 0 <= j < i ==> SnapInstant(ts) < Threshold(e, typ[j])
    {
      if SnapInstant(ts) >= Threshold(e, typ[i]) {
        keep := true;
        break;
      }
      i := i + 1;
    }
  }

  /**
   * For a parsed snapshot: kept by the hourly threshold, or at hour 0 by
   * the daily one, or at hour 0 on a Monday by the weekly one.
   */
  lemma KeptByClass(ts: Stamp, e: Expires)
    requires ValidStamp(ts)
    ensures Kept(ts, Classes(ts), e) <==>
            SnapInstant(ts) >= e.hourly ||
            (ts.hour == 0 && SnapInstant(ts) >= e.daily) ||
            (ts.hour == 0 && Weekday(ts.year, ts.month, ts.day) == 0 && SnapInstant(ts) >= e.weekly)
  {
    var typ := Classes(ts);
    var t := SnapInstant(ts);
    if t >= e.hourly {
      assert t >= Threshold(e, typ[0]);
    }
    if ts.hour == 0 && t >= e.daily {
      assert t >= Threshold(e, typ[1]);
    }
    if ts.hour == 0 && Weekday(ts.year, ts.month, ts.day) == 0 && t >= e.weekly {
      assert t >= Threshold(e, typ[2]);
    }
  }

  // ---------------------------------------------------------------------
  // The line loop of expire_snapshots

  /** The loop ends at an empty line, and a line without exactly one `@` aborts it (line 36). */
  predicate Stops(line: string)
  {
    line == "" || |Split(line, '@')| != 2
  }

  /** A listed snapshot that parses as a date and that no class keeps. */
  predicate Expired(line: string, e: Expires)
  {
    var parts := Split(line, '@');
    |parts| == 2 &&
    match ParseSnapshot(parts[1])
    case Parsed(ts, typ) => !Kept(ts, typ, e)
    case _ => false
  }

  /** The index of the line the loop stops at, or the number of lines. */
  function StopIndex(lines: seq<string>): (k: nat)
    ensures k <= |lines|
    ensures k < |lines| ==> Stops(lines[k])
    ensures forall j :: 0 <= j < k ==> !Stops(lines[j])
  {
    if |lines| == 0 then 0
    else if Stops(lines[0]) then 0
    else 1 + StopIndex(lines[1..])
  }

  /** The expired lines, in listing order. */
  function ExpiredAmong(lines: seq<string>, e: Expires): (r: seq<string>)
    ensures |r| <= |lines|
  {
    if |lines| == 0 then []
    else
      var last := lines[|lines| - 1];
      ExpiredAmong(lines[..|lines| - 1], e) + (if Expired(last, e) then [last] else [])
  }

  /** What one call of expire_snapshots destroys, in order, and the line it aborts on, if any. */
  datatype Expiry = Expiry(destroy: seq<string>, aborted: Option<string>)

  function Expire(lines: seq<string>, e: Expires): Expiry
  {
    var k := StopIndex(lines);
    Expiry(ExpiredAmong(lines[..k], e),
           if k < |lines| && lines[k] != "" then Some(lines[k]) else None)
  }

  /** The loop's stopping line is the first line with no earlier stop. */
  lemma StopIndexIs(lines: seq<string>, i: nat)
    requires i <= |lines|
    requires forall j :: 0 <= j < i ==> !Stops(lines[j])
    requires i < |lines| ==> Stops(lines[i])
    ensures StopIndex(lines) == i
  {
  }

  /** One more line of the listing adds itself to the expired lines exactly when it is expired. */
  lemma ExpiredAmongStep(lines: seq<string>, i: nat, e: Expires)
    requires i < |lines|
    ensures ExpiredAmong(lines[..i + 1], e) ==
            ExpiredAmong(lines[..i], e) + (if Expired(lines[i], e) then [lines[i]] else [])
  {
    assert lines[..i + 1][..i] == lines[..i];
  }

  /** One line of the loop: parse_snapshot, then the keep decision. */
  method IsExpired(s: string, e: Expires) returns (expired: bool)
    requires |Split(s, '@')| == 2
    ensures expired == Expired(s, e)
  {
    var parts := Split(s, '@');
    var parsed := ParseSnapshot(parts[1]);
    expired := false;
    if parsed.Parsed? {
      var keep := KeepSnapshot(parsed.ts, parsed.typ, e);
      expired := !keep;
    }
  }

  /** expire_snapshots on the listing output `output`, destroying in the order it decides. */
  method ExpireSnapshots(output: string, e: Expires) returns (run: Expiry)
    ensures run == Expire(Split(output, '\n'), e)
  {
    var lines := Split(output, '\n');
    var destroy: seq<string> := [];
    var i := 0;
    while i < |lines|
      invariant 0 <= i <= |lines|
      invariant forall j :: 0 <= j < i ==> !Stops(lines[j])
      invariant destroy == ExpiredAmong(lines[..i], e)
    {
      var s := lines[i];
      if s == "" {
        break;
      }
      if |Split(s, '@')| != 2 {
        StopIndexIs(lines, i);
        return Expiry(destroy, Some(s));
      }
      var expired := IsExpired(s, e);
      if expired {
        destroy := destroy + [s];
      }
      ExpiredAmongStep(lines, i, e);
      i := i + 1;
    }
    StopIndexIs(lines, i);
    run := Expiry(destroy, None);
  }

  /** Exactly the expired lines are selected, and in listing order. */
  lemma {:induction false} ExpiredAmongExact(lines: seq<string>, e: Expires)
    ensures forall x :: x in ExpiredAmong(lines, e) <==> x in lines && Expired(x, e)
  {
    if |lines| > 0 {
      var init := lines[..|lines| - 1];
      ExpiredAmongExact(init, e);
      assert lines == init + [lines[|lines| - 1]];
    }
  }

  lemma {:induction false} ExpiredAmongAppend(a: seq<string>, b: seq<string>, e: Expires)
    ensures ExpiredAmong(a + b, e) == ExpiredAmong(a, e) + ExpiredAmong(b, e)
  {
    if |b| == 0 {
      assert a + b == a;
    } else {
      var binit := b[..|b| - 1];
      ExpiredAmongAppend(a, binit, e);
      assert (a + b)[..|a + b| - 1] == a + binit;
    }
  }

  /** The first empty (or unsplittable) line ends the run: nothing after it matters. */
  lemma {:induction false} LaterLinesIgnored(a: seq<string>, stop: string, b: seq<string>, e: Expires)
    requires Stops(stop)
    ensures Expire(a + [stop] + b, e) == Expire(a + [stop], e)
  {
    var l1 := a + [stop] + b;
    var l2 := a + [stop];
    var k1 := StopIndex(l1);
    var k2 := StopIndex(l2);
    assert l1[|a|] == stop && l2[|a|] == stop;
    assert k1 <= |a| && k2 <= |a|;
    assert forall j :: 0 <= j <= |a| ==> l1[j] == l2[j];
    assert k1 == k2;
    assert l1[..k1] == l2[..k2];
  }

  /**
   * What a run destroys: only expired lines of the listing, every expired
   * line before the stop, and nothing when the very first line stops it;
   * and it aborts exactly on a non-empty line without exactly one `@`.
   */
  lemma ExpireOutcome(lines: seq<string>, e: Expires)
    ensures var r := Expire(lines, e);
            var k := StopIndex(lines);
            && (forall x :: x in r.destroy ==> x in lines[..k] && Expired(x, e))
            && (forall j :: 0 <= j < k && Expired(lines[j], e) ==> lines[j] in r.destroy)
            && (r.aborted.Some? <==> k < |lines| && lines[k] != "")
            && (r.aborted.Some? ==> |Split(r.aborted.value, '@')| != 2)
  {
    var k := StopIndex(lines);
    ExpiredAmongExact(lines[..k], e);
    assert forall j :: 0 <= j < k ==> lines[j] == lines[..k][j];
  }

  /** A snapshot whose name does not parse, or parses to no date, is never destroyed. */
  lemma UnparsedNeverDestroyed(lines: seq<string>, e: Expires, line: string)
    requires |Split(line, '@')| == 2 && !ParseSnapshot(Split(line, '@')[1]).Parsed?
    ensures line !in Expire(lines, e).destroy
  {
    ExpireOutcome(lines, e);
  }
}
