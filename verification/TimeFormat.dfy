/** Relative times as text: time_print and time_parse of src/datatype.c. */
module TimeFormat {
  import opened Lengths

  const SECOND: nat := 1000
  const MINUTE: nat := 60_000
  const HOUR: nat := 3_600_000
  const DAY: nat := 86_400_000

  const MAX_DIGITS: nat := 8

  /* ---- Decimal numbers ---- */

  predicate IsDigit(c: char)
  {
    '0' <= c <= '9'
  }

  function Digit(n: nat): (c: char)
    requires n < 10
    ensures IsDigit(c) && c as int - '0' as int == n
  {
    ('0' as int + n) as char
  }

  /** printf of an unsigned number */
  function Dec(n: nat): (s: string)
  {
    if n < 10 then [Digit(n)] else Dec(n / 10) + [Digit(n % 10)]
  }

  predicate AllDigits(s: string)
  {
    forall i :: 0 <= i < |s| ==> IsDigit(s[i])
  }

  /** The number that digits stand for. */
  function Value(s: string): nat
    requires AllDigits(s)
  {
    if s == [] then 0 else 10 * Value(s[..|s| - 1]) + (s[|s| - 1] as int - '0' as int)
  }

  function LeadingDigits(s: string): (n: nat)
    ensures n <= |s| && AllDigits(s[..n]) && (n < |s| ==> !IsDigit(s[n]))
  {
    if s == [] || !IsDigit(s[0]) then 0
    else
      var n := LeadingDigits(s[1..]);
      assert s[..n + 1] == [s[0]] + s[1..][..n];
      n + 1
  }

  /** str2int and atoi: the digits at the start of a text, zero if there are none. */
  function Number(s: string): nat
  {
    Value(s[..LeadingDigits(s)])
  }

  lemma {:induction false} DecDigits(n: nat)
    ensures AllDigits(Dec(n)) && Value(Dec(n)) == n && Dec(n) != []
  {
    if n < 10 {
      assert Dec(n)[..0] == [];
    } else {
      DecDigits(n / 10);
      assert Dec(n)[..|Dec(n)| - 1] == Dec(n / 10);
    }
  }

  function Pow10(k: nat): nat
  {
    if k == 0 then 1 else 10 * Pow10(k - 1)
  }

  /** A number has at most k digits if and only if it is below 10^k. */
  lemma {:induction false} DecLength(n: nat, k: nat)
    requires k > 0
    ensures |Dec(n)| <= k <==> n < Pow10(k)
    decreases k
  {
    if k == 1 {
      assert Pow10(1) == 10 * Pow10(0);
      if n >= 10 {
        DecDigits(n / 10);
      }
    } else if n < 10 {
      DecLength(n, k - 1);
    } else {
      DecLength(n / 10, k - 1);
    }
  }

  lemma {:induction false} NumberOf(s: string, rest: string)
    requires AllDigits(s) && (rest != [] ==> !IsDigit(rest[0]))
    ensures Number(s + rest) == Value(s)
  {
    LeadingOf(s, rest);
    assert (s + rest)[..|s|] == s;
  }

  lemma {:induction false} LeadingOf(s: string, rest: string)
    requires AllDigits(s) && (rest != [] ==> !IsDigit(rest[0]))
    ensures LeadingDigits(s + rest) == |s|
  {
    if s == [] {
      assert s + rest == rest;
    } else {
      LeadingOf(s[1..], rest);
      assert (s + rest)[1..] == s[1..] + rest;
    }
  }

  /* ---- Printing ---- */

  function Part(n: nat, unit: string): string
  {
    if n > 0 then Dec(n) + unit else ""
  }

  /** nft_print of a number and its unit, if the number is not zero */
  method Print(out0: string, n: nat, unit: string) returns (out: string)
    ensures out == out0 + Part(n, unit)
  {
    out := out0;
    if n > 0 {
      out := out + (Dec(n) + unit);
    }
  }

  /** time_print, with n the time in milliseconds */
  method TimePrint(n: nat) returns (out: string)
    ensures out == Text(n)
  {
    hide Part;
    var ms := n;
    var days := ms / DAY;
    ms := ms % DAY;
    var hours := ms / HOUR;
    ms := ms % HOUR;
    var minutes := ms / MINUTE;
    ms := ms % MINUTE;
    var seconds := ms / SECOND;
    ms := ms % SECOND;
    out := Print("", days, "d");
    out := Print(out, hours, "h");
    out := Print(out, minutes, "m");
    out := Print(out, seconds, "s");
    out := Print(out, ms, "ms");
    Regroup(Part(days, "d"), Part(hours, "h"), Part(minutes, "m"), Part(seconds, "s"), Part(ms, "ms"));
  }

  lemma {:induction false} Regroup(a: string, b: string, c: string, d: string, e: string)
    ensures "" + a + b + c + d + e == a + (b + (c + (d + e)))
  {
  }

  function Text(n: nat): string
  {
    Part(n / DAY, "d") + (Part(n % DAY / HOUR, "h") + AfterHours(n % DAY % HOUR))
  }

  function AfterHours(n: nat): string
  {
    Part(n / MINUTE, "m") + (Part(n % MINUTE / SECOND, "s") + Part(n % MINUTE % SECOND, "ms"))
  }

  /* ---- Parsing ---- */

  datatype Unit = Days | Hours | Minutes | Seconds | Millis

  /** What has been read so far, and which units have been given. */
  datatype Totals = Totals(d: nat, h: nat, m: nat, s: nat, ms: nat, mask: set<Unit>)

  function Sum(t: Totals): nat
  {
    DAY * t.d + HOUR * t.h + MINUTE * t.m + SECOND * t.s + t.ms
  }

  function Take(t: Totals, u: Unit, n: nat): Totals
  {
    var t' := t.(mask := t.mask + {u});
    match u
    case Days => t'.(d := n)
    case Hours => t'.(h := n)
    case Minutes => t'.(m := n)
    case Seconds => t'.(s := n)
    case Millis => t'.(ms := n)
  }

  /** The unit at the start of a text; "ms" is one only at its end. */
  function UnitAt(rest: string): Option<Unit>
  {
    if rest == [] then None
    else if rest[0] == 'd' then Some(Days)
    else if rest[0] == 'h' then Some(Hours)
    else if rest == "ms" then Some(Millis)
    else if rest[0] == 'm' then Some(Minutes)
    else if rest[0] == 's' then Some(Seconds)
    else None
  }

  function UnitLength(u: Unit): nat
  {
    if u == Millis then 2 else 1
  }

  /** The totals after the whole text; pending holds the digits right before rest. */
  function Scan(rest: string, pending: string, t: Totals): Option<Totals>
    decreases |rest|
  {
    if rest == [] then Some(t)
    else
      var u := UnitAt(rest);
      if u.Some? then
        if u.value in t.mask then None
        else Scan(rest[UnitLength(u.value)..], "", Take(t, u.value, Number(pending + rest)))
      else if !IsDigit(rest[0]) || |pending| >= MAX_DIGITS then None
      else Scan(rest[1..], pending + [rest[0]], t)
  }

  function Meaning(text: string): Option<nat>
  {
    var t := Scan(text, "", Totals(0, 0, 0, 0, 0, {}));
    if t.None? then None
    else if t.value.mask == {} then Some(Number(text) * SECOND)
    else Some(Sum(t.value))
  }

  /** time_parse */
  method TimeParse(text: string) returns (res: Option<nat>)
    ensures res == Meaning(text)
  {
    hide Number;
    var i, k := 0, 0;
    var t := Totals(0, 0, 0, 0, 0, {});
    assert text[0..] == text && text[0..0] == "";
    while i < |text|
      invariant 0 <= k <= i <= |text|
      invariant Scan(text[i..], text[i - k..i], t) == Scan(text, "", Totals(0, 0, 0, 0, 0, {}))
    {
      ghost var rest, pending := text[i..], text[i - k..i];
      assert pending + rest == text[i - k..];
      assert rest[0] == text[i] && rest[1..] == text[i + 1..];
      var u := UnitAt(text[i..]);
      if u.Some? {
        if u.value in t.mask {
          return None;
        }
        assert rest[UnitLength(u.value)..] == text[i + UnitLength(u.value)..];
        t := Take(t, u.value, Number(text[i - k..]));
        i := i + UnitLength(u.value);
        k := 0;
      } else {
        if !IsDigit(text[i]) || k >= MAX_DIGITS {
          return None;
        }
        assert pending + [rest[0]] == text[i - k..i + 1];
        i := i + 1;
        k := k + 1;
      }
    }
    assert text[i..] == [];
    if t.mask == {} {
      res := Some(Number(text) * SECOND);
    } else {
      res := Some(Sum(t));
    }
  }

  /* ---- The round trip ---- */

  lemma {:induction false} ScanDigits(s: string, rest: string, pending: string, t: Totals)
    requires AllDigits(s)
    ensures |pending| + |s| <= MAX_DIGITS ==> Scan(s + rest, pending, t) == Scan(rest, pending + s, t)
    ensures |pending| + |s| > MAX_DIGITS && |pending| <= MAX_DIGITS ==> Scan(s + rest, pending, t) == None
    decreases |s|
  {
    if s == [] {
      assert s + rest == rest && pending + s == pending;
    } else {
      assert (s + rest)[1..] == s[1..] + rest && (s + rest)[0] == s[0];
      assert pending + [s[0]] + s[1..] == pending + s;
      if |pending| < MAX_DIGITS {
        ScanDigits(s[1..], rest, pending + [s[0]], t);
      }
    }
  }

  lemma {:induction false} ScanUnit(tail: string, pending: string, t: Totals, u: Unit)
    requires UnitAt(tail) == Some(u) && u !in t.mask && UnitLength(u) <= |tail|
    ensures Scan(tail, pending, t) == Scan(tail[UnitLength(u)..], "", Take(t, u, Number(pending + tail)))
  {
    hide Number;
    hide Take;
  }

  /** One printed part: its number is taken for its unit. */
  lemma {:induction false} ScanPart(n: nat, u: Unit, unit: string, rest: string, t: Totals)
    requires unit != [] && !IsDigit(unit[0]) && UnitAt(unit + rest) == Some(u) && |unit| == UnitLength(u)
    requires u !in t.mask && n > 0
    ensures n < Pow10(MAX_DIGITS) ==> Scan(Part(n, unit) + rest, "", t) == Scan(rest, "", Take(t, u, n))
    ensures n >= Pow10(MAX_DIGITS) ==> Scan(Part(n, unit) + rest, "", t) == None
  {
    hide Number;
    hide Dec;
    hide Pow10;
    hide Scan;
    hide Take;
    hide UnitAt;
    hide Value;
    DecDigits(n);
    DecLength(n, MAX_DIGITS);
    var s, tail := Dec(n), unit + rest;
    assert Part(n, unit) + rest == s + tail;
    ScanDigits(s, tail, "", t);
    if n < Pow10(MAX_DIGITS) {
      assert "" + s == s;
      NumberOf(s, tail);
      ScanUnit(tail, s, t, u);
      assert tail[|unit|..] == rest;
    }
  }

  /** What comes after a part starts with a digit, if there is anything. */
  predicate StartsWithDigit(s: string)
  {
    s != [] ==> IsDigit(s[0])
  }

  lemma {:induction false} PartStarts(n: nat, unit: string, rest: string)
    requires StartsWithDigit(rest)
    ensures StartsWithDigit(Part(n, unit) + rest)
  {
    DecDigits(n);
  }

  lemma {:induction false} EightDigits()
    ensures Pow10(MAX_DIGITS) == 100_000_000
  {
    assert Pow10(8) == 10 * Pow10(7) && Pow10(7) == 10 * Pow10(6) && Pow10(6) == 10 * Pow10(5);
    assert Pow10(5) == 10 * Pow10(4) && Pow10(4) == 10 * Pow10(3) && Pow10(3) == 10 * Pow10(2);
    assert Pow10(2) == 10 * Pow10(1) && Pow10(1) == 10 * Pow10(0);
  }

  /** A part as it is scanned, if the number is there at all. */
  function TakePart(t: Totals, u: Unit, n: nat): Totals
  {
    if n > 0 then Take(t, u, n) else t
  }

  lemma {:induction false} ScanOptional(n: nat, u: Unit, unit: string, rest: string, t: Totals)
    requires unit != [] && !IsDigit(unit[0]) && UnitAt(unit + rest) == Some(u) && |unit| == UnitLength(u)
    requires u !in t.mask && n < 100_000_000
    ensures Scan(Part(n, unit) + rest, "", t) == Scan(rest, "", TakePart(t, u, n))
  {
    hide Part;
    EightDigits();
    if n > 0 {
      ScanPart(n, u, unit, rest, t);
    } else {
      NoPart(unit);
      assert "" + rest == rest;
    }
  }

  lemma {:induction false} NoPart(unit: string)
    ensures Part(0, unit) == ""
  {
  }

  /** Minutes are not taken for milliseconds. */
  lemma {:induction false} MinutesAhead(rest: string)
    requires StartsWithDigit(rest)
    ensures UnitAt("m" + rest) == Some(Minutes)
  {
    if rest != "" {
      assert ("m" + rest)[1] == rest[0];
    }
  }

  lemma {:induction false} ScanEnd(t: Totals)
    ensures Scan("", "", t) == Some(t)
  {
  }

  /** What the three parts after the hours add to the sum and to the mask. */
  lemma {:induction false} TakeThree(n: nat, t: Totals)
    requires n < HOUR && t.mask <= {Days, Hours} && t.m == t.s == t.ms == 0
    ensures var t1 := TakePart(t, Minutes, n / MINUTE);
      var t2 := TakePart(t1, Seconds, n % MINUTE / SECOND);
      var t3 := TakePart(t2, Millis, n % MINUTE % SECOND);
      && Minutes !in t.mask && Seconds !in t1.mask && Millis !in t2.mask
      && Sum(t3) == Sum(t) + n && (t3.mask == {} <==> t.mask == {} && n == 0)
  {
    var m, s, ms := n / MINUTE, n % MINUTE / SECOND, n % MINUTE % SECOND;
    assert n == MINUTE * m + SECOND * s + ms;
  }

  lemma {:induction false} ScanAfterHours(n: nat, t: Totals)
    requires n < HOUR && t.mask <= {Days, Hours} && t.m == t.s == t.ms == 0
    ensures var r := Scan(AfterHours(n), "", t);
      r.Some? && Sum(r.value) == Sum(t) + n && (r.value.mask == {} <==> t.mask == {} && n == 0)
    ensures StartsWithDigit(AfterHours(n))
  {
    hide Part;
    hide Scan;
    hide TakePart;
    hide Sum;
    TakeThree(n, t);
    var m, s, ms := n / MINUTE, n % MINUTE / SECOND, n % MINUTE % SECOND;
    var afterS := Part(ms, "ms");
    var afterM := Part(s, "s") + afterS;
    assert afterS + "" == afterS;
    PartStarts(ms, "ms", "");
    PartStarts(s, "s", afterS);
    PartStarts(m, "m", afterM);
    var t1 := TakePart(t, Minutes, m);
    var t2 := TakePart(t1, Seconds, s);
    MinutesAhead(afterM);
    ScanOptional(m, Minutes, "m", afterM, t);
    ScanOptional(s, Seconds, "s", afterS, t1);
    assert "ms" + "" == "ms";
    ScanOptional(ms, Millis, "ms", "", t2);
    ScanEnd(TakePart(t2, Millis, ms));
  }

  /** The printed text of a time means the time again if and only if the days have
      no more than eight digits. */
  lemma {:induction false} TimeRoundTrip(n: nat)
    ensures Meaning(Text(n)) == Some(n) <==> n < 100_000_000 * DAY
  {
    hide Part;
    hide AfterHours;
    hide Number;
    var d, h, rest := n / DAY, n % DAY / HOUR, n % DAY % HOUR;
    var t := Totals(0, 0, 0, 0, 0, {});
    var after := Part(h, "h") + AfterHours(rest);
    if d < 100_000_000 {
      var t1 := TakePart(t, Days, d);
      var t2 := TakePart(t1, Hours, h);
      ScanOptional(d, Days, "d", after, t);
      ScanOptional(h, Hours, "h", AfterHours(rest), t1);
      ScanAfterHours(rest, t2);
      if n == 0 {
        NothingPrinted();
      }
    } else {
      EightDigits();
      ScanPart(d, Days, "d", after, t);
    }
  }

  lemma {:induction false} NothingPrinted()
    ensures Text(0) == "" && Number("") == 0
  {
    hide Dec;
    hide Scan;
    assert Part(0, "d") == Part(0, "h") == Part(0, "m") == Part(0, "s") == Part(0, "ms") == "";
    assert ""[..LeadingDigits("")] == "";
  }
}
