/**
 The language of the duration parser as a grammar, independent of how it tokenises: what it accepts, what an
 accepted duration amounts to, and the canonical text of an amount.
 */
module DurationGrammar {
  import opened Bytes
  import opened Durations

  datatype Segment = Segment(value: string, unit: string)

  function Render(segs: seq<Segment>): string {
    if segs == [] then "" else segs[0].value + segs[0].unit + Render(segs[1..])
  }

  // Digits of a number below 2^63.
  predicate IsUnsigned(v: string) {
    v != "" && AllDigits(v) && Number(v) < INT64_HALF
  }

  // The same with an optional sign; a negative number may be -2^63.
  predicate IsSigned(v: string) {
    || IsUnsigned(v)
    || (v != "" && v[0] == '+' && IsUnsigned(v[1..]))
    || (v != "" && v[0] == '-' && v[1..] != "" && AllDigits(v[1..]) && Number(v[1..]) <= INT64_HALF)
  }

  predicate IsUnit(u: string) {
    u in {"w", "d", "h", "m", "s", "ms", "us"}
  }

  // What may stand where a unit is expected when no value precedes it.
  predicate IsLabel(u: string) {
    u != "" && IsLetter(u[0]) && forall i :: 0 <= i < |u| ==> !IsDigit(u[i])
  }

  predicate FirstSegment(seg: Segment) {
    (seg.value == "" && IsLabel(seg.unit)) || (IsSigned(seg.value) && IsUnit(seg.unit))
  }

  predicate NextSegment(seg: Segment) {
    IsUnsigned(seg.value) && IsUnit(seg.unit)
  }

  /** Only the first value may be signed or missing; a missing value goes with any label. */
  predicate WellFormed(segs: seq<Segment>) {
    segs != [] ==> FirstSegment(segs[0]) && forall i :: 1 <= i < |segs| ==> NextSegment(segs[i])
  }

  function ValueOf(v: string): int
    requires v == "" || IsSigned(v)
  {
    if v == "" then 0
    else if v[0] == '-' then -(Number(v[1..]) as int)
    else if v[0] == '+' then Number(v[1..])
    else Number(v)
  }

  function UnitOf(u: string): nat
  {
    if u == "w" then 7 * 86_400_000_000_000
    else if u == "d" then 24 * 3_600_000_000_000
    else if u == "h" then 60 * 60_000_000_000
    else if u == "m" then 60 * 1_000_000_000
    else if u == "s" then 1_000_000_000
    else if u == "ms" then 1_000_000
    else 1_000
  }

  function Amount(seg: Segment): int
    requires FirstSegment(seg)
  {
    ValueOf(seg.value) * UnitOf(seg.unit)
  }

  predicate AllFirst(segs: seq<Segment>) {
    forall i :: 0 <= i < |segs| ==> FirstSegment(segs[i])
  }

  predicate AllNext(segs: seq<Segment>) {
    forall i :: 0 <= i < |segs| ==> NextSegment(segs[i])
  }

  // The exact sum in nanoseconds, without any wrapping.
  function ExactSum(segs: seq<Segment>): int
    requires AllFirst(segs)
  {
    if segs == [] then 0 else Amount(segs[0]) + ExactSum(segs[1..])
  }

  // Tokens

  function DigitOrEnd(s: string): bool {
    s == "" || IsDigit(s[0])
  }

  lemma IndexSplit(a: string, b: string, p: char -> bool)
    requires (forall i :: 0 <= i < |a| ==> !p(a[i])) && (b == "" || p(b[0]))
    ensures IndexWhere(a + b, p) == |a|
  {
    var s := a + b;
    assert forall i :: 0 <= i < |a| ==> s[i] == a[i];
    assert b != "" ==> s[|a|] == b[0];
  }

  // What can stand before the first letter, and a unit or label.
  predicate NoLetters(s: string) {
    forall i :: 0 <= i < |s| ==> !IsLetter(s[i])
  }

  lemma FirstTokens(value: string, unit: string, tail: string)
    requires NoLetters(value) && IsLabel(unit) && DigitOrEnd(tail)
    ensures var inp := value + unit + tail;
            GetDurationParts(inp) ==
            if value == "" then Some(Parts(0, tail))
            else match Atoi(value)
                 case None => None
                 case Some(v) => match AdjustDuration(v, unit)
                                 case None => None
                                 case Some(d) => Some(Parts(d, tail))
  {
    var inp := value + unit + tail;
    assert inp == value + (unit + tail);
    IndexSplit(value, unit + tail, IsLetter);
    IndexSplit(unit, tail, IsDigit);
    assert inp[..|value|] == value && inp[|value|..] == unit + tail;
    assert (unit + tail)[..|unit|] == unit && (unit + tail)[|unit|..] == tail;
  }

  // Every input with a letter splits into a value, a unit or label, and the rest.
  lemma Tokens(inp: string) returns (value: string, unit: string, tail: string)
    requires IndexWhere(inp, IsLetter) < |inp|
    ensures inp == value + unit + tail && NoLetters(value) && IsLabel(unit) && DigitOrEnd(tail)
  {
    hide IndexWhere;
    var i := IndexWhere(inp, IsLetter);
    var rest := inp[i..];
    var j := IndexWhere(rest, IsDigit);
    value, unit, tail := inp[..i], rest[..j], rest[j..];
    assert rest[0] == inp[i] && j > 0;
  }

  lemma SignedNoLetters(v: string)
    requires v == "" || IsSigned(v)
    ensures NoLetters(v)
  {
    if v != "" && !IsUnsigned(v) {
      assert forall i :: 1 <= i < |v| ==> v[i] == v[1..][i - 1];
    }
  }

  lemma UnitIsLabel(u: string)
    requires IsUnit(u)
    ensures IsLabel(u)
  {}

  lemma AtoiValue(v: string)
    requires v != ""
    ensures Atoi(v).Some? <==> IsSigned(v)
    ensures IsSigned(v) ==> Atoi(v) == Some(ValueOf(v))
    ensures IsDigit(v[0]) ==> (IsSigned(v) <==> IsUnsigned(v))
  {
    if v[0] == '-' || v[0] == '+' {
      assert !IsDigit(v[0]);
    }
  }

  lemma AdjustedAmount(v: int, u: string)
    ensures AdjustDuration(v, u).Some? <==> IsUnit(u)
    ensures IsUnit(u) ==> AdjustDuration(v, u) == Some(Wrap(v * UnitOf(u)))
  {}

  // A segment in front of the rest is taken off as a whole, and contributes its wrapped amount.
  lemma TakesSegment(seg: Segment, tail: string)
    requires FirstSegment(seg) && DigitOrEnd(tail)
    ensures GetDurationParts(seg.value + seg.unit + tail) == Some(Parts(Wrap(Amount(seg)), tail))
  {
    hide Atoi, AdjustDuration, GetDurationParts, Number, UnitNanos, UnitOf, Wrap;
    SignedNoLetters(seg.value);
    if seg.value != "" {
      UnitIsLabel(seg.unit);
      AtoiValue(seg.value);
      AdjustedAmount(ValueOf(seg.value), seg.unit);
    } else {
      WrapZero();
    }
    FirstTokens(seg.value, seg.unit, tail);
  }

  lemma WrapZero()
    ensures Wrap(0) == 0
  {}

  lemma {:induction false} RenderNext(segs: seq<Segment>)
    requires AllNext(segs)
    ensures DigitOrEnd(Render(segs)) && (Render(segs) == "" <==> segs == [])
  {
    if segs != [] {
      var v := segs[0].value;
      assert Render(segs)[0] == v[0];
    }
  }

  lemma NextIsFirst(seg: Segment)
    ensures NextSegment(seg) ==> FirstSegment(seg)
  {}

  // Accepting

  lemma {:induction false} SumFrom(total: int, segs: seq<Segment>)
    requires WellFormed(segs)
    ensures AllFirst(segs)
    ensures TotalFrom(Wrap(total), Render(segs)) == Some(Wrap(total + ExactSum(segs)))
    decreases segs
  {
    hide FirstSegment, NextSegment, GetDurationParts, Amount, Wrap;
    forall i | 0 <= i < |segs| ensures FirstSegment(segs[i]) {
      NextIsFirst(segs[i]);
    }
    if segs != [] {
      var rest := segs[1..];
      assert WellFormed(rest);
      RenderNext(rest);
      TakesSegment(segs[0], Render(rest));
      var a := Amount(segs[0]);
      WrapSum(total, a);
      WrapSum(Wrap(total), a);
      SumFrom(total + a, rest);
      assert segs[0].value + segs[0].unit + Render(rest) != "" by {
        SegmentNotEmpty(segs[0]);
      }
    }
  }

  lemma SegmentNotEmpty(seg: Segment)
    requires FirstSegment(seg)
    ensures seg.unit != ""
  {}

  /**
   The parser's total is the exact sum of value times unit, wrapped once; wherever the sum fits int64 it is the
   exact sum, whatever overflowed on the way.
   */
  lemma TotalOfSegments(segs: seq<Segment>)
    requires WellFormed(segs)
    ensures AllFirst(segs)
    ensures Total(Render(segs)) == Some(Wrap(ExactSum(segs)))
    ensures Total(Render(segs)) == Some(ExactSum(segs)) <==> FitsInt64(ExactSum(segs))
  {
    WrapZero();
    SumFrom(0, segs);
    WrapFits(ExactSum(segs));
  }

  lemma {:induction false} FindSegments(total: int, s: string) returns (segs: seq<Segment>)
    requires TotalFrom(total, s).Some?
    ensures WellFormed(segs) && Render(segs) == s
    ensures DigitOrEnd(s) ==> AllNext(segs)
    decreases |s|
  {
    hide Atoi, AdjustDuration, IsLabel, NoLetters, Wrap, IsSigned, IsUnsigned;
    segs := [];
    if s != "" {
      var value, unit, tail := Tokens(s);
      FirstTokens(value, unit, tail);
      var seg := Segment(value, unit);
      SegmentTaken(seg, tail);
      var rest := FindSegments(Wrap(total + GetDurationParts(s).value.dur), tail);
      segs := [seg] + rest;
      assert segs[1..] == rest;
    }
  }

  lemma SegmentTaken(seg: Segment, tail: string)
    requires NoLetters(seg.value) && IsLabel(seg.unit) && DigitOrEnd(tail)
    requires GetDurationParts(seg.value + seg.unit + tail).Some?
    ensures FirstSegment(seg)
    ensures IsDigit((seg.value + seg.unit + tail)[0]) ==> NextSegment(seg)
  {
    hide Atoi, AdjustDuration, GetDurationParts;
    FirstTokens(seg.value, seg.unit, tail);
    if seg.value != "" {
      AtoiValue(seg.value);
      if Atoi(seg.value).Some? {
        AdjustedAmount(Atoi(seg.value).value, seg.unit);
      }
    }
  }

  /** The parser accepts exactly the well-formed sequences of segments. */
  lemma Accepts(s: string)
    ensures Total(s).Some? <==> exists segs :: WellFormed(segs) && Render(segs) == s
  {
    if Total(s).Some? {
      var segs := FindSegments(0, s);
    }
    if segs: seq<Segment> :| WellFormed(segs) && Render(segs) == s {
      TotalOfSegments(segs);
    }
  }

  /** A string is the rendering of one well-formed sequence of segments at most. */
  lemma {:induction false} UniqueSegments(a: seq<Segment>, b: seq<Segment>)
    requires WellFormed(a) && WellFormed(b) && Render(a) == Render(b)
    ensures a == b
    decreases a
  {
    hide FirstSegment, NextSegment, Render, WellFormed;
    RenderEmpty(a);
    RenderEmpty(b);
    if a != [] && b != [] {
      SameHead(a, b);
      TailWellFormed(a);
      TailWellFormed(b);
      UniqueSegments(a[1..], b[1..]);
      assert a == [a[0]] + a[1..] && b == [b[0]] + b[1..];
    }
  }

  lemma RenderEmpty(segs: seq<Segment>)
    requires WellFormed(segs)
    ensures Render(segs) == "" <==> segs == []
  {
    if segs != [] {
      SegmentNotEmpty(segs[0]);
    }
  }

  lemma TailWellFormed(segs: seq<Segment>)
    requires WellFormed(segs) && segs != []
    ensures WellFormed(segs[1..])
  {
    if |segs| > 1 {
      NextIsFirst(segs[1]);
    }
  }

  lemma SameHead(a: seq<Segment>, b: seq<Segment>)
    requires WellFormed(a) && WellFormed(b) && a != [] && b != [] && Render(a) == Render(b)
    ensures a[0] == b[0] && Render(a[1..]) == Render(b[1..])
  {
    hide Render, WellFormed;
    FirstSplit(a);
    FirstSplit(b);
  }

  // Where the first value and the first unit of a rendering end.
  lemma FirstSplit(segs: seq<Segment>)
    requires WellFormed(segs) && segs != []
    ensures var s := Render(segs);
            var n := |segs[0].value|;
            && IndexWhere(s, IsLetter) == n
            && n < |s| && IndexWhere(s[n..], IsDigit) == |segs[0].unit|
            && s[..n] == segs[0].value && s[n..n + |segs[0].unit|] == segs[0].unit
            && s[n + |segs[0].unit|..] == Render(segs[1..])
  {
    hide IndexWhere, NoLetters, IsLabel, DigitOrEnd, FirstSegment, NextSegment;
    var seg := segs[0];
    FirstIsTokens(seg);
    assert AllNext(segs[1..]);
    RenderNext(segs[1..]);
    WhereTokensEnd(seg.value, seg.unit, Render(segs[1..]));
  }

  lemma FirstIsTokens(seg: Segment)
    requires FirstSegment(seg)
    ensures NoLetters(seg.value) && IsLabel(seg.unit)
  {
    hide IsLabel, Number;
    SignedNoLetters(seg.value);
    if seg.value != "" {
      UnitIsLabel(seg.unit);
    }
  }

  lemma WhereTokensEnd(value: string, unit: string, tail: string)
    requires NoLetters(value) && IsLabel(unit) && DigitOrEnd(tail)
    ensures var s := value + unit + tail; var n := |value|;
            && IndexWhere(s, IsLetter) == n
            && n < |s| && IndexWhere(s[n..], IsDigit) == |unit|
            && s[..n] == value && s[n..n + |unit|] == unit && s[n + |unit|..] == tail
  {
    var s := value + unit + tail;
    assert s == value + (unit + tail) && s[|value|..] == unit + tail;
    IndexSplit(value, unit + tail, IsLetter);
    IndexSplit(unit, tail, IsDigit);
  }

  // Concatenation

  lemma {:induction false} RenderAppend(a: seq<Segment>, b: seq<Segment>)
    ensures Render(a + b) == Render(a) + Render(b)
  {
    if a == [] {
      assert a + b == b;
    } else {
      assert (a + b)[1..] == a[1..] + b;
      RenderAppend(a[1..], b);
    }
  }

  lemma {:induction false} SumAppend(a: seq<Segment>, b: seq<Segment>)
    requires AllFirst(a)
    requires AllFirst(b)
    ensures ExactSum(a + b) == ExactSum(a) + ExactSum(b)
  {
    hide FirstSegment, Amount;
    if a == [] {
      assert a + b == b;
    } else {
      assert (a + b)[1..] == a[1..] + b;
      SumAppend(a[1..], b);
    }
  }

  /** A duration followed by one that starts with a digit adds up, wrapped, to both totals. */
  lemma Concatenated(a: string, b: string)
    requires Total(a).Some? && Total(b).Some? && DigitOrEnd(b)
    ensures Total(a + b) == Some(Wrap(Total(a).value + Total(b).value))
  {
    hide TotalFrom, Render, Wrap, ExactSum, WellFormed;
    var x := FindSegments(0, a);
    var y := FindSegments(0, b);
    WellFormedAppend(x, y);
    TotalOfSegments(x);
    TotalOfSegments(y);
    TotalOfSegments(x + y);
    RenderAppend(x, y);
    SumAppend(x, y);
    WrapSum(ExactSum(x), ExactSum(y));
    WrapSum(Wrap(ExactSum(x)), ExactSum(y));
  }

  lemma WellFormedAppend(x: seq<Segment>, y: seq<Segment>)
    requires WellFormed(x) && AllNext(y)
    ensures WellFormed(x + y)
  {
    hide FirstSegment, NextSegment;
    if x == [] && y != [] {
      NextIsFirst(y[0]);
    }
  }

  // Canonical text

  function Decimal(n: nat): string {
    if n < 10 then [('0' as int + n) as char] else Decimal(n / 10) + [('0' as int + n % 10) as char]
  }

  lemma {:induction false} DecimalNumber(n: nat)
    ensures AllDigits(Decimal(n)) && Decimal(n) != "" && Number(Decimal(n)) == n
  {
    var d := Decimal(n);
    if n >= 10 {
      DecimalNumber(n / 10);
      assert d[..|d| - 1] == Decimal(n / 10);
    } else {
      assert d[..0] == "";
    }
  }

  // A component that is zero is left out.
  function Component(n: nat, unit: string): seq<Segment> {
    if n == 0 then [] else [Segment(Decimal(n), unit)]
  }

  function Seven(w: nat, d: nat, h: nat, m: nat, s: nat, ms: nat, us: nat): seq<Segment> {
    Component(w, "w") + Component(d, "d") + Component(h, "h") + Component(m, "m") + Component(s, "s") +
    Component(ms, "ms") + Component(us, "us")
  }

  /** Weeks, days, hours, minutes, seconds, milliseconds and microseconds of a number of microseconds. */
  function Canonical(us: nat): seq<Segment> {
    Seven(us / 604_800_000_000, us / 86_400_000_000 % 7, us / 3_600_000_000 % 24, us / 60_000_000 % 60,
          us / 1_000_000 % 60, us / 1_000 % 1_000, us % 1_000)
  }

  function Format(us: nat): string {
    if us == 0 then "0s" else Render(Canonical(us))
  }

  lemma ComponentSum(n: nat, unit: string)
    requires n < INT64_HALF && IsUnit(unit)
    ensures AllNext(Component(n, unit)) && AllFirst(Component(n, unit))
    ensures ExactSum(Component(n, unit)) == n * UnitOf(unit)
  {
    DecimalNumber(n);
    if n > 0 {
      assert Component(n, unit)[1..] == [];
    }
  }

  lemma AppendComponent(segs: seq<Segment>, n: nat, unit: string, sum: int)
    requires n < INT64_HALF && IsUnit(unit) && AllNext(segs)
    requires AllFirst(segs) && ExactSum(segs) == sum
    ensures var all := segs + Component(n, unit);
            && AllNext(all) && AllFirst(all)
            && ExactSum(all) == sum + n * UnitOf(unit)
  {
    hide FirstSegment, NextSegment, UnitOf;
    ComponentSum(n, unit);
    SumAppend(segs, Component(n, unit));
  }

  lemma MixedRadix(us: nat)
    ensures us == us / 604_800_000_000 * 604_800_000_000 + us / 86_400_000_000 % 7 * 86_400_000_000
                + us / 3_600_000_000 % 24 * 3_600_000_000 + us / 60_000_000 % 60 * 60_000_000
                + us / 1_000_000 % 60 * 1_000_000 + us / 1_000 % 1_000 * 1_000 + us % 1_000
  {
    var ms := us / 1_000;
    var s, m, h, d := us / 1_000_000, us / 60_000_000, us / 3_600_000_000, us / 86_400_000_000;
    assert s == ms / 1_000;
    assert m == s / 60;
    assert h == m / 60;
    assert d == h / 24;
    assert us / 604_800_000_000 == d / 7;
  }

  /** Every number of microseconds whose nanoseconds fit int64 parses back from its canonical text. */
  lemma FormatParses(us: nat)
    requires us * 1_000 < INT64_HALF
    ensures Total(Format(us)) == Some(us * 1_000)
  {
    hide FirstSegment, NextSegment, Component, TotalFrom;
    if us == 0 {
      ZeroSeconds();
    } else {
      CanonicalSum(us);
      TotalOfSegments(Canonical(us));
    }
  }

  lemma ZeroSeconds()
    ensures Total("0s") == Some(0)
  {
    var segs := [Segment("0", "s")];
    assert Number("0"[..0]) == 0;
    assert IsUnsigned("0");
    assert NextSegment(segs[0]);
    NextIsFirst(segs[0]);
    assert segs[1..] == [];
    assert Render(segs) == "0" + "s" + "" == "0s";
    TotalOfSegments(segs);
    assert ValueOf("0") == 0;
    assert ExactSum(segs) == Amount(segs[0]) + ExactSum(segs[1..]) == 0;
  }

  lemma SevenSum(w: nat, d: nat, h: nat, m: nat, s: nat, ms: nat, us: nat)
    requires w < INT64_HALF && d < 7 && h < 24 && m < 60 && s < 60 && ms < 1_000 && us < 1_000
    ensures var segs := Seven(w, d, h, m, s, ms, us);
            && AllNext(segs) && AllFirst(segs)
            && ExactSum(segs) == 1_000 * (w * 604_800_000_000 + d * 86_400_000_000 + h * 3_600_000_000
                                          + m * 60_000_000 + s * 1_000_000 + ms * 1_000 + us)
  {
    hide FirstSegment, NextSegment, Component, ExactSum;
    ComponentSum(w, "w");
    var segs := Component(w, "w");
    AppendComponent(segs, d, "d", ExactSum(segs));
    segs := segs + Component(d, "d");
    AppendComponent(segs, h, "h", ExactSum(segs));
    segs := segs + Component(h, "h");
    AppendComponent(segs, m, "m", ExactSum(segs));
    segs := segs + Component(m, "m");
    AppendComponent(segs, s, "s", ExactSum(segs));
    segs := segs + Component(s, "s");
    AppendComponent(segs, ms, "ms", ExactSum(segs));
    segs := segs + Component(ms, "ms");
    AppendComponent(segs, us, "us", ExactSum(segs));
  }

  lemma CanonicalSum(us: nat)
    requires us * 1_000 < INT64_HALF
    ensures var segs := Canonical(us);
            && WellFormed(segs) && AllFirst(segs)
            && ExactSum(segs) == us * 1_000
  {
    hide FirstSegment, NextSegment, Component, ExactSum;
    MixedRadix(us);
    SevenSum(us / 604_800_000_000, us / 86_400_000_000 % 7, us / 3_600_000_000 % 24, us / 60_000_000 % 60,
             us / 1_000_000 % 60, us / 1_000 % 1_000, us % 1_000);
  }

  // Numbers and units in full

  function Pow10(n: nat): nat {
    if n == 0 then 1 else 10 * Pow10(n - 1)
  }

  /** A digit counts ten times as much for every digit after it. */
  lemma {:induction false} NumberAppend(a: string, b: string)
    requires AllDigits(a) && AllDigits(b)
    ensures AllDigits(a + b) && Number(a + b) == Number(a) * Pow10(|b|) + Number(b)
  {
    if b == "" {
      assert a + b == a;
    } else {
      var n := |b| - 1;
      NumberAppend(a, b[..n]);
      assert (a + b)[..|a + b| - 1] == a + b[..n] && (a + b)[|a + b| - 1] == b[n];
      TenTimes(Number(a), Pow10(n), Number(b[..n]));
    }
  }

  lemma TenTimes(x: nat, p: nat, y: nat)
    ensures (x * p + y) * 10 == x * (10 * p) + y * 10
  {}

  // A one-segment duration of a decimal number.
  lemma OneSegment(sign: string, n: nat, unit: string, v: int)
    requires IsUnit(unit) && n < INT64_HALF
    requires (sign == "" && v == n) || (sign == "+" && v == n) || (sign == "-" && v == -(n as int))
    ensures Total(sign + Decimal(n) + unit) == Some(Wrap(v * UnitOf(unit)))
  {
    hide UnitOf, IsUnit, Wrap;
    DecimalNumber(n);
    var value := sign + Decimal(n);
    var seg := Segment(value, unit);
    if sign == "" {
      assert value == Decimal(n);
    } else {
      assert value[1..] == Decimal(n) && value[0] == sign[0];
    }
    SignedValue(sign, Decimal(n), v);
    var segs := [seg];
    assert segs[1..] == [];
    assert Render(segs) == value + unit + "" == sign + Decimal(n) + unit;
    TotalOfSegments(segs);
    assert ExactSum(segs) == Amount(seg) + ExactSum(segs[1..]);
  }

  lemma SignedValue(sign: string, digits: string, v: int)
    requires digits != "" && AllDigits(digits) && Number(digits) < INT64_HALF
    requires (sign == "" && v == Number(digits)) || (sign == "+" && v == Number(digits))
          || (sign == "-" && v == -(Number(digits) as int))
    ensures IsSigned(sign + digits) && ValueOf(sign + digits) == v
  {
    if sign == "" {
      assert sign + digits == digits;
      assert IsDigit(digits[0]);
    } else {
      assert (sign + digits)[1..] == digits && (sign + digits)[0] == sign[0];
    }
  }

  /**
   The seven units in nanoseconds, with any number below 2^63 and either sign; a plus sign changes nothing. As a whole a
   number without a unit is refused, and a label alone counts nothing.
   */
  lemma UnitsInFull(n: nat)
    requires n < INT64_HALF
    ensures Total(Decimal(n) + "w") == Total("+" + Decimal(n) + "w") == Some(Wrap(n * 604_800_000_000_000))
    ensures Total("-" + Decimal(n) + "w") == Some(Wrap(-(n as int) * 604_800_000_000_000))
    ensures Total(Decimal(n) + "d") == Some(Wrap(n * 86_400_000_000_000))
    ensures Total(Decimal(n) + "h") == Some(Wrap(n * 3_600_000_000_000))
    ensures Total(Decimal(n) + "m") == Some(Wrap(n * 60_000_000_000))
    ensures Total(Decimal(n) + "s") == Some(Wrap(n * 1_000_000_000))
    ensures Total(Decimal(n) + "ms") == Some(Wrap(n * 1_000_000))
    ensures Total(Decimal(n) + "us") == Some(Wrap(n * 1_000))
  {
    hide Total, Wrap, Decimal;
    OneSegment("", n, "w", n);
    OneSegment("+", n, "w", n);
    OneSegment("-", n, "w", -(n as int));
    OneSegment("", n, "d", n);
    OneSegment("", n, "h", n);
    OneSegment("", n, "m", n);
    OneSegment("", n, "s", n);
    OneSegment("", n, "ms", n);
    OneSegment("", n, "us", n);
    assert forall u: string :: "" + Decimal(n) + u == Decimal(n) + u;
  }

  /** Where a unit may start: from 'A' on; "s" alone is nothing, "59" alone an error. */
  lemma LabelsInFull()
    ensures Total("") == Some(0) && Total("s") == Some(0) && Total("A") == Some(0)
    ensures Total("@") == None && Total("59") == None
  {
    WrapZero();
    FirstTokens("", "s", "");
    FirstTokens("", "A", "");
    assert "" + "s" + "" == "s" && "" + "A" + "" == "A";
    assert IndexWhere("@", IsLetter) == 1 && IndexWhere("59", IsLetter) == 2;
  }
}
