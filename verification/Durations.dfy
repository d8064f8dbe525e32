/**
 The tokenising duration parser: value, unit, value, unit, ... summed up in wrapping 64-bit nanoseconds. A Go string
 is the sequence of its bytes, each written as the character with that code.
 */
module Durations {
  import opened Bytes

  const INT64_HALF: int := 0x8000_0000_0000_0000
  const INT64_RANGE: int := 0x1_0000_0000_0000_0000

  // The int64 value congruent to x modulo 2^64.
  function Wrap(x: int): int {
    (x + INT64_HALF) % INT64_RANGE - INT64_HALF
  }

  predicate FitsInt64(x: int) {
    -INT64_HALF <= x < INT64_HALF
  }

  predicate IsDigit(c: char) {
    '0' <= c <= '9'
  }

  predicate IsLetter(c: char) {
    'A' <= c
  }

  // Position of the first character that satisfies p, or |s|.
  function IndexWhere(s: string, p: char -> bool): (i: nat)
    ensures i <= |s| && (i < |s| ==> p(s[i]))
    ensures forall k :: 0 <= k < i ==> !p(s[k])
  {
    if s == "" || p(s[0]) then 0 else 1 + IndexWhere(s[1..], p)
  }

  predicate AllDigits(s: string) {
    forall i :: 0 <= i < |s| ==> IsDigit(s[i])
  }

  function Number(s: string): nat
    requires AllDigits(s)
  {
    if s == "" then 0 else Number(s[..|s| - 1]) * 10 + (s[|s| - 1] as int - '0' as int)
  }

  // strconv.Atoi on a 64-bit machine.
  function Atoi(s: string): Option<int> {
    var signed := s != "" && (s[0] == '-' || s[0] == '+');
    var body := if signed then s[1..] else s;
    if body == "" || !AllDigits(body) then None else
      var v: int := if signed && s[0] == '-' then -(Number(body) as int) else Number(body);
      if FitsInt64(v) then Some(v) else None
  }

  // Nanoseconds of a unit.
  function UnitNanos(unit: string): Option<nat> {
    if unit == "w" then Some(604_800_000_000_000)
    else if unit == "d" then Some(86_400_000_000_000)
    else if unit == "h" then Some(3_600_000_000_000)
    else if unit == "m" then Some(60_000_000_000)
    else if unit == "s" then Some(1_000_000_000)
    else if unit == "ms" then Some(1_000_000)
    else if unit == "us" then Some(1_000)
    else None
  }

  function AdjustDuration(value: int, unit: string): Option<int> {
    match UnitNanos(unit)
    case Some(nanos) => Some(Wrap(value * nanos))
    case None => None
  }

  datatype Parts = Parts(dur: int, rest: string)

  // The first value and unit as a duration, and the rest of the input; None is an error.
  function GetDurationParts(inp: string): (r: Option<Parts>)
    ensures r.Some? ==> |r.value.rest| < |inp|
  {
    var unitIdx := IndexWhere(inp, IsLetter);
    if unitIdx == |inp| then None else
      var valuePart, tail := inp[..unitIdx], inp[unitIdx..];
      var nextIdx := IndexWhere(tail, IsDigit);
      var unit, rest := tail[..nextIdx], tail[nextIdx..];
      if unit == "" then None
      else if valuePart == "" then Some(Parts(0, rest))
      else
        match Atoi(valuePart)
        case None => None
        case Some(v) =>
          match AdjustDuration(v, unit)
          case None => None
          case Some(d) => Some(Parts(d, rest))
  }

  function TotalFrom(total: int, dur: string): Option<int>
    decreases |dur|
  {
    if dur == "" then Some(total) else
      match GetDurationParts(dur)
      case None => None
      case Some(p) => TotalFrom(Wrap(total + p.dur), p.rest)
  }

  /** The nanosecond total of a duration, or None when it is invalid. */
  function Total(duration: string): Option<int> {
    TotalFrom(0, duration)
  }

  // The two loops of the implementation.

  method MetricFromDuration(duration: string) returns (nanos: Option<int>)
    ensures nanos == Total(duration)
  {
    hide GetDurationParts;
    var totalDur := 0;
    var dur := duration;
    while dur != ""
      invariant TotalFrom(totalDur, dur) == Total(duration)
      decreases |dur|
    {
      var part := GetDurationParts(dur);
      if part.None? {
        return None;
      }
      totalDur := Wrap(totalDur + part.value.dur);
      dur := part.value.rest;
    }
    return Some(totalDur);
  }

  // Unix seconds of an instant in nanoseconds since the epoch, rounded down.
  function Seconds(nanos: int): (s: int)
    ensures s * 1_000_000_000 <= nanos < (s + 1) * 1_000_000_000
  {
    nanos / 1_000_000_000
  }

  method UnixTimeFromDuration(now: int, duration: string) returns (seconds: Option<int>)
    ensures seconds.Some? <==> Total(duration).Some?
    ensures seconds.Some? ==>
              var total := Total(duration).value;
              var instant := now - if total == -INT64_HALF then INT64_HALF else total;
              seconds.value * 1_000_000_000 <= instant < (seconds.value + 1) * 1_000_000_000
  {
    hide GetDurationParts, Seconds;
    var totalDur := 0;
    var dur := duration;
    while dur != ""
      invariant TotalFrom(totalDur, dur) == Total(duration)
      invariant FitsInt64(totalDur)
      decreases |dur|
    {
      var part := GetDurationParts(dur);
      if part.None? {
        return None;
      }
      WrapFits(totalDur + part.value.dur);
      totalDur := Wrap(totalDur + part.value.dur);
      dur := part.value.rest;
    }
    WrapNegation(totalDur);
    return Some(Seconds(now + Wrap(-totalDur)));
  }

  // Wrapping

  lemma WrapFits(x: int)
    ensures FitsInt64(Wrap(x))
    ensures Wrap(x) == x <==> FitsInt64(x)
    ensures (Wrap(x) - x) % INT64_RANGE == 0
  {}

  lemma WrapNegation(x: int)
    requires FitsInt64(x)
    ensures Wrap(-x) == if x == -INT64_HALF then x else -x
  {}

  /** Wrapping early or late makes no difference. */
  lemma WrapSum(a: int, b: int)
    ensures Wrap(a + Wrap(b)) == Wrap(a + b) == Wrap(Wrap(a) + b)
  {
    WrapShift(a + b, (b + INT64_HALF) / INT64_RANGE);
    WrapShift(a + b, (a + INT64_HALF) / INT64_RANGE);
  }

  lemma WrapShift(x: int, k: int)
    ensures Wrap(x - k * INT64_RANGE) == Wrap(x)
  {
    var q, r := (x + INT64_HALF) / INT64_RANGE, (x + INT64_HALF) % INT64_RANGE;
    assert x - k * INT64_RANGE + INT64_HALF == (q - k) * INT64_RANGE + r;
  }
}
