/**
 The variable-length code in front of every API word: one to five bytes, whose form the leading bits of the
 first byte choose ("API words" in the MikroTik RouterOS API manual).

 Bytes are numbers here; the lemma BitOperations ties the quotients and remainders below to the masks of the
 implementation.
 */
module LengthCode {
  import opened Bytes

  const LENGTH_LIMIT: nat := 0x1_0000_0000

  function EncodeLength(l: nat): seq<byte> {
    if l < 0x80 then
      [LowByte(l)]
    else if l < 0x4000 then
      [0x80 + l / 0x100, LowByte(l)]
    else if l < 0x20_0000 then
      [0xC0 + l / 0x1_0000, LowByte(l / 0x100), LowByte(l)]
    else if l < 0x1000_0000 then
      [0xE0 + l / 0x100_0000, LowByte(l / 0x1_0000), LowByte(l / 0x100), LowByte(l)]
    else
      [0xF0, LowByte(l / 0x100_0000), LowByte(l / 0x1_0000), LowByte(l / 0x100), LowByte(l)]
  }

  /**
   For every byte: the reader's masked comparisons are comparisons of quotients, what its complemented masks
   keep is a remainder, and the writer's marks are additions.
   */
  lemma BitOperations(b: bv8)
    ensures b & 0x80 == 0 <==> b as nat < 0x80
    ensures b & 0xC0 == 0x80 <==> b as nat / 0x40 == 2
    ensures b & 0xE0 == 0xC0 <==> b as nat / 0x20 == 6
    ensures b & 0xF0 == 0xE0 <==> b as nat / 0x10 == 14
    ensures b & 0xF8 == 0xF0 <==> b as nat / 0x08 == 30
    ensures b & 0xC0 == 0x80 ==> (b & !0xC0) as nat == b as nat % 0x40
    ensures b & 0xE0 == 0xC0 ==> (b & !0xE0) as nat == b as nat % 0x20
    ensures b & 0xF0 == 0xE0 ==> (b & !0xF0) as nat == b as nat % 0x10
    ensures b < 0x40 ==> (b | 0x80) as nat == 0x80 + b as nat
    ensures b < 0x20 ==> (b | 0xC0) as nat == 0xC0 + b as nat
    ensures b < 0x10 ==> (b | 0xE0) as nat == 0xE0 + b as nat
  {}

  /**
   What a first byte says: how many bytes follow it, and the top digits of the length it carries itself.
   0xF0 to 0xF7 carry nothing; from 0xF8 on a byte announces nothing and stands for itself.
   */
  datatype Form = Form(more: nat, high: nat)

  function FormOf(first: byte): Form {
    if first < 0x80 then Form(0, first)
    else if first < 0xC0 then Form(1, first - 0x80)
    else if first < 0xE0 then Form(2, first - 0xC0)
    else if first < 0xF0 then Form(3, first - 0xE0)
    else if first < 0xF8 then Form(4, 0)
    else Form(0, first)
  }

  // A stream starts with a complete length code when the bytes its first byte announces are there.
  predicate HasLength(s: seq<byte>) {
    s != [] && FormOf(s[0]).more < |s|
  }

  function LengthSize(s: seq<byte>): nat
    requires HasLength(s)
  {
    1 + FormOf(s[0]).more
  }

  // The base-256 number whose digits are the part in the first byte and then the announced bytes.
  function LengthValue(s: seq<byte>): nat
    requires HasLength(s)
  {
    var Form(more, high) := FormOf(s[0]);
    if more == 0 then high
    else if more == 1 then high * 0x100 + s[1]
    else if more == 2 then (high * 0x100 + s[1]) * 0x100 + s[2]
    else if more == 3 then ((high * 0x100 + s[1]) * 0x100 + s[2]) * 0x100 + s[3]
    else (((high * 0x100 + s[1]) * 0x100 + s[2]) * 0x100 + s[3]) * 0x100 + s[4]
  }

  // Digits

  lemma Mod16(l: nat)
    ensures l % 0x1_0000 == l / 0x100 % 0x100 * 0x100 + l % 0x100
  {
    var q, r := l / 0x100, l % 0x100;
    assert l == q / 0x100 * 0x1_0000 + (q % 0x100 * 0x100 + r);
  }

  lemma Mod24(l: nat)
    ensures l % 0x100_0000 == l / 0x100 % 0x1_0000 * 0x100 + l % 0x100
  {
    var q, r := l / 0x100, l % 0x100;
    assert l == q / 0x1_0000 * 0x100_0000 + (q % 0x1_0000 * 0x100 + r);
  }

  lemma Mod32(l: nat)
    ensures l % LENGTH_LIMIT == l / 0x100 % 0x100_0000 * 0x100 + l % 0x100
  {
    var q, r := l / 0x100, l % 0x100;
    assert l == q / 0x100_0000 * LENGTH_LIMIT + (q % 0x100_0000 * 0x100 + r);
  }

  lemma Quotients(l: nat)
    ensures l / 0x1_0000 == l / 0x100 / 0x100
    ensures l / 0x100_0000 == l / 0x100 / 0x1_0000
  {}

  lemma FourDigits(l: nat)
    ensures ((l / 0x100_0000 % 0x100 * 0x100 + l / 0x1_0000 % 0x100) * 0x100 + l / 0x100 % 0x100) * 0x100 + l % 0x100
         == l % LENGTH_LIMIT
  {
    Mod32(l);
    Mod24(l / 0x100);
    Mod16(l / 0x1_0000);
    Quotients(l);
    Quotients(l / 0x100);
  }

  lemma ThreeDigits(l: nat)
    ensures (l / 0x1_0000 * 0x100 + l / 0x100 % 0x100) * 0x100 + l % 0x100 == l
  {
    Quotients(l);
  }

  // Round trip

  lemma CodeForm(l: nat)
    ensures var code := EncodeLength(l); code[0] <= 0xF0 && HasLength(code) && LengthSize(code) == |code|
    ensures FormOf(EncodeLength(l)[0]).high ==
            if l < 0x80 then l else if l < 0x4000 then l / 0x100 else if l < 0x20_0000 then l / 0x1_0000
            else if l < 0x1000_0000 then l / 0x100_0000 else 0
  {}

  lemma CodeValue(l: nat)
    ensures var code := EncodeLength(l); HasLength(code) && LengthValue(code) == l % LENGTH_LIMIT
  {
    hide EncodeLength, LengthValue;
    if l < 0x4000 {
      CodeValueTwo(l);
    } else if l < 0x20_0000 {
      CodeValueThree(l);
    } else if l < 0x1000_0000 {
      CodeValueFour(l);
    } else {
      CodeValueFive(l);
    }
  }

  lemma CodeValueTwo(l: nat)
    requires l < 0x4000
    ensures var code := EncodeLength(l); HasLength(code) && LengthValue(code) == l
  {}

  lemma CodeValueThree(l: nat)
    requires 0x4000 <= l < 0x20_0000
    ensures var code := EncodeLength(l); HasLength(code) && LengthValue(code) == l
  {
    ThreeDigits(l);
  }

  lemma CodeValueFive(l: nat)
    requires 0x1000_0000 <= l
    ensures var code := EncodeLength(l); HasLength(code) && LengthValue(code) == l % LENGTH_LIMIT
  {
    FourDigits(l);
  }

  lemma CodeValueFour(l: nat)
    requires 0x20_0000 <= l < 0x1000_0000
    ensures var code := EncodeLength(l); HasLength(code) && LengthValue(code) == l
  {
    FourDigits(l);
    assert l / 0x100_0000 % 0x100 == l / 0x100_0000;
  }

  /** Every length, in front of any bytes, reads back modulo 2^32 and leaves exactly those bytes. */
  lemma LengthRoundTrip(l: nat, tail: seq<byte>)
    ensures var s := EncodeLength(l) + tail;
            HasLength(s) && LengthSize(s) == |EncodeLength(l)| && LengthValue(s) == l % LENGTH_LIMIT
  {
    CodeForm(l);
    CodeValue(l);
    LengthLocal(EncodeLength(l), EncodeLength(l) + tail);
  }

  lemma CodeInFront(l: nat, tail: seq<byte>)
    ensures var s := EncodeLength(l) + tail;
            HasLength(s) && LengthSize(s) == |EncodeLength(l)| && LengthValue(s) <= l
    ensures LengthValue(EncodeLength(l) + tail) == l <==> l < LENGTH_LIMIT
  {
    LengthRoundTrip(l, tail);
  }

  // The length depends on the bytes of its code only.
  lemma LengthLocal(s: seq<byte>, t: seq<byte>)
    requires HasLength(s) && s[..LengthSize(s)] <= t
    ensures HasLength(t) && LengthSize(t) == LengthSize(s) && LengthValue(t) == LengthValue(s)
  {
    var p := s[..LengthSize(s)];
    assert forall i :: 0 <= i < |p| ==> s[i] == p[i] == t[i];
  }

  /** No code is the beginning of another one: what follows two equal streams' codes is equal too. */
  lemma PrefixFree(a: nat, b: nat, x: seq<byte>, y: seq<byte>)
    requires EncodeLength(a) + x == EncodeLength(b) + y
    ensures a % LENGTH_LIMIT == b % LENGTH_LIMIT && x == y
  {
    LengthRoundTrip(a, x);
    LengthRoundTrip(b, y);
    var n := |EncodeLength(a)|;
    assert x == (EncodeLength(a) + x)[n..];
    assert y == (EncodeLength(b) + y)[n..];
  }

  // Sizes

  function SizeFor(l: nat): nat {
    if l < 0x80 then 1 else if l < 0x4000 then 2 else if l < 0x20_0000 then 3 else if l < 0x1000_0000 then 4 else 5
  }

  // A form below 0xF8 is never too short for the length it carries.
  lemma FormBounds(s: seq<byte>)
    requires HasLength(s)
    ensures LengthValue(s) < LENGTH_LIMIT
    ensures s[0] < 0xF8 ==> SizeFor(LengthValue(s)) <= LengthSize(s)
    ensures s[0] >= 0xF8 ==> LengthSize(s) == 1 && LengthValue(s) == s[0]
  {}

  /**
   Among the codes the reader accepts for a length, the writer's is a shortest one, except that a bare byte from
   0xF8 on is accepted for its own value and is one byte shorter.
   */
  lemma Shortest(s: seq<byte>)
    requires HasLength(s)
    ensures |EncodeLength(LengthValue(s))| <= LengthSize(s) + if s[0] >= 0xF8 then 1 else 0
    ensures |EncodeLength(LengthValue(s))| > LengthSize(s) <==> s[0] >= 0xF8
  {
    FormBounds(s);
    assert |EncodeLength(LengthValue(s))| == SizeFor(LengthValue(s));
  }

  /** A code of the shortest size that leaves the low bits of 0xF1 to 0xF7 clear is the writer's code. */
  lemma Canonical(s: seq<byte>)
    requires HasLength(s) && s[0] <= 0xF0
    ensures LengthSize(s) == |EncodeLength(LengthValue(s))| <==> s[..LengthSize(s)] == EncodeLength(LengthValue(s))
  {
    hide EncodeLength, LengthValue;
    var n := LengthSize(s);
    var v := LengthValue(s);
    FormBounds(s);
    if n == |EncodeLength(v)| {
      CodeForm(v);
      CodeValue(v);
      LengthLocal(s, s[..n]);
      SameCode(s[..n], EncodeLength(v));
    }
  }

  lemma SameDigit(x: nat, a: byte, y: nat, b: byte)
    ensures x * 0x100 + a == y * 0x100 + b <==> x == y && a == b
  {}

  lemma SameCode(c: seq<byte>, d: seq<byte>)
    requires HasLength(c) && HasLength(d) && LengthSize(c) == |c| == |d| == LengthSize(d)
    requires c[0] <= 0xF0 && d[0] <= 0xF0 && LengthValue(c) == LengthValue(d)
    ensures c == d
  {
    var h, g := FormOf(c[0]).high, FormOf(d[0]).high;
    if |c| > 1 {
      SameDigit(h, c[1], g, d[1]);
      if |c| > 2 {
        SameDigit(h * 0x100 + c[1], c[2], g * 0x100 + d[1], d[2]);
        if |c| > 3 {
          SameDigit((h * 0x100 + c[1]) * 0x100 + c[2], c[3], (g * 0x100 + d[1]) * 0x100 + d[2], d[3]);
        }
      }
    }
  }

  // As numbers

  // The number whose base-256 digits these are, the first one counting most.
  function BigEndian(s: seq<byte>): nat {
    if s == [] then 0 else BigEndian(s[..|s| - 1]) * 0x100 + s[|s| - 1]
  }

  // What is added to a length that is sent in n bytes.
  function Mark(n: nat): nat {
    if n == 1 then 0 else if n == 2 then 0x8000 else if n == 3 then 0xC0_0000 else if n == 4 then 0xE000_0000
    else 0xF0_0000_0000
  }

  lemma BigEndianUnfolds(s: seq<byte>)
    ensures |s| == 1 ==> BigEndian(s) == s[0]
    ensures |s| == 2 ==> BigEndian(s) == s[0] as int * 0x100 + s[1]
    ensures |s| == 3 ==> BigEndian(s) == (s[0] as int * 0x100 + s[1]) * 0x100 + s[2]
    ensures |s| == 4 ==> BigEndian(s) == ((s[0] as int * 0x100 + s[1]) * 0x100 + s[2]) * 0x100 + s[3]
    ensures |s| == 5 ==> BigEndian(s) == (((s[0] as int * 0x100 + s[1]) * 0x100 + s[2]) * 0x100 + s[3]) * 0x100 + s[4]
  {
    if 1 < |s| <= 5 {
      BigEndianUnfolds(s[..|s| - 1]);
    } else if |s| == 1 {
      assert s[..0] == [];
    }
  }

  /**
   On the wire a code is one big-endian number: the length plus the mark of its size. A reader of a first byte up to
   0xF0 gets that number back without the mark; from 0xF1 to 0xF7 the four bytes after it are the length.
   */
  lemma CodeIsNumber(l: nat, s: seq<byte>)
    ensures BigEndian(EncodeLength(l)) == l % LENGTH_LIMIT + Mark(|EncodeLength(l)|)
    ensures |EncodeLength(l)| ==
            if l < 0x80 then 1 else if l < 0x4000 then 2 else if l < 0x20_0000 then 3
            else if l < 0x1000_0000 then 4 else 5
    ensures HasLength(s) && s[0] <= 0xF0 ==> LengthValue(s) == BigEndian(s[..LengthSize(s)]) - Mark(LengthSize(s))
    ensures HasLength(s) && 0xF1 <= s[0] <= 0xF7 ==> LengthSize(s) == 5 && LengthValue(s) == BigEndian(s[1..5])
    ensures HasLength(s) && 0xF8 <= s[0] ==> LengthSize(s) == 1 && LengthValue(s) == s[0]
  {
    CodeForm(l);
    CodeValue(l);
    ReadIsNumber(EncodeLength(l));
    var code := EncodeLength(l);
    assert code[..|code|] == code;
    if HasLength(s) {
      ReadIsNumber(s);
    }
  }

  lemma ReadIsNumber(s: seq<byte>)
    requires HasLength(s)
    ensures s[0] <= 0xF0 ==> LengthValue(s) == BigEndian(s[..LengthSize(s)]) - Mark(LengthSize(s))
    ensures 0xF1 <= s[0] <= 0xF7 ==> LengthSize(s) == 5 && LengthValue(s) == BigEndian(s[1..5])
  {
    BigEndianUnfolds(s[..LengthSize(s)]);
    if LengthSize(s) == 5 {
      BigEndianUnfolds(s[1..5]);
    }
  }
}
