/** API words: a length code and that many bytes, decoded from the device's code page. */
module Words {
  import opened Bytes
  import opened LengthCode

  type word = seq<byte>

  // Why a read from the connection stopped short.
  datatype IoError = EOF | UnexpectedEOF | Broken(code: int)

  datatype ReadError = Io(error: IoError) | InvalidWord(word: word)

  // The result of reading one item off the front of a stream, with the bytes left over.
  datatype Read<+T> = Ok(value: T, rest: seq<byte>) | Fail(error: ReadError, rest: seq<byte>)

  /**
   Byte-by-byte translation of the device's code page (Windows-1250) to UTF-8. ASCII bytes stand for themselves,
   the others become one or more bytes outside ASCII.
   */
  type CodePage = f: byte -> seq<byte> |
      forall b: byte :: if b < 0x80 then f(b) == [b] else f(b) != [] && f(b)[0] >= 0x80
    witness (b: byte) => [b]

  // What the reader of a connection depends on besides the bytes that arrive.
  datatype Link = Link(codePage: CodePage, end: IoError)

  // The error of a read that wanted more bytes than the `got` it obtained before the stream ended.
  function Short(end: IoError, got: nat): ReadError {
    Io(if got > 0 && end == EOF then UnexpectedEOF else end)
  }

  function Decode(page: CodePage, s: seq<byte>): seq<byte> {
    if s == [] then [] else page(s[0]) + Decode(page, s[1..])
  }

  function EncodeWord(w: word): seq<byte> {
    EncodeLength(|w|) + w
  }

  function TakeLength(link: Link, s: seq<byte>): Read<nat> {
    if HasLength(s) then Ok(LengthValue(s), s[LengthSize(s)..])
    else Fail(Short(link.end, if s == [] then 0 else |s| - 1), [])
  }

  function TakeWord(link: Link, s: seq<byte>): (r: Read<word>)
    ensures r.Ok? ==> |r.rest| < |s|
  {
    match TakeLength(link, s)
    case Fail(e, rest) => Fail(e, rest)
    case Ok(l, rest) =>
      if l <= |rest| then Ok(Decode(link.codePage, rest[..l]), rest[l..]) else Fail(Short(link.end, |rest|), [])
  }

  // Decoding

  predicate Ascii(s: seq<byte>) {
    forall i :: 0 <= i < |s| ==> s[i] < 0x80
  }

  lemma {:induction false} DecodeAscii(page: CodePage, s: seq<byte>)
    ensures Ascii(s) ==> Decode(page, s) == s
    ensures Ascii(Decode(page, s)) ==> Ascii(s)
    ensures |s| <= |Decode(page, s)|
  {
    if s != [] {
      DecodeAscii(page, s[1..]);
      var d := Decode(page, s);
      var head := page(s[0]);
      assert d == head + Decode(page, s[1..]);
      assert s == [s[0]] + s[1..];
      if Ascii(s) {
        assert Ascii(s[1..]);
      }
      if Ascii(d) {
        assert d[0] == head[0];
        assert forall i :: 0 <= i < |Decode(page, s[1..])| ==> Decode(page, s[1..])[i] == d[|head| + i];
        assert Ascii(Decode(page, s[1..]));
      }
    }
  }

  lemma {:induction false} DecodeAppend(page: CodePage, a: seq<byte>, b: seq<byte>)
    ensures Decode(page, a + b) == Decode(page, a) + Decode(page, b)
  {
    if a == [] {
      assert a + b == b;
    } else {
      assert (a + b)[1..] == a[1..] + b && (a + b)[0] == a[0];
      DecodeAppend(page, a[1..], b);
    }
  }

  /** Every byte is decoded by itself, in place: the code page decides what it becomes. */
  lemma DecodeEach(page: CodePage, a: seq<byte>, b: byte, c: seq<byte>)
    ensures Decode(page, a + [b] + c) == Decode(page, a) + page(b) + Decode(page, c)
  {
    DecodeAppend(page, a + [b], c);
    DecodeAppend(page, a, [b]);
    assert Decode(page, [b]) == page(b) + Decode(page, []);
  }

  // Complete words

  predicate HasWord(s: seq<byte>) {
    HasLength(s) && LengthSize(s) + LengthValue(s) <= |s|
  }

  function WordEnd(s: seq<byte>): (n: nat)
    requires HasWord(s)
    ensures 1 <= n <= |s|
  {
    LengthSize(s) + LengthValue(s)
  }

  lemma TakeWordOk(link: Link, s: seq<byte>)
    ensures TakeWord(link, s).Ok? <==> HasWord(s)
    ensures HasWord(s) ==>
              TakeWord(link, s) == Ok(Decode(link.codePage, s[LengthSize(s)..WordEnd(s)]), s[WordEnd(s)..])
    ensures !HasWord(s) ==> TakeWord(link, s).error.Io? && TakeWord(link, s).rest == []
  {
    if HasWord(s) {
      var rest := s[LengthSize(s)..];
      var l := LengthValue(s);
      assert rest[..l] == s[LengthSize(s)..WordEnd(s)];
      assert rest[l..] == s[WordEnd(s)..];
    }
  }

  // The stream ends where the reader expects the first of the bytes it asks for: at the start, after the first byte of
  // a longer code, or after the code.
  predicate EndsBetweenReads(s: seq<byte>) {
    s == [] || (|s| == 1 && !HasLength(s)) || (HasLength(s) && LengthSize(s) == |s|)
  }

  /** The error of an incomplete word: EOF in the middle of a read is unexpected, other errors are as they are. */
  lemma ShortRead(link: Link, s: seq<byte>)
    requires !HasWord(s)
    ensures TakeWord(link, s) ==
            Fail(Io(if link.end == EOF && !EndsBetweenReads(s) then UnexpectedEOF else link.end), [])
  {}

  // Whether a word is complete, and where it ends, depends on the bytes up to its end only.
  lemma WordLocal(s: seq<byte>, t: seq<byte>)
    requires HasWord(s) && s[..WordEnd(s)] <= t
    ensures HasWord(t) && WordEnd(t) == WordEnd(s) && LengthSize(t) == LengthSize(s)
    ensures t[..WordEnd(t)] == s[..WordEnd(s)]
  {
    var n := LengthSize(s);
    var p := s[..WordEnd(s)];
    assert p[0] == s[0] == t[0];
    assert s[1..n] == p[1..n] == t[1..n];
  }

  lemma TakeWordLocal(a: Link, b: Link, p: seq<byte>, x: seq<byte>, y: seq<byte>)
    requires a.codePage == b.codePage && TakeWord(a, p + x).Ok? && TakeWord(a, p + x).rest == x
    ensures TakeWord(b, p + y) == Ok(TakeWord(a, p + x).value, y)
  {
    var s, t := p + x, p + y;
    TakeWordOk(a, s);
    var n, m := LengthSize(s), WordEnd(s);
    assert |s[m..]| == |x|;
    assert s[..m] == p == t[..m];
    WordLocal(s, t);
    TakeWordOk(b, t);
    assert s[n..m] == p[n..] == t[n..m];
    assert t[m..] == y;
  }

  lemma TakeAfterCode(link: Link, code: seq<byte>, w: word, tail: seq<byte>)
    requires HasLength(code + (w + tail)) && LengthSize(code + (w + tail)) == |code|
    requires LengthValue(code + (w + tail)) <= |w|
    ensures TakeWord(link, code + w + tail).Ok?
    ensures TakeWord(link, code + w + tail).rest == tail <==> LengthValue(code + (w + tail)) == |w|
    ensures LengthValue(code + (w + tail)) == |w| ==>
              TakeWord(link, code + w + tail).value == Decode(link.codePage, w)
  {
    hide HasLength, LengthSize, LengthValue, Decode;
    var l := LengthValue(code + (w + tail));
    assert code + w + tail == code + (w + tail);
    assert (code + (w + tail))[|code|..] == w + tail;
    assert |(w + tail)[l..]| == |w| - l + |tail|;
    if l == |w| {
      assert (w + tail)[..l] == w && (w + tail)[l..] == tail;
    }
  }

  /** A word put on the wire reads back, whatever follows it, exactly when its length fits 32 bits. */
  lemma WordRoundTrip(link: Link, w: word, tail: seq<byte>)
    ensures TakeWord(link, EncodeWord(w) + tail).Ok?
    ensures TakeWord(link, EncodeWord(w) + tail).rest == tail <==> |w| < LENGTH_LIMIT
    ensures |w| < LENGTH_LIMIT ==> TakeWord(link, EncodeWord(w) + tail).value == Decode(link.codePage, w)
  {
    hide EncodeLength, TakeWord;
    CodeInFront(|w|, w + tail);
    TakeAfterCode(link, EncodeLength(|w|), w, tail);
  }

  /** The writer's form of a word is never longer than the form it was read in, bare length bytes apart. */
  lemma RewrittenWord(s: seq<byte>, w: word)
    requires HasWord(s) && |w| == LengthValue(s)
    ensures |w| < LENGTH_LIMIT
    ensures |EncodeWord(w)| <= WordEnd(s) + if s[0] >= 0xF8 then 1 else 0
  {
    FormBounds(s);
    Shortest(s);
  }
}
