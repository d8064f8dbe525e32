/** The reader of a connection: it fills small buffers from the stream, word after word. */
module Reader {
  import opened Bytes
  import opened LengthCode
  import opened Words
  import opened Sentences

  datatype Result<+T> = Success(value: T) | Failure(error: ReadError)

  // The big-endian number in the first n bytes.
  ghost function Number(s: seq<byte>, n: nat): nat
    requires n <= |s|
  {
    if n == 0 then 0 else Number(s, n - 1) * 0x100 + s[n - 1]
  }

  // The four-byte buffer after a complete length code was read into its end.
  ghost function Image(s: seq<byte>): (buf: seq<byte>)
    requires HasLength(s)
    ensures |buf| == 4
  {
    match FormOf(s[0]).more
    case 0 => [0, 0, 0, s[0]]
    case 1 => [0, 0, s[0] - 0x80, s[1]]
    case 2 => [0, s[0] - 0xC0, s[1], s[2]]
    case 3 => [s[0] - 0xE0, s[1], s[2], s[3]]
    case _ => [s[1], s[2], s[3], s[4]]
  }

  lemma ImageValue(s: seq<byte>)
    requires HasLength(s)
    ensures Number(Image(s), 4) == LengthValue(s)
  {
    var d := Image(s);
    assert Number(d, 1) == d[0];
    assert Number(d, 2) == Number(d, 1) * 0x100 + d[1];
    assert Number(d, 3) == Number(d, 2) * 0x100 + d[2];
    assert Number(d, 4) == Number(d, 3) * 0x100 + d[3];
  }

  // The form of a first byte, as the cases of the length reader tell them apart.
  lemma FormBits(first: byte)
    ensures FormOf(first) ==
            if first < 0x80 then Form(0, first)
            else if first / 0x40 == 2 then Form(1, first % 0x40)
            else if first / 0x20 == 6 then Form(2, first % 0x20)
            else if first / 0x10 == 14 then Form(3, first % 0x10)
            else if first / 0x08 == 30 then Form(4, 0)
            else Form(0, first)
  {}

  class Reader {
    const link: Link
    // The bytes the device still sends; every read takes some off the front.
    var unread: seq<byte>

    constructor (link: Link, input: seq<byte>)
      ensures this.link == link && unread == input
    {
      this.link := link;
      unread := input;
    }

    // The read result is the specification's, and exactly what it leaves stays unread.
    ghost predicate Took<T(!new)>(result: Result<T>, spec: Read<T>)
      reads this
    {
      && unread == spec.rest
      && (spec.Ok? ==> result == Success(spec.value))
      && (spec.Fail? ==> result == Failure(spec.error))
    }

    method ReadBytes(buf: array<byte>, from: nat) returns (err: Option<ReadError>)
      requires from <= buf.Length
      modifies this`unread, buf
      ensures var size := buf.Length - from;
              if size <= |old(unread)| then
                err == None && unread == old(unread[size..]) && buf[..] == old(buf[..from] + unread[..size])
              else
                err == Some(Short(link.end, |old(unread)|)) && unread == []
    {
      var size := buf.Length - from;
      var n := if size <= |unread| then size else |unread|;
      for i := 0 to n
        invariant unread == old(unread)
        invariant forall k :: 0 <= k < from ==> buf[k] == old(buf[k])
        invariant forall k :: 0 <= k < i ==> buf[from + k] == unread[k]
      {
        buf[from + i] := unread[i];
      }
      unread := unread[n..];
      if n < size {
        return Some(Short(link.end, n));
      }
      return None;
    }

    // The switch of the length reader: the first byte's own digits, then the bytes it announces.
    method FillLength(buf: array<byte>) returns (err: Option<ReadError>)
      requires buf[..] == [0, 0, 0, 0]
      modifies this`unread, buf
      ensures err.None? <==> HasLength(old(unread))
      ensures err.None? ==> buf[..] == Image(old(unread)) && unread == old(unread[LengthSize(unread)..])
      ensures err.Some? ==> TakeLength(link, old(unread)) == Fail(err.value, unread)
    {
      if unread == [] {
        return Some(Io(link.end));
      }
      buf[3] := unread[0];
      unread := unread[1..];
      assert buf[..] == [0, 0, 0, old(unread[0])];

      err := None;
      var first := buf[3];
      FormBits(first);
      hide FormOf;
      if first < 0x80 {
      } else if first / 0x40 == 2 {
        buf[2] := first % 0x40;
        err := ReadBytes(buf, 3);
      } else if first / 0x20 == 6 {
        buf[1] := first % 0x20;
        err := ReadBytes(buf, 2);
      } else if first / 0x10 == 14 {
        buf[0] := first % 0x10;
        err := ReadBytes(buf, 1);
      } else if first / 0x08 == 30 {
        err := ReadBytes(buf, 0);
      }
    }

    method ReadLength() returns (r: Result<nat>)
      modifies this`unread
      ensures Took(r, TakeLength(link, old(unread)))
    {
      var buf := new byte[4](_ => 0);
      var err := FillLength(buf);
      if err.Some? {
        return Failure(err.value);
      }
      var res: nat := 0;
      for i := 0 to 4
        invariant res == Number(buf[..], i)
      {
        res := res * 0x100 + buf[i];
      }
      ImageValue(old(unread));
      return Success(res);
    }

    method ReadWord() returns (r: Result<word>)
      modifies this`unread
      ensures Took(r, TakeWord(link, old(unread)))
    {
      var l := ReadLength();
      if l.Failure? {
        return Failure(l.error);
      }
      ghost var after := unread;
      var b := new byte[l.value](_ => 0);
      var err := ReadBytes(b, 0);
      if err.Some? {
        return Failure(err.value);
      }
      assert b[..] == after[..l.value];
      return Success(Decode(link.codePage, b[..]));
    }

    method ReadSentence() returns (r: Result<Sentence>)
      modifies this`unread
      ensures Took(r, TakeSentence(link, old(unread)))
    {
      hide TakeWord;
      var sen := BLANK;
      while true
        invariant TakeInto(link, sen, unread) == TakeSentence(link, old(unread))
        decreases |unread|
      {
        var buf := ReadWord();
        if buf.Failure? {
          return Failure(buf.error);
        }
        var w := buf.value;
        ghost var next := Absorb(sen, w);
        if w == [] {
          return Success(sen);
        }
        if sen.word == [] {
          sen := sen.(word := w);
        } else if TAG_PREFIX <= w {
          sen := sen.(tag := w[5..]);
        } else if w[0] == EQUALS {
          var t := SplitAtEquals(w[1..]);
          assert w[1..][..|w| - 1] == w[1..];
          if |t| == 1 {
            sen := sen.(attrs := sen.attrs[t[0] := []]);
          } else {
            sen := sen.(attrs := sen.attrs[t[0] := t[1]]);
          }
        } else {
          return Failure(InvalidWord(w));
        }
        assert next == Some(sen);
      }
    }
  }

  // Split in two at the first '=', or in one piece when there is none.
  method SplitAtEquals(s: seq<byte>) returns (parts: seq<seq<byte>>)
    ensures |parts| == 1 ==> parts[0] == s && EQUALS !in s
    ensures |parts| == 2 ==> s == parts[0] + [EQUALS] + parts[1] && EQUALS !in parts[0]
    ensures |parts| == 1 || |parts| == 2
    ensures var i := IndexOf(s, EQUALS);
            parts == if i < |s| then [s[..i], s[i + 1..]] else [s]
  {
    var i := 0;
    while i < |s| && s[i] != EQUALS
      invariant i <= |s| && EQUALS !in s[..i]
      invariant i <= IndexOf(s, EQUALS)
    {
      i := i + 1;
    }
    if i == |s| {
      return [s];
    }
    return [s[..i], s[i + 1..]];
  }
}
