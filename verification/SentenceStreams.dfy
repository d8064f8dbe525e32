/** What reading sentences off a byte stream guarantees: round trip, truncation, locality and normalisation. */
module SentenceStreams {
  import opened Bytes
  import opened LengthCode
  import opened Words
  import opened Sentences

  // The non-empty words up to the next empty one.
  function TakeWords(link: Link, s: seq<byte>): (r: Read<seq<word>>)
    ensures r.Ok? ==> |r.rest| < |s| && forall i :: 0 <= i < |r.value| ==> r.value[i] != []
    decreases |s|
  {
    match TakeWord(link, s)
    case Fail(e, rest) => Fail(e, rest)
    case Ok(w, rest) =>
      if w == [] then Ok([], rest) else
        match TakeWords(link, rest)
        case Fail(e, rest') => Fail(e, rest')
        case Ok(ws, rest') => Ok([w] + ws, rest')
  }

  function TakeSentences(link: Link, k: nat, s: seq<byte>): Read<seq<Sentence>> {
    if k == 0 then Ok([], s) else
      match TakeSentence(link, s)
      case Fail(e, rest) => Fail(e, rest)
      case Ok(sen, rest) =>
        match TakeSentences(link, k - 1, rest)
        case Fail(e, rest') => Fail(e, rest')
        case Ok(sens, rest') => Ok([sen] + sens, rest')
  }

  function EncodeSentences(sens: seq<seq<word>>): seq<byte> {
    if sens == [] then [] else EncodeSentence(sens[0]) + EncodeSentences(sens[1..])
  }

  lemma {:induction false} EncodeAppend(a: seq<seq<word>>, b: seq<seq<word>>)
    ensures EncodeSentences(a + b) == EncodeSentences(a) + EncodeSentences(b)
  {
    hide EncodeSentence;
    if a == [] {
      assert a + b == b;
    } else {
      assert (a + b)[1..] == a[1..] + b;
      EncodeAppend(a[1..], b);
    }
  }

  /** Short words on the wire: one byte of length, the word, and a zero byte at the end of the sentence. */
  lemma ShortWords(v: word, w: word)
    requires |v| < 0x80 && |w| < 0x80
    ensures EncodeSentence([]) == [0]
    ensures EncodeSentence([v, w]) == [|v|] + v + [|w|] + w + [0]
    ensures EncodeSentences([[v], [w]]) == [|v|] + v + [0] + [|w|] + w + [0]
  {
    var one: seq<byte>, two: seq<byte> := [|v|], [|w|];
    assert EncodeWord(v) == one + v && EncodeWord(w) == two + w && EncodeWord([]) == [0];
    assert [v, w][1..] == [w] && [w][1..] == [] && [v][1..] == [] && [[v], [w]][1..] == [[w]];
    assert EncodeSentences([[w]]) == EncodeSentence([w]) + EncodeSentences([]);
  }

  // Reading by words

  lemma {:induction false} TakeByWords(link: Link, sen: Sentence, s: seq<byte>)
    ensures TakeInto(link, sen, s).Ok? <==> TakeWords(link, s).Ok? && Fold(sen, TakeWords(link, s).value).Some?
    ensures TakeInto(link, sen, s).Ok? ==>
              TakeInto(link, sen, s) == Ok(Fold(sen, TakeWords(link, s).value).value, TakeWords(link, s).rest)
    decreases |s|
  {
    match TakeWord(link, s)
    case Fail(_, _) =>
    case Ok(w, rest) =>
      if w != [] {
        match Absorb(sen, w)
        case None =>
          if TakeWords(link, rest).Ok? {
            assert TakeWords(link, s).value[0] == w;
          }
        case Some(next) =>
          TakeByWords(link, next, rest);
          if TakeWords(link, rest).Ok? {
            assert TakeWords(link, s).value[1..] == TakeWords(link, rest).value;
          }
      }
  }

  /** A sentence is read exactly when complete, legal words follow; it is the one they describe. */
  lemma SentenceOfWords(link: Link, s: seq<byte>)
    ensures TakeSentence(link, s).Ok? <==> TakeWords(link, s).Ok? && Legal(TakeWords(link, s).value)
    ensures TakeSentence(link, s).Ok? ==>
              && TakeSentence(link, s).rest == TakeWords(link, s).rest
              && Describes(TakeWords(link, s).value, TakeSentence(link, s).value)
  {
    TakeByWords(link, BLANK, s);
    if TakeWords(link, s).Ok? {
      FoldDescribes(TakeWords(link, s).value);
    }
  }

  /**
   An illegal word ends the read at once: the error names the first illegal word, and what stays unread is the
   rest of its own sentence.
   */
  lemma {:induction false} IllegalWord(link: Link, sen: Sentence, s: seq<byte>, k: nat)
    requires TakeWords(link, s).Ok? && k < |TakeWords(link, s).value|
    requires Fold(sen, TakeWords(link, s).value[..k]).Some?
    requires Absorb(Fold(sen, TakeWords(link, s).value[..k]).value, TakeWords(link, s).value[k]).None?
    ensures TakeInto(link, sen, s).Fail?
    ensures TakeInto(link, sen, s).error == InvalidWord(TakeWords(link, s).value[k])
    ensures TakeWords(link, TakeInto(link, sen, s).rest) ==
            Ok(TakeWords(link, s).value[k + 1..], TakeWords(link, s).rest)
    decreases |s|
  {
    hide TakeInto, TakeWord, TakeWords, Absorb, Fold;
    var ws := TakeWords(link, s).value;
    var rest := TakeWord(link, s).rest;
    TakeWordsStep(link, s);
    TakeStep(link, sen, s);
    FoldStep(sen, ws, k);
    if k == 0 {
      assert ws[1..] == TakeWords(link, rest).value;
    } else {
      assert ws[1..] == TakeWords(link, rest).value;
      IllegalWord(link, Absorb(sen, ws[0]).value, rest, k - 1);
      assert ws[k + 1..] == ws[1..][k..];
    }
  }

  lemma TakeWordsStep(link: Link, s: seq<byte>)
    requires TakeWords(link, s).Ok?
    ensures TakeWord(link, s).Ok? && |TakeWord(link, s).rest| < |s|
    ensures var Ok(w, rest) := TakeWord(link, s);
            if w == [] then TakeWords(link, s) == Ok([], rest)
            else TakeWords(link, rest).Ok? &&
                 TakeWords(link, s) == Ok([w] + TakeWords(link, rest).value, TakeWords(link, rest).rest)
  {
    hide TakeWord;
    TakeWordShortens(link, s);
  }

  lemma TakeWordShortens(link: Link, s: seq<byte>)
    ensures TakeWord(link, s).Ok? ==> |TakeWord(link, s).rest| < |s|
  {}

  lemma FoldStep(sen: Sentence, ws: seq<word>, k: nat)
    requires k <= |ws|
    ensures Fold(sen, ws[..k]) ==
            if k == 0 then Some(sen)
            else match Absorb(sen, ws[0]) case None => None case Some(next) => Fold(next, ws[1..][..k - 1])
  {
    hide Absorb;
    if k > 0 {
      assert ws[..k][0] == ws[0] && ws[..k][1..] == ws[1..][..k - 1];
    }
  }

  // Round trip

  // Words a sender can put in a sentence.
  predicate Sendable(ws: seq<word>) {
    forall i :: 0 <= i < |ws| ==> 0 < |ws[i]| < LENGTH_LIMIT
  }

  function DecodeAll(page: CodePage, ws: seq<word>): (ds: seq<word>)
    ensures |ds| == |ws| && forall i :: 0 <= i < |ws| ==> ds[i] == Decode(page, ws[i])
  {
    seq(|ws|, i requires 0 <= i < |ws| => Decode(page, ws[i]))
  }

  lemma {:induction false} WordsRoundTrip(link: Link, ws: seq<word>, tail: seq<byte>)
    requires Sendable(ws)
    ensures TakeWords(link, EncodeSentence(ws) + tail) == Ok(DecodeAll(link.codePage, ws), tail)
  {
    hide EncodeWord, TakeWord;
    if ws == [] {
      WordRoundTrip(link, [], tail);
      DecodeAscii(link.codePage, []);
    } else {
      var more := EncodeSentence(ws[1..]) + tail;
      assert EncodeSentence(ws) + tail == EncodeWord(ws[0]) + more;
      WordRoundTrip(link, ws[0], more);
      DecodeAscii(link.codePage, ws[0]);
      WordsRoundTrip(link, ws[1..], tail);
      assert DecodeAll(link.codePage, ws) == [Decode(link.codePage, ws[0])] + DecodeAll(link.codePage, ws[1..]);
    }
  }

  predicate AllAscii(ws: seq<word>) {
    forall i :: 0 <= i < |ws| ==> Ascii(ws[i])
  }

  lemma AsciiWords(page: CodePage, ws: seq<word>)
    requires AllAscii(ws)
    ensures DecodeAll(page, ws) == ws
  {
    forall i | 0 <= i < |ws| ensures Decode(page, ws[i]) == ws[i] {
      DecodeAscii(page, ws[i]);
    }
  }

  /** A sentence of sendable words reads back as what its decoded words describe, whatever follows it. */
  lemma SentenceRoundTrip(link: Link, ws: seq<word>, tail: seq<byte>)
    requires Sendable(ws)
    ensures TakeSentence(link, EncodeSentence(ws) + tail).Ok? <==> Legal(DecodeAll(link.codePage, ws))
    ensures Legal(DecodeAll(link.codePage, ws)) ==>
              && TakeSentence(link, EncodeSentence(ws) + tail).rest == tail
              && Describes(DecodeAll(link.codePage, ws), TakeSentence(link, EncodeSentence(ws) + tail).value)
  {
    hide EncodeSentence, TakeSentence, TakeWords, Describes;
    WordsRoundTrip(link, ws, tail);
    SentenceOfWords(link, EncodeSentence(ws) + tail);
  }

  predicate AllSendable(lists: seq<seq<word>>) {
    forall i :: 0 <= i < |lists| ==> Sendable(lists[i])
  }

  function DecodeLists(page: CodePage, lists: seq<seq<word>>): (ds: seq<seq<word>>)
    ensures |ds| == |lists| && forall i :: 0 <= i < |lists| ==> ds[i] == DecodeAll(page, lists[i])
  {
    seq(|lists|, i requires 0 <= i < |lists| => DecodeAll(page, lists[i]))
  }

  /**
   Any number of sentences whose decoded words are legal, in front of any bytes, read back in order: each with its own
   word, last tag and last value of every key, decoded; and exactly the bytes after them stay unread.
   */
  lemma {:induction false} StreamRoundTrip(link: Link, sens: seq<seq<word>>, tail: seq<byte>)
    requires AllSendable(sens)
    requires forall i :: 0 <= i < |sens| ==> Legal(DecodeAll(link.codePage, sens[i]))
    ensures TakeSentences(link, |sens|, EncodeSentences(sens) + tail).Ok?
    ensures TakeSentences(link, |sens|, EncodeSentences(sens) + tail).rest == tail
    ensures var read := TakeSentences(link, |sens|, EncodeSentences(sens) + tail).value;
            && |read| == |sens|
            && forall i :: 0 <= i < |sens| ==> Describes(DecodeAll(link.codePage, sens[i]), read[i])
  {
    hide EncodeSentence, TakeSentence, Describes, Legal, Sendable, DecodeAll;
    if sens == [] {
      assert EncodeSentences(sens) + tail == tail;
    } else {
      var more := EncodeSentences(sens[1..]) + tail;
      assert EncodeSentences(sens) + tail == EncodeSentence(sens[0]) + more;
      SentenceRoundTrip(link, sens[0], more);
      StreamRoundTrip(link, sens[1..], tail);
      var read := TakeSentences(link, |sens|, EncodeSentences(sens) + tail).value;
      var others := TakeSentences(link, |sens| - 1, more).value;
      assert read == [read[0]] + others;
      assert forall i :: 1 <= i < |sens| ==> read[i] == others[i - 1] && sens[i] == sens[1..][i - 1];
    }
  }

  /** Sentences of ASCII words read back as what these very words describe. */
  lemma AsciiStreamRoundTrip(link: Link, sens: seq<seq<word>>, tail: seq<byte>)
    requires AllSendable(sens)
    requires forall i :: 0 <= i < |sens| ==> AllAscii(sens[i]) && Legal(sens[i])
    ensures TakeSentences(link, |sens|, EncodeSentences(sens) + tail).Ok?
    ensures TakeSentences(link, |sens|, EncodeSentences(sens) + tail).rest == tail
    ensures var read := TakeSentences(link, |sens|, EncodeSentences(sens) + tail).value;
            |read| == |sens| && forall i :: 0 <= i < |sens| ==> Describes(sens[i], read[i])
  {
    hide TakeSentences, EncodeSentences, Describes, Legal, Sendable, DecodeAll;
    forall i | 0 <= i < |sens| ensures DecodeAll(link.codePage, sens[i]) == sens[i] {
      AsciiWords(link.codePage, sens[i]);
    }
    StreamRoundTrip(link, sens, tail);
  }

  // Locality and truncation

  // A read whose outcome the bytes decided, rather than the end of the stream.
  predicate Decided<T>(r: Read<T>) {
    r.Ok? || r.error.InvalidWord?
  }

  function Consumed<T>(r: Read<T>, s: seq<byte>): int {
    |s| - |r.rest|
  }

  lemma TakeStep(link: Link, sen: Sentence, s: seq<byte>)
    ensures TakeWord(link, s).Ok? ==> TakeWord(link, s).rest == s[|s| - |TakeWord(link, s).rest|..]
    ensures TakeWord(link, s).Fail? ==> !Decided(TakeInto(link, sen, s))
    ensures TakeWord(link, s).Ok? ==>
              var Ok(w, rest) := TakeWord(link, s);
              TakeInto(link, sen, s) ==
              if w == [] then Ok(sen, rest)
              else if Absorb(sen, w).None? then Fail(InvalidWord(w), rest)
              else TakeInto(link, Absorb(sen, w).value, rest)
  {
    TakeWordOk(link, s);
  }

  lemma Split(p: seq<byte>, x: seq<byte>, m: nat)
    requires m <= |p|
    ensures p + x == p[..m] + (p[m..] + x) && (p + x)[m..] == p[m..] + x
  {}

  lemma {:induction false} TakeLocal(a: Link, b: Link, sen: Sentence, p: seq<byte>, x: seq<byte>, y: seq<byte>)
    requires a.codePage == b.codePage
    requires Decided(TakeInto(a, sen, p + x)) && TakeInto(a, sen, p + x).rest == x
    ensures TakeInto(b, sen, p + y) == TakeInto(a, sen, p + x).(rest := y)
    decreases |p|
  {
    hide TakeInto, TakeWord, Absorb;
    TakeStep(a, sen, p + x);
    var w := TakeWord(a, p + x).value;
    var rest := TakeWord(a, p + x).rest;
    if w == [] || Absorb(sen, w).None? {
      TakeWordLocal(a, b, p, x, y);
      TakeStep(b, sen, p + y);
    } else {
      var next := Absorb(sen, w).value;
      TakeSuffix(a, next, rest);
      var m := |p + x| - |rest|;
      var p1, p2 := p[..m], p[m..];
      Split(p, x, m);
      Split(p, y, m);
      TakeWordLocal(a, b, p1, p2 + x, p2 + y);
      TakeStep(b, sen, p + y);
      TakeLocal(a, b, next, p2, x, y);
    }
  }

  // What is left over is the end of the stream; an undecided read leaves nothing.
  lemma {:induction false} TakeSuffix(link: Link, sen: Sentence, s: seq<byte>)
    ensures var r := TakeInto(link, sen, s); var n := Consumed(r, s); 0 <= n && r.rest == s[n..]
    ensures Decided(TakeInto(link, sen, s)) ==> TakeInto(link, sen, s).rest != s
    ensures !Decided(TakeInto(link, sen, s)) ==> TakeInto(link, sen, s).rest == []
    decreases |s|
  {
    TakeWordOk(link, s);
    if HasWord(s) {
      var w := TakeWord(link, s).value;
      if w != [] && Absorb(sen, w).Some? {
        TakeSuffix(link, Absorb(sen, w).value, s[WordEnd(s)..]);
      }
    }
  }

  /**
   A read that the bytes decided depends on the bytes it consumed and on nothing else: every stream that starts
   with them gives the same result, however it goes on and however it ends.
   */
  lemma ReadLocal(a: Link, b: Link, s: seq<byte>, t: seq<byte>)
    requires a.codePage == b.codePage && Decided(TakeSentence(a, s))
    ensures 0 < Consumed(TakeSentence(a, s), s) <= |s|
    ensures var n := Consumed(TakeSentence(a, s), s);
            TakeSentence(b, s[..n] + t) == TakeSentence(a, s).(rest := t)
  {
    TakeSuffix(a, BLANK, s);
    var n := Consumed(TakeSentence(a, s), s);
    assert s == s[..n] + s[n..];
    TakeLocal(a, b, BLANK, s[..n], s[n..], t);
  }

  /** A stream cut anywhere inside a sentence never yields one: the read fails and consumes what there is. */
  lemma Truncated(a: Link, b: Link, s: seq<byte>, m: nat)
    requires a.codePage == b.codePage && TakeSentence(a, s).Ok?
    requires m < Consumed(TakeSentence(a, s), s)
    ensures TakeSentence(b, s[..m]).Fail? && TakeSentence(b, s[..m]).error.Io? && TakeSentence(b, s[..m]).rest == []
  {
    hide TakeInto, TakeWord, Absorb;
    TakeSuffix(b, BLANK, s[..m]);
    if Decided(TakeSentence(b, s[..m])) {
      var n := Consumed(TakeSentence(b, s[..m]), s[..m]);
      CutTwice(s, n, m);
      TakeLocal(b, a, BLANK, s[..n], s[n..m], s[n..]);
    }
  }

  lemma CutTwice(s: seq<byte>, n: nat, m: nat)
    requires n <= m <= |s|
    ensures s[..m] == s[..n] + s[n..m] && s[..m][n..] == s[n..m] && s == s[..n] + s[n..]
  {}

  /** No proper prefix of a written sentence reads as a sentence. */
  lemma WrittenTruncated(link: Link, ws: seq<word>, m: nat)
    requires Sendable(ws) && Legal(DecodeAll(link.codePage, ws)) && m < |EncodeSentence(ws)|
    ensures TakeSentence(link, EncodeSentence(ws)[..m]).Fail? && TakeSentence(link, EncodeSentence(ws)[..m]).error.Io?
  {
    hide EncodeSentence, TakeSentence;
    var s := EncodeSentence(ws);
    assert s + [] == s;
    SentenceRoundTrip(link, ws, []);
    Truncated(link, link, s, m);
  }

  // Normalisation

  // How many of the words of the next sentence have a bare length byte from 0xF8 on.
  function BareCodes(link: Link, s: seq<byte>): nat
    decreases |s|
  {
    match TakeWord(link, s)
    case Fail(_, _) => 0
    case Ok(w, rest) => (if s != [] && s[0] >= 0xF8 then 1 else 0) + if w == [] then 0 else BareCodes(link, rest)
  }

  /**
   Whatever length forms a sentence of ASCII words came in, writing the words that were read gives a sentence that
   reads as the same words, and that is no longer than the original except for one byte per bare length byte.
   */
  lemma Normalised(link: Link, s: seq<byte>, tail: seq<byte>)
    requires TakeWords(link, s).Ok? && AllAscii(TakeWords(link, s).value)
    ensures var ws := TakeWords(link, s).value;
            && Sendable(ws)
            && TakeWords(link, EncodeSentence(ws) + tail) == Ok(ws, tail)
            && |EncodeSentence(ws)| <= Consumed(TakeWords(link, s), s) + BareCodes(link, s)
  {
    var ws := TakeWords(link, s).value;
    RewrittenSize(link, s);
    WordsRoundTrip(link, ws, tail);
    AsciiWords(link.codePage, ws);
  }

  lemma {:induction false} RewrittenSize(link: Link, s: seq<byte>)
    requires TakeWords(link, s).Ok? && AllAscii(TakeWords(link, s).value)
    ensures var ws := TakeWords(link, s).value;
            && Sendable(ws)
            && |EncodeSentence(ws)| <= Consumed(TakeWords(link, s), s) + BareCodes(link, s)
    decreases |s|
  {
    hide EncodeWord, TakeWord, LengthValue;
    TakeWordOk(link, s);
    var ws := TakeWords(link, s).value;
    var w := TakeWord(link, s).value;
    var raw := s[LengthSize(s)..WordEnd(s)];
    DecodeAscii(link.codePage, raw);
    if w == [] {
      assert ws == [];
      RewrittenWord(s, []);
    } else {
      var rest := s[WordEnd(s)..];
      assert ws == [w] + TakeWords(link, rest).value;
      assert Ascii(ws[0]);
      forall i | 0 <= i < |ws| - 1 ensures Ascii(TakeWords(link, rest).value[i]) {
        assert Ascii(ws[i + 1]);
      }
      RewrittenSize(link, rest);
      RewrittenWord(s, w);
      assert EncodeSentence(ws) == EncodeWord(w) + EncodeSentence(ws[1..]);
    }
  }

  // The words of the next k sentences, one list for each.
  function WordLists(link: Link, k: nat, s: seq<byte>): (lists: seq<seq<word>>)
    requires TakeSentences(link, k, s).Ok?
    ensures |lists| == k
  {
    if k == 0 then [] else
      assert TakeWords(link, s).Ok? by { SentenceOfWords(link, s); }
      [TakeWords(link, s).value] + WordLists(link, k - 1, TakeSentence(link, s).rest)
  }

  predicate AllListsAscii(lists: seq<seq<word>>) {
    forall i :: 0 <= i < |lists| ==> AllAscii(lists[i])
  }

  function AllBareCodes(link: Link, k: nat, s: seq<byte>): nat {
    if k == 0 || TakeSentence(link, s).Fail? then 0
    else BareCodes(link, s) + AllBareCodes(link, k - 1, TakeSentence(link, s).rest)
  }

  /**
   The same for any number of sentences: what was read, written again, reads as the same sentences, and it is no
   longer than what was consumed except for one byte per bare length byte.
   */
  lemma {:induction false} NormalisedStream(link: Link, k: nat, s: seq<byte>, tail: seq<byte>)
    requires TakeSentences(link, k, s).Ok?
    requires AllListsAscii(WordLists(link, k, s))
    ensures var lists := WordLists(link, k, s); var r := TakeSentences(link, k, s);
            && TakeSentences(link, k, EncodeSentences(lists) + tail) == Ok(r.value, tail)
            && |EncodeSentences(lists)| <= Consumed(r, s) + AllBareCodes(link, k, s)
  {
    hide TakeSentence, TakeSentences, TakeWords, EncodeSentence, EncodeSentences, BareCodes, AllAscii, WordLists;
    var lists := WordLists(link, k, s);
    OneMore(link, k, s);
    EncodeFront(lists, tail);
    if k == 0 {
      OneMore(link, 0, tail);
    } else {
      var rest := TakeSentence(link, s).rest;
      var others := lists[1..];
      assert lists[0] == TakeWords(link, s).value && others == WordLists(link, k - 1, rest);
      assert forall i :: 0 <= i < k - 1 ==> others[i] == lists[i + 1];
      NormalisedStream(link, k - 1, rest, tail);
      var more := EncodeSentences(others) + tail;
      NormalisedFirst(link, s, more);
      OneMore(link, k, EncodeSentence(lists[0]) + more);
    }
  }

  lemma NormalisedFirst(link: Link, s: seq<byte>, more: seq<byte>)
    requires TakeSentence(link, s).Ok? && TakeWords(link, s).Ok? && AllAscii(TakeWords(link, s).value)
    ensures var e := EncodeSentence(TakeWords(link, s).value);
            && TakeSentence(link, e + more) == Ok(TakeSentence(link, s).value, more)
            && |e| <= Consumed(TakeSentence(link, s), s) + BareCodes(link, s)
  {
    hide TakeSentence, TakeWords, EncodeSentence, BareCodes, AllAscii, Sendable, Describes, Legal;
    SentenceOfWords(link, s);
    Normalised(link, s, more);
    SameSentence(link, s, EncodeSentence(TakeWords(link, s).value) + more);
  }

  lemma EncodeFront(lists: seq<seq<word>>, tail: seq<byte>)
    ensures lists == [] ==> EncodeSentences(lists) == [] && EncodeSentences(lists) + tail == tail
    ensures lists != [] ==>
              && EncodeSentences(lists) + tail == EncodeSentence(lists[0]) + (EncodeSentences(lists[1..]) + tail)
              && |EncodeSentences(lists)| == |EncodeSentence(lists[0])| + |EncodeSentences(lists[1..])|
  {
    hide EncodeSentence;
  }

  // A sentence more, in front of those that follow.
  lemma OneMore(link: Link, k: nat, s: seq<byte>)
    ensures k == 0 ==> TakeSentences(link, k, s) == Ok([], s) && WordLists(link, k, s) == []
    ensures k > 0 ==>
              var first := TakeSentence(link, s); var others := TakeSentences(link, k - 1, first.rest);
              && (TakeSentences(link, k, s).Ok? <==> first.Ok? && others.Ok?)
              && (first.Ok? && others.Ok? ==>
                    && TakeWords(link, s).Ok?
                    && TakeSentences(link, k, s) == Ok([first.value] + others.value, others.rest)
                    && WordLists(link, k, s) == [TakeWords(link, s).value] + WordLists(link, k - 1, first.rest))
  {
    hide TakeSentence, TakeWords;
    if k > 0 && TakeSentence(link, s).Ok? {
      SentenceOfWords(link, s);
    }
  }

  // The sentence depends on its words only.
  lemma SameSentence(link: Link, s: seq<byte>, t: seq<byte>)
    requires TakeSentence(link, s).Ok? && TakeWords(link, s).Ok? && TakeWords(link, t).Ok?
    requires TakeWords(link, s).value == TakeWords(link, t).value
    ensures TakeSentence(link, t) == Ok(TakeSentence(link, s).value, TakeWords(link, t).rest)
  {
    TakeByWords(link, BLANK, s);
    TakeByWords(link, BLANK, t);
  }
}
