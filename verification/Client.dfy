/** The client of one connection: commands under the writer's lock, replies, login and close. */
module Client {
  import opened Bytes
  import opened Words
  import opened Sentences
  import opened SentenceStreams
  import opened Replies
  import opened LengthCode
  import opened Answers
  import Reader
  import Writer

  // "/login", "=name=", "=password=", "=response=" and "ret"
  const LOGIN: word := [0x2F, 0x6C, 0x6F, 0x67, 0x69, 0x6E]
  const NAME: word := [0x3D, 0x6E, 0x61, 0x6D, 0x65, 0x3D]
  const PASSWORD: word := [0x3D, 0x70, 0x61, 0x73, 0x73, 0x77, 0x6F, 0x72, 0x64, 0x3D]
  const RESPONSE: word := [0x3D, 0x72, 0x65, 0x73, 0x70, 0x6F, 0x6E, 0x73, 0x65, 0x3D]
  const RET: word := [0x72, 0x65, 0x74]

  // The words of a command without the end mark.
  function EncodeWords(ws: seq<word>): seq<byte> {
    if ws == [] then [] else EncodeWord(ws[0]) + EncodeWords(ws[1..])
  }

  lemma {:induction false} EncodeWordsSnoc(ws: seq<word>, w: word)
    ensures EncodeWords(ws + [w]) == EncodeWords(ws) + EncodeWord(w)
  {
    hide EncodeWord;
    if ws == [] {
      assert (ws + [w])[1..] == [];
    } else {
      assert (ws + [w])[1..] == ws[1..] + [w];
      EncodeWordsSnoc(ws[1..], w);
    }
  }

  lemma {:induction false} EncodeByWords(ws: seq<word>)
    ensures EncodeSentence(ws) == EncodeWords(ws) + EncodeWord([])
  {
    hide EncodeWord;
    if ws != [] {
      EncodeByWords(ws[1..]);
    }
  }

  /** The answer being collected. */
  class Reply {
    var re: seq<Sentence>
    var done: Option<Sentence>

    constructor ()
      ensures View() == NO_ANSWER
    {
      re, done := [], None;
    }

    function View(): Answer
      reads this
    {
      Answer(re, done)
    }

    method ProcessSentence(sen: Sentence) returns (ended: bool, err: Option<ClientError>)
      modifies this
      ensures Effect(View(), ended, err) == Process(old(View()), sen)
    {
      if sen.word == RE {
        re := re + [sen];
      } else if sen.word == DONE {
        done := Some(sen);
        return true, None;
      } else if sen.word == TRAP || sen.word == FATAL {
        return sen.word == FATAL, Some(DeviceError(sen));
      } else if sen.word == [] || sen.word == EMPTY {
      } else {
        return true, Some(UnknownReply(sen));
      }
      return false, None;
    }
  }

  // Hexadecimal text

  predicate HexDigit(c: byte) {
    0x30 <= c <= 0x39 || 0x41 <= c <= 0x46 || 0x61 <= c <= 0x66
  }

  function HexValue(c: byte): (v: byte)
    requires HexDigit(c)
    ensures v < 10 <==> c == '0' as int + v
    ensures 10 <= v < 16 <==> c == 'a' as int + v - 10 || c == 'A' as int + v - 10
  {
    if c <= 0x39 then c - 0x30 else if c <= 0x46 then c - 0x37 else c - 0x57
  }

  function HexDecode(s: seq<byte>): Option<seq<byte>> {
    if s == [] then Some([])
    else if |s| == 1 || !HexDigit(s[0]) || !HexDigit(s[1]) then None
    else match HexDecode(s[2..])
         case None => None
         case Some(bytes) => Some([HexValue(s[0]) * 16 + HexValue(s[1])] + bytes)
  }

  /**
   Text decodes exactly when it has an even number of characters, all of them hexadecimal digits; two of them make a
   byte, the first one counting sixteen times.
   */
  lemma {:induction false} HexDecodes(s: seq<byte>)
    ensures HexDecode(s).Some? <==> |s| % 2 == 0 && forall i :: 0 <= i < |s| ==> HexDigit(s[i])
    ensures HexDecode(s).Some? ==>
              && 2 * |HexDecode(s).value| == |s|
              && forall i :: 0 <= i < |HexDecode(s).value| ==>
                   HexDecode(s).value[i] == HexValue(s[2 * i]) * 16 + HexValue(s[2 * i + 1])
  {
    hide HexDigit, HexValue;
    if |s| >= 2 {
      HexDecodes(s[2..]);
      assert forall i :: 2 <= i < |s| ==> s[i] == s[2..][i - 2];
      if HexDecode(s).Some? {
        var bytes := HexDecode(s).value;
        assert bytes[1..] == HexDecode(s[2..]).value;
        forall i | 1 <= i < |bytes| ensures bytes[i] == HexValue(s[2 * i]) * 16 + HexValue(s[2 * i + 1]) {
          assert bytes[i] == bytes[1..][i - 1] && s[2 * i] == s[2..][2 * (i - 1)];
          assert s[2 * i + 1] == s[2..][2 * (i - 1) + 1];
        }
      }
    }
  }

  function DigitOf(v: nat, upper: bool): (c: byte)
    requires v < 16
    ensures c == if v < 10 then '0' as int + v else (if upper then 'A' else 'a') as int + v - 10
    ensures HexDigit(c) && HexValue(c) == v
  {
    if v < 10 then 0x30 + v else if upper then 0x37 + v else 0x57 + v
  }

  // Two digits for every byte, the high one first.
  function HexText(bytes: seq<byte>, upper: bool): (s: seq<byte>)
    ensures |s| == 2 * |bytes|
  {
    if bytes == [] then []
    else [DigitOf(bytes[0] / 16, upper), DigitOf(bytes[0] % 16, upper)] + HexText(bytes[1..], upper)
  }

  lemma {:induction false} HexRoundTrip(bytes: seq<byte>, upper: bool)
    ensures HexDecode(HexText(bytes, upper)) == Some(bytes)
  {
    hide HexDigit, HexValue, DigitOf, HexDecode;
    if bytes == [] {
      HexNothing();
    } else {
      HexRoundTrip(bytes[1..], upper);
      HexFront(DigitOf(bytes[0] / 16, upper), DigitOf(bytes[0] % 16, upper), HexText(bytes[1..], upper));
      assert [bytes[0]] + bytes[1..] == bytes;
    }
  }

  lemma HexFront(a: byte, b: byte, text: seq<byte>)
    requires HexDigit(a) && HexDigit(b) && HexDecode(text).Some?
    ensures HexDecode([a, b] + text) == Some([HexValue(a) * 16 + HexValue(b)] + HexDecode(text).value)
  {
    hide HexDigit, HexValue;
    assert ([a, b] + text)[2..] == text;
  }

  lemma HexNothing()
    ensures HexDecode([]) == Some([])
  {}

  // The digest that answers a challenge. MD5 is a parameter.
  type Digest = seq<byte> -> seq<byte>

  function ChallengeResponse(md5: Digest, challenge: seq<byte>, password: word): word {
    Text("00") + HexText(md5([0] + password + challenge), false)
  }

  predicate LowerDigit(c: byte) {
    '0' as int <= c <= '9' as int || 'a' as int <= c <= 'f' as int
  }

  /** A response is lower-case hexadecimal text for a zero byte and the digest of zero, password and challenge. */
  lemma ResponseReads(md5: Digest, challenge: seq<byte>, password: word)
    ensures var r := ChallengeResponse(md5, challenge, password);
            && HexDecode(r) == Some([0] + md5([0] + password + challenge))
            && forall i :: 0 <= i < |r| ==> LowerDigit(r[i])
  {
    hide HexText, HexDecode;
    var digest := md5([0] + password + challenge);
    var r, text := ChallengeResponse(md5, challenge, password), HexText(digest, false);
    var zero := DigitOf(0, false);
    assert Text("00") == [zero, zero];
    HexRoundTrip(digest, false);
    HexFront(zero, zero, text);
    LowerCase(digest);
    assert forall i :: 2 <= i < |r| ==> r[i] == text[i - 2];
  }

  lemma {:induction false} LowerCase(bytes: seq<byte>)
    ensures forall i :: 0 <= i < |HexText(bytes, false)| ==> LowerDigit(HexText(bytes, false)[i])
  {
    if bytes != [] {
      LowerCase(bytes[1..]);
    }
  }

  // What a login amounts to: its error, the commands it sends, and the bytes it leaves unread.
  datatype Course = Course(err: Option<ClientError>, commands: seq<seq<word>>, rest: seq<byte>)

  function PasswordCommand(user: word, password: word): seq<word> {
    [LOGIN, NAME + user, PASSWORD + password]
  }

  function ResponseCommand(user: word, response: word): seq<word> {
    [LOGIN, NAME + user, RESPONSE + response]
  }

  // The challenge in the answer to the first command, if that answer is without an error and has one.
  function Challenge(o: Outcome): Option<word> {
    if o.err.None? && o.answer.Some? && o.answer.value.done.Some? && RET in o.answer.value.done.value.attrs
    then Some(o.answer.value.done.value.attrs[RET])
    else None
  }

  /**
   A login is one command, or two when the answer to the first one carries a challenge; a challenge that is not
   hexadecimal ends it.
   */
  function LoginCourse(link: Link, user: word, password: word, md5: Digest, s: seq<byte>): Course {
    var first := TakeReply(link, s);
    var commands := [PasswordCommand(user, password)];
    match Challenge(first)
    case None => Course(first.err, commands, first.rest)
    case Some(ret) =>
      match HexDecode(ret)
      case None => Course(Some(InvalidChallenge(ret)), commands, first.rest)
      case Some(challenge) =>
        var second := TakeReply(link, first.rest);
        Course(second.err, commands + [ResponseCommand(user, ChallengeResponse(md5, challenge, password))], second.rest)
  }

  /**
   A login succeeds exactly when every command it sends is answered without an error. It sends two commands
   exactly when the first answer carries a challenge of complete hexadecimal bytes.
   */
  lemma LoginOutcome(link: Link, user: word, password: word, md5: Digest, s: seq<byte>)
    ensures var first := TakeReply(link, s);
            var c := LoginCourse(link, user, password, md5, s);
            var challenged := Challenge(first).Some?;
            var decodes := challenged && HexDecode(Challenge(first).value).Some?;
            && |c.commands| == (if decodes then 2 else 1)
            && (c.err.None? <==> first.err.None? && (challenged ==> decodes && TakeReply(link, first.rest).err.None?))
            && c.err != Some(LoginNoRet)
            && (first.err.None? ==> first.answer.Some? && first.answer.value.done.Some?)
  {
    hide TakeReply, HexDecode;
    var first := TakeReply(link, s);
    ReplyErrors(link, s);
    ReplyErrors(link, first.rest);
    if first.err.None? {
      NilHasDone(link, s);
    }
  }

  /**
   The commands of a login in the words of the protocol, and which answer decides: without a challenge the first one;
   with one, the answer to the response.
   */
  lemma LoginMeaning(link: Link, user: word, password: word, md5: Digest, s: seq<byte>)
    ensures var first := TakeReply(link, s); var c := LoginCourse(link, user, password, md5, s);
            && c.commands != []
            && c.commands[0] == [Text("/login"), Text("=name=") + user, Text("=password=") + password]
            && (first.err.None? ==> first.answer.Some? && first.answer.value.done.Some?)
            && if first.err.Some? || Text("ret") !in first.answer.value.done.value.attrs then
                 c == Course(first.err, c.commands[..1], first.rest)
               else
                 var ret := first.answer.value.done.value.attrs[Text("ret")];
                 if HexDecode(ret).None? then c == Course(Some(InvalidChallenge(ret)), c.commands[..1], first.rest)
                 else
                   && TakeReply(link, first.rest).err == c.err && TakeReply(link, first.rest).rest == c.rest
                   && c.commands[1..] == [[Text("/login"), Text("=name=") + user,
                        Text("=response=") + ChallengeResponse(md5, HexDecode(ret).value, password)]]
  {
    hide TakeReply, HexDecode, ChallengeResponse;
    LoginWords();
    LoginOutcome(link, user, password, md5, s);
  }

  lemma LoginWords()
    ensures LOGIN == Text("/login") && NAME == Text("=name=") && PASSWORD == Text("=password=")
    ensures RESPONSE == Text("=response=") && RET == Text("ret")
  {}

  /**
   A device that sends a challenge in hexadecimal text and then accepts: the login succeeds, its second command answers
   exactly that challenge, and what the device sends after that stays unread.
   */
  lemma LoginChallenged(link: Link, user: word, password: word, md5: Digest, challenge: seq<byte>, upper: bool,
                        tail: seq<byte>)
    requires 2 * |challenge| + 5 < LENGTH_LIMIT
    ensures var hex := HexText(challenge, upper);
            var s := EncodeSentences([[Text("!done"), Text("=ret=") + hex], [Text("!done")]]) + tail;
            LoginCourse(link, user, password, md5, s) ==
            Course(None, [[Text("/login"), Text("=name=") + user, Text("=password=") + password],
                          [Text("/login"), Text("=name=") + user,
                           Text("=response=") + ChallengeResponse(md5, challenge, password)]], tail)
  {
    hide TakeReply, EncodeSentences, HexDecode, HexText, ChallengeResponse, LoginCourse;
    var hex := HexText(challenge, upper);
    var a, b := [[Text("!done"), Text("=ret=") + hex]], [[Text("!done")]];
    var s := EncodeSentences(a + b) + tail;
    assert a + b == [[Text("!done"), Text("=ret=") + hex], [Text("!done")]];
    EncodeAppend(a, b);
    assert s == EncodeSentences(a) + (EncodeSentences(b) + tail);
    HexAscii(challenge, upper);
    HexRoundTrip(challenge, upper);
    ChallengeRead(link, hex, EncodeSentences(b) + tail);
    DoneRead(link, tail);
    LoginMeaning(link, user, password, md5, s);
    var c := LoginCourse(link, user, password, md5, s);
    assert c.commands == c.commands[..1] + c.commands[1..] && c.commands[..1] == [c.commands[0]];
  }

  lemma {:induction false} HexAscii(bytes: seq<byte>, upper: bool)
    ensures Ascii(HexText(bytes, upper))
  {
    if bytes != [] {
      HexAscii(bytes[1..], upper);
    }
  }

  lemma DoneRead(link: Link, tail: seq<byte>)
    ensures TakeReply(link, EncodeSentences([[Text("!done")]]) + tail) ==
            Outcome(Some(Answer([], Some(Sentence(Text("!done"), [], map[])))), None, tail)
  {
    hide TakeReply, EncodeSentences, LastWords, AllSendable, AllAscii, Text;
    DoneWords();
    AnswerByLines(link, [], Done([]), tail);
  }

  lemma DoneWords()
    ensures var a := [[Text("!done")]];
            BodyWords([]) + [LastWords(Done([]))] == a && AllSendable(a) && AllAscii(a[0])
  {
    assert WordsOf([]) == [] && LastWords(Done([])) == [Text("!done")];
  }

  lemma ChallengeRead(link: Link, hex: word, tail: seq<byte>)
    requires Ascii(hex) && |hex| + 5 < LENGTH_LIMIT
    ensures TakeReply(link, EncodeSentences([[Text("!done"), Text("=ret=") + hex]]) + tail) ==
            Outcome(Some(Answer([], Some(Sentence(Text("!done"), [], map[Text("ret") := hex])))), None, tail)
  {
    hide TakeReply, EncodeSentences, WordOf, SentenceOf, AllSendable, AllAscii, AllPlain, Text;
    var items := [Pair(Text("ret"), hex)];
    RetItem(hex);
    RetWords(hex);
    AnswerByLines(link, [], Done(items), tail);
  }

  lemma RetWords(hex: word)
    requires Ascii(hex) && |hex| + 5 < LENGTH_LIMIT
    ensures var a := [[Text("!done"), Text("=ret=") + hex]];
            && BodyWords([]) + [LastWords(Done([Pair(Text("ret"), hex)]))] == a
            && AllSendable(a) && AllAscii(a[0])
  {
    hide WordOf;
    RetItem(hex);
    var items := [Pair(Text("ret"), hex)];
    assert WordsOf(items) == [WordOf(items[0])] && LastWords(Done(items)) == [Text("!done"), WordOf(items[0])];
  }

  lemma RetItem(hex: word)
    ensures var item := Pair(Text("ret"), hex);
            && AllPlain([item]) && WordOf(item) == Text("=ret=") + hex
            && SentenceOf(Text("!done"), [item]) == Sentence(Text("!done"), [], map[Text("ret") := hex])
  {
    assert Text("=") + Text("ret") + Text("=") == Text("=ret=");
    assert [Pair(Text("ret"), hex)][..0] == [];
  }

  class Client {
    const r: Reader.Reader
    const w: Writer.Writer
    const md5: Digest
    var closing: bool
    // How often the connection was closed.
    var closes: nat

    constructor (r: Reader.Reader, w: Writer.Writer, md5: Digest)
      ensures this.r == r && this.w == w && this.md5 == md5 && !closing && closes == 0
    {
      this.r, this.w, this.md5 := r, w, md5;
      closing, closes := false, 0;
    }

    /** However often it is called, the connection is closed once. */
    method Close()
      requires closes == if closing then 1 else 0
      modifies this`closing, this`closes
      ensures closing && closes == 1
    {
      if closing {
        return;
      }
      closing := true;
      closes := closes + 1;
    }

    method ReadReply() returns (reply: Reply?, err: Option<ClientError>)
      modifies r`unread
      ensures var o := TakeReply(r.link, old(r.unread));
              && err == o.err && r.unread == o.rest
              && (reply == null <==> o.answer.None?)
              && (reply != null ==> fresh(reply) && reply.View() == o.answer.value)
    {
      hide TakeSentence;
      var collected := new Reply();
      var lastErr: Option<ClientError> := None;
      while true
        invariant fresh(collected)
        invariant TakeReplyFrom(r.link, collected.View(), lastErr, r.unread) == TakeReply(r.link, old(r.unread))
        decreases |r.unread|
      {
        ghost var before := r.unread;
        SentenceShortens(r.link, before);
        var sen := r.ReadSentence();
        if sen.Failure? {
          return null, Some(ReadFailed(sen.error));
        }
        var ended, e := collected.ProcessSentence(sen.value);
        if e.Some? {
          if ended {
            return null, e;
          }
          lastErr := e;
        }
        if ended {
          return collected, lastErr;
        }
      }
    }

    /**
     One command. After a write error nothing is read; otherwise the whole command is with the connection and the
     result is the next reply on the stream. The lock is free again in every case.
     */
    method RunArgs(sentence: seq<word>) returns (reply: Reply?, err: Option<ClientError>)
      requires !w.locked
      modifies r`unread, w
      ensures !w.locked
      ensures if old(w.err).Some? then w.State() == old(w.State()) else Writer.ReportedBy(old(w.State()), w.State())
      ensures w.err.Some? ==>
                && reply == null && err == Some(WriteFailed(w.err.value)) && r.unread == old(r.unread)
                && old(w.sent) <= w.sent <= old(w.sent + w.pending) + EncodeSentence(sentence)
      ensures w.err.None? ==>
                && w.pending == [] && w.sent == old(w.sent + w.pending) + EncodeSentence(sentence)
                && var o := TakeReply(r.link, old(r.unread));
                   && err == o.err && r.unread == o.rest
                   && (reply == null <==> o.answer.None?)
                   && (reply != null ==> fresh(reply) && reply.View() == o.answer.value)
    {
      hide EncodeWord, TakeReply, EncodeSentence;
      w.BeginSentence();
      for i := 0 to |sentence|
        invariant w.locked && r.unread == old(r.unread)
        invariant Writer.Wrote(old(w.State()), EncodeWords(sentence[..i]), w.State())
      {
        label before:
        w.WriteWord(sentence[i]);
        Writer.WroteBoth(old(w.State()), EncodeWords(sentence[..i]), old@before(w.State()),
                         EncodeWord(sentence[i]), w.State());
        EncodeWordsSnoc(sentence[..i], sentence[i]);
        assert sentence[..i] + [sentence[i]] == sentence[..i + 1];
      }
      assert sentence[..|sentence|] == sentence;
      EncodeByWords(sentence);
      var e := w.EndSentence();
      if e.Some? {
        return null, Some(WriteFailed(e.value));
      }
      reply, err := ReadReply();
    }

    /**
     Logs in. Unless a write fails, the commands and the error are those of the login's course; a nil error from
     a command means its answer has a "!done" sentence, so the answer is always there to be looked at.
     */
    method Login(user: word, password: word) returns (err: Option<ClientError>)
      requires !w.locked
      modifies r`unread, w
      ensures !w.locked && err != Some(LoginNoRet)
      ensures var c := LoginCourse(r.link, user, password, md5, old(r.unread));
              if w.err.None? then
                && err == c.err && r.unread == c.rest
                && w.sent == old(w.sent + w.pending) + EncodeSentences(c.commands)
              else
                && err == Some(WriteFailed(w.err.value))
                && old(w.sent) <= w.sent <= old(w.sent + w.pending) + EncodeSentences(c.commands)
    {
      hide TakeReply, HexDecode, EncodeSentence;
      ghost var start := w.sent + w.pending;
      ghost var course := LoginCourse(r.link, user, password, md5, r.unread);
      ghost var first := TakeReply(r.link, r.unread);
      LoginOutcome(r.link, user, password, md5, r.unread);
      var command1 := PasswordCommand(user, password);
      ghost var command2 := if |course.commands| == 2 then course.commands[1] else [];
      EncodeOneOrTwo(start, command1, command2);

      var reply, e := RunArgs(command1);
      if e.Some? {
        return e;
      }
      assert reply.View() == first.answer.value;
      var attrs := reply.done.value.attrs;
      if RET !in attrs {
        if reply.done.Some? {
          err := None;
        } else {
          err := Some(LoginNoRet);
        }
        return;
      }
      var challenge := HexDecode(attrs[RET]);
      if challenge.None? {
        return Some(InvalidChallenge(attrs[RET]));
      }
      reply, e := RunArgs(ResponseCommand(user, ChallengeResponse(md5, challenge.value, password)));
      return e;
    }
  }

  lemma EncodeOneOrTwo(start: seq<byte>, a: seq<word>, b: seq<word>)
    ensures EncodeSentences([a]) == EncodeSentence(a)
    ensures start + EncodeSentences([a, b]) == start + EncodeSentence(a) + EncodeSentence(b)
    ensures start + EncodeSentence(a) <= start + EncodeSentences([a, b])
  {
    hide EncodeSentence;
    assert [a, b][1..] == [b];
    assert EncodeSentences([b]) == EncodeSentence(b) + EncodeSentences([]);
    assert EncodeSentences([a, b]) == EncodeSentence(a) + EncodeSentence(b);
  }

  // The errors of a reply come from the stream or from the device.
  lemma ReplyErrors(link: Link, s: seq<byte>)
    ensures var e := TakeReply(link, s).err;
            e.None? || e.value.ReadFailed? || e.value.DeviceError? || e.value.UnknownReply?
  {
    hide TakeInto, TakeReplyFrom;
    var k, complete := ReplyShape(link, NO_ANSWER, None, s);
    if complete {
      ReplyDecided(link, k, s);
      var sens := TakeSentences(link, k, s).value;
      TrapsAreDeviceErrors(sens[..|sens| - 1]);
    }
  }

  lemma {:induction false} TrapsAreDeviceErrors(sens: seq<Sentence>)
    ensures LastTrap(sens).None? || LastTrap(sens).value.DeviceError?
  {
    if sens != [] {
      TrapsAreDeviceErrors(sens[..|sens| - 1]);
    }
  }

  lemma SentenceShortens(link: Link, s: seq<byte>)
    ensures TakeSentence(link, s).Ok? ==> |TakeSentence(link, s).rest| < |s|
  {}
}
