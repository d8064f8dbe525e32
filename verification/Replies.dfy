/** Replies: the sentences up to the first one that ends an answer, folded into one result. */
module Replies {
  import opened Bytes
  import opened Words
  import opened Sentences
  import opened SentenceStreams

  // Reply words: "!re", "!done", "!trap", "!fatal" and "!empty".
  const RE: word := [0x21, 0x72, 0x65]
  const DONE: word := [0x21, 0x64, 0x6F, 0x6E, 0x65]
  const TRAP: word := [0x21, 0x74, 0x72, 0x61, 0x70]
  const FATAL: word := [0x21, 0x66, 0x61, 0x74, 0x61, 0x6C]
  const EMPTY: word := [0x21, 0x65, 0x6D, 0x70, 0x74, 0x79]

  datatype Answer = Answer(re: seq<Sentence>, done: Option<Sentence>)

  const NO_ANSWER: Answer := Answer([], None)

  datatype ClientError =
    | ReadFailed(cause: ReadError)
    | WriteFailed(io: IoError)
    | DeviceError(sentence: Sentence)
    | UnknownReply(sentence: Sentence)
    | InvalidChallenge(ret: word)
    | LoginNoRet

  // What a command gives its caller, and the bytes it leaves unread. A trap is reported beside the answer.
  datatype Outcome = Outcome(answer: Option<Answer>, err: Option<ClientError>, rest: seq<byte>)

  // One sentence's effect: the answer so far, whether the reply ends here, and an error.
  datatype Effect = Effect(answer: Answer, done: bool, err: Option<ClientError>)

  function Process(a: Answer, sen: Sentence): Effect {
    if sen.word == RE then Effect(a.(re := a.re + [sen]), false, None)
    else if sen.word == DONE then Effect(a.(done := Some(sen)), true, None)
    else if sen.word == TRAP || sen.word == FATAL then Effect(a, sen.word == FATAL, Some(DeviceError(sen)))
    else if sen.word == [] || sen.word == EMPTY then Effect(a, false, None)
    else Effect(a, true, Some(UnknownReply(sen)))
  }

  function TakeReplyFrom(link: Link, a: Answer, lastErr: Option<ClientError>, s: seq<byte>): Outcome
    decreases |s|
  {
    match TakeSentence(link, s)
    case Fail(e, rest) => Outcome(None, Some(ReadFailed(e)), rest)
    case Ok(sen, rest) =>
      var Effect(a', done, err) := Process(a, sen);
      if done && err.Some? then Outcome(None, err, rest)
      else if done then Outcome(Some(a'), lastErr, rest)
      else TakeReplyFrom(link, a', if err.Some? then err else lastErr, rest)
  }

  /** One reply off the front of the stream. */
  function TakeReply(link: Link, s: seq<byte>): Outcome {
    TakeReplyFrom(link, NO_ANSWER, None, s)
  }

  // What a list of sentences amounts to

  predicate Ends(sen: Sentence) {
    sen.word !in {RE, TRAP, EMPTY, []}
  }

  // Sentences that do not end the reply, and then one that does.
  predicate IsAnswer(sens: seq<Sentence>) {
    sens != [] && Ends(sens[|sens| - 1]) && forall i :: 0 <= i < |sens| - 1 ==> !Ends(sens[i])
  }

  function Records(sens: seq<Sentence>): seq<Sentence> {
    if sens == [] then [] else (if sens[0].word == RE then [sens[0]] else []) + Records(sens[1..])
  }

  function LastTrap(sens: seq<Sentence>): Option<ClientError> {
    if sens == [] then None
    else if sens[|sens| - 1].word == TRAP then Some(DeviceError(sens[|sens| - 1]))
    else LastTrap(sens[..|sens| - 1])
  }

  /**
   The result of an answer: its last sentence decides. After "!done" the caller gets every record in order and the
   last trap; after "!fatal" or an unknown word only that sentence's error.
   */
  function Verdict(sens: seq<Sentence>, rest: seq<byte>): Outcome
    requires IsAnswer(sens)
  {
    var body, last := sens[..|sens| - 1], sens[|sens| - 1];
    if last.word == DONE then Outcome(Some(Answer(Records(body), Some(last))), LastTrap(body), rest)
    else if last.word == FATAL then Outcome(None, Some(DeviceError(last)), rest)
    else Outcome(None, Some(UnknownReply(last)), rest)
  }

  lemma {:induction false} LastTrapCons(sen: Sentence, sens: seq<Sentence>)
    ensures LastTrap([sen] + sens) ==
            if LastTrap(sens).Some? then LastTrap(sens)
            else if sen.word == TRAP then Some(DeviceError(sen)) else None
  {
    var all := [sen] + sens;
    if sens == [] {
      assert all[..0] == [];
    } else {
      assert all[..|all| - 1] == [sen] + sens[..|sens| - 1];
      LastTrapCons(sen, sens[..|sens| - 1]);
    }
  }

  // The verdict when an answer and a trap were already collected before the body and its last sentence.
  function VerdictAfter(a: Answer, lastErr: Option<ClientError>, body: seq<Sentence>, last: Sentence,
                        rest: seq<byte>): Outcome
  {
    if last.word == DONE then
      Outcome(Some(Answer(a.re + Records(body), Some(last))),
              if LastTrap(body).Some? then LastTrap(body) else lastErr, rest)
    else if last.word == FATAL then Outcome(None, Some(DeviceError(last)), rest)
    else Outcome(None, Some(UnknownReply(last)), rest)
  }

  lemma VerdictCons(a: Answer, lastErr: Option<ClientError>, sen: Sentence, body: seq<Sentence>, last: Sentence,
                    rest: seq<byte>)
    requires !Ends(sen)
    ensures var Effect(a', done, err) := Process(a, sen);
            !done && VerdictAfter(a, lastErr, [sen] + body, last, rest) ==
                     VerdictAfter(a', if err.Some? then err else lastErr, body, last, rest)
  {
    LastTrapCons(sen, body);
    assert ([sen] + body)[1..] == body;
    var head := if sen.word == RE then [sen] else [];
    assert Records([sen] + body) == head + Records(body);
    assert a.re + (head + Records(body)) == (a.re + head) + Records(body);
    assert a.re + [] == a.re;
  }

  lemma {:induction false} ReplyFrom(link: Link, a: Answer, lastErr: Option<ClientError>, k: nat, s: seq<byte>)
    requires TakeSentences(link, k, s).Ok? && IsAnswer(TakeSentences(link, k, s).value)
    ensures var Ok(sens, rest) := TakeSentences(link, k, s);
            TakeReplyFrom(link, a, lastErr, s) ==
            VerdictAfter(a, lastErr, sens[..|sens| - 1], sens[|sens| - 1], rest)
    decreases k
  {
    hide TakeSentence, TakeSentences, VerdictAfter, Process, IsAnswer, Ends;
    var Ok(sens, rest) := TakeSentences(link, k, s);
    FirstTaken(link, k, s);
    var Ok(first, more) := TakeSentence(link, s);
    var last := sens[|sens| - 1];
    if k == 1 {
      VerdictOne(a, lastErr, first, rest);
    } else {
      var sens' := TakeSentences(link, k - 1, more).value;
      VerdictCons(a, lastErr, first, sens'[..|sens'| - 1], last, rest);
      var Effect(a', done, err) := Process(a, first);
      ReplyFrom(link, a', if err.Some? then err else lastErr, k - 1, more);
    }
  }

  // An answer is its first sentence alone, which ends it, or a sentence that does not and then an answer.
  lemma FirstTaken(link: Link, k: nat, s: seq<byte>)
    requires TakeSentences(link, k, s).Ok? && IsAnswer(TakeSentences(link, k, s).value)
    ensures k > 0 && TakeSentence(link, s).Ok?
    ensures var first := TakeSentence(link, s); var r := TakeSentences(link, k - 1, first.rest);
            var Ok(sens, rest) := TakeSentences(link, k, s);
            && |sens| == k && r.Ok? && r.rest == rest
            && (k == 1 ==> Ends(first.value) && sens[0] == first.value && rest == first.rest && sens[..0] == [])
            && (k > 1 ==>
                  && !Ends(first.value) && IsAnswer(r.value) && |r.value| == k - 1
                  && r.value[k - 2] == sens[k - 1] && sens[..k - 1] == [first.value] + r.value[..k - 2])
  {
    hide TakeSentence, Ends;
    var first := TakeSentence(link, s);
    TakenCount(link, k - 1, first.rest);
    var sens, sens' := TakeSentences(link, k, s).value, TakeSentences(link, k - 1, first.rest).value;
    assert sens == [first.value] + sens' && sens[0] == first.value;
    assert forall i :: 0 <= i < |sens'| ==> sens'[i] == sens[i + 1];
    if k > 1 {
      assert sens[..k - 1] == [first.value] + sens'[..k - 2];
    } else {
      assert TakeSentences(link, 0, first.rest) == Ok([], first.rest);
    }
  }

  lemma VerdictOne(a: Answer, lastErr: Option<ClientError>, sen: Sentence, rest: seq<byte>)
    requires Ends(sen)
    ensures var Effect(a', done, err) := Process(a, sen);
            done && VerdictAfter(a, lastErr, [], sen, rest) ==
                    if err.Some? then Outcome(None, err, rest) else Outcome(Some(a'), lastErr, rest)
  {
    assert a.re + [] == a.re;
  }

  lemma {:induction false} TakenCount(link: Link, k: nat, s: seq<byte>)
    ensures TakeSentences(link, k, s).Ok? ==> |TakeSentences(link, k, s).value| == k
  {
    hide TakeSentence;
    if k > 0 && TakeSentence(link, s).Ok? {
      TakenCount(link, k - 1, TakeSentence(link, s).rest);
    }
  }

  /** The first sentence that ends an answer decides the reply, and nothing after it is consumed. */
  lemma ReplyDecided(link: Link, k: nat, s: seq<byte>)
    requires TakeSentences(link, k, s).Ok? && IsAnswer(TakeSentences(link, k, s).value)
    ensures TakeReply(link, s) == Verdict(TakeSentences(link, k, s).value, TakeSentences(link, k, s).rest)
  {
    hide TakeReplyFrom, TakeSentences;
    ReplyFrom(link, NO_ANSWER, None, k, s);
    var body := TakeSentences(link, k, s).value;
    assert [] + Records(body[..|body| - 1]) == Records(body[..|body| - 1]);
  }

  /**
   Every stream is of one of two kinds: k sentences make a complete answer, or, after k sentences that do not end
   one, the next read fails and the reply is that failure.
   */
  lemma {:induction false} ReplyShape(link: Link, a: Answer, lastErr: Option<ClientError>, s: seq<byte>)
    returns (k: nat, complete: bool)
    ensures TakeSentences(link, k, s).Ok?
    ensures complete ==> IsAnswer(TakeSentences(link, k, s).value)
    ensures !complete ==>
              && (forall i :: 0 <= i < |TakeSentences(link, k, s).value| ==> !Ends(TakeSentences(link, k, s).value[i]))
              && var next := TakeSentence(link, TakeSentences(link, k, s).rest);
                 && next.Fail?
                 && TakeReplyFrom(link, a, lastErr, s) == Outcome(None, Some(ReadFailed(next.error)), next.rest)
    decreases |s|
  {
    hide TakeInto;
    match TakeSentence(link, s)
    case Fail(e, rest) =>
      k, complete := 0, false;
    case Ok(sen, rest) =>
      if Ends(sen) {
        k, complete := 1, true;
        assert TakeSentences(link, 0, rest) == Ok([], rest);
        assert TakeSentences(link, 1, s).value == [sen];
      } else {
        var Effect(a', done, err) := Process(a, sen);
        k, complete := ReplyShape(link, a', if err.Some? then err else lastErr, rest);
        var sens' := TakeSentences(link, k, rest).value;
        k := k + 1;
        var sens := TakeSentences(link, k, s).value;
        assert sens == [sen] + sens';
        assert forall i :: 1 <= i < |sens| ==> sens[i] == sens'[i - 1];
      }
  }

  /** A reply without an error carries its "!done" sentence. */
  lemma NilHasDone(link: Link, s: seq<byte>)
    requires TakeReply(link, s).err.None?
    ensures var a := TakeReply(link, s).answer; a.Some? && a.value.done.Some? && a.value.done.value.word == DONE
  {
    var k, complete := ReplyShape(link, NO_ANSWER, None, s);
    ReplyDecided(link, k, s);
  }
}
