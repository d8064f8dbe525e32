/** A session: the device answers one command after the other on the same stream. */
module Sessions {
  import opened Bytes
  import opened Words
  import opened Sentences
  import opened SentenceStreams
  import opened Replies

  // The results of k commands in a row, each reading on where the one before stopped.
  function TakeReplies(link: Link, k: nat, s: seq<byte>): (r: (seq<Outcome>, seq<byte>))
    ensures |r.0| == k
  {
    if k == 0 then ([], s) else
      var o := TakeReply(link, s);
      var (os, rest) := TakeReplies(link, k - 1, o.rest);
      ([o] + os, rest)
  }

  // A sentence that belongs to the body of an answer: a record, a trap, "!empty", or no words at all.
  predicate BodySentence(ws: seq<word>) {
    ws == [] || ws[0] == RE || ws[0] == TRAP || ws[0] == EMPTY
  }

  // Legal sentences, of which the last one and no other ends a reply.
  predicate CompleteAnswer(a: seq<seq<word>>) {
    a != [] && forall i :: 0 <= i < |a| ==> Legal(a[i]) && (BodySentence(a[i]) <==> i < |a| - 1)
  }

  // The same of what a device sends, as the client decodes it.
  predicate OwnAnswer(page: CodePage, a: seq<seq<word>>) {
    CompleteAnswer(DecodeLists(page, a))
  }

  // The sentences `sens` are what the word lists describe.
  ghost predicate Reads(a: seq<seq<word>>, sens: seq<Sentence>) {
    |sens| == |a| && forall i :: 0 <= i < |a| ==> Describes(a[i], sens[i])
  }

  function FirstOf(ws: seq<word>): word {
    if ws == [] then [] else ws[0]
  }

  function RecordLists(a: seq<seq<word>>): seq<seq<word>> {
    if a == [] then [] else (if FirstOf(a[0]) == RE then [a[0]] else []) + RecordLists(a[1..])
  }

  function LastTrapList(a: seq<seq<word>>): Option<seq<word>> {
    if a == [] then None
    else if FirstOf(a[|a| - 1]) == TRAP then Some(a[|a| - 1])
    else LastTrapList(a[..|a| - 1])
  }

  // No trap, no error; else the error is the device's, with the sentence of the trap.
  ghost predicate TrapError(trap: Option<seq<word>>, e: Option<ClientError>) {
    match trap
    case None => e.None?
    case Some(ws) => e.Some? && e.value.DeviceError? && Describes(ws, e.value.sentence)
  }

  /**
   What a caller learns from an answer: after "!done" its own records in order, that sentence and the last trap; after
   anything else that ends a reply, only an error with that sentence.
   */
  ghost predicate Reports(a: seq<seq<word>>, o: Outcome)
    requires a != []
  {
    var body, last := a[..|a| - 1], a[|a| - 1];
    if FirstOf(last) == DONE then
      && o.answer.Some? && o.answer.value.done.Some? && Describes(last, o.answer.value.done.value)
      && Reads(RecordLists(body), o.answer.value.re) && TrapError(LastTrapList(body), o.err)
    else
      && o.answer.None? && o.err.Some?
      && (if FirstOf(last) == FATAL then o.err.value.DeviceError? else o.err.value.UnknownReply?)
      && Describes(last, o.err.value.sentence)
  }

  /** This leaves no choice: an answer has one outcome. */
  lemma ReportsUnique(a: seq<seq<word>>, x: Outcome, y: Outcome)
    requires a != [] && Reports(a, x) && Reports(a, y) && x.rest == y.rest
    ensures x == y
  {
    hide Describes, RecordLists, LastTrapList;
    var body, last := a[..|a| - 1], a[|a| - 1];
    if FirstOf(last) == DONE {
      DescribesUnique(last, x.answer.value.done.value, y.answer.value.done.value);
      ReadsUnique(RecordLists(body), x.answer.value.re, y.answer.value.re);
      if LastTrapList(body).Some? {
        DescribesUnique(LastTrapList(body).value, x.err.value.sentence, y.err.value.sentence);
      }
    } else {
      DescribesUnique(last, x.err.value.sentence, y.err.value.sentence);
    }
  }

  lemma ReadsUnique(a: seq<seq<word>>, x: seq<Sentence>, y: seq<Sentence>)
    requires Reads(a, x) && Reads(a, y)
    ensures x == y
  {
    hide Describes;
    forall i | 0 <= i < |a| ensures x[i] == y[i] {
      DescribesUnique(a[i], x[i], y[i]);
    }
  }

  lemma {:induction false} RecordsRead(a: seq<seq<word>>, sens: seq<Sentence>)
    requires Reads(a, sens)
    ensures Reads(RecordLists(a), Records(sens))
  {
    hide DescribesTag, DescribesAttrs;
    if a != [] {
      assert Describes(a[0], sens[0]);
      RecordsRead(a[1..], sens[1..]);
    }
  }

  lemma {:induction false} TrapRead(a: seq<seq<word>>, sens: seq<Sentence>)
    requires Reads(a, sens)
    ensures TrapError(LastTrapList(a), LastTrap(sens))
  {
    hide DescribesTag, DescribesAttrs;
    if a != [] {
      var n := |a| - 1;
      assert Describes(a[n], sens[n]);
      TrapRead(a[..n], sens[..n]);
    }
  }

  lemma VerdictReports(a: seq<seq<word>>, sens: seq<Sentence>, rest: seq<byte>)
    requires a != [] && Reads(a, sens) && IsAnswer(sens)
    ensures Reports(a, Verdict(sens, rest)) && Verdict(sens, rest).rest == rest
  {
    hide DescribesTag, DescribesAttrs, Records, LastTrap, RecordLists, LastTrapList;
    var n := |a| - 1;
    assert Describes(a[n], sens[n]);
    RecordsRead(a[..n], sens[..n]);
    TrapRead(a[..n], sens[..n]);
  }

  // What complete answers describe is an answer.
  lemma ReadsAnswer(a: seq<seq<word>>, sens: seq<Sentence>)
    requires CompleteAnswer(a) && Reads(a, sens)
    requires forall i :: 0 <= i < |a| ==> FirstOf(a[i]) == [] ==> a[i] == []
    ensures IsAnswer(sens)
  {
    hide DescribesTag, DescribesAttrs, BodySentence, Ends, Legal;
    forall i | 0 <= i < |a| ensures Ends(sens[i]) <==> !BodySentence(a[i]) {
      assert Describes(a[i], sens[i]);
      EndsOutsideBody(a[i], sens[i]);
    }
  }

  lemma DecodedFirst(page: CodePage, a: seq<seq<word>>)
    requires AllSendable(a)
    ensures forall i :: 0 <= i < |a| ==> FirstOf(DecodeAll(page, a[i])) == [] ==> DecodeAll(page, a[i]) == []
  {
    forall i | 0 <= i < |a| && a[i] != [] ensures FirstOf(DecodeAll(page, a[i])) != [] {
      assert Sendable(a[i]);
      DecodeAscii(page, a[i][0]);
    }
  }

  /** One answer, in front of any bytes: the caller learns what it says, and exactly those bytes stay unread. */
  lemma OneAnswer(link: Link, a: seq<seq<word>>, tail: seq<byte>)
    requires AllSendable(a) && OwnAnswer(link.codePage, a)
    ensures var o := TakeReply(link, EncodeSentences(a) + tail);
            o.rest == tail && Reports(DecodeLists(link.codePage, a), o)
  {
    hide TakeReply, TakeSentences, Verdict, EncodeSentences, Describes, Legal, BodySentence, Sendable, Reports,
         DecodeAll;
    var s, ds := EncodeSentences(a) + tail, DecodeLists(link.codePage, a);
    StreamRoundTrip(link, a, tail);
    var sens := TakeSentences(link, |a|, s).value;
    assert Reads(ds, sens);
    DecodedFirst(link.codePage, a);
    ReadsAnswer(ds, sens);
    ReplyDecided(link, |a|, s);
    VerdictReports(ds, sens, tail);
  }

  /**
   When the device answers k commands, the k replies are its k answers in order, each made of its own sentences
   only: a trap in one of them does not move a record into another. What follows stays unread.
   */
  lemma {:induction false} SessionInStep(link: Link, answers: seq<seq<seq<word>>>, tail: seq<byte>)
    requires forall i :: 0 <= i < |answers| ==> AllSendable(answers[i]) && OwnAnswer(link.codePage, answers[i])
    ensures var (os, rest) := TakeReplies(link, |answers|, EncodeSentences(Flatten(answers)) + tail);
            && rest == tail
            && forall i :: 0 <= i < |answers| ==>
                 answers[i] != [] && Reports(DecodeLists(link.codePage, answers[i]), os[i])
  {
    hide TakeReply, EncodeSentences, Reports, AllSendable, Legal, BodySentence, DecodeAll;
    if answers == [] {
      assert EncodeSentences(Flatten(answers)) + tail == tail by {
        assert Flatten(answers) == [];
        EncodeNothing();
      }
    } else {
      var others := answers[1..];
      var more := EncodeSentences(Flatten(others)) + tail;
      EncodeAppend(answers[0], Flatten(others));
      var s := EncodeSentences(Flatten(answers)) + tail;
      assert s == EncodeSentences(answers[0]) + more;
      OneAnswer(link, answers[0], more);
      SessionInStep(link, others, tail);
      var (os, rest) := TakeReplies(link, |answers|, s);
      var (os', rest') := TakeReplies(link, |others|, more);
      assert os == [TakeReply(link, s)] + os';
      assert forall i :: 1 <= i < |answers| ==> answers[i] == others[i - 1] && os[i] == os'[i - 1];
    }
  }

  lemma EncodeNothing()
    ensures EncodeSentences([]) == []
  {}

  // Exactly when the client stays in step

  // The reply was not cut short by a read error, and exactly the tail stays unread.
  predicate Answered(o: Outcome, tail: seq<byte>) {
    o.rest == tail && NotReadError(o.err)
  }

  predicate NotReadError(e: Option<ClientError>) {
    e.None? || !e.value.ReadFailed?
  }

  // k commands in a row: each consumes the sentences sent in answer to it and no others.
  predicate InStep(link: Link, answers: seq<seq<seq<word>>>, tail: seq<byte>) {
    answers == [] ||
      var more := EncodeSentences(Flatten(answers[1..])) + tail;
      Answered(TakeReply(link, EncodeSentences(answers[0]) + more), more) && InStep(link, answers[1..], tail)
  }

  lemma {:induction false} ReplyConsumes(link: Link, a: Answer, lastErr: Option<ClientError>, s: seq<byte>)
    ensures s != [] ==> |TakeReplyFrom(link, a, lastErr, s).rest| < |s|
    ensures s == [] ==> !NotReadError(TakeReplyFrom(link, a, lastErr, s).err)
    decreases |s|
  {
    hide TakeInto, Process;
    TakeSuffix(link, BLANK, s);
    match TakeSentence(link, s)
    case Fail(_, _) =>
    case Ok(sen, rest) =>
      var Effect(a', done, err) := Process(a, sen);
      if !done {
        ReplyConsumes(link, a', if err.Some? then err else lastErr, rest);
        if rest == [] {
          TakeSuffix(link, BLANK, rest);
          EmptyReply(link, a', if err.Some? then err else lastErr);
        }
      }
  }

  lemma EmptyReply(link: Link, a: Answer, lastErr: Option<ClientError>)
    ensures TakeReplyFrom(link, a, lastErr, []).rest == []
  {}

  // An illegal sentence is a read error with part of that sentence unread.
  lemma IllegalSentence(link: Link, ws: seq<word>, more: seq<byte>)
    requires Sendable(ws) && !Legal(DecodeAll(link.codePage, ws))
    ensures TakeSentence(link, EncodeSentence(ws) + more).Fail?
    ensures |TakeSentence(link, EncodeSentence(ws) + more).rest| > |more|
  {
    hide TakeInto, EncodeSentence, TakeWords, Absorb, Fold, Decode, DescribesTag, DescribesAttrs;
    var s, ds := EncodeSentence(ws) + more, DecodeAll(link.codePage, ws);
    WordsRoundTrip(link, ws, more);
    var k := FirstIllegal(ds, 1);
    assert forall i :: 0 <= i < k ==> ds[..k][i] == ds[i];
    FoldDescribes(ds[..k]);
    NotAbsorbed(Fold(BLANK, ds[..k]).value, ds[k]);
    IllegalWord(link, BLANK, s, k);
    assert |more| < |TakeInto(link, BLANK, s).rest|;
  }

  lemma FirstIllegal(ws: seq<word>, from: nat) returns (k: nat)
    requires 1 <= from && (exists i :: from <= i < |ws| && !IsTag(ws[i]) && !IsAttr(ws[i]))
    requires forall i :: 1 <= i < from && i < |ws| ==> IsTag(ws[i]) || IsAttr(ws[i])
    ensures 1 <= k < |ws| && !IsTag(ws[k]) && !IsAttr(ws[k]) && Legal(ws[..k])
    decreases |ws| - from
  {
    if !IsTag(ws[from]) && !IsAttr(ws[from]) {
      k := from;
    } else {
      k := FirstIllegal(ws, from + 1);
    }
  }

  lemma NotAbsorbed(sen: Sentence, w: word)
    requires sen.word != [] && !IsTag(w) && !IsAttr(w)
    ensures Absorb(sen, w).None?
  {}

  // A reply step for a legal sentence in front of more.
  lemma LegalSentence(link: Link, a: Answer, lastErr: Option<ClientError>, ws: seq<word>, more: seq<byte>)
    returns (a': Answer, err: Option<ClientError>)
    requires Sendable(ws) && Legal(DecodeAll(link.codePage, ws)) && NotReadError(lastErr)
    ensures NotReadError(err)
    ensures var o := TakeReplyFrom(link, a, lastErr, EncodeSentence(ws) + more);
            if BodySentence(DecodeAll(link.codePage, ws)) then o == TakeReplyFrom(link, a', err, more)
            else Answered(o, more)
  {
    hide TakeSentence, TakeReplyFrom, Process, EncodeSentence, Ends, Legal, BodySentence, DescribesTag, DescribesAttrs,
         Decode;
    var s, ds := EncodeSentence(ws) + more, DecodeAll(link.codePage, ws);
    SentenceRoundTrip(link, ws, more);
    WordsRoundTrip(link, ws, more);
    var sen := TakeSentence(link, s).value;
    ReplyStep(link, a, lastErr, s);
    ProcessEnds(a, sen);
    EndsOutsideBody(ds, sen);
    var effect := Process(a, sen);
    a', err := effect.answer, if effect.err.Some? then effect.err else lastErr;
  }

  lemma ReplyStep(link: Link, a: Answer, lastErr: Option<ClientError>, s: seq<byte>)
    requires TakeSentence(link, s).Ok?
    ensures var Ok(sen, rest) := TakeSentence(link, s); var Effect(a', done, err) := Process(a, sen);
            TakeReplyFrom(link, a, lastErr, s) ==
            if done && err.Some? then Outcome(None, err, rest)
            else if done then Outcome(Some(a'), lastErr, rest)
            else TakeReplyFrom(link, a', if err.Some? then err else lastErr, rest)
  {
    hide TakeSentence, Process;
  }

  lemma ProcessEnds(a: Answer, sen: Sentence)
    ensures Process(a, sen).done <==> Ends(sen)
    ensures NotReadError(Process(a, sen).err)
  {}

  lemma EndsOutsideBody(ws: seq<word>, sen: Sentence)
    requires sen.word == FirstOf(ws) && (ws != [] ==> ws[0] != [])
    ensures Ends(sen) <==> !BodySentence(ws)
  {}

  lemma {:induction false} AnswerExactly(link: Link, a: Answer, lastErr: Option<ClientError>, sent: seq<seq<word>>,
                                         tail: seq<byte>)
    requires (forall i :: 0 <= i < |sent| ==> Sendable(sent[i])) && NotReadError(lastErr)
    ensures Answered(TakeReplyFrom(link, a, lastErr, EncodeSentences(sent) + tail), tail)
       <==> OwnAnswer(link.codePage, sent)
    decreases sent
  {
    hide TakeReplyFrom, EncodeSentence, Legal, Sendable, BodySentence, DecodeAll;
    if sent == [] {
      assert EncodeSentences(sent) + tail == tail;
      ReplyConsumes(link, a, lastErr, tail);
    } else {
      var others, more := sent[1..], EncodeSentences(sent[1..]) + tail;
      assert EncodeSentences(sent) + tail == EncodeSentence(sent[0]) + more;
      OwnAnswerCons(link.codePage, sent);
      if Legal(DecodeAll(link.codePage, sent[0])) {
        var a', err := LegalSentence(link, a, lastErr, sent[0], more);
        AnswerExactly(link, a', err, others, tail);
        NonEmptyCode(others);
      } else {
        IllegalSentence(link, sent[0], more);
        FailedSentence(link, a, lastErr, EncodeSentence(sent[0]) + more);
      }
    }
  }

  lemma FailedSentence(link: Link, a: Answer, lastErr: Option<ClientError>, s: seq<byte>)
    requires TakeSentence(link, s).Fail?
    ensures !NotReadError(TakeReplyFrom(link, a, lastErr, s).err)
  {}

  lemma NonEmptyCode(sens: seq<seq<word>>)
    ensures EncodeSentences(sens) == [] <==> sens == []
  {
    if sens != [] {
      SentenceCode(sens[0]);
    }
  }

  lemma SentenceCode(ws: seq<word>)
    ensures EncodeSentence(ws) != []
  {}

  lemma OwnAnswerCons(page: CodePage, sent: seq<seq<word>>)
    requires sent != []
    ensures var first := DecodeAll(page, sent[0]);
            OwnAnswer(page, sent) <==>
            Legal(first) && if BodySentence(first) then OwnAnswer(page, sent[1..]) else |sent| == 1
  {
    hide Legal, BodySentence, DecodeAll;
    assert DecodeLists(page, sent)[1..] == DecodeLists(page, sent[1..]);
    assert forall i :: 1 <= i < |sent| ==> sent[i] == sent[1..][i - 1];
    if OwnAnswer(page, sent[1..]) && Legal(DecodeAll(page, sent[0])) && BodySentence(DecodeAll(page, sent[0])) {
      assert OwnAnswer(page, sent);
    }
  }

  /**
   Whatever sentences are sent in answer to k commands: the client stays in step exactly when each answer consists of
   legal sentences of which the last one, and no other, ends a reply.
   */
  lemma {:induction false} StaysInStep(link: Link, answers: seq<seq<seq<word>>>, tail: seq<byte>)
    requires forall i, j :: 0 <= i < |answers| && 0 <= j < |answers[i]| ==> Sendable(answers[i][j])
    ensures InStep(link, answers, tail) <==> forall i :: 0 <= i < |answers| ==> OwnAnswer(link.codePage, answers[i])
  {
    hide TakeReplyFrom, EncodeSentences, OwnAnswer, Answered, Sendable;
    if answers != [] {
      var others := answers[1..];
      assert forall i :: 1 <= i < |answers| ==> answers[i] == others[i - 1];
      AnswerExactly(link, NO_ANSWER, None, answers[0], EncodeSentences(Flatten(others)) + tail);
      StaysInStep(link, others, tail);
    }
  }

  // How many sentences of an answer start with the given reply word.
  function Count(a: seq<seq<word>>, reply: word): nat {
    if a == [] then 0 else (if FirstOf(a[0]) == reply then 1 else 0) + Count(a[1..], reply)
  }

  /**
   In numbers, for an answer that ends in "!done": as many records as it has "!re" sentences, and an error exactly if it
   has a trap.
   */
  lemma AnswerContents(a: seq<seq<word>>, o: Outcome)
    requires a != [] && FirstOf(a[|a| - 1]) == DONE && Reports(a, o)
    ensures o.answer.Some? && |o.answer.value.re| == Count(a, RE)
    ensures o.err.Some? <==> Count(a, TRAP) > 0
  {
    hide Describes;
    var n := |a| - 1;
    RecordCount(a[..n]);
    TrapCount(a[..n]);
    CountInit(a, RE);
    CountInit(a, TRAP);
  }

  lemma CountInit(a: seq<seq<word>>, reply: word)
    requires a != [] && FirstOf(a[|a| - 1]) != reply
    ensures Count(a, reply) == Count(a[..|a| - 1], reply)
  {
    var n := |a| - 1;
    CountSnoc(a[..n], a[n], reply);
    assert a == a[..n] + [a[n]];
  }

  lemma {:induction false} TrapCount(a: seq<seq<word>>)
    ensures LastTrapList(a).Some? <==> Count(a, TRAP) > 0
  {
    if a != [] {
      var n := |a| - 1;
      TrapCount(a[..n]);
      CountSnoc(a[..n], a[n], TRAP);
      assert a == a[..n] + [a[n]];
    }
  }

  lemma {:induction false} RecordCount(a: seq<seq<word>>)
    ensures |RecordLists(a)| == Count(a, RE)
  {
    if a != [] {
      RecordCount(a[1..]);
    }
  }

  lemma {:induction false} CountSnoc(a: seq<seq<word>>, ws: seq<word>, reply: word)
    ensures Count(a + [ws], reply) == Count(a, reply) + if FirstOf(ws) == reply then 1 else 0
  {
    if a == [] {
      assert (a + [ws])[1..] == [];
    } else {
      assert (a + [ws])[1..] == a[1..] + [ws];
      CountSnoc(a[1..], ws, reply);
    }
  }
}
