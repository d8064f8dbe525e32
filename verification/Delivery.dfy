/** Both ends of the connection together: what the device reads of concurrent commands, and cut answers. */
module Delivery {
  import opened Bytes
  import opened Words
  import opened Sentences
  import opened SentenceStreams
  import opened Heard
  import opened Replies
  import opened Sessions
  import opened WriterProtocol

  // More bytes at the end do not change the sentences that could be read before.
  lemma {:induction false} TakeMore(link: Link, k: nat, s: seq<byte>, t: seq<byte>)
    requires TakeSentences(link, k, s).Ok?
    ensures TakeSentences(link, k, s + t) ==
            Ok(TakeSentences(link, k, s).value, TakeSentences(link, k, s).rest + t)
  {
    hide TakeSentence;
    if k > 0 {
      var Ok(sen, rest) := TakeSentence(link, s);
      ReadLocal(link, link, s, rest + t);
      var n := Consumed(TakeSentence(link, s), s);
      SentenceSuffix(link, s);
      assert s[..n] + (rest + t) == s + t;
      TakeMore(link, k - 1, rest, t);
    }
  }

  lemma SentenceSuffix(link: Link, s: seq<byte>)
    ensures var r := TakeSentence(link, s); var n := Consumed(r, s); 0 <= n <= |s| && r.rest == s[n..]
  {
    TakeSuffix(link, BLANK, s);
  }

  // The first j of k sentences are the sentences of a shorter read.
  lemma {:induction false} TakeFewer(link: Link, j: nat, k: nat, s: seq<byte>)
    requires j <= k && TakeSentences(link, k, s).Ok?
    ensures TakeSentences(link, j, s).Ok?
    ensures |TakeSentences(link, k, s).value| == k
    ensures TakeSentences(link, j, s).value == TakeSentences(link, k, s).value[..j]
    ensures TakeSentences(link, k - j, TakeSentences(link, j, s).rest).Ok?
  {
    hide TakeSentence;
    TakenCount(link, k, s);
    if j > 0 {
      var rest := TakeSentence(link, s).rest;
      TakeFewer(link, j - 1, k - 1, rest);
    }
  }

  /**
   Whatever threads send commands at the same time and whatever fails: at every moment what the device can read is the
   beginning of the list of commands in the order in which they took the lock, each whole and with its own words.
   */
  lemma DeviceSeesCommands(link: Link, states: seq<State>, steps: seq<Step>, i: nat, k: nat)
    requires Behaviour(states, steps) && i < |states| && AllFit(states[i].order)
    requires TakeLists(link, k, states[i].wire.sent).Ok?
    ensures k <= |HeardAs(states[i].order)|
    ensures TakeLists(link, k, states[i].wire.sent).value ==
            DecodeLists(link.codePage, HeardAs(states[i].order)[..k])
  {
    hide TakeLists, EncodeSentences;
    SentIsPrefix(states, steps, i);
    HeardPrefix(link, states[i].order, states[i].wire.sent, k);
  }

  /**
   When a command returns without an error, the device can read exactly the commands up to and including it, in lock
   order and each with its own words, and nothing is left over.
   */
  lemma NilMeansRead(link: Link, states: seq<State>, steps: seq<Step>, i: nat, k: nat)
    requires Behaviour(states, steps) && i < |steps| && Returns(states[i], steps[i])
    requires ReturnValue(states[i], steps[i]).None? && AllFit(states[i].order)
    ensures TakeLists(link, k, states[i].wire.sent).Ok? <==> k <= |HeardAs(states[i].order)|
    ensures var heard := HeardAs(states[i].order);
            TakeLists(link, |heard|, states[i].wire.sent) == Ok(DecodeLists(link.codePage, heard), [])
  {
    hide TakeLists, EncodeSentences;
    HolderAccounts(states, steps, i);
    var heard := HeardAs(states[i].order);
    HeardPrefix(link, states[i].order, states[i].wire.sent, k);
    HeardPrefix(link, states[i].order, states[i].wire.sent, |heard|);
    assert heard[..|heard|] == heard;
  }

  /** An answer cut anywhere before its end is a read error, never a shorter answer. */
  lemma TruncatedAnswer(link: Link, a: seq<seq<word>>, m: nat)
    requires AllSendable(a) && OwnAnswer(link.codePage, a) && m < |EncodeSentences(a)|
    ensures var o := TakeReply(link, EncodeSentences(a)[..m]); o.answer.None? && o.err.Some? && o.err.value.ReadFailed?
  {
    hide TakeSentences, EncodeSentences, TakeReplyFrom, Verdict, TakeSentence;
    var cut, rest := EncodeSentences(a)[..m], EncodeSentences(a)[m..];
    var k, complete := ReplyShape(link, NO_ANSWER, None, cut);
    if complete {
      assert cut + rest == EncodeSentences(a);
      NoAnswerInside(link, a, k, cut, rest);
    }
  }

  // A beginning of an answer's bytes that holds a complete answer holds all of them.
  lemma NoAnswerInside(link: Link, a: seq<seq<word>>, k: nat, cut: seq<byte>, rest: seq<byte>)
    requires AllSendable(a) && OwnAnswer(link.codePage, a) && cut + rest == EncodeSentences(a)
    requires TakeSentences(link, k, cut).Ok? && IsAnswer(TakeSentences(link, k, cut).value)
    ensures rest == []
  {
    hide TakeSentences, EncodeSentences;
    TakeMore(link, k, cut, rest);
    var sens := AnswerRead(link, a);
    TakenCount(link, k, cut + rest);
    if k <= |a| {
      TakeFewer(link, k, |a|, cut + rest);
      OneAnswerOnly(sens, k);
    } else {
      TakeFewer(link, |a|, k, cut + rest);
      OneAnswerOnly(TakeSentences(link, k, cut).value, |a|);
    }
  }

  lemma OneAnswerOnly(sens: seq<Sentence>, j: nat)
    requires IsAnswer(sens) && j <= |sens| && IsAnswer(sens[..j])
    ensures j == |sens|
  {
    assert sens[..j][j - 1] == sens[j - 1];
  }

  lemma AnswerRead(link: Link, a: seq<seq<word>>) returns (sens: seq<Sentence>)
    requires AllSendable(a) && OwnAnswer(link.codePage, a)
    ensures TakeSentences(link, |a|, EncodeSentences(a)) == Ok(sens, [])
    ensures |sens| == |a| && IsAnswer(sens)
  {
    hide TakeSentences, EncodeSentences, Describes, Legal, BodySentence, DecodeAll;
    var s := EncodeSentences(a);
    assert s + [] == s;
    StreamRoundTrip(link, a, []);
    sens := TakeSentences(link, |a|, s).value;
    var ds := DecodeLists(link.codePage, a);
    assert Reads(ds, sens);
    ReadsAnswer(ds, sens);
  }
}
