/**
 Answers line by line, in the words of the protocol: what a device says in tags and attributes, and what the caller
 gets.
 */
module Answers {
  import opened Bytes
  import opened Words
  import opened Sentences
  import opened SentenceStreams
  import opened Replies
  import opened Sessions

  // A line of an answer's body, and the line that ends it.
  datatype Line = Record(items: seq<Item>) | Trap(items: seq<Item>) | Empty(items: seq<Item>) | Blank

  datatype Last = Done(items: seq<Item>) | Fatal(items: seq<Item>) | Other(name: word, items: seq<Item>)

  function LineWords(l: Line): seq<word> {
    match l
    case Record(items) => [Text("!re")] + WordsOf(items)
    case Trap(items) => [Text("!trap")] + WordsOf(items)
    case Empty(items) => [Text("!empty")] + WordsOf(items)
    case Blank => []
  }

  function LastWords(l: Last): seq<word> {
    match l
    case Done(items) => [Text("!done")] + WordsOf(items)
    case Fatal(items) => [Text("!fatal")] + WordsOf(items)
    case Other(name, items) => [name] + WordsOf(items)
  }

  function BodyWords(body: seq<Line>): (a: seq<seq<word>>)
    ensures |a| == |body| && forall i :: 0 <= i < |body| ==> a[i] == LineWords(body[i])
  {
    seq(|body|, i requires 0 <= i < |body| => LineWords(body[i]))
  }

  predicate PlainLine(l: Line) {
    l.Blank? || AllPlain(l.items)
  }

  predicate PlainLast(l: Last) {
    && AllPlain(l.items)
    && (l.Other? ==>
          l.name !in {[], Text("!re"), Text("!done"), Text("!trap"), Text("!fatal"), Text("!empty")})
  }

  // The records of an answer, and its last trap.
  function RecordsOf(body: seq<Line>): seq<Sentence> {
    if body == [] then [] else
      var last := body[|body| - 1];
      RecordsOf(body[..|body| - 1]) + if last.Record? then [SentenceOf(Text("!re"), last.items)] else []
  }

  function TrapOf(body: seq<Line>): Option<ClientError> {
    if body == [] then None
    else if body[0].Trap? && TrapOf(body[1..]).None? then Some(DeviceError(SentenceOf(Text("!trap"), body[0].items)))
    else TrapOf(body[1..])
  }

  function OutcomeOf(body: seq<Line>, last: Last, rest: seq<byte>): Outcome {
    match last
    case Done(items) =>
      Outcome(Some(Answer(RecordsOf(body), Some(SentenceOf(Text("!done"), items)))), TrapOf(body), rest)
    case Fatal(items) => Outcome(None, Some(DeviceError(SentenceOf(Text("!fatal"), items))), rest)
    case Other(name, items) => Outcome(None, Some(UnknownReply(SentenceOf(name, items))), rest)
  }

  lemma ReplyWords()
    ensures RE == Text("!re") && DONE == Text("!done") && TRAP == Text("!trap") && FATAL == Text("!fatal")
    ensures EMPTY == Text("!empty")
    ensures RE != DONE && RE != TRAP && RE != FATAL && RE != EMPTY && DONE != TRAP && DONE != FATAL && DONE != EMPTY
    ensures TRAP != FATAL && TRAP != EMPTY && FATAL != EMPTY
    ensures RE != [] && DONE != [] && TRAP != [] && FATAL != [] && EMPTY != []
  {
    assert RE[1] != DONE[1] && RE[1] != TRAP[1] && RE[1] != FATAL[1] && RE[1] != EMPTY[1] && DONE[1] != TRAP[1];
    assert DONE[1] != FATAL[1] && DONE[1] != EMPTY[1] && TRAP[1] != FATAL[1] && TRAP[1] != EMPTY[1];
    assert FATAL[1] != EMPTY[1];
  }

  lemma LineDescribed(l: Line)
    requires PlainLine(l)
    ensures Legal(LineWords(l)) && BodySentence(LineWords(l))
    ensures l.Record? ==> FirstOf(LineWords(l)) == RE && Describes(LineWords(l), SentenceOf(RE, l.items))
    ensures l.Trap? ==> FirstOf(LineWords(l)) == TRAP && Describes(LineWords(l), SentenceOf(TRAP, l.items))
    ensures !l.Record? ==> FirstOf(LineWords(l)) != RE
    ensures !l.Trap? ==> FirstOf(LineWords(l)) != TRAP
  {
    hide Describes, Text;
    ReplyWords();
    if !l.Blank? {
      ItemsDescribe(LineWords(l)[0], l.items);
    }
  }

  lemma LastDescribed(l: Last)
    requires PlainLast(l)
    ensures Legal(LastWords(l)) && !BodySentence(LastWords(l))
    ensures var w := FirstOf(LastWords(l));
            && Describes(LastWords(l), SentenceOf(w, l.items))
            && (l.Done? <==> w == DONE) && (l.Fatal? <==> w == FATAL)
  {
    hide Describes, Text;
    ReplyWords();
    ItemsDescribe(LastWords(l)[0], l.items);
  }

  lemma {:induction false} RecordsDescribed(body: seq<Line>)
    requires forall i :: 0 <= i < |body| ==> PlainLine(body[i])
    ensures Reads(RecordLists(BodyWords(body)), RecordsOf(body))
  {
    hide Describes, LineWords, Text;
    ReplyWords();
    if body != [] {
      var n := |body| - 1;
      RecordsDescribed(body[..n]);
      LineDescribed(body[n]);
      assert BodyWords(body) == BodyWords(body[..n]) + [LineWords(body[n])];
      RecordListsSnoc(BodyWords(body[..n]), LineWords(body[n]));
    }
  }

  lemma {:induction false} RecordListsSnoc(a: seq<seq<word>>, ws: seq<word>)
    ensures RecordLists(a + [ws]) == RecordLists(a) + if FirstOf(ws) == RE then [ws] else []
  {
    hide FirstOf;
    if a == [] {
      assert (a + [ws])[1..] == [];
    } else {
      assert (a + [ws])[1..] == a[1..] + [ws] && (a + [ws])[0] == a[0];
      RecordListsSnoc(a[1..], ws);
      var head := if FirstOf(a[0]) == RE then [a[0]] else [];
      var tail := if FirstOf(ws) == RE then [ws] else [];
      assert RecordLists(a + [ws]) == head + (RecordLists(a[1..]) + tail) == head + RecordLists(a[1..]) + tail;
    }
  }

  lemma {:induction false} TrapDescribed(body: seq<Line>)
    requires forall i :: 0 <= i < |body| ==> PlainLine(body[i])
    ensures TrapError(LastTrapList(BodyWords(body)), TrapOf(body))
  {
    hide Describes, LineWords, Text;
    ReplyWords();
    if body != [] {
      TrapDescribed(body[1..]);
      LineDescribed(body[0]);
      assert BodyWords(body) == [LineWords(body[0])] + BodyWords(body[1..]);
      LastTrapListCons(LineWords(body[0]), BodyWords(body[1..]));
    }
  }

  lemma {:induction false} LastTrapListCons(ws: seq<word>, a: seq<seq<word>>)
    ensures LastTrapList([ws] + a) ==
            if LastTrapList(a).Some? then LastTrapList(a) else if FirstOf(ws) == TRAP then Some(ws) else None
  {
    var all := [ws] + a;
    if a == [] {
      assert all[..0] == [];
    } else {
      assert all[..|all| - 1] == [ws] + a[..|a| - 1];
      LastTrapListCons(ws, a[..|a| - 1]);
    }
  }

  lemma OutcomeReported(body: seq<Line>, last: Last, rest: seq<byte>)
    requires (forall i :: 0 <= i < |body| ==> PlainLine(body[i])) && PlainLast(last)
    ensures var a := BodyWords(body) + [LastWords(last)];
            CompleteAnswer(a) && Reports(a, OutcomeOf(body, last, rest))
  {
    hide Describes, LineWords, LastWords, Text, RecordLists, LastTrapList, Legal, BodySentence;
    var a := BodyWords(body) + [LastWords(last)];
    ReplyWords();
    LastDescribed(last);
    RecordsDescribed(body);
    TrapDescribed(body);
    LastNames(last);
    assert a[..|a| - 1] == BodyWords(body);
    forall i | 0 <= i < |a| ensures Legal(a[i]) && (BodySentence(a[i]) <==> i < |a| - 1) {
      if i < |body| {
        LineDescribed(body[i]);
      }
    }
  }

  lemma LastNames(l: Last)
    ensures FirstOf(LastWords(l)) ==
            match l case Done(_) => Text("!done") case Fatal(_) => Text("!fatal") case Other(name, _) => name
  {}

  /**
   Any body of records, traps, "!empty" and blank sentences and any sentence that ends it, in front of any bytes: the
   reply holds exactly the records in order with their tags and attributes, the "!done" sentence and the last trap, or
   only the error of what ended the answer instead. Exactly those bytes stay unread.
   */
  lemma AnswerByLines(link: Link, body: seq<Line>, last: Last, tail: seq<byte>)
    requires (forall i :: 0 <= i < |body| ==> PlainLine(body[i])) && PlainLast(last)
    requires var a := BodyWords(body) + [LastWords(last)];
             AllSendable(a) && forall i :: 0 <= i < |a| ==> AllAscii(a[i])
    ensures TakeReply(link, EncodeSentences(BodyWords(body) + [LastWords(last)]) + tail) == OutcomeOf(body, last, tail)
  {
    hide TakeReply, EncodeSentences, OutcomeOf, Reports, CompleteAnswer, AllSendable, AllAscii, LastWords;
    var a := BodyWords(body) + [LastWords(last)];
    OutcomeReported(body, last, tail);
    forall i | 0 <= i < |a| ensures DecodeAll(link.codePage, a[i]) == a[i] {
      AsciiWords(link.codePage, a[i]);
    }
    assert DecodeLists(link.codePage, a) == a;
    OneAnswer(link, a, tail);
    OutcomeRest(body, last, tail);
    ReportsUnique(a, TakeReply(link, EncodeSentences(a) + tail), OutcomeOf(body, last, tail));
  }

  lemma OutcomeRest(body: seq<Line>, last: Last, rest: seq<byte>)
    ensures OutcomeOf(body, last, rest).rest == rest
  {}
}
