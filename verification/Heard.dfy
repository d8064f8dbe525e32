/**
 What a device hears: lists of words, up to one empty word after the other. Commands are any words, also query words,
 which the client's own reader of sentences would refuse.
 */
module Heard {
  import opened Bytes
  import opened LengthCode
  import opened Words
  import opened Sentences
  import opened SentenceStreams

  function TakeLists(link: Link, k: nat, s: seq<byte>): Read<seq<seq<word>>> {
    if k == 0 then Ok([], s) else
      match TakeWords(link, s)
      case Fail(e, rest) => Fail(e, rest)
      case Ok(ws, rest) =>
        match TakeLists(link, k - 1, rest)
        case Fail(e, rest') => Fail(e, rest')
        case Ok(lists, rest') => Ok([ws] + lists, rest')
  }

  // Words whose lengths the length code can carry.
  predicate Fits(ws: seq<word>) {
    forall i :: 0 <= i < |ws| ==> |ws[i]| < LENGTH_LIMIT
  }

  predicate AllFit(commands: seq<seq<word>>) {
    forall i :: 0 <= i < |commands| ==> Fits(commands[i])
  }

  // An empty word in a command ends a sentence on the wire: these are the sentences it amounts to.
  function Pieces(ws: seq<word>): (p: seq<seq<word>>)
    ensures p != []
  {
    if ws == [] then [[]] else
      var p := Pieces(ws[1..]);
      if ws[0] == [] then [[]] + p else [[ws[0]] + p[0]] + p[1..]
  }

  function HeardAs(commands: seq<seq<word>>): seq<seq<word>> {
    if commands == [] then [] else Pieces(commands[0]) + HeardAs(commands[1..])
  }

  predicate NoEmptyWord(ws: seq<word>) {
    forall i :: 0 <= i < |ws| ==> ws[i] != []
  }

  lemma {:induction false} PiecesEncode(ws: seq<word>)
    ensures EncodeSentences(Pieces(ws)) == EncodeSentence(ws)
  {
    hide EncodeWord;
    var p := Pieces(ws);
    if ws == [] {
      assert p[1..] == [];
    } else {
      PiecesEncode(ws[1..]);
      var q := Pieces(ws[1..]);
      if ws[0] == [] {
        assert p[0] == [] && p[1..] == q;
      } else {
        assert p[1..] == q[1..] && p[0][0] == ws[0] && p[0][1..] == q[0];
        FrontWord(ws[0], q[0], q[1..]);
        assert [q[0]] + q[1..] == q;
      }
    }
  }

  lemma FrontWord(w: word, ws: seq<word>, others: seq<seq<word>>)
    ensures EncodeSentences([[w] + ws] + others) == EncodeWord(w) + EncodeSentences([ws] + others)
  {
    hide EncodeWord;
    assert ([w] + ws)[1..] == ws;
    assert ([[w] + ws] + others)[1..] == others && ([ws] + others)[1..] == others;
    assert EncodeSentence([w] + ws) == EncodeWord(w) + EncodeSentence(ws);
  }

  lemma {:induction false} PiecesSendable(ws: seq<word>)
    requires Fits(ws)
    ensures AllSendable(Pieces(ws))
  {
    if ws != [] {
      PiecesSendable(ws[1..]);
      var p, q := Pieces(ws), Pieces(ws[1..]);
      assert Sendable(q[0]);
      if ws[0] == [] {
        assert forall i :: 1 <= i < |p| ==> p[i] == q[i - 1];
      } else {
        assert forall i :: 1 <= i < |p| ==> p[i] == q[i];
      }
    }
  }

  lemma {:induction false} HeardEncode(commands: seq<seq<word>>)
    ensures EncodeSentences(HeardAs(commands)) == EncodeSentences(commands)
    ensures AllFit(commands) ==> AllSendable(HeardAs(commands))
  {
    hide EncodeSentence, Pieces, Fits, Sendable;
    if commands != [] {
      HeardEncode(commands[1..]);
      PiecesEncode(commands[0]);
      EncodeAppend(Pieces(commands[0]), HeardAs(commands[1..]));
      if AllFit(commands) {
        PiecesSendable(commands[0]);
        assert AllFit(commands[1..]);
      }
    }
  }

  // One piece more for every empty word.
  lemma {:induction false} OnePiece(ws: seq<word>)
    ensures |Pieces(ws)| == 1 <==> NoEmptyWord(ws)
    ensures NoEmptyWord(ws) ==> Pieces(ws) == [ws]
  {
    if ws != [] {
      OnePiece(ws[1..]);
      if NoEmptyWord(ws) {
        assert [ws[0]] + ws[1..] == ws;
      } else if ws[0] != [] {
        assert !NoEmptyWord(ws[1..]) by {
          var i :| 0 <= i < |ws| && ws[i] == [];
          assert ws[1..][i - 1] == [];
        }
      }
    }
  }

  /** Commands are heard as they were given exactly when none of their words is empty. */
  lemma {:induction false} HeardAsGiven(commands: seq<seq<word>>)
    ensures HeardAs(commands) == commands <==> forall i :: 0 <= i < |commands| ==> NoEmptyWord(commands[i])
    ensures |HeardAs(commands)| >= |commands|
    ensures |HeardAs(commands)| == |commands| ==> HeardAs(commands) == commands
  {
    hide Pieces, NoEmptyWord;
    if commands != [] {
      var first, others := commands[0], commands[1..];
      HeardAsGiven(others);
      OnePiece(first);
      assert commands == [first] + others;
      assert forall i :: 1 <= i < |commands| ==> commands[i] == others[i - 1];
    }
  }

  // Reading lists

  lemma {:induction false} ListsRoundTrip(link: Link, lists: seq<seq<word>>, tail: seq<byte>)
    requires AllSendable(lists)
    ensures TakeLists(link, |lists|, EncodeSentences(lists) + tail) == Ok(DecodeLists(link.codePage, lists), tail)
  {
    hide EncodeSentence, TakeWords, Sendable, DecodeAll;
    if lists == [] {
      assert EncodeSentences(lists) + tail == tail;
    } else {
      var more := EncodeSentences(lists[1..]) + tail;
      assert EncodeSentences(lists) + tail == EncodeSentence(lists[0]) + more;
      WordsRoundTrip(link, lists[0], more);
      ListsRoundTrip(link, lists[1..], tail);
      assert DecodeLists(link.codePage, lists) ==
             [DecodeAll(link.codePage, lists[0])] + DecodeLists(link.codePage, lists[1..]);
    }
  }

  // More bytes at the end do not change the words that could be read before.
  lemma {:induction false} WordsMore(link: Link, s: seq<byte>, t: seq<byte>)
    requires TakeWords(link, s).Ok?
    ensures TakeWords(link, s + t) == Ok(TakeWords(link, s).value, TakeWords(link, s).rest + t)
    decreases |s|
  {
    hide TakeWord;
    TakeWordsStep(link, s);
    WordMore(link, s, t);
    if TakeWord(link, s).value != [] {
      WordsMore(link, TakeWord(link, s).rest, t);
    }
  }

  lemma WordMore(link: Link, s: seq<byte>, t: seq<byte>)
    requires TakeWord(link, s).Ok?
    ensures TakeWord(link, s + t) == Ok(TakeWord(link, s).value, TakeWord(link, s).rest + t)
  {
    TakeWordOk(link, s);
    hide TakeWord;
    var p, x := s[..WordEnd(s)], s[WordEnd(s)..];
    assert p + x == s && p + (x + t) == s + t;
    TakeWordLocal(link, link, p, x, x + t);
  }

  lemma {:induction false} ListsMore(link: Link, k: nat, s: seq<byte>, t: seq<byte>)
    requires TakeLists(link, k, s).Ok?
    ensures TakeLists(link, k, s + t) == Ok(TakeLists(link, k, s).value, TakeLists(link, k, s).rest + t)
  {
    hide TakeWords;
    if k > 0 {
      WordsMore(link, s, t);
      ListsMore(link, k - 1, TakeWords(link, s).rest, t);
    }
  }

  lemma {:induction false} ListsFewer(link: Link, j: nat, k: nat, s: seq<byte>)
    requires j <= k && TakeLists(link, k, s).Ok?
    ensures TakeLists(link, j, s).Ok?
    ensures |TakeLists(link, k, s).value| == k
    ensures TakeLists(link, j, s).value == TakeLists(link, k, s).value[..j]
    ensures j < k ==> TakeLists(link, j, s).rest != []
  {
    hide TakeWord;
    if k > 0 {
      var rest := TakeWords(link, s).rest;
      if j > 0 {
        ListsFewer(link, j - 1, k - 1, rest);
      } else {
        ListsFewer(link, 0, k - 1, rest);
      }
    }
  }

  /**
   A beginning of what commands put on the wire is heard as a beginning of the list of commands; all of it is heard as
   all of them, and nothing is left over.
   */
  lemma HeardPrefix(link: Link, commands: seq<seq<word>>, s: seq<byte>, k: nat)
    requires AllFit(commands) && s <= EncodeSentences(commands)
    ensures TakeLists(link, k, s).Ok? ==>
              && k <= |HeardAs(commands)|
              && TakeLists(link, k, s).value == DecodeLists(link.codePage, HeardAs(commands)[..k])
    ensures s == EncodeSentences(commands) ==>
              && (TakeLists(link, k, s).Ok? <==> k <= |HeardAs(commands)|)
              && (k == |HeardAs(commands)| ==> TakeLists(link, k, s).rest == [])
  {
    hide TakeLists, EncodeSentences, AllFit, AllSendable, DecodeAll, HeardAs;
    var heard, all := HeardAs(commands), EncodeSentences(commands);
    var t := all[|s|..];
    assert s + t == all && all + [] == all;
    HeardEncode(commands);
    ListsRoundTrip(link, heard, []);
    if TakeLists(link, k, s).Ok? {
      ListsMore(link, k, s, t);
      if k > |heard| {
        ListsFewer(link, |heard|, k, all);
      }
      ListsFewer(link, k, |heard|, all);
      assert DecodeLists(link.codePage, heard)[..k] == DecodeLists(link.codePage, heard[..k]);
    } else if k <= |heard| {
      ListsFewer(link, k, |heard|, all);
    }
  }
}
