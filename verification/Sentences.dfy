/** API sentences: a reply word, then tag and attribute words, ended by an empty word. */
module Sentences {
  import opened Bytes
  import opened Words

  // ".tag=" and "="
  const TAG_PREFIX: seq<byte> := [0x2E, 0x74, 0x61, 0x67, 0x3D]
  const EQUALS: byte := 0x3D

  datatype Sentence = Sentence(word: word, tag: word, attrs: map<word, word>)

  const BLANK: Sentence := Sentence([], [], map[])

  // Position of the first `b` in `s`, or |s|.
  function IndexOf(s: seq<byte>, b: byte): (i: nat)
    ensures i <= |s| && b !in s[..i] && (i < |s| ==> s[i] == b)
  {
    if s == [] || s[0] == b then 0 else
      assert forall i {:trigger s[..i + 1]} :: 0 <= i < |s| ==> s[..i + 1] == [s[0]] + s[1..][..i];
      1 + IndexOf(s[1..], b)
  }

  predicate IsTag(w: word) {
    TAG_PREFIX <= w
  }

  predicate IsAttr(w: word) {
    w != [] && w[0] == EQUALS
  }

  // An attribute word is "=key=value" or "=key": the key ends at the second '='.
  function Key(w: word): word
    requires IsAttr(w)
  {
    w[1..][..IndexOf(w[1..], EQUALS)]
  }

  function Value(w: word): word
    requires IsAttr(w)
  {
    var i := IndexOf(w[1..], EQUALS);
    if i < |w[1..]| then w[1..][i + 1..] else []
  }

  predicate HasKey(w: word, k: word) {
    IsAttr(w) && Key(w) == k
  }

  // The reader's treatment of one non-empty word; None is an invalid word.
  function Absorb(sen: Sentence, w: word): Option<Sentence> {
    if sen.word == [] then Some(sen.(word := w))
    else if IsTag(w) then Some(sen.(tag := w[|TAG_PREFIX|..]))
    else if IsAttr(w) then Some(sen.(attrs := sen.attrs[Key(w) := Value(w)]))
    else None
  }

  function TakeInto(link: Link, sen: Sentence, s: seq<byte>): (r: Read<Sentence>)
    ensures r.Ok? ==> |r.rest| < |s|
    decreases |s|
  {
    match TakeWord(link, s)
    case Fail(e, rest) => Fail(e, rest)
    case Ok(w, rest) =>
      if w == [] then Ok(sen, rest) else
        match Absorb(sen, w)
        case Some(next) => TakeInto(link, next, rest)
        case None => Fail(InvalidWord(w), rest)
  }

  /** One sentence off the front of the stream. */
  function TakeSentence(link: Link, s: seq<byte>): Read<Sentence> {
    TakeInto(link, BLANK, s)
  }

  /** What the writer puts on the wire for a sentence of the given words. */
  function EncodeSentence(ws: seq<word>): seq<byte> {
    if ws == [] then EncodeWord([]) else EncodeWord(ws[0]) + EncodeSentence(ws[1..])
  }

  // What a list of words means

  predicate Legal(ws: seq<word>) {
    forall i :: 1 <= i < |ws| ==> IsTag(ws[i]) || IsAttr(ws[i])
  }

  predicate LastTag(ws: seq<word>, i: int) {
    1 <= i < |ws| && IsTag(ws[i]) && forall j :: i < j < |ws| ==> !IsTag(ws[j])
  }

  predicate LastOfKey(ws: seq<word>, i: int) {
    1 <= i < |ws| && IsAttr(ws[i]) && forall j :: i < j < |ws| ==> !HasKey(ws[j], Key(ws[i]))
  }

  // The last tag word decides; without one the tag is empty.
  ghost predicate DescribesTag(ws: seq<word>, tag: word) {
    && ((forall i :: 1 <= i < |ws| ==> !IsTag(ws[i])) ==> tag == [])
    && (forall i :: LastTag(ws, i) ==> tag == ws[i][|TAG_PREFIX|..])
  }

  // The keys of the attribute words, each with the value of its last attribute word.
  ghost predicate DescribesAttrs(ws: seq<word>, attrs: map<word, word>) {
    && (forall k :: k in attrs <==> exists i :: 1 <= i < |ws| && HasKey(ws[i], k))
    && (forall i :: LastOfKey(ws, i) ==> attrs[Key(ws[i])] == Value(ws[i]))
  }

  /** The sentence a list of words stands for: its first word, its last tag and its last value of every key. */
  ghost predicate Describes(ws: seq<word>, sen: Sentence) {
    && sen.word == (if ws == [] then [] else ws[0])
    && DescribesTag(ws, sen.tag)
    && DescribesAttrs(ws, sen.attrs)
  }

  function Fold(sen: Sentence, ws: seq<word>): Option<Sentence>
    decreases ws
  {
    if ws == [] then Some(sen) else
      match Absorb(sen, ws[0])
      case Some(next) => Fold(next, ws[1..])
      case None => None
  }

  lemma {:induction false} FoldSnoc(sen: Sentence, ws: seq<word>, w: word)
    ensures Fold(sen, ws + [w]) == match Fold(sen, ws) { case Some(mid) => Absorb(mid, w) case None => None }
    decreases ws
  {
    if ws == [] {
      assert (ws + [w])[1..] == [];
    } else {
      assert (ws + [w])[1..] == ws[1..] + [w];
      match Absorb(sen, ws[0]) {
        case Some(next) => FoldSnoc(next, ws[1..], w);
        case None =>
      }
    }
  }

  /** Exactly the legal word lists make a sentence, and it is the one they describe. */
  lemma {:induction false} FoldDescribes(ws: seq<word>)
    requires forall i :: 0 <= i < |ws| ==> ws[i] != []
    ensures Fold(BLANK, ws).Some? <==> Legal(ws)
    ensures Legal(ws) ==> Describes(ws, Fold(BLANK, ws).value)
  {
    if ws != [] {
      var n := |ws| - 1;
      var init, w := ws[..n], ws[n];
      assert ws == init + [w];
      FoldDescribes(init);
      FoldSnoc(BLANK, init, w);
      if Legal(ws) {
        assert Legal(init);
        DescribesSnoc(init, Fold(BLANK, init).value, w);
      } else if Legal(init) {
        assert n >= 1;
      }
    }
  }

  lemma DescribesSnoc(ws: seq<word>, sen: Sentence, w: word)
    requires Describes(ws, sen) && w != [] && (ws == [] || (ws[0] != [] && (IsTag(w) || IsAttr(w))))
    ensures Absorb(sen, w).Some? && Describes(ws + [w], Absorb(sen, w).value)
  {
    TagSnoc(ws, sen.tag, w);
    AttrsSnoc(ws, sen.attrs, w);
  }

  lemma TagSnoc(ws: seq<word>, tag: word, w: word)
    requires DescribesTag(ws, tag)
    ensures DescribesTag(ws + [w], if ws != [] && IsTag(w) then w[|TAG_PREFIX|..] else tag)
  {
    var all := ws + [w];
    assert all[|ws|] == w && forall i :: 0 <= i < |ws| ==> all[i] == ws[i];
    forall i | LastTag(all, i) && i < |ws| ensures LastTag(ws, i) && !IsTag(w) {
      assert !IsTag(all[|ws|]);
    }
    if forall i :: 1 <= i < |all| ==> !IsTag(all[i]) {
      assert forall i :: 1 <= i < |ws| ==> !IsTag(ws[i]) by {
        assert forall i :: 1 <= i < |ws| ==> ws[i] == all[i];
      }
    }
  }

  lemma AttrsSnoc(ws: seq<word>, attrs: map<word, word>, w: word)
    requires DescribesAttrs(ws, attrs)
    ensures DescribesAttrs(ws + [w], if ws != [] && IsAttr(w) then attrs[Key(w) := Value(w)] else attrs)
  {
    hide Key, Value, IndexOf, IsTag;
    var all := ws + [w];
    var n := |ws|;
    var next := if ws != [] && IsAttr(w) then attrs[Key(w) := Value(w)] else attrs;
    assert all[n] == w && forall i :: 0 <= i < n ==> all[i] == ws[i];
    forall k ensures k in next <==> exists i :: 1 <= i < |all| && HasKey(all[i], k) {
      if k in attrs {
        var i :| 1 <= i < n && HasKey(ws[i], k);
        assert HasKey(all[i], k);
      }
      if i :| 1 <= i < |all| && HasKey(all[i], k) {
        assert i < n ==> HasKey(ws[i], k);
      }
      if n > 0 && HasKey(w, k) {
        assert HasKey(all[n], k);
      }
    }
    forall i | LastOfKey(all, i) ensures next[Key(all[i])] == Value(all[i]) {
      if i < n {
        assert !HasKey(all[n], Key(all[i]));
        assert LastOfKey(ws, i);
      }
    }
  }

  /** A word list describes one sentence only. */
  lemma DescribesUnique(ws: seq<word>, a: Sentence, b: Sentence)
    requires Describes(ws, a) && Describes(ws, b)
    ensures a == b
  {
    if exists i :: 1 <= i < |ws| && IsTag(ws[i]) {
      var i := FindLastTag(ws, |ws|);
    }
    forall k | k in a.attrs ensures k in b.attrs && a.attrs[k] == b.attrs[k] {
      SameValue(ws, a.attrs, b.attrs, k);
    }
    assert forall k :: k in b.attrs ==> k in a.attrs;
    assert a.attrs == b.attrs;
  }

  lemma SameValue(ws: seq<word>, a: map<word, word>, b: map<word, word>, k: word)
    requires DescribesAttrs(ws, a) && DescribesAttrs(ws, b) && k in a
    ensures k in b && a[k] == b[k]
  {
    var i := FindLastKey(ws, |ws|, k);
    assert Key(ws[i]) == k;
  }

  lemma FindLastTag(ws: seq<word>, n: nat) returns (i: int)
    requires n <= |ws| && (exists i :: 1 <= i < n && IsTag(ws[i]))
    requires forall j :: n <= j < |ws| ==> !IsTag(ws[j])
    ensures LastTag(ws, i)
  {
    if IsTag(ws[n - 1]) && n > 1 {
      i := n - 1;
    } else {
      i := FindLastTag(ws, n - 1);
    }
  }

  lemma FindLastKey(ws: seq<word>, n: nat, k: word) returns (i: int)
    requires n <= |ws| && (exists i :: 1 <= i < n && HasKey(ws[i], k))
    requires forall j :: n <= j < |ws| ==> !HasKey(ws[j], k)
    ensures LastOfKey(ws, i) && HasKey(ws[i], k)
  {
    if HasKey(ws[n - 1], k) && n > 1 {
      i := n - 1;
    } else {
      i := FindLastKey(ws, n - 1, k);
    }
  }

  // What the parts of a sentence stand for

  // A tag, an attribute with a value, and one without.
  datatype Item = Tag(tag: word) | Pair(key: word, value: word) | Flag(key: word)

  function WordOf(item: Item): word {
    match item
    case Tag(t) => Text(".tag=") + t
    case Pair(k, v) => Text("=") + k + Text("=") + v
    case Flag(k) => Text("=") + k
  }

  // A key cannot contain the separator.
  predicate Plain(item: Item) {
    item.Tag? || EQUALS !in item.key
  }

  predicate AllPlain(items: seq<Item>) {
    forall i :: 0 <= i < |items| ==> Plain(items[i])
  }

  function WordsOf(items: seq<Item>): (ws: seq<word>)
    ensures |ws| == |items| && forall i :: 0 <= i < |items| ==> ws[i] == WordOf(items[i])
  {
    seq(|items|, i requires 0 <= i < |items| => WordOf(items[i]))
  }

  // Later items override earlier ones.
  function SentenceOf(w: word, items: seq<Item>): Sentence {
    if items == [] then Sentence(w, [], map[]) else
      var before := SentenceOf(w, items[..|items| - 1]);
      match items[|items| - 1]
      case Tag(t) => before.(tag := t)
      case Pair(k, v) => before.(attrs := before.attrs[k := v])
      case Flag(k) => before.(attrs := before.attrs[k := []])
  }

  lemma SeparatorText()
    ensures Text("=") == [EQUALS] && Text(".tag=") == TAG_PREFIX
  {}

  /** The word of an attribute is taken apart into its key and its value, an empty one if there is no second '='. */
  lemma KeyAndValue(k: word, v: word)
    requires EQUALS !in k
    ensures var w := Text("=") + k + Text("=") + v; IsAttr(w) && Key(w) == k && Value(w) == v
    ensures var w := Text("=") + k; IsAttr(w) && Key(w) == k && Value(w) == []
  {
    SeparatorText();
    var w, bare := Text("=") + k + Text("=") + v, Text("=") + k;
    assert w[1..] == k + [EQUALS] + v && bare[1..] == k;
    FirstSeparator(k, v);
    assert (k + [EQUALS] + v)[|k| + 1..] == v;
  }

  lemma FirstSeparator(k: word, v: word)
    requires EQUALS !in k
    ensures IndexOf(k + [EQUALS] + v, EQUALS) == |k| && IndexOf(k, EQUALS) == |k|
  {
    assert (k + [EQUALS] + v)[..|k|] == k && k[..|k|] == k;
    IndexIs(k + [EQUALS] + v, EQUALS, |k|);
    IndexIs(k, EQUALS, |k|);
  }

  lemma {:induction false} IndexIs(s: seq<byte>, b: byte, n: nat)
    requires n <= |s| && b !in s[..n] && (n < |s| ==> s[n] == b)
    ensures IndexOf(s, b) == n
  {
    if n > 0 {
      assert s[..n][0] == s[0] && s[..n][1..] == s[1..][..n - 1];
      IndexIs(s[1..], b, n - 1);
    }
  }

  lemma AbsorbItem(sen: Sentence, item: Item)
    requires sen.word != [] && Plain(item)
    ensures Absorb(sen, WordOf(item)) ==
            match item
            case Tag(t) => Some(sen.(tag := t))
            case Pair(k, v) => Some(sen.(attrs := sen.attrs[k := v]))
            case Flag(k) => Some(sen.(attrs := sen.attrs[k := []]))
  {
    hide Key, Value, IndexOf;
    SeparatorText();
    match item
    case Tag(t) =>
      assert WordOf(item)[|TAG_PREFIX|..] == t;
    case Pair(k, v) =>
      KeyAndValue(k, v);
      assert WordOf(item)[0] == EQUALS != TAG_PREFIX[0];
    case Flag(k) =>
      KeyAndValue(k, []);
      assert WordOf(item)[0] == EQUALS != TAG_PREFIX[0];
  }

  lemma {:induction false} FoldItems(w: word, items: seq<Item>)
    requires w != [] && AllPlain(items)
    ensures Fold(BLANK, [w] + WordsOf(items)) == Some(SentenceOf(w, items))
  {
    hide Absorb, WordOf;
    var words := [w] + WordsOf(items);
    if items == [] {
      assert words == [] + [w];
      FoldSnoc(BLANK, [], w);
      FirstAbsorbed(w);
    } else {
      var n := |items| - 1;
      FoldItems(w, items[..n]);
      assert words == ([w] + WordsOf(items[..n])) + [WordOf(items[n])];
      FoldSnoc(BLANK, [w] + WordsOf(items[..n]), WordOf(items[n]));
      FirstKept(w, items[..n]);
      AbsorbItem(SentenceOf(w, items[..n]), items[n]);
    }
  }

  lemma FirstAbsorbed(w: word)
    ensures Absorb(BLANK, w) == Some(SentenceOf(w, []))
  {}

  lemma {:induction false} FirstKept(w: word, items: seq<Item>)
    ensures SentenceOf(w, items).word == w
  {
    if items != [] {
      FirstKept(w, items[..|items| - 1]);
    }
  }

  /** A reply word and any tags and attributes describe the sentence in which later ones override earlier ones. */
  lemma ItemsDescribe(w: word, items: seq<Item>)
    requires w != [] && AllPlain(items)
    ensures var words := [w] + WordsOf(items); Legal(words) && Describes(words, SentenceOf(w, items))
  {
    hide Describes, Legal, WordOf;
    var words := [w] + WordsOf(items);
    FoldItems(w, items);
    forall i | 0 <= i < |words| ensures words[i] != [] {
      if i > 0 {
        assert words[i] == WordOf(items[i - 1]);
        WordNotEmpty(items[i - 1]);
      }
    }
    FoldDescribes(words);
  }

  lemma WordNotEmpty(item: Item)
    ensures WordOf(item) != []
  {}
}
