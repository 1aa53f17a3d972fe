/** The byte-level format of the RouterOS API as `RouterOS.php` speaks it: a word is a
    length prefix followed by that many payload bytes. These functions state what the
    client's `write` puts on the wire and what its `read` takes off it; the class in
    router_os.dfy is proved against them. */
module Codec {
  import opened Bits
  import opened Wrappers

  /** One byte of a PHP string: a character whose code is below 0x100, so that
      PHP's `chr` and `ord` are plain conversions. */
  type Octet = c: char | c as int < 0x100 witness '\0'

  /** A PHP string, that is, a sequence of bytes. */
  type Bytes = seq<Octet>

  function Chr(b: nat): Octet
    requires b < 0x100
  {
    b as char
  }

  function Ord(c: Octet): nat
  {
    c as int
  }

  /** Reply words the reader treats specially. */
  const Done: Bytes := "!done"
  const Trap: Bytes := "!trap"
  const Re: Bytes := "!re"

  /** A word that ends a reply. */
  predicate IsTerminal(w: Bytes)
  {
    w == Done || w == Trap
  }

  // ---------------------------------------------------------------------------
  // Writing

  /** What `write` computes with `0x80 | ($len >> 8)` and `$len & 0xFF` for
      0x80 <= n < 0x4000: the marked high byte and the low byte of n. */
  lemma PrefixBytes(n: nat)
    requires 0x80 <= n < 0x4000
    ensures BitOr(0x80, ShiftRight(n, 8)) == 0x80 + n / 0x100
    ensures BitAnd(n, 0xFF) == n % 0x100
  {
    Pow2Values();
    ShiftRightDivides(n, 8);
    OrDisjoint(1, n / 0x100, 7);
    AndLowMask(n, 8);
  }

  /** The length prefix `write` sends before a payload of n bytes: one byte below 0x80,
      a marked big-endian pair below 0x4000, and nothing at all from 0x4000 on. */
  function LengthPrefix(n: nat): (p: Bytes)
    ensures |p| == (if n < 0x80 then 1 else if n < 0x4000 then 2 else 0)
    ensures |p| > 0 ==> (Ord(p[0]) >= 0x80 <==> |p| == 2)
  {
    if n < 0x80 then [Chr(n)]
    else if n < 0x4000 then [Chr(0x80 + n / 0x100), Chr(n % 0x100)]
    else []
  }

  /** The bytes `write` sends for one word. */
  function EncodeWord(w: Bytes): (e: Bytes)
    ensures |e| == |LengthPrefix(|w|)| + |w| && e[|e| - |w|..] == w
  {
    LengthPrefix(|w|) + w
  }

  /** The bytes of several words written one after another. */
  function EncodeWords(ws: seq<Bytes>): Bytes
  {
    if ws == [] then [] else EncodeWord(ws[0]) + EncodeWords(ws[1..])
  }

  lemma ConcatAssoc(a: Bytes, b: Bytes, c: Bytes)
    ensures a + (b + c) == (a + b) + c
  {
  }

  lemma EncodeFirst(ws: seq<Bytes>)
    requires ws != []
    ensures EncodeWords(ws) == EncodeWord(ws[0]) + EncodeWords(ws[1..])
  {
  }

  lemma {:induction false} EncodeWordsAppend(a: seq<Bytes>, b: seq<Bytes>)
    ensures EncodeWords(a + b) == EncodeWords(a) + EncodeWords(b)
  {
    if a != [] {
      assert (a + b)[1..] == a[1..] + b;
      EncodeWordsAppend(a[1..], b);
    } else {
      assert a + b == b;
    }
  }

  // ---------------------------------------------------------------------------
  // Reading

  /** `$byte & 0x80` tests whether a byte is at least 0x80. */
  lemma TopBit(b: nat)
    requires b < 0x100
    ensures (BitAnd(b, 0x80) != 0) == (b >= 0x80)
  {
    Pow2Values();
    BitTest(b, 7);
  }

  /** `(($byte & 0x3F) << 8) | $next` keeps the low six bits of the first byte as the
      high part of the length and the next byte as its low part. */
  lemma TwoByteLength(b: nat, c: nat)
    requires c < 0x100
    ensures BitOr(ShiftLeft(BitAnd(b, 0x3F), 8), c) == (b % 0x40) * 0x100 + c
  {
    Pow2Values();
    AndLowMask(b, 6);
    ShiftLeftMultiplies(b % 0x40, 8);
    OrDisjoint(b % 0x40, c, 8);
  }

  /** The length `read` decodes from the prefix at position i, with the position just
      after the prefix; None when the input ends inside the prefix. A first byte below
      0x80 is the length itself; one with its top bit set announces a second byte, and
      only its own low six bits are kept, so no decoded length reaches 0x4000. */
  function DecodeLength(s: Bytes, i: nat): (r: Option<(nat, nat)>)
    ensures r.Some? ==> r.value.0 < 0x4000 && i < r.value.1 <= |s|
    ensures r.Some? ==> r.value.1 == i + (if Ord(s[i]) < 0x80 then 1 else 2)
  {
    if i >= |s| then None
    else if Ord(s[i]) < 0x80 then Some((Ord(s[i]), i + 1))
    else if i + 1 >= |s| then None
    else Some(((Ord(s[i]) % 0x40) * 0x100 + Ord(s[i + 1]), i + 2))
  }

  /** The word `read` takes from position i, with the position after it; None when the
      input ends before the word does. */
  function ReadWord(s: Bytes, i: nat): (r: Option<(Bytes, nat)>)
    ensures r.Some? ==> i < r.value.1 <= |s|
  {
    match DecodeLength(s, i)
    case None => None
    case Some((n, j)) => if j + n <= |s| then Some((s[j..j + n], j + n)) else None
  }

  /** The reply `read` collects from position i: words up to and including the first
      `!done` or `!trap`, leaving out every `!re`; with the position after the last word.
      None when the input ends before a terminal word. */
  function ReadReply(s: Bytes, i: nat): (r: Option<(seq<Bytes>, nat)>)
    ensures r.Some? ==> |r.value.0| > 0 && i < r.value.1 <= |s|
    decreases |s| - i
  {
    match ReadWord(s, i)
    case None => None
    case Some((w, j)) =>
      if IsTerminal(w) then Some(([w], j))
      else
        match ReadReply(s, j)
        case None => None
        case Some((rest, k)) => Some((if w == Re then rest else [w] + rest, k))
  }

  /** A reply ends with its only terminal word and holds no `!re`. */
  lemma {:induction false} ReplyShape(s: Bytes, i: nat)
    requires ReadReply(s, i).Some?
    ensures var (ws, k) := ReadReply(s, i).value;
      |ws| >= 1 && IsTerminal(ws[|ws| - 1]) && i < k <= |s| &&
      (forall t :: 0 <= t < |ws| - 1 ==> !IsTerminal(ws[t])) &&
      (forall t :: 0 <= t < |ws| ==> ws[t] != Re)
    decreases |s| - i
  {
    var (w, j) := ReadWord(s, i).value;
    if !IsTerminal(w) {
      ReplyShape(s, j);
    }
  }

  // ---------------------------------------------------------------------------
  // Round trips

  /** The prefix written for n < 0x4000 decodes to n. */
  lemma PrefixRoundTrip(s: Bytes, i: nat, n: nat)
    requires n < 0x4000
    requires i + |LengthPrefix(n)| <= |s| && s[i..i + |LengthPrefix(n)|] == LengthPrefix(n)
    ensures DecodeLength(s, i) == Some((n, i + |LengthPrefix(n)|))
  {
    var p := LengthPrefix(n);
    assert s[i] == p[0];
    if n >= 0x80 {
      assert s[i + 1] == p[1];
      var h := n / 0x100;
      assert Ord(s[i]) == 0x80 + h && h < 0x40;
      DivModUnique(Ord(s[i]), 0x40, 2, h);
      assert h * 0x100 + n % 0x100 == n;
    }
  }

  /** A word shorter than 0x4000 bytes is read back exactly, wherever it stands. */
  lemma WordRoundTrip(w: Bytes, pre: Bytes, post: Bytes)
    requires |w| < 0x4000
    ensures ReadWord(pre + EncodeWord(w) + post, |pre|) == Some((w, |pre| + |EncodeWord(w)|))
  {
    var p := LengthPrefix(|w|);
    var s := pre + p + w + post;
    assert s == pre + EncodeWord(w) + post;
    var i := |pre|;
    assert s[i..i + |p|] == p;
    PrefixRoundTrip(s, i, |w|);
    assert s[i + |p|..i + |p| + |w|] == w;
  }

  /** From 0x4000 bytes on no prefix is written, so the reader takes the payload's own
      first bytes as a length and never returns the word it was sent. */
  lemma LongWordNotReadBack(w: Bytes, post: Bytes)
    requires |w| >= 0x4000
    ensures EncodeWord(w) == w
    ensures ReadWord(EncodeWord(w) + post, 0) != Some((w, |w|))
    ensures ReadWord(EncodeWord(w) + post, 0).Some? ==>
      |ReadWord(EncodeWord(w) + post, 0).value.0| ==
        if Ord(w[0]) < 0x80 then Ord(w[0]) else (Ord(w[0]) % 0x40) * 0x100 + Ord(w[1])
  {
    var s := EncodeWord(w) + post;
    assert s[0] == w[0] && s[1] == w[1];
  }

  /** A peer's view of a byte stream: the words in it, one after another, until the
      stream ends; None when it ends inside a word. */
  function Unframe(s: Bytes): Option<seq<Bytes>>
    decreases |s|
  {
    if s == [] then Some([])
    else
      match ReadWord(s, 0)
      case None => None
      case Some((w, j)) =>
        match Unframe(s[j..])
        case None => None
        case Some(rest) => Some([w] + rest)
  }

  /** Words shorter than 0x4000 bytes, written one after another, are read back in order. */
  lemma {:induction false} UnframeEncodeWords(ws: seq<Bytes>)
    requires forall k :: 0 <= k < |ws| ==> |ws[k]| < 0x4000
    ensures Unframe(EncodeWords(ws)) == Some(ws)
  {
    if ws != [] {
      var s := EncodeWords(ws);
      var tail := EncodeWords(ws[1..]);
      assert s == [] + EncodeWord(ws[0]) + tail;
      WordRoundTrip(ws[0], [], tail);
      var j := |EncodeWord(ws[0])|;
      assert ReadWord(s, 0) == Some((ws[0], j));
      assert s != [];
      assert s[j..] == tail;
      UnframeEncodeWords(ws[1..]);
      assert Unframe(s) == Some([ws[0]] + ws[1..]);
      assert [ws[0]] + ws[1..] == ws;
    }
  }

  /** One unfolding of ReadReply at a word that ends the reply. */
  lemma ReplyEnd(s: Bytes, i: nat, t: Bytes, j: nat)
    requires ReadWord(s, i) == Some((t, j)) && IsTerminal(t)
    ensures ReadReply(s, i) == Some(([t], j))
  {
  }

  /** One unfolding of ReadReply at a word that does not end the reply. */
  lemma ReplyStep(s: Bytes, i: nat, w: Bytes, j: nat, tail: seq<Bytes>, k: nat)
    requires ReadWord(s, i) == Some((w, j)) && !IsTerminal(w)
    requires ReadReply(s, j) == Some((tail, k))
    ensures ReadReply(s, i) == Some((if w == Re then tail else [w] + tail, k))
  {
  }

  /** Within a reply, a word that does not end it is followed by the rest of the reply. */
  lemma ReplyNext(s: Bytes, i: nat, w: Bytes, j: nat) returns (tail: seq<Bytes>, k: nat)
    requires ReadReply(s, i).Some?
    requires ReadWord(s, i) == Some((w, j)) && !IsTerminal(w)
    ensures ReadReply(s, j) == Some((tail, k))
    ensures ReadReply(s, i) == Some((if w == Re then tail else [w] + tail, k))
  {
    tail, k := ReadReply(s, j).value.0, ReadReply(s, j).value.1;
  }

  /** The words of a reply other than `!re`, in order. */
  function DropRe(ws: seq<Bytes>): seq<Bytes>
  {
    if ws == [] then []
    else (if ws[0] == Re then [] else [ws[0]]) + DropRe(ws[1..])
  }

  /** A word shorter than 0x4000 bytes found encoded at position i is read back. */
  lemma WordAt(s: Bytes, i: nat, w: Bytes)
    requires |w| < 0x4000
    requires i + |EncodeWord(w)| <= |s| && s[i..i + |EncodeWord(w)|] == EncodeWord(w)
    ensures ReadWord(s, i) == Some((w, i + |EncodeWord(w)|))
  {
    var pre, post := s[..i], s[i + |EncodeWord(w)|..];
    assert s == pre + EncodeWord(w) + post;
    WordRoundTrip(w, pre, post);
  }

  /** A slice holding a + b holds a and then b. */
  lemma SplitAt(s: Bytes, i: nat, a: Bytes, b: Bytes)
    requires i + |a + b| <= |s| && s[i..i + |a + b|] == a + b
    ensures s[i..i + |a|] == a && s[i + |a|..i + |a| + |b|] == b
  {
    assert s[i..i + |a|] == s[i..i + |a + b|][..|a|];
    assert s[i + |a|..i + |a| + |b|] == s[i..i + |a + b|][|a|..];
  }

  /** DropRe of a non-empty body, one word unfolded, with the terminal word attached. */
  lemma DropReFirst(body: seq<Bytes>, t: Bytes)
    requires body != []
    ensures DropRe(body) + [t] ==
      if body[0] == Re then DropRe(body[1..]) + [t] else [body[0]] + (DropRe(body[1..]) + [t])
  {
    assert DropRe(body) == (if body[0] == Re then [] else [body[0]]) + DropRe(body[1..]);
  }

  /** A reply that is only its terminal word. */
  lemma ReplyAtLast(s: Bytes, i: nat, t: Bytes, k: nat)
    requires IsTerminal(t) && |t| < 0x4000
    requires k == i + |EncodeWords([t])| && k <= |s| && s[i..k] == EncodeWords([t])
    ensures ReadReply(s, i) == Some(([t], k))
  {
    assert EncodeWords([t]) == EncodeWord(t) + EncodeWords([]);
    WordAt(s, i, t);
    ReplyEnd(s, i, t, k);
  }

  /** An encoded word followed by more bytes: the word is read, the rest follows it. */
  lemma WordThenRest(s: Bytes, i: nat, w: Bytes, rest: Bytes, j: nat, k: nat)
    requires |w| < 0x4000
    requires j == i + |EncodeWord(w)| && k == j + |rest| && k <= |s|
    requires s[i..k] == EncodeWord(w) + rest
    ensures ReadWord(s, i) == Some((w, j)) && s[j..k] == rest
  {
    SplitAt(s, i, EncodeWord(w), rest);
    WordAt(s, i, w);
  }

  /** The first word of a reply is read, and the rest of the reply follows it. */
  lemma ReplyAtFirst(s: Bytes, i: nat, body: seq<Bytes>, t: Bytes, j: nat, k: nat, rest: Bytes)
    requires body != [] && |body[0]| < 0x4000
    requires k == i + |EncodeWords(body + [t])| && k <= |s| && s[i..k] == EncodeWords(body + [t])
    requires j == i + |EncodeWord(body[0])| && rest == EncodeWords(body[1..] + [t])
    ensures ReadWord(s, i) == Some((body[0], j))
    ensures j + |rest| == k && s[j..k] == rest
  {
    var ws := body + [t];
    assert ws[0] == body[0] && ws[1..] == body[1..] + [t];
    EncodeFirst(ws);
    assert EncodeWords(ws) == EncodeWord(body[0]) + rest;
    WordThenRest(s, i, body[0], rest, j, k);
  }

  /** One step of ReplyAt: a non-terminal first word in front of a reply already read. */
  lemma ReplyCons(s: Bytes, i: nat, body: seq<Bytes>, t: Bytes, j: nat, k: nat)
    requires body != [] && !IsTerminal(body[0])
    requires ReadWord(s, i) == Some((body[0], j))
    requires ReadReply(s, j) == Some((DropRe(body[1..]) + [t], k))
    ensures ReadReply(s, i) == Some((DropRe(body) + [t], k))
  {
    ReplyStep(s, i, body[0], j, DropRe(body[1..]) + [t], k);
    DropReFirst(body, t);
  }

  /** The middle part of a three-part concatenation, found by slicing. */
  lemma Middle(pre: Bytes, e: Bytes, post: Bytes)
    ensures |pre| + |e| <= |pre + e + post| && (pre + e + post)[|pre|..|pre| + |e|] == e
  {
  }

  /** The slice-based core of ReplyRoundTrip: the encoded reply occupies s[i..k]. */
  lemma {:induction false} ReplyAt(s: Bytes, i: nat, body: seq<Bytes>, t: Bytes, k: nat)
    requires IsTerminal(t) && |t| < 0x4000
    requires forall n :: 0 <= n < |body| ==> |body[n]| < 0x4000 && !IsTerminal(body[n])
    requires k == i + |EncodeWords(body + [t])| && k <= |s| && s[i..k] == EncodeWords(body + [t])
    ensures ReadReply(s, i) == Some((DropRe(body) + [t], k))
    decreases |body|
  {
    if body == [] {
      assert body + [t] == [t] && DropRe(body) + [t] == [t];
      ReplyAtLast(s, i, t, k);
    } else {
      var j, rest := i + |EncodeWord(body[0])|, EncodeWords(body[1..] + [t]);
      ReplyAtFirst(s, i, body, t, j, k, rest);
      ReplyAt(s, j, body[1..], t, k);
      ReplyCons(s, i, body, t, j, k);
    }
  }

  /** When the router sends words body and then a terminal word t, `read` returns the
      body words other than `!re`, empty words included, followed by t, and stops right
      after t. */
  lemma ReplyRoundTrip(body: seq<Bytes>, t: Bytes, pre: Bytes, post: Bytes)
    requires IsTerminal(t)
    requires forall k :: 0 <= k < |body| ==> |body[k]| < 0x4000 && !IsTerminal(body[k])
    ensures ReadReply(pre + EncodeWords(body + [t]) + post, |pre|) ==
      Some((DropRe(body) + [t], |pre| + |EncodeWords(body + [t])|))
  {
    var e := EncodeWords(body + [t]);
    Middle(pre, e, post);
    ReplyAt(pre + e + post, |pre|, body, t, |pre| + |e|);
  }

  // ---------------------------------------------------------------------------
  // Substring search (PHP's strpos used as a test)

  /** needle appears in hay starting at position k. */
  predicate OccursAt(hay: Bytes, needle: Bytes, k: nat)
  {
    k + |needle| <= |hay| && hay[k..k + |needle|] == needle
  }

  /** `strpos(hay, needle) !== false`, tried at each position from the left. */
  function Contains(hay: Bytes, needle: Bytes): bool
    decreases |hay|
  {
    |needle| <= |hay| && (hay[..|needle|] == needle || Contains(hay[1..], needle))
  }

  /** A successful search has found an occurrence. */
  lemma {:induction false} ContainsFound(hay: Bytes, needle: Bytes) returns (k: nat)
    requires Contains(hay, needle)
    ensures OccursAt(hay, needle, k)
    decreases |hay|
  {
    if hay[..|needle|] == needle {
      k := 0;
    } else {
      var k1 := ContainsFound(hay[1..], needle);
      assert hay[1..][k1..k1 + |needle|] == hay[k1 + 1..k1 + 1 + |needle|];
      k := k1 + 1;
    }
  }

  /** Every occurrence is found by the search. */
  lemma {:induction false} OccursContained(hay: Bytes, needle: Bytes, k: nat)
    requires OccursAt(hay, needle, k)
    ensures Contains(hay, needle)
    decreases k
  {
    if k == 0 {
      assert hay[..|needle|] == hay[k..k + |needle|];
    } else if hay[..|needle|] != needle {
      assert hay[1..][k - 1..k - 1 + |needle|] == hay[k..k + |needle|];
      OccursContained(hay[1..], needle, k - 1);
    }
  }

  /** The search succeeds exactly when needle occurs somewhere in hay. */
  lemma ContainsIff(hay: Bytes, needle: Bytes)
    ensures Contains(hay, needle) <==> exists k: nat :: OccursAt(hay, needle, k)
  {
    if Contains(hay, needle) {
      var k := ContainsFound(hay, needle);
    }
    forall k: nat | OccursAt(hay, needle, k)
      ensures Contains(hay, needle)
    {
      OccursContained(hay, needle, k);
    }
  }
}
