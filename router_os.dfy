/** The RouterOS API client of `RouterOS.php`. The socket is modelled by the bytes the
    router will send (`incoming`, consumed from `cursor` on) and the bytes written to it
    so far (`outgoing`). */
module Api {
  import opened Bits
  import opened Wrappers
  import opened Codec

  /** The attribute word `comm` writes for one parameter. */
  function ParamWord(key: Bytes, value: Bytes): Bytes
  {
    "=" + key + "=" + value
  }

  /** The attribute words for params, in insertion order. */
  function ParamWords(params: seq<(Bytes, Bytes)>): (ws: seq<Bytes>)
    ensures |ws| == |params|
    ensures forall k :: 0 <= k < |params| ==> ws[k] == ParamWord(params[k].0, params[k].1)
  {
    if params == [] then []
    else ParamWords(params[..|params| - 1]) + [ParamWord(params[|params| - 1].0, params[|params| - 1].1)]
  }

  /** The word `comm` writes last. */
  const Tag: Bytes := ".tag=1"

  /** The words `comm` writes for one command: the command word, one `=key=value` word
      per parameter, then `.tag=1`. No zero-length word is among them as long as the
      command word is not empty. */
  function CommandWords(command: Bytes, params: seq<(Bytes, Bytes)>): (ws: seq<Bytes>)
    ensures |ws| == |params| + 2 && ws[0] == command && ws[|ws| - 1] == Tag
    ensures forall k :: 0 <= k < |params| ==> ws[k + 1] == ParamWord(params[k].0, params[k].1)
    ensures |command| > 0 ==> forall k :: 0 <= k < |ws| ==> |ws[k]| > 0
  {
    [command] + ParamWords(params) + [Tag]
  }

  /** The words `connect` writes to log in. */
  function LoginWords(login: Bytes, password: Bytes): (ws: seq<Bytes>)
    ensures |ws| == 3 && ws[0] == "/login" && forall k :: 0 <= k < |ws| ==> |ws[k]| > 0
    ensures |ws[1]| == 6 + |login| && ws[1][..6] == "=name=" && ws[1][6..] == login
    ensures |ws[2]| == 10 + |password| && ws[2][..10] == "=password=" && ws[2][10..] == password
  {
    ["/login", "=name=" + login, "=password=" + password]
  }

  /** The test `connect` applies to the login reply: a first word exists and contains
      `!done`. */
  predicate LoginAccepted(reply: seq<Bytes>): (ok: bool)
    ensures ok <==> |reply| > 0 && exists k: nat :: OccursAt(reply[0], Done, k)
  {
    if |reply| == 0 then false
    else
      ContainsIff(reply[0], Done);
      Contains(reply[0], Done)
  }

  /** A peer reading what `comm` wrote finds exactly the command's words, and none of
      them is the zero-length word that would end a sentence. */
  lemma CommandReadBack(command: Bytes, params: seq<(Bytes, Bytes)>)
    requires 0 < |command| < 0x4000
    requires forall k :: 0 <= k < |params| ==> |ParamWord(params[k].0, params[k].1)| < 0x4000
    ensures Unframe(EncodeWords(CommandWords(command, params))) == Some(CommandWords(command, params))
    ensures forall w :: w in CommandWords(command, params) ==> w != []
  {
    var ws := CommandWords(command, params);
    forall k | 0 <= k < |ws|
      ensures |ws[k]| < 0x4000
    {
      if 0 < k < |ws| - 1 {
        assert ws[k] == ParamWord(params[k - 1].0, params[k - 1].1);
      }
    }
    UnframeEncodeWords(ws);
  }

  /** When the login reply carries no word before its terminal word, `connect` succeeds
      exactly when that word is `!done`. */
  lemma LoginVerdict(body: seq<Bytes>, t: Bytes)
    requires IsTerminal(t)
    requires DropRe(body) == []
    ensures LoginAccepted(DropRe(body) + [t]) <==> t == Done
  {
    assert (DropRe(body) + [t])[0] == t;
    if t == Trap {
      ContainsIff(Trap, Done);
      assert !OccursAt(Trap, Done, 0);
    } else {
      assert Done[..|Done|] == Done;
    }
  }

  // Steps of the byte-level bookkeeping in `connect` and `comm`.

  lemma LoginBytes(login: Bytes, password: Bytes)
    ensures EncodeWords(LoginWords(login, password)) ==
      [] + EncodeWord("/login") + EncodeWord("=name=" + login) + EncodeWord("=password=" + password)
  {
    var ws: seq<Bytes> := LoginWords(login, password);
    EncodeFirst(ws);
    EncodeFirst(ws[1..]);
    EncodeFirst(ws[1..][1..]);
    var tail: seq<Bytes> := ws[1..][1..][1..];
    assert tail == [];
  }

  lemma CommandStart(command: Bytes, params: seq<(Bytes, Bytes)>)
    ensures EncodeWords([command] + ParamWords(params[..0])) == EncodeWord(command)
  {
    assert [command] + ParamWords(params[..0]) == [command];
    assert EncodeWords([command]) == EncodeWord(command) + EncodeWords([]);
  }

  lemma CommandStep(command: Bytes, params: seq<(Bytes, Bytes)>, i: nat)
    requires i < |params|
    ensures EncodeWords([command] + ParamWords(params[..i + 1])) ==
      EncodeWords([command] + ParamWords(params[..i])) + EncodeWord(ParamWord(params[i].0, params[i].1))
  {
    var w := ParamWord(params[i].0, params[i].1);
    assert params[..i + 1][..i] == params[..i];
    assert [command] + ParamWords(params[..i + 1]) == ([command] + ParamWords(params[..i])) + [w];
    EncodeWordsAppend([command] + ParamWords(params[..i]), [w]);
    assert EncodeWords([w]) == EncodeWord(w) + EncodeWords([]);
  }

  lemma CommandEnd(command: Bytes, params: seq<(Bytes, Bytes)>)
    ensures EncodeWords(CommandWords(command, params)) ==
      EncodeWords([command] + ParamWords(params[..|params|])) + EncodeWord(Tag)
  {
    assert params[..|params|] == params;
    EncodeWordsAppend([command] + ParamWords(params), [Tag]);
    assert EncodeWords([Tag]) == EncodeWord(Tag) + EncodeWords([]);
  }

  class RouterOS {
    /** Whether `fsockopen` gave a connection. */
    var socket: bool
    /** Whether `disconnect` has closed that connection. */
    var closed: bool
    /** Everything the router sends on the connection. */
    var incoming: Bytes
    /** How much of `incoming` has been read. */
    var cursor: nat
    /** Everything written to the connection. */
    var outgoing: Bytes

    constructor ()
      ensures !socket && !closed && incoming == [] && cursor == 0 && outgoing == []
    {
      socket, closed := false, false;
      incoming, cursor, outgoing := [], 0, [];
    }

    /** Opens the connection and logs in. `router` stands for `fsockopen(ip, 8728)`:
        None when no connection could be made, otherwise what the router will send. */
    method Connect(ip: Bytes, login: Bytes, password: Bytes, router: Option<Bytes>) returns (ok: bool)
      requires router.Some? ==> ReadReply(router.value, 0).Some?
      modifies this
      ensures socket == router.Some?
      ensures ok == (router.Some? && LoginAccepted(ReadReply(router.value, 0).value.0))
      ensures router.None? ==>
        closed == old(closed) && incoming == old(incoming) &&
        cursor == old(cursor) && outgoing == old(outgoing)
      ensures router.Some? ==>
        !closed && incoming == router.value &&
        outgoing == EncodeWords(LoginWords(login, password)) &&
        cursor == ReadReply(router.value, 0).value.1
    {
      if router.None? {
        socket := false;
        return false;
      }
      socket, closed := true, false;
      incoming, cursor, outgoing := router.value, 0, [];
      var name: Bytes, pass: Bytes := "=name=" + login, "=password=" + password;
      Write("/login");
      Write(name);
      Write(pass);
      LoginBytes(login, password);
      assert outgoing == EncodeWords(LoginWords(login, password));
      var result := Read();
      ok := |result| > 0 && Contains(result[0], Done);
    }

    /** Closes the connection if one was opened. */
    method Disconnect()
      modifies this`closed
      ensures closed == (old(closed) || socket)
    {
      if socket {
        closed := true;
      }
    }

    /** Sends one command and returns the reply `read` collects. */
    method Comm(command: Bytes, params: seq<(Bytes, Bytes)>) returns (reply: seq<Bytes>)
      requires socket && !closed
      requires ReadReply(incoming, cursor).Some?
      modifies this`outgoing, this`cursor
      ensures outgoing == old(outgoing) + EncodeWords(CommandWords(command, params))
      ensures ReadReply(incoming, old(cursor)) == Some((reply, cursor))
    {
      WriteCommand(command, params);
      reply := Read();
    }

    /** The writes of `comm`: the command word, each parameter's word, then `.tag=1`. */
    method WriteCommand(command: Bytes, params: seq<(Bytes, Bytes)>)
      requires socket && !closed
      modifies this`outgoing
      ensures outgoing == old(outgoing) + EncodeWords(CommandWords(command, params))
    {
      Write(command);
      CommandStart(command, params);
      for i := 0 to |params|
        invariant outgoing == old(outgoing) + EncodeWords([command] + ParamWords(params[..i]))
      {
        var word := ParamWord(params[i].0, params[i].1);
        Write(word);
        CommandStep(command, params, i);
        ConcatAssoc(old(outgoing), EncodeWords([command] + ParamWords(params[..i])), EncodeWord(word));
      }
      Write(Tag);
      CommandEnd(command, params);
      ConcatAssoc(old(outgoing), EncodeWords([command] + ParamWords(params[..|params|])), EncodeWord(Tag));
    }

    /** Writes one word: its length prefix, then its bytes. */
    method Write(data: Bytes)
      requires socket && !closed
      modifies this`outgoing
      ensures outgoing == old(outgoing) + EncodeWord(data)
    {
      var len := |data|;
      if len < 0x80 {
        SendByte(len);
      } else if len < 0x4000 {
        PrefixBytes(len);
        SendByte(BitOr(0x80, ShiftRight(len, 8)));
        SendByte(BitAnd(len, 0xFF));
        assert LengthPrefix(len) == [Chr(0x80 + len / 0x100)] + [Chr(len % 0x100)];
      }
      assert outgoing == old(outgoing) + LengthPrefix(len);
      outgoing := outgoing + data;
      ConcatAssoc(old(outgoing), LengthPrefix(len), data);
    }

    method SendByte(b: nat)
      requires socket && !closed && b < 0x100
      modifies this`outgoing
      ensures outgoing == old(outgoing) + [Chr(b)]
    {
      outgoing := outgoing + [Chr(b)];
    }

    /** `ord(fread($socket, 1))`. */
    method ReadByte() returns (b: nat)
      requires socket && !closed
      requires cursor < |incoming|
      modifies this`cursor
      ensures b == Ord(incoming[old(cursor)]) && cursor == old(cursor) + 1
    {
      b := Ord(incoming[cursor]);
      cursor := cursor + 1;
    }

    /** `fread($socket, $length)`: the connection may deliver fewer bytes than asked for,
        but at least one while the input lasts. */
    method Fread(length: nat) returns (chunk: Bytes)
      requires socket && !closed
      requires 0 < length && cursor + length <= |incoming|
      modifies this`cursor
      ensures 0 < |chunk| <= length && cursor == old(cursor) + |chunk|
      ensures chunk == incoming[old(cursor)..cursor]
    {
      var n :| 0 < n <= length;
      chunk := incoming[cursor..cursor + n];
      cursor := cursor + n;
    }

    /** Reads a length prefix: one byte, and a second one when the first has its top
        bit set. */
    method ReadLength() returns (length: nat)
      requires socket && !closed
      requires DecodeLength(incoming, cursor).Some?
      modifies this`cursor
      ensures DecodeLength(incoming, old(cursor)) == Some((length, cursor))
    {
      var byte := ReadByte();
      TopBit(byte);
      if BitAnd(byte, 0x80) != 0 {
        var next := ReadByte();
        TwoByteLength(byte, next);
        length := BitOr(ShiftLeft(BitAnd(byte, 0x3F), 8), next);
      } else {
        length := byte;
      }
    }

    /** Reads one word: the length prefix, then chunks until that many bytes have come. */
    method ReadLine() returns (line: Bytes)
      requires socket && !closed
      requires ReadWord(incoming, cursor).Some?
      modifies this`cursor
      ensures ReadWord(incoming, old(cursor)) == Some((line, cursor))
    {
      ghost var start := cursor;
      var length: nat := ReadLength();
      ghost var from, total := cursor, length;
      assert ReadWord(incoming, start) == Some((incoming[from..from + total], from + total));
      line := [];
      if length > 0 {
        while length > 0
          invariant from <= cursor && cursor + length == from + total <= |incoming|
          invariant line == incoming[from..cursor]
          decreases length
        {
          var chunk := Fread(length);
          assert incoming[from..cursor] == incoming[from..cursor - |chunk|] + chunk;
          line := line + chunk;
          length := length - |chunk|;
        }
      }
      assert line == incoming[from..from + total];
    }

    /** Reads words until `!done` or `!trap`, keeping every word but `!re`. */
    method Read() returns (response: seq<Bytes>)
      requires socket && !closed
      requires ReadReply(incoming, cursor).Some?
      modifies this`cursor
      ensures ReadReply(incoming, old(cursor)) == Some((response, cursor))
    {
      response := [];
      ghost var rest, end := ReadReply(incoming, cursor).value.0, ReadReply(incoming, cursor).value.1;
      assert response + rest == rest;
      while true
        invariant ReadReply(incoming, cursor) == Some((rest, end))
        invariant ReadReply(incoming, old(cursor)) == Some((response + rest, end))
        decreases |incoming| - cursor
      {
        ghost var tail;
        var line;
        line, tail := ReadReplyWord(rest, end);
        if line == Done || line == Trap {
          response := response + [line];
          break;
        }
        if line != Re {
          assert response + ([line] + tail) == (response + [line]) + tail;
          response := response + [line];
        }
        rest := tail;
      }
    }

    /** One pass of `read`'s loop: reads the next word of a reply whose words from here
        on are rest, and gives the words of the reply that still follow it. */
    method ReadReplyWord(ghost rest: seq<Bytes>, ghost end: nat) returns (line: Bytes, ghost tail: seq<Bytes>)
      requires socket && !closed
      requires ReadReply(incoming, cursor) == Some((rest, end))
      modifies this`cursor
      ensures old(cursor) < cursor
      ensures IsTerminal(line) ==> rest == [line] && cursor == end
      ensures !IsTerminal(line) ==>
        ReadReply(incoming, cursor) == Some((tail, end)) &&
        rest == (if line == Re then tail else [line] + tail)
    {
      ghost var start := cursor;
      line := ReadLine();
      if line == Done || line == Trap {
        ReplyEnd(incoming, start, line, cursor);
        tail := [];
      } else {
        ghost var k;
        tail, k := ReplyNext(incoming, start, line, cursor);
      }
    }
  }
}
