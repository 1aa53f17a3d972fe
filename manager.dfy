/** `managePorts` of `MikrotikManagerServiceProvider.php`: from the router settings, a
    server's UUID, its allocations and an action, the router commands the plugin issues.
    Whether `connect` succeeds and the rows of each `print` listing are inputs; how the
    rows come from the router's reply is stated twice, as written and as intended. */
module MikrotikManager {
  import opened Wrappers
  import opened Codec

  /** The four settings read from the environment; None when unset. */
  datatype Config = Config(ip: Option<Bytes>, user: Option<Bytes>, pass: Option<Bytes>, iface: Option<Bytes>)

  /** An address and port the panel assigned to a server. */
  datatype Allocation = Allocation(ip: Bytes, port: nat)

  /** One `comm` call: the command word and its parameters in insertion order. */
  datatype Command = Command(word: Bytes, params: seq<(Bytes, Bytes)>)

  /** One element of a `print` listing as the removal loop sees it: the rule id it names, if any. */
  datatype Row = Row(id: Option<Bytes>)

  /** What `managePorts` does: nothing, a failed login, or a session issuing commands. */
  datatype Outcome = Skipped | ConnectFailed | Ran(commands: seq<Command>)

  /** PHP truthiness of a setting: unset, "" and "0" are false. */
  predicate Truthy(v: Option<Bytes>): (r: bool)
    ensures r ==> v.Some? && |v.value| > 0
    ensures v == Some("0") ==> !r
  {
    v.Some? && v.value != [] && v.value != "0"
  }

  /** The guard: address, user and password must all be set. */
  predicate Enabled(cfg: Config): (r: bool)
    ensures r ==> cfg.ip.Some? && cfg.user.Some? && cfg.pass.Some?
  {
    Truthy(cfg.ip) && Truthy(cfg.user) && Truthy(cfg.pass)
  }

  const DefaultInterface: Bytes := "ether1"

  /** `env('MIKROTIK_INTERFACE', 'ether1')`. */
  function Interface(cfg: Config): (r: Bytes)
    ensures cfg.iface.None? ==> r == "ether1"
    ensures cfg.iface.Some? ==> r == cfg.iface.value
  {
    if cfg.iface.Some? then cfg.iface.value else DefaultInterface
  }

  const TagPrefix: Bytes := "Pelican: "

  /** The comment that marks every rule made for a server. */
  function CommentTag(uuid: Bytes): (r: Bytes)
    ensures |r| == 9 + |uuid| && r[..9] == "Pelican: " && r[9..] == uuid
  {
    TagPrefix + uuid
  }

  /** Tags of different servers differ, so one server's rules are never taken for another's. */
  lemma TagsDistinct(u: Bytes, v: Bytes)
    ensures CommentTag(u) == CommentTag(v) <==> u == v
  {
    if CommentTag(u) == CommentTag(v) {
      assert u == CommentTag(u)[|TagPrefix|..];
      assert v == CommentTag(v)[|TagPrefix|..];
    }
  }

  // ---------------------------------------------------------------------------
  // Ports as PHP writes them into a string

  function Digit(d: nat): Octet
    requires d < 10
  {
    ('0' as int + d) as char
  }

  /** The decimal digits PHP produces when an integer port is used as a string. */
  function Decimal(n: nat): (r: Bytes)
    ensures |r| > 0 && forall k :: 0 <= k < |r| ==> '0' <= r[k] <= '9'
    ensures r[0] == '0' <==> n == 0
  {
    if n < 10 then [Digit(n)] else Decimal(n / 10) + [Digit(n % 10)]
  }

  /** The number a string of decimal digits denotes. */
  function DigitsValue(s: Bytes): nat
    requires forall k :: 0 <= k < |s| ==> '0' <= s[k] <= '9'
  {
    if s == [] then 0 else 10 * DigitsValue(s[..|s| - 1]) + (s[|s| - 1] as int - '0' as int)
  }

  /** Reading the decimal form back gives the port. */
  lemma {:induction false} DecimalRoundTrip(n: nat)
    ensures DigitsValue(Decimal(n)) == n
  {
    var r := Decimal(n);
    if n >= 10 {
      DecimalRoundTrip(n / 10);
      assert r[..|r| - 1] == Decimal(n / 10);
    }
  }

  // ---------------------------------------------------------------------------
  // The commands

  const AddWord: Bytes := "/ip/firewall/nat/add"
  const PrintWord: Bytes := "/ip/firewall/nat/print"
  const RemoveWord: Bytes := "/ip/firewall/nat/remove"

  /** The protocols a port is opened for, in order. */
  const Protocols: seq<Bytes> := ["tcp", "udp"]

  /** The dst-nat rule that forwards an allocation's port for one protocol. */
  function AddCommand(a: Allocation, proto: Bytes, iface: Bytes, tag: Bytes): (c: Command)
    ensures c.word == AddWord && |c.params| == 8 && c.params[7] == ("comment", tag)
  {
    Command(AddWord, [
      ("chain", "dstnat"), ("action", "dst-nat"),
      ("to-addresses", a.ip), ("to-ports", Decimal(a.port)),
      ("protocol", proto), ("dst-port", Decimal(a.port)),
      ("in-interface", iface), ("comment", tag)])
  }

  /** The listing of the ids of the rules carrying the tag. */
  function PrintCommand(tag: Bytes): (c: Command)
    ensures c.word == PrintWord && ("?comment", tag) in c.params && (".proplist", ".id") in c.params
  {
    Command(PrintWord, [("?comment", tag), (".proplist", ".id")])
  }

  /** The deletion of one rule. */
  function RemoveCommand(id: Bytes): (c: Command)
    ensures c.word == RemoveWord && c.params == [(".id", id)]
  {
    Command(RemoveWord, [(".id", id)])
  }

  /** The add commands for one allocation, one per protocol, in order. */
  function AddCommands(a: Allocation, protocols: seq<Bytes>, iface: Bytes, tag: Bytes): seq<Command>
  {
    if protocols == [] then
      []
    else
      AddCommands(a, protocols[..|protocols| - 1], iface, tag) +
        [AddCommand(a, protocols[|protocols| - 1], iface, tag)]
  }

  // ---------------------------------------------------------------------------
  // The rows of a listing

  /** As written: `comm` returns the reply as a list of strings, and `isset($rule['.id'])`
      on a string is false, so no element of the reply yields an id. */
  function AsWrittenRows(reply: seq<Bytes>): (rows: seq<Row>)
    ensures |rows| == |reply| && forall k :: 0 <= k < |rows| ==> rows[k].id.None?
  {
    seq(|reply|, k requires 0 <= k < |reply| => Row(None))
  }

  const IdAttribute: Bytes := "=.id="

  /** The intended reading of a reply word: `=.id=<id>` names a rule. */
  function ParsedRow(w: Bytes): Row
  {
    if |IdAttribute| <= |w| && w[..|IdAttribute|] == IdAttribute then Row(Some(w[|IdAttribute|..]))
    else Row(None)
  }

  /** The intended rows of a reply: one per word, naming the rule its `=.id=` word names. */
  function ParsedRows(reply: seq<Bytes>): (rows: seq<Row>)
    ensures |rows| == |reply| && forall k :: 0 <= k < |reply| ==> rows[k] == ParsedRow(reply[k])
  {
    seq(|reply|, k requires 0 <= k < |reply| => ParsedRow(reply[k]))
  }

  /** Every listing of a session, read as written: no row names a rule. */
  function AsWrittenListings(replies: seq<seq<Bytes>>): (listings: seq<seq<Row>>)
    ensures |listings| == |replies|
    ensures forall k :: 0 <= k < |replies| ==> |listings[k]| == |replies[k]|
    ensures forall k, j :: 0 <= k < |replies| && 0 <= j < |listings[k]| ==> listings[k][j].id.None?
  {
    seq(|replies|, k requires 0 <= k < |replies| => AsWrittenRows(replies[k]))
  }

  /** Every listing of a session, read as intended. */
  function ParsedListings(replies: seq<seq<Bytes>>): (listings: seq<seq<Row>>)
    ensures |listings| == |replies| && forall k :: 0 <= k < |replies| ==> listings[k] == ParsedRows(replies[k])
  {
    seq(|replies|, k requires 0 <= k < |replies| => ParsedRows(replies[k]))
  }

  /** The deletions for the rows of one listing: one per row that has an id, in order. */
  function Removals(rows: seq<Row>): (cs: seq<Command>)
    ensures |cs| <= |rows|
  {
    if rows == [] then
      []
    else
      Removals(rows[..|rows| - 1]) +
        (if rows[|rows| - 1].id.Some? then [RemoveCommand(rows[|rows| - 1].id.value)] else [])
  }

  // ---------------------------------------------------------------------------
  // The plan

  /** The commands for one allocation; rows is the listing made for it. */
  function AllocationCommands(a: Allocation, rows: seq<Row>, action: Bytes, iface: Bytes, tag: Bytes): seq<Command>
  {
    if action == "add" then AddCommands(a, Protocols, iface, tag)
    else if action == "remove" then [PrintCommand(tag)] + Removals(rows)
    else []
  }

  /** The commands for all allocations, in order; listings[i] is the listing made for
      the i-th allocation. */
  function Issued(allocations: seq<Allocation>, listings: seq<seq<Row>>, action: Bytes, iface: Bytes, tag: Bytes): (cs: seq<Command>)
    requires |listings| == |allocations|
    ensures allocations == [] ==> cs == []
  {
    if allocations == [] then []
    else
      var n := |allocations| - 1;
      Issued(allocations[..n], listings[..n], action, iface, tag) +
        AllocationCommands(allocations[n], listings[n], action, iface, tag)
  }

  /** What `managePorts` does, given whether `connect` succeeded. */
  function Plan(cfg: Config, uuid: Bytes, allocations: seq<Allocation>, action: Bytes,
                connected: bool, listings: seq<seq<Row>>): (r: Outcome)
    requires |listings| == |allocations|
    ensures r.Skipped? <==> !Enabled(cfg)
    ensures r.Ran? <==> Enabled(cfg) && connected
  {
    if !Enabled(cfg) then Skipped
    else if !connected then ConnectFailed
    else Ran(Issued(allocations, listings, action, Interface(cfg), CommentTag(uuid)))
  }

  /** The inner loop for `add`: one rule per protocol. */
  method AddRules(allocation: Allocation, iface: Bytes, comment: Bytes) returns (commands: seq<Command>)
    ensures commands == AddCommands(allocation, Protocols, iface, comment)
  {
    commands := [];
    for p := 0 to |Protocols|
      invariant commands == AddCommands(allocation, Protocols[..p], iface, comment)
    {
      assert Protocols[..p + 1][..p] == Protocols[..p];
      commands := commands + [AddCommand(allocation, Protocols[p], iface, comment)];
    }
    assert Protocols[..|Protocols|] == Protocols;
  }

  /** The inner loop for `remove`: list the tagged rules, then delete each row with an id. */
  method RemoveRules(rules: seq<Row>, comment: Bytes) returns (commands: seq<Command>)
    ensures commands == [PrintCommand(comment)] + Removals(rules)
  {
    commands := [PrintCommand(comment)];
    for r := 0 to |rules|
      invariant commands == [PrintCommand(comment)] + Removals(rules[..r])
    {
      assert rules[..r + 1][..r] == rules[..r];
      if rules[r].id.Some? {
        commands := commands + [RemoveCommand(rules[r].id.value)];
      }
    }
    assert rules[..|rules|] == rules;
  }

  /** The outer loop of `managePorts`, collecting the `comm` calls in order. */
  method ManagePorts(cfg: Config, uuid: Bytes, allocations: seq<Allocation>, action: Bytes,
                     connected: bool, listings: seq<seq<Row>>) returns (outcome: Outcome)
    requires |listings| == |allocations|
    ensures outcome == Plan(cfg, uuid, allocations, action, connected, listings)
  {
    var ip, user, pass := cfg.ip, cfg.user, cfg.pass;
    var iface := Interface(cfg);
    if !Truthy(ip) || !Truthy(user) || !Truthy(pass) {
      return Skipped;
    }
    if !connected {
      return ConnectFailed;
    }
    var comment := CommentTag(uuid);
    var commands: seq<Command> := [];
    for i := 0 to |allocations|
      invariant commands == Issued(allocations[..i], listings[..i], action, iface, comment)
    {
      var step: seq<Command> := [];
      if action == "add" {
        step := AddRules(allocations[i], iface, comment);
      } else if action == "remove" {
        step := RemoveRules(listings[i], comment);
      }
      assert step == AllocationCommands(allocations[i], listings[i], action, iface, comment);
      assert allocations[..i + 1][..i] == allocations[..i];
      assert listings[..i + 1][..i] == listings[..i];
      commands := commands + step;
    }
    assert allocations[..|allocations|] == allocations;
    assert listings[..|listings|] == listings;
    return Ran(commands);
  }

  // ---------------------------------------------------------------------------
  // Properties of the plan

  /** Without address, user and password nothing is attempted. */
  lemma NoConfigNoTraffic(cfg: Config, uuid: Bytes, allocations: seq<Allocation>, action: Bytes,
                          connected: bool, listings: seq<seq<Row>>)
    requires |listings| == |allocations|
    requires cfg.ip.None? || cfg.user.None? || cfg.pass.None? ||
      cfg.ip == Some([]) || cfg.user == Some([]) || cfg.pass == Some([])
    ensures Plan(cfg, uuid, allocations, action, connected, listings) == Skipped
  {
  }

  /** A failed login issues no command. */
  lemma FailedConnectNoCommands(cfg: Config, uuid: Bytes, allocations: seq<Allocation>, action: Bytes,
                                listings: seq<seq<Row>>)
    requires |listings| == |allocations|
    ensures !Plan(cfg, uuid, allocations, action, false, listings).Ran?
  {
  }

  lemma ProtocolPair(a: Allocation, iface: Bytes, tag: Bytes)
    ensures AddCommands(a, Protocols, iface, tag) == [AddCommand(a, "tcp", iface, tag), AddCommand(a, "udp", iface, tag)]
  {
    var tcp: seq<Bytes> := Protocols[..1];
    assert tcp == ["tcp"] && Protocols[..|Protocols| - 1] == tcp;
    assert tcp[..0] == [];
    assert AddCommands(a, tcp, iface, tag) == [AddCommand(a, "tcp", iface, tag)];
  }

  /** Adding issues two commands per allocation, tcp then udp, allocation after allocation. */
  lemma {:induction false} IssuedAdd(allocations: seq<Allocation>, listings: seq<seq<Row>>, iface: Bytes, tag: Bytes)
    requires |listings| == |allocations|
    ensures var cs := Issued(allocations, listings, "add", iface, tag);
      |cs| == 2 * |allocations| &&
      (forall i :: 0 <= i < |allocations| ==> cs[2 * i] == AddCommand(allocations[i], "tcp", iface, tag)) &&
      (forall i :: 0 <= i < |allocations| ==> cs[2 * i + 1] == AddCommand(allocations[i], "udp", iface, tag))
  {
    if allocations != [] {
      var n := |allocations| - 1;
      var a := allocations[n];
      var before := Issued(allocations[..n], listings[..n], "add", iface, tag);
      IssuedAdd(allocations[..n], listings[..n], iface, tag);
      ProtocolPair(a, iface, tag);
      var cs := before + [AddCommand(a, "tcp", iface, tag), AddCommand(a, "udp", iface, tag)];
      assert Issued(allocations, listings, "add", iface, tag) == cs;
      forall i | 0 <= i < |allocations|
        ensures cs[2 * i] == AddCommand(allocations[i], "tcp", iface, tag)
        ensures cs[2 * i + 1] == AddCommand(allocations[i], "udp", iface, tag)
      {
        if i < n {
          assert allocations[..n][i] == allocations[i];
        }
      }
    }
  }

  /** Each add command forwards the allocation's port on the configured interface and
      carries the server's tag; the port is written in decimal. */
  lemma AddCommandAttributes(a: Allocation, proto: Bytes, iface: Bytes, tag: Bytes)
    ensures var c := AddCommand(a, proto, iface, tag);
      c.word == AddWord && |c.params| == 8 &&
      [c.params[0].0, c.params[1].0, c.params[2].0, c.params[3].0,
       c.params[4].0, c.params[5].0, c.params[6].0, c.params[7].0] ==
        ["chain", "action", "to-addresses", "to-ports", "protocol", "dst-port", "in-interface", "comment"] &&
      c.params[0].1 == "dstnat" && c.params[1].1 == "dst-nat" &&
      c.params[2].1 == a.ip && DigitsValue(c.params[3].1) == a.port &&
      c.params[4].1 == proto && c.params[5].1 == c.params[3].1 &&
      c.params[6].1 == iface && c.params[7].1 == tag
  {
    DecimalRoundTrip(a.port);
  }

  /** End to end for `add`: with the settings present and the login accepted, two add
      commands per allocation, on the configured interface (ether1 when unset), each
      tagged with the server's comment. */
  lemma AddRun(cfg: Config, uuid: Bytes, allocations: seq<Allocation>, listings: seq<seq<Row>>)
    requires Enabled(cfg) && |listings| == |allocations|
    ensures var r := Plan(cfg, uuid, allocations, "add", true, listings);
      var iface := if cfg.iface.Some? then cfg.iface.value else "ether1";
      r.Ran? && |r.commands| == 2 * |allocations| &&
      (forall i :: 0 <= i < |allocations| ==>
        r.commands[2 * i] == AddCommand(allocations[i], "tcp", iface, "Pelican: " + uuid) &&
        r.commands[2 * i + 1] == AddCommand(allocations[i], "udp", iface, "Pelican: " + uuid))
  {
    IssuedAdd(allocations, listings, Interface(cfg), CommentTag(uuid));
  }

  /** How many rows name a rule. */
  function CountIds(rows: seq<Row>): nat
  {
    if rows == [] then 0 else (if rows[0].id.Some? then 1 else 0) + CountIds(rows[1..])
  }

  lemma {:induction false} CountIdsLast(rows: seq<Row>)
    requires rows != []
    ensures CountIds(rows) == CountIds(rows[..|rows| - 1]) + (if rows[|rows| - 1].id.Some? then 1 else 0)
  {
    if |rows| > 1 {
      assert rows[1..][..|rows[1..]| - 1] == rows[..|rows| - 1][1..];
      CountIdsLast(rows[1..]);
    }
  }

  /** The deletions after one listing: exactly one per row with an id, each naming an id
      of the listing, and every listed id is deleted. */
  lemma {:induction false} RemovalsFollowRows(rows: seq<Row>)
    ensures |Removals(rows)| == CountIds(rows)
    ensures forall c :: c in Removals(rows) ==>
      c.word == RemoveWord && |c.params| == 1 && c.params[0].0 == ".id" && Row(Some(c.params[0].1)) in rows
    ensures forall r :: r in rows && r.id.Some? ==> RemoveCommand(r.id.value) in Removals(rows)
  {
    if rows != [] {
      var n := |rows| - 1;
      RemovalsFollowRows(rows[..n]);
      CountIdsLast(rows);
      assert rows == rows[..n] + [rows[n]];
    }
  }

  /** How many of the commands use the given command word. */
  function Count(cs: seq<Command>, word: Bytes): nat
  {
    if cs == [] then 0 else (if cs[0].word == word then 1 else 0) + Count(cs[1..], word)
  }

  lemma {:induction false} CountAppend(a: seq<Command>, b: seq<Command>, word: Bytes)
    ensures Count(a + b, word) == Count(a, word) + Count(b, word)
  {
    if a != [] {
      assert (a + b)[1..] == a[1..] + b;
      CountAppend(a[1..], b, word);
    } else {
      assert a + b == b;
    }
  }

  /** Commands all using one word: none of them counts for another word, all of them for it. */
  lemma {:induction false} CountUniform(cs: seq<Command>, word: Bytes, other: Bytes)
    requires forall c :: c in cs ==> c.word == word
    requires other != word
    ensures Count(cs, word) == |cs| && Count(cs, other) == 0
  {
    if cs != [] {
      assert forall c :: c in cs[1..] ==> c in cs;
      CountUniform(cs[1..], word, other);
    }
  }

  /** The rules the listings name, over all of them. */
  function ListedIds(listings: seq<seq<Row>>): nat
  {
    if listings == [] then 0
    else ListedIds(listings[..|listings| - 1]) + CountIds(listings[|listings| - 1])
  }

  /** Removing issues one listing per allocation, always for the server's tag, and one
      deletion per listed row that names a rule; nothing else. */
  lemma {:induction false} IssuedRemove(allocations: seq<Allocation>, listings: seq<seq<Row>>, iface: Bytes, tag: Bytes)
    requires |listings| == |allocations|
    ensures var cs := Issued(allocations, listings, "remove", iface, tag);
      Count(cs, PrintWord) == |allocations| && Count(cs, RemoveWord) == ListedIds(listings) &&
      (forall c :: c in cs ==> c == PrintCommand(tag) || c.word == RemoveWord)
  {
    if allocations != [] {
      var n := |allocations| - 1;
      IssuedRemove(allocations[..n], listings[..n], iface, tag);
      var rows := listings[n];
      RemovalsFollowRows(rows);
      var before := Issued(allocations[..n], listings[..n], "remove", iface, tag);
      var rest := Removals(rows);
      assert Issued(allocations, listings, "remove", iface, tag) == before + ([PrintCommand(tag)] + rest);
      assert listings[..|listings| - 1] == listings[..n];
      CountAppend(before, [PrintCommand(tag)] + rest, PrintWord);
      CountAppend(before, [PrintCommand(tag)] + rest, RemoveWord);
      CountAppend([PrintCommand(tag)], rest, PrintWord);
      CountAppend([PrintCommand(tag)], rest, RemoveWord);
      CountUniform(rest, RemoveWord, PrintWord);
      CountUniform([PrintCommand(tag)], PrintWord, RemoveWord);
    }
  }

  /** The session's commands end with those of its last allocation. */
  lemma IssuedLast(allocations: seq<Allocation>, listings: seq<seq<Row>>, action: Bytes, iface: Bytes, tag: Bytes)
    requires |listings| == |allocations| && allocations != []
    ensures var n := |allocations| - 1;
      Issued(allocations, listings, action, iface, tag) ==
        Issued(allocations[..n], listings[..n], action, iface, tag) +
        AllocationCommands(allocations[n], listings[n], action, iface, tag)
  {
  }

  /** A command issued for the last allocation is among the commands of the session. */
  lemma IssuedIncludesLast(allocations: seq<Allocation>, listings: seq<seq<Row>>,
                           action: Bytes, iface: Bytes, tag: Bytes, c: Command)
    requires |listings| == |allocations| && allocations != []
    requires c in AllocationCommands(allocations[|allocations| - 1], listings[|allocations| - 1], action, iface, tag)
    ensures c in Issued(allocations, listings, action, iface, tag)
  {
    IssuedLast(allocations, listings, action, iface, tag);
  }

  /** A command issued for all allocations but the last is among the commands of the session. */
  lemma IssuedIncludesFront(allocations: seq<Allocation>, listings: seq<seq<Row>>,
                            action: Bytes, iface: Bytes, tag: Bytes, c: Command)
    requires |listings| == |allocations| && allocations != []
    requires c in Issued(allocations[..|allocations| - 1], listings[..|allocations| - 1], action, iface, tag)
    ensures c in Issued(allocations, listings, action, iface, tag)
  {
    IssuedLast(allocations, listings, action, iface, tag);
  }

  /** A command issued for one allocation is among the commands of the whole session. */
  lemma {:induction false} IssuedIncludes(allocations: seq<Allocation>, listings: seq<seq<Row>>,
                                          action: Bytes, iface: Bytes, tag: Bytes, k: nat, c: Command)
    requires |listings| == |allocations| && k < |allocations|
    requires c in AllocationCommands(allocations[k], listings[k], action, iface, tag)
    ensures c in Issued(allocations, listings, action, iface, tag)
  {
    var n := |allocations| - 1;
    if k == n {
      IssuedIncludesLast(allocations, listings, action, iface, tag, c);
    } else {
      assert allocations[..n][k] == allocations[k] && listings[..n][k] == listings[k];
      IssuedIncludes(allocations[..n], listings[..n], action, iface, tag, k, c);
      IssuedIncludesFront(allocations, listings, action, iface, tag, c);
    }
  }

  /** A session whose listings name no rule: one listing per allocation and nothing else. */
  lemma {:induction false} IssuedRemoveNoIds(allocations: seq<Allocation>, listings: seq<seq<Row>>, iface: Bytes, tag: Bytes)
    requires |listings| == |allocations|
    requires forall k, j :: 0 <= k < |listings| && 0 <= j < |listings[k]| ==> listings[k][j].id.None?
    ensures var cs := Issued(allocations, listings, "remove", iface, tag);
      |cs| == |allocations| && forall k :: 0 <= k < |cs| ==> cs[k] == PrintCommand(tag)
  {
    if allocations != [] {
      var n := |allocations| - 1;
      assert forall k :: 0 <= k < n ==> listings[..n][k] == listings[k];
      IssuedRemoveNoIds(allocations[..n], listings[..n], iface, tag);
      CountIdsZero(listings[n]);
      RemovalsFollowRows(listings[n]);
      assert Removals(listings[n]) == [];
    }
  }

  /** End to end for `remove` as written: whatever the router lists, the session sends one
      listing per allocation, for the server's tag, and deletes nothing. */
  lemma AsWrittenRemoveRun(cfg: Config, uuid: Bytes, allocations: seq<Allocation>, replies: seq<seq<Bytes>>)
    requires Enabled(cfg) && |replies| == |allocations|
    ensures var r := Plan(cfg, uuid, allocations, "remove", true, AsWrittenListings(replies));
      r.Ran? && |r.commands| == |allocations| &&
      forall k :: 0 <= k < |r.commands| ==> r.commands[k] == PrintCommand("Pelican: " + uuid)
  {
    IssuedRemoveNoIds(allocations, AsWrittenListings(replies), Interface(cfg), CommentTag(uuid));
  }

  /** End to end for `remove` as intended: one listing per allocation for the server's tag,
      one deletion per rule the listings name, and every rule a listing names deleted. */
  lemma RemoveRun(cfg: Config, uuid: Bytes, allocations: seq<Allocation>, replies: seq<seq<Bytes>>)
    requires Enabled(cfg) && |replies| == |allocations|
    ensures var r := Plan(cfg, uuid, allocations, "remove", true, ParsedListings(replies));
      r.Ran? && Count(r.commands, PrintWord) == |allocations| &&
      Count(r.commands, RemoveWord) == ListedIds(ParsedListings(replies)) &&
      (forall c :: c in r.commands ==> c == PrintCommand("Pelican: " + uuid) || c.word == RemoveWord) &&
      (forall k, id :: 0 <= k < |replies| && IdAttribute + id in replies[k] ==> RemoveCommand(id) in r.commands)
  {
    var listings := ParsedListings(replies);
    var iface, tag := Interface(cfg), CommentTag(uuid);
    IssuedRemove(allocations, listings, iface, tag);
    forall k, id | 0 <= k < |replies| && IdAttribute + id in replies[k]
      ensures RemoveCommand(id) in Issued(allocations, listings, "remove", iface, tag)
    {
      ParsedRowsRemoveListedIds(replies[k]);
      assert RemoveCommand(id) in AllocationCommands(allocations[k], listings[k], "remove", iface, tag);
      IssuedIncludes(allocations, listings, "remove", iface, tag, k, RemoveCommand(id));
    }
  }

  /** Any action other than `add` and `remove` issues nothing between login and logout. */
  lemma {:induction false} OtherActionsIssueNothing(allocations: seq<Allocation>, listings: seq<seq<Row>>,
                                                    action: Bytes, iface: Bytes, tag: Bytes)
    requires |listings| == |allocations|
    requires action != "add" && action != "remove"
    ensures Issued(allocations, listings, action, iface, tag) == []
  {
    if allocations != [] {
      var n := |allocations| - 1;
      OtherActionsIssueNothing(allocations[..n], listings[..n], action, iface, tag);
    }
  }

  // ---------------------------------------------------------------------------
  // Reading the listing: as written and as intended

  lemma {:induction false} CountIdsZero(rows: seq<Row>)
    requires forall k :: 0 <= k < |rows| ==> rows[k].id.None?
    ensures CountIds(rows) == 0
  {
    if rows != [] {
      CountIdsZero(rows[1..]);
    }
  }

  /** With the reply read as written, the removal loop deletes nothing, whatever the
      router lists. */
  lemma AsWrittenRemovesNothing(reply: seq<Bytes>)
    ensures Removals(AsWrittenRows(reply)) == []
  {
    var rows := AsWrittenRows(reply);
    RemovalsFollowRows(rows);
    CountIdsZero(rows);
  }

  /** The listings of a session with one allocation. */
  lemma SingleListing(reply: seq<Bytes>)
    ensures AsWrittenListings([reply]) == [AsWrittenRows(reply)]
    ensures ParsedListings([reply]) == [ParsedRows(reply)]
  {
  }

  /** Removing one allocation: the listing, then the deletions its rows call for. */
  lemma SingleRemoval(cfg: Config, uuid: Bytes, a: Allocation, rows: seq<Row>)
    requires Enabled(cfg)
    ensures Plan(cfg, uuid, [a], "remove", true, [rows]) ==
      Ran([PrintCommand("Pelican: " + uuid)] + Removals(rows))
  {
    assert [a][..0] == [] && [rows][..0] == [];
  }

  /** Read as intended, the listing `=.id=*1`, `!done` deletes rule *1 and nothing else. */
  lemma ListedRuleRemoval()
    ensures Removals(ParsedRows(["=.id=*1", "!done"])) == [RemoveCommand("*1")]
  {
    var reply: seq<Bytes> := ["=.id=*1", "!done"];
    var rows := ParsedRows(reply);
    assert reply[0][..|IdAttribute|] == IdAttribute && reply[0][|IdAttribute|..] == "*1";
    assert reply[1][..|IdAttribute|][0] != IdAttribute[0];
    assert rows[0] == Row(Some("*1")) && rows[1] == Row(None);
    assert rows[..2] == rows && rows[..2][..1] == rows[..1] && rows[..1][..0] == [];
  }

  /** A session removing one allocation whose listing names rule *1: as written only the
      listing is sent; as intended rule *1 is deleted after it. */
  lemma AsWrittenMissesListedRule(cfg: Config, uuid: Bytes, a: Allocation)
    requires Enabled(cfg)
    ensures Plan(cfg, uuid, [a], "remove", true, AsWrittenListings([["=.id=*1", "!done"]])) ==
      Ran([PrintCommand("Pelican: " + uuid)])
    ensures Plan(cfg, uuid, [a], "remove", true, ParsedListings([["=.id=*1", "!done"]])) ==
      Ran([PrintCommand("Pelican: " + uuid), RemoveCommand("*1")])
  {
    var reply: seq<Bytes> := ["=.id=*1", "!done"];
    SingleListing(reply);
    AsWrittenRemovesNothing(reply);
    ListedRuleRemoval();
    SingleRemoval(cfg, uuid, a, AsWrittenRows(reply));
    SingleRemoval(cfg, uuid, a, ParsedRows(reply));
  }

  /** Read as intended, every rule the listing names is deleted, and nothing else. */
  lemma ParsedRowsRemoveListedIds(reply: seq<Bytes>)
    ensures forall id :: IdAttribute + id in reply ==> RemoveCommand(id) in Removals(ParsedRows(reply))
    ensures forall c :: c in Removals(ParsedRows(reply)) ==>
      c.word == RemoveWord && |c.params| == 1 && IdAttribute + c.params[0].1 in reply
  {
    var rows := ParsedRows(reply);
    RemovalsFollowRows(rows);
    forall id | IdAttribute + id in reply
      ensures RemoveCommand(id) in Removals(rows)
    {
      var k :| 0 <= k < |reply| && reply[k] == IdAttribute + id;
      assert reply[k][|IdAttribute|..] == id;
      assert rows[k] == Row(Some(id));
    }
    forall c | c in Removals(rows)
      ensures c.word == RemoveWord && |c.params| == 1 && IdAttribute + c.params[0].1 in reply
    {
      var k :| 0 <= k < |rows| && rows[k] == Row(Some(c.params[0].1));
      assert reply[k] == IdAttribute + c.params[0].1;
    }
  }
}
