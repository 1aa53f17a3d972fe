# Mikrotik port manager: the RouterOS API client and `managePorts`

This project models the part of the Mikrotik manager plugin that talks to the router,
and proves properties of that model in Dafny.

The plugin opens and closes router ports for a game server. When a server is created
or deleted, `managePorts` logs in to a MikroTik router over the RouterOS API on TCP
port 8728. For each of the server's allocations (an address and port) it then does
one of two things:

- it adds two destination-NAT rules, one for tcp and one for udp;
- or it sends a listing request carrying the server's tag and is meant to delete the
  rules the reply names; as written it deletes none (see "## Findings").

The model has five modules:

- `Bits` (bits.dfy): PHP's `>>`, `<<`, `&` and `|`, as the client uses them, with
  lemmas giving their arithmetic meaning.
- `Codec` (codec.dfy): the wire format.
  - `EncodeWord` is what `write` sends.
  - `DecodeLength`, `ReadWord` and `ReadReply` are what `read` takes off the stream.
  - `Unframe` is a peer's view of a byte stream.
  - `Contains` is `strpos(...) !== false`.
  - Also here: the round-trip lemmas between writing and reading.
- `Api` (router_os.dfy): the client class `RouterOS`. The socket is three fields:
  - `incoming`: the bytes the router will send;
  - `cursor`: how far they have been read;
  - `outgoing`: everything written so far.

  `Connect`, `Comm`, `Write`, `ReadLength`, `ReadLine` and `Read` keep the source's
  loops and bit operations. Each is proved against the `Codec` functions.
- `MikrotikManager` (manager.dfy): `managePorts`. It takes the settings, the server's
  UUID, its allocations, the action, and the rows of each listing the router returns.
  It produces the sequence of `comm` calls. The method `ManagePorts` keeps the
  source's nested loops, including the `isset` test on each row. It is proved equal to
  the function `Plan`, whose properties are lemmas. A listing reply becomes rows in
  one of two ways:
  - `AsWrittenListings`: as the code reads it, each element of the reply is a string,
    so no row has an `.id`;
  - `ParsedListings`: as the code evidently means it, a word `=.id=<id>` names a rule.

  Both readings are proved end to end (see "## Findings").
- `ManagerWire` (wire.dfy): the words `comm` puts on the wire for the manager's
  commands.

The model writes exactly the words the code writes.

- **No sentence terminator.** In the RouterOS API a sentence ends with a zero-length
  word, but `comm` never writes one. `Api.CommandReadBack` states that none of the
  words written is empty. This is recorded as a property, not as a finding, because
  the router's side of the protocol is not part of this model.
- **The listing's query goes out as an attribute.** In the RouterOS API a query word
  begins with `?`, but `comm` writes every parameter as `=key=value`. So the
  `?comment` filter of the listing is sent as the attribute word `=?comment=<tag>`,
  and no word of the listing begins with `?` (`ManagerWire.PrintWireWords`). This
  too is recorded as a property, not as a finding, for the same reason.
- **Words left over after a reply.** `read` stops at `!done` or `!trap`. Any words
  the router sends after them stay in the stream and begin the next reply. The
  model keeps this, because `incoming` is one stream that every read continues
  from `cursor`.

## Model

| member | source | states |
|---|---|---|
| Bits.ShiftRight | src/RouterOS.php:38 | `$len >> 8` never exceeds `$len` (its meaning is `ShiftRightDivides`) |
| Bits.ShiftLeft | src/RouterOS.php:48 | `x << 8` is at least `x`, and zero only for zero (its meaning is `ShiftLeftMultiplies`) |
| Bits.BitAnd | src/RouterOS.php:38-48 | `a & b` is at most each operand |
| Bits.BitOr | src/RouterOS.php:38-48 | the bitwise or of a and b is at least each operand and at most their sum |
| Bits.ShiftRightDivides | src/RouterOS.php:38 | `$len >> 8` is `$len` divided by 256, rounded down |
| Bits.ShiftLeftMultiplies | src/RouterOS.php:48 | `x << 8` is `x` times 256 |
| Bits.AndLowMask | src/RouterOS.php:38-48 | masking with k one-bits (`& 0xFF`, `& 0x3F`) keeps the remainder modulo 2^k |
| Bits.BitTest | src/RouterOS.php:48 | `$byte & 0x80` is non-zero exactly when the byte is at least 0x80 |
| Bits.OrDisjoint | src/RouterOS.php:38-48 | or-ing a value shifted left by k with one below 2^k is their sum |
| Codec.PrefixBytes | src/RouterOS.php:38 | for lengths 0x80..0x3FFF, the two prefix bytes are 0x80 plus the high byte, then the low byte |
| Codec.LengthPrefix | src/RouterOS.php:36-38 | one prefix byte below 0x80, two below 0x4000, none from 0x4000 on; the first byte has its top bit set exactly when two bytes are sent |
| Codec.EncodeWord | src/RouterOS.php:35-39 | what `write` sends for a word: the prefix for its length, then the word itself as the last bytes |
| Codec.TopBit | src/RouterOS.php:48 | the reader's top-bit test on a byte is the comparison with 0x80 |
| Codec.TwoByteLength | src/RouterOS.php:48 | the reader's two-byte expression is the low six bits of the first byte times 256, plus the second byte |
| Codec.DecodeLength | src/RouterOS.php:47-48 | a decoded length is always below 0x4000; it consumes one byte when the first is below 0x80 and two otherwise, all present |
| Codec.ReadWord | src/RouterOS.php:47-50 | a word read from position i ends after i and within the input |
| Codec.ReadReply | src/RouterOS.php:44-55 | a reply, when the input holds one, has at least one word and ends after position i, within the input |
| Codec.ReplyShape | src/RouterOS.php:44-55 | a reply is non-empty, ends with its only `!done`/`!trap` word, contains no `!re`, and stops within the input |
| Codec.PrefixRoundTrip | src/RouterOS.php:37-48 | the prefix written for any length below 0x4000 decodes to that length, consuming exactly the prefix |
| Codec.WordRoundTrip | src/RouterOS.php:35-50 | a word shorter than 0x4000 bytes is read back exactly, wherever it stands in the stream |
| Codec.LongWordNotReadBack | src/RouterOS.php:36-39 | from 0x4000 bytes on, the word goes out with no prefix, and the reader takes its first bytes as a length and never returns the word |
| Codec.UnframeEncodeWords | src/RouterOS.php:35-40 | words shorter than 0x4000 bytes, written one after another, are split back into the same words in order |
| Codec.ReplyRoundTrip | src/RouterOS.php:44-55 | when the router sends body words then `!done`/`!trap`, `read` returns the body without `!re` (empty words kept), then the terminal word, and stops right after it |
| Codec.ContainsIff | src/RouterOS.php:19 | the `strpos` test succeeds exactly when `!done` occurs somewhere in the word |
| Api.ParamWords | src/RouterOS.php:30 | one `=key=value` word per parameter, in insertion order |
| Api.CommandWords | src/RouterOS.php:29-31 | the command word, the parameter words, then `.tag=1`; with a non-empty command, no word is empty |
| Api.CommandReadBack | src/RouterOS.php:27-33 | a peer splitting what `comm` wrote gets exactly the command's words back, and no zero-length word ends the sentence |
| Api.LoginWords | src/RouterOS.php:14-16 | the three login words: `/login`, `=name=` followed by the login, `=password=` followed by the password; none is empty |
| Api.LoginAccepted | src/RouterOS.php:19 | login succeeds exactly when the reply has a first word and `!done` occurs in it |
| Api.LoginVerdict | src/RouterOS.php:19 | when the login reply has no body, login succeeds exactly when the reply is `!done` and fails on `!trap` |
| Api.RouterOS.Connect | src/RouterOS.php:9-20 | with no connection, returns false, sets `socket` to false and leaves the other fields unchanged; otherwise sends the three login words and consumes one reply; returns true exactly when that reply's first word contains `!done` |
| Api.RouterOS.Disconnect | src/RouterOS.php:22-25 | closes the connection exactly when one was opened |
| Api.RouterOS.Comm | src/RouterOS.php:27-33 | appends the encoded command words to the output and returns exactly the next reply, consuming it |
| Api.RouterOS.WriteCommand | src/RouterOS.php:29-31 | the loop over the parameters appends the encoding of the command, each parameter and `.tag=1`, in order |
| Api.RouterOS.Write | src/RouterOS.php:35-40 | appends exactly the word's length prefix and payload, computed with the source's bit operations |
| Api.RouterOS.SendByte | src/RouterOS.php:42 | appends one byte |
| Api.RouterOS.ReadByte | src/RouterOS.php:47 | consumes one byte and returns its code |
| Api.RouterOS.Fread | src/RouterOS.php:50 | delivers between one byte and the requested count, in order from the cursor |
| Api.RouterOS.ReadLength | src/RouterOS.php:47-48 | the source's bit-level decode gives the length `DecodeLength` specifies, consuming the same bytes |
| Api.RouterOS.ReadLine | src/RouterOS.php:47-50 | however `fread` splits the payload, the chunk loop returns exactly the word `ReadWord` specifies |
| Api.RouterOS.ReadReplyWord | src/RouterOS.php:47-52 | one pass of the loop: a terminal word is the last word of the reply; otherwise the rest of the reply follows, with this word kept unless it is `!re` |
| Api.RouterOS.Read | src/RouterOS.php:44-55 | returns exactly the reply `ReadReply` specifies, and leaves the cursor right after its terminal word |
| MikrotikManager.Truthy | src/MikrotikManagerServiceProvider.php:30 | a setting passes the guard only when set and non-empty; "0" never passes |
| MikrotikManager.Enabled | src/MikrotikManagerServiceProvider.php:30 | the guard passes only when address, user and password are all set |
| MikrotikManager.Interface | src/MikrotikManagerServiceProvider.php:28 | the configured interface, or `ether1` when unset |
| MikrotikManager.CommentTag | src/MikrotikManagerServiceProvider.php:40 | the comment is `Pelican: ` followed by the server's UUID |
| MikrotikManager.TagsDistinct | src/MikrotikManagerServiceProvider.php:40 | two servers get the same rule comment exactly when their UUIDs are equal |
| MikrotikManager.Decimal | src/MikrotikManagerServiceProvider.php:47-48 | a port is written as a non-empty string of decimal digits, with a leading zero only for port 0 |
| MikrotikManager.DecimalRoundTrip | src/MikrotikManagerServiceProvider.php:47-48 | the digits written for a port denote that port |
| MikrotikManager.AddCommand | src/MikrotikManagerServiceProvider.php:45-50 | an add command has the add word and eight attributes, the last the comment |
| MikrotikManager.PrintCommand | src/MikrotikManagerServiceProvider.php:54 | the listing command carries `?comment`=tag and `.proplist`=`.id`, which `comm` writes as the attribute words `=?comment=<tag>` and `=.proplist=.id` |
| ManagerWire.PrintWireWords | src/MikrotikManagerServiceProvider.php:54 | the words `comm` writes for the listing are the print word, `=?comment=<tag>`, `=.proplist=.id` and `.tag=1`; none begins with `?` |
| MikrotikManager.RemoveCommand | src/MikrotikManagerServiceProvider.php:56 | a deletion names exactly one rule by its `.id` |
| MikrotikManager.AsWrittenRows | src/MikrotikManagerServiceProvider.php:55-56 | as written, a reply of n words gives n rows and none has an `.id` |
| MikrotikManager.AsWrittenListings | src/MikrotikManagerServiceProvider.php:54-56 | as written, every listing of a session has one row per reply word and no row has an `.id` |
| MikrotikManager.ParsedListings | src/MikrotikManagerServiceProvider.php:54-56 | as intended, each listing is the parsed rows of its reply |
| MikrotikManager.Removals | src/MikrotikManagerServiceProvider.php:55-56 | no more deletions than rows |
| MikrotikManager.Issued | src/MikrotikManagerServiceProvider.php:42-60 | no allocation, no command |
| MikrotikManager.Plan | src/MikrotikManagerServiceProvider.php:23-65 | nothing is attempted exactly when the guard fails; commands are issued exactly when the guard passes and login succeeds |
| MikrotikManager.ParsedRows | src/MikrotikManagerServiceProvider.php:55-56 | one row per reply word; a word `=.id=<id>` names rule `<id>` |
| MikrotikManager.AddRules | src/MikrotikManagerServiceProvider.php:44-51 | the protocol loop issues one add command per protocol, in order |
| MikrotikManager.RemoveRules | src/MikrotikManagerServiceProvider.php:54-57 | the loop over the rows, with the `isset` test on each: the listing, then one delete per row that has an `.id`, in order |
| MikrotikManager.ManagePorts | src/MikrotikManagerServiceProvider.php:23-65 | the method's loops, over allocations and over each listing's rows, issue exactly the outcome `Plan` specifies, for whichever rows the listings hold |
| MikrotikManager.NoConfigNoTraffic | src/MikrotikManagerServiceProvider.php:25-30 | with address, user or password unset or empty, nothing is attempted, whatever the other inputs |
| MikrotikManager.FailedConnectNoCommands | src/MikrotikManagerServiceProvider.php:33-37 | a failed login issues no command |
| MikrotikManager.IssuedAdd | src/MikrotikManagerServiceProvider.php:42-51 | `add` issues two commands per allocation, tcp then udp, allocation after allocation |
| MikrotikManager.AddCommandAttributes | src/MikrotikManagerServiceProvider.php:45-50 | each add command is a dst-nat rule with the eight attributes in source order; to-ports and dst-port both denote the allocation's port; the interface and comment are the given ones |
| MikrotikManager.AddRun | src/MikrotikManagerServiceProvider.php:25-51 | end to end for `add`: two rules per allocation, on the configured interface (ether1 when unset), each with the comment `Pelican: <uuid>` |
| MikrotikManager.RemovalsFollowRows | src/MikrotikManagerServiceProvider.php:55-56 | the deletions after a listing: one per row that names a rule, each for a listed id; every listed id is deleted |
| MikrotikManager.IssuedRemove | src/MikrotikManagerServiceProvider.php:53-57 | `remove` issues one listing per allocation, always for the server's comment, and one delete per listed rule; nothing else |
| MikrotikManager.RemoveRun | src/MikrotikManagerServiceProvider.php:25-57 | end to end for `remove` as intended: one `Pelican: <uuid>` listing per allocation, one deletion per rule the replies name, only listings or deletions, and every rule a reply names is deleted |
| MikrotikManager.IssuedIncludes | src/MikrotikManagerServiceProvider.php:42-60 | a command issued for any one allocation is issued in the session |
| MikrotikManager.IssuedRemoveNoIds | src/MikrotikManagerServiceProvider.php:53-57 | when no row names a rule, `remove` sends exactly one listing per allocation and nothing else |
| MikrotikManager.AsWrittenRemoveRun | src/MikrotikManagerServiceProvider.php:25-57 | end to end for `remove` as written: whatever the router lists, exactly one `Pelican: <uuid>` listing per allocation, and no deletion |
| MikrotikManager.OtherActionsIssueNothing | src/MikrotikManagerServiceProvider.php:42-60 | an action other than `add` and `remove` issues no command between login and logout |
| MikrotikManager.AsWrittenRemovesNothing | src/MikrotikManagerServiceProvider.php:54-57 | with the listing read as written, the removal loop deletes nothing, whatever the router lists |
| MikrotikManager.SingleRemoval | src/MikrotikManagerServiceProvider.php:53-57 | removing one allocation sends the listing, then the deletions its rows call for |
| MikrotikManager.ListedRuleRemoval | src/MikrotikManagerServiceProvider.php:55-56 | read as intended, the listing `=.id=*1`, `!done` deletes rule `*1` and nothing else |
| MikrotikManager.AsWrittenMissesListedRule | src/MikrotikManagerServiceProvider.php:54-57 | a session removing one allocation whose listing reply is `=.id=*1`, `!done`: as written it sends only the listing; as intended it then deletes rule `*1` |
| MikrotikManager.ParsedRowsRemoveListedIds | src/MikrotikManagerServiceProvider.php:54-57 | read as intended, every rule id in the listing is deleted, and only ids in the listing are |

## Left out

- Sockets. The socket is the fields of `Api.RouterOS`. The result of `fsockopen` (host, port 8728, the three-second timeout, errno and errstr) is the parameter `router` of `Connect`. Real I/O, blocking and timeouts are not modelled.
- Api.RouterOS.Connect: its `ip` argument only chooses the host to dial. That choice is folded into the `router` parameter, so the argument is unused.
- Api.RouterOS.Read: requires the router to send a complete reply. So do `ReadLine`, `Comm` and `Connect`. At end of input the source never terminates: `fread` gives "", `ord` gives 0, and the loop appends empty words forever. Non-termination is not modelled.
- Api.RouterOS.Fread: the number of bytes a read delivers is chosen nondeterministically, between one and the count requested. Network timing is not modelled.
- Api.RouterOS.Disconnect: closing twice and writing after closing are not modelled; the write methods require an open connection.
- Longer length forms. The three-, four- and five-byte length forms of the RouterOS API are not in the client, so they are not in the model.
  - Words of 0x4000 bytes or more are sent with no prefix (`Codec.LongWordNotReadBack`).
  - A first byte of 0xC0 or more is decoded as a two-byte form.

  No word `managePorts` sends is that long, except through settings or allocation addresses of that size.
- MikrotikManager.ManagePorts: does not drive `Api.RouterOS` itself. Two things are inputs:
  - whether the login succeeded (`connected`);
  - the rows of the listing made for each allocation (`listings`). As the code is
    written these are `AsWrittenListings` of the replies, and `AsWrittenRemoveRun`
    states the outcome; `RemoveRun` states it for the intended `ParsedListings`.

  The result is the sequence of `comm` calls. What each call puts on the wire is stated separately, by `Api.RouterOS.Comm`. The replies to add and remove commands are ignored by the source, so they are not inputs.
- MikrotikManager.Outcome: `Ran` records only the `comm` calls of a session, not the closing of the socket by `$api->disconnect()`. Nor does `ConnectFailed` record that a refused login returns without closing the socket. The socket's life cycle is stated for `Api.RouterOS.Connect` and `Api.RouterOS.Disconnect` alone.
- Laravel glue. Not modelled:
  - `env()`'s own conversions of the words true, false, null and empty;
  - `Log::info`, `Log::error`;
  - `$server->load('allocations')`;
  - the `try`/`catch` around the session.

  Settings are `Option` strings, judged by PHP truthiness: unset, "" and "0" are false. `NoConfigNoTraffic` states the unset and empty cases.
- The event listeners that call `managePorts` are not part of this model. Neither are the rest of the service provider or the plugin's registration.

## Findings

| source | as written | input that shows it | evidently intended | confidence | as-written member | corrected member |
|---|---|---|---|---|---|---|
| src/MikrotikManagerServiceProvider.php:55-56 | `comm` returns the reply as a flat list of strings, and `isset($rule['.id'])` on a string is always false, so the removal loop never deletes a rule | the listing reply `["=.id=*1", "!done"]`, which names rule `*1` | every rule the listing names is deleted | not executed | MikrotikManager.AsWrittenRemoveRun | MikrotikManager.RemoveRun |

Both halves of this finding are in the model:

- As written, a listing's rows are `MikrotikManager.AsWrittenListings`.
  `AsWrittenRemoveRun` proves that a `remove` session then sends only the listings and
  deletes nothing, for any replies. `AsWrittenMissesListedRule` exhibits the reply
  above, for which the two readings differ.
- As intended, a listing's rows are `MikrotikManager.ParsedListings`, taking each
  `=.id=<id>` word as naming rule `<id>`. `RemoveRun` proves that every rule the replies
  name is deleted, and `ParsedRowsRemoveListedIds` that only those are.
