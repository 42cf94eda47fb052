# SA-MP server query client, modelled in Dafny

This project models the PHP client for the SA-MP server query protocol. The client talks to
a game server over UDP. The model has two parts:

- the class `SampQuery` (SampQuery.php);
- the endpoint script samp.php, which drives that class.

Each request datagram starts with a 10-byte session signature: "SAMP", the four parts of
the server's IPv4 address, and the port as two little-endian bytes. An opcode byte follows
(`i` info, `r` rules, `c` players, `d` detailed players, `p` ping), then an optional
payload. The server echoes those first 11 bytes, and the client cuts them off before it
decodes the rest.

Modules, in dependency order:

- `Wire` (wire.dfy) covers the byte type, `Option`/`Result`, little-endian u16/u32 reads
  and writes, and the `Decoded` cursor result (a value and the offset after it, or
  `Truncated`). It also has the counted-repetition reader `Many`, which is the shape of
  the source's `for` loops over a count, and its generic round-trip lemma.
- `Text` (text.dfy) is PHP's `trim` with its default character set, and
  `mb_convert_encoding` from ISO-8859-1 to UTF-8 (section 3 of RFC 3629) with its inverse.
- `OrderedMaps` (ordered_map.dfy) is a PHP array with string keys, as a sequence of pairs.
  Assigning to an existing key replaces the value in place. A new key is appended.
- `Protocol` (protocol.dfy) holds the opcodes, the signature, the header strip, and the
  Info, Rules and Players payloads:
  - a pure parser of each payload (the specification);
  - the source's cursor-advancing decoder as a method, proved equal to that parser;
  - an encoder, with a lemma that decoding an encoding gives the value back.
- `Session` (session.dfy) is the class `SampQuery`:
  - the signature is a `const` field, set once by the constructor;
  - `sendRequest`, `ping`, `getInfo`, `getRules`, `getPlayers` and `query` are methods;
  - each query method is proved equal to the pure `Outcome`;
  - `Create` is the constructor together with its validity checks and the ping probe.
- `Orchestrator` (orchestrator.dfy) is samp.php:
  - the loop that picks opcodes from the `opcodes` parameter, the default to Info, and the
    removal of a conflicting player-list opcode;
  - the loop that queries the server and files the answers under labels;
  - the final single-value-or-map rule.

The socket is replaced by parameters. Each query takes the datagram the server answered
with (`None` when nothing arrived). `ping` takes the four bytes it would have drawn at
random. The constructor takes what `filter_var` says of the host, and the address parts
`gethostbyname` resolved it to.

Some behaviour of the code that a reader might not expect:

- A player's score is read with `unpack('V')`, so it is an unsigned 32-bit value.
- samp.php removes only the first occurrence of the later player-list opcode. So "cdd"
  still queries both lists (`Orchestrator.ResolveKeepsRepeats`). The detailed answer then
  replaces the plain one under "players" when it is non-empty
  (`Orchestrator.GatherContents`).
- `query(Ping)` calls a method whose name is null, which throws an uncaught `Error`. The
  model shows this as the `Fatal` response (`Orchestrator.FatalIffPing`).
- The source does no bounds checks. When a field runs past the end of the payload, PHP's
  `substr` and `unpack` return short strings, empty strings or `false`, and `unpack` warns.
  The model makes every such payload a `ReadPastEnd` failure, which `query` reports as
  `Malformed`. The model's endpoint then skips it like an empty answer. PHP instead returns
  a partly filled array, which samp.php files under its label (see "## Left out").

## Model

| member | source | states |
|---|---|---|
| Protocol.OpcodesDistinct | SampQuery.php:8-14 | the five opcodes have pairwise distinct backing characters, and so pairwise distinct wire bytes |
| Protocol.TryFrom | samp.php:16 | `Opcode::tryFrom` returns the opcode whose backing character is the input, and none exactly when no opcode has that character |
| Protocol.Chr | SampQuery.php:38-43 | `chr` keeps the low byte of its argument, so an address part or port byte in 0..255 is written unchanged |
| Protocol.Signature | SampQuery.php:37-43 | the signature is 10 bytes: "SAMP", then `chr` of each of the four address parts, then the low and high port bytes; low + 256·high gives back the port |
| Protocol.StripHeader | SampQuery.php:180-182 | no datagram or an empty receive gives null; otherwise at most 2048 bytes are received, the first 11 are removed, and every remaining byte is the datagram's byte 11 places further on |
| Protocol.IsFalsy | SampQuery.php:56 | `!$response` holds for null, "" and "0", so every reply longer than one byte is decoded (the same test is at lines 88 and 114) |
| Protocol.EchoStripsToPayload | SampQuery.php:153-154 | a server that echoes a request back yields exactly that request's payload |
| Protocol.ParseInfo | SampQuery.php:58-82 | the reference Info parser; a payload shorter than its 17 fixed bytes (five header bytes, three length words) fails |
| Protocol.ReadText | SampQuery.php:70-76 | the nested `read` takes a u32 length and that many bytes, advances the offset past both, and returns the text trimmed and converted from Latin-1 |
| Protocol.DecodeInfo | SampQuery.php:58-82 | the cursor decoder of `getInfo` equals the Info parser: password is byte 0 ≠ 0, players and max players are the u16s at 1 and 3, then hostname, gamemode and language are read in order; a short payload fails |
| Protocol.RawFieldAt | SampQuery.php:71-74 | a field written as a u32 length and its bytes is read back whole, with the offset moved past it |
| Protocol.InfoHeaderOf | SampQuery.php:61-68 | the password byte and the two u16 counters are read back from where a server writes them |
| Protocol.ParseInfoStops | SampQuery.php:70-80 | if any of the three text fields runs past the payload, the Info parse fails |
| Protocol.ParseInfoOfFields | SampQuery.php:61-80 | when all three fields fit, the Info record is the header values and the three converted texts, in order |
| Protocol.InfoRoundTrip | SampQuery.php:61-80 | parsing an encoded Info payload, whatever follows it, gives the encoded header and each text trimmed and converted |
| Protocol.InfoTextPlain | SampQuery.php:75 | an ASCII text without surrounding whitespace is stored unchanged |
| Protocol.ParseRules | SampQuery.php:90-107 | the reference Rules parser; a payload without the count fails and a zero count gives the empty array |
| Protocol.ReadRule | SampQuery.php:96-102 | one pass of the rules loop reads a u8-length name and then a u8-length value, exactly as the rule-entry reader does |
| Protocol.DecodeRules | SampQuery.php:90-107 | the cursor decoder of `getRules` equals the Rules parser: a u16 count, then that many entries assigned in order |
| Protocol.RulesByLoop | SampQuery.php:94-105 | the Rules parser is the loop's sequence of assignments `$result[$rule] = $ruleValue`, one per entry read, and fails if an entry runs past the payload |
| Protocol.RulesBounded | SampQuery.php:91-105 | the rules map has distinct names and at most as many entries as the count announces |
| Protocol.RulesLastWins | SampQuery.php:104 | a name's value is the last value read for it, and a name is present exactly when some entry carried it |
| Protocol.RulesKeyOrder | SampQuery.php:95-105 | the rule names stand in the order each was first read, so a repeated name keeps the place of its first occurrence |
| Protocol.RuleEntryWidth | SampQuery.php:96-102 | a rule entry takes its name and value plus one length byte each, and stays within the payload |
| Protocol.RuleEntryAt | SampQuery.php:96-102 | an encoded rule found at an offset is read back with the offset past it |
| Protocol.RuleEntryIn | SampQuery.php:96-102 | an encoded rule is read back whatever precedes and follows it |
| Protocol.RuleReadsBack | SampQuery.php:96-102 | every rule whose name and value fit a one-byte length reads back from its encoding |
| Protocol.RulesRoundTrip | SampQuery.php:91-105 | parsing an encoded rule list gives the map made by assigning its rules in order |
| Protocol.ParsePlayers | SampQuery.php:116-149 | the reference Players parser; a payload without the count fails and a zero count gives the empty list |
| Protocol.ReadPlayer | SampQuery.php:122-146 | one pass of the players loop reads the id only for a detailed list, then the name and the u32 score, then the ping only for a detailed list |
| Protocol.DecodePlayers | SampQuery.php:116-149 | the cursor decoder of `getPlayers` equals the Players parser: a u16 count, then that many entries appended in wire order |
| Protocol.PlayersCount | SampQuery.php:117-147 | a parsed player list holds exactly the announced count of entries |
| Protocol.PlayersShape | SampQuery.php:125-144 | every entry is detailed exactly when the detailed list was asked for |
| Protocol.PlayerEntryWidth | SampQuery.php:125-144 | a plain entry takes its name plus 5 bytes, a detailed one its name plus 10, within the payload |
| Protocol.NameScoreOf | SampQuery.php:131-138 | a name behind its length byte, followed by a u32 score, is read with the offset moved past both |
| Protocol.NameScoreIn | SampQuery.php:131-138 | an encoded name and score read back whatever surrounds them |
| Protocol.PlainEntryOf | SampQuery.php:130-138 | a plain entry is exactly its name and score |
| Protocol.DetailedEntryOf | SampQuery.php:125-144 | a detailed entry is the id byte, the name and score, then the u32 ping |
| Protocol.DetailedEntryIn | SampQuery.php:125-144 | an encoded detailed entry reads back whatever surrounds it |
| Protocol.PlayerEntryIn | SampQuery.php:125-144 | an encoded player of the requested kind reads back whatever surrounds it |
| Protocol.PlayerReadsBack | SampQuery.php:122-146 | every player of the requested kind whose name, score and ping fit the wire widths reads back from its encoding |
| Protocol.PlayersRoundTrip | SampQuery.php:117-147 | parsing an encoded player list gives back every player in order |
| Wire.U16At | SampQuery.php:64 | `unpack('v')`: the little-endian value of two bytes, below 65536; `Wire.U16Bytes` is its inverse |
| Wire.U32At | SampQuery.php:71 | `unpack('V')`: the unsigned little-endian value of four bytes, below 2^32; `Wire.U32Bytes` is its inverse |
| Wire.U16Bytes | SampQuery.php:64 | two little-endian bytes that `unpack('v')` reads back as the value |
| Wire.U32Bytes | SampQuery.php:71 | four little-endian bytes that `unpack('V')` reads back as the value |
| Wire.U16BytesOfAt | SampQuery.php:64 | the bytes `unpack('v')` read are exactly the encoding of the value it returned |
| Wire.U32BytesOfAt | SampQuery.php:71 | the bytes `unpack('V')` read are exactly the encoding of the value it returned |
| Wire.ManyCount | SampQuery.php:121 | a counted loop that completes yields exactly the count of items |
| Wire.ManyReadsConcat | SampQuery.php:95-105 | a counted loop over the concatenated encodings of items, each of which reads back, yields all the items and ends just past them |
| Wire.ManyAll | SampQuery.php:121-147 | a property every single read satisfies holds of every item the loop yields |
| Text.TrimStart | SampQuery.php:75 | removes exactly the leading run of PHP's default trim characters |
| Text.TrimEnd | SampQuery.php:75 | removes exactly the trailing run of PHP's default trim characters |
| Text.Trim | SampQuery.php:75 | the result starts and ends with no trim character and is no longer than the input |
| Text.TrimCutsOnlyTrimmable | SampQuery.php:75 | `trim` returns a contiguous slice of the input, and everything it removes is a trim character |
| Text.TrimKeepsTrimmed | SampQuery.php:75 | text with no surrounding trim characters is unchanged |
| Text.TrimIdempotent | SampQuery.php:75 | trimming twice is the same as trimming once |
| Text.Utf8Of | SampQuery.php:75 | an ISO-8859-1 byte below 0x80 stays one byte, any other becomes the two-byte UTF-8 form of the same code point |
| Text.Latin1ToUtf8 | SampQuery.php:75 | the conversion at most doubles the length |
| Text.Latin1RoundTrip | SampQuery.php:75 | converting back from UTF-8 to ISO-8859-1 recovers the original bytes, so no information is lost |
| Text.AsciiUnchanged | SampQuery.php:75 | ASCII text is unchanged by the conversion |
| OrderedMaps.Put | SampQuery.php:104 | `$m[$k] = $v`: the array grows by at most one entry; `PutKeys`, `PutGet` and `PutOther` give its keys and values |
| OrderedMaps.PutKeys | SampQuery.php:104 | assigning to an existing key keeps the key order; a new key goes at the end |
| OrderedMaps.PutGet | SampQuery.php:104 | after an assignment the key holds the assigned value |
| OrderedMaps.PutOther | SampQuery.php:104 | an assignment leaves every other key's value unchanged |
| OrderedMaps.PutDistinct | SampQuery.php:104 | assignment never duplicates a key |
| OrderedMaps.FromPairsLastWins | SampQuery.php:104 | after a run of assignments each key holds the last value assigned to it |
| OrderedMaps.FromPairsKeys | SampQuery.php:104 | after a run of assignments a key is present exactly when it was assigned |
| OrderedMaps.FromPairsDistinct | SampQuery.php:104 | a run of assignments gives distinct keys, no more of them than assignments |
| OrderedMaps.FromPairsKeyOrder | SampQuery.php:104 | after a run of assignments the keys stand in the order each was first assigned |
| OrderedMaps.AssignFromMany | SampQuery.php:95-105 | the assigning loop gives the map of all entries read, or fails when any entry runs past the payload |
| Session.IsEmptyArray | samp.php:35 | `!$query` on an answer; an Info answer always has its keys, so it is never empty |
| Session.Outcome | SampQuery.php:157-168 | `query` fails with no handler exactly for Ping, and otherwise fails only on a malformed payload; a falsy reply gives the empty array; Info, Rules and player answers come only from their opcodes, rules keys are distinct and player entries are detailed exactly for `d` |
| Session.ConstructCheck | SampQuery.php:25-48 | construction succeeds exactly when the host is valid, the port is in 1..65535, the address has four parts and the ping probe succeeds |
| Session.SampQuery.constructor | SampQuery.php:37-43 | the session keeps its host and port and the signature of the resolved address and port |
| Session.SampQuery.Request | SampQuery.php:171-173 | the request is 11 bytes longer than the extra data: the session signature, the opcode byte, then the extra data |
| Session.SampQuery.SendRequest | SampQuery.php:170-183 | sends that request and returns the reply with its header removed, or null |
| Session.SampQuery.Ping | SampQuery.php:152-155 | sends the nonce with opcode `p`, and the server is alive exactly when the stripped reply equals that nonce |
| Session.SampQuery.GetInfo | SampQuery.php:53-83 | sends opcode `i` with no extra data, and returns the empty array for a falsy reply, otherwise the decoded Info record, as `Outcome` says |
| Session.SampQuery.GetRules | SampQuery.php:85-108 | sends opcode `r` with no extra data, and returns the empty array for a falsy reply, otherwise the decoded rules map, as `Outcome` says |
| Session.SampQuery.GetPlayers | SampQuery.php:111-150 | sends opcode `d` for the detailed list and `c` otherwise, and returns the empty array or the decoded list, as `Outcome` says |
| Session.SampQuery.Query | SampQuery.php:157-168 | Info goes to `getInfo`, Rules to `getRules`, Players and DetailedPlayers to `getPlayers` with the detail flag, and Ping has no handler and sends nothing; every other opcode sends its own request |
| Session.Create | SampQuery.php:20-49 | the constructor fails with the first failing check, in the source's order, or yields a fresh valid session holding that signature; the ping probe is sent exactly when the checks before it pass, and is the signature, `p` and the nonce |
| Session.PingEcho | SampQuery.php:152-155 | a server that echoes the ping request is alive, one that answers with other bytes is not |
| Session.RequestsShareSignature | SampQuery.php:171 | every request of a session starts with the same 10 bytes |
| Session.ShortReplyIsEmpty | SampQuery.php:53-56 | a datagram no longer than the header makes every handler return the empty array |
| Orchestrator.ValidOpcodes | samp.php:14-17 | the opcodes named in the parameter, no more of them than characters; `ValidOpcodesAppend` and `ValidOpcodesCount` give their order and number |
| Orchestrator.ValidOpcodesAppend | samp.php:15-17 | filtering a concatenation is concatenating the filtered parts, so input order is kept |
| Orchestrator.ValidOpcodesCount | samp.php:15-17 | each opcode occurs in the list as often as its character occurs in the input |
| Orchestrator.WithDefault | samp.php:20 | the list is never empty afterwards, and a non-empty list is unchanged |
| Orchestrator.FirstIndex | samp.php:23-24 | `array_search` gives the first position holding the opcode, or false when it is absent |
| Orchestrator.SelectOpcodes | samp.php:12-27 | the filtering loop, the default and the `unset` produce the selected opcode list |
| Orchestrator.DefaultsToInfo | samp.php:20 | with no parameter, or no valid opcode character, the list is exactly [Info] |
| Orchestrator.NoValidOpcodes | samp.php:14-17 | input without any opcode character yields an empty list |
| Orchestrator.Resolve | samp.php:23-27 | the `unset`: exactly one entry is removed when both player lists are present, and none otherwise; `ResolveDropsLater` says which |
| Orchestrator.ResolveKeeps | samp.php:27 | if `c` or `d` is missing the list is unchanged |
| Orchestrator.ResolveDropsLater | samp.php:23-27 | with both present, the one whose first occurrence is later loses that occurrence and everything else keeps its order |
| Orchestrator.ResolveKeepsEarlier | samp.php:23-27 | when each of `c` and `d` occurs once, exactly the earlier one survives |
| Orchestrator.ResolveKeepsRepeats | samp.php:23-27 | "cdd" keeps both player-list opcodes |
| Orchestrator.Label | samp.php:37-41 | the key an answer is filed under; both player lists share "players" |
| Orchestrator.Requests | samp.php:32-33 | the datagrams sent to query a list of opcodes: one per opcode, in order, each the session's request for that opcode |
| Orchestrator.Gather | samp.php:31-42 | the loop aborts on Ping, and otherwise builds the map of every non-empty answer under its label; it sends one request per opcode, in order, up to the first Ping |
| Orchestrator.AnyCountsSnoc | samp.php:35-41 | a label is filled after one more answer exactly when it was already filled or that answer is non-empty under it |
| Orchestrator.KeptKeys | samp.php:35-41 | a label is assigned exactly when some non-empty answer carries it |
| Orchestrator.GatherContents | samp.php:31-42 | a label is present exactly when some non-empty answer carries it, and holds the last such answer |
| Orchestrator.Shape | samp.php:44 | the whole map when it has more than one label, its only value when it has one, and false when it is empty |
| Orchestrator.HandleRequest | samp.php:11-58 | selection, construction and gathering in order give a constructor error, a fatal error or the shaped JSON value |
| Orchestrator.FatalIffPing | samp.php:32-33 | once the server is reached, the request ends in a fatal error exactly when the `opcodes` parameter contains `p` (the second `getInfo` fatal is not modelled; see "## Left out") |
| Orchestrator.SelectedHasPing | samp.php:14-27 | Ping is selected exactly when `p` occurs in the parameter |
| Orchestrator.ResolveKeepsPing | samp.php:27 | resolving the player-list conflict never adds or removes Ping |

## Left out

- Sockets are not modelled: `socket_create` and its failure, the receive timeout option, `socket_sendto`, `socket_recvfrom`, and `socket_close` in the destructor. Each received datagram is a parameter.
- `filter_var` and `gethostbyname` are not modelled. Host validity is a boolean parameter, and the resolved address parts are a sequence of integers. So `chr` of a non-numeric address part is not modelled.
- `random_bytes` is not modelled. `Session.SampQuery.Ping` and `Session.Create` take the four nonce bytes as a parameter.
- When a field runs past the end of the payload, PHP goes on with whatever `substr` and `unpack` return, with warnings from `unpack`, and returns a partly filled array that samp.php files under its label. For example the Info payload `01` gives a password of true, null counters and three empty texts. The decoders report `ReadPastEnd` instead, and the model's endpoint skips that answer.
- When only the final rule value or the final Info text (language) is cut short, PHP silently keeps the bytes present. For example the Rules payload `01 00 01 61 05 78` gives `['a' => 'x']`. The model fails on such a payload.
- The HTTP and JSON glue of samp.php is not modelled: the header, `json_encode`, the 500 response code, and the exception-to-JSON handlers. Two consequences:
  - `ServerError` stands for the caught constructor exception.
  - A `JsonException` from rule names, rule values or player names that are not valid UTF-8 is not modelled. These are raw bytes (SampQuery.php:97, 101, 133).
- The `$_GET` defaults for host and port, and the coercion of a port string to an integer, are not modelled. Host, port and `opcodes` are parameters.
- PHP turns a rule name that is a decimal integer string into an integer array key. The model keeps such names as byte strings.
- The nested `function read` is declared again on a second `getInfo` call in one request, which is a fatal error. It is not modelled: each Info query behaves the same.
- The constructor's `timeout` parameter only configures the socket, so it is not modelled.
