/** The SA-MP query wire format: opcodes, the per-session packet signature, the echoed
    header, and the Info, Rules and Players reply payloads (SampQuery.php). */
module Protocol {
  import opened Wire
  import opened Text
  import opened OrderedMaps

  // ---------------------------------------------------------------------------
  // Opcodes and request packets

  datatype Opcode = Info | Rules | Players | DetailedPlayers | Ping

  /** The enum's backing value, which is also the opcode byte on the wire. */
  function OpcodeChar(op: Opcode): char
  {
    match op
    case Info => 'i'
    case Rules => 'r'
    case Players => 'c'
    case DetailedPlayers => 'd'
    case Ping => 'p'
  }

  function OpcodeByte(op: Opcode): byte
  {
    OpcodeChar(op) as int
  }

  /** No two opcodes share a backing character, so none share a wire byte. */
  lemma OpcodesDistinct(a: Opcode, b: Opcode)
    requires a != b
    ensures OpcodeChar(a) != OpcodeChar(b) && OpcodeByte(a) != OpcodeByte(b)
  {
  }

  /** `Opcode::tryFrom`: the opcode whose value is `c`, if there is one. */
  function TryFrom(c: char): (r: Option<Opcode>)
    ensures r.Some? ==> OpcodeChar(r.value) == c
    ensures r.None? ==> forall op: Opcode :: OpcodeChar(op) != c
  {
    if c == 'i' then Some(Info)
    else if c == 'r' then Some(Rules)
    else if c == 'c' then Some(Players)
    else if c == 'd' then Some(DetailedPlayers)
    else if c == 'p' then Some(Ping)
    else None
  }

  /** "SAMP" in ASCII. */
  const Magic: seq<byte> := [83, 65, 77, 80]

  const SignatureLength := 10
  const HeaderLength := 11
  const MaxDatagram := 2048

  /** PHP's `chr`: the code point taken modulo 256. */
  function Chr(n: int): (b: byte)
    ensures 0 <= n < 256 ==> b == n
  {
    n % 256
  }

  /** The signature every request of a session starts with: "SAMP", the four parts of the
      resolved IPv4 address, then the port as two little-endian bytes. */
  function Signature(hostParts: seq<int>, port: int): (sig: seq<byte>)
    requires |hostParts| == 4 && 1 <= port <= 65535
    ensures |sig| == SignatureLength && sig[..4] == Magic
    ensures forall i :: 0 <= i < 4 ==> sig[4 + i] == Chr(hostParts[i])
    ensures sig[8] as int + 256 * sig[9] as int == port
  {
    Magic + [Chr(hostParts[0]), Chr(hostParts[1]), Chr(hostParts[2]), Chr(hostParts[3]),
             port % 256, (port / 256) % 256]
  }

  /** What `sendRequest` makes of the datagram `socket_recvfrom` delivered (None when
      nothing arrived): at most 2048 bytes are received, a zero-byte receive counts as
      failure, and the first 11 bytes are cut off (leaving nothing of a shorter reply). */
  function StripHeader(datagram: Option<seq<byte>>): (r: Option<seq<byte>>)
    ensures r.None? <==> datagram.None? || datagram.value == []
    ensures r.Some? ==> |r.value| == if |datagram.value| <= HeaderLength then 0
                                     else Min(|datagram.value|, MaxDatagram) - HeaderLength
    ensures r.Some? ==> forall k :: 0 <= k < |r.value| ==> r.value[k] == datagram.value[HeaderLength + k]
  {
    match datagram
    case None => None
    case Some(d) =>
      var got := if |d| <= MaxDatagram then d else d[..MaxDatagram];
      if got == [] then None
      else if |got| <= HeaderLength then Some([])
      else Some(got[HeaderLength..])
  }

  function Min(a: int, b: int): int
  {
    if a <= b then a else b
  }

  /** A server that echoes the request back makes the stripped reply exactly the request's
      payload: this is what `ping` relies on. */
  lemma EchoStripsToPayload(sig: seq<byte>, op: Opcode, payload: seq<byte>)
    requires |sig| == SignatureLength && |payload| <= MaxDatagram - HeaderLength
    ensures StripHeader(Some(sig + [OpcodeByte(op)] + payload)) == Some(payload)
  {
    var d := sig + [OpcodeByte(op)] + payload;
    assert d[HeaderLength..] == payload;
  }

  /** PHP's `!$response` on a string or null: null, "" and "0" are false, so every reply
      longer than one byte is decoded. */
  predicate IsFalsy(response: Option<seq<byte>>)
    ensures response.Some? && |response.value| > 1 ==> !IsFalsy(response)
  {
    response.None? || response.value == [] || response.value == ['0' as int]
  }

  // ---------------------------------------------------------------------------
  // Reply records

  datatype DecodeError = ReadPastEnd

  datatype InfoRecord = InfoRecord(
    password: bool,
    players: nat,
    maxPlayers: nat,
    hostname: seq<byte>,
    gamemode: seq<byte>,
    language: seq<byte>)

  /** A rule name and its value; each is prefixed by a one-byte length on the wire. */
  type Rule = (seq<byte>, seq<byte>)

  /** A rule whose name and value both fit a one-byte length. */
  predicate ShortRule(r: Rule)
  {
    |r.0| < 256 && |r.1| < 256
  }

  type RuleMap = OrderedMap<seq<byte>, seq<byte>>

  /** A player list entry; the detailed list adds an id in front and a ping at the end. */
  datatype Player =
    | Plain(name: seq<byte>, score: nat)
    | Detailed(id: byte, name: seq<byte>, score: nat, ping: nat)

  // ---------------------------------------------------------------------------
  // Info: u8 password, u16 players, u16 max players, three u32-length-prefixed strings

  /** A text field as getInfo stores it: trimmed, then converted from Latin-1 to UTF-8. */
  function InfoText(raw: seq<byte>): seq<byte>
  {
    Latin1ToUtf8(Trim(raw))
  }

  /** The bytes the nested `read` takes: a u32 length at `off`, then that many bytes. */
  function RawField(s: seq<byte>, off: nat): Decoded<seq<byte>>
  {
    if off + 4 > |s| then Truncated
    else
      var length := U32At(s, off);
      if off + 4 + length > |s| then Truncated
      else Ok(s[off + 4..off + 4 + length], off + 4 + length)
  }

  /** The Info reply: a payload shorter than its fixed parts (five header bytes and three
      length words) cannot be read. */
  function ParseInfo(s: seq<byte>): (r: Result<InfoRecord, DecodeError>)
    ensures |s| < 17 ==> r.Failure?
  {
    if |s| < 5 then Failure(ReadPastEnd)
    else
      match RawField(s, 5)
      case Truncated => Failure(ReadPastEnd)
      case Ok(hostname, afterHostname) =>
        match RawField(s, afterHostname)
        case Truncated => Failure(ReadPastEnd)
        case Ok(gamemode, afterGamemode) =>
          match RawField(s, afterGamemode)
          case Truncated => Failure(ReadPastEnd)
          case Ok(language, _) =>
            Success(InfoRecord(s[0] != 0, U16At(s, 1), U16At(s, 3),
                               InfoText(hostname), InfoText(gamemode), InfoText(language)))
  }

  /** `read($response, $offset)`: the text of the field at `offset`, trimmed and converted,
      and the offset just past it (the by-reference offset of the source). */
  method ReadText(response: seq<byte>, offset: nat) returns (r: Decoded<seq<byte>>)
    ensures r.Truncated? <==> RawField(response, offset).Truncated?
    ensures r.Ok? ==> r.value == InfoText(RawField(response, offset).value)
    ensures r.Ok? ==> r.next == RawField(response, offset).next
  {
    var cursor := offset;
    if cursor + 4 > |response| {
      return Truncated;
    }
    var length := U32At(response, cursor);
    cursor := cursor + 4;
    if cursor + length > |response| {
      return Truncated;
    }
    var str := response[cursor..cursor + length];
    cursor := cursor + length;
    assert RawField(response, offset) == Ok(str, cursor);
    return Ok(InfoText(str), cursor);
  }

  /** The body of `getInfo` once a reply payload is in hand. */
  method DecodeInfo(response: seq<byte>) returns (r: Result<InfoRecord, DecodeError>)
    ensures r == ParseInfo(response)
  {
    if |response| < 5 {
      return Failure(ReadPastEnd);
    }
    var offset: nat := 0;
    var password := response[offset] != 0;
    offset := offset + 1;
    var players := U16At(response, offset);
    offset := offset + 2;
    var maxPlayers := U16At(response, offset);
    offset := offset + 2;

    assert offset == 5 && players == U16At(response, 1) && maxPlayers == U16At(response, 3);

    ghost var hostRaw := RawField(response, offset);
    var field := ReadText(response, offset);
    if field.Truncated? {
      ParseInfoStops(response, hostRaw, Truncated, Truncated);
      return Failure(ReadPastEnd);
    }
    var hostname := field.value;
    offset := field.next;
    assert hostRaw == Ok(hostRaw.value, offset) && hostname == InfoText(hostRaw.value);

    ghost var gameRaw := RawField(response, offset);
    field := ReadText(response, offset);
    if field.Truncated? {
      ParseInfoStops(response, hostRaw, gameRaw, Truncated);
      return Failure(ReadPastEnd);
    }
    var gamemode := field.value;
    offset := field.next;
    assert gameRaw == Ok(gameRaw.value, offset) && gamemode == InfoText(gameRaw.value);

    ghost var langRaw := RawField(response, offset);
    field := ReadText(response, offset);
    if field.Truncated? {
      ParseInfoStops(response, hostRaw, gameRaw, langRaw);
      return Failure(ReadPastEnd);
    }
    var language := field.value;
    offset := field.next;
    assert langRaw == Ok(langRaw.value, offset) && language == InfoText(langRaw.value);

    ParseInfoOfFields(response, hostRaw, gameRaw, langRaw);
    return Success(InfoRecord(password, players, maxPlayers, hostname, gamemode, language));
  }

  function EncodeText(raw: seq<byte>): (e: seq<byte>)
    requires |raw| < 0x1_0000_0000
    ensures |e| == 4 + |raw|
  {
    U32Bytes(|raw|) + raw
  }

  /** An Info payload as a server writes it. */
  function EncodeInfo(password: byte, players: nat, maxPlayers: nat,
                      hostname: seq<byte>, gamemode: seq<byte>, language: seq<byte>): seq<byte>
    requires players < 0x1_0000 && maxPlayers < 0x1_0000
    requires |hostname| < 0x1_0000_0000 && |gamemode| < 0x1_0000_0000 && |language| < 0x1_0000_0000
  {
    [password] + U16Bytes(players) + U16Bytes(maxPlayers)
    + EncodeText(hostname) + EncodeText(gamemode) + EncodeText(language)
  }

  /** A field read where its encoding sits yields exactly its bytes and advances by 4 plus
      its declared length. */
  lemma {:induction false} RawFieldAt(s: seq<byte>, off: nat, raw: seq<byte>)
    requires |raw| < 0x1_0000_0000
    requires off + 4 + |raw| <= |s| && s[off..off + 4 + |raw|] == EncodeText(raw)
    ensures RawField(s, off) == Ok(raw, off + 4 + |raw|)
  {
    var e := s[off..off + 4 + |raw|];
    var b := U32Bytes(|raw|);
    assert s[off..off + 4] == e[..4] == b;
    U32AtSlice(s, off, b);
    assert s[off + 4..off + 4 + |raw|] == e[4..] == raw;
  }

  /** Decoding an encoded Info payload, followed by anything, gives back the flag, both
      counts and the three strings in order, each trimmed and converted. */
  lemma {:induction false} InfoRoundTrip(password: byte, players: nat, maxPlayers: nat,
                      hostname: seq<byte>, gamemode: seq<byte>, language: seq<byte>, rest: seq<byte>)
    requires players < 0x1_0000 && maxPlayers < 0x1_0000
    requires |hostname| < 0x1_0000_0000 && |gamemode| < 0x1_0000_0000 && |language| < 0x1_0000_0000
    ensures ParseInfo(EncodeInfo(password, players, maxPlayers, hostname, gamemode, language) + rest)
         == Success(InfoRecord(password != 0, players, maxPlayers,
                               InfoText(hostname), InfoText(gamemode), InfoText(language)))
  {
    var head := [password] + U16Bytes(players) + U16Bytes(maxPlayers);
    var eh, eg, el := EncodeText(hostname), EncodeText(gamemode), EncodeText(language);
    var s := head + eh + eg + el + rest;
    assert s == EncodeInfo(password, players, maxPlayers, hostname, gamemode, language) + rest;
    var o1 := 5 + |eh|;
    var o2 := o1 + |eg|;
    assert s[0] == password && U16At(s, 1) == players && U16At(s, 3) == maxPlayers by {
      InfoHeaderOf(password, players, maxPlayers, eh + eg + el + rest);
      assert s[..5] == head;
    }
    var p1, p2, p3 := head + eh, head + eh + eg, head + eh + eg + el;
    assert s[5..o1] == eh by {
      PrefixSlice(p3, rest, 5, o1);
      PrefixSlice(p2, el, 5, o1);
      PrefixSlice(p1, eg, 5, o1);
      LastPart(head, eh);
    }
    assert s[o1..o2] == eg by {
      PrefixSlice(p3, rest, o1, o2);
      PrefixSlice(p2, el, o1, o2);
      LastPart(p1, eg);
    }
    assert s[o2..o2 + |el|] == el by {
      PrefixSlice(p3, rest, o2, o2 + |el|);
      LastPart(p2, el);
    }
    RawFieldAt(s, 5, hostname);
    RawFieldAt(s, o1, gamemode);
    RawFieldAt(s, o2, language);
    ParseInfoOfFields(s, Ok(hostname, o1), Ok(gamemode, o2), Ok(language, o2 + |el|));
  }

  lemma {:induction false} InfoHeaderOf(password: byte, players: nat, maxPlayers: nat, tail: seq<byte>)
    requires players < 0x1_0000 && maxPlayers < 0x1_0000
    ensures var s := [password] + U16Bytes(players) + U16Bytes(maxPlayers) + tail;
            s[0] == password && U16At(s, 1) == players && U16At(s, 3) == maxPlayers
  {
    var s := [password] + U16Bytes(players) + U16Bytes(maxPlayers) + tail;
    assert s[1..3] == U16Bytes(players) && s[3..5] == U16Bytes(maxPlayers);
    U16AtSlice(s, 1, U16Bytes(players));
    U16AtSlice(s, 3, U16Bytes(maxPlayers));
  }

  /** ParseInfo fails as soon as one of the three text fields runs past the end. */
  lemma ParseInfoStops(s: seq<byte>, h: Decoded<seq<byte>>, g: Decoded<seq<byte>>, l: Decoded<seq<byte>>)
    requires |s| >= 5 && h == RawField(s, 5)
    requires h.Ok? ==> g == RawField(s, h.next)
    requires h.Ok? && g.Ok? ==> l == RawField(s, g.next)
    requires h.Truncated? || g.Truncated? || l.Truncated?
    ensures ParseInfo(s) == Failure(ReadPastEnd)
  {
  }

  lemma PrefixSlice<T>(a: seq<T>, b: seq<T>, i: nat, j: nat)
    requires i <= j <= |a|
    ensures (a + b)[i..j] == a[i..j]
  {
  }

  lemma LastPart<T>(a: seq<T>, b: seq<T>)
    ensures (a + b)[|a|..|a| + |b|] == b
  {
  }

  /** ParseInfo in terms of the three fields it reads. */
  lemma ParseInfoOfFields(s: seq<byte>, h: Decoded<seq<byte>>, g: Decoded<seq<byte>>, l: Decoded<seq<byte>>)
    requires |s| >= 5 && h == RawField(s, 5) && h.Ok?
    requires g == RawField(s, h.next) && g.Ok?
    requires l == RawField(s, g.next) && l.Ok?
    ensures ParseInfo(s) == Success(InfoRecord(s[0] != 0, U16At(s, 1), U16At(s, 3),
                                               InfoText(h.value), InfoText(g.value), InfoText(l.value)))
  {
  }

  /** Text that has no trimmable ends and is plain ASCII is stored exactly as sent. */
  lemma {:induction false} InfoTextPlain(raw: seq<byte>)
    requires IsTrimmed(raw) && forall k :: 0 <= k < |raw| ==> raw[k] < 0x80
    ensures InfoText(raw) == raw
  {
    TrimKeepsTrimmed(raw);
    AsciiUnchanged(raw);
  }

  // ---------------------------------------------------------------------------
  // Rules: u16 count, then count x (u8 name length, name, u8 value length, value)

  function RuleEntry(s: seq<byte>, off: nat): Decoded<Rule>
  {
    if off + 1 > |s| then Truncated
    else
      var nameEnd := off + 1 + s[off];
      if nameEnd + 1 > |s| then Truncated
      else
        var valueEnd := nameEnd + 1 + s[nameEnd];
        if valueEnd > |s| then Truncated
        else Ok((s[off + 1..nameEnd], s[nameEnd + 1..valueEnd]), valueEnd)
  }

  /** The Rules reply: a payload too short for the count fails, and a zero count gives the
      empty array. */
  function ParseRules(s: seq<byte>): (r: Result<RuleMap, DecodeError>)
    ensures |s| < 2 ==> r.Failure?
    ensures |s| >= 2 && U16At(s, 0) == 0 ==> r == Success([])
  {
    if |s| < 2 then Failure(ReadPastEnd)
    else
      match Many(RuleEntry, s, 2, U16At(s, 0))
      case Truncated => Failure(ReadPastEnd)
      case Ok(rules, _) => Success(FromPairs(rules))
  }

  /** One pass of `getRules`' loop body: a length-prefixed name, then a length-prefixed
      value, read from `offset` on. */
  method ReadRule(response: seq<byte>, offset: nat) returns (r: Decoded<Rule>)
    ensures r == RuleEntry(response, offset)
  {
    var cursor := offset;
    if cursor + 1 > |response| {
      return Truncated;
    }
    var ruleLen := response[cursor];
    cursor := cursor + 1;
    if cursor + ruleLen + 1 > |response| {
      return Truncated;
    }
    var rule := response[cursor..cursor + ruleLen];
    cursor := cursor + ruleLen;

    var ruleValueLen := response[cursor];
    cursor := cursor + 1;
    if cursor + ruleValueLen > |response| {
      return Truncated;
    }
    var ruleValue := response[cursor..cursor + ruleValueLen];
    cursor := cursor + ruleValueLen;
    return Ok((rule, ruleValue), cursor);
  }

  /** The body of `getRules` once a reply payload is in hand. */
  method DecodeRules(response: seq<byte>) returns (r: Result<RuleMap, DecodeError>)
    ensures r == ParseRules(response)
  {
    if |response| < 2 {
      return Failure(ReadPastEnd);
    }
    var offset: nat := 0;
    var numRules := U16At(response, offset);
    offset := offset + 2;

    var result: RuleMap := [];
    RulesByLoop(response);
    for i := 0 to numRules
      invariant AssignFrom(RuleEntry, response, offset, numRules - i, result)
             == AssignFrom(RuleEntry, response, 2, numRules, [])
    {
      var entry := ReadRule(response, offset);
      if entry.Truncated? {
        return Failure(ReadPastEnd);
      }
      AssignFromStep(RuleEntry, response, offset, numRules - i, result, entry.value, entry.next);
      var (rule, ruleValue) := entry.value;
      offset := entry.next;
      result := Put(result, rule, ruleValue);
    }
    return Success(result);
  }

  /** ParseRules is what `getRules`' loop computes: assign each rule in the order read. */
  lemma RulesByLoop(s: seq<byte>)
    requires |s| >= 2
    ensures ParseRules(s) == match AssignFrom(RuleEntry, s, 2, U16At(s, 0), [])
                             case None => Failure(ReadPastEnd)
                             case Some(m) => Success(m)
  {
    var n := U16At(s, 0);
    AssignFromMany(RuleEntry, s, 2, n, []);
    if Many(RuleEntry, s, 2, n).Ok? {
      AppendNil(Many(RuleEntry, s, 2, n).value);
    }
  }

  /** A Rules reply never yields a name twice, and yields at most as many names as the
      count announces. */
  lemma RulesBounded(s: seq<byte>)
    requires ParseRules(s).Success?
    ensures DistinctKeys(ParseRules(s).value) && |ParseRules(s).value| <= U16At(s, 0)
  {
    var read := Many(RuleEntry, s, 2, U16At(s, 0)).value;
    ManyCount(RuleEntry, s, 2, U16At(s, 0));
    FromPairsDistinct(read);
  }

  /** A name sent several times keeps the value sent last, and a name is present exactly
      when some entry of the reply carries it. */
  lemma RulesLastWins(s: seq<byte>, name: seq<byte>)
    requires ParseRules(s).Success?
    ensures var read := Many(RuleEntry, s, 2, U16At(s, 0)).value;
            Get(ParseRules(s).value, name) == LastValue(read, name)
            && (name in Keys(ParseRules(s).value) <==> exists i :: 0 <= i < |read| && read[i].0 == name)
  {
    var read := Many(RuleEntry, s, 2, U16At(s, 0)).value;
    FromPairsLastWins(read, name);
    FromPairsKeys(read, name);
  }

  /** The rule names stand in the order each was first read; a repeated name keeps the
      place of its first occurrence. */
  lemma RulesKeyOrder(s: seq<byte>)
    requires ParseRules(s).Success?
    ensures Keys(ParseRules(s).value) == FirstOccurrences(Keys(Many(RuleEntry, s, 2, U16At(s, 0)).value))
  {
    FromPairsKeyOrder(Many(RuleEntry, s, 2, U16At(s, 0)).value);
  }

  /** A rule entry takes its name and value plus one length byte for each. */
  lemma RuleEntryWidth(s: seq<byte>, off: nat)
    requires RuleEntry(s, off).Ok?
    ensures var r := RuleEntry(s, off);
            r.next == off + 2 + |r.value.0| + |r.value.1| && r.next <= |s|
  {
  }

  /** The bytes a server writes for one rule. */
  function EncodeRule(r: Rule): (e: seq<byte>)
    ensures |e| == 2 + |r.0| + |r.1|
  {
    [|r.0| % 256] + r.0 + [|r.1| % 256] + r.1
  }

  /** A Rules reply payload: the count, then each rule. */
  function EncodeRules(rules: seq<Rule>): seq<byte>
    requires |rules| < 0x1_0000
  {
    U16Bytes(|rules|) + Concat(EncodeRule, rules)
  }

  lemma RuleEntryAt(s: seq<byte>, off: nat, r: Rule)
    requires ShortRule(r)
    requires off + |EncodeRule(r)| <= |s| && s[off..off + |EncodeRule(r)|] == EncodeRule(r)
    ensures RuleEntry(s, off) == Ok(r, off + |EncodeRule(r)|)
  {
    var e := EncodeRule(r);
    var n := |r.0|;
    var nameEnd := off + 1 + n;
    var t := s[off..off + |e|];
    assert e[0] == n && e[1..1 + n] == r.0 && e[1 + n] == |r.1| && e[2 + n..] == r.1;
    assert s[off] == t[0];
    assert s[nameEnd] == t[1 + n];
    SliceOfSlice(s, off, off + |e|, 1, 1 + n);
    SliceOfSlice(s, off, off + |e|, 2 + n, |e|);
  }

  lemma RuleEntryIn(p: seq<byte>, r: Rule, tail: seq<byte>)
    requires ShortRule(r)
    ensures RuleEntry(p + EncodeRule(r) + tail, |p|) == Ok(r, |p| + |EncodeRule(r)|)
  {
    var e := EncodeRule(r);
    PrefixSlice(p + e, tail, |p|, |p| + |e|);
    LastPart(p, e);
    RuleEntryAt(p + e + tail, |p|, r);
  }

  /** Every rule reads back from its own encoding. */
  lemma RuleReadsBack(r: Rule)
    requires ShortRule(r)
    ensures ReadsBack(RuleEntry, EncodeRule, r)
  {
    forall p: seq<byte>, t: seq<byte> ensures RuleEntry(p + EncodeRule(r) + t, |p|) == Ok(r, |p| + |EncodeRule(r)|) {
      RuleEntryIn(p, r, t);
    }
  }

  /** Decoding what a server encodes gives back every rule, collected as `getRules` does,
      whatever follows the last rule. */
  lemma RulesRoundTrip(rules: seq<Rule>, rest: seq<byte>)
    requires |rules| < 0x1_0000 && forall i :: 0 <= i < |rules| ==> ShortRule(rules[i])
    ensures ParseRules(EncodeRules(rules) + rest) == Success(FromPairs(rules))
  {
    var head := U16Bytes(|rules|);
    var s := EncodeRules(rules) + rest;
    PrefixSlice(head + Concat(EncodeRule, rules), rest, 0, 2);
    U16AtSlice(s, 0, head);
    forall i | 0 <= i < |rules| ensures ReadsBack(RuleEntry, EncodeRule, rules[i]) {
      RuleReadsBack(rules[i]);
    }
    ManyReadsConcat(RuleEntry, EncodeRule, head, rules, rest);
  }

  // ---------------------------------------------------------------------------
  // Players: u16 count, then count x ([u8 id], u8 name length, name, u32 score, [u32 ping])

  /** The part every entry has: a name behind a one-byte length, then a u32 score. */
  function NameScore(s: seq<byte>, off: nat): Decoded<(seq<byte>, nat)>
  {
    if off + 1 > |s| then Truncated
    else
      var nameEnd := off + 1 + s[off];
      if nameEnd + 4 > |s| then Truncated
      else Ok((s[off + 1..nameEnd], U32At(s, nameEnd)), nameEnd + 4)
  }

  /** One entry of a player list from `off` on; the detailed list adds the id in front and
      the ping at the end. */
  function PlayerEntry(s: seq<byte>, off: nat, detailed: bool): Decoded<Player>
  {
    if !detailed then
      match NameScore(s, off)
      case Truncated => Truncated
      case Ok(ns, next) => Ok(Plain(ns.0, ns.1), next)
    else if off + 1 > |s| then Truncated
    else
      match NameScore(s, off + 1)
      case Truncated => Truncated
      case Ok(ns, next) =>
        if next + 4 > |s| then Truncated
        else Ok(Detailed(s[off], ns.0, ns.1, U32At(s, next)), next + 4)
  }

  function PlainEntry(s: seq<byte>, off: nat): Decoded<Player>
  {
    PlayerEntry(s, off, false)
  }

  function DetailedEntry(s: seq<byte>, off: nat): Decoded<Player>
  {
    PlayerEntry(s, off, true)
  }

  /** The entry reader of the list that was asked for. */
  function PlayerReader(detailed: bool): (seq<byte>, nat) -> Decoded<Player>
  {
    if detailed then DetailedEntry else PlainEntry
  }

  lemma ReaderReads(detailed: bool, s: seq<byte>, off: nat)
    ensures PlayerReader(detailed)(s, off) == PlayerEntry(s, off, detailed)
  {
  }

  /** The Players reply: a payload too short for the count fails, and a zero count gives
      the empty list. */
  function ParsePlayers(s: seq<byte>, detailed: bool): (r: Result<seq<Player>, DecodeError>)
    ensures |s| < 2 ==> r.Failure?
    ensures |s| >= 2 && U16At(s, 0) == 0 ==> r == Success([])
  {
    if |s| < 2 then Failure(ReadPastEnd)
    else
      match Many(PlayerReader(detailed), s, 2, U16At(s, 0))
      case Truncated => Failure(ReadPastEnd)
      case Ok(players, _) => Success(players)
  }

  /** One pass of `getPlayers`' loop body. */
  method ReadPlayer(response: seq<byte>, offset: nat, detailed: bool) returns (r: Decoded<Player>)
    ensures r == PlayerEntry(response, offset, detailed)
  {
    var cursor := offset;
    var id := 0;
    if detailed {
      if cursor + 1 > |response| {
        return Truncated;
      }
      id := response[cursor];
      cursor := cursor + 1;
    }
    if cursor + 1 > |response| {
      return Truncated;
    }
    var nameLength := response[cursor];
    cursor := cursor + 1;
    if cursor + nameLength + 4 > |response| {
      return Truncated;
    }
    var name := response[cursor..cursor + nameLength];
    cursor := cursor + nameLength;
    var score := U32At(response, cursor);
    cursor := cursor + 4;
    if detailed {
      if cursor + 4 > |response| {
        return Truncated;
      }
      var ping := U32At(response, cursor);
      cursor := cursor + 4;
      return Ok(Detailed(id, name, score, ping), cursor);
    }
    return Ok(Plain(name, score), cursor);
  }

  /** The body of `getPlayers` once a reply payload is in hand. */
  method DecodePlayers(response: seq<byte>, detailed: bool) returns (r: Result<seq<Player>, DecodeError>)
    ensures r == ParsePlayers(response, detailed)
  {
    if |response| < 2 {
      return Failure(ReadPastEnd);
    }
    var offset: nat := 0;
    var playerCount := U16At(response, offset);
    offset := offset + 2;

    var players: seq<Player> := [];
    ghost var read := PlayerReader(detailed);
    ThenNothing(Many(read, response, offset, playerCount));
    for p := 0 to playerCount
      invariant Then(players, Many(read, response, offset, playerCount - p)) == Many(read, response, 2, playerCount)
    {
      var player := ReadPlayer(response, offset, detailed);
      ReaderReads(detailed, response, offset);
      if player.Truncated? {
        ManyStops(read, response, offset, playerCount - p);
        return Failure(ReadPastEnd);
      }
      ManyAppendStep(read, response, offset, playerCount - p, players, player.value, player.next);
      offset := player.next;
      players := players + [player.value];
    }
    AppendNil(players);
    return Success(players);
  }

  /** A successful list holds exactly as many players as its count announces. */
  lemma PlayersCount(s: seq<byte>, detailed: bool)
    requires ParsePlayers(s, detailed).Success?
    ensures |ParsePlayers(s, detailed).value| == U16At(s, 0)
  {
    ManyCount(PlayerReader(detailed), s, 2, U16At(s, 0));
  }

  /** Every entry of a detailed list carries an id and a ping, and no entry of a plain list does. */
  lemma PlayersShape(s: seq<byte>, detailed: bool)
    requires ParsePlayers(s, detailed).Success?
    ensures forall i :: 0 <= i < |ParsePlayers(s, detailed).value| ==> ParsePlayers(s, detailed).value[i].Detailed? == detailed
  {
    var P := (p: Player) => p.Detailed? == detailed;
    ManyAll(PlayerReader(detailed), P, s, 2, U16At(s, 0));
  }

  /** A plain entry takes its name plus five bytes, a detailed one its name plus ten, and
      neither reads past the payload. */
  lemma PlayerEntryWidth(s: seq<byte>, off: nat, detailed: bool)
    requires PlayerEntry(s, off, detailed).Ok?
    ensures var r := PlayerEntry(s, off, detailed);
            r.next == off + |r.value.name| + (if detailed then 10 else 5) && r.next <= |s|
  {
  }

  /** The bytes a server writes for a name and a score; pack('V') keeps the low 32 bits. */
  function EncodeNameScore(name: seq<byte>, score: nat): (e: seq<byte>)
    ensures |e| == 5 + |name|
  {
    [|name| % 256] + name + U32Bytes(score % 0x1_0000_0000)
  }

  /** The bytes a server writes for one player. */
  function EncodePlayer(p: Player): seq<byte>
  {
    match p
    case Plain(name, score) => EncodeNameScore(name, score)
    case Detailed(id, name, score, ping) => [id] + EncodeNameScore(name, score) + U32Bytes(ping % 0x1_0000_0000)
  }

  /** A Players reply payload: the count, then each player. */
  function EncodePlayers(players: seq<Player>): seq<byte>
    requires |players| < 0x1_0000
  {
    U16Bytes(|players|) + Concat(EncodePlayer, players)
  }

  /** A player the list asked for can hold: the right shape, a name that fits a one-byte
      length, and a score and ping that fit 32 bits. */
  predicate Fits(p: Player, detailed: bool)
  {
    p.Detailed? == detailed && |p.name| < 256 && p.score < 0x1_0000_0000
    && (p.Detailed? ==> p.ping < 0x1_0000_0000)
  }

  /** A value below the modulus is its own remainder. */
  lemma SmallMod(x: nat, m: nat)
    requires x < m
    ensures x % m == x
  {
  }

  lemma NameScoreOf(s: seq<byte>, o: nat, name: seq<byte>, score: nat)
    requires o + 5 + |name| <= |s| && s[o] == |name| && s[o + 1..o + 1 + |name|] == name
    requires U32At(s, o + 1 + |name|) == score
    ensures NameScore(s, o) == Ok((name, score), o + 5 + |name|)
  {
  }

  lemma NameScoreIn(pre: seq<byte>, name: seq<byte>, score: nat, t: seq<byte>)
    requires |name| < 256 && score < 0x1_0000_0000
    ensures NameScore(pre + EncodeNameScore(name, score) + t, |pre|) == Ok((name, score), |pre| + 5 + |name|)
  {
    var e := EncodeNameScore(name, score);
    var s := pre + e + t;
    var o, n := |pre|, |name|;
    var b := U32Bytes(score);
    SmallMod(score, 0x1_0000_0000);
    SmallMod(n, 256);
    assert e == [n] + name + b;
    PrefixSlice(pre + e, t, o, o + |e|);
    LastPart(pre, e);
    assert e[0] == n && e[1..1 + n] == name && e[1 + n..] == b;
    assert s[o] == e[0];
    SliceOfSlice(s, o, o + |e|, 1, 1 + n);
    SliceOfSlice(s, o, o + |e|, 1 + n, |e|);
    U32AtSlice(s, o + 1 + n, b);
    NameScoreOf(s, o, name, score);
  }

  lemma PlainEntryOf(s: seq<byte>, o: nat, name: seq<byte>, score: nat, next: nat)
    requires NameScore(s, o) == Ok((name, score), next)
    ensures PlayerEntry(s, o, false) == Ok(Plain(name, score), next)
  {
  }

  lemma DetailedEntryOf(s: seq<byte>, o: nat, name: seq<byte>, score: nat, next: nat)
    requires o + 1 <= |s| && NameScore(s, o + 1) == Ok((name, score), next) && next + 4 <= |s|
    ensures PlayerEntry(s, o, true) == Ok(Detailed(s[o], name, score, U32At(s, next)), next + 4)
  {
  }

  lemma PlayerEntryIn(pre: seq<byte>, p: Player, t: seq<byte>, detailed: bool)
    requires Fits(p, detailed)
    ensures PlayerEntry(pre + EncodePlayer(p) + t, |pre|, detailed) == Ok(p, |pre| + |EncodePlayer(p)|)
  {
    if !detailed {
      NameScoreIn(pre, p.name, p.score, t);
      PlainEntryOf(pre + EncodePlayer(p) + t, |pre|, p.name, p.score, |pre| + 5 + |p.name|);
    } else {
      DetailedEntryIn(pre, p.id, p.name, p.score, p.ping, t);
    }
  }

  lemma DetailedEntryIn(pre: seq<byte>, id: byte, name: seq<byte>, score: nat, ping: nat, t: seq<byte>)
    requires |name| < 256 && score < 0x1_0000_0000 && ping < 0x1_0000_0000
    ensures var e := EncodePlayer(Detailed(id, name, score, ping));
            PlayerEntry(pre + e + t, |pre|, true) == Ok(Detailed(id, name, score, ping), |pre| + |e|)
  {
    var ens := EncodeNameScore(name, score);
    var c := U32Bytes(ping);
    var q := pre + [id];
    var s := q + ens + c + t;
    var e := EncodePlayer(Detailed(id, name, score, ping));
    SmallMod(ping, 0x1_0000_0000);
    assert e == [id] + ens + c;
    AppendAssoc([id], ens, c);
    AppendAssoc(pre, [id], ens + c);
    AppendAssoc(q, ens, c);
    assert pre + e == q + ens + c;
    AppendAssoc(q + ens, c, t);
    AppendAssoc(q, ens, c + t);
    NameScoreIn(q, name, score, c + t);
    PrefixSlice(q + ens + c, t, |q + ens|, |q + ens| + 4);
    LastPart(q + ens, c);
    U32AtSlice(s, |q + ens|, c);
    assert s[|pre|] == id;
    DetailedEntryOf(s, |pre|, name, score, |q + ens|);
  }

  /** Every player the list can hold reads back from its own encoding. */
  lemma PlayerReadsBack(p: Player, detailed: bool)
    requires Fits(p, detailed)
    ensures ReadsBack(PlayerReader(detailed), EncodePlayer, p)
  {
    forall pre: seq<byte>, t: seq<byte>
      ensures PlayerReader(detailed)(pre + EncodePlayer(p) + t, |pre|) == Ok(p, |pre| + |EncodePlayer(p)|)
    {
      ReaderReads(detailed, pre + EncodePlayer(p) + t, |pre|);
      PlayerEntryIn(pre, p, t, detailed);
    }
  }

  /** Decoding what a server encodes gives back every player in order, whatever follows
      the last one. */
  lemma PlayersRoundTrip(players: seq<Player>, detailed: bool, rest: seq<byte>)
    requires |players| < 0x1_0000 && forall i :: 0 <= i < |players| ==> Fits(players[i], detailed)
    ensures ParsePlayers(EncodePlayers(players) + rest, detailed) == Success(players)
  {
    var head := U16Bytes(|players|);
    var s := EncodePlayers(players) + rest;
    PrefixSlice(head + Concat(EncodePlayer, players), rest, 0, 2);
    U16AtSlice(s, 0, head);
    forall i | 0 <= i < |players| ensures ReadsBack(PlayerReader(detailed), EncodePlayer, players[i]) {
      PlayerReadsBack(players[i], detailed);
    }
    ManyReadsConcat(PlayerReader(detailed), EncodePlayer, head, players, rest);
  }
}
