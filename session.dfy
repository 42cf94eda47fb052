/** A query session with one server (class SampQuery in SampQuery.php). The UDP socket is
    not modelled: each request is answered by a datagram that the caller passes in (None
    when nothing arrived before the timeout), and the nonce `ping` sends is passed in too. */
module Session {
  import opened Wire
  import opened OrderedMaps
  import opened Protocol

  /** Why the constructor throws, in the order it checks. */
  datatype ConstructError =
    | InvalidHost   // neither an IP address nor a host name
    | InvalidPort   // outside 1..65535
    | BadAddress    // the resolved address does not split into four parts
    | Offline       // the ping probe was not answered with the bytes sent

  /** How `query` can fail: a reply too short for what it announces, or an opcode that has
      no handler (`query(Opcode::Ping)` calls a method whose name is null). */
  datatype QueryError = Malformed | UnhandledOpcode

  /** What `query` returns: the empty array for a falsy reply, or the decoded reply. */
  datatype Value =
    | NoData
    | InfoValue(info: InfoRecord)
    | RulesValue(rules: RuleMap)
    | PlayersValue(players: seq<Player>)

  /** PHP's `!$query` on the array `query` returns: an empty array is false. An Info
      answer always has its six keys, so it is never empty. */
  predicate IsEmptyArray(v: Value)
    ensures v.InfoValue? ==> !IsEmptyArray(v)
  {
    v.NoData? || (v.RulesValue? && v.rules == []) || (v.PlayersValue? && v.players == [])
  }

  /** What `query(op)` yields when the server answers with `datagram`. */
  function Outcome(op: Opcode, datagram: Option<seq<byte>>): (r: Result<Value, QueryError>)
    ensures r == Failure(UnhandledOpcode) <==> op == Ping
    ensures op != Ping && IsFalsy(StripHeader(datagram)) ==> r == Success(NoData)
    ensures r.Success? && r.value.InfoValue? ==> op == Info
    ensures r.Success? && r.value.RulesValue? ==> op == Rules && DistinctKeys(r.value.rules)
    ensures r.Success? && r.value.PlayersValue? ==>
              (op == Players || op == DetailedPlayers)
              && forall i :: 0 <= i < |r.value.players| ==> r.value.players[i].Detailed? == (op == DetailedPlayers)
  {
    if op == Ping then Failure(UnhandledOpcode)
    else
      var response := StripHeader(datagram);
      if IsFalsy(response) then Success(NoData)
      else
        var s := response.value;
        match op
        case Info =>
          (match ParseInfo(s)
           case Failure(_) => Failure(Malformed)
           case Success(info) => Success(InfoValue(info)))
        case Rules =>
          (match ParseRules(s)
           case Failure(_) => Failure(Malformed)
           case Success(rules) => RulesBounded(s); Success(RulesValue(rules)))
        case _ =>
          var detailed := op == DetailedPlayers;
          match ParsePlayers(s, detailed)
          case Failure(_) => Failure(Malformed)
          case Success(players) => PlayersShape(s, detailed); Success(PlayersValue(players))
  }

  /** The checks of the constructor, in its order; None when all of them pass. */
  function ConstructCheck(hostValid: bool, port: int, resolved: seq<int>, alive: bool): (e: Option<ConstructError>)
    ensures e.None? <==> hostValid && 1 <= port <= 65535 && |resolved| == 4 && alive
  {
    if !hostValid then Some(InvalidHost)
    else if port < 1 || port > 65535 then Some(InvalidPort)
    else if |resolved| != 4 then Some(BadAddress)
    else if !alive then Some(Offline)
    else None
  }

  class SampQuery {
    const host: string
    const port: int
    /** The request signature, fixed for the whole session. */
    const packet: seq<byte>

    predicate Valid()
    {
      1 <= port <= 65535 && |packet| == SignatureLength && packet[..4] == Magic
    }

    /** The part of `__construct` that cannot fail once the checks before it passed.
        `resolved` holds the four parts of the address the host resolved to. */
    constructor (host: string, port: int, resolved: seq<int>)
      requires 1 <= port <= 65535 && |resolved| == 4
      ensures Valid()
      ensures this.host == host && this.port == port && packet == Signature(resolved, port)
    {
      this.host := host;
      this.port := port;
      this.packet := Signature(resolved, port);
    }

    /** The datagram `sendRequest` sends: the signature, the opcode byte, then the extra data. */
    function Request(op: Opcode, extra: Option<seq<byte>>): (req: seq<byte>)
      requires Valid()
      ensures var e := if extra.Some? then extra.value else [];
              |req| == HeaderLength + |e| && req[..SignatureLength] == packet
              && req[SignatureLength] == OpcodeByte(op) && req[HeaderLength..] == e
    {
      var e := if extra.Some? then extra.value else [];
      assert (packet + [OpcodeByte(op)] + e)[..SignatureLength] == packet;
      packet + [OpcodeByte(op)] + e
    }

    /** `sendRequest`: the datagram it sends, and the reply it hands back when the server
        answers with `datagram`. */
    method SendRequest(op: Opcode, extra: Option<seq<byte>>, datagram: Option<seq<byte>>)
      returns (sent: seq<byte>, response: Option<seq<byte>>)
      requires Valid()
      ensures sent == Request(op, extra)
      ensures response == StripHeader(datagram)
    {
      sent := packet + [OpcodeByte(op)];
      if extra.Some? {
        sent := sent + extra.value;
      }
      response := StripHeader(datagram);
    }

    /** `ping`: sends the nonce with opcode `p`; alive exactly when the reply is that nonce. */
    method Ping(nonce: seq<byte>, datagram: Option<seq<byte>>) returns (alive: bool, sent: seq<byte>)
      requires Valid() && |nonce| == 4
      ensures sent == Request(Protocol.Ping, Some(nonce))
      ensures alive <==> StripHeader(datagram) == Some(nonce)
    {
      var response;
      sent, response := SendRequest(Protocol.Ping, Some(nonce), datagram);
      alive := response == Some(nonce);
    }

    /** `getInfo`: asks with opcode `i`. */
    method GetInfo(datagram: Option<seq<byte>>) returns (r: Result<Value, QueryError>, sent: seq<byte>)
      requires Valid()
      ensures sent == Request(Info, None)
      ensures r == Outcome(Info, datagram)
    {
      var response;
      sent, response := SendRequest(Info, None, datagram);
      if IsFalsy(response) {
        return Success(NoData), sent;
      }
      var info := DecodeInfo(response.value);
      if info.Failure? {
        return Failure(Malformed), sent;
      }
      return Success(InfoValue(info.value)), sent;
    }

    /** `getRules`: asks with opcode `r`. */
    method GetRules(datagram: Option<seq<byte>>) returns (r: Result<Value, QueryError>, sent: seq<byte>)
      requires Valid()
      ensures sent == Request(Rules, None)
      ensures r == Outcome(Rules, datagram)
    {
      var response;
      sent, response := SendRequest(Rules, None, datagram);
      if IsFalsy(response) {
        return Success(NoData), sent;
      }
      var rules := DecodeRules(response.value);
      if rules.Failure? {
        return Failure(Malformed), sent;
      }
      return Success(RulesValue(rules.value)), sent;
    }

    /** `getPlayers`: asks with opcode `d` for the detailed list and `c` otherwise. */
    method GetPlayers(detailed: bool, datagram: Option<seq<byte>>) returns (r: Result<Value, QueryError>, sent: seq<byte>)
      requires Valid()
      ensures sent == Request(if detailed then DetailedPlayers else Players, None)
      ensures r == Outcome(if detailed then DetailedPlayers else Players, datagram)
    {
      var response;
      sent, response := SendRequest(if detailed then DetailedPlayers else Players, None, datagram);
      if IsFalsy(response) {
        return Success(NoData), sent;
      }
      var players := DecodePlayers(response.value, detailed);
      if players.Failure? {
        return Failure(Malformed), sent;
      }
      return Success(PlayersValue(players.value)), sent;
    }

    /** `query`: dispatch on the opcode; Ping has no handler, so nothing is sent for it. */
    method Query(op: Opcode, datagram: Option<seq<byte>>) returns (r: Result<Value, QueryError>, sent: Option<seq<byte>>)
      requires Valid()
      ensures sent == if op == Protocol.Ping then None else Some(Request(op, None))
      ensures r == Outcome(op, datagram)
    {
      var request;
      match op {
        case Info => r, request := GetInfo(datagram);
        case Rules => r, request := GetRules(datagram);
        case Players => r, request := GetPlayers(false, datagram);
        case DetailedPlayers => r, request := GetPlayers(true, datagram);
        case Ping => return Failure(UnhandledOpcode), None;
      }
      sent := Some(request);
    }
  }

  /** `new SampQuery($host, $port)`: the checks in order, then the signature, then the ping
      probe. `hostValid` is what `filter_var` says of the host, `resolved` the parts of the
      address it resolves to, `nonce` the four random bytes and `pingReply` the answer.
      `probe` is the ping request, sent once the checks before it pass. */
  method Create(host: string, port: int, hostValid: bool, resolved: seq<int>,
                nonce: seq<byte>, pingReply: Option<seq<byte>>)
    returns (r: Result<SampQuery, ConstructError>, probe: Option<seq<byte>>)
    requires |nonce| == 4
    ensures probe.Some? <==> hostValid && 1 <= port <= 65535 && |resolved| == 4
    ensures probe.Some? ==> probe.value == Signature(resolved, port) + [OpcodeByte(Protocol.Ping)] + nonce
    ensures var check := ConstructCheck(hostValid, port, resolved, StripHeader(pingReply) == Some(nonce));
            (r.Failure? <==> check.Some?) && (r.Failure? ==> r.error == check.value)
    ensures r.Success? ==> fresh(r.value) && r.value.Valid() && r.value.host == host && r.value.port == port
                           && r.value.packet == Signature(resolved, port)
  {
    if !hostValid {
      return Failure(InvalidHost), None;
    }
    if port < 1 || port > 65535 {
      return Failure(InvalidPort), None;
    }
    if |resolved| != 4 {
      return Failure(BadAddress), None;
    }
    var server := new SampQuery(host, port, resolved);
    var alive, sent := server.Ping(nonce, pingReply);
    probe := Some(sent);
    if !alive {
      return Failure(Offline), probe;
    }
    return Success(server), probe;
  }

  /** A server that echoes the ping request makes the session alive, and one that answers
      with any other four bytes does not. */
  lemma PingEcho(q: SampQuery, nonce: seq<byte>, other: seq<byte>)
    requires q.Valid() && |nonce| == 4 && |other| == 4 && other != nonce
    ensures StripHeader(Some(q.Request(Protocol.Ping, Some(nonce)))) == Some(nonce)
    ensures StripHeader(Some(q.packet + [OpcodeByte(Protocol.Ping)] + other)) != Some(nonce)
  {
    EchoStripsToPayload(q.packet, Protocol.Ping, nonce);
    EchoStripsToPayload(q.packet, Protocol.Ping, other);
  }

  /** Every request of a session starts with the same ten bytes. */
  lemma RequestsShareSignature(q: SampQuery, a: Opcode, x: Option<seq<byte>>, b: Opcode, y: Option<seq<byte>>)
    requires q.Valid()
    ensures q.Request(a, x)[..SignatureLength] == q.Request(b, y)[..SignatureLength] == q.packet
  {
  }

  /** A datagram no longer than the header leaves nothing to decode, so every handler
      returns the empty array. */
  lemma ShortReplyIsEmpty(op: Opcode, datagram: seq<byte>)
    requires op != Ping && |datagram| <= HeaderLength
    ensures Outcome(op, Some(datagram)) == Success(NoData)
  {
  }
}
