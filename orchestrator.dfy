/** The query endpoint (samp.php): pick the opcodes named in the request, query the server
    once per opcode, and shape the answers for the JSON response. The HTTP request, the
    JSON encoding and the response codes are not modelled; the server's datagrams are
    parameters, one per opcode in the order the opcodes are queried. */
module Orchestrator {
  import opened Wire
  import opened OrderedMaps
  import opened Protocol
  import opened Session

  // ---------------------------------------------------------------------------
  // Selecting the opcodes

  /** The opcodes named in `codes`, in order and with repeats, skipping every character
      that is not an opcode. */
  function ValidOpcodes(codes: string): (r: seq<Opcode>)
    ensures |r| <= |codes|
  {
    if codes == [] then []
    else
      var init := ValidOpcodes(codes[..|codes| - 1]);
      match TryFrom(codes[|codes| - 1])
      case None => init
      case Some(op) => init + [op]
  }

  /** Filtering distributes over concatenation: the order of the input is kept. */
  lemma {:induction false} ValidOpcodesAppend(a: string, b: string)
    ensures ValidOpcodes(a + b) == ValidOpcodes(a) + ValidOpcodes(b)
    decreases |b|
  {
    if b == [] {
      assert a + b == a;
      AppendNil(ValidOpcodes(a));
    } else {
      var b' := b[..|b| - 1];
      assert (a + b)[..|a + b| - 1] == a + b';
      ValidOpcodesAppend(a, b');
      match TryFrom(b[|b| - 1])
      case None =>
      case Some(op) =>
        AppendAssoc(ValidOpcodes(a), ValidOpcodes(b'), [op]);
    }
  }

  /** Each opcode occurs exactly as often as its character does: nothing valid is dropped
      and repeats are kept. */
  lemma {:induction false} ValidOpcodesCount(codes: string, op: Opcode)
    ensures multiset(ValidOpcodes(codes))[op] == multiset(codes)[OpcodeChar(op)]
    ensures op in ValidOpcodes(codes) <==> OpcodeChar(op) in codes
  {
    if codes != [] {
      var init := codes[..|codes| - 1];
      var c := codes[|codes| - 1];
      assert codes == init + [c];
      ValidOpcodesCount(init, op);
      match TryFrom(c)
      case None =>
      case Some(op') =>
        assert OpcodeChar(op') == c;
        if op' != op {
          OpcodesDistinct(op, op');
        }
    }
  }

  /** No opcode at all falls back to Info. */
  function WithDefault(ops: seq<Opcode>): (r: seq<Opcode>)
    ensures r != [] && (ops != [] ==> r == ops)
  {
    if ops == [] then [Info] else ops
  }

  /** `array_search`: the first position of `op`, if it occurs. */
  function FirstIndex(ops: seq<Opcode>, op: Opcode): (r: Option<nat>)
    ensures r.None? <==> op !in ops
    ensures r.Some? ==> r.value < |ops| && ops[r.value] == op && forall j :: 0 <= j < r.value ==> ops[j] != op
  {
    if ops == [] then None
    else if ops[0] == op then Some(0)
    else
      match FirstIndex(ops[1..], op)
      case None => None
      case Some(i) => Some(i + 1)
  }

  function RemoveAt<T>(s: seq<T>, k: nat): seq<T>
    requires k < |s|
  {
    s[..k] + s[k + 1..]
  }

  /** The c/d conflict: when both player lists were asked for, the first occurrence of the
      one whose first occurrence comes later is dropped. */
  function Resolve(ops: seq<Opcode>): (r: seq<Opcode>)
    ensures |r| == if Players in ops && DetailedPlayers in ops then |ops| - 1 else |ops|
  {
    var c, d := FirstIndex(ops, Players), FirstIndex(ops, DetailedPlayers);
    if c.Some? && d.Some? then RemoveAt(ops, if c.value < d.value then d.value else c.value)
    else ops
  }

  /** The opcodes samp.php queries for the `opcodes` parameter (None when it is absent). */
  function Selected(codes: Option<string>): seq<Opcode>
  {
    Resolve(WithDefault(if codes.Some? then ValidOpcodes(codes.value) else []))
  }

  /** samp.php lines 12 to 27. */
  method SelectOpcodes(codes: Option<string>) returns (opcodes: seq<Opcode>)
    ensures opcodes == Selected(codes)
  {
    opcodes := [];
    if codes.Some? {
      var chars := codes.value;
      for i := 0 to |chars|
        invariant opcodes == ValidOpcodes(chars[..i])
      {
        assert chars[..i + 1][..i] == chars[..i];
        var opcode := TryFrom(chars[i]);
        if opcode.Some? {
          opcodes := opcodes + [opcode.value];
        }
      }
      assert chars[..|chars|] == chars;
    }

    if opcodes == [] {
      opcodes := opcodes + [Info];
    }

    var cIndex := FirstIndex(opcodes, Players);
    var dIndex := FirstIndex(opcodes, DetailedPlayers);
    if cIndex.Some? && dIndex.Some? {
      var later := if cIndex.value < dIndex.value then dIndex.value else cIndex.value;
      opcodes := opcodes[..later] + opcodes[later + 1..];
    }
  }

  /** A request without a single valid opcode queries Info alone. */
  lemma DefaultsToInfo(codes: Option<string>)
    requires codes.None? || forall i :: 0 <= i < |codes.value| ==> TryFrom(codes.value[i]).None?
    ensures Selected(codes) == [Info]
  {
    if codes.Some? {
      NoValidOpcodes(codes.value);
    }
  }

  lemma {:induction false} NoValidOpcodes(codes: string)
    requires forall i :: 0 <= i < |codes| ==> TryFrom(codes[i]).None?
    ensures ValidOpcodes(codes) == []
  {
    if codes != [] {
      NoValidOpcodes(codes[..|codes| - 1]);
    }
  }

  /** Unless both player lists were asked for, the opcodes are left as they are. */
  lemma ResolveKeeps(ops: seq<Opcode>)
    requires Players !in ops || DetailedPlayers !in ops
    ensures Resolve(ops) == ops
  {
  }

  predicate IsPlayerList(op: Opcode)
  {
    op == Players || op == DetailedPlayers
  }

  /** Position `k` holds the first occurrence of a player list, and the other player list
      already occurred before it. */
  predicate LaterFirstOccurrence(ops: seq<Opcode>, k: nat)
  {
    k < |ops| && IsPlayerList(ops[k])
    && (forall j :: 0 <= j < k ==> ops[j] != ops[k])
    && exists j :: 0 <= j < k && IsPlayerList(ops[j]) && ops[j] != ops[k]
  }

  /** When both were asked for, exactly one entry goes: the first occurrence of the player
      list whose first occurrence comes later; the rest keeps its order. */
  lemma ResolveDropsLater(ops: seq<Opcode>)
    requires Players in ops && DetailedPlayers in ops
    ensures exists k: nat :: LaterFirstOccurrence(ops, k) && Resolve(ops) == ops[..k] + ops[k + 1..]
  {
    var c, d := FirstIndex(ops, Players).value, FirstIndex(ops, DetailedPlayers).value;
    var k := if c < d then d else c;
    var j := if c < d then c else d;
    assert IsPlayerList(ops[j]) && ops[j] != ops[k];
    assert LaterFirstOccurrence(ops, k);
  }

  /** When each player list was asked for once, exactly one survives: the one asked for first. */
  lemma ResolveKeepsEarlier(ops: seq<Opcode>)
    requires multiset(ops)[Players] == 1 && multiset(ops)[DetailedPlayers] == 1
    ensures var c, d := FirstIndex(ops, Players).value, FirstIndex(ops, DetailedPlayers).value;
            (Players in Resolve(ops) <==> c < d) && (DetailedPlayers in Resolve(ops) <==> d < c)
  {
    var c, d := FirstIndex(ops, Players).value, FirstIndex(ops, DetailedPlayers).value;
    assert ops[c] != ops[d];
    var k := if c < d then d else c;
    var j := if c < d then c else d;
    DropUnique(ops, k);
    KeepBefore(ops, k, j);
  }

  /** Dropping the only occurrence of a value leaves none. */
  lemma DropUnique<T>(s: seq<T>, k: nat)
    requires k < |s| && multiset(s)[s[k]] == 1
    ensures s[k] !in s[..k] + s[k + 1..]
  {
    assert s == s[..k] + [s[k]] + s[k + 1..];
    assert multiset(s) == multiset(s[..k] + s[k + 1..]) + multiset{s[k]};
  }

  /** Dropping position `k` keeps whatever stood before it. */
  lemma KeepBefore<T>(s: seq<T>, k: nat, j: nat)
    requires j < k < |s|
    ensures s[j] in s[..k] + s[k + 1..]
  {
    assert (s[..k] + s[k + 1..])[j] == s[j];
  }

  /** Only the first occurrence goes: with one plain and two detailed requests, both kinds
      are still queried. */
  lemma ResolveKeepsRepeats()
    ensures Resolve([Players, DetailedPlayers, DetailedPlayers]) == [Players, DetailedPlayers]
  {
    var ops := [Players, DetailedPlayers, DetailedPlayers];
    assert FirstIndex(ops, Players) == Some(0);
    assert FirstIndex(ops, DetailedPlayers) == Some(1);
  }

  // ---------------------------------------------------------------------------
  // Gathering the answers

  /** The key an answer is filed under. */
  function Label(op: Opcode): (key: string)
    requires op != Ping
    ensures key == "players" <==> IsPlayerList(op)
  {
    match op
    case Info => "info"
    case Rules => "rules"
    case Players => "players"
    case DetailedPlayers => "players"
  }

  /** The answer of query `i` counts when it is a non-empty array. */
  predicate Counts(r: Result<Value, QueryError>)
  {
    r.Success? && !IsEmptyArray(r.value)
  }

  /** The answers `query` gives for the opcodes, in order. */
  function Outcomes(ops: seq<Opcode>, replies: seq<Option<seq<byte>>>): (outs: seq<Result<Value, QueryError>>)
    requires |replies| == |ops|
    ensures |outs| == |ops| && forall i :: 0 <= i < |ops| ==> outs[i] == Outcome(ops[i], replies[i])
  {
    seq(|ops|, i requires 0 <= i < |ops| => Outcome(ops[i], replies[i]))
  }

  /** The (key, answer) assignments the loop makes for the answers `outs`, in order. */
  function Kept(ops: seq<Opcode>, outs: seq<Result<Value, QueryError>>): seq<(string, Value)>
    requires |outs| == |ops| && Ping !in ops
  {
    if ops == [] then []
    else
      var n := |ops| - 1;
      var init := Kept(ops[..n], outs[..n]);
      if Counts(outs[n]) then init + [(Label(ops[n]), outs[n].value)] else init
  }

  datatype Gathered = Aborted | Filled(result: OrderedMap<string, Value>)

  /** What the loop of samp.php produces: a Ping opcode ends the script with an error;
      otherwise every non-empty answer is assigned under its key. */
  function GatherOf(ops: seq<Opcode>, replies: seq<Option<seq<byte>>>): Gathered
    requires |replies| == |ops|
  {
    if Ping in ops then Aborted else Filled(FromPairs(Kept(ops, Outcomes(ops, replies))))
  }

  /** The datagrams the session sends to query `ops`, one per opcode, in order. */
  function Requests(server: SampQuery, ops: seq<Opcode>): (reqs: seq<seq<byte>>)
    requires server.Valid()
    ensures |reqs| == |ops| && forall i :: 0 <= i < |ops| ==> reqs[i] == server.Request(ops[i], None)
  {
    if ops == [] then [] else Requests(server, ops[..|ops| - 1]) + [server.Request(ops[|ops| - 1], None)]
  }

  /** One more opcode is one more request. */
  lemma RequestsStep(server: SampQuery, ops: seq<Opcode>, i: nat)
    requires server.Valid() && i < |ops|
    ensures Requests(server, ops[..i + 1]) == Requests(server, ops[..i]) + [server.Request(ops[i], None)]
  {
    assert ops[..i + 1][..i] == ops[..i];
  }

  /** One more answer is one more assignment when it counts, and none otherwise. */
  lemma KeptStep(ops: seq<Opcode>, outs: seq<Result<Value, QueryError>>, i: nat)
    requires |outs| == |ops| && i < |ops| && Ping !in ops[..i + 1]
    ensures Ping !in ops[..i]
    ensures Kept(ops[..i + 1], outs[..i + 1])
         == if Counts(outs[i]) then Kept(ops[..i], outs[..i]) + [(Label(ops[i]), outs[i].value)]
            else Kept(ops[..i], outs[..i])
  {
    assert ops[..i + 1][..i] == ops[..i] && outs[..i + 1][..i] == outs[..i];
  }

  /** samp.php lines 31 to 42. `requests` are the datagrams sent, one per opcode queried
      before the loop ends. */
  method Gather(server: SampQuery, opcodes: seq<Opcode>, replies: seq<Option<seq<byte>>>)
    returns (g: Gathered, requests: seq<seq<byte>>)
    requires server.Valid() && |replies| == |opcodes|
    ensures g == GatherOf(opcodes, replies)
    ensures |requests| <= |opcodes| && Ping !in opcodes[..|requests|]
    ensures requests == Requests(server, opcodes[..|requests|])
    ensures g.Filled? <==> |requests| == |opcodes|
    ensures g.Aborted? ==> opcodes[|requests|] == Ping
  {
    ghost var outs := Outcomes(opcodes, replies);
    var result: OrderedMap<string, Value> := [];
    requests := [];
    for i := 0 to |opcodes|
      invariant Ping !in opcodes[..i]
      invariant result == FromPairs(Kept(opcodes[..i], outs[..i]))
      invariant requests == Requests(server, opcodes[..i])
    {
      var query, sent := server.Query(opcodes[i], replies[i]);
      if query.Failure? && query.error == UnhandledOpcode {
        assert opcodes[i] in opcodes;
        return Aborted, requests;
      }
      assert opcodes[..i + 1] == opcodes[..i] + [opcodes[i]];
      RequestsStep(server, opcodes, i);
      KeptStep(opcodes, outs, i);
      requests := requests + [sent.value];
      if query.Failure? || IsEmptyArray(query.value) {
        continue;
      }
      FromPairsSnoc(Kept(opcodes[..i], outs[..i]), (Label(opcodes[i]), query.value));
      result := Put(result, Label(opcodes[i]), query.value);
    }
    assert opcodes[..|opcodes|] == opcodes && outs[..|outs|] == outs;
    return Filled(result), requests;
  }

  /** Some assignment is made under `key`. */
  predicate HasKey<V>(pairs: seq<(string, V)>, key: string)
  {
    exists j :: 0 <= j < |pairs| && pairs[j].0 == key
  }

  /** Some query filed under `key` gave an answer that counts. */
  predicate AnyCounts(ops: seq<Opcode>, outs: seq<Result<Value, QueryError>>, key: string)
    requires |outs| == |ops| && Ping !in ops
  {
    exists i :: 0 <= i < |ops| && Label(ops[i]) == key && Counts(outs[i])
  }

  lemma HasKeySnoc<V>(pairs: seq<(string, V)>, x: (string, V), key: string)
    ensures HasKey(pairs + [x], key) <==> HasKey(pairs, key) || x.0 == key
  {
    if HasKey(pairs, key) {
      var j :| 0 <= j < |pairs| && pairs[j].0 == key;
      assert (pairs + [x])[j] == pairs[j];
    }
    if x.0 == key {
      assert (pairs + [x])[|pairs|] == x;
    }
  }

  lemma AnyCountsSnoc(ops: seq<Opcode>, outs: seq<Result<Value, QueryError>>, key: string)
    requires |outs| == |ops| && Ping !in ops && ops != []
    ensures var n := |ops| - 1;
            AnyCounts(ops, outs, key)
            <==> AnyCounts(ops[..n], outs[..n], key) || (Label(ops[n]) == key && Counts(outs[n]))
  {
    var n := |ops| - 1;
    if AnyCounts(ops[..n], outs[..n], key) {
      var i :| 0 <= i < n && Label(ops[..n][i]) == key && Counts(outs[..n][i]);
      assert ops[i] == ops[..n][i] && outs[i] == outs[..n][i];
    }
    if AnyCounts(ops, outs, key) {
      var i :| 0 <= i < |ops| && Label(ops[i]) == key && Counts(outs[i]);
      if i < n {
        assert ops[i] == ops[..n][i] && outs[i] == outs[..n][i];
      }
    }
  }

  /** The keys assigned are those of the queries whose answers count. */
  lemma {:induction false} KeptKeys(ops: seq<Opcode>, outs: seq<Result<Value, QueryError>>, key: string)
    requires |outs| == |ops| && Ping !in ops
    ensures HasKey(Kept(ops, outs), key) <==> AnyCounts(ops, outs, key)
  {
    if ops != [] {
      var n := |ops| - 1;
      KeptKeys(ops[..n], outs[..n], key);
      AnyCountsSnoc(ops, outs, key);
      if Counts(outs[n]) {
        HasKeySnoc(Kept(ops[..n], outs[..n]), (Label(ops[n]), outs[n].value), key);
      }
    }
  }

  /** A key is present exactly when some query filed under it gave a non-empty answer, and
      it holds the answer of the last such query. */
  lemma GatherContents(ops: seq<Opcode>, replies: seq<Option<seq<byte>>>, key: string)
    requires |replies| == |ops| && Ping !in ops
    ensures var outs := Outcomes(ops, replies);
            var m := GatherOf(ops, replies).result;
            (key in Keys(m) <==> AnyCounts(ops, outs, key))
            && Get(m, key) == LastValue(Kept(ops, outs), key)
  {
    var outs := Outcomes(ops, replies);
    FromPairsKeys(Kept(ops, outs), key);
    KeptKeys(ops, outs, key);
    FromPairsLastWins(Kept(ops, outs), key);
  }

  // ---------------------------------------------------------------------------
  // Shaping the response

  /** The value handed to `json_encode`: the labelled map, its only answer, or false. */
  datatype Output = Whole(answers: OrderedMap<string, Value>) | Single(answer: Value) | NoAnswer

  /** `count($result) > 1 ? $result : reset($result)`. */
  function Shape(m: OrderedMap<string, Value>): (o: Output)
    ensures o.Whole? <==> |m| > 1
    ensures o.Whole? ==> o.answers == m
    ensures o.Single? <==> |m| == 1
    ensures o.Single? ==> o.answer == m[0].1 && Keys(m) == [m[0].0]
    ensures o == NoAnswer <==> m == []
  {
    if |m| > 1 then Whole(m)
    else if |m| == 1 then Single(m[0].1)
    else NoAnswer
  }

  /** How a request ends: the JSON value, the constructor's exception (reported with code
      500), or the uncaught error of querying Ping. */
  datatype Response = Json(output: Output) | ServerError(error: ConstructError) | Fatal

  function ResponseOf(codes: Option<string>, host: string, port: int, hostValid: bool, resolved: seq<int>,
                      nonce: seq<byte>, pingReply: Option<seq<byte>>,
                      replies: seq<Option<seq<byte>>>): Response
    requires |replies| == |Selected(codes)|
  {
    match ConstructCheck(hostValid, port, resolved, StripHeader(pingReply) == Some(nonce))
    case Some(e) => ServerError(e)
    case None =>
      match GatherOf(Selected(codes), replies)
      case Aborted => Fatal
      case Filled(m) => Json(Shape(m))
  }

  /** The whole of samp.php: the request's `opcodes`, `host` and `port`, and the server's
      datagrams (the ping probe's answer, then one per query). */
  method HandleRequest(codes: Option<string>, host: string, port: int, hostValid: bool, resolved: seq<int>,
                       nonce: seq<byte>, pingReply: Option<seq<byte>>, replies: seq<Option<seq<byte>>>)
    returns (response: Response)
    requires |nonce| == 4 && |replies| == |Selected(codes)|
    ensures response == ResponseOf(codes, host, port, hostValid, resolved, nonce, pingReply, replies)
  {
    var opcodes := SelectOpcodes(codes);
    var server, probe := Create(host, port, hostValid, resolved, nonce, pingReply);
    if server.Failure? {
      return ServerError(server.error);
    }
    var gathered, requests := Gather(server.value, opcodes, replies);
    if gathered.Aborted? {
      return Fatal;
    }
    return Json(Shape(gathered.result));
  }

  /** A request that reaches the server ends in a fatal error exactly when it names Ping. */
  lemma FatalIffPing(codes: Option<string>, host: string, port: int, hostValid: bool, resolved: seq<int>,
                     nonce: seq<byte>, pingReply: Option<seq<byte>>, replies: seq<Option<seq<byte>>>)
    requires |replies| == |Selected(codes)|
    requires ConstructCheck(hostValid, port, resolved, StripHeader(pingReply) == Some(nonce)).None?
    ensures ResponseOf(codes, host, port, hostValid, resolved, nonce, pingReply, replies) == Fatal
        <==> codes.Some? && 'p' in codes.value
  {
    SelectedHasPing(codes);
  }

  /** Ping is among the selected opcodes exactly when the request names it. */
  lemma SelectedHasPing(codes: Option<string>)
    ensures Protocol.Ping in Selected(codes) <==> codes.Some? && 'p' in codes.value
  {
    var valid := if codes.Some? then ValidOpcodes(codes.value) else [];
    if codes.Some? {
      ValidOpcodesCount(codes.value, Protocol.Ping);
    }
    ResolveKeepsPing(WithDefault(valid));
  }

  /** Resolving the conflict never removes or adds a Ping. */
  lemma ResolveKeepsPing(ops: seq<Opcode>)
    ensures Protocol.Ping in Resolve(ops) <==> Protocol.Ping in ops
  {
    var c, d := FirstIndex(ops, Players), FirstIndex(ops, DetailedPlayers);
    if c.Some? && d.Some? {
      var k := if c.value < d.value then d.value else c.value;
      assert ops == ops[..k] + [ops[k]] + ops[k + 1..];
    }
  }
}
