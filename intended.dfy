/** radsnmp_send_recv as evidently intended: after a successful parse the
  * request gets the SNMP operation and Message-Authenticator pairs, is
  * sent, and the reply is turned into the answer to net-snmp (lines
  * 663-812), with the OID parse reporting a bad value as a failure and the
  * retry loop ending at the first bad reply. */
module Intended {
  import opened Wrappers
  import opened Text
  import opened Dict
  import opened Pairs
  import opened Packet
  import opened OidParse
  import opened Response
  import opened LineInput
  import opened Session
  import opened Retry

  /** What the loop takes from `conf`: the dictionary, the root OID
    * parsing starts from, the root and type attribute of replies, the
    * operation, Message-Authenticator and failure attributes, and the
    * number of retries. */
  datatype Setup = Setup(t: Tree, root: NodeId, oidRoot: NodeId, typeDa: NodeId,
                         opDa: NodeId, authDa: NodeId, failureDa: NodeId, retries: nat)

  predicate SetupOk(c: Setup)
  {
    Valid(c.t) && c.root in c.t.attrs && c.oidRoot in c.t.attrs
  }

  /** rad_decode yields pairs of the dictionary, each with a value of its
    * attribute's type. */
  predicate Answers(c: Setup, attempts: seq<Attempt>)
  {
    forall a :: a in attempts && a.Answered? ==> Decoded(c.t, a.vps)
  }

  predicate AllAnswers(c: Setup, net: seq<seq<Attempt>>)
  {
    net == [] || (Answers(c, net[0]) && AllAnswers(c, net[1..]))
  }

  /** One pass of the loop: its exit status if it ends the loop, what it
    * answered, the input left, the request id counter and the requests it
    * sent (none or one). */
  datatype Turn = Turn(status: Option<int>, said: seq<string>, rest: string, id: nat, sent: seq<seq<Pair>>)

  /** The request as sent: the parsed pairs, then the SNMP operation, then
    * a one-byte Message-Authenticator placeholder. */
  function Outgoing(c: Setup, command: Command, vps: seq<Pair>): (r: seq<Pair>)
    requires command != Unknown
    ensures |r| == |vps| + 2 && r[..|vps|] == vps
    ensures r[|vps|] == Pair(c.opDa, IntVal(CommandCode(command) as nat))
    ensures r[|vps| + 1] == Pair(c.authDa, Bytes("\0"))
  {
    vps + [Pair(c.opDa, IntVal(CommandCode(command) as nat)), Pair(c.authDa, Bytes("\0"))]
  }

  /** Turning a reply into the answer: a get or getnext reply is written as
    * varbinds beneath the reply root (-1 is EXIT_FAILURE), a set reply as
    * DONE or the failure text (below 0 is EXIT_FAILURE). */
  function Answer(c: Setup, command: Command, reply: seq<Pair>): (w: Written)
    requires SetupOk(c) && Decoded(c.t, reply)
  {
    if command == Set then SetResponse(c.t, c.failureDa, reply)
    else GetResult(c.t, c.oidRoot, c.typeDa, true, reply)
  }

  /** One pass of the loop as intended, given what the retry loop sees if a
    * request is sent. */
  function ServeTurn(c: Setup, input: string, id: nat, attempts: seq<Attempt>): (tn: Turn)
    requires SetupOk(c) && id < 256 && Answers(c, attempts)
    ensures tn.id == NextId(id) && |tn.sent| <= 1
  {
    var id' := NextId(id);
    var (line, in1) := Fgets(input, LINE_BUFF);
    var command := CommandOf(line);
    if command == Exit then Turn(Some(0), [], in1, id', [])
    else if command == Ping then Turn(None, ["PONG\n"], in1, id', [])
    else if command == Unknown then Turn(None, ["NONE\n"], in1, id', [])
    else
      var (oid, in2) := Fgets(in1, LINE_BUFF);
      var (value, in3) := if command == Set then Fgets(in2, SET_VALUE_BUFF) else (None, in2);
      var p := FromOidFixed(c.t, c.root, oid, value, []);
      if p.slen <= 0 then Turn(None, ["NONE\n"], in3, id', [])
      else
        var sent := [Outgoing(c, command, p.vps)];
        var x := Exchanged(attempts, c.retries, 0);
        match x.outcome
        case Fatal => Turn(Some(1), x.out, in3, id', sent)
        case Dangling => Turn(Some(1), x.out, in3, id', sent)
        case BadReply => Turn(None, x.out, in3, id', sent)
        case Reply(vps) =>
          var w := Answer(c, command, vps);
          Turn(if w.r < 0 then Some(1) else None, w.out, in3, id', sent)
  }

  /** A run after one more pass that answered `said` and sent `sent`. */
  function Grow(said: seq<string>, sent: seq<seq<Pair>>, r: Run): Run
  {
    r.(out := said + r.out, passes := 1 + r.passes, sent := sent + r.sent)
  }

  /** The session as intended, for at most `fuel` passes; each request sent
    * takes the next list of attempts from `net`. No request is left unsent
    * and a pass sends at most one. */
  function ServeIntended(c: Setup, stop: bool, input: string, id: nat, net: seq<seq<Attempt>>, fuel: nat): (r: Run)
    requires SetupOk(c) && id < 256 && AllAnswers(c, net)
    ensures r.passes <= fuel && |r.sent| <= r.passes && r.unsent == []
    decreases fuel, 1
  {
    if stop then Run(Some(0), [], input, id, 0, [], [])
    else if fuel == 0 then Run(None, [], input, id, 0, [], [])
    else Continue(c, stop, ServeTurn(c, input, id, First(net)), net, fuel)
  }

  /** The attempts the next request sent meets. */
  function First(net: seq<seq<Attempt>>): seq<Attempt>
  {
    if |net| > 0 then net[0] else []
  }

  /** The session after a pass that took `tn`: it ends there, or goes on
    * with the attempts the pass's request, if any, did not use. */
  function Continue(c: Setup, stop: bool, tn: Turn, net: seq<seq<Attempt>>, fuel: nat): (r: Run)
    requires SetupOk(c) && tn.id < 256 && AllAnswers(c, net) && fuel > 0 && |tn.sent| <= 1
    ensures 1 <= r.passes <= fuel && |r.sent| <= r.passes && r.unsent == []
    decreases fuel, 0
  {
    if tn.status.Some? then Run(tn.status, tn.said, tn.rest, tn.id, 1, tn.sent, [])
    else
      var later := if tn.sent == [] || net == [] then net else net[1..];
      Grow(tn.said, tn.sent, ServeIntended(c, stop, tn.rest, tn.id, later, fuel - 1))
  }

  /** A pass whose command asks for an OID (and, for set, a value) reads
    * exactly those lines and then acts on the parse result alone. */
  lemma ParsedTurn(c: Setup, input: string, id: nat, attempts: seq<Attempt>, line: string, in1: string,
                   oid: string, in2: string, value: Option<string>, in3: string)
    requires SetupOk(c) && id < 256 && Answers(c, attempts)
    requires Fgets(input, LINE_BUFF) == (Some(line), in1) && Fgets(in1, LINE_BUFF) == (Some(oid), in2)
    requires CommandOf(Some(line)) == Get || CommandOf(Some(line)) == GetNext || CommandOf(Some(line)) == Set
    requires CommandOf(Some(line)) == Set ==> Fgets(in2, SET_VALUE_BUFF) == (value, in3)
    requires CommandOf(Some(line)) != Set ==> value == None && in3 == in2
    ensures var p := FromOidFixed(c.t, c.root, Some(oid), value, []);
            var x := Exchanged(attempts, c.retries, 0);
            var sent := [Outgoing(c, CommandOf(Some(line)), p.vps)];
            ServeTurn(c, input, id, attempts) ==
            if p.slen <= 0 then Turn(None, ["NONE\n"], in3, NextId(id), [])
            else if x.outcome.Reply? then
              var w := Answer(c, CommandOf(Some(line)), x.outcome.vps);
              Turn(if w.r < 0 then Some(1) else None, w.out, in3, NextId(id), sent)
            else Turn(if x.outcome.BadReply? then None else Some(1), x.out, in3, NextId(id), sent)
  {
  }

  /** As intended, a get naming a leaf sends one request (the leaf with its
    * placeholder value, the operation GET and the Message-Authenticator)
    * and, when the first attempt brings a reply, answers net-snmp with the
    * varbinds of that reply; -1 from the conversion is EXIT_FAILURE. */
  lemma GetOfLeafAnswered(c: Setup, l: NodeId, rest: string, id: nat, reply: seq<Pair>)
    requires SetupOk(c) && id < 256 && l in c.t.attrs && ParentCommon(c.t, c.root, l).Some?
    requires c.t.attrs[l].num != 0 && c.t.attrs[l].kind != Tlv
    requires |OidText(OidPath(c.t, c.root, l))| < LINE_BUFF - 1
    requires c.retries >= 1 && Decoded(c.t, reply)
    ensures var w := GetResult(c.t, c.oidRoot, c.typeDa, true, reply);
            ServeTurn(c, "get\n" + OidText(OidPath(c.t, c.root, l)) + "\n" + rest, id, [Answered(reply)]) ==
            Turn(if w.r < 0 then Some(1) else None, w.out, rest, NextId(id),
                 [[Pair(l, Placeholder(c.t.attrs[l].kind)), Pair(c.opDa, IntVal(1)), Pair(c.authDa, Bytes("\0"))]])
  {
    var s := OidText(OidPath(c.t, c.root, l));
    LeafOidLine(c.t, c.root, l);
    var in1 := s + "\n" + rest;
    GetLines(s, rest);
    var attempts := [Answered(reply)];
    assert Answers(c, attempts);
    FirstReplyTaken(attempts, c.retries, 0, 0, reply);
    ParsedTurn(c, "get\n" + s + "\n" + rest, id, attempts, "get", in1, s, rest, None, rest);
    var leaf := Pair(l, Placeholder(c.t.attrs[l].kind));
    var p := FromOidFixed(c.t, c.root, Some(s), None, []);
    assert p == OidResult(|s|, [leaf], NoError);
    assert Outgoing(c, Get, p.vps) == [leaf, Pair(c.opDa, IntVal(1)), Pair(c.authDa, Bytes("\0"))];
    assert Answer(c, Get, reply) == GetResult(c.t, c.oidRoot, c.typeDa, true, reply);
  }

  /** As intended, after a get of a leaf whose reply converts, the session
    * goes on with the rest of the input and the rest of the network, where
    * as written it ends. */
  lemma GetOfLeafGoesOn(c: Setup, l: NodeId, rest: string, id: nat, reply: seq<Pair>,
                        net: seq<seq<Attempt>>, fuel: nat)
    requires SetupOk(c) && id < 256 && l in c.t.attrs && ParentCommon(c.t, c.root, l).Some?
    requires c.t.attrs[l].num != 0 && c.t.attrs[l].kind != Tlv
    requires |OidText(OidPath(c.t, c.root, l))| < LINE_BUFF - 1
    requires c.retries >= 1 && Decoded(c.t, reply) && AllAnswers(c, net)
    requires GetResult(c.t, c.oidRoot, c.typeDa, true, reply).r >= 0
    ensures AllAnswers(c, [[Answered(reply)]] + net)
    ensures ServeIntended(c, false, "get\n" + OidText(OidPath(c.t, c.root, l)) + "\n" + rest, id,
                          [[Answered(reply)]] + net, fuel + 1)
            == Grow(GetResult(c.t, c.oidRoot, c.typeDa, true, reply).out,
                    [[Pair(l, Placeholder(c.t.attrs[l].kind)), Pair(c.opDa, IntVal(1)), Pair(c.authDa, Bytes("\0"))]],
                    ServeIntended(c, false, rest, NextId(id), net, fuel))
  {
    var all := [[Answered(reply)]] + net;
    assert all[1..] == net;
    assert Answers(c, [Answered(reply)]);
    assert First(all) == [Answered(reply)];
    GetOfLeafAnswered(c, l, rest, id, reply);
  }
}
