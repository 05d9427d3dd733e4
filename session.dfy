/** radsnmp_send_recv (lines 582-813): the loop that reads pass_persist
  * commands from standard input, turns them into RADIUS requests and answers
  * net-snmp. The RADIUS exchange itself (encoding, signing, the socket) is
  * not modelled; what the retry loop sees of it is given as a list of
  * attempt outcomes. */
module Session {
  import opened Wrappers
  import opened Text
  import opened Dict
  import opened Pairs
  import opened Packet
  import opened OidParse
  import opened Response
  import opened LineInput

  /** radsnmp_command_t. */
  datatype Command = Unknown | Ping | Get | GetNext | Set | Exit

  /** The numeric value of each command, which is also the value of the SNMP
    * operation attribute. */
  function CommandCode(c: Command): int
  {
    match c
    case Unknown => -1
    case Ping => 0
    case Get => 1
    case GetNext => 2
    case Set => 3
    case Exit => 4
  }

  /** radsnmp_command_str, in its order (lines 66-73). */
  const COMMAND_TABLE: seq<(string, Command)> :=
    [("PING", Ping), ("get", Get), ("getnext", GetNext), ("set", Set), ("", Exit)]

  /** fr_str2int: the command of the first entry whose name equals `s` up to
    * ASCII case, Unknown when there is none. */
  function Lookup(table: seq<(string, Command)>, s: string): Command
  {
    if table == [] then Unknown
    else if EqualsIgnoreCase(table[0].0, s) then table[0].1
    else Lookup(table[1..], s)
  }

  /** The command a line names; a NULL line (end of input) names none. */
  function CommandOf(line: Option<string>): Command
  {
    if line.None? then Unknown else Lookup(COMMAND_TABLE, line.value)
  }

  /** The name a command has in the table. */
  function CommandName(c: Command): string
  {
    match c
    case Ping => "PING"
    case Get => "get"
    case GetNext => "getnext"
    case Set => "set"
    case _ => ""
  }

  lemma {:induction false} LookupFound(table: seq<(string, Command)>, s: string)
    ensures Lookup(table, s) != Unknown ==>
              exists i :: 0 <= i < |table| && table[i].1 == Lookup(table, s) && EqualsIgnoreCase(table[i].0, s)
    ensures (forall i :: 0 <= i < |table| ==> table[i].1 != Unknown) ==>
              (Lookup(table, s) == Unknown <==> forall i :: 0 <= i < |table| ==> !EqualsIgnoreCase(table[i].0, s))
  {
    if table != [] {
      LookupFound(table[1..], s);
      if !EqualsIgnoreCase(table[0].0, s) && Lookup(table, s) != Unknown {
        var i :| 0 <= i < |table[1..]| && table[1..][i].1 == Lookup(table, s) && EqualsIgnoreCase(table[1..][i].0, s);
        assert table[i + 1] == table[1..][i];
      }
      if forall i :: 0 <= i < |table| ==> table[i].1 != Unknown {
        assert forall i :: 0 <= i < |table[1..]| ==> table[1..][i] == table[i + 1];
      }
    }
  }

  /** Every command of the table is named by its own name, in any case, and
    * a line naming a command equals that command's name up to case; any
    * other line names no command. */
  lemma CommandOfName(s: string)
    ensures forall c :: c != Unknown && EqualsIgnoreCase(CommandName(c), s) ==> CommandOf(Some(s)) == c
    ensures CommandOf(Some(s)) != Unknown ==> EqualsIgnoreCase(CommandName(CommandOf(Some(s))), s)
    ensures CommandOf(Some(s)) == Exit <==> s == ""
  {
    LookupFound(COMMAND_TABLE, s);
    forall c | c != Unknown && EqualsIgnoreCase(CommandName(c), s)
      ensures CommandOf(Some(s)) == c
    {
      NamesDiffer(c, s);
    }
  }

  /** No line equals two names of the table up to case. */
  lemma NamesDiffer(c: Command, s: string)
    requires c != Unknown && EqualsIgnoreCase(CommandName(c), s)
    ensures Lookup(COMMAND_TABLE, s) == c
  {
    var t0 := COMMAND_TABLE;
    var t1 := [("get", Get), ("getnext", GetNext), ("set", Set), ("", Exit)];
    var t2 := [("getnext", GetNext), ("set", Set), ("", Exit)];
    var t3 := [("set", Set), ("", Exit)];
    var t4 := [("", Exit)];
    assert t0[1..] == t1 && t1[1..] == t2 && t2[1..] == t3 && t3[1..] == t4;
    if c != Ping {
      assert Lookup(t0, s) == Lookup(t1, s);
      if c != Get {
        assert Lookup(t1, s) == Lookup(t2, s);
        if c == Set {
          assert !EqualsIgnoreCase("get", s) by {
            assert Lower("set"[0]) == Lower(s[0]);
            assert Lower("get"[0]) != Lower(s[0]);
          }
        }
        if c != GetNext {
          assert Lookup(t2, s) == Lookup(t3, s);
          if c != Set {
            assert Lookup(t3, s) == Lookup(t4, s);
          }
        }
      }
    }
  }

  /** What the session loop leaves behind: its exit status (None when the
    * model's bound on passes ran out first), the chunks written to stdout,
    * the input left, the request id counter, the number of passes, the
    * requests sent, and the pairs of a request built but never sent. */
  datatype Run = Run(status: Option<int>, out: seq<string>, rest: string, lastUsedId: nat, passes: nat,
                     sent: seq<seq<Pair>>, unsent: seq<Pair>)

  /** A run after `passes` more passes that wrote `out`. */
  function Resume(out: seq<string>, passes: nat, r: Run): Run
  {
    r.(out := out + r.out, passes := passes + r.passes)
  }

  /** One pass of the loop as written: it answers `said` and goes on, or
    * leaves the loop with EXIT_SUCCESS. */
  datatype Pass = Next(said: string, rest: string, id: nat) | Leave(rest: string, id: nat, unsent: seq<Pair>)

  /** One pass of the loop as written (lines 582-661), from the input left
    * and the request id counter. */
  function ServePass(t: Tree, root: NodeId, input: string, id: nat): (p: Pass)
    requires Valid(t) && root in t.attrs && id < 256
    ensures p.id == NextId(id)
  {
    var id' := NextId(id);
    var (line, in1) := Fgets(input, LINE_BUFF);
    var command := CommandOf(line);
    if command == Exit then Leave(in1, id', [])
    else if command == Ping then Next("PONG\n", in1, id')
    else if command == Unknown then Next("NONE\n", in1, id')
    else
      var (oid, in2) := Fgets(in1, LINE_BUFF);
      var (value, in3) := if command == Set then Fgets(in2, SET_VALUE_BUFF) else (None, in2);
      var p := FromOid(t, root, oid, value, []);
      if p.slen <= 0 then Next("NONE\n", in3, id')
      else Leave(in3, id', p.vps)
  }

  /** The session as written, for at most `fuel` passes: the `break` after a
    * successful parse (line 661) leaves the loop, so the request is never
    * sent and the function returns EXIT_SUCCESS. */
  function Serve(t: Tree, root: NodeId, stop: bool, input: string, id: nat, fuel: nat): Run
    requires Valid(t) && root in t.attrs && id < 256
    decreases fuel, 0
  {
    if stop then Run(Some(0), [], input, id, 0, [], [])
    else if fuel == 0 then Run(None, [], input, id, 0, [], [])
    else ServeNext(t, root, stop, input, id, fuel - 1)
  }

  /** One more pass, then `fuel` passes left. */
  function ServeNext(t: Tree, root: NodeId, stop: bool, input: string, id: nat, fuel: nat): Run
    requires Valid(t) && root in t.attrs && id < 256
    decreases fuel, 2
  {
    ServeFrom(t, root, stop, ServePass(t, root, input, id), fuel)
  }

  /** The session once pass `p` has been made, with `fuel` passes left. */
  function ServeFrom(t: Tree, root: NodeId, stop: bool, p: Pass, fuel: nat): Run
    requires Valid(t) && root in t.attrs && p.id < 256
    decreases fuel, 1
  {
    match p
    case Next(said, rest, id') =>
      Resume([said], 1, Serve(t, root, stop, rest, id', fuel))
    case Leave(rest, id', unsent) =>
      Run(Some(0), [], rest, id', 1, [], unsent)
  }

  /** One pass of a running session, in terms of what the pass did. */
  lemma ServeStep(t: Tree, root: NodeId, stop: bool, input: string, id: nat, fuel: nat, p: Pass)
    requires Valid(t) && root in t.attrs && id < 256 && !stop && fuel > 0 && p == ServePass(t, root, input, id)
    ensures p.Next? ==> Serve(t, root, stop, input, id, fuel) == Resume([p.said], 1, Serve(t, root, stop, p.rest, p.id, fuel - 1))
    ensures p.Leave? ==> Serve(t, root, stop, input, id, fuel) == Run(Some(0), [], p.rest, p.id, 1, [], p.unsent)
  {
    assert Serve(t, root, stop, input, id, fuel) == ServeNext(t, root, stop, input, id, fuel - 1)
           == ServeFrom(t, root, stop, p, fuel - 1);
  }

  /** A session that is stopped, or out of passes, ends at once. */
  lemma ServeDone(t: Tree, root: NodeId, stop: bool, input: string, id: nat, n: nat)
    requires Valid(t) && root in t.attrs && id < 256 && (stop || n == 0)
    ensures Serve(t, root, stop, input, id, n) == Run(if stop then Some(0) else None, [], input, id, 0, [], [])
  {
  }

  /** A run resumed after one more said chunk is still the whole run. */
  lemma ResumeResume(out: seq<string>, passes: nat, said: string, a: Run, b: Run, whole: Run)
    requires Resume(out, passes, a) == whole && a == Resume([said], 1, b)
    ensures Resume(out + [said], passes + 1, b) == whole
  {
    assert out + ([said] + b.out) == out + [said] + b.out;
  }

  /** One pass of the loop of radsnmp_send_recv: allocate a request, read a
    * command and the lines it takes, and parse the OID into the request. */
  method OnePass(conf: Conf, input: Stdin, t: Tree) returns (p: Pass)
    requires Valid(t) && conf.snmpRoot in t.attrs && conf.Valid()
    modifies conf, input
    ensures conf.Valid()
    ensures p == ServePass(t, conf.snmpRoot, old(input.rest), old(conf.lastUsedId))
    ensures p.rest == input.rest && p.id == conf.lastUsedId
  {
    ghost var input0, id0 := input.rest, conf.lastUsedId;
    var request := conf.Alloc();
    var line := input.NextLine(LINE_BUFF);
    var command := CommandOf(line);
    if command == Exit {
      return Leave(input.rest, conf.lastUsedId, []);
    } else if command == Ping {
      return Next("PONG\n", input.rest, conf.lastUsedId);
    } else if command == Unknown {
      return Next("NONE\n", input.rest, conf.lastUsedId);
    }
    var oid := input.NextLine(LINE_BUFF);
    var value := None;
    if command == Set {
      value := input.NextLine(SET_VALUE_BUFF);
    }
    var slen, _ := PairFromOid(request, t, conf.snmpRoot, oid, value);
    if slen <= 0 {
      return Next("NONE\n", input.rest, conf.lastUsedId);
    }
    return Leave(input.rest, conf.lastUsedId, request.vps);
  }

  /** One pass of the loop, stated as the step it takes in the session:
    * `whole` is the session from its start, `out` what it has said so far. */
  method ServeOne(conf: Conf, input: Stdin, t: Tree, stop: bool, n: nat, out: seq<string>,
                  ghost passes: nat, ghost whole: Run)
    returns (p: Pass, out': seq<string>)
    requires Valid(t) && conf.snmpRoot in t.attrs && conf.Valid() && !stop && n > 0
    requires Resume(out, passes, Serve(t, conf.snmpRoot, stop, input.rest, conf.lastUsedId, n)) == whole
    modifies conf, input
    ensures conf.Valid()
    ensures p.Next? ==> out' == out + [p.said]
                        && Resume(out', passes + 1, Serve(t, conf.snmpRoot, stop, input.rest, conf.lastUsedId, n - 1)) == whole
    ensures p.Leave? ==> out' == out && whole == Run(Some(0), out, input.rest, conf.lastUsedId, passes + 1, [], p.unsent)
  {
    ghost var input0, id0 := input.rest, conf.lastUsedId;
    ghost var a := Serve(t, conf.snmpRoot, stop, input0, id0, n);
    p := OnePass(conf, input, t);
    ServeStep(t, conf.snmpRoot, stop, input0, id0, n, p);
    if p.Leave? {
      assert out + [] == out;
      return p, out;
    }
    ResumeResume(out, passes, p.said, a, Serve(t, conf.snmpRoot, stop, input.rest, conf.lastUsedId, n - 1), whole);
    out' := out + [p.said];
  }

  /** radsnmp_send_recv as written, for at most `fuel` passes of its loop. */
  method SendRecv(conf: Conf, input: Stdin, t: Tree, stop: bool, fuel: nat)
    returns (status: Option<int>, out: seq<string>, unsent: seq<Pair>)
    requires Valid(t) && conf.snmpRoot in t.attrs && conf.Valid()
    modifies conf, input
    ensures conf.Valid()
    ensures var r := Serve(t, conf.snmpRoot, stop, old(input.rest), old(conf.lastUsedId), fuel);
            r == Run(status, out, input.rest, conf.lastUsedId, r.passes, [], unsent)
  {
    ghost var whole := Serve(t, conf.snmpRoot, stop, input.rest, conf.lastUsedId, fuel);
    ghost var passes := 0;
    out, unsent := [], [];
    var n: nat := fuel;
    while !stop
      invariant conf.Valid() && n <= fuel
      invariant Resume(out, passes, Serve(t, conf.snmpRoot, stop, input.rest, conf.lastUsedId, n)) == whole
      decreases n
    {
      if n == 0 {
        ServeDone(t, conf.snmpRoot, stop, input.rest, conf.lastUsedId, n);
        assert out + [] == out;
        return None, out, [];
      }
      var p;
      p, out := ServeOne(conf, input, t, stop, n, out, passes, whole);
      n, passes := n - 1, passes + 1;
      if p.Leave? {
        unsent := p.unsent;
        break;
      }
    }
    if stop {
      ServeDone(t, conf.snmpRoot, stop, input.rest, conf.lastUsedId, n);
      assert out + [] == out;
    }
    status := Some(0);
  }

  /** A line without a newline that fits the 256-byte buffer whole. */
  predicate IsLine(s: string)
  {
    |s| < LINE_BUFF - 1 && forall i :: 0 <= i < |s| ==> s[i] != '\n'
  }

  /** A run makes at most `fuel` passes, each allocating one request, so the
    * request id counter moves on by one per pass modulo 256; as written no
    * request is ever sent. */
  lemma ServeIds(t: Tree, root: NodeId, stop: bool, input: string, id: nat, fuel: nat)
    requires Valid(t) && root in t.attrs && id < 256
    ensures var r := Serve(t, root, stop, input, id, fuel);
            && r.passes <= fuel && r.sent == []
            && r.lastUsedId == IdAfter(id, r.passes) == (id + r.passes) % 256
  {
    ServeIdsAfter(t, root, stop, input, id, fuel);
    IdAfterIsSum(id, Serve(t, root, stop, input, id, fuel).passes);
  }

  /** ServeIds, with the counter stated as so many allocations. */
  lemma {:induction false} ServeIdsAfter(t: Tree, root: NodeId, stop: bool, input: string, id: nat, fuel: nat)
    requires Valid(t) && root in t.attrs && id < 256
    ensures var r := Serve(t, root, stop, input, id, fuel);
            r.passes <= fuel && r.sent == [] && r.lastUsedId == IdAfter(id, r.passes)
    decreases fuel, 0
  {
    if !stop && fuel > 0 {
      ServeFromIds(t, root, stop, ServePass(t, root, input, id), id, fuel - 1);
    }
  }

  /** ServeIdsAfter once the first pass, which allocated once, is made. */
  lemma {:induction false} ServeFromIds(t: Tree, root: NodeId, stop: bool, p: Pass, id: nat, fuel: nat)
    requires Valid(t) && root in t.attrs && id < 256 && p.id == NextId(id)
    ensures var r := ServeFrom(t, root, stop, p, fuel);
            r.passes <= fuel + 1 && r.sent == [] && r.lastUsedId == IdAfter(id, r.passes)
    decreases fuel, 1
  {
    if p.Next? {
      ServeIdsAfter(t, root, stop, p.rest, p.id, fuel);
      IdAfterShift(id, Serve(t, root, stop, p.rest, p.id, fuel).passes);
    }
  }

  /** At the end of input fgets keeps returning NULL, which names no command:
    * every pass answers "NONE" and the loop goes on until stopped. */
  lemma {:induction false} EndOfInputSpins(t: Tree, root: NodeId, id: nat, fuel: nat)
    requires Valid(t) && root in t.attrs && id < 256
    ensures Serve(t, root, false, "", id, fuel) ==
            Run(None, seq(fuel, _ => "NONE\n"), "", (id + fuel) % 256, fuel, [], [])
    decreases fuel
  {
    if fuel > 0 {
      assert ServePass(t, root, "", id) == Next("NONE\n", "", NextId(id));
      ServeStep(t, root, false, "", id, fuel, ServePass(t, root, "", id));
      EndOfInputSpins(t, root, NextId(id), fuel - 1);
      NextIdPlus(id, fuel - 1);
      assert ["NONE\n"] + seq(fuel - 1, _ => "NONE\n") == seq(fuel, _ => "NONE\n");
    }
  }

  /** A command line naming the empty command, PING or no command: the loop
    * is left with EXIT_SUCCESS, "PONG" is answered, or "NONE" is answered,
    * and nothing more is read. */
  lemma ServeCommandLine(t: Tree, root: NodeId, line: string, rest: string, id: nat)
    requires Valid(t) && root in t.attrs && id < 256 && IsLine(line)
    ensures CommandOf(Some(line)) == Exit ==> ServePass(t, root, line + "\n" + rest, id) == Leave(rest, NextId(id), [])
    ensures CommandOf(Some(line)) == Ping ==> ServePass(t, root, line + "\n" + rest, id) == Next("PONG\n", rest, NextId(id))
    ensures CommandOf(Some(line)) == Unknown ==> ServePass(t, root, line + "\n" + rest, id) == Next("NONE\n", rest, NextId(id))
  {
    FgetsLine(line, rest, LINE_BUFF);
  }

  /** A pass whose command asks for an OID (and, for set, a value) reads
    * exactly those lines and then decides on the parse result alone. */
  lemma ServeParsedPass(t: Tree, root: NodeId, input: string, id: nat, line: string, in1: string,
                        oid: string, in2: string, value: Option<string>, in3: string)
    requires Valid(t) && root in t.attrs && id < 256
    requires Fgets(input, LINE_BUFF) == (Some(line), in1) && Fgets(in1, LINE_BUFF) == (Some(oid), in2)
    requires CommandOf(Some(line)) == Get || CommandOf(Some(line)) == GetNext || CommandOf(Some(line)) == Set
    requires CommandOf(Some(line)) == Set ==> Fgets(in2, SET_VALUE_BUFF) == (value, in3)
    requires CommandOf(Some(line)) != Set ==> value == None && in3 == in2
    ensures var p := FromOid(t, root, Some(oid), value, []);
            ServePass(t, root, input, id) ==
            if p.slen > 0 then Leave(in3, NextId(id), p.vps) else Next("NONE\n", in3, NextId(id))
  {
  }

  /** get and getnext read one more line, the OID: a parse result above 0
    * leaves the loop with the parsed pairs unsent; any other answers "NONE". */
  lemma ServeGetLines(t: Tree, root: NodeId, line: string, oid: string, rest: string, id: nat)
    requires Valid(t) && root in t.attrs && id < 256 && IsLine(line) && IsLine(oid)
    requires CommandOf(Some(line)) == Get || CommandOf(Some(line)) == GetNext
    ensures var p := FromOid(t, root, Some(oid), None, []);
            ServePass(t, root, line + "\n" + oid + "\n" + rest, id) ==
            if p.slen > 0 then Leave(rest, NextId(id), p.vps) else Next("NONE\n", rest, NextId(id))
  {
    var in1 := oid + "\n" + rest;
    FgetsLine(line, in1, LINE_BUFF);
    FgetsLine(oid, rest, LINE_BUFF);
    assert line + "\n" + oid + "\n" + rest == line + "\n" + in1;
    ServeParsedPass(t, root, line + "\n" + in1, id, line, in1, oid, rest, None, rest);
  }

  /** set reads two more lines, the OID and the value (the latter into a
    * 254-byte buffer), and treats the parse result as get does. */
  lemma ServeSetLines(t: Tree, root: NodeId, line: string, oid: string, value: string, rest: string, id: nat)
    requires Valid(t) && root in t.attrs && id < 256 && IsLine(line) && IsLine(oid)
    requires |value| < SET_VALUE_BUFF - 1 && forall i :: 0 <= i < |value| ==> value[i] != '\n'
    requires CommandOf(Some(line)) == Set
    ensures var p := FromOid(t, root, Some(oid), Some(value), []);
            ServePass(t, root, line + "\n" + oid + "\n" + value + "\n" + rest, id) ==
            if p.slen > 0 then Leave(rest, NextId(id), p.vps) else Next("NONE\n", rest, NextId(id))
  {
    var in2 := value + "\n" + rest;
    var in1 := oid + "\n" + in2;
    FgetsLine(line, in1, LINE_BUFF);
    FgetsLine(oid, in2, LINE_BUFF);
    FgetsLine(value, rest, SET_VALUE_BUFF);
    assert line + "\n" + oid + "\n" + value + "\n" + rest == line + "\n" + in1;
    ServeParsedPass(t, root, line + "\n" + in1, id, line, in1, oid, in2, Some(value), rest);
  }

  /** The OID text of a leaf below the root is a single non-empty line that
    * parses to the leaf's placeholder pair. */
  lemma LeafOidLine(t: Tree, root: NodeId, l: NodeId)
    requires Valid(t) && root in t.attrs && l in t.attrs && ParentCommon(t, root, l).Some?
    requires t.attrs[l].num != 0 && t.attrs[l].kind != Tlv
    requires |OidText(OidPath(t, root, l))| < LINE_BUFF - 1
    ensures var s := OidText(OidPath(t, root, l));
            && IsLine(s) && |s| > 0
            && FromOid(t, root, Some(s), None, []) == OidResult(|s|, [Pair(l, Placeholder(t.attrs[l].kind))], NoError)
  {
    var path := OidPath(t, root, l);
    ParentFacts(t, l);
    assert path == OidPath(t, root, t.attrs[l].parent) + [t.attrs[l].num];
    var s := OidText(path);
    assert |s| > 0 by { assert |NatText(path[0])| > 0; }
    OidTextChars(path);
    var k := t.attrs[l].kind;
    assert WellTyped(k, Placeholder(k));
    FromOidPath(t, root, l, Placeholder(k), []);
    assert [] + [Pair(l, Placeholder(k))] == [Pair(l, Placeholder(k))];
  }

  /** "get" followed by an OID line: two lines, the first naming GET. */
  lemma GetLines(oid: string, rest: string)
    requires IsLine(oid)
    ensures Fgets("get\n" + oid + "\n" + rest, LINE_BUFF) == (Some("get"), oid + "\n" + rest)
    ensures Fgets(oid + "\n" + rest, LINE_BUFF) == (Some(oid), rest)
    ensures CommandOf(Some("get")) == Get
  {
    CommandOfName("get");
    assert EqualsIgnoreCase(CommandName(Get), "get");
    var in1 := oid + "\n" + rest;
    FgetsLine("get", in1, LINE_BUFF);
    FgetsLine(oid, rest, LINE_BUFF);
    assert "get" + "\n" == "get\n";
    assert "get\n" + oid + "\n" + rest == "get" + "\n" + in1;
  }

  /** As written, a get naming any leaf of the tree ends the session at once
    * with EXIT_SUCCESS: no request is sent and net-snmp gets no answer. */
  lemma GetOfLeafEndsSession(t: Tree, root: NodeId, l: NodeId, rest: string, id: nat, fuel: nat)
    requires Valid(t) && root in t.attrs && id < 256 && l in t.attrs && ParentCommon(t, root, l).Some?
    requires t.attrs[l].num != 0 && t.attrs[l].kind != Tlv
    requires |OidText(OidPath(t, root, l))| < LINE_BUFF - 1
    ensures Serve(t, root, false, "get\n" + OidText(OidPath(t, root, l)) + "\n" + rest, id, fuel + 1) ==
            Run(Some(0), [], rest, NextId(id), 1, [], [Pair(l, Placeholder(t.attrs[l].kind))])
  {
    var s := OidText(OidPath(t, root, l));
    LeafOidLine(t, root, l);
    CommandOfName("get");
    assert EqualsIgnoreCase(CommandName(Get), "get");
    ServeGetLines(t, root, "get", s, rest, id);
    assert "get" + "\n" == "get\n";
    var input := "get\n" + s + "\n" + rest;
    ServeStep(t, root, false, input, id, fuel + 1, ServePass(t, root, input, id));
  }
}
