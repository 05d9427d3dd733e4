/** The retry loop of radsnmp_send_recv (lines 725-767): up to `retries`
  * times, write the request, wait for the socket, receive and decode the
  * reply. The socket calls are not modelled; what each attempt saw is given
  * as an `Attempt`, and attempts beyond the list given are timeouts. */
module Retry {
  import opened Pairs

  /** What one pass of the retry loop saw: write() failed, select() returned
    * -1, 0 (a timeout) or some value other than 0 and 1, rad_recv() failed,
    * rad_decode() failed, or a decoded reply with its pairs. */
  datatype Attempt = WriteFails | SelectFails | TimedOut | SelectOther(rcode: int)
                   | RecvFails | DecodeFails | Answered(vps: seq<Pair>)

  /** The state of the `reply` pointer: never set or reset by a failed
    * receive, pointing at a reply freed with its request after a failed
    * decode, or pointing at a decoded reply. */
  datatype ReplyPtr = NoReply | Freed | Got(vps: seq<Pair>)

  /** How the exchange ends: EXIT_FAILURE, a decoded reply, a reply freed
    * before use (as written only), or a bad reply answered with "NONE"
    * (as intended only). */
  datatype Outcome = Fatal | Reply(vps: seq<Pair>) | Dangling | BadReply

  /** The outcome, the chunks written to stdout and the number of times the
    * request was written to the socket. */
  datatype Exchange = Exchange(outcome: Outcome, out: seq<string>, sends: nat)

  function AttemptAt(net: seq<Attempt>, i: nat): Attempt
  {
    if i < |net| then net[i] else TimedOut
  }

  /** What pass `i` of the loop sees. The fd_set is filled once, before the
    * loop (lines 717-718), and a select() that times out empties it: once
    * it is empty, select() can still fail, but it can no longer report the
    * socket readable, so every later pass times out unless the write or the
    * select itself fails. */
  function Seen(net: seq<Attempt>, i: nat, armed: bool): (a: Attempt)
    ensures armed ==> a == AttemptAt(net, i)
    ensures !armed ==> a == TimedOut || a == WriteFails || a == SelectFails
    ensures !armed && (AttemptAt(net, i) == WriteFails || AttemptAt(net, i) == SelectFails) ==> a == AttemptAt(net, i)
  {
    var a := AttemptAt(net, i);
    if armed || a == WriteFails || a == SelectFails then a else TimedOut
  }

  /** An exchange preceded by `out` and `sends` more writes. */
  function After(out: seq<string>, sends: nat, x: Exchange): Exchange
  {
    Exchange(x.outcome, out + x.out, sends + x.sends)
  }

  /** The retry loop as written, from pass `i` with `reply` as left by the
    * passes before and `armed` telling whether the fd_set still holds the
    * socket. The `continue` after a failed receive or decode (line 749)
    * continues this `for` loop, so the request is written again. */
  function Retried(net: seq<Attempt>, retries: nat, i: nat, reply: ReplyPtr, armed: bool): (x: Exchange)
    requires i <= retries
    ensures x.sends <= retries - i
    ensures x.outcome.BadReply? == false
    ensures x.outcome.Dangling? ==> reply.Freed? || DecodeFails in net
    ensures x.outcome.Reply? ==> armed || reply.Got?
    decreases retries - i
  {
    if i == retries then
      Exchange(match reply
               case NoReply => Fatal
               case Freed => Dangling
               case Got(vps) => Reply(vps), [], 0)
    else
      match Seen(net, i, armed)
      case WriteFails => Exchange(Fatal, [], 1)
      case SelectFails => Exchange(Fatal, [], 1)
      case SelectOther(_) => Exchange(Fatal, [], 1)
      case TimedOut => After([], 1, Retried(net, retries, i + 1, reply, false))
      case RecvFails => After(["NONE\n"], 1, Retried(net, retries, i + 1, NoReply, armed))
      case DecodeFails => After(["NONE\n"], 1, Retried(net, retries, i + 1, Freed, armed))
      case Answered(vps) => Exchange(Reply(vps), [], 1)
  }

  lemma AfterAfter(out: seq<string>, sends: nat, out2: seq<string>, sends2: nat, x: Exchange)
    ensures After(out, sends, After(out2, sends2, x)) == After(out + out2, sends + sends2, x)
  {
    assert out + (out2 + x.out) == out + out2 + x.out;
  }

  /** The retry loop as written. */
  method RetryLoop(net: seq<Attempt>, retries: nat) returns (x: Exchange)
    ensures x == Retried(net, retries, 0, NoReply, true)
  {
    ghost var whole := Retried(net, retries, 0, NoReply, true);
    var reply := NoReply;
    var armed := true;      // FD_ZERO and FD_SET, once
    var out: seq<string> := [];
    var sends: nat := 0;
    for i := 0 to retries
      invariant After(out, sends, Retried(net, retries, i, reply, armed)) == whole
    {
      var a := Seen(net, i, armed);
      match a {
        case WriteFails => return Exchange(Fatal, out, sends + 1);
        case SelectFails => return Exchange(Fatal, out, sends + 1);
        case SelectOther(_) => return Exchange(Fatal, out, sends + 1);
        case TimedOut =>
          AfterAfter(out, sends, [], 1, Retried(net, retries, i + 1, reply, false));
          assert out + [] == out;
          armed := false;   // select() emptied the set
        case RecvFails =>
          AfterAfter(out, sends, ["NONE\n"], 1, Retried(net, retries, i + 1, NoReply, armed));
          out := out + ["NONE\n"];
          reply := NoReply;
        case DecodeFails =>
          AfterAfter(out, sends, ["NONE\n"], 1, Retried(net, retries, i + 1, Freed, armed));
          out := out + ["NONE\n"];
          reply := Freed;
        case Answered(vps) =>
          assert out + [] == out;
          return Exchange(Reply(vps), out, sends + 1);
      }
      sends := sends + 1;
    }
    assert out + [] == out;
    match reply {
      case NoReply => x := Exchange(Fatal, out, sends);
      case Freed => x := Exchange(Dangling, out, sends);
      case Got(vps) => x := Exchange(Reply(vps), out, sends);
    }
  }

  /** The retry loop as evidently intended: a reply that cannot be received
    * or decoded is answered with "NONE" and ends the exchange, and the
    * session goes on with the next command. */
  function Exchanged(net: seq<Attempt>, retries: nat, i: nat): (x: Exchange)
    requires i <= retries
    ensures x.sends <= retries - i
    ensures x.outcome.Dangling? == false
    ensures x.outcome.BadReply? <==> x.out == ["NONE\n"]
    ensures !x.outcome.BadReply? ==> x.out == []
    ensures x.outcome.Reply? ==> Answered(x.outcome.vps) in net
    decreases retries - i
  {
    if i == retries then Exchange(Fatal, [], 0)
    else
      match AttemptAt(net, i)
      case WriteFails => Exchange(Fatal, [], 1)
      case SelectFails => Exchange(Fatal, [], 1)
      case SelectOther(_) => Exchange(Fatal, [], 1)
      case TimedOut => After([], 1, Exchanged(net, retries, i + 1))
      case RecvFails => Exchange(BadReply, ["NONE\n"], 1)
      case DecodeFails => Exchange(BadReply, ["NONE\n"], 1)
      case Answered(vps) => Exchange(Reply(vps), [], 1)
  }

  /** Every pass timed out: the server did not respond, which is fatal both
    * as written and as intended, after exactly `retries` writes. */
  lemma {:induction false} TimeoutsAreFatal(net: seq<Attempt>, retries: nat, i: nat, armed: bool)
    requires i <= retries
    requires forall j :: i <= j < retries ==> AttemptAt(net, j) == TimedOut
    ensures Retried(net, retries, i, NoReply, armed) == Exchange(Fatal, [], retries - i)
    ensures Exchanged(net, retries, i) == Exchange(Fatal, [], retries - i)
    decreases retries - i
  {
    if i < retries {
      TimeoutsAreFatal(net, retries, i + 1, false);
    }
  }

  /** Once the fd_set is empty, nothing more is written to stdout and no reply
    * is taken: without a reply left by the passes before, the exchange is
    * fatal, whatever the network does. */
  lemma {:induction false} DisarmedNoReply(net: seq<Attempt>, retries: nat, i: nat, reply: ReplyPtr)
    requires i <= retries && !reply.Got?
    ensures var x := Retried(net, retries, i, reply, false);
            && x.out == [] && !x.outcome.Reply?
            && (reply.NoReply? ==> x.outcome == Fatal)
    decreases retries - i
  {
    if i < retries {
      DisarmedNoReply(net, retries, i + 1, reply);
    }
  }

  /** A decoded reply after nothing but timeouts: as intended it is taken,
    * after one write per pass up to it. As written it is taken only on the
    * first pass; after a timeout the emptied fd_set hides it, and the
    * exchange ends in "Server didn't respond". */
  lemma {:induction false} FirstReplyTaken(net: seq<Attempt>, retries: nat, i: nat, k: nat, vps: seq<Pair>)
    requires i <= k < retries && AttemptAt(net, k) == Answered(vps)
    requires forall j :: i <= j < k ==> AttemptAt(net, j) == TimedOut
    ensures k == i ==> Retried(net, retries, i, NoReply, true) == Exchange(Reply(vps), [], 1)
    ensures k > i ==> Retried(net, retries, i, NoReply, true).outcome == Fatal
                      && Retried(net, retries, i, NoReply, true).out == []
    ensures Exchanged(net, retries, i) == Exchange(Reply(vps), [], k - i + 1)
    decreases k - i
  {
    if i < k {
      FirstReplyTaken(net, retries, i + 1, k, vps);
      DisarmedNoReply(net, retries, i + 1, NoReply);
    }
  }

  /** Without a send failure or a select error, the intended exchange ends
    * with the first attempt that is not a timeout. */
  lemma {:induction false} ExchangedFirst(net: seq<Attempt>, retries: nat, i: nat, k: nat)
    requires i <= k < retries
    requires forall j :: i <= j < k ==> AttemptAt(net, j) == TimedOut
    requires AttemptAt(net, k) == RecvFails || AttemptAt(net, k) == DecodeFails
    ensures Exchanged(net, retries, i) == Exchange(BadReply, ["NONE\n"], k - i + 1)
    decreases k - i
  {
    if i < k {
      ExchangedFirst(net, retries, i + 1, k);
    }
  }

  /** With no retries at all the request is never written and the exchange
    * fails. */
  lemma NoRetriesFatal(net: seq<Attempt>)
    ensures Retried(net, 0, 0, NoReply, true) == Exchange(Fatal, [], 0)
    ensures Exchanged(net, 0, 0) == Exchange(Fatal, [], 0)
  {
  }

  /** As written, a reply that is not received answers "NONE" and the
    * request is written again: the next reply is then taken as the answer,
    * so net-snmp reads two answers for one command. As intended the first
    * bad reply ends the exchange with the single "NONE". */
  lemma BadReplyKeepsRetrying(vps: seq<Pair>, retries: nat)
    requires retries >= 2
    ensures Retried([RecvFails, Answered(vps)], retries, 0, NoReply, true) == Exchange(Reply(vps), ["NONE\n"], 2)
    ensures Exchanged([RecvFails, Answered(vps)], retries, 0) == Exchange(BadReply, ["NONE\n"], 1)
  {
    var net := [RecvFails, Answered(vps)];
    assert AttemptAt(net, 0) == RecvFails && AttemptAt(net, 1) == Answered(vps);
    assert Retried(net, retries, 1, NoReply, true) == Exchange(Reply(vps), [], 1);
  }

  /** As written, when every pass up to the last gets a reply that cannot be
    * received or decoded, and the last one's cannot be decoded, `reply` is
    * left pointing at memory freed with the request, which the code after
    * the loop then reads; each pass answered "NONE". */
  lemma {:induction false} LastDecodeFailsDangles(net: seq<Attempt>, retries: nat, i: nat, reply: ReplyPtr)
    requires i < retries && AttemptAt(net, retries - 1) == DecodeFails
    requires forall j :: i <= j < retries - 1 ==> AttemptAt(net, j) == RecvFails || AttemptAt(net, j) == DecodeFails
    ensures Retried(net, retries, i, reply, true) == Exchange(Dangling, seq(retries - i, _ => "NONE\n"), retries - i)
    decreases retries - i
  {
    if i < retries - 1 {
      var next := if AttemptAt(net, i) == RecvFails then NoReply else Freed;
      LastDecodeFailsDangles(net, retries, i + 1, next);
      assert ["NONE\n"] + seq(retries - i - 1, _ => "NONE\n") == seq(retries - i, _ => "NONE\n");
    } else {
      assert Retried(net, retries, i + 1, Freed, true) == Exchange(Dangling, [], 0);
      assert ["NONE\n"] + [] == seq(1, _ => "NONE\n");
    }
  }

  /** As written, a reply that comes after a timeout is never seen: the
    * exchange ends in "Server didn't respond" after every retry is spent.
    * As intended the reply is taken. */
  lemma TimeoutThenReplyLost(vps: seq<Pair>, retries: nat)
    requires retries >= 2
    ensures Retried([TimedOut, Answered(vps)], retries, 0, NoReply, true) == Exchange(Fatal, [], retries)
    ensures Exchanged([TimedOut, Answered(vps)], retries, 0) == Exchange(Reply(vps), [], 2)
  {
    var net := [TimedOut, Answered(vps)];
    FirstReplyTaken(net, retries, 0, 1, vps);
    DisarmedSends(net, retries, 1);
  }

  /** Once the fd_set is empty and nothing fails, every remaining pass writes
    * the request once more. */
  lemma {:induction false} DisarmedSends(net: seq<Attempt>, retries: nat, i: nat)
    requires i <= retries
    requires forall j :: i <= j < retries ==> AttemptAt(net, j) != WriteFails && AttemptAt(net, j) != SelectFails
    ensures Retried(net, retries, i, NoReply, false) == Exchange(Fatal, [], retries - i)
    decreases retries - i
  {
    if i < retries {
      DisarmedSends(net, retries, i + 1);
    }
  }
}
