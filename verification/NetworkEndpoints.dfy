/**
 What the two endpoints do with failures, with the answers to their reports and with
 what they send: the callers of `emitDisconnect` in src/core/network.c, over runs.
 */
module NetworkEndpoints {
  import opened Options
  import opened Messages
  import opened NetworkState
  import opened NetworkRuns
  import opened NetworkProgress

  /** The endpoint whose thread takes the step, if it is one of them. */
  function By(a: Act): Option<Side> {
    match a
    case Connect => None
    case SerialArrives => Some(Recv)
    case RWake => Some(Recv)
    case RRead => Some(Recv)
    case RDone(_) => Some(Recv)
    case RReport => Some(Recv)
    case _ => Some(Send)
  }

  predicate Failed(w: World, side: Side) { if side == Send then w.snd.SFailed? else w.rcv.RFailed? }

  /** An endpoint gives up its socket: an operation failed, the check said no, or it lost patience. */
  predicate GivesUp(w: World, a: Act, side: Side) {
    if side == Recv then a == RDone(false)
    else a == SDone(false) || a == SForce || (a == SCheck && (w.net.conn == Disconnected || w.net.trans == TransitSend))
  }

  /**
   The receiver obeys the answer: it goes on receiving in the same call exactly if
   there is a connection after its report, which is then the open one its sender has;
   otherwise it waits. The sender always gives up what it was doing and waits.
   */
  lemma AnswerIsObeyed(states: seq<World>, acts: seq<Act>, i: nat)
    requires IsRun(states, acts) && i < |acts|
    ensures acts[i] == RReport ==> (states[i + 1].rcv == RReady <==> states[i + 1].net.conn == Connected)
    ensures acts[i] == RReport ==> (states[i + 1].rcv == RWaiting <==> states[i + 1].net.conn == Disconnected)
    ensures acts[i] == RReport && states[i + 1].rcv == RReady ==>
              && states[i + 1].net.recvsock == states[i].net.sendsock
              && states[i + 1].net.StatusOf(states[i + 1].net.recvsock) == Open
    ensures acts[i] == SReport ==> states[i + 1].snd == SWaiting
  {
    hide Sent;
    Reachable(states, acts, i);
    if acts[i] == RReport {
      var w := states[i];
      assert !Idle(w, Recv);
      AssertionFailsOnlyOffline(w.net, Recv);
      ReportRefinesProtocol(w.net, Recv);
      VariableNamesHeldSocket(w.net, Send);
      VariableNamesHeldSocket(states[i + 1].net, Recv);
    }
  }

  lemma GivingUpStep(w: World, a: Act, side: Side)
    requires Disciplined(w) && Enabled(w, a)
    ensures GivesUp(w, a, side) <==> !Failed(w, side) && Failed(Next(w, a), side)
    ensures GivesUp(w, a, side) && side == Send ==> Next(w, a) == w.(snd := SFailed(w.net.sendsock))
    ensures GivesUp(w, a, side) && side == Recv ==> Next(w, a) == w.(rcv := RFailed(w.net.recvsock))
    ensures GivesUp(w, a, side) ==> w.net.Var(side).Fd?
  {
    hide Good, Emitted, Established;
    assert InHand(w, side).Some? ==> InHand(w, side).value == w.net.Var(side);
    assert !Idle(w, side) ==> w.net.Var(side).Fd?;
  }

  /**
   Giving up changes nothing but the endpoint, which then has the very socket its
   variable names to report.
   */
  lemma GivingUpIsLocal(states: seq<World>, acts: seq<Act>, i: nat, side: Side)
    requires IsRun(states, acts) && i < |acts|
    ensures GivesUp(states[i], acts[i], side) <==> !Failed(states[i], side) && Failed(states[i + 1], side)
    ensures GivesUp(states[i], acts[i], side) && side == Send ==>
              states[i + 1] == states[i].(snd := SFailed(states[i].net.sendsock))
    ensures GivesUp(states[i], acts[i], side) && side == Recv ==>
              states[i + 1] == states[i].(rcv := RFailed(states[i].net.recvsock))
    ensures GivesUp(states[i], acts[i], side) ==> states[i].net.Var(side).Fd?
  {
    hide Disciplined, WireOk, GivesUp, Failed;
    Reachable(states, acts, i);
    GivingUpStep(states[i], acts[i], side);
  }

  /**
   Every operation may fail: an endpoint with a message or a receive under way may give
   up in the next step, and so may a sender that waits for its serial number; one that
   has failed can always report.
   */
  lemma AnythingMayFail(states: seq<World>, acts: seq<Act>, i: nat, side: Side)
    requires IsRun(states, acts) && i < |states|
    requires states[i].snd.Sending? || states[i].snd == SReady(AwaitSerial) || side == Recv
    requires states[i].rcv.Receiving? || side == Send
    ensures exists a :: Enabled(states[i], a) && GivesUp(states[i], a, side)
                        && Enabled(Next(states[i], a), ReportOf(side))
  {
    hide Disciplined, WireOk;
    Reachable(states, acts, i);
    var a := if side == Recv then RDone(false) else if states[i].snd.Sending? then SDone(false) else SForce;
    assert Enabled(states[i], a) && GivesUp(states[i], a, side);
    GivingUpStep(states[i], a, side);
  }

  /**
   A failure stays until it is reported: whatever happens in between, the endpoint
   does nothing else, and it still has the same socket to report, unclosed.
   */
  lemma {:induction false} FailedUntilReported(states: seq<World>, acts: seq<Act>, i: nat, j: nat, side: Side)
    requires IsRun(states, acts) && i <= j < |states|
    requires Failed(states[i], side)
    requires ReportOf(side) !in acts[i..j]
    ensures Failed(states[j], side) && InHand(states[j], side) == InHand(states[i], side)
    ensures InHand(states[j], side) == Some(states[j].net.Var(side))
    ensures states[j].net.StatusOf(states[j].net.Var(side)) != Closed
    ensures forall k :: i <= k < j ==> By(acts[k]) != Some(side)
    decreases j
  {
    if i < j {
      assert acts[i..j] == acts[i..j - 1] + [acts[j - 1]];
      FailedUntilReported(states, acts, i, j - 1, side);
      assert Enabled(states[j - 1], acts[j - 1]) && states[j] == Next(states[j - 1], acts[j - 1]);
      assert acts[j - 1] != ReportOf(side);
      assert By(acts[j - 1]) != Some(side);
    }
    EveryStateIsSafe(states, acts, j);
  }

  /** No step of another thread touches what an endpoint is doing. */
  lemma EndpointsAreSeparate(states: seq<World>, acts: seq<Act>, i: nat)
    requires IsRun(states, acts) && i < |acts|
    ensures By(acts[i]) != Some(Send) ==> states[i + 1].snd == states[i].snd
    ensures By(acts[i]) != Some(Recv) ==> states[i + 1].rcv == states[i].rcv
    ensures By(acts[i]).None? ==> states[i].net.conn == Disconnected && states[i + 1].net.conn == Connected
  {
    assert Enabled(states[i], acts[i]) && states[i + 1] == Next(states[i], acts[i]);
  }

  // ------------------------------------------------------- what is on the wires

  /** The message the sender took up last. */
  function LastRead(acts: seq<Act>): Option<Msg> {
    if acts == [] then None
    else
      var a := acts[|acts| - 1];
      if a.SRead? then Some(a.msg) else LastRead(acts[..|acts| - 1])
  }

  /**
   What a run sent on socket `x`, told from its steps alone: whenever a send
   succeeds while `sendsock` is `x`, the message taken up last.
   */
  ghost function Record(states: seq<World>, acts: seq<Act>, i: nat, x: nat): seq<Msg>
    requires |states| == |acts| + 1 && i < |states|
  {
    if i == 0 then []
    else
      var m := LastRead(acts[..i - 1]);
      Record(states, acts, i - 1, x)
      + (if acts[i - 1] == SDone(true) && states[i - 1].net.sendsock == Fd(x) && m.Some? then [m.value] else [])
  }

  lemma {:induction false} SendingWhatWasRead(states: seq<World>, acts: seq<Act>, i: nat)
    requires IsRun(states, acts) && i < |states|
    ensures states[i].snd.Sending? ==> LastRead(acts[..i]) == Some(states[i].snd.msg)
  {
    if i > 0 {
      SendingWhatWasRead(states, acts, i - 1);
      assert acts[..i][..i - 1] == acts[..i - 1];
      assert Enabled(states[i - 1], acts[i - 1]) && states[i] == Next(states[i - 1], acts[i - 1]);
    }
  }

  function WireOf(w: World, x: nat): seq<Msg> { if x < |w.wire| then w.wire[x] else [] }

  lemma WireStep(w: World, a: Act, x: nat)
    requires Disciplined(w) && |w.wire| == |w.net.status| && Enabled(w, a)
    ensures WireOf(Next(w, a), x) ==
            WireOf(w, x) + if a == SDone(true) && w.net.sendsock == Fd(x) then [w.snd.msg] else []
  {
    hide Emitted;
    assert InHand(w, Send).Some? ==> InHand(w, Send).value == w.net.Var(Send);
  }

  lemma SDoneSends(w: World, a: Act)
    requires Enabled(w, a)
    ensures a == SDone(true) ==> w.snd.Sending?
  {
  }

  /** Over every run, what the server got on each socket is exactly what was sent successfully, in order. */
  lemma {:induction false} WireIsRecord(states: seq<World>, acts: seq<Act>, i: nat, x: nat)
    requires IsRun(states, acts) && i < |states|
    ensures |states[i].wire| == |states[i].net.status|
    ensures Record(states, acts, i, x) == if x < |states[i].wire| then states[i].wire[x] else []
  {
    hide Disciplined, Session, Sent, Next, Enabled, LastRead;
    Reachable(states, acts, i);
    if i > 0 {
      WireIsRecord(states, acts, i - 1, x);
      SendingWhatWasRead(states, acts, i - 1);
      Reachable(states, acts, i - 1);
      WireStep(states[i - 1], acts[i - 1], x);
      SDoneSends(states[i - 1], acts[i - 1]);
    }
  }

  // -------------------------------------------------------------- serial number

  /** A serial number is never forgotten, and no other thread can take it away. */
  lemma {:induction false} SerialIsKept(states: seq<World>, acts: seq<Act>, i: nat, j: nat)
    requires IsRun(states, acts) && i <= j < |states|
    ensures states[j].hasSerial <==> states[i].hasSerial || SerialArrives in acts[i..j]
    decreases j
  {
    if i < j {
      SerialIsKept(states, acts, i, j - 1);
      assert acts[i..j] == acts[i..j - 1] + [acts[j - 1]];
      assert states[j] == Next(states[j - 1], acts[j - 1]);
    }
  }

  predicate PastSerial(st: Stage) { st in {SendSerial, AtPosition, AtUser, Relaying} }

  /**
   The serial number is sent, and the login goes on behind it, only once there is one:
   either configured or received before.
   */
  lemma {:induction false} NoSerialBeforeItIsKnown(states: seq<World>, acts: seq<Act>, i: nat, x: nat)
    requires IsRun(states, acts) && i < |states|
    ensures (states[i].snd.SReady? || states[i].snd.Sending?) && PastSerial(states[i].snd.stage) ==> states[i].hasSerial
    ensures x < |states[i].wire| && Serial in states[i].wire[x] ==> states[i].hasSerial
    ensures x < |states[i].wire| && Serial in states[i].wire[x] ==>
              states[0].hasSerial || SerialArrives in acts[..i]
  {
    if i > 0 {
      NoSerialBeforeItIsKnown(states, acts, i - 1, x);
      Reachable(states, acts, i - 1);
      assert Enabled(states[i - 1], acts[i - 1]) && states[i] == Next(states[i - 1], acts[i - 1]);
    }
    SerialIsKept(states, acts, 0, i);
    assert acts[0..i] == acts[..i];
  }
}
