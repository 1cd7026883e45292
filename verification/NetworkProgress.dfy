/**
 How the endpoints of src/core/network.c come together again: what ends a split,
 and that a working connection can always be reached within nine steps in which
 nothing fails but operations on sockets that were shut down.
 */
module NetworkProgress {
  import opened Options
  import opened Messages
  import opened NetworkState
  import opened NetworkRuns

  function ReportOf(side: Side): Act { if side == Send then SReport else RReport }

  /**
   In every reachable split the follower works on the stale socket or on none, and
   that socket is shut; the leader's is another one, and open.
   */
  lemma FollowerSeesShut(states: seq<World>, acts: seq<Act>, i: nat, l: Side, t: nat, f: Option<nat>)
    requires IsRun(states, acts) && i < |states| && PhaseOf(states[i].net) == Some(Split(l, t, f))
    ensures states[i].net.Var(l.Other()) == Fd(t) && states[i].net.StatusOf(Fd(t)) == Shut
    ensures InHand(states[i], l.Other()).Some? ==> InHand(states[i], l.Other()).value == Fd(t)
    ensures f.Some? ==>
              f.value != t && states[i].net.Var(l) == Fd(f.value) && states[i].net.StatusOf(Fd(f.value)) == Open
  {
    Reachable(states, acts, i);
    VariableNamesHeldSocket(states[i].net, l);
    VariableNamesHeldSocket(states[i].net, l.Other());
  }

  /**
   A split ends by the follower's own report and by nothing else: that leads to the
   leader's connection, if there is one, and offline otherwise. All other steps
   leave leader and stale socket as they are.
   */
  lemma SplitEndsOnlyByFollower(states: seq<World>, acts: seq<Act>, i: nat, l: Side, t: nat, f: Option<nat>)
    requires IsRun(states, acts) && i < |acts| && PhaseOf(states[i].net) == Some(Split(l, t, f))
    ensures acts[i] == ReportOf(l.Other()) ==>
              PhaseOf(states[i + 1].net) == Some(if f.Some? then Online(f.value) else Offline)
    ensures acts[i] != ReportOf(l.Other()) ==>
              exists g :: PhaseOf(states[i + 1].net) == Some(Split(l, t, g))
  {
    Reachable(states, acts, i);
    var w := states[i];
    match acts[i] {
      case Connect => ConnectRefinesProtocol(w.net);
      case SReport => ReportRefinesProtocol(w.net, Send);
      case RReport => ReportRefinesProtocol(w.net, Recv);
      case _ =>
    }
  }

  // ---------------------------------------------------------------- convergence

  /** Operations fail on sockets that are shut, and nobody gives up a connection that works. */
  predicate Healthy(w: World, a: Act) {
    match a
    case SForce => false
    case SDone(ok) => !ok ==> w.snd.Sending? && w.net.StatusOf(w.snd.sock) == Shut
    case RDone(ok) => !ok ==> w.rcv.Receiving? && w.net.StatusOf(w.rcv.sock) == Shut
    case _ => true
  }

  ghost predicate Path(w: World, acts: seq<Act>)
    decreases |acts|
  {
    acts != [] ==> Enabled(w, acts[0]) && Healthy(w, acts[0]) && Path(Next(w, acts[0]), acts[1..])
  }

  ghost function Last(w: World, acts: seq<Act>): World
    requires Path(w, acts)
    decreases |acts|
  {
    if acts == [] then w else Last(Next(w, acts[0]), acts[1..])
  }

  lemma {:induction false} PathConcat(w: World, a: seq<Act>, b: seq<Act>)
    requires Path(w, a) && Path(Last(w, a), b)
    ensures Path(w, a + b) && Last(w, a + b) == Last(Last(w, a), b)
    decreases |a|
  {
    if a == [] {
      assert a + b == b;
    } else {
      PathConcat(Next(w, a[0]), a[1..], b);
      assert (a + b)[1..] == a[1..] + b;
    }
  }

  lemma NoStep(w: World)
    ensures Path(w, []) && Last(w, []) == w
  {
  }

  lemma OneStep(w: World, a: Act)
    requires Disciplined(w) && Enabled(w, a) && Healthy(w, a)
    ensures Path(w, [a]) && Last(w, [a]) == Next(w, a) && Disciplined(Next(w, a))
  {
    DisciplineKept(w, a);
    NoStep(Next(w, a));
    assert [a][1..] == [];
  }

  /** One more step at the end. */
  lemma PathPlus(w: World, acts: seq<Act>, a: Act)
    requires Path(w, acts) && Disciplined(Last(w, acts)) && Enabled(Last(w, acts), a) && Healthy(Last(w, acts), a)
    ensures Path(w, acts + [a]) && Last(w, acts + [a]) == Next(Last(w, acts), a)
    ensures Disciplined(Last(w, acts + [a]))
  {
    OneStep(Last(w, acts), a);
    PathConcat(w, acts, [a]);
  }

  /** Both endpoints work on the same open connection. */
  predicate Settled(w: World) {
    && PhaseOf(w.net).Some? && PhaseOf(w.net).value.Online?
    && w.net.StatusOf(Fd(PhaseOf(w.net).value.sock)) == Open
    && !Idle(w, Send) && !Idle(w, Recv)
  }

  /** Nobody has a failure to report. */
  predicate Clear(w: World) { !w.snd.SFailed? && !w.rcv.RFailed? }

  /** Pending reports first. */
  lemma Reporting(w: World) returns (acts: seq<Act>)
    requires Disciplined(w)
    ensures Path(w, acts) && |acts| <= 2 && Disciplined(Last(w, acts)) && Clear(Last(w, acts))
  {
    hide Path, Last, Disciplined, Emitted;
    acts := [];
    NoStep(w);
    if w.snd.SFailed? {
      PathPlus(w, acts, SReport);
      acts := acts + [SReport];
    }
    if w.rcv.RFailed? {
      PathPlus(w, acts, RReport);
      acts := acts + [RReport];
    }
  }

  /** Then the connector. */
  lemma Connecting(w: World) returns (acts: seq<Act>)
    requires Disciplined(w) && Clear(w)
    ensures Path(w, acts) && |acts| <= 1 && Disciplined(Last(w, acts)) && Clear(Last(w, acts))
    ensures Last(w, acts).net.conn == Connected
  {
    acts := [];
    NoStep(w);
    if w.net.conn == Disconnected {
      PathPlus(w, acts, Connect);
      acts := [] + [Connect];
    }
  }

  /** A message the sender may send, unless it is waiting for its serial number. */
  function Something(st: Stage): Msg {
    match st
    case AtDeviceId => DeviceId
    case AtSerial => SerialRequest
    case AwaitSerial => KeepAlive
    case SendSerial => Serial
    case AtPosition => Position
    case AtUser => User
    case Relaying => KeepAlive
  }

  lemma ShutForFollower(w: World, l: Side, t: nat, f: Option<nat>)
    requires Disciplined(w) && PhaseOf(w.net) == Some(Split(l, t, f))
    ensures InHand(w, l.Other()).Some? ==> w.net.StatusOf(InHand(w, l.Other()).value) == Shut
  {
    VariableNamesHeldSocket(w.net, l.Other());
  }

  /** The sender as follower: it wakes, goes on to its next send or check, fails and reports. */
  lemma SenderCatchesUp(w: World, t: nat, f: nat) returns (acts: seq<Act>)
    requires Disciplined(w) && Clear(w) && w.net.conn == Connected && PhaseOf(w.net) == Some(Split(Recv, t, Some(f)))
    ensures Path(w, acts) && |acts| <= 4 && Disciplined(Last(w, acts)) && Clear(Last(w, acts))
    ensures Last(w, acts).net == Emitted(w.net, Send)
  {
    hide Path, Last, Good, Emitted;
    acts := [];
    NoStep(w);
    if w.snd.SWaiting? {
      PathPlus(w, acts, SWake);
      acts := acts + [SWake];
    }
    if w.snd == SReady(AtSerial) && w.hasSerial {
      PathPlus(w, acts, SSkip);
      acts := acts + [SSkip];
    }
    var v := Last(w, acts);
    if v.snd == SReady(AwaitSerial) {
      PathPlus(w, acts, SCheck);
      acts := acts + [SCheck];
    } else {
      if v.snd.SReady? {
        PathPlus(w, acts, SRead(Something(v.snd.stage)));
        acts := acts + [SRead(Something(v.snd.stage))];
      }
      ShutForFollower(Last(w, acts), Recv, t, Some(f));
      PathPlus(w, acts, SDone(false));
      acts := acts + [SDone(false)];
    }
    PathPlus(w, acts, SReport);
    acts := acts + [SReport];
  }

  /** The receiver as follower. */
  lemma ReceiverCatchesUp(w: World, t: nat, f: nat) returns (acts: seq<Act>)
    requires Disciplined(w) && Clear(w) && w.net.conn == Connected && PhaseOf(w.net) == Some(Split(Send, t, Some(f)))
    ensures Path(w, acts) && |acts| <= 4 && Disciplined(Last(w, acts)) && Clear(Last(w, acts))
    ensures Last(w, acts).net == Emitted(w.net, Recv)
  {
    hide Path, Last, Good, PhaseOf, Emitted;
    acts := [];
    NoStep(w);
    if w.rcv.RWaiting? {
      PathPlus(w, acts, RWake);
      acts := acts + [RWake];
    }
    if Last(w, acts).rcv.RReady? {
      PathPlus(w, acts, RRead);
      acts := acts + [RRead];
    }
    ShutForFollower(Last(w, acts), Send, t, Some(f));
    PathPlus(w, acts, RDone(false));
    acts := acts + [RDone(false)];
    PathPlus(w, acts, RReport);
    acts := acts + [RReport];
  }

  /** The follower of a split catches up with its connected leader. */
  lemma CatchingUp(w: World) returns (acts: seq<Act>)
    requires Disciplined(w) && Clear(w) && w.net.conn == Connected
    ensures Path(w, acts) && |acts| <= 4 && Disciplined(Last(w, acts)) && Clear(Last(w, acts))
    ensures PhaseOf(Last(w, acts).net).value.Online?
  {
    acts := [];
    NoStep(w);
    if w.net.trans == TransitSend {
      acts := SenderCatchesUp(w, w.net.sendsock.id, w.net.recvsock.id);
      ReportRefinesProtocol(w.net, Send);
    } else if w.net.trans == TransitRecv {
      acts := ReceiverCatchesUp(w, w.net.recvsock.id, w.net.sendsock.id);
      ReportRefinesProtocol(w.net, Recv);
    }
  }

  /** Whoever waits for a connection wakes up. */
  lemma WakingUp(w: World) returns (acts: seq<Act>)
    requires Disciplined(w) && Clear(w) && PhaseOf(w.net).value.Online?
    ensures Path(w, acts) && |acts| <= 2 && Disciplined(Last(w, acts)) && Settled(Last(w, acts))
    ensures Clear(Last(w, acts))
  {
    acts := [];
    NoStep(w);
    if w.snd.SWaiting? {
      PathPlus(w, acts, SWake);
      acts := acts + [SWake];
    }
    if Last(w, acts).rcv.RWaiting? {
      PathPlus(w, acts, RWake);
      acts := acts + [RWake];
    }
  }

  lemma DisciplinedHere(w: World)
    requires Inv(w)
    ensures Disciplined(w)
  {
  }

  /**
   Convergence: from every state of every run at most nine steps lead to both
   endpoints at work on the same open connection with nothing to report, and on
   the way operations fail only on sockets that were shut down.
   */
  lemma Converges(states: seq<World>, acts: seq<Act>, i: nat) returns (more: seq<Act>)
    requires IsRun(states, acts) && i < |states|
    ensures |more| <= 9 && Path(states[i], more) && Settled(Last(states[i], more)) && Clear(Last(states[i], more))
  {
    hide Path, Last, Disciplined, Settled, Clear;
    var w := states[i];
    Reachable(states, acts, i);
    DisciplinedHere(w);
    more := Reporting(w);
    var next := Connecting(Last(w, more));
    PathConcat(w, more, next);
    more := more + next;
    next := CatchingUp(Last(w, more));
    PathConcat(w, more, next);
    more := more + next;
    next := WakingUp(Last(w, more));
    PathConcat(w, more, next);
    more := more + next;
  }
}
