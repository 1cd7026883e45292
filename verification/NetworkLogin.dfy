/** That a login can be completed: the calls of `LOGIN_login` in src/core/login.c on a connection that works. */
module NetworkLogin {
  import opened Options
  import opened Messages
  import opened NetworkState
  import opened NetworkRuns
  import opened NetworkProgress
  import opened Sequences

  /** What is left to do at most until the sender is in its relay loop: steps, including the receiver's. */
  function Distance(w: World): nat {
    var sending := if w.snd.Sending? then 1 else 0;
    if w.snd.SWaiting? || w.snd.SFailed? then 0
    else
      match w.snd.stage
      case AtDeviceId => 13 - sending
      case AtSerial => 11 - sending
      case AwaitSerial => if w.hasSerial then 7 else if w.rcv.Receiving? then 9 else 8
      case SendSerial => 6 - sending
      case AtPosition => 4 - sending
      case AtUser => 2 - sending
      case Relaying => sending
  }

  /** What a login sends from stage `st` on; `known` says whether there is a serial number. */
  function Rest(st: Stage, known: bool, position: bool, user: bool): seq<Msg> {
    var tail := (if position then [Position] else []) + (if user then [User] else []);
    match st
    case AtDeviceId => [DeviceId] + ((if known then [] else [SerialRequest]) + ([Serial] + tail))
    case AtSerial => (if known then [] else [SerialRequest]) + ([Serial] + tail)
    case AwaitSerial => [Serial] + tail
    case SendSerial => [Serial] + tail
    case AtPosition => tail
    case AtUser => if user then [User] else []
    case Relaying => []
  }

  /** What is still to be sent until then; a position and a user name may be known or not. */
  function ToSend(w: World, position: bool, user: bool): seq<Msg> {
    if w.snd.SReady? then Rest(w.snd.stage, w.hasSerial, position, user)
    else if w.snd.Sending? then [w.snd.msg] + Rest(AfterSend(w.snd.stage), w.hasSerial, position, user)
    else []
  }

  /** The next step of a login on which nothing fails and the server answers the request for a serial number. */
  function LoginStep(w: World, position: bool, user: bool): Act
    requires w.snd.SReady? || w.snd.Sending?
  {
    if w.snd.Sending? then SDone(true)
    else
      match w.snd.stage
      case AtDeviceId => SRead(DeviceId)
      case AtSerial => if w.hasSerial then SSkip else SRead(SerialRequest)
      case AwaitSerial => if w.hasSerial then SSkip else if w.rcv.RReady? then SerialArrives else RDone(true)
      case SendSerial => SRead(Serial)
      case AtPosition => if position then SRead(Position) else SSkip
      case AtUser => if user then SRead(User) else SSkip
      case Relaying => SSkip
  }

  /** Both endpoints work on the same open connection and neither has a failure to report. */
  ghost predicate Working(w: World) { Disciplined(w) && Settled(w) && Clear(w) }

  /** What was sent on the sender's socket. */
  function WireOf(w: World): seq<Msg> {
    if w.net.sendsock.Fd? && w.net.sendsock.id < |w.wire| then w.wire[w.net.sendsock.id] else []
  }

  lemma LoginStepMoves(w: World, position: bool, user: bool)
    requires Inv(w) && Working(w) && w.snd != SReady(Relaying)
    ensures var a := LoginStep(w, position, user);
            && Enabled(w, a) && Healthy(w, a) && Inv(Next(w, a)) && Working(Next(w, a))
            && Next(w, a).net == w.net && Distance(Next(w, a)) < Distance(w)
  {
    hide Sent, Emitted, Session;
    var a := LoginStep(w, position, user);
    assert !Idle(w, Send) && !Idle(w, Recv);
    assert InHand(w, Send).Some? ==> InHand(w, Send).value == w.net.Var(Send);
    DisciplineKept(w, a);
    WireKept(w, a);
  }

  lemma LoginStepSends(w: World, position: bool, user: bool)
    requires w.snd.SReady? || (w.snd.Sending? && Sends(w.snd.stage, w.snd.msg))
    requires w.snd != SReady(Relaying) && Enabled(w, LoginStep(w, position, user))
    ensures var a := LoginStep(w, position, user);
            ToSend(w, position, user)
            == (if w.snd.Sending? then [w.snd.msg] else []) + ToSend(Next(w, a), position, user)
  {
    hide Emitted, Established, Append, EmitAction, CheckFails;
    if w.snd.SReady? {
      var v := Next(w, LoginStep(w, position, user));
      assert ToSend(v, position, user) == Rest(w.snd.stage, w.hasSerial, position, user);
    }
  }

  lemma LoginStepWires(w: World, position: bool, user: bool)
    requires Inv(w) && Working(w) && w.snd != SReady(Relaying) && Enabled(w, LoginStep(w, position, user))
    ensures WireOf(Next(w, LoginStep(w, position, user)))
            == WireOf(w) + (if w.snd.Sending? then [w.snd.msg] else [])
  {
    hide Sent, Emitted, Session;
    assert InHand(w, Send).Some? ==> InHand(w, Send).value == w.net.Var(Send);
  }

  lemma NothingToSend(w: World, position: bool, user: bool)
    requires w.snd == SReady(Relaying)
    ensures WireOf(w) == WireOf(w) + ToSend(w, position, user)
  {
  }

  lemma AtWork(w: World)
    requires Inv(w) && Working(w)
    ensures w.snd.SReady? || (w.snd.Sending? && Sends(w.snd.stage, w.snd.msg))
  {
  }

  /** The steps one by one. */
  lemma {:induction false} Finishing(w: World, position: bool, user: bool) returns (acts: seq<Act>)
    requires Inv(w) && Working(w)
    ensures |acts| <= Distance(w) && Path(w, acts) && Inv(Last(w, acts)) && Working(Last(w, acts))
    ensures Last(w, acts).net == w.net && Last(w, acts).snd == SReady(Relaying)
    ensures WireOf(Last(w, acts)) == WireOf(w) + ToSend(w, position, user)
    decreases Distance(w)
  {
    hide Inv, Working, Next, Enabled, Healthy, WireOf, ToSend, Distance, LoginStep;
    if w.snd == SReady(Relaying) {
      acts := [];
      NoStep(w);
      NothingToSend(w, position, user);
    } else {
      AtWork(w);
      var a := LoginStep(w, position, user);
      LoginStepMoves(w, position, user);
      LoginStepSends(w, position, user);
      LoginStepWires(w, position, user);
      var v := Next(w, a);
      var rest := Finishing(v, position, user);
      Glue(WireOf(w), if w.snd.Sending? then [w.snd.msg] else [], ToSend(v, position, user));
      acts := [a] + rest;
      assert acts[1..] == rest;
    }
  }

  lemma StepKeepsInv(w: World, a: Act)
    requires Inv(w) && Enabled(w, a)
    ensures Inv(Next(w, a))
  {
    hide Disciplined, WireOk;
    DisciplineKept(w, a);
    WireKept(w, a);
  }

  lemma {:induction false} PathKeepsInv(w: World, acts: seq<Act>)
    requires Inv(w) && Path(w, acts)
    ensures Inv(Last(w, acts))
    decreases |acts|
  {
    hide Inv, Next, Enabled;
    if acts != [] {
      StepKeepsInv(w, acts[0]);
      PathKeepsInv(Next(w, acts[0]), acts[1..]);
    }
  }

  lemma RelayingIsLoggedIn(w: World)
    requires Inv(w) && w.snd == SReady(Relaying)
    ensures w.net.sendsock.Fd? && w.net.sendsock.id < |w.wire| && LoggedIn(w.wire[w.net.sendsock.id])
  {
  }

  lemma NothingSentYet(w: World)
    requires Inv(w) && w.snd == SReady(AtDeviceId)
    ensures WireOf(w) == []
  {
  }

  /**
   A login can be completed: once both endpoints are at work on one connection, at most
   thirteen steps on which nothing fails lead into the relay loop. A login from its start
   sends the device's identity, the request for a serial number exactly if there is none
   yet, the serial number, and then position and user name if there are any.
   */
  lemma LoginCompletes(states: seq<World>, acts: seq<Act>, i: nat, position: bool, user: bool)
    returns (more: seq<Act>)
    requires IsRun(states, acts) && i < |states| && Settled(states[i]) && Clear(states[i])
    ensures |more| <= 13 && Path(states[i], more)
    ensures Last(states[i], more).snd == SReady(Relaying) && Last(states[i], more).net == states[i].net
    ensures LoggedIn(WireOf(Last(states[i], more)))
    ensures states[i].snd == SReady(AtDeviceId) ==>
              WireOf(Last(states[i], more))
              == [DeviceId] + (if states[i].hasSerial then [] else [SerialRequest]) + [Serial]
                 + (if position then [Position] else []) + (if user then [User] else [])
  {
    hide Disciplined, WireOk, Settled, Path, Last;
    var w := states[i];
    Reachable(states, acts, i);
    more := Finishing(w, position, user);
    RelayingIsLoggedIn(Last(w, more));
    if w.snd == SReady(AtDeviceId) {
      NothingSentYet(w);
    }
  }

  lemma AtMostThirteen(w: World)
    ensures Distance(w) <= 13
  {
  }

  /**
   From every state of every run at most twenty-two healthy steps lead to both endpoints
   at work on one open connection with a complete login on it.
   */
  lemma LoginIsAlwaysPossible(states: seq<World>, acts: seq<Act>, i: nat) returns (more: seq<Act>)
    requires IsRun(states, acts) && i < |states|
    ensures |more| <= 22 && Path(states[i], more)
    ensures Settled(Last(states[i], more)) && Last(states[i], more).snd == SReady(Relaying)
    ensures LoggedIn(WireOf(Last(states[i], more)))
  {
    hide Disciplined, WireOk, Settled, Path, Last, Distance;
    var w := states[i];
    Reachable(states, acts, i);
    more := Converges(states, acts, i);
    PathKeepsInv(w, more);
    AtMostThirteen(Last(w, more));
    var next := Finishing(Last(w, more), true, true);
    PathConcat(w, more, next);
    more := more + next;
    RelayingIsLoggedIn(Last(w, more));
  }
}
