/**
 Every interleaving of the connector, one sender (the relay of src/core/relay.c
 with its login) and one receiver (talkback, src/core/tb.c). A step is one mutex
 section, one unlocked read of a socket variable, or one system call; between
 any two steps of one thread the others may do anything.
 */
module NetworkRuns {
  import opened Options
  import opened Messages
  import opened NetworkState

  /** How far the sender is: the calls of `LOGIN_login` in order, then the relay loop. */
  datatype Stage = AtDeviceId | AtSerial | AwaitSerial | SendSerial | AtPosition | AtUser | Relaying

  /** May the sender send `m` at this stage? */
  predicate Sends(st: Stage, m: Msg) {
    match st
    case AtDeviceId => m == DeviceId
    case AtSerial => m == SerialRequest
    case AwaitSerial => false
    case SendSerial => m == Serial
    case AtPosition => m == Position
    case AtUser => m == User
    case Relaying => m.IsData()
  }

  /** Stage after a successful send. */
  function AfterSend(st: Stage): Stage {
    match st
    case AtDeviceId => AtSerial
    case AtSerial => AwaitSerial
    case AwaitSerial => AwaitSerial
    case SendSerial => AtPosition
    case AtPosition => AtUser
    case AtUser => Relaying
    case Relaying => Relaying
  }

  /** Stage after a step that sends nothing: serial number at hand, no position, no user name. */
  function AfterSkip(st: Stage): Option<Stage> {
    match st
    case AtSerial => Some(SendSerial)
    case AwaitSerial => Some(SendSerial)
    case AtPosition => Some(AtUser)
    case AtUser => Some(Relaying)
    case _ => None
  }

  /** `Sending` and `Receiving` hold the socket that was read; `*Failed` the one the report is about. */
  datatype Sender = SWaiting | SReady(stage: Stage) | Sending(stage: Stage, sock: Sock, msg: Msg) | SFailed(sock: Sock)

  datatype Receiver = RWaiting | RReady | Receiving(sock: Sock) | RFailed(sock: Sock)

  /** `wire[x]` is what was sent successfully on socket `x`; `hasSerial` is the flag of src/dump1090/req-serial.c. */
  datatype World = World(net: Net, snd: Sender, rcv: Receiver, wire: seq<seq<Msg>>, hasSerial: bool)

  /** A serial number may be configured from the start. */
  function Boot(hasSerial: bool): World { World(START, SWaiting, RWaiting, [], hasSerial) }

  datatype Act =
    | Connect
    | SWake | SRead(msg: Msg) | SDone(ok: bool) | SSkip | SCheck | SForce | SReport
    | RWake | RRead | RDone(ok: bool) | RReport | SerialArrives

  /** The test of `NET_checkConnected`, a mutex section of its own; the report it leads to is another one. */
  predicate CheckFails(n: Net) { n.conn != Connected || n.trans == TransitSend }

  predicate Enabled(w: World, a: Act) {
    match a
    case Connect => w.net.conn == Disconnected
    case SWake => w.snd.SWaiting? && w.net.conn == Connected
    case SRead(m) => w.snd.SReady? && Sends(w.snd.stage, m) && (w.snd.stage == AtSerial ==> !w.hasSerial)
    case SDone(ok) => w.snd.Sending? && (ok ==> w.snd.sock.Fd? && w.net.StatusOf(w.snd.sock) == Open)
    case SSkip =>
      w.snd.SReady? && AfterSkip(w.snd.stage).Some? && (w.snd.stage in {AtSerial, AwaitSerial} ==> w.hasSerial)
    case SCheck => w.snd == SReady(AwaitSerial)
    case SForce => w.snd == SReady(AwaitSerial)
    case SReport => w.snd.SFailed?
    case RWake => w.rcv.RWaiting? && w.net.conn == Connected
    case RRead => w.rcv.RReady?
    case RDone(_) => w.rcv.Receiving?
    case RReport => w.rcv.RFailed?
    case SerialArrives => w.rcv.RReady?
  }

  function Append(wire: seq<seq<Msg>>, s: Sock, m: Msg): seq<seq<Msg>> {
    if s.Fd? && s.id < |wire| then wire[s.id := wire[s.id] + [m]] else wire
  }

  function Next(w: World, a: Act): World
    requires Enabled(w, a)
  {
    match a
    case Connect => w.(net := Established(w.net), wire := w.wire + [[]])
    case SWake => w.(snd := SReady(AtDeviceId))
    case SRead(m) => w.(snd := Sending(w.snd.stage, w.net.sendsock, m))
    case SDone(ok) =>
      if ok then w.(snd := SReady(AfterSend(w.snd.stage)), wire := Append(w.wire, w.snd.sock, w.snd.msg))
      else w.(snd := SFailed(w.snd.sock))
    case SSkip => w.(snd := SReady(AfterSkip(w.snd.stage).value))
    case SCheck => if CheckFails(w.net) then w.(snd := SFailed(w.net.sendsock)) else w
    case SForce => w.(snd := SFailed(w.net.sendsock))
    case SReport => w.(net := Emitted(w.net, Send), snd := SWaiting)
    case RWake => w.(rcv := RReady)
    case RRead => w.(rcv := Receiving(w.net.recvsock))
    case RDone(ok) => w.(rcv := if ok then RReady else RFailed(w.rcv.sock))
    case RReport =>
      w.(net := Emitted(w.net, Recv), rcv := if EmitAction(w.net, Recv) == Retry then RReady else RWaiting)
    case SerialArrives => w.(hasSerial := true)
  }

  /** The system calls on sockets a step issues. */
  function Calls(w: World, a: Act): seq<Call>
    requires Enabled(w, a)
  {
    match a
    case SDone(_) => [Use(Send, w.snd.sock)]
    case RDone(_) => [Use(Recv, w.rcv.sock)]
    case SReport => EmitCalls(w.net, Send)
    case RReport => EmitCalls(w.net, Recv)
    case _ => []
  }

  /** The socket a side is working on or about to report, if it read one. */
  function InHand(w: World, side: Side): Option<Sock> {
    if side == Send then
      match w.snd
      case Sending(_, s, _) => Some(s)
      case SFailed(s) => Some(s)
      case _ => None
    else
      match w.rcv
      case Receiving(s) => Some(s)
      case RFailed(s) => Some(s)
      case _ => None
  }

  predicate Idle(w: World, side: Side) {
    if side == Send then w.snd.SWaiting? else w.rcv.RWaiting?
  }

  // -------------------------------------------------------------------- logins

  /** What has been sent on the sender's socket when the login has reached stage `st`. */
  predicate LoginSoFar(st: Stage, p: seq<Msg>) {
    match st
    case AtDeviceId => p == []
    case AtSerial => p == [DeviceId]
    case AwaitSerial => p == [DeviceId, SerialRequest]
    case SendSerial => p == [DeviceId] || p == [DeviceId, SerialRequest]
    case AtPosition => p == [DeviceId, Serial] || p == [DeviceId, SerialRequest, Serial]
    case AtUser =>
      || p == [DeviceId, Serial] || p == [DeviceId, SerialRequest, Serial]
      || p == [DeviceId, Serial, Position] || p == [DeviceId, SerialRequest, Serial, Position]
    case Relaying => false
  }

  /** A complete login, in the order the messages must have. */
  predicate CompleteLogin(p: seq<Msg>) {
    LoginSoFar(AtUser, p) || (p != [] && p[|p|-1] == User && LoginSoFar(AtUser, p[..|p|-1]))
  }

  /** A complete login followed by frames and keep-alives only. */
  ghost predicate LoggedIn(p: seq<Msg>) {
    exists k :: 0 <= k <= |p| && CompleteLogin(p[..k]) && forall i :: k <= i < |p| ==> p[i].IsData()
  }

  ghost predicate Sent(st: Stage, p: seq<Msg>) {
    if st == Relaying then LoggedIn(p) else LoginSoFar(st, p)
  }

  /** A connection as the server may see it: part of a login, or a login and data. */
  ghost predicate Session(p: seq<Msg>) { exists st :: Sent(st, p) }

  // ----------------------------------------------------------------- invariant

  ghost predicate Disciplined(w: World) {
    && Good(w.net)
    && forall side: Side ::
         && (!Idle(w, side) ==> w.net.Var(side).Fd?)
         && (InHand(w, side).Some? ==> InHand(w, side).value == w.net.Var(side))
  }

  ghost predicate WireOk(w: World) {
    && |w.wire| == |w.net.status|
    && (forall x :: 0 <= x < |w.wire| ==> Session(w.wire[x]))
    && (w.snd.SReady? || w.snd.Sending? ==>
          w.net.sendsock.Fd? && w.net.sendsock.id < |w.wire| && Sent(w.snd.stage, w.wire[w.net.sendsock.id]))
    && (w.snd.Sending? ==> Sends(w.snd.stage, w.snd.msg))
    && (w.snd.SWaiting? && w.net.sendsock.Fd? && w.net.sendsock.id < |w.wire| ==> w.wire[w.net.sendsock.id] == [])
    && (w.net.trans == TransitSend && w.net.recvsock.Fd? && w.net.recvsock.id < |w.wire| ==>
          w.wire[w.net.recvsock.id] == [])
  }

  ghost predicate Inv(w: World) { Disciplined(w) && WireOk(w) }

  /**
   An endpoint's variable changes only by its own report, or by the connector
   while the endpoint waits for a connection. This is what makes the unlocked
   reads of `sendsock` and `recvsock` harmless.
   */
  lemma VariableIsStable(w: World, a: Act, side: Side)
    requires Disciplined(w) && Enabled(w, a)
    requires !Idle(w, side)
    requires a != (if side == Send then SReport else RReport)
    ensures Next(w, a).net.Var(side) == w.net.Var(side)
  {
    if a.Connect? { ConnectRefinesProtocol(w.net); }
    if a.SReport? { ReportTouchesOwnSocketOnly(w.net, Send); }
    if a.RReport? { ReportTouchesOwnSocketOnly(w.net, Recv); }
  }

  lemma DisciplineKept(w: World, a: Act)
    requires Disciplined(w) && Enabled(w, a)
    ensures Disciplined(Next(w, a))
  {
    var v := Next(w, a);
    match a {
      case Connect => ConnectRefinesProtocol(w.net);
      case SReport => ReportRefinesProtocol(w.net, Send);
      case RReport => ReportRefinesProtocol(w.net, Recv);
      case _ =>
    }
    forall side: Side
      ensures !Idle(v, side) ==> v.net.Var(side).Fd?
      ensures InHand(v, side).Some? ==> InHand(v, side).value == v.net.Var(side)
    {
      if !Idle(w, side) && a != (if side == Send then SReport else RReport) {
        VariableIsStable(w, a, side);
      }
    }
  }

  lemma SentMore(st: Stage, m: Msg, p: seq<Msg>)
    requires Sent(st, p) && Sends(st, m)
    ensures Sent(AfterSend(st), p + [m])
  {
    var q := p + [m];
    assert q[..|p|] == p;
    if st == AtUser {
      assert q[..|q|] == q;
      assert CompleteLogin(q[..|q|]);
    } else if st == Relaying {
      var k :| 0 <= k <= |p| && CompleteLogin(p[..k]) && forall i :: k <= i < |p| ==> p[i].IsData();
      assert q[..k] == p[..k];
    }
  }

  lemma SentSame(st: Stage, p: seq<Msg>)
    requires Sent(st, p) && AfterSkip(st).Some?
    ensures Sent(AfterSkip(st).value, p)
  {
    if st == AtUser {
      assert p[..|p|] == p;
      assert CompleteLogin(p[..|p|]);
    }
  }

  lemma NothingSent()
    ensures Sent(AtDeviceId, []) && Session([])
  {
    assert Sent(AtDeviceId, []);
  }

  lemma SendKeepsWire(w: World)
    requires Inv(w) && Enabled(w, SDone(true))
    ensures WireOk(Next(w, SDone(true)))
  {
    hide Sent;
    var v := Next(w, SDone(true));
    assert InHand(w, Send).value == w.net.Var(Send);
    var x := w.snd.sock.id;
    SentMore(w.snd.stage, w.snd.msg, w.wire[x]);
    assert v.wire[x] == w.wire[x] + [w.snd.msg];
    assert Session(v.wire[x]);
  }

  lemma ReportKeepsWire(w: World, who: Side)
    requires Inv(w)
    requires if who == Send then w.snd.SFailed? else w.rcv.RFailed?
    ensures WireOk(Next(w, if who == Send then SReport else RReport))
  {
    hide Sent;
    assert !Idle(w, who);
    AssertionFailsOnlyOffline(w.net, who);
    ReportRefinesProtocol(w.net, who);
  }

  lemma WireKept(w: World, a: Act)
    requires Inv(w) && Enabled(w, a)
    ensures WireOk(Next(w, a))
  {
    hide Sent, Emitted;
    var v := Next(w, a);
    NothingSent();
    match a
    case Connect => assert w.wire + [[]] == v.wire;
    case SDone(ok) => if ok { SendKeepsWire(w); }
    case SSkip => SentSame(w.snd.stage, w.wire[w.net.sendsock.id]);
    case SReport => ReportKeepsWire(w, Send);
    case RReport => ReportKeepsWire(w, Recv);
    case _ =>
  }

  // ---------------------------------------------------------------------- runs

  /** A run: `states[i + 1]` comes from `states[i]` by `acts[i]`. */
  ghost predicate IsRun(states: seq<World>, acts: seq<Act>) {
    && |states| == |acts| + 1
    && states[0] == Boot(states[0].hasSerial)
    && forall i :: 0 <= i < |acts| ==> Enabled(states[i], acts[i]) && states[i + 1] == Next(states[i], acts[i])
  }

  /** The invariant holds in every state of every run. */
  lemma {:induction false} Reachable(states: seq<World>, acts: seq<Act>, i: nat)
    requires IsRun(states, acts) && i < |states|
    ensures Inv(states[i])
  {
    if i > 0 {
      Reachable(states, acts, i - 1);
      DisciplineKept(states[i - 1], acts[i - 1]);
      WireKept(states[i - 1], acts[i - 1]);
    }
  }

  /**
   In every state of every run: the variables mean one of the phases and every
   socket is open, shut or closed as that phase says; the assertion in
   `emitDisconnect` holds whenever a report is due; an endpoint works on the
   very socket its variable names, and that socket is not closed.
   */
  lemma EveryStateIsSafe(states: seq<World>, acts: seq<Act>, i: nat)
    requires IsRun(states, acts) && i < |states|
    ensures Good(states[i].net)
    ensures states[i].snd.SFailed? ==> AssertionHolds(states[i].net, Send)
    ensures states[i].rcv.RFailed? ==> AssertionHolds(states[i].net, Recv)
    ensures forall side: Side :: InHand(states[i], side).Some? ==>
              && InHand(states[i], side).value == states[i].net.Var(side)
              && states[i].net.StatusOf(states[i].net.Var(side)) != Closed
    ensures |set x | 0 <= x < |states[i].net.status| && states[i].net.status[x] != Closed| <= 2
  {
    Reachable(states, acts, i);
    UnclosedSocketsAreHeld(states[i].net);
    VariableNamesHeldSocket(states[i].net, Send);
    VariableNamesHeldSocket(states[i].net, Recv);
  }

  /** Every call is on an unclosed descriptor, and a closed one does not change. */
  lemma CallsAreLegal(w: World, a: Act)
    requires Disciplined(w) && Enabled(w, a)
    ensures forall c <- Calls(w, a) :: c.sock.Fd? && c.sock.id < |w.net.status| && w.net.status[c.sock.id] != Closed
    ensures |w.net.status| <= |Next(w, a).net.status|
    ensures forall x :: 0 <= x < |w.net.status| && w.net.status[x] == Closed ==> Next(w, a).net.status[x] == Closed
  {
    VariableNamesHeldSocket(w.net, Send);
    VariableNamesHeldSocket(w.net, Recv);
    assert InHand(w, Send).Some? ==> InHand(w, Send).value == w.net.Var(Send);
    assert InHand(w, Recv).Some? ==> InHand(w, Recv).value == w.net.Var(Recv);
    if a.SReport? { ReportTouchesOwnSocketOnly(w.net, Send); }
    if a.RReport? { ReportTouchesOwnSocketOnly(w.net, Recv); }
  }

  /** Once closed, a socket is closed in every later state. */
  lemma {:induction false} ClosedStaysClosed(states: seq<World>, acts: seq<Act>, i: nat, j: nat, x: nat)
    requires IsRun(states, acts) && i <= j < |states|
    requires x < |states[i].net.status| && states[i].net.status[x] == Closed
    ensures x < |states[j].net.status| && states[j].net.status[x] == Closed
    decreases j
  {
    if i < j {
      ClosedStaysClosed(states, acts, i, j - 1, x);
      Reachable(states, acts, j - 1);
      CallsAreLegal(states[j - 1], acts[j - 1]);
    }
  }

  /**
   Closing is final, over every run: when step `i` closes a socket, the closing
   endpoint was the last one to refer to it, and no later step closes it again,
   shuts it down or operates on it.
   */
  lemma CloseIsFinal(states: seq<World>, acts: seq<Act>, i: nat, who: Side, s: Sock)
    requires IsRun(states, acts) && i < |acts|
    requires Close(who, s) in Calls(states[i], acts[i])
    ensures states[i].net.Var(who) == s && states[i + 1].net.recvsock != s && states[i + 1].net.sendsock != s
    ensures forall j, c :: i < j < |acts| && c in Calls(states[j], acts[j]) ==> c.sock != s
  {
    Reachable(states, acts, i);
    Reachable(states, acts, i + 1);
    var w, v := states[i], states[i + 1];
    assert acts[i] == (if who == Send then SReport else RReport);
    assert InHand(w, who).Some?;
    ReportTouchesOwnSocketOnly(w.net, who);
    CallsAreLegal(w, acts[i]);
    assert v.net.StatusOf(s) == Closed;
    forall j, c | i < j < |acts| && c in Calls(states[j], acts[j])
      ensures c.sock != s
    {
      ClosedStaysClosed(states, acts, i + 1, j, s.id);
      Reachable(states, acts, j);
      CallsAreLegal(states[j], acts[j]);
    }
  }

  /**
   A stale report never tears down a newer connection: whatever happened since
   the reporter read its socket, the report only touches that very socket, and
   an open connection goes down only if it is the one that failed.
   */
  lemma StaleReportIsHarmless(states: seq<World>, acts: seq<Act>, i: nat, who: Side)
    requires IsRun(states, acts) && i < |acts|
    requires acts[i] == (if who == Send then SReport else RReport)
    ensures forall x :: 0 <= x < |states[i].net.status| && Some(Fd(x)) != InHand(states[i], who) ==>
              states[i + 1].net.status[x] == states[i].net.status[x]
    ensures states[i].net.conn == Connected && states[i + 1].net.conn == Disconnected ==>
              InHand(states[i], who).value.Fd? && states[i].net.StatusOf(InHand(states[i], who).value) == Open
  {
    Reachable(states, acts, i);
    assert InHand(states[i], who).Some?;
    ReportTouchesOwnSocketOnly(states[i].net, who);
  }

  /**
   `NET_checkConnected` answers no only to a sender that works on a connection
   its receiver has given up, and yes only while the sender's socket is the
   current one; so the report it triggers never breaks a working connection.
   */
  lemma CheckIsExact(states: seq<World>, acts: seq<Act>, i: nat)
    requires IsRun(states, acts) && i < |states|
    requires states[i].snd == SReady(AwaitSerial)
    ensures CheckFails(states[i].net) <==> states[i].net.StatusOf(states[i].net.sendsock) == Shut
    ensures !CheckFails(states[i].net) <==> states[i].net.StatusOf(states[i].net.sendsock) == Open
  {
    Reachable(states, acts, i);
    VariableNamesHeldSocket(states[i].net, Send);
    assert !Idle(states[i], Send);
    assert states[i].net.Var(Send).Fd?;
  }

  /** On every socket ever used the server sees a well-formed session. */
  lemma EveryConnectionIsASession(states: seq<World>, acts: seq<Act>, i: nat, x: nat)
    requires IsRun(states, acts) && i < |states| && x < |states[i].wire|
    ensures Session(states[i].wire[x])
  {
    Reachable(states, acts, i);
  }

  lemma LoginHasNoData(p: seq<Msg>, k: nat)
    requires CompleteLogin(p) && k < |p|
    ensures !p[k].IsData()
  {
    if !LoginSoFar(AtUser, p) && k < |p| - 1 {
      assert p[..|p| - 1][k] == p[k];
    }
  }

  /**
   The relay never sends a frame or a keep-alive on a socket before the whole
   login has succeeded on that same socket, in any interleaving.
   */
  lemma NoDataBeforeLogin(states: seq<World>, acts: seq<Act>, i: nat, x: nat, k: nat)
    requires IsRun(states, acts) && i < |states|
    requires x < |states[i].wire| && k < |states[i].wire[x]|
    requires states[i].wire[x][k].IsData()
    ensures exists n :: 0 <= n <= k && CompleteLogin(states[i].wire[x][..n])
  {
    var p := states[i].wire[x];
    EveryConnectionIsASession(states, acts, i, x);
    var st :| Sent(st, p);
    assert st == Relaying;
    var n :| 0 <= n <= |p| && CompleteLogin(p[..n]) && forall j :: n <= j < |p| ==> p[j].IsData();
    if k < n {
      assert p[..n][k] == p[k];
      LoginHasNoData(p[..n], k);
      assert false;
    }
  }
}
