/**
 Model of src/core/network.c: the four variables shared by the connector, the
 sender and the receiver, and the two mutex sections that change them.

 `Net` is the value of those variables together with the state of every socket
 the kernel ever handed out. `Emitted` and `Established` say what the two
 sections do to it; the class `Network` carries them out field by field.
 `Phase` is what the variables mean, and the lemmas show that on every
 meaningful state the sections are the steps of a four-line protocol on phases.
 */
module NetworkState {
  import opened Options

  /** The endpoint that notices a failure (`enum EMIT_BY`). */
  datatype Side = Recv | Send {
    function Other(): Side { if this == Recv then Send else Recv }

    /** The transition state in which this side is the leader. */
    function Leads(): Transit { if this == Recv then TransitSend else TransitRecv }
  }

  datatype Conn = Disconnected | Connected

  datatype Transit = NoTransit | TransitSend | TransitRecv

  /** A socket variable: `SOCK_INVALID` or a descriptor. */
  datatype Sock = Invalid | Fd(id: nat)

  /** What the kernel knows about a descriptor it handed out. */
  datatype Status = Open | Shut | Closed

  /** What the failing endpoint does next (`enum ACTION`). */
  datatype Action = GiveUp | Retry

  /** A system call on a socket and the endpoint that issues it. */
  datatype Call =
    | Use(who: Side, sock: Sock)
    | Shutdown(who: Side, sock: Sock)
    | Close(who: Side, sock: Sock)

  datatype Net = Net(conn: Conn, trans: Transit, recvsock: Sock, sendsock: Sock, status: seq<Status>) {
    function Var(side: Side): Sock { if side == Recv then recvsock else sendsock }

    function WithVar(side: Side, s: Sock): Net {
      if side == Recv then this.(recvsock := s) else this.(sendsock := s)
    }

    function StatusOf(s: Sock): Status {
      if s.Fd? && s.id < |status| then status[s.id] else Closed
    }

    function WithStatus(s: Sock, st: Status): Net {
      if s.Fd? && s.id < |status| then this.(status := status[s.id := st]) else this
    }
  }

  /** `connState` and `transState` as `mainloop` sets them before anything runs. */
  const START := Net(Disconnected, NoTransit, Invalid, Invalid, [])

  // ---------------------------------------------------------------- the code

  /** The argument of `assert(transState != TRANSIT_NONE)` in `emitDisconnect`. */
  predicate AssertionHolds(n: Net, who: Side) {
    n.conn == Disconnected && n.trans != who.Leads() ==> n.trans != NoTransit
  }

  /** State after `emitDisconnect(who)`. */
  function Emitted(n: Net, who: Side): Net {
    var mine := n.Var(who);
    if n.conn == Connected then
      if n.trans == NoTransit then
        n.WithStatus(mine, Shut).WithVar(who, Invalid).(trans := who.Leads(), conn := Disconnected)
      else if n.trans == who.Leads() then
        n.WithStatus(mine, Closed).WithVar(who, Invalid).(conn := Disconnected)
      else
        n.WithStatus(mine, Closed).WithVar(who, n.Var(who.Other())).(trans := NoTransit)
    else if n.trans != who.Leads() then
      n.WithStatus(mine, Closed).WithVar(who, Invalid).(trans := NoTransit)
    else
      n
  }

  /** System calls issued by `emitDisconnect(who)`, in order. */
  function EmitCalls(n: Net, who: Side): seq<Call> {
    var mine := n.Var(who);
    if n.conn == Connected && n.trans == NoTransit then [Shutdown(who, mine)]
    else if n.conn == Connected && n.trans == who.Leads() then [Shutdown(who, mine), Close(who, mine)]
    else if n.trans != who.Leads() then [Close(who, mine)]
    else []
  }

  /** The value `emitDisconnect` returns is computed after the update. */
  function EmitAction(n: Net, who: Side): Action {
    if Emitted(n, who).conn == Connected then Retry else GiveUp
  }

  /** State after a successful `tryConnect` and the switch of `mainloop`. */
  function Established(n: Net): Net {
    var sock := Fd(|n.status|);
    var m := n.(status := n.status + [Open], conn := Connected);
    match n.trans
    case NoTransit => m.(recvsock := sock, sendsock := sock)
    case TransitRecv => m.(sendsock := sock)
    case TransitSend => m.(recvsock := sock)
  }

  // ------------------------------------------------------------- its meaning

  /**
   `Offline`: no connection and nobody holds a socket. `Online(s)`: both
   endpoints work on `s`. `Split(l, t, f)`: endpoint `l` has given up the
   connection `t`, which its follower still works on; `f` is the connection the
   leader has meanwhile, if any.
   */
  datatype Phase =
    | Offline
    | Online(sock: nat)
    | Split(leader: Side, stale: nat, current: Option<nat>)

  function SplitOf(leader: Side, conn: Conn, lead: Sock, follow: Sock): Option<Phase> {
    if follow.Invalid? then None
    else if conn == Disconnected then
      if lead.Invalid? then Some(Split(leader, follow.id, None)) else None
    else if lead.Fd? && lead != follow then Some(Split(leader, follow.id, Some(lead.id)))
    else None
  }

  function PhaseOf(n: Net): Option<Phase> {
    match n.trans
    case TransitSend => SplitOf(Recv, n.conn, n.recvsock, n.sendsock)
    case TransitRecv => SplitOf(Send, n.conn, n.sendsock, n.recvsock)
    case NoTransit =>
      if n.recvsock != n.sendsock then None
      else if n.conn == Disconnected && n.recvsock.Invalid? then Some(Offline)
      else if n.conn == Connected && n.recvsock.Fd? then Some(Online(n.recvsock.id))
      else None
  }

  /** What must have become of socket `x` in phase `ph`. */
  function StatusIn(ph: Phase, x: nat): Status {
    match ph
    case Offline => Closed
    case Online(s) => if x == s then Open else Closed
    case Split(_, t, f) => if f == Some(x) then Open else if x == t then Shut else Closed
  }

  predicate Known(ph: Phase, sockets: nat) {
    match ph
    case Offline => true
    case Online(s) => s < sockets
    case Split(_, t, f) => t < sockets && (f.Some? ==> f.value < sockets)
  }

  /** The variables mean a phase and the phase accounts for every socket. */
  ghost predicate Good(n: Net) {
    && PhaseOf(n).Some?
    && Known(PhaseOf(n).value, |n.status|)
    && forall x :: 0 <= x < |n.status| ==> n.status[x] == StatusIn(PhaseOf(n).value, x)
  }

  /** The protocol: what a failure report does to a phase. */
  function Reported(ph: Phase, who: Side): Phase {
    match ph
    case Offline => Offline
    case Online(s) => Split(who, s, None)
    case Split(l, t, f) =>
      if who == l then Split(l, t, None)
      else if f.Some? then Online(f.value)
      else Offline
  }

  /** The protocol: what a new connection `x` does to a phase. */
  function Reconnected(ph: Phase, x: nat): Phase {
    match ph
    case Split(l, t, _) => Split(l, t, Some(x))
    case _ => Online(x)
  }

  /** The sockets in use in a phase by one side: the one its variable names. */
  function Holds(ph: Phase, side: Side): Option<nat> {
    match ph
    case Offline => None
    case Online(s) => Some(s)
    case Split(l, t, f) => if side == l then f else Some(t)
  }

  // ------------------------------------------------------------------- lemmas

  /** In a good state a side's variable is exactly the socket its phase gives it. */
  lemma VariableNamesHeldSocket(n: Net, side: Side)
    requires Good(n)
    ensures n.Var(side) == (match Holds(PhaseOf(n).value, side) case None => Invalid case Some(x) => Fd(x))
    ensures n.Var(side).Fd? ==> n.StatusOf(n.Var(side)) != Closed
  {
  }

  /**
   A report that passes the assertion runs the protocol: the phase moves as
   `Reported` says, every socket is accounted for again, and the answer is to
   retry exactly when the endpoint now shares the leader's connection.
   */
  lemma ReportRefinesProtocol(n: Net, who: Side)
    requires Good(n) && AssertionHolds(n, who)
    ensures Good(Emitted(n, who))
    ensures PhaseOf(Emitted(n, who)) == Some(Reported(PhaseOf(n).value, who))
    ensures EmitAction(n, who) == Retry <==> PhaseOf(Emitted(n, who)).value.Online?
  {
    var m := Emitted(n, who);
    var ph := PhaseOf(n).value;
    assert PhaseOf(m) == Some(Reported(ph, who));
    forall x | 0 <= x < |m.status|
      ensures m.status[x] == StatusIn(Reported(ph, who), x)
    {
      assert n.status[x] == StatusIn(ph, x);
    }
  }

  /** The assertion fails in exactly one phase: when nobody has a socket to report. */
  lemma AssertionFailsOnlyOffline(n: Net, who: Side)
    requires Good(n)
    ensures AssertionHolds(n, who) <==> !PhaseOf(n).value.Offline?
    ensures n.Var(who).Fd? ==> AssertionHolds(n, who)
  {
  }

  /**
   The calls of a report go to the reporter's own socket only, which was not
   closed before: a shutdown exactly if the report takes the connection down, then
   a close exactly if the socket is closed afterwards. No other socket changes, and
   no variable names a socket that was closed.
   */
  lemma ReportTouchesOwnSocketOnly(n: Net, who: Side)
    requires Good(n) && n.Var(who).Fd?
    ensures |Emitted(n, who).status| == |n.status|
    ensures forall c <- EmitCalls(n, who) :: !c.Use? && c.who == who && c.sock == n.Var(who)
    ensures forall x :: 0 <= x < |n.status| && Fd(x) != n.Var(who) ==> Emitted(n, who).status[x] == n.status[x]
    ensures n.StatusOf(n.Var(who)) != Closed
    ensures EmitCalls(n, who) ==
            (if n.conn == Connected && Emitted(n, who).conn == Disconnected then [Shutdown(who, n.Var(who))] else [])
            + (if Emitted(n, who).StatusOf(n.Var(who)) == Closed then [Close(who, n.Var(who))] else [])
    ensures Emitted(n, who).StatusOf(n.Var(who)) == Closed ==>
              Emitted(n, who).recvsock != n.Var(who) && Emitted(n, who).sendsock != n.Var(who)
    ensures Emitted(n, who).Var(who.Other()) == n.Var(who.Other())
  {
  }

  /** A new connection runs the protocol with a socket that was never used before. */
  lemma ConnectRefinesProtocol(n: Net)
    requires Good(n) && n.conn == Disconnected
    ensures Good(Established(n))
    ensures PhaseOf(Established(n)) == Some(Reconnected(PhaseOf(n).value, |n.status|))
    ensures forall side: Side :: n.Var(side).Fd? ==> Established(n).Var(side) == n.Var(side)
  {
    var m := Established(n);
    assert PhaseOf(m) == Some(Reconnected(PhaseOf(n).value, |n.status|));
    forall x | 0 <= x < |m.status|
      ensures m.status[x] == StatusIn(PhaseOf(m).value, x)
    {
      assert x < |n.status| ==> n.status[x] == StatusIn(PhaseOf(n).value, x);
    }
  }

  lemma SubsetSize(a: set<int>, b: set<int>)
    requires a <= b
    ensures |a| <= |b|
  {
    assert b == a + (b - a);
    assert |b| == |a| + |b - a|;
  }

  /** No socket leaks: what is not closed is named by a variable, so there are at most two. */
  lemma UnclosedSocketsAreHeld(n: Net)
    requires Good(n)
    ensures forall x :: 0 <= x < |n.status| && n.status[x] != Closed ==> n.recvsock == Fd(x) || n.sendsock == Fd(x)
    ensures |set x | 0 <= x < |n.status| && n.status[x] != Closed| <= 2
  {
    var live := set x | 0 <= x < |n.status| && n.status[x] != Closed;
    forall x | x in live
      ensures n.recvsock == Fd(x) || n.sendsock == Fd(x)
    {
      assert n.status[x] == StatusIn(PhaseOf(n).value, x);
    }
    var r := if n.recvsock.Fd? then {n.recvsock.id} else {};
    var s := if n.sendsock.Fd? then {n.sendsock.id} else {};
    assert live <= r + s;
    SubsetSize(live, r + s);
    assert |r + s| <= |r| + |s| <= 2;
  }
}

/** The module's variables and the mutex sections that update them in place. */
module NetworkObject {
  import opened Options
  import opened NetworkState

  class Network {
    var connState: Conn
    var transState: Transit
    var recvsock: Sock
    var sendsock: Sock
    /** The kernel's side: the state of every descriptor handed out so far. */
    var kernel: seq<Status>
    /** Shutdown and close calls issued so far. */
    ghost var calls: seq<Call>

    ghost function State(): Net
      reads this
    {
      Net(connState, transState, recvsock, sendsock, kernel)
    }

    constructor ()
      ensures State() == START && Good(State()) && PhaseOf(State()) == Some(Offline) && calls == []
    {
      connState, transState := Disconnected, NoTransit;
      recvsock, sendsock := Invalid, Invalid;
      kernel, calls := [], [];
    }

    /** `SOCK_shutdown`: only ever legal on a descriptor that is not closed. */
    method SockShutdown(ghost who: Side, sock: Sock)
      requires State().StatusOf(sock) != Closed
      modifies this`kernel, this`calls
      ensures State() == old(State()).WithStatus(sock, Shut)
      ensures calls == old(calls) + [Shutdown(who, sock)]
    {
      kernel := kernel[sock.id := Shut];
      calls := calls + [Shutdown(who, sock)];
    }

    /** `SOCK_close`: only ever legal on a descriptor that is not closed. */
    method SockClose(ghost who: Side, sock: Sock)
      requires State().StatusOf(sock) != Closed
      modifies this`kernel, this`calls
      ensures State() == old(State()).WithStatus(sock, Closed)
      ensures calls == old(calls) + [Close(who, sock)]
    {
      kernel := kernel[sock.id := Closed];
      calls := calls + [Close(who, sock)];
    }

    /** `emitDisconnect`: the mutex section run by an endpoint that saw a failure. */
    method EmitDisconnect(who: Side) returns (act: Action)
      requires Good(State())
      requires AssertionHolds(State(), who)
      modifies this
      ensures State() == Emitted(old(State()), who)
      ensures calls == old(calls) + EmitCalls(old(State()), who)
      ensures Good(State())
      ensures PhaseOf(State()) == Some(Reported(PhaseOf(old(State())).value, who))
      ensures act == EmitAction(old(State()), who)
      ensures act == Retry <==> PhaseOf(State()).value.Online?
    {
      ghost var before := State();
      ReportRefinesProtocol(before, who);
      var mysock, othsock := if who == Recv then recvsock else sendsock, if who == Recv then sendsock else recvsock;
      if connState == Connected {
        if transState == NoTransit {
          // a new leader: leave the socket open so that the follower sees the failure
          SockShutdown(who, mysock);
          mysock := Invalid;
          transState := who.Leads();
          connState := Disconnected;
        } else if transState == who.Leads() {
          // the leader lost another connection the follower never had
          SockShutdown(who, mysock);
          SockClose(who, mysock);
          mysock := Invalid;
          connState := Disconnected;
        } else {
          // the follower catches up with a leader that is connected again
          SockClose(who, mysock);
          mysock := othsock;
          transState := NoTransit;
        }
      } else if transState != who.Leads() {
        assert transState != NoTransit;
        // the follower catches up with a leader that is still disconnected
        SockClose(who, mysock);
        mysock := Invalid;
        transState := NoTransit;
      }
      if who == Recv {
        recvsock := mysock;
      } else {
        sendsock := mysock;
      }
      act := if connState == Connected then Retry else GiveUp;
      assert State().status == Emitted(before, who).status;
    }

    /** The part of `mainloop` that follows a successful `tryConnect`. */
    method Establish()
      requires Good(State()) && connState == Disconnected
      modifies this
      ensures State() == Established(old(State()))
      ensures calls == old(calls)
      ensures Good(State())
      ensures PhaseOf(State()) == Some(Reconnected(PhaseOf(old(State())).value, |old(kernel)|))
    {
      ConnectRefinesProtocol(State());
      var sock := Fd(|kernel|);
      kernel := kernel + [Open];
      match transState {
        case NoTransit =>
          sendsock := sock;
          recvsock := sendsock;
        case TransitRecv =>
          sendsock := sock;
        case TransitSend =>
          recvsock := sock;
      }
      connState := Connected;
    }
  }
}
