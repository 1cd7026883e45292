/**
 What the Trimble parser makes of damaged streams (src/trimble/trimble_parser.c):
 of frames cut off anywhere, and of any octets whatsoever.
 */
module TrimbleStreams {
  import opened Options
  import opened Bytes
  import opened Sequences
  import opened TrimbleFormat

  // -------------------------------------------------- a frame cut off anywhere

  /** How many BOMs a part of the stream ends with. */
  function BomRun(s: seq<byte>): nat {
    if s == [] || s[|s| - 1] != BOM then 0 else 1 + BomRun(s[..|s| - 1])
  }

  lemma BomRunPlus(s: seq<byte>, b: byte)
    ensures BomRun(s + [b]) == if b == BOM then BomRun(s) + 1 else 0
  {
    assert (s + [b])[..|s|] == s;
  }

  lemma StuffOne(b: byte)
    ensures Stuff([b]) == Stuffed(b)
  {
    assert Stuff([b][1..]) == [];
  }

  lemma StuffLast(d: seq<byte>)
    requires d != []
    ensures Stuff(d) == Stuff(d[..|d| - 1]) + Stuffed(d[|d| - 1])
  {
    hide Stuff, Stuffed;
    var n := |d| - 1;
    StuffConcat(d[..n], [d[n]]);
    StuffOne(d[n]);
    assert d[..n] + [d[n]] == d;
  }

  lemma StuffNothing(s: seq<byte>)
    ensures s + Stuff([]) == s
  {
    assert Stuff([]) == [];
    assert s + [] == s;
  }

  /** Encoded data end with an even number of BOMs, half a doubled BOM makes it odd. */
  lemma {:induction false} BomRunBehind(s: seq<byte>, d: seq<byte>)
    requires BomRun(s) == 0
    ensures BomRun(s + Stuff(d)) % 2 == 0
    ensures BomRun(s + Stuff(d) + [BOM]) % 2 == 1
  {
    hide Stuff, BomRun;
    BomRunPlus(s + Stuff(d), BOM);
    if d == [] {
      StuffNothing(s);
    } else {
      var n := |d| - 1;
      var f := s + Stuff(d[..n]);
      BomRunBehind(s, d[..n]);
      StuffLast(d);
      Glue(s, Stuff(d[..n]), Stuffed(d[n]));
      BomRunPlus(f, d[n]);
      if d[n] == BOM {
        BomRunPlus(f + [BOM], BOM);
        Glue(f, [BOM], [BOM]);
        assert Stuffed(d[n]) == [BOM] + [BOM];
      }
    }
  }

  /** How many octets of the data arrive with the first `k` octets of their encoding. */
  function Arrived(d: seq<byte>, k: nat): (j: nat)
    ensures j <= |d|
  {
    if d == [] || k < |Stuffed(d[0])| then 0 else 1 + Arrived(d[1..], k - |Stuffed(d[0])|)
  }

  lemma {:induction false} StuffPrefix(d: seq<byte>, k: nat)
    requires k <= |Stuff(d)| + 1
    ensures var s, e := Stuff(d) + [BOM, EOM], Stuff(d[..Arrived(d, k)]);
            s[..k] == e || s[..k] == e + [BOM]
  {
    var s := Stuff(d) + [BOM, EOM];
    if d == [] {
      assert s[..k] == [] || s[..k] == [BOM];
    } else {
      var e := Stuffed(d[0]);
      Glue(e, Stuff(d[1..]), [BOM, EOM]);
      if k >= |e| {
        var j := Arrived(d[1..], k - |e|);
        StuffPrefix(d[1..], k - |e|);
        assert s[..k] == e + (Stuff(d[1..]) + [BOM, EOM])[..k - |e|];
        assert d[..j + 1][1..] == d[1..][..j];
        Glue(e, Stuff(d[1..][..j]), [BOM]);
      } else {
        assert s[..k] == [] || s[..k] == [BOM];
      }
    }
  }

  /** What arrived of the data of a message of which the first `k` octets arrived. */
  function DataArrived(m: Message, k: nat): seq<byte>
    requires k >= 2
  {
    m.data[..Arrived(m.data, k - 2)]
  }

  /** The message that a cut one and the next one pass for, when the cut halves a BOM or the end. */
  function Glued(a: Message, k: nat, m: Message): Message
    requires k >= 1
  {
    if k == 1 then Message(BOM, [m.typ] + m.data)
    else Message(a.typ, DataArrived(a, k) + [BOM, m.typ] + m.data)
  }

  lemma WirePrefix(a: Message, k: nat)
    requires a.Valid() && 2 <= k < |Wire(a.typ, a.data)|
    ensures var s, e := Wire(a.typ, a.data)[..k], [BOM, a.typ] + Stuff(DataArrived(a, k));
            || (s == e && BomRun(s) % 2 == 0)
            || (s == e + [BOM] && BomRun(s) % 2 == 1)
  {
    var s, d := Wire(a.typ, a.data)[..k], DataArrived(a, k);
    StuffPrefix(a.data, k - 2);
    assert s == [BOM, a.typ] + (Stuff(a.data) + [BOM, EOM])[..k - 2];
    Glue([BOM, a.typ], Stuff(d), [BOM]);
    assert [BOM, a.typ][..1] == [BOM] && BomRun([BOM, a.typ]) == 0;
    BomRunBehind([BOM, a.typ], d);
  }

  lemma StuffPair(typ: byte)
    requires typ != BOM
    ensures Stuff([BOM, typ]) == [BOM] + [BOM, typ]
  {
    assert [BOM, typ][1..] == [typ];
    StuffOne(typ);
  }

  lemma Regrouped(a: seq<byte>, d: seq<byte>, s: seq<byte>, p: seq<byte>, h: seq<byte>, e: seq<byte>)
    ensures a + d + s + (p + (h + e)) == a + ((d + (s + p) + h) + e)
  {
    Glue(a + d, s, p + (h + e));
    Glue(a, d, s + (p + (h + e)));
    Glue(s, p, h + e);
    Glue(d, s + p, h + e);
    Glue(d + (s + p), h, e);
  }

  /** Octets on the wire that begin with half a doubled BOM and a message are those of another message. */
  lemma GluedTogether(typ: byte, d: seq<byte>, m: Message)
    requires m.Valid()
    ensures [BOM, typ] + Stuff(d) + [BOM] + Wire(m.typ, m.data) == Wire(typ, d + [BOM, m.typ] + m.data)
  {
    hide Stuff;
    StuffConcat(d + [BOM, m.typ], m.data);
    StuffConcat(d, [BOM, m.typ]);
    StuffPair(m.typ);
    Regrouped([BOM, typ], Stuff(d), [BOM], [BOM, m.typ], Stuff(m.data), [BOM, EOM]);
  }

  lemma LoneBomGlues(m: Message)
    requires m.Valid()
    ensures [BOM] + Wire(m.typ, m.data) == Wire(BOM, [m.typ] + m.data)
  {
    hide Stuff;
    StuffConcat([m.typ], m.data);
    StuffOne(m.typ);
    Glue([m.typ], Stuff(m.data), [BOM, EOM]);
    var e := Stuff(m.data) + [BOM, EOM];
    assert [BOM] + ([BOM, m.typ] + e) == [BOM, BOM] + ([m.typ] + e);
  }

  /** A frame that ends too early between two encoded octets is dropped, and nothing else is. */
  lemma CutIsDropped(typ: byte, d: seq<byte>, s: seq<byte>, room: nat)
    requires typ != EOM && (s == [] || Begins(s))
    ensures Parse([BOM, typ] + Stuff(d) + s, room) == Parse(s, room)
  {
    hide Stuff, Unstuff, Synchronize;
    Glue([BOM, typ], Stuff(d), s);
    assert ([BOM, typ] + (Stuff(d) + s))[1..] == [typ] + (Stuff(d) + s);
    TypeStep(typ, Stuff(d) + s, room);
    if s != [] { FrameBegins(s, room); }
    if |d| < room {
      UnstuffCut(d, s, room);
    } else {
      UnstuffTooMuch(d, s, room);
      SynchronizeCut(d[room..], s);
    }
  }

  /**
   The exact condition: a message was cut off anywhere; the call returns the next
   one, if that fits, if and only if what arrived ends with an even number of BOMs.
   Otherwise the parser takes both for one message that was never sent, which it
   returns if it fits and skips if not.
   */
  lemma NextMessageSurvivesIff(a: Message, k: nat, m: Message, t: seq<byte>, room: nat)
    requires a.Valid() && m.Valid() && k < |Wire(a.typ, a.data)|
    ensures var cut, next := Wire(a.typ, a.data)[..k], Wire(m.typ, m.data) + t;
            && (BomRun(cut) % 2 == 0 ==> Parse(cut + next, room) == Parse(next, room))
            && (BomRun(cut) % 2 == 1 ==>
                  && k >= 1 && cut + next == Wire(Glued(a, k, m).typ, Glued(a, k, m).data) + t
                  && Parse(cut + next, room) ==
                     if |Glued(a, k, m).data| < room then Frame(Glued(a, k, m).typ, Glued(a, k, m).data, t)
                     else Resynchronize(t, room))
            && (|m.data| < room ==> (Parse(cut + next, room) == Frame(m.typ, m.data, t) <==> BomRun(cut) % 2 == 0))
  {
    hide Parse, Stuff;
    var cut, next := Wire(a.typ, a.data)[..k], Wire(m.typ, m.data) + t;
    ParseUndoesWire(m, t, room);
    if k == 0 {
      assert cut + next == next;
    } else if k == 1 {
      BomRunPlus([], BOM);
      assert cut == [] + [BOM];
      LoneBomGlues(m);
      Glue([BOM], Wire(m.typ, m.data), t);
      ParseUndoesWire(Glued(a, k, m), t, room);
    } else {
      var d := DataArrived(a, k);
      WirePrefix(a, k);
      WireParts(m, t);
      if BomRun(cut) % 2 == 0 {
        CutIsDropped(a.typ, d, next, room);
      } else {
        GluedTogether(a.typ, d, m);
        Glue([BOM, a.typ] + Stuff(d) + [BOM], Wire(m.typ, m.data), t);
        ParseUndoesWire(Glued(a, k, m), t, room);
      }
    }
  }

  // ------------------------------------------------ the parser as an automaton

  /**
   What the parser is waiting for: at the start of a call for BOM, and behind that
   for the type; after a loss of synchronization for BOM, and behind that for a
   type; within a frame for data, and behind a BOM for its meaning.
   */
  datatype Mode =
    | Fresh | FreshBom
    | Lost | LostBom
    | Open(typ: byte, data: seq<byte>) | OpenBom(typ: byte, data: seq<byte>)
  {
    /** A full buffer never stays open. */
    predicate Valid(room: nat) { Open? || OpenBom? ==> |data| < room }

    /** No BOM is waiting for its meaning. */
    predicate Ready() { Fresh? || Lost? || Open? }
  }

  function Opened(typ: byte, data: seq<byte>, room: nat): Mode {
    if |data| < room then Open(typ, data) else Lost
  }

  /** One octet. */
  function Step(mode: Mode, b: byte, room: nat): Mode {
    match mode
    case Fresh => if b == BOM then FreshBom else Lost
    case FreshBom => if b == EOM then Lost else Opened(b, [], room)
    case Lost => if b == BOM then LostBom else Lost
    case LostBom => if b == BOM || b == EOM then Lost else Opened(b, [], room)
    case Open(typ, data) => if b == BOM then OpenBom(typ, data) else Opened(typ, data + [b], room)
    case OpenBom(typ, data) =>
      if b == EOM then Fresh else if b == BOM then Opened(typ, data + [BOM], room) else Opened(b, [], room)
  }

  /** The message an octet completes, if any. */
  function Output(mode: Mode, b: byte): seq<Message> {
    if mode.OpenBom? && b == EOM then [Message(mode.typ, mode.data)] else []
  }

  function End(mode: Mode, s: seq<byte>, room: nat): Mode
    decreases |s|
  {
    if s == [] then mode else End(Step(mode, s[0], room), s[1..], room)
  }

  function Outputs(mode: Mode, s: seq<byte>, room: nat): seq<Message>
    decreases |s|
  {
    if s == [] then [] else Output(mode, s[0]) + Outputs(Step(mode, s[0], room), s[1..], room)
  }

  function Left(data: seq<byte>, room: nat): nat { if |data| <= room then room - |data| else 0 }

  function Continue(typ: byte, data: seq<byte>, u: Decoded, room: nat): Parsed {
    match u
    case Ok(more, rest) => Frame(typ, data + more, rest)
    case Resync(rest) => DecodeFrame(rest, room)
    case Full(rest) => Resynchronize(rest, room)
    case ConnFail => Failed
  }

  /** What the calls return that go on in a mode. */
  function From(mode: Mode, s: seq<byte>, room: nat): Parsed {
    match mode
    case Fresh => Parse(s, room)
    case FreshBom => DecodeFrame(s, room)
    case Lost => Resynchronize(s, room)
    case LostBom => Resynchronize([BOM] + s, room)
    case Open(typ, data) => Continue(typ, data, Unstuff(s, Left(data, room)), room)
    case OpenBom(typ, data) => Continue(typ, data, Unstuff([BOM] + s, Left(data, room)), room)
  }

  function Messages(p: Parsed, room: nat): seq<Message> {
    if p.Failed? then [] else [Message(p.typ, p.data)] + ParseAll(p.rest, room)
  }

  lemma NothingLeft(mode: Mode, room: nat)
    requires mode.Valid(room)
    ensures From(mode, [], room) == Failed
  {
    assert [BOM] + [] == [BOM];
  }

  lemma ContinueMore(typ: byte, data: seq<byte>, b: byte, u: Decoded, room: nat)
    ensures Continue(typ, data, Prepend([b], u), room) == Continue(typ, data + [b], u, room)
  {
    hide DecodeFrame, Resynchronize;
    if u.Ok? { Glue(data, [b], u.data); }
  }

  lemma UnstuffNone(t: seq<byte>, room: nat)
    ensures room == 0 ==> Unstuff(t, room) == Full(t)
  {
  }

  /** A frame begins: with its type only. */
  lemma FromType(b: byte, t: seq<byte>, room: nat)
    requires b != EOM
    ensures DecodeFrame([b] + t, room) == From(Opened(b, [], room), t, room)
  {
    hide Unstuff;
    TypeStep(b, t, room);
    UnstuffNone(t, room);
    if Unstuff(t, room).Ok? { assert [] + Unstuff(t, room).data == Unstuff(t, room).data; }
  }

  /** One more octet of data. */
  lemma FromData(typ: byte, data: seq<byte>, b: byte, u: Decoded, t: seq<byte>, room: nat)
    requires |data| < room && u == Unstuff(t, room - |data| - 1)
    ensures Continue(typ, data, Prepend([b], u), room) == From(Opened(typ, data + [b], room), t, room)
  {
    hide Unstuff, DecodeFrame, Resynchronize;
    ContinueMore(typ, data, b, u, room);
    UnstuffNone(t, room - |data| - 1);
  }

  lemma SynchronizeStep(b: byte, t: seq<byte>)
    ensures b != BOM ==> Synchronize([b] + t) == Synchronize(t)
  {
    assert ([b] + t)[1..] == t;
  }

  lemma SynchronizeBehindBom(s: seq<byte>)
    requires s != []
    ensures Synchronize([BOM] + s) == if s[0] == BOM || s[0] == EOM then Synchronize(s[1..]) else Some(s)
  {
    assert ([BOM] + s)[1..] == s && ([BOM] + s)[2..] == s[1..];
  }

  lemma UnstuffBehindBom(s: seq<byte>, n: nat)
    requires s != [] && n > 0
    ensures Unstuff([BOM] + s, n) ==
            if s[0] == EOM then Ok([], s[1..])
            else if s[0] == BOM then Prepend([BOM], Unstuff(s[1..], n - 1))
            else Resync(s)
  {
    assert ([BOM] + s)[1..] == s && ([BOM] + s)[2..] == s[1..];
  }

  lemma OutsideStep(mode: Mode, b: byte, t: seq<byte>, room: nat)
    requires mode.Valid(room) && !mode.Open? && !mode.OpenBom?
    ensures Messages(From(mode, [b] + t, room), room)
            == Output(mode, b) + Messages(From(Step(mode, b, room), t, room), room)
  {
    var s := [b] + t;
    assert s[1..] == t;
    match mode
    case Fresh =>
    case FreshBom => if b != EOM { FromType(b, t, room); }
    case Lost => SynchronizeStep(b, t);
    case LostBom =>
      SynchronizeBehindBom(s);
      if b != BOM && b != EOM { FromType(b, t, room); }
  }

  lemma UnstuffPlain(b: byte, t: seq<byte>, n: nat)
    requires n > 0 && b != BOM
    ensures Unstuff([b] + t, n) == Prepend([b], Unstuff(t, n - 1))
  {
    assert ([b] + t)[1..] == t;
  }

  lemma InsideStep(mode: Mode, b: byte, t: seq<byte>, room: nat)
    requires mode.Valid(room) && (mode.Open? || (mode.OpenBom? && b != EOM))
    ensures From(mode, [b] + t, room) == From(Step(mode, b, room), t, room)
  {
    hide Unstuff, DecodeFrame, Resynchronize, Opened;
    var n := room - |mode.data|;
    assert ([b] + t)[1..] == t;
    if mode.OpenBom? {
      UnstuffBehindBom([b] + t, n);
      if b == BOM { FromData(mode.typ, mode.data, b, Unstuff(t, n - 1), t, room); } else { FromType(b, t, room); }
    } else if b != BOM {
      UnstuffPlain(b, t, n);
      FromData(mode.typ, mode.data, b, Unstuff(t, n - 1), t, room);
    }
  }

  lemma EndStep(mode: Mode, t: seq<byte>, room: nat)
    requires mode.Valid(room) && mode.OpenBom?
    ensures From(mode, [EOM] + t, room) == Frame(mode.typ, mode.data, t)
  {
    hide Unstuff;
    UnstuffBehindBom([EOM] + t, room - |mode.data|);
    assert mode.data + [] == mode.data && ([EOM] + t)[1..] == t;
  }

  /** One octet takes the parser from mode to mode. */
  lemma FromStep(mode: Mode, b: byte, t: seq<byte>, room: nat)
    requires mode.Valid(room)
    ensures Messages(From(mode, [b] + t, room), room)
            == Output(mode, b) + Messages(From(Step(mode, b, room), t, room), room)
  {
    hide Unstuff, DecodeFrame, Resynchronize, Opened, Parse, Continue;
    if !mode.Open? && !mode.OpenBom? {
      OutsideStep(mode, b, t, room);
    } else if mode.OpenBom? && b == EOM {
      EndStep(mode, t, room);
    } else {
      InsideStep(mode, b, t, room);
    }
  }

  lemma NoMessages(room: nat)
    ensures Messages(Failed, room) == []
  {
  }

  lemma {:induction false} FromMode(mode: Mode, s: seq<byte>, room: nat)
    requires mode.Valid(room)
    ensures Messages(From(mode, s, room), room) == Outputs(mode, s, room)
    decreases |s|
  {
    hide From, Messages;
    if s == [] {
      NothingLeft(mode, room);
      NoMessages(room);
    } else {
      assert [s[0]] + s[1..] == s;
      FromStep(mode, s[0], s[1..], room);
      FromMode(Step(mode, s[0], room), s[1..], room);
    }
  }

  /** For every stream, successive calls return exactly what the automaton puts out. */
  lemma CallsAreAutomaton(s: seq<byte>, room: nat)
    ensures ParseAll(s, room) == Outputs(Fresh, s, room)
  {
    FromMode(Fresh, s, room);
  }

  lemma {:induction false} InParts(mode: Mode, s: seq<byte>, t: seq<byte>, room: nat)
    requires mode.Valid(room)
    ensures End(mode, s, room).Valid(room)
    ensures End(mode, s + t, room) == End(End(mode, s, room), t, room)
    ensures Outputs(mode, s + t, room) == Outputs(mode, s, room) + Outputs(End(mode, s, room), t, room)
    decreases |s|
  {
    if s == [] {
      assert s + t == t;
    } else {
      var next := Step(mode, s[0], room);
      InParts(next, s[1..], t, room);
      assert (s + t)[1..] == s[1..] + t;
      Glue(Output(mode, s[0]), Outputs(next, s[1..], room), Outputs(End(mode, s, room), t, room));
    }
  }

  // -------------------------------------------------------------- whole streams

  /** Some octets take the automaton from `mode` to `next` and put out `out`. */
  ghost predicate Leads(mode: Mode, s: seq<byte>, next: Mode, out: seq<Message>, room: nat) {
    End(mode, s, room) == next && Outputs(mode, s, room) == out && next.Valid(room)
  }

  lemma LeadsOn(mode: Mode, s: seq<byte>, mid: Mode, out: seq<Message>,
                t: seq<byte>, next: Mode, more: seq<Message>, room: nat)
    requires mode.Valid(room) && Leads(mode, s, mid, out, room) && Leads(mid, t, next, more, room)
    ensures Leads(mode, s + t, next, out + more, room)
  {
    InParts(mode, s, t, room);
  }

  lemma One(mode: Mode, b: byte, room: nat)
    requires mode.Valid(room)
    ensures Leads(mode, [b], Step(mode, b, room), Output(mode, b), room)
  {
    var next := Step(mode, b, room);
    assert [b][1..] == [];
    assert End(next, [], room) == next && Outputs(next, [], room) == [];
  }

  lemma Two(mode: Mode, a: byte, b: byte, room: nat)
    requires mode.Valid(room)
    ensures var mid := Step(mode, a, room);
            Leads(mode, [a, b], Step(mid, b, room), Output(mode, a) + Output(mid, b), room)
  {
    One(mode, a, room);
    One(Step(mode, a, room), b, room);
    LeadsOn(mode, [a], Step(mode, a, room), Output(mode, a), [b],
            Step(Step(mode, a, room), b, room), Output(Step(mode, a, room), b), room);
    assert [a] + [b] == [a, b];
  }

  /** The mode behind some more data. */
  function Grown(mode: Mode, d: seq<byte>, room: nat): Mode {
    if mode.Open? then Opened(mode.typ, mode.data + d, room) else mode
  }

  lemma Nothing(mode: Mode, room: nat)
    requires mode.Valid(room)
    ensures Leads(mode, [], mode, [], room)
  {
  }

  lemma Data(mode: Mode, d: seq<byte>, room: nat)
    requires (mode.Open? || mode.Lost?) && mode.Valid(room)
    ensures Leads(mode, Stuff(d), Grown(mode, d, room), [], room)
    decreases |d|
  {
    hide End, Outputs;
    Nothing(mode, room);
    if d == [] {
      if mode.Open? { assert mode.data + [] == mode.data; }
    } else {
      var b := d[0];
      var mid := Grown(mode, [b], room);
      if b == BOM { Two(mode, BOM, BOM, room); } else { One(mode, b, room); }
      assert Leads(mode, Stuffed(b), mid, [], room);
      Data(mid, d[1..], room);
      LeadsOn(mode, Stuffed(b), mid, [], Stuff(d[1..]), Grown(mid, d[1..], room), [], room);
      if mode.Open? {
        Glue(mode.data, [b], d[1..]);
        assert [b] + d[1..] == d;
      }
    }
  }

  /** What a message adds behind a BOM that waits for its meaning: the message it is taken for, if any. */
  function TakenFor(mode: Mode, m: Message): seq<Message> {
    match mode
    case FreshBom => [Message(BOM, [m.typ] + m.data)]
    case OpenBom(typ, data) => [Message(typ, data + [BOM, m.typ] + m.data)]
    case LostBom => []
    case _ => [m]
  }

  function Fits(ms: seq<Message>, room: nat): seq<Message> {
    if ms == [] then [] else (if |ms[0].data| < room then [ms[0]] else []) + Fits(ms[1..], room)
  }

  /** The mode behind BOM and the type of a message. */
  function Begun(mode: Mode, typ: byte, room: nat): Mode {
    match mode
    case FreshBom => Opened(BOM, [typ], room)
    case OpenBom(t, data) => Opened(t, data + [BOM, typ], room)
    case LostBom => Lost
    case _ => Opened(typ, [], room)
  }

  lemma Beginning(mode: Mode, m: Message, room: nat)
    requires m.Valid() && mode.Valid(room)
    ensures Leads(mode, [BOM, m.typ], Begun(mode, m.typ, room), [], room)
  {
    hide End, Outputs;
    Two(mode, BOM, m.typ, room);
    if mode.OpenBom? {
      assert mode.data + [BOM] + [m.typ] == mode.data + [BOM, m.typ];
    } else if mode.FreshBom? {
      assert [] + [m.typ] == [m.typ];
    }
  }

  lemma Ending(mode: Mode, room: nat)
    requires (mode.Open? || mode.Lost?) && mode.Valid(room)
    ensures Leads(mode, [BOM, EOM], if mode.Open? then Fresh else Lost,
                  if mode.Open? then [Message(mode.typ, mode.data)] else [], room)
  {
    hide End, Outputs;
    Two(mode, BOM, EOM, room);
  }

  lemma TakenForGrown(mode: Mode, m: Message, room: nat)
    requires m.Valid() && mode.Valid(room)
    ensures var grown := Grown(Begun(mode, m.typ, room), m.data, room);
            Fits(TakenFor(mode, m), room) == if grown.Open? then [Message(grown.typ, grown.data)] else []
  {
    var ms := TakenFor(mode, m);
    if ms != [] { assert ms[1..] == []; }
    if mode.Ready() { assert [] + m.data == m.data; }
  }

  /**
   A message on the wire, from every mode: unless a BOM waits for its meaning it is
   put out if it fits. Afterwards the parser is at the start of a call or lost.
   */
  lemma WholeMessage(mode: Mode, m: Message, room: nat)
    requires m.Valid() && mode.Valid(room)
    ensures Outputs(mode, Wire(m.typ, m.data), room) == Fits(TakenFor(mode, m), room)
    ensures var next := End(mode, Wire(m.typ, m.data), room);
            (next.Fresh? || next.Lost?) && (next.Fresh? <==> Fits(TakenFor(mode, m), room) != [])
  {
    hide End, Outputs;
    var begun := Begun(mode, m.typ, room);
    var grown := Grown(begun, m.data, room);
    Beginning(mode, m, room);
    Data(begun, m.data, room);
    Ending(grown, room);
    var next, out := if grown.Open? then Fresh else Lost, if grown.Open? then [Message(grown.typ, grown.data)] else [];
    LeadsOn(begun, Stuff(m.data), grown, [], [BOM, EOM], next, out, room);
    assert [] + out == out;
    LeadsOn(mode, [BOM, m.typ], begun, [], Stuff(m.data) + [BOM, EOM], next, out, room);
    TakenForGrown(mode, m, room);
  }

  /** A message cut off anywhere puts out nothing; it leaves a BOM without meaning if and only if its BOMs are odd. */
  lemma CutMessage(mode: Mode, a: Message, k: nat, room: nat)
    requires a.Valid() && mode.Valid(room) && mode.Ready() && k < |Wire(a.typ, a.data)|
    ensures var cut := Wire(a.typ, a.data)[..k];
            && Outputs(mode, cut, room) == [] && End(mode, cut, room).Valid(room)
            && (End(mode, cut, room).Ready() <==> BomRun(cut) % 2 == 0)
  {
    hide End, Outputs, Stuff;
    var cut := Wire(a.typ, a.data)[..k];
    if k == 0 {
      Nothing(mode, room);
      assert cut == [];
    } else if k == 1 {
      One(mode, BOM, room);
      BomRunPlus([], BOM);
      assert cut == [] + [BOM] == [BOM];
    } else {
      var d := DataArrived(a, k);
      var begun := Begun(mode, a.typ, room);
      var grown := Grown(begun, d, room);
      WirePrefix(a, k);
      Beginning(mode, a, room);
      Data(begun, d, room);
      LeadsOn(mode, [BOM, a.typ], begun, [], Stuff(d), grown, [], room);
      One(grown, BOM, room);
      LeadsOn(mode, [BOM, a.typ] + Stuff(d), grown, [], [BOM], Step(grown, BOM, room), [], room);
    }
  }

  lemma NoiseOctets(mode: Mode, s: seq<byte>, room: nat)
    requires BOM !in s && mode.Valid(room) && mode.Ready()
    ensures Outputs(mode, s, room) == [] && End(mode, s, room).Valid(room) && End(mode, s, room).Ready()
    decreases |s|
  {
    if s != [] {
      NoiseOctets(Step(mode, s[0], room), s[1..], room);
    }
  }

  /** What a stream consists of: messages, messages cut off anywhere, and octets that are no BOM. */
  datatype Piece = Whole(m: Message) | Cut(m: Message, k: nat) | Noise(octets: seq<byte>) {
    predicate Valid() {
      match this
      case Whole(m) => m.Valid()
      case Cut(m, k) => m.Valid() && k < |Wire(m.typ, m.data)|
      case Noise(octets) => BOM !in octets
    }

    function Octets(): seq<byte>
      requires Valid()
    {
      match this
      case Whole(m) => Wire(m.typ, m.data)
      case Cut(m, k) => Wire(m.typ, m.data)[..k]
      case Noise(octets) => octets
    }

    /** No cut within a doubled BOM, within the end of a frame, or behind its first octet. */
    predicate Even()
      requires Valid()
    {
      Cut? ==> BomRun(Octets()) % 2 == 0
    }
  }

  ghost predicate AllValid(ps: seq<Piece>) { forall i :: 0 <= i < |ps| ==> ps[i].Valid() }

  ghost predicate AllEven(ps: seq<Piece>)
    requires AllValid(ps)
  {
    forall i :: 0 <= i < |ps| ==> ps[i].Even()
  }

  function Stream(ps: seq<Piece>): seq<byte>
    requires AllValid(ps)
  {
    if ps == [] then [] else ps[0].Octets() + Stream(ps[1..])
  }

  /** The whole messages that leave an octet of the buffer free. */
  function Fitting(ps: seq<Piece>, room: nat): seq<Message> {
    if ps == [] then []
    else (if ps[0].Whole? && |ps[0].m.data| < room then [ps[0].m] else []) + Fitting(ps[1..], room)
  }

  lemma OnePiece(mode: Mode, p: Piece, room: nat)
    requires p.Valid() && p.Even() && mode.Valid(room) && mode.Ready()
    ensures Outputs(mode, p.Octets(), room) == if p.Whole? && |p.m.data| < room then [p.m] else []
    ensures End(mode, p.Octets(), room).Valid(room) && End(mode, p.Octets(), room).Ready()
  {
    hide End, Outputs;
    match p
    case Whole(m) =>
      WholeMessage(mode, m, room);
      assert [m][1..] == [];
    case Cut(m, k) =>
      CutMessage(mode, m, k, room);
    case Noise(octets) =>
      NoiseOctets(mode, octets, room);
  }

  lemma {:induction false} EvenPieces(mode: Mode, ps: seq<Piece>, room: nat)
    requires AllValid(ps) && AllEven(ps) && mode.Valid(room) && mode.Ready()
    ensures Outputs(mode, Stream(ps), room) == Fitting(ps, room)
    ensures End(mode, Stream(ps), room).Valid(room) && End(mode, Stream(ps), room).Ready()
    decreases |ps|
  {
    hide End, Outputs;
    if ps == [] {
      Nothing(mode, room);
    } else {
      OnePiece(mode, ps[0], room);
      InParts(mode, ps[0].Octets(), Stream(ps[1..]), room);
      EvenPieces(End(mode, ps[0].Octets(), room), ps[1..], room);
    }
  }

  /**
   Whatever messages, messages cut off anywhere and other octets the stream
   consists of: as long as no cut leaves an odd number of BOMs, calls return
   exactly the whole messages that fit, all of them and in order.
   */
  lemma ExactlyTheFitting(ps: seq<Piece>, room: nat)
    requires AllValid(ps) && AllEven(ps)
    ensures ParseAll(Stream(ps), room) == Fitting(ps, room)
  {
    CallsAreAutomaton(Stream(ps), room);
    EvenPieces(Fresh, ps, room);
  }

  lemma TakenForIsLonger(mode: Mode, m: Message)
    requires !mode.Ready()
    ensures forall g <- TakenFor(mode, m) :: |g.data| > |m.data|
  {
  }

  /** A cut message, a whole one that fits, and even pieces around them. */
  function AroundCut(pre: seq<Piece>, a: Message, k: nat, m: Message, post: seq<Piece>): seq<byte>
    requires AllValid(pre) && AllValid(post) && Cut(a, k).Valid()
  {
    Stream(pre) + (Cut(a, k).Octets() + (Wire(m.typ, m.data) + Stream(post)))
  }

  /** What the calls return around a cut: `mode` is the automaton's behind it. */
  lemma BehindCut(pre: seq<Piece>, a: Message, k: nat, m: Message, post: seq<Piece>, room: nat) returns (mode: Mode)
    requires AllValid(pre) && AllEven(pre) && AllValid(post) && AllEven(post)
    requires Cut(a, k).Valid() && m.Valid()
    ensures mode == End(Fresh, Stream(pre) + Cut(a, k).Octets(), room)
    ensures mode.Ready() <==> BomRun(Cut(a, k).Octets()) % 2 == 0
    ensures ParseAll(AroundCut(pre, a, k, m, post), room)
            == Fitting(pre, room) + Fits(TakenFor(mode, m), room) + Fitting(post, room)
  {
    hide End, Outputs, Wire, Stream, Fitting, Fits, TakenFor, BomRun, ParseAll;
    var cut, w, rest := Cut(a, k).Octets(), Wire(m.typ, m.data), Stream(post);
    CallsAreAutomaton(AroundCut(pre, a, k, m, post), room);
    EvenPieces(Fresh, pre, room);
    var first := End(Fresh, Stream(pre), room);
    InParts(Fresh, Stream(pre), cut + (w + rest), room);
    InParts(Fresh, Stream(pre), cut, room);
    CutMessage(first, a, k, room);
    mode := End(first, cut, room);
    InParts(first, cut, w + rest, room);
    WholeMessage(mode, m, room);
    InParts(mode, w, rest, room);
    EvenPieces(End(mode, w, room), post, room);
    Glue(Fitting(pre, room), Fits(TakenFor(mode, m), room), Fitting(post, room));
  }

  lemma OneAtMost(ms: seq<Message>, room: nat)
    requires |ms| <= 1
    ensures Fits(ms, room) == [] || Fits(ms, room) == ms
  {
    if ms != [] { assert ms[1..] == []; }
  }

  /**
   The exact condition within a whole stream: the calls return exactly the whole
   messages that fit if and only if the cut in front of `m` leaves an even number
   of BOMs.
   */
  lemma ExactlyTheFittingIff(pre: seq<Piece>, a: Message, k: nat, m: Message, post: seq<Piece>, room: nat)
    requires AllValid(pre) && AllEven(pre) && AllValid(post) && AllEven(post)
    requires Cut(a, k).Valid() && m.Valid() && |m.data| < room
    ensures ParseAll(AroundCut(pre, a, k, m, post), room) == Fitting(pre, room) + [m] + Fitting(post, room)
            <==> BomRun(Cut(a, k).Octets()) % 2 == 0
  {
    var mode := BehindCut(pre, a, k, m, post, room);
    var x, p, q := Fits(TakenFor(mode, m), room), Fitting(pre, room), Fitting(post, room);
    hide Fitting, Stream, End, BomRun;
    if mode.Ready() {
      assert [m][1..] == [];
      assert x == [m];
    } else {
      TakenForIsLonger(mode, m);
      OneAtMost(TakenFor(mode, m), room);
      if x != [] { assert (p + x + q)[|p|] == x[0] != m == (p + [m] + q)[|p|]; }
      assert |p + [m] + q| == |p| + 1 + |q| && |p + x + q| == |p| + |x| + |q|;
    }
  }

  /**
   Any damage costs at most one message: whatever octets come first, of two messages
   behind them the second one is returned if it fits, and the calls after that
   return what they would for the rest of the stream alone.
   */
  lemma AnyDamageCostsOneMessage(g: seq<byte>, m1: Message, m: Message, t: seq<byte>, room: nat)
    returns (before: seq<Message>)
    requires m1.Valid() && m.Valid() && |m.data| < room
    ensures ParseAll(g + (Wire(m1.typ, m1.data) + (Wire(m.typ, m.data) + t)), room) == before + [m] + ParseAll(t, room)
  {
    hide End, Outputs;
    var w1, w := Wire(m1.typ, m1.data), Wire(m.typ, m.data);
    CallsAreAutomaton(g + (w1 + (w + t)), room);
    CallsAreAutomaton(t, room);
    InParts(Fresh, g, w1 + (w + t), room);
    var damaged := End(Fresh, g, room);
    WholeMessage(damaged, m1, room);
    InParts(damaged, w1, w + t, room);
    var mode := End(damaged, w1, room);
    WholeMessage(mode, m, room);
    InParts(mode, w, t, room);
    assert [m][1..] == [];
    before := Outputs(Fresh, g, room) + Outputs(damaged, w1, room);
    Glue(Outputs(Fresh, g, room), Outputs(damaged, w1, room), [m] + ParseAll(t, room));
    Glue(before, [m], ParseAll(t, room));
  }
}
