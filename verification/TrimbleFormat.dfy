/**
 What the Trimble parser computes, on whole streams: the byte stream format of
 src/trimble/trimble_parser.c without buffers, reads and jumps. A frame begins
 with BOM and its type and ends with BOM EOM; a BOM within it is doubled.
 */
module TrimbleFormat {
  import opened Options
  import opened Bytes
  import opened Sequences

  const BOM: byte := 0x10
  const EOM: byte := 0x03

  /** Outcome of decoding: the data, an unexpected octet after BOM, no more space, or the end of the stream. */
  datatype Decoded = Ok(data: seq<byte>, rest: seq<byte>) | Resync(rest: seq<byte>) | Full(rest: seq<byte>) | ConnFail

  function Prepend(d: seq<byte>, r: Decoded): Decoded {
    if r.Ok? then Ok(d + r.data, r.rest) else r
  }

  /** The data of a frame up to its end, at most `room` octets; a full buffer does not look for the end. */
  function Unstuff(s: seq<byte>, room: nat): (r: Decoded)
    ensures r.Ok? ==> |r.data| < room && |r.rest| + |r.data| < |s|
    ensures r.Resync? ==> 0 < |r.rest| < |s| && r.rest[0] != BOM && r.rest[0] != EOM
    ensures r.Full? ==> |r.rest| + room <= |s|
    decreases |s|
  {
    if room == 0 then Full(s)
    else if s == [] then ConnFail
    else if s[0] != BOM then Prepend([s[0]], Unstuff(s[1..], room - 1))
    else if |s| == 1 then ConnFail
    else if s[1] == EOM then Ok([], s[2..])
    else if s[1] == BOM then Prepend([BOM], Unstuff(s[2..], room - 1))
    else Resync(s[1..])
  }

  /** The rest of the stream after the next BOM that begins a frame: neither a doubled one nor the end of a frame. */
  function Synchronize(s: seq<byte>): (r: Option<seq<byte>>)
    ensures r.Some? ==> 0 < |r.value| < |s| && r.value[0] != BOM && r.value[0] != EOM
  {
    if |s| < 2 then None
    else if s[0] != BOM then Synchronize(s[1..])
    else if s[1] == BOM || s[1] == EOM then Synchronize(s[2..])
    else Some(s[1..])
  }

  datatype Parsed = Frame(typ: byte, data: seq<byte>, rest: seq<byte>) | Failed

  /** From the type octet on, with a buffer for `room` octets of data. */
  function DecodeFrame(s: seq<byte>, room: nat): (p: Parsed)
    ensures p.Frame? ==> p.typ != EOM && |p.data| < room && |p.rest| < |s|
    decreases |s|
  {
    if s == [] then Failed
    else if s[0] == EOM then Resynchronize(s[1..], room)
    else
      match Unstuff(s[1..], room)
      case Ok(data, rest) => Frame(s[0], data, rest)
      case Resync(rest) => DecodeFrame(rest, room)
      case Full(rest) => Resynchronize(rest, room)
      case ConnFail => Failed
  }

  function Resynchronize(s: seq<byte>, room: nat): (p: Parsed)
    ensures p.Frame? ==> p.typ != EOM && |p.data| < room && |p.rest| < |s|
    decreases |s|
  {
    var t := Synchronize(s);
    if t.None? then Failed else DecodeFrame(t.value, room)
  }

  /** The next frame of a stream and what is left of the stream. */
  function Parse(s: seq<byte>, room: nat): (p: Parsed)
    ensures p.Frame? ==> p.typ != EOM && |p.data| < room && |p.rest| < |s|
  {
    if s == [] then Failed
    else if s[0] == BOM then DecodeFrame(s[1..], room)
    else Resynchronize(s[1..], room)
  }

  // ------------------------------------------------------------------- the wire

  function Stuffed(b: byte): seq<byte> { if b == BOM then [BOM, BOM] else [b] }

  function Stuff(d: seq<byte>): seq<byte> { if d == [] then [] else Stuffed(d[0]) + Stuff(d[1..]) }

  /** A frame on the wire. */
  function Wire(typ: byte, data: seq<byte>): seq<byte> { [BOM, typ] + (Stuff(data) + [BOM, EOM]) }

  /** A message the device may send: a frame cannot start with BOM or EOM. */
  datatype Message = Message(typ: byte, data: seq<byte>) {
    predicate Valid() { typ != BOM && typ != EOM }
  }

  /** `Stuff(d) + t` starts with the encoding of the first octet. */
  lemma StuffStep(d: seq<byte>, t: seq<byte>)
    requires d != []
    ensures var s, k := Stuff(d) + t, |Stuffed(d[0])|;
            && Stuff(d) + t == Stuffed(d[0]) + (Stuff(d[1..]) + t)
            && |s| >= k && s[0] == d[0] && (d[0] == BOM ==> s[1] == BOM) && s[k..] == Stuff(d[1..]) + t
  {
    Glue(Stuffed(d[0]), Stuff(d[1..]), t);
  }

  lemma UnstuffStep(d: seq<byte>, t: seq<byte>, room: nat)
    requires d != [] && room > 0
    ensures Unstuff(Stuff(d) + t, room) == Prepend([d[0]], Unstuff(Stuff(d[1..]) + t, room - 1))
  {
    StuffStep(d, t);
  }

  /** Data that leave one octet of the buffer free are recovered, whatever follows. */
  lemma {:induction false} UnstuffUndoesStuff(d: seq<byte>, t: seq<byte>, room: nat)
    requires |d| < room
    ensures Unstuff(Stuff(d) + ([BOM, EOM] + t), room) == Ok(d, t)
  {
    if d == [] {
      assert Stuff(d) + ([BOM, EOM] + t) == [BOM, EOM] + t;
      assert ([BOM, EOM] + t)[2..] == t;
    } else {
      UnstuffStep(d, [BOM, EOM] + t, room);
      UnstuffUndoesStuff(d[1..], t, room - 1);
      assert [d[0]] + d[1..] == d;
    }
  }

  /** More data fill the buffer, and what is left is again a part of the frame. */
  lemma {:induction false} UnstuffTooMuch(d: seq<byte>, t: seq<byte>, room: nat)
    requires |d| >= room
    ensures Unstuff(Stuff(d) + t, room) == Full(Stuff(d[room..]) + t)
  {
    if room == 0 {
      assert d[0..] == d;
    } else {
      UnstuffStep(d, t, room);
      UnstuffTooMuch(d[1..], t, room - 1);
      assert d[1..][room - 1..] == d[room..];
    }
  }

  /** Synchronizing within the data of a frame ends behind that frame. */
  lemma {:induction false} SynchronizeSkips(d: seq<byte>, t: seq<byte>)
    ensures Synchronize(Stuff(d) + ([BOM, EOM] + t)) == Synchronize(t)
  {
    var s := Stuff(d) + ([BOM, EOM] + t);
    if d == [] {
      assert s == [BOM, EOM] + t;
      assert s[2..] == t;
    } else {
      StuffStep(d, [BOM, EOM] + t);
      SynchronizeSkips(d[1..], t);
    }
  }

  lemma WireParts(m: Message, t: seq<byte>)
    ensures var s := Wire(m.typ, m.data) + t;
            && |s| > 1 && s[0] == BOM && s[1] == m.typ
            && s[1..][1..] == Stuff(m.data) + ([BOM, EOM] + t)
  {
    var s := Wire(m.typ, m.data) + t;
    Glue([BOM, m.typ], Stuff(m.data) + [BOM, EOM], t);
    Glue(Stuff(m.data), [BOM, EOM], t);
    assert s[1..][1..] == s[2..];
  }

  /**
   The law of the format: a message at the head of the stream is returned exactly
   when it leaves an octet of the buffer free. A longer one is skipped as a whole
   and the same call goes on behind it.
   */
  lemma ParseUndoesWire(m: Message, t: seq<byte>, room: nat)
    requires m.typ != EOM
    ensures Parse(Wire(m.typ, m.data) + t, room) ==
            if |m.data| < room then Frame(m.typ, m.data, t) else Resynchronize(t, room)
  {
    WireParts(m, t);
    var u := [BOM, EOM] + t;
    if |m.data| < room {
      UnstuffUndoesStuff(m.data, t, room);
    } else {
      UnstuffTooMuch(m.data, u, room);
      SynchronizeSkips(m.data[room..], t);
      assert Resynchronize(Stuff(m.data[room..]) + u, room) == Resynchronize(t, room);
    }
  }

  /**
   The format in octets: 0x10 and a type, the data with each 0x10 doubled, 0x10 0x03.
   */
  lemma MessagesInOctets(typ: byte, data: seq<byte>, t: seq<byte>, room: nat)
    requires typ != 0x03
    ensures Stuff([]) == []
    ensures data != [] ==> Stuff(data) == (if data[0] == 0x10 then [0x10, 0x10] else [data[0]]) + Stuff(data[1..])
    ensures Parse([0x10, typ] + (Stuff(data) + [0x10, 0x03]) + t, room) ==
            if |data| < room then Frame(typ, data, t) else Resynchronize(t, room)
  {
    ParseUndoesWire(Message(typ, data), t, room);
  }

  /** A message of type BOM is returned at the start of a call, but is no place to synchronize at. */
  lemma TypeBomIsSkipped(data: seq<byte>, t: seq<byte>, room: nat)
    requires |data| < room
    ensures Parse(Wire(BOM, data) + t, room) == Frame(BOM, data, t)
    ensures Synchronize(Wire(BOM, data) + t) == Synchronize(t)
  {
    ParseUndoesWire(Message(BOM, data), t, room);
    WireParts(Message(BOM, data), t);
    SynchronizeSkips(data, t);
    var s := Wire(BOM, data) + t;
    assert s[2..] == s[1..][1..];
  }

  // ------------------------------------------------------------ parts of a frame

  lemma {:induction false} StuffConcat(d: seq<byte>, e: seq<byte>)
    ensures Stuff(d + e) == Stuff(d) + Stuff(e)
  {
    if d == [] {
      assert d + e == e;
    } else {
      assert (d + e)[1..] == d[1..] + e;
      StuffConcat(d[1..], e);
    }
  }

  lemma {:induction false} StuffPlain(d: seq<byte>)
    requires BOM !in d
    ensures Stuff(d) == d
  {
    if d != [] { StuffPlain(d[1..]); }
  }

  /** `s` starts like a frame. */
  predicate Begins(s: seq<byte>) { |s| > 1 && s[0] == BOM && s[1] != BOM && s[1] != EOM }

  /** Two octets are enough to see that a frame begins. */
  lemma FrameBegins(s: seq<byte>, room: nat)
    requires Begins(s)
    ensures Synchronize(s) == Some(s[1..])
    ensures Parse(s, room) == Resynchronize(s, room) == DecodeFrame(s[1..], room)
  {
  }

  lemma TypeStep(typ: byte, s: seq<byte>, room: nat)
    requires typ != EOM
    ensures var u := Unstuff(s, room);
            DecodeFrame([typ] + s, room) ==
            if u.Ok? then Frame(typ, u.data, u.rest)
            else if u.Resync? then DecodeFrame(u.rest, room)
            else if u.Full? then Resynchronize(u.rest, room)
            else Failed
  {
    assert ([typ] + s)[1..] == s;
  }

  /** The data of a cut frame end where the next frame begins, or with the stream. */
  lemma {:induction false} UnstuffCut(d: seq<byte>, s: seq<byte>, room: nat)
    requires |d| < room
    requires s == [] || s == [BOM] || Begins(s)
    ensures Unstuff(Stuff(d) + s, room) == if |s| < 2 then ConnFail else Resync(s[1..])
  {
    if d == [] {
      assert Stuff(d) + s == s;
    } else {
      UnstuffStep(d, s, room);
      UnstuffCut(d[1..], s, room - 1);
    }
  }

  lemma {:induction false} SynchronizeCut(d: seq<byte>, s: seq<byte>)
    requires s == [] || Begins(s)
    ensures Synchronize(Stuff(d) + s) == if s == [] then None else Some(s[1..])
  {
    if d == [] {
      assert Stuff(d) + s == s;
    } else {
      StuffStep(d, s);
      SynchronizeCut(d[1..], s);
    }
  }

  lemma {:induction false} SynchronizeChunk(c: seq<byte>, t: seq<byte>)
    requires BOM !in c
    ensures Synchronize(c + t) == Synchronize(t)
  {
    if c == [] {
      assert c + t == t;
    } else {
      assert (c + t)[1..] == c[1..] + t;
      SynchronizeChunk(c[1..], t);
    }
  }

  // -------------------------------------------------------------- whole streams

  /** All frames successive calls return, in order. */
  function ParseAll(s: seq<byte>, room: nat): seq<Message>
    decreases |s|
  {
    var p := Parse(s, room);
    if p.Failed? then [] else [Message(p.typ, p.data)] + ParseAll(p.rest, room)
  }
}
