/**
 Model of src/core/tb.c: packets from the server, reassembled from whatever parts
 the connection delivers, and handed to the processor of their type.
 */
module TalkBack {
  import opened Options
  import opened Bytes
  import opened Sequences

  const BUFFER_SIZE := 128
  const PACKET_TYPES := 6
  const FILTER_TYPE := 4

  /** The name of the callback `packetConfigureFilter`. */
  const CONFIGURE_FILTER: nat := 0

  /** `be16toh` of two octets. */
  function Be16(hi: byte, lo: byte): nat { 256 * hi + lo }

  datatype Packet = Packet(typ: nat, payload: seq<byte>) {
    predicate Valid() { typ < 0x1_0000 && |payload| + 4 <= BUFFER_SIZE }

    /** A packet on the wire: type and overall length, then the payload. */
    function Wire(): seq<byte>
      requires Valid()
    {
      [typ / 256, typ % 256, (|payload| + 4) / 256, (|payload| + 4) % 256] + payload
    }
  }

  // ------------------------------------------------------------- whole streams

  /** Why no further packet is there: it is not complete yet, or its header is malformed. */
  datatype Stop = Incomplete(residue: seq<byte>) | Malformed

  datatype Parsed = Parsed(packets: seq<Packet>, stop: Stop)

  function Prepend(ps: seq<Packet>, p: Parsed): Parsed { Parsed(ps + p.packets, p.stop) }

  /** The length field of a header. */
  function Len(s: seq<byte>): nat
    requires |s| >= 4
  {
    Be16(s[2], s[3])
  }

  /** The header's sanity check fails. */
  predicate Bad(s: seq<byte>) { |s| >= 4 && (Len(s) > BUFFER_SIZE || Len(s) < 4) }

  /** A whole packet is at the head of the stream. */
  predicate Complete(s: seq<byte>) { |s| >= 4 && !Bad(s) && Len(s) <= |s| }

  function Head(s: seq<byte>): (p: Packet)
    requires Complete(s)
    ensures p.Valid()
  {
    Packet(Be16(s[0], s[1]), s[4..Len(s)])
  }

  /** The packets of a stream by their length fields, up to the first malformed header. */
  function Packets(s: seq<byte>): (p: Parsed)
    ensures p.stop.Incomplete? ==> |p.stop.residue| < BUFFER_SIZE
    ensures forall i :: 0 <= i < |p.packets| ==> p.packets[i].Valid()
    decreases |s|
  {
    if Complete(s) then Prepend([Head(s)], Packets(s[Len(s)..]))
    else Parsed([], if Bad(s) then Malformed else Incomplete(s))
  }

  function WireAll(ps: seq<Packet>): seq<byte>
    requires forall i :: 0 <= i < |ps| ==> ps[i].Valid()
  {
    if ps == [] then [] else ps[0].Wire() + WireAll(ps[1..])
  }

  lemma PrependTwice(p: Packet, ps: seq<Packet>, q: Parsed)
    ensures Prepend([p], Prepend(ps, q)) == Prepend([p] + ps, q)
  {
    Glue([p], ps, q.packets);
  }

  lemma WireStep(p: Packet, t: seq<byte>, ps: seq<Packet>, q: Parsed)
    requires p.Valid() && Packets(t) == Prepend(ps, q)
    ensures Packets(p.Wire() + t) == Prepend([p] + ps, q)
  {
    var s := p.Wire() + t;
    assert Complete(s) && Head(s) == p && s[Len(s)..] == t;
    PrependTwice(p, ps, q);
  }

  /**
   The format in octets: type and overall length, big-endian with two octets each, then
   at most 124 octets of payload.
   */
  lemma PacketsInOctets(typ: nat, payload: seq<byte>, t: seq<byte>)
    requires typ < 0x1_0000 && |payload| <= 124
    ensures Packets([typ / 0x100, typ % 0x100, 0, |payload| + 4] + payload + t)
            == Prepend([Packet(typ, payload)], Packets(t))
  {
    hide Packets;
    var p := Packet(typ, payload);
    assert p.Wire() == [typ / 0x100, typ % 0x100, 0, |payload| + 4] + payload;
    assert Prepend([], Packets(t)) == Packets(t);
    WireStep(p, t, [], Packets(t));
    assert [p] + [] == [p];
  }

  /**
   A header is malformed if it says less than 4 or more than 128; while octets are
   missing there is no packet.
   */
  lemma NoPacketInOctets(t: seq<byte>)
    ensures |t| < 4 ==> Packets(t) == Parsed([], Incomplete(t))
    ensures |t| >= 4 ==>
              (Packets(t) == Parsed([], Malformed) <==>
                 t[2] as int * 0x100 + t[3] as int < 4 || t[2] as int * 0x100 + t[3] as int > 128)
    ensures |t| >= 4 ==>
              (Packets(t) == Parsed([], Incomplete(t)) <==>
                 |t| < t[2] as int * 0x100 + t[3] as int <= 128)
  {
  }

  /** Whatever follows them, packets are recovered from the wire. */
  lemma {:induction false} PacketsUndoWire(ps: seq<Packet>, t: seq<byte>)
    requires forall i :: 0 <= i < |ps| ==> ps[i].Valid()
    ensures Packets(WireAll(ps) + t) == Prepend(ps, Packets(t))
  {
    if ps == [] {
      assert WireAll(ps) + t == t;
    } else {
      PacketsUndoWire(ps[1..], t);
      Glue(ps[0].Wire(), WireAll(ps[1..]), t);
      WireStep(ps[0], WireAll(ps[1..]) + t, ps[1..], Packets(t));
      assert [ps[0]] + ps[1..] == ps;
    }
  }

  lemma HeadDone(done: seq<Packet>, s: seq<byte>, t: seq<byte>)
    requires Complete(s) && t == s[Len(s)..]
    ensures Prepend(done, Packets(s)) == Prepend(done + [Head(s)], Packets(t))
  {
    Glue(done, [Head(s)], Packets(t).packets);
  }

  lemma HeadAcross(s: seq<byte>, t: seq<byte>)
    ensures Bad(s) ==> Bad(s + t)
    ensures Complete(s) ==> Complete(s + t) && Head(s + t) == Head(s) && (s + t)[Len(s)..] == s[Len(s)..] + t
  {
    if |s| >= 4 { assert Len(s + t) == Len(s); }
    if Complete(s) { assert (s + t)[4..Len(s)] == s[4..Len(s)]; }
  }

  /** A stream cut anywhere: behind the cut, parsing goes on with what was left over. */
  lemma {:induction false} PacketsAcross(s: seq<byte>, t: seq<byte>)
    ensures Packets(s).stop.Malformed? ==> Packets(s + t) == Packets(s)
    ensures Packets(s).stop.Incomplete? ==>
              Packets(s + t) == Prepend(Packets(s).packets, Packets(Packets(s).stop.residue + t))
    decreases |s|
  {
    HeadAcross(s, t);
    if Complete(s) {
      var r := s[Len(s)..];
      PacketsAcross(r, t);
      if Packets(r).stop.Incomplete? {
        PrependTwice(Head(s), Packets(r).packets, Packets(Packets(r).stop.residue + t));
      }
    }
  }

  // -------------------------------------------------------------------- chunks

  /** What was dispatched and what is left in the buffer after some receives. */
  datatype Fed = Fed(packets: seq<Packet>, residue: seq<byte>)

  /** A malformed header resets the buffer, dropping whatever has been received. */
  function Residue(stop: Stop): seq<byte> { if stop.Malformed? then [] else stop.residue }

  function Feed(chunks: seq<seq<byte>>): (f: Fed)
    ensures |f.residue| < BUFFER_SIZE
  {
    if chunks == [] then Fed([], [])
    else
      var f := Feed(chunks[..|chunks| - 1]);
      var p := Packets(f.residue + chunks[|chunks| - 1]);
      Fed(f.packets + p.packets, Residue(p.stop))
  }

  function Concat(chunks: seq<seq<byte>>): seq<byte> {
    if chunks == [] then [] else Concat(chunks[..|chunks| - 1]) + chunks[|chunks| - 1]
  }

  /**
   However the stream is split, exactly the packets of the whole stream are
   dispatched, in order; if there is a malformed header, those in front of it come first.
   */
  lemma {:induction false} SplittingIsInvisible(chunks: seq<seq<byte>>)
    ensures var p := Packets(Concat(chunks));
            if p.stop.Incomplete? then Feed(chunks) == Fed(p.packets, p.stop.residue)
            else p.packets <= Feed(chunks).packets
  {
    if chunks != [] {
      var n := |chunks| - 1;
      SplittingIsInvisible(chunks[..n]);
      PacketsAcross(Concat(chunks[..n]), chunks[n]);
    }
  }

  /** Once the buffer is empty, later chunks are parsed as a stream of their own. */
  lemma {:induction false} EmptyBufferStartsAfresh(a: seq<seq<byte>>, b: seq<seq<byte>>)
    requires Feed(a).residue == []
    ensures Feed(a + b) == Fed(Feed(a).packets + Feed(b).packets, Feed(b).residue)
  {
    if b == [] {
      assert a + b == a;
    } else {
      var n := |b| - 1;
      EmptyBufferStartsAfresh(a, b[..n]);
      assert (a + b)[..|a + b| - 1] == a + b[..n];
      Glue(Feed(a).packets, Feed(b[..n]).packets, Packets(Feed(b[..n]).residue + b[n]).packets);
    }
  }

  /** A malformed header costs the rest of its chunk and nothing of the chunks behind it. */
  lemma MalformedCostsItsChunk(a: seq<seq<byte>>, c: seq<byte>, b: seq<seq<byte>>)
    requires Packets(Feed(a).residue + c).stop.Malformed?
    ensures Feed(a + [c] + b) == Fed(Feed(a + [c]).packets + Feed(b).packets, Feed(b).residue)
    ensures Packets(Concat(b)).stop.Incomplete? ==>
              Feed(a + [c] + b).packets ==
              Feed(a).packets + Packets(Feed(a).residue + c).packets + Packets(Concat(b)).packets
  {
    assert (a + [c])[..|a|] == a;
    EmptyBufferStartsAfresh(a + [c], b);
    SplittingIsInvisible(b);
  }

  // --------------------------------------------------------------- dispatching

  /** A processor: a callback and the payload length it expects. */
  datatype Processor = Processor(fn: Option<nat>, payloadLen: nat)

  datatype Call = Call(fn: nat, payload: seq<byte>)

  /** Which callback a packet is for, if any. */
  function Dispatch(table: seq<Processor>, p: Packet): Option<Call> {
    if p.typ < |table| && table[p.typ].fn.Some? && table[p.typ].payloadLen == |p.payload|
    then Some(Call(table[p.typ].fn.value, p.payload))
    else None
  }

  function Calls(table: seq<Processor>, ps: seq<Packet>): seq<Call> {
    if ps == [] then []
    else
      var c := Dispatch(table, ps[0]);
      (if c.Some? then [c.value] else []) + Calls(table, ps[1..])
  }

  lemma {:induction false} CallsConcat(table: seq<Processor>, a: seq<Packet>, b: seq<Packet>)
    ensures Calls(table, a + b) == Calls(table, a) + Calls(table, b)
  {
    hide Dispatch;
    if a == [] {
      assert a + b == b;
    } else {
      var c := Dispatch(table, a[0]);
      assert (a + b)[1..] == a[1..] + b && (a + b)[0] == a[0];
      CallsConcat(table, a[1..], b);
      Glue(if c.Some? then [c.value] else [], Calls(table, a[1..]), Calls(table, b));
    }
  }

  /**
   A packet is for the slot of its type: if the payload has the length registered there,
   the callback of that slot is called with it, once; in all other cases none is.
   */
  lemma CalledIff(table: seq<Processor>, typ: nat, payload: seq<byte>, fn: nat)
    ensures typ < |table| && table[typ] == Processor(Some(fn), |payload|) ==>
              Calls(table, [Packet(typ, payload)]) == [Call(fn, payload)]
    ensures Calls(table, [Packet(typ, payload)]) != [] <==>
              typ < |table| && table[typ].fn.Some? && table[typ].payloadLen == |payload|
  {
    assert [Packet(typ, payload)][1..] == [];
  }

  /** A callback is never called with a payload of an unexpected length. */
  lemma {:induction false} CallsFitTheirProcessors(table: seq<Processor>, ps: seq<Packet>)
    ensures forall c <- Calls(table, ps) ::
              exists i :: 0 <= i < |table| && table[i] == Processor(Some(c.fn), |c.payload|)
  {
    if ps != [] {
      CallsFitTheirProcessors(table, ps[1..]);
      var c := Dispatch(table, ps[0]);
      if c.Some? {
        assert table[ps[0].typ] == Processor(Some(c.value.fn), |c.value.payload|);
      }
    }
  }

  /** Once `content` is processed, the calls made since `start` will be those for `chunks`. */
  ghost predicate Serving(table: seq<Processor>, start: seq<Call>, calls: seq<Call>,
                          chunks: seq<seq<byte>>, content: seq<byte>) {
    && Residue(Packets(content).stop) == Feed(chunks).residue
    && calls + Calls(table, Packets(content).packets) == start + Calls(table, Feed(chunks).packets)
  }

  lemma FeedPlus(chunks: seq<seq<byte>>, c: seq<byte>)
    ensures Concat(chunks + [c]) == Concat(chunks) + c
    ensures var p := Packets(Feed(chunks).residue + c);
            Feed(chunks + [c]) == Fed(Feed(chunks).packets + p.packets, Residue(p.stop))
  {
    assert (chunks + [c])[..|chunks|] == chunks;
  }

  lemma ServingNext(table: seq<Processor>, start: seq<Call>, calls: seq<Call>,
                    chunks: seq<seq<byte>>, c: seq<byte>, content: seq<byte>)
    requires calls == start + Calls(table, Feed(chunks).packets)
    requires content == Feed(chunks).residue + c
    ensures Serving(table, start, calls, chunks + [c], content)
  {
    var q := Packets(content).packets;
    FeedPlus(chunks, c);
    CallsConcat(table, Feed(chunks).packets, q);
    Glue(start, Calls(table, Feed(chunks).packets), Calls(table, q));
  }

  lemma NothingDone(table: seq<Processor>, s: seq<byte>)
    ensures Prepend([], Packets(s)) == Packets(s) && Calls(table, []) == []
  {
  }

  /** Where the inner loop stops: `done` was dispatched and `rest` is left. */
  lemma AllDone(done: seq<Packet>, s: seq<byte>, rest: seq<byte>)
    requires Prepend(done, Packets(rest)) == Packets(s) && !Complete(rest)
    ensures Packets(s).packets == done && Residue(Packets(s).stop) == if Bad(rest) then [] else rest
  {
  }

  // ------------------------------------------------------------------ the code

  /** The receiving end of one connection. */
  class Connection {
    var stream: seq<byte>

    constructor (stream: seq<byte>)
      ensures this.stream == stream
    {
      this.stream := stream;
    }

    /** `NET_receive`: any non-empty part of the stream that fits; asking for nothing would look like a failure. */
    method Receive(buf: array<byte>, at: nat, len: nat) returns (rc: nat)
      requires 0 < len && at + len <= buf.Length
      modifies this, buf
      ensures rc <= len && rc <= |old(stream)| && (rc == 0 <==> old(stream) == [])
      ensures buf[..at + rc] == old(buf[..at]) + old(stream)[..rc] && stream == old(stream)[rc..]
    {
      if stream == [] {
        assert buf[..at] + stream[..0] == buf[..at];
        return 0;
      }
      rc :| 1 <= rc <= |stream| && rc <= len;
      Store(buf, at, stream[..rc]);
      stream := stream[rc..];
    }
  }

  /** `memmove(buf, buf + from, len)`. */
  method MemMove(buf: array<byte>, from: nat, len: nat)
    requires from + len <= buf.Length
    modifies buf
    ensures buf[..len] == old(buf[from..from + len])
  {
    for i := 0 to len
      invariant forall k :: 0 <= k < i ==> buf[k] == old(buf[from + k])
      invariant forall k :: i <= k < buf.Length ==> buf[k] == old(buf[k])
    {
      buf[i] := buf[from + i];
    }
  }

  class Server {
    const processors: array<Processor>
    /** The callbacks called so far. */
    var calls: seq<Call>

    ghost predicate Valid()
      reads this
    {
      processors.Length == PACKET_TYPES
    }

    /** At first only the filter's processor is registered. */
    constructor ()
      ensures Valid() && fresh(processors) && calls == []
      ensures processors.Length == 6 && processors[4] == Processor(Some(CONFIGURE_FILTER), 2)
      ensures forall i :: 0 <= i < PACKET_TYPES ==>
                processors[i] == if i == FILTER_TYPE then Processor(Some(CONFIGURE_FILTER), 2) else Processor(None, 0)
    {
      processors := new Processor[PACKET_TYPES](
        i => if i == FILTER_TYPE then Processor(Some(CONFIGURE_FILTER), 2) else Processor(None, 0));
      calls := [];
    }

    /** `TB_register`; unknown types are ignored. */
    method Register(typ: nat, payloadLen: nat, fn: nat)
      requires Valid() && (typ < PACKET_TYPES ==> processors[typ].fn.None?)
      modifies processors
      ensures processors[..] ==
              if typ < PACKET_TYPES then old(processors[..])[typ := Processor(Some(fn), payloadLen)]
              else old(processors[..])
    {
      if typ < PACKET_TYPES {
        processors[typ] := Processor(Some(fn), payloadLen);
      }
    }

    /** `TB_unregister`. */
    method Unregister(typ: nat)
      requires Valid() && (typ < PACKET_TYPES ==> processors[typ].fn.Some?)
      modifies processors
      ensures processors[..] ==
              if typ < PACKET_TYPES then old(processors[..])[typ := old(processors[typ]).(fn := None)]
              else old(processors[..])
    {
      if typ < PACKET_TYPES {
        processors[typ] := processors[typ].(fn := None);
      }
    }

    /** `processPacket`. */
    method ProcessPacket(p: Packet)
      requires Valid()
      modifies this`calls
      ensures calls == old(calls) + Calls(processors[..], [p])
    {
      assert Calls(processors[..], [p][1..]) == [];
      if p.typ < PACKET_TYPES && processors[p.typ].fn.Some? {
        if processors[p.typ].payloadLen == |p.payload| {
          calls := calls + [Call(processors[p.typ].fn.value, p.payload)];
        }
      }
    }

    /** One round of the loop, for a packet that is complete: process it and clear it from the buffer. */
    method ProcessFirst(buf: array<byte>, bufLen: nat, len: nat)
      requires Valid() && bufLen <= buf.Length && Complete(buf[..bufLen]) && len == Len(buf[..bufLen])
      modifies this`calls, buf
      ensures calls == old(calls) + Calls(processors[..], [Head(old(buf[..bufLen]))])
      ensures buf[..bufLen - len] == old(buf[..bufLen])[len..]
    {
      ghost var s := buf[..bufLen];
      var p := Packet(Be16(buf[0], buf[1]), buf[4..len]);
      assert buf[4..len] == s[4..len];
      ProcessPacket(p);
      assert s[len..] == buf[len..bufLen];
      MemMove(buf, len, bufLen - len);
    }

    /** The inner loop of `mainloop`: process all packets that are complete. */
    method ProcessBuffer(buf: array<byte>, bufLen: nat) returns (bufLen': nat)
      requires Valid() && bufLen <= buf.Length == BUFFER_SIZE
      modifies this`calls, buf
      ensures bufLen' < BUFFER_SIZE
      ensures buf[..bufLen'] == Residue(Packets(old(buf[..bufLen])).stop)
      ensures calls == old(calls) + Calls(processors[..], Packets(old(buf[..bufLen])).packets)
    {
      hide Calls, Head, Packets, Prepend, Residue;
      ghost var s := buf[..bufLen];
      ghost var done := [];
      bufLen' := bufLen;
      NothingDone(processors[..], s);
      while bufLen' >= 4
        invariant bufLen' <= BUFFER_SIZE
        invariant Prepend(done, Packets(buf[..bufLen'])) == Packets(s)
        invariant calls == old(calls) + Calls(processors[..], done)
        decreases bufLen'
      {
        ghost var before := buf[..bufLen'];
        var len := Be16(buf[2], buf[3]);
        assert len == Len(before);
        if len > BUFFER_SIZE || len < 4 {
          bufLen' := 0;
          AllDone(done, s, before);
          return;
        }
        if bufLen' < len {
          break;
        }
        ProcessFirst(buf, bufLen', len);
        bufLen' := bufLen' - len;
        HeadDone(done, before, buf[..bufLen']);
        CallsConcat(processors[..], done, [Head(before)]);
        done := done + [Head(before)];
      }
      AllDone(done, s, buf[..bufLen']);
    }

    /** `mainloop` during one connection; `chunks` is what the receives delivered. */
    method Serve(conn: Connection) returns (ghost chunks: seq<seq<byte>>)
      requires Valid()
      modifies this`calls, conn
      ensures Concat(chunks) == old(conn.stream)
      ensures calls == old(calls) + Calls(processors[..], Feed(chunks).packets)
    {
      ghost var table, start := processors[..], calls;
      var buf := new byte[BUFFER_SIZE];
      var bufLen: nat := 0;
      chunks := [];
      assert buf[..0] == [];
      while true
        invariant bufLen <= BUFFER_SIZE && processors[..] == table
        invariant Concat(chunks) + conn.stream == old(conn.stream)
        invariant Serving(table, start, calls, chunks, buf[..bufLen])
        decreases |conn.stream|
      {
        bufLen := ProcessBuffer(buf, bufLen);
        ghost var rest := conn.stream;
        var len := conn.Receive(buf, bufLen, BUFFER_SIZE - bufLen);
        if len == 0 {
          assert Concat(chunks) + [] == Concat(chunks);
          return;
        }
        bufLen := bufLen + len;
        FeedPlus(chunks, rest[..len]);
        ServingNext(table, start, calls, chunks, rest[..len], buf[..bufLen]);
        Glue(Concat(chunks), rest[..len], conn.stream);
        assert rest[..len] + conn.stream == rest;
        chunks := chunks + [rest[..len]];
      }
    }
  }
}
