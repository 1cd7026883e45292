/**
 What the Radarcape parser computes, on whole streams: the byte stream format of
 src/radarcape/rc-parser.c without buffers, reads and jumps.
 */
module RcFormat {
  import opened Options
  import opened Bytes
  import opened Beast
  import opened Sequences

  /** Outcome of unescaping: the data, an unescaped SYNC before `rest`, or the end of the stream. */
  datatype Unescaped = Ok(data: seq<byte>, rest: seq<byte>) | Resync(rest: seq<byte>) | ConnFail

  function Prepend(d: seq<byte>, r: Unescaped): Unescaped {
    if r.Ok? then Ok(d + r.data, r.rest) else r
  }

  /** `n` octets of escaped data; an octet after a SYNC is looked at, but kept if it is no SYNC. */
  function Unescape(s: seq<byte>, n: nat): (r: Unescaped)
    ensures r.Ok? ==> |r.data| == n && |r.rest| + n <= |s|
    ensures r.Resync? ==> 0 < |r.rest| < |s| && r.rest[0] != SYNC
    decreases |s|
  {
    if n == 0 then Ok([], s)
    else if s == [] then ConnFail
    else if s[0] != SYNC then Prepend([s[0]], Unescape(s[1..], n - 1))
    else if |s| == 1 then ConnFail
    else if s[1] == SYNC then Prepend([SYNC], Unescape(s[2..], n - 1))
    else Resync(s[1..])
  }

  /** The rest of the stream after the next SYNC that is not followed by another one. */
  function Synchronize(s: seq<byte>): (r: Option<seq<byte>>)
    ensures r.Some? ==> 0 < |r.value| < |s| && r.value[0] != SYNC
  {
    if |s| < 2 then None
    else if s[0] != SYNC then Synchronize(s[1..])
    else if s[1] == SYNC then Synchronize(s[2..])
    else Some(s[1..])
  }

  /** Payload length by frame type: Mode-AC, Mode-S short and long, status. */
  function PayloadLen(t: byte): (r: Option<nat>)
    ensures r.Some? ==> 2 <= r.value <= 14 && t != SYNC
  {
    if t == 0x31 then Some(2)
    else if t == 0x32 then Some(7)
    else if t == 0x33 || t == 0x34 then Some(14)
    else None
  }

  datatype Parsed = Frame(typ: byte, header: seq<byte>, payload: seq<byte>, rest: seq<byte>) | Failed

  /** Header and payload behind a type octet; `Again` when an unescaped SYNC interrupts them. */
  datatype Body = Whole(header: seq<byte>, payload: seq<byte>, rest: seq<byte>) | Again(rest: seq<byte>) | Lost

  function DecodeBody(s: seq<byte>, n: nat): (r: Body)
    ensures r.Whole? ==> |r.header| == 7 && |r.payload| == n && |r.rest| <= |s|
    ensures r.Again? ==> 0 < |r.rest| < |s| && r.rest[0] != SYNC
  {
    match Unescape(s, 7)
    case Resync(u) => Again(u)
    case ConnFail => Lost
    case Ok(header, s2) =>
      match Unescape(s2, n)
      case Resync(u) => Again(u)
      case ConnFail => Lost
      case Ok(payload, s3) => Whole(header, payload, s3)
  }

  predicate WellFormed(t: byte, header: seq<byte>, payload: seq<byte>) {
    PayloadLen(t) == Some(|payload|) && |header| == 7
  }

  /** From the type octet on, restarting after every loss of synchronization. */
  function DecodeFrame(s: seq<byte>): (p: Parsed)
    ensures p.Frame? ==> WellFormed(p.typ, p.header, p.payload) && |p.rest| < |s|
    decreases |s|
  {
    if s == [] then Failed
    else
      var n := PayloadLen(s[0]);
      if n.None? then Resynchronize(s[1..])
      else
        match DecodeBody(s[1..], n.value)
        case Whole(header, payload, rest) => Frame(s[0], header, payload, rest)
        case Again(u) => DecodeFrame(u)
        case Lost => Failed
  }

  function Resynchronize(s: seq<byte>): (p: Parsed)
    ensures p.Frame? ==> WellFormed(p.typ, p.header, p.payload) && |p.rest| < |s|
    decreases |s|
  {
    var t := Synchronize(s);
    if t.None? then Failed else DecodeFrame(t.value)
  }

  /** The next frame of a stream and what is left of the stream. */
  function Parse(s: seq<byte>): (p: Parsed)
    ensures p.Frame? ==> WellFormed(p.typ, p.header, p.payload) && |p.rest| < |s|
  {
    if s == [] then Failed
    else if s[0] == SYNC then DecodeFrame(s[1..])
    else Resynchronize(s[1..])
  }

  /** All frames of a stream in order. */
  function ParseAll(s: seq<byte>): (ps: seq<Parsed>)
    ensures forall i :: 0 <= i < |ps| ==> ps[i].Frame? && WellFormed(ps[i].typ, ps[i].header, ps[i].payload)
    decreases |s|
  {
    var p := Parse(s);
    if p.Failed? then [] else [p] + ParseAll(p.rest)
  }

  /** A frame on the wire. */
  function Wire(t: byte, header: seq<byte>, payload: seq<byte>): seq<byte> {
    [SYNC, t] + Escape(header) + Escape(payload)
  }

  // ------------------------------------------------------------- reading chunks

  lemma {:induction false} SynchronizeChunk(c: seq<byte>, t: seq<byte>)
    requires SYNC !in c
    ensures Synchronize(c + t) == Synchronize(t)
  {
    if c == [] {
      assert c + t == t;
    } else {
      assert (c + t)[1..] == c[1..] + t;
      SynchronizeChunk(c[1..], t);
    }
  }

  // ---------------------------------------------------------------- round trips

  /** The first octet of encoded data. */
  lemma UnescapeOne(d: seq<byte>, t: seq<byte>, n: nat)
    requires d != [] && n > 0
    ensures Unescape(Escape(d) + t, n) == Prepend([d[0]], Unescape(Escape(d[1..]) + t, n - 1))
  {
    var s, e := Escape(d) + t, Escaped(d[0]);
    Glue(e, Escape(d[1..]), t);
    assert s[|e|..] == Escape(d[1..]) + t;
  }

  lemma NoEscape(t: seq<byte>)
    ensures Escape([]) + t == t
  {
    assert [] + t == t;
  }

  /** Unescaping undoes the encoder, whatever follows. */
  lemma {:induction false} UnescapeUndoesEscape(d: seq<byte>, t: seq<byte>)
    ensures Unescape(Escape(d) + t, |d|) == Ok(d, t)
  {
    hide Escape;
    if d == [] {
      NoEscape(t);
    } else {
      UnescapeUndoesEscape(d[1..], t);
      UnescapeOne(d, t, |d|);
      assert [d[0]] + d[1..] == d;
    }
  }

  /** Unescaping more than is there: the stream ends, or a lone SYNC follows the data. */
  lemma {:induction false} UnescapeTooMuch(d: seq<byte>, x: seq<byte>, n: nat)
    requires |d| < n
    ensures |x| == 0 || x == [SYNC] ==> Unescape(Escape(d) + x, n) == ConnFail
    ensures |x| >= 2 && x[0] == SYNC && x[1] != SYNC ==> Unescape(Escape(d) + x, n) == Resync(x[1..])
  {
    hide Escape;
    if d == [] {
      NoEscape(x);
    } else {
      UnescapeTooMuch(d[1..], x, n - 1);
      UnescapeOne(d, x, n);
    }
  }

  lemma UnescapeStep(s: seq<byte>, n: nat)
    requires n > 0 && Unescape(s, n).Ok?
    ensures s != [] && Escaped(s[0]) <= s
    ensures Unescape(s[|Escaped(s[0])|..], n - 1).Ok?
    ensures Unescape(s, n) == Prepend([s[0]], Unescape(s[|Escaped(s[0])|..], n - 1))
  {
  }

  lemma EscapeCons(b: byte, d: seq<byte>)
    ensures Escape([b] + d) == Escaped(b) + Escape(d)
  {
    assert ([b] + d)[1..] == d;
  }

  /** What was consumed is the encoding of what was returned. */
  lemma {:induction false} EscapeUndoesUnescape(s: seq<byte>, n: nat)
    requires Unescape(s, n).Ok?
    ensures s == Escape(Unescape(s, n).data) + Unescape(s, n).rest
    decreases |s|
  {
    if n > 0 {
      UnescapeStep(s, n);
      var e := Escaped(s[0]);
      var t := s[|e|..];
      var r := Unescape(t, n - 1);
      EscapeUndoesUnescape(t, n - 1);
      EscapeCons(s[0], r.data);
      Glue(e, Escape(r.data), r.rest);
      assert s == e + t;
    }
  }

  /** Different data have different encodings. */
  lemma {:induction false} EscapeInjective(a: seq<byte>, b: seq<byte>)
    requires Escape(a) == Escape(b)
    ensures a == b
  {
    if a != [] && b != [] {
      var k := |Escaped(a[0])|;
      assert Escape(a)[0] == a[0] && Escape(b)[0] == b[0];
      assert Escape(a)[k..] == Escape(a[1..]) && Escape(b)[k..] == Escape(b[1..]);
      EscapeInjective(a[1..], b[1..]);
      assert a == [a[0]] + a[1..] && b == [b[0]] + b[1..];
    }
  }

  /** A well-formed frame at the head of the stream is returned as it is. */
  lemma ParseUndoesWire(t: byte, header: seq<byte>, payload: seq<byte>, tail: seq<byte>)
    requires WellFormed(t, header, payload)
    ensures Parse(Wire(t, header, payload) + tail) == Frame(t, header, payload, tail)
    ensures DecodeFrame((Wire(t, header, payload) + tail)[1..]) == Frame(t, header, payload, tail)
  {
    var s := Wire(t, header, payload) + tail;
    var s2 := Escape(payload) + tail;
    assert s[2..] == Escape(header) + s2;
    assert s[1..][1..] == s[2..];
    UnescapeUndoesEscape(header, s2);
    UnescapeUndoesEscape(payload, tail);
  }

  /**
   The format in octets: behind SYNC and type the seven octets of the header and two,
   seven or fourteen octets of payload, whatever follows.
   */
  lemma FramesInOctets(h: seq<byte>, p: seq<byte>, t: seq<byte>)
    requires |h| == 7
    ensures |p| == 2 ==> Parse([0x1a, 0x31] + Escape(h) + Escape(p) + t) == Frame(0x31, h, p, t)
    ensures |p| == 7 ==> Parse([0x1a, 0x32] + Escape(h) + Escape(p) + t) == Frame(0x32, h, p, t)
    ensures |p| == 14 ==> Parse([0x1a, 0x33] + Escape(h) + Escape(p) + t) == Frame(0x33, h, p, t)
    ensures |p| == 14 ==> Parse([0x1a, 0x34] + Escape(h) + Escape(p) + t) == Frame(0x34, h, p, t)
  {
    if |p| == 2 { ParseUndoesWire(0x31, h, p, t); }
    if |p| == 7 { ParseUndoesWire(0x32, h, p, t); }
    if |p| == 14 {
      ParseUndoesWire(0x33, h, p, t);
      ParseUndoesWire(0x34, h, p, t);
    }
  }

  /** No other frame is ever returned, on any stream. */
  lemma OnlyFourTypes(s: seq<byte>)
    requires Parse(s).Frame?
    ensures Parse(s).typ in {0x31, 0x32, 0x33, 0x34}
    ensures |Parse(s).header| == 7
    ensures |Parse(s).payload| == if Parse(s).typ == 0x31 then 2 else if Parse(s).typ == 0x32 then 7 else 14
  {
    assert WellFormed(Parse(s).typ, Parse(s).header, Parse(s).payload);
  }
}
