/**
 Model of `submitFrame` in src/gplib/opensky.cc: a frame handed over by the
 application is packed into the wire format and queued.
 */
module SubmitFrame {
  import opened Options
  import opened Bytes
  import opened Beast
  import opened RcFormat
  import opened RcParser
  import opened Filter
  import opened BufferRuns
  import BufferState
  import opened FrameBuffer
  import opened Sequences

  // ------------------------------------------------------ numbers in memory

  /** The `n` lowest octets of `x`, most significant first. */
  function BeBytes(x: nat, n: nat): (r: seq<byte>)
    ensures |r| == n
  {
    if n == 0 then [] else BeBytes(x / 256, n - 1) + [x % 256]
  }

  /** The `n` lowest octets of `x`, least significant first. */
  function LeBytes(x: nat, n: nat): (r: seq<byte>)
    ensures |r| == n
  {
    if n == 0 then [] else [x % 256] + LeBytes(x / 256, n - 1)
  }

  function LittleEndian(s: seq<byte>): nat {
    if s == [] then 0 else s[0] + 256 * LittleEndian(s[1..])
  }

  function Pow256(n: nat): nat { if n == 0 then 1 else 256 * Pow256(n - 1) }

  /** The byte order of the machine. */
  datatype Host = Little | Big {
    /** How the machine stores a 64-bit number. */
    function Store(x: nat): (r: seq<byte>)
      ensures |r| == 8
    {
      if Little? then LeBytes(x, 8) else BeBytes(x, 8)
    }

    /** `htobe64`: the number that is stored as `x` is in big-endian order. */
    function HtoBe64(x: nat): nat {
      if Little? then LittleEndian(BeBytes(x, 8)) else x
    }
  }

  lemma {:induction false} BigEndianOfBeBytes(x: nat, n: nat)
    requires x < Pow256(n)
    ensures BigEndian(BeBytes(x, n)) == x
  {
    if n > 0 {
      BigEndianOfBeBytes(x / 256, n - 1);
      assert BeBytes(x, n)[..n - 1] == BeBytes(x / 256, n - 1);
    }
  }

  lemma {:induction false} LeBytesOfLittleEndian(s: seq<byte>)
    ensures LeBytes(LittleEndian(s), |s|) == s
  {
    if s != [] {
      LeBytesOfLittleEndian(s[1..]);
      assert LittleEndian(s) / 256 == LittleEndian(s[1..]) && LittleEndian(s) % 256 == s[0];
      assert s == [s[0]] + s[1..];
    }
  }

  lemma {:induction false} LeBytesPrefix(x: nat, n: nat, k: nat)
    requires k <= n
    ensures LeBytes(x, n)[..k] == LeBytes(x, k)
  {
    if k > 0 {
      LeBytesPrefix(x / 256, n - 1, k - 1);
      assert LeBytes(x, n)[1..][..k - 1] == LeBytes(x, n)[1..k];
      assert LeBytes(x, n)[..k] == [x % 256] + LeBytes(x, n)[1..k];
    }
  }

  lemma {:induction false} BeBytesSuffix(x: nat, n: nat, k: nat)
    requires k <= n
    ensures BeBytes(x, n)[n - k..] == BeBytes(x, k)
  {
    if k > 0 {
      BeBytesSuffix(x / 256, n - 1, k - 1);
      var s := BeBytes(x / 256, n - 1);
      assert (s + [x % 256])[n - k..] == s[n - k..] + [x % 256];
    }
  }

  lemma {:induction false} BeBytesPrefix(x: nat, n: nat)
    requires n >= 2
    ensures BeBytes(x, n)[..n - 2] == BeBytes(x / 0x1_0000, n - 2)
  {
    assert x / 256 / 256 == x / 0x1_0000;
    var s := BeBytes(x / 0x1_0000, n - 2);
    assert BeBytes(x, n) == s + [x / 256 % 256] + [x % 256];
  }

  lemma PowersOf256()
    ensures Pow256(6) == 0x1_0000_0000_0000 && Pow256(8) == 0x1_0000_0000_0000_0000
  {
    assert Pow256(2) == 0x1_0000;
    assert Pow256(4) == 0x1_0000_0000;
  }

  // ------------------------------------------------------------- timestamps

  const NANOS: nat := 1_000_000_000
  const SECONDS_OF_DAY: nat := 86_400
  const TWO30: nat := 0x4000_0000

  /** `(secondsOfDay << 30) | nanoseconds`; the operands have no bit in common. */
  function Timestamp(time: nat): nat {
    time / NANOS % SECONDS_OF_DAY * TWO30 + time % NANOS
  }

  /** The six octets of `mlat` that are encoded: `htobe64(...) >> 16` as it is stored. */
  function StoredTimestamp(host: Host, v: nat): (r: seq<byte>)
    ensures |r| == 6
  {
    host.Store(host.HtoBe64(v) / 0x1_0000)[..6]
  }

  lemma TimestampFits(time: nat)
    ensures Timestamp(time) < 0x8000_0000_0000
    ensures Timestamp(time) / 0x4000_0000 == time / 1_000_000_000 % 86_400
    ensures Timestamp(time) % 0x4000_0000 == time % 1_000_000_000
  {
    assert time % NANOS < TWO30;
  }

  lemma StoredOnLittleEndian(v: nat)
    ensures StoredTimestamp(Little, v) == BeBytes(v, 6)
  {
    var s := BeBytes(v, 8);
    var r := LittleEndian(s);
    assert s[1..][1..] == s[2..];
    assert LittleEndian(s[1..]) == s[1] + 256 * LittleEndian(s[2..]);
    assert r / 0x1_0000 == LittleEndian(s[2..]);
    LeBytesPrefix(r / 0x1_0000, 8, 6);
    LeBytesOfLittleEndian(s[2..]);
    BeBytesSuffix(v, 8, 6);
  }

  lemma StoredOnBigEndian(v: nat)
    ensures StoredTimestamp(Big, v) == BeBytes(v / 0x1_0000_0000, 6)
  {
    BeBytesPrefix(v / 0x1_0000, 8);
    assert v / 0x1_0000 / 0x1_0000 == v / 0x1_0000_0000;
  }

  /**
   The exact condition under which the receiver reads back the timestamp: the
   sender's machine is little-endian, or the timestamp is zero. A big-endian
   machine shifts the wrong octets out.
   */
  lemma TimestampSurvivesIff(host: Host, v: nat)
    requires v < 0x1_0000_0000_0000
    ensures BigEndian(StoredTimestamp(host, v)) == v <==> host.Little? || v == 0
  {
    PowersOf256();
    if host.Little? {
      StoredOnLittleEndian(v);
      BigEndianOfBeBytes(v, 6);
    } else {
      StoredOnBigEndian(v);
      BigEndianOfBeBytes(v / 0x1_0000_0000, 6);
    }
  }

  // ------------------------------------------------------------------ frames

  /** Frame type by payload length; other lengths are ignored. */
  function TypeOf(payloadLen: nat): (t: Option<byte>)
    ensures t.Some? ==> PayloadLen(t.value) == Some(payloadLen)
  {
    if payloadLen == 7 then Some(0x32) else if payloadLen == 14 then Some(0x33) else None
  }

  function RssiByte(rssi: int): byte { rssi % 256 }

  function Header(host: Host, time: nat, rssi: int): (h: seq<byte>)
    ensures |h| == 7
  {
    StoredTimestamp(host, Timestamp(time)) + [RssiByte(rssi)]
  }

  /** The octets `submitFrame` puts into a frame of the buffer. */
  function Submitted(host: Host, time: nat, rssi: int, payload: seq<byte>): seq<byte>
    requires TypeOf(|payload|).Some?
  {
    Wire(TypeOf(|payload|).value, Header(host, time, rssi), payload)
  }

  lemma HeaderCarriesTime(host: Host, time: nat, rssi: int)
    ensures host.Little? ==>
              && BigEndian(Header(host, time, rssi)[..6]) / 0x4000_0000 == time / 1_000_000_000 % 86_400
              && BigEndian(Header(host, time, rssi)[..6]) % 0x4000_0000 == time % 1_000_000_000
  {
    var v := Timestamp(time);
    TimestampFits(time);
    TimestampSurvivesIff(host, v);
    assert Header(host, time, rssi)[..6] == StoredTimestamp(host, v);
  }

  lemma HeaderCarriesLevel(host: Host, time: nat, rssi: int)
    requires -128 <= rssi < 128
    ensures ToInt8(Header(host, time, rssi)[6]) == rssi
  {
  }

  /**
   A submitted frame is parsed back, whatever follows it: type, payload and
   signal level, and on a little-endian machine a timestamp of 48 bits whose
   upper part is the second of the day and whose lower 30 bits are the
   nanoseconds, for every time.
   */
  lemma SubmittedIsParsed(host: Host, time: nat, rssi: int, payload: seq<byte>, tail: seq<byte>)
    requires TypeOf(|payload|).Some? && -128 <= rssi < 128
    ensures var p := Parse(Submitted(host, time, rssi, payload) + tail);
            && p.Frame? && p.typ == (if |payload| == 7 then 0x32 else 0x33) && p.payload == payload && p.rest == tail
            && ToInt8(p.header[6]) == rssi
            && (host.Little? ==>
                  && BigEndian(p.header[..6]) / 0x4000_0000 == time / 1_000_000_000 % 86_400
                  && BigEndian(p.header[..6]) % 0x4000_0000 == time % 1_000_000_000)
  {
    var header := Header(host, time, rssi);
    HeaderCarriesTime(host, time, rssi);
    HeaderCarriesLevel(host, time, rssi);
    ParseUndoesWire(TypeOf(|payload|).value, header, payload, tail);
  }

  method PackMore(raw: array<byte>, len: nat, part: seq<byte>, ghost w: seq<byte>) returns (len': nat)
    requires len + 2 * |part| <= raw.Length && raw[..len] == w
    modifies raw
    ensures len' == len + |Escape(part)| && len' <= raw.Length && raw[..len'] == w + Escape(part)
  {
    var used := Encode(raw, len, part);
    len' := len + used;
    assert raw[..len] == w;
    assert raw[..len'] == raw[..len] + raw[len..len'];
  }

  /** The three calls of the encoder, one behind the other in the frame's array. */
  method Pack(raw: array<byte>, t: byte, mlat: seq<byte>, rssi: byte, payload: seq<byte>) returns (len: nat)
    requires raw.Length == 46 && |mlat| == 6 && |payload| <= 14
    modifies raw
    ensures len <= 44 && raw[..len] == Wire(t, mlat + [rssi], payload)
  {
    EscapeLength(mlat);
    EscapeLength([rssi]);
    EscapeLength(payload);
    raw[0] := SYNC;
    raw[1] := t;
    ghost var w := raw[..2];
    len := 2;
    len := PackMore(raw, len, mlat, w);
    len := PackMore(raw, len, [rssi], w + Escape(mlat));
    EscapeConcat(mlat, [rssi]);
    Glue(w, Escape(mlat), Escape([rssi]));
    len := PackMore(raw, len, payload, w + Escape(mlat + [rssi]));
  }

  method CommitWith(buffer: Buffer, out: BufferState.Frame, content: seq<byte>)
    requires buffer.Valid() && buffer.newFrame == Some(out)
    modifies buffer
    ensures buffer.Valid() && buffer.newFrame.None?
    ensures buffer.hist.log == old(buffer.hist.log) + [content] && buffer.hist.released == old(buffer.hist.released)
  {
    hide SysInv;
    buffer.Fill(out, content);
    buffer.CommitFrame(out);
  }

  /** The conditions under which `submitFrame` takes a frame. */
  predicate Taken(filter: FilterState, active: bool, timingUTC: bool, payload: seq<byte>)
    reads filter
  {
    var t := TypeOf(|payload|);
    active && timingUTC && t.Some? && Passes(filter.setting, filter.isSynchronized, t.value, payload[0])
  }

  /**
   What is taken, in octets: frames of seven or fourteen octets with UTC timing that the
   filter lets pass, while the library is running. Their types are 0x32 and 0x33.
   */
  lemma TakenIff(filter: FilterState, active: bool, timingUTC: bool, payload: seq<byte>)
    ensures Taken(filter, active, timingUTC, payload) <==>
              && active && timingUTC && (|payload| == 7 || |payload| == 14)
              && (filter.setting.sync ==> filter.isSynchronized)
              && (filter.setting.extSquitter ==> 0x88 <= payload[0] <= 0x97)
    ensures TypeOf(7) == Some(0x32) && TypeOf(14) == Some(0x33)
    ensures |payload| != 7 && |payload| != 14 ==> TypeOf(|payload|).None?
  {
    var t := TypeOf(|payload|);
    if t.Some? { PassesInOctets(filter.setting, filter.isSynchronized, t.value, payload[0]); }
  }

  /**
   `submitFrame`. `active` stands for the library being configured and running, the
   two `malloc`s for the allocator.
   */
  method Submit(buffer: Buffer, filter: FilterState, host: Host, active: bool, time: nat, timingUTC: bool, rssi: int,
                payload: seq<byte>, mallocPool: bool, mallocFrames: bool)
    requires buffer.Valid() && buffer.newFrame.None? && -128 <= rssi < 128
    modifies buffer
    ensures buffer.Valid() && buffer.newFrame.None?
    ensures buffer.hist.log == old(buffer.hist.log) +
            if Taken(filter, active, timingUTC, payload) then [Submitted(host, time, rssi, payload)] else []
    ensures |buffer.hist.log| != |old(buffer.hist.log)| <==>
              && active && timingUTC && (|payload| == 7 || |payload| == 14)
              && (filter.setting.sync ==> filter.isSynchronized)
              && (filter.setting.extSquitter ==> 0x88 <= payload[0] <= 0x97)
    ensures buffer.hist.released == old(buffer.hist.released)
  {
    hide SysInv, Wire;
    TakenIff(filter, active, timingUTC, payload);
    if !active {
      return;
    }
    var t := TypeOf(|payload|);
    if t.None? {
      return;
    }
    if !timingUTC {
      return;
    }
    var passes := filter.Test(t.value, payload[0]);
    if !passes {
      return;
    }
    var secondsOfDay := time / NANOS % SECONDS_OF_DAY;
    var nanoseconds := time % NANOS;
    var mlat := host.HtoBe64(secondsOfDay * TWO30 + nanoseconds) / 0x1_0000;

    var out := buffer.NewFrame(mallocPool, mallocFrames);
    var raw := new byte[46];
    var len := Pack(raw, t.value, host.Store(mlat)[..6], RssiByte(rssi), payload);
    CommitWith(buffer, out, raw[..len]);
  }
}
