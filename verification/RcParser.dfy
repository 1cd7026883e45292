/** The parser of src/radarcape/rc-parser.c, in place on its buffers. */
module RcParser {
  import opened Options
  import opened Bytes
  import opened Beast
  import opened Reader
  import opened RcFormat
  import opened Sequences

  /** `struct OPENSKY_RawFrame`. */
  class RawFrame {
    var rawLen: nat
    const raw: array<byte>

    constructor ()
      ensures fresh(raw) && raw.Length == 46 && rawLen == 0
    {
      raw := new byte[46];
      rawLen := 0;
    }
  }

  /** `struct OPENSKY_DecodedFrame`. */
  class DecodedFrame {
    var frameType: byte
    var mlat: nat
    var siglevel: int
    var payloadLen: nat
    const payload: array<byte>

    constructor ()
      ensures fresh(payload) && payload.Length == 14
    {
      frameType, mlat, siglevel, payloadLen := 0, 0, 0, 0;
      payload := new byte[14];
    }
  }

  datatype Status = StatusOk | StatusResync | StatusConnFail

  /** The big-endian value of a sequence of octets. */
  function BigEndian(s: seq<byte>): nat {
    if s == [] then 0 else BigEndian(s[..|s| - 1]) * 256 + s[|s| - 1]
  }

  /** Conversion of an octet to `int8_t`. */
  function ToInt8(b: byte): int { if b < 128 then b else b - 256 }

  /** Six octets as one number. */
  lemma BigEndianOfSix(s: seq<byte>)
    requires |s| == 6
    ensures BigEndian(s) ==
            s[0] as int * 0x100_0000_0000 + s[1] as int * 0x1_0000_0000 + s[2] as int * 0x100_0000
            + s[3] as int * 0x1_0000 + s[4] as int * 0x100 + s[5] as int
  {
    assert s[..5][..4] == s[..4] && s[..4][..3] == s[..3];
    assert s[..3][..2] == s[..2] && s[..2][..1] == [s[0]];
    assert BigEndian([s[0]]) == s[0];
    assert BigEndian(s[..2]) == s[0] as int * 0x100 + s[1] as int;
    assert BigEndian(s[..3]) == BigEndian(s[..2]) * 0x100 + s[2];
    assert BigEndian(s[..4]) == BigEndian(s[..3]) * 0x100 + s[3];
    assert BigEndian(s[..5]) == BigEndian(s[..4]) * 0x100 + s[4];
  }

  /** Eight octets read as a big-endian number and shifted right by 16 bits are the first six. */
  lemma ShiftedTimestamp(s: seq<byte>)
    requires |s| == 8
    ensures BigEndian(s) / 0x1_0000 == BigEndian(s[..6])
  {
    assert s[..7][..6] == s[..6];
    assert s[..7] == s[..|s| - 1];
    assert BigEndian(s) == (BigEndian(s[..6]) * 256 + s[6]) * 256 + s[7];
  }

  // ---------------------------------------------------------------- unescaping

  /** The pointers and buffers `decode` works on do not overlap. */
  ghost predicate Apart(rd: Reader, dst: array<byte>, raw: RawFrame) {
    dst != raw.raw && rd.buf != dst && rd.buf != raw.raw
  }

  /**
   Consume `r` octets of the buffer: all of them are copied behind the raw frame
   and the first `m` of them to `dst[at..]`.
   */
  method Take(rd: Reader, dst: array<byte>, at: nat, m: nat, raw: RawFrame, r: nat)
    requires rd.Valid() && Apart(rd, dst, raw)
    requires m <= r <= rd.bufEnd - rd.bufCur
    requires at + m <= dst.Length && raw.rawLen + r <= raw.raw.Length
    modifies rd`bufCur, dst, raw`rawLen, raw.raw
    ensures rd.Valid() && old(rd.Remaining()) == old(rd.Remaining())[..r] + rd.Remaining()
    ensures dst[..at + m] == old(dst[..at]) + old(rd.Remaining())[..m]
    ensures forall k :: at + m <= k < dst.Length ==> dst[k] == old(dst[k])
    ensures raw.rawLen == old(raw.rawLen) + r
    ensures raw.raw[..raw.rawLen] == old(raw.raw[..raw.rawLen]) + old(rd.Remaining())[..r]
  {
    ghost var rem := rd.Remaining();
    var c := rd.buf[rd.bufCur..rd.bufCur + r];
    assert c == rem[..r] && c[..m] == rem[..m];
    Store(raw.raw, raw.rawLen, c);
    raw.rawLen := raw.rawLen + r;
    Store(dst, at, c[..m]);
    rd.bufCur := rd.bufCur + r;
    assert rem[r..] == rd.Remaining();
  }

  /** Consume the second half of an escaped SYNC. */
  method TakeSync(rd: Reader, dst: array<byte>, at: nat, raw: RawFrame)
    requires rd.Valid() && Apart(rd, dst, raw)
    requires rd.bufCur < rd.bufEnd && rd.buf[rd.bufCur] == SYNC
    requires at < dst.Length && raw.rawLen < raw.raw.Length
    modifies rd`bufCur, dst, raw`rawLen, raw.raw
    ensures rd.Valid() && old(rd.Remaining()) == [SYNC] + rd.Remaining()
    ensures dst[..at + 1] == old(dst[..at]) + [SYNC]
    ensures forall k :: at + 1 <= k < dst.Length ==> dst[k] == old(dst[k])
    ensures raw.rawLen == old(raw.rawLen) + 1
    ensures raw.raw[..raw.rawLen] == old(raw.raw[..raw.rawLen]) + [SYNC]
  {
    ghost var rem := rd.Remaining();
    dst[at] := SYNC;
    raw.raw[raw.rawLen] := SYNC;
    raw.rawLen := raw.rawLen + 1;
    rd.bufCur := rd.bufCur + 1;
    assert rem[1..] == rd.Remaining();
    assert dst[..at] == old(dst[..at]);
    assert raw.raw[..raw.rawLen - 1] == old(raw.raw[..raw.rawLen]);
  }

  /**
   The state of the decoding loop: of the octets `s`, the encoding of `d` has
   been consumed and copied behind `before` in the raw frame, `dst` holds `d`,
   and `n` octets are missing.
   */
  ghost predicate Going(rd: Reader, dst: array<byte>, at: nat, n: nat, raw: RawFrame,
                        s: seq<byte>, d: seq<byte>, before: seq<byte>)
    reads rd, rd.buf, dst, raw, raw.raw
  {
    && rd.Valid() && s == Escape(d) + rd.Remaining()
    && at + n <= dst.Length && dst[..at] == d
    && raw.rawLen + 2 * n <= raw.raw.Length && raw.raw[..raw.rawLen] == before + Escape(d)
  }

  /** What was in the raw frame before is still there. */
  ghost predicate StartsWith(raw: RawFrame, before: seq<byte>)
    reads raw, raw.raw
  {
    |before| <= raw.raw.Length && raw.raw[..|before|] == before
  }

  lemma Keeps(raw: RawFrame, end: nat, before: seq<byte>, more: seq<byte>)
    requires end <= raw.raw.Length && raw.raw[..end] == before + more
    ensures StartsWith(raw, before)
  {
    assert raw.raw[..|before|] == raw.raw[..end][..|before|];
  }

  lemma EscapePlus(b: seq<byte>, d: seq<byte>, c: seq<byte>)
    requires SYNC !in c
    ensures b + Escape(d) + c == b + Escape(d + c)
    ensures Escape(d) + c == Escape(d + c)
  {
    EscapeConcat(d, c);
    EscapePlain(c);
    Glue(b, Escape(d), c);
  }

  lemma EscapePlusSync(b: seq<byte>, d: seq<byte>)
    ensures b + Escape(d) + [SYNC] + [SYNC] == b + Escape(d + [SYNC])
    ensures Escape(d) + [SYNC] + [SYNC] == Escape(d + [SYNC])
  {
    EscapeConcat(d, [SYNC]);
    assert Escape([SYNC]) == [SYNC] + [SYNC];
    Glue(Escape(d), [SYNC], [SYNC]);
    Glue(b, Escape(d), [SYNC] + [SYNC]);
    Glue(b + Escape(d), [SYNC], [SYNC]);
  }

  /** No SYNC in the next `mlen` octets: copy them. */
  method DecodePlain(rd: Reader, dst: array<byte>, at: nat, n: nat, raw: RawFrame, mlen: nat,
                     ghost s: seq<byte>, ghost d: seq<byte>, ghost before: seq<byte>)
    returns (ghost d': seq<byte>)
    requires Going(rd, dst, at, n, raw, s, d, before) && Apart(rd, dst, raw)
    requires mlen <= n && mlen <= rd.bufEnd - rd.bufCur
    requires SYNC !in rd.buf[rd.bufCur..rd.bufCur + mlen]
    modifies rd`bufCur, dst, raw`rawLen, raw.raw
    ensures Going(rd, dst, at + mlen, n - mlen, raw, s, d', before)
    ensures forall k :: at + n <= k < dst.Length ==> dst[k] == old(dst[k])
  {
    ghost var c := rd.Remaining()[..mlen];
    assert c == rd.buf[rd.bufCur..rd.bufCur + mlen];
    Take(rd, dst, at, mlen, raw, mlen);
    EscapePlus(before, d, c);
    Glue(Escape(d), c, rd.Remaining());
    d' := d + c;
  }

  /** How decoding stopped short: behind a SYNC, or before an octet that does not belong there. */
  ghost predicate Stopped(s: seq<byte>, d: seq<byte>, st: Status, rem: seq<byte>) {
    match st
    case StatusOk => false
    case StatusConnFail => s == Escape(d) + [SYNC]
    case StatusResync => s == Escape(d) + ([SYNC] + rem) && rem != [] && rem[0] != SYNC
  }

  /** A SYNC has been consumed behind the encoding of `d`: look at the symbol behind it. */
  method DecodeEscape(rd: Reader, dst: array<byte>, at: nat, n: nat, raw: RawFrame,
                      ghost s: seq<byte>, ghost d: seq<byte>, ghost before: seq<byte>)
    returns (st: Status, ghost d': seq<byte>)
    requires rd.Valid() && Apart(rd, dst, raw)
    requires s == Escape(d) + [SYNC] + rd.Remaining()
    requires at + n < dst.Length && dst[..at] == d
    requires raw.rawLen + 2 * n < raw.raw.Length && raw.raw[..raw.rawLen] == before + Escape(d) + [SYNC]
    modifies rd, rd.buf, dst, raw, raw.raw
    ensures rd.Valid()
    ensures st == StatusOk ==> Going(rd, dst, at + 1, n, raw, s, d', before)
    ensures st != StatusOk ==> d' == d && Stopped(s, d, st, rd.Remaining()) && StartsWith(raw, before)
    ensures forall k :: at + 1 <= k < dst.Length ==> dst[k] == old(dst[k])
  {
    ghost var t := rd.Remaining();
    Glue(Escape(d), [SYNC], t);
    d' := d;
    Glue(before, Escape(d), [SYNC]);
    Keeps(raw, raw.rawLen, before, Escape(d) + [SYNC]);
    var filled := rd.Peek();
    if !filled {
      return StatusConnFail, d;
    }
    if rd.buf[rd.bufCur] != SYNC {
      return StatusResync, d;
    }
    TakeSync(rd, dst, at, raw);
    EscapePlusSync(before, d);
    Glue(Escape(d) + [SYNC], [SYNC], rd.Remaining());
    st, d' := StatusOk, d + [SYNC];
  }

  /** A SYNC after `k` octets: copy up to it, and look at the symbol behind it. */
  method DecodeSync(rd: Reader, dst: array<byte>, at: nat, n: nat, raw: RawFrame, k: nat,
                    ghost s: seq<byte>, ghost d: seq<byte>, ghost before: seq<byte>)
    returns (st: Status, ghost d': seq<byte>)
    requires Going(rd, dst, at, n, raw, s, d, before) && Apart(rd, dst, raw)
    requires k < n && k < rd.bufEnd - rd.bufCur && rd.buf[rd.bufCur + k] == SYNC
    requires SYNC !in rd.buf[rd.bufCur..rd.bufCur + k]
    modifies rd, rd.buf, dst, raw, raw.raw
    ensures rd.Valid()
    ensures st == StatusOk ==> Going(rd, dst, at + k + 1, n - k - 1, raw, s, d', before)
    ensures st != StatusOk ==> |d'| == at + k && Stopped(s, d', st, rd.Remaining()) && StartsWith(raw, before)
    ensures forall k :: at + n <= k < dst.Length ==> dst[k] == old(dst[k])
  {
    ghost var c := rd.Remaining()[..k];
    assert c == rd.buf[rd.bufCur..rd.bufCur + k] && rd.Remaining()[..k + 1] == c + [SYNC];
    Take(rd, dst, at, k, raw, k + 1);
    EscapePlus(before, d, c);
    Glue(before + Escape(d), c, [SYNC]);
    Glue(Escape(d), c + [SYNC], rd.Remaining());
    Glue(Escape(d), c, [SYNC]);
    st, d' := DecodeEscape(rd, dst, at + k, n - k - 1, raw, s, d + c, before);
  }

  /** The first test of the loop: refill the buffer if it is empty. */
  method Refill(rd: Reader, ghost dst: array<byte>, ghost at: nat, ghost n: nat, ghost raw: RawFrame,
                ghost s: seq<byte>, ghost d: seq<byte>, ghost before: seq<byte>) returns (ok: bool)
    requires Going(rd, dst, at, n, raw, s, d, before) && Apart(rd, dst, raw)
    modifies rd, rd.buf
    ensures rd.Valid()
    ensures ok ==> rd.bufCur < rd.bufEnd && Going(rd, dst, at, n, raw, s, d, before)
    ensures !ok ==> s == Escape(d) && raw.rawLen <= raw.raw.Length && raw.raw[..raw.rawLen] == before + Escape(d)
  {
    assert rd.Remaining() == [] ==> s == Escape(d);
    ok := rd.Peek();
  }

  lemma EndOfStream(s: seq<byte>, d: seq<byte>, len: nat)
    requires s == Escape(d) && |d| < len
    ensures Unescape(s, len) == ConnFail
  {
    UnescapeTooMuch(d, [], len);
    assert Escape(d) + [] == s;
  }

  lemma StoppedAtSync(s: seq<byte>, d: seq<byte>, len: nat, st: Status, rem: seq<byte>)
    requires Stopped(s, d, st, rem) && |d| < len
    ensures Unescape(s, len) == if st == StatusConnFail then ConnFail else Resync(rem)
  {
    if st == StatusConnFail {
      UnescapeTooMuch(d, [SYNC], len);
    } else {
      UnescapeTooMuch(d, [SYNC] + rem, len);
      assert ([SYNC] + rem)[1..] == rem;
    }
  }

  /** One round of the loop: search SYNC in the buffer up to the expected length and copy. */
  method DecodeStretch(rd: Reader, dst: array<byte>, at: nat, n: nat, raw: RawFrame,
                       ghost s: seq<byte>, ghost d: seq<byte>, ghost before: seq<byte>)
    returns (st: Status, at': nat, n': nat, ghost d': seq<byte>)
    requires Going(rd, dst, at, n, raw, s, d, before) && Apart(rd, dst, raw)
    requires rd.bufCur < rd.bufEnd && 0 < n
    modifies rd, rd.buf, dst, raw, raw.raw
    ensures rd.Valid()
    ensures st == StatusOk ==> at' + n' == at + n && n' < n && Going(rd, dst, at', n', raw, s, d', before)
    ensures st != StatusOk ==> |d'| < at + n && Stopped(s, d', st, rd.Remaining()) && StartsWith(raw, before)
    ensures forall k :: at + n <= k < dst.Length ==> dst[k] == old(dst[k])
  {
    var rbuf := rd.bufEnd - rd.bufCur;
    var mlen := if rbuf <= n then rbuf else n;
    var sync := rd.Search(SYNC, mlen);
    if sync.None? {
      d' := DecodePlain(rd, dst, at, n, raw, mlen, s, d, before);
      st, at', n' := StatusOk, at + mlen, n - mlen;
    } else {
      st, d' := DecodeSync(rd, dst, at, n, raw, sync.value, s, d, before);
      at', n' := at + sync.value + 1, n - sync.value - 1;
    }
  }

  /** `decode`: unescape `len` octets into `dst` and copy them as they are behind the raw frame. */
  method Decode(rd: Reader, dst: array<byte>, len: nat, raw: RawFrame) returns (st: Status)
    requires rd.Valid() && Apart(rd, dst, raw)
    requires 0 < len <= dst.Length && raw.rawLen + 2 * len <= raw.raw.Length
    modifies rd, rd.buf, dst, raw, raw.raw
    ensures rd.Valid()
    ensures Unescape(old(rd.Remaining()), len) ==
            match st
            case StatusOk => Ok(dst[..len], rd.Remaining())
            case StatusResync => Resync(rd.Remaining())
            case StatusConnFail => ConnFail
    ensures st == StatusOk ==>
              && old(raw.rawLen) <= raw.rawLen <= old(raw.rawLen) + 2 * len
              && raw.raw[..raw.rawLen] == old(raw.raw[..raw.rawLen]) + Escape(dst[..len])
    ensures StartsWith(raw, old(raw.raw[..raw.rawLen]))
    ensures forall k :: len <= k < dst.Length ==> dst[k] == old(dst[k])
  {
    ghost var s, before := rd.Remaining(), raw.raw[..raw.rawLen];
    ghost var d: seq<byte> := [];
    var at: nat, n: nat := 0, len;
    assert s == Escape([]) + rd.Remaining();
    while n > 0
      invariant at + n == len && Going(rd, dst, at, n, raw, s, d, before)
      invariant forall k :: len <= k < dst.Length ==> dst[k] == old(dst[k])
      decreases n
    {
      var filled := Refill(rd, dst, at, n, raw, s, d, before);
      if !filled {
        EndOfStream(s, d, len);
        Keeps(raw, raw.rawLen, before, Escape(d));
        return StatusConnFail;
      }
      ghost var d';
      st, at, n, d' := DecodeStretch(rd, dst, at, n, raw, s, d, before);
      d := d';
      if st != StatusOk {
        StoppedAtSync(s, d, len, st, rd.Remaining());
        return;
      }
    }
    Keeps(raw, raw.rawLen, before, Escape(d));
    UnescapeUndoesEscape(dst[..len], rd.Remaining());
    EscapeLength(dst[..len]);
    st := StatusOk;
  }

  // -------------------------------------------------------------- synchronizing

  lemma BehindSync(t: seq<byte>)
    ensures t == [] ==> Synchronize([SYNC] + t) == None
    ensures t != [] && t[0] == SYNC ==> Synchronize([SYNC] + t) == Synchronize(t[1..])
    ensures t != [] && t[0] != SYNC ==> Synchronize([SYNC] + t) == Some(t)
  {
    var s := [SYNC] + t;
    assert s[1..] == t;
    if t != [] { assert s[2..] == t[1..]; }
  }

  /** A SYNC was found `k` octets ahead: discard everything including it, and peek the next symbol. */
  method PeekBehindSync(rd: Reader, k: nat) returns (filled: bool)
    requires rd.Valid() && rd.bufCur + k < rd.bufEnd
    requires rd.buf[rd.bufCur + k] == SYNC && SYNC !in rd.buf[rd.bufCur..rd.bufCur + k]
    modifies rd, rd.buf
    ensures rd.Valid()
    ensures || (rd.stream == old(rd.stream) && rd.bufEnd - rd.bufCur < old(rd.bufEnd - rd.bufCur))
            || |rd.stream| < |old(rd.stream)|
    ensures !filled ==> Synchronize(old(rd.Remaining())) == None
    ensures filled ==>
              && rd.bufCur < rd.bufEnd && rd.buf[rd.bufCur] == rd.Remaining()[0]
              && Synchronize(old(rd.Remaining())) ==
                 if rd.Remaining()[0] == SYNC then Synchronize(rd.Remaining()[1..]) else Some(rd.Remaining())
  {
    ghost var s, c := rd.Remaining(), rd.buf[rd.bufCur..rd.bufCur + k];
    rd.bufCur := rd.bufCur + k + 1;
    ghost var t := rd.Remaining();
    assert s == c + ([SYNC] + t);
    SynchronizeChunk(c, [SYNC] + t);
    BehindSync(t);
    filled := rd.Peek();
  }

  /** Refill a buffer in which there is nothing to synchronize with. */
  method DiscardPlain(rd: Reader) returns (filled: bool)
    requires rd.Valid() && SYNC !in rd.buf[rd.bufCur..rd.bufEnd]
    modifies rd, rd.buf
    ensures rd.Valid()
    ensures filled ==> |rd.stream| < |old(rd.stream)|
    ensures Synchronize(old(rd.Remaining())) == if filled then Synchronize(rd.Remaining()) else None
  {
    SynchronizeChunk(rd.buf[rd.bufCur..rd.bufEnd], rd.stream);
    filled := rd.DiscardAndFill();
  }

  /** `synchronize`: stop in front of the first octet of a frame. */
  method SynchronizeBuffer(rd: Reader) returns (ok: bool)
    requires rd.Valid()
    modifies rd, rd.buf
    ensures rd.Valid()
    ensures Synchronize(old(rd.Remaining())) == if ok then Some(rd.Remaining()) else None
  {
    ghost var synchronized := Synchronize(rd.Remaining());
    while true
      invariant rd.Valid() && Synchronize(rd.Remaining()) == synchronized
      decreases |rd.stream|, rd.bufEnd - rd.bufCur
    {
      var sync := rd.Search(SYNC, rd.bufEnd - rd.bufCur);
      if sync.Some? {
        var filled := PeekBehindSync(rd, sync.value);
        if !filled {
          return false;
        }
        if rd.buf[rd.bufCur] == SYNC {
          // an escaped SYNC: discard it and try again
          rd.Consume();
          if rd.bufCur != rd.bufEnd {
            continue;
          }
        } else {
          return true;
        }
      }
      var filled := DiscardPlain(rd);
      if !filled {
        return false;
      }
    }
  }

  // -------------------------------------------------------------------- frames

  /** The buffers of the parser and of the two frames are all different. */
  ghost predicate Separate(rd: Reader, raw: RawFrame, decoded: DecodedFrame) {
    && rd.buf != raw.raw && rd.buf != decoded.payload && raw.raw != decoded.payload
    && raw.raw.Length == 46 && decoded.payload.Length == 14
  }

  /** The frames hold what was parsed. */
  ghost predicate Delivered(t: byte, header: seq<byte>, payload: seq<byte>, raw: RawFrame, decoded: DecodedFrame)
    reads raw, raw.raw, decoded, decoded.payload
  {
    && |header| == 7
    && raw.rawLen <= raw.raw.Length && raw.raw[..raw.rawLen] == Wire(t, header, payload)
    && decoded.frameType == t
    && decoded.mlat == BigEndian(header[..6])
    && decoded.siglevel == ToInt8(header[6])
    && decoded.payloadLen == |payload| <= decoded.payload.Length
    && decoded.payload[..decoded.payloadLen] == payload
  }

  /** Where a jump of `INPUT_getFrame` continues. */
  datatype Jump = AtStart | AtSynchronize | AtDecodeFrame

  /** The result of `INPUT_getFrame` from a label on. */
  function From(pc: Jump, s: seq<byte>): Parsed {
    match pc
    case AtStart => Parse(s)
    case AtSynchronize => Resynchronize(s)
    case AtDecodeFrame => DecodeFrame(s)
  }

  /** The part of `INPUT_getFrame` that decodes the header, the timestamp and the signal level. */
  method GetHeader(rd: Reader, raw: RawFrame, decoded: DecodedFrame) returns (st: Status, ghost header: seq<byte>)
    requires rd.Valid() && Separate(rd, raw, decoded) && raw.rawLen == 2
    modifies rd, rd.buf, raw, raw.raw, decoded`mlat, decoded`siglevel
    ensures rd.Valid()
    ensures Unescape(old(rd.Remaining()), 7) ==
            match st
            case StatusOk => Ok(header, rd.Remaining())
            case StatusResync => Resync(rd.Remaining())
            case StatusConnFail => ConnFail
    ensures StartsWith(raw, old(raw.raw[..2]))
    ensures st == StatusOk ==>
              && |header| == 7 && 2 <= raw.rawLen <= 16
              && raw.raw[..raw.rawLen] == old(raw.raw[..2]) + Escape(header)
              && decoded.mlat == BigEndian(header[..6]) && decoded.siglevel == ToInt8(header[6])
  {
    var hdr := new byte[8];
    st := Decode(rd, hdr, 7, raw);
    header := hdr[..7];
    if st == StatusOk {
      // the eighth octet of the header's union is shifted out again
      decoded.mlat := BigEndian(hdr[..]) / 0x1_0000;
      ShiftedTimestamp(hdr[..]);
      assert hdr[..][..6] == header[..6];
      decoded.siglevel := ToInt8(hdr[6]);
    }
  }

  /** The part of `INPUT_getFrame` behind a known type octet. */
  method GetBody(rd: Reader, raw: RawFrame, decoded: DecodedFrame, t: byte, n: nat)
    returns (st: Status, ghost header: seq<byte>)
    requires rd.Valid() && Separate(rd, raw, decoded) && 2 <= n <= 14
    requires raw.raw[0] == SYNC
    modifies rd, rd.buf, raw, raw.raw, decoded, decoded.payload
    ensures rd.Valid()
    ensures DecodeBody(old(rd.Remaining()), n) ==
            match st
            case StatusOk => Whole(header, decoded.payload[..n], rd.Remaining())
            case StatusResync => Again(rd.Remaining())
            case StatusConnFail => Lost
    ensures raw.raw[0] == SYNC
    ensures st == StatusOk ==> Delivered(t, header, decoded.payload[..n], raw, decoded) && raw.rawLen <= 44
  {
    decoded.frameType := t;
    decoded.payloadLen := n;
    raw.raw[1] := t;
    raw.rawLen := 2;
    assert raw.raw[..2] == [SYNC, t];
    st, header := GetHeader(rd, raw, decoded);
    assert raw.raw[0] == raw.raw[..2][0];
    if st == StatusOk {
      ghost var head := raw.raw[..raw.rawLen];
      st := Decode(rd, decoded.payload, n, raw);
      assert head[0] == SYNC && raw.raw[0] == raw.raw[..|head|][0];
    }
  }

  /** `INPUT_getFrame` from a label up to and including the type octet. */
  method GetType(rd: Reader, pc: Jump) returns (typ: Option<byte>)
    requires rd.Valid()
    modifies rd, rd.buf
    ensures rd.Valid()
    ensures typ.None? ==> From(pc, old(rd.Remaining())) == Failed
    ensures typ.Some? ==> From(pc, old(rd.Remaining())) == DecodeFrame([typ.value] + rd.Remaining())
    ensures typ.Some? ==> |rd.Remaining()| < |old(rd.Remaining())|
  {
    ghost var s := rd.Remaining();
    var synchronized := true;
    if pc == AtStart {
      var sync := rd.Next();
      if sync.None? {
        return None;
      }
      assert s[1..] == rd.Remaining();
      if sync.value != SYNC {
        synchronized := SynchronizeBuffer(rd);
      }
    } else if pc == AtSynchronize {
      synchronized := SynchronizeBuffer(rd);
    }
    if !synchronized {
      return None;
    }
    typ := rd.Next();
  }

  lemma DecodeFrameStep(t: byte, s: seq<byte>)
    ensures DecodeFrame([t] + s) ==
            if PayloadLen(t).None? then Resynchronize(s)
            else match DecodeBody(s, PayloadLen(t).value)
                 case Whole(header, payload, rest) => Frame(t, header, payload, rest)
                 case Again(u) => DecodeFrame(u)
                 case Lost => Failed
  {
    assert ([t] + s)[1..] == s;
  }

  /** `INPUT_getFrame`. */
  method GetFrame(rd: Reader, raw: RawFrame, decoded: DecodedFrame) returns (ok: bool)
    requires rd.Valid() && Separate(rd, raw, decoded)
    modifies rd, rd.buf, raw, raw.raw, decoded, decoded.payload
    ensures rd.Valid()
    ensures ok <==> Parse(old(rd.Remaining())).Frame?
    ensures ok ==> var p := Parse(old(rd.Remaining()));
                   && rd.Remaining() == p.rest && raw.rawLen <= 44
                   && Delivered(p.typ, p.header, p.payload, raw, decoded)
  {
    raw.raw[0] := SYNC;
    ghost var parsed := Parse(rd.Remaining());
    var pc := AtStart;
    while true
      invariant rd.Valid() && raw.raw[0] == SYNC && From(pc, rd.Remaining()) == parsed
      decreases |rd.Remaining()|
    {
      var typ := GetType(rd, pc);
      if typ.None? {
        return false;
      }
      DecodeFrameStep(typ.value, rd.Remaining());
      var n := PayloadLen(typ.value);
      if n.None? {
        // an unescaped SYNC, or an unknown frame type
        pc := AtSynchronize;
      } else {
        var st, header := GetBody(rd, raw, decoded, typ.value, n.value);
        if st == StatusOk {
          return true;
        } else if st == StatusConnFail {
          return false;
        }
        pc := AtDecodeFrame;
      }
    }
  }
}
