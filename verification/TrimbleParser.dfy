/** The parser of src/trimble/trimble_parser.c, in place on its buffers. */
module TrimbleParser {
  import opened Options
  import opened Bytes
  import opened Reader
  import opened TrimbleFormat
  import opened Sequences

  datatype Status = StatusOk | StatusResync | StatusConnFail | StatusBufferFull

  // ------------------------------------------------------------------- decoding

  /** `dst` holds the type and the data `d` decoded so far, in `at` octets; there is room for `n` more. */
  ghost predicate Going(rd: Reader, dst: array<byte>, at: nat, n: nat, s: seq<byte>, typ: byte, d: seq<byte>)
    reads rd, rd.buf, dst
  {
    && rd.Valid() && rd.buf != dst && at == 1 + |d| && at + n <= dst.Length
    && dst[..at] == [typ] + d && s == Stuff(d) + rd.Remaining()
  }

  lemma StuffPlus(d: seq<byte>, c: seq<byte>, t: seq<byte>)
    ensures Stuff(d) + (Stuff(c) + t) == Stuff(d + c) + t
  {
    StuffConcat(d, c);
    Glue(Stuff(d), Stuff(c), t);
  }

  /** How decoding stopped short of a full buffer, and what was consumed. */
  ghost predicate Stopped(s: seq<byte>, d: seq<byte>, st: Status, rest: seq<byte>) {
    match st
    case StatusOk => s == Stuff(d) + ([BOM, EOM] + rest)
    case StatusResync => s == Stuff(d) + ([BOM] + rest) && rest != [] && rest[0] != BOM && rest[0] != EOM
    case StatusConnFail => s == Stuff(d) || s == Stuff(d) + [BOM]
    case StatusBufferFull => false
  }

  /** The meaning of a status, with the data decoded so far and the remaining stream. */
  function Outcome(st: Status, data: seq<byte>, rest: seq<byte>): Decoded {
    match st
    case StatusOk => Ok(data, rest)
    case StatusResync => Resync(rest)
    case StatusConnFail => ConnFail
    case StatusBufferFull => Full(rest)
  }

  lemma StoppedShort(s: seq<byte>, d: seq<byte>, st: Status, rest: seq<byte>, room: nat)
    requires Stopped(s, d, st, rest) && |d| < room
    ensures Unstuff(s, room) == Outcome(st, d, rest)
  {
    match st
    case StatusOk =>
      UnstuffUndoesStuff(d, rest, room);
    case StatusResync =>
      UnstuffCut(d, [BOM] + rest, room);
      assert ([BOM] + rest)[1..] == rest;
    case StatusConnFail =>
      UnstuffCut(d, [], room);
      UnstuffCut(d, [BOM], room);
      assert Stuff(d) + [] == Stuff(d);
  }

  lemma StoppedFull(s: seq<byte>, d: seq<byte>, rest: seq<byte>)
    requires s == Stuff(d) + rest
    ensures Unstuff(s, |d|) == Full(rest)
  {
    UnstuffTooMuch(d, rest, |d|);
    assert Stuff(d[|d|..]) + rest == rest;
  }

  lemma Split(rd: Reader, k: nat)
    requires rd.Valid() && k <= rd.bufEnd - rd.bufCur
    ensures rd.Remaining() == rd.buf[rd.bufCur..rd.bufCur + k] + (rd.buf[rd.bufCur + k..rd.bufEnd] + rd.stream)
  {
  }

  /** Copy `k` octets from the buffer behind the data. */
  method Copy(rd: Reader, dst: array<byte>, at: nat, n: nat, k: nat,
              ghost s: seq<byte>, ghost typ: byte, ghost d: seq<byte>)
    returns (ghost d': seq<byte>)
    requires Going(rd, dst, at, n, s, typ, d) && k <= n && k <= rd.bufEnd - rd.bufCur
    requires BOM !in rd.buf[rd.bufCur..rd.bufCur + k]
    modifies rd`bufCur, dst
    ensures rd.bufCur == old(rd.bufCur) + k && Going(rd, dst, at + k, n - k, s, typ, d')
    ensures forall j :: at + n <= j < dst.Length ==> dst[j] == old(dst[j])
  {
    ghost var c, t := rd.buf[rd.bufCur..rd.bufCur + k], rd.buf[rd.bufCur + k..rd.bufEnd] + rd.stream;
    Split(rd, k);
    StuffPlain(c);
    StuffPlus(d, c, t);
    Store(dst, at, rd.buf[rd.bufCur..rd.bufCur + k]);
    rd.bufCur := rd.bufCur + k;
    d' := d + c;
    Glue([typ], d, c);
  }

  lemma StuffOne()
    ensures Stuff([BOM]) == [BOM] + [BOM]
    ensures [BOM, EOM] == [BOM] + [EOM]
  {
  }

  /** One round of the loop in `decode` from a BOM at the current position on; `more` if it goes on. */
  method DecodeBom(rd: Reader, dst: array<byte>, at: nat, n: nat,
                   ghost s: seq<byte>, ghost typ: byte, ghost d: seq<byte>)
    returns (st: Status, more: bool, ghost d': seq<byte>)
    requires Going(rd, dst, at, n, s, typ, d) && n > 0 && rd.bufCur < rd.bufEnd && rd.buf[rd.bufCur] == BOM
    modifies rd, rd.buf, dst
    ensures rd.Valid()
    ensures more ==> Going(rd, dst, at + 1, n - 1, s, typ, d')
    ensures !more ==> at == 1 + |d'| && dst[..at] == [typ] + d' && Stopped(s, d', st, rd.Remaining())
    ensures forall j :: at + n <= j < dst.Length ==> dst[j] == old(dst[j])
  {
    d' := d;
    rd.Consume();
    ghost var t := rd.Remaining();
    var filled := rd.Peek();
    if !filled {
      assert [BOM] + t == [BOM];
      return StatusConnFail, false, d;
    }
    var c := rd.buf[rd.bufCur];
    if c == EOM {
      rd.Consume();
      StuffOne();
      Glue([BOM], [EOM], rd.Remaining());
      return StatusOk, false, d;
    }
    if c == BOM {
      Store(dst, at, [BOM]);
      rd.Consume();
      Glue([BOM], [BOM], rd.Remaining());
      StuffOne();
      StuffPlus(d, [BOM], rd.Remaining());
      Glue([typ], d, [BOM]);
      return StatusOk, true, d + [BOM];
    }
    return StatusResync, false, d;
  }

  /** One round of the loop in `decode` on a non-empty buffer. */
  method DecodeStretch(rd: Reader, dst: array<byte>, at: nat, n: nat,
                       ghost s: seq<byte>, ghost typ: byte, ghost d: seq<byte>)
    returns (st: Status, more: bool, at': nat, n': nat, ghost d': seq<byte>)
    requires Going(rd, dst, at, n, s, typ, d) && n > 0 && rd.bufCur < rd.bufEnd
    modifies rd, rd.buf, dst
    ensures rd.Valid()
    ensures more ==> n' < n && at' + n' == at + n && Going(rd, dst, at', n', s, typ, d')
    ensures !more ==> at' < at + n && at' == 1 + |d'| && dst[..at'] == [typ] + d' && Stopped(s, d', st, rd.Remaining())
    ensures forall j :: at + n <= j < dst.Length ==> dst[j] == old(dst[j])
  {
    var rbuf := rd.bufEnd - rd.bufCur;
    var mlen := if rbuf <= n then rbuf else n;
    var bom := rd.Search(BOM, mlen);
    if bom.None? {
      d' := Copy(rd, dst, at, n, mlen, s, typ, d);
      return StatusOk, true, at + mlen, n - mlen, d';
    }
    d' := Copy(rd, dst, at, n, bom.value, s, typ, d);
    st, more, d' := DecodeBom(rd, dst, at + bom.value, n - bom.value, s, typ, d');
    if more {
      return st, more, at + bom.value + 1, n - bom.value - 1, d';
    }
    return st, more, at + bom.value, n - bom.value, d';
  }

  lemma TypeAndData(dst: array<byte>, end: nat, typ: byte, d: seq<byte>)
    requires 1 <= end <= dst.Length && dst[..end] == [typ] + d
    ensures dst[0] == typ && dst[1..end] == d
  {
    assert dst[0] == dst[..end][0];
    assert dst[1..end] == dst[..end][1..];
  }

  /** `decode`: the data of a frame into `dst` behind the type, at most `len` octets. */
  method Decode(rd: Reader, dst: array<byte>, len: nat) returns (st: Status, end: nat)
    requires rd.Valid() && rd.buf != dst && 0 < len < dst.Length
    modifies rd, rd.buf, dst
    ensures rd.Valid() && 1 <= end <= 1 + len
    ensures Unstuff(old(rd.Remaining()), len) == Outcome(st, dst[1..end], rd.Remaining())
    ensures dst[0] == old(dst[0]) && forall j :: 1 + len <= j < dst.Length ==> dst[j] == old(dst[j])
  {
    ghost var s, typ, d := rd.Remaining(), dst[0], [];
    end := 1;
    var n := len;
    while n > 0
      invariant end + n == 1 + len && Going(rd, dst, end, n, s, typ, d)
      invariant forall j :: 1 + len <= j < dst.Length ==> dst[j] == old(dst[j])
      decreases n
    {
      var filled := rd.Peek();
      if !filled {
        assert rd.Remaining() == [];
        StoppedShort(s, d, StatusConnFail, [], len);
        TypeAndData(dst, end, typ, d);
        return StatusConnFail, end;
      }
      var more;
      ghost var d';
      st, more, end, n, d' := DecodeStretch(rd, dst, end, n, s, typ, d);
      d := d';
      if !more {
        StoppedShort(s, d, st, rd.Remaining(), len);
        TypeAndData(dst, end, typ, d);
        return;
      }
    }
    StoppedFull(s, d, rd.Remaining());
    TypeAndData(dst, end, typ, d);
    return StatusBufferFull, end;
  }

  // -------------------------------------------------------------- synchronizing

  lemma SynchronizeBehindBom(t: seq<byte>)
    ensures t == [] ==> Synchronize([BOM] + t) == None
    ensures t != [] && (t[0] == BOM || t[0] == EOM) ==> Synchronize([BOM] + t) == Synchronize(t[1..])
    ensures t != [] && t[0] != BOM && t[0] != EOM ==> Synchronize([BOM] + t) == Some(t)
  {
    var s := [BOM] + t;
    assert s[1..] == t;
    if t != [] { assert s[2..] == t[1..]; }
  }

  /** A BOM was found `k` octets ahead: discard everything including it, and peek the next symbol. */
  method PeekBehindBom(rd: Reader, k: nat) returns (filled: bool)
    requires rd.Valid() && rd.bufCur + k < rd.bufEnd
    requires rd.buf[rd.bufCur + k] == BOM && BOM !in rd.buf[rd.bufCur..rd.bufCur + k]
    modifies rd, rd.buf
    ensures rd.Valid()
    ensures || (rd.stream == old(rd.stream) && rd.bufEnd - rd.bufCur < old(rd.bufEnd - rd.bufCur))
            || |rd.stream| < |old(rd.stream)|
    ensures !filled ==> Synchronize(old(rd.Remaining())) == None
    ensures filled ==>
              && rd.bufCur < rd.bufEnd && rd.buf[rd.bufCur] == rd.Remaining()[0]
              && Synchronize(old(rd.Remaining())) ==
                 if rd.Remaining()[0] == BOM || rd.Remaining()[0] == EOM then Synchronize(rd.Remaining()[1..])
                 else Some(rd.Remaining())
  {
    ghost var s, c := rd.Remaining(), rd.buf[rd.bufCur..rd.bufCur + k];
    rd.bufCur := rd.bufCur + k + 1;
    ghost var t := rd.Remaining();
    assert s == c + ([BOM] + t);
    SynchronizeChunk(c, [BOM] + t);
    SynchronizeBehindBom(t);
    filled := rd.Peek();
  }

  /** Refill a buffer in which there is nothing to synchronize with. */
  method DiscardPlain(rd: Reader) returns (filled: bool)
    requires rd.Valid() && BOM !in rd.buf[rd.bufCur..rd.bufEnd]
    modifies rd, rd.buf
    ensures rd.Valid()
    ensures filled ==> |rd.stream| < |old(rd.stream)|
    ensures Synchronize(old(rd.Remaining())) == if filled then Synchronize(rd.Remaining()) else None
  {
    SynchronizeChunk(rd.buf[rd.bufCur..rd.bufEnd], rd.stream);
    filled := rd.DiscardAndFill();
  }

  /** `synchronize`: stop in front of the first octet of a frame. */
  method SynchronizeBuffer(rd: Reader) returns (ok: bool)
    requires rd.Valid()
    modifies rd, rd.buf
    ensures rd.Valid()
    ensures Synchronize(old(rd.Remaining())) == if ok then Some(rd.Remaining()) else None
  {
    ghost var synchronized := Synchronize(rd.Remaining());
    while true
      invariant rd.Valid() && Synchronize(rd.Remaining()) == synchronized
      decreases |rd.stream|, rd.bufEnd - rd.bufCur
    {
      var bom := rd.Search(BOM, rd.bufEnd - rd.bufCur);
      if bom.Some? {
        var filled := PeekBehindBom(rd, bom.value);
        if !filled {
          return false;
        }
        if rd.buf[rd.bufCur] == BOM || rd.buf[rd.bufCur] == EOM {
          // an escaped BOM or the end of a frame: discard it and try again
          rd.Consume();
          if rd.bufCur != rd.bufEnd {
            continue;
          }
        } else {
          return true;
        }
      }
      var filled := DiscardPlain(rd);
      if !filled {
        return false;
      }
    }
  }

  // -------------------------------------------------------------------- frames

  /** Where a jump of `TRIMBLE_PARSER_getFrame` continues. */
  datatype Jump = AtStart | AtSynchronize | AtDecodeFrame

  /** The result of `TRIMBLE_PARSER_getFrame` from a label on. */
  function From(pc: Jump, s: seq<byte>, room: nat): Parsed {
    match pc
    case AtStart => Parse(s, room)
    case AtSynchronize => Resynchronize(s, room)
    case AtDecodeFrame => DecodeFrame(s, room)
  }

  /** `TRIMBLE_PARSER_getFrame` from a label up to and including the type octet. */
  method GetType(rd: Reader, pc: Jump, ghost room: nat) returns (typ: Option<byte>)
    requires rd.Valid()
    modifies rd, rd.buf
    ensures rd.Valid()
    ensures typ.None? ==> From(pc, old(rd.Remaining()), room) == Failed
    ensures typ.Some? ==> From(pc, old(rd.Remaining()), room) == DecodeFrame([typ.value] + rd.Remaining(), room)
    ensures typ.Some? ==> |rd.Remaining()| < |old(rd.Remaining())|
  {
    ghost var s := rd.Remaining();
    var synchronized := true;
    if pc == AtStart {
      var bom := rd.Next();
      if bom.None? {
        return None;
      }
      assert s[1..] == rd.Remaining();
      if bom.value != BOM {
        synchronized := SynchronizeBuffer(rd);
      }
    } else if pc == AtSynchronize {
      synchronized := SynchronizeBuffer(rd);
    }
    if !synchronized {
      return None;
    }
    typ := rd.Next();
  }

  /**
   `TRIMBLE_PARSER_getFrame` from the type octet, in `buf`, on. `end` is the length
   of the frame if that is complete.
   */
  method GetData(rd: Reader, buf: array<byte>, bufLen: nat) returns (st: Status, end: nat)
    requires rd.Valid() && rd.buf != buf && 1 < bufLen <= buf.Length
    modifies rd, rd.buf, buf
    ensures rd.Valid() && 1 <= end <= bufLen
    ensures st != StatusConnFail ==> |rd.Remaining()| <= |old(rd.Remaining())|
    ensures DecodeFrame([old(buf[0])] + old(rd.Remaining()), bufLen - 1) ==
            match st
            case StatusOk => Frame(buf[0], buf[1..end], rd.Remaining())
            case StatusResync => DecodeFrame(rd.Remaining(), bufLen - 1)
            case StatusConnFail => Failed
            case StatusBufferFull => Resynchronize(rd.Remaining(), bufLen - 1)
    ensures st == StatusOk ==> end < bufLen
    ensures forall j :: bufLen <= j < buf.Length ==> buf[j] == old(buf[j])
  {
    ghost var s := rd.Remaining();
    if buf[0] == EOM {
      assert ([buf[0]] + s)[1..] == s;
      return StatusBufferFull, 1;
    }
    TypeStep(buf[0], s, bufLen - 1);
    st, end := Decode(rd, buf, bufLen - 1);
  }

  /**
   `TRIMBLE_PARSER_getFrame`: the type and the data of the next frame of the stream
   into the first `bufLen` octets of `buf`; 0 on connection failure.
   */
  method GetFrame(rd: Reader, buf: array<byte>, bufLen: nat) returns (len: nat)
    requires rd.Valid() && rd.buf != buf && 1 < bufLen <= buf.Length
    modifies rd, rd.buf, buf
    ensures rd.Valid() && len < bufLen
    ensures len == 0 <==> Parse(old(rd.Remaining()), bufLen - 1).Failed?
    ensures len > 0 ==> Parse(old(rd.Remaining()), bufLen - 1) == Frame(buf[0], buf[1..len], rd.Remaining())
    ensures forall j :: bufLen <= j < buf.Length ==> buf[j] == old(buf[j])
  {
    ghost var parsed := Parse(rd.Remaining(), bufLen - 1);
    var pc := AtStart;
    while true
      invariant rd.Valid() && From(pc, rd.Remaining(), bufLen - 1) == parsed
      invariant forall j :: bufLen <= j < buf.Length ==> buf[j] == old(buf[j])
      decreases |rd.Remaining()|
    {
      var typ := GetType(rd, pc, bufLen - 1);
      if typ.None? {
        return 0;
      }
      buf[0] := typ.value;
      var st, end := GetData(rd, buf, bufLen);
      match st
      case StatusOk =>
        return end;
      case StatusResync =>
        pc := AtDecodeFrame;
      case StatusConnFail =>
        return 0;
      case StatusBufferFull =>
        pc := AtSynchronize;
    }
  }
}
