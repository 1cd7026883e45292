/**
 The receive buffer both stream parsers use (src/radarcape/rc-parser.c and
 src/trimble/trimble_parser.c declare the same variables and functions): 128
 octets that are refilled from the device.
 */
module Reader {
  import opened Options
  import opened Bytes

  class Reader {
    const buf: array<byte>
    /** Current position and end of the buffer's content. */
    var bufCur: nat
    var bufEnd: nat
    /** What the device will still deliver before the connection fails. */
    var stream: seq<byte>

    ghost predicate Valid()
      reads this
    {
      bufCur <= bufEnd <= buf.Length == 128
    }

    /** Everything that has not been consumed yet, buffered or not. */
    ghost function Remaining(): seq<byte>
      reads this, buf
      requires Valid()
    {
      buf[bufCur..bufEnd] + stream
    }

    /** A new connection: the buffer is empty. */
    constructor (stream: seq<byte>)
      ensures Valid() && fresh(buf) && Remaining() == stream
    {
      buf := new byte[128];
      bufCur, bufEnd := 0, 0;
      this.stream := stream;
    }

    /**
     The device's read function: any non-empty part of the stream that fits, or
     nothing once the connection has failed.
     */
    method Receive() returns (rc: nat)
      requires buf.Length == 128
      modifies this`stream, buf
      ensures rc <= buf.Length
      ensures rc == 0 <==> old(stream) == []
      ensures buf[..rc] + stream == old(stream)
    {
      if stream == [] {
        return 0;
      }
      rc :| 1 <= rc <= |stream| && rc <= buf.Length;
      MemCpy(buf, 0, stream[..rc]);
      assert buf[..rc] == buf[0..rc];
      stream := stream[rc..];
    }

    /** `discardAndFill`. */
    method DiscardAndFill() returns (ok: bool)
      requires Valid()
      modifies this, buf
      ensures Valid()
      ensures ok <==> old(stream) != []
      ensures ok ==> bufCur < bufEnd && Remaining() == old(stream) && |stream| < |old(stream)|
      ensures !ok ==> bufCur == old(bufCur) && bufEnd == old(bufEnd) && stream == []
    {
      var rc := Receive();
      if rc == 0 {
        return false;
      }
      bufCur, bufEnd := 0, rc;
      assert buf[0..rc] == buf[..rc];
      return true;
    }

    /** `memchr(bufCur, c, mlen)`; the result is relative to the current position. */
    method Search(c: byte, mlen: nat) returns (r: Option<nat>)
      requires Valid() && mlen <= bufEnd - bufCur
      ensures r.None? ==> c !in buf[bufCur..bufCur + mlen]
      ensures r.Some? ==> r.value < mlen && buf[bufCur + r.value] == c && c !in buf[bufCur..bufCur + r.value]
    {
      ghost var window := buf[bufCur..bufCur + mlen];
      r := MemChr(buf[bufCur..bufCur + mlen], 0, c);
      assert window[0..] == window;
      if r.Some? {
        assert window[0..r.value] == buf[bufCur..bufCur + r.value];
      }
    }

    /** `bufCur == bufEnd && !discardAndFill()`: look at the next octet without consuming it. */
    method Peek() returns (ok: bool)
      requires Valid()
      modifies this, buf
      ensures Valid()
      ensures ok <==> old(Remaining()) != []
      ensures ok ==> Remaining() == old(Remaining()) && bufCur < bufEnd && buf[bufCur] == Remaining()[0]
      ensures (bufCur == old(bufCur) && bufEnd == old(bufEnd) && stream == old(stream)) || |stream| < |old(stream)|
    {
      ok := true;
      if bufCur == bufEnd {
        assert Remaining() == stream;
        ok := DiscardAndFill();
      }
    }

    /** Consume one octet that is known to be in the buffer. */
    method Consume()
      requires Valid() && bufCur < bufEnd
      modifies this`bufCur
      ensures Valid() && bufCur == old(bufCur) + 1
      ensures old(Remaining()) == [buf[old(bufCur)]] + Remaining()
      ensures old(Remaining())[1..] == Remaining()
    {
      bufCur := bufCur + 1;
    }

    /** `next`: consume one octet. */
    method Next() returns (ch: Option<byte>)
      requires Valid()
      modifies this, buf
      ensures Valid()
      ensures ch.None? <==> old(Remaining()) == []
      ensures ch.Some? ==> old(Remaining()) == [ch.value] + Remaining()
    {
      while true
        invariant Valid() && Remaining() == old(Remaining())
        decreases |stream|
      {
        if bufCur < bufEnd {
          var c := buf[bufCur];
          Consume();
          return Some(c);
        }
        assert buf[bufCur..bufEnd] == [];
        var filled := DiscardAndFill();
        if !filled {
          return None;
        }
      }
    }
  }
}
