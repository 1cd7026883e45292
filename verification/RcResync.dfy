/** What the Radarcape parser loses when the stream is damaged (src/radarcape/rc-parser.c). */
module RcResync {
  import opened Options
  import opened Bytes
  import opened Beast
  import opened RcFormat
  import opened Sequences

  /**
   A damaged stretch that starts like a frame: one of unknown type with a
   properly escaped body, or one that ends too early, between two octets of
   its escaped header and payload.
   */
  datatype Damage = UnknownType(t: byte, body: seq<byte>) | CutShort(t: byte, data: seq<byte>) {
    predicate Valid() {
      match this
      case UnknownType(t, _) => t != SYNC && PayloadLen(t).None?
      case CutShort(t, data) => PayloadLen(t).Some? && |data| < 7 + PayloadLen(t).value
    }

    function Octets(): seq<byte> {
      match this
      case UnknownType(t, body) => [SYNC, t] + Escape(body)
      case CutShort(t, data) => [SYNC, t] + Escape(data)
    }
  }

  function AllOctets(ds: seq<Damage>): seq<byte> {
    if ds == [] then [] else ds[0].Octets() + AllOctets(ds[1..])
  }

  /** `x` starts like a frame. */
  predicate Begins(x: seq<byte>) { |x| >= 2 && x[0] == SYNC && x[1] != SYNC }

  lemma {:induction false} SynchronizePastEscaped(d: seq<byte>, x: seq<byte>)
    requires Begins(x)
    ensures Synchronize(Escape(d) + x) == Some(x[1..])
  {
    if d == [] {
      assert Escape(d) + x == x;
    } else {
      var e := Escaped(d[0]);
      Glue(e, Escape(d[1..]), x);
      SynchronizePastEscaped(d[1..], x);
      var s := Escape(d) + x;
      assert s[|e|..] == Escape(d[1..]) + x;
    }
  }

  lemma SkipUnknownType(t: byte, body: seq<byte>, x: seq<byte>)
    requires UnknownType(t, body).Valid() && Begins(x)
    ensures Parse(UnknownType(t, body).Octets() + x) == Parse(x)
  {
    hide Escape;
    var s := UnknownType(t, body).Octets() + x;
    var s1 := Escape(body) + x;
    assert s[1..][1..] == s1 && s[1..][0] == t;
    SynchronizePastEscaped(body, x);
    assert Resynchronize(s1) == DecodeFrame(x[1..]);
    assert DecodeFrame(s[1..]) == Resynchronize(s1);
  }

  lemma SkipCutShort(t: byte, data: seq<byte>, x: seq<byte>)
    requires CutShort(t, data).Valid() && Begins(x)
    ensures Parse(CutShort(t, data).Octets() + x) == Parse(x)
  {
    var s := CutShort(t, data).Octets() + x;
    var s1 := Escape(data) + x;
    assert s[1..][1..] == s1;
    if |data| < 7 {
      UnescapeTooMuch(data, x, 7);
    } else {
      var h, p := data[..7], data[7..];
      assert data == h + p;
      EscapeConcat(h, p);
      Glue(Escape(h), Escape(p), x);
      UnescapeUndoesEscape(h, Escape(p) + x);
      UnescapeTooMuch(p, x, PayloadLen(t).value);
    }
  }

  lemma {:induction false} SkipDamage(ds: seq<Damage>, x: seq<byte>)
    requires (forall i :: 0 <= i < |ds| ==> ds[i].Valid()) && Begins(x)
    ensures Parse(AllOctets(ds) + x) == Parse(x)
    ensures Begins(AllOctets(ds) + x)
  {
    if ds == [] {
      assert AllOctets(ds) + x == x;
    } else {
      SkipDamage(ds[1..], x);
      var y := AllOctets(ds[1..]) + x;
      Glue(ds[0].Octets(), AllOctets(ds[1..]), x);
      match ds[0]
      case UnknownType(t, body) => SkipUnknownType(t, body, y);
      case CutShort(t, data) => SkipCutShort(t, data, y);
    }
  }

  lemma SkipGarbage(g: seq<byte>, x: seq<byte>)
    requires SYNC !in g && Begins(x)
    ensures Parse(g + x) == Parse(x)
  {
    if g == [] {
      assert g + x == x;
    } else {
      assert (g + x)[1..] == g[1..] + x;
      SynchronizeChunk(g[1..], x);
    }
  }

  /**
   Resynchronization loses only the bad part: after any garbage without SYNC and
   any number of damaged stretches, one call returns the next well-formed frame
   intact and consumes exactly the stream up to its end.
   */
  lemma LosesOnlyTheBadPart(g: seq<byte>, ds: seq<Damage>,
                            t: byte, header: seq<byte>, payload: seq<byte>, tail: seq<byte>)
    requires SYNC !in g && (forall i :: 0 <= i < |ds| ==> ds[i].Valid())
    requires WellFormed(t, header, payload)
    ensures Parse(g + (AllOctets(ds) + (Wire(t, header, payload) + tail))) == Frame(t, header, payload, tail)
  {
    var x := Wire(t, header, payload) + tail;
    assert Begins(x);
    SkipDamage(ds, x);
    SkipGarbage(g, AllOctets(ds) + x);
    ParseUndoesWire(t, header, payload, tail);
  }

  /** Escaped data is no place to synchronize. */
  lemma {:induction false} SynchronizeOverEscaped(d: seq<byte>, x: seq<byte>)
    ensures Synchronize(Escape(d) + x) == Synchronize(x)
  {
    if d == [] {
      assert Escape(d) + x == x;
    } else {
      var e := Escaped(d[0]);
      Glue(e, Escape(d[1..]), x);
      SynchronizeOverEscaped(d[1..], x);
      var s := Escape(d) + x;
      assert s[|e|..] == Escape(d[1..]) + x;
    }
  }

  lemma LoneSyncSkips(t: byte, header: seq<byte>, payload: seq<byte>, tail: seq<byte>)
    requires WellFormed(t, header, payload)
    ensures Parse([SYNC] + (Wire(t, header, payload) + tail)) == Resynchronize(tail)
  {
    hide Escape;
    var x := Wire(t, header, payload) + tail;
    var body := Escape(header + payload) + tail;
    EscapeConcat(header, payload);
    SynchronizeOverEscaped(header + payload, tail);
    assert ([SYNC] + x)[1..] == x && x[1..] == [t] + body && x[1..][1..] == body;
    assert Synchronize([t] + body) == Synchronize(tail);
    assert DecodeFrame(x) == Resynchronize(x[1..]);
  }

  // -------------------------------------------------- a frame cut off anywhere

  /** How many SYNCs a part of the stream ends with. */
  function SyncRun(s: seq<byte>): nat {
    if s == [] || s[|s| - 1] != SYNC then 0 else 1 + SyncRun(s[..|s| - 1])
  }

  lemma EscapeOne(b: byte)
    ensures Escape([b]) == Escaped(b)
  {
    assert Escape([b][1..]) == [];
  }

  lemma EscapeLast(d: seq<byte>)
    requires d != []
    ensures Escape(d) == Escape(d[..|d| - 1]) + Escaped(d[|d| - 1])
  {
    hide Escape, Escaped;
    var n := |d| - 1;
    EscapeConcat(d[..n], [d[n]]);
    EscapeOne(d[n]);
    assert d[..n] + [d[n]] == d;
  }

  lemma SyncRunPlus(s: seq<byte>, b: byte)
    ensures SyncRun(s + [b]) == if b == SYNC then SyncRun(s) + 1 else 0
  {
    assert (s + [b])[..|s|] == s;
  }

  lemma EscapeNothing(s: seq<byte>)
    ensures s + Escape([]) == s
  {
    assert Escape([]) == [];
    assert s + [] == s;
  }

  /** Escaped data end with an even number of SYNCs, half an escaped SYNC makes it odd. */
  lemma {:induction false} SyncRunBehind(s: seq<byte>, d: seq<byte>)
    requires SyncRun(s) == 0
    ensures SyncRun(s + Escape(d)) % 2 == 0
    ensures SyncRun(s + Escape(d) + [SYNC]) % 2 == 1
  {
    hide Escape, SyncRun;
    SyncRunPlus(s + Escape(d), SYNC);
    if d == [] {
      EscapeNothing(s);
    } else {
      var n := |d| - 1;
      var f := s + Escape(d[..n]);
      SyncRunBehind(s, d[..n]);
      EscapeLast(d);
      Glue(s, Escape(d[..n]), Escaped(d[n]));
      SyncRunPlus(f, d[n]);
      if d[n] == SYNC {
        SyncRunPlus(f + [SYNC], SYNC);
        Glue(f, [SYNC], [SYNC]);
        assert Escaped(d[n]) == [SYNC] + [SYNC];
      }
    }
  }

  /** A part of escaped data is escaped data, or that and the first half of an escaped SYNC. */
  lemma {:induction false} EscapePrefix(d: seq<byte>, k: nat) returns (j: nat)
    requires k < |Escape(d)|
    ensures j < |d|
    ensures Escape(d)[..k] == Escape(d[..j]) || Escape(d)[..k] == Escape(d[..j]) + [SYNC]
  {
    var e := Escaped(d[0]);
    if k < |e| {
      j := 0;
    } else {
      var i := EscapePrefix(d[1..], k - |e|);
      j := i + 1;
      assert Escape(d)[..k] == e + Escape(d[1..])[..k - |e|];
      assert d[..j][1..] == d[1..][..i];
      assert Escape(d[..j]) == e + Escape(d[1..][..i]);
      Glue(e, Escape(d[1..][..i]), [SYNC]);
    }
  }

  /** The data between the type octet and the end of what arrived. */
  lemma WirePrefix(t: byte, header: seq<byte>, payload: seq<byte>, k: nat) returns (d: seq<byte>)
    requires WellFormed(t, header, payload) && 2 <= k < |Wire(t, header, payload)|
    ensures CutShort(t, d).Valid()
    ensures || Wire(t, header, payload)[..k] == CutShort(t, d).Octets()
            || Wire(t, header, payload)[..k] == CutShort(t, d).Octets() + [SYNC]
  {
    var all := header + payload;
    EscapeConcat(header, payload);
    Glue([SYNC, t], Escape(header), Escape(payload));
    assert Wire(t, header, payload) == [SYNC, t] + Escape(all);
    var j := EscapePrefix(all, k - 2);
    d := all[..j];
    assert Wire(t, header, payload)[..k] == [SYNC, t] + Escape(all)[..k - 2];
    Glue([SYNC, t], Escape(d), [SYNC]);
  }

  lemma Regrouped(a: seq<byte>, d: seq<byte>, s: seq<byte>, p: seq<byte>, h: seq<byte>, e: seq<byte>, x: seq<byte>)
    ensures a + d + s + (p + h + e + x) == a + (d + (s + p) + h + e + x)
  {
    var q := p + h + e;
    Glue(a + d, s, q + x);
    Glue(a, d, s + (q + x));
    Glue(s, q, x);
    Glue(d, s + q, x);
    Glue(s, p + h, e);
    Glue(s, p, h);
    Glue(d, s + p + h, e);
    Glue(d, s + p, h);
  }

  lemma EscapePair(t: byte)
    requires t != SYNC
    ensures Escape([SYNC, t]) == [SYNC] + [SYNC, t]
  {
    assert [SYNC, t][1..] == [t];
    EscapeOne(t);
  }

  /** Behind half an escaped SYNC, the next frame passes for data of the one that was cut off. */
  lemma GluedTogether(t0: byte, d: seq<byte>, t: byte, header: seq<byte>, payload: seq<byte>, tail: seq<byte>)
    requires CutShort(t0, d).Valid() && WellFormed(t, header, payload)
    ensures CutShort(t0, d).Octets() + [SYNC] + (Wire(t, header, payload) + tail)
            == [SYNC, t0] + (Escape(d + [SYNC, t] + header + payload) + tail)
  {
    hide Escape;
    EscapeConcat(d + [SYNC, t] + header, payload);
    EscapeConcat(d + [SYNC, t], header);
    EscapeConcat(d, [SYNC, t]);
    EscapePair(t);
    Regrouped([SYNC, t0], Escape(d), [SYNC], [SYNC, t], Escape(header), Escape(payload), tail);
  }

  /** Go on unescaping where a first part ended. */
  function Then(u: Unescaped, n: nat): Unescaped {
    if u.Ok? then Prepend(u.data, Unescape(u.rest, n)) else u
  }

  lemma ThenPrepend(a: seq<byte>, u: Unescaped, n: nat)
    ensures Then(Prepend(a, u), n) == Prepend(a, Then(u, n))
  {
    hide Unescape;
    if u.Ok? && Unescape(u.rest, n).Ok? { Glue(a, u.data, Unescape(u.rest, n).data); }
  }

  /** Data may be unescaped in two parts. */
  lemma {:induction false} UnescapeSplit(s: seq<byte>, m: nat, n: nat)
    ensures Unescape(s, m + n) == Then(Unescape(s, m), n)
    decreases |s|
  {
    if m == 0 {
      assert Unescape(s, n).Ok? ==> [] + Unescape(s, n).data == Unescape(s, n).data;
    } else if s != [] && s[0] != SYNC {
      UnescapeSplit(s[1..], m - 1, n);
      ThenPrepend([s[0]], Unescape(s[1..], m - 1), n);
    } else if |s| > 1 && s[1] == SYNC {
      UnescapeSplit(s[2..], m - 1, n);
      ThenPrepend([SYNC], Unescape(s[2..], m - 1), n);
    }
  }

  /** `DecodeBody` unescapes header and payload as one. */
  lemma BodyAsOne(s: seq<byte>, n: nat)
    ensures var u := Unescape(s, 7 + n);
            DecodeBody(s, n) ==
            if u.Ok? then Whole(u.data[..7], u.data[7..], u.rest) else if u.Resync? then Again(u.rest) else Lost
  {
    UnescapeSplit(s, 7, n);
    var h := Unescape(s, 7);
    if h.Ok? && Unescape(h.rest, n).Ok? {
      var p := Unescape(h.rest, n);
      assert (h.data + p.data)[..7] == h.data && (h.data + p.data)[7..] == p.data;
    }
  }

  lemma {:induction false} UnescapePast(d: seq<byte>, x: seq<byte>, n: nat)
    requires |d| <= n
    ensures Unescape(Escape(d) + x, n) == Prepend(d, Unescape(x, n - |d|))
  {
    UnescapeUndoesEscape(d, x);
    UnescapeSplit(Escape(d) + x, |d|, n - |d|);
  }

  lemma UnescapeWithin(d: seq<byte>, x: seq<byte>, n: nat)
    requires n <= |d|
    ensures Unescape(Escape(d) + x, n) == Ok(d[..n], Escape(d[n..]) + x)
  {
    EscapeSplit(d, n);
    Glue(Escape(d[..n]), Escape(d[n..]), x);
    UnescapeUndoesEscape(d[..n], Escape(d[n..]) + x);
  }

  /**
   If too much data follows a known type, the call returns a frame that was never
   sent; if too little, it goes on behind the data. In neither case is exactly
   the data consumed.
   */
  lemma WrongLength(t: byte, d: seq<byte>, x: seq<byte>)
    requires PayloadLen(t).Some? && |d| != 7 + PayloadLen(t).value
    ensures var p, n := DecodeFrame([t] + (Escape(d) + x)), 7 + PayloadLen(t).value;
            && (|d| > n ==> p == Frame(t, d[..n][..7], d[..n][7..], Escape(d[n..]) + x))
            && (p.Frame? ==> |p.rest| != |x|)
  {
    var n := PayloadLen(t).value;
    var s := Escape(d) + x;
    assert ([t] + s)[1..] == s;
    BodyAsOne(s, n);
    if |d| > 7 + n {
      UnescapeWithin(d, x, 7 + n);
      EscapeLength(d[7 + n..]);
    } else {
      UnescapePast(d, x, 7 + n);
      assert Unescape(x, 7 + n - |d|).Ok? ==> |Unescape(x, 7 + n - |d|).rest| < |x|;
    }
  }

  /** A frame cut off within an escaped SYNC costs the next one. */
  lemma OddCutLoses(t0: byte, d: seq<byte>, t: byte, header: seq<byte>, payload: seq<byte>, tail: seq<byte>)
    requires CutShort(t0, d).Valid() && WellFormed(t, header, payload)
    ensures var s, e := CutShort(t0, d).Octets() + [SYNC] + (Wire(t, header, payload) + tail),
                        d + [SYNC, t] + header + payload;
            Parse(s) == DecodeFrame([t0] + (Escape(e) + tail)) != Frame(t, header, payload, tail)
  {
    hide Escape, Unescape, Wire;
    var e, n := d + [SYNC, t] + header + payload, PayloadLen(t0).value;
    var s := [t0] + (Escape(e) + tail);
    GluedTogether(t0, d, t, header, payload, tail);
    assert ([SYNC, t0] + (Escape(e) + tail))[1..] == s;
    if |e| == 7 + n {
      UnescapeUndoesEscape(e, tail);
      BodyAsOne(Escape(e) + tail, n);
      assert s[1..] == Escape(e) + tail;
    } else {
      WrongLength(t0, e, tail);
    }
  }

  /**
   The exact condition: a frame was cut off anywhere; the next one survives if
   and only if what arrived of the first one ends with an even number of SYNCs.
   Otherwise the last SYNC and the first one of the next frame pass for an
   escaped one.
   */
  lemma NextFrameSurvivesIff(t0: byte, header0: seq<byte>, payload0: seq<byte>, k: nat,
                             t: byte, header: seq<byte>, payload: seq<byte>, tail: seq<byte>)
    requires WellFormed(t0, header0, payload0) && k < |Wire(t0, header0, payload0)|
    requires WellFormed(t, header, payload)
    ensures Parse(Wire(t0, header0, payload0)[..k] + (Wire(t, header, payload) + tail))
            == Frame(t, header, payload, tail)
            <==> SyncRun(Wire(t0, header0, payload0)[..k]) % 2 == 0
  {
    hide Escape, Unescape, Parse;
    var arrived, x := Wire(t0, header0, payload0)[..k], Wire(t, header, payload) + tail;
    ParseUndoesWire(t, header, payload, tail);
    if k == 0 {
      assert arrived + x == x;
    } else if k == 1 {
      assert arrived == [SYNC] && arrived[..0] == [];
      LoneSyncSkips(t, header, payload, tail);
    } else {
      var d := WirePrefix(t0, header0, payload0, k);
      SyncRunBehind([SYNC, t0], d);
      if arrived == CutShort(t0, d).Octets() {
        SkipCutShort(t0, d, x);
      } else {
        OddCutLoses(t0, d, t, header, payload, tail);
      }
    }
  }
}
