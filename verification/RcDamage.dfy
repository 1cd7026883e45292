/**
 The Radarcape parser on damaged streams of any kind (src/radarcape/rc-parser.c):
 no damage costs more than one good frame.
 */
module RcDamage {
  import opened Options
  import opened Bytes
  import opened Sequences
  import opened Beast
  import opened RcFormat
  import opened RcResync

  /** Escaped data in front of a frame, and be it the rest of another one, do not hide it. */
  lemma EscapedIsSkipped(d: seq<byte>, x: seq<byte>)
    requires Begins(x)
    ensures Parse(Escape(d) + x) == Parse(x)
  {
    if d == [] {
      assert Escape(d) + x == x;
    } else {
      var s := Escape(d) + x;
      SynchronizePastEscaped(d[1..], x);
      Glue(Escaped(d[0]), Escape(d[1..]), x);
      if d[0] == SYNC {
        assert s[1..][1..] == Escape(d[1..]) + x;
        assert DecodeFrame(s[1..]) == Resynchronize(s[1..][1..]) == DecodeFrame(x[1..]);
      } else {
        assert s[1..] == Escape(d[1..]) + x;
      }
    }
  }

  /** The calls beginning with one that returned `p` return `f`, too. */
  ghost predicate Finds(p: Parsed, f: Parsed) {
    p.Frame? && (p == f || f in ParseAll(p.rest))
  }

  lemma FindsByParse(s: seq<byte>, f: Parsed)
    ensures Finds(Parse(s), f) <==> f in ParseAll(s)
  {
  }

  /** A frame without its SYNC, as escaped data. */
  function Tail(f: Parsed): seq<byte>
    requires f.Frame?
  {
    [f.typ] + f.header + f.payload
  }

  predicate Sound(f: Parsed) { f.Frame? && WellFormed(f.typ, f.header, f.payload) }

  /** The octets of a frame, and `y` behind it. */
  function Behind(f: Parsed, y: seq<byte>): seq<byte>
    requires f.Frame?
  {
    Wire(f.typ, f.header, f.payload) + y
  }

  lemma BehindParts(f: Parsed, y: seq<byte>)
    requires Sound(f)
    ensures Begins(Behind(f, y)) && Behind(f, y)[1..] == Escape(Tail(f)) + y
  {
    EscapeConcat([f.typ] + f.header, f.payload);
    EscapeConcat([f.typ], f.header);
    EscapeOne(f.typ);
    hide Escape;
    Glue([SYNC], [f.typ] + Escape(f.header) + Escape(f.payload), y);
    assert Wire(f.typ, f.header, f.payload) == [SYNC] + ([f.typ] + Escape(f.header) + Escape(f.payload));
  }

  /** `f` comes next in `y`, wherever the parser is. */
  ghost predicate ComesNext(f: Parsed, y: seq<byte>) {
    Begins(y) && f.Frame? && Parse(y) == f && DecodeFrame(y[1..]) == f
  }

  /** From a frame's second octet on: if it is taken for a type, the frame is returned; if not, it is skipped. */
  lemma FromTheType(f1: Parsed, f2: Parsed, y: seq<byte>)
    requires Sound(f1) && ComesNext(f2, y)
    ensures Finds(DecodeFrame(Behind(f1, y)[1..]), f2)
    ensures Resynchronize(Behind(f1, y)[1..]) == f2
  {
    hide Escape, Unescape, Wire;
    ParseUndoesWire(f1.typ, f1.header, f1.payload, y);
    FindsByParse(y, f2);
    BehindParts(f1, y);
    SynchronizePastEscaped(Tail(f1), y);
  }

  /**
   Where unescaping ends that began in some octets `g` in front of a frame: still
   within `g`, with `h` left of it; or in the frame, with `d` left of it; or at
   the type octet of this frame or of the next one.
   */
  ghost predicate EndsAt(u: Unescaped, h: seq<byte>, d: seq<byte>, x: seq<byte>, y: seq<byte>)
    requires Begins(x) && Begins(y)
  {
    match u
    case Ok(_, rest) => rest == h + x || rest == Escape(d) + y
    case Resync(rest) => rest == h + x || rest == x[1..] || rest == y[1..]
    case ConnFail => false
  }

  /** A frame without its SYNC, unescaped as data. */
  lemma UnescapeFrame(f: Parsed, y: seq<byte>, m: nat) returns (d: seq<byte>)
    requires Sound(f) && Begins(y)
    ensures Begins(Behind(f, y)) && EndsAt(Unescape(Behind(f, y)[1..], m), [], d, Behind(f, y), y)
  {
    hide Escape;
    BehindParts(f, y);
    var c := Tail(f);
    d := [];
    if m <= |c| {
      UnescapeWithin(c, y, m);
      d := c[m..];
    } else {
      UnescapePast(c, y, m);
    }
  }

  lemma {:induction false} UnescapeAcross(g: seq<byte>, f: Parsed, y: seq<byte>, m: nat)
    returns (h: seq<byte>, d: seq<byte>)
    requires Sound(f) && Begins(y)
    ensures |h| <= |g| && Begins(Behind(f, y)) && EndsAt(Unescape(g + Behind(f, y), m), h, d, Behind(f, y), y)
    decreases |g|
  {
    hide Escape, Behind, Tail;
    var x := Behind(f, y);
    BehindParts(f, y);
    h, d := [], [];
    if m == 0 {
      h := g;
    } else if g == [] {
      assert g + x == x;
    } else if g[0] != SYNC {
      h, d := UnescapeAcross(g[1..], f, y, m - 1);
      assert (g + x)[1..] == g[1..] + x;
    } else if |g| == 1 {
      assert (g + x)[2..] == x[1..];
      d := UnescapeFrame(f, y, m - 1);
    } else if g[1] == SYNC {
      h, d := UnescapeAcross(g[2..], f, y, m - 1);
      assert (g + x)[2..] == g[2..] + x;
    } else {
      h := g[1..];
      assert (g + x)[1..] == h + x;
    }
  }

  /** What follows data that end in or behind the frame. */
  lemma FoundFromRest(u: Unescaped, h: seq<byte>, d: seq<byte>, f1: Parsed, f2: Parsed, y: seq<byte>)
    requires Sound(f1) && ComesNext(f2, y)
    requires Begins(Behind(f1, y)) && EndsAt(u, h, d, Behind(f1, y), y)
    ensures u.Ok? ==> u.rest == h + Behind(f1, y) || f2 in ParseAll(u.rest)
    ensures u.Resync? ==> u.rest == h + Behind(f1, y) || Finds(DecodeFrame(u.rest), f2)
  {
    hide Escape, Unescape, Parse;
    FromTheType(f1, f2, y);
    EscapedIsSkipped(d, y);
    FindsByParse(Escape(d) + y, f2);
  }

  lemma {:induction false} FoundFromType(g: seq<byte>, f1: Parsed, f2: Parsed, y: seq<byte>)
    requires Sound(f1) && ComesNext(f2, y)
    ensures Finds(DecodeFrame(g + Behind(f1, y)), f2)
    decreases |g|
  {
    hide Escape, Unescape, DecodeBody, Synchronize;
    var x := Behind(f1, y);
    BehindParts(f1, y);
    FromTheType(f1, f2, y);
    if g == [] {
      assert g + x == x;
    } else {
      var s := g[1..] + x;
      assert (g + x)[1..] == s;
      var n := PayloadLen(g[0]);
      if n.None? {
        FoundBySynchronizing(g[1..], f1, f2, y);
      } else {
        var h, d := UnescapeAcross(g[1..], f1, y, 7 + n.value);
        BodyAsOne(s, n.value);
        FoundFromRest(Unescape(s, 7 + n.value), h, d, f1, f2, y);
        if Unescape(s, 7 + n.value).Ok? {
          var p := DecodeFrame(g + x);
          if p.rest == h + x {
            FoundFromStart(h, f1, f2, y);
          }
        } else if Unescape(s, 7 + n.value).rest == h + x {
          FoundFromType(h, f1, f2, y);
        }
      }
    }
  }

  lemma {:induction false} FoundBySynchronizing(g: seq<byte>, f1: Parsed, f2: Parsed, y: seq<byte>)
    requires Sound(f1) && ComesNext(f2, y)
    ensures Finds(Resynchronize(g + Behind(f1, y)), f2)
    decreases |g|
  {
    hide Escape, DecodeFrame;
    var x := Behind(f1, y);
    BehindParts(f1, y);
    FromTheType(f1, f2, y);
    if g == [] {
      assert g + x == x;
    } else if g[0] != SYNC {
      FoundBySynchronizing(g[1..], f1, f2, y);
      assert (g + x)[1..] == g[1..] + x;
    } else if |g| == 1 {
      assert (g + x)[2..] == x[1..];
    } else if g[1] == SYNC {
      FoundBySynchronizing(g[2..], f1, f2, y);
      assert (g + x)[2..] == g[2..] + x;
    } else {
      FoundFromType(g[1..], f1, f2, y);
      assert (g + x)[1..] == g[1..] + x;
    }
  }

  lemma {:induction false} FoundFromStart(g: seq<byte>, f1: Parsed, f2: Parsed, y: seq<byte>)
    requires Sound(f1) && ComesNext(f2, y)
    ensures Finds(Parse(g + Behind(f1, y)), f2) && f2 in ParseAll(g + Behind(f1, y))
    decreases |g|
  {
    hide Escape, DecodeFrame, Resynchronize;
    var x := Behind(f1, y);
    BehindParts(f1, y);
    FromTheType(f1, f2, y);
    FindsByParse(g + x, f2);
    if g == [] {
      assert g + x == x;
    } else {
      assert (g + x)[1..] == g[1..] + x;
      if g[0] == SYNC {
        FoundFromType(g[1..], f1, f2, y);
      } else {
        FoundBySynchronizing(g[1..], f1, f2, y);
      }
    }
  }

  /**
   Any damage costs at most one good frame: whatever octets come first, of two
   well-formed frames behind them the second one is returned intact by some call,
   and calls go on exactly behind it.
   */
  lemma AnyDamageCostsOneFrame(g: seq<byte>, t1: byte, header1: seq<byte>, payload1: seq<byte>,
                               t: byte, header: seq<byte>, payload: seq<byte>, tail: seq<byte>)
    requires WellFormed(t1, header1, payload1) && WellFormed(t, header, payload)
    ensures Frame(t, header, payload, tail)
            in ParseAll(g + (Wire(t1, header1, payload1) + (Wire(t, header, payload) + tail)))
  {
    ParseUndoesWire(t, header, payload, tail);
    var f1, f := Frame(t1, header1, payload1, []), Frame(t, header, payload, tail);
    FoundFromStart(g, f1, f, Wire(t, header, payload) + tail);
  }
}
