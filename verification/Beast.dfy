/** Model of src/core/beast.c: escaping of the SYNC octet by doubling it. */
module Beast {
  import opened Options
  import opened Bytes
  import opened Sequences

  const SYNC: byte := 0x1a

  function Escaped(b: byte): seq<byte> { if b == SYNC then [SYNC, SYNC] else [b] }

  /** The meaning of the encoding, octet by octet. */
  function Escape(s: seq<byte>): seq<byte> {
    if s == [] then [] else Escaped(s[0]) + Escape(s[1..])
  }

  function Syncs(s: seq<byte>): nat {
    if s == [] then 0 else (if s[0] == SYNC then 1 else 0) + Syncs(s[1..])
  }

  /** In octets: 0x1a is doubled and every other octet stays. */
  lemma EscapeOctets(b: byte, s: seq<byte>)
    ensures Escape([]) == []
    ensures Escape([b] + s) == (if b == 0x1a then [0x1a, 0x1a] else [b]) + Escape(s)
  {
    assert ([b] + s)[1..] == s;
  }

  lemma {:induction false} EscapeConcat(s: seq<byte>, t: seq<byte>)
    ensures Escape(s + t) == Escape(s) + Escape(t)
  {
    if s == [] {
      assert s + t == t;
    } else {
      EscapeConcat(s[1..], t);
      assert (s + t)[1..] == s[1..] + t;
      Glue(Escaped(s[0]), Escape(s[1..]), Escape(t));
    }
  }

  lemma {:induction false} EscapeLength(s: seq<byte>)
    ensures |Escape(s)| == |s| + Syncs(s)
    ensures |s| <= |Escape(s)| <= 2 * |s|
  {
    if s != [] { EscapeLength(s[1..]); }
  }

  lemma {:induction false} EscapePlain(s: seq<byte>)
    requires SYNC !in s
    ensures Escape(s) == s
  {
    if s != [] { EscapePlain(s[1..]); }
  }

  // ------------------------------------------------------- the copying encoder

  /**
   The state of the copying loop: `w` is written, and with `input[i..base]` it
   would be the encoding of `input[..base]`. That stretch is empty at first and
   afterwards the SYNC found last, which is copied once more.
   */
  ghost predicate Copied(input: seq<byte>, w: seq<byte>, i: nat, base: nat) {
    && i <= base <= |input|
    && ((i == 0 && base == 0) || (base == i + 1 && input[i] == SYNC))
    && w + input[i..base] == Escape(input[..base])
  }

  lemma EscapeSplit(s: seq<byte>, k: nat)
    requires k <= |s|
    ensures Escape(s) == Escape(s[..k]) + Escape(s[k..])
    ensures |Escape(s[..k])| <= |Escape(s)|
  {
    EscapeConcat(s[..k], s[k..]);
    assert s[..k] + s[k..] == s;
  }

  /** A stretch without SYNC is copied as it is. */
  lemma EscapeStretch(input: seq<byte>, base: nat, k: nat)
    requires base <= k <= |input| && SYNC !in input[base..k]
    ensures Escape(input[..k]) == Escape(input[..base]) + input[base..k]
  {
    assert input[..k][..base] == input[..base] && input[..k][base..] == input[base..k];
    EscapeSplit(input[..k], base);
    EscapePlain(input[base..k]);
  }

  lemma EscapeOneSync(input: seq<byte>, k: nat)
    requires k < |input| && input[k] == SYNC
    ensures Escape(input[..k + 1]) == Escape(input[..k]) + [SYNC, SYNC]
  {
    assert input[..k + 1][..k] == input[..k] && input[..k + 1][k..] == [SYNC];
    EscapeSplit(input[..k + 1], k);
    assert Escape([SYNC]) == [SYNC, SYNC];
  }

  lemma Regroup(w: seq<byte>, h: seq<byte>, m: seq<byte>)
    ensures w + (h + m + [SYNC]) + [SYNC] == (w + h) + m + [SYNC, SYNC]
  {
  }

  /** The encoding of everything up to and including the next SYNC. */
  lemma EscapeToSync(input: seq<byte>, base: nat, k: nat)
    requires IsFirst(input, base, SYNC, Some(k))
    ensures Escape(input[..k + 1]) == Escape(input[..base]) + input[base..k] + [SYNC, SYNC]
    ensures |Escape(input[..k + 1])| <= |Escape(input)|
  {
    EscapeStretch(input, base, k);
    EscapeOneSync(input, k);
    EscapeSplit(input, k + 1);
  }

  lemma SliceToSync(input: seq<byte>, i: nat, base: nat, k: nat)
    requires i <= base <= k < |input| && input[k] == SYNC
    ensures input[i..k + 1] == input[i..base] + input[base..k] + [SYNC]
    ensures input[k..k + 1] == [SYNC]
  {
  }

  lemma CopyToSync(input: seq<byte>, w: seq<byte>, i: nat, base: nat, k: nat)
    requires Copied(input, w, i, base) && IsFirst(input, base, SYNC, Some(k))
    ensures Copied(input, w + input[i..k + 1], k, k + 1)
    ensures |w| + (k + 1 - i) < |Escape(input)|
  {
    EscapeToSync(input, base, k);
    SliceToSync(input, i, base, k);
    Regroup(w, input[i..base], input[base..k]);
  }

  lemma CopyToEnd(input: seq<byte>, w: seq<byte>, i: nat, base: nat)
    requires Copied(input, w, i, base) && IsFirst(input, base, SYNC, None)
    ensures Escape(input) == w + input[i..]
  {
    hide Escape;
    var h, m := input[i..base], input[base..];
    assert Escape(input) == (w + h) + m by {
      assert input[base..|input|] == m && input[..|input|] == input;
      EscapeStretch(input, base, |input|);
    }
    assert h + m == input[i..];
    Glue(w, h, m);
  }

  /** The octets written from `at` to `ptr` are as `Copied` says. */
  ghost predicate Progress(out: array<byte>, at: nat, ptr: nat, input: seq<byte>, i: nat, base: nat)
    reads out
  {
    at <= ptr <= out.Length && Copied(input, out[at..ptr], i, base)
  }

  lemma NothingCopied(out: array<byte>, at: nat, input: seq<byte>)
    requires at <= out.Length
    ensures Progress(out, at, at, input, 0, 0)
  {
  }

  /** `memcpy(ptr, in, sync + 1 - in)` in the loop of the encoder. */
  method CopyStretch(out: array<byte>, at: nat, ptr: nat, input: seq<byte>, i: nat, ghost base: nat, sync: nat)
    returns (end: nat)
    requires Progress(out, at, ptr, input, i, base) && IsFirst(input, base, SYNC, Some(sync))
    requires at + |Escape(input)| <= out.Length
    modifies out
    ensures Progress(out, at, end, input, sync, sync + 1)
    ensures ptr < end && end - at < |Escape(input)|
    ensures forall k :: 0 <= k < at || end <= k < out.Length ==> out[k] == old(out[k])
  {
    ghost var w := out[at..ptr];
    var chunk := input[i..sync + 1];
    CopyToSync(input, w, i, base, sync);
    MemCpy(out, ptr, chunk);
    end := ptr + |chunk|;
    assert out[at..ptr] == w;
    assert out[at..end] == out[at..ptr] + out[ptr..end];
  }

  /** The last `memcpy` of the encoder: everything from `in` on. */
  method CopyRest(out: array<byte>, at: nat, ptr: nat, input: seq<byte>, i: nat, ghost base: nat)
    returns (end: nat)
    requires Progress(out, at, ptr, input, i, base) && IsFirst(input, base, SYNC, None)
    requires at + |Escape(input)| <= out.Length
    modifies out
    ensures ptr <= end <= out.Length && out[at..end] == Escape(input)
    ensures forall k :: 0 <= k < at || end <= k < out.Length ==> out[k] == old(out[k])
  {
    ghost var w := out[at..ptr];
    CopyToEnd(input, w, i, base);
    MemCpy(out, ptr, input[i..]);
    end := ptr + (|input| - i);
    assert out[at..ptr] == w;
    assert out[at..end] == out[at..ptr] + out[ptr..end];
  }

  /** The shortcut of the encoder when the input ends in a SYNC: double it. */
  method CopyLastSync(out: array<byte>, at: nat, ptr: nat, ghost input: seq<byte>, ghost i: nat)
    returns (end: nat)
    requires Progress(out, at, ptr, input, i, i + 1) && i + 1 == |input|
    requires at + |Escape(input)| <= out.Length && ptr - at < |Escape(input)|
    modifies out
    ensures ptr <= end <= out.Length && out[at..end] == Escape(input)
    ensures forall k :: 0 <= k < at || end <= k < out.Length ==> out[k] == old(out[k])
  {
    ghost var w := out[at..ptr];
    CopyToEnd(input, w, i, i + 1);
    assert input[i..] == [SYNC];
    out[ptr] := SYNC;
    end := ptr + 1;
    assert out[at..ptr] == w;
    assert out[at..end] == out[at..ptr] + [SYNC];
  }

  /** `BEAST_encode`. */
  method Encode(out: array<byte>, at: nat, input: seq<byte>) returns (used: nat)
    requires at + 2 * |input| <= out.Length
    modifies out
    ensures used == |Escape(input)| && at + used <= out.Length
    ensures out[at..at + used] == Escape(input)
    ensures forall k :: 0 <= k < at || at + used <= k < out.Length ==> out[k] == old(out[k])
  {
    hide Syncs, Copied;
    EscapeLength(input);
    if input == [] {
      return 0;
    }
    // first time: search from the beginning
    var ptr: nat, i: nat := at, 0;
    var sync := MemChr(input, 0, SYNC);
    ghost var base: nat := 0;
    NothingCopied(out, at, input);
    while true
      invariant Progress(out, at, ptr, input, i, base) && i < |input|
      invariant forall k :: 0 <= k < at || ptr <= k < out.Length ==> out[k] == old(out[k])
      invariant IsFirst(input, base, SYNC, sync)
      decreases |input| - base
    {
      if sync.Some? {
        // copy up to and including the SYNC, then start over at that SYNC
        ptr := CopyStretch(out, at, ptr, input, i, base, sync.value);
        i := sync.value;
        base := i + 1;
      } else {
        ptr := CopyRest(out, at, ptr, input, i, base);
        used := ptr - at;
        assert at + used == ptr;
        return;
      }
      if |input| != i + 1 {
        sync := MemChr(input, i + 1, SYNC);
      } else {
        // nothing more to search, but the last SYNC is still to be doubled
        ptr := CopyLastSync(out, at, ptr, input, i);
        used := ptr - at;
        assert at + used == ptr;
        return;
      }
    }
  }
}
