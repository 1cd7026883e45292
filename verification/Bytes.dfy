/** Octets and the C library's view of them. */
module Bytes {
  import opened Options

  type byte = x: int | 0 <= x < 256

  /** `r` is the offset of the first `c` in `s` from offset `from` on. */
  ghost predicate IsFirst(s: seq<byte>, from: nat, c: byte, r: Option<nat>) {
    && from <= |s|
    && (r.None? ==> c !in s[from..])
    && (r.Some? ==> from <= r.value < |s| && s[r.value] == c && c !in s[from..r.value])
  }

  /** `memchr` over the octets of `s` from offset `from` on; the result is an offset into `s`. */
  method MemChr(s: seq<byte>, from: nat, c: byte) returns (r: Option<nat>)
    requires from <= |s|
    ensures IsFirst(s, from, c, r)
  {
    for i := from to |s|
      invariant c !in s[from..i]
    {
      if s[i] == c {
        return Some(i);
      }
    }
    return None;
  }

  /** `memcpy`: copy `src` into `dst` from offset `at` on. */
  method MemCpy(dst: array<byte>, at: nat, src: seq<byte>)
    requires at + |src| <= dst.Length
    modifies dst
    ensures dst[at..at + |src|] == src
    ensures forall k :: 0 <= k < at || at + |src| <= k < dst.Length ==> dst[k] == old(dst[k])
  {
    for i := 0 to |src|
      invariant forall k :: 0 <= k < i ==> dst[at + k] == src[k]
      invariant forall k :: 0 <= k < at || at + i <= k < dst.Length ==> dst[k] == old(dst[k])
    {
      dst[at + i] := src[i];
    }
  }

  /** Write `src` behind the first `at` octets of `a`. */
  method Store(a: array<byte>, at: nat, src: seq<byte>)
    requires at + |src| <= a.Length
    modifies a
    ensures a[..at + |src|] == old(a[..at]) + src
    ensures forall k :: at + |src| <= k < a.Length ==> a[k] == old(a[k])
  {
    MemCpy(a, at, src);
    assert a[..at] == old(a[..at]);
    assert a[..at + |src|] == a[..at] + a[at..at + |src|];
  }
}
