/**
 Model of the doubly linked lists of src/util/list.h, on the heap: circular
 lists around an anchor, and the counted lists on top of them whose counter may
 be out of date ("tainted"). Every operation is proved against the sequence of
 links it stands for; what it writes lies within the lists it is given.
 */
module LinkedList {
  import opened Sequences

  /** Number of values of `size_t`. */
  const SIZE: nat := 0x1_0000_0000_0000_0000

  class Link {
    var next: Link
    var prev: Link

    constructor ()
      ensures next == this && prev == this
    {
      next, prev := this, this;
    }
  }

  /** Behind `links[i]`, or in front of the first link for `i == -1`; the anchor closes the ring. */
  ghost function Succ(anchor: Link, links: seq<Link>, i: int): Link
    requires -1 <= i < |links|
  {
    if i + 1 == |links| then anchor else links[i + 1]
  }

  ghost function Pred(anchor: Link, links: seq<Link>, i: nat): Link
    requires i <= |links|
  {
    if i == 0 then anchor else links[i - 1]
  }

  ghost predicate Distinct(anchor: Link, l: seq<Link>) {
    (forall i {:trigger l[i]} :: 0 <= i < |l| ==> l[i] != anchor) && NoDup(l)
  }

  ghost predicate Linked(anchor: Link, l: seq<Link>)
    reads anchor, l
  {
    && anchor.next == Succ(anchor, l, -1)
    && anchor.prev == Pred(anchor, l, |l|)
    && (forall i {:trigger l[i].next} :: 0 <= i < |l| ==> l[i].next == Succ(anchor, l, i))
    && (forall i {:trigger l[i].prev} :: 0 <= i < |l| ==> l[i].prev == Pred(anchor, l, i))
  }

  /** The anchor and the links form one ring in this order, forward and backward. */
  ghost predicate Ring(anchor: Link, l: seq<Link>)
    reads anchor, l
  {
    Distinct(anchor, l) && Linked(anchor, l)
  }

  /** The lists have no link in common, and no anchor of one is in the other. */
  ghost predicate Disjoint(a: Link, s: seq<Link>, b: Link, t: seq<Link>) {
    && a != b && a !in t && b !in s
    && forall i, j {:trigger s[i], t[j]} :: 0 <= i < |s| && 0 <= j < |t| ==> s[i] != t[j]
  }

  /** `l` with `x` as its new element `k`. */
  ghost function With(l: seq<Link>, k: nat, x: Link): (r: seq<Link>)
    requires k <= |l|
    ensures |r| == |l| + 1
    ensures forall i {:trigger r[i]} :: 0 <= i < |r| ==> r[i] == if i < k then l[i] else if i == k then x else l[i - 1]
  {
    l[..k] + [x] + l[k..]
  }

  ghost function Front(l: seq<Link>, k: nat): (r: seq<Link>)
    requires k <= |l|
    ensures |r| == k && forall i {:trigger r[i]} :: 0 <= i < k ==> r[i] == l[i]
  {
    l[..k]
  }

  ghost function Back(l: seq<Link>, k: nat): (r: seq<Link>)
    requires k <= |l|
    ensures |r| == |l| - k && forall i {:trigger r[i]} :: 0 <= i < |r| ==> r[i] == l[k + i]
  {
    l[k..]
  }

  ghost function Joined(l: seq<Link>, m: seq<Link>): (r: seq<Link>)
    ensures |r| == |l| + |m|
    ensures forall i {:trigger r[i]} :: 0 <= i < |r| ==> r[i] == if i < |l| then l[i] else m[i - |l|]
  {
    l + m
  }

  // --------------------------------------------------- rings after redirection

  /** Only `n1` and `n2` got a new successor and only `p1` and `p2` a new predecessor, if any of `l` did. */
  twostate predicate Untouched(l: seq<Link>, n1: Link, n2: Link, p1: Link, p2: Link)
    reads l
  {
    && (forall i {:trigger l[i].next} :: 0 <= i < |l| && l[i] != n1 && l[i] != n2 ==> l[i].next == old(l[i].next))
    && (forall i {:trigger l[i].prev} :: 0 <= i < |l| && l[i] != p1 && l[i] != p2 ==> l[i].prev == old(l[i].prev))
  }

  twostate lemma RingWithout(new anchor: Link, new l: seq<Link>, k: nat)
    requires old(allocated(anchor)) && old(allocated(l)) && old(Ring(anchor, l)) && k < |l|
    requires var p, n := Pred(anchor, l, k), Succ(anchor, l, k);
             && p.next == n && n.prev == p && Untouched(l, p, p, n, n)
             && (p != anchor ==> anchor.next == old(anchor.next)) && (n != anchor ==> anchor.prev == old(anchor.prev))
    ensures Ring(anchor, Without(l, k))
  {
    hide Without;
    var m := Without(l, k);
    assert Distinct(anchor, m);
    forall i | 0 <= i < |m|
      ensures m[i].next == Succ(anchor, m, i)
    {
      var j := if i < k then i else i + 1;
      assert m[i] == l[j] && old(l[j].next) == Succ(anchor, l, j);
    }
    forall i | 0 <= i < |m|
      ensures m[i].prev == Pred(anchor, m, i)
    {
      var j := if i < k then i else i + 1;
      assert m[i] == l[j] && old(l[j].prev) == Pred(anchor, l, j);
    }
  }

  twostate lemma RingWith(new anchor: Link, new l: seq<Link>, k: nat, new x: Link)
    requires old(allocated(anchor)) && old(allocated(l)) && old(Ring(anchor, l)) && k <= |l| && x != anchor && x !in l
    requires var p, n := Pred(anchor, l, k), Succ(anchor, l, k - 1);
             && x.prev == p && p.next == x && x.next == n && n.prev == x && Untouched(l, p, p, n, n)
             && (p != anchor ==> anchor.next == old(anchor.next)) && (n != anchor ==> anchor.prev == old(anchor.prev))
    ensures Ring(anchor, With(l, k, x))
  {
    var m := With(l, k, x);
    assert Distinct(anchor, m);
    forall i | 0 <= i < |m| && i != k
      ensures m[i].next == Succ(anchor, m, i) && m[i].prev == Pred(anchor, m, i)
    {
      var j := if i < k then i else i - 1;
      assert m[i] == l[j] && old(l[j].next) == Succ(anchor, l, j) && old(l[j].prev) == Pred(anchor, l, j);
    }
  }

  lemma DistinctParts(a: Link, l: seq<Link>, k: nat, b: Link)
    requires NoDup(l) && k <= |l| && a !in l && b !in l
    ensures Distinct(a, Front(l, k)) && Distinct(b, Back(l, k))
  {
  }

  /** The ring is cut in front of `l[k]`, whose part of the list is closed around `v`. */
  twostate predicate CutFrom(anchor: Link, l: seq<Link>, k: nat, new v: Link)
    requires k < |l|
    reads anchor, l, v
  {
    var p, z := Pred(anchor, l, k), l[|l| - 1];
    && v.next == l[k] && l[k].prev == v && v.prev == z && z.next == v
    && anchor.prev == p && p.next == anchor && Untouched(l, z, p, l[k], anchor)
    && (p != anchor ==> anchor.next == old(anchor.next))
  }

  twostate lemma RingInFront(new anchor: Link, new l: seq<Link>, k: nat, new v: Link)
    requires old(allocated(anchor)) && old(allocated(l)) && old(Ring(anchor, l)) && k < |l| && v != anchor && v !in l
    requires CutFrom(anchor, l, k, v)
    ensures Ring(anchor, Front(l, k))
  {
    var f := Front(l, k);
    DistinctParts(anchor, l, k, v);
    forall i | 0 <= i < |f|
      ensures f[i].next == Succ(anchor, f, i) && f[i].prev == Pred(anchor, f, i)
    {
      assert f[i] == l[i] && old(l[i].next) == Succ(anchor, l, i) && old(l[i].prev) == Pred(anchor, l, i);
    }
  }

  twostate lemma RingFrom(new anchor: Link, new l: seq<Link>, k: nat, new v: Link)
    requires old(allocated(anchor)) && old(allocated(l)) && old(Ring(anchor, l)) && k < |l| && v != anchor && v !in l
    requires CutFrom(anchor, l, k, v)
    ensures Ring(v, Back(l, k))
  {
    var b := Back(l, k);
    DistinctParts(anchor, l, k, v);
    forall i | 0 <= i < |b|
      ensures b[i].next == Succ(v, b, i) && b[i].prev == Pred(v, b, i)
    {
      var j := k + i;
      assert b[i] == l[j] && old(l[j].next) == Succ(anchor, l, j) && old(l[j].prev) == Pred(anchor, l, j);
    }
  }

  /** The ring is cut behind `l[k - 1]`, and the first part of the list is closed around `v`. */
  twostate predicate CutUntil(anchor: Link, l: seq<Link>, k: nat, new v: Link)
    requires 0 < k <= |l|
    reads anchor, l, v
  {
    var q := Succ(anchor, l, k - 1);
    && v.next == l[0] && l[0].prev == v && v.prev == l[k - 1] && l[k - 1].next == v
    && anchor.next == q && q.prev == anchor && Untouched(l, l[k - 1], anchor, l[0], q)
    && (q != anchor ==> anchor.prev == old(anchor.prev))
  }

  twostate lemma RingUntil(new anchor: Link, new l: seq<Link>, k: nat, new v: Link)
    requires old(allocated(anchor)) && old(allocated(l)) && old(Ring(anchor, l))
    requires 0 < k <= |l| && v != anchor && v !in l && CutUntil(anchor, l, k, v)
    ensures Ring(v, Front(l, k))
  {
    var f := Front(l, k);
    DistinctParts(v, l, k, anchor);
    forall i | 0 <= i < |f|
      ensures f[i].next == Succ(v, f, i) && f[i].prev == Pred(v, f, i)
    {
      assert f[i] == l[i] && old(l[i].next) == Succ(anchor, l, i) && old(l[i].prev) == Pred(anchor, l, i);
    }
  }

  twostate lemma RingBehind(new anchor: Link, new l: seq<Link>, k: nat, new v: Link)
    requires old(allocated(anchor)) && old(allocated(l)) && old(Ring(anchor, l))
    requires 0 < k <= |l| && v != anchor && v !in l && CutUntil(anchor, l, k, v)
    ensures Ring(anchor, Back(l, k))
  {
    var b := Back(l, k);
    DistinctParts(v, l, k, anchor);
    forall i | 0 <= i < |b|
      ensures b[i].next == Succ(anchor, b, i) && b[i].prev == Pred(anchor, b, i)
    {
      var j := k + i;
      assert b[i] == l[j] && old(l[j].next) == Succ(anchor, l, j) && old(l[j].prev) == Pred(anchor, l, j);
    }
  }

  /** Two rings are joined: `anchor` keeps `l` in front of `m`, which was around `v`. */
  twostate lemma RingJoined(new anchor: Link, new l: seq<Link>, new v: Link, new m: seq<Link>, new keep: Link)
    requires old(allocated(anchor)) && old(allocated(l)) && old(allocated(v)) && old(allocated(m))
    requires old(Ring(anchor, l)) && old(Ring(v, m)) && Disjoint(anchor, l, v, m) && keep in {anchor, v}
    requires m != [] && l != []
    requires var z, y := l[|l| - 1], m[|m| - 1];
             && z.next == m[0] && m[0].prev == z && y.next == keep && keep.prev == y
             && l[0].prev == keep && keep.next == l[0]
             && Untouched(l, z, z, l[0], l[0]) && Untouched(m, y, y, m[0], m[0])
    ensures Ring(keep, Joined(l, m))
  {
    var r := Joined(l, m);
    forall i | 0 <= i < |r|
      ensures r[i].next == Succ(keep, r, i) && r[i].prev == Pred(keep, r, i)
    {
      if i < |l| {
        assert r[i] == l[i] && old(l[i].next) == Succ(anchor, l, i) && old(l[i].prev) == Pred(anchor, l, i);
      } else {
        var j := i - |l|;
        assert r[i] == m[j] && old(m[j].next) == Succ(v, m, j) && old(m[j].prev) == Pred(v, m, j);
      }
    }
  }

  /** A ring gets another anchor. */
  twostate lemma RingMoved(v: Link, new m: seq<Link>, new anchor: Link)
    requires old(allocated(m)) && old(Ring(v, m)) && m != [] && anchor != v && anchor !in m
    requires var y := m[|m| - 1];
             && m[0].prev == anchor && y.next == anchor && anchor.next == m[0] && anchor.prev == y
             && Untouched(m, y, y, m[0], m[0])
    ensures Ring(anchor, m)
  {
    forall i | 0 <= i < |m|
      ensures m[i].next == Succ(anchor, m, i) && m[i].prev == Pred(anchor, m, i)
    {
      assert old(m[i].next) == Succ(v, m, i) && old(m[i].prev) == Pred(v, m, i);
    }
  }

  // ------------------------------------------------------- LIST_..D operations

  class ListD {
    const anchor: Link
    ghost var links: seq<Link>

    ghost predicate Valid()
      reads this, anchor, links
    {
      Ring(anchor, links)
    }

    constructor ()
      ensures fresh(anchor) && Valid() && links == []
    {
      anchor := new Link();
      links := [];
    }

    /** `LIST_initD`. */
    method Init()
      modifies this, anchor
      ensures Valid() && links == []
    {
      anchor.next, anchor.prev := anchor, anchor;
      links := [];
    }

    /** `LIST_emptyD`. */
    method Empty() returns (empty: bool)
      requires Valid()
      ensures empty <==> links == []
    {
      empty := anchor.next == anchor;
    }

    /**
     `LIST_unlinkD`: takes `links[k]` out. The anchor may be unlinked from the
     empty list (`k == 0`), which changes nothing. The link keeps its pointers.
     */
    method Unlink(link: Link, ghost k: nat)
      requires Valid()
      requires (k < |links| && links[k] == link) || (links == [] && k == 0 && link == anchor)
      modifies this, link.prev, link.next
      ensures Valid()
      ensures links == if old(links) == [] then [] else old(links)[..k] + old(links)[k + 1..]
      ensures link.next == old(link.next) && link.prev == old(link.prev)
    {
      ghost var l := links;
      link.prev.next := link.next;
      link.next.prev := link.prev;
      if l != [] {
        links := Without(l, k);
        RingWithout(anchor, l, k);
      }
    }

    /**
     The note on `LIST_unlinkD` promises that nothing happens when the anchor is
     unlinked. That is so exactly for the empty list; otherwise the ring is closed
     without the anchor and the list is lost.
     */
    method UnlinkAnchor()
      requires Valid()
      modifies this, anchor.prev, anchor.next
      ensures links == old(links)
      ensures Valid() <==> links == []
    {
      var link := anchor;
      link.prev.next := link.next;
      link.next.prev := link.prev;
    }

    /** `LIST_shiftD`: the first link, or the anchor of an empty list. */
    method Shift() returns (link: Link)
      requires Valid()
      modifies this, anchor, links
      ensures Valid()
      ensures old(links) == [] ==> link == anchor && links == []
      ensures old(links) != [] ==> old(links) == [link] + links
    {
      link := anchor.next;
      ghost var l := links;
      assert l != [] ==> l == [l[0]] + l[1..] && l[..0] + l[1..] == l[1..];
      Unlink(link, 0);
    }

    /** `LIST_popD`: the last link, or the anchor of an empty list. */
    method Pop() returns (link: Link)
      requires Valid()
      modifies this, anchor, links
      ensures Valid()
      ensures old(links) == [] ==> link == anchor && links == []
      ensures old(links) != [] ==> old(links) == links + [link]
    {
      link := anchor.prev;
      Unlink(link, if links == [] then 0 else |links| - 1);
    }

    /** `LIST_insertD`: behind `prev`, which is the anchor or a link of the list. */
    method Insert(prev: Link, link: Link, ghost k: nat)
      requires Valid()
      requires k <= |links| && prev == Pred(anchor, links, k)
      requires link != anchor && link !in links
      modifies this, link, prev, prev.next
      ensures Valid()
      ensures links == old(links)[..k] + [link] + old(links)[k..]
    {
      ghost var l := links;
      link.next := prev.next;
      link.prev := prev;
      prev.next.prev := link;
      prev.next := link;
      links := With(l, k, link);
      RingWith(anchor, l, k, link);
    }

    /** `LIST_pushD`. */
    method Push(link: Link)
      requires Valid() && link != anchor && link !in links
      modifies this, link, anchor, links
      ensures Valid() && links == old(links) + [link]
    {
      Insert(anchor.prev, link, |links|);
    }

    /** `LIST_unshiftD`. */
    method Unshift(link: Link)
      requires Valid() && link != anchor && link !in links
      modifies this, link, anchor, links
      ensures Valid() && links == [link] + old(links)
    {
      Insert(anchor, link, 0);
    }

    /** `LIST_separateFromD`: the links from the pivot on go to the new list, which may be uninitialized. */
    method SeparateFrom(newList: ListD, pivot: Link, ghost k: nat)
      requires Valid() && k <= |links| && pivot == Succ(anchor, links, k - 1)
      requires newList != this && newList.anchor != anchor && newList.anchor !in links
      modifies this, newList, anchor, newList.anchor, links
      ensures Valid() && newList.Valid()
      ensures links == old(links)[..k] && newList.links == old(links)[k..]
    {
      ghost var l := links;
      if pivot != anchor {
        ghost var p, z := Pred(anchor, l, k), l[|l| - 1];
        assert l[k] == pivot && pivot.prev == p && anchor.prev == z;
        newList.anchor.next := pivot;
        newList.anchor.prev := anchor.prev;
        newList.anchor.prev.next := newList.anchor;
        anchor.prev := pivot.prev;
        assert anchor.prev == p && newList.anchor.prev == z;
        anchor.prev.next := anchor;
        pivot.prev := newList.anchor;
        newList.links, links := Back(l, k), Front(l, k);
        RingInFront(anchor, l, k, newList.anchor);
        RingFrom(anchor, l, k, newList.anchor);
      } else {
        newList.Init();
      }
    }

    /** `LIST_separateUntilD`: the links in front of the pivot go to the new list. */
    method SeparateUntil(newList: ListD, pivot: Link, ghost k: nat)
      requires Valid() && k <= |links| && pivot == Succ(anchor, links, k - 1)
      requires newList != this && newList.anchor != anchor && newList.anchor !in links
      modifies this, newList, anchor, newList.anchor, links
      ensures Valid() && newList.Valid()
      ensures newList.links == old(links)[..k] && links == old(links)[k..]
    {
      ghost var l := links;
      if pivot != anchor.next {
        newList.anchor.next := anchor.next;
        newList.anchor.next.prev := newList.anchor;
        newList.anchor.prev := pivot.prev;
        newList.anchor.prev.next := newList.anchor;
        anchor.next := pivot;
        pivot.prev := anchor;
        newList.links, links := Front(l, k), Back(l, k);
        RingUntil(anchor, l, k, newList.anchor);
        RingBehind(anchor, l, k, newList.anchor);
      } else {
        newList.Init();
      }
    }

    /** `LIST_concatenatePushD`. */
    method ConcatenatePush(src: ListD)
      requires Valid() && src.Valid() && src != this && Disjoint(anchor, links, src.anchor, src.links)
      modifies this, src, anchor, src.anchor, links, src.links
      ensures Valid() && src.Valid()
      ensures links == old(links) + old(src.links) && src.links == []
    {
      ghost var l, m := links, src.links;
      if src.anchor.next != src.anchor {
        src.anchor.next.prev := anchor.prev;
        src.anchor.prev.next := anchor;
        anchor.prev.next := src.anchor.next;
        anchor.prev := src.anchor.prev;
        links := Joined(l, m);
        if l != [] { RingJoined(anchor, l, src.anchor, m, anchor); } else { RingMoved(src.anchor, m, anchor); }
        src.Init();
      }
    }

    /** `LIST_concatenateUnshiftD`. */
    method ConcatenateUnshift(src: ListD)
      requires Valid() && src.Valid() && src != this && Disjoint(anchor, links, src.anchor, src.links)
      modifies this, src, anchor, src.anchor, links, src.links
      ensures Valid() && src.Valid()
      ensures links == old(src.links) + old(links) && src.links == []
    {
      ghost var l, m := links, src.links;
      if src.anchor.next != src.anchor {
        src.anchor.next.prev := anchor;
        src.anchor.prev.next := anchor.next;
        anchor.next.prev := src.anchor.prev;
        anchor.next := src.anchor.next;
        links := Joined(m, l);
        if l != [] { RingJoined(src.anchor, m, anchor, l, anchor); } else { RingMoved(src.anchor, m, anchor); }
        src.Init();
      }
    }

    /** `LIST_fromVectorD`: the links of a vector's elements, in order. */
    method FromVector(vector: seq<Link>)
      requires anchor !in vector && NoDup(vector)
      modifies this, anchor, vector
      ensures Valid() && links == vector
    {
      var prev := anchor;
      for n := 0 to |vector|
        invariant prev == Pred(anchor, vector, n)
        invariant n > 0 ==> anchor.next == vector[0]
        invariant forall i :: 0 <= i < n ==> vector[i].prev == Pred(anchor, vector, i)
        invariant forall i :: 0 <= i < n - 1 ==> vector[i].next == vector[i + 1]
      {
        var link := vector[n];
        link.prev := prev;
        prev.next := link;
        prev := link;
      }
      prev.next := anchor;
      anchor.prev := prev;
      links := vector;
    }

    /** `LIST_atD`: the `n`-th link, or the anchor one step behind the last one. */
    method At(n: nat) returns (link: Link)
      requires Valid() && n <= |links|
      ensures link == Succ(anchor, links, n - 1)
    {
      link := anchor.next;
      for i := 0 to n
        invariant link == Succ(anchor, links, i - 1)
      {
        link := link.next;
      }
    }
  }

  // ------------------------------------------------------ LIST_..DC operations

  class ListDC {
    const listD: ListD
    var length: nat
    /** Lazy counting: `length` is meaningless while this is set. */
    var tainted: bool

    ghost function Links(): seq<Link>
      reads this, listD
    {
      listD.links
    }

    ghost predicate Valid()
      reads this, listD, listD.anchor, listD.links
    {
      && listD.Valid()
      && |listD.links| < SIZE && length < SIZE
      && (!tainted ==> length == |listD.links|)
    }

    constructor ()
      ensures fresh(listD) && fresh(listD.anchor) && Valid() && Links() == [] && !tainted
    {
      listD := new ListD();
      length, tainted := 0, false;
    }

    /** `LIST_initDC`. */
    method Init()
      modifies this, listD, listD.anchor
      ensures Valid() && Links() == [] && !tainted
    {
      listD.Init();
      length, tainted := 0, false;
    }

    /** `LIST_lengthDC`: counts only if the counter is out of date. */
    method Length() returns (n: nat)
      requires Valid()
      modifies this
      ensures Valid() && n == |Links()| && !tainted && length == n
    {
      if tainted {
        length := 0;
        var link := listD.anchor.next;
        while link != listD.anchor
          invariant length <= |listD.links| && link == Succ(listD.anchor, listD.links, length - 1)
          decreases |listD.links| - length
        {
          length := length + 1;
          link := link.next;
        }
        tainted := false;
      }
      n := length;
    }

    /** What `size_t` subtraction leaves of the counter. */
    static function Minus(a: nat, b: nat): nat
      requires a < SIZE && b < SIZE
    {
      if b <= a then a - b else a + SIZE - b
    }

    /** `LIST_unlinkDC`: the counter wraps around if it was out of date and zero. */
    method Unlink(link: Link, ghost k: nat)
      requires Valid()
      requires (k < |Links()| && Links()[k] == link) || (Links() == [] && k == 0 && link == listD.anchor)
      modifies this, listD, link.prev, link.next
      ensures Valid() && tainted == old(tainted)
      ensures Links() == if old(Links()) == [] then [] else old(Links())[..k] + old(Links())[k + 1..]
      ensures link.next == old(link.next) && link.prev == old(link.prev)
    {
      if tainted || length != 0 {
        listD.Unlink(link, k);
        length := if length == 0 then SIZE - 1 else length - 1;
      }
    }

    /**
     The note on `LIST_unlinkDC` makes the same promise about the anchor. Nothing
     happens only if the counter says that the list is empty. Otherwise the counter
     is decremented, and the list is lost unless it is empty.
     */
    method UnlinkAnchor()
      requires Valid()
      modifies this`length, listD, listD.anchor.prev, listD.anchor.next
      ensures Links() == old(Links()) && tainted == old(tainted)
      ensures length == if !tainted && old(length) == 0 then 0 else Minus(old(length), 1)
      ensures Valid() <==> Links() == []
    {
      if tainted || length != 0 {
        listD.UnlinkAnchor();
        length := if length == 0 then SIZE - 1 else length - 1;
      }
    }

    /** `LIST_shiftDC`. */
    method Shift() returns (link: Link)
      requires Valid()
      modifies this, listD, listD.anchor, listD.links
      ensures Valid() && tainted == old(tainted)
      ensures old(Links()) == [] ==> link == listD.anchor && Links() == []
      ensures old(Links()) != [] ==> old(Links()) == [link] + Links()
    {
      link := listD.anchor.next;
      Unlink(link, 0);
    }

    /** `LIST_popDC`. */
    method Pop() returns (link: Link)
      requires Valid()
      modifies this, listD, listD.anchor, listD.links
      ensures Valid() && tainted == old(tainted)
      ensures old(Links()) == [] ==> link == listD.anchor && Links() == []
      ensures old(Links()) != [] ==> old(Links()) == Links() + [link]
    {
      link := listD.anchor.prev;
      Unlink(link, if Links() == [] then 0 else |Links()| - 1);
    }

    /** `LIST_insertDC`. */
    method Insert(prev: Link, link: Link, ghost k: nat)
      requires Valid() && |Links()| + 1 < SIZE
      requires k <= |Links()| && prev == Pred(listD.anchor, Links(), k)
      requires link != listD.anchor && link !in Links()
      modifies this, listD, link, prev, prev.next
      ensures Valid() && tainted == old(tainted)
      ensures Links() == old(Links())[..k] + [link] + old(Links())[k..]
    {
      listD.Insert(prev, link, k);
      length := if length == SIZE - 1 then 0 else length + 1;
    }

    /** `LIST_pushDC`. */
    method Push(link: Link)
      requires Valid() && |Links()| + 1 < SIZE && link != listD.anchor && link !in Links()
      modifies this, listD, link, listD.anchor, listD.links
      ensures Valid() && tainted == old(tainted) && Links() == old(Links()) + [link]
    {
      Insert(listD.anchor.prev, link, |Links()|);
    }

    /** `LIST_unshiftDC`. */
    method Unshift(link: Link)
      requires Valid() && |Links()| + 1 < SIZE && link != listD.anchor && link !in Links()
      modifies this, listD, link, listD.anchor, listD.links
      ensures Valid() && tainted == old(tainted) && Links() == [link] + old(Links())
    {
      Insert(listD.anchor, link, 0);
    }

    ghost predicate Apart(other: ListDC)
      reads this, listD, other, other.listD
    {
      && other != this && other.listD != listD && other.listD.anchor != listD.anchor
      && other.listD.anchor !in Links()
    }

    /** `LIST_separateFromDC`: both counters are out of date, unless nothing was to be separated. */
    method SeparateFrom(newList: ListDC, pivot: Link, ghost k: nat)
      requires Valid() && Apart(newList) && newList.length < SIZE
      requires k <= |Links()| && pivot == Succ(listD.anchor, Links(), k - 1)
      modifies this, newList, listD, newList.listD, listD.anchor, newList.listD.anchor, listD.links
      ensures Valid() && newList.Valid() && length == old(length)
      ensures Links() == old(Links())[..k] && newList.Links() == old(Links())[k..]
      ensures tainted == (old(tainted) || k < |old(Links())|) && newList.tainted == (k < |old(Links())|)
    {
      hide Linked;
      if pivot != listD.anchor {
        listD.SeparateFrom(newList.listD, pivot, k);
        tainted, newList.tainted := true, true;
      } else {
        newList.Init();
      }
    }

    /** `LIST_separateUntilDC`. */
    method SeparateUntil(newList: ListDC, pivot: Link, ghost k: nat)
      requires Valid() && Apart(newList) && newList.length < SIZE
      requires k <= |Links()| && pivot == Succ(listD.anchor, Links(), k - 1)
      modifies this, newList, listD, newList.listD, listD.anchor, newList.listD.anchor, listD.links
      ensures Valid() && newList.Valid() && length == old(length)
      ensures newList.Links() == old(Links())[..k] && Links() == old(Links())[k..]
      ensures tainted && newList.tainted
    {
      hide Linked;
      listD.SeparateUntil(newList.listD, pivot, k);
      tainted, newList.tainted := true, true;
    }

    /**
     `LIST_separateFromFixDC`. It takes the old counter at face value, so the
     list is counted correctly afterwards exactly if it was before.
     */
    method SeparateFromFix(newList: ListDC, pivot: Link, ghost k: nat)
      requires Valid() && Apart(newList) && newList.length < SIZE
      requires k <= |Links()| && pivot == Succ(listD.anchor, Links(), k - 1)
      modifies this, newList, listD, newList.listD, listD.anchor, newList.listD.anchor, listD.links
      ensures newList.Valid() && !newList.tainted && !tainted && listD.Valid()
      ensures Links() == old(Links())[..k] && newList.Links() == old(Links())[k..]
      ensures Valid() <==> old(length) == |old(Links())|
    {
      hide Linked;
      SeparateFrom(newList, pivot, k);
      var n := newList.Length();
      length := Minus(length, newList.length);
      tainted := false;
    }

    /** `LIST_separateUntilFixDC`: as for `SeparateFromFix`. */
    method SeparateUntilFix(newList: ListDC, pivot: Link, ghost k: nat)
      requires Valid() && Apart(newList) && newList.length < SIZE
      requires k <= |Links()| && pivot == Succ(listD.anchor, Links(), k - 1)
      modifies this, newList, listD, newList.listD, listD.anchor, newList.listD.anchor, listD.links
      ensures newList.Valid() && !newList.tainted && !tainted && listD.Valid()
      ensures newList.Links() == old(Links())[..k] && Links() == old(Links())[k..]
      ensures Valid() <==> old(length) == |old(Links())|
    {
      hide Linked;
      SeparateUntil(newList, pivot, k);
      var n := newList.Length();
      length := Minus(length, newList.length);
      tainted := false;
    }

    ghost predicate CanConcatenate(src: ListDC)
      reads this, listD, src, src.listD
    {
      && src != this && src.listD != listD
      && Disjoint(listD.anchor, Links(), src.listD.anchor, src.Links())
      && |Links()| + |src.Links()| < SIZE
    }

    /** `LIST_concatenatePushDC`. */
    method ConcatenatePush(src: ListDC)
      requires Valid() && src.Valid() && CanConcatenate(src)
      modifies this, src, listD, src.listD, listD.anchor, src.listD.anchor, listD.links, src.listD.links
      ensures Valid() && src.Valid()
      ensures Links() == old(Links()) + old(src.Links()) && src.Links() == []
      ensures tainted == (old(tainted) || (old(src.Links()) != [] && old(src.tainted)))
    {
      hide Linked;
      var empty := src.listD.Empty();
      if !empty {
        listD.ConcatenatePush(src.listD);
        tainted := tainted || src.tainted;
        length := (length + src.length) % SIZE;
        src.Init();
      }
    }

    /** `LIST_concatenateUnshiftDC`. */
    method ConcatenateUnshift(src: ListDC)
      requires Valid() && src.Valid() && CanConcatenate(src)
      modifies this, src, listD, src.listD, listD.anchor, src.listD.anchor, listD.links, src.listD.links
      ensures Valid() && src.Valid()
      ensures Links() == old(src.Links()) + old(Links()) && src.Links() == []
      ensures tainted == (old(tainted) || (old(src.Links()) != [] && old(src.tainted)))
    {
      hide Linked;
      var empty := src.listD.Empty();
      if !empty {
        listD.ConcatenateUnshift(src.listD);
        tainted := tainted || src.tainted;
        length := (length + src.length) % SIZE;
        src.Init();
      }
    }

    /** `LIST_fromVectorDC`. */
    method FromVector(vector: seq<Link>)
      requires |vector| < SIZE
      requires listD.anchor !in vector && NoDup(vector)
      modifies this, listD, listD.anchor, vector
      ensures Valid() && !tainted && Links() == vector
    {
      listD.FromVector(vector);
      length, tainted := |vector|, false;
    }

    /**
     How that goes wrong: every list whose tail is separated without fixing the
     counter is miscounted, and claims not to be, once the counter is fixed later.
     */
    method SeparateThenFix(tail: ListDC, rest: ListDC, pivot: Link, ghost k: nat)
      requires Valid() && !tainted && k < |Links()| && pivot == Links()[k]
      requires Apart(tail) && Apart(rest) && tail.length < SIZE && rest.length < SIZE
      requires tail != rest && tail.listD != rest.listD && tail.listD.anchor != rest.listD.anchor
      modifies this, tail, rest, listD, tail.listD, rest.listD
      modifies listD.anchor, tail.listD.anchor, rest.listD.anchor, listD.links
      ensures listD.Valid() && Links() == old(Links())[..k]
      ensures !tainted && !Valid()
    {
      hide Linked;
      SeparateFrom(tail, pivot, k);
      assert rest.listD.anchor !in Links();
      SeparateFromFix(rest, listD.anchor, k);
    }
  }
}
