/**
 Model of src/core/buffer.c: a bounded drop-oldest frame queue over a static
 pool and dynamic pools, with a two-phase garbage collector.

 A frame is named by its address: the pool it was allocated in and its index
 there. Pool 0 is the static pool; dynamic pools get identifiers that are never
 reused, as memory handed out by `malloc` is disjoint from all live memory.
 The lists of src/util/list.h appear as sequences, head first.
 */
module BufferState {
  import opened Options
  import opened Bytes

  type Payload = seq<byte>

  datatype Frame = Frame(pool: nat, idx: nat)

  datatype Pool = Pool(id: nat, size: nat, collect: seq<Frame>)

  datatype Config = Config(statBacklog: nat, dynBacklog: nat, dynIncrement: nat, history: bool) {
    /** `dynMaxPools` as `construct` computes it. */
    function DynMaxPools(): nat { if history then dynIncrement else 0 }

    /** `cfgFix` raises the static backlog to 2; dynamic pools need frames. */
    predicate Valid() { statBacklog >= 2 && (DynMaxPools() > 0 ==> dynBacklog >= 1) }
  }

  /** The variables of the module; `data` is the content of the frames written so far. */
  datatype Buf = Buf(
    pool: seq<Frame>,
    queue: seq<Frame>,
    dynPools: seq<Pool>,
    newFrame: Option<Frame>,
    currentFrame: Option<Frame>,
    nextId: nat,
    data: map<Frame, Payload>)
  {
    function Content(f: Frame): Payload { if f in data then data[f] else [] }
  }

  function FramesOf(id: nat, size: nat): (r: seq<Frame>)
    ensures |r| == size
  {
    seq(size, (i: nat) => Frame(id, i))
  }

  function Constructed(cfg: Config): Buf {
    Buf(FramesOf(0, cfg.statBacklog), [], [], None, None, 1, map[])
  }

  // ---------------------------------------------------------------- the code

  /** `uncollectPools`: put the first non-empty collection back into the overall pool. */
  function HasCollected(pools: seq<Pool>): bool {
    exists i :: 0 <= i < |pools| && pools[i].collect != []
  }

  function FirstCollected(pools: seq<Pool>): (i: nat)
    requires HasCollected(pools)
    ensures i < |pools| && pools[i].collect != []
    ensures forall k :: 0 <= k < i ==> pools[k].collect == []
  {
    if pools[0].collect != [] then 0
    else
      var k :| 0 <= k < |pools| && pools[k].collect != [];
      assert pools[1..][k - 1] == pools[k];
      1 + FirstCollected(pools[1..])
  }

  function Uncollected(b: Buf): Buf
    requires HasCollected(b.dynPools)
  {
    var i := FirstCollected(b.dynPools);
    b.(pool := b.pool + b.dynPools[i].collect,
       dynPools := b.dynPools[i := b.dynPools[i].(collect := [])])
  }

  /** `createDynPool` when both allocations succeed. */
  function Created(cfg: Config, b: Buf): Buf {
    b.(pool := b.pool + FramesOf(b.nextId, cfg.dynBacklog),
       dynPools := b.dynPools + [Pool(b.nextId, cfg.dynBacklog, [])],
       nextId := b.nextId + 1)
  }

  /** The branch taken by `getFrameFromPool`; `malloc` says whether memory is available. */
  datatype Source = FromPool | FromCollected | FromNewPool | FromQueue

  function SourceOf(cfg: Config, b: Buf, malloc: bool): Source {
    if b.pool != [] then FromPool
    else if HasCollected(b.dynPools) then FromCollected
    else if |b.dynPools| < cfg.DynMaxPools() && malloc then FromNewPool
    else FromQueue
  }

  /** `BUF_newFrame`. No frame is handed out where `assert(ret)` would fail. */
  function Renewed(cfg: Config, b: Buf, malloc: bool): Buf {
    var src := SourceOf(cfg, b, malloc);
    if src == FromQueue then
      if b.queue == [] then b
      else b.(queue := b.queue[1..], newFrame := Some(b.queue[0]))
    else
      var c := if src == FromPool then b else if src == FromCollected then Uncollected(b) else Created(cfg, b);
      if c.pool == [] then c
      else c.(pool := c.pool[1..], newFrame := Some(c.pool[0]))
  }

  function Hand(f: Option<Frame>): seq<Frame> { if f.Some? then [f.value] else [] }

  function Committed(b: Buf): Buf {
    b.(queue := b.queue + Hand(b.newFrame), newFrame := None)
  }

  function Aborted(b: Buf): Buf {
    b.(pool := Hand(b.newFrame) + b.pool, newFrame := None)
  }

  /** `BUF_getFrame`, and `BUF_getFrameTimeout` when a frame is there. */
  function Gotten(b: Buf): Buf {
    if b.queue == [] then b else b.(queue := b.queue[1..], currentFrame := Some(b.queue[0]))
  }

  function Released(b: Buf): Buf {
    b.(pool := Hand(b.currentFrame) + b.pool, currentFrame := None)
  }

  function PutBack(b: Buf): Buf {
    b.(queue := Hand(b.currentFrame) + b.queue, currentFrame := None)
  }

  function Flushed(b: Buf): Buf {
    b.(pool := b.pool + b.queue, queue := [])
  }

  /** The pool a frame's back link points to: its place in the list of dynamic pools. */
  function Find(pools: seq<Pool>, id: nat): (r: Option<nat>)
    ensures r.Some? ==> r.value < |pools| && pools[r.value].id == id
    ensures r.None? <==> forall i :: 0 <= i < |pools| ==> pools[i].id != id
  {
    if pools == [] then None
    else if pools[0].id == id then Some(0)
    else
      var r := Find(pools[1..], id);
      assert forall i :: 1 <= i < |pools| ==> pools[i] == pools[1..][i - 1];
      if r.None? then None else Some(r.value + 1)
  }

  /** `LIST_unshift(&frame->pool->collect, frame)`. */
  function Unshift(pools: seq<Pool>, f: Frame): (r: seq<Pool>)
    ensures |r| == |pools|
  {
    var i := Find(pools, f.pool);
    if i.None? then pools
    else pools[i.value := pools[i.value].(collect := [f] + pools[i.value].collect)]
  }

  /** `collectPools`, frame by frame: what stays in the overall pool, and the pools. */
  function Collect(frames: seq<Frame>, pools: seq<Pool>): (seq<Frame>, seq<Pool>) {
    if frames == [] then ([], pools)
    else if frames[0].pool == 0 then
      var (kept, ps) := Collect(frames[1..], pools);
      ([frames[0]] + kept, ps)
    else
      Collect(frames[1..], Unshift(pools, frames[0]))
  }

  /** `destroyUnusedPools`. */
  function Survivors(pools: seq<Pool>): seq<Pool> {
    if pools == [] then []
    else (if |pools[0].collect| == pools[0].size then [] else [pools[0]]) + Survivors(pools[1..])
  }

  function Collected(b: Buf): Buf {
    var (kept, ps) := Collect(b.pool, b.dynPools);
    b.(pool := kept, dynPools := ps)
  }

  /** `gc`. */
  function Swept(b: Buf): Buf {
    var c := Collected(b);
    c.(dynPools := Survivors(c.dynPools))
  }

  // --------------------------------------------------------------- invariant

  function Times(s: seq<Frame>, f: Frame): nat { multiset(s)[f] }

  /** How often `f` occurs in the collection of its own pool. */
  function TimesCollected(pools: seq<Pool>, f: Frame): nat {
    var i := Find(pools, f.pool);
    if i.None? then 0 else Times(pools[i.value].collect, f)
  }

  /** In how many places `f` is: overall pool, queue, hands, collection. */
  function Places(b: Buf, f: Frame): nat {
    Times(b.pool, f) + Times(b.queue, f) + Times(Hand(b.newFrame), f) + Times(Hand(b.currentFrame), f)
    + TimesCollected(b.dynPools, f)
  }

  /** `f` is queued or in a hand. */
  predicate Busy(b: Buf, f: Frame) {
    f in b.queue || b.newFrame == Some(f) || b.currentFrame == Some(f)
  }

  /** `f` is a frame of the static pool or of a dynamic pool that is not freed. */
  predicate Live(cfg: Config, b: Buf, f: Frame) {
    var i := Find(b.dynPools, f.pool);
    if f.pool == 0 then f.idx < cfg.statBacklog
    else i.Some? && f.idx < b.dynPools[i.value].size
  }

  ghost predicate Distinct(pools: seq<Pool>) {
    forall i, j :: 0 <= i < j < |pools| ==> pools[i].id != pools[j].id
  }

  ghost predicate OwnFramesOnly(p: Pool) {
    forall f :: f in p.collect ==> f.pool == p.id
  }

  ghost predicate PoolsOk(cfg: Config, b: Buf) {
    && |b.dynPools| <= cfg.DynMaxPools()
    && Distinct(b.dynPools)
    && 0 < b.nextId
    && forall i :: 0 <= i < |b.dynPools| ==>
         && 0 < b.dynPools[i].id < b.nextId
         && b.dynPools[i].size == cfg.dynBacklog
         && OwnFramesOnly(b.dynPools[i])
  }

  /**
   The invariant: each frame of each live pool is in exactly one place, no other
   frame is anywhere, collections hold frames of their own pool, and the pool
   limit is respected.
   */
  ghost predicate Inv(cfg: Config, b: Buf) {
    && PoolsOk(cfg, b)
    && forall f: Frame :: Places(b, f) == if Live(cfg, b, f) then 1 else 0
  }

  // ------------------------------------------------------------------- lemmas

  lemma TimesIn(s: seq<Frame>, f: Frame)
    ensures Times(s, f) > 0 <==> f in s
  {
    assert f in s <==> f in multiset(s);
  }

  lemma TimesConcat(s: seq<Frame>, t: seq<Frame>, f: Frame)
    ensures Times(s + t, f) == Times(s, f) + Times(t, f)
  {
  }

  lemma TimesHead(s: seq<Frame>, f: Frame)
    requires s != []
    ensures Times(s, f) == Times([s[0]], f) + Times(s[1..], f)
  {
    assert s == [s[0]] + s[1..];
  }

  lemma {:induction false} TimesFramesOf(id: nat, size: nat, f: Frame)
    ensures Times(FramesOf(id, size), f) == if f.pool == id && f.idx < size then 1 else 0
  {
    if size == 0 {
      assert FramesOf(id, 0) == [];
    } else {
      TimesFramesOf(id, size - 1, f);
      assert FramesOf(id, size) == FramesOf(id, size - 1) + [Frame(id, size - 1)];
    }
  }

  lemma FindUnique(pools: seq<Pool>, i: nat)
    requires Distinct(pools) && i < |pools|
    ensures Find(pools, pools[i].id) == Some(i)
  {
  }

  lemma SameSizeSubset(a: multiset<Frame>, b: multiset<Frame>)
    requires a <= b && |a| == |b|
    ensures a == b
  {
    assert b == a + (b - a);
    assert |b| == |a| + |b - a|;
  }

  /** A frame that is in some place is in no other, and busy frames are live. */
  lemma InOnePlace(cfg: Config, b: Buf, f: Frame)
    requires Inv(cfg, b)
    ensures f in b.pool ==> !Busy(b, f) && Live(cfg, b, f)
    ensures Busy(b, f) ==> Live(cfg, b, f)
    ensures f in b.queue ==> b.newFrame != Some(f) && b.currentFrame != Some(f)
    ensures b.newFrame == Some(f) ==> b.currentFrame != Some(f)
    ensures Busy(b, f) || f in b.pool ==> TimesCollected(b.dynPools, f) == 0
    ensures Live(cfg, b, f) && !Busy(b, f) && f !in b.pool ==> TimesCollected(b.dynPools, f) == 1
  {
    TimesIn(b.pool, f);
    TimesIn(b.queue, f);
    TimesIn(Hand(b.newFrame), f);
    TimesIn(Hand(b.currentFrame), f);
    assert Places(b, f) == if Live(cfg, b, f) then 1 else 0;
  }

  /**
   Pigeonhole: the collection of a pool holds no frame twice and only its own,
   so it is complete exactly when no frame of the pool is anywhere else.
   */
  lemma FullCollection(cfg: Config, b: Buf, i: nat)
    requires Inv(cfg, b) && i < |b.dynPools|
    ensures |b.dynPools[i].collect| <= b.dynPools[i].size
    ensures |b.dynPools[i].collect| == b.dynPools[i].size <==>
            forall f :: Busy(b, f) || f in b.pool ==> f.pool != b.dynPools[i].id
  {
    var p := b.dynPools[i];
    var mine, all := multiset(p.collect), multiset(FramesOf(p.id, p.size));
    FindUnique(b.dynPools, i);
    forall f
      ensures mine[f] <= all[f]
      ensures f.pool == p.id && (Busy(b, f) || f in b.pool) ==> mine[f] == 0 && all[f] == 1
      ensures mine[f] < all[f] ==> f.pool == p.id && (Busy(b, f) || f in b.pool)
    {
      InOnePlace(cfg, b, f);
      TimesFramesOf(p.id, p.size, f);
      TimesIn(p.collect, f);
      assert Places(b, f) == if Live(cfg, b, f) then 1 else 0;
    }
    assert mine <= all;
    assert all == mine + (all - mine);
    assert |mine| == |p.collect| && |all| == p.size;
    if |mine| == |all| {
      SameSizeSubset(mine, all);
    } else {
      var f :| f in all - mine;
      assert mine[f] < all[f];
    }
  }
}
