/** What each operation of the frame buffer keeps, and what it is for. */
module BufferSteps {
  import opened Options
  import opened BufferState

  lemma ConstructedIsSound(cfg: Config)
    ensures Inv(cfg, Constructed(cfg))
  {
    var b := Constructed(cfg);
    forall f: Frame
      ensures Places(b, f) == if Live(cfg, b, f) then 1 else 0
    {
      TimesFramesOf(0, cfg.statBacklog, f);
    }
  }

  // --------------------------------------------------- moving a single frame

  /** Frames may move between places as long as none appears or disappears. */
  lemma MovesKeep(cfg: Config, b: Buf, c: Buf)
    requires Inv(cfg, b)
    requires c.dynPools == b.dynPools && c.nextId == b.nextId
    requires forall f: Frame :: Places(c, f) == Places(b, f)
    ensures Inv(cfg, c)
  {
  }

  lemma CommitKeeps(cfg: Config, b: Buf)
    requires Inv(cfg, b)
    ensures Inv(cfg, Committed(b))
  {
    forall f: Frame
      ensures Places(Committed(b), f) == Places(b, f)
    {
      TimesConcat(b.queue, Hand(b.newFrame), f);
    }
    MovesKeep(cfg, b, Committed(b));
  }

  lemma AbortKeeps(cfg: Config, b: Buf)
    requires Inv(cfg, b)
    ensures Inv(cfg, Aborted(b))
  {
    forall f: Frame
      ensures Places(Aborted(b), f) == Places(b, f)
    {
      TimesConcat(Hand(b.newFrame), b.pool, f);
    }
    MovesKeep(cfg, b, Aborted(b));
  }

  lemma GetKeeps(cfg: Config, b: Buf)
    requires Inv(cfg, b) && b.currentFrame.None?
    ensures Inv(cfg, Gotten(b))
  {
    if b.queue != [] {
      forall f: Frame
        ensures Places(Gotten(b), f) == Places(b, f)
      {
        TimesHead(b.queue, f);
      }
      MovesKeep(cfg, b, Gotten(b));
    }
  }

  lemma ReleaseKeeps(cfg: Config, b: Buf)
    requires Inv(cfg, b)
    ensures Inv(cfg, Released(b))
  {
    forall f: Frame
      ensures Places(Released(b), f) == Places(b, f)
    {
      TimesConcat(Hand(b.currentFrame), b.pool, f);
    }
    MovesKeep(cfg, b, Released(b));
  }

  lemma PutKeeps(cfg: Config, b: Buf)
    requires Inv(cfg, b)
    ensures Inv(cfg, PutBack(b))
  {
    forall f: Frame
      ensures Places(PutBack(b), f) == Places(b, f)
    {
      TimesConcat(Hand(b.currentFrame), b.queue, f);
    }
    MovesKeep(cfg, b, PutBack(b));
  }

  lemma FlushKeeps(cfg: Config, b: Buf)
    requires Inv(cfg, b)
    ensures Inv(cfg, Flushed(b))
  {
    forall f: Frame
      ensures Places(Flushed(b), f) == Places(b, f)
    {
      TimesConcat(b.pool, b.queue, f);
    }
    MovesKeep(cfg, b, Flushed(b));
  }

  // ------------------------------------------------------------ BUF_newFrame

  lemma SameIds(pools: seq<Pool>, qools: seq<Pool>, id: nat)
    requires Distinct(pools) && |pools| == |qools|
    requires forall i :: 0 <= i < |pools| ==> pools[i].id == qools[i].id
    ensures Find(qools, id) == Find(pools, id)
  {
  }

  lemma UncollectMoves(pools: seq<Pool>, i: nat, f: Frame)
    requires Distinct(pools) && i < |pools| && OwnFramesOnly(pools[i])
    ensures TimesCollected(pools[i := pools[i].(collect := [])], f) + Times(pools[i].collect, f)
            == TimesCollected(pools, f)
  {
    var qools := pools[i := pools[i].(collect := [])];
    FindUnique(pools, i);
    SameIds(pools, qools, f.pool);
    TimesIn(pools[i].collect, f);
    TimesIn([], f);
  }

  lemma UncollectKeeps(cfg: Config, b: Buf)
    requires Inv(cfg, b) && HasCollected(b.dynPools)
    ensures Inv(cfg, Uncollected(b)) && Uncollected(b).pool != []
  {
    var i := FirstCollected(b.dynPools);
    var p := b.dynPools[i];
    var c := Uncollected(b);
    FindUnique(b.dynPools, i);
    FindUnique(c.dynPools, i);
    forall f: Frame
      ensures Places(c, f) == if Live(cfg, c, f) then 1 else 0
    {
      TimesConcat(b.pool, p.collect, f);
      UncollectMoves(b.dynPools, i, f);
      SameIds(b.dynPools, c.dynPools, f.pool);
      assert Places(b, f) == if Live(cfg, b, f) then 1 else 0;
    }
  }

  lemma FindAppend(pools: seq<Pool>, p: Pool, id: nat)
    requires Distinct(pools + [p])
    ensures Find(pools + [p], id) ==
            if Find(pools, id).Some? then Find(pools, id) else if p.id == id then Some(|pools|) else None
  {
    var q := pools + [p];
    if Find(pools, id).Some? {
      FindUnique(q, Find(pools, id).value);
    } else if p.id == id {
      FindUnique(q, |pools|);
    } else {
      assert forall i :: 0 <= i < |q| ==> q[i].id != id;
    }
  }

  lemma CreateKeeps(cfg: Config, b: Buf)
    requires Inv(cfg, b) && |b.dynPools| < cfg.DynMaxPools()
    ensures Inv(cfg, Created(cfg, b))
  {
    var c := Created(cfg, b);
    var p := Pool(b.nextId, cfg.dynBacklog, []);
    forall f: Frame
      ensures Places(c, f) == if Live(cfg, c, f) then 1 else 0
    {
      var fs := FramesOf(b.nextId, cfg.dynBacklog);
      TimesConcat(b.pool, fs, f);
      TimesFramesOf(b.nextId, cfg.dynBacklog, f);
      assert Places(b, f) == if Live(cfg, b, f) then 1 else 0;
      FindAppend(b.dynPools, p, f.pool);
    }
  }

  lemma NothingCollected(pools: seq<Pool>, f: Frame)
    requires !HasCollected(pools)
    ensures TimesCollected(pools, f) == 0
  {
  }

  /** All frames of the dynamic pools. */
  function DynFrames(pools: seq<Pool>): seq<Frame> {
    if pools == [] then [] else FramesOf(pools[0].id, pools[0].size) + DynFrames(pools[1..])
  }

  lemma {:induction false} DynFramesOnce(pools: seq<Pool>, f: Frame)
    requires Distinct(pools)
    ensures Times(DynFrames(pools), f) ==
            if Find(pools, f.pool).Some? && f.idx < pools[Find(pools, f.pool).value].size then 1 else 0
  {
    if pools != [] {
      DynFramesOnce(pools[1..], f);
      TimesFramesOf(pools[0].id, pools[0].size, f);
      TimesConcat(FramesOf(pools[0].id, pools[0].size), DynFrames(pools[1..]), f);
    }
  }

  lemma {:induction false} DynFramesLength(pools: seq<Pool>, size: nat)
    requires forall i :: 0 <= i < |pools| ==> pools[i].size == size
    ensures |DynFrames(pools)| == |pools| * size
  {
    if pools != [] {
      DynFramesLength(pools[1..], size);
      assert |DynFrames(pools)| == size + (|pools| - 1) * size == |pools| * size;
    }
  }

  /** If all live frames are queued or held by the consumer, they can be counted. */
  lemma CountWhenExhausted(cfg: Config, b: Buf)
    requires Inv(cfg, b) && b.newFrame.None?
    requires forall f :: Live(cfg, b, f) ==> Busy(b, f)
    ensures |b.queue| + |Hand(b.currentFrame)| == cfg.statBacklog + |b.dynPools| * cfg.dynBacklog
  {
    hide FramesOf, DynFrames;
    var busy := b.queue + Hand(b.currentFrame);
    var all := FramesOf(0, cfg.statBacklog) + DynFrames(b.dynPools);
    forall f
      ensures Times(busy, f) == Times(all, f)
    {
      TimesConcat(b.queue, Hand(b.currentFrame), f);
      TimesConcat(FramesOf(0, cfg.statBacklog), DynFrames(b.dynPools), f);
      TimesFramesOf(0, cfg.statBacklog, f);
      DynFramesOnce(b.dynPools, f);
      InOnePlace(cfg, b, f);
      TimesIn(b.pool, f);
      assert Places(b, f) == if Live(cfg, b, f) then 1 else 0;
    }
    assert multiset(busy) == multiset(all) by {
      forall f
        ensures multiset(busy)[f] == multiset(all)[f]
      {
        assert Times(busy, f) == Times(all, f);
      }
    }
    assert |busy| == |multiset(busy)| == |all|;
    DynFramesLength(b.dynPools, cfg.dynBacklog);
  }

  /**
   The oldest frame is sacrificed exactly when the pool limit is reached or
   memory is out, and every live frame waits in the queue or is held by the
   consumer.
   */
  lemma SacrificeOnlyWhenExhausted(cfg: Config, b: Buf, malloc: bool)
    requires Inv(cfg, b) && b.newFrame.None?
    ensures SourceOf(cfg, b, malloc) == FromQueue <==>
              && (forall f :: Live(cfg, b, f) ==> Busy(b, f))
              && (|b.dynPools| == (if cfg.history then cfg.dynIncrement else 0) || !malloc)
  {
    if SourceOf(cfg, b, malloc) == FromQueue {
      forall f | Live(cfg, b, f)
        ensures Busy(b, f)
      {
        NothingCollected(b.dynPools, f);
        InOnePlace(cfg, b, f);
      }
    } else if forall f :: Live(cfg, b, f) ==> Busy(b, f) {
      if SourceOf(cfg, b, malloc) == FromPool {
        InOnePlace(cfg, b, b.pool[0]);
        assert false;
      }
      if SourceOf(cfg, b, malloc) == FromCollected {
        var i := FirstCollected(b.dynPools);
        FullCollection(cfg, b, i);
        var f := b.dynPools[i].collect[0];
        FindUnique(b.dynPools, i);
        TimesIn(b.dynPools[i].collect, f);
        assert Places(b, f) == if Live(cfg, b, f) then 1 else 0;
        InOnePlace(cfg, b, f);
        assert false;
      }
    }
  }

  /**
   When a frame is sacrificed, the frames queued or held by the consumer are as
   many as there are at all: those of the static pool and of the dynamic pools,
   and without allocation failure that is what the configuration allows. So
   there is always one to sacrifice.
   */
  lemma SacrificeCount(cfg: Config, b: Buf, malloc: bool)
    requires cfg.Valid() && Inv(cfg, b) && b.newFrame.None?
    requires SourceOf(cfg, b, malloc) == FromQueue
    ensures |b.queue| + |Hand(b.currentFrame)| == cfg.statBacklog + |b.dynPools| * cfg.dynBacklog
    ensures malloc ==> |b.queue| + |Hand(b.currentFrame)| ==
                       cfg.statBacklog + (if cfg.history then cfg.dynIncrement * cfg.dynBacklog else 0)
    ensures b.queue != []
  {
    SacrificeOnlyWhenExhausted(cfg, b, malloc);
    CountWhenExhausted(cfg, b);
    assert |b.dynPools| * cfg.dynBacklog >= 0;
  }

  lemma TakeKeeps(cfg: Config, c: Buf)
    requires Inv(cfg, c) && c.newFrame.None? && c.pool != []
    ensures Inv(cfg, c.(pool := c.pool[1..], newFrame := Some(c.pool[0])))
  {
    var r := c.(pool := c.pool[1..], newFrame := Some(c.pool[0]));
    forall f: Frame
      ensures Places(r, f) == Places(c, f)
    {
      TimesHead(c.pool, f);
    }
    MovesKeep(cfg, c, r);
  }

  lemma SacrificeKeeps(cfg: Config, b: Buf)
    requires Inv(cfg, b) && b.newFrame.None? && b.queue != []
    ensures Inv(cfg, b.(queue := b.queue[1..], newFrame := Some(b.queue[0])))
  {
    var r := b.(queue := b.queue[1..], newFrame := Some(b.queue[0]));
    forall f: Frame
      ensures Places(r, f) == Places(b, f)
    {
      TimesHead(b.queue, f);
    }
    MovesKeep(cfg, b, r);
  }

  /**
   `BUF_newFrame` keeps the invariant and always succeeds: it hands out a frame
   that is neither queued nor the consumer's, and touches the queue only to
   sacrifice its head.
   */
  lemma RenewKeeps(cfg: Config, b: Buf, malloc: bool)
    requires cfg.Valid() && Inv(cfg, b) && b.newFrame.None?
    ensures Inv(cfg, Renewed(cfg, b, malloc))
    ensures Renewed(cfg, b, malloc).newFrame.Some?
    ensures Renewed(cfg, b, malloc).newFrame != b.currentFrame
    ensures Renewed(cfg, b, malloc).newFrame.value !in Renewed(cfg, b, malloc).queue
    ensures Renewed(cfg, b, malloc).queue == if SourceOf(cfg, b, malloc) == FromQueue then b.queue[1..] else b.queue
    ensures Renewed(cfg, b, malloc).currentFrame == b.currentFrame
    ensures Renewed(cfg, b, malloc).data == b.data
  {
    var r := Renewed(cfg, b, malloc);
    match SourceOf(cfg, b, malloc) {
      case FromQueue =>
        SacrificeCount(cfg, b, malloc);
        SacrificeKeeps(cfg, b);
      case FromPool =>
        TakeKeeps(cfg, b);
      case FromCollected =>
        UncollectKeeps(cfg, b);
        TakeKeeps(cfg, Uncollected(b));
      case FromNewPool =>
        CreateKeeps(cfg, b);
        TakeKeeps(cfg, Created(cfg, b));
    }
    InOnePlace(cfg, r, r.newFrame.value);
  }

  /**
   A pool is allocated exactly when there is no other way to serve the producer: every
   live frame is queued or held by the consumer, the history is on, the limit is not
   reached and there is memory. Its first frame is handed out, the others are free.
   */
  lemma PoolOnlyWhenExhausted(cfg: Config, b: Buf, malloc: bool)
    requires cfg.Valid() && Inv(cfg, b) && b.newFrame.None?
    ensures |Renewed(cfg, b, malloc).dynPools| != |b.dynPools| <==>
              && (forall f :: Live(cfg, b, f) ==> Busy(b, f))
              && cfg.history && |b.dynPools| < cfg.dynIncrement && malloc
    ensures |Renewed(cfg, b, malloc).dynPools| != |b.dynPools| ==>
              && Renewed(cfg, b, malloc).dynPools == b.dynPools + [Pool(b.nextId, cfg.dynBacklog, [])]
              && Renewed(cfg, b, malloc).newFrame == Some(Frame(b.nextId, 0))
              && |Renewed(cfg, b, malloc).pool| == cfg.dynBacklog - 1
              && Renewed(cfg, b, malloc).queue == b.queue
  {
    SacrificeOnlyWhenExhausted(cfg, b, malloc);
    SacrificeOnlyWhenExhausted(cfg, b, false);
    RenewKeeps(cfg, b, malloc);
  }

  /**
   What the producer is served from otherwise: the head of the overall pool if there is
   one; else the first collection that is not empty is taken back; else, without a new
   pool, the head of the queue. Nothing else moves.
   */
  lemma ServedFrom(cfg: Config, b: Buf, malloc: bool, i: nat)
    requires cfg.Valid() && Inv(cfg, b) && b.newFrame.None?
    ensures b.pool != [] ==> Renewed(cfg, b, malloc) == b.(pool := b.pool[1..], newFrame := Some(b.pool[0]))
    ensures b.pool == [] && i < |b.dynPools| && b.dynPools[i].collect != []
            && (forall k :: 0 <= k < i ==> b.dynPools[k].collect == []) ==>
              var c := b.dynPools[i].collect;
              Renewed(cfg, b, malloc) ==
              b.(pool := c[1..], newFrame := Some(c[0]), dynPools := b.dynPools[i := b.dynPools[i].(collect := [])])
    ensures (forall f :: Live(cfg, b, f) ==> Busy(b, f))
            && !(cfg.history && |b.dynPools| < cfg.dynIncrement && malloc) ==>
              b.queue != [] && Renewed(cfg, b, malloc) == b.(queue := b.queue[1..], newFrame := Some(b.queue[0]))
  {
    SacrificeOnlyWhenExhausted(cfg, b, malloc);
    if SourceOf(cfg, b, malloc) == FromQueue { SacrificeCount(cfg, b, malloc); }
    if b.pool == [] && i < |b.dynPools| && b.dynPools[i].collect != []
       && (forall k :: 0 <= k < i ==> b.dynPools[k].collect == []) {
      assert FirstCollected(b.dynPools) == i;
      assert [] + b.dynPools[i].collect == b.dynPools[i].collect;
    }
  }

  /** What was aborted is handed out again, and what was put back is got again, with nothing else changed. */
  lemma GivenBackComesFirst(cfg: Config, b: Buf, malloc: bool)
    ensures b.newFrame.Some? ==> Renewed(cfg, Aborted(b), malloc) == b
    ensures b.newFrame.None? && b.currentFrame.Some? ==>
              Renewed(cfg, Released(b), malloc) == b.(newFrame := b.currentFrame, currentFrame := None)
    ensures b.currentFrame.Some? ==> Gotten(PutBack(b)) == b
  {
    assert b.newFrame.Some? ==> Aborted(b).pool[1..] == b.pool;
    assert b.currentFrame.Some? ==> Released(b).pool[1..] == b.pool && PutBack(b).queue[1..] == b.queue;
  }

  // ------------------------------------------------------ garbage collection

  /** The frames of pool `id`, in the order of the list. */
  function Own(frames: seq<Frame>, id: nat): seq<Frame> {
    if frames == [] then [] else (if frames[0].pool == id then [frames[0]] else []) + Own(frames[1..], id)
  }

  /** The frames of pool `id` in reverse: the order in which unshifting leaves them. */
  function Recycled(frames: seq<Frame>, id: nat): seq<Frame> {
    if frames == [] then [] else Recycled(frames[1..], id) + (if frames[0].pool == id then [frames[0]] else [])
  }

  ghost predicate Homed(frames: seq<Frame>, pools: seq<Pool>) {
    forall k :: 0 <= k < |frames| ==> frames[k].pool == 0 || Find(pools, frames[k].pool).Some?
  }

  /**
   The first phase, in one formula: static frames stay in the overall pool in
   their order, and each pool's collection gains its own frames in reverse.
   */
  lemma {:induction false} CollectSorts(frames: seq<Frame>, pools: seq<Pool>)
    requires Distinct(pools) && Homed(frames, pools)
    requires forall i :: 0 <= i < |pools| ==> pools[i].id != 0
    ensures Collect(frames, pools).0 == Own(frames, 0)
    ensures |Collect(frames, pools).1| == |pools|
    ensures forall i :: 0 <= i < |pools| ==>
              Collect(frames, pools).1[i] == pools[i].(collect := Recycled(frames, pools[i].id) + pools[i].collect)
    decreases |frames|
  {
    if frames == [] {
      assert forall i :: 0 <= i < |pools| ==> [] + pools[i].collect == pools[i].collect;
    } else {
      var f := frames[0];
      forall k | 0 <= k < |frames[1..]|
        ensures frames[1..][k] == frames[k + 1]
      {
      }
      if f.pool == 0 {
        CollectSorts(frames[1..], pools);
        assert forall i :: 0 <= i < |pools| ==>
            Recycled(frames[1..], pools[i].id) + [] == Recycled(frames[1..], pools[i].id);
      } else {
        var q := Unshift(pools, f);
        forall id: nat
          ensures Find(q, id) == Find(pools, id)
        {
          SameIds(pools, q, id);
        }
        CollectSorts(frames[1..], q);
        var i := Find(pools, f.pool).value;
        forall j | 0 <= j < |pools|
          ensures Collect(frames, pools).1[j]
                  == pools[j].(collect := Recycled(frames, pools[j].id) + pools[j].collect)
        {
          var r := Recycled(frames[1..], pools[j].id);
          if j == i {
            assert r + ([f] + pools[j].collect) == (r + [f]) + pools[j].collect;
          } else {
            assert r + [] == r;
          }
        }
      }
    }
  }

  lemma {:induction false} SortedOut(frames: seq<Frame>, id: nat, f: Frame)
    ensures Times(Recycled(frames, id), f) == if f.pool == id then Times(frames, f) else 0
    ensures Times(Own(frames, id), f) == if f.pool == id then Times(frames, f) else 0
  {
    if frames != [] {
      var g := frames[0];
      var mine := if g.pool == id then [g] else [];
      SortedOut(frames[1..], id, f);
      TimesHead(frames, f);
      TimesConcat(Recycled(frames[1..], id), mine, f);
      TimesConcat(mine, Own(frames[1..], id), f);
    }
  }

  lemma PooledIsHomed(cfg: Config, b: Buf)
    requires Inv(cfg, b)
    ensures Homed(b.pool, b.dynPools)
  {
    forall k | 0 <= k < |b.pool|
      ensures b.pool[k].pool == 0 || Find(b.dynPools, b.pool[k].pool).Some?
    {
      InOnePlace(cfg, b, b.pool[k]);
    }
  }

  lemma CollectMoves(cfg: Config, b: Buf, c: Buf, f: Frame)
    requires Inv(cfg, b) && c == Collected(b)
    requires |c.dynPools| == |b.dynPools| && c.pool == Own(b.pool, 0)
    requires forall i :: 0 <= i < |b.dynPools| ==>
               c.dynPools[i] == b.dynPools[i].(collect := Recycled(b.pool, b.dynPools[i].id) + b.dynPools[i].collect)
    ensures Places(c, f) == Places(b, f) && (Live(cfg, c, f) <==> Live(cfg, b, f))
  {
    SortedOut(b.pool, 0, f);
    SameIds(b.dynPools, c.dynPools, f.pool);
    var i := Find(b.dynPools, f.pool);
    if i.Some? {
      var p := b.dynPools[i.value];
      SortedOut(b.pool, p.id, f);
      TimesConcat(Recycled(b.pool, p.id), p.collect, f);
    } else if f.pool != 0 {
      InOnePlace(cfg, b, f);
      TimesIn(b.pool, f);
    }
  }

  lemma CollectKeeps(cfg: Config, b: Buf)
    requires Inv(cfg, b)
    ensures Inv(cfg, Collected(b))
    ensures forall f :: f in Collected(b).pool ==> f.pool == 0
  {
    var c := Collected(b);
    PooledIsHomed(cfg, b);
    CollectSorts(b.pool, b.dynPools);
    forall i, f | 0 <= i < |c.dynPools| && f in c.dynPools[i].collect
      ensures f.pool == c.dynPools[i].id
    {
      var p := b.dynPools[i];
      SortedOut(b.pool, p.id, f);
      TimesIn(Recycled(b.pool, p.id), f);
    }
    forall f | f in c.pool
      ensures f.pool == 0
    {
      SortedOut(b.pool, 0, f);
      TimesIn(c.pool, f);
    }
    forall f: Frame
      ensures Places(c, f) == if Live(cfg, c, f) then 1 else 0
    {
      CollectMoves(cfg, b, c, f);
      assert Places(b, f) == if Live(cfg, b, f) then 1 else 0;
    }
  }

  lemma {:induction false} SurvivorsAre(pools: seq<Pool>)
    requires Distinct(pools)
    ensures |Survivors(pools)| <= |pools|
    ensures Distinct(Survivors(pools))
    ensures forall p :: p in Survivors(pools) <==> p in pools && |p.collect| != p.size
  {
    if pools != [] {
      SurvivorsAre(pools[1..]);
      var rest := Survivors(pools[1..]);
      forall j | 0 <= j < |rest|
        ensures rest[j].id != pools[0].id
      {
        assert rest[j] in pools[1..];
      }
    }
  }

  lemma {:induction false} SurvivorsConcat(a: seq<Pool>, b: seq<Pool>)
    ensures Survivors(a + b) == Survivors(a) + Survivors(b)
  {
    if a == [] {
      assert a + b == b;
    } else {
      assert (a + b)[1..] == a[1..] + b;
      SurvivorsConcat(a[1..], b);
    }
  }

  /** Pools are freed each on its own, if it is complete; those that stay keep their order and are not touched. */
  lemma FreedOneByOne(a: seq<Pool>, p: Pool, b: seq<Pool>)
    ensures Survivors(a + [p] + b) ==
            Survivors(a) + (if |p.collect| == p.size then [] else [p]) + Survivors(b)
  {
    SurvivorsConcat(a + [p], b);
    SurvivorsConcat(a, [p]);
  }

  /** Freeing full pools leaves every other pool where its frames find it. */
  lemma SurvivorFound(pools: seq<Pool>, id: nat)
    requires Distinct(pools)
    ensures Find(Survivors(pools), id).Some? <==>
              Find(pools, id).Some? && |pools[Find(pools, id).value].collect| != pools[Find(pools, id).value].size
    ensures Find(Survivors(pools), id).Some? ==>
              Survivors(pools)[Find(Survivors(pools), id).value] == pools[Find(pools, id).value]
  {
    SurvivorsAre(pools);
    var i, j := Find(pools, id), Find(Survivors(pools), id);
    if i.Some? && |pools[i.value].collect| != pools[i.value].size {
      assert pools[i.value] in Survivors(pools);
      var k :| 0 <= k < |Survivors(pools)| && Survivors(pools)[k] == pools[i.value];
      FindUnique(Survivors(pools), k);
    }
    if j.Some? {
      assert Survivors(pools)[j.value] in pools;
      var k :| 0 <= k < |pools| && pools[k] == Survivors(pools)[j.value];
      FindUnique(pools, k);
    }
  }

  lemma DestroyKeeps(cfg: Config, c: Buf)
    requires Inv(cfg, c)
    ensures Inv(cfg, c.(dynPools := Survivors(c.dynPools)))
  {
    var s := c.(dynPools := Survivors(c.dynPools));
    SurvivorsAre(c.dynPools);
    assert PoolsOk(cfg, s) by {
      forall i | 0 <= i < |s.dynPools|
        ensures s.dynPools[i] in c.dynPools
      {
        assert s.dynPools[i] in s.dynPools;
      }
    }
    forall f: Frame
      ensures Places(s, f) == if Live(cfg, s, f) then 1 else 0
    {
      SurvivorFound(c.dynPools, f.pool);
      assert Places(c, f) == if Live(cfg, c, f) then 1 else 0;
      var i := Find(c.dynPools, f.pool);
      if i.Some? && |c.dynPools[i.value].collect| == c.dynPools[i.value].size {
        FullCollection(cfg, c, i.value);
        TimesIn(c.pool, f);
        TimesIn(c.queue, f);
        TimesIn(Hand(c.newFrame), f);
        TimesIn(Hand(c.currentFrame), f);
      }
    }
  }

  /**
   One garbage collection. It keeps the invariant, so no frame in use is freed;
   queue, hands and contents are untouched; only static frames remain in the
   overall pool, in their order; and a dynamic pool is freed exactly when none
   of its frames is queued or held.
   */
  lemma SweepIsExact(cfg: Config, b: Buf)
    requires Inv(cfg, b)
    ensures Inv(cfg, Swept(b))
    ensures Swept(b).queue == b.queue && Swept(b).newFrame == b.newFrame && Swept(b).currentFrame == b.currentFrame
    ensures Swept(b).data == b.data
    ensures Swept(b).pool == Own(b.pool, 0)
    ensures forall id :: Find(b.dynPools, id).Some? ==>
              (Find(Swept(b).dynPools, id).Some? <==> exists f :: Busy(b, f) && f.pool == id)
    ensures forall id :: Find(b.dynPools, id).None? ==> Find(Swept(b).dynPools, id).None?
  {
    var c, s := Collected(b), Swept(b);
    CollectKeeps(cfg, b);
    PooledIsHomed(cfg, b);
    CollectSorts(b.pool, b.dynPools);
    DestroyKeeps(cfg, c);
    forall id
      ensures Find(b.dynPools, id).None? ==> Find(s.dynPools, id).None?
      ensures Find(b.dynPools, id).Some? ==> (Find(s.dynPools, id).Some? <==> exists f :: Busy(b, f) && f.pool == id)
    {
      SurvivorFound(c.dynPools, id);
      SameIds(b.dynPools, c.dynPools, id);
      if Find(b.dynPools, id).Some? {
        FullCollection(cfg, c, Find(b.dynPools, id).value);
        assert forall f :: Busy(b, f) <==> Busy(c, f);
      }
    }
  }
}
