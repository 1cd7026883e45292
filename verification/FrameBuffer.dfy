/** The operations of src/core/buffer.c on the module's variables, in place. */
module FrameBuffer {
  import opened Options
  import opened BufferState
  import opened BufferSteps
  import opened BufferRuns

  /** The overall result once `done` has been visited and stays. */
  ghost function CollectFrom(done: seq<Frame>, rest: seq<Frame>, pools: seq<Pool>): (seq<Frame>, seq<Pool>) {
    (done + Collect(rest, pools).0, Collect(rest, pools).1)
  }

  lemma CollectStart(frames: seq<Frame>, pools: seq<Pool>)
    ensures CollectFrom(frames[..0], frames[0..], pools) == Collect(frames, pools)
  {
    assert frames[0..] == frames;
    assert frames[..0] + Collect(frames, pools).0 == Collect(frames, pools).0;
  }

  /** Visiting frame `i`: a static frame is passed, another one is moved. */
  lemma CollectStep(frames: seq<Frame>, i: nat, pools: seq<Pool>)
    requires i < |frames|
    ensures frames[i].pool == 0 ==>
              CollectFrom(frames[..i], frames[i..], pools) == CollectFrom(frames[..i + 1], frames[i + 1..], pools)
    ensures frames[i].pool != 0 ==>
              var next := frames[..i] + frames[i + 1..];
              CollectFrom(frames[..i], frames[i..], pools)
              == CollectFrom(next[..i], next[i..], Unshift(pools, frames[i]))
  {
    assert frames[i..][1..] == frames[i + 1..];
    if frames[i].pool == 0 {
      var k := Collect(frames[i + 1..], pools).0;
      assert frames[..i] + ([frames[i]] + k) == frames[..i + 1] + k;
    } else {
      var next := frames[..i] + frames[i + 1..];
      assert next[..i] == frames[..i] && next[i..] == frames[i + 1..];
    }
  }

  /** The pools left over once `done` has been visited and stays. */
  ghost function DestroyFrom(done: seq<Pool>, rest: seq<Pool>): seq<Pool> { done + Survivors(rest) }

  /** Visiting pool `i`: it is passed, or freed if it is complete. */
  lemma DestroyStep(pools: seq<Pool>, i: nat)
    requires i < |pools|
    ensures |pools[i].collect| != pools[i].size ==>
              DestroyFrom(pools[..i], pools[i..]) == DestroyFrom(pools[..i + 1], pools[i + 1..])
    ensures |pools[i].collect| == pools[i].size ==>
              var next := pools[..i] + pools[i + 1..];
              DestroyFrom(pools[..i], pools[i..]) == DestroyFrom(next[..i], next[i..])
  {
    var rest := pools[i + 1..];
    assert pools[i..][1..] == rest;
    if |pools[i].collect| == pools[i].size {
      var next := pools[..i] + rest;
      assert next[..i] == pools[..i] && next[i..] == rest;
      assert Survivors(pools[i..]) == Survivors(rest);
    } else {
      assert Survivors(pools[i..]) == [pools[i]] + Survivors(rest);
      assert pools[..i + 1] == pools[..i] + [pools[i]];
    }
  }

  class Buffer {
    const cfg: Config

    /** Overall frame pool, output queue and dynamic pools. */
    var pool: seq<Frame>
    var queue: seq<Frame>
    var dynPools: seq<Pool>
    /** The frames in the producer's and in the consumer's hand. */
    var newFrame: Option<Frame>
    var currentFrame: Option<Frame>
    /** The allocator's next address, and the content of the frames. */
    var nextId: nat
    var data: map<Frame, Payload>

    ghost var hist: Hist

    ghost function State(): Buf
      reads this
    {
      Buf(pool, queue, dynPools, newFrame, currentFrame, nextId, data)
    }

    ghost function Whole(): Sys
      reads this
    {
      Sys(State(), hist)
    }

    ghost predicate Valid()
      reads this
    {
      cfg.Valid() && SysInv(cfg, Whole())
    }

    constructor (cfg: Config)
      ensures this.cfg == cfg
    {
      this.cfg := cfg;
      pool, queue, dynPools := [], [], [];
      newFrame, currentFrame := None, None;
      nextId, data, hist := 1, map[], NO_HISTORY;
    }

    /** `deployPool`: append the frames of a new pool to the overall pool. */
    method DeployPool(id: nat, size: nat, malloc: bool) returns (ok: bool)
      modifies this`pool
      ensures ok == malloc
      ensures pool == if ok then old(pool) + FramesOf(id, size) else old(pool)
    {
      if !malloc {
        return false;
      }
      var list: seq<Frame> := [];
      for i := 0 to size
        invariant list == FramesOf(id, i)
      {
        list := list + [Frame(id, i)];
      }
      pool := pool + list;
      ok := true;
    }

    /** `construct`: fails only if the static pool cannot be allocated. */
    method Construct(malloc: bool) returns (ok: bool)
      requires cfg.statBacklog >= 2
      modifies this
      ensures ok == malloc
      ensures ok ==> Whole() == Boot(cfg) && SysInv(cfg, Whole()) && (cfg.Valid() ==> Valid())
    {
      dynPools, pool, queue := [], [], [];
      newFrame, currentFrame := None, None;
      nextId, data, hist := 1, map[], NO_HISTORY;
      ok := DeployPool(0, cfg.statBacklog, malloc);
      if ok {
        assert pool == FramesOf(0, cfg.statBacklog);
        BootIsSound(cfg);
      }
    }

    /** `createDynPool`: two allocations, either of which may fail. */
    method CreateDynPool(mallocPool: bool, mallocFrames: bool) returns (ok: bool)
      modifies this
      ensures hist == old(hist)
      ensures ok == (mallocPool && mallocFrames)
      ensures State() == if ok then Created(cfg, old(State())) else old(State())
    {
      if !mallocPool {
        return false;
      }
      var newPool := nextId;
      ok := DeployPool(newPool, cfg.dynBacklog, mallocFrames);
      if ok {
        dynPools := dynPools + [Pool(newPool, cfg.dynBacklog, [])];
        nextId := nextId + 1;
      }
    }

    /** `uncollectPools`: revert the first stage of the collection for one pool. */
    method UncollectPools() returns (found: bool)
      modifies this
      ensures hist == old(hist)
      ensures found == HasCollected(old(dynPools))
      ensures State() == if found then Uncollected(old(State())) else old(State())
    {
      for i := 0 to |dynPools|
        invariant State() == old(State()) && hist == old(hist)
        invariant forall k :: 0 <= k < i ==> dynPools[k].collect == []
      {
        if dynPools[i].collect != [] {
          assert i == FirstCollected(dynPools);
          pool := pool + dynPools[i].collect;
          dynPools := dynPools[i := dynPools[i].(collect := [])];
          return true;
        }
      }
      return false;
    }

    /** `getFrameFromPool`: a free frame, or the oldest queued one. */
    method GetFrameFromPool(mallocPool: bool, mallocFrames: bool) returns (frame: Frame)
      requires Valid() && newFrame.None?
      modifies this
      ensures State().(newFrame := Some(frame)) == Renewed(cfg, old(State()), mallocPool && mallocFrames)
      ensures newFrame == old(newFrame)
      ensures hist == Next(cfg, old(Whole()), New(mallocPool && mallocFrames)).h
    {
      ghost var malloc := mallocPool && mallocFrames;
      ghost var before := State();
      RenewKeeps(cfg, before, malloc);
      if pool != [] {
        frame, pool := pool[0], pool[1..];
        return;
      }
      var uncollected := UncollectPools();
      if uncollected {
        frame, pool := pool[0], pool[1..];
        return;
      }
      var created := false;
      if |dynPools| < cfg.DynMaxPools() {
        created := CreateDynPool(mallocPool, mallocFrames);
      }
      if created {
        frame, pool := pool[0], pool[1..];
      } else {
        SacrificeCount(cfg, before, malloc);
        hist := hist.(discarded := hist.discarded + [hist.Stamp(queue[0])]);
        frame, queue := queue[0], queue[1..];
      }
    }

    /** `BUF_newFrame`: never waits and never fails. */
    method NewFrame(mallocPool: bool, mallocFrames: bool) returns (frame: Frame)
      requires Valid() && newFrame.None?
      modifies this
      ensures Valid() && Whole() == Next(cfg, old(Whole()), New(mallocPool && mallocFrames))
      ensures newFrame == Some(frame) && currentFrame == old(currentFrame) != Some(frame)
      ensures old(pool) != [] ==> [frame] + pool == old(pool) && dynPools == old(dynPools) && queue == old(queue)
      ensures |dynPools| != |old(dynPools)| ==>
                && cfg.history && mallocPool && mallocFrames && |dynPools| == |old(dynPools)| + 1 <= cfg.dynIncrement
                && forall f :: Live(cfg, old(State()), f) ==> Busy(old(State()), f)
    {
      ghost var op := New(mallocPool && mallocFrames);
      PlacesKept(cfg, Whole(), op);
      HistKept(cfg, Whole(), op);
      RenewKeeps(cfg, State(), mallocPool && mallocFrames);
      PoolOnlyWhenExhausted(cfg, State(), mallocPool && mallocFrames);
      frame := GetFrameFromPool(mallocPool, mallocFrames);
      newFrame := Some(frame);
      assert newFrame != currentFrame;
    }

    /** The producer fills the frame it holds. */
    method Fill(frame: Frame, content: Payload)
      requires Valid() && newFrame == Some(frame)
      modifies this
      ensures Valid() && Whole() == Next(cfg, old(Whole()), BufferRuns.Fill(content))
    {
      PlacesKept(cfg, Whole(), BufferRuns.Fill(content));
      HistKept(cfg, Whole(), BufferRuns.Fill(content));
      data := data[frame := content];
    }

    /** `BUF_commitFrame`. */
    method CommitFrame(frame: Frame)
      requires Valid() && newFrame == Some(frame)
      modifies this
      ensures Valid() && Whole() == Next(cfg, old(Whole()), Commit)
    {
      PlacesKept(cfg, Whole(), Commit);
      HistKept(cfg, Whole(), Commit);
      hist := hist.(log := hist.log + [State().Content(frame)], stamp := hist.stamp[frame := |hist.log|]);
      queue := queue + [frame];
      newFrame := None;
    }

    /** `BUF_abortFrame`. */
    method AbortFrame(frame: Frame)
      requires Valid() && newFrame == Some(frame)
      modifies this
      ensures Valid() && Whole() == Next(cfg, old(Whole()), Abort)
    {
      PlacesKept(cfg, Whole(), Abort);
      HistKept(cfg, Whole(), Abort);
      pool := [frame] + pool;
      newFrame := None;
    }

    /** `BUF_getFrameTimeout`: the head of the queue, or nothing after a timeout. */
    method GetFrameTimeout() returns (frame: Option<Frame>)
      requires Valid() && currentFrame.None?
      modifies this
      ensures Valid() && Whole() == Next(cfg, old(Whole()), Get)
      ensures frame == currentFrame
      ensures frame.None? <==> old(queue) == []
    {
      PlacesKept(cfg, Whole(), Get);
      HistKept(cfg, Whole(), Get);
      if queue == [] {
        return None;
      }
      currentFrame, queue := Some(queue[0]), queue[1..];
      frame := currentFrame;
    }

    /** `BUF_releaseFrame`. */
    method ReleaseFrame(frame: Frame)
      requires Valid() && currentFrame == Some(frame)
      modifies this
      ensures Valid() && Whole() == Next(cfg, old(Whole()), Release)
    {
      PlacesKept(cfg, Whole(), Release);
      HistKept(cfg, Whole(), Release);
      hist := hist.(released := hist.released + [hist.Stamp(frame)],
                    delivered := hist.delivered + [State().Content(frame)]);
      pool := [frame] + pool;
      currentFrame := None;
    }

    /** `BUF_putFrame`. */
    method PutFrame(frame: Frame)
      requires Valid() && currentFrame == Some(frame)
      modifies this
      ensures Valid() && Whole() == Next(cfg, old(Whole()), Put)
    {
      PlacesKept(cfg, Whole(), Put);
      HistKept(cfg, Whole(), Put);
      queue := [frame] + queue;
      currentFrame := None;
    }

    /** `BUF_flush`. */
    method FlushQueue()
      requires Valid()
      modifies this
      ensures Valid() && Whole() == Next(cfg, old(Whole()), Flush)
      ensures queue == [] && pool == old(pool) + old(queue) && dynPools == old(dynPools)
    {
      PlacesKept(cfg, Whole(), Flush);
      HistKept(cfg, Whole(), Flush);
      hist := hist.(flushed := hist.flushed + Stamps(hist, queue));
      pool, queue := pool + queue, [];
    }

    /** `BUF_flushUnlessHistoryEnabled`. */
    method FlushUnlessHistoryEnabled()
      requires Valid()
      modifies this
      ensures Valid() && Whole() == Next(cfg, old(Whole()), FlushUnlessHistory)
      ensures if cfg.history then Whole() == old(Whole()) else queue == [] && pool == old(pool) + old(queue)
    {
      if !cfg.history {
        FlushQueue();
      }
    }

    /** `collectPools`: unlink the frames of dynamic pools while iterating over the overall pool. */
    method CollectPools()
      modifies this`pool, this`dynPools
      ensures State() == Collected(old(State()))
    {
      var i := 0;
      CollectStart(pool, dynPools);
      while i < |pool|
        invariant 0 <= i <= |pool|
        invariant CollectFrom(pool[..i], pool[i..], dynPools) == Collect(old(pool), old(dynPools))
        decreases |pool| - i
      {
        var frame := pool[i];
        CollectStep(pool, i, dynPools);
        if frame.pool != 0 {
          pool := pool[..i] + pool[i + 1..];
          dynPools := Unshift(dynPools, frame);
        } else {
          i := i + 1;
        }
      }
      assert pool[..i] + [] == pool;
    }

    /** `destroyUnusedPools`: unlink and free the fully collected pools. */
    method DestroyUnusedPools()
      modifies this`dynPools
      ensures dynPools == Survivors(old(dynPools))
    {
      var i := 0;
      assert dynPools[0..] == dynPools;
      while i < |dynPools|
        invariant 0 <= i <= |dynPools|
        invariant DestroyFrom(dynPools[..i], dynPools[i..]) == Survivors(old(dynPools))
        decreases |dynPools| - i
      {
        var p := dynPools[i];
        DestroyStep(dynPools, i);
        if |p.collect| == p.size {
          dynPools := dynPools[..i] + dynPools[i + 1..];
        } else {
          i := i + 1;
        }
      }
      assert dynPools[..i] + [] == dynPools;
    }

    /** `BUF_runGC`. */
    method RunCollector()
      requires Valid()
      modifies this
      ensures Valid() && Whole() == Next(cfg, old(Whole()), RunGC)
    {
      PlacesKept(cfg, Whole(), RunGC);
      HistKept(cfg, Whole(), RunGC);
      CollectPools();
      DestroyUnusedPools();
    }
  }
}
