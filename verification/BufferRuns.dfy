/**
 Every run of the frame buffer: any order of producer, consumer and collector
 operations (each is one mutex section of src/core/buffer.c), with a history of
 what became of every frame ever committed.
 */
module BufferRuns {
  import opened BufferState
  import opened BufferSteps

  /**
   `log` holds the contents in commit order. A commit stamps its frame with its
   position in the log; the other fields say which commits were released
   (and what the consumer read then), sacrificed and flushed, in this order.
   */
  datatype Hist = Hist(
    log: seq<Payload>,
    stamp: map<Frame, nat>,
    released: seq<nat>,
    delivered: seq<Payload>,
    discarded: seq<nat>,
    flushed: seq<nat>)
  {
    function Stamp(f: Frame): nat { if f in stamp then stamp[f] else 0 }
  }

  datatype Sys = Sys(b: Buf, h: Hist)

  datatype Op =
    | New(malloc: bool) | Fill(p: Payload) | Commit | Abort
    | Get | Release | Put
    | Flush | FlushUnlessHistory | RunGC

  const NO_HISTORY := Hist([], map[], [], [], [], [])

  function Boot(cfg: Config): Sys { Sys(Constructed(cfg), NO_HISTORY) }

  /** The assertions at the top of the operations. `Get` on an empty queue is a timeout. */
  predicate Enabled(s: Sys, op: Op) {
    match op
    case New(_) => s.b.newFrame.None?
    case Fill(_) => s.b.newFrame.Some?
    case Commit => s.b.newFrame.Some?
    case Abort => s.b.newFrame.Some?
    case Get => s.b.currentFrame.None?
    case Release => s.b.currentFrame.Some?
    case Put => s.b.currentFrame.Some?
    case _ => true
  }

  function Stamps(h: Hist, fs: seq<Frame>): (r: seq<nat>)
    ensures |r| == |fs|
  {
    seq(|fs|, i requires 0 <= i < |fs| => h.Stamp(fs[i]))
  }

  function Next(cfg: Config, s: Sys, op: Op): Sys
    requires Enabled(s, op)
  {
    match op
    case New(malloc) =>
      Sys(Renewed(cfg, s.b, malloc),
          if SourceOf(cfg, s.b, malloc) == FromQueue && s.b.queue != []
          then s.h.(discarded := s.h.discarded + [s.h.Stamp(s.b.queue[0])])
          else s.h)
    case Fill(p) => s.(b := s.b.(data := s.b.data[s.b.newFrame.value := p]))
    case Commit =>
      var f := s.b.newFrame.value;
      Sys(Committed(s.b), s.h.(log := s.h.log + [s.b.Content(f)], stamp := s.h.stamp[f := |s.h.log|]))
    case Abort => s.(b := Aborted(s.b))
    case Get => s.(b := Gotten(s.b))
    case Release =>
      var f := s.b.currentFrame.value;
      Sys(Released(s.b),
          s.h.(released := s.h.released + [s.h.Stamp(f)], delivered := s.h.delivered + [s.b.Content(f)]))
    case Put => s.(b := PutBack(s.b))
    case Flush => Sys(Flushed(s.b), s.h.(flushed := s.h.flushed + Stamps(s.h, s.b.queue)))
    case FlushUnlessHistory =>
      if cfg.history then s
      else Sys(Flushed(s.b), s.h.(flushed := s.h.flushed + Stamps(s.h, s.b.queue)))
    case RunGC => s.(b := Swept(s.b))
  }

  /** What the consumer holds and what is queued behind it. */
  function Waiting(b: Buf): seq<Frame> { Hand(b.currentFrame) + b.queue }

  /** The commits that were released, are held and are queued, in the order they leave. */
  function Pipeline(s: Sys): seq<nat> { s.h.released + Stamps(s.h, Waiting(s.b)) }

  ghost predicate Increasing(s: seq<nat>) { forall i, j :: 0 <= i < j < |s| ==> s[i] < s[j] }

  function Count(s: seq<nat>, n: nat): nat { multiset(s)[n] }

  /** How often commit `n` is accounted for. */
  function Fates(s: Sys, n: nat): nat {
    Count(Pipeline(s), n) + Count(s.h.discarded, n) + Count(s.h.flushed, n)
  }

  /** Every commit has exactly one fate. */
  ghost predicate Accounted(s: Sys) {
    forall n: nat :: Fates(s, n) == if n < |s.h.log| then 1 else 0
  }

  /** Frames carry what was committed until it is delivered. */
  ghost predicate Carried(s: Sys) {
    && |s.h.delivered| == |s.h.released|
    && (forall i :: 0 <= i < |s.h.released| ==>
          s.h.released[i] < |s.h.log| && s.h.delivered[i] == s.h.log[s.h.released[i]])
    && (forall f :: f in Waiting(s.b) ==> s.h.Stamp(f) < |s.h.log| && s.b.Content(f) == s.h.log[s.h.Stamp(f)])
  }

  /** Released, held and queued commits are in commit order. */
  ghost predicate HistInv(s: Sys) {
    Increasing(Pipeline(s)) && Accounted(s) && Carried(s)
  }

  ghost predicate SysInv(cfg: Config, s: Sys) { Inv(cfg, s.b) && HistInv(s) }

  // ------------------------------------------------------------------- lemmas

  lemma CountConcat(s: seq<nat>, t: seq<nat>, n: nat)
    ensures Count(s + t, n) == Count(s, n) + Count(t, n)
  {
  }

  lemma CountIn(s: seq<nat>, n: nat)
    ensures Count(s, n) > 0 <==> n in s
  {
    assert n in s <==> n in multiset(s);
  }

  lemma StampsConcat(h: Hist, s: seq<Frame>, t: seq<Frame>)
    ensures Stamps(h, s + t) == Stamps(h, s) + Stamps(h, t)
  {
  }

  lemma WaitingIsOutOfReach(cfg: Config, b: Buf)
    requires Inv(cfg, b)
    ensures b.newFrame.Some? ==> b.newFrame.value !in Waiting(b)
  {
    if b.newFrame.Some? { InOnePlace(cfg, b, b.newFrame.value); }
  }

  /** Operations that leave the history and the waiting frames alone keep it all. */
  lemma SameWaiting(s: Sys, t: Sys)
    requires HistInv(s) && t.h == s.h && Waiting(t.b) == Waiting(s.b)
    requires forall f :: f in Waiting(s.b) ==> t.b.Content(f) == s.b.Content(f)
    ensures HistInv(t)
  {
    assert Pipeline(t) == Pipeline(s);
    assert forall n: nat :: Fates(t, n) == Fates(s, n);
  }

  lemma PipelineBelowLog(s: Sys, i: nat)
    requires Accounted(s) && i < |Pipeline(s)|
    ensures Pipeline(s)[i] < |s.h.log|
  {
    var n := Pipeline(s)[i];
    CountIn(Pipeline(s), n);
    assert Fates(s, n) == if n < |s.h.log| then 1 else 0;
  }

  /** Appending the next commit to the pipeline and to the log. */
  lemma AppendAccounted(s: Sys, t: Sys)
    requires Increasing(Pipeline(s)) && Accounted(s)
    requires Pipeline(t) == Pipeline(s) + [|s.h.log|] && |t.h.log| == |s.h.log| + 1
    requires t.h.discarded == s.h.discarded && t.h.flushed == s.h.flushed
    ensures Increasing(Pipeline(t)) && Accounted(t)
  {
    hide Pipeline;
    var p, k := Pipeline(s), |s.h.log|;
    forall n: nat
      ensures Fates(t, n) == if n < k + 1 then 1 else 0
    {
      CountConcat(p, [k], n);
      assert Fates(s, n) == if n < k then 1 else 0;
    }
    forall i, j | 0 <= i < j < |p| + 1
      ensures (p + [k])[i] < (p + [k])[j]
    {
      PipelineBelowLog(s, i);
    }
  }

  lemma CommitRecorded(cfg: Config, s: Sys)
    requires SysInv(cfg, s) && s.b.newFrame.Some?
    ensures HistInv(Next(cfg, s, Commit))
  {
    var t := Next(cfg, s, Commit);
    var f, k := s.b.newFrame.value, |s.h.log|;
    WaitingIsOutOfReach(cfg, s.b);
    assert Waiting(t.b) == Waiting(s.b) + [f];
    assert Stamps(t.h, Waiting(t.b)) == Stamps(s.h, Waiting(s.b)) + [k];
    assert Pipeline(t) == Pipeline(s) + [k];
    AppendAccounted(s, t);
    forall g | g in Waiting(t.b)
      ensures t.h.Stamp(g) < |t.h.log| && t.b.Content(g) == t.h.log[t.h.Stamp(g)]
    {
      assert g == f || g in Waiting(s.b);
    }
  }

  lemma ReleaseMovesOn(s: Sys, t: Sys, f: Frame)
    requires Waiting(s.b) == [f] + Waiting(t.b) && t.h.stamp == s.h.stamp
    requires t.h.released == s.h.released + [s.h.Stamp(f)]
    ensures Pipeline(t) == Pipeline(s)
  {
    StampsConcat(s.h, [f], Waiting(t.b));
    assert Stamps(s.h, [f]) == [s.h.Stamp(f)];
    assert Stamps(t.h, Waiting(t.b)) == Stamps(s.h, Waiting(t.b));
  }

  lemma ReleaseCarries(s: Sys, t: Sys, f: Frame)
    requires Carried(s) && Waiting(s.b) == [f] + Waiting(t.b) && t.b.data == s.b.data
    requires t.h == s.h.(released := s.h.released + [s.h.Stamp(f)], delivered := s.h.delivered + [s.b.Content(f)])
    ensures Carried(t)
  {
    assert f in Waiting(s.b);
    forall g | g in Waiting(t.b)
      ensures g in Waiting(s.b)
    {
    }
  }

  lemma ReleaseRecorded(cfg: Config, s: Sys)
    requires SysInv(cfg, s) && s.b.currentFrame.Some?
    ensures HistInv(Next(cfg, s, Release))
  {
    var t := Next(cfg, s, Release);
    var f := s.b.currentFrame.value;
    assert Waiting(s.b) == [f] + Waiting(t.b);
    ReleaseMovesOn(s, t, f);
    ReleaseCarries(s, t, f);
    assert forall n: nat :: Fates(t, n) == Fates(s, n);
  }

  /** Taking commits out of the middle of the pipeline keeps its order. */
  lemma DropAccounted(s: Sys, t: Sys, a: seq<nat>, g: seq<nat>, c: seq<nat>)
    requires Increasing(Pipeline(s)) && Accounted(s)
    requires Pipeline(s) == a + g + c && Pipeline(t) == a + c && t.h.log == s.h.log
    requires || (t.h.discarded == s.h.discarded + g && t.h.flushed == s.h.flushed)
             || (t.h.discarded == s.h.discarded && t.h.flushed == s.h.flushed + g)
    ensures Increasing(Pipeline(t)) && Accounted(t)
  {
    forall n: nat
      ensures Fates(t, n) == Fates(s, n)
    {
      CountConcat(a + g, c, n);
      CountConcat(a, g, n);
      CountConcat(a, c, n);
      CountConcat(s.h.discarded, g, n);
      CountConcat(s.h.flushed, g, n);
    }
    forall i, j | 0 <= i < j < |a + c|
      ensures (a + c)[i] < (a + c)[j]
    {
      var x, y := if i < |a| then i else i + |g|, if j < |a| then j else j + |g|;
      assert (a + c)[i] == (a + g + c)[x] && (a + c)[j] == (a + g + c)[y];
    }
  }

  lemma DropRecorded(s: Sys, t: Sys, pre: seq<Frame>, gone: seq<Frame>, post: seq<Frame>)
    requires HistInv(s) && t.b.data == s.b.data
    requires Waiting(s.b) == pre + gone + post && Waiting(t.b) == pre + post
    requires || t.h == s.h.(discarded := s.h.discarded + Stamps(s.h, gone))
             || t.h == s.h.(flushed := s.h.flushed + Stamps(s.h, gone))
    ensures HistInv(t)
  {
    var a, g, c := s.h.released + Stamps(s.h, pre), Stamps(s.h, gone), Stamps(s.h, post);
    StampsConcat(s.h, pre + gone, post);
    StampsConcat(s.h, pre, gone);
    StampsConcat(s.h, pre, post);
    assert Stamps(t.h, pre + post) == Stamps(s.h, pre + post);
    assert Pipeline(s) == a + g + c;
    assert Pipeline(t) == a + c;
    DropAccounted(s, t, a, g, c);
    assert forall f :: f in Waiting(t.b) ==> f in Waiting(s.b);
  }

  lemma SacrificeRecorded(s: Sys, t: Sys)
    requires HistInv(s) && s.b.queue != []
    requires t.b.queue == s.b.queue[1..] && t.b.currentFrame == s.b.currentFrame && t.b.data == s.b.data
    requires t.h == s.h.(discarded := s.h.discarded + [s.h.Stamp(s.b.queue[0])])
    ensures HistInv(t)
  {
    var gone := [s.b.queue[0]];
    assert s.b.queue == gone + s.b.queue[1..];
    assert Stamps(s.h, gone) == [s.h.Stamp(s.b.queue[0])];
    DropRecorded(s, t, Hand(s.b.currentFrame), gone, s.b.queue[1..]);
  }

  lemma RenewRecorded(cfg: Config, s: Sys, malloc: bool)
    requires cfg.Valid() && SysInv(cfg, s) && s.b.newFrame.None?
    ensures HistInv(Next(cfg, s, New(malloc)))
  {
    var t := Next(cfg, s, New(malloc));
    RenewKeeps(cfg, s.b, malloc);
    if SourceOf(cfg, s.b, malloc) == FromQueue {
      SacrificeCount(cfg, s.b, malloc);
      SacrificeRecorded(s, t);
    } else {
      SameWaiting(s, t);
    }
  }

  lemma FlushRecorded(s: Sys)
    requires HistInv(s)
    ensures HistInv(Sys(Flushed(s.b), s.h.(flushed := s.h.flushed + Stamps(s.h, s.b.queue))))
  {
    var t := Sys(Flushed(s.b), s.h.(flushed := s.h.flushed + Stamps(s.h, s.b.queue)));
    assert Waiting(t.b) == Hand(s.b.currentFrame) + [];
    assert Waiting(s.b) == Hand(s.b.currentFrame) + s.b.queue + [];
    DropRecorded(s, t, Hand(s.b.currentFrame), s.b.queue, []);
  }

  /** Filling, aborting, getting, putting back and collecting do not change what is waiting. */
  lemma QuietRecorded(cfg: Config, s: Sys, op: Op)
    requires SysInv(cfg, s) && Enabled(s, op)
    requires op.Fill? || op.Abort? || op.Get? || op.Put? || op.RunGC?
    ensures HistInv(Next(cfg, s, op))
  {
    var t := Next(cfg, s, op);
    WaitingIsOutOfReach(cfg, s.b);
    if op.RunGC? { SweepIsExact(cfg, s.b); }
    assert Waiting(t.b) == Waiting(s.b);
    SameWaiting(s, t);
  }

  lemma HistKept(cfg: Config, s: Sys, op: Op)
    requires cfg.Valid() && SysInv(cfg, s) && Enabled(s, op)
    ensures HistInv(Next(cfg, s, op))
  {
    match op {
      case New(malloc) => RenewRecorded(cfg, s, malloc);
      case Commit => CommitRecorded(cfg, s);
      case Release => ReleaseRecorded(cfg, s);
      case Flush => FlushRecorded(s);
      case FlushUnlessHistory => FlushRecorded(s);
      case _ => QuietRecorded(cfg, s, op);
    }
  }

  lemma PlacesKept(cfg: Config, s: Sys, op: Op)
    requires cfg.Valid() && SysInv(cfg, s) && Enabled(s, op)
    ensures Inv(cfg, Next(cfg, s, op).b)
  {
    match op {
      case New(malloc) => RenewKeeps(cfg, s.b, malloc);
      case Fill(_) => MovesKeep(cfg, s.b, Next(cfg, s, op).b);
      case Commit => CommitKeeps(cfg, s.b);
      case Abort => AbortKeeps(cfg, s.b);
      case Get => GetKeeps(cfg, s.b);
      case Release => ReleaseKeeps(cfg, s.b);
      case Put => PutKeeps(cfg, s.b);
      case RunGC => SweepIsExact(cfg, s.b);
      case _ => FlushKeeps(cfg, s.b);
    }
  }

  // ---------------------------------------------------------------------- runs

  ghost predicate IsRun(cfg: Config, states: seq<Sys>, ops: seq<Op>) {
    && |states| == |ops| + 1
    && states[0] == Boot(cfg)
    && forall i :: 0 <= i < |ops| ==> Enabled(states[i], ops[i]) && states[i + 1] == Next(cfg, states[i], ops[i])
  }

  lemma BootIsSound(cfg: Config)
    ensures SysInv(cfg, Boot(cfg))
  {
    ConstructedIsSound(cfg);
    assert Pipeline(Boot(cfg)) == [];
  }

  /** In every state of every run each frame is in one place and each commit has one fate. */
  lemma {:induction false} Reachable(cfg: Config, states: seq<Sys>, ops: seq<Op>, i: nat)
    requires cfg.Valid() && IsRun(cfg, states, ops) && i < |states|
    ensures SysInv(cfg, states[i])
  {
    if i == 0 {
      BootIsSound(cfg);
    } else {
      Reachable(cfg, states, ops, i - 1);
      PlacesKept(cfg, states[i - 1], ops[i - 1]);
      HistKept(cfg, states[i - 1], ops[i - 1]);
    }
  }

  /**
   The partition, spelt out: over every run each live frame is in exactly one
   place and nothing else is in any; no static frame is ever collected; and
   there are never more dynamic pools than configured.
   */
  lemma EveryFrameHasOnePlace(cfg: Config, states: seq<Sys>, ops: seq<Op>, i: nat)
    requires cfg.Valid() && IsRun(cfg, states, ops) && i < |states|
    ensures forall f: Frame :: Places(states[i].b, f) == if Live(cfg, states[i].b, f) then 1 else 0
    ensures forall k, f :: 0 <= k < |states[i].b.dynPools| && f in states[i].b.dynPools[k].collect ==>
              f.pool == states[i].b.dynPools[k].id != 0
    ensures |states[i].b.dynPools| <= if cfg.history then cfg.dynIncrement else 0
  {
    Reachable(cfg, states, ops, i);
  }

  function Range(n: nat): seq<nat> { seq(n, (i: nat) => i) }

  lemma {:induction false} IncreasingAll(s: seq<nat>, n: nat, k: nat)
    requires Increasing(s) && k <= |s|
    requires forall m: nat :: m in s <==> m < n
    ensures forall i :: 0 <= i < k ==> s[i] == i
  {
    if k > 0 {
      IncreasingAll(s, n, k - 1);
      var i := k - 1;
      assert i > 0 ==> s[i - 1] < s[i];
      assert s[i] in s;
      assert i in s;
    }
  }

  lemma LengthOfRange(s: seq<nat>, n: nat)
    requires forall m: nat :: m in s <==> m < n
    requires forall i :: 0 <= i < |s| ==> s[i] == i
    ensures |s| == n
  {
    if s != [] {
      assert s[|s| - 1] in s;
    }
    if n > 0 {
      assert n - 1 in s;
    }
  }

  lemma SameCounts(s: seq<nat>, t: seq<nat>)
    requires forall n: nat :: Count(s, n) == Count(t, n)
    ensures |s| == |t|
  {
    var a: multiset<nat>, b: multiset<nat> := multiset(s), multiset(t);
    forall n: nat
      ensures a[n] == b[n]
    {
      assert Count(s, n) == Count(t, n);
    }
    assert a == b;
    assert |a| == |s| && |b| == |t|;
  }

  lemma {:induction false} RangeCount(k: nat, n: nat)
    ensures Count(Range(k), n) == if n < k then 1 else 0
  {
    if k == 0 {
      assert Range(0) == [];
    } else {
      RangeCount(k - 1, n);
      assert Range(k) == Range(k - 1) + [k - 1];
      CountConcat(Range(k - 1), [k - 1], n);
    }
  }

  /**
   Order and conservation over every run: what was released came out in strictly
   increasing commit order with the committed contents, and the number of
   commits is the number released, held, queued, sacrificed and flushed.
   */
  lemma ReleasedInOrder(cfg: Config, states: seq<Sys>, ops: seq<Op>, i: nat)
    requires cfg.Valid() && IsRun(cfg, states, ops) && i < |states|
    ensures Increasing(states[i].h.released)
    ensures |states[i].h.delivered| == |states[i].h.released|
    ensures forall k :: 0 <= k < |states[i].h.released| ==>
              states[i].h.released[k] < |states[i].h.log|
              && states[i].h.delivered[k] == states[i].h.log[states[i].h.released[k]]
    ensures |states[i].h.log| == |states[i].h.released| + |Waiting(states[i].b)|
                                 + |states[i].h.discarded| + |states[i].h.flushed|
  {
    Reachable(cfg, states, ops, i);
    var s := states[i];
    assert forall k :: 0 <= k < |s.h.released| ==> s.h.released[k] == Pipeline(s)[k];
    var all := Pipeline(s) + s.h.discarded + s.h.flushed;
    forall n: nat
      ensures Count(all, n) == Count(Range(|s.h.log|), n)
    {
      CountConcat(Pipeline(s) + s.h.discarded, s.h.flushed, n);
      CountConcat(Pipeline(s), s.h.discarded, n);
      RangeCount(|s.h.log|, n);
      assert Fates(s, n) == if n < |s.h.log| then 1 else 0;
    }
    SameCounts(all, Range(|s.h.log|));
  }

  lemma PipelineIsLog(s: Sys)
    requires HistInv(s) && s.h.discarded == [] && s.h.flushed == []
    ensures Pipeline(s) == Range(|s.h.log|)
  {
    var p := Pipeline(s);
    forall n: nat
      ensures n in p <==> n < |s.h.log|
    {
      CountIn(p, n);
      assert Fates(s, n) == if n < |s.h.log| then 1 else 0;
    }
    IncreasingAll(p, |s.h.log|, |p|);
    LengthOfRange(p, |s.h.log|);
  }

  function Contents(b: Buf, fs: seq<Frame>): (r: seq<Payload>)
    ensures |r| == |fs|
  {
    seq(|fs|, i requires 0 <= i < |fs| => b.Content(fs[i]))
  }

  lemma DeliveredIsLog(s: Sys)
    requires HistInv(s) && Pipeline(s) == Range(|s.h.log|)
    ensures s.h.delivered + Contents(s.b, Waiting(s.b)) == s.h.log
  {
    var n := |s.h.released|;
    var out := s.h.delivered + Contents(s.b, Waiting(s.b));
    assert |out| == |Pipeline(s)| == |s.h.log|;
    forall k | 0 <= k < |out|
      ensures out[k] == s.h.log[k]
    {
      assert Pipeline(s)[k] == k;
      if k >= n {
        var f := Waiting(s.b)[k - n];
        assert f in Waiting(s.b) && s.h.Stamp(f) == k;
      }
    }
  }

  lemma {:induction false} NeverFlushed(cfg: Config, states: seq<Sys>, ops: seq<Op>, i: nat)
    requires cfg.history && IsRun(cfg, states, ops) && i < |states| && Flush !in ops
    ensures states[i].h.flushed == []
  {
    if i > 0 {
      NeverFlushed(cfg, states, ops, i - 1);
      assert ops[i - 1] in ops;
    }
  }

  /**
   With the history on and no explicit flush, as long as nothing had to be
   sacrificed, the consumer has got every committed content exactly once and in
   order, up to those it holds and those still queued.
   */
  lemma NothingLost(cfg: Config, states: seq<Sys>, ops: seq<Op>, i: nat)
    requires cfg.Valid() && cfg.history && IsRun(cfg, states, ops) && i < |states|
    requires Flush !in ops && states[i].h.discarded == []
    ensures Pipeline(states[i]) == Range(|states[i].h.log|)
    ensures states[i].h.delivered + Contents(states[i].b, Waiting(states[i].b)) == states[i].h.log
  {
    Reachable(cfg, states, ops, i);
    NeverFlushed(cfg, states, ops, i);
    PipelineIsLog(states[i]);
    DeliveredIsLog(states[i]);
  }

  // ------------------------------------------------------------------- flushing

  /**
   A flush empties the queue: its frames go behind the others in the overall pool, exactly
   their commits become flushed, and nothing else changes. With the history on the
   conditional flush does nothing, otherwise it is a flush.
   */
  lemma FlushIsExact(cfg: Config, s: Sys, op: Op)
    requires op == Flush || op == FlushUnlessHistory
    ensures op == FlushUnlessHistory && cfg.history ==> Next(cfg, s, op) == s
    ensures op == Flush || !cfg.history ==>
              && Next(cfg, s, op).b == s.b.(pool := s.b.pool + s.b.queue, queue := [])
              && (forall n: nat :: Count(Next(cfg, s, op).h.flushed, n)
                                   == Count(s.h.flushed, n) + Count(Stamps(s.h, s.b.queue), n))
              && Next(cfg, s, op).h == s.h.(flushed := Next(cfg, s, op).h.flushed)
  {
    forall n: nat
      ensures Count(s.h.flushed + Stamps(s.h, s.b.queue), n)
              == Count(s.h.flushed, n) + Count(Stamps(s.h, s.b.queue), n)
    {
      CountConcat(s.h.flushed, Stamps(s.h, s.b.queue), n);
    }
  }

  /** Nothing that is held or queued was committed before place `mark` of the log. */
  ghost predicate Since(s: Sys, mark: nat) {
    mark <= |s.h.log| && forall f :: f in Waiting(s.b) ==> mark <= s.h.Stamp(f)
  }

  /** What `op` adds to the commits released. */
  function Releases(s: Sys, op: Op): seq<nat> {
    if op == Release && s.b.currentFrame.Some? then [s.h.Stamp(s.b.currentFrame.value)] else []
  }

  lemma SinceKept(cfg: Config, s: Sys, op: Op, mark: nat)
    requires cfg.Valid() && SysInv(cfg, s) && Enabled(s, op) && Since(s, mark)
    ensures Since(Next(cfg, s, op), mark)
    ensures Next(cfg, s, op).h.released == s.h.released + Releases(s, op)
    ensures forall n :: n in Releases(s, op) ==> mark <= n
  {
    var t := Next(cfg, s, op);
    WaitingIsOutOfReach(cfg, s.b);
    if op.New? { RenewKeeps(cfg, s.b, op.malloc); }
    if op.New? && SourceOf(cfg, s.b, op.malloc) == FromQueue { SacrificeCount(cfg, s.b, op.malloc); }
    if op.RunGC? { SweepIsExact(cfg, s.b); }
    forall f | f in Waiting(t.b)
      ensures mark <= t.h.Stamp(f)
    {
      assert f in Waiting(s.b) || (op.Commit? && f in Hand(s.b.newFrame));
    }
  }

  /**
   With the history off nothing that was committed before a flush is delivered behind it:
   once the consumer, with no frame in its hand, has flushed at step `i`, whatever is
   released later was committed later.
   */
  lemma {:induction false} NothingStaleIsReleased(cfg: Config, states: seq<Sys>, ops: seq<Op>, i: nat, j: nat)
    requires cfg.Valid() && !cfg.history && IsRun(cfg, states, ops) && i < j < |states|
    requires states[i].b.currentFrame.None? && (ops[i] == Flush || ops[i] == FlushUnlessHistory)
    ensures Since(states[j], |states[i].h.log|)
    ensures states[i].h.released <= states[j].h.released
    ensures forall k :: |states[i].h.released| <= k < |states[j].h.released| ==>
              |states[i].h.log| <= states[j].h.released[k]
    decreases j
  {
    if j == i + 1 {
      assert states[j] == Next(cfg, states[i], ops[i]);
      assert Waiting(states[j].b) == [];
    } else {
      NothingStaleIsReleased(cfg, states, ops, i, j - 1);
      Reachable(cfg, states, ops, j - 1);
      SinceKept(cfg, states[j - 1], ops[j - 1], |states[i].h.log|);
    }
  }

  // ----------------------------------------------- when the producer gets stuck

  /** A run that commits the first `k` frames of the static pool. */
  lemma {:induction false} FillStatic(cfg: Config, k: nat) returns (states: seq<Sys>, ops: seq<Op>)
    requires k <= cfg.statBacklog
    ensures IsRun(cfg, states, ops)
    ensures states[|ops|].b.(data := map[])
            == Constructed(cfg).(pool := FramesOf(0, cfg.statBacklog)[k..], queue := FramesOf(0, cfg.statBacklog)[..k])
  {
    var all := FramesOf(0, cfg.statBacklog);
    if k == 0 {
      states, ops := [Boot(cfg)], [];
      assert all[0..] == all && all[..0] == [];
    } else {
      states, ops := FillStatic(cfg, k - 1);
      var s := states[|ops|];
      var t := Next(cfg, s, New(true));
      var u := Next(cfg, t, Commit);
      assert all[k - 1..][1..] == all[k..] && all[k - 1..][0] == all[k - 1];
      assert all[..k - 1] + [all[k - 1]] == all[..k];
      states, ops := states + [t, u], ops + [New(true), Commit];
    }
  }

  /**
   The exact condition under which `assert(ret)` in `getFrameFromPool` holds in
   every run: dynamic pools, if there may be any, must not be empty. With
   `DynamicBacklog = 0` and the history on, the run that fills the static pool
   creates an empty pool next and finds no frame in it.
   */
  lemma NewFrameAlwaysSucceedsIff(cfg: Config)
    requires cfg.statBacklog >= 2
    ensures (forall states: seq<Sys>, ops: seq<Op>, malloc: bool ::
               IsRun(cfg, states, ops) && states[|ops|].b.newFrame.None? ==>
                 Renewed(cfg, states[|ops|].b, malloc).newFrame.Some?)
            <==> (cfg.history && cfg.dynIncrement > 0 ==> cfg.dynBacklog > 0)
  {
    if cfg.history && cfg.dynIncrement > 0 ==> cfg.dynBacklog > 0 {
      forall states: seq<Sys>, ops: seq<Op>, malloc: bool | IsRun(cfg, states, ops) && states[|ops|].b.newFrame.None?
        ensures Renewed(cfg, states[|ops|].b, malloc).newFrame.Some?
      {
        Reachable(cfg, states, ops, |ops|);
        RenewKeeps(cfg, states[|ops|].b, malloc);
      }
    } else {
      var states, ops := FillStatic(cfg, cfg.statBacklog);
      var b := states[|ops|].b;
      assert b.pool == [] && b.dynPools == [];
      assert FramesOf(b.nextId, 0) == [];
      assert Renewed(cfg, b, true).newFrame.None?;
    }
  }
}
