/** Model of src/core/relay.c: the consumer, from the buffer to the server. */
module Relay {
  import opened Options
  import opened Bytes
  import opened RcFormat
  import opened Filter
  import opened Messages
  import opened BufferState
  import opened BufferSteps
  import opened BufferRuns
  import opened FrameBuffer

  // ---------------------------------------------------------- the other threads

  /** What the other threads may do between two steps of the consumer: producer and collector. */
  predicate OthersMay(newFrame: Option<Frame>, op: Op) {
    match op
    case New(_) => newFrame.None?
    case Fill(_) => newFrame.Some?
    case Commit => newFrame.Some?
    case Abort => newFrame.Some?
    case RunGC => true
    case _ => false
  }

  /** Whatever producer and collector can do in a state may happen, and nothing the consumer does. */
  lemma OthersMayIff(s: Sys, op: Op)
    ensures OthersMay(s.b.newFrame, op) <==>
              Enabled(s, op) && (op.New? || op.Fill? || op.Commit? || op.Abort? || op.RunGC?)
  {
  }

  /** The content of the frame the consumer holds. */
  ghost function Held(buffer: Buffer): Option<Payload>
    reads buffer
  {
    if buffer.currentFrame.None? then None else Some(buffer.State().Content(buffer.currentFrame.value))
  }

  /**
   What the consumer holds and what it got so far stay as they are, the log may grow,
   nothing older is queued than before, and the producer never empties the queue.
   */
  twostate predicate HandsOff(buffer: Buffer)
    reads buffer
  {
    && buffer.currentFrame == old(buffer.currentFrame) && Held(buffer) == old(Held(buffer))
    && buffer.hist.released == old(buffer.hist.released) && buffer.hist.delivered == old(buffer.hist.delivered)
    && buffer.hist.flushed == old(buffer.hist.flushed)
    && old(buffer.hist.log) <= buffer.hist.log
    && (forall mark: nat :: old(Since(buffer.Whole(), mark)) ==> Since(buffer.Whole(), mark))
    && (buffer.currentFrame.None? && old(buffer.queue) != [] ==> buffer.queue != [])
  }

  lemma OthersKeep(cfg: Config, s: Sys, op: Op)
    requires cfg.Valid() && SysInv(cfg, s) && OthersMay(s.b.newFrame, op)
    ensures Enabled(s, op)
    ensures var t := Next(cfg, s, op);
            && t.b.currentFrame == s.b.currentFrame
            && (s.b.currentFrame.Some? ==> t.b.Content(s.b.currentFrame.value) == s.b.Content(s.b.currentFrame.value))
            && t.h.released == s.h.released && t.h.delivered == s.h.delivered && t.h.flushed == s.h.flushed
            && s.h.log <= t.h.log
  {
    if s.b.currentFrame.Some? { InOnePlace(cfg, s.b, s.b.currentFrame.value); }
    if op.New? { RenewKeeps(cfg, s.b, op.malloc); }
  }

  /** What is sacrificed is never the only frame queued, unless the consumer holds one. */
  lemma OthersLeaveSome(cfg: Config, s: Sys, op: Op)
    requires cfg.Valid() && SysInv(cfg, s) && OthersMay(s.b.newFrame, op)
    ensures Enabled(s, op)
    ensures forall mark: nat :: Since(s, mark) ==> Since(Next(cfg, s, op), mark)
    ensures s.b.currentFrame.None? && s.b.queue != [] ==> Next(cfg, s, op).b.queue != []
  {
    forall mark: nat | Since(s, mark)
      ensures Since(Next(cfg, s, op), mark)
    {
      SinceKept(cfg, s, op, mark);
    }
    if op.RunGC? { SweepIsExact(cfg, s.b); }
    if op.New? { RenewKeeps(cfg, s.b, op.malloc); }
    if op.New? && SourceOf(cfg, s.b, op.malloc) == FromQueue {
      SacrificeCount(cfg, s.b, op.malloc);
      assert |s.b.dynPools| * cfg.dynBacklog >= 0;
    }
  }

  method OthersStep(buffer: Buffer, op: Op)
    requires buffer.Valid() && OthersMay(buffer.newFrame, op)
    modifies buffer
    ensures buffer.Valid() && HandsOff(buffer)
  {
    hide SysInv, Next, Since;
    OthersKeep(buffer.cfg, buffer.Whole(), op);
    OthersLeaveSome(buffer.cfg, buffer.Whole(), op);
    match op
    case New(malloc) => var _ := buffer.NewFrame(malloc, malloc);
    case Fill(content) => buffer.Fill(buffer.newFrame.value, content);
    case Commit => buffer.CommitFrame(buffer.newFrame.value);
    case Abort => buffer.AbortFrame(buffer.newFrame.value);
    case RunGC => buffer.RunCollector();
  }

  /** Any number of steps of the other threads. */
  method OthersAct(buffer: Buffer)
    requires buffer.Valid()
    modifies buffer
    ensures buffer.Valid() && HandsOff(buffer)
  {
    var ops: seq<Op> := *;
    for i := 0 to |ops|
      invariant buffer.Valid() && HandsOff(buffer)
    {
      if OthersMay(buffer.newFrame, ops[i]) {
        OthersStep(buffer, ops[i]);
      }
    }
  }

  // ----------------------------------------------------------------- the sender

  function Frames(ms: seq<Msg>): seq<Payload> {
    if ms == [] then []
    else
      var m := ms[|ms| - 1];
      Frames(ms[..|ms| - 1]) + (if m.RawFrame? then [m.raw] else [])
  }

  /**
   What could not be sent is at the head of the queue: the first message of the
   next session, unless the buffer has to sacrifice it.
   */
  ghost predicate AtHead(buffer: Buffer, m: Msg)
    reads buffer
  {
    m.RawFrame? ==> buffer.queue != [] && buffer.State().Content(buffer.queue[0]) == m.raw
  }

  /** Nothing older than `mark` was released, and nothing older is left. */
  twostate predicate ReleasedSince(buffer: Buffer, mark: nat)
    reads buffer
  {
    && Since(buffer.Whole(), mark)
    && old(buffer.hist.released) <= buffer.hist.released
    && forall k :: |old(buffer.hist.released)| <= k < |buffer.hist.released| ==> mark <= buffer.hist.released[k]
  }

  /** `BUF_releaseFrame` or `BUF_putFrame`, as sending succeeded. */
  method Conclude(buffer: Buffer, f: Frame, success: bool, ghost mark: nat)
    requires buffer.Valid() && buffer.currentFrame == Some(f) && Since(buffer.Whole(), mark)
    modifies buffer
    ensures buffer.Valid() && buffer.currentFrame.None? && ReleasedSince(buffer, mark)
    ensures buffer.hist.log == old(buffer.hist.log) && buffer.hist.flushed == old(buffer.hist.flushed)
    ensures buffer.hist.delivered == old(buffer.hist.delivered) +
            if success then [old(buffer.State().Content(f))] else []
    ensures !success ==> buffer.queue == [f] + old(buffer.queue) && buffer.data == old(buffer.data)
  {
    hide Since;
    SinceKept(buffer.cfg, buffer.Whole(), if success then Release else Put, mark);
    if success {
      assert buffer.hist.Stamp(f) in Releases(buffer.Whole(), Release);
      buffer.ReleaseFrame(f);
    } else {
      buffer.PutFrame(f);
    }
  }

  /**
   One round of the inner loop: get a frame or time out, and send; `answer` is whether
   that succeeds. A keep-alive is sent only if nothing was queued.
   */
  method SendOne(buffer: Buffer, answer: bool, ghost mark: nat) returns (success: bool, m: Msg)
    requires buffer.Valid() && buffer.currentFrame.None? && Since(buffer.Whole(), mark)
    modifies buffer
    ensures buffer.Valid() && buffer.currentFrame.None? && success == answer && m.IsData()
    ensures buffer.hist.flushed == old(buffer.hist.flushed) && old(buffer.hist.log) <= buffer.hist.log
    ensures buffer.hist.delivered == old(buffer.hist.delivered) +
            if success && m.RawFrame? then [m.raw] else []
    ensures !success ==> AtHead(buffer, m)
    ensures old(buffer.queue) != [] ==> m.RawFrame?
    ensures ReleasedSince(buffer, mark)
  {
    hide SysInv, Since;
    OthersAct(buffer);
    SinceKept(buffer.cfg, buffer.Whole(), Get, mark);
    var frame := buffer.GetFrameTimeout();
    success := answer;
    if frame.None? {
      m := KeepAlive;
    } else {
      var f := frame.value;
      m := RawFrame(if f in buffer.data then buffer.data[f] else []);
      OthersAct(buffer);
      Conclude(buffer, f, success, mark);
    }
  }

  lemma FramesPlus(ms: seq<Msg>, m: Msg)
    ensures Frames(ms + [m]) == Frames(ms) + (if m.RawFrame? then [m.raw] else [])
  {
    assert (ms + [m])[..|ms|] == ms;
  }

  /** What `answers` say happened: all of `sent` succeeded and, if there is one, `failed` did not. */
  ghost predicate Answered(answers: seq<bool>, sent: seq<Msg>, failed: Option<Msg>) {
    && |sent| <= |answers| && (forall i :: 0 <= i < |sent| ==> answers[i] && sent[i].IsData())
    && (failed.Some? ==> |sent| < |answers| && !answers[|sent|])
  }

  /** The inner loop of `mainloop`. */
  method SendAll(buffer: Buffer, answers: seq<bool>, ghost mark: nat) returns (sent: seq<Msg>, failed: Option<Msg>)
    requires buffer.Valid() && buffer.currentFrame.None? && Since(buffer.Whole(), mark)
    modifies buffer
    ensures buffer.Valid() && buffer.currentFrame.None? && ReleasedSince(buffer, mark)
    ensures buffer.hist.delivered == old(buffer.hist.delivered) + Frames(sent)
    ensures buffer.hist.flushed == old(buffer.hist.flushed)
    ensures Answered(answers, sent, failed) && (failed.None? ==> |sent| == |answers|)
    ensures failed.Some? ==> AtHead(buffer, failed.value)
  {
    hide SysInv, Since;
    sent, failed := [], None;
    for i := 0 to |answers|
      invariant buffer.Valid() && buffer.currentFrame.None? && failed.None? && |sent| == i
      invariant ReleasedSince(buffer, mark)
      invariant buffer.hist.delivered == old(buffer.hist.delivered) + Frames(sent)
      invariant buffer.hist.flushed == old(buffer.hist.flushed)
      invariant Answered(answers, sent, None)
    {
      var success, m := SendOne(buffer, answers[i], mark);
      if !success {
        failed := Some(m);
        return;
      }
      FramesPlus(sent, m);
      sent := sent + [m];
    }
  }

  lemma FlushStartsAfresh(cfg: Config, s: Sys)
    requires s.b.currentFrame.None?
    ensures Since(Next(cfg, s, FlushUnlessHistory), if cfg.history then 0 else |s.h.log|)
  {
  }

  /** What was committed before `mark` was delivered before or is lost. */
  lemma OutBefore(cfg: Config, s: Sys, before: seq<nat>, mark: nat)
    requires SysInv(cfg, s) && Since(s, mark) && before <= s.h.released
    requires forall k :: |before| <= k < |s.h.released| ==> mark <= s.h.released[k]
    ensures forall n: nat :: n < mark ==> n in before || n in s.h.discarded || n in s.h.flushed
  {
    forall k | |before| <= k < |Pipeline(s)|
      ensures mark <= Pipeline(s)[k]
    {
      if k >= |s.h.released| {
        assert Waiting(s.b)[k - |s.h.released|] in Waiting(s.b);
      }
    }
    forall n: nat | n < mark
      ensures n in before || n in s.h.discarded || n in s.h.flushed
    {
      assert Fates(s, n) == 1;
      CountIn(Pipeline(s), n);
      CountIn(s.h.discarded, n);
      CountIn(s.h.flushed, n);
      if n in Pipeline(s) {
        var k :| 0 <= k < |Pipeline(s)| && Pipeline(s)[k] == n;
        assert before[k] == n;
      }
    }
  }

  /**
   `mainloop` during one connection, as far as `answers` says whether sending
   succeeds. Exactly the frames among the messages sent count as delivered, in
   the order they were sent, and the one that could not be sent is put back at the
   head of the queue. With the history on nothing is flushed. With the history off
   none of the frames sent was committed before the flush at the start, when the log
   had `mark` entries: each of those was delivered earlier, sacrificed or flushed.
   */
  method Session(buffer: Buffer, loggedIn: bool, answers: seq<bool>)
    returns (sent: seq<Msg>, failed: Option<Msg>, ghost mark: nat)
    requires buffer.Valid() && buffer.currentFrame.None?
    modifies buffer
    ensures buffer.Valid() && buffer.currentFrame.None?
    ensures buffer.hist.delivered == old(buffer.hist.delivered) + Frames(sent)
    ensures Answered(answers, sent, failed) && (loggedIn && failed.None? ==> |sent| == |answers|)
    ensures failed.Some? ==> AtHead(buffer, failed.value)
    ensures !loggedIn ==> sent == [] && failed.None? && buffer.Whole() == old(buffer.Whole())
    ensures buffer.cfg.history ==> buffer.hist.flushed == old(buffer.hist.flushed)
    ensures loggedIn && !buffer.cfg.history ==> |old(buffer.hist.log)| <= mark && ReleasedSince(buffer, mark)
    ensures loggedIn && !buffer.cfg.history ==> forall n: nat :: n < mark ==>
              n in old(buffer.hist.released) || n in buffer.hist.discarded || n in buffer.hist.flushed
  {
    hide SysInv, Since;
    mark := 0;
    if !loggedIn {
      return [], None, mark;
    }
    OthersAct(buffer);
    FlushStartsAfresh(buffer.cfg, buffer.Whole());
    buffer.FlushUnlessHistoryEnabled();
    mark := if buffer.cfg.history then 0 else |buffer.hist.log|;
    sent, failed := SendAll(buffer, answers, mark);
    if !buffer.cfg.history {
      OutBefore(buffer.cfg, buffer.Whole(), old(buffer.hist.released), mark);
    }
  }

  // -------------------------------------------------------- from end to end

  function Raw(p: Parsed): seq<byte>
    requires p.Frame?
  {
    Wire(p.typ, p.header, p.payload)
  }

  function Flatten(raws: seq<seq<byte>>): seq<byte> {
    if raws == [] then [] else raws[0] + Flatten(raws[1..])
  }

  function Raws(ps: seq<Parsed>): (r: seq<seq<byte>>)
    requires AllFrames(ps)
    ensures |r| == |ps|
  {
    seq(|ps|, i requires 0 <= i < |ps| => Raw(ps[i]))
  }

  lemma RawsCons(p: Parsed, ps: seq<Parsed>)
    requires p.Frame? && WellFormed(p.typ, p.header, p.payload) && AllFrames(ps)
    ensures AllFrames([p] + ps) && Raws([p] + ps) == [Raw(p)] + Raws(ps)
  {
  }

  lemma FrameSurvives(p: Parsed, t: seq<byte>)
    requires p.Frame? && WellFormed(p.typ, p.header, p.payload)
    ensures Raws(ParseAll(Raw(p) + t)) == [Raw(p)] + Raws(ParseAll(t))
  {
    ParseUndoesWire(p.typ, p.header, p.payload, t);
    RawsCons(p.(rest := t), ParseAll(t));
  }

  /** The server's parser recovers the frames from their concatenation. */
  lemma {:induction false} FramesSurvive(ps: seq<Parsed>)
    requires AllFrames(ps)
    ensures Raws(ParseAll(Flatten(Raws(ps)))) == Raws(ps)
  {
    if ps != [] {
      assert [ps[0]] + ps[1..] == ps;
      RawsCons(ps[0], ps[1..]);
      FramesSurvive(ps[1..]);
      FrameSurvives(ps[0], Flatten(Raws(ps[1..])));
    }
  }

  /**
   In every reachable state in which nothing was sacrificed or flushed, what was
   delivered is a prefix of what was committed.
   */
  lemma DeliveredIsPrefix(cfg: Config, s: Sys)
    requires SysInv(cfg, s) && s.h.discarded == [] && s.h.flushed == []
    ensures s.h.delivered + Contents(s.b, Waiting(s.b)) == s.h.log
  {
    PipelineIsLog(s);
    DeliveredIsLog(s);
  }

  /**
   From end to end: if the log holds what was accepted from the device's stream and
   nothing was sacrificed or flushed, the server, parsing what was delivered to it as
   one stream, finds the first of the accepted frames, all of them but those still waiting.
   */
  lemma ServerFindsAcceptedFrames(cfg: Config, s: Sys, stream: seq<byte>, changes: nat -> Change)
    requires SysInv(cfg, s) && s.h.discarded == [] && s.h.flushed == []
    requires s.h.log == Accepted(ParseAll(stream), changes, 0, false)
    ensures Raws(ParseAll(Flatten(s.h.delivered))) + Contents(s.b, Waiting(s.b))
            == Accepted(ParseAll(stream), changes, 0, false)
  {
    hide SysInv, Accepted, ParseAll, Parse, Exactly, Flatten, Wire, Waiting, Contents;
    DeliveredIsPrefix(cfg, s);
    var ps := ParseAll(stream);
    var places := AcceptedExactly(ps, changes, 0, false);
    var n := |s.h.delivered|;
    var qs := seq(n, i requires 0 <= i < n => ps[places[i]]);
    assert forall i :: 0 <= i < n ==> s.h.delivered[i] == s.h.log[i];
    assert Raws(qs) == s.h.delivered;
    FramesSurvive(qs);
  }
}
