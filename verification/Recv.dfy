/** Model of src/core/recv.c: the producer, from the device's byte stream into the buffer. */
module Recv {
  import opened Options
  import opened Bytes
  import opened Reader
  import opened RcFormat
  import opened RcParser
  import opened Filter
  import opened BufferState
  import opened BufferRuns
  import opened FrameBuffer

  /** What the other threads may do between two steps of the producer. */
  predicate OthersMay(currentFrame: Option<Frame>, op: Op) {
    match op
    case Get => currentFrame.None?
    case Release => currentFrame.Some?
    case Put => currentFrame.Some?
    case Flush => true
    case FlushUnlessHistory => true
    case RunGC => true
    case _ => false
  }

  /** Whatever consumer, flusher and collector can do in a state may happen, and nothing the producer does. */
  lemma OthersMayIff(s: Sys, op: Op)
    ensures OthersMay(s.b.currentFrame, op) <==>
              && Enabled(s, op)
              && (op.Get? || op.Release? || op.Put? || op.Flush? || op.FlushUnlessHistory? || op.RunGC?)
  {
  }

  method OthersStep(buffer: Buffer, op: Op)
    requires buffer.Valid() && OthersMay(buffer.currentFrame, op)
    modifies buffer
    ensures buffer.Valid() && buffer.newFrame == old(buffer.newFrame) && buffer.data == old(buffer.data)
    ensures buffer.hist.log == old(buffer.hist.log)
  {
    match op
    case Get => var _ := buffer.GetFrameTimeout();
    case Release => buffer.ReleaseFrame(buffer.currentFrame.value);
    case Put => buffer.PutFrame(buffer.currentFrame.value);
    case Flush => buffer.FlushQueue();
    case FlushUnlessHistory => buffer.FlushUnlessHistoryEnabled();
    case RunGC => buffer.RunCollector();
  }

  /**
   Any number of steps of the other threads: the consumer, the collector and
   flushes. They touch neither what the producer holds nor what it has committed.
   */
  method OthersAct(buffer: Buffer)
    requires buffer.Valid()
    modifies buffer
    ensures buffer.Valid() && buffer.newFrame == old(buffer.newFrame) && buffer.data == old(buffer.data)
    ensures buffer.hist.log == old(buffer.hist.log)
  {
    var ops: seq<Op> := *;
    for i := 0 to |ops|
      invariant buffer.Valid() && buffer.newFrame == old(buffer.newFrame) && buffer.data == old(buffer.data)
      invariant buffer.hist.log == old(buffer.hist.log)
    {
      if OthersMay(buffer.currentFrame, ops[i]) {
        OthersStep(buffer, ops[i]);
      }
    }
  }

  /** What the server's packets do to the filter before and after a frame is looked at. */
  method Reconfigure(filter: FilterState, setting: Setting, reset: bool)
    modifies filter
    ensures filter.setting == setting && filter.isSynchronized == (old(filter.isSynchronized) && !reset)
  {
    filter.setting := setting;
    if reset {
      filter.Reset();
    }
  }

  /** `BUF_newFrame`, whatever the allocator does. */
  method TakeFrame(buffer: Buffer) returns (frame: Frame)
    requires buffer.Valid() && buffer.newFrame.None?
    modifies buffer
    ensures buffer.Valid() && buffer.newFrame == Some(frame) && buffer.hist.log == old(buffer.hist.log)
  {
    hide SysInv;
    var mallocPool: bool, mallocFrames: bool := *, *;
    frame := buffer.NewFrame(mallocPool, mallocFrames);
  }

  /** Commit what was received. */
  method CommitRaw(buffer: Buffer, frame: Frame, raw: seq<byte>)
    requires buffer.Valid() && buffer.newFrame == Some(frame) && frame in buffer.data && buffer.data[frame] == raw
    modifies buffer
    ensures buffer.Valid() && buffer.newFrame.None? && buffer.hist.log == old(buffer.hist.log) + [raw]
  {
    hide SysInv;
    buffer.CommitFrame(frame);
  }

  /** One frame of the device is in the producer's hand: filter it, and commit it if it passes. */
  method HandleFrame(buffer: Buffer, filter: FilterState, frame: Frame, raw: RawFrame, decoded: DecodedFrame,
                     change: Change, ghost p: Parsed) returns (next: Frame)
    requires buffer.Valid() && buffer.newFrame == Some(frame)
    requires p.Frame? && WellFormed(p.typ, p.header, p.payload) && Delivered(p.typ, p.header, p.payload, raw, decoded)
    modifies buffer, filter
    ensures buffer.Valid() && buffer.newFrame == Some(next)
    ensures filter.isSynchronized == SynchronizedAt(p, change, old(filter.isSynchronized))
    ensures buffer.hist.log == old(buffer.hist.log) +
            if Passes(change.setting, filter.isSynchronized, p.typ, p.payload[0])
            then [Wire(p.typ, p.header, p.payload)] else []
  {
    hide SysInv, Wire;
    assert PayloadLen(p.typ) == Some(|p.payload|);
    assert decoded.payload[0] == p.payload[0];
    buffer.Fill(frame, raw.raw[..raw.rawLen]);
    OthersAct(buffer);
    Reconfigure(filter, change.setting, change.resetBefore);
    if decoded.frameType == STATUS && decoded.mlat != 0 {
      filter.SetSynchronized(true);
    }
    Reconfigure(filter, change.setting, change.resetAfter);
    var pass := filter.Test(decoded.frameType, decoded.payload[0]);
    next := frame;
    if pass {
      CommitRaw(buffer, frame, raw.raw[..raw.rawLen]);
      OthersAct(buffer);
      next := TakeFrame(buffer);
    }
  }

  /** The input has failed: put the frame back into the pool. */
  method PutAway(buffer: Buffer, frame: Frame)
    requires buffer.Valid() && buffer.newFrame == Some(frame)
    modifies buffer
    ensures buffer.Valid() && buffer.newFrame.None? && buffer.hist.log == old(buffer.hist.log)
  {
    hide SysInv;
    buffer.AbortFrame(frame);
  }

  /** One frame received: what it adds to the log, and what is still to come. */
  lemma AcceptedStep(s: seq<byte>, changes: nat -> Change, k: nat, synchronized: bool, log: seq<Payload>)
    requires Parse(s).Frame?
    ensures var p := Parse(s);
            var now := SynchronizedAt(p, changes(k), synchronized);
            p.payload != [] &&
            log + Accepted(ParseAll(s), changes, k, synchronized)
            == log
               + (if Passes(changes(k).setting, now, p.typ, p.payload[0])
                  then [Wire(p.typ, p.header, p.payload)] else [])
               + Accepted(ParseAll(p.rest), changes, k + 1, now)
  {
    var p := Parse(s);
    assert PayloadLen(p.typ) == Some(|p.payload|);
    assert ParseAll(s)[1..] == ParseAll(p.rest);
  }

  lemma NoneAccepted(s: seq<byte>, changes: nat -> Change, k: nat, synchronized: bool)
    requires Parse(s).Failed?
    ensures Accepted(ParseAll(s), changes, k, synchronized) == []
  {
  }

  /** The inner loop of `mainloop`: until the device fails. */
  method ReceiveFrames(buffer: Buffer, filter: FilterState, rd: Reader, first: Frame, changes: nat -> Change)
    requires buffer.Valid() && buffer.newFrame == Some(first) && rd.Valid()
    modifies buffer, filter, rd, rd.buf
    ensures buffer.Valid() && buffer.newFrame.None?
    ensures buffer.hist.log ==
            old(buffer.hist.log) + Accepted(ParseAll(old(rd.Remaining())), changes, 0, old(filter.isSynchronized))
  {
    hide SysInv, Accepted, ParseAll, Parse, Next;
    var raw := new RawFrame();
    var decoded := new DecodedFrame();
    var frame, k: nat := first, 0;
    ghost var goal := buffer.hist.log + Accepted(ParseAll(rd.Remaining()), changes, 0, filter.isSynchronized);
    while true
      invariant buffer.Valid() && buffer.newFrame == Some(frame) && rd.Valid() && Separate(rd, raw, decoded)
      invariant buffer.hist.log + Accepted(ParseAll(rd.Remaining()), changes, k, filter.isSynchronized) == goal
      decreases |rd.Remaining()|
    {
      ghost var s := rd.Remaining();
      var success := GetFrame(rd, raw, decoded);
      if !success {
        NoneAccepted(s, changes, k, filter.isSynchronized);
        break;
      }
      ghost var log, synchronized := buffer.hist.log, filter.isSynchronized;
      frame := HandleFrame(buffer, filter, frame, raw, decoded, changes(k), Parse(s));
      AcceptedStep(s, changes, k, synchronized, log);
      k := k + 1;
    }
    assert buffer.hist.log + [] == buffer.hist.log;
    OthersAct(buffer);
    PutAway(buffer, frame);
  }

  /**
   `mainloop` during one connection to the device, whatever the other threads and
   the allocator do: exactly the raw frames of the device's stream that pass the
   filter are committed, in order, and in the end the producer holds no frame.
   `changes` is what happens to the filter around each frame.
   */
  method Receive(buffer: Buffer, filter: FilterState, rd: Reader, changes: nat -> Change)
    requires buffer.Valid() && buffer.newFrame.None? && rd.Valid()
    modifies buffer, filter, rd, rd.buf
    ensures buffer.Valid() && buffer.newFrame.None?
    ensures buffer.hist.log == old(buffer.hist.log) + Accepted(ParseAll(old(rd.Remaining())), changes, 0, false)
  {
    filter.Reset();
    OthersAct(buffer);
    var frame := TakeFrame(buffer);
    ReceiveFrames(buffer, filter, rd, frame, changes);
  }
}
