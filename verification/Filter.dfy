/** Model of src/core/filter.c: which frames are worth to be buffered. */
module Filter {
  import opened Options
  import opened Bytes
  import opened RcFormat
  import opened RcParser

  const MODE_S_SHORT: byte := 0x32
  const MODE_S_LONG: byte := 0x33
  const STATUS: byte := 0x34

  /** `FILTER_cfg`: the server may change it at any time. */
  datatype Setting = Setting(sync: bool, extSquitter: bool)

  /** The downlink format of a Mode-S frame: the upper five bits of its first octet. */
  function DownlinkFormat(firstByte: byte): nat { firstByte / 8 }

  /** `FILTER_filter`. */
  predicate Passes(setting: Setting, synchronized: bool, typ: byte, firstByte: byte) {
    && (synchronized || !setting.sync)
    && (typ == MODE_S_LONG || typ == MODE_S_SHORT)
    && (setting.extSquitter ==> DownlinkFormat(firstByte) == 17 || DownlinkFormat(firstByte) == 18)
  }

  /**
   What is let through, in octets: Mode-S frames, with the first setting only of a
   synchronized receiver, with the second one only downlink formats 17 and 18.
   */
  lemma PassesInOctets(setting: Setting, synchronized: bool, typ: byte, firstByte: byte)
    ensures Passes(setting, synchronized, typ, firstByte) <==>
              && (setting.sync ==> synchronized)
              && typ in {0x32, 0x33}
              && (setting.extSquitter ==> 0x88 <= firstByte <= 0x97)
  {
  }

  /**
   What the server does to the filter around one frame: its setting, and resets
   before and after the frame is looked at.
   */
  datatype Change = Change(setting: Setting, resetBefore: bool, resetAfter: bool)

  function Timestamp(p: Parsed): nat
    requires p.Frame? && |p.header| == 7
  {
    BigEndian(p.header[..6])
  }

  /** A status frame with a timestamp: the receiver has got a valid time. */
  predicate Synchronizes(p: Parsed) {
    p.Frame? && |p.header| == 7 && p.typ == STATUS && Timestamp(p) != 0
  }

  /** `isSynchronized` when the frame is filtered. */
  predicate SynchronizedAt(p: Parsed, change: Change, synchronized: bool) {
    ((synchronized && !change.resetBefore) || Synchronizes(p)) && !change.resetAfter
  }

  predicate AllFrames(ps: seq<Parsed>) {
    forall i :: 0 <= i < |ps| ==> ps[i].Frame? && WellFormed(ps[i].typ, ps[i].header, ps[i].payload)
  }

  /** The raw frames that are buffered, of the frames `ps` received from the `k`-th on. */
  function Accepted(ps: seq<Parsed>, changes: nat -> Change, k: nat, synchronized: bool): seq<seq<byte>>
    requires AllFrames(ps)
  {
    if ps == [] then []
    else
      var p := ps[0];
      assert PayloadLen(p.typ) == Some(|p.payload|);
      var now := SynchronizedAt(p, changes(k), synchronized);
      (if Passes(changes(k).setting, now, p.typ, p.payload[0]) then [Wire(p.typ, p.header, p.payload)] else [])
      + Accepted(ps[1..], changes, k + 1, now)
  }

  /** With the synchronization filter on, nothing is buffered before the receiver has got a valid time. */
  lemma {:induction false} NothingBeforeSynchronization(ps: seq<Parsed>, changes: nat -> Change, k: nat)
    requires AllFrames(ps)
    requires forall i :: 0 <= i < |ps| ==> !Synchronizes(ps[i])
    requires forall j: nat :: changes(j).setting.sync
    ensures Accepted(ps, changes, k, false) == []
  {
    if ps != [] {
      NothingBeforeSynchronization(ps[1..], changes, k + 1);
    }
  }

  ghost predicate IsRaw(raw: seq<byte>, p: Parsed) {
    p.Frame? && (p.typ == MODE_S_SHORT || p.typ == MODE_S_LONG) && raw == Wire(p.typ, p.header, p.payload)
  }

  /** `acc` are the raw Mode-S frames at these places of `ps`. */
  ghost predicate Picked(acc: seq<seq<byte>>, ps: seq<Parsed>, places: seq<nat>) {
    && |places| == |acc|
    && (forall i, j :: 0 <= i < j < |places| ==> places[i] < places[j])
    && forall i :: 0 <= i < |acc| ==> places[i] < |ps| && IsRaw(acc[i], ps[places[i]])
  }

  function Shifted(places: seq<nat>): (r: seq<nat>)
    ensures |r| == |places| && forall i :: 0 <= i < |r| ==> r[i] == places[i] + 1
  {
    seq(|places|, i requires 0 <= i < |places| => places[i] + 1)
  }

  lemma PickedLater(acc: seq<seq<byte>>, ps: seq<Parsed>, places: seq<nat>)
    requires ps != [] && Picked(acc, ps[1..], places)
    ensures Picked(acc, ps, Shifted(places))
  {
    forall i | 0 <= i < |acc|
      ensures Shifted(places)[i] < |ps| && IsRaw(acc[i], ps[Shifted(places)[i]])
    {
      assert ps[1..][places[i]] == ps[Shifted(places)[i]];
    }
  }

  lemma PickedNow(acc: seq<seq<byte>>, ps: seq<Parsed>, places: seq<nat>, raw: seq<byte>)
    requires ps != [] && Picked(acc, ps, Shifted(places)) && IsRaw(raw, ps[0])
    ensures Picked([raw] + acc, ps, [0] + Shifted(places))
  {
  }

  // ------------------------------------------------- exactly what is accepted

  /** A status frame whose timestamp has an octet other than zero. */
  predicate StatusWithTime(p: Parsed) {
    p.Frame? && |p.header| == 7 && p.typ == 0x34
    && (p.header[0] != 0 || p.header[1] != 0 || p.header[2] != 0
        || p.header[3] != 0 || p.header[4] != 0 || p.header[5] != 0)
  }

  lemma StatusWithTimeSynchronizes(p: Parsed)
    ensures Synchronizes(p) <==> StatusWithTime(p)
  {
    if p.Frame? && |p.header| == 7 {
      BigEndianOfSix(p.header[..6]);
    }
  }

  /** No resets around the frames from `a` up to `b`. */
  ghost predicate Quiet(changes: nat -> Change, a: nat, b: nat) {
    forall n: nat :: a <= n < b ==> !changes(n).resetBefore && !changes(n).resetAfter
  }

  /**
   When frame `i` is filtered there has been a status frame with a time since the last
   reset, possibly frame `i` itself; or the receiver was synchronized and never reset.
   */
  ghost predicate InTime(ps: seq<Parsed>, changes: nat -> Change, k: nat, synchronized: bool, i: nat)
    requires i < |ps|
  {
    || (synchronized && Quiet(changes, k, k + i + 1))
    || exists j :: 0 <= j <= i && StatusWithTime(ps[j]) && !changes(k + j).resetAfter
                   && Quiet(changes, k + j + 1, k + i + 1)
  }

  /** The frames that are accepted, each by itself. */
  ghost predicate Accepts(ps: seq<Parsed>, changes: nat -> Change, k: nat, synchronized: bool, i: nat)
    requires AllFrames(ps) && i < |ps|
  {
    && ps[i].typ in {0x32, 0x33}
    && (changes(k + i).setting.sync ==> InTime(ps, changes, k, synchronized, i))
    && (changes(k + i).setting.extSquitter ==> 0x88 <= ps[i].payload[0] <= 0x97)
  }

  lemma InTimeNow(ps: seq<Parsed>, changes: nat -> Change, k: nat, synchronized: bool)
    requires ps != []
    ensures InTime(ps, changes, k, synchronized, 0) <==> SynchronizedAt(ps[0], changes(k), synchronized)
  {
    StatusWithTimeSynchronizes(ps[0]);
    if SynchronizedAt(ps[0], changes(k), synchronized) && Synchronizes(ps[0]) {
      assert StatusWithTime(ps[0]) && !changes(k + 0).resetAfter && Quiet(changes, k + 0 + 1, k + 0 + 1);
    }
  }

  lemma InTimeLater(ps: seq<Parsed>, changes: nat -> Change, k: nat, synchronized: bool, i: nat)
    requires 0 < i < |ps|
    ensures InTime(ps, changes, k, synchronized, i) <==>
            InTime(ps[1..], changes, k + 1, SynchronizedAt(ps[0], changes(k), synchronized), i - 1)
  {
    var now := SynchronizedAt(ps[0], changes(k), synchronized);
    StatusWithTimeSynchronizes(ps[0]);
    if InTime(ps, changes, k, synchronized, i) && !(synchronized && Quiet(changes, k, k + i + 1)) {
      var j :| 0 <= j <= i && StatusWithTime(ps[j]) && !changes(k + j).resetAfter
               && Quiet(changes, k + j + 1, k + i + 1);
      if j > 0 {
        assert StatusWithTime(ps[1..][j - 1]) && !changes(k + 1 + (j - 1)).resetAfter
               && Quiet(changes, k + 1 + (j - 1) + 1, k + 1 + (i - 1) + 1);
      }
    }
    if InTime(ps[1..], changes, k + 1, now, i - 1) {
      if now && Quiet(changes, k + 1, k + 1 + (i - 1) + 1) {
        assert Synchronizes(ps[0]) ==>
            StatusWithTime(ps[0]) && !changes(k + 0).resetAfter && Quiet(changes, k + 0 + 1, k + i + 1);
      } else {
        var j :| 0 <= j <= i - 1 && StatusWithTime(ps[1..][j]) && !changes(k + 1 + j).resetAfter
                 && Quiet(changes, k + 1 + j + 1, k + 1 + (i - 1) + 1);
        assert StatusWithTime(ps[j + 1]) && !changes(k + (j + 1)).resetAfter
               && Quiet(changes, k + (j + 1) + 1, k + i + 1);
      }
    }
  }

  lemma AcceptsLater(ps: seq<Parsed>, changes: nat -> Change, k: nat, synchronized: bool, i: nat)
    requires AllFrames(ps) && 0 < i < |ps|
    ensures Accepts(ps, changes, k, synchronized, i) <==>
            Accepts(ps[1..], changes, k + 1, SynchronizedAt(ps[0], changes(k), synchronized), i - 1)
  {
    hide InTime;
    InTimeLater(ps, changes, k, synchronized, i);
    assert WellFormed(ps[i].typ, ps[i].header, ps[i].payload);
    assert ps[1..][i - 1] == ps[i] && k + 1 + (i - 1) == k + i;
  }

  lemma AcceptsNow(ps: seq<Parsed>, changes: nat -> Change, k: nat, synchronized: bool)
    requires AllFrames(ps) && ps != []
    ensures |ps[0].payload| > 0
    ensures Accepts(ps, changes, k, synchronized, 0) <==>
            Passes(changes(k).setting, SynchronizedAt(ps[0], changes(k), synchronized), ps[0].typ, ps[0].payload[0])
  {
    hide InTime;
    InTimeNow(ps, changes, k, synchronized);
    assert WellFormed(ps[0].typ, ps[0].header, ps[0].payload);
    PassesInOctets(changes(k).setting, SynchronizedAt(ps[0], changes(k), synchronized), ps[0].typ, ps[0].payload[0]);
  }

  /** `places` are the places of the frames accepted. */
  ghost predicate Exactly(ps: seq<Parsed>, changes: nat -> Change, k: nat, synchronized: bool, places: seq<nat>)
    requires AllFrames(ps)
  {
    forall i :: 0 <= i < |ps| ==> (i in places <==> Accepts(ps, changes, k, synchronized, i))
  }

  lemma ExactlyLater(ps: seq<Parsed>, changes: nat -> Change, k: nat, synchronized: bool, places: seq<nat>)
    requires AllFrames(ps) && ps != []
    requires Exactly(ps[1..], changes, k + 1, SynchronizedAt(ps[0], changes(k), synchronized), places)
    ensures Exactly(ps, changes, k, synchronized,
                    if Accepts(ps, changes, k, synchronized, 0) then [0] + Shifted(places) else Shifted(places))
  {
    hide Accepts;
    var rest := Shifted(places);
    forall i | 0 <= i < |ps|
      ensures i in rest <==> i > 0 && i - 1 in places
      ensures i > 0 ==> (i - 1 in places <==> Accepts(ps, changes, k, synchronized, i))
    {
      if i > 0 { AcceptsLater(ps, changes, k, synchronized, i); }
      if i > 0 && i - 1 in places {
        var m :| 0 <= m < |places| && places[m] == i - 1;
        assert rest[m] == i;
      }
    }
  }

  lemma NoneExactly(changes: nat -> Change, k: nat, synchronized: bool)
    ensures Picked([], [], []) && Exactly([], changes, k, synchronized, [])
  {
  }

  /**
   Exactly the frames that are Mode-S, in time if the setting asks for it, and of the
   right downlink format if the setting asks for that, are buffered, in order.
   */
  lemma {:induction false} AcceptedExactly(ps: seq<Parsed>, changes: nat -> Change, k: nat, synchronized: bool)
    returns (places: seq<nat>)
    requires AllFrames(ps)
    ensures Picked(Accepted(ps, changes, k, synchronized), ps, places)
    ensures Exactly(ps, changes, k, synchronized, places)
  {
    hide Exactly, Accepts, Picked;
    if ps == [] {
      places := [];
      NoneExactly(changes, k, synchronized);
    } else {
      var p := ps[0];
      var now := SynchronizedAt(p, changes(k), synchronized);
      var acc := Accepted(ps[1..], changes, k + 1, now);
      places := AcceptedExactly(ps[1..], changes, k + 1, now);
      PickedLater(acc, ps, places);
      ExactlyLater(ps, changes, k, synchronized, places);
      AcceptsNow(ps, changes, k, synchronized);
      if Passes(changes(k).setting, now, p.typ, p.payload[0]) {
        PickedNow(acc, ps, places, Wire(p.typ, p.header, p.payload));
        places := [0] + Shifted(places);
      } else {
        assert [] + acc == acc;
        places := Shifted(places);
      }
    }
  }

  class FilterState {
    var setting: Setting
    var isSynchronized: bool

    constructor (setting: Setting)
      ensures this.setting == setting && !isSynchronized
    {
      this.setting, isSynchronized := setting, false;
    }

    /** `FILTER_reset`. */
    method Reset()
      modifies this`isSynchronized
      ensures !isSynchronized
    {
      isSynchronized := false;
    }

    /** `FILTER_setSynchronized`. */
    method SetSynchronized(synchronized: bool)
      modifies this`isSynchronized
      ensures isSynchronized == synchronized
    {
      isSynchronized := synchronized;
    }

    /** `FILTER_filter`. */
    method Test(typ: byte, firstByte: byte) returns (pass: bool)
      ensures pass == Passes(setting, isSynchronized, typ, firstByte)
      ensures pass <==> (setting.sync ==> isSynchronized) && typ in {0x32, 0x33}
                        && (setting.extSquitter ==> 0x88 <= firstByte <= 0x97)
    {
      if !isSynchronized {
        if setting.sync {
          return false;
        }
      }
      if typ != MODE_S_LONG && typ != MODE_S_SHORT {
        return false;
      }
      var ftype := firstByte / 8 % 32;
      return !setting.extSquitter || ftype == 17 || ftype == 18;
    }
  }
}
