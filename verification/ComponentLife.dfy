/**
 Model of the second half of src/util/component.c: constructing, starting,
 stopping and destructing the components of an ordered list. What a callback
 answers is arbitrary.
 */
module ComponentLife {
  import opened ComponentOrder
  import opened Sequences

  datatype State = Registered | Initialized | Started

  /** What a descriptor says besides its dependencies: flags (an absent one counts as set) and callbacks. */
  datatype Info = Info(enabled: bool, start: bool, onConstruct: bool, main: bool, onStart: bool, onStop: bool)

  datatype Event =
    | Construct(c: Comp, ok: bool)
    | Destruct(c: Comp)
    | Start(c: Comp, ok: bool, states: map<Comp, State>)
    | Stop(c: Comp, deferred: bool, ok: bool)

  /** The components of `list[lo..hi]` that are in state `st`, last first. */
  function Between(list: seq<Comp>, lo: nat, hi: nat, state: map<Comp, State>, st: State): seq<Comp>
    requires lo <= hi <= |list|
    decreases hi - lo
  {
    if lo == hi then []
    else Between(list, lo + 1, hi, state, st) + (if list[lo] in state && state[list[lo]] == st then [list[lo]] else [])
  }

  /** The components in front of `end` that are started, last first. */
  function Running(list: seq<Comp>, end: nat, state: map<Comp, State>): seq<Comp>
    requires end <= |list|
  {
    Between(list, 0, end, state, Started)
  }

  function Names(evs: seq<Event>): (r: seq<Comp>)
    ensures |r| == |evs|
  {
    seq(|evs|, i requires 0 <= i < |evs| => evs[i].c)
  }

  /** Those who did not stop, in the order they were asked. */
  function Refused(evs: seq<Event>): (r: seq<Comp>)
    ensures |r| <= |evs|
  {
    if evs == [] then []
    else
      var e := evs[|evs| - 1];
      Refused(evs[..|evs| - 1]) + (if e.Stop? && !e.ok then [e.c] else [])
  }

  ghost predicate AllStops(evs: seq<Event>, deferred: bool) {
    forall i :: 0 <= i < |evs| ==> evs[i].Stop? && evs[i].deferred == deferred
  }

  /** One pass: the components `asked` are asked to stop, each once and in this order. */
  ghost predicate IsPass(evs: seq<Event>, asked: seq<Comp>, deferred: bool) {
    AllStops(evs, deferred) && Names(evs) == asked
  }

  /** The passes of one stop, the last one outermost. */
  datatype Passes = First(evs: seq<Event>) | Then(before: Passes, evs: seq<Event>) {
    function Events(): seq<Event> {
      match this
      case First(evs) => evs
      case Then(before, evs) => before.Events() + evs
    }

    /**
     How a stop goes on: first all that run are asked, then again and again those
     who refused, as long as some are left and the pass before made progress.
     */
    ghost predicate Stopping(running: seq<Comp>) {
      match this
      case First(evs) => IsPass(evs, running, false)
      case Then(before, evs) =>
        && before.Stopping(running)
        && IsPass(evs, Refused(before.evs), true) && Refused(before.evs) != []
        && (before.Then? ==> |Refused(before.evs)| < |before.evs|)
    }

    /** It is over: nobody is left, or a whole deferred pass changed nothing. */
    ghost predicate Settled() {
      Refused(evs) == [] || (Then? && Refused(evs) == Names(evs))
    }
  }

  function FirstPass(p: Passes): seq<Event> { if p.First? then p.evs else FirstPass(p.before) }

  function Depth(p: Passes): nat { if p.First? then 1 else Depth(p.before) + 1 }

  /** Who refused are those who answered a request to stop with no. */
  lemma {:induction false} RefusedIff(evs: seq<Event>, c: Comp)
    ensures c in Refused(evs) <==> exists i :: 0 <= i < |evs| && evs[i].Stop? && evs[i].c == c && !evs[i].ok
  {
    if evs != [] {
      var n := |evs| - 1;
      RefusedIff(evs[..n], c);
      assert forall i :: 0 <= i < n ==> evs[..n][i] == evs[i];
    }
  }

  lemma NobodyRefuses(evs: seq<Event>)
    requires Refused(evs) == []
    ensures forall i :: 0 <= i < |evs| && evs[i].Stop? ==> evs[i].ok
  {
    forall i | 0 <= i < |evs| && evs[i].Stop?
      ensures evs[i].ok
    {
      RefusedIff(evs, evs[i].c);
    }
  }

  /**
   If everybody stops when first asked, components stop in exact reverse order, each asked
   once and not as deferred, and nothing else happens.
   */
  lemma {:induction false} NobodyDeferred(p: Passes, running: seq<Comp>)
    requires p.Stopping(running) && Refused(FirstPass(p)) == []
    ensures p.First? && |p.Events()| == |running|
    ensures forall i :: 0 <= i < |running| ==> p.Events()[i] == Stop(running[i], false, true)
  {
    if p.Then? {
      NobodyDeferred(p.before, running);
      assert false;
    }
    NobodyRefuses(p.evs);
    forall i | 0 <= i < |running|
      ensures p.evs[i] == Stop(running[i], false, true)
    {
      assert Names(p.evs)[i] == running[i];
    }
  }

  /** Only the first pass asks for the first time: every later request says that it was deferred. */
  lemma {:induction false} LaterIsDeferred(p: Passes, running: seq<Comp>)
    requires p.Stopping(running)
    ensures FirstPass(p) <= p.Events() && Names(FirstPass(p)) == running
    ensures forall i :: 0 <= i < |p.Events()| ==>
              p.Events()[i].Stop? && (p.Events()[i].deferred <==> |running| <= i)
  {
    if p.Then? {
      LaterIsDeferred(p.before, running);
      assert |p.before.Events()| >= |running|;
    }
  }

  lemma {:induction false} RefusedAnswers(evs: seq<Event>)
    requires forall i :: 0 <= i < |evs| ==> evs[i].Stop?
    ensures |Refused(evs)| == |evs| ==> forall i :: 0 <= i < |evs| ==> !evs[i].ok
  {
    if evs != [] {
      var n := |evs| - 1;
      RefusedAnswers(evs[..n]);
      assert forall i :: 0 <= i < n ==> evs[..n][i] == evs[i];
    }
  }

  /**
   If somebody still runs in the end, the last pass was a deferred one that asked exactly
   those who run, and every answer was no.
   */
  lemma NobodyGivesIn(p: Passes, running: seq<Comp>)
    requires p.Stopping(running) && p.Settled() && Refused(p.evs) != []
    ensures p.Then? && Names(p.evs) == Refused(p.evs) == Refused(p.before.evs)
    ensures forall i :: 0 <= i < |p.evs| ==> p.evs[i] == Stop(Refused(p.evs)[i], true, false)
  {
    RefusedAnswers(p.evs);
    assert |Names(p.evs)| == |p.evs|;
    forall i | 0 <= i < |p.evs|
      ensures p.evs[i] == Stop(Refused(p.evs)[i], true, false)
    {
      assert Names(p.evs)[i] == p.evs[i].c;
    }
  }

  /** However the callbacks answer, there are at most as many passes as components ran, and one more. */
  lemma {:induction false} PassesAreBounded(p: Passes, running: seq<Comp>)
    requires p.Stopping(running)
    ensures Depth(p) <= |running| + 1
    ensures p.Then? ==> Depth(p) + |p.evs| <= |running| + 2
  {
    if p.Then? {
      PassesAreBounded(p.before, running);
      assert |p.evs| == |Names(p.evs)| == |Refused(p.before.evs)|;
    }
  }

  ghost predicate AllDestructs(evs: seq<Event>) { forall i :: 0 <= i < |evs| ==> evs[i].Destruct? }

  ghost predicate AllConstructed(evs: seq<Event>) { forall i :: 0 <= i < |evs| ==> evs[i].Construct? && evs[i].ok }

  ghost predicate AllStarted(evs: seq<Event>) { forall i :: 0 <= i < |evs| ==> evs[i].Start? && evs[i].ok }

  /** The enabled components in front of `end`, in list order. */
  function EnabledTo(list: seq<Comp>, info: map<Comp, Info>, end: nat): seq<Comp>
    requires end <= |list|
  {
    if end == 0 then []
    else
      var c := list[end - 1];
      EnabledTo(list, info, end - 1) + (if c in info && info[c].enabled then [c] else [])
  }

  /** The components in front of `end` that are to be started, in list order. */
  function StartableTo(list: seq<Comp>, info: map<Comp, Info>, state: map<Comp, State>, end: nat): seq<Comp>
    requires end <= |list|
  {
    if end == 0 then []
    else
      var c := list[end - 1];
      StartableTo(list, info, state, end - 1)
      + (if c in info && c in state && state[c] == Initialized && info[c].start then [c] else [])
  }

  /** `s` are the components at these places of `list`. */
  ghost predicate At(list: seq<Comp>, s: seq<Comp>, places: seq<nat>) {
    |places| == |s| && forall i :: 0 <= i < |s| ==> places[i] < |list| && list[places[i]] == s[i]
  }

  ghost predicate Ascending(places: seq<nat>) { forall i, j :: 0 <= i < j < |places| ==> places[i] < places[j] }

  ghost predicate Descending(places: seq<nat>) { forall i, j :: 0 <= i < j < |places| ==> places[j] < places[i] }

  /** From the last to the first: exactly the components of `list[lo..hi]` that are in state `st`. */
  lemma {:induction false} BetweenPlaces(list: seq<Comp>, lo: nat, hi: nat, state: map<Comp, State>, st: State)
    returns (places: seq<nat>)
    requires lo <= hi <= |list|
    ensures At(list, Between(list, lo, hi, state, st), places) && Descending(places)
    ensures forall i :: i in places <==> lo <= i < hi && list[i] in state && state[list[i]] == st
    decreases hi - lo
  {
    if lo == hi {
      places := [];
    } else {
      places := BetweenPlaces(list, lo + 1, hi, state, st);
      assert forall i :: 0 <= i < |places| ==> places[i] in places;
      places := places + (if list[lo] in state && state[list[lo]] == st then [lo] else []);
    }
  }

  /** From the first to the last: exactly the enabled components. */
  lemma {:induction false} EnabledPlaces(list: seq<Comp>, info: map<Comp, Info>, end: nat) returns (places: seq<nat>)
    requires end <= |list|
    ensures At(list, EnabledTo(list, info, end), places) && Ascending(places)
    ensures forall i :: i in places <==> 0 <= i < end && list[i] in info && info[list[i]].enabled
  {
    if end == 0 {
      places := [];
    } else {
      var c := list[end - 1];
      places := EnabledPlaces(list, info, end - 1);
      assert forall i :: 0 <= i < |places| ==> places[i] in places;
      places := places + (if c in info && info[c].enabled then [end - 1] else []);
    }
  }

  /** From the first to the last: exactly the constructed components whose start flag is set. */
  lemma {:induction false} StartablePlaces(list: seq<Comp>, info: map<Comp, Info>, state: map<Comp, State>, end: nat)
    returns (places: seq<nat>)
    requires end <= |list|
    ensures At(list, StartableTo(list, info, state, end), places) && Ascending(places)
    ensures forall i :: i in places <==>
              && 0 <= i < end && list[i] in info && list[i] in state
              && state[list[i]] == Initialized && info[list[i]].start
  {
    if end == 0 {
      places := [];
    } else {
      var c := list[end - 1];
      places := StartablePlaces(list, info, state, end - 1);
      assert forall i :: 0 <= i < |places| ==> places[i] in places;
      places := places
                + (if c in info && c in state && state[c] == Initialized && info[c].start then [end - 1] else []);
    }
  }

  function Reverse(s: seq<Comp>): seq<Comp> {
    if s == [] then [] else Reverse(s[1..]) + [s[0]]
  }

  /** What reversing means. */
  lemma {:induction false} ReverseAt(s: seq<Comp>, i: nat)
    requires i < |s|
    ensures |Reverse(s)| == |s| && Reverse(s)[i] == s[|s| - 1 - i]
  {
    if |s| > 1 { ReverseAt(s[1..], if i < |s| - 1 then i else 0); }
  }

  lemma {:induction false} ReversePlus(s: seq<Comp>, c: Comp)
    ensures Reverse(s + [c]) == [c] + Reverse(s)
  {
    if s != [] {
      ReversePlus(s[1..], c);
      assert (s + [c])[1..] == s[1..] + [c];
    }
  }

  lemma {:induction false} BetweenUpper(list: seq<Comp>, lo: nat, hi: nat, state: map<Comp, State>, st: State)
    requires lo <= hi < |list|
    ensures Between(list, lo, hi + 1, state, st)
            == (if list[hi] in state && state[list[hi]] == st then [list[hi]] else [])
               + Between(list, lo, hi, state, st)
    decreases hi - lo
  {
    if lo < hi {
      BetweenUpper(list, lo + 1, hi, state, st);
      Glue(if list[hi] in state && state[list[hi]] == st then [list[hi]] else [],
           Between(list, lo + 1, hi, state, st),
           if list[lo] in state && state[list[lo]] == st then [list[lo]] else []);
    }
  }

  lemma NotBefore(list: seq<Comp>, i: nat)
    requires i < |list| && NoDup(list)
    ensures list[i] !in list[..i] && list[..i + 1] == list[..i] + [list[i]]
  {
  }

  /** A pass has come down to `lo`: `evs` asked who ran, and who refused runs on. */
  ghost predicate PassedTo(list: seq<Comp>, lo: nat, hi: nat, was: map<Comp, State>, now: map<Comp, State>,
                           evs: seq<Event>, deferred: bool)
    requires lo <= hi <= |list|
  {
    && was.Keys == now.Keys && AllStops(evs, deferred)
    && Names(evs) == Between(list, lo, hi, was, Started)
    && Refused(evs) == Between(list, lo, hi, now, Started)
    && forall c :: c in was ==> now[c] == was[c] || (c in list[lo..hi] && was[c] == Started && now[c] == Initialized)
  }

  lemma NotAgain(list: seq<Comp>, lo: nat, hi: nat)
    requires lo < hi <= |list| && NoDup(list)
    ensures list[lo] !in list[lo + 1..hi]
    ensures list[lo..hi] == [list[lo]] + list[lo + 1..hi]
  {
  }

  /** The pass goes on over a component that does not run. */
  lemma PassedIdle(list: seq<Comp>, lo: nat, hi: nat, was: map<Comp, State>, now: map<Comp, State>,
                   evs: seq<Event>, deferred: bool)
    requires lo < hi <= |list| && NoDup(list) && list[lo] in was
    requires PassedTo(list, lo + 1, hi, was, now, evs, deferred) && now[list[lo]] != Started
    ensures PassedTo(list, lo, hi, was, now, evs, deferred)
  {
    NotAgain(list, lo, hi);
  }

  lemma Apart(list: seq<Comp>, lo: nat, hi: nat, now: map<Comp, State>, next: map<Comp, State>)
    requires lo < hi <= |list| && list[lo] !in list[lo + 1..hi] && list[lo] in now
    requires next == now || next == now[list[lo] := Initialized]
    ensures forall i :: lo + 1 <= i < hi && list[i] in now ==> now[list[i]] == next[list[i]]
  {
    forall i | lo + 1 <= i < hi
      ensures list[i] != list[lo]
    {
      assert list[i] == list[lo + 1..hi][i - lo - 1];
    }
  }

  lemma {:induction false} BetweenFrame(list: seq<Comp>, lo: nat, hi: nat,
                                        s: map<Comp, State>, t: map<Comp, State>, st: State)
    requires lo <= hi <= |list|
    requires s.Keys == t.Keys && forall i :: lo <= i < hi && list[i] in s ==> s[list[i]] == t[list[i]]
    ensures Between(list, lo, hi, s, st) == Between(list, lo, hi, t, st)
    decreases hi - lo
  {
    if lo < hi { BetweenFrame(list, lo + 1, hi, s, t, st); }
  }

  lemma RefusedPlus(evs: seq<Event>, e: Event)
    ensures Refused(evs + [e]) == Refused(evs) + (if e.Stop? && !e.ok then [e.c] else [])
    ensures Names(evs + [e]) == Names(evs) + [e.c]
  {
    assert (evs + [e])[..|evs|] == evs;
  }

  /** The pass goes on over a component that was asked to stop. */
  lemma PassedRunning(list: seq<Comp>, lo: nat, hi: nat, was: map<Comp, State>, now: map<Comp, State>,
                      evs: seq<Event>, deferred: bool, next: map<Comp, State>)
    requires lo < hi <= |list| && NoDup(list) && list[lo] in was
    requires PassedTo(list, lo + 1, hi, was, now, evs, deferred) && now[list[lo]] == Started
    requires next == now || next == now[list[lo] := Initialized]
    ensures PassedTo(list, lo, hi, was, next, evs + [Stop(list[lo], deferred, next != now)], deferred)
  {
    var c := list[lo];
    NotAgain(list, lo, hi);
    Apart(list, lo, hi, now, next);
    BetweenFrame(list, lo + 1, hi, now, next, Started);
    RefusedPlus(evs, Stop(c, deferred, next != now));
    if next != now { assert next[c] == Initialized; }
  }

  lemma {:induction false} RefusedAll(evs: seq<Event>)
    ensures |Refused(evs)| == |evs| ==> Refused(evs) == Names(evs)
  {
    if evs != [] {
      var n := |evs| - 1;
      RefusedAll(evs[..n]);
      assert Names(evs) == Names(evs[..n]) + [evs[n].c];
    }
  }

  /** Nothing happened except that some components in front of `end` stopped. */
  ghost predicate OnlyStopped(list: seq<Comp>, end: nat, was: map<Comp, State>, now: map<Comp, State>)
    requires end <= |list|
  {
    && now.Keys == was.Keys
    && forall c :: c in was ==> now[c] == was[c] || (c in list[..end] && was[c] == Started && now[c] == Initialized)
  }

  lemma StoppedFurther(list: seq<Comp>, end: nat, was: map<Comp, State>, now: map<Comp, State>, next: map<Comp, State>)
    requires end <= |list| && OnlyStopped(list, end, was, now) && OnlyStopped(list, end, now, next)
    ensures OnlyStopped(list, end, was, next)
  {
    forall c | c in was
      ensures next[c] == was[c] || (c in list[..end] && was[c] == Started && next[c] == Initialized)
    {
      assert c in now;
    }
  }

  ghost predicate ConstructedTo(list: seq<Comp>, info: map<Comp, Info>, end: nat, state: map<Comp, State>)
    requires end <= |list|
  {
    && info.Keys == state.Keys
    && forall c :: c in state ==> state[c] == if c in list[..end] && info[c].enabled then Initialized else Registered
  }

  /** Exactly the enabled components in front of `end` are constructed, `made` says so, and in which order. */
  ghost predicate Made(list: seq<Comp>, info: map<Comp, Info>, end: nat, state: map<Comp, State>, made: seq<Event>)
    requires end <= |list|
  {
    && AllConstructed(made) && Names(made) == EnabledTo(list, info, end)
    && ConstructedTo(list, info, end, state)
    && Reverse(Names(made)) == Between(list, 0, end, state, Initialized)
  }

  lemma MadeBegins(list: seq<Comp>, info: map<Comp, Info>, state: map<Comp, State>)
    requires info.Keys == state.Keys && forall c :: c in state ==> state[c] == Registered
    ensures Made(list, info, 0, state, [])
  {
  }

  lemma MadeSkip(list: seq<Comp>, info: map<Comp, Info>, i: nat, state: map<Comp, State>, made: seq<Event>)
    requires i < |list| && NoDup(list) && list[i] in info && Made(list, info, i, state, made)
    requires !info[list[i]].enabled
    ensures Made(list, info, i + 1, state, made)
  {
    NotBefore(list, i);
    BetweenUpper(list, 0, i, state, Initialized);
  }

  lemma ConstructedPlus(list: seq<Comp>, info: map<Comp, Info>, i: nat, state: map<Comp, State>)
    requires i < |list| && NoDup(list) && list[i] in info && info[list[i]].enabled
    requires ConstructedTo(list, info, i, state)
    ensures ConstructedTo(list, info, i + 1, state[list[i] := Initialized])
  {
    NotBefore(list, i);
  }

  lemma MadePlus(list: seq<Comp>, info: map<Comp, Info>, i: nat, state: map<Comp, State>, made: seq<Event>)
    requires i < |list| && NoDup(list) && list[i] in info && Made(list, info, i, state, made)
    requires info[list[i]].enabled
    ensures Made(list, info, i + 1, state[list[i] := Initialized], made + [Construct(list[i], true)])
  {
    var c := list[i];
    var next := state[c := Initialized];
    ConstructedPlus(list, info, i, state);
    RefusedPlus(made, Construct(c, true));
    ReversePlus(Names(made), c);
    BetweenFrame(list, 0, i, state, next, Initialized);
    BetweenUpper(list, 0, i, next, Initialized);
  }

  lemma NoneStarted(list: seq<Comp>, info: map<Comp, Info>, i: nat, state: map<Comp, State>)
    requires i <= |list| && ConstructedTo(list, info, i, state)
    ensures forall c :: c in state ==> state[c] != Started
  {
  }

  /** Destructing what was constructed leaves nothing behind. */
  lemma NothingLeft(list: seq<Comp>, info: map<Comp, Info>, i: nat, state: map<Comp, State>, after: map<Comp, State>)
    requires i <= |list| && ConstructedTo(list, info, i, state) && after.Keys == state.Keys
    requires forall c :: c in after ==> after[c] == if c in list[..i] then Registered else state[c]
    ensures forall c :: c in after ==> after[c] == Registered
  {
  }

  /** A start is due: its dependencies are constructed, and started if they are ever to be. */
  ghost predicate Ready(g: Graph, info: map<Comp, Info>, e: Event) {
    && e.Start? && g.Valid() && e.c in g.deps && info.Keys == g.deps.Keys == e.states.Keys
    && forall k :: 0 <= k < |g.deps[e.c]| ==>
         && e.states[g.deps[e.c][k]] != Registered
         && (info[g.deps[e.c][k]].start ==> e.states[g.deps[e.c][k]] == Started)
  }

  /** The components in front of `end` are started as far as they are to be, nothing else has changed. */
  ghost predicate StartedTo(list: seq<Comp>, info: map<Comp, Info>, end: nat,
                            was: map<Comp, State>, now: map<Comp, State>)
    requires end <= |list|
  {
    && info.Keys == was.Keys == now.Keys
    && forall c :: c in was ==>
         now[c] == if c in list[..end] && was[c] == Initialized && info[c].start then Started else was[c]
  }

  /** The states an event records are those found when its component's turn came. */
  ghost predicate InTurn(list: seq<Comp>, info: map<Comp, Info>, was: map<Comp, State>, e: Event) {
    e.Start? && exists i :: 0 <= i < |list| && list[i] == e.c && StartedTo(list, info, i, was, e.states)
  }

  /** All events are starts that were due and succeeded, and these are they. */
  ghost predicate Begun(g: Graph, list: seq<Comp>, info: map<Comp, Info>, end: nat,
                        was: map<Comp, State>, begun: seq<Event>)
    requires end <= |list|
  {
    && AllStarted(begun) && Names(begun) == StartableTo(list, info, was, end)
    && (forall e <- begun :: Ready(g, info, e))
    && (forall e <- begun :: InTurn(list, info, was, e))
  }

  /** How far starting has come: who is started, and by which events. */
  ghost predicate Startup(g: Graph, list: seq<Comp>, info: map<Comp, Info>, end: nat,
                          was: map<Comp, State>, now: map<Comp, State>, begun: seq<Event>)
    requires end <= |list|
  {
    StartedTo(list, info, end, was, now) && Begun(g, list, info, end, was, begun)
  }

  /** The component that failed was due; those in front of it were stopped again. */
  ghost predicate GaveUp(g: Graph, list: seq<Comp>, info: map<Comp, Info>, at: nat, failed: Event, passes: Passes) {
    && at < |list| && failed.Start? && failed.c == list[at] && !failed.ok && Ready(g, info, failed)
    && passes.Stopping(Running(list, at, failed.states)) && passes.Settled()
  }

  lemma StartBegins(g: Graph, list: seq<Comp>, info: map<Comp, Info>, was: map<Comp, State>)
    requires info.Keys == was.Keys
    ensures Startup(g, list, info, 0, was, was, [])
  {
  }

  lemma StartSkip(g: Graph, list: seq<Comp>, info: map<Comp, Info>, i: nat,
                  was: map<Comp, State>, now: map<Comp, State>, begun: seq<Event>)
    requires i < |list| && NoDup(list) && list[i] in was && Startup(g, list, info, i, was, now, begun)
    requires now[list[i]] != Initialized || !info[list[i]].start
    ensures Startup(g, list, info, i + 1, was, now, begun)
  {
    NotBefore(list, i);
  }

  lemma StartedPlus(list: seq<Comp>, info: map<Comp, Info>, i: nat, was: map<Comp, State>, now: map<Comp, State>)
    requires i < |list| && NoDup(list) && list[i] in was && StartedTo(list, info, i, was, now)
    requires now[list[i]] == Initialized && info[list[i]].start
    ensures was[list[i]] == Initialized
    ensures StartedTo(list, info, i + 1, was, now[list[i] := Started])
  {
    NotBefore(list, i);
  }

  lemma BegunPlus(g: Graph, list: seq<Comp>, info: map<Comp, Info>, i: nat, was: map<Comp, State>,
                  begun: seq<Event>, e: Event)
    requires i < |list| && list[i] in was && list[i] in info && Begun(g, list, info, i, was, begun)
    requires was[list[i]] == Initialized && info[list[i]].start
    requires e.Start? && e.ok && e.c == list[i] && Ready(g, info, e) && InTurn(list, info, was, e)
    ensures Begun(g, list, info, i + 1, was, begun + [e])
  {
    hide Ready, InTurn, Names;
    RefusedPlus(begun, e);
  }

  lemma StartPlus(g: Graph, list: seq<Comp>, info: map<Comp, Info>, i: nat,
                  was: map<Comp, State>, now: map<Comp, State>, begun: seq<Event>)
    requires i < |list| && NoDup(list) && list[i] in was && Startup(g, list, info, i, was, now, begun)
    requires now[list[i]] == Initialized && info[list[i]].start && Ready(g, info, Start(list[i], true, now))
    ensures Startup(g, list, info, i + 1, was, now[list[i] := Started], begun + [Start(list[i], true, now)])
  {
    hide Ready, Begun, NoDup;
    StartedPlus(list, info, i, was, now);
    BegunPlus(g, list, info, i, was, begun, Start(list[i], true, now));
  }

  lemma DependenciesReady(g: Graph, list: seq<Comp>, info: map<Comp, Info>, was: map<Comp, State>, i: nat, e: Event)
    requires g.Valid() && Topological(g, list) && i < |list| && was.Keys == g.deps.Keys
    requires e.Start? && e.c == list[i] && StartedTo(list, info, i, was, e.states)
    requires was[list[i]] == Initialized
    requires forall k :: 0 <= k < |g.deps[list[i]]| ==> was[g.deps[list[i]][k]] != Registered
    ensures Ready(g, info, e)
  {
    assert Met(g, list[i], list[..i]);
  }

  lemma GoesOn(passes: Passes, evs: seq<Event>, running: seq<Comp>)
    requires passes.Stopping(running) && IsPass(evs, Refused(passes.evs), true) && Refused(passes.evs) != []
    requires passes.First? || |Refused(passes.evs)| < |passes.evs|
    ensures Then(passes, evs).Stopping(running)
    ensures |passes.evs| >= |evs| == |Refused(passes.evs)|
    ensures Then(passes, evs).Events() == passes.Events() + evs
  {
    assert |Names(evs)| == |evs|;
  }

  class Manager {
    const g: Graph
    const info: map<Comp, Info>
    const list: seq<Comp>
    var state: map<Comp, State>
    ghost var log: seq<Event>

    ghost predicate Valid()
      reads this
    {
      && g.Valid() && info.Keys == g.deps.Keys && state.Keys == g.deps.Keys
      && NoDup(list) && Topological(g, list)
    }

    constructor (g: Graph, info: map<Comp, Info>, list: seq<Comp>)
      requires g.Valid() && info.Keys == g.deps.Keys && NoDup(list) && Topological(g, list)
      ensures Valid() && this.g == g && this.info == info && this.list == list && log == []
      ensures forall c :: c in state ==> state[c] == Registered
    {
      this.g, this.info, this.list := g, info, list;
      state := map c | c in g.deps :: Registered;
      log := [];
    }

    // ----------------------------------------------------------------- stopping

    /** `stop`: ask a component to stop, if it is started. */
    method StopOne(c: Comp, deferred: bool)
      requires Valid() && c in state
      modifies this`state, this`log
      ensures Valid()
      ensures state == old(state) || (old(state[c]) == Started && state == old(state)[c := Initialized])
      ensures log == old(log) + if old(state[c]) != Started then [] else [Stop(c, deferred, state != old(state))]
      ensures old(state[c]) == Started ==> (state == old(state) <==> state[c] == Started)
      ensures !info[c].onStop && !info[c].main ==> state[c] != Started
    {
      if state[c] != Started {
        return;
      }
      var stopped := true;
      if !info[c].onStop && info[c].main {
        stopped := *;
      } else if info[c].onStop {
        stopped := *;
      }
      log := log + [Stop(c, deferred, stopped)];
      if stopped {
        state := state[c := Initialized];
      }
    }

    /** One pass of `stopUntil` over the components in front of `end`, from the last to the first. */
    method StopPass(end: nat, deferred: bool) returns (progress: bool, remaining: bool, ghost evs: seq<Event>)
      requires Valid() && end <= |list|
      modifies this`state, this`log
      ensures Valid() && OnlyStopped(list, end, old(state), state) && log == old(log) + evs
      ensures IsPass(evs, Running(list, end, old(state)), deferred)
      ensures Running(list, end, state) == Refused(evs)
      ensures remaining <==> Refused(evs) != []
      ensures progress <==> |Refused(evs)| < |evs|
    {
      progress, remaining, evs := false, false, [];
      var i: nat := end;
      while i > 0
        invariant Valid() && i <= end && log == old(log) + evs
        invariant PassedTo(list, i, end, old(state), state, evs, deferred)
        invariant remaining <==> Refused(evs) != []
        invariant progress <==> |Refused(evs)| < |evs|
      {
        i := i - 1;
        var c := list[i];
        ghost var before := state;
        if state[c] != Started {
          PassedIdle(list, i, end, old(state), state, evs, deferred);
        } else {
          StopOne(c, deferred);
          ghost var e := Stop(c, deferred, state != before);
          PassedRunning(list, i, end, old(state), before, evs, deferred, state);
          RefusedPlus(evs, e);
          evs := evs + [e];
          progress := progress || state[c] != Started;
          remaining := remaining || state[c] == Started;
        }
      }
      assert list[0..end] == list[..end];
    }

    /**
     `stopUntil`. Whatever the callbacks answer, it ends, and `Stopping` and
     `Settled` say how: a first pass in exact reverse order, deferred passes over
     those who refused as long as there is progress, and at the end nobody runs or
     a whole pass stopped nobody.
     */
    method StopUntil(end: nat) returns (ghost passes: Passes)
      requires Valid() && end <= |list|
      modifies this`state, this`log
      ensures Valid() && OnlyStopped(list, end, old(state), state) && log == old(log) + passes.Events()
      ensures passes.Stopping(Running(list, end, old(state))) && passes.Settled()
      ensures Running(list, end, state) == Refused(passes.evs)
    {
      ghost var evs;
      var progress, deferred;
      progress, deferred, evs := StopPass(end, false);
      passes := First(evs);
      progress := true;
      while deferred && progress
        invariant Valid() && OnlyStopped(list, end, old(state), state) && log == old(log) + passes.Events()
        invariant passes.Stopping(Running(list, end, old(state)))
        invariant Running(list, end, state) == Refused(passes.evs)
        invariant deferred <==> Refused(passes.evs) != []
        invariant progress <==> passes.First? || |Refused(passes.evs)| < |passes.evs|
        decreases |Running(list, end, state)|, progress
      {
        ghost var before := state;
        progress, deferred, evs := StopPass(end, true);
        GoesOn(passes, evs, Running(list, end, old(state)));
        StoppedFurther(list, end, old(state), before, state);
        passes := Then(passes, evs);
      }
      RefusedAll(passes.evs);
    }

    /** `COMP_stopAll`. */
    method StopAll() returns (ghost passes: Passes)
      requires Valid()
      modifies this`state, this`log
      ensures Valid() && OnlyStopped(list, |list|, old(state), state) && log == old(log) + passes.Events()
      ensures passes.Stopping(Running(list, |list|, old(state))) && passes.Settled()
      ensures Running(list, |list|, state) == Refused(passes.evs)
    {
      passes := StopUntil(|list|);
    }

    // ------------------------------------------------- constructing, destructing

    /** `destruct`, for every component in front of `end`, from the last to the first. */
    method DestructUntil(end: nat) returns (ghost evs: seq<Event>)
      requires Valid() && end <= |list|
      requires forall i :: 0 <= i < end ==> state[list[i]] != Started
      modifies this`state, this`log
      ensures Valid() && log == old(log) + evs
      ensures AllDestructs(evs) && Names(evs) == Between(list, 0, end, old(state), Initialized)
      ensures forall c :: c in state ==> state[c] == if c in list[..end] then Registered else old(state[c])
    {
      evs := [];
      var i: nat := end;
      while i > 0
        invariant Valid() && i <= end && log == old(log) + evs
        invariant AllDestructs(evs) && Names(evs) == Between(list, i, end, old(state), Initialized)
        invariant forall c :: c in state ==> state[c] == if c in list[i..end] then Registered else old(state[c])
      {
        i := i - 1;
        NotAgain(list, i, end);
        var c := list[i];
        if state[c] == Initialized {
          RefusedPlus(evs, Destruct(c));
          evs := evs + [Destruct(c)];
          log := log + [Destruct(c)];
          state := state[c := Registered];
        }
      }
      assert list[0..end] == list[..end];
    }

    /** `COMP_destructAll`. */
    method DestructAll() returns (ghost evs: seq<Event>)
      requires Valid() && forall i :: 0 <= i < |list| ==> state[list[i]] != Started
      modifies this`state, this`log
      ensures Valid() && log == old(log) + evs
      ensures AllDestructs(evs) && Names(evs) == Between(list, 0, |list|, old(state), Initialized)
      ensures forall c :: c in state ==> state[c] == if c in list then Registered else old(state[c])
    {
      evs := DestructUntil(|list|);
      assert list[..|list|] == list;
    }

    predicate DependenciesEnabled(c: Comp)
      requires Valid() && c in g.deps
      reads this
    {
      forall k :: 0 <= k < |g.deps[c]| ==> info[g.deps[c][k]].enabled
    }

    /** An enabled component must not depend on a disabled one. */
    ghost predicate EnabledClosed()
      requires Valid()
      reads this
    {
      forall i :: 0 <= i < |list| && info[list[i]].enabled ==> DependenciesEnabled(list[i])
    }

    /** `checkEnabledDependencies`; if it fails, the program ends. */
    method CheckEnabledDependencies() returns (ok: bool)
      requires Valid()
      ensures ok <==> EnabledClosed()
    {
      for i := 0 to |list|
        invariant forall k :: 0 <= k < i && info[list[k]].enabled ==> DependenciesEnabled(list[k])
      {
        if info[list[i]].enabled && !DependenciesEnabled(list[i]) {
          return false;
        }
      }
      return true;
    }

    /** What a component depends on is constructed if it is. */
    ghost predicate ConstructedDependencies(states: map<Comp, State>)
      requires Valid() && states.Keys == state.Keys
      reads this
    {
      forall i, k :: 0 <= i < |list| && states[list[i]] != Registered && 0 <= k < |g.deps[list[i]]| ==>
        states[g.deps[list[i]][k]] != Registered
    }

    lemma ConstructedWithDependencies()
      requires Valid() && EnabledClosed() && ConstructedTo(list, info, |list|, state)
      ensures ConstructedDependencies(state)
    {
      assert list[..|list|] == list;
      forall i, k | 0 <= i < |list| && state[list[i]] != Registered && 0 <= k < |g.deps[list[i]]|
        ensures state[g.deps[list[i]][k]] != Registered
      {
        assert DependenciesEnabled(list[i]);
        assert Met(g, list[i], list[..i]);
      }
    }

    /** One round of `COMP_initAll` for an enabled component. */
    method ConstructOne(i: nat, ghost made: seq<Event>) returns (constructed: bool)
      requires Valid() && i < |list| && Made(list, info, i, state, made) && info[list[i]].enabled
      modifies this`state, this`log
      ensures Valid() && log == old(log) + [Construct(list[i], constructed)]
      ensures constructed ==> Made(list, info, i + 1, state, made + [Construct(list[i], true)])
      ensures !constructed ==> state == old(state) && info[list[i]].onConstruct
    {
      MadePlus(list, info, i, state, made);
      constructed := true;
      if info[list[i]].onConstruct {
        constructed := *;
      }
      log := log + [Construct(list[i], constructed)];
      if constructed {
        state := state[list[i] := Initialized];
      }
    }

    /**
     `COMP_initAll`, behind its check. All enabled components are constructed in
     list order; if one fails (`at` is its place), those constructed before are
     destructed again in exact reverse order and everything is as it was.
     */
    method InitAll() returns (ok: bool, ghost at: nat, ghost made: seq<Event>, ghost undone: seq<Event>)
      requires Valid() && EnabledClosed() && forall c :: c in state ==> state[c] == Registered
      modifies this`state, this`log
      ensures Valid() && at <= |list| && AllConstructed(made) && Names(made) == EnabledTo(list, info, at)
      ensures ok ==>
                && at == |list| && ConstructedTo(list, info, |list|, state) && ConstructedDependencies(state)
                && log == old(log) + made
      ensures !ok ==>
                && at < |list| && info[list[at]].enabled && info[list[at]].onConstruct && state == old(state)
                && log == old(log) + made + [Construct(list[at], false)] + undone
                && AllDestructs(undone) && Names(undone) == Reverse(Names(made))
    {
      hide NoDup, ConstructedTo, AllConstructed, AllDestructs;
      MadeBegins(list, info, state);
      ok, made, undone, at := true, [], [], |list|;
      for i := 0 to |list|
        invariant state.Keys == g.deps.Keys && log == old(log) + made
        invariant Made(list, info, i, state, made)
      {
        if !info[list[i]].enabled {
          MadeSkip(list, info, i, state, made);
        } else {
          var constructed := ConstructOne(i, made);
          if !constructed {
            ghost var before := state;
            NoneStarted(list, info, i, state);
            undone := DestructUntil(i);
            NothingLeft(list, info, i, before, state);
            assert state == old(state);
            ok, at := false, i;
            break;
          }
          Glue(old(log), made, [Construct(list[i], true)]);
          made := made + [Construct(list[i], true)];
        }
      }
      if ok {
        ConstructedWithDependencies();
      }
    }

    // ------------------------------------------------------------------ starting

    /** One round of `COMP_startAll` for a component that is to be started. */
    method StartOne(i: nat, ghost was: map<Comp, State>, ghost begun: seq<Event>) returns (started: bool)
      requires Valid() && i < |list| && state[list[i]] == Initialized && info[list[i]].start
      requires was.Keys == state.Keys && ConstructedDependencies(was)
      requires Startup(g, list, info, i, was, state, begun)
      modifies this`state, this`log
      ensures Valid() && log == old(log) + [Start(list[i], started, old(state))]
      ensures Ready(g, info, Start(list[i], started, old(state)))
      ensures started ==> Startup(g, list, info, i + 1, was, state, begun + [Start(list[i], true, old(state))])
      ensures !started ==> state == old(state) && (info[list[i]].onStart || info[list[i]].main)
    {
      var c := list[i];
      started := true;
      if !info[c].onStart && info[c].main {
        started := *;
      } else if info[c].onStart {
        started := *;
      }
      DependenciesReady(g, list, info, was, i, Start(c, started, state));
      log := log + [Start(c, started, state)];
      if started {
        StartPlus(g, list, info, i, was, state, begun);
        state := state[c := Started];
      }
    }

    /**
     `COMP_startAll`. Components start in list order, and each one only when all
     its dependencies are constructed, and started if their start flag is set. If
     one fails (`at` is its place), those in front of it are stopped again as
     `StopUntil` does it.
     */
    method StartAll() returns (ok: bool, ghost at: nat, ghost begun: seq<Event>,
                             ghost failed: Event, ghost passes: Passes)
      requires Valid() && ConstructedDependencies(state)
      modifies this`state, this`log
      ensures Valid() && at <= |list| && Begun(g, list, info, at, old(state), begun)
      ensures ok ==> at == |list| && StartedTo(list, info, |list|, old(state), state) && log == old(log) + begun
      ensures !ok ==> GaveUp(g, list, info, at, failed, passes) && Running(list, at, state) == Refused(passes.evs)
      ensures !ok ==>
                && StartedTo(list, info, at, old(state), failed.states)
                && failed.states[list[at]] == Initialized && info[list[at]].start
                && (info[list[at]].onStart || info[list[at]].main)
                && OnlyStopped(list, at, failed.states, state)
                && log == old(log) + begun + [failed] + passes.Events()
    {
      hide NoDup, Ready, InTurn, Begun, StartedTo, OnlyStopped, Running, Refused;
      StartBegins(g, list, info, state);
      ok, begun, passes, at, failed := true, [], First([]), |list|, Destruct(0);
      for i := 0 to |list|
        invariant state.Keys == g.deps.Keys && log == old(log) + begun
        invariant Startup(g, list, info, i, old(state), state, begun)
      {
        var c := list[i];
        if state[c] != Initialized || !info[c].start {
          StartSkip(g, list, info, i, old(state), state, begun);
        } else {
          ghost var begin := Start(c, true, state);
          failed := Start(c, false, state);
          var started := StartOne(i, old(state), begun);
          if !started {
            passes := StopUntil(i);
            ok, at := false, i;
            break;
          }
          Glue(old(log), begun, [begin]);
          begun := begun + [begin];
        }
      }
    }
  }
}
