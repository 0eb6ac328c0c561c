/**
  A SIP event on its way through the module chain: it is processed module after module,
  may be suspended and kept, and is injected again after the module that has it.

  What a module does to an event is arbitrary: a `Reaction` lists its calls on the event
  and whether it keeps the event or hands it back.
  */
module EventPipeline {
  import opened Collections

  type ModuleId = nat

  datatype State = Started | Suspended | Terminated

  datatype Op = Terminate | Suspend

  datatype Reaction = Reaction(ops: seq<Op>, keeps: bool)

  /** How a walk ends: a module kept the event, it was handed back, or an exception was thrown. */
  datatype Ending = Kept | Returned | Thrown

  // ----- The state of an event -----

  /** A call on the event; none when it throws. */
  function Apply(s: State, op: Op): Option<State>
  {
    match op
    case Terminate => Some(Terminated)
    case Suspend => if s == Started then Some(Suspended) else None
  }

  /** The state after a module has processed the event, and whether the module keeps it.  The first call
      that throws ends the processing; a request is then answered with an error, which terminates it. */
  function React(s: State, ops: seq<Op>, keeps: bool, request: bool): (State, bool)
    decreases |ops|
  {
    if ops == [] then (s, keeps)
    else
      match Apply(s, ops[0])
      case Some(next) => React(next, ops[1..], keeps, request)
      case None => (if request then Terminated else s, false)
  }

  class SipEvent {
    var state: State
    var currModule: Option<ModuleId>

    constructor ()
      ensures state == Started && currModule == None
    {
      state, currModule := Started, None;
    }

    /** makeRestored: a request that is taken up again where another one was suspended. */
    constructor Restored(module': ModuleId)
      ensures state == Suspended && currModule == Some(module')
    {
      state, currModule := Suspended, Some(module');
    }

    method TerminateProcessing()
      modifies this`state
      ensures state == Terminated
    {
      if state == Started || state == Suspended {
        state := Terminated;
      }
    }

    method SuspendProcessing() returns (threw: bool)
      modifies this`state
      ensures Apply(old(state), Suspend) == if threw then None else Some(state)
      ensures threw ==> state == old(state)
    {
      threw := state != Started;
      if !threw {
        state := Suspended;
      }
    }

    method RestartProcessing() returns (threw: bool)
      modifies this`state
      ensures threw <==> old(state) != Suspended
      ensures state == if threw then old(state) else Started
    {
      threw := state != Suspended;
      if !threw {
        state := Started;
      }
    }

    /** Module::processRequest and processResponse. */
    method Process(r: Reaction, request: bool) returns (keeps: bool)
      modifies this`state
      ensures (state, keeps) == React(old(state), r.ops, r.keeps, request)
    {
      for i := 0 to |r.ops|
        invariant React(state, r.ops[i..], r.keeps, request) == React(old(state), r.ops, r.keeps, request)
      {
        assert r.ops[i..][1..] == r.ops[i + 1..];
        var threw := false;
        if r.ops[i] == Terminate {
          TerminateProcessing();
        } else {
          threw := SuspendProcessing();
        }
        if threw {
          if request {
            TerminateProcessing();
          }
          return false;
        }
      }
      keeps := r.keeps;
    }
  }

  // ----- The walk -----

  /** An event as far as the chain is concerned: its state, the position it reached (-1 before the first),
      and the positions of the modules that have seen it. */
  datatype View = View(state: State, at: int, visited: seq<int>)

  function Walk(v: View, p: nat, rs: seq<Reaction>, request: bool): (View, Ending)
    decreases |rs| - p
  {
    if p >= |rs| then (v, if v.state == Started then Thrown else Returned)
    else
      var (s, keeps) := React(v.state, rs[p].ops, rs[p].keeps, request);
      var seen := View(s, p, v.visited + [p]);
      if keeps then (seen, Kept)
      else if s != Started then (seen, Returned)
      else Walk(seen, p + 1, rs, request)
  }

  ghost predicate Distinct(modules: seq<ModuleId>)
  {
    forall i, j | 0 <= i < j < |modules| :: modules[i] != modules[j]
  }

  /** The event stands where the view says. */
  ghost predicate Stands(ev: SipEvent, modules: seq<ModuleId>, v: View)
    reads ev
  {
    ev.state == v.state && -1 <= v.at < |modules| && ev.currModule == if v.at < 0 then None else Some(modules[v.at])
  }

  /** Agent::doSendEvent.  The reactions are those of the modules at their positions. */
  method DoSendEvent(ev: SipEvent, modules: seq<ModuleId>, begin: nat, rs: seq<Reaction>, request: bool, ghost v: View)
    returns (ending: Ending)
    requires |rs| == |modules| && begin <= |modules| && Stands(ev, modules, v)
    modifies ev
    ensures ending == Walk(v, begin, rs, request).1
    ensures Stands(ev, modules, Walk(v, begin, rs, request).0)
  {
    ghost var now := v;
    var it := begin;
    while it != |modules|
      invariant begin <= it <= |modules| && Stands(ev, modules, now)
      invariant Walk(now, it, rs, request) == Walk(v, begin, rs, request)
    {
      ev.currModule := Some(modules[it]);
      var keeps := ev.Process(rs[it], request);
      now := View(ev.state, it, now.visited + [it]);
      if keeps {
        return Kept;
      }
      if ev.state == Terminated || ev.state == Suspended {
        return Returned;
      }
      it := it + 1;
    }
    ending := if ev.state != Terminated && ev.state != Suspended then Thrown else Returned;
  }

  /** Agent::injectRequestEvent and injectResponseEvent. */
  function Inject(v: View, rs: seq<Reaction>, request: bool): (View, Ending)
    requires v.at >= 0
  {
    if v.state != Suspended then (v, Thrown) else Walk(v.(state := Started), v.at + 1, rs, request)
  }

  method InjectEvent(ev: SipEvent, modules: seq<ModuleId>, rs: seq<Reaction>, request: bool, ghost v: View)
    returns (ending: Ending)
    requires |rs| == |modules| && Distinct(modules) && Stands(ev, modules, v) && v.at >= 0
    modifies ev
    ensures ending == Inject(v, rs, request).1
    ensures Stands(ev, modules, Inject(v, rs, request).0)
  {
    var threw := ev.RestartProcessing();
    if threw {
      return Thrown;
    }
    var it := 0;
    while it < |modules| && Some(modules[it]) != ev.currModule
      invariant 0 <= it <= v.at
    {
      it := it + 1;
    }
    ending := DoSendEvent(ev, modules, it + 1, rs, request, v.(state := Started));
  }

  // ----- Whole lives -----

  /** What its holder does to a suspended or returned event before injecting it again, and what the modules
      then do. */
  datatype Episode = Episode(ops: seq<Op>, rs: seq<Reaction>)

  /** The life of an event: sent once, or restored at a module, then injected again and again until nobody
      has it.  Exceptions end it. */
  function Life(first: (View, Ending), episodes: seq<Episode>, request: bool): (View, Ending)
  {
    if episodes == [] then first
    else Resume(Life(first, episodes[..|episodes| - 1], request), episodes[|episodes| - 1], request)
  }

  function Resume(held: (View, Ending), e: Episode, request: bool): (View, Ending)
  {
    var (v, ending) := held;
    if ending == Thrown || v.at < 0 then held
    else Inject(v.(state := React(v.state, e.ops, true, request).0), e.rs, request)
  }

  /** Positions in strictly rising order, below `n`, the last one `at`. */
  ghost predicate Rising(v: View, n: nat)
  {
    && (forall i, j | 0 <= i < j < |v.visited| :: v.visited[i] < v.visited[j])
    && (forall i | 0 <= i < |v.visited| :: 0 <= v.visited[i] <= v.at)
    && -1 <= v.at < n
  }

  lemma {:induction false} WalkRises(v: View, p: nat, rs: seq<Reaction>, request: bool)
    requires Rising(v, |rs|) && v.at < p
    ensures var (w, ending) := Walk(v, p, rs, request);
            && Rising(w, |rs|) && v.visited <= w.visited && w.at >= v.at
            && (ending == Returned ==> w.state != Started)
            && (v.state == Terminated ==> w.state == Terminated && |w.visited| <= |v.visited| + 1)
    decreases |rs| - p
  {
    if p < |rs| {
      var (s, keeps) := React(v.state, rs[p].ops, rs[p].keeps, request);
      TerminatedStays(v.state, rs[p].ops, rs[p].keeps, request);
      if !keeps && s == Started {
        WalkRises(View(s, p, v.visited + [p]), p + 1, rs, request);
      }
    }
  }

  lemma {:induction false} TerminatedStays(s: State, ops: seq<Op>, keeps: bool, request: bool)
    ensures s == Terminated ==> React(s, ops, keeps, request).0 == Terminated
    decreases |ops|
  {
    if ops != [] && Apply(s, ops[0]).Some? {
      TerminatedStays(Apply(s, ops[0]).value, ops[1..], keeps, request);
    }
  }

  // ----- What a reaction comes to -----

  /** Suspending throws unless it is the first call and the event is started. */
  predicate Throws(s: State, ops: seq<Op>, i: nat)
    requires i < |ops|
  {
    ops[i] == Suspend && (i > 0 || s != Started)
  }

  /** The state after calls of which none throws. */
  function StateAfter(s: State, ops: seq<Op>): State
  {
    if ops == [] then s else if Terminate in ops then Terminated else Suspended
  }

  /** A reaction whose calls do not throw leaves the event terminated if one of them terminates it, suspended if they
      only suspend it, and as it was if there are none, and the module's choice stands.  Otherwise the event comes back:
      a request terminated, a response in the state before the first call that throws. */
  lemma {:induction false} ReactExactly(s: State, ops: seq<Op>, keeps: bool, request: bool, n: nat)
    requires n <= |ops| && (forall i: nat | i < n :: !Throws(s, ops, i)) && (n < |ops| ==> Throws(s, ops, n))
    ensures React(s, ops, keeps, request) ==
            if n == |ops| then (StateAfter(s, ops), keeps)
            else (if request then Terminated else StateAfter(s, ops[..n]), false)
    decreases |ops|
  {
    if n > 0 {
      assert !Throws(s, ops, 0);
      var next, rest := Apply(s, ops[0]).value, ops[1..];
      forall i: nat | i < |rest|
        ensures Throws(next, rest, i) == Throws(s, ops, i + 1)
      {}
      ReactExactly(next, rest, keeps, request, n - 1);
      assert ops == [ops[0]] + rest && ops[..n] == [ops[0]] + rest[..n - 1];
      forall i: nat | i < n - 1
        ensures rest[i] == Terminate
      {
        assert !Throws(s, ops, i + 1);
      }
      AfterFirst(s, ops[0], rest[..n - 1]);
    }
  }

  lemma AfterFirst(s: State, op: Op, rest: seq<Op>)
    requires Apply(s, op).Some? && forall i: nat | i < |rest| :: rest[i] == Terminate
    ensures StateAfter(Apply(s, op).value, rest) == StateAfter(s, [op] + rest)
  {
    if rest != [] {
      assert rest[0] in rest;
    }
  }

  /** The module hands the event back and it is to go on. */
  predicate Passes(s: State, r: Reaction, request: bool)
  {
    React(s, r.ops, r.keeps, request) == (Started, false)
  }

  /** The positions from `p` up to `q`. */
  function Positions(p: int, q: int): (r: seq<int>)
    ensures |r| == (if p < q then q - p else 0) && forall i | 0 <= i < |r| :: r[i] == p + i
    decreases q - p
  {
    if p >= q then [] else [p] + Positions(p + 1, q)
  }

  /** A walk visits every position from where it starts to where it ends, one after the other; all modules but the last
      of them hand a started event back; and it ends at the first module that does not, or else at the end of the
      chain, by an exception. */
  lemma {:induction false} WalkExactly(v: View, p: nat, rs: seq<Reaction>, request: bool)
    requires p < |rs|
    ensures var (w, ending) := Walk(v, p, rs, request);
            && p <= w.at < |rs| && w.visited == v.visited + Positions(p, w.at + 1)
            && (forall q | p <= q < w.at :: Passes(if q == p then v.state else Started, rs[q], request))
            && var (s, keeps) := React(if w.at == p then v.state else Started, rs[w.at].ops, rs[w.at].keeps, request);
               && w.state == s
               && ending == (if keeps then Kept else if s != Started then Returned else Thrown)
               && (ending == Thrown ==> w.at == |rs| - 1)
    decreases |rs| - p
  {
    var (s, keeps) := React(v.state, rs[p].ops, rs[p].keeps, request);
    var seen := View(s, p, v.visited + [p]);
    if !keeps && s == Started && p + 1 < |rs| {
      WalkExactly(seen, p + 1, rs, request);
      var w := Walk(seen, p + 1, rs, request).0;
      Assoc(v.visited, [p], Positions(p + 1, w.at + 1));
    }
  }

  /** The event has been at all positions from `from` to where it stands. */
  ghost predicate NoGap(v: View, from: int)
  {
    v.at >= from - 1 && v.visited == Positions(from, v.at + 1)
  }

  lemma WalkNoGap(v: View, rs: seq<Reaction>, request: bool, from: int)
    requires NoGap(v, from) && -1 <= v.at < |rs| && from >= 0
    ensures NoGap(Walk(v, v.at + 1, rs, request).0, from)
  {
    if v.at + 1 < |rs| {
      WalkExactly(v, v.at + 1, rs, request);
      PositionsBoth(from, v.at + 1, Walk(v, v.at + 1, rs, request).0.at + 1);
    }
  }

  lemma {:induction false} PositionsBoth(p: int, q: int, r: int)
    requires p <= q <= r
    ensures Positions(p, q) + Positions(q, r) == Positions(p, r)
    decreases q - p
  {
    if p < q {
      PositionsBoth(p + 1, q, r);
      assert ([p] + Positions(p + 1, q)) + Positions(q, r) == [p] + (Positions(p + 1, q) + Positions(q, r));
    } else {
      assert [] + Positions(q, r) == Positions(q, r);
    }
  }

  /** How a life begins: sent from the first module, or restored at a module as a suspended event. */
  ghost predicate Beginning(first: (View, Ending), rs: seq<Reaction>, request: bool)
  {
    || first == Walk(View(Started, -1, []), 0, rs, request)
    || (first.1 == Kept && first.0.state == Suspended && first.0.visited == [] && 0 <= first.0.at < |rs|)
  }

  /** Over every life the positions an event visits strictly rise, so no module sees it twice, and an event
      that is handed back is terminated or suspended. */
  lemma {:induction false} SeenAtMostOnce(first: (View, Ending), rs: seq<Reaction>, episodes: seq<Episode>,
                                          request: bool)
    requires Beginning(first, rs, request)
    requires forall i | 0 <= i < |episodes| :: |episodes[i].rs| == |rs|
    ensures var (v, ending) := Life(first, episodes, request);
            && Rising(v, |rs|) && |v.visited| <= |rs|
            && (ending == Returned ==> v.state == Terminated || v.state == Suspended)
  {
    LifeRises(first, rs, episodes, request);
    var v := Life(first, episodes, request).0;
    RisingIsShort(v, |rs|, |v.visited|);
  }

  lemma {:induction false} LifeRises(first: (View, Ending), rs: seq<Reaction>, episodes: seq<Episode>, request: bool)
    requires Beginning(first, rs, request)
    requires forall i | 0 <= i < |episodes| :: |episodes[i].rs| == |rs|
    ensures var (v, ending) := Life(first, episodes, request);
            Rising(v, |rs|) && (ending == Returned ==> v.state != Started)
  {
    if episodes == [] {
      WalkRises(View(Started, -1, []), 0, rs, request);
    } else {
      var before := episodes[..|episodes| - 1];
      LifeRises(first, rs, before, request);
      var (v, ending) := Life(first, before, request);
      if ending != Thrown && v.at >= 0 {
        WalkRises(v.(state := Started), v.at + 1, episodes[|episodes| - 1].rs, request);
      }
    }
  }

  /** The first module that sees the event. */
  function Onset(first: (View, Ending)): int
  {
    if first.0.visited == [] then first.0.at + 1 else 0
  }

  lemma BeginsThere(first: (View, Ending), rs: seq<Reaction>, request: bool)
    requires Beginning(first, rs, request)
    ensures Onset(first) >= 0 && NoGap(first.0, Onset(first)) && first.0.at < |rs|
  {
    if first == Walk(View(Started, -1, []), 0, rs, request) {
      WalkNoGap(View(Started, -1, []), rs, request, 0);
      if 0 < |rs| {
        WalkExactly(View(Started, -1, []), 0, rs, request);
      }
    }
  }

  /** Over every life no module is passed over: the positions visited are all those from the first module, or from the
      one after the module that it was restored at, to where the event stands. */
  lemma {:induction false} NoneSkipped(first: (View, Ending), rs: seq<Reaction>, episodes: seq<Episode>, request: bool)
    requires Beginning(first, rs, request)
    requires forall i | 0 <= i < |episodes| :: |episodes[i].rs| == |rs|
    ensures var v := Life(first, episodes, request).0; NoGap(v, Onset(first)) && v.at < |rs|
  {
    BeginsThere(first, rs, request);
    if episodes != [] {
      var before, last := episodes[..|episodes| - 1], episodes[|episodes| - 1];
      NoneSkipped(first, rs, before, request);
      ResumeNoGap(Life(first, before, request), last, request, Onset(first));
    }
  }

  lemma ResumeNoGap(held: (View, Ending), e: Episode, request: bool, from: int)
    requires NoGap(held.0, from) && held.0.at < |e.rs| && from >= 0
    ensures var v := Resume(held, e, request).0; NoGap(v, from) && v.at < |e.rs|
  {
    if held.1 != Thrown && held.0.at >= 0 {
      GoesOn(held.0.(state := Started), e.rs, request, from);
    }
  }

  lemma GoesOn(v: View, rs: seq<Reaction>, request: bool, from: int)
    requires NoGap(v, from) && -1 <= v.at < |rs| && from >= 0
    ensures var w := Walk(v, v.at + 1, rs, request).0; NoGap(w, from) && w.at < |rs|
  {
    WalkNoGap(v, rs, request, from);
    if v.at + 1 < |rs| {
      WalkExactly(v, v.at + 1, rs, request);
    }
  }

  lemma {:induction false} RisingIsShort(v: View, n: nat, k: nat)
    requires Rising(v, n) && k <= |v.visited|
    ensures k <= n && (k > 0 ==> v.visited[k - 1] >= k - 1)
  {
    if k > 1 {
      RisingIsShort(v, n, k - 1);
      assert v.visited[k - 2] < v.visited[k - 1];
    }
    assert k > 0 ==> v.visited[k - 1] <= v.at;
  }

  /** A terminated event is never restarted: whatever its holders do, no module sees it again. */
  lemma {:induction false} NeverRestarted(first: (View, Ending), episodes: seq<Episode>, more: seq<Episode>,
                                          request: bool)
    requires Life(first, episodes, request).0.state == Terminated
    ensures var v := Life(first, episodes, request).0; var w := Life(first, episodes + more, request).0;
            w.state == Terminated && w.visited == v.visited && w.at == v.at
  {
    if more == [] {
      assert episodes + more == episodes;
    } else {
      var all, last := episodes + more, more[|more| - 1];
      assert all[..|all| - 1] == episodes + more[..|more| - 1];
      NeverRestarted(first, episodes, more[..|more| - 1], request);
      TerminatedStays(Terminated, last.ops, true, request);
    }
  }
}
