/**
  The reentrant mutex built from two plain ones, as a protocol.

  Any number of threads call `lock` and `unlock`.  Every step is one access to a shared
  field or one operation on a plain mutex; a step on a mutex that is held waits.  A
  schedule says who moves next, so the states of all schedules are the reachable ones.
  */
module ReentrantMutex {

  /** pthread_t; 0 stands for no thread. */
  type Thread = t: nat | t > 0 witness 1

  /** Where a thread is in `lock` or `unlock`: the step it takes next. */
  datatype Pc =
    | Out
    | LockEnter | LockTest | LockRelease | LockWait | LockReenter | LockClaim | LockCount | LockLeave
    | UnlockEnter | UnlockTest | UnlockCount | UnlockDisown | UnlockMutex | UnlockLeave

  /** `owner` is mThread, `count` is mCount; `mutex` and `intern` are who holds mMutex and
      mInternalMutex.  `depth` is not in the source: it counts the completed locks of a
      thread that it has not undone. */
  datatype State = State(pc: Thread -> Pc, depth: Thread -> int, owner: nat, count: int, mutex: nat, intern: nat)

  datatype Call = CallLock | CallUnlock

  const INIT := State(t => Out, t => 0, 0, 0, 0, 0)

  function Set<V>(f: Thread -> V, t: Thread, v: V): Thread -> V
  {
    (u: Thread) => if u == t then v else f(u)
  }

  predicate Enabled(s: State, t: Thread)
  {
    match s.pc(t)
    case LockEnter | LockReenter | UnlockEnter => s.intern == 0
    case LockWait => s.mutex == 0
    case _ => true
  }

  /** The step of thread `t`; `call` matters only when it is outside. */
  function Step(s: State, t: Thread, call: Call): State
    requires Enabled(s, t)
  {
    var go := (p: Pc) => s.(pc := Set(s.pc, t, p));
    match s.pc(t)
    case Out => go(if call == CallLock then LockEnter else UnlockEnter)
    case LockEnter => go(LockTest).(intern := t)
    case LockTest => go(if s.owner != t then LockRelease else LockCount)
    case LockRelease => go(LockWait).(intern := 0)
    case LockWait => go(LockReenter).(mutex := t)
    case LockReenter => go(LockClaim).(intern := t)
    case LockClaim => go(LockCount).(owner := t)
    case LockCount => go(LockLeave).(count := s.count + 1)
    case LockLeave => go(Out).(intern := 0, depth := Set(s.depth, t, s.depth(t) + 1))
    case UnlockEnter => go(UnlockTest).(intern := t)
    case UnlockTest => go(if s.owner == t then UnlockCount else UnlockLeave)
    case UnlockCount =>
      go(if s.count - 1 == 0 then UnlockDisown else UnlockLeave)
      .(count := s.count - 1, depth := Set(s.depth, t, s.depth(t) - 1))
    case UnlockDisown => go(UnlockMutex).(owner := 0)
    case UnlockMutex => go(UnlockLeave).(mutex := 0)
    case UnlockLeave => go(Out).(intern := 0)
  }

  /** The state after a schedule; a thread that has to wait does not move. */
  function Run(schedule: seq<(Thread, Call)>): State
  {
    if schedule == [] then INIT
    else
      var s := Run(schedule[..|schedule| - 1]);
      var (t, call) := schedule[|schedule| - 1];
      if Enabled(s, t) then Step(s, t, call) else s
  }

  // ----- The invariant -----

  /** Between taking and releasing mInternalMutex. */
  predicate Inside(p: Pc)
  {
    p in {LockTest, LockRelease, LockClaim, LockCount, LockLeave,
          UnlockTest, UnlockCount, UnlockDisown, UnlockMutex, UnlockLeave}
  }

  /** Holding mMutex although mThread does not say so. */
  predicate Unclaimed(p: Pc)
  {
    p in {LockReenter, LockClaim, UnlockMutex}
  }

  ghost predicate ThreadInv(s: State, t: Thread)
  {
    var p := s.pc(t);
    && (Inside(p) <==> s.intern == t)
    && (s.owner == t || Unclaimed(p) <==> s.mutex == t)
    && s.depth(t) >= 0
    && (s.owner != t ==> s.depth(t) == 0)
    && (p in {LockRelease, LockWait, LockReenter, LockClaim, UnlockMutex} ==> s.owner != t)
    && (p in {LockCount, LockLeave, UnlockCount, UnlockDisown} ==> s.owner == t)
    && (s.owner == t ==> s.count == s.depth(t) + (if p == LockLeave then 1 else 0))
    && (s.owner == t && p !in {LockCount, LockLeave, UnlockDisown} ==> s.depth(t) > 0)
    && (p == UnlockDisown ==> s.depth(t) == 0)
  }

  ghost predicate Inv(s: State)
  {
    && (s.owner == 0 ==> s.count == 0)
    && forall t: Thread :: ThreadInv(s, t)
  }

  lemma StepKeepsInv(s: State, t: Thread, call: Call)
    requires Inv(s) && Enabled(s, t)
    ensures Inv(Step(s, t, call))
  {
    var s' := Step(s, t, call);
    assert ThreadInv(s, t);
    assert s.owner != 0 ==> ThreadInv(s, s.owner);
    forall u: Thread
      ensures ThreadInv(s', u)
    {
      assert ThreadInv(s, u);
    }
  }

  /** The invariant holds in every reachable state. */
  lemma {:induction false} Reachable(schedule: seq<(Thread, Call)>)
    ensures Inv(Run(schedule))
  {
    if schedule != [] {
      Reachable(schedule[..|schedule| - 1]);
      var s := Run(schedule[..|schedule| - 1]);
      var (t, call) := schedule[|schedule| - 1];
      if Enabled(s, t) {
        StepKeepsInv(s, t, call);
      }
    }
  }

  // ----- What the mutex promises -----

  /** At most one thread has locks outstanding; it holds mMutex, mCount is its nesting depth
      (one more in the instant before its lock returns), and locking again never touches mMutex. */
  lemma MutualExclusion(schedule: seq<(Thread, Call)>, t: Thread)
    ensures var s := Run(schedule);
            s.depth(t) > 0 ==>
              && (forall u: Thread | u != t :: s.depth(u) == 0)
              && s.owner == t && s.mutex == t
              && s.count == s.depth(t) + (if s.pc(t) == LockLeave then 1 else 0)
              && s.pc(t) !in {LockRelease, LockWait, LockReenter, LockClaim}
  {
    Reachable(schedule);
    var s := Run(schedule);
    assert ThreadInv(s, t);
    forall u: Thread | u != t && s.depth(t) > 0
      ensures s.depth(u) == 0
    {
      assert ThreadInv(s, u);
    }
  }

  /** mMutex is given back exactly by the step `UnlockMutex`, whose thread holds it, has no lock
      left, and got there from the unlock that took its depth from one to zero without waiting. */
  lemma ReleaseExactlyAtZero(schedule: seq<(Thread, Call)>, t: Thread, call: Call)
    requires Enabled(Run(schedule), t)
    ensures var s := Run(schedule); var s' := Step(s, t, call);
            && (s.mutex != 0 && s'.mutex != s.mutex <==> s.pc(t) == UnlockMutex)
            && (s.pc(t) == UnlockMutex ==> s.mutex == t && s.depth(t) == 0)
            && (s.depth(t) > 0 && s'.depth(t) == 0 <==> s'.pc(t) == UnlockDisown)
            && (s.pc(t) == UnlockDisown ==> s'.pc(t) == UnlockMutex && Enabled(s', t))
  {
    Reachable(schedule);
    assert ThreadInv(Run(schedule), t);
  }

  /** An unlock by a thread without locks takes and gives back mInternalMutex and changes nothing else. */
  lemma ForeignUnlock(schedule: seq<(Thread, Call)>, t: Thread, call: Call)
    requires Enabled(Run(schedule), t)
    requires Run(schedule).pc(t) in {UnlockEnter, UnlockTest, UnlockLeave} && Run(schedule).owner != t
    ensures var s := Run(schedule); var s' := Step(s, t, call);
            && s'.owner == s.owner && s'.count == s.count && s'.mutex == s.mutex && s'.depth == s.depth
            && s'.pc(t) in {UnlockTest, UnlockLeave, Out}
            && forall u: Thread | u != t :: s'.pc(u) == s.pc(u)
  {
    Reachable(schedule);
    assert ThreadInv(Run(schedule), t);
  }

  // ----- Deadlock -----

  /** No thread waits for mMutex while it holds mInternalMutex. */
  lemma NeverHoldAndWait(schedule: seq<(Thread, Call)>, t: Thread)
    requires Run(schedule).pc(t) == LockWait
    ensures Run(schedule).intern != t
  {
    Reachable(schedule);
    assert ThreadInv(Run(schedule), t);
  }

  /** Whoever is inside lock or unlock: some thread inside can move, or all of them wait for
      mMutex and its holder is outside both functions with locks outstanding. */
  lemma DeadlockFree(schedule: seq<(Thread, Call)>, t: Thread)
    requires Run(schedule).pc(t) != Out
    ensures var s := Run(schedule);
            || (exists u: Thread :: s.pc(u) != Out && Enabled(s, u))
            || (&& s.mutex != 0 && s.pc(s.mutex) == Out && s.depth(s.mutex) > 0
                && forall u: Thread | s.pc(u) != Out :: s.pc(u) == LockWait)
  {
    Reachable(schedule);
    var s := Run(schedule);
    if s.intern != 0 {
      var u: Thread := s.intern;
      assert ThreadInv(s, u);
      assert s.pc(u) != Out && Enabled(s, u);
    } else if forall u: Thread :: s.pc(u) != Out ==> !Enabled(s, u) {
      forall u: Thread | s.pc(u) != Out
        ensures s.pc(u) == LockWait
      {
        assert ThreadInv(s, u) && !Enabled(s, u);
      }
      assert s.pc(t) == LockWait && !Enabled(s, t);
      assert ThreadInv(s, s.mutex);
    }
  }

  // ----- Refinement -----

  datatype Effect = Took(t: Thread) | Gave(t: Thread)

  /** A reentrant lock as callers see it: who holds it, and how many times. */
  datatype Lock = Lock(holder: nat, depth: nat) {
    predicate Allows(e: Effect) { e.Took? ==> holder == 0 || holder == e.t }

    /** Unlocking what one does not hold does nothing. */
    function After(e: Effect): Lock
    {
      if e.Took? then Lock(e.t, depth + 1)
      else if holder != e.t || depth == 0 then this
      else if depth == 1 then Lock(0, 0)
      else Lock(e.t, depth - 1)
    }
  }

  ghost function View(s: State): Lock
    requires Inv(s)
  {
    if s.owner == 0 then Lock(0, 0)
    else
      assert ThreadInv(s, s.owner);
      if s.depth(s.owner) == 0 then Lock(0, 0) else Lock(s.owner, s.depth(s.owner))
  }

  /** The one step of a call at which it takes effect: `lock` when it returns, `unlock` when it
      counts down or finds that there is nothing to count down. */
  function EffectOf(s: State, t: Thread): seq<Effect>
  {
    if s.pc(t) == LockLeave then [Took(t)]
    else if s.pc(t) == UnlockCount || (s.pc(t) == UnlockTest && s.owner != t) then [Gave(t)]
    else []
  }

  /** Every step is invisible to callers or is one call on the lock they see. */
  lemma StepRefines(s: State, t: Thread, call: Call)
    requires Inv(s) && Enabled(s, t)
    ensures Inv(Step(s, t, call))
    ensures if EffectOf(s, t) == [] then View(Step(s, t, call)) == View(s)
            else View(s).Allows(EffectOf(s, t)[0]) && View(Step(s, t, call)) == View(s).After(EffectOf(s, t)[0])
  {
    StepKeepsInv(s, t, call);
    assert ThreadInv(s, t);
    if s.owner != 0 {
      assert ThreadInv(s, s.owner);
    }
    var s' := Step(s, t, call);
    if s'.owner != 0 {
      assert ThreadInv(s', s'.owner);
    }
  }

  /** The calls that took effect, in order. */
  function Effects(schedule: seq<(Thread, Call)>): seq<Effect>
  {
    if schedule == [] then []
    else
      var before := schedule[..|schedule| - 1];
      var s, t := Run(before), schedule[|schedule| - 1].0;
      Effects(before) + if Enabled(s, t) then EffectOf(s, t) else []
  }

  /** The lock after a sequence of calls. */
  function Replay(effects: seq<Effect>): Lock
  {
    if effects == [] then Lock(0, 0)
    else Replay(effects[..|effects| - 1]).After(effects[|effects| - 1])
  }

  /** Every interleaving behaves like its calls made one at a time, each one allowed when its turn comes. */
  lemma {:induction false} RunRefines(schedule: seq<(Thread, Call)>)
    ensures Inv(Run(schedule)) && View(Run(schedule)) == Replay(Effects(schedule))
    ensures forall i | 0 <= i < |Effects(schedule)| :: Replay(Effects(schedule)[..i]).Allows(Effects(schedule)[i])
  {
    Reachable(schedule);
    if schedule != [] {
      var before := schedule[..|schedule| - 1];
      RunRefines(before);
      var s := Run(before);
      var (t, call) := schedule[|schedule| - 1];
      var old', now := Effects(before), Effects(schedule);
      if Enabled(s, t) {
        StepRefines(s, t, call);
      }
      assert |now| > |old'| ==> now[..|now| - 1] == old';
      assert |now| == |old'| ==> now == old';
      forall i | 0 <= i < |now|
        ensures Replay(now[..i]).Allows(now[i])
      {
        assert i < |old'| ==> now[..i] == old'[..i] && now[i] == old'[i];
        assert i == |old'| ==> now[..i] == old';
      }
    }
  }

  // ----- Every call takes effect, once and in order -----

  /** The call that the step of `t` begins, as thread `u` sees it. */
  function Begun(s: State, t: Thread, call: Call, u: Thread): seq<Call>
  {
    if u == t && s.pc(t) == Out then [call] else []
  }

  /** The calls of a thread among those that took effect. */
  function Made(effects: seq<Effect>, u: Thread): seq<Call>
  {
    if effects == [] then []
    else
      var e := effects[|effects| - 1];
      Made(effects[..|effects| - 1], u) + if e.t == u then [if e.Took? then CallLock else CallUnlock] else []
  }

  /** The call that the thread is in and that has not taken effect yet. */
  function Pending(p: Pc): seq<Call>
  {
    match p
    case LockEnter | LockTest | LockRelease | LockWait | LockReenter | LockClaim | LockCount | LockLeave => [CallLock]
    case UnlockEnter | UnlockTest | UnlockCount => [CallUnlock]
    case _ => []
  }

  /** The calls that a thread has begun. */
  function Calls(schedule: seq<(Thread, Call)>, u: Thread): seq<Call>
  {
    if schedule == [] then []
    else
      var before := schedule[..|schedule| - 1];
      var (t, call) := schedule[|schedule| - 1];
      Calls(before, u) + Begun(Run(before), t, call, u)
  }

  lemma {:induction false} MadeBoth(a: seq<Effect>, b: seq<Effect>, u: Thread)
    ensures Made(a + b, u) == Made(a, u) + Made(b, u)
  {
    if b == [] {
      assert a + b == a;
    } else {
      var b' := b[..|b| - 1];
      MadeBoth(a, b', u);
      assert (a + b)[..|a + b| - 1] == a + b';
    }
  }

  /** What was pending or begins with this step either takes effect in it or is pending after it. */
  lemma StepCalls(s: State, t: Thread, call: Call, u: Thread)
    requires Enabled(s, t)
    ensures Pending(s.pc(u)) + Begun(s, t, call, u) == Made(EffectOf(s, t), u) + Pending(Step(s, t, call).pc(u))
  {
    assert EffectOf(s, t) != [] ==> EffectOf(s, t)[..0] == [];
  }

  lemma Regroup<T>(a: seq<T>, b: seq<T>, c: seq<T>, d: seq<T>, e: seq<T>)
    requires b + c == d + e
    ensures a + b + c == a + d + e
  {
    assert a + b + c == a + (b + c);
    assert a + d + e == a + (d + e);
  }

  /** In every run the calls that a thread has begun are those of its calls that took effect, in order, and then the one
      it is in if that has not taken effect yet.  So a thread that is outside has had all its calls obeyed. */
  lemma {:induction false} CallsTakeEffect(schedule: seq<(Thread, Call)>, u: Thread)
    ensures Calls(schedule, u) == Made(Effects(schedule), u) + Pending(Run(schedule).pc(u))
  {
    if schedule != [] {
      var before := schedule[..|schedule| - 1];
      var (t, call) := schedule[|schedule| - 1];
      CallsTakeEffect(before, u);
      TakeEffectNext(Run(before), t, call, u, Calls(before, u), Effects(before));
    }
  }

  lemma TakeEffectNext(s: State, t: Thread, call: Call, u: Thread, calls: seq<Call>, effects: seq<Effect>)
    requires calls == Made(effects, u) + Pending(s.pc(u))
    ensures calls + Begun(s, t, call, u) ==
            Made(effects + if Enabled(s, t) then EffectOf(s, t) else [], u) +
            Pending((if Enabled(s, t) then Step(s, t, call) else s).pc(u))
  {
    if Enabled(s, t) {
      StepCalls(s, t, call, u);
      MadeBoth(effects, EffectOf(s, t), u);
      Regroup(Made(effects, u), Pending(s.pc(u)), Begun(s, t, call, u),
              Made(EffectOf(s, t), u), Pending(Step(s, t, call).pc(u)));
    } else {
      assert effects + [] == effects;
    }
  }

  /** How deep a thread is in after its own calls: an unlock that finds nothing to undo does nothing. */
  function Depth(calls: seq<Call>): nat
  {
    if calls == [] then 0
    else
      var d := Depth(calls[..|calls| - 1]);
      if calls[|calls| - 1] == CallLock then d + 1 else if d > 0 then d - 1 else 0
  }

  /** One more call: it changes the depth of its own thread only. */
  function Deeper(d: int, e: Effect, u: Thread): int
  {
    if e.t != u then d else if e.Took? then d + 1 else if d > 0 then d - 1 else 0
  }

  lemma StepDeeper(s: State, t: Thread, call: Call, u: Thread)
    requires Inv(s) && Enabled(s, t)
    ensures Step(s, t, call).depth(u) ==
            if EffectOf(s, t) == [] then s.depth(u) else Deeper(s.depth(u), EffectOf(s, t)[0], u)
  {
    assert ThreadInv(s, t) && ThreadInv(s, u);
  }

  lemma MadeDeeper(effects: seq<Effect>, e: Effect, u: Thread)
    ensures Depth(Made(effects + [e], u)) == Deeper(Depth(Made(effects, u)), e, u)
  {
    assert (effects + [e])[..|effects|] == effects;
    var made := Made(effects, u);
    assert (made + [CallLock])[..|made|] == made && (made + [CallUnlock])[..|made|] == made && made + [] == made;
  }

  /** In every run the depth of a thread is that of its own calls that took effect, whatever the others do. */
  lemma {:induction false} DepthIsOwn(schedule: seq<(Thread, Call)>, u: Thread)
    ensures Run(schedule).depth(u) == Depth(Made(Effects(schedule), u))
  {
    if schedule != [] {
      var before := schedule[..|schedule| - 1];
      var (t, call) := schedule[|schedule| - 1];
      DepthIsOwn(before, u);
      Reachable(before);
      var s := Run(before);
      assert Effects(before) + [] == Effects(before);
      if Enabled(s, t) {
        StepDeeper(s, t, call, u);
        if EffectOf(s, t) != [] {
          MadeDeeper(Effects(before), EffectOf(s, t)[0], u);
          assert EffectOf(s, t) == [EffectOf(s, t)[0]];
        }
      }
    }
  }

  /** A thread that is outside holds the mutex exactly when it has not undone all its locks. */
  lemma HeldExactly(schedule: seq<(Thread, Call)>, u: Thread)
    requires Run(schedule).pc(u) == Out
    ensures Depth(Calls(schedule, u)) == Run(schedule).depth(u)
    ensures Depth(Calls(schedule, u)) > 0 <==> Run(schedule).mutex == u
  {
    Reachable(schedule);
    assert ThreadInv(Run(schedule), u);
    CallsTakeEffect(schedule, u);
    DepthIsOwn(schedule, u);
    assert Made(Effects(schedule), u) + [] == Made(Effects(schedule), u);
  }

  /** When every thread is outside, the mutex is free if and only if every thread has undone its locks. */
  lemma FreeExactly(schedule: seq<(Thread, Call)>)
    requires forall u: Thread :: Run(schedule).pc(u) == Out
    ensures (forall u: Thread :: Depth(Calls(schedule, u)) == 0) <==> Run(schedule).mutex == 0
    ensures Run(schedule).mutex == Run(schedule).owner && Run(schedule).intern == 0
  {
    Reachable(schedule);
    NobodyInside(Run(schedule));
    forall u: Thread
      ensures Depth(Calls(schedule, u)) > 0 <==> Run(schedule).mutex == u
    {
      HeldExactly(schedule, u);
    }
    if Run(schedule).mutex != 0 {
      var u: Thread := Run(schedule).mutex;
      assert Depth(Calls(schedule, u)) > 0;
    }
  }

  lemma NobodyInside(s: State)
    requires Inv(s) && forall u: Thread :: s.pc(u) == Out
    ensures s.mutex == s.owner && s.intern == 0
  {
    if s.mutex != 0 {
      assert ThreadInv(s, s.mutex);
    }
    if s.owner != 0 {
      assert ThreadInv(s, s.owner);
    }
    assert ThreadInv(s, if s.intern == 0 then 1 else s.intern);
  }

  /** How many more steps of its own a call takes at most. */
  function Rank(p: Pc): nat
  {
    match p
    case LockEnter => 8
    case LockTest => 7
    case LockRelease => 6
    case LockWait => 5
    case LockReenter => 4
    case LockClaim => 3
    case LockCount => 2
    case LockLeave => 1
    case UnlockEnter => 6
    case UnlockTest => 5
    case UnlockCount => 4
    case UnlockDisown => 3
    case UnlockMutex => 2
    case UnlockLeave => 1
    case Out => 0
  }

  /** A thread that moves inside comes nearer to the end of its call, and nobody else's place changes. */
  lemma StepsAdvance(s: State, t: Thread, call: Call)
    requires Enabled(s, t)
    ensures s.pc(t) != Out ==> Rank(Step(s, t, call).pc(t)) < Rank(s.pc(t))
    ensures forall u: Thread | u != t :: Step(s, t, call).pc(u) == s.pc(u)
  {}
}
