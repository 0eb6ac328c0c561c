/**
  max-early-media-per-call: how many branches of one session take part in early media.
  */
module EarlyMediaCap {
  import opened Collections
  import opened EarlyMedia
  import opened EarlyMediaEvents
  import M = MediaChannel

  /** The branches that the cap is about: one target each, with a remote port, and allowed to send or receive. */
  function Counted(s: Session): set<TrId>
  {
    set tr | tr in s && !s[tr].multi && s[tr].chan.comps[0].port > 0 && s[tr].chan.dir != M.Inactive
  }

  ghost predicate Bounded(c: Call, cap: int)
  {
    forall j | 0 <= j < |c.sessions| && c.sessions[j].Some? :: |Counted(c.sessions[j].value)| <= cap
  }

  lemma Within<T>(a: set<T>, b: set<T>)
    requires a <= b
    ensures |a| <= |b|
  {
    if a != {} {
      var x :| x in a;
      Within(a - {x}, b - {x});
    }
  }

  // ----- One step -----

  lemma ConnectedBounded(cfg: Config, c: Call, i: nat, tr: TrId, line: Line)
    requires cfg.cap > 0 && Bounded(c, cfg.cap)
    ensures Bounded(Connected(cfg, c, i, tr, line), cfg.cap)
  {
    var d := Connected(cfg, c, i, tr, line);
    if Has(c, i, tr) {
      var s, t := c.sessions[i].value, d.sessions[i].value;
      if DirFor(cfg, s, s[tr]) == M.SendRecv && !s[tr].multi {
        Within(Counted(t), Active(s) + {tr});
      } else {
        Within(Counted(t), Counted(s));
      }
    }
  }

  lemma ReceivedBounded(c: Call, cap: int, i: nat, tr: TrId, comp: nat, source: M.Address, now: int)
    requires Bounded(c, cap)
    ensures Bounded(Received(c, i, tr, comp, source, now), cap)
  {
    if Has(c, i, tr) && comp < 2 {
      Within(Counted(Received(c, i, tr, comp, source, now).sessions[i].value), Counted(c.sessions[i].value));
    }
  }

  lemma BranchesBounded(cfg: Config, c: Call, w: Write)
    requires cfg.cap > 0 && Bounded(c, cfg.cap) && (w.AddBranch? || w.DropBranch?)
    ensures Bounded(Apply(cfg, c, w), cfg.cap)
  {
    var d := Apply(cfg, c, w);
    forall j | 0 <= j < |d.sessions| && d.sessions[j].Some?
      ensures |Counted(d.sessions[j].value)| <= cfg.cap
    {
      if c.sessions[j].Some? {
        Within(Counted(d.sessions[j].value), Counted(c.sessions[j].value));
      } else {
        assert Counted(d.sessions[j].value) == {};
      }
    }
  }

  /** Taking the lead away keeps a session within the cap exactly when the session has room for the leader, or the
      leader is not one of those that the cap had made inactive. */
  lemma DemotionExactly(s: Session, lead: TrId, cap: nat)
    requires |Counted(s)| <= cap
    ensures |Counted(Demote(Some(s), Some(lead)).value)| <= cap <==> !(|Counted(s)| == cap && MadeInactive(s, lead))
  {
    CountedAfter(s, lead);
  }

  lemma CountedAfter(s: Session, lead: TrId)
    ensures var t := Demote(Some(s), Some(lead)).value;
            Counted(t) == if lead in s && !s[lead].multi && s[lead].chan.comps[0].port > 0 then Counted(s) + {lead}
                          else Counted(s)
  {
    var t := Demote(Some(s), Some(lead)).value;
    forall u: TrId
      ensures u in Counted(t) <==>
              u in Counted(s) || (u == lead && lead in s && !s[lead].multi && s[lead].chan.comps[0].port > 0)
    {}
  }

  predicate MadeInactive(s: Session, tr: TrId)
  {
    tr in s && !s[tr].multi && s[tr].chan.comps[0].port > 0 && s[tr].chan.dir == M.Inactive
  }

  /** The step takes the lead away in a full session whose leader the cap had made inactive. */
  predicate Overflows(cfg: Config, s: State, step: Step)
  {
    step.Proceed? && s.todo != [] && s.todo[0].DemoteAt? &&
    var i := s.todo[0].i;
    && i < |s.call.sessions| && s.call.sessions[i].Some? && s.call.lead.Some?
    && |Counted(s.call.sessions[i].value)| == cfg.cap && MadeInactive(s.call.sessions[i].value, s.call.lead.value)
  }

  lemma DemoteBounded(cfg: Config, c: Call, i: nat)
    requires cfg.cap > 0 && Bounded(c, cfg.cap)
    ensures Bounded(Apply(cfg, c, DemoteAt(i)), cfg.cap) <==> !Overflows(cfg, State(c, [DemoteAt(i)]), Proceed)
  {
    var d := Apply(cfg, c, DemoteAt(i));
    if i < |c.sessions| && c.sessions[i].Some? && c.lead.Some? {
      DemotionExactly(c.sessions[i].value, c.lead.value, cfg.cap);
      assert Bounded(d, cfg.cap) <==> |Counted(d.sessions[i].value)| <= cfg.cap;
    }
  }

  /** A step keeps every session within the cap if and only if it is not such a one. */
  lemma StepExactly(cfg: Config, s: State, step: Step)
    requires cfg.cap > 0 && Bounded(s.call, cfg.cap)
    ensures Bounded(Next(cfg, s, step).call, cfg.cap) <==> !Overflows(cfg, s, step)
  {
    match step
    case Begin(e) =>
    case Packet(i, tr, comp, source, now) => ReceivedBounded(s.call, cfg.cap, i, tr, comp, source, now);
    case Proceed =>
      if s.todo != [] {
        match s.todo[0]
        case DemoteAt(i) => DemoteBounded(cfg, s.call, i);
        case TakeLead(tr) =>
        case Connect(i, tr, line) => ConnectedBounded(cfg, s.call, i, tr, line);
        case AddBranch(_, _, _, _) => BranchesBounded(cfg, s.call, s.todo[0]);
        case DropBranch(_, _) => BranchesBounded(cfg, s.call, s.todo[0]);
      }
  }

  // ----- Runs -----

  ghost predicate BoundedAfter(cfg: Config, s: State, steps: seq<Step>, k: nat)
    requires k <= |steps|
  {
    Bounded(Run(cfg, s, steps[..k]).call, cfg.cap)
  }

  ghost predicate StaysBounded(cfg: Config, s: State, steps: seq<Step>)
  {
    forall k: nat | k <= |steps| :: BoundedAfter(cfg, s, steps, k)
  }

  ghost predicate OverflowsAt(cfg: Config, s: State, steps: seq<Step>, k: nat)
    requires k < |steps|
  {
    Overflows(cfg, Run(cfg, s, steps[..k]), steps[k])
  }

  ghost predicate NeverOverflows(cfg: Config, s: State, steps: seq<Step>)
  {
    forall k: nat | k < |steps| :: !OverflowsAt(cfg, s, steps, k)
  }

  lemma SamePrefix(cfg: Config, s: State, steps: seq<Step>, k: nat)
    requires k < |steps|
    ensures BoundedAfter(cfg, s, steps, k) == BoundedAfter(cfg, s, steps[..|steps| - 1], k)
  {
    assert steps[..|steps| - 1][..k] == steps[..k];
  }

  lemma StaysStep(cfg: Config, s: State, steps: seq<Step>)
    requires steps != []
    ensures StaysBounded(cfg, s, steps) <==>
            StaysBounded(cfg, s, steps[..|steps| - 1]) && BoundedAfter(cfg, s, steps, |steps|)
  {
    var before := steps[..|steps| - 1];
    forall k: nat | k < |steps|
      ensures BoundedAfter(cfg, s, steps, k) == BoundedAfter(cfg, s, before, k)
    {
      SamePrefix(cfg, s, steps, k);
    }
  }

  lemma NeverStep(cfg: Config, s: State, steps: seq<Step>)
    requires steps != []
    ensures NeverOverflows(cfg, s, steps) <==>
            NeverOverflows(cfg, s, steps[..|steps| - 1]) && !OverflowsAt(cfg, s, steps, |steps| - 1)
  {
    var before := steps[..|steps| - 1];
    forall k: nat | k < |before|
      ensures OverflowsAt(cfg, s, steps, k) == OverflowsAt(cfg, s, before, k)
    {
      assert before[..k] == steps[..k];
    }
  }

  /** Whatever the features, a run stays within the cap if and only if no step of it takes the lead away in a full
      session whose leader the cap had made inactive. */
  lemma {:induction false} CapExactly(cfg: Config, s: State, steps: seq<Step>)
    requires cfg.cap > 0 && Bounded(s.call, cfg.cap)
    ensures StaysBounded(cfg, s, steps) <==> NeverOverflows(cfg, s, steps)
    decreases |steps|
  {
    if steps != [] {
      var before := steps[..|steps| - 1];
      CapExactly(cfg, s, before);
      StaysStep(cfg, s, steps);
      NeverStep(cfg, s, steps);
      assert steps[..|steps|] == steps && before[..|before|] == before;
      if StaysBounded(cfg, s, before) {
        assert BoundedAfter(cfg, s, before, |before|);
        StepExactly(cfg, Run(cfg, s, before), steps[|steps| - 1]);
      }
    }
  }

  ghost predicate NoDemotion(todo: seq<Write>)
  {
    forall w | w in todo :: !w.DemoteAt?
  }

  lemma NoneBegins(cfg: Config, c: Call, e: Event)
    requires !cfg.single
    ensures NoDemotion(Writes(cfg, c, e))
  {
    match e
    case CallerOffer(tr, accepted, multi, local) => AddsAre(tr, accepted, multi && cfg.cap != 0, local, 0);
    case Failure(tr) => DropsAre(tr, 0, |c.sessions|);
    case EarlyAnswer(tr, lines) => ConnectsAre(c, tr, lines, 0);
  }

  /** Branches with one target to which a packet of the caller is copied. */
  function Receivers(s: Session): set<TrId>
  {
    set tr | tr in s && !s[tr].multi && M.Target(s[tr].chan, 0).Some?
  }

  /** Without early-media-relay-single, in every state of every run each session has at most as many counted branches as
      the cap says, and media of the caller is copied to no more single targets. */
  lemma {:induction false} CapHolds(cfg: Config, s: State, steps: seq<Step>)
    requires !cfg.single && cfg.cap > 0 && Bounded(s.call, cfg.cap) && NoDemotion(s.todo)
    ensures var r := Run(cfg, s, steps);
            && Bounded(r.call, cfg.cap) && NoDemotion(r.todo)
            && forall j | 0 <= j < |r.call.sessions| && r.call.sessions[j].Some? ::
                 |Receivers(r.call.sessions[j].value)| <= cfg.cap
    decreases |steps|
  {
    var r := Run(cfg, s, steps);
    if steps != [] {
      var before, step := Run(cfg, s, steps[..|steps| - 1]), steps[|steps| - 1];
      CapHolds(cfg, s, steps[..|steps| - 1]);
      StepExactly(cfg, before, step);
      if step.Begin? {
        NoneBegins(cfg, before.call, step.e);
      }
    }
    forall j | 0 <= j < |r.call.sessions| && r.call.sessions[j].Some?
      ensures |Receivers(r.call.sessions[j].value)| <= cfg.cap
    {
      Within(Receivers(r.call.sessions[j].value), Counted(r.call.sessions[j].value));
    }
  }

  // ----- With both features there is no bound -----

  const LINE := Line(M.Remote(1, 2, false, [Some("rtp"), Some("rtcp")]), false)

  /** The channel of branch `t` once the first `k` branches have answered one after the other. */
  function ChannelOf(cfg: Config, t: nat, k: nat): Channel
  {
    if t >= k then M.FRESH
    else
      M.AfterRemote(M.FRESH, LINE.remote,
                    if t < k - 1 then M.SendOnly else if t < cfg.cap then M.SendRecv else M.Inactive)
  }

  /** `n` branches in one session, of which the first `k` have answered. */
  ghost predicate Answered(cfg: Config, c: Call, n: nat, k: nat)
  {
    && 0 < |c.sessions| && (|c.sessions| > 1 ==> c.sessions[1].None?)
    && (if n == 0 then c.sessions[0].None? else c.sessions[0].Some? && IsFork(cfg, c.sessions[0].value, n, k))
    && c.lead == if k == 0 then None else Some(k - 1)
  }

  ghost predicate IsFork(cfg: Config, s: Session, n: nat, k: nat)
  {
    && (forall t: TrId :: t in s <==> t < n)
    && (forall t: TrId | t in s :: s[t] == Branch(ChannelOf(cfg, t, k), false, true))
  }

  function Upto(k: nat): (ts: set<TrId>)
    ensures |ts| == k && forall t: TrId :: t in ts <==> t < k
  {
    if k == 0 then {} else Upto(k - 1) + {k - 1}
  }

  function OfferOf(t: TrId): Event
  {
    CallerOffer(t, [true], false, true)
  }

  function AnswerOf(t: TrId): Event
  {
    EarlyAnswer(t, [Some(LINE)])
  }

  lemma OfferStep(cfg: Config, c: Call, n: nat)
    requires n > 0 && Answered(cfg, c, n - 1, 0)
    ensures Answered(cfg, EventEnd(cfg, c, OfferOf(n - 1)), n, 0)
  {}

  lemma {:induction false} AfterOffers(cfg: Config, c: Call, n: nat) returns (es: seq<Event>, d: Call)
    requires Answered(cfg, c, 0, 0)
    ensures |es| == n && forall t: nat | t < n :: es[t] == OfferOf(t)
    ensures d == After(cfg, c, es) && Answered(cfg, d, n, 0)
  {
    if n == 0 {
      es, d := [], c;
    } else {
      var before, at := AfterOffers(cfg, c, n - 1);
      OfferStep(cfg, at, n);
      AfterLast(cfg, c, before, OfferOf(n - 1));
      es, d := before + [OfferOf(n - 1)], EventEnd(cfg, at, OfferOf(n - 1));
    }
  }

  /** The first `k - 1` branches have answered and may no longer send, and the next is about to be connected. */
  ghost predicate Muted(cfg: Config, s: Session, n: nat, k: nat)
    requires k > 0
  {
    && Active(s) == Upto(k - 1) && (forall t: TrId :: t in s <==> t < n)
    && (forall t: TrId | t in s :: s[t] == Branch(if t < k - 1 then ChannelOf(cfg, t, k) else M.FRESH, false, true))
  }

  ghost predicate Between(cfg: Config, c: Call, n: nat, k: nat)
    requires k > 0
  {
    && 0 < |c.sessions| && (|c.sessions| > 1 ==> c.sessions[1].None?) && c.lead == Some(k - 1)
    && c.sessions[0].Some? && Muted(cfg, c.sessions[0].value, n, k)
  }

  lemma DemoteBranch(cfg: Config, s: Session, n: nat, k: nat, t: TrId)
    requires 0 < k <= n && IsFork(cfg, s, n, k - 1)
    ensures var d := Demote(Some(s), if k == 1 then None else Some(k - 2)).value;
            && (t in d <==> t < n)
            && (t in d ==> d[t] == Branch(if t < k - 1 then ChannelOf(cfg, t, k) else M.FRESH, false, true))
            && (t in Active(d) <==> t < k - 1)
  {}

  lemma DemoteFork(cfg: Config, s: Session, n: nat, k: nat)
    requires 0 < k <= n && IsFork(cfg, s, n, k - 1)
    ensures Muted(cfg, Demote(Some(s), if k == 1 then None else Some(k - 2)).value, n, k)
  {
    var d := Demote(Some(s), if k == 1 then None else Some(k - 2)).value;
    forall t: TrId
      ensures t in d <==> t < n
      ensures t in d ==> d[t] == Branch(if t < k - 1 then ChannelOf(cfg, t, k) else M.FRESH, false, true)
      ensures t in Active(d) <==> t in Upto(k - 1)
    {
      DemoteBranch(cfg, s, n, k, t);
    }
  }

  lemma PrepareStep(cfg: Config, c: Call, n: nat, k: nat)
    requires cfg.single && 0 < k <= n && Answered(cfg, c, n, k - 1)
    ensures Between(cfg, Prepared(cfg, c, 0, k - 1), n, k)
  {
    DemoteFork(cfg, c.sessions[0].value, n, k);
    assert Leading(c.sessions) > 0;
  }

  lemma ConnectStep(cfg: Config, c: Call, n: nat, k: nat)
    requires cfg.cap > 0 && 0 < k <= n && Between(cfg, c, n, k)
    ensures Answered(cfg, Connected(cfg, c, 0, k - 1, LINE), n, k)
  {
    var s := c.sessions[0].value;
    assert DirFor(cfg, s, s[k - 1]) == if k - 1 < cfg.cap then M.SendRecv else M.Inactive;
  }

  lemma AnswerStep(cfg: Config, c: Call, n: nat, k: nat)
    requires cfg.single && cfg.cap > 0 && 0 < k <= n && Answered(cfg, c, n, k - 1)
    ensures Answered(cfg, EventEnd(cfg, c, AnswerOf(k - 1)), n, k)
  {
    PrepareStep(cfg, c, n, k);
    ConnectStep(cfg, Prepared(cfg, c, 0, k - 1), n, k);
    OneLine(cfg, c, k - 1, LINE);
  }

  lemma OneLine(cfg: Config, c: Call, tr: TrId, line: Line)
    ensures LinesEnd(cfg, c, tr, [Some(line)], 0) == LineEnd(cfg, c, 0, tr, line)
  {
    var d, lines := LineEnd(cfg, c, 0, tr, line), [Some(line)];
    assert LinesEnd(cfg, d, tr, lines, 1) == d;
  }

  lemma AnswerMore(cfg: Config, c: Call, before: seq<Event>, at: Call, n: nat, k: nat) returns (es: seq<Event>, d: Call)
    requires cfg.single && cfg.cap > 0 && 0 < k <= n && at == After(cfg, c, before) && Answered(cfg, at, n, k - 1)
    ensures es == before + [AnswerOf(k - 1)] && d == After(cfg, c, es) && Answered(cfg, d, n, k)
  {
    AnswerStep(cfg, at, n, k);
    AfterLast(cfg, c, before, AnswerOf(k - 1));
    es, d := before + [AnswerOf(k - 1)], EventEnd(cfg, at, AnswerOf(k - 1));
  }

  lemma {:induction false} AfterAnswers(cfg: Config, c: Call, n: nat, k: nat) returns (es: seq<Event>, d: Call)
    requires cfg.single && cfg.cap > 0 && k <= n && Answered(cfg, c, 0, 0)
    ensures |es| == n + k && forall t: nat | t < n + k :: es[t] == if t < n then OfferOf(t) else AnswerOf(t - n)
    ensures d == After(cfg, c, es) && Answered(cfg, d, n, k)
    decreases k
  {
    if k == 0 {
      es, d := AfterOffers(cfg, c, n);
    } else {
      var before, at := AfterAnswers(cfg, c, n, k - 1);
      es, d := AnswerMore(cfg, c, before, at, n, k);
    }
  }

  /** When `n` branches are offered and answer in turn, more than `cap` of them, all but the last take part in the early
      media of the first session and are sent what the caller sends.  That is a run. */
  lemma CapFails(cfg: Config, c: Call, n: nat) returns (es: seq<Event>, steps: seq<Step>)
    requires cfg.single && 0 < cfg.cap < n && c == INIT
    ensures |es| == 2 * n && forall t: nat | t < n :: es[t] == OfferOf(t) && es[n + t] == AnswerOf(t)
    ensures var d := After(cfg, c, es);
            && d.sessions != [] && d.sessions[0].Some?
            && |Counted(d.sessions[0].value)| == |Receivers(d.sessions[0].value)| == n - 1
            && Run(cfg, State(c, []), steps) == State(d, [])
  {
    var d;
    es, d := AfterAnswers(cfg, c, n, n);
    steps := Undisturbed(cfg, c, es);
    assert Counted(d.sessions[0].value) == Upto(n - 1);
    assert Receivers(d.sessions[0].value) == Upto(n - 1);
  }
}
