/**
  Two branches answer in turn: when one of them at most can send media to the caller.
  */
module EarlyMediaAnswers {
  import opened Collections
  import opened EarlyMedia
  import opened EarlyMediaEvents
  import M = MediaChannel

  /** The answer gives the branch of the session a remote address. */
  predicate Touches(c: Call, tr: TrId, lines: seq<Option<Line>>, j: nat)
  {
    Covers(c, lines, j) && Has(c, j, tr) && c.sessions[j].value[tr].local && !lines[j].value.ice
  }

  /** Whether the branch passes media on once the lines from `i` on have been dealt with. */
  predicate HandsOnAfter(cfg: Config, c: Call, tr: TrId, lines: seq<Option<Line>>, i: nat, j: nat, u: TrId)
  {
    if u == tr && i <= j && Touches(c, tr, lines, j) then Links(cfg, c, tr, lines, j)
    else
      && HandsOn(c, j, u)
      && !(cfg.single && i == 0 && Covers(c, lines, 0) && c.lead == Some(u) && j < Leading(c.sessions))
  }

  /** Nothing has changed in the session but directions and packet counts. */
  ghost predicate Same(c: Call, d: Call, j: nat)
  {
    && (forall u: TrId :: Has(c, j, u) <==> Has(d, j, u))
    && (forall u: TrId | Has(c, j, u) && Has(d, j, u) ::
          var a, b := c.sessions[j].value[u], d.sessions[j].value[u];
          a.multi == b.multi && a.local == b.local && a.chan.comps[0].port == b.chan.comps[0].port)
  }

  lemma SameLinks(cfg: Config, c: Call, d: Call, tr: TrId, lines: seq<Option<Line>>, j: nat)
    requires SameShape(c, d) && Same(c, d, j)
    ensures Touches(c, tr, lines, j) == Touches(d, tr, lines, j)
    ensures Links(cfg, c, tr, lines, j) == Links(cfg, d, tr, lines, j)
  {
    if Touches(c, tr, lines, j) {
      var s, t := c.sessions[j].value, d.sessions[j].value;
      assert forall u: TrId :: Has(c, j, u) <==> u in s;
      assert forall u: TrId :: Has(d, j, u) <==> u in t;
      assert Active(s) == Active(t);
    }
  }

  lemma PreparedSame(cfg: Config, c: Call, i: nat, tr: TrId, j: nat)
    ensures var p := Prepared(cfg, c, i, tr);
            && SameShape(c, p) && Same(c, p, j) && p.lead == (if cfg.single && i == 0 then Some(tr) else c.lead)
            && forall u: TrId :: HandsOn(p, j, u) <==>
                 HandsOn(c, j, u) && !(cfg.single && i == 0 && c.lead == Some(u) && j < Leading(c.sessions))
  {
    if cfg.single && i == 0 {
      DemotedSame(c, Leading(c.sessions), j);
    }
  }

  lemma DemotedSame(c: Call, n: nat, j: nat)
    ensures var d := Demoted(c, n);
            && SameShape(c, d) && Same(c, d, j)
            && forall u: TrId :: HandsOn(d, j, u) <==> HandsOn(c, j, u) && !(c.lead == Some(u) && j < n)
  {}

  lemma ConnectedSame(cfg: Config, c: Call, i: nat, tr: TrId, line: Line, j: nat)
    ensures var d := Connected(cfg, c, i, tr, line);
            && SameShape(c, d) && d.lead == c.lead && (j != i ==> Same(c, d, j))
            && forall u: TrId | j != i || u != tr :: HandsOn(d, j, u) <==> HandsOn(c, j, u)
  {}

  lemma SameTwice(c: Call, d: Call, e: Call, j: nat)
    requires Same(c, d, j) && Same(d, e, j)
    ensures Same(c, e, j)
  {}

  /** One line, when it has a session. */
  lemma LineAt(cfg: Config, c: Call, tr: TrId, lines: seq<Option<Line>>, i: nat, j: nat)
    requires Covers(c, lines, i)
    ensures var d := LineEnd(cfg, c, i, tr, lines[i].value);
            && SameShape(c, d) && d.lead == (if cfg.single && i == 0 then Some(tr) else c.lead)
            && (j != i ==> Same(c, d, j))
            && forall u: TrId :: HandsOn(d, j, u) ==
                 if u == tr && j == i && Touches(c, tr, lines, i) then Links(cfg, c, tr, lines, i)
                 else HandsOn(c, j, u) && !(cfg.single && i == 0 && c.lead == Some(u) && j < Leading(c.sessions))
  {
    var p := Prepared(cfg, c, i, tr);
    PreparedSame(cfg, c, i, tr, j);
    PreparedSame(cfg, c, i, tr, i);
    SameLinks(cfg, c, p, tr, lines, i);
    ConnectedSame(cfg, p, i, tr, lines[i].value, j);
    if j != i {
      SameTwice(c, p, Connected(cfg, p, i, tr, lines[i].value), j);
    }
  }

  lemma {:induction false} AnswerAt(cfg: Config, c: Call, tr: TrId, lines: seq<Option<Line>>, i: nat, j: nat, u: TrId)
    ensures var d := LinesEnd(cfg, c, tr, lines, i);
            && SameShape(c, d)
            && d.lead == (if cfg.single && i == 0 && Covers(c, lines, 0) then Some(tr) else c.lead)
            && HandsOn(d, j, u) == HandsOnAfter(cfg, c, tr, lines, i, j, u)
    decreases |lines| - i
  {
    if i < |lines| {
      var d := if lines[i].None? then c else LineEnd(cfg, c, i, tr, lines[i].value);
      AnswerAt(cfg, d, tr, lines, i + 1, j, u);
      if Covers(c, lines, i) {
        LineAt(cfg, c, tr, lines, i, j);
        if j != i {
          SameLinks(cfg, c, d, tr, lines, j);
        }
      }
    }
  }

  // ----- When the single sender is kept -----

  /** After an answer the senders are still those of the leader if and only if it was fair. */
  lemma AnswerExactly(cfg: Config, c: Call, tr: TrId, lines: seq<Option<Line>>)
    requires cfg.single && SingleSender(c)
    ensures SingleSender(EventEnd(cfg, c, EarlyAnswer(tr, lines))) <==> Fair(cfg, c, tr, lines)
  {
    var d := LinesEnd(cfg, c, tr, lines, 0);
    forall j: nat, u: TrId
      ensures HandsOn(d, j, u) == HandsOnAfter(cfg, c, tr, lines, 0, j, u)
      ensures d.lead == if Covers(c, lines, 0) then Some(tr) else c.lead
    {
      AnswerAt(cfg, c, tr, lines, 0, j, u);
    }
    AnswerAt(cfg, c, tr, lines, 0, 0, 0);
    if Covers(c, lines, 0) {
      if j: nat, u: TrId :| HandsOn(c, j, u) && u != tr && j >= Leading(c.sessions) {
        assert HandsOn(d, j, u);
      }
    } else if j: nat :| Links(cfg, c, tr, lines, j) {
      assert HandsOn(d, j, tr);
    }
  }

  ghost predicate SingleAfter(cfg: Config, c: Call, es: seq<Event>, k: nat)
    requires k <= |es|
  {
    SingleSender(After(cfg, c, es[..k]))
  }

  ghost predicate StaysSingle(cfg: Config, c: Call, es: seq<Event>)
  {
    forall k: nat | k <= |es| :: SingleAfter(cfg, c, es, k)
  }

  ghost predicate FairAt(cfg: Config, c: Call, es: seq<Event>, k: nat)
    requires k < |es|
  {
    es[k].EarlyAnswer? ==> Fair(cfg, After(cfg, c, es[..k]), es[k].tr, es[k].lines)
  }

  ghost predicate AllFair(cfg: Config, c: Call, es: seq<Event>)
  {
    forall k: nat | k < |es| :: FairAt(cfg, c, es, k)
  }

  lemma EventExactly(cfg: Config, c: Call, e: Event)
    requires cfg.single && SingleSender(c)
    ensures SingleSender(EventEnd(cfg, c, e)) <==> (e.EarlyAnswer? ==> Fair(cfg, c, e.tr, e.lines))
  {
    var d := EventEnd(cfg, c, e);
    match e
    case EarlyAnswer(tr, lines) => AnswerExactly(cfg, c, tr, lines);
    case CallerOffer(tr, accepted, multi, local) =>
      forall j: nat, u: TrId | HandsOn(d, j, u)
        ensures HandsOn(c, j, u)
      {
        OthersKept(c, tr, accepted, multi && cfg.cap != 0, local, j, u);
      }
    case Failure(tr) =>
      forall j: nat, u: TrId | HandsOn(d, j, u)
        ensures HandsOn(c, j, u)
      {
        OthersKept(c, tr, [], false, false, j, u);
      }
  }

  lemma SingleStep(cfg: Config, c: Call, es: seq<Event>)
    requires es != []
    ensures StaysSingle(cfg, c, es) <==>
            StaysSingle(cfg, c, es[..|es| - 1]) && SingleAfter(cfg, c, es, |es|)
  {
    var before := es[..|es| - 1];
    forall k: nat | k < |es|
      ensures SingleAfter(cfg, c, es, k) == SingleAfter(cfg, c, before, k)
    {
      assert before[..k] == es[..k];
    }
  }

  lemma FairStepAt(cfg: Config, c: Call, es: seq<Event>)
    requires es != []
    ensures AllFair(cfg, c, es) <==> AllFair(cfg, c, es[..|es| - 1]) && FairAt(cfg, c, es, |es| - 1)
  {
    var before := es[..|es| - 1];
    forall k: nat | k < |before|
      ensures FairAt(cfg, c, es, k) == FairAt(cfg, c, before, k)
    {
      assert before[..k] == es[..k];
    }
  }

  /** The senders are those of the leader after every event of a sequence if and only if every answer in it is fair. */
  lemma {:induction false} EventsExactly(cfg: Config, c: Call, es: seq<Event>)
    requires cfg.single && SingleSender(c)
    ensures StaysSingle(cfg, c, es) <==> AllFair(cfg, c, es)
    decreases |es|
  {
    if es == [] {
      assert es[..0] == es;
    } else {
      var before := es[..|es| - 1];
      EventsExactly(cfg, c, before);
      SingleStep(cfg, c, es);
      FairStepAt(cfg, c, es);
      assert before[..|before|] == before && es[..|es|] == es;
      if StaysSingle(cfg, c, before) {
        assert SingleAfter(cfg, c, before, |before|);
        EventExactly(cfg, After(cfg, c, before), es[|es| - 1]);
      }
    }
  }

  /** An answer that is not fair breaks the single sender: wherever a run begins one, it can go on to a state in which a
      branch that has not the lead passes media on. */
  lemma UnfairBreaks(cfg: Config, s: State, steps: seq<Step>, tr: TrId, lines: seq<Option<Line>>)
    returns (more: seq<Step>)
    requires var t := Run(cfg, s, steps);
             cfg.single && t.todo == [] && SingleSender(t.call) && !Fair(cfg, t.call, tr, lines)
    ensures steps + [Begin(EarlyAnswer(tr, lines))] <= more && !SingleSender(Run(cfg, s, more).call)
  {
    var t, e := Run(cfg, s, steps), EarlyAnswer(tr, lines);
    AnswerExactly(cfg, t.call, tr, lines);
    EventDone(cfg, t.call, e);
    assert (steps + [Begin(e)])[..|steps|] == steps;
    more := Drain(cfg, s, steps + [Begin(e)], Next(cfg, t, Begin(e)));
  }

  /** At most one transaction passes media on to the caller, whatever the leader is. */
  ghost predicate OneAtATime(c: Call)
  {
    forall i: nat, t: TrId, j: nat, u: TrId :: HandsOn(c, i, t) && HandsOn(c, j, u) ==> t == u
  }

  /** The transaction has the lead once its answer has been dealt with. */
  predicate Leads(c: Call, tr: TrId, lines: seq<Option<Line>>)
  {
    Covers(c, lines, 0) || c.lead == Some(tr)
  }

  /** A branch answers, and then another.  Afterwards one of them at most sends to the caller if and only if the second
      answer links no branch, or the first branch had the lead, the second answer reaches the first session, and all
      sessions in which the first branch was linked come before the first missing one. */
  lemma TwoAnswers(cfg: Config, c: Call, a: TrId, la: seq<Option<Line>>, b: TrId, lb: seq<Option<Line>>)
    requires cfg.single && a != b && forall j: nat, u: TrId :: !HandsOn(c, j, u)
    ensures var d := EventEnd(cfg, c, EarlyAnswer(a, la));
            OneAtATime(EventEnd(cfg, d, EarlyAnswer(b, lb))) <==>
            || (forall j: nat :: !Links(cfg, d, b, lb, j))
            || (forall j: nat | Links(cfg, c, a, la, j) ::
                  j < Leading(c.sessions) && Leads(c, a, la) && Covers(c, lb, 0))
  {
    var d := LinesEnd(cfg, c, a, la, 0);
    var e := LinesEnd(cfg, d, b, lb, 0);
    forall j: nat, u: TrId
      ensures HandsOn(e, j, u) == HandsOnAtEnd(cfg, c, a, la, d, b, lb, j, u)
    {
      AnswerAt(cfg, c, a, la, 0, j, u);
      SameLeading(c.sessions, d.sessions);
      AnswerAt(cfg, d, b, lb, 0, j, u);
    }
    if j: nat, k: nat :| Links(cfg, d, b, lb, j) && Links(cfg, c, a, la, k) &&
                         !(k < Leading(c.sessions) && Leads(c, a, la) && Covers(c, lb, 0)) {
      assert HandsOn(e, j, b) && HandsOn(e, k, a);
    }
  }

  predicate HandsOnAtEnd(cfg: Config, c: Call, a: TrId, la: seq<Option<Line>>, d: Call, b: TrId, lb: seq<Option<Line>>,
                         j: nat, u: TrId)
  {
    if u == b then Links(cfg, d, b, lb, j)
    else u == a && Links(cfg, c, a, la, j) && !(Leads(c, a, la) && Covers(c, lb, 0) && j < Leading(c.sessions))
  }

  // ----- It happens -----

  lemma {:induction false} BranchStays(cfg: Config, c: Call, tr: TrId, lines: seq<Option<Line>>, i: nat,
                                       j: nat, u: TrId)
    requires Has(c, j, u)
    ensures var d := LinesEnd(cfg, c, tr, lines, i);
            Has(d, j, u) && d.sessions[j].value[u].local == c.sessions[j].value[u].local
    decreases |lines| - i
  {
    if i < |lines| {
      var d := if lines[i].None? then c else LineEnd(cfg, c, i, tr, lines[i].value);
      assert Has(d, j, u) && d.sessions[j].value[u].local == c.sessions[j].value[u].local;
      BranchStays(cfg, d, tr, lines, i + 1, j, u);
    }
  }

  lemma GapCall(cfg: Config, init: Call, a: TrId, b: TrId) returns (c: Call)
    requires init == INIT && a != b
    ensures c == After(cfg, init, [CallerOffer(a, [false, true], false, true)] +
                                  [CallerOffer(b, [false, true], false, true)])
    ensures Has(c, 1, a) && Has(c, 1, b) && c.sessions[1].value[a].local && c.sessions[1].value[b].local
    ensures |c.sessions| > 1 && c.sessions[0].None? && forall j: nat, u: TrId :: !HandsOn(c, j, u)
  {
    var first, second := CallerOffer(a, [false, true], false, true), CallerOffer(b, [false, true], false, true);
    AfterLast(cfg, init, [], first);
    assert [] + [first] == [first];
    AfterLast(cfg, init, [first], second);
    c := EventEnd(cfg, EventEnd(cfg, init, first), second);
  }

  /** The first line of the offer is declined, so that the first session is missing, and two branches answer: both of
      them send to the caller. */
  lemma GapExample(cfg: Config, init: Call, a: TrId, b: TrId, line: Line)
    requires cfg == Config(true, 0) && init == INIT && a != b && line.remote.Usable() && !line.ice
    ensures var lines := [Some(line), Some(line)];
            var c := After(cfg, init, [CallerOffer(a, [false, true], false, true)] +
                                      [CallerOffer(b, [false, true], false, true)]);
            !OneAtATime(EventEnd(cfg, EventEnd(cfg, c, EarlyAnswer(a, lines)), EarlyAnswer(b, lines)))
  {
    var c := GapCall(cfg, init, a, b);
    var lines := [Some(line), Some(line)];
    var d := EventEnd(cfg, c, EarlyAnswer(a, lines));
    BranchStays(cfg, c, a, lines, 0, 1, b);
    AnswerAt(cfg, c, a, lines, 0, 1, b);
    TwoAnswers(cfg, c, a, lines, b, lines);
    assert Links(cfg, c, a, lines, 1) && Links(cfg, d, b, lines, 1);
  }
}
