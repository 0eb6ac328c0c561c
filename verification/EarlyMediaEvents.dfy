/**
  What a whole event does to a relayed call, when nothing comes between its writes.
  */
module EarlyMediaEvents {
  import opened Collections
  import opened EarlyMedia
  import M = MediaChannel

  /** The leader is told to receive only, in the first `n` sessions. */
  function Demoted(c: Call, n: nat): Call
  {
    c.(sessions := seq(|c.sessions|, j requires 0 <= j < |c.sessions| =>
         if j < n then Demote(c.sessions[j], c.lead) else c.sessions[j]))
  }

  /** The state in which a line of an early answer is connected. */
  function Prepared(cfg: Config, c: Call, i: nat, tr: TrId): Call
  {
    if cfg.single && i == 0 then Demoted(c, Leading(c.sessions)).(lead := Some(tr)) else c
  }

  /** setChannelDestinations for an early answer. */
  function LineEnd(cfg: Config, c: Call, i: nat, tr: TrId, line: Line): Call
  {
    if i >= |c.sessions| || c.sessions[i].None? then c else Connected(cfg, Prepared(cfg, c, i, tr), i, tr, line)
  }

  /** The lines of an answer from `i` on, in order; a line that is not relayed is left out. */
  function LinesEnd(cfg: Config, c: Call, tr: TrId, lines: seq<Option<Line>>, i: nat): Call
    decreases |lines| - i
  {
    if i >= |lines| then c
    else LinesEnd(cfg, if lines[i].None? then c else LineEnd(cfg, c, i, tr, lines[i].value), tr, lines, i + 1)
  }

  /** The first `n` lines of an offer. */
  function Offer(c: Call, tr: TrId, accepted: seq<bool>, multi: bool, local: bool, n: nat): Call
  {
    c.(sessions := seq(|c.sessions|, j requires 0 <= j < |c.sessions| =>
         if j < n && j < |accepted| && accepted[j] then Offered(c.sessions[j], tr, Branch(M.FRESH, multi, local))
         else c.sessions[j]))
  }

  /** The branch is dropped from the first `n` sessions. */
  function Removed(c: Call, tr: TrId, n: nat): Call
  {
    c.(sessions := seq(|c.sessions|, j requires 0 <= j < |c.sessions| =>
         if j < n then Dropped(c.sessions[j], tr) else c.sessions[j]))
  }

  function EventEnd(cfg: Config, c: Call, e: Event): Call
  {
    match e
    case CallerOffer(tr, accepted, multi, local) => Offer(c, tr, accepted, multi && cfg.cap != 0, local, |accepted|)
    case EarlyAnswer(tr, lines) => LinesEnd(cfg, c, tr, lines, 0)
    case Failure(tr) => Removed(c, tr, |c.sessions|)
  }

  function After(cfg: Config, c: Call, es: seq<Event>): Call
    decreases |es|
  {
    if es == [] then c else EventEnd(cfg, After(cfg, c, es[..|es| - 1]), es[|es| - 1])
  }

  lemma AfterLast(cfg: Config, c: Call, es: seq<Event>, e: Event)
    ensures After(cfg, c, es + [e]) == EventEnd(cfg, After(cfg, c, es), e)
  {
    assert (es + [e])[..|es|] == es;
  }

  /** An offer adds closed branches of its transaction to the lines it accepts, and a failure takes the branches of
      its transaction away; neither touches any other branch, nor the lead. */
  lemma OthersKept(c: Call, tr: TrId, accepted: seq<bool>, multi: bool, local: bool, j: nat, u: TrId)
    ensures var d := Offer(c, tr, accepted, multi, local, |accepted|);
            && d.lead == c.lead
            && (Has(c, j, u) ==> Has(d, j, u) && d.sessions[j].value[u] == c.sessions[j].value[u])
            && (Has(d, j, u) && !Has(c, j, u) <==>
                  u == tr && j < |c.sessions| && j < |accepted| && accepted[j] && !Has(c, j, u))
            && (Has(d, j, u) && !Has(c, j, u) ==> d.sessions[j].value[u] == Branch(M.FRESH, multi, local))
    ensures var d := Removed(c, tr, |c.sessions|);
            && d.lead == c.lead && (Has(d, j, u) <==> Has(c, j, u) && u != tr)
            && (Has(d, j, u) ==> d.sessions[j].value[u] == c.sessions[j].value[u])
  {}

  /** The branches that have been given a remote port. */
  function WithPort(s: Session): set<TrId>
  {
    set v | v in s && s[v].chan.comps[0].port > 0
  }

  /** Connecting a line: the branch, if it has a local port and ICE has not completed, gets the ports of the line
      and may pass media on from then on if and only if the address is usable and there is no cap, or the branch
      has several targets, or fewer branches than the cap have a remote port.  Nothing else changes. */
  lemma ConnectsExactly(cfg: Config, c: Call, i: nat, tr: TrId, line: Line, j: nat, u: TrId)
    ensures var d := Connected(cfg, c, i, tr, line);
            && d.lead == c.lead && (Has(d, j, u) <==> Has(c, j, u))
            && (Has(c, j, u) && (j != i || u != tr) ==> d.sessions[j].value[u] == c.sessions[j].value[u])
            && (Has(c, i, tr) && c.sessions[i].value[tr].local && !line.ice ==>
                  var s, r := c.sessions[i].value, line.remote;
                  && ChannelAt(d, i, tr).comps[0].port == r.rtpPort && ChannelAt(d, i, tr).comps[1].port == r.rtcpPort
                  && (HandsOn(d, i, tr) <==>
                      && r.rtpPort != 0 && !(r.rtpPort > 0 && r.looped)
                      && (cfg.cap == 0 || s[tr].multi || |WithPort(s)| < cfg.cap)))
            && (Has(c, i, tr) && (!c.sessions[i].value[tr].local || line.ice) ==> d == c)
  {
    if Has(c, i, tr) {
      assert Active(c.sessions[i].value) == WithPort(c.sessions[i].value);
    }
  }

  // ----- The writes of an event, one after another -----

  function Finish(cfg: Config, c: Call, ws: seq<Write>): Call
    decreases |ws|
  {
    if ws == [] then c else Finish(cfg, Apply(cfg, c, ws[0]), ws[1..])
  }

  lemma {:induction false} FinishBoth(cfg: Config, c: Call, a: seq<Write>, b: seq<Write>)
    ensures Finish(cfg, c, a + b) == Finish(cfg, Finish(cfg, c, a), b)
    decreases |a|
  {
    if a == [] {
      assert a + b == b;
    } else {
      assert (a + b)[1..] == a[1..] + b;
      FinishBoth(cfg, Apply(cfg, c, a[0]), a[1..], b);
    }
  }

  lemma FinishFirst(cfg: Config, c: Call, w: Write, ws: seq<Write>)
    ensures Finish(cfg, c, [w] + ws) == Finish(cfg, Apply(cfg, c, w), ws)
  {
    assert ([w] + ws)[1..] == ws;
  }

  lemma {:induction false} DemotesDone(cfg: Config, c: Call, k: nat, n: nat)
    requires k <= n <= |c.sessions|
    ensures Finish(cfg, Demoted(c, k), Demotes(k, n)) == Demoted(c, n)
    decreases n - k
  {
    if k < n {
      var d := Demoted(c, k);
      FinishFirst(cfg, d, DemoteAt(k), Demotes(k + 1, n));
      assert Apply(cfg, d, DemoteAt(k)).sessions == Demoted(c, k + 1).sessions;
      DemotesDone(cfg, c, k + 1, n);
    }
  }

  lemma {:induction false} AddsDone(cfg: Config, c: Call, tr: TrId, accepted: seq<bool>, multi: bool, local: bool,
                                    k: nat)
    requires k <= |accepted|
    ensures Finish(cfg, Offer(c, tr, accepted, multi, local, k), Adds(tr, accepted, multi, local, k)) ==
            Offer(c, tr, accepted, multi, local, |accepted|)
    decreases |accepted| - k
  {
    if k < |accepted| {
      var d, rest := Offer(c, tr, accepted, multi, local, k), Adds(tr, accepted, multi, local, k + 1);
      var w := AddBranch(k, tr, multi, local);
      if accepted[k] {
        FinishFirst(cfg, d, w, rest);
        assert Apply(cfg, d, w).sessions == Offer(c, tr, accepted, multi, local, k + 1).sessions;
      } else {
        assert [] + rest == rest;
        assert d.sessions == Offer(c, tr, accepted, multi, local, k + 1).sessions;
      }
      AddsDone(cfg, c, tr, accepted, multi, local, k + 1);
    }
  }

  lemma {:induction false} DropsDone(cfg: Config, c: Call, tr: TrId, k: nat)
    requires k <= |c.sessions|
    ensures Finish(cfg, Removed(c, tr, k), Drops(tr, k, |c.sessions|)) == Removed(c, tr, |c.sessions|)
    decreases |c.sessions| - k
  {
    if k < |c.sessions| {
      var d := Removed(c, tr, k);
      FinishFirst(cfg, d, DropBranch(k, tr), Drops(tr, k + 1, |c.sessions|));
      assert Apply(cfg, d, DropBranch(k, tr)).sessions == Removed(c, tr, k + 1).sessions;
      DropsDone(cfg, c, tr, k + 1);
    }
  }

  lemma {:induction false} ConnectsDone(cfg: Config, c: Call, d: Call, tr: TrId, lines: seq<Option<Line>>, i: nat)
    requires SameShape(c, d) && i > 0
    ensures Finish(cfg, d, Connects(c, tr, lines, i)) == LinesEnd(cfg, d, tr, lines, i)
    decreases |lines| - i
  {
    if i < |lines| {
      var rest := Connects(c, tr, lines, i + 1);
      if Covers(c, lines, i) {
        FinishFirst(cfg, d, Connect(i, tr, lines[i].value), rest);
        ConnectsDone(cfg, c, Connected(cfg, d, i, tr, lines[i].value), tr, lines, i + 1);
      } else {
        assert [] + rest == rest;
        ConnectsDone(cfg, c, d, tr, lines, i + 1);
      }
    }
  }

  lemma AnswerDone(cfg: Config, c: Call, tr: TrId, lines: seq<Option<Line>>)
    ensures Finish(cfg, c, AnswerWrites(cfg, c, tr, lines)) == LinesEnd(cfg, c, tr, lines, 0)
  {
    if lines != [] {
      var rest := Connects(c, tr, lines, 1);
      if Covers(c, lines, 0) {
        var p, w := Prepared(cfg, c, 0, tr), Connect(0, tr, lines[0].value);
        PreparedDone(cfg, c, tr, [w] + rest);
        FinishFirst(cfg, p, w, rest);
        ConnectsDone(cfg, c, Connected(cfg, p, 0, tr, lines[0].value), tr, lines, 1);
        assert [] + ([w] + rest) == [w] + rest;
      } else {
        assert [] + ([] + rest) == rest;
        ConnectsDone(cfg, c, c, tr, lines, 1);
      }
    }
  }

  lemma PreparedDone(cfg: Config, c: Call, tr: TrId, rest: seq<Write>)
    ensures var n := Leading(c.sessions);
            Finish(cfg, c, (if cfg.single then Demotes(0, n) + [TakeLead(tr)] else []) + rest) ==
            Finish(cfg, Prepared(cfg, c, 0, tr), rest)
  {
    var n := Leading(c.sessions);
    if cfg.single {
      FinishBoth(cfg, c, Demotes(0, n) + [TakeLead(tr)], rest);
      FinishBoth(cfg, c, Demotes(0, n), [TakeLead(tr)]);
      assert Demoted(c, 0).sessions == c.sessions;
      DemotesDone(cfg, c, 0, n);
      assert Finish(cfg, Demoted(c, n), [TakeLead(tr)]) == Prepared(cfg, c, 0, tr);
    } else {
      assert [] + rest == rest;
    }
  }

  /** Nothing is lost in between: the writes of an event, one after another, do what the event does. */
  lemma EventDone(cfg: Config, c: Call, e: Event)
    ensures Finish(cfg, c, Writes(cfg, c, e)) == EventEnd(cfg, c, e)
  {
    match e
    case CallerOffer(tr, accepted, multi, local) =>
      assert Offer(c, tr, accepted, multi && cfg.cap != 0, local, 0).sessions == c.sessions;
      AddsDone(cfg, c, tr, accepted, multi && cfg.cap != 0, local, 0);
    case EarlyAnswer(tr, lines) => AnswerDone(cfg, c, tr, lines);
    case Failure(tr) =>
      assert Removed(c, tr, 0).sessions == c.sessions;
      DropsDone(cfg, c, tr, 0);
  }

  // ----- Runs without packets -----

  lemma {:induction false} Drain(cfg: Config, s: State, steps: seq<Step>, t: State) returns (more: seq<Step>)
    requires t == Run(cfg, s, steps)
    ensures steps <= more && Run(cfg, s, more) == State(Finish(cfg, t.call, t.todo), [])
    decreases |t.todo|
  {
    if t.todo == [] {
      more := steps;
    } else {
      assert (steps + [Proceed])[..|steps|] == steps;
      more := Drain(cfg, s, steps + [Proceed], Next(cfg, t, Proceed));
    }
  }

  /** Every sequence of events is a run. */
  lemma {:induction false} Undisturbed(cfg: Config, c: Call, es: seq<Event>) returns (steps: seq<Step>)
    ensures Run(cfg, State(c, []), steps) == State(After(cfg, c, es), [])
    decreases |es|
  {
    if es == [] {
      steps := [];
    } else {
      var e := es[|es| - 1];
      var before := Undisturbed(cfg, c, es[..|es| - 1]);
      var t := Run(cfg, State(c, []), before);
      assert (before + [Begin(e)])[..|before|] == before;
      EventDone(cfg, t.call, e);
      steps := Drain(cfg, State(c, []), before + [Begin(e)], Next(cfg, t, Begin(e)));
    }
  }
}
