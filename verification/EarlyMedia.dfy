/**
  A relayed call before it is established: one session per media line, in each of them one
  back channel per forked branch.  Early media answers decide which branches may send
  media to the caller.

  The SIP thread changes the channels one after another, while the relay thread receives
  packets on them.  So an event of the SIP thread is a list of writes, and packets may come
  between any two of them.
  */
module EarlyMedia {
  import opened Collections
  import M = MediaChannel

  type TrId = nat
  type Channel = c: M.Channel | c.Valid() witness M.FRESH
  type Remote = r: M.Remote | r.Valid() witness M.Remote(0, 0, false, [None, None])

  /** A back channel.  `local` says that a local port was found for it. */
  datatype Branch = Branch(chan: Channel, multi: bool, local: bool)

  type Session = map<TrId, Branch>

  datatype Call = Call(sessions: seq<Option<Session>>, lead: Option<TrId>)

  /** early-media-relay-single and max-early-media-per-call. */
  datatype Config = Config(single: bool, cap: int)

  /** A media line of an answer; `ice` says that ICE has completed on its channel. */
  datatype Line = Line(remote: Remote, ice: bool)

  const MAX_SESSIONS := 4
  const INIT := Call(seq(MAX_SESSIONS, _ => None), None)

  predicate Has(c: Call, i: nat, tr: TrId)
  {
    i < |c.sessions| && c.sessions[i].Some? && tr in c.sessions[i].value
  }

  function ChannelAt(c: Call, i: nat, tr: TrId): Channel
    requires Has(c, i, tr)
  {
    c.sessions[i].value[tr].chan
  }

  /** A packet received on the back channel is handed on to the caller. */
  predicate HandsOn(c: Call, i: nat, tr: TrId)
  {
    Has(c, i, tr) && M.Relays(ChannelAt(c, i, tr))
  }

  // ----- The writes -----

  function Active(s: Session): set<TrId>
  {
    set tr | tr in s && s[tr].chan.comps[0].port > 0
  }

  /** The direction an early answer gives: none once the cap is reached, unless the branch has several targets. */
  function DirFor(cfg: Config, s: Session, b: Branch): M.Dir
  {
    if cfg.cap != 0 && !b.multi && |Active(s)| >= cfg.cap then M.Inactive else M.SendRecv
  }

  function Demote(s: Option<Session>, lead: Option<TrId>): Option<Session>
  {
    if s.Some? && lead.Some? && lead.value in s.value then
      Some(s.value[lead.value := s.value[lead.value].(chan := s.value[lead.value].chan.(dir := M.SendOnly))])
    else s
  }

  /** initChannels: an accepted line gets a session and, in it, a branch for the transaction. */
  function Offered(s: Option<Session>, tr: TrId, b: Branch): Option<Session>
  {
    var before := if s.Some? then s.value else map[];
    if tr in before then s else Some(before[tr := b])
  }

  function Dropped(s: Option<Session>, tr: TrId): Option<Session>
  {
    if s.Some? then Some(s.value - {tr}) else None
  }

  /** The channel of the branch gets its remote address. */
  function Connected(cfg: Config, c: Call, i: nat, tr: TrId, line: Line): Call
  {
    if !Has(c, i, tr) || !c.sessions[i].value[tr].local || line.ice then c
    else
      var s := c.sessions[i].value;
      var chan := M.AfterRemote(s[tr].chan, line.remote, DirFor(cfg, s, s[tr]));
      c.(sessions := c.sessions[i := Some(s[tr := s[tr].(chan := chan)])])
  }

  /** A packet comes in on a back channel. */
  function Received(c: Call, i: nat, tr: TrId, comp: nat, source: M.Address, now: int): Call
  {
    if !Has(c, i, tr) || comp >= 2 then c
    else
      var s := c.sessions[i].value;
      c.(sessions := c.sessions[i := Some(s[tr := s[tr].(chan := M.AfterPacket(s[tr].chan, comp, source, now))])])
  }

  datatype Write =
    | DemoteAt(i: nat)
    | TakeLead(tr: TrId)
    | Connect(i: nat, tr: TrId, line: Line)
    | AddBranch(i: nat, tr: TrId, multi: bool, local: bool)
    | DropBranch(i: nat, tr: TrId)

  function Apply(cfg: Config, c: Call, w: Write): Call
  {
    match w
    case TakeLead(tr) => c.(lead := Some(tr))
    case Connect(i, tr, line) => Connected(cfg, c, i, tr, line)
    case DemoteAt(i) => if i < |c.sessions| then c.(sessions := c.sessions[i := Demote(c.sessions[i], c.lead)]) else c
    case AddBranch(i, tr, multi, local) =>
      if i < |c.sessions|
      then c.(sessions := c.sessions[i := Offered(c.sessions[i], tr, Branch(M.FRESH, multi, local))]) else c
    case DropBranch(i, tr) =>
      if i < |c.sessions| then c.(sessions := c.sessions[i := Dropped(c.sessions[i], tr)]) else c
  }

  // ----- Events of the SIP thread -----

  datatype Event =
    | CallerOffer(tr: TrId, accepted: seq<bool>, multi: bool, local: bool)
    | EarlyAnswer(tr: TrId, lines: seq<Option<Line>>)
    | Failure(tr: TrId)

  /** The sessions up to the first that is missing. */
  function Leading(ss: seq<Option<Session>>): (n: nat)
    ensures n <= |ss| && (forall j | 0 <= j < n :: ss[j].Some?) && (n < |ss| ==> ss[n].None?)
  {
    if ss == [] || ss[0].None? then 0 else 1 + Leading(ss[1..])
  }

  function Demotes(k: nat, n: nat): seq<Write>
    decreases n - k
  {
    if k >= n then [] else [DemoteAt(k)] + Demotes(k + 1, n)
  }

  /** The answer has a line for the session. */
  predicate Covers(c: Call, lines: seq<Option<Line>>, j: nat)
  {
    j < |lines| && lines[j].Some? && j < |c.sessions| && c.sessions[j].Some?
  }

  function Connects(c: Call, tr: TrId, lines: seq<Option<Line>>, i: nat): seq<Write>
    decreases |lines| - i
  {
    if i >= |lines| then []
    else (if Covers(c, lines, i) then [Connect(i, tr, lines[i].value)] else []) + Connects(c, tr, lines, i + 1)
  }

  /** setChannelDestinations for each line of an early answer, in order. */
  function AnswerWrites(cfg: Config, c: Call, tr: TrId, lines: seq<Option<Line>>): seq<Write>
  {
    (if cfg.single && Covers(c, lines, 0) then Demotes(0, Leading(c.sessions)) + [TakeLead(tr)] else []) +
    Connects(c, tr, lines, 0)
  }

  function Adds(tr: TrId, accepted: seq<bool>, multi: bool, local: bool, i: nat): seq<Write>
    decreases |accepted| - i
  {
    if i >= |accepted| then []
    else (if accepted[i] then [AddBranch(i, tr, multi, local)] else []) + Adds(tr, accepted, multi, local, i + 1)
  }

  function Drops(tr: TrId, i: nat, n: nat): seq<Write>
    decreases n - i
  {
    if i >= n then [] else [DropBranch(i, tr)] + Drops(tr, i + 1, n)
  }

  function Writes(cfg: Config, c: Call, e: Event): seq<Write>
  {
    match e
    case CallerOffer(tr, accepted, multi, local) => Adds(tr, accepted, multi && cfg.cap != 0, local, 0)
    case EarlyAnswer(tr, lines) => AnswerWrites(cfg, c, tr, lines)
    case Failure(tr) => Drops(tr, 0, |c.sessions|)
  }

  /** Connecting the line lets the branch pass media on: its address is usable and the cap leaves room. */
  predicate LinksTo(cfg: Config, c: Call, j: nat, tr: TrId, line: Line)
  {
    && Has(c, j, tr) && c.sessions[j].value[tr].local && !line.ice && line.remote.Usable()
    && DirFor(cfg, c.sessions[j].value, c.sessions[j].value[tr]) == M.SendRecv
  }

  /** The answer lets the branch of the session pass media on. */
  predicate Links(cfg: Config, c: Call, tr: TrId, lines: seq<Option<Line>>, j: nat)
  {
    Covers(c, lines, j) && LinksTo(cfg, c, j, tr, lines[j].value)
  }

  /** What an answer needs.  If it reaches the first session, whoever else passes media on does so before the first
      missing session; if not, its branch has the lead already or it links none. */
  ghost predicate Fair(cfg: Config, c: Call, tr: TrId, lines: seq<Option<Line>>)
  {
    if Covers(c, lines, 0) then forall j: nat, u: TrId | HandsOn(c, j, u) && u != tr :: j < Leading(c.sessions)
    else c.lead == Some(tr) || forall j: nat :: !Links(cfg, c, tr, lines, j)
  }

  // ----- Runs -----

  /** The call and what the SIP thread has still to write. */
  datatype State = State(call: Call, todo: seq<Write>)

  datatype Step =
    | Begin(e: Event)
    | Proceed
    | Packet(i: nat, tr: TrId, comp: nat, source: M.Address, now: int)

  function Next(cfg: Config, s: State, step: Step): State
  {
    match step
    case Begin(e) => if s.todo == [] then s.(todo := Writes(cfg, s.call, e)) else s
    case Proceed => if s.todo == [] then s else State(Apply(cfg, s.call, s.todo[0]), s.todo[1..])
    case Packet(i, tr, comp, source, now) => s.(call := Received(s.call, i, tr, comp, source, now))
  }

  function Run(cfg: Config, s: State, steps: seq<Step>): State
    decreases |steps|
  {
    if steps == [] then s else Next(cfg, Run(cfg, s, steps[..|steps| - 1]), steps[|steps| - 1])
  }

  // ----- One sender -----

  /** Only branches of the leader pass media on to the caller. */
  ghost predicate SingleSender(c: Call)
  {
    forall i: nat, tr: TrId | HandsOn(c, i, tr) :: c.lead == Some(tr)
  }

  predicate IsConnect(w: Write, tr: TrId)
  {
    w.Connect? && w.tr == tr
  }

  /** What is left to write adds or drops branches. */
  ghost predicate Calm(todo: seq<Write>)
  {
    forall w | w in todo :: w.AddBranch? || w.DropBranch?
  }

  /** The transaction has the lead and its channels are being connected. */
  ghost predicate Led(c: Call, todo: seq<Write>, tr: TrId)
  {
    c.lead == Some(tr) && forall w | w in todo :: IsConnect(w, tr)
  }

  /** The writes connect channels of different sessions. */
  ghost predicate Separate(todo: seq<Write>)
  {
    && (forall w | w in todo :: w.Connect?)
    && (forall a, b | 0 <= a < b < |todo| :: todo[a].i != todo[b].i)
  }

  /** The channels are being connected of a transaction that has not the lead, and none of them will pass media on. */
  ghost predicate Idle(cfg: Config, c: Call, todo: seq<Write>, tr: TrId)
  {
    && Separate(todo)
    && (forall w | w in todo :: IsConnect(w, tr) && !LinksTo(cfg, c, w.i, tr, w.line))
  }

  /** The lead is being taken away, and has been in the first `k` sessions. */
  ghost predicate Demoting(c: Call, todo: seq<Write>, tr: TrId, k: nat, rest: seq<Write>)
  {
    && k <= Leading(c.sessions)
    && todo == Demotes(k, Leading(c.sessions)) + ([TakeLead(tr)] + rest)
    && (forall w | w in rest :: IsConnect(w, tr))
    && (forall i: nat, u: TrId | HandsOn(c, i, u) && u != tr :: k <= i < Leading(c.sessions))
  }

  ghost predicate Phase(cfg: Config, c: Call, todo: seq<Write>)
  {
    || Calm(todo)
    || (exists tr: TrId :: Led(c, todo, tr))
    || (exists tr: TrId :: Idle(cfg, c, todo, tr))
    || (exists tr: TrId, k: nat, rest: seq<Write> :: Demoting(c, todo, tr, k, rest))
  }

  ghost predicate Inv(cfg: Config, s: State)
  {
    SingleSender(s.call) && Phase(cfg, s.call, s.todo)
  }

  // Packets

  lemma ReceivedAt(c: Call, i: nat, tr: TrId, comp: nat, source: M.Address, now: int, j: nat, u: TrId)
    ensures var d := Received(c, i, tr, comp, source, now);
            && (Has(d, j, u) <==> Has(c, j, u)) && (HandsOn(d, j, u) <==> HandsOn(c, j, u)) && d.lead == c.lead
            && SameShape(c, d)
  {}

  /** The same sessions exist. */
  ghost predicate SameShape(c: Call, d: Call)
  {
    |c.sessions| == |d.sessions| && forall j | 0 <= j < |c.sessions| :: c.sessions[j].Some? <==> d.sessions[j].Some?
  }

  lemma {:induction false} SameLeading(ss: seq<Option<Session>>, ts: seq<Option<Session>>)
    requires |ss| == |ts| && forall j | 0 <= j < |ss| :: ss[j].Some? <==> ts[j].Some?
    ensures Leading(ss) == Leading(ts)
  {
    if ss != [] && ss[0].Some? {
      SameLeading(ss[1..], ts[1..]);
    }
  }

  lemma ReceivedLinks(cfg: Config, c: Call, i: nat, tr: TrId, comp: nat, source: M.Address, now: int,
                      j: nat, u: TrId, line: Line)
    ensures LinksTo(cfg, Received(c, i, tr, comp, source, now), j, u, line) == LinksTo(cfg, c, j, u, line)
  {
    var d := Received(c, i, tr, comp, source, now);
    if Has(c, j, u) {
      assert Active(d.sessions[j].value) == Active(c.sessions[j].value);
    }
  }

  lemma PacketKeeps(cfg: Config, s: State, p: Step)
    requires Inv(cfg, s) && p.Packet?
    ensures Inv(cfg, Next(cfg, s, p))
  {
    var c, d := s.call, Next(cfg, s, p).call;
    forall j: nat, u: TrId
      ensures HandsOn(d, j, u) <==> HandsOn(c, j, u)
    {
      ReceivedAt(c, p.i, p.tr, p.comp, p.source, p.now, j, u);
    }
    ReceivedAt(c, p.i, p.tr, p.comp, p.source, p.now, 0, 0);
    SameLeading(c.sessions, d.sessions);
    if tr: TrId :| Led(c, s.todo, tr) {
      assert Led(d, s.todo, tr);
    } else if tr: TrId :| Idle(cfg, c, s.todo, tr) {
      forall w | w in s.todo
        ensures IsConnect(w, tr) && !LinksTo(cfg, d, w.i, tr, w.line)
      {
        ReceivedLinks(cfg, c, p.i, p.tr, p.comp, p.source, p.now, w.i, tr, w.line);
      }
      assert Idle(cfg, d, s.todo, tr);
    } else if tr: TrId, k: nat, rest: seq<Write> :| Demoting(c, s.todo, tr, k, rest) {
      assert Demoting(d, s.todo, tr, k, rest);
    }
  }

  // Writes

  lemma CalmKeeps(cfg: Config, c: Call, w: Write)
    requires SingleSender(c) && (w.AddBranch? || w.DropBranch?)
    ensures SingleSender(Apply(cfg, c, w))
  {
    var d := Apply(cfg, c, w);
    forall j: nat, u: TrId | HandsOn(d, j, u)
      ensures HandsOn(c, j, u)
    {}
  }

  lemma ConnectKeeps(cfg: Config, c: Call, w: Write)
    requires SingleSender(c) && w.Connect? && c.lead == Some(w.tr)
    ensures SingleSender(Apply(cfg, c, w)) && Apply(cfg, c, w).lead == c.lead
  {
    var d := Apply(cfg, c, w);
    forall j: nat, u: TrId | HandsOn(d, j, u)
      ensures u == w.tr || HandsOn(c, j, u)
    {}
  }

  lemma DemoteKeeps(cfg: Config, c: Call, i: nat)
    requires SingleSender(c) && i < |c.sessions|
    ensures var d := Apply(cfg, c, DemoteAt(i));
            && SingleSender(d) && d.lead == c.lead && SameShape(c, d)
            && (forall j: nat, u: TrId :: HandsOn(d, j, u) <==> HandsOn(c, j, u) && j != i)
  {
    var d := Apply(cfg, c, DemoteAt(i));
    forall j: nat, u: TrId
      ensures HandsOn(d, j, u) <==> HandsOn(c, j, u) && j != i
    {
      if j == i && HandsOn(c, j, u) {
        assert c.lead == Some(u);
      }
    }
  }

  lemma DemotingKeeps(cfg: Config, s: State, tr: TrId, k: nat, rest: seq<Write>)
    requires SingleSender(s.call) && Demoting(s.call, s.todo, tr, k, rest)
    ensures Inv(cfg, Next(cfg, s, Proceed))
  {
    var c, n := s.call, Leading(s.call.sessions);
    var d := Next(cfg, s, Proceed);
    var tail := [TakeLead(tr)] + rest;
    if k < n {
      assert s.todo == [DemoteAt(k)] + (Demotes(k + 1, n) + tail);
      DemoteKeeps(cfg, c, k);
      SameLeading(c.sessions, d.call.sessions);
      assert Demoting(d.call, d.todo, tr, k + 1, rest);
    } else {
      assert s.todo == tail && d.todo == rest && d.call == c.(lead := Some(tr));
      forall j: nat, u: TrId | HandsOn(d.call, j, u)
        ensures u == tr
      {
        assert HandsOn(c, j, u);
      }
      assert Led(d.call, d.todo, tr);
    }
  }

  lemma IdleKeeps(cfg: Config, s: State, tr: TrId)
    requires SingleSender(s.call) && s.todo != [] && Idle(cfg, s.call, s.todo, tr)
    ensures Inv(cfg, Next(cfg, s, Proceed))
  {
    var c, w, d := s.call, s.todo[0], Next(cfg, s, Proceed);
    assert w in s.todo;
    forall j: nat, u: TrId | HandsOn(d.call, j, u)
      ensures HandsOn(c, j, u)
    {}
    forall v | v in d.todo
      ensures IsConnect(v, tr) && !LinksTo(cfg, d.call, v.i, tr, v.line)
    {
      var a :| 0 < a < |s.todo| && s.todo[a] == v;
      assert s.todo[0].i != v.i;
    }
    assert Idle(cfg, d.call, d.todo, tr);
  }

  lemma ProceedKeeps(cfg: Config, s: State)
    requires Inv(cfg, s)
    ensures Inv(cfg, Next(cfg, s, Proceed))
  {
    if s.todo != [] {
      var w, d := s.todo[0], Next(cfg, s, Proceed);
      assert w in s.todo;
      if Calm(s.todo) {
        CalmKeeps(cfg, s.call, w);
        assert Calm(d.todo);
      } else if tr: TrId :| Led(s.call, s.todo, tr) {
        ConnectKeeps(cfg, s.call, w);
        assert Led(d.call, d.todo, tr);
      } else if tr: TrId :| Idle(cfg, s.call, s.todo, tr) {
        IdleKeeps(cfg, s, tr);
      } else {
        var tr: TrId, k: nat, rest: seq<Write> :| Demoting(s.call, s.todo, tr, k, rest);
        DemotingKeeps(cfg, s, tr, k, rest);
      }
    }
  }

  lemma {:induction false} ConnectsAre(c: Call, tr: TrId, lines: seq<Option<Line>>, i: nat)
    ensures forall w | w in Connects(c, tr, lines, i) ::
              IsConnect(w, tr) && i <= w.i && Covers(c, lines, w.i) && w.line == lines[w.i].value
    ensures Separate(Connects(c, tr, lines, i))
    decreases |lines| - i
  {
    if i < |lines| {
      var rest := Connects(c, tr, lines, i + 1);
      ConnectsAre(c, tr, lines, i + 1);
      if Covers(c, lines, i) {
        SeparateFirst(Connect(i, tr, lines[i].value), rest);
      } else {
        assert [] + rest == rest;
      }
    }
  }

  lemma SeparateFirst(w: Write, rest: seq<Write>)
    requires w.Connect? && Separate(rest) && forall v | v in rest :: v.i != w.i
    ensures Separate([w] + rest)
  {
    var all := [w] + rest;
    forall a, b | 0 <= a < b < |all|
      ensures all[a].i != all[b].i
    {
      assert all[b] == rest[b - 1] && rest[b - 1] in rest;
      if a > 0 {
        assert all[a] == rest[a - 1];
      }
    }
  }

  lemma {:induction false} AddsAre(tr: TrId, accepted: seq<bool>, multi: bool, local: bool, i: nat)
    ensures Calm(Adds(tr, accepted, multi, local, i))
    decreases |accepted| - i
  {
    if i < |accepted| {
      AddsAre(tr, accepted, multi, local, i + 1);
    }
  }

  lemma {:induction false} DropsAre(tr: TrId, i: nat, n: nat)
    ensures Calm(Drops(tr, i, n))
    decreases n - i
  {
    if i < n {
      DropsAre(tr, i + 1, n);
    }
  }

  /** An answer that begins is fair. */
  ghost predicate FairStep(cfg: Config, s: State, step: Step)
  {
    step.Begin? && step.e.EarlyAnswer? && s.todo == [] ==> Fair(cfg, s.call, step.e.tr, step.e.lines)
  }

  lemma LeadBegins(cfg: Config, c: Call, tr: TrId, lines: seq<Option<Line>>)
    requires cfg.single && Covers(c, lines, 0) && Fair(cfg, c, tr, lines)
    ensures Demoting(c, AnswerWrites(cfg, c, tr, lines), tr, 0, Connects(c, tr, lines, 0))
  {
    var n, rest := Leading(c.sessions), Connects(c, tr, lines, 0);
    ConnectsAre(c, tr, lines, 0);
    assert (Demotes(0, n) + [TakeLead(tr)]) + rest == Demotes(0, n) + ([TakeLead(tr)] + rest);
  }

  lemma ConnectsBegin(cfg: Config, c: Call, tr: TrId, lines: seq<Option<Line>>)
    requires !Covers(c, lines, 0) && Fair(cfg, c, tr, lines)
    ensures var todo := AnswerWrites(cfg, c, tr, lines); Led(c, todo, tr) || Idle(cfg, c, todo, tr)
  {
    var rest := Connects(c, tr, lines, 0);
    ConnectsAre(c, tr, lines, 0);
    assert [] + rest == rest;
    if c.lead != Some(tr) {
      forall w | w in rest
        ensures !LinksTo(cfg, c, w.i, tr, w.line)
      {
        assert !Links(cfg, c, tr, lines, w.i);
      }
    }
  }

  lemma BeginKeeps(cfg: Config, s: State, e: Event)
    requires cfg.single && Inv(cfg, s) && s.todo == [] && FairStep(cfg, s, Begin(e))
    ensures Inv(cfg, Next(cfg, s, Begin(e)))
  {
    match e
    case CallerOffer(tr, accepted, multi, local) => AddsAre(tr, accepted, multi && cfg.cap != 0, local, 0);
    case Failure(tr) => DropsAre(tr, 0, |s.call.sessions|);
    case EarlyAnswer(tr, lines) =>
      if Covers(s.call, lines, 0) {
        LeadBegins(cfg, s.call, tr, lines);
      } else {
        ConnectsBegin(cfg, s.call, tr, lines);
      }
  }

  /** With the feature on, in every state of every run, packets that come while an answer is being dealt with included,
      the branches that may pass media on to the caller are those of the leader, provided answers are fair. */
  lemma {:induction false} OneSender(cfg: Config, s: State, steps: seq<Step>)
    requires cfg.single && SingleSender(s.call) && s.todo == []
    requires forall k | 0 <= k < |steps| :: FairStep(cfg, Run(cfg, s, steps[..k]), steps[k])
    ensures Inv(cfg, Run(cfg, s, steps))
    decreases |steps|
  {
    if steps == [] {
      assert Calm(s.todo);
    } else {
      var n := |steps| - 1;
      var before, step := Run(cfg, s, steps[..n]), steps[n];
      forall k | 0 <= k < n
        ensures FairStep(cfg, Run(cfg, s, steps[..n][..k]), steps[..n][k])
      {
        assert steps[..n][..k] == steps[..k];
      }
      OneSender(cfg, s, steps[..n]);
      match step
      case Begin(e) =>
        if before.todo == [] {
          BeginKeeps(cfg, before, e);
        }
      case Proceed => ProceedKeeps(cfg, before);
      case Packet(_, _, _, _, _) => PacketKeeps(cfg, before, step);
    }
  }

  /** So every packet that is handed on to the caller, whenever it comes, is from the leading transaction. */
  lemma PacketsComeFromLeader(cfg: Config, s: State, steps: seq<Step>, k: nat)
    requires cfg.single && SingleSender(s.call) && s.todo == []
    requires forall k | 0 <= k < |steps| :: FairStep(cfg, Run(cfg, s, steps[..k]), steps[k])
    requires k < |steps| && steps[k].Packet? && HandsOn(Run(cfg, s, steps[..k]).call, steps[k].i, steps[k].tr)
    ensures Run(cfg, s, steps[..k]).call.lead == Some(steps[k].tr)
  {
    forall j | 0 <= j < k
      ensures FairStep(cfg, Run(cfg, s, steps[..k][..j]), steps[..k][j])
    {
      assert steps[..k][..j] == steps[..j];
    }
    OneSender(cfg, s, steps[..k]);
  }

  // ----- Answers in order are fair -----

  /** No session comes after a missing one. */
  ghost predicate Prefix(ss: seq<Option<Session>>)
  {
    forall i, j | 0 <= i < j < |ss| && ss[j].Some? :: ss[i].Some?
  }

  /** Answers are fair when no session comes after a missing one and they have their first line. */
  lemma OrderlyIsFair(cfg: Config, c: Call, tr: TrId, lines: seq<Option<Line>>)
    requires Prefix(c.sessions) && (lines != [] ==> lines[0].Some?)
    ensures Fair(cfg, c, tr, lines)
  {
    if Covers(c, lines, 0) {
      forall j: nat, u: TrId | HandsOn(c, j, u)
        ensures j < Leading(c.sessions)
      {}
    } else {
      assert forall j: nat :: !Covers(c, lines, j);
    }
  }
}
