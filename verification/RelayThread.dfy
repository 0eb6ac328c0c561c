/**
  The relay thread and the SIP thread working on the same sessions.  A step is what one of them does while it holds a
  lock; a run is the effect of a schedule of steps, and a step whose guard does not hold leaves the state as it is.
  */
module RelayThread {
  import opened Collections
  import opened PollTable

  type SessionId = nat

  /** Where the relay thread is.  `sure` says that it has just found the session in use. */
  datatype Pc = Start | Filling(k: nat, sure: bool) | Polling | Woken | Checking(k: nat, sure: bool)

  datatype State = State(sessions: map<SessionId, Session>, list: seq<SessionId>, table: Table, round: nat, pc: Pc,
                         next: ChannelId) {
    predicate Valid()
    {
      table.Valid() && forall sid | sid in list :: sid in sessions
    }
  }

  datatype Step =
    | Relay(err: int, reported: seq<int>)
    | CreateSession(sid: SessionId, rtp: int, rtcp: int)
    | CreateBranch(sid: SessionId, tr: TrId, at: nat, rtp: int, rtcp: int)
    | RemoveBranch(sid: SessionId, tr: TrId)
    | SetEstablished(sid: SessionId, tr: TrId)
    | Unuse(sid: SessionId)

  const CONTROL: ChannelId := 0
  const TABLE_SIZE := 512
  const INIT := State(map[], [], Table([], TABLE_SIZE), 0, Start, CONTROL + 1)

  // ----- The SIP thread -----

  /** What a step of the SIP thread does to the session it names. */
  function Changed(s: Session, id: ChannelId, step: Step): Session
  {
    match step
    case CreateBranch(_, tr, at, rtp, rtcp) => WithBranch(s, tr, at, Channel(id, rtp, rtcp, -1))
    case RemoveBranch(_, tr) => WithoutBranch(s, tr)
    case SetEstablished(_, tr) => Established(s, tr)
    case Unuse(_) => UNUSED
    case _ => s
  }

  function SipStep(s: State, step: Step): (r: State)
    requires s.Valid() && !step.Relay?
    ensures r.Valid()
  {
    if step.CreateSession? then
      if step.sid in s.sessions || s.pc.Filling? || s.pc.Checking? then s
      else
        var front := Channel(s.next, step.rtp, step.rtcp, -1);
        s.(sessions := s.sessions[step.sid := Session(true, Some(front), [], None)], list := s.list + [step.sid],
           next := s.next + 1)
    else if step.sid in s.sessions && s.sessions[step.sid].used then
      s.(sessions := s.sessions[step.sid := Changed(s.sessions[step.sid], s.next, step)], next := s.next + 1)
    else s
  }

  // ----- The relay thread -----

  function Report(e: Entry, k: nat, reported: seq<int>): Entry
  {
    e.(revents := if k < |reported| then reported[k] else 0)
  }

  function Polled(t: Table, reported: seq<int>): Table
  {
    t.(entries := seq(|t.entries|, k requires 0 <= k < |t.entries| => Report(t.entries[k], k, reported)))
  }

  function RelayStep(s: State, err: int, reported: seq<int>): (r: State)
    requires s.Valid()
    ensures r.Valid()
  {
    match s.pc
    case Start => s.(table := Reset(s.table), round := s.round + 1, pc := Filling(0, false))
    case Filling(k, sure) =>
      if k >= |s.list| then s.(table := Add(s.table, Entry(0, 0, CONTROL, 0, s.round)), pc := Polling)
      else if sure then
        var (t, x) := Fill(s.table, s.sessions[s.list[k]], s.round);
        s.(table := t, sessions := s.sessions[s.list[k] := x], pc := Filling(k + 1, false))
      else s.(pc := if s.sessions[s.list[k]].used then Filling(k, true) else Filling(k + 1, false))
    case Polling => s.(table := Polled(s.table, reported), pc := if err > 0 then Woken else Start)
    case Woken => s.(pc := Checking(0, false))
    case Checking(k, sure) =>
      if k >= |s.list| then s.(pc := Start)
      else if sure then s.(pc := Checking(k + 1, false))
      else if s.sessions[s.list[k]].used then s.(pc := Checking(k, true))
      else s.(list := s.list[..k] + s.list[k + 1..])
  }

  function Next(s: State, step: Step): (r: State)
    requires s.Valid()
    ensures r.Valid()
  {
    if step.Relay? then RelayStep(s, step.err, step.reported) else SipStep(s, step)
  }

  function Run(s: State, steps: seq<Step>): (r: State)
    requires s.Valid()
    ensures r.Valid()
    decreases |steps|
  {
    if steps == [] then s else Next(Run(s, steps[..|steps| - 1]), steps[|steps| - 1])
  }

  // ----- The invariant -----

  /** The session has had its turn this round. */
  ghost predicate Settled(s: State, sid: SessionId)
  {
    match s.pc
    case Start => false
    case Filling(k, _) => forall j | k <= j < |s.list| :: s.list[j] != sid
    case _ => true
  }

  ghost predicate SessionInv(s: State, sid: SessionId)
    requires sid in s.sessions
  {
    var x := s.sessions[sid];
    && (if x.used then sid in s.list else x == UNUSED)
    && (Settled(s, sid) ==> AllGood(s.table, s.round, Watched(x)))
  }

  ghost predicate Inv(s: State)
  {
    s.Valid() && forall sid | sid in s.sessions :: SessionInv(s, sid)
  }

  // A session changed by the SIP thread watches no channel that it did not watch before, but for a new one.

  lemma InsertedWatched(s: Session, tr: TrId, at: nat, c: Channel, d: Channel)
    requires d in Watched(WithBranch(s, tr, at, c))
    ensures d in Watched(s) || d == c
  {
    var r := WithBranch(s, tr, at, c);
    if r != s && s.back.None? && s.front != Some(d) {
      var k :| 0 <= k < |r.backs| && r.backs[k].1 == d;
      if k != at {
        assert r.backs[k] == s.backs[if k < at then k else k - 1];
      }
    }
  }

  lemma RemovedWatched(s: Session, tr: TrId, d: Channel)
    requires d in Watched(WithoutBranch(s, tr))
    ensures d in Watched(s)
  {
    var r, at := WithoutBranch(s, tr), Find(s.backs, tr);
    if r != s && s.back.None? && s.front != Some(d) {
      var k :| 0 <= k < |r.backs| && r.backs[k].1 == d;
      assert r.backs[k] == s.backs[if k < at then k else k + 1];
    }
  }

  lemma ChangedWatched(s: Session, id: ChannelId, step: Step, d: Channel)
    requires !step.Relay? && !step.CreateSession? && d in Watched(Changed(s, id, step))
    ensures d in Watched(s) || (d.id == id && d.index == -1)
  {
    match step
    case CreateBranch(_, tr, at, rtp, rtcp) => InsertedWatched(s, tr, at, Channel(id, rtp, rtcp, -1), d);
    case RemoveBranch(_, tr) => RemovedWatched(s, tr, d);
    case SetEstablished(_, tr) =>
      if Established(s, tr) != s {
        assert s.backs[Find(s.backs, tr)] in s.backs;
      }
    case Unuse(_) =>
  }

  lemma SipKeepsInv(s: State, step: Step)
    requires Inv(s) && !step.Relay?
    ensures Inv(SipStep(s, step))
  {
    var r := SipStep(s, step);
    forall sid | sid in r.sessions
      ensures SessionInv(r, sid)
    {
      if sid in s.sessions {
        assert SessionInv(s, sid);
        if !step.CreateSession? && sid == step.sid && s.sessions[sid].used {
          forall d | d in Watched(r.sessions[sid]) && Settled(r, sid)
            ensures Good(r.table, r.round, d)
          {
            ChangedWatched(s.sessions[sid], s.next, step, d);
          }
        }
      }
    }
  }

  lemma FillKeepsInv(s: State)
    requires Inv(s) && s.pc.Filling? && s.pc.sure && s.pc.k < |s.list|
    ensures Inv(RelayStep(s, 0, []))
  {
    var r, filled := RelayStep(s, 0, []), s.list[s.pc.k];
    var x := s.sessions[filled];
    FillGood(s.table, x, s.round);
    forall sid | sid in r.sessions
      ensures SessionInv(r, sid)
    {
      assert SessionInv(s, sid);
      if sid != filled {
        forall d | d in Watched(r.sessions[sid]) && Settled(r, sid)
          ensures Good(r.table, r.round, d)
        {
          GoodStays(s.table, r.table, s.round, d);
        }
      }
    }
  }

  lemma PollKeepsInv(s: State, err: int, reported: seq<int>)
    requires Inv(s) && s.pc.Polling?
    ensures Inv(RelayStep(s, err, reported))
  {
    var r := RelayStep(s, err, reported);
    forall sid | sid in r.sessions
      ensures SessionInv(r, sid)
    {
      assert SessionInv(s, sid);
      forall d | d in Watched(r.sessions[sid])
        ensures Good(r.table, r.round, d)
      {
        assert Good(s.table, s.round, d);
      }
    }
  }

  lemma FilledKeepsInv(s: State)
    requires Inv(s) && s.pc.Filling? && s.pc.k >= |s.list|
    ensures Inv(RelayStep(s, 0, []))
  {
    var r := RelayStep(s, 0, []);
    forall sid | sid in r.sessions
      ensures SessionInv(r, sid)
    {
      assert SessionInv(s, sid);
      forall d | d in Watched(s.sessions[sid])
        ensures Good(r.table, r.round, d)
      {
        GoodStays(s.table, r.table, s.round, d);
      }
    }
  }

  lemma TurnKeepsInv(s: State)
    requires Inv(s) && s.pc.Filling? && s.pc.k < |s.list| && !s.pc.sure
    ensures Inv(RelayStep(s, 0, []))
  {
    var r := RelayStep(s, 0, []);
    forall sid | sid in r.sessions
      ensures SessionInv(r, sid)
    {
      assert SessionInv(s, sid);
      if Settled(r, sid) && !Settled(s, sid) {
        assert s.list[s.pc.k] == sid;
      }
    }
  }

  lemma CheckKeepsInv(s: State)
    requires Inv(s) && s.pc.Checking?
    ensures Inv(RelayStep(s, 0, []))
  {
    var r := RelayStep(s, 0, []);
    forall sid | sid in r.sessions
      ensures SessionInv(r, sid)
    {
      assert SessionInv(s, sid);
      if s.sessions[sid].used {
        var j :| 0 <= j < |s.list| && s.list[j] == sid;
        assert r.list != s.list ==> r.list[if j < s.pc.k then j else j - 1] == sid;
      }
    }
  }

  lemma RelayKeepsInv(s: State, err: int, reported: seq<int>)
    requires Inv(s)
    ensures Inv(RelayStep(s, err, reported))
  {
    match s.pc
    case Polling => PollKeepsInv(s, err, reported);
    case Checking(_, _) => CheckKeepsInv(s);
    case Filling(k, sure) =>
      if k >= |s.list| {
        FilledKeepsInv(s);
      } else if sure {
        FillKeepsInv(s);
      } else {
        TurnKeepsInv(s);
      }
    case _ =>
      var r := RelayStep(s, err, reported);
      forall sid | sid in r.sessions
        ensures SessionInv(r, sid)
      {
        assert SessionInv(s, sid);
      }
  }

  lemma {:induction false} InvStays(s: State, steps: seq<Step>)
    requires Inv(s)
    ensures Inv(Run(s, steps))
    decreases |steps|
  {
    if steps != [] {
      var step, t := steps[|steps| - 1], Run(s, steps[..|steps| - 1]);
      InvStays(s, steps[..|steps| - 1]);
      if step.Relay? {
        RelayKeepsInv(t, step.err, step.reported);
      } else {
        SipKeepsInv(t, step);
      }
    }
  }

  /** The invariant holds after every run. */
  lemma Reachable(steps: seq<Step>)
    ensures Inv(Run(INIT, steps))
  {
    InvStays(INIT, steps);
  }

  // ----- What the relay thread reads -----

  /** The relay thread is about to examine the session. */
  predicate Examining(s: State)
    requires s.Valid()
  {
    s.pc.Checking? && s.pc.sure && s.pc.k < |s.list|
  }

  function Examined(s: State): Session
    requires s.Valid() && Examining(s)
  {
    s.sessions[s.list[s.pc.k]]
  }

  /** The slot at the channel's index was filled in this round for the socket of the component. */
  predicate OwnSlot(s: State, c: Channel, i: nat)
  {
    0 <= c.index &&
    var l := Read(s.table, c.index + i);
    l.Found? && l.entry.fd == c.Socket(i) && l.entry.owner == c.id && l.entry.comp == i && l.entry.round == s.round
  }

  lemma OwnSlots(s: State, c: Channel, i: nat)
    requires Inv(s) && Examining(s) && c in Watched(Examined(s)) && i < 2
    ensures c.index == -1 || OwnSlot(s, c, i)
  {
    assert SessionInv(s, s.list[s.pc.k]);
    assert Good(s.table, s.round, c);
    assert c.index == -1 || Owns(s.table, s.round, c, i);
  }

  /** In every run, when the relay thread examines a session, each slot that it looks at was filled in this round for
      the socket that it is looked up for: nothing is out of bounds and nothing is stale. */
  lemma ReadsOwnSlots(steps: seq<Step>, s: State, c: Channel, i: nat)
    requires s == Run(INIT, steps) && Examining(s) && c in Watched(Examined(s)) && i < 2
    ensures c.index == -1 || OwnSlot(s, c, i)
  {
    Reachable(steps);
    OwnSlots(s, c, i);
  }

  /** A packet is due on the component of the channel: its own slot has events. */
  predicate Due(s: State, t: Session, c: Channel, x: (ChannelId, nat))
  {
    c in Watched(t) && c.id == x.0 && OwnSlot(s, c, x.1) && Read(s.table, c.index + x.1).entry.revents != 0
  }

  lemma ExactlyReported(s: State, x: (ChannelId, nat))
    requires Inv(s) && Examining(s)
    ensures x in Transfers(s.table, Examined(s)) <==> x.1 < 2 && exists c :: Due(s, Examined(s), c, x)
  {
    var t := Examined(s);
    TransfersExactly(s.table, t, x);
    if x in Transfers(s.table, t) {
      var c :| c in Watched(t) && ReadFor(s.table, c, x);
      OwnSlots(s, c, x.1);
      assert Due(s, t, c, x);
    }
    if c :| Due(s, t, c, x) {
      assert ReadFor(s.table, c, x);
    }
  }

  /** In every run, a packet is read from exactly those channels and components of the session whose own slot poll
      has reported in this round. */
  lemma ReadsExactlyReported(steps: seq<Step>, s: State, x: (ChannelId, nat))
    requires s == Run(INIT, steps) && Examining(s)
    ensures x in Transfers(s.table, Examined(s)) <==> x.1 < 2 && exists c :: Due(s, Examined(s), c, x)
  {
    Reachable(steps);
    ExactlyReported(s, x);
  }

  /** In every run, examining a session throws nothing, whatever the memory behind the filled slots holds, and reads the
      packets that poll reported. */
  lemma NothingThrown(steps: seq<Step>, s: State, memory: seq<Entry>)
    requires s == Run(INIT, steps) && Examining(s) && |memory| == s.table.size && s.table.entries <= memory
    ensures Scan(memory, Lookups(Examined(s))) == (Transfers(s.table, Examined(s)), false)
  {
    Reachable(steps);
    assert SessionInv(s, s.list[s.pc.k]);
    forall x | x in Lookups(Examined(s))
      ensures Good(s.table, s.round, x.0) && x.1 < 2
    {
      LookupsAre(Examined(s), x.0, x.1);
    }
    ScanGood(s.table, s.round, memory, Lookups(Examined(s)));
  }

  // ----- Identities and places -----

  ghost predicate OlderThan(s: Session, next: ChannelId)
  {
    && (s.front.Some? ==> s.front.value.id < next) && (s.back.Some? ==> s.back.value.id < next)
    && forall k | 0 <= k < |s.backs| :: s.backs[k].1.id < next
  }

  lemma FillKeepsOlder(t: Table, s: Session, round: nat, next: ChannelId)
    requires t.Valid() && OlderThan(s, next)
    ensures OlderThan(Fill(t, s, round).1, next)
  {
    FillBacksSeats(FillOption(t, s.front, round).0, s.backs, round);
  }

  lemma ChangedOlder(s: Session, id: ChannelId, step: Step)
    requires OlderThan(s, id)
    ensures OlderThan(Changed(s, id, step), id + 1)
  {}

  ghost predicate AllOlder(s: State)
  {
    forall sid | sid in s.sessions :: OlderThan(s.sessions[sid], s.next)
  }

  lemma NextKeepsOlder(s: State, step: Step)
    requires s.Valid() && AllOlder(s)
    ensures AllOlder(Next(s, step))
  {
    if step.Relay? {
      if s.pc.Filling? && s.pc.sure && s.pc.k < |s.list| {
        FillKeepsOlder(s.table, s.sessions[s.list[s.pc.k]], s.round, s.next);
      }
    } else if step.sid in s.sessions {
      ChangedOlder(s.sessions[step.sid], s.next, step);
    }
  }

  /** In every run, the identity that the next channel gets is one that no channel has. */
  lemma {:induction false} FreshIdentity(steps: seq<Step>)
    ensures AllOlder(Run(INIT, steps))
    decreases |steps|
  {
    if steps != [] {
      FreshIdentity(steps[..|steps| - 1]);
      NextKeepsOlder(Run(INIT, steps[..|steps| - 1]), steps[|steps| - 1]);
    }
  }

  ghost predicate Holds(x: Session, p: Place, id: ChannelId)
  {
    At(x, p).Some? && At(x, p).value.id == id
  }

  /** No two places of the session hold the same channel. */
  ghost predicate ApartIn(x: Session)
  {
    forall p, q, id | Holds(x, p, id) && Holds(x, q, id) :: p == q
  }

  ghost predicate ApartBetween(x: Session, y: Session)
  {
    forall p, q, id | Holds(x, p, id) :: !Holds(y, q, id)
  }

  ghost predicate Apart(s: State)
  {
    && (forall sid | sid in s.sessions :: ApartIn(s.sessions[sid]))
    && (forall sid, tid | sid in s.sessions && tid in s.sessions && sid != tid ::
          ApartBetween(s.sessions[sid], s.sessions[tid]))
  }

  lemma OlderHolds(x: Session, next: ChannelId, p: Place, id: ChannelId)
    requires OlderThan(x, next) && Holds(x, p, id)
    ensures id < next
  {}

  /** The place a channel had before a step of the SIP thread; nothing for a new channel. */
  function Origin(x: Session, step: Step, p: Place): Option<Place>
  {
    match step
    case CreateBranch(_, tr, at, _, _) =>
      if p.Branch? && Find(x.backs, tr) == |x.backs| && at <= |x.backs| && at <= p.k then
        if p.k == at then None else Some(Branch(p.k - 1))
      else Some(p)
    case RemoveBranch(_, tr) => if p.Branch? && Find(x.backs, tr) <= p.k then Some(Branch(p.k + 1)) else Some(p)
    case SetEstablished(_, tr) => if p.Back? && x.back.None? then Some(Branch(Find(x.backs, tr))) else Some(p)
    case _ => Some(p)
  }

  lemma ChangedFrom(x: Session, next: ChannelId, step: Step, p: Place, id: ChannelId)
    requires Holds(Changed(x, next, step), p, id)
    ensures if Origin(x, step, p).None? then id == next else Holds(x, Origin(x, step, p).value, id)
  {}

  lemma OriginOnce(x: Session, next: ChannelId, step: Step, p: Place, q: Place, id: ChannelId)
    requires Holds(Changed(x, next, step), p, id) && Holds(Changed(x, next, step), q, id)
    requires Origin(x, step, p) == Origin(x, step, q)
    ensures p == q
  {}

  lemma ChangedApart(x: Session, next: ChannelId, step: Step)
    requires ApartIn(x) && OlderThan(x, next)
    ensures ApartIn(Changed(x, next, step))
  {
    forall p, q, id | Holds(Changed(x, next, step), p, id) && Holds(Changed(x, next, step), q, id)
      ensures p == q
    {
      ChangedFrom(x, next, step, p, id);
      ChangedFrom(x, next, step, q, id);
      var a, b := Origin(x, step, p), Origin(x, step, q);
      if a.Some? {
        OlderHolds(x, next, a.value, id);
      }
      if b.Some? {
        OlderHolds(x, next, b.value, id);
      }
      OriginOnce(x, next, step, p, q, id);
    }
  }

  lemma FilledHolds(t: Table, x: Session, round: nat, p: Place, id: ChannelId)
    requires t.Valid()
    ensures Holds(Fill(t, x, round).1, p, id) <==> Holds(x, p, id)
  {
    FillBacksSeats(FillOption(t, x.front, round).0, x.backs, round);
  }

  ghost predicate Had(s: State, sid: SessionId, id: ChannelId)
  {
    sid in s.sessions && exists p :: Holds(s.sessions[sid], p, id)
  }

  /** What a step leaves in a session was in it, or is new and in the session that the step is about. */
  lemma NextFrom(s: State, step: Step, sid: SessionId, p: Place, id: ChannelId)
    requires s.Valid() && sid in Next(s, step).sessions && Holds(Next(s, step).sessions[sid], p, id)
    ensures Had(s, sid, id) || (id == s.next && !step.Relay? && step.sid == sid)
  {
    if step.Relay? {
      if s.pc.Filling? && s.pc.sure && s.pc.k < |s.list| && sid == s.list[s.pc.k] {
        FilledHolds(s.table, s.sessions[sid], s.round, p, id);
      }
      assert Holds(s.sessions[sid], p, id);
    } else if sid in s.sessions {
      if sid == step.sid && s.sessions[sid].used && !step.CreateSession? {
        ChangedFrom(s.sessions[sid], s.next, step, p, id);
      } else {
        assert Holds(s.sessions[sid], p, id);
      }
    }
  }

  lemma NextApartIn(s: State, step: Step, sid: SessionId)
    requires s.Valid() && AllOlder(s) && Apart(s) && sid in Next(s, step).sessions
    ensures ApartIn(Next(s, step).sessions[sid])
  {
    if step.Relay? {
      if s.pc.Filling? && s.pc.sure && s.pc.k < |s.list| && sid == s.list[s.pc.k] {
        forall p, id
          ensures Holds(Next(s, step).sessions[sid], p, id) <==> Holds(s.sessions[sid], p, id)
        {
          FilledHolds(s.table, s.sessions[sid], s.round, p, id);
        }
      }
    } else if sid in s.sessions && sid == step.sid {
      ChangedApart(s.sessions[sid], s.next, step);
    }
  }

  lemma NextKeepsApart(s: State, step: Step)
    requires s.Valid() && AllOlder(s) && Apart(s)
    ensures Apart(Next(s, step))
  {
    var r := Next(s, step);
    forall sid | sid in r.sessions
      ensures ApartIn(r.sessions[sid])
    {
      NextApartIn(s, step, sid);
    }
    forall sid, tid, p, q, id | sid in r.sessions && tid in r.sessions && sid != tid && Holds(r.sessions[sid], p, id)
      ensures !Holds(r.sessions[tid], q, id)
    {
      if Holds(r.sessions[tid], q, id) {
        NextFrom(s, step, sid, p, id);
        NextFrom(s, step, tid, q, id);
        NotBoth(s, sid, tid, id);
      }
    }
  }

  lemma NotBoth(s: State, sid: SessionId, tid: SessionId, id: ChannelId)
    requires AllOlder(s) && Apart(s) && sid != tid
    ensures !(Had(s, sid, id) && Had(s, tid, id))
    ensures Had(s, sid, id) || Had(s, tid, id) ==> id < s.next
  {
    if Had(s, sid, id) {
      var p :| Holds(s.sessions[sid], p, id);
      OlderHolds(s.sessions[sid], s.next, p, id);
    }
    if Had(s, tid, id) {
      var q :| Holds(s.sessions[tid], q, id);
      OlderHolds(s.sessions[tid], s.next, q, id);
    }
  }

  /** In every run no two places hold the same channel: neither of one session nor of two. */
  lemma {:induction false} PlacesHoldDifferent(steps: seq<Step>)
    ensures Apart(Run(INIT, steps))
    decreases |steps|
  {
    if steps != [] {
      PlacesHoldDifferent(steps[..|steps| - 1]);
      FreshIdentity(steps[..|steps| - 1]);
      NextKeepsApart(Run(INIT, steps[..|steps| - 1]), steps[|steps| - 1]);
    }
  }

  /** In every run, once the table is filled, the slots of the channels in two different places are apart. */
  lemma PlacesApart(steps: seq<Step>, s: State, sid: SessionId, p: Place, tid: SessionId, q: Place)
    requires s == Run(INIT, steps) && (s.pc.Polling? || s.pc.Woken? || s.pc.Checking?)
    requires sid in s.sessions && tid in s.sessions && (sid != tid || p != q)
    requires At(s.sessions[sid], p).Some? && At(s.sessions[sid], p).value in Watched(s.sessions[sid])
    requires At(s.sessions[tid], q).Some? && At(s.sessions[tid], q).value in Watched(s.sessions[tid])
    ensures var c, d := At(s.sessions[sid], p).value, At(s.sessions[tid], q).value;
            c.index != -1 && d.index != -1 ==> c.index + 2 <= d.index || d.index + 2 <= c.index
  {
    var c, d := At(s.sessions[sid], p).value, At(s.sessions[tid], q).value;
    Reachable(steps);
    PlacesHoldDifferent(steps);
    assert Holds(s.sessions[sid], p, c.id) && Holds(s.sessions[tid], q, d.id);
    assert c.id != d.id by {
      if sid == tid {
        assert ApartIn(s.sessions[sid]);
      } else {
        assert ApartBetween(s.sessions[sid], s.sessions[tid]);
      }
    }
    assert SessionInv(s, sid) && SessionInv(s, tid);
    if c.index != -1 && d.index != -1 {
      SlotsDisjoint(s.table, s.round, c, d);
    }
  }

  // ----- The winner -----

  ghost predicate Won(s: State, sid: SessionId, front: ChannelId, winner: ChannelId)
  {
    && sid in s.sessions
    && (s.sessions[sid].used ==>
          && s.sessions[sid].front.Some? && s.sessions[sid].front.value.id == front
          && s.sessions[sid].back.Some? && s.sessions[sid].back.value.id == winner)
    && (!s.sessions[sid].used ==> s.sessions[sid] == UNUSED)
  }

  lemma WonStays(s: State, step: Step, sid: SessionId, front: ChannelId, winner: ChannelId)
    requires s.Valid() && Won(s, sid, front, winner)
    ensures Won(Next(s, step), sid, front, winner)
  {}

  /** Once a branch has won, it is the callee until the session ends, whatever is created, removed or established
      afterwards: every lookup for a party other than the caller gives it, and packets go between it and the caller
      and to nobody else. */
  lemma {:induction false} WinnerStays(s: State, steps: seq<Step>, sid: SessionId, front: ChannelId, winner: ChannelId)
    requires s.Valid() && Won(s, sid, front, winner)
    ensures Won(Run(s, steps), sid, front, winner)
    ensures var r := Run(s, steps); var x := r.sessions[sid];
            && (x.used ==> forall tr: TrId :: GetChannel(x, tr).Some? && GetChannel(x, tr).value.id == winner)
            && (forall y | y in Transfers(r.table, x) ::
                  (y.0 == front && Destinations(x, y.0) == [winner]) ||
                  (y.0 == winner && Destinations(x, y.0) == [front]))
    decreases |steps|
  {
    if steps != [] {
      WinnerStays(s, steps[..|steps| - 1], sid, front, winner);
      WonStays(Run(s, steps[..|steps| - 1]), steps[|steps| - 1], sid, front, winner);
    }
    WonTransfers(Run(s, steps), sid, front, winner);
  }

  lemma WonTransfers(s: State, sid: SessionId, front: ChannelId, winner: ChannelId)
    requires s.Valid() && Won(s, sid, front, winner)
    ensures var x := s.sessions[sid];
            forall y | y in Transfers(s.table, x) ::
              (y.0 == front && Destinations(x, y.0) == [winner]) || (y.0 == winner && Destinations(x, y.0) == [front])
  {
    var x := s.sessions[sid];
    forall y | y in Transfers(s.table, x)
      ensures (y.0 == front && Destinations(x, y.0) == [winner]) || (y.0 == winner && Destinations(x, y.0) == [front])
    {
      TransfersExactly(s.table, x, y);
    }
  }

  /** The first branch to be established wins. */
  lemma FirstEstablishedWins(s: State, sid: SessionId, tr: TrId)
    requires s.Valid() && sid in s.sessions && s.sessions[sid].used && s.sessions[sid].front.Some?
    requires s.sessions[sid].back.None? && GetChannel(s.sessions[sid], tr).Some?
    ensures Won(Next(s, SetEstablished(sid, tr)), sid, s.sessions[sid].front.value.id,
                GetChannel(s.sessions[sid], tr).value.id)
  {}
}
