/**
  A round of the relay thread: the table is filled from every session in use, the sockets stay in it until the round
  ends, and every session is examined when poll has reported something.
  */
module RelayRounds {
  import opened Collections
  import opened PollTable
  import opened RelayThread

  // ----- What the relay thread polls -----

  /** The session's watched channels among `ids` have their slots. */
  ghost predicate Seats(s: State, sid: SessionId, ids: set<ChannelId>)
  {
    && sid in s.sessions && (forall id | id in ids :: id < s.next)
    && forall c | c in Watched(s.sessions[sid]) && c.id in ids :: Seated(s.table, s.round, c)
  }

  lemma SipKeepsSeats(s: State, step: Step, sid: SessionId, ids: set<ChannelId>)
    requires s.Valid() && !step.Relay? && Seats(s, sid, ids)
    ensures Seats(SipStep(s, step), sid, ids)
  {
    var r := SipStep(s, step);
    if !step.CreateSession? && sid == step.sid && s.sessions[sid].used {
      forall c | c in Watched(r.sessions[sid]) && c.id in ids
        ensures Seated(r.table, r.round, c)
      {
        ChangedWatched(s.sessions[sid], s.next, step, c);
      }
    }
  }

  lemma RelayKeepsSeats(s: State, err: int, reported: seq<int>, sid: SessionId, ids: set<ChannelId>)
    requires s.Valid() && Seats(s, sid, ids) && RelayStep(s, err, reported).round == s.round
    ensures Seats(RelayStep(s, err, reported), sid, ids)
  {
    var r := RelayStep(s, err, reported);
    if s.pc.Filling? && s.pc.sure && s.pc.k < |s.list| {
      FillGood(s.table, s.sessions[s.list[s.pc.k]], s.round);
    }
    if s.pc.Filling? {
      forall c | c in Watched(s.sessions[sid]) && c.id in ids
        ensures Seated(r.table, s.round, c)
      {
        GoodStays(s.table, r.table, s.round, c);
      }
    } else if s.pc.Polling? {
      forall c | c in Watched(s.sessions[sid]) && c.id in ids
        ensures Seated(r.table, s.round, c)
      {
        assert Good(s.table, s.round, c);
      }
    }
  }

  lemma {:induction false} SeatsStay(s: State, steps: seq<Step>, sid: SessionId, ids: set<ChannelId>)
    requires s.Valid() && Seats(s, sid, ids)
    ensures Run(s, steps).round >= s.round
    ensures Run(s, steps).round == s.round ==> Seats(Run(s, steps), sid, ids)
    decreases |steps|
  {
    if steps != [] {
      var before, step := steps[..|steps| - 1], steps[|steps| - 1];
      SeatsStay(s, before, sid, ids);
      var t := Run(s, before);
      if t.round == s.round && Next(t, step).round == s.round {
        if step.Relay? {
          RelayKeepsSeats(t, step.err, step.reported, sid, ids);
        } else {
          SipKeepsSeats(t, step, sid, ids);
        }
      }
    }
  }

  /** The relay thread is about to fill the table from the session. */
  predicate Taking(s: State)
    requires s.Valid()
  {
    s.pc.Filling? && s.pc.sure && s.pc.k < |s.list|
  }

  ghost function WatchedIds(x: Session): set<ChannelId>
  {
    set c | c in Watched(x) :: c.id
  }

  lemma TakenSeats(s: State, step: Step)
    requires Inv(s) && AllOlder(s) && Taking(s) && step.Relay?
    ensures Seats(Next(s, step), s.list[s.pc.k], WatchedIds(s.sessions[s.list[s.pc.k]]))
    ensures Next(s, step).round == s.round
  {
    var sid := s.list[s.pc.k];
    FillGood(s.table, s.sessions[sid], s.round);
    forall c | c in Watched(s.sessions[sid])
      ensures c.id < s.next
    {
      WatchedAt(s.sessions[sid], c);
    }
  }

  /** In every run: the sockets that a session has when the table is filled from it are polled.  Until the round ends,
      each of its watched channels that was there then has the two slots of its own sockets, whatever the SIP thread
      does meanwhile, or has no sockets. */
  lemma SocketsPolled(before: seq<Step>, s: State, step: Step, after: seq<Step>, r: State, c: Channel)
    requires s == Run(INIT, before) && Taking(s) && step.Relay?
    requires r == Run(Next(s, step), after) && r.round == s.round
    requires s.list[s.pc.k] in r.sessions && c in Watched(r.sessions[s.list[s.pc.k]])
    requires c.id in WatchedIds(s.sessions[s.list[s.pc.k]])
    ensures if c.rtp == -1 then c.index == -1 else OwnSlot(r, c, 0) && OwnSlot(r, c, 1)
  {
    var sid := s.list[s.pc.k];
    Reachable(before);
    FreshIdentity(before);
    TakenSeats(s, step);
    SeatsStay(Next(s, step), after, sid, WatchedIds(s.sessions[sid]));
    assert Seated(r.table, r.round, c);
    if c.index != -1 {
      assert Owns(r.table, r.round, c, 0) && Owns(r.table, r.round, c, 1);
    }
  }

  // ----- Every session has its turn -----

  /** With step `n` the relay thread fills the table from the session at place `j` of the list, or finds it unused. */
  ghost predicate ServedAt(s: State, steps: seq<Step>, j: nat, n: nat)
    requires s.Valid() && j < |s.list|
  {
    && n < |steps| && steps[n].Relay?
    && var t := Run(s, steps[..n]);
    && t.list == s.list
    && (t.pc == Filling(j, true) || (t.pc == Filling(j, false) && !t.sessions[t.list[j]].used))
  }

  ghost predicate Served(s: State, steps: seq<Step>, j: nat)
    requires s.Valid() && j < |s.list|
  {
    exists n :: ServedAt(s, steps, j, n)
  }

  lemma ServedBefore(s: State, before: seq<Step>, steps: seq<Step>, j: nat)
    requires s.Valid() && j < |s.list| && before <= steps && Served(s, before, j)
    ensures Served(s, steps, j)
  {
    var n: nat :| ServedAt(s, before, j, n);
    assert steps[..n] == before[..n];
    assert ServedAt(s, steps, j, n);
  }

  /** How far the filling has come. */
  ghost predicate FilledTo(s: State, steps: seq<Step>)
    requires s.Valid()
  {
    var t := Run(s, steps);
    && (t.pc.Filling? ==> t.list == s.list && t.pc.k <= |s.list|)
    && forall j | 0 <= j < |s.list| && (t.pc.Filling? ==> j < t.pc.k) :: Served(s, steps, j)
  }

  lemma FilledNext(s: State, before: seq<Step>, steps: seq<Step>, step: Step)
    requires s.Valid() && steps == before + [step] && FilledTo(s, before)
    requires Run(s, before).round == s.round && Run(s, steps).round == s.round
    requires Run(s, steps) == Next(Run(s, before), step)
    ensures FilledTo(s, steps)
  {
    var t, r := Run(s, before), Run(s, steps);
    forall j | 0 <= j < |s.list| && (r.pc.Filling? ==> j < r.pc.k)
      ensures Served(s, steps, j)
    {
      if t.pc.Filling? && j >= t.pc.k {
        assert steps[..|before|] == before;
        assert ServedAt(s, steps, j, |before|);
      } else {
        ServedBefore(s, before, steps, j);
      }
    }
  }

  lemma {:induction false} RoundGrows(s: State, steps: seq<Step>)
    requires s.Valid()
    ensures Run(s, steps).round >= s.round
    decreases |steps|
  {
    if steps != [] {
      RoundGrows(s, steps[..|steps| - 1]);
    }
  }

  lemma FillingBegins(s: State, none: seq<Step>)
    requires s.Valid() && s.pc == Filling(0, false) && none == []
    ensures FilledTo(s, none)
  {}

  lemma {:induction false} FillingGoesOn(s: State, steps: seq<Step>)
    requires s.Valid() && s.pc == Filling(0, false) && Run(s, steps).round == s.round
    ensures FilledTo(s, steps)
    decreases |steps|
  {
    if steps == [] {
      FillingBegins(s, steps);
    } else {
      var before, step := steps[..|steps| - 1], steps[|steps| - 1];
      RoundGrows(s, before);
      FillingGoesOn(s, before);
      assert steps == before + [step];
      FilledNext(s, before, steps, step);
    }
  }

  /** By the time the relay thread polls, it has gone through the whole list: it has filled the table from every session
      in it, but for those that it found unused. */
  lemma AllServed(s: State, first: Step, r: State, steps: seq<Step>, j: nat)
    requires s.Valid() && s.pc.Start? && first.Relay? && r == Next(s, first) && j < |s.list|
    requires Run(r, steps).round == r.round && !Run(r, steps).pc.Filling?
    ensures r.list == s.list && Served(r, steps, j)
  {
    FillingGoesOn(r, steps);
  }

  /** With step `n` the relay thread examines the session. */
  ghost predicate LookedAt(s: State, steps: seq<Step>, sid: SessionId, n: nat)
    requires s.Valid()
  {
    && n < |steps| && steps[n].Relay?
    && var t := Run(s, steps[..n]);
    Examining(t) && t.list[t.pc.k] == sid
  }

  ghost predicate Looked(s: State, steps: seq<Step>, sid: SessionId)
    requires s.Valid()
  {
    exists n :: LookedAt(s, steps, sid, n)
  }

  lemma LookedBefore(s: State, before: seq<Step>, steps: seq<Step>, sid: SessionId)
    requires s.Valid() && before <= steps && Looked(s, before, sid)
    ensures Looked(s, steps, sid)
  {
    var n: nat :| LookedAt(s, before, sid, n);
    assert steps[..n] == before[..n];
    assert LookedAt(s, steps, sid, n);
  }

  /** The session is still to come in the list, or has been examined, or is not used any more. */
  ghost predicate CheckedTo(s: State, steps: seq<Step>, sid: SessionId)
    requires s.Valid()
  {
    var t := Run(s, steps);
    && (t.pc.Woken? || t.pc.Checking? || t.pc.Start?) && sid in t.sessions
    && (t.sessions[sid].used ==>
          || Looked(s, steps, sid)
          || (t.pc.Woken? && sid in t.list)
          || (t.pc.Checking? && t.pc.k < |t.list| && sid in t.list[t.pc.k..]))
  }

  /** A step of the relay thread leaves what is still to come, but for the session that it examines. */
  lemma StillToCome(t: State, err: int, reported: seq<int>, sid: SessionId)
    requires t.Valid() && t.pc.Checking? && t.pc.k < |t.list| && sid in t.list[t.pc.k..] && t.sessions[sid].used
    requires !(t.pc.sure && t.list[t.pc.k] == sid)
    ensures var r := RelayStep(t, err, reported);
            r.pc.Checking? && r.pc.k < |r.list| && sid in r.list[r.pc.k..] && r.sessions == t.sessions
  {
    var k := t.pc.k;
    assert t.list[k..] == [t.list[k]] + t.list[k + 1..];
    if !t.pc.sure && !t.sessions[t.list[k]].used {
      assert (t.list[..k] + t.list[k + 1..])[k..] == t.list[k + 1..];
    }
  }

  lemma CheckedNext(s: State, before: seq<Step>, steps: seq<Step>, step: Step, sid: SessionId)
    requires s.Valid() && steps == before + [step] && CheckedTo(s, before, sid)
    requires Run(s, before).round == s.round && Run(s, steps).round == s.round
    requires Run(s, steps) == Next(Run(s, before), step)
    ensures CheckedTo(s, steps, sid)
  {
    var t, r := Run(s, before), Run(s, steps);
    if Looked(s, before, sid) {
      LookedBefore(s, before, steps, sid);
    } else if r.sessions[sid].used && step.Relay? {
      if t.pc.Woken? {
        assert t.list[0..] == t.list;
      } else if t.pc.sure && t.list[t.pc.k] == sid {
        assert steps[..|before|] == before;
        assert LookedAt(s, steps, sid, |before|);
      } else {
        StillToCome(t, step.err, step.reported, sid);
      }
    }
  }

  lemma CheckingBegins(s: State, none: seq<Step>, sid: SessionId)
    requires s.Valid() && s.pc.Woken? && sid in s.list && none == []
    ensures CheckedTo(s, none, sid)
  {}

  lemma {:induction false} CheckingGoesOn(s: State, steps: seq<Step>, sid: SessionId)
    requires s.Valid() && s.pc.Woken? && sid in s.list && Run(s, steps).round == s.round
    ensures CheckedTo(s, steps, sid)
    decreases |steps|
  {
    if steps == [] {
      CheckingBegins(s, steps, sid);
    } else {
      var before, step := steps[..|steps| - 1], steps[|steps| - 1];
      RoundGrows(s, before);
      CheckingGoesOn(s, before, sid);
      assert steps == before + [step];
      CheckedNext(s, before, steps, step, sid);
    }
  }

  /** When poll has reported something, the relay thread examines every session of the list before the next round, but
      for those that are not used any more by then; no session that is erased from the list makes it miss another. */
  lemma AllExamined(s: State, err: int, reported: seq<int>, r: State, steps: seq<Step>, sid: SessionId)
    requires s.Valid() && s.pc.Polling? && err > 0 && r == Next(s, Relay(err, reported)) && sid in s.list
    requires Run(r, steps).round == r.round && Run(r, steps).pc.Start?
    requires sid in Run(r, steps).sessions && Run(r, steps).sessions[sid].used
    ensures Looked(r, steps, sid)
  {
    CheckingGoesOn(r, steps, sid);
  }

  /** The table stays as poll left it until the round ends. */
  lemma {:induction false} TableStays(s: State, steps: seq<Step>)
    requires s.Valid() && (s.pc.Woken? || s.pc.Start?)
    ensures Run(s, steps).round >= s.round
    ensures Run(s, steps).round == s.round ==>
              Run(s, steps).table == s.table && !Run(s, steps).pc.Filling? && !Run(s, steps).pc.Polling?
    decreases |steps|
  {
    if steps != [] {
      TableStays(s, steps[..|steps| - 1]);
    }
  }

  /** poll reported something for the component of the watched channel. */
  predicate Reported(x: Session, reported: seq<int>, c: Channel, y: (ChannelId, nat))
  {
    && c in Watched(x) && c.id == y.0
    && 0 <= c.index && c.index + y.1 < |reported| && reported[c.index + y.1] != 0
  }

  /** In every run: what is read from a session is what this round's call of poll reported for its sockets. */
  lemma ReadsWhatWasReported(before: seq<Step>, s: State, err: int, reported: seq<int>, after: seq<Step>, r: State,
                             y: (ChannelId, nat))
    requires s == Run(INIT, before) && s.pc.Polling?
    requires r == Run(Next(s, Relay(err, reported)), after) && r.round == s.round && Examining(r)
    ensures y in Transfers(r.table, Examined(r)) <==> y.1 < 2 && exists c :: Reported(Examined(r), reported, c, y)
  {
    Reachable(before);
    RelayKeepsInv(s, err, reported);
    InvStays(Next(s, Relay(err, reported)), after);
    TableStays(Next(s, Relay(err, reported)), after);
    assert r.table == Polled(s.table, reported);
    TransfersExactly(r.table, Examined(r), y);
    forall c | c in Watched(Examined(r)) && y.1 < 2
      ensures ReadFor(r.table, c, y) <==> Reported(Examined(r), reported, c, y)
    {
      ReadReported(s, reported, r, c, y);
    }
  }

  lemma ReadReported(s: State, reported: seq<int>, r: State, c: Channel, y: (ChannelId, nat))
    requires Inv(r) && Examining(r) && r.table == Polled(s.table, reported)
    requires c in Watched(Examined(r)) && y.1 < 2
    ensures ReadFor(r.table, c, y) <==> Reported(Examined(r), reported, c, y)
  {
    OwnSlots(r, c, y.1);
  }

  // ----- No socket is read twice -----

  /** The place of the channel that comes at position `a` of a turn. */
  function TurnPlace(x: Session, a: nat): Place
  {
    var b: int := if x.front.Some? then a - 1 else a;
    if b < 0 then Front else if x.back.Some? then Back else Branch(b)
  }

  lemma TurnAt(x: Session, i: nat, a: nat)
    requires a < |Turn(x, i)|
    ensures At(x, TurnPlace(x, a)) == Some(Turn(x, i)[a].0) && Turn(x, i)[a].1 == i
  {}

  lemma TurnOnce(x: Session, i: nat, a: nat, b: nat)
    requires ApartIn(x) && a < b < |Turn(x, i)|
    ensures Turn(x, i)[a].0.id != Turn(x, i)[b].0.id
  {
    TurnAt(x, i, a);
    TurnAt(x, i, b);
    var c, d := Turn(x, i)[a].0, Turn(x, i)[b].0;
    assert TurnPlace(x, a) != TurnPlace(x, b);
    assert Holds(x, TurnPlace(x, a), c.id) && Holds(x, TurnPlace(x, b), d.id);
  }

  /** No two lookups are for the same component of the same channel. */
  ghost predicate Once(cs: seq<(Channel, nat)>)
  {
    forall a, b | 0 <= a < b < |cs| :: cs[a].0.id != cs[b].0.id || cs[a].1 != cs[b].1
  }

  lemma LookupsOnce(x: Session)
    requires ApartIn(x)
    ensures Once(Lookups(x))
  {
    var cs, n := Lookups(x), |Turn(x, 0)|;
    forall a, b | 0 <= a < b < |cs|
      ensures cs[a].0.id != cs[b].0.id || cs[a].1 != cs[b].1
    {
      if b < n {
        TurnOnce(x, 0, a, b);
      } else if a >= n {
        TurnOnce(x, 1, a - n, b - n);
      } else {
        TurnAt(x, 0, a);
        TurnAt(x, 1, b - n);
      }
    }
  }

  lemma {:induction false} ReadsOnce(t: Table, cs: seq<(Channel, nat)>)
    requires Once(cs)
    ensures forall a, b | 0 <= a < b < |Reads(t, cs)| :: Reads(t, cs)[a] != Reads(t, cs)[b]
  {
    if cs != [] {
      var before := cs[..|cs| - 1];
      var (c, i) := cs[|cs| - 1];
      ReadsOnce(t, before);
      ReadsAre(t, before, (c.id, i));
    }
  }

  /** In every run, examining a session reads no socket twice. */
  lemma NoSocketTwice(steps: seq<Step>, s: State, a: nat, b: nat)
    requires s == Run(INIT, steps) && Examining(s) && a < b < |Transfers(s.table, Examined(s))|
    ensures Transfers(s.table, Examined(s))[a] != Transfers(s.table, Examined(s))[b]
  {
    PlacesHoldDifferent(steps);
    LookupsOnce(Examined(s));
    ReadsOnce(s.table, Lookups(Examined(s)));
  }

  // ----- The control pipe -----

  ghost predicate ControlLast(s: State)
  {
    && (s.pc.Polling? ==> s.table.entries != [] && s.table.entries[|s.table.entries| - 1].owner == CONTROL)
    && s.next > CONTROL
    && forall sid, p, id: ChannelId | sid in s.sessions && Holds(s.sessions[sid], p, id) :: id > CONTROL
  }

  lemma ControlNext(s: State, step: Step)
    requires s.Valid() && ControlLast(s)
    ensures ControlLast(Next(s, step))
  {
    var r := Next(s, step);
    forall sid, p, id: ChannelId | sid in r.sessions && Holds(r.sessions[sid], p, id)
      ensures id > CONTROL
    {
      NextFrom(s, step, sid, p, id);
    }
  }

  /** In every run the last slot that is polled is that of the control pipe, and it is no channel's. */
  lemma {:induction false} ControlPolled(steps: seq<Step>)
    ensures ControlLast(Run(INIT, steps))
    decreases |steps|
  {
    if steps != [] {
      ControlPolled(steps[..|steps| - 1]);
      ControlNext(Run(INIT, steps[..|steps| - 1]), steps[|steps| - 1]);
    }
  }

  // ----- Rounds come to an end -----

  function Phase(pc: Pc): nat
  {
    match pc
    case Filling(_, _) => 4
    case Polling => 3
    case Woken => 2
    case Checking(_, _) => 1
    case Start => 0
  }

  /** How much of the list is left to go through. */
  function Left(s: State): nat
  {
    if (s.pc.Filling? || s.pc.Checking?) && s.pc.k < |s.list| then
      2 * (|s.list| - s.pc.k) + if s.pc.sure then 0 else 1
    else 0
  }

  /** Every step of the relay thread brings the end of the round nearer or begins the next one, and the SIP thread does
      not put it off. */
  lemma RoundEnds(s: State, step: Step)
    requires s.Valid()
    ensures var r := Next(s, step);
            if step.Relay? then
              || (s.pc.Start? && r.round == s.round + 1 && r.pc == Filling(0, false))
              || (r.round == s.round && Phase(r.pc) < Phase(s.pc))
              || (r.round == s.round && Phase(r.pc) == Phase(s.pc) && Left(r) < Left(s))
            else r.pc == s.pc && r.round == s.round && Left(r) == Left(s)
  {}

  // ----- What the SIP thread's calls do -----

  /** A new session is in use, has the caller's channel and nothing else, and is polled from the next round on. */
  lemma SessionCreated(s: State, sid: SessionId, rtp: int, rtcp: int)
    requires s.Valid() && sid !in s.sessions && !s.pc.Filling? && !s.pc.Checking?
    ensures var r := Next(s, CreateSession(sid, rtp, rtcp));
            && r.list == s.list + [sid] && sid in r.sessions && r.sessions[sid].used
            && r.sessions[sid].front == Some(Channel(s.next, rtp, rtcp, -1))
            && (forall tr: TrId :: GetChannel(r.sessions[sid], tr).None?)
            && (forall other | other in s.sessions :: other in r.sessions && r.sessions[other] == s.sessions[other])
  {}

  /** While there is no winner, creating and removing a branch change what its transaction finds, and establishing
      one of them makes every transaction find it; neither the caller's channel nor any other session is touched. */
  lemma BranchCalls(s: State, step: Step, other: TrId)
    requires s.Valid() && (step.CreateBranch? || step.RemoveBranch? || step.SetEstablished?)
    requires step.sid in s.sessions && s.sessions[step.sid].used && s.sessions[step.sid].back.None?
    requires Distinct(s.sessions[step.sid].backs) && (step.CreateBranch? ==> step.at <= |s.sessions[step.sid].backs|)
    ensures var r, x := Next(s, step), s.sessions[step.sid];
            && r.sessions.Keys == s.sessions.Keys && r.sessions[step.sid].used && r.sessions[step.sid].front == x.front
            && (forall tid | tid in s.sessions && tid != step.sid :: r.sessions[tid] == s.sessions[tid])
            && GetChannel(r.sessions[step.sid], other) ==
               match step
               case CreateBranch(_, tr, _, rtp, rtcp) =>
                 if other == tr && GetChannel(x, tr).None? then Some(Channel(s.next, rtp, rtcp, -1))
                 else GetChannel(x, other)
               case RemoveBranch(_, tr) => if other == tr then None else GetChannel(x, other)
               case SetEstablished(_, tr) => if GetChannel(x, tr).Some? then GetChannel(x, tr) else GetChannel(x, other)
               case _ => None
  {
    var x := s.sessions[step.sid];
    match step
    case CreateBranch(_, tr, at, rtp, rtcp) => BranchAdded(x, tr, at, Channel(s.next, rtp, rtcp, -1), other);
    case RemoveBranch(_, tr) => BranchRemoved(x, tr, other);
    case SetEstablished(_, tr) =>
  }

  // ----- The end of a session -----

  lemma {:induction false} EndedStays(s: State, steps: seq<Step>, sid: SessionId)
    requires s.Valid() && sid in s.sessions && s.sessions[sid] == UNUSED
    ensures sid in Run(s, steps).sessions && Run(s, steps).sessions[sid] == UNUSED
    decreases |steps|
  {
    if steps != [] {
      EndedStays(s, steps[..|steps| - 1], sid);
    }
  }

  /** The list has no place for the session any more up to where the relay thread is. */
  ghost predicate Passed(s: State, sid: SessionId)
  {
    match s.pc
    case Woken => true
    case Checking(k, sure) => k <= |s.list| && sid !in s.list[..k] && (sure ==> k < |s.list| && s.list[k] != sid)
    case Start => sid !in s.list
    case _ => false
  }

  lemma PassedNext(s: State, step: Step, sid: SessionId)
    requires s.Valid() && sid in s.sessions && s.sessions[sid] == UNUSED && Passed(s, sid)
    requires Next(s, step).round == s.round
    ensures Passed(Next(s, step), sid)
  {
    if step.Relay? && s.pc.Checking? && s.pc.k < |s.list| {
      var k := s.pc.k;
      assert s.list[..k + 1] == s.list[..k] + [s.list[k]];
      assert (s.list[..k] + s.list[k + 1..])[..k] == s.list[..k];
    } else if step.Relay? && s.pc.Checking? {
      assert s.list[..s.pc.k] == s.list;
    }
  }

  lemma {:induction false} PassedOn(s: State, steps: seq<Step>, sid: SessionId)
    requires s.Valid() && s.pc.Woken? && sid in s.sessions && s.sessions[sid] == UNUSED
    requires Run(s, steps).round == s.round
    ensures Passed(Run(s, steps), sid)
    decreases |steps|
  {
    if steps != [] {
      var before := steps[..|steps| - 1];
      RoundGrows(s, before);
      PassedOn(s, before, sid);
      EndedStays(s, before, sid);
      PassedNext(Run(s, before), steps[|steps| - 1], sid);
    }
  }

  /** After the end of a session nothing is left of it, whatever comes, and by the end of the next examination it
      is gone from the list. */
  lemma SessionEnds(s: State, sid: SessionId, more: seq<Step>, steps: seq<Step>)
    requires s.Valid() && sid in s.sessions && s.sessions[sid].used
    requires var r := Run(Next(s, Unuse(sid)), more);
             r.pc.Woken? && Run(r, steps).round == r.round && Run(r, steps).pc.Start?
    ensures var r := Run(Next(s, Unuse(sid)), more);
            && sid in r.sessions && r.sessions[sid] == Session(false, None, [], None)
            && sid !in Run(r, steps).list
  {
    EndedStays(Next(s, Unuse(sid)), more, sid);
    PassedOn(Run(Next(s, Unuse(sid)), more), steps, sid);
  }

  // ----- The callees before there is a winner -----

  ghost predicate AllDistinct(s: State)
  {
    forall sid | sid in s.sessions :: Distinct(s.sessions[sid].backs)
  }

  lemma ChangedDistinct(x: Session, id: ChannelId, step: Step)
    requires Distinct(x.backs)
    ensures Distinct(Changed(x, id, step).backs)
  {
    if step.CreateBranch? && Changed(x, id, step) != x {
      InsertedDistinct(x.backs, step.tr, step.at, Channel(id, step.rtp, step.rtcp, -1));
    } else if step.RemoveBranch? && Changed(x, id, step) != x {
      ErasedDistinct(x.backs, Find(x.backs, step.tr));
    }
  }

  lemma {:induction false} TransactionsDistinct(steps: seq<Step>)
    ensures AllDistinct(Run(INIT, steps))
    decreases |steps|
  {
    if steps != [] {
      var s, step := Run(INIT, steps[..|steps| - 1]), steps[|steps| - 1];
      TransactionsDistinct(steps[..|steps| - 1]);
      if step.Relay? {
        if Taking(s) {
          var x := s.sessions[s.list[s.pc.k]];
          FillBacksSeats(FillOption(s.table, x.front, s.round).0, x.backs, s.round);
        }
      } else if step.sid in s.sessions {
        ChangedDistinct(s.sessions[step.sid], s.next, step);
      }
    }
  }

  /** In every run, while a call has no winner, a packet of the caller goes to the channel of every branch, to each once
      and to nobody else. */
  lemma EveryBranchServed(steps: seq<Step>, s: State, sid: SessionId, id: ChannelId)
    requires s == Run(INIT, steps) && sid in s.sessions
    requires s.sessions[sid].front.Some? && s.sessions[sid].back.None?
    ensures var x := s.sessions[sid]; var to := Destinations(x, x.front.value.id);
            && (id in to <==> exists tr: TrId :: GetChannel(x, tr).Some? && GetChannel(x, tr).value.id == id)
            && (forall i, j | 0 <= i < j < |to| :: to[i] != to[j])
  {
    TransactionsDistinct(steps);
    PlacesHoldDifferent(steps);
    var x := s.sessions[sid];
    var to := Destinations(x, x.front.value.id);
    BranchesServed(x, id);
    forall i, j | 0 <= i < j < |to|
      ensures to[i] != to[j]
    {
      assert ApartIn(x) && Holds(x, Branch(i), to[i]) && Holds(x, Branch(j), to[j]);
    }
  }
}
