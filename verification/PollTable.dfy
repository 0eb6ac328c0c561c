/**
  The table that the relay thread hands to poll(2), and what sessions put in it and read from it.
  */
module PollTable {
  import opened Collections

  type ChannelId = nat
  type TrId = nat

  /** A place in the table, or -1. */
  type Index = i: int | -1 <= i witness -1

  /** One slot.  `owner`, `comp` and `round` record who filled it and when; the program does not store them. */
  datatype Entry = Entry(fd: int, revents: int, owner: ChannelId, comp: nat, round: nat)

  /** The slots filled since the last reset, and how many slots are allocated.  Those beyond the filled ones hold what
      an earlier round, or nobody, left there. */
  datatype Table = Table(entries: seq<Entry>, size: nat) {
    predicate Valid() { |entries| <= size && 0 < size }
  }

  /** Reading a slot throws, finds an entry of this round, or finds what happens to be there. */
  datatype Lookup = BadAccess | Stale | Found(entry: Entry)

  function Read(t: Table, index: nat): Lookup
  {
    if index >= t.size then BadAccess else if index >= |t.entries| then Stale else Found(t.entries[index])
  }

  function Reset(t: Table): Table
  {
    t.(entries := [])
  }

  function Add(t: Table, e: Entry): (r: Table)
    requires t.Valid()
    ensures r.Valid()
  {
    Table(t.entries + [e], if |t.entries| == t.size then 2 * t.size else t.size)
  }

  /** A relay channel, as far as polling goes: its two sockets, the first -1 if there is none, and its place. */
  datatype Channel = Channel(id: ChannelId, rtp: int, rtcp: int, index: Index) {
    function Socket(i: nat): int { if i == 0 then rtp else rtcp }
  }

  datatype Session = Session(used: bool, front: Option<Channel>, backs: seq<(TrId, Channel)>, back: Option<Channel>)

  function FillChannel(t: Table, c: Channel, round: nat): (r: (Table, Channel))
    requires t.Valid()
    ensures r.0.Valid()
  {
    if c.rtp == -1 then (t, c.(index := -1))
    else (Add(Add(t, Entry(c.rtp, 0, c.id, 0, round)), Entry(c.rtcp, 0, c.id, 1, round)), c.(index := |t.entries|))
  }

  function FillOption(t: Table, c: Option<Channel>, round: nat): (r: (Table, Option<Channel>))
    requires t.Valid()
    ensures r.0.Valid()
  {
    if c.None? then (t, None) else var (u, d) := FillChannel(t, c.value, round); (u, Some(d))
  }

  function FillBacks(t: Table, bs: seq<(TrId, Channel)>, round: nat): (r: (Table, seq<(TrId, Channel)>))
    requires t.Valid()
    ensures r.0.Valid()
  {
    if bs == [] then (t, [])
    else
      var (u, cs) := FillBacks(t, bs[..|bs| - 1], round);
      var last := bs[|bs| - 1];
      var (v, c) := FillChannel(u, last.1, round);
      (v, cs + [(last.0, c)])
  }

  function Fill(t: Table, s: Session, round: nat): (r: (Table, Session))
    requires t.Valid()
    ensures r.0.Valid()
  {
    var (u, front) := FillOption(t, s.front, round);
    if s.back.Some? then var (v, back) := FillOption(u, s.back, round); (v, s.(front := front, back := back))
    else var (v, backs) := FillBacks(u, s.backs, round); (v, s.(front := front, backs := backs))
  }

  /** The channels that are polled and read: the caller's, and the winner's or else those of all branches. */
  function Watched(s: Session): set<Channel>
  {
    (if s.front.Some? then {s.front.value} else {}) +
    (if s.back.Some? then {s.back.value} else set b | b in s.backs :: b.1)
  }

  // ----- Branches -----

  function Find(bs: seq<(TrId, Channel)>, tr: TrId): (k: nat)
    ensures k <= |bs| && (forall j | 0 <= j < k :: bs[j].0 != tr) && (k < |bs| ==> bs[k].0 == tr)
  {
    if bs == [] then 0 else if bs[0].0 == tr then 0 else 1 + Find(bs[1..], tr)
  }

  /** The channel of a party other than the caller. */
  function GetChannel(s: Session, tr: TrId): Option<Channel>
  {
    if s.back.Some? then s.back
    else if Find(s.backs, tr) < |s.backs| then Some(s.backs[Find(s.backs, tr)].1)
    else None
  }

  /** A branch takes its place in the map, unless the transaction has one already. */
  function WithBranch(s: Session, tr: TrId, at: nat, c: Channel): Session
  {
    if Find(s.backs, tr) < |s.backs| || at > |s.backs| then s
    else s.(backs := s.backs[..at] + [(tr, c)] + s.backs[at..])
  }

  function WithoutBranch(s: Session, tr: TrId): Session
  {
    var k := Find(s.backs, tr);
    if k < |s.backs| then s.(backs := s.backs[..k] + s.backs[k + 1..]) else s
  }

  function Established(s: Session, tr: TrId): Session
  {
    if s.back.None? && GetChannel(s, tr).Some? then s.(back := GetChannel(s, tr), backs := []) else s
  }

  const UNUSED := Session(false, None, [], None)

  /** Who a packet read from the channel goes to, in order. */
  function Destinations(s: Session, from: ChannelId): seq<ChannelId>
  {
    if s.front.None? then []
    else if from != s.front.value.id then [s.front.value.id]
    else if s.back.Some? then [s.back.value.id]
    else seq(|s.backs|, k requires 0 <= k < |s.backs| => s.backs[k].1.id)
  }

  // ----- The branches as a map -----

  /** No transaction has two branches. */
  ghost predicate Distinct(bs: seq<(TrId, Channel)>)
  {
    forall i, j | 0 <= i < j < |bs| :: bs[i].0 != bs[j].0
  }

  lemma GetByPlace(s: Session, k: nat)
    requires s.back.None? && Distinct(s.backs) && k < |s.backs|
    ensures GetChannel(s, s.backs[k].0) == Some(s.backs[k].1)
  {
    assert Find(s.backs, s.backs[k].0) == k;
  }

  lemma GetNothing(s: Session, tr: TrId)
    requires s.back.None? && forall k | 0 <= k < |s.backs| :: s.backs[k].0 != tr
    ensures GetChannel(s, tr).None?
  {}

  lemma InsertedAt<T>(s: seq<T>, at: nat, x: T, k: nat)
    requires at <= |s| && k <= |s|
    ensures (s[..at] + [x] + s[at..])[k] == if k < at then s[k] else if k == at then x else s[k - 1]
  {}

  lemma ErasedAt<T>(s: seq<T>, at: nat, k: nat)
    requires at < |s| && k < |s| - 1
    ensures (s[..at] + s[at + 1..])[k] == if k < at then s[k] else s[k + 1]
  {}

  lemma InsertedDistinct(bs: seq<(TrId, Channel)>, tr: TrId, at: nat, c: Channel)
    requires Distinct(bs) && at <= |bs| && Find(bs, tr) == |bs|
    ensures Distinct(bs[..at] + [(tr, c)] + bs[at..])
  {
    var cs := bs[..at] + [(tr, c)] + bs[at..];
    forall i, j | 0 <= i < j < |cs|
      ensures cs[i].0 != cs[j].0
    {
      InsertedAt(bs, at, (tr, c), i);
      InsertedAt(bs, at, (tr, c), j);
    }
  }

  lemma ErasedDistinct(bs: seq<(TrId, Channel)>, at: nat)
    requires Distinct(bs) && at < |bs|
    ensures Distinct(bs[..at] + bs[at + 1..])
  {
    var cs := bs[..at] + bs[at + 1..];
    forall i, j | 0 <= i < j < |cs|
      ensures cs[i].0 != cs[j].0
    {
      ErasedAt(bs, at, i);
      ErasedAt(bs, at, j);
    }
  }

  /** A new branch is found under its transaction, unless that had one; every other transaction finds what it found. */
  lemma BranchAdded(s: Session, tr: TrId, at: nat, c: Channel, other: TrId)
    requires s.back.None? && Distinct(s.backs) && at <= |s.backs|
    ensures GetChannel(WithBranch(s, tr, at, c), other) ==
            if other == tr && GetChannel(s, tr).None? then Some(c) else GetChannel(s, other)
  {
    var r, k := WithBranch(s, tr, at, c), Find(s.backs, other);
    if Find(s.backs, tr) == |s.backs| {
      InsertedDistinct(s.backs, tr, at, c);
      if other == tr || k < |s.backs| {
        var m := if other == tr then at else if k < at then k else k + 1;
        InsertedAt(s.backs, at, (tr, c), m);
        GetByPlace(r, m);
      } else {
        forall m | 0 <= m < |r.backs|
          ensures r.backs[m].0 != other
        {
          InsertedAt(s.backs, at, (tr, c), m);
        }
        GetNothing(r, other);
      }
    }
  }

  /** A removed branch is not found any more; every other transaction finds what it found. */
  lemma BranchRemoved(s: Session, tr: TrId, other: TrId)
    requires s.back.None? && Distinct(s.backs)
    ensures GetChannel(WithoutBranch(s, tr), other) == if other == tr then None else GetChannel(s, other)
  {
    var r, at, k := WithoutBranch(s, tr), Find(s.backs, tr), Find(s.backs, other);
    if at < |s.backs| {
      ErasedDistinct(s.backs, at);
      if other != tr && k < |s.backs| {
        var m := if k < at then k else k - 1;
        ErasedAt(s.backs, at, m);
        GetByPlace(r, m);
      } else {
        forall m | 0 <= m < |r.backs|
          ensures r.backs[m].0 != other
        {
          ErasedAt(s.backs, at, m);
        }
        GetNothing(r, other);
      }
    }
  }

  /** While there is no winner, a packet of the caller goes to the branch of every transaction, once for each, and to
      nobody else; a packet of a branch goes to the caller alone. */
  lemma BranchesServed(s: Session, id: ChannelId)
    requires s.front.Some? && s.back.None? && Distinct(s.backs)
    ensures var to := Destinations(s, s.front.value.id);
            && (id in to <==> exists tr: TrId :: GetChannel(s, tr).Some? && GetChannel(s, tr).value.id == id)
            && |to| == |s.backs|
    ensures id != s.front.value.id ==> Destinations(s, id) == [s.front.value.id]
  {
    var to := Destinations(s, s.front.value.id);
    if id in to {
      var k :| 0 <= k < |to| && to[k] == id;
      GetByPlace(s, k);
      assert GetChannel(s, s.backs[k].0).Some?;
    }
    if tr: TrId :| GetChannel(s, tr).Some? && GetChannel(s, tr).value.id == id {
      assert to[Find(s.backs, tr)] == id;
    }
  }

  // ----- What filling establishes -----

  /** The channel is not in the table, or the two slots from its index on were filled this round for its sockets. */
  ghost predicate Good(t: Table, round: nat, c: Channel)
  {
    c.index == -1 ||
    (0 <= c.index && Owns(t, round, c, 0) && Owns(t, round, c, 1))
  }

  ghost predicate Owns(t: Table, round: nat, c: Channel, i: nat)
    requires 0 <= c.index
  {
    var l := Read(t, c.index + i);
    l.Found? && l.entry.(revents := 0) == Entry(c.Socket(i), 0, c.id, i, round)
  }

  ghost predicate AllGood(t: Table, round: nat, cs: set<Channel>)
  {
    forall c | c in cs :: Good(t, round, c)
  }

  /** More slots have been filled. */
  ghost predicate Extends(t: Table, u: Table)
  {
    t.entries <= u.entries && t.size <= u.size
  }

  lemma GoodStays(t: Table, u: Table, round: nat, c: Channel)
    requires t.Valid() && Good(t, round, c) && Extends(t, u)
    ensures Good(u, round, c)
  {}

  /** The channel has its two slots if it has sockets, and no place otherwise. */
  ghost predicate Seated(t: Table, round: nat, c: Channel)
  {
    (c.index == -1 <==> c.rtp == -1) && Good(t, round, c)
  }

  lemma FillChannelSeats(t: Table, c: Channel, round: nat)
    requires t.Valid()
    ensures var (u, d) := FillChannel(t, c, round); Extends(t, u) && Seated(u, round, d) && d.(index := c.index) == c
  {}

  lemma {:induction false} FillBacksSeats(t: Table, bs: seq<(TrId, Channel)>, round: nat)
    requires t.Valid()
    ensures var (u, cs) := FillBacks(t, bs, round);
            && Extends(t, u) && |cs| == |bs|
            && (forall k | 0 <= k < |cs| :: Seated(u, round, cs[k].1))
            && (forall k | 0 <= k < |cs| :: cs[k].0 == bs[k].0 && cs[k].1.(index := bs[k].1.index) == bs[k].1)
  {
    if bs != [] {
      var (u, cs) := FillBacks(t, bs[..|bs| - 1], round);
      FillBacksSeats(t, bs[..|bs| - 1], round);
      var (v, c) := FillChannel(u, bs[|bs| - 1].1, round);
      FillChannelSeats(u, bs[|bs| - 1].1, round);
      forall k | 0 <= k < |cs|
        ensures Seated(v, round, cs[k].1)
      {
        GoodStays(u, v, round, cs[k].1);
      }
    }
  }

  /** Where a session holds a channel. */
  datatype Place = Front | Back | Branch(k: nat)

  function At(s: Session, p: Place): Option<Channel>
  {
    match p
    case Front => s.front
    case Back => s.back
    case Branch(k) => if k < |s.backs| then Some(s.backs[k].1) else None
  }

  /** The branches are not watched once there is a winner. */
  predicate WatchedPlace(s: Session, p: Place)
  {
    At(s, p).Some? && (p.Branch? ==> s.back.None?)
  }

  lemma WatchedAt(s: Session, c: Channel)
    ensures c in Watched(s) <==> exists p :: WatchedPlace(s, p) && At(s, p).value == c
  {
    if c in Watched(s) {
      if s.front == Some(c) {
        assert WatchedPlace(s, Front);
      } else if s.back == Some(c) {
        assert WatchedPlace(s, Back);
      } else {
        var k :| 0 <= k < |s.backs| && s.backs[k].1 == c;
        assert WatchedPlace(s, Branch(k));
      }
    }
    if p :| WatchedPlace(s, p) && At(s, p).value == c {
      assert p.Branch? ==> s.backs[p.k] in s.backs;
    }
  }

  lemma FillPlace(t: Table, s: Session, round: nat, p: Place)
    requires t.Valid()
    ensures var (u, r) := Fill(t, s, round);
            && Extends(t, u) && (WatchedPlace(r, p) <==> WatchedPlace(s, p))
            && (WatchedPlace(s, p) ==>
                  Seated(u, round, At(r, p).value) && At(r, p).value.(index := At(s, p).value.index) == At(s, p).value)
  {
    var (u, front) := FillOption(t, s.front, round);
    if s.front.Some? {
      FillChannelSeats(t, s.front.value, round);
    }
    var (v, r) := Fill(t, s, round);
    if s.back.Some? {
      FillChannelSeats(u, s.back.value, round);
    } else {
      FillBacksSeats(u, s.backs, round);
    }
    if s.front.Some? {
      GoodStays(u, v, round, front.value);
    }
  }

  /** Filling keeps every channel where it is.  If the channel is watched and has sockets, its two slots are there, one
      after the other, the first for RTP and the second for RTCP; without sockets it has no place. */
  lemma FillSeats(t: Table, s: Session, round: nat, p: Place)
    requires t.Valid() && WatchedPlace(s, p)
    ensures var (u, r) := Fill(t, s, round); var c := At(s, p).value;
            && At(r, p).Some? && At(r, p).value.(index := c.index) == c
            && var k := At(r, p).value.index;
            if c.rtp == -1 then k == -1
            else 0 <= k < k + 1 < |u.entries| && u.entries[k].fd == c.rtp && u.entries[k + 1].fd == c.rtcp
  {
    FillPlace(t, s, round, p);
    var (u, r) := Fill(t, s, round);
    var d := At(r, p).value;
    if d.index != -1 {
      assert Owns(u, round, d, 0) && Owns(u, round, d, 1);
    }
  }

  lemma FillGood(t: Table, s: Session, round: nat)
    requires t.Valid()
    ensures var (u, r) := Fill(t, s, round);
            Extends(t, u) && AllGood(u, round, Watched(r)) && forall c | c in Watched(r) :: Seated(u, round, c)
  {
    var (u, r) := Fill(t, s, round);
    FillPlace(t, s, round, Front);
    forall c | c in Watched(r)
      ensures Seated(u, round, c)
    {
      WatchedAt(r, c);
      var p :| WatchedPlace(r, p) && At(r, p).value == c;
      FillPlace(t, s, round, p);
    }
  }

  /** Two channels of different identity never share a slot. */
  lemma SlotsDisjoint(t: Table, round: nat, c: Channel, d: Channel)
    requires Good(t, round, c) && Good(t, round, d) && c.index != -1 && d.index != -1 && c.id != d.id
    ensures c.index + 2 <= d.index || d.index + 2 <= c.index
  {}

  // ----- Reading the result of poll -----

  /** poll reported something for the slot of the component. */
  predicate Ready(t: Table, c: Channel, i: nat)
  {
    0 <= c.index && var l := Read(t, c.index + i); l.Found? && l.entry.revents != 0
  }

  /** The channels looked up for a component, in order. */
  function Turn(s: Session, i: nat): seq<(Channel, nat)>
  {
    (if s.front.Some? then [(s.front.value, i)] else []) +
    (if s.back.Some? then [(s.back.value, i)] else BackTurns(s.backs, i))
  }

  function BackTurns(bs: seq<(TrId, Channel)>, i: nat): (r: seq<(Channel, nat)>)
    ensures |r| == |bs| && forall k | 0 <= k < |bs| :: r[k] == (bs[k].1, i)
  {
    seq(|bs|, k requires 0 <= k < |bs| => (bs[k].1, i))
  }

  /** All lookups of checkPollFd, in order. */
  function Lookups(s: Session): seq<(Channel, nat)>
  {
    Turn(s, 0) + Turn(s, 1)
  }

  lemma LookupsAre(s: Session, c: Channel, i: nat)
    ensures (c, i) in Lookups(s) <==> c in Watched(s) && i < 2
  {
    TurnIs(s, 0, c, i);
    TurnIs(s, 1, c, i);
  }

  lemma TurnIs(s: Session, j: nat, c: Channel, i: nat)
    ensures (c, i) in Turn(s, j) <==> c in Watched(s) && i == j
  {
    if s.back.None? && i == j {
      var turns := BackTurns(s.backs, j);
      if b :| b in s.backs && b.1 == c {
        var k :| 0 <= k < |s.backs| && s.backs[k] == b;
        assert turns[k] == (c, i);
      }
      if (c, i) in turns {
        var k :| 0 <= k < |turns| && turns[k] == (c, i);
        assert s.backs[k] in s.backs;
      }
    }
  }

  function Reads(t: Table, cs: seq<(Channel, nat)>): seq<(ChannelId, nat)>
  {
    if cs == [] then []
    else
      var (c, i) := cs[|cs| - 1];
      Reads(t, cs[..|cs| - 1]) + if Ready(t, c, i) then [(c.id, i)] else []
  }

  /** The channels and components that a packet is read from, in order. */
  function Transfers(t: Table, s: Session): seq<(ChannelId, nat)>
  {
    Reads(t, Lookups(s))
  }

  /** The channel is read from for `x`. */
  predicate ReadFor(t: Table, c: Channel, x: (ChannelId, nat))
  {
    c.id == x.0 && Ready(t, c, x.1)
  }

  lemma {:induction false} ReadsAre(t: Table, cs: seq<(Channel, nat)>, x: (ChannelId, nat))
    ensures x in Reads(t, cs) <==> exists c :: (c, x.1) in cs && ReadFor(t, c, x)
  {
    if cs != [] {
      var (last, i) := cs[|cs| - 1];
      ReadsAre(t, cs[..|cs| - 1], x);
      assert cs == cs[..|cs| - 1] + [(last, i)];
    }
  }

  /** A packet is read exactly from the watched sockets that poll reported. */
  lemma TransfersExactly(t: Table, s: Session, x: (ChannelId, nat))
    ensures x in Transfers(t, s) <==> x.1 < 2 && exists c :: c in Watched(s) && ReadFor(t, c, x)
  {
    ReadsAre(t, Lookups(s), x);
    forall c
      ensures (c, x.1) in Lookups(s) <==> c in Watched(s) && x.1 < 2
    {
      LookupsAre(s, c, x.1);
    }
  }

  // ----- Reading whatever is there -----

  /** checkPollFd of a channel on the memory of the table: whether the slot has events, or the exception. */
  function Raw(memory: seq<Entry>, c: Channel, i: nat): Option<bool>
  {
    if c.index == -1 then Some(false)
    else if c.index + i >= |memory| then None
    else Some(memory[c.index + i].revents != 0)
  }

  /** The reads that lookups lead to, up to the first exception, and whether there is one. */
  function Scan(memory: seq<Entry>, cs: seq<(Channel, nat)>): (seq<(ChannelId, nat)>, bool)
  {
    if cs == [] then ([], false)
    else
      var (read, threw) := Scan(memory, cs[..|cs| - 1]);
      var (c, i) := cs[|cs| - 1];
      if threw then (read, true)
      else
        match Raw(memory, c, i)
        case None => (read, true)
        case Some(ready) => (if ready then read + [(c.id, i)] else read, false)
  }

  /** When all channels are well placed, nothing is thrown and what is read is what poll reported. */
  lemma {:induction false} ScanGood(t: Table, round: nat, memory: seq<Entry>, cs: seq<(Channel, nat)>)
    requires |memory| == t.size && t.entries <= memory
    requires forall x | x in cs :: Good(t, round, x.0) && x.1 < 2
    ensures Scan(memory, cs) == (Reads(t, cs), false)
  {
    if cs != [] {
      var n := |cs| - 1;
      assert cs[n] in cs;
      ScanGood(t, round, memory, cs[..n]);
      RawGood(t, round, memory, cs[n].0, cs[n].1);
      assert Reads(t, cs[..n]) + [] == Reads(t, cs[..n]);
    }
  }

  lemma RawGood(t: Table, round: nat, memory: seq<Entry>, c: Channel, i: nat)
    requires |memory| == t.size && t.entries <= memory && Good(t, round, c) && i < 2
    ensures Raw(memory, c, i) == Some(Ready(t, c, i))
  {
    if c.index != -1 {
      assert Owns(t, round, c, i);
    }
  }

  lemma {:induction false} ScanThrew(memory: seq<Entry>, a: seq<(Channel, nat)>, b: seq<(Channel, nat)>)
    requires Scan(memory, a).1
    ensures Scan(memory, a + b) == Scan(memory, a)
    decreases |b|
  {
    if b == [] {
      assert a + b == a;
    } else {
      assert (a + b)[..|a + b| - 1] == a + b[..|b| - 1];
      ScanThrew(memory, a, b[..|b| - 1]);
    }
  }

  lemma ScanNext(memory: seq<Entry>, cs: seq<(Channel, nat)>, c: Channel, i: nat)
    requires !Scan(memory, cs).1
    ensures Scan(memory, cs + [(c, i)]) ==
            match Raw(memory, c, i)
            case None => (Scan(memory, cs).0, true)
            case Some(ready) => (if ready then Scan(memory, cs).0 + [(c.id, i)] else Scan(memory, cs).0, false)
  {
    assert (cs + [(c, i)])[..|cs|] == cs;
  }

  // ----- The table, in place -----

  class PollFd {
    var mPfd: array<Entry>
    var mCurIndex: nat
    var mCurSize: nat

    ghost predicate Valid()
      reads this
    {
      0 < mCurSize == mPfd.Length && mCurIndex <= mCurSize
    }

    ghost function Value(): (t: Table)
      requires Valid()
      reads this, mPfd
      ensures t.Valid()
    {
      Table(mPfd[..mCurIndex], mCurSize)
    }

    constructor (size: nat)
      requires size > 0
      ensures Valid() && fresh(mPfd) && Value() == Table([], size)
    {
      mPfd := new Entry[size](_ => Entry(0, 0, 0, 0, 0));
      mCurIndex, mCurSize := 0, size;
    }

    method ResetIndex()
      requires Valid()
      modifies this
      ensures Valid() && mPfd == old(mPfd) && Value() == Reset(old(Value()))
    {
      mCurIndex := 0;
    }

    method AddFd(fd: int, owner: ChannelId, comp: nat, round: nat) returns (index: nat)
      requires Valid()
      modifies this, mPfd
      ensures Valid() && (mPfd == old(mPfd) || fresh(mPfd))
      ensures index == |old(Value()).entries| && Value() == Add(old(Value()), Entry(fd, 0, owner, comp, round))
      ensures mCurSize == if old(mCurIndex) == old(mCurSize) then 2 * old(mCurSize) else old(mCurSize)
    {
      if mCurIndex == mCurSize {
        var larger := new Entry[2 * mCurSize](_ => Entry(0, 0, 0, 0, 0));
        forall k | 0 <= k < mCurIndex {
          larger[k] := mPfd[k];
        }
        mPfd, mCurSize := larger, 2 * mCurSize;
        assert mPfd[..mCurIndex] == old(mPfd[..mCurIndex]);
      }
      mPfd[mCurIndex] := Entry(fd, 0, owner, comp, round);
      index := mCurIndex;
      mCurIndex := mCurIndex + 1;
    }

    method GetREvents(index: nat) returns (r: Option<int>)
      requires Valid()
      ensures r == if index < mPfd.Length then Some(mPfd[index].revents) else None
      ensures r.None? <==> Read(Value(), index).BadAccess?
      ensures Read(Value(), index).Found? ==> r == Some(Read(Value(), index).entry.revents)
    {
      if index >= mCurSize {
        return None;
      }
      return Some(mPfd[index].revents);
    }
  }

  lemma Advance<T>(done: seq<T>, more: seq<T>, k: nat)
    requires k < |more|
    ensures done + more[..k] + [more[k]] == done + more[..k + 1] && done + more[..k + 1] + more[k + 1..] == done + more
  {}

  // ----- A session, in place -----

  class RelaySession {
    var mUsed: bool
    var mFront: Option<Channel>
    var mBacks: seq<(TrId, Channel)>
    var mBack: Option<Channel>

    ghost function Value(): Session
      reads this
    {
      Session(mUsed, mFront, mBacks, mBack)
    }

    static method FillChannelIn(pfd: PollFd, chan: Channel, round: nat) returns (c: Channel)
      requires pfd.Valid()
      modifies pfd, pfd.mPfd
      ensures pfd.Valid() && (pfd.mPfd == old(pfd.mPfd) || fresh(pfd.mPfd))
      ensures (pfd.Value(), c) == FillChannel(old(pfd.Value()), chan, round)
    {
      c := chan.(index := -1);
      if chan.rtp == -1 {
        return;
      }
      for i := 0 to 2
        invariant pfd.Valid() && (pfd.mPfd == old(pfd.mPfd) || fresh(pfd.mPfd))
        invariant i == 0 ==> pfd.Value() == old(pfd.Value()) && c == chan.(index := -1)
        invariant i == 1 ==> pfd.Value() == Add(old(pfd.Value()), Entry(chan.rtp, 0, chan.id, 0, round))
        invariant i > 0 ==> c == chan.(index := |old(pfd.Value()).entries|)
        invariant i == 2 ==> pfd.Value() == FillChannel(old(pfd.Value()), chan, round).0
      {
        var index := pfd.AddFd(chan.Socket(i), chan.id, i, round);
        if c.index == -1 {
          c := c.(index := index);
        }
      }
    }

    method FillPollFd(pfd: PollFd, round: nat)
      requires pfd.Valid()
      modifies this, pfd, pfd.mPfd
      ensures pfd.Valid() && (pfd.mPfd == old(pfd.mPfd) || fresh(pfd.mPfd))
      ensures (pfd.Value(), Value()) == Fill(old(pfd.Value()), old(Value()), round)
    {
      if mFront.Some? {
        var c := FillChannelIn(pfd, mFront.value, round);
        mFront := Some(c);
      }
      if mBack.Some? {
        var c := FillChannelIn(pfd, mBack.value, round);
        mBack := Some(c);
      } else {
        FillAll(pfd, round);
      }
    }

    method FillAll(pfd: PollFd, round: nat)
      requires pfd.Valid()
      modifies this`mBacks, pfd, pfd.mPfd
      ensures pfd.Valid() && (pfd.mPfd == old(pfd.mPfd) || fresh(pfd.mPfd))
      ensures (pfd.Value(), mBacks) == FillBacks(old(pfd.Value()), old(mBacks), round)
    {
      ghost var t, bs := pfd.Value(), mBacks;
      for k := 0 to |mBacks|
        invariant pfd.Valid() && (pfd.mPfd == old(pfd.mPfd) || fresh(pfd.mPfd)) && |mBacks| == |bs|
        invariant mBacks[k..] == bs[k..] && (pfd.Value(), mBacks[..k]) == FillBacks(t, bs[..k], round)
      {
        var c := FillChannelIn(pfd, mBacks[k].1, round);
        assert bs[..k + 1][..k] == bs[..k] && mBacks[k] == bs[k..][0];
        ghost var done := mBacks[..k];
        mBacks := mBacks[k := (mBacks[k].0, c)];
        assert mBacks[..k + 1] == done + [(bs[k].0, c)];
      }
      assert bs[..|bs|] == bs && mBacks[..|bs|] == mBacks;
    }

    static method CheckChannel(pfd: PollFd, chan: Channel, i: nat) returns (ready: Option<bool>)
      requires pfd.Valid()
      ensures ready == Raw(pfd.mPfd[..], chan, i)
    {
      if chan.index != -1 {
        var r := pfd.GetREvents(chan.index + i);
        return if r.None? then None else Some(r.value != 0);
      }
      return Some(false);
    }

    /** One lookup and, if the slot has events, the read. */
    static method CheckNext(pfd: PollFd, chan: Channel, i: nat, read: seq<(ChannelId, nat)>,
                            ghost done: seq<(Channel, nat)>)
      returns (all: seq<(ChannelId, nat)>, threw: bool)
      requires pfd.Valid() && Scan(pfd.mPfd[..], done) == (read, false)
      ensures (all, threw) == Scan(pfd.mPfd[..], done + [(chan, i)])
    {
      var ready := CheckChannel(pfd, chan, i);
      ScanNext(pfd.mPfd[..], done, chan, i);
      all, threw := if ready == Some(true) then read + [(chan.id, i)] else read, ready.None?;
    }

    method CheckBacks(pfd: PollFd, i: nat, read: seq<(ChannelId, nat)>, ghost done: seq<(Channel, nat)>)
      returns (all: seq<(ChannelId, nat)>, threw: bool)
      requires pfd.Valid() && Scan(pfd.mPfd[..], done) == (read, false)
      ensures (all, threw) == Scan(pfd.mPfd[..], done + BackTurns(mBacks, i))
    {
      all, threw := read, false;
      ghost var turns := BackTurns(mBacks, i);
      assert done + turns[..0] == done;
      for k := 0 to |mBacks|
        invariant !threw && (all, threw) == Scan(pfd.mPfd[..], done + turns[..k])
      {
        all, threw := CheckNext(pfd, mBacks[k].1, i, all, done + turns[..k]);
        Advance(done, turns, k);
        if threw {
          ScanThrew(pfd.mPfd[..], done + turns[..k + 1], turns[k + 1..]);
          return;
        }
      }
      assert turns[..|mBacks|] == turns;
    }

    /** The lookups of one component. */
    method CheckTurn(pfd: PollFd, i: nat, read: seq<(ChannelId, nat)>, ghost done: seq<(Channel, nat)>)
      returns (all: seq<(ChannelId, nat)>, threw: bool)
      requires pfd.Valid() && Scan(pfd.mPfd[..], done) == (read, false)
      ensures (all, threw) == Scan(pfd.mPfd[..], done + Turn(Value(), i))
    {
      all, threw := read, false;
      ghost var now, rest := done, if mBack.Some? then [(mBack.value, i)] else BackTurns(mBacks, i);
      if mFront.Some? {
        all, threw := CheckNext(pfd, mFront.value, i, all, now);
        now := now + [(mFront.value, i)];
      }
      assert now + rest == done + Turn(Value(), i);
      if threw {
        ScanThrew(pfd.mPfd[..], now, rest);
      } else if mBack.None? {
        all, threw := CheckBacks(pfd, i, all, now);
      } else {
        all, threw := CheckNext(pfd, mBack.value, i, all, now);
      }
    }

    /** The packets read, and whether a lookup outside the table threw. */
    method CheckPollFd(pfd: PollFd) returns (read: seq<(ChannelId, nat)>, threw: bool)
      requires pfd.Valid()
      ensures (read, threw) == Scan(pfd.mPfd[..], Lookups(Value()))
    {
      ghost var first, second := Turn(Value(), 0), Turn(Value(), 1);
      read, threw := CheckTurn(pfd, 0, [], []);
      assert [] + first == first;
      if threw {
        ScanThrew(pfd.mPfd[..], first, second);
      } else {
        read, threw := CheckTurn(pfd, 1, read, first);
      }
    }

    method FindBranch(tr: TrId) returns (k: nat)
      ensures k == Find(mBacks, tr)
    {
      k := 0;
      while k < |mBacks| && mBacks[k].0 != tr
        invariant k <= |mBacks| && Find(mBacks, tr) == k + Find(mBacks[k..], tr)
      {
        assert mBacks[k..][1..] == mBacks[k + 1..];
        k := k + 1;
      }
    }

    method GetBackChannel(tr: TrId) returns (c: Option<Channel>)
      ensures c == GetChannel(Value(), tr)
    {
      if mBack.Some? {
        return mBack;
      }
      var k := FindBranch(tr);
      return if k < |mBacks| then Some(mBacks[k].1) else None;
    }

    /** `at` is where the order of the map puts the transaction. */
    method CreateBranch(tr: TrId, at: nat, c: Channel)
      requires at <= |mBacks|
      modifies this
      ensures Value() == WithBranch(old(Value()), tr, at, c)
    {
      var k := FindBranch(tr);
      if k == |mBacks| {
        mBacks := mBacks[..at] + [(tr, c)] + mBacks[at..];
      }
    }

    method RemoveBranch(tr: TrId)
      modifies this
      ensures Value() == WithoutBranch(old(Value()), tr)
    {
      var k := FindBranch(tr);
      if k < |mBacks| {
        mBacks := mBacks[..k] + mBacks[k + 1..];
      }
    }

    method SetEstablished(tr: TrId)
      modifies this
      ensures Value() == Established(old(Value()), tr)
    {
      if mBack.Some? {
        return;
      }
      var winner := GetBackChannel(tr);
      if winner.Some? {
        mBack := winner;
        mBacks := [];
      }
    }

    method Unuse()
      modifies this
      ensures Value() == UNUSED
    {
      mUsed, mFront, mBacks, mBack := false, None, [], None;
    }

    /** The channels that a packet read from `from` is sent to, in order. */
    method Transfer(from: ChannelId) returns (to: seq<ChannelId>)
      requires mFront.Some?
      ensures to == Destinations(Value(), from)
    {
      if from != mFront.value.id {
        return [mFront.value.id];
      }
      if mBack.Some? {
        return [mBack.value.id];
      }
      to := [];
      for k := 0 to |mBacks|
        invariant |to| == k && forall j | 0 <= j < k :: to[j] == mBacks[j].1.id
      {
        to := to + [mBacks[k].1.id];
      }
    }
  }
}
