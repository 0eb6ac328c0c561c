/**
  A media relay channel: where it sends, what it lets through, and how it learns the
  address of the other side from the packets it receives.
  */
module MediaChannel {
  import opened Collections

  type Address = string

  datatype Dir = SendOnly | SendRecv | Inactive

  const SWITCH_TIMEOUT := 5
  const MAX_RECV_ERRORS := 50

  /** The fields of one component, RTP or RTCP. */
  datatype Component = Component(port: int, addr: Option<Address>, lastUse: int, errors: nat)

  datatype Channel = Channel(comps: seq<Component>, dir: Dir, open: bool, learned: bool) {
    predicate Valid() { |comps| == 2 }
  }

  const FRESH := Channel([Component(-1, None, 0, 0), Component(-1, None, 0, 0)], SendRecv, false, false)

  /** The remote side of a media line as SDP gives it.  `looped` says that it is an address of this machine and
      loops are prevented; `resolved` are the addresses the two ports resolve to, if they do. */
  datatype Remote = Remote(rtpPort: int, rtcpPort: int, looped: bool, resolved: seq<Option<Address>>) {
    predicate Valid() { |resolved| == 2 }

    predicate Usable() { !(rtpPort > 0 && looped) && rtpPort != 0 }
  }

  // ----- Specification of the two operations -----

  function Resolve(c: Component, a: Option<Address>): Component
  {
    c.(errors := 0, addr := if a.Some? then a else c.addr)
  }

  function AfterRemote(c: Channel, r: Remote, dir: Dir): (d: Channel)
    requires c.Valid() && r.Valid()
    ensures d.Valid()
  {
    var ports := [c.comps[0].(port := r.rtpPort), c.comps[1].(port := r.rtcpPort)];
    if !r.Usable() then Channel([ports[0].(addr := None), ports[1].(addr := None)], dir, false, false)
    else if c.learned then Channel(ports, dir, true, true)
    else Channel([Resolve(ports[0], r.resolved[0]), Resolve(ports[1], r.resolved[1])], dir, true, false)
  }

  function AfterPacket(c: Channel, i: nat, source: Address, now: int): (d: Channel)
    requires c.Valid() && i < 2
    ensures d.Valid()
  {
    var x := c.comps[i].(errors := 0);
    if c.comps[i].addr == Some(source) then c.(comps := c.comps[i := x.(lastUse := now)])
    else if now - c.comps[i].lastUse > SWITCH_TIMEOUT then
      c.(comps := c.comps[i := x.(addr := Some(source), lastUse := now)], learned := true)
    else c.(comps := c.comps[i := x])
  }

  /** The packet is passed on, unless a filter drops it. */
  predicate Relays(c: Channel)
  {
    c.open && c.dir == SendRecv
  }

  /** Where a packet handed to the channel is sent, if it is; a filter may still drop it. */
  function Target(c: Channel, i: nat): Option<Address>
    requires c.Valid() && i < 2
  {
    if c.comps[i].port > 0 && c.dir != Inactive && c.comps[i].errors < MAX_RECV_ERRORS && c.open then c.comps[i].addr
    else None
  }

  // ----- The channel -----

  class RelayChannel {
    var mRemotePort: seq<int>
    var mSockAddr: seq<Option<Address>>
    var mSockAddrLastUseTime: seq<int>
    var mRecvErrorCount: seq<nat>
    var mDir: Dir
    var mIsOpen: bool
    var mDestAddrChanged: bool

    ghost predicate Valid()
      reads this
    {
      |mRemotePort| == |mSockAddr| == |mSockAddrLastUseTime| == |mRecvErrorCount| == 2
    }

    ghost function Fields(): (c: Channel)
      requires Valid()
      reads this
      ensures c.Valid()
    {
      Channel([Component(mRemotePort[0], mSockAddr[0], mSockAddrLastUseTime[0], mRecvErrorCount[0]),
               Component(mRemotePort[1], mSockAddr[1], mSockAddrLastUseTime[1], mRecvErrorCount[1])],
              mDir, mIsOpen, mDestAddrChanged)
    }

    constructor ()
      ensures Valid() && Fields() == FRESH
    {
      mRemotePort, mSockAddr, mSockAddrLastUseTime, mRecvErrorCount := [-1, -1], [None, None], [0, 0], [0, 0];
      mDir, mIsOpen, mDestAddrChanged := SendRecv, false, false;
    }

    method SetRemoteAddr(r: Remote, dir: Dir)
      requires Valid() && r.Valid()
      modifies this
      ensures Valid() && Fields() == AfterRemote(old(Fields()), r, dir)
    {
      var destOk := true;
      if r.rtpPort > 0 && r.looped {
        destOk := false;
      }
      mRemotePort, mDir := [r.rtpPort, r.rtcpPort], dir;
      if destOk && r.rtpPort != 0 {
        mIsOpen := true;
        if mDestAddrChanged {
          return;
        }
        for i := 0 to 2
          invariant Valid() && mIsOpen && !mDestAddrChanged && mDir == dir
          invariant mRemotePort == [r.rtpPort, r.rtcpPort] && mSockAddrLastUseTime == old(mSockAddrLastUseTime)
          invariant forall j | 0 <= j < 2 ::
                      && mRecvErrorCount[j] == (if j < i then 0 else old(mRecvErrorCount)[j])
                      && mSockAddr[j] == if j < i && r.resolved[j].Some? then r.resolved[j] else old(mSockAddr)[j]
        {
          mRecvErrorCount := mRecvErrorCount[i := 0];
          if r.resolved[i].Some? {
            mSockAddr := mSockAddr[i := r.resolved[i]];
          }
        }
      } else {
        mDestAddrChanged := false;
        mSockAddr := [None, None];
        mIsOpen := false;
      }
    }

    /** A packet from `source`; the result says whether it is handed on to the filter. */
    method Recv(i: nat, source: Address, curTime: int) returns (relayed: bool)
      requires Valid() && i < 2
      modifies this
      ensures Valid() && Fields() == AfterPacket(old(Fields()), i, source, curTime)
      ensures relayed == Relays(old(Fields()))
    {
      mRecvErrorCount := mRecvErrorCount[i := 0];
      if mSockAddr[i] != Some(source) {
        if curTime - mSockAddrLastUseTime[i] > SWITCH_TIMEOUT {
          mSockAddr := mSockAddr[i := Some(source)];
          mDestAddrChanged := true;
          mSockAddrLastUseTime := mSockAddrLastUseTime[i := curTime];
        }
      } else {
        mSockAddrLastUseTime := mSockAddrLastUseTime[i := curTime];
      }
      relayed := !(!mIsOpen || mDir == SendOnly || mDir == Inactive);
    }

    method Send(i: nat) returns (to: Option<Address>)
      requires Valid() && i < 2
      ensures to == Target(Fields(), i)
    {
      if mRemotePort[i] > 0 && mSockAddr[i].Some? && mDir != Inactive && mRecvErrorCount[i] < MAX_RECV_ERRORS &&
         mIsOpen {
        return mSockAddr[i];
      }
      return None;
    }
  }

  // ----- Histories -----

  datatype Event =
    | Packet(i: nat, source: Address, time: int)
    | Sdp(remote: Remote, dir: Dir)
    | SetDir(dir: Dir)
    | Refused(i: nat)

  predicate ValidEvent(e: Event)
  {
    match e
    case Packet(i, _, time) => i < 2 && time >= 0
    case Sdp(r, _) => r.Valid()
    case SetDir(_) => true
    case Refused(i) => i < 2
  }

  function After(c: Channel, e: Event): (d: Channel)
    requires c.Valid() && ValidEvent(e)
    ensures d.Valid()
  {
    match e
    case Packet(i, source, time) => AfterPacket(c, i, source, time)
    case Sdp(r, dir) => AfterRemote(c, r, dir)
    case SetDir(dir) => c.(dir := dir)
    case Refused(i) => c.(comps := c.comps[i := c.comps[i].(errors := c.comps[i].errors + 1)])
  }

  ghost predicate ValidEvents(h: seq<Event>)
  {
    forall k | 0 <= k < |h| :: ValidEvent(h[k])
  }

  /** Packets arrive in the order of a clock that does not go back. */
  ghost predicate Clocked(h: seq<Event>)
  {
    forall j, k | 0 <= j < k < |h| && h[j].Packet? && h[k].Packet? :: h[j].time <= h[k].time
  }

  ghost function Run(h: seq<Event>): (c: Channel)
    requires ValidEvents(h)
    ensures c.Valid()
  {
    if h == [] then FRESH else After(Run(h[..|h| - 1]), h[|h| - 1])
  }

  /** The packet at `j` came from the address that was the destination of its component, or became it. */
  ghost predicate Heard(h: seq<Event>, j: nat, i: nat)
    requires ValidEvents(h) && j < |h| && i < 2
  {
    h[j].Packet? && h[j].i == i && Run(h[..j + 1]).comps[i].addr == Some(h[j].source)
  }

  lemma RunPrefix(h: seq<Event>, e: Event)
    requires ValidEvents(h) && ValidEvent(e)
    ensures ValidEvents(h + [e]) && Run(h + [e]) == After(Run(h), e)
    ensures forall j: nat, i: nat | j < |h| && i < 2 :: Heard(h + [e], j, i) <==> Heard(h, j, i)
  {
    var all := h + [e];
    assert all[..|all| - 1] == h;
    forall j: nat, i: nat | j < |h| && i < 2
      ensures Heard(all, j, i) <==> Heard(h, j, i)
    {
      assert all[..j + 1] == h[..j + 1];
    }
  }

  /** Only a packet that is heard moves the last use time, to its own time. */
  lemma StepLastUse(c: Channel, e: Event, i: nat)
    requires c.Valid() && ValidEvent(e) && i < 2
    ensures After(c, e).comps[i].lastUse ==
            if e.Packet? && e.i == i && After(c, e).comps[i].addr == Some(e.source) then e.time else c.comps[i].lastUse
  {}

  /** The history without its last event. */
  lemma HistoryStep(h: seq<Event>)
    requires ValidEvents(h) && h != []
    ensures var before := h[..|h| - 1];
            && ValidEvents(before) && (Clocked(h) ==> Clocked(before))
            && Run(h[..|h|]) == Run(h) == After(Run(before), h[|h| - 1])
            && forall j: nat, i: nat | j < |before| && i < 2 :: Heard(h, j, i) <==> Heard(before, j, i)
  {
    var before, e := h[..|h| - 1], h[|h| - 1];
    assert h == before + [e] && h[..|h|] == h;
    RunPrefix(before, e);
  }

  /** The last use time of a component covers every packet heard. */
  lemma {:induction false} LastUseCovers(h: seq<Event>, i: nat)
    requires ValidEvents(h) && Clocked(h) && i < 2
    ensures forall j: nat | j < |h| && Heard(h, j, i) :: h[j].time <= Run(h).comps[i].lastUse
  {
    if h != [] {
      var before, e := h[..|h| - 1], h[|h| - 1];
      HistoryStep(h);
      LastUseCovers(before, i);
      StepLastUse(Run(before), e, i);
      forall j: nat | j < |h| && Heard(h, j, i)
        ensures h[j].time <= Run(h).comps[i].lastUse
      {
        if j < |before| {
          assert Heard(before, j, i) && before[j] == h[j];
        }
      }
    }
  }

  /** It is the time of one of them, or 0. */
  lemma {:induction false} LastUseIsHeard(h: seq<Event>, i: nat)
    requires ValidEvents(h) && i < 2
    ensures || Run(h).comps[i].lastUse == 0
            || exists j: nat | j < |h| :: Heard(h, j, i) && h[j].time == Run(h).comps[i].lastUse
  {
    if h != [] {
      var before, e := h[..|h| - 1], h[|h| - 1];
      HistoryStep(h);
      LastUseIsHeard(before, i);
      StepLastUse(Run(before), e, i);
      var last := Run(before).comps[i].lastUse;
      if Run(h).comps[i].lastUse != last {
        assert Heard(h, |h| - 1, i);
      } else if last != 0 {
        var j: nat :| j < |before| && Heard(before, j, i) && before[j].time == last;
        assert Heard(h, j, i) && h[j].time == last;
      }
    }
  }

  /** A packet replaces the destination of its component exactly when it comes from elsewhere, the clock shows more than
      five seconds, and every packet that was heard before is more than five seconds old. */
  lemma SwitchesExactly(h: seq<Event>, i: nat, source: Address, now: int)
    requires ValidEvents(h) && Clocked(h + [Packet(i, source, now)]) && i < 2
    ensures var old', new' := Run(h).comps[i].addr, AfterPacket(Run(h), i, source, now).comps[i].addr;
            && (new' != old' ==> new' == Some(source))
            && (new' != old' <==>
                  && old' != Some(source) && now > SWITCH_TIMEOUT
                  && forall j: nat | j < |h| && Heard(h, j, i) :: now - h[j].time > SWITCH_TIMEOUT)
  {
    assert Clocked(h) by {
      var all := h + [Packet(i, source, now)];
      assert forall k | 0 <= k < |h| :: all[k] == h[k];
    }
    LastUseCovers(h, i);
    LastUseIsHeard(h, i);
    LastUseFrom(h, i);
  }

  lemma {:induction false} LastUseFrom(h: seq<Event>, i: nat)
    requires ValidEvents(h) && i < 2
    ensures Run(h).comps[i].lastUse >= 0
  {
    if h != [] {
      HistoryStep(h);
      LastUseFrom(h[..|h| - 1], i);
      StepLastUse(Run(h[..|h| - 1]), h[|h| - 1], i);
    }
  }

  /** The packet came from the address that is now the destination of the component. */
  ghost predicate FromDestination(h: seq<Event>, i: nat, j: nat)
    requires ValidEvents(h) && i < 2 && j < |h|
  {
    h[j].Packet? && h[j].i == i && Run(h).comps[i].addr == Some(h[j].source)
  }

  /** A packet from the destination that the component has now, whenever it came, is no older than the timeout. */
  ghost predicate Recent(h: seq<Event>, i: nat, now: int)
    requires ValidEvents(h) && i < 2
  {
    exists j: nat | j < |h| :: FromDestination(h, i, j) && now - h[j].time <= SWITCH_TIMEOUT
  }

  /** A packet from somewhere replaces the destination although one from it is no older than the timeout. */
  ghost predicate Hasty(h: seq<Event>, i: nat, source: Address, now: int)
    requires ValidEvents(h) && i < 2
  {
    AfterPacket(Run(h), i, source, now).comps[i].addr != Run(h).comps[i].addr && Recent(h, i, now)
  }

  /** Some packet of the history is more than the timeout younger. */
  ghost predicate Outdated(h: seq<Event>, j: nat)
    requires j < |h| && h[j].Packet?
  {
    exists k: nat | k < |h| && h[k].Packet? :: h[k].time - h[j].time > SWITCH_TIMEOUT
  }

  /** After a history, no packet that may come next replaces a destination from which one arrived in the last five
      seconds if and only if no packet from the destination is later than the last use time, but for those that are
      outdated by others. */
  lemma StrongerReading(h: seq<Event>, i: nat)
    requires ValidEvents(h) && Clocked(h) && i < 2
    ensures (forall source: Address, now: int | Clocked(h + [Packet(i, source, now)]) :: !Hasty(h, i, source, now)) <==>
            (forall j: nat | j < |h| && FromDestination(h, i, j) ::
               h[j].time <= Run(h).comps[i].lastUse || Outdated(h, j))
  {
    if j: nat :| j < |h| && FromDestination(h, i, j) && h[j].time > Run(h).comps[i].lastUse && !Outdated(h, j) {
      HastyAfter(h, i, j);
    } else {
      forall source: Address, now: int | Clocked(h + [Packet(i, source, now)])
        ensures !Hasty(h, i, source, now)
      {
        if Hasty(h, i, source, now) {
          var j := LaterThanUse(h, i, source, now);
        }
      }
    }
  }

  lemma HastyAfter(h: seq<Event>, i: nat, j: nat)
    requires ValidEvents(h) && Clocked(h) && i < 2 && j < |h|
    requires FromDestination(h, i, j) && h[j].time > Run(h).comps[i].lastUse && !Outdated(h, j)
    ensures exists source: Address, now: int :: Clocked(h + [Packet(i, source, now)]) && Hasty(h, i, source, now)
  {
    var source, now := h[j].source + "'", h[j].time + SWITCH_TIMEOUT;
    NextClocked(h, i, source, now);
    assert source != h[j].source;
    assert Hasty(h, i, source, now);
  }

  lemma LaterThanUse(h: seq<Event>, i: nat, source: Address, now: int) returns (j: nat)
    requires ValidEvents(h) && i < 2 && Clocked(h + [Packet(i, source, now)]) && Hasty(h, i, source, now)
    ensures j < |h| && FromDestination(h, i, j) && h[j].time > Run(h).comps[i].lastUse && !Outdated(h, j)
  {
    NotBefore(h, i, source, now);
    j :| j < |h| && FromDestination(h, i, j) && now - h[j].time <= SWITCH_TIMEOUT;
  }

  lemma NextClocked(h: seq<Event>, i: nat, source: Address, now: int)
    requires Clocked(h) && forall k | 0 <= k < |h| && h[k].Packet? :: h[k].time <= now
    ensures Clocked(h + [Packet(i, source, now)])
  {
    var all := h + [Packet(i, source, now)];
    assert forall k | 0 <= k < |h| :: all[k] == h[k];
  }

  lemma NotBefore(h: seq<Event>, i: nat, source: Address, now: int)
    requires Clocked(h + [Packet(i, source, now)])
    ensures forall k | 0 <= k < |h| && h[k].Packet? :: h[k].time <= now
  {
    var all := h + [Packet(i, source, now)];
    assert forall k | 0 <= k < |h| :: all[k] == h[k];
    assert all[|h|] == Packet(i, source, now);
  }

  /** Packets that arrived before their address became the destination do not count.  Whenever a packet from another
      address `x` comes in time not to be followed, SDP then names `x`, and the old destination stays silent, a packet
      from anywhere replaces `x`, although `x` was heard less than the timeout ago. */
  lemma EarlierPacketsDoNotCount(h: seq<Event>, i: nat, x: Address, t: nat, r: Remote, dir: Dir, y: Address, now: int)
    requires ValidEvents(h) && i < 2 && r.Valid() && !Run(h).learned
    requires Run(h).comps[i].addr != Some(x) && t - Run(h).comps[i].lastUse <= SWITCH_TIMEOUT
    requires r.Usable() && r.resolved[i] == Some(x) && y != x
    requires now - t <= SWITCH_TIMEOUT < now - Run(h).comps[i].lastUse
    ensures var k := h + [Packet(i, x, t)] + [Sdp(r, dir)];
            && ValidEvents(k) && Run(k).comps[i].addr == Some(x)
            && AfterPacket(Run(k), i, y, now).comps[i].addr == Some(y)
  {
    RunPrefix(h, Packet(i, x, t));
    RunPrefix(h + [Packet(i, x, t)], Sdp(r, dir));
  }

  /** It happens: SDP names "a", which is heard at 100, a packet from "x" comes at 103, SDP then names "x", and at 107
      a packet from "y" takes over. */
  lemma EarlierPacketExample(a: Remote, x: Remote)
    requires a.Valid() && a.Usable() && a.resolved[0] == Some("a")
    requires x.Valid() && x.Usable() && x.resolved[0] == Some("x")
    ensures var h := [Sdp(a, SendRecv)] + [Packet(0, "a", 100)] + [Packet(0, "x", 103)] + [Sdp(x, SendRecv)];
            && ValidEvents(h) && Run(h).comps[0].addr == Some("x") && Recent(h, 0, 107)
            && AfterPacket(Run(h), 0, "y", 107).comps[0].addr == Some("y")
  {
    var told, heard := [Sdp(a, SendRecv)], [Sdp(a, SendRecv)] + [Packet(0, "a", 100)];
    RunPrefix([], Sdp(a, SendRecv));
    assert [] + told == told;
    RunPrefix(told, Packet(0, "a", 100));
    EarlierPacketsDoNotCount(heard, 0, "x", 103, x, SendRecv, "y", 107);
    assert (heard + [Packet(0, "x", 103)] + [Sdp(x, SendRecv)])[2] == Packet(0, "x", 103);
  }

  // ----- What is sent where -----

  /** SDP takes the stream away: port zero, or an address that would loop. */
  ghost predicate Declines(e: Event)
  {
    e.Sdp? && (e.remote.rtpPort == 0 || (e.remote.rtpPort > 0 && e.remote.looped))
  }

  /** A usable SDP address came and has not been declined or refused since. */
  ghost predicate Up(h: seq<Event>)
  {
    exists j: nat | j < |h| :: h[j].Sdp? && Since(h, j)
  }

  ghost predicate Since(h: seq<Event>, j: nat)
  {
    forall k | j <= k < |h| :: !Declines(h[k])
  }

  /** The event names the address for the component. */
  predicate Names(e: Event, i: nat, a: Address)
  {
    match e
    case Packet(k, source, _) => k == i && source == a
    case Sdp(r, _) => i < |r.resolved| && r.resolved[i] == Some(a)
    case _ => false
  }

  ghost predicate Named(h: seq<Event>, i: nat, a: Address)
  {
    exists j: nat | j < |h| :: Names(h[j], i, a) && Since(h, j)
  }

  lemma SinceStep(h: seq<Event>, j: nat)
    requires h != [] && j < |h|
    ensures Since(h, j) <==> !Declines(h[|h| - 1]) && (j < |h| - 1 ==> Since(h[..|h| - 1], j))
  {
    var before := h[..|h| - 1];
    assert forall k | 0 <= k < |before| :: before[k] == h[k];
  }

  lemma UpStep(h: seq<Event>)
    requires h != []
    ensures Up(h) <==> !Declines(h[|h| - 1]) && (h[|h| - 1].Sdp? || Up(h[..|h| - 1]))
  {
    var before, e := h[..|h| - 1], h[|h| - 1];
    if Up(h) {
      var j: nat :| j < |h| && h[j].Sdp? && Since(h, j);
      SinceStep(h, j);
      assert j < |before| ==> before[j].Sdp? && Since(before, j);
    }
    if !Declines(e) && e.Sdp? {
      assert Since(h, |h| - 1);
    }
    if !Declines(e) && Up(before) {
      var j: nat :| j < |before| && before[j].Sdp? && Since(before, j);
      SinceStep(h, j);
      assert h[j].Sdp? && Since(h, j);
    }
  }

  lemma OpenStep(c: Channel, e: Event)
    requires c.Valid() && ValidEvent(e)
    ensures After(c, e).open <==> !Declines(e) && (e.Sdp? || c.open)
  {}

  /** A channel is open exactly while a usable SDP address stands. */
  lemma {:induction false} OpenExactly(h: seq<Event>)
    requires ValidEvents(h)
    ensures Run(h).open <==> Up(h)
  {
    if h != [] {
      HistoryStep(h);
      OpenExactly(h[..|h| - 1]);
      UpStep(h);
      OpenStep(Run(h[..|h| - 1]), h[|h| - 1]);
    }
  }

  /** A destination is an address that a packet or SDP named and that has not been declined or refused since. */
  lemma {:induction false} DestinationNamed(h: seq<Event>, i: nat, a: Address)
    requires ValidEvents(h) && i < 2 && Run(h).comps[i].addr == Some(a)
    ensures Named(h, i, a)
  {
    if h != [] {
      var before, e := h[..|h| - 1], h[|h| - 1];
      HistoryStep(h);
      if Names(e, i, a) && !Declines(e) {
        assert Since(h, |h| - 1);
      } else {
        assert Run(before).comps[i].addr == Some(a) && !Declines(e);
        DestinationNamed(before, i, a);
        var j: nat :| j < |before| && Names(before[j], i, a) && Since(before, j);
        SinceStep(h, j);
        assert Names(h[j], i, a);
      }
    }
  }

  /** Over every history, whatever is sent goes to an address that a packet or SDP named, and nothing is sent unless a
      usable SDP address came and neither has been declined or refused since. */
  lemma SendsWhereTold(h: seq<Event>, i: nat, a: Address)
    requires ValidEvents(h) && i < 2 && Target(Run(h), i) == Some(a)
    ensures Up(h) && Named(h, i, a) && Run(h).dir != Inactive
  {
    OpenExactly(h);
    DestinationNamed(h, i, a);
  }

  // ----- Learned addresses and SDP -----

  /** The packet at `j` taught the channel an address. */
  ghost predicate Taught(h: seq<Event>, j: nat)
    requires ValidEvents(h) && j < |h|
  {
    h[j].Packet? && Run(h[..j]).comps[h[j].i].addr != Some(h[j].source) && Heard(h, j, h[j].i)
  }

  ghost predicate TaughtSince(h: seq<Event>, j: nat)
    requires ValidEvents(h) && j < |h|
  {
    Taught(h, j) && forall k | j < k < |h| :: !Declines(h[k])
  }

  /** Some packet taught an address and the stream has not been declined, or its address refused, since. */
  ghost predicate StillTaught(h: seq<Event>)
    requires ValidEvents(h)
  {
    exists j: nat | j < |h| :: TaughtSince(h, j)
  }

  lemma TaughtSinceStep(h: seq<Event>, j: nat)
    requires ValidEvents(h) && j < |h| - 1
    ensures ValidEvents(h[..|h| - 1])
    ensures TaughtSince(h, j) <==> TaughtSince(h[..|h| - 1], j) && !Declines(h[|h| - 1])
  {
    TaughtPrefix(h, j);
    assert forall k | j < k < |h| - 1 :: h[..|h| - 1][k] == h[k];
  }

  lemma TaughtPrefix(h: seq<Event>, j: nat)
    requires ValidEvents(h) && j < |h| - 1
    ensures ValidEvents(h[..|h| - 1])
    ensures Taught(h, j) <==> Taught(h[..|h| - 1], j)
  {
    HistoryStep(h);
    assert h[..j] == h[..|h| - 1][..j];
  }

  lemma StillTaughtStep(h: seq<Event>)
    requires ValidEvents(h) && h != []
    ensures ValidEvents(h[..|h| - 1])
    ensures StillTaught(h) <==> Taught(h, |h| - 1) || (StillTaught(h[..|h| - 1]) && !Declines(h[|h| - 1]))
  {
    forall j: nat | j < |h| - 1
      ensures TaughtSince(h, j) <==> TaughtSince(h[..|h| - 1], j) && !Declines(h[|h| - 1])
    {
      TaughtSinceStep(h, j);
    }
    assert TaughtSince(h, |h| - 1) <==> Taught(h, |h| - 1);
    if StillTaught(h) {
      var j: nat :| j < |h| && TaughtSince(h, j);
      assert j < |h| - 1 ==> TaughtSince(h[..|h| - 1], j);
    }
    if StillTaught(h[..|h| - 1]) && !Declines(h[|h| - 1]) {
      var j: nat :| j < |h| - 1 && TaughtSince(h[..|h| - 1], j);
      assert TaughtSince(h, j);
    }
  }

  lemma StepLearned(c: Channel, e: Event)
    requires c.Valid() && ValidEvent(e)
    ensures After(c, e).learned <==>
            || (e.Packet? && c.comps[e.i].addr != Some(e.source) && After(c, e).comps[e.i].addr == Some(e.source))
            || (c.learned && !Declines(e))
  {}

  /** An address counts as learned from the packet that taught it until the stream is declined or its address
      refused. */
  lemma {:induction false} LearnedExactly(h: seq<Event>)
    requires ValidEvents(h)
    ensures Run(h).learned <==> StillTaught(h)
  {
    if h != [] {
      var before, e := h[..|h| - 1], h[|h| - 1];
      HistoryStep(h);
      LearnedExactly(before);
      StillTaughtStep(h);
      StepLearned(Run(before), e);
    }
  }

  /** While it does, SDP does not change where packets are sent. */
  lemma SdpDoesNotOverride(h: seq<Event>, r: Remote, dir: Dir, i: nat)
    requires ValidEvents(h) && r.Valid() && r.Usable() && i < 2
    requires StillTaught(h)
    ensures AfterRemote(Run(h), r, dir).comps[i].addr == Run(h).comps[i].addr
    ensures AfterRemote(Run(h), r, dir).learned
  {
    LearnedExactly(h);
  }

  // ----- Exactly where, exactly when -----

  /** Nothing was heard on the component in the five seconds before the packet at `j`. */
  ghost predicate Quiet(h: seq<Event>, j: nat, i: nat)
    requires ValidEvents(h) && j < |h| && h[j].Packet? && i < 2
  {
    h[j].time > 5 && forall m: nat | m < j && Heard(h, m, i) :: h[j].time - h[m].time > 5
  }

  /** What the event at `j` makes the destination of the component, if it decides about it: a packet after a quiet time
      its source, SDP that declines nothing, and other SDP the address it names, unless one is still taught. */
  ghost function Decided(h: seq<Event>, j: nat, i: nat): Option<Option<Address>>
    requires ValidEvents(h) && j < |h| && i < 2
  {
    match h[j]
    case Packet(k, source, _) => if k == i && Quiet(h, j, i) then Some(Some(source)) else None
    case Sdp(r, _) =>
      if Declines(h[j]) then Some(None)
      else if r.resolved[i].Some? && !StillTaught(h[..j]) then Some(r.resolved[i])
      else None
    case _ => None
  }

  /** The event at `j` made `a` the destination and no later event decided otherwise. */
  ghost predicate Stands(h: seq<Event>, j: nat, i: nat, a: Address)
    requires ValidEvents(h) && j < |h| && i < 2
  {
    && Decided(h, j, i) == Some(Some(a))
    && forall k: nat | j < k < |h| :: Decided(h, k, i).None? || Decided(h, k, i) == Some(Some(a))
  }

  ghost predicate StandsNow(h: seq<Event>, i: nat, a: Address)
    requires ValidEvents(h) && i < 2
  {
    exists j: nat | j < |h| :: Stands(h, j, i, a)
  }

  lemma DecidedPrefix(h: seq<Event>, j: nat, i: nat)
    requires ValidEvents(h) && j < |h| - 1 && i < 2
    ensures ValidEvents(h[..|h| - 1]) && Decided(h, j, i) == Decided(h[..|h| - 1], j, i)
  {
    HistoryStep(h);
    assert h[..|h| - 1][..j] == h[..j];
    if h[j].Packet? {
      assert Quiet(h, j, i) <==> Quiet(h[..|h| - 1], j, i);
    }
  }

  lemma StandsStep(h: seq<Event>, i: nat, a: Address)
    requires ValidEvents(h) && h != [] && i < 2
    ensures ValidEvents(h[..|h| - 1])
    ensures var d := Decided(h, |h| - 1, i);
            StandsNow(h, i, a) <==> d == Some(Some(a)) || (d.None? && StandsNow(h[..|h| - 1], i, a))
  {
    var before, n := h[..|h| - 1], |h| - 1;
    forall j: nat | j < n
      ensures ValidEvents(before) && Decided(h, j, i) == Decided(before, j, i)
    {
      DecidedPrefix(h, j, i);
    }
    assert Stands(h, n, i, a) <==> Decided(h, n, i) == Some(Some(a));
    if StandsNow(h, i, a) {
      var j: nat :| j < |h| && Stands(h, j, i, a);
      assert j < n ==> Stands(before, j, i, a);
    }
    if Decided(h, n, i).None? && StandsNow(before, i, a) {
      var j: nat :| j < n && Stands(before, j, i, a);
      assert Stands(h, j, i, a);
    }
  }

  lemma QuietExactly(h: seq<Event>, i: nat)
    requires ValidEvents(h) && Clocked(h) && h != [] && i < 2 && h[|h| - 1].Packet? && h[|h| - 1].i == i
    ensures ValidEvents(h[..|h| - 1])
    ensures Quiet(h, |h| - 1, i) <==> h[|h| - 1].time - Run(h[..|h| - 1]).comps[i].lastUse > SWITCH_TIMEOUT
  {
    var before := h[..|h| - 1];
    HistoryStep(h);
    LastUseCovers(before, i);
    LastUseIsHeard(before, i);
    LastUseFrom(before, i);
    var last := Run(before).comps[i].lastUse;
    if last != 0 {
      var j: nat :| j < |before| && Heard(before, j, i) && before[j].time == last;
      assert Heard(h, j, i) && h[j].time == last;
    }
  }

  lemma StepAddress(c: Channel, e: Event, i: nat)
    requires c.Valid() && ValidEvent(e) && i < 2
    ensures After(c, e).comps[i].addr ==
            match e
            case Packet(k, source, time) =>
              if k == i && time - c.comps[i].lastUse > SWITCH_TIMEOUT then Some(source) else c.comps[i].addr
            case Sdp(r, _) =>
              if Declines(e) then None
              else if r.resolved[i].Some? && !c.learned then r.resolved[i]
              else c.comps[i].addr
            case _ => c.comps[i].addr
  {}

  lemma StepGiven(c: Channel, e: Event, i: nat)
    requires c.Valid() && ValidEvent(e) && i < 2
    ensures After(c, e).comps[i].port ==
            if !e.Sdp? then c.comps[i].port else if i == 0 then e.remote.rtpPort else e.remote.rtcpPort
    ensures After(c, e).dir == if e.Sdp? || e.SetDir? then e.dir else c.dir
    ensures After(c, e).comps[i].errors ==
            match e
            case Packet(k, _, _) => if k == i then 0 else c.comps[i].errors
            case Sdp(_, _) => if Declines(e) || c.learned then c.comps[i].errors else 0
            case Refused(k) => c.comps[i].errors + if k == i then 1 else 0
            case _ => c.comps[i].errors
  {}

  lemma DecidedStep(h: seq<Event>, i: nat)
    requires ValidEvents(h) && Clocked(h) && h != [] && i < 2
    ensures ValidEvents(h[..|h| - 1])
    ensures var d := Decided(h, |h| - 1, i);
            Run(h).comps[i].addr == if d.Some? then d.value else Run(h[..|h| - 1]).comps[i].addr
  {
    HistoryStep(h);
    LearnedExactly(h[..|h| - 1]);
    StepAddress(Run(h[..|h| - 1]), h[|h| - 1], i);
    if h[|h| - 1].Packet? && h[|h| - 1].i == i {
      QuietExactly(h, i);
    }
  }

  /** Over every history, packets of the component are sent to `a` exactly while the event that last decided about
      it made it so: SDP that named `a` when no address was taught, or a packet from `a` after more than five
      quiet seconds. */
  lemma {:induction false} DestinationExactly(h: seq<Event>, i: nat, a: Address)
    requires ValidEvents(h) && Clocked(h) && i < 2
    ensures Run(h).comps[i].addr == Some(a) <==> StandsNow(h, i, a)
  {
    if h != [] {
      HistoryStep(h);
      DestinationExactly(h[..|h| - 1], i, a);
      StandsStep(h, i, a);
      DecidedStep(h, i);
    }
  }

  /** The port that SDP gave last. */
  ghost function PortGiven(h: seq<Event>, i: nat): int
  {
    if h == [] then -1
    else
      var e := h[|h| - 1];
      if !e.Sdp? then PortGiven(h[..|h| - 1], i) else if i == 0 then e.remote.rtpPort else e.remote.rtcpPort
  }

  /** The direction given last. */
  ghost function DirGiven(h: seq<Event>): Dir
  {
    if h == [] then SendRecv
    else if h[|h| - 1].Sdp? || h[|h| - 1].SetDir? then h[|h| - 1].dir
    else DirGiven(h[..|h| - 1])
  }

  /** How often the other side refused a packet of the component since it was last heard of: by a packet from
      anywhere or by SDP that could still change the destination. */
  ghost function Misses(h: seq<Event>, i: nat): nat
    requires ValidEvents(h)
  {
    if h == [] then 0
    else
      var before, e := h[..|h| - 1], h[|h| - 1];
      match e
      case Packet(k, _, _) => if k == i then 0 else Misses(before, i)
      case Sdp(_, _) => if Declines(e) || StillTaught(before) then Misses(before, i) else 0
      case Refused(k) => Misses(before, i) + if k == i then 1 else 0
      case _ => Misses(before, i)
  }

  lemma {:induction false} GivenExactly(h: seq<Event>, i: nat)
    requires ValidEvents(h) && i < 2
    ensures Run(h).comps[i].port == PortGiven(h, i) && Run(h).dir == DirGiven(h)
    ensures Run(h).comps[i].errors == Misses(h, i)
  {
    if h != [] {
      HistoryStep(h);
      GivenExactly(h[..|h| - 1], i);
      LearnedExactly(h[..|h| - 1]);
      StepGiven(Run(h[..|h| - 1]), h[|h| - 1], i);
    }
  }

  /** Over every history, a packet handed to the channel is sent to `a` if and only if a usable SDP address came
      and none was declined or refused since, the port given last is positive, the direction given last is not
      inactive, fewer than fifty packets were refused since the other side was heard of, and `a` is the address
      that stands. */
  lemma SendsExactly(h: seq<Event>, i: nat, a: Address)
    requires ValidEvents(h) && Clocked(h) && i < 2
    ensures Target(Run(h), i) == Some(a) <==>
            Up(h) && PortGiven(h, i) > 0 && DirGiven(h) != Inactive && Misses(h, i) < 50 && StandsNow(h, i, a)
  {
    OpenExactly(h);
    GivenExactly(h, i);
    DestinationExactly(h, i, a);
  }

  /** And a packet that arrives is handed on if and only if such an address stands and the direction is both ways. */
  lemma RelaysExactly(h: seq<Event>)
    requires ValidEvents(h)
    ensures Relays(Run(h)) <==> Up(h) && DirGiven(h) == SendRecv
  {
    OpenExactly(h);
    GivenExactly(h, 0);
  }
}
