/**
  The operations of a relayed call, on the state that the early media rules are about.
  */
module RelayedCalls {
  import opened Collections
  import opened EarlyMedia
  import opened EarlyMediaEvents
  import M = MediaChannel

  class RelayedCall {
    var mSessions: seq<Option<Session>>
    var mSendRecvTrId: Option<TrId>

    ghost function Value(): Call
      reads this
    {
      Call(mSessions, mSendRecvTrId)
    }

    constructor ()
      ensures Value() == INIT
    {
      mSessions, mSendRecvTrId := seq(MAX_SESSIONS, _ => None), None;
    }

    method InitChannels(tr: TrId, lines: seq<bool>, multi: bool, local: bool)
      modifies this
      ensures Value() == Offer(old(Value()), tr, lines, multi, local, |lines|)
    {
      ghost var sessions := mSessions;
      var i := 0;
      while i < |lines| && i < |mSessions|
        invariant i <= |lines| && |mSessions| == |sessions| && mSendRecvTrId == old(mSendRecvTrId)
        invariant forall j | 0 <= j < |sessions| ::
                    mSessions[j] == if j < i && lines[j]
                                    then Offered(sessions[j], tr, Branch(M.FRESH, multi, local)) else sessions[j]
      {
        if lines[i] {
          var s: Session := if mSessions[i].Some? then mSessions[i].value else map[];
          if tr !in s {
            s := s[tr := Branch(M.FRESH, multi, local)];
          }
          mSessions := mSessions[i := Some(s)];
        }
        i := i + 1;
      }
    }

    method RemoveBranch(tr: TrId)
      modifies this
      ensures Value() == Removed(old(Value()), tr, |old(mSessions)|)
    {
      ghost var sessions := mSessions;
      for i := 0 to |mSessions|
        invariant |mSessions| == |sessions| && mSendRecvTrId == old(mSendRecvTrId)
        invariant forall j | 0 <= j < |sessions| ::
                    mSessions[j] == if j < i && sessions[j].Some? then Some(sessions[j].value - {tr}) else sessions[j]
      {
        if mSessions[i].Some? {
          mSessions := mSessions[i := Some(mSessions[i].value - {tr})];
        }
      }
    }

    static method GetActiveBranchesCount(s: Session) returns (count: nat)
      ensures count == |Active(s)|
    {
      count := 0;
      var left := s.Keys;
      ghost var found: set<TrId>, active := {}, Active(s);
      while left != {}
        invariant left <= s.Keys && count == |found| && found <= active
        invariant forall tr | tr in active :: tr in found <==> tr !in left
        decreases |left|
      {
        var tr :| tr in left;
        left := left - {tr};
        if s[tr].chan.comps[0].port > 0 {
          count := count + 1;
          found := found + {tr};
        }
      }
      assert found == active;
    }

    /** The loop over the sessions that takes the lead away, up to the first missing session. */
    method PassLead(tr: TrId)
      modifies this
      ensures Value() == Demoted(old(Value()), Leading(old(mSessions))).(lead := Some(tr))
    {
      var i := 0;
      while i < |mSessions| && mSessions[i].Some?
        invariant i <= Leading(old(mSessions)) && Value() == Demoted(old(Value()), i)
      {
        var s := mSessions[i].value;
        if mSendRecvTrId.Some? && mSendRecvTrId.value in s {
          var b := s[mSendRecvTrId.value];
          mSessions := mSessions[i := Some(s[mSendRecvTrId.value := b.(chan := b.chan.(dir := M.SendOnly))])];
        }
        i := i + 1;
      }
      mSendRecvTrId := Some(tr);
    }

    method SetChannelDestinations(cfg: Config, i: nat, tr: TrId, line: Line)
      modifies this
      ensures Value() == LineEnd(cfg, old(Value()), i, tr, line)
    {
      if i >= |mSessions| || mSessions[i].None? {
        return;
      }
      if cfg.single && i == 0 {
        PassLead(tr);
      }
      ConnectLine(cfg, i, tr, line);
    }

    method ConnectLine(cfg: Config, i: nat, tr: TrId, line: Line)
      requires i < |mSessions| && mSessions[i].Some?
      modifies this
      ensures Value() == Connected(cfg, old(Value()), i, tr, line)
    {
      var s := mSessions[i].value;
      if tr !in s {
        return;
      }
      if s[tr].local {
        var dir := M.SendRecv;
        if cfg.cap != 0 && !s[tr].multi {
          var count := GetActiveBranchesCount(s);
          if count >= cfg.cap {
            dir := M.Inactive;
          }
        }
        if !line.ice {
          mSessions := mSessions[i := Some(s[tr := s[tr].(chan := M.AfterRemote(s[tr].chan, line.remote, dir))])];
        }
      }
    }

    /** The lines of an answer, in order; those that are not to be relayed are skipped. */
    method IterateInAnswer(cfg: Config, tr: TrId, lines: seq<Option<Line>>)
      modifies this
      ensures Value() == EventEnd(cfg, old(Value()), EarlyAnswer(tr, lines))
    {
      for i := 0 to |lines|
        invariant LinesEnd(cfg, Value(), tr, lines, i) == LinesEnd(cfg, old(Value()), tr, lines, 0)
      {
        if lines[i].Some? {
          SetChannelDestinations(cfg, i, tr, lines[i].value);
        }
      }
    }
  }
}
