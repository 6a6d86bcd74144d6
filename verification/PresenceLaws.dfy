/** What a presence event leaves behind, column by column, and what is answered about it. */
module PresenceLaws {
  import opened Prelude
  import opened Timestamps
  import opened PresenceStore
  import Bus = BusLogObject

  /** The three texts an event must have. */
  predicate Named(e: Event) { !Vacant(e.agent) && !Vacant(e.status) && !Vacant(e.timestampUtc) }

  lemma CompleteIff(e: Event)
    ensures Complete(e) <==> Named(e)
  {
    BlankIff(e.agent);
    BlankIff(e.status);
    BlankIff(e.timestampUtc);
  }

  /** The event's lifetime in seconds, three minutes unless it says otherwise. */
  function Lifetime(e: Event): (ttl: int) { match e.ttlSeconds case Some(ttl) => ttl case None => 180 }

  /** The row shows this event of the hub; it expires its lifetime after the event's own time, or after now
      if that time is unreadable. */
  predicate Shows(r: Row, hub: string, e: Event, now: int) {
    && r.status == e.status && r.protocolVersion == e.protocolVersion && r.timestampUtc == e.timestampUtc
    && r.sessionId == (match e.sessionId case Some(id) => id case None => "")
    && r.capabilities == (match e.capabilities case Some(cs) => cs case None => [])
    && r.metadata == e.metadata && r.ttlSeconds == Lifetime(e) && r.originHub == Some(hub)
    && r.expiresAtMs == 1000 * Lifetime(e) + (match ParseTimestampUtcMs(e.timestampUtc) case Some(ms) => ms
      case None => now)
  }

  predicate Records(h: HistoryRow, hub: string, e: Event, stamp: string) {
    && h.agent == e.agent && h.status == e.status && h.protocolVersion == e.protocolVersion
    && h.timestampUtc == e.timestampUtc
    && h.sessionId == (match e.sessionId case Some(id) => id case None => "")
    && h.capabilities == (match e.capabilities case Some(cs) => cs case None => [])
    && h.metadata == e.metadata && h.ttlSeconds == Lifetime(e) && h.networkContext == None
    && h.originHub == Some(hub) && h.originId == Some(e.originId) && h.ingestedAt == stamp
  }

  /** The current row of the agent is missing, or not later than the event. */
  predicate Due(t: Tables, hub: string, e: Event) {
    (hub, e.agent) in t.current ==>
      var shown := t.current[(hub, e.agent)].timestampUtc; shown == e.timestampUtc || Less(shown, e.timestampUtc)
  }

  lemma WinsIff(t: Tables, hub: string, e: Event)
    ensures Wins(t, hub, e) <==> Due(t, hub, e)
  {
    if (hub, e.agent) in t.current {
      var shown := t.current[(hub, e.agent)].timestampUtc;
      LessTotal(e.timestampUtc, shown);
      LessIrreflexive(shown);
      if Less(shown, e.timestampUtc) {
        LessAsymmetric(shown, e.timestampUtc);
      }
    }
  }

  /** One event: refused exactly when one of its texts is missing, a duplicate exactly when its id is known,
      and recorded otherwise; it is shown exactly when nothing later is, and keeps the network context. */
  lemma RelayDecides(t: Tables, hub: string, e: Event, clock: Clock)
    ensures var (u, verdict) := Relay(t, hub, e, clock);
            if !Named(e) then u == t && verdict == Rejected
            else if (hub, e.originId) in t.synced then u == t && verdict == Duplicate
            else
              && verdict == Accepted && u.synced == t.synced + {(hub, e.originId)}
              && |u.history| == |t.history| + 1 && u.history[..|t.history|] == t.history
              && Records(u.history[|t.history|], hub, e, clock.stamp)
              && (if !Due(t, hub, e) then u.current == t.current
                  else
                    var key := (hub, e.agent);
                    && key in u.current && Shows(u.current[key], hub, e, clock.now)
                    && u.current[key].networkContext ==
                      (if key in t.current then t.current[key].networkContext else None)
                    && u.current == t.current[key := u.current[key]])
  {
    CompleteIff(e);
    WinsIff(t, hub, e);
  }

  /** A direct write shows and records what it was given; the history row has no origin id. */
  lemma DirectWriteIs(t: Tables, agent: string, row: Row, keyOrigin: string, stamp: string)
    ensures var u := SetPresence(t, agent, row, keyOrigin, stamp);
            && u.current == t.current[(keyOrigin, agent) := row] && u.synced == t.synced
            && |u.history| == |t.history| + 1 && u.history[..|t.history|] == t.history
            && var h := u.history[|t.history|];
               && h.agent == agent && h.status == row.status && h.protocolVersion == row.protocolVersion
               && h.timestampUtc == row.timestampUtc && h.sessionId == row.sessionId
               && h.capabilities == row.capabilities
               && h.metadata == row.metadata && h.ttlSeconds == row.ttlSeconds && h.networkContext == row.networkContext
               && h.originHub == row.originHub && h.originId == None && h.ingestedAt == stamp
  {
  }

  /** Where a fault strikes is how far the writing got. */
  lemma FaultLeaves(t: Tables, hub: string, e: Event, clock: Clock, moment: Moment)
    requires Named(e) && (hub, e.originId) !in t.synced
    ensures var (u, verdict) := Attempt(t, hub, e, clock, Some(moment));
            && (u.synced == t.synced <==> moment in {AtLookup, AtSyncInsert})
            && (u.history == t.history <==> moment in {AtLookup, AtSyncInsert, AtHistoryInsert})
            && (verdict == None ==> u.current == t.current)
            && (verdict.Some? <==> moment == AtCurrentWrite && !Due(t, hub, e))
            && (verdict.Some? ==> verdict == Some(Accepted))
  {
    CompleteIff(e);
    WinsIff(t, hub, e);
    var (u, verdict) := Attempt(t, hub, e, clock, Some(moment));
    assert u.history == t.history || |u.history| == |t.history| + 1;
  }

  lemma {:induction false} AnswerCounts(events: seq<Event>, verdicts: seq<Verdict>)
    requires |verdicts| <= |events|
    ensures var a := Bus.AnswerOf(events, verdicts);
            && a.accepted == multiset(verdicts)[Accepted] && a.duplicates == multiset(verdicts)[Duplicate]
            && |a.rejected| == multiset(verdicts)[Rejected]
  {
    if verdicts == [] {
    } else {
      var n := |verdicts| - 1;
      AnswerCounts(events, verdicts[..n]);
      assert verdicts == verdicts[..n] + [verdicts[n]];
    }
  }

  /** The refused events are listed by the ids their origin gave them, in order. */
  lemma {:induction false} RejectedAre(events: seq<Event>, verdicts: seq<Verdict>, id: int)
    requires |verdicts| <= |events|
    ensures id in Bus.AnswerOf(events, verdicts).rejected <==>
            exists i :: 0 <= i < |verdicts| && verdicts[i] == Rejected && events[i].originId == id
  {
    if verdicts == [] {
    } else {
      var n := |verdicts| - 1;
      RejectedAre(events, verdicts[..n], id);
      assert forall i :: 0 <= i < n ==> verdicts[..n][i] == verdicts[i];
    }
  }
}
