/** Presence: the last-writer `presence` table, its history and the idempotent relay of historical
    events (`syncPushPresence`). */
module PresenceStore {
  import opened Prelude
  import opened Timestamps

  type Key = (string, string)  // (key_origin, agent)

  datatype Event = Event(
    originId: int, timestampUtc: string, protocolVersion: string, agent: string, status: string,
    sessionId: Option<string>,
    capabilities: Option<seq<string>>, metadata: Option<string>, ttlSeconds: Option<int>)

  datatype Row = Row(
    status: string, protocolVersion: string, timestampUtc: string, sessionId: string, capabilities: seq<string>,
    metadata: Option<string>, ttlSeconds: int, expiresAtMs: int, networkContext: Option<string>,
    originHub: Option<string>)

  datatype HistoryRow = HistoryRow(
    agent: string, status: string, protocolVersion: string, timestampUtc: string, sessionId: string,
    capabilities: seq<string>,
    metadata: Option<string>, ttlSeconds: int, networkContext: Option<string>, originHub: Option<string>,
    originId: Option<int>,
    ingestedAt: string)

  /** `presence`, `presence_history` and the dedup keys of `presence_sync`. */
  datatype Tables = Tables(current: map<Key, Row>, history: seq<HistoryRow>, synced: set<(string, int)>)

  /** The clock: `Date.now()` and the formatted ingest stamp. */
  datatype Clock = Clock(now: int, stamp: string)

  datatype Verdict = Accepted | Duplicate | Rejected

  predicate Complete(e: Event) { !Blank(e.agent) && !Blank(e.status) && !Blank(e.timestampUtc) }

  function Ttl(e: Event): (r: int) { if e.ttlSeconds.Some? then e.ttlSeconds.value else 180 }

  function OrElse<T>(o: Option<T>, d: T): (r: T) { if o.Some? then o.value else d }

  function HistoryOf(hub: string, e: Event, stamp: string): (r: HistoryRow) {
    HistoryRow(e.agent, e.status, e.protocolVersion, e.timestampUtc, OrElse(e.sessionId, ""),
      OrElse(e.capabilities, []),
               e.metadata, Ttl(e), None, Some(hub), Some(e.originId), stamp)
  }

  /** The upsert leaves `network_context` of an existing row alone. */
  function RowOf(hub: string, e: Event, now: int, context: Option<string>): (r: Row) {
    Row(e.status, e.protocolVersion, e.timestampUtc, OrElse(e.sessionId, ""), OrElse(e.capabilities, []), e.metadata,
      Ttl(e),
        OrElse(ParseTimestampUtcMs(e.timestampUtc), now) + Ttl(e) * 1000, context, Some(hub))
  }

  /** The event replaces what is current for its agent. */
  predicate Wins(t: Tables, hub: string, e: Event) {
    (hub, e.agent) !in t.current || !Less(e.timestampUtc, t.current[(hub, e.agent)].timestampUtc)
  }

  function Updated(t: Tables, hub: string, e: Event, now: int): (r: map<Key, Row>) {
    var key := (hub, e.agent);
    if !Wins(t, hub, e) then t.current
    else t.current[key := RowOf(hub, e, now, if key in t.current then t.current[key].networkContext else None)]
  }

  function Relay(t: Tables, hub: string, e: Event, clock: Clock): (r: (Tables, Verdict)) {
    if !Complete(e) then (t, Rejected)
    else if (hub, e.originId) in t.synced then (t, Duplicate)
    else (Tables(Updated(t, hub, e, clock.now), t.history + [HistoryOf(hub, e, clock.stamp)],
      t.synced + {(hub, e.originId)}), Accepted)
  }

  function RelayAll(t: Tables, hub: string, events: seq<Event>, clocks: seq<Clock>): (r: Tables)
    requires |events| == |clocks|
  {
    if events == [] then t
    else
      var n := |events| - 1;
      Relay(RelayAll(t, hub, events[..n], clocks[..n]), hub, events[n], clocks[n]).0
  }

  /** How events are cut into batches does not matter. */
  lemma {:induction false} BatchingIrrelevant(t: Tables, hub: string, a: seq<Event>, b: seq<Event>, ca: seq<Clock>,
      cb: seq<Clock>)
    requires |a| == |ca| && |b| == |cb|
    ensures RelayAll(t, hub, a + b, ca + cb) == RelayAll(RelayAll(t, hub, a, ca), hub, b, cb)
  {
    if b == [] {
      assert a + b == a && ca + cb == ca;
    } else {
      var n := |b| - 1;
      BatchingIrrelevant(t, hub, a, b[..n], ca, cb[..n]);
      assert (a + b)[..|a| + n] == a + b[..n] && (ca + cb)[..|a| + n] == ca + cb[..n];
    }
  }

  /** `DELETE FROM presence_history WHERE ingested_at_utc < cutoff`; the dedup keys stay. */
  function RetainedHistory(history: seq<HistoryRow>, cutoff: string): (kept: seq<HistoryRow>)
    ensures forall h :: h in kept <==> h in history && !Less(h.ingestedAt, cutoff)
  {
    if history == [] then []
    else
      var n := |history| - 1;
      RetainedHistory(history[..n], cutoff) + if Less(history[n].ingestedAt, cutoff) then [] else [history[n]]
  }

  /** The statement a storage fault strikes at; nothing after it is executed. */
  datatype Moment = AtLookup | AtSyncInsert | AtHistoryInsert | AtCurrentLookup | AtCurrentWrite

  /** A direct write (`setPresence`) always replaces the current row. */
  function SetPresence(t: Tables, agent: string, row: Row, keyOrigin: string, stamp: string): (u: Tables) {
    Tables(t.current[(keyOrigin, agent) := row],
           t.history + [HistoryRow(agent, row.status, row.protocolVersion, row.timestampUtc, row.sessionId,
             row.capabilities, row.metadata,
                                   row.ttlSeconds, row.networkContext, row.originHub, None, stamp)],
           t.synced)
  }

  /** The row as it is written at this moment. */
  function Expiring(row: Row, now: int): (r: Row)
    ensures r.expiresAtMs - now == row.ttlSeconds * 1000 && r.(expiresAtMs := row.expiresAtMs) == row
  {
    row.(expiresAtMs := now + row.ttlSeconds * 1000)
  }

  /** Under a fault the write is missing altogether, or missing from the history. */
  function TrySetPresence(t: Tables, agent: string, row: Row, keyOrigin: string, stamp: string,
      fault: Option<Moment>): (u: (Tables, bool))
  {
    match fault
    case Some(AtCurrentWrite) => (t, false)
    case Some(AtHistoryInsert) => (t.(current := t.current[(keyOrigin, agent) := row]), false)
    case _ => (SetPresence(t, agent, row, keyOrigin, stamp), true)
  }

  /** A relayed event never replaces a current row by an older one, and touches no other key. */
  lemma RelayNeverRegresses(t: Tables, hub: string, e: Event, clock: Clock, key: Key)
    requires key in t.current
    ensures var u := Relay(t, hub, e, clock).0;
            key in u.current && !Less(u.current[key].timestampUtc, t.current[key].timestampUtc) &&
            (key != (hub, e.agent) ==> u.current[key] == t.current[key])
  {
    LessIrreflexive(t.current[key].timestampUtc);
  }

  function CountOf(history: seq<HistoryRow>, hub: string, id: int): (r: nat) {
    if history == [] then 0
    else
      var n := |history| - 1;
      CountOf(history[..n], hub, id) + if history[n].originHub == Some(hub) && history[n].originId == Some(id) then 1
        else 0
  }

  lemma CountStep(history: seq<HistoryRow>, h: HistoryRow, hub: string, i: int)
    ensures CountOf(history + [h], hub, i) == CountOf(history, hub, i) +
            if h.originHub == Some(hub) && h.originId == Some(i) then 1 else 0
  {
    assert (history + [h])[..|history|] == history;
  }

  /** A direct write concerns one key, no relayed id and no dedup key. Unlike a relayed event it goes
      back in time when its timestamp does. */
  lemma DirectWriteConcernsOneKey(t: Tables, agent: string, row: Row, keyOrigin: string, stamp: string, key: Key,
      hub: string, id: int)
    ensures var u := SetPresence(t, agent, row, keyOrigin, stamp);
            && (key != (keyOrigin, agent) ==>
              (key in u.current <==> key in t.current) && (key in t.current ==> u.current[key] == t.current[key]))
            && u.synced == t.synced && CountOf(u.history, hub, id) == CountOf(t.history, hub, id)
            && (key == (keyOrigin, agent) && key in t.current && Less(row.timestampUtc, t.current[key].timestampUtc) ==>
                  Less(u.current[key].timestampUtc, t.current[key].timestampUtc))
  {
    var u := SetPresence(t, agent, row, keyOrigin, stamp);
    CountStep(t.history, u.history[|t.history|], hub, id);
  }

  /** Events of one agent older than this moment, and any events of others. */
  predicate OlderThan(events: seq<Event>, agent: string, timestampUtc: string) {
    forall e :: e in events && e.agent == agent ==> Less(e.timestampUtc, timestampUtc)
  }

  lemma OlderRelayKeeps(t: Tables, agent: string, row: Row, hub: string, e: Event, clock: Clock)
    requires (hub, agent) in t.current && t.current[(hub, agent)] == row
    requires e.agent == agent ==> Less(e.timestampUtc, row.timestampUtc)
    ensures var u := Relay(t, hub, e, clock).0; (hub, agent) in u.current && u.current[(hub, agent)] == row
  {
  }

  /** A direct write outlasts every later relay of older events, in any number and order. */
  lemma {:induction false} DirectWriteOutlastsOlderRelays(t: Tables, agent: string, row: Row, hub: string,
      stamp: string, events: seq<Event>, clocks: seq<Clock>)
    requires |events| == |clocks| && OlderThan(events, agent, row.timestampUtc)
    ensures var u := RelayAll(SetPresence(t, agent, row, hub, stamp), hub, events, clocks);
            (hub, agent) in u.current && u.current[(hub, agent)] == row
  {
    if events == [] {
    } else {
      var n := |events| - 1;
      assert events[n] in events && forall e :: e in events[..n] ==> e in events;
      DirectWriteOutlastsOlderRelays(t, agent, row, hub, stamp, events[..n], clocks[..n]);
      OlderRelayKeeps(RelayAll(SetPresence(t, agent, row, hub, stamp), hub, events[..n], clocks[..n]), agent, row, hub,
        events[n], clocks[n]);
    }
  }

  /** A later relayed event that is not older replaces the direct write, except for its network context. */
  lemma RelayAfterDirectWrite(t: Tables, row: Row, hub: string, stamp: string, e: Event, clock: Clock)
    requires Complete(e) && (hub, e.originId) !in t.synced && !Less(e.timestampUtc, row.timestampUtc)
    ensures var u := Relay(SetPresence(t, e.agent, row, hub, stamp), hub, e, clock).0;
            (hub, e.agent) in u.current && u.current[(hub, e.agent)] == RowOf(hub, e, clock.now, row.networkContext)
  {
  }

  // ---- Storage faults -----------------------------------------------------

  /** One event with a fault at one of its statements; no verdict when the error is thrown. */
  function Attempt(t: Tables, hub: string, e: Event, clock: Clock,
      fault: Option<Moment>): (u: (Tables, Option<Verdict>))
  {
    if !Complete(e) then (t, Some(Rejected))
    else if fault == Some(AtLookup) then (t, None)
    else if (hub, e.originId) in t.synced then (t, Some(Duplicate))
    else
      var seen := t.(synced := t.synced + {(hub, e.originId)});
      var kept := seen.(history := t.history + [HistoryOf(hub, e, clock.stamp)]);
      if fault == Some(AtSyncInsert) then (t, None)
      else if fault == Some(AtHistoryInsert) then (seen, None)
      else if fault == Some(AtCurrentLookup) || (fault == Some(AtCurrentWrite) && Wins(t, hub, e)) then (kept, None)
      else (kept.(current := Updated(t, hub, e, clock.now)), Some(Accepted))
  }

  /** One `/sync/push-presence` call: the verdicts so far, and whether an error was thrown. */
  datatype CallState = CallState(tables: Tables, verdicts: seq<Verdict>, thrown: bool)

  function PushPresence(t: Tables, hub: string, events: seq<Event>, clocks: seq<Clock>,
      faults: seq<Option<Moment>>): (c: CallState)
    requires |events| == |clocks| == |faults|
    ensures !c.thrown ==> |c.verdicts| == |events|
  {
    if events == [] then CallState(t, [], false)
    else
      var n := |events| - 1;
      var c := PushPresence(t, hub, events[..n], clocks[..n], faults[..n]);
      if c.thrown then c
      else
        var (u, verdict) := Attempt(c.tables, hub, events[n], clocks[n], faults[n]);
        if verdict.None? then CallState(u, c.verdicts, true) else CallState(u, c.verdicts + [verdict.value], false)
  }

  lemma FaultFreeAttempt(t: Tables, hub: string, e: Event, clock: Clock)
    ensures Attempt(t, hub, e, clock, None) == (Relay(t, hub, e, clock).0, Some(Relay(t, hub, e, clock).1))
  {
  }

  /** Without faults a call is a relay. */
  lemma {:induction false} FaultFreePushRelays(t: Tables, hub: string, events: seq<Event>, clocks: seq<Clock>,
      faults: seq<Option<Moment>>)
    requires |events| == |clocks| == |faults| && forall f :: f in faults ==> f == None
    ensures var c := PushPresence(t, hub, events, clocks, faults);
            !c.thrown && c.tables == RelayAll(t, hub, events, clocks)
  {
    if events == [] {
    } else {
      var n := |events| - 1;
      assert faults[n] in faults && forall f :: f in faults[..n] ==> f in faults;
      FaultFreePushRelays(t, hub, events[..n], clocks[..n], faults[..n]);
      FaultFreeAttempt(PushPresence(t, hub, events[..n], clocks[..n], faults[..n]).tables, hub, events[n], clocks[n]);
    }
  }

  /** A thrown error ends the call. */
  lemma {:induction false} ThrownStays(t: Tables, hub: string, events: seq<Event>, clocks: seq<Clock>,
      faults: seq<Option<Moment>>, k: nat)
    requires |events| == |clocks| == |faults| && k <= |events| &&
             PushPresence(t, hub, events[..k], clocks[..k], faults[..k]).thrown
    ensures PushPresence(t, hub, events, clocks, faults) == PushPresence(t, hub, events[..k], clocks[..k], faults[..k])
  {
    if k == |events| {
      assert events[..k] == events && clocks[..k] == clocks && faults[..k] == faults;
    } else {
      var n := |events| - 1;
      assert events[..n][..k] == events[..k] && clocks[..n][..k] == clocks[..k] && faults[..n][..k] == faults[..k];
      ThrownStays(t, hub, events[..n], clocks[..n], faults[..n], k);
    }
  }

  datatype Call = Call(events: seq<Event>, clocks: seq<Clock>, faults: seq<Option<Moment>>)

  predicate Fits(c: Call) { |c.events| == |c.clocks| == |c.faults| }

  predicate Shaped(calls: seq<Call>) { forall c :: c in calls ==> Fits(c) }

  function RunCalls(t: Tables, hub: string, calls: seq<Call>): (u: Tables)
    requires Shaped(calls)
  {
    if calls == [] then t
    else
      var c := calls[|calls| - 1];
      assert c in calls;
      PushPresence(RunCalls(t, hub, calls[..|calls| - 1]), hub, c.events, c.clocks, c.faults).tables
  }

  // When an event is lost, over whole runs.

  function Before(c: Call, k: nat): (d: Call)
    requires Fits(c) && k <= |c.events|
    ensures Fits(d)
  {
    Call(c.events[..k], c.clocks[..k], c.faults[..k])
  }

  function RunCall(t: Tables, hub: string, c: Call): (s: CallState)
    requires Fits(c)
  {
    PushPresence(t, hub, c.events, c.clocks, c.faults)
  }

  /** The call gets to its k-th event, which carries the id and is new. */
  predicate NewAt(t: Tables, hub: string, c: Call, id: int, k: nat)
    requires Fits(c) && k < |c.events|
  {
    var s := RunCall(t, hub, Before(c, k));
    !s.thrown && Complete(c.events[k]) && c.events[k].originId == id && (hub, id) !in s.tables.synced
  }

  /** Its dedup key is stored. */
  predicate StoredAt(t: Tables, hub: string, c: Call, id: int, k: nat)
    requires Fits(c) && k < |c.events|
  {
    NewAt(t, hub, c, id, k) && c.faults[k] !in {Some(AtLookup), Some(AtSyncInsert)}
  }

  /** The insertion of its history row fails. */
  predicate StruckAt(t: Tables, hub: string, c: Call, id: int, k: nat)
    requires Fits(c) && k < |c.events|
  {
    NewAt(t, hub, c, id, k) && c.faults[k] == Some(AtHistoryInsert)
  }

  /** One of the call's first `n` events stores the key. */
  predicate StoredIn(t: Tables, hub: string, c: Call, id: int, n: nat)
    requires Fits(c) && n <= |c.events|
  {
    exists k :: 0 <= k < n && StoredAt(t, hub, c, id, k)
  }

  predicate StruckIn(t: Tables, hub: string, c: Call, id: int, n: nat)
    requires Fits(c) && n <= |c.events|
  {
    exists k :: 0 <= k < n && StruckAt(t, hub, c, id, k)
  }

  predicate CallStores(t: Tables, hub: string, calls: seq<Call>, id: int, n: nat)
    requires Shaped(calls) && n < |calls|
  {
    StoredIn(RunCalls(t, hub, calls[..n]), hub, calls[n], id, |calls[n].events|)
  }

  predicate CallStrikes(t: Tables, hub: string, calls: seq<Call>, id: int, n: nat)
    requires Shaped(calls) && n < |calls|
  {
    StruckIn(RunCalls(t, hub, calls[..n]), hub, calls[n], id, |calls[n].events|)
  }

  /** One of the run's first `n` calls stores the key. */
  predicate EverStored(t: Tables, hub: string, calls: seq<Call>, id: int, n: nat)
    requires Shaped(calls) && n <= |calls|
  {
    exists m :: 0 <= m < n && CallStores(t, hub, calls, id, m)
  }

  /** One of them reaches a new event with the id and fails at its history insertion. */
  predicate EverStruck(t: Tables, hub: string, calls: seq<Call>, id: int, n: nat)
    requires Shaped(calls) && n <= |calls|
  {
    exists m :: 0 <= m < n && CallStrikes(t, hub, calls, id, m)
  }

  /** From `t` to `u` the key is or is not stored, and its history insertion does or does not fail. */
  ghost predicate Outcome(t: Tables, u: Tables, hub: string, id: int, stored: bool, struck: bool) {
    && ((hub, id) in u.synced <==> (hub, id) in t.synced || stored)
    && (stored ==> (hub, id) !in t.synced) && (struck ==> stored)
    && CountOf(u.history, hub, id) == CountOf(t.history, hub, id) + if stored && !struck then 1 else 0
  }

  lemma OutcomesJoin(t: Tables, u: Tables, v: Tables, hub: string, id: int, a: bool, b: bool, c: bool, d: bool)
    requires Outcome(t, u, hub, id, a, b) && Outcome(u, v, hub, id, c, d)
    ensures Outcome(t, v, hub, id, a || c, b || d)
  {
  }

  lemma AttemptOutcome(t: Tables, hub: string, e: Event, clock: Clock, fault: Option<Moment>, id: int)
    ensures var found := Complete(e) && e.originId == id && (hub, id) !in t.synced;
            Outcome(t, Attempt(t, hub, e, clock, fault).0, hub, id, found &&
              fault !in {Some(AtLookup), Some(AtSyncInsert)},
                    found && fault == Some(AtHistoryInsert))
  {
    CountStep(t.history, HistoryOf(hub, e, clock.stamp), hub, id);
  }

  lemma NextEvent(t: Tables, hub: string, c: Call, n: nat)
    requires Fits(c) && n < |c.events|
    ensures var s, u := RunCall(t, hub, Before(c, n)), RunCall(t, hub, Before(c, n + 1));
            u.tables == if s.thrown then s.tables else Attempt(s.tables, hub, c.events[n], c.clocks[n], c.faults[n]).0
    ensures RunCall(t, hub, Before(c, n)).thrown ==> RunCall(t, hub, Before(c, n + 1)).thrown
  {
    var d := Before(c, n + 1);
    assert d.events[..n] == c.events[..n] && d.clocks[..n] == c.clocks[..n] && d.faults[..n] == c.faults[..n];
  }

  lemma EventOutcome(t: Tables, hub: string, c: Call, id: int, k: nat)
    requires Fits(c) && k < |c.events|
    ensures Outcome(RunCall(t, hub, Before(c, k)).tables, RunCall(t, hub, Before(c, k + 1)).tables, hub, id,
                    StoredAt(t, hub, c, id, k), StruckAt(t, hub, c, id, k))
  {
    var s := RunCall(t, hub, Before(c, k));
    NextEvent(t, hub, c, k);
    if !s.thrown {
      AttemptOutcome(s.tables, hub, c.events[k], c.clocks[k], c.faults[k], id);
    }
  }

  lemma MoreStored(t: Tables, hub: string, c: Call, id: int, k: nat)
    requires Fits(c) && k < |c.events|
    ensures StoredIn(t, hub, c, id, k + 1) == (StoredIn(t, hub, c, id, k) || StoredAt(t, hub, c, id, k))
  {
  }

  lemma MoreStruck(t: Tables, hub: string, c: Call, id: int, k: nat)
    requires Fits(c) && k < |c.events|
    ensures StruckIn(t, hub, c, id, k + 1) == (StruckIn(t, hub, c, id, k) || StruckAt(t, hub, c, id, k))
  {
  }

  lemma {:induction false} CallOutcome(t: Tables, hub: string, c: Call, id: int, n: nat)
    requires Fits(c) && n <= |c.events|
    ensures Outcome(t, RunCall(t, hub, Before(c, n)).tables, hub, id, StoredIn(t, hub, c, id, n),
            StruckIn(t, hub, c, id, n))
  {
    if n == 0 {
      assert RunCall(t, hub, Before(c, 0)).tables == t;
    } else {
      var k := n - 1;
      CallOutcome(t, hub, c, id, k);
      EventOutcome(t, hub, c, id, k);
      MoreStored(t, hub, c, id, k);
      MoreStruck(t, hub, c, id, k);
      OutcomesJoin(t, RunCall(t, hub, Before(c, k)).tables, RunCall(t, hub, Before(c, n)).tables, hub, id,
                   StoredIn(t, hub, c, id, k), StruckIn(t, hub, c, id, k), StoredAt(t, hub, c, id, k),
                     StruckAt(t, hub, c, id, k));
    }
  }

  lemma NextCall(t: Tables, hub: string, calls: seq<Call>, n: nat)
    requires Shaped(calls) && n < |calls|
    ensures Fits(calls[n]) && RunCalls(t, hub, calls[..n + 1]) ==
            RunCall(RunCalls(t, hub, calls[..n]), hub, calls[n]).tables
  {
    assert calls[..n + 1][..n] == calls[..n];
  }

  lemma OneCallOutcome(t: Tables, hub: string, calls: seq<Call>, id: int, k: nat)
    requires Shaped(calls) && k < |calls|
    ensures Outcome(RunCalls(t, hub, calls[..k]), RunCalls(t, hub, calls[..k + 1]), hub, id,
                    CallStores(t, hub, calls, id, k), CallStrikes(t, hub, calls, id, k))
  {
    var c := calls[k];
    NextCall(t, hub, calls, k);
    CallOutcome(RunCalls(t, hub, calls[..k]), hub, c, id, |c.events|);
    assert Before(c, |c.events|) == c;
  }

  lemma MoreCallsStored(t: Tables, hub: string, calls: seq<Call>, id: int, k: nat)
    requires Shaped(calls) && k < |calls|
    ensures EverStored(t, hub, calls, id, k + 1) == (EverStored(t, hub, calls, id, k) ||
            CallStores(t, hub, calls, id, k))
  {
  }

  lemma MoreCallsStruck(t: Tables, hub: string, calls: seq<Call>, id: int, k: nat)
    requires Shaped(calls) && k < |calls|
    ensures EverStruck(t, hub, calls, id, k + 1) == (EverStruck(t, hub, calls, id, k) ||
            CallStrikes(t, hub, calls, id, k))
  {
  }

  /** Over any run of calls with any faults: the key is stored exactly when some call gets past its
      insertion, and the history gains exactly one row then, unless the insertion of that row failed. */
  lemma {:induction false} RunOutcome(t: Tables, hub: string, calls: seq<Call>, id: int, n: nat)
    requires Shaped(calls) && n <= |calls|
    ensures Outcome(t, RunCalls(t, hub, calls[..n]), hub, id, EverStored(t, hub, calls, id, n),
            EverStruck(t, hub, calls, id, n))
  {
    if n == 0 {
      assert RunCalls(t, hub, calls[..0]) == t;
    } else {
      var k := n - 1;
      RunOutcome(t, hub, calls, id, k);
      OneCallOutcome(t, hub, calls, id, k);
      MoreCallsStored(t, hub, calls, id, k);
      MoreCallsStruck(t, hub, calls, id, k);
      OutcomesJoin(t, RunCalls(t, hub, calls[..k]), RunCalls(t, hub, calls[..n]), hub, id,
                   EverStored(t, hub, calls, id, k), EverStruck(t, hub, calls, id, k),
                   CallStores(t, hub, calls, id, k), CallStrikes(t, hub, calls, id, k));
    }
  }

  /** An id that is in the history once if its key is stored, and not at all otherwise. */
  ghost predicate Tracked(t: Tables, hub: string, id: int)
  {
    CountOf(t.history, hub, id) == if (hub, id) in t.synced then 1 else 0
  }

  /** An event whose key is stored is missing from the history exactly when a call that found it new failed
      at its history insertion; otherwise it is there once. */
  lemma LostIffStruck(t: Tables, hub: string, calls: seq<Call>, id: int)
    requires Shaped(calls) && Tracked(t, hub, id)
    ensures var u, struck := RunCalls(t, hub, calls), EverStruck(t, hub, calls, id, |calls|);
            && ((hub, id) in u.synced <==> (hub, id) in t.synced || EverStored(t, hub, calls, id, |calls|))
            && CountOf(u.history, hub, id) == (if (hub, id) in u.synced && !struck then 1 else 0)
            && (struck ==> (hub, id) in u.synced)
  {
    RunOutcome(t, hub, calls, id, |calls|);
    assert calls[..|calls|] == calls;
  }

  /** Once the dedup key of an event is stored, no number of later calls changes how often the event is in
      the history: an event whose history insertion failed is lost for good. */
  lemma SyncedIsFinal(t: Tables, hub: string, calls: seq<Call>, id: int)
    requires Shaped(calls) && (hub, id) in t.synced
    ensures var u := RunCalls(t, hub, calls);
            (hub, id) in u.synced && CountOf(u.history, hub, id) == CountOf(t.history, hub, id)
  {
    RunOutcome(t, hub, calls, id, |calls|);
    assert calls[..|calls|] == calls;
  }

  /** A new event that fails once and is retried is in the history exactly when the fault did not strike at
      its history insertion, and updates the current row exactly when it struck before the dedup key was
      stored or not at all. */
  lemma RetriedEvent(t: Tables, hub: string, e: Event, first: Clock, fault: Option<Moment>, later: Clock)
    requires Complete(e) && (hub, e.originId) !in t.synced && CountOf(t.history, hub, e.originId) == 0
    ensures var (u, verdict) := Attempt(t, hub, e, first, fault);
            var v := Relay(u, hub, e, later).0;
            && (hub, e.originId) in v.synced
            && CountOf(v.history, hub, e.originId) == (if fault == Some(AtHistoryInsert) then 0 else 1)
            && v.current == (if verdict.Some? then Updated(t, hub, e, first.now)
                             else if fault in {Some(AtLookup), Some(AtSyncInsert)} then Updated(t, hub, e, later.now)
                             else t.current)
  {
    CountStep(t.history, HistoryOf(hub, e, first.stamp), hub, e.originId);
    CountStep(t.history, HistoryOf(hub, e, later.stamp), hub, e.originId);
  }

  // ---- Convergence --------------------------------------------------------

  /** Nothing of this hub is stored yet. */
  ghost predicate Untouched(t: Tables, hub: string) {
    (forall a :: (hub, a) !in t.current) && (forall i :: (hub, i) !in t.synced) && forall h :: h in t.history ==>
      h.originHub != Some(hub)
  }

  /** Among complete events an origin id determines its event, and timestamps parse. */
  ghost predicate Sourced(events: seq<Event>) {
    (forall e, f :: e in events && f in events && Complete(e) && Complete(f) && e.originId == f.originId ==> e == f) &&
    forall e :: e in events && Complete(e) ==> ParseTimestampUtcMs(e.timestampUtc).Some?
  }

  /** No two events of one agent carry the same timestamp. */
  ghost predicate DistinctStamps(events: seq<Event>) {
    forall e, f :: e in events && f in events && Complete(e) && Complete(f) ==>
      e.agent == f.agent && e.timestampUtc == f.timestampUtc ==> e == f
  }

  predicate Reported(events: seq<Event>, agent: string, e: Event) { e in events && Complete(e) && e.agent == agent }

  /** The agent's event with the greatest timestamp. */
  ghost predicate Newest(events: seq<Event>, agent: string, e: Event) {
    Reported(events, agent, e) && forall f :: Reported(events, agent, f) ==> !Less(e.timestampUtc, f.timestampUtc)
  }

  predicate Carries(events: seq<Event>, e: Event, i: int) { e in events && Complete(e) && e.originId == i }

  ghost predicate AgentOk(t: Tables, hub: string, events: seq<Event>, a: string) {
    if (hub, a) in t.current then exists e :: Newest(events, a, e) && t.current[(hub, a)] == RowOf(hub, e, 0, None)
    else forall e :: !Reported(events, a, e)
  }

  ghost predicate IdOk(t: Tables, hub: string, events: seq<Event>, i: int) {
    ((hub, i) in t.synced <==> exists e :: Carries(events, e, i)) &&
    CountOf(t.history, hub, i) == if (hub, i) in t.synced then 1 else 0
  }

  ghost predicate SameElsewhere(t: Tables, base: Tables, hub: string) {
    (forall k: (string, int) :: k.0 != hub ==> (k in t.synced <==> k in base.synced)) &&
    (forall k: Key :: k.0 != hub ==>
      (k in t.current <==> k in base.current) && (k in t.current ==> t.current[k] == base.current[k]))
  }

  /** The hub's rows say exactly what the events say, whatever their order and repetition. */
  ghost predicate Reflects(t: Tables, base: Tables, hub: string, events: seq<Event>) {
    (forall i :: IdOk(t, hub, events, i)) && (forall a :: AgentOk(t, hub, events, a)) && SameElsewhere(t, base, hub)
  }

  lemma {:induction false} NoneCounted(history: seq<HistoryRow>, hub: string, id: int)
    requires forall h :: h in history ==> h.originHub != Some(hub)
    ensures CountOf(history, hub, id) == 0
  {
    if history == [] {
    } else {
      assert history[|history| - 1] in history;
      NoneCounted(history[..|history| - 1], hub, id);
    }
  }

  lemma CarriesStep(events: seq<Event>, e: Event, i: int)
    ensures (exists f :: Carries(events + [e], f, i)) <==>
            (exists f :: Carries(events, f, i)) || (Complete(e) && e.originId == i)
  {
    if f :| Carries(events, f, i) {
      assert Carries(events + [e], f, i);
    }
    if Complete(e) && e.originId == i {
      assert Carries(events + [e], e, i);
    }
    forall f | Carries(events + [e], f, i) && f != e ensures Carries(events, f, i) {
    }
  }

  lemma IdStep(t: Tables, hub: string, events: seq<Event>, e: Event, clock: Clock, i: int)
    requires IdOk(t, hub, events, i)
    ensures IdOk(Relay(t, hub, e, clock).0, hub, events + [e], i)
  {
    CarriesStep(events, e, i);
    if Complete(e) && (hub, e.originId) !in t.synced {
      CountStep(t.history, HistoryOf(hub, e, clock.stamp), hub, i);
    } else {
      assert Relay(t, hub, e, clock).0 == t;
    }
  }

  lemma NotLessTransitive(x: string, y: string, z: string)
    requires !Less(x, y) && !Less(y, z)
    ensures !Less(x, z)
  {
    LessTotal(x, y);
    if Less(y, x) && Less(x, z) {
      LessTransitive(y, x, z);
    }
  }

  lemma NotBeaten(e: string, f: string, g: string)
    requires !Less(f, g) || g == e
    ensures !Less(if Less(e, f) then f else e, g)
  {
    LessIrreflexive(e);
    if Less(e, f) && g == e {
      LessAsymmetric(e, f);
    } else if !Less(e, f) && g != e {
      NotLessTransitive(e, f, g);
    }
  }

  lemma NewestStep(events: seq<Event>, e: Event, f: Event)
    requires Newest(events, e.agent, f) && Complete(e)
    ensures Newest(events + [e], e.agent, if Less(e.timestampUtc, f.timestampUtc) then f else e)
  {
    var winner := if Less(e.timestampUtc, f.timestampUtc) then f else e;
    assert Reported(events + [e], e.agent, winner);
    forall g | Reported(events + [e], e.agent, g) ensures !Less(winner.timestampUtc, g.timestampUtc) {
      assert g == e || Reported(events, e.agent, g);
      NotBeaten(e.timestampUtc, f.timestampUtc, g.timestampUtc);
    }
  }

  lemma WinnerStep(t: Tables, hub: string, events: seq<Event>, e: Event, now: int)
    requires AgentOk(t, hub, events, e.agent) && Sourced(events + [e]) && Complete(e)
    ensures var c := Updated(t, hub, e, now);
            (hub, e.agent) in c && exists f ::
              Newest(events + [e], e.agent, f) && c[(hub, e.agent)] == RowOf(hub, f, 0, None)
  {
    var c, key := Updated(t, hub, e, now), (hub, e.agent);
    assert e in events + [e];
    if key in t.current {
      var f :| Newest(events, e.agent, f) && t.current[key] == RowOf(hub, f, 0, None);
      NewestStep(events, e, f);
      assert Wins(t, hub, e) ==> c[key] == RowOf(hub, e, 0, None);
    } else {
      LessIrreflexive(e.timestampUtc);
      forall g | Reported(events + [e], e.agent, g) ensures g == e {
        assert !Reported(events, e.agent, g);
      }
      assert Newest(events + [e], e.agent, e) && c[key] == RowOf(hub, e, 0, None);
    }
  }

  lemma AgentSame(t: Tables, hub: string, events: seq<Event>, e: Event, a: string)
    requires AgentOk(t, hub, events, a) && (a != e.agent || !Complete(e) || e in events)
    ensures AgentOk(t, hub, events + [e], a)
  {
    var all := events + [e];
    assert forall f :: Reported(all, a, f) <==> Reported(events, a, f);
    if (hub, a) in t.current {
      var f :| Newest(events, a, f) && t.current[(hub, a)] == RowOf(hub, f, 0, None);
      assert Newest(all, a, f);
    }
  }

  lemma AgentStep(t: Tables, hub: string, events: seq<Event>, e: Event, clock: Clock, a: string)
    requires AgentOk(t, hub, events, a) && IdOk(t, hub, events, e.originId) && Sourced(events + [e])
    ensures AgentOk(Relay(t, hub, e, clock).0, hub, events + [e], a)
  {
    if !Complete(e) {
      AgentSame(t, hub, events, e, a);
    } else if (hub, e.originId) in t.synced {
      var f :| Carries(events, f, e.originId);
      assert f in events + [e] && e in events + [e];
      AgentSame(t, hub, events, e, a);
    } else if a == e.agent {
      WinnerStep(t, hub, events, e, clock.now);
    } else {
      AgentSame(t, hub, events, e, a);
      var u := Relay(t, hub, e, clock).0;
      assert (hub, a) in u.current <==> (hub, a) in t.current;
    }
  }

  lemma IdsReflected(t: Tables, hub: string, events: seq<Event>, e: Event, clock: Clock)
    requires forall i :: IdOk(t, hub, events, i)
    ensures forall i :: IdOk(Relay(t, hub, e, clock).0, hub, events + [e], i)
  {
    forall i ensures IdOk(Relay(t, hub, e, clock).0, hub, events + [e], i) {
      IdStep(t, hub, events, e, clock, i);
    }
  }

  lemma AgentsReflected(t: Tables, hub: string, events: seq<Event>, e: Event, clock: Clock)
    requires Sourced(events + [e]) && (forall i :: IdOk(t, hub, events, i)) && (forall a :: AgentOk(t, hub, events, a))
    ensures forall a :: AgentOk(Relay(t, hub, e, clock).0, hub, events + [e], a)
  {
    forall a ensures AgentOk(Relay(t, hub, e, clock).0, hub, events + [e], a) {
      AgentStep(t, hub, events, e, clock, a);
    }
  }

  lemma ElsewhereStays(t: Tables, base: Tables, hub: string, e: Event, clock: Clock)
    requires SameElsewhere(t, base, hub)
    ensures SameElsewhere(Relay(t, hub, e, clock).0, base, hub)
  {
  }

  lemma RelayReflects(t: Tables, base: Tables, hub: string, events: seq<Event>, e: Event, clock: Clock)
    requires Reflects(t, base, hub, events) && Sourced(events + [e])
    ensures Reflects(Relay(t, hub, e, clock).0, base, hub, events + [e])
  {
    IdsReflected(t, hub, events, e, clock);
    AgentsReflected(t, hub, events, e, clock);
    ElsewhereStays(t, base, hub, e, clock);
  }

  /** After any relay of well-sourced events into tables without traces of the hub, each agent's
      current row is its newest event's and each origin id has exactly one history row. */
  lemma {:induction false} RelayAllReflects(base: Tables, hub: string, events: seq<Event>, clocks: seq<Clock>)
    requires |events| == |clocks| && Untouched(base, hub) && Sourced(events)
    ensures Reflects(RelayAll(base, hub, events, clocks), base, hub, events)
  {
    if events == [] {
      forall i ensures IdOk(base, hub, [], i) {
        NoneCounted(base.history, hub, i);
      }
    } else {
      var n := |events| - 1;
      var init, e := events[..n], events[n];
      assert forall f :: f in init ==> f in events;
      RelayAllReflects(base, hub, init, clocks[..n]);
      assert init + [e] == events;
      var t := RelayAll(base, hub, init, clocks[..n]);
      RelayReflects(t, base, hub, init, e, clocks[n]);
    }
  }

  // The end state depends on an agent's events with the greatest timestamp alone.

  /** All of an agent's events that carry its greatest timestamp make the same row. */
  ghost predicate TopsAgree(hub: string, events: seq<Event>) {
    forall a, e, f :: Newest(events, a, e) && Newest(events, a, f) ==> RowOf(hub, e, 0, None) == RowOf(hub, f, 0, None)
  }

  lemma DistinctStampsAgree(hub: string, events: seq<Event>)
    requires DistinctStamps(events)
    ensures TopsAgree(hub, events)
  {
    forall a, e, f | Newest(events, a, e) && Newest(events, a, f)
      ensures RowOf(hub, e, 0, None) == RowOf(hub, f, 0, None) {
      LessTotal(e.timestampUtc, f.timestampUtc);
    }
  }

  ghost predicate SameEvents(a: seq<Event>, b: seq<Event>) { forall e :: e in a <==> e in b }

  lemma SameNewest(a: seq<Event>, b: seq<Event>, agent: string, e: Event)
    requires SameEvents(a, b)
    ensures Newest(a, agent, e) <==> Newest(b, agent, e)
  {
    assert forall f :: Reported(a, agent, f) <==> Reported(b, agent, f);
  }

  lemma SameWinner(t: Tables, u: Tables, hub: string, a: seq<Event>, b: seq<Event>, agent: string)
    requires TopsAgree(hub, a) && SameEvents(a, b)
    requires AgentOk(t, hub, a, agent) && AgentOk(u, hub, b, agent)
    ensures (hub, agent) in t.current <==> (hub, agent) in u.current
    ensures (hub, agent) in t.current ==> t.current[(hub, agent)] == u.current[(hub, agent)]
  {
    assert forall e :: Reported(a, agent, e) <==> Reported(b, agent, e);
    if (hub, agent) in t.current && (hub, agent) in u.current {
      var e :| Newest(a, agent, e) && t.current[(hub, agent)] == RowOf(hub, e, 0, None);
      var f :| Newest(b, agent, f) && u.current[(hub, agent)] == RowOf(hub, f, 0, None);
      SameNewest(a, b, agent, f);
    }
  }

  lemma SameCurrent(t: Tables, u: Tables, base: Tables, hub: string, a: seq<Event>, b: seq<Event>)
    requires Reflects(t, base, hub, a) && Reflects(u, base, hub, b) && TopsAgree(hub, a) && SameEvents(a, b)
    ensures t.current == u.current
  {
    forall k: Key
      ensures k in t.current <==> k in u.current
      ensures k in t.current ==> t.current[k] == u.current[k]
    {
      if k.0 == hub {
        assert k == (hub, k.1) && AgentOk(t, hub, a, k.1) && AgentOk(u, hub, b, k.1);
        SameWinner(t, u, hub, a, b, k.1);
      }
    }
  }

  lemma SameIds(t: Tables, u: Tables, base: Tables, hub: string, a: seq<Event>, b: seq<Event>)
    requires Reflects(t, base, hub, a) && Reflects(u, base, hub, b) && SameEvents(a, b)
    ensures t.synced == u.synced
    ensures forall i :: CountOf(t.history, hub, i) == CountOf(u.history, hub, i) <= 1
  {
    forall k: (string, int) ensures k in t.synced <==> k in u.synced {
      if k.0 == hub {
        assert k == (hub, k.1) && IdOk(t, hub, a, k.1) && IdOk(u, hub, b, k.1);
        assert forall e :: Carries(a, e, k.1) <==> Carries(b, e, k.1);
      }
    }
    forall i ensures CountOf(t.history, hub, i) == CountOf(u.history, hub, i) <= 1 {
      assert IdOk(t, hub, a, i) && IdOk(u, hub, b, i);
    }
  }

  lemma SourcedTogether(a: seq<Event>, b: seq<Event>)
    requires Sourced(a) && SameEvents(a, b)
    ensures Sourced(b)
  {
  }

  /** Any two deliveries of the same events, in any order, batching and duplication, end with the
      same dedup keys and the same number of history rows per origin id, and with the same current rows
      when the events with greatest timestamps agree. */
  lemma RelayConverges(base: Tables, hub: string, a: seq<Event>, b: seq<Event>, ca: seq<Clock>, cb: seq<Clock>)
    requires |a| == |ca| && |b| == |cb| && Untouched(base, hub) && Sourced(a) && SameEvents(a, b)
    ensures var t, u := RelayAll(base, hub, a, ca), RelayAll(base, hub, b, cb);
            && (TopsAgree(hub, a) ==> t.current == u.current)
            && t.synced == u.synced && forall i :: CountOf(t.history, hub, i) == CountOf(u.history, hub, i) <= 1
  {
    SourcedTogether(a, b);
    RelayAllReflects(base, hub, a, ca);
    RelayAllReflects(base, hub, b, cb);
    var t, u := RelayAll(base, hub, a, ca), RelayAll(base, hub, b, cb);
    SameIds(t, u, base, hub, a, b);
    if TopsAgree(hub, a) {
      SameCurrent(t, u, base, hub, a, b);
    }
  }

  /** `b` delivers these events, each at least once. */
  ghost predicate Delivers(events: seq<Event>, b: seq<Event>, cb: seq<Clock>) { |b| == |cb| && SameEvents(events, b) }

  /** Every delivery of the events ends with the same current rows. */
  ghost predicate Converges(base: Tables, hub: string, events: seq<Event>) {
    forall b, cb, c, cc :: Delivers(events, b, cb) && Delivers(events, c, cc) ==>
      RelayAll(base, hub, b, cb).current == RelayAll(base, hub, c, cc).current
  }

  function Others(events: seq<Event>, e: Event): (r: seq<Event>)
    ensures forall f :: f in r <==> f in events && f != e
  {
    if events == [] then []
    else
      var n := |events| - 1;
      Others(events[..n], e) + if events[n] == e then [] else [events[n]]
  }

  lemma RelaySnoc(base: Tables, hub: string, events: seq<Event>, clocks: seq<Clock>, e: Event, clock: Clock)
    requires |events| == |clocks|
    ensures RelayAll(base, hub, events + [e], clocks + [clock]) ==
            Relay(RelayAll(base, hub, events, clocks), hub, e, clock).0
  {
    assert (events + [e])[..|events|] == events && (clocks + [clock])[..|clocks|] == clocks;
  }

  lemma NotYetSynced(t: Tables, hub: string, events: seq<Event>, others: seq<Event>, e: Event)
    requires Sourced(events) && e in events && Complete(e) && IdOk(t, hub, others, e.originId)
    requires forall f :: f in others ==> f in events && f != e
    ensures (hub, e.originId) !in t.synced
  {
  }

  lemma NewestWins(t: Tables, hub: string, events: seq<Event>, others: seq<Event>, e: Event)
    requires Newest(events, e.agent, e) && AgentOk(t, hub, others, e.agent) && (forall f :: f in others ==> f in events)
    ensures Wins(t, hub, e) && ((hub, e.agent) in t.current ==> t.current[(hub, e.agent)].networkContext == None)
  {
    if (hub, e.agent) in t.current {
      var g :| Newest(others, e.agent, g) && t.current[(hub, e.agent)] == RowOf(hub, g, 0, None);
      assert Reported(events, e.agent, g);
    }
  }

  lemma OneMoreDelivered(events: seq<Event>, others: seq<Event>, e: Event)
    requires e in events && forall f :: f in others <==> f in events && f != e
    ensures SameEvents(events, others + [e])
  {
    assert forall f :: f in others + [e] <==> f in others || f == e;
  }

  lemma WinsAtTheEnd(base: Tables, hub: string, events: seq<Event>, others: seq<Event>, clocks: seq<Clock>, e: Event,
      clock: Clock)
    requires Untouched(base, hub) && Sourced(events) && Newest(events, e.agent, e) && |others| == |clocks|
    requires forall f :: f in others ==> f in events && f != e
    ensures var c := RelayAll(base, hub, others + [e], clocks + [clock]).current;
            (hub, e.agent) in c && c[(hub, e.agent)] == RowOf(hub, e, 0, None)
  {
    var t := RelayAll(base, hub, others, clocks);
    RelayAllReflects(base, hub, others, clocks);
    NotYetSynced(t, hub, events, others, e);
    NewestWins(t, hub, events, others, e);
    RelaySnoc(base, hub, others, clocks, e, clock);
  }

  /** Delivered after all the others, one of an agent's newest events makes the agent's row. */
  lemma LastWins(base: Tables, hub: string, events: seq<Event>, e: Event, clock: Clock)
      returns (b: seq<Event>, cb: seq<Clock>)
    requires Untouched(base, hub) && Sourced(events) && Newest(events, e.agent, e)
    ensures Delivers(events, b, cb)
    ensures var c := RelayAll(base, hub, b, cb).current;
            (hub, e.agent) in c && c[(hub, e.agent)] == RowOf(hub, e, 0, None)
  {
    var others := Others(events, e);
    var clocks := seq(|others|, _ => clock);
    b, cb := others + [e], clocks + [clock];
    OneMoreDelivered(events, others, e);
    WinsAtTheEnd(base, hub, events, others, clocks, e, clock);
  }

  lemma AgreementMoves(hub: string, a: seq<Event>, b: seq<Event>)
    requires TopsAgree(hub, a) && SameEvents(a, b)
    ensures TopsAgree(hub, b)
  {
    forall agent, e, f | Newest(b, agent, e) && Newest(b, agent, f)
      ensures RowOf(hub, e, 0, None) == RowOf(hub, f, 0, None) {
      SameNewest(a, b, agent, e);
      SameNewest(a, b, agent, f);
    }
  }

  /** Delivery converges exactly when, for every agent, all events with its greatest timestamp make the
      same row. */
  lemma ConvergesIffTopsAgree(base: Tables, hub: string, events: seq<Event>)
    requires Untouched(base, hub) && Sourced(events)
    ensures Converges(base, hub, events) <==> TopsAgree(hub, events)
  {
    if TopsAgree(hub, events) {
      forall b, cb, c, cc | Delivers(events, b, cb) && Delivers(events, c, cc)
        ensures RelayAll(base, hub, b, cb).current == RelayAll(base, hub, c, cc).current
      {
        AgreementMoves(hub, events, b);
        SourcedTogether(events, b);
        RelayConverges(base, hub, b, c, cb, cc);
      }
    }
    if Converges(base, hub, events) {
      forall a, e, f | Newest(events, a, e) && Newest(events, a, f)
        ensures RowOf(hub, e, 0, None) == RowOf(hub, f, 0, None) {
        var b, cb := LastWins(base, hub, events, e, Clock(0, ""));
        var c, cc := LastWins(base, hub, events, f, Clock(0, ""));
      }
    }
  }

  /** Without ties delivery converges. */
  lemma DistinctStampsConverge(base: Tables, hub: string, events: seq<Event>)
    requires Untouched(base, hub) && Sourced(events) && DistinctStamps(events)
    ensures Converges(base, hub, events)
  {
    DistinctStampsAgree(hub, events);
    ConvergesIffTopsAgree(base, hub, events);
  }

  // What current rows show after faults: the accepted events.

  datatype Delivery = Delivery(events: seq<Event>, clocks: seq<Clock>)

  /** The events among a call's first `n` that are answered as accepted. */
  function AcceptedIn(t: Tables, hub: string, c: Call, n: nat): (d: Delivery)
    requires Fits(c) && n <= |c.events|
    ensures |d.events| == |d.clocks|
  {
    if n == 0 then Delivery([], [])
    else
      var k := n - 1;
      var d, s := AcceptedIn(t, hub, c, k), RunCall(t, hub, Before(c, k));
      if !s.thrown && Attempt(s.tables, hub, c.events[k], c.clocks[k], c.faults[k]).1 == Some(Accepted)
      then Delivery(d.events + [c.events[k]], d.clocks + [c.clocks[k]])
      else d
  }

  /** The events that a run of calls accepts. */
  function AcceptedOver(t: Tables, hub: string, calls: seq<Call>): (d: Delivery)
    requires Shaped(calls)
    ensures |d.events| == |d.clocks|
  {
    if calls == [] then Delivery([], [])
    else
      var n := |calls| - 1;
      var d, last := AcceptedOver(t, hub, calls[..n]),
        AcceptedIn(RunCalls(t, hub, calls[..n]), hub, calls[n], |calls[n].events|);
      Delivery(d.events + last.events, d.clocks + last.clocks)
  }

  ghost predicate Mirrors(w: Tables, u: Tables) { w.current == u.current && w.synced <= u.synced }

  lemma AttemptMirrors(w: Tables, t: Tables, hub: string, e: Event, clock: Clock, fault: Option<Moment>)
    requires Mirrors(w, t)
    ensures var (u, verdict) := Attempt(t, hub, e, clock, fault);
            Mirrors(if verdict == Some(Accepted) then Relay(w, hub, e, clock).0 else w, u)
  {
  }

  lemma {:induction false} CallMirrors(w: Tables, t: Tables, hub: string, c: Call, n: nat)
    requires Fits(c) && n <= |c.events| && Mirrors(w, t)
    ensures var d := AcceptedIn(t, hub, c, n);
            Mirrors(RelayAll(w, hub, d.events, d.clocks), RunCall(t, hub, Before(c, n)).tables)
  {
    if n == 0 {
      assert RunCall(t, hub, Before(c, 0)).tables == t;
    } else {
      var k := n - 1;
      var d, s := AcceptedIn(t, hub, c, k), RunCall(t, hub, Before(c, k));
      CallMirrors(w, t, hub, c, k);
      NextEvent(t, hub, c, k);
      AttemptMirrors(RelayAll(w, hub, d.events, d.clocks), s.tables, hub, c.events[k], c.clocks[k], c.faults[k]);
      RelaySnoc(w, hub, d.events, d.clocks, c.events[k], c.clocks[k]);
    }
  }

  lemma WholeCallMirrors(w: Tables, t: Tables, hub: string, c: Call)
    requires Fits(c) && Mirrors(w, t)
    ensures var d := AcceptedIn(t, hub, c, |c.events|);
            Mirrors(RelayAll(w, hub, d.events, d.clocks), RunCall(t, hub, c).tables)
  {
    CallMirrors(w, t, hub, c, |c.events|);
    assert Before(c, |c.events|) == c;
  }

  lemma {:induction false} RunMirrors(t: Tables, hub: string, calls: seq<Call>)
    requires Shaped(calls)
    ensures var d := AcceptedOver(t, hub, calls); Mirrors(RelayAll(t, hub, d.events, d.clocks), RunCalls(t, hub, calls))
  {
    if calls == [] {
    } else {
      var n := |calls| - 1;
      var d, before := AcceptedOver(t, hub, calls[..n]), RunCalls(t, hub, calls[..n]);
      var last := AcceptedIn(before, hub, calls[n], |calls[n].events|);
      RunMirrors(t, hub, calls[..n]);
      WholeCallMirrors(RelayAll(t, hub, d.events, d.clocks), before, hub, calls[n]);
      BatchingIrrelevant(t, hub, d.events, last.events, d.clocks, last.clocks);
    }
  }

  /** Whatever calls fail and wherever, each agent's current row is that of its newest accepted event. */
  lemma CurrentIsNewestAccepted(base: Tables, hub: string, calls: seq<Call>, agent: string)
    requires Shaped(calls) && Untouched(base, hub) && Sourced(AcceptedOver(base, hub, calls).events)
    ensures AgentOk(RunCalls(base, hub, calls), hub, AcceptedOver(base, hub, calls).events, agent)
  {
    var d := AcceptedOver(base, hub, calls);
    RunMirrors(base, hub, calls);
    RelayAllReflects(base, hub, d.events, d.clocks);
    assert AgentOk(RelayAll(base, hub, d.events, d.clocks), hub, d.events, agent);
  }

  lemma LastOfTwo(x: Event, y: Event, t: Tables, hub: string, c: Clock)
    requires Untouched(t, hub) && Complete(x) && Complete(y) && x.originId != y.originId
    requires x.agent == y.agent && x.timestampUtc == y.timestampUtc
    ensures var u := RelayAll(t, hub, [x, y], [c, c]).current;
            (hub, y.agent) in u && u[(hub, y.agent)].status == y.status
  {
    LessIrreflexive(x.timestampUtc);
    assert [x, y][..1] == [x] && [c, c][..1] == [c] && [x][..0] == [] && [c][..0] == [];
    assert RelayAll(t, hub, [], []) == t;
    var first := RelayAll(t, hub, [x], [c]);
    assert first == Relay(t, hub, x, c).0;
    assert RelayAll(t, hub, [x, y], [c, c]) == Relay(first, hub, y, c).0;
  }

  /** With equal timestamps the last one relayed wins, so the order shows. */
  lemma TiedTimestampsDiverge(x: Event, y: Event, t: Tables, hub: string, c: Clock)
    requires Untouched(t, hub) && Complete(x) && Complete(y) && x.originId != y.originId
    requires x.agent == y.agent && x.timestampUtc == y.timestampUtc && x.status != y.status
    ensures RelayAll(t, hub, [x, y], [c, c]).current != RelayAll(t, hub, [y, x], [c, c]).current
  {
    LastOfTwo(x, y, t, hub, c);
    LastOfTwo(y, x, t, hub, c);
  }
}
