/** The `BusLog` Durable Object: its tables as fields, its methods in the source's step-by-step form,
    each proved against the functions of the other modules. */
module BusLogObject {
  import opened Prelude
  import opened Timestamps
  import opened MessageStore
  import opened Reading
  import Presence = PresenceStore
  import Rate = RateLimit
  import opened Retention

  /** The answer of `/sync/push`'s storage call. */
  datatype PushAnswer = PushAnswer(lists: PushLists, cursor: nat)

  /** What the loop over one page holds after its first `j` rows. */
  function Gathered(found: seq<Row>, rows: seq<Row>, j: nat, tags: seq<string>): (r: seq<Row>)
    requires j <= |rows|
  {
    found + Matches(rows[..j], tags)
  }

  lemma GatherStep(found: seq<Row>, rows: seq<Row>, j: nat, tags: seq<string>)
    requires j < |rows|
    ensures Gathered(found, rows, j + 1, tags) ==
            if HasTags(rows[j], tags) then Gathered(found, rows, j, tags) + [rows[j]]
              else Gathered(found, rows, j, tags)
  {
    MatchesStep(rows, j, tags);
  }

  /** What is held when the limit is reached, or after the last row, is the page's result. */
  lemma GatherEnds(found: seq<Row>, rows: seq<Row>, j: nat, tags: seq<string>, n: nat)
    requires j <= |rows| && |Gathered(found, rows, j, tags)| <= n
    requires |Gathered(found, rows, j, tags)| == n || j == |rows|
    ensures Gathered(found, rows, j, tags) == First(found + Matches(rows, tags), n)
  {
    if j == |rows| {
      assert rows[..j] == rows;
    } else {
      PageCut(found, rows, j, tags);
    }
  }

  /** The loop over one page of `listMessages`: matches are appended until the limit is reached. */
  method ScanPage(rows: seq<Row>, tags: seq<string>, limit: int, found: seq<Row>) returns (out: seq<Row>)
    requires |found| < Max(limit, 1)
    ensures out == First(found + Matches(rows, tags), Max(limit, 1))
  {
    out := found;
    var j := 0;
    while j < |rows|
      invariant 0 <= j <= |rows|
      invariant out == Gathered(found, rows, j, tags) && |out| < Max(limit, 1)
    {
      GatherStep(found, rows, j, tags);
      if HasTags(rows[j], tags) {
        out := out + [rows[j]];
        if |out| >= limit {
          GatherEnds(found, rows, j + 1, tags, Max(limit, 1));
          return;
        }
      }
      j := j + 1;
    }
    GatherEnds(found, rows, j, tags, Max(limit, 1));
  }

  /** How far the scan has come: the candidates still to be read are those before `beforeSeq`. */
  ghost predicate ScanAt(messages: seq<Row>, q: Query, cutoff: string, scanned: nat, out: seq<Row>, beforeSeq: int) {
    var c := Candidates(messages, q, cutoff, MAX_SAFE_INTEGER);
    scanned <= |c| && Scanning(c, scanned, out, q.limit, AllTags(q)) &&
      Candidates(messages, q, cutoff, beforeSeq) == c[scanned..]
  }

  lemma ScanStops(messages: seq<Row>, q: Query, cutoff: string, scanned: nat, out: seq<Row>, beforeSeq: int)
    requires ScanAt(messages, q, cutoff, scanned, out, beforeSeq)
    requires scanned >= MAX_TAG_SCAN_ROWS || Candidates(messages, q, cutoff, beforeSeq) == []
    ensures Reverse(out) == Listed(messages, q, cutoff)
  {
    ScanEnds(Candidates(messages, q, cutoff, MAX_SAFE_INTEGER), scanned, out, q.limit, AllTags(q));
  }

  /** The next page is read before the last row of this one. */
  lemma NextBefore(messages: seq<Row>, q: Query, cutoff: string, scanned: nat, rows: seq<Row>)
    requires Ordered(messages) && rows != []
    requires var c := Candidates(messages, q, cutoff, MAX_SAFE_INTEGER);
             scanned + |rows| <= |c| && rows == c[scanned..scanned + |rows|]
    ensures Candidates(messages, q, cutoff, rows[|rows| - 1].seqNo) ==
            Candidates(messages, q, cutoff, MAX_SAFE_INTEGER)[scanned + |rows|..]
  {
    var c := Candidates(messages, q, cutoff, MAX_SAFE_INTEGER);
    assert rows[|rows| - 1] == c[scanned + |rows| - 1];
    CandidatesTail(messages, q, cutoff, MAX_SAFE_INTEGER, scanned + |rows|);
  }

  lemma ScanContinues(messages: seq<Row>, q: Query, cutoff: string, scanned: nat, out: seq<Row>, beforeSeq: int,
      rows: seq<Row>)
    requires Ordered(messages) && ScanAt(messages, q, cutoff, scanned, out, beforeSeq) && scanned < MAX_TAG_SCAN_ROWS
    requires rows == Limit(Candidates(messages, q, cutoff, beforeSeq), PageSize(q.limit)) && rows != []
    ensures scanned + |rows| <= |Candidates(messages, q, cutoff, MAX_SAFE_INTEGER)|
    ensures var next := First(out + Matches(rows, AllTags(q)), Max(q.limit, 1));
            if |next| >= q.limit || |rows| < PageSize(q.limit) then Reverse(next) == Listed(messages, q, cutoff)
            else ScanAt(messages, q, cutoff, scanned + |rows|, next, rows[|rows| - 1].seqNo)
  {
    var c := Candidates(messages, q, cutoff, MAX_SAFE_INTEGER);
    LimitIsSlice(c, scanned, rows, PageSize(q.limit));
    NextBefore(messages, q, cutoff, scanned, rows);
    PageEnds(c, scanned, out, q.limit, AllTags(q), rows);
  }

  /** One turn of the paging loop; `done` when it breaks. */
  method ScanTurn(messages: seq<Row>, q: Query, cutoff: string, scanned: nat, found: seq<Row>, beforeSeq: int)
      returns (done: bool, scanned': nat, out: seq<Row>, beforeSeq': int)
    requires Ordered(messages) && ScanAt(messages, q, cutoff, scanned, found, beforeSeq)
    ensures done ==> Reverse(out) == Listed(messages, q, cutoff)
    ensures !done ==> scanned < scanned' && ScanAt(messages, q, cutoff, scanned', out, beforeSeq')
  {
    var pageSize := PageSize(q.limit);
    done, scanned', out, beforeSeq' := true, scanned, found, beforeSeq;
    if scanned >= MAX_TAG_SCAN_ROWS {
      ScanStops(messages, q, cutoff, scanned, found, beforeSeq);
      return;
    }
    var rows := Limit(Candidates(messages, q, cutoff, beforeSeq), pageSize);
    if |rows| == 0 {
      ScanStops(messages, q, cutoff, scanned, found, beforeSeq);
      return;
    }
    ScanContinues(messages, q, cutoff, scanned, found, beforeSeq, rows);
    scanned' := scanned + |rows|;
    out := ScanPage(rows, AllTags(q), q.limit, found);
    beforeSeq' := rows[|rows| - 1].seqNo;
    done := |out| >= q.limit || |rows| < pageSize;
  }

  /** The backward paging loop of `listMessages` with its scan budget. */
  method ScanMessages(messages: seq<Row>, q: Query, cutoff: string) returns (r: seq<Row>)
    requires Ordered(messages)
    ensures r == Listed(messages, q, cutoff)
  {
    var out: seq<Row> := [];
    var beforeSeq, scanned, done := MAX_SAFE_INTEGER, 0, false;
    while !done
      invariant done ==> Reverse(out) == Listed(messages, q, cutoff)
      invariant !done ==> ScanAt(messages, q, cutoff, scanned, out, beforeSeq)
      decreases !done, |Candidates(messages, q, cutoff, MAX_SAFE_INTEGER)| - scanned
    {
      done, scanned, out, beforeSeq := ScanTurn(messages, q, cutoff, scanned, out, beforeSeq);
    }
    return Reverse(out);
  }

  /** The transaction has handled the first `i` inputs. */
  ghost predicate BatchAt(before: Log, inputs: seq<Input>, envs: seq<Env>, i: nat, now: Log, results: seq<InsertResult>)
  {
    i <= |inputs| == |envs| && InsertAll(before, inputs[..i], envs[..i]) == BatchState(now, results, false)
  }

  lemma BatchStep(before: Log, inputs: seq<Input>, envs: seq<Env>, i: nat, log: Log, results: seq<InsertResult>,
      step: InsertResult, next: Log)
    requires BatchAt(before, inputs, envs, i, log, results) && i < |inputs|
    requires LogStep(next, step) == InsertDirect(log, inputs[i], envs[i])
    ensures if step.Failed? then InsertAll(before, inputs, envs).failed
            else BatchAt(before, inputs, envs, i + 1, next, results + [step])
  {
    assert inputs[..i + 1][..i] == inputs[..i] && envs[..i + 1][..i] == envs[..i];
    if step.Failed? {
      BatchFailureStays(before, inputs, envs, i + 1);
    }
  }

  /** The push has handled the first `i` items and these are the lists so far. */
  ghost predicate PushAt(before: Store, hub: string, items: seq<Input>, envs: seq<Env>, i: nat, now: Store,
      outcomes: seq<Outcome>, lists: PushLists)
  {
    && i <= |items| == |envs| && |outcomes| == i && lists.maxOriginSeq >= 0
    && Push(before, hub, items[..i], envs[..i]) == PushState(now, outcomes, lists.maxOriginSeq, false)
    && lists == ListsOf(items, PushState(now, outcomes, lists.maxOriginSeq, false))
  }

  /** The lists after one more outcome. */
  function Listing(l: PushLists, item: Input, outcome: Outcome): (r: PushLists) {
    var m := l.(maxOriginSeq := if !outcome.Rejected? && item.msg.originSeq.Some?
      then Max(l.maxOriginSeq, item.msg.originSeq.value) else l.maxOriginSeq);
    match outcome
    case Rejected(reason) => m.(rejected := l.rejected + [Rejection(item.msg.id, item.msg.clientMsgId, reason)])
    case Accepted => m.(accepted := l.accepted + [item.msg.id])
    case Conflict => m.(conflicts := l.conflicts + [item.msg.id])
    case Duplicate => m.(duplicates := l.duplicates + [item.msg.id])
  }

  lemma PushContinues(before: Store, hub: string, items: seq<Input>, envs: seq<Env>, i: nat, now: Store,
      outcomes: seq<Outcome>,
                      lists: PushLists, next: Store, outcome: Option<Outcome>)
    requires PushAt(before, hub, items, envs, i, now, outcomes, lists) && i < |items|
    requires PushItem(now, hub, items[i], envs[i]) == (next, outcome)
    ensures if outcome.None? then Push(before, hub, items, envs).aborted && Push(before, hub, items, envs).store == next
            else PushAt(before, hub, items, envs, i + 1, next, outcomes + [outcome.value],
              Listing(lists, items[i], outcome.value))
  {
    PushStep(before, hub, items, envs, i, PushState(now, outcomes, lists.maxOriginSeq, false), next, outcome);
    if outcome.None? {
      PushAbortStays(before, hub, items, envs, i + 1);
    } else {
      ListsStep(items, outcomes, outcome.value);
    }
  }

  /** The answer of `/sync/push-presence`'s storage call. */
  datatype PresenceAnswer = PresenceAnswer(accepted: nat, duplicates: nat, rejected: seq<int>)

  /** The counts of the verdicts, and the origin ids of the refused events. */
  function AnswerOf(events: seq<Presence.Event>, verdicts: seq<Presence.Verdict>): (a: PresenceAnswer)
    requires |verdicts| <= |events|
    ensures a.accepted + a.duplicates + |a.rejected| == |verdicts|
  {
    if verdicts == [] then PresenceAnswer(0, 0, [])
    else
      var n := |verdicts| - 1;
      var a := AnswerOf(events, verdicts[..n]);
      match verdicts[n]
      case Accepted => a.(accepted := a.accepted + 1)
      case Duplicate => a.(duplicates := a.duplicates + 1)
      case Rejected => a.(rejected := a.rejected + [events[n].originId])
  }

  lemma AnswerGrows(events: seq<Presence.Event>, verdicts: seq<Presence.Verdict>, last: Presence.Verdict)
    requires |verdicts| < |events|
    ensures var a := AnswerOf(events, verdicts);
            AnswerOf(events, verdicts + [last]) ==
              match last
              case Accepted => a.(accepted := a.accepted + 1)
              case Duplicate => a.(duplicates := a.duplicates + 1)
              case Rejected => a.(rejected := a.rejected + [events[|verdicts|].originId])
  {
    assert (verdicts + [last])[..|verdicts|] == verdicts;
  }

  /** The call has handled the first `i` events. */
  ghost predicate PresenceAt(before: Presence.Tables, hub: string, events: seq<Presence.Event>,
      clocks: seq<Presence.Clock>,
                             faults: seq<Option<Presence.Moment>>, i: nat, now: Presence.Tables,
                             verdicts: seq<Presence.Verdict>) {
    && i <= |events| == |clocks| == |faults| && |verdicts| == i
    && Presence.PushPresence(before, hub, events[..i], clocks[..i], faults[..i]) ==
      Presence.CallState(now, verdicts, false)
  }

  lemma PresenceContinues(before: Presence.Tables, hub: string, events: seq<Presence.Event>,
      clocks: seq<Presence.Clock>,
                          faults: seq<Option<Presence.Moment>>, i: nat, now: Presence.Tables,
                          verdicts: seq<Presence.Verdict>,
                          next: Presence.Tables, verdict: Option<Presence.Verdict>)
    requires PresenceAt(before, hub, events, clocks, faults, i, now, verdicts) && i < |events|
    requires Presence.Attempt(now, hub, events[i], clocks[i], faults[i]) == (next, verdict)
    ensures var c := Presence.PushPresence(before, hub, events, clocks, faults);
            if verdict.None? then c.thrown && c.tables == next
            else PresenceAt(before, hub, events, clocks, faults, i + 1, next, verdicts + [verdict.value])
  {
    assert events[..i + 1][..i] == events[..i] && clocks[..i + 1][..i] == clocks[..i] &&
           faults[..i + 1][..i] == faults[..i];
    if verdict.None? {
      Presence.ThrownStays(before, hub, events, clocks, faults, i + 1);
    }
  }

  class BusLog {
    var messages: seq<Row>
    var nextSeq: nat
    var pendingAcks: map<string, PendingAck>
    var syncCursors: SyncCursors
    var presence: map<Presence.Key, Presence.Row>
    var presenceHistory: seq<Presence.HistoryRow>
    var presenceSync: set<(string, int)>
    var rateCounters: Rate.Counters
    var alarmAt: Option<int>
    var initialized: bool
    const retentionDays: Days

    function Messages(): (r: Store)
      reads this
    {
      Store(messages, nextSeq)
    }

    function PresenceTables(): (r: Presence.Tables)
      reads this
    {
      Presence.Tables(presence, presenceHistory, presenceSync)
    }

    predicate Valid()
      reads this
    {
      MessageStore.Valid(Messages())
    }

    constructor (days: Days)
      ensures Valid() && Messages() == Store([], 1) && pendingAcks == map[] && syncCursors == map[]
      ensures PresenceTables() == Presence.Tables(map[], [], {}) && rateCounters == map[]
      ensures retentionDays == days && alarmAt == None && !initialized
    {
      messages, nextSeq, pendingAcks, syncCursors := [], 1, map[], map[];
      presence, presenceHistory, presenceSync := map[], [], {};
      rateCounters, alarmAt, initialized, retentionDays := map[], None, false, days;
    }

    /** Once per instance; a cold start resets `initialized` but nothing else. */
    method EnsureSchema(now: int)
      modifies this`initialized, this`alarmAt
      ensures initialized
      ensures alarmAt == if old(initialized) then old(alarmAt) else MaybeSchedule(old(alarmAt), retentionDays, now)
    {
      if initialized {
        return;
      }
      initialized := true;
      MaybeScheduleRetention(now);
    }

    method MaybeScheduleRetention(now: int)
      modifies this`alarmAt
      ensures alarmAt == MaybeSchedule(old(alarmAt), retentionDays, now)
      ensures old(alarmAt).Some? ==> alarmAt == old(alarmAt)
    {
      if retentionDays.None? || retentionDays.value <= 0 {
        return;
      }
      if alarmAt.Some? {
        return;
      }
      alarmAt := Some(now + MS_PER_DAY);
    }

    /** The runtime consumes a firing alarm before the handler runs. */
    method Alarm(now: int)
      requires Valid()
      modifies this`messages, this`presenceHistory, this`alarmAt
      ensures Valid()
      ensures !Enabled(retentionDays) ==>
                messages == old(messages) && presenceHistory == old(presenceHistory) && alarmAt == None
      ensures Enabled(retentionDays) ==>
                messages == Retained(old(messages), ToIsoString(Horizon(retentionDays, now))) &&
                presenceHistory == Presence.RetainedHistory(old(presenceHistory),
                  ToIsoString(Horizon(retentionDays, now))) &&
                alarmAt == Some(now + MS_PER_DAY)
    {
      alarmAt := None;
      if retentionDays.None? || retentionDays.value <= 0 {
        return;
      }
      DeleteBefore(ToIsoString(Horizon(retentionDays, now)));
      alarmAt := Some(now + MS_PER_DAY);
    }

    method DeleteBefore(cutoff: string)
      requires Valid()
      modifies this`messages, this`presenceHistory
      ensures Valid()
      ensures messages == Retained(old(messages), cutoff) &&
              presenceHistory == Presence.RetainedHistory(old(presenceHistory), cutoff)
    {
      RetainedKeeps(Messages(), cutoff);
      messages := Retained(messages, cutoff);
      presenceHistory := Presence.RetainedHistory(presenceHistory, cutoff);
    }

    // ---- Messages ---------------------------------------------------------

    method InsertMessage(input: Input, skipPendingAck: bool, env: Env) returns (r: InsertResult)
      requires Valid()
      modifies this`messages, this`nextSeq, this`pendingAcks
      ensures Valid()
      ensures skipPendingAck ==>
                pendingAcks == old(pendingAcks) && Step(Messages(), r) == Insert(old(Messages()), input, env)
      ensures !skipPendingAck ==>
                LogStep(Log(Messages(), pendingAcks), r) ==
                InsertDirect(Log(old(Messages()), old(pendingAcks)), input, env)
    {
      InsertKeeps(Messages(), input, env);
      if !Truthy(input.originHub) {
        return Failed(false);
      }
      var hub := input.originHub.value;
      if Hits(env, AtLookup) {
        return Failed(env.fault.permanent);
      }
      var existing := Existing(messages, hub, input.msg, env.preferId);
      if existing.Some? {
        return AlreadyThere(existing.value, ContentDiffers(existing.value, input));
      }
      if Hits(env, AtInsert) {
        return Failed(env.fault.permanent);
      }
      if FindId(messages, hub, input.msg.id).Some? || FindClient(messages, hub, input.msg.clientMsgId).Some? {
        return Failed(true);
      }
      var row := NewRow(Messages(), hub, input, env.stamp);
      messages, nextSeq := messages + [row], nextSeq + 1;
      if Hits(env, AfterInsert) {
        return Failed(env.fault.permanent);
      }
      if !Truthy(row.streamId) {
        row := row.(streamId := Some(Decimal(row.seqNo) + "-0"));
        messages := messages[|messages| - 1 := row];
      }
      assert messages == old(messages) + [row];
      if input.msg.requestAck && !skipPendingAck {
        if Hits(env, AtPendingAck) {
          return Failed(env.fault.permanent);
        }
        pendingAcks := pendingAcks[input.msg.id := PendingAck(input.msg.recipient, input.msg.timestampUtc)];
      }
      return Inserted(row);
    }

    /** One transaction: either every input is handled or no table changes. */
    method InsertMessageBatch(inputs: seq<Input>, envs: seq<Env>) returns (r: Option<seq<InsertResult>>)
      requires Valid() && |inputs| == |envs|
      modifies this`messages, this`nextSeq, this`pendingAcks
      ensures Valid()
      ensures var b := InsertAll(Log(old(Messages()), old(pendingAcks)), inputs, envs);
              if b.failed then r == None && Messages() == old(Messages()) && pendingAcks == old(pendingAcks)
              else r == Some(b.results) && Messages() == b.log.store && pendingAcks == b.log.acks
    {
      var before := Log(Messages(), pendingAcks);
      var results, i := [], 0;
      while i < |inputs|
        invariant 0 <= i <= |inputs| && Valid()
        invariant BatchAt(before, inputs, envs, i, Log(Messages(), pendingAcks), results)
      {
        ghost var log := Log(Messages(), pendingAcks);
        var step := InsertMessage(inputs[i], false, envs[i]);
        BatchStep(before, inputs, envs, i, log, results, step, Log(Messages(), pendingAcks));
        if step.Failed? {
          messages, nextSeq, pendingAcks := before.store.rows, before.store.nextSeq, before.acks;
          return None;
        }
        results := results + [step];
        i := i + 1;
      }
      assert inputs[..i] == inputs && envs[..i] == envs;
      return Some(results);
    }

    /** The guarded insertion of one pushed item: its outcome, or none when the error is rethrown. */
    method PushOne(originHub: string, item: Input, env: Env) returns (outcome: Option<Outcome>)
      requires Valid()
      modifies this`messages, this`nextSeq, this`pendingAcks
      ensures Valid() && Extends(old(Messages()), Messages()) && pendingAcks == old(pendingAcks)
      ensures (Messages(), outcome) == PushItem(old(Messages()), originHub, item, env)
    {
      var screened := Screen(item, originHub);
      if screened.Some? {
        return Some(Rejected(screened.value));
      }
      InsertKeeps(Messages(), item.(originHub := Some(originHub)), env);
      var result := InsertMessage(item.(originHub := Some(originHub)), true, env);
      match result {
        case Failed(permanent) =>
          if !permanent {
            return None;
          }
          return Some(Rejected(StorageRejected));
        case Inserted(_) => return Some(Accepted);
        case AlreadyThere(_, conflict) =>
          if conflict {
            return Some(Conflict);
          }
          return Some(Duplicate);
      }
    }

    /** The loop of `syncPush` over the items; no lists when a storage error is rethrown. */
    method PushItems(originHub: string, items: seq<Input>, envs: seq<Env>) returns (r: Option<PushLists>)
      requires Valid() && |items| == |envs|
      modifies this`messages, this`nextSeq, this`pendingAcks
      ensures Valid() && Extends(old(Messages()), Messages()) && pendingAcks == old(pendingAcks)
      ensures var p := Push(old(Messages()), originHub, items, envs);
              Messages() == p.store && r == if p.aborted then None else Some(ListsOf(items, p))
    {
      ghost var before := Messages();
      PushKeeps(before, originHub, items, envs);
      var accepted, duplicates, conflicts, rejected := [], [], [], [];
      var maxOriginSeq, i := 0, 0;
      ghost var outcomes := [];
      while i < |items|
        invariant 0 <= i <= |items| && Valid() && pendingAcks == old(pendingAcks)
        invariant PushAt(before, originHub, items, envs, i, Messages(), outcomes,
                  PushLists(accepted, duplicates, conflicts, rejected, maxOriginSeq))
      {
        var item := items[i];
        ghost var now, lists := Messages(), PushLists(accepted, duplicates, conflicts, rejected, maxOriginSeq);
        var outcome := PushOne(originHub, item, envs[i]);
        PushContinues(before, originHub, items, envs, i, now, outcomes, lists, Messages(), outcome);
        if outcome.None? {
          return None;
        }
        match outcome.value {
          case Rejected(reason) => rejected := rejected + [Rejection(item.msg.id, item.msg.clientMsgId, reason)];
          case Accepted => accepted := accepted + [item.msg.id];
          case Conflict => conflicts := conflicts + [item.msg.id];
          case Duplicate => duplicates := duplicates + [item.msg.id];
        }
        if !outcome.value.Rejected? && item.msg.originSeq.Some? {
          maxOriginSeq := Max(maxOriginSeq, item.msg.originSeq.value);
        }
        outcomes := outcomes + [outcome.value];
        i := i + 1;
      }
      assert items[..i] == items && envs[..i] == envs;
      return Some(PushLists(accepted, duplicates, conflicts, rejected, maxOriginSeq));
    }

    /** `syncPush`: after a rethrown error the cursor row is untouched while the inserts already made
        stay. Pending acks are never written. */
    method SyncPush(originHub: string, items: seq<Input>, envs: seq<Env>, nowIso: string)
        returns (r: Option<PushAnswer>)
      requires Valid() && |items| == |envs|
      modifies this`messages, this`nextSeq, this`syncCursors, this`pendingAcks
      ensures Valid() && Extends(old(Messages()), Messages()) && pendingAcks == old(pendingAcks)
      ensures var p := Push(old(Messages()), originHub, items, envs);
              Messages() == p.store && r == if p.aborted then None
                else Some(PushAnswer(ListsOf(items, p), CurrentCursor(messages)))
      ensures syncCursors == if r.None? then old(syncCursors)
                             else CursorsAfter(old(syncCursors), originHub, r.value.lists, nowIso)
    {
      var lists := PushItems(originHub, items, envs);
      if lists.None? {
        return None;
      }
      var accepted, maxOriginSeq := lists.value.accepted, lists.value.maxOriginSeq;
      var existingCount := if originHub in syncCursors then syncCursors[originHub].messagesReceived else 0;
      var last := if originHub in syncCursors then Max(syncCursors[originHub].lastOriginSeq, maxOriginSeq)
        else maxOriginSeq;
      var cursor := SyncCursor(last, existingCount + |accepted|, nowIso);
      assert cursor == CursorFor(syncCursors, originHub, lists.value, nowIso);
      syncCursors := syncCursors[originHub := cursor];
      return Some(PushAnswer(lists.value, CurrentCursor(messages)));
    }

    method ClearPendingAck(messageId: string)
      modifies this`pendingAcks
      ensures pendingAcks == old(pendingAcks) - {messageId}
    {
      pendingAcks := pendingAcks - {messageId};
    }

    method SyncPull(sinceSeq: int, excludeOrigin: Option<string>, limit: int) returns (p: PullPage)
      requires Valid()
      ensures p == Pull(messages, sinceSeq, excludeOrigin, limit)
      ensures limit >= 1 ==> ExactPage(p, messages, sinceSeq, excludeOrigin, limit)
    {
      var highWater := CurrentCursor(messages);
      var rows := Limit(Between(messages, sinceSeq, highWater, excludeOrigin), limit + 1);
      var hasMore := |rows| > limit;
      var page := if hasMore then SliceTo(rows, limit) else rows;
      var nextCursor := if hasMore && page != [] then page[|page| - 1].seqNo else Max(sinceSeq, highWater);
      p := PullPage(page, nextCursor, hasMore);
      assert p == Pull(messages, sinceSeq, excludeOrigin, limit);
      if limit >= 1 {
        PullPageExact(messages, sinceSeq, excludeOrigin, limit);
      }
    }

    method ListMessages(q: Query) returns (r: Result<seq<Row>, string>)
      requires Valid()
      ensures r.Err? <==> !(-MAX_TIME <= q.sinceMs <= MAX_TIME)
      ensures r.Ok? ==> r.value == Listed(messages, q, ToIsoString(q.sinceMs))
    {
      if !(-MAX_TIME <= q.sinceMs <= MAX_TIME) {
        return Err("Invalid time value");
      }
      var rows := ScanMessages(messages, q, ToIsoString(q.sinceMs));
      return Ok(rows);
    }

    // ---- Presence ---------------------------------------------------------

    /** `false` when a storage error is thrown. The row expires its lifetime after the call. */
    method SetPresence(agent: string, input: Presence.Row, keyOrigin: string, clock: Presence.Clock,
        fault: Option<Presence.Moment>) returns (ok: bool)
      modifies this`presence, this`presenceHistory
      ensures (PresenceTables(), ok) ==
              Presence.TrySetPresence(old(PresenceTables()), agent, Presence.Expiring(input, clock.now), keyOrigin,
                                      clock.stamp, fault)
    {
      var row := input.(expiresAtMs := clock.now + input.ttlSeconds * 1000);
      if fault == Some(Presence.AtCurrentWrite) {
        return false;
      }
      presence := presence[(keyOrigin, agent) := row];
      if fault == Some(Presence.AtHistoryInsert) {
        return false;
      }
      presenceHistory := presenceHistory + [Presence.HistoryRow(
        agent, row.status, row.protocolVersion, row.timestampUtc, row.sessionId, row.capabilities, row.metadata,
        row.ttlSeconds, row.networkContext, row.originHub, None, clock.stamp)];
      return true;
    }

    /** One relayed event, deduplicated by the origin's own row id; no verdict when an error is thrown. */
    method RelayOne(originHub: string, ev: Presence.Event, clock: Presence.Clock, fault: Option<Presence.Moment>)
        returns (verdict: Option<Presence.Verdict>)
      modifies this`presence, this`presenceHistory, this`presenceSync
      ensures (PresenceTables(), verdict) == Presence.Attempt(old(PresenceTables()), originHub, ev, clock, fault)
    {
      if Blank(ev.agent) || Blank(ev.status) || Blank(ev.timestampUtc) {
        return Some(Presence.Rejected);
      }
      if fault == Some(Presence.AtLookup) {
        return None;
      }
      if (originHub, ev.originId) in presenceSync {
        return Some(Presence.Duplicate);
      }
      if fault == Some(Presence.AtSyncInsert) {
        return None;
      }
      presenceSync := presenceSync + {(originHub, ev.originId)};
      if fault == Some(Presence.AtHistoryInsert) {
        return None;
      }
      presenceHistory := presenceHistory + [Presence.HistoryOf(originHub, ev, clock.stamp)];
      if fault == Some(Presence.AtCurrentLookup) {
        return None;
      }
      var key := (originHub, ev.agent);
      if key !in presence || !Less(ev.timestampUtc, presence[key].timestampUtc) {
        if fault == Some(Presence.AtCurrentWrite) {
          return None;
        }
        var context := if key in presence then presence[key].networkContext else None;
        presence := presence[key := Presence.RowOf(originHub, ev, clock.now, context)];
      }
      return Some(Presence.Accepted);
    }

    /** The loop of `syncPushPresence`; no answer when an error is thrown, with what was written kept. */
    method SyncPushPresence(originHub: string, events: seq<Presence.Event>, clocks: seq<Presence.Clock>,
        faults: seq<Option<Presence.Moment>>)
        returns (answer: Option<PresenceAnswer>)
      requires |events| == |clocks| == |faults|
      modifies this`presence, this`presenceHistory, this`presenceSync
      ensures var c := Presence.PushPresence(old(PresenceTables()), originHub, events, clocks, faults);
              PresenceTables() == c.tables && answer == if c.thrown then None else Some(AnswerOf(events, c.verdicts))
    {
      ghost var before := PresenceTables();
      var accepted, duplicates, rejected := 0, 0, [];
      ghost var verdicts := [];
      var i := 0;
      while i < |events|
        invariant 0 <= i <= |events|
        invariant PresenceAt(before, originHub, events, clocks, faults, i, PresenceTables(), verdicts)
        invariant PresenceAnswer(accepted, duplicates, rejected) == AnswerOf(events, verdicts)
      {
        ghost var now := PresenceTables();
        var verdict := RelayOne(originHub, events[i], clocks[i], faults[i]);
        PresenceContinues(before, originHub, events, clocks, faults, i, now, verdicts, PresenceTables(), verdict);
        if verdict.None? {
          return None;
        }
        match verdict.value {
          case Rejected => rejected := rejected + [events[i].originId];
          case Duplicate => duplicates := duplicates + 1;
          case Accepted => accepted := accepted + 1;
        }
        AnswerGrows(events, verdicts, verdict.value);
        verdicts := verdicts + [verdict.value];
        i := i + 1;
      }
      assert events[..i] == events && clocks[..i] == clocks && faults[..i] == faults;
      return Some(PresenceAnswer(accepted, duplicates, rejected));
    }

    // ---- Rate limiting ----------------------------------------------------

    method CheckRateLimit(identityKey: string, limitPerMinute: int, now: int) returns (admitted: bool)
      modifies this`rateCounters
      ensures (rateCounters, admitted) == Rate.Check(old(rateCounters), identityKey, limitPerMinute, now)
    {
      var windowStart := now / 60_000 * 60_000;
      var current := if (identityKey, windowStart) in rateCounters then rateCounters[(identityKey, windowStart)] else 0;
      if current >= limitPerMinute {
        return false;
      }
      rateCounters := rateCounters[(identityKey, windowStart) := current + 1];
      rateCounters := Rate.Cleaned(rateCounters, windowStart - 5 * 60_000);
      return true;
    }
  }
}
