/** What insertion and batch push do, said field by field about the rows and answers themselves: which
    inputs are stored, refused or taken for known ones, what a new row holds, and how long it is kept. */
module StoreLaws {
  import opened Prelude
  import opened Timestamps
  import opened MessageStore
  import opened Reading
  import opened Retention

  // ---- insertMessage ------------------------------------------------------

  /** The row shares the id, or a client key that is not empty, with the message. */
  predicate SharesKey(r: Row, hub: string, m: Message) {
    r.originHub == hub &&
    (r.msg.id == m.id || (m.clientMsgId.Some? && m.clientMsgId.value != "" && r.msg.clientMsgId == m.clientMsgId))
  }

  predicate SameContent(a: Message, b: Message) {
    a.sender == b.sender && a.recipient == b.recipient && a.topic == b.topic && a.body == b.body
  }

  /** The columns of a new row: the next sequence number, the sent message and hub, the time of insertion
      whatever the message's own time, and the defaults of the two optional columns. */
  lemma InsertedRow(s: Store, input: Input, env: Env)
    requires Insert(s, input, env).result.Inserted?
    ensures var (t, row) := (Insert(s, input, env).store, Insert(s, input, env).result.row);
            && t.rows == s.rows + [row] && t.nextSeq == s.nextSeq + 1 && row.seqNo == s.nextSeq
            && Some(row.originHub) == input.originHub && row.msg == input.msg && row.ingestedAt == env.stamp
            && row.sensitivity == (match input.sensitivity case Some(x) => x case None => "internal")
            && row.streamId == (if input.streamId in {None, Some("")} then Some(Decimal(s.nextSeq) + "-0")
                                else input.streamId)
  {
  }

  /** With a fault after the INSERT the row stays behind, without a stream id of its own. */
  lemma OrphanRow(s: Store, input: Input, env: Env)
    requires env.fault.Fault? && env.fault.moment == AfterInsert && input.originHub.Some? && input.originHub.value != ""
    requires forall r :: r in s.rows ==> !SharesKey(r, input.originHub.value, input.msg)
    requires input.msg.clientMsgId != Some("")
    ensures var step := Insert(s, input, env);
            && step.result == Failed(env.fault.permanent) && step.store.nextSeq == s.nextSeq + 1
            && |step.store.rows| == |s.rows| + 1 && step.store.rows[..|s.rows|] == s.rows
            && var row := step.store.rows[|s.rows|];
               row.seqNo == s.nextSeq && row.msg == input.msg && row.ingestedAt == env.stamp &&
                 row.streamId == input.streamId
  {
    assert !KeyTaken(s.rows, input.originHub.value, input.msg);
  }

  lemma ExistingIff(rows: seq<Row>, hub: string, m: Message, preferId: bool)
    ensures var e := Existing(rows, hub, m, preferId);
            && (e.Some? <==> exists r :: r in rows && SharesKey(r, hub, m))
            && (e.Some? ==> e.value in rows && SharesKey(e.value, hub, m))
  {
    if Truthy(m.clientMsgId) {
      assert FindClient(rows, hub, m.clientMsgId).None? ==> forall r :: r in rows ==>
             !ClientMatch(r, hub, m.clientMsgId);
    }
    assert FindId(rows, hub, m.id).None? ==> forall r :: r in rows ==> !IdMatch(r, hub, m.id);
    if r :| r in rows && SharesKey(r, hub, m) {
      assert IdMatch(r, hub, m.id) || ClientMatch(r, hub, m.clientMsgId);
    }
  }

  /** Whether both rows match, by id and by client key: then `preferId` says which one is returned. */
  lemma ExistingPrefers(rows: seq<Row>, hub: string, m: Message, preferId: bool)
    requires m.clientMsgId.Some? && m.clientMsgId.value != ""
    requires exists r :: r in rows && r.originHub == hub && r.msg.id == m.id
    requires exists r :: r in rows && r.originHub == hub && r.msg.clientMsgId == m.clientMsgId
    ensures var e := Existing(rows, hub, m, preferId);
            e.Some? && if preferId then e.value.msg.id == m.id else e.value.msg.clientMsgId == m.clientMsgId
  {
    var x :| x in rows && x.originHub == hub && x.msg.id == m.id;
    var y :| y in rows && y.originHub == hub && y.msg.clientMsgId == m.clientMsgId;
    assert IdMatch(x, hub, m.id) && ClientMatch(y, hub, m.clientMsgId);
  }

  /** Without a fault: a message is refused outright without an origin; it is known exactly when a row of
      its origin shares a key, and in conflict exactly when that row's content differs; otherwise it is
      stored, unless its client key is the empty one and stored already. */
  lemma InsertDecides(s: Store, input: Input, env: Env)
    requires env.fault == NoFault
    ensures var (t, result) := (Insert(s, input, env).store, Insert(s, input, env).result);
            if input.originHub in {None, Some("")} then t == s && result == Failed(false)
            else
              var hub := input.originHub.value;
              if exists r :: r in s.rows && SharesKey(r, hub, input.msg)
              then
                && t == s && result.AlreadyThere? && result.row in s.rows && SharesKey(result.row, hub, input.msg)
                && (result.conflict <==> !SameContent(result.row.msg, input.msg))
              else if input.msg.clientMsgId == Some("") && exists r ::
                r in s.rows && r.originHub == hub && r.msg.clientMsgId == Some("")
              then t == s && result == Failed(true)
              else result.Inserted?
  {
    if !(input.originHub in {None, Some("")}) {
      var hub := input.originHub.value;
      ExistingIff(s.rows, hub, input.msg, env.preferId);
      if r :| r in s.rows && r.originHub == hub && r.msg.clientMsgId == Some("") {
        assert ClientMatch(r, hub, Some(""));
      }
    }
  }

  /** A fault at the lookup or the INSERT changes nothing, and is met only where that statement is reached. */
  lemma FaultBeforeInsert(s: Store, input: Input, env: Env)
    requires env.fault.Fault? && env.fault.moment in {AtLookup, AtInsert}
    ensures var (t, result) := (Insert(s, input, env).store, Insert(s, input, env).result);
            && t == s
            && (input.originHub.Some? && input.originHub.value != "" &&
                (env.fault.moment == AtLookup || forall r :: r in s.rows ==>
                  !SharesKey(r, input.originHub.value, input.msg)) ==>
                  result == Failed(env.fault.permanent))
  {
    if input.originHub.Some? {
      ExistingIff(s.rows, input.originHub.value, input.msg, env.preferId);
    }
  }

  /** A direct write that asks for an ack is queued for its recipient, with the time it was sent; nothing
      else changes the queue. */
  lemma AckQueued(log: Log, input: Input, env: Env)
    requires env.fault == NoFault
    ensures var d := InsertDirect(log, input, env);
            d.log.acks == if d.result.Inserted? && input.msg.requestAck
                          then log.acks[input.msg.id := PendingAck(input.msg.recipient, input.msg.timestampUtc)]
                          else log.acks
    ensures InsertDirect(log, input, env).result == Insert(log.store, input, env).result
    ensures InsertDirect(log, input, env).log.store == Insert(log.store, input, env).store
  {
  }

  /** However old the message says it is: a row inserted now goes at an alarm exactly when the whole
      retention period has passed since its insertion. */
  lemma FreshRowKept(s: Store, input: Input, env: Env, t: Store, row: Row, at: int, days: int, now: int)
    requires Insert(s, input, env) == MessageStore.Step(t, Inserted(row)) && env.stamp == FormatTimestampUtc(at)
    requires days > 0 && FourDigitYear(at) && FourDigitYear(now) && FourDigitYear(Horizon(Some(days), now))
    ensures row in Retained(t.rows, ToIsoString(Horizon(Some(days), now))) <==> at > now - days * 86_400_000
  {
    InsertedRow(s, input, env);
    assert t.rows[|s.rows|] == row;
    StampKept(t.rows, row, at, Horizon(Some(days), now));
  }

  // ---- syncPush -----------------------------------------------------------

  predicate SomeVacant(m: Message) { Vacant(m.sender) || Vacant(m.recipient) || Vacant(m.topic) || Vacant(m.body) }

  predicate ForeignHub(item: Input, hub: string) { item.originHub.Some? && item.originHub.value !in {"", hub} }

  /** Why an item is refused before it reaches storage: the first that holds. */
  predicate RefusedFor(item: Input, hub: string, reason: Reason) {
    match reason
    case NoOffsite => item.sensitivity == Some("no-offsite")
    case EmptyField => item.sensitivity != Some("no-offsite") && SomeVacant(item.msg)
    case WrongHub => item.sensitivity != Some("no-offsite") && !SomeVacant(item.msg) && ForeignHub(item, hub)
    case StorageRejected => false
  }

  /** The item is refused for none of them. */
  predicate Presentable(item: Input, hub: string) {
    item.sensitivity != Some("no-offsite") && !SomeVacant(item.msg) && !ForeignHub(item, hub)
  }

  lemma ScreenDecides(item: Input, hub: string)
    ensures forall reason :: Screen(item, hub) == Some(reason) <==> RefusedFor(item, hub, reason)
    ensures Screen(item, hub) == None <==> Presentable(item, hub)
  {
    BlankIff(item.msg.sender);
    BlankIff(item.msg.recipient);
    BlankIff(item.msg.topic);
    BlankIff(item.msg.body);
  }

  /** Some row of the hub shares a key with the item. */
  predicate Known(rows: seq<Row>, hub: string, m: Message) { exists r :: r in rows && SharesKey(r, hub, m) }

  /** What becomes of one item, with any fault: refused before storage exactly for one of the reasons, and
      then nothing changes. */
  lemma ItemRefusedIff(s: Store, hub: string, item: Input, env: Env, reason: Reason)
    requires reason != StorageRejected
    ensures PushItem(s, hub, item, env).1 == Some(Rejected(reason)) <==> RefusedFor(item, hub, reason)
    ensures RefusedFor(item, hub, reason) ==> PushItem(s, hub, item, env).0 == s
  {
    ScreenDecides(item, hub);
  }

  /** The stored row is the item's message under the pushing hub, stamped with the time of storing. */
  predicate NewestIs(s: Store, t: Store, hub: string, item: Input, stamp: string) {
    && |t.rows| == |s.rows| + 1 && t.rows[..|s.rows|] == s.rows
    && var row := t.rows[|s.rows|];
       row.originHub == hub && row.msg == item.msg && row.seqNo == s.nextSeq && row.ingestedAt == stamp
  }

  /** A presentable item, without faults: accepted and stored exactly when neither key is known; otherwise
      a duplicate of a row with the same content or in conflict with one, and nothing changes. */
  lemma PresentableItemDecides(s: Store, hub: string, item: Input, env: Env)
    requires hub != "" && env.fault == NoFault && Presentable(item, hub) && item.msg.clientMsgId != Some("")
    ensures var (t, outcome) := PushItem(s, hub, item, env);
            if Known(s.rows, hub, item.msg)
            then t == s && outcome in {Some(Duplicate), Some(Conflict)} &&
                 exists r :: r in s.rows && SharesKey(r, hub, item.msg) &&
                   (outcome == Some(Duplicate) <==> SameContent(r.msg, item.msg))
            else outcome == Some(Accepted) && NewestIs(s, t, hub, item, env.stamp)
  {
    ScreenDecides(item, hub);
    var sent := item.(originHub := Some(hub));
    InsertDecides(s, sent, env);
    if !Known(s.rows, hub, item.msg) {
      InsertedRow(s, sent, env);
    }
  }

  /** A failing insertion is reported as a rejection by storage when it is permanent, and rethrown if not. */
  lemma FailedInsertion(s: Store, hub: string, item: Input, env: Env)
    requires hub != "" && Presentable(item, hub) && env.fault.Fault? && env.fault.moment == AtLookup
    ensures PushItem(s, hub, item, env) == (s, if env.fault.permanent then Some(Rejected(StorageRejected)) else None)
  {
    ScreenDecides(item, hub);
  }

  /** Two messages of one origin that cannot both be stored. */
  predicate Collide(a: Message, b: Message) {
    a.id == b.id || (a.clientMsgId.Some? && a.clientMsgId == b.clientMsgId)
  }

  /** One item adds at most its own message. */
  lemma AddedIsTheItem(s: Store, hub: string, item: Input, env: Env)
    ensures var t := PushItem(s, hub, item, env).0;
            t == s || (|t.rows| == |s.rows| + 1 && t.rows[..|s.rows|] == s.rows && t.rows[|s.rows|].msg == item.msg)
  {
  }

  lemma StillUnknown(s: Store, hub: string, item: Input, env: Env, m: Message)
    requires !Known(s.rows, hub, m) && !Collide(item.msg, m)
    ensures !Known(PushItem(s, hub, item, env).0.rows, hub, m)
  {
    var t := PushItem(s, hub, item, env).0;
    AddedIsTheItem(s, hub, item, env);
    forall r | r in t.rows ensures !SharesKey(r, hub, m) {
      assert r in t.rows[..|s.rows|] || r == t.rows[|s.rows|];
    }
  }

  /** Only rows stored before and the items ahead of it can make a message known to a push. */
  lemma {:induction false} PushLeavesUnknown(s: Store, hub: string, items: seq<Input>, envs: seq<Env>, m: Message)
    requires |items| == |envs| && !Known(s.rows, hub, m) && forall k :: 0 <= k < |items| ==> !Collide(items[k].msg, m)
    ensures !Known(Push(s, hub, items, envs).store.rows, hub, m)
  {
    if items == [] {
    } else {
      var n := |items| - 1;
      PushLeavesUnknown(s, hub, items[..n], envs[..n], m);
      var p := Push(s, hub, items[..n], envs[..n]);
      if !p.aborted {
        StillUnknown(p.store, hub, items[n], envs[n], m);
      }
    }
  }

  /** The outcome of an item is that of pushing it after those ahead of it. */
  lemma {:induction false} OutcomeAt(s: Store, hub: string, items: seq<Input>, envs: seq<Env>, i: nat)
    requires i < |items| == |envs| && !Push(s, hub, items, envs).aborted
    ensures !Push(s, hub, items[..i], envs[..i]).aborted
    ensures Some(Push(s, hub, items, envs).outcomes[i]) ==
            PushItem(Push(s, hub, items[..i], envs[..i]).store, hub, items[i], envs[i]).1
  {
    var n := |items| - 1;
    var p := Push(s, hub, items[..n], envs[..n]);
    if i == n {
    } else {
      OutcomeAt(s, hub, items[..n], envs[..n], i);
      assert items[..n][..i] == items[..i] && envs[..n][..i] == envs[..i];
    }
  }

  /** In an answered push every item is refused before storage exactly for the first of the three reasons
      that holds of its fields. */
  lemma PushRefusesIff(s: Store, hub: string, items: seq<Input>, envs: seq<Env>, i: nat, reason: Reason)
    requires i < |items| == |envs| && !Push(s, hub, items, envs).aborted && reason != StorageRejected
    ensures Push(s, hub, items, envs).outcomes[i] == Rejected(reason) <==> RefusedFor(items[i], hub, reason)
  {
    OutcomeAt(s, hub, items, envs, i);
    ItemRefusedIff(Push(s, hub, items[..i], envs[..i]).store, hub, items[i], envs[i], reason);
  }

  /** The table holds the message as sent, under the hub and with this stamp. */
  ghost predicate Holds(rows: seq<Row>, hub: string, m: Message, stamp: string) {
    exists r :: r in rows && r.originHub == hub && r.msg == m && r.ingestedAt == stamp
  }

  lemma {:induction false} HoldsFrom(s: Store, hub: string, items: seq<Input>, envs: seq<Env>, i: nat, m: Message,
      stamp: string)
    requires i <= |items| == |envs| && Valid(s) && Holds(Push(s, hub, items[..i], envs[..i]).store.rows, hub, m, stamp)
    ensures Holds(Push(s, hub, items, envs).store.rows, hub, m, stamp)
    decreases |items| - i
  {
    if i == |items| {
      assert items[..i] == items && envs[..i] == envs;
    } else {
      var p := Push(s, hub, items[..i], envs[..i]);
      assert items[..i + 1][..i] == items[..i] && envs[..i + 1][..i] == envs[..i];
      PushKeeps(s, hub, items[..i], envs[..i]);
      if !p.aborted {
        PushItemKeeps(p.store, hub, items[i], envs[i]);
      }
      var r :| r in p.store.rows && r.originHub == hub && r.msg == m && r.ingestedAt == stamp;
      assert r in Push(s, hub, items[..i + 1], envs[..i + 1]).store.rows;
      HoldsFrom(s, hub, items, envs, i + 1, m, stamp);
    }
  }

  lemma StepHolds(s: Store, hub: string, items: seq<Input>, envs: seq<Env>, i: nat)
    requires i < |items| == |envs| && !Push(s, hub, items[..i], envs[..i]).aborted
    requires var p := Push(s, hub, items[..i], envs[..i]).store;
             NewestIs(p, PushItem(p, hub, items[i], envs[i]).0, hub, items[i], envs[i].stamp)
    ensures Holds(Push(s, hub, items[..i + 1], envs[..i + 1]).store.rows, hub, items[i].msg, envs[i].stamp)
  {
    var p := Push(s, hub, items[..i], envs[..i]).store;
    var t := PushItem(p, hub, items[i], envs[i]).0;
    assert items[..i + 1][..i] == items[..i] && envs[..i + 1][..i] == envs[..i];
    assert t.rows[|p.rows|] in t.rows;
  }

  /** A presentable item that collides with no stored row and no item ahead of it is accepted, and stored
      as sent. */
  lemma FreeItemAccepted(s: Store, hub: string, items: seq<Input>, envs: seq<Env>, i: nat)
    requires Valid(s) && hub != "" && i < |items| == |envs| && !Push(s, hub, items, envs).aborted
    requires envs[i].fault == NoFault && Presentable(items[i], hub) && items[i].msg.clientMsgId != Some("")
    requires !Known(s.rows, hub, items[i].msg) && forall k :: 0 <= k < i ==> !Collide(items[k].msg, items[i].msg)
    ensures var p := Push(s, hub, items, envs);
            p.outcomes[i] == Accepted && Holds(p.store.rows, hub, items[i].msg, envs[i].stamp)
  {
    OutcomeAt(s, hub, items, envs, i);
    PushLeavesUnknown(s, hub, items[..i], envs[..i], items[i].msg);
    PresentableItemDecides(Push(s, hub, items[..i], envs[..i]).store, hub, items[i], envs[i]);
    StepHolds(s, hub, items, envs, i);
    HoldsFrom(s, hub, items, envs, i + 1, items[i].msg, envs[i].stamp);
  }

  // ---- The answer ---------------------------------------------------------

  /** An id is listed under an outcome exactly when an item with that id has it. */
  lemma {:induction false} ListedIff(items: seq<Input>, outcomes: seq<Outcome>, wanted: Outcome, id: string)
    requires |outcomes| <= |items|
    ensures id in IdsWhere(items, outcomes, wanted) <==>
            exists i :: 0 <= i < |outcomes| && outcomes[i] == wanted && items[i].msg.id == id
  {
    if outcomes == [] {
    } else {
      var n := |outcomes| - 1;
      ListedIff(items, outcomes[..n], wanted, id);
      assert forall i :: 0 <= i < n ==> outcomes[..n][i] == outcomes[i];
    }
  }

  /** A rejection is listed exactly for a rejected item, with its id, its client key and the reason. */
  lemma {:induction false} RejectionListedIff(items: seq<Input>, outcomes: seq<Outcome>, x: Rejection)
    requires |outcomes| <= |items|
    ensures x in Rejections(items, outcomes) <==>
            exists i :: 0 <= i < |outcomes| && outcomes[i] == Rejected(x.reason) && items[i].msg.id == x.id &&
                        items[i].msg.clientMsgId == x.clientMsgId
  {
    if outcomes == [] {
    } else {
      var n := |outcomes| - 1;
      RejectionListedIff(items, outcomes[..n], x);
      assert forall i :: 0 <= i < n ==> outcomes[..n][i] == outcomes[i];
    }
  }

  /** The answer of a completed push, list by list. */
  lemma AnswerIff(s: Store, hub: string, items: seq<Input>, envs: seq<Env>, id: string, x: Rejection)
    requires |items| == |envs| && !Push(s, hub, items, envs).aborted
    ensures var p := Push(s, hub, items, envs);
            var l := ListsOf(items, p);
            && (id in l.accepted <==> exists i ::
              0 <= i < |items| && p.outcomes[i] == Accepted && items[i].msg.id == id)
            && (id in l.duplicates <==> exists i ::
              0 <= i < |items| && p.outcomes[i] == Duplicate && items[i].msg.id == id)
            && (id in l.conflicts <==> exists i ::
              0 <= i < |items| && p.outcomes[i] == Conflict && items[i].msg.id == id)
            && (x in l.rejected <==> exists i ::
              0 <= i < |items| && p.outcomes[i] == Rejected(x.reason) && items[i].msg.id == x.id &&
                                              items[i].msg.clientMsgId == x.clientMsgId)
  {
    var outcomes := Push(s, hub, items, envs).outcomes;
    ListedIff(items, outcomes, Accepted, id);
    ListedIff(items, outcomes, Duplicate, id);
    ListedIff(items, outcomes, Conflict, id);
    RejectionListedIff(items, outcomes, x);
  }

  /** The item carries this origin sequence number, and was not rejected. */
  predicate Reports(items: seq<Input>, outcomes: seq<Outcome>, i: nat, n: int)
    requires i < |outcomes| <= |items|
  {
    !outcomes[i].Rejected? && items[i].msg.originSeq == Some(n)
  }

  /** At least every number reported, and one of them unless it is 0. */
  ghost predicate Highest(items: seq<Input>, outcomes: seq<Outcome>, m: int)
    requires |outcomes| <= |items|
  {
    && m >= 0 && (forall i, n :: 0 <= i < |outcomes| && Reports(items, outcomes, i, n) ==> n <= m)
    && (m == 0 || exists i :: 0 <= i < |outcomes| && Reports(items, outcomes, i, m))
  }

  lemma HighestGrows(items: seq<Input>, outcomes: seq<Outcome>, last: Outcome, m: int)
    requires |outcomes| < |items| && Highest(items, outcomes, m)
    ensures Highest(items, outcomes + [last], Max(m, SeqSeen(items[|outcomes|], last)))
  {
    var all, item := outcomes + [last], items[|outcomes|];
    forall i, n | 0 <= i < |outcomes| ensures Reports(items, all, i, n) == Reports(items, outcomes, i, n) {
    }
    var seen := SeqSeen(item, last);
    if seen > m {
      assert Reports(items, all, |outcomes|, seen);
    }
  }

  lemma HighestPrefix(items: seq<Input>, k: nat, outcomes: seq<Outcome>, m: int)
    requires |outcomes| <= k <= |items| && Highest(items[..k], outcomes, m)
    ensures Highest(items, outcomes, m)
  {
    forall i, n | 0 <= i < |outcomes| ensures Reports(items, outcomes, i, n) == Reports(items[..k], outcomes, i, n) {
    }
  }

  /** The highest origin sequence number a push reports is that of its items that were not rejected. */
  lemma {:induction false} MaxSeqExact(s: Store, hub: string, items: seq<Input>, envs: seq<Env>)
    requires |items| == |envs|
    ensures var p := Push(s, hub, items, envs); Highest(items, p.outcomes, p.maxOriginSeq)
  {
    if items == [] {
    } else {
      var n := |items| - 1;
      var p, q := Push(s, hub, items[..n], envs[..n]), Push(s, hub, items, envs);
      MaxSeqExact(s, hub, items[..n], envs[..n]);
      HighestPrefix(items, n, p.outcomes, p.maxOriginSeq);
      if !q.aborted {
        HighestGrows(items, p.outcomes, q.outcomes[n], p.maxOriginSeq);
        assert q.outcomes == p.outcomes + [q.outcomes[n]];
      }
    }
  }

  /** The cursor row after a push: the greater sequence number, the total received and the time. */
  lemma CursorRow(cursors: SyncCursors, hub: string, lists: PushLists, now: string, other: string)
    requires lists.maxOriginSeq >= 0
    ensures var after := CursorsAfter(cursors, hub, lists, now);
            && hub in after && after[hub].updatedAt == now
            && after[hub].messagesReceived == |lists.accepted| +
              (if hub in cursors then cursors[hub].messagesReceived else 0)
            && after[hub].lastOriginSeq >= lists.maxOriginSeq
            && (hub in cursors ==> after[hub].lastOriginSeq >= cursors[hub].lastOriginSeq)
            && (after[hub].lastOriginSeq == lists.maxOriginSeq ||
              (hub in cursors && after[hub].lastOriginSeq == cursors[hub].lastOriginSeq))
            && (other != hub ==>
              (other in after <==> other in cursors) && (other in cursors ==> after[other] == cursors[other]))
  {
  }
}
