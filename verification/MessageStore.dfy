/** The `messages` table of `BusLog`: idempotent insertion, batch push and their outcome reports,
    as functions of table values. The class in BusLog.dfy is proved against them. */
module MessageStore {
  import opened Prelude

  /** The columns a writer supplies. `tags` and `metadata` stand for their JSON texts. */
  datatype Message = Message(
    id: string, timestampUtc: string, protocolVersion: string, sender: string, recipient: string, topic: string,
    body: string, threadId: Option<string>, tags: seq<string>, priority: string, requestAck: bool,
    replyTo: Option<string>, metadata: Option<string>, clientMsgId: Option<string>, originHost: Option<string>,
    originSeq: Option<int>, hlc: Option<string>)

  datatype Input = Input(msg: Message, originHub: Option<string>, streamId: Option<string>, sensitivity: Option<string>)

  datatype Row = Row(seqNo: nat, originHub: string, msg: Message, streamId: Option<string>, sensitivity: string,
      ingestedAt: string)

  /** The table in `seq` order and the next AUTOINCREMENT value, which deletions never give back. */
  datatype Store = Store(rows: seq<Row>, nextSeq: nat)

  /** The statement of `insertMessage` at which the storage layer fails. */
  datatype Moment = AtLookup | AtInsert | AfterInsert | AtPendingAck

  datatype Fault = NoFault | Fault(moment: Moment, permanent: bool)

  /** What one insertion takes from its environment: the clock, which of two matching rows
      `LIMIT 1` returns, and a storage fault. `permanent` is the verdict of
      `isDeterministicInsertError` on the thrown error. */
  datatype Env = Env(stamp: string, preferId: bool, fault: Fault)

  predicate Hits(env: Env, moment: Moment) { env.fault.Fault? && env.fault.moment == moment }

  // ---- Keys ---------------------------------------------------------------

  predicate IdMatch(r: Row, hub: string, id: string) { r.originHub == hub && r.msg.id == id }

  predicate ClientMatch(r: Row, hub: string, client: Option<string>) {
    r.originHub == hub && client.Some? && r.msg.clientMsgId == client
  }

  /** Two rows that violate neither UNIQUE key (SQL NULLs never collide). */
  predicate Compatible(r: Row, t: Row) {
    !IdMatch(r, t.originHub, t.msg.id) && !ClientMatch(r, t.originHub, t.msg.clientMsgId)
  }

  /** Some row already carries one of the message's two keys. */
  predicate KeyTaken(rows: seq<Row>, hub: string, m: Message) {
    exists r :: r in rows && (IdMatch(r, hub, m.id) || ClientMatch(r, hub, m.clientMsgId))
  }

  function FindId(rows: seq<Row>, hub: string, id: string): (o: Option<Row>)
    ensures o.None? ==> forall r :: r in rows ==> !IdMatch(r, hub, id)
    ensures o.Some? ==> o.value in rows && IdMatch(o.value, hub, id)
  {
    if rows == [] then None
    else if IdMatch(rows[0], hub, id) then Some(rows[0])
    else FindId(rows[1..], hub, id)
  }

  function FindClient(rows: seq<Row>, hub: string, client: Option<string>): (o: Option<Row>)
    ensures o.None? ==> forall r :: r in rows ==> !ClientMatch(r, hub, client)
    ensures o.Some? ==> o.value in rows && ClientMatch(o.value, hub, client)
  {
    if rows == [] then None
    else if ClientMatch(rows[0], hub, client) then Some(rows[0])
    else FindClient(rows[1..], hub, client)
  }

  /** The duplicate lookup. An empty `client_msg_id` is not used as a key here. */
  function Existing(rows: seq<Row>, hub: string, m: Message, preferId: bool): (r: Option<Row>) {
    var byId := FindId(rows, hub, m.id);
    var byClient := if Truthy(m.clientMsgId) then FindClient(rows, hub, m.clientMsgId) else None;
    if byId.Some? && (preferId || byClient.None?) then byId else byClient
  }

  predicate ContentDiffers(r: Row, input: Input) {
    r.msg.sender != input.msg.sender || r.msg.recipient != input.msg.recipient ||
    r.msg.topic != input.msg.topic || r.msg.body != input.msg.body
  }

  // ---- Invariant ----------------------------------------------------------

  predicate Ordered(rows: seq<Row>) {
    forall i, j :: 0 <= i < j < |rows| ==> rows[i].seqNo < rows[j].seqNo
  }

  predicate UniqueKeys(rows: seq<Row>) {
    forall i, j :: 0 <= i < j < |rows| ==> Compatible(rows[i], rows[j])
  }

  predicate Valid(s: Store) {
    Ordered(s.rows) && UniqueKeys(s.rows) && s.nextSeq >= 1 &&
    forall r :: r in s.rows ==> 1 <= r.seqNo < s.nextSeq && r.originHub != ""
  }

  /** t holds everything s held, and its further rows carry sequence numbers s had not issued. */
  predicate Extends(s: Store, t: Store) {
    s.rows <= t.rows && s.nextSeq <= t.nextSeq &&
    forall i :: |s.rows| <= i < |t.rows| ==> s.nextSeq <= t.rows[i].seqNo
  }

  lemma ExtendsTransitive(s: Store, t: Store, u: Store)
    requires Extends(s, t) && Extends(t, u)
    ensures Extends(s, u)
  {
    forall i | |s.rows| <= i < |u.rows| ensures s.nextSeq <= u.rows[i].seqNo {
      if i < |t.rows| {
        assert u.rows[i] == t.rows[i];
      }
    }
  }

  // ---- insertMessage ------------------------------------------------------

  datatype InsertResult =
    | Inserted(row: Row)
    | AlreadyThere(row: Row, conflict: bool)
    | Failed(permanent: bool)

  datatype Step = Step(store: Store, result: InsertResult)

  function NewRow(s: Store, hub: string, input: Input, stamp: string): (r: Row) {
    Row(s.nextSeq, hub, input.msg, input.streamId,
        if input.sensitivity.Some? then input.sensitivity.value else "internal", stamp)
  }

  function WithStreamId(r: Row): (res: Row) {
    if Truthy(r.streamId) then r else r.(streamId := Some(Decimal(r.seqNo) + "-0"))
  }

  function Append(s: Store, r: Row): (res: Store) { Store(s.rows + [r], s.nextSeq + 1) }

  function Insert(s: Store, input: Input, env: Env): (r: Step) {
    if !Truthy(input.originHub) then Step(s, Failed(false))
    else if Hits(env, AtLookup) then Step(s, Failed(env.fault.permanent))
    else
      var hub := input.originHub.value;
      var existing := Existing(s.rows, hub, input.msg, env.preferId);
      if existing.Some? then Step(s, AlreadyThere(existing.value, ContentDiffers(existing.value, input)))
      else if Hits(env, AtInsert) then Step(s, Failed(env.fault.permanent))
      else if KeyTaken(s.rows, hub, input.msg) then Step(s, Failed(true))
      else
        var row := NewRow(s, hub, input, env.stamp);
        if Hits(env, AfterInsert) then Step(Append(s, row), Failed(env.fault.permanent))
        else Step(Append(s, WithStreamId(row)), Inserted(WithStreamId(row)))
  }

  lemma SnocKeeps(rows: seq<Row>, r: Row)
    requires Ordered(rows) && UniqueKeys(rows)
    requires forall x :: x in rows ==> x.seqNo < r.seqNo && Compatible(x, r)
    ensures Ordered(rows + [r]) && UniqueKeys(rows + [r])
  {
    var t := rows + [r];
    forall i, j | 0 <= i < j < |t| ensures Compatible(t[i], t[j]) && t[i].seqNo < t[j].seqNo {
      assert t[i] == rows[i] && rows[i] in rows;
      if j < |rows| {
        assert t[j] == rows[j];
      }
    }
  }

  lemma AppendKeeps(s: Store, r: Row)
    requires Valid(s) && r.seqNo == s.nextSeq && r.originHub != "" && !KeyTaken(s.rows, r.originHub, r.msg)
    ensures Valid(Append(s, r)) && Extends(s, Append(s, r))
  {
    SnocKeeps(s.rows, r);
  }

  /** Insertion keeps both UNIQUE keys and only ever appends a row under a fresh sequence number. */
  lemma InsertKeeps(s: Store, input: Input, env: Env)
    requires Valid(s)
    ensures Valid(Insert(s, input, env).store) && Extends(s, Insert(s, input, env).store)
  {
    if Truthy(input.originHub) && !KeyTaken(s.rows, input.originHub.value, input.msg) {
      var row := NewRow(s, input.originHub.value, input, env.stamp);
      AppendKeeps(s, row);
      AppendKeeps(s, WithStreamId(row));
    }
  }

  /** The UNIQUE constraint itself is hit exactly when the client key is the empty string, which the
      lookup ignores, and a row of the same origin already stored it. Validated items carry no such
      key. */
  lemma ConstraintHitIff(s: Store, input: Input, env: Env)
    requires Truthy(input.originHub)
    ensures Existing(s.rows, input.originHub.value, input.msg, env.preferId).None? &&
            KeyTaken(s.rows, input.originHub.value, input.msg)
       <==> input.msg.clientMsgId == Some("") && FindId(s.rows, input.originHub.value, input.msg.id).None?
            && FindClient(s.rows, input.originHub.value, Some("")).Some?
  {
    var hub, m := input.originHub.value, input.msg;
    var byClient := FindClient(s.rows, hub, m.clientMsgId);
    if byClient.Some? {
      assert KeyTaken(s.rows, hub, m);
    }
  }

  // ---- Direct writes ------------------------------------------------------

  datatype PendingAck = PendingAck(recipient: string, sentAt: string)

  datatype Log = Log(store: Store, acks: map<string, PendingAck>)

  datatype LogStep = LogStep(log: Log, result: InsertResult)

  /** `insertMessage` as direct writers call it: a stored message that requests an ack is also queued
      in `pending_acks`. */
  function InsertDirect(log: Log, input: Input, env: Env): (r: LogStep) {
    var step := Insert(log.store, input, env);
    if !step.result.Inserted? || !input.msg.requestAck then LogStep(log.(store := step.store), step.result)
    else if Hits(env, AtPendingAck) then LogStep(log.(store := step.store), Failed(env.fault.permanent))
    else LogStep(Log(step.store, log.acks[input.msg.id := PendingAck(input.msg.recipient, input.msg.timestampUtc)]),
      step.result)
  }

  datatype BatchState = BatchState(log: Log, results: seq<InsertResult>, failed: bool)

  /** `insertMessageBatch` inside its transaction. The caller sees `log` only if nothing failed. */
  function InsertAll(log: Log, inputs: seq<Input>, envs: seq<Env>): (b: BatchState)
    requires |inputs| == |envs|
    ensures !b.failed ==> |b.results| == |inputs|
  {
    if inputs == [] then BatchState(log, [], false)
    else
      var n := |inputs| - 1;
      var b := InsertAll(log, inputs[..n], envs[..n]);
      if b.failed then b
      else
        var step := InsertDirect(b.log, inputs[n], envs[n]);
        if step.result.Failed? then b.(failed := true) else BatchState(step.log, b.results + [step.result], false)
  }

  lemma {:induction false} InsertAllKeeps(log: Log, inputs: seq<Input>, envs: seq<Env>)
    requires Valid(log.store) && |inputs| == |envs|
    ensures var t := InsertAll(log, inputs, envs).log.store; Valid(t) && Extends(log.store, t)
  {
    if inputs == [] {
    } else {
      var n := |inputs| - 1;
      InsertAllKeeps(log, inputs[..n], envs[..n]);
      var b := InsertAll(log, inputs[..n], envs[..n]);
      InsertKeeps(b.log.store, inputs[n], envs[n]);
      ExtendsTransitive(log.store, b.log.store, Insert(b.log.store, inputs[n], envs[n]).store);
    }
  }

  lemma {:induction false} BatchFailureStays(log: Log, inputs: seq<Input>, envs: seq<Env>, k: nat)
    requires k <= |inputs| == |envs| && InsertAll(log, inputs[..k], envs[..k]).failed
    ensures InsertAll(log, inputs, envs) == InsertAll(log, inputs[..k], envs[..k])
  {
    if k == |inputs| {
      assert inputs[..k] == inputs && envs[..k] == envs;
    } else {
      var n := |inputs| - 1;
      assert inputs[..n][..k] == inputs[..k] && envs[..n][..k] == envs[..k];
      BatchFailureStays(log, inputs[..n], envs[..n], k);
    }
  }

  // ---- syncPush -----------------------------------------------------------

  datatype Reason = NoOffsite | EmptyField | WrongHub | StorageRejected

  datatype Outcome = Accepted | Duplicate | Conflict | Rejected(reason: Reason)

  function Screen(item: Input, hub: string): (r: Option<Reason>) {
    if item.sensitivity == Some("no-offsite") then Some(NoOffsite)
    else if Blank(item.msg.sender) || Blank(item.msg.recipient) || Blank(item.msg.topic) || Blank(item.msg.body)
      then Some(EmptyField)
    else if Truthy(item.originHub) && item.originHub != Some(hub) then Some(WrongHub)
    else None
  }

  /** One item: the new table and its outcome, or no outcome when the error is rethrown. */
  function PushItem(s: Store, hub: string, item: Input, env: Env): (r: (Store, Option<Outcome>)) {
    var screened := Screen(item, hub);
    if screened.Some? then (s, Some(Rejected(screened.value)))
    else
      var step := Insert(s, item.(originHub := Some(hub)), env);
      match step.result
      case Inserted(_) => (step.store, Some(Accepted))
      case AlreadyThere(_, conflict) => (step.store, Some(if conflict then Conflict else Duplicate))
      case Failed(permanent) => (step.store, if permanent then Some(Rejected(StorageRejected)) else None)
  }

  datatype PushState = PushState(store: Store, outcomes: seq<Outcome>, maxOriginSeq: int, aborted: bool)

  function SeqSeen(item: Input, outcome: Outcome): (r: int) {
    if outcome.Rejected? || item.msg.originSeq.None? then 0 else item.msg.originSeq.value
  }

  function Advance(p: PushState, hub: string, item: Input, env: Env): (r: PushState) {
    if p.aborted then p
    else
      var (store, outcome) := PushItem(p.store, hub, item, env);
      if outcome.None? then PushState(store, p.outcomes, p.maxOriginSeq, true)
      else PushState(store, p.outcomes + [outcome.value], Max(p.maxOriginSeq, SeqSeen(item, outcome.value)), false)
  }

  /** The loop of `syncPush`. Nothing after a rethrown error is examined; what was inserted stays. */
  function Push(s: Store, hub: string, items: seq<Input>, envs: seq<Env>): (p: PushState)
    requires |items| == |envs|
    ensures |p.outcomes| <= |items| && (!p.aborted ==> |p.outcomes| == |items|)
  {
    if items == [] then PushState(s, [], 0, false)
    else Advance(Push(s, hub, items[..|items| - 1], envs[..|items| - 1]), hub, items[|items| - 1], envs[|items| - 1])
  }

  /** One turn of the loop. */
  lemma PushStep(s: Store, hub: string, items: seq<Input>, envs: seq<Env>, i: nat, p: PushState, store: Store,
      outcome: Option<Outcome>)
    requires i < |items| == |envs| && Push(s, hub, items[..i], envs[..i]) == p && !p.aborted
    requires PushItem(p.store, hub, items[i], envs[i]) == (store, outcome)
    ensures Push(s, hub, items[..i + 1], envs[..i + 1]) ==
              if outcome.None? then PushState(store, p.outcomes, p.maxOriginSeq, true)
              else PushState(store, p.outcomes + [outcome.value], Max(p.maxOriginSeq, SeqSeen(items[i], outcome.value)),
                false)
  {
    assert items[..i + 1][..i] == items[..i] && envs[..i + 1][..i] == envs[..i];
  }

  lemma {:induction false} PushAbortStays(s: Store, hub: string, items: seq<Input>, envs: seq<Env>, k: nat)
    requires k <= |items| == |envs| && Push(s, hub, items[..k], envs[..k]).aborted
    ensures Push(s, hub, items, envs) == Push(s, hub, items[..k], envs[..k])
  {
    if k == |items| {
      assert items[..k] == items && envs[..k] == envs;
    } else {
      var n := |items| - 1;
      assert items[..n][..k] == items[..k] && envs[..n][..k] == envs[..k];
      PushAbortStays(s, hub, items[..n], envs[..n], k);
    }
  }

  lemma PushItemKeeps(s: Store, hub: string, item: Input, env: Env)
    requires Valid(s)
    ensures Valid(PushItem(s, hub, item, env).0) && Extends(s, PushItem(s, hub, item, env).0)
  {
    InsertKeeps(s, item.(originHub := Some(hub)), env);
  }

  lemma {:induction false} PushKeeps(s: Store, hub: string, items: seq<Input>, envs: seq<Env>)
    requires Valid(s) && |items| == |envs|
    ensures Valid(Push(s, hub, items, envs).store) && Extends(s, Push(s, hub, items, envs).store)
  {
    if items == [] {
    } else {
      var n := |items| - 1;
      PushKeeps(s, hub, items[..n], envs[..n]);
      var p := Push(s, hub, items[..n], envs[..n]);
      if !p.aborted {
        PushItemKeeps(p.store, hub, items[n], envs[n]);
        ExtendsTransitive(s, p.store, Push(s, hub, items, envs).store);
      }
    }
  }

  /** The item's message is in the table as sent, under the pushing hub. */
  predicate StoredAsSent(rows: seq<Row>, hub: string, item: Input) {
    exists r :: r in rows && r.originHub == hub && r.msg == item.msg
  }

  /** A row of the hub shares one of the item's keys and has (or has not) the same four content fields. */
  predicate KeptApart(rows: seq<Row>, hub: string, item: Input, differs: bool) {
    exists r :: r in rows && (IdMatch(r, hub, item.msg.id) || ClientMatch(r, hub, item.msg.clientMsgId)) &&
      ContentDiffers(r, item) == differs
  }

  /** What each reported outcome tells the pusher about the table. */
  predicate Truthful(rows: seq<Row>, hub: string, item: Input, outcome: Outcome) {
    match outcome
    case Accepted => StoredAsSent(rows, hub, item)
    case Duplicate => KeptApart(rows, hub, item, false)
    case Conflict => KeptApart(rows, hub, item, true)
    case Rejected(reason) => reason != StorageRejected ==> Screen(item, hub) == Some(reason)
  }

  lemma TruthfulGrows(rows: seq<Row>, more: seq<Row>, hub: string, item: Input, outcome: Outcome)
    requires rows <= more && Truthful(rows, hub, item, outcome)
    ensures Truthful(more, hub, item, outcome)
  {
    assert forall r :: r in rows ==> r in more;
  }

  lemma ExistingMatches(rows: seq<Row>, hub: string, m: Message, preferId: bool)
    ensures var e := Existing(rows, hub, m, preferId);
            e.Some? ==> e.value in rows && (IdMatch(e.value, hub, m.id) || ClientMatch(e.value, hub, m.clientMsgId))
  {
  }

  lemma InsertAnswers(s: Store, hub: string, item: Input, env: Env)
    ensures var step := Insert(s, item.(originHub := Some(hub)), env);
            match step.result
            case Inserted(_) => StoredAsSent(step.store.rows, hub, item)
            case AlreadyThere(_, conflict) => KeptApart(step.store.rows, hub, item, conflict)
            case Failed(_) => true
  {
    var step := Insert(s, item.(originHub := Some(hub)), env);
    match step.result
    case Inserted(row) =>
      assert step.store.rows[|s.rows|] == row;
    case AlreadyThere(row, conflict) =>
      ExistingMatches(s.rows, hub, item.msg, env.preferId);
      assert ContentDiffers(row, item) == conflict;
    case Failed(_) =>
  }

  lemma PushItemTruthful(s: Store, hub: string, item: Input, env: Env)
    requires PushItem(s, hub, item, env).1.Some?
    ensures Truthful(PushItem(s, hub, item, env).0.rows, hub, item, PushItem(s, hub, item, env).1.value)
  {
    InsertAnswers(s, hub, item, env);
  }

  predicate AllTruthful(p: PushState, hub: string, items: seq<Input>) {
    |p.outcomes| <= |items| && forall i :: 0 <= i < |p.outcomes| ==>
      Truthful(p.store.rows, hub, items[i], p.outcomes[i])
  }

  lemma AdvanceTruthful(p: PushState, hub: string, items: seq<Input>, item: Input, env: Env)
    requires Valid(p.store) && AllTruthful(p, hub, items) && (!p.aborted ==> |p.outcomes| == |items|)
    ensures AllTruthful(Advance(p, hub, item, env), hub, items + [item])
  {
    var q := Advance(p, hub, item, env);
    if !p.aborted {
      PushItemKeeps(p.store, hub, item, env);
      if !q.aborted {
        PushItemTruthful(p.store, hub, item, env);
      }
    }
    forall i | 0 <= i < |q.outcomes| ensures Truthful(q.store.rows, hub, (items + [item])[i], q.outcomes[i]) {
      if i < |p.outcomes| {
        TruthfulGrows(p.store.rows, q.store.rows, hub, items[i], p.outcomes[i]);
      }
    }
  }

  /** Every outcome in the answer is true of the final table. */
  lemma {:induction false} PushTruthful(s: Store, hub: string, items: seq<Input>, envs: seq<Env>)
    requires Valid(s) && |items| == |envs|
    ensures AllTruthful(Push(s, hub, items, envs), hub, items)
  {
    if items == [] {
    } else {
      var n := |items| - 1;
      PushTruthful(s, hub, items[..n], envs[..n]);
      PushKeeps(s, hub, items[..n], envs[..n]);
      AdvanceTruthful(Push(s, hub, items[..n], envs[..n]), hub, items[..n], items[n], envs[n]);
      assert items[..n] + [items[n]] == items;
    }
  }

  // ---- Replay -------------------------------------------------------------

  predicate NoFaults(envs: seq<Env>) { forall e :: e in envs ==> e.fault == NoFault }

  /** An item a repeated push will not insert: it is screened out, or a key of it is taken. */
  predicate Settled(rows: seq<Row>, hub: string, item: Input) {
    Screen(item, hub).Some? || (hub != "" && KeyTaken(rows, hub, item.msg))
  }

  lemma SettledGrows(rows: seq<Row>, more: seq<Row>, hub: string, item: Input)
    requires rows <= more && Settled(rows, hub, item)
    ensures Settled(more, hub, item)
  {
    assert forall r :: r in rows ==> r in more;
  }

  lemma PushItemSettles(s: Store, hub: string, item: Input, env: Env)
    requires env.fault == NoFault && PushItem(s, hub, item, env).1.Some?
    ensures Settled(PushItem(s, hub, item, env).0.rows, hub, item)
  {
    var t := PushItem(s, hub, item, env).0;
    if Screen(item, hub).None? && t != s {
      var r := t.rows[|s.rows|];
      assert r in t.rows && IdMatch(r, hub, item.msg.id);
    }
  }

  lemma SettledPushesNothing(s: Store, hub: string, item: Input, env: Env)
    requires env.fault == NoFault && Settled(s.rows, hub, item)
    ensures PushItem(s, hub, item, env).0 == s
    ensures PushItem(s, hub, item, env).1.Some? && PushItem(s, hub, item, env).1.value != Accepted
  {
  }

  predicate AllSettled(rows: seq<Row>, hub: string, items: seq<Input>) {
    forall item :: item in items ==> Settled(rows, hub, item)
  }

  lemma AllSettledGrows(rows: seq<Row>, more: seq<Row>, hub: string, items: seq<Input>)
    requires rows <= more && AllSettled(rows, hub, items)
    ensures AllSettled(more, hub, items)
  {
    forall item | item in items ensures Settled(more, hub, item) {
      SettledGrows(rows, more, hub, item);
    }
  }

  /** One more item: what was settled stays settled, and the item is. */
  lemma SettlesOneMore(s: Store, hub: string, items: seq<Input>, item: Input, env: Env)
    requires Valid(s) && env.fault == NoFault && AllSettled(s.rows, hub, items) && PushItem(s, hub, item, env).1.Some?
    ensures AllSettled(PushItem(s, hub, item, env).0.rows, hub, items + [item])
  {
    var t := PushItem(s, hub, item, env).0;
    PushItemKeeps(s, hub, item, env);
    PushItemSettles(s, hub, item, env);
    AllSettledGrows(s.rows, t.rows, hub, items);
  }

  lemma {:induction false} PushSettles(s: Store, hub: string, items: seq<Input>, envs: seq<Env>)
    requires Valid(s) && |items| == |envs| && NoFaults(envs) && !Push(s, hub, items, envs).aborted
    ensures AllSettled(Push(s, hub, items, envs).store.rows, hub, items)
  {
    if items == [] {
    } else {
      var n := |items| - 1;
      assert envs[n] in envs && NoFaults(envs[..n]);
      PushSettles(s, hub, items[..n], envs[..n]);
      PushKeeps(s, hub, items[..n], envs[..n]);
      SettlesOneMore(Push(s, hub, items[..n], envs[..n]).store, hub, items[..n], items[n], envs[n]);
      assert items == items[..n] + [items[n]];
    }
  }

  lemma {:induction false} SettledBatch(s: Store, hub: string, items: seq<Input>, envs: seq<Env>)
    requires |items| == |envs| && NoFaults(envs) && AllSettled(s.rows, hub, items)
    ensures var q := Push(s, hub, items, envs); !q.aborted && q.store == s && Accepted !in q.outcomes
  {
    if items == [] {
    } else {
      var n := |items| - 1;
      SettledBatch(s, hub, items[..n], envs[..n]);
      SettledPushesNothing(s, hub, items[n], envs[n]);
    }
  }

  /** Replaying a batch after any further growth of the table accepts nothing and changes nothing,
      whatever rows `LIMIT 1` picks. */
  lemma ReplayAcceptsNothing(s: Store, hub: string, items: seq<Input>, first: seq<Env>, later: Store, again: seq<Env>)
    requires Valid(s) && |items| == |first| == |again| && NoFaults(first) && NoFaults(again)
    requires !Push(s, hub, items, first).aborted && Extends(Push(s, hub, items, first).store, later)
    ensures var q := Push(later, hub, items, again); !q.aborted && q.store == later && Accepted !in q.outcomes
  {
    PushSettles(s, hub, items, first);
    AllSettledGrows(Push(s, hub, items, first).store.rows, later.rows, hub, items);
    SettledBatch(later, hub, items, again);
  }

  // ---- Validated items ----------------------------------------------------

  /** Validation never leaves an empty client key. */
  predicate KeyValid(item: Input) { item.msg.clientMsgId != Some("") }

  /** With such keys neither UNIQUE constraint is ever hit: a fault-free item is not refused by storage. */
  lemma ValidItemNeverHitsConstraint(s: Store, hub: string, item: Input, env: Env)
    requires hub != "" && KeyValid(item) && env.fault == NoFault
    ensures PushItem(s, hub, item, env).1.Some? && PushItem(s, hub, item, env).1.value != Rejected(StorageRejected)
  {
    ConstraintHitIff(s, item.(originHub := Some(hub)), env);
  }

  predicate NoneRefusedByStorage(p: PushState) { !p.aborted && Rejected(StorageRejected) !in p.outcomes }

  lemma ValidItemAdvances(p: PushState, hub: string, item: Input, env: Env)
    requires NoneRefusedByStorage(p) && hub != "" && KeyValid(item) && env.fault == NoFault
    ensures NoneRefusedByStorage(Advance(p, hub, item, env))
  {
    ValidItemNeverHitsConstraint(p.store, hub, item, env);
  }

  lemma {:induction false} ValidBatchNeverHitsConstraint(s: Store, hub: string, items: seq<Input>, envs: seq<Env>)
    requires hub != "" && |items| == |envs| && NoFaults(envs) && forall item :: item in items ==> KeyValid(item)
    ensures NoneRefusedByStorage(Push(s, hub, items, envs))
  {
    if items == [] {
    } else {
      var n := |items| - 1;
      assert items[n] in items && envs[n] in envs && forall item :: item in items[..n] ==> item in items;
      ValidBatchNeverHitsConstraint(s, hub, items[..n], envs[..n]);
      ValidItemAdvances(Push(s, hub, items[..n], envs[..n]), hub, items[n], envs[n]);
    }
  }

  datatype Rejection = Rejection(id: string, clientMsgId: Option<string>, reason: Reason)

  function Rejections(items: seq<Input>, outcomes: seq<Outcome>): (r: seq<Rejection>)
    requires |outcomes| <= |items|
  {
    if outcomes == [] then []
    else
      var n := |outcomes| - 1;
      Rejections(items, outcomes[..n]) +
      if outcomes[n].Rejected? then [Rejection(items[n].msg.id, items[n].msg.clientMsgId, outcomes[n].reason)] else []
  }

  /** The rejections listed are those among the outcomes. */
  lemma {:induction false} RejectionsAreOutcomes(items: seq<Input>, outcomes: seq<Outcome>, r: Rejection)
    requires |outcomes| <= |items| && r in Rejections(items, outcomes)
    ensures Rejected(r.reason) in outcomes
  {
    if outcomes == [] {
    } else {
      var n := |outcomes| - 1;
      if r in Rejections(items, outcomes[..n]) {
        RejectionsAreOutcomes(items, outcomes[..n], r);
      } else {
        assert outcomes[n] in outcomes;
      }
    }
  }

  // ---- Accounting ---------------------------------------------------------

  /** The ids reported under one outcome kind, in item order. */
  function IdsWhere(items: seq<Input>, outcomes: seq<Outcome>, wanted: Outcome): (r: seq<string>)
    requires |outcomes| <= |items|
  {
    if outcomes == [] then []
    else
      var n := |outcomes| - 1;
      IdsWhere(items, outcomes[..n], wanted) + if outcomes[n] == wanted then [items[n].msg.id] else []
  }

  lemma ListsStep(items: seq<Input>, outcomes: seq<Outcome>, last: Outcome)
    requires |outcomes| < |items|
    ensures forall wanted :: IdsWhere(items, outcomes + [last], wanted)
              == IdsWhere(items, outcomes, wanted) + if last == wanted then [items[|outcomes|].msg.id] else []
    ensures Rejections(items, outcomes + [last]) == Rejections(items, outcomes)
              + if last.Rejected? then [Rejection(items[|outcomes|].msg.id, items[|outcomes|].msg.clientMsgId,
                last.reason)] else []
  {
    assert (outcomes + [last])[..|outcomes|] == outcomes;
  }

  function RejectedIds(rs: seq<Rejection>): (r: seq<string>) {
    if rs == [] then [] else RejectedIds(rs[..|rs| - 1]) + [rs[|rs| - 1].id]
  }

  function ItemIds(items: seq<Input>): (r: seq<string>) {
    if items == [] then [] else ItemIds(items[..|items| - 1]) + [items[|items| - 1].msg.id]
  }

  /** The answer of a completed push, and the highest origin sequence number it saw. */
  datatype PushLists = PushLists(
    accepted: seq<string>, duplicates: seq<string>, conflicts: seq<string>, rejected: seq<Rejection>, maxOriginSeq: int)

  function ListsOf(items: seq<Input>, p: PushState): (r: PushLists)
    requires |p.outcomes| <= |items|
  {
    PushLists(IdsWhere(items, p.outcomes, Accepted), IdsWhere(items, p.outcomes, Duplicate),
              IdsWhere(items, p.outcomes, Conflict), Rejections(items, p.outcomes), p.maxOriginSeq)
  }

  /** Every item is in exactly one of the four lists. */
  predicate Partition(l: PushLists, items: seq<Input>) {
    multiset(l.accepted) + multiset(l.duplicates) + multiset(l.conflicts) + multiset(RejectedIds(l.rejected)) ==
      multiset(ItemIds(items))
  }

  lemma ItemIdsGrow(items: seq<Input>)
    requires items != []
    ensures multiset(ItemIds(items)) == multiset(ItemIds(items[..|items| - 1])) + multiset{items[|items| - 1].msg.id}
  {
  }

  lemma RejectionsGrow(items: seq<Input>, outcomes: seq<Outcome>)
    requires 0 < |outcomes| <= |items|
    ensures var n := |outcomes| - 1;
            multiset(RejectedIds(Rejections(items, outcomes))) ==
              multiset(RejectedIds(Rejections(items, outcomes[..n])))
              + if outcomes[n].Rejected? then multiset{items[n].msg.id} else multiset{}
  {
    var rs, rest := Rejections(items, outcomes), Rejections(items, outcomes[..|outcomes| - 1]);
    if outcomes[|outcomes| - 1].Rejected? {
      assert rs[..|rs| - 1] == rest;
    } else {
      assert rs == rest;
    }
  }

  lemma GrowsByOne(items: seq<Input>, outcomes: seq<Outcome>, wanted: Outcome)
    requires 0 < |outcomes| <= |items|
    ensures var n := |outcomes| - 1;
            multiset(IdsWhere(items, outcomes, wanted)) == multiset(IdsWhere(items, outcomes[..n], wanted))
              + if outcomes[n] == wanted then multiset{items[n].msg.id} else multiset{}
  {
  }

  lemma {:induction false} RejectionsPrefix(items: seq<Input>, n: nat, outcomes: seq<Outcome>)
    requires |outcomes| <= n <= |items|
    ensures Rejections(items[..n], outcomes) == Rejections(items, outcomes)
  {
    if outcomes == [] {
    } else {
      RejectionsPrefix(items, n, outcomes[..|outcomes| - 1]);
    }
  }

  lemma {:induction false} IdsWherePrefix(items: seq<Input>, n: nat, outcomes: seq<Outcome>, wanted: Outcome)
    requires |outcomes| <= n <= |items|
    ensures IdsWhere(items[..n], outcomes, wanted) == IdsWhere(items, outcomes, wanted)
  {
    if outcomes == [] {
    } else {
      IdsWherePrefix(items, n, outcomes[..|outcomes| - 1], wanted);
    }
  }

  /** All ids an answer names. */
  function Named(items: seq<Input>, outcomes: seq<Outcome>): (ids: multiset<string>)
    requires |outcomes| <= |items|
  {
    multiset(IdsWhere(items, outcomes, Accepted)) + multiset(IdsWhere(items, outcomes, Duplicate))
    + multiset(IdsWhere(items, outcomes, Conflict)) + multiset(RejectedIds(Rejections(items, outcomes)))
  }

  lemma NamedPrefix(items: seq<Input>, n: nat, outcomes: seq<Outcome>)
    requires |outcomes| <= n <= |items|
    ensures Named(items[..n], outcomes) == Named(items, outcomes)
  {
    IdsWherePrefix(items, n, outcomes, Accepted);
    IdsWherePrefix(items, n, outcomes, Duplicate);
    IdsWherePrefix(items, n, outcomes, Conflict);
    RejectionsPrefix(items, n, outcomes);
  }

  lemma NamedGrows(items: seq<Input>, outcomes: seq<Outcome>)
    requires 0 < |outcomes| <= |items|
    ensures var n := |outcomes| - 1; Named(items, outcomes) == Named(items, outcomes[..n]) + multiset{items[n].msg.id}
  {
    GrowsByOne(items, outcomes, Accepted);
    GrowsByOne(items, outcomes, Duplicate);
    GrowsByOne(items, outcomes, Conflict);
    RejectionsGrow(items, outcomes);
  }

  /** The four answer lists together hold every item id exactly once. */
  lemma {:induction false} AnswerPartitions(items: seq<Input>, outcomes: seq<Outcome>)
    requires |outcomes| == |items|
    ensures Named(items, outcomes) == multiset(ItemIds(items))
  {
    if outcomes == [] {
    } else {
      var n := |outcomes| - 1;
      AnswerPartitions(items[..n], outcomes[..n]);
      NamedPrefix(items, n, outcomes[..n]);
      NamedGrows(items, outcomes);
      ItemIdsGrow(items);
    }
  }

  /** Each item of a completed push is reported as accepted, duplicate, conflict or rejected, once. */
  lemma PushPartitions(s: Store, hub: string, items: seq<Input>, envs: seq<Env>)
    requires |items| == |envs| && !Push(s, hub, items, envs).aborted
    ensures Partition(ListsOf(items, Push(s, hub, items, envs)), items)
  {
    AnswerPartitions(items, Push(s, hub, items, envs).outcomes);
  }

  function CountOf(rows: seq<Row>, hub: string): (r: nat) {
    if rows == [] then 0
    else CountOf(rows[..|rows| - 1], hub) + if rows[|rows| - 1].originHub == hub then 1 else 0
  }

  lemma CountAppend(rows: seq<Row>, r: Row, hub: string)
    ensures CountOf(rows + [r], hub) == CountOf(rows, hub) + if r.originHub == hub then 1 else 0
  {
    assert (rows + [r])[..|rows|] == rows;
  }

  lemma InsertStores(s: Store, input: Input, env: Env, h: string)
    requires !Hits(env, AfterInsert) && input.originHub.Some?
    ensures var step := Insert(s, input, env);
            CountOf(step.store.rows, h) == CountOf(s.rows, h) + if step.result.Inserted? && h == input.originHub.value
              then 1 else 0
  {
    var step := Insert(s, input, env);
    if step.result.Inserted? {
      CountAppend(s.rows, step.result.row, h);
    } else {
      assert step.store == s;
    }
  }

  lemma PushItemStores(s: Store, hub: string, item: Input, env: Env, h: string)
    requires !Hits(env, AfterInsert)
    ensures var (t, outcome) := PushItem(s, hub, item, env);
            CountOf(t.rows, h) == CountOf(s.rows, h) + if outcome == Some(Accepted) && h == hub then 1 else 0
  {
    InsertStores(s, item.(originHub := Some(hub)), env, h);
  }

  /** Without a fault between INSERT and its follow-up, a push adds to the pushing hub's rows exactly
      what it reports as accepted, and nothing to any other origin. */
  lemma {:induction false} PushStoresAccepted(s: Store, hub: string, items: seq<Input>, envs: seq<Env>, h: string)
    requires |items| == |envs| && forall e :: e in envs ==> !Hits(e, AfterInsert)
    ensures var p := Push(s, hub, items, envs);
            CountOf(p.store.rows, h) == CountOf(s.rows, h) + if h == hub then |IdsWhere(items, p.outcomes, Accepted)|
              else 0
  {
    if items == [] {
    } else {
      var n := |items| - 1;
      PushStoresAccepted(s, hub, items[..n], envs[..n], h);
      var p, q := Push(s, hub, items[..n], envs[..n]), Push(s, hub, items, envs);
      IdsWherePrefix(items, n, p.outcomes, Accepted);
      assert envs[n] in envs;
      PushItemStores(p.store, hub, items[n], envs[n], h);
      if !p.aborted && !q.aborted {
        assert q.outcomes[..n] == p.outcomes;
      }
    }
  }

  // ---- sync_cursors -------------------------------------------------------

  datatype SyncCursor = SyncCursor(lastOriginSeq: int, messagesReceived: nat, updatedAt: string)

  type SyncCursors = map<string, SyncCursor>

  function CursorFor(cursors: SyncCursors, hub: string, lists: PushLists, now: string): (r: SyncCursor) {
    if hub in cursors
    then SyncCursor(Max(cursors[hub].lastOriginSeq, lists.maxOriginSeq),
      cursors[hub].messagesReceived + |lists.accepted|, now)
    else SyncCursor(lists.maxOriginSeq, |lists.accepted|, now)
  }

  function CursorsAfter(cursors: SyncCursors, hub: string, lists: PushLists, now: string): (r: SyncCursors) {
    cursors[hub := CursorFor(cursors, hub, lists, now)]
  }

  // ---- Runs of pushes -----------------------------------------------------

  datatype PushCall = PushCall(hub: string, items: seq<Input>, envs: seq<Env>, now: string)

  datatype Books = Books(store: Store, cursors: SyncCursors)

  function Received(b: Books, hub: string): (r: nat) { if hub in b.cursors then b.cursors[hub].messagesReceived else 0 }

  /** The table and cursor rows after one push; an aborted one leaves the cursors. */
  function NextBooks(b: Books, c: PushCall): (r: Books)
    requires |c.items| == |c.envs|
  {
    var p := Push(b.store, c.hub, c.items, c.envs);
    Books(p.store, if p.aborted then b.cursors else CursorsAfter(b.cursors, c.hub, ListsOf(c.items, p), c.now))
  }

  /** A series of pushes by any hubs. */
  function RunPushes(calls: seq<PushCall>): (b: Books)
    requires forall c :: c in calls ==> |c.items| == |c.envs|
  {
    if calls == [] then Books(Store([], 1), map[]) else NextBooks(RunPushes(calls[..|calls| - 1]), calls[|calls| - 1])
  }

  predicate Completes(calls: seq<PushCall>, k: nat)
    requires k < |calls| && forall c :: c in calls ==> |c.items| == |c.envs|
  {
    !Push(RunPushes(calls[..k]).store, calls[k].hub, calls[k].items, calls[k].envs).aborted
  }

  ghost predicate NeverAborts(calls: seq<PushCall>)
    requires forall c :: c in calls ==> |c.items| == |c.envs|
  {
    forall k :: 0 <= k < |calls| ==> Completes(calls, k)
  }

  lemma NextCounts(b: Books, c: PushCall, hub: string)
    requires |c.items| == |c.envs| && !Push(b.store, c.hub, c.items, c.envs).aborted
    requires (forall e :: e in c.envs ==> !Hits(e, AfterInsert)) && Received(b, hub) == CountOf(b.store.rows, hub)
    ensures Received(NextBooks(b, c), hub) == CountOf(NextBooks(b, c).store.rows, hub)
  {
    PushStoresAccepted(b.store, c.hub, c.items, c.envs, hub);
  }

  lemma NeverAbortsBefore(calls: seq<PushCall>)
    requires calls != [] && (forall c :: c in calls ==> |c.items| == |c.envs|) && NeverAborts(calls)
    ensures NeverAborts(calls[..|calls| - 1])
  {
    var init := calls[..|calls| - 1];
    forall k | 0 <= k < |init| ensures Completes(init, k) {
      assert init[..k] == calls[..k] && Completes(calls, k);
    }
  }

  /** While no push aborts and none fails after its INSERT, `messages_received` of every hub is the
      number of its rows in the table. */
  lemma {:induction false} ReceivedIsStored(calls: seq<PushCall>, hub: string)
    requires (forall c :: c in calls ==> |c.items| == |c.envs|) && NeverAborts(calls)
    requires forall c, e :: c in calls && e in c.envs ==> !Hits(e, AfterInsert)
    ensures Received(RunPushes(calls), hub) == CountOf(RunPushes(calls).store.rows, hub)
  {
    if calls == [] {
    } else {
      var n := |calls| - 1;
      NeverAbortsBefore(calls);
      assert Completes(calls, n);
      ReceivedIsStored(calls[..n], hub);
      assert calls[n] in calls;
      NextCounts(RunPushes(calls[..n]), calls[n], hub);
    }
  }

  lemma NextSeqGrows(b: Books, c: PushCall, hub: string)
    requires |c.items| == |c.envs| && hub in b.cursors
    ensures hub in NextBooks(b, c).cursors && b.cursors[hub].lastOriginSeq <= NextBooks(b, c).cursors[hub].lastOriginSeq
  {
  }

  /** `last_origin_seq` never decreases over further pushes, aborted or not. */
  lemma {:induction false} LastOriginSeqGrows(calls: seq<PushCall>, k: nat, hub: string)
    requires (forall c :: c in calls ==> |c.items| == |c.envs|) && k <= |calls| && hub in RunPushes(calls[..k]).cursors
    ensures hub in RunPushes(calls).cursors
    ensures RunPushes(calls[..k]).cursors[hub].lastOriginSeq <= RunPushes(calls).cursors[hub].lastOriginSeq
  {
    if k == |calls| {
      assert calls[..k] == calls;
    } else {
      var n := |calls| - 1;
      assert calls[..n][..k] == calls[..k];
      LastOriginSeqGrows(calls[..n], k, hub);
      NextSeqGrows(RunPushes(calls[..n]), calls[n], hub);
    }
  }
}
