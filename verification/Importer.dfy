/** The resumable importer: `/sync/push` as its caller sees it, the retry loop of `post`, the batch loop
    with its saved offset, and what survives crashes, lost answers and repeated requests. */
module Importer {
  import opened Prelude
  import opened MessageStore

  const BATCH := 500
  const RETRIES := 5
  const MAX_SYNC_ID_LEN := 128

  // ---- The /sync/push route -----------------------------------------------

  /** The validators' verdict on one raw item at one moment (it can change with the clock), the id minted
      for an item without one, and the storage environment of its insertion. */
  datatype ItemEnv = ItemEnv(core: Option<Message>, minted: string, env: Env)

  function TrimmedKey(key: Option<string>): (r: Option<string>) {
    if key.None? || Blank(key.value) then None else Some(Trim(key.value))
  }

  /** `buildSyncPushItem`: the validated content under the item's own trimmed id, or none when it throws. */
  function BuildItem(raw: Message, e: ItemEnv): (r: Option<Message>) {
    var id := if Blank(raw.id) then e.minted else Trim(raw.id);
    if e.core.None? || Blank(e.core.value.sender) || |id| > MAX_SYNC_ID_LEN || '\0' in id then None
    else Some(e.core.value.(id := id, clientMsgId := TrimmedKey(raw.clientMsgId)))
  }

  function BuiltItems(raws: seq<Message>, hub: string, envs: seq<ItemEnv>): (items: seq<Input>)
    requires |raws| == |envs|
  {
    if raws == [] then []
    else
      var n := |raws| - 1;
      var built := BuildItem(raws[n], envs[n]);
      BuiltItems(raws[..n], hub, envs[..n]) + if built.None? then [] else [Input(built.value, Some(hub), None, None)]
  }

  function BuiltEnvs(raws: seq<Message>, hub: string, envs: seq<ItemEnv>): (es: seq<Env>)
    requires |raws| == |envs|
    ensures |es| == |BuiltItems(raws, hub, envs)|
  {
    if raws == [] then []
    else
      var n := |raws| - 1;
      BuiltEnvs(raws[..n], hub, envs[..n]) + if BuildItem(raws[n], envs[n]).None? then [] else [envs[n].env]
  }

  /** Ids, as sent, of the items that never reach the store. */
  function PreRejected(raws: seq<Message>, envs: seq<ItemEnv>): (r: seq<string>)
    requires |raws| == |envs|
  {
    if raws == [] then []
    else
      var n := |raws| - 1;
      PreRejected(raws[..n], envs[..n]) + if BuildItem(raws[n], envs[n]).None? then [raws[n].id] else []
  }

  datatype Answer = Answer(lists: PushLists, preRejected: seq<string>)

  datatype Served = Served(store: Store, answer: Option<Answer>)

  /** One `/sync/push` request. No answer stands for the 500 of a rethrown storage error. */
  function Route(s: Store, hub: string, raws: seq<Message>, envs: seq<ItemEnv>): (r: Served)
    requires |raws| == |envs|
  {
    var items := BuiltItems(raws, hub, envs);
    var p := Push(s, hub, items, BuiltEnvs(raws, hub, envs));
    Served(p.store, if p.aborted then None else Some(Answer(ListsOf(items, p), PreRejected(raws, envs))))
  }

  /** Every item built from a request has a usable client key or none. */
  lemma {:induction false} BuiltKeysValid(raws: seq<Message>, hub: string, envs: seq<ItemEnv>)
    requires |raws| == |envs|
    ensures forall item :: item in BuiltItems(raws, hub, envs) ==> KeyValid(item)
  {
    if raws == [] {
    } else {
      BuiltKeysValid(raws[..|raws| - 1], hub, envs[..|raws| - 1]);
    }
  }

  predicate FaultFree(envs: seq<ItemEnv>) { forall e :: e in envs ==> e.env.fault == NoFault }

  lemma {:induction false} BuiltFaultFree(raws: seq<Message>, hub: string, envs: seq<ItemEnv>)
    requires |raws| == |envs| && FaultFree(envs)
    ensures NoFaults(BuiltEnvs(raws, hub, envs))
  {
    if raws == [] {
    } else {
      var n := |raws| - 1;
      assert envs[n] in envs && FaultFree(envs[..n]);
      BuiltFaultFree(raws[..n], hub, envs[..n]);
    }
  }

  /** Without storage faults a request is always answered and storage rejects none of its items: with
      validated items neither UNIQUE key is ever violated. */
  lemma FaultFreeRouteAnswers(s: Store, hub: string, raws: seq<Message>, envs: seq<ItemEnv>)
    requires hub != "" && |raws| == |envs| && FaultFree(envs)
    ensures var r := Route(s, hub, raws, envs);
            r.answer.Some? && forall x :: x in r.answer.value.lists.rejected ==> x.reason != StorageRejected
  {
    var items, es := BuiltItems(raws, hub, envs), BuiltEnvs(raws, hub, envs);
    BuiltKeysValid(raws, hub, envs);
    BuiltFaultFree(raws, hub, envs);
    ValidBatchNeverHitsConstraint(s, hub, items, es);
    var p := Push(s, hub, items, es);
    forall x | x in Rejections(items, p.outcomes) ensures x.reason != StorageRejected {
      RejectionsAreOutcomes(items, p.outcomes, x);
    }
  }

  // ---- post() -------------------------------------------------------------

  /** One HTTP attempt. `NoService` never reaches the store: status 4xx other than 429 is fatal, the rest is
      retried. `Handled` reaches it; its answer is delivered, lost in a way `post` retries, or lost
      together with the process. */
  datatype Reply = Delivered | Lost | Died

  datatype Attempt = NoService(fatal: bool) | Handled(envs: seq<ItemEnv>, reply: Reply)

  predicate Plausible(raws: seq<Message>, a: Attempt) { a.Handled? ==> |a.envs| == |raws| }

  predicate AllPlausible(raws: seq<Message>, attempts: seq<Attempt>)
  {
    forall a :: a in attempts ==> Plausible(raws, a)
  }

  /** The attempts `post` makes: the first delivered answer ends them, a fatal reply or the last failure
      ends the process. */
  function PostFrom(s: Store, hub: string, raws: seq<Message>, attempts: seq<Attempt>): (res: Served)
    requires AllPlausible(raws, attempts)
    decreases |attempts|
  {
    if attempts == [] then Served(s, None)
    else
      match attempts[0]
      case NoService(fatal) => if fatal then Served(s, None) else PostFrom(s, hub, raws, attempts[1..])
      case Handled(envs, reply) =>
        assert Plausible(raws, attempts[0]);
        var r := Route(s, hub, raws, envs);
        if reply == Died then Served(r.store, None)
        else if reply == Delivered && r.answer.Some? then r
        else PostFrom(r.store, hub, raws, attempts[1..])
  }

  /** What one attempt does: it ends `post`, or leaves a store to go on with. */
  datatype Turn = Stop(served: Served) | GoOn(store: Store)

  function Attempted(s: Store, hub: string, raws: seq<Message>, a: Attempt): (t: Turn)
    requires Plausible(raws, a)
  {
    if a.NoService? then (if a.fatal then Stop(Served(s, None)) else GoOn(s))
    else
      var r := Route(s, hub, raws, a.envs);
      if a.reply == Died then Stop(Served(r.store, None))
      else if a.reply == Delivered && r.answer.Some? then Stop(r)
      else GoOn(r.store)
  }

  /** One turn of the retry loop. */
  lemma PostStep(s: Store, hub: string, raws: seq<Message>, attempts: seq<Attempt>, k: nat)
    requires AllPlausible(raws, attempts) && k < |attempts|
    ensures AllPlausible(raws, attempts[k..]) && AllPlausible(raws, attempts[k + 1..]) && Plausible(raws, attempts[k])
    ensures var t := Attempted(s, hub, raws, attempts[k]);
            PostFrom(s, hub, raws, attempts[k..]) == if t.Stop? then t.served
              else PostFrom(t.store, hub, raws, attempts[k + 1..])
  {
    assert attempts[k] in attempts && attempts[k..][0] == attempts[k] && attempts[k..][1..] == attempts[k + 1..];
  }

  // ---- The import loop ----------------------------------------------------

  /** What the resume binding identifies: the exact filtered export and its settings. SHA-256 digests
      are taken to be free of collisions. */
  datatype Job = Job(hub: string, items: seq<Message>, settings: string)

  datatype StateFile = StateFile(messagesOffset: int, presenceOffset: int, binding: Option<Job>)

  /** An answer that reached the importer. */
  datatype Delivery = Delivery(hub: string, raws: seq<Message>, answer: Answer)

  datatype World = World(store: Store, saved: StateFile, delivered: seq<Delivery>)

  /** One batch: its attempts, and whether the process dies before or after saving the new offset. */
  datatype BatchEnv = BatchEnv(attempts: seq<Attempt>, diesBeforeSave: bool, diesAfterSave: bool)

  datatype Outcome = Outcome(world: World, finished: bool)

  /** `bind_resume_state` and the offset checks: the starting offset, or none when the run is refused. */
  function StartOffset(saved: StateFile, job: Job): (r: Option<nat>) {
    if saved.messagesOffset < 0 || saved.presenceOffset < 0 then None
    else if saved.binding.None? && (saved.messagesOffset != 0 || saved.presenceOffset != 0) then None
    else if saved.binding.Some? && saved.binding.value != job then None
    else if saved.messagesOffset > |job.items| then None
    else Some(saved.messagesOffset)
  }

  function BatchAt(job: Job, off: nat): (raws: seq<Message>)
    requires off <= |job.items|
    ensures off + |raws| <= |job.items| && (off < |job.items| ==> 0 < |raws| <= BATCH)
  {
    job.items[off..Min(off + BATCH, |job.items|)]
  }

  predicate PlausibleBatch(job: Job, off: nat, b: BatchEnv)
    requires off <= |job.items|
  {
    |b.attempts| <= RETRIES && AllPlausible(BatchAt(job, off), b.attempts)
  }

  predicate PlausibleRun(job: Job, off: nat, envs: seq<BatchEnv>)
    requires off <= |job.items|
    decreases |envs|
  {
    envs == [] || off == |job.items| || (PlausibleBatch(job, off, envs[0]) &&
      PlausibleRun(job, off + |BatchAt(job, off)|, envs[1..]))
  }

  function Acknowledge(w: World, job: Job, raws: seq<Message>, r: Served): (res: World)
    requires r.answer.Some?
  {
    World(r.store, w.saved, w.delivered + [Delivery(job.hub, raws, r.answer.value)])
  }

  function SaveOffset(w: World, job: Job, off: nat): (r: World) {
    w.(saved := StateFile(off, w.saved.presenceOffset, Some(job)))
  }

  /** The loop over batches from an offset. Running out of environment is one more way to be killed. */
  function ImportFrom(w: World, job: Job, off: nat, envs: seq<BatchEnv>): (res: Outcome)
    requires off <= |job.items| && PlausibleRun(job, off, envs)
    decreases |envs|
  {
    if off == |job.items| then Outcome(w, true)
    else if envs == [] then Outcome(w, false)
    else
      var raws, b := BatchAt(job, off), envs[0];
      var r := PostFrom(w.store, job.hub, raws, b.attempts);
      if r.answer.None? then Outcome(w.(store := r.store), false)
      else
        var acked := Acknowledge(w, job, raws, r);
        if b.diesBeforeSave then Outcome(acked, false)
        else
          var saved := SaveOffset(acked, job, off + |raws|);
          if b.diesAfterSave then Outcome(saved, false) else ImportFrom(saved, job, off + |raws|, envs[1..])
  }

  /** What one batch does: it ends the process, or leaves a world to go on with. */
  datatype BatchTurn = Ended(outcome: Outcome) | Next(world: World)

  function Turned(w: World, job: Job, off: nat, b: BatchEnv): (t: BatchTurn)
    requires off < |job.items| && PlausibleBatch(job, off, b)
  {
    var raws := BatchAt(job, off);
    var r := PostFrom(w.store, job.hub, raws, b.attempts);
    if r.answer.None? then Ended(Outcome(w.(store := r.store), false))
    else
      var acked := Acknowledge(w, job, raws, r);
      if b.diesBeforeSave then Ended(Outcome(acked, false))
      else
        var saved := SaveOffset(acked, job, off + |raws|);
        if b.diesAfterSave then Ended(Outcome(saved, false)) else Next(saved)
  }

  lemma ImportTurn(w: World, job: Job, off: nat, envs: seq<BatchEnv>, k: nat)
    requires off < |job.items| && k < |envs| && PlausibleRun(job, off, envs[k..])
    ensures PlausibleBatch(job, off, envs[k]) && PlausibleRun(job, off + |BatchAt(job, off)|, envs[k + 1..])
    ensures var t := Turned(w, job, off, envs[k]);
            ImportFrom(w, job, off, envs[k..]) ==
              if t.Ended? then t.outcome else ImportFrom(t.world, job, off + |BatchAt(job, off)|, envs[k + 1..])
  {
    assert envs[k..][0] == envs[k] && envs[k..][1..] == envs[k + 1..];
  }

  lemma FirstTurn(w: World, job: Job, off: nat, b: BatchEnv, rest: seq<BatchEnv>)
    requires off < |job.items| && PlausibleRun(job, off, [b] + rest)
    ensures PlausibleBatch(job, off, b) && PlausibleRun(job, off + |BatchAt(job, off)|, rest)
    ensures var t := Turned(w, job, off, b);
            ImportFrom(w, job, off, [b] + rest) == if t.Ended? then t.outcome
              else ImportFrom(t.world, job, off + |BatchAt(job, off)|, rest)
  {
    assert ([b] + rest)[1..] == rest;
  }

  lemma CutTurn(w: World, job: Job, off: nat, b: BatchEnv)
    requires off < |job.items| && PlausibleBatch(job, off, b) && Turned(w, job, off, b).Next?
    ensures PlausibleBatch(job, off, b.(diesAfterSave := true))
    ensures Turned(w, job, off, b.(diesAfterSave := true)) == Ended(Outcome(Turned(w, job, off, b).world, false))
    ensures Turned(w, job, off, b).world.saved == StateFile(off + |BatchAt(job, off)|, w.saved.presenceOffset,
            Some(job))
  {
  }

  lemma CutLeaves(w: World, job: Job, off: nat, b: BatchEnv, cut: BatchEnv)
    requires off < |job.items| && PlausibleBatch(job, off, b) && w.saved.presenceOffset >= 0
    requires Turned(w, job, off, b).Next? && cut == b.(diesAfterSave := true)
    ensures PlausibleRun(job, off, [cut] + [])
    ensures ImportFrom(w, job, off, [cut] + []).world == Turned(w, job, off, b).world
    ensures StartOffset(Turned(w, job, off, b).world.saved, job) == Some(off + |BatchAt(job, off)|)
  {
    CutTurn(w, job, off, b);
    FirstTurn(w, job, off, cut, []);
  }

  /** A process that goes on after a batch has the effect of one that dies there and one that resumes, so
      between the two another writer may be thought to come in. */
  lemma CutAfterBatch(w: World, job: Job, off: nat, b: BatchEnv, cut: BatchEnv, rest: seq<BatchEnv>)
    requires off < |job.items| && PlausibleRun(job, off, [b] + rest) && PlausibleBatch(job, off, b) &&
             w.saved.presenceOffset >= 0
    requires Turned(w, job, off, b).Next? && cut == b.(diesAfterSave := true)
    ensures PlausibleRun(job, off, [cut] + []) && PlausibleRun(job, off + |BatchAt(job, off)|, rest)
    ensures var left, next := ImportFrom(w, job, off, [cut] + []).world, off + |BatchAt(job, off)|;
            StartOffset(left.saved, job) == Some(next) &&
              ImportFrom(w, job, off, [b] + rest) == ImportFrom(left, job, next, rest)
  {
    CutLeaves(w, job, off, b, cut);
    FirstTurn(w, job, off, b, rest);
  }

  /** The remote log, the local state file and the answers received, with the importer's two loops. */
  class ImportProcess {
    var store: Store
    var saved: StateFile
    var delivered: seq<Delivery>

    function Now(): (r: World)
      reads this
    {
      World(store, saved, delivered)
    }

    constructor (w: World)
      ensures Now() == w
    {
      store, saved, delivered := w.store, w.saved, w.delivered;
    }

    /** One turn of the loop: `stop` when `post` returns or the process ends. */
    method TryOnce(hub: string, raws: seq<Message>, a: Attempt) returns (stop: bool, answer: Option<Answer>)
      requires Plausible(raws, a)
      modifies this`store
      ensures Attempted(old(store), hub, raws, a) == if stop then Stop(Served(store, answer)) else GoOn(store)
    {
      if a.NoService? {
        return a.fatal, None;
      }
      var r := Route(store, hub, raws, a.envs);
      store := r.store;
      if a.reply == Died {
        return true, None;
      }
      return a.reply == Delivered && r.answer.Some?, r.answer;
    }

    /** The `for attempt in range(retries)` loop. */
    method Post(hub: string, raws: seq<Message>, attempts: seq<Attempt>) returns (answer: Option<Answer>)
      requires AllPlausible(raws, attempts)
      modifies this`store
      ensures Served(store, answer) == PostFrom(old(store), hub, raws, attempts)
    {
      var attempt := 0;
      ghost var whole := PostFrom(store, hub, raws, attempts);
      assert attempts[0..] == attempts;
      while attempt < |attempts|
        invariant 0 <= attempt <= |attempts|
        invariant AllPlausible(raws, attempts[attempt..]) && whole == PostFrom(store, hub, raws, attempts[attempt..])
      {
        PostStep(store, hub, raws, attempts, attempt);
        var stop, result := TryOnce(hub, raws, attempts[attempt]);
        if stop {
          return result;
        }
        attempt := attempt + 1;
      }
      return None;
    }

    /** One turn of the batch loop; `true` when the process ends in it. */
    method ImportBatch(job: Job, off: nat, b: BatchEnv) returns (stop: bool)
      requires off < |job.items| && PlausibleBatch(job, off, b)
      modifies this
      ensures Turned(old(Now()), job, off, b) == if stop then Ended(Outcome(Now(), false)) else Next(Now())
    {
      var batch := BatchAt(job, off);
      var res := Post(job.hub, batch, b.attempts);
      if res.None? {
        return true;
      }
      delivered := delivered + [Delivery(job.hub, batch, res.value)];
      if b.diesBeforeSave {
        return true;
      }
      saved := StateFile(off + |batch|, saved.presenceOffset, Some(job));
      return b.diesAfterSave;
    }

    /** The `for off in range(start, len(items), BATCH)` loop of one process. */
    method ImportMessages(job: Job, envs: seq<BatchEnv>) returns (finished: bool)
      requires StartOffset(saved, job).Some? ==> PlausibleRun(job, StartOffset(saved, job).value, envs)
      modifies this
      ensures StartOffset(old(saved), job).None? ==> !finished && Now() == old(Now())
      ensures StartOffset(old(saved), job).Some? ==>
                Outcome(Now(), finished) == ImportFrom(old(Now()), job, StartOffset(old(saved), job).value, envs)
    {
      var start := StartOffset(saved, job);
      if start.None? {
        return false;
      }
      var off: nat, k := start.value, 0;
      ghost var whole := ImportFrom(Now(), job, off, envs);
      assert envs[0..] == envs;
      while off < |job.items| && k < |envs|
        invariant off <= |job.items| && 0 <= k <= |envs| && PlausibleRun(job, off, envs[k..])
        invariant whole == ImportFrom(Now(), job, off, envs[k..])
        decreases |envs| - k
      {
        ImportTurn(Now(), job, off, envs, k);
        var size := |BatchAt(job, off)|;
        var stop := ImportBatch(job, off, envs[k]);
        if stop {
          return false;
        }
        off, k := off + size, k + 1;
      }
      return off == |job.items|;
    }
  }

  // ---- Guarantees ---------------------------------------------------------

  /** Exactly one row of the hub has the id. */
  ghost predicate StoredOnce(rows: seq<Row>, hub: string, id: string) {
    exists i :: 0 <= i < |rows| && IdMatch(rows[i], hub, id) &&
      forall j :: 0 <= j < |rows| && IdMatch(rows[j], hub, id) ==> j == i
  }

  /** A delivered answer names the item as rejected, before or by the store. */
  predicate RefusedBy(a: Answer, raw: Message) {
    raw.id in a.preRejected || Trim(raw.id) in RejectedIds(a.lists.rejected)
  }

  /** The item was in a batch whose answer arrived. */
  ghost predicate Acked(delivered: seq<Delivery>, hub: string, raw: Message) {
    exists d :: d in delivered && d.hub == hub && raw in d.raws
  }

  ghost predicate Refused(delivered: seq<Delivery>, hub: string, raw: Message) {
    exists d :: d in delivered && d.hub == hub && raw in d.raws && RefusedBy(d.answer, raw)
  }

  /** An export row: its id is not blank, and exports carry no client key. */
  predicate Exported(raw: Message) { !Blank(raw.id) && raw.clientMsgId == None }

  ghost predicate Done(w: World, hub: string, raw: Message) {
    Acked(w.delivered, hub, raw) && (Exported(raw) ==>
      StoredOnce(w.store.rows, hub, Trim(raw.id)) || Refused(w.delivered, hub, raw))
  }

  ghost predicate DoneUpTo(w: World, job: Job, off: nat) {
    off <= |job.items| && forall i :: 0 <= i < off ==> Done(w, job.hub, job.items[i])
  }

  /** The saved offset only covers finished items of the very export it is bound to. */
  ghost predicate Inv(w: World) {
    Valid(w.store) &&
    (w.saved.binding.Some? ==>
      w.saved.messagesOffset >= 0 && DoneUpTo(w, w.saved.binding.value, w.saved.messagesOffset))
  }

  lemma DistinctIds(rows: seq<Row>, i: nat, j: nat)
    requires UniqueKeys(rows) && i < j < |rows|
    ensures rows[i].originHub != rows[j].originHub || rows[i].msg.id != rows[j].msg.id
  {
    assert Compatible(rows[i], rows[j]);
  }

  lemma StoredOnceFromMatch(s: Store, hub: string, id: string)
    requires Valid(s) && exists r :: r in s.rows && IdMatch(r, hub, id)
    ensures StoredOnce(s.rows, hub, id)
  {
    var r :| r in s.rows && IdMatch(r, hub, id);
    var i :| 0 <= i < |s.rows| && s.rows[i] == r;
    forall j | 0 <= j < |s.rows| && j != i ensures !IdMatch(s.rows[j], hub, id) {
      DistinctIds(s.rows, if j < i then j else i, if j < i then i else j);
    }
  }

  lemma StoredOnceStays(s: Store, t: Store, hub: string, id: string)
    requires StoredOnce(s.rows, hub, id) && Valid(t) && Extends(s, t)
    ensures StoredOnce(t.rows, hub, id)
  {
    var i :| 0 <= i < |s.rows| && IdMatch(s.rows[i], hub, id);
    assert t.rows[i] == s.rows[i];
    StoredOnceFromMatch(t, hub, id);
  }

  /** The item is among those built, or its id among those rejected beforehand. */
  predicate Handed(raw: Message, hub: string, e: ItemEnv, items: seq<Input>, rejected: seq<string>) {
    var built := BuildItem(raw, e);
    if built.None? then raw.id in rejected else Input(built.value, Some(hub), None, None) in items
  }

  lemma HandedStays(raw: Message, hub: string, e: ItemEnv, items: seq<Input>, rejected: seq<string>, more: seq<Input>,
      others: seq<string>)
    requires Handed(raw, hub, e, items, rejected) && items <= more && rejected <= others
    ensures Handed(raw, hub, e, more, others)
  {
  }

  lemma AnswersGrow(raws: seq<Message>, hub: string, envs: seq<ItemEnv>)
    requires raws != [] && |raws| == |envs|
    ensures var n := |raws| - 1;
            && PreRejected(raws[..n], envs[..n]) <= PreRejected(raws, envs)
            && BuiltItems(raws[..n], hub, envs[..n]) <= BuiltItems(raws, hub, envs)
            && Handed(raws[n], hub, envs[n], BuiltItems(raws, hub, envs), PreRejected(raws, envs))
  {
  }

  lemma {:induction false} BuiltOrRejected(raws: seq<Message>, hub: string, envs: seq<ItemEnv>, i: nat)
    requires i < |raws| == |envs|
    ensures Handed(raws[i], hub, envs[i], BuiltItems(raws, hub, envs), PreRejected(raws, envs))
  {
    var n := |raws| - 1;
    AnswersGrow(raws, hub, envs);
    if i < n {
      BuiltOrRejected(raws[..n], hub, envs[..n], i);
      assert raws[..n][i] == raws[i] && envs[..n][i] == envs[i];
      HandedStays(raws[i], hub, envs[i], BuiltItems(raws[..n], hub, envs[..n]), PreRejected(raws[..n], envs[..n]),
                  BuiltItems(raws, hub, envs), PreRejected(raws, envs));
    } else {
      assert i == n;
    }
  }

  lemma RejectionsAppend(items: seq<Input>, outcomes: seq<MessageStore.Outcome>)
    requires 0 < |outcomes| <= |items|
    ensures var n := |outcomes| - 1;
            RejectedIds(Rejections(items, outcomes)) == RejectedIds(Rejections(items, outcomes[..n]))
              + if outcomes[n].Rejected? then [items[n].msg.id] else []
  {
    var rs := Rejections(items, outcomes);
    if outcomes[|outcomes| - 1].Rejected? {
      assert rs[..|rs| - 1] == Rejections(items, outcomes[..|outcomes| - 1]);
    } else {
      assert rs == Rejections(items, outcomes[..|outcomes| - 1]);
    }
  }

  lemma {:induction false} RejectedListed(items: seq<Input>, outcomes: seq<MessageStore.Outcome>, j: nat)
    requires j < |outcomes| <= |items| && outcomes[j].Rejected?
    ensures items[j].msg.id in RejectedIds(Rejections(items, outcomes))
  {
    var n := |outcomes| - 1;
    if j >= n {
    } else {
      RejectedListed(items, outcomes[..n], j);
    }
    RejectionsAppend(items, outcomes);
  }

  lemma OutcomeSettles(s: Store, hub: string, items: seq<Input>, es: seq<Env>, j: nat)
    requires Valid(s) && j < |items| == |es| && !Push(s, hub, items, es).aborted && items[j].msg.clientMsgId == None
    ensures var p := Push(s, hub, items, es);
            StoredOnce(p.store.rows, hub, items[j].msg.id) ||
              items[j].msg.id in RejectedIds(Rejections(items, p.outcomes))
  {
    var p := Push(s, hub, items, es);
    PushTruthful(s, hub, items, es);
    PushKeeps(s, hub, items, es);
    assert Truthful(p.store.rows, hub, items[j], p.outcomes[j]);
    if p.outcomes[j].Rejected? {
      RejectedListed(items, p.outcomes, j);
    } else {
      StoredOnceFromMatch(p.store, hub, items[j].msg.id);
    }
  }

  /** Each exported item of an answered request is stored once under its hub or named as rejected. */
  lemma AnswerSettles(s: Store, hub: string, raws: seq<Message>, envs: seq<ItemEnv>, i: nat)
    requires Valid(s) && i < |raws| == |envs| && Route(s, hub, raws, envs).answer.Some? && Exported(raws[i])
    ensures var r := Route(s, hub, raws, envs);
            StoredOnce(r.store.rows, hub, Trim(raws[i].id)) || RefusedBy(r.answer.value, raws[i])
  {
    BuiltOrRejected(raws, hub, envs, i);
    var built := BuildItem(raws[i], envs[i]);
    if built.Some? {
      var items, es := BuiltItems(raws, hub, envs), BuiltEnvs(raws, hub, envs);
      var item := Input(built.value, Some(hub), None, None);
      var j :| 0 <= j < |items| && items[j] == item;
      OutcomeSettles(s, hub, items, es, j);
    }
  }

  lemma DoneStays(v: World, w: World, hub: string, raw: Message)
    requires Done(v, hub, raw) && Valid(w.store) && Extends(v.store, w.store) && v.delivered <= w.delivered
    ensures Done(w, hub, raw)
  {
    assert forall d :: d in v.delivered ==> d in w.delivered;
    if Exported(raw) && StoredOnce(v.store.rows, hub, Trim(raw.id)) {
      StoredOnceStays(v.store, w.store, hub, Trim(raw.id));
    }
  }

  lemma DoneUpToStays(v: World, w: World, job: Job, off: nat)
    requires DoneUpTo(v, job, off) && Valid(w.store) && Extends(v.store, w.store) && v.delivered <= w.delivered
    ensures DoneUpTo(w, job, off)
  {
    forall i | 0 <= i < off ensures Done(w, job.hub, job.items[i]) {
      DoneStays(v, w, job.hub, job.items[i]);
    }
  }

  ghost predicate Settles(r: Served, hub: string, raws: seq<Message>) {
    r.answer.Some? ==>
      forall i :: 0 <= i < |raws| && Exported(raws[i]) ==>
        StoredOnce(r.store.rows, hub, Trim(raws[i].id)) || RefusedBy(r.answer.value, raws[i])
  }

  lemma RouteSettles(s: Store, hub: string, raws: seq<Message>, envs: seq<ItemEnv>)
    requires Valid(s) && |raws| == |envs|
    ensures var r := Route(s, hub, raws, envs); Valid(r.store) && Extends(s, r.store) && Settles(r, hub, raws)
  {
    PushKeeps(s, hub, BuiltItems(raws, hub, envs), BuiltEnvs(raws, hub, envs));
    var r := Route(s, hub, raws, envs);
    if r.answer.Some? {
      forall i | 0 <= i < |raws| && Exported(raws[i])
        ensures StoredOnce(r.store.rows, hub, Trim(raws[i].id)) || RefusedBy(r.answer.value, raws[i])
      {
        AnswerSettles(s, hub, raws, envs, i);
      }
    }
  }

  /** Whatever happens to its attempts, `post` leaves a valid, grown log, and an answer it returns is true. */
  lemma {:induction false} PostKeeps(s: Store, hub: string, raws: seq<Message>, attempts: seq<Attempt>)
    requires Valid(s) && AllPlausible(raws, attempts)
    ensures var r := PostFrom(s, hub, raws, attempts); Valid(r.store) && Extends(s, r.store) && Settles(r, hub, raws)
    decreases |attempts|
  {
    if attempts == [] {
    } else {
      match attempts[0]
      case NoService(fatal) => PostKeeps(s, hub, raws, attempts[1..]);
      case Handled(envs, reply) =>
        assert Plausible(raws, attempts[0]);
        var r := Route(s, hub, raws, envs);
        RouteSettles(s, hub, raws, envs);
        PostKeeps(r.store, hub, raws, attempts[1..]);
        ExtendsTransitive(s, r.store, PostFrom(r.store, hub, raws, attempts[1..]).store);
    }
  }

  lemma AcknowledgedBatchIsDone(w: World, job: Job, off: nat, attempts: seq<Attempt>)
    requires Valid(w.store) && DoneUpTo(w, job, off) && AllPlausible(BatchAt(job, off), attempts)
    requires PostFrom(w.store, job.hub, BatchAt(job, off), attempts).answer.Some?
    ensures var raws := BatchAt(job, off);
            var acked := Acknowledge(w, job, raws, PostFrom(w.store, job.hub, raws, attempts));
            Valid(acked.store) && Extends(w.store, acked.store) && DoneUpTo(acked, job, off + |raws|)
  {
    var raws := BatchAt(job, off);
    var r := PostFrom(w.store, job.hub, raws, attempts);
    var acked := Acknowledge(w, job, raws, r);
    PostKeeps(w.store, job.hub, raws, attempts);
    DoneUpToStays(w, acked, job, off);
    var d := acked.delivered[|w.delivered|];
    assert d in acked.delivered;
    forall i | off <= i < off + |raws| ensures Done(acked, job.hub, job.items[i]) {
      assert raws[i - off] == job.items[i] && job.items[i] in d.raws;
    }
  }

  lemma InvGrows(v: World, w: World)
    requires Inv(v) && Valid(w.store) && Extends(v.store, w.store) && v.delivered <= w.delivered && w.saved == v.saved
    ensures Inv(w)
  {
    if v.saved.binding.Some? {
      DoneUpToStays(v, w, v.saved.binding.value, v.saved.messagesOffset);
    }
  }

  /** A later world keeps the invariant and everything stored and delivered. */
  ghost predicate Keeps(v: World, w: World) { Inv(w) && Extends(v.store, w.store) && v.delivered <= w.delivered }

  lemma KeepsTransitive(u: World, v: World, w: World)
    requires Keeps(u, v) && Keeps(v, w)
    ensures Keeps(u, w)
  {
    ExtendsTransitive(u.store, v.store, w.store);
  }

  lemma UnansweredBatchKeeps(w: World, job: Job, off: nat, attempts: seq<Attempt>)
    requires Inv(w) && off <= |job.items| && AllPlausible(BatchAt(job, off), attempts)
    ensures Keeps(w, w.(store := PostFrom(w.store, job.hub, BatchAt(job, off), attempts).store))
  {
    PostKeeps(w.store, job.hub, BatchAt(job, off), attempts);
    InvGrows(w, w.(store := PostFrom(w.store, job.hub, BatchAt(job, off), attempts).store));
  }

  lemma AnsweredBatchKeeps(w: World, job: Job, off: nat, attempts: seq<Attempt>)
    requires Inv(w) && DoneUpTo(w, job, off) && AllPlausible(BatchAt(job, off), attempts)
    requires PostFrom(w.store, job.hub, BatchAt(job, off), attempts).answer.Some?
    ensures var raws := BatchAt(job, off);
            var acked := Acknowledge(w, job, raws, PostFrom(w.store, job.hub, raws, attempts));
            var saved := SaveOffset(acked, job, off + |raws|);
            Keeps(w, acked) && Keeps(w, saved) && DoneUpTo(saved, job, off + |raws|)
  {
    var raws := BatchAt(job, off);
    var acked := Acknowledge(w, job, raws, PostFrom(w.store, job.hub, raws, attempts));
    AcknowledgedBatchIsDone(w, job, off, attempts);
    InvGrows(w, acked);
    DoneUpToStays(acked, SaveOffset(acked, job, off + |raws|), job, off + |raws|);
  }

  /** The outcome of a loop started at `w`: what was there is kept, and a finished loop has settled every item. */
  ghost predicate Sound(w: World, job: Job, o: Outcome)
  {
    Keeps(w, o.world) && (o.finished ==> DoneUpTo(o.world, job, |job.items|))
  }

  lemma TurnSound(w: World, job: Job, off: nat, b: BatchEnv)
    requires Inv(w) && DoneUpTo(w, job, off) && off < |job.items| && PlausibleBatch(job, off, b)
    ensures var t := Turned(w, job, off, b);
            if t.Ended? then Sound(w, job, t.outcome)
            else Keeps(w, t.world) && DoneUpTo(t.world, job, off + |BatchAt(job, off)|)
  {
    if PostFrom(w.store, job.hub, BatchAt(job, off), b.attempts).answer.None? {
      UnansweredBatchKeeps(w, job, off, b.attempts);
    } else {
      AnsweredBatchKeeps(w, job, off, b.attempts);
    }
  }

  lemma KeepsItself(w: World)
    requires Inv(w)
    ensures Keeps(w, w)
  {
  }

  lemma LaterSound(u: World, v: World, job: Job, o: Outcome)
    requires Keeps(u, v) && Sound(v, job, o)
    ensures Sound(u, job, o)
  {
    KeepsTransitive(u, v, o.world);
  }

  lemma {:induction false} ImportKeeps(w: World, job: Job, off: nat, envs: seq<BatchEnv>)
    requires Inv(w) && DoneUpTo(w, job, off) && PlausibleRun(job, off, envs)
    ensures Sound(w, job, ImportFrom(w, job, off, envs))
    decreases |envs|
  {
    KeepsItself(w);
    if off == |job.items| {
      assert ImportFrom(w, job, off, envs) == Outcome(w, true);
    } else if envs == [] {
      assert ImportFrom(w, job, off, envs) == Outcome(w, false);
    } else {
      assert envs[0..] == envs;
      ImportTurn(w, job, off, envs, 0);
      TurnSound(w, job, off, envs[0]);
      var t := Turned(w, job, off, envs[0]);
      if t.Next? {
        var next := off + |BatchAt(job, off)|;
        ImportKeeps(t.world, job, next, envs[1..]);
        LaterSound(w, t.world, job, ImportFrom(t.world, job, next, envs[1..]));
      }
    }
  }

  // ---- Runs ---------------------------------------------------------------

  /** A process of the importer, or another writer of the log. Retention is off. An `Import` runs to its end
      by itself; writers between its batches are covered because it may be cut there (`CutAfterBatch`). */
  datatype Event =
    | Import(job: Job, batches: seq<BatchEnv>)
    | OtherWrite(input: Input, env: Env)
    | OtherPush(hub: string, items: seq<Input>, envs: seq<Env>)

  predicate PlausibleEvent(w: World, e: Event) {
    match e
    case Import(job, batches) => StartOffset(w.saved, job).Some? ==>
      PlausibleRun(job, StartOffset(w.saved, job).value, batches)
    case OtherWrite(_, _) => true
    case OtherPush(_, items, envs) => |items| == |envs|
  }

  function Step(w: World, e: Event): (r: Outcome)
    requires PlausibleEvent(w, e)
  {
    match e
    case Import(job, batches) =>
      var start := StartOffset(w.saved, job);
      if start.None? then Outcome(w, false) else ImportFrom(w, job, start.value, batches)
    case OtherWrite(input, env) => Outcome(w.(store := Insert(w.store, input, env).store), false)
    case OtherPush(hub, items, envs) => Outcome(w.(store := Push(w.store, hub, items, envs).store), false)
  }

  /** The start: any valid log and a state file without a binding. */
  ghost predicate Initial(w: World) { Valid(w.store) && w.saved.binding == None && w.delivered == [] }

  ghost predicate Run(w0: World, events: seq<Event>, worlds: seq<World>) {
    |worlds| == |events| + 1 && worlds[0] == w0 &&
    forall k :: 0 <= k < |events| ==>
      PlausibleEvent(worlds[k], events[k]) && worlds[k + 1] == Step(worlds[k], events[k]).world
  }

  lemma StepKeeps(w: World, e: Event)
    requires Inv(w) && PlausibleEvent(w, e)
    ensures Inv(Step(w, e).world)
    ensures e.Import? && Step(w, e).finished ==> DoneUpTo(Step(w, e).world, e.job, |e.job.items|)
  {
    match e
    case Import(job, batches) =>
      var start := StartOffset(w.saved, job);
      if start.Some? {
        ImportKeeps(w, job, start.value, batches);
      }
    case OtherWrite(input, env) =>
      InsertKeeps(w.store, input, env);
      InvGrows(w, Step(w, e).world);
    case OtherPush(hub, items, envs) =>
      PushKeeps(w.store, hub, items, envs);
      InvGrows(w, Step(w, e).world);
  }

  lemma {:induction false} RunInv(w0: World, events: seq<Event>, worlds: seq<World>, k: nat)
    requires Initial(w0) && Run(w0, events, worlds) && k < |worlds|
    ensures Inv(worlds[k])
  {
    if k == 0 {
    } else {
      RunInv(w0, events, worlds, k - 1);
      StepKeeps(worlds[k - 1], events[k - 1]);
    }
  }

  /** Under any crashes, lost answers, repeated requests, mid-batch aborts and other writers, the saved
      offset covers only acknowledged items of the export it is bound to, each of them stored exactly
      once under its hub or answered as rejected. */
  lemma SavedOffsetIsSettled(w0: World, events: seq<Event>, worlds: seq<World>, k: nat)
    requires Initial(w0) && Run(w0, events, worlds) && k < |worlds|
    ensures var saved := worlds[k].saved;
            saved.binding.Some? ==>
              0 <= saved.messagesOffset <= |saved.binding.value.items| &&
              forall i :: 0 <= i < saved.messagesOffset ==>
                Done(worlds[k], saved.binding.value.hub, saved.binding.value.items[i])
  {
    RunInv(w0, events, worlds, k);
  }

  /** When an import process finishes, every row of its export is stored exactly once or was answered as
      rejected, however many earlier processes failed. */
  lemma FinishedImportIsComplete(w0: World, events: seq<Event>, worlds: seq<World>, k: nat, raw: Message)
    requires Initial(w0) && Run(w0, events, worlds) && k < |events| && events[k].Import?
    requires Step(worlds[k], events[k]).finished && raw in events[k].job.items && Exported(raw)
    ensures StoredOnce(worlds[k + 1].store.rows, events[k].job.hub, Trim(raw.id)) ||
            Refused(worlds[k + 1].delivered, events[k].job.hub, raw)
  {
    RunInv(w0, events, worlds, k);
    StepKeeps(worlds[k], events[k]);
    var i :| 0 <= i < |events[k].job.items| && events[k].job.items[i] == raw;
    assert Done(worlds[k + 1], events[k].job.hub, events[k].job.items[i]);
  }

  /** No row of the hub has the id. */
  ghost predicate Unused(rows: seq<Row>, hub: string, id: string)
  {
    forall k :: 0 <= k < |rows| ==> !IdMatch(rows[k], hub, id)
  }

  lemma StillUnused(rows: seq<Row>, more: seq<Row>, hub: string, id: string)
    requires Unused(rows, hub, id) && |more| == |rows| + 1 && more[..|rows|] == rows && more[|rows|].msg.id != id
    ensures Unused(more, hub, id)
  {
    assert forall k :: 0 <= k < |rows| ==> more[k] == more[..|rows|][k];
  }

  /** An acceptable item without an id or client key, and an id no row of the hub has. */
  ghost predicate FreshlyMinted(s: Store, hub: string, raw: Message, e: ItemEnv) {
    && Blank(raw.id) && raw.clientMsgId == None && hub != "" && BuildItem(raw, e).Some? && e.env.fault == NoFault
    && Screen(Input(BuildItem(raw, e).value, Some(hub), None, None), hub) == None && Unused(s.rows, hub, e.minted)
  }

  lemma UnusedKeyFree(rows: seq<Row>, hub: string, m: Message)
    requires Unused(rows, hub, m.id) && m.clientMsgId == None
    ensures !KeyTaken(rows, hub, m)
  {
  }

  lemma SingleItem(raw: Message, hub: string, e: ItemEnv)
    requires BuildItem(raw, e).Some?
    ensures BuiltItems([raw], hub, [e]) == [Input(BuildItem(raw, e).value, Some(hub), None, None)] &&
            BuiltEnvs([raw], hub, [e]) == [e.env]
  {
    assert [raw][..0] == [] && [e][..0] == [];
  }

  lemma PushOfOne(s: Store, hub: string, item: Input, env: Env)
    ensures Push(s, hub, [item], [env]) == Advance(PushState(s, [], 0, false), hub, item, env)
  {
    assert [item][..0] == [] && [env][..0] == [];
    assert Push(s, hub, [], []) == PushState(s, [], 0, false);
  }

  lemma FreeItemIsStored(s: Store, hub: string, item: Input, env: Env)
    requires hub != "" && env.fault == NoFault && Screen(item, hub) == None && !KeyTaken(s.rows, hub, item.msg)
    ensures var (t, outcome) := PushItem(s, hub, item, env);
            outcome == Some(Accepted) && |t.rows| == |s.rows| + 1 && t.rows[..|s.rows|] == s.rows &&
              t.rows[|s.rows|].msg.id == item.msg.id
  {
    assert Existing(s.rows, hub, item.msg, env.preferId).None?;
  }

  lemma SinglePush(s: Store, hub: string, item: Input, env: Env)
    requires hub != "" && env.fault == NoFault && Screen(item, hub) == None && !KeyTaken(s.rows, hub, item.msg)
    ensures var p := Push(s, hub, [item], [env]);
            && p.outcomes == [Accepted] && !p.aborted && ListsOf([item], p).accepted == [item.msg.id]
            && |p.store.rows| == |s.rows| + 1 && p.store.rows[..|s.rows|] == s.rows &&
              p.store.rows[|s.rows|].msg.id == item.msg.id
  {
    PushOfOne(s, hub, item, env);
    FreeItemIsStored(s, hub, item, env);
    assert IdsWhere([item], [], Accepted) == [] && [Accepted][..0] == [];
    assert IdsWhere([item], [Accepted], Accepted) == [item.msg.id];
  }

  lemma StoredUnderMintedId(s: Store, hub: string, raw: Message, e: ItemEnv)
    requires FreshlyMinted(s, hub, raw, e)
    ensures var r := Route(s, hub, [raw], [e]);
            && r.answer.Some? && r.answer.value.lists.accepted == [e.minted]
            && |r.store.rows| == |s.rows| + 1 && r.store.rows[..|s.rows|] == s.rows &&
              r.store.rows[|s.rows|].msg.id == e.minted
  {
    var item := Input(BuildItem(raw, e).value, Some(hub), None, None);
    SingleItem(raw, hub, e);
    UnusedKeyFree(s.rows, hub, item.msg);
    SinglePush(s, hub, item, e.env);
  }

  /** The one exception: an item whose id is blank gets a newly minted id at every attempt, so a request
      that is repeated after a lost answer stores it again, as two rows that differ in their ids. */
  lemma BlankIdStoresAgain(s: Store, hub: string, raw: Message, first: ItemEnv, second: ItemEnv)
    requires FreshlyMinted(s, hub, raw, first) && FreshlyMinted(s, hub, raw, second) && first.minted != second.minted
    ensures var r := Route(s, hub, [raw], [first]);
            var again := Route(r.store, hub, [raw], [second]);
            && r.answer.Some? && r.answer.value.lists.accepted == [first.minted]
            && again.answer.Some? && again.answer.value.lists.accepted == [second.minted]
            && |again.store.rows| == |s.rows| + 2
  {
    StoredUnderMintedId(s, hub, raw, first);
    var t := Route(s, hub, [raw], [first]).store;
    StillUnused(s.rows, t.rows, hub, second.minted);
    StoredUnderMintedId(t, hub, raw, second);
  }
}
