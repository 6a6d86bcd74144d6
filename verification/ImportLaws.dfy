/** `/sync/push` and the import, said about the raw items themselves: which of them are refused, and what is
    stored for the others. */
module ImportLaws {
  import opened Prelude
  import opened MessageStore
  import opened StoreLaws
  import opened Importer

  /** The id an item is stored under: its own without surrounding white space, or the minted one. */
  function IdOf(raw: Message, e: ItemEnv): (id: string) {
    if Vacant(raw.id) then e.minted else Trim(raw.id)
  }

  /** The client key without surrounding white space, if anything is left. */
  function KeyOf(raw: Message): (key: Option<string>) {
    match raw.clientMsgId
    case None => None
    case Some(key) => if Vacant(key) then None else Some(Trim(key))
  }

  /** The validators fail, the sender is missing, or the id is too long or holds NUL. */
  predicate Unfit(raw: Message, e: ItemEnv) {
    e.core == None || Vacant(e.core.value.sender) || |IdOf(raw, e)| > 128 || '\0' in IdOf(raw, e)
  }

  /** What the store is given for an item: the validated content under the item's own id and key. */
  predicate IsItem(m: Message, raw: Message, e: ItemEnv) {
    e.core.Some? && m.id == IdOf(raw, e) && m.clientMsgId == KeyOf(raw) &&
    m.(id := "", clientMsgId := None) == e.core.value.(id := "", clientMsgId := None)
  }

  lemma BuildIff(raw: Message, e: ItemEnv)
    ensures BuildItem(raw, e) == None <==> Unfit(raw, e)
    ensures BuildItem(raw, e).Some? ==> IsItem(BuildItem(raw, e).value, raw, e)
  {
    BlankIff(raw.id);
    if raw.clientMsgId.Some? {
      BlankIff(raw.clientMsgId.value);
    }
    if e.core.Some? {
      BlankIff(e.core.value.sender);
    }
  }

  /** The i-th item has this id, and is unfit. */
  predicate UnfitAt(raws: seq<Message>, envs: seq<ItemEnv>, i: nat, id: string)
    requires i < |raws| == |envs|
  {
    raws[i].id == id && Unfit(raws[i], envs[i])
  }

  lemma LastRefused(raws: seq<Message>, envs: seq<ItemEnv>, id: string)
    requires |raws| == |envs| && raws != []
    ensures var n := |raws| - 1;
            id in PreRejected(raws, envs) <==> id in PreRejected(raws[..n], envs[..n]) || UnfitAt(raws, envs, n, id)
  {
    BuildIff(raws[|raws| - 1], envs[|raws| - 1]);
  }

  lemma {:induction false} RefusedFrom(raws: seq<Message>, envs: seq<ItemEnv>, id: string) returns (i: nat)
    requires |raws| == |envs| && id in PreRejected(raws, envs)
    ensures i < |raws| && UnfitAt(raws, envs, i, id)
  {
    var n := |raws| - 1;
    LastRefused(raws, envs, id);
    if UnfitAt(raws, envs, n, id) {
      i := n;
    } else {
      i := RefusedFrom(raws[..n], envs[..n], id);
    }
  }

  lemma {:induction false} UnfitIsRefused(raws: seq<Message>, envs: seq<ItemEnv>, i: nat)
    requires i < |raws| == |envs| && Unfit(raws[i], envs[i])
    ensures raws[i].id in PreRejected(raws, envs)
  {
    var n := |raws| - 1;
    LastRefused(raws, envs, raws[i].id);
    if i == n {
    } else {
      UnfitIsRefused(raws[..n], envs[..n], i);
    }
  }

  /** The ids refused before the store are those of unfit items, and no others. */
  lemma PreRejectedIff(raws: seq<Message>, envs: seq<ItemEnv>, id: string)
    requires |raws| == |envs|
    ensures id in PreRejected(raws, envs) <==> exists i :: 0 <= i < |raws| && UnfitAt(raws, envs, i, id)
  {
    if id in PreRejected(raws, envs) {
      var i := RefusedFrom(raws, envs, id);
    }
    if i :| 0 <= i < |raws| && UnfitAt(raws, envs, i, id) {
      UnfitIsRefused(raws, envs, i);
    }
  }

  // ---- One request --------------------------------------------------------

  /** Position of an item among those handed to the store. */
  function Place(raws: seq<Message>, hub: string, envs: seq<ItemEnv>, i: nat): (j: nat)
    requires i <= |raws| == |envs|
  {
    |BuiltItems(raws[..i], hub, envs[..i])|
  }

  /** The store's j-th item is this raw item. */
  predicate ItemIs(items: seq<Input>, es: seq<Env>, j: nat, raw: Message, hub: string, e: ItemEnv) {
    && j < |items| == |es| && items[j].originHub == Some(hub) && items[j].sensitivity == None
    && IsItem(items[j].msg, raw, e) && es[j] == e.env
  }

  lemma ItemStays(items: seq<Input>, es: seq<Env>, more: seq<Input>, others: seq<Env>, j: nat, raw: Message,
      hub: string, e: ItemEnv)
    requires ItemIs(items, es, j, raw, hub, e) && items <= more && es <= others && |more| == |others|
    ensures ItemIs(more, others, j, raw, hub, e)
  {
  }

  lemma LastBuilt(raws: seq<Message>, hub: string, envs: seq<ItemEnv>)
    requires |raws| == |envs| && raws != []
    ensures var n := |raws| - 1;
            && BuiltItems(raws[..n], hub, envs[..n]) <= BuiltItems(raws, hub, envs)
            && BuiltEnvs(raws[..n], hub, envs[..n]) <= BuiltEnvs(raws, hub, envs)
            && (!Unfit(raws[n], envs[n]) ==>
                  ItemIs(BuiltItems(raws, hub, envs), BuiltEnvs(raws, hub, envs),
                    |BuiltItems(raws[..n], hub, envs[..n])|,
                         raws[n], hub, envs[n]))
  {
    BuildIff(raws[|raws| - 1], envs[|raws| - 1]);
  }

  lemma {:induction false} PlacedItem(raws: seq<Message>, hub: string, envs: seq<ItemEnv>, i: nat)
    requires i < |raws| == |envs| && !Unfit(raws[i], envs[i])
    ensures ItemIs(BuiltItems(raws, hub, envs), BuiltEnvs(raws, hub, envs), Place(raws, hub, envs, i), raws[i], hub,
            envs[i])
  {
    var n := |raws| - 1;
    LastBuilt(raws, hub, envs);
    if i == n {
    } else {
      PlacedItem(raws[..n], hub, envs[..n], i);
      assert raws[..n][..i] == raws[..i] && envs[..n][..i] == envs[..i];
      ItemStays(BuiltItems(raws[..n], hub, envs[..n]), BuiltEnvs(raws[..n], hub, envs[..n]),
        BuiltItems(raws, hub, envs),
                BuiltEnvs(raws, hub, envs), Place(raws, hub, envs, i), raws[i], hub, envs[i]);
    }
  }

  /** Every item before that place comes from a raw item before this one. */
  lemma {:induction false} EarlierItem(raws: seq<Message>, hub: string, envs: seq<ItemEnv>, j: nat) returns (k: nat)
    requires |raws| == |envs| && j < |BuiltItems(raws, hub, envs)|
    ensures k < |raws| && !Unfit(raws[k], envs[k]) && IsItem(BuiltItems(raws, hub, envs)[j].msg, raws[k], envs[k])
  {
    var n := |raws| - 1;
    var rest := BuiltItems(raws[..n], hub, envs[..n]);
    if j < |rest| {
      k := EarlierItem(raws[..n], hub, envs[..n], j);
    } else {
      k := n;
      BuildIff(raws[n], envs[n]);
    }
  }

  lemma {:induction false} PrefixBuilt(raws: seq<Message>, hub: string, envs: seq<ItemEnv>, i: nat)
    requires i <= |raws| == |envs|
    ensures BuiltItems(raws[..i], hub, envs[..i]) <= BuiltItems(raws, hub, envs)
  {
    if i == |raws| {
      assert raws[..i] == raws && envs[..i] == envs;
    } else {
      var n := |raws| - 1;
      LastBuilt(raws, hub, envs);
      PrefixBuilt(raws[..n], hub, envs[..n], i);
      assert raws[..n][..i] == raws[..i] && envs[..n][..i] == envs[..i];
    }
  }

  /** The validators leave recipient, topic and body, and the sender is there. */
  predicate Sound(raw: Message, e: ItemEnv) { !Unfit(raw, e) && !SomeVacant(e.core.value) }

  lemma SoundIsPresentable(item: Input, raw: Message, hub: string, e: ItemEnv)
    requires Sound(raw, e) && IsItem(item.msg, raw, e) && item.originHub == Some(hub) && item.sensitivity == None
    ensures Presentable(item, hub) && item.msg.clientMsgId != Some("")
  {
    if raw.clientMsgId.Some? {
      BlankIff(raw.clientMsgId.value);
    }
    var c, m := e.core.value.(id := "", clientMsgId := None), item.msg.(id := "", clientMsgId := None);
    assert m.sender == c.sender && m.recipient == c.recipient && m.topic == c.topic && m.body == c.body;
  }

  /** Neither key of the item is in the table, nor on an item ahead of it. */
  ghost predicate Free(rows: seq<Row>, hub: string, raws: seq<Message>, envs: seq<ItemEnv>, i: nat)
    requires i < |raws| == |envs|
  {
    && (forall r :: r in rows && r.originHub == hub ==>
          r.msg.id != IdOf(raws[i], envs[i]) && (KeyOf(raws[i]).Some? ==> r.msg.clientMsgId != KeyOf(raws[i])))
    && forall k :: 0 <= k < i ==>
         IdOf(raws[k], envs[k]) != IdOf(raws[i], envs[i]) && (KeyOf(raws[i]).Some? ==> KeyOf(raws[k]) != KeyOf(raws[i]))
  }

  lemma EarlierApart(rows: seq<Row>, hub: string, raws: seq<Message>, envs: seq<ItemEnv>, i: nat, k: nat)
    requires i < |raws| == |envs| && Free(rows, hub, raws, envs, i) && !Unfit(raws[i], envs[i])
    requires k < Place(raws, hub, envs, i) <= |BuiltItems(raws, hub, envs)|
    ensures var items, j := BuiltItems(raws, hub, envs), Place(raws, hub, envs, i);
            j < |items| && !Collide(items[k].msg, items[j].msg)
  {
    PlacedItem(raws, hub, envs, i);
    PrefixBuilt(raws, hub, envs, i);
    var l := EarlierItem(raws[..i], hub, envs[..i], k);
    assert BuiltItems(raws[..i], hub, envs[..i])[k] == BuiltItems(raws, hub, envs)[k];
    assert raws[..i][l] == raws[l] && envs[..i][l] == envs[l];
  }

  /** An item with sound fields and free keys, whose own insertion meets no fault, is accepted by an answered
      request and stored under its trimmed id and key with the validated content. */
  lemma SoundItemStored(s: Store, hub: string, raws: seq<Message>, envs: seq<ItemEnv>, i: nat)
    requires Valid(s) && hub != "" && i < |raws| == |envs| && Route(s, hub, raws, envs).answer.Some?
    requires Sound(raws[i], envs[i]) && envs[i].env.fault == NoFault && Free(s.rows, hub, raws, envs, i)
    ensures var r := Route(s, hub, raws, envs);
            && IdOf(raws[i], envs[i]) in r.answer.value.lists.accepted
            && exists x ::
              x in r.store.rows && x.originHub == hub && IsItem(x.msg, raws[i], envs[i]) &&
              x.ingestedAt == envs[i].env.stamp
  {
    var items, es, j := BuiltItems(raws, hub, envs), BuiltEnvs(raws, hub, envs), Place(raws, hub, envs, i);
    PlacedItem(raws, hub, envs, i);
    SoundIsPresentable(items[j], raws[i], hub, envs[i]);
    forall k | 0 <= k < j ensures !Collide(items[k].msg, items[j].msg) {
      EarlierApart(s.rows, hub, raws, envs, i, k);
    }
    FreeItemAccepted(s, hub, items, es, j);
    ListedIff(items, Push(s, hub, items, es).outcomes, Accepted, items[j].msg.id);
  }

  /** A request without storage faults is answered, so the last law needs no answer to be assumed. */
  lemma FaultFreeSoundItemStored(s: Store, hub: string, raws: seq<Message>, envs: seq<ItemEnv>, i: nat)
    requires Valid(s) && hub != "" && i < |raws| == |envs| && FaultFree(envs)
    requires Sound(raws[i], envs[i]) && Free(s.rows, hub, raws, envs, i)
    ensures var r := Route(s, hub, raws, envs);
            && r.answer.Some? && IdOf(raws[i], envs[i]) in r.answer.value.lists.accepted
            && exists x ::
              x in r.store.rows && x.originHub == hub && IsItem(x.msg, raws[i], envs[i]) &&
              x.ingestedAt == envs[i].env.stamp
  {
    FaultFreeRouteAnswers(s, hub, raws, envs);
    assert envs[i] in envs;
    SoundItemStored(s, hub, raws, envs, i);
  }

  // ---- Whole imports ------------------------------------------------------

  /** A batch is the next 500 items, or what is left of them, and is tried at most five times. */
  lemma BatchIs(job: Job, off: nat, b: BatchEnv)
    requires off <= |job.items|
    ensures BatchAt(job, off) == job.items[off..][..if |job.items| - off < 500 then |job.items| - off else 500]
    ensures PlausibleBatch(job, off, b) ==> |b.attempts| <= 5
  {
  }

  /** A run starts at the saved offset exactly when the state file is untouched or bound to this very job, and its
      offsets make sense. */
  lemma StartOffsetIs(saved: StateFile, job: Job)
    ensures var bound := saved.binding == Some(job);
            var untouched := saved.binding == None && saved.messagesOffset == 0 && saved.presenceOffset == 0;
            StartOffset(saved, job) ==
              if (bound || untouched) && 0 <= saved.messagesOffset <= |job.items| && saved.presenceOffset >= 0
              then Some(saved.messagesOffset)
              else None
  {
  }

  lemma TurnOf(w: World, job: Job, off: nat, envs: seq<BatchEnv>)
    requires off < |job.items| && envs != [] && PlausibleRun(job, off, envs)
    ensures PlausibleBatch(job, off, envs[0]) && PlausibleRun(job, off + |BatchAt(job, off)|, envs[1..])
    ensures var t := Turned(w, job, off, envs[0]);
            ImportFrom(w, job, off, envs) ==
              if t.Ended? then t.outcome else ImportFrom(t.world, job, off + |BatchAt(job, off)|, envs[1..])
  {
    assert envs[0..] == envs;
    ImportTurn(w, job, off, envs, 0);
  }

  /** The first attempt reaches the store without faults, and its answer arrives. */
  predicate Healthy(raws: seq<Message>, b: BatchEnv) {
    && !b.diesBeforeSave && !b.diesAfterSave && b.attempts != [] && b.attempts[0].Handled?
    && b.attempts[0].reply == Delivered && |b.attempts[0].envs| == |raws| && FaultFree(b.attempts[0].envs)
  }

  predicate HealthyRun(job: Job, off: nat, envs: seq<BatchEnv>)
    requires off <= |job.items|
    decreases |envs|
  {
    off == |job.items| ||
    (envs != [] && Healthy(BatchAt(job, off), envs[0]) && HealthyRun(job, off + |BatchAt(job, off)|, envs[1..]))
  }

  lemma HealthyTurn(w: World, job: Job, off: nat, b: BatchEnv)
    requires off < |job.items| && job.hub != "" && PlausibleBatch(job, off, b) && Healthy(BatchAt(job, off), b)
    ensures Turned(w, job, off, b).Next?
    ensures Turned(w, job, off, b).world.saved == StateFile(off + |BatchAt(job, off)|, w.saved.presenceOffset,
            Some(job))
  {
    var raws := BatchAt(job, off);
    FaultFreeRouteAnswers(w.store, job.hub, raws, b.attempts[0].envs);
    assert b.attempts[0..] == b.attempts;
    PostStep(w.store, job.hub, raws, b.attempts, 0);
  }

  /** While every batch has a healthy attempt first, an import finishes, with its offset at the end. */
  lemma {:induction false} HealthyImportFinishes(w: World, job: Job, off: nat, envs: seq<BatchEnv>)
    requires off <= |job.items| && job.hub != "" && PlausibleRun(job, off, envs) && HealthyRun(job, off, envs)
    ensures ImportFrom(w, job, off, envs).finished
    ensures off < |job.items| ==>
              ImportFrom(w, job, off, envs).world.saved == StateFile(|job.items|, w.saved.presenceOffset, Some(job))
    decreases |envs|
  {
    if off == |job.items| {
    } else {
      TurnOf(w, job, off, envs);
      HealthyTurn(w, job, off, envs[0]);
      var next := off + |BatchAt(job, off)|;
      HealthyImportFinishes(Turned(w, job, off, envs[0]).world, job, next, envs[1..]);
      assert next == |job.items| ==> ImportFrom(Turned(w, job, off, envs[0]).world, job, next, envs[1..]).world ==
                                     Turned(w, job, off, envs[0]).world;
    }
  }

  /** The item is sound to every attempt, and storage never refuses it for good. */
  predicate Welcome(raw: Message, e: ItemEnv) {
    Sound(raw, e) && !(e.env.fault.Fault? && e.env.fault.permanent)
  }

  predicate WelcomeIn(raws: seq<Message>, a: Attempt, raw: Message)
    requires Plausible(raws, a)
  {
    a.Handled? ==> forall j :: 0 <= j < |raws| && raws[j] == raw ==> Welcome(raw, a.envs[j])
  }

  predicate WelcomeAlways(raws: seq<Message>, attempts: seq<Attempt>, raw: Message)
    requires AllPlausible(raws, attempts)
  {
    forall a :: a in attempts ==> Plausible(raws, a) && WelcomeIn(raws, a, raw)
  }

  lemma WelcomeNotRejected(s: Store, hub: string, items: seq<Input>, es: seq<Env>, j: nat)
    requires j < |items| == |es| && !Push(s, hub, items, es).aborted && hub != ""
    requires Presentable(items[j], hub) && items[j].msg.clientMsgId != Some("")
    requires !(es[j].fault.Fault? && es[j].fault.permanent)
    ensures !Push(s, hub, items, es).outcomes[j].Rejected?
  {
    OutcomeAt(s, hub, items, es, j);
    ScreenDecides(items[j], hub);
    ConstraintHitIff(Push(s, hub, items[..j], es[..j]).store, items[j].(originHub := Some(hub)), es[j]);
  }

  /** A welcome item of an answered request is stored, whatever else the request holds. */
  lemma WelcomeItemStored(s: Store, hub: string, raws: seq<Message>, envs: seq<ItemEnv>, i: nat)
    requires Valid(s) && hub != "" && i < |raws| == |envs| && Route(s, hub, raws, envs).answer.Some?
    requires Welcome(raws[i], envs[i]) && Exported(raws[i])
    ensures StoredOnce(Route(s, hub, raws, envs).store.rows, hub, Trim(raws[i].id))
  {
    var items, es, j := BuiltItems(raws, hub, envs), BuiltEnvs(raws, hub, envs), Place(raws, hub, envs, i);
    PlacedItem(raws, hub, envs, i);
    SoundIsPresentable(items[j], raws[i], hub, envs[i]);
    BlankIff(raws[i].id);
    var p := Push(s, hub, items, es);
    WelcomeNotRejected(s, hub, items, es, j);
    PushTruthful(s, hub, items, es);
    PushKeeps(s, hub, items, es);
    assert Truthful(p.store.rows, hub, items[j], p.outcomes[j]);
    StoredOnceFromMatch(p.store, hub, items[j].msg.id);
  }

  /** Every attempt on a batch that holds the item welcomes it. */
  predicate WelcomeRun(job: Job, off: nat, envs: seq<BatchEnv>, raw: Message)
    requires off <= |job.items| && PlausibleRun(job, off, envs)
    decreases |envs|
  {
    envs == [] || off == |job.items| ||
    (WelcomeAlways(BatchAt(job, off), envs[0].attempts, raw) &&
      WelcomeRun(job, off + |BatchAt(job, off)|, envs[1..], raw))
  }

  /** What was acknowledged of the item is stored. */
  ghost predicate Kept(w: World, hub: string, raw: Message) {
    Acked(w.delivered, hub, raw) ==> StoredOnce(w.store.rows, hub, Trim(raw.id))
  }

  lemma KeptGrows(v: World, w: World, hub: string, raw: Message)
    requires Kept(v, hub, raw) && Valid(w.store) && Extends(v.store, w.store) && w.delivered == v.delivered
    ensures Kept(w, hub, raw)
  {
    if Acked(v.delivered, hub, raw) {
      StoredOnceStays(v.store, w.store, hub, Trim(raw.id));
    }
  }

  lemma WelcomeTurn(s: Store, hub: string, raws: seq<Message>, a: Attempt, i: nat)
    requires Valid(s) && hub != "" && Plausible(raws, a) && i < |raws| && Exported(raws[i]) &&
             WelcomeIn(raws, a, raws[i])
    ensures match Attempted(s, hub, raws, a)
            case Stop(r) => r.answer.Some? ==> StoredOnce(r.store.rows, hub, Trim(raws[i].id))
            case GoOn(t) => Valid(t)
  {
    if a.Handled? {
      RouteSettles(s, hub, raws, a.envs);
      if Route(s, hub, raws, a.envs).answer.Some? {
        WelcomeItemStored(s, hub, raws, a.envs, i);
      }
    }
  }

  lemma {:induction false} WelcomePost(s: Store, hub: string, raws: seq<Message>, attempts: seq<Attempt>, i: nat)
    requires Valid(s) && hub != "" && AllPlausible(raws, attempts) && i < |raws| && Exported(raws[i])
    requires WelcomeAlways(raws, attempts, raws[i])
    ensures var r := PostFrom(s, hub, raws, attempts);
            r.answer.Some? ==> StoredOnce(r.store.rows, hub, Trim(raws[i].id))
    decreases |attempts|
  {
    if attempts == [] {
    } else {
      var a, rest := attempts[0], attempts[1..];
      assert attempts[0..] == attempts && a in attempts;
      PostStep(s, hub, raws, attempts, 0);
      WelcomeTurn(s, hub, raws, a, i);
      match Attempted(s, hub, raws, a)
      case Stop(_) =>
      case GoOn(t) =>
        assert WelcomeAlways(raws, rest, raws[i]);
        WelcomePost(t, hub, raws, rest, i);
    }
  }

  lemma AnsweredKeeps(w: World, job: Job, raws: seq<Message>, attempts: seq<Attempt>, hub: string, raw: Message)
    requires Valid(w.store) && hub != "" && AllPlausible(raws, attempts) && Exported(raw) && Kept(w, hub, raw)
    requires job.hub == hub ==> WelcomeAlways(raws, attempts, raw)
    requires PostFrom(w.store, job.hub, raws, attempts).answer.Some?
    ensures Kept(Acknowledge(w, job, raws, PostFrom(w.store, job.hub, raws, attempts)), hub, raw)
  {
    var r := PostFrom(w.store, job.hub, raws, attempts);
    var acked := Acknowledge(w, job, raws, r);
    PostKeeps(w.store, job.hub, raws, attempts);
    if Acked(acked.delivered, hub, raw) {
      if Acked(w.delivered, hub, raw) {
        StoredOnceStays(w.store, r.store, hub, Trim(raw.id));
      } else {
        var d :| d in acked.delivered && d.hub == hub && raw in d.raws;
        assert d == acked.delivered[|w.delivered|];
        var i :| 0 <= i < |raws| && raws[i] == raw;
        WelcomePost(w.store, hub, raws, attempts, i);
      }
    }
  }

  lemma TurnKeepsItem(w: World, job: Job, off: nat, b: BatchEnv, hub: string, raw: Message)
    requires Valid(w.store) && off < |job.items| && PlausibleBatch(job, off, b) && Exported(raw) && hub != ""
    requires Kept(w, hub, raw) && (job.hub == hub ==> WelcomeAlways(BatchAt(job, off), b.attempts, raw))
    ensures var t := Turned(w, job, off, b);
            var u := if t.Ended? then t.outcome.world else t.world;
            Kept(u, hub, raw) && Valid(u.store)
  {
    var raws := BatchAt(job, off);
    PostKeeps(w.store, job.hub, raws, b.attempts);
    if PostFrom(w.store, job.hub, raws, b.attempts).answer.Some? {
      AnsweredKeeps(w, job, raws, b.attempts, hub, raw);
    } else {
      KeptGrows(w, w.(store := PostFrom(w.store, job.hub, raws, b.attempts).store), hub, raw);
    }
  }

  predicate WelcomeRunOf(job: Job, off: nat, envs: seq<BatchEnv>, hub: string, raw: Message)
    requires off <= |job.items| && PlausibleRun(job, off, envs)
  {
    job.hub == hub ==> WelcomeRun(job, off, envs, raw)
  }

  lemma WelcomeFirst(job: Job, off: nat, envs: seq<BatchEnv>, hub: string, raw: Message)
    requires off < |job.items| && envs != [] && PlausibleRun(job, off, envs) && WelcomeRunOf(job, off, envs, hub, raw)
    ensures AllPlausible(BatchAt(job, off), envs[0].attempts) && PlausibleRun(job, off + |BatchAt(job, off)|, envs[1..])
    ensures job.hub == hub ==> WelcomeAlways(BatchAt(job, off), envs[0].attempts, raw)
    ensures WelcomeRunOf(job, off + |BatchAt(job, off)|, envs[1..], hub, raw)
  {
  }

  lemma FirstTurnKeepsItem(w: World, job: Job, off: nat, envs: seq<BatchEnv>, hub: string, raw: Message)
    requires Valid(w.store) && off < |job.items| && PlausibleRun(job, off, envs) && Exported(raw) && hub != "" &&
             envs != []
    requires Kept(w, hub, raw) && WelcomeRunOf(job, off, envs, hub, raw)
    ensures PlausibleBatch(job, off, envs[0]) && PlausibleRun(job, off + |BatchAt(job, off)|, envs[1..])
    ensures WelcomeRunOf(job, off + |BatchAt(job, off)|, envs[1..], hub, raw)
    ensures match Turned(w, job, off, envs[0])
            case Ended(o) => ImportFrom(w, job, off, envs) == o && Kept(o.world, hub, raw)
            case Next(v) => ImportFrom(w, job, off, envs) == ImportFrom(v, job, off + |BatchAt(job, off)|, envs[1..]) &&
                            Kept(v, hub, raw) && Valid(v.store)
  {
    TurnOf(w, job, off, envs);
    WelcomeFirst(job, off, envs, hub, raw);
    TurnKeepsItem(w, job, off, envs[0], hub, raw);
  }

  lemma {:induction false} ImportKeepsItem(w: World, job: Job, off: nat, envs: seq<BatchEnv>, hub: string, raw: Message)
    requires Valid(w.store) && off <= |job.items| && PlausibleRun(job, off, envs) && Exported(raw) && hub != ""
    requires Kept(w, hub, raw) && WelcomeRunOf(job, off, envs, hub, raw)
    ensures Kept(ImportFrom(w, job, off, envs).world, hub, raw)
    decreases |envs|
  {
    if off == |job.items| || envs == [] {
      assert ImportFrom(w, job, off, envs).world == w;
    } else {
      FirstTurnKeepsItem(w, job, off, envs, hub, raw);
      match Turned(w, job, off, envs[0])
      case Ended(_) =>
      case Next(v) => ImportKeepsItem(v, job, off + |BatchAt(job, off)|, envs[1..], hub, raw);
    }
  }

  predicate WelcomeEvent(w: World, e: Event, hub: string, raw: Message)
    requires PlausibleEvent(w, e)
  {
    e.Import? && e.job.hub == hub && StartOffset(w.saved, e.job).Some? ==>
      WelcomeRun(e.job, StartOffset(w.saved, e.job).value, e.batches, raw)
  }

  lemma StepKeepsItem(w: World, e: Event, hub: string, raw: Message)
    requires Inv(w) && PlausibleEvent(w, e) && Exported(raw) && hub != "" && Kept(w, hub, raw) &&
             WelcomeEvent(w, e, hub, raw)
    ensures Kept(Importer.Step(w, e).world, hub, raw)
  {
    match e
    case Import(job, batches) =>
      var start := StartOffset(w.saved, job);
      if start.Some? {
        ImportKeepsItem(w, job, start.value, batches, hub, raw);
      }
    case OtherWrite(input, env) =>
      InsertKeeps(w.store, input, env);
      KeptGrows(w, Importer.Step(w, e).world, hub, raw);
    case OtherPush(other, items, envs) =>
      PushKeeps(w.store, other, items, envs);
      KeptGrows(w, Importer.Step(w, e).world, hub, raw);
  }

  ghost predicate WelcomeThroughout(events: seq<Event>, worlds: seq<World>, hub: string, raw: Message)
    requires |worlds| == |events| + 1
  {
    forall k :: 0 <= k < |events| ==>
      PlausibleEvent(worlds[k], events[k]) && WelcomeEvent(worlds[k], events[k], hub, raw)
  }

  lemma {:induction false} RunKeepsItem(w0: World, events: seq<Event>, worlds: seq<World>, k: nat, hub: string,
      raw: Message)
    requires Initial(w0) && Run(w0, events, worlds) && k < |worlds| && Exported(raw) && hub != ""
    requires WelcomeThroughout(events, worlds, hub, raw)
    ensures Kept(worlds[k], hub, raw)
  {
    if k == 0 {
    } else {
      RunKeepsItem(w0, events, worlds, k - 1, hub, raw);
      RunInv(w0, events, worlds, k - 1);
      StepKeepsItem(worlds[k - 1], events[k - 1], hub, raw);
    }
  }

  /** A finished import has stored every row that its attempts found sound and storage did not refuse for
      good, exactly once and with no refusal as an alternative, however many earlier processes failed. */
  lemma FinishedImportStores(w0: World, events: seq<Event>, worlds: seq<World>, k: nat, raw: Message)
    requires Initial(w0) && Run(w0, events, worlds) && k < |events| && events[k].Import? && events[k].job.hub != ""
    requires Importer.Step(worlds[k], events[k]).finished && raw in events[k].job.items && Exported(raw)
    requires WelcomeThroughout(events, worlds, events[k].job.hub, raw)
    ensures StoredOnce(worlds[k + 1].store.rows, events[k].job.hub, Trim(raw.id))
  {
    var hub := events[k].job.hub;
    RunKeepsItem(w0, events, worlds, k + 1, hub, raw);
    RunInv(w0, events, worlds, k);
    StepKeeps(worlds[k], events[k]);
    var i :| 0 <= i < |events[k].job.items| && events[k].job.items[i] == raw;
    assert Done(worlds[k + 1], hub, events[k].job.items[i]);
  }
}
