/** What readers of the log are given, said about the rows' own columns: the origin a puller leaves out, and
    the filters and the scan budget of `listMessages`. */
module ReadLaws {
  import opened Prelude
  import opened MessageStore
  import opened Reading
  import Replication

  // ---- syncPull -----------------------------------------------------------

  /** What a puller that leaves out one origin, or none, is to get. */
  predicate Wanted(r: Row, excluded: Option<string>) {
    match excluded
    case None => true
    case Some(hub) => hub == "" || r.originHub != hub
  }

  lemma EligibleIff(r: Row, excluded: Option<string>)
    ensures Eligible(r, excluded) <==> Wanted(r, excluded)
  {
  }

  /** A page for a hub: none of its own rows, and each row of another origin between the cursors. */
  lemma HubPage(rows: seq<Row>, since: int, hub: string, limit: int, r: Row)
    requires Ordered(rows) && limit >= 1 && hub != ""
    ensures var p := Pull(rows, since, Some(hub), limit);
            r in p.messages <==> r in rows && r.originHub != hub && since < r.seqNo <= p.nextCursor
  {
    PullPageExact(rows, since, Some(hub), limit);
  }

  /** A page without an excluded origin: each row between the cursors. */
  lemma FullPage(rows: seq<Row>, since: int, excluded: Option<string>, limit: int, r: Row)
    requires Ordered(rows) && limit >= 1 && excluded in {None, Some("")}
    ensures var p := Pull(rows, since, excluded, limit);
            r in p.messages <==> r in rows && since < r.seqNo <= p.nextCursor
  {
    PullPageExact(rows, since, excluded, limit);
  }

  /** More is announced exactly while a wanted row is left, after a full page; otherwise the cursor is past
      every row. */
  lemma PageEnd(rows: seq<Row>, since: int, excluded: Option<string>, limit: int)
    requires Ordered(rows) && limit >= 1
    ensures var p := Pull(rows, since, excluded, limit);
            && (p.hasMore <==> exists r :: r in rows && r.seqNo > p.nextCursor && Wanted(r, excluded))
            && (if p.hasMore then |p.messages| == limit && p.nextCursor == p.messages[limit - 1].seqNo
                else p.nextCursor >= since && (forall r :: r in rows ==> r.seqNo <= p.nextCursor) &&
                     (p.nextCursor == since || (rows == [] && p.nextCursor == 0) ||
                      exists r :: r in rows && r.seqNo == p.nextCursor))
  {
    PullPageExact(rows, since, excluded, limit);
    PullIs(rows, since, excluded, limit);
    assert rows != [] ==> rows[0] in rows;
    forall r ensures Eligible(r, excluded) <==> Wanted(r, excluded) {
      EligibleIff(r, excluded);
    }
  }

  /** Over any run: a hub is never handed a row of its own, and gets every row of another origin up to its
      cursor exactly once, unless retention took it first. */
  lemma HubGetsTheOthers(hub: string, events: seq<Replication.Event>)
    requires hub != "" && forall e :: e in events ==> Replication.WellFormed(e)
    ensures var w := Replication.Run(Some(hub), events);
            && (forall r :: r in w.delivered ==> r.originHub != hub && r in w.issued)
            && (forall r :: r in w.issued && r.originHub != hub && r.seqNo <= w.cursor && r.seqNo !in w.lost ==>
                  multiset(w.delivered)[r] == 1)
  {
    Replication.DeliveredExactlyOnce(Some(hub), events);
  }

  /** Without an excluded origin every row up to the cursor. */
  lemma AllAreDelivered(excluded: Option<string>, events: seq<Replication.Event>)
    requires excluded in {None, Some("")} && forall e :: e in events ==> Replication.WellFormed(e)
    ensures var w := Replication.Run(excluded, events);
            forall r :: r in w.issued && r.seqNo <= w.cursor && r.seqNo !in w.lost ==> multiset(w.delivered)[r] == 1
  {
    Replication.DeliveredExactlyOnce(excluded, events);
  }

  /** What a puller ends up with when writers stop. */
  lemma QuietPullerHas(excluded: Option<string>, events: seq<Replication.Event>, limit: int, r: Row)
    requires (forall e :: e in events ==> Replication.WellFormed(e)) && limit >= 1
    ensures var w := Replication.Run(excluded, events);
            r in w.delivered + Drain(w.store.rows, w.cursor, excluded, limit) <==>
            r in w.issued && Wanted(r, excluded) && r.seqNo !in w.lost
  {
    Replication.QuietDrainCompletes(excluded, events, limit);
    EligibleIff(r, excluded);
  }

  // ---- listMessages -------------------------------------------------------

  /** The tag a scope adds, under its prefix. */
  predicate ScopeMet(r: Row, prefix: string, scope: Option<string>) {
    scope.None? || scope.value == "" || prefix + scope.value in r.msg.tags
  }

  /** The row was sent no earlier than the cutoff, by the sender, to the agent or with broadcasts to "all",
      on the topic and thread, and carries every required tag and those of the repository and session. */
  predicate Asked(r: Row, q: Query, cutoff: string) {
    && (r.msg.timestampUtc == cutoff || Less(cutoff, r.msg.timestampUtc))
    && q.fromAgent in {None, Some(r.msg.sender)}
    && (q.agent in {None, Some(r.msg.recipient)} || (q.includeBroadcast && r.msg.recipient == "all"))
    && q.topic in {None, Some(r.msg.topic)}
    && (q.threadId == None || q.threadId == r.msg.threadId)
    && (forall t :: t in q.requiredTags ==> t in r.msg.tags)
    && ScopeMet(r, "repo:", q.repo) && ScopeMet(r, "session:", q.session)
  }

  lemma HasBoth(r: Row, a: seq<string>, b: seq<string>)
    ensures HasTags(r, a + b) <==> HasTags(r, a) && HasTags(r, b)
  {
    forall t ensures t in a + b <==> t in a || t in b {
    }
  }

  lemma ScopeIff(r: Row, prefix: string, scope: Option<string>)
    ensures HasTags(r, if Truthy(scope) then [prefix + scope.value] else []) <==> ScopeMet(r, prefix, scope)
  {
    if Truthy(scope) {
      assert prefix + scope.value in [prefix + scope.value];
    }
  }

  lemma TagsIff(r: Row, q: Query)
    ensures HasTags(r, AllTags(q)) <==>
            (forall t :: t in q.requiredTags ==> t in r.msg.tags) && ScopeMet(r, "repo:", q.repo) &&
              ScopeMet(r, "session:", q.session)
  {
    var repo := if Truthy(q.repo) then ["repo:" + q.repo.value] else [];
    var session := if Truthy(q.session) then ["session:" + q.session.value] else [];
    assert AllTags(q) == q.requiredTags + repo + session;
    HasBoth(r, q.requiredTags + repo, session);
    HasBoth(r, q.requiredTags, repo);
    ScopeIff(r, "repo:", q.repo);
    ScopeIff(r, "session:", q.session);
  }

  lemma NotBefore(ts: string, cutoff: string)
    ensures !Less(ts, cutoff) <==> ts == cutoff || Less(cutoff, ts)
  {
    LessTotal(ts, cutoff);
    LessIrreflexive(ts);
    if Less(ts, cutoff) {
      LessAsymmetric(ts, cutoff);
    }
  }

  lemma PassesIff(r: Row, q: Query, cutoff: string)
    ensures Passes(r, q, cutoff) <==> r.seqNo < 9_007_199_254_740_991 && Asked(r, q, cutoff)
  {
    TagsIff(r, q);
    NotBefore(r.msg.timestampUtc, cutoff);
  }

  /** Whatever the budget cuts off: the answer is in sequence order, no longer than the limit (at least one),
      and a returned row is one that was asked for. */
  lemma ListedIsAsked(rows: seq<Row>, q: Query, cutoff: string)
    requires Ordered(rows)
    ensures var out := Listed(rows, q, cutoff);
            Ordered(out) && |out| <= Max(q.limit, 1) && forall r :: r in out ==> r in rows && Asked(r, q, cutoff)
  {
    var c, tags, n := Candidates(rows, q, cutoff, MAX_SAFE_INTEGER), AllTags(q), Max(q.limit, 1);
    var seen := c[..Min(|c|, ScanBudget(q.limit))];
    CandidateMembers(rows, q, cutoff, MAX_SAFE_INTEGER);
    MatchesMembers(seen, tags);
    FirstIsCut(Matches(seen, tags), n);
    ReverseKeepsCut(First(Matches(seen, tags), n), Matches(seen, tags), n);
    forall r | r in Listed(rows, q, cutoff) ensures r in rows && Asked(r, q, cutoff) {
      assert r in seen && r in c;
      PassesIff(r, q, cutoff);
    }
  }

  /** A row that was asked for is missing only behind a full answer, or behind a whole budget of rows that
      pass the other filters. */
  lemma AskedIsListed(rows: seq<Row>, q: Query, cutoff: string, r: Row)
    requires Ordered(rows) && r in rows && Asked(r, q, cutoff) && r.seqNo < 9_007_199_254_740_991
    requires r !in Listed(rows, q, cutoff)
    ensures var out, c := Listed(rows, q, cutoff), Candidates(rows, q, cutoff, MAX_SAFE_INTEGER);
            (|out| == Max(q.limit, 1) && forall x :: x in out ==> r.seqNo < x.seqNo) ||
            (|c| > ScanBudget(q.limit) && forall x :: x in c[..ScanBudget(q.limit)] ==> r.seqNo < x.seqNo)
  {
    PassesIff(r, q, cutoff);
    ListedMissesOnlyOld(rows, q, cutoff, r);
  }

  /** The simple form, and with it every read within the budget, leaves out a row that was asked for only
      when it has `limit` newer ones. */
  lemma SimpleIsAsked(rows: seq<Row>, q: Query, cutoff: string, r: Row)
    requires Ordered(rows) && forall x :: x in rows ==> x.seqNo < 9_007_199_254_740_991
    ensures var out := Simple(rows, q, cutoff);
            && (r in out ==> r in rows && Asked(r, q, cutoff))
            && (r in rows && Asked(r, q, cutoff) && r !in out ==> |out| == Max(q.limit, 1) && forall x :: x in out ==>
              r.seqNo < x.seqNo)
  {
    SimpleIsNewest(rows, q, cutoff);
    PassesIff(r, q, cutoff);
  }

  /** How many rows a scan may examine. */
  lemma BudgetIs(limit: int)
    ensures limit <= 0 ==> ScanBudget(limit) == 200
    ensures 1 <= limit <= 40 ==> ScanBudget(limit) == 10_000
    ensures limit > 40 ==> ScanBudget(limit) % (5 * limit) == 0 && 10_000 <= ScanBudget(limit) < 10_000 + 5 * limit
  {
    if limit > 0 {
      BudgetIsWholePages(0, limit);
    }
  }
}
