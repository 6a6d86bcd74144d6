/** Arbitration said about the requests: what a stored claim carries, when two claims are contested, how long
    a lease runs. */
module ClaimLaws {
  import opened Prelude
  import opened Timestamps
  import opened ClaimsLogic
  import opened ClaimObject

  // ---- Leases -------------------------------------------------------------

  /** An hour unless asked for, at least a second and at most a day. */
  lemma LeaseTtlIs(requested: Option<int>)
    ensures requested == None ==> LeaseTtl(requested) == 3600
    ensures requested.Some? && requested.value < 1 ==> LeaseTtl(requested) == 1
    ensures requested.Some? && requested.value > 86_400 ==> LeaseTtl(requested) == 86_400
    ensures requested.Some? && 1 <= requested.value <= 86_400 ==> LeaseTtl(requested) == requested.value
  {
  }

  /** The lease ends this many seconds after the call, to the millisecond. */
  lemma LeaseEndIs(now: int, ttl: Lease)
    ensures EndOfLease(now, ttl) == FormatTimestampUtc(LeaseEnd(now, ttl)) && LeaseEnd(now, ttl) == now + 1000 * ttl
  {
  }

  /** An expiry that is not later than now has passed; a claim without one never expires. */
  lemma ExpiredIff(c: Claim, now: string)
    ensures Expired(c, now) <==> c.expiresAt.Some? && (c.expiresAt.value == now || Less(c.expiresAt.value, now))
  {
    if c.expiresAt.Some? {
      LessTotal(now, c.expiresAt.value);
      LessIrreflexive(now);
      if Less(c.expiresAt.value, now) {
        LessAsymmetric(c.expiresAt.value, now);
      }
    }
  }

  /** A resolution stays readable for an hour. */
  lemma ResolutionLasts(now: int, later: int)
    ensures now + RESOLUTION_TTL_SECS * 1000 > later <==> later - now < 3_600_000
  {
  }

  // ---- Requests -----------------------------------------------------------

  /** The first thing missing from a request. */
  lemma RequestErrorIs(r: Request)
    ensures var named := r.space.Some? && !Vacant(r.space.value);
            RequestError(r) ==
              if Vacant(r.resource) then Some(ResourceEmpty)
              else if Vacant(r.agent) then Some(AgentEmpty)
              else if r.mode == SharedNamespaced && !named then Some(NamespaceMissing)
              else None
  {
    BlankIff(r.resource);
    BlankIff(r.agent);
    if r.space.Some? {
      BlankIff(r.space.value);
    }
  }

  lemma ClaimOfCarries(r: Request, nowIso: string, machineGlobal: bool)
    ensures var c := ClaimOf(r, nowIso, machineGlobal);
            && Carries(c, r) && c.timestamp == nowIso && c.leaseTtlSeconds == LeaseTtl(r.leaseTtlSeconds)
            && (r.scope == None ==> c.scope == (if machineGlobal then Machine else Repo))
  {
  }

  /** Two acceptable requests clash: one is exclusive, or both are namespaced with the same name up to
      surrounding white space. */
  predicate Clash(a: Request, b: Request) {
    a.mode == Exclusive || b.mode == Exclusive ||
    (a.mode == SharedNamespaced && b.mode == SharedNamespaced &&
     a.space.Some? && b.space.Some? && Trim(a.space.value) == Trim(b.space.value))
  }

  lemma NamespaceIs(c: Claim, r: Request)
    requires Carries(c, r)
    ensures Namespace(c) == if r.space == None || Vacant(r.space.value) then None else Some(Trim(r.space.value))
  {
    if r.space.Some? {
      BlankIff(r.space.value);
      if r.space.value == "" {
        assert Vacant(r.space.value);
      }
    }
  }

  /** Claims conflict exactly when their requests clash. */
  lemma ConflictIsClash(c: Claim, d: Claim, a: Request, b: Request)
    requires Carries(c, a) && Carries(d, b) && RequestError(a) == None && RequestError(b) == None
    ensures Conflicts(c, d) <==> Clash(a, b)
  {
    NamespaceIs(c, a);
    NamespaceIs(d, b);
    RequestErrorIs(a);
    RequestErrorIs(b);
  }

  // ---- Statuses -----------------------------------------------------------

  function LeasedClaim(r: Request, nowIso: string, now: int, machineGlobal: bool): (c: Claim) {
    ClaimOf(r, nowIso, machineGlobal).(expiresAt := Some(EndOfLease(now, LeaseTtl(r.leaseTtlSeconds))))
  }

  lemma FirstClaim(r: Request, nowIso: string, now: int, stamp: string, machineGlobal: bool)
    ensures ApplyAt([], DoClaim(ClaimOf(r, nowIso, machineGlobal), now), stamp) ==
            [LeasedClaim(r, nowIso, now, machineGlobal).(status := Granted)]
  {
    var asked, c := ClaimOf(r, nowIso, machineGlobal), LeasedClaim(r, nowIso, now, machineGlobal);
    assert Active([], stamp) == [];
    ClaimEffect([], asked, now, stamp, c);
    assert Without([], asked.agent) + [c] == [c];
    assert !Conflicted([c], 0);
  }

  lemma AloneLive(c: Claim, stamp: string)
    requires !Expired(c, stamp)
    ensures Live([c], stamp) == [c]
  {
    assert [c][..0] == [];
  }

  lemma AloneActive(c: Claim, stamp: string)
    requires !Expired(c, stamp)
    ensures Active([c], stamp) == [c]
  {
    AloneLive(c, stamp);
    assert [c][..0] == [] && ByTimestamp([]) == [];
  }

  lemma AloneWithout(c: Claim, agent: string)
    requires c.agent != agent
    ensures Without([c], agent) == [c]
  {
    assert [c][..0] == [];
  }

  /** Adding a claim to a table with one live claim of another agent. */
  lemma SecondClaim(c: Claim, r: Request, nowIso: string, now: int, stamp: string, machineGlobal: bool)
    requires !Expired(c, stamp) && c.agent != r.agent
    ensures ApplyAt([c], DoClaim(ClaimOf(r, nowIso, machineGlobal), now), stamp) ==
            Recomputed([c, LeasedClaim(r, nowIso, now, machineGlobal)])
  {
    var asked, d := ClaimOf(r, nowIso, machineGlobal), LeasedClaim(r, nowIso, now, machineGlobal);
    AloneActive(c, stamp);
    AloneWithout(c, asked.agent);
    ClaimEffect([c], asked, now, stamp, d);
    assert [c] + [d] == [c, d];
  }

  lemma PairStatuses(c: Claim, d: Claim)
    ensures var s := if Conflicts(c, d) then Contested else Granted;
            Recomputed([c, d]) == [c.(status := s), d.(status := s)]
  {
    ConflictsIff(c, d);
    assert Conflicted([c, d], 0) <==> Conflicts(c, d) by {
      assert Conflicts([c, d][0], [c, d][1]) <==> Conflicts(c, d);
    }
    assert Conflicted([c, d], 1) <==> Conflicts(d, c) by {
      assert Conflicts([c, d][1], [c, d][0]) <==> Conflicts(d, c);
    }
  }

  /** What the table holds after both. */
  predicate BothStored(table: seq<Claim>, a: Request, b: Request) {
    var status := if Clash(a, b) then Contested else Granted;
    && |table| == 2 && Carries(table[0], a) && Carries(table[1], b)
    && table[0].status == status && table[1].status == status
  }

  lemma PairStored(c: Claim, d: Claim, a: Request, b: Request)
    requires Carries(c, a) && Carries(d, b) && RequestError(a) == None && RequestError(b) == None
    ensures BothStored(Recomputed([c, d]), a, b)
  {
    PairStatuses(c, d);
    ConflictIsClash(c, d, a, b);
  }

  lemma TwoStamped(a: Request, isoA: string, first: int, stampA: string, globalA: bool, b: Request, isoB: string,
      second: int, stampB: string, globalB: bool)
    requires RequestError(a) == None && RequestError(b) == None && a.agent != b.agent
    requires Less(stampB, EndOfLease(first, LeaseTtl(a.leaseTtlSeconds)))
    ensures var one := ApplyAt([], DoClaim(ClaimOf(a, isoA, globalA), first), stampA);
            BothStored(ApplyAt(one, DoClaim(ClaimOf(b, isoB, globalB), second), stampB), a, b)
  {
    var c, d := LeasedClaim(a, isoA, first, globalA).(status := Granted), LeasedClaim(b, isoB, second, globalB);
    FirstClaim(a, isoA, first, stampA, globalA);
    SecondClaim(c, b, isoB, second, stampB, globalB);
    PairStored(c, d, a, b);
  }

  /** Two agents claim a resource within the first one's lease: both are contested exactly when their requests
      clash, and both granted otherwise, and the table holds what they asked for. */
  lemma TwoRequests(a: Request, isoA: string, first: int, globalA: bool, b: Request, isoB: string, second: int,
      globalB: bool)
    requires RequestError(a) == None && RequestError(b) == None && a.agent != b.agent
    requires InYears(first) && FourDigitYear(second) && second < LeaseEnd(first, LeaseTtl(a.leaseTtlSeconds))
    ensures var one := Apply([], DoClaim(ClaimOf(a, isoA, globalA), first));
            BothStored(Apply(one, DoClaim(ClaimOf(b, isoB, globalB), second)), a, b)
  {
    FormatPreservesOrder(second, LeaseEnd(first, LeaseTtl(a.leaseTtlSeconds)));
    TwoStamped(a, isoA, first, FormatTimestampUtc(first), globalA, b, isoB, second, FormatTimestampUtc(second),
      globalB);
  }

  /** In any settled table a claim is contested exactly when the request behind some other row clashes with
      its own. */
  lemma ContestedIff(claims: seq<Claim>, requests: seq<Request>, i: nat)
    requires Settled(claims) && |requests| == |claims| && i < |claims|
    requires forall k :: 0 <= k < |claims| ==> Carries(claims[k], requests[k]) && RequestError(requests[k]) == None
    ensures claims[i].status == Contested <==> exists j ::
              0 <= j < |claims| && i != j && Clash(requests[i], requests[j])
    ensures claims[i].status in {Contested, Granted}
  {
    forall j | 0 <= j < |claims| ensures Conflicts(claims[i], claims[j]) <==> Clash(requests[i], requests[j]) {
      ConflictIsClash(claims[i], claims[j], requests[i], requests[j]);
    }
  }

  // ---- Reading ------------------------------------------------------------

  predicate Sorted(claims: seq<Claim>) {
    forall i, j :: 0 <= i < j < |claims| ==> !Less(claims[j].timestamp, claims[i].timestamp)
  }

  lemma NotLessThrough(x: string, y: string, z: string)
    requires !Less(y, x) && !Less(z, y)
    ensures !Less(z, x)
  {
    LessTotal(y, x);
    if Less(z, x) && Less(x, y) {
      LessTransitive(z, x, y);
    }
  }

  /** Not earlier than any of them. */
  predicate Latest(claims: seq<Claim>, c: Claim) { forall x :: x in claims ==> !Less(c.timestamp, x.timestamp) }

  lemma LatestLast(claims: seq<Claim>, c: Claim)
    requires Sorted(claims) && Latest(claims, c)
    ensures Sorted(claims + [c])
  {
    forall i | 0 <= i < |claims| ensures !Less(c.timestamp, claims[i].timestamp) {
      assert claims[i] in claims;
    }
  }

  lemma AfterLast(claims: seq<Claim>, c: Claim)
    requires Sorted(claims) && claims != [] && !Less(c.timestamp, claims[|claims| - 1].timestamp)
    ensures Latest(claims, c)
  {
    forall x | x in claims ensures !Less(c.timestamp, x.timestamp) {
      var i :| 0 <= i < |claims| && claims[i] == x;
      if i < |claims| - 1 {
        NotLessThrough(x.timestamp, claims[|claims| - 1].timestamp, c.timestamp);
      }
    }
  }

  lemma {:induction false} PlaceSorts(c: Claim, sorted: seq<Claim>)
    requires Sorted(sorted)
    ensures Sorted(Place(c, sorted))
  {
    if sorted == [] {
    } else if Less(c.timestamp, sorted[|sorted| - 1].timestamp) {
      var n := |sorted| - 1;
      var init, last := Place(c, sorted[..n]), sorted[n];
      PlaceSorts(c, sorted[..n]);
      LessAsymmetric(c.timestamp, last.timestamp);
      forall x | x in init ensures !Less(last.timestamp, x.timestamp) {
        assert x in multiset(init);
        assert x == c || x in sorted[..n];
      }
      LatestLast(init, last);
    } else {
      AfterLast(sorted, c);
      LatestLast(sorted, c);
    }
  }

  lemma {:induction false} SortedByTimestamp(claims: seq<Claim>)
    ensures Sorted(ByTimestamp(claims)) && multiset(ByTimestamp(claims)) == multiset(claims)
  {
    if claims == [] {
    } else {
      SortedByTimestamp(claims[..|claims| - 1]);
      PlaceSorts(claims[|claims| - 1], ByTimestamp(claims[..|claims| - 1]));
    }
  }

  /** A read shows the claims whose lease has not passed, oldest first. */
  lemma ActiveIs(claims: seq<Claim>, now: string, c: Claim)
    ensures Sorted(Active(claims, now))
    ensures c in Active(claims, now) <==>
            c in claims && (c.expiresAt == None || Less(now, c.expiresAt.value))
  {
    SortedByTimestamp(Live(claims, now));
    assert c in multiset(Active(claims, now)) <==> c in multiset(Live(claims, now));
    assert c in Live(claims, now) <==> c in multiset(Live(claims, now));
  }

  /** A renewal replaces lease, time and expiry of one row. */
  lemma RenewedRow(claims: seq<Claim>, agent: string, ttl: Lease, timestamp: string, end: string, k: nat)
    requires IndexOf(claims, agent) < |claims| && k < |claims| && OnePerAgent(claims)
    ensures var r := Renewed(claims, agent, ttl, timestamp, end);
            |r| == |claims| &&
            if claims[k].agent == agent
            then r[k] == claims[k].(leaseTtlSeconds := ttl, timestamp := timestamp, expiresAt := Some(end))
            else r[k] == claims[k]
  {
  }

  /** A resolution grants the winner and leaves every other claim for review. */
  lemma ResolvedRow(claims: seq<Claim>, winner: string, now: int, c: Claim)
    requires c in Apply(claims, DoResolve(winner, now))
    ensures c.status == if c.agent == winner then Granted else ReviewAssigned
  {
  }
}
