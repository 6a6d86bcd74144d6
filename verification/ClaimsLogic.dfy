/** Lease conflicts, status recomputation and the claims table as a function of its operations. */
module ClaimsLogic {
  import opened Prelude
  import opened Timestamps

  datatype Mode = Exclusive | Shared | SharedNamespaced

  datatype Status = Pending | Granted | Contested | ReviewAssigned

  datatype Scope = Repo | Machine

  const MIN_LEASE_TTL_SECONDS := 1
  const MAX_LEASE_TTL_SECONDS := 86_400

  type Lease = n: int | MIN_LEASE_TTL_SECONDS <= n <= MAX_LEASE_TTL_SECONDS witness 1

  datatype Claim = Claim(
    resource: string, agent: string, priorityArgument: string, timestamp: string, status: Status, mode: Mode,
    space: Option<string>, scopeKind: Option<string>, scopePath: Option<string>, repoScopes: seq<string>,
    threadId: Option<string>, leaseTtlSeconds: Lease, expiresAt: Option<string>, scope: Scope)

  // ---- Conflicts ----------------------------------------------------------

  /** A namespace that trims to nothing counts as none. */
  function Namespace(c: Claim): (r: Option<string>) {
    if c.space.None? || Trim(c.space.value) == "" then None else Some(Trim(c.space.value))
  }

  predicate Conflicts(left: Claim, right: Claim) {
    var l, r := left.mode, right.mode;
    if l == Exclusive || r == Exclusive then true
    else if (l == Shared || l == SharedNamespaced) && r == Shared then false
    else if l == Shared && r == SharedNamespaced then false
    else if l == SharedNamespaced && r == SharedNamespaced then
      var ln, rn := Namespace(left), Namespace(right);
      if ln.Some? && rn.Some? then ln.value == rn.value else true
    else false
  }

  /** Conflict is symmetric, and holds exactly when one side is exclusive or both are namespaced
      without two different namespaces. */
  lemma ConflictsIff(a: Claim, b: Claim)
    ensures Conflicts(a, b) <==> Conflicts(b, a)
    ensures Conflicts(a, b) <==>
              (a.mode == Exclusive || b.mode == Exclusive ||
               (a.mode == b.mode == SharedNamespaced &&
                 (Namespace(a).None? || Namespace(b).None? || Namespace(a) == Namespace(b))))
  {
  }

  // ---- Recomputation ------------------------------------------------------

  predicate Conflicted(claims: seq<Claim>, i: nat)
    requires i < |claims|
  {
    exists j :: 0 <= j < |claims| && i != j && Conflicts(claims[i], claims[j])
  }

  function StatusAt(claims: seq<Claim>, i: nat): (r: Status)
    requires i < |claims|
  {
    if Conflicted(claims, i) then Contested else Granted
  }

  /** Claims that differ in their statuses only. */
  predicate SameButStatus(a: seq<Claim>, b: seq<Claim>) {
    |a| == |b| && forall i :: 0 <= i < |a| ==> a[i].(status := Pending) == b[i].(status := Pending)
  }

  /** Every claim is contested exactly when it conflicts with another one, and granted otherwise. */
  predicate Settled(claims: seq<Claim>) {
    forall i :: 0 <= i < |claims| ==> claims[i].status == StatusAt(claims, i)
  }

  function Recomputed(claims: seq<Claim>): (r: seq<Claim>)
    ensures |r| == |claims| && forall i :: 0 <= i < |claims| ==> r[i] == claims[i].(status := StatusAt(claims, i))
  {
    seq(|claims|, i requires 0 <= i < |claims| => claims[i].(status := StatusAt(claims, i)))
  }

  lemma StatusesDoNotMatter(a: seq<Claim>, b: seq<Claim>, i: nat)
    requires SameButStatus(a, b) && i < |a|
    ensures Conflicted(a, i) <==> Conflicted(b, i)
  {
    forall j, k | 0 <= j < |a| && 0 <= k < |a| ensures Conflicts(a[j], a[k]) == Conflicts(b[j], b[k]) {
      assert a[j].(status := Pending) == b[j].(status := Pending) &&
             a[k].(status := Pending) == b[k].(status := Pending);
    }
  }

  /** Recomputing changes statuses only, leaves each claim settled, and settles nothing further when
      repeated. */
  lemma RecomputedSettles(claims: seq<Claim>)
    ensures SameButStatus(claims, Recomputed(claims)) && Settled(Recomputed(claims))
    ensures Settled(claims) ==> Recomputed(claims) == claims
  {
    forall i | 0 <= i < |claims| ensures Conflicted(claims, i) == Conflicted(Recomputed(claims), i) {
      StatusesDoNotMatter(claims, Recomputed(claims), i);
    }
  }

  /** `recomputeClaimStatuses`: in place, so later claims are compared with already updated ones. */
  method RecomputeClaimStatuses(claims: array<Claim>)
    modifies claims
    ensures claims[..] == Recomputed(old(claims[..]))
  {
    ghost var before := claims[..];
    var i := 0;
    while i < claims.Length
      invariant 0 <= i <= claims.Length
      invariant forall k :: 0 <= k < i ==> claims[k] == Recomputed(before)[k]
      invariant forall k :: i <= k < claims.Length ==> claims[k] == before[k]
    {
      assert SameButStatus(before, claims[..]);
      StatusesDoNotMatter(before, claims[..], i);
      var conflicted, j := false, 0;
      while j < claims.Length && !conflicted
        invariant 0 <= j <= claims.Length
        invariant conflicted <==> exists k :: 0 <= k < j && i != k && Conflicts(claims[i], claims[k])
      {
        conflicted := i != j && Conflicts(claims[i], claims[j]);
        j := j + 1;
      }
      assert conflicted <==> Conflicted(claims[..], i);
      claims[i] := claims[i].(status := if conflicted then Contested else Granted);
      i := i + 1;
    }
  }

  // ---- Safety of a table --------------------------------------------------

  predicate OnePerAgent(claims: seq<Claim>) {
    forall i, j :: 0 <= i < j < |claims| ==> claims[i].agent != claims[j].agent
  }

  /** No two granted claims conflict. */
  predicate GrantsCompatible(claims: seq<Claim>) {
    forall i, j :: 0 <= i < j < |claims| && claims[i].status == Granted && claims[j].status == Granted ==>
      !Conflicts(claims[i], claims[j])
  }

  predicate Apart(c: Claim, d: Claim) {
    c.agent != d.agent && (c.status == Granted && d.status == Granted ==> !Conflicts(c, d))
  }

  predicate Safe(claims: seq<Claim>) { forall i, j :: 0 <= i < j < |claims| ==> Apart(claims[i], claims[j]) }

  lemma SettledGrantsCompatible(claims: seq<Claim>)
    requires Settled(claims)
    ensures GrantsCompatible(claims)
  {
    forall i, j | 0 <= i < j < |claims| && claims[i].status == Granted && claims[j].status == Granted
      ensures !Conflicts(claims[i], claims[j])
    {
      assert !Conflicted(claims, i);
    }
  }

  predicate PairwiseCompatible(claims: seq<Claim>) {
    forall i, j :: 0 <= i < j < |claims| ==> !Conflicts(claims[i], claims[j])
  }

  /** All claims are granted exactly when no two of them conflict. */
  lemma AllGrantedIffCompatible(claims: seq<Claim>)
    requires Settled(claims)
    ensures (forall i :: 0 <= i < |claims| ==> claims[i].status == Granted) <==> PairwiseCompatible(claims)
  {
    SettledGrantsCompatible(claims);
    if PairwiseCompatible(claims) {
      forall i | 0 <= i < |claims| ensures !Conflicted(claims, i) {
        forall j | 0 <= j < |claims| && i != j ensures !Conflicts(claims[i], claims[j]) {
          ConflictsIff(claims[i], claims[j]);
        }
      }
    }
  }

  // ---- The claims table ---------------------------------------------------

  predicate Expired(c: Claim, now: string) { c.expiresAt.Some? && !Less(now, c.expiresAt.value) }

  /** `pruneExpired`. */
  function Live(claims: seq<Claim>, now: string): (live: seq<Claim>)
    ensures forall c :: c in live <==> c in claims && !Expired(c, now)
  {
    if claims == [] then []
    else
      var n := |claims| - 1;
      Live(claims[..n], now) + if Expired(claims[n], now) then [] else [claims[n]]
  }

  /** Insertion behind every claim that is not later. */
  function Place(c: Claim, sorted: seq<Claim>): (r: seq<Claim>)
    ensures |r| == |sorted| + 1 && multiset(r) == multiset(sorted) + multiset{c}
  {
    if sorted != [] && Less(c.timestamp, sorted[|sorted| - 1].timestamp)
    then
      assert sorted == sorted[..|sorted| - 1] + [sorted[|sorted| - 1]];
      Place(c, sorted[..|sorted| - 1]) + [sorted[|sorted| - 1]]
    else sorted + [c]
  }

  /** `SELECT * FROM claims ORDER BY timestamp ASC`. */
  function ByTimestamp(claims: seq<Claim>): (r: seq<Claim>)
    ensures multiset(r) == multiset(claims) && |r| == |claims|
  {
    if claims == [] then []
    else
      assert claims == claims[..|claims| - 1] + [claims[|claims| - 1]];
      Place(claims[|claims| - 1], ByTimestamp(claims[..|claims| - 1]))
  }

  function Active(claims: seq<Claim>, now: string): (r: seq<Claim>) { ByTimestamp(Live(claims, now)) }

  function Without(claims: seq<Claim>, agent: string): (r: seq<Claim>)
    ensures forall c :: c in r <==> c in claims && c.agent != agent
    ensures |r| <= |claims|
  {
    if claims == [] then []
    else
      var n := |claims| - 1;
      Without(claims[..n], agent) + if claims[n].agent == agent then [] else [claims[n]]
  }

  function IndexOf(claims: seq<Claim>, agent: string): (i: nat)
    ensures i <= |claims| && (i < |claims| ==> claims[i].agent == agent)
    ensures forall k :: 0 <= k < i ==> claims[k].agent != agent
  {
    if claims == [] || claims[0].agent == agent then 0 else 1 + IndexOf(claims[1..], agent)
  }

  /** When a lease taken at this moment ends, in milliseconds. */
  function LeaseEnd(now: int, ttl: Lease): (end: int)
    ensures now < end <= now + MAX_LEASE_TTL_SECONDS * 1000
  {
    now + ttl * 1000
  }

  function EndOfLease(now: int, ttl: Lease): (end: string) { FormatTimestampUtc(LeaseEnd(now, ttl)) }

  function Renewed(claims: seq<Claim>, agent: string, ttl: Lease, timestamp: string, end: string): (r: seq<Claim>)
    requires IndexOf(claims, agent) < |claims|
  {
    var i := IndexOf(claims, agent);
    claims[i := claims[i].(leaseTtlSeconds := ttl, timestamp := timestamp, expiresAt := Some(end))]
  }

  function Resolved(claims: seq<Claim>, winner: string): (r: seq<Claim>)
    ensures |r| == |claims|
    ensures forall i :: 0 <= i < |claims| ==>
              r[i] == claims[i].(status := if claims[i].agent == winner then Granted else ReviewAssigned)
  {
    seq(|claims|, i requires 0 <= i < |claims| => claims[i].(status :=
      if claims[i].agent == winner then Granted else ReviewAssigned))
  }

  /** One call on the object that gets as far as the table, with its clock in milliseconds. */
  datatype Op =
    | DoClaim(claim: Claim, now: int)
    | DoRenew(agent: string, ttl: Lease, timestamp: string, now: int)
    | DoRelease(agent: string, now: int)
    | DoResolve(winner: string, now: int)
    | Look(now: int)

  /** What an operation does with the live claims: the new table, unless it finds no claim to work on. */
  function Outcome(active: seq<Claim>, op: Op): (r: Option<seq<Claim>>) {
    match op
    case DoClaim(claim, now) => Some(Recomputed(Without(active, claim.agent) +
      [claim.(expiresAt := Some(EndOfLease(now, claim.leaseTtlSeconds)))]))
    case DoRenew(agent, ttl, timestamp, now) =>
      if IndexOf(active, agent) == |active| then None
        else Some(Recomputed(Renewed(active, agent, ttl, timestamp, EndOfLease(now, ttl))))
    case DoRelease(agent, _) => if |Without(active, agent)| == |active| then None
      else Some(Recomputed(Without(active, agent)))
    case DoResolve(winner, _) => if active == [] then None else Some(Resolved(active, winner))
    case Look(_) => None
  }

  /** The table after an operation at the formatted time: one that finds no claim still prunes. */
  function ApplyAt(claims: seq<Claim>, op: Op, now: string): (r: seq<Claim>) {
    var outcome := Outcome(Active(claims, now), op);
    if outcome.Some? then outcome.value else Live(claims, now)
  }

  function Apply(claims: seq<Claim>, op: Op): (r: seq<Claim>) { ApplyAt(claims, op, FormatTimestampUtc(op.now)) }

  lemma ClaimEffect(claims: seq<Claim>, claim: Claim, now: int, stamp: string, leased: Claim)
    requires leased == claim.(expiresAt := Some(EndOfLease(now, claim.leaseTtlSeconds)))
    ensures ApplyAt(claims, DoClaim(claim, now), stamp) ==
            Recomputed(Without(Active(claims, stamp), claim.agent) + [leased])
  {
  }

  lemma RenewEffect(claims: seq<Claim>, agent: string, ttl: Lease, timestamp: string, now: int, stamp: string,
      end: string)
    requires end == EndOfLease(now, ttl)
    ensures var active := Active(claims, stamp);
            ApplyAt(claims, DoRenew(agent, ttl, timestamp, now), stamp) ==
            if IndexOf(active, agent) == |active| then Live(claims, stamp)
              else Recomputed(Renewed(active, agent, ttl, timestamp, end))
  {
  }

  lemma ResolveEffect(claims: seq<Claim>, winner: string, now: int, stamp: string)
    ensures var active := Active(claims, stamp);
            ApplyAt(claims, DoResolve(winner, now), stamp) ==
              if active == [] then Live(claims, stamp) else Resolved(active, winner)
  {
  }

  function Run(ops: seq<Op>): (r: seq<Claim>) {
    if ops == [] then [] else Apply(Run(ops[..|ops| - 1]), ops[|ops| - 1])
  }

  lemma SnocSafe(claims: seq<Claim>, last: Claim)
    requires Safe(claims) && forall c :: c in claims ==> Apart(c, last)
    ensures Safe(claims + [last])
  {
  }

  lemma InitApart(claims: seq<Claim>, c: Claim)
    requires claims != [] && Safe(claims) && c in claims[..|claims| - 1]
    ensures Apart(c, claims[|claims| - 1])
  {
    var k :| 0 <= k < |claims| - 1 && claims[k] == c;
  }

  lemma {:induction false} LiveSafe(claims: seq<Claim>, now: string)
    requires Safe(claims)
    ensures Safe(Live(claims, now))
  {
    if claims == [] {
    } else {
      var n := |claims| - 1;
      LiveSafe(claims[..n], now);
      forall c | c in Live(claims[..n], now) ensures Apart(c, claims[n]) {
        InitApart(claims, c);
      }
      SnocSafe(Live(claims[..n], now), claims[n]);
    }
  }

  lemma {:induction false} PlaceSafe(c: Claim, sorted: seq<Claim>)
    requires Safe(sorted) && forall d :: d in sorted ==> Apart(d, c)
    ensures Safe(Place(c, sorted))
  {
    if sorted != [] && Less(c.timestamp, sorted[|sorted| - 1].timestamp) {
      var n := |sorted| - 1;
      PlaceSafe(c, sorted[..n]);
      forall d | d in Place(c, sorted[..n]) ensures Apart(d, sorted[n]) {
        assert d in multiset(Place(c, sorted[..n]));
        if d in sorted[..n] {
          InitApart(sorted, d);
        } else {
          ConflictsIff(c, sorted[n]);
          assert sorted[n] in sorted;
        }
      }
      SnocSafe(Place(c, sorted[..n]), sorted[n]);
    } else {
      SnocSafe(sorted, c);
    }
  }

  lemma {:induction false} ByTimestampSafe(claims: seq<Claim>)
    requires Safe(claims)
    ensures Safe(ByTimestamp(claims))
  {
    if claims == [] {
    } else {
      var n := |claims| - 1;
      ByTimestampSafe(claims[..n]);
      forall c | c in ByTimestamp(claims[..n]) ensures Apart(c, claims[n]) {
        assert c in multiset(ByTimestamp(claims[..n]));
        InitApart(claims, c);
      }
      PlaceSafe(claims[n], ByTimestamp(claims[..n]));
    }
  }

  /** Expiry and reading in timestamp order keep a table safe. */
  lemma ActiveSafe(claims: seq<Claim>, now: string)
    requires Safe(claims)
    ensures Safe(Active(claims, now))
  {
    LiveSafe(claims, now);
    ByTimestampSafe(Live(claims, now));
  }

  predicate Holds(claims: seq<Claim>, agent: string) { exists c :: c in claims && c.agent == agent }

  lemma HoldsLast(claims: seq<Claim>, agent: string)
    requires claims != []
    ensures Holds(claims, agent) <==> Holds(claims[..|claims| - 1], agent) || claims[|claims| - 1].agent == agent
  {
    var n := |claims| - 1;
    assert claims[n] in claims;
    if Holds(claims[..n], agent) {
      var c :| c in claims[..n] && c.agent == agent;
      assert c in claims;
    }
    if c :| c in claims && c.agent == agent {
      assert c in claims[..n] || c == claims[n];
    }
  }

  /** Removing an agent shortens the table exactly when the agent has a row. */
  lemma {:induction false} WithoutShrinks(claims: seq<Claim>, agent: string)
    ensures |Without(claims, agent)| < |claims| <==> Holds(claims, agent)
  {
    if claims == [] {
    } else {
      var n := |claims| - 1;
      WithoutShrinks(claims[..n], agent);
      HoldsLast(claims, agent);
    }
  }

  lemma {:induction false} WithoutOnePerAgent(claims: seq<Claim>, agent: string)
    requires OnePerAgent(claims)
    ensures OnePerAgent(Without(claims, agent))
  {
    if claims == [] {
    } else {
      var n := |claims| - 1;
      WithoutOnePerAgent(claims[..n], agent);
      forall c | c in Without(claims[..n], agent) ensures c.agent != claims[n].agent {
        var k :| 0 <= k < n && claims[k] == c;
      }
    }
  }

  /** One row per agent, recomputed: the table is settled and safe. */
  lemma RecomputedSafe(claims: seq<Claim>)
    requires OnePerAgent(claims)
    ensures Settled(Recomputed(claims)) && Safe(Recomputed(claims))
  {
    RecomputedSettles(claims);
    SettledGrantsCompatible(Recomputed(claims));
  }

  /** Resolution grants at most one claim. */
  lemma ResolvedSafe(claims: seq<Claim>, winner: string)
    requires OnePerAgent(claims)
    ensures Safe(Resolved(claims, winner))
  {
  }

  lemma SafeOnePerAgent(claims: seq<Claim>)
    requires Safe(claims)
    ensures OnePerAgent(claims)
  {
    assert forall i, j :: 0 <= i < j < |claims| ==> Apart(claims[i], claims[j]);
  }

  lemma ReplacedOnePerAgent(active: seq<Claim>, claim: Claim)
    requires OnePerAgent(active)
    ensures OnePerAgent(Without(active, claim.agent) + [claim])
  {
    var rest := Without(active, claim.agent);
    WithoutOnePerAgent(active, claim.agent);
    forall i | 0 <= i < |rest| ensures rest[i].agent != claim.agent {
      assert rest[i] in rest;
    }
  }

  lemma RenewedOnePerAgent(active: seq<Claim>, agent: string, ttl: Lease, timestamp: string, end: string)
    requires OnePerAgent(active) && IndexOf(active, agent) < |active|
    ensures OnePerAgent(Renewed(active, agent, ttl, timestamp, end))
  {
  }

  lemma ClaimedSafe(active: seq<Claim>, claim: Claim)
    requires OnePerAgent(active)
    ensures Safe(Recomputed(Without(active, claim.agent) + [claim]))
  {
    ReplacedOnePerAgent(active, claim);
    RecomputedSafe(Without(active, claim.agent) + [claim]);
  }

  lemma RenewedSafe(active: seq<Claim>, agent: string, ttl: Lease, timestamp: string, end: string)
    requires OnePerAgent(active) && IndexOf(active, agent) < |active|
    ensures Safe(Recomputed(Renewed(active, agent, ttl, timestamp, end)))
  {
    RenewedOnePerAgent(active, agent, ttl, timestamp, end);
    RecomputedSafe(Renewed(active, agent, ttl, timestamp, end));
  }

  lemma ReleasedSafe(active: seq<Claim>, agent: string)
    requires OnePerAgent(active)
    ensures Safe(Recomputed(Without(active, agent)))
  {
    WithoutOnePerAgent(active, agent);
    RecomputedSafe(Without(active, agent));
  }

  lemma OutcomeSafe(active: seq<Claim>, op: Op)
    requires OnePerAgent(active)
    ensures Outcome(active, op).Some? ==> Safe(Outcome(active, op).value)
  {
    match op
    case DoClaim(claim, now) => ClaimedSafe(active, claim.(expiresAt := Some(EndOfLease(now, claim.leaseTtlSeconds))));
    case DoRenew(agent, ttl, timestamp, now) =>
      if IndexOf(active, agent) < |active| {
        RenewedSafe(active, agent, ttl, timestamp, EndOfLease(now, ttl));
      }
    case DoRelease(agent, _) => ReleasedSafe(active, agent);
    case DoResolve(winner, _) => ResolvedSafe(active, winner);
    case Look(_) =>
  }

  lemma ApplyAtSafe(claims: seq<Claim>, op: Op, now: string)
    requires Safe(claims)
    ensures Safe(ApplyAt(claims, op, now))
  {
    ActiveSafe(claims, now);
    LiveSafe(claims, now);
    OutcomeSafe(Active(claims, now), op);
  }

  /** Under any order of claims, renewals, releases, resolutions and expiry there is one row per agent
      and no two granted claims conflict. */
  lemma {:induction false} ReachableClaimsSafe(ops: seq<Op>)
    ensures OnePerAgent(Run(ops)) && GrantsCompatible(Run(ops))
    ensures Safe(Run(ops))
  {
    if ops == [] {
    } else {
      ReachableClaimsSafe(ops[..|ops| - 1]);
      ApplyAtSafe(Run(ops[..|ops| - 1]), ops[|ops| - 1], FormatTimestampUtc(ops[|ops| - 1].now));
    }
  }

  /** A claim, renewal or release that finds what it works on. */
  predicate Recomputes(claims: seq<Claim>, op: Op) {
    (op.DoClaim? || op.DoRenew? || op.DoRelease?) && Outcome(Active(claims, FormatTimestampUtc(op.now)), op).Some?
  }

  predicate AllLive(claims: seq<Claim>, now: string) { forall c :: c in claims ==> !Expired(c, now) }

  /** The clock and every lease taken at it fall in years of four digits. */
  predicate InYears(now: int) { FourDigitYear(now) && FourDigitYear(now + MAX_LEASE_TTL_SECONDS * 1000) }

  /** A lease that is taken now is live now. */
  lemma LeaseIsLive(now: int, ttl: Lease)
    requires InYears(now)
    ensures Less(FormatTimestampUtc(now), EndOfLease(now, ttl))
  {
    FormatPreservesOrder(now, LeaseEnd(now, ttl));
  }

  lemma RecomputedLive(claims: seq<Claim>, now: string)
    requires AllLive(claims, now)
    ensures AllLive(Recomputed(claims), now)
  {
    forall c | c in Recomputed(claims) ensures !Expired(c, now) {
      var i :| 0 <= i < |claims| && Recomputed(claims)[i] == c;
      assert claims[i] in claims;
    }
  }

  lemma ActiveLive(claims: seq<Claim>, now: string)
    ensures AllLive(Active(claims, now), now)
  {
    forall c | c in Active(claims, now) ensures !Expired(c, now) {
      assert c in multiset(Active(claims, now));
      assert c in Live(claims, now);
    }
  }

  lemma RenewedLive(active: seq<Claim>, agent: string, ttl: Lease, timestamp: string, end: string, now: string)
    requires AllLive(active, now) && IndexOf(active, agent) < |active| && Less(now, end)
    ensures AllLive(Renewed(active, agent, ttl, timestamp, end), now)
  {
    var r, k := Renewed(active, agent, ttl, timestamp, end), IndexOf(active, agent);
    forall c | c in r ensures !Expired(c, now) {
      var i :| 0 <= i < |r| && r[i] == c;
      assert i != k ==> c == active[i] && active[i] in active;
    }
  }

  lemma ResolvedLive(active: seq<Claim>, winner: string, now: string)
    requires AllLive(active, now)
    ensures AllLive(Resolved(active, winner), now)
  {
    forall c | c in Resolved(active, winner) ensures !Expired(c, now) {
      var i :| 0 <= i < |active| && Resolved(active, winner)[i] == c;
      assert active[i] in active;
    }
  }

  lemma OutcomeLive(active: seq<Claim>, op: Op, now: string)
    requires AllLive(active, now) && Outcome(active, op).Some?
    requires op.DoClaim? ==> Less(now, EndOfLease(op.now, op.claim.leaseTtlSeconds))
    requires op.DoRenew? ==> Less(now, EndOfLease(op.now, op.ttl))
    ensures AllLive(Outcome(active, op).value, now)
  {
    match op
    case DoClaim(claim, at) => RecomputedLive(Without(active, claim.agent) +
      [claim.(expiresAt := Some(EndOfLease(at, claim.leaseTtlSeconds)))], now);
    case DoRenew(agent, ttl, timestamp, at) =>
      RenewedLive(active, agent, ttl, timestamp, EndOfLease(at, ttl), now);
      RecomputedLive(Renewed(active, agent, ttl, timestamp, EndOfLease(at, ttl)), now);
    case DoRelease(agent, _) => RecomputedLive(Without(active, agent), now);
    case DoResolve(winner, _) => ResolvedLive(active, winner, now);
  }

  /** After any operation every claim in the table is live. */
  lemma ApplyLive(claims: seq<Claim>, op: Op)
    requires InYears(op.now)
    ensures AllLive(Apply(claims, op), FormatTimestampUtc(op.now))
  {
    var now := FormatTimestampUtc(op.now);
    ActiveLive(claims, now);
    if op.DoClaim? {
      LeaseIsLive(op.now, op.claim.leaseTtlSeconds);
    } else if op.DoRenew? {
      LeaseIsLive(op.now, op.ttl);
    }
    if Outcome(Active(claims, now), op).Some? {
      OutcomeLive(Active(claims, now), op, now);
    }
  }

  lemma OutcomeSettled(active: seq<Claim>, op: Op)
    requires (op.DoClaim? || op.DoRenew? || op.DoRelease?) && Outcome(active, op).Some?
    ensures Settled(Outcome(active, op).value)
  {
    match op
    case DoClaim(claim, now) => RecomputedSettles(Without(active, claim.agent) +
      [claim.(expiresAt := Some(EndOfLease(now, claim.leaseTtlSeconds)))]);
    case DoRenew(agent, ttl, timestamp, now) => RecomputedSettles(Renewed(active, agent, ttl, timestamp,
      EndOfLease(now, ttl)));
    case DoRelease(agent, _) => RecomputedSettles(Without(active, agent));
  }

  /** After every claim, renewal and release each claim is contested exactly when it conflicts with another
      one in the table, and all of them are live. */
  lemma StatusesExactAfterMutation(ops: seq<Op>, op: Op)
    requires Recomputes(Run(ops), op)
    ensures Settled(Apply(Run(ops), op))
    ensures InYears(op.now) ==> AllLive(Apply(Run(ops), op), FormatTimestampUtc(op.now))
  {
    OutcomeSettled(Active(Run(ops), FormatTimestampUtc(op.now)), op);
    if InYears(op.now) {
      ApplyLive(Run(ops), op);
    }
  }

  predicate UpgradedFrom(claims: seq<Claim>, c: Claim) {
    exists d :: d in claims && d.(status := Pending) == c.(status := Pending) &&
      (c.status == d.status || (d.status == Contested && c.status == Granted))
  }

  lemma FewerClaimsOnlyUpgrade(claims: seq<Claim>, kept: seq<Claim>)
    requires OnePerAgent(claims) && Settled(claims) && OnePerAgent(kept) && forall c :: c in kept ==> c in claims
    ensures forall c :: c in Recomputed(kept) ==> UpgradedFrom(claims, c)
  {
    forall c | c in Recomputed(kept) ensures UpgradedFrom(claims, c) {
      var i :| 0 <= i < |kept| && Recomputed(kept)[i] == c;
      assert kept[i] in kept;
      var k :| 0 <= k < |claims| && claims[k] == kept[i];
      if Conflicted(kept, i) {
        var j :| 0 <= j < |kept| && i != j && Conflicts(kept[i], kept[j]);
        assert kept[j] in kept && kept[i].agent != kept[j].agent;
        var l :| 0 <= l < |claims| && claims[l] == kept[j];
        assert Conflicted(claims, k);
      }
    }
  }

  lemma RecomputedOthers(kept: seq<Claim>, agent: string)
    requires forall c :: c in kept ==> c.agent != agent
    ensures forall c :: c in Recomputed(kept) ==> c.agent != agent
  {
    forall c | c in Recomputed(kept) ensures c.agent != agent {
      var i :| 0 <= i < |kept| && Recomputed(kept)[i] == c;
      assert kept[i] in kept;
    }
  }

  /** From a settled table, releasing a claim changes the others only by granting contested ones, even
      when the same call also prunes expired claims. */
  lemma ReleaseOnlyUpgrades(claims: seq<Claim>, agent: string, now: int)
    requires Safe(claims) && Settled(claims) && Recomputes(claims, DoRelease(agent, now))
    ensures forall c :: c in Apply(claims, DoRelease(agent, now)) ==> c.agent != agent && UpgradedFrom(claims, c)
  {
    var active := Active(claims, FormatTimestampUtc(now));
    var kept := Without(active, agent);
    ActiveSafe(claims, FormatTimestampUtc(now));
    WithoutOnePerAgent(active, agent);
    forall c | c in kept ensures c in claims {
      assert c in multiset(active);
    }
    FewerClaimsOnlyUpgrade(claims, kept);
    RecomputedOthers(kept, agent);
  }

  /** Expiry can leave a claim contested that no longer conflicts with anything: two exclusive claims,
      the first of which expires. */
  lemma StaleContested(a: Claim, b: Claim, now: string)
    requires a.agent != b.agent && a.mode == Exclusive && Expired(a, now) && !Expired(b, now)
    ensures Live(Recomputed([a, b]), now) == [b.(status := Contested)]
    ensures !Settled(Live(Recomputed([a, b]), now))
  {
    var r := Recomputed([a, b]);
    assert Conflicts([a, b][0], [a, b][1]) && Conflicts([a, b][1], [a, b][0]);
    assert r == [a.(status := Contested), b.(status := Contested)];
    assert r[..1] == [a.(status := Contested)] && r[..1][..0] == [];
    assert Live(r[..1], now) == [];
  }

  // ---- Expiry -------------------------------------------------------------

  predicate Rivals(c: Claim, d: Claim) { d.agent != c.agent && Conflicts(c, d) }

  /** Another agent's claim conflicts with this one. */
  ghost predicate HasRival(claims: seq<Claim>, c: Claim) { exists d :: d in claims && Rivals(c, d) }

  lemma ConflictedIffRival(claims: seq<Claim>, i: nat)
    requires OnePerAgent(claims) && i < |claims|
    ensures Conflicted(claims, i) <==> HasRival(claims, claims[i])
  {
    if Conflicted(claims, i) {
      var j :| 0 <= j < |claims| && i != j && Conflicts(claims[i], claims[j]);
      assert claims[j] in claims && Rivals(claims[i], claims[j]);
    }
    if HasRival(claims, claims[i]) {
      var d :| d in claims && Rivals(claims[i], d);
      var j :| 0 <= j < |claims| && claims[j] == d;
      assert Conflicts(claims[i], claims[j]);
    }
  }

  ghost predicate Subtable(kept: seq<Claim>, claims: seq<Claim>)
  {
    OnePerAgent(kept) && forall c :: c in kept ==> c in claims
  }

  /** In any part of a settled table the grants are right. */
  lemma SurvivingGrantsRight(claims: seq<Claim>, kept: seq<Claim>, c: Claim)
    requires OnePerAgent(claims) && Settled(claims) && Subtable(kept, claims) && c in kept
    ensures c.status == Granted ==> !HasRival(kept, c)
    ensures c.status == Granted || c.status == Contested
  {
    var k :| 0 <= k < |claims| && claims[k] == c;
    ConflictedIffRival(claims, k);
    if HasRival(kept, c) {
      var d :| d in kept && Rivals(c, d);
      assert d in claims;
    }
  }

  /** A part of a settled table is settled exactly when every contested claim left has a rival left. */
  lemma SubtableSettledIff(claims: seq<Claim>, kept: seq<Claim>)
    requires OnePerAgent(claims) && Settled(claims) && Subtable(kept, claims)
    ensures Settled(kept) <==> forall c :: c in kept && c.status == Contested ==> HasRival(kept, c)
  {
    forall i | 0 <= i < |kept|
      ensures kept[i].status == StatusAt(kept, i) <==> (kept[i].status == Contested ==> HasRival(kept, kept[i]))
    {
      assert kept[i] in kept;
      ConflictedIffRival(kept, i);
      SurvivingGrantsRight(claims, kept, kept[i]);
    }
  }

  /** A live claim all of whose rivals have expired. */
  predicate LosesAllRivals(claims: seq<Claim>, c: Claim, now: string) {
    && !Expired(c, now) && (exists d :: d in claims && Rivals(c, d))
    && forall d :: d in claims && Rivals(c, d) ==> Expired(d, now)
  }

  lemma KeptRivals(claims: seq<Claim>, kept: seq<Claim>, now: string)
    requires OnePerAgent(claims) && Settled(claims) && forall c :: c in kept <==> c in claims && !Expired(c, now)
    ensures (forall c :: c in kept && c.status == Contested ==> HasRival(kept, c)) <==>
            (forall c :: c in claims ==> !LosesAllRivals(claims, c, now))
  {
    forall c | c in claims ensures c.status == Contested <==> HasRival(claims, c) {
      var k :| 0 <= k < |claims| && claims[k] == c;
      ConflictedIffRival(claims, k);
    }
    forall c | c in kept ensures HasRival(kept, c) <==> exists d :: d in claims && Rivals(c, d) && !Expired(d, now) {
    }
  }

  /** Reading a settled table at a later moment keeps every grant right, and leaves it settled exactly when
      no live claim has lost all its rivals to expiry. */
  lemma ExpirySettledIff(claims: seq<Claim>, now: string)
    requires Safe(claims) && Settled(claims)
    ensures Settled(Live(claims, now)) <==> forall c :: c in claims ==> !LosesAllRivals(claims, c, now)
    ensures Settled(Active(claims, now)) <==> forall c :: c in claims ==> !LosesAllRivals(claims, c, now)
    ensures forall c :: c in Active(claims, now) && c.status == Granted ==> !HasRival(Active(claims, now), c)
  {
    var live, active := Live(claims, now), Active(claims, now);
    LiveSafe(claims, now);
    ActiveSafe(claims, now);
    assert forall c :: c in active <==> c in multiset(active);
    assert forall c :: c in live <==> c in multiset(live);
    SubtableSettledIff(claims, live);
    SubtableSettledIff(claims, active);
    KeptRivals(claims, live, now);
    KeptRivals(claims, active, now);
    forall c | c in active ensures c.status == Granted ==> !HasRival(active, c) {
      SurvivingGrantsRight(claims, active, c);
    }
  }

  /** A lease of a formatted expiry is live exactly until that millisecond. */
  lemma ExpiryIsTimeOrder(c: Claim, now: int, end: int)
    requires FourDigitYear(now) && FourDigitYear(end) && c.expiresAt == Some(FormatTimestampUtc(end))
    ensures Expired(c, FormatTimestampUtc(now)) <==> end <= now
  {
    FormatPreservesOrder(now, end);
  }

  // ---- Leases over runs ---------------------------------------------------

  /** The agent's row with this expiry. */
  ghost predicate HoldsLease(claims: seq<Claim>, agent: string, end: string) {
    exists c :: c in claims && c.agent == agent && c.expiresAt == Some(end)
  }

  /** The operation is the agent's own: it replaces, renews or releases the agent's claim. */
  predicate ActsFor(op: Op, agent: string) {
    match op
    case DoClaim(claim, _) => claim.agent == agent
    case DoRenew(a, _, _, _) => a == agent
    case DoRelease(a, _) => a == agent
    case _ => false
  }

  /** Row by row, the agents and expiries of the others are unchanged. */
  ghost predicate LeaseOf(claims: seq<Claim>, i: nat, agent: string, end: string) {
    i < |claims| && claims[i].agent == agent && claims[i].expiresAt == Some(end)
  }

  lemma LeaseAt(claims: seq<Claim>, agent: string, end: string)
    ensures HoldsLease(claims, agent, end) <==> exists i :: LeaseOf(claims, i, agent, end)
  {
    if HoldsLease(claims, agent, end) {
      var c :| c in claims && c.agent == agent && c.expiresAt == Some(end);
      var i :| 0 <= i < |claims| && claims[i] == c;
      assert LeaseOf(claims, i, agent, end);
    }
    if i: nat :| LeaseOf(claims, i, agent, end) {
      assert claims[i] in claims;
    }
  }

  lemma RecomputedKeepsLease(claims: seq<Claim>, agent: string, end: string)
    requires HoldsLease(claims, agent, end)
    ensures HoldsLease(Recomputed(claims), agent, end)
  {
    LeaseAt(claims, agent, end);
    var i :| LeaseOf(claims, i, agent, end);
    assert LeaseOf(Recomputed(claims), i, agent, end);
    LeaseAt(Recomputed(claims), agent, end);
  }

  lemma RenewedKeepsLease(claims: seq<Claim>, other: string, ttl: Lease, timestamp: string, later: string,
      agent: string, end: string)
    requires HoldsLease(claims, agent, end) && other != agent && IndexOf(claims, other) < |claims|
    ensures HoldsLease(Renewed(claims, other, ttl, timestamp, later), agent, end)
  {
    var r := Renewed(claims, other, ttl, timestamp, later);
    LeaseAt(claims, agent, end);
    var i :| LeaseOf(claims, i, agent, end);
    assert LeaseOf(r, i, agent, end);
    LeaseAt(r, agent, end);
  }

  lemma ResolvedKeepsLease(claims: seq<Claim>, winner: string, agent: string, end: string)
    requires HoldsLease(claims, agent, end)
    ensures HoldsLease(Resolved(claims, winner), agent, end)
  {
    LeaseAt(claims, agent, end);
    var i :| LeaseOf(claims, i, agent, end);
    assert LeaseOf(Resolved(claims, winner), i, agent, end);
    LeaseAt(Resolved(claims, winner), agent, end);
  }

  lemma OutcomeKeepsLease(active: seq<Claim>, op: Op, agent: string, end: string)
    requires HoldsLease(active, agent, end) && !ActsFor(op, agent) && Outcome(active, op).Some?
    ensures HoldsLease(Outcome(active, op).value, agent, end)
  {
    match op
    case DoClaim(claim, now) =>
      var rows := Without(active, claim.agent) + [claim.(expiresAt := Some(EndOfLease(now, claim.leaseTtlSeconds)))];
      assert HoldsLease(rows, agent, end);
      RecomputedKeepsLease(rows, agent, end);
    case DoRenew(other, ttl, timestamp, now) =>
      RenewedKeepsLease(active, other, ttl, timestamp, EndOfLease(now, ttl), agent, end);
      RecomputedKeepsLease(Renewed(active, other, ttl, timestamp, EndOfLease(now, ttl)), agent, end);
    case DoRelease(other, _) => RecomputedKeepsLease(Without(active, other), agent, end);
    case DoResolve(winner, _) => ResolvedKeepsLease(active, winner, agent, end);
  }

  lemma ApplyAtKeepsLease(claims: seq<Claim>, op: Op, now: string, agent: string, end: string)
    requires HoldsLease(claims, agent, end) && !ActsFor(op, agent) && Less(now, end)
    ensures HoldsLease(ApplyAt(claims, op, now), agent, end)
  {
    var c :| c in claims && c.agent == agent && c.expiresAt == Some(end);
    assert c in Live(claims, now);
    assert c in multiset(Active(claims, now));
    if Outcome(Active(claims, now), op).Some? {
      OutcomeKeepsLease(Active(claims, now), op, agent, end);
    }
  }

  function RunFrom(claims: seq<Claim>, ops: seq<Op>): (r: seq<Claim>) {
    if ops == [] then claims else Apply(RunFrom(claims, ops[..|ops| - 1]), ops[|ops| - 1])
  }

  /** Before the end of the lease, by others. */
  ghost predicate Meanwhile(ops: seq<Op>, agent: string, end: int) {
    forall op :: op in ops ==> FourDigitYear(op.now) && op.now < end && !ActsFor(op, agent)
  }

  lemma {:induction false} LeaseKept(claims: seq<Claim>, ops: seq<Op>, agent: string, end: int)
    requires FourDigitYear(end) && Meanwhile(ops, agent, end) && HoldsLease(claims, agent, FormatTimestampUtc(end))
    ensures HoldsLease(RunFrom(claims, ops), agent, FormatTimestampUtc(end))
  {
    if ops == [] {
    } else {
      var n := |ops| - 1;
      assert ops[n] in ops;
      LeaseKept(claims, ops[..n], agent, end);
      FormatPreservesOrder(ops[n].now, end);
      ApplyAtKeepsLease(RunFrom(claims, ops[..n]), ops[n], FormatTimestampUtc(ops[n].now), agent,
        FormatTimestampUtc(end));
    }
  }

  lemma ClaimTakesLease(claims: seq<Claim>, claim: Claim, now: int)
    ensures HoldsLease(Apply(claims, DoClaim(claim, now)), claim.agent, EndOfLease(now, claim.leaseTtlSeconds))
  {
    var active := Active(claims, FormatTimestampUtc(now));
    var rows := Without(active, claim.agent) + [claim.(expiresAt := Some(EndOfLease(now, claim.leaseTtlSeconds)))];
    assert rows[|rows| - 1] in rows;
    RecomputedKeepsLease(rows, claim.agent, EndOfLease(now, claim.leaseTtlSeconds));
  }

  lemma LeaseGone(claims: seq<Claim>, op: Op, agent: string, end: int)
    requires InYears(op.now) && FourDigitYear(end) && end <= op.now
    ensures !HoldsLease(Apply(claims, op), agent, FormatTimestampUtc(end))
  {
    ApplyLive(claims, op);
    FormatPreservesOrder(op.now, end);
  }

  /** A claim is held until its lease ends, whatever other agents claim, renew, release or have resolved
      meanwhile; and the first operation from the end on removes it. */
  lemma ClaimHeldForItsLease(claims: seq<Claim>, claim: Claim, now: int, ops: seq<Op>, last: Op)
    requires InYears(now) && Meanwhile(ops, claim.agent, LeaseEnd(now, claim.leaseTtlSeconds))
    requires InYears(last.now) && LeaseEnd(now, claim.leaseTtlSeconds) <= last.now
    ensures var held, end := RunFrom(Apply(claims, DoClaim(claim, now)), ops), EndOfLease(now, claim.leaseTtlSeconds);
            HoldsLease(held, claim.agent, end) && !HoldsLease(Apply(held, last), claim.agent, end)
  {
    var held, end := RunFrom(Apply(claims, DoClaim(claim, now)), ops), LeaseEnd(now, claim.leaseTtlSeconds);
    ClaimTakesLease(claims, claim, now);
    LeaseKept(Apply(claims, DoClaim(claim, now)), ops, claim.agent, end);
    LeaseGone(held, last, claim.agent, end);
  }
}
