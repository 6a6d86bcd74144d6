/** The `ClaimDO` Durable Object: one instance arbitrates one resource. */
module ClaimObject {
  import opened Prelude
  import opened ClaimsLogic
  import opened Timestamps

  const CLAIM_TTL_SECS := 3600
  const RESOLUTION_TTL_SECS := 3600
  const EVENTS_MAXLEN := 1000

  datatype Error = ResourceEmpty | AgentEmpty | WinnerEmpty | NamespaceMissing | NoActiveClaim | NoClaims

  datatype Resolution = Resolution(winner: string, reason: string, resolvedBy: string, resolvedAt: string,
      expiresAtMs: int)

  datatype Event = Event(seqNo: nat, event: string, agent: string, resource: string, timestamp: string)

  datatype ArbitrationState = ArbitrationState(resource: string, claims: seq<Claim>, winner: Option<string>,
      reason: Option<string>)

  datatype Request = Request(
    resource: string, agent: string, priorityArgument: string, mode: Mode, space: Option<string>,
    scopeKind: Option<string>, scopePath: Option<string>, repoScopes: seq<string>, threadId: Option<string>,
    leaseTtlSeconds: Option<int>, scope: Option<Scope>)

  function LeaseTtl(requested: Option<int>): (ttl: Lease)
    ensures requested.Some? && MIN_LEASE_TTL_SECONDS <= requested.value <= MAX_LEASE_TTL_SECONDS ==>
            ttl == requested.value
  {
    Min(Max(if requested.Some? then requested.value else CLAIM_TTL_SECS, MIN_LEASE_TTL_SECONDS), MAX_LEASE_TTL_SECONDS)
  }

  function NonEmpty(s: Option<string>): (r: Option<string>) { if Truthy(s) then s else None }

  /** The claim a request asks for; its expiry is set with the clock of the call. `machineGlobal` is the
      verdict of `isMachineGlobalResource`. */
  function ClaimOf(r: Request, nowIso: string, machineGlobal: bool): (res: Claim) {
    Claim(r.resource, r.agent, r.priorityArgument, nowIso, Pending, r.mode, NonEmpty(r.space), NonEmpty(r.scopeKind),
          NonEmpty(r.scopePath), r.repoScopes, NonEmpty(r.threadId), LeaseTtl(r.leaseTtlSeconds), None,
          if r.scope.Some? then r.scope.value else if machineGlobal then Machine else Repo)
  }

  /** An empty text counts as none. */
  predicate SameOrNone(kept: Option<string>, sent: Option<string>) {
    match sent
    case None => kept == None
    case Some(text) => if text == "" then kept == None else kept == sent
  }

  /** The claim is about what the request asks for. */
  predicate Carries(c: Claim, r: Request) {
    && c.resource == r.resource && c.agent == r.agent && c.priorityArgument == r.priorityArgument && c.mode == r.mode
    && c.repoScopes == r.repoScopes && SameOrNone(c.space, r.space) && SameOrNone(c.scopeKind, r.scopeKind)
    && SameOrNone(c.scopePath, r.scopePath) && SameOrNone(c.threadId, r.threadId)
    && (r.scope.Some? ==> c.scope == r.scope.value)
  }

  function RequestError(r: Request): (res: Option<Error>) {
    if Blank(r.resource) then Some(ResourceEmpty)
    else if Blank(r.agent) then Some(AgentEmpty)
    else if r.mode == SharedNamespaced && (r.space.None? || Blank(r.space.value)) then Some(NamespaceMissing)
    else None
  }

  /** The event log with one more entry: the newest thousand are kept. */
  function Logged(events: seq<Event>, e: Event): (r: seq<Event>)
    ensures |r| <= 1000 && r != [] && r[|r| - 1] == e
    ensures |events| < 1000 ==> r == events + [e]
    ensures |events| == 1000 ==> r == events[1..] + [e]
  {
    var all := events + [e];
    all[|all| - Min(|all|, EVENTS_MAXLEN)..]
  }

  class ClaimDO {
    var claims: seq<Claim>
    var resolution: Option<Resolution>
    var events: seq<Event>
    var nextEventSeq: nat

    /** One row per agent (the primary key), no conflicting grants, and a bounded event log. */
    predicate Valid()
      reads this
    {
      Safe(claims) && |events| <= EVENTS_MAXLEN
    }

    constructor ()
      ensures Valid() && claims == [] && resolution == None && events == [] && nextEventSeq == 1
    {
      claims, resolution, events, nextEventSeq := [], None, [], 1;
    }

    method PruneExpired(now: string)
      requires Valid()
      modifies this`claims
      ensures Valid() && claims == Live(old(claims), now)
    {
      LiveSafe(claims, now);
      claims := Live(claims, now);
    }

    method LoadActiveClaims(now: string) returns (active: seq<Claim>)
      requires Valid()
      modifies this`claims
      ensures Valid() && claims == Live(old(claims), now) && active == Active(old(claims), now) && Safe(active)
    {
      ActiveSafe(claims, now);
      PruneExpired(now);
      active := ByTimestamp(claims);
    }

    /** Appends an event and trims the oldest beyond the cap. */
    method EmitEvent(event: string, agent: string, resource: string, stamp: string)
      requires Valid()
      modifies this`events, this`nextEventSeq
      ensures Valid() && nextEventSeq == old(nextEventSeq) + 1
      ensures events == Logged(old(events), Event(old(nextEventSeq), event, agent, resource, stamp))
    {
      events := events + [Event(nextEventSeq, event, agent, resource, stamp)];
      nextEventSeq := nextEventSeq + 1;
      var count := |events|;
      if count > EVENTS_MAXLEN {
        events := events[count - EVENTS_MAXLEN..];
      }
    }

    /** Recomputes the statuses of the rows in place, in a scratch array, as the source does on the
        objects it loaded. */
    method Recompute(rows: seq<Claim>) returns (r: seq<Claim>)
      requires OnePerAgent(rows)
      ensures r == Recomputed(rows) && Safe(r) && Settled(r)
    {
      var a := new Claim[|rows|](i requires 0 <= i < |rows| => rows[i]);
      assert a[..] == rows;
      RecomputeClaimStatuses(a);
      r := a[..];
      RecomputedSafe(rows);
    }

    method Claim(input: Request, nowIso: string, now: int, machineGlobal: bool) returns (r: Result<Claim, Error>)
      requires Valid()
      modifies this`claims, this`events, this`nextEventSeq
      ensures Valid()
      ensures r.Err? <==> RequestError(input).Some?
      ensures r.Err? ==> r.error == RequestError(input).value && claims == old(claims) && events == old(events)
      ensures r.Ok? ==>
                claims == Apply(old(claims), DoClaim(ClaimOf(input, nowIso, machineGlobal), now)) && Settled(claims)
      ensures r.Ok? ==> r.value in claims && Carries(r.value, input) && r.value.timestamp == nowIso
      ensures r.Ok? ==> r.value.expiresAt == Some(EndOfLease(now, LeaseTtl(input.leaseTtlSeconds)))
      ensures r.Ok? ==>
                events == Logged(old(events), Event(old(nextEventSeq), if r.value.status == Contested then "contested"
                  else "claimed",
                                                    input.agent, input.resource, FormatTimestampUtc(now)))
    {
      var error := RequestError(input);
      if error.Some? {
        return Err(error.value);
      }
      var stamp := FormatTimestampUtc(now);
      var asked := ClaimOf(input, nowIso, machineGlobal);
      var newClaim := asked.(expiresAt := Some(EndOfLease(now, asked.leaseTtlSeconds)));
      ClaimEffect(claims, asked, now, stamp, newClaim);
      var mine := PutClaim(newClaim, stamp);
      EmitEvent(if mine.status == Contested then "contested" else "claimed", input.agent, input.resource, stamp);
      return Ok(mine);
    }

    /** The table part of a claim: it replaces the agent's live claim and the statuses are recomputed. */
    method PutClaim(newClaim: Claim, stamp: string) returns (mine: Claim)
      requires Valid()
      modifies this`claims
      ensures Valid() && Settled(claims) && mine in claims && mine == newClaim.(status := mine.status)
      ensures claims == Recomputed(Without(Active(old(claims), stamp), newClaim.agent) + [newClaim])
    {
      var active := LoadActiveClaims(stamp);
      SafeOnePerAgent(active);
      ReplacedOnePerAgent(active, newClaim);
      var rows := Without(active, newClaim.agent) + [newClaim];
      claims := Recompute(rows);
      mine := claims[|claims| - 1];
    }

    method Renew(resource: string, agent: string, leaseTtlSeconds: Option<int>, nowIso: string, now: int)
        returns (r: Result<Claim, Error>)
      requires Valid()
      modifies this`claims, this`events, this`nextEventSeq
      ensures Valid()
      ensures Blank(agent) || Blank(resource) ==> r.Err? && claims == old(claims)
      ensures !Blank(agent) && !Blank(resource) ==>
                claims == Apply(old(claims), DoRenew(agent, LeaseTtl(leaseTtlSeconds), nowIso, now)) &&
                (r.Ok? <==> Holds(Active(old(claims), FormatTimestampUtc(now)), agent))
      ensures r.Ok? ==> Settled(claims) && r.value in claims && r.value.agent == agent && r.value.timestamp == nowIso
      ensures r.Ok? ==> r.value.expiresAt == Some(EndOfLease(now, LeaseTtl(leaseTtlSeconds)))
      ensures events == if r.Err? then old(events)
                        else Logged(old(events), Event(old(nextEventSeq), "renewed", agent, resource,
                          FormatTimestampUtc(now)))
      ensures r.Err? ==> r.error == if Blank(agent) then AgentEmpty else if Blank(resource) then ResourceEmpty
              else NoActiveClaim
    {
      if Blank(agent) {
        return Err(AgentEmpty);
      }
      if Blank(resource) {
        return Err(ResourceEmpty);
      }
      var renewed := RenewLease(agent, LeaseTtl(leaseTtlSeconds), nowIso, now);
      if renewed.None? {
        return Err(NoActiveClaim);
      }
      EmitEvent("renewed", agent, resource, FormatTimestampUtc(now));
      return Ok(renewed.value);
    }

    /** The table part of a renewal, its lease counted from the call's clock. */
    method RenewLease(agent: string, ttl: Lease, nowIso: string, now: int) returns (r: Option<Claim>)
      requires Valid()
      modifies this`claims
      ensures Valid() && claims == Apply(old(claims), DoRenew(agent, ttl, nowIso, now))
      ensures r.Some? <==> Holds(Active(old(claims), FormatTimestampUtc(now)), agent)
      ensures r.Some? ==> Settled(claims) && r.value in claims && r.value.agent == agent && r.value.timestamp == nowIso
      ensures r.Some? ==> r.value.expiresAt == Some(EndOfLease(now, ttl))
    {
      var stamp, end := FormatTimestampUtc(now), EndOfLease(now, ttl);
      RenewEffect(claims, agent, ttl, nowIso, now, stamp, end);
      r := RenewClaim(agent, ttl, nowIso, end, stamp);
    }

    /** The agent's live claim gets the new lease in its place. */
    method RenewClaim(agent: string, ttl: Lease, nowIso: string, end: string, stamp: string) returns (r: Option<Claim>)
      requires Valid()
      modifies this`claims
      ensures Valid() && (r.Some? <==> Holds(Active(old(claims), stamp), agent))
      ensures r.Some? <==> IndexOf(Active(old(claims), stamp), agent) < |Active(old(claims), stamp)|
      ensures r.None? ==> claims == Live(old(claims), stamp)
      ensures r.Some? ==> claims == Recomputed(Renewed(Active(old(claims), stamp), agent, ttl, nowIso, end))
      ensures r.Some? ==> Settled(claims) && r.value in claims
      ensures r.Some? ==> r.value.agent == agent && r.value.timestamp == nowIso && r.value.expiresAt == Some(end)
    {
      var active := LoadActiveClaims(stamp);
      var i := IndexOf(active, agent);
      if i == |active| {
        return None;
      }
      assert active[i] in active;
      SafeOnePerAgent(active);
      RenewedOnePerAgent(active, agent, ttl, nowIso, end);
      var rows := active[i := active[i].(leaseTtlSeconds := ttl, timestamp := nowIso, expiresAt := Some(end))];
      claims := Recompute(rows);
      return Some(claims[i]);
    }

    /** The state is read again at the end, with a later clock. */
    method Release(resource: string, agent: string, now: int, later: int) returns (r: Result<ArbitrationState, Error>)
      requires Valid()
      modifies this`claims, this`events, this`nextEventSeq
      ensures Valid()
      ensures Blank(agent) || Blank(resource) ==> r.Err? && claims == old(claims)
      ensures !Blank(agent) && !Blank(resource) ==>
                var released := Apply(old(claims), DoRelease(agent, now));
                if r.Err? then claims == released
                else
                  claims == Apply(released, Look(later)) &&
                  r.value.claims == Active(released, FormatTimestampUtc(later))
      ensures !Blank(agent) && !Blank(resource) ==>
                (r.Ok? <==> Holds(Active(old(claims), FormatTimestampUtc(now)), agent))
      ensures events == if r.Err? then old(events)
                        else Logged(old(events), Event(old(nextEventSeq), "released", agent, resource,
                          FormatTimestampUtc(now)))
      ensures r.Err? ==> r.error == if Blank(agent) then AgentEmpty else if Blank(resource) then ResourceEmpty
              else NoActiveClaim
    {
      if Blank(agent) {
        return Err(AgentEmpty);
      }
      if Blank(resource) {
        return Err(ResourceEmpty);
      }
      var released := RemoveAgent(agent, now, FormatTimestampUtc(now));
      if !released {
        return Err(NoActiveClaim);
      }
      EmitEvent("released", agent, resource, FormatTimestampUtc(now));
      var state := GetState(resource, later);
      return Ok(state);
    }

    /** The table part of a release: the agent's live claim leaves and the statuses are recomputed. */
    method RemoveAgent(agent: string, now: int, stamp: string) returns (released: bool)
      requires Valid()
      modifies this`claims
      ensures Valid() && claims == ApplyAt(old(claims), DoRelease(agent, now), stamp) &&
              (released <==> Holds(Active(old(claims), stamp), agent))
    {
      var active := LoadActiveClaims(stamp);
      var remaining := Without(active, agent);
      SafeOnePerAgent(active);
      WithoutOnePerAgent(active, agent);
      WithoutShrinks(active, agent);
      if |remaining| == |active| {
        return false;
      }
      claims := Recompute(remaining);
      return true;
    }

    method Resolve(resource: string, winner: string, reason: string, resolvedBy: string, now: int, later: int)
        returns (r: Result<ArbitrationState, Error>)
      requires Valid()
      modifies this
      ensures Valid()
      ensures Blank(winner) || Blank(resource) ==> r.Err? && claims == old(claims) && resolution == old(resolution)
      ensures !Blank(winner) && !Blank(resource) ==> (r.Ok? <==> Active(old(claims), FormatTimestampUtc(now)) != [])
      ensures !Blank(winner) && !Blank(resource) && r.Err? ==>
              claims == Apply(old(claims), DoResolve(winner, now)) && resolution == old(resolution)
      ensures r.Ok? ==> claims == Apply(Apply(old(claims), DoResolve(winner, now)), Look(later))
      ensures r.Ok? ==> r.value.claims == Active(Apply(old(claims), DoResolve(winner, now)), FormatTimestampUtc(later))
      ensures r.Ok? ==>
                resolution == Some(Resolution(winner, reason, resolvedBy, FormatTimestampUtc(now),
                                              now + RESOLUTION_TTL_SECS * 1000))
      ensures r.Ok? ==> r.value.winner == if now + RESOLUTION_TTL_SECS * 1000 > later then Some(winner) else None
      ensures events == if r.Err? then old(events)
                        else Logged(old(events), Event(old(nextEventSeq), "resolved", winner, resource,
                          FormatTimestampUtc(now)))
      ensures r.Err? ==> r.error == if Blank(winner) then WinnerEmpty else if Blank(resource) then ResourceEmpty
              else NoClaims
    {
      if Blank(winner) {
        return Err(WinnerEmpty);
      }
      if Blank(resource) {
        return Err(ResourceEmpty);
      }
      var resolved := GrantOnly(winner, now, FormatTimestampUtc(now));
      if !resolved {
        return Err(NoClaims);
      }
      resolution := Some(Resolution(winner, reason, resolvedBy, FormatTimestampUtc(now),
        now + RESOLUTION_TTL_SECS * 1000));
      EmitEvent("resolved", winner, resource, FormatTimestampUtc(now));
      var state := GetState(resource, later);
      return Ok(state);
    }

    /** The table part of a resolution: the winner's live claim is granted, the others are left for review. */
    method GrantOnly(winner: string, now: int, stamp: string) returns (resolved: bool)
      requires Valid()
      modifies this`claims
      ensures Valid() && claims == ApplyAt(old(claims), DoResolve(winner, now), stamp) &&
              (resolved <==> Active(old(claims), stamp) != [])
    {
      var active := LoadActiveClaims(stamp);
      ResolveEffect(old(claims), winner, now, stamp);
      if |active| == 0 {
        return false;
      }
      SafeOnePerAgent(active);
      ResolvedSafe(active, winner);
      claims := Resolved(active, winner);
      return true;
    }

    method GetState(resource: string, now: int) returns (state: ArbitrationState)
      requires Valid()
      modifies this`claims
      ensures Valid() && claims == Apply(old(claims), Look(now))
      ensures state.resource == resource && state.claims == Active(old(claims), FormatTimestampUtc(now))
      ensures if resolution.Some? && resolution.value.expiresAtMs > now
              then state.winner == Some(resolution.value.winner) && state.reason == Some(resolution.value.reason)
              else state.winner == None && state.reason == None
    {
      state := ReadState(resource, now, FormatTimestampUtc(now));
    }

    method ReadState(resource: string, now: int, stamp: string) returns (state: ArbitrationState)
      requires Valid()
      modifies this`claims
      ensures Valid() && claims == ApplyAt(old(claims), Look(now), stamp)
      ensures state.resource == resource && state.claims == Active(old(claims), stamp)
      ensures if resolution.Some? && resolution.value.expiresAtMs > now
              then state.winner == Some(resolution.value.winner) && state.reason == Some(resolution.value.reason)
              else state.winner == None && state.reason == None
    {
      var active := LoadActiveClaims(stamp);
      var live := resolution.Some? && resolution.value.expiresAtMs > now;
      return ArbitrationState(resource, active, if live then Some(resolution.value.winner) else None,
                              if live then Some(resolution.value.reason) else None);
    }
  }
}
