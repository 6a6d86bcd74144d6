/** The read side of the message log: `syncPull` pages, retention's DELETE and the paged, bounded
    scan of `listMessages`, each SELECT given by its meaning. */
module Reading {
  import opened Prelude
  import opened MessageStore

  const MAX_SAFE_INTEGER := 9_007_199_254_740_991
  const MAX_TAG_SCAN_ROWS := 10_000

  /** `LIMIT n`; SQLite reads a negative limit as none. */
  function Limit(rows: seq<Row>, n: int): (page: seq<Row>)
    ensures page <= rows
  {
    if n < 0 || |rows| <= n then rows else rows[..n]
  }

  // ---- syncPull -----------------------------------------------------------

  predicate Eligible(r: Row, excluded: Option<string>) { !Truthy(excluded) || r.originHub != excluded.value }

  /** Rows of one snapshot after a cursor, in `seq` order. */
  function Between(rows: seq<Row>, since: int, high: int, excluded: Option<string>): (page: seq<Row>) {
    if rows == [] then []
    else
      (if since < rows[0].seqNo <= high && Eligible(rows[0], excluded) then [rows[0]] else [])
      + Between(rows[1..], since, high, excluded)
  }

  /** `MAX(seq)`, 0 for an empty table. */
  function CurrentCursor(rows: seq<Row>): (m: nat)
    ensures forall r :: r in rows ==> r.seqNo <= m
    ensures m == 0 || exists r :: r in rows && r.seqNo == m
  {
    if rows == [] then 0
    else
      var rest := CurrentCursor(rows[1..]);
      if rest > rows[0].seqNo then rest else rows[0].seqNo
  }

  datatype PullPage = PullPage(messages: seq<Row>, nextCursor: int, hasMore: bool)

  /** `page.slice(0, n)`, where a negative n counts from the end. */
  function SliceTo(rows: seq<Row>, n: int): (page: seq<Row>)
    ensures page <= rows
  {
    if n >= 0 then rows[..Min(n, |rows|)] else rows[..Max(0, |rows| + n)]
  }

  function Pull(rows: seq<Row>, since: int, excluded: Option<string>, limit: int): (r: PullPage) {
    var high := CurrentCursor(rows);
    var found := Limit(Between(rows, since, high, excluded), limit + 1);
    var hasMore := |found| > limit;
    var page := if hasMore then SliceTo(found, limit) else found;
    PullPage(page, if hasMore && page != [] then page[|page| - 1].seqNo else Max(since, high), hasMore)
  }

  /** These are the eligible rows after one number, up to another. */
  ghost predicate Members(page: seq<Row>, rows: seq<Row>, since: int, last: int, excluded: Option<string>) {
    forall r :: r in page <==> r in rows && since < r.seqNo <= last && Eligible(r, excluded)
  }

  lemma {:induction false} BetweenMembers(rows: seq<Row>, since: int, high: int, excluded: Option<string>)
    requires Ordered(rows)
    ensures var b := Between(rows, since, high, excluded);
            Ordered(b) && |b| <= |rows| && Members(b, rows, since, high, excluded)
  {
    if rows == [] {
    } else {
      BetweenMembers(rows[1..], since, high, excluded);
      var b, rest := Between(rows, since, high, excluded), Between(rows[1..], since, high, excluded);
      forall i, j | 0 <= i < j < |b| ensures b[i].seqNo < b[j].seqNo {
        if b != rest && i == 0 {
          assert b[j] == rest[j - 1] && rest[j - 1] in rows[1..];
        }
      }
    }
  }

  /** The page holds exactly the eligible rows from one cursor to the next, in order, and `hasMore`
      tells whether any remain. */
  ghost predicate ExactPage(p: PullPage, rows: seq<Row>, since: int, excluded: Option<string>, limit: int) {
    Ordered(p.messages) && |p.messages| <= limit && since <= p.nextCursor <= Max(since, CurrentCursor(rows)) &&
    Members(p.messages, rows, since, p.nextCursor, excluded) &&
    (p.hasMore ==> |p.messages| == limit) &&
    (p.hasMore <==> exists r :: r in rows && r.seqNo > p.nextCursor && Eligible(r, excluded))
  }

  lemma LookaheadRow(b: seq<Row>, limit: int)
    requires limit >= 1
    ensures |Limit(b, limit + 1)| > limit <==> |b| > limit
    ensures |b| > limit ==> SliceTo(Limit(b, limit + 1), limit) == b[..limit]
    ensures |b| <= limit ==> Limit(b, limit + 1) == b
  {
  }

  lemma PullIs(rows: seq<Row>, since: int, excluded: Option<string>, limit: int)
    requires limit >= 1
    ensures var b := Between(rows, since, CurrentCursor(rows), excluded);
            Pull(rows, since, excluded, limit) ==
            if |b| > limit then PullPage(b[..limit], b[limit - 1].seqNo, true)
              else PullPage(b, Max(since, CurrentCursor(rows)), false)
  {
    LookaheadRow(Between(rows, since, CurrentCursor(rows), excluded), limit);
  }

  lemma PageToTail(rows: seq<Row>, b: seq<Row>, since: int, excluded: Option<string>, limit: int)
    requires Ordered(b) && |b| <= limit && Members(b, rows, since, CurrentCursor(rows), excluded)
    ensures ExactPage(PullPage(b, Max(since, CurrentCursor(rows)), false), rows, since, excluded, limit)
  {
  }

  lemma OrderedSplit(b: seq<Row>, n: nat, r: Row)
    requires Ordered(b) && 1 <= n <= |b| && r in b
    ensures r in b[..n] <==> r.seqNo <= b[n - 1].seqNo
  {
    var k :| 0 <= k < |b| && b[k] == r;
    if k < n {
      assert b[..n][k] == r;
    } else {
      forall j | 0 <= j < n ensures b[j].seqNo < r.seqNo {
      }
    }
  }

  lemma PageWithMore(rows: seq<Row>, b: seq<Row>, since: int, excluded: Option<string>, limit: int)
    requires Ordered(b) && 1 <= limit < |b| && Members(b, rows, since, CurrentCursor(rows), excluded)
    ensures ExactPage(PullPage(b[..limit], b[limit - 1].seqNo, true), rows, since, excluded, limit)
  {
    var cursor := b[limit - 1].seqNo;
    assert b[limit - 1] in b && b[limit] in b && b[limit].seqNo > cursor;
    forall r | r in b ensures r in b[..limit] <==> r.seqNo <= cursor {
      OrderedSplit(b, limit, r);
    }
    assert forall r :: r in b[..limit] ==> r in b;
  }

  /** With a limit of at least one, a page is exactly the eligible rows between the two cursors. */
  lemma PullPageExact(rows: seq<Row>, since: int, excluded: Option<string>, limit: int)
    requires Ordered(rows) && limit >= 1
    ensures ExactPage(Pull(rows, since, excluded, limit), rows, since, excluded, limit)
  {
    var high := CurrentCursor(rows);
    var b := Between(rows, since, high, excluded);
    BetweenMembers(rows, since, high, excluded);
    PullIs(rows, since, excluded, limit);
    if |b| > limit {
      PageWithMore(rows, b, since, excluded, limit);
    } else {
      PageToTail(rows, b, since, excluded, limit);
    }
  }

  /** Following `next_cursor` until `has_more` is false. */
  function Drain(rows: seq<Row>, since: int, excluded: Option<string>, limit: int): (r: seq<Row>)
    requires Ordered(rows) && limit >= 1
    decreases CurrentCursor(rows) - since
  {
    PullPageExact(rows, since, excluded, limit);
    var p := Pull(rows, since, excluded, limit);
    if !p.hasMore then p.messages
    else
      assert p.messages[limit - 1] in p.messages;
      p.messages + Drain(rows, p.nextCursor, excluded, limit)
  }

  function Head(r: Row, since: int, high: int, excluded: Option<string>): (res: seq<Row>) {
    if since < r.seqNo <= high && Eligible(r, excluded) then [r] else []
  }

  lemma BetweenHead(rows: seq<Row>, since: int, high: int, excluded: Option<string>)
    requires rows != []
    ensures Between(rows, since, high, excluded) == Head(rows[0], since, high, excluded) +
            Between(rows[1..], since, high, excluded)
  {
  }

  lemma HeadJoins(head: seq<Row>, early: seq<Row>, late: seq<Row>)
    ensures head + (early + late) == (head + early) + late
    ensures [] + early == early && [] + late == late && [] + (head + late) == head + late
  {
  }

  lemma {:induction false} BetweenNone(rows: seq<Row>, since: int, high: int, excluded: Option<string>)
    requires forall r :: r in rows ==> r.seqNo > high
    ensures Between(rows, since, high, excluded) == []
  {
    if rows == [] {
    } else {
      BetweenNone(rows[1..], since, high, excluded);
    }
  }

  lemma {:induction false} BetweenSplit(rows: seq<Row>, since: int, mid: int, high: int, excluded: Option<string>)
    requires Ordered(rows) && since <= mid <= high
    ensures Between(rows, since, high, excluded) == Between(rows, since, mid, excluded) +
            Between(rows, mid, high, excluded)
  {
    if rows == [] {
    } else {
      var tail := rows[1..];
      BetweenSplit(tail, since, mid, high, excluded);
      var early, late := Between(tail, since, mid, excluded), Between(tail, mid, high, excluded);
      BetweenHead(rows, since, high, excluded);
      BetweenHead(rows, since, mid, excluded);
      BetweenHead(rows, mid, high, excluded);
      if rows[0].seqNo > mid {
        BetweenNone(tail, since, mid, excluded);
        assert early + late == late;
      }
      HeadJoins(Head(rows[0], since, high, excluded), early, late);
    }
  }

  lemma {:induction false} SameMembersSameSeq(a: seq<Row>, b: seq<Row>)
    requires Ordered(a) && Ordered(b) && forall r :: r in a <==> r in b
    ensures a == b
  {
    assert b != [] ==> b[0] in b;
    if a == [] {
    } else {
      assert a[0] in b && b[0] in a;
      assert a[0] == b[0];
      assert forall r :: r in a[1..] <==> r in a && r != a[0];
      assert forall r :: r in b[1..] <==> r in b && r != b[0];
      SameMembersSameSeq(a[1..], b[1..]);
    }
  }

  /** With no further appends the drain ends and has delivered every eligible row after the cursor,
      in order, whatever the page size. */
  lemma {:induction false} DrainDeliversAll(rows: seq<Row>, since: int, excluded: Option<string>, limit: int)
    requires Ordered(rows) && limit >= 1
    ensures Drain(rows, since, excluded, limit) == Between(rows, since, CurrentCursor(rows), excluded)
    decreases CurrentCursor(rows) - since
  {
    PullPageExact(rows, since, excluded, limit);
    var high := CurrentCursor(rows);
    var p := Pull(rows, since, excluded, limit);
    if !p.hasMore {
    } else {
      assert p.messages[limit - 1] in p.messages;
      DrainDeliversAll(rows, p.nextCursor, excluded, limit);
      BetweenMembers(rows, since, high, excluded);
      BetweenSplit(rows, since, p.nextCursor, high, excluded);
      BetweenMembers(rows, since, p.nextCursor, excluded);
      SameMembersSameSeq(p.messages, Between(rows, since, p.nextCursor, excluded));
    }
  }

  /** A limit of zero, which the route never passes, would skip rows: an empty page moves the cursor to the tail. */
  lemma ZeroLimitSkips(rows: seq<Row>, since: int, excluded: Option<string>)
    requires Ordered(rows)
    ensures Pull(rows, since, excluded, 0).messages == [] &&
            Pull(rows, since, excluded, 0).nextCursor == Max(since, CurrentCursor(rows))
  {
  }

  // ---- Retention ----------------------------------------------------------

  /** `DELETE ... WHERE ingested_at_utc < cutoff`. */
  function Retained(rows: seq<Row>, cutoff: string): (kept: seq<Row>)
    ensures forall r :: r in kept <==> r in rows && !Less(r.ingestedAt, cutoff)
  {
    if rows == [] then []
    else
      var n := |rows| - 1;
      Retained(rows[..n], cutoff) + if Less(rows[n].ingestedAt, cutoff) then [] else [rows[n]]
  }

  lemma {:induction false} RetainedInOrder(rows: seq<Row>, cutoff: string)
    requires Ordered(rows) && UniqueKeys(rows)
    ensures Ordered(Retained(rows, cutoff)) && UniqueKeys(Retained(rows, cutoff))
  {
    if rows == [] {
    } else {
      var n := |rows| - 1;
      var init, last := rows[..n], rows[n];
      RetainedInOrder(init, cutoff);
      forall r | r in Retained(init, cutoff) ensures r.seqNo < last.seqNo && Compatible(r, last) {
        var k :| 0 <= k < n && init[k] == r;
        assert rows[k] == r;
      }
      SnocKeeps(Retained(init, cutoff), last);
    }
  }

  lemma RetainedKeeps(s: Store, cutoff: string)
    requires Valid(s)
    ensures Valid(Store(Retained(s.rows, cutoff), s.nextSeq))
  {
    RetainedInOrder(s.rows, cutoff);
  }

  // ---- listMessages -------------------------------------------------------

  datatype Query = Query(
    agent: Option<string>, fromAgent: Option<string>, sinceMs: int, limit: int, includeBroadcast: bool,
    topic: Option<string>, threadId: Option<string>, requiredTags: seq<string>, repo: Option<string>,
    session: Option<string>)

  function AllTags(q: Query): (r: seq<string>) {
    q.requiredTags + (if Truthy(q.repo) then ["repo:" + q.repo.value] else [])
                   + (if Truthy(q.session) then ["session:" + q.session.value] else [])
  }

  predicate HasTags(r: Row, tags: seq<string>) { forall t :: t in tags ==> t in r.msg.tags }

  /** The WHERE clause, without tags and without the paging bound. */
  predicate Candidate(r: Row, q: Query, cutoff: string) {
    !Less(r.msg.timestampUtc, cutoff) &&
    (q.fromAgent.Some? ==> r.msg.sender == q.fromAgent.value) &&
    (q.agent.Some? ==> r.msg.recipient == q.agent.value || (q.includeBroadcast && r.msg.recipient == "all")) &&
    (q.topic.Some? ==> r.msg.topic == q.topic.value) &&
    (q.threadId.Some? ==> r.msg.threadId == q.threadId)
  }

  /** Candidates below a sequence number, newest first. */
  function Candidates(rows: seq<Row>, q: Query, cutoff: string, before: int): (c: seq<Row>)
    ensures |c| <= |rows|
  {
    if rows == [] then []
    else
      var n := |rows| - 1;
      (if rows[n].seqNo < before && Candidate(rows[n], q, cutoff) then [rows[n]] else []) +
        Candidates(rows[..n], q, cutoff, before)
  }

  /** The candidates that carry every required tag, in the same order. */
  function Matches(c: seq<Row>, tags: seq<string>): (m: seq<Row>)
    ensures |m| <= |c|
  {
    if c == [] then []
    else
      var n := |c| - 1;
      Matches(c[..n], tags) + if HasTags(c[n], tags) then [c[n]] else []
  }

  function First(rows: seq<Row>, n: nat): (f: seq<Row>)
    ensures f <= rows && |f| == Min(n, |rows|)
  {
    rows[..Min(n, |rows|)]
  }

  function Reverse(rows: seq<Row>): (r: seq<Row>)
    ensures |r| == |rows| && forall i :: 0 <= i < |rows| ==> r[i] == rows[|rows| - 1 - i]
  {
    if rows == [] then [] else Reverse(rows[1..]) + [rows[0]]
  }

  function PageSize(limit: int): (n: int)
    ensures n >= 200 && n >= limit
  {
    Max(limit * 5, 200)
  }

  /** Scanning by whole pages until 10,000 rows are reached. */
  function BudgetFrom(scanned: nat, limit: int): (n: nat)
    ensures n >= scanned && n >= MAX_TAG_SCAN_ROWS
    decreases MAX_TAG_SCAN_ROWS - scanned
  {
    if scanned >= MAX_TAG_SCAN_ROWS then scanned else BudgetFrom(scanned + PageSize(limit), limit)
  }

  /** How many candidates a call may examine. A single page when the limit is not positive, because an
      empty result already satisfies it. */
  function ScanBudget(limit: int): (n: nat)
    ensures n >= limit && n >= 1
  {
    if limit <= 0 then PageSize(limit) else BudgetFrom(0, limit)
  }

  lemma MultipleModulo(k: int, p: int)
    requires p > 0
    ensures k * p % p == 0
  {
    var q, r := k * p / p, k * p % p;
    assert k * p == q * p + r;
    assert (k - q) * p == r;
    assert k - q >= 1 ==> (k - q) * p >= p;
    assert k - q <= -1 ==> (k - q) * p <= -p;
  }

  /** A scan position from which the remaining whole pages lead to the budget. */
  predicate OnBudget(scanned: nat, limit: int) {
    if limit <= 0 then scanned == 0 else BudgetFrom(scanned, limit) == ScanBudget(limit)
  }

  lemma BudgetStep(scanned: nat, limit: int)
    requires OnBudget(scanned, limit) && scanned < MAX_TAG_SCAN_ROWS
    ensures scanned + PageSize(limit) <= ScanBudget(limit)
    ensures limit >= 1 ==> OnBudget(scanned + PageSize(limit), limit)
    ensures limit <= 0 ==> ScanBudget(limit) == PageSize(limit)
  {
  }

  lemma BudgetReached(scanned: nat, limit: int)
    requires OnBudget(scanned, limit) && scanned >= MAX_TAG_SCAN_ROWS
    ensures scanned == ScanBudget(limit)
  {
  }

  /** The budget is the first whole number of pages that covers 10,000 rows. */
  lemma {:induction false} BudgetIsWholePages(scanned: nat, limit: int)
    requires scanned % PageSize(limit) == 0 && (scanned < MAX_TAG_SCAN_ROWS ||
             scanned - PageSize(limit) < MAX_TAG_SCAN_ROWS)
    ensures BudgetFrom(scanned, limit) % PageSize(limit) == 0
    ensures MAX_TAG_SCAN_ROWS <= BudgetFrom(scanned, limit) < MAX_TAG_SCAN_ROWS + PageSize(limit)
    decreases MAX_TAG_SCAN_ROWS - scanned
  {
    var p := PageSize(limit);
    if scanned >= MAX_TAG_SCAN_ROWS {
    } else {
      assert scanned == scanned / p * p;
      assert (scanned / p + 1) * p == scanned / p * p + p;
      MultipleModulo(scanned / p + 1, p);
      BudgetIsWholePages(scanned + p, limit);
    }
  }

  function Found(c: seq<Row>, limit: int, tags: seq<string>): (r: seq<Row>) {
    First(Matches(c[..Min(|c|, ScanBudget(limit))], tags), Max(limit, 1))
  }

  /** The result of `listMessages`: the newest matches among the scanned candidates, oldest first. */
  function Listed(rows: seq<Row>, q: Query, cutoff: string): (r: seq<Row>) {
    var c := Candidates(rows, q, cutoff, MAX_SAFE_INTEGER);
    Reverse(Found(c, q.limit, AllTags(q)))
  }

  predicate Descending(c: seq<Row>) { forall i, j :: 0 <= i < j < |c| ==> c[i].seqNo > c[j].seqNo }

  lemma {:induction false} CandidateMembers(rows: seq<Row>, q: Query, cutoff: string, before: int)
    requires Ordered(rows)
    ensures Descending(Candidates(rows, q, cutoff, before))
    ensures forall r :: r in Candidates(rows, q, cutoff, before) <==>
            r in rows && r.seqNo < before && Candidate(r, q, cutoff)
  {
    if rows == [] {
    } else {
      var n := |rows| - 1;
      CandidateMembers(rows[..n], q, cutoff, before);
      assert forall r :: r in rows <==> r in rows[..n] || r == rows[n];
      var rest := Candidates(rows[..n], q, cutoff, before);
      assert Descending([rows[n]] + rest) by {
        forall j | 0 <= j < |rest| ensures rest[j].seqNo < rows[n].seqNo {
          assert rest[j] in rows[..n];
        }
      }
    }
  }

  lemma {:induction false} SameMembersDescending(a: seq<Row>, b: seq<Row>)
    requires Descending(a) && Descending(b) && forall r :: r in a <==> r in b
    ensures a == b
  {
    assert b != [] ==> b[0] in b;
    if a == [] {
    } else {
      assert a[0] in b && b[0] in a;
      assert a[0] == b[0];
      assert forall r :: r in a[1..] <==> r in a && r != a[0];
      assert forall r :: r in b[1..] <==> r in b && r != b[0];
      SameMembersDescending(a[1..], b[1..]);
    }
  }

  lemma DescendingSplit(c: seq<Row>, k: nat, r: Row)
    requires Descending(c) && 0 < k <= |c| && r in c
    ensures r in c[k..] <==> r.seqNo < c[k - 1].seqNo
  {
    var i :| 0 <= i < |c| && c[i] == r;
    if i >= k {
      assert c[k..][i - k] == r;
    } else {
      forall j | k <= j < |c| ensures c[j].seqNo < r.seqNo {
      }
    }
  }

  /** The next page continues exactly where the previous one stopped. */
  lemma CandidatesTail(rows: seq<Row>, q: Query, cutoff: string, before: int, k: nat)
    requires Ordered(rows) && 0 < k <= |Candidates(rows, q, cutoff, before)|
    ensures Candidates(rows, q, cutoff, Candidates(rows, q, cutoff, before)[k - 1].seqNo) ==
            Candidates(rows, q, cutoff, before)[k..]
  {
    var c := Candidates(rows, q, cutoff, before);
    var bound := c[k - 1].seqNo;
    CandidateMembers(rows, q, cutoff, before);
    CandidateMembers(rows, q, cutoff, bound);
    assert c[k - 1] in c;
    var d := Candidates(rows, q, cutoff, bound);
    forall r ensures r in d <==> r in c[k..] {
      if r in c {
        DescendingSplit(c, k, r);
      }
    }
    SameMembersDescending(d, c[k..]);
  }

  lemma {:induction false} MatchesConcat(a: seq<Row>, b: seq<Row>, tags: seq<string>)
    ensures Matches(a + b, tags) == Matches(a, tags) + Matches(b, tags)
  {
    if b == [] {
      assert a + b == a;
    } else {
      var n := |b| - 1;
      assert (a + b)[..|a| + n] == a + b[..n];
      MatchesConcat(a, b[..n], tags);
    }
  }

  lemma FirstShort(rows: seq<Row>, n: nat)
    ensures |First(rows, n)| < n ==> First(rows, n) == rows
  {
  }

  lemma MatchesStep(rows: seq<Row>, j: nat, tags: seq<string>)
    requires j < |rows|
    ensures Matches(rows[..j + 1], tags) == Matches(rows[..j], tags) + if HasTags(rows[j], tags) then [rows[j]] else []
  {
    assert rows[..j + 1][..j] == rows[..j];
  }

  lemma PageCut(found: seq<Row>, rows: seq<Row>, j: nat, tags: seq<string>)
    requires j <= |rows|
    ensures var out := found + Matches(rows[..j], tags); First(found + Matches(rows, tags), |out|) == out
  {
    MatchesConcat(rows[..j], rows[j..], tags);
    assert rows == rows[..j] + rows[j..];
  }

  lemma PageMatches(c: seq<Row>, start: nat, rows: seq<Row>, tags: seq<string>)
    requires start + |rows| <= |c| && rows == c[start..start + |rows|]
    ensures Matches(c[..start + |rows|], tags) == Matches(c[..start], tags) + Matches(rows, tags)
  {
    assert c[..start + |rows|] == c[..start] + rows;
    MatchesConcat(c[..start], rows, tags);
  }

  /** Once enough matches are found, looking further does not change the result. */
  lemma FirstStays(c: seq<Row>, s: nat, k: nat, n: nat, tags: seq<string>)
    requires s <= k <= |c|
    ensures |First(Matches(c[..s], tags), n)| == n || s == k ==>
            First(Matches(c[..k], tags), n) == First(Matches(c[..s], tags), n)
  {
    PageMatches(c, s, c[s..k], tags);
  }

  /** Between pages: everything scanned so far is matched and the limit is still open. */
  predicate Scanning(c: seq<Row>, scanned: nat, out: seq<Row>, limit: int, tags: seq<string>) {
    scanned <= |c| && OnBudget(scanned, limit) && out == Matches(c[..scanned], tags) && |out| < Max(limit, 1)
  }

  lemma ScanEnds(c: seq<Row>, scanned: nat, out: seq<Row>, limit: int, tags: seq<string>)
    requires Scanning(c, scanned, out, limit, tags) && (scanned >= MAX_TAG_SCAN_ROWS || scanned == |c|)
    ensures out == Found(c, limit, tags)
  {
    if scanned >= MAX_TAG_SCAN_ROWS {
      BudgetReached(scanned, limit);
    } else {
      BudgetStep(scanned, limit);
    }
  }

  /** The matches up to the end of the page, cut at the limit. */
  lemma PageNext(c: seq<Row>, scanned: nat, out: seq<Row>, n: nat, tags: seq<string>, rows: seq<Row>)
    requires scanned + |rows| <= |c| && rows == c[scanned..scanned + |rows|] && out == Matches(c[..scanned], tags)
    ensures First(out + Matches(rows, tags), n) == First(Matches(c[..scanned + |rows|], tags), n)
  {
    PageMatches(c, scanned, rows, tags);
  }

  /** At the end of the budget, or with the limit reached, the matches so far are the answer. */
  lemma LastPage(c: seq<Row>, s: nat, limit: int, tags: seq<string>)
    requires s <= Min(|c|, ScanBudget(limit))
    requires s == Min(|c|, ScanBudget(limit)) || |First(Matches(c[..s], tags), Max(limit, 1))| == Max(limit, 1)
    ensures First(Matches(c[..s], tags), Max(limit, 1)) == Found(c, limit, tags)
  {
    FirstStays(c, s, Min(|c|, ScanBudget(limit)), Max(limit, 1), tags);
  }

  /** A full page that leaves the limit open leads to the next. */
  lemma OpenPage(c: seq<Row>, scanned: nat, limit: int, tags: seq<string>)
    requires limit >= 1 && OnBudget(scanned, limit) && scanned < MAX_TAG_SCAN_ROWS && scanned + PageSize(limit) <= |c|
    requires |First(Matches(c[..scanned + PageSize(limit)], tags), limit)| < limit
    ensures Scanning(c, scanned + PageSize(limit), First(Matches(c[..scanned + PageSize(limit)], tags), limit), limit,
            tags)
  {
    BudgetStep(scanned, limit);
    FirstShort(Matches(c[..scanned + PageSize(limit)], tags), limit);
  }

  lemma PageOutcome(c: seq<Row>, scanned: nat, s: nat, limit: int, tags: seq<string>)
    requires OnBudget(scanned, limit) && scanned < MAX_TAG_SCAN_ROWS
    requires scanned <= |c| && s == Min(|c|, scanned + PageSize(limit))
    ensures var next := First(Matches(c[..s], tags), Max(limit, 1));
            if |next| >= limit || s < scanned + PageSize(limit) then next == Found(c, limit, tags)
            else Scanning(c, s, next, limit, tags)
  {
    BudgetStep(scanned, limit);
    if s < scanned + PageSize(limit) || |First(Matches(c[..s], tags), Max(limit, 1))| >= limit {
      LastPage(c, s, limit, tags);
    } else {
      OpenPage(c, scanned, limit, tags);
    }
  }

  lemma LimitIsSlice(c: seq<Row>, scanned: nat, rows: seq<Row>, n: nat)
    requires scanned <= |c| && rows == Limit(c[scanned..], n)
    ensures scanned + |rows| <= |c| && scanned + |rows| == Min(|c|, scanned + n)
    ensures rows == c[scanned..scanned + |rows|]
  {
  }

  lemma PageEnds(c: seq<Row>, scanned: nat, out: seq<Row>, limit: int, tags: seq<string>, rows: seq<Row>)
    requires Scanning(c, scanned, out, limit, tags) && scanned < MAX_TAG_SCAN_ROWS
    requires rows == Limit(c[scanned..], PageSize(limit))
    ensures scanned + |rows| <= |c|
    ensures var next := First(out + Matches(rows, tags), Max(limit, 1));
            if |next| >= limit || |rows| < PageSize(limit) then next == Found(c, limit, tags)
            else Scanning(c, scanned + |rows|, next, limit, tags)
  {
    LimitIsSlice(c, scanned, rows, PageSize(limit));
    PageNext(c, scanned, out, Max(limit, 1), tags, rows);
    PageOutcome(c, scanned, scanned + |rows|, limit, tags);
  }

  lemma {:induction false} MatchesAll(c: seq<Row>, tags: seq<string>)
    requires tags == []
    ensures Matches(c, tags) == c
  {
    if c == [] {
    } else {
      MatchesAll(c[..|c| - 1], tags);
    }
  }

  lemma {:induction false} MatchesMembers(c: seq<Row>, tags: seq<string>)
    requires Descending(c)
    ensures Descending(Matches(c, tags))
    ensures forall r :: r in Matches(c, tags) <==> r in c && HasTags(r, tags)
  {
    if c == [] {
    } else {
      var n := |c| - 1;
      MatchesMembers(c[..n], tags);
      assert forall r :: r in c <==> r in c[..n] || r == c[n];
      var m, rest := Matches(c, tags), Matches(c[..n], tags);
      forall i, j | 0 <= i < j < |m| ensures m[i].seqNo > m[j].seqNo {
        if j == |rest| {
          assert rest[i] in c[..n];
        }
      }
    }
  }

  /** The simple reading: every filter, newest `limit`, oldest first. */
  function Simple(rows: seq<Row>, q: Query, cutoff: string): (r: seq<Row>) {
    Reverse(First(Matches(Candidates(rows, q, cutoff, MAX_SAFE_INTEGER), AllTags(q)), Max(q.limit, 1)))
  }

  lemma FirstOfFirst(c: seq<Row>, k: nat, n: nat)
    requires k <= |c| && (n <= k || k == |c|)
    ensures First(c[..k], n) == First(c, n)
  {
    assert k == |c| ==> c[..k] == c;
  }

  /** With no tag filter the budget never matters. */
  lemma UntaggedIsSimple(rows: seq<Row>, q: Query, cutoff: string)
    requires AllTags(q) == []
    ensures Listed(rows, q, cutoff) == Simple(rows, q, cutoff)
  {
    var c := Candidates(rows, q, cutoff, MAX_SAFE_INTEGER);
    var k := Min(|c|, ScanBudget(q.limit));
    MatchesAll(c, AllTags(q));
    MatchesAll(c[..k], AllTags(q));
    FirstOfFirst(c, k, Max(q.limit, 1));
  }

  /** A tagged read is the simple reading whenever its candidates fit the budget. */
  lemma SmallScanIsSimple(rows: seq<Row>, q: Query, cutoff: string)
    requires |Candidates(rows, q, cutoff, MAX_SAFE_INTEGER)| <= ScanBudget(q.limit)
    ensures Listed(rows, q, cutoff) == Simple(rows, q, cutoff)
  {
    var c := Candidates(rows, q, cutoff, MAX_SAFE_INTEGER);
    assert c[..|c|] == c;
  }

  predicate Passes(r: Row, q: Query, cutoff: string) {
    r.seqNo < MAX_SAFE_INTEGER && Candidate(r, q, cutoff) && HasTags(r, AllTags(q))
  }

  ghost predicate OlderThanAll(r: Row, out: seq<Row>) { forall x :: x in out ==> r.seqNo < x.seqNo }

  /** `out` holds passing rows only, oldest first; a passing row it leaves out is older than all it
      holds, and is left out only because the limit is reached. */
  ghost predicate Newest(out: seq<Row>, rows: seq<Row>, q: Query, cutoff: string) {
    Ordered(out) && |out| <= Max(q.limit, 1) &&
    (forall r :: r in out ==> r in rows && Passes(r, q, cutoff)) &&
    forall r :: r in rows && Passes(r, q, cutoff) && r !in out ==> |out| == Max(q.limit, 1) && OlderThanAll(r, out)
  }

  ghost predicate Passing(m: seq<Row>, rows: seq<Row>, q: Query, cutoff: string) {
    forall r :: r in m <==> r in rows && Passes(r, q, cutoff)
  }

  lemma MatchesPass(rows: seq<Row>, q: Query, cutoff: string)
    requires Ordered(rows)
    ensures var m := Matches(Candidates(rows, q, cutoff, MAX_SAFE_INTEGER), AllTags(q));
            Descending(m) && Passing(m, rows, q, cutoff)
  {
    CandidateMembers(rows, q, cutoff, MAX_SAFE_INTEGER);
    MatchesMembers(Candidates(rows, q, cutoff, MAX_SAFE_INTEGER), AllTags(q));
  }

  /** At most `n` of the rows; those left out are older, and only left out because `n` is reached. */
  ghost predicate Cut(out: seq<Row>, m: seq<Row>, n: nat) {
    && |out| <= n && (forall r :: r in out ==> r in m)
    && forall r :: r in m && r !in out ==> |out| == n && OlderThanAll(r, out)
  }

  lemma FirstCuts(m: seq<Row>, n: nat, r: Row)
    requires Descending(m) && r in m && r !in First(m, n)
    ensures |First(m, n)| == n && forall x :: x in First(m, n) ==> r.seqNo < x.seqNo
  {
    var f := First(m, n);
    var k :| 0 <= k < |m| && m[k] == r;
    assert forall j :: 0 <= j < |f| ==> f[j] == m[j] && f[j] in f;
    forall x | x in f ensures r.seqNo < x.seqNo {
      var j :| 0 <= j < |f| && f[j] == x;
      assert m[j] == x;
    }
  }

  lemma FirstIsCut(m: seq<Row>, n: nat)
    requires Descending(m)
    ensures Descending(First(m, n)) && Cut(First(m, n), m, n)
  {
    forall r | r in m && r !in First(m, n) ensures |First(m, n)| == n && OlderThanAll(r, First(m, n)) {
      FirstCuts(m, n, r);
    }
  }

  lemma {:induction false} ReverseMembers(rows: seq<Row>)
    ensures forall r :: r in Reverse(rows) <==> r in rows
  {
    if rows == [] {
    } else {
      ReverseMembers(rows[1..]);
      assert forall r :: r in rows <==> r == rows[0] || r in rows[1..];
    }
  }

  lemma ReverseKeepsCut(out: seq<Row>, m: seq<Row>, n: nat)
    requires Cut(out, m, n) && Descending(out)
    ensures Cut(Reverse(out), m, n) && Ordered(Reverse(out))
  {
    ReverseMembers(out);
    forall r | r in m && r !in Reverse(out) ensures |Reverse(out)| == n && OlderThanAll(r, Reverse(out)) {
      assert OlderThanAll(r, out);
    }
  }

  lemma CutIsNewest(out: seq<Row>, m: seq<Row>, rows: seq<Row>, q: Query, cutoff: string)
    requires Ordered(out) && Passing(m, rows, q, cutoff) && Cut(out, m, Max(q.limit, 1))
    ensures Newest(out, rows, q, cutoff)
  {
    forall r | r in rows && Passes(r, q, cutoff) && r !in out ensures |out| == Max(q.limit, 1) && OlderThanAll(r, out) {
      assert r in m;
    }
  }

  /** What the simple reading means. */
  lemma SimpleIsNewest(rows: seq<Row>, q: Query, cutoff: string)
    requires Ordered(rows)
    ensures Newest(Simple(rows, q, cutoff), rows, q, cutoff)
  {
    var m, n := Matches(Candidates(rows, q, cutoff, MAX_SAFE_INTEGER), AllTags(q)), Max(q.limit, 1);
    MatchesPass(rows, q, cutoff);
    FirstIsCut(m, n);
    ReverseKeepsCut(First(m, n), m, n);
    CutIsNewest(Simple(rows, q, cutoff), m, rows, q, cutoff);
  }

  lemma FoundMissesOnlyOld(c: seq<Row>, limit: int, tags: seq<string>, r: Row)
    requires Descending(c) && r in c && HasTags(r, tags) && r !in Found(c, limit, tags)
    ensures var out := Found(c, limit, tags);
            (|out| == Max(limit, 1) && forall x :: x in out ==> r.seqNo < x.seqNo) ||
            (|c| > ScanBudget(limit) && forall x :: x in c[..ScanBudget(limit)] ==> r.seqNo < x.seqNo)
  {
    var k := Min(|c|, ScanBudget(limit));
    MatchesMembers(c[..k], tags);
    if r in c[..k] {
      FirstCuts(Matches(c[..k], tags), Max(limit, 1), r);
    } else {
      assert k < |c| by {
        assert c[..|c|] == c;
      }
      FirstCuts(c, k, r);
    }
  }

  /** What a bounded scan may miss besides rows beyond the limit: only rows older than a full budget
      of examined candidates. */
  lemma ListedMissesOnlyOld(rows: seq<Row>, q: Query, cutoff: string, r: Row)
    requires Ordered(rows) && r in rows && Passes(r, q, cutoff) && r !in Listed(rows, q, cutoff)
    ensures var out, c := Listed(rows, q, cutoff), Candidates(rows, q, cutoff, MAX_SAFE_INTEGER);
            (|out| == Max(q.limit, 1) && forall x :: x in out ==> r.seqNo < x.seqNo) ||
            (|c| > ScanBudget(q.limit) && forall x :: x in c[..ScanBudget(q.limit)] ==> r.seqNo < x.seqNo)
  {
    var c := Candidates(rows, q, cutoff, MAX_SAFE_INTEGER);
    CandidateMembers(rows, q, cutoff, MAX_SAFE_INTEGER);
    ReverseMembers(Found(c, q.limit, AllTags(q)));
    FoundMissesOnlyOld(c, q.limit, AllTags(q), r);
  }
}
