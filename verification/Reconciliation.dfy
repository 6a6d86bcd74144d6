/** Accounting of the message ids held by PostgreSQL and by the Redis stream: at the export, and again
    from the parts a package really holds. */
module Reconciliation {
  import opened Prelude
  import opened HistoryExport

  datatype Recon = Recon(pgLines: nat, pgRows: nat, streamEntries: nat, streamUnique: nat, withoutId: nat,
                         onlyInPg: nat, onlyInRedis: nat, union: nat)

  datatype Claim = Claim(pgMessages: nat, streamEntries: nat, pgMinusStream: int, onlyInPg: nat, onlyInRedis: nat,
      inBoth: int)

  datatype Hold =
    | PgIdsNotUnique
    | StreamIdsNotUnique
    | Unaccounted
    | NothingShared
    | RedisAhead
    | ClaimMismatch
    | ReconciliationMismatch

  function Ids(s: seq<string>): (r: set<string>) { set x | x in s }

  /** The counts for these PostgreSQL rows and stream entries. */
  function Counts(pg: seq<string>, stream: seq<Option<string>>): (res: Recon) {
    var p, r := Ids(pg), Present(stream);
    Recon(|pg|, |p|, |stream|, |r|, multiset(stream)[None], |p - r|, |r - p|, |p + r|)
  }

  function ClaimOf(c: Recon): (r: Claim) {
    Claim(c.pgRows, c.streamEntries, c.pgRows - c.streamEntries, c.onlyInPg, c.onlyInRedis, c.pgRows - c.onlyInPg)
  }

  /** `store_difference`; `limit` is the configured most Redis-only messages, if any. */
  function StoreDifference(c: Recon, limit: Option<nat>): (r: Result<Claim, Hold>) {
    if c.pgLines != c.pgRows then Err(PgIdsNotUnique)
    else if c.withoutId != 0 || c.streamUnique != c.streamEntries then Err(StreamIdsNotUnique)
    else if c.pgRows - c.onlyInPg + c.onlyInRedis != c.streamEntries then Err(Unaccounted)
    else if c.pgRows - c.onlyInPg <= 0 then Err(NothingShared)
    else if limit.Some? && c.onlyInRedis > limit.value then Err(RedisAhead)
    else Ok(ClaimOf(c))
  }

  // ---- Counting distinct ids ----------------------------------------------

  predicate Distinct<T(==)>(s: seq<T>) { forall i, j :: 0 <= i < j < |s| ==> s[i] != s[j] }

  lemma DistinctAppend<T>(t: seq<T>, x: T)
    ensures Distinct(t + [x]) <==> Distinct(t) && x !in t
  {
    var s := t + [x];
    assert forall i :: 0 <= i < |t| ==> s[i] == t[i];
    assert s[|t|] == x;
    if x in t {
      var i :| 0 <= i < |t| && t[i] == x;
      assert !Distinct(s) by {
        assert s[i] == s[|t|];
      }
    }
  }

  lemma {:induction false} DistinctCount(s: seq<string>)
    ensures |Ids(s)| <= |s| && (|Ids(s)| == |s| <==> Distinct(s))
  {
    if s == [] {
    } else {
      var t, x := s[..|s| - 1], s[|s| - 1];
      DistinctCount(t);
      assert s == t + [x] && Ids(s) == Ids(t) + {x};
      DistinctAppend(t, x);
    }
  }

  lemma {:induction false} PresentCount(s: seq<Option<string>>)
    ensures |Present(s)| + multiset(s)[None] <= |s|
    ensures None !in s ==> (|Present(s)| == |s| <==> Distinct(s))
  {
    if s == [] {
    } else {
      var t, x := s[..|s| - 1], s[|s| - 1];
      PresentCount(t);
      CountOne(t, x);
      assert s == t + [x];
      DistinctAppend(t, x);
      assert x.Some? ==> (x.value in Present(t) <==> x in t);
    }
  }

  /** Both stores hold each message under its own id, and at least one in common. */
  predicate Clean(pg: seq<string>, stream: seq<Option<string>>) {
    Distinct(pg) && None !in stream && Distinct(stream) && exists x :: x in pg && Some(x) in stream
  }

  lemma Split(a: set<string>, b: set<string>)
    ensures |a| == |a - b| + |a * b| && |a + b| == |a - b| + |b|
  {
    assert a == (a - b) + (a * b) && a + b == (a - b) + b;
  }

  /** The balance of the id counts always comes out on unique, present ids: that check never holds an export. */
  lemma AlwaysAccounted(pg: seq<string>, stream: seq<Option<string>>, limit: Option<nat>)
    ensures StoreDifference(Counts(pg, stream), limit) != Err(Unaccounted)
  {
    var p, r := Ids(pg), Present(stream);
    Split(p, r);
    Split(r, p);
    assert p * r == r * p;
  }

  /** An export is released exactly when both stores are clean and Redis is not too far ahead. */
  lemma ReleasedIffClean(pg: seq<string>, stream: seq<Option<string>>, limit: Option<nat>)
    ensures StoreDifference(Counts(pg, stream), limit).Ok? <==>
            Clean(pg, stream) && (limit.Some? ==> |Present(stream) - Ids(pg)| <= limit.value)
  {
    var p, r := Ids(pg), Present(stream);
    DistinctCount(pg);
    PresentCount(stream);
    AlwaysAccounted(pg, stream, limit);
    Split(p, r);
    assert multiset(stream)[None] == 0 <==> None !in stream;
    if p * r != {} {
      var x :| x in p * r;
      assert x in pg && Some(x) in stream;
    }
    if x :| x in pg && Some(x) in stream {
      assert x in p * r;
    }
  }

  /** The counts by membership. */
  lemma CountsAre(pg: seq<string>, stream: seq<Option<string>>)
    ensures var c := Counts(pg, stream);
            && c.pgLines == |pg| && c.streamEntries == |stream| && c.withoutId == multiset(stream)[None]
            && c.pgRows == |set x | x in pg| && c.streamUnique == |set o | o in stream && o.Some? :: o.value|
            && c.onlyInPg == |set x | x in pg && Some(x) !in stream|
            && c.onlyInRedis == |set o | o in stream && o.Some? && o.value !in pg :: o.value|
            && c.union == |(set x | x in pg) + (set o | o in stream && o.Some? :: o.value)|
  {
    assert Ids(pg) == set x | x in pg;
    assert Present(stream) == set o | o in stream && o.Some? :: o.value;
    assert Ids(pg) - Present(stream) == set x | x in pg && Some(x) !in stream;
    assert Present(stream) - Ids(pg) == set o | o in stream && o.Some? && o.value !in pg :: o.value;
  }

  /** What a released export claims. */
  lemma ReleasedClaimIs(pg: seq<string>, stream: seq<Option<string>>, limit: Option<nat>)
    requires StoreDifference(Counts(pg, stream), limit).Ok?
    ensures var claim := StoreDifference(Counts(pg, stream), limit).value;
            && claim.pgMessages == |pg| && claim.streamEntries == |stream| && claim.pgMinusStream == |pg| - |stream|
            && claim.onlyInPg == |set x | x in pg && Some(x) !in stream|
            && claim.onlyInRedis == |set o | o in stream && o.Some? && o.value !in pg :: o.value|
            && claim.inBoth == |set x | x in pg && Some(x) in stream|
  {
    CountsAre(pg, stream);
    Split(Ids(pg), Present(stream));
    assert Ids(pg) * Present(stream) == set x | x in pg && Some(x) in stream;
  }

  /** Why an export is held: the first of these that applies. */
  lemma HeldFor(pg: seq<string>, stream: seq<Option<string>>, limit: Option<nat>)
    ensures StoreDifference(Counts(pg, stream), limit).Err? ==>
              StoreDifference(Counts(pg, stream), limit).error ==
                if !Distinct(pg) then PgIdsNotUnique
                else if None in stream || !Distinct(stream) then StreamIdsNotUnique
                else if forall x :: x in pg ==> Some(x) !in stream then NothingShared
                else RedisAhead
  {
    DistinctCount(pg);
    PresentCount(stream);
    AlwaysAccounted(pg, stream, limit);
    Split(Ids(pg), Present(stream));
    assert multiset(stream)[None] == 0 <==> None !in stream;
    if forall x :: x in pg ==> Some(x) !in stream {
      assert Ids(pg) * Present(stream) == {};
    } else {
      var x :| x in pg && Some(x) in stream;
      assert x in Ids(pg) * Present(stream);
    }
  }

  // ---- The package --------------------------------------------------------

  lemma TakeOne<T>(s: seq<T>, i: nat)
    requires i < |s|
    ensures s[..i + 1] == s[..i] + [s[i]]
  {
  }

  lemma AddId(s: seq<string>, x: string)
    ensures Ids(s + [x]) == Ids(s) + {x}
  {
  }

  method CountPg(parts: seq<seq<string>>) returns (ids: set<string>, lines: nat)
    ensures ids == Ids(Flatten(parts)) && lines == |Flatten(parts)|
  {
    ids, lines := {}, 0;
    for i := 0 to |parts|
      invariant ids == Ids(Flatten(parts[..i])) && lines == |Flatten(parts[..i])|
    {
      ghost var before := Flatten(parts[..i]);
      TakeOne(parts, i);
      FlattenAppend(parts[..i], parts[i]);
      for j := 0 to |parts[i]|
        invariant ids == Ids(before + parts[i][..j]) && lines == |before| + j
      {
        TakeOne(parts[i], j);
        AddId(before + parts[i][..j], parts[i][j]);
        assert before + parts[i][..j + 1] == before + parts[i][..j] + [parts[i][j]];
        ids := ids + {parts[i][j]};
        lines := lines + 1;
      }
      assert parts[i][..|parts[i]|] == parts[i];
    }
    assert parts[..|parts|] == parts;
  }

  /** The counters agree with the entries read so far. */
  ghost predicate Counting(read: seq<Option<string>>, ids: set<string>, lines: nat, noId: nat) {
    ids == Present(read) && lines == |read| && noId == multiset(read)[None]
  }

  method CountPart(ghost before: seq<Option<string>>, part: seq<Option<string>>, ids: set<string>, lines: nat,
      noId: nat)
    returns (ids': set<string>, lines': nat, noId': nat)
    requires Counting(before, ids, lines, noId)
    ensures Counting(before + part, ids', lines', noId')
  {
    ids', lines', noId' := ids, lines, noId;
    ghost var read := before;
    for j := 0 to |part|
      invariant read == before + part[..j] && Counting(read, ids', lines', noId')
    {
      var ident := part[j];
      TakeOne(part, j);
      CountOne(read, ident);
      read := read + [ident];
      lines' := lines' + 1;
      if ident.None? {
        noId' := noId' + 1;
      } else {
        ids' := ids' + {ident.value};
      }
    }
    assert part[..|part|] == part;
  }

  method CountStream(parts: seq<seq<Option<string>>>) returns (ids: set<string>, lines: nat, noId: nat)
    ensures Counting(Flatten(parts), ids, lines, noId)
  {
    ids, lines, noId := {}, 0, 0;
    for i := 0 to |parts|
      invariant Counting(Flatten(parts[..i]), ids, lines, noId)
    {
      ghost var before := Flatten(parts[..i]);
      ids, lines, noId := CountPart(before, parts[i], ids, lines, noId);
      TakeOne(parts, i);
      FlattenAppend(parts[..i], parts[i]);
    }
    assert parts[..|parts|] == parts;
  }

  /** `package_reconciliation` over the parts in the order their sorted names give. */
  method PackageReconciliation(pgParts: seq<seq<string>>, streamParts: seq<seq<Option<string>>>) returns (c: Recon)
    ensures c == Counts(Flatten(pgParts), Flatten(streamParts))
  {
    var pgIds, pgLines := CountPg(pgParts);
    var redisIds, redisLines, noId := CountStream(streamParts);
    c := Recon(pgLines, |pgIds|, redisLines, |redisIds|, noId, |pgIds - redisIds|, |redisIds - pgIds|,
      |pgIds + redisIds|);
  }

  lemma MultisetTail<P>(a: seq<P>, b: seq<P>, i: nat)
    requires multiset(a) == multiset(b) && a != [] && i < |b| && b[i] == a[0]
    ensures multiset(a[1..]) == multiset(b[..i] + b[i + 1..])
  {
    assert a == [a[0]] + a[1..];
    assert b == b[..i] + [b[i]] + b[i + 1..];
    assert multiset(a[1..]) == multiset(a) - multiset{a[0]};
    assert multiset(b[..i] + b[i + 1..]) == multiset(b) - multiset{a[0]};
  }

  lemma {:induction false} FlattenMiddle<T>(left: seq<seq<T>>, part: seq<T>, right: seq<seq<T>>)
    ensures multiset(Flatten(left + [part] + right)) == multiset(part) + multiset(Flatten(left + right))
  {
    if left == [] {
      assert left + [part] + right == [part] + right && left + right == right;
      assert ([part] + right)[1..] == right;
    } else {
      assert (left + [part] + right)[1..] == left[1..] + [part] + right;
      assert (left + right)[1..] == left[1..] + right;
      FlattenMiddle(left[1..], part, right);
    }
  }

  lemma {:induction false} FlattenMultiset<T>(a: seq<seq<T>>, b: seq<seq<T>>)
    requires multiset(a) == multiset(b)
    ensures multiset(Flatten(a)) == multiset(Flatten(b))
    decreases |a|
  {
    if a == [] {
      assert |b| == |multiset(b)| == |multiset(a)| == 0;
    } else {
      assert a[0] in multiset(a);
      var i :| 0 <= i < |b| && b[i] == a[0];
      MultisetTail(a, b, i);
      FlattenMultiset(a[1..], b[..i] + b[i + 1..]);
      FlattenMiddle(b[..i], b[i], b[i + 1..]);
      assert b == b[..i] + [b[i]] + b[i + 1..];
    }
  }

  lemma CountsOrderFree(pg: seq<string>, pg': seq<string>, stream: seq<Option<string>>, stream': seq<Option<string>>)
    requires multiset(pg) == multiset(pg') && multiset(stream) == multiset(stream')
    ensures Counts(pg, stream) == Counts(pg', stream')
  {
    assert |multiset(pg)| == |pg| && |multiset(pg')| == |pg'| && |multiset(stream)| == |stream| &&
           |multiset(stream')| == |stream'|;
    assert forall x :: x in pg <==> x in multiset(pg);
    assert forall x :: x in pg' <==> x in multiset(pg');
    assert forall o :: o in stream <==> o in multiset(stream);
    assert forall o :: o in stream' <==> o in multiset(stream');
    assert Ids(pg) == Ids(pg') && Present(stream) == Present(stream');
  }

  /** Recounting a package gives the export's counts, however the files were divided into parts and in
      whatever order the parts are read. */
  lemma RecountAgrees(pg: seq<string>, stream: seq<Option<string>>,
                      pgParts: seq<seq<string>>, streamParts: seq<seq<Option<string>>>,
                      pgRead: seq<seq<string>>, streamRead: seq<seq<Option<string>>>)
    requires Flatten(pgParts) == pg && Flatten(streamParts) == stream
    requires multiset(pgRead) == multiset(pgParts) && multiset(streamRead) == multiset(streamParts)
    ensures Counts(Flatten(pgRead), Flatten(streamRead)) == Counts(pg, stream)
  {
    FlattenMultiset(pgRead, pgParts);
    FlattenMultiset(streamRead, streamParts);
    CountsOrderFree(Flatten(pgRead), pg, Flatten(streamRead), stream);
  }

  function Named(digits: string, suffix: string): (r: string) { "part-" + (digits + suffix) }

  function Padded(k: nat): (r: string) {
    var d := Decimal(k);
    if |d| == 1 then "00" + d else if |d| == 2 then "0" + d else d
  }

  /** `part-NNN.ndjson.gz`, with at least three digits. */
  function PartName(k: nat): (r: string) { Named(Padded(k), ".ndjson.gz") }

  lemma {:induction false} ValueWithZeros(zeros: string, d: string)
    requires forall k :: 0 <= k < |zeros| ==> zeros[k] == '0'
    ensures ValueOf(zeros + d) == ValueOf(d)
  {
    if d != "" {
      var n := |d| - 1;
      ValueWithZeros(zeros, d[..n]);
      assert (zeros + d)[..|zeros| + n] == zeros + d[..n];
    } else if zeros != "" {
      ValueWithZeros(zeros[..|zeros| - 1], "");
      assert zeros + d == zeros && zeros[..|zeros| - 1] + "" == zeros[..|zeros| - 1];
    } else {
      assert zeros + d == d;
    }
  }

  /** A part's name holds its number, in three digits or as many as it takes. */
  lemma PartNameIs(k: nat)
    ensures PartName(k) == "part-" + Padded(k) + ".ndjson.gz"
    ensures ValueOf(Padded(k)) == k && |Padded(k)| >= 3 && (|Padded(k)| > 3 ==> Padded(k)[0] != '0')
  {
    DecimalDenotes(k);
    ValueWithZeros("0", Decimal(k));
    ValueWithZeros("00", Decimal(k));
  }

  lemma Appended(t: nat, d: nat)
    requires t > 0 && d < 10
    ensures Decimal(10 * t + d) == Decimal(t) + ["0123456789"[d]]
  {
    assert (10 * t + d) / 10 == t && (10 * t + d) % 10 == d;
  }

  lemma LessNames(p: string, q: string, suffix: string)
    requires |p| > 2 && |q| > 2 && p[0] == q[0] && p[1] == q[1] && p[2] < q[2]
    ensures Less(Named(p, suffix), Named(q, suffix))
  {
    var a, b := p + suffix, q + suffix;
    assert a[1..][1..] == a[2..] && b[1..][1..] == b[2..];
    assert Less(a[2..], b[2..]);
    LessPrefix("part-", a, b);
  }

  /** The sorted names are not in writing order: part 1000 is read before part 101. */
  lemma SortedNamesReorder()
    ensures Less(PartName(1000), PartName(101))
  {
    Appended(1, 0);
    Appended(10, 0);
    Appended(10, 1);
    Appended(100, 0);
    LessNames(Padded(1000), Padded(101), ".ndjson.gz");
  }

  // ---- Validation ---------------------------------------------------------

  predicate SameFigures(a: Recon, b: Recon) {
    a.streamEntries == b.streamEntries && a.pgRows == b.pgRows && a.onlyInPg == b.onlyInPg &&
      a.onlyInRedis == b.onlyInRedis && a.union == b.union
  }

  /** `validate_package_difference`: the recount against the claim and the two recorded reconciliations. */
  function Validate(found: Recon, claim: Claim, recorded: Recon, shipped: Recon): (r: Result<(), Hold>) {
    if found.pgLines != found.pgRows then Err(PgIdsNotUnique)
    else if found.withoutId != 0 || found.streamUnique != found.streamEntries then Err(StreamIdsNotUnique)
    else if claim != ClaimOf(found) then Err(ClaimMismatch)
    else if !SameFigures(recorded, found) || !SameFigures(shipped, found) then Err(ReconciliationMismatch)
    else Ok(())
  }

  /** A package validates exactly when its ids are unique and present, and the claim and both recorded
      reconciliations show its figures. */
  lemma ValidatesIff(found: Recon, claim: Claim, recorded: Recon, shipped: Recon)
    ensures Validate(found, claim, recorded, shipped).Ok? <==>
            && found.pgRows == found.pgLines && found.withoutId == 0 && found.streamEntries == found.streamUnique
            && claim.pgMessages == found.pgRows && claim.streamEntries == found.streamEntries
            && claim.pgMinusStream + found.streamEntries == found.pgRows && claim.onlyInPg == found.onlyInPg
            && claim.onlyInRedis == found.onlyInRedis && claim.inBoth + found.onlyInPg == found.pgRows
            && (forall r :: r in {recorded, shipped} ==>
                  r.(pgLines := 0, streamUnique := 0, withoutId := 0) ==
                    found.(pgLines := 0, streamUnique := 0, withoutId := 0))
  {
  }

  lemma {:induction false} SubmultisetOfSameSize<T>(a: multiset<T>, b: multiset<T>)
    requires a <= b && |a| == |b|
    ensures a == b
  {
    assert b == a + (b - a);
    assert |b - a| == 0;
  }

  /** A released export whose package lost rows, and gained none, validates exactly when nothing was lost. */
  lemma LostRowIsRefused(pg: seq<string>, stream: seq<Option<string>>, limit: Option<nat>,
                         pgHeld: seq<string>, streamHeld: seq<Option<string>>)
    requires StoreDifference(Counts(pg, stream), limit).Ok?
    requires multiset(pgHeld) <= multiset(pg) && multiset(streamHeld) <= multiset(stream)
    ensures var made := Counts(pg, stream);
            Validate(Counts(pgHeld, streamHeld), StoreDifference(made, limit).value, made, made).Ok? <==>
            multiset(pgHeld) == multiset(pg) && multiset(streamHeld) == multiset(stream)
  {
    var made, found := Counts(pg, stream), Counts(pgHeld, streamHeld);
    if multiset(pgHeld) == multiset(pg) && multiset(streamHeld) == multiset(stream) {
      CountsOrderFree(pg, pgHeld, stream, streamHeld);
    }
    if Validate(found, StoreDifference(made, limit).value, made, made).Ok? {
      assert |multiset(pgHeld)| == |pgHeld| == |pg| == |multiset(pg)|;
      assert |multiset(streamHeld)| == |streamHeld| == |stream| == |multiset(stream)|;
      SubmultisetOfSameSize(multiset(pgHeld), multiset(pg));
      SubmultisetOfSameSize(multiset(streamHeld), multiset(stream));
    }
  }
}
