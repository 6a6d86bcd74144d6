/** The history export's reading loop over the Redis stream and its division of a file into parts. */
module HistoryExport {
  import opened Prelude

  // ---- The stream ---------------------------------------------------------

  /** A stream id, `ms-n`. */
  datatype StreamId = StreamId(ms: nat, n: nat)

  datatype Entry = Entry(stamp: StreamId, id: Option<string>)

  predicate Before(a: StreamId, b: StreamId) { a.ms < b.ms || (a.ms == b.ms && a.n < b.n) }

  /** Ids are ordered by their milliseconds, and within one by their counter. */
  lemma BeforeIs(a: StreamId, b: StreamId)
    ensures a.ms != b.ms ==> (Before(a, b) <==> a.ms < b.ms)
    ensures a.ms == b.ms ==> (Before(a, b) <==> a.n < b.n)
  {
  }

  ghost predicate Ascending(s: seq<Entry>) { forall i, j :: 0 <= i < j < |s| ==> Before(s[i].stamp, s[j].stamp) }

  /** `XRANGE stream min + COUNT count`; `None` is the minimum `-`. */
  function XRange(s: seq<Entry>, min: Option<StreamId>, count: nat): (r: seq<Entry>) {
    if s == [] || count == 0 then []
    else if min.Some? && Before(s[0].stamp, min.value) then XRange(s[1..], min, count)
    else [s[0]] + XRange(s[1..], min, count - 1)
  }

  /** What a read sees of the log of all entries ever added: those from `lo` up to `hi`. */
  datatype View = View(lo: nat, hi: nat)

  /** Entries are only added at the end and only trimmed at the start between the reads. */
  ghost predicate Grows(views: nat -> View, size: nat) {
    && (forall k :: views(k).lo <= views(k).hi <= size)
    && (forall j, k :: j <= k ==> views(j).lo <= views(k).lo && views(j).hi <= views(k).hi)
  }

  const PAGE := 5000

  /** One batch: the entries not before the last one written, without the first of them. */
  function Batch(log: seq<Entry>, v: View, last: Option<nat>): (r: seq<Entry>)
    requires v.lo <= v.hi <= |log| && (last.Some? ==> last.value < |log|)
  {
    var read := XRange(log[v.lo..v.hi], if last.None? then None else Some(log[last.value].stamp), PAGE);
    if last.Some? && read != [] then read[1..] else read
  }

  /** First log position of the batch. */
  function Begin(v: View, last: Option<nat>): (r: nat) {
    match last
    case None => v.lo
    case Some(p) => Max(v.lo, p) + 1
  }

  function End(v: View, last: Option<nat>): (r: nat) {
    Min(if last.None? then v.lo + PAGE else Max(v.lo, last.value) + PAGE, v.hi)
  }

  lemma {:induction false} XRangeAll(s: seq<Entry>, min: Option<StreamId>, count: nat)
    requires forall i :: 0 <= i < |s| && min.Some? ==> !Before(s[i].stamp, min.value)
    ensures XRange(s, min, count) == s[..Min(count, |s|)]
  {
    if s == [] || count == 0 {
    } else {
      XRangeAll(s[1..], min, count - 1);
      assert s[..Min(count, |s|)] == [s[0]] + s[1..][..Min(count - 1, |s| - 1)];
    }
  }

  lemma {:induction false} XRangeDrops(s: seq<Entry>, min: StreamId, count: nat, d: nat)
    requires d <= |s| && (forall i :: 0 <= i < d ==> Before(s[i].stamp, min))
    ensures XRange(s, Some(min), count) == XRange(s[d..], Some(min), count)
  {
    if d > 0 && count > 0 {
      XRangeDrops(s[1..], min, count, d - 1);
      assert s[1..][d - 1..] == s[d..];
    } else {
      assert d == 0 ==> s[d..] == s;
    }
  }

  lemma SliceOfSlice<T>(s: seq<T>, a: nat, b: nat, i: nat, j: nat)
    requires a <= b <= |s| && i <= j <= b - a
    ensures s[a..b][i..j] == s[a + i..a + j]
  {
    forall k | 0 <= k < j - i ensures s[a..b][i..j][k] == s[a + i..a + j][k] {
      assert s[a..b][i + k] == s[a + i + k];
    }
  }

  /** A read that starts at a log entry sees the piece of the log from there, or from the first one left. */
  lemma ReadIsSlice(log: seq<Entry>, v: View, p: nat)
    requires Ascending(log) && v.lo <= v.hi <= |log| && p < |log|
    ensures var f := Min(Max(v.lo, p), v.hi);
            XRange(log[v.lo..v.hi], Some(log[p].stamp), PAGE) == log[f..v.hi][..Min(PAGE, v.hi - f)]
  {
    var window, min := log[v.lo..v.hi], log[p].stamp;
    var f := Min(Max(v.lo, p), v.hi);
    var d := f - v.lo;
    forall i | 0 <= i < d ensures Before(window[i].stamp, min) {
      assert window[i] == log[v.lo + i];
    }
    XRangeDrops(window, min, PAGE, d);
    var seen := log[f..v.hi];
    assert window[d..] == seen;
    XRangeAll(seen, Some(min), PAGE);
  }

  /** How much a read takes. */
  lemma PageIs(v: View, p: nat)
    requires v.lo <= v.hi
    ensures Begin(v, None) == v.lo && End(v, None) == if v.hi - v.lo <= 5000 then v.hi else v.lo + 5000
    ensures var from := if p < v.lo then v.lo else p;
            Begin(v, Some(p)) == from + 1 && End(v, Some(p)) == if v.hi <= from + 5000 then v.hi else from + 5000
  {
  }

  /** A batch is a contiguous piece of the log. */
  lemma BatchIsSlice(log: seq<Entry>, v: View, last: Option<nat>)
    requires Ascending(log) && v.lo <= v.hi <= |log| && (last.Some? ==> last.value < |log|)
    ensures Batch(log, v, last) == if Begin(v, last) < End(v, last) then log[Begin(v, last)..End(v, last)] else []
  {
    var window := log[v.lo..v.hi];
    if last.None? {
      XRangeAll(window, None, PAGE);
      SliceOfSlice(log, v.lo, v.hi, 0, Min(PAGE, |window|));
    } else {
      ReadIsSlice(log, v, last.value);
      var f := Min(Max(v.lo, last.value), v.hi);
      var m := Min(PAGE, v.hi - f);
      if m > 0 {
        SliceOfSlice(log, f, v.hi, 1, m);
        assert log[f..v.hi][..m][1..] == log[f..v.hi][1..m];
      }
    }
  }

  // ---- The loop -----------------------------------------------------------

  ghost predicate Reading(log: seq<Entry>, views: nat -> View, k: nat, last: Option<nat>) {
    Ascending(log) && Grows(views, |log|) && (last.Some? ==> last.value < views(k).hi)
  }

  /** Everything the loop writes from its `k`-th read on. */
  ghost function Export(log: seq<Entry>, views: nat -> View, k: nat, last: Option<nat>): (r: seq<Entry>)
    requires Reading(log, views, k, last)
    decreases |log| - if last.None? then -1 else last.value
  {
    var b, e := Begin(views(k), last), End(views(k), last);
    if b < e then log[b..e] + Export(log, views, k + 1, Some(e - 1)) else []
  }

  /** The number of the read that comes back empty. */
  ghost function LastRead(log: seq<Entry>, views: nat -> View, k: nat, last: Option<nat>): (r: nat)
    requires Reading(log, views, k, last)
    ensures r >= k
    decreases |log| - if last.None? then -1 else last.value
  {
    var b, e := Begin(views(k), last), End(views(k), last);
    if b < e then LastRead(log, views, k + 1, Some(e - 1)) else k
  }

  /** The entry last written was trimmed although more entries had been added behind it. */
  predicate Skips(v: View, last: Option<nat>) { last.Some? && last.value < v.lo && last.value + 1 < v.hi }

  ghost predicate NeverSkips(log: seq<Entry>, views: nat -> View, k: nat, last: Option<nat>)
    requires Reading(log, views, k, last)
    decreases |log| - if last.None? then -1 else last.value
  {
    var b, e := Begin(views(k), last), End(views(k), last);
    !Skips(views(k), last) && (b < e ==> NeverSkips(log, views, k + 1, Some(e - 1)))
  }

  /** Where writing should continue. */
  ghost function Due(views: nat -> View, k: nat, last: Option<nat>): (r: nat)
  {
    if last.None? then views(k).lo else last.value + 1
  }

  /** Everything written comes after this entry. */
  ghost predicate After(x: Entry, w: seq<Entry>) { forall i :: 0 <= i < |w| ==> Before(x.stamp, w[i].stamp) }

  lemma AscendingJoin(a: seq<Entry>, b: seq<Entry>)
    requires Ascending(a) && Ascending(b) && a != []
    requires forall i :: 0 <= i < |b| ==> Before(a[|a| - 1].stamp, b[i].stamp)
    ensures Ascending(a + b)
  {
    forall i, j | 0 <= i < j < |a + b| ensures Before((a + b)[i].stamp, (a + b)[j].stamp) {
      if j >= |a| {
        assert Before(a[|a| - 1].stamp, b[j - |a|].stamp);
      }
    }
  }

  lemma PageThenRest(log: seq<Entry>, b: nat, e: nat, rest: seq<Entry>)
    requires Ascending(log) && b < e <= |log| && Ascending(rest) && After(log[e - 1], rest)
    ensures Ascending(log[b..e] + rest)
  {
    AscendingJoin(log[b..e], rest);
  }

  lemma AfterPage(log: seq<Entry>, p: nat, b: nat, e: nat, rest: seq<Entry>)
    requires Ascending(log) && p < b < e <= |log| && After(log[e - 1], rest)
    ensures After(log[p], log[b..e] + rest)
  {
    forall i | 0 <= i < |log[b..e] + rest| ensures Before(log[p].stamp, (log[b..e] + rest)[i].stamp) {
      if i >= e - b {
        assert Before(log[e - 1].stamp, rest[i - (e - b)].stamp);
      }
    }
  }

  /** No entry is written twice, whatever is trimmed meanwhile. */
  lemma {:induction false} WrittenOnce(log: seq<Entry>, views: nat -> View, k: nat, last: Option<nat>)
    requires Reading(log, views, k, last)
    ensures Ascending(Export(log, views, k, last)) &&
            (last.Some? ==> After(log[last.value], Export(log, views, k, last)))
    decreases |log| - if last.None? then -1 else last.value
  {
    var b, e := Begin(views(k), last), End(views(k), last);
    if b >= e {
    } else {
      WrittenOnce(log, views, k + 1, Some(e - 1));
      PageThenRest(log, b, e, Export(log, views, k + 1, Some(e - 1)));
      if last.Some? {
        AfterPage(log, last.value, b, e, Export(log, views, k + 1, Some(e - 1)));
      }
    }
  }

  /** What is written is everything due up to what the last read sees, or a read has skipped. */
  ghost predicate Exact(log: seq<Entry>, due: nat, end: nat, written: seq<Entry>, never: bool) {
    due <= end <= |log| && (never <==> written == log[due..end])
  }

  lemma DueThenBegin(log: seq<Entry>, views: nat -> View, k: nat, last: Option<nat>)
    requires Reading(log, views, k, last) && Begin(views(k), last) < End(views(k), last)
    ensures Due(views, k, last) <= Begin(views(k), last) &&
            (Skips(views(k), last) <==> Due(views, k, last) < Begin(views(k), last))
    ensures Due(views, k + 1, Some(End(views(k), last) - 1)) == End(views(k), last)
  {
  }

  lemma LateStartDiffers(log: seq<Entry>, due: nat, b: nat, e: nat, end: nat, rest: seq<Entry>)
    requires Ascending(log) && due < b < e <= end <= |log|
    ensures log[b..e] + rest != log[due..end]
  {
    assert (log[b..e] + rest)[0] == log[b] && log[due..end][0] == log[due];
    assert Before(log[due].stamp, log[b].stamp);
  }

  lemma PieceThenRest(log: seq<Entry>, b: nat, e: nat, end: nat, rest: seq<Entry>)
    requires b <= e <= end <= |log|
    ensures log[b..e] + rest == log[b..end] <==> rest == log[e..end]
  {
    SliceOfSlice(log, b, end, e - b, end - b);
    assert log[b..e] + log[e..end] == log[b..end];
    if log[b..e] + rest == log[b..end] {
      assert rest == (log[b..e] + rest)[e - b..];
    }
  }

  lemma OnePageMore(log: seq<Entry>, due: nat, b: nat, e: nat, end: nat, rest: seq<Entry>, skips: bool, never: bool)
    requires Ascending(log) && due <= b < e && (skips <==> due < b) && Exact(log, e, end, rest, never)
    ensures Exact(log, due, end, log[b..e] + rest, !skips && never)
  {
    if skips {
      LateStartDiffers(log, due, b, e, end, rest);
    } else {
      PieceThenRest(log, b, e, end, rest);
    }
  }

  lemma NothingLeft(log: seq<Entry>, views: nat -> View, k: nat, last: Option<nat>)
    requires Reading(log, views, k, last) && Begin(views(k), last) >= End(views(k), last)
    ensures Due(views, k, last) <= views(k).hi && (Skips(views(k), last) <==> Due(views, k, last) < views(k).hi)
  {
  }

  /** From the `k`-th read on the export is complete up to the last read exactly when no read skips. */
  ghost predicate CompleteIff(log: seq<Entry>, views: nat -> View, k: nat, last: Option<nat>)
    requires Reading(log, views, k, last)
  {
    Exact(log, Due(views, k, last), views(LastRead(log, views, k, last)).hi, Export(log, views, k, last),
      NeverSkips(log, views, k, last))
  }

  lemma CompleteStep(log: seq<Entry>, views: nat -> View, k: nat, last: Option<nat>)
    requires Reading(log, views, k, last) && Begin(views(k), last) < End(views(k), last)
    requires CompleteIff(log, views, k + 1, Some(End(views(k), last) - 1))
    ensures CompleteIff(log, views, k, last)
  {
    var b, e := Begin(views(k), last), End(views(k), last);
    DueThenBegin(log, views, k, last);
    OnePageMore(log, Due(views, k, last), b, e, views(LastRead(log, views, k + 1, Some(e - 1))).hi,
                Export(log, views, k + 1, Some(e - 1)), Skips(views(k), last),
                  NeverSkips(log, views, k + 1, Some(e - 1)));
  }

  lemma CompleteEnd(log: seq<Entry>, views: nat -> View, k: nat, last: Option<nat>)
    requires Reading(log, views, k, last) && Begin(views(k), last) >= End(views(k), last)
    ensures CompleteIff(log, views, k, last)
  {
    NothingLeft(log, views, k, last);
  }

  /** The export is complete up to the last read exactly when no read finds its starting entry trimmed
      away while later entries exist. */
  lemma {:induction false} CompleteIffNeverSkips(log: seq<Entry>, views: nat -> View, k: nat, last: Option<nat>)
    requires Reading(log, views, k, last)
    ensures CompleteIff(log, views, k, last)
    decreases |log| - if last.None? then -1 else last.value
  {
    var b, e := Begin(views(k), last), End(views(k), last);
    if b < e {
      CompleteIffNeverSkips(log, views, k + 1, Some(e - 1));
      CompleteStep(log, views, k, last);
    } else {
      CompleteEnd(log, views, k, last);
    }
  }

  lemma {:induction false} UntrimmedNeverSkips(log: seq<Entry>, views: nat -> View, k: nat, last: Option<nat>)
    requires Reading(log, views, k, last) && (forall j :: views(j).lo == views(0).lo)
    requires last.Some? ==> views(0).lo <= last.value
    ensures NeverSkips(log, views, k, last)
    decreases |log| - if last.None? then -1 else last.value
  {
    var b, e := Begin(views(k), last), End(views(k), last);
    if b >= e {
    } else {
      UntrimmedNeverSkips(log, views, k + 1, Some(e - 1));
    }
  }

  /** With an append-only stream every entry is written once, in order. */
  lemma AppendOnlyIsComplete(log: seq<Entry>, views: nat -> View)
    requires Reading(log, views, 0, None) && (forall k :: views(k).lo == views(0).lo)
    ensures Export(log, views, 0, None) == log[views(0).lo..views(LastRead(log, views, 0, None)).hi]
  {
    UntrimmedNeverSkips(log, views, 0, None);
    CompleteIffNeverSkips(log, views, 0, None);
  }

  /** Trimming the entry last written loses the next one, although the stream still holds it. */
  lemma TrimmedStartLosesAnEntry(a: Entry, b: Entry)
    requires Before(a.stamp, b.stamp)
    ensures var views := (k: nat) => if k == 0 then View(0, 1) else View(1, 2);
            Reading([a, b], views, 0, None) && Export([a, b], views, 0, None) == [a]
  {
    var log := [a, b];
    var views := (k: nat) => if k == 0 then View(0, 1) else View(1, 2);
    assert Begin(views(1), Some(0)) == 2 && End(views(1), Some(0)) == 2;
    assert Export(log, views, 1, Some(0)) == [];
    assert log[0..1] == [a];
  }

  /** The message ids of the entries, in order. */
  function IdsOf(s: seq<Entry>): (r: seq<Option<string>>)
    ensures |r| == |s| && forall i :: 0 <= i < |r| ==> r[i] == s[i].id
  {
    seq(|s|, i requires 0 <= i < |s| => s[i].id)
  }

  /** The ids that are there. */
  function Present(s: seq<Option<string>>): (r: set<string>) { set o | o in s && o.Some? :: o.value }

  /** The counters agree with what has been written. */
  ghost predicate Counted(written: seq<Entry>, n: nat, withoutId: nat, ids: set<string>) {
    n == |written| && withoutId == multiset(IdsOf(written))[None] && ids == Present(IdsOf(written))
  }

  /** One turn of the loop. */
  lemma ReadStep(log: seq<Entry>, views: nat -> View, k: nat, last: Option<nat>)
    requires Reading(log, views, k, last)
    ensures var batch := Batch(log, views(k), last);
            if batch == [] then Export(log, views, k, last) == []
            else
              && var next := Some(End(views(k), last) - 1);
              && next.value >= 0 && Reading(log, views, k + 1, next)
              && (last.Some? ==> last.value < next.value)
              && Export(log, views, k, last) == batch + Export(log, views, k + 1, next)
  {
    BatchIsSlice(log, views(k), last);
  }

  lemma Regroup<T>(a: seq<T>, b: seq<T>, c: seq<T>)
    ensures a + (b + c) == (a + b) + c
  {
  }

  lemma CountOne(s: seq<Option<string>>, id: Option<string>)
    ensures multiset(s + [id])[None] == multiset(s)[None] + if id.None? then 1 else 0
    ensures Present(s + [id]) == Present(s) + if id.Some? then {id.value} else {}
  {
    var t := s + [id];
    forall o | o in t ensures o in s || o == id {
    }
    assert forall o :: o in s ==> o in t;
    assert id in t;
  }

  /** Writing one batch. */
  method Write(written: seq<Entry>, n: nat, withoutId: nat, ids: set<string>, batch: seq<Entry>)
    returns (written': seq<Entry>, n': nat, withoutId': nat, ids': set<string>)
    requires Counted(written, n, withoutId, ids)
    ensures written' == written + batch && Counted(written', n', withoutId', ids')
  {
    written', n', withoutId', ids' := written, n, withoutId, ids;
    for i := 0 to |batch|
      invariant written' == written + batch[..i]
      invariant Counted(written', n', withoutId', ids')
    {
      var id := batch[i].id;
      CountOne(IdsOf(written'), id);
      assert IdsOf(written' + [batch[i]]) == IdsOf(written') + [id];
      written' := written' + [batch[i]];
      if id.None? {
        withoutId' := withoutId' + 1;
      } else {
        ids' := ids' + {id.value};
      }
      n' := n' + 1;
    }
  }

  /** The loop of `export_redis` over the message stream, with its counters. */
  method ExportStream(log: seq<Entry>, views: nat -> View)
    returns (written: seq<Entry>, n: nat, withoutId: nat, ids: set<string>)
    requires Reading(log, views, 0, None)
    ensures written == Export(log, views, 0, None) && Counted(written, n, withoutId, ids)
  {
    var last: Option<nat>, k: nat := None, 0;
    written, n, withoutId, ids := [], 0, 0, {};
    ghost var rest := Export(log, views, 0, None);
    ghost var all := rest;
    assert [] + rest == all;
    while true
      invariant Reading(log, views, k, last) && rest == Export(log, views, k, last)
      invariant written + rest == all && Counted(written, n, withoutId, ids)
      decreases |log| - if last.None? then -1 else last.value
    {
      var batch := Batch(log, views(k), last);
      ReadStep(log, views, k, last);
      if batch == [] {
        assert written + [] == written;
        break;
      }
      ghost var before, from := written, rest;
      written, n, withoutId, ids := Write(written, n, withoutId, ids, batch);
      // The log position of batch[-1], whose stream id is the next read's start.
      last := Some(End(views(k), last) - 1);
      k := k + 1;
      rest := Export(log, views, k, last);
      assert from == batch + rest;
      Regroup(before, batch, rest);
    }
  }

  // ---- gz_parts -----------------------------------------------------------

  function Flatten<T>(parts: seq<seq<T>>): (r: seq<T>) {
    if parts == [] then [] else parts[0] + Flatten(parts[1..])
  }

  lemma {:induction false} FlattenAppend<T>(parts: seq<seq<T>>, part: seq<T>)
    ensures Flatten(parts + [part]) == Flatten(parts) + part
  {
    if parts == [] {
      assert parts + [part] == [part] && Flatten([part]) == part + Flatten([]);
    } else {
      assert (parts + [part])[1..] == parts[1..] + [part];
      FlattenAppend(parts[1..], part);
    }
  }

  /** Every part but the last is full; the last holds at least one line. */
  predicate Filled<T>(parts: seq<seq<T>>, perPart: nat) {
    && (forall k :: 0 <= k < |parts| - 1 ==> |parts[k]| == perPart)
    && (parts != [] ==> 0 < |parts[|parts| - 1]| <= perPart)
  }

  lemma AtLeastOne(d: int, n: int)
    requires d >= 1 && n > 0
    ensures d * n >= n
  {
    assert d * n == (d - 1) * n + n;
  }

  lemma SmallMultiple(d: int, n: int)
    requires -n < d * n < n
    ensures d == 0
  {
    if d != 0 {
      AtLeastOne(if d > 0 then d else -d, n);
    }
  }

  lemma MultipleIffFull(full: nat, open: nat, perPart: nat)
    requires 0 < open <= perPart
    ensures (full * perPart + open) % perPart == 0 <==> open == perPart
  {
    var i := full * perPart + open;
    var q, r := i / perPart, i % perPart;
    assert i == q * perPart + r;
    if open == perPart {
      assert (q - full - 1) * perPart == -r;
      SmallMultiple(q - full - 1, perPart);
    } else {
      assert (q - full) * perPart == open - r;
      SmallMultiple(q - full, perPart);
    }
  }

  /** Closed parts are full; with the open one they hold the lines read. Before the first line none is open. */
  ghost predicate Packed<T>(closed: seq<seq<T>>, open: seq<T>, perPart: nat, read: seq<T>) {
    && |read| == |closed| * perPart + |open| && |open| <= perPart && (open == [] ==> closed == [])
    && Flatten(closed) + open == read && forall k :: 0 <= k < |closed| ==> |closed[k]| == perPart
  }

  lemma PartIsFull<T>(closed: seq<seq<T>>, open: seq<T>, perPart: nat, read: seq<T>)
    requires perPart > 0 && Packed(closed, open, perPart, read)
    ensures |read| % perPart == 0 <==> open == [] || |open| == perPart
  {
    if open != [] {
      MultipleIffFull(|closed|, |open|, perPart);
    }
  }

  /** What remains of the invariant when the full open part is closed. */
  ghost predicate Closed<T>(closed: seq<seq<T>>, open: seq<T>, perPart: nat, read: seq<T>) {
    && |read| == |closed| * perPart + |open| && |open| < perPart
    && Flatten(closed) + open == read && forall k :: 0 <= k < |closed| ==> |closed[k]| == perPart
  }

  lemma ClosePart<T>(closed: seq<seq<T>>, open: seq<T>, perPart: nat, read: seq<T>)
    requires perPart > 0 && Packed(closed, open, perPart, read) && |open| == perPart
    ensures Closed(closed + [open], [], perPart, read)
  {
    FlattenAppend(closed, open);
    assert (|closed| + 1) * perPart == |closed| * perPart + perPart;
  }

  lemma AddLine<T>(closed: seq<seq<T>>, open: seq<T>, perPart: nat, read: seq<T>, line: T)
    requires Closed(closed, open, perPart, read)
    ensures Packed(closed, open + [line], perPart, read + [line])
  {
  }

  /** Division of a file of lines into parts: nothing lost, nothing reordered, parts filled in turn. */
  method GzParts<T>(lines: seq<T>, perPart: nat) returns (parts: seq<seq<T>>, total: nat)
    requires perPart > 0
    ensures Flatten(parts) == lines && Filled(parts, perPart) && total == |lines|
  {
    // The part being written is `open`; the others are closed.
    var closed: seq<seq<T>>, open: seq<T> := [], [];
    total := 0;
    for i := 0 to |lines|
      invariant total == i && Packed(closed, open, perPart, lines[..i])
    {
      PartIsFull(closed, open, perPart, lines[..i]);
      if i % perPart == 0 {
        if open != [] {
          ClosePart(closed, open, perPart, lines[..i]);
          closed := closed + [open];
        }
        open := [];
      }
      assert lines[..i + 1] == lines[..i] + [lines[i]];
      AddLine(closed, open, perPart, lines[..i], lines[i]);
      open := open + [lines[i]];
      total := total + 1;
    }
    assert lines[..|lines|] == lines;
    FlattenAppend(closed, open);
    parts := if open != [] then closed + [open] else closed;
  }
}
