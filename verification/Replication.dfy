/** A puller that follows `next_cursor` while writers, retention and further pulls interleave. */
module Replication {
  import opened Prelude
  import opened MessageStore
  import opened Reading

  /** One call on the log. `Poll` is `syncPull` at the cursor the previous poll returned. */
  datatype Event =
    | Write(input: Input, env: Env)
    | WriteBatch(inputs: seq<Input>, batchEnvs: seq<Env>)
    | PushBatch(hub: string, items: seq<Input>, envs: seq<Env>)
    | Expire(cutoff: string)
    | Poll(limit: int)

  /** `issued` remembers every row ever stored; `lost` the sequence numbers retention removed while
      they were still ahead of the puller's cursor. */
  datatype World = World(store: Store, issued: seq<Row>, lost: set<nat>, cursor: int, delivered: seq<Row>)

  predicate WellFormed(e: Event) {
    match e
    case WriteBatch(inputs, envs) => |inputs| == |envs|
    case PushBatch(_, items, envs) => |items| == |envs|
    case Poll(limit) => limit >= 1
    case _ => true
  }

  function Grow(w: World, t: Store): (r: World)
    requires |w.store.rows| <= |t.rows|
  {
    w.(store := t, issued := w.issued + t.rows[|w.store.rows|..])
  }

  function Step(w: World, excluded: Option<string>, e: Event): (res: World)
    requires WellFormed(e) && Valid(w.store)
  {
    match e
    case Write(input, env) =>
      InsertKeeps(w.store, input, env);
      Grow(w, Insert(w.store, input, env).store)
    case WriteBatch(inputs, envs) =>
      InsertAllKeeps(Log(w.store, map[]), inputs, envs);
      var b := InsertAll(Log(w.store, map[]), inputs, envs);
      if b.failed then w else Grow(w, b.log.store)
    case PushBatch(hub, items, envs) =>
      PushKeeps(w.store, hub, items, envs);
      Grow(w, Push(w.store, hub, items, envs).store)
    case Expire(cutoff) =>
      var kept := Retained(w.store.rows, cutoff);
      w.(store := Store(kept, w.store.nextSeq),
         lost := w.lost + set r | r in w.store.rows && r !in kept && r.seqNo > w.cursor :: r.seqNo)
    case Poll(limit) =>
      var p := Pull(w.store.rows, w.cursor, excluded, limit);
      w.(cursor := p.nextCursor, delivered := w.delivered + p.messages)
  }

  ghost predicate Numbered(issued: seq<Row>, s: Store, lost: set<nat>) {
    && (forall r :: r in issued ==> 1 <= r.seqNo < s.nextSeq)
    && (forall r :: r in s.rows ==> r in issued)
    && (forall n :: n in lost ==> n < s.nextSeq)
  }

  /** A row ahead of the cursor is stored unless it was lost. */
  ghost predicate Ahead(issued: seq<Row>, rows: seq<Row>, lost: set<nat>, cursor: int) {
    forall r :: r in issued && r.seqNo > cursor ==> (r in rows <==> r.seqNo !in lost)
  }

  ghost predicate DeliveredUpTo(delivered: seq<Row>, issued: seq<Row>, lost: set<nat>, cursor: int,
      excluded: Option<string>)
  {
    forall r :: r in delivered <==> r in issued && Eligible(r, excluded) && r.seqNo <= cursor && r.seqNo !in lost
  }

  /** Sequence numbers are never reused, the cursor stays below the next one, and below the cursor
      an eligible row was delivered or lost, above it it is still stored or lost. */
  ghost predicate Inv(w: World, excluded: Option<string>) {
    && Valid(w.store) && Ordered(w.issued) && Ordered(w.delivered) && 0 <= w.cursor < w.store.nextSeq
    && Numbered(w.issued, w.store, w.lost) && Ahead(w.issued, w.store.rows, w.lost, w.cursor)
    && DeliveredUpTo(w.delivered, w.issued, w.lost, w.cursor, excluded)
  }

  ghost predicate Fresh(added: seq<Row>, low: nat, high: nat) { forall r :: r in added ==> low <= r.seqNo < high }

  lemma AddedAreNew(s: Store, t: Store)
    requires Valid(t) && Extends(s, t)
    ensures s.nextSeq <= t.nextSeq && Ordered(t.rows[|s.rows|..]) && Fresh(t.rows[|s.rows|..], s.nextSeq, t.nextSeq)
  {
    var added := t.rows[|s.rows|..];
    forall r | r in added ensures s.nextSeq <= r.seqNo < t.nextSeq {
      var k :| 0 <= k < |added| && added[k] == r;
      assert t.rows[|s.rows| + k] == r;
    }
  }

  lemma GrowPredicates(w: World, t: Store, added: seq<Row>, excluded: Option<string>)
    requires Inv(w, excluded) && Valid(t) && t.rows == w.store.rows + added && w.store.nextSeq <= t.nextSeq
    requires Fresh(added, w.store.nextSeq, t.nextSeq)
    ensures Numbered(w.issued + added, t, w.lost) && Ahead(w.issued + added, t.rows, w.lost, w.cursor)
    ensures DeliveredUpTo(w.delivered, w.issued + added, w.lost, w.cursor, excluded)
  {
    assert w.store.nextSeq >= 1;
  }

  lemma OrderedConcat(a: seq<Row>, b: seq<Row>)
    requires Ordered(a) && Ordered(b)
    requires forall x, y :: x in a && y in b ==> x.seqNo < y.seqNo
    ensures Ordered(a + b)
  {
    forall i, j | 0 <= i < j < |a + b| ensures (a + b)[i].seqNo < (a + b)[j].seqNo {
      if i < |a| <= j {
        assert a[i] in a && b[j - |a|] in b;
      }
    }
  }

  lemma GrowKeeps(w: World, excluded: Option<string>, t: Store)
    requires Inv(w, excluded) && Valid(t) && Extends(w.store, t)
    ensures Inv(Grow(w, t), excluded)
  {
    var added := t.rows[|w.store.rows|..];
    assert t.rows == w.store.rows + added;
    AddedAreNew(w.store, t);
    OrderedConcat(w.issued, added);
    GrowPredicates(w, t, added, excluded);
  }

  lemma SameSeqSameRow(rows: seq<Row>, x: Row, y: Row)
    requires Ordered(rows) && x in rows && y in rows && x.seqNo == y.seqNo
    ensures x == y
  {
    var i :| 0 <= i < |rows| && rows[i] == x;
    var j :| 0 <= j < |rows| && rows[j] == y;
  }

  lemma ExpireKeeps(w: World, excluded: Option<string>, cutoff: string)
    requires Inv(w, excluded)
    ensures Inv(Step(w, excluded, Expire(cutoff)), excluded)
  {
    RetainedKeeps(w.store, cutoff);
    var u := Step(w, excluded, Expire(cutoff));
    forall r | r in w.issued && r.seqNo in u.lost && r.seqNo !in w.lost
      ensures r.seqNo > w.cursor && r !in u.store.rows {
      var x :| x in w.store.rows && x !in u.store.rows && x.seqNo > w.cursor && x.seqNo == r.seqNo;
      SameSeqSameRow(w.issued, x, r);
    }
  }

  lemma CursorBelow(s: Store)
    requires Valid(s)
    ensures CurrentCursor(s.rows) < s.nextSeq
  {
  }

  lemma PageFollows(w: World, excluded: Option<string>, p: PullPage)
    requires DeliveredUpTo(w.delivered, w.issued, w.lost, w.cursor, excluded)
    requires Members(p.messages, w.store.rows, w.cursor, p.nextCursor, excluded)
    ensures forall x, y :: x in w.delivered && y in p.messages ==> x.seqNo < y.seqNo
  {
  }

  lemma PollDelivers(w: World, excluded: Option<string>, p: PullPage)
    requires Numbered(w.issued, w.store, w.lost) && Ahead(w.issued, w.store.rows, w.lost, w.cursor)
    requires DeliveredUpTo(w.delivered, w.issued, w.lost, w.cursor, excluded)
    requires w.cursor <= p.nextCursor && Members(p.messages, w.store.rows, w.cursor, p.nextCursor, excluded)
    ensures Ahead(w.issued, w.store.rows, w.lost, p.nextCursor)
    ensures DeliveredUpTo(w.delivered + p.messages, w.issued, w.lost, p.nextCursor, excluded)
  {
    var all := w.delivered + p.messages;
    forall r ensures r in all <==>
        r in w.issued && Eligible(r, excluded) && r.seqNo <= p.nextCursor && r.seqNo !in w.lost {
      assert r in all <==> r in w.delivered || r in p.messages;
      if r in w.issued && r.seqNo > w.cursor {
        assert r in w.store.rows <==> r.seqNo !in w.lost;
      }
    }
  }

  lemma PollPage(w: World, excluded: Option<string>, limit: int)
    requires Inv(w, excluded) && limit >= 1
    ensures var p := Pull(w.store.rows, w.cursor, excluded, limit);
            && w.cursor <= p.nextCursor < w.store.nextSeq && Ordered(w.delivered + p.messages)
            && Ahead(w.issued, w.store.rows, w.lost, p.nextCursor)
            && DeliveredUpTo(w.delivered + p.messages, w.issued, w.lost, p.nextCursor, excluded)
  {
    PullPageExact(w.store.rows, w.cursor, excluded, limit);
    var p := Pull(w.store.rows, w.cursor, excluded, limit);
    CursorBelow(w.store);
    PollDelivers(w, excluded, p);
    PageFollows(w, excluded, p);
    OrderedConcat(w.delivered, p.messages);
  }

  lemma PollKeeps(w: World, excluded: Option<string>, limit: int)
    requires Inv(w, excluded) && limit >= 1
    ensures Inv(Step(w, excluded, Poll(limit)), excluded)
  {
    PollPage(w, excluded, limit);
  }

  lemma StepKeeps(w: World, excluded: Option<string>, e: Event)
    requires Inv(w, excluded) && WellFormed(e)
    ensures Inv(Step(w, excluded, e), excluded)
  {
    match e
    case Write(input, env) =>
      InsertKeeps(w.store, input, env);
      GrowKeeps(w, excluded, Insert(w.store, input, env).store);
    case WriteBatch(inputs, envs) =>
      InsertAllKeeps(Log(w.store, map[]), inputs, envs);
      var b := InsertAll(Log(w.store, map[]), inputs, envs);
      if !b.failed {
        GrowKeeps(w, excluded, b.log.store);
      }
    case PushBatch(hub, items, envs) =>
      PushKeeps(w.store, hub, items, envs);
      GrowKeeps(w, excluded, Push(w.store, hub, items, envs).store);
    case Expire(cutoff) => ExpireKeeps(w, excluded, cutoff);
    case Poll(limit) => PollKeeps(w, excluded, limit);
  }

  const EMPTY := World(Store([], 1), [], {}, 0, [])

  /** The world after a run of events from the empty log. */
  ghost function Run(excluded: Option<string>, events: seq<Event>): (w: World)
    requires forall e :: e in events ==> WellFormed(e)
    ensures Inv(w, excluded)
    decreases |events|
  {
    if events == [] then EMPTY
    else
      var v := Run(excluded, events[..|events| - 1]);
      StepKeeps(v, excluded, events[|events| - 1]);
      Step(v, excluded, events[|events| - 1])
  }

  lemma {:induction false} OrderedOnce(rows: seq<Row>, r: Row)
    requires Ordered(rows) && r in rows
    ensures multiset(rows)[r] == 1
  {
    var n := |rows| - 1;
    assert rows == rows[..n] + [rows[n]];
    if r !in rows[..n] {
    } else {
      OrderedOnce(rows[..n], r);
      var k :| 0 <= k < n && rows[k] == r;
    }
  }

  /** Over any interleaving, delivery is in strictly increasing sequence order, each stored eligible
      row the cursor has passed was delivered exactly once unless retention took it first, and the
      cursor never exceeds the highest number issued. */
  lemma DeliveredExactlyOnce(excluded: Option<string>, events: seq<Event>)
    requires forall e :: e in events ==> WellFormed(e)
    ensures var w := Run(excluded, events);
            (forall i, j :: 0 <= i < j < |w.delivered| ==> w.delivered[i].seqNo < w.delivered[j].seqNo) &&
            (forall r :: r in w.delivered ==> r in w.issued && Eligible(r, excluded) && r.seqNo <= w.cursor) &&
            (forall r :: r in w.issued && Eligible(r, excluded) && r.seqNo <= w.cursor && r.seqNo !in w.lost ==>
              multiset(w.delivered)[r] == 1) &&
            (forall r :: r in w.issued && r.seqNo > w.cursor && r.seqNo !in w.lost ==> r in w.store.rows) &&
            w.cursor < w.store.nextSeq
  {
    var w := Run(excluded, events);
    forall r | r in w.delivered ensures multiset(w.delivered)[r] == 1 {
      OrderedOnce(w.delivered, r);
    }
  }

  /** A puller that keeps polling a quiet log ends up with every eligible row not lost to retention. */
  lemma QuietDrainCompletes(excluded: Option<string>, events: seq<Event>, limit: int)
    requires (forall e :: e in events ==> WellFormed(e)) && limit >= 1
    ensures var w := Run(excluded, events);
            var all := w.delivered + Drain(w.store.rows, w.cursor, excluded, limit);
            Ordered(all) && forall r :: r in all <==> r in w.issued && Eligible(r, excluded) && r.seqNo !in w.lost
  {
    var w := Run(excluded, events);
    DrainDeliversAll(w.store.rows, w.cursor, excluded, limit);
    BetweenMembers(w.store.rows, w.cursor, CurrentCursor(w.store.rows), excluded);
    OrderedConcat(w.delivered, Drain(w.store.rows, w.cursor, excluded, limit));
  }
}
