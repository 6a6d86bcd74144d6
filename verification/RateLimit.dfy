/** `checkRateLimit`: fixed one-minute windows per identity, with cleanup of old windows. */
module RateLimit {
  import opened Prelude

  const WINDOW_MS := 60_000
  const KEEP_MS := 300_000

  type Counters = map<(string, int), nat>

  function WindowStart(now: int): (r: int) { now / WINDOW_MS * WINDOW_MS }

  function CountAt(c: Counters, key: string, window: int): (r: nat)
  {
    if (key, window) in c then c[(key, window)] else 0
  }

  /** `DELETE ... WHERE window_start_ms < before`. */
  function Cleaned(c: Counters, before: int): (r: Counters) { map k | k in c && k.1 >= before :: c[k] }

  function Check(c: Counters, key: string, limit: int, now: int): (r: (Counters, bool)) {
    var window := WindowStart(now);
    var current := CountAt(c, key, window);
    if current >= limit then (c, false)
    else (Cleaned(c[(key, window) := current + 1], window - KEEP_MS), true)
  }

  datatype Call = Call(key: string, now: int)

  datatype Outcome = Outcome(counters: Counters, verdicts: seq<bool>)

  function Run(calls: seq<Call>, limit: int): (o: Outcome)
    ensures |o.verdicts| == |calls|
  {
    if calls == [] then Outcome(map[], [])
    else
      var n := |calls| - 1;
      var o := Run(calls[..n], limit);
      var (c, admitted) := Check(o.counters, calls[n].key, limit, calls[n].now);
      Outcome(c, o.verdicts + [admitted])
  }

  predicate ClockNeverBack(calls: seq<Call>) { forall i, j :: 0 <= i <= j < |calls| ==> calls[i].now <= calls[j].now }

  function CallsIn(calls: seq<Call>, key: string, window: int): (r: nat) {
    if calls == [] then 0
    else
      var n := |calls| - 1;
      CallsIn(calls[..n], key, window) + if calls[n].key == key && WindowStart(calls[n].now) == window then 1 else 0
  }

  function AdmittedIn(calls: seq<Call>, verdicts: seq<bool>, key: string, window: int): (r: nat)
    requires |calls| == |verdicts|
  {
    if calls == [] then 0
    else
      var n := |calls| - 1;
      AdmittedIn(calls[..n], verdicts[..n], key, window)
      + if verdicts[n] && calls[n].key == key && WindowStart(calls[n].now) == window then 1 else 0
  }

  /** Admissions of an identity in the half-open interval of one minute starting at `from`. */
  function AdmittedFrom(calls: seq<Call>, verdicts: seq<bool>, key: string, from: int): (r: nat)
    requires |calls| == |verdicts|
  {
    if calls == [] then 0
    else
      var n := |calls| - 1;
      AdmittedFrom(calls[..n], verdicts[..n], key, from)
      + if verdicts[n] && calls[n].key == key && from <= calls[n].now < from + WINDOW_MS then 1 else 0
  }

  /** Window starts follow the clock, a minute apart. */
  lemma WindowOrder(s: int, t: int)
    requires s <= t
    ensures WindowStart(s) <= WindowStart(t)
    ensures WindowStart(s) <= s < WindowStart(s) + WINDOW_MS
  {
  }

  lemma CleanedCount(c: Counters, before: int, key: string, window: int)
    requires window >= before
    ensures CountAt(Cleaned(c, before), key, window) == CountAt(c, key, window)
  {
  }

  lemma {:induction false} NoFutureCalls(calls: seq<Call>, limit: int, key: string, window: int)
    requires forall c :: c in calls ==> WindowStart(c.now) < window
    ensures CallsIn(calls, key, window) == 0 && AdmittedIn(calls, Run(calls, limit).verdicts, key, window) == 0
  {
    if calls == [] {
    } else {
      var n := |calls| - 1;
      NoFutureCalls(calls[..n], limit, key, window);
      assert calls[n] in calls;
      assert Run(calls, limit).verdicts[..n] == Run(calls[..n], limit).verdicts;
    }
  }

  /** A check counts one more in its own window when it admits, and nothing in this or a later one otherwise. */
  lemma CheckCounts(c: Counters, caller: string, limit: int, now: int, key: string, window: int)
    requires window >= WindowStart(now)
    ensures var (d, admitted) := Check(c, caller, limit, now);
            CountAt(d, key, window) == CountAt(c, key, window) +
              if admitted && key == caller && window == WindowStart(now) then 1 else 0
  {
    var own := WindowStart(now);
    CleanedCount(c[(caller, own) := CountAt(c, caller, own) + 1], own - KEEP_MS, key, window);
  }

  /** The last call of a run. */
  lemma RunStep(calls: seq<Call>, limit: int, key: string, window: int)
    requires calls != []
    ensures var n := |calls| - 1;
            var o := Run(calls[..n], limit);
            var (c, admitted) := Check(o.counters, calls[n].key, limit, calls[n].now);
            var hit := if admitted && calls[n].key == key && WindowStart(calls[n].now) == window then 1 else 0;
            Run(calls, limit).counters == c &&
            AdmittedIn(calls, Run(calls, limit).verdicts, key, window) ==
              AdmittedIn(calls[..n], o.verdicts, key, window) + hit
  {
    var n := |calls| - 1;
    assert Run(calls, limit).verdicts[..n] == Run(calls[..n], limit).verdicts;
  }

  /** Every window admits the smaller of its calls and the limit, and the stored counter of each
      window from the current one on is its number of admissions, so cleanup never forgets it. */
  lemma {:induction false} WindowExact(calls: seq<Call>, limit: int, key: string, window: int)
    requires ClockNeverBack(calls)
    ensures AdmittedIn(calls, Run(calls, limit).verdicts, key, window) ==
            Min(CallsIn(calls, key, window), Max(limit, 0))
    ensures (calls == [] || window >= WindowStart(calls[|calls| - 1].now)) ==>
              CountAt(Run(calls, limit).counters, key, window) ==
                AdmittedIn(calls, Run(calls, limit).verdicts, key, window)
  {
    if calls == [] {
    } else {
      var n := |calls| - 1;
      var init, last := calls[..n], calls[n];
      WindowExact(init, limit, key, window);
      WindowExact(init, limit, last.key, WindowStart(last.now));
      if init != [] {
        WindowOrder(init[n - 1].now, last.now);
      }
      RunStep(calls, limit, key, window);
      if window >= WindowStart(last.now) {
        CheckCounts(Run(init, limit).counters, last.key, limit, last.now, key, window);
      }
    }
  }

  lemma {:induction false} IntervalInTwoWindows(calls: seq<Call>, verdicts: seq<bool>, key: string, from: int)
    requires |calls| == |verdicts|
    ensures AdmittedFrom(calls, verdicts, key, from)
         <= AdmittedIn(calls, verdicts, key, WindowStart(from)) +
           AdmittedIn(calls, verdicts, key, WindowStart(from) + WINDOW_MS)
  {
    if calls == [] {
    } else {
      var n := |calls| - 1;
      IntervalInTwoWindows(calls[..n], verdicts[..n], key, from);
      if from <= calls[n].now < from + WINDOW_MS {
        WindowOrder(from, calls[n].now);
        assert WindowStart(calls[n].now) == WindowStart(from) ||
               WindowStart(calls[n].now) == WindowStart(from) + WINDOW_MS;
      }
    }
  }

  /** No interval of 60 seconds, aligned or not, admits more than twice the limit. */
  lemma AnyMinuteAdmitsTwiceLimit(calls: seq<Call>, limit: int, key: string, from: int)
    requires ClockNeverBack(calls)
    ensures AdmittedFrom(calls, Run(calls, limit).verdicts, key, from) <= 2 * Max(limit, 0)
  {
    IntervalInTwoWindows(calls, Run(calls, limit).verdicts, key, from);
    WindowExact(calls, limit, key, WindowStart(from));
    WindowExact(calls, limit, key, WindowStart(from) + WINDOW_MS);
  }

  lemma TwoWindowsAdmit(a: Call, b: Call)
    requires a.now == 59_999 && b.now == 60_000
    ensures Run([a, b], 1).verdicts == [true, true]
  {
    assert WindowStart(59_999) == 0 && WindowStart(60_000) == 60_000;
    assert [a, b][..1] == [a] && [a][..0] == [];
    assert Run([a], 1).verdicts == [true];
  }

  lemma CountsBoth(a: Call, b: Call)
    requires a.key == b.key && a.now == 59_999 && b.now == 60_000
    ensures AdmittedFrom([a, b], [true, true], a.key, 59_999) == 2
  {
    assert [a, b][..1] == [a] && [true, true][..1] == [true] && [a][..0] == [] && [true][..0] == [];
    assert AdmittedFrom([a], [true], a.key, 59_999) == 1;
  }

  /** The bound is met: two calls a millisecond apart across a window edge both pass a limit of one. */
  lemma TwiceLimitIsReached(key: string)
    ensures AdmittedFrom([Call(key, 59_999), Call(key, 60_000)],
            Run([Call(key, 59_999), Call(key, 60_000)], 1).verdicts, key, 59_999) == 2
  {
    var a, b := Call(key, 59_999), Call(key, 60_000);
    TwoWindowsAdmit(a, b);
    CountsBoth(a, b);
  }
}
