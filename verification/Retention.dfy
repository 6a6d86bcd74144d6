/** Retention: the alarm of `maybeScheduleRetention` / `alarm` and how long rows live. */
module Retention {
  import opened Prelude
  import opened Timestamps
  import opened MessageStore
  import opened Reading

  /** `RETENTION_DAYS`: absent unless it is a finite number. */
  type Days = Option<int>

  predicate Enabled(days: Days) { days.Some? && days.value > 0 }

  function MaybeSchedule(alarm: Option<int>, days: Days, now: int): (r: Option<int>) {
    if !Enabled(days) || alarm.Some? then alarm else Some(now + MS_PER_DAY)
  }

  /** Rows ingested at or before this millisecond are due for deletion. */
  function Horizon(days: Days, now: int): (r: int)
    requires Enabled(days)
  {
    now - days.value * MS_PER_DAY
  }

  // ---- Runs ---------------------------------------------------------------

  /** One stored row and the millisecond it was ingested at. */
  datatype Entry = Entry(row: Row, at: int)

  /** `ever` remembers every row inserted. */
  datatype Life = Life(clock: int, alarm: Option<int>, rows: seq<Row>, ever: set<Entry>)

  /** `Arrive` inserts a row at the current clock; `Restart` is a new instance running
      `ensureSchema`; `Pass` lets time pass, firing every alarm that falls due on time. */
  datatype Event = Arrive(row: Row) | Restart | Pass(until: int)

  function Fire(s: Life, days: Days): (r: Life)
    requires Enabled(days) && s.alarm.Some?
  {
    var now := s.alarm.value;
    s.(clock := now, alarm := Some(now + MS_PER_DAY), rows := Retained(s.rows, ToIsoString(Horizon(days, now))))
  }

  function Elapse(s: Life, days: Days, until: int): (r: Life)
    requires Enabled(days)
    decreases if s.alarm.Some? then until - s.alarm.value else 0
  {
    if s.alarm.Some? && s.alarm.value <= until then Elapse(Fire(s, days), days, until)
      else s.(clock := Max(s.clock, until))
  }

  function Next(s: Life, days: Days, e: Event): (r: Life)
    requires Enabled(days)
  {
    match e
    case Arrive(row) =>
      s.(alarm := MaybeSchedule(s.alarm, days, s.clock), rows := s.rows + [row], ever := s.ever + {Entry(row, s.clock)})
    case Restart => s.(alarm := MaybeSchedule(s.alarm, days, s.clock))
    case Pass(until) => Elapse(s, days, until)
  }

  /** Every comparison of a run stays within years 0 to 9999, where string order is time order. */
  predicate InCalendar(days: Days, now: int) {
    Enabled(days) && FourDigitYear(now) && FourDigitYear(Horizon(days, now))
  }

  predicate Stamped(s: Life, e: Event) {
    match e
    case Arrive(row) => row.ingestedAt == FormatTimestampUtc(s.clock)
    case Restart => true
    case Pass(until) => until < YEAR_10000
  }

  lemma StampKept(rows: seq<Row>, r: Row, at: int, limit: int)
    requires r in rows && r.ingestedAt == FormatTimestampUtc(at) && FourDigitYear(at) && FourDigitYear(limit)
    ensures r in Retained(rows, ToIsoString(limit)) <==> at > limit
  {
    CutoffIsStrict(at, limit);
  }

  /** A firing keeps exactly the rows ingested strictly after `now - days`. */
  lemma FireExact(days: Days, now: int, rows: seq<Row>, r: Row, at: int)
    requires InCalendar(days, now) && FourDigitYear(at) && r in rows && r.ingestedAt == FormatTimestampUtc(at)
    ensures r in Retained(rows, ToIsoString(Horizon(days, now))) <==> at > Horizon(days, now)
  {
    StampKept(rows, r, at, Horizon(days, now));
  }

  ghost predicate Known(s: Life, r: Row, at: int) {
    Entry(r, at) in s.ever && r.ingestedAt == FormatTimestampUtc(at) && FourDigitYear(at) && at <= s.clock
  }

  ghost predicate OutlivedSoon(s: Life, r: Row, days: Days)
    requires Enabled(days)
  {
    s.alarm.Some? && exists at :: Known(s, r, at) && s.alarm.value - at < days.value * MS_PER_DAY + MS_PER_DAY
  }

  ghost predicate RowsDue(s: Life, days: Days)
    requires Enabled(days)
  {
    forall r :: r in s.rows ==> OutlivedSoon(s, r, days)
  }

  ghost predicate AllKnown(s: Life) { forall e :: e in s.ever ==> Known(s, e.row, e.at) }

  ghost predicate YoungStored(s: Life, days: Days)
    requires Enabled(days)
  {
    forall e :: e in s.ever && s.clock - e.at < days.value * MS_PER_DAY ==> e.row in s.rows
  }

  /** Each stored row is younger than days + 24 h even when the pending alarm goes off, and every row
      younger than days is still stored. */
  ghost predicate Inv(s: Life, days: Days) {
    InCalendar(days, s.clock) &&
    (s.alarm.Some? ==> s.clock < s.alarm.value <= s.clock + MS_PER_DAY) &&
    RowsDue(s, days) && AllKnown(s) && YoungStored(s, days)
  }

  /** Inv, except that the clock has reached the alarm. */
  lemma FireKeeps(s: Life, days: Days)
    requires Inv(s, days) && s.alarm.Some? && s.alarm.value < YEAR_10000
    ensures Inv(Fire(s, days), days)
  {
    var now, t := s.alarm.value, Fire(s, days);
    forall r | r in t.rows ensures OutlivedSoon(t, r, days) {
      var at :| Known(s, r, at) && s.alarm.value - at < days.value * MS_PER_DAY + MS_PER_DAY;
      FireExact(days, now, s.rows, r, at);
      assert Known(t, r, at);
    }
    forall e | e in t.ever ensures Known(t, e.row, e.at) &&
      (t.clock - e.at < days.value * MS_PER_DAY ==> e.row in t.rows) {
      assert Known(s, e.row, e.at);
      if t.clock - e.at < days.value * MS_PER_DAY {
        FireExact(days, now, s.rows, e.row, e.at);
      }
    }
  }

  lemma KnownStays(s: Life, t: Life, r: Row, days: Days)
    requires Enabled(days) && OutlivedSoon(s, r, days) && t.alarm == s.alarm && s.clock <= t.clock && s.ever <= t.ever
    ensures OutlivedSoon(t, r, days)
  {
    var at :| Known(s, r, at) && s.alarm.value - at < days.value * MS_PER_DAY + MS_PER_DAY;
    assert Known(t, r, at);
  }

  lemma LaterKeeps(s: Life, days: Days, until: int)
    requires Inv(s, days) && s.clock <= until < YEAR_10000 && (s.alarm.Some? ==> until < s.alarm.value)
    ensures Inv(s.(clock := until), days)
  {
    var t := s.(clock := until);
    forall r | r in t.rows ensures OutlivedSoon(t, r, days) {
      KnownStays(s, t, r, days);
    }
    forall e | e in t.ever ensures Known(t, e.row, e.at) {
      assert Known(s, e.row, e.at);
    }
  }

  lemma {:induction false} ElapseKeeps(s: Life, days: Days, until: int)
    requires Inv(s, days) && until < YEAR_10000
    ensures Inv(Elapse(s, days, until), days)
    decreases if s.alarm.Some? then until - s.alarm.value else 0
  {
    if s.alarm.Some? && s.alarm.value <= until {
      FireKeeps(s, days);
      ElapseKeeps(Fire(s, days), days, until);
    } else {
      LaterKeeps(s, days, Max(s.clock, until));
    }
  }

  lemma ArrivedDue(s: Life, t: Life, days: Days, row: Row)
    requires Enabled(days) && RowsDue(s, days) && t.rows == s.rows + [row] && s.ever <= t.ever && t.clock == s.clock
    requires t.alarm.Some? && (s.alarm.Some? ==> t.alarm == s.alarm) && t.alarm.value <= s.clock + MS_PER_DAY &&
             Known(t, row, s.clock)
    ensures RowsDue(t, days)
  {
    forall r | r in t.rows ensures OutlivedSoon(t, r, days) {
      if r in s.rows {
        KnownStays(s, t, r, days);
      } else {
        assert t.alarm.value - s.clock < days.value * MS_PER_DAY + MS_PER_DAY;
      }
    }
  }

  lemma ArrivedKnown(s: Life, t: Life, row: Row)
    requires AllKnown(s) && t.ever == s.ever + {Entry(row, s.clock)} && t.clock == s.clock && Known(t, row, s.clock)
    ensures AllKnown(t)
  {
    forall e | e in t.ever ensures Known(t, e.row, e.at) {
      if e in s.ever {
        assert Known(s, e.row, e.at);
      }
    }
  }

  lemma ArrivedStored(s: Life, t: Life, days: Days, row: Row)
    requires Enabled(days) && YoungStored(s, days) && t.ever == s.ever + {Entry(row, s.clock)} && t.clock == s.clock &&
             t.rows == s.rows + [row]
    ensures YoungStored(t, days)
  {
  }

  lemma ArriveKeeps(s: Life, days: Days, row: Row)
    requires Inv(s, days) && Stamped(s, Arrive(row))
    ensures Inv(Next(s, days, Arrive(row)), days)
  {
    var t := Next(s, days, Arrive(row));
    assert Known(t, row, s.clock);
    ArrivedDue(s, t, days, row);
    ArrivedKnown(s, t, row);
    ArrivedStored(s, t, days, row);
  }

  lemma NextKeeps(s: Life, days: Days, e: Event)
    requires Inv(s, days) && Stamped(s, e)
    ensures Inv(Next(s, days, e), days)
  {
    match e
    case Arrive(row) => ArriveKeeps(s, days, row);
    case Restart =>
      var t := Next(s, days, e);
      forall r | r in t.rows ensures OutlivedSoon(t, r, days) {
        KnownStays(s, t, r, days);
      }
      forall x | x in t.ever ensures Known(t, x.row, x.at) {
        assert Known(s, x.row, x.at);
      }
    case Pass(until) => ElapseKeeps(s, days, until);
  }

  function RunFrom(s: Life, days: Days, events: seq<Event>): (t: Life)
    requires Enabled(days)
  {
    if events == [] then s else Next(RunFrom(s, days, events[..|events| - 1]), days, events[|events| - 1])
  }

  /** The life of an initially empty store whose first instance starts at `start`. */
  function Run(start: int, days: Days, events: seq<Event>): (t: Life)
    requires Enabled(days)
  {
    RunFrom(Life(start, None, [], {}), days, events)
  }

  /** Each arriving row carries the stamp of the clock it arrives at. */
  predicate AllStamped(start: int, days: Days, events: seq<Event>)
    requires Enabled(days)
  {
    events == [] ||
    (AllStamped(start, days, events[..|events| - 1]) &&
      Stamped(Run(start, days, events[..|events| - 1]), events[|events| - 1]))
  }

  lemma {:induction false} RunInv(start: int, days: Days, events: seq<Event>)
    requires InCalendar(days, start) && AllStamped(start, days, events)
    ensures Inv(Run(start, days, events), days)
  {
    if events == [] {
    } else {
      RunInv(start, days, events[..|events| - 1]);
      NextKeeps(Run(start, days, events[..|events| - 1]), days, events[|events| - 1]);
    }
  }

  /** With alarms on time, however often the instance restarts, no row outlives the retention period
      plus 24 hours and none younger than the period is lost. */
  lemma RowLifetime(start: int, days: Days, events: seq<Event>)
    requires InCalendar(days, start) && AllStamped(start, days, events)
    ensures var s := Run(start, days, events);
            (forall r :: r in s.rows ==> exists at ::
              Entry(r, at) in s.ever && s.clock - at < days.value * MS_PER_DAY + MS_PER_DAY) &&
            forall e :: e in s.ever && s.clock - e.at < days.value * MS_PER_DAY ==> e.row in s.rows
  {
    var s := Run(start, days, events);
    RunInv(start, days, events);
    forall r | r in s.rows ensures exists at ::
        Entry(r, at) in s.ever && s.clock - at < days.value * MS_PER_DAY + MS_PER_DAY {
      var at :| Known(s, r, at) && s.alarm.value - at < days.value * MS_PER_DAY + MS_PER_DAY;
    }
  }

  function WithoutRestarts(events: seq<Event>): (kept: seq<Event>) {
    if events == [] then []
    else WithoutRestarts(events[..|events| - 1]) + if events[|events| - 1].Restart? then [] else [events[|events| - 1]]
  }

  lemma {:induction false} ElapsePending(s: Life, days: Days, until: int)
    requires Enabled(days) && s.alarm.Some?
    ensures Elapse(s, days, until).alarm.Some?
    decreases until - s.alarm.value
  {
    if s.alarm.value > until {
    } else {
      ElapsePending(Fire(s, days), days, until);
    }
  }

  lemma {:induction false} StaysPending(s: Life, days: Days, events: seq<Event>)
    requires Enabled(days) && s.alarm.Some?
    ensures RunFrom(s, days, events).alarm.Some?
  {
    if events == [] {
    } else {
      var n := |events| - 1;
      StaysPending(s, days, events[..n]);
      if events[n].Pass? {
        ElapsePending(RunFrom(s, days, events[..n]), days, events[n].until);
      }
    }
  }

  lemma RunSnoc(s: Life, days: Days, events: seq<Event>, e: Event)
    requires Enabled(days)
    ensures RunFrom(s, days, events + [e]) == Next(RunFrom(s, days, events), days, e)
  {
    assert (events + [e])[..|events|] == events;
  }

  lemma RestartIgnored(s: Life, days: Days)
    requires Enabled(days) && s.alarm.Some?
    ensures Next(s, days, Restart) == s
  {
  }

  /** Once an alarm is pending, restarts change nothing: however they are mixed with arrivals and the passing
      of time, alarm, clock and rows are those of the same run without them. */
  lemma {:induction false} RestartsDoNotPostpone(s: Life, days: Days, events: seq<Event>)
    requires Enabled(days) && s.alarm.Some?
    ensures RunFrom(s, days, events) == RunFrom(s, days, WithoutRestarts(events))
  {
    if events == [] {
    } else {
      var n := |events| - 1;
      var kept := WithoutRestarts(events[..n]);
      RestartsDoNotPostpone(s, days, events[..n]);
      if events[n].Restart? {
        StaysPending(s, days, events[..n]);
        RestartIgnored(RunFrom(s, days, events[..n]), days);
        assert kept + [] == kept;
      } else {
        RunSnoc(s, days, kept, events[n]);
      }
    }
  }
}
