/** The rolling ledger of daily results: profits accumulate into a day, closed days go into a
    bounded window, and returns and drawdown are read off the window. Exact reals; days are
    integers. */
module RollingPerformance {
  import opened Options
  import opened Reals

  datatype Day = Day(date: int, pnl: real, equity: real)

  // ----- The ledger -----------------------------------------------------------------

  datatype State = State(history: seq<Day>, currentDay: Option<int>, currentPnl: real, runningEquity: real)

  /** A queue of at most `max` days, the oldest dropped first. */
  function Push(history: seq<Day>, d: Day, max: nat): seq<Day> {
    LastDays(history + [d], max)
  }

  function LastDays(days: seq<Day>, max: nat): seq<Day> {
    if |days| <= max then days else days[|days| - max..]
  }

  /** `window` holds the newest days of `all`, in order, and as many as it may. */
  ghost predicate Newest(window: seq<Day>, all: seq<Day>, max: nat) {
    && |window| == (if |all| < max then |all| else max)
    && forall k :: 0 <= k < |window| ==> window[k] == all[|all| - |window| + k]
  }

  lemma LastDaysNewest(days: seq<Day>, max: nat)
    ensures Newest(LastDays(days, max), days, max)
  {
    if |days| > max {
      var from := |days| - max;
      assert forall k :: 0 <= k < max ==> days[from..][k] == days[from + k];
    }
  }

  function ClosedDay(st: State): Day
    requires st.currentDay.Some?
  {
    Day(st.currentDay.value, st.currentPnl, st.runningEquity + st.currentPnl)
  }

  function Commit(st: State, max: nat): State
    requires st.currentDay.Some?
  {
    State(Push(st.history, ClosedDay(st), max), st.currentDay, 0.0, st.runningEquity + st.currentPnl)
  }

  /** The day's profit has moved into the equity, and the day into the window behind the others,
      of which the oldest make room. */
  ghost predicate Committed(st: State, after: State, max: nat) {
    && st.currentDay.Some? && after.currentDay == st.currentDay && after.currentPnl == 0.0
    && after.runningEquity == st.runningEquity + st.currentPnl
    && Newest(after.history, st.history + [Day(st.currentDay.value, st.currentPnl, after.runningEquity)], max)
  }

  lemma CommitExactly(st: State, max: nat)
    requires st.currentDay.Some?
    ensures Committed(st, Commit(st, max), max)
  {
    LastDaysNewest(st.history + [ClosedDay(st)], max);
  }

  /** What can happen to the ledger: a profit is recorded, or the day is rolled, on a given
      day. */
  datatype Event = Record(pnl: real, day: int) | Roll(day: int)

  predicate Closes(st: State, e: Event) {
    st.currentDay.Some? && (e.Roll? || e.day > st.currentDay.value)
  }

  function Step(st: State, e: Event, max: nat): State {
    var rolled :=
      if Closes(st, e) then Commit(st, max).(currentDay := Some(e.day))
      else if st.currentDay.None? then st.(currentDay := Some(e.day))
      else st;
    match e
    case Record(pnl, _) => rolled.(currentPnl := rolled.currentPnl + pnl)
    case Roll(_) => rolled
  }

  function Initial(equity: real): State { State([], None, 0.0, equity) }

  function Run(equity: real, events: seq<Event>, max: nat): State {
    if events == [] then Initial(equity)
    else Step(Run(equity, events[..|events| - 1], max), events[|events| - 1], max)
  }

  function CurrentEquity(st: State): real { st.runningEquity + st.currentPnl }

  class Ledger {
    const windowDays: nat
    var history: seq<Day>
    var currentDay: Option<int>
    var currentPnl: real
    var runningEquity: real

    constructor (initialEquity: real, windowDays: nat)
      ensures Now() == Initial(initialEquity) && this.windowDays == windowDays
    {
      this.windowDays := windowDays;
      history, currentDay, currentPnl, runningEquity := [], None, 0.0, initialEquity;
    }

    function Now(): State
      reads this
    {
      State(history, currentDay, currentPnl, runningEquity)
    }

    method RecordPnl(pnl: real, day: int)
      modifies this
      ensures Now() == Step(old(Now()), Record(pnl, day), windowDays)
    {
      if currentDay.None? {
        currentDay := Some(day);
      } else if day > currentDay.value {
        CommitCurrent();
        currentDay := Some(day);
      }
      currentPnl := currentPnl + pnl;
    }

    method RollDay(day: int)
      modifies this
      ensures Now() == Step(old(Now()), Roll(day), windowDays)
    {
      if currentDay.None? {
        currentDay := Some(day);
        return;
      }
      CommitCurrent();
      currentDay := Some(day);
    }

    method CommitCurrent()
      modifies this
      ensures Now() == if old(currentDay).None? then old(Now()) else Commit(old(Now()), windowDays)
      ensures old(currentDay).Some? ==> Committed(old(Now()), Now(), windowDays)
    {
      if currentDay.None? {
        return;
      }
      CommitExactly(Now(), windowDays);
      runningEquity := runningEquity + currentPnl;
      history := Push(history, Day(currentDay.value, currentPnl, runningEquity), windowDays);
      currentPnl := 0.0;
      assert Now() == Commit(old(Now()), windowDays);
    }

    method DailyReturns() returns (fractions: seq<real>)
      ensures fractions == Returns(history)
      ensures |fractions| == |history| && forall i :: 0 <= i < |history| ==> IsReturn(history, i, fractions[i])
    {
      ReturnsExactly(history);
      fractions := [];
      var prevEquity := if history != [] then history[0].equity - history[0].pnl else 0.0;
      for i := 0 to |history|
        invariant fractions == Returns(history)[..i]
        invariant history != [] ==> prevEquity == EquityBefore(history, i)
      {
        var base := if prevEquity != 0.0 then prevEquity else 1.0;
        fractions := fractions + [history[i].pnl / base];
        prevEquity := history[i].equity;
      }
    }

    method MddPct() returns (pct: real)
      ensures pct == if history == [] then 0.0 else 100.0 * Drawdown(history, |history| - 1)
      ensures IsLargestFall(history, pct / 100.0)
    {
      if history != [] { DrawdownExactly(history, Drawdown(history, |history| - 1)); }
      if history == [] {
        return 0.0;
      }
      var peak, maxDd := history[0].equity, 0.0;
      for i := 0 to |history|
        invariant i == 0 ==> peak == history[0].equity && maxDd == 0.0
        invariant i > 0 ==> peak == PeakEquity(history, i - 1) && maxDd == Drawdown(history, i - 1)
      {
        if history[i].equity > peak {
          peak := history[i].equity;
        }
        if peak > 0.0 {
          var dd := (peak - history[i].equity) / peak;
          if dd > maxDd {
            maxDd := dd;
          }
        }
      }
      return maxDd * 100.0;
    }
  }

  // ----- Conservation of equity -----------------------------------------------------

  function TotalRecorded(events: seq<Event>): real {
    if events == [] then 0.0
    else
      var rest, e := TotalRecorded(events[..|events| - 1]), events[|events| - 1];
      if e.Record? then rest + e.pnl else rest
  }

  /** However many days have left the window, the current equity is the initial equity plus
      every profit ever recorded. */
  lemma {:induction false} EquityConserved(equity: real, events: seq<Event>, max: nat)
    ensures CurrentEquity(Run(equity, events, max)) == equity + TotalRecorded(events)
  {
    if events != [] {
      EquityConserved(equity, events[..|events| - 1], max);
    }
  }

  /** All days ever closed, in order. */
  function ClosedDays(equity: real, events: seq<Event>, max: nat): seq<Day> {
    if events == [] then []
    else
      var init, e := events[..|events| - 1], events[|events| - 1];
      var st, rest := Run(equity, init, max), ClosedDays(equity, init, max);
      if Closes(st, e) then rest + [ClosedDay(st)] else rest
  }

  /** Each day opens with the equity at which the one before closed. */
  ghost predicate Chained(days: seq<Day>, opening: real) {
    forall i :: 0 <= i < |days| ==> days[i].equity == OpeningOf(days, i, opening) + days[i].pnl
  }

  function OpeningOf(days: seq<Day>, i: nat, opening: real): real
    requires i <= |days|
  {
    if i == 0 then opening else days[i - 1].equity
  }

  /** Between events the running equity is that of the last closed day. */
  ghost predicate Settled(st: State, days: seq<Day>, equity: real) {
    && Chained(days, equity)
    && st.runningEquity == OpeningOf(days, |days|, equity)
  }

  lemma SettledStep(st: State, days: seq<Day>, equity: real, e: Event, max: nat)
    requires Settled(st, days, equity)
    ensures Settled(Step(st, e, max), if Closes(st, e) then days + [ClosedDay(st)] else days, equity)
  {
    if Closes(st, e) {
      var more := days + [ClosedDay(st)];
      forall i | 0 <= i < |more| ensures more[i].equity == OpeningOf(more, i, equity) + more[i].pnl {
        assert OpeningOf(more, i, equity) == OpeningOf(days, i, equity);
      }
    }
  }

  lemma {:induction false} ClosedDaysChained(equity: real, events: seq<Event>, max: nat)
    ensures Settled(Run(equity, events, max), ClosedDays(equity, events, max), equity)
  {
    if events != [] {
      var init := events[..|events| - 1];
      ClosedDaysChained(equity, init, max);
      SettledStep(Run(equity, init, max), ClosedDays(equity, init, max), equity, events[|events| - 1], max);
    } else {
      assert ClosedDays(equity, events, max) == [];
    }
  }

  lemma {:induction false} HistoryIsNewest(equity: real, events: seq<Event>, max: nat)
    ensures Run(equity, events, max).history == LastDays(ClosedDays(equity, events, max), max)
  {
    if events != [] {
      var init, e := events[..|events| - 1], events[|events| - 1];
      HistoryIsNewest(equity, init, max);
      var st := Run(equity, init, max);
      PushNewest(ClosedDays(equity, init, max), if Closes(st, e) then ClosedDay(st) else Day(0, 0.0, 0.0), max);
    }
  }

  /** The window holds the newest closed days, and all closed days chain up from the initial
      equity to the running one. */
  lemma WindowIsNewestDays(equity: real, events: seq<Event>, max: nat)
    ensures var st, days := Run(equity, events, max), ClosedDays(equity, events, max);
      && Newest(st.history, days, max) && Contiguous(st.history)
      && Chained(days, equity)
      && st.runningEquity == OpeningOf(days, |days|, equity)
  {
    LastDaysNewest(ClosedDays(equity, events, max), max);
    HistoryIsNewest(equity, events, max);
    ClosedDaysChained(equity, events, max);
    LastDaysContiguous(ClosedDays(equity, events, max), max, equity);
  }

  /** The day that an event closes is the last of the window, unless there is no window. */
  lemma ClosedDayEntersWindow(equity: real, events: seq<Event>, e: Event, max: nat)
    requires max >= 1 && Closes(Run(equity, events, max), e)
    ensures var st, window := Run(equity, events, max), Run(equity, events + [e], max).history;
      window != [] &&
      window[|window| - 1] == Day(st.currentDay.value, st.currentPnl, st.runningEquity + st.currentPnl)
  {
    assert (events + [e])[..|events|] == events;
    WindowIsNewestDays(equity, events + [e], max);
  }

  lemma PushNewest(days: seq<Day>, d: Day, max: nat)
    ensures Push(LastDays(days, max), d, max) == LastDays(days + [d], max)
  {
  }

  // ----- Days as segments of the run ------------------------------------------------

  /** The profit recorded from event `lo` up to, and not including, event `hi`. */
  function Recorded(events: seq<Event>, lo: nat, hi: nat): real
    requires hi <= |events|
  {
    if hi <= lo then 0.0
    else Recorded(events, lo, hi - 1) + if events[hi - 1].Record? then events[hi - 1].pnl else 0.0
  }

  /** After event `s` opened a day, event `i` opens another: a roll, or a later date. */
  predicate OpensAfter(events: seq<Event>, s: nat, i: nat)
    requires s < |events| && i < |events|
  {
    events[i].Roll? || events[i].day > events[s].day
  }

  /** The events that open a day: the first one, and after each the next that opens another. */
  ghost predicate DayStarts(events: seq<Event>, starts: seq<nat>) {
    && (starts == [] <==> events == [])
    && (starts != [] ==> starts[0] == 0)
    && (forall k :: 0 <= k < |starts| ==> starts[k] < |events|)
    && (forall k :: 0 < k < |starts| ==> starts[k - 1] < starts[k] && OpensAfter(events, starts[k - 1], starts[k]))
    && (forall k, i: nat :: 0 <= k < |starts| && starts[k] < i < EndOf(events, starts, k) ==>
          !OpensAfter(events, starts[k], i))
  }

  /** Where the `k`-th day ends: in front of the next start. */
  function EndOf(events: seq<Event>, starts: seq<nat>, k: int): nat
    requires 0 <= k < |starts|
  {
    if k + 1 < |starts| && starts[k + 1] <= |events| then starts[k + 1] else |events|
  }

  /** Every day but the last is closed, with its date, the profits recorded while it was open
      and the equity of all profits so far; the last is open. */
  ghost predicate Segmented(st: State, days: seq<Day>, events: seq<Event>, starts: seq<nat>, equity: real)
    requires DayStarts(events, starts)
  {
    && |days| == (if starts == [] then 0 else |starts| - 1)
    && (forall k :: 0 <= k < |days| ==> SegmentIs(days, events, starts, k, equity))
    && (starts == [] ==> st.currentDay == None && st.currentPnl == 0.0 && st.runningEquity == equity)
    && (starts != [] ==>
          var last := starts[|starts| - 1];
          && st.currentDay == Some(events[last].day) && st.currentPnl == Recorded(events, last, |events|)
          && st.runningEquity == equity + Recorded(events, 0, last))
  }

  ghost predicate SegmentIs(days: seq<Day>, events: seq<Event>, starts: seq<nat>, k: int, equity: real)
    requires DayStarts(events, starts) && 0 <= k < |days| && |days| < |starts|
  {
    days[k] == Day(events[starts[k]].day, Recorded(events, starts[k], starts[k + 1]),
                   equity + Recorded(events, 0, starts[k + 1]))
  }

  lemma {:induction false} RecordedPrefix(events: seq<Event>, e: Event, lo: nat, hi: nat)
    requires hi <= |events|
    ensures Recorded(events + [e], lo, hi) == Recorded(events, lo, hi)
  {
    if hi > lo {
      RecordedPrefix(events, e, lo, hi - 1);
    }
  }

  lemma {:induction false} RecordedJoin(events: seq<Event>, lo: nat, mid: nat, hi: nat)
    requires lo <= mid <= hi <= |events|
    ensures Recorded(events, lo, hi) == Recorded(events, lo, mid) + Recorded(events, mid, hi)
  {
    if hi > mid {
      RecordedJoin(events, lo, mid, hi - 1);
    }
  }

  /** The starts without the last event. */
  function StartsBefore(starts: seq<nat>, n: nat): seq<nat> {
    if starts != [] && starts[|starts| - 1] == n then starts[..|starts| - 1] else starts
  }

  lemma {:induction false} StartsIncrease(events: seq<Event>, starts: seq<nat>, j: nat, k: nat)
    requires DayStarts(events, starts) && j < k < |starts|
    ensures starts[j] < starts[k]
  {
    if j < k - 1 {
      StartsIncrease(events, starts, j, k - 1);
    }
  }

  lemma StartsBeforeAreStarts(events: seq<Event>, e: Event, starts: seq<nat>)
    requires DayStarts(events + [e], starts)
    ensures DayStarts(events, StartsBefore(starts, |events|))
  {
    var n, all, before := |events|, events + [e], StartsBefore(starts, |events|);
    forall k | 0 <= k < |before| ensures starts[k] < n {
      if k < |starts| - 1 { StartsIncrease(all, starts, k, |starts| - 1); }
    }
    forall k, i: nat | 0 <= k < |before| && starts[k] < i < EndOf(events, before, k)
      ensures !OpensAfter(events, before[k], i)
    {
      assert i < EndOf(all, starts, k) && !OpensAfter(all, starts[k], i);
    }
    forall k | 0 < k < |before| ensures OpensAfter(events, before[k - 1], before[k]) {
      assert OpensAfter(all, starts[k - 1], starts[k]);
    }
  }

  lemma OpenDay(st: State, days: seq<Day>, events: seq<Event>, starts: seq<nat>, equity: real)
    requires starts != [] && DayStarts(events, starts) && Segmented(st, days, events, starts, equity)
    ensures var last := starts[|starts| - 1];
      && last < |events| && st.currentDay == Some(events[last].day)
      && st.currentPnl == Recorded(events, last, |events|)
      && st.runningEquity + st.currentPnl == equity + Recorded(events, 0, |events|)
  {
    RecordedJoin(events, 0, starts[|starts| - 1], |events|);
  }

  /** Days that were closed stay so. */
  lemma SegmentsKept(days: seq<Day>, events: seq<Event>, e: Event, starts: seq<nat>, more: seq<nat>, k: nat,
                     equity: real)
    requires DayStarts(events, starts) && DayStarts(events + [e], more) && k < |days| < |starts| <= |more|
    requires more[..|starts|] == starts && SegmentIs(days, events, starts, k, equity)
    ensures SegmentIs(days, events + [e], more, k, equity)
  {
    assert more[k] == starts[k] && more[k + 1] == starts[k + 1];
    RecordedPrefix(events, e, starts[k], starts[k + 1]);
    RecordedPrefix(events, e, 0, starts[k + 1]);
  }

  /** An event that opens no day. */
  lemma SegmentsGoOn(st: State, days: seq<Day>, events: seq<Event>, e: Event, starts: seq<nat>, equity: real,
                     max: nat)
    requires DayStarts(events, starts) && DayStarts(events + [e], starts) && starts != []
    requires Segmented(st, days, events, starts, equity)
    ensures !Closes(st, e) && Segmented(Step(st, e, max), days, events + [e], starts, equity)
  {
    var all, last := events + [e], starts[|starts| - 1];
    OpenDay(st, days, events, starts, equity);
    assert EndOf(all, starts, |starts| - 1) == |all| && !OpensAfter(all, last, |events|);
    assert starts[..|starts|] == starts;
    forall k | 0 <= k < |days| ensures SegmentIs(days, all, starts, k, equity) {
      SegmentsKept(days, events, e, starts, starts, k, equity);
    }
    RecordedPrefix(events, e, last, |events|);
    RecordedPrefix(events, e, 0, last);
  }

  /** An event that opens another day. */
  lemma SegmentCloses(st: State, days: seq<Day>, events: seq<Event>, e: Event, starts: seq<nat>, equity: real,
                      max: nat)
    requires starts != [] && DayStarts(events, starts) && DayStarts(events + [e], starts + [|events|])
    requires Segmented(st, days, events, starts, equity)
    ensures Closes(st, e)
    ensures Segmented(Step(st, e, max), days + [ClosedDay(st)], events + [e], starts + [|events|], equity)
  {
    var all, more, closed := events + [e], starts + [|events|], days + [ClosedDay(st)];
    var n := |starts|;
    OpenDay(st, days, events, starts, equity);
    assert more[n - 1] == starts[n - 1] && more[n] == |events| && OpensAfter(all, more[n - 1], more[n]);
    forall k | 0 <= k < |closed| ensures SegmentIs(closed, all, more, k, equity) {
      if k < |days| {
        SegmentsKept(days, events, e, starts, more, k, equity);
      } else {
        RecordedPrefix(events, e, starts[n - 1], |events|);
        RecordedPrefix(events, e, 0, |events|);
      }
    }
    RecordedPrefix(events, e, 0, |events|);
  }

  lemma SegmentsNext(st: State, days: seq<Day>, events: seq<Event>, e: Event, before: seq<nat>, starts: seq<nat>,
                     equity: real, max: nat)
    requires DayStarts(events, before) && DayStarts(events + [e], starts) && before == StartsBefore(starts, |events|)
    requires Segmented(st, days, events, before, equity)
    ensures var more := if Closes(st, e) then days + [ClosedDay(st)] else days;
      Segmented(Step(st, e, max), more, events + [e], starts, equity)
  {
    if before == starts {
      SegmentsGoOn(st, days, events, e, starts, equity, max);
    } else if before != [] {
      assert starts == before + [|events|];
      SegmentCloses(st, days, events, e, before, equity, max);
    } else {
      assert starts == [0] && events == [];
    }
  }

  lemma RunStep(equity: real, events: seq<Event>, e: Event, max: nat)
    ensures Run(equity, events + [e], max) == Step(Run(equity, events, max), e, max)
    ensures var st, days := Run(equity, events, max), ClosedDays(equity, events, max);
      ClosedDays(equity, events + [e], max) == if Closes(st, e) then days + [ClosedDay(st)] else days
  {
    assert (events + [e])[..|events|] == events;
  }

  /** Over any run, rolls backwards and onto the same day included, the closed days are the
      segments between the events that open a day. */
  lemma {:induction false} DaysAreSegments(equity: real, events: seq<Event>, max: nat, starts: seq<nat>)
    requires DayStarts(events, starts)
    ensures Segmented(Run(equity, events, max), ClosedDays(equity, events, max), events, starts, equity)
  {
    if events != [] {
      var n := |events| - 1;
      var init, e, before := events[..n], events[n], StartsBefore(starts, n);
      assert events == init + [e];
      StartsBeforeAreStarts(init, e, starts);
      DaysAreSegments(equity, init, max, before);
      RunStep(equity, init, e, max);
      SegmentsNext(Run(equity, init, max), ClosedDays(equity, init, max), init, e, before, starts, equity, max);
    }
  }

  /** Every run has such a division. */
  lemma {:induction false} RunHasStarts(events: seq<Event>) returns (starts: seq<nat>)
    ensures DayStarts(events, starts)
  {
    if events == [] {
      starts := [];
    } else {
      var n := |events| - 1;
      var before := RunHasStarts(events[..n]);
      starts := if n == 0 || OpensAfter(events, before[|before| - 1], n) then before + [n] else before;
      StartsNext(events[..n], events[n], before);
      assert events == events[..n] + [events[n]];
    }
  }

  lemma StartsNext(events: seq<Event>, e: Event, starts: seq<nat>)
    requires DayStarts(events, starts)
    ensures var n, all := |events|, events + [e];
      DayStarts(all, if n == 0 || OpensAfter(all, starts[|starts| - 1], n) then starts + [n] else starts)
  {
    var n, all := |events|, events + [e];
    var more := if n == 0 || OpensAfter(all, starts[|starts| - 1], n) then starts + [n] else starts;
    forall k, i: nat | 0 <= k < |more| && more[k] < i < EndOf(all, more, k) ensures !OpensAfter(all, more[k], i) {
      if i < n {
        assert starts[k] < i < EndOf(events, starts, k) && !OpensAfter(events, starts[k], i);
      }
    }
    forall k | 0 < k < |more| ensures more[k - 1] < more[k] && OpensAfter(all, more[k - 1], more[k]) {
      if k < |starts| { assert OpensAfter(events, starts[k - 1], starts[k]); }
    }
  }

  // ----- What a day holds -----------------------------------------------------------

  /** The latest day among the events. */
  function LatestDay(events: seq<Event>): Option<int> {
    if events == [] then None
    else
      var before, day := LatestDay(events[..|events| - 1]), events[|events| - 1].day;
      if before.None? || day > before.value then Some(day) else before
  }

  /** The profit recorded while `day` was the latest day seen. */
  function RecordedOn(events: seq<Event>, day: int): real {
    if events == [] then 0.0
    else
      var rest, e := RecordedOn(events[..|events| - 1], day), events[|events| - 1];
      if e.Record? && LatestDay(events) == Some(day) then rest + e.pnl else rest
  }

  ghost predicate Increasing(days: seq<Day>) {
    forall i, j :: 0 <= i < j < |days| ==> days[i].date < days[j].date
  }

  /** The closed days are distinct and in order, lie before the latest one, and hold what was
      recorded on them. */
  ghost predicate Booked(days: seq<Day>, events: seq<Event>) {
    && Increasing(days)
    && (forall i :: 0 <= i < |days| ==>
          && LatestDay(events).Some? && days[i].date < LatestDay(events).value
          && days[i].pnl == RecordedOn(events, days[i].date))
  }

  predicate Ahead(events: seq<Event>, day: int) {
    LatestDay(events).None? || day > LatestDay(events).value
  }

  /** Every roll names a day later than all days before it. */
  predicate RollsForward(events: seq<Event>) {
    events == [] ||
    var init, e := events[..|events| - 1], events[|events| - 1];
    RollsForward(init) && (e.Roll? ==> Ahead(init, e.day))
  }

  lemma {:induction false} NothingRecordedAhead(events: seq<Event>, day: int)
    requires Ahead(events, day)
    ensures RecordedOn(events, day) == 0.0
  {
    if events != [] {
      NothingRecordedAhead(events[..|events| - 1], day);
    }
  }

  /** The open day is the latest one and holds what was recorded on it; so do the closed ones. */
  ghost predicate InStep(st: State, days: seq<Day>, events: seq<Event>) {
    && st.currentDay == LatestDay(events) && Booked(days, events)
    && (events != [] ==> st.currentDay.Some? && st.currentPnl == RecordedOn(events, st.currentDay.value))
    && (events == [] ==> st.currentPnl == 0.0)
  }

  /** Two closed days are out of order, or the next one to close will be. */
  ghost predicate OutOfStep(st: State, days: seq<Day>, events: seq<Event>) {
    && st.currentDay.Some? && LatestDay(events).Some? && days != []
    && (Increasing(days) ==>
      st.currentDay.value <= days[|days| - 1].date && LatestDay(events).value <= days[|days| - 1].date)
  }

  lemma StaysInStep(st: State, days: seq<Day>, init: seq<Event>, e: Event, max: nat)
    requires InStep(st, days, init) && (e.Roll? ==> Ahead(init, e.day))
    ensures InStep(Step(st, e, max), if Closes(st, e) then days + [ClosedDay(st)] else days, init + [e])
  {
    assert (init + [e])[..|init|] == init;
    if Closes(st, e) || init == [] {
      NothingRecordedAhead(init, e.day);
    }
  }

  lemma FallsOutOfStep(st: State, days: seq<Day>, init: seq<Event>, e: Event, max: nat)
    requires InStep(st, days, init) && e.Roll? && !Ahead(init, e.day)
    ensures OutOfStep(Step(st, e, max), days + [ClosedDay(st)], init + [e])
  {
    assert (init + [e])[..|init|] == init;
  }

  lemma IncreasingAppend(days: seq<Day>, d: Day)
    ensures Increasing(days + [d]) <==> Increasing(days) && (days == [] || days[|days| - 1].date < d.date)
  {
    var more := days + [d];
    if Increasing(more) {
      assert forall i :: 0 <= i < |days| ==> days[i] == more[i];
      assert days != [] ==> more[|days| - 1].date < more[|days|].date;
    }
  }

  lemma StaysOutOfStep(st: State, days: seq<Day>, init: seq<Event>, e: Event, max: nat)
    requires OutOfStep(st, days, init)
    ensures OutOfStep(Step(st, e, max), if Closes(st, e) then days + [ClosedDay(st)] else days, init + [e])
  {
    assert (init + [e])[..|init|] == init;
    IncreasingAppend(days, ClosedDay(st));
  }

  lemma {:induction false} InStepExactly(equity: real, events: seq<Event>, max: nat)
    ensures var st, days := Run(equity, events, max), ClosedDays(equity, events, max);
      if RollsForward(events) then InStep(st, days, events) else OutOfStep(st, days, events)
  {
    if events != [] {
      var init, e := events[..|events| - 1], events[|events| - 1];
      var st, days := Run(equity, init, max), ClosedDays(equity, init, max);
      InStepExactly(equity, init, max);
      assert events == init + [e];
      if !RollsForward(init) {
        StaysOutOfStep(st, days, init, e, max);
      } else if e.Roll? && !Ahead(init, e.day) {
        FallsOutOfStep(st, days, init, e, max);
      } else {
        StaysInStep(st, days, init, e, max);
      }
    }
  }

  /** Each day closes at most once, in order, with exactly the profits recorded while it was
      the latest day, if and only if every explicit roll moves on to a later day. Then the open
      day, too, is the latest one and holds what was recorded on it. */
  lemma DaysHoldTheirProfits(equity: real, events: seq<Event>, max: nat)
    ensures Booked(ClosedDays(equity, events, max), events) <==> RollsForward(events)
    ensures RollsForward(events) ==>
      var st := Run(equity, events, max);
      && st.currentDay == LatestDay(events)
      && (events != [] ==> st.currentPnl == RecordedOn(events, st.currentDay.value))
  {
    InStepExactly(equity, events, max);
  }

  // ----- Late profits ---------------------------------------------------------------

  /** The profit that carries the date `day`. */
  function DatedOn(events: seq<Event>, day: int): real {
    if events == [] then 0.0
    else
      var rest, e := DatedOn(events[..|events| - 1], day), events[|events| - 1];
      if e.Record? && e.day == day then rest + e.pnl else rest
  }

  /** The profit with another, earlier date that arrived while `day` was the latest one. */
  function LateInto(events: seq<Event>, day: int): real {
    if events == [] then 0.0
    else
      var rest, e := LateInto(events[..|events| - 1], day), events[|events| - 1];
      if e.Record? && LatestDay(events) == Some(day) && e.day != day then rest + e.pnl else rest
  }

  /** The profit that carries the date `day` and arrived when a later day had come. */
  function LateFrom(events: seq<Event>, day: int): real {
    if events == [] then 0.0
    else
      var rest, e := LateFrom(events[..|events| - 1], day), events[|events| - 1];
      if e.Record? && LatestDay(events) != Some(day) && e.day == day then rest + e.pnl else rest
  }

  lemma {:induction false} LateBalance(events: seq<Event>, day: int)
    ensures RecordedOn(events, day) + LateFrom(events, day) == DatedOn(events, day) + LateInto(events, day)
  {
    if events != [] {
      LateBalance(events[..|events| - 1], day);
    }
  }

  /** A closed day of a run that rolls forward holds the profits of its own date if and only if
      the late profits it received add up to those it lost to later days. */
  lemma OwnProfitsExactly(equity: real, events: seq<Event>, max: nat, i: nat)
    requires RollsForward(events) && i < |ClosedDays(equity, events, max)|
    ensures var d := ClosedDays(equity, events, max)[i];
      d.pnl == DatedOn(events, d.date) <==> LateInto(events, d.date) == LateFrom(events, d.date)
  {
    DaysHoldTheirProfits(equity, events, max);
    LateBalance(events, ClosedDays(equity, events, max)[i].date);
  }

  /** No profit arrives after a later day has come. */
  predicate NoneLate(events: seq<Event>) {
    events == [] ||
    var e := events[|events| - 1];
    NoneLate(events[..|events| - 1]) && (e.Record? ==> LatestDay(events) == Some(e.day))
  }

  lemma {:induction false} NoneLateSums(events: seq<Event>, day: int)
    requires NoneLate(events)
    ensures LateInto(events, day) == 0.0 && LateFrom(events, day) == 0.0
  {
    if events != [] {
      NoneLateSums(events[..|events| - 1], day);
    }
  }

  /** In particular, when no profit is late every closed day holds those of its own date. */
  lemma OwnProfitsWithoutLate(equity: real, events: seq<Event>, max: nat, i: nat)
    requires RollsForward(events) && NoneLate(events) && i < |ClosedDays(equity, events, max)|
    ensures var d := ClosedDays(equity, events, max)[i]; d.pnl == DatedOn(events, d.date)
  {
    NoneLateSums(events, ClosedDays(equity, events, max)[i].date);
    OwnProfitsExactly(equity, events, max, i);
  }

  lemma DatedNext(events: seq<Event>, e: Event, day: int)
    ensures DatedOn(events + [e], day) == DatedOn(events, day) + if e.Record? && e.day == day then e.pnl else 0.0
  {
    assert (events + [e])[..|events|] == events;
  }

  lemma ForwardNext(events: seq<Event>, e: Event)
    ensures e.Record? ==> (RollsForward(events + [e]) <==> RollsForward(events))
  {
    assert (events + [e])[..|events|] == events;
  }

  /** A profit of day 1 that arrives on day 2 is booked on day 2. */
  lemma LateProfitMisdated(x: real, y: real)
    ensures var events := [Record(x, 2), Record(y, 1), Record(0.0, 3)];
      && RollsForward(events) && ClosedDays(0.0, events, 30) == [Day(2, x + y, x + y)]
      && DatedOn(events, 2) == x && DatedOn(events, 1) == y
  {
    var a, b, c := Record(x, 2), Record(y, 1), Record(0.0, 3);
    assert [] + [a] == [a] && [a] + [b] == [a, b] && [a, b] + [c] == [a, b, c];
    RunStep(0.0, [], a, 30);
    RunStep(0.0, [a], b, 30);
    RunStep(0.0, [a, b], c, 30);
    ForwardNext([], a);
    ForwardNext([a], b);
    ForwardNext([a, b], c);
    LateDates(a, b, c);
  }

  lemma LateDates(a: Event, b: Event, c: Event)
    requires a.Record? && b.Record? && c.Record? && a.day == 2 && b.day == 1 && c.day == 3
    ensures DatedOn([a, b, c], 2) == a.pnl && DatedOn([a, b, c], 1) == b.pnl
  {
    assert [] + [a] == [a] && [a] + [b] == [a, b] && [a, b] + [c] == [a, b, c];
    DatedNext([a, b], c, 2);
    DatedNext([a, b], c, 1);
    DatedNext([a], b, 2);
    DatedNext([a], b, 1);
    DatedNext([], a, 2);
    DatedNext([], a, 1);
  }

  // ----- The dates of closed days ---------------------------------------------------

  ghost predicate ClosesAt(equity: real, events: seq<Event>, max: nat, i: int) {
    0 <= i < |events| && Closes(Run(equity, events[..i], max), events[i])
  }

  /** The `i`-th event, which closes a day, opens a later one. */
  ghost predicate MovesOn(equity: real, events: seq<Event>, max: nat, i: int)
    requires ClosesAt(equity, events, max, i)
  {
    events[i].day > Run(equity, events[..i], max).currentDay.value
  }

  lemma ClosesEarlier(equity: real, events: seq<Event>, max: nat, i: nat)
    requires i < |events| - 1
    ensures ClosesAt(equity, events[..|events| - 1], max, i) <==> ClosesAt(equity, events, max, i)
    ensures ClosesAt(equity, events, max, i) ==>
      (MovesOn(equity, events[..|events| - 1], max, i) <==> MovesOn(equity, events, max, i))
  {
    assert events[..|events| - 1][..i] == events[..i];
  }

  lemma {:induction false} NoneClosed(equity: real, events: seq<Event>, max: nat, i: nat)
    requires ClosedDays(equity, events, max) == []
    ensures !ClosesAt(equity, events, max, i)
  {
    if i < |events| - 1 {
      NoneClosed(equity, events[..|events| - 1], max, i);
      ClosesEarlier(equity, events, max, i);
    }
  }

  /** The open day was opened by the event that closed the last one. */
  lemma {:induction false} LastClosing(equity: real, events: seq<Event>, max: nat) returns (c: nat)
    requires ClosedDays(equity, events, max) != []
    ensures ClosesAt(equity, events, max, c) && forall k :: c < k ==> !ClosesAt(equity, events, max, k)
    ensures var days := ClosedDays(equity, events, max);
      && days[|days| - 1].date == Run(equity, events[..c], max).currentDay.value
      && Run(equity, events, max).currentDay == Some(events[c].day)
  {
    var n := |events| - 1;
    var init := events[..n];
    if Closes(Run(equity, init, max), events[n]) {
      c := n;
    } else {
      c := LastClosing(equity, init, max);
      ClosesEarlier(equity, events, max, c);
      assert init[..c] == events[..c];
      forall k | c < k ensures !ClosesAt(equity, events, max, k) {
        if k < n { ClosesEarlier(equity, events, max, k); }
      }
    }
  }

  ghost predicate AllButLastMoveOn(equity: real, events: seq<Event>, max: nat) {
    forall i, k :: i < k && ClosesAt(equity, events, max, i) && ClosesAt(equity, events, max, k) ==>
      MovesOn(equity, events, max, i)
  }

  lemma EarlierMoveOn(equity: real, events: seq<Event>, max: nat)
    requires events != [] && AllButLastMoveOn(equity, events, max)
    ensures AllButLastMoveOn(equity, events[..|events| - 1], max)
  {
    var init := events[..|events| - 1];
    forall i, k | i < k && ClosesAt(equity, init, max, i) && ClosesAt(equity, init, max, k)
      ensures MovesOn(equity, init, max, i)
    {
      ClosesEarlier(equity, events, max, i);
      ClosesEarlier(equity, events, max, k);
    }
  }

  /** What the last event adds: if it closes a day, the closing before it must have moved on. */
  lemma LatestMoveOn(equity: real, events: seq<Event>, max: nat)
    requires events != [] && AllButLastMoveOn(equity, events[..|events| - 1], max)
    ensures var init := events[..|events| - 1];
      AllButLastMoveOn(equity, events, max) <==>
        (Closes(Run(equity, init, max), events[|events| - 1]) ==>
          forall c :: ClosesAt(equity, init, max, c) ==> MovesOn(equity, init, max, c))
  {
    var n := |events| - 1;
    var init := events[..n];
    if AllButLastMoveOn(equity, events, max) && ClosesAt(equity, events, max, n) {
      forall c | ClosesAt(equity, init, max, c) ensures MovesOn(equity, init, max, c) {
        ClosesEarlier(equity, events, max, c);
      }
    }
    if Closes(Run(equity, init, max), events[n]) ==>
       forall c :: ClosesAt(equity, init, max, c) ==> MovesOn(equity, init, max, c) {
      forall i, k | i < k && ClosesAt(equity, events, max, i) && ClosesAt(equity, events, max, k)
        ensures MovesOn(equity, events, max, i)
      {
        ClosesEarlier(equity, events, max, i);
        if k < n { ClosesEarlier(equity, events, max, k); }
      }
    }
  }

  /** The dates of the closed days strictly increase if and only if every event that closes a
      day, the last such event aside, opens a later one. */
  lemma {:induction false} DatesIncreaseExactly(equity: real, events: seq<Event>, max: nat)
    ensures Increasing(ClosedDays(equity, events, max)) <==> AllButLastMoveOn(equity, events, max)
  {
    if events != [] {
      var n := |events| - 1;
      var init := events[..n];
      var st, days := Run(equity, init, max), ClosedDays(equity, init, max);
      DatesIncreaseExactly(equity, init, max);
      if Closes(st, events[n]) {
        IncreasingAppend(days, ClosedDay(st));
      }
      if AllButLastMoveOn(equity, init, max) {
        LatestMoveOn(equity, events, max);
        LastMovesOn(equity, init, max);
      } else if AllButLastMoveOn(equity, events, max) {
        EarlierMoveOn(equity, events, max);
      }
    }
  }

  lemma LastMovesOn(equity: real, events: seq<Event>, max: nat)
    requires AllButLastMoveOn(equity, events, max)
    ensures var st, days := Run(equity, events, max), ClosedDays(equity, events, max);
      && (days != [] ==> st.currentDay.Some?)
      && ((days == [] || days[|days| - 1].date < st.currentDay.value) <==>
          forall c :: ClosesAt(equity, events, max, c) ==> MovesOn(equity, events, max, c))
  {
    if ClosedDays(equity, events, max) == [] {
      forall c | 0 <= c < |events| ensures !ClosesAt(equity, events, max, c) {
        NoneClosed(equity, events, max, c);
      }
    } else {
      var last := LastClosing(equity, events, max);
      assert MovesOn(equity, events, max, last) <==>
        forall c :: ClosesAt(equity, events, max, c) ==> MovesOn(equity, events, max, c);
    }
  }

  /** A day that is rolled onto itself closes twice, and neither entry is what it earned. */
  lemma RolledOntoItself()
    ensures var events := [Record(5.0, 1), Roll(1), Record(3.0, 1), Roll(2)];
      && ClosedDays(0.0, events, 30) == [Day(1, 5.0, 5.0), Day(1, 3.0, 8.0)]
      && !Increasing(ClosedDays(0.0, events, 30)) && !RollsForward(events)
  {
    var a, b, c := Record(5.0, 1), Roll(1), Record(3.0, 1);
    var events := [a, b, c, Roll(2)];
    assert events[..3] == [a, b, c] && [a, b, c][..2] == [a, b] && [a, b][..1] == [a] && [a][..0] == [];
    assert Run(0.0, [a], 30) == State([], Some(1), 5.0, 0.0);
    assert Run(0.0, [a, b], 30) == State([Day(1, 5.0, 5.0)], Some(1), 0.0, 5.0);
    assert Run(0.0, [a, b, c], 30) == State([Day(1, 5.0, 5.0)], Some(1), 3.0, 5.0);
    assert ClosedDays(0.0, [a, b], 30) == ClosedDays(0.0, [a], 30) + [Day(1, 5.0, 5.0)];
    assert ClosedDays(0.0, [a, b, c], 30) == [Day(1, 5.0, 5.0)];
    var days := ClosedDays(0.0, events, 30);
    assert days == [Day(1, 5.0, 5.0)] + [Day(1, 3.0, 8.0)];
    assert days[0].date == days[1].date;
    assert LatestDay([a]) == Some(1) && !Ahead([a], 1);
    assert !RollsForward([a, b]) && !RollsForward([a, b, c]);
  }

  // ----- Returns over the window ----------------------------------------------------

  /** The equity with which day `i` of the window opens; for i == |history|, its close. */
  function EquityBefore(history: seq<Day>, i: nat): real
    requires history != [] && i <= |history|
  {
    if i == 0 then history[0].equity - history[0].pnl else history[i - 1].equity
  }

  function ReturnOf(history: seq<Day>, i: nat): real
    requires i < |history|
  {
    var base := EquityBefore(history, i);
    history[i].pnl / (if base != 0.0 then base else 1.0)
  }

  function Returns(history: seq<Day>): (r: seq<real>) {
    seq(|history|, i requires 0 <= i < |history| => ReturnOf(history, i))
  }

  /** `r` is the profit of day `i` relative to the equity at its opening, or the profit itself
      when that is zero. */
  predicate IsReturn(history: seq<Day>, i: nat, r: real)
    requires i < |history|
  {
    var opening := if i == 0 then history[0].equity - history[0].pnl else history[i - 1].equity;
    if opening != 0.0 then r * opening == history[i].pnl else r == history[i].pnl
  }

  lemma QuotientIs(x: real, y: real)
    requires y != 0.0
    ensures (x / y) * y == x
  {
  }

  lemma ReturnsExactly(history: seq<Day>)
    ensures forall i :: 0 <= i < |history| ==> IsReturn(history, i, Returns(history)[i])
  {
    forall i | 0 <= i < |history| ensures IsReturn(history, i, Returns(history)[i]) {
      var opening := EquityBefore(history, i);
      if opening != 0.0 { QuotientIs(history[i].pnl, opening); } else { QuotientIs(history[i].pnl, 1.0); }
    }
  }

  /** The product of (1 + return) over the first `n` days. */
  function Growth(history: seq<Day>, n: nat): real
    requires n <= |history|
  {
    if n == 0 then 1.0 else Growth(history, n - 1) * (1.0 + ReturnOf(history, n - 1))
  }

  ghost predicate Contiguous(history: seq<Day>) {
    forall i :: 0 < i < |history| ==> history[i].equity == history[i].pnl + history[i - 1].equity
  }

  lemma LastDaysContiguous(days: seq<Day>, max: nat, opening: real)
    requires Chained(days, opening)
    ensures Contiguous(LastDays(days, max))
  {
  }

  /** The opening equity compounded over the first `n` days. */
  function Compounded(history: seq<Day>, n: nat): real
    requires history != [] && n <= |history|
  {
    EquityBefore(history, 0) * Growth(history, n)
  }

  lemma Associate(x: real, y: real, z: real)
    ensures x * (y * z) == (x * y) * z
  {
  }

  lemma CompoundedStep(history: seq<Day>, n: nat)
    requires history != [] && 0 < n <= |history|
    ensures Compounded(history, n) == Compounded(history, n - 1) * (1.0 + ReturnOf(history, n - 1))
  {
    Associate(EquityBefore(history, 0), Growth(history, n - 1), 1.0 + ReturnOf(history, n - 1));
  }

  lemma EarnedOn(base: real, pnl: real)
    requires base != 0.0
    ensures base * (1.0 + pnl / base) == base + pnl
  {
    var r := pnl / base;
    assert r * base == pnl;
    assert base * (1.0 + r) == base + r * base;
  }

  lemma {:induction false} GrowthWithoutZero(history: seq<Day>, n: nat)
    requires history != [] && Contiguous(history) && n <= |history|
    requires forall i :: 0 <= i < n ==> EquityBefore(history, i) != 0.0
    ensures Compounded(history, n) == EquityBefore(history, n)
  {
    if n > 0 {
      GrowthWithoutZero(history, n - 1);
      CompoundedStep(history, n);
      EarnedOn(EquityBefore(history, n - 1), history[n - 1].pnl);
    }
  }

  lemma {:induction false} GrowthAfterZero(history: seq<Day>, j: nat, n: nat)
    requires history != [] && Contiguous(history) && j <= n <= |history|
    requires EquityBefore(history, j) == 0.0 && forall i :: 0 <= i < j ==> EquityBefore(history, i) != 0.0
    ensures Compounded(history, n) == 0.0
  {
    if n == j {
      GrowthWithoutZero(history, j);
    } else {
      GrowthAfterZero(history, j, n - 1);
      CompoundedStep(history, n);
    }
  }

  lemma {:induction false} FirstZero(history: seq<Day>, n: nat) returns (j: nat)
    requires history != [] && n <= |history| && exists i :: 0 <= i < n && EquityBefore(history, i) == 0.0
    ensures j < n && EquityBefore(history, j) == 0.0 && forall i :: 0 <= i < j ==> EquityBefore(history, i) != 0.0
  {
    j := 0;
    while EquityBefore(history, j) != 0.0
      invariant j < n && forall i :: 0 <= i < j ==> EquityBefore(history, i) != 0.0
      decreases n - j
    {
      j := j + 1;
    }
  }

  /** Compounding the returns from the opening equity gives the closing equity exactly when
      no day opens at zero, or the window closes at zero anyway. */
  lemma CompoundingExactly(history: seq<Day>)
    requires history != [] && Contiguous(history)
    ensures Compounded(history, |history|) == history[|history| - 1].equity <==>
      (forall i :: 0 <= i < |history| ==> EquityBefore(history, i) != 0.0) || history[|history| - 1].equity == 0.0
  {
    if forall i :: 0 <= i < |history| ==> EquityBefore(history, i) != 0.0 {
      GrowthWithoutZero(history, |history|);
    } else {
      var j := FirstZero(history, |history|);
      GrowthAfterZero(history, j, |history|);
    }
  }

  // ----- Drawdown over the window ---------------------------------------------------

  function PeakEquity(history: seq<Day>, n: nat): real
    requires n < |history|
  {
    if n == 0 || history[n].equity > PeakEquity(history, n - 1) then history[n].equity else PeakEquity(history, n - 1)
  }

  function DropAt(history: seq<Day>, n: nat): real
    requires n < |history|
  {
    var peak := PeakEquity(history, n);
    if peak > 0.0 then (peak - history[n].equity) / peak else 0.0
  }

  function Drawdown(history: seq<Day>, n: nat): real
    requires n < |history|
  {
    var before := if n == 0 then 0.0 else Drawdown(history, n - 1);
    if DropAt(history, n) > before then DropAt(history, n) else before
  }

  /** The relative fall from day `i` to day `j`. */
  function Fall(history: seq<Day>, i: nat, j: nat): real
    requires i < |history| && j < |history| && history[i].equity > 0.0
  {
    (history[i].equity - history[j].equity) / history[i].equity
  }

  lemma {:induction false} PeakIsHighest(history: seq<Day>, n: nat)
    requires n < |history|
    ensures forall i :: 0 <= i <= n ==> history[i].equity <= PeakEquity(history, n)
    ensures exists i :: 0 <= i <= n && history[i].equity == PeakEquity(history, n)
  {
    if n > 0 && history[n].equity <= PeakEquity(history, n - 1) {
      PeakIsHighest(history, n - 1);
      var i :| 0 <= i <= n - 1 && history[i].equity == PeakEquity(history, n - 1);
      assert history[i].equity == PeakEquity(history, n);
    } else {
      if n > 0 { PeakIsHighest(history, n - 1); }
      assert history[n].equity == PeakEquity(history, n);
    }
  }

  lemma {:induction false} DrawdownIsWorst(history: seq<Day>, n: nat)
    requires n < |history|
    ensures Drawdown(history, n) >= 0.0 && forall j :: 0 <= j <= n ==> DropAt(history, j) <= Drawdown(history, n)
    ensures Drawdown(history, n) == 0.0 || exists j :: 0 <= j <= n && DropAt(history, j) == Drawdown(history, n)
  {
    if n > 0 {
      DrawdownIsWorst(history, n - 1);
    }
  }

  /** Equity is positive on day `i` and the highest until day `j`. */
  ghost predicate HighUntil(history: seq<Day>, i: nat, j: nat) {
    && i <= j < |history| && history[i].equity > 0.0
    && forall k: nat :: k <= j ==> history[k].equity <= history[i].equity
  }

  /** `d` is the largest fall from a positive high so far, zero when there is none. */
  ghost predicate IsLargestFall(history: seq<Day>, d: real) {
    && d >= 0.0
    && (d == 0.0 || exists i: nat, j: nat :: HighUntil(history, i, j) && d == Fall(history, i, j))
    && (forall i: nat, j: nat :: HighUntil(history, i, j) ==> Fall(history, i, j) <= d)
  }

  lemma DropIsFall(history: seq<Day>, j: nat)
    requires j < |history|
    ensures DropAt(history, j) == 0.0 ||
      exists i: nat :: HighUntil(history, i, j) && DropAt(history, j) == Fall(history, i, j)
    ensures forall i: nat :: HighUntil(history, i, j) ==> Fall(history, i, j) == DropAt(history, j)
  {
    PeakIsHighest(history, j);
    var i: nat :| i <= j && history[i].equity == PeakEquity(history, j);
    if PeakEquity(history, j) > 0.0 {
      assert HighUntil(history, i, j);
    }
  }

  lemma LargestFallUnique(history: seq<Day>, d: real, e: real)
    requires IsLargestFall(history, d) && IsLargestFall(history, e)
    ensures d <= e
  {
  }

  lemma DrawdownIsLargestFall(history: seq<Day>)
    requires history != []
    ensures IsLargestFall(history, Drawdown(history, |history| - 1))
  {
    var d := Drawdown(history, |history| - 1);
    DrawdownIsWorst(history, |history| - 1);
    if d != 0.0 {
      var worst: nat :| worst < |history| && DropAt(history, worst) == d;
      DropIsFall(history, worst);
    }
    forall i: nat, j: nat | HighUntil(history, i, j) ensures Fall(history, i, j) <= d {
      DropIsFall(history, j);
      assert DropAt(history, j) <= d;
    }
  }

  /** The one-pass drawdown is the largest fall from a positive high so far, negative equity or
      not. */
  lemma DrawdownExactly(history: seq<Day>, d: real)
    requires history != []
    ensures d == Drawdown(history, |history| - 1) <==> IsLargestFall(history, d)
  {
    var m := Drawdown(history, |history| - 1);
    DrawdownIsLargestFall(history);
    if IsLargestFall(history, d) {
      LargestFallUnique(history, d, m);
      LargestFallUnique(history, m, d);
    }
  }

  /** No two positive equities up to day `j` differ. */
  ghost predicate OneLevel(history: seq<Day>, j: nat)
    requires j < |history|
  {
    forall i, k :: 0 <= i <= j && 0 <= k <= j && history[i].equity > 0.0 && history[k].equity > 0.0 ==>
      history[i].equity == history[k].equity
  }

  /** No fall into day `j` exceeds the drop that is measured there. */
  ghost predicate DropCovers(history: seq<Day>, j: nat)
    requires j < |history|
  {
    forall i :: 0 <= i <= j && history[i].equity > 0.0 ==> Fall(history, i, j) <= DropAt(history, j)
  }

  lemma FallFromBelowPeak(history: seq<Day>, i: nat, j: nat)
    requires i <= j < |history| && history[i].equity > 0.0
    ensures PeakEquity(history, j) > 0.0
    ensures history[j].equity >= 0.0 || history[i].equity == PeakEquity(history, j) ==>
      Fall(history, i, j) <= DropAt(history, j)
    ensures history[j].equity < 0.0 && history[i].equity < PeakEquity(history, j) ==>
      Fall(history, i, j) > DropAt(history, j)
  {
    PeakIsHighest(history, j);
    if history[j].equity >= 0.0 {
      FallGrowsWithHigh(history[i].equity, PeakEquity(history, j), history[j].equity);
    } else if history[i].equity < PeakEquity(history, j) {
      FallShrinksWithHigh(history[i].equity, PeakEquity(history, j), history[j].equity);
    }
  }

  /** The drop at a day covers every fall into it if and only if equity is not negative there,
      or had a single positive level until then. */
  lemma DropCoversExactly(history: seq<Day>, j: nat)
    requires j < |history|
    ensures DropCovers(history, j) <==> history[j].equity >= 0.0 || OneLevel(history, j)
  {
    PeakIsHighest(history, j);
    forall i | 0 <= i <= j && history[i].equity > 0.0
      ensures Fall(history, i, j) <= DropAt(history, j) <==>
        history[j].equity >= 0.0 || history[i].equity == PeakEquity(history, j)
    {
      FallFromBelowPeak(history, i, j);
    }
  }

  /** From a positive day `i` equity falls to a negative one on day `j`. */
  ghost predicate IntoLoss(history: seq<Day>, i: int, j: int) {
    0 <= i <= j < |history| && history[i].equity > 0.0 && history[j].equity < 0.0
  }

  /** A fall into negative equity as large as any other, with a single positive level until
      then. */
  ghost predicate WorstIntoLoss(history: seq<Day>, p: int, k: int) {
    && IntoLoss(history, p, k) && OneLevel(history, k)
    && forall i, j :: IntoLoss(history, i, j) ==> Fall(history, i, j) <= Fall(history, p, k)
  }

  /** No fall from a positive day to a later one exceeds the drawdown. */
  ghost predicate DrawdownCovers(history: seq<Day>)
    requires history != []
  {
    forall i, j :: 0 <= i <= j < |history| && history[i].equity > 0.0 ==>
      Fall(history, i, j) <= Drawdown(history, |history| - 1)
  }

  lemma FallIntoLossIsMore(history: seq<Day>, i: nat, j: nat)
    requires IntoLoss(history, i, j)
    ensures Fall(history, i, j) > 1.0
  {
    var x := Fall(history, i, j);
    assert x * history[i].equity == history[i].equity - history[j].equity;
    SignOfProduct(x - 1.0, history[i].equity);
  }

  /** A positive drawdown is a fall between two days. */
  lemma DrawdownIsAFall(history: seq<Day>) returns (i: nat, j: nat)
    requires history != [] && Drawdown(history, |history| - 1) > 0.0
    ensures i <= j < |history| && history[i].equity > 0.0
    ensures Fall(history, i, j) == DropAt(history, j) == Drawdown(history, |history| - 1)
  {
    var last := |history| - 1;
    DrawdownIsWorst(history, last);
    j :| 0 <= j <= last && DropAt(history, j) == Drawdown(history, last);
    PeakIsHighest(history, j);
    i :| 0 <= i <= j && history[i].equity == PeakEquity(history, j);
  }

  lemma CoveringHasWorst(history: seq<Day>, i: nat, j: nat)
    requires history != [] && DrawdownCovers(history) && IntoLoss(history, i, j)
    ensures exists p, k :: WorstIntoLoss(history, p, k)
  {
    var d := Drawdown(history, |history| - 1);
    FallIntoLossIsMore(history, i, j);
    var p, k := DrawdownIsAFall(history);
    if history[k].equity >= 0.0 {
      NotMoreThanAll(history[p].equity, history[k].equity);
    }
    DropCoversExactly(history, k);
    assert DropCovers(history, k);
    assert WorstIntoLoss(history, p, k);
  }

  lemma NotMoreThanAll(high: real, low: real)
    requires high > 0.0 && low >= 0.0
    ensures (high - low) / high <= 1.0
  {
    var x := (high - low) / high;
    assert x * high == high - low;
    SignOfProduct(1.0 - x, high);
  }

  lemma WorstCovers(history: seq<Day>, p: nat, k: nat)
    requires WorstIntoLoss(history, p, k)
    ensures DrawdownCovers(history)
  {
    var last := |history| - 1;
    DrawdownIsWorst(history, last);
    DropCoversExactly(history, k);
    forall i, j | 0 <= i <= j < |history| && history[i].equity > 0.0
      ensures Fall(history, i, j) <= Drawdown(history, last)
    {
      if history[j].equity >= 0.0 {
        DropCoversExactly(history, j);
      } else {
        assert IntoLoss(history, i, j);
      }
    }
  }

  /** The one-pass drawdown is zero or a fall from one day to a later one. It is the worst such
      fall if and only if no positive day precedes a negative one, or some worst fall into
      negative equity ends when equity has had a single positive level. */
  lemma DrawdownIsWorstFall(history: seq<Day>)
    requires history != []
    ensures var d := Drawdown(history, |history| - 1);
      d == 0.0 || exists i, j :: 0 <= i <= j < |history| && history[i].equity > 0.0 && Fall(history, i, j) == d
    ensures DrawdownCovers(history) <==>
      (forall i, j :: !IntoLoss(history, i, j)) || exists p, k :: WorstIntoLoss(history, p, k)
  {
    var last := |history| - 1;
    DrawdownIsWorst(history, last);
    if Drawdown(history, last) != 0.0 {
      var i, j := DrawdownIsAFall(history);
    }
    if p, k :| WorstIntoLoss(history, p, k) {
      WorstCovers(history, p, k);
    } else if i, j :| IntoLoss(history, i, j) {
      if DrawdownCovers(history) {
        CoveringHasWorst(history, i, j);
      }
    } else {
      forall i, j | 0 <= i <= j < |history| && history[i].equity > 0.0
        ensures Fall(history, i, j) <= Drawdown(history, last)
      {
        assert !IntoLoss(history, i, j);
        DropCoversExactly(history, j);
      }
    }
  }

  /** The fall from an earlier, smaller high can be worse. */
  lemma NegativeEquityUnderstated()
    ensures var history := [Day(1, 1.0, 1.0), Day(2, 1.0, 2.0), Day(3, -4.0, -2.0)];
      && Drawdown(history, 2) == 2.0 && Fall(history, 0, 2) == 3.0
      && !DrawdownCovers(history)
  {
    var history := [Day(1, 1.0, 1.0), Day(2, 1.0, 2.0), Day(3, -4.0, -2.0)];
    assert PeakEquity(history, 0) == 1.0 && PeakEquity(history, 1) == 2.0 && PeakEquity(history, 2) == 2.0;
    assert Drawdown(history, 0) == 0.0 && Drawdown(history, 1) == 0.0;
  }

  lemma DropAtMostAll(history: seq<Day>, j: nat)
    requires j < |history|
    ensures DropAt(history, j) <= 1.0 <==> history[j].equity >= 0.0 || PeakEquity(history, j) <= 0.0
  {
    PeakIsHighest(history, j);
    var peak := PeakEquity(history, j);
    if peak > 0.0 {
      var x := DropAt(history, j);
      assert x * peak == peak - history[j].equity;
      SignOfProduct(1.0 - x, peak);
    }
  }

  /** The percentage stays within 100 if and only if equity is never negative after having been
      positive; `NegativeEquityUnderstated` shows a window at 200. */
  lemma PercentageExactly(history: seq<Day>)
    requires history != []
    ensures Drawdown(history, |history| - 1) <= 1.0 <==>
      forall j :: 0 <= j < |history| ==> history[j].equity >= 0.0 || PeakEquity(history, j) <= 0.0
  {
    DrawdownIsWorst(history, |history| - 1);
    forall j | 0 <= j < |history|
      ensures DropAt(history, j) <= 1.0 <==> history[j].equity >= 0.0 || PeakEquity(history, j) <= 0.0
    {
      DropAtMostAll(history, j);
    }
  }
}
