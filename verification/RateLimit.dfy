/** The sliding-window rate limiters of the API middleware.

    Both limiters prune what they remember. They are compared with a limiter that remembers
    every admission forever, and that one is shown to be the best possible policy. */
module RateLimit {

  datatype Limits = Limits(max: int, window: real)

  // ----- Logs of admission times ----------------------------------------------------

  /** The times after `cutoff`, in order. */
  function Live(times: seq<real>, cutoff: real): seq<real> {
    if times == [] then []
    else
      var n := |times| - 1;
      if times[n] > cutoff then Live(times[..n], cutoff) + [times[n]] else Live(times[..n], cutoff)
  }

  ghost predicate Sorted(times: seq<real>) {
    forall i, j :: 0 <= i < j < |times| ==> times[i] <= times[j]
  }

  ghost predicate UpTo(times: seq<real>, now: real) {
    forall i :: 0 <= i < |times| ==> times[i] <= now
  }

  lemma LiveAppend(times: seq<real>, t: real, cutoff: real)
    ensures Live(times + [t], cutoff) == if t > cutoff then Live(times, cutoff) + [t] else Live(times, cutoff)
  {
    assert (times + [t])[..|times|] == times;
  }

  lemma {:induction false} LiveAgain(times: seq<real>, early: real, late: real)
    requires early <= late
    ensures Live(Live(times, early), late) == Live(times, late)
  {
    if times != [] {
      var n := |times| - 1;
      LiveAgain(times[..n], early, late);
      LiveAppend(Live(times[..n], early), times[n], late);
    }
  }

  lemma {:induction false} NoneLiveAfter(log: seq<real>, now: real)
    requires UpTo(log, now)
    ensures Live(log, now) == []
  {
    if log != [] {
      NoneLiveAfter(log[..|log| - 1], now);
    }
  }

  lemma SuffixAppend(times: seq<real>, t: real, k: nat)
    requires k <= |times|
    ensures (times + [t])[k..] == times[k..] + [t]
  {
  }

  /** From index `k` on, and only there, the times of `times` are after `cutoff`. */
  ghost predicate LiveFrom(times: seq<real>, cutoff: real, k: int) {
    0 <= k <= |times| && forall i :: 0 <= i < |times| ==> (times[i] > cutoff <==> i >= k)
  }

  lemma LiveFromNext(times: seq<real>, t: real, cutoff: real, k: int)
    requires LiveFrom(times, cutoff, k) && t > cutoff
    ensures LiveFrom(times + [t], cutoff, k)
  {
  }

  /** In a sorted log the live times are a suffix. */
  lemma {:induction false} LiveIsSuffix(times: seq<real>, cutoff: real)
    requires Sorted(times)
    ensures |Live(times, cutoff)| <= |times|
    ensures Live(times, cutoff) == times[|times| - |Live(times, cutoff)|..]
    ensures LiveFrom(times, cutoff, |times| - |Live(times, cutoff)|)
  {
    if times != [] {
      var n := |times| - 1;
      var init, t := times[..n], times[n];
      assert times == init + [t];
      if t > cutoff {
        LiveIsSuffix(init, cutoff);
        SuffixAppend(init, t, n - |Live(init, cutoff)|);
        LiveFromNext(init, t, cutoff, n - |Live(init, cutoff)|);
      } else {
        assert UpTo(times, cutoff);
        NoneLiveAfter(times, cutoff);
      }
    }
  }

  // ----- The limiter that never forgets ---------------------------------------------

  predicate Admits(l: Limits, log: seq<real>, now: real) {
    |Live(log, now - l.window)| < l.max
  }

  /** The admissions of one IP with the given arrival times. */
  function Admitted(l: Limits, arrivals: seq<real>): seq<real> {
    if arrivals == [] then []
    else
      var n := |arrivals| - 1;
      var log := Admitted(l, arrivals[..n]);
      if Admits(l, log, arrivals[n]) then log + [arrivals[n]] else log
  }

  lemma {:induction false} AdmittedUpTo(l: Limits, arrivals: seq<real>, now: real)
    requires UpTo(arrivals, now)
    ensures UpTo(Admitted(l, arrivals), now)
  {
    if arrivals != [] {
      AdmittedUpTo(l, arrivals[..|arrivals| - 1], now);
    }
  }

  lemma {:induction false} AdmittedSorted(l: Limits, arrivals: seq<real>)
    requires Sorted(arrivals)
    ensures Sorted(Admitted(l, arrivals))
  {
    if arrivals != [] {
      var n := |arrivals| - 1;
      AdmittedSorted(l, arrivals[..n]);
      AdmittedUpTo(l, arrivals[..n], arrivals[n]);
    }
  }

  /** Any run of admissions that spans less than a window has at most `max` members. */
  ghost predicate Respects(l: Limits, log: seq<real>) {
    forall i, j :: 0 <= i <= j < |log| && log[j] - log[i] < l.window ==> j - i + 1 <= l.max
  }

  lemma RespectsAppend(l: Limits, log: seq<real>, t: real)
    requires Sorted(log) && Respects(l, log) && Admits(l, log, t)
    ensures Respects(l, log + [t])
  {
    LiveIsSuffix(log, t - l.window);
    var k := |Live(log, t - l.window)|;
    forall i | 0 <= i < |log| && t - log[i] < l.window ensures |log| - i + 1 <= l.max {
      assert log[i] > t - l.window;
    }
  }

  /** The bound holds for every half-open window of the configured length. */
  lemma {:induction false} AdmittedRespects(l: Limits, arrivals: seq<real>)
    requires Sorted(arrivals)
    ensures Respects(l, Admitted(l, arrivals))
  {
    if arrivals != [] {
      var n := |arrivals| - 1;
      AdmittedRespects(l, arrivals[..n]);
      AdmittedSorted(l, arrivals[..n]);
      if Admits(l, Admitted(l, arrivals[..n]), arrivals[n]) {
        RespectsAppend(l, Admitted(l, arrivals[..n]), arrivals[n]);
      }
    }
  }

  /** How many times lie after `lo` and up to `hi`. */
  function CountIn(times: seq<real>, lo: real, hi: real): nat {
    if times == [] then 0
    else
      var n := |times| - 1;
      CountIn(times[..n], lo, hi) + if lo < times[n] <= hi then 1 else 0
  }

  lemma {:induction false} CountIsDifference(times: seq<real>, lo: real, hi: real)
    requires lo <= hi
    ensures CountIn(times, lo, hi) == |Live(times, lo)| - |Live(times, hi)|
  {
    if times != [] {
      CountIsDifference(times[..|times| - 1], lo, hi);
    }
  }

  lemma WindowCount(l: Limits, log: seq<real>, lo: real, hi: real)
    requires Sorted(log) && Respects(l, log) && l.max >= 0 && lo <= hi <= lo + l.window
    ensures CountIn(log, lo, hi) <= l.max
  {
    CountIsDifference(log, lo, hi);
    LiveIsSuffix(log, lo);
    LiveIsSuffix(log, hi);
    var i, j := |log| - |Live(log, lo)|, |log| - |Live(log, hi)|;
    if i < j {
      assert lo < log[i] && log[j - 1] <= hi;
    }
  }

  /** For non-decreasing arrivals, never more than `max` admissions lie after `lo` and up to
      `lo + window`. */
  lemma WindowBound(l: Limits, arrivals: seq<real>, lo: real)
    requires Sorted(arrivals) && l.max >= 0 && l.window >= 0.0
    ensures CountIn(Admitted(l, arrivals), lo, lo + l.window) <= l.max
  {
    AdmittedSorted(l, arrivals);
    AdmittedRespects(l, arrivals);
    WindowCount(l, Admitted(l, arrivals), lo, lo + l.window);
  }

  /** A request is denied exactly when `max` admissions already lie in the window that ends
      at it. */
  lemma DeniedExactly(l: Limits, arrivals: seq<real>, now: real)
    requires Sorted(arrivals) && UpTo(arrivals, now) && l.max >= 0 && l.window >= 0.0
    ensures !Admits(l, Admitted(l, arrivals), now) <==>
      CountIn(Admitted(l, arrivals), now - l.window, now) == l.max
  {
    var log := Admitted(l, arrivals);
    WindowBound(l, arrivals, now - l.window);
    AdmittedUpTo(l, arrivals, now);
    CountIsDifference(log, now - l.window, now);
    NoneLiveAfter(log, now);
    assert CountIn(log, now - l.window, now) == |Live(log, now - l.window)| <= l.max;
  }

  // ----- Greedy admission is optimal ------------------------------------------------

  /** The arrivals that some other policy lets in. */
  function Chosen(arrivals: seq<real>, choice: seq<bool>): seq<real>
    requires |choice| == |arrivals|
  {
    if arrivals == [] then []
    else
      var n := |arrivals| - 1;
      var rest := Chosen(arrivals[..n], choice[..n]);
      if choice[n] then rest + [arrivals[n]] else rest
  }

  /** `log` has admitted at least as much as `other`, each admission no later. */
  ghost predicate Ahead(log: seq<real>, other: seq<real>) {
    |other| <= |log| && forall k :: 0 <= k < |other| ==> log[k] <= other[k]
  }

  /** Where another policy may admit and has already admitted as much, the limiter admits. */
  lemma LevelMeansAdmitted(l: Limits, log: seq<real>, other: seq<real>, t: real)
    requires l.max >= 1 || l.window > 0.0
    requires Ahead(log, other) && |other| == |log| && Sorted(log) && Respects(l, other + [t])
    ensures Admits(l, log, t)
  {
    var g, k, both := |log|, |Live(log, t - l.window)|, other + [t];
    LiveIsSuffix(log, t - l.window);
    assert both[g] == t;
    if k > 0 {
      assert log[g - k] > t - l.window;
      assert both[g - k] == other[g - k];
      assert both[g] - both[g - k] < l.window;
    } else {
      assert both[g] - both[g] < l.window ==> 1 <= l.max;
    }
  }

  lemma AheadStep(l: Limits, log: seq<real>, other: seq<real>, t: real)
    requires l.max >= 1 || l.window > 0.0
    requires Ahead(log, other) && Sorted(log) && UpTo(log, t) && Respects(l, other + [t])
    ensures Ahead(if Admits(l, log, t) then log + [t] else log, other + [t])
  {
    if |other| == |log| {
      LevelMeansAdmitted(l, log, other, t);
    }
  }

  lemma {:induction false} GreedyStaysAhead(l: Limits, arrivals: seq<real>, choice: seq<bool>)
    requires l.max >= 1 || l.window > 0.0
    requires Sorted(arrivals) && |choice| == |arrivals| && Respects(l, Chosen(arrivals, choice))
    ensures Ahead(Admitted(l, arrivals), Chosen(arrivals, choice))
  {
    if arrivals != [] {
      var n := |arrivals| - 1;
      var rest, all := Chosen(arrivals[..n], choice[..n]), Chosen(arrivals, choice);
      assert forall i :: 0 <= i < |rest| ==> rest[i] == all[i];
      assert Respects(l, rest);
      GreedyStaysAhead(l, arrivals[..n], choice[..n]);
      AdmittedSorted(l, arrivals[..n]);
      AdmittedUpTo(l, arrivals[..n], arrivals[n]);
      if choice[n] {
        AheadStep(l, Admitted(l, arrivals[..n]), rest, arrivals[n]);
      }
    }
  }

  lemma {:induction false} ChosenPrefix(arrivals: seq<real>, choice: seq<bool>, n: nat)
    requires |choice| == |arrivals| && n <= |arrivals|
    ensures Chosen(arrivals[..n], choice[..n]) <= Chosen(arrivals, choice)
  {
    if n < |arrivals| {
      ChosenPrefix(arrivals[..|arrivals| - 1], choice[..|arrivals| - 1], n);
      assert arrivals[..|arrivals| - 1][..n] == arrivals[..n];
      assert choice[..|arrivals| - 1][..n] == choice[..n];
    } else {
      assert arrivals[..n] == arrivals && choice[..n] == choice;
    }
  }

  /** No policy that respects the bound has let in more, after any number of arrivals. */
  lemma GreedyIsOptimal(l: Limits, arrivals: seq<real>, choice: seq<bool>, n: nat)
    requires l.max >= 1 || l.window > 0.0
    requires Sorted(arrivals) && |choice| == |arrivals| && Respects(l, Chosen(arrivals, choice))
    requires n <= |arrivals|
    ensures |Chosen(arrivals[..n], choice[..n])| <= |Admitted(l, arrivals[..n])|
  {
    ChosenPrefix(arrivals, choice, n);
    var some, all := Chosen(arrivals[..n], choice[..n]), Chosen(arrivals, choice);
    assert forall i :: 0 <= i < |some| ==> some[i] == all[i];
    assert Respects(l, some);
    GreedyStaysAhead(l, arrivals[..n], choice[..n]);
  }

  // ----- Many IPs -------------------------------------------------------------------

  /** A request: who calls, the clock reading that decides it, and the reading a cleanup
      would take afterwards. */
  datatype Call = Call(ip: string, now: real, later: real)

  type Counts = map<string, seq<real>>

  function Times(counts: Counts, ip: string): seq<real> {
    if ip in counts then counts[ip] else []
  }

  ghost predicate MonotoneClock(history: seq<Call>) {
    && (forall i :: 0 <= i < |history| ==> history[i].now <= history[i].later)
    && (forall i, j :: 0 <= i < j < |history| ==> history[i].later <= history[j].now)
  }

  function ArrivalsOf(history: seq<Call>, ip: string): seq<real> {
    if history == [] then []
    else
      var n := |history| - 1;
      var rest := ArrivalsOf(history[..n], ip);
      if history[n].ip == ip then rest + [history[n].now] else rest
  }

  /** Every admission of `ip` so far, by the limiter that never forgets. */
  function FullLog(l: Limits, history: seq<Call>, ip: string): seq<real> {
    Admitted(l, ArrivalsOf(history, ip))
  }

  /** One call of the general limiter. */
  function PlainStep(l: Limits, counts: Counts, call: Call): (Counts, bool) {
    var kept := Live(Times(counts, call.ip), call.now - l.window);
    if |kept| >= l.max then (counts[call.ip := kept], false)
    else (counts[call.ip := kept + [call.now]], true)
  }

  predicate Stale(times: seq<real>, cutoff: real) {
    times == [] || times[|times| - 1] <= cutoff
  }

  function Cleaned(counts: Counts, cutoff: real): Counts {
    map ip | ip in counts && !Stale(counts[ip], cutoff) :: counts[ip]
  }

  datatype Login = Login(counts: Counts, cleanupCounter: nat)

  /** One call of the login limiter: as the general one, but every hundredth admission or
      later, once too many IPs are tracked, stale IPs are dropped. */
  function LoginStep(l: Limits, maxIps: int, st: Login, call: Call): (Login, bool) {
    var (counts, ok) := PlainStep(l, st.counts, call);
    if !ok then (Login(counts, st.cleanupCounter), false)
    else if st.cleanupCounter + 1 >= 100 && |counts| > maxIps
    then (Login(Cleaned(counts, call.later - l.window), 0), true)
    else (Login(counts, st.cleanupCounter + 1), true)
  }

  function PlainRun(l: Limits, history: seq<Call>): Counts {
    if history == [] then map[]
    else PlainStep(l, PlainRun(l, history[..|history| - 1]), history[|history| - 1]).0
  }

  function LoginRun(l: Limits, maxIps: int, history: seq<Call>): Login {
    if history == [] then Login(map[], 0)
    else LoginStep(l, maxIps, LoginRun(l, maxIps, history[..|history| - 1]), history[|history| - 1]).0
  }

  class RateLimiter {
    const limits: Limits
    var counts: Counts

    constructor (limits: Limits)
      ensures this.limits == limits && counts == map[]
    {
      this.limits := limits;
      counts := map[];
    }

    method IsAllowed(ip: string, now: real) returns (ok: bool)
      modifies this
      ensures (counts, ok) == PlainStep(limits, old(counts), Call(ip, now, now))
    {
      var cutoff := now - limits.window;
      var timestamps := Times(counts, ip);
      counts := counts[ip := Live(timestamps, cutoff)];
      if |counts[ip]| >= limits.max {
        return false;
      }
      counts := counts[ip := counts[ip] + [now]];
      assert counts == old(counts)[ip := Live(timestamps, cutoff) + [now]];
      return true;
    }
  }

  class LoginRateLimiter {
    const limits: Limits
    const maxIps: int
    var counts: Counts
    var cleanupCounter: nat

    constructor (limits: Limits, maxIps: int)
      ensures this.limits == limits && this.maxIps == maxIps && Now() == Login(map[], 0)
    {
      this.limits, this.maxIps := limits, maxIps;
      counts, cleanupCounter := map[], 0;
    }

    function Now(): Login
      reads this
    {
      Login(counts, cleanupCounter)
    }

    /** Deletes the IPs without a recent admission, one by one. */
    method CleanupStaleIps(now: real)
      modifies this`counts
      ensures counts == Cleaned(old(counts), now - limits.window)
    {
      var cutoff := now - limits.window;
      var stale := set ip | ip in counts && Stale(counts[ip], cutoff);
      while stale != {}
        invariant stale <= counts.Keys
        invariant forall ip :: ip in stale ==> Stale(counts[ip], cutoff)
        invariant Cleaned(counts, cutoff) == Cleaned(old(counts), cutoff)
        invariant forall ip :: ip in counts && Stale(counts[ip], cutoff) ==> ip in stale
        decreases stale
      {
        var ip :| ip in stale;
        counts := counts - {ip};
        stale := stale - {ip};
      }
      assert Cleaned(counts, cutoff) == counts;
    }

    method IsAllowed(ip: string, now: real, later: real) returns (ok: bool)
      modifies this
      ensures (Now(), ok) == LoginStep(limits, maxIps, old(Now()), Call(ip, now, later))
    {
      var cutoff := now - limits.window;
      var timestamps := Times(counts, ip);
      counts := counts[ip := Live(timestamps, cutoff)];
      if |counts[ip]| >= limits.max {
        return false;
      }
      counts := counts[ip := counts[ip] + [now]];
      assert counts == old(counts)[ip := Live(timestamps, cutoff) + [now]];
      cleanupCounter := cleanupCounter + 1;
      if cleanupCounter >= 100 && |counts| > maxIps {
        CleanupStaleIps(later);
        cleanupCounter := 0;
      }
      return true;
    }
  }

  // ----- Forgetting never changes a decision ----------------------------------------

  /** Two logs that show the same live times at `cutoff` and ever after. */
  ghost predicate SameFrom(x: seq<real>, y: seq<real>, cutoff: real) {
    forall c :: c >= cutoff ==> Live(x, c) == Live(y, c)
  }

  ghost predicate Tidy(l: Limits, times: seq<real>, now: real) {
    Sorted(times) && UpTo(times, now) && (|times| <= l.max || times == [])
  }

  /** What a table remembers of an IP: sorted, not from the future, no longer than `max`,
      and live for exactly as long as the full log says. */
  ghost predicate FaithfulAt(l: Limits, counts: Counts, history: seq<Call>, now: real, ip: string) {
    Tidy(l, Times(counts, ip), now) && SameFrom(Times(counts, ip), FullLog(l, history, ip), now - l.window)
  }

  ghost predicate Faithful(l: Limits, counts: Counts, history: seq<Call>, now: real) {
    forall ip :: FaithfulAt(l, counts, history, now, ip)
  }

  lemma FaithfulLater(l: Limits, counts: Counts, history: seq<Call>, now: real, later: real)
    requires Faithful(l, counts, history, now) && now <= later
    ensures Faithful(l, counts, history, later)
  {
    forall ip ensures FaithfulAt(l, counts, history, later, ip) {
      assert FaithfulAt(l, counts, history, now, ip);
    }
  }

  lemma FullLogNext(l: Limits, history: seq<Call>, call: Call, ip: string)
    ensures FullLog(l, history + [call], ip) ==
      var log := FullLog(l, history, ip);
      if ip == call.ip && Admits(l, log, call.now) then log + [call.now] else log
  {
    assert (history + [call])[..|history|] == history;
    var arrivals := ArrivalsOf(history, ip);
    assert (arrivals + [call.now])[..|arrivals|] == arrivals;
  }

  lemma PrunedTidy(l: Limits, times: seq<real>, now: real)
    requires Tidy(l, times, now)
    ensures var kept := Live(times, now - l.window);
      Tidy(l, kept, now) && (|kept| < l.max ==> Tidy(l, kept + [now], now))
  {
    LiveIsSuffix(times, now - l.window);
  }

  /** Pruning one list, and appending to it when there is room, keeps it live. */
  lemma PrunedSame(times: seq<real>, log: seq<real>, now: real, cutoff: real)
    requires SameFrom(times, log, cutoff)
    ensures SameFrom(Live(times, cutoff), log, cutoff)
    ensures SameFrom(Live(times, cutoff) + [now], log + [now], cutoff)
  {
    var kept := Live(times, cutoff);
    forall c | c >= cutoff ensures Live(kept, c) == Live(log, c) && Live(kept + [now], c) == Live(log + [now], c) {
      LiveAgain(times, cutoff, c);
      LiveAppend(kept, now, c);
      LiveAppend(log, now, c);
    }
  }

  /** One call decides as the limiter that never forgets, and remembers enough to go on. */
  lemma PlainStepFaithful(l: Limits, counts: Counts, history: seq<Call>, call: Call)
    requires Faithful(l, counts, history, call.now)
    ensures PlainStep(l, counts, call).1 <==> Admits(l, FullLog(l, history, call.ip), call.now)
    ensures Faithful(l, PlainStep(l, counts, call).0, history + [call], call.now)
  {
    assert FaithfulAt(l, counts, history, call.now, call.ip);
    forall ip ensures FaithfulAt(l, PlainStep(l, counts, call).0, history + [call], call.now, ip) {
      assert FaithfulAt(l, counts, history, call.now, ip);
      PlainStepFaithfulAt(l, counts, history, call, ip);
    }
  }

  function Pruned(l: Limits, times: seq<real>, now: real): seq<real> {
    var kept := Live(times, now - l.window);
    if |kept| < l.max then kept + [now] else kept
  }

  function Grown(l: Limits, log: seq<real>, now: real): seq<real> {
    if Admits(l, log, now) then log + [now] else log
  }

  lemma SameDecision(l: Limits, times: seq<real>, log: seq<real>, now: real)
    requires SameFrom(times, log, now - l.window)
    ensures var kept := Live(times, now - l.window); Admits(l, log, now) <==> |kept| < l.max
    ensures SameFrom(Pruned(l, times, now), Grown(l, log, now), now - l.window)
  {
    var cutoff := now - l.window;
    assert Live(times, cutoff) == Live(log, cutoff);
    PrunedSame(times, log, now, cutoff);
  }

  lemma OneIpStep(l: Limits, times: seq<real>, log: seq<real>, now: real)
    requires Tidy(l, times, now) && SameFrom(times, log, now - l.window)
    ensures Tidy(l, Pruned(l, times, now), now)
    ensures SameFrom(Pruned(l, times, now), Grown(l, log, now), now - l.window)
  {
    PrunedTidy(l, times, now);
    SameDecision(l, times, log, now);
  }

  lemma TimesNext(l: Limits, counts: Counts, call: Call, ip: string)
    ensures Times(PlainStep(l, counts, call).0, ip) ==
      if ip == call.ip then Pruned(l, Times(counts, ip), call.now) else Times(counts, ip)
  {
  }

  lemma GrownNext(l: Limits, history: seq<Call>, call: Call, ip: string)
    ensures FullLog(l, history + [call], ip) ==
      if ip == call.ip then Grown(l, FullLog(l, history, ip), call.now) else FullLog(l, history, ip)
  {
    FullLogNext(l, history, call, ip);
  }

  lemma PlainStepFaithfulAt(l: Limits, counts: Counts, history: seq<Call>, call: Call, ip: string)
    requires FaithfulAt(l, counts, history, call.now, ip)
    ensures FaithfulAt(l, PlainStep(l, counts, call).0, history + [call], call.now, ip)
  {
    TimesNext(l, counts, call, ip);
    GrownNext(l, history, call, ip);
    if ip == call.ip {
      OneIpStep(l, Times(counts, ip), FullLog(l, history, ip), call.now);
    }
  }

  lemma StaleNeverLive(times: seq<real>, cutoff: real, c: real)
    requires Sorted(times) && Stale(times, cutoff) && cutoff <= c
    ensures Live(times, c) == []
  {
    assert UpTo(times, c);
    NoneLiveAfter(times, c);
  }

  lemma CleanedFaithful(l: Limits, counts: Counts, history: seq<Call>, now: real)
    requires Faithful(l, counts, history, now)
    ensures Faithful(l, Cleaned(counts, now - l.window), history, now)
  {
    var cutoff := now - l.window;
    var cleaned := Cleaned(counts, cutoff);
    forall ip ensures FaithfulAt(l, cleaned, history, now, ip) {
      var times := Times(counts, ip);
      assert FaithfulAt(l, counts, history, now, ip);
      if ip in counts && ip !in cleaned {
        forall c | c >= cutoff ensures Live(times, c) == Live([], c) {
          StaleNeverLive(times, cutoff, c);
        }
      }
    }
  }

  ghost predicate ReadBy(history: seq<Call>, now: real) {
    MonotoneClock(history) && (history != [] ==> history[|history| - 1].later <= now)
  }

  lemma LastCall(history: seq<Call>)
    requires MonotoneClock(history) && history != []
    ensures var n := |history| - 1;
      && ReadBy(history[..n], history[n].now) && history[n].now <= history[n].later
      && history[..n] + [history[n]] == history
  {
  }

  lemma {:induction false} PlainRunFaithful(l: Limits, history: seq<Call>, now: real)
    requires ReadBy(history, now)
    ensures Faithful(l, PlainRun(l, history), history, now)
  {
    if history != [] {
      var n := |history| - 1;
      LastCall(history);
      PlainRunFaithful(l, history[..n], history[n].now);
      PlainStepFaithful(l, PlainRun(l, history[..n]), history[..n], history[n]);
      FaithfulLater(l, PlainRun(l, history), history, history[n].now, now);
    }
  }

  /** A login call decides as a plain one; its table is the plain one, cleaned or not. */
  lemma LoginStepOutcome(l: Limits, maxIps: int, st: Login, call: Call)
    ensures var (counts, ok) := PlainStep(l, st.counts, call);
      var (st', ok') := LoginStep(l, maxIps, st, call);
      ok' == ok && (st'.counts == counts || st'.counts == Cleaned(counts, call.later - l.window))
  {
  }

  lemma LoginStepFaithful(l: Limits, maxIps: int, st: Login, history: seq<Call>, call: Call)
    requires Faithful(l, st.counts, history, call.now) && call.now <= call.later
    ensures LoginStep(l, maxIps, st, call).1 <==> Admits(l, FullLog(l, history, call.ip), call.now)
    ensures Faithful(l, LoginStep(l, maxIps, st, call).0.counts, history + [call], call.later)
  {
    var counts := PlainStep(l, st.counts, call).0;
    PlainStepFaithful(l, st.counts, history, call);
    FaithfulLater(l, counts, history + [call], call.now, call.later);
    CleanedFaithful(l, counts, history + [call], call.later);
    LoginStepOutcome(l, maxIps, st, call);
  }

  lemma {:induction false} LoginRunFaithful(l: Limits, maxIps: int, history: seq<Call>, now: real)
    requires ReadBy(history, now)
    ensures Faithful(l, LoginRun(l, maxIps, history).counts, history, now)
  {
    if history != [] {
      var n := |history| - 1;
      LastCall(history);
      LoginRunFaithful(l, maxIps, history[..n], history[n].now);
      LoginStepFaithful(l, maxIps, LoginRun(l, maxIps, history[..n]), history[..n], history[n]);
      FaithfulLater(l, LoginRun(l, maxIps, history).counts, history, history[n].later, now);
    }
  }

  /** Over every interleaving of IPs with a monotone clock, both limiters decide the next
      call as the limiter that keeps every admission of that IP forever. */
  lemma ForgettingChangesNothing(l: Limits, maxIps: int, history: seq<Call>, call: Call)
    requires MonotoneClock(history + [call])
    ensures var ideal := Admits(l, FullLog(l, history, call.ip), call.now);
      && PlainStep(l, PlainRun(l, history), call).1 == ideal
      && LoginStep(l, maxIps, LoginRun(l, maxIps, history), call).1 == ideal
  {
    LastCall(history + [call]);
    assert (history + [call])[..|history|] == history;
    PlainRunFaithful(l, history, call.now);
    LoginRunFaithful(l, maxIps, history, call.now);
    PlainStepFaithful(l, PlainRun(l, history), history, call);
    LoginStepFaithful(l, maxIps, LoginRun(l, maxIps, history), history, call);
  }

  // ----- What the running limiters admit --------------------------------------------

  /** The times at which the general limiter admitted `ip`. */
  function PlainAdmitted(l: Limits, history: seq<Call>, ip: string): seq<real> {
    if history == [] then []
    else
      var init, call := history[..|history| - 1], history[|history| - 1];
      var log := PlainAdmitted(l, init, ip);
      if call.ip == ip && PlainStep(l, PlainRun(l, init), call).1 then log + [call.now] else log
  }

  /** The times at which the login limiter admitted `ip`. */
  function LoginAdmitted(l: Limits, maxIps: int, history: seq<Call>, ip: string): seq<real> {
    if history == [] then []
    else
      var init, call := history[..|history| - 1], history[|history| - 1];
      var log := LoginAdmitted(l, maxIps, init, ip);
      if call.ip == ip && LoginStep(l, maxIps, LoginRun(l, maxIps, init), call).1 then log + [call.now] else log
  }

  /** Over every interleaving both limiters admit an IP exactly when the limiter that never
      forgets does. */
  lemma {:induction false} AdmissionsAreIdeal(l: Limits, maxIps: int, history: seq<Call>, ip: string)
    requires MonotoneClock(history)
    ensures PlainAdmitted(l, history, ip) == FullLog(l, history, ip)
    ensures LoginAdmitted(l, maxIps, history, ip) == FullLog(l, history, ip)
  {
    if history != [] {
      var init, call := history[..|history| - 1], history[|history| - 1];
      LastCall(history);
      AdmissionsAreIdeal(l, maxIps, init, ip);
      ForgettingChangesNothing(l, maxIps, init, call);
      FullLogNext(l, init, call, ip);
    }
  }

  lemma UpToLater(times: seq<real>, now: real, later: real)
    requires UpTo(times, now) && now <= later
    ensures UpTo(times, later)
  {
  }

  lemma SortedAppend(times: seq<real>, t: real)
    requires Sorted(times) && UpTo(times, t)
    ensures Sorted(times + [t]) && UpTo(times + [t], t)
  {
  }

  lemma {:induction false} ArrivalsSorted(history: seq<Call>, ip: string, now: real)
    requires ReadBy(history, now)
    ensures Sorted(ArrivalsOf(history, ip)) && UpTo(ArrivalsOf(history, ip), now)
  {
    if history != [] {
      var n := |history| - 1;
      var rest := ArrivalsOf(history[..n], ip);
      LastCall(history);
      ArrivalsSorted(history[..n], ip, history[n].now);
      SortedAppend(rest, history[n].now);
      UpToLater(rest, history[n].now, now);
      UpToLater(rest + [history[n].now], history[n].now, now);
    }
  }

  lemma ReadByLast(history: seq<Call>) returns (now: real)
    requires MonotoneClock(history)
    ensures ReadBy(history, now)
  {
    now := if history == [] then 0.0 else history[|history| - 1].later;
  }

  /** Over every interleaving of IPs with a monotone clock, neither limiter admits an IP more
      than `max` times in any half-open window of the configured length. */
  lemma RunWindowBound(l: Limits, maxIps: int, history: seq<Call>, ip: string, lo: real)
    requires MonotoneClock(history) && l.max >= 0 && l.window >= 0.0
    ensures CountIn(PlainAdmitted(l, history, ip), lo, lo + l.window) <= l.max
    ensures CountIn(LoginAdmitted(l, maxIps, history, ip), lo, lo + l.window) <= l.max
  {
    AdmissionsAreIdeal(l, maxIps, history, ip);
    var now := ReadByLast(history);
    ArrivalsSorted(history, ip, now);
    WindowBound(l, ArrivalsOf(history, ip), lo);
  }

  lemma ClockBefore(history: seq<Call>, call: Call)
    requires MonotoneClock(history + [call])
    ensures ReadBy(history, call.now)
  {
    LastCall(history + [call]);
    assert (history + [call])[..|history|] == history;
  }

  /** The limiter that never forgets denies the next call exactly when its IP has `max`
      admissions in the window that ends at it. */
  lemma IdealDeniesExactly(l: Limits, history: seq<Call>, call: Call)
    requires MonotoneClock(history + [call]) && l.max >= 0 && l.window >= 0.0
    ensures !Admits(l, FullLog(l, history, call.ip), call.now) <==>
      CountIn(FullLog(l, history, call.ip), call.now - l.window, call.now) == l.max
  {
    ClockBefore(history, call);
    ArrivalsSorted(history, call.ip, call.now);
    DeniedExactly(l, ArrivalsOf(history, call.ip), call.now);
  }

  /** The general limiter denies the next call if and only if its IP has `max` admissions in the
      window that ends at it. */
  lemma PlainRunDeniesExactly(l: Limits, history: seq<Call>, call: Call)
    requires MonotoneClock(history + [call]) && l.max >= 0 && l.window >= 0.0
    ensures !PlainStep(l, PlainRun(l, history), call).1 <==>
      CountIn(PlainAdmitted(l, history, call.ip), call.now - l.window, call.now) == l.max
  {
    ClockBefore(history, call);
    IdealDeniesExactly(l, history, call);
    ForgettingChangesNothing(l, 0, history, call);
    AdmissionsAreIdeal(l, 0, history, call.ip);
  }

  /** So does the login limiter. */
  lemma LoginRunDeniesExactly(l: Limits, maxIps: int, history: seq<Call>, call: Call)
    requires MonotoneClock(history + [call]) && l.max >= 0 && l.window >= 0.0
    ensures !LoginStep(l, maxIps, LoginRun(l, maxIps, history), call).1 <==>
      CountIn(LoginAdmitted(l, maxIps, history, call.ip), call.now - l.window, call.now) == l.max
  {
    ClockBefore(history, call);
    IdealDeniesExactly(l, history, call);
    ForgettingChangesNothing(l, maxIps, history, call);
    AdmissionsAreIdeal(l, maxIps, history, call.ip);
  }

  /** No policy that keeps the bound for an IP admits more of its calls than either limiter. */
  lemma RunIsOptimal(l: Limits, maxIps: int, history: seq<Call>, ip: string, choice: seq<bool>)
    requires MonotoneClock(history) && (l.max >= 1 || l.window > 0.0)
    requires |choice| == |ArrivalsOf(history, ip)| && Respects(l, Chosen(ArrivalsOf(history, ip), choice))
    ensures |Chosen(ArrivalsOf(history, ip), choice)| <= |PlainAdmitted(l, history, ip)|
    ensures |Chosen(ArrivalsOf(history, ip), choice)| <= |LoginAdmitted(l, maxIps, history, ip)|
  {
    AdmissionsAreIdeal(l, maxIps, history, ip);
    var now := ReadByLast(history);
    ArrivalsSorted(history, ip, now);
    GreedyStaysAhead(l, ArrivalsOf(history, ip), choice);
  }

  // ----- How much the login limiter remembers ---------------------------------------

  /** A cleanup keeps exactly the IPs with an admission inside the window. */
  lemma CleanupKeepsActive(l: Limits, counts: Counts, history: seq<Call>, now: real, ip: string)
    requires Faithful(l, counts, history, now)
    ensures ip in Cleaned(counts, now - l.window) <==> Live(FullLog(l, history, ip), now - l.window) != []
  {
    var times, cutoff := Times(counts, ip), now - l.window;
    assert FaithfulAt(l, counts, history, now, ip);
    if Stale(times, cutoff) {
      StaleNeverLive(times, cutoff, cutoff);
    }
  }

  /** How many IPs the last cleanup left, zero before the first. */
  function LeftByCleanup(l: Limits, maxIps: int, history: seq<Call>): nat {
    if history == [] then 0
    else
      var n := |history| - 1;
      var st, st' := LoginRun(l, maxIps, history[..n]), LoginRun(l, maxIps, history);
      if st'.cleanupCounter == 0 && LoginStep(l, maxIps, st, history[n]).1 then |st'.counts|
      else LeftByCleanup(l, maxIps, history[..n])
  }

  /** How many of the calls from index `lo` on the login limiter admitted. */
  function Admissions(l: Limits, maxIps: int, history: seq<Call>, lo: nat): nat {
    if |history| <= lo then 0
    else
      var init, call := history[..|history| - 1], history[|history| - 1];
      Admissions(l, maxIps, init, lo) + if LoginStep(l, maxIps, LoginRun(l, maxIps, init), call).1 then 1 else 0
  }

  /** The last call was admitted and a cleanup followed. */
  predicate Cleans(l: Limits, maxIps: int, history: seq<Call>) {
    && history != []
    && LoginStep(l, maxIps, LoginRun(l, maxIps, history[..|history| - 1]), history[|history| - 1]).1
    && LoginRun(l, maxIps, history).cleanupCounter == 0
  }

  /** How many calls came up to the last cleanup, that one included. */
  function UpToCleanup(l: Limits, maxIps: int, history: seq<Call>): nat {
    if history == [] then 0
    else if Cleans(l, maxIps, history) then |history|
    else UpToCleanup(l, maxIps, history[..|history| - 1])
  }

  lemma {:induction false} CounterIsAdmissions(l: Limits, maxIps: int, history: seq<Call>)
    ensures UpToCleanup(l, maxIps, history) <= |history|
    ensures LoginRun(l, maxIps, history).cleanupCounter ==
      Admissions(l, maxIps, history, UpToCleanup(l, maxIps, history))
  {
    if history != [] {
      CounterIsAdmissions(l, maxIps, history[..|history| - 1]);
    }
  }

  /** A cleanup follows a call if and only if the call is admitted, at least a hundred were since
      the last cleanup, and more IPs are tracked than configured; it takes the stale IPs out of
      the table, which otherwise is that of the general limiter's step. */
  lemma CleanupExactly(l: Limits, maxIps: int, history: seq<Call>, call: Call)
    ensures var (counts, ok) := PlainStep(l, LoginRun(l, maxIps, history).counts, call);
      var all := history + [call];
      var due := ok && Admissions(l, maxIps, all, UpToCleanup(l, maxIps, history)) >= 100 && |counts| > maxIps;
      && (Cleans(l, maxIps, all) <==> due)
      && LoginRun(l, maxIps, all).counts == if due then Cleaned(counts, call.later - l.window) else counts
  {
    assert (history + [call])[..|history|] == history;
    CounterIsAdmissions(l, maxIps, history);
  }

  function IpsOf(history: seq<Call>): set<string> {
    if history == [] then {} else IpsOf(history[..|history| - 1]) + {history[|history| - 1].ip}
  }

  /** The table never outgrows the configured number of IPs, or else the IPs active at the
      last cleanup, by more than 99. With a limit of zero there is no bound: no call is
      admitted, so no cleanup ever runs, and every IP ever seen is tracked. */
  lemma {:induction false} TrackedIpsBounded(l: Limits, maxIps: int, history: seq<Call>)
    ensures var st := LoginRun(l, maxIps, history);
      l.max >= 1 ==>
        && |st.counts| <= LeftByCleanup(l, maxIps, history) + st.cleanupCounter
        && (st.cleanupCounter >= 100 ==> |st.counts| <= maxIps)
        && (|st.counts| <= maxIps || |st.counts| <= LeftByCleanup(l, maxIps, history) + 99)
    ensures l.max <= 0 ==> LoginRun(l, maxIps, history).counts.Keys == IpsOf(history)
  {
    if history != [] {
      var n := |history| - 1;
      var st, call := LoginRun(l, maxIps, history[..n]), history[n];
      TrackedIpsBounded(l, maxIps, history[..n]);
      if l.max >= 1 {
        PlainStepGrowth(l, st.counts, call);
      }
    }
  }

  /** Only an admission can make the table grow, and by one IP at most. */
  lemma PlainStepGrowth(l: Limits, counts: Counts, call: Call)
    requires l.max >= 1
    ensures var (counts', ok) := PlainStep(l, counts, call);
      |counts'| <= if ok then |counts| + 1 else |counts|
  {
    var (counts', ok) := PlainStep(l, counts, call);
    assert counts'.Keys == counts.Keys + {call.ip};
    assert call.ip in counts ==> counts'.Keys == counts.Keys;
    assert ok || call.ip in counts;
    assert |counts'| == |counts'.Keys| && |counts| == |counts.Keys|;
  }
}
