/**
 * `rate_limit`: a sliding window of the timestamps of recent calls, pruned
 * of those older than `per_seconds` and bounded to `max_requests`; a call
 * that finds the pruned window full sleeps until its oldest entry expires.
 * Time is counted in whole ticks and a sleep lasts exactly as asked.
 */
module RateLimit {
  import opened Common

  /** The arguments every sheet client method is decorated with. */
  const DefaultMaxRequests: int := 60
  const DefaultPerSeconds: int := 60

  /** One decorated function's limiter: its bounds and the window of timestamps. */
  datatype Limiter = Limiter(maxRequests: int, perSeconds: int, window: seq<int>)

  /**
   * `deque(maxlen=...)` rejects a negative length when the decorator is
   * applied; with length 0 the first call reads `timestamps[0]` of an empty
   * window.
   */
  datatype LimitError = NegativeMaxLength | EmptyWindow

  /** `rate_limit(max_requests, per_seconds)`: an empty window. */
  function NewLimiter(maxRequests: int, perSeconds: int): (r: Result<Limiter, LimitError>)
    ensures r.Ok? <==> maxRequests >= 0
    ensures r.Ok? ==> r.value == Limiter(maxRequests, perSeconds, [])
  {
    if maxRequests < 0 then Err(NegativeMaxLength) else Ok(Limiter(maxRequests, perSeconds, []))
  }

  /**
   * How many timestamps the `while` loop drops from the front: those at
   * least `per` old, up to the first one that is younger.
   */
  function Expired(window: seq<int>, now: int, per: int): (k: nat)
    ensures k <= |window|
    ensures forall i | 0 <= i < k :: now - window[i] >= per
    ensures k < |window| ==> now - window[k] < per
  {
    if window != [] && now - window[0] >= per then 1 + Expired(window[1..], now, per) else 0
  }

  /** The window after the `while` loop. */
  function Prune(window: seq<int>, now: int, per: int): (r: seq<int>)
    ensures |r| <= |window|
  {
    window[Expired(window, now, per)..]
  }

  predicate Sorted(s: seq<int>) {
    forall i, j | 0 <= i < j < |s| :: s[i] <= s[j]
  }

  /** For a window in time order, every timestamp left after pruning is younger than `per`. */
  lemma PruneLeavesRecent(window: seq<int>, now: int, per: int)
    requires Sorted(window)
    ensures forall i | 0 <= i < |Prune(window, now, per)| :: now - Prune(window, now, per)[i] < per
  {
    var k := Expired(window, now, per);
    forall i | 0 <= i < |Prune(window, now, per)| ensures now - Prune(window, now, per)[i] < per {
      assert Prune(window, now, per)[i] == window[k + i];
    }
  }

  /** `deque.append` on a deque of length at most `maxLen`: the oldest entry falls out when it is full. */
  function Append(window: seq<int>, t: int, maxLen: int): (r: seq<int>)
    requires 1 <= maxLen && |window| <= maxLen
    ensures |r| <= maxLen && r != [] && r[|r| - 1] == t
  {
    if |window| < maxLen then window + [t] else window[1..] + [t]
  }

  /** A call let through: the limiter after it, how long it slept, and the timestamp it recorded. */
  datatype Admission = Admission(limiter: Limiter, slept: int, stamp: int)

  /**
   * One call of the wrapper at clock reading `now`: prune, sleep if the
   * window is still full, record the timestamp read after the sleep.
   */
  function Admit(l: Limiter, now: int): (r: Result<Admission, LimitError>)
    requires 0 <= l.maxRequests && |l.window| <= l.maxRequests
    ensures r.Err? <==> l.maxRequests == 0
    ensures r.Ok? ==>
      && r.value.slept >= 0
      && r.value.stamp == now + r.value.slept
      && r.value.limiter.maxRequests == l.maxRequests && r.value.limiter.perSeconds == l.perSeconds
      && r.value.limiter.window == Append(Prune(l.window, now, l.perSeconds), r.value.stamp, l.maxRequests)
      && |r.value.limiter.window| <= l.maxRequests
  {
    var w := Prune(l.window, now, l.perSeconds);
    if |w| >= l.maxRequests && w == [] then Err(EmptyWindow)
    else
      var wait := if |w| >= l.maxRequests then w[0] + l.perSeconds - now else 0;
      var slept := if wait > 0 then wait else 0;
      Ok(Admission(l.(window := Append(w, now + slept, l.maxRequests)), slept, now + slept))
  }

  /**
   * A call sleeps only when the pruned window is full, and then exactly
   * until the oldest remaining timestamp is `per` old; when the window is
   * full the timestamp is never earlier than that.
   */
  lemma AdmitSleepsOnlyWhenFull(l: Limiter, now: int, a: Admission)
    requires 0 <= l.maxRequests && |l.window| <= l.maxRequests && Admit(l, now) == Ok(a)
    ensures var w := Prune(l.window, now, l.perSeconds);
      && (a.slept > 0 ==> |w| >= l.maxRequests && a.slept == w[0] + l.perSeconds - now)
      && (|w| >= l.maxRequests ==> a.stamp >= w[0] + l.perSeconds)
  {
  }

  /** A series of calls: the limiter and clock after them, and each call's timestamp and sleep. */
  datatype Trace = Trace(limiter: Limiter, clock: int, stamps: seq<int>, sleeps: seq<int>)

  /** The window holds the most recent timestamps. */
  ghost predicate WindowIsRecent(t: Trace) {
    |t.limiter.window| <= |t.stamps| && t.limiter.window == t.stamps[|t.stamps| - |t.limiter.window|..]
  }

  /** Every timestamp that left the window lies more than `max` calls back or had expired by the clock. */
  ghost predicate LeftWindowExpired(t: Trace) {
    forall i | 0 <= i < |t.stamps| - |t.limiter.window| ::
      i < |t.stamps| - t.limiter.maxRequests || t.stamps[i] + t.limiter.perSeconds <= t.clock
  }

  /** Any `max + 1` consecutive timestamps span at least `per`. */
  ghost predicate Spaced(h: seq<int>, max: int, per: int) {
    forall i, j | 0 <= i < j < |h| && j == i + max :: h[j] - h[i] >= per
  }

  /** The clock stands at the last timestamp, or at `start` before the first call. */
  ghost predicate ClockAtLast(t: Trace, start: int) {
    && (t.stamps == [] ==> t.clock == start)
    && (t.stamps != [] ==> t.clock == t.stamps[|t.stamps| - 1] && start <= t.stamps[0])
  }

  /** What holds after any series of calls from a fresh limiter. */
  ghost predicate TraceInvariant(t: Trace, start: int) {
    && WindowIsRecent(t)
    && LeftWindowExpired(t)
    && Spaced(t.stamps, t.limiter.maxRequests, t.limiter.perSeconds)
    && Sorted(t.stamps)
    && ClockAtLast(t, start)
  }

  /** The trace after one more admitted call. */
  function Extend(t: Trace, a: Admission): Trace {
    Trace(a.limiter, a.stamp, t.stamps + [a.stamp], t.sleeps + [a.slept])
  }

  /** Dropping some oldest entries of a suffix and appending `x` gives a suffix of the extended sequence. */
  lemma SuffixStep(h: seq<int>, window: seq<int>, k: nat, x: int, window': seq<int>)
    requires |window| <= |h| && window == h[|h| - |window|..] && k <= |window|
    requires window' == window[k..] + [x] || (k < |window| && window' == window[k + 1..] + [x])
    ensures |window'| <= |h| + 1 && window' == (h + [x])[|h| + 1 - |window'|..]
  {
    var base := |h| - |window|;
    if window' == window[k..] + [x] {
      assert window[k..] == h[base + k..];
    } else {
      assert window[k + 1..] == h[base + k + 1..];
    }
  }

  /** The window after an admitted call: the pruned window, less its oldest entry when full, plus the timestamp. */
  lemma AdmitWindow(l: Limiter, now: int, a: Admission)
    requires 0 <= l.maxRequests && |l.window| <= l.maxRequests && Admit(l, now) == Ok(a)
    ensures var k := Expired(l.window, now, l.perSeconds);
      if |l.window| - k < l.maxRequests then a.limiter.window == l.window[k..] + [a.stamp]
      else k < |l.window| && a.limiter.window == l.window[k + 1..] + [a.stamp]
  {
    var k := Expired(l.window, now, l.perSeconds);
    var w := Prune(l.window, now, l.perSeconds);
    assert w == l.window[k..];
    if |l.window| - k >= l.maxRequests {
      assert w[1..] == l.window[k + 1..];
    }
  }

  /** Dropping `k` or `k + 1` of the oldest entries and appending the new timestamp keeps the window a suffix of the history. */
  lemma WindowStepRecent(t: Trace, k: nat, a: Admission)
    requires WindowIsRecent(t) && k <= |t.limiter.window|
    requires var w := t.limiter.window;
      a.limiter.window == w[k..] + [a.stamp] || (k < |w| && a.limiter.window == w[k + 1..] + [a.stamp])
    ensures WindowIsRecent(Extend(t, a))
  {
    SuffixStep(t.stamps, t.limiter.window, k, a.stamp, a.limiter.window);
  }

  lemma AdmitKeepsWindowRecent(t: Trace, now: int, a: Admission)
    requires 0 <= t.limiter.maxRequests && |t.limiter.window| <= t.limiter.maxRequests
    requires WindowIsRecent(t) && Admit(t.limiter, now) == Ok(a)
    ensures WindowIsRecent(Extend(t, a))
  {
    AdmitWindow(t.limiter, now, a);
    WindowStepRecent(t, Expired(t.limiter.window, now, t.limiter.perSeconds), a);
  }

  /**
   * An entry leaves the window either because it had expired by `now` or,
   * when the window was full, because it was the oldest; in both cases it
   * satisfies the invariant for the extended trace.
   */
  lemma LeftStepExpired(t: Trace, now: int, k: nat, a: Admission)
    requires WindowIsRecent(t) && LeftWindowExpired(t) && t.clock <= now <= a.stamp
    requires a.limiter.maxRequests == t.limiter.maxRequests && a.limiter.perSeconds == t.limiter.perSeconds
    requires k <= |t.limiter.window|
    requires forall i | 0 <= i < k :: now - t.limiter.window[i] >= t.limiter.perSeconds
    requires var w := t.limiter.window;
      if |w| - k < t.limiter.maxRequests then a.limiter.window == w[k..] + [a.stamp]
      else k < |w| && a.limiter.window == w[k + 1..] + [a.stamp]
    ensures LeftWindowExpired(Extend(t, a))
  {
    var l := t.limiter;
    var h := t.stamps;
    var h' := h + [a.stamp];
    var base := |h| - |l.window|;
    var gone := if |l.window| - k < l.maxRequests then base + k else base + k + 1;
    assert |h'| - |a.limiter.window| == gone;
    forall i | 0 <= i < gone
      ensures i < |h'| - l.maxRequests || h'[i] + l.perSeconds <= a.stamp
    {
      if base <= i < base + k {
        assert h'[i] == l.window[i - base];
      }
    }
  }

  lemma AdmitKeepsLeftExpired(t: Trace, now: int, a: Admission)
    requires 0 <= t.limiter.maxRequests && |t.limiter.window| <= t.limiter.maxRequests
    requires WindowIsRecent(t) && LeftWindowExpired(t) && t.clock <= now && Admit(t.limiter, now) == Ok(a)
    ensures LeftWindowExpired(Extend(t, a))
  {
    AdmitWindow(t.limiter, now, a);
    LeftStepExpired(t, now, Expired(t.limiter.window, now, t.limiter.perSeconds), a);
  }

  lemma AdmitKeepsSpaced(t: Trace, now: int, a: Admission)
    requires 0 <= t.limiter.maxRequests && |t.limiter.window| <= t.limiter.maxRequests
    requires WindowIsRecent(t) && LeftWindowExpired(t) && t.clock <= now && Admit(t.limiter, now) == Ok(a)
    requires Spaced(t.stamps, t.limiter.maxRequests, t.limiter.perSeconds)
    ensures Spaced(Extend(t, a).stamps, t.limiter.maxRequests, t.limiter.perSeconds)
  {
    var l := t.limiter;
    var max := l.maxRequests;
    AdmitSleepsOnlyWhenFull(l, now, a);
    var h := t.stamps;
    var h' := h + [a.stamp];
    var k := Expired(l.window, now, l.perSeconds);
    var w := Prune(l.window, now, l.perSeconds);
    var base := |h| - |l.window|;
    forall i, j | 0 <= i < j < |h'| && j == i + max ensures h'[j] - h'[i] >= l.perSeconds {
      if j == |h| {
        if i >= base + k {
          assert w[0] == l.window[k] == h[i];
        } else if i >= base {
          assert h[i] == l.window[i - base];
        }
      } else {
        assert h'[i] == h[i] && h'[j] == h[j];
      }
    }
  }

  lemma AdmitKeepsOrder(t: Trace, start: int, now: int, a: Admission)
    requires 0 <= t.limiter.maxRequests && |t.limiter.window| <= t.limiter.maxRequests
    requires Sorted(t.stamps) && ClockAtLast(t, start) && t.clock <= now && Admit(t.limiter, now) == Ok(a)
    ensures Sorted(Extend(t, a).stamps) && ClockAtLast(Extend(t, a), start)
  {
    var h' := t.stamps + [a.stamp];
    forall i, j | 0 <= i < j < |h'| ensures h'[i] <= h'[j] {
      if j == |t.stamps| && i < j {
        assert t.stamps[i] <= t.stamps[|t.stamps| - 1];
      }
    }
  }

  lemma AdmitKeepsInvariant(t: Trace, start: int, now: int, a: Admission)
    requires 0 <= t.limiter.maxRequests && |t.limiter.window| <= t.limiter.maxRequests
    requires TraceInvariant(t, start) && t.clock <= now && Admit(t.limiter, now) == Ok(a)
    ensures TraceInvariant(Extend(t, a), start)
  {
    AdmitKeepsWindowRecent(t, now, a);
    AdmitKeepsLeftExpired(t, now, a);
    AdmitKeepsSpaced(t, now, a);
    AdmitKeepsOrder(t, start, now, a);
  }

  /** Every timestamp is the previous one (or `start`) plus the gap before the call plus the call's sleep. */
  ghost predicate Paced(t: Trace, start: int, gaps: seq<nat>) {
    && |t.stamps| == |t.sleeps| <= |gaps|
    && forall k | 0 <= k < |t.stamps| ::
         t.sleeps[k] >= 0 && t.stamps[k] == (if k == 0 then start else t.stamps[k - 1]) + gaps[k] + t.sleeps[k]
  }

  lemma PacedAt(t: Trace, start: int, gaps: seq<nat>, k: int)
    requires Paced(t, start, gaps) && 0 <= k < |t.stamps|
    ensures t.sleeps[k] >= 0 && t.stamps[k] == (if k == 0 then start else t.stamps[k - 1]) + gaps[k] + t.sleeps[k]
  {
  }

  /** Recording one more admitted call, made `gaps[|t.stamps|]` ticks after the last, keeps the pacing. */
  lemma ExtendKeepsPaced(t: Trace, start: int, gaps: seq<nat>, now: int, a: Admission)
    requires Paced(t, start, gaps) && |t.stamps| < |gaps| && ClockAtLast(t, start)
    requires now == t.clock + gaps[|t.stamps|] && a.slept >= 0 && a.stamp == now + a.slept
    ensures Paced(Extend(t, a), start, gaps)
  {
    var t' := Extend(t, a);
    assert |t'.stamps| == |t.stamps| + 1 && |t'.sleeps| == |t.sleeps| + 1;
    forall k | 0 <= k < |t'.stamps|
      ensures t'.sleeps[k] >= 0 && t'.stamps[k] == (if k == 0 then start else t'.stamps[k - 1]) + gaps[k] + t'.sleeps[k]
    {
      if k > 0 {
        assert t'.stamps[k - 1] == t.stamps[k - 1];
      }
      if k < |t.stamps| {
        assert t'.stamps[k] == t.stamps[k] && t'.sleeps[k] == t.sleeps[k];
        PacedAt(t, start, gaps, k);
      } else {
        assert t'.stamps[k] == a.stamp && t'.sleeps[k] == a.slept;
        assert t.clock == (if k == 0 then start else t.stamps[k - 1]);
      }
    }
    assert |t'.stamps| == |t'.sleeps| <= |gaps|;
    assert Paced(t', start, gaps);
  }

  /** One admitted call of the series keeps every loop invariant of `CallSeries`. */
  lemma SeriesStep(t: Trace, start: int, gaps: seq<nat>, now: int, a: Admission)
    requires 0 <= t.limiter.maxRequests && |t.limiter.window| <= t.limiter.maxRequests
    requires TraceInvariant(t, start) && Paced(t, start, gaps) && |t.stamps| < |gaps|
    requires now == t.clock + gaps[|t.stamps|] && Admit(t.limiter, now) == Ok(a)
    ensures Extend(t, a).limiter.maxRequests == t.limiter.maxRequests
    ensures Extend(t, a).limiter.perSeconds == t.limiter.perSeconds
    ensures |Extend(t, a).limiter.window| <= t.limiter.maxRequests
    ensures TraceInvariant(Extend(t, a), start) && Paced(Extend(t, a), start, gaps)
    ensures |Extend(t, a).stamps| == |t.stamps| + 1
  {
    AdmitKeepsInvariant(t, start, now, a);
    ExtendKeepsPaced(t, start, gaps, now, a);
  }

  /**
   * Successive calls through one decorated function from clock `start`,
   * where `gaps[k]` ticks pass between the end of call `k - 1` and the start
   * of call `k`. With `max >= 1` no call is ever refused, the timestamps are
   * in order, each is the previous one plus the gap plus the call's sleep,
   * and any `max + 1` consecutive calls are at least `per` apart, so no more
   * than `max` calls start within any `per` ticks.
   */
  method CallSeries(maxRequests: int, perSeconds: int, start: int, gaps: seq<nat>)
    returns (r: Result<Trace, LimitError>)
    requires maxRequests >= 0
    ensures r.Err? <==> maxRequests == 0 && gaps != []
    ensures r.Ok? ==>
      && |r.value.stamps| == |gaps|
      && Sorted(r.value.stamps)
      && Paced(r.value, start, gaps)
      && Spaced(r.value.stamps, maxRequests, perSeconds)
  {
    var t := Trace(Limiter(maxRequests, perSeconds, []), start, [], []);
    while |t.stamps| < |gaps|
      invariant t.limiter.maxRequests == maxRequests && t.limiter.perSeconds == perSeconds
      invariant |t.limiter.window| <= maxRequests
      invariant TraceInvariant(t, start) && Paced(t, start, gaps)
      invariant maxRequests == 0 ==> t.stamps == []
      decreases |gaps| - |t.stamps|
    {
      var now := t.clock + gaps[|t.stamps|];
      match Admit(t.limiter, now)
      case Err(e) =>
        return Err(e);
      case Ok(a) =>
        SeriesStep(t, start, gaps, now, a);
        t := Extend(t, a);
    }
    return Ok(t);
  }

  /** The decorated methods of the sheet client; each application of the decorator has its own limiter. */
  datatype ClientMethod =
    | WriteRowMethod | GetColumnValuesMethod | GetRowValuesMethod
    | UpdateCellsMethod | FindMethod | FindLastMethod

  /** One limiter per decorated method, all with the default bounds and an empty window. */
  function NewThrottles(): (ts: map<ClientMethod, Limiter>)
    ensures ts.Keys == {WriteRowMethod, GetColumnValuesMethod, GetRowValuesMethod,
                        UpdateCellsMethod, FindMethod, FindLastMethod}
    ensures forall m | m in ts :: ts[m] == Limiter(DefaultMaxRequests, DefaultPerSeconds, [])
  {
    var idle := Limiter(DefaultMaxRequests, DefaultPerSeconds, []);
    map[WriteRowMethod := idle, GetColumnValuesMethod := idle, GetRowValuesMethod := idle,
        UpdateCellsMethod := idle, FindMethod := idle, FindLastMethod := idle]
  }

  /** A call to method `m` at `now` passes through `m`'s limiter only; every other window is untouched. */
  function AdmitCall(ts: map<ClientMethod, Limiter>, m: ClientMethod, now: int)
    : (r: Result<(map<ClientMethod, Limiter>, Admission), LimitError>)
    requires m in ts && 0 <= ts[m].maxRequests && |ts[m].window| <= ts[m].maxRequests
    ensures r.Ok? <==> Admit(ts[m], now).Ok?
    ensures r.Ok? ==>
      && r.value.0.Keys == ts.Keys
      && r.value.0[m] == r.value.1.limiter
      && forall m' | m' in ts && m' != m :: r.value.0[m'] == ts[m']
  {
    match Admit(ts[m], now)
    case Err(e) => Err(e)
    case Ok(a) => Ok((ts[m := a.limiter], a))
  }
}
