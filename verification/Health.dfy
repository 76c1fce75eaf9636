/** Transports, probe results and the per-transport health machine
    (src/engine/mod.rs: `TransportRuntime`, `probe_once`, `threshold`, `staleness`).
    Instants are integers in nanoseconds. */
module Health {
  import opened Wrappers

  const SECOND := 1_000_000_000
  const MILLISECOND := 1_000_000

  datatype TransportState = Unknown | Up | Down

  /** The configured half of a transport. Its `id` is the persisted identity. */
  datatype Spec = Spec(id: string, address: string, interface: string, priority: int,
                       upThreshold: int, downThreshold: int)

  datatype Transport = Transport(spec: Spec, state: TransportState, successes: int, failures: int,
                                 address: string, lastSuccess: Option<int>)

  datatype ProbeResult = ProbeResult(healthy: bool, address: string)

  function Cold(s: Spec): Transport {
    Transport(s, Unknown, 0, 0, "", None)
  }

  function Threshold(v: int, def: int): int {
    if v <= 0 then def else v
  }

  /** A healthy result that carries anything but an address literal is a failure without address. */
  function Sanitized(r: ProbeResult, isLiteral: string -> bool): ProbeResult {
    if r.healthy && r.address != "" && !isLiteral(r.address) then ProbeResult(false, "") else r
  }

  // -- the counters ----------------------------------------------------------------------

  datatype Counters = Counters(state: TransportState, successes: int, failures: int)

  function Min(a: int, b: int): int {
    if a < b then a else b
  }

  /** One result moves one counter, capped at its threshold, and clears the other. The source
      adds with saturation first, which the cap makes unobservable. */
  function Count(c: Counters, healthy: bool, up: int, down: int): Counters {
    if healthy then
      var n := Min(c.successes + 1, up);
      Counters(if c.state != Up && n >= up then Up else c.state, n, 0)
    else
      var n := Min(c.failures + 1, down);
      Counters(if c.state != Down && n >= down then Down else c.state, 0, n)
  }

  /** What one sanitized result, observed at `at`, does to a transport. */
  function Recorded(t: Transport, r: ProbeResult, at: int): Transport {
    var c := Count(Counters(t.state, t.successes, t.failures), r.healthy,
                   Threshold(t.spec.upThreshold, 2), Threshold(t.spec.downThreshold, 3));
    Transport(t.spec, c.state, c.successes, c.failures,
              if r.healthy && r.address != "" then r.address
              else if t.address == "" then t.spec.address else t.address,
              if r.healthy then Some(at) else t.lastSuccess)
  }

  // -- the counters refine a window over the probe history -------------------------------

  /** The machine after the results `h`, oldest first, from a cold start. */
  function Machine(h: seq<bool>, up: int, down: int): Counters {
    if h == [] then Counters(Unknown, 0, 0)
    else Count(Machine(h[..|h| - 1], up, down), h[|h| - 1], up, down)
  }

  /** After `k` results the last `n` all equal `healthy`. */
  predicate Window(h: seq<bool>, n: int, healthy: bool, k: int) {
    0 < n <= k <= |h| && forall i :: k - n <= i < k ==> h[i] == healthy
  }

  /** How many of the latest results equal `healthy` without interruption. */
  function Streak(h: seq<bool>, healthy: bool): nat {
    if h == [] || h[|h| - 1] != healthy then 0 else 1 + Streak(h[..|h| - 1], healthy)
  }

  lemma {:induction false} StreakIsWindow(h: seq<bool>, n: int, healthy: bool)
    requires n > 0
    ensures Streak(h, healthy) <= |h|
    ensures Streak(h, healthy) >= n <==> Window(h, n, healthy, |h|)
  {
    if h != [] {
      var p := h[..|h| - 1];
      if n > 1 {
        StreakIsWindow(p, n - 1, healthy);
        if Window(p, n - 1, healthy, |p|) && h[|h| - 1] == healthy {
          forall i | |h| - n <= i < |h| ensures h[i] == healthy {
            assert i < |p| ==> h[i] == p[i];
          }
        }
        if Window(h, n, healthy, |h|) {
          forall i | |p| - (n - 1) <= i < |p| ensures p[i] == healthy {
            assert h[i] == p[i];
          }
        }
      } else {
        StreakIsWindow(p, 1, healthy);
      }
    }
  }

  /** The capped counters are the capped streaks. */
  lemma {:induction false} CountersAreStreaks(h: seq<bool>, up: int, down: int)
    requires up > 0 && down > 0
    ensures Machine(h, up, down).successes == Min(Streak(h, true), up)
    ensures Machine(h, up, down).failures == Min(Streak(h, false), down)
  {
    if h != [] {
      CountersAreStreaks(h[..|h| - 1], up, down);
    }
  }

  /** The moment a full window closes decides the state; any other result leaves it alone. */
  lemma StateAfterLast(h: seq<bool>, up: int, down: int)
    requires up > 0 && down > 0 && h != []
    ensures Machine(h, up, down).state
            == if Window(h, up, true, |h|) then Up
               else if Window(h, down, false, |h|) then Down
               else Machine(h[..|h| - 1], up, down).state
  {
    CountersAreStreaks(h, up, down);
    StreakIsWindow(h, up, true);
    StreakIsWindow(h, down, false);
  }

  predicate NoWindowAfter(h: seq<bool>, n: int, healthy: bool, k: int) {
    forall j :: k < j <= |h| ==> !Window(h, n, healthy, j)
  }

  /** The latest full window in `h` is one of `n` results equal to `healthy`. */
  ghost predicate LatestWindow(h: seq<bool>, n: int, other: int, healthy: bool) {
    exists k :: Window(h, n, healthy, k) && NoWindowAfter(h, other, !healthy, k)
  }

  lemma WindowOfPrefix(h: seq<bool>, n: int, healthy: bool, k: int)
    requires h != [] && k < |h|
    ensures Window(h, n, healthy, k) <==> Window(h[..|h| - 1], n, healthy, k)
  {
    if 0 < n <= k {
      assert forall i :: k - n <= i < k ==> h[i] == h[..|h| - 1][i];
    }
  }

  lemma NoWindowExtends(h: seq<bool>, n: int, healthy: bool, k: int)
    requires h != [] && k < |h|
    ensures NoWindowAfter(h, n, healthy, k)
            <==> !Window(h, n, healthy, |h|) && NoWindowAfter(h[..|h| - 1], n, healthy, k)
  {
    var p := h[..|h| - 1];
    if NoWindowAfter(h, n, healthy, k) {
      forall j | k < j <= |p| ensures !Window(p, n, healthy, j) {
        WindowOfPrefix(h, n, healthy, j);
      }
    } else if j :| k < j < |h| && Window(h, n, healthy, j) {
      WindowOfPrefix(h, n, healthy, j);
    }
  }

  lemma LatestWindowExtends(h: seq<bool>, n: int, other: int, healthy: bool)
    requires h != []
    ensures LatestWindow(h, n, other, healthy)
            <==> Window(h, n, healthy, |h|)
                 || (!Window(h, other, !healthy, |h|) && LatestWindow(h[..|h| - 1], n, other, healthy))
  {
    var p := h[..|h| - 1];
    if Window(h, n, healthy, |h|) {
      assert NoWindowAfter(h, other, !healthy, |h|);
    }
    if k :| k < |h| && Window(h, n, healthy, k) && NoWindowAfter(h, other, !healthy, k) {
      WindowOfPrefix(h, n, healthy, k);
      NoWindowExtends(h, other, !healthy, k);
    }
    if k :| !Window(h, other, !healthy, |h|) && Window(p, n, healthy, k) && NoWindowAfter(p, other, !healthy, k) {
      WindowOfPrefix(h, n, healthy, k);
      NoWindowExtends(h, other, !healthy, k);
    }
  }

  /** The counter machine refines the window specification: a transport is Up (Down) exactly when
      the latest moment closing a full window was of the healthy (failing) kind, and Unknown
      exactly when there was no such moment. */
  lemma {:induction false} MachineRefinesWindow(h: seq<bool>, up: int, down: int)
    requires up > 0 && down > 0
    ensures Machine(h, up, down).state == Up <==> LatestWindow(h, up, down, true)
    ensures Machine(h, up, down).state == Down <==> LatestWindow(h, down, up, false)
    ensures Machine(h, up, down).state == Unknown
            <==> NoWindowAfter(h, up, true, 0) && NoWindowAfter(h, down, false, 0)
  {
    if h != [] {
      MachineRefinesWindow(h[..|h| - 1], up, down);
      StateAfterLast(h, up, down);
      LatestWindowExtends(h, up, down, true);
      LatestWindowExtends(h, down, up, false);
      NoWindowExtends(h, up, true, 0);
      NoWindowExtends(h, down, false, 0);
      assert Window(h, up, true, |h|) ==> h[|h| - 1];
      assert Window(h, down, false, |h|) ==> !h[|h| - 1];
    }
  }

  // -- a transport's run -----------------------------------------------------------------

  /** A transport after a whole history of observed results. */
  function Observe(t: Transport, results: seq<(ProbeResult, int)>): Transport {
    if results == [] then t
    else
      var last := results[|results| - 1];
      Recorded(Observe(t, results[..|results| - 1]), last.0, last.1)
  }

  function Healths(results: seq<(ProbeResult, int)>): seq<bool> {
    seq(|results|, i requires 0 <= i < |results| => results[i].0.healthy)
  }

  /** A cold transport's state is a function of the health bits of its probe history alone, with the
      declared thresholds, or 2 and 3 where none is declared. */
  lemma {:induction false} ObservedIsMachine(s: Spec, results: seq<(ProbeResult, int)>)
    ensures var t := Observe(Cold(s), results);
            t.spec == s && Counters(t.state, t.successes, t.failures)
                           == Machine(Healths(results), if s.upThreshold > 0 then s.upThreshold else 2,
                                      if s.downThreshold > 0 then s.downThreshold else 3)
  {
    if results != [] {
      var p := results[..|results| - 1];
      ObservedIsMachine(s, p);
      assert Healths(results)[..|results| - 1] == Healths(p);
    }
  }

  /** What the prober returned, with the instant it was observed, as `probe_once` judges it. */
  function Judged(raws: seq<(ProbeResult, int)>, isLiteral: string -> bool): seq<(ProbeResult, int)> {
    seq(|raws|, i requires 0 <= i < |raws| => (Sanitized(raws[i].0, isLiteral), raws[i].1))
  }

  /** A healthy result that carried an address literal. */
  predicate Discovers(r: ProbeResult, isLiteral: string -> bool) {
    r.healthy && r.address != "" && isLiteral(r.address)
  }

  /** A healthy result whose address, if any, is a literal. */
  predicate Succeeds(r: ProbeResult, isLiteral: string -> bool) {
    r.healthy && (r.address == "" || isLiteral(r.address))
  }

  /** The latest result that discovered an address, or -1. */
  ghost predicate LatestDiscovery(raws: seq<(ProbeResult, int)>, isLiteral: string -> bool, k: int) {
    && -1 <= k < |raws| && (k >= 0 ==> Discovers(raws[k].0, isLiteral))
    && forall j :: k < j < |raws| ==> !Discovers(raws[j].0, isLiteral)
  }

  /** The latest result that succeeded, or -1. */
  ghost predicate LatestSuccess(raws: seq<(ProbeResult, int)>, isLiteral: string -> bool, k: int) {
    && -1 <= k < |raws| && (k >= 0 ==> Succeeds(raws[k].0, isLiteral))
    && forall j :: k < j < |raws| ==> !Succeeds(raws[j].0, isLiteral)
  }

  lemma RecordedEvidence(t: Transport, r: ProbeResult, at: int, isLiteral: string -> bool)
    ensures var n := Recorded(t, Sanitized(r, isLiteral), at);
            && n.spec == t.spec
            && n.address == (if Discovers(r, isLiteral) then r.address else if t.address == "" then t.spec.address else t.address)
            && n.lastSuccess == if Succeeds(r, isLiteral) then Some(at) else t.lastSuccess
  {
  }

  lemma JudgedLast(s: Spec, raws: seq<(ProbeResult, int)>, isLiteral: string -> bool)
    requires raws != []
    ensures var last := raws[|raws| - 1];
            Observe(Cold(s), Judged(raws, isLiteral))
            == Recorded(Observe(Cold(s), Judged(raws[..|raws| - 1], isLiteral)), Sanitized(last.0, isLiteral), last.1)
  {
    assert Judged(raws, isLiteral)[..|raws| - 1] == Judged(raws[..|raws| - 1], isLiteral);
  }

  /** The address after any probe history is the literal of the latest healthy result that carried one;
      before any such result it is the configured one. The last success is the instant of the latest
      healthy result. Nothing else of a result matters. */
  lemma {:induction false} AddressOfHistory(s: Spec, raws: seq<(ProbeResult, int)>, isLiteral: string -> bool)
    returns (found: int, succeeded: int)
    ensures LatestDiscovery(raws, isLiteral, found) && LatestSuccess(raws, isLiteral, succeeded)
    ensures var t := Observe(Cold(s), Judged(raws, isLiteral));
            && t.spec == s
            && t.address == (if found >= 0 then raws[found].0.address else if raws == [] then "" else s.address)
            && t.lastSuccess == if succeeded >= 0 then Some(raws[succeeded].1) else None
  {
    found, succeeded := -1, -1;
    if raws != [] {
      var p, last := raws[..|raws| - 1], |raws| - 1;
      found, succeeded := AddressOfHistory(s, p, isLiteral);
      JudgedLast(s, raws, isLiteral);
      RecordedEvidence(Observe(Cold(s), Judged(p, isLiteral)), raws[last].0, raws[last].1, isLiteral);
      if Discovers(raws[last].0, isLiteral) {
        found := last;
      }
      if Succeeds(raws[last].0, isLiteral) {
        succeeded := last;
      }
    }
  }

  // -- staleness -------------------------------------------------------------------------

  datatype Staleness = Fresh | Expired(age: int) | ExpiredUnknownAge

  /** The one age judgement, shared by the live path and the restore path. */
  function StalenessOf(maxAgeSec: Option<int>, confirmedAt: Option<int>, now: int): Staleness {
    match maxAgeSec
    case None => Fresh
    case Some(v) =>
      if v <= 0 then Fresh
      else match confirmedAt
        case None => ExpiredUnknownAge
        case Some(t) => if now - t > v * SECOND then Expired(now - t) else Fresh
  }
}
