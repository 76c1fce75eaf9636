/** The abstract state of one group and its decision function
    (src/engine/mod.rs: `Group`, `decide_action_locked`, `uplink_ranking`). */
module Groups {
  import opened Wrappers
  import opened Health

  datatype Kind = Peer | Uplink
  datatype OnAllDown = LastKnownGood | Unpublish

  datatype Config = Config(kind: Kind, hostnames: seq<string>, onAllDown: OnAllDown, maxAgeSec: Option<int>,
                           routeMetric: bool, metricBase: int, metricStep: int, minHoldMs: int)

  datatype View = View(cfg: Config, transports: seq<Transport>, winner: Option<nat>, winnerSince: Option<int>,
                       degraded: bool, published: string, confirmed: Option<int>)

  /** Interfaces in published rank order; `healthy` is the state of the transport behind it. */
  datatype Ranked = Ranked(interface: string, healthy: bool)

  datatype Action =
    | NoAction
    | PublishPeers(passive: bool)
    | PublishUplink(ranked: seq<Ranked>, base: int, step: int)

  /** The source indexes `transports` by the winner: an index out of range would panic. */
  predicate Valid(v: View) {
    v.winner.Some? ==> v.winner.value < |v.transports|
  }

  predicate IsUp(ts: seq<Transport>, i: nat) {
    i < |ts| && ts[i].state == Up
  }

  ghost predicate AnyUp(ts: seq<Transport>) {
    exists i: nat :: IsUp(ts, i)
  }

  // -- the best candidate ----------------------------------------------------------------

  /** The first Up transport of least priority among the first `n`. */
  function BestUp(ts: seq<Transport>, n: nat): (b: Option<nat>)
    requires n <= |ts|
    ensures b.None? ==> forall i: nat :: i < n ==> !IsUp(ts, i)
    ensures b.Some? ==> b.value < n && IsUp(ts, b.value)
    ensures b.Some? ==> forall i: nat :: i < n && IsUp(ts, i) ==>
              ts[b.value].spec.priority <= ts[i].spec.priority
              && (i < b.value ==> ts[b.value].spec.priority < ts[i].spec.priority)
  {
    if n == 0 then None
    else
      var b := BestUp(ts, n - 1);
      if IsUp(ts, n - 1) && (b.None? || ts[n - 1].spec.priority < ts[b.value].spec.priority) then Some(n - 1) else b
  }

  // -- the uplink ranking ----------------------------------------------------------------

  /** Healthy before unhealthy, then priority, then position. */
  predicate RanksBefore(ts: seq<Transport>, i: nat, j: nat)
    requires i < |ts| && j < |ts|
  {
    if IsUp(ts, i) != IsUp(ts, j) then IsUp(ts, i)
    else if ts[i].spec.priority != ts[j].spec.priority then ts[i].spec.priority < ts[j].spec.priority
    else i <= j
  }

  predicate InRange(ts: seq<Transport>, order: seq<nat>) {
    forall a :: 0 <= a < |order| ==> order[a] < |ts|
  }

  function InsertRanked(ts: seq<Transport>, order: seq<nat>, i: nat): (r: seq<nat>)
    requires i < |ts| && InRange(ts, order)
    ensures InRange(ts, r)
    ensures forall k: nat :: k in r <==> k == i || k in order
  {
    if order == [] || RanksBefore(ts, i, order[0]) then [i] + order
    else
      assert order == [order[0]] + order[1..];
      [order[0]] + InsertRanked(ts, order[1..], i)
  }

  /** The indices below `n` except the winner, sorted by rank. */
  function Others(ts: seq<Transport>, n: nat, winner: nat): (r: seq<nat>)
    requires n <= |ts|
    ensures InRange(ts, r)
    ensures forall k: nat :: k in r <==> k < n && k != winner
  {
    if n == 0 then []
    else if n - 1 == winner then Others(ts, n - 1, winner)
    else InsertRanked(ts, Others(ts, n - 1, winner), n - 1)
  }

  /** One entry per interface, the best-ranked transport of each; unnamed interfaces drop out. */
  function Publishable(ts: seq<Transport>, order: seq<nat>, seen: set<string>): seq<Ranked>
    requires InRange(ts, order)
  {
    if order == [] then []
    else
      var iface := ts[order[0]].spec.interface;
      if iface == "" || iface in seen then Publishable(ts, order[1..], seen)
      else [Ranked(iface, IsUp(ts, order[0]))] + Publishable(ts, order[1..], seen + {iface})
  }

  function UplinkRanking(v: View): seq<Ranked> {
    if v.winner.None? || !v.cfg.routeMetric || v.winner.value >= |v.transports| then []
    else Publishable(v.transports, [v.winner.value] + Others(v.transports, |v.transports|, v.winner.value), {})
  }

  function UplinkAction(v: View): Action {
    var ranked := UplinkRanking(v);
    if ranked == [] then NoAction else PublishUplink(ranked, v.cfg.metricBase, v.cfg.metricStep)
  }

  // -- the decision ----------------------------------------------------------------------

  /** No transport is Up. */
  function DecideDown(v: View, now: int): (View, Action) {
    var d := v.(degraded := true);
    if v.cfg.kind == Peer && v.cfg.onAllDown == Unpublish && v.winner.Some? then
      (d.(winner := None, published := ""), PublishPeers(false))
    else if v.cfg.kind == Peer && v.cfg.onAllDown == LastKnownGood && v.published != "" then
      if StalenessOf(v.cfg.maxAgeSec, v.confirmed, now) == Fresh then (d, PublishPeers(true))
      else (d.(winner := None, published := ""), PublishPeers(false))
    else if v.cfg.kind == Uplink then (d, UplinkAction(d))
    else (d, PublishPeers(true))
  }

  /** The least-priority Up transport, a current winner being preferred among equals. */
  function Preferred(v: View): (p: nat)
    requires BestUp(v.transports, |v.transports|).Some?
    ensures IsUp(v.transports, p)
  {
    var best := BestUp(v.transports, |v.transports|).value;
    if v.winner.Some? && IsUp(v.transports, v.winner.value)
       && v.transports[v.winner.value].spec.priority == v.transports[best].spec.priority
    then v.winner.value else best
  }

  /** A still healthy winner is inside its hold window; an unknown start counts as just now. */
  predicate Held(v: View, now: int) {
    && v.winner.Some?
    && IsUp(v.transports, v.winner.value)
    && now - (if v.winnerSince.Some? then v.winnerSince.value else now)
       < (if v.cfg.minHoldMs > 0 then v.cfg.minHoldMs else 0) * MILLISECOND
  }

  function NextWinner(v: View, now: int): (w: nat)
    requires BestUp(v.transports, |v.transports|).Some?
    ensures IsUp(v.transports, w)
  {
    if Held(v, now) then v.winner.value else Preferred(v)
  }

  /** At least one transport is Up. */
  function DecideUp(v: View, now: int): (View, Action)
    requires BestUp(v.transports, |v.transports|).Some?
  {
    var w := NextWinner(v, now);
    var changed := v.winner != Some(w);
    var addr := v.transports[w].address;
    var drift := !changed && v.cfg.kind == Peer && addr != "" && addr != v.published;
    var d := v.(degraded := false, confirmed := v.transports[w].lastSuccess);
    var e := if changed then d.(winner := Some(w), winnerSince := Some(now)) else d;
    if v.cfg.kind == Uplink then (e, UplinkAction(e))
    else if changed || drift then (e.(published := addr), PublishPeers(false))
    else (e, PublishPeers(true))
  }

  function Decide(v: View, now: int): (View, Action) {
    if BestUp(v.transports, |v.transports|).None? then DecideDown(v, now) else DecideUp(v, now)
  }

  // -- what every decision establishes ---------------------------------------------------

  ghost predicate LeastPriority(ts: seq<Transport>, w: nat) {
    IsUp(ts, w) && forall i: nat :: IsUp(ts, i) ==> ts[w].spec.priority <= ts[i].spec.priority
  }

  lemma BestUpExists(ts: seq<Transport>)
    ensures BestUp(ts, |ts|).Some? <==> AnyUp(ts)
  {
    var best := BestUp(ts, |ts|);
    if best.Some? {
      assert IsUp(ts, best.value);
    }
  }

  /** How long the group has had its winner; unknown counts as no time at all. */
  function Waited(v: View, now: int): int {
    if v.winnerSince.Some? then now - v.winnerSince.value else 0
  }

  /** The winner invariant. Degraded iff nothing is Up; otherwise the winner is Up. A winner of least
      priority is never displaced; one that is Up but not of least priority is kept exactly while it has
      waited less than the hold time, and then gives way, as does one that is not Up, to a transport of
      least priority, the first listed among equals. A peer publishes the address of a new winner, and of
      a standing one that has an address. */
  lemma WinnerInvariant(v: View, now: int)
    requires Valid(v)
    ensures var (n, a) := Decide(v, now);
            && Valid(n) && n.cfg == v.cfg && n.transports == v.transports
            && (n.degraded <==> !AnyUp(v.transports))
            && (AnyUp(v.transports) ==>
                  && n.winner.Some? && IsUp(n.transports, n.winner.value)
                  && (LeastPriority(n.transports, n.winner.value) || (n.winner == v.winner && Held(v, now)))
                  && n.confirmed == n.transports[n.winner.value].lastSuccess
                  && n.winnerSince == (if n.winner != v.winner then Some(now) else v.winnerSince)
                  && (v.winner.Some? && LeastPriority(v.transports, v.winner.value) ==> n.winner == v.winner)
                  && (v.winner.None? || !IsUp(v.transports, v.winner.value) ==> LeastPriority(n.transports, n.winner.value))
                  && (v.winner.Some? && IsUp(v.transports, v.winner.value) && !LeastPriority(v.transports, v.winner.value) ==>
                        var hold := (if v.cfg.minHoldMs > 0 then v.cfg.minHoldMs else 0) * 1_000_000;
                        (Waited(v, now) < hold ==> n.winner == v.winner)
                        && (Waited(v, now) >= hold ==> LeastPriority(n.transports, n.winner.value)))
                  && (n.winner != v.winner ==>
                        forall i: nat :: LeastPriority(n.transports, i) ==> n.winner.value <= i)
                  && (n.cfg.kind == Peer ==>
                        n.published == if n.winner != v.winner || n.transports[n.winner.value].address != ""
                                       then n.transports[n.winner.value].address else v.published))
  {
    BestUpExists(v.transports);
    if AnyUp(v.transports) {
      assert LeastPriority(v.transports, Preferred(v));
    }
  }

  /** Nothing but the winner and what is published moves when nothing is Up: an uplink keeps its winner,
      an unpublish peer gives it up, and a last-known-good peer keeps both exactly while there is no bound
      on its age or the confirmation is within it. */
  lemma DownInvariant(v: View, now: int)
    requires Valid(v) && !AnyUp(v.transports)
    ensures var (n, a) := Decide(v, now);
            && n.confirmed == v.confirmed && n.winnerSince == v.winnerSince
            && ((n.winner == v.winner && n.published == v.published) || (n.winner.None? && n.published == ""))
            && (v.cfg.kind == Uplink ==> n.winner == v.winner)
            && (v.cfg.kind == Peer && v.cfg.onAllDown == Unpublish ==> n.winner.None?)
            && (v.cfg.kind == Peer && v.cfg.onAllDown == LastKnownGood && n.published != "" ==>
                  StalenessOf(v.cfg.maxAgeSec, v.confirmed, now) == Fresh && n.published == v.published)
            && (v.cfg.kind == Peer && v.cfg.onAllDown == LastKnownGood ==>
                  StalenessOf(v.cfg.maxAgeSec, v.confirmed, now) != Fresh || n.published == v.published)
            && (v.cfg.kind == Peer && v.cfg.onAllDown == LastKnownGood && v.published != "" ==>
                  (n.winner == v.winner && n.published == v.published <==>
                     || v.cfg.maxAgeSec.None? || v.cfg.maxAgeSec.value <= 0
                     || (v.confirmed.Some? && now - v.confirmed.value <= v.cfg.maxAgeSec.value * 1_000_000_000)))
            && (v.cfg.kind == Peer && v.cfg.onAllDown == LastKnownGood && v.published == "" ==>
                  n.winner == v.winner && n.published == "")
  {
    BestUpExists(v.transports);
  }

  /** A peer publication is passive exactly when neither the winner nor what is published changed: only
      this makes it safe to skip the write of an empty block on a passive tick, and to write one
      otherwise. An uplink never asks for a hosts publication and keeps what is published. */
  lemma PassiveExactly(v: View, now: int)
    ensures var (n, a) := Decide(v, now);
            && (v.cfg.kind == Peer ==> a.PublishPeers?)
            && (a.PublishPeers? ==> v.cfg.kind == Peer && (a.passive <==> n.winner == v.winner && n.published == v.published))
            && (v.cfg.kind == Uplink ==> n.published == v.published)
  {
  }

  // -- what the ranking establishes ------------------------------------------------------

  ghost predicate UpFirst(ts: seq<Transport>, order: seq<nat>) {
    forall a, b :: 0 <= a < b < |order| && IsUp(ts, order[b]) ==> IsUp(ts, order[a])
  }

  ghost predicate HealthyFirst(r: seq<Ranked>) {
    forall a, b :: 0 <= a < b < |r| && r[b].healthy ==> r[a].healthy
  }

  ghost predicate Distinct(r: seq<Ranked>) {
    forall a, b :: 0 <= a < b < |r| ==> r[a].interface != r[b].interface
  }

  /** Some transport in `order` names `iface`; if `up`, one that is Up. */
  ghost predicate Names(ts: seq<Transport>, order: seq<nat>, iface: string, up: bool) {
    exists a :: 0 <= a < |order| && order[a] < |ts| && ts[order[a]].spec.interface == iface && (up ==> IsUp(ts, order[a]))
  }

  lemma NamesSplits(ts: seq<Transport>, order: seq<nat>, iface: string, up: bool)
    requires order != []
    ensures Names(ts, order, iface, up)
            <==> Names(ts, order[1..], iface, up) || Names(ts, [order[0]], iface, up)
  {
    if a :| 1 <= a < |order| && order[a] < |ts| && ts[order[a]].spec.interface == iface && (up ==> IsUp(ts, order[a])) {
      assert order[1..][a - 1] == order[a];
    }
    if a :| 0 <= a < |order[1..]| && order[1..][a] < |ts| && ts[order[1..][a]].spec.interface == iface
            && (up ==> IsUp(ts, order[1..][a])) {
      assert order[1 + a] == order[1..][a];
    }
    assert [order[0]][0] == order[0];
  }

  /** The published list names exactly the unseen interfaces of `order`, each once, and when Up
      transports come first an entry is healthy iff some transport behind it is Up. */
  lemma {:induction false} PublishableContents(ts: seq<Transport>, order: seq<nat>, seen: set<string>)
    requires InRange(ts, order) && UpFirst(ts, order)
    ensures var r := Publishable(ts, order, seen);
            && Distinct(r) && HealthyFirst(r)
            && (forall x :: x in r ==> x.interface != "" && x.interface !in seen)
            && (forall x :: x in r ==>
                  Names(ts, order, x.interface, false) && (x.healthy <==> Names(ts, order, x.interface, true)))
            && (forall iface :: iface != "" && iface !in seen && Names(ts, order, iface, false) ==>
                  exists x :: x in r && x.interface == iface)
  {
    if order != [] {
      var rest := order[1..];
      forall a, b | 0 <= a < b < |rest| && IsUp(ts, rest[b]) ensures IsUp(ts, rest[a]) {
        assert rest[a] == order[a + 1] && rest[b] == order[b + 1];
      }
      var iface := ts[order[0]].spec.interface;
      var skip := iface == "" || iface in seen;
      PublishableContents(ts, rest, if skip then seen else seen + {iface});
      var tail := Publishable(ts, rest, if skip then seen else seen + {iface});
      var r := Publishable(ts, order, seen);
      assert r == if skip then tail else [Ranked(iface, IsUp(ts, order[0]))] + tail;
      forall x | x in tail
        ensures Names(ts, order, x.interface, false) && (x.healthy <==> Names(ts, order, x.interface, true))
      {
        NamesSplits(ts, order, x.interface, false);
        NamesSplits(ts, order, x.interface, true);
      }
      assert Names(ts, [order[0]], iface, false) && (IsUp(ts, order[0]) <==> Names(ts, [order[0]], iface, true)) by {
        assert [order[0]][0] == order[0];
      }
      NamesSplits(ts, order, iface, false);
      NamesSplits(ts, order, iface, true);
      forall a | 0 <= a < |rest| ensures IsUp(ts, rest[a]) ==> IsUp(ts, order[0]) {
        assert rest[a] == order[a + 1];
      }
      forall i | i != "" && i !in seen && Names(ts, order, i, false) ensures exists x :: x in r && x.interface == i {
        NamesSplits(ts, order, i, false);
        if i == iface {
          assert r[0].interface == i;
        } else {
          assert Names(ts, rest, i, false);
          var x :| x in tail && x.interface == i;
          assert x in r;
        }
      }
    }
  }

  ghost predicate RankSorted(ts: seq<Transport>, order: seq<nat>) {
    && InRange(ts, order)
    && (forall a, b :: 0 <= a < b < |order| ==> RanksBefore(ts, order[a], order[b]))
  }

  lemma {:induction false} InsertKeepsSorted(ts: seq<Transport>, order: seq<nat>, i: nat)
    requires RankSorted(ts, order) && i < |ts|
    ensures RankSorted(ts, InsertRanked(ts, order, i))
  {
    if order != [] && !RanksBefore(ts, i, order[0]) {
      InsertKeepsSorted(ts, order[1..], i);
      var t := InsertRanked(ts, order[1..], i);
      forall b | 0 <= b < |t| ensures RanksBefore(ts, order[0], t[b]) {
        assert t[b] in t;
        if t[b] != i {
          assert t[b] in order[1..];
        }
      }
    }
  }

  lemma {:induction false} OthersSorted(ts: seq<Transport>, n: nat, winner: nat)
    requires n <= |ts|
    ensures RankSorted(ts, Others(ts, n, winner))
  {
    if n > 0 {
      OthersSorted(ts, n - 1, winner);
      if n - 1 != winner {
        InsertKeepsSorted(ts, Others(ts, n - 1, winner), n - 1);
      }
    }
  }

  function Interfaces(r: seq<Ranked>): set<string> {
    set x | x in r :: x.interface
  }

  lemma {:induction false} NotSeen(ts: seq<Transport>, order: seq<nat>, seen: set<string>)
    requires InRange(ts, order)
    ensures Interfaces(Publishable(ts, order, seen)) !! seen && "" !in Interfaces(Publishable(ts, order, seen))
  {
    if order != [] {
      var iface := ts[order[0]].spec.interface;
      NotSeen(ts, order[1..], if iface == "" || iface in seen then seen else seen + {iface});
    }
  }

  /** The entries of `r` stand for ever later members of `order`, each the first to name its interface. */
  ghost predicate Stands(ts: seq<Transport>, order: seq<nat>, r: seq<Ranked>, at: seq<nat>) {
    && InRange(ts, order) && |at| == |r| && (forall k :: 0 <= k < |at| ==> at[k] < |order|)
    && (forall k, l :: 0 <= k < l < |at| ==> at[k] < at[l])
    && (forall k :: 0 <= k < |at| ==> ts[order[at[k]]].spec.interface == r[k].interface)
    && (forall k, a :: 0 <= k < |at| && 0 <= a < at[k] ==> ts[order[a]].spec.interface != r[k].interface)
  }

  function Shifted(at: seq<nat>): seq<nat> {
    seq(|at|, k requires 0 <= k < |at| => at[k] + 1)
  }

  lemma StandsLater(ts: seq<Transport>, order: seq<nat>, r: seq<Ranked>, at: seq<nat>)
    requires InRange(ts, order) && order != [] && Stands(ts, order[1..], r, at)
    requires ts[order[0]].spec.interface !in Interfaces(r)
    ensures Stands(ts, order, r, Shifted(at))
  {
    var s := Shifted(at);
    forall k, a | 0 <= k < |s| && 0 <= a < s[k] ensures ts[order[a]].spec.interface != r[k].interface {
      assert r[k].interface in Interfaces(r);
      assert a > 0 ==> order[a] == order[1..][a - 1];
    }
  }

  lemma StandsFirst(ts: seq<Transport>, order: seq<nat>, x: Ranked, r: seq<Ranked>, at: seq<nat>)
    requires order != [] && Stands(ts, order, r, at) && x.interface == ts[order[0]].spec.interface
    requires x.interface !in Interfaces(r)
    ensures Stands(ts, order, [x] + r, [0] + at)
  {
    var s, q := [0] + at, [x] + r;
    forall k | 0 <= k < |at| ensures at[k] > 0 {
      assert r[k].interface in Interfaces(r);
    }
    forall k, a | 0 <= k < |s| && 0 <= a < s[k] ensures ts[order[a]].spec.interface != q[k].interface {
      assert q[k] == r[k - 1] && s[k] == at[k - 1];
    }
    forall k, l | 0 <= k < l < |s| ensures s[k] < s[l] {
      assert s[l] == at[l - 1];
    }
  }

  /** The published list keeps the order. */
  lemma {:induction false} PublishableOrder(ts: seq<Transport>, order: seq<nat>, seen: set<string>) returns (at: seq<nat>)
    requires InRange(ts, order)
    ensures Stands(ts, order, Publishable(ts, order, seen), at)
  {
    if order == [] {
      at := [];
    } else {
      var iface := ts[order[0]].spec.interface;
      var skip := iface == "" || iface in seen;
      var seen' := if skip then seen else seen + {iface};
      var tail := Publishable(ts, order[1..], seen');
      at := PublishableOrder(ts, order[1..], seen');
      NotSeen(ts, order[1..], seen');
      StandsLater(ts, order, tail, at);
      at := Shifted(at);
      if !skip {
        StandsFirst(ts, order, Ranked(iface, IsUp(ts, order[0])), tail, at);
        at := [0] + at;
      }
    }
  }

  /** Healthy before unhealthy, then the smaller priority number, then the earlier in the list. */
  ghost predicate Outranks(ts: seq<Transport>, i: nat, j: nat)
    requires i < |ts| && j < |ts|
  {
    || (ts[i].state == Up && ts[j].state != Up)
    || ((ts[i].state == Up <==> ts[j].state == Up)
        && (ts[i].spec.priority < ts[j].spec.priority || (ts[i].spec.priority == ts[j].spec.priority && i <= j)))
  }

  /** Some transport over `a` outranks every transport over `b`. */
  ghost predicate Leads(ts: seq<Transport>, a: string, b: string) {
    exists i: nat :: i < |ts| && ts[i].spec.interface == a
                     && forall j: nat :: j < |ts| && ts[j].spec.interface == b ==> Outranks(ts, i, j)
  }

  /** Behind the winner's own, interfaces follow one another by their best transports. */
  lemma RankingOrder(v: View, a: nat, b: nat)
    requires Valid(v) && v.winner.Some? && v.cfg.routeMetric && a < b < |UplinkRanking(v)|
    requires UplinkRanking(v)[a].interface != v.transports[v.winner.value].spec.interface
    requires UplinkRanking(v)[b].interface != v.transports[v.winner.value].spec.interface
    ensures Leads(v.transports, UplinkRanking(v)[a].interface, UplinkRanking(v)[b].interface)
  {
    var ts, w, r := v.transports, v.winner.value, UplinkRanking(v);
    var others := Others(ts, |ts|, w);
    var order := [w] + others;
    var at := PublishableOrder(ts, order, {});
    OthersSorted(ts, |ts|, w);
    var i := order[at[a]];
    assert at[a] > 0 && i == others[at[a] - 1];
    forall j: nat | j < |ts| && ts[j].spec.interface == r[b].interface ensures Outranks(ts, i, j) {
      assert j in others;
      var c :| 0 <= c < |others| && others[c] == j;
      assert order[c + 1] == j;
      assert at[a] < at[b] <= c + 1;
      assert RanksBefore(ts, others[at[a] - 1], others[c]);
    }
  }

  /** The ranking of a group whose winner is Up, or in which nothing is: the winner's interface
      first, every named interface exactly once, healthy ones before unhealthy ones, and an
      interface counted healthy iff some transport over it is Up. */
  lemma RankingInvariant(v: View)
    requires Valid(v) && v.winner.Some? && v.cfg.routeMetric
    requires AnyUp(v.transports) ==> IsUp(v.transports, v.winner.value)
    ensures var r, w := UplinkRanking(v), v.transports[v.winner.value];
            && Distinct(r) && HealthyFirst(r)
            && (w.spec.interface != "" ==> |r| > 0 && r[0] == Ranked(w.spec.interface, w.state == Up))
            && (forall x :: x in r ==>
                  x.interface != ""
                  && (x.healthy <==> exists i: nat :: IsUp(v.transports, i) && v.transports[i].spec.interface == x.interface))
            && (forall i: nat :: i < |v.transports| && v.transports[i].spec.interface != "" ==>
                  exists x :: x in r && x.interface == v.transports[i].spec.interface)
  {
    var ts, w := v.transports, v.winner.value;
    var others := Others(ts, |ts|, w);
    var order := [w] + others;
    var r := UplinkRanking(v);
    OthersSorted(ts, |ts|, w);
    forall a, b | 0 <= a < b < |order| && IsUp(ts, order[b]) ensures IsUp(ts, order[a]) {
      if a > 0 {
        assert RanksBefore(ts, others[a - 1], others[b - 1]);
      }
    }
    PublishableContents(ts, order, {});
    forall i: nat | i < |ts| ensures i in order {
      assert i == w || i in others;
    }
    forall i: nat | i < |ts| && ts[i].spec.interface != ""
      ensures exists x :: x in r && x.interface == ts[i].spec.interface
    {
      assert i in order;
      var a :| 0 <= a < |order| && order[a] == i;
      assert Names(ts, order, ts[i].spec.interface, false);
    }
    forall x | x in r
      ensures x.healthy <==> exists i: nat :: IsUp(ts, i) && ts[i].spec.interface == x.interface
    {
      if i: nat :| IsUp(ts, i) && ts[i].spec.interface == x.interface {
        assert i in order;
        var a :| 0 <= a < |order| && order[a] == i;
        assert Names(ts, order, x.interface, true);
      }
    }
  }

  lemma DecisionFrame(v: View, now: int)
    requires Valid(v)
    ensures var n := Decide(v, now).0;
            Valid(n) && n.cfg == v.cfg && n.transports == v.transports
            && (AnyUp(v.transports) ==> n.winner.Some? && IsUp(v.transports, n.winner.value))
  {
    WinnerInvariant(v, now);
  }

  /** What an uplink decision asserts: its ranking at its own metrics, whenever it has a winner, route
      publication is on and some transport names an interface; and nothing otherwise. */
  lemma UplinkAsserts(v: View, now: int)
    requires Valid(v) && v.cfg.kind == Uplink
    ensures var (n, a) := Decide(v, now);
            && (a.PublishUplink? <==>
                  n.winner.Some? && v.cfg.routeMetric
                  && exists i: nat :: i < |v.transports| && v.transports[i].spec.interface != "")
            && (a.PublishUplink? ==> a == PublishUplink(UplinkRanking(n), v.cfg.metricBase, v.cfg.metricStep))
            && (!a.PublishUplink? ==> a.NoAction?)
  {
    var (n, a) := Decide(v, now);
    WinnerInvariant(v, now);
    BestUpExists(v.transports);
    assert a == UplinkAction(n);
    if n.winner.Some? && v.cfg.routeMetric {
      RankingInvariant(n);
      if i: nat :| i < |v.transports| && v.transports[i].spec.interface != "" {
        assert UplinkRanking(n) != [];
      } else if UplinkRanking(n) != [] {
        RankedIsNamed(n);
      }
    }
  }

  lemma RankedIsNamed(v: View)
    requires Valid(v) && UplinkRanking(v) != []
    ensures exists i: nat :: i < |v.transports| && v.transports[i].spec.interface != ""
  {
    NamedSomewhere(v.transports, [v.winner.value] + Others(v.transports, |v.transports|, v.winner.value), {});
  }

  lemma {:induction false} NamedSomewhere(ts: seq<Transport>, order: seq<nat>, seen: set<string>)
    requires InRange(ts, order) && Publishable(ts, order, seen) != []
    ensures exists i: nat :: i < |ts| && ts[i].spec.interface != ""
  {
    var i := order[0];
    if ts[i].spec.interface == "" || ts[i].spec.interface in seen {
      NamedSomewhere(ts, order[1..], seen);
    } else {
      assert i < |ts| && ts[i].spec.interface != "";
    }
  }
}
