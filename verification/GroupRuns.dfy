/** Whole runs of one group: probe results, decisions, saves, crashes and restarts from any earlier
    saved record, in any order. A probe result may have been observed before the instant it is
    recorded at, because workers wait for the state lock; the clock never runs backwards. */
module GroupRuns {
  import opened Wrappers
  import opened Health
  import opened Groups
  import opened Persistence

  datatype Step =
    | Probe(idx: nat, raw: ProbeResult, observedAt: int, now: int)
    | DecideAt(now: int)
    | SaveAt(now: int)
    | Restart(from: Option<nat>, cfg: Config, specs: seq<Spec>, now: int)

  /** `probes` holds the (transport, instant) of every healthy probe so far, `literals` the
      (transport, address) of every one that carried an address literal. */
  datatype World = World(group: View, saves: seq<SavedGroup>, probes: set<(string, int)>,
                         literals: set<(string, string)>, clock: int)

  predicate Enabled(w: World, s: Step) {
    s.now >= w.clock &&
    match s
    case Probe(idx, _, observedAt, now) => idx < |w.group.transports| && observedAt <= now
    case DecideAt(_) => Valid(w.group)
    case SaveAt(_) => Valid(w.group)
    case Restart(from, _, specs, _) => from.Some? ==> from.value < |w.saves|
  }

  function Apply(w: World, s: Step, isLiteral: string -> bool): World
    requires Enabled(w, s)
  {
    match s
    case Probe(idx, raw, observedAt, now) =>
      var t, r := w.group.transports[idx], Sanitized(raw, isLiteral);
      World(w.group.(transports := w.group.transports[idx := Recorded(t, r, observedAt)]), w.saves,
            if r.healthy then w.probes + {(t.spec.id, observedAt)} else w.probes,
            if r.healthy && r.address != "" then w.literals + {(t.spec.id, r.address)} else w.literals, now)
    case DecideAt(now) => w.(group := Decide(w.group, now).0, clock := now)
    case SaveAt(now) => w.(saves := w.saves + [Dump(w.group)], clock := now)
    case Restart(from, cfg, specs, now) =>
      var cold := ColdGroup(cfg, specs);
      w.(group := if from.Some? then Restore(cold, w.saves[from.value], now) else cold, clock := now)
  }

  function Start(cfg: Config, specs: seq<Spec>, clock: int): World {
    World(ColdGroup(cfg, specs), [], {}, {}, clock)
  }

  /** Every restart loads a validated configuration. */
  ghost predicate Validated(s: Step) {
    s.Restart? ==> DistinctIds(s.specs)
  }

  /** `ws` is a run: each world follows from the one before it by the step at that place. */
  ghost predicate IsRun(ws: seq<World>, steps: seq<Step>, isLiteral: string -> bool) {
    && |ws| == |steps| + 1
    && (exists cfg, specs, clock :: DistinctIds(specs) && ws[0] == Start(cfg, specs, clock))
    && forall i :: 0 <= i < |steps| ==>
         Validated(steps[i]) && Enabled(ws[i], steps[i]) && ws[i + 1] == Apply(ws[i], steps[i], isLiteral)
  }

  // -- confirmations are real ------------------------------------------------------------

  ghost predicate Backed(id: string, at: Option<int>, w: World) {
    at.Some? ==> (id, at.value) in w.probes
  }

  /** The instant of a healthy probe of some transport. */
  ghost predicate Real(at: Option<int>, w: World) {
    at.Some? ==> exists id :: (id, at.value) in w.probes
  }

  ghost predicate SaveBacked(pg: SavedGroup, w: World) {
    && Real(pg.confirmed, w)
    && (pg.winnerId != "" ==> Backed(pg.winnerId, pg.confirmed, w))
    && forall i :: 0 <= i < |pg.transports| ==> Backed(pg.transports[i].id, pg.transports[i].lastSuccess, w)
  }

  /** Every recorded success is a healthy probe of its transport; a confirmation is always one of some
      transport, and of the selected one if there is one; nothing is published without one. */
  ghost predicate Confirmed(w: World) {
    && Valid(w.group) && DistinctIds(Specs(w.group))
    && (w.group.published != "" ==> w.group.winner.Some?)
    && (forall i :: 0 <= i < |w.group.transports| ==> Backed(w.group.transports[i].spec.id, w.group.transports[i].lastSuccess, w))
    && (w.group.winner.Some? ==> Backed(w.group.transports[w.group.winner.value].spec.id, w.group.confirmed, w))
    && Real(w.group.confirmed, w)
    && (forall p :: p in w.probes ==> p.1 <= w.clock)
    && forall k :: 0 <= k < |w.saves| ==> SaveBacked(w.saves[k], w)
  }

  lemma RestoreConfirmed(cfg: Config, specs: seq<Spec>, pg: SavedGroup, now: int, w: World)
    requires DistinctIds(specs) && SaveBacked(pg, w)
    ensures var n := Restore(ColdGroup(cfg, specs), pg, now);
            && Valid(n) && Specs(n) == specs
            && (n.published != "" ==> n.winner.Some?)
            && (forall i :: 0 <= i < |n.transports| ==> Backed(n.transports[i].spec.id, n.transports[i].lastSuccess, w))
            && (n.winner.Some? ==> Backed(n.transports[n.winner.value].spec.id, n.confirmed, w)) && Real(n.confirmed, w)
  {
    var cold := ColdGroup(cfg, specs);
    var n := Restore(cold, pg, now);
    RestoreIsSafe(cold, pg, now);
    assert Specs(cold) == specs;
    forall i | 0 <= i < |n.transports| ensures Backed(n.transports[i].spec.id, n.transports[i].lastSuccess, w) {
      var id := specs[i].id;
      if id in SavedById(pg.transports) {
        SavedByIdOnlyHolds(pg.transports, id);
        var k :| 0 <= k < |pg.transports| && pg.transports[k].id == id && SavedById(pg.transports)[id] == pg.transports[k];
        assert Backed(pg.transports[k].id, pg.transports[k].lastSuccess, w);
      }
    }
    if n.winner.Some? {
      assert specs[n.winner.value].id == pg.winnerId;
    }
  }

  lemma DecideConfirmed(w: World, now: int)
    requires Confirmed(w)
    ensures var n := Decide(w.group, now).0;
            && Valid(n) && n.transports == w.group.transports && n.cfg == w.group.cfg
            && (n.published != "" ==> n.winner.Some?)
            && (n.winner.Some? ==> Backed(n.transports[n.winner.value].spec.id, n.confirmed, w)) && Real(n.confirmed, w)
  {
    WinnerInvariant(w.group, now);
    if !AnyUp(w.group.transports) {
      DownInvariant(w.group, now);
    }
  }

  lemma StepKeepsConfirmed(w: World, s: Step, isLiteral: string -> bool)
    requires Confirmed(w) && Enabled(w, s) && Validated(s)
    ensures Confirmed(Apply(w, s, isLiteral))
  {
    var n := Apply(w, s, isLiteral);
    match s {
      case Probe(idx, raw, observedAt, now) =>
        assert Specs(n.group) == Specs(w.group);
        forall k | 0 <= k < |n.saves| ensures SaveBacked(n.saves[k], n) {
          assert SaveBacked(w.saves[k], w);
        }
      case DecideAt(now) =>
        DecideConfirmed(w, now);
        assert Specs(n.group) == Specs(w.group);
        forall k | 0 <= k < |n.saves| ensures SaveBacked(n.saves[k], n) {
          assert SaveBacked(w.saves[k], w);
        }
      case SaveAt(now) =>
        forall k | 0 <= k < |n.saves| ensures SaveBacked(n.saves[k], n) {
          if k < |w.saves| {
            assert SaveBacked(w.saves[k], w);
          }
        }
      case Restart(from, cfg, specs, now) =>
        if from.Some? {
          RestoreConfirmed(cfg, specs, w.saves[from.value], now, w);
        }
        assert Specs(n.group) == specs;
        forall k | 0 <= k < |n.saves| ensures SaveBacked(n.saves[k], n) {
          assert SaveBacked(w.saves[k], w);
        }
    }
  }

  /** In every world of every run, and in every save of it, `last_confirmed_at` is absent or the instant
      of a real healthy probe: of the selected transport whenever one is selected. */
  lemma {:induction false} RunsAreConfirmed(ws: seq<World>, steps: seq<Step>, isLiteral: string -> bool, i: nat)
    requires IsRun(ws, steps, isLiteral) && i < |ws|
    ensures Confirmed(ws[i])
  {
    if i == 0 {
      var cfg, specs, clock :| DistinctIds(specs) && ws[0] == Start(cfg, specs, clock);
      assert Specs(ws[0].group) == specs;
    } else {
      RunsAreConfirmed(ws, steps, isLiteral, i - 1);
      StepKeepsConfirmed(ws[i - 1], steps[i - 1], isLiteral);
    }
  }

  // -- the last-known-good bound ---------------------------------------------------------

  /** What is published was confirmed, by a healthy probe of the selected transport, no longer ago
      than the declared bound. */
  ghost predicate WithinBound(w: World) {
    var g := w.group;
    g.cfg.kind == Peer && g.cfg.onAllDown == LastKnownGood && g.cfg.maxAgeSec.Some? && g.cfg.maxAgeSec.value > 0
    && g.published != "" ==>
      && Valid(g) && g.winner.Some? && g.confirmed.Some?
      && (g.transports[g.winner.value].spec.id, g.confirmed.value) in w.probes
      && 0 <= w.clock - g.confirmed.value <= g.cfg.maxAgeSec.value * SECOND
  }

  /** The bound over whole runs: right after every decision some transport is Up or the published
      value is within its bound, and right after every restart it is within its bound whatever the
      transports' states, however old the record and however the configuration was edited. */
  lemma LastKnownGoodBound(ws: seq<World>, steps: seq<Step>, isLiteral: string -> bool, i: nat)
    requires IsRun(ws, steps, isLiteral) && i < |steps|
    ensures steps[i].DecideAt? ==> AnyUp(ws[i + 1].group.transports) || WithinBound(ws[i + 1])
    ensures steps[i].Restart? ==> WithinBound(ws[i + 1])
  {
    RunsAreConfirmed(ws, steps, isLiteral, i);
    RunsAreConfirmed(ws, steps, isLiteral, i + 1);
    match steps[i] {
      case DecideAt(now) =>
        WinnerInvariant(ws[i].group, now);
        if !AnyUp(ws[i].group.transports) {
          DownInvariant(ws[i].group, now);
        }
      case Restart(from, cfg, specs, now) =>
        if from.Some? {
          RestoreIsSafe(ColdGroup(cfg, specs), ws[i].saves[from.value], now);
        }
      case Probe(_, _, _, _) =>
      case SaveAt(_) =>
    }
  }

  /** The winner invariant holds right after every decision of every run. */
  lemma DecisionsKeepWinnerInvariant(ws: seq<World>, steps: seq<Step>, isLiteral: string -> bool, i: nat)
    requires IsRun(ws, steps, isLiteral) && i < |steps| && steps[i].DecideAt?
    ensures var g := ws[i + 1].group;
            && (g.degraded <==> !AnyUp(g.transports))
            && (AnyUp(g.transports) ==>
                  && g.winner.Some? && IsUp(g.transports, g.winner.value)
                  && (LeastPriority(g.transports, g.winner.value)
                      || (g.winner == ws[i].group.winner && Held(ws[i].group, steps[i].now)))
                  && (var v, now := ws[i].group, steps[i].now;
                      v.winner.Some? && IsUp(v.transports, v.winner.value) && !LeastPriority(v.transports, v.winner.value) ==>
                        var hold := (if v.cfg.minHoldMs > 0 then v.cfg.minHoldMs else 0) * 1_000_000;
                        if Waited(v, now) < hold then g.winner == v.winner else LeastPriority(g.transports, g.winner.value))
                  && (g.cfg.kind == Peer && g.transports[g.winner.value].address != "" ==>
                        g.published == g.transports[g.winner.value].address))
  {
    RunsAreConfirmed(ws, steps, isLiteral, i);
    WinnerInvariant(ws[i].group, steps[i].now);
  }

  // -- address provenance ----------------------------------------------------------------

  /** `a` is the configured address of the transport named `id`, or a literal it returned with a
      healthy probe. */
  ghost predicate Proven(specs: seq<Spec>, id: string, a: string, w: World) {
    (exists i :: 0 <= i < |specs| && specs[i].id == id && specs[i].address == a) || (id, a) in w.literals
  }

  ghost predicate ProvenBySome(specs: seq<Spec>, a: string, w: World) {
    exists id :: Proven(specs, id, a, w)
  }

  ghost predicate SaveProven(specs: seq<Spec>, pg: SavedGroup, w: World) {
    && (pg.published != "" ==> ProvenBySome(specs, pg.published, w))
    && forall i :: 0 <= i < |pg.transports| && pg.transports[i].address != "" ==>
         Proven(specs, pg.transports[i].id, pg.transports[i].address, w)
  }

  ghost predicate Provenance(specs: seq<Spec>, w: World, isLiteral: string -> bool) {
    && Specs(w.group) == specs && Valid(w.group)
    && (forall l :: l in w.literals ==> isLiteral(l.1))
    && (w.group.published != "" ==> ProvenBySome(specs, w.group.published, w))
    && (forall i :: 0 <= i < |specs| && w.group.transports[i].address != "" ==>
          Proven(specs, specs[i].id, w.group.transports[i].address, w))
    && forall k :: 0 <= k < |w.saves| ==> SaveProven(specs, w.saves[k], w)
  }

  lemma ProvenGrows(specs: seq<Spec>, pg: SavedGroup, w: World, n: World)
    requires SaveProven(specs, pg, w) && w.literals <= n.literals
    ensures SaveProven(specs, pg, n)
  {
    if pg.published != "" {
      var id :| Proven(specs, id, pg.published, w);
      assert Proven(specs, id, pg.published, n);
    }
    forall i | 0 <= i < |pg.transports| && pg.transports[i].address != ""
      ensures Proven(specs, pg.transports[i].id, pg.transports[i].address, n)
    {
      assert Proven(specs, pg.transports[i].id, pg.transports[i].address, w);
    }
  }

  lemma ProbeKeepsProvenance(specs: seq<Spec>, w: World, s: Step, isLiteral: string -> bool)
    requires Provenance(specs, w, isLiteral) && Enabled(w, s) && s.Probe?
    ensures Provenance(specs, Apply(w, s, isLiteral), isLiteral)
  {
    var n := Apply(w, s, isLiteral);
    assert Specs(n.group) == Specs(w.group);
    var t, u, r := w.group.transports[s.idx], n.group.transports[s.idx], Sanitized(s.raw, isLiteral);
    assert t.spec == specs[s.idx];
    if w.group.published != "" {
      var id :| Proven(specs, id, w.group.published, w);
      assert Proven(specs, id, w.group.published, n);
    }
    forall i | 0 <= i < |specs| && n.group.transports[i].address != ""
      ensures Proven(specs, specs[i].id, n.group.transports[i].address, n)
    {
      if i != s.idx || u.address == t.address {
        assert Proven(specs, specs[i].id, w.group.transports[i].address, w);
      }
    }
    forall k | 0 <= k < |n.saves| ensures SaveProven(specs, n.saves[k], n) {
      ProvenGrows(specs, w.saves[k], w, n);
    }
  }

  lemma DecideKeepsProvenance(specs: seq<Spec>, w: World, s: Step, isLiteral: string -> bool)
    requires Provenance(specs, w, isLiteral) && Enabled(w, s) && s.DecideAt?
    ensures Provenance(specs, Apply(w, s, isLiteral), isLiteral)
  {
    var n := Apply(w, s, isLiteral);
    WinnerInvariant(w.group, s.now);
    assert Specs(n.group) == Specs(w.group);
    if AnyUp(w.group.transports) {
      var i := n.group.winner.value;
      assert specs[i] == n.group.transports[i].spec;
      if n.group.published != w.group.published && n.group.published != "" {
        assert n.group.published == w.group.transports[i].address by {
          BestUpExists(w.group.transports);
        }
        assert Proven(specs, specs[i].id, n.group.published, w);
        assert Proven(specs, specs[i].id, n.group.published, n);
      } else if n.group.published != "" {
        var id :| Proven(specs, id, w.group.published, w);
        assert Proven(specs, id, n.group.published, n);
      }
    } else {
      DownInvariant(w.group, s.now);
      if n.group.published != "" {
        var id :| Proven(specs, id, w.group.published, w);
        assert Proven(specs, id, n.group.published, n);
      }
    }
    forall i | 0 <= i < |specs| && n.group.transports[i].address != ""
      ensures Proven(specs, specs[i].id, n.group.transports[i].address, n)
    {
      assert Proven(specs, specs[i].id, w.group.transports[i].address, w);
    }
    forall k | 0 <= k < |n.saves| ensures SaveProven(specs, n.saves[k], n) {
      ProvenGrows(specs, w.saves[k], w, n);
    }
  }

  lemma SaveKeepsProvenance(specs: seq<Spec>, w: World, s: Step, isLiteral: string -> bool)
    requires Provenance(specs, w, isLiteral) && Enabled(w, s) && s.SaveAt?
    ensures Provenance(specs, Apply(w, s, isLiteral), isLiteral)
  {
    var n := Apply(w, s, isLiteral);
    var pg := Dump(w.group);
    forall i | 0 <= i < |pg.transports| && pg.transports[i].address != ""
      ensures Proven(specs, pg.transports[i].id, pg.transports[i].address, w)
    {
      assert specs[i] == w.group.transports[i].spec;
    }
    assert SaveProven(specs, pg, w);
    ProvenGrows(specs, pg, w, n);
    if n.group.published != "" {
      var id :| Proven(specs, id, w.group.published, w);
      assert Proven(specs, id, n.group.published, n);
    }
    forall i | 0 <= i < |specs| && n.group.transports[i].address != ""
      ensures Proven(specs, specs[i].id, n.group.transports[i].address, n)
    {
      assert Proven(specs, specs[i].id, w.group.transports[i].address, w);
    }
    forall k | 0 <= k < |n.saves| ensures SaveProven(specs, n.saves[k], n) {
      if k < |w.saves| {
        ProvenGrows(specs, w.saves[k], w, n);
      }
    }
  }

  lemma RestoredAddressIsProven(specs: seq<Spec>, cfg: Config, pg: SavedGroup, now: int, w: World, i: nat)
    requires SaveProven(specs, pg, w) && i < |specs|
    ensures var t := Restore(ColdGroup(cfg, specs), pg, now).transports[i];
            t.address != "" ==> Proven(specs, specs[i].id, t.address, w)
  {
    var t := Restore(ColdGroup(cfg, specs), pg, now).transports[i];
    if t.address != "" && t.address != specs[i].address {
      SavedByIdOnlyHolds(pg.transports, specs[i].id);
      var k :| 0 <= k < |pg.transports| && pg.transports[k].id == specs[i].id
               && SavedById(pg.transports)[specs[i].id] == pg.transports[k];
      assert Proven(specs, pg.transports[k].id, pg.transports[k].address, w);
    }
  }

  lemma RestartKeepsProvenance(specs: seq<Spec>, w: World, s: Step, isLiteral: string -> bool)
    requires Provenance(specs, w, isLiteral) && Enabled(w, s) && s.Restart? && s.specs == specs
    ensures Provenance(specs, Apply(w, s, isLiteral), isLiteral)
  {
    var n := Apply(w, s, isLiteral);
    var cold := ColdGroup(s.cfg, specs);
    assert Specs(cold) == specs;
    forall k | 0 <= k < |n.saves| ensures SaveProven(specs, n.saves[k], n) {
      ProvenGrows(specs, w.saves[k], w, n);
    }
    if s.from.Some? {
      var pg := w.saves[s.from.value];
      RestoreIsSafe(cold, pg, s.now);
      if n.group.published != "" {
        var id :| Proven(specs, id, pg.published, w);
        assert Proven(specs, id, n.group.published, n);
      }
      forall i | 0 <= i < |specs| && n.group.transports[i].address != ""
        ensures Proven(specs, specs[i].id, n.group.transports[i].address, n)
      {
        RestoredAddressIsProven(specs, s.cfg, pg, s.now, w, i);
      }
    }
  }

  /** The configuration stays the same over the run. */
  ghost predicate FixedConfig(ws: seq<World>, steps: seq<Step>, specs: seq<Spec>) {
    && |ws| > 0 && Specs(ws[0].group) == specs
    && forall i :: 0 <= i < |steps| && steps[i].Restart? ==> steps[i].specs == specs
  }

  lemma {:induction false} RunsKeepProvenance(ws: seq<World>, steps: seq<Step>, isLiteral: string -> bool, specs: seq<Spec>, i: nat)
    requires IsRun(ws, steps, isLiteral) && FixedConfig(ws, steps, specs) && i < |ws|
    ensures Provenance(specs, ws[i], isLiteral)
  {
    if i > 0 {
      RunsKeepProvenance(ws, steps, isLiteral, specs, i - 1);
      var w, s := ws[i - 1], steps[i - 1];
      match s {
        case Probe(_, _, _, _) => ProbeKeepsProvenance(specs, w, s, isLiteral);
        case DecideAt(_) => DecideKeepsProvenance(specs, w, s, isLiteral);
        case SaveAt(_) => SaveKeepsProvenance(specs, w, s, isLiteral);
        case Restart(_, _, _, _) => RestartKeepsProvenance(specs, w, s, isLiteral);
      }
    }
  }

  /** Over every run with a fixed transport list, restarts included, whatever is published is some
      transport's configured address or an address literal a healthy probe of it returned. */
  lemma PublishedAddressProvenance(ws: seq<World>, steps: seq<Step>, isLiteral: string -> bool, specs: seq<Spec>, i: nat)
    requires IsRun(ws, steps, isLiteral) && FixedConfig(ws, steps, specs) && i < |ws| && ws[i].group.published != ""
    ensures var a := ws[i].group.published;
            (exists k :: 0 <= k < |specs| && specs[k].address == a)
            || (isLiteral(a) && exists id :: (id, a) in ws[i].literals)
  {
    RunsKeepProvenance(ws, steps, isLiteral, specs, i);
    var a := ws[i].group.published;
    var id :| Proven(specs, id, a, ws[i]);
    if (id, a) in ws[i].literals {
      assert isLiteral((id, a).1);
    }
  }

  // -- a restart brings back what was saved ----------------------------------------------

  /** Saving, crashing and restarting on the same declaration brings back winner, published value, hold
      start, confirmation and degraded flag, and every transport's health, counters and last success,
      exactly when the value has not aged past its bound and no static address was redeclared. */
  lemma RestartBringsBack(w: World, saved: int, now: int, isLiteral: string -> bool)
    requires Valid(w.group) && DistinctIds(Specs(w.group)) && (w.group.published != "" ==> w.group.winner.Some?)
    requires w.clock <= saved <= now
    ensures var a := Apply(w, SaveAt(saved), isLiteral);
            Enabled(a, Restart(Some(|w.saves|), w.group.cfg, Specs(w.group), now))
    ensures var a := Apply(w, SaveAt(saved), isLiteral);
            var v, n := w.group, Apply(a, Restart(Some(|w.saves|), w.group.cfg, Specs(w.group), now), isLiteral).group;
            && (Retained(v, now) && WinnerInPlace(v) ==>
                  n.winner == v.winner && n.published == v.published && n.winnerSince == v.winnerSince
                  && n.confirmed == v.confirmed && n.degraded == v.degraded)
            && |n.transports| == |v.transports|
            && forall i :: 0 <= i < |v.transports| ==> Recovered(v.transports[i], n.transports[i])
  {
    RoundTrip(w.group, now);
    var b := Specs(w.group);
    forall i | 0 <= i < |w.group.transports|
      ensures Recovered(w.group.transports[i], Restore(ColdGroup(w.group.cfg, b), Dump(w.group), now).transports[i])
    {
      RestoreFollowsIdentity(w.group, b, now, i);
      assert w.group.transports[i].spec.id == b[i].id;
    }
  }
}
