/** The mutable group of the running engine: its fields are updated in place by the probe
    recording, the decision and the restoration (src/engine/mod.rs, src/engine/state.rs).
    Every method is proved to move the abstract state by the corresponding pure function. */
module GroupObject {
  import opened Wrappers
  import opened Health
  import opened Groups
  import opened Persistence

  datatype Candidate = Candidate(idx: nat, priority: int)

  /** Stable insertion by priority: an equal newcomer goes behind. */
  function InsertCandidate(cs: seq<Candidate>, c: Candidate): (r: seq<Candidate>)
    ensures r != [] && r[0] == if cs == [] || c.priority < cs[0].priority then c else cs[0]
    ensures forall x :: x in r <==> x == c || x in cs
  {
    if cs == [] || c.priority < cs[0].priority then [c] + cs
    else
      assert cs == [cs[0]] + cs[1..];
      [cs[0]] + InsertCandidate(cs[1..], c)
  }

  class Group {
    const cfg: Config
    var transports: seq<Transport>
    var winner: Option<nat>
    var winnerSince: Option<int>
    var degraded: bool
    var published: string
    var confirmed: Option<int>

    ghost function State(): View
      reads this
    {
      View(cfg, transports, winner, winnerSince, degraded, published, confirmed)
    }

    constructor (cfg: Config, specs: seq<Spec>)
      ensures State() == ColdGroup(cfg, specs)
    {
      this.cfg := cfg;
      transports := seq(|specs|, i requires 0 <= i < |specs| => Cold(specs[i]));
      winner, winnerSince, degraded, published, confirmed := None, None, false, "", None;
    }

    /** The part of `probe_once` that runs under the state lock. */
    method RecordProbe(idx: nat, raw: ProbeResult, isLiteral: string -> bool, observedAt: int)
      returns (stateChanged: bool, addressChanged: bool)
      requires idx < |transports|
      modifies this`transports
      ensures var t := Recorded(old(transports)[idx], Sanitized(raw, isLiteral), observedAt);
              && transports == old(transports)[idx := t]
              && t.address == (if raw.healthy && raw.address != "" && isLiteral(raw.address) then raw.address
                               else if old(transports)[idx].address == "" then t.spec.address
                               else old(transports)[idx].address)
              && (stateChanged <==> t.state != old(transports)[idx].state)
              && (addressChanged <==> t.address != old(transports)[idx].address)
    {
      var res := raw;
      if res.healthy && res.address != "" && !isLiteral(res.address) {
        res := res.(healthy := false, address := "");
      }
      var tr := transports[idx];
      var oldState, oldAddress := tr.state, tr.address;
      if res.healthy {
        tr := tr.(failures := 0);
        var upThreshold := Threshold(tr.spec.upThreshold, 2);
        tr := tr.(successes := Min(tr.successes + 1, upThreshold));
        if tr.state != Up && tr.successes >= upThreshold {
          tr := tr.(state := Up);
        }
        tr := tr.(lastSuccess := Some(observedAt));
      } else {
        tr := tr.(successes := 0);
        var downThreshold := Threshold(tr.spec.downThreshold, 3);
        tr := tr.(failures := Min(tr.failures + 1, downThreshold));
        if tr.state != Down && tr.failures >= downThreshold {
          tr := tr.(state := Down);
        }
      }
      if res.healthy && res.address != "" {
        tr := tr.(address := res.address);
      } else if tr.address == "" {
        tr := tr.(address := tr.spec.address);
      }
      transports := transports[idx := tr];
      stateChanged, addressChanged := tr.state != oldState, tr.address != oldAddress;
    }

    /** `uplink_ranking`: winner first, then the rest by rank, one entry per interface. */
    method Ranking() returns (ranked: seq<Ranked>)
      ensures ranked == UplinkRanking(State())
    {
      if winner.None? || !cfg.routeMetric || winner.value >= |transports| {
        return [];
      }
      var others := Others(transports, |transports|, winner.value);
      var order := [winner.value] + others;
      ranked := [];
      var seen := {};
      var k := 0;
      while k < |order|
        invariant 0 <= k <= |order| && InRange(transports, order)
        invariant ranked + Publishable(transports, order[k..], seen) == Publishable(transports, order, {})
      {
        var iface := transports[order[k]].spec.interface;
        assert order[k..][1..] == order[k + 1..];
        if iface != "" && iface !in seen {
          ranked := ranked + [Ranked(iface, transports[order[k]].state == Up)];
          seen := seen + {iface};
        }
        k := k + 1;
      }
    }

    method UplinkIntent() returns (a: Action)
      ensures a == UplinkAction(State())
    {
      var ranked := Ranking();
      a := if ranked == [] then NoAction else PublishUplink(ranked, cfg.metricBase, cfg.metricStep);
    }

    /** The currently healthy candidates in priority order. */
    method Candidates() returns (cs: seq<Candidate>)
      ensures forall c :: c in cs <==> IsUp(transports, c.idx) && c.priority == transports[c.idx].spec.priority
      ensures cs == [] <==> BestUp(transports, |transports|).None?
      ensures cs != [] ==> cs[0].idx == BestUp(transports, |transports|).value
    {
      cs := [];
      var i := 0;
      while i < |transports|
        invariant 0 <= i <= |transports|
        invariant forall c :: c in cs <==> c.idx < i && IsUp(transports, c.idx) && c.priority == transports[c.idx].spec.priority
        invariant cs == [] <==> BestUp(transports, i).None?
        invariant cs != [] ==> cs[0].idx == BestUp(transports, i).value
      {
        if transports[i].state == Up {
          assert cs != [] ==> cs[0] in cs;
          cs := InsertCandidate(cs, Candidate(i, transports[i].spec.priority));
        }
        i := i + 1;
      }
    }

    method DecideAction(now: int) returns (action: Action)
      requires Valid(State())
      modifies this
      ensures (State(), action) == Decide(old(State()), now)
      ensures Valid(State())
    {
      WinnerInvariant(State(), now);
      var candidates := Candidates();
      if candidates == [] {
        degraded := true;
        if cfg.kind == Peer && cfg.onAllDown == Unpublish && winner.Some? {
          winner := None;
          published := "";
          action := PublishPeers(false);
        } else if cfg.kind == Peer && cfg.onAllDown == LastKnownGood && published != "" {
          if StalenessOf(cfg.maxAgeSec, confirmed, now) == Fresh {
            action := PublishPeers(true);
          } else {
            winner := None;
            published := "";
            action := PublishPeers(false);
          }
        } else if cfg.kind == Uplink {
          action := UplinkIntent();
        } else {
          action := PublishPeers(true);
        }
      } else {
        degraded := false;
        assert candidates[0] in candidates;
        var bestPriority := candidates[0].priority;
        var newWinner := candidates[0].idx;
        if winner.Some? && Candidate(winner.value, bestPriority) in candidates {
          newWinner := winner.value;
        }
        var winnerChanged := Some(newWinner) != winner;
        if winnerChanged && winner.Some? && transports[winner.value].state == Up {
          var minHold := (if cfg.minHoldMs > 0 then cfg.minHoldMs else 0) * MILLISECOND;
          var since := if winnerSince.Some? then winnerSince.value else now;
          if now - since < minHold {
            winnerChanged := false;
            newWinner := winner.value;
          }
        }
        var addressDrift := false;
        if !winnerChanged && winner.Some? && cfg.kind == Peer {
          var addr := transports[newWinner].address;
          if addr != "" && addr != published {
            addressDrift := true;
          }
        }
        confirmed := transports[newWinner].lastSuccess;
        if winnerChanged {
          winner := Some(newWinner);
          winnerSince := Some(now);
        }
        if cfg.kind == Uplink {
          action := UplinkIntent();
        } else if winnerChanged || addressDrift {
          published := transports[newWinner].address;
          action := PublishPeers(false);
        } else {
          action := PublishPeers(true);
        }
      }
    }

    /** `expire_restored_last_known_good`. */
    method ExpireRestoredValue(now: int)
      modifies this`published, this`winner
      ensures State() == ExpireRestored(old(State()), now)
    {
      if cfg.kind != Peer || cfg.onAllDown != LastKnownGood || published == "" {
        return;
      }
      if StalenessOf(cfg.maxAgeSec, confirmed, now) == Fresh {
        return;
      }
      published := "";
      winner := None;
    }

    /** `saved_by_id`. */
    static method IndexSaved(saved: seq<SavedTransport>) returns (byId: map<string, SavedTransport>)
      ensures byId == SavedById(saved)
    {
      byId := map[];
      var k := 0;
      while k < |saved|
        invariant 0 <= k <= |saved|
        invariant byId == SavedById(saved[..k])
      {
        var tr := saved[k];
        assert saved[..k + 1][..k] == saved[..k];
        if tr.id != "" {
          byId := byId[tr.id := tr];
        }
        k := k + 1;
      }
      assert saved[..k] == saved;
    }

    static method RestoreOne(cold: Transport, pt: SavedTransport) returns (tr: Transport, changed: bool)
      ensures tr == RestoredTransport(cold, map[cold.spec.id := pt])
      ensures changed <==> AddressMoved(cold.spec, map[cold.spec.id := pt])
    {
      tr := cold.(state := ParseState(pt.state), successes := pt.successes, failures := pt.failures, lastSuccess := pt.lastSuccess);
      changed := false;
      if tr.spec.address == "" {
        tr := tr.(address := pt.address);
      } else {
        changed := pt.address != "" && tr.spec.address != pt.address;
        tr := tr.(address := tr.spec.address);
        if changed {
          tr := tr.(state := Unknown, successes := 0, failures := 0);
        }
      }
    }

    /** The loop of `restore` over the transports; tells whether the winner's declaration moved. */
    method RestoreTransportList(byId: map<string, SavedTransport>) returns (winnerMoved: bool)
      modifies this`transports
      ensures transports == RestoredTransports(old(transports), byId)
      ensures winnerMoved <==> winner.Some? && winner.value < |transports| && AddressMoved(old(transports)[winner.value].spec, byId)
    {
      ghost var before := transports;
      winnerMoved := false;
      var i := 0;
      while i < |transports|
        invariant 0 <= i <= |transports| == |before|
        invariant forall k :: 0 <= k < i ==> transports[k] == RestoredTransport(before[k], byId)
        invariant forall k :: i <= k < |before| ==> transports[k] == before[k]
        invariant winnerMoved <==> winner.Some? && winner.value < i && AddressMoved(before[winner.value].spec, byId)
      {
        if transports[i].spec.id in byId {
          var tr, changed := RestoreOne(transports[i], byId[transports[i].spec.id]);
          transports := transports[i := tr];
          winnerMoved := winnerMoved || (changed && winner == Some(i));
        }
        i := i + 1;
      }
    }

    method Invalidate()
      modifies this`winner, this`winnerSince, this`published, this`confirmed, this`degraded
      ensures State() == Invalidated(old(State()))
    {
      winner := None;
      winnerSince := None;
      published := "";
      confirmed := None;
      degraded := true;
    }

    /** `restore`, for one group with a saved record. */
    method RestoreFrom(pg: SavedGroup, now: int)
      modifies this
      ensures State() == Restore(old(State()), pg, now)
    {
      winner := if pg.winnerId == "" then None else FindKey(transports, pg.winnerId);
      winnerSince := pg.winnerSince;
      confirmed := pg.confirmed;
      degraded := pg.degraded;
      published := pg.published;
      ExpireRestoredValue(now);
      var byId := IndexSaved(pg.transports);
      var winnerMoved := RestoreTransportList(byId);
      if winner.None? && published != "" {
        winnerSince := None;
        published := "";
        confirmed := None;
        degraded := true;
      }
      if winnerMoved {
        Invalidate();
      }
    }

    /** `dump`, for one group. */
    method Save() returns (pg: SavedGroup)
      requires Valid(State())
      ensures pg == Dump(State())
    {
      var saved := [];
      var i := 0;
      while i < |transports|
        invariant 0 <= i <= |transports|
        invariant saved == Dump(State()).transports[..i]
      {
        saved := saved + [DumpTransport(transports[i])];
        i := i + 1;
      }
      pg := SavedGroup(if winner.Some? then transports[winner.value].spec.id else "",
                       winnerSince, confirmed, degraded, published, saved);
    }
  }
}
