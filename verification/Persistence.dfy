/** The saved record of a group and its restoration (src/engine/state.rs: `dump`, `restore`,
    `expire_restored_last_known_good`). A missing or corrupt file is simply no record. */
module Persistence {
  import opened Wrappers
  import opened Health
  import opened Groups

  datatype SavedTransport = SavedTransport(id: string, state: string, successes: int, failures: int,
                                           address: string, lastSuccess: Option<int>)

  datatype SavedGroup = SavedGroup(winnerId: string, winnerSince: Option<int>, confirmed: Option<int>,
                                   degraded: bool, published: string, transports: seq<SavedTransport>)

  function StateName(s: TransportState): string {
    match s
    case Unknown => "unknown"
    case Up => "up"
    case Down => "down"
  }

  function ParseState(name: string): TransportState {
    if name == "up" then Up else if name == "down" then Down else Unknown
  }

  /** The persisted names, and what any name is read as: an unfamiliar one proves nothing. */
  lemma NamesOnDisk(name: string, s: TransportState)
    ensures ParseState(name) == Up <==> name == "up"
    ensures ParseState(name) == Down <==> name == "down"
    ensures ParseState(StateName(s)) == s && (s == Unknown ==> StateName(s) == "unknown")
  {
  }

  // -- saving ----------------------------------------------------------------------------

  function DumpTransport(t: Transport): SavedTransport {
    SavedTransport(t.spec.id, StateName(t.state), t.successes, t.failures, t.address, t.lastSuccess)
  }

  function Dump(v: View): SavedGroup
    requires Valid(v)
  {
    SavedGroup(if v.winner.Some? then v.transports[v.winner.value].spec.id else "",
               v.winnerSince, v.confirmed, v.degraded, v.published,
               seq(|v.transports|, i requires 0 <= i < |v.transports| => DumpTransport(v.transports[i])))
  }

  // -- restoring -------------------------------------------------------------------------

  /** The position of the first transport with this key. */
  function FindKey(ts: seq<Transport>, key: string): (p: Option<nat>)
    ensures p.Some? ==> p.value < |ts| && ts[p.value].spec.id == key
                        && forall i :: 0 <= i < p.value ==> ts[i].spec.id != key
    ensures p.None? ==> forall i :: 0 <= i < |ts| ==> ts[i].spec.id != key
  {
    if ts == [] then None
    else if ts[0].spec.id == key then Some(0)
    else
      assert forall i :: 0 < i < |ts| ==> ts[i] == ts[1..][i - 1];
      match FindKey(ts[1..], key)
      case None => None
      case Some(p) => Some(p + 1)
  }

  /** Saved transports by identity: unnamed ones are dropped and the last of a name wins. */
  function SavedById(saved: seq<SavedTransport>): map<string, SavedTransport> {
    if saved == [] then map[]
    else
      var last := saved[|saved| - 1];
      var m := SavedById(saved[..|saved| - 1]);
      if last.id == "" then m else m[last.id := last]
  }

  /** A configured address is the declaration: a record of another one is evidence about
      another endpoint. An empty record says nothing. */
  predicate AddressMoved(s: Spec, saved: map<string, SavedTransport>) {
    s.id in saved && s.address != "" && saved[s.id].address != "" && saved[s.id].address != s.address
  }

  function RestoredTransport(t: Transport, saved: map<string, SavedTransport>): Transport {
    if t.spec.id !in saved then t
    else
      var p := saved[t.spec.id];
      if AddressMoved(t.spec, saved) then Transport(t.spec, Unknown, 0, 0, t.spec.address, p.lastSuccess)
      else Transport(t.spec, ParseState(p.state), p.successes, p.failures,
                     if t.spec.address == "" then p.address else t.spec.address, p.lastSuccess)
  }

  /** The age bound applied to a record read back from disk. */
  function ExpireRestored(v: View, now: int): View {
    if v.cfg.kind != Peer || v.cfg.onAllDown != LastKnownGood || v.published == ""
       || StalenessOf(v.cfg.maxAgeSec, v.confirmed, now) == Fresh
    then v
    else v.(published := "", winner := None)
  }

  /** A group whose evidence no longer applies: nothing selected, nothing published. */
  function Invalidated(v: View): View {
    v.(winner := None, winnerSince := None, published := "", confirmed := None, degraded := true)
  }

  function RestoredTransports(ts: seq<Transport>, saved: map<string, SavedTransport>): (r: seq<Transport>)
    ensures |r| == |ts|
  {
    seq(|ts|, i requires 0 <= i < |ts| => RestoredTransport(ts[i], saved))
  }

  function Restore(v: View, pg: SavedGroup, now: int): View {
    var saved := SavedById(pg.transports);
    var winner := if pg.winnerId == "" then None else FindKey(v.transports, pg.winnerId);
    var a := ExpireRestored(v.(winner := winner, winnerSince := pg.winnerSince, confirmed := pg.confirmed,
                               degraded := pg.degraded, published := pg.published), now);
    var b := a.(transports := RestoredTransports(v.transports, saved));
    if a.winner.Some? && AddressMoved(v.transports[a.winner.value].spec, saved) then Invalidated(b)
    else if a.winner.None? && a.published != "" then Invalidated(b)
    else b
  }

  /** A freshly constructed group. */
  function ColdGroup(cfg: Config, specs: seq<Spec>): View {
    View(cfg, seq(|specs|, i requires 0 <= i < |specs| => Cold(specs[i])), None, None, false, "", None)
  }

  function Specs(v: View): seq<Spec> {
    seq(|v.transports|, i requires 0 <= i < |v.transports| => v.transports[i].spec)
  }

  // -- restoring an arbitrary record -----------------------------------------------------

  /** Whatever the file held, the restored group has an in-range winner, publishes nothing without
      one, and holds no last-known-good value older than its bound or of unknown age. */
  lemma RestoreIsSafe(v: View, pg: SavedGroup, now: int)
    ensures var n := Restore(v, pg, now);
            && Valid(n) && n.cfg == v.cfg && Specs(n) == Specs(v)
            && (n.published != "" ==> n.winner.Some?)
            && (n.winner.Some? ==> n.transports[n.winner.value].spec.id == pg.winnerId && n.confirmed == pg.confirmed)
            && (n.published != "" ==> n.published == pg.published)
            && (n.cfg.kind == Peer && n.cfg.onAllDown == LastKnownGood && n.published != "" ==>
                  StalenessOf(n.cfg.maxAgeSec, n.confirmed, now) == Fresh)
  {
  }

  // -- the round trip --------------------------------------------------------------------

  /** What config validation guarantees about identities. */
  ghost predicate DistinctIds(specs: seq<Spec>) {
    && (forall i :: 0 <= i < |specs| ==> specs[i].id != "")
    && (forall i, j :: 0 <= i < j < |specs| ==> specs[i].id != specs[j].id)
  }

  lemma {:induction false} SavedByIdLooksUp(saved: seq<SavedTransport>, i: nat)
    requires i < |saved| && saved[i].id != ""
    requires forall j :: i < j < |saved| ==> saved[j].id != saved[i].id
    ensures saved[i].id in SavedById(saved) && SavedById(saved)[saved[i].id] == saved[i]
  {
    if i < |saved| - 1 {
      SavedByIdLooksUp(saved[..|saved| - 1], i);
    }
  }

  lemma {:induction false} SavedByIdOnlyHolds(saved: seq<SavedTransport>, id: string)
    requires id in SavedById(saved)
    ensures exists i :: 0 <= i < |saved| && saved[i].id == id && SavedById(saved)[id] == saved[i]
  {
    var last := saved[|saved| - 1];
    if last.id != id || last.id == "" {
      SavedByIdOnlyHolds(saved[..|saved| - 1], id);
      var i :| 0 <= i < |saved| - 1 && saved[..|saved| - 1][i].id == id
               && SavedById(saved[..|saved| - 1])[id] == saved[..|saved| - 1][i];
      assert saved[i].id == id;
    }
  }

  /** The winner's declared address still is the one its record is about. */
  predicate WinnerInPlace(v: View) {
    v.winner.Some? && v.winner.value < |v.transports| ==>
      var t := v.transports[v.winner.value];
      t.spec.address == "" || t.address == "" || t.address == t.spec.address
  }

  /** The bound, if it is one, is not exceeded; an unknown age exceeds every bound. */
  predicate WithinAge(maxAgeSec: Option<int>, confirmed: Option<int>, now: int) {
    || maxAgeSec.None? || maxAgeSec.value <= 0
    || (confirmed.Some? && now - confirmed.value <= maxAgeSec.value * 1_000_000_000)
  }

  /** Only a published last-known-good value can age. */
  predicate Retained(v: View, now: int) {
    v.cfg.kind == Peer && v.cfg.onAllDown == LastKnownGood && v.published != "" ==>
      WithinAge(v.cfg.maxAgeSec, v.confirmed, now)
  }

  /** A transport's record restores that transport, on the same declaration. */
  lemma RestoreTransportRoundTrip(v: View, i: nat)
    requires Valid(v) && DistinctIds(Specs(v)) && i < |v.transports|
    ensures var saved := SavedById(Dump(v).transports);
            var t, r := v.transports[i], RestoredTransport(Cold(v.transports[i].spec), SavedById(Dump(v).transports));
            && (AddressMoved(t.spec, saved) <==> t.spec.address != "" && t.address != "" && t.address != t.spec.address)
            && r.spec == t.spec && r.lastSuccess == t.lastSuccess
            && (!AddressMoved(t.spec, saved) ==>
                  && r.state == t.state && r.successes == t.successes && r.failures == t.failures
                  && (r.address == t.address || (t.address == "" && r.address == t.spec.address)))
  {
    RecordLooksUp(v, i);
  }

  /** Saving then restoring on the same transport list keeps the winner, the published value, its
      confirmation and every transport's health and counters; and it keeps winner and published
      value exactly when the entry has not expired and the winner's address was not redeclared. */
  lemma RoundTrip(v: View, now: int)
    requires Valid(v) && DistinctIds(Specs(v)) && (v.published != "" ==> v.winner.Some?)
    ensures var n := Restore(ColdGroup(v.cfg, Specs(v)), Dump(v), now);
            && (Retained(v, now) && WinnerInPlace(v) ==>
                  n.winner == v.winner && n.published == v.published && n.winnerSince == v.winnerSince
                  && n.confirmed == v.confirmed && n.degraded == v.degraded)
            && (v.winner.Some? && n.winner == v.winner && n.published == v.published ==> Retained(v, now) && WinnerInPlace(v))
            && |n.transports| == |v.transports|
            && forall i :: 0 <= i < |v.transports| ==>
                 n.transports[i] == RestoredTransport(Cold(v.transports[i].spec), SavedById(Dump(v).transports))
  {
    var cold := ColdGroup(v.cfg, Specs(v));
    if v.winner.Some? {
      var w := v.winner.value;
      assert Specs(v)[w].id == v.transports[w].spec.id == Dump(v).winnerId;
      var p := FindKey(cold.transports, Dump(v).winnerId);
      assert cold.transports[w].spec.id == Dump(v).winnerId;
      assert p.Some? && Specs(v)[p.value].id == Specs(v)[w].id;
      assert p == Some(w);
      RestoreTransportRoundTrip(v, w);
    }
  }

  /** The first transport that declares the identity. */
  predicate Declares(v: View, id: string, w: nat) {
    id != "" && w < |v.transports| && v.transports[w].spec.id == id
    && forall i :: 0 <= i < w ==> v.transports[i].spec.id != id
  }

  /** The group fields after restoring any record whatever. A value past its bound is dropped with its
      winner, the rest of the record standing. A recorded winner that is no longer declared but still
      published, or whose static address was redeclared, takes every bit of the record with it: nothing is
      selected, published or confirmed and the group is degraded. Otherwise the record stands. */
  lemma RestoreCases(v: View, pg: SavedGroup, now: int)
    ensures var n := Restore(v, pg, now);
            var aged := v.cfg.kind == Peer && v.cfg.onAllDown == LastKnownGood && pg.published != ""
                        && !WithinAge(v.cfg.maxAgeSec, pg.confirmed, now);
            && (aged ==>
                  n.winner.None? && n.published == "" && n.winnerSince == pg.winnerSince && n.confirmed == pg.confirmed
                  && n.degraded == pg.degraded)
            && (!aged && (forall w: nat :: !Declares(v, pg.winnerId, w)) ==>
                  n.winner.None? && n.published == ""
                  && if pg.published != "" then n.winnerSince.None? && n.confirmed.None? && n.degraded
                     else n.winnerSince == pg.winnerSince && n.confirmed == pg.confirmed && n.degraded == pg.degraded)
            && (forall w: nat :: !aged && Declares(v, pg.winnerId, w) ==>
                  if AddressMoved(v.transports[w].spec, SavedById(pg.transports)) then
                    n.winner.None? && n.published == "" && n.winnerSince.None? && n.confirmed.None? && n.degraded
                  else
                    n.winner == Some(w) && n.published == pg.published && n.winnerSince == pg.winnerSince
                    && n.confirmed == pg.confirmed && n.degraded == pg.degraded)
  {
    var p := FindKey(v.transports, pg.winnerId);
    if p.Some? && pg.winnerId != "" {
      assert Declares(v, pg.winnerId, p.value);
      forall w: nat | Declares(v, pg.winnerId, w) ensures w == p.value {
      }
    }
  }

  // -- identity, not position ------------------------------------------------------------

  function WinnerSpec(v: View): Option<Spec>
    requires Valid(v)
  {
    if v.winner.Some? then Some(v.transports[v.winner.value].spec) else None
  }

  ghost predicate SameEvidence(a: View, b: View) {
    && Valid(a) && Valid(b)
    && WinnerSpec(a) == WinnerSpec(b) && a.winnerSince == b.winnerSince && a.confirmed == b.confirmed
    && a.degraded == b.degraded && a.published == b.published
  }

  /** The two lists agree about the transport named `key`: both declare it, alike, or neither does. */
  ghost predicate AgreeOn(a: seq<Spec>, b: seq<Spec>, key: string) {
    forall s: Spec :: s.id == key ==> (s in a <==> s in b)
  }

  lemma FindKeyInCold(cfg: Config, a: seq<Spec>, i: nat)
    requires DistinctIds(a) && i < |a|
    ensures FindKey(ColdGroup(cfg, a).transports, a[i].id) == Some(i)
  {
    var ts := ColdGroup(cfg, a).transports;
    var p := FindKey(ts, a[i].id);
    assert ts[i].spec.id == a[i].id;
    assert ts[p.value].spec == a[p.value];
  }

  lemma FindKeyAgrees(cfg: Config, a: seq<Spec>, b: seq<Spec>, key: string)
    requires DistinctIds(a) && DistinctIds(b) && AgreeOn(a, b, key)
    ensures var pa, pb := FindKey(ColdGroup(cfg, a).transports, key), FindKey(ColdGroup(cfg, b).transports, key);
            (pa.Some? <==> pb.Some?) && (pa.Some? ==> a[pa.value] == b[pb.value])
  {
    var pa, pb := FindKey(ColdGroup(cfg, a).transports, key), FindKey(ColdGroup(cfg, b).transports, key);
    if pa.Some? {
      assert a[pa.value] in a && a[pa.value].id == key;
      var j :| 0 <= j < |b| && b[j] == a[pa.value];
      FindKeyInCold(cfg, b, j);
    } else if pb.Some? {
      assert b[pb.value] in b && b[pb.value].id == key;
      var i :| 0 <= i < |a| && a[i] == b[pb.value];
      FindKeyInCold(cfg, a, i);
    }
  }

  /** `r` is what its own declaration recovers from the record of `t`. */
  predicate Recovered(t: Transport, r: Transport) {
    && r.lastSuccess == t.lastSuccess
    && r.address == (if r.spec.address == "" then t.address else r.spec.address)
    && if r.spec.address == "" || t.address == "" || t.address == r.spec.address then
         r.state == t.state && r.successes == t.successes && r.failures == t.failures
       else r.state == Unknown && r.successes == 0 && r.failures == 0
  }

  lemma RecordLooksUp(v: View, i: nat)
    requires Valid(v) && DistinctIds(Specs(v)) && i < |v.transports|
    ensures var t, saved := v.transports[i], SavedById(Dump(v).transports);
            t.spec.id in saved && saved[t.spec.id] == DumpTransport(t)
  {
    var saved := Dump(v).transports;
    assert saved[i].id == Specs(v)[i].id;
    forall k | i < k < |saved| ensures saved[k].id != saved[i].id {
      assert saved[k].id == Specs(v)[k].id;
    }
    SavedByIdLooksUp(saved, i);
  }

  lemma RecordRecovers(t: Transport, s: Spec, saved: map<string, SavedTransport>)
    requires s.id in saved && saved[s.id] == DumpTransport(t)
    ensures Recovered(t, RestoredTransport(Cold(s), saved))
  {
  }

  /** Restoring a saved group onto any other transport list, however reordered, extended or cut: a
      transport whose identity both lists declare keeps its last success wherever it now stands, and its
      health and counters unless a static address was redeclared; its address is the declared one, or
      without one the discovered one; and an identity the group did not know starts cold. */
  lemma RestoreFollowsIdentity(v: View, b: seq<Spec>, now: int, j: nat)
    requires Valid(v) && DistinctIds(Specs(v)) && j < |b|
    ensures var r := Restore(ColdGroup(v.cfg, b), Dump(v), now).transports[j];
            && r.spec == b[j]
            && (forall i :: 0 <= i < |v.transports| && v.transports[i].spec.id == b[j].id ==>
                  Recovered(v.transports[i], r))
            && ((forall i :: 0 <= i < |v.transports| ==> v.transports[i].spec.id != b[j].id) ==> r == Cold(b[j]))
  {
    var r := Restore(ColdGroup(v.cfg, b), Dump(v), now).transports[j];
    assert r == RestoredTransport(Cold(b[j]), SavedById(Dump(v).transports));
    forall i | 0 <= i < |v.transports| && v.transports[i].spec.id == b[j].id ensures Recovered(v.transports[i], r) {
      RecordLooksUp(v, i);
      RecordRecovers(v.transports[i], b[j], SavedById(Dump(v).transports));
    }
    if b[j].id in SavedById(Dump(v).transports) {
      SavedByIdOnlyHolds(Dump(v).transports, b[j].id);
      var i :| 0 <= i < |v.transports| && Dump(v).transports[i].id == b[j].id;
      assert v.transports[i].spec.id == b[j].id;
    }
  }

  /** When two lists agree about the recorded winner, the restored groups agree about all the rest:
      the selected transport, the published value, its confirmation and the degraded flag. */
  lemma RestoreSelectsByIdentity(cfg: Config, a: seq<Spec>, b: seq<Spec>, pg: SavedGroup, now: int)
    requires DistinctIds(a) && DistinctIds(b) && AgreeOn(a, b, pg.winnerId)
    ensures SameEvidence(Restore(ColdGroup(cfg, a), pg, now), Restore(ColdGroup(cfg, b), pg, now))
  {
    FindKeyAgrees(cfg, a, b, pg.winnerId);
  }

  /** A list that no longer declares the recorded winner publishes and selects nothing. */
  lemma RemovedWinnerIsWithdrawn(cfg: Config, a: seq<Spec>, pg: SavedGroup, now: int)
    requires forall i :: 0 <= i < |a| ==> a[i].id != pg.winnerId
    ensures var n := Restore(ColdGroup(cfg, a), pg, now);
            && n.winner.None? && n.published == ""
            && (pg.published != "" && !ExpiredOnDisk(cfg, pg, now) ==> n.degraded && n.confirmed.None?)
  {
  }

  /** The record held a last-known-good value past its bound. */
  predicate ExpiredOnDisk(cfg: Config, pg: SavedGroup, now: int) {
    cfg.kind == Peer && cfg.onAllDown == LastKnownGood && pg.published != ""
    && StalenessOf(cfg.maxAgeSec, pg.confirmed, now) != Fresh
  }
}
