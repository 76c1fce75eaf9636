/** What the workers publish, force and throttle, said of the groups and instants themselves
    (src/engine/mod.rs: `probe_once`, `reconcile`, `peer_entries`, `write_status`;
    src/engine/state.rs: `save_state`). */
module WorkerFacts {
  import opened Wrappers
  import opened Text
  import opened Health
  import opened Groups
  import opened HostsBlock
  import opened HostsProofs
  import opened HostsPublisher
  import opened Workers
  import opened WorkerRuns
  import GroupRuns

  // -- the entries are the groups --------------------------------------------------------

  /** The peer groups among the first `n` that publish an address, each once. */
  ghost predicate Chosen(gs: seq<View>, n: nat, order: seq<nat>)
    requires n <= |gs|
  {
    && (forall k, l :: 0 <= k < l < |order| ==> order[k] != order[l])
    && (forall k :: 0 <= k < |order| ==> order[k] < n && gs[order[k]].cfg.kind == Peer && gs[order[k]].published != "")
    && (forall i: nat :: i < n && gs[i].cfg.kind == Peer && gs[i].published != "" ==> i in order)
  }

  /** The group's entry: its published address and its host names. */
  predicate Owns(v: View, e: Entry) {
    e.address == v.published && e.hostnames == v.cfg.hostnames
  }

  /** With the group's confirmation, rendered. */
  predicate Dates(v: View, stamp: int -> string, e: Entry) {
    e.confirmed == if v.confirmed.Some? then Some(Stamp(stamp, v.confirmed.value)) else None
  }

  /** The entries belong one to one to the peer groups that publish an address, `order[k]` being the
      group of entry `k`. */
  ghost predicate ListsGroups(gs: seq<View>, es: seq<Entry>, order: seq<nat>) {
    Chosen(gs, |gs|, order) && |order| == |es| && forall k :: 0 <= k < |order| ==> Owns(gs[order[k]], es[k])
  }

  /** And each carries its own group's confirmation. */
  ghost predicate Confirms(gs: seq<View>, stamp: int -> string, es: seq<Entry>, order: seq<nat>)
    requires ListsGroups(gs, es, order)
  {
    forall k :: 0 <= k < |order| ==> Dates(gs[order[k]], stamp, es[k])
  }

  lemma StampIs(stamp: int -> string, at: int)
    ensures Stamp(stamp, at) == stamp(at)
  {
  }

  lemma Associates<T>(a: seq<T>, b: seq<T>, c: seq<T>)
    ensures a + (b + c) == (a + b) + c
  {
  }

  lemma {:induction false} EntriesConcat(a: seq<View>, b: seq<View>, stamp: int -> string)
    ensures PeerEntries(a + b, stamp) == PeerEntries(a, stamp) + PeerEntries(b, stamp)
  {
    if a == [] {
      assert a + b == b;
    } else {
      assert (a + b)[1..] == a[1..] + b && (a + b)[0] == a[0];
      EntriesConcat(a[1..], b, stamp);
      Associates(if Listed(a[0]) then [EntryOf(a[0], stamp)] else [], PeerEntries(a[1..], stamp), PeerEntries(b, stamp));
    }
  }

  lemma EntriesNext(gs: seq<View>, n: nat, stamp: int -> string)
    requires n < |gs|
    ensures PeerEntries(gs[..n + 1], stamp)
            == PeerEntries(gs[..n], stamp) + (if Listed(gs[n]) then [EntryOf(gs[n], stamp)] else [])
  {
    assert gs[..n + 1] == gs[..n] + [gs[n]] && [gs[n]][1..] == [];
    EntriesConcat(gs[..n], [gs[n]], stamp);
  }

  lemma ChosenNext(gs: seq<View>, n: nat, order: seq<nat>)
    requires n < |gs| && Chosen(gs, n, order)
    ensures Chosen(gs, n + 1, if gs[n].cfg.kind == Peer && gs[n].published != "" then order + [n] else order)
  {
    var o := order + [n];
    forall i: nat | i < n + 1 && gs[i].cfg.kind == Peer && gs[i].published != "" ensures i in o && (i < n ==> i in order) {
      if i == n {
        assert o[|order|] == n;
      }
    }
  }

  ghost predicate ChosenAs(gs: seq<View>, n: nat, stamp: int -> string, es: seq<Entry>, order: seq<nat>)
    requires n <= |gs|
  {
    && Chosen(gs, n, order) && |order| == |es|
    && forall k :: 0 <= k < |order| ==> Owns(gs[order[k]], es[k]) && Dates(gs[order[k]], stamp, es[k])
  }

  lemma ChosenAsNext(gs: seq<View>, n: nat, stamp: int -> string, es: seq<Entry>, order: seq<nat>)
    requires n < |gs| && ChosenAs(gs, n, stamp, es, order)
    ensures if gs[n].cfg.kind == Peer && gs[n].published != ""
            then ChosenAs(gs, n + 1, stamp, es + [EntryOf(gs[n], stamp)], order + [n])
            else ChosenAs(gs, n + 1, stamp, es, order)
  {
    ChosenNext(gs, n, order);
    var o, fs := order + [n], es + [EntryOf(gs[n], stamp)];
    if gs[n].cfg.kind == Peer && gs[n].published != "" {
      forall k | 0 <= k < |o| ensures Owns(gs[o[k]], fs[k]) && Dates(gs[o[k]], stamp, fs[k]) {
        assert k < |order| ==> o[k] == order[k] && fs[k] == es[k];
      }
    }
  }

  lemma {:induction false} EntriesOfFirst(gs: seq<View>, n: nat, stamp: int -> string) returns (order: seq<nat>)
    requires n <= |gs|
    ensures ChosenAs(gs, n, stamp, PeerEntries(gs[..n], stamp), order)
  {
    if n == 0 {
      order := [];
    } else {
      order := EntriesOfFirst(gs, n - 1, stamp);
      EntriesNext(gs, n - 1, stamp);
      ChosenAsNext(gs, n - 1, stamp, PeerEntries(gs[..n - 1], stamp), order);
      if gs[n - 1].cfg.kind == Peer && gs[n - 1].published != "" {
        order := order + [n - 1];
      } else {
        assert PeerEntries(gs[..n - 1], stamp) + [] == PeerEntries(gs[..n - 1], stamp);
      }
    }
  }

  /** `peer_entries` gives every publishing peer group, and none but them, its one entry. */
  lemma EntriesListGroups(gs: seq<View>, stamp: int -> string) returns (order: seq<nat>)
    ensures ListsGroups(gs, PeerEntries(gs, stamp), order) && Confirms(gs, stamp, PeerEntries(gs, stamp), order)
  {
    order := EntriesOfFirst(gs, |gs|, stamp);
    assert gs[..|gs|] == gs;
  }

  // -- sorting moves them ----------------------------------------------------------------

  function Inserted<T>(s: seq<T>, i: nat, x: T): (r: seq<T>)
    requires i <= |s|
    ensures |r| == |s| + 1 && r[i] == x
    ensures forall k :: 0 <= k < i ==> r[k] == s[k]
    ensures forall k :: i < k < |r| ==> r[k] == s[k - 1]
  {
    s[..i] + [x] + s[i..]
  }

  lemma InsertedLater(es: seq<Entry>, i: nat, e: Entry)
    requires es != [] && i <= |es| - 1
    ensures [es[0]] + Inserted(es[1..], i, e) == Inserted(es, i + 1, e)
  {
    assert es[..i + 1] == [es[0]] + es[1..][..i] && es[i + 1..] == es[1..][i..];
  }

  lemma {:induction false} InsertPosition(es: seq<Entry>, e: Entry) returns (i: nat)
    ensures i <= |es| && InsertEntry(es, e) == Inserted(es, i, e)
  {
    if es == [] || Less(e.address, es[0].address) {
      i := 0;
    } else {
      var j := InsertPosition(es[1..], e);
      i := j + 1;
      InsertedLater(es, j, e);
    }
  }

  ghost predicate Permutes(from: seq<Entry>, to: seq<Entry>, perm: seq<nat>) {
    && |perm| == |to| == |from|
    && (forall k :: 0 <= k < |perm| ==> perm[k] < |from| && to[k] == from[perm[k]])
    && (forall k, l :: 0 <= k < l < |perm| ==> perm[k] != perm[l])
    && (forall i: nat :: i < |from| ==> i in perm)
  }

  lemma InsertDistinct(perm: seq<nat>, i: nat, n: nat)
    requires i <= |perm| && (forall k :: 0 <= k < |perm| ==> perm[k] < n)
    requires forall k, l :: 0 <= k < l < |perm| ==> perm[k] != perm[l]
    ensures var p := Inserted(perm, i, n); forall k, l :: 0 <= k < l < |p| ==> p[k] != p[l]
  {
  }

  lemma InsertCovers(perm: seq<nat>, i: nat, n: nat, j: nat)
    requires i <= |perm| && (j == n || j in perm)
    ensures j in Inserted(perm, i, n)
  {
    var p := Inserted(perm, i, n);
    if j in perm {
      var k: nat :| k < |perm| && perm[k] == j;
      assert p[if k < i then k else k + 1] == j;
    } else {
      assert p[i] == j;
    }
  }

  lemma InsertPermutation(from: seq<Entry>, to: seq<Entry>, perm: seq<nat>, e: Entry, i: nat)
    requires Permutes(from, to, perm) && i <= |to|
    ensures Permutes(from + [e], Inserted(to, i, e), Inserted(perm, i, |from|))
  {
    InsertDistinct(perm, i, |from|);
    var p, q := Inserted(perm, i, |from|), Inserted(to, i, e);
    forall k | 0 <= k < |p| ensures p[k] < |from| + 1 && q[k] == (from + [e])[p[k]] {
    }
    forall j: nat | j < |from| + 1 ensures j in p {
      InsertCovers(perm, i, |from|, j);
    }
  }

  lemma SortedStep(from: seq<Entry>, to: seq<Entry>, perm: seq<nat>, e: Entry) returns (r: seq<nat>)
    requires Permutes(from, to, perm)
    ensures Permutes(from + [e], InsertEntry(to, e), r)
  {
    var i := InsertPosition(to, e);
    InsertPermutation(from, to, perm, e, i);
    r := Inserted(perm, i, |from|);
  }

  lemma {:induction false} SortPermutation(es: seq<Entry>) returns (perm: seq<nat>)
    ensures Permutes(es, ByAddress(es), perm)
  {
    if es == [] {
      perm := [];
    } else {
      var p, last := es[..|es| - 1], es[|es| - 1];
      perm := SortPermutation(p);
      perm := SortedStep(p, ByAddress(p), perm, last);
      assert p + [last] == es;
    }
  }

  function Along(order: seq<nat>, perm: seq<nat>): seq<nat>
    requires forall k :: 0 <= k < |perm| ==> perm[k] < |order|
  {
    seq(|perm|, k requires 0 <= k < |perm| => order[perm[k]])
  }

  lemma PermutedList(gs: seq<View>, es: seq<Entry>, order: seq<nat>, to: seq<Entry>, perm: seq<nat>)
    requires ListsGroups(gs, es, order) && Permutes(es, to, perm)
    ensures ListsGroups(gs, to, Along(order, perm))
  {
    var o := Along(order, perm);
    forall i: nat | i < |gs| && gs[i].cfg.kind == Peer && gs[i].published != "" ensures i in o {
      assert i in order;
      var k: nat :| k < |order| && order[k] == i;
      assert k in perm;
      var l: nat :| l < |perm| && perm[l] == k;
      assert o[l] == i;
    }
    forall k, l | 0 <= k < l < |o| ensures o[k] != o[l] {
      assert perm[k] != perm[l];
    }
    forall k | 0 <= k < |o| ensures Owns(gs[o[k]], to[k]) {
      assert Owns(gs[order[perm[k]]], es[perm[k]]);
    }
  }

  // -- the file lists the groups ---------------------------------------------------------

  lemma BareLists(gs: seq<View>, es: seq<Entry>, fs: seq<Entry>, order: seq<nat>)
    requires ListsGroups(gs, es, order) && BareAll(es) == BareAll(fs)
    ensures ListsGroups(gs, fs, order)
  {
    forall k | 0 <= k < |es| ensures Owns(gs[order[k]], fs[k]) {
      assert Owns(gs[order[k]], es[k]);
      assert BareAll(es)[k] == Bare(es[k]) && BareAll(fs)[k] == Bare(fs[k]);
    }
  }

  /** The file a publication leaves holds one entry for each peer group that publishes an address, with
      that address and its names, and no other; when it wrote, with the groups' confirmations too. */
  lemma PublicationLists(e: Env, gs: seq<View>, hosts: Option<string>, writtenAt: string) returns (order: seq<nat>)
    requires CleanEnv(e) && CleanViews(gs) && NoSpaces(writtenAt)
    requires NoBegin(Lines(Regions(hosts, e.prefix, e.suffix).1))
    ensures var after := AfterPublication(e, hosts, PeerEntries(gs, e.stamp), writtenAt);
            after.Some? && ListsGroups(gs, Parse(after.value), order)
            && (after != hosts ==> Confirms(gs, e.stamp, Parse(after.value), order))
  {
    var es := PeerEntries(gs, e.stamp);
    PublicationShows(e, gs, hosts, writtenAt);
    EntriesAreValid(gs, e);
    PublishedFileParses(hosts, e.prefix, e.suffix, es, writtenAt);
    order := SortedLists(gs, e.stamp);
    var after := AfterPublication(e, hosts, es, writtenAt);
    BareLists(gs, ByAddress(es), Parse(after.value), order);
  }

  lemma SortedLists(gs: seq<View>, stamp: int -> string) returns (order: seq<nat>)
    ensures ListsGroups(gs, ByAddress(PeerEntries(gs, stamp)), order)
    ensures Confirms(gs, stamp, ByAddress(PeerEntries(gs, stamp)), order)
  {
    var es := PeerEntries(gs, stamp);
    var was := EntriesListGroups(gs, stamp);
    var perm := SortPermutation(es);
    PermutedList(gs, es, was, ByAddress(es), perm);
    order := Along(was, perm);
  }

  /** In every interleaving: once the latest hosts publication succeeded, whenever no worker holds
      `io_lock`, the live file holds exactly one entry for each peer group that publishes an address in
      memory, with that address and that group's host names, and no other. */
  lemma HostsListThePeers(e: Env, x: World) returns (order: seq<nat>)
    requires Reached(e, x) && x.io.None? && x.hostsOk
    ensures x.hosts.Some? && ListsGroups(x.groups, Parse(x.hosts.value), order)
  {
    HostsAgreeWhenIoIsFree(e, x);
    order := SortedLists(x.groups, e.stamp);
    BareLists(x.groups, ByAddress(PeerEntries(x.groups, e.stamp)), Parse(x.hosts.value), order);
  }

  // -- what a step forces ----------------------------------------------------------------

  predicate SameForce(pc: Pc, state: bool, status: bool) {
    !pc.Idle? && pc.f == Force(state, status)
  }

  /** A record touches its own transport alone, and forces state.json exactly when its state or address
      changed, the status file exactly when its state did. */
  lemma RecordExactly(e: Env, x: World, s: Step)
    requires Enabled(e, x, s) && s.Record?
    ensures var (g, i) := e.jobs[s.w];
            var n := Next(e, x, s);
            var was, now := x.groups[g].transports[i], n.groups[g].transports[i];
            && now == Recorded(was, Sanitized(s.raw, e.isLiteral), s.at)
            && n.groups == x.groups[g := x.groups[g].(transports := x.groups[g].transports[i := now])]
            && n.pcs[s.w].WantIo? && SameForce(n.pcs[s.w], was.state != now.state || was.address != now.address, was.state != now.state)
  {
  }

  /** A decision touches its own group alone; it goes on to publish the hosts exactly when it is a peer's
      and changed its winner or published address or some peer still has something to publish, and to
      publish routes exactly when an uplink has a ranking; and a change of winner, degraded flag or
      published address, and nothing else, forces both files. */
  lemma DecideExactly(e: Env, x: World, s: Step)
    requires Enabled(e, x, s) && s.DecideNow?
    ensures var g := e.jobs[s.w].0;
            var n := Next(e, x, s);
            var was, now, f, pc := x.groups[g], n.groups[g], x.pcs[s.w].f, n.pcs[s.w];
            var changed := was.winner != now.winner || was.degraded != now.degraded || was.published != now.published;
            && n.groups == x.groups[g := Decide(was, s.now).0]
            && SameForce(pc, f.state || changed, f.status || changed)
            && (pc.Publishing? <==>
                  && was.cfg.kind == Peer
                  && (was.winner != now.winner || was.published != now.published
                      || exists i :: 0 <= i < |n.groups| && n.groups[i].cfg.kind == Peer && n.groups[i].published != ""))
            && (pc.Routing? <==> was.cfg.kind == Uplink && UplinkRanking(now) != [])
            && (pc.Publishing? || pc.Routing? || pc.Settled?)
  {
    var g := e.jobs[s.w].0;
    var n := Next(e, x, s);
    WinnerInvariant(x.groups[g], s.now);
    PassiveExactly(x.groups[g], s.now);
    UplinkPublishes(x.groups[g], s.now);
    assert NothingToPublish(n.groups) <==> !exists i :: 0 <= i < |n.groups| && Listed(n.groups[i]);
    assert forall i :: 0 <= i < |n.groups| ==> (Listed(n.groups[i]) <==> n.groups[i].cfg.kind == Peer && n.groups[i].published != "");
  }

  lemma UplinkPublishes(v: View, now: int)
    ensures Decide(v, now).1.PublishUplink? <==> v.cfg.kind == Uplink && UplinkRanking(Decide(v, now).0) != []
  {
  }

  /** A publication that fails, or finds the file saying the same but for freshness, leaves it alone; any
      other replaces it by the wanted one. */
  lemma HostsWrittenExactly(e: Env, x: World, s: Step)
    requires Enabled(e, x, s) && s.PublishHosts?
    ensures var want := Wanted(x.hosts, e.prefix, e.suffix, x.pcs[s.w].entries, s.writtenAt);
            var n := Next(e, x, s);
            && (s.error.Some? || (x.hosts.Some? && SameButForFreshness(x.hosts.value, want)) ==> n.hosts == x.hosts)
            && (s.error.None? && (x.hosts.None? || !SameButForFreshness(x.hosts.value, want)) ==> n.hosts == Some(want))
            && (n.hostsOk <==> s.error.None?) && n.groups == x.groups
  {
  }

  /** A publication forces the status and state files exactly when its outcome differs from the last. */
  lemma ReportsExactly(e: Env, x: World, s: Step)
    requires Enabled(e, x, s) && (s.PublishHosts? || s.PublishRoutes?)
    ensures var n := Next(e, x, s);
            var g, f := e.jobs[s.w].0, x.pcs[s.w].f;
            var news := if s.PublishHosts? then x.hostsError != s.error else x.routeErrors[g] != s.error;
            && n.pcs[s.w].Settled? && SameForce(n.pcs[s.w], f.state || news, f.status || news)
            && n.hostsError == (if s.PublishHosts? then s.error else x.hostsError)
            && n.routeErrors == (if s.PublishHosts? then x.routeErrors else x.routeErrors[g := s.error])
  {
  }

  // -- what is throttled -----------------------------------------------------------------

  /** state.json is written unless unforced and within 15 s of its latest write. */
  lemma StateThrottledExactly(e: Env, x: World, s: Step)
    requires Enabled(e, x, s) && s.TakeState?
    ensures var n, f := Next(e, x, s), x.pcs[s.w].f;
            if f.state || x.state.last.None? || s.now - x.state.last.value >= 15 * 1_000_000_000
            then n.pcs[s.w] == HoldState(f) && n.state == x.state.(holder := Some(s.w))
            else n.pcs[s.w] == WantStatus(f) && n.state == x.state
  {
  }

  /** The status file is written unless unforced and within one second of its latest write. */
  lemma StatusThrottledExactly(e: Env, x: World, s: Step)
    requires Enabled(e, x, s) && s.TakeStatus?
    ensures var n, f := Next(e, x, s), x.pcs[s.w].f;
            if f.status || x.status.last.None? || s.now - x.status.last.value >= 1_000_000_000
            then n.pcs[s.w] == HoldStatus(f) && n.status == x.status.(holder := Some(s.w))
            else n.pcs[s.w] == Idle && n.status == x.status
  {
  }

  /** What lands is memory as it was when the snapshot was taken, and only a success restarts the window. */
  lemma WritesLand(e: Env, x: World, s: Step)
    requires Enabled(e, x, s)
    ensures var n := Next(e, x, s);
            && (s.SnapState? ==> n.pcs[s.w] == WritingState(x.pcs[s.w].f, Snapshot(x.version, x.groups, x.hostsError, x.routeErrors)))
            && (s.SnapStatus? ==> n.pcs[s.w] == WritingStatus(x.pcs[s.w].f, Snapshot(x.version, x.groups, x.hostsError, x.routeErrors)))
            && (s.WriteState? ==>
                  n.state == Writer(None, if s.ok then Some(x.pcs[s.w].snap) else x.state.file, if s.ok then Some(s.now) else x.state.last))
            && (s.WriteStatus? ==>
                  n.status == Writer(None, if s.ok then Some(x.pcs[s.w].snap) else x.status.file, if s.ok then Some(s.now) else x.status.last))
  {
  }

  /** Startup publishes the restored peers exactly when there are any, and then shows every one. */
  lemma StartupPublishes(e: Env, gs: seq<View>, hosts: Option<string>, writtenAt: string, error: Option<string>,
                         routeErrors: seq<Option<string>>, statusAt: Option<int>) returns (order: seq<nat>)
    requires CleanEnv(e) && CleanViews(gs) && NoSpaces(writtenAt)
    requires NoBegin(Lines(Regions(hosts, e.prefix, e.suffix).1))
    ensures var x := Startup(e, gs, hosts, writtenAt, error, routeErrors, statusAt);
            var any := exists i :: 0 <= i < |gs| && gs[i].cfg.kind == Peer && gs[i].published != "";
            && (x.hostsOk <==> any && error.None?)
            && (!x.hostsOk ==> x.hosts == hosts)
            && (x.hostsOk ==> x.hosts.Some? && ListsGroups(gs, Parse(x.hosts.value), order))
            && x.hostsError == (if any then error else None)
  {
    order := PublicationLists(e, gs, hosts, writtenAt);
    assert forall i :: 0 <= i < |gs| ==> (Listed(gs[i]) <==> gs[i].cfg.kind == Peer && gs[i].published != "");
  }

  // -- one group of many -----------------------------------------------------------------

  /** Seen by one group, a worker's record or decision is a probe or decision of that group's own runs. */
  lemma GroupStepsMatch(e: Env, x: World, s: Step, r: GroupRuns.World)
    requires Enabled(e, x, s) && (s.Record? || s.DecideNow?) && r.group == x.groups[e.jobs[s.w].0]
    requires r.clock <= if s.Record? then s.at else s.now
    ensures var own := if s.Record? then GroupRuns.Probe(e.jobs[s.w].1, s.raw, s.at, s.at) else GroupRuns.DecideAt(s.now);
            GroupRuns.Enabled(r, own) && GroupRuns.Apply(r, own, e.isLiteral).group == Next(e, x, s).groups[e.jobs[s.w].0]
  {
  }
}
