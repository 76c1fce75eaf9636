/** Whole runs of the workers: the hosts file follows memory although it is written with the state
    lock released, the JSON files never go back, the throttled file catches up, and no worker waits
    for ever on a lock (src/engine/mod.rs; src/engine/state.rs). */
module WorkerRuns {
  import opened Wrappers
  import opened Text
  import opened Health
  import opened Groups
  import opened HostsBlock
  import opened HostsProofs
  import opened HostsPublisher
  import opened Runs
  import opened Workers

  // -- what configuration and probes guarantee -------------------------------------------

  predicate CleanAddress(a: string) {
    a != "" ==> Solid(a) && a[0] != '#'
  }

  ghost predicate CleanEnv(e: Env) {
    && CleanRegions(e.prefix, e.suffix)
    && (forall a: string :: e.isLiteral(a) ==> CleanAddress(a))
    && (forall t: int :: Solid(Stamp(e.stamp, t)))
  }

  ghost predicate CleanView(v: View) {
    && Valid(v)
    && CleanAddress(v.published)
    && (v.cfg.kind == Peer ==> v.cfg.hostnames != [] && AllSolid(v.cfg.hostnames))
    && forall i :: 0 <= i < |v.transports| ==> CleanAddress(v.transports[i].address) && CleanAddress(v.transports[i].spec.address)
  }

  ghost predicate CleanViews(gs: seq<View>) {
    forall i :: 0 <= i < |gs| ==> CleanView(gs[i])
  }

  // -- entries ---------------------------------------------------------------------------

  lemma {:induction false} EntriesAreValid(gs: seq<View>, e: Env)
    requires CleanEnv(e) && CleanViews(gs)
    ensures ValidEntries(PeerEntries(gs, e.stamp))
  {
    if gs != [] {
      assert Listed(gs[0]) ==> ValidEntry(EntryOf(gs[0], e.stamp)) by {
        assert CleanView(gs[0]);
        if gs[0].confirmed.Some? {
          assert Solid(Stamp(e.stamp, gs[0].confirmed.value));
        }
      }
      assert forall i :: 0 <= i < |gs[1..]| ==> gs[1..][i] == gs[i + 1];
      EntriesAreValid(gs[1..], e);
    }
  }

  /** The two views publish the same entry, or neither does. */
  ghost predicate SameListed(a: View, b: View, stamp: int -> string) {
    (Listed(a) <==> Listed(b)) && (Listed(a) ==> EntryOf(a, stamp) == EntryOf(b, stamp))
  }

  ghost predicate SameListing(a: seq<View>, b: seq<View>, stamp: int -> string) {
    |a| == |b| && forall i :: 0 <= i < |a| ==> SameListed(a[i], b[i], stamp)
  }

  lemma {:induction false} SameListingSameEntries(a: seq<View>, b: seq<View>, stamp: int -> string)
    requires SameListing(a, b, stamp)
    ensures PeerEntries(a, stamp) == PeerEntries(b, stamp)
  {
    if a != [] {
      forall i | 0 <= i < |a[1..]| ensures SameListed(a[1..][i], b[1..][i], stamp) {
        assert a[1..][i] == a[i + 1] && b[1..][i] == b[i + 1];
      }
      SameListingSameEntries(a[1..], b[1..], stamp);
    }
  }

  // -- the hosts file follows memory -----------------------------------------------------

  /** Addresses and names of the file are those of the entries, in address order. */
  ghost predicate Shows(hosts: Option<string>, es: seq<Entry>) {
    hosts.Some? && BareAll(Parse(hosts.value)) == BareAll(ByAddress(es))
  }

  ghost predicate HostsFollow(e: Env, x: World) {
    && Locks(x) && CleanEnv(e) && CleanViews(x.groups)
    && NoBegin(Lines(Regions(x.hosts, e.prefix, e.suffix).1))
    && (forall w :: 0 <= w < |x.pcs| && x.pcs[w].Publishing? ==> x.pcs[w].entries == PeerEntries(x.groups, e.stamp))
    && (x.hostsOk && (forall w :: 0 <= w < |x.pcs| ==> !x.pcs[w].Publishing?) ==> Shows(x.hosts, PeerEntries(x.groups, e.stamp)))
  }

  lemma RecordFollows(e: Env, x: World, s: Step)
    requires HostsFollow(e, x) && Enabled(e, x, s) && s.Record?
    ensures CleanViews(Next(e, x, s).groups) && SameListing(x.groups, Next(e, x, s).groups, e.stamp)
  {
    var n := Next(e, x, s);
    var (g, i) := e.jobs[s.w];
    assert CleanView(x.groups[g]);
    assert CleanView(n.groups[g]) by {
      var a, b := x.groups[g].transports, n.groups[g].transports;
      forall k | 0 <= k < |b| ensures CleanAddress(b[k].address) && CleanAddress(b[k].spec.address) {
        assert CleanAddress(a[k].address) && CleanAddress(a[k].spec.address);
      }
    }
    forall k | 0 <= k < |x.groups| ensures CleanView(n.groups[k]) {
      assert CleanView(x.groups[k]);
    }
  }

  lemma DecisionStaysClean(v: View, now: int)
    requires CleanView(v)
    ensures CleanView(Decide(v, now).0)
  {
    WinnerInvariant(v, now);
  }

  lemma DecideFollows(e: Env, x: World, s: Step)
    requires HostsFollow(e, x) && Enabled(e, x, s) && s.DecideNow?
    ensures var n := Next(e, x, s);
            && CleanViews(n.groups)
            && (n.pcs[s.w].Publishing? ==> n.pcs[s.w].entries == PeerEntries(n.groups, e.stamp))
            && (!n.pcs[s.w].Publishing? ==> PeerEntries(n.groups, e.stamp) == PeerEntries(x.groups, e.stamp))
  {
    var n := Next(e, x, s);
    var g := e.jobs[s.w].0;
    assert CleanView(x.groups[g]);
    DecisionStaysClean(x.groups[g], s.now);
    forall k | 0 <= k < |x.groups| ensures CleanView(n.groups[k]) {
      assert CleanView(x.groups[k]);
    }
    if !n.pcs[s.w].Publishing? {
      WinnerInvariant(x.groups[g], s.now);
      PassiveExactly(x.groups[g], s.now);
      forall k | 0 <= k < |x.groups| ensures SameListed(x.groups[k], n.groups[k], e.stamp) {
      }
      SameListingSameEntries(x.groups, n.groups, e.stamp);
    }
  }

  /** The file the publisher leaves, whether it wrote or found the same entries there. */
  function AfterPublication(e: Env, hosts: Option<string>, es: seq<Entry>, writtenAt: string): Option<string> {
    var want := Wanted(hosts, e.prefix, e.suffix, es, writtenAt);
    if hosts.Some? && SameButForFreshness(hosts.value, want) then hosts else Some(want)
  }

  lemma PublicationShows(e: Env, groups: seq<View>, hosts: Option<string>, writtenAt: string)
    requires CleanEnv(e) && CleanViews(groups) && NoSpaces(writtenAt)
    requires NoBegin(Lines(Regions(hosts, e.prefix, e.suffix).1))
    ensures var es := PeerEntries(groups, e.stamp);
            var after := AfterPublication(e, hosts, es, writtenAt);
            Shows(after, es) && NoBegin(Lines(Regions(after, e.prefix, e.suffix).1))
  {
    var es := PeerEntries(groups, e.stamp);
    EntriesAreValid(groups, e);
    PublishedFileParses(hosts, e.prefix, e.suffix, es, writtenAt);
    WantedKeepsSuffix(hosts, e.prefix, e.suffix, es, writtenAt);
  }

  lemma PublishFollows(e: Env, x: World, s: Step)
    requires HostsFollow(e, x) && Enabled(e, x, s) && s.PublishHosts?
    ensures var n := Next(e, x, s);
            && NoBegin(Lines(Regions(n.hosts, e.prefix, e.suffix).1))
            && (n.hostsOk ==> Shows(n.hosts, PeerEntries(n.groups, e.stamp)))
  {
    PublicationShows(e, x.groups, x.hosts, s.writtenAt);
  }

  lemma WantedKeepsSuffix(current: Option<string>, prefix: string, suffix: string, es: seq<Entry>, writtenAt: string)
    requires CleanRegions(prefix, suffix) && ValidEntries(es) && NoSpaces(writtenAt)
    ensures SplitStatic(Wanted(current, prefix, suffix, es, writtenAt)).1 == Regions(current, prefix, suffix).1
  {
    RegionsAreClean(current, prefix, suffix);
    SortedIsValid(es);
    var (p, s) := Regions(current, prefix, suffix);
    SplitOfRender(p, ByAddress(es), s, writtenAt);
  }

  /** The other steps do not touch the file. */
  lemma OtherFollows(e: Env, x: World, s: Step)
    requires Enabled(e, x, s) && !s.PublishHosts?
    ensures Next(e, x, s).hosts == x.hosts && Next(e, x, s).hostsOk == x.hostsOk
  {
  }

  lemma OtherWorkers(e: Env, x: World, s: Step)
    requires Enabled(e, x, s) && !s.DecideNow? && !s.PublishHosts?
    ensures !x.pcs[s.w].Publishing? && !Next(e, x, s).pcs[s.w].Publishing?
  {
  }

  /** At most one worker is publishing, so once one stops none is. */
  lemma SolePublisher(x: World, w: nat)
    requires Locks(x) && w < |x.pcs| && HoldsIo(x.pcs[w])
    ensures forall v :: 0 <= v < |x.pcs| && v != w ==> !x.pcs[v].Publishing?
  {
  }

  lemma StepFollows(e: Env, x: World, s: Step)
    requires HostsFollow(e, x) && Enabled(e, x, s)
    ensures HostsFollow(e, Next(e, x, s))
  {
    var n := Next(e, x, s);
    LocksHold(e, x, s);
    OneMoves(e, x, s);
    if s.Record? {
      RecordFollows(e, x, s);
      OtherFollows(e, x, s);
      OtherWorkers(e, x, s);
      SameListingSameEntries(x.groups, n.groups, e.stamp);
      Unpublished(x, n, s.w);
    } else if s.DecideNow? {
      DecideFollows(e, x, s);
      OtherFollows(e, x, s);
      SolePublisher(x, s.w);
    } else if s.PublishHosts? {
      PublishFollows(e, x, s);
      SolePublisher(x, s.w);
    } else {
      GroupsStay(e, x, s);
      OtherFollows(e, x, s);
      OtherWorkers(e, x, s);
      Unpublished(x, n, s.w);
    }
  }

  lemma Unpublished(x: World, n: World, w: nat)
    requires w < |x.pcs| == |n.pcs| && n.pcs == x.pcs[w := n.pcs[w]]
    requires !x.pcs[w].Publishing? && !n.pcs[w].Publishing?
    ensures forall v :: 0 <= v < |n.pcs| && (n.pcs[v].Publishing? || x.pcs[v].Publishing?) ==> n.pcs[v] == x.pcs[v]
  {
  }

  // -- runs ------------------------------------------------------------------------------

  /** The world the workers start in. The restored peers are published first, unless there is nothing
      to publish: an empty block would overwrite the boot seed. The status file is written last, at
      `statusAt` unless that fails. */
  function Startup(e: Env, groups: seq<View>, hosts: Option<string>, writtenAt: string, error: Option<string>,
                   routeErrors: seq<Option<string>>, statusAt: Option<int>): World {
    var quiet := NothingToPublish(groups);
    var hostsError := if quiet then None else error;
    World(groups, 0, None,
          if quiet || error.Some? then hosts else AfterPublication(e, hosts, PeerEntries(groups, e.stamp), writtenAt),
          hostsError, routeErrors, Writer(None, None, None),
          Writer(None, if statusAt.Some? then Some(Snapshot(0, groups, hostsError, routeErrors)) else None, statusAt),
          seq(|e.jobs|, _ => Idle), !quiet && error.None?, true, statusAt.Some?, false)
  }

  ghost predicate Initial(e: Env, x: World) {
    && CleanEnv(e) && CleanViews(x.groups) && |x.routeErrors| == |x.groups|
    && (forall w :: 0 <= w < |e.jobs| ==> e.jobs[w].0 < |x.groups| && e.jobs[w].1 < |x.groups[e.jobs[w].0].transports|)
    && exists hosts: Option<string>, writtenAt: string, error: Option<string>, statusAt: Option<int> ::
         && NoSpaces(writtenAt) && NoBegin(Lines(Regions(hosts, e.prefix, e.suffix).1))
         && x == Startup(e, x.groups, hosts, writtenAt, error, x.routeErrors, statusAt)
  }

  ghost predicate Follows(e: Env, x: World, s: Step, n: World) {
    Enabled(e, x, s) && n == Next(e, x, s)
  }

  /** The moves are steps of the workers, one after the other from `x`. */
  ghost predicate IsRun(e: Env, x: World, moves: seq<Move<Step, World>>) {
    Chain((a: World, s: Step, b: World) => Follows(e, a, s, b), x, moves)
  }

  /** `x` is reached in some interleaving. */
  ghost predicate Reached(e: Env, x: World) {
    Reachable((a: World) => Initial(e, a), (a: World, s: Step, b: World) => Follows(e, a, s, b), x)
  }

  ghost predicate Placed(e: Env, x: World) {
    && |x.pcs| == |e.jobs| && |x.routeErrors| == |x.groups|
    && (forall w :: 0 <= w < |e.jobs| ==> e.jobs[w].0 < |x.groups| && e.jobs[w].1 < |x.groups[e.jobs[w].0].transports|)
  }

  ghost predicate Good(e: Env, x: World) {
    Ordered(x) && CatchingUp(x) && HostsFollow(e, x) && Placed(e, x)
  }

  lemma StaysPlaced(e: Env, x: World, s: Step)
    requires Placed(e, x) && Enabled(e, x, s)
    ensures Placed(e, Next(e, x, s))
  {
    OneMoves(e, x, s);
    if s.DecideNow? {
      WinnerInvariant(x.groups[e.jobs[s.w].0], s.now);
    }
  }

  lemma StartupShows(e: Env, x: World)
    requires Initial(e, x)
    ensures Fresh(x)
    ensures NoBegin(Lines(Regions(x.hosts, e.prefix, e.suffix).1))
    ensures x.hostsOk ==> Shows(x.hosts, PeerEntries(x.groups, e.stamp))
  {
    var hosts: Option<string>, writtenAt: string, error: Option<string>, statusAt: Option<int> :|
      && NoSpaces(writtenAt) && NoBegin(Lines(Regions(hosts, e.prefix, e.suffix).1))
      && x == Startup(e, x.groups, hosts, writtenAt, error, x.routeErrors, statusAt);
    PublicationShows(e, x.groups, hosts, writtenAt);
  }

  /** No worker has started a tick; this run has written no JSON file but the status file of this world. */
  ghost predicate Fresh(x: World) {
    && (forall w :: 0 <= w < |x.pcs| ==> x.pcs[w].Idle?)
    && x.io.None? && !x.ticked
    && x.state == Writer(None, None, None)
    && (x.status == Writer(None, None, None) || x.status == Writer(None, Some(SnapshotOf(x)), x.status.last))
  }

  lemma FreshIsOrdered(x: World)
    requires Fresh(x)
    ensures Ordered(x) && CatchingUp(x)
  {
  }

  lemma InitialIsGood(e: Env, x: World)
    requires Initial(e, x)
    ensures Good(e, x)
  {
    StartupShows(e, x);
    FreshIsOrdered(x);
    assert Placed(e, x);
  }

  lemma StepStaysGood(e: Env, x: World, s: Step, n: World)
    requires Good(e, x) && Follows(e, x, s, n)
    ensures Good(e, n) && NotOlder(x.state, n.state) && NotOlder(x.status, n.status)
  {
    StepNeverRegresses(e, x, s);
    StepCatchesUp(e, x, s);
    StepFollows(e, x, s);
    StaysPlaced(e, x, s);
  }

  predicate NoneOlder(a: World, b: World) {
    NotOlder(a.state, b.state) && NotOlder(a.status, b.status)
  }

  lemma ReachedIsGood(e: Env, x: World)
    requires Reached(e, x)
    ensures Good(e, x)
  {
    forall a: World | Initial(e, a) ensures Good(e, a) {
      InitialIsGood(e, a);
    }
    forall a: World, s: Step, b: World | Good(e, a) && Follows(e, a, s, b) ensures Good(e, b) {
      StepStaysGood(e, a, s, b);
    }
    ReachableKeeps((a: World) => Initial(e, a), (a: World, s: Step, b: World) => Follows(e, a, s, b),
                   (a: World) => Good(e, a), x);
  }

  /** In every interleaving of any number of workers: once the latest hosts publication succeeded,
      whenever no worker holds `io_lock` the live file parses to the addresses and names of all the
      in-memory peer groups at once, although it was written with the state lock released. */
  lemma HostsAgreeWhenIoIsFree(e: Env, x: World)
    requires Reached(e, x) && x.io.None? && x.hostsOk
    ensures Shows(x.hosts, PeerEntries(x.groups, e.stamp))
  {
    ReachedIsGood(e, x);
    assert forall w :: 0 <= w < |x.pcs| ==> !HoldsIo(x.pcs[w]);
  }

  /** Neither state.json nor the status file is ever replaced by an older snapshot. */
  lemma FilesNeverRegress(e: Env, x: World, moves: seq<Move<Step, World>>)
    requires Reached(e, x) && IsRun(e, x, moves)
    ensures NotOlder(x.state, Last(x, moves).state) && NotOlder(x.status, Last(x, moves).status)
  {
    ReachedIsGood(e, x);
    forall a: World, s: Step, b: World | Good(e, a) && Follows(e, a, s, b) ensures Good(e, b) && NoneOlder(a, b) {
      StepStaysGood(e, a, s, b);
    }
    Induct((a: World, s: Step, b: World) => Follows(e, a, s, b), (a: World) => Good(e, a), NoneOlder, x, moves);
  }

  /** Every worker is between ticks, and there has been one. */
  ghost predicate Quiet(x: World) {
    x.ticked && forall w :: 0 <= w < |x.pcs| ==> x.pcs[w].Idle?
  }

  /** Despite the throttle: with every worker between ticks and the latest write of state.json
      successful, the file agrees with memory on every winner, degraded flag and published address,
      and on every transport's state and address. */
  lemma QuietStateIsSaved(e: Env, x: World)
    requires Reached(e, x) && Quiet(x) && x.stateOk
    ensures x.state.file.Some? && Saved(x.state.file.value, x)
  {
    ReachedIsGood(e, x);
    assert Paid(x.pcs, OwesState) && NoneInFlight(x.pcs, StateSnap);
  }

  /** Likewise the status file was rendered from a state with every winner, degraded flag and transport
      state, and the outcomes of the latest publications, as they now are. */
  lemma QuietStatusIsCurrent(e: Env, x: World)
    requires Reached(e, x) && Quiet(x) && x.statusOk
    ensures x.status.file.Some? && Reflected(x.status.file.value, x)
  {
    ReachedIsGood(e, x);
    assert Paid(x.pcs, OwesStatus) && NoneInFlight(x.pcs, StatusSnap);
  }

  // -- the boot seed ---------------------------------------------------------------------

  lemma {:induction false} NoEntries(gs: seq<View>, stamp: int -> string)
    ensures PeerEntries(gs, stamp) == [] <==> NothingToPublish(gs)
  {
    if gs != [] {
      NoEntries(gs[1..], stamp);
      assert forall i :: 0 <= i < |gs[1..]| ==> gs[1..][i] == gs[i + 1];
      assert NothingToPublish(gs) <==> !Listed(gs[0]) && NothingToPublish(gs[1..]) by {
        assert forall i :: 0 < i < |gs| ==> gs[i] == gs[1..][i - 1];
      }
    }
  }

  /** An empty block goes out only from the decision that withdrew something: a tick that changes
      nothing never overwrites the seed with one. */
  lemma EmptyBlockIsAWithdrawal(e: Env, x: World, s: Step)
    requires Enabled(e, x, s) && s.DecideNow?
    requires Next(e, x, s).pcs[s.w].Publishing? && Next(e, x, s).pcs[s.w].entries == []
    ensures var g := e.jobs[s.w].0;
            var was, n := x.groups[g], Next(e, x, s).groups[g];
            n.cfg.kind == Peer && (n.winner != was.winner || n.published != was.published)
  {
    var g := e.jobs[s.w].0;
    WinnerInvariant(x.groups[g], s.now);
    PassiveExactly(x.groups[g], s.now);
    NoEntries(Next(e, x, s).groups, e.stamp);
  }

  // -- no deadlock -----------------------------------------------------------------------

  /** The step a worker would take next. */
  function NextOf(x: World, w: nat): Step
    requires w < |x.pcs|
  {
    match x.pcs[w]
    case Idle => Record(w, ProbeResult(false, ""), 0)
    case WantIo(_) => TakeIo(w)
    case HoldIo(_) => DecideNow(w, 0)
    case Publishing(_, _) => PublishHosts(w, "", None)
    case Routing(_) => PublishRoutes(w, None)
    case Settled(_) => ReleaseIo(w)
    case WantState(_) => TakeState(w, 0)
    case HoldState(_) => SnapState(w)
    case WritingState(_, _) => WriteState(w, 0, true)
    case WantStatus(_) => TakeStatus(w, 0)
    case HoldStatus(_) => SnapStatus(w)
    case WritingStatus(_, _) => WriteStatus(w, 0, true)
  }

  /** The worker waits for a lock somebody holds. */
  predicate Blocked(x: World, w: nat)
    requires w < |x.pcs|
  {
    || (x.pcs[w].WantIo? && x.io.Some?)
    || (x.pcs[w].WantState? && x.state.holder.Some?)
    || (x.pcs[w].WantStatus? && x.status.holder.Some?)
  }

  lemma UnblockedCanStep(e: Env, x: World, w: nat)
    requires Placed(e, x) && CleanViews(x.groups) && w < |x.pcs| && !Blocked(x, w)
    ensures Enabled(e, x, NextOf(x, w))
  {
    assert CleanView(x.groups[e.jobs[w].0]);
  }

  /** Locks are only ever requested while holding none, so a holder is never blocked. */
  lemma SomeoneIsUnblocked(x: World, w: nat) returns (v: nat)
    requires Locks(x) && w < |x.pcs| && !x.pcs[w].Idle?
    ensures v < |x.pcs| && !x.pcs[v].Idle? && !Blocked(x, v)
  {
    v := if x.pcs[w].WantIo? && x.io.Some? then x.io.value
         else if x.pcs[w].WantState? && x.state.holder.Some? then x.state.holder.value
         else if x.pcs[w].WantStatus? && x.status.holder.Some? then x.status.holder.value
         else w;
  }

  /** No deadlock: while some worker is in the middle of a tick, some such worker can step. */
  lemma SomeoneCanStep(e: Env, x: World, w: nat)
    requires Reached(e, x) && w < |x.pcs| && !x.pcs[w].Idle?
    ensures exists v: nat :: v < |x.pcs| && !x.pcs[v].Idle? && Enabled(e, x, NextOf(x, v))
  {
    ReachedIsGood(e, x);
    var v := SomeoneIsUnblocked(x, w);
    UnblockedCanStep(e, x, v);
  }
}
