/** Any number of transport workers over one engine, interleaved at every point where a lock is taken
    or released (src/engine/mod.rs: `probe_once`, `reconcile`, `write_status`;
    src/engine/state.rs: `save_state`). A section under the state lock is one step, since nothing
    blocks inside it; the hosts file and the two JSON files are written with it released. */
module Workers {
  import opened Wrappers
  import opened Text
  import opened Health
  import opened Groups
  import opened HostsBlock
  import opened HostsProofs
  import opened HostsPublisher

  const STATE_THROTTLE := 15 * SECOND
  const STATUS_THROTTLE := SECOND

  /** The in-memory state a JSON file was rendered from, and how many updates it had seen. */
  datatype Snapshot = Snapshot(version: nat, groups: seq<View>, hostsError: Option<string>, routeErrors: seq<Option<string>>)

  /** A JSON file behind its writer lock; `last` is when this run last wrote it. */
  datatype Writer = Writer(holder: Option<nat>, file: Option<Snapshot>, last: Option<int>)

  /** Whether the two writes at the end of a tick must not be throttled. */
  datatype Force = Force(state: bool, status: bool)

  datatype Pc =
    | Idle
    | WantIo(f: Force)
    | HoldIo(f: Force)
    | Publishing(f: Force, entries: seq<Entry>)
    | Routing(f: Force)
    | Settled(f: Force)
    | WantState(f: Force)
    | HoldState(f: Force)
    | WritingState(f: Force, snap: Snapshot)
    | WantStatus(f: Force)
    | HoldStatus(f: Force)
    | WritingStatus(f: Force, snap: Snapshot)

  /** Constants of a run: each worker's transport, the fallback regions of the hosts publisher, the
      address-literal check and the rendering of instants. */
  datatype Env = Env(jobs: seq<(nat, nat)>, prefix: string, suffix: string, isLiteral: string -> bool, stamp: int -> string)

  /** `hostsOk`: there was a hosts publication and the latest succeeded. `stateOk`, `statusOk`: the latest
      attempt to write that file, if any, succeeded. `ticked`: some worker completed a tick. */
  datatype World = World(groups: seq<View>, version: nat, io: Option<nat>, hosts: Option<string>,
                         hostsError: Option<string>, routeErrors: seq<Option<string>>,
                         state: Writer, status: Writer, pcs: seq<Pc>,
                         hostsOk: bool, stateOk: bool, statusOk: bool, ticked: bool)

  datatype Step =
    | Record(w: nat, raw: ProbeResult, at: int)
    | TakeIo(w: nat)
    | DecideNow(w: nat, now: int)
    | PublishHosts(w: nat, writtenAt: string, error: Option<string>)
    | PublishRoutes(w: nat, error: Option<string>)
    | ReleaseIo(w: nat)
    | TakeState(w: nat, now: int)
    | SnapState(w: nat)
    | WriteState(w: nat, now: int, ok: bool)
    | TakeStatus(w: nat, now: int)
    | SnapStatus(w: nat)
    | WriteStatus(w: nat, now: int, ok: bool)

  // -- what is published -----------------------------------------------------------------

  function Stamp(stamp: int -> string, at: int): string {
    stamp(at)
  }

  function EntryOf(v: View, stamp: int -> string): Entry {
    Entry(v.published, v.cfg.hostnames, if v.confirmed.Some? then Some(Stamp(stamp, v.confirmed.value)) else None)
  }

  predicate Listed(v: View) {
    v.cfg.kind == Peer && v.published != ""
  }

  /** `peer_entries`. */
  function PeerEntries(gs: seq<View>, stamp: int -> string): seq<Entry> {
    if gs == [] then []
    else (if Listed(gs[0]) then [EntryOf(gs[0], stamp)] else []) + PeerEntries(gs[1..], stamp)
  }

  /** `nothing_to_publish`. */
  predicate NothingToPublish(gs: seq<View>) {
    forall i :: 0 <= i < |gs| ==> !Listed(gs[i])
  }

  // -- the steps -------------------------------------------------------------------------

  predicate Enabled(e: Env, x: World, s: Step) {
    s.w < |x.pcs| && s.w < |e.jobs| && e.jobs[s.w].0 < |x.groups| &&
    var pc := x.pcs[s.w];
    var g := x.groups[e.jobs[s.w].0];
    match s
    case Record(_, _, _) => pc.Idle? && e.jobs[s.w].1 < |g.transports|
    case TakeIo(_) => pc.WantIo? && x.io.None?
    case DecideNow(_, _) => pc.HoldIo? && Valid(g)
    case PublishHosts(_, writtenAt, _) => pc.Publishing? && NoSpaces(writtenAt)
    case PublishRoutes(_, _) => pc.Routing? && e.jobs[s.w].0 < |x.routeErrors|
    case ReleaseIo(_) => pc.Settled?
    case TakeState(_, _) => pc.WantState? && x.state.holder.None?
    case SnapState(_) => pc.HoldState?
    case WriteState(_, _, _) => pc.WritingState?
    case TakeStatus(_, _) => pc.WantStatus? && x.status.holder.None?
    case SnapStatus(_) => pc.HoldStatus?
    case WriteStatus(_, _, _) => pc.WritingStatus?
  }

  predicate Throttled(w: Writer, force: bool, now: int, window: int) {
    !force && w.last.Some? && now - w.last.value < window
  }

  function Landed(w: Writer, snap: Snapshot, now: int, ok: bool): Writer {
    if ok then Writer(None, Some(snap), Some(now)) else w.(holder := None)
  }

  function RecordStep(e: Env, x: World, s: Step): (World, Pc)
    requires Enabled(e, x, s) && s.Record?
  {
    var (g, i) := e.jobs[s.w];
    var was := x.groups[g].transports[i];
    var t := Recorded(was, Sanitized(s.raw, e.isLiteral), s.at);
    var moved, readdressed := t.state != was.state, t.address != was.address;
    (x.(groups := x.groups[g := x.groups[g].(transports := x.groups[g].transports[i := t])], version := x.version + 1),
     WantIo(Force(moved || readdressed, moved)))
  }

  predicate Changed(a: View, b: View) {
    a.winner != b.winner || a.degraded != b.degraded || a.published != b.published
  }

  /** A changed outcome of the publication is itself worth reporting. */
  function Reported(f: Force, was: Option<string>, error: Option<string>): Force {
    if was != error then Force(true, true) else f
  }

  function DecideStep(e: Env, x: World, s: Step): (World, Pc)
    requires Enabled(e, x, s) && s.DecideNow?
  {
    var g := e.jobs[s.w].0;
    var (n, action) := Decide(x.groups[g], s.now);
    var groups := x.groups[g := n];
    var f := x.pcs[s.w].f;
    var force := if Changed(x.groups[g], n) then Force(true, true) else f;
    var publish := action.PublishPeers? && !(action.passive && NothingToPublish(groups));
    (x.(groups := groups, version := x.version + 1),
     if publish then Publishing(force, PeerEntries(groups, e.stamp))
     else if action.PublishUplink? then Routing(force)
     else Settled(force))
  }

  function PublishStep(e: Env, x: World, s: Step): (World, Pc)
    requires Enabled(e, x, s) && s.PublishHosts?
  {
    var pc := x.pcs[s.w];
    var want := Wanted(x.hosts, e.prefix, e.suffix, pc.entries, s.writtenAt);
    var same := x.hosts.Some? && SameButForFreshness(x.hosts.value, want);
    (x.(hosts := if s.error.None? && !same then Some(want) else x.hosts, hostsError := s.error, hostsOk := s.error.None?,
        version := x.version + 1),
     Settled(Reported(pc.f, x.hostsError, s.error)))
  }

  function SnapshotOf(x: World): Snapshot {
    Snapshot(x.version, x.groups, x.hostsError, x.routeErrors)
  }

  /** What the worker does to the shared state, and where it goes. */
  function Effect(e: Env, x: World, s: Step): (World, Pc)
    requires Enabled(e, x, s)
  {
    var pc := x.pcs[s.w];
    match s
    case Record(_, _, _) => RecordStep(e, x, s)
    case TakeIo(w) => (x.(io := Some(w)), HoldIo(pc.f))
    case DecideNow(_, _) => DecideStep(e, x, s)
    case PublishHosts(_, _, _) => PublishStep(e, x, s)
    case PublishRoutes(w, error) =>
      var g := e.jobs[w].0;
      (x.(routeErrors := x.routeErrors[g := error], version := x.version + 1), Settled(Reported(pc.f, x.routeErrors[g], error)))
    case ReleaseIo(w) => (x.(io := None), WantState(pc.f))
    case TakeState(w, now) =>
      if Throttled(x.state, pc.f.state, now, STATE_THROTTLE) then (x, WantStatus(pc.f))
      else (x.(state := x.state.(holder := Some(w))), HoldState(pc.f))
    case SnapState(w) => (x, WritingState(pc.f, SnapshotOf(x)))
    case WriteState(w, now, ok) =>
      (x.(state := Landed(x.state, pc.snap, now, ok), stateOk := ok), WantStatus(pc.f))
    case TakeStatus(w, now) =>
      if Throttled(x.status, pc.f.status, now, STATUS_THROTTLE) then (x.(ticked := true), Idle)
      else (x.(status := x.status.(holder := Some(w))), HoldStatus(pc.f))
    case SnapStatus(w) => (x, WritingStatus(pc.f, SnapshotOf(x)))
    case WriteStatus(w, now, ok) =>
      (x.(status := Landed(x.status, pc.snap, now, ok), statusOk := ok, ticked := true), Idle)
  }

  function Next(e: Env, x: World, s: Step): World
    requires Enabled(e, x, s)
  {
    var (n, pc) := Effect(e, x, s);
    n.(pcs := x.pcs[s.w := pc])
  }

  // -- lock discipline -------------------------------------------------------------------

  predicate HoldsIo(pc: Pc) {
    pc.HoldIo? || pc.Publishing? || pc.Routing? || pc.Settled?
  }

  predicate HoldsState(pc: Pc) {
    pc.HoldState? || pc.WritingState?
  }

  predicate HoldsStatus(pc: Pc) {
    pc.HoldStatus? || pc.WritingStatus?
  }

  /** The lock is held by exactly the worker that `holds`, if any. */
  ghost predicate Guarded(lock: Option<nat>, pcs: seq<Pc>, holds: Pc -> bool) {
    && (lock.Some? ==> lock.value < |pcs|)
    && forall w :: 0 <= w < |pcs| ==> (holds(pcs[w]) <==> lock == Some(w))
  }

  ghost predicate Locks(x: World) {
    && Guarded(x.io, x.pcs, HoldsIo)
    && Guarded(x.state.holder, x.pcs, HoldsState)
    && Guarded(x.status.holder, x.pcs, HoldsStatus)
  }

  /** Nothing, an acquisition of a free lock or a release by its holder. */
  predicate LockStep(lock: Option<nat>, lock': Option<nat>, w: nat, held: bool, held': bool) {
    || (lock' == lock && held == held')
    || (lock == None && lock' == Some(w) && held')
    || (lock' == None && held && !held')
  }

  lemma StepKeepsGuard(lock: Option<nat>, lock': Option<nat>, pcs: seq<Pc>, w: nat, pc: Pc, holds: Pc -> bool)
    requires Guarded(lock, pcs, holds) && w < |pcs| && LockStep(lock, lock', w, holds(pcs[w]), holds(pc))
    ensures Guarded(lock', pcs[w := pc], holds)
  {
  }

  /** Only the stepping worker's control point moves. */
  lemma OneMoves(e: Env, x: World, s: Step)
    requires Enabled(e, x, s)
    ensures |Next(e, x, s).pcs| == |x.pcs| && Next(e, x, s).pcs == x.pcs[s.w := Next(e, x, s).pcs[s.w]]
  {
  }

  lemma LocksMove(e: Env, x: World, s: Step)
    requires Enabled(e, x, s)
    ensures var n := Next(e, x, s);
            var was, pc := x.pcs[s.w], n.pcs[s.w];
            && LockStep(x.io, n.io, s.w, HoldsIo(was), HoldsIo(pc))
            && LockStep(x.state.holder, n.state.holder, s.w, HoldsState(was), HoldsState(pc))
            && LockStep(x.status.holder, n.status.holder, s.w, HoldsStatus(was), HoldsStatus(pc))
  {
  }

  lemma LocksAfter(x: World, n: World, w: nat)
    requires Locks(x) && w < |x.pcs| == |n.pcs| && n.pcs == x.pcs[w := n.pcs[w]]
    requires LockStep(x.io, n.io, w, HoldsIo(x.pcs[w]), HoldsIo(n.pcs[w]))
    requires LockStep(x.state.holder, n.state.holder, w, HoldsState(x.pcs[w]), HoldsState(n.pcs[w]))
    requires LockStep(x.status.holder, n.status.holder, w, HoldsStatus(x.pcs[w]), HoldsStatus(n.pcs[w]))
    ensures Locks(n)
  {
    StepKeepsGuard(x.io, n.io, x.pcs, w, n.pcs[w], HoldsIo);
    StepKeepsGuard(x.state.holder, n.state.holder, x.pcs, w, n.pcs[w], HoldsState);
    StepKeepsGuard(x.status.holder, n.status.holder, x.pcs, w, n.pcs[w], HoldsStatus);
  }

  lemma LocksHold(e: Env, x: World, s: Step)
    requires Locks(x) && Enabled(e, x, s)
    ensures Locks(Next(e, x, s))
  {
    OneMoves(e, x, s);
    LocksMove(e, x, s);
    LocksAfter(x, Next(e, x, s), s.w);
  }

  // -- versions never regress ------------------------------------------------------------

  /** No file, and no snapshot on its way into one, is ahead of memory or behind its file. */
  ghost predicate Ordered(x: World) {
    && Locks(x)
    && FileOrdered(x.state, x.pcs, x.version, StateSnap)
    && FileOrdered(x.status, x.pcs, x.version, StatusSnap)
  }

  function StateSnap(pc: Pc): Option<Snapshot> {
    if pc.WritingState? then Some(pc.snap) else None
  }

  function StatusSnap(pc: Pc): Option<Snapshot> {
    if pc.WritingStatus? then Some(pc.snap) else None
  }

  ghost predicate FileOrdered(f: Writer, pcs: seq<Pc>, version: nat, snap: Pc -> Option<Snapshot>) {
    && (f.file.Some? ==> f.file.value.version <= version)
    && forall w :: 0 <= w < |pcs| ==> Between(f.file, snap(pcs[w]), version)
  }

  predicate Between(file: Option<Snapshot>, snap: Option<Snapshot>, version: nat) {
    snap.Some? ==> snap.value.version <= version && (file.Some? ==> file.value.version <= snap.value.version)
  }

  predicate NotOlder(a: Writer, b: Writer) {
    a.file.Some? ==> b.file.Some? && a.file.value.version <= b.file.value.version
  }

  /** The file and the snapshots on their way to it stay in order when the file is unchanged, or when
      the only snapshot there is lands. */
  lemma FileStep(f: Writer, f': Writer, pcs: seq<Pc>, w: nat, pc: Pc, v: nat, v': nat, snap: Pc -> Option<Snapshot>)
    requires w < |pcs| && FileOrdered(f, pcs, v, snap) && v <= v' && Between(f.file, snap(pc), v')
    requires f'.file == f.file
             || (f'.file.Some? && f'.file == snap(pcs[w]) && snap(pc).None?
                 && forall u :: 0 <= u < |pcs| && u != w ==> snap(pcs[u]).None?)
    ensures FileOrdered(f', pcs[w := pc], v', snap) && NotOlder(f, f')
  {
    var moved := pcs[w := pc];
    forall u | 0 <= u < |moved| ensures Between(f'.file, snap(moved[u]), v') {
      assert Between(f.file, snap(pcs[u]), v);
    }
    assert Between(f.file, snap(pcs[w]), v);
  }

  lemma SoleWriter(x: World, w: nat)
    requires Locks(x) && w < |x.pcs|
    ensures x.pcs[w].WritingState? ==> forall u :: 0 <= u < |x.pcs| && u != w ==> StateSnap(x.pcs[u]).None?
    ensures x.pcs[w].WritingStatus? ==> forall u :: 0 <= u < |x.pcs| && u != w ==> StatusSnap(x.pcs[u]).None?
  {
  }

  /** Either the file stays and any snapshot taken is of memory as it is, or the worker's own lands. */
  predicate FileMoves(f: Writer, f': Writer, version: nat, was: Option<Snapshot>, snap: Option<Snapshot>) {
    || (f'.file == f.file && (snap == was || snap.None? || snap.value.version == version))
    || (was.Some? && f'.file == was && snap.None?)
  }

  lemma VersionMoves(e: Env, x: World, s: Step)
    requires Enabled(e, x, s)
    ensures x.version <= Next(e, x, s).version
  {
  }

  lemma StateMoves(e: Env, x: World, s: Step)
    requires Enabled(e, x, s)
    ensures FileMoves(x.state, Next(e, x, s).state, x.version, StateSnap(x.pcs[s.w]), StateSnap(Next(e, x, s).pcs[s.w]))
  {
  }

  lemma StatusMoves(e: Env, x: World, s: Step)
    requires Enabled(e, x, s)
    ensures FileMoves(x.status, Next(e, x, s).status, x.version, StatusSnap(x.pcs[s.w]), StatusSnap(Next(e, x, s).pcs[s.w]))
  {
  }

  lemma OrderedAfter(x: World, n: World, w: nat)
    requires Ordered(x) && Locks(n) && w < |x.pcs| == |n.pcs| && n.pcs == x.pcs[w := n.pcs[w]] && x.version <= n.version
    requires FileMoves(x.state, n.state, x.version, StateSnap(x.pcs[w]), StateSnap(n.pcs[w]))
    requires FileMoves(x.status, n.status, x.version, StatusSnap(x.pcs[w]), StatusSnap(n.pcs[w]))
    ensures Ordered(n) && NotOlder(x.state, n.state) && NotOlder(x.status, n.status)
  {
    SoleWriter(x, w);
    assert Between(x.state.file, StateSnap(x.pcs[w]), x.version);
    assert Between(x.status.file, StatusSnap(x.pcs[w]), x.version);
    FileStep(x.state, n.state, x.pcs, w, n.pcs[w], x.version, n.version, StateSnap);
    FileStep(x.status, n.status, x.pcs, w, n.pcs[w], x.version, n.version, StatusSnap);
  }

  lemma StepNeverRegresses(e: Env, x: World, s: Step)
    requires Ordered(x) && Enabled(e, x, s)
    ensures Ordered(Next(e, x, s))
    ensures NotOlder(x.state, Next(e, x, s).state) && NotOlder(x.status, Next(e, x, s).status)
  {
    LocksHold(e, x, s);
    OneMoves(e, x, s);
    VersionMoves(e, x, s);
    StateMoves(e, x, s);
    StatusMoves(e, x, s);
    OrderedAfter(x, Next(e, x, s), s.w);
  }

  // -- the files catch up ----------------------------------------------------------------

  /** What state.json must agree with memory on, throttle or not: the selected transport and since when,
      the degraded flag, the published address and each transport's state and address. */
  ghost predicate SameView(a: View, b: View) {
    && a.winner == b.winner && a.winnerSince == b.winnerSince && a.degraded == b.degraded && a.published == b.published
    && |a.transports| == |b.transports|
    && forall i :: 0 <= i < |a.transports| ==>
         a.transports[i].spec == b.transports[i].spec
         && a.transports[i].state == b.transports[i].state && a.transports[i].address == b.transports[i].address
  }

  ghost predicate Saved(snap: Snapshot, x: World) {
    |snap.groups| == |x.groups| && forall i :: 0 <= i < |x.groups| ==> SameView(snap.groups[i], x.groups[i])
  }

  /** What the state behind the status file must agree with memory on: the same short of the transports'
      addresses, which that file does not show, and the outcomes of the latest publications. */
  ghost predicate SameStanding(a: View, b: View) {
    && a.winner == b.winner && a.winnerSince == b.winnerSince && a.degraded == b.degraded && a.published == b.published
    && |a.transports| == |b.transports|
    && forall i :: 0 <= i < |a.transports| ==>
         a.transports[i].spec == b.transports[i].spec && a.transports[i].state == b.transports[i].state
  }

  ghost predicate Reflected(snap: Snapshot, x: World) {
    && |snap.groups| == |x.groups| && (forall i :: 0 <= i < |x.groups| ==> SameStanding(snap.groups[i], x.groups[i]))
    && snap.hostsError == x.hostsError && snap.routeErrors == x.routeErrors
  }

  /** The worker has yet to take a snapshot for state.json that it cannot be throttled out of. */
  predicate OwesState(pc: Pc) {
    match pc
    case WantIo(f) => f.state
    case HoldIo(f) => f.state
    case Publishing(f, _) => f.state
    case Routing(f) => f.state
    case Settled(f) => f.state
    case WantState(f) => f.state
    case HoldState(_) => true
    case _ => false
  }

  /** Likewise for the status file. */
  predicate OwesStatus(pc: Pc) {
    match pc
    case Idle => false
    case HoldStatus(_) => true
    case WritingStatus(_, _) => false
    case _ => pc.f.status
  }

  ghost predicate Paid(pcs: seq<Pc>, owes: Pc -> bool) {
    forall w :: 0 <= w < |pcs| ==> !owes(pcs[w])
  }

  ghost predicate NoneInFlight(pcs: seq<Pc>, snap: Pc -> Option<Snapshot>) {
    forall w :: 0 <= w < |pcs| ==> snap(pcs[w]).None?
  }

  ghost predicate InFlightAgree(pcs: seq<Pc>, snap: Pc -> Option<Snapshot>, agrees: Snapshot -> bool) {
    forall w :: 0 <= w < |pcs| && snap(pcs[w]).Some? ==> agrees(snap(pcs[w]).value)
  }

  /** Unless some worker owes a snapshot, the snapshots in flight agree with memory, and so does the file
      when there are none and its latest write succeeded. */
  ghost predicate Caught(f: Writer, ok: bool, pcs: seq<Pc>, owes: Pc -> bool, snap: Pc -> Option<Snapshot>,
                         agrees: Snapshot -> bool) {
    && (f.last.Some? ==> f.file.Some?)
    && (Paid(pcs, owes) ==>
          InFlightAgree(pcs, snap, agrees) && (ok && f.last.Some? && NoneInFlight(pcs, snap) ==> agrees(f.file.value)))
  }

  /** What one step does to a file and its worker: leaves the file, owing for any change of memory that is
      not `calm`; or takes a snapshot of memory as it is; or lands its snapshot, or fails to. */
  ghost predicate ChannelStep(f: Writer, f': Writer, ok: bool, ok': bool, was: Pc, pc: Pc, owes: Pc -> bool,
                              snap: Pc -> Option<Snapshot>, calm: bool, memory: Snapshot) {
    var kept := f'.file == f.file && f'.last == f.last;
    || (kept && ok' == ok && snap(was).None? && snap(pc).None? && (owes(was) ==> owes(pc)) && (owes(pc) || calm))
    || (kept && ok' == ok && snap(was).None? && snap(pc) == Some(memory) && calm)
    || (snap(was).Some? && snap(pc).None? && !owes(was) && calm
        && if ok' then f'.file == snap(was) && f'.last.Some? else kept)
  }

  lemma CaughtStep(f: Writer, f': Writer, ok: bool, ok': bool, pcs: seq<Pc>, w: nat, pc: Pc, owes: Pc -> bool,
                   snap: Pc -> Option<Snapshot>, calm: bool, memory: Snapshot,
                   agrees: Snapshot -> bool, agrees': Snapshot -> bool)
    requires w < |pcs| && Caught(f, ok, pcs, owes, snap, agrees)
    requires ChannelStep(f, f', ok, ok', pcs[w], pc, owes, snap, calm, memory)
    requires agrees(memory) && (calm ==> forall s: Snapshot :: agrees(s) ==> agrees'(s))
    requires snap(pcs[w]).Some? || snap(pc).Some? ==> forall u :: 0 <= u < |pcs| && u != w ==> snap(pcs[u]).None?
    ensures Caught(f', ok', pcs[w := pc], owes, snap, agrees')
  {
    var n := pcs[w := pc];
    assert n[w] == pc && forall u :: 0 <= u < |pcs| && u != w ==> n[u] == pcs[u];
    if Paid(n, owes) {
      forall u | 0 <= u < |pcs| && u != w ensures !owes(pcs[u]) {
        assert !owes(n[u]);
      }
      assert !owes(n[w]);
      if snap(pc).None? {
        assert Paid(pcs, owes);
        assert snap(pcs[w]).None? && NoneInFlight(n, snap) ==> NoneInFlight(pcs, snap) by {
          if snap(pcs[w]).None? && NoneInFlight(n, snap) {
            forall u | 0 <= u < |pcs| ensures snap(pcs[u]).None? {
              assert snap(n[u]).None?;
            }
          }
        }
      }
    }
  }

  /** Once a worker is past a file, or some tick is over, the file has been written, unless that failed. */
  ghost predicate Written(x: World) {
    && (x.ticked && x.stateOk ==> x.state.last.Some?)
    && (x.stateOk ==> forall w :: 0 <= w < |x.pcs| && (x.pcs[w].WantStatus? || HoldsStatus(x.pcs[w])) ==> x.state.last.Some?)
    && (x.ticked && x.statusOk ==> x.status.last.Some?)
  }

  ghost predicate CatchingUp(x: World) {
    && Locks(x) && Written(x)
    && Caught(x.state, x.stateOk, x.pcs, OwesState, StateSnap, (s: Snapshot) => Saved(s, x))
    && Caught(x.status, x.statusOk, x.pcs, OwesStatus, StatusSnap, (s: Snapshot) => Reflected(s, x))
  }

  /** Whatever agreed with memory before still does. */
  ghost predicate StateKept(x: World, n: World) {
    forall t: Snapshot :: Saved(t, x) ==> Saved(t, n)
  }

  ghost predicate StatusKept(x: World, n: World) {
    forall t: Snapshot :: Reflected(t, x) ==> Reflected(t, n)
  }

  lemma RecordOwes(e: Env, x: World, s: Step)
    requires Enabled(e, x, s) && s.Record?
    ensures var n := Next(e, x, s);
            && (OwesState(n.pcs[s.w]) || StateKept(x, n)) && (OwesStatus(n.pcs[s.w]) || StatusKept(x, n))
  {
    var n := Next(e, x, s);
    var g := e.jobs[s.w].0;
    if !OwesState(n.pcs[s.w]) {
      assert SameView(x.groups[g], n.groups[g]);
    }
    if !OwesStatus(n.pcs[s.w]) {
      assert SameStanding(x.groups[g], n.groups[g]);
    }
  }

  lemma DecisionOwes(e: Env, x: World, s: Step)
    requires Enabled(e, x, s) && s.DecideNow?
    ensures var n := Next(e, x, s);
            && (OwesState(n.pcs[s.w]) || StateKept(x, n)) && (OwesStatus(n.pcs[s.w]) || StatusKept(x, n))
  {
    var n := Next(e, x, s);
    var g := e.jobs[s.w].0;
    WinnerInvariant(x.groups[g], s.now);
    if !OwesState(n.pcs[s.w]) {
      assert SameView(x.groups[g], n.groups[g]);
    }
    if !OwesStatus(n.pcs[s.w]) {
      assert SameStanding(x.groups[g], n.groups[g]);
    }
  }

  /** A step that changed what a file must show leaves its worker owing it. */
  lemma UpdateOwes(e: Env, x: World, s: Step)
    requires Enabled(e, x, s) && (s.Record? || s.DecideNow?)
    ensures var n := Next(e, x, s);
            && (OwesState(n.pcs[s.w]) || StateKept(x, n)) && (OwesStatus(n.pcs[s.w]) || StatusKept(x, n))
  {
    if s.Record? {
      RecordOwes(e, x, s);
    } else {
      DecisionOwes(e, x, s);
    }
  }

  lemma UpdateWaits(e: Env, x: World, s: Step)
    requires Enabled(e, x, s) && (s.Record? || s.DecideNow?)
    ensures var n := Next(e, x, s);
            var was, pc := x.pcs[s.w], n.pcs[s.w];
            && n.state == x.state && n.stateOk == x.stateOk && n.status == x.status && n.statusOk == x.statusOk
            && (OwesState(was) ==> OwesState(pc)) && (OwesStatus(was) ==> OwesStatus(pc))
            && StateSnap(was).None? && StateSnap(pc).None? && StatusSnap(was).None? && StatusSnap(pc).None?
  {
  }

  /** A publication whose outcome changed leaves its worker owing the status file. */
  lemma ReportOwes(e: Env, x: World, s: Step)
    requires Enabled(e, x, s) && (s.PublishHosts? || s.PublishRoutes?)
    ensures var n := Next(e, x, s);
            ChannelStep(x.status, n.status, x.statusOk, n.statusOk, x.pcs[s.w], n.pcs[s.w], OwesStatus, StatusSnap,
                        n.groups == x.groups && n.hostsError == x.hostsError && n.routeErrors == x.routeErrors, SnapshotOf(x))
  {
  }

  lemma GroupsStay(e: Env, x: World, s: Step)
    requires Enabled(e, x, s) && !s.Record? && !s.DecideNow?
    ensures Next(e, x, s).groups == x.groups
  {
  }

  lemma OutcomesStay(e: Env, x: World, s: Step)
    requires Enabled(e, x, s) && !s.PublishHosts? && !s.PublishRoutes?
    ensures Next(e, x, s).hostsError == x.hostsError && Next(e, x, s).routeErrors == x.routeErrors
  {
  }

  lemma StateShape(e: Env, x: World, s: Step)
    requires Enabled(e, x, s) && !s.Record? && !s.DecideNow?
    ensures var n := Next(e, x, s);
            ChannelStep(x.state, n.state, x.stateOk, n.stateOk, x.pcs[s.w], n.pcs[s.w], OwesState, StateSnap,
                        true, SnapshotOf(x))
  {
  }

  lemma StatusShape(e: Env, x: World, s: Step)
    requires Enabled(e, x, s) && !s.Record? && !s.DecideNow? && !s.PublishHosts? && !s.PublishRoutes?
    ensures var n := Next(e, x, s);
            ChannelStep(x.status, n.status, x.statusOk, n.statusOk, x.pcs[s.w], n.pcs[s.w], OwesStatus, StatusSnap,
                        true, SnapshotOf(x))
  {
  }

  /** The step moves both files along. */
  ghost predicate Along(x: World, n: World, w: nat)
    requires w < |x.pcs| == |n.pcs|
  {
    && ChannelStep(x.state, n.state, x.stateOk, n.stateOk, x.pcs[w], n.pcs[w], OwesState, StateSnap,
                   StateKept(x, n), SnapshotOf(x))
    && ChannelStep(x.status, n.status, x.statusOk, n.statusOk, x.pcs[w], n.pcs[w], OwesStatus, StatusSnap,
                   StatusKept(x, n), SnapshotOf(x))
  }

  lemma StepMovesAlong(e: Env, x: World, s: Step)
    requires Enabled(e, x, s)
    ensures |Next(e, x, s).pcs| == |x.pcs| && Along(x, Next(e, x, s), s.w)
  {
    OneMoves(e, x, s);
    if s.Record? || s.DecideNow? {
      UpdateOwes(e, x, s);
      UpdateWaits(e, x, s);
    } else {
      GroupsStay(e, x, s);
      StateShape(e, x, s);
      if s.PublishHosts? || s.PublishRoutes? {
        ReportOwes(e, x, s);
      } else {
        OutcomesStay(e, x, s);
        StatusShape(e, x, s);
      }
    }
  }

  lemma StaysWritten(e: Env, x: World, s: Step)
    requires Written(x) && Enabled(e, x, s)
    ensures Written(Next(e, x, s))
  {
  }

  lemma StepCatchesUp(e: Env, x: World, s: Step)
    requires CatchingUp(x) && Enabled(e, x, s)
    ensures CatchingUp(Next(e, x, s))
  {
    var n := Next(e, x, s);
    LocksHold(e, x, s);
    OneMoves(e, x, s);
    StaysWritten(e, x, s);
    StepMovesAlong(e, x, s);
    BothCaught(x, n, s.w);
  }

  lemma BothCaught(x: World, n: World, w: nat)
    requires CatchingUp(x) && Locks(n) && Written(n) && w < |x.pcs| == |n.pcs| && n.pcs == x.pcs[w := n.pcs[w]] && Along(x, n, w)
    ensures CatchingUp(n)
  {
    SoleWriter(x, w);
    SoleWriter(n, w);
    CaughtStep(x.state, n.state, x.stateOk, n.stateOk, x.pcs, w, n.pcs[w], OwesState, StateSnap,
               StateKept(x, n), SnapshotOf(x), (t: Snapshot) => Saved(t, x), (t: Snapshot) => Saved(t, n));
    CaughtStep(x.status, n.status, x.statusOk, n.statusOk, x.pcs, w, n.pcs[w], OwesStatus, StatusSnap,
               StatusKept(x, n), SnapshotOf(x), (t: Snapshot) => Reflected(t, x), (t: Snapshot) => Reflected(t, n));
  }
}
