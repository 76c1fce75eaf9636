/** The packet filter's apply, reconcile, revert, confirm and teardown scripts
    (modules/firewall.nix). Every command of a script is one step; between two of them the script may
    be killed, the host may reboot, the countdown may expire and foreign actors may change the table.
    A file replacement (temporary file, sync, rename) and an `nft -f` transaction are atomic. */
module Firewall {
  import opened Wrappers

  /** The name of a generation: only equality of its hash matters. */
  type Hash = nat

  /** The kernel table, reduced to its presence and the generation marker it carries. */
  datatype Table = Absent | Present(marker: Option<Hash>)

  datatype Kind = Apply | Reconcile | Revert | Confirm | Teardown

  /** How a script ends: its message and exit status. */
  datatype Outcome = Failed | Refused | AlreadyInForce | Loaded | NothingPending | Restored | Confirmed | TornDown

  // The commands of each part of the scripts, in order. `loaded`: a ruleset was loaded just before.
  datatype CheckPc = IsStale | CancelStale | DropStale | DropStaleHash | IsReverted | IsInForce
  datatype SnapshotPc = CancelOld | LookAtTable | ListTable | MoveSnapshot(snap: Table) | WriteHash | DropPending | DropHash
  datatype EnforcePc =
    Load | VerifyLoad | WriteApplied(loaded: bool) | ClearReverted(loaded: bool) | Arm | Ensure(loaded: bool) | CountRepair
  datatype RevertPc = IsPending | WriteReverted | Restore | VerifyRestore | Retract | ForgetPending | ForgetHash | ForgetApplied
  datatype ConfirmPc = StopTimer | ConfirmPending | ConfirmHash | ConfirmReverted
  datatype TeardownPc = CancelAll | DeleteTable | VerifyDeleted | ClearApplied | ClearPending | ClearHash | ClearLast

  /** The command a script runs next. */
  datatype Pc =
    | Checking(c: CheckPc)
    | Snapshotting(p: SnapshotPc)
    | Enforcing(e: EnforcePc)
    | Reverting(r: RevertPc)
    | Confirming(f: ConfirmPc)
    | TearingDown(d: TeardownPc)
    | Done(end: Outcome)

  /** The script that holds the lock. */
  datatype Script = Script(kind: Kind, hash: Hash, pc: Pc)

  /** Kernel table, state files and countdown. `service`: the revert service is active, either running
      or waiting for the lock. `loaded`: every generation that a script's transaction, a restore included,
      has put in the table, a history variable. */
  datatype Host = Host(table: Table, pending: Option<Table>, pendingHash: Option<Hash>, applied: Option<Hash>,
                       reverted: Option<Hash>, repairs: nat, timer: bool, service: bool, loaded: seq<Hash>)

  datatype World = World(host: Host, running: Option<Script>)

  datatype Step =
    | Start(kind: Kind, hash: Hash)
    | Advance(ok: bool)
    | Exit
    | Crash
    | Reboot
    | TimerFires
    | Foreign(table: Table)

  predicate InForce(x: Host, h: Hash) {
    x.table == Present(Some(h))
  }

  /** A snapshot is pending that belongs to generation `h`. */
  predicate Matching(x: Host, h: Hash) {
    x.pending.Some? && x.pendingHash == Some(h)
  }

  predicate Stale(x: Host, h: Hash) {
    (x.pending.Some? || x.pendingHash.Some?) && !Matching(x, h)
  }

  function Entry(k: Kind): Pc {
    match k
    case Apply => Checking(IsStale)
    case Reconcile => Checking(IsStale)
    case Revert => Reverting(IsPending)
    case Confirm => Confirming(StopTimer)
    case Teardown => TearingDown(CancelAll)
  }

  // -- the commands ----------------------------------------------------------------------

  /** `systemctl stop` of the timer and the service. */
  function Cancelled(x: Host): Host {
    x.(timer := false, service := false)
  }

  /** `nixnet_clean_stale_revert`, then the two guards of apply and reconcile. */
  function CheckCommand(x: Host, k: Kind, h: Hash, c: CheckPc): (Host, Pc) {
    match c
    case IsStale => (x, Checking(if Stale(x, h) then CancelStale else IsReverted))
    case CancelStale => (Cancelled(x), Checking(DropStale))
    case DropStale => (x.(pending := None), Checking(DropStaleHash))
    case DropStaleHash => (x.(pendingHash := None), Checking(IsReverted))
    case IsReverted => (x, if x.reverted == Some(h) then Done(Refused) else Checking(IsInForce))
    case IsInForce =>
      (x, if InForce(x, h) then Enforcing(WriteApplied(false))
          else if k == Apply then Snapshotting(CancelOld) else Enforcing(Load))
  }

  /** Apply cancels the old countdown and keeps a snapshot of the table it replaces. */
  function SnapshotCommand(x: Host, h: Hash, p: SnapshotPc): (Host, Pc) {
    match p
    case CancelOld => (Cancelled(x), Snapshotting(LookAtTable))
    case LookAtTable => (x, Snapshotting(if x.table.Present? then ListTable else DropPending))
    case ListTable => (x, if x.table.Present? then Snapshotting(MoveSnapshot(x.table)) else Done(Failed))
    case MoveSnapshot(snap) => (x.(pending := Some(snap)), Snapshotting(WriteHash))
    case WriteHash => (x.(pendingHash := Some(h)), Enforcing(Load))
    case DropPending => (x.(pending := None), Snapshotting(DropHash))
    case DropHash => (x.(pendingHash := None), Enforcing(Load))
  }

  /** Loading the ruleset, and what follows a load or a table found in force. */
  function EnforceCommand(x: Host, k: Kind, h: Hash, e: EnforcePc, ok: bool): (Host, Pc) {
    match e
    case Load =>
      if ok then (x.(table := Present(Some(h)), loaded := x.loaded + [h]), Enforcing(VerifyLoad)) else (x, Done(Failed))
    case VerifyLoad => (x, if InForce(x, h) then Enforcing(WriteApplied(true)) else Done(Failed))
    case WriteApplied(loaded) => (x.(applied := Some(h)), Enforcing(ClearReverted(loaded)))
    case ClearReverted(loaded) => (x.(reverted := None), Enforcing(if loaded && k == Apply then Arm else Ensure(loaded)))
    case Arm => (x.(timer := x.timer || Matching(x, h)), Done(Loaded))
    case Ensure(loaded) =>
      (x.(timer := x.timer || (Matching(x, h) && !x.service)), if loaded then Enforcing(CountRepair) else Done(AlreadyInForce))
    case CountRepair => (x.(repairs := x.repairs + 1), Done(Loaded))
  }

  /** The generation a table carries, if any. */
  function MarkersOf(t: Table): seq<Hash> {
    if t.Present? && t.marker.Some? then [t.marker.value] else []
  }

  /** The intent to stand down is written before the restore, and withdrawn when that fails. */
  function RevertCommand(x: Host, h: Hash, r: RevertPc, ok: bool): (Host, Pc) {
    match r
    case IsPending =>
      (x, if x.pending.None? || x.pendingHash.None? then Done(NothingPending)
          else if x.pendingHash != Some(h) then Done(Refused)
          else Reverting(WriteReverted))
    case WriteReverted => (x.(reverted := Some(h)), Reverting(Restore))
    case Restore =>
      if ok && x.pending.Some? then
        (x.(table := x.pending.value, loaded := x.loaded + MarkersOf(x.pending.value)), Reverting(VerifyRestore))
      else (x, Reverting(Retract))
    case VerifyRestore => (x, Reverting(if InForce(x, h) then Retract else ForgetPending))
    case Retract => (x.(reverted := None), Done(Failed))
    case ForgetPending => (x.(pending := None), Reverting(ForgetHash))
    case ForgetHash => (x.(pendingHash := None), Reverting(ForgetApplied))
    case ForgetApplied => (x.(applied := None), Done(Restored))
  }

  function ConfirmCommand(x: Host, f: ConfirmPc): (Host, Pc) {
    match f
    case StopTimer => (Cancelled(x), Confirming(ConfirmPending))
    case ConfirmPending => (x.(pending := None), Confirming(ConfirmHash))
    case ConfirmHash => (x.(pendingHash := None), Confirming(ConfirmReverted))
    case ConfirmReverted => (x.(reverted := None), Done(Confirmed))
  }

  function TeardownCommand(x: Host, d: TeardownPc, ok: bool): (Host, Pc) {
    match d
    case CancelAll => (Cancelled(x), TearingDown(DeleteTable))
    case DeleteTable => if ok then (x.(table := Absent), TearingDown(VerifyDeleted)) else (x, Done(Failed))
    case VerifyDeleted => (x, if x.table.Present? then Done(Failed) else TearingDown(ClearApplied))
    case ClearApplied => (x.(applied := None), TearingDown(ClearPending))
    case ClearPending => (x.(pending := None), TearingDown(ClearHash))
    case ClearHash => (x.(pendingHash := None), TearingDown(ClearLast))
    case ClearLast => (x.(reverted := None), Done(TornDown))
  }

  /** One command of a script; `ok` is the result of an `nft` transaction. */
  function Command(x: Host, s: Script, ok: bool): (Host, Pc) {
    match s.pc
    case Checking(c) => CheckCommand(x, s.kind, s.hash, c)
    case Snapshotting(p) => SnapshotCommand(x, s.hash, p)
    case Enforcing(e) => EnforceCommand(x, s.kind, s.hash, e, ok)
    case Reverting(r) => RevertCommand(x, s.hash, r, ok)
    case Confirming(f) => ConfirmCommand(x, f)
    case TearingDown(d) => TeardownCommand(x, d, ok)
    case Done(_) => (x, s.pc)
  }

  function Advanced(x: World, s: Script, ok: bool): World {
    var (n, pc) := Command(x.host, s, ok);
    World(n, Some(s.(pc := pc)))
  }

  /** The lock is released; a revert that ran was the revert service. */
  function Released(x: World, s: Script): World {
    World(if s.kind == Revert then x.host.(service := false) else x.host, None)
  }

  predicate Enabled(x: World, s: Step) {
    match s
    case Start(kind, _) => x.running.None? && (kind == Revert ==> x.host.service)
    case Advance(_) => x.running.Some? && !x.running.value.pc.Done?
    case Exit => x.running.Some? && x.running.value.pc.Done?
    case Crash => x.running.Some?
    case Reboot => true
    case TimerFires => x.host.timer
    case Foreign(_) => true
  }

  function Next(x: World, s: Step): World
    requires Enabled(x, s)
  {
    match s
    case Start(kind, hash) => World(x.host, Some(Script(kind, hash, Entry(kind))))
    case Advance(ok) => Advanced(x, x.running.value, ok)
    case Exit => Released(x, x.running.value)
    case Crash => Released(x, x.running.value)
    case Reboot => World(Cancelled(x.host.(table := Absent)), None)
    case TimerFires => World(x.host.(timer := false, service := true), x.running)
    case Foreign(t) => World(x.host.(table := t), x.running)
  }

  predicate Follows(x: World, s: Step, n: World) {
    Enabled(x, s) && n == Next(x, s)
  }

  /** A host on which no script has run yet, whatever table it has. */
  predicate Initial(x: World) {
    && x.host.pending.None? && x.host.pendingHash.None? && x.host.applied.None? && x.host.reverted.None?
    && CountdownOff(x.host) && x.host.loaded == [] && x.running.None?
  }

  // -- what every script can rely on -----------------------------------------------------

  /** After the stale check a script of `h` finds a whole snapshot of its own, or none. */
  predicate Settled(x: Host, h: Hash) {
    Matching(x, h) || (x.pending.None? && x.pendingHash.None?)
  }

  predicate CountdownOff(x: Host) {
    !x.timer && !x.service
  }

  predicate CountdownRuns(x: Host) {
    x.timer || x.service
  }

  /** Timer and service are never both active, and a countdown runs only over a whole snapshot. */
  predicate Timed(x: Host) {
    !(x.timer && x.service) && (CountdownRuns(x) ==> x.pending.Some? && x.pendingHash.Some?)
  }

  /** A running revert is the service itself, so it may take its snapshot away before it ends. */
  predicate Clocked(x: Host, k: Kind) {
    if k.Revert? then x.service && !x.timer else Timed(x)
  }

  predicate AtCheck(x: Host, h: Hash, c: CheckPc) {
    match c
    case IsStale => true
    case CancelStale => true
    case DropStale => CountdownOff(x)
    case DropStaleHash => CountdownOff(x) && x.pending.None?
    case IsReverted => Settled(x, h)
    case IsInForce => Settled(x, h) && x.reverted != Some(h)
  }

  predicate AtSnapshot(x: Host, h: Hash, p: SnapshotPc) {
    x.reverted != Some(h) &&
    match p
    case CancelOld => Settled(x, h)
    case LookAtTable => Settled(x, h) && CountdownOff(x)
    case ListTable => Settled(x, h) && CountdownOff(x)
    case MoveSnapshot(snap) => Settled(x, h) && CountdownOff(x) && snap.Present?
    case WriteHash => x.pending.Some? && x.pendingHash in {None, Some(h)} && CountdownOff(x)
    case DropPending => Settled(x, h) && CountdownOff(x)
    case DropHash => x.pending.None? && CountdownOff(x)
  }

  predicate AtEnforce(x: Host, k: Kind, h: Hash, e: EnforcePc) {
    match e
    case Load => Settled(x, h) && x.reverted != Some(h) && (k.Apply? ==> CountdownOff(x))
    case VerifyLoad => Settled(x, h) && x.reverted != Some(h) && (k.Apply? ==> CountdownOff(x))
    case WriteApplied(loaded) => Settled(x, h) && x.reverted != Some(h) && (k.Apply? && loaded ==> CountdownOff(x))
    case ClearReverted(loaded) =>
      Settled(x, h) && x.reverted != Some(h) && x.applied == Some(h) && (k.Apply? && loaded ==> CountdownOff(x))
    case Arm => k.Apply? && Settled(x, h) && CountdownOff(x) && x.applied == Some(h) && x.reverted.None?
    case Ensure(loaded) => (k.Apply? ==> !loaded) && Settled(x, h) && x.applied == Some(h) && x.reverted.None?
    case CountRepair => k.Reconcile? && x.applied == Some(h) && x.reverted.None? && (CountdownRuns(x) <==> Matching(x, h))
  }

  predicate AtRevert(x: Host, h: Hash, r: RevertPc) {
    match r
    case IsPending => true
    case WriteReverted => Matching(x, h)
    case Restore => Matching(x, h) && x.reverted == Some(h)
    case VerifyRestore => Matching(x, h) && x.reverted == Some(h)
    case Retract => Matching(x, h)
    case ForgetPending => Matching(x, h) && x.reverted == Some(h)
    case ForgetHash => x.pending.None? && x.reverted == Some(h)
    case ForgetApplied => x.pending.None? && x.pendingHash.None? && x.reverted == Some(h)
  }

  predicate AtConfirm(x: Host, f: ConfirmPc) {
    match f
    case StopTimer => true
    case ConfirmPending => CountdownOff(x)
    case ConfirmHash => CountdownOff(x) && x.pending.None?
    case ConfirmReverted => CountdownOff(x) && x.pending.None? && x.pendingHash.None?
  }

  predicate AtTeardown(x: Host, d: TeardownPc) {
    match d
    case CancelAll => true
    case DeleteTable => CountdownOff(x)
    case VerifyDeleted => CountdownOff(x)
    case ClearApplied => CountdownOff(x)
    case ClearPending => CountdownOff(x) && x.applied.None?
    case ClearHash => CountdownOff(x) && x.applied.None? && x.pending.None?
    case ClearLast => CountdownOff(x) && x.applied.None? && x.pending.None? && x.pendingHash.None?
  }

  /** What holds of the files and the countdown at each command of the lock holder. */
  predicate At(x: Host, s: Script) {
    Clocked(x, s.kind) &&
    match s.pc
    case Checking(c) => (s.kind.Apply? || s.kind.Reconcile?) && AtCheck(x, s.hash, c)
    case Snapshotting(p) => s.kind.Apply? && AtSnapshot(x, s.hash, p)
    case Enforcing(e) => (s.kind.Apply? || s.kind.Reconcile?) && AtEnforce(x, s.kind, s.hash, e)
    case Reverting(r) => s.kind.Revert? && AtRevert(x, s.hash, r)
    case Confirming(f) => s.kind.Confirm? && AtConfirm(x, f)
    case TearingDown(d) => s.kind.Teardown? && AtTeardown(x, d)
    case Done(end) => Ended(x, s.kind, s.hash, end)
  }

  /** What a script leaves behind in files and countdown. */
  predicate Ended(x: Host, k: Kind, h: Hash, end: Outcome) {
    match end
    case Failed => true
    case Refused => k.Revert? || x.reverted == Some(h)
    case AlreadyInForce =>
      (k.Apply? || k.Reconcile?) && x.applied == Some(h) && x.reverted.None? && (CountdownRuns(x) <==> Matching(x, h))
    case Loaded =>
      (k.Apply? || k.Reconcile?) && x.applied == Some(h) && x.reverted.None? && (CountdownRuns(x) <==> Matching(x, h))
    case NothingPending => k.Revert? && (x.pending.None? || x.pendingHash.None?)
    case Restored => k.Revert? && x.reverted == Some(h) && x.pending.None? && x.pendingHash.None? && x.applied.None?
    case Confirmed => k.Confirm? && CountdownOff(x) && x.reverted.None? && x.pending.None? && x.pendingHash.None?
    case TornDown =>
      k.Teardown? && CountdownOff(x) && x.applied.None? && x.reverted.None? && x.pending.None? && x.pendingHash.None?
  }

  predicate SnapshotExists(x: Host) {
    x.pending.Some? ==> x.pending.value.Present?
  }

  predicate Inv(x: World) {
    SnapshotExists(x.host) && if x.running.Some? then At(x.host, x.running.value) else Timed(x.host)
  }

  lemma CheckingHolds(x: Host, s: Script, ok: bool)
    requires SnapshotExists(x) && At(x, s) && s.pc.Checking?
    ensures var (n, pc) := Command(x, s, ok); SnapshotExists(n) && At(n, s.(pc := pc))
  {
  }

  lemma SnapshottingHolds(x: Host, s: Script, ok: bool)
    requires SnapshotExists(x) && At(x, s) && s.pc.Snapshotting?
    ensures var (n, pc) := Command(x, s, ok); SnapshotExists(n) && At(n, s.(pc := pc))
  {
  }

  lemma LoadingHolds(x: Host, s: Script, ok: bool)
    requires SnapshotExists(x) && At(x, s) && s.pc.Enforcing? && (s.pc.e.Load? || s.pc.e.VerifyLoad? || s.pc.e.WriteApplied?)
    ensures var (n, pc) := Command(x, s, ok); SnapshotExists(n) && At(n, s.(pc := pc))
  {
  }

  lemma ArmingHolds(x: Host, s: Script, ok: bool)
    requires SnapshotExists(x) && At(x, s) && s.pc.Enforcing? && !s.pc.e.Load? && !s.pc.e.VerifyLoad? && !s.pc.e.WriteApplied?
    ensures var (n, pc) := Command(x, s, ok); SnapshotExists(n) && At(n, s.(pc := pc))
  {
  }

  lemma RevertingHolds(x: Host, s: Script, ok: bool)
    requires SnapshotExists(x) && At(x, s) && s.pc.Reverting?
    ensures var (n, pc) := Command(x, s, ok); SnapshotExists(n) && At(n, s.(pc := pc))
  {
  }

  lemma ConfirmingHolds(x: Host, s: Script, ok: bool)
    requires SnapshotExists(x) && At(x, s) && s.pc.Confirming?
    ensures var (n, pc) := Command(x, s, ok); SnapshotExists(n) && At(n, s.(pc := pc))
  {
  }

  lemma TearingDownHolds(x: Host, s: Script, ok: bool)
    requires SnapshotExists(x) && At(x, s) && s.pc.TearingDown?
    ensures var (n, pc) := Command(x, s, ok); SnapshotExists(n) && At(n, s.(pc := pc))
  {
  }

  lemma CommandHolds(x: Host, s: Script, ok: bool)
    requires SnapshotExists(x) && At(x, s) && !s.pc.Done?
    ensures var (n, pc) := Command(x, s, ok); SnapshotExists(n) && At(n, s.(pc := pc))
  {
    match s.pc
    case Checking(_) => CheckingHolds(x, s, ok);
    case Snapshotting(_) => SnapshottingHolds(x, s, ok);
    case Enforcing(e) =>
      if e.Load? || e.VerifyLoad? || e.WriteApplied? {
        LoadingHolds(x, s, ok);
      } else {
        ArmingHolds(x, s, ok);
      }
    case Reverting(_) => RevertingHolds(x, s, ok);
    case Confirming(_) => ConfirmingHolds(x, s, ok);
    case TearingDown(_) => TearingDownHolds(x, s, ok);
  }

  lemma StepKeepsInv(x: World, s: Step)
    requires Inv(x) && Enabled(x, s)
    ensures Inv(Next(x, s))
  {
    if s.Advance? {
      CommandHolds(x.host, x.running.value, s.ok);
    }
  }
}
