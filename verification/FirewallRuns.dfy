/** What the firewall's scripts guarantee over whole runs, whatever crashes, reboots and foreign actors
    do in between, and what each of them does when nothing disturbs it (modules/firewall.nix). */
module FirewallRuns {
  import opened Wrappers
  import opened Runs
  import opened Firewall

  ghost predicate Reached(x: World) {
    Reachable(Initial, Follows, x)
  }

  lemma ReachedKeepsInv(x: World)
    requires Reached(x)
    ensures Inv(x)
  {
    forall a: World, s: Step, b: World | Inv(a) && Follows(a, s, b) ensures Inv(b) {
      StepKeepsInv(a, s);
    }
    ReachableKeeps(Initial, Follows, Inv, x);
  }

  // -- endings ---------------------------------------------------------------------------

  /** Whatever was interrupted before: an apply or reconcile that ends well leaves the countdown running
      exactly when a snapshot of its own is pending, a revert, a confirm and a teardown leave no
      snapshot, and only a script whose generation stands reverted is refused. */
  lemma ScriptsEndAsPromised(x: World)
    requires Reached(x) && x.running.Some? && x.running.value.pc.Done?
    ensures Ended(x.host, x.running.value.kind, x.running.value.hash, x.running.value.pc.end)
  {
    ReachedKeepsInv(x);
  }

  // -- a snapshot is worth restoring -----------------------------------------------------

  predicate OtherThan(t: Table, h: Hash) {
    t.Present? && t.marker != Some(h)
  }

  predicate SnapshotIsOther(x: Host, h: Hash) {
    Matching(x, h) ==> OtherThan(x.pending.value, h)
  }

  /** What a script of `h` knows of the table while it replaces it. */
  predicate Replacing(x: Host, s: Script, h: Hash) {
    s.hash == h ==>
      match s.pc
      case Snapshotting(p) =>
        (match p
         case MoveSnapshot(snap) => OtherThan(snap, h)
         case WriteHash => x.pending.Some? && OtherThan(x.pending.value, h)
         case _ => !InForce(x, h))
      case Reverting(r) => r.VerifyRestore? || r.ForgetPending? || r.ForgetHash? || r.ForgetApplied? ==> !InForce(x, h)
      case Done(end) => end == Restored ==> !InForce(x, h)
      case _ => true
  }

  predicate Restorable(x: World, h: Hash) {
    Inv(x) && SnapshotIsOther(x.host, h) && (x.running.Some? ==> Replacing(x.host, x.running.value, h))
  }

  /** Foreign actors do as they like except load generation `h`. */
  predicate NeverForeign(s: Step, h: Hash) {
    s.Foreign? ==> s.table != Present(Some(h))
  }

  lemma RestorableSnapshotting(x: Host, s: Script, ok: bool, h: Hash)
    requires At(x, s) && s.pc.Snapshotting? && SnapshotIsOther(x, h) && Replacing(x, s, h)
    ensures var (n, pc) := Command(x, s, ok); SnapshotIsOther(n, h) && Replacing(n, s.(pc := pc), h)
  {
  }

  lemma RestorableCommand(x: Host, s: Script, ok: bool, h: Hash)
    requires At(x, s) && !s.pc.Done? && SnapshotIsOther(x, h) && Replacing(x, s, h)
    ensures var (n, pc) := Command(x, s, ok); SnapshotIsOther(n, h) && Replacing(n, s.(pc := pc), h)
  {
    if s.pc.Snapshotting? {
      RestorableSnapshotting(x, s, ok, h);
    } else if s.pc.Reverting? {
      RestorableReverting(x, s, ok, h);
    }
  }

  lemma RestorableReverting(x: Host, s: Script, ok: bool, h: Hash)
    requires At(x, s) && s.pc.Reverting? && SnapshotIsOther(x, h) && Replacing(x, s, h)
    ensures var (n, pc) := Command(x, s, ok); SnapshotIsOther(n, h) && Replacing(n, s.(pc := pc), h)
  {
  }

  lemma RestorableStep(x: World, s: Step, n: World, h: Hash)
    requires Restorable(x, h) && Follows(x, s, n) && NeverForeign(s, h)
    ensures Restorable(n, h)
  {
    StepKeepsInv(x, s);
    if s.Advance? {
      RestorableCommand(x.host, x.running.value, s.ok, h);
    }
  }

  ghost predicate ReachedWithout(x: World, h: Hash) {
    Reachable(Initial, (a: World, s: Step, b: World) => Follows(a, s, b) && NeverForeign(s, h), x)
  }

  lemma ReachedIsRestorable(x: World, h: Hash)
    requires ReachedWithout(x, h)
    ensures Restorable(x, h)
  {
    forall a: World, s: Step, b: World | Restorable(a, h) && Follows(a, s, b) && NeverForeign(s, h) ensures Restorable(b, h) {
      RestorableStep(a, s, b, h);
    }
    ReachableKeeps(Initial, (a: World, s: Step, b: World) => Follows(a, s, b) && NeverForeign(s, h),
                   (a: World) => Restorable(a, h), x);
  }

  /** Killed at any command, rebooted at any time: a pending snapshot of `h` is of a table that existed
      and is not generation `h`, and a revert that ends well never leaves `h` in force. */
  lemma SnapshotsAreRestorable(x: World, h: Hash)
    requires ReachedWithout(x, h)
    ensures Matching(x.host, h) ==> OtherThan(x.host.pending.value, h)
    ensures x.running.Some? && x.running.value == Script(Revert, h, Done(Restored)) ==> !InForce(x.host, h)
    ensures x.running.Some? && x.running.value == Script(Revert, h, Reverting(VerifyRestore)) ==> !InForce(x.host, h)
  {
    ReachedIsRestorable(x, h);
  }

  /** The moment a revert's transaction succeeds a table is loaded: the snapshot, never `h`. */
  lemma RestoreLoadsTheSnapshot(x: World, h: Hash, n: World)
    requires ReachedWithout(x, h) && Follows(x, Advance(true), n)
    requires x.running.value == Script(Revert, h, Reverting(Restore))
    ensures OtherThan(n.host.table, h) && x.host.pending == Some(n.host.table) && n.host.reverted == Some(h)
  {
    ReachedIsRestorable(x, h);
  }

  // -- a rejected generation stays out ---------------------------------------------------

  /** The commands that take the rejection of `g` off the disk: the last one of a confirm and of a
      teardown, a revert withdrawing its intent after a failed restore, and an apply, repair or revert
      of another generation that gets as far as its own record. */
  predicate Supersedes(s: Script, g: Hash) {
    match s.pc
    case Confirming(f) => f.ConfirmReverted?
    case TearingDown(d) => d.ClearLast?
    case Reverting(r) => r.Retract? || (r.WriteReverted? && s.hash != g)
    case Enforcing(e) => e.ClearReverted? && s.hash != g
    case _ => false
  }

  /** Anything else: every other command of any script, crashes, reboots, the timer, foreign tables. */
  predicate LeavesRejected(x: World, s: Step, g: Hash) {
    s.Advance? ==> x.running.Some? && !Supersedes(x.running.value, g)
  }

  /** How often a script's transaction has put `g` in the table. */
  function Loads(x: Host, g: Hash): nat {
    multiset(x.loaded)[g]
  }

  /** The one command that can put a rejected `g` back: a restore of a snapshot that carries it. */
  predicate RestoresIt(x: Host, s: Script, ok: bool, g: Hash) {
    ok && s.pc == Reverting(Restore) && x.pending == Some(Present(Some(g)))
  }

  lemma RejectedReverting(x: Host, s: Script, ok: bool, g: Hash)
    requires At(x, s) && s.pc.Reverting? && x.reverted == Some(g) && !Supersedes(s, g)
    ensures Command(x, s, ok).0.reverted == Some(g)
    ensures Loads(Command(x, s, ok).0, g) == Loads(x, g) + if RestoresIt(x, s, ok, g) then 1 else 0
  {
  }

  lemma RejectedElsewhere(x: Host, s: Script, ok: bool, g: Hash)
    requires At(x, s) && !s.pc.Reverting? && !s.pc.Done? && x.reverted == Some(g) && !Supersedes(s, g)
    ensures Command(x, s, ok).0.reverted == Some(g) && Loads(Command(x, s, ok).0, g) == Loads(x, g)
  {
  }

  /** Exactly when a command loads a generation whose rejection stands. */
  lemma RejectedCommand(x: Host, s: Script, ok: bool, g: Hash)
    requires At(x, s) && !s.pc.Done? && x.reverted == Some(g) && !Supersedes(s, g)
    ensures Command(x, s, ok).0.reverted == Some(g)
    ensures Loads(Command(x, s, ok).0, g) == Loads(x, g) + if RestoresIt(x, s, ok, g) then 1 else 0
  {
    if s.pc.Reverting? {
      RejectedReverting(x, s, ok, g);
    } else {
      RejectedElsewhere(x, s, ok, g);
    }
  }

  predicate Rejected(x: World, g: Hash) {
    Restorable(x, g) && x.host.reverted == Some(g)
  }

  lemma RejectedStep(x: World, s: Step, n: World, g: Hash)
    requires Rejected(x, g) && Follows(x, s, n) && LeavesRejected(x, s, g) && NeverForeign(s, g)
    ensures Rejected(n, g) && Loads(n.host, g) == Loads(x.host, g)
  {
    RestorableStep(x, s, n, g);
    if s.Advance? {
      RejectedCommand(x.host, x.running.value, s.ok, g);
    }
  }

  /** Once the rejection of `g` is on disk, over any run of any scripts, crashes, reboots and foreign
      tables other than `g` itself, it stays there and no script's transaction, a restore included,
      puts `g` in the table, until one of the commands that supersede it. */
  lemma RejectedStaysOut(x: World, moves: seq<Move<Step, World>>, g: Hash)
    requires ReachedWithout(x, g) && x.host.reverted == Some(g)
    requires Chain((a: World, s: Step, b: World) => Follows(a, s, b) && LeavesRejected(a, s, g) && NeverForeign(s, g), x, moves)
    ensures Last(x, moves).host.reverted == Some(g) && Loads(Last(x, moves).host, g) == Loads(x.host, g)
  {
    ReachedIsRestorable(x, g);
    var le := (a: World, b: World) => Loads(a.host, g) == Loads(b.host, g);
    forall a: World, s: Step, b: World
      | Rejected(a, g) && Follows(a, s, b) && LeavesRejected(a, s, g) && NeverForeign(s, g)
      ensures Rejected(b, g) && le(a, b)
    {
      RejectedStep(a, s, b, g);
    }
    Induct((a: World, s: Step, b: World) => Follows(a, s, b) && LeavesRejected(a, s, g) && NeverForeign(s, g),
           (a: World) => Rejected(a, g), le, x, moves);
  }

  /** With foreign hands loading `g` as well the rejection still stands, and a script's step puts `g` in
      the table exactly when it restores a snapshot that carries `g`. */
  lemma RejectionStands(x: World, s: Step, n: World, g: Hash)
    requires Reached(x) && x.host.reverted == Some(g) && Follows(x, s, n) && LeavesRejected(x, s, g)
    ensures n.host.reverted == Some(g)
    ensures Loads(n.host, g) > Loads(x.host, g)
            <==> s.Advance? && RestoresIt(x.host, x.running.value, s.ok, g)
  {
    ReachedKeepsInv(x);
    if s.Advance? {
      RejectedCommand(x.host, x.running.value, s.ok, g);
    }
  }

  lemma Then(x: World, s: Step, n: World)
    requires Reached(x) && Follows(x, s, n)
    ensures Reached(n)
  {
    ReachableExtends(Initial, Follows, x, s, n);
  }

  /** The running script's next command, its transaction succeeding if it is one. */
  lemma Go(x: Host, k: Kind, h: Hash, pc: Pc, n: Host, pc': Pc)
    requires Reached(World(x, Some(Script(k, h, pc)))) && !pc.Done?
    requires Command(x, Script(k, h, pc), true) == (n, pc')
    ensures Reached(World(n, Some(Script(k, h, pc'))))
  {
    Then(World(x, Some(Script(k, h, pc))), Advance(true), World(n, Some(Script(k, h, pc'))));
  }

  const STRANGER := Host(Present(Some(5)), None, None, None, None, 0, false, false, [])

  /** An apply of generation 1 has seen that it is not in force; then a foreign hand loads it. */
  lemma ForeignTableAppears() returns (x: Host)
    ensures x == STRANGER.(table := Present(Some(1)))
    ensures Reached(World(x, Some(Script(Apply, 1, Snapshotting(LookAtTable)))))
  {
    var o := World(STRANGER, None);
    var none: seq<Move<Step, World>> := [];
    assert Initial(o) && Chain(Follows, o, none) && Last(o, none) == o;
    Then(o, Start(Apply, 1), World(STRANGER, Some(Script(Apply, 1, Checking(IsStale)))));
    Go(STRANGER, Apply, 1, Checking(IsStale), STRANGER, Checking(IsReverted));
    Go(STRANGER, Apply, 1, Checking(IsReverted), STRANGER, Checking(IsInForce));
    Go(STRANGER, Apply, 1, Checking(IsInForce), STRANGER, Snapshotting(CancelOld));
    Go(STRANGER, Apply, 1, Snapshotting(CancelOld), STRANGER, Snapshotting(LookAtTable));
    x := STRANGER.(table := Present(Some(1)));
    var look := Some(Script(Apply, 1, Snapshotting(LookAtTable)));
    Then(World(STRANGER, look), Foreign(Present(Some(1))), World(x, look));
  }

  /** The apply takes its snapshot of that table, and ends well under countdown. */
  lemma ForeignSnapshotTaken() returns (n: Host)
    ensures Reached(World(n, None)) && n.timer && !n.service
    ensures n.pending == Some(Present(Some(1))) && n.pendingHash == Some(1)
  {
    var x := ForeignTableAppears();
    Go(x, Apply, 1, Snapshotting(LookAtTable), x, Snapshotting(ListTable));
    Go(x, Apply, 1, Snapshotting(ListTable), x, Snapshotting(MoveSnapshot(x.table)));
    var a := x.(pending := Some(x.table));
    Go(x, Apply, 1, Snapshotting(MoveSnapshot(x.table)), a, Snapshotting(WriteHash));
    var b := a.(pendingHash := Some(1));
    Go(a, Apply, 1, Snapshotting(WriteHash), b, Enforcing(Load));
    var c := b.(loaded := b.loaded + [1]);
    Go(b, Apply, 1, Enforcing(Load), c, Enforcing(VerifyLoad));
    Go(c, Apply, 1, Enforcing(VerifyLoad), c, Enforcing(WriteApplied(true)));
    var d := c.(applied := Some(1));
    Go(c, Apply, 1, Enforcing(WriteApplied(true)), d, Enforcing(ClearReverted(true)));
    Go(d, Apply, 1, Enforcing(ClearReverted(true)), d, Enforcing(Arm));
    n := d.(timer := true);
    Go(d, Apply, 1, Enforcing(Arm), n, Done(Loaded));
    Then(World(n, Some(Script(Apply, 1, Done(Loaded)))), Exit, World(n, None));
  }

  /** Such a snapshot does get restored: the rejection on disk, the table gone, and the next command of
      the revert puts generation 1 back. */
  lemma ForeignLoadComesBack() returns (x: World)
    ensures Reached(x) && x.host.reverted == Some(1) && x.host.table == Absent && Enabled(x, Advance(true))
    ensures LeavesRejected(x, Advance(true), 1) && InForce(Next(x, Advance(true)).host, 1)
  {
    var n := ForeignSnapshotTaken();
    var a := n.(timer := false, service := true);
    Then(World(n, None), TimerFires, World(a, None));
    Then(World(a, None), Start(Revert, 1), World(a, Some(Script(Revert, 1, Reverting(IsPending)))));
    Go(a, Revert, 1, Reverting(IsPending), a, Reverting(WriteReverted));
    var b := a.(reverted := Some(1));
    Go(a, Revert, 1, Reverting(WriteReverted), b, Reverting(Restore));
    x := World(b.(table := Absent), Some(Script(Revert, 1, Reverting(Restore))));
    Then(World(b, x.running), Foreign(Absent), x);
  }

  // -- undisturbed scripts ---------------------------------------------------------------

  /** How many commands a script has left at most. */
  function Rank(pc: Pc): nat {
    match pc
    case Checking(c) =>
      (match c case IsStale => 17 case CancelStale => 16 case DropStale => 15 case DropStaleHash => 14
               case IsReverted => 13 case IsInForce => 12)
    case Snapshotting(p) =>
      (match p case CancelOld => 11 case LookAtTable => 10 case ListTable => 9 case MoveSnapshot(_) => 8
               case WriteHash => 7 case DropPending => 8 case DropHash => 7)
    case Enforcing(e) =>
      (match e case Load => 6 case VerifyLoad => 5 case WriteApplied(_) => 4 case ClearReverted(_) => 3
               case Arm => 1 case Ensure(_) => 2 case CountRepair => 1)
    case Reverting(r) =>
      (match r case IsPending => 7 case WriteReverted => 6 case Restore => 5 case VerifyRestore => 4
               case Retract => 1 case ForgetPending => 3 case ForgetHash => 2 case ForgetApplied => 1)
    case Confirming(f) =>
      (match f case StopTimer => 4 case ConfirmPending => 3 case ConfirmHash => 2 case ConfirmReverted => 1)
    case TearingDown(d) =>
      (match d case CancelAll => 7 case DeleteTable => 6 case VerifyDeleted => 5 case ClearApplied => 4
               case ClearPending => 3 case ClearHash => 2 case ClearLast => 1)
    case Done(_) => 0
  }

  /** Every command brings its script nearer to its end. */
  lemma CommandsProgress(x: Host, s: Script, ok: bool)
    requires !s.pc.Done?
    ensures Rank(Command(x, s, ok).1) < Rank(s.pc)
  {
  }

  /** The script run to its end with nothing else happening; `ok` is the result of its one `nft`
      transaction. */
  function Finish(x: Host, s: Script, ok: bool): (Host, Outcome)
    decreases Rank(s.pc)
  {
    if s.pc.Done? then (x, s.pc.end)
    else
      CommandsProgress(x, s, ok);
      var (n, pc) := Command(x, s, ok);
      Finish(n, s.(pc := pc), ok)
  }

  function RunScript(x: Host, k: Kind, h: Hash, ok: bool): (Host, Outcome) {
    Finish(x, Script(k, h, Entry(k)), ok)
  }

  /** The files after the stale check of a script of `h`: a snapshot of another generation, or half of
      one, is gone together with its countdown. */
  function Cleaned(x: Host, h: Hash): Host {
    if Stale(x, h) then Cancelled(x).(pending := None, pendingHash := None) else x
  }

  lemma CheckingOutcome(x: Host, k: Kind, h: Hash, ok: bool)
    requires k == Apply || k == Reconcile
    ensures RunScript(x, k, h, ok)
            == if x.reverted == Some(h) then (Cleaned(x, h), Refused)
               else Finish(Cleaned(x, h), Script(k, h, Checking(IsInForce)), ok)
  {
    var s := Script(k, h, Checking(IsStale));
    if Stale(x, h) {
      var a := Cancelled(x);
      var b := a.(pending := None);
      assert Finish(x, s, ok) == Finish(x, s.(pc := Checking(CancelStale)), ok)
             == Finish(a, s.(pc := Checking(DropStale)), ok);
      assert Finish(a, s.(pc := Checking(DropStale)), ok) == Finish(b, s.(pc := Checking(DropStaleHash)), ok);
      assert Finish(b, s.(pc := Checking(DropStaleHash)), ok)
             == Finish(Cleaned(x, h), s.(pc := Checking(IsReverted)), ok);
    } else {
      assert Finish(x, s, ok) == Finish(x, s.(pc := Checking(IsReverted)), ok);
    }
    var y := Cleaned(x, h);
    assert Finish(y, s.(pc := Checking(IsReverted)), ok)
           == if x.reverted == Some(h) then (y, Refused) else Finish(y, s.(pc := Checking(IsInForce)), ok);
  }

  /** The state recorded of a generation found or brought in force. */
  function Recorded(x: Host, h: Hash): Host {
    x.(applied := Some(h), reverted := None)
  }

  lemma LoadingOutcome(x: Host, k: Kind, h: Hash)
    requires k == Apply || k == Reconcile
    ensures var y := Recorded(x, h).(table := Present(Some(h)), loaded := x.loaded + [h]);
            Finish(x, Script(k, h, Enforcing(Load)), true)
            == (if k == Apply then y.(timer := x.timer || Matching(x, h))
                else y.(timer := x.timer || (Matching(x, h) && !x.service), repairs := x.repairs + 1), Loaded)
  {
    var s := Script(k, h, Enforcing(Load));
    var a := x.(table := Present(Some(h)), loaded := x.loaded + [h]);
    var b := a.(applied := Some(h));
    var c := b.(reverted := None);
    assert Finish(x, s, true) == Finish(a, s.(pc := Enforcing(VerifyLoad)), true)
           == Finish(a, s.(pc := Enforcing(WriteApplied(true))), true);
    assert Finish(a, s.(pc := Enforcing(WriteApplied(true))), true)
           == Finish(b, s.(pc := Enforcing(ClearReverted(true))), true);
    if k == Apply {
      assert Finish(b, s.(pc := Enforcing(ClearReverted(true))), true) == Finish(c, s.(pc := Enforcing(Arm)), true);
      assert Finish(c, s.(pc := Enforcing(Arm)), true) == (c.(timer := c.timer || Matching(c, h)), Loaded);
    } else {
      var d := c.(timer := c.timer || (Matching(c, h) && !c.service));
      assert Finish(b, s.(pc := Enforcing(ClearReverted(true))), true)
             == Finish(c, s.(pc := Enforcing(Ensure(true))), true);
      assert Finish(c, s.(pc := Enforcing(Ensure(true))), true) == Finish(d, s.(pc := Enforcing(CountRepair)), true);
      assert Finish(d, s.(pc := Enforcing(CountRepair)), true) == (d.(repairs := x.repairs + 1), Loaded);
    }
  }

  lemma InForceOutcome(x: Host, k: Kind, h: Hash, ok: bool)
    requires (k == Apply || k == Reconcile) && InForce(x, h)
    ensures Finish(x, Script(k, h, Checking(IsInForce)), ok)
            == (Recorded(x, h).(timer := x.timer || (Matching(x, h) && !x.service)), AlreadyInForce)
  {
    var s := Script(k, h, Checking(IsInForce));
    var b := x.(applied := Some(h));
    assert Finish(x, s, ok) == Finish(x, s.(pc := Enforcing(WriteApplied(false))), ok)
           == Finish(b, s.(pc := Enforcing(ClearReverted(false))), ok);
    assert Finish(b, s.(pc := Enforcing(ClearReverted(false))), ok)
           == Finish(Recorded(x, h), s.(pc := Enforcing(Ensure(false))), ok);
    assert Finish(Recorded(x, h), s.(pc := Enforcing(Ensure(false))), ok)
           == (Recorded(x, h).(timer := x.timer || (Matching(x, h) && !x.service)), AlreadyInForce);
  }

  /** The host as apply leaves it just before loading: the countdown off, and a snapshot of the table
      it replaces, or none when there is none to replace. */
  function Snapshotted(x: Host, h: Hash): Host {
    if x.table.Present? then Cancelled(x).(pending := Some(x.table), pendingHash := Some(h))
    else Cancelled(x).(pending := None, pendingHash := None)
  }

  lemma SnapshottingOutcome(x: Host, h: Hash, ok: bool)
    requires !InForce(x, h)
    ensures Finish(x, Script(Apply, h, Checking(IsInForce)), ok)
            == Finish(Snapshotted(x, h), Script(Apply, h, Enforcing(Load)), ok)
  {
    var s := Script(Apply, h, Checking(IsInForce));
    var a := Cancelled(x);
    assert Finish(x, s, ok) == Finish(x, s.(pc := Snapshotting(CancelOld)), ok)
           == Finish(a, s.(pc := Snapshotting(LookAtTable)), ok);
    if x.table.Present? {
      var b := a.(pending := Some(x.table));
      assert Finish(a, s.(pc := Snapshotting(LookAtTable)), ok) == Finish(a, s.(pc := Snapshotting(ListTable)), ok);
      assert Finish(a, s.(pc := Snapshotting(ListTable)), ok)
             == Finish(a, s.(pc := Snapshotting(MoveSnapshot(x.table))), ok);
      assert Finish(a, s.(pc := Snapshotting(MoveSnapshot(x.table))), ok)
             == Finish(b, s.(pc := Snapshotting(WriteHash)), ok);
    } else {
      var b := a.(pending := None);
      assert Finish(a, s.(pc := Snapshotting(LookAtTable)), ok) == Finish(a, s.(pc := Snapshotting(DropPending)), ok);
      assert Finish(a, s.(pc := Snapshotting(DropPending)), ok) == Finish(b, s.(pc := Snapshotting(DropHash)), ok);
    }
  }

  /** An undisturbed apply: its generation in force and recorded, unless it stands reverted. A restart
      of a generation in force opens no new window and keeps an open one open; otherwise it leaves
      exactly a snapshot of the table it replaced, under countdown, or neither. */
  lemma ApplyOutcome(x: Host, h: Hash)
    ensures var (n, end) := RunScript(x, Apply, h, true);
            if x.reverted == Some(h) then end == Refused && n.table == x.table && n.reverted == x.reverted
            else
              && InForce(n, h) && n.applied == Some(h) && n.reverted.None?
              && (end == AlreadyInForce <==> InForce(x, h)) && (end == Loaded <==> !InForce(x, h))
              && (InForce(x, h) ==> (Matching(n, h) <==> Matching(x, h)) && (Matching(x, h) ==> n.pending == x.pending))
              && (!InForce(x, h) && x.table.Present? ==> n.pending == Some(x.table) && n.pendingHash == Some(h))
              && (!InForce(x, h) && x.table.Absent? ==> n.pending.None? && n.pendingHash.None? && CountdownOff(n))
              && (Matching(n, h) ==> CountdownRuns(n))
  {
    CheckingOutcome(x, Apply, h, true);
    var y := Cleaned(x, h);
    if x.reverted != Some(h) {
      if InForce(x, h) {
        InForceOutcome(y, Apply, h, true);
      } else {
        SnapshottingOutcome(y, h, true);
        LoadingOutcome(Snapshotted(y, h), Apply, h);
      }
    }
  }

  /** An undisturbed reconcile repairs what is not in force, takes no snapshot and opens no window of its
      own: it only keeps one running that apply opened for the same generation. */
  lemma ReconcileOutcome(x: Host, h: Hash)
    ensures var (n, end) := RunScript(x, Reconcile, h, true);
            if x.reverted == Some(h) then end == Refused && n.table == x.table && n.reverted == x.reverted
            else
              && InForce(n, h) && n.applied == Some(h) && n.reverted.None?
              && n.repairs == (if InForce(x, h) then x.repairs else x.repairs + 1)
              && (Matching(n, h) <==> Matching(x, h)) && (Matching(x, h) ==> n.pending == x.pending && CountdownRuns(n))
              && (!Matching(x, h) ==> n.pending.None? && n.pendingHash.None? && (n.timer ==> x.timer))
  {
    CheckingOutcome(x, Reconcile, h, true);
    var y := Cleaned(x, h);
    if x.reverted != Some(h) {
      if InForce(x, h) {
        InForceOutcome(y, Reconcile, h, true);
      } else {
        assert Finish(y, Script(Reconcile, h, Checking(IsInForce)), true)
               == Finish(y, Script(Reconcile, h, Enforcing(Load)), true);
        LoadingOutcome(y, Reconcile, h);
      }
    }
  }

  /** An undisturbed revert of a pending snapshot of another generation restores exactly it. */
  lemma RevertOutcome(x: Host, h: Hash)
    requires Matching(x, h) && x.pending.value != Present(Some(h))
    ensures RunScript(x, Revert, h, true)
            == (x.(table := x.pending.value, loaded := x.loaded + MarkersOf(x.pending.value), reverted := Some(h),
                   pending := None, pendingHash := None, applied := None), Restored)
  {
    var s := Script(Revert, h, Reverting(IsPending));
    var a := x.(reverted := Some(h));
    var b := a.(table := x.pending.value, loaded := x.loaded + MarkersOf(x.pending.value));
    var c := b.(pending := None);
    var d := c.(pendingHash := None);
    assert Finish(x, s, true) == Finish(x, s.(pc := Reverting(WriteReverted)), true)
           == Finish(a, s.(pc := Reverting(Restore)), true);
    assert Finish(a, s.(pc := Reverting(Restore)), true) == Finish(b, s.(pc := Reverting(VerifyRestore)), true);
    assert Finish(b, s.(pc := Reverting(VerifyRestore)), true) == Finish(b, s.(pc := Reverting(ForgetPending)), true);
    assert Finish(b, s.(pc := Reverting(ForgetPending)), true) == Finish(c, s.(pc := Reverting(ForgetHash)), true);
    assert Finish(c, s.(pc := Reverting(ForgetHash)), true) == Finish(d, s.(pc := Reverting(ForgetApplied)), true);
    assert Finish(d, s.(pc := Reverting(ForgetApplied)), true) == (d.(applied := None), Restored);
  }

  /** A snapshot of the rejected generation itself: loaded, noticed, and the intent withdrawn. */
  lemma RestoreInVain(x: Host, h: Hash)
    requires Matching(x, h) && x.pending.value == Present(Some(h))
    ensures RunScript(x, Revert, h, true) == (x.(table := Present(Some(h)), loaded := x.loaded + [h], reverted := None), Failed)
  {
    var s := Script(Revert, h, Reverting(IsPending));
    var a := x.(reverted := Some(h));
    var b := a.(table := x.pending.value, loaded := x.loaded + [h]);
    assert Finish(x, s, true) == Finish(x, s.(pc := Reverting(WriteReverted)), true)
           == Finish(a, s.(pc := Reverting(Restore)), true);
    assert Finish(a, s.(pc := Reverting(Restore)), true) == Finish(b, s.(pc := Reverting(VerifyRestore)), true);
    assert Finish(b, s.(pc := Reverting(VerifyRestore)), true) == Finish(b, s.(pc := Reverting(Retract)), true);
    assert Finish(b, s.(pc := Reverting(Retract)), true) == (b.(reverted := None), Failed);
  }

  lemma NothingToRevert(x: Host, h: Hash, ok: bool)
    requires !Matching(x, h)
    ensures RunScript(x, Revert, h, ok)
            == (x, if x.pending.None? || x.pendingHash.None? then NothingPending else Refused)
  {
    var s := Script(Revert, h, Reverting(IsPending));
    assert Finish(x, s, ok) == Finish(x, s.(pc := Command(x, s, ok).1), ok);
  }

  lemma ConfirmOutcome(x: Host, h: Hash, ok: bool)
    ensures RunScript(x, Confirm, h, ok)
            == (Cancelled(x).(pending := None, pendingHash := None, reverted := None), Confirmed)
  {
    var s := Script(Confirm, h, Confirming(StopTimer));
    var a := Cancelled(x);
    var b := a.(pending := None);
    assert Finish(x, s, ok) == Finish(a, s.(pc := Confirming(ConfirmPending)), ok)
           == Finish(b, s.(pc := Confirming(ConfirmHash)), ok);
    assert Finish(b, s.(pc := Confirming(ConfirmHash)), ok)
           == Finish(b.(pendingHash := None), s.(pc := Confirming(ConfirmReverted)), ok);
    assert Finish(b.(pendingHash := None), s.(pc := Confirming(ConfirmReverted)), ok)
           == (b.(pendingHash := None, reverted := None), Confirmed);
  }

  lemma TeardownOutcome(x: Host, h: Hash)
    ensures RunScript(x, Teardown, h, true)
            == (Cancelled(x).(table := Absent, applied := None, pending := None, pendingHash := None, reverted := None), TornDown)
  {
    var s := Script(Teardown, h, TearingDown(CancelAll));
    var a := Cancelled(x).(table := Absent);
    var b := a.(applied := None);
    var c := b.(pending := None);
    var d := c.(pendingHash := None);
    assert Finish(x, s, true) == Finish(Cancelled(x), s.(pc := TearingDown(DeleteTable)), true)
           == Finish(a, s.(pc := TearingDown(VerifyDeleted)), true);
    assert Finish(a, s.(pc := TearingDown(VerifyDeleted)), true)
           == Finish(a, s.(pc := TearingDown(ClearApplied)), true);
    assert Finish(a, s.(pc := TearingDown(ClearApplied)), true) == Finish(b, s.(pc := TearingDown(ClearPending)), true);
    assert Finish(b, s.(pc := TearingDown(ClearPending)), true) == Finish(c, s.(pc := TearingDown(ClearHash)), true);
    assert Finish(c, s.(pc := TearingDown(ClearHash)), true) == Finish(d, s.(pc := TearingDown(ClearLast)), true);
    assert Finish(d, s.(pc := TearingDown(ClearLast)), true) == (d.(reverted := None), TornDown);
  }

  /** The checks behind the transactions notice what happened in between, and then nothing is recorded: a
      load, a restore or a deletion of which the kernel shows something else, and a table gone before it
      could be listed. */
  lemma ChecksNotice(x: Host, k: Kind, h: Hash, ok: bool)
    ensures (k == Apply || k == Reconcile) && x.table != Present(Some(h)) ==>
              Finish(x, Script(k, h, Enforcing(VerifyLoad)), ok) == (x, Failed)
    ensures x.table == Present(Some(h)) ==>
              Finish(x, Script(Revert, h, Reverting(VerifyRestore)), ok) == (x.(reverted := None), Failed)
    ensures x.table != Absent ==> Finish(x, Script(Teardown, h, TearingDown(VerifyDeleted)), ok) == (x, Failed)
    ensures x.table == Absent ==> Finish(x, Script(Apply, h, Snapshotting(ListTable)), ok) == (x, Failed)
  {
    if x.table == Present(Some(h)) {
      var s := Script(Revert, h, Reverting(VerifyRestore));
      assert Finish(x, s, ok) == Finish(x, s.(pc := Reverting(Retract)), ok);
      assert Finish(x, s.(pc := Reverting(Retract)), ok) == (x.(reverted := None), Failed);
    }
  }

  /** A failed transaction changes nothing it should not: the table, the applied and the reverted record
      of apply and reconcile stay, a revert keeps its snapshot and withdraws its intent, and a teardown
      forgets nothing. */
  lemma FailureOutcome(x: Host, h: Hash)
    ensures x.reverted != Some(h) && !InForce(x, h) ==>
              var (a, endA) := RunScript(x, Apply, h, false);
              var (r, endR) := RunScript(x, Reconcile, h, false);
              && endA == Failed
              && a.(pending := x.pending, pendingHash := x.pendingHash, timer := x.timer, service := x.service) == x
              && endR == Failed && r == Cleaned(x, h)
    ensures Matching(x, h) ==> RunScript(x, Revert, h, false) == (x.(reverted := None), Failed)
    ensures RunScript(x, Teardown, h, false) == (Cancelled(x), Failed)
  {
    var y := Cleaned(x, h);
    if x.reverted != Some(h) && !InForce(x, h) {
      CheckingOutcome(x, Apply, h, false);
      SnapshottingOutcome(y, h, false);
      assert Finish(Snapshotted(y, h), Script(Apply, h, Enforcing(Load)), false) == (Snapshotted(y, h), Failed);
      CheckingOutcome(x, Reconcile, h, false);
      assert Finish(y, Script(Reconcile, h, Checking(IsInForce)), false)
             == Finish(y, Script(Reconcile, h, Enforcing(Load)), false);
      assert Finish(y, Script(Reconcile, h, Enforcing(Load)), false) == (y, Failed);
    }
    if Matching(x, h) {
      var s := Script(Revert, h, Reverting(IsPending));
      var a := x.(reverted := Some(h));
      assert Finish(x, s, false) == Finish(x, s.(pc := Reverting(WriteReverted)), false)
             == Finish(a, s.(pc := Reverting(Restore)), false);
      assert Finish(a, s.(pc := Reverting(Restore)), false) == Finish(a, s.(pc := Reverting(Retract)), false);
      assert Finish(a, s.(pc := Reverting(Retract)), false) == (x.(reverted := None), Failed);
    }
    var s := Script(Teardown, h, TearingDown(CancelAll));
    assert Finish(x, s, false)
           == Finish(Cancelled(x), s.(pc := TearingDown(DeleteTable)), false) == (Cancelled(x), Failed);
  }

  /** Applying a changed ruleset and letting its window expire puts back the table there was, and the
      rejected generation is then refused until it is confirmed, after which it applies again. */
  lemma DeadManSwitch(x: Host, h: Hash)
    requires x.table.Present? && !InForce(x, h) && x.reverted != Some(h)
    ensures var applied := RunScript(x, Apply, h, true).0;
            var back := RunScript(applied, Revert, h, true).0;
            && InForce(applied, h) && CountdownRuns(applied)
            && back.table == x.table && back.reverted == Some(h)
            && RunScript(back, Apply, h, true) == (back, Refused)
            && RunScript(back, Reconcile, h, true) == (back, Refused)
            && InForce(RunScript(RunScript(back, Confirm, h, true).0, Reconcile, h, true).0, h)
  {
    ApplyOutcome(x, h);
    var applied := RunScript(x, Apply, h, true).0;
    RevertOutcome(applied, h);
    var back := RunScript(applied, Revert, h, true).0;
    CheckingOutcome(back, Apply, h, true);
    CheckingOutcome(back, Reconcile, h, true);
    ConfirmOutcome(back, h, true);
    ReconcileOutcome(RunScript(back, Confirm, h, true).0, h);
  }

  /** The comment on the snapshot says the next boot can still arm a revert for a generation whose power
      failed after its load. It can exactly when the kernel still has a table: an apply that finds none
      discards the snapshot. */
  lemma RevertCanBeArmedExactly(x: Host, h: Hash)
    requires Matching(x, h) && x.reverted != Some(h)
    ensures Matching(RunScript(x, Apply, h, true).0, h) && CountdownRuns(RunScript(x, Apply, h, true).0) <==> x.table.Present?
  {
    ApplyOutcome(x, h);
  }

  /** And the recorded snapshot itself survives exactly when the generation is in force, so that nothing
      is replaced, or the table to be replaced is the one it holds already. */
  lemma SnapshotSurvivesExactly(x: Host, h: Hash)
    requires Matching(x, h) && SnapshotExists(x) && x.reverted != Some(h)
    ensures var n := RunScript(x, Apply, h, true).0;
            n.pending == x.pending && Matching(n, h) <==> InForce(x, h) || x.pending == Some(x.table)
  {
    ApplyOutcome(x, h);
  }

  /** So after a reboot there is nothing left to revert to, and the unconfirmed generation stays. */
  lemma RebootForgetsTheSnapshot(x: World, h: Hash)
    requires Matching(x.host, h) && x.host.reverted != Some(h)
    ensures var n := RunScript(Next(x, Reboot).host, Apply, h, true).0;
            n.pending.None? && CountdownOff(n) && InForce(n, h)
  {
    ApplyOutcome(Next(x, Reboot).host, h);
  }
}
