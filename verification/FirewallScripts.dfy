/** The firewall's scripts a second time, as methods over fields updated in place: the kernel table, the
    state files and the units, under the lock (modules/firewall.nix). Each method, run undisturbed, is
    proved to have the effect of the command sequence of the step model. `nft` is whether the one
    transaction the script may issue succeeds. */
module FirewallScripts {
  import opened Wrappers
  import opened Firewall
  import opened FirewallRuns

  class Machine {
    var table: Table
    var pending: Option<Table>
    var pendingHash: Option<Hash>
    var applied: Option<Hash>
    var reverted: Option<Hash>
    var repairs: nat
    var timer: bool
    var service: bool
    ghost var loaded: seq<Hash>

    ghost function State(): Host
      reads this
    {
      Host(table, pending, pendingHash, applied, reverted, repairs, timer, service, loaded)
    }

    constructor (table: Table)
      ensures Initial(World(State(), None)) && this.table == table
    {
      this.table := table;
      pending, pendingHash, applied, reverted := None, None, None, None;
      repairs, timer, service, loaded := 0, false, false, [];
    }

    /** `nixnet_cancel_revert`. */
    method CancelRevert()
      modifies `timer, `service
      ensures State() == Cancelled(old(State()))
    {
      timer := false;
      service := false;
    }

    /** `nixnet_clean_stale_revert`. */
    method CleanStaleRevert(h: Hash)
      modifies `timer, `service, `pending, `pendingHash
      ensures State() == Cleaned(old(State()), h)
    {
      if (pending.Some? || pendingHash.Some?) && (pending.None? || pendingHash.None? || pendingHash.value != h) {
        CancelRevert();
        pending := None;
        pendingHash := None;
      }
    }

    /** `nixnet_ensure_revert`. */
    method EnsureRevert(h: Hash)
      modifies `timer
      ensures timer == (old(timer) || (Matching(old(State()), h) && !service))
    {
      if pending.Some? && pendingHash == Some(h) && !timer && !service {
        timer := true;
      }
    }

    /** `nft -f` of the ruleset. */
    method LoadRuleset(h: Hash, nft: bool) returns (ok: bool)
      modifies `table, `loaded
      ensures ok == nft && table == (if nft then Present(Some(h)) else old(table))
      ensures loaded == if nft then old(loaded) + [h] else old(loaded)
    {
      ok := nft;
      if ok {
        table := Present(Some(h));
        loaded := loaded + [h];
      }
    }

    method ApplyScript(h: Hash, nft: bool) returns (end: Outcome)
      modifies this
      ensures (State(), end) == RunScript(old(State()), Apply, h, nft)
    {
      ghost var x := State();
      CheckingOutcome(x, Apply, h, nft);
      CleanStaleRevert(h);
      if reverted == Some(h) {
        return Refused;
      }
      if table == Present(Some(h)) {
        InForceOutcome(State(), Apply, h, nft);
        applied := Some(h);
        reverted := None;
        EnsureRevert(h);
        return AlreadyInForce;
      }
      SnapshottingOutcome(State(), h, nft);
      CancelRevert();
      if table.Present? {
        pending := Some(table);
        pendingHash := Some(h);
      } else {
        pending := None;
        pendingHash := None;
      }
      ghost var y := State();
      var ok := LoadRuleset(h, nft);
      if !ok {
        assert Finish(y, Script(Apply, h, Enforcing(Load)), false) == (y, Failed);
        return Failed;
      }
      LoadingOutcome(y, Apply, h);
      if table != Present(Some(h)) {
        return Failed;
      }
      applied := Some(h);
      reverted := None;
      if pending.Some? && pendingHash == Some(h) {
        timer := true;
      }
      end := Loaded;
    }

    method ReconcileScript(h: Hash, nft: bool) returns (end: Outcome)
      modifies this
      ensures (State(), end) == RunScript(old(State()), Reconcile, h, nft)
    {
      CheckingOutcome(State(), Reconcile, h, nft);
      CleanStaleRevert(h);
      if reverted == Some(h) {
        return Refused;
      }
      ghost var y := State();
      if table == Present(Some(h)) {
        InForceOutcome(y, Reconcile, h, nft);
        applied := Some(h);
        reverted := None;
        EnsureRevert(h);
        return AlreadyInForce;
      }
      assert Finish(y, Script(Reconcile, h, Checking(IsInForce)), nft)
             == Finish(y, Script(Reconcile, h, Enforcing(Load)), nft);
      var ok := LoadRuleset(h, nft);
      if !ok {
        assert Finish(y, Script(Reconcile, h, Enforcing(Load)), false) == (y, Failed);
        return Failed;
      }
      LoadingOutcome(y, Reconcile, h);
      if table != Present(Some(h)) {
        return Failed;
      }
      applied := Some(h);
      reverted := None;
      EnsureRevert(h);
      repairs := repairs + 1;
      end := Loaded;
    }

    /** Besides its own end: the service is inactive again when the script exits. */
    method RevertScript(h: Hash, nft: bool) returns (end: Outcome)
      modifies this
      ensures (State(), end) == RunScript(old(State()), Revert, h, nft)
    {
      if pending.None? || pendingHash.None? {
        NothingToRevert(State(), h, nft);
        return NothingPending;
      }
      if pendingHash != Some(h) {
        NothingToRevert(State(), h, nft);
        return Refused;
      }
      FailureOutcome(State(), h);
      if pending.value == Present(Some(h)) {
        RestoreInVain(State(), h);
      } else {
        RevertOutcome(State(), h);
      }
      reverted := Some(h);
      if !nft {
        reverted := None;
        return Failed;
      }
      table := pending.value;
      loaded := loaded + MarkersOf(table);
      if table == Present(Some(h)) {
        reverted := None;
        return Failed;
      }
      pending := None;
      pendingHash := None;
      applied := None;
      end := Restored;
    }

    method ConfirmScript(h: Hash) returns (end: Outcome)
      modifies this
      ensures forall nft :: (State(), end) == RunScript(old(State()), Confirm, h, nft)
    {
      forall nft: bool
        ensures RunScript(State(), Confirm, h, nft)
                == (Cancelled(State()).(pending := None, pendingHash := None, reverted := None), Confirmed)
      {
        ConfirmOutcome(State(), h, nft);
      }
      CancelRevert();
      pending := None;
      pendingHash := None;
      reverted := None;
      end := Confirmed;
    }

    method TeardownScript(h: Hash, nft: bool) returns (end: Outcome)
      modifies this
      ensures (State(), end) == RunScript(old(State()), Teardown, h, nft)
    {
      FailureOutcome(State(), h);
      TeardownOutcome(State(), h);
      CancelRevert();
      if !nft {
        return Failed;
      }
      table := Absent;
      if table.Present? {
        return Failed;
      }
      applied := None;
      pending := None;
      pendingHash := None;
      reverted := None;
      end := TornDown;
    }
  }
}
