/** The damping bound of one group carried to the interleaved workers (src/engine/mod.rs). */
module WorkerDamping {
  import opened Wrappers
  import opened Health
  import opened Groups
  import opened Runs
  import opened Workers
  import opened WorkerRuns
  import Damping

  /** What a worker's step is to group `g`. */
  function MoveOf(e: Env, s: Step, g: nat): seq<Damping.Move> {
    if s.w >= |e.jobs| || e.jobs[s.w].0 != g then []
    else match s
      case Record(w, raw, at) => [Damping.Result(e.jobs[w].1, Sanitized(raw, e.isLiteral), at)]
      case DecideNow(_, now) => [Damping.Decision(now)]
      case _ => []
  }

  function Projected(e: Env, moves: seq<Move<Step, World>>, g: nat): seq<Damping.Move> {
    if moves == [] then [] else MoveOf(e, moves[0].step, g) + Projected(e, moves[1..], g)
  }

  /** The instants at which some worker's decision took group `g` off a winner that was still Up. */
  function HealthySwitches(e: Env, x: World, moves: seq<Move<Step, World>>, g: nat): seq<int>
    decreases |moves|
  {
    if moves == [] then []
    else
      var s, n := moves[0].step, moves[0].world;
      (if s.DecideNow? && s.w < |e.jobs| && e.jobs[s.w].0 == g && g < |x.groups| && g < |n.groups|
          && x.groups[g].winner.Some? && IsUp(x.groups[g].transports, x.groups[g].winner.value)
          && n.groups[g].winner != x.groups[g].winner
       then [s.now] else [])
      + HealthySwitches(e, n, moves[1..], g)
  }

  lemma UpdateProjects(e: Env, x: World, s: Step)
    requires Enabled(e, x, s) && (s.Record? || s.DecideNow?)
    ensures var (g, n) := (e.jobs[s.w].0, Next(e, x, s));
            |MoveOf(e, s, g)| == 1 && n.groups == x.groups[g := Damping.Moved(x.groups[g], MoveOf(e, s, g)[0])]
  {
  }

  lemma StepProjects(e: Env, x: World, s: Step, g: nat)
    requires Enabled(e, x, s) && g < |x.groups|
    ensures var n := Next(e, x, s);
            && |n.groups| == |x.groups| && |MoveOf(e, s, g)| <= 1
            && n.groups[g] == if MoveOf(e, s, g) == [] then x.groups[g] else Damping.Moved(x.groups[g], MoveOf(e, s, g)[0])
  {
    if s.Record? || s.DecideNow? {
      UpdateProjects(e, x, s);
    } else {
      GroupsStay(e, x, s);
    }
  }

  lemma {:induction false} SwitchesProject(e: Env, x: World, moves: seq<Move<Step, World>>, g: nat)
    requires IsRun(e, x, moves) && g < |x.groups|
    ensures HealthySwitches(e, x, moves, g) == Damping.Switches(x.groups[g], Projected(e, moves, g))
    decreases |moves|
  {
    if moves != [] {
      var s, n := moves[0].step, moves[0].world;
      assert Follows(e, x, s, n);
      StepProjects(e, x, s, g);
      SwitchesProject(e, n, moves[1..], g);
      var rest := Projected(e, moves[1..], g);
      var all := Projected(e, moves, g);
      if MoveOf(e, s, g) == [] {
        assert all == rest;
      } else {
        var m := MoveOf(e, s, g)[0];
        assert all == [m] + rest && all[1..] == rest;
      }
    }
  }

  /** The group's decisions come in order, within a span from `from` on. */
  predicate Within(ms: seq<Damping.Move>, from: int, span: int) {
    Damping.Ordered(ms, from) && forall i :: 0 <= i < |ms| && ms[i].Decision? ==> ms[i].now <= from + span
  }

  /** Any number of workers, interleaved in any way, any probe results: within a span of T they take a
      group off a still healthy winner at most 1 + floor(T / minHold) times. */
  lemma WorkersAreDamped(e: Env, x: World, moves: seq<Move<Step, World>>, g: nat, from: int, span: nat)
    requires IsRun(e, x, moves) && g < |x.groups| && Valid(x.groups[g])
    requires Damping.Hold(x.groups[g]) > 0 && Within(Projected(e, moves, g), from, span)
    ensures var hold := x.groups[g].cfg.minHoldMs * 1_000_000;
            hold > 0 && |HealthySwitches(e, x, moves, g)| <= 1 + span / hold
  {
    SwitchesProject(e, x, moves, g);
    Damping.DampingBound(x.groups[g], Projected(e, moves, g), from, span);
  }
}
