/** How often a group may leave a winner that is still healthy
    (src/engine/mod.rs: the hold window of `decide_action_locked`). */
module Damping {
  import opened Arithmetic
  import opened Wrappers
  import opened Health
  import opened Groups

  /** One daemon run: recorded results and decisions of any workers in any order. */
  datatype Move =
    | Result(idx: nat, result: ProbeResult, at: int)
    | Decision(now: int)

  function Moved(v: View, m: Move): View {
    match m
    case Result(idx, r, at) =>
      if idx < |v.transports| then v.(transports := v.transports[idx := Recorded(v.transports[idx], r, at)]) else v
    case Decision(now) => Decide(v, now).0
  }

  /** The decision leaves a winner that is still Up for another one. */
  predicate LeavesHealthyWinner(v: View, now: int) {
    v.winner.Some? && IsUp(v.transports, v.winner.value) && Decide(v, now).0.winner != v.winner
  }

  /** The instants at which a run left a still healthy winner. */
  function Switches(v: View, moves: seq<Move>): seq<int>
    decreases |moves|
  {
    if moves == [] then []
    else
      var m := moves[0];
      (if m.Decision? && LeavesHealthyWinner(v, m.now) then [m.now] else []) + Switches(Moved(v, m), moves[1..])
  }

  /** Decisions happen at instants from `from` on, in order. */
  predicate Ordered(moves: seq<Move>, from: int) {
    moves != [] ==>
      (moves[0].Decision? ==> from <= moves[0].now)
      && Ordered(moves[1..], if moves[0].Decision? then moves[0].now else from)
  }

  function Hold(v: View): int {
    (if v.cfg.minHoldMs > 0 then v.cfg.minHoldMs else 0) * MILLISECOND
  }

  lemma MovedKeepsShape(v: View, m: Move)
    requires Valid(v)
    ensures Valid(Moved(v, m)) && Hold(Moved(v, m)) == Hold(v)
  {
    if m.Decision? {
      WinnerInvariant(v, m.now);
    }
  }

  /** What one decision does to the start of the hold window. */
  lemma DecisionSince(v: View, now: int)
    requires Valid(v)
    ensures var n := Decide(v, now).0;
            && n.winnerSince in {v.winnerSince, Some(now)}
            && (LeavesHealthyWinner(v, now) ==>
                  n.winnerSince == Some(now)
                  && now - (if v.winnerSince.Some? then v.winnerSince.value else now) >= Hold(v))
  {
    WinnerInvariant(v, now);
  }

  /** With a hold window begun no earlier than `from`, nothing is left before it has passed. */
  lemma {:induction false} NoSwitchWithinHold(v: View, moves: seq<Move>, from: int, start: int)
    requires Valid(v) && Hold(v) > 0 && start <= from && Ordered(moves, from)
    requires v.winnerSince.Some? ==> v.winnerSince.value >= start
    ensures forall t :: t in Switches(v, moves) ==> t >= start + Hold(v)
    decreases |moves|
  {
    if moves != [] {
      var m := moves[0];
      MovedKeepsShape(v, m);
      if m.Decision? {
        DecisionSince(v, m.now);
        NoSwitchWithinHold(Moved(v, m), moves[1..], m.now, start);
      } else {
        NoSwitchWithinHold(Moved(v, m), moves[1..], from, start);
      }
    }
  }

  /** Consecutive switches lie at least the hold window apart. */
  lemma {:induction false} SwitchesAreSpaced(v: View, moves: seq<Move>, from: int)
    requires Valid(v) && Hold(v) > 0 && Ordered(moves, from)
    ensures var s := Switches(v, moves);
            && (s != [] ==> s[0] >= from)
            && forall i :: 0 <= i < |s| - 1 ==> s[i + 1] - s[i] >= Hold(v)
    decreases |moves|
  {
    if moves != [] {
      var m := moves[0];
      MovedKeepsShape(v, m);
      var rest := Switches(Moved(v, m), moves[1..]);
      var from' := if m.Decision? then m.now else from;
      SwitchesAreSpaced(Moved(v, m), moves[1..], from');
      if m.Decision? && LeavesHealthyWinner(v, m.now) {
        DecisionSince(v, m.now);
        NoSwitchWithinHold(Moved(v, m), moves[1..], m.now, m.now);
        assert Switches(v, moves) == [m.now] + rest;
        if rest != [] {
          assert rest[0] in rest;
        }
      } else {
        assert Switches(v, moves) == rest;
      }
    }
  }

  lemma {:induction false} SpacedTotal(s: seq<int>, gap: int)
    requires s != [] && forall i :: 0 <= i < |s| - 1 ==> s[i + 1] - s[i] >= gap
    ensures (|s| - 1) * gap <= s[|s| - 1] - s[0]
  {
    if |s| > 1 {
      SpacedTotal(s[..|s| - 1], gap);
      assert (|s| - 1) * gap == (|s| - 2) * gap + gap;
    }
  }

  lemma CountFromSpan(n: int, gap: int, span: int)
    requires gap > 0 && (n - 1) * gap <= span
    ensures n <= 1 + span / gap
  {
    var q := span / gap;
    assert span < q * gap + gap == (q + 1) * gap;
    if q + 1 <= n - 1 {
      ScaleKeepsOrder(q + 1, n - 1, gap);
    }
  }

  /** The damping bound: in a span of T a group leaves a still healthy winner at most
      1 + floor(T / minHold) times, whatever the probes say and however workers interleave. */
  lemma DampingBound(v: View, moves: seq<Move>, from: int, span: int)
    requires Valid(v) && Hold(v) > 0 && span >= 0 && Ordered(moves, from)
    requires forall i :: 0 <= i < |moves| && moves[i].Decision? ==> moves[i].now <= from + span
    ensures v.cfg.minHoldMs > 0 && |Switches(v, moves)| <= 1 + span / (v.cfg.minHoldMs * 1_000_000)
  {
    var s := Switches(v, moves);
    if s != [] {
      SwitchesAreSpaced(v, moves, from);
      SpacedTotal(s, Hold(v));
      SwitchesAreDecisions(v, moves, s[|s| - 1]);
      CountFromSpan(|s|, Hold(v), span);
    } else {
      CountFromSpan(0, Hold(v), span);
    }
  }

  lemma {:induction false} SwitchesAreDecisions(v: View, moves: seq<Move>, t: int)
    requires t in Switches(v, moves)
    ensures exists i :: 0 <= i < |moves| && moves[i] == Decision(t)
    decreases |moves|
  {
    var m := moves[0];
    if m == Decision(t) {
    } else {
      SwitchesAreDecisions(Moved(v, m), moves[1..], t);
      var i :| 0 <= i < |moves[1..]| && moves[1..][i] == Decision(t);
      assert moves[i + 1] == Decision(t);
    }
  }
}
