/** Induction over the runs of a step relation. */
module Runs {
  datatype Move<S, W> = Move(step: S, world: W)

  /** The moves are steps allowed by `ok`, one after the other from `x`. */
  ghost predicate Chain<S(!new), W(!new)>(ok: (W, S, W) -> bool, x: W, moves: seq<Move<S, W>>)
    decreases |moves|
  {
    moves != [] ==> ok(x, moves[0].step, moves[0].world) && Chain(ok, moves[0].world, moves[1..])
  }

  function Last<S, W>(x: W, moves: seq<Move<S, W>>): W {
    if moves == [] then x else moves[|moves| - 1].world
  }

  /** Some run from an initial world ends in `x`. */
  ghost predicate Reachable<S(!new), W(!new)>(initial: W -> bool, ok: (W, S, W) -> bool, x: W) {
    exists x0: W, moves: seq<Move<S, W>> :: initial(x0) && Chain(ok, x0, moves) && Last(x0, moves) == x
  }

  /** What every step keeps, and how every step moves on, holds of whole runs. */
  lemma {:induction false} Induct<S(!new), W(!new)>(ok: (W, S, W) -> bool, inv: W -> bool, le: (W, W) -> bool,
                                                    x: W, moves: seq<Move<S, W>>)
    requires inv(x) && Chain(ok, x, moves)
    requires forall a: W, s: S, b: W :: inv(a) && ok(a, s, b) ==> inv(b) && le(a, b)
    requires forall a: W :: le(a, a)
    requires forall a: W, b: W, c: W :: le(a, b) && le(b, c) ==> le(a, c)
    ensures inv(Last(x, moves)) && le(x, Last(x, moves))
    decreases |moves|
  {
    if moves != [] {
      Induct(ok, inv, le, moves[0].world, moves[1..]);
    }
  }

  lemma ReachableKeeps<S(!new), W(!new)>(initial: W -> bool, ok: (W, S, W) -> bool, inv: W -> bool, x: W)
    requires Reachable(initial, ok, x)
    requires forall a: W :: initial(a) ==> inv(a)
    requires forall a: W, s: S, b: W :: inv(a) && ok(a, s, b) ==> inv(b)
    ensures inv(x)
  {
    var x0: W, moves: seq<Move<S, W>> :| initial(x0) && Chain(ok, x0, moves) && Last(x0, moves) == x;
    Induct(ok, inv, (a, b) => true, x0, moves);
  }

  lemma {:induction false} ChainExtends<S(!new), W(!new)>(ok: (W, S, W) -> bool, x: W, moves: seq<Move<S, W>>, m: Move<S, W>)
    requires Chain(ok, x, moves) && ok(Last(x, moves), m.step, m.world)
    ensures Chain(ok, x, moves + [m]) && Last(x, moves + [m]) == m.world
    decreases |moves|
  {
    var all := moves + [m];
    if moves == [] {
      assert all[1..] == [];
    } else {
      ChainExtends(ok, moves[0].world, moves[1..], m);
      assert all[0] == moves[0] && all[1..] == moves[1..] + [m];
    }
  }

  lemma ReachableExtends<S(!new), W(!new)>(initial: W -> bool, ok: (W, S, W) -> bool, x: W, s: S, n: W)
    requires Reachable(initial, ok, x) && ok(x, s, n)
    ensures Reachable(initial, ok, n)
  {
    var x0: W, moves: seq<Move<S, W>> :| initial(x0) && Chain(ok, x0, moves) && Last(x0, moves) == x;
    ChainExtends(ok, x0, moves, Move(s, n));
  }
}
