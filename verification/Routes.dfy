/** Default-route metrics (src/publish/route.rs). The model's assumption about the kernel is the
    one the source states in its header and replays in its tests: a table maps (interface, metric)
    to an optional gateway, `replace` writes that key and `del` removes it. Any command may fail,
    and a failed command may or may not have acted. */
module Routes {
  import opened Arithmetic
  import opened Wrappers
  import opened Groups
  import Health

  datatype Key = Key(iface: string, metric: int)
  type Table = map<Key, Option<string>>

  /** One row of the read-back; a row without a metric sits at priority 0. */
  datatype Route = Route(metric: Option<int>, gateway: Option<string>)

  datatype Command =
    | Replace(iface: string, metric: int, gateway: Option<string>)
    | Del(iface: string, metric: int, gateway: Option<string>)

  datatype RouteChange = RouteChange(iface: string, fromMetric: int, toMetric: int)

  datatype RouteError =
    | ShowFailed(iface: string)
    | NoDefaultRoute(iface: string)
    | CommandFailed(command: Command)

  function MetricOf(r: Route): int {
    if r.metric.Some? then r.metric.value else 0
  }

  function Effect(t: Table, c: Command): Table {
    match c
    case Replace(iface, metric, gateway) => t[Key(iface, metric) := gateway]
    case Del(iface, metric, _) => t - {Key(iface, metric)}
  }

  ghost predicate HasDefault(t: Table, iface: string) {
    exists m: int :: Key(iface, m) in t
  }

  /** No interface that had a default route in `a` is without one in `b`. */
  ghost predicate Keeps(a: Table, b: Table) {
    forall iface :: HasDefault(a, iface) ==> HasDefault(b, iface)
  }

  ghost predicate SameElsewhere(a: Table, b: Table, iface: string) {
    forall k: Key :: k.iface != iface ==> (k in a <==> k in b) && (k in a ==> a[k] == b[k])
  }

  /** Interfaces outside the ranking have the routes they had. */
  ghost predicate UnrankedStay(a: Table, b: Table, cs: seq<Ranked>) {
    forall k: Key :: (forall r :: 0 <= r < |cs| ==> cs[r].interface != k.iface) ==>
      (k in a <==> k in b) && (k in a ==> a[k] == b[k])
  }

  /** What any command may do while `iface` is worked on, and over the whole ranking. */
  ghost predicate Gentle(a: Table, b: Table, iface: string) {
    SameElsewhere(a, b, iface) && Keeps(a, b)
  }

  ghost predicate Spares(a: Table, b: Table, cs: seq<Ranked>) {
    Keeps(a, b) && UnrankedStay(a, b, cs)
  }

  /** Every table recorded from position `from` on. */
  ghost predicate AllSpare(a: Table, history: seq<Table>, from: nat, cs: seq<Ranked>) {
    forall j :: from <= j < |history| ==> Spares(a, history[j], cs)
  }

  ghost predicate AllGentle(a: Table, history: seq<Table>, from: nat, iface: string) {
    forall j :: from <= j < |history| ==> Gentle(a, history[j], iface)
  }

  /** The read-back: one row per default route of the interface, in any order. */
  ghost predicate Lists(rows: seq<Route>, t: Table, iface: string) {
    && (forall a :: 0 <= a < |rows| ==> Key(iface, MetricOf(rows[a])) in t && t[Key(iface, MetricOf(rows[a]))] == rows[a].gateway)
    && (forall a, b :: 0 <= a < b < |rows| ==> MetricOf(rows[a]) != MetricOf(rows[b]))
    && (forall m: int :: Key(iface, m) in t ==> exists a :: 0 <= a < |rows| && MetricOf(rows[a]) == m)
  }

  // -- the intended result ---------------------------------------------------------------

  function Metrics(t: Table, iface: string): set<int> {
    set k | k in t && k.iface == iface :: k.metric
  }

  ghost predicate IsCheapest(t: Table, iface: string, m: int) {
    Key(iface, m) in t && forall m': int :: Key(iface, m') in t ==> m <= m'
  }

  /** The least element, found by descending from `x`. */
  ghost function Least(s: set<int>, x: int): (m: int)
    requires x in s
    ensures m in s && forall y: int :: y in s ==> m <= y
    decreases |s|
  {
    assert forall y: int :: y in s && y != x ==> y in s - {x};
    if exists y: int :: y in s && y < x then
      var y: int :| y in s && y < x;
      Least(s - {x}, y)
    else x
  }

  ghost function Cheapest(t: Table, iface: string): (m: int)
    requires HasDefault(t, iface)
    ensures IsCheapest(t, iface, m)
  {
    var m0: int :| Key(iface, m0) in t;
    assert m0 in Metrics(t, iface);
    var m := Least(Metrics(t, iface), m0);
    assert forall m': int :: Key(iface, m') in t ==> m' in Metrics(t, iface);
    m
  }

  /** The interface's default routes become one, at `metric`, through the gateway of the route the
      kernel was using; an interface without one keeps none. */
  ghost function Moved(t: Table, iface: string, metric: int): Table {
    if !HasDefault(t, iface) then t
    else (map k | k in t && k.iface != iface :: t[k])[Key(iface, metric) := t[Key(iface, Cheapest(t, iface))]]
  }

  ghost predicate InPlace(t: Table, iface: string, metric: int) {
    forall m: int :: Key(iface, m) in t ==> m == metric
  }

  function RankMetric(base: int, step: int, rank: int): int {
    base + rank * step
  }

  ghost function MovedAll(t: Table, cs: seq<Ranked>, base: int, step: int, n: nat): Table
    requires n <= |cs|
  {
    if n == 0 then t
    else Moved(MovedAll(t, cs, base, step, n - 1), cs[n - 1].interface, RankMetric(base, step, n - 1))
  }

  /** The moves a pass makes, in rank order: an interface already in place is not moved. */
  ghost function Moves(t: Table, cs: seq<Ranked>, base: int, step: int, n: nat): seq<RouteChange>
    requires n <= |cs|
  {
    if n == 0 then []
    else
      var p, iface, metric := MovedAll(t, cs, base, step, n - 1), cs[n - 1].interface, RankMetric(base, step, n - 1);
      Moves(t, cs, base, step, n - 1)
      + (if InPlace(p, iface, metric) then [] else
           assert HasDefault(p, iface) by { var m: int :| Key(iface, m) in p && m != metric; }
           [RouteChange(iface, Cheapest(p, iface), metric)])
  }

  /** What a failure-free pass reports: the first healthy interface without any default route. */
  ghost function Missing(t: Table, cs: seq<Ranked>, n: nat): Option<RouteError>
    requires n <= |cs|
  {
    if n == 0 then None
    else if Missing(t, cs, n - 1).Some? then Missing(t, cs, n - 1)
    else if cs[n - 1].healthy && !HasDefault(t, cs[n - 1].interface) then Some(NoDefaultRoute(cs[n - 1].interface))
    else None
  }

  ghost predicate AllInPlace(t: Table, cs: seq<Ranked>, base: int, step: int) {
    forall r :: 0 <= r < |cs| ==> InPlace(t, cs[r].interface, RankMetric(base, step, r))
  }

  // -- the kernel and the publisher ------------------------------------------------------

  /** The kernel's table. `history` records the table after every command. A `reliable` kernel
      fails no command. */
  class Kernel {
    var table: Table
    const reliable: bool
    ghost var history: seq<Table>

    constructor (t: Table, reliable: bool)
      ensures table == t && this.reliable == reliable && history == []
    {
      this.table, this.reliable, this.history := t, reliable, [];
    }

    method Run(c: Command) returns (ok: bool)
      modifies this
      ensures reliable ==> ok
      ensures table == Effect(old(table), c) || (!ok && table == old(table))
      ensures history == old(history) + [table]
    {
      ok := *;
      ok := ok || reliable;
      var acted := *;
      if ok || acted {
        table := Effect(table, c);
      }
      history := history + [table];
    }

    method Show(iface: string) returns (rows: Option<seq<Route>>)
      ensures reliable ==> rows.Some?
      ensures rows.Some? ==> Lists(rows.value, table, iface)
    {
      var fails := *;
      if fails && !reliable {
        return None;
      }
      var found: seq<Route> := [];
      var todo := table.Keys;
      while todo != {}
        invariant todo <= table.Keys
        invariant forall a :: 0 <= a < |found| ==>
                    var k := Key(iface, MetricOf(found[a])); k in table && k !in todo && table[k] == found[a].gateway
        invariant forall a, b :: 0 <= a < b < |found| ==> MetricOf(found[a]) != MetricOf(found[b])
        invariant forall m: int :: Key(iface, m) in table && Key(iface, m) !in todo ==>
                    exists a :: 0 <= a < |found| && MetricOf(found[a]) == m
        decreases |todo|
      {
        var k :| k in todo;
        if k.iface == iface {
          ghost var was := found;
          found := found + [Route(if k.metric == 0 then None else Some(k.metric), table[k])];
          assert MetricOf(found[|was|]) == k.metric;
          assert forall a :: 0 <= a < |was| ==> found[a] == was[a];
        }
        todo := todo - {k};
      }
      rows := Some(found);
    }
  }

  class Publication {
    var changes: seq<RouteChange>
    var error: Option<RouteError>

    constructor ()
      ensures changes == [] && error == None
    {
      changes, error := [], None;
    }

    /** Keeps the first failure. */
    method Fail(e: RouteError)
      modifies this`error
      ensures error == if old(error).Some? then old(error) else Some(e)
    {
      if error.None? {
        error := Some(e);
      }
    }
  }

  /** The table changes only on `iface`, keeps a default route there if it had one, and so does every
      table the commands passed through. */
  twostate predicate Careful(k: Kernel, iface: string)
    reads k
  {
    && |old(k.history)| <= |k.history| && k.history[..|old(k.history)|] == old(k.history)
    && Gentle(old(k.table), k.table, iface)
    && AllGentle(old(k.table), k.history, |old(k.history)|, iface)
  }

  /** The first row of least metric. */
  method MinByMetric(rows: seq<Route>) returns (chosen: Option<Route>)
    ensures chosen.None? <==> rows == []
    ensures chosen.Some? ==> chosen.value in rows && forall r :: r in rows ==> MetricOf(chosen.value) <= MetricOf(r)
  {
    chosen := None;
    var i := 0;
    while i < |rows|
      invariant 0 <= i <= |rows|
      invariant chosen.None? <==> i == 0
      invariant chosen.Some? ==> chosen.value in rows && forall a :: 0 <= a < i ==> MetricOf(chosen.value) <= MetricOf(rows[a])
    {
      if chosen.None? || MetricOf(rows[i]) < MetricOf(chosen.value) {
        chosen := Some(rows[i]);
      }
      i := i + 1;
    }
  }

  lemma ReplaceKeeps(t0: Table, t: Table, c: Command)
    requires c.Replace? && Keeps(t0, t)
    ensures Keeps(t0, Effect(t, c))
  {
    forall iface | HasDefault(t0, iface) ensures HasDefault(Effect(t, c), iface) {
      var m: int :| Key(iface, m) in t;
      assert Key(iface, m) in Effect(t, c);
    }
  }

  lemma KeptByOneRoute(t0: Table, t: Table, iface: string, metric: int)
    requires SameElsewhere(t0, t, iface) && Key(iface, metric) in t
    ensures Keeps(t0, t)
  {
    forall i | HasDefault(t0, i) ensures HasDefault(t, i) {
      if i != iface {
        var m: int :| Key(i, m) in t0;
        assert Key(i, m) in t;
      }
    }
  }

  /** Removes every listed route but the one at `metric`, and goes on past failures. */
  method DeleteOthers(k: Kernel, out: Publication, iface: string, metric: int, rows: seq<Route>, ghost t0: Table)
    requires k as object != out
    requires Key(iface, metric) in k.table && SameElsewhere(t0, k.table, iface)
    requires forall a, b :: 0 <= a < b < |rows| ==> MetricOf(rows[a]) != MetricOf(rows[b])
    requires forall m: int :: Key(iface, m) in k.table ==> m == metric || exists a :: 0 <= a < |rows| && MetricOf(rows[a]) == m
    modifies k, out`error
    ensures |old(k.history)| <= |k.history| && k.history[..|old(k.history)|] == old(k.history)
    ensures SameElsewhere(t0, k.table, iface) && Key(iface, metric) in k.table
    ensures k.table[Key(iface, metric)] == old(k.table)[Key(iface, metric)]
    ensures AllGentle(t0, k.history, |old(k.history)|, iface)
    ensures old(out.error).Some? ==> out.error == old(out.error)
    ensures k.reliable ==> InPlace(k.table, iface, metric) && out.error == old(out.error)
  {
    ghost var h0 := |k.history|;
    var i := 0;
    while i < |rows|
      invariant 0 <= i <= |rows| && h0 <= |k.history| && k.history[..h0] == old(k.history)
      invariant SameElsewhere(t0, k.table, iface) && Key(iface, metric) in k.table
      invariant k.table[Key(iface, metric)] == old(k.table)[Key(iface, metric)]
      invariant AllGentle(t0, k.history, h0, iface)
      invariant old(out.error).Some? ==> out.error == old(out.error)
      invariant k.reliable ==> out.error == old(out.error)
      invariant k.reliable ==> forall m: int :: Key(iface, m) in k.table ==>
                  m == metric || exists a :: i <= a < |rows| && MetricOf(rows[a]) == m
    {
      if MetricOf(rows[i]) != metric {
        var command := Del(iface, MetricOf(rows[i]), rows[i].gateway);
        var ok := k.Run(command);
        KeptByOneRoute(t0, k.table, iface, metric);
        if !ok {
          out.Fail(CommandFailed(command));
        }
      }
      i := i + 1;
    }
  }

  lemma FirstIsGentle(t: Table, history: seq<Table>, h: nat, iface: string)
    requires h < |history| && Gentle(t, history[h], iface) && AllGentle(t, history, h + 1, iface)
    ensures AllGentle(t, history, h, iface)
  {
  }

  /** Runs a `replace`: whatever becomes of it, no default route is lost. */
  method Install(k: Kernel, command: Command) returns (ok: bool)
    requires command.Replace?
    modifies k
    ensures k.reliable ==> ok
    ensures ok ==> k.table == Effect(old(k.table), command)
    ensures Gentle(old(k.table), k.table, command.iface) && k.history == old(k.history) + [k.table]
  {
    ghost var t0 := k.table;
    ok := k.Run(command);
    assert Keeps(t0, t0);
    ReplaceKeeps(t0, t0, command);
  }

  /** Installs the interface's default route at `metric`, and only then deletes the others. A failed
      install is fatal for the interface: deleting would strip its last default route. */
  method Supersede(k: Kernel, out: Publication, iface: string, metric: int, existing: seq<Route>, chosen: Route)
    requires k as object != out
    requires Lists(existing, k.table, iface) && chosen in existing && MetricOf(chosen) == Cheapest(k.table, iface)
    modifies k, out
    ensures Careful(k, iface) && |old(k.history)| < |k.history|
    ensures old(out.error).Some? ==> out.error == old(out.error)
    ensures k.reliable ==>
              && k.table == Moved(old(k.table), iface, metric)
              && out.changes == old(out.changes) + [RouteChange(iface, MetricOf(chosen), metric)]
              && out.error == old(out.error)
  {
    ghost var t0, h0 := k.table, |k.history|;
    var command := Replace(iface, metric, chosen.gateway);
    var ok := Install(k, command);
    ghost var t1 := k.table;
    if !ok {
      out.Fail(CommandFailed(command));
      return;
    }
    out.changes := out.changes + [RouteChange(iface, MetricOf(chosen), metric)];
    DeleteOthers(k, out, iface, metric, existing, t0);
    KeptByOneRoute(t0, k.table, iface, metric);
    assert k.history[..h0 + 1][h0] == t1;
    FirstIsGentle(t0, k.history, h0, iface);
    if k.reliable {
      assert Key(iface, MetricOf(chosen)) in t0;
      MovedIs(t0, k.table, iface, metric);
    }
  }

  /** Moves the interface's default route to `metric`, writing nothing when it already is there. */
  method Reprioritize(k: Kernel, out: Publication, iface: string, metric: int, healthy: bool)
    requires k as object != out
    modifies k, out
    ensures Careful(k, iface)
    ensures old(out.error).Some? ==> out.error == old(out.error)
    ensures k.reliable ==>
              && k.table == Moved(old(k.table), iface, metric)
              && (InPlace(old(k.table), iface, metric) <==> k.history == old(k.history))
              && out.changes == old(out.changes)
                                + (if InPlace(old(k.table), iface, metric) then []
                                   else [RouteChange(iface, Cheapest(old(k.table), iface), metric)])
              && (old(out.error).None? ==>
                    out.error == if healthy && !HasDefault(old(k.table), iface) then Some(NoDefaultRoute(iface)) else None)
  {
    var shown := k.Show(iface);
    if shown.None? {
      out.Fail(ShowFailed(iface));
      return;
    }
    var existing := shown.value;
    var chosen := MinByMetric(existing);
    if chosen.None? {
      assert InPlace(k.table, iface, metric) && !HasDefault(k.table, iface);
      if healthy {
        out.Fail(NoDefaultRoute(iface));
      }
      return;
    }
    ChosenIsCheapest(k.table, iface, existing, chosen.value);
    if |existing| == 1 && MetricOf(chosen.value) == metric {
      SingleInPlace(k.table, iface, metric, existing);
      return;
    }
    NotInPlace(k.table, iface, metric, existing, chosen.value);
    Supersede(k, out, iface, metric, existing, chosen.value);
  }

  lemma ChosenIsCheapest(t: Table, iface: string, rows: seq<Route>, chosen: Route)
    requires Lists(rows, t, iface) && chosen in rows && forall r :: r in rows ==> MetricOf(chosen) <= MetricOf(r)
    ensures HasDefault(t, iface) && Cheapest(t, iface) == MetricOf(chosen) && Key(iface, MetricOf(chosen)) in t
    ensures t[Key(iface, MetricOf(chosen))] == chosen.gateway
  {
    assert Key(iface, MetricOf(chosen)) in t;
    var c := Cheapest(t, iface);
    var a :| 0 <= a < |rows| && MetricOf(rows[a]) == c;
    assert rows[a] in rows;
  }

  lemma SingleInPlace(t: Table, iface: string, metric: int, rows: seq<Route>)
    requires Lists(rows, t, iface) && |rows| == 1 && MetricOf(rows[0]) == metric
    ensures InPlace(t, iface, metric) && Moved(t, iface, metric) == t
  {
    assert Key(iface, metric) in t;
    assert Cheapest(t, iface) == metric;
    forall k | k in t ensures k in Moved(t, iface, metric) && Moved(t, iface, metric)[k] == t[k] {
      if k.iface == iface {
        assert k == Key(iface, k.metric);
      }
    }
  }

  lemma NotInPlace(t: Table, iface: string, metric: int, rows: seq<Route>, chosen: Route)
    requires Lists(rows, t, iface) && chosen in rows && !(|rows| == 1 && MetricOf(chosen) == metric)
    ensures !InPlace(t, iface, metric)
  {
    assert Key(iface, MetricOf(rows[0])) in t;
    if |rows| > 1 {
      assert Key(iface, MetricOf(rows[1])) in t;
    }
  }

  /** A table that differs on the interface only, and there holds the one route intended. */
  lemma MovedIs(t: Table, n: Table, iface: string, metric: int)
    requires HasDefault(t, iface) && SameElsewhere(t, n, iface) && InPlace(n, iface, metric)
    requires Key(iface, metric) in n && n[Key(iface, metric)] == t[Key(iface, Cheapest(t, iface))]
    ensures n == Moved(t, iface, metric)
  {
    var m := Moved(t, iface, metric);
    forall k: Key ensures (k in n <==> k in m) && (k in n ==> n[k] == m[k]) {
      if k.iface == iface {
        assert k == Key(iface, k.metric);
      }
    }
  }

  lemma KeepsTransitive(a: Table, b: Table, c: Table)
    requires Keeps(a, b) && Keeps(b, c)
    ensures Keeps(a, c)
  {
  }

  lemma GentleSpares(t0: Table, t1: Table, t: Table, cs: seq<Ranked>, r: nat)
    requires r < |cs| && Spares(t0, t1, cs) && Gentle(t1, t, cs[r].interface)
    ensures Spares(t0, t, cs)
  {
    KeepsTransitive(t0, t1, t);
  }

  lemma StillSpare(t0: Table, t1: Table, history: seq<Table>, h0: nat, h1: nat, cs: seq<Ranked>, r: nat)
    requires h0 <= h1 <= |history| && r < |cs| && Spares(t0, t1, cs)
    requires AllSpare(t0, history[..h1], h0, cs) && AllGentle(t1, history, h1, cs[r].interface)
    ensures AllSpare(t0, history, h0, cs)
  {
    forall j | h0 <= j < |history| ensures Spares(t0, history[j], cs) {
      if j >= h1 {
        GentleSpares(t0, t1, history[j], cs, r);
      } else {
        assert history[..h1][j] == history[j];
      }
    }
  }

  lemma {:induction false} NoneAppears(t: Table, cs: seq<Ranked>, base: int, step: int, n: nat, iface: string)
    requires n <= |cs|
    ensures HasDefault(MovedAll(t, cs, base, step, n), iface) <==> HasDefault(t, iface)
  {
    if n > 0 {
      NoneAppears(t, cs, base, step, n - 1, iface);
      var p, q := MovedAll(t, cs, base, step, n - 1), MovedAll(t, cs, base, step, n);
      MovedShape(p, cs[n - 1].interface, RankMetric(base, step, n - 1));
      if iface != cs[n - 1].interface {
        assert forall m: int :: Key(iface, m).iface == iface && (Key(iface, m) in p <==> Key(iface, m) in q);
      }
    }
  }

  /** Reprioritizes every ranked interface in turn, going on past a failed one. At every
      intermediate command, and for any pattern of failures, no interface that had a default route
      is without one and unranked interfaces have the routes they had; and without failures the result is
      the intended one. */
  method Apply(k: Kernel, candidates: seq<Ranked>, base: int, step: int) returns (out: Publication)
    modifies k
    ensures fresh(out)
    ensures |old(k.history)| <= |k.history| && k.history[..|old(k.history)|] == old(k.history)
    ensures Spares(old(k.table), k.table, candidates)
    ensures AllSpare(old(k.table), k.history, |old(k.history)|, candidates)
    ensures k.reliable ==>
              && k.table == MovedAll(old(k.table), candidates, base, step, |candidates|)
              && out.changes == Moves(old(k.table), candidates, base, step, |candidates|)
              && out.error == Missing(old(k.table), candidates, |candidates|)
    ensures k.reliable && AllInPlace(old(k.table), candidates, base, step) ==>
              k.history == old(k.history) && k.table == old(k.table) && out.changes == []
  {
    out := new Publication();
    ghost var t0, h0 := k.table, |k.history|;
    var i := 0;
    while i < |candidates|
      invariant 0 <= i <= |candidates| && h0 <= |k.history| && k.history[..h0] == old(k.history)
      invariant Spares(t0, k.table, candidates)
      invariant AllSpare(t0, k.history, h0, candidates)
      invariant k.reliable ==>
                  && k.table == MovedAll(t0, candidates, base, step, i)
                  && out.changes == Moves(t0, candidates, base, step, i)
                  && out.error == Missing(t0, candidates, i)
      invariant k.reliable && AllInPlace(t0, candidates, base, step) ==>
                  k.history == old(k.history) && k.table == t0 && out.changes == []
    {
      ghost var t1, h1 := k.table, |k.history|;
      var c := candidates[i];
      NoneAppears(t0, candidates, base, step, i, c.interface);
      Reprioritize(k, out, c.interface, RankMetric(base, step, i), c.healthy);
      GentleSpares(t0, t1, k.table, candidates, i);
      StillSpare(t0, t1, k.history, h0, h1, candidates, i);
      if k.reliable && AllInPlace(t0, candidates, base, step) {
        MovedInPlace(t0, c.interface, RankMetric(base, step, i));
      }
      i := i + 1;
    }
  }

  lemma MovedInPlace(t: Table, iface: string, metric: int)
    requires InPlace(t, iface, metric)
    ensures Moved(t, iface, metric) == t
  {
    if HasDefault(t, iface) {
      var m: int :| Key(iface, m) in t;
      MovedIs(t, t, iface, metric);
    }
  }

  // -- what the intended result is -------------------------------------------------------

  lemma MovedShape(t: Table, iface: string, metric: int)
    ensures SameElsewhere(t, Moved(t, iface, metric), iface)
    ensures HasDefault(t, iface) ==>
              Key(iface, metric) in Moved(t, iface, metric) && InPlace(Moved(t, iface, metric), iface, metric)
              && Moved(t, iface, metric)[Key(iface, metric)] == t[Key(iface, Cheapest(t, iface))]
    ensures !HasDefault(t, iface) ==> !HasDefault(Moved(t, iface, metric), iface)
  {
  }

  lemma {:induction false} UntouchedSoFar(t: Table, cs: seq<Ranked>, base: int, step: int, n: nat, iface: string)
    requires n <= |cs| && forall r :: 0 <= r < n ==> cs[r].interface != iface
    ensures forall m: int :: (Key(iface, m) in t <==> Key(iface, m) in MovedAll(t, cs, base, step, n))
                             && (Key(iface, m) in t ==> t[Key(iface, m)] == MovedAll(t, cs, base, step, n)[Key(iface, m)])
  {
    if n > 0 {
      UntouchedSoFar(t, cs, base, step, n - 1, iface);
      var p := MovedAll(t, cs, base, step, n - 1);
      MovedShape(p, cs[n - 1].interface, RankMetric(base, step, n - 1));
      forall m: int ensures (Key(iface, m) in t <==> Key(iface, m) in MovedAll(t, cs, base, step, n))
                            && (Key(iface, m) in t ==> t[Key(iface, m)] == MovedAll(t, cs, base, step, n)[Key(iface, m)]) {
        var k := Key(iface, m);
        assert k.iface != cs[n - 1].interface;
      }
    }
  }

  /** Rank `r`'s interface ends with exactly one default route, at its metric, through the gateway
      of its previously cheapest route; or with none if it had none. */
  ghost predicate SettledAt(t: Table, n: Table, iface: string, metric: int) {
    if HasDefault(t, iface) then
      Key(iface, metric) in n && InPlace(n, iface, metric) && n[Key(iface, metric)] == t[Key(iface, Cheapest(t, iface))]
    else !HasDefault(n, iface)
  }

  lemma {:induction false} RankSettles(t: Table, cs: seq<Ranked>, base: int, step: int, n: nat, r: nat)
    requires Distinct(cs) && r < n <= |cs|
    ensures SettledAt(t, MovedAll(t, cs, base, step, n), cs[r].interface, base + r * step)
  {
    var p, iface, metric := MovedAll(t, cs, base, step, n - 1), cs[n - 1].interface, RankMetric(base, step, n - 1);
    MovedShape(p, iface, metric);
    if r == n - 1 {
      UntouchedSoFar(t, cs, base, step, n - 1, iface);
      if m: int :| Key(iface, m) in t {
        assert Key(iface, m) in p;
        assert IsCheapest(t, iface, Cheapest(p, iface));
        assert Cheapest(t, iface) == Cheapest(p, iface);
      }
    } else {
      RankSettles(t, cs, base, step, n - 1, r);
      var k := Key(cs[r].interface, RankMetric(base, step, r));
      assert k.iface != iface;
      forall m: int | Key(cs[r].interface, m) in MovedAll(t, cs, base, step, n) ensures Key(cs[r].interface, m) in p {
        assert Key(cs[r].interface, m).iface != iface;
      }
    }
  }

  /** A settled table is settled: an immediate second pass finds every interface in place, so it
      issues no command at all. */
  lemma SecondPassIsSilent(t: Table, cs: seq<Ranked>, base: int, step: int)
    requires Distinct(cs)
    ensures AllInPlace(MovedAll(t, cs, base, step, |cs|), cs, base, step)
  {
    forall r | 0 <= r < |cs| ensures InPlace(MovedAll(t, cs, base, step, |cs|), cs[r].interface, RankMetric(base, step, r)) {
      RankSettles(t, cs, base, step, |cs|, r);
    }
  }

  lemma MetricsAscend(base: int, step: int, a: int, b: int)
    requires step > 0 && a < b
    ensures base + a * step < base + b * step
  {
    ScaleKeepsOrder(a + 1, b, step);
    assert (a + 1) * step == a * step + step;
  }

  /** The metrics of `n` ranks are pairwise distinct and ascend with the rank. */
  ghost predicate MetricsDiffer(base: int, step: int, n: nat) {
    forall p, q :: 0 <= p < q < n ==> base + p * step < base + q * step
  }

  /** Every ranked interface has settled at its rank's metric. */
  ghost predicate AllSettled(t: Table, n: Table, cs: seq<Ranked>, base: int, step: int) {
    forall r :: 0 <= r < |cs| ==> SettledAt(t, n, cs[r].interface, base + r * step)
  }

  lemma AllAscend(base: int, step: int, n: nat)
    requires step > 0
    ensures MetricsDiffer(base, step, n)
  {
    forall p, q | 0 <= p < q < n ensures base + p * step < base + q * step {
      MetricsAscend(base, step, p, q);
    }
  }

  lemma AllSettle(t: Table, cs: seq<Ranked>, base: int, step: int)
    requires Distinct(cs)
    ensures AllSettled(t, MovedAll(t, cs, base, step, |cs|), cs, base, step)
  {
    forall r | 0 <= r < |cs| ensures SettledAt(t, MovedAll(t, cs, base, step, |cs|), cs[r].interface, base + r * step) {
      RankSettles(t, cs, base, step, |cs|, r);
    }
  }

  // -- end to end: from a decision to the kernel's table ---------------------------------

  /** For any uplink group, any starting table and one failure-free reconcile: every ranked
      interface that had a default route has exactly one, at its rank's metric and through its
      previously cheapest gateway, so that a second pass issues no command; interfaces over which no
      transport runs are untouched; the winner's interface is strictly cheapest; and every interface
      with an Up transport is strictly cheaper than every interface without. */
  lemma UplinkEndToEnd(v: View, now: int, t: Table)
    requires Valid(v) && v.cfg.kind == Uplink && v.cfg.metricStep > 0
    requires Decide(v, now).1.PublishUplink?
    ensures var (n, a) := Decide(v, now);
            var after := MovedAll(t, a.ranked, a.base, a.step, |a.ranked|);
            && Distinct(a.ranked) && n.winner.Some?
            && AllInPlace(after, a.ranked, a.base, a.step)
            && a.ranked == UplinkRanking(n) && a.base == v.cfg.metricBase && a.step == v.cfg.metricStep
            && AllSettled(t, after, a.ranked, a.base, a.step) && MetricsDiffer(a.base, a.step, |a.ranked|)
            && (forall k: Key :: (forall i :: 0 <= i < |v.transports| ==> v.transports[i].spec.interface != k.iface) ==>
                  (k in t <==> k in after) && (k in t ==> t[k] == after[k]))
            && (forall p, q :: 0 <= p < |a.ranked| && 0 <= q < |a.ranked| && a.ranked[p].healthy && !a.ranked[q].healthy ==>
                  p < q)
            && (forall x :: x in a.ranked ==>
                  (x.healthy <==> exists i: nat :: IsUp(v.transports, i) && v.transports[i].spec.interface == x.interface))
            && (n.transports[n.winner.value].spec.interface != "" ==>
                  a.ranked[0].interface == n.transports[n.winner.value].spec.interface)
  {
    var (n, a) := Decide(v, now);
    var cs := a.ranked;
    DecisionFrame(v, now);
    UplinkAsserts(v, now);
    RankingInvariant(n);
    AllSettle(t, cs, a.base, a.step);
    SecondPassIsSilent(t, cs, a.base, a.step);
    AllAscend(a.base, a.step, |cs|);
    UndeclaredStay(t, n, a.base, a.step);
  }

  lemma UndeclaredStay(t: Table, v: View, base: int, step: int)
    requires Valid(v)
    ensures var cs := UplinkRanking(v);
            var after := MovedAll(t, cs, base, step, |cs|);
            forall k: Key :: (forall i :: 0 <= i < |v.transports| ==> v.transports[i].spec.interface != k.iface) ==>
              (k in t <==> k in after) && (k in t ==> t[k] == after[k])
  {
    var cs := UplinkRanking(v);
    forall k: Key | forall i :: 0 <= i < |v.transports| ==> v.transports[i].spec.interface != k.iface
      ensures var after := MovedAll(t, cs, base, step, |cs|);
              (k in t <==> k in after) && (k in t ==> t[k] == after[k])
    {
      forall r | 0 <= r < |cs| ensures cs[r].interface != k.iface {
        RankedIsDeclared(v, cs[r]);
      }
      UntouchedSoFar(t, cs, base, step, |cs|, k.iface);
      assert k == Key(k.iface, k.metric);
    }
  }

  lemma RankedIsDeclared(v: View, x: Ranked)
    requires Valid(v) && x in UplinkRanking(v)
    ensures exists i :: 0 <= i < |v.transports| && v.transports[i].spec.interface == x.interface
  {
    var order := [v.winner.value] + Others(v.transports, |v.transports|, v.winner.value);
    PublishableNames(v.transports, order, {}, x);
  }

  lemma {:induction false} PublishableNames(ts: seq<Health.Transport>, order: seq<nat>, seen: set<string>, x: Ranked)
    requires InRange(ts, order) && x in Publishable(ts, order, seen)
    ensures exists i :: 0 <= i < |ts| && ts[i].spec.interface == x.interface
  {
    var iface := ts[order[0]].spec.interface;
    if iface == "" || iface in seen {
      PublishableNames(ts, order[1..], seen, x);
    } else if x != Ranked(iface, IsUp(ts, order[0])) {
      PublishableNames(ts, order[1..], seen + {iface}, x);
    }
  }
}
