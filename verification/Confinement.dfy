/** The exact CIDR cover of an octet band (lib/ruleset.nix), the confinement ranges derived
    from it (modules/firewall.nix) and the group reconciler's own reading of the same bands
    (modules/netbird-group-reconcile.nix). The `"a.b.c"` prefix of an address is constant
    there, so an address is its last octet here. */
module Confinement {
  import opened Arithmetic
  import opened Wrappers

  datatype Band = Band(min: nat, max: nat, name: string)
  datatype Block = Block(start: nat, size: nat)
  datatype Cidr = Cidr(start: nat, prefix: nat)

  /** The width of the block-size list the source writes out: 1, 2, 4, ..., 256. */
  const OCTET_WIDTH := 8

  function Pow2(k: nat): nat {
    if k == 0 then 1 else 2 * Pow2(k - 1)
  }

  /** The left fold over the block sizes 1, 2, ..., 2^width: the last admissible size wins. */
  function LargestBlock(start: nat, remaining: nat, width: nat): nat {
    if width == 0 then 1
    else
      var acc := LargestBlock(start, remaining, width - 1);
      if Fits(start, remaining, Pow2(width)) then Pow2(width) else acc
  }

  predicate Fits(start: nat, remaining: nat, size: nat) {
    size > 0 && size <= remaining && start % size == 0
  }

  lemma {:induction false} Pow2Positive(k: nat)
    ensures Pow2(k) > 0
  {
    if k > 0 {
      Pow2Positive(k - 1);
    }
  }

  /** The recursion of `octetRangeToCidrs`, for a size list of any width. */
  function Cover(start: nat, max: nat, width: nat): seq<Block>
    decreases max - start
  {
    if start > max then []
    else
      LargestBlockBest(start, max - start + 1, width);
      var block := LargestBlock(start, max - start + 1, width);
      [Block(start, block)] + Cover(start + block, max, width)
  }

  ghost predicate Aligned(b: Block, width: nat) {
    b.size > 0 && b.start % b.size == 0 && exists k: nat :: k <= width && b.size == Pow2(k)
  }

  predicate InBlock(b: Block, o: nat) {
    b.start <= o < b.start + b.size
  }

  ghost predicate Covered(bs: seq<Block>, o: nat) {
    exists i :: 0 <= i < |bs| && InBlock(bs[i], o)
  }

  /** The fold picks the largest admissible size. */
  lemma {:induction false} LargestBlockBest(start: nat, remaining: nat, width: nat)
    requires remaining > 0
    ensures Fits(start, remaining, LargestBlock(start, remaining, width))
    ensures Aligned(Block(start, LargestBlock(start, remaining, width)), width)
    ensures forall k: nat :: k <= width && Fits(start, remaining, Pow2(k)) ==> Pow2(k) <= LargestBlock(start, remaining, width)
  {
    if width == 0 {
      assert Pow2(0) == 1;
    } else {
      LargestBlockBest(start, remaining, width - 1);
      Pow2Positive(width - 1);
      var acc := LargestBlock(start, remaining, width - 1);
      var k :| 0 <= k <= width - 1 && acc == Pow2(k);
      if Fits(start, remaining, Pow2(width)) {
        forall k: nat | k <= width ensures Pow2(k) <= Pow2(width) {
          Pow2Monotone(k, width);
        }
      }
    }
  }

  lemma {:induction false} Pow2Monotone(j: nat, k: nat)
    requires j <= k
    ensures Pow2(j) <= Pow2(k)
  {
    if j < k {
      Pow2Monotone(j, k - 1);
    }
  }

  /** The greedy cover is made of aligned blocks inside the band, in ascending disjoint order. */
  lemma {:induction false} CoverIsAligned(start: nat, max: nat, width: nat)
    ensures var bs := Cover(start, max, width);
            && (forall b :: b in bs ==> Aligned(b, width) && start <= b.start && b.start + b.size <= max + 1)
            && (forall i, j :: 0 <= i < j < |bs| ==> bs[i].start + bs[i].size <= bs[j].start)
    decreases max - start
  {
    if start <= max {
      LargestBlockBest(start, max - start + 1, width);
      var block := LargestBlock(start, max - start + 1, width);
      CoverIsAligned(start + block, max, width);
      var bs, rest := Cover(start, max, width), Cover(start + block, max, width);
      assert bs == [Block(start, block)] + rest;
      forall i, j | 0 <= i < j < |bs| ensures bs[i].start + bs[i].size <= bs[j].start {
        assert bs[j] == rest[j - 1];
        assert bs[j] in rest;
        assert i > 0 ==> bs[i] == rest[i - 1];
      }
    }
  }

  /** It covers exactly the band: no octet more and no octet less. */
  lemma {:induction false} CoverIsExact(start: nat, max: nat, width: nat, o: nat)
    ensures Covered(Cover(start, max, width), o) <==> start <= o <= max
    decreases max - start
  {
    if start <= max {
      LargestBlockBest(start, max - start + 1, width);
      var block := LargestBlock(start, max - start + 1, width);
      CoverIsExact(start + block, max, width, o);
      var bs, rest := Cover(start, max, width), Cover(start + block, max, width);
      assert bs == [Block(start, block)] + rest;
      assert forall i :: 0 <= i < |rest| ==> rest[i] == bs[i + 1];
      if start <= o < start + block {
        assert InBlock(bs[0], o);
      }
      if i :| 0 <= i < |rest| && InBlock(rest[i], o) {
        assert InBlock(bs[i + 1], o);
      }
      if i :| 1 <= i < |bs| && InBlock(bs[i], o) {
        assert InBlock(rest[i - 1], o);
      }
    }
  }

  // -- minimality ------------------------------------------------------------------------

  lemma {:induction false} Pow2Splits(j: nat, k: nat)
    requires j <= k
    ensures Pow2(k) == Pow2(j) * Pow2(k - j)
  {
    if j < k {
      Pow2Splits(j, k - 1);
    }
  }

  /** Multiples of one unit are ordered like their factors. */
  lemma ScaledOrder(unit: nat, p: int, lo: int, hi: int)
    requires unit > 0 && unit * p < unit * hi && unit * lo < unit * p + unit
    ensures unit * p + unit <= unit * hi && unit * lo <= unit * p
  {
    ScaleReflectsOrder(p, hi, unit);
    ScaleKeepsOrder(p + 1, hi, unit);
    assert unit * (p + 1) == unit * p + unit;
    ScaleReflectsOrder(lo, p + 1, unit);
    ScaleKeepsOrder(lo, p, unit);
  }

  lemma ExactQuotient(x: nat, d: nat)
    requires d > 0 && x % d == 0
    ensures x == d * (x / d)
  {
  }

  lemma SizeDivides(a: Block, b: Block, width: nat) returns (m: nat)
    requires Aligned(a, width) && Aligned(b, width) && a.size <= b.size
    ensures b.size == a.size * m
  {
    var j: nat :| j <= width && a.size == Pow2(j);
    var k: nat :| k <= width && b.size == Pow2(k);
    if j <= k {
      Pow2Splits(j, k);
      m := Pow2(k - j);
    } else {
      Pow2Monotone(k, j);
      m := 1;
    }
  }

  /** Aligned power-of-two blocks that meet are nested. */
  lemma Laminar(a: Block, b: Block, width: nat, o: nat)
    requires Aligned(a, width) && Aligned(b, width) && a.size <= b.size
    requires InBlock(a, o) && InBlock(b, o)
    ensures b.start <= a.start && a.start + a.size <= b.start + b.size
  {
    var m := SizeDivides(a, b, width);
    var p, q := a.start / a.size, b.start / b.size;
    ExactQuotient(a.start, a.size);
    ExactQuotient(b.start, b.size);
    assert b.start == a.size * m * q;
    NestedMultiples(a.size, m, p, q, o);
  }

  /** Two intervals on a grid and a coarser grid either miss each other or nest. */
  lemma NestedMultiples(u: nat, m: nat, p: nat, q: nat, o: nat)
    requires u * p <= o < u * p + u && u * m * q <= o < u * m * q + u * m
    ensures u * m * q <= u * p && u * p + u <= u * m * q + u * m
  {
    assert u * m * q == u * (m * q);
    assert u * m * q + u * m == u * (m * q + m);
    ScaledOrder(u, p, m * q, m * q + m);
  }

  /** A block list is an exact aligned cover of [start, max]; it may repeat and overlap. */
  ghost predicate ExactCover(bs: seq<Block>, start: nat, max: nat, width: nat) {
    && (forall i :: 0 <= i < |bs| ==> Aligned(bs[i], width))
    && (forall o: nat :: Covered(bs, o) <==> start <= o <= max)
  }

  function From(bs: seq<Block>, bound: nat): seq<Block> {
    if bs == [] then []
    else (if bs[0].start >= bound then [bs[0]] else []) + From(bs[1..], bound)
  }

  lemma {:induction false} FromKeeps(bs: seq<Block>, bound: nat)
    ensures |From(bs, bound)| <= |bs|
    ensures (exists i :: 0 <= i < |bs| && bs[i].start < bound) ==> |From(bs, bound)| < |bs|
    ensures forall b :: b in From(bs, bound) <==> b in bs && b.start >= bound
  {
    if bs != [] {
      FromKeeps(bs[1..], bound);
      assert bs == [bs[0]] + bs[1..];
    }
  }

  /** A block of an exact cover that begins inside the greedy first block ends inside it. */
  lemma BlockBelowNext(bs: seq<Block>, i: nat, start: nat, max: nat, width: nat)
    requires ExactCover(bs, start, max, width) && start <= max && i < |bs|
    ensures var next := start + LargestBlock(start, max - start + 1, width);
            bs[i].start >= start && (bs[i].start < next ==> bs[i].start + bs[i].size <= next)
  {
    var b := bs[i];
    var remaining := max - start + 1;
    LargestBlockBest(start, remaining, width);
    var first := Block(start, LargestBlock(start, remaining, width));
    assert InBlock(b, b.start) && InBlock(b, b.start + b.size - 1);
    assert Covered(bs, b.start) && Covered(bs, b.start + b.size - 1);
    if b.start < start + first.size {
      if b.size <= first.size {
        Laminar(b, first, width, b.start);
      } else {
        Laminar(first, b, width, b.start);
      }
    }
  }

  /** Dropping the blocks that begin inside the greedy first block leaves an exact cover of the rest. */
  lemma RestIsExact(bs: seq<Block>, start: nat, max: nat, width: nat)
    requires ExactCover(bs, start, max, width) && start <= max
    ensures var next := start + LargestBlock(start, max - start + 1, width);
            next > start && |From(bs, next)| < |bs| && ExactCover(From(bs, next), next, max, width)
  {
    LargestBlockBest(start, max - start + 1, width);
    var next := start + LargestBlock(start, max - start + 1, width);
    var rest := From(bs, next);
    FromKeeps(bs, next);
    assert Covered(bs, start);
    var i :| 0 <= i < |bs| && InBlock(bs[i], start);
    assert bs[i].start < next;
    forall i | 0 <= i < |rest| ensures Aligned(rest[i], width) {
      assert rest[i] in bs;
    }
    forall o: nat ensures Covered(rest, o) <==> next <= o <= max {
      if i :| 0 <= i < |rest| && InBlock(rest[i], o) {
        var j :| 0 <= j < |bs| && bs[j] == rest[i];
        assert Covered(bs, o);
      }
      if next <= o <= max {
        assert Covered(bs, o);
        var j :| 0 <= j < |bs| && InBlock(bs[j], o);
        BlockBelowNext(bs, j, start, max, width);
        assert bs[j] in rest;
      }
    }
  }

  /** The greedy cover is as short as any exact aligned cover of the same band. */
  lemma {:induction false} CoverIsShortest(bs: seq<Block>, start: nat, max: nat, width: nat)
    requires ExactCover(bs, start, max, width)
    ensures |Cover(start, max, width)| <= |bs|
    decreases max - start
  {
    if start <= max {
      RestIsExact(bs, start, max, width);
      var next := start + LargestBlock(start, max - start + 1, width);
      CoverIsShortest(From(bs, next), next, max, width);
    }
  }

  // -- the rendered prefixes -------------------------------------------------------------

  /** The table from block size to prefix length. */
  function PrefixLenOf(size: nat): Option<nat> {
    match size
    case 1 => Some(32)
    case 2 => Some(31)
    case 4 => Some(30)
    case 8 => Some(29)
    case 16 => Some(28)
    case 32 => Some(27)
    case 64 => Some(26)
    case 128 => Some(25)
    case 256 => Some(24)
    case _ => None
  }

  /** A prefix matches the addresses that share its leading bits. */
  predicate Matches(c: Cidr, o: nat)
    requires c.prefix <= 32
  {
    Pow2Positive(32 - c.prefix);
    o / Pow2(32 - c.prefix) == c.start / Pow2(32 - c.prefix)
  }

  lemma PrefixOfBlock(b: Block)
    requires Aligned(b, OCTET_WIDTH)
    ensures PrefixLenOf(b.size).Some? && PrefixLenOf(b.size).value <= 32
    ensures Pow2(32 - PrefixLenOf(b.size).value) == b.size
    ensures forall o: nat :: Matches(Cidr(b.start, PrefixLenOf(b.size).value), o) <==> InBlock(b, o)
  {
    var k: nat :| k <= OCTET_WIDTH && b.size == Pow2(k);
    assert k == 0 || k == 1 || k == 2 || k == 3 || k == 4 || k == 5 || k == 6 || k == 7 || k == 8;
    assert Pow2(0) == 1 && Pow2(1) == 2 && Pow2(2) == 4 && Pow2(3) == 8;
    assert Pow2(4) == 16 && Pow2(5) == 32 && Pow2(6) == 64 && Pow2(7) == 128 && Pow2(8) == 256;
    forall o: nat ensures o / b.size == b.start / b.size <==> InBlock(b, o) {
      SameQuotient(b.start, b.size, o);
    }
  }

  lemma SameQuotient(start: nat, size: nat, o: nat)
    requires size > 0 && start % size == 0
    ensures o / size == start / size <==> start <= o < start + size
  {
    var p, q := start / size, o / size;
    assert start == size * p && size * q <= o < size * q + size;
    if q < p {
      ScaleKeepsOrder(q + 1, p, size);
      assert size * (q + 1) == size * q + size;
    } else if q > p {
      ScaleKeepsOrder(p + 1, q, size);
      assert size * (p + 1) == size * p + size;
    }
  }

  /** The rendered CIDRs; every size the cover picks has a row in the prefix table. */
  function Render(bs: seq<Block>): seq<Cidr> {
    seq(|bs|, i requires 0 <= i < |bs| =>
      Cidr(bs[i].start, if PrefixLenOf(bs[i].size).Some? then PrefixLenOf(bs[i].size).value else 0))
  }

  function OctetRangeToCidrs(min: nat, max: nat): seq<Cidr> {
    Render(Cover(min, max, OCTET_WIDTH))
  }

  ghost predicate AnyMatches(cs: seq<Cidr>, o: nat) {
    exists i :: 0 <= i < |cs| && cs[i].prefix <= 32 && Matches(cs[i], o)
  }

  lemma CidrsCoverTheRange(min: nat, max: nat, o: nat)
    ensures AnyMatches(OctetRangeToCidrs(min, max), o) <==> min <= o <= max
  {
    var bs, cs := Cover(min, max, OCTET_WIDTH), OctetRangeToCidrs(min, max);
    CoverIsAligned(min, max, OCTET_WIDTH);
    CoverIsExact(min, max, OCTET_WIDTH, o);
    assert |cs| == |bs|;
    forall i | 0 <= i < |bs| ensures bs[i] in bs && cs[i].prefix <= 32 && (Matches(cs[i], o) <==> InBlock(bs[i], o)) {
      PrefixOfBlock(bs[i]);
    }
    if Covered(bs, o) {
      var i :| 0 <= i < |bs| && InBlock(bs[i], o);
      assert Matches(cs[i], o);
    }
    if AnyMatches(cs, o) {
      var i :| 0 <= i < |cs| && cs[i].prefix <= 32 && Matches(cs[i], o);
      assert InBlock(bs[i], o);
    }
  }

  /** And no exact cover by prefixes down to a /24 is shorter. */
  lemma CidrsAreShortest(bs: seq<Block>, min: nat, max: nat)
    requires ExactCover(bs, min, max, 8)
    ensures |OctetRangeToCidrs(min, max)| <= |bs|
  {
    CoverIsShortest(bs, min, max, 8);
  }

  // -- the derivation and the reconciler -------------------------------------------------

  /** `derivedConfinementRanges`: the covers of every band of the confined name, concatenated. */
  function ConfinementRanges(bands: seq<Band>, name: string): seq<Cidr> {
    if bands == [] then []
    else (if bands[0].name == name then OctetRangeToCidrs(bands[0].min, bands[0].max) else [])
         + ConfinementRanges(bands[1..], name)
  }

  predicate InBand(b: Band, o: nat) {
    b.min <= o <= b.max
  }

  /** The generated shell function: the first matching band's name, or "" for none. */
  function BandOf(bands: seq<Band>, o: nat): string {
    if bands == [] then ""
    else if InBand(bands[0], o) then bands[0].name
    else BandOf(bands[1..], o)
  }

  /** The confined prefixes match exactly the octets lying in some band of the confined name. */
  lemma {:induction false} ConfinementIsExact(bands: seq<Band>, name: string, o: nat)
    ensures AnyMatches(ConfinementRanges(bands, name), o)
            <==> exists i :: 0 <= i < |bands| && bands[i].name == name && InBand(bands[i], o)
  {
    if bands != [] {
      var head := if bands[0].name == name then OctetRangeToCidrs(bands[0].min, bands[0].max) else [];
      var tail := ConfinementRanges(bands[1..], name);
      ConfinementIsExact(bands[1..], name, o);
      CidrsCoverTheRange(bands[0].min, bands[0].max, o);
      MatchesConcat(head, tail, o);
      if j :| 0 <= j < |bands[1..]| && bands[1..][j].name == name && InBand(bands[1..][j], o) {
        assert bands[j + 1] == bands[1..][j];
      }
      if i :| 1 <= i < |bands| && bands[i].name == name && InBand(bands[i], o) {
        assert bands[1..][i - 1] == bands[i];
      }
    }
  }

  lemma MatchesConcat(a: seq<Cidr>, b: seq<Cidr>, o: nat)
    ensures AnyMatches(a + b, o) <==> AnyMatches(a, o) || AnyMatches(b, o)
  {
    if i :| 0 <= i < |a| && a[i].prefix <= 32 && Matches(a[i], o) {
      assert (a + b)[i] == a[i];
    }
    if i :| 0 <= i < |b| && b[i].prefix <= 32 && Matches(b[i], o) {
      assert (a + b)[|a| + i] == b[i];
    }
  }

  lemma {:induction false} BandOfFirstMatch(bands: seq<Band>, o: nat) returns (i: nat)
    requires BandOf(bands, o) != ""
    ensures i < |bands| && InBand(bands[i], o) && bands[i].name == BandOf(bands, o)
    ensures forall j :: 0 <= j < i ==> !InBand(bands[j], o)
  {
    if InBand(bands[0], o) {
      i := 0;
    } else {
      var k := BandOfFirstMatch(bands[1..], o);
      i := k + 1;
      forall j | 0 <= j < i ensures !InBand(bands[j], o) {
        assert j > 0 ==> bands[j] == bands[1..][j - 1];
      }
    }
  }

  /** The direction that must not fail: an octet the reconciler puts in the confined group is
      confined. "" is the reconciler's answer for no band, so it is not a group. */
  lemma AssignedIsConfined(bands: seq<Band>, name: string, o: nat)
    requires name != "" && BandOf(bands, o) == name
    ensures AnyMatches(ConfinementRanges(bands, name), o)
  {
    var i := BandOfFirstMatch(bands, o);
    ConfinementIsExact(bands, name, o);
  }

  lemma {:induction false} FirstMatchExists(bands: seq<Band>, o: nat, j: nat) returns (i: nat)
    requires j < |bands| && InBand(bands[j], o)
    ensures i <= j && InBand(bands[i], o) && bands[i].name == BandOf(bands, o)
    ensures forall k :: 0 <= k < i ==> !InBand(bands[k], o)
  {
    if InBand(bands[0], o) {
      i := 0;
    } else {
      var f := FirstMatchExists(bands[1..], o, j - 1);
      i := f + 1;
      forall k | 0 <= k < i ensures !InBand(bands[k], o) {
        assert k > 0 ==> bands[k] == bands[1..][k - 1];
      }
    }
  }

  /** Where a band of another name overlaps a later one of `name`, an earlier one of `name` holds the
      octet already. */
  ghost predicate Unshadowed(bands: seq<Band>, name: string, o: nat) {
    forall i, j :: 0 <= i < j < |bands| && bands[i].name != name && bands[j].name == name
                   && InBand(bands[i], o) && InBand(bands[j], o)
      ==> exists k :: 0 <= k < i && bands[k].name == name && InBand(bands[k], o)
  }

  ghost predicate AgreeAt(bands: seq<Band>, name: string, o: nat) {
    AnyMatches(ConfinementRanges(bands, name), o) <==> BandOf(bands, o) == name
  }

  /** Firewall and reconciler agree about an octet exactly when no earlier band of another name takes it
      first. */
  lemma AgreementAt(bands: seq<Band>, name: string, o: nat)
    requires name != ""
    ensures AgreeAt(bands, name, o) <==> Unshadowed(bands, name, o)
  {
    ConfinementIsExact(bands, name, o);
    if BandOf(bands, o) == name {
      AssignedIsConfined(bands, name, o);
      var f := BandOfFirstMatch(bands, o);
      forall i, j | 0 <= i < j < |bands| && bands[i].name != name && bands[j].name == name
                    && InBand(bands[i], o) && InBand(bands[j], o)
        ensures exists k :: 0 <= k < i && bands[k].name == name && InBand(bands[k], o)
      {
        assert f < i;
      }
    } else if j :| 0 <= j < |bands| && bands[j].name == name && InBand(bands[j], o) {
      var f := FirstMatchExists(bands, o, j);
      assert f < j && bands[f].name != name && !exists k :: 0 <= k < f && bands[k].name == name && InBand(bands[k], o);
    }
  }

  /** They draw the very same boundary exactly when that holds of every octet. */
  lemma ConfinementAgreesWithReconciler(bands: seq<Band>, name: string)
    requires name != ""
    ensures (forall o: nat :: AgreeAt(bands, name, o)) <==> (forall o: nat :: Unshadowed(bands, name, o))
  {
    forall o: nat ensures AgreeAt(bands, name, o) <==> Unshadowed(bands, name, o) {
      AgreementAt(bands, name, o);
    }
  }

  ghost predicate Disjoint(bands: seq<Band>) {
    forall i, j, o: nat :: 0 <= i < |bands| && 0 <= j < |bands| && InBand(bands[i], o) && InBand(bands[j], o)
      ==> bands[i].name == bands[j].name
  }

  /** In particular when no two bands of different names overlap. */
  lemma DisjointBandsAgree(bands: seq<Band>, name: string, o: nat)
    requires name != "" && Disjoint(bands)
    ensures AgreeAt(bands, name, o)
  {
    AgreementAt(bands, name, o);
  }

  /** Where they differ, it is on the safe side: the first-listed group wins the peer while the firewall
      still confines its address. */
  lemma OverlapConfinesMore()
    ensures var bands := [Band(0, 15, "friends"), Band(8, 31, "external")];
            BandOf(bands, 8) == "friends" && AnyMatches(ConfinementRanges(bands, "external"), 8)
  {
    var bands := [Band(0, 15, "friends"), Band(8, 31, "external")];
    assert bands[1].name == "external" && InBand(bands[1], 8);
    ConfinementIsExact(bands, "external", 8);
  }
}
