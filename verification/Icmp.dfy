/** The ICMPv4 echo codec and the Internet checksum (src/probe/icmp.rs).
    Bytes are integers below 256; the Rust `u32` accumulator is modelled with its
    release-build wrap-around, and a theorem says up to which length it cannot wrap. */
module Icmp {
  import opened Wrappers

  type Byte = x: int | 0 <= x < 0x100
  type U16 = x: int | 0 <= x < 0x1_0000

  const U32_RANGE := 0x1_0000_0000
  const ECHO_REQUEST: Byte := 8
  const ECHO_REPLY: Byte := 0
  const HEADER_LEN := 8
  /** The longest input whose 16-bit words cannot overflow the accumulator. */
  const SAFE_LEN := 131074

  /** A big-endian 16-bit word. */
  function Word(hi: Byte, lo: Byte): (w: U16)
    ensures w / 0x100 == hi && w % 0x100 == lo
  {
    var h: int := hi;
    h * 0x100 + lo
  }

  /** The plain sum of the big-endian words, an odd last byte padded on the right. */
  function WordSum(d: seq<Byte>): nat {
    if |d| == 0 then 0
    else if |d| == 1 then Word(d[0], 0)
    else Word(d[0], d[1]) + WordSum(d[2..])
  }

  /** Section 1 of RFC 1071: one's complement addition is addition with end-around carry. */
  function OnesAdd(a: U16, b: U16): U16 {
    if a + b > 0xffff then a + b - 0xffff else a + b
  }

  /** The one's complement sum of section 1 of RFC 1071, word by word. */
  function OnesSum(d: seq<Byte>): U16 {
    if |d| == 0 then 0
    else if |d| == 1 then Word(d[0], 0)
    else OnesAdd(Word(d[0], d[1]), OnesSum(d[2..]))
  }

  function Carried(k: int): int {
    0xffff * k
  }

  /** `a` is reached from `b` by moving whole carries: they agree modulo 65535. */
  ghost predicate Congruent(a: int, b: int) {
    exists k :: a + Carried(k) == b
  }

  /** What the carry-folding loop computes. */
  function Fold(s: nat): U16 {
    if s < 0x1_0000 then s else Fold(s % 0x1_0000 + s / 0x1_0000)
  }

  /** Folding keeps the sum modulo 65535, with 0 kept apart from 65535. */
  lemma {:induction false} FoldKeepsResidue(s: nat)
    ensures Congruent(Fold(s), s)
    ensures Fold(s) == 0 <==> s == 0
  {
    if s < 0x1_0000 {
      assert s + Carried(0) == s;
    } else {
      var hi := s / 0x1_0000;
      var once := s % 0x1_0000 + hi;
      FoldKeepsResidue(once);
      var k :| Fold(once) + Carried(k) == once;
      assert Fold(s) + Carried(k + hi) == s;
    }
  }

  /** Two representatives of one residue agree once zero is told apart from 65535. */
  lemma SameResidue(a: U16, b: U16, s: int)
    requires Congruent(a, s) && Congruent(b, s) && (a == 0 <==> b == 0)
    ensures a == b
  {
    var j :| a + Carried(j) == s;
    var k :| b + Carried(k) == s;
    assert a - b == 0xffff * (k - j);
  }

  lemma {:induction false} OnesSumResidue(d: seq<Byte>)
    ensures Congruent(OnesSum(d), WordSum(d))
    ensures OnesSum(d) == 0 <==> WordSum(d) == 0
  {
    if |d| <= 1 {
      assert OnesSum(d) + Carried(0) == WordSum(d);
    } else {
      OnesSumResidue(d[2..]);
      var k :| OnesSum(d[2..]) + Carried(k) == WordSum(d[2..]);
      var carry := if Word(d[0], d[1]) + OnesSum(d[2..]) > 0xffff then 1 else 0;
      assert OnesSum(d) + Carried(k + carry) == WordSum(d);
    }
  }

  lemma {:induction false} WordSumBound(d: seq<Byte>)
    ensures WordSum(d) <= (|d| + 1) / 2 * 0xffff
    ensures |d| % 2 == 1 ==> WordSum(d) <= (|d| + 1) / 2 * 0xffff - 0xff
  {
    if |d| > 1 {
      WordSumBound(d[2..]);
    }
  }

  /** Up to SAFE_LEN bytes the 32-bit accumulator never wraps. */
  lemma AccumulatorCannotOverflow(d: seq<Byte>)
    requires |d| <= SAFE_LEN
    ensures WordSum(d) < U32_RANGE
  {
    WordSumBound(d);
  }

  /** The bound is tight: every longer all-ones buffer overflows the accumulator. */
  lemma SafeLenIsTight(d: seq<Byte>)
    requires |d| > SAFE_LEN && forall i :: 0 <= i < |d| ==> d[i] == 0xff
    ensures WordSum(d) >= U32_RANGE
  {
    AllOnesSum(d);
  }

  lemma {:induction false} AllOnesSum(d: seq<Byte>)
    requires forall i :: 0 <= i < |d| ==> d[i] == 0xff
    ensures WordSum(d) == |d| / 2 * 0xffff + |d| % 2 * 0xff00
  {
    if |d| > 1 {
      AllOnesSum(d[2..]);
    }
  }

  /** The value of the whole routine, wrap-around included. */
  function Checksum(d: seq<Byte>): U16 {
    0xffff - Fold(WordSum(d) % U32_RANGE)
  }

  /** The routine refines the standard's definition on every input it can hold. */
  lemma ChecksumIsOnesComplement(d: seq<Byte>)
    requires |d| <= SAFE_LEN
    ensures Checksum(d) == 0xffff - OnesSum(d)
  {
    AccumulatorCannotOverflow(d);
    WrappedSum(WordSum(d), WordSum(d), 0);
    OnesSumResidue(d);
    FoldKeepsResidue(WordSum(d));
    SameResidue(Fold(WordSum(d)), OnesSum(d), WordSum(d));
  }

  lemma WrappedSum(s: nat, low: nat, wraps: int)
    requires low < U32_RANGE && s == low + U32_RANGE * wraps
    ensures s % U32_RANGE == low
  {
  }

  method InternetChecksum(data: seq<Byte>) returns (c: U16)
    ensures c == Checksum(data)
    ensures |data| <= SAFE_LEN ==> c == 0xffff - OnesSum(data)
  {
    var sum: nat := 0;
    ghost var wraps := 0;
    var i := 0;
    while i + 1 < |data|
      invariant 0 <= i <= |data| && sum < U32_RANGE
      invariant sum + U32_RANGE * wraps + WordSum(data[i..]) == WordSum(data)
    {
      var next := sum + Word(data[i], data[i + 1]);
      assert data[i..][2..] == data[i + 2..];
      sum, wraps, i := next % U32_RANGE, wraps + next / U32_RANGE, i + 2;
    }
    if i < |data| {
      var next := sum + Word(data[i], 0);
      assert data[i..] == [data[i]];
      sum, wraps := next % U32_RANGE, wraps + next / U32_RANGE;
    }
    ghost var total := sum;
    WrappedSum(WordSum(data), total, wraps);
    while sum / 0x1_0000 != 0
      invariant sum < U32_RANGE && Fold(sum) == Fold(total)
      decreases sum
    {
      sum := sum % 0x1_0000 + sum / 0x1_0000;
    }
    c := 0xffff - sum;
    if |data| <= SAFE_LEN {
      ChecksumIsOnesComplement(data);
    }
  }

  /** An echo message on the wire, with `ck` in the checksum field. */
  function Message(ty: Byte, code: Byte, ck: U16, id: U16, sq: U16, data: seq<Byte>): seq<Byte> {
    [ty, code, ck / 0x100, ck % 0x100, id / 0x100, id % 0x100, sq / 0x100, sq % 0x100] + data
  }

  lemma MessageSum(ty: Byte, code: Byte, ck: U16, id: U16, sq: U16, data: seq<Byte>)
    ensures WordSum(Message(ty, code, ck, id, sq, data))
            == Word(ty, code) + ck + id + sq + WordSum(data)
  {
    var m := Message(ty, code, ck, id, sq, data);
    assert m[2..][2..] == m[4..] && m[4..][2..] == m[6..] && m[6..][2..] == data;
    assert WordSum(m) == Word(ty, code) + WordSum(m[2..]);
    assert WordSum(m[2..]) == ck + WordSum(m[4..]);
    assert WordSum(m[4..]) == id + WordSum(m[6..]);
    assert WordSum(m[6..]) == sq + WordSum(data);
  }

  /** The arithmetic core: adding the complement reaches a multiple of 65535 and, since
      65535 divides U32_RANGE - 1, never carries out of the accumulator. */
  lemma ComplementCancels(s: nat, ck: U16)
    requires ck == 0xffff - Fold(s % U32_RANGE)
    ensures Fold((s + ck) % U32_RANGE) == 0xffff
  {
    var low := s % U32_RANGE;
    FoldKeepsResidue(low);
    var k :| Fold(low) + Carried(k) == low;
    assert low + ck == Carried(k + 1) < U32_RANGE;
    WrappedSum(s + ck, low + ck, s / U32_RANGE);
    FoldKeepsResidue(low + ck);
    assert 0xffff + Carried(k) == low + ck;
    SameResidue(Fold(low + ck), 0xffff, low + ck);
  }

  /** Self-verification: the transmitted checksum makes every request sum to zero, whatever its
      identifier, sequence and payload, and even where the accumulator wrapped. */
  lemma RequestVerifies(id: U16, sq: U16, data: seq<Byte>)
    ensures Checksum(Message(ECHO_REQUEST, 0, Checksum(Message(ECHO_REQUEST, 0, 0, id, sq, data)), id, sq, data)) == 0
  {
    var zeroed := Message(ECHO_REQUEST, 0, 0, id, sq, data);
    MessageSum(ECHO_REQUEST, 0, 0, id, sq, data);
    MessageSum(ECHO_REQUEST, 0, Checksum(zeroed), id, sq, data);
    ComplementCancels(WordSum(zeroed), Checksum(zeroed));
  }

  method BuildEchoRequest(id: U16, sq: U16, data: seq<Byte>) returns (buf: seq<Byte>)
    ensures exists ck: U16 :: buf == Message(ECHO_REQUEST, 0, ck, id, sq, data)
    ensures Checksum(buf) == 0
    ensures buf[0] == 8 && buf[1] == 0 && buf[8..] == data
    ensures (buf[4] as int) * 256 + buf[5] == id && (buf[6] as int) * 256 + buf[7] == sq
  {
    buf := [ECHO_REQUEST, 0, 0, 0];
    buf := buf + [id / 0x100, id % 0x100];
    buf := buf + [sq / 0x100, sq % 0x100];
    buf := buf + data;
    assert buf == Message(ECHO_REQUEST, 0, 0, id, sq, data);
    var sum := InternetChecksum(buf);
    buf := buf[2 := sum / 0x100];
    buf := buf[3 := sum % 0x100];
    assert buf == Message(ECHO_REQUEST, 0, sum, id, sq, data);
    RequestVerifies(id, sq, data);
  }

  /** Strips the IPv4 header whose length the low nibble of the first byte gives. */
  function IcmpMessage(data: seq<Byte>): Option<seq<Byte>> {
    if |data| == 0 then None
    else
      var ihl := data[0] % 0x10 * 4;
      if ihl > |data| || |data| - ihl < HEADER_LEN then None else Some(data[ihl..])
  }

  predicate IsOurEchoReply(data: seq<Byte>, id: U16, sq: U16) {
    match IcmpMessage(data)
    case None => false
    case Some(m) =>
      m[0] == ECHO_REPLY && m[1] == 0 && Word(m[4], m[5]) == id && Word(m[6], m[7]) == sq
  }

  /** An IPv4 header as the raw socket delivers it: its own low nibble counts its 32-bit words. */
  predicate IsIpHeader(h: seq<Byte>) {
    |h| > 0 && |h| == h[0] % 0x10 * 4
  }

  /** The reply to a request is the reply for its own (id, seq) pair and for no other,
      behind a header of any length; the request itself is never taken for a reply. */
  lemma ReplyMatchesOnlyItsRequest(header: seq<Byte>, ck: U16, id: U16, sq: U16, data: seq<Byte>, id': U16, sq': U16)
    requires IsIpHeader(header)
    ensures IsOurEchoReply(header + Message(0, 0, ck, id, sq, data), id', sq') <==> id' == id && sq' == sq
    ensures !IsOurEchoReply(header + Message(8, 0, ck, id, sq, data), id', sq')
  {
    forall ty: Byte ensures IcmpMessage(header + Message(ty, 0, ck, id, sq, data)) == Some(Message(ty, 0, ck, id, sq, data)) {
      var m := Message(ty, 0, ck, id, sq, data);
      assert (header + m)[|header|..] == m;
    }
  }

  /** Conversely, whatever is accepted is a reply message for that pair behind the header the
      first byte announces. */
  lemma AcceptedIsAReply(datagram: seq<Byte>, id: U16, sq: U16)
    requires IsOurEchoReply(datagram, id, sq)
    ensures exists ck: U16, data :: datagram[datagram[0] % 0x10 * 4..] == Message(0, 0, ck, id, sq, data)
  {
    var m := IcmpMessage(datagram).value;
    var ck := Word(m[2], m[3]);
    assert m == m[..8] + m[8..];
    assert m[..8] == [m[0], m[1], m[2], m[3], m[4], m[5], m[6], m[7]];
    assert m == Message(ECHO_REPLY, 0, ck, id, sq, m[8..]);
  }
}
