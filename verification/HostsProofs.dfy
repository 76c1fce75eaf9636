/** What the managed block guarantees: splitting a published file returns the regions it was
    rendered from, parsing returns the entries, and a declined write means the live file already
    says the same. */
module HostsProofs {
  import opened Wrappers
  import opened Text
  import opened HostsBlock

  // -- the rendered lines ----------------------------------------------------------------

  predicate NoSpaces(s: string) {
    forall i :: 0 <= i < |s| ==> !IsSpace(s[i])
  }

  ghost predicate Inner(l: string) {
    Plain(l) && Trim(l) == l && l != BEGIN_MARKER && l != END_MARKER
  }

  lemma MarkerLines()
    ensures Plain(BEGIN_MARKER) && Plain(END_MARKER)
    ensures Trim(BEGIN_MARKER) == BEGIN_MARKER && Trim(END_MARKER) == END_MARKER
    ensures !Freshness(BEGIN_MARKER) && !Freshness(END_MARKER)
  {
    TrimOfTight(BEGIN_MARKER);
    TrimOfTight(END_MARKER);
    assert BEGIN_MARKER[2] == 'B' && END_MARKER[2] == 'E' && COMMENT[2] == 'n';
    assert TrimStart(BEGIN_MARKER) == BEGIN_MARKER && TrimStart(END_MARKER) == END_MARKER;
  }

  /** A line of the daemon's own comments, ending in a solid character. */
  lemma CommentLine(tail: string)
    requires tail != "" && '\n' !in tail && !IsSpace(tail[|tail| - 1])
    ensures Inner(COMMENT + tail) && Freshness(COMMENT + tail) && (COMMENT + tail)[0] == '#'
    ensures StartsWith(COMMENT + tail, COMMENT) && (COMMENT + tail)[|COMMENT|..] == tail
  {
    var c := COMMENT + tail;
    TrimOfTight(c);
    assert c[2] == COMMENT[2] == 'n';
    assert BEGIN_MARKER[2] == 'B' && END_MARKER[2] == 'E';
  }

  lemma SolidHasNoNewline(s: string)
    requires NoSpaces(s)
    ensures '\n' !in s && ' ' !in s && '\t' !in s
  {
  }

  lemma HeaderLine(writtenAt: string)
    requires NoSpaces(writtenAt)
    ensures var h := COMMENT + "written=" + writtenAt;
            Inner(h) && Freshness(h) && h[0] == '#' && ParseConfirmedComment(h).None?
  {
    var tail := "written=" + writtenAt;
    assert COMMENT + "written=" + writtenAt == COMMENT + tail;
    SolidHasNoNewline(writtenAt);
    CommentLine(tail);
    SplitOnceNone(tail, ' ');
  }

  function ConfirmLine(e: Entry): string
    requires e.confirmed.Some?
  {
    COMMENT + e.address + [' '] + (CONFIRMED + e.confirmed.value)
  }

  lemma ConfirmLineFacts(e: Entry)
    requires ValidEntry(e) && e.confirmed.Some?
    ensures Inner(ConfirmLine(e)) && Freshness(ConfirmLine(e)) && ConfirmLine(e)[0] == '#'
    ensures ParseConfirmedComment(ConfirmLine(e)) == Some((e.address, e.confirmed.value))
  {
    var stamp := CONFIRMED + e.confirmed.value;
    var tail := e.address + [' '] + stamp;
    assert ConfirmLine(e) == COMMENT + tail;
    SolidHasNoNewline(e.address);
    SolidHasNoNewline(e.confirmed.value);
    CommentLine(tail);
    SplitOnceAt(e.address, ' ', stamp);
    assert stamp[|CONFIRMED|..] == e.confirmed.value && stamp[..|CONFIRMED|] == CONFIRMED;
  }

  function AddressLine(e: Entry): string {
    e.address + ['\t'] + Join(e.hostnames)
  }

  lemma AddressLineFacts(e: Entry)
    requires ValidEntry(e)
    ensures Inner(AddressLine(e)) && AddressLine(e)[0] != '#'
    ensures Words(AddressLine(e)) == [e.address] + e.hostnames
  {
    JoinEnds(e.hostnames);
    SolidHasNoNewline(e.address);
    TrimOfTight(AddressLine(e));
    WordsOfTwo(e.address, '\t', Join(e.hostnames));
    WordsOfJoin(e.hostnames);
  }

  ghost predicate AllInner(ls: seq<string>) {
    forall i :: 0 <= i < |ls| ==> Inner(ls[i])
  }

  lemma {:induction false} EntriesLinesInner(es: seq<Entry>)
    requires ValidEntries(es)
    ensures AllInner(EntriesLines(es))
  {
    if es != [] {
      assert ValidEntry(es[0]);
      AddressLineFacts(es[0]);
      if es[0].confirmed.Some? {
        ConfirmLineFacts(es[0]);
        assert EntryLines(es[0]) == [ConfirmLine(es[0]), AddressLine(es[0])];
      } else {
        assert EntryLines(es[0]) == [AddressLine(es[0])];
      }
      EntriesLinesInner(es[1..]);
    }
  }

  /** Every rendered line is plain; only the last one closes the block. */
  lemma BlockLinesShape(es: seq<Entry>, writtenAt: string)
    requires ValidEntries(es) && NoSpaces(writtenAt)
    ensures var ls := BlockLines(es, writtenAt);
            && |ls| >= 3 && ls[0] == BEGIN_MARKER && ls[|ls| - 1] == END_MARKER
            && (forall i :: 0 <= i < |ls| ==> Plain(ls[i]))
            && (forall i :: 0 <= i < |ls| - 1 ==> Trim(ls[i]) != END_MARKER)
  {
    MarkerLines();
    HeaderLine(writtenAt);
    EntriesLinesInner(es);
    var ls, inner := BlockLines(es, writtenAt), EntriesLines(es);
    assert BEGIN_MARKER[2] != END_MARKER[2];
    forall i | 0 <= i < |ls| ensures Plain(ls[i]) && (i < |ls| - 1 ==> Trim(ls[i]) != END_MARKER) {
      if 2 <= i < |ls| - 1 {
        assert ls[i] == inner[i - 2];
      }
    }
  }

  // -- splitting -------------------------------------------------------------------------

  ghost predicate NoMarker(s: string) {
    forall i :: !OccursAt(s, BEGIN_MARKER, i)
  }

  /** A block from its BEGIN marker through its END line, closed by a newline. */
  ghost predicate Terminated(m: string) {
    StartsWith(m, BEGIN_MARKER) && EndsLine(m) && EndOf(SplitInclusive(m)) == Some(|m|)
  }

  lemma {:induction false} EndOfEnded(ls: seq<string>)
    requires ls != [] && Trim(ls[|ls| - 1]) == END_MARKER
    requires forall i :: 0 <= i < |ls| - 1 ==> Trim(ls[i]) != END_MARKER
    ensures EndOf(Ended(ls)) == Some(|Unlines(ls)|)
  {
    var raw := Ended(ls);
    assert raw[0] == ls[0] + ['\n'];
    TrimIgnoresNewline(ls[0]);
    assert Trim(raw[0]) == Trim(ls[0]);
    if |ls| > 1 {
      EndOfEnded(ls[1..]);
      assert raw[1..] == Ended(ls[1..]);
    } else {
      assert Unlines(ls[1..]) == "";
    }
  }

  lemma BlockTerminated(es: seq<Entry>, writtenAt: string)
    requires ValidEntries(es) && NoSpaces(writtenAt)
    ensures Terminated(Block(es, writtenAt))
  {
    var ls := BlockLines(es, writtenAt);
    BlockLinesShape(es, writtenAt);
    MarkerLines();
    RawOfUnlines(ls);
    EndOfEnded(ls);
    UnlinesEnds(ls);
    var tail := ['\n'] + Unlines(ls[1..]);
    assert Block(es, writtenAt) == BEGIN_MARKER + tail;
    assert (BEGIN_MARKER + tail)[..|BEGIN_MARKER|] == BEGIN_MARKER;
  }

  lemma {:induction false} EndOfAppend(a: seq<string>, b: seq<string>)
    requires EndOf(a).Some?
    ensures EndOf(a + b) == EndOf(a)
  {
    if Trim(a[0]) != END_MARKER {
      assert (a + b)[1..] == a[1..] + b;
      EndOfAppend(a[1..], b);
    }
  }

  /** The marker cannot straddle a boundary: it holds its only '#' in front. */
  lemma FindAfterPrefix(p: string, m: string)
    requires NoMarker(p) && StartsWith(m, BEGIN_MARKER)
    ensures Find(p + m, BEGIN_MARKER) == Some(|p|)
  {
    var s := p + m;
    assert s[|p|..|p| + |BEGIN_MARKER|] == m[..|BEGIN_MARKER|];
    assert OccursAt(s, BEGIN_MARKER, |p|);
    forall i | 0 <= i < |p| ensures !OccursAt(s, BEGIN_MARKER, i) {
      if OccursAt(s, BEGIN_MARKER, i) {
        MarkerBeforeMarker(p, m, i);
      }
    }
  }

  lemma MarkerBeforeMarker(p: string, m: string, i: int)
    requires OccursAt(p + m, BEGIN_MARKER, i) && i < |p| && StartsWith(m, BEGIN_MARKER)
    ensures OccursAt(p, BEGIN_MARKER, i)
  {
    var s := p + m;
    if i + |BEGIN_MARKER| <= |p| {
      assert p[i..i + |BEGIN_MARKER|] == s[i..i + |BEGIN_MARKER|];
    } else {
      var k := |p| - i;
      assert s[i..i + |BEGIN_MARKER|][k] == s[|p|] == m[0];
      assert m[0] == m[..|BEGIN_MARKER|][0] == '#';
      HashLeads(k);
    }
  }

  lemma HashLeads(k: int)
    requires 0 < k < |BEGIN_MARKER|
    ensures BEGIN_MARKER[k] != '#'
  {
    assert BEGIN_MARKER == ['#', ' ', 'B', 'E', 'G', 'I', 'N', ' ', 'n', 'i', 'x', 'n', 'e', 't'];
  }

  /** A file made of a prefix without marker, a terminated block and any suffix splits back into
      them, the prefix normalised. */
  lemma SplitOfTerminated(p: string, m: string, s: string)
    requires NoMarker(p) && Terminated(m)
    ensures SplitStatic(p + m + s) == (Normalised(p), s, true)
  {
    var c := p + m + s;
    assert c == p + (m + s);
    assert (m + s)[..|BEGIN_MARKER|] == m[..|BEGIN_MARKER|];
    FindAfterPrefix(p, m + s);
    assert c[..|p|] == p && c[|p|..] == m + s;
    LinesConcat(m, s);
    EndOfAppend(SplitInclusive(m), SplitInclusive(s));
    assert c[|p| + |m|..] == s;
  }

  lemma NormalisedTwice(raw: string)
    ensures Normalised(Normalised(raw)) == Normalised(raw) && EndsLine(Normalised(raw))
  {
    var t, n := TrimNewlines(raw), Normalised(raw);
    if t != "" {
      assert n[..|n| - 1] == t;
      assert TrimNewlines(n) == TrimNewlines(t) == t;
    }
  }

  lemma MarkerBeforeNewline(t: string, i: int)
    requires OccursAt(t + ['\n'], BEGIN_MARKER, i)
    ensures OccursAt(t, BEGIN_MARKER, i)
  {
    var n := t + ['\n'];
    NewlineNotInMarker();
    assert n[i + |BEGIN_MARKER| - 1] == n[i..i + |BEGIN_MARKER|][|BEGIN_MARKER| - 1] == 't';
    assert t[i..i + |BEGIN_MARKER|] == n[i..i + |BEGIN_MARKER|];
  }

  lemma OccursInHead(t: string, s: string, p: string, i: int)
    requires |t| <= |s| && t == s[..|t|] && OccursAt(t, p, i)
    ensures OccursAt(s, p, i)
  {
    assert s[i..i + |p|] == t[i..i + |p|];
  }

  lemma NormalisedNoMarker(raw: string)
    requires NoMarker(raw)
    ensures NoMarker(Normalised(raw))
  {
    var t := TrimNewlines(raw);
    forall i ensures !OccursAt(Normalised(raw), BEGIN_MARKER, i) {
      if OccursAt(Normalised(raw), BEGIN_MARKER, i) {
        MarkerBeforeNewline(t, i);
        OccursInHead(t, raw, BEGIN_MARKER, i);
      }
    }
  }

  lemma NewlineNotInMarker()
    ensures BEGIN_MARKER[|BEGIN_MARKER| - 1] == 't'
  {
  }

  /** The prefix read back never contains the marker and is normalised. */
  lemma PrefixFacts(c: string)
    ensures NoMarker(SplitStatic(c).0) && EndsLine(SplitStatic(c).0)
    ensures Normalised(SplitStatic(c).0) == SplitStatic(c).0
  {
    var b := Find(c, BEGIN_MARKER);
    var raw := if b.Some? then c[..b.value] else c;
    forall i ensures !OccursAt(raw, BEGIN_MARKER, i) {
      if OccursAt(raw, BEGIN_MARKER, i) {
        OccursInHead(raw, c, BEGIN_MARKER, i);
      }
    }
    NormalisedTwice(raw);
    NormalisedNoMarker(raw);
  }

  /** `split_static` of a published file returns exactly the regions it was rendered from. */
  lemma SplitOfRender(p: string, es: seq<Entry>, s: string, writtenAt: string)
    requires NoMarker(p) && Normalised(p) == p && ValidEntries(es) && NoSpaces(writtenAt)
    ensures SplitStatic(Render(p, es, s, writtenAt)) == (p, s, true)
  {
    BlockTerminated(es, writtenAt);
    SplitOfTerminated(p, Block(es, writtenAt), s);
  }

  /** Whatever the live file held, mangled blocks included, the rewritten file splits into the very
      regions the live one did. */
  lemma RewriteKeepsStatic(c: string, es: seq<Entry>, writtenAt: string)
    requires ValidEntries(es) && NoSpaces(writtenAt)
    ensures var (p, s, _) := SplitStatic(c); SplitStatic(Render(p, es, s, writtenAt)) == (p, s, true)
  {
    PrefixFacts(c);
    SplitOfRender(SplitStatic(c).0, es, SplitStatic(c).1, writtenAt);
  }

  // -- parsing ---------------------------------------------------------------------------

  ghost predicate NoBegin(ls: seq<string>) {
    forall i :: 0 <= i < |ls| ==> Trim(ls[i]) != BEGIN_MARKER
  }

  lemma {:induction false} FoldConcat(st: ParseState, a: seq<string>, b: seq<string>)
    ensures Fold(st, a + b) == Fold(Fold(st, a), b)
    decreases |a|
  {
    if a == [] {
      assert a + b == b;
    } else {
      assert (a + b)[1..] == a[1..] + b;
      FoldConcat(Step(st, a[0]), a[1..], b);
    }
  }

  lemma {:induction false} FoldOutside(st: ParseState, ls: seq<string>)
    requires !st.inBlock && NoBegin(ls)
    ensures Fold(st, ls) == st
  {
    if ls != [] {
      assert Step(st, ls[0]) == st;
      FoldOutside(st, ls[1..]);
    }
  }

  lemma NoMarkerNoBegin(s: string)
    requires NoMarker(s)
    ensures NoBegin(Lines(s))
  {
    forall i | 0 <= i < |Lines(s)| ensures Trim(Lines(s)[i]) != BEGIN_MARKER {
      var j := TrimmedLineOccurs(s, i);
    }
  }

  /** One rendered entry parses to itself, with its confirmation and no other. */
  lemma FoldEntry(st: ParseState, e: Entry)
    requires st.inBlock && st.pending.None? && ValidEntry(e)
    ensures Fold(st, EntryLines(e)) == st.(entries := st.entries + [e])
  {
    AddressLineFacts(e);
    var fields := Words(AddressLine(e));
    assert fields[0] == e.address && fields[1..] == e.hostnames;
    if e.confirmed.Some? {
      ConfirmLineFacts(e);
      var st1 := Step(st, ConfirmLine(e));
      assert st1 == st.(pending := Some((e.address, e.confirmed.value)));
      assert Step(st1, AddressLine(e)) == st.(entries := st.entries + [e]);
      assert EntryLines(e) == [ConfirmLine(e), AddressLine(e)];
      assert EntryLines(e)[1..] == [AddressLine(e)];
      assert Fold(st, EntryLines(e)) == Fold(st1, [AddressLine(e)]);
      FoldOne(st1, AddressLine(e));
    } else {
      assert EntryLines(e) == [AddressLine(e)];
      FoldOne(st, AddressLine(e));
    }
  }

  lemma FoldOne(st: ParseState, l: string)
    ensures Fold(st, [l]) == Step(st, l)
  {
    assert [l][1..] == [];
  }

  lemma FoldChain(st: ParseState, a: seq<string>, b: seq<string>, es: seq<Entry>, fs: seq<Entry>)
    requires Fold(st, a) == st.(entries := st.entries + es)
    requires Fold(st.(entries := st.entries + es), b) == st.(entries := st.entries + es + fs)
    ensures Fold(st, a + b) == st.(entries := st.entries + (es + fs))
  {
    FoldConcat(st, a, b);
    assert st.entries + es + fs == st.entries + (es + fs);
  }

  lemma {:induction false} FoldEntries(st: ParseState, es: seq<Entry>)
    requires st.inBlock && st.pending.None? && ValidEntries(es)
    ensures Fold(st, EntriesLines(es)) == st.(entries := st.entries + es)
    decreases |es|
  {
    if es == [] {
      assert st.entries + es == st.entries;
    } else {
      FoldEntry(st, es[0]);
      FoldEntries(st.(entries := st.entries + [es[0]]), es[1..]);
      FoldChain(st, EntryLines(es[0]), EntriesLines(es[1..]), [es[0]], es[1..]);
      assert [es[0]] + es[1..] == es;
    }
  }

  lemma FoldBlock(st: ParseState, es: seq<Entry>, writtenAt: string)
    requires !st.inBlock && st.pending.None? && ValidEntries(es) && NoSpaces(writtenAt)
    ensures var n := Fold(st, BlockLines(es, writtenAt)); !n.inBlock && n.entries == st.entries + es
  {
    MarkerLines();
    HeaderLine(writtenAt);
    var header := COMMENT + "written=" + writtenAt;
    var body := EntriesLines(es) + [END_MARKER];
    var st1 := st.(inBlock := true);
    assert BEGIN_MARKER != END_MARKER by {
      assert BEGIN_MARKER[2] != END_MARKER[2];
    }
    assert Step(st, BEGIN_MARKER) == st1 && Step(st1, header) == st1;
    FoldOne(st, BEGIN_MARKER);
    FoldOne(st1, header);
    FoldConcat(st, [BEGIN_MARKER], [header]);
    assert [BEGIN_MARKER] + [header] == [BEGIN_MARKER, header];
    FoldConcat(st, [BEGIN_MARKER, header], body);
    FoldEntries(st1, es);
    FoldConcat(st1, EntriesLines(es), [END_MARKER]);
    FoldOne(Fold(st1, EntriesLines(es)), END_MARKER);
  }

  lemma LinesOfRender(p: string, es: seq<Entry>, s: string, writtenAt: string)
    requires EndsLine(p) && ValidEntries(es) && NoSpaces(writtenAt)
    ensures Lines(Render(p, es, s, writtenAt)) == Lines(p) + (BlockLines(es, writtenAt) + Lines(s))
  {
    var ls := BlockLines(es, writtenAt);
    BlockLinesShape(es, writtenAt);
    LinesOfUnlines(ls);
    UnlinesEnds(ls);
    LinesConcat(Block(es, writtenAt), s);
    LinesConcat(p, Block(es, writtenAt) + s);
    assert Render(p, es, s, writtenAt) == p + (Block(es, writtenAt) + s);
  }

  /** `parse_nix_hosts` undoes rendering: the entries come back in order, every confirmation with
      its own address only. */
  lemma ParseOfRender(p: string, es: seq<Entry>, s: string, writtenAt: string)
    requires NoMarker(p) && EndsLine(p) && NoBegin(Lines(s)) && ValidEntries(es) && NoSpaces(writtenAt)
    ensures Parse(Render(p, es, s, writtenAt)) == es
  {
    LinesOfRender(p, es, s, writtenAt);
    NoMarkerNoBegin(p);
    FoldOutside(OUTSIDE, Lines(p));
    FoldConcat(OUTSIDE, Lines(p), BlockLines(es, writtenAt) + Lines(s));
    FoldConcat(OUTSIDE, BlockLines(es, writtenAt), Lines(s));
    FoldBlock(OUTSIDE, es, writtenAt);
    FoldOutside(Fold(OUTSIDE, BlockLines(es, writtenAt)), Lines(s));
    assert OUTSIDE.entries + es == es;
  }

  // -- a declined write ------------------------------------------------------------------

  /** What the resolver reads of an entry. */
  function Bare(e: Entry): Entry {
    e.(confirmed := None)
  }

  function BareAll(es: seq<Entry>): (r: seq<Entry>)
    ensures |r| == |es|
  {
    seq(|es|, i requires 0 <= i < |es| => Bare(es[i]))
  }

  function BareState(st: ParseState): ParseState {
    ParseState(st.inBlock, None, BareAll(st.entries))
  }

  lemma StepIsBare(a: ParseState, b: ParseState, line: string)
    requires BareState(a) == BareState(b)
    ensures BareState(Step(a, line)) == BareState(Step(b, line))
  {
    var x, y := Step(a, line), Step(b, line);
    assert |a.entries| == |BareAll(a.entries)| == |b.entries|;
    forall i | 0 <= i < |x.entries| ensures Bare(x.entries[i]) == Bare(y.entries[i]) {
      if i < |a.entries| {
        assert BareAll(a.entries)[i] == BareAll(b.entries)[i];
      }
    }
    assert BareAll(x.entries) == BareAll(y.entries);
  }

  lemma {:induction false} FoldIsBare(a: ParseState, b: ParseState, ls: seq<string>)
    requires BareState(a) == BareState(b)
    ensures BareState(Fold(a, ls)) == BareState(Fold(b, ls))
    decreases |ls|
  {
    if ls != [] {
      StepIsBare(a, b, ls[0]);
      FoldIsBare(Step(a, ls[0]), Step(b, ls[0]), ls[1..]);
    }
  }

  /** A freshness comment is a comment to the parser too. */
  lemma FreshnessIsComment(st: ParseState, line: string)
    requires Freshness(line)
    ensures BareState(Step(st, line)) == BareState(st)
  {
    var t := TrimStart(line);
    TrimEndIsHead(t);
    assert t[..|COMMENT|] == COMMENT;
    assert t[7] == t[..|COMMENT|][7] == 't' && t[0] == t[..|COMMENT|][0] == '#' && t[2] == t[..|COMMENT|][2] == 'n';
    assert |TrimEnd(t)| > 7 && TrimEnd(t)[0] == '#' && TrimEnd(t)[2] == 'n';
    assert BEGIN_MARKER[2] == 'B' && END_MARKER[2] == 'E';
  }

  lemma {:induction false} FoldSignificant(st: ParseState, ls: seq<string>)
    ensures BareState(Fold(st, ls)) == BareState(Fold(st, Significant(ls)))
    decreases |ls|
  {
    if ls != [] {
      var rest := Significant(ls[1..]);
      FoldSignificant(Step(st, ls[0]), ls[1..]);
      if Freshness(ls[0]) {
        FreshnessIsComment(st, ls[0]);
        FoldIsBare(Step(st, ls[0]), st, rest);
        assert Significant(ls) == rest;
      } else {
        assert Significant(ls) == [ls[0]] + rest;
        assert ([ls[0]] + rest)[1..] == rest;
      }
    }
  }

  /** Two files that differ in freshness comments only resolve the same names to the same addresses. */
  lemma SameMeansSameEntries(a: string, b: string)
    requires SameButForFreshness(a, b)
    ensures BareAll(Parse(a)) == BareAll(Parse(b))
  {
    FoldSignificant(OUTSIDE, Lines(a));
    FoldSignificant(OUTSIDE, Lines(b));
  }

  lemma {:induction false} SignificantConcat(a: seq<string>, b: seq<string>)
    ensures Significant(a + b) == Significant(a) + Significant(b)
  {
    if a == [] {
      assert a + b == b;
    } else {
      assert (a + b)[1..] == a[1..] + b;
      SignificantConcat(a[1..], b);
    }
  }

  lemma SignificantEntry(e: Entry)
    requires ValidEntry(e)
    ensures Significant(EntryLines(e)) == Significant(EntryLines(Bare(e)))
  {
    assert AddressLine(Bare(e)) == AddressLine(e);
    assert EntryLines(Bare(e)) == [AddressLine(e)];
    if e.confirmed.Some? {
      ConfirmLineFacts(e);
      assert EntryLines(e) == [ConfirmLine(e), AddressLine(e)];
      assert EntryLines(e)[1..] == [AddressLine(e)];
    } else {
      assert e == Bare(e);
    }
  }

  lemma {:induction false} SignificantEntries(es: seq<Entry>)
    requires ValidEntries(es)
    ensures Significant(EntriesLines(es)) == Significant(EntriesLines(BareAll(es)))
  {
    if es != [] {
      var bs := BareAll(es);
      SignificantEntry(es[0]);
      SignificantEntries(es[1..]);
      assert BareAll(es[1..]) == bs[1..];
      SignificantConcat(EntryLines(es[0]), EntriesLines(es[1..]));
      SignificantConcat(EntryLines(bs[0]), EntriesLines(bs[1..]));
    }
  }

  lemma SignificantBlock(es: seq<Entry>, writtenAt: string)
    requires ValidEntries(es) && NoSpaces(writtenAt)
    ensures Significant(BlockLines(es, writtenAt)) == [BEGIN_MARKER] + (Significant(EntriesLines(BareAll(es))) + [END_MARKER])
  {
    MarkerLines();
    HeaderLine(writtenAt);
    SignificantEntries(es);
    var header, body := COMMENT + "written=" + writtenAt, EntriesLines(es) + [END_MARKER];
    SignificantConcat([BEGIN_MARKER, header], body);
    SignificantConcat(EntriesLines(es), [END_MARKER]);
    SignificantConcat([BEGIN_MARKER], [header]);
    assert [BEGIN_MARKER] + [header] == [BEGIN_MARKER, header];
    assert Significant([BEGIN_MARKER]) == [BEGIN_MARKER] && Significant([header]) == [] && Significant([END_MARKER]) == [END_MARKER];
  }

  /** Republishing the same addresses and names, however refreshed, never writes. */
  lemma RepublishIsQuiet(p: string, s: string, es: seq<Entry>, w: string, es': seq<Entry>, w': string)
    requires EndsLine(p) && ValidEntries(es) && ValidEntries(es') && NoSpaces(w) && NoSpaces(w')
    requires BareAll(es) == BareAll(es')
    ensures SameButForFreshness(Render(p, es, s, w), Render(p, es', s, w'))
  {
    LinesOfRender(p, es, s, w);
    LinesOfRender(p, es', s, w');
    SignificantBlock(es, w);
    SignificantBlock(es', w');
    SignificantConcat(Lines(p), BlockLines(es, w) + Lines(s));
    SignificantConcat(Lines(p), BlockLines(es', w') + Lines(s));
    SignificantConcat(BlockLines(es, w), Lines(s));
    SignificantConcat(BlockLines(es', w'), Lines(s));
  }

  // -- the order of the entries ----------------------------------------------------------

  lemma {:induction false} LessIsTotal(a: string, b: string)
    ensures Less(a, b) ==> !Less(b, a)
    ensures !Less(a, b) && !Less(b, a) ==> a == b
  {
    if a != "" && b != "" && a[0] == b[0] {
      LessIsTotal(a[1..], b[1..]);
      assert a == [a[0]] + a[1..] && b == [b[0]] + b[1..];
    }
  }

  lemma {:induction false} LessIsTransitive(a: string, b: string, c: string)
    requires !Less(b, a) && !Less(c, b)
    ensures !Less(c, a)
  {
    if a != "" && b != "" && c != "" && a[0] == b[0] == c[0] {
      LessIsTransitive(a[1..], b[1..], c[1..]);
    }
  }

  ghost predicate Ascending(es: seq<Entry>) {
    forall i, j :: 0 <= i < j < |es| ==> !Less(es[j].address, es[i].address)
  }

  /** The entries of one address, in order. */
  function At(es: seq<Entry>, address: string): seq<Entry> {
    if es == [] then [] else (if es[0].address == address then [es[0]] else []) + At(es[1..], address)
  }

  lemma {:induction false} AtConcat(a: seq<Entry>, b: seq<Entry>, address: string)
    ensures At(a + b, address) == At(a, address) + At(b, address)
  {
    if a == [] {
      assert a + b == b;
    } else {
      assert (a + b)[1..] == a[1..] + b;
      AtConcat(a[1..], b, address);
    }
  }

  lemma {:induction false} InsertPermutes(es: seq<Entry>, e: Entry)
    ensures multiset(InsertEntry(es, e)) == multiset(es) + multiset{e}
  {
    if es != [] && !Less(e.address, es[0].address) {
      InsertPermutes(es[1..], e);
      assert es == [es[0]] + es[1..];
    }
  }

  lemma {:induction false} InsertAscends(es: seq<Entry>, e: Entry)
    requires Ascending(es)
    ensures Ascending(InsertEntry(es, e))
  {
    var r := InsertEntry(es, e);
    if es == [] {
    } else if Less(e.address, es[0].address) {
      LessIsTotal(e.address, es[0].address);
      forall j | 1 <= j < |r| ensures !Less(r[j].address, e.address) {
        if j > 1 {
          LessIsTransitive(e.address, es[0].address, r[j].address);
        }
      }
    } else {
      var t := InsertEntry(es[1..], e);
      InsertAscends(es[1..], e);
      InsertPermutes(es[1..], e);
      forall j | 0 <= j < |t| ensures !Less(t[j].address, es[0].address) {
        assert t[j] in multiset(t);
        assert t[j] == e || t[j] in es[1..];
      }
      assert r == [es[0]] + t;
    }
  }

  lemma AtHead(e: Entry, rest: seq<Entry>, address: string)
    ensures At([e] + rest, address) == At([e], address) + At(rest, address)
  {
    AtConcat([e], rest, address);
  }

  lemma AtOne(e: Entry, address: string)
    ensures At([e], address) == if e.address == address then [e] else []
  {
    assert [e][1..] == [];
  }

  /** The newcomer goes behind its equals. */
  lemma {:induction false} InsertKeepsOrder(es: seq<Entry>, e: Entry, address: string)
    requires Ascending(es)
    ensures At(InsertEntry(es, e), address) == At(es, address) + At([e], address)
  {
    AtOne(e, address);
    if es == [] {
      assert [e] + es == [e];
    } else if Less(e.address, es[0].address) {
      AtHead(e, es, address);
      if e.address == address {
        NothingBelow(es, address);
      }
    } else {
      InsertKeepsOrder(es[1..], e, address);
      AtHead(es[0], InsertEntry(es[1..], e), address);
      AtHead(es[0], es[1..], address);
      assert es == [es[0]] + es[1..];
    }
  }

  /** Nothing in an ascending list equals an address below its head. */
  lemma {:induction false} NothingBelow(es: seq<Entry>, address: string)
    requires Ascending(es) && (es != [] ==> Less(address, es[0].address))
    ensures At(es, address) == []
  {
    if es != [] {
      LessIsTotal(address, es[0].address);
      if |es| > 1 {
        var next := es[1].address;
        if !Less(address, next) {
          LessIsTransitive(es[0].address, next, address);
        }
      }
      NothingBelow(es[1..], address);
    }
  }

  /** The published order: a permutation, ascending by address, equals in their given order. */
  lemma {:induction false} ByAddressSorts(es: seq<Entry>, address: string)
    ensures Ascending(ByAddress(es)) && multiset(ByAddress(es)) == multiset(es)
    ensures At(ByAddress(es), address) == At(es, address)
  {
    if es != [] {
      var p, e := es[..|es| - 1], es[|es| - 1];
      ByAddressSorts(p, address);
      InsertAscends(ByAddress(p), e);
      InsertPermutes(ByAddress(p), e);
      InsertKeepsOrder(ByAddress(p), e, address);
      AtConcat(p, [e], address);
      assert es == p + [e];
    }
  }

  lemma SortedIsValid(es: seq<Entry>)
    requires ValidEntries(es)
    ensures ValidEntries(ByAddress(es))
  {
    ByAddressSorts(es, "");
    var r := ByAddress(es);
    forall i | 0 <= i < |r| ensures ValidEntry(r[i]) {
      assert r[i] in multiset(r);
      assert r[i] in es;
    }
  }
}
