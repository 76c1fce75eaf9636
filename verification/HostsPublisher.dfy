/** The publisher over the live file, and whole runs of publications and foreign edits
    (src/publish/hosts.rs: `HostsPublisher`). A write is one atomic durable step that may fail;
    so may a read. */
module HostsPublisher {
  import opened Wrappers
  import opened Text
  import opened HostsBlock
  import opened HostsProofs
  import opened HostsFormat

  datatype Outcome = Wrote | UpToDate | Failed

  class HostsFile {
    var content: Option<string>

    constructor (content: Option<string>)
      ensures this.content == content
    {
      this.content := content;
    }

    method Read() returns (ok: bool, text: Option<string>)
      ensures ok ==> text == content
    {
      ok := *;
      text := content;
    }

    method Write(text: string) returns (ok: bool)
      modifies this
      ensures content == if ok then Some(text) else old(content)
    {
      ok := *;
      if ok {
        content := Some(text);
      }
    }
  }

  /** The regions to carry over: the live file's, or those at start if it has vanished. */
  function Regions(current: Option<string>, staticPrefix: string, staticSuffix: string): (string, string) {
    match current
    case Some(c) => (SplitStatic(c).0, SplitStatic(c).1)
    case None => (staticPrefix, staticSuffix)
  }

  /** The file `publish` wants. */
  function Wanted(current: Option<string>, staticPrefix: string, staticSuffix: string, es: seq<Entry>, writtenAt: string): string {
    var (p, s) := Regions(current, staticPrefix, staticSuffix);
    Render(p, ByAddress(es), s, writtenAt)
  }

  class Publisher {
    const staticPrefix: string
    const staticSuffix: string

    /** `new` reads the fallback regions off the file as it is at start. */
    constructor (file: HostsFile)
      ensures (staticPrefix, staticSuffix) == Regions(file.content, "", "")
    {
      staticPrefix := if file.content.Some? then SplitStatic(file.content.value).0 else "";
      staticSuffix := if file.content.Some? then SplitStatic(file.content.value).1 else "";
    }

    method Publish(file: HostsFile, entries: seq<Entry>, writtenAt: string) returns (out: Outcome)
      modifies file
      ensures var want := Wanted(old(file.content), staticPrefix, staticSuffix, entries, writtenAt);
              && (out == Wrote ==> file.content == Some(want))
              && (out != Wrote ==> file.content == old(file.content))
              && (out == UpToDate ==> old(file.content).Some? && SameButForFreshness(old(file.content).value, want))
              && (out == Wrote && old(file.content).Some? ==> !SameButForFreshness(old(file.content).value, want))
    {
      var ok, current := file.Read();
      if !ok {
        return Failed;
      }
      var prefix, suffix := staticPrefix, staticSuffix;
      if current.Some? {
        var split := SplitStatic(current.value);
        prefix, suffix := split.0, split.1;
      }
      var sorted := ByAddress(entries);
      var text := RenderText(prefix, sorted, suffix, writtenAt);
      if current.Some? && SameButForFreshness(current.value, text) {
        return UpToDate;
      }
      var written := file.Write(text);
      out := if written then Wrote else Failed;
    }
  }

  // -- building the text -----------------------------------------------------------------

  lemma UnlinesCons(l: string, ls: seq<string>)
    ensures Unlines([l] + ls) == (l + ['\n']) + Unlines(ls)
  {
    assert ([l] + ls)[1..] == ls;
  }

  lemma UnlinesOne(l: string)
    ensures Unlines([l]) == l + ['\n']
  {
    UnlinesCons(l, []);
    assert [l] + [] == [l];
  }

  method PushEntry(text: string, e: Entry) returns (out: string)
    ensures out == text + Unlines(EntryLines(e))
  {
    out := text;
    var line := e.address + ['\t'] + Join(e.hostnames);
    UnlinesOne(line);
    if e.confirmed.Some? {
      var comment := COMMENT + e.address + [' '] + (CONFIRMED + e.confirmed.value);
      UnlinesCons(comment, [line]);
      out := out + (comment + ['\n']);
    } else {
      assert [] + [line] == [line];
    }
    out := out + (line + ['\n']);
  }

  method PushEntries(text: string, es: seq<Entry>) returns (out: string)
    ensures out == text + Unlines(EntriesLines(es))
  {
    out := text;
    ghost var body := "";
    var i := 0;
    while i < |es|
      invariant 0 <= i <= |es| && out == text + body
      invariant body + Unlines(EntriesLines(es[i..])) == Unlines(EntriesLines(es))
    {
      assert es[i..][1..] == es[i + 1..];
      UnlinesConcat(EntryLines(es[i]), EntriesLines(es[i + 1..]));
      out := PushEntry(out, es[i]);
      body := body + Unlines(EntryLines(es[i]));
      i := i + 1;
    }
  }

  method RenderText(prefix: string, es: seq<Entry>, suffix: string, writtenAt: string) returns (text: string)
    ensures text == Render(prefix, es, suffix, writtenAt)
  {
    var header := COMMENT + "written=" + writtenAt;
    text := prefix;
    text := text + (BEGIN_MARKER + ['\n']);
    text := text + (header + ['\n']);
    text := PushEntries(text, es);
    text := text + (END_MARKER + ['\n']);
    text := text + suffix;
    BlockText(es, writtenAt);
    Regroup(prefix, BEGIN_MARKER + ['\n'], header + ['\n'], Unlines(EntriesLines(es)), END_MARKER + ['\n'], suffix);
  }

  lemma BlockText(es: seq<Entry>, writtenAt: string)
    ensures Block(es, writtenAt)
            == (BEGIN_MARKER + ['\n'])
               + ((COMMENT + "written=" + writtenAt + ['\n']) + (Unlines(EntriesLines(es)) + (END_MARKER + ['\n'])))
  {
    var h := COMMENT + "written=" + writtenAt;
    var inner := EntriesLines(es) + [END_MARKER];
    UnlinesConcat(EntriesLines(es), [END_MARKER]);
    UnlinesOne(END_MARKER);
    UnlinesCons(h, inner);
    UnlinesCons(BEGIN_MARKER, [h] + inner);
    assert BlockLines(es, writtenAt) == [BEGIN_MARKER] + ([h] + inner);
  }

  lemma Regroup(p: string, a: string, b: string, c: string, d: string, s: string)
    ensures p + a + b + c + d + s == p + (a + (b + (c + d))) + s
  {
  }

  // -- what a publication guarantees -----------------------------------------------------

  /** Regions as `split_static` leaves them. */
  ghost predicate CleanRegions(prefix: string, suffix: string) {
    NoMarker(prefix) && Normalised(prefix) == prefix && EndsLine(prefix)
  }

  lemma RegionsAreClean(current: Option<string>, staticPrefix: string, staticSuffix: string)
    requires CleanRegions(staticPrefix, staticSuffix)
    ensures var (p, s) := Regions(current, staticPrefix, staticSuffix); CleanRegions(p, s)
  {
    if current.Some? {
      PrefixFacts(current.value);
    }
  }

  /** Written or declined, the live file then parses to exactly the published addresses and names in
      address order, whoever wrote what was there; and a written one carries every confirmation. */
  lemma PublishedFileParses(current: Option<string>, staticPrefix: string, staticSuffix: string, es: seq<Entry>, writtenAt: string)
    requires CleanRegions(staticPrefix, staticSuffix) && ValidEntries(es) && NoSpaces(writtenAt)
    requires NoBegin(Lines(Regions(current, staticPrefix, staticSuffix).1))
    ensures var want := Wanted(current, staticPrefix, staticSuffix, es, writtenAt);
            && Parse(want) == ByAddress(es)
            && (current.Some? && SameButForFreshness(current.value, want) ==>
                  BareAll(Parse(current.value)) == BareAll(ByAddress(es)))
  {
    var (p, s) := Regions(current, staticPrefix, staticSuffix);
    RegionsAreClean(current, staticPrefix, staticSuffix);
    SortedIsValid(es);
    ParseOfRender(p, ByAddress(es), s, writtenAt);
    var want := Wanted(current, staticPrefix, staticSuffix, es, writtenAt);
    if current.Some? && SameButForFreshness(current.value, want) {
      SameMeansSameEntries(current.value, want);
    }
  }

  /** What a publication writes: over a file without a block, all of its text and then the block; around
      a terminated block, the text before it and all after it; over an unterminated one, the text before
      it; and over a vanished file, the regions read at start. */
  lemma WrittenFile(t: string, a: string, m: string, s: string, p0: string, s0: string, es: seq<Entry>, writtenAt: string)
    requires Unended(t) && Newlines(a) && NoMarker(t + a)
    ensures var text, block := if t == "" then "" else t + "\n", Block(ByAddress(es), writtenAt);
            && Wanted(Some(t + a), p0, s0, es, writtenAt) == text + block
            && (Terminated(m) ==> Wanted(Some(t + a + m + s), p0, s0, es, writtenAt) == text + block + s)
            && (StartsWith(m, "# BEGIN nixnet")
                && (forall i :: 0 <= i < |SplitInclusive(m)| ==> Trim(SplitInclusive(m)[i]) != "# END nixnet") ==>
                  Wanted(Some(t + a + m), p0, s0, es, writtenAt) == text + block)
            && Wanted(None, p0, s0, es, writtenAt) == p0 + block + s0
  {
    SplitUnmarked(t, a);
    assert forall x: string :: x + "" == x;
    if Terminated(m) {
      SplitAround(t, a, m, s);
    }
    if StartsWith(m, BEGIN_MARKER) && forall i :: 0 <= i < |SplitInclusive(m)| ==> Trim(SplitInclusive(m)[i]) != END_MARKER {
      SplitUnterminated(t, a, m);
    }
  }

  // -- runs ------------------------------------------------------------------------------

  datatype Event =
    | Publication(entries: seq<Entry>, writtenAt: string, writeFails: bool)
    | ForeignEdit(prefix: string, suffix: string)

  /** The file around its block: `file == p + m + s`, `m` the managed block. */
  datatype Layout = Layout(p: string, m: string, s: string)

  function FileOf(l: Layout): string {
    l.p + l.m + l.s
  }

  ghost predicate WellFormed(l: Layout) {
    NoMarker(l.p) && Terminated(l.m)
  }

  ghost predicate Admissible(e: Event) {
    match e
    case Publication(entries, writtenAt, _) => ValidEntries(entries) && NoSpaces(writtenAt)
    case ForeignEdit(prefix, _) => NoMarker(prefix)
  }

  /** A publication rewrites the file unless it fails or the file already says the same; a foreign
      edit replaces what is outside the block. */
  function React(l: Layout, e: Event): Layout {
    match e
    case ForeignEdit(prefix, suffix) => Layout(prefix, l.m, suffix)
    case Publication(entries, writtenAt, writeFails) =>
      var split := SplitStatic(FileOf(l));
      var block := Block(ByAddress(entries), writtenAt);
      if writeFails || SameButForFreshness(FileOf(l), Wanted(Some(FileOf(l)), "", "", entries, writtenAt)) then l
      else Layout(split.0, block, split.1)
  }

  function RunAll(l: Layout, events: seq<Event>): Layout {
    if events == [] then l else React(RunAll(l, events[..|events| - 1]), events[|events| - 1])
  }

  /** The regions last written by a foreign hand, or the initial ones. */
  function LastRegions(l: Layout, events: seq<Event>): (string, string) {
    if events == [] then (l.p, l.s)
    else
      match events[|events| - 1]
      case ForeignEdit(p, s) => (p, s)
      case Publication(_, _, _) => LastRegions(l, events[..|events| - 1])
  }

  /** `React` is what the publisher does to a well-formed file. */
  lemma ReactIsPublish(l: Layout, e: Event)
    requires WellFormed(l) && Admissible(e) && e.Publication?
    ensures var want := Wanted(Some(FileOf(l)), "", "", e.entries, e.writtenAt);
            FileOf(React(l, e)) == if e.writeFails || SameButForFreshness(FileOf(l), want) then FileOf(l) else want
  {
  }

  /** The prefix is the text `t` and newlines, then as now; what is carried over is the text and one
      newline, or nothing where there is no text. */
  ghost predicate Survives(was: string, now: string, carried: string) {
    exists t: string, a: string, b: string ::
      was == t + a && now == t + b && Unended(t) && Newlines(a) && Newlines(b) && carried == if t == "" then "" else t + "\n"
  }

  lemma NormalisedSurvives(was: string, now: string)
    requires Normalised(was) == Normalised(now)
    ensures Survives(was, now, Normalised(was))
  {
    var t, a := Ending(was);
    var u, b := Ending(now);
    NormalisedIs(t, a);
    NormalisedIs(u, b);
    assert t != "" ==> Closed(t)[..|Closed(t)| - 1] == t;
    assert u != "" ==> Closed(u)[..|Closed(u)| - 1] == u;
  }

  lemma {:induction false} RegionsSurvive(l: Layout, events: seq<Event>)
    requires WellFormed(l) && forall i :: 0 <= i < |events| ==> Admissible(events[i])
    ensures var (n, r) := (RunAll(l, events), LastRegions(l, events));
            && WellFormed(n) && n.s == r.1 && Normalised(n.p) == Normalised(r.0)
            && SplitStatic(FileOf(n)) == (Normalised(r.0), r.1, true)
  {
    if events == [] {
      SplitOfTerminated(l.p, l.m, l.s);
    } else {
      var before := events[..|events| - 1];
      var e := events[|events| - 1];
      RegionsSurvive(l, before);
      var b, n := RunAll(l, before), RunAll(l, events);
      if e.Publication? {
        SortedIsValid(e.entries);
        BlockTerminated(ByAddress(e.entries), e.writtenAt);
        PrefixFacts(FileOf(b));
      }
      SplitOfTerminated(n.p, n.m, n.s);
    }
  }

  /** Over any sequence of publications and foreign edits outside the block, the suffix survives byte
      for byte and the prefix up to its trailing newlines; the file always splits into them. */
  lemma ForeignTextSurvives(l: Layout, events: seq<Event>)
    requires WellFormed(l) && forall i :: 0 <= i < |events| ==> Admissible(events[i])
    ensures var (n, r) := (RunAll(l, events), LastRegions(l, events));
            && WellFormed(n) && n.s == r.1 && Survives(r.0, n.p, SplitStatic(FileOf(n)).0)
            && Normalised(n.p) == Normalised(r.0) && SplitStatic(FileOf(n)) == (Normalised(r.0), r.1, true)
  {
    RegionsSurvive(l, events);
    NormalisedSurvives(LastRegions(l, events).0, RunAll(l, events).p);
  }

  /** Publishing what was just published writes nothing, whatever foreign text surrounds the block
      and however the confirmations were refreshed. */
  lemma RepublicationIsQuiet(l: Layout, e: Event, again: Event)
    requires WellFormed(l) && Admissible(e) && Admissible(again) && e.Publication? && again.Publication?
    requires !e.writeFails && BareAll(ByAddress(e.entries)) == BareAll(ByAddress(again.entries))
    ensures React(React(l, e), again) == React(l, e)
  {
    var n := React(l, e);
    var c := FileOf(l);
    var (p, s, _) := SplitStatic(c);
    PrefixFacts(c);
    SortedIsValid(e.entries);
    SortedIsValid(again.entries);
    var want := Render(p, ByAddress(e.entries), s, e.writtenAt);
    var next := Render(p, ByAddress(again.entries), s, again.writtenAt);
    RepublishIsQuiet(p, s, ByAddress(e.entries), e.writtenAt, ByAddress(again.entries), again.writtenAt);
    RewriteKeepsStatic(c, ByAddress(e.entries), e.writtenAt);
    assert SameButForFreshness(want, next);
    if n != l {
      assert FileOf(n) == want;
    }
  }

  /** Freshness apart, the block renders exactly these addresses and names. */
  predicate Says(l: Layout, bare: seq<Entry>) {
    Significant(Lines(l.m)) == [BEGIN_MARKER] + (Significant(EntriesLines(bare)) + [END_MARKER])
  }

  function BareEntries(e: Event): seq<Entry>
    requires e.Publication?
  {
    BareAll(ByAddress(e.entries))
  }

  lemma BlockSays(p: string, s: string, e: Event)
    requires e.Publication? && Admissible(e)
    ensures Says(Layout(p, Block(ByAddress(e.entries), e.writtenAt), s), BareEntries(e))
  {
    SortedIsValid(e.entries);
    BlockLinesShape(ByAddress(e.entries), e.writtenAt);
    LinesOfUnlines(BlockLines(ByAddress(e.entries), e.writtenAt));
    SignificantBlock(ByAddress(e.entries), e.writtenAt);
  }

  lemma SignificantParts(p: string, m: string, s: string)
    requires EndsLine(p) && EndsLine(m)
    ensures Significant(Lines(p + m + s)) == Significant(Lines(p)) + (Significant(Lines(m)) + Significant(Lines(s)))
  {
    assert p + m + s == p + (m + s);
    LinesConcat(p, m + s);
    LinesConcat(m, s);
    SignificantConcat(Lines(p), Lines(m) + Lines(s));
    SignificantConcat(Lines(m), Lines(s));
  }

  /** Around a normalised prefix, a publication declines exactly when the block says its entries. */
  lemma DeclinesExactly(l: Layout, e: Event)
    requires WellFormed(l) && Normalised(l.p) == l.p && e.Publication? && Admissible(e)
    ensures SameButForFreshness(FileOf(l), Wanted(Some(FileOf(l)), "", "", e.entries, e.writtenAt)) <==> Says(l, BareEntries(e))
  {
    var block := Block(ByAddress(e.entries), e.writtenAt);
    NormalisedTwice(l.p);
    SplitOfTerminated(l.p, l.m, l.s);
    SortedIsValid(e.entries);
    BlockTerminated(ByAddress(e.entries), e.writtenAt);
    BlockSays(l.p, l.s, e);
    SignificantParts(l.p, l.m, l.s);
    SignificantParts(l.p, block, l.s);
    Cancel(Significant(Lines(l.p)), Significant(Lines(l.m)), Significant(Lines(block)), Significant(Lines(l.s)));
  }

  lemma Cancel<T>(a: seq<T>, b: seq<T>, b': seq<T>, c: seq<T>)
    ensures a + (b + c) == a + (b' + c) <==> b == b'
  {
    if a + (b + c) == a + (b' + c) {
      assert b + c == (a + (b + c))[|a|..] == (a + (b' + c))[|a|..] == b' + c;
      assert |b| == |b'|;
      assert b == (b + c)[..|b|] == (b' + c)[..|b|] == b';
    }
  }

  /** A run in which only foreign text and confirmations change. */
  ghost predicate SameNames(events: seq<Event>, bare: seq<Entry>) {
    forall i :: 0 <= i < |events| ==> Admissible(events[i]) && (events[i].Publication? ==> BareEntries(events[i]) == bare)
  }

  lemma {:induction false} KeepsSaying(l: Layout, events: seq<Event>, bare: seq<Entry>)
    requires WellFormed(l) && Says(l, bare) && SameNames(events, bare)
    ensures var n := RunAll(l, events);
            Says(n, bare) && WellFormed(n) && n.p in {LastRegions(l, events).0, Normalised(LastRegions(l, events).0)}
  {
    if events != [] {
      var before, e := events[..|events| - 1], events[|events| - 1];
      KeepsSaying(l, before, bare);
      RegionsSurvive(l, before);
      RegionsSurvive(l, events);
      var b := RunAll(l, before);
      if e.Publication? {
        BlockSays(SplitStatic(FileOf(b)).0, SplitStatic(FileOf(b)).1, e);
      }
    }
  }

  /** After a publication that wrote, or found its entries around a normalised prefix: however foreign
      hands then edit what is outside the block, and whatever was republished in between, publishing the
      same addresses and names writes nothing, if the last foreign prefix is normalised. */
  lemma RepublicationStaysQuiet(l: Layout, e: Event, events: seq<Event>, again: Event)
    requires WellFormed(l) && Admissible(e) && e.Publication? && !e.writeFails
    requires React(l, e) != l || Normalised(l.p) == l.p
    requires Admissible(again) && again.Publication? && BareEntries(again) == BareEntries(e) && SameNames(events, BareEntries(e))
    requires Normalised(LastRegions(React(l, e), events).0) == LastRegions(React(l, e), events).0
    ensures var n := RunAll(React(l, e), events); React(n, again) == n
  {
    var first := React(l, e);
    RegionsSurvive(l, [e]);
    assert RunAll(l, [e]) == first by {
      assert [e][..0] == [];
    }
    if first == l && Normalised(l.p) == l.p {
      FirstSays(l, e);
    } else {
      BlockSays(first.p, first.s, e);
    }
    KeepsSaying(first, events, BareEntries(e));
    DeclinesExactly(RunAll(first, events), again);
  }

  lemma FirstSays(l: Layout, e: Event)
    requires WellFormed(l) && Normalised(l.p) == l.p && e.Publication? && Admissible(e) && !e.writeFails && React(l, e) == l
    ensures Says(l, BareEntries(e))
  {
    DeclinesExactly(l, e);
    if !Says(l, BareEntries(e)) {
      BlockSays(l.p, l.s, e);
    }
  }
}
