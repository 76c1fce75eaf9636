/** The hosts format written out: what splitting keeps, what a block looks like, which lines count and
    what a parse finds, stated on the text itself (src/publish/hosts.rs). */
module HostsFormat {
  import opened Wrappers
  import opened Text
  import opened TextFacts
  import opened HostsBlock
  import opened HostsProofs

  // -- the prefix ------------------------------------------------------------------------

  predicate Newlines(s: string) {
    forall i :: 0 <= i < |s| ==> s[i] == '\n'
  }

  predicate Unended(t: string) {
    t == "" || t[|t| - 1] != '\n'
  }

  /** A text and the newlines at its end. */
  lemma {:induction false} Ending(s: string) returns (t: string, a: string)
    ensures s == t + a && Unended(t) && Newlines(a)
  {
    if Unended(s) {
      t, a := s, "";
    } else {
      var b: string;
      t, b := Ending(s[..|s| - 1]);
      a := b + ['\n'];
      assert s == s[..|s| - 1] + ['\n'];
    }
  }

  lemma {:induction false} TrimmedNewlines(t: string, a: string)
    requires Unended(t) && Newlines(a)
    ensures TrimNewlines(t + a) == t
  {
    if a == "" {
      assert t + a == t;
    } else {
      assert (t + a)[..|t + a| - 1] == t + a[..|a| - 1];
      TrimmedNewlines(t, a[..|a| - 1]);
    }
  }

  /** The text as it is carried over: one newline at its end, or nothing at all. */
  function Closed(t: string): string {
    if t == "" then "" else t + "\n"
  }

  lemma NormalisedIs(t: string, a: string)
    requires Unended(t) && Newlines(a)
    ensures Normalised(t + a) == Closed(t)
  {
    TrimmedNewlines(t, a);
  }

  // -- splitting -------------------------------------------------------------------------

  /** Before the first BEGIN marker, through the END line, and after it. */
  lemma SplitAround(t: string, a: string, m: string, s: string)
    requires Unended(t) && Newlines(a) && NoMarker(t + a) && Terminated(m)
    ensures SplitStatic(t + a + m + s) == (Closed(t), s, true)
  {
    NormalisedIs(t, a);
    SplitOfTerminated(t + a, m, s);
  }

  /** Without a marker everything is prefix. */
  lemma SplitUnmarked(t: string, a: string)
    requires Unended(t) && Newlines(a) && NoMarker(t + a)
    ensures SplitStatic(t + a) == (Closed(t), "", false)
  {
    NormalisedIs(t, a);
  }

  /** A block without END line carries nothing over from BEGIN on. */
  lemma SplitUnterminated(t: string, a: string, m: string)
    requires Unended(t) && Newlines(a) && NoMarker(t + a) && StartsWith(m, BEGIN_MARKER)
    requires forall i :: 0 <= i < |SplitInclusive(m)| ==> Trim(SplitInclusive(m)[i]) != END_MARKER
    ensures SplitStatic(t + a + m) == (Closed(t), "", true)
  {
    var c := t + a + m;
    NormalisedIs(t, a);
    FindAfterPrefix(t + a, m);
    assert c[..|t + a|] == t + a && c[|t + a|..] == m;
    EndOfNone(SplitInclusive(m));
  }

  lemma {:induction false} EndOfNone(ls: seq<string>)
    requires forall i :: 0 <= i < |ls| ==> Trim(ls[i]) != END_MARKER
    ensures EndOf(ls).None?
  {
    if ls != [] {
      assert forall i :: 0 <= i < |ls[1..]| ==> ls[1..][i] == ls[i + 1];
      EndOfNone(ls[1..]);
    }
  }

  lemma {:induction false} EndOfFirst(ls: seq<string>, i: nat)
    requires i < |ls| && Trim(ls[i]) == END_MARKER && forall j :: 0 <= j < i ==> Trim(ls[j]) != END_MARKER
    ensures EndOf(ls) == Some(|Concat(ls[..i + 1])|)
  {
    assert ls[..i + 1][1..] == ls[1..][..i];
    if i > 0 {
      assert forall j :: 0 <= j < i - 1 ==> ls[1..][j] == ls[j + 1];
      EndOfFirst(ls[1..], i - 1);
    }
  }

  lemma {:induction false} ConcatHead(ls: seq<string>, i: nat)
    requires i <= |ls|
    ensures Concat(ls) == Concat(ls[..i]) + Concat(ls[i..])
  {
    if i == 0 {
      assert ls[..0] == [] && ls[0..] == ls;
    } else {
      ConcatHead(ls[1..], i - 1);
      assert ls[..i][1..] == ls[1..][..i - 1] && ls[i..] == ls[1..][i - 1..];
    }
  }

  lemma HeadOf(c: string, begin: nat, a: string, b: string)
    requires begin <= |c| && c[begin..] == a + b
    ensures begin + |a| <= |c| && c[begin..begin + |a|] == a
  {
    assert c[begin..begin + |a|] == c[begin..][..|a|];
  }

  lemma LinesHead(s: string, i: nat)
    requires i <= |SplitInclusive(s)|
    ensures s == Concat(SplitInclusive(s)[..i]) + Concat(SplitInclusive(s)[i..])
  {
    LinesMakeText("", s);
    ConcatHead(SplitInclusive(s), i);
    assert "" + s == s;
  }

  lemma BlockEndNone(content: string, begin: nat)
    requires begin <= |content|
    requires forall j :: 0 <= j < |SplitInclusive(content[begin..])| ==> Trim(SplitInclusive(content[begin..])[j]) != END_MARKER
    ensures BlockEnd(content, begin).None?
  {
    EndOfNone(SplitInclusive(content[begin..]));
  }

  /** The first line that is END, white space aside. */
  ghost predicate FirstEnd(ls: seq<string>, i: nat) {
    i < |ls| && Trim(ls[i]) == END_MARKER && forall j :: 0 <= j < i ==> Trim(ls[j]) != END_MARKER
  }

  /** The block ends with the first END line from BEGIN on: what is taken is exactly the lines up to it. */
  lemma BlockEndIsFirst(content: string, begin: nat, i: nat)
    requires begin <= |content| && FirstEnd(SplitInclusive(content[begin..]), i)
    ensures BlockEnd(content, begin).Some?
    ensures content[begin..BlockEnd(content, begin).value] == Concat(SplitInclusive(content[begin..])[..i + 1])
  {
    var ls := SplitInclusive(content[begin..]);
    EndOfFirst(ls, i);
    LinesHead(content[begin..], i + 1);
    HeadOf(content, begin, Concat(ls[..i + 1]), Concat(ls[i + 1..]));
  }

  // -- the block -------------------------------------------------------------------------

  /** One entry as it stands in the file. */
  function EntryText(e: Entry): string {
    (if e.confirmed.Some? then "# nixnet " + e.address + " confirmed=" + e.confirmed.value + "\n" else "")
    + e.address + "\t" + Join(e.hostnames) + "\n"
  }

  function EntriesText(es: seq<Entry>): string {
    if es == [] then "" else EntryText(es[0]) + EntriesText(es[1..])
  }

  lemma UnlinesOfTwo(a: string, b: string)
    ensures Unlines([a]) == a + "\n" && Unlines([a, b]) == (a + "\n") + (b + "\n")
  {
    assert [a][1..] == [] && [a, b][1..] == [b];
    assert Unlines([b]) == b + "\n" by {
      assert [b][1..] == [];
    }
  }

  lemma EntryIsText(e: Entry)
    ensures Unlines(EntryLines(e)) == EntryText(e)
  {
    var line := e.address + "\t" + Join(e.hostnames);
    if e.confirmed.Some? {
      var comment := "# nixnet " + e.address + " confirmed=" + e.confirmed.value;
      assert COMMENT + e.address + [' '] + (CONFIRMED + e.confirmed.value) == comment;
      assert EntryLines(e) == [comment, line];
      UnlinesOfTwo(comment, line);
    } else {
      assert EntryLines(e) == [line];
      UnlinesOfTwo(line, "");
    }
  }

  lemma {:induction false} EntriesAreText(es: seq<Entry>)
    ensures Unlines(EntriesLines(es)) == EntriesText(es)
  {
    if es != [] {
      EntryIsText(es[0]);
      EntriesAreText(es[1..]);
      UnlinesConcat(EntryLines(es[0]), EntriesLines(es[1..]));
    }
  }

  lemma BlockPieces(es: seq<Entry>, writtenAt: string)
    ensures Block(es, writtenAt)
            == Unlines(["# BEGIN nixnet", "# nixnet written=" + writtenAt]) + (EntriesText(es) + Unlines(["# END nixnet"]))
  {
    var head := ["# BEGIN nixnet", "# nixnet written=" + writtenAt];
    EntriesAreText(es);
    UnlinesConcat(head, EntriesLines(es) + [END_MARKER]);
    UnlinesConcat(EntriesLines(es), [END_MARKER]);
    assert COMMENT + "written=" + writtenAt == head[1];
    assert BlockLines(es, writtenAt) == head + (EntriesLines(es) + [END_MARKER]);
  }

  lemma Regroup(b: string, h: string, w: string, x: string, e: string)
    ensures ((b + "\n") + ((h + w) + "\n")) + (x + (e + "\n")) == b + "\n" + h + w + "\n" + x + e + "\n"
  {
  }

  /** The block, character by character. */
  lemma BlockIsText(es: seq<Entry>, writtenAt: string)
    ensures Block(es, writtenAt)
            == "# BEGIN nixnet" + "\n" + "# nixnet written=" + writtenAt + "\n" + EntriesText(es) + "# END nixnet" + "\n"
  {
    BlockPieces(es, writtenAt);
    UnlinesOfTwo("# BEGIN nixnet", "# nixnet written=" + writtenAt);
    UnlinesOfTwo("# END nixnet", "");
    Regroup("# BEGIN nixnet", "# nixnet written=", writtenAt, EntriesText(es), "# END nixnet");
  }

  // -- the order -------------------------------------------------------------------------

  /** `a` comes first: it ends, or has the smaller character, where the two first differ. */
  ghost predicate Precedes(a: string, b: string) {
    exists k: nat :: k <= |a| && k < |b| && a[..k] == b[..k] && (k == |a| || a[k] < b[k])
  }

  lemma FirstAgrees(a: string, b: string, k: nat)
    requires 0 < k <= |a| && k <= |b| && a[..k] == b[..k]
    ensures a[0] == b[0]
  {
    assert a[0] == a[..k][0] && b[0] == b[..k][0];
  }

  lemma {:induction false} LessIsLexicographic(a: string, b: string)
    ensures Less(a, b) <==> Precedes(a, b)
  {
    if a != "" && b != "" && a[0] == b[0] {
      LessIsLexicographic(a[1..], b[1..]);
      if k: nat :| k <= |a[1..]| && k < |b[1..]| && a[1..][..k] == b[1..][..k] && (k == |a[1..]| || a[1..][k] < b[1..][k]) {
        assert a[..k + 1] == [a[0]] + a[1..][..k] == b[..k + 1];
        assert Precedes(a, b);
      }
      if k: nat :| k <= |a| && k < |b| && a[..k] == b[..k] && (k == |a| || a[k] < b[k]) {
        assert k > 0 && a[1..][..k - 1] == a[..k][1..] == b[..k][1..] == b[1..][..k - 1];
        assert Precedes(a[1..], b[1..]);
      }
    } else {
      if Precedes(a, b) {
        var k: nat :| k <= |a| && k < |b| && a[..k] == b[..k] && (k == |a| || a[k] < b[k]);
        if k > 0 {
          FirstAgrees(a, b, k);
        }
      }
      if Less(a, b) {
        assert a[..0] == b[..0];
      }
    }
  }

  // -- what counts -----------------------------------------------------------------------

  /** A comparison leaves out exactly the lines that begin, white space aside, with the daemon's mark. */
  lemma SignificantOne(a: seq<string>, l: string, b: seq<string>)
    ensures Significant(a + [l] + b)
            == Significant(a) + (if StartsWith(TrimStart(l), "# nixnet ") then [] else [l]) + Significant(b)
    ensures Significant([]) == []
  {
    assert a + [l] + b == a + ([l] + b) && [l][1..] == [];
    SignificantConcat(a, [l] + b);
    SignificantConcat([l], b);
    assert Significant([l]) == if Freshness(l) then [] else [l];
  }

  lemma ConfirmedOnly(line: string, address: string, at: string)
    requires ParseConfirmedComment(line) == Some((address, at))
    ensures line == "# nixnet " + address + " confirmed=" + at && address != "" && at != "" && ' ' !in address
  {
    var rest := line[|COMMENT|..];
    SplitOnceSplits(rest, ' ');
    var (a, tail) := SplitOnce(rest, ' ').value;
    assert tail == CONFIRMED + at;
    Regrouped(address, at);
  }

  lemma Regrouped(address: string, at: string)
    ensures "# nixnet " + address + " confirmed=" + at == COMMENT + (address + [' '] + (CONFIRMED + at))
  {
  }

  lemma ConfirmedAlways(address: string, at: string)
    requires address != "" && at != "" && ' ' !in address
    ensures ParseConfirmedComment("# nixnet " + address + " confirmed=" + at) == Some((address, at))
  {
    var line, rest := "# nixnet " + address + " confirmed=" + at, address + [' '] + (CONFIRMED + at);
    Regrouped(address, at);
    assert line[..|COMMENT|] == COMMENT && line[|COMMENT|..] == rest;
    SplitOnceAt(address, ' ', CONFIRMED + at);
    assert (CONFIRMED + at)[|CONFIRMED|..] == at && (CONFIRMED + at)[..|CONFIRMED|] == CONFIRMED;
  }

  /** A comment confirms an address exactly when it has the published shape. */
  lemma ConfirmedExactly(line: string, address: string, at: string)
    ensures ParseConfirmedComment(line) == Some((address, at))
            <==> line == "# nixnet " + address + " confirmed=" + at && address != "" && at != "" && ' ' !in address
  {
    if ParseConfirmedComment(line) == Some((address, at)) {
      ConfirmedOnly(line, address, at);
    }
    if address != "" && at != "" && ' ' !in address {
      ConfirmedAlways(address, at);
    }
  }
}
