/** The string operations of the standard library that the hosts file needs. Text is a sequence of
    characters; none of these operations looks at its encoding. */
module Text {
  import opened Wrappers

  /** Unicode White_Space, as `char::is_whitespace` has it. */
  predicate IsSpace(c: char) {
    var n := c as int;
    || 9 <= n <= 13 || n == 0x20 || n == 0x85 || n == 0xA0 || n == 0x1680 || 0x2000 <= n <= 0x200A
    || n == 0x2028 || n == 0x2029 || n == 0x202F || n == 0x205F || n == 0x3000
  }

  /** Not empty and free of white space. */
  predicate Solid(s: string) {
    s != "" && forall i :: 0 <= i < |s| ==> !IsSpace(s[i])
  }

  predicate StartsWith(s: string, p: string) {
    |p| <= |s| && s[..|p|] == p
  }

  // -- trimming --------------------------------------------------------------------------

  function TrimStart(s: string): string {
    if s == "" || !IsSpace(s[0]) then s else TrimStart(s[1..])
  }

  function TrimEnd(s: string): string {
    if s == "" || !IsSpace(s[|s| - 1]) then s else TrimEnd(s[..|s| - 1])
  }

  function Trim(s: string): string {
    TrimEnd(TrimStart(s))
  }

  lemma {:induction false} TrimStartIsTail(s: string)
    ensures |TrimStart(s)| <= |s| && TrimStart(s) == s[|s| - |TrimStart(s)|..]
    ensures TrimStart(s) != "" ==> !IsSpace(TrimStart(s)[0])
  {
    if s != "" && IsSpace(s[0]) {
      TrimStartIsTail(s[1..]);
    }
  }

  /** Trimming at the end leaves a prefix that keeps every solid character. */
  lemma {:induction false} TrimEndIsHead(s: string)
    ensures |TrimEnd(s)| <= |s| && TrimEnd(s) == s[..|TrimEnd(s)|]
    ensures forall k :: 0 <= k < |s| && !IsSpace(s[k]) ==> k < |TrimEnd(s)|
  {
    if s != "" && IsSpace(s[|s| - 1]) {
      TrimEndIsHead(s[..|s| - 1]);
    }
  }

  lemma TrimOfTight(s: string)
    requires s != "" && !IsSpace(s[0]) && !IsSpace(s[|s| - 1])
    ensures Trim(s) == s
  {
  }

  lemma {:induction false} TrimIgnoresNewline(s: string)
    ensures Trim(s + ['\n']) == Trim(s)
  {
    var t := s + ['\n'];
    if s == "" {
      assert TrimStart(t) == TrimStart(t[1..]);
    } else if IsSpace(s[0]) {
      assert t[1..] == s[1..] + ['\n'];
      TrimIgnoresNewline(s[1..]);
    } else {
      assert t[..|t| - 1] == s;
    }
  }

  // -- searching -------------------------------------------------------------------------

  predicate OccursAt(s: string, p: string, i: int) {
    0 <= i && i + |p| <= |s| && s[i..i + |p|] == p
  }

  /** The position of the first occurrence. */
  function Find(s: string, p: string): (r: Option<nat>)
    ensures r.Some? ==> OccursAt(s, p, r.value) && forall j :: 0 <= j < r.value ==> !OccursAt(s, p, j)
    ensures r.None? ==> forall j :: !OccursAt(s, p, j)
  {
    FindFrom(s, p, 0)
  }

  function FindFrom(s: string, p: string, i: nat): (r: Option<nat>)
    requires i <= |s|
    ensures r.Some? ==> OccursAt(s, p, r.value) && r.value >= i && forall j :: i <= j < r.value ==> !OccursAt(s, p, j)
    ensures r.None? ==> forall j :: i <= j ==> !OccursAt(s, p, j)
    decreases |s| - i
  {
    if OccursAt(s, p, i) then Some(i)
    else if i == |s| then None
    else FindFrom(s, p, i + 1)
  }

  /** What was before the first occurrence of `sep`, and what comes after it. */
  function SplitOnce(s: string, sep: char): Option<(string, string)> {
    if s == "" then None
    else if s[0] == sep then Some(("", s[1..]))
    else match SplitOnce(s[1..], sep)
      case None => None
      case Some((a, b)) => Some(([s[0]] + a, b))
  }

  lemma {:induction false} SplitOnceAt(a: string, sep: char, b: string)
    requires sep !in a
    ensures SplitOnce(a + [sep] + b, sep) == Some((a, b))
  {
    var s := a + [sep] + b;
    if a == "" {
      assert s[1..] == b;
    } else {
      assert s[1..] == a[1..] + [sep] + b;
      SplitOnceAt(a[1..], sep, b);
      assert [s[0]] + a[1..] == a;
    }
  }

  lemma {:induction false} SplitOnceNone(s: string, sep: char)
    requires sep !in s
    ensures SplitOnce(s, sep).None?
  {
    if s != "" {
      SplitOnceNone(s[1..], sep);
    }
  }

  // -- words -----------------------------------------------------------------------------

  /** The words of `acc + s`, where `acc` is the word being read. */
  function WordsFrom(acc: string, s: string): seq<string>
    decreases |s|
  {
    if s == "" then if acc == "" then [] else [acc]
    else if IsSpace(s[0]) then (if acc == "" then [] else [acc]) + WordsFrom("", s[1..])
    else WordsFrom(acc + [s[0]], s[1..])
  }

  /** `split_whitespace`. */
  function Words(s: string): seq<string> {
    WordsFrom("", s)
  }

  lemma {:induction false} WordRead(acc: string, w: string, rest: string)
    requires forall i :: 0 <= i < |w| ==> !IsSpace(w[i])
    ensures WordsFrom(acc, w + rest) == WordsFrom(acc + w, rest)
    decreases |w|
  {
    if w == "" {
      assert w + rest == rest && acc + w == acc;
    } else {
      assert (w + rest)[1..] == w[1..] + rest;
      assert acc + [w[0]] + w[1..] == acc + w;
      WordRead(acc + [w[0]], w[1..], rest);
    }
  }

  lemma WordsOfOne(w: string)
    requires Solid(w)
    ensures Words(w) == [w]
  {
    WordRead("", w, "");
    assert w + "" == w && "" + w == w;
  }

  lemma WordsOfTwo(w: string, c: char, rest: string)
    requires Solid(w) && IsSpace(c)
    ensures Words(w + [c] + rest) == [w] + Words(rest)
  {
    WordRead("", w, [c] + rest);
    assert w + [c] + rest == w + ([c] + rest) && "" + w == w && ([c] + rest)[1..] == rest;
  }

  function Join(ws: seq<string>): string {
    if ws == [] then "" else if |ws| == 1 then ws[0] else ws[0] + [' '] + Join(ws[1..])
  }

  predicate AllSolid(ws: seq<string>) {
    forall i :: 0 <= i < |ws| ==> Solid(ws[i])
  }

  lemma {:induction false} WordsOfJoin(ws: seq<string>)
    requires AllSolid(ws)
    ensures Words(Join(ws)) == ws
  {
    if |ws| == 1 {
      WordsOfOne(ws[0]);
    } else if |ws| > 1 {
      WordsOfJoin(ws[1..]);
      WordsOfTwo(ws[0], ' ', Join(ws[1..]));
    }
  }

  /** Joined words end in a word and contain no newline. */
  lemma {:induction false} JoinEnds(ws: seq<string>)
    requires AllSolid(ws)
    ensures '\n' !in Join(ws)
    ensures ws != [] ==> Join(ws) != "" && !IsSpace(Join(ws)[|Join(ws)| - 1])
  {
    if |ws| > 1 {
      JoinEnds(ws[1..]);
    }
  }

  // -- lines -----------------------------------------------------------------------------

  /** A line without its newline, and without the carriage return before it. */
  function LineBody(raw: string): string {
    if raw == "" || raw[|raw| - 1] != '\n' then raw
    else
      var l := raw[..|raw| - 1];
      if l == "" || l[|l| - 1] != '\r' then l else l[..|l| - 1]
  }

  /** The lines of `acc + s`, newlines included, where `acc` is the line being read. */
  function RawFrom(acc: string, s: string): seq<string>
    decreases |s|
  {
    if s == "" then if acc == "" then [] else [acc]
    else if s[0] == '\n' then [acc + ['\n']] + RawFrom("", s[1..])
    else RawFrom(acc + [s[0]], s[1..])
  }

  /** `split_inclusive('\n')`. */
  function SplitInclusive(s: string): seq<string> {
    RawFrom("", s)
  }

  /** `lines`. */
  function Lines(s: string): seq<string> {
    seq(|SplitInclusive(s)|, i requires 0 <= i < |SplitInclusive(s)| => LineBody(SplitInclusive(s)[i]))
  }

  function TotalLen(ls: seq<string>): nat {
    if ls == [] then 0 else |ls[0]| + TotalLen(ls[1..])
  }

  lemma {:induction false} RawTotal(acc: string, s: string)
    ensures TotalLen(RawFrom(acc, s)) == |acc| + |s|
    decreases |s|
  {
    if s != "" {
      if s[0] == '\n' {
        RawTotal("", s[1..]);
      } else {
        RawTotal(acc + [s[0]], s[1..]);
      }
    }
  }

  predicate EndsLine(s: string) {
    s == "" || s[|s| - 1] == '\n'
  }

  lemma {:induction false} RawConcat(acc: string, a: string, b: string)
    requires EndsLine(a) && (a == "" ==> acc == "")
    ensures RawFrom(acc, a + b) == RawFrom(acc, a) + RawFrom("", b)
    decreases |a|
  {
    if a == "" {
      assert a + b == b;
    } else {
      assert (a + b)[1..] == a[1..] + b;
      if a[0] == '\n' {
        RawConcat("", a[1..], b);
      } else {
        RawConcat(acc + [a[0]], a[1..], b);
      }
    }
  }

  /** Text that ends a line splits from what follows it. */
  lemma LinesConcat(a: string, b: string)
    requires EndsLine(a)
    ensures SplitInclusive(a + b) == SplitInclusive(a) + SplitInclusive(b)
    ensures Lines(a + b) == Lines(a) + Lines(b)
  {
    RawConcat("", a, b);
  }

  /** A line as the renderer writes it: no newline inside, no carriage return at its end. */
  predicate Plain(l: string) {
    '\n' !in l && (l != "" ==> l[|l| - 1] != '\r')
  }

  lemma {:induction false} LineRead(acc: string, l: string, rest: string)
    requires '\n' !in l
    ensures RawFrom(acc, l + rest) == RawFrom(acc + l, rest)
    decreases |l|
  {
    if l == "" {
      assert l + rest == rest && acc + l == acc;
    } else {
      assert (l + rest)[1..] == l[1..] + rest;
      assert acc + [l[0]] + l[1..] == acc + l;
      LineRead(acc + [l[0]], l[1..], rest);
    }
  }

  function Unlines(ls: seq<string>): string {
    if ls == [] then "" else ls[0] + ['\n'] + Unlines(ls[1..])
  }

  lemma {:induction false} UnlinesEnds(ls: seq<string>)
    ensures EndsLine(Unlines(ls))
  {
    if ls != [] {
      UnlinesEnds(ls[1..]);
    }
  }

  lemma {:induction false} UnlinesConcat(a: seq<string>, b: seq<string>)
    ensures Unlines(a + b) == Unlines(a) + Unlines(b)
  {
    if a == [] {
      assert a + b == b;
    } else {
      assert (a + b)[1..] == a[1..] + b;
      UnlinesConcat(a[1..], b);
    }
  }

  function Ended(ls: seq<string>): seq<string> {
    seq(|ls|, i requires 0 <= i < |ls| => ls[i] + ['\n'])
  }

  lemma RawOfLine(l: string, rest: string)
    requires '\n' !in l
    ensures SplitInclusive(l + ['\n'] + rest) == [l + ['\n']] + SplitInclusive(rest)
  {
    LineRead("", l, ['\n'] + rest);
    assert l + ['\n'] + rest == l + (['\n'] + rest) && "" + l == l && (['\n'] + rest)[1..] == rest;
  }

  lemma {:induction false} RawOfUnlines(ls: seq<string>)
    requires forall i :: 0 <= i < |ls| ==> '\n' !in ls[i]
    ensures SplitInclusive(Unlines(ls)) == Ended(ls)
  {
    if ls != [] {
      RawOfLine(ls[0], Unlines(ls[1..]));
      RawOfUnlines(ls[1..]);
      assert Ended(ls) == [ls[0] + ['\n']] + Ended(ls[1..]);
    }
  }

  lemma BodyOfEnded(l: string)
    requires Plain(l)
    ensures LineBody(l + ['\n']) == l
  {
    assert (l + ['\n'])[..|l|] == l;
  }

  lemma LinesOfUnlines(ls: seq<string>)
    requires forall i :: 0 <= i < |ls| ==> Plain(ls[i])
    ensures Lines(Unlines(ls)) == ls
  {
    RawOfUnlines(ls);
    var text := Unlines(ls);
    assert SplitInclusive(text) == Ended(ls);
    forall i | 0 <= i < |ls| ensures Lines(text)[i] == ls[i] {
      assert Lines(text)[i] == LineBody(Ended(ls)[i]);
      BodyOfEnded(ls[i]);
    }
  }

  // -- a pattern found in a line is found in the text ------------------------------------

  lemma TrimIsSlice(l: string) returns (from: nat)
    ensures OccursAt(l, Trim(l), from)
  {
    var t := TrimStart(l);
    TrimStartIsTail(l);
    TrimEndIsHead(t);
    from := |l| - |t|;
    assert l[from..from + |Trim(l)|] == t[..|Trim(l)|];
  }

  lemma OccursTransitive(s: string, m: string, p: string, i: int, j: int)
    requires OccursAt(s, m, i) && OccursAt(m, p, j)
    ensures OccursAt(s, p, i + j)
  {
    forall k | 0 <= k < |p| ensures s[i + j + k] == p[k] {
      assert m[j..j + |p|][k] == m[j + k];
      assert s[i..i + |m|][j + k] == s[i + j + k];
    }
    assert s[i + j..i + j + |p|] == p;
  }

  lemma OccursInTail(head: string, tail: string, p: string, j: int)
    requires OccursAt(tail, p, j)
    ensures OccursAt(head + tail, p, |head| + j)
  {
    assert (head + tail)[|head|..|head| + |tail|] == tail;
    OccursTransitive(head + tail, tail, p, |head|, j);
  }

  /** Every line occurs in the text. */
  lemma {:induction false} RawOccurs(acc: string, s: string, i: nat) returns (j: int)
    requires i < |RawFrom(acc, s)|
    ensures OccursAt(acc + s, RawFrom(acc, s)[i], j)
    decreases |s|
  {
    if s == "" {
      assert acc + s == acc;
      j := 0;
    } else if s[0] == '\n' {
      var raw := acc + ['\n'];
      assert acc + s == raw + s[1..];
      if i == 0 {
        j := 0;
      } else {
        assert "" + s[1..] == s[1..];
        var line := RawFrom("", s[1..])[i - 1];
        assert RawFrom(acc, s)[i] == line;
        j := RawOccurs("", s[1..], i - 1);
        OccursInTail(raw, s[1..], line, j);
        j := |raw| + j;
      }
    } else {
      j := RawOccurs(acc + [s[0]], s[1..], i);
      assert acc + [s[0]] + s[1..] == acc + s;
    }
  }

  lemma BodyOccurs(raw: string)
    ensures OccursAt(raw, LineBody(raw), 0)
  {
  }

  /** What a line trims to occurs in the text. */
  lemma TrimmedLineOccurs(s: string, i: nat) returns (j: int)
    requires i < |Lines(s)|
    ensures OccursAt(s, Trim(Lines(s)[i]), j)
  {
    assert "" + s == s;
    var raw := SplitInclusive(s)[i];
    var line := LineBody(raw);
    var a := RawOccurs("", s, i);
    BodyOccurs(raw);
    OccursTransitive(s, raw, line, a, 0);
    var b := TrimIsSlice(line);
    OccursTransitive(s, line, Trim(line), a, b);
    j := a + b;
  }
}
