/** What the library functions of `Text` compute, by equations and searches that do not mention them. */
module TextFacts {
  import opened Wrappers
  import opened Text

  predicate AllSpace(s: string) {
    forall i :: 0 <= i < |s| ==> IsSpace(s[i])
  }

  /** Neither end is white space. */
  predicate Tight(s: string) {
    s == "" || (!IsSpace(s[0]) && !IsSpace(s[|s| - 1]))
  }

  lemma {:induction false} TrimStartOf(a: string, s: string)
    requires AllSpace(a) && (s == "" || !IsSpace(s[0]))
    ensures TrimStart(a + s) == s
  {
    if a == "" {
      assert a + s == s;
    } else {
      assert (a + s)[1..] == a[1..] + s;
      TrimStartOf(a[1..], s);
    }
  }

  lemma {:induction false} TrimEndOf(s: string, b: string)
    requires AllSpace(b) && (s == "" || !IsSpace(s[|s| - 1]))
    ensures TrimEnd(s + b) == s
  {
    if b == "" {
      assert s + b == s;
    } else {
      assert (s + b)[..|s + b| - 1] == s + b[..|b| - 1];
      TrimEndOf(s, b[..|b| - 1]);
    }
  }

  /** `trim` removes exactly the white space at both ends. */
  lemma TrimOf(a: string, s: string, b: string)
    requires AllSpace(a) && Tight(s) && AllSpace(b)
    ensures Trim(a + s + b) == s
  {
    if s == "" {
      var all := a + s + b;
      assert all == all + "";
      TrimStartOf(all, "");
    } else {
      assert a + s + b == a + (s + b);
      TrimStartOf(a, s + b);
      TrimEndOf(s, b);
    }
  }

  /** `split_once` splits at the first separator, and finds none only where there is none. */
  lemma SplitOnceExactly(s: string, sep: char)
    ensures SplitOnce(s, sep).None? <==> sep !in s
    ensures forall a: string, b: string :: SplitOnce(s, sep) == Some((a, b)) <==> sep !in a && s == a + [sep] + b
  {
    forall a: string, b: string | sep !in a && s == a + [sep] + b ensures SplitOnce(s, sep) == Some((a, b)) {
      SplitOnceAt(a, sep, b);
    }
    SplitOnceSplits(s, sep);
    if sep !in s {
      SplitOnceNone(s, sep);
    }
  }

  lemma {:induction false} SplitOnceSplits(s: string, sep: char)
    ensures match SplitOnce(s, sep) case None => sep !in s case Some((a, b)) => sep !in a && s == a + [sep] + b
  {
    if s != "" && s[0] != sep {
      SplitOnceSplits(s[1..], sep);
      match SplitOnce(s[1..], sep)
      case None =>
      case Some((a, b)) => assert [s[0]] + a + [sep] + b == [s[0]] + (a + [sep] + b);
    }
  }

  lemma {:induction false} WordsSplit(acc: string, a: string, c: char, b: string)
    requires IsSpace(c) && forall i :: 0 <= i < |acc| ==> !IsSpace(acc[i])
    ensures WordsFrom(acc, a + [c] + b) == WordsFrom(acc, a) + Words(b)
    decreases |a|
  {
    var s := a + [c] + b;
    if a == "" {
      assert s[1..] == b;
    } else {
      assert s[1..] == a[1..] + [c] + b;
      if IsSpace(a[0]) {
        WordsSplit("", a[1..], c, b);
        assert WordsFrom(acc, s) == (if acc == "" then [] else [acc]) + WordsFrom("", s[1..]);
      } else {
        WordsSplit(acc + [a[0]], a[1..], c, b);
      }
    }
  }

  /** `split_whitespace`: words fall apart at every white space, and a solid text is one word. */
  lemma WordsAre(a: string, c: char, b: string)
    ensures IsSpace(c) ==> Words(a + [c] + b) == Words(a) + Words(b)
    ensures Solid(a) ==> Words(a) == [a]
    ensures Words("") == []
  {
    if IsSpace(c) {
      WordsSplit("", a, c, b);
    }
    if Solid(a) {
      WordsOfOne(a);
    }
  }

  function Concat(ls: seq<string>): string {
    if ls == [] then "" else ls[0] + Concat(ls[1..])
  }

  lemma ReadLine(acc: string, l: string, rest: string)
    requires '\n' !in l
    ensures RawFrom(acc, l + ['\n'] + rest) == [acc + l + ['\n']] + SplitInclusive(rest)
    ensures RawFrom(acc, l) == if acc + l == "" then [] else [acc + l]
    decreases |l|
  {
    var s := l + ['\n'] + rest;
    if l == "" {
      assert s[1..] == rest && acc + l == acc;
    } else {
      assert s[1..] == l[1..] + ['\n'] + rest && acc + [l[0]] + l[1..] == acc + l && l[0] in l;
      ReadLine(acc + [l[0]], l[1..], rest);
      assert acc + [l[0]] + l[1..] + ['\n'] == acc + l + ['\n'];
    }
  }

  /** `split_inclusive` and `lines`: one line up to each newline, a last one without only where there is
      text; `lines` drops the newline and one carriage return before it, and nothing of a last line. */
  lemma LinesAre(l: string, rest: string)
    requires '\n' !in l
    ensures SplitInclusive(l + ['\n'] + rest) == [l + ['\n']] + SplitInclusive(rest)
    ensures SplitInclusive(l) == if l == "" then [] else [l]
    ensures Lines(l + ['\n'] + rest) == [if l != "" && l[|l| - 1] == '\r' then l[..|l| - 1] else l] + Lines(rest)
    ensures Lines(l) == if l == "" then [] else [l]
  {
    ReadLine("", l, rest);
    assert "" + l == l;
    var line := l + ['\n'];
    assert line[..|line| - 1] == l;
    assert l != "" ==> l[|l| - 1] in l;
  }

  /** A text is the concatenation of its lines. */
  lemma {:induction false} LinesMakeText(acc: string, s: string)
    ensures Concat(RawFrom(acc, s)) == acc + s
    decreases |s|
  {
    if s != "" {
      assert s == [s[0]] + s[1..];
      if s[0] == '\n' {
        LinesMakeText("", s[1..]);
        assert RawFrom(acc, s)[1..] == RawFrom("", s[1..]);
      } else {
        LinesMakeText(acc + [s[0]], s[1..]);
      }
    }
  }

  /** `join(" ")`. */
  lemma JoinIs(w: string, ws: seq<string>)
    ensures Join([]) == "" && Join([w]) == w
    ensures ws != [] ==> Join([w] + ws) == w + " " + Join(ws)
  {
    assert ([w] + ws)[1..] == ws;
  }
}
