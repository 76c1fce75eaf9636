/** What parsing any file finds, said of its lines alone (src/publish/hosts.rs: `parse_nix_hosts`). */
module HostsReading {
  import opened Wrappers
  import opened Text
  import opened HostsBlock
  import opened HostsProofs

  predicate IsBegin(l: string) {
    Trim(l) == "# BEGIN nixnet"
  }

  predicate IsEnd(l: string) {
    Trim(l) == "# END nixnet"
  }

  /** Among the first `n` lines there is a BEGIN line that no END line follows. */
  ghost predicate InBlock(ls: seq<string>, n: nat) {
    exists j :: 0 <= j < n && j < |ls| && IsBegin(ls[j]) && forall k :: j < k < n && k < |ls| ==> !IsEnd(ls[k])
  }

  ghost predicate Inside(ls: seq<string>, i: nat) {
    i < |ls| && InBlock(ls, i) && !IsBegin(ls[i]) && !IsEnd(ls[i])
  }

  predicate Hashed(l: string) {
    Trim(l) != "" && Trim(l)[0] == '#'
  }

  ghost predicate IsComment(ls: seq<string>, i: nat) {
    Inside(ls, i) && Hashed(ls[i])
  }

  /** A line inside a block that is no comment and has an address and a name. */
  ghost predicate IsEntry(ls: seq<string>, i: nat) {
    Inside(ls, i) && !Hashed(ls[i]) && |Words(ls[i])| >= 2
  }

  /** No line between `j` and `n` is a comment or an entry. */
  ghost predicate Undisturbed(ls: seq<string>, j: nat, n: nat) {
    forall k: nat :: j < k < n ==> !IsComment(ls, k) && !IsEntry(ls, k)
  }

  ghost predicate Latest(ls: seq<string>, j: nat, n: nat, address: string, t: string) {
    j < n && IsComment(ls, j) && ParseConfirmedComment(Trim(ls[j])) == Some((address, t)) && Undisturbed(ls, j, n)
  }

  /** The latest comment before line `n`, with no entry since, confirms `address` at `t`. */
  ghost predicate Pending(ls: seq<string>, n: nat, address: string, t: string) {
    exists j: nat :: Latest(ls, j, n, address, t)
  }

  /** The entry that line `i` gives. */
  ghost predicate Gives(ls: seq<string>, i: nat, e: Entry) {
    && IsEntry(ls, i) && [e.address] + e.hostnames == Words(ls[i])
    && forall t :: e.confirmed == Some(t) <==> Pending(ls, i, Words(ls[i])[0], t)
  }

  /** The entries are those of the entry lines among the first `n`, in order. */
  ghost predicate Reads(ls: seq<string>, n: nat, es: seq<Entry>, at: seq<nat>) {
    && |at| == |es|
    && (forall k, l :: 0 <= k < l < |at| ==> at[k] < at[l])
    && (forall k :: 0 <= k < |at| ==> at[k] < n && Gives(ls, at[k], es[k]))
    && (forall i: nat :: i < n && IsEntry(ls, i) ==> i in at)
  }

  lemma InBlockStep(ls: seq<string>, n: nat)
    requires n < |ls|
    ensures InBlock(ls, n + 1) <==> IsBegin(ls[n]) || (!IsEnd(ls[n]) && InBlock(ls, n))
  {
    if IsBegin(ls[n]) {
      assert InBlock(ls, n + 1);
    } else if !IsEnd(ls[n]) && InBlock(ls, n) {
      var j :| 0 <= j < n && j < |ls| && IsBegin(ls[j]) && forall k :: j < k < n && k < |ls| ==> !IsEnd(ls[k]);
      assert IsBegin(ls[j]) && forall k :: j < k < n + 1 && k < |ls| ==> !IsEnd(ls[k]);
    }
  }

  lemma PendingStep(ls: seq<string>, n: nat, address: string, t: string)
    requires n < |ls|
    ensures Pending(ls, n + 1, address, t)
            <==> if IsComment(ls, n) then ParseConfirmedComment(Trim(ls[n])) == Some((address, t))
                 else !IsEntry(ls, n) && Pending(ls, n, address, t)
  {
    if IsComment(ls, n) && ParseConfirmedComment(Trim(ls[n])) == Some((address, t)) {
      assert Latest(ls, n, n + 1, address, t);
    }
    if j: nat :| !IsComment(ls, n) && !IsEntry(ls, n) && Latest(ls, j, n, address, t) {
      assert Undisturbed(ls, j, n + 1);
      assert Latest(ls, j, n + 1, address, t);
    }
    var m := n + 1;
    if j: nat :| Latest(ls, j, m, address, t) {
      if j < n {
        assert !IsComment(ls, n) && !IsEntry(ls, n);
        assert Latest(ls, j, n, address, t);
      }
    }
  }

  /** The fold over the first `n` lines knows exactly this of them. */
  ghost predicate Knows(ls: seq<string>, n: nat, st: ParseState) {
    && (st.inBlock <==> InBlock(ls, n))
    && (forall a, t :: st.pending == Some((a, t)) <==> Pending(ls, n, a, t))
  }

  lemma KnowsNext(ls: seq<string>, n: nat, st: ParseState)
    requires n < |ls| && Knows(ls, n, st)
    ensures Knows(ls, n + 1, Step(st, ls[n]))
    ensures Step(st, ls[n]).entries == st.entries <==> !IsEntry(ls, n)
  {
    InBlockStep(ls, n);
    forall a, t ensures Step(st, ls[n]).pending == Some((a, t)) <==> Pending(ls, n + 1, a, t) {
      PendingStep(ls, n, a, t);
    }
  }

  lemma EntryRead(ls: seq<string>, n: nat, st: ParseState)
    requires n < |ls| && Knows(ls, n, st) && IsEntry(ls, n)
    ensures var m := Step(st, ls[n]).entries;
            |m| == |st.entries| + 1 && m[..|st.entries|] == st.entries && Gives(ls, n, m[|st.entries|])
  {
    var fields := Words(ls[n]);
    assert [fields[0]] + fields[1..] == fields;
    forall t ensures (st.pending.Some? && st.pending.value.0 == fields[0] && st.pending.value.1 == t)
                     <==> Pending(ls, n, fields[0], t) {
      assert st.pending == Some((fields[0], t)) <==> Pending(ls, n, fields[0], t);
    }
  }

  lemma ReadsOn(ls: seq<string>, n: nat, es: seq<Entry>, at: seq<nat>)
    requires Reads(ls, n, es, at) && !IsEntry(ls, n)
    ensures Reads(ls, n + 1, es, at)
  {
  }

  lemma ReadsOne(ls: seq<string>, n: nat, es: seq<Entry>, at: seq<nat>, e: Entry)
    requires Reads(ls, n, es, at) && Gives(ls, n, e)
    ensures Reads(ls, n + 1, es + [e], at + [n])
  {
    var m, a := es + [e], at + [n];
    forall k | 0 <= k < |a| ensures a[k] < n + 1 && Gives(ls, a[k], m[k]) {
      if k < |at| {
        assert a[k] == at[k] && m[k] == es[k];
      }
    }
    forall i: nat | i < n + 1 && IsEntry(ls, i) ensures i in a {
      assert i < n ==> i in at;
    }
  }

  lemma {:induction false} ReadSoFar(ls: seq<string>, n: nat) returns (at: seq<nat>)
    requires n <= |ls|
    ensures Knows(ls, n, Fold(OUTSIDE, ls[..n])) && Reads(ls, n, Fold(OUTSIDE, ls[..n]).entries, at)
  {
    if n == 0 {
      at := [];
    } else {
      at := ReadSoFar(ls, n - 1);
      var st := Fold(OUTSIDE, ls[..n - 1]);
      var next := Step(st, ls[n - 1]);
      assert Fold(OUTSIDE, ls[..n]) == next by {
        assert ls[..n] == ls[..n - 1] + [ls[n - 1]];
        FoldConcat(OUTSIDE, ls[..n - 1], [ls[n - 1]]);
        FoldOne(st, ls[n - 1]);
      }
      KnowsNext(ls, n - 1, st);
      if IsEntry(ls, n - 1) {
        EntryRead(ls, n - 1, st);
        var e := next.entries[|st.entries|];
        assert next.entries == st.entries + [e];
        ReadsOne(ls, n - 1, st.entries, at, e);
        at := at + [n - 1];
      } else {
        ReadsOn(ls, n - 1, st.entries, at);
      }
    }
  }

  /** Whatever the file holds, its entries are exactly those its entry lines give, in their order: the
      words of the line, confirmed by the latest comment before it if that names its address. */
  lemma ParseFinds(content: string) returns (at: seq<nat>)
    ensures Reads(Lines(content), |Lines(content)|, Parse(content), at)
  {
    var ls := Lines(content);
    at := ReadSoFar(ls, |ls|);
    assert ls[..|ls|] == ls;
  }
}
