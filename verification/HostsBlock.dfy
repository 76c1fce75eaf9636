/** The managed block of the hosts file: splitting, rendering, comparing and parsing
    (src/publish/hosts.rs). */
module HostsBlock {
  import opened Wrappers
  import opened Text

  const BEGIN_MARKER := "# BEGIN nixnet"
  const END_MARKER := "# END nixnet"
  const COMMENT := "# nixnet "
  const CONFIRMED := "confirmed="

  datatype Entry = Entry(address: string, hostnames: seq<string>, confirmed: Option<string>)

  /** What config validation, the address-literal check and RFC 3339 guarantee of an entry. */
  predicate ValidEntry(e: Entry) {
    && Solid(e.address) && e.address[0] != '#'
    && e.hostnames != [] && AllSolid(e.hostnames)
    && (e.confirmed.Some? ==> Solid(e.confirmed.value))
  }

  predicate ValidEntries(es: seq<Entry>) {
    forall i :: 0 <= i < |es| ==> ValidEntry(es[i])
  }

  // -- splitting -------------------------------------------------------------------------

  /** How much of a text there is up to and including the END line, its lines being `raw`. */
  function EndOf(raw: seq<string>): (r: Option<nat>)
    ensures r.Some? ==> r.value <= TotalLen(raw)
  {
    if raw == [] then None
    else if Trim(raw[0]) == END_MARKER then Some(|raw[0]|)
    else match EndOf(raw[1..])
      case None => None
      case Some(n) => Some(|raw[0]| + n)
  }

  /** The offset just past the END line of the block that starts at `begin`. */
  function BlockEnd(content: string, begin: nat): (r: Option<nat>)
    requires begin <= |content|
    ensures r.Some? ==> begin <= r.value <= |content|
  {
    RawTotal("", content[begin..]);
    match EndOf(SplitInclusive(content[begin..]))
    case None => None
    case Some(n) => Some(begin + n)
  }

  function TrimNewlines(s: string): (r: string)
    ensures |r| <= |s| && r == s[..|r|]
    ensures r != "" ==> r[|r| - 1] != '\n'
  {
    if s == "" || s[|s| - 1] != '\n' then s else TrimNewlines(s[..|s| - 1])
  }

  /** Trailing newlines become one, and an empty region stays empty. */
  function Normalised(raw: string): string {
    var t := TrimNewlines(raw);
    if t == "" then "" else t + ['\n']
  }

  /** The static regions around the block, and whether there was a BEGIN marker. */
  function SplitStatic(content: string): (string, string, bool) {
    match Find(content, BEGIN_MARKER)
    case None => (Normalised(content), "", false)
    case Some(begin) =>
      (Normalised(content[..begin]),
       match BlockEnd(content, begin) { case None => "" case Some(end) => content[end..] },
       true)
  }

  // -- rendering -------------------------------------------------------------------------

  /** The order of `str`: by code point, a proper prefix first. */
  predicate Less(a: string, b: string) {
    if b == "" then false
    else if a == "" then true
    else if a[0] != b[0] then a[0] < b[0]
    else Less(a[1..], b[1..])
  }

  function InsertEntry(es: seq<Entry>, e: Entry): seq<Entry> {
    if es == [] || Less(e.address, es[0].address) then [e] + es
    else [es[0]] + InsertEntry(es[1..], e)
  }

  /** The stable sort by address. */
  function ByAddress(es: seq<Entry>): seq<Entry> {
    if es == [] then [] else InsertEntry(ByAddress(es[..|es| - 1]), es[|es| - 1])
  }

  function EntryLines(e: Entry): seq<string> {
    (if e.confirmed.Some? then [COMMENT + e.address + [' '] + (CONFIRMED + e.confirmed.value)] else [])
    + [e.address + ['\t'] + Join(e.hostnames)]
  }

  function EntriesLines(es: seq<Entry>): seq<string> {
    if es == [] then [] else EntryLines(es[0]) + EntriesLines(es[1..])
  }

  function BlockLines(es: seq<Entry>, writtenAt: string): seq<string> {
    [BEGIN_MARKER, COMMENT + "written=" + writtenAt] + (EntriesLines(es) + [END_MARKER])
  }

  function Block(es: seq<Entry>, writtenAt: string): string {
    Unlines(BlockLines(es, writtenAt))
  }

  function Render(prefix: string, es: seq<Entry>, suffix: string, writtenAt: string): string {
    prefix + Block(es, writtenAt) + suffix
  }

  // -- comparing -------------------------------------------------------------------------

  /** The daemon's own freshness comments. */
  predicate Freshness(line: string) {
    StartsWith(TrimStart(line), COMMENT)
  }

  function Significant(ls: seq<string>): seq<string> {
    if ls == [] then [] else (if Freshness(ls[0]) then [] else [ls[0]]) + Significant(ls[1..])
  }

  predicate SameButForFreshness(a: string, b: string) {
    Significant(Lines(a)) == Significant(Lines(b))
  }

  // -- parsing ---------------------------------------------------------------------------

  function ParseConfirmedComment(line: string): Option<(string, string)> {
    if !StartsWith(line, COMMENT) then None
    else match SplitOnce(line[|COMMENT|..], ' ')
      case None => None
      case Some((address, tail)) =>
        if !StartsWith(tail, CONFIRMED) || address == "" || tail[|CONFIRMED|..] == "" then None
        else Some((address, tail[|CONFIRMED|..]))
  }

  datatype ParseState = ParseState(inBlock: bool, pending: Option<(string, string)>, entries: seq<Entry>)

  function Step(st: ParseState, line: string): ParseState {
    var t := Trim(line);
    if t == BEGIN_MARKER then st.(inBlock := true)
    else if t == END_MARKER then st.(inBlock := false)
    else if !st.inBlock then st
    else if t != "" && t[0] == '#' then st.(pending := ParseConfirmedComment(t))
    else
      var fields := Words(line);
      if |fields| < 2 then st
      else
        var confirmed := if st.pending.Some? && st.pending.value.0 == fields[0] then Some(st.pending.value.1) else None;
        ParseState(true, None, st.entries + [Entry(fields[0], fields[1..], confirmed)])
  }

  function Fold(st: ParseState, ls: seq<string>): ParseState
    decreases |ls|
  {
    if ls == [] then st else Fold(Step(st, ls[0]), ls[1..])
  }

  const OUTSIDE := ParseState(false, None, [])

  function Parse(content: string): seq<Entry> {
    Fold(OUTSIDE, Lines(content)).entries
  }

  // -- the loops of the source -----------------------------------------------------------

  method FindBlockEnd(content: string, begin: nat) returns (end: Option<nat>)
    requires begin <= |content|
    ensures end == BlockEnd(content, begin)
  {
    var off := begin;
    var raw := SplitInclusive(content[begin..]);
    var i := 0;
    while i < |raw|
      invariant 0 <= i <= |raw| && off >= begin
      invariant EndOf(raw) == match EndOf(raw[i..]) { case None => None case Some(n) => Some(off - begin + n) }
    {
      assert raw[i..][1..] == raw[i + 1..];
      if Trim(raw[i]) == END_MARKER {
        return Some(off + |raw[i]|);
      }
      off := off + |raw[i]|;
      i := i + 1;
    }
    end := None;
  }

  method ParseNixHosts(content: string) returns (entries: seq<Entry>)
    ensures entries == Parse(content)
  {
    entries := [];
    var inBlock := false;
    var pending: Option<(string, string)> := None;
    var lines := Lines(content);
    var i := 0;
    while i < |lines|
      invariant 0 <= i <= |lines|
      invariant Fold(ParseState(inBlock, pending, entries), lines[i..]) == Fold(OUTSIDE, lines)
    {
      var line := lines[i];
      var trimmed := Trim(line);
      assert lines[i..][1..] == lines[i + 1..];
      if trimmed == BEGIN_MARKER {
        inBlock := true;
      } else if trimmed == END_MARKER {
        inBlock := false;
      } else if inBlock {
        if trimmed != "" && trimmed[0] == '#' {
          pending := ParseConfirmedComment(trimmed);
        } else {
          var fields := Words(line);
          if |fields| > 0 {
            var address, hostnames := fields[0], fields[1..];
            if hostnames != [] {
              var confirmed := None;
              if pending.Some? && pending.value.0 == address {
                confirmed := Some(pending.value.1);
              }
              pending := None;
              entries := entries + [Entry(address, hostnames, confirmed)];
            }
          }
        }
      }
      i := i + 1;
    }
  }
}
