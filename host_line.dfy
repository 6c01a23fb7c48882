/**
 * The parser for one line of nmap's grepable output (`-oG -`): a line names
 * a live host when it contains "Status: Up", and the host's address is what
 * the search for `Host: ([0-9\.]+)` captures, namely the maximal run of
 * digits and dots right after the leftmost "Host: " that is followed by at
 * least one such character.
 */
module HostLine {
  import opened Options
  import opened Text

  /** The marker nmap prints for a host that answered a probe. */
  const StatusUp: string := "Status: Up"

  /** The literal prefix of the search pattern. */
  const HostTag: string := "Host: "

  /** The character class `[0-9\.]` of the search pattern. */
  predicate IsAddrChar(c: char) {
    ('0' <= c <= '9') || c == '.'
  }

  /** What the capture group can match: one or more digits and dots. */
  predicate IsAddress(a: string) {
    a != [] && forall i :: 0 <= i < |a| ==> IsAddrChar(a[i])
  }

  /** The search pattern can start matching at position `p`: "Host: " is
      there and at least one digit or dot follows it. */
  predicate HostAt(line: string, p: nat) {
    OccursAt(line, HostTag, p) && p + |HostTag| < |line| && IsAddrChar(line[p + |HostTag|])
  }

  /** `addr` is what the search captures in `line`: the pattern matches at
      `p` and at no earlier position, and `addr` is the maximal run of
      digits and dots that starts right after "Host: ". */
  predicate IsLeftmostMatch(line: string, p: nat, addr: string) {
    HostAt(line, p)
    && IsAddress(addr)
    && (forall q: nat :: q < p ==> !HostAt(line, q))
    && p + |HostTag| + |addr| <= |line|
    && line[p + |HostTag| .. p + |HostTag| + |addr|] == addr
    && (p + |HostTag| + |addr| == |line| || !IsAddrChar(line[p + |HostTag| + |addr|]))
  }

  /** The leftmost position at or after `from` where the pattern can match. */
  function FindHost(line: string, from: nat): (r: Option<nat>)
    ensures r.Some? ==> from <= r.value && HostAt(line, r.value)
    ensures r.Some? ==> forall q :: from <= q < r.value ==> !HostAt(line, q)
    ensures r.None? ==> forall q: nat :: from <= q ==> !HostAt(line, q)
    decreases |line| - from
  {
    if from + |HostTag| >= |line| then None
    else if HostAt(line, from) then Some(from)
    else FindHost(line, from + 1)
  }

  /** The length of the run of digits and dots that starts at `start`. */
  function AddrRun(line: string, start: nat): (n: nat)
    requires start <= |line|
    ensures start + n <= |line|
    ensures forall i :: start <= i < start + n ==> IsAddrChar(line[i])
    ensures start + n == |line| || !IsAddrChar(line[start + n])
    decreases |line| - start
  {
    if start < |line| && IsAddrChar(line[start]) then 1 + AddrRun(line, start + 1) else 0
  }

  /** `re.search(r"Host: ([0-9\.]+)", line)` followed by `.group(1)`: the
      captured address, or None when the pattern matches nowhere. */
  function SearchHost(line: string): (r: Option<string>)
    ensures r.Some? ==> IsAddress(r.value)
  {
    match FindHost(line, 0)
    case None => None
    case Some(p) =>
      var start := p + |HostTag|;
      Some(line[start .. start + AddrRun(line, start)])
  }

  /** The search fails exactly when the pattern can match nowhere, and
      otherwise captures the address of the leftmost match. */
  lemma SearchHostIsLeftmostMatch(line: string)
    ensures SearchHost(line).None? <==> forall p: nat :: !HostAt(line, p)
    ensures SearchHost(line).Some? ==> exists p: nat :: IsLeftmostMatch(line, p, SearchHost(line).value)
  {
    match FindHost(line, 0)
    case None =>
    case Some(p) =>
      var start := p + |HostTag|;
      var n := AddrRun(line, start);
      assert IsLeftmostMatch(line, p, line[start .. start + n]);
  }

  /** The whole per-line test of the harvesting loop: an address only for
      a line that contains "Status: Up" and in which the pattern matches,
      and then the address that the search captures. */
  function ParseHostLine(line: string): (r: Option<string>)
    ensures r.Some? ==> IsAddress(r.value)
  {
    if Contains(line, StatusUp) then SearchHost(line) else None
  }

  /** A line yields an address exactly when "Status: Up" occurs in it and
      the pattern matches somewhere in it; the address is the capture of
      the leftmost match. */
  lemma ParseHostLineSpec(line: string)
    ensures ParseHostLine(line).Some? <==>
              (exists i: nat :: OccursAt(line, StatusUp, i)) && (exists p: nat :: HostAt(line, p))
    ensures ParseHostLine(line).Some? ==> exists p: nat :: IsLeftmostMatch(line, p, ParseHostLine(line).value)
  {
    ContainsIsOccurrence(line, StatusUp);
    SearchHostIsLeftmostMatch(line);
  }

  /** A position where the pattern can match, with no such position
      between `from` and it, is what the search from `from` finds. */
  lemma {:induction false} FindHostFindsLeftmost(line: string, from: nat, p: nat)
    requires from <= p && HostAt(line, p)
    requires forall q: nat :: from <= q < p ==> !HostAt(line, q)
    ensures FindHost(line, from) == Some(p)
    decreases p - from
  {
    if from < p {
      FindHostFindsLeftmost(line, from + 1, p);
    }
  }

  /** A maximal run of digits and dots of length `n` at `start` is the one
      AddrRun measures. */
  lemma {:induction false} MaximalRunIsAddrRun(line: string, start: nat, n: nat)
    requires start + n <= |line|
    requires forall i :: start <= i < start + n ==> IsAddrChar(line[i])
    requires start + n == |line| || !IsAddrChar(line[start + n])
    ensures AddrRun(line, start) == n
    decreases n
  {
    if n > 0 {
      MaximalRunIsAddrRun(line, start + 1, n - 1);
    }
  }

  /** A leftmost match is found by FindHost, and its address is the run
      AddrRun measures. */
  lemma LeftmostMatchIsSearched(line: string, p: nat, addr: string)
    requires IsLeftmostMatch(line, p, addr)
    ensures FindHost(line, 0) == Some(p)
    ensures addr == line[p + |HostTag| .. p + |HostTag| + AddrRun(line, p + |HostTag|)]
  {
    FindHostFindsLeftmost(line, 0, p);
    var start := p + |HostTag|;
    forall i | start <= i < start + |addr|
      ensures IsAddrChar(line[i])
    {
      assert line[i] == addr[i - start];
    }
    MaximalRunIsAddrRun(line, start, |addr|);
  }

  /** The search has one answer: two leftmost matches of the same line
      start at the same place and capture the same address. */
  lemma LeftmostMatchIsUnique(line: string, p: nat, a: string, p': nat, a': string)
    requires IsLeftmostMatch(line, p, a) && IsLeftmostMatch(line, p', a')
    ensures p == p' && a == a'
  {
    LeftmostMatchIsSearched(line, p, a);
    LeftmostMatchIsSearched(line, p', a');
  }

  /** A line that starts with "Host: " and an address, continues with a
      character that cannot extend the address, and says "Status: Up"
      somewhere after it yields that address: the shape of nmap's grepable
      record of a live host. */
  lemma HostRecordYieldsAddress(addr: string, rest: string)
    requires IsAddress(addr)
    requires rest != [] && !IsAddrChar(rest[0])
    requires Contains(rest, StatusUp)
    ensures ParseHostLine(HostTag + addr + rest) == Some(addr)
  {
    var line := HostTag + addr + rest;
    var start := |HostTag| + |addr|;
    ContainsIsOccurrence(rest, StatusUp);
    var i: nat :| OccursAt(rest, StatusUp, i);
    assert line[start + i .. start + i + |StatusUp|] == rest[i .. i + |StatusUp|];
    assert OccursAt(line, StatusUp, start + i);
    ContainsIsOccurrence(line, StatusUp);
    assert line[..|HostTag|] == HostTag;
    assert line[|HostTag| .. start] == addr;
    assert line[|HostTag|] == addr[0];
    assert IsLeftmostMatch(line, 0, addr);
    LeftmostMatchIsSearched(line, 0, addr);
  }

  /** nmap's grepable record of a live host yields its address. */
  lemma UpRecordYieldsAddress()
    ensures ParseHostLine("Host: 10.0.0.2 ()\tStatus: Up") == Some("10.0.0.2")
  {
    var addr, rest := "10.0.0.2", " ()\tStatus: Up";
    assert HostTag + addr + rest == "Host: 10.0.0.2 ()\tStatus: Up";
    assert IsAddress(addr);
    assert OccursAt(rest, StatusUp, 4);
    ContainsIsOccurrence(rest, StatusUp);
    HostRecordYieldsAddress(addr, rest);
  }
}
