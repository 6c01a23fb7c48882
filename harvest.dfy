/**
 * What one nmap session contributes to the result file, as functions of the
 * child's standard output and of the point where an exception (if any)
 * interrupts `scan_subnet`.
 *
 * The child's output is a sequence of lines. An exception is one of:
 *  - StreamFault(k): raised once the first k lines have been fully handled.
 *    k = 0 is a failure to spawn; 0 < k < |stdout| a failure to read (or to
 *    print the progress line of line k - 1); k >= |stdout| a failure in
 *    `process.wait()` after the stream is exhausted.
 *  - AppendFault(j): the j-th append of the session (0-based) raises when
 *    it opens or writes the output file. If the session has no j-th record
 *    nothing is raised.
 * For each of these (all `Exception`s) `scan_subnet` returns 0 and what it
 * wrote before stays.
 */
module Harvest {
  import opened Options
  import opened Text
  import opened HostLine

  datatype Fault = NoFault | StreamFault(after: nat) | AppendFault(hit: nat)

  /** One run of the child process: its standard output and how it ends. */
  datatype Session = Session(stdout: seq<string>, fault: Fault)

  /** The records written by one session and the value `scan_subnet` returns. */
  datatype ScanOutcome = ScanOutcome(records: seq<string>, returned: nat)

  /** The line written for one live host: `ip + "\n"`. */
  function Record(addr: string): string {
    addr + "\n"
  }

  /** A line of the result file: a non-empty run of digits and dots and
      its terminator. */
  predicate IsRecord(r: string) {
    |r| >= 2 && r[|r| - 1] == '\n' && IsAddress(r[..|r| - 1])
  }

  /** The record of every address, in the same order. */
  function Records(addrs: seq<string>): seq<string> {
    seq(|addrs|, k requires 0 <= k < |addrs| => Record(addrs[k]))
  }

  /** The addresses the parser finds in `lines`, in stream order, one per
      line that yields one, duplicates included. */
  function Hits(lines: seq<string>): (addrs: seq<string>)
    ensures |addrs| <= |lines|
  {
    if lines == [] then []
    else
      var n := |lines| - 1;
      Hits(lines[..n]) + (match ParseHostLine(lines[n]) case Some(a) => [a] case None => [])
  }

  /** Every address found is a non-empty run of digits and dots. */
  lemma {:induction false} HitsAreAddresses(lines: seq<string>)
    ensures forall k :: 0 <= k < |Hits(lines)| ==> IsAddress(Hits(lines)[k])
  {
    if lines != [] {
      HitsAreAddresses(lines[..|lines| - 1]);
    }
  }

  /** A line that names a live host: "Status: Up" occurs in it and so does
      "Host: " followed by a digit or a dot. */
  ghost predicate IsUpLine(line: string) {
    (exists i: nat :: OccursAt(line, StatusUp, i)) && (exists p: nat :: HostAt(line, p))
  }

  /** The positions of the lines that name a live host, in increasing
      order: an independent description of which lines count. */
  ghost function UpIndices(lines: seq<string>): (idx: seq<nat>)
    ensures forall k :: 0 <= k < |idx| ==> idx[k] < |lines| && IsUpLine(lines[idx[k]])
    ensures forall k, k' :: 0 <= k < k' < |idx| ==> idx[k] < idx[k']
    ensures forall i :: 0 <= i < |lines| && IsUpLine(lines[i]) ==> i in idx
  {
    if lines == [] then []
    else
      var n := |lines| - 1;
      var before := UpIndices(lines[..n]);
      assert forall i :: 0 <= i < n ==> lines[..n][i] == lines[i];
      before + (if IsUpLine(lines[n]) then [n] else [])
  }

  /** The k-th address found is the address of the k-th line that yields
      one; so the number of addresses is the number of such lines. */
  lemma {:induction false} HitsAreUpLines(lines: seq<string>)
    ensures |Hits(lines)| == |UpIndices(lines)|
    ensures forall k :: 0 <= k < |Hits(lines)| ==>
              ParseHostLine(lines[UpIndices(lines)[k]]) == Some(Hits(lines)[k])
  {
    if lines != [] {
      var n := |lines| - 1;
      HitsAreUpLines(lines[..n]);
      ParseHostLineSpec(lines[n]);
      assert forall i :: 0 <= i < n ==> lines[..n][i] == lines[i];
    }
  }

  /** Parsing a stream in two parts finds the addresses of each part, one
      after the other. */
  lemma {:induction false} HitsAppend(a: seq<string>, b: seq<string>)
    ensures Hits(a + b) == Hits(a) + Hits(b)
    decreases |b|
  {
    if b == [] {
      assert a + b == a;
    } else {
      var n := |b| - 1;
      assert (a + b)[..|a + b| - 1] == a + b[..n];
      HitsAppend(a, b[..n]);
    }
  }

  /** The addresses found in a prefix of the stream are a prefix of those
      found in the whole stream. */
  lemma {:induction false} HitsOfPrefix(lines: seq<string>, i: nat)
    requires i <= |lines|
    ensures |Hits(lines[..i])| <= |Hits(lines)|
    ensures Hits(lines[..i]) == Hits(lines)[..|Hits(lines[..i])|]
  {
    assert lines[..i] + lines[i..] == lines;
    HitsAppend(lines[..i], lines[i..]);
    var h := Hits(lines[..i]);
    assert Hits(lines) == h + Hits(lines[i..]);
    assert Hits(lines)[..|h|] == h;
  }

  function Min(a: nat, b: nat): nat {
    if a <= b then a else b
  }

  /** What one session writes and what `scan_subnet` returns. Both are the
      same whether a record is counted before or after it is appended; only
      the advance of `total_found` differs, and that is `CountedAsWritten`. */
  function Scan(s: Session): ScanOutcome {
    var all := Hits(s.stdout);
    match s.fault
    case NoFault => ScanOutcome(Records(all), |all|)
    case StreamFault(k) => ScanOutcome(Records(Hits(s.stdout[..Min(k, |s.stdout|)])), 0)
    case AppendFault(j) =>
      if j < |all| then ScanOutcome(Records(all[..j]), 0) else ScanOutcome(Records(all), |all|)
  }

  /** How far the source's `total_found` advances in one session. It is
      bumped before the append, so an append that raises has already been
      counted. */
  function CountedAsWritten(s: Session): nat {
    var all := Hits(s.stdout);
    match s.fault
    case NoFault => |all|
    case StreamFault(k) => |Hits(s.stdout[..Min(k, |s.stdout|)])|
    case AppendFault(j) => if j < |all| then j + 1 else |all|
  }

  /** The records of addresses are lines of the result file. */
  lemma RecordsAreResultLines(addrs: seq<string>)
    requires forall k :: 0 <= k < |addrs| ==> IsAddress(addrs[k])
    ensures forall k :: 0 <= k < |Records(addrs)| ==> IsRecord(Records(addrs)[k])
  {
    forall k | 0 <= k < |addrs| ensures IsRecord(Records(addrs)[k]) {
      var r := Records(addrs)[k];
      assert r[..|r| - 1] == addrs[k];
    }
  }

  /** Handling one more line adds that line's address, if it has one. */
  lemma HitsStep(lines: seq<string>, i: nat)
    requires i < |lines|
    ensures ParseHostLine(lines[i]).Some? ==>
              Hits(lines[..i + 1]) == Hits(lines[..i]) + [ParseHostLine(lines[i]).value]
    ensures ParseHostLine(lines[i]).None? ==> Hits(lines[..i + 1]) == Hits(lines[..i])
  {
    assert lines[..i + 1][..i] == lines[..i];
  }

  /** A session whose j-th append fails (j being the number of addresses
      before line i, and line i having one) has written the records of the
      lines before i and returns 0; the source has counted one more. */
  lemma ScanStopsAtFailedAppend(s: Session, i: nat)
    requires i < |s.stdout| && ParseHostLine(s.stdout[i]).Some?
    requires s.fault == AppendFault(|Hits(s.stdout[..i])|)
    ensures Scan(s) == ScanOutcome(Records(Hits(s.stdout[..i])), 0)
    ensures CountedAsWritten(s) == |Hits(s.stdout[..i])| + 1
  {
    HitsStep(s.stdout, i);
    HitsOfPrefix(s.stdout, i + 1);
    HitsOfPrefix(s.stdout, i);
  }

  /** A session that reaches line `stop` (the end of its output, or the
      line at which the stream fails) without a failed append has written
      the records of every address before `stop`, and returns their number
      unless the stream failed. */
  lemma ScanOfStream(s: Session, stop: nat)
    requires stop == (if s.fault.StreamFault? then Min(s.fault.after, |s.stdout|) else |s.stdout|)
    requires s.fault.AppendFault? ==> s.fault.hit >= |Hits(s.stdout[..stop])|
    ensures Scan(s).records == Records(Hits(s.stdout[..stop]))
    ensures Scan(s).returned == if s.fault.StreamFault? then 0 else |Hits(s.stdout[..stop])|
    ensures CountedAsWritten(s) == |Hits(s.stdout[..stop])|
  {
    assert s.stdout[..|s.stdout|] == s.stdout;
  }

  /** What a session writes is always the records of a prefix of the
      addresses its output holds, in order, all of them when nothing fails;
      the returned count is that of the whole stream when nothing fails and
      0 when something does. */
  lemma {:induction false} ScanWritesPrefixOfHits(s: Session)
    ensures |Scan(s).records| <= |Hits(s.stdout)|
    ensures Scan(s).records == Records(Hits(s.stdout))[..|Scan(s).records|]
    ensures forall k :: 0 <= k < |Scan(s).records| ==> IsRecord(Scan(s).records[k])
    ensures s.fault == NoFault ==>
              Scan(s).records == Records(Hits(s.stdout)) && Scan(s).returned == |UpIndices(s.stdout)|
    ensures Scan(s).returned == 0 || Scan(s).returned == |Scan(s).records|
  {
    var all := Hits(s.stdout);
    HitsAreAddresses(s.stdout);
    RecordsAreResultLines(all);
    match s.fault
    case NoFault =>
      HitsAreUpLines(s.stdout);
    case StreamFault(k) =>
      var done := Hits(s.stdout[..Min(k, |s.stdout|)]);
      HitsOfPrefix(s.stdout, Min(k, |s.stdout|));
      HitsAreAddresses(s.stdout[..Min(k, |s.stdout|)]);
      assert Records(done) == Records(all)[..|done|];
      RecordsAreResultLines(done);
    case AppendFault(j) =>
      if j < |all| {
        assert Records(all[..j]) == Records(all)[..j];
      }
  }

  /** Every line of a session's output that follows the j-th line with an
      address is lost once the j-th append fails, but the records before
      it stay. */
  lemma AppendFaultKeepsEarlierRecords(lines: seq<string>, j: nat)
    requires j < |Hits(lines)|
    ensures Scan(Session(lines, AppendFault(j))).records == Records(Hits(lines)[..j])
    ensures Scan(Session(lines, AppendFault(j))).returned == 0
  {
  }

  /** In the source's order a failed append leaves `total_found` one ahead
      of the records the session wrote; otherwise the two agree. */
  lemma {:induction false} AsWrittenCountDrifts(s: Session)
    ensures s.fault.AppendFault? && s.fault.hit < |Hits(s.stdout)| ==>
              CountedAsWritten(s) == |Scan(s).records| + 1
    ensures !(s.fault.AppendFault? && s.fault.hit < |Hits(s.stdout)|) ==>
              CountedAsWritten(s) == |Scan(s).records|
  {
  }

  /** A session whose only up-line cannot be appended: the source counts a
      host that is not in the file. */
  lemma AsWrittenCountDriftExample()
    ensures var s := Session(["Host: 10.0.0.2 ()\tStatus: Up"], AppendFault(0));
            CountedAsWritten(s) == 1 && Scan(s).records == []
  {
    var line := "Host: 10.0.0.2 ()\tStatus: Up";
    UpRecordYieldsAddress();
    assert [line][..0] == [];
    assert Hits([line]) == ["10.0.0.2"];
  }

  /** A session that prints one live-host record and ends normally writes
      that host's address and counts it once. */
  lemma UpRecordIsWrittenAndCounted()
    ensures Scan(Session(["Host: 10.0.0.2 ()\tStatus: Up"], NoFault)) == ScanOutcome(["10.0.0.2\n"], 1)
  {
    var line := "Host: 10.0.0.2 ()\tStatus: Up";
    UpRecordYieldsAddress();
    assert [line][..0] == [];
    assert Hits([line]) == ["10.0.0.2"];
    assert Record("10.0.0.2") == "10.0.0.2\n";
    assert Records(["10.0.0.2"]) == ["10.0.0.2\n"];
  }

  /** The parts one after the other. */
  function Concat<T>(parts: seq<seq<T>>): seq<T> {
    if parts == [] then [] else Concat(parts[..|parts| - 1]) + parts[|parts| - 1]
  }

  lemma {:induction false} ConcatAppend<T>(a: seq<seq<T>>, b: seq<seq<T>>)
    ensures Concat(a + b) == Concat(a) + Concat(b)
    decreases |b|
  {
    if b == [] {
      assert a + b == a;
    } else {
      var n := |b| - 1;
      assert (a + b)[..|a + b| - 1] == a + b[..n];
      assert (a + b)[|a + b| - 1] == b[n];
      ConcatAppend(a, b[..n]);
      calc {
        Concat(a + b);
        Concat(a + b[..n]) + b[n];
        Concat(a) + Concat(b[..n]) + b[n];
        Concat(a) + (Concat(b[..n]) + b[n]);
        Concat(a) + Concat(b);
      }
    }
  }

  /** The records each session writes, one entry per session. */
  function SessionRecords(sessions: seq<Session>): seq<seq<string>> {
    seq(|sessions|, i requires 0 <= i < |sessions| => Scan(sessions[i]).records)
  }

  /** The records of a whole run: each session's records, in subnet order. */
  function RunRecords(sessions: seq<Session>): seq<string> {
    Concat(SessionRecords(sessions))
  }

  /** A run ends with the records of its last session. */
  lemma RunRecordsLast(sessions: seq<Session>)
    requires sessions != []
    ensures RunRecords(sessions)
            == RunRecords(sessions[..|sessions| - 1]) + Scan(sessions[|sessions| - 1]).records
  {
    assert SessionRecords(sessions)[..|sessions| - 1] == SessionRecords(sessions[..|sessions| - 1]);
  }

  /** Scanning one more subnet appends its session's records. */
  lemma RunRecordsStep(sessions: seq<Session>, i: nat)
    requires i < |sessions|
    ensures RunRecords(sessions[..i + 1]) == RunRecords(sessions[..i]) + Scan(sessions[i]).records
  {
    RunRecordsLast(sessions[..i + 1]);
    assert sessions[..i + 1][..i] == sessions[..i];
  }

  /** The run appends session after session. */
  lemma RunRecordsAppend(a: seq<Session>, b: seq<Session>)
    ensures RunRecords(a + b) == RunRecords(a) + RunRecords(b)
  {
    assert SessionRecords(a + b) == SessionRecords(a) + SessionRecords(b);
    ConcatAppend(SessionRecords(a), SessionRecords(b));
  }

  /** A subnet whose scan cannot even be started adds nothing, and the
      other subnets contribute as if it were not there. */
  lemma SpawnFailureContributesNothing(before: seq<Session>, lines: seq<string>, after: seq<Session>)
    ensures RunRecords(before + [Session(lines, StreamFault(0))] + after)
            == RunRecords(before) + RunRecords(after)
  {
    var failed := Session(lines, StreamFault(0));
    assert Scan(failed).records == [] by {
      assert lines[..Min(0, |lines|)] == [];
    }
    assert RunRecords([failed]) == [] by {
      RunRecordsLast([failed]);
      assert [failed][..0] == [];
    }
    RunRecordsAppend(before, [failed]);
    RunRecordsAppend(before + [failed], after);
  }

  /** Every line of the result file written by a run is an address and its
      terminator. */
  lemma {:induction false} RunRecordsAreResultLines(sessions: seq<Session>)
    ensures forall k :: 0 <= k < |RunRecords(sessions)| ==> IsRecord(RunRecords(sessions)[k])
  {
    if sessions != [] {
      var n := |sessions| - 1;
      RunRecordsAreResultLines(sessions[..n]);
      ScanWritesPrefixOfHits(sessions[n]);
      RunRecordsLast(sessions);
    }
  }

  /** The session's j-th append raises while it still has a j-th record
      to write. */
  predicate AppendFails(s: Session) {
    s.fault.AppendFault? && s.fault.hit < |Hits(s.stdout)|
  }

  /** How far the source's `total_found` advances over a whole run. */
  function CountedRun(sessions: seq<Session>): nat {
    if sessions == [] then 0
    else CountedRun(sessions[..|sessions| - 1]) + CountedAsWritten(sessions[|sessions| - 1])
  }

  /** The number of sessions of a run whose append raised. */
  function FailedAppends(sessions: seq<Session>): nat {
    if sessions == [] then 0
    else FailedAppends(sessions[..|sessions| - 1]) + (if AppendFails(sessions[|sessions| - 1]) then 1 else 0)
  }

  /** Scanning one more subnet in the source's order advances the total by
      that session's count. */
  lemma CountedRunStep(sessions: seq<Session>, i: nat)
    requires i < |sessions|
    ensures CountedRun(sessions[..i + 1]) == CountedRun(sessions[..i]) + CountedAsWritten(sessions[i])
  {
    assert sessions[..i + 1][..i] == sessions[..i];
  }

  /** Over a whole run in the source's order, `total_found` exceeds the
      number of lines written by exactly the number of sessions whose
      append raised; it equals it exactly when no append raised. */
  lemma {:induction false} AsWrittenRunCountDrifts(sessions: seq<Session>)
    ensures CountedRun(sessions) == |RunRecords(sessions)| + FailedAppends(sessions)
    ensures CountedRun(sessions) == |RunRecords(sessions)| <==> FailedAppends(sessions) == 0
  {
    if sessions != [] {
      var n := |sessions| - 1;
      AsWrittenRunCountDrifts(sessions[..n]);
      AsWrittenCountDrifts(sessions[n]);
      RunRecordsLast(sessions);
    }
  }

  /** All the lines the children print, subnet after subnet. */
  function AllStdout(sessions: seq<Session>): seq<string> {
    if sessions == [] then [] else AllStdout(sessions[..|sessions| - 1]) + sessions[|sessions| - 1].stdout
  }

  /** Records distribute over concatenation. */
  lemma RecordsAppend(a: seq<string>, b: seq<string>)
    ensures Records(a + b) == Records(a) + Records(b)
  {
  }

  /** When no session fails, the file receives one record for every line
      with an address, in the order the children printed them; an address
      reported by two subnets (or twice by one) is written twice. */
  lemma {:induction false} FaultFreeRunKeepsEveryHit(sessions: seq<Session>)
    requires forall i :: 0 <= i < |sessions| ==> sessions[i].fault == NoFault
    ensures RunRecords(sessions) == Records(Hits(AllStdout(sessions)))
  {
    if sessions != [] {
      var n := |sessions| - 1;
      FaultFreeRunKeepsEveryHit(sessions[..n]);
      RunRecordsLast(sessions);
      HitsAppend(AllStdout(sessions[..n]), sessions[n].stdout);
      RecordsAppend(Hits(AllStdout(sessions[..n])), Hits(sessions[n].stdout));
    }
  }

  /** The text of the result file: its records one after the other. */
  function FileText(records: seq<string>): string {
    Concat(records)
  }

  /** The number of line terminators in `s`. */
  function CountNewlines(s: string): nat {
    if s == [] then 0 else CountNewlines(s[..|s| - 1]) + (if s[|s| - 1] == '\n' then 1 else 0)
  }

  lemma {:induction false} CountNewlinesAppend(a: string, b: string)
    ensures CountNewlines(a + b) == CountNewlines(a) + CountNewlines(b)
    decreases |b|
  {
    if b == [] {
      assert a + b == a;
    } else {
      var n := |b| - 1;
      assert (a + b)[..|a + b| - 1] == a + b[..n];
      CountNewlinesAppend(a, b[..n]);
    }
  }

  /** A record holds exactly one line terminator, at its end. */
  lemma {:induction false} RecordHasOneNewline(r: string)
    requires IsRecord(r)
    ensures CountNewlines(r) == 1
  {
    var a := r[..|r| - 1];
    assert r == a + "\n";
    AddressHasNoNewline(a);
    CountNewlinesAppend(a, "\n");
    assert "\n"[..0] == [];
  }

  lemma {:induction false} AddressHasNoNewline(a: string)
    requires forall i :: 0 <= i < |a| ==> IsAddrChar(a[i])
    ensures CountNewlines(a) == 0
  {
    if a != [] {
      AddressHasNoNewline(a[..|a| - 1]);
    }
  }

  /** A file made of records has exactly as many lines as records. */
  lemma {:induction false} FileLinesAreRecords(records: seq<string>)
    requires forall k :: 0 <= k < |records| ==> IsRecord(records[k])
    ensures CountNewlines(FileText(records)) == |records|
  {
    if records != [] {
      var n := |records| - 1;
      FileLinesAreRecords(records[..n]);
      CountNewlinesAppend(FileText(records[..n]), records[n]);
      RecordHasOneNewline(records[n]);
    }
  }

  /** The result file of a run has one line per record it received. */
  lemma RunFileHasOneLinePerRecord(sessions: seq<Session>)
    ensures CountNewlines(FileText(RunRecords(sessions))) == |RunRecords(sessions)|
  {
    RunRecordsAreResultLines(sessions);
    FileLinesAreRecords(RunRecords(sessions));
  }
}
