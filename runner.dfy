/**
 * The run driver: the module-level `total_found`, the result file and the
 * two procedures that change them, `scan_subnet` (one nmap session) and
 * `main` (truncate the file, load the subnets, scan them in order).
 */
module Runner {
  import opened Options
  import opened HostLine
  import opened Harvest
  import SubnetLoader
  import NmapCommand

  /** The two errors that stop a run before anything is scanned. */
  datatype Fatal = DependencyMissing | InputNotFound

  /** The command lines for the given subnets, in order. */
  function Commands(subnets: seq<string>): (cmds: seq<seq<string>>)
    ensures |cmds| == |subnets|
    ensures forall i :: 0 <= i < |cmds| ==> |cmds[i]| == 16 && cmds[i][0] == "nmap" && cmds[i][15] == subnets[i]
  {
    seq(|subnets|, i requires 0 <= i < |subnets| => NmapCommand.Command(subnets[i]))
  }

  /** Starting one more subnet adds its command line. */
  lemma CommandsStep(subnets: seq<string>, i: nat)
    requires i < |subnets|
    ensures Commands(subnets[..i + 1]) == Commands(subnets[..i]) + [NmapCommand.Command(subnets[i])]
  {
    assert subnets[..i + 1][..i] == subnets[..i];
  }

  /** The state a run changes: the running total, the lines of the result
      file, and (for the specification only) the command lines of the
      children the run has tried to start. */
  class RunState {
    var totalFound: nat
    var output: seq<string>
    ghost var attempted: seq<seq<string>>

    /** The state at process start: the total is 0 and the result file
        holds whatever it held before the run. */
    constructor (existing: seq<string>)
      ensures totalFound == 0 && output == existing && attempted == []
    {
      totalFound := 0;
      output := existing;
      attempted := [];
    }

    /** `scan_subnet` with the record written before it is counted: the
        file gains the session's records after its old contents, the total
        grows by exactly the number of records written, and the result is
        the session's count (0 on failure). */
    method ScanSubnet(subnet: string, session: Session) returns (count: nat)
      modifies this
      ensures attempted == old(attempted) + [NmapCommand.Command(subnet)]
      ensures output == old(output) + Scan(session).records
      ensures totalFound == old(totalFound) + |Scan(session).records|
      ensures count == Scan(session).returned
    {
      attempted := attempted + [NmapCommand.Command(subnet)];
      var lines := session.stdout;
      var stop := if session.fault.StreamFault? then Min(session.fault.after, |lines|) else |lines|;
      var current := 0;
      var i := 0;
      ghost var found: seq<string> := [];
      assert lines[..0] == [];
      assert found == Hits(lines[..i]);
      while i < stop
        invariant 0 <= i <= stop <= |lines|
        invariant found == Hits(lines[..i])
        invariant current == |found|
        invariant session.fault.AppendFault? ==> current <= session.fault.hit
        invariant output == old(output) + Records(found)
        invariant totalFound == old(totalFound) + current
        invariant attempted == old(attempted) + [NmapCommand.Command(subnet)]
      {
        var parsed := ParseHostLine(lines[i]);
        HitsStep(lines, i);
        if parsed.Some? {
          if session.fault == AppendFault(current) {
            ScanStopsAtFailedAppend(session, i);
            return 0;
          }
          RecordsAppend(found, [parsed.value]);
          output := output + [Record(parsed.value)];
          found := found + [parsed.value];
          totalFound := totalFound + 1;
          current := current + 1;
          assert found == Hits(lines[..i + 1]);
        } else {
          assert Hits(lines[..i + 1]) == found;
        }
        i := i + 1;
        assert found == Hits(lines[..i]);
      }
      ScanOfStream(session, stop);
      if session.fault.StreamFault? {
        return 0;
      }
      return current;
    }

    /** `scan_subnet` as the source orders it: the total and the session
        count are bumped before the record is appended, so an append that
        raises leaves the total ahead of the file (see AsWrittenCountDrifts). */
    method ScanSubnetAsWritten(subnet: string, session: Session) returns (count: nat)
      modifies this
      ensures attempted == old(attempted) + [NmapCommand.Command(subnet)]
      ensures output == old(output) + Scan(session).records
      ensures totalFound == old(totalFound) + CountedAsWritten(session)
      ensures count == Scan(session).returned
    {
      attempted := attempted + [NmapCommand.Command(subnet)];
      var lines := session.stdout;
      var stop := if session.fault.StreamFault? then Min(session.fault.after, |lines|) else |lines|;
      var current := 0;
      var i := 0;
      ghost var found: seq<string> := [];
      assert lines[..0] == [];
      assert found == Hits(lines[..i]);
      while i < stop
        invariant 0 <= i <= stop <= |lines|
        invariant found == Hits(lines[..i])
        invariant current == |found|
        invariant session.fault.AppendFault? ==> current <= session.fault.hit
        invariant output == old(output) + Records(found)
        invariant totalFound == old(totalFound) + current
        invariant attempted == old(attempted) + [NmapCommand.Command(subnet)]
      {
        var parsed := ParseHostLine(lines[i]);
        HitsStep(lines, i);
        if parsed.Some? {
          totalFound := totalFound + 1;
          current := current + 1;
          if session.fault == AppendFault(current - 1) {
            ScanStopsAtFailedAppend(session, i);
            return 0;
          }
          RecordsAppend(found, [parsed.value]);
          output := output + [Record(parsed.value)];
          found := found + [parsed.value];
          assert found == Hits(lines[..i + 1]);
        } else {
          assert Hits(lines[..i + 1]) == found;
        }
        i := i + 1;
        assert found == Hits(lines[..i]);
      }
      ScanOfStream(session, stop);
      if session.fault.StreamFault? {
        return 0;
      }
      return current;
    }

    /** The scanning loop of `main`: one `scan_subnet` per subnet, in
        order, the i-th child behaving as `sessions[i]`. The file gains the
        records of every session in subnet order and the total grows by
        exactly their number. */
    method ScanSubnets(subnets: seq<string>, sessions: seq<Session>)
      requires |sessions| == |subnets|
      modifies this
      ensures output == old(output) + RunRecords(sessions)
      ensures totalFound == old(totalFound) + |RunRecords(sessions)|
      ensures attempted == old(attempted) + Commands(subnets)
    {
      var i := 0;
      assert RunRecords(sessions[..0]) == [] by {
        assert SessionRecords(sessions[..0]) == [];
      }
      assert Commands(subnets[..0]) == [];
      while i < |subnets|
        invariant 0 <= i <= |subnets|
        invariant output == old(output) + RunRecords(sessions[..i])
        invariant totalFound == old(totalFound) + |RunRecords(sessions[..i])|
        invariant attempted == old(attempted) + Commands(subnets[..i])
      {
        var _ := ScanSubnet(subnets[i], sessions[i]);
        assert output == old(output) + RunRecords(sessions[..i + 1])
            && totalFound == old(totalFound) + |RunRecords(sessions[..i + 1])| by {
          RunRecordsStep(sessions, i);
        }
        assert attempted == old(attempted) + Commands(subnets[..i + 1]) by {
          CommandsStep(subnets, i);
        }
        i := i + 1;
      }
      assert sessions[..i] == sessions;
      assert subnets[..i] == subnets;
    }

    /** The scanning loop of `main` with `scan_subnet` in the source's
        order (count, then append): the file gains the same records as with
        ScanSubnets, but the total grows by CountedRun, which runs ahead of
        the file by one per failed append (see AsWrittenRunCountDrifts). */
    method ScanSubnetsAsWritten(subnets: seq<string>, sessions: seq<Session>)
      requires |sessions| == |subnets|
      modifies this
      ensures output == old(output) + RunRecords(sessions)
      ensures totalFound == old(totalFound) + CountedRun(sessions)
      ensures attempted == old(attempted) + Commands(subnets)
    {
      var i := 0;
      assert RunRecords(sessions[..0]) == [] by {
        assert SessionRecords(sessions[..0]) == [];
      }
      assert CountedRun(sessions[..0]) == 0;
      assert Commands(subnets[..0]) == [];
      while i < |subnets|
        invariant 0 <= i <= |subnets|
        invariant output == old(output) + RunRecords(sessions[..i])
        invariant totalFound == old(totalFound) + CountedRun(sessions[..i])
        invariant attempted == old(attempted) + Commands(subnets[..i])
      {
        var _ := ScanSubnetAsWritten(subnets[i], sessions[i]);
        assert output == old(output) + RunRecords(sessions[..i + 1]) by {
          RunRecordsStep(sessions, i);
        }
        assert totalFound == old(totalFound) + CountedRun(sessions[..i + 1]) by {
          CountedRunStep(sessions, i);
        }
        assert attempted == old(attempted) + Commands(subnets[..i + 1]) by {
          CommandsStep(subnets, i);
        }
        i := i + 1;
      }
      assert sessions[..i] == sessions;
      assert subnets[..i] == subnets;
    }

    /** `main` after argument parsing: stop if nmap is missing or the input
        file does not exist (nothing is touched), otherwise empty the result
        file, load the subnets and scan them one after the other. Afterwards
        the file holds the run's records in subnet order, the total has
        grown by exactly their number, and one child was started per
        subnet, in file order. */
    method Run(nmapInstalled: bool, inputExists: bool, inputLines: seq<string>, sessions: seq<Session>)
      returns (r: Result<nat, Fatal>)
      requires |sessions| == |SubnetLoader.LoadSubnets(inputLines)|
      modifies this
      ensures !nmapInstalled ==> r == Err(DependencyMissing)
      ensures nmapInstalled && !inputExists ==> r == Err(InputNotFound)
      ensures r.Err? ==> output == old(output) && totalFound == old(totalFound) && attempted == old(attempted)
      ensures nmapInstalled && inputExists ==>
                r == Ok(totalFound)
                && output == RunRecords(sessions)
                && totalFound == old(totalFound) + |output|
                && attempted == old(attempted) + Commands(SubnetLoader.LoadSubnets(inputLines))
    {
      if !nmapInstalled {
        return Err(DependencyMissing);
      }
      if !inputExists {
        return Err(InputNotFound);
      }
      output := [];
      var subnets := SubnetLoader.LoadSubnets(inputLines);
      ScanSubnets(subnets, sessions);
      return Ok(totalFound);
    }
  }
}
