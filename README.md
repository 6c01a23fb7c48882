# upscannerultimate — a Dafny model of the host-discovery driver

`upscannerultimate.py` finds live hosts across a list of subnets. It runs
`nmap` once per subnet in host-discovery mode with grepable output. It
reads the child's standard output line by line. It appends the address of
every host reported up to a result file and keeps a running total.

The model covers the parts of that script that are logic rather than
process plumbing:

- **Subnet loader** (`SubnetLoader`, on top of `Text`): the list
  comprehension that turns the raw lines of the input file into subnet
  tokens. A line is kept when it is not blank after `strip()` and its
  unstripped text does not start with `#`. The token kept is the stripped
  text, so `"  #x"` is kept as `"#x"`. `Text` models Python's
  `str.isspace` set (ASCII and Unicode whitespace), `strip`, `startswith`
  and the substring test `in`.
- **Command vector** (`NmapCommand`): `["nmap"] + discovery_flags + ["-oG", "-", subnet]`.
- **Grepable-line parser** (`HostLine`): a line yields an address only
  when it contains `"Status: Up"`. The address is what
  `re.search(r"Host: ([0-9\.]+)", line).group(1)` captures: the maximal
  run of digits and dots right after the leftmost `"Host: "` that is
  followed by at least one such character. This one search is written by
  hand; there is no general regex engine.
- **Harvesting** (`Harvest`): what one `scan_subnet` session writes and
  returns, as functions of the child's output lines and of where an
  exception (if any) interrupts it. `Scan` gives what a session
  writes and returns, which is the same whichever order the count and the
  append come in. `CountedAsWritten` gives how far the source's `total_found`
  advances. `RunRecords` gives what a whole run writes.
- **Run state** (`Runner.RunState`): a class holding `total_found`
  (`totalFound`) and the lines of the result file (`output`). Its methods
  are:
  - `ScanSubnet`: the loop of `scan_subnet`.
  - `ScanSubnetAsWritten`: the same loop in the source's statement order.
  - `ScanSubnets`: the subnet loop of `main`.
  - `Run`: `main` after argument parsing.

  A ghost field records the command line of every child the run starts,
  in order.

The child process is abstracted as a `Session`: its standard output as a
sequence of lines, and a `Fault` saying how it ends.

- `NoFault`: it ends normally.
- `StreamFault(k)`: an exception after the first `k` lines were handled.
  This covers a spawn failure (`k = 0`), a read failure, a failure to
  print the progress line, and a failure in `process.wait()`
  (`k >= |stdout|`).
- `AppendFault(j)`: the `j`-th append of the session raises.

Each of these is an `Exception`, so `scan_subnet` returns 0 and what it
already wrote stays.

Three points where the documented behaviour of the tool and the code
differ; the model follows the code:

- The tool is documented as aggregating into a "deduplicated" result file,
  and elsewhere as one that "deduplicates-by-append" and keeps an address
  reported twice. The code never removes duplicates: an address reported
  twice is written twice (`FaultFreeRunKeepsEveryHit`).
- Comment lines are documented as lines that begin with `#` after
  trimming. The code tests the raw line, so an indented `#` line is kept
  (`IndentedHashIsKept`).
- The captured address is documented as a dotted-quad address. The code
  accepts any non-empty run of digits and dots (`IsAddress`).

## Model

| member | source | states |
|---|---|---|
| Text.Strip | upscannerultimate.py:126 | `line.strip()`: the result is a contiguous slice of the line with only whitespace outside it, has no whitespace at either end, and is empty exactly when the line is all whitespace |
| Text.IsSpace | upscannerultimate.py:126 | the characters `str.strip()` removes: Python's whitespace set, ASCII and Unicode (a definition, no contract) |
| Text.StartsWith | upscannerultimate.py:126 | `line.startswith(p)`: the line is at least as long as `p` and begins with it (a definition, no contract) |
| Text.Contains | upscannerultimate.py:87 | `pat in s`, as the leftmost search succeeding (a definition; its meaning is `ContainsIsOccurrence`) |
| Text.Find | upscannerultimate.py:87 | the leftmost position at or after `from` where the pattern occurs, or None exactly when it occurs nowhere from there |
| Text.ContainsIsOccurrence | upscannerultimate.py:87 | the substring test `pat in s` holds exactly when `pat` occurs at some position of `s` |
| SubnetLoader.Keep | upscannerultimate.py:126 | the comprehension's filter keeps a line exactly when it has a non-whitespace character and its raw first character is not `#` |
| SubnetLoader.LoadSubnets | upscannerultimate.py:126 | the loader yields at most one subnet per line, and every subnet is non-empty with no whitespace at either end |
| SubnetLoader.KeptIndices | upscannerultimate.py:126 | an independent description of the kept lines: strictly increasing positions of exactly the subnet lines |
| SubnetLoader.LoadSubnetsIsOrderedFilter | upscannerultimate.py:126 | the k-th loaded subnet is the stripped k-th kept line: lines are removed, never reordered or duplicated |
| SubnetLoader.LoadSubnetsAppend | upscannerultimate.py:126 | loading two parts of a file concatenates their subnets |
| SubnetLoader.LoadSubnetsSingle | upscannerultimate.py:126 | a one-line file loads to its stripped text exactly when the line is neither blank nor starts with `#` |
| SubnetLoader.IndentedHashIsKept | upscannerultimate.py:126 | the line `"  #x\n"` is kept as the subnet `"#x"` |
| SubnetLoader.StripTerminated | upscannerultimate.py:126 | stripping a token with or without its line terminator gives the token |
| SubnetLoader.PlainLineLoads | upscannerultimate.py:126 | a token line that does not start with `#` loads to the token, with or without its terminator |
| SubnetLoader.SkippedLineLoadsNothing | upscannerultimate.py:126 | a comment line or a blank line loads to nothing |
| SubnetLoader.SkippedLinesBetweenSubnets | upscannerultimate.py:126 | two skipped lines between two others add nothing to what those two load |
| SubnetLoader.CommentsAndBlanksAreSkipped | upscannerultimate.py:125-126 | the file `10.0.0.0/30`, `# comment`, a blank line, `10.0.1.0/30` loads to exactly the two subnets, in order |
| NmapCommand.Command | upscannerultimate.py:49-78 | the command has 16 entries: `nmap`, the twelve discovery flags in order, `-oG`, `-`, and the subnet last |
| NmapCommand.CommandDependsOnlyOnSubnet | upscannerultimate.py:78 | two commands agree on everything but the last entry, and are equal exactly when their subnets are |
| HostLine.FindHost | upscannerultimate.py:88 | the leftmost position at or after `from` where `Host: ` followed by a digit or dot occurs, or None exactly when there is none |
| HostLine.AddrRun | upscannerultimate.py:88 | the length of the maximal run of digits and dots starting at a position |
| HostLine.SearchHost | upscannerultimate.py:88-90 | a captured address is non-empty and made of digits and dots only |
| HostLine.SearchHostIsLeftmostMatch | upscannerultimate.py:88-90 | the search fails exactly when the pattern matches nowhere; otherwise it captures the maximal run after the leftmost match |
| HostLine.ParseHostLine | upscannerultimate.py:87-90 | an address yielded by the per-line test consists of digits and dots only and is non-empty |
| HostLine.ParseHostLineSpec | upscannerultimate.py:87-90 | a line yields an address exactly when it contains `Status: Up` and the pattern matches in it, and the address is the capture of the leftmost match |
| HostLine.FindHostFindsLeftmost | upscannerultimate.py:88 | a matching position with no match before it is the one the search finds |
| HostLine.MaximalRunIsAddrRun | upscannerultimate.py:88 | a maximal run of digits and dots is the run the capture takes |
| HostLine.LeftmostMatchIsSearched | upscannerultimate.py:88-90 | any leftmost match is the one the search finds, and its address is the captured run |
| HostLine.LeftmostMatchIsUnique | upscannerultimate.py:88-90 | the leftmost match of a line and its capture are unique |
| HostLine.HostRecordYieldsAddress | upscannerultimate.py:87-90 | a line `Host: <addr><non-address char>...Status: Up...` yields `<addr>` |
| HostLine.UpRecordYieldsAddress | upscannerultimate.py:87-90 | the line `Host: 10.0.0.2 ()<TAB>Status: Up` yields `10.0.0.2` |
| Harvest.Hits | upscannerultimate.py:85-90 | the addresses found in a stream, in stream order and duplicates kept; there are at most as many as lines |
| Harvest.HitsAreAddresses | upscannerultimate.py:85-90 | every address found in a stream is non-empty and made of digits and dots only |
| Harvest.UpIndices | upscannerultimate.py:87-89 | an independent description of the lines that count: strictly increasing positions of exactly the lines with `Status: Up` and a match |
| Harvest.HitsAreUpLines | upscannerultimate.py:85-92 | the k-th address found is the parse of the k-th up-line, so a session counts exactly its up-lines |
| Harvest.HitsAppend | upscannerultimate.py:85-90 | parsing a stream in two parts finds each part's addresses in order |
| Harvest.HitsOfPrefix | upscannerultimate.py:85-90 | the addresses found in a prefix of the stream are a prefix of those found in the whole stream |
| Harvest.HitsStep | upscannerultimate.py:85-92 | handling one more line adds exactly its address, if it has one |
| Harvest.Record | upscannerultimate.py:96 | the line written for an address: `ip + "\n"` (a definition, no contract) |
| Harvest.Records | upscannerultimate.py:95-96 | the lines written for a list of addresses, one per address in order (a definition, no contract) |
| Harvest.RecordsAreResultLines | upscannerultimate.py:96 | each written line `ip + "\n"` is an address and one terminator |
| Harvest.Scan | upscannerultimate.py:83-105 | what one session writes and returns, the same in the source's order and the corrected one: with no fault, every record and their number; after a stream fault at line k, the records of the first k lines and 0; after a failed j-th append, the first j records and 0 (a definition; its properties are the lemmas below) |
| Harvest.CountedAsWritten | upscannerultimate.py:91-96 | how far `total_found` advances in the source's order (count, then append): with a failed j-th append it is j + 1, one more than the records written (a definition; see `AsWrittenCountDrifts`) |
| Harvest.ScanStopsAtFailedAppend | upscannerultimate.py:91-96 | when the j-th append raises, the session keeps the records before it and returns 0; the source has counted one more |
| Harvest.ScanOfStream | upscannerultimate.py:85-105 | a session that reaches the end of its stream, or the line where the stream fails, keeps every record before that point; it returns their number only if nothing failed |
| Harvest.ScanWritesPrefixOfHits | upscannerultimate.py:83-105 | a session writes the records of a prefix of its addresses, in stream order. With no fault it writes all of them and returns the number of up-lines. It returns either 0 or the number written |
| Harvest.AppendFaultKeepsEarlierRecords | upscannerultimate.py:94-105 | after a failed j-th append the first j records stay and the session returns 0 |
| Harvest.AsWrittenCountDrifts | upscannerultimate.py:91-96 | in the source's order, a failed append leaves `total_found` one ahead of the records written; otherwise the two agree |
| Harvest.AsWrittenCountDriftExample | upscannerultimate.py:91-96 | a session whose only up-line cannot be appended writes nothing, yet the source counts 1 |
| Harvest.UpRecordIsWrittenAndCounted | upscannerultimate.py:85-102 | a session printing `Host: 10.0.0.2 ()<TAB>Status: Up` writes `10.0.0.2\n` and returns 1 |
| Harvest.RunRecords | upscannerultimate.py:135-138 | what a whole run appends: each session's records, in subnet order (a definition; see the lemmas below) |
| Harvest.ConcatAppend | upscannerultimate.py:135-138 | writing the parts one after the other distributes over concatenation |
| Harvest.RunRecordsLast | upscannerultimate.py:135-138 | a run's file ends with the records of its last subnet |
| Harvest.RunRecordsStep | upscannerultimate.py:135-138 | scanning one more subnet appends its session's records |
| Harvest.RunRecordsAppend | upscannerultimate.py:135-138 | the records of a run are those of its first subnets followed by those of the rest |
| Harvest.SpawnFailureContributesNothing | upscannerultimate.py:81-105 | a subnet whose child cannot be spawned adds nothing, and the other subnets contribute as if it were absent |
| Harvest.RunRecordsAreResultLines | upscannerultimate.py:95-96 | every line the run writes is an address and its terminator |
| Harvest.CountedRun | upscannerultimate.py:135-138 | how far `total_found` (incremented at py:91) advances over `main`'s subnet loop in the source's order (count, then append): the sum of every session's `CountedAsWritten`, in subnet order (a definition; see `CountedRunStep` and `AsWrittenRunCountDrifts`) |
| Harvest.CountedRunStep | upscannerultimate.py:135-138 | in the source's order, scanning one more subnet advances `total_found` by that session's `CountedAsWritten` |
| Harvest.AsWrittenRunCountDrifts | upscannerultimate.py:135-138 | over a whole run in the source's order, `total_found` ends exactly the number of failed appends ahead of the lines written, and equals that number of lines exactly when no append failed |
| Harvest.RecordsAppend | upscannerultimate.py:95-96 | records distribute over concatenation of address lists |
| Harvest.FaultFreeRunKeepsEveryHit | upscannerultimate.py:85-96 | with no faults, the file gets one record per up-line of all children in output order, duplicates kept |
| Harvest.FileText | upscannerultimate.py:95-96 | the text of the result file: the records `ip + "\n"` written one after the other, in the order of the `f.write` calls (a definition; see `FileLinesAreRecords`) |
| Harvest.CountNewlinesAppend | upscannerultimate.py:96 | the line count of two texts one after the other is the sum of their line counts |
| Harvest.AddressHasNoNewline | upscannerultimate.py:88 | an address contains no line terminator |
| Harvest.RecordHasOneNewline | upscannerultimate.py:96 | a record contains exactly one line terminator |
| Harvest.FileLinesAreRecords | upscannerultimate.py:95-96 | a file made of records has exactly as many lines as records |
| Harvest.RunFileHasOneLinePerRecord | upscannerultimate.py:95-96 | the file a run writes has one line per record it received |
| Runner.Commands | upscannerultimate.py:78 | one command line per subnet, in order, each ending with its subnet |
| Runner.CommandsStep | upscannerultimate.py:135-138 | starting one more subnet adds its command line |
| Runner.RunState.constructor | upscannerultimate.py:20 | `total_found` starts at 0; the file holds what it held before the run |
| Runner.RunState.ScanSubnet | upscannerultimate.py:43-105 | one session, append before count: its command is started, the file gains exactly `Scan(session).records` after its old contents, and the total grows by exactly that number. The result is the count, or 0 on any exception |
| Runner.RunState.ScanSubnetAsWritten | upscannerultimate.py:43-105 | the same loop with the source's order (count, then append): the file gains the same records, but the total grows by `CountedAsWritten(session)` |
| Runner.RunState.ScanSubnets | upscannerultimate.py:135-138 | the subnet loop over the corrected session `ScanSubnet` named under Findings: one session per subnet, in file order; the file gains every session's records in subnet order and the total grows by exactly their number |
| Runner.RunState.ScanSubnetsAsWritten | upscannerultimate.py:135-138 | the subnet loop over `ScanSubnetAsWritten`, the source's order: the file gains the same records, but the total grows by `CountedRun(sessions)`, which `AsWrittenRunCountDrifts` shows runs ahead of the file by one per failed append |
| Runner.RunState.Run | upscannerultimate.py:115-138 | `main` with the corrected session named under Findings. A missing nmap gives `DependencyMissing` and a missing input file gives `InputNotFound`, with nothing changed. Otherwise the file is emptied, one child per loaded subnet is started in file order, the file ends up holding the run's records, and the total grows by exactly the number of lines in the file |

## Left out

- Process spawning, reading the pipe and `process.wait()`: the child is a `Session` (its output lines and where it fails). nmap's exit code is never inspected by the source.
- `check_dependency` (`which nmap`) and `os.path.exists`: both are boolean parameters of `Run`.
- `sys.exit(1)` on the two fatal errors: `Run` returns `Err(DependencyMissing)` or `Err(InputNotFound)` instead.
- `argparse`, `os.system('clear')`, `banner`, the colour constants and every `print`: console presentation. A failing `print` of a progress line is covered as a stream fault.
- `datetime` timing and the duration summary: wall-clock time.
- Opening, truncating and appending to real files, and durability: the result file is a sequence of lines. `FileText` and `CountNewlines` relate it to its text.
- Splitting the input file into lines: `Run` takes the raw lines, terminators included, as the file iterator yields them.
- The general regular-expression engine: only the fixed pattern `Host: ([0-9\.]+)` is modelled.
- The value `scan_subnet` returns is ignored by `main`. `ScanSubnets` discards it as the source does.
- Runner.RunState.ScanSubnets: runs the corrected session (`ScanSubnet`, append before count), so its total equals the records written. The source's order is modelled by `ScanSubnetsAsWritten`, whose total is `CountedRun(sessions)`.
- Runner.RunState.Run: uses `ScanSubnets`, so it is stated only for the corrected order; with the source's order its total would grow by `CountedRun(sessions)` instead.
- Exceptions that end the whole run: `except Exception` at py:104 does not catch `KeyboardInterrupt` or `SystemExit`, so a Ctrl-C during a scan stops the run with the records already written kept and the remaining subnets unscanned; an error opening the output file (py:122) or the input file (py:125), or decoding the input while the comprehension at py:126 reads it, also ends the run, after the output file was emptied. The model has no fault that ends the run.
- Runner.RunState.Run: `inputLines` is what the comprehension at py:126 reads after the output file was emptied at py:122. When `-f` and `-o` name the same file that read yields no lines, so the run loads `[]`; the model does not derive `inputLines` from `output`, so in that case the caller passes `[]`.
- The i-th child's behaviour is given as `sessions[i]`. `Run` requires one session per loaded subnet.

## Findings

| source | as written | input that shows it | evidently intended | confidence | as-written member | corrected member |
|---|---|---|---|---|---|---|
| upscannerultimate.py:91-96 | `total_found` and the session count are incremented before the record is appended; if `open` or `write` raises, the host is counted but never written | a session whose output is the single line `Host: 10.0.0.2 ()<TAB>Status: Up` and whose first append raises: the file gains nothing but `total_found` grows by 1 | `total_found` equals the number of lines in the result file, even after a session fails part-way | not executed | Harvest.AsWrittenCountDriftExample | Runner.RunState.ScanSubnet |
