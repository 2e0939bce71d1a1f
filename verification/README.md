# scandotns in Dafny

scandotns reads the DNS root zone and finds out which TLD nameservers speak
DNS-over-TLS on port 853. It works in four steps, and this project models each
of them as pure functions over immutable values:

1. **Zone-line filter** (`parse_zonefile`). Each line is stripped. Comment
   lines are dropped. The rest is split on runs of tabs, and a line is kept
   only if it has five fields, an owner name with at most one dot, class `IN`
   and type `NS`. The kept lines build the TLD-to-nameserver map and the set
   of all nameservers (`ZoneFile`, with the string operations in `Text`).
2. **Strict-then-relaxed probe** (`_try_ns_dot_inner`). Each of `retries`
   iterations makes a strict TLS attempt and then a relaxed one, and the loop
   stops at the first success. The attempts are an oracle: a sequence of
   `Handshake(version)` / `Failed(message)` answers (`Probe`).
3. **Progress counter** (`_try_ns_dot_result_f` in `try_ns_dot`). The report
   interval is `max(1, nb_it div 20)`. Each callback decides whether to write
   a progress line and a detail line, and bumps the counter in `finally`
   (`Progress`).
4. **Result merge** (`create_result_map`). This keeps the nameservers whose
   probe negotiated a version and drops TLDs left empty (`Merge`).

`Scan` runs the probes one after another over an enumeration of the
nameserver set and composes the whole flow.

Where the code does something other than its comments and names suggest, the
model follows the code:
- The owner-name test (commented `# ignore non-tld`, line 50) is
  `find('.') == rfind('.')`, which means "at most one dot". So the root name
  `"."` and dotless names are kept. Names with two or more dots are rejected
  (`ZoneFile.DotFilterExamples`, `ZoneFile.AcceptedIffContributes`).
- A successful attempt never clears the error text of an earlier failed
  attempt. A host that fails strict and then succeeds relaxed reports both a
  version and a non-null `error` (`Probe.RelaxedSuccessKeepsError`).
- The progress line divides by the host count (line 125). With no hosts, a
  callback due to report raises `ZeroDivisionError` before writing anything;
  the counter is still bumped (`Progress.OnResult`,
  `Progress.NoHostsWritesNothing`). The top-level flow only reaches this with
  an empty nameserver set, and then no callback runs at all.
- The root-exclusion branch guarded by `if False` never runs, so it is not
  modelled.

## Model

| member | source | states |
|---|---|---|
| Text.StripBounds | scandotns/__main__.py:31 | `strip()` keeps a slice; everything cut from either end is whitespace, and a non-empty result neither starts nor ends with whitespace |
| Text.Strip | scandotns/__main__.py:31 | the stripped line is no longer than the input, neither starts nor ends with whitespace, and is the line itself when it holds no whitespace |
| Text.Find | scandotns/__main__.py:49 | `find(c)` is the index of the first `c`, or -1 exactly when `c` does not occur |
| Text.RFind | scandotns/__main__.py:49 | `rfind(c)` is the index of the last `c`, or -1 exactly when `c` does not occur |
| Text.FindIsRFindIffAtMostOne | scandotns/__main__.py:49 | `find(c) == rfind(c)` holds exactly when `c` occurs at most once (both are -1 when it is absent) |
| Text.ToLower | scandotns/__main__.py:40-43 | `lower()` keeps the length, leaves no upper-case letter, and keeps every other character in place |
| Text.ToUpper | scandotns/__main__.py:41-42 | `upper()` keeps the length, leaves no lower-case letter, and keeps every other character in place |
| Text.UpperOfLower | scandotns/__main__.py:40-42 | upper-casing after lower-casing is plain upper-casing, so the `IN`/`NS` tests ignore case |
| Text.ToLowerProperties | scandotns/__main__.py:40-43 | lowercasing leaves no upper-case letter, keeps non-letters in place, and is idempotent |
| Text.SplitTabRuns | scandotns/__main__.py:36 | `re.split(r'\t+')` yields at least one field; no field contains a tab; no inner field is empty; the first field is empty iff the line is empty or starts with a tab; one field iff there is no tab |
| Text.SplitTabRunsContents | scandotns/__main__.py:36 | the fields are the pieces between tab runs: joined with single tabs they give the line with every run of tabs squeezed to one tab |
| Text.SplitJoinRoundTrip | scandotns/__main__.py:36 | splitting a tab-joined row whose fields are tab-free, with no empty inner field, gives the row back |
| ZoneFile.ClassifyLine | scandotns/__main__.py:31-57 | one pass of the loop body decides a line; an accepted entry has a lowercase name and target (the full acceptance condition is `ZoneFile.AcceptedIffContributes`) |
| ZoneFile.AcceptedIffContributes | scandotns/__main__.py:31-57 | a line is accepted iff, after stripping, it is not a comment, splits into exactly 5 fields, has a name with at most one dot, and has class IN and type NS (case-insensitive); the entry it then yields is the lowercased name and target |
| ZoneFile.AcceptedEntryShape | scandotns/__main__.py:40-51 | an accepted entry's name has at most one dot, and its name and target are lowercase |
| ZoneFile.RecordLineAccepted | scandotns/__main__.py:31-57 | a tab-joined five-field IN NS record with non-empty fields, clean ends, a name that does not start with `#` and has at most one dot is accepted, with its name and target lowercased |
| ZoneFile.RecordLineSplits | scandotns/__main__.py:31-36 | a tab-joined record of tab-free, non-empty fields with clean ends is left alone by `strip()` and splits back into exactly those fields |
| ZoneFile.DeepNameRejected | scandotns/__main__.py:49-51 | a five-field line whose name has two or more dots is never accepted |
| ZoneFile.AddEntry | scandotns/__main__.py:59-66 | recording an entry adds its target to `ns_set`, makes its name a key whose set is the old set (if any) plus the target, and leaves every other key's set unchanged |
| ZoneFile.AddEntryKeepsWellFormed | scandotns/__main__.py:58-65 | adding an entry keeps every TLD set non-empty and the nameserver set equal to the union of the TLD sets, and puts the target under its TLD |
| ZoneFile.ParseFrom | scandotns/__main__.py:27-66 | the read loop only adds: every nameserver, key and key's member present before is still present after |
| ZoneFile.ParseZoneFile | scandotns/__main__.py:23-68 | after parsing, every key maps to a non-empty set and the nameserver set is the union of all the sets |
| ZoneFile.ParseFromAppend | scandotns/__main__.py:27-30 | parsing `a + b` is parsing `b` from the state `a` left |
| ZoneFile.NoiseIgnored | scandotns/__main__.py:33-57 | inserting a rejected line (comment, wrong field count, deep name, wrong class or type) anywhere leaves both structures unchanged |
| ZoneFile.ParseLine | scandotns/__main__.py:31-66 | one iteration of the read loop adds the name/target pair of the line's entry when the line is accepted, and no other pair |
| ZoneFile.ParseRecordsAccepted | scandotns/__main__.py:23-67 | `tld_ns_map` holds `(k, n)` exactly when some line was accepted with name `k` and target `n` |
| ZoneFile.ParseNameservers | scandotns/__main__.py:59-68 | `ns_set` holds exactly the targets of the accepted lines, whatever their names |
| ZoneFile.ParseKeysAreTlds | scandotns/__main__.py:40-51 | no key has two or more dots; all keys and nameservers are lowercase |
| ZoneFile.PassesDotFilter | scandotns/__main__.py:49-51 | the test `find('.') == rfind('.')` holds exactly when the name has at most one dot |
| ZoneFile.DotFilterExamples | scandotns/__main__.py:45-51 | the filter keeps `"."`, `"com"` and `"com."` and rejects `"example.com."` |
| Probe.RetryLoop | scandotns/__main__.py:76-97 | from iteration `i`, the attempt count stays between `2*i` and `2*retries`, and `ssl_ver` is present iff `ssl_attr` is |
| Probe.TryNsDot | scandotns/__main__.py:70-102 | a probe makes at most `2*retries` attempts, and `ssl_ver` is present iff `ssl_attr` is |
| Probe.RetryLoopIsReference | scandotns/__main__.py:76-99 | the loop from iteration `i` equals the first-success description: a success at an even index is strict, at an odd index relaxed; the error is the text of the attempt just before it, or the carried error if there was none |
| Probe.ProbeIsReference | scandotns/__main__.py:70-102 | a whole probe, starting from `err = None`, equals the first-success description over its `2*retries` attempts |
| Probe.ProbeStopsAtFirstSuccess | scandotns/__main__.py:76-97 | at most `2*retries` attempts are made (at least one if `retries > 0`); every attempt before the last failed; a version is present iff the last attempt succeeded, and it is that attempt's version |
| Probe.ErrorNoneIffNoFailure | scandotns/__main__.py:72-99 | `error` is `None` iff no attempt failed, i.e. `retries == 0` or the first strict attempt succeeded |
| Probe.StrictSuccessFirst | scandotns/__main__.py:77-84 | a first strict success gives the version, `ssl_attr == ["SNI","CERT"]`, no error, and one attempt |
| Probe.RelaxedSuccessKeepsError | scandotns/__main__.py:85-99 | strict fails, then relaxed succeeds: the result has the version, `ssl_attr == []` and the strict failure's error text, after two attempts |
| Probe.AllAttemptsFail | scandotns/__main__.py:76-99 | when every attempt fails, all `2*retries` are made, neither `ssl_ver` nor `ssl_attr` is present, and `error` is the last attempt's text (`None` when `retries == 0`) |
| Probe.VersionIffSomeSuccess | scandotns/__main__.py:76-97 | the probe has a version iff some attempt within the budget succeeds |
| Progress.ReportInterval | scandotns/__main__.py:110-111 | the interval is at least 1; it is 1 below 40 hosts; from 20 hosts on it is `nb_it` divided by 20, rounded down |
| Progress.OnResult | scandotns/__main__.py:119-131 | one callback advances the counter by exactly one and changes nothing else in the reporter; it writes at most two lines, and no more than the stream accepts; it raises only when there are no hosts (having written nothing) or the stream refused a write (keeping the lines written before it); a progress line comes first, so a stream that takes one write keeps the progress line and raises on the detail line; with no hosts a callback due to report always raises |
| Progress.OnResults | scandotns/__main__.py:119-131 | a run of callbacks writes at most two lines per callback and keeps the host total and interval |
| Progress.CounterCountsCallbacks | scandotns/__main__.py:119-131 | after n callbacks the counter has grown by exactly n, even when callbacks raised; a callback raises only if the stream refused a write in some call or there are no hosts; with no hosts, a run whose first call is due to report raises |
| Progress.ProgressLinesOfCallbacks | scandotns/__main__.py:121-125 | with a stream that takes every write, a progress line for count c is written iff there is at least one host, c is one of the pre-increment counts and `c % report_int == 0`; each carries the host total; with at least one host nothing raises |
| Progress.DetailLinesOfCallbacks | scandotns/__main__.py:121-128 | with a stream that takes every write, every detail line is for a callback whose outcome has a truthy `ssl_ver`; with at least one host, every such callback gets its detail line |
| Progress.NoHostsWritesNothing | scandotns/__main__.py:110-125 | with no hosts every callback divides by zero before writing: no line at all is written, and any non-empty run raises |
| Progress.ProgressCountsIncrease | scandotns/__main__.py:119-131 | the counts on progress lines lie within the counts the calls covered and strictly increase |
| Progress.FirstCallbackReports | scandotns/__main__.py:109-125 | from a fresh counter with a stream that takes every write, the first line written is the progress line for count 0; with no hosts the first callback raises and nothing is written |
| Merge.AnsweringNonEmpty | scandotns/__main__.py:154-160 | the per-TLD map is non-empty (`if obj:`) exactly when some nameserver of the TLD has a result with a truthy `ssl_ver` |
| Merge.ResultMap | scandotns/__main__.py:149-162 | soundness: every `out[k][ns]` has `k` in the input map, `ns` in its set and a result with a truthy `ssl_ver`, stored unchanged; completeness: every such `ns` appears under `k`; no TLD maps to an empty map |
| Merge.AnsweringStep | scandotns/__main__.py:155-158 | the inner loop's step: adding one nameserver to those seen extends the per-TLD map by that nameserver's result iff it has a truthy `ssl_ver`, and otherwise leaves it alone |
| Merge.MergeOverStep | scandotns/__main__.py:153-160 | the outer loop's step: visiting one more TLD stores its per-TLD map iff some nameserver of it answered, and changes no other TLD |
| Merge.CreateResultMap | scandotns/__main__.py:149-162 | the nested loops over TLDs and their nameservers, in any set order, build exactly the merged map |
| Merge.SharedNameserverSameEntry | scandotns/__main__.py:152-160 | a nameserver kept under one TLD is kept, with the same value, under every other TLD that lists it |
| Merge.SilentNameserverAbsent | scandotns/__main__.py:155-158 | a nameserver with no result, or no truthy `ssl_ver`, appears under no TLD |
| Scan.ScanProbesEachHostOnce | scandotns/__main__.py:104-146 | the scan's result has one entry per host, holding that host's probe outcome; the counter ends at the number of hosts; results are lost only if a log write raised; with a stream that takes every write, detail lines name exactly the hosts that negotiated a version |
| Scan.TryNsDotAll | scandotns/__main__.py:104-146 | the scan's reporter is sized to the host count with its report interval, and the log holds at most two lines (progress and detail) per host |
| Scan.OneProbePerNameserver | scandotns/__main__.py:139-146 | exactly one probe and one callback per distinct nameserver of the zone |
| Scan.ScanDotNs | scandotns/__main__.py:165-171 | the whole flow, when it does not raise, yields only TLDs of the zone, each with a non-empty map |
| Scan.MergeOfProbes | scandotns/__main__.py:149-162 | merging one outcome per zone nameserver: `out[k][ns]` exists iff an accepted line pairs `k` with `ns` and the probe of `ns` negotiated a version |
| Scan.ScanDotNsCharacterization | scandotns/__main__.py:165-171 | end to end: `out[k][ns]` exists iff an accepted zone line names `ns` for `k` and the single probe of `ns` negotiated a version, and it then holds that outcome |
| Scan.SharedNameserverEndToEnd | scandotns/__main__.py:165-171 | two TLD lines sharing one nameserver whose strict handshake succeeds give that one strict outcome, with a null error, under both TLDs |

## Left out

- Opening `root.zone` and reading it line by line (lines 27-30, 165-166) is file I/O. The model takes the lines as a sequence.
- The JSON dump to stdout (lines 173-174) is output formatting. The model stops at the merged map.
- Sockets and TLS (lines 74, 78-81, 89-92) are foreign calls: `create_connection`, `wrap_socket`, `version()`, the TLS context factory and its verification flags. Each attempt is one oracle answer, and `str(e)` of any exception is its `Failed` message.
- The oracle must answer all `2*retries` possible attempts. The network always answers a real attempt, one way or the other.
- `ss.version()` is taken to return a string. A version is "truthy" when it is a non-empty string.
- The thread pool and the lock (lines 108, 119, 131, 139-144) are concurrency. The probes run one after another in the order the nameserver set is iterated. Each callback runs as its probe finishes. The results map does not depend on that order; only the order of log lines does.
- The connection timeout and pool size (`dot_timeout`, `dot_nproc`) and the merging of the global `_f_opts` dict (lines 12-19, 133-137) are configuration plumbing. `retries` and `port` are parameters.
- Log line text, the float percentage and the stderr writes (lines 122-128) are left out. Only which lines are written is modelled. The stream is given, per callback, as the number of writes it takes before one raises. A line is written whole or not at all: a write cut off inside a line is not modelled.
- Progress.ReportInterval: computes `nb_it` divided by 20 exactly. The source uses float division then `int()`, which can round up only for counts above about 2^53.
- Text.ToLower and Text.ToUpper map only ASCII letters. Python's Unicode mappings also turn, for instance, `"ın"` (dotless i) into `"IN"`, and the model does not. Root-zone names are ASCII.
- Python dict identity is not modelled. The same dictionary object shared by several TLDs becomes equal values.
- If a callback raises, `fut.result()` re-raises in `try_ns_dot` (line 144) and the program stops. The model returns no results in that case (`None`).
- The `if False` root-exclusion branch (lines 45-48) is dead code and is left out.
