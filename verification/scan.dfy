/** `try_ns_dot` and the top-level flow: parse the zone lines, probe every
    distinct nameserver once, merge the results back onto the TLD map. The
    thread pool is taken as running the probes one after the other in the
    order the nameserver set is iterated, each probe's callback running as
    that probe completes. */
module Scan {
  import opened Values
  import opened Probe
  import opened Progress
  import opened Merge
  import opened ZoneFile
  import opened Text

  /** What `try_ns_dot` returns (`None` when collecting a result re-raised
      the exception of a failed callback), and the reporter and log lines the
      callbacks left. */
  datatype ScanRun = ScanRun(results: Option<map<string, ProbeOutcome>>, reporter: Reporter, log: seq<LogLine>)

  predicate Distinct(order: seq<string>) {
    forall i, j :: 0 <= i < j < |order| ==> order[i] != order[j]
  }

  /** The oracle has an answer for every attempt of every host. */
  predicate Answers(order: seq<string>, retries: nat, oracles: map<string, seq<Attempt>>) {
    forall h :: h in order ==> h in oracles && 2 * retries <= |oracles[h]|
  }

  function Outcome(h: string, retries: nat, oracles: map<string, seq<Attempt>>): ProbeOutcome
    requires h in oracles && 2 * retries <= |oracles[h]|
  {
    TryNsDot(retries, oracles[h]).outcome
  }

  /** The callbacks of the probes, in completion order. */
  function Calls(order: seq<string>, port: int, retries: nat, oracles: map<string, seq<Attempt>>): (calls: seq<Callback>)
    requires Answers(order, retries, oracles)
    ensures |calls| == |order|
  {
    seq(|order|, i requires 0 <= i < |order| => Callback(order[i], port, Outcome(order[i], retries, oracles)))
  }

  /** `try_ns_dot(it, len(it))` over the hosts `order`: the reporter is sized
      to the host count and the log holds at most two lines per host. */
  function TryNsDotAll(order: seq<string>, port: int, retries: nat,
                       oracles: map<string, seq<Attempt>>, accepts: seq<nat>): (r: ScanRun)
    requires Distinct(order) && Answers(order, retries, oracles) && |accepts| == |order|
    ensures r.reporter.total == |order| && r.reporter.interval == ReportInterval(|order|)
    ensures |r.log| <= 2 * |order|
  {
    var rep := OnResults(NewReporter(|order|), Calls(order, port, retries, oracles), accepts);
    var results := map h | h in order :: Outcome(h, retries, oracles);
    ScanRun(if rep.raised then None else Some(results), rep.next, rep.lines)
  }

  /** The scan probes every host exactly once: the result has one entry per
      host, holding that host's probe outcome, and the counter ends at the
      number of hosts whether or not a log write raised. Results are lost
      only if a log write raised. With a stream that takes every write, the
      detail lines name exactly the hosts that negotiated a version. */
  lemma ScanProbesEachHostOnce(order: seq<string>, port: int, retries: nat,
                               oracles: map<string, seq<Attempt>>, accepts: seq<nat>)
    requires Distinct(order) && Answers(order, retries, oracles) && |accepts| == |order|
    ensures var run := TryNsDotAll(order, port, retries, oracles, accepts);
      && run.reporter.cnt == |order|
      && run.reporter.total == |order|
      && (AllOk(accepts) ==> run.results.Some?)
      && (run.results.Some? ==>
            && (forall h :: h in run.results.value <==> h in order)
            && (forall h :: h in run.results.value ==> run.results.value[h] == Outcome(h, retries, oracles)))
    ensures AllOk(accepts) ==>
      forall h, p, o :: DetailLine(h, p, o) in TryNsDotAll(order, port, retries, oracles, accepts).log <==>
        h in order && p == port && o == Outcome(h, retries, oracles) && HasVersion(o)
  {
    var calls := Calls(order, port, retries, oracles);
    CounterCountsCallbacks(NewReporter(|order|), calls, accepts);
    if AllOk(accepts) {
      DetailLinesOfCallbacks(NewReporter(|order|), calls, accepts);
      forall h, p, o
        ensures Callback(h, p, o) in calls <==>
          h in order && p == port && o == Outcome(h, retries, oracles)
      {
        if h in order {
          var i :| 0 <= i < |order| && order[i] == h;
          assert calls[i] == Callback(h, port, Outcome(h, retries, oracles));
        }
      }
    }
  }

  // ---------------------------------------------------------------------
  // The whole flow

  /** `order` lists the nameserver set, each element once. */
  predicate Enumerates(order: seq<string>, s: set<string>) {
    Distinct(order) && (forall h :: h in order ==> h in s) && (forall h :: h in s ==> h in order)
  }

  /** Parse, scan the nameserver set, merge; `None` when the scan raised. */
  function ScanDotNs(lines: seq<string>, order: seq<string>, port: int, retries: nat,
                     oracles: map<string, seq<Attempt>>, accepts: seq<nat>): (r: Option<map<string, map<string, ProbeOutcome>>>)
    requires Enumerates(order, ParseZoneFile(lines).nsSet)
    requires Answers(order, retries, oracles) && |accepts| == |order|
    ensures r.Some? ==> forall k :: k in r.value ==> k in ParseZoneFile(lines).tldNs && r.value[k] != map[]
  {
    var z := ParseZoneFile(lines);
    match TryNsDotAll(order, port, retries, oracles, accepts).results
    case None => None
    case Some(res) => Some(ResultMap(z.tldNs, res))
  }

  /** The merge over a parse and one probe outcome per nameserver of it:
      `out[k][ns]` exists exactly when an accepted line pairs `k` with `ns`
      and the probe of `ns` negotiated a version. */
  lemma MergeOfProbes(lines: seq<string>, res: map<string, ProbeOutcome>, retries: nat,
                      oracles: map<string, seq<Attempt>>)
    requires forall h :: h in res <==> h in ParseZoneFile(lines).nsSet
    requires forall h :: h in res ==>
      h in oracles && 2 * retries <= |oracles[h]| && res[h] == Outcome(h, retries, oracles)
    ensures var out := ResultMap(ParseZoneFile(lines).tldNs, res);
      forall k, ns :: (k in out && ns in out[k]) <==>
        && AcceptedAt(lines, k, ns)
        && ns in oracles && 2 * retries <= |oracles[ns]|
        && HasVersion(Outcome(ns, retries, oracles))
  {
    var z := ParseZoneFile(lines);
    ParseRecordsAccepted(lines);
    var out := ResultMap(z.tldNs, res);
    forall k, ns | k in out && ns in out[k]
      ensures AcceptedAt(lines, k, ns)
      ensures ns in oracles && 2 * retries <= |oracles[ns]| && HasVersion(Outcome(ns, retries, oracles))
    {
      assert ns in z.tldNs[k];
      assert ns in res;
    }
    forall k, ns | AcceptedAt(lines, k, ns) && ns in oracles && 2 * retries <= |oracles[ns]| &&
        HasVersion(Outcome(ns, retries, oracles))
      ensures k in out && ns in out[k]
    {
      assert k in z.tldNs && ns in z.tldNs[k];
      assert ns in z.nsSet;
      assert ns in res;
    }
  }

  /** End to end: `out[k][ns]` exists exactly when some accepted zone line
      names `ns` as a nameserver of `k` and the one probe of `ns` negotiated
      a version, and it then holds that probe's outcome. */
  lemma ScanDotNsCharacterization(lines: seq<string>, order: seq<string>, port: int, retries: nat,
                                  oracles: map<string, seq<Attempt>>, accepts: seq<nat>)
    requires Enumerates(order, ParseZoneFile(lines).nsSet)
    requires Answers(order, retries, oracles) && |accepts| == |order|
    requires AllOk(accepts)
    ensures ScanDotNs(lines, order, port, retries, oracles, accepts).Some?
    ensures var out := ScanDotNs(lines, order, port, retries, oracles, accepts).value;
      forall k, ns :: (k in out && ns in out[k]) <==>
        && AcceptedAt(lines, k, ns)
        && ns in oracles && 2 * retries <= |oracles[ns]|
        && HasVersion(Outcome(ns, retries, oracles))
    ensures var out := ScanDotNs(lines, order, port, retries, oracles, accepts).value;
      forall k, ns :: k in out && ns in out[k] ==> out[k][ns] == Outcome(ns, retries, oracles)
  {
    ScanProbesEachHostOnce(order, port, retries, oracles, accepts);
    var res := TryNsDotAll(order, port, retries, oracles, accepts).results.value;
    assert ScanDotNs(lines, order, port, retries, oracles, accepts) == Some(ResultMap(ParseZoneFile(lines).tldNs, res));
    MergeOfProbes(lines, res, retries, oracles);
  }

  lemma {:induction false} EnumerationSize(order: seq<string>, s: set<string>)
    requires Enumerates(order, s)
    ensures |order| == |s|
    decreases |order|
  {
    if |order| > 0 {
      var s' := s - {order[0]};
      forall h | h in order[1..] ensures h in s' {
        var i :| 1 <= i < |order| && order[i] == h;
        assert order[0] != order[i];
      }
      forall h | h in s' ensures h in order[1..] {
        var i :| 0 <= i < |order| && order[i] == h;
        assert i != 0;
        assert order[1..][i - 1] == h;
      }
      assert Distinct(order[1..]) by {
        forall i, j | 0 <= i < j < |order[1..]| ensures order[1..][i] != order[1..][j] {
          assert order[1..][i] == order[i + 1] && order[1..][j] == order[j + 1];
        }
      }
      EnumerationSize(order[1..], s');
    } else {
      assert forall h :: h !in s;
      assert s == {};
    }
  }

  /** The scan makes one probe, and one callback, per distinct nameserver of
      the zone, however many TLDs share it. */
  lemma OneProbePerNameserver(lines: seq<string>, order: seq<string>, port: int, retries: nat,
                              oracles: map<string, seq<Attempt>>, accepts: seq<nat>)
    requires Enumerates(order, ParseZoneFile(lines).nsSet)
    requires Answers(order, retries, oracles) && |accepts| == |order|
    ensures |Calls(order, port, retries, oracles)| == |ParseZoneFile(lines).nsSet|
    ensures TryNsDotAll(order, port, retries, oracles, accepts).reporter.cnt == |ParseZoneFile(lines).nsSet|
  {
    EnumerationSize(order, ParseZoneFile(lines).nsSet);
    ScanProbesEachHostOnce(order, port, retries, oracles, accepts);
  }

  // ---------------------------------------------------------------------
  // Two TLDs sharing one nameserver

  lemma CaseOfInNs()
    ensures ToUpper("IN") == "IN" && ToUpper("NS") == "NS"
  {
    assert ToUpper("IN") == "IN";
    assert ToUpper("NS") == "NS";
  }

  /** A record line as the root zone writes it: five non-empty tab-free
      fields, no whitespace at either end, a name with at most one dot. */
  predicate PlainRecord(name: string, ttl: string, target: string) {
    && IsField(name) && IsField(ttl) && IsField(target)
    && !IsSpace(name[0]) && name[0] != '#' && !IsSpace(target[|target| - 1])
    && Count(name, '.') <= 1
  }

  lemma PlainRecordAccepted(name: string, ttl: string, target: string)
    requires PlainRecord(name, ttl, target)
    ensures ClassifyLine(RecordLine(name, ttl, "IN", "NS", target))
      == Accepted(NsEntry(ToLower(name), ToLower(target)))
  {
    CaseOfInNs();
    RecordLineAccepted(name, ttl, "IN", "NS", target);
  }

  /** Two accepted lines, parsed in order. */
  lemma ParseTwoAccepted(l0: string, l1: string, e0: NsEntry, e1: NsEntry)
    requires ClassifyLine(l0) == Accepted(e0) && ClassifyLine(l1) == Accepted(e1)
    ensures ParseZoneFile([l0, l1]) == AddEntry(AddEntry(Empty, e0), e1)
  {
    var z0 := ParseLine(Empty, l0);
    assert z0 == AddEntry(Empty, e0);
    assert ParseLine(z0, l1) == AddEntry(z0, e1);
    assert ParseFrom(Empty, [l0, l1]) == ParseFrom(z0, [l1]) by {
      assert [l0, l1][1..] == [l1];
    }
    assert ParseFrom(z0, [l1]) == ParseFrom(ParseLine(z0, l1), []) by {
      assert [l1][1..] == [];
    }
  }

  lemma ParseTwoTlds(t1: string, t2: string, ttl: string, ns: string)
    requires PlainRecord(t1, ttl, ns) && PlainRecord(t2, ttl, ns)
    requires ToLower(t1) != ToLower(t2)
    ensures ParseZoneFile([RecordLine(t1, ttl, "IN", "NS", ns), RecordLine(t2, ttl, "IN", "NS", ns)])
      == ZoneMaps(map[ToLower(t1) := {ToLower(ns)}, ToLower(t2) := {ToLower(ns)}], {ToLower(ns)})
  {
    PlainRecordAccepted(t1, ttl, ns);
    PlainRecordAccepted(t2, ttl, ns);
    var e1 := NsEntry(ToLower(t1), ToLower(ns));
    var e2 := NsEntry(ToLower(t2), ToLower(ns));
    ParseTwoAccepted(RecordLine(t1, ttl, "IN", "NS", ns), RecordLine(t2, ttl, "IN", "NS", ns), e1, e2);
    var z1 := AddEntry(Empty, e1);
    assert z1 == ZoneMaps(map[e1.tld := {e1.ns}], {e1.ns});
  }

  /** Scanning a single host with a stream that takes every write yields
      its outcome. */
  lemma ScanSingleHost(h: string, port: int, retries: nat, oracles: map<string, seq<Attempt>>)
    requires h in oracles && 2 * retries <= |oracles[h]|
    ensures TryNsDotAll([h], port, retries, oracles, [2]).results
      == Some(map[h := Outcome(h, retries, oracles)])
  {
    assert AllOk([2]);
    ScanProbesEachHostOnce([h], port, retries, oracles, [2]);
    var run := TryNsDotAll([h], port, retries, oracles, [2]);
    assert run.results.Some?;
    var res := run.results.value;
    assert res.Keys == {h};
    assert res == map[h := Outcome(h, retries, oracles)];
  }

  /** Two TLDs sharing one answering nameserver both keep it. */
  lemma MergeShared(t1: string, t2: string, h: string, o: ProbeOutcome)
    requires t1 != t2 && HasVersion(o)
    ensures ResultMap(map[t1 := {h}, t2 := {h}], map[h := o]) == map[t1 := map[h := o], t2 := map[h := o]]
  {
    var out := ResultMap(map[t1 := {h}, t2 := {h}], map[h := o]);
    assert Answering({h}, map[h := o]) == map[h := o];
    assert out.Keys == {t1, t2};
  }

  /** Two zone lines giving the same nameserver for two TLDs, whose first
      (strict) handshake succeeds: the nameserver is probed once and the
      same strict outcome, with no error, appears under both TLDs. */
  lemma SharedNameserverEndToEnd(t1: string, t2: string, ttl: string, ns: string,
                                 port: int, retries: nat, oracle: seq<Attempt>)
    requires PlainRecord(t1, ttl, ns) && PlainRecord(t2, ttl, ns)
    requires t1 != t2 && ToLower(t1) == t1 && ToLower(t2) == t2 && ToLower(ns) == ns
    requires retries > 0 && 2 * retries <= |oracle|
    requires oracle[0].Handshake? && oracle[0].version != ""
    ensures ParseZoneFile([RecordLine(t1, ttl, "IN", "NS", ns), RecordLine(t2, ttl, "IN", "NS", ns)]).nsSet == {ns}
    ensures var o := ProbeOutcome(Some(oracle[0].version), Some(StrictAttrs), None);
      ScanDotNs([RecordLine(t1, ttl, "IN", "NS", ns), RecordLine(t2, ttl, "IN", "NS", ns)],
                [ns], port, retries, map[ns := oracle], [2])
      == Some(map[t1 := map[ns := o], t2 := map[ns := o]])
  {
    ParseTwoTlds(t1, t2, ttl, ns);
    var oracles := map[ns := oracle];
    StrictSuccessFirst(retries, oracle);
    var o := ProbeOutcome(Some(oracle[0].version), Some(StrictAttrs), None);
    assert Outcome(ns, retries, oracles) == o;
    ScanSingleHost(ns, port, retries, oracles);
    MergeShared(t1, t2, ns, o);
  }

}
