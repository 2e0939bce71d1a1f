/** The progress reporter of `try_ns_dot`: the report interval and the
    completion callback `_try_ns_dot_result_f`, taken as sequential calls
    (the lock only serialises them). Each call decides which diagnostic lines
    to write; writing one may raise, and the counter is bumped in `finally`
    either way. */
module Progress {
  import opened Probe

  /** The counter and the two values captured with it. */
  datatype Reporter = Reporter(cnt: nat, total: nat, interval: nat)

  /** The arguments one completed probe passes to the callback. */
  datatype Callback = Callback(host: string, port: int, outcome: ProbeOutcome)

  /** The diagnostic lines, without their text: "cnt / total (p%)" and the
      per-host detail line. */
  datatype LogLine =
    | ProgressLine(count: nat, total: nat)
    | DetailLine(host: string, port: int, outcome: ProbeOutcome)

  /** The reporter after a call (or calls), the lines written, and whether a
      write raised. */
  datatype Reported = Reported(next: Reporter, lines: seq<LogLine>, raised: bool)

  /** `int(nb_it / 20)`, replaced by 1 when it is 0: a report every 5%. */
  function ReportInterval(nbIt: nat): (r: nat)
    ensures r >= 1
    ensures nbIt < 40 ==> r == 1
    ensures nbIt >= 20 ==> 20 * r <= nbIt < 20 * (r + 1)
  {
    var q := nbIt / 20;
    if q == 0 then 1 else q
  }

  function NewReporter(nbIt: nat): (r: Reporter)
    ensures r.cnt == 0 && r.total == nbIt && r.interval >= 1
  {
    Reporter(0, nbIt, ReportInterval(nbIt))
  }

  /** One callback. `accepts` is how many writes the diagnostic stream
      takes during this call before a write raises. Formatting the progress
      line divides the count by `total`, so with no hosts a call due to
      report raises `ZeroDivisionError` before anything is written.
      Otherwise the progress line, then the detail line, are written in turn
      until the stream refuses one. Lines already written stay written, the
      rest of the body is skipped, and the counter is still bumped. */
  function OnResult(r: Reporter, c: Callback, accepts: nat): (out: Reported)
    requires r.interval >= 1
    ensures out.next == Reporter(r.cnt + 1, r.total, r.interval)
    ensures |out.lines| <= 2 && |out.lines| <= accepts
    ensures out.raised ==> (r.total == 0 && out.lines == []) || (|out.lines| == accepts && accepts < 2)
    ensures accepts >= 2 && r.total > 0 ==> !out.raised
    ensures r.total == 0 && r.cnt % r.interval == 0 ==> out.raised && out.lines == []
    ensures r.total > 0 && r.cnt % r.interval == 0 && accepts >= 1 ==>
      |out.lines| > 0 && out.lines[0] == ProgressLine(r.cnt, r.total)
    ensures r.total > 0 && r.cnt % r.interval == 0 && HasVersion(c.outcome) && accepts == 1 ==>
      out.lines == [ProgressLine(r.cnt, r.total)] && out.raised
  {
    var wantProgress := r.cnt % r.interval == 0;
    var next := r.(cnt := r.cnt + 1);
    if wantProgress && r.total == 0 then Reported(next, [], true)
    else
      var progress := if wantProgress then [ProgressLine(r.cnt, r.total)] else [];
      var detail := if HasVersion(c.outcome) then [DetailLine(c.host, c.port, c.outcome)] else [];
      var wanted := progress + detail;
      if |wanted| <= accepts then Reported(next, wanted, false)
      else Reported(next, wanted[..accepts], true)
  }

  /** A sequence of callbacks in completion order, `accepts[i]` giving how
      many writes the stream takes during the i-th. */
  function OnResults(r: Reporter, calls: seq<Callback>, accepts: seq<nat>): (out: Reported)
    requires r.interval >= 1 && |accepts| == |calls|
    ensures |out.lines| <= 2 * |calls|
    ensures out.next.total == r.total && out.next.interval == r.interval
    decreases |calls|
  {
    if |calls| == 0 then Reported(r, [], false)
    else
      var first := OnResult(r, calls[0], accepts[0]);
      var rest := OnResults(first.next, calls[1..], accepts[1..]);
      Reported(rest.next, first.lines + rest.lines, first.raised || rest.raised)
  }

  /** The stream takes both writes of every call. */
  predicate AllOk(accepts: seq<nat>) {
    forall i :: 0 <= i < |accepts| ==> accepts[i] >= 2
  }

  /** The counter grows by exactly one per callback, whether or not a write
      raised, and nothing else about the reporter changes. A callback raises
      only if the stream refused a write in some call or there are no hosts
      to divide by; with no hosts, a first callback due to report always
      raises. */
  lemma {:induction false} CounterCountsCallbacks(r: Reporter, calls: seq<Callback>, accepts: seq<nat>)
    requires r.interval >= 1 && |accepts| == |calls|
    ensures OnResults(r, calls, accepts).next == Reporter(r.cnt + |calls|, r.total, r.interval)
    ensures OnResults(r, calls, accepts).raised ==> !AllOk(accepts) || r.total == 0
    ensures r.total == 0 && |calls| > 0 && r.cnt % r.interval == 0 ==> OnResults(r, calls, accepts).raised
    decreases |calls|
  {
    if |calls| > 0 {
      var first := OnResult(r, calls[0], accepts[0]);
      CounterCountsCallbacks(first.next, calls[1..], accepts[1..]);
      if OnResults(first.next, calls[1..], accepts[1..]).raised && r.total > 0 {
        var i :| 0 <= i < |accepts[1..]| && accepts[1..][i] < 2;
        assert accepts[i + 1] < 2;
      }
    }
  }

  lemma AllOkTail(accepts: seq<nat>)
    requires |accepts| > 0 && AllOk(accepts)
    ensures accepts[0] >= 2 && AllOk(accepts[1..])
  {
    forall i | 0 <= i < |accepts[1..]| ensures accepts[1..][i] >= 2 {
      assert accepts[1..][i] == accepts[i + 1];
    }
  }

  /** With a stream that takes every write and at least one host, the
      progress lines written are exactly those for the pre-increment counts
      divisible by the interval, and nothing raises. With no hosts no progress line is ever
      written. */
  lemma {:induction false} ProgressLinesOfCallbacks(r: Reporter, calls: seq<Callback>, accepts: seq<nat>)
    requires r.interval >= 1 && |accepts| == |calls| && AllOk(accepts)
    ensures var lines := OnResults(r, calls, accepts).lines;
      && (forall c: nat :: ProgressLine(c, r.total) in lines <==>
            r.total > 0 && r.cnt <= c < r.cnt + |calls| && c % r.interval == 0)
      && (forall l :: l in lines && l.ProgressLine? ==> l.total == r.total)
    ensures r.total > 0 ==> !OnResults(r, calls, accepts).raised
    decreases |calls|
  {
    if |calls| > 0 {
      var first := OnResult(r, calls[0], accepts[0]);
      AllOkTail(accepts);
      ProgressLinesOfCallbacks(first.next, calls[1..], accepts[1..]);
      var rest := OnResults(first.next, calls[1..], accepts[1..]);
      var lines := first.lines + rest.lines;
      assert OnResults(r, calls, accepts).lines == lines;
      forall c: nat
        ensures ProgressLine(c, r.total) in lines <==>
          r.total > 0 && r.cnt <= c < r.cnt + |calls| && c % r.interval == 0
      {
        assert ProgressLine(c, r.total) in lines <==>
          ProgressLine(c, r.total) in first.lines || ProgressLine(c, r.total) in rest.lines;
        assert ProgressLine(c, r.total) in first.lines <==>
          r.total > 0 && c == r.cnt && r.cnt % r.interval == 0;
      }
      forall l | l in lines && l.ProgressLine?
        ensures l.total == r.total
      {
        assert l in first.lines || l in rest.lines;
      }
    }
  }

  /** With a stream that takes every write, every detail line written is
      for a callback whose outcome has a version; with at least one host,
      every such callback gets its detail line. */
  lemma {:induction false} DetailLinesOfCallbacks(r: Reporter, calls: seq<Callback>, accepts: seq<nat>)
    requires r.interval >= 1 && |accepts| == |calls| && AllOk(accepts)
    ensures forall h, p, o :: DetailLine(h, p, o) in OnResults(r, calls, accepts).lines ==>
      Callback(h, p, o) in calls && HasVersion(o)
    ensures r.total > 0 ==> forall h, p, o :: Callback(h, p, o) in calls && HasVersion(o) ==>
      DetailLine(h, p, o) in OnResults(r, calls, accepts).lines
    decreases |calls|
  {
    if |calls| > 0 {
      var first := OnResult(r, calls[0], accepts[0]);
      AllOkTail(accepts);
      DetailLinesOfCallbacks(first.next, calls[1..], accepts[1..]);
      var rest := OnResults(first.next, calls[1..], accepts[1..]);
      assert OnResults(r, calls, accepts).lines == first.lines + rest.lines;
      assert calls == [calls[0]] + calls[1..];
      forall h, p, o
        ensures DetailLine(h, p, o) in first.lines ==>
          Callback(h, p, o) == calls[0] && HasVersion(o)
        ensures r.total > 0 ==> (DetailLine(h, p, o) in first.lines <==>
          Callback(h, p, o) == calls[0] && HasVersion(o))
      {
      }
    }
  }

  /** With no hosts the interval is 1, so every callback is due to report
      and raises `ZeroDivisionError`: nothing at all is written. */
  lemma {:induction false} NoHostsWritesNothing(r: Reporter, calls: seq<Callback>, accepts: seq<nat>)
    requires r.interval == 1 && r.total == 0 && |accepts| == |calls|
    ensures OnResults(r, calls, accepts).lines == []
    ensures |calls| > 0 ==> OnResults(r, calls, accepts).raised
    decreases |calls|
  {
    if |calls| > 0 {
      var first := OnResult(r, calls[0], accepts[0]);
      NoHostsWritesNothing(first.next, calls[1..], accepts[1..]);
    }
  }

  /** Every progress line in `lines` carries a count in `[lo, hi)`. */
  predicate CountsWithin(lines: seq<LogLine>, lo: nat, hi: nat) {
    forall i :: 0 <= i < |lines| && lines[i].ProgressLine? ==> lo <= lines[i].count < hi
  }

  /** Progress lines appear in strictly increasing order of their count. */
  predicate CountsIncrease(lines: seq<LogLine>) {
    forall i, j :: 0 <= i < j < |lines| && lines[i].ProgressLine? && lines[j].ProgressLine? ==>
      lines[i].count < lines[j].count
  }

  /** The progress lines of a run of callbacks report counts that lie in the
      range the run covered and that strictly increase. */
  lemma {:induction false} ProgressCountsIncrease(r: Reporter, calls: seq<Callback>, accepts: seq<nat>)
    requires r.interval >= 1 && |accepts| == |calls|
    ensures CountsWithin(OnResults(r, calls, accepts).lines, r.cnt, r.cnt + |calls|)
    ensures CountsIncrease(OnResults(r, calls, accepts).lines)
    decreases |calls|
  {
    if |calls| > 0 {
      var first := OnResult(r, calls[0], accepts[0]);
      ProgressCountsIncrease(first.next, calls[1..], accepts[1..]);
      var rest := OnResults(first.next, calls[1..], accepts[1..]);
      var lines := first.lines + rest.lines;
      assert OnResults(r, calls, accepts).lines == lines;
      assert CountsWithin(rest.lines, r.cnt + 1, r.cnt + |calls|);
      var n := |first.lines|;
      assert forall i :: 0 <= i < n && first.lines[i].ProgressLine? ==>
        i == 0 && first.lines[i].count == r.cnt;
      forall i | 0 <= i < |lines| && lines[i].ProgressLine?
        ensures r.cnt <= lines[i].count < r.cnt + |calls|
      {
        if i >= n {
          assert lines[i] == rest.lines[i - n];
        } else {
          assert lines[i] == first.lines[i];
        }
      }
      forall i, j | 0 <= i < j < |lines| && lines[i].ProgressLine? && lines[j].ProgressLine?
        ensures lines[i].count < lines[j].count
      {
        if i < n && j >= n {
          assert lines[i] == first.lines[i];
          assert lines[j] == rest.lines[j - n];
        } else if i >= n {
          assert lines[i] == rest.lines[i - n] && lines[j] == rest.lines[j - n];
        }
      }
    }
  }

  /** From a fresh reporter with a stream that takes every write, the first
      callback writes the progress line for count 0; with no hosts it raises
      instead and nothing is written. */
  lemma FirstCallbackReports(nbIt: nat, calls: seq<Callback>, accepts: seq<nat>)
    requires |calls| > 0 && |accepts| == |calls| && AllOk(accepts)
    ensures var run := OnResults(NewReporter(nbIt), calls, accepts);
      && (nbIt > 0 ==> |run.lines| > 0 && run.lines[0] == ProgressLine(0, nbIt))
      && (nbIt == 0 ==> run.raised && run.lines == [])
  {
    if nbIt == 0 {
      NoHostsWritesNothing(NewReporter(nbIt), calls, accepts);
    }
  }

}
