/** `_try_ns_dot_inner`: the strict-then-relaxed retry protocol of one
    nameserver probe. The TCP connect and TLS handshake of each attempt are
    replaced by an oracle, the sequence of what successive attempts return:
    attempt 2*i is the strict attempt of iteration i, attempt 2*i+1 the
    relaxed one. */
module Probe {
  import opened Values

  /** What one connect-and-handshake attempt returns: the negotiated protocol
      version, or the text of the exception it raised. */
  datatype Attempt = Handshake(version: string) | Failed(message: string)

  /** The entries of the `ssl_attr` list. */
  datatype Validation = SNI | CERT

  /** The dictionary a probe returns: `ssl_ver` and `ssl_attr` are keys that
      may be absent, `error` is always present and may be `None`. */
  datatype ProbeOutcome = ProbeOutcome(
    sslVer: Option<string>,
    sslAttr: Option<seq<Validation>>,
    error: Option<string>)

  /** A probe's outcome together with the number of attempts it made. */
  datatype ProbeRun = ProbeRun(outcome: ProbeOutcome, attempts: nat)

  /** Python truthiness of `obj.get("ssl_ver")`. */
  predicate HasVersion(o: ProbeOutcome) {
    o.sslVer.Some? && o.sslVer.value != ""
  }

  const StrictAttrs: seq<Validation> := [SNI, CERT]
  const RelaxedAttrs: seq<Validation> := []

  /** Iteration `i` of the retry loop onwards, with `err` the last exception
      text so far. A success breaks out of the loop without touching `err`. */
  function RetryLoop(i: nat, retries: nat, oracle: seq<Attempt>, err: Option<string>): (r: ProbeRun)
    requires i <= retries && 2 * retries <= |oracle|
    ensures 2 * i <= r.attempts <= 2 * retries
    ensures r.outcome.sslVer.Some? <==> r.outcome.sslAttr.Some?
    decreases retries - i
  {
    if i == retries then ProbeRun(ProbeOutcome(None, None, err), 2 * i)
    else
      match oracle[2 * i]
      case Handshake(v) => ProbeRun(ProbeOutcome(Some(v), Some(StrictAttrs), err), 2 * i + 1)
      case Failed(m1) =>
        match oracle[2 * i + 1]
        case Handshake(v) => ProbeRun(ProbeOutcome(Some(v), Some(RelaxedAttrs), Some(m1)), 2 * i + 2)
        case Failed(m2) => RetryLoop(i + 1, retries, oracle, Some(m2))
  }

  /** One probe of one host, with the oracle answering every attempt. */
  function TryNsDot(retries: nat, oracle: seq<Attempt>): (r: ProbeRun)
    requires 2 * retries <= |oracle|
    ensures r.attempts <= 2 * retries
    ensures r.outcome.sslVer.Some? <==> r.outcome.sslAttr.Some?
  {
    RetryLoop(0, retries, oracle, None)
  }

  // ---------------------------------------------------------------------
  // Reference description of the protocol

  /** The first successful attempt in `[lo, hi)`, if any. */
  function FirstHandshake(oracle: seq<Attempt>, lo: nat, hi: nat): (r: Option<nat>)
    requires lo <= hi <= |oracle|
    ensures r.Some? ==>
      && lo <= r.value < hi
      && oracle[r.value].Handshake?
      && (forall j :: lo <= j < r.value ==> oracle[j].Failed?)
    ensures r.None? ==> forall j :: lo <= j < hi ==> oracle[j].Failed?
    decreases hi - lo
  {
    if lo == hi then None
    else if oracle[lo].Handshake? then Some(lo)
    else FirstHandshake(oracle, lo + 1, hi)
  }

  /** The error field after attempts `[lo, k)` all failed: the text of the
      last one, or `err` when there were none. */
  function LastFailure(oracle: seq<Attempt>, lo: nat, k: nat, err: Option<string>): Option<string>
    requires lo <= k <= |oracle|
    requires forall j :: lo <= j < k ==> oracle[j].Failed?
  {
    if k == lo then err else Some(oracle[k - 1].message)
  }

  /** What a probe over attempts `[lo, hi)` yields, described through the
      first success rather than through the loop: a success at an even index
      is strict, at an odd index relaxed; the error is that of the attempt
      just before, whether or not a success follows. */
  function Reference(oracle: seq<Attempt>, lo: nat, hi: nat, err: Option<string>): ProbeRun
    requires lo <= hi <= |oracle|
  {
    match FirstHandshake(oracle, lo, hi)
    case Some(k) =>
      ProbeRun(ProbeOutcome(Some(oracle[k].version),
                            Some(if k % 2 == 0 then StrictAttrs else RelaxedAttrs),
                            LastFailure(oracle, lo, k, err)),
               k + 1)
    case None =>
      ProbeRun(ProbeOutcome(None, None, LastFailure(oracle, lo, hi, err)), hi)
  }

  lemma {:induction false} RetryLoopIsReference(i: nat, retries: nat, oracle: seq<Attempt>, err: Option<string>)
    requires i <= retries && 2 * retries <= |oracle|
    ensures RetryLoop(i, retries, oracle, err) == Reference(oracle, 2 * i, 2 * retries, err)
    decreases retries - i
  {
    if i < retries && oracle[2 * i].Failed? && oracle[2 * i + 1].Failed? {
      RetryLoopIsReference(i + 1, retries, oracle, Some(oracle[2 * i + 1].message));
      assert FirstHandshake(oracle, 2 * i, 2 * retries) == FirstHandshake(oracle, 2 * i + 2, 2 * retries);
    }
  }

  /** The probe agrees with the reference description over all `2 * retries`
      attempts, starting from no error. */
  lemma ProbeIsReference(retries: nat, oracle: seq<Attempt>)
    requires 2 * retries <= |oracle|
    ensures TryNsDot(retries, oracle) == Reference(oracle, 0, 2 * retries, None)
  {
    RetryLoopIsReference(0, retries, oracle, None);
  }

  // ---------------------------------------------------------------------
  // Consequences

  /** At most `2 * retries` attempts; the loop stops at the first success, so
      every attempt before the last one failed, and the last one failed too
      unless a version was negotiated. */
  lemma ProbeStopsAtFirstSuccess(retries: nat, oracle: seq<Attempt>)
    requires 2 * retries <= |oracle|
    ensures var r := TryNsDot(retries, oracle);
      && r.attempts <= 2 * retries
      && (retries > 0 ==> r.attempts >= 1)
      && (forall j :: 0 <= j < r.attempts - 1 ==> oracle[j].Failed?)
      && (r.outcome.sslVer.Some? <==> r.attempts > 0 && oracle[r.attempts - 1].Handshake?)
      && (r.outcome.sslVer.Some? ==> r.outcome.sslVer == Some(oracle[r.attempts - 1].version))
  {
    ProbeIsReference(retries, oracle);
  }

  /** `error` is `None` exactly when no attempt failed: there were no
      iterations, or the very first strict attempt succeeded. */
  lemma ErrorNoneIffNoFailure(retries: nat, oracle: seq<Attempt>)
    requires 2 * retries <= |oracle|
    ensures TryNsDot(retries, oracle).outcome.error.None? <==>
      (retries == 0 || oracle[0].Handshake?)
  {
    ProbeIsReference(retries, oracle);
  }

  /** A strict success gives `["SNI", "CERT"]`; it is the first attempt only
      when nothing failed before it. */
  lemma StrictSuccessFirst(retries: nat, oracle: seq<Attempt>)
    requires 2 * retries <= |oracle|
    requires retries > 0 && oracle[0].Handshake?
    ensures TryNsDot(retries, oracle)
      == ProbeRun(ProbeOutcome(Some(oracle[0].version), Some(StrictAttrs), None), 1)
  {
    ProbeIsReference(retries, oracle);
  }

  /** Strict fails, relaxed succeeds: the attribute list is empty, and the
      strict attempt's error text is still reported, since a success never
      clears it. */
  lemma RelaxedSuccessKeepsError(retries: nat, oracle: seq<Attempt>)
    requires 2 * retries <= |oracle|
    requires retries > 0 && oracle[0].Failed? && oracle[1].Handshake?
    ensures TryNsDot(retries, oracle)
      == ProbeRun(ProbeOutcome(Some(oracle[1].version), Some(RelaxedAttrs), Some(oracle[0].message)), 2)
  {
    ProbeIsReference(retries, oracle);
  }

  /** When every attempt fails, all `2 * retries` are made, there is no
      version and no attribute list, and the error is the last attempt's. */
  lemma AllAttemptsFail(retries: nat, oracle: seq<Attempt>)
    requires 2 * retries <= |oracle|
    requires forall j :: 0 <= j < 2 * retries ==> oracle[j].Failed?
    ensures var r := TryNsDot(retries, oracle);
      && r.attempts == 2 * retries
      && r.outcome.sslVer.None? && r.outcome.sslAttr.None?
      && r.outcome.error == (if retries == 0 then None else Some(oracle[2 * retries - 1].message))
  {
    ProbeIsReference(retries, oracle);
  }

  /** Any success in the first `2 * retries` attempts is found: the probe
      has a version exactly when some attempt in its budget succeeds. */
  lemma VersionIffSomeSuccess(retries: nat, oracle: seq<Attempt>)
    requires 2 * retries <= |oracle|
    ensures TryNsDot(retries, oracle).outcome.sslVer.Some? <==>
      exists j :: 0 <= j < 2 * retries && oracle[j].Handshake?
  {
    ProbeIsReference(retries, oracle);
  }

}
