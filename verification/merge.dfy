/** `create_result_map`: the per-TLD view of the probe results, keeping only
    nameservers whose probe negotiated a version and only TLDs left with at
    least one such nameserver. */
module Merge {
  import opened Probe

  /** The nameservers of `v` that answered, each with its probe outcome. */
  function Answering(v: set<string>, result: map<string, ProbeOutcome>): map<string, ProbeOutcome> {
    map ns | ns in v && ns in result && HasVersion(result[ns]) :: result[ns]
  }

  /** Some nameserver of `v` answered: the per-TLD map is non-empty. */
  predicate AnyAnswering(v: set<string>, result: map<string, ProbeOutcome>) {
    exists ns :: ns in v && ns in result && HasVersion(result[ns])
  }

  lemma AnsweringNonEmpty(v: set<string>, result: map<string, ProbeOutcome>)
    ensures Answering(v, result) != map[] <==> AnyAnswering(v, result)
  {
    if AnyAnswering(v, result) {
      var ns :| ns in v && ns in result && HasVersion(result[ns]);
      assert ns in Answering(v, result);
    }
  }

  /** Every TLD whose nameservers answered gets a non-empty map. */
  lemma AnsweringNonEmptyAll(tldNs: map<string, set<string>>, result: map<string, ProbeOutcome>)
    ensures forall k :: k in tldNs && AnyAnswering(tldNs[k], result) ==> Answering(tldNs[k], result) != map[]
  {
    forall k | k in tldNs && AnyAnswering(tldNs[k], result)
      ensures Answering(tldNs[k], result) != map[]
    {
      AnsweringNonEmpty(tldNs[k], result);
    }
  }

  /** The merged map over the TLDs in `keys`. */
  function MergeOver(tldNs: map<string, set<string>>, result: map<string, ProbeOutcome>, keys: set<string>): map<string, map<string, ProbeOutcome>>
    requires keys <= tldNs.Keys
  {
    map k | k in keys && AnyAnswering(tldNs[k], result) :: Answering(tldNs[k], result)
  }

  /** What `create_result_map` returns, stated as the three promises it
      keeps: every entry is a nameserver of its TLD whose result answered,
      stored unchanged; every such nameserver has its entry; no TLD is left
      with an empty map. */
  function ResultMap(tldNs: map<string, set<string>>, result: map<string, ProbeOutcome>): (out: map<string, map<string, ProbeOutcome>>)
    ensures forall k :: k in out ==> k in tldNs && out[k] != map[]
    ensures forall k, ns :: k in out && ns in out[k] ==>
      && ns in tldNs[k]
      && ns in result
      && HasVersion(result[ns])
      && out[k][ns] == result[ns]
    ensures forall k, ns :: k in tldNs && ns in tldNs[k] && ns in result && HasVersion(result[ns]) ==>
      k in out && ns in out[k] && out[k][ns] == result[ns]
  {
    AnsweringNonEmptyAll(tldNs, result);
    MergeOver(tldNs, result, tldNs.Keys)
  }

  /** The inner loop's step: one more nameserver is added iff it answered. */
  lemma AnsweringStep(d: set<string>, ns: string, result: map<string, ProbeOutcome>)
    ensures Answering(d + {ns}, result) ==
      if ns in result && HasVersion(result[ns]) then Answering(d, result)[ns := result[ns]]
      else Answering(d, result)
  {
    var a := Answering(d + {ns}, result);
    var b := if ns in result && HasVersion(result[ns]) then Answering(d, result)[ns := result[ns]]
      else Answering(d, result);
    assert a.Keys == b.Keys;
    assert forall x :: x in a ==> a[x] == b[x];
  }

  /** The outer loop's step: one more TLD is stored iff one of its
      nameservers answered. */
  lemma MergeOverStep(tldNs: map<string, set<string>>, result: map<string, ProbeOutcome>, keys: set<string>, k: string)
    requires keys <= tldNs.Keys && k in tldNs
    ensures AnyAnswering(tldNs[k], result) ==>
      MergeOver(tldNs, result, keys + {k}) == MergeOver(tldNs, result, keys)[k := Answering(tldNs[k], result)]
    ensures !AnyAnswering(tldNs[k], result) ==>
      MergeOver(tldNs, result, keys + {k}) == MergeOver(tldNs, result, keys)
  {
    var a := MergeOver(tldNs, result, keys + {k});
    var m := MergeOver(tldNs, result, keys);
    forall x | x != k
      ensures x in a <==> x in m
      ensures x in a ==> a[x] == m[x]
    {
    }
    if AnyAnswering(tldNs[k], result) {
      assert k in a && a[k] == Answering(tldNs[k], result);
      assert a == m[k := Answering(tldNs[k], result)];
    } else {
      assert k !in a && k !in m;
      assert a == m;
    }
  }

  /** The loops of `create_result_map`: over the TLDs, and for each over its
      nameservers, in whatever order the sets yield them. */
  method CreateResultMap(tldNs: map<string, set<string>>, result: map<string, ProbeOutcome>)
    returns (out: map<string, map<string, ProbeOutcome>>)
    ensures out == ResultMap(tldNs, result)
  {
    out := map[];
    var todo := tldNs.Keys;
    while todo != {}
      invariant todo <= tldNs.Keys
      invariant out == MergeOver(tldNs, result, tldNs.Keys - todo)
      decreases todo
    {
      var k :| k in todo;
      var v := tldNs[k];
      var obj: map<string, ProbeOutcome> := map[];
      var rest := v;
      while rest != {}
        invariant rest <= v
        invariant obj == Answering(v - rest, result)
        decreases rest
      {
        var ns :| ns in rest;
        AnsweringStep(v - rest, ns, result);
        assert (v - rest) + {ns} == v - (rest - {ns});
        if ns in result && HasVersion(result[ns]) {
          obj := obj[ns := result[ns]];
        }
        rest := rest - {ns};
      }
      assert v - rest == v;
      var done := tldNs.Keys - todo;
      MergeOverStep(tldNs, result, done, k);
      AnsweringNonEmpty(v, result);
      if obj != map[] {
        out := out[k := obj];
      }
      todo := todo - {k};
      assert tldNs.Keys - todo == done + {k};
    }
    assert tldNs.Keys - todo == tldNs.Keys;
  }

  /** A nameserver listed under several TLDs has the same entry under each
      of them. */
  lemma SharedNameserverSameEntry(tldNs: map<string, set<string>>, result: map<string, ProbeOutcome>, k1: string, k2: string, ns: string)
    requires k1 in ResultMap(tldNs, result) && ns in ResultMap(tldNs, result)[k1]
    requires k2 in tldNs && ns in tldNs[k2]
    ensures k2 in ResultMap(tldNs, result) && ns in ResultMap(tldNs, result)[k2]
    ensures ResultMap(tldNs, result)[k1][ns] == ResultMap(tldNs, result)[k2][ns]
  {
  }

  /** A nameserver whose probe negotiated no version appears nowhere. */
  lemma SilentNameserverAbsent(tldNs: map<string, set<string>>, result: map<string, ProbeOutcome>, ns: string)
    requires ns in result ==> !HasVersion(result[ns])
    ensures forall k :: k in ResultMap(tldNs, result) ==> ns !in ResultMap(tldNs, result)[k]
  {
  }

}
