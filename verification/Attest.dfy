/** N-of-M build agreement (gyza/attest.py). Whether an attestation's signature and schema verify is
    a parameter. */
module Attest {
  import opened Common

  datatype Attestation = Attestation(version: string, sourceHash: string, artifactHash: string, builder: string, signature: string)

  datatype AttestationSet = AttestationSet(
    version: string, sourceHash: string, threshold: int, attestations: seq<Attestation>, verifies: Attestation -> bool)

  /** A verified attestation for this version and source. */
  predicate Counts(a: AttestationSet, x: Attestation) {
    a.verifies(x) && x.version == a.version && x.sourceHash == a.sourceHash
  }

  /** The keys that vouch for `h` among the first `n` attestations. */
  function Signers(a: AttestationSet, h: string, n: nat): set<string>
    requires n <= |a.attestations|
  {
    set i | 0 <= i < n && Counts(a, a.attestations[i]) && a.attestations[i].artifactHash == h :: a.attestations[i].builder
  }

  function Hashes(a: AttestationSet, n: nat): set<string>
    requires n <= |a.attestations|
  {
    set i | 0 <= i < n && Counts(a, a.attestations[i]) :: a.attestations[i].artifactHash
  }

  /** Everyone who counts attests `h`, and enough distinct keys do. */
  ghost predicate Agrees(a: AttestationSet, h: string) {
    Hashes(a, |a.attestations|) == {h} && |Signers(a, h, |a.attestations|)| >= a.threshold
  }

  datatype Reason = Agreed | NoneValid | Disagreement | TooFew

  /** `n` is the number of keys behind the hash with most keys; 0 if nothing counts. */
  ghost predicate IsMostSigners(a: AttestationSet, n: nat) {
    var all := |a.attestations|;
    && (forall h :: h in Hashes(a, all) ==> |Signers(a, h, all)| <= n)
    && if Hashes(a, all) == {} then n == 0 else exists h :: h in Hashes(a, all) && |Signers(a, h, all)| == n
  }

  /** Why: disagreement outranks a missed threshold. */
  function ReasonFor(hashes: set<string>, n: nat, threshold: int): Reason {
    if hashes == {} then NoneValid else if |hashes| > 1 then Disagreement else if n < threshold then TooFew else Agreed
  }

  /** `independent_agreement`: a hash is agreed exactly when it is the only one attested and enough
      distinct builders attest it; the count is that of the hash with most builders. */
  method IndependentAgreement(a: AttestationSet) returns (agreed: Option<string>, n: nat, why: Reason)
    ensures forall h :: agreed == Some(h) <==> Agrees(a, h)
    ensures forall h :: agreed == Some(h) <==>
              && (exists x :: x in a.attestations && a.verifies(x) && x.version == a.version && x.sourceHash == a.sourceHash
                              && x.artifactHash == h)
              && (forall x :: x in a.attestations && a.verifies(x) && x.version == a.version && x.sourceHash == a.sourceHash ==>
                                x.artifactHash == h)
              && |set x | x in a.attestations && a.verifies(x) && x.version == a.version && x.sourceHash == a.sourceHash :: x.builder|
                 >= a.threshold
    ensures why.Agreed? <==> agreed.Some?
    ensures why.Disagreement? <==>
            exists x, y :: && x in a.attestations && a.verifies(x) && x.version == a.version && x.sourceHash == a.sourceHash
                           && y in a.attestations && a.verifies(y) && y.version == a.version && y.sourceHash == a.sourceHash
                           && x.artifactHash != y.artifactHash
    ensures IsMostSigners(a, n) && why == ReasonFor(Hashes(a, |a.attestations|), n, a.threshold)
  {
    var byHash := SignersByHash(a);
    HashesMeans(a);
    forall h ensures Agrees(a, h) <==> AgreesOpenly(a, h) {
      AgreementMeans(a, h);
    }
    if byHash == map[] {
      assert Hashes(a, |a.attestations|) == {};
      return None, 0, NoneValid;
    }
    var ah := MostSigned(byHash);
    n := |byHash[ah]|;
    if |byHash| > 1 {
      return None, n, Disagreement;
    }
    SubsetCardinality({ah}, byHash.Keys);
    if n < a.threshold {
      return None, n, TooFew;
    }
    return Some(ah), n, Agreed;
  }

  /** Agreement in terms of the attestations' own fields. */
  ghost predicate AgreesOpenly(a: AttestationSet, h: string) {
    && (exists x :: x in a.attestations && a.verifies(x) && x.version == a.version && x.sourceHash == a.sourceHash
                    && x.artifactHash == h)
    && (forall x :: x in a.attestations && a.verifies(x) && x.version == a.version && x.sourceHash == a.sourceHash ==>
                      x.artifactHash == h)
    && |set x | x in a.attestations && a.verifies(x) && x.version == a.version && x.sourceHash == a.sourceHash :: x.builder|
       >= a.threshold
  }

  lemma AgreementMeans(a: AttestationSet, h: string)
    ensures Agrees(a, h) <==> AgreesOpenly(a, h)
  {
    var n := |a.attestations|;
    var keys := set x | x in a.attestations && a.verifies(x) && x.version == a.version && x.sourceHash == a.sourceHash :: x.builder;
    HashesMeans(a);
    if forall x :: x in a.attestations && Counts(a, x) ==> x.artifactHash == h {
      forall b ensures b in Signers(a, h, n) <==> b in keys {
        if x :| x in a.attestations && Counts(a, x) && x.builder == b {
          var i :| 0 <= i < n && a.attestations[i] == x;
        }
      }
      assert Signers(a, h, n) == keys;
    }
    if Hashes(a, n) == {h} {
      assert h in Hashes(a, n);
      forall x | x in a.attestations && Counts(a, x) ensures x.artifactHash == h {
        assert x.artifactHash in Hashes(a, n);
      }
    } else if AgreesOpenly(a, h) {
      assert h in Hashes(a, n);
      assert forall g :: g in Hashes(a, n) ==> g == h;
    }
  }

  /** The attested hashes, and when there is more than one. */
  lemma HashesMeans(a: AttestationSet)
    ensures forall g :: g in Hashes(a, |a.attestations|) <==>
              exists x :: x in a.attestations && a.verifies(x) && x.version == a.version && x.sourceHash == a.sourceHash && x.artifactHash == g
    ensures |Hashes(a, |a.attestations|)| > 1 <==>
            exists x, y :: && x in a.attestations && a.verifies(x) && x.version == a.version && x.sourceHash == a.sourceHash
                           && y in a.attestations && a.verifies(y) && y.version == a.version && y.sourceHash == a.sourceHash
                           && x.artifactHash != y.artifactHash
  {
    var n := |a.attestations|;
    var hashes := Hashes(a, n);
    forall g ensures g in hashes <==> exists x :: x in a.attestations && Counts(a, x) && x.artifactHash == g {
      if x :| x in a.attestations && Counts(a, x) && x.artifactHash == g {
        var i :| 0 <= i < n && a.attestations[i] == x;
      }
    }
    if |hashes| > 1 {
      var g :| g in hashes;
      if hashes <= {g} {
        SubsetCardinality(hashes, {g});
      }
      var h :| h in hashes && h != g;
      var x :| x in a.attestations && Counts(a, x) && x.artifactHash == g;
      var y :| y in a.attestations && Counts(a, y) && y.artifactHash == h;
      assert x.artifactHash != y.artifactHash;
    }
    if x, y :| && x in a.attestations && Counts(a, x) && y in a.attestations && Counts(a, y) && x.artifactHash != y.artifactHash {
      SubsetCardinality({x.artifactHash, y.artifactHash}, hashes);
    }
  }

  /** `by_hash`: the keys behind each attested hash. */
  method SignersByHash(a: AttestationSet) returns (byHash: map<string, set<string>>)
    ensures byHash.Keys == Hashes(a, |a.attestations|)
    ensures forall h :: h in byHash ==> byHash[h] == Signers(a, h, |a.attestations|)
  {
    byHash := map[];
    for i := 0 to |a.attestations|
      invariant byHash.Keys == Hashes(a, i)
      invariant forall h :: h in byHash ==> byHash[h] == Signers(a, h, i)
      invariant forall h :: h !in byHash ==> Signers(a, h, i) == {}
    {
      var x := a.attestations[i];
      NextAttestation(a, i);
      if Counts(a, x) {
        var so := if x.artifactHash in byHash then byHash[x.artifactHash] else {};
        byHash := byHash[x.artifactHash := so + {x.builder}];
      }
    }
  }

  /** `max(by_hash.items(), key=...)`: a hash with most keys. */
  method MostSigned(byHash: map<string, set<string>>) returns (best: string)
    requires byHash != map[]
    ensures best in byHash && forall h :: h in byHash ==> |byHash[h]| <= |byHash[best]|
  {
    best :| best in byHash;
    var todo := byHash.Keys - {best};
    while todo != {}
      invariant best in byHash && todo <= byHash.Keys
      invariant forall h :: h in byHash && h !in todo ==> |byHash[h]| <= |byHash[best]|
      decreases todo
    {
      var h :| h in todo;
      todo := todo - {h};
      if |byHash[h]| > |byHash[best]| {
        best := h;
      }
    }
  }

  lemma NextAttestation(a: AttestationSet, i: nat)
    requires i < |a.attestations|
    ensures var x := a.attestations[i];
            && Hashes(a, i + 1) == Hashes(a, i) + (if Counts(a, x) then {x.artifactHash} else {})
            && forall h :: Signers(a, h, i + 1) ==
                           Signers(a, h, i) + if Counts(a, x) && x.artifactHash == h then {x.builder} else {}
  {
    var x := a.attestations[i];
    forall h
      ensures Signers(a, h, i + 1) == Signers(a, h, i) + if Counts(a, x) && x.artifactHash == h then {x.builder} else {}
    {
      assert Counts(a, x) && x.artifactHash == h ==> x.builder in Signers(a, h, i + 1);
    }
    assert Counts(a, x) ==> x.artifactHash in Hashes(a, i + 1);
  }

  /** Disagreement is never settled by majority: one more verified attestation of another hash ends
      any agreement, however many keys stood behind it. */
  lemma DissentEndsAgreement(a: AttestationSet, h: string, x: Attestation)
    requires Agrees(a, h) && Counts(a, x) && x.artifactHash != h
    ensures forall g :: !Agrees(a.(attestations := a.attestations + [x]), g)
  {
    var b := a.(attestations := a.attestations + [x]);
    var n := |a.attestations|;
    assert b.attestations[n] == x && x.artifactHash in Hashes(b, n + 1);
    assert h in Hashes(a, n);
    var i :| 0 <= i < n && Counts(a, a.attestations[i]) && a.attestations[i].artifactHash == h;
    assert b.attestations[i] == a.attestations[i] && h in Hashes(b, n + 1);
  }

  lemma PrefixUnaffected(a: AttestationSet, x: Attestation, h: string)
    ensures var b, n := a.(attestations := a.attestations + [x]), |a.attestations|;
            Hashes(b, n) == Hashes(a, n) && Signers(b, h, n) == Signers(a, h, n)
  {
    var b, n := a.(attestations := a.attestations + [x]), |a.attestations|;
    forall i | 0 <= i < n ensures b.attestations[i] == a.attestations[i] && Counts(b, b.attestations[i]) == Counts(a, a.attestations[i]) {
    }
    SameMembers(a, b, n, h);
    SameMembers(b, a, n, h);
  }

  lemma SameMembers(a: AttestationSet, b: AttestationSet, n: nat, h: string)
    requires n <= |a.attestations| && n <= |b.attestations|
    requires forall i :: 0 <= i < n ==> b.attestations[i] == a.attestations[i] && Counts(b, b.attestations[i]) == Counts(a, a.attestations[i])
    ensures Hashes(a, n) <= Hashes(b, n) && Signers(a, h, n) <= Signers(b, h, n)
  {
    forall g | g in Hashes(a, n) ensures g in Hashes(b, n) {
      var i :| 0 <= i < n && Counts(a, a.attestations[i]) && a.attestations[i].artifactHash == g;
      assert b.attestations[i].artifactHash == g;
    }
    forall k | k in Signers(a, h, n) ensures k in Signers(b, h, n) {
      var i :| 0 <= i < n && Counts(a, a.attestations[i]) && a.attestations[i].artifactHash == h && a.attestations[i].builder == k;
      assert b.attestations[i].builder == k;
    }
  }

  /** Repeating an attestation adds nothing: keys are counted, not signatures. */
  lemma RepeatsDoNotCount(a: AttestationSet, k: nat, h: string)
    requires k < |a.attestations|
    ensures Agrees(a.(attestations := a.attestations + [a.attestations[k]]), h) <==> Agrees(a, h)
  {
    var x := a.attestations[k];
    var b := a.(attestations := a.attestations + [x]);
    var n := |a.attestations|;
    PrefixUnaffected(a, x, h);
    NextAttestation(b, n);
    assert Counts(a, x) ==> x.artifactHash in Hashes(a, n);
    assert Counts(a, x) && x.artifactHash == h ==> x.builder in Signers(a, h, n);
    assert Hashes(b, n + 1) == Hashes(a, n) && Signers(b, h, n + 1) == Signers(a, h, n);
  }
}
