/** gyza/evidence.py: a bundle carries the envelopes, the artifacts they commit to and the manifests
    that bounded them; a closure is a signed claim that nothing was left out. Base64, the hash over
    the joined addresses and the closure signature are parameters. */
module Evidence {
  import opened Common
  import opened Topo
  import opened Provenance
  import opened Audit

  /** How artifact bytes travel, how a closure is hashed, and how its signature is checked. */
  datatype Transport = Transport(
    encode: Bytes -> string,
    decode: string -> Option<Bytes>,
    rootHash: string -> Digest,
    signatureOk: (string, ClosurePayload, string) -> bool)

  /** Decoding undoes encoding, and the root hash is collision free. */
  ghost predicate Faithful(t: Transport) {
    && (forall b :: t.decode(t.encode(b)) == Some(b))
    && (forall x, y :: t.rootHash(x) == t.rootHash(y) ==> x == y)
  }

  datatype ClosurePayload = ClosurePayload(intentId: string, count: nat, root: Digest)

  datatype Closure = Closure(payload: ClosurePayload, assertedBy: string, signature: string)

  datatype Bundle = Bundle(
    intentId: string, envelopes: seq<Envelope>,
    artifacts: map<Digest, string>, manifests: map<Digest, Manifest>, closure: Option<Closure>)

  // ------------------------------------------------------------------
  // create_bundle
  // ------------------------------------------------------------------

  function Get<V>(m: map<Digest, V>, h: Digest): Option<V> {
    if h in m then Some(m[h]) else None
  }

  function Encoded(t: Transport, raw: Option<Bytes>): Option<string> {
    if raw.Some? then Some(t.encode(raw.value)) else None
  }

  /** Exactly what the resolvers hold for the listed envelopes was collected. */
  ghost predicate Collected(t: Transport, r: Resolvers, envs: seq<Envelope>, artifacts: map<Digest, string>,
                            manifests: map<Digest, Manifest>) {
    && (forall e :: e in envs ==> Get(artifacts, e.payload.outputHash) == Encoded(t, r.artifact(e.payload.outputHash)))
    && (forall e :: e in envs ==> Get(manifests, e.payload.manifestHash) == r.manifest(e.payload.manifestHash))
    && (forall h :: h in artifacts ==> r.artifact(h).Some? && artifacts[h] == t.encode(r.artifact(h).value))
    && (forall h :: h in manifests ==> r.manifest(h) == Some(manifests[h]))
  }

  method CreateBundle(t: Transport, r: Resolvers, envs: seq<Envelope>, intentId: string) returns (b: Bundle)
    ensures b.envelopes == envs && b.intentId == intentId && b.closure.None?
    ensures Collected(t, r, envs, b.artifacts, b.manifests)
    ensures forall e :: e in envs ==>
              var raw, m := r.artifact(e.payload.outputHash), r.manifest(e.payload.manifestHash);
              && (e.payload.outputHash in b.artifacts <==> raw.Some?)
              && (raw.Some? ==> b.artifacts[e.payload.outputHash] == t.encode(raw.value))
              && (e.payload.manifestHash in b.manifests <==> m.Some?)
              && (m.Some? ==> b.manifests[e.payload.manifestHash] == m.value)
  {
    var artifacts: map<Digest, string> := map[];
    var manifests: map<Digest, Manifest> := map[];
    for i := 0 to |envs|
      invariant Collected(t, r, envs[..i], artifacts, manifests)
    {
      var e := envs[i].payload;
      assert envs[..i + 1] == envs[..i] + [envs[i]];
      if e.outputHash !in artifacts {
        var raw := r.artifact(e.outputHash);
        if raw.Some? {
          artifacts := artifacts[e.outputHash := t.encode(raw.value)];
        }
      }
      if e.manifestHash !in manifests {
        var manifest := r.manifest(e.manifestHash);
        if manifest.Some? {
          manifests := manifests[e.manifestHash := manifest.value];
        }
      }
    }
    assert envs[..|envs|] == envs;
    return Bundle(intentId, envs, artifacts, manifests, None);
  }

  // ------------------------------------------------------------------
  // Closures
  // ------------------------------------------------------------------

  /** `"\n".join(parts)` */
  function JoinLines(parts: seq<Digest>): string {
    if parts == [] then ""
    else if |parts| == 1 then parts[0].hex
    else parts[0].hex + "\n" + JoinLines(parts[1..])
  }

  ghost predicate OneLine(d: Digest) {
    '\n' !in d.hex
  }

  /** Text up to the first newline, and the rest, can be told apart. */
  lemma FirstLine(a: string, r: string, b: string, t: string)
    requires '\n' !in a && '\n' !in b
    requires a + "\n" + r == b + "\n" + t
    ensures a == b && r == t
  {
    var x, y := a + "\n" + r, b + "\n" + t;
    assert x[|a|] == '\n' && y[|b|] == '\n';
    assert forall i :: 0 <= i < |a| ==> x[i] == a[i] && x[i] != '\n';
    assert forall i :: 0 <= i < |b| ==> y[i] == b[i] && y[i] != '\n';
    assert a == x[..|a|] && b == y[..|b|];
    assert r == x[|a| + 1..] && t == y[|b| + 1..];
  }

  lemma {:induction false} JoinInjective(a: seq<Digest>, b: seq<Digest>)
    requires |a| == |b| && JoinLines(a) == JoinLines(b)
    requires (forall d :: d in a ==> OneLine(d)) && (forall d :: d in b ==> OneLine(d))
    ensures a == b
  {
    if |a| == 1 {
      assert a[0].hex == b[0].hex;
    } else if |a| > 1 {
      assert OneLine(a[0]) && OneLine(b[0]);
      FirstLine(a[0].hex, JoinLines(a[1..]), b[0].hex, JoinLines(b[1..]));
      JoinInjective(a[1..], b[1..]);
      assert a == [a[0]] + a[1..] && b == [b[0]] + b[1..];
    }
  }

  /** `closure_payload`: count and root of the set of addresses, listed in sorted order. */
  method MakePayload(t: Transport, lt: (Digest, Digest) -> bool, intentId: string, hashes: set<Digest>)
    returns (p: ClosurePayload)
    requires StrictTotalOrder(lt)
    ensures p.intentId == intentId && CommitsTo(t, lt, p, hashes) && p.count == |hashes|
  {
    var ordered := Sorted(lt, hashes);
    assert Distinct(ordered) by {
      forall i, j | 0 <= i < j < |ordered| ensures ordered[i] != ordered[j] {
        assert lt(ordered[i], ordered[j]);
      }
    }
    DistinctCardinality(ordered);
    p := ClosurePayload(intentId, |ordered|, t.rootHash(JoinLines(ordered)));
  }

  ghost predicate CommitsTo(t: Transport, lt: (Digest, Digest) -> bool, p: ClosurePayload, hashes: set<Digest>) {
    exists ordered :: StrictlySorted(lt, ordered) && ToSet(ordered) == hashes
                      && p.count == |ordered| && p.root == t.rootHash(JoinLines(ordered))
  }

  /** Count and root determine the set of addresses, and the set determines them. */
  lemma CommitmentBinds(t: Transport, lt: (Digest, Digest) -> bool, p: ClosurePayload, a: set<Digest>,
                        q: ClosurePayload, b: set<Digest>)
    requires StrictTotalOrder(lt) && Faithful(t)
    requires CommitsTo(t, lt, p, a) && CommitsTo(t, lt, q, b)
    requires (forall d :: d in a ==> OneLine(d)) && (forall d :: d in b ==> OneLine(d))
    ensures p.count == q.count && p.root == q.root <==> a == b
  {
    var x :| StrictlySorted(lt, x) && ToSet(x) == a && p.count == |x| && p.root == t.rootHash(JoinLines(x));
    var y :| StrictlySorted(lt, y) && ToSet(y) == b && q.count == |y| && q.root == t.rootHash(JoinLines(y));
    if a == b {
      SortedUnique(lt, x, y);
    }
    if p.count == q.count && p.root == q.root {
      assert forall d :: d in x ==> d in ToSet(x);
      assert forall d :: d in y ==> d in ToSet(y);
      JoinInjective(x, y);
    }
  }

  function Addresses(s: Scheme, envs: seq<Envelope>): set<Digest> {
    set e | e in envs :: Hash(s, e)
  }

  datatype ClosureStatus = NotAsserted | Holds(count: nat) | Broken

  /** `attach_closure` */
  method AttachClosure(s: Scheme, t: Transport, b: Bundle, signer: string, sign: ClosurePayload -> string) returns (r: Bundle)
    requires WellOrdered(s)
    ensures r == b.(closure := r.closure) && r.closure.Some?
    ensures var c := r.closure.value;
            && c.assertedBy == signer && c.signature == sign(c.payload) && c.payload.intentId == b.intentId
            && CommitsTo(t, s.before, c.payload, Addresses(s, b.envelopes))
  {
    var p := MakePayload(t, s.before, b.intentId, Addresses(s, b.envelopes));
    r := b.(closure := Some(Closure(p, signer, sign(p))));
  }

  /** `verify_closure`: recompute count and root from what the bundle holds, then check the
      signature over the closure's own fields. */
  method VerifyClosure(s: Scheme, t: Transport, b: Bundle) returns (st: ClosureStatus)
    requires WellOrdered(s)
    ensures st.NotAsserted? <==> b.closure.None?
    ensures b.closure.Some? ==>
              (st.Holds? <==> t.signatureOk(b.closure.value.assertedBy, b.closure.value.payload, b.closure.value.signature)
                              && exists p :: CommitsTo(t, s.before, p, Addresses(s, b.envelopes))
                                             && p.count == b.closure.value.payload.count
                                             && p.root == b.closure.value.payload.root)
  {
    if b.closure.None? {
      return NotAsserted;
    }
    var c := b.closure.value;
    var recomputed := MakePayload(t, s.before, b.intentId, Addresses(s, b.envelopes));
    forall p | CommitsTo(t, s.before, p, Addresses(s, b.envelopes)) ensures p.count == recomputed.count && p.root == recomputed.root {
      SamePayload(t, s.before, p, recomputed, Addresses(s, b.envelopes));
    }
    if recomputed.root != c.payload.root || recomputed.count != c.payload.count {
      return Broken;
    }
    if !t.signatureOk(c.assertedBy, c.payload, c.signature) {
      return Broken;
    }
    return Holds(recomputed.count);
  }

  lemma SamePayload(t: Transport, lt: (Digest, Digest) -> bool, p: ClosurePayload, q: ClosurePayload, hashes: set<Digest>)
    requires StrictTotalOrder(lt) && CommitsTo(t, lt, p, hashes) && CommitsTo(t, lt, q, hashes)
    ensures p.count == q.count && p.root == q.root
  {
    var x :| StrictlySorted(lt, x) && ToSet(x) == hashes && p.count == |x| && p.root == t.rootHash(JoinLines(x));
    var y :| StrictlySorted(lt, y) && ToSet(y) == hashes && q.count == |y| && q.root == t.rootHash(JoinLines(y));
    SortedUnique(lt, x, y);
  }

  /** The condition `VerifyClosure` reports as holding. */
  ghost predicate ClosureHolds(s: Scheme, t: Transport, b: Bundle) {
    && b.closure.Some?
    && t.signatureOk(b.closure.value.assertedBy, b.closure.value.payload, b.closure.value.signature)
    && exists p :: CommitsTo(t, s.before, p, Addresses(s, b.envelopes))
                   && p.count == b.closure.value.payload.count && p.root == b.closure.value.payload.root
  }

  /** A closure signed over one bundle holds for another exactly when the two hold the same set of
      envelope addresses: any omission or addition is detected, re-ordering, duplication and a
      changed intent id are not. */
  lemma ClosureDetectsOmission(s: Scheme, t: Transport, signed: Bundle, carried: Bundle)
    requires WellOrdered(s) && Faithful(t)
    requires signed.closure.Some? && carried.closure == signed.closure
    requires CommitsTo(t, s.before, signed.closure.value.payload, Addresses(s, signed.envelopes))
    requires t.signatureOk(signed.closure.value.assertedBy, signed.closure.value.payload, signed.closure.value.signature)
    requires forall e :: e in signed.envelopes || e in carried.envelopes ==> OneLine(Hash(s, e))
    ensures ClosureHolds(s, t, carried) <==> Addresses(s, carried.envelopes) == Addresses(s, signed.envelopes)
  {
    var p := signed.closure.value.payload;
    var a, b := Addresses(s, signed.envelopes), Addresses(s, carried.envelopes);
    var listed := ListingExists(s.before, b);
    var q := ClosurePayload(carried.intentId, |listed|, t.rootHash(JoinLines(listed)));
    assert CommitsTo(t, s.before, q, b);
    CommitmentBinds(t, s.before, p, a, q, b);
    forall q' | CommitsTo(t, s.before, q', b) ensures q'.count == q.count && q'.root == q.root {
      SamePayload(t, s.before, q', q, b);
    }
  }

  // ------------------------------------------------------------------
  // verify_bundle
  // ------------------------------------------------------------------

  datatype BundleResult = Audited(report: Report) | BundleError

  /** The resolvers a third party gets: the bundle's own maps. */
  function BundleResolvers(artifacts: map<Digest, Bytes>, manifests: map<Digest, Manifest>): Resolvers {
    Resolvers(h => Get(artifacts, h), h => Get(manifests, h))
  }

  ghost predicate Decodable(t: Transport, b: Bundle) {
    forall h :: h in b.artifacts ==> t.decode(b.artifacts[h]).Some?
  }

  ghost function Decoded(t: Transport, b: Bundle): map<Digest, Bytes>
    requires Decodable(t, b)
  {
    map h | h in b.artifacts :: t.decode(b.artifacts[h]).value
  }

  /** The strict audit over the bundle's contents; malformed base64 or a broken closure is an error. */
  method VerifyBundle(k: Checks, t: Transport, b: Bundle) returns (r: BundleResult)
    requires WellOrdered(k.scheme)
    ensures r.BundleError? <==> !Decodable(t, b) || (b.closure.Some? && !ClosureHolds(k.scheme, t, b))
    ensures r.Audited? ==>
              var res := BundleResolvers(Decoded(t, b), b.manifests);
              && r.report.actions == Rows(k, res, true, b.envelopes)
              && (r.report.valid <==> AuditsValid(k, res, true, true, b.envelopes))
    ensures r.Audited? && r.report.valid ==> forall e :: e in b.envelopes ==>
              && e.payload.outputHash in b.artifacts
              && var art := t.decode(b.artifacts[e.payload.outputHash]);
                 && art.Some? && k.digest(art.value) == e.payload.outputHash
                 && (k.decode(art.value).enforcement.Some? ==>
                       var h := e.payload.manifestHash;
                       h in b.manifests && k.manifestHash(b.manifests[h]) == h
                       && k.satisfies(k.decode(art.value).enforcement.value, b.manifests[h]))
    ensures r.Audited? && r.report.valid ==> forall e :: e in r.report.dag.topoOrder && e.payload.parentHash.Some? ==>
              exists x :: x in b.envelopes && k.scheme.hash(x.payload) == e.payload.parentHash.value
  {
    var artifacts: map<Digest, Bytes> := map[];
    var todo := b.artifacts.Keys;
    while todo != {}
      invariant todo <= b.artifacts.Keys && artifacts.Keys == b.artifacts.Keys - todo
      invariant forall h :: h in artifacts ==> t.decode(b.artifacts[h]) == Some(artifacts[h])
      decreases todo
    {
      var h :| h in todo;
      todo := todo - {h};
      var raw := t.decode(b.artifacts[h]);
      if raw.None? {
        return BundleError;
      }
      artifacts := artifacts[h := raw.value];
    }
    var st := VerifyClosure(k.scheme, t, b);
    if st.Broken? {
      return BundleError;
    }
    assert artifacts == Decoded(t, b);
    var report := AuditProvenance(k, BundleResolvers(artifacts, b.manifests), true, true, b.envelopes);
    return Audited(report);
  }

  /** A collected bundle carries the same evidence the exporter had. */
  lemma BundleEvidence(t: Transport, r: Resolvers, b: Bundle)
    requires Faithful(t) && Collected(t, r, b.envelopes, b.artifacts, b.manifests)
    ensures Decodable(t, b)
    ensures SameEvidence(BundleResolvers(Decoded(t, b), b.manifests), r, b.envelopes)
  {
    var res := BundleResolvers(Decoded(t, b), b.manifests);
    forall e | e in b.envelopes
      ensures res.artifact(e.payload.outputHash) == r.artifact(e.payload.outputHash)
      ensures res.manifest(e.payload.manifestHash) == r.manifest(e.payload.manifestHash)
    {
      assert Get(b.manifests, e.payload.manifestHash) == r.manifest(e.payload.manifestHash);
    }
  }

  /** Export, then verify elsewhere: the same rows and the same verdict as the strict local audit. */
  method ExportAndVerify(k: Checks, t: Transport, r: Resolvers, envs: seq<Envelope>, intentId: string)
    returns (bundle: Bundle, result: BundleResult)
    requires WellOrdered(k.scheme) && Faithful(t)
    ensures result.Audited?
    ensures result.report.actions == Rows(k, r, true, envs)
    ensures result.report.valid <==> AuditsValid(k, r, true, true, envs)
  {
    bundle := CreateBundle(t, r, envs, intentId);
    BundleEvidence(t, r, bundle);
    SameEvidenceSameAudit(k, BundleResolvers(Decoded(t, bundle), bundle.manifests), r, true, true, envs);
    result := VerifyBundle(k, t, bundle);
  }

  // ------------------------------------------------------------------
  // Swapped manifests
  // ------------------------------------------------------------------

  /** The bundle with another manifest filed under `h`. */
  function Swap(b: Bundle, h: Digest, m: Manifest): Bundle {
    b.(manifests := b.manifests[h := m])
  }

  ghost predicate BundleValid(k: Checks, t: Transport, b: Bundle) {
    Decodable(t, b) && AuditsValid(k, BundleResolvers(Decoded(t, b), b.manifests), true, true, b.envelopes)
  }

  /** Filing a manifest under a name it does not hash to goes unnoticed in a valid bundle exactly when
      no execution names it and every decomposition that names it stays within the forged grant. */
  lemma SwapUnnoticedIff(k: Checks, t: Transport, b: Bundle, h: Digest, m: Manifest)
    requires BundleValid(k, t, b) && k.manifestHash(m) != h
    ensures var r := BundleResolvers(Decoded(t, b), b.manifests);
            BundleValid(k, t, Swap(b, h, m)) <==>
            (forall e :: e in b.envelopes && e.payload.manifestHash == h ==>
                           Contents(k, r, e).enforcement.None?
                           && (Contents(k, r, e).subtasks > 0 ==> Impostor(k, r, e, m)))
  {
    var b' := Swap(b, h, m);
    var r, r' := BundleResolvers(Decoded(t, b), b.manifests), BundleResolvers(Decoded(t, b'), b'.manifests);
    forall e | e in b.envelopes
      ensures ActionSound(k, r', true, e) <==>
              (e.payload.manifestHash == h ==> Contents(k, r, e).enforcement.None?
                                               && (Contents(k, r, e).subtasks > 0 ==> Impostor(k, r, e, m)))
    {
      SwapStep(k, r, r', h, m, e);
    }
  }

  lemma SwapStep(k: Checks, r: Resolvers, r': Resolvers, h: Digest, m: Manifest, e: Envelope)
    requires ActionSound(k, r, true, e) && k.manifestHash(m) != h
    requires r'.artifact(e.payload.outputHash) == r.artifact(e.payload.outputHash)
    requires r'.manifest(e.payload.manifestHash) ==
             if e.payload.manifestHash == h then Some(m) else r.manifest(e.payload.manifestHash)
    ensures ActionSound(k, r', true, e) <==>
            (e.payload.manifestHash == h ==> Contents(k, r, e).enforcement.None?
                                             && (Contents(k, r, e).subtasks > 0 ==> Impostor(k, r, e, m)))
  {
  }
}
