/** Concrete instances for the provenance model: an injective content address, so that the laws
    stated for injective schemes are about something, and the inputs on which three natural
    statements about gyza/icp.py fail. */
module Witness {
  import opened Common
  import opened Topo
  import opened Provenance
  import opened DagLaws
  import Resilience
  import Audit
  import Evidence

  // ------------------------------------------------------------------
  // A self-delimiting text encoding of payloads
  // ------------------------------------------------------------------

  function OfString(x: string): string {
    if x == "" then "0" else "1" + [x[0]] + OfString(x[1..])
  }

  function OfDigests(x: seq<Digest>): string {
    if x == [] then "0" else "1" + (OfString(x[0].hex) + OfDigests(x[1..]))
  }

  function OfNat(n: nat): string {
    if n == 0 then "0" else "1" + OfNat(n - 1)
  }

  function SignTag(n: int): string {
    if n < 0 then "1" else "0"
  }

  function OfInt(n: int): string {
    SignTag(n) + OfNat(if n < 0 then -n else n)
  }

  function Listed(x: Option<Digest>): seq<Digest> {
    if x.None? then [] else [x.value]
  }

  function OfParent(x: Option<Digest>): string {
    OfDigests(Listed(x))
  }

  lemma {:induction false} StringReadable(a: string, s: string, b: string, t: string)
    requires OfString(a) + s == OfString(b) + t
    ensures a == b && s == t
  {
    var x, y := OfString(a) + s, OfString(b) + t;
    assert x[0] == y[0];
    if a == "" {
      assert s == x[1..] && t == y[1..];
    } else {
      assert x[1] == a[0] && y[1] == b[0];
      assert x[2..] == OfString(a[1..]) + s && y[2..] == OfString(b[1..]) + t;
      StringReadable(a[1..], s, b[1..], t);
      assert a == [a[0]] + a[1..] && b == [b[0]] + b[1..];
    }
  }

  lemma DigestsUnfold(a: seq<Digest>, s: string)
    ensures (OfDigests(a) + s)[0] == if a == [] then '0' else '1'
    ensures (OfDigests(a) + s)[1..] == if a == [] then s else OfString(a[0].hex) + (OfDigests(a[1..]) + s)
  {
  }

  lemma {:induction false} DigestsReadable(a: seq<Digest>, s: string, b: seq<Digest>, t: string)
    requires OfDigests(a) + s == OfDigests(b) + t
    ensures a == b && s == t
  {
    DigestsUnfold(a, s);
    DigestsUnfold(b, t);
    if a != [] {
      StringReadable(a[0].hex, OfDigests(a[1..]) + s, b[0].hex, OfDigests(b[1..]) + t);
      DigestsReadable(a[1..], s, b[1..], t);
      assert a == [a[0]] + a[1..] && b == [b[0]] + b[1..];
    }
  }

  lemma {:induction false} NatReadable(a: nat, s: string, b: nat, t: string)
    requires OfNat(a) + s == OfNat(b) + t
    ensures a == b && s == t
  {
    var x, y := OfNat(a) + s, OfNat(b) + t;
    assert x[0] == y[0];
    assert x[1..] == (if a == 0 then s else OfNat(a - 1) + s);
    assert y[1..] == (if b == 0 then t else OfNat(b - 1) + t);
    if a > 0 {
      NatReadable(a - 1, s, b - 1, t);
    }
  }

  lemma TagReadable(c: string, x: string, d: string, y: string)
    requires |c| == 1 && |d| == 1 && c + x == d + y
    ensures c == d && x == y
  {
    assert c == (c + x)[..1] && d == (d + y)[..1];
    assert x == (c + x)[1..] && y == (d + y)[1..];
  }

  lemma IntReadable(a: int, s: string, b: int, t: string)
    requires OfInt(a) + s == OfInt(b) + t
    ensures a == b && s == t
  {
    var m: nat, n: nat := if a < 0 then -a else a, if b < 0 then -b else b;
    var x, y := OfNat(m) + s, OfNat(n) + t;
    assert OfInt(a) + s == SignTag(a) + x && OfInt(b) + t == SignTag(b) + y;
    TagReadable(SignTag(a), x, SignTag(b), y);
    NatReadable(m, s, n, t);
  }

  lemma ParentReadable(a: Option<Digest>, s: string, b: Option<Digest>, t: string)
    requires OfParent(a) + s == OfParent(b) + t
    ensures a == b && s == t
  {
    DigestsReadable(Listed(a), s, Listed(b), t);
    if a.Some? && b.Some? {
      assert Listed(a)[0] == Listed(b)[0];
    }
  }

  /** The textual fields, then the references, then the numbers. */
  function Numbers(p: Payload): string {
    OfInt(p.timestampNs) + (OfInt(p.durationMs) + (OfInt(p.tokensIn) + (OfInt(p.tokensOut) + (OfInt(p.schemaVersion) + ""))))
  }

  function References(p: Payload): string {
    OfString(p.manifestHash.hex) + (OfDigests(p.inputHashes) + (OfString(p.outputHash.hex) + (OfParent(p.parentHash) + Numbers(p))))
  }

  function Text(p: Payload): string {
    OfString(p.intentId) + (OfString(p.actionId) + (OfString(p.agentPubkey) + (OfString(p.backend) + (OfString(p.model) + References(p)))))
  }

  lemma NumbersReadable(p: Payload, q: Payload)
    requires Numbers(p) == Numbers(q)
    ensures (p.timestampNs, p.durationMs, p.tokensIn, p.tokensOut, p.schemaVersion) ==
            (q.timestampNs, q.durationMs, q.tokensIn, q.tokensOut, q.schemaVersion)
  {
    var p4, q4 := OfInt(p.schemaVersion) + "", OfInt(q.schemaVersion) + "";
    var p3, q3 := OfInt(p.tokensOut) + p4, OfInt(q.tokensOut) + q4;
    var p2, q2 := OfInt(p.tokensIn) + p3, OfInt(q.tokensIn) + q3;
    var p1, q1 := OfInt(p.durationMs) + p2, OfInt(q.durationMs) + q2;
    IntReadable(p.timestampNs, p1, q.timestampNs, q1);
    IntReadable(p.durationMs, p2, q.durationMs, q2);
    IntReadable(p.tokensIn, p3, q.tokensIn, q3);
    IntReadable(p.tokensOut, p4, q.tokensOut, q4);
    IntReadable(p.schemaVersion, "", q.schemaVersion, "");
  }

  lemma ReferencesReadable(p: Payload, q: Payload)
    requires References(p) == References(q)
    ensures (p.manifestHash, p.inputHashes, p.outputHash, p.parentHash, Numbers(p)) ==
            (q.manifestHash, q.inputHashes, q.outputHash, q.parentHash, Numbers(q))
  {
    var p3, q3 := OfParent(p.parentHash) + Numbers(p), OfParent(q.parentHash) + Numbers(q);
    var p2, q2 := OfString(p.outputHash.hex) + p3, OfString(q.outputHash.hex) + q3;
    var p1, q1 := OfDigests(p.inputHashes) + p2, OfDigests(q.inputHashes) + q2;
    StringReadable(p.manifestHash.hex, p1, q.manifestHash.hex, q1);
    DigestsReadable(p.inputHashes, p2, q.inputHashes, q2);
    StringReadable(p.outputHash.hex, p3, q.outputHash.hex, q3);
    ParentReadable(p.parentHash, Numbers(p), q.parentHash, Numbers(q));
  }

  lemma TextReadable(p: Payload, q: Payload)
    requires Text(p) == Text(q)
    ensures (p.intentId, p.actionId, p.agentPubkey, p.backend, p.model, References(p)) ==
            (q.intentId, q.actionId, q.agentPubkey, q.backend, q.model, References(q))
  {
    var p4, q4 := OfString(p.model) + References(p), OfString(q.model) + References(q);
    var p3, q3 := OfString(p.backend) + p4, OfString(q.backend) + q4;
    var p2, q2 := OfString(p.agentPubkey) + p3, OfString(q.agentPubkey) + q3;
    var p1, q1 := OfString(p.actionId) + p2, OfString(q.actionId) + q2;
    StringReadable(p.intentId, p1, q.intentId, q1);
    StringReadable(p.actionId, p2, q.actionId, q2);
    StringReadable(p.agentPubkey, p3, q.agentPubkey, q3);
    StringReadable(p.backend, p4, q.backend, q4);
    StringReadable(p.model, References(p), q.model, References(q));
  }

  /** One byte for two digits: the code of the first. */
  function Pairs(x: string): Option<seq<Byte>> {
    if |x| % 2 == 0 then Some(seq(|x| / 2, i requires 0 <= i < |x| / 2 => x[2 * i] as int % 256)) else None
  }

  /** Payload text as content address, Python's string order, and signatures that begin with the byte
      their key begins with, so that no key signs for another. */
  function Plain(): Scheme {
    Scheme(p => Digest(Text(p)), HexLt, Pairs, (pk, sig, h) => pk != [] && sig != [] && pk[0] == sig[0])
  }

  /** The hypotheses made of schemes elsewhere. */
  ghost predicate Lawful(s: Scheme) {
    Injective(s) && WellOrdered(s) && DecodesHex(s)
  }

  /** They can be met. */
  lemma PlainIsLawful()
    ensures Lawful(Plain())
  {
    forall p, q | Plain().hash(p) == Plain().hash(q) ensures p == q {
      assert Text(p) == Text(q);
      TextReadable(p, q);
      ReferencesReadable(p, q);
      NumbersReadable(p, q);
    }
    HexLtIsOrder();
  }

  type LawfulScheme = s: Scheme | Lawful(s) ghost witness (PlainIsLawful(); Plain())

  // ------------------------------------------------------------------
  // Counterexamples
  // ------------------------------------------------------------------

  function Env(agent: string, intent: string, inputs: seq<Digest>, output: Digest, parent: Option<Digest>, sig: string): Envelope {
    Envelope(Payload(intent, "act", agent, Digest("m"), inputs, output, parent, 0, "mock", "m", 0, 0, 0, 1), sig)
  }

  /** Two keys; a key twice over is its signature. */
  lemma Credentials() returns (key: string, other: string)
    ensures |key| == |other| == 64 && (key[0], other[0]) == ('k', 'o')
  {
    key, other := seq(64, _ => 'k'), seq(64, _ => 'o');
  }

  lemma EnvSigOk(agent: string, intent: string, inputs: seq<Digest>, output: Digest, parent: Option<Digest>, signer: string)
    requires |agent| == |signer| == 64 && {agent[0], signer[0]} <= {'k', 'o'}
    ensures SigOk(Plain(), Env(agent, intent, inputs, output, parent, signer + signer)) <==> agent[0] == signer[0]
  {
    var sig := signer + signer;
    assert |sig| == 128 && sig[0] == signer[0];
    assert Pairs(agent).value[0] == agent[0] as int % 256 && Pairs(sig).value[0] == sig[0] as int % 256;
    assert 'k' as int % 256 != 'o' as int % 256;
  }

  lemma IntentsOrdered(a: Envelope, b: Envelope)
    requires a.payload.intentId == "a" && (b.payload.intentId == "b" || b.payload.intentId == "c")
    ensures HexLt(Hash(Plain(), a), Hash(Plain(), b))
  {
    var x, y := Text(a.payload), Text(b.payload);
    assert x[0] == '1' && y[0] == '1' && x[1] == 'a' && (y[1] == 'b' || y[1] == 'c');
    assert x[1..][0] == 'a' && y[1..][0] == y[1];
    assert StrLt(x[1..], y[1..]);
  }

  /** Quarantining an agent can cost an accepted history its validity. */
  lemma QuarantineCanFail() returns (s: LawfulScheme, envs: seq<Envelope>, agent: string)
    ensures forall e :: e in envs ==> Sound(s, e)
    ensures (Accepts(s, envs, false), Accepts(s, Resilience.Honest(envs, {agent}), false)) == (true, false)
  {
    var plain := Plain();
    var key, other := Credentials();
    var good, theirs := key + key, other + other;
    var o, c, i := Digest("o"), Digest("c"), Digest("i");
    var x, y, z := Env(other, "a", [i], o, None, theirs), Env(key, "b", [c], o, None, good), Env(key, "c", [o], c, None, good);
    PlainIsLawful();
    EnvSigOk(other, "a", [i], o, None, other);
    EnvSigOk(key, "b", [c], o, None, key);
    EnvSigOk(key, "c", [o], c, None, key);
    IntentsOrdered(x, y);
    assert Hash(plain, z) != Hash(plain, x) && Hash(plain, z) != Hash(plain, y) by {
      assert z.payload != x.payload && z.payload != y.payload;
    }
    s, envs, agent := plain, [x, y, z], other;
    Resilience.QuarantineMakesCycle(s, x, y, z);
  }

  /** So can losing an envelope. */
  lemma SelectionCanFail() returns (s: LawfulScheme, envs: seq<Envelope>, sub: seq<Envelope>)
    ensures ToSet(sub) <= ToSet(envs) && forall e :: e in sub ==> Sound(s, e)
    ensures (Accepts(s, envs, false), Accepts(s, sub, false)) == (true, false)
  {
    var agent;
    s, envs, agent := QuarantineCanFail();
    sub := Resilience.Honest(envs, {agent});
  }

  /** A chain that the chain verifier accepts can be rejected by the closed DAG verifier. */
  lemma VerifiersCanDiffer() returns (s: LawfulScheme, chain: seq<Envelope>)
    ensures (ChainOk(s, chain), Accepts(s, chain, true)) == (true, false)
  {
    var plain := Plain();
    var key, _ := Credentials();
    var good := key + key;
    var i, o, later := Digest("i"), Digest("o"), Digest("later");
    var e0 := Env(key, "a", [later], o, None, good);
    var h0 := Hash(plain, e0);
    var e1 := Env(key, "b", [i], later, Some(h0), good);
    EnvSigOk(key, "a", [later], o, None, key);
    EnvSigOk(key, "b", [i], later, Some(h0), key);
    assert HopOk(plain, [e0], 0);
    PlainIsLawful();
    ReadsAhead(plain, e0, e1);
    s, chain := plain, [e0, e1];
  }

  /** Two hops, the first of which consumes what the second makes. */
  lemma ReadsAhead(s: Scheme, e0: Envelope, e1: Envelope)
    requires Injective(s) && ChainOk(s, [e0]) && Sound(s, e1) && e1.payload.parentHash == Some(Hash(s, e0))
    requires e1.payload.outputHash in e0.payload.inputHashes && e0.payload.outputHash != e1.payload.outputHash
    ensures (ChainOk(s, [e0, e1]), Accepts(s, [e0, e1], true)) == (true, false)
  {
    var chain := [e0, e1];
    assert HopOk(s, [e0], 0);
    assert HopOk(s, chain, 0) && HopOk(s, chain, 1);
    ChainHeld(s, chain);
    var m, o := ByHash(s, chain), Addresses(s, chain);
    assert o[0] in m && o[1] in m && m[o[0]] == e0 && m[o[1]] == e1;
    forall q | q in m && m[q].payload.outputHash == m[o[1]].payload.outputHash ensures q == o[1] {
      assert q in ToSet(o);
    }
    assert Data(s, m, Hash(s, chain[0]), Hash(s, chain[1]));
    assert !ReadsBackward(s, chain);
    ChainAcceptedAsDag(s, chain);
  }

  /** The verdict can depend on list order when a payload is listed under two signatures, one of them by
      another key. */
  lemma OrderCanMatter() returns (s: LawfulScheme, envs: seq<Envelope>, other: seq<Envelope>)
    ensures ToSet(envs) == ToSet(other)
    ensures (Accepts(s, envs, false), Accepts(s, other, false)) == (true, false)
  {
    PlainIsLawful();
    s := Plain();
    var key, other' := Credentials();
    var g := Env(key, "a", [Digest("i")], Digest("o"), None, key + key);
    var b := Env(key, "a", [Digest("i")], Digest("o"), None, other' + other');
    EnvSigOk(key, "a", [Digest("i")], Digest("o"), None, key);
    EnvSigOk(key, "a", [Digest("i")], Digest("o"), None, other');
    TwinsDecide(s, g, b);
    envs, other := [b, g], [g, b];
  }

  /** Of two twins the last one listed decides. */
  lemma TwinsDecide(s: Scheme, good: Envelope, bad: Envelope)
    requires good.payload == bad.payload && Sound(s, good) && !SigOk(s, bad)
    requires good.payload.parentHash == None
    ensures (Accepts(s, [bad, good], false), Accepts(s, [good, bad], false)) == (true, false)
  {
    var h := Hash(s, good);
    OneEnvelope(s, good, false);
    Append(s, [], bad);
    Append(s, [] + [bad], good);
    assert [bad, good] == [] + [bad] + [good] && [good] == [] + [good];
    assert ByHash(s, [bad, good]) == map[h := good];
    Append(s, [], good);
    Append(s, [] + [good], bad);
    assert [good, bad] == [] + [good] + [bad];
    var n := ByHash(s, [good, bad]);
    assert n[h] == bad && EnvelopeFault(s, n, false, n[h]) != None;
  }

  /** Losing a predecessor goes unnoticed in open mode and is detected in closed mode. */
  lemma DanglingSpine() returns (s: LawfulScheme, e0: Envelope, e1: Envelope)
    ensures (Accepts(s, [e0, e1], true), Accepts(s, [e1], false), Accepts(s, [e1], true)) == (true, true, false)
  {
    var plain := Plain();
    var key, _ := Credentials();
    var i, o, c := Digest("i"), Digest("o"), Digest("c");
    e0 := Env(key, "a", [i], o, None, key + key);
    var h0 := Hash(plain, e0);
    e1 := Env(key, "b", [o], c, Some(h0), key + key);
    EnvSigOk(key, "a", [i], o, None, key);
    EnvSigOk(key, "b", [o], c, Some(h0), key);
    PlainIsLawful();
    s := plain;
    assert e0.payload != e1.payload;
    SpinePair(s, e0, e1);
  }

  lemma SpinePair(s: Scheme, e0: Envelope, e1: Envelope)
    requires Injective(s) && Sound(s, e0) && Sound(s, e1) && e0.payload != e1.payload
    requires e0.payload.parentHash == None && e1.payload.parentHash == Some(Hash(s, e0))
    requires e1.payload.outputHash !in e0.payload.inputHashes
    ensures (Accepts(s, [e0, e1], true), Accepts(s, [e1], false), Accepts(s, [e1], true)) == (true, true, false)
  {
    var chain := [e0, e1];
    assert HopOk(s, chain, 0) && HopOk(s, chain, 1);
    NoForwardInputs(s, chain);
    ChainAcceptedAsDag(s, chain);
    OneEnvelope(s, e1, false);
    OneEnvelope(s, e1, true);
  }

  // ------------------------------------------------------------------
  // A forged grant
  // ------------------------------------------------------------------

  function OfBytes(b: Audit.Bytes): string {
    seq(|b|, i requires 0 <= i < |b| => b[i] as char)
  }

  /** Every artifact is read as a decomposition into two subtasks. */
  function PlainChecks(): Audit.Checks {
    Audit.Checks(Plain(), raw => Digest(OfBytes(raw)), raw => Audit.Artifact(None, 2),
                 (m: Audit.Manifest) => Digest(m.text), (record, m) => false)
  }

  /** Over any faithful transport, a bundle that verifies although the manifest that bounds its
      decomposition is not the one the envelope names: the named one grants no spawning at all. */
  lemma ForgedGrantVerifies(t: Evidence.Transport) returns (k: Audit.Checks, b: Evidence.Bundle, e: Envelope, named: Audit.Manifest)
    requires Evidence.Faithful(t)
    ensures k.scheme == Plain()
    ensures k.manifestHash(named) == e.payload.manifestHash && !named.spawnPermitted
    ensures (e in b.envelopes, Evidence.BundleValid(k, t, b)) == (true, true)
    ensures var r := Evidence.BundleResolvers(Evidence.Decoded(t, b), b.manifests);
            Audit.Contents(k, r, e).subtasks > 0 && !Audit.NamedManifest(k, r, e)
  {
    k := PlainChecks();
    var key, _ := Credentials();
    var raw: Audit.Bytes := [1];
    e := Env(key, "a", [Digest("i")], k.digest(raw), None, key + key);
    EnvSigOk(key, "a", [Digest("i")], k.digest(raw), None, key);
    named := Audit.Manifest("m", false, 0);
    b := ForgedBundle(k, t, e, raw, Audit.Manifest("forged", true, 2));
  }

  /** One signed decomposition, its artifact, and an impostor filed under the manifest it names. */
  lemma ForgedBundle(k: Audit.Checks, t: Evidence.Transport, e: Envelope, raw: Audit.Bytes, impostor: Audit.Manifest)
    returns (b: Evidence.Bundle)
    requires Evidence.Faithful(t) && Sound(k.scheme, e) && e.payload.parentHash == None
    requires e.payload.outputHash == k.digest(raw)
    requires k.decode(raw).enforcement.None? && 0 < k.decode(raw).subtasks <= impostor.maxChildren
    requires impostor.spawnPermitted && k.manifestHash(impostor) != e.payload.manifestHash
    ensures (e in b.envelopes, Evidence.BundleValid(k, t, b)) == (true, true)
    ensures var r := Evidence.BundleResolvers(Evidence.Decoded(t, b), b.manifests);
            Audit.Contents(k, r, e).subtasks > 0 && !Audit.NamedManifest(k, r, e)
  {
    b := Evidence.Bundle(e.payload.intentId, [e], map[k.digest(raw) := t.encode(raw)],
                         map[e.payload.manifestHash := impostor], None);
    assert Evidence.Decodable(t, b) && Evidence.Decoded(t, b) == map[k.digest(raw) := raw];
    OneEnvelope(k.scheme, e, true);
  }

  /** A soundly signed envelope alone is accepted, even if it reads its own output, unless closed mode
      misses its predecessor. */
  lemma OneEnvelope(s: Scheme, e: Envelope, closed: bool)
    requires Sound(s, e) && e.payload.parentHash != Some(Hash(s, e))
    ensures Accepts(s, [e], closed) <==> !closed || e.payload.parentHash == None
  {
    var h, m := Hash(s, e), ByHash(s, [e]);
    Append(s, [], e);
    assert [e] == [] + [e];
    assert m == map[h := e];
    assert Parents(s, m)[h] == {};
    assert [h][..0] == [];
    assert IsTopological(Parents(s, m), [h]);
    OrderedIsAcyclic(Parents(s, m), [h]);
    assert EnvelopeFault(s, m, closed, m[h]) == None <==> !closed || e.payload.parentHash == None;
  }
}
