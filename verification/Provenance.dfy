/** gyza/icp.py: content-addressed envelopes, the linear chain verifier and the graph that an envelope
    list denotes. The hash (BLAKE3 over canonical JSON of every field but `signature`), hex decoding and
    Ed25519 are parameters gathered in `Scheme`; so is the order on content addresses, of which
    all that matters is that it is total (`HexLt`, Python's string order, is one). */
module Provenance {
  import opened Common
  import opened Topo

  datatype Payload = Payload(
    intentId: string, actionId: string, agentPubkey: string, manifestHash: Digest,
    inputHashes: seq<Digest>, outputHash: Digest, parentHash: Option<Digest>,
    timestampNs: int, backend: string, model: string,
    durationMs: int, tokensIn: int, tokensOut: int, schemaVersion: int)

  datatype Envelope = Envelope(payload: Payload, signature: string)

  datatype Scheme = Scheme(
    hash: Payload -> Digest,
    before: (Digest, Digest) -> bool,
    fromHex: string -> Option<seq<Byte>>,
    ed25519: (seq<Byte>, seq<Byte>, Digest) -> bool)

  /** Collision freedom of the content address. */
  ghost predicate Injective(s: Scheme) {
    forall p, q :: s.hash(p) == s.hash(q) ==> p == q
  }

  ghost predicate WellOrdered(s: Scheme) {
    StrictTotalOrder(s.before)
  }

  function Hash(s: Scheme, e: Envelope): Digest {
    s.hash(e.payload)
  }

  predicate KeyOk(s: Scheme, e: Envelope) {
    var pk := s.fromHex(e.payload.agentPubkey);
    pk.Some? && |pk.value| == 32
  }

  /** `bytes.fromhex` makes one byte of two hex digits. */
  ghost predicate DecodesHex(s: Scheme) {
    forall x :: s.fromHex(x).Some? ==> 2 * |s.fromHex(x).value| <= |x|
  }

  /** `verify_envelope` under the envelope's own key. An Ed25519 signature is 64 bytes
      (section 5.1.6 of RFC 8032). */
  predicate SigOk(s: Scheme, e: Envelope) {
    && KeyOk(s, e)
    && e.signature != ""
    && var sig := s.fromHex(e.signature);
       sig.Some? && |sig.value| == 64 && s.ed25519(s.fromHex(e.payload.agentPubkey).value, sig.value, Hash(s, e))
  }

  // ------------------------------------------------------------------
  // verify_chain
  // ------------------------------------------------------------------

  predicate HopOk(s: Scheme, envs: seq<Envelope>, i: nat)
    requires i < |envs|
  {
    && SigOk(s, envs[i])
    && envs[i].payload.parentHash == (if i == 0 then None else Some(Hash(s, envs[i - 1])))
    && envs[i].payload.inputHashes != []
  }

  ghost predicate ChainOk(s: Scheme, envs: seq<Envelope>) {
    forall i :: 0 <= i < |envs| ==> HopOk(s, envs, i)
  }

  /** `(True, -1)` exactly when every hop holds, otherwise the first bad index. Every hop holds: each
      key and signature decodes to its length, the key signed the envelope's own hash, something was
      read, and each envelope names the one before it. */
  method VerifyChain(s: Scheme, envs: seq<Envelope>) returns (ok: bool, firstBad: int)
    ensures ok <==> ChainOk(s, envs)
    ensures ok <==>
            && (forall i :: 0 <= i < |envs| ==>
                  var key, sig := s.fromHex(envs[i].payload.agentPubkey), s.fromHex(envs[i].signature);
                  && key.Some? && |key.value| == 32 && sig.Some? && |sig.value| == 64 && envs[i].signature != ""
                  && s.ed25519(key.value, sig.value, s.hash(envs[i].payload)))
            && (forall i :: 0 <= i < |envs| ==> envs[i].payload.inputHashes != [])
            && (envs != [] ==> envs[0].payload.parentHash == None)
            && (forall i :: 0 < i < |envs| ==> envs[i].payload.parentHash == Some(s.hash(envs[i - 1].payload)))
    ensures ok ==> firstBad == -1
    ensures !ok ==> 0 <= firstBad < |envs| && !HopOk(s, envs, firstBad) && ChainOk(s, envs[..firstBad])
  {
    for i := 0 to |envs|
      invariant forall j :: 0 <= j < i ==> HopOk(s, envs, j)
    {
      var env := envs[i];
      ok, firstBad := false, i;
      assert forall j :: 0 <= j < i ==> HopOk(s, envs[..i], j) == HopOk(s, envs, j);
      if !KeyOk(s, env) || !SigOk(s, env) {
        assert !HopOk(s, envs, i);
        return;
      }
      if i == 0 {
        if env.payload.parentHash != None {
          assert !HopOk(s, envs, i);
          return;
        }
      } else if env.payload.parentHash != Some(Hash(s, envs[i - 1])) {
        assert !HopOk(s, envs, i);
        return;
      }
      if env.payload.inputHashes == [] {
        assert !HopOk(s, envs, i);
        return;
      }
    }
    forall i | 0 < i < |envs| ensures envs[i].payload.parentHash == Some(s.hash(envs[i - 1].payload)) {
      assert HopOk(s, envs, i);
    }
    forall i | 0 <= i < |envs| ensures SigOk(s, envs[i]) && envs[i].payload.inputHashes != [] {
      assert HopOk(s, envs, i);
    }
    assert envs != [] ==> HopOk(s, envs, 0);
    return true, -1;
  }

  /** The last content address of an accepted chain fixes the whole chain: no accepted
      insertion, deletion or reordering keeps it. */
  lemma {:induction false} HeadFixesChain(s: Scheme, a: seq<Envelope>, b: seq<Envelope>)
    requires Injective(s)
    requires ChainOk(s, a) && ChainOk(s, b)
    requires a != [] && b != [] && Hash(s, a[|a| - 1]) == Hash(s, b[|b| - 1])
    ensures |a| == |b|
    ensures forall i :: 0 <= i < |a| ==> a[i].payload == b[i].payload
  {
    var m, n := |a| - 1, |b| - 1;
    assert HopOk(s, a, m) && HopOk(s, b, n);
    assert a[m].payload == b[n].payload;
    if m > 0 {
      ChainPrefix(s, a, m);
      ChainPrefix(s, b, n);
      HeadFixesChain(s, a[..m], b[..n]);
      forall i | 0 <= i < |a| ensures a[i].payload == b[i].payload {
        if i < m {
          assert a[i] == a[..m][i] && b[i] == b[..n][i];
        }
      }
    }
  }

  lemma ChainPrefix(s: Scheme, envs: seq<Envelope>, n: nat)
    requires n <= |envs| && ChainOk(s, envs)
    ensures ChainOk(s, envs[..n])
  {
    forall i | 0 <= i < n ensures HopOk(s, envs[..n], i) {
      assert HopOk(s, envs, i);
    }
  }

  /** An accepted chain never repeats a content address. */
  lemma ChainHasNoRepeats(s: Scheme, envs: seq<Envelope>, i: nat, j: nat)
    requires Injective(s) && ChainOk(s, envs)
    requires i < j < |envs|
    ensures Hash(s, envs[i]) != Hash(s, envs[j])
  {
    ChainPrefix(s, envs, i + 1);
    ChainPrefix(s, envs, j + 1);
    if Hash(s, envs[i]) == Hash(s, envs[j]) {
      HeadFixesChain(s, envs[..i + 1], envs[..j + 1]);
    }
  }

  function Splice(chain: seq<Envelope>, i: nat, x: Envelope): seq<Envelope>
    requires i <= |chain|
  {
    chain[..i] + [x] + chain[i..]
  }

  /** Splicing any envelope into an accepted chain breaks it, unless it is appended and is
      itself a good next hop. */
  lemma SpliceBreaks(s: Scheme, chain: seq<Envelope>, i: nat, x: Envelope)
    requires Injective(s) && ChainOk(s, chain) && i <= |chain|
    ensures ChainOk(s, Splice(chain, i, x)) <==> i == |chain| && HopOk(s, Splice(chain, i, x), i)
  {
    var t := Splice(chain, i, x);
    if i < |chain| {
      assert t[|t| - 1] == chain[|chain| - 1];
      if ChainOk(s, t) {
        HeadFixesChain(s, t, chain);
      }
    } else {
      forall j | 0 <= j < i ensures HopOk(s, t, j) {
        assert HopOk(s, chain, j);
      }
    }
  }

  function Repeat(x: string, n: nat): (r: string)
    ensures |r| == n * |x|
  {
    if n == 0 then "" else x + Repeat(x, n - 1)
  }

  /** `injection_breaks_chain`: splice a fake whose parent link is right and re-verify. Whatever the
      chain and the index, the fake's 32-byte signature gives it away. */
  method InjectionBreaksChain(s: Scheme, chain: seq<Envelope>, i: int, nowNs: int) returns (r: Option<bool>)
    requires DecodesHex(s)
    ensures r == if 0 <= i <= |chain| then Some(true) else None
  {
    if i < 0 || i > |chain| {
      return None;
    }
    var fake := Fake(s, chain, i, nowNs);
    var spliced := chain[..i] + [fake] + chain[i..];
    var ok, _ := VerifyChain(s, spliced);
    assert |fake.signature| == 64 && !SigOk(s, fake);
    assert spliced[i] == fake;
    return Some(!ok);
  }

  function Fake(s: Scheme, chain: seq<Envelope>, i: int, nowNs: int): Envelope
    requires 0 <= i <= |chain|
  {
    var zeros, full := Repeat("00", 32), Digest(Repeat("ff", 32));
    Envelope(Payload(if chain != [] then chain[0].payload.intentId else "fake-intent", "act-fake", zeros, Digest(zeros),
                     [full], full, if i > 0 then Some(Hash(s, chain[i - 1])) else None,
                     nowNs, "mock", "injected", 0, 0, 0, 1),
             Repeat("ab", 32))
  }

  // ------------------------------------------------------------------
  // verify_dag: the graph an envelope list denotes
  // ------------------------------------------------------------------

  type Held = map<Digest, Envelope>

  /** `by_hash`: the last envelope listed under each content address. */
  function ByHash(s: Scheme, envs: seq<Envelope>): Held {
    if envs == [] then map[]
    else
      var n := |envs| - 1;
      ByHash(s, envs[..n])[Hash(s, envs[n]) := envs[n]]
  }

  lemma {:induction false} HeldFacts(s: Scheme, envs: seq<Envelope>)
    ensures forall h :: h in ByHash(s, envs) ==> ByHash(s, envs)[h] in envs && Hash(s, ByHash(s, envs)[h]) == h
    ensures forall e :: e in envs ==> Hash(s, e) in ByHash(s, envs)
  {
    if envs != [] {
      HeldFacts(s, envs[..|envs| - 1]);
    }
  }

  /** The order in which `by_hash` lists its keys: by first insertion. */
  function HeldOrder(s: Scheme, envs: seq<Envelope>): (order: seq<Digest>)
    ensures ToSet(order) == ByHash(s, envs).Keys
  {
    if envs == [] then []
    else
      var n := |envs| - 1;
      HeldOrder(s, envs[..n]) + if Hash(s, envs[n]) in ByHash(s, envs[..n]) then [] else [Hash(s, envs[n])]
  }

  datatype Fault = BadKey | BadSignature | NoInputs | SpineMissing

  /** The per-envelope checks, in the order they are made. */
  function EnvelopeFault(s: Scheme, m: Held, closed: bool, e: Envelope): Option<Fault> {
    if !KeyOk(s, e) then Some(BadKey)
    else if !SigOk(s, e) then Some(BadSignature)
    else if e.payload.inputHashes == [] then Some(NoInputs)
    else if closed && e.payload.parentHash.Some? && e.payload.parentHash.value !in m then Some(SpineMissing)
    else None
  }

  predicate Spine(m: Held, h: Digest, p: Digest)
    requires h in m
  {
    m[h].payload.parentHash == Some(p)
  }

  /** `p` has the least content address among the held producers of its output. */
  ghost predicate IsFirstProducer(s: Scheme, m: Held, p: Digest)
    requires p in m
  {
    forall q :: q in m && m[q].payload.outputHash == m[p].payload.outputHash ==> q == p || s.before(p, q)
  }

  ghost predicate Data(s: Scheme, m: Held, h: Digest, p: Digest)
    requires h in m && p in m
  {
    p != h && m[p].payload.outputHash in m[h].payload.inputHashes && IsFirstProducer(s, m, p)
  }

  /** Spine and data edges together; a data edge to itself is dropped. */
  ghost function ParentSet(s: Scheme, m: Held, h: Digest): set<Digest>
    requires h in m
  {
    set p | p in m && (Spine(m, h, p) || Data(s, m, h, p))
  }

  ghost function Parents(s: Scheme, m: Held): Graph<Digest> {
    map h | h in m :: ParentSet(s, m, h)
  }

  ghost predicate Faultless(s: Scheme, m: Held, closed: bool) {
    forall h :: h in m ==> EnvelopeFault(s, m, closed, m[h]) == None
  }

  ghost predicate HeldOk(s: Scheme, m: Held, closed: bool) {
    Faultless(s, m, closed) && !Cyclic(Parents(s, m))
  }

  ghost predicate Accepts(s: Scheme, envs: seq<Envelope>, closed: bool) {
    HeldOk(s, ByHash(s, envs), closed)
  }

  datatype DagReason = AllOk | Faulty(at: Digest, fault: Fault) | CycleDetected

  datatype DagVerification = DagVerification(
    valid: bool, reason: DagReason, topoOrder: seq<Envelope>, roots: seq<Digest>, leaves: seq<Digest>)

  ghost predicate OrderOf(s: Scheme, m: Held, o: seq<Digest>, order: seq<Envelope>) {
    && IsLeastTopological(s.before, Parents(s, m), o)
    && |order| == |o|
    && forall i :: 0 <= i < |o| ==> o[i] in m && order[i] == m[o[i]]
  }

  /** What an accepting report says about the held set. */
  ghost predicate Reports(s: Scheme, m: Held, order: seq<Envelope>, roots: seq<Digest>, leaves: seq<Digest>) {
    && (exists o :: OrderOf(s, m, o, order))
    && StrictlySorted(s.before, roots) && ToSet(roots) == Sources(Parents(s, m))
    && StrictlySorted(s.before, leaves) && ToSet(leaves) == Sinks(Parents(s, m))
  }
}
