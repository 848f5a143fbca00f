/** `verify_dag` of gyza/icp.py: index the outputs, build the graph, order it and report. */
module DagVerifier {
  import opened Common
  import opened Topo
  import opened Provenance

  /** `by_output` maps every held output to its first producer. */
  ghost predicate IsByOutput(s: Scheme, m: Held, byOutput: map<Digest, Digest>) {
    && (forall o :: o in byOutput ==>
          byOutput[o] in m && m[byOutput[o]].payload.outputHash == o && IsFirstProducer(s, m, byOutput[o]))
    && (forall h :: h in m ==> m[h].payload.outputHash in byOutput)
  }

  /** `by_output` restricted to the addresses visited so far, all before the ones to come. */
  ghost predicate Indexed(s: Scheme, m: Held, byOutput: map<Digest, Digest>, seen: set<Digest>) {
    && (forall o :: o in byOutput ==> byOutput[o] in seen && byOutput[o] in m && m[byOutput[o]].payload.outputHash == o)
    && (forall q :: q in seen ==> q in m && m[q].payload.outputHash in byOutput)
    && (forall q :: q in seen && q in m ==>
          q == byOutput[m[q].payload.outputHash] || s.before(byOutput[m[q].payload.outputHash], q))
  }

  lemma IndexComplete(s: Scheme, m: Held, byOutput: map<Digest, Digest>)
    requires Indexed(s, m, byOutput, m.Keys)
    ensures IsByOutput(s, m, byOutput)
  {
  }

  /** `by_output.setdefault(...)` for one address. */
  method SetDefault(s: Scheme, m: Held, byOutput0: map<Digest, Digest>, ghost seen: set<Digest>, h: Digest)
    returns (byOutput: map<Digest, Digest>)
    requires Indexed(s, m, byOutput0, seen) && h in m && forall q :: q in seen ==> s.before(q, h)
    ensures Indexed(s, m, byOutput, seen + {h})
  {
    var o := m[h].payload.outputHash;
    byOutput := if o in byOutput0 then byOutput0 else byOutput0[o := h];
  }

  /** `by_output`, filled in increasing order of content address, first producer kept. */
  method FirstProducers(s: Scheme, m: Held) returns (byOutput: map<Digest, Digest>)
    requires WellOrdered(s)
    ensures IsByOutput(s, m, byOutput)
  {
    var keys := Sorted(s.before, m.Keys);
    byOutput := map[];
    assert ToSet(keys[..0]) == {};
    for i := 0 to |keys|
      invariant Indexed(s, m, byOutput, ToSet(keys[..i]))
    {
      assert keys[i] in ToSet(keys);
      byOutput := SetDefault(s, m, byOutput, ToSet(keys[..i]), keys[i]);
      AppendToSet(keys[..i], keys[i]);
      assert keys[..i + 1] == keys[..i] + [keys[i]];
    }
    assert keys[..|keys|] == keys;
    IndexComplete(s, m, byOutput);
  }

  lemma FirstProducerUnique(s: Scheme, m: Held, p: Digest, q: Digest)
    requires WellOrdered(s)
    requires p in m && q in m && IsFirstProducer(s, m, p) && IsFirstProducer(s, m, q)
    requires m[p].payload.outputHash == m[q].payload.outputHash
    ensures p == q
  {
    Asymmetric(s.before);
  }

  /** The data edges of one envelope: its inputs looked up in `by_output`. */
  method DataParents(s: Scheme, m: Held, byOutput: map<Digest, Digest>, h: Digest) returns (ps: set<Digest>)
    requires WellOrdered(s) && h in m && IsByOutput(s, m, byOutput)
    ensures ps == set p | p in m && Data(s, m, h, p)
  {
    var inputs := m[h].payload.inputHashes;
    ps := {};
    for i := 0 to |inputs|
      invariant forall p :: p in ps ==> p in m && Data(s, m, h, p)
      invariant forall k :: 0 <= k < i && inputs[k] in byOutput && byOutput[inputs[k]] != h ==> byOutput[inputs[k]] in ps
    {
      var ih := inputs[i];
      if ih in byOutput && byOutput[ih] != h {
        ps := ps + {byOutput[ih]};
      }
    }
    forall p | p in m && Data(s, m, h, p) ensures p in ps {
      var k :| 0 <= k < |inputs| && inputs[k] == m[p].payload.outputHash;
      FirstProducerUnique(s, m, p, byOutput[inputs[k]]);
    }
  }

  method ParentsOfOne(s: Scheme, m: Held, byOutput: map<Digest, Digest>, h: Digest) returns (ps: set<Digest>)
    requires WellOrdered(s) && h in m && IsByOutput(s, m, byOutput)
    ensures ps == ParentSet(s, m, h)
  {
    ps := DataParents(s, m, byOutput, h);
    var spine := m[h].payload.parentHash;
    if spine.Some? && spine.value in m {
      ps := ps + {spine.value};
    }
  }

  /** `_provenance_parents`: spine and data edges of every held envelope. */
  method ProvenanceParents(s: Scheme, m: Held, byOutput: map<Digest, Digest>) returns (g: Graph<Digest>)
    requires WellOrdered(s) && IsByOutput(s, m, byOutput)
    ensures g == Parents(s, m)
  {
    g := map[];
    var todo := m.Keys;
    while todo != {}
      invariant todo <= m.Keys && g.Keys == m.Keys - todo
      invariant forall h :: h in g ==> g[h] == ParentSet(s, m, h)
      decreases todo
    {
      var h :| h in todo;
      var ps := ParentsOfOne(s, m, byOutput, h);
      g := g[h := ps];
      todo := todo - {h};
    }
  }

  /** The first address in `order` whose envelope has a fault is `h`, and its first fault is `fault`. */
  ghost predicate FirstFault(s: Scheme, m: Held, closed: bool, order: seq<Digest>, h: Digest, fault: Fault) {
    exists i ::
      && 0 <= i < |order| && order[i] == h && h in m && EnvelopeFault(s, m, closed, m[h]) == Some(fault)
      && forall j :: 0 <= j < i && order[j] in m ==> EnvelopeFault(s, m, closed, m[order[j]]) == None
  }

  /** The per-envelope checks of `verify_dag`, in order of insertion. */
  method CheckEnvelopes(s: Scheme, m: Held, order: seq<Digest>, closed: bool) returns (r: DagReason)
    requires ToSet(order) == m.Keys
    ensures r.AllOk? <==> Faultless(s, m, closed)
    ensures r.AllOk? <==>
            && (forall h :: h in m ==>
                  var key, sig := s.fromHex(m[h].payload.agentPubkey), s.fromHex(m[h].signature);
                  && key.Some? && |key.value| == 32 && sig.Some? && |sig.value| == 64 && m[h].signature != ""
                  && s.ed25519(key.value, sig.value, s.hash(m[h].payload)))
            && (forall h :: h in m ==> m[h].payload.inputHashes != [])
            && (forall h :: closed && h in m && m[h].payload.parentHash.Some? ==> m[h].payload.parentHash.value in m)
    ensures !r.AllOk? ==> r.Faulty? && FirstFault(s, m, closed, order, r.at, r.fault)
    ensures r.Faulty? ==>
              var e := m[r.at]; var key, sig := s.fromHex(e.payload.agentPubkey), s.fromHex(e.signature);
              match r.fault
              case BadKey => key.None? || |key.value| != 32
              case BadSignature => e.signature == "" || sig.None? || |sig.value| != 64 ||
                                   (key.Some? && !s.ed25519(key.value, sig.value, s.hash(e.payload)))
              case NoInputs => e.payload.inputHashes == []
              case SpineMissing => closed && e.payload.parentHash.Some? && e.payload.parentHash.value !in m
  {
    for i := 0 to |order|
      invariant forall j :: 0 <= j < i && order[j] in m ==> EnvelopeFault(s, m, closed, m[order[j]]) == None
    {
      assert order[i] in ToSet(order);
      var fault := EnvelopeFault(s, m, closed, m[order[i]]);
      if fault.Some? {
        return Faulty(order[i], fault.value);
      }
    }
    forall h | h in m ensures EnvelopeFault(s, m, closed, m[h]) == None {
      assert h in ToSet(order);
    }
    return AllOk;
  }

  /** `verify_dag`: accepts exactly the faultless, acyclic held sets, and then reports their
      least topological order, their roots and their leaves. */
  method VerifyDag(s: Scheme, envs: seq<Envelope>, closed: bool) returns (r: DagVerification)
    requires WellOrdered(s)
    ensures r.valid <==> Accepts(s, envs, closed)
    ensures r.valid ==> forall e :: e in r.topoOrder ==>
              var key, sig := s.fromHex(e.payload.agentPubkey), s.fromHex(e.signature);
              && key.Some? && |key.value| == 32 && sig.Some? && |sig.value| == 64 && e.signature != ""
              && s.ed25519(key.value, sig.value, s.hash(e.payload)) && e.payload.inputHashes != []
    ensures r.valid && closed ==> forall e :: e in r.topoOrder && e.payload.parentHash.Some? ==>
              exists x :: x in envs && s.hash(x.payload) == e.payload.parentHash.value
    ensures r.valid ==> forall e :: e in envs ==> exists x :: x in r.topoOrder && s.hash(x.payload) == s.hash(e.payload)
    ensures r.valid ==> r.reason.AllOk? && Reports(s, ByHash(s, envs), r.topoOrder, r.roots, r.leaves)
    ensures !r.valid ==> !r.reason.AllOk? && r.topoOrder == [] && r.roots == [] && r.leaves == []
    ensures r.reason.Faulty? ==> FirstFault(s, ByHash(s, envs), closed, HeldOrder(s, envs), r.reason.at, r.reason.fault)
  {
    var m, keys := CollectByHash(s, envs);
    var reason := CheckEnvelopes(s, m, keys, closed);
    if !reason.AllOk? {
      return DagVerification(false, reason, [], [], []);
    }
    var byOutput := FirstProducers(s, m);
    var g := ProvenanceParents(s, m, byOutput);
    r := Summarize(s, m, g);
    if r.valid {
      AcceptedOrder(s, envs, closed, r.topoOrder);
    }
  }

  /** What acceptance says of the ordered envelopes. */
  lemma AcceptedOrder(s: Scheme, envs: seq<Envelope>, closed: bool, order: seq<Envelope>)
    requires Faultless(s, ByHash(s, envs), closed) && exists o :: OrderOf(s, ByHash(s, envs), o, order)
    ensures forall e :: e in order ==>
              var key, sig := s.fromHex(e.payload.agentPubkey), s.fromHex(e.signature);
              && key.Some? && |key.value| == 32 && sig.Some? && |sig.value| == 64 && e.signature != ""
              && s.ed25519(key.value, sig.value, s.hash(e.payload)) && e.payload.inputHashes != []
    ensures closed ==> forall e :: e in order && e.payload.parentHash.Some? ==>
              exists x :: x in envs && s.hash(x.payload) == e.payload.parentHash.value
    ensures forall e :: e in envs ==> exists x :: x in order && s.hash(x.payload) == s.hash(e.payload)
  {
    HeldFacts(s, envs);
    var m := ByHash(s, envs);
    var o :| OrderOf(s, m, o, order);
    forall e | e in order ensures Hash(s, e) in m && EnvelopeFault(s, m, closed, e) == None {
      var i :| 0 <= i < |order| && order[i] == e;
      assert EnvelopeFault(s, m, closed, m[o[i]]) == None;
    }
    forall e | closed && e in order && e.payload.parentHash.Some?
      ensures exists x :: x in envs && s.hash(x.payload) == e.payload.parentHash.value
    {
      var x := m[e.payload.parentHash.value];
      assert x in envs && Hash(s, x) == e.payload.parentHash.value;
    }
    forall e | e in envs ensures exists x :: x in order && s.hash(x.payload) == s.hash(e.payload) {
      assert Hash(s, e) in ToSet(o);
      var i :| 0 <= i < |o| && o[i] == Hash(s, e);
      assert order[i] in order && Hash(s, order[i]) == o[i];
    }
  }

  /** The tail of `verify_dag`: order the graph and report it. */
  method Summarize(s: Scheme, m: Held, g: Graph<Digest>) returns (r: DagVerification)
    requires WellOrdered(s) && g == Parents(s, m)
    ensures r.valid <==> !Cyclic(g)
    ensures r.valid ==> r.reason.AllOk? && Reports(s, m, r.topoOrder, r.roots, r.leaves)
    ensures !r.valid ==> r == DagVerification(false, CycleDetected, [], [], [])
  {
    var o := TopoOrder(s.before, g);
    if o.None? {
      return DagVerification(false, CycleDetected, [], [], []);
    }
    forall i | 0 <= i < |o.value| ensures o.value[i] in m {
      assert o.value[i] in ToSet(o.value);
    }
    var order := seq(|o.value|, i requires 0 <= i < |o.value| && o.value[i] in m => m[o.value[i]]);
    assert OrderOf(s, m, o.value, order);
    var roots := Sorted(s.before, set h | h in g && g[h] == {});
    assert ToSet(roots) == Sources(g);
    var leaves := SortedLeaves(s, g);
    return DagVerification(true, AllOk, order, roots, leaves);
  }

  method CollectByHash(s: Scheme, envs: seq<Envelope>) returns (m: Held, keys: seq<Digest>)
    ensures m == ByHash(s, envs) && keys == HeldOrder(s, envs)
  {
    m, keys := map[], [];
    for i := 0 to |envs|
      invariant m == ByHash(s, envs[..i]) && keys == HeldOrder(s, envs[..i])
    {
      assert envs[..i + 1][..i] == envs[..i];
      var h := Hash(s, envs[i]);
      if h !in m {
        keys := keys + [h];
      }
      m := m[h := envs[i]];
    }
    assert envs[..|envs|] == envs;
  }

  /** Collect everything consumed, then sort the held addresses outside it. */
  method SortedLeaves(s: Scheme, g: Graph<Digest>) returns (leaves: seq<Digest>)
    requires WellOrdered(s)
    ensures StrictlySorted(s.before, leaves) && ToSet(leaves) == Sinks(g)
  {
    var consumed: set<Digest> := {};
    var todo := g.Keys;
    while todo != {}
      invariant todo <= g.Keys
      invariant forall p :: p in consumed ==> exists h :: h in g && p in g[h]
      invariant forall h :: h in g && h !in todo ==> g[h] <= consumed
      decreases todo
    {
      var h :| h in todo;
      consumed := consumed + g[h];
      todo := todo - {h};
    }
    var free := set h | h in g && h !in consumed;
    assert free == Sinks(g);
    leaves := Sorted(s.before, free);
  }
}
