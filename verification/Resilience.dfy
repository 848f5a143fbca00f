/** gyza/resilience.py: find agents that signed two different envelopes for one action, set
    aside everything they authored, and verify what remains. */
module Resilience {
  import opened Common
  import opened Topo
  import opened Provenance
  import opened DagVerifier
  import opened DagLaws

  /** One logical action of one agent. */
  datatype ActionKey = ActionKey(agent: string, intent: string, action: string)

  function KeyOf(e: Envelope): ActionKey {
    ActionKey(e.payload.agentPubkey, e.payload.intentId, e.payload.actionId)
  }

  /** Tuples compare field by field. */
  predicate KeyLt(a: ActionKey, b: ActionKey) {
    || StrLt(a.agent, b.agent)
    || (a.agent == b.agent && (StrLt(a.intent, b.intent)
                               || (a.intent == b.intent && StrLt(a.action, b.action))))
  }

  lemma KeyLtIsOrder()
    ensures StrictTotalOrder(KeyLt)
  {
    StrLtIsOrder();
    forall a, b, c | Chain(KeyLt, a, b, c) ensures KeyLt(a, c) {
      assert Chain(StrLt, a.agent, b.agent, c.agent) ==> StrLt(a.agent, c.agent);
      assert Chain(StrLt, a.intent, b.intent, c.intent) ==> StrLt(a.intent, c.intent);
      assert Chain(StrLt, a.action, b.action, c.action) ==> StrLt(a.action, c.action);
    }
    forall a, b ensures Compared(KeyLt, a, b) {
      assert Compared(StrLt, a.agent, b.agent);
      assert Compared(StrLt, a.intent, b.intent);
      assert Compared(StrLt, a.action, b.action);
    }
  }

  /** The content addresses signed for one action. */
  function Signed(s: Scheme, envs: seq<Envelope>, k: ActionKey): set<Digest> {
    set e | e in envs && KeyOf(e) == k :: Hash(s, e)
  }

  /** Two different envelopes for one action of one agent. */
  ghost predicate Equivocates(s: Scheme, envs: seq<Envelope>, k: ActionKey) {
    exists a, b :: a in envs && b in envs && KeyOf(a) == k && KeyOf(b) == k && Hash(s, a) != Hash(s, b)
  }

  datatype Equivocation = Equivocation(key: ActionKey, outputs: seq<Digest>, envelopes: seq<Digest>)

  /** The finding for key `k`: both listings sorted, the hashes being all those signed for it. */
  ghost predicate IsFinding(s: Scheme, envs: seq<Envelope>, f: Equivocation) {
    && Equivocates(s, envs, f.key)
    && StrictlySorted(s.before, f.envelopes) && ToSet(f.envelopes) == Signed(s, envs, f.key)
    && StrictlySorted(s.before, f.outputs)
    && (Injective(s) ==> ToSet(f.outputs) == OutputsOf(envs, f.key))
  }

  ghost function OutputsOf(envs: seq<Envelope>, k: ActionKey): set<Digest> {
    set e | e in envs && KeyOf(e) == k :: e.payload.outputHash
  }

  /** A report lists every equivocating key once, in key order. */
  ghost predicate IsDetection(s: Scheme, envs: seq<Envelope>, out: seq<Equivocation>) {
    && (forall i, j :: 0 <= i < j < |out| ==> KeyLt(out[i].key, out[j].key))
    && (forall i :: 0 <= i < |out| ==> IsFinding(s, envs, out[i]))
    && (forall k :: Equivocates(s, envs, k) ==> exists i :: 0 <= i < |out| && out[i].key == k)
  }

  type Groups = map<ActionKey, map<Digest, Digest>>

  /** `groups` after the first loop: per key, each signed hash with an output it committed to. */
  ghost predicate IsGrouping(s: Scheme, envs: seq<Envelope>, groups: Groups) {
    && (forall e :: e in envs ==> KeyOf(e) in groups && Hash(s, e) in groups[KeyOf(e)])
    && (forall k, h :: k in groups && h in groups[k] ==>
          exists e :: e in envs && KeyOf(e) == k && Hash(s, e) == h && e.payload.outputHash == groups[k][h])
  }

  method Group(s: Scheme, envs: seq<Envelope>) returns (groups: Groups)
    ensures IsGrouping(s, envs, groups)
  {
    groups := map[];
    for i := 0 to |envs|
      invariant IsGrouping(s, envs[..i], groups)
    {
      var e := envs[i];
      var seen := if KeyOf(e) in groups then groups[KeyOf(e)] else map[];
      GroupStep(s, envs[..i], groups, e);
      assert envs[..i + 1] == envs[..i] + [e];
      groups := groups[KeyOf(e) := seen[Hash(s, e) := e.payload.outputHash]];
    }
    assert envs[..|envs|] == envs;
  }

  lemma GroupStep(s: Scheme, pre: seq<Envelope>, groups: Groups, e: Envelope)
    requires IsGrouping(s, pre, groups)
    ensures var seen := if KeyOf(e) in groups then groups[KeyOf(e)] else map[];
            IsGrouping(s, pre + [e], groups[KeyOf(e) := seen[Hash(s, e) := e.payload.outputHash]])
  {
    var seen := if KeyOf(e) in groups then groups[KeyOf(e)] else map[];
    var after := groups[KeyOf(e) := seen[Hash(s, e) := e.payload.outputHash]];
    forall k, h | k in after && h in after[k]
      ensures exists x :: x in pre + [e] && KeyOf(x) == k && Hash(s, x) == h && x.payload.outputHash == after[k][h]
    {
      if k == KeyOf(e) && h == Hash(s, e) {
        assert e in pre + [e];
      } else {
        var x :| x in pre && KeyOf(x) == k && Hash(s, x) == h && x.payload.outputHash == groups[k][h];
        assert x in pre + [e];
      }
    }
  }

  /** `detect_equivocation`: exactly the keys with two different signed envelopes. */
  method DetectEquivocation(s: Scheme, envs: seq<Envelope>) returns (out: seq<Equivocation>)
    requires WellOrdered(s)
    ensures IsDetection(s, envs, out)
    ensures forall agent, intent, action ::
              (exists f :: f in out && f.key == ActionKey(agent, intent, action)) <==>
              (exists x, y :: && x in envs && y in envs && s.hash(x.payload) != s.hash(y.payload)
                              && x.payload.agentPubkey == y.payload.agentPubkey == agent
                              && x.payload.intentId == y.payload.intentId == intent
                              && x.payload.actionId == y.payload.actionId == action)
    ensures forall f, h :: f in out ==>
              (h in f.envelopes <==> exists x :: && x in envs && s.hash(x.payload) == h && x.payload.agentPubkey == f.key.agent
                                                 && x.payload.intentId == f.key.intent && x.payload.actionId == f.key.action)
  {
    var groups := Group(s, envs);
    out := Findings(s, envs, groups);
    DetectionMeans(s, envs, out);
  }

  /** The groups of two or more, in key order. */
  method Findings(s: Scheme, ghost envs: seq<Envelope>, groups: Groups) returns (out: seq<Equivocation>)
    requires WellOrdered(s) && IsGrouping(s, envs, groups)
    ensures IsDetection(s, envs, out)
  {
    KeyLtIsOrder();
    var keys := Sorted(KeyLt, set k | k in groups && |groups[k]| >= 2);
    out := [];
    for i := 0 to |keys|
      invariant |out| == i
      invariant forall j :: 0 <= j < i ==> out[j].key == keys[j] && IsFinding(s, envs, out[j])
    {
      assert keys[i] in ToSet(keys);
      var finding := Finding(s, envs, groups, keys[i]);
      out := out + [finding];
    }
    forall k | Equivocates(s, envs, k) ensures exists i :: 0 <= i < |out| && out[i].key == k {
      Conflicting(s, envs, groups, k);
      assert k in ToSet(keys);
      var i :| 0 <= i < |keys| && keys[i] == k;
      assert out[i].key == k;
    }
  }

  /** A detection in terms of the envelopes' own fields. */
  lemma DetectionMeans(s: Scheme, envs: seq<Envelope>, out: seq<Equivocation>)
    requires IsDetection(s, envs, out)
    ensures forall agent, intent, action ::
              (exists f :: f in out && f.key == ActionKey(agent, intent, action)) <==>
              (exists x, y :: && x in envs && y in envs && s.hash(x.payload) != s.hash(y.payload)
                              && x.payload.agentPubkey == y.payload.agentPubkey == agent
                              && x.payload.intentId == y.payload.intentId == intent
                              && x.payload.actionId == y.payload.actionId == action)
    ensures forall f, h :: f in out ==>
              (h in f.envelopes <==> exists x :: && x in envs && s.hash(x.payload) == h && x.payload.agentPubkey == f.key.agent
                                                 && x.payload.intentId == f.key.intent && x.payload.actionId == f.key.action)
  {
    forall agent, intent, action
      ensures (exists f :: f in out && f.key == ActionKey(agent, intent, action)) <==> Equivocates(s, envs, ActionKey(agent, intent, action))
    {
      var k := ActionKey(agent, intent, action);
      if f :| f in out && f.key == k {
        assert IsFinding(s, envs, f);
      }
      if Equivocates(s, envs, k) {
        var i :| 0 <= i < |out| && out[i].key == k;
        assert out[i] in out;
      }
    }
    forall f, h | f in out ensures h in f.envelopes <==> h in Signed(s, envs, f.key) {
      assert h in f.envelopes <==> h in ToSet(f.envelopes);
    }
  }

  method Finding(s: Scheme, ghost envs: seq<Envelope>, groups: Groups, k: ActionKey) returns (f: Equivocation)
    requires WellOrdered(s)
    requires IsGrouping(s, envs, groups) && k in groups && |groups[k]| >= 2
    ensures f.key == k && IsFinding(s, envs, f)
  {
    Conflicting(s, envs, groups, k);
    var hashes := Sorted(s.before, groups[k].Keys);
    var outputs := Sorted(s.before, groups[k].Values);
    f := Equivocation(k, outputs, hashes);
  }

  /** `len(seen) < 2` fails exactly on the equivocating keys. */
  lemma Conflicting(s: Scheme, envs: seq<Envelope>, groups: Groups, k: ActionKey)
    requires IsGrouping(s, envs, groups)
    ensures Equivocates(s, envs, k) <==> k in groups && |groups[k]| >= 2
    ensures k in groups ==> groups[k].Keys == Signed(s, envs, k)
    ensures k in groups && Injective(s) ==> groups[k].Values == OutputsOf(envs, k)
  {
    if k in groups {
      TwoKeys(groups[k]);
      forall h | h in groups[k] ensures h in Signed(s, envs, k) {
      }
      if Injective(s) {
        forall e | e in envs && KeyOf(e) == k ensures groups[k][Hash(s, e)] == e.payload.outputHash {
        }
        forall o | o in groups[k].Values ensures o in OutputsOf(envs, k) {
        }
        forall o | o in OutputsOf(envs, k) ensures o in groups[k].Values {
          var e :| e in envs && KeyOf(e) == k && e.payload.outputHash == o;
          assert Hash(s, e) in groups[k];
        }
      }
    }
  }

  lemma TwoKeys(m: map<Digest, Digest>)
    ensures |m| >= 2 <==> exists a, b :: a in m && b in m && a != b
  {
    assert |m| == |m.Keys|;
    if a, b :| a in m && b in m && a != b {
      SubsetCardinality({a, b}, m.Keys);
    } else if m != map[] {
      var a :| a in m;
      assert m.Keys == {a};
    }
  }

  /** The report is a function of the set of envelopes. */
  lemma DetectionUnique(s: Scheme, a: seq<Envelope>, b: seq<Envelope>, out1: seq<Equivocation>, out2: seq<Equivocation>)
    requires WellOrdered(s) && Injective(s)
    requires ToSet(a) == ToSet(b)
    requires IsDetection(s, a, out1) && IsDetection(s, b, out2)
    ensures out1 == out2
  {
    assert forall e :: e in a <==> e in ToSet(b);
    forall k ensures Equivocates(s, a, k) <==> Equivocates(s, b, k) {
    }
    var k1 := seq(|out1|, i requires 0 <= i < |out1| => out1[i].key);
    var k2 := seq(|out2|, i requires 0 <= i < |out2| => out2[i].key);
    KeysMatch(s, a, out1, k1);
    KeysMatch(s, b, out2, k2);
    forall k ensures k in ToSet(k1) <==> k in ToSet(k2) {
    }
    KeyLtIsOrder();
    SortedUnique(KeyLt, k1, k2);
    forall i | 0 <= i < |out1| ensures out1[i] == out2[i] {
      assert k1[i] == k2[i];
      assert Signed(s, a, k1[i]) == Signed(s, b, k1[i]);
      assert OutputsOf(a, k1[i]) == OutputsOf(b, k1[i]);
      SortedUnique(s.before, out1[i].envelopes, out2[i].envelopes);
      SortedUnique(s.before, out1[i].outputs, out2[i].outputs);
    }
  }

  lemma KeysMatch(s: Scheme, envs: seq<Envelope>, out: seq<Equivocation>, ks: seq<ActionKey>)
    requires IsDetection(s, envs, out)
    requires |ks| == |out| && forall i :: 0 <= i < |out| ==> ks[i] == out[i].key
    ensures StrictlySorted(KeyLt, ks)
    ensures forall k :: k in ToSet(ks) <==> Equivocates(s, envs, k)
  {
    forall k | Equivocates(s, envs, k) ensures k in ToSet(ks) {
      var i :| 0 <= i < |out| && out[i].key == k;
      assert ks[i] == k;
    }
  }

  // ------------------------------------------------------------------
  // Quarantine
  // ------------------------------------------------------------------

  /** Envelopes not authored by a quarantined agent. */
  function Honest(envs: seq<Envelope>, q: set<string>): seq<Envelope> {
    Keep(envs, (e: Envelope) => e.payload.agentPubkey !in q)
  }

  function Quarantined(envs: seq<Envelope>, q: set<string>): seq<Envelope> {
    Keep(envs, (e: Envelope) => e.payload.agentPubkey in q)
  }

  /** `quarantine_view`: an order-preserving split by author that loses nothing. */
  method QuarantineView(envs: seq<Envelope>, q: set<string>) returns (honest: seq<Envelope>, bad: seq<Envelope>)
    ensures honest == Honest(envs, q) && bad == Quarantined(envs, q)
    ensures forall e :: e in honest <==> e in envs && e.payload.agentPubkey !in q
    ensures multiset(honest) + multiset(bad) == multiset(envs)
  {
    honest, bad := [], [];
    for i := 0 to |envs|
      invariant honest == Honest(envs[..i], q) && bad == Quarantined(envs[..i], q)
    {
      assert envs[..i + 1][..i] == envs[..i];
      if envs[i].payload.agentPubkey in q {
        bad := bad + [envs[i]];
      } else {
        honest := honest + [envs[i]];
      }
    }
    assert envs[..|envs|] == envs;
    SplitConserves(envs, q);
  }

  lemma {:induction false} SplitConserves(envs: seq<Envelope>, q: set<string>)
    ensures multiset(Honest(envs, q)) + multiset(Quarantined(envs, q)) == multiset(envs)
  {
    if envs != [] {
      var n := |envs| - 1;
      SplitConserves(envs[..n], q);
      assert envs == envs[..n] + [envs[n]];
    }
  }

  datatype ResilienceReport = ResilienceReport(
    total: nat, agents: nat, equivocations: seq<Equivocation>, quarantined: set<string>,
    honest: nat, honestDag: DagVerification)
  {
    /** `mission_intact` */
    predicate MissionIntact() {
      honest > 0 && honestDag.valid
    }
  }

  /** The agents an assessment quarantines: every equivocator and whoever the caller adds. */
  ghost predicate QuarantinesEquivocators(s: Scheme, envs: seq<Envelope>, q: set<string>) {
    forall k :: Equivocates(s, envs, k) ==> k.agent in q
  }

  /** `assess_resilience`: the verdict is that of the open DAG verifier on the honest remainder,
      in which nobody equivocates. */
  method AssessResilience(s: Scheme, envs: seq<Envelope>, extra: set<string>) returns (r: ResilienceReport)
    requires WellOrdered(s)
    ensures IsDetection(s, envs, r.equivocations)
    ensures forall a :: a in r.quarantined <==> a in extra || exists k :: Equivocates(s, envs, k) && k.agent == a
    ensures forall a :: a in r.quarantined <==>
              a in extra
              || exists x, y :: && x in envs && y in envs && s.hash(x.payload) != s.hash(y.payload)
                                && x.payload.agentPubkey == y.payload.agentPubkey == a
                                && x.payload.intentId == y.payload.intentId && x.payload.actionId == y.payload.actionId
    ensures forall a :: a !in extra
              && (forall x, y ::
                    (x in envs && y in envs && x.payload.agentPubkey == y.payload.agentPubkey == a
                     && x.payload.intentId == y.payload.intentId && x.payload.actionId == y.payload.actionId) ==> x == y)
              ==> a !in r.quarantined
    ensures r.honestDag.valid <==> Accepts(s, Honest(envs, r.quarantined), false)
    ensures r.honest == |Honest(envs, r.quarantined)| && r.total == |envs|
    ensures r.agents == |set e | e in envs :: e.payload.agentPubkey|
    ensures forall k :: !Equivocates(s, Honest(envs, r.quarantined), k)
  {
    var equivocations := DetectEquivocation(s, envs);
    var quarantined := extra + (set i | 0 <= i < |equivocations| :: equivocations[i].key.agent);
    forall k | Equivocates(s, envs, k) ensures k.agent in quarantined {
      var i :| 0 <= i < |equivocations| && equivocations[i].key == k;
    }
    QuarantineMeans(s, envs, extra, quarantined);
    var honest, _ := QuarantineView(envs, quarantined);
    var dag := VerifyDag(s, honest, false);
    NoHonestEquivocation(s, envs, quarantined);
    r := ResilienceReport(|envs|, |set e | e in envs :: e.payload.agentPubkey|, equivocations, quarantined,
                          |honest|, dag);
  }

  /** Who is quarantined, in terms of the envelopes' own fields. */
  lemma QuarantineMeans(s: Scheme, envs: seq<Envelope>, extra: set<string>, q: set<string>)
    requires forall a :: a in q <==> a in extra || exists k :: Equivocates(s, envs, k) && k.agent == a
    ensures forall a :: a in q <==>
              a in extra
              || exists x, y :: && x in envs && y in envs && s.hash(x.payload) != s.hash(y.payload)
                                && x.payload.agentPubkey == y.payload.agentPubkey == a
                                && x.payload.intentId == y.payload.intentId && x.payload.actionId == y.payload.actionId
  {
    forall a ensures a in q <==>
              a in extra
              || exists x, y :: && x in envs && y in envs && s.hash(x.payload) != s.hash(y.payload)
                                && x.payload.agentPubkey == y.payload.agentPubkey == a
                                && x.payload.intentId == y.payload.intentId && x.payload.actionId == y.payload.actionId
    {
      if k :| Equivocates(s, envs, k) && k.agent == a {
        var x, y :| x in envs && y in envs && KeyOf(x) == k && KeyOf(y) == k && Hash(s, x) != Hash(s, y);
      }
      if x, y :| && x in envs && y in envs && s.hash(x.payload) != s.hash(y.payload)
                 && x.payload.agentPubkey == y.payload.agentPubkey == a
                 && x.payload.intentId == y.payload.intentId && x.payload.actionId == y.payload.actionId {
        assert KeyOf(x) == KeyOf(y) && Hash(s, x) != Hash(s, y);
        assert Equivocates(s, envs, KeyOf(x));
      }
    }
  }

  lemma NoHonestEquivocation(s: Scheme, envs: seq<Envelope>, q: set<string>)
    requires QuarantinesEquivocators(s, envs, q)
    ensures forall k :: !Equivocates(s, Honest(envs, q), k)
  {
    forall k ensures Equivocates(s, Honest(envs, q), k) ==> Equivocates(s, envs, k) && k.agent !in q {
    }
  }

  /** Quarantining any agents of an accepted history with distinct outputs leaves an accepted
      history, whatever the signatures of shadowed twins. */
  lemma QuarantineKeepsValid(s: Scheme, envs: seq<Envelope>, q: set<string>)
    requires WellOrdered(s) && Injective(s)
    requires Accepts(s, envs, false) && DistinctOutputs(ByHash(s, envs))
    ensures Accepts(s, Honest(envs, q), false)
  {
    var keep := (e: Envelope) => e.payload.agentPubkey !in q;
    var m, n := ByHash(s, envs), ByHash(s, Honest(envs, q));
    KeepHeld(s, envs, keep);
    DistinctOutputsFixEdges(s, m);
    SelectionEdges(s, m, n);
    SubgraphAcyclic(Parents(s, m), Parents(s, n));
    forall h | h in n ensures EnvelopeFault(s, n, false, n[h]) == None {
      assert EnvelopeFault(s, m, false, m[h]) == None;
    }
  }

  /** The authors of the envelopes on `w`. */
  ghost function AuthorsOn(m: Held, w: seq<Digest>): set<string> {
    set h | h in w && h in m :: m[h].payload.agentPubkey
  }

  /** `p` feeds `h` once only the authors in `kept` are left. */
  ghost predicate FeedsAmong(s: Scheme, m: Held, kept: set<string>, h: Digest, p: Digest)
    requires h in m && p in m
  {
    && p != h && m[p].payload.outputHash in m[h].payload.inputHashes
    && forall x :: x in m && m[x].payload.outputHash == m[p].payload.outputHash && m[x].payload.agentPubkey in kept ==>
                     x == p || s.before(p, x)
  }

  /** A cycle of spine edges and of inputs whose first producer among the authors on it is the next one. */
  ghost predicate ClosedCircle(s: Scheme, m: Held, w: seq<Digest>) {
    && |w| >= 2 && w[0] == w[|w| - 1] && (forall i :: 0 <= i < |w| ==> w[i] in m)
    && forall i :: 0 <= i < |w| - 1 && w[i] in m && w[i + 1] in m ==>
                     Spine(m, w[i], w[i + 1]) || FeedsAmong(s, m, AuthorsOn(m, w), w[i], w[i + 1])
  }

  /** `n` holds what `m` does, less the authors in `q`. */
  ghost predicate IsRemainder(m: Held, n: Held, q: set<string>) {
    (forall h :: h in n <==> h in m && m[h].payload.agentPubkey !in q) && (forall h :: h in n ==> n[h] == m[h])
  }

  lemma HonestHeld(s: Scheme, envs: seq<Envelope>, q: set<string>)
    requires Injective(s)
    ensures IsRemainder(ByHash(s, envs), ByHash(s, Honest(envs, q)), q)
  {
    var keep := (e: Envelope) => e.payload.agentPubkey !in q;
    KeepHeld(s, envs, keep);
    assert IsRestriction(ByHash(s, Keep(envs, keep)), ByHash(s, envs), keep);
  }

  /** A cycle left by a quarantine is a closed circle of the whole history. */
  lemma LeftCycleCloses(s: Scheme, m: Held, n: Held, q: set<string>, w: seq<Digest>)
    requires IsRemainder(m, n, q) && IsCycle(Parents(s, n), w)
    ensures ClosedCircle(s, m, w)
  {
    forall i | 0 <= i < |w| ensures w[i] in n {
      if i == |w| - 1 {
        assert w[0] in n;
      }
    }
    forall i | 0 <= i < |w| - 1
      ensures Spine(m, w[i], w[i + 1]) || FeedsAmong(s, m, AuthorsOn(m, w), w[i], w[i + 1])
    {
      assert w[i + 1] in Parents(s, n)[w[i]];
    }
  }

  /** Setting aside everybody else leaves a closed circle as a cycle. */
  lemma CircleLeft(s: Scheme, m: Held, n: Held, q: set<string>, w: seq<Digest>)
    requires ClosedCircle(s, m, w) && IsRemainder(m, n, q)
    requires forall h :: h in m ==> (m[h].payload.agentPubkey in AuthorsOn(m, w) <==> m[h].payload.agentPubkey !in q)
    ensures IsCycle(Parents(s, n), w)
  {
    forall i | 0 <= i < |w| ensures w[i] in n {
      assert w[i] in w;
    }
    forall i | 0 <= i < |w| - 1 ensures w[i + 1] in Parents(s, n)[w[i]] {
      if !Spine(m, w[i], w[i + 1]) {
        assert FeedsAmong(s, m, AuthorsOn(m, w), w[i], w[i + 1]);
        assert IsFirstProducer(s, n, w[i + 1]);
      }
    }
  }

  lemma CircleRejected(s: Scheme, envs: seq<Envelope>, w: seq<Digest>) returns (q: set<string>)
    requires Injective(s) && ClosedCircle(s, ByHash(s, envs), w)
    ensures !Accepts(s, Honest(envs, q), false)
  {
    var m := ByHash(s, envs);
    q := (set h | h in m :: m[h].payload.agentPubkey) - AuthorsOn(m, w);
    HonestHeld(s, envs, q);
    CircleLeft(s, m, ByHash(s, Honest(envs, q)), q, w);
  }

  lemma NoCircleAccepted(s: Scheme, envs: seq<Envelope>, q: set<string>)
    requires Injective(s) && Accepts(s, envs, false)
    requires CircleFree(s, ByHash(s, envs))
    ensures Accepts(s, Honest(envs, q), false)
  {
    HonestHeld(s, envs, q);
    RemainderOk(s, ByHash(s, envs), ByHash(s, Honest(envs, q)), q);
  }

  lemma RemainderOk(s: Scheme, m: Held, n: Held, q: set<string>)
    requires HeldOk(s, m, false) && IsRemainder(m, n, q) && CircleFree(s, m)
    ensures HeldOk(s, n, false)
  {
    forall w ensures !IsCycle(Parents(s, n), w) {
      if IsCycle(Parents(s, n), w) {
        LeftCycleCloses(s, m, n, q, w);
      }
    }
    forall h | h in n ensures EnvelopeFault(s, n, false, n[h]) == None {
      assert EnvelopeFault(s, m, false, m[h]) == None;
    }
  }

  /** The history is still accepted once `q` is quarantined. */
  ghost predicate Survives(s: Scheme, envs: seq<Envelope>, q: set<string>) {
    Accepts(s, Honest(envs, q), false)
  }

  ghost predicate CircleFree(s: Scheme, m: Held) {
    forall w :: !ClosedCircle(s, m, w)
  }

  /** Every quarantine of an accepted history leaves an accepted one exactly when the history has no
      closed circle. */
  lemma EveryQuarantineAccepted(s: Scheme, envs: seq<Envelope>)
    requires Injective(s) && Accepts(s, envs, false)
    ensures (forall q :: Survives(s, envs, q)) <==> CircleFree(s, ByHash(s, envs))
  {
    if CircleFree(s, ByHash(s, envs)) {
      forall q ensures Survives(s, envs, q) {
        NoCircleAccepted(s, envs, q);
      }
    } else {
      var w :| ClosedCircle(s, ByHash(s, envs), w);
      var q := CircleRejected(s, envs, w);
      assert !Survives(s, envs, q);
    }
  }

  /** With shared outputs a quarantine can break an accepted history: `a` made first what `b`, of
      another agent, made too. */
  lemma QuarantineMakesCycle(s: Scheme, a: Envelope, b: Envelope, c: Envelope)
    requires WellOrdered(s) && Repointable(s, a, b, c)
    requires a.payload.agentPubkey != b.payload.agentPubkey && a.payload.agentPubkey != c.payload.agentPubkey
    ensures (Accepts(s, [a, b, c], false), Accepts(s, Honest([a, b, c], {a.payload.agentPubkey}), false)) == (true, false)
  {
    DroppedProducerMakesCycle(s, a, b, c);
    var q := {a.payload.agentPubkey};
    assert [a, b, c][..2] == [a, b] && [a, b][..1] == [a] && [a][..0] == [];
    assert Honest([], q) == [] && Honest([a], q) == [] && Honest([a, b], q) == [b] && Honest([a, b, c], q) == [b, c];
  }

  /** So the mission is intact after any quarantine that spares somebody. */
  lemma MissionSurvives(s: Scheme, envs: seq<Envelope>, r: ResilienceReport)
    requires WellOrdered(s) && Injective(s)
    requires Accepts(s, envs, false) && DistinctOutputs(ByHash(s, envs))
    requires r.honestDag.valid <==> Accepts(s, Honest(envs, r.quarantined), false)
    requires r.honest == |Honest(envs, r.quarantined)|
    ensures r.MissionIntact() <==> exists e :: e in envs && e.payload.agentPubkey !in r.quarantined
  {
    QuarantineKeepsValid(s, envs, r.quarantined);
    if e :| e in envs && e.payload.agentPubkey !in r.quarantined {
      assert e in Honest(envs, r.quarantined);
    }
    if r.honest > 0 {
      assert Honest(envs, r.quarantined)[0] in Honest(envs, r.quarantined);
    }
  }
}
