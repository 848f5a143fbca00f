/** Laws of `verify_dag` (gyza/icp.py): what its verdict depends on, which selections of an
    accepted set are accepted, and how it agrees with `verify_chain`. */
module DagLaws {
  import opened Common
  import opened Topo
  import opened Provenance

  // ------------------------------------------------------------------
  // The held set of an envelope list
  // ------------------------------------------------------------------

  /** No two listed envelopes share a content address without being the same envelope. */
  ghost predicate Consistent(s: Scheme, envs: seq<Envelope>) {
    forall a, b :: a in envs && b in envs && Hash(s, a) == Hash(s, b) ==> a == b
  }

  lemma SameSetSameHeld(s: Scheme, a: seq<Envelope>, b: seq<Envelope>)
    requires ToSet(a) == ToSet(b) && Consistent(s, a)
    ensures ByHash(s, a) == ByHash(s, b)
  {
    HeldFacts(s, a);
    HeldFacts(s, b);
    var ma, mb := ByHash(s, a), ByHash(s, b);
    assert forall e :: e in b ==> e in ToSet(b);
    forall h ensures h in ma <==> h in mb {
      if h in ma {
        assert ma[h] in ToSet(a);
      }
      if h in mb {
        assert mb[h] in ToSet(a);
      }
    }
    forall h | h in ma ensures ma[h] == mb[h] {
      assert mb[h] in ToSet(a);
    }
  }

  /** An accepting report is determined by the held set. */
  lemma ReportUnique(s: Scheme, m: Held, o1: seq<Envelope>, r1: seq<Digest>, l1: seq<Digest>,
                     o2: seq<Envelope>, r2: seq<Digest>, l2: seq<Digest>)
    requires WellOrdered(s)
    requires Reports(s, m, o1, r1, l1) && Reports(s, m, o2, r2, l2)
    ensures o1 == o2 && r1 == r2 && l1 == l2
  {
    var p :| OrderOf(s, m, p, o1);
    var q :| OrderOf(s, m, q, o2);
    LeastUnique(s.before, Parents(s, m), p, q);
    SortedUnique(s.before, r1, r2);
    SortedUnique(s.before, l1, l2);
  }

  /** Neither list order nor repetition changes the verdict or any part of an accepting report. */
  lemma ArrangementIrrelevant(s: Scheme, a: seq<Envelope>, b: seq<Envelope>, closed: bool)
    requires WellOrdered(s)
    requires ToSet(a) == ToSet(b) && Consistent(s, a)
    ensures Accepts(s, a, closed) <==> Accepts(s, b, closed)
    ensures forall o1, r1, l1, o2, r2, l2 ::
              Reports(s, ByHash(s, a), o1, r1, l1) && Reports(s, ByHash(s, b), o2, r2, l2)
              ==> o1 == o2 && r1 == r2 && l1 == l2
  {
    SameSetSameHeld(s, a, b);
    forall o1, r1, l1, o2, r2, l2 |
      Reports(s, ByHash(s, a), o1, r1, l1) && Reports(s, ByHash(s, b), o2, r2, l2)
      ensures o1 == o2 && r1 == r2 && l1 == l2
    {
      ReportUnique(s, ByHash(s, a), o1, r1, l1, o2, r2, l2);
    }
  }

  /** Two held sets with the same addresses and payloads differ only in signatures. */
  ghost predicate SamePayloads(m: Held, n: Held) {
    m.Keys == n.Keys && forall h :: h in m ==> m[h].payload == n[h].payload
  }

  lemma SamePayloadsSameGraph(s: Scheme, m: Held, n: Held)
    requires SamePayloads(m, n)
    ensures Parents(s, m) == Parents(s, n)
  {
    forall h | h in m ensures ParentSet(s, m, h) == ParentSet(s, n, h) {
      SamePayloadsSubset(s, m, n, h);
      SamePayloadsSubset(s, n, m, h);
    }
  }

  lemma SamePayloadsSubset(s: Scheme, m: Held, n: Held, h: Digest)
    requires SamePayloads(m, n) && h in m
    ensures ParentSet(s, m, h) <= ParentSet(s, n, h)
  {
    forall p | p in ParentSet(s, m, h) ensures p in ParentSet(s, n, h) {
      assert m[p].payload == n[p].payload && m[h].payload == n[h].payload;
      if Data(s, m, h, p) {
        forall q | q in n && n[q].payload.outputHash == n[p].payload.outputHash ensures q == p || s.before(p, q) {
          assert m[q].payload == n[q].payload;
        }
      }
    }
  }

  /** An accepted list is accepted in every arrangement exactly when every listed envelope,
      shadowed or not, has a good signature: twins that share a payload but not a signature are
      resolved to the last one listed. */
  lemma EveryArrangementAccepted(s: Scheme, envs: seq<Envelope>, closed: bool)
    requires Injective(s) && Accepts(s, envs, closed)
    ensures (forall other: seq<Envelope> :: ToSet(other) == ToSet(envs) ==> Accepts(s, other, closed))
            <==> (forall e :: e in envs ==> SigOk(s, e))
  {
    if e :| e in envs && !SigOk(s, e) {
      var other := envs + [e];
      assert ToSet(other) == ToSet(envs);
      assert other[..|other| - 1] == envs;
      assert EnvelopeFault(s, ByHash(s, other), closed, ByHash(s, other)[Hash(s, e)]) != None;
      assert !Accepts(s, other, closed);
    } else {
      forall other: seq<Envelope> | ToSet(other) == ToSet(envs) ensures Accepts(s, other, closed) {
        RearrangedAccepted(s, envs, other, closed);
      }
    }
  }

  lemma RearrangedAccepted(s: Scheme, envs: seq<Envelope>, other: seq<Envelope>, closed: bool)
    requires Injective(s) && Accepts(s, envs, closed)
    requires ToSet(other) == ToSet(envs) && forall e :: e in envs ==> SigOk(s, e)
    ensures Accepts(s, other, closed)
  {
    var m, n := ByHash(s, envs), ByHash(s, other);
    RearrangedHeld(s, envs, other);
    SamePayloadsSameGraph(s, m, n);
    forall h | h in n ensures EnvelopeFault(s, n, closed, n[h]) == None {
      assert EnvelopeFault(s, m, closed, m[h]) == None;
    }
  }

  lemma RearrangedHeld(s: Scheme, envs: seq<Envelope>, other: seq<Envelope>)
    requires Injective(s) && ToSet(other) == ToSet(envs)
    ensures SamePayloads(ByHash(s, envs), ByHash(s, other))
    ensures forall h :: h in ByHash(s, other) ==> ByHash(s, other)[h] in envs
  {
    HeldFacts(s, envs);
    HeldFacts(s, other);
    assert forall e :: e in other <==> e in ToSet(envs);
  }

  // ------------------------------------------------------------------
  // Selections of an accepted set
  // ------------------------------------------------------------------

  /** The envelopes satisfying `keep`, in their original order. */
  function Keep(envs: seq<Envelope>, keep: Envelope -> bool): (r: seq<Envelope>)
    ensures forall e :: e in r <==> e in envs && keep(e)
  {
    if envs == [] then []
    else
      var n := |envs| - 1;
      Keep(envs[..n], keep) + if keep(envs[n]) then [envs[n]] else []
  }

  /** `keep` cannot separate envelopes with the same content address. */
  ghost predicate ByAddress(s: Scheme, keep: Envelope -> bool) {
    forall a, b :: Hash(s, a) == Hash(s, b) ==> keep(a) == keep(b)
  }

  lemma Append(s: Scheme, envs: seq<Envelope>, e: Envelope)
    ensures ByHash(s, envs + [e]) == ByHash(s, envs)[Hash(s, e) := e]
  {
    assert (envs + [e])[..|envs|] == envs;
  }

  ghost predicate IsRestriction(n: Held, m: Held, keep: Envelope -> bool) {
    && (forall h :: h in n <==> h in m && keep(m[h]))
    && (forall h :: h in n ==> n[h] == m[h])
  }

  /** Selecting by address restricts the held set. */
  lemma {:induction false} KeepHeld(s: Scheme, envs: seq<Envelope>, keep: Envelope -> bool)
    requires ByAddress(s, keep)
    ensures IsRestriction(ByHash(s, Keep(envs, keep)), ByHash(s, envs), keep)
  {
    if envs != [] {
      var pre, e := envs[..|envs| - 1], envs[|envs| - 1];
      KeepHeld(s, pre, keep);
      assert envs == pre + [e];
      Append(s, pre, e);
      KeptStep(s, ByHash(s, Keep(pre, keep)), ByHash(s, pre), keep, e) by {
        HeldFacts(s, pre);
      }
      if keep(e) {
        assert Keep(envs, keep) == Keep(pre, keep) + [e];
        Append(s, Keep(pre, keep), e);
      } else {
        assert Keep(envs, keep) == Keep(pre, keep);
      }
    }
  }

  lemma KeptStep(s: Scheme, n: Held, m: Held, keep: Envelope -> bool, e: Envelope)
    requires ByAddress(s, keep) && IsRestriction(n, m, keep)
    requires forall h :: h in m ==> Hash(s, m[h]) == h
    ensures IsRestriction(if keep(e) then n[Hash(s, e) := e] else n, m[Hash(s, e) := e], keep)
  {
  }

  /** `p` could become the producer `h` reads from once other producers are removed. */
  ghost predicate MayFeed(s: Scheme, m: Held, h: Digest, p: Digest)
    requires h in m && p in m
  {
    && p != h
    && m[p].payload.outputHash in m[h].payload.inputHashes
    && !(m[h].payload.outputHash == m[p].payload.outputHash && s.before(h, p))
  }

  /** Every edge that some selection containing both ends can have. */
  ghost function Potential(s: Scheme, m: Held): Graph<Digest> {
    map h | h in m :: set p | p in m && (Spine(m, h, p) || MayFeed(s, m, h, p))
  }

  ghost predicate Restricts(n: Held, m: Held) {
    n.Keys <= m.Keys && forall h :: h in n ==> n[h].payload == m[h].payload
  }

  lemma SelectionEdges(s: Scheme, m: Held, n: Held)
    requires WellOrdered(s) && Restricts(n, m)
    ensures forall h :: h in n ==> Parents(s, n)[h] <= Potential(s, m)[h]
  {
    Asymmetric(s.before);
    forall h, p | h in n && p in Parents(s, n)[h] ensures p in Potential(s, m)[h] {
    }
  }

  /** A potential cycle is realised by keeping just its members. */
  lemma CycleRealised(s: Scheme, m: Held, n: Held, w: seq<Digest>)
    requires WellOrdered(s) && IsCycle(Potential(s, m), w)
    requires Restricts(n, m) && n.Keys == ToSet(w)
    ensures Cyclic(Parents(s, n))
  {
    forall h | h in n ensures Parents(s, n)[h] * n.Keys != {} {
      var p := CycleSuccessor(Potential(s, m), w, h);
      assert p in ToSet(w);
      if Spine(m, h, p) {
        assert p in Parents(s, n)[h] * n.Keys;
      } else {
        SelectedProducer(s, n, h, p);
        var q :| q in n && Data(s, n, h, q);
        assert q in Parents(s, n)[h] * n.Keys;
      }
    }
    assert w[0] in ToSet(w);
    StuckIsCyclic(Parents(s, n), n.Keys);
  }

  /** Where `p` may feed `h`, some held producer does. */
  lemma SelectedProducer(s: Scheme, n: Held, h: Digest, p: Digest)
    requires WellOrdered(s) && h in n && p in n && MayFeed(s, n, h, p)
    ensures exists q :: q in n && Data(s, n, h, q)
  {
    var producers := set x | x in n && n[x].payload.outputHash == n[p].payload.outputHash;
    assert p in producers;
    MinExists(s.before, producers);
    var q :| IsMin(s.before, producers, q);
    assert q in n && Data(s, n, h, q);
  }

  /** What `verify_dag` demands of one envelope in open mode. */
  predicate Sound(s: Scheme, e: Envelope) {
    SigOk(s, e) && e.payload.inputHashes != []
  }

  lemma SelectionAccepted(s: Scheme, envs: seq<Envelope>, sub: seq<Envelope>)
    requires WellOrdered(s) && Injective(s) && ToSet(sub) <= ToSet(envs)
    requires forall e :: e in sub ==> Sound(s, e)
    requires !Cyclic(Potential(s, ByHash(s, envs)))
    ensures Accepts(s, sub, false)
  {
    var m, n := ByHash(s, envs), ByHash(s, sub);
    HeldFacts(s, envs);
    HeldFacts(s, sub);
    forall h | h in n ensures h in m && n[h].payload == m[h].payload {
      assert n[h] in ToSet(sub);
    }
    SelectionEdges(s, m, n);
    SubgraphAcyclic(Potential(s, m), Parents(s, n));
  }

  /** Exactly when every selection of a list is accepted in open mode: every envelope is sound
      and no cycle can be made by dropping producers. */
  lemma EverySelectionAccepted(s: Scheme, envs: seq<Envelope>)
    requires WellOrdered(s) && Injective(s)
    ensures (forall sub: seq<Envelope> :: ToSet(sub) <= ToSet(envs) ==> Accepts(s, sub, false))
            <==> (forall e :: e in envs ==> Sound(s, e)) && !Cyclic(Potential(s, ByHash(s, envs)))
  {
    var m := ByHash(s, envs);
    if e :| e in envs && !Sound(s, e) {
      var sub := [e];
      assert sub[..0] == [];
      assert ByHash(s, sub) == map[Hash(s, e) := e];
      assert EnvelopeFault(s, ByHash(s, sub), false, ByHash(s, sub)[Hash(s, e)]) != None;
      assert ToSet(sub) <= ToSet(envs) && !Accepts(s, sub, false);
    } else if w :| IsCycle(Potential(s, m), w) {
      var sub := CycleMembers(s, envs, w);
      assert ToSet(sub) <= ToSet(envs) && !Accepts(s, sub, false);
    } else {
      forall sub: seq<Envelope> | ToSet(sub) <= ToSet(envs) ensures Accepts(s, sub, false) {
        forall e | e in sub ensures Sound(s, e) {
          assert e in ToSet(sub);
        }
        SelectionAccepted(s, envs, sub);
      }
    }
  }

  lemma CycleMembers(s: Scheme, envs: seq<Envelope>, w: seq<Digest>) returns (sub: seq<Envelope>)
    requires WellOrdered(s) && IsCycle(Potential(s, ByHash(s, envs)), w)
    ensures ToSet(sub) <= ToSet(envs) && !Accepts(s, sub, false)
  {
    var m := ByHash(s, envs);
    var keep := (e: Envelope) => Hash(s, e) in w;
    sub := Keep(envs, keep);
    KeepHeld(s, envs, keep);
    assert ByHash(s, sub).Keys == ToSet(w) by {
      HeldFacts(s, envs);
      forall h | h in w ensures h in m {
        var p := CycleSuccessor(Potential(s, m), w, h);
      }
    }
    CycleRealised(s, m, ByHash(s, sub), w);
  }

  /** Every predecessor that a held envelope names is listed. */
  ghost predicate PredecessorsListed(s: Scheme, envs: seq<Envelope>, m: Held) {
    forall h :: h in m && m[h].payload.parentHash.Some? ==>
      exists x :: x in envs && s.hash(x.payload) == m[h].payload.parentHash.value
  }

  /** Closed acceptance is open acceptance of a list in which every named predecessor is listed: losing
      or altering an envelope that another names is always detected. */
  lemma ClosedIsOpenAndHeld(s: Scheme, envs: seq<Envelope>)
    ensures Accepts(s, envs, true) <==> Accepts(s, envs, false) && PredecessorsListed(s, envs, ByHash(s, envs))
  {
    HeldFacts(s, envs);
    var m := ByHash(s, envs);
    forall d ensures d in m <==> exists x :: x in envs && s.hash(x.payload) == d {
      if d in m {
        assert m[d] in envs && Hash(s, m[d]) == d;
      }
      if x :| x in envs && s.hash(x.payload) == d {
        assert Hash(s, x) in m;
      }
    }
    if Faultless(s, m, true) {
      forall h | h in m
        ensures EnvelopeFault(s, m, false, m[h]) == None && (m[h].payload.parentHash.Some? ==> m[h].payload.parentHash.value in m)
      {
        assert EnvelopeFault(s, m, true, m[h]) == None;
      }
    } else if PredecessorsListed(s, envs, m) {
      var h :| h in m && EnvelopeFault(s, m, true, m[h]) != None;
      assert EnvelopeFault(s, m, false, m[h]) != None;
    }
  }

  /** Held outputs are pairwise distinct. */
  ghost predicate DistinctOutputs(m: Held) {
    forall h, k :: h in m && k in m && m[h].payload.outputHash == m[k].payload.outputHash ==> h == k
  }

  /** With distinct outputs no edge can be re-pointed. */
  lemma DistinctOutputsFixEdges(s: Scheme, m: Held)
    requires DistinctOutputs(m)
    ensures Potential(s, m) == Parents(s, m)
  {
    forall h | h in m ensures Potential(s, m)[h] == Parents(s, m)[h] {
      forall p | p in m ensures IsFirstProducer(s, m, p) {
      }
    }
  }

  /** Any selection of soundly signed envelopes from an accepted list with distinct outputs
      is accepted in open mode. */
  lemma SubsetAccepted(s: Scheme, envs: seq<Envelope>, sub: seq<Envelope>)
    requires WellOrdered(s) && Injective(s)
    requires Accepts(s, envs, false) && DistinctOutputs(ByHash(s, envs))
    requires ToSet(sub) <= ToSet(envs) && forall e :: e in sub ==> SigOk(s, e)
    ensures Accepts(s, sub, false)
  {
    var m := ByHash(s, envs);
    DistinctOutputsFixEdges(s, m);
    HeldFacts(s, envs);
    forall e | e in sub ensures Sound(s, e) {
      assert e in ToSet(sub);
      assert EnvelopeFault(s, m, false, m[Hash(s, e)]) == None;
    }
    SelectionAccepted(s, envs, sub);
  }

  /** `a` and `b` make the same output, `a` first; `c` reads it and `b` reads from `c`. */
  ghost predicate Repointable(s: Scheme, a: Envelope, b: Envelope, c: Envelope) {
    && Sound(s, a) && Sound(s, b) && Sound(s, c)
    && a.payload.parentHash == b.payload.parentHash == c.payload.parentHash == None
    && a.payload.outputHash == b.payload.outputHash != c.payload.outputHash
    && s.before(Hash(s, a), Hash(s, b)) && Hash(s, c) != Hash(s, a) && Hash(s, c) != Hash(s, b)
    && a.payload.outputHash !in a.payload.inputHashes && c.payload.outputHash !in a.payload.inputHashes
    && b.payload.inputHashes == [c.payload.outputHash]
    && c.payload.inputHashes == [a.payload.outputHash]
  }

  /** Without distinct outputs an accepted history can lose validity by losing an envelope:
      once the first producer `a` is gone, `c` reads from `b`, which reads from `c`. */
  lemma DroppedProducerMakesCycle(s: Scheme, a: Envelope, b: Envelope, c: Envelope)
    requires WellOrdered(s) && Repointable(s, a, b, c)
    ensures (Accepts(s, [a, b, c], false), Accepts(s, [b, c], false)) == (true, false)
  {
    ThreeHeld(s, a, b, c);
    RepointableAccepted(s, a, b, c, ByHash(s, [a, b, c]));
    RepointedCyclic(s, a, b, c, ByHash(s, [b, c]));
  }

  lemma RepointedCyclic(s: Scheme, a: Envelope, b: Envelope, c: Envelope, n: Held)
    requires WellOrdered(s) && Repointable(s, a, b, c)
    requires n == map[Hash(s, b) := b, Hash(s, c) := c]
    ensures Cyclic(Parents(s, n))
  {
    var hb, hc := Hash(s, b), Hash(s, c);
    assert n[hb] == b && n[hc] == c;
    assert IsFirstProducer(s, n, hb) && IsFirstProducer(s, n, hc);
    assert Data(s, n, hb, hc) && Data(s, n, hc, hb);
    assert IsCycle(Parents(s, n), [hb, hc, hb]);
  }

  lemma RepointableAccepted(s: Scheme, a: Envelope, b: Envelope, c: Envelope, m: Held)
    requires WellOrdered(s) && Repointable(s, a, b, c)
    requires m == map[Hash(s, a) := a, Hash(s, b) := b, Hash(s, c) := c]
    ensures HeldOk(s, m, false)
  {
    var ha, hb, hc := Hash(s, a), Hash(s, b), Hash(s, c);
    assert ha != hb && !s.before(hb, ha) by {
      Asymmetric(s.before);
    }
    assert m[ha] == a && m[hb] == b && m[hc] == c;
    assert !IsFirstProducer(s, m, hb);
    assert ParentSet(s, m, ha) == {};
    assert ParentSet(s, m, hc) <= {ha};
    assert ParentSet(s, m, hb) <= {hc};
    ThreeInARow(Parents(s, m), ha, hc, hb);
  }

  lemma ThreeHeld(s: Scheme, a: Envelope, b: Envelope, c: Envelope)
    ensures ByHash(s, [b, c]) == map[Hash(s, b) := b, Hash(s, c) := c]
    ensures ByHash(s, [a, b, c]) == map[Hash(s, a) := a, Hash(s, b) := b, Hash(s, c) := c]
  {
    assert [b, c] == ([] + [b]) + [c] && [a, b, c] == (([] + [a]) + [b]) + [c];
    Append(s, [], b);
    Append(s, [] + [b], c);
    Append(s, [], a);
    Append(s, [] + [a], b);
    Append(s, ([] + [a]) + [b], c);
  }

  // ------------------------------------------------------------------
  // Chains as DAGs
  // ------------------------------------------------------------------

  ghost function Addresses(s: Scheme, chain: seq<Envelope>): seq<Digest> {
    seq(|chain|, i requires 0 <= i < |chain| => Hash(s, chain[i]))
  }

  /** No envelope's input resolves to an envelope later in the chain. */
  ghost predicate ReadsBackward(s: Scheme, chain: seq<Envelope>) {
    var m := ByHash(s, chain);
    forall i, j :: 0 <= i < j < |chain| && Hash(s, chain[i]) in m && Hash(s, chain[j]) in m ==>
      !Data(s, m, Hash(s, chain[i]), Hash(s, chain[j]))
  }

  lemma ChainHeld(s: Scheme, chain: seq<Envelope>)
    requires Injective(s) && ChainOk(s, chain)
    ensures var o, m := Addresses(s, chain), ByHash(s, chain);
            && Distinct(o) && ToSet(o) == m.Keys
            && forall i :: 0 <= i < |chain| ==> o[i] in m && m[o[i]] == chain[i]
  {
    var o, m := Addresses(s, chain), ByHash(s, chain);
    HeldFacts(s, chain);
    forall i, j | 0 <= i < j < |o| ensures o[i] != o[j] {
      ChainHasNoRepeats(s, chain, i, j);
    }
    forall i | 0 <= i < |chain| ensures o[i] in m && m[o[i]] == chain[i] {
      assert chain[i] in chain;
      var k :| 0 <= k < |chain| && chain[k] == m[o[i]];
      assert o[k] == o[i];
    }
    forall h | h in m ensures h in ToSet(o) {
      var k :| 0 <= k < |chain| && chain[k] == m[h];
      assert o[k] == h;
    }
  }

  /** The graph of an accepted chain contains its spine; what else it contains is data edges. */
  lemma ChainGraph(s: Scheme, chain: seq<Envelope>)
    requires Injective(s) && ChainOk(s, chain)
    ensures var o, g := Addresses(s, chain), Parents(s, ByHash(s, chain));
            && IsSpanningPath(g, o)
            && (Backward(g, o) <==> ReadsBackward(s, chain))
  {
    ChainHeld(s, chain);
    var o, m := Addresses(s, chain), ByHash(s, chain);
    forall i, j | 0 <= i < |o| && 0 <= j < |o|
      ensures o[j] in ParentSet(s, m, o[i]) <==> j == i - 1 || Data(s, m, o[i], o[j])
    {
      ChainEdge(s, chain, i, j);
    }
  }

  lemma ChainEdge(s: Scheme, chain: seq<Envelope>, i: nat, j: nat)
    requires Injective(s) && ChainOk(s, chain)
    requires i < |chain| && j < |chain|
    ensures var o, m := Addresses(s, chain), ByHash(s, chain);
            o[i] in m && o[j] in m && (o[j] in ParentSet(s, m, o[i]) <==> j == i - 1 || Data(s, m, o[i], o[j]))
  {
    ChainHeld(s, chain);
    assert HopOk(s, chain, i);
  }

  /** The chain verifier and the closed DAG verifier agree on an accepted chain exactly when no
      input resolves to a later envelope. */
  lemma ChainAcceptedAsDag(s: Scheme, chain: seq<Envelope>)
    requires Injective(s) && ChainOk(s, chain)
    ensures Accepts(s, chain, true) <==> ReadsBackward(s, chain)
  {
    ChainGraph(s, chain);
    PathAcyclicIff(Parents(s, ByHash(s, chain)), Addresses(s, chain));
    ChainFaultless(s, chain);
  }

  lemma ChainFaultless(s: Scheme, chain: seq<Envelope>)
    requires Injective(s) && ChainOk(s, chain)
    ensures Faultless(s, ByHash(s, chain), true)
  {
    ChainHeld(s, chain);
    var o, m := Addresses(s, chain), ByHash(s, chain);
    forall h | h in m ensures EnvelopeFault(s, m, true, m[h]) == None {
      assert h in ToSet(o);
      var i :| 0 <= i < |o| && o[i] == h;
      assert HopOk(s, chain, i);
      assert i > 0 ==> o[i - 1] in m;
    }
  }

  /** When they agree, the report on the chain is the chain itself, one root and one leaf. */
  lemma ChainReport(s: Scheme, chain: seq<Envelope>, order: seq<Envelope>, roots: seq<Digest>, leaves: seq<Digest>)
    requires WellOrdered(s) && Injective(s)
    requires ChainOk(s, chain) && chain != [] && ReadsBackward(s, chain)
    requires Reports(s, ByHash(s, chain), order, roots, leaves)
    ensures order == chain
    ensures roots == [Hash(s, chain[0])]
    ensures leaves == [Hash(s, chain[|chain| - 1])]
  {
    var o, m := Addresses(s, chain), ByHash(s, chain);
    ChainOrder(s, chain, order);
    ChainGraph(s, chain);
    PathEnds(Parents(s, m), o);
    SortedUnique(s.before, roots, [o[0]]);
    SortedUnique(s.before, leaves, [o[|o| - 1]]);
  }

  lemma ChainOrder(s: Scheme, chain: seq<Envelope>, order: seq<Envelope>)
    requires Injective(s) && ChainOk(s, chain)
    requires exists p :: OrderOf(s, ByHash(s, chain), p, order)
    ensures order == chain
  {
    var o, m := Addresses(s, chain), ByHash(s, chain);
    var p :| OrderOf(s, m, p, order);
    assert o == p by {
      ChainGraph(s, chain);
      PathIsOnlyOrder(Parents(s, m), o, p);
    }
    forall i | 0 <= i < |chain| ensures order[i] == chain[i] {
      ChainHeld(s, chain);
    }
  }

  /** A caller-visible sufficient condition: nothing consumes an output produced later. */
  lemma NoForwardInputs(s: Scheme, chain: seq<Envelope>)
    requires Injective(s) && ChainOk(s, chain)
    requires forall i, j :: 0 <= i < j < |chain| ==> chain[j].payload.outputHash !in chain[i].payload.inputHashes
    ensures ReadsBackward(s, chain)
  {
    ChainHeld(s, chain);
  }
}
