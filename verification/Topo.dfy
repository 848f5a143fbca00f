/** `_topo_order` of gyza/icp.py: Kahn's algorithm over a parents map, the ready set being a
    min-heap on the keys. Generic in the key type; provenance uses hex digests. */
module Topo {
  import opened Common

  type Graph<K> = map<K, set<K>>

  /** Every parent is itself a key, as `children[p].append(h)` demands. */
  ghost predicate Closed<K>(g: Graph<K>) {
    forall h :: h in g ==> g[h] <= g.Keys
  }

  /** A walk follows parent edges. */
  ghost predicate IsWalk<K>(g: Graph<K>, w: seq<K>) {
    forall i :: 0 <= i < |w| - 1 ==> w[i] in g && w[i + 1] in g[w[i]]
  }

  ghost predicate IsCycle<K>(g: Graph<K>, w: seq<K>) {
    |w| >= 2 && w[0] == w[|w| - 1] && IsWalk(g, w)
  }

  ghost predicate Cyclic<K(!new)>(g: Graph<K>) {
    exists w :: IsCycle(g, w)
  }

  /** `o` lists every key once, every parent before its children. */
  ghost predicate IsTopological<K>(g: Graph<K>, o: seq<K>) {
    && Distinct(o)
    && ToSet(o) == g.Keys
    && forall i :: 0 <= i < |o| ==> g[o[i]] <= ToSet(o[..i])
  }

  /** `a` precedes or equals `b` in the lexicographic order on sequences of keys. */
  ghost predicate LexLe<K>(lt: (K, K) -> bool, a: seq<K>, b: seq<K>) {
    a == [] || (b != [] && (lt(a[0], b[0]) || (a[0] == b[0] && LexLe(lt, a[1..], b[1..]))))
  }

  ghost predicate IsLeastTopological<K(!new)>(lt: (K, K) -> bool, g: Graph<K>, o: seq<K>) {
    && IsTopological(g, o)
    && forall p :: IsTopological(g, p) ==> LexLe(lt, o, p)
  }

  /** The keys outside `done` all of whose parents are in `done`. */
  ghost function Ready<K>(g: Graph<K>, done: set<K>): set<K> {
    set h | h in g && h !in done && g[h] <= done
  }

  /** Each listed key was the least ready one when it was listed. */
  ghost predicate Greedy<K>(lt: (K, K) -> bool, g: Graph<K>, o: seq<K>) {
    forall i :: 0 <= i < |o| ==> IsMin(lt, Ready(g, ToSet(o[..i])), o[i])
  }

  /** Keys without parents. */
  ghost function Sources<K>(g: Graph<K>): set<K> {
    set h | h in g && g[h] == {}
  }

  /** Keys that are nobody's parent. */
  ghost function Sinks<K>(g: Graph<K>): set<K> {
    set h | h in g && forall c :: c in g ==> h !in g[c]
  }

  // ------------------------------------------------------------------
  // Facts about the specification
  // ------------------------------------------------------------------

  /** A topological order rules out cycles: positions strictly drop along a walk. */
  lemma OrderedIsAcyclic<K(!new)>(g: Graph<K>, o: seq<K>)
    requires IsTopological(g, o)
    ensures !Cyclic(g)
  {
    forall w | IsCycle(g, w) ensures false {
      assert w[0] in ToSet(o);
      var i :| 0 <= i < |o| && o[i] == w[0];
      WalkDescends(g, o, w, i);
    }
  }

  lemma {:induction false} WalkDescends<K>(g: Graph<K>, o: seq<K>, w: seq<K>, i: nat)
    requires IsTopological(g, o)
    requires |w| >= 2 && IsWalk(g, w)
    requires i < |o| && o[i] == w[0]
    ensures w[|w| - 1] in ToSet(o[..i])
    decreases |w|
  {
    assert w[1] in g[o[i]];
    assert w[1] in o[..i];
    if |w| > 2 {
      var j :| 0 <= j < i && o[j] == w[1];
      WalkDescends(g, o, w[1..], j);
      assert w[1..][|w| - 2] == w[|w| - 1];
      assert ToSet(o[..j]) <= ToSet(o[..i]);
    }
  }

  /** Every member of a cycle has a successor on it. */
  lemma CycleSuccessor<K>(g: Graph<K>, w: seq<K>, h: K) returns (p: K)
    requires IsCycle(g, w) && h in w
    ensures h in g && p in g[h] && p in w
  {
    var i :| 0 <= i < |w| && w[i] == h;
    var j := if i < |w| - 1 then i else 0;
    p := w[j + 1];
  }

  /** If every member of a non-empty set of keys has a parent in the set, there is a cycle. */
  lemma StuckIsCyclic<K(!new)>(g: Graph<K>, rest: set<K>)
    requires rest != {} && rest <= g.Keys
    requires forall h :: h in rest ==> g[h] * rest != {}
    ensures Cyclic(g)
  {
    var w := WalkWithin(g, rest, |rest|);
    var i, j := Pigeonhole(w, rest);
    assert IsCycle(g, w[i..j + 1]);
  }

  lemma WalkWithin<K>(g: Graph<K>, rest: set<K>, n: nat) returns (w: seq<K>)
    requires rest != {} && rest <= g.Keys
    requires forall h :: h in rest ==> g[h] * rest != {}
    ensures |w| == n + 1 && IsWalk(g, w)
    ensures forall k :: 0 <= k < |w| ==> w[k] in rest
  {
    if n == 0 {
      var h :| h in rest;
      w := [h];
    } else {
      var v := WalkWithin(g, rest, n - 1);
      var p :| p in g[v[n - 1]] * rest;
      w := v + [p];
    }
  }

  /** Greedy listings agree on their common length. */
  lemma {:induction false} GreedyPrefix<K(!new)>(lt: (K, K) -> bool, g: Graph<K>, a: seq<K>, b: seq<K>, n: nat)
    requires StrictTotalOrder(lt)
    requires Greedy(lt, g, a) && Greedy(lt, g, b)
    requires n <= |a| && n <= |b|
    ensures a[..n] == b[..n]
  {
    if n > 0 {
      GreedyPrefix(lt, g, a, b, n - 1);
      var x, y := a[n - 1], b[n - 1];
      assert Compared(lt, x, y);
      assert lt(x, y) && lt(y, x) ==> Chain(lt, x, y, x);
      assert x == y;
      assert a[..n] == a[..n - 1] + [x] && b[..n] == b[..n - 1] + [y];
    }
  }

  /** A greedy listing of all keys is topological, and least among all topological orders. */
  lemma GreedyIsLeast<K(!new)>(lt: (K, K) -> bool, g: Graph<K>, o: seq<K>)
    requires StrictTotalOrder(lt)
    requires Greedy(lt, g, o) && ToSet(o) == g.Keys
    ensures IsLeastTopological(lt, g, o)
  {
    assert Distinct(o) by {
      forall i, j | 0 <= i < j < |o| ensures o[i] != o[j] {
        assert o[..j][i] == o[i];
        assert o[j] in Ready(g, ToSet(o[..j]));
      }
    }
    forall i | 0 <= i < |o| ensures g[o[i]] <= ToSet(o[..i]) {
      assert o[i] in Ready(g, ToSet(o[..i]));
    }
    forall p | IsTopological(g, p) ensures LexLe(lt, o, p) {
      DistinctCardinality(o);
      DistinctCardinality(p);
      GreedyBelow(lt, g, o, p, 0);
      assert o[0..] == o && p[0..] == p;
    }
  }

  lemma {:induction false} GreedyBelow<K(!new)>(lt: (K, K) -> bool, g: Graph<K>, o: seq<K>, p: seq<K>, n: nat)
    requires Greedy(lt, g, o) && IsTopological(g, p) && |o| == |p|
    requires n <= |o| && o[..n] == p[..n]
    ensures LexLe(lt, o[n..], p[n..])
    decreases |o| - n
  {
    if n == |o| {
    } else if o[n] == p[n] {
      assert o[..n + 1] == o[..n] + [o[n]] && p[..n + 1] == p[..n] + [p[n]];
      GreedyBelow(lt, g, o, p, n + 1);
      assert o[n..][1..] == o[n + 1..] && p[n..][1..] == p[n + 1..];
    } else {
      assert p[n] in ToSet(p) && p[n] !in ToSet(p[..n]);
      assert p[n] in Ready(g, ToSet(o[..n]));
      assert IsMin(lt, Ready(g, ToSet(o[..n])), o[n]);
    }
  }

  lemma {:induction false} LexAntisymmetric<K(!new)>(lt: (K, K) -> bool, a: seq<K>, b: seq<K>)
    requires StrictTotalOrder(lt)
    requires LexLe(lt, a, b) && LexLe(lt, b, a)
    ensures a == b
  {
    Asymmetric(lt);
    if a != [] {
      LexAntisymmetric(lt, a[1..], b[1..]);
      assert a == [a[0]] + a[1..] && b == [b[0]] + b[1..];
    }
  }

  /** The least topological order is unique. */
  lemma LeastUnique<K(!new)>(lt: (K, K) -> bool, g: Graph<K>, a: seq<K>, b: seq<K>)
    requires StrictTotalOrder(lt)
    requires IsLeastTopological(lt, g, a) && IsLeastTopological(lt, g, b)
    ensures a == b
  {
    assert LexLe(lt, a, b) && LexLe(lt, b, a);
    LexAntisymmetric(lt, a, b);
  }

  /** Removing keys and edges keeps a graph acyclic. */
  lemma SubgraphAcyclic<K(!new)>(g: Graph<K>, sub: Graph<K>)
    requires !Cyclic(g)
    requires sub.Keys <= g.Keys
    requires forall h :: h in sub ==> sub[h] <= g[h]
    ensures !Cyclic(sub)
  {
    forall w | IsCycle(sub, w) ensures false {
      assert IsCycle(g, w);
    }
  }

  // ------------------------------------------------------------------
  // The algorithm
  // ------------------------------------------------------------------

  /** No member of `done` has a parent outside `done`. */
  ghost predicate DownClosed<K>(g: Graph<K>, done: set<K>) {
    forall d :: d in done ==> d in g && g[d] <= done
  }

  /** The members of `cs` all of whose parents are in `done`. */
  ghost function Freed<K>(g: Graph<K>, done: set<K>, cs: set<K>): set<K> {
    set c | c in cs && c in g && g[c] <= done
  }

  function Children<K>(g: Graph<K>, h: K): set<K> {
    set c | c in g && h in g[c]
  }

  /** The size of `s - done`, as a recursive count. */
  ghost function Left<K>(s: set<K>, done: set<K>): nat
    decreases s - done
  {
    if s <= done then 0 else var x :| x in s && x !in done; 1 + Left(s, done + {x})
  }

  lemma {:induction false} LeftIsSize<K>(s: set<K>, done: set<K>)
    ensures Left(s, done) == |s - done|
    decreases s - done
  {
    if s <= done {
      assert s - done == {};
    } else {
      var x :| x in s && x !in done && Left(s, done) == 1 + Left(s, done + {x});
      LeftIsSize(s, done + {x});
      assert s - done == (s - (done + {x})) + {x};
    }
  }

  lemma ChildDrops<K>(s: set<K>, done: set<K>, next: set<K>, h: K)
    requires h in s && h !in done && next == done + {h}
    ensures Left(s, done) == Left(s, next) + 1
    ensures Left(s, next) == 0 <==> s <= next
  {
    LeftIsSize(s, done);
    LeftIsSize(s, next);
    assert s - done == (s - next) + {h};
  }

  lemma OthersKeep<K>(s: set<K>, done: set<K>, next: set<K>, h: K)
    requires h !in s && next == done + {h}
    ensures Left(s, done) == Left(s, next)
  {
    LeftIsSize(s, done);
    LeftIsSize(s, next);
    assert s - done == s - next;
  }

  /** How many parents of each key are still to be listed. */
  ghost function Missing<K>(g: Graph<K>, done: set<K>): map<K, int> {
    map k | k in g :: Left(g[k], done)
  }

  /** What listing `h` does to the ready set. */
  lemma ReadyAfter<K>(g: Graph<K>, done: set<K>, next: set<K>, h: K)
    requires DownClosed(g, done) && h in Ready(g, done) && next == done + {h}
    ensures DownClosed(g, next)
    ensures Ready(g, next) == (Ready(g, done) - {h}) + Freed(g, next, Children(g, h))
  {
  }

  /** What listing `h` does to the counts. */
  lemma CountsAfter<K>(g: Graph<K>, done: set<K>, next: set<K>, h: K)
    requires h !in done && next == done + {h}
    ensures forall c :: c in Children(g, h) ==>
              Missing(g, done)[c] == Missing(g, next)[c] + 1
              && (Missing(g, next)[c] == 0 <==> c in Freed(g, next, Children(g, h)))
    ensures forall k :: k in g && k !in Children(g, h) ==> Missing(g, done)[k] == Missing(g, next)[k]
  {
    forall c | c in Children(g, h)
      ensures Missing(g, done)[c] == Missing(g, next)[c] + 1
      ensures Missing(g, next)[c] == 0 <==> c in Freed(g, next, Children(g, h))
    {
      ChildDrops(g[c], done, next, h);
    }
    forall k | k in g && k !in Children(g, h) ensures Missing(g, done)[k] == Missing(g, next)[k] {
      OthersKeep(g[k], done, next, h);
    }
  }

  /** The inner loop: lower the in-degree of each child of the key just listed and push
      those that reach zero. Children are visited in any order; the heap sorts them. */
  method Relax<K(==)>(children: set<K>, indeg0: map<K, int>, ready0: set<K>,
                      ghost after: map<K, int>, ghost freed: set<K>)
    returns (indeg: map<K, int>, ready: set<K>)
    requires children <= indeg0.Keys == after.Keys && freed <= children
    requires forall c :: c in children ==> indeg0[c] == after[c] + 1 && (after[c] == 0 <==> c in freed)
    requires forall k :: k in after && k !in children ==> indeg0[k] == after[k]
    ensures indeg == after
    ensures ready == ready0 + freed
  {
    indeg, ready := indeg0, ready0;
    var todo := children;
    while todo != {}
      invariant todo <= children
      invariant indeg.Keys == after.Keys
      invariant forall k :: k in after ==> indeg[k] == if k in todo then after[k] + 1 else after[k]
      invariant ready == ready0 + (freed - todo)
      decreases todo
    {
      var c :| c in todo;
      indeg := indeg[c := indeg[c] - 1];
      todo := todo - {c};
      if indeg[c] == 0 {
        ready := ready + {c};
      }
    }
  }

  /** Kahn's algorithm: `None` exactly on a cyclic graph, otherwise the lexicographically
      least topological order. */
  method TopoOrder<K(==, !new)>(lt: (K, K) -> bool, g: Graph<K>) returns (r: Option<seq<K>>)
    requires StrictTotalOrder(lt)
    requires Closed(g)
    ensures r.None? <==> Cyclic(g)
    ensures r.Some? ==> IsLeastTopological(lt, g, r.value)
  {
    var indeg, ready := Start(g);
    var order: seq<K> := [];
    assert ToSet(order) == {};
    while ready != {}
      invariant Progress(lt, g, order)
      invariant indeg == Missing(g, ToSet(order))
      invariant ready == Ready(g, ToSet(order))
      decreases g.Keys - ToSet(order)
    {
      var h := PopMin(lt, ready);
      KahnStep(lt, g, order, h);
      ghost var next := ToSet(order + [h]);
      indeg, ready := Relax(Children(g, h), indeg, ready - {h}, Missing(g, next), Freed(g, next, Children(g, h)));
      order := order + [h];
    }
    KahnEnds(lt, g, order);
    return if |order| != |g| then None else Some(order);
  }

  ghost predicate Progress<K>(lt: (K, K) -> bool, g: Graph<K>, order: seq<K>) {
    Greedy(lt, g, order) && Distinct(order) && DownClosed(g, ToSet(order))
  }

  /** Listing the least ready key keeps the loop invariant. */
  lemma KahnStep<K(!new)>(lt: (K, K) -> bool, g: Graph<K>, order: seq<K>, h: K)
    requires Progress(lt, g, order) && IsMin(lt, Ready(g, ToSet(order)), h)
    ensures Progress(lt, g, order + [h])
    ensures ToSet(order + [h]) == ToSet(order) + {h} && h !in ToSet(order) && h in g
    ensures var done, next, cs := ToSet(order), ToSet(order + [h]), Children(g, h);
            && Ready(g, next) == (Ready(g, done) - {h}) + Freed(g, next, cs)
            && (forall c :: c in cs ==> Missing(g, done)[c] == Missing(g, next)[c] + 1
                                        && (Missing(g, next)[c] == 0 <==> c in Freed(g, next, cs)))
            && (forall k :: k in g && k !in cs ==> Missing(g, done)[k] == Missing(g, next)[k])
  {
    GreedyExtends(lt, g, order, h);
    ReadyAfter(g, ToSet(order), ToSet(order + [h]), h);
    CountsAfter(g, ToSet(order), ToSet(order + [h]), h);
  }

  /** The heap is empty: either every key was listed, or the rest are stuck on a cycle. */
  lemma KahnEnds<K(!new)>(lt: (K, K) -> bool, g: Graph<K>, order: seq<K>)
    requires StrictTotalOrder(lt) && Closed(g)
    requires Progress(lt, g, order) && Ready(g, ToSet(order)) == {}
    ensures |order| != |g| ==> Cyclic(g)
    ensures |order| == |g| ==> !Cyclic(g) && IsLeastTopological(lt, g, order)
  {
    DistinctCardinality(order);
    SubsetCardinality(ToSet(order), g.Keys);
    if ToSet(order) == g.Keys {
      GreedyIsLeast(lt, g, order);
      OrderedIsAcyclic(g, order);
    } else {
      KahnStuck(g, ToSet(order));
    }
  }

  /** Initial in-degrees, and the keys with none. */
  method Start<K(==)>(g: Graph<K>) returns (indeg: map<K, int>, ready: set<K>)
    ensures indeg == Missing(g, {}) && ready == Ready(g, {})
  {
    indeg := map h | h in g :: |g[h]|;
    ready := set h | h in g && indeg[h] == 0;
    forall h | h in g ensures indeg[h] == Left(g[h], {}) && (indeg[h] == 0 <==> g[h] <= {}) {
      LeftIsSize(g[h], {});
      assert g[h] - {} == g[h];
    }
  }

  lemma GreedyExtends<K>(lt: (K, K) -> bool, g: Graph<K>, o: seq<K>, h: K)
    requires Greedy(lt, g, o) && IsMin(lt, Ready(g, ToSet(o)), h)
    ensures Greedy(lt, g, o + [h]) && ToSet(o + [h]) == ToSet(o) + {h}
  {
    var n := o + [h];
    forall i | 0 <= i < |n| ensures IsMin(lt, Ready(g, ToSet(n[..i])), n[i]) {
      assert n[..i] == o[..i];
      if i == |o| {
        assert o[..i] == o;
      }
    }
  }

  /** Nothing ready while keys remain: the remaining keys are stuck on one another. */
  lemma KahnStuck<K(!new)>(g: Graph<K>, done: set<K>)
    requires Closed(g)
    requires done < g.Keys && Ready(g, done) == {}
    ensures Cyclic(g)
  {
    var rest := g.Keys - done;
    forall h | h in rest ensures g[h] * rest != {} {
      assert h !in Ready(g, done);
      var p :| p in g[h] && p !in done;
      assert p in g[h] * rest;
    }
    StuckIsCyclic(g, rest);
  }

  // ------------------------------------------------------------------
  // Graphs that contain a path through all keys
  // ------------------------------------------------------------------

  /** `o` lists the keys, each one a parent of the next. */
  ghost predicate IsSpanningPath<K>(g: Graph<K>, o: seq<K>) {
    && Distinct(o) && ToSet(o) == g.Keys && Closed(g)
    && (forall i :: 0 <= i < |o| ==> o[i] in g)
    && (forall i :: 0 < i < |o| ==> o[i - 1] in g[o[i]])
  }

  /** No key has itself or a later key as parent. */
  ghost predicate Backward<K>(g: Graph<K>, o: seq<K>)
    requires forall i :: 0 <= i < |o| ==> o[i] in g
  {
    forall i, j :: 0 <= i <= j < |o| ==> o[j] !in g[o[i]]
  }

  lemma PathTopological<K>(g: Graph<K>, o: seq<K>)
    requires IsSpanningPath(g, o) && Backward(g, o)
    ensures IsTopological(g, o)
  {
    forall i | 0 <= i < |o| ensures g[o[i]] <= ToSet(o[..i]) {
      forall p | p in g[o[i]] ensures p in ToSet(o[..i]) {
        assert p in ToSet(o);
        var j :| 0 <= j < |o| && o[j] == p;
        assert o[..i][j] == p;
      }
    }
  }

  /** Going back along the path and forward by one edge closes a cycle. */
  lemma ForwardEdgeCycle<K(!new)>(g: Graph<K>, o: seq<K>, i: nat, j: nat)
    requires IsSpanningPath(g, o) && i <= j < |o| && o[j] in g[o[i]]
    ensures Cyclic(g)
  {
    var w := [o[i]] + seq(j - i + 1, k requires 0 <= k <= j - i => o[j - k]);
    forall k | 0 <= k < |w| - 1 ensures w[k] in g && w[k + 1] in g[w[k]] {
      if k > 0 {
        assert w[k] == o[j - k + 1] && w[k + 1] == o[j - k];
      }
    }
    assert IsCycle(g, w);
  }

  lemma PathAcyclicIff<K(!new)>(g: Graph<K>, o: seq<K>)
    requires IsSpanningPath(g, o)
    ensures !Cyclic(g) <==> Backward(g, o)
  {
    if Backward(g, o) {
      PathTopological(g, o);
      OrderedIsAcyclic(g, o);
    } else {
      var i, j :| 0 <= i <= j < |o| && o[j] in g[o[i]];
      ForwardEdgeCycle(g, o, i, j);
    }
  }

  /** A spanning path is the only topological order. */
  lemma {:induction false} PathOrderUnique<K>(g: Graph<K>, o: seq<K>, p: seq<K>, n: nat)
    requires IsSpanningPath(g, o) && IsTopological(g, p)
    requires n <= |o| && n <= |p|
    ensures o[..n] == p[..n]
  {
    if n > 0 {
      PathOrderUnique(g, o, p, n - 1);
      var k := PathNext(g, o, p, n - 1);
      assert o[..n] == o[..n - 1] + [o[n - 1]] && p[..n] == p[..n - 1] + [p[n - 1]];
    }
  }

  lemma PathIsOnlyOrder<K>(g: Graph<K>, o: seq<K>, p: seq<K>)
    requires IsSpanningPath(g, o) && IsTopological(g, p)
    ensures o == p
  {
    DistinctCardinality(o);
    DistinctCardinality(p);
    PathOrderUnique(g, o, p, |o|);
    assert o[..|o|] == o && p[..|o|] == p;
  }

  lemma PathNext<K>(g: Graph<K>, o: seq<K>, p: seq<K>, n: nat) returns (k: nat)
    requires IsSpanningPath(g, o) && IsTopological(g, p)
    requires n < |o| && n < |p| && o[..n] == p[..n]
    ensures k == n && p[n] == o[n]
  {
    assert p[n] in ToSet(p);
    k :| 0 <= k < |o| && o[k] == p[n];
    assert forall q :: 0 <= q < n ==> o[..n][q] == p[..n][q] && p[q] != p[n];
    if k > 0 {
      assert o[k - 1] in g[p[n]];
      assert o[k - 1] in ToSet(o[..n]);
    }
  }

  lemma PathEndAt<K>(g: Graph<K>, o: seq<K>, i: nat)
    requires IsSpanningPath(g, o) && IsTopological(g, o) && i < |o|
    ensures g[o[i]] == {} <==> i == 0
    ensures o[i] in Sinks(g) <==> i == |o| - 1
  {
    assert g[o[0]] <= ToSet(o[..0]);
    assert i > 0 ==> o[i - 1] in g[o[i]];
    if i < |o| - 1 {
      assert o[i] in g[o[i + 1]];
    } else {
      forall c | c in g ensures o[i] !in g[c] {
        assert c in ToSet(o);
        var j :| 0 <= j < |o| && o[j] == c;
        assert o[i] !in o[..j];
      }
    }
  }

  /** On a spanning path the first key is the only root and the last the only leaf. */
  lemma PathEnds<K>(g: Graph<K>, o: seq<K>)
    requires IsSpanningPath(g, o) && Backward(g, o) && o != []
    ensures Sources(g) == ToSet([o[0]]) && Sinks(g) == ToSet([o[|o| - 1]])
  {
    PathTopological(g, o);
    forall i | 0 <= i < |o|
      ensures g[o[i]] == {} <==> i == 0
      ensures o[i] in Sinks(g) <==> i == |o| - 1
    {
      PathEndAt(g, o, i);
    }
    OnlyAt(o, Sources(g), 0);
    OnlyAt(o, Sinks(g), |o| - 1);
  }

  lemma OnlyAt<K>(o: seq<K>, s: set<K>, k: nat)
    requires k < |o| && s <= ToSet(o)
    requires forall i :: 0 <= i < |o| ==> (o[i] in s <==> i == k)
    ensures s == ToSet([o[k]])
  {
    forall x | x in s ensures x == o[k] {
      assert x in ToSet(o);
    }
  }

  /** Three keys in a row, edges pointing back at most one place. */
  lemma ThreeInARow<K(!new)>(g: Graph<K>, x: K, y: K, z: K)
    requires x != y && y != z && z != x
    requires g.Keys == {x, y, z} && g[x] == {} && g[y] <= {x} && g[z] <= {y}
    ensures !Cyclic(g)
  {
    var o := [x, y, z];
    assert o[..0] == [] && o[..1] == [x] && o[..2] == [x, y];
    assert IsTopological(g, o);
    OrderedIsAcyclic(g, o);
  }
}
