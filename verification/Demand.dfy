/** gyza/demand.py: neighbouring buckets by Hamming radius, demand signals per bucket, and the
    deficit an agent sees around its own bucket. Rewards and age factors are reals. The
    random-hyperplane hash is a parameter that yields 64-bit words. */
module Demand {
  import opened Common
  import opened Bits

  // ------------------------------------------------------------------
  // combinations(range(n), r)
  // ------------------------------------------------------------------

  /** The increasing `r`-tuples over [lo, n), in lexicographic order. */
  function Combinations(lo: nat, n: nat, r: nat): seq<seq<nat>>
    decreases n - lo
  {
    if r == 0 then [[]]
    else if lo >= n then []
    else Prefixed(lo, Combinations(lo + 1, n, r - 1)) + Combinations(lo + 1, n, r)
  }

  function Prefixed(x: nat, cs: seq<seq<nat>>): (r: seq<seq<nat>>)
    ensures |r| == |cs| && forall i :: 0 <= i < |cs| ==> r[i] == [x] + cs[i]
  {
    seq(|cs|, i requires 0 <= i < |cs| => [x] + cs[i])
  }

  /** A tuple over [lo, n) without repeats. */
  ghost predicate IsTuple(c: seq<nat>, lo: nat, n: nat, r: nat) {
    |c| == r && Distinct(c) && forall i :: 0 <= i < |c| ==> lo <= c[i] < n
  }

  lemma {:induction false} CombinationsAreTuples(lo: nat, n: nat, r: nat)
    ensures forall c :: c in Combinations(lo, n, r) ==> IsTuple(c, lo, n, r)
    decreases n - lo
  {
    if r > 0 && lo < n {
      CombinationsAreTuples(lo + 1, n, r - 1);
      CombinationsAreTuples(lo + 1, n, r);
      var first := Prefixed(lo, Combinations(lo + 1, n, r - 1));
      forall c | c in first ensures IsTuple(c, lo, n, r) {
        var i :| 0 <= i < |first| && first[i] == c;
        assert IsTuple(Combinations(lo + 1, n, r - 1)[i], lo + 1, n, r - 1);
      }
    }
  }

  /** No two tuples use the same positions. */
  ghost predicate DistinctSets(cs: seq<seq<nat>>) {
    forall i, j :: 0 <= i < j < |cs| ==> ToSet(cs[i]) != ToSet(cs[j])
  }

  lemma {:induction false} CombinationsDistinct(lo: nat, n: nat, r: nat)
    ensures DistinctSets(Combinations(lo, n, r))
    decreases n - lo
  {
    if r > 0 && lo < n {
      var a, b := Combinations(lo + 1, n, r - 1), Combinations(lo + 1, n, r);
      CombinationsDistinct(lo + 1, n, r - 1);
      CombinationsDistinct(lo + 1, n, r);
      CombinationsAreTuples(lo + 1, n, r - 1);
      CombinationsAreTuples(lo + 1, n, r);
      var all := Combinations(lo, n, r);
      forall i | 0 <= i < |a| ensures ToSet(all[i]) == {lo} + ToSet(a[i]) && lo !in ToSet(a[i]) {
        assert all[i] == [lo] + a[i];
        assert IsTuple(a[i], lo + 1, n, r - 1);
      }
      forall i | |a| <= i < |all| ensures all[i] == b[i - |a|] && lo !in ToSet(all[i]) {
        assert IsTuple(b[i - |a|], lo + 1, n, r);
      }
      forall i, j | 0 <= i < j < |all| ensures ToSet(all[i]) != ToSet(all[j]) {
        if j < |a| {
          assert ToSet(a[i]) == ToSet(all[i]) - {lo} && ToSet(a[j]) == ToSet(all[j]) - {lo};
        } else if i < |a| {
          assert lo in ToSet(all[i]);
        }
      }
    }
  }

  lemma ExtendTuple(lo: nat, n: nat, r: nat, rest: seq<nat>)
    requires lo < n && r > 0 && rest in Combinations(lo + 1, n, r - 1)
    ensures [lo] + rest in Combinations(lo, n, r)
  {
    var cs := Combinations(lo + 1, n, r - 1);
    var i :| 0 <= i < |cs| && cs[i] == rest;
    assert Prefixed(lo, cs)[i] == [lo] + rest;
    assert Combinations(lo, n, r)[i] == [lo] + rest;
  }

  lemma SkipFirst(lo: nat, n: nat, r: nat, c: seq<nat>)
    requires lo < n && r > 0 && c in Combinations(lo + 1, n, r)
    ensures c in Combinations(lo, n, r)
  {
  }

  /** Every set of positions is enumerated among the tuples of its size. */
  lemma {:induction false} CombinationFor(s: set<nat>, lo: nat, n: nat) returns (c: seq<nat>)
    requires forall p :: p in s ==> lo <= p < n
    ensures c in Combinations(lo, n, |s|) && ToSet(c) == s
    decreases n - lo
  {
    if s == {} {
      c := [];
    } else {
      var p :| p in s;
      if lo in s {
        var rest := CombinationFor(s - {lo}, lo + 1, n);
        ExtendTuple(lo, n, |s|, rest);
        c := [lo] + rest;
        assert ToSet(c) == {lo} + ToSet(rest);
      } else {
        c := CombinationFor(s, lo + 1, n);
        SkipFirst(lo, n, |s|, c);
      }
    }
  }

  // ------------------------------------------------------------------
  // neighbor_buckets
  // ------------------------------------------------------------------

  /** The mask with a one at each position of `c`. */
  function MaskOf(c: seq<nat>): nat {
    if c == [] then 0 else Or(MaskOf(c[..|c| - 1]), Shl1(c[|c| - 1]))
  }

  lemma {:induction false} MaskPositions(width: nat, c: seq<nat>)
    requires forall i :: 0 <= i < |c| ==> c[i] < width
    ensures IsWord(width, MaskOf(c)) && Positions(width, MaskOf(c)) == ToSet(c)
  {
    if c == [] {
      PositionsOfZero(width);
    } else {
      var pre, p := c[..|c| - 1], c[|c| - 1];
      MaskPositions(width, pre);
      PositionsOfOr(width, MaskOf(pre), p);
      assert c == pre + [p];
    }
  }

  /** The buckets at distance exactly `r`, in enumeration order. */
  function Shell(width: nat, bucket: nat, r: nat): seq<nat> {
    var cs := Combinations(0, width, r);
    seq(|cs|, i requires 0 <= i < |cs| => Xor(bucket, MaskOf(cs[i])))
  }

  function Ball(width: nat, bucket: nat, radius: nat): seq<nat> {
    if radius == 0 then [bucket] else Ball(width, bucket, radius - 1) + Shell(width, bucket, radius)
  }

  /** Flipping the positions of a tuple moves exactly that far. */
  lemma FlipTuple(width: nat, bucket: nat, c: seq<nat>, r: nat)
    requires IsWord(width, bucket) && IsTuple(c, 0, width, r)
    ensures var w := Xor(bucket, MaskOf(c));
            IsWord(width, w) && Positions(width, Xor(bucket, w)) == ToSet(c) && Hamming(width, bucket, w) == r
  {
    MaskPositions(width, c);
    DistinctCardinality(c);
    XorUndoes(width, bucket, MaskOf(c));
    HammingIsSize(width, bucket, Xor(bucket, MaskOf(c)));
  }

  /** Every word at distance `r` is reached by flipping some enumerated tuple. */
  lemma TupleFor(width: nat, bucket: nat, w: nat, r: nat) returns (c: seq<nat>)
    requires IsWord(width, bucket) && IsWord(width, w) && Hamming(width, bucket, w) == r
    ensures c in Combinations(0, width, r) && Xor(bucket, MaskOf(c)) == w
  {
    PositionsOfXor(width, bucket, w);
    HammingIsSize(width, bucket, w);
    c := CombinationFor(Positions(width, Xor(bucket, w)), 0, width);
    CombinationsAreTuples(0, width, r);
    assert IsTuple(c, 0, width, r);
    MaskPositions(width, c);
    PositionsInjective(width, MaskOf(c), Xor(bucket, w));
    XorUndoes(width, bucket, w);
  }

  lemma ShellExact(width: nat, bucket: nat, r: nat)
    requires IsWord(width, bucket)
    ensures Distinct(Shell(width, bucket, r))
    ensures forall w :: w in Shell(width, bucket, r) <==> AtDistance(width, bucket, w, r)
  {
    var cs, shell := Combinations(0, width, r), Shell(width, bucket, r);
    CombinationsAreTuples(0, width, r);
    CombinationsDistinct(0, width, r);
    forall i | 0 <= i < |cs| ensures AtDistance(width, bucket, shell[i], r) && Positions(width, Xor(bucket, shell[i])) == ToSet(cs[i]) {
      assert IsTuple(cs[i], 0, width, r);
      FlipTuple(width, bucket, cs[i], r);
    }
    forall w | AtDistance(width, bucket, w, r) ensures w in shell {
      var c := TupleFor(width, bucket, w, r);
      var i :| 0 <= i < |cs| && cs[i] == c;
      assert shell[i] == w;
    }
  }

  ghost predicate AtDistance(width: nat, bucket: nat, w: nat, r: nat) {
    IsWord(width, w) && Hamming(width, bucket, w) == r
  }

  ghost predicate Within(width: nat, bucket: nat, w: nat, radius: nat) {
    IsWord(width, w) && Hamming(width, bucket, w) <= radius
  }

  lemma HammingZero(width: nat, a: nat, b: nat)
    requires IsWord(width, a) && IsWord(width, b)
    ensures Hamming(width, a, b) == 0 <==> a == b
  {
    PositionsOfXor(width, a, b);
    HammingIsSize(width, a, b);
    if Hamming(width, a, b) == 0 {
      assert Positions(width, Xor(a, b)) == {};
      assert Positions(width, a) == Positions(width, b);
    } else {
      assert Positions(width, Xor(a, b)) != {};
    }
    PositionsInjective(width, a, b);
  }

  /** The ball lists every word within the radius exactly once, nearest first. */
  lemma {:induction false} BallExact(width: nat, bucket: nat, radius: nat)
    requires IsWord(width, bucket)
    ensures Distinct(Ball(width, bucket, radius))
    ensures forall w :: w in Ball(width, bucket, radius) <==> Within(width, bucket, w, radius)
  {
    if radius == 0 {
      forall w ensures Within(width, bucket, w, 0) <==> w == bucket {
        if IsWord(width, w) {
          HammingZero(width, bucket, w);
        }
      }
    } else {
      BallExact(width, bucket, radius - 1);
      ShellExact(width, bucket, radius);
      forall w ensures Within(width, bucket, w, radius) <==> Within(width, bucket, w, radius - 1) || AtDistance(width, bucket, w, radius) {
      }
      forall w ensures !(Within(width, bucket, w, radius - 1) && AtDistance(width, bucket, w, radius)) {
      }
      DisjointJoin(Ball(width, bucket, radius - 1), Shell(width, bucket, radius));
    }
  }

  lemma DisjointJoin(a: seq<nat>, b: seq<nat>)
    requires Distinct(a) && Distinct(b) && forall w :: !(w in a && w in b)
    ensures Distinct(a + b) && forall w :: w in a + b <==> w in a || w in b
  {
    forall i, j | 0 <= i < |a| && 0 <= j < |b| ensures a[i] != b[j] {
      assert a[i] in a && b[j] in b;
    }
  }

  /** The index packs one bit per plane; only 64 planes are accepted. */
  class LSHIndex {
    const nPlanes: nat

    constructor ()
      ensures nPlanes == 64
    {
      nPlanes := 64;
    }

    /** `neighbor_buckets`: `None` for a negative radius; radii beyond the width are clamped. Every
        word within the radius is listed exactly once. */
    method NeighborBuckets(bucket: nat, radius: int) returns (out: Option<seq<nat>>)
      requires IsWord(nPlanes, bucket)
      ensures out.None? <==> radius < 0
      ensures out.Some? ==> Distinct(out.value)
      ensures out.Some? ==> forall w :: w in out.value <==> Within(nPlanes, bucket, w, radius)
    {
      if radius < 0 {
        return None;
      }
      var limit := if radius > nPlanes then nPlanes else radius;
      var list := [bucket];
      for r := 1 to limit + 1
        invariant list == Ball(nPlanes, bucket, r - 1)
      {
        var cs := Combinations(0, nPlanes, r);
        ghost var shell := Shell(nPlanes, bucket, r);
        for i := 0 to |cs|
          invariant list == Ball(nPlanes, bucket, r - 1) + shell[..i]
        {
          var mask := Mask(cs[i]);
          assert shell[..i + 1] == shell[..i] + [Xor(bucket, mask)];
          list := list + [Xor(bucket, mask)];
        }
        assert shell[..|cs|] == shell;
      }
      BallExact(nPlanes, bucket, limit);
      forall w ensures Within(nPlanes, bucket, w, limit) <==> Within(nPlanes, bucket, w, radius) {
        CountAtMost(Xor(bucket, w), nPlanes);
      }
      return Some(list);
    }
  }

  method Mask(positions: seq<nat>) returns (mask: nat)
    ensures mask == MaskOf(positions)
  {
    mask := 0;
    for i := 0 to |positions|
      invariant mask == MaskOf(positions[..i])
    {
      assert positions[..i + 1][..i] == positions[..i];
      mask := Or(mask, Shl1(positions[i]));
    }
    assert positions[..|positions|] == positions;
  }

  // ------------------------------------------------------------------
  // Sums over sets
  // ------------------------------------------------------------------

  ghost function Sum(s: set<nat>, f: nat -> real): real {
    if s == {} then 0.0 else var x :| x in s; f(x) + Sum(s - {x}, f)
  }

  lemma {:induction false} SumRemove(s: set<nat>, f: nat -> real, y: nat)
    requires y in s
    ensures Sum(s, f) == f(y) + Sum(s - {y}, f)
  {
    var x :| x in s && Sum(s, f) == f(x) + Sum(s - {x}, f);
    if x != y {
      SumRemove(s - {x}, f, y);
      SumRemove(s - {y}, f, x);
      assert s - {x} - {y} == s - {y} - {x};
    }
  }

  // ------------------------------------------------------------------
  // Signals and the deficit
  // ------------------------------------------------------------------

  /** An unclaimed item as the oracle sees it. */
  datatype Item = Item(bucket: nat, reward: real, createdAtNs: int)

  datatype Signal = Signal(bucket: nat, count: nat, avgReward: real, maxReward: real, oldestAgeNs: int)

  function AgeFactor(ageNs: int): real {
    var f := ageNs as real / 30000000000.0;
    if f <= 3.0 then f else 3.0
  }

  /** The age in units of 30 seconds, at most 3. */
  lemma AgeFactorMeans(ageNs: int)
    ensures ageNs <= 90_000_000_000 ==> AgeFactor(ageNs) * 30000000000.0 == ageNs as real
    ensures ageNs >= 90_000_000_000 ==> AgeFactor(ageNs) == 3.0
  {
  }

  /** What one signal adds to a deficit. */
  function Term(sig: Signal): real {
    sig.count as real * sig.avgReward * AgeFactor(sig.oldestAgeNs)
  }

  function TermAt(signals: map<nat, Signal>): nat -> real {
    b => if b in signals then Term(signals[b]) else 0.0
  }

  ghost function Near(width: nat, signals: map<nat, Signal>, bucket: nat, radius: nat): set<nat> {
    set b | b in signals && Within(width, bucket, b, radius)
  }

  /** `compute_deficit` over one snapshot of the signals: walking the neighbour buckets one by one
      gives the plain sum over all signals within distance 2. */
  method ComputeDeficit(lsh: LSHIndex, signals: map<nat, Signal>, bucket: nat) returns (deficit: real)
    requires IsWord(lsh.nPlanes, bucket) && forall b :: b in signals ==> IsWord(lsh.nPlanes, b)
    ensures deficit == Sum(Near(lsh.nPlanes, signals, bucket, 2), TermAt(signals))
  {
    var neighbors := lsh.NeighborBuckets(bucket, 2);
    var ns := neighbors.value;
    deficit := 0.0;
    ghost var met: set<nat> := {};
    for i := 0 to |ns|
      invariant met == set b | b in ns[..i] && b in signals
      invariant deficit == Sum(met, TermAt(signals))
    {
      assert ns[..i + 1] == ns[..i] + [ns[i]];
      if ns[i] in signals {
        var sig := signals[ns[i]];
        deficit := deficit + Term(sig);
        assert ns[i] !in met;
        SumRemove(met + {ns[i]}, TermAt(signals), ns[i]);
        assert met + {ns[i]} - {ns[i]} == met;
        met := met + {ns[i]};
      }
    }
    assert ns[..|ns|] == ns;
    assert met == Near(lsh.nPlanes, signals, bucket, 2);
  }

  function InBucket(items: seq<Item>, b: nat): seq<Item> {
    if items == [] then []
    else
      var n := |items| - 1;
      InBucket(items[..n], b) + if items[n].bucket == b then [items[n]] else []
  }

  function Buckets(items: seq<Item>): set<nat> {
    set i | 0 <= i < |items| :: items[i].bucket
  }

  function Total(items: seq<Item>, g: Item -> real): real {
    if items == [] then 0.0 else Total(items[..|items| - 1], g) + g(items[|items| - 1])
  }

  const RewardOf: Item -> real := (w: Item) => w.reward

  /** The signal of a non-empty group: how many, what they are worth together, the best reward and
      the greatest age among them. */
  ghost predicate Summarizes(sig: Signal, b: nat, group: seq<Item>, nowNs: int) {
    && sig.bucket == b && sig.count == |group|
    && sig.count as real * sig.avgReward == Total(group, RewardOf)
    && (exists i :: 0 <= i < |group| && group[i].reward == sig.maxReward)
    && (forall i :: 0 <= i < |group| ==> group[i].reward <= sig.maxReward)
    && (exists i :: 0 <= i < |group| && nowNs - group[i].createdAtNs == sig.oldestAgeNs)
    && (forall i :: 0 <= i < |group| ==> nowNs - group[i].createdAtNs <= sig.oldestAgeNs)
  }

  method Summarize(b: nat, group: seq<Item>, nowNs: int) returns (sig: Signal)
    requires group != []
    ensures Summarizes(sig, b, group, nowNs)
  {
    var total := 0.0;
    for i := 0 to |group|
      invariant total == Total(group[..i], RewardOf)
    {
      assert group[..i + 1][..i] == group[..i];
      total := total + group[i].reward;
    }
    assert group[..|group|] == group;
    var best, oldest := Extremes(group, nowNs);
    sig := Signal(b, |group|, total / |group| as real, best, oldest);
    assert sig.count as real * (total / sig.count as real) == total;
  }

  /** The best reward and the greatest age of a group. */
  method Extremes(group: seq<Item>, nowNs: int) returns (best: real, oldest: int)
    requires group != []
    ensures exists i :: 0 <= i < |group| && group[i].reward == best
    ensures forall i :: 0 <= i < |group| ==> group[i].reward <= best
    ensures exists i :: 0 <= i < |group| && nowNs - group[i].createdAtNs == oldest
    ensures forall i :: 0 <= i < |group| ==> nowNs - group[i].createdAtNs <= oldest
  {
    best, oldest := group[0].reward, nowNs - group[0].createdAtNs;
    ghost var b, o := 0, 0;
    for i := 0 to |group|
      invariant 0 <= b < |group| && 0 <= o < |group|
      invariant group[b].reward == best && nowNs - group[o].createdAtNs == oldest
      invariant forall k :: 0 <= k < i ==> group[k].reward <= best && nowNs - group[k].createdAtNs <= oldest
    {
      if group[i].reward > best {
        best, b := group[i].reward, i;
      }
      if nowNs - group[i].createdAtNs > oldest {
        oldest, o := nowNs - group[i].createdAtNs, i;
      }
    }
  }

  lemma {:induction false} AbsentBucket(items: seq<Item>, b: nat)
    requires b !in Buckets(items)
    ensures InBucket(items, b) == []
  {
    if items != [] {
      var pre := items[..|items| - 1];
      assert items[|items| - 1].bucket in Buckets(items);
      forall c | c in Buckets(pre) ensures c in Buckets(items) {
        var i :| 0 <= i < |pre| && pre[i].bucket == c;
        assert items[i].bucket == c;
      }
      AbsentBucket(pre, b);
    }
  }

  lemma BucketsGrow(pre: seq<Item>, w: Item)
    ensures Buckets(pre + [w]) == Buckets(pre) + {w.bucket}
  {
    var items := pre + [w];
    forall b ensures b in Buckets(items) <==> b in Buckets(pre) || b == w.bucket {
      if b in Buckets(pre) {
        var i :| 0 <= i < |pre| && pre[i].bucket == b;
        assert items[i].bucket == b;
      }
      assert items[|pre|].bucket == w.bucket;
    }
  }

  /** Adding an item touches its own bucket only. */
  lemma AddItem(pre: seq<Item>, w: Item)
    ensures Buckets(pre + [w]) == Buckets(pre) + {w.bucket}
    ensures forall b :: InBucket(pre + [w], b) == if b == w.bucket then InBucket(pre, b) + [w] else InBucket(pre, b)
    ensures w.bucket !in Buckets(pre) ==> InBucket(pre, w.bucket) == []
  {
    BucketsGrow(pre, w);
    assert (pre + [w])[..|pre|] == pre;
    if w.bucket !in Buckets(pre) {
      AbsentBucket(pre, w.bucket);
    }
  }

  lemma {:induction false} SumAgrees(s: set<nat>, f: nat -> real, g: nat -> real)
    requires forall x :: x in s ==> f(x) == g(x)
    ensures Sum(s, f) == Sum(s, g)
  {
    if s != {} {
      var x :| x in s;
      SumRemove(s, f, x);
      SumRemove(s, g, x);
      SumAgrees(s - {x}, f, g);
    }
  }

  function PerBucket(items: seq<Item>, g: Item -> real): nat -> real {
    (b: nat) => Total(InBucket(items, b), g)
  }

  /** Grouping conserves every total: summed over the buckets, any weight of the items (their number,
      their reward) is what it was over the items. */
  lemma {:induction false} GroupingConserves(items: seq<Item>, g: Item -> real)
    ensures Sum(Buckets(items), PerBucket(items, g)) == Total(items, g)
  {
    if items == [] {
      assert Buckets(items) == {};
    } else {
      var pre, w := items[..|items| - 1], items[|items| - 1];
      assert items == pre + [w];
      GroupingConserves(pre, g);
      AddItem(pre, w);
      OneMore(pre, w, g);
    }
  }

  lemma OneMore(pre: seq<Item>, w: Item, g: Item -> real)
    ensures Sum(Buckets(pre + [w]), PerBucket(pre + [w], g)) == Sum(Buckets(pre), PerBucket(pre, g)) + g(w)
  {
    var items, b := pre + [w], w.bucket;
    AddItem(pre, w);
    var all, f, f' := Buckets(items), PerBucket(items, g), PerBucket(pre, g);
    var group := InBucket(pre, b) + [w];
    assert group[..|group| - 1] == InBucket(pre, b);
    assert f(b) == f'(b) + g(w);
    forall x | x in all - {b} ensures f(x) == f'(x) {
    }
    SumRemove(all, f, b);
    SumAgrees(all - {b}, f, f');
    if b in Buckets(pre) {
      SumRemove(Buckets(pre), f', b);
      assert all - {b} == Buckets(pre) - {b};
    } else {
      assert all - {b} == Buckets(pre);
    }
  }

  /** The age of the oldest item of a group, or 0. */
  function OldestAge(group: seq<Item>, nowNs: int): int {
    if group == [] then 0
    else
      var n := |group| - 1;
      if n == 0 then nowNs - group[0].createdAtNs else Max(OldestAge(group[..n], nowNs), nowNs - group[n].createdAtNs)
  }

  lemma {:induction false} OldestAgeIsGreatest(group: seq<Item>, nowNs: int) returns (i: nat)
    requires group != []
    ensures i < |group| && nowNs - group[i].createdAtNs == OldestAge(group, nowNs)
    ensures forall k :: 0 <= k < |group| ==> nowNs - group[k].createdAtNs <= OldestAge(group, nowNs)
  {
    var n := |group| - 1;
    i := n;
    if n > 0 {
      var q := OldestAgeIsGreatest(group[..n], nowNs);
      assert forall k :: 0 <= k < n ==> nowNs - group[..n][k].createdAtNs <= OldestAge(group[..n], nowNs) && group[..n][k] == group[k];
      i := if OldestAge(group, nowNs) == OldestAge(group[..n], nowNs) then q else n;
    }
  }

  lemma AgesAgree(sig: Signal, b: nat, group: seq<Item>, nowNs: int)
    requires Summarizes(sig, b, group, nowNs)
    ensures sig.oldestAgeNs == OldestAge(group, nowNs)
  {
    var i := OldestAgeIsGreatest(group, nowNs);
  }

  function Scaled(f: real): Item -> real {
    (w: Item) => w.reward * f
  }

  /** An item's reward times the factor of its bucket. */
  function Aged(factor: nat -> real): Item -> real {
    (w: Item) => w.reward * factor(w.bucket)
  }

  /** The age factor of each bucket's oldest item. */
  function AgeOf(items: seq<Item>, nowNs: int): nat -> real {
    (b: nat) => AgeFactor(OldestAge(InBucket(items, b), nowNs))
  }

  /** Only items at most two flips away from `bucket` count. */
  ghost function NearOnly(width: nat, bucket: nat, g: Item -> real): Item -> real {
    (w: Item) => if Within(width, bucket, w.bucket, 2) then g(w) else 0.0
  }

  /** The table a poll leaves. */
  ghost predicate Polled(signals: map<nat, Signal>, items: seq<Item>, nowNs: int) {
    signals.Keys == Buckets(items) && forall b :: b in signals ==> Summarizes(signals[b], b, InBucket(items, b), nowNs)
  }

  /** A bucket's items, and how many there are. */
  lemma {:induction false} BucketItems(items: seq<Item>, b: nat)
    ensures forall w :: w in InBucket(items, b) <==> w in items && w.bucket == b
    ensures |InBucket(items, b)| == |set i | 0 <= i < |items| && items[i].bucket == b|
  {
    var all := set i | 0 <= i < |items| && items[i].bucket == b;
    assert items == [] ==> all == {};
    if items != [] {
      var n := |items| - 1;
      BucketItems(items[..n], b);
      assert items == items[..n] + [items[n]];
      var before := set i | 0 <= i < n && items[..n][i].bucket == b;
      forall i ensures i in all <==> i in before || (i == n && items[n].bucket == b) {
        assert 0 <= i < n ==> items[..n][i] == items[i];
      }
      assert all == if items[n].bucket == b then before + {n} else before;
    }
  }

  lemma {:induction false} TotalScaled(group: seq<Item>, f: real)
    ensures Total(group, Scaled(f)) == Total(group, RewardOf) * f
  {
    if group != [] {
      TotalScaled(group[..|group| - 1], f);
    }
  }

  lemma {:induction false} TotalAgrees(group: seq<Item>, g: Item -> real, h: Item -> real)
    requires forall w :: w in group ==> g(w) == h(w)
    ensures Total(group, g) == Total(group, h)
  {
    if group != [] {
      TotalAgrees(group[..|group| - 1], g, h);
    }
  }

  lemma {:induction false} TotalNear(width: nat, bucket: nat, g: Item -> real, group: seq<Item>, b: nat)
    requires forall w :: w in group ==> w.bucket == b
    ensures Total(group, NearOnly(width, bucket, g)) == if Within(width, bucket, b, 2) then Total(group, g) else 0.0
  {
    if group != [] {
      TotalNear(width, bucket, g, group[..|group| - 1], b);
    }
  }

  lemma AgedInBucket(items: seq<Item>, b: nat, factor: nat -> real)
    ensures Total(InBucket(items, b), Aged(factor)) == Total(InBucket(items, b), Scaled(factor(b)))
  {
    BucketItems(items, b);
    TotalAgrees(InBucket(items, b), Aged(factor), Scaled(factor(b)));
  }

  lemma TermOfTotal(sig: Signal, group: seq<Item>, f: real)
    requires sig.count as real * sig.avgReward == Total(group, RewardOf) && f == AgeFactor(sig.oldestAgeNs)
    ensures Term(sig) == Total(group, Scaled(f))
  {
    TotalScaled(group, f);
  }

  /** A signal's term is the total of its bucket's items, each scaled by the bucket's age factor. */
  lemma TermIsTotal(sig: Signal, items: seq<Item>, b: nat, nowNs: int, f: real)
    requires Summarizes(sig, b, InBucket(items, b), nowNs) && f == AgeFactor(sig.oldestAgeNs)
    ensures Term(sig) == Total(InBucket(items, b), Scaled(f)) && f == AgeOf(items, nowNs)(b)
  {
    AgesAgree(sig, b, InBucket(items, b), nowNs);
    TermOfTotal(sig, InBucket(items, b), f);
  }

  /** Members outside `near` that weigh nothing do not matter. */
  lemma {:induction false} SumOverNear(s: set<nat>, near: set<nat>, f: nat -> real, g: nat -> real)
    requires near <= s
    requires forall x :: x in s ==> f(x) == if x in near then g(x) else 0.0
    ensures Sum(s, f) == Sum(near, g)
    decreases s
  {
    if s != {} {
      var x :| x in s;
      SumRemove(s, f, x);
      if x in near {
        SumRemove(near, g, x);
      }
      SumOverNear(s - {x}, near - {x}, f, g);
      assert x !in near ==> near - {x} == near;
    }
  }

  lemma DeficitByFactor(width: nat, items: seq<Item>, signals: map<nat, Signal>, bucket: nat, factor: nat -> real)
    requires signals.Keys == Buckets(items)
    requires forall b :: b in signals ==> TermAt(signals)(b) == Total(InBucket(items, b), Scaled(factor(b)))
    ensures Sum(Near(width, signals, bucket, 2), TermAt(signals)) == Total(items, NearOnly(width, bucket, Aged(factor)))
  {
    var worth, near := NearOnly(width, bucket, Aged(factor)), Near(width, signals, bucket, 2);
    forall b | b in Buckets(items)
      ensures PerBucket(items, worth)(b) == if b in near then TermAt(signals)(b) else 0.0
    {
      AgedInBucket(items, b, factor);
      BucketItems(items, b);
      TotalNear(width, bucket, Aged(factor), InBucket(items, b), b);
    }
    SumOverNear(Buckets(items), near, PerBucket(items, worth), TermAt(signals));
    GroupingConserves(items, worth);
  }

  /** After a poll the deficit is a plain sum over the items: every item near the agent counts once, with
      its reward and the age factor of its bucket. */
  lemma DeficitOverItems(width: nat, items: seq<Item>, signals: map<nat, Signal>, bucket: nat, nowNs: int)
    requires Polled(signals, items, nowNs)
    ensures Sum(Near(width, signals, bucket, 2), TermAt(signals)) ==
            Total(items, NearOnly(width, bucket, Aged(AgeOf(items, nowNs))))
  {
    forall b | b in signals ensures TermAt(signals)(b) == Total(InBucket(items, b), Scaled(AgeOf(items, nowNs)(b))) {
      TermIsTotal(signals[b], items, b, nowNs, AgeFactor(signals[b].oldestAgeNs));
    }
    DeficitByFactor(width, items, signals, bucket, AgeOf(items, nowNs));
  }

  /** The oracle: one writer swaps in a whole new table. */
  class DemandOracle {
    var signals: map<nat, Signal>

    constructor ()
      ensures signals == map[]
    {
      signals := map[];
    }

    /** `_poll`: one signal per bucket that has an item, summarizing exactly the items in it. */
    method Poll(items: seq<Item>, nowNs: int)
      modifies this
      ensures Polled(signals, items, nowNs)
      ensures forall b :: b in signals <==> exists w :: w in items && w.bucket == b
      ensures forall b :: b in signals ==> signals[b].count == |set i | 0 <= i < |items| && items[i].bucket == b|
      ensures forall b, w :: b in signals && w in items && w.bucket == b ==>
                w.reward <= signals[b].maxReward && nowNs - w.createdAtNs <= signals[b].oldestAgeNs
      ensures forall b :: b in signals ==>
                && (exists w :: w in items && w.bucket == b && w.reward == signals[b].maxReward)
                && (exists w :: w in items && w.bucket == b && nowNs - w.createdAtNs == signals[b].oldestAgeNs)
    {
      var groups := GroupItems(items);
      var table := SummarizeAll(groups, nowNs);
      signals := table;
      PolledMeans(items, signals, nowNs);
    }
  }

  /** A poll in terms of the items' own fields. */
  lemma PolledMeans(items: seq<Item>, signals: map<nat, Signal>, nowNs: int)
    requires Polled(signals, items, nowNs)
    ensures forall b :: b in signals <==> exists w :: w in items && w.bucket == b
    ensures forall b :: b in signals ==> signals[b].count == |set i | 0 <= i < |items| && items[i].bucket == b|
    ensures forall b, w :: b in signals && w in items && w.bucket == b ==>
              w.reward <= signals[b].maxReward && nowNs - w.createdAtNs <= signals[b].oldestAgeNs
    ensures forall b :: b in signals ==>
              && (exists w :: w in items && w.bucket == b && w.reward == signals[b].maxReward)
              && (exists w :: w in items && w.bucket == b && nowNs - w.createdAtNs == signals[b].oldestAgeNs)
  {
    forall b ensures b in signals <==> exists w :: w in items && w.bucket == b {
      if b in Buckets(items) {
        var i :| 0 <= i < |items| && items[i].bucket == b;
        assert items[i] in items;
      }
    }
    forall b | b in signals
      ensures signals[b].count == |set i | 0 <= i < |items| && items[i].bucket == b|
      ensures forall w :: w in items && w.bucket == b ==>
                w.reward <= signals[b].maxReward && nowNs - w.createdAtNs <= signals[b].oldestAgeNs
      ensures exists w :: w in items && w.bucket == b && w.reward == signals[b].maxReward
      ensures exists w :: w in items && w.bucket == b && nowNs - w.createdAtNs == signals[b].oldestAgeNs
    {
      SignalMeans(items, signals[b], b, nowNs);
    }
  }

  lemma SignalMeans(items: seq<Item>, sig: Signal, b: nat, nowNs: int)
    requires Summarizes(sig, b, InBucket(items, b), nowNs)
    ensures sig.count == |set i | 0 <= i < |items| && items[i].bucket == b|
    ensures forall w :: w in items && w.bucket == b ==> w.reward <= sig.maxReward && nowNs - w.createdAtNs <= sig.oldestAgeNs
    ensures exists w :: w in items && w.bucket == b && w.reward == sig.maxReward
    ensures exists w :: w in items && w.bucket == b && nowNs - w.createdAtNs == sig.oldestAgeNs
  {
    var group := InBucket(items, b);
    BucketItems(items, b);
    var i :| 0 <= i < |group| && group[i].reward == sig.maxReward;
    var j :| 0 <= j < |group| && nowNs - group[j].createdAtNs == sig.oldestAgeNs;
    assert group[i] in group && group[j] in group;
  }

  method GroupItems(items: seq<Item>) returns (groups: map<nat, seq<Item>>)
    ensures groups.Keys == Buckets(items)
    ensures forall b :: b in groups ==> groups[b] == InBucket(items, b) && groups[b] != []
  {
    groups := map[];
    for i := 0 to |items|
      invariant groups.Keys == Buckets(items[..i])
      invariant forall b :: b in groups ==> groups[b] == InBucket(items[..i], b) && groups[b] != []
    {
      var w := items[i];
      var group := if w.bucket in groups then groups[w.bucket] else [];
      assert items[..i + 1] == items[..i] + [w];
      AddItem(items[..i], w);
      groups := groups[w.bucket := group + [w]];
    }
    assert items[..|items|] == items;
  }

  method SummarizeAll(groups: map<nat, seq<Item>>, nowNs: int) returns (table: map<nat, Signal>)
    requires forall b :: b in groups ==> groups[b] != []
    ensures table.Keys == groups.Keys
    ensures forall b :: b in table ==> Summarizes(table[b], b, groups[b], nowNs)
  {
    table := map[];
    var todo := groups.Keys;
    while todo != {}
      invariant todo <= groups.Keys && table.Keys == groups.Keys - todo
      invariant forall b :: b in table ==> Summarizes(table[b], b, groups[b], nowNs)
      decreases todo
    {
      var b :| b in todo;
      todo := todo - {b};
      var sig := Summarize(b, groups[b], nowNs);
      table := table[b := sig];
    }
  }
}
