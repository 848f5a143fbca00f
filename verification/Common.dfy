/** Shared vocabulary: optional values, strict total orders, Python's string order, and
    the canonical sorted listing of a finite set (Python's `sorted` applied to a set). */
module Common {

  datatype Option<+T> = None | Some(value: T)

  type Byte = n: nat | n < 256

  /** A hex content address. */
  datatype Digest = Digest(hex: string)

  function Max(a: int, b: int): int {
    if a >= b then a else b
  }

  ghost predicate Compared<T>(lt: (T, T) -> bool, a: T, b: T) {
    lt(a, b) || a == b || lt(b, a)
  }

  /** Named, like `Compared`, so that an order axiom is used only where a proof mentions it. */
  ghost predicate Chain<T>(lt: (T, T) -> bool, a: T, b: T, c: T) {
    lt(a, b) && lt(b, c)
  }

  ghost predicate StrictTotalOrder<T(!new)>(lt: (T, T) -> bool) {
    && (forall a :: !lt(a, a))
    && (forall a, b, c :: Chain(lt, a, b, c) ==> lt(a, c))
    && (forall a, b :: Compared(lt, a, b))
  }

  lemma Asymmetric<T(!new)>(lt: (T, T) -> bool)
    requires StrictTotalOrder(lt)
    ensures forall a, b :: lt(a, b) ==> !lt(b, a)
  {
    forall a, b ensures lt(a, b) ==> !lt(b, a) {
      assert Chain(lt, a, b, a) ==> lt(a, a);
    }
  }

  /** Python compares strings code point by code point, a proper prefix being smaller. */
  predicate StrLt(a: string, b: string) {
    b != "" && (a == "" || a[0] < b[0] || (a[0] == b[0] && StrLt(a[1..], b[1..])))
  }

  lemma {:induction false} StrLtIrreflexive(a: string)
    ensures !StrLt(a, a)
  {
    if a != "" {
      StrLtIrreflexive(a[1..]);
    }
  }

  lemma {:induction false} StrLtTransitive(a: string, b: string, c: string)
    requires StrLt(a, b) && StrLt(b, c)
    ensures StrLt(a, c)
  {
    if a != "" && a[0] == b[0] && b[0] == c[0] {
      StrLtTransitive(a[1..], b[1..], c[1..]);
    }
  }

  lemma {:induction false} StrLtTotal(a: string, b: string)
    ensures StrLt(a, b) || a == b || StrLt(b, a)
  {
    if a != "" && b != "" && a[0] == b[0] {
      StrLtTotal(a[1..], b[1..]);
      assert a == [a[0]] + a[1..] && b == [b[0]] + b[1..];
    }
  }

  /** Python's string order is a strict total order. */
  lemma StrLtIsOrder()
    ensures StrictTotalOrder(StrLt)
  {
    forall a: string ensures !StrLt(a, a) {
      StrLtIrreflexive(a);
    }
    forall a, b, c | Chain(StrLt, a, b, c) ensures StrLt(a, c) {
      StrLtTransitive(a, b, c);
    }
    forall a, b ensures Compared(StrLt, a, b) {
      StrLtTotal(a, b);
    }
  }

  /** Content addresses are compared as strings. */
  predicate HexLt(a: Digest, b: Digest) {
    StrLt(a.hex, b.hex)
  }

  lemma HexLtIsOrder()
    ensures StrictTotalOrder(HexLt)
  {
    StrLtIsOrder();
    forall a, b, c | Chain(HexLt, a, b, c) ensures HexLt(a, c) {
      assert Chain(StrLt, a.hex, b.hex, c.hex);
    }
    forall a, b ensures Compared(HexLt, a, b) {
      assert Compared(StrLt, a.hex, b.hex);
    }
  }

  function ToSet<T>(s: seq<T>): set<T> {
    set x | x in s
  }

  lemma EmptyListing<T>(s: seq<T>)
    ensures ToSet(s) == {} <==> s == []
  {
    if s != [] {
      assert s[0] in ToSet(s);
    }
  }

  ghost predicate Distinct<T>(s: seq<T>) {
    forall i, j :: 0 <= i < j < |s| ==> s[i] != s[j]
  }

  ghost predicate StrictlySorted<T>(lt: (T, T) -> bool, s: seq<T>) {
    forall i, j :: 0 <= i < j < |s| ==> lt(s[i], s[j])
  }

  ghost predicate IsMin<T>(lt: (T, T) -> bool, s: set<T>, m: T) {
    m in s && forall x :: x in s ==> x == m || lt(m, x)
  }

  lemma {:induction false} MinExists<T(!new)>(lt: (T, T) -> bool, s: set<T>)
    requires StrictTotalOrder(lt)
    requires s != {}
    ensures exists m :: IsMin(lt, s, m)
  {
    var x :| x in s;
    if s == {x} {
      assert IsMin(lt, s, x);
    } else {
      var rest := s - {x};
      MinExists(lt, rest);
      var m :| IsMin(lt, rest, m);
      assert Compared(lt, x, m);
      if lt(x, m) {
        forall y | y in s ensures y == x || lt(x, y) {
          assert y == x || y in rest;
          assert lt(m, y) ==> Chain(lt, x, m, y);
        }
        assert IsMin(lt, s, x);
      } else {
        assert IsMin(lt, s, m);
      }
    }
  }

  /** `heapq.heappop`: the least member. */
  method PopMin<T(==, !new)>(lt: (T, T) -> bool, heap: set<T>) returns (m: T)
    requires StrictTotalOrder(lt)
    requires heap != {}
    ensures IsMin(lt, heap, m)
  {
    MinExists(lt, heap);
    m :| m in heap && forall x :: x in heap ==> x == m || lt(m, x);
  }

  /** `sorted(s)` of a set: smallest element first. */
  method Sorted<T(==, !new)>(lt: (T, T) -> bool, s: set<T>) returns (r: seq<T>)
    requires StrictTotalOrder(lt)
    ensures StrictlySorted(lt, r) && ToSet(r) == s
  {
    r := [];
    var todo := s;
    while todo != {}
      invariant StrictlySorted(lt, r)
      invariant todo !! ToSet(r) && todo + ToSet(r) == s
      invariant forall i, x :: 0 <= i < |r| && x in todo ==> lt(r[i], x)
      decreases todo
    {
      var m := PopMin(lt, todo);
      AppendToSet(r, m);
      r := r + [m];
      todo := todo - {m};
    }
  }

  /** Every finite set has a sorted listing. */
  lemma {:induction false} ListingExists<T(!new)>(lt: (T, T) -> bool, s: set<T>) returns (r: seq<T>)
    requires StrictTotalOrder(lt)
    ensures StrictlySorted(lt, r) && ToSet(r) == s
  {
    if s == {} {
      r := [];
    } else {
      MinExists(lt, s);
      var m :| IsMin(lt, s, m);
      var rest := ListingExists(lt, s - {m});
      r := [m] + rest;
      assert ToSet(r) == {m} + ToSet(rest);
      assert forall i :: 0 <= i < |rest| ==> rest[i] in ToSet(rest);
    }
  }

  lemma AppendToSet<T>(r: seq<T>, m: T)
    ensures ToSet(r + [m]) == ToSet(r) + {m}
  {
  }

  /** There is exactly one strictly sorted listing of a set. */
  lemma {:induction false} SortedUnique<T(!new)>(lt: (T, T) -> bool, a: seq<T>, b: seq<T>)
    requires StrictTotalOrder(lt)
    requires StrictlySorted(lt, a) && StrictlySorted(lt, b)
    requires ToSet(a) == ToSet(b)
    ensures a == b
  {
    EmptyListing(a);
    EmptyListing(b);
    if a != [] {
      assert a[0] in ToSet(b) && b[0] in ToSet(a);
      assert a[0] == b[0] by {
        assert Compared(lt, a[0], b[0]);
        assert lt(a[0], b[0]) && lt(b[0], a[0]) ==> Chain(lt, a[0], b[0], a[0]);
      }
      var a', b' := a[1..], b[1..];
      forall x ensures x in ToSet(a') <==> x in ToSet(b') {
        assert x in ToSet(a') <==> x in ToSet(a) && x != a[0];
        assert x in ToSet(b') <==> x in ToSet(b) && x != b[0];
      }
      SortedUnique(lt, a', b');
      assert a == [a[0]] + a' && b == [b[0]] + b';
    }
  }

  lemma DistinctCardinality<T>(s: seq<T>)
    requires Distinct(s)
    ensures |ToSet(s)| == |s|
  {
    if s != [] {
      var n := |s| - 1;
      DistinctCardinality(s[..n]);
      assert ToSet(s) == ToSet(s[..n]) + {s[n]};
    }
  }

  /** Pigeonhole: a sequence longer than the set it draws from repeats an element. */
  lemma Pigeonhole<T>(s: seq<T>, pool: set<T>) returns (i: nat, j: nat)
    requires |s| > |pool|
    requires forall k :: 0 <= k < |s| ==> s[k] in pool
    ensures i < j < |s| && s[i] == s[j]
  {
    if Distinct(s) {
      DistinctCardinality(s);
      SubsetCardinality(ToSet(s), pool);
      assert false;
    }
    i, j :| 0 <= i < j < |s| && s[i] == s[j];
  }

  lemma SubsetCardinality<T>(a: set<T>, b: set<T>)
    requires a <= b
    ensures |a| <= |b|
    ensures |a| == |b| ==> a == b
  {
    assert b == a + (b - a);
    assert |b| == |a| + |b - a|;
  }
}
