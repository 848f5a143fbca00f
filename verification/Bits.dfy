/** Python's `|`, `^` and `1 << p` on non-negative integers, bit by bit, and words of a given width as
    sets of bit positions (used by gyza/demand.py). */
module Bits {
  import opened Common

  function Bit(n: nat, p: nat): bool {
    if p == 0 then n % 2 == 1 else Bit(n / 2, p - 1)
  }

  function Xor(a: nat, b: nat): nat {
    if a == 0 && b == 0 then 0
    else (if a % 2 == b % 2 then 0 else 1) + 2 * Xor(a / 2, b / 2)
  }

  function Or(a: nat, b: nat): nat {
    if a == 0 && b == 0 then 0
    else (if a % 2 == 1 || b % 2 == 1 then 1 else 0) + 2 * Or(a / 2, b / 2)
  }

  /** `1 << p` */
  function Shl1(p: nat): nat {
    if p == 0 then 1 else 2 * Shl1(p - 1)
  }

  /** A non-negative integer of at most `width` bits. */
  predicate IsWord(width: nat, n: nat) {
    n < Shl1(width)
  }

  /** The positions of the one bits of a word. */
  ghost function Positions(width: nat, n: nat): set<nat> {
    set p: nat | p < width && Bit(n, p)
  }

  /** How many of the lowest `k` bits are one. */
  function CountBits(n: nat, k: nat): nat {
    if k == 0 then 0 else CountBits(n, k - 1) + if Bit(n, k - 1) then 1 else 0
  }

  /** The number of positions in which two words differ. */
  function Hamming(width: nat, a: nat, b: nat): nat {
    CountBits(Xor(a, b), width)
  }

  lemma {:induction false} CountAtMost(n: nat, k: nat)
    ensures CountBits(n, k) <= k
  {
    if k > 0 {
      CountAtMost(n, k - 1);
    }
  }

  ghost function PositionsBelow(n: nat, k: nat): set<nat> {
    set p: nat | p < k && Bit(n, p)
  }

  lemma {:induction false} CountIsSize(n: nat, k: nat)
    ensures CountBits(n, k) == |PositionsBelow(n, k)|
  {
    if k == 0 {
      assert PositionsBelow(n, k) == {};
    } else {
      CountIsSize(n, k - 1);
      if Bit(n, k - 1) {
        assert PositionsBelow(n, k) == PositionsBelow(n, k - 1) + {k - 1};
      } else {
        assert PositionsBelow(n, k) == PositionsBelow(n, k - 1);
      }
    }
  }

  lemma HammingIsSize(width: nat, a: nat, b: nat)
    ensures Hamming(width, a, b) == |Positions(width, Xor(a, b))|
  {
    CountIsSize(Xor(a, b), width);
    assert PositionsBelow(Xor(a, b), width) == Positions(width, Xor(a, b));
  }

  lemma {:induction false} ZeroHasNoBits(p: nat)
    ensures !Bit(0, p)
  {
    if p > 0 {
      ZeroHasNoBits(p - 1);
    }
  }

  lemma {:induction false} BitOfXor(a: nat, b: nat, p: nat)
    ensures Bit(Xor(a, b), p) <==> Bit(a, p) != Bit(b, p)
    decreases p
  {
    if a == 0 && b == 0 {
      ZeroHasNoBits(p);
    } else if p > 0 {
      BitOfXor(a / 2, b / 2, p - 1);
      assert Xor(a, b) / 2 == Xor(a / 2, b / 2);
    } else {
      assert Xor(a, b) % 2 == if a % 2 == b % 2 then 0 else 1;
    }
  }

  lemma {:induction false} BitOfOr(a: nat, b: nat, p: nat)
    ensures Bit(Or(a, b), p) <==> Bit(a, p) || Bit(b, p)
    decreases p
  {
    if a == 0 && b == 0 {
      ZeroHasNoBits(p);
    } else if p > 0 {
      BitOfOr(a / 2, b / 2, p - 1);
      assert Or(a, b) / 2 == Or(a / 2, b / 2);
    } else {
      assert Or(a, b) % 2 == if a % 2 == 1 || b % 2 == 1 then 1 else 0;
    }
  }

  lemma {:induction false} BitOfShl1(q: nat, p: nat)
    ensures Bit(Shl1(q), p) <==> p == q
  {
    if q == 0 {
      if p > 0 {
        ZeroHasNoBits(p - 1);
      }
    } else if p > 0 {
      BitOfShl1(q - 1, p - 1);
      assert Shl1(q) / 2 == Shl1(q - 1);
    }
  }

  /** Numbers below `1 << k` that agree on their first `k` bits are equal. */
  lemma {:induction false} BitsDetermine(a: nat, b: nat, k: nat)
    requires a < Shl1(k) && b < Shl1(k)
    requires forall p: nat :: p < k ==> Bit(a, p) == Bit(b, p)
    ensures a == b
  {
    if k > 0 {
      assert Bit(a, 0) == Bit(b, 0);
      forall p: nat | p < k - 1 ensures Bit(a / 2, p) == Bit(b / 2, p) {
        assert Bit(a, p + 1) == Bit(b, p + 1);
      }
      BitsDetermine(a / 2, b / 2, k - 1);
    }
  }

  lemma {:induction false} XorBounded(a: nat, b: nat, k: nat)
    requires a < Shl1(k) && b < Shl1(k)
    ensures Xor(a, b) < Shl1(k)
  {
    if k > 0 {
      XorBounded(a / 2, b / 2, k - 1);
    }
  }

  lemma {:induction false} OrBounded(a: nat, b: nat, k: nat)
    requires a < Shl1(k) && b < Shl1(k)
    ensures Or(a, b) < Shl1(k)
  {
    if k > 0 {
      OrBounded(a / 2, b / 2, k - 1);
    }
  }

  lemma {:induction false} Shl1Grows(p: nat, k: nat)
    requires p < k
    ensures Shl1(p) < Shl1(k)
  {
    if p < k - 1 {
      Shl1Grows(p, k - 1);
    }
    assert Shl1(k) == 2 * Shl1(k - 1);
    Shl1Positive(k - 1);
  }

  lemma {:induction false} Shl1Positive(p: nat)
    ensures Shl1(p) > 0
  {
    if p > 0 {
      Shl1Positive(p - 1);
    }
  }

  /** Words are equal exactly when their positions are. */
  lemma PositionsInjective(width: nat, a: nat, b: nat)
    requires IsWord(width, a) && IsWord(width, b)
    ensures Positions(width, a) == Positions(width, b) <==> a == b
  {
    if Positions(width, a) == Positions(width, b) {
      forall p: nat | p < width ensures Bit(a, p) == Bit(b, p) {
        assert p in Positions(width, a) <==> p in Positions(width, b);
      }
      BitsDetermine(a, b, width);
    }
  }

  /** XOR is symmetric difference of positions, and undoes itself. */
  lemma PositionsOfXor(width: nat, a: nat, b: nat)
    requires IsWord(width, a) && IsWord(width, b)
    ensures IsWord(width, Xor(a, b))
    ensures Positions(width, Xor(a, b)) == (Positions(width, a) - Positions(width, b)) + (Positions(width, b) - Positions(width, a))
  {
    XorBounded(a, b, width);
    forall p: nat | p < width ensures Bit(Xor(a, b), p) <==> Bit(a, p) != Bit(b, p) {
      BitOfXor(a, b, p);
    }
  }

  lemma XorUndoes(width: nat, a: nat, b: nat)
    requires IsWord(width, a) && IsWord(width, b)
    ensures IsWord(width, Xor(a, b)) && Xor(a, Xor(a, b)) == b
  {
    PositionsOfXor(width, a, b);
    PositionsOfXor(width, a, Xor(a, b));
    assert Positions(width, Xor(a, Xor(a, b))) == Positions(width, b);
    PositionsInjective(width, Xor(a, Xor(a, b)), b);
  }

  /** `mask |= 1 << p` adds one position. */
  lemma PositionsOfOr(width: nat, mask: nat, p: nat)
    requires IsWord(width, mask) && p < width
    ensures IsWord(width, Or(mask, Shl1(p)))
    ensures Positions(width, Or(mask, Shl1(p))) == Positions(width, mask) + {p}
  {
    Shl1Grows(p, width);
    OrBounded(mask, Shl1(p), width);
    forall q: nat | q < width ensures Bit(Or(mask, Shl1(p)), q) <==> Bit(mask, q) || q == p {
      BitOfOr(mask, Shl1(p), q);
      BitOfShl1(p, q);
    }
  }

  lemma PositionsOfZero(width: nat)
    ensures IsWord(width, 0) && Positions(width, 0) == {}
  {
    Shl1Positive(width);
    forall p: nat ensures !Bit(0, p) {
      ZeroHasNoBits(p);
    }
  }
}
