/**
 Bitwise operations on unbounded naturals: the C operators `>>`, `<<`, `&`, `|` and `^`
 on non-negative values, characterised bit by bit.  Machine widths are applied by the
 modules that need them.
 */
module Bits {

  function Pow2(n: nat): (r: nat)
    ensures r > 0
  {
    if n == 0 then 1 else 2 * Pow2(n - 1)
  }

  /** Bit k of x, counted from the least significant. */
  function Bit(x: nat, k: nat): bool
  {
    if k == 0 then x % 2 == 1 else Bit(x / 2, k - 1)
  }

  function Shr(x: nat, k: nat): nat {
    if k == 0 then x else Shr(x / 2, k - 1)
  }

  function Shl(x: nat, k: nat): nat {
    if k == 0 then x else 2 * Shl(x, k - 1)
  }

  /** The number whose lowest bit is b and whose higher bits are r. */
  function Cons(b: bool, r: nat): (x: nat)
    ensures x / 2 == r && (x % 2 == 1) == b
  {
    (if b then 1 else 0) + 2 * r
  }

  function Or(x: nat, y: nat): nat {
    if x == 0 && y == 0 then 0
    else Cons(x % 2 == 1 || y % 2 == 1, Or(x / 2, y / 2))
  }

  function And(x: nat, y: nat): nat {
    if x == 0 || y == 0 then 0
    else Cons(x % 2 == 1 && y % 2 == 1, And(x / 2, y / 2))
  }

  function Xor(x: nat, y: nat): nat {
    if x == 0 && y == 0 then 0
    else Cons((x % 2 == 1) != (y % 2 == 1), Xor(x / 2, y / 2))
  }

  lemma {:induction false} BitOfZero(k: nat)
    ensures !Bit(0, k)
  {
    if k > 0 { BitOfZero(k - 1); }
  }

  lemma {:induction false} OrBit(x: nat, y: nat, k: nat)
    ensures Bit(Or(x, y), k) == (Bit(x, k) || Bit(y, k))
  {
    if x == 0 && y == 0 {
      BitOfZero(k);
    } else if k > 0 {
      assert Or(x, y) / 2 == Or(x / 2, y / 2);
      OrBit(x / 2, y / 2, k - 1);
    }
  }

  lemma {:induction false} AndBit(x: nat, y: nat, k: nat)
    ensures Bit(And(x, y), k) == (Bit(x, k) && Bit(y, k))
  {
    if x == 0 || y == 0 {
      BitOfZero(k);
    } else if k > 0 {
      assert And(x, y) / 2 == And(x / 2, y / 2);
      AndBit(x / 2, y / 2, k - 1);
    }
  }

  lemma {:induction false} XorBit(x: nat, y: nat, k: nat)
    ensures Bit(Xor(x, y), k) == (Bit(x, k) != Bit(y, k))
  {
    if x == 0 && y == 0 {
      BitOfZero(k);
    } else if k > 0 {
      assert Xor(x, y) / 2 == Xor(x / 2, y / 2);
      XorBit(x / 2, y / 2, k - 1);
    }
  }

  lemma {:induction false} ShrBit(x: nat, s: nat, k: nat)
    ensures Bit(Shr(x, s), k) == Bit(x, k + s)
    decreases s
  {
    if s > 0 {
      ShrBit(x / 2, s - 1, k);
    }
  }

  lemma QuotientUnique(x: int, d: int, q: int, r: int)
    requires d > 0 && x == q * d + r && 0 <= r < d
    ensures x / d == q && x % d == r
  {
    var q', r' := x / d, x % d;
    assert q' * d + r' == q * d + r;
    if q' > q {
      MulLe(q + 1, q', d);
    } else if q' < q {
      MulLe(q' + 1, q, d);
    }
  }

  lemma MulNext(c: int, x: int, y: int)
    requires c >= 0 && x < y
    ensures c * x + c <= c * y
  {
    MulLe(x + 1, y, c);
  }

  lemma ModuloBack(k: nat, m: nat)
    requires 0 < m <= k
    ensures (k - m) % m == k % m && k % m <= k - m
  {
    var q, r := k / m, k % m;
    assert k == m * q + r;
    assert k - m == m * (q - 1) + r;
    QuotientUnique(k - m, m, q - 1, r);
    MulLe(0, q - 1, m);
  }

  lemma MulLe(a: int, b: int, d: int)
    requires a <= b && d >= 0
    ensures a * d <= b * d
  {
  }

  lemma {:induction false} ShlBit(x: nat, s: nat, k: nat)
    ensures Bit(Shl(x, s), k) == (k >= s && Bit(x, k - s))
    decreases s
  {
    if s > 0 {
      var y := Shl(x, s - 1);
      assert Shl(x, s) == 2 * y;
      if k > 0 { ShlBit(x, s - 1, k - 1); }
    }
  }

  /** Bits at or above the width of a number are clear ... */
  lemma {:induction false} HighBits(x: nat, n: nat, k: nat)
    requires x < Pow2(n) && k >= n
    ensures !Bit(x, k)
  {
    if n == 0 {
      BitOfZero(k);
    } else {
      HighBits(x / 2, n - 1, k - 1);
    }
  }

  /** ... and a number whose bits from n upward are clear is below 2^n. */
  lemma {:induction false} BitsBound(x: nat, n: nat)
    requires forall k :: k >= n ==> !Bit(x, k)
    ensures x < Pow2(n)
    decreases n, x
  {
    if n == 0 {
      if x > 0 {
        var k := TopBit(x);
        assert false;
      }
    } else {
      forall k | k >= n - 1 ensures !Bit(x / 2, k) {
        assert !Bit(x, k + 1);
      }
      BitsBound(x / 2, n - 1);
    }
  }

  lemma TopBit(x: nat) returns (k: nat)
    requires x > 0
    ensures Bit(x, k)
  {
    if x % 2 == 1 {
      k := 0;
    } else {
      var j := TopBit(x / 2);
      k := j + 1;
    }
  }

  /** Two numbers with the same bits are the same number. */
  lemma {:induction false} SameBits(x: nat, y: nat)
    requires forall k: nat :: Bit(x, k) == Bit(y, k)
    ensures x == y
    decreases x + y
  {
    if x == 0 && y == 0 {
    } else {
      assert Bit(x, 0) == Bit(y, 0);
      forall k: nat ensures Bit(x / 2, k) == Bit(y / 2, k) {
        assert Bit(x, k + 1) == Bit(y, k + 1);
      }
      SameBits(x / 2, y / 2);
    }
  }

  /** The mask (1 << s) - 1 selects exactly the s low bits. */
  lemma {:induction false} MaskBit(s: nat, k: nat)
    ensures Bit(Pow2(s) - 1, k) == (k < s)
  {
    if s == 0 {
      BitOfZero(k);
    } else if k > 0 {
      assert (Pow2(s) - 1) / 2 == Pow2(s - 1) - 1;
      MaskBit(s - 1, k - 1);
    }
  }

  lemma {:induction false} Pow2Add(a: nat, b: nat)
    ensures Pow2(a + b) == Pow2(a) * Pow2(b)
  {
    if a > 0 { Pow2Add(a - 1, b); }
  }

  lemma {:induction false} Pow2Mono(a: nat, b: nat)
    requires a <= b
    ensures Pow2(a) <= Pow2(b)
    decreases b
  {
    if a < b { Pow2Mono(a, b - 1); }
  }

  lemma {:induction false} ShiftBack(d: nat, low: nat, n: nat)
    requires low < Pow2(n)
    ensures Shr(Shl(d, n) + low, n) == d
  {
    if n > 0 { ShiftBack(d, low / 2, n - 1); }
  }

  /** A number split at bit n. */
  lemma {:induction false} SplitAt(x: nat, n: nat) returns (low: nat)
    ensures low < Pow2(n) && x == Shl(Shr(x, n), n) + low
  {
    if n == 0 {
      low := 0;
    } else {
      var l := SplitAt(x / 2, n - 1);
      low := 2 * l + x % 2;
    }
  }

  lemma {:induction false} ShlBound(d: nat, n: nat, m: nat)
    requires d < Pow2(m)
    ensures Shl(d, n) + Pow2(n) <= Pow2(m + n)
  {
    if n > 0 { ShlBound(d, n - 1, m); }
  }

  lemma {:induction false} ShrBound(x: nat, n: nat, m: nat)
    requires x < Pow2(m + n)
    ensures Shr(x, n) < Pow2(m)
  {
    if n > 0 { ShrBound(x / 2, n - 1, m); }
  }

  // ---------------------------------------------------------------- the group of words under ^

  lemma {:induction false} XorComm(x: nat, y: nat)
    ensures Xor(x, y) == Xor(y, x)
  {
    if x != 0 || y != 0 { XorComm(x / 2, y / 2); }
  }

  lemma {:induction false} XorAssoc(x: nat, y: nat, z: nat)
    ensures Xor(Xor(x, y), z) == Xor(x, Xor(y, z))
    decreases x + y + z
  {
    if x + y + z > 0 {
      XorUnfold(x, y);
      XorUnfold(y, z);
      XorUnfold(Xor(x, y), z);
      XorUnfold(x, Xor(y, z));
      XorAssoc(x / 2, y / 2, z / 2);
    }
  }

  lemma XorUnfold(x: nat, y: nat)
    ensures Xor(x, y) == Cons((x % 2 == 1) != (y % 2 == 1), Xor(x / 2, y / 2))
  {
  }

  lemma {:induction false} XorZero(x: nat)
    ensures Xor(x, 0) == x && Xor(0, x) == x
  {
    if x != 0 { XorZero(x / 2); }
  }

  lemma {:induction false} XorSelf(x: nat)
    ensures Xor(x, x) == 0
  {
    if x != 0 { XorSelf(x / 2); }
  }

  /** Adding the same word twice changes nothing. */
  lemma XorCancel(x: nat, y: nat)
    ensures Xor(Xor(x, y), y) == x
    ensures Xor(y, Xor(y, x)) == x
  {
    XorAssoc(x, y, y);
    XorAssoc(y, y, x);
    XorSelf(y);
    XorZero(x);
  }

  lemma XorEqualsZero(x: nat, y: nat)
    requires Xor(x, y) == 0
    ensures x == y
  {
    XorCancel(x, y);
    XorZero(y);
  }

  lemma {:induction false} XorBound(x: nat, y: nat, n: nat)
    requires x < Pow2(n) && y < Pow2(n)
    ensures Xor(x, y) < Pow2(n)
  {
    if n > 0 {
      XorUnfold(x, y);
      XorBound(x / 2, y / 2, n - 1);
    }
  }

  /** Two words with the same top bit cancel it. */
  lemma {:induction false} XorClearsTop(x: nat, y: nat, n: nat)
    requires Pow2(n) <= x < Pow2(n + 1) && Pow2(n) <= y < Pow2(n + 1)
    ensures Xor(x, y) < Pow2(n)
  {
    XorUnfold(x, y);
    if n > 0 { XorClearsTop(x / 2, y / 2, n - 1); }
  }

  lemma {:induction false} TopBitSet(x: nat, n: nat)
    requires x < Pow2(n + 1)
    ensures Bit(x, n) == (x >= Pow2(n))
  {
    if n > 0 { TopBitSet(x / 2, n - 1); }
  }

  lemma {:induction false} Pow2Bit(n: nat, k: nat)
    ensures Bit(Pow2(n), k) == (k == n)
  {
    if n == 0 {
      if k > 0 { BitOfZero(k - 1); }
    } else if k > 0 {
      Pow2Bit(n - 1, k - 1);
    }
  }

  /** Testing one bit with a mask. */
  lemma AndPow2(x: nat, n: nat)
    ensures (And(Pow2(n), x) != 0) == Bit(x, n)
  {
    forall k: nat ensures Bit(And(Pow2(n), x), k) == (k == n && Bit(x, n)) {
      AndBit(Pow2(n), x, k);
      Pow2Bit(n, k);
    }
    if And(Pow2(n), x) == 0 {
      BitOfZero(n);
    } else {
      var k := TopBit(And(Pow2(n), x));
    }
  }
}
