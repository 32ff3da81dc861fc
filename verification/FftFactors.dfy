/** kf_factor: splitting the transform length into radices. */
module FftFactors {
  import opened Bits
  import opened FftStages
  import opened KissFft

  function Product(d: int, e: int): int { d * e }

  ghost predicate Divides(d: int, n: int) {
    exists e :: n == Product(d, e)
  }

  ghost predicate IsPrime(p: int) {
    p >= 2 && forall d :: 2 <= d < p ==> !Divides(d, p)
  }

  /** No number from 2 up to p, p excluded, divides n. */
  ghost predicate Cleared(n: int, p: int) {
    forall d :: 2 <= d < p ==> !Divides(d, n)
  }

  lemma ModDivides(d: nat, n: nat)
    requires d > 0
    ensures n % d == 0 <==> Divides(d, n)
  {
    if n % d == 0 {
      assert n == Product(d, n / d);
    }
    if Divides(d, n) {
      var e :| n == Product(d, e);
      ExactMod(d, e, n);
    }
  }

  lemma ExactMod(d: int, e: int, n: int)
    requires d > 0 && n == d * e
    ensures n % d == 0 && n / d == e
  {
    assert n == d * (n / d) + n % d;
    if n / d > e {
      MulNext(d, e, n / d);
    } else if n / d < e {
      MulNext(d, n / d, e);
    }
  }

  lemma DividesTrans(d: int, e: int, n: int)
    requires Divides(d, e) && Divides(e, n)
    ensures Divides(d, n)
  {
    var a :| e == Product(d, a);
    var b :| n == Product(e, b);
    assert (d * a) * b == d * (a * b);
    assert n == Product(d, a * b);
  }

  /** A first divisor is prime. */
  lemma FirstDivisorIsPrime(p: int, n: int)
    requires p >= 2 && Cleared(n, p) && Divides(p, n)
    ensures IsPrime(p)
  {
    forall d | 2 <= d < p ensures !Divides(d, p) {
      if Divides(d, p) {
        DividesTrans(d, p, n);
      }
    }
  }

  /** With nothing below its square root dividing it, a number is prime. */
  lemma NoSmallDivisorIsPrime(n: int, p: int)
    requires n >= 2 && p >= 2 && Cleared(n, p) && p * p > n
    ensures IsPrime(n)
  {
    forall d | 2 <= d < n ensures !Divides(d, n) {
      if Divides(d, n) {
        var e :| n == Product(d, e);
        CofactorAtLeastTwo(d, e, n);
        assert n == Product(e, d);
        assert Divides(e, n);
        assert d >= p && e >= p;
        BothLarge(d, e, p);
      }
    }
  }

  lemma CofactorAtLeastTwo(d: int, e: int, n: int)
    requires 2 <= d < n && n == d * e
    ensures e >= 2
  {
    if e <= 0 {
      Bits.MulLe(e, 0, d);
    }
  }

  lemma BothLarge(d: int, e: int, p: int)
    requires d >= p && e >= p && p >= 0
    ensures d * e >= p * p
  {
    Bits.MulLe(p, e, d);
    Bits.MulLe(p, d, p);
  }

  /** The stages written so far take n down to rest. */
  predicate Leads(factors: seq<Stage>, n: nat, rest: nat) {
    if |factors| == 0 then n == rest
    else
      && factors[0].p > 0 && factors[0].m > 0 && factors[0].p * factors[0].m == n
      && (if |factors| == 1 then factors[0].m == rest else factors[0].m > 1 && Leads(factors[1..], factors[0].m, rest))
  }

  lemma {:induction false} LeadsOn(factors: seq<Stage>, n: nat, rest: nat, p: nat, m: nat)
    requires Leads(factors, n, rest) && p > 0 && m > 0 && p * m == rest && (rest > 1 || |factors| == 0)
    ensures Leads(factors + [Stage(p, m)], n, m)
  {
    var all := factors + [Stage(p, m)];
    if |factors| > 0 {
      assert all[1..] == factors[1..] + [Stage(p, m)];
      if |factors| == 1 {
        assert all[1..] == [Stage(p, m)];
      } else {
        LeadsOn(factors[1..], factors[0].m, rest, p, m);
      }
    }
  }

  lemma {:induction false} LeadsToChain(factors: seq<Stage>, n: nat)
    requires Leads(factors, n, 1) && |factors| > 0
    ensures Chain(factors, n)
  {
    if |factors| > 1 {
      LeadsToChain(factors[1..], factors[0].m);
    }
  }

  // ---------------------------------------------------------------- the search

  /** What is known when p is tried on rest. */
  ghost predicate Candidate(rest: nat, p: nat, floorSqrt: nat) {
    p == 4 || p == 2 || (3 <= p <= floorSqrt && p % 2 == 1 && Cleared(rest, p))
  }

  ghost predicate Radix(p: nat, n: nat) {
    p == 4 || IsPrime(p) || (p == 1 && n == 1)
  }

  lemma NextOdd(rest: nat, p: nat)
    requires p >= 3 && p % 2 == 1 && Cleared(rest, p) && rest % p != 0
    ensures Cleared(rest, p + 2)
  {
    ModDivides(p, rest);
    if Divides(p + 1, rest) {
      assert p + 1 == Product(2, (p + 1) / 2);
      DividesTrans(2, p + 1, rest);
    }
  }

  lemma AfterTwo(rest: nat)
    requires rest % 2 != 0
    ensures Cleared(rest, 3)
  {
    ModDivides(2, rest);
  }

  lemma TinyIsPrime(rest: nat)
    requires 2 <= rest < 4
    ensures IsPrime(rest)
  {
    ModDivides(2, rest);
  }

  /** Past the square root, what remains is one or prime. */
  lemma LastIsPrime(rest: nat, p: nat, floorSqrt: nat)
    requires rest >= 2 && p > floorSqrt && rest < (floorSqrt + 1) * (floorSqrt + 1)
    requires p == 2 || (p >= 3 && Cleared(rest, p))
    ensures IsPrime(rest)
  {
    if p == 2 {
      BothLarge(2, 2, floorSqrt + 1);
      TinyIsPrime(rest);
    } else {
      BothLarge(p, p, floorSqrt + 1);
      NoSmallDivisorIsPrime(rest, p);
    }
  }

  lemma {:induction false} RestCleared(rest: nat, p: nat, m: nat)
    requires Cleared(rest, p) && rest == p * m
    ensures Cleared(m, p)
  {
    assert rest == Product(m, p);
    forall d | 2 <= d < p ensures !Divides(d, m) {
      if Divides(d, m) {
        DividesTrans(d, m, rest);
      }
    }
  }

  method FindRadix(rest: nat, from: nat, floorSqrt: nat) returns (p: nat)
    requires rest > 0 && Candidate(rest, from, floorSqrt) && rest < (floorSqrt + 1) * (floorSqrt + 1)
    ensures p > 0 && rest % p == 0 && Radix(p, rest) && (p == rest || Candidate(rest, p, floorSqrt))
  {
    ExactMod(rest, 1, rest);
    p := from;
    while rest % p != 0
      invariant Candidate(rest, p, floorSqrt) || (p == rest && (rest == 1 || IsPrime(rest)))
      decreases if rest % p == 0 then 0
                else if p == 4 then floorSqrt + 10 else if p == 2 then floorSqrt + 9 else floorSqrt + 5 - p
    {
      if p == 2 {
        AfterTwo(rest);
      } else if p != 4 {
        NextOdd(rest, p);
      }
      match p {
        case 4 => p := 2;
        case 2 => p := 3;
        case _ => p := p + 2;
      }
      if p > floorSqrt {
        if rest >= 2 {
          LastIsPrime(rest, p, floorSqrt);
        }
        p := rest;
      }
    }
    RadixFound(rest, p, floorSqrt);
  }

  lemma RadixFound(rest: nat, p: nat, floorSqrt: nat)
    requires p > 0 && rest % p == 0
    requires Candidate(rest, p, floorSqrt) || (p == rest && (rest == 1 || IsPrime(rest)))
    ensures Radix(p, rest)
  {
    ModDivides(p, rest);
    if Candidate(rest, p, floorSqrt) && p != 4 {
      FirstDivisorIsPrime(p, rest);
    }
  }

  lemma RadixAtLeastTwo(p: nat, rest: nat)
    requires Radix(p, rest) && rest > 1
    ensures p >= 2
  {
  }

  lemma Shrinks(n: nat, k: nat, p: nat, m: nat, rest: nat)
    requires Pow2(k) * rest <= n && p >= 2 && p * m == rest
    ensures Pow2(k + 1) * m <= n && (rest > 0 ==> m < rest)
  {
    assert Pow2(k + 1) == 2 * Pow2(k);
    Bits.MulLe(2, p, m);
    Bits.MulLe(2 * m, rest, Pow2(k));
    assert Pow2(k + 1) * m == (2 * m) * Pow2(k);
    assert rest * Pow2(k) == Pow2(k) * rest;
  }

  /** kf_factor; floorSqrt is what floor(sqrt(n)) returns. */
  method Factor(n: nat, floorSqrt: nat) returns (factors: seq<Stage>)
    requires n > 0 && floorSqrt * floorSqrt <= n < (floorSqrt + 1) * (floorSqrt + 1)
    ensures Chain(factors, n) && factors[|factors| - 1].m == 1
    ensures forall i :: 0 <= i < |factors| ==> Radix(factors[i].p, n)
    ensures if n == 1 then |factors| == 1 else Pow2(|factors|) <= n
  {
    hide IsPrime;
    hide Candidate;
    hide Chain;
    var p, rest := 4, n;
    factors := [];
    var more := true;
    StartCandidate(n, floorSqrt);
    while more
      invariant 1 <= rest <= n && Leads(factors, n, rest) && (more <==> rest > 1 || |factors| == 0)
      invariant more ==> Candidate(rest, p, floorSqrt)
      invariant forall i :: 0 <= i < |factors| ==> Radix(factors[i].p, n)
      invariant |factors| > 0 ==> factors[|factors| - 1].m == rest
      invariant if n == 1 then |factors| <= 1 else Pow2(|factors|) * rest <= n
      decreases rest, more
    {
      p := FindRadix(rest, p, floorSqrt);
      Quotient(rest, p);
      LeadsOn(factors, n, rest, p, rest / p);
      if n > 1 {
        RadixAtLeastTwo(p, rest);
        Shrinks(n, |factors|, p, rest / p, rest);
      }
      NextCandidate(rest, p, floorSqrt);
      rest := rest / p;
      factors := factors + [Stage(p, rest)];
      more := rest > 1;
    }
    LeadsToChain(factors, n);
  }

  lemma StartCandidate(n: nat, floorSqrt: nat)
    ensures Candidate(n, 4, floorSqrt)
  {
  }

  lemma Quotient(rest: nat, p: nat)
    requires p > 0 && rest > 0 && rest % p == 0
    ensures p * (rest / p) == rest && 0 < rest / p <= rest && p <= rest
  {
    var m := rest / p;
    assert rest == p * m;
    if m <= 0 {
      Bits.MulLe(m, 0, p);
    }
    Bits.MulLe(1, p, m);
    Bits.MulLe(1, m, p);
  }

  lemma NextCandidate(rest: nat, p: nat, floorSqrt: nat)
    requires p > 0 && rest > 0 && rest % p == 0 && (p == rest || Candidate(rest, p, floorSqrt))
    ensures rest / p > 1 ==> Candidate(rest / p, p, floorSqrt)
  {
    Quotient(rest, p);
    if p == rest {
      ExactMod(p, 1, rest);
    } else if p != 4 && p != 2 {
      RestCleared(rest, p, rest / p);
    }
  }
}
