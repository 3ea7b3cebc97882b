/**
 * What the two hash tables of include/HashTable_Chaining and
 * include/HashTable_OpenAd have in common: the load factor, kept as a float
 * there and as a fraction here, and `get_next_prime`, which both classes
 * define with the same body.
 */
module HashSupport {

  // -------------------------------------------------------------- load factor

  /** A load factor `num / den`; the tables start with 3/4 and accept at most
      1/1. */
  datatype Ratio = Ratio(num: int, den: nat)

  const DefaultLoadFactor: Ratio := Ratio(3, 4)
  const MaxLoadFactor: Ratio := Ratio(1, 1)

  /** The test `count / size > lf` of `add` and `reserve`, without division. */
  predicate Exceeds(count: nat, size: nat, lf: Ratio)
  {
    count * lf.den > size * lf.num
  }

  /** The test of `load_factor(lf)`: neither `lf <= 0` nor
      `lf > m_max_load_factor`. */
  predicate Acceptable(lf: Ratio)
  {
    lf.den > 0 && 0 < lf.num && lf.num * MaxLoadFactor.den <= MaxLoadFactor.num * lf.den
  }

  /** The hash that sends an integer to itself (negative ones to 0), used by
      the examples. */
  function Identity(x: int): nat
  {
    if x < 0 then 0 else x
  }

  // ---------------------------------------------------------- arithmetic

  /** A number with no divisor between 2 and itself. */
  ghost predicate IsPrime(p: int)
  {
    2 <= p && forall d :: 2 <= d < p ==> p % d != 0
  }

  lemma {:induction false} MulAtLeast(b: int, n: int)
    requires b > 0 && n >= 1
    ensures b * n >= b
    decreases n
  {
    if n > 1 {
      MulAtLeast(b, n - 1);
      assert b * n == b * (n - 1) + b;
    }
  }

  /** Euclidean division has a single quotient and remainder. */
  lemma DivModUnique(a: int, b: int, q: int, r: int)
    requires b > 0 && 0 <= r < b && a == b * q + r
    ensures a % b == r && a / b == q
  {
    var q', r' := a / b, a % b;
    var d := q - q';
    assert b * d == r' - r;
    if d >= 1 {
      MulAtLeast(b, d);
    } else if d <= -1 {
      assert b * (-d) == -(b * d);
      MulAtLeast(b, -d);
    }
  }

  lemma MulMod(a: int, b: int)
    requires b > 0
    ensures (a * b) % b == 0
  {
    DivModUnique(a * b, b, a, 0);
  }

  lemma MulModPlusOne(a: int, b: int)
    requires b > 1
    ensures (a * b + 1) % b == 1
  {
    DivModUnique(a * b + 1, b, a, 1);
  }

  /** A divisor of a divisor divides. */
  lemma DividesTrans(n: int, d: int, e: int)
    requires d > 0 && e > 0 && n % d == 0
    ensures d % e == 0 ==> n % e == 0
  {
    if d % e == 0 {
      var a, b := n / d, d / e;
      assert n == a * d;
      assert d == b * e;
      assert n == (a * b) * e;
      MulMod(a * b, e);
    }
  }

  /** An even number above 2 is not prime. */
  lemma EvenNotPrime(y: int)
    requires 2 < y && y % 2 == 0
    ensures !IsPrime(y)
  {
    assert 2 <= 2 < y && y % 2 == 0;
  }

  /** The test of the inner loop of `get_next_prime`: no divisor up to the
      square root means prime. */
  lemma NoSmallDivisor(x: int, i: int)
    requires 2 <= x && 2 <= i && x < i * i
    requires forall d :: 2 <= d < i ==> x % d != 0
    ensures IsPrime(x)
  {
    forall d | 2 <= d < x
      ensures x % d != 0
    {
      OtherFactor(x, d, i);
    }
  }

  /** If `d` divides `x`, so does `x / d`, and one of the two is below `i`. */
  lemma OtherFactor(x: int, d: int, i: int)
    requires 2 <= x && 2 <= d < x && 2 <= i && x < i * i
    ensures x % d == 0 ==> exists e :: 2 <= e < i && x % e == 0
  {
    if x % d == 0 {
      var q := x / d;
      DivExact(x, d);
      if q <= 1 {
        MulMono(1, q, d);
      }
      MulMod(d, q);
      if d >= i && q >= i {
        MulMono(d, i, q);
        MulMono(q, i, i);
      }
      if d < i {
        assert 2 <= d < i && x % d == 0;
      } else {
        assert 2 <= q < i && x % q == 0;
      }
    }
  }

  /** A divisor times its quotient gives the number back. */
  lemma DivExact(x: int, d: int)
    requires d > 0 && x % d == 0
    ensures x == (x / d) * d && x == d * (x / d)
  {
  }

  lemma MulMono(a: int, b: int, c: int)
    requires a >= b && c >= 0
    ensures a * c >= b * c
  {
    assert a * c - b * c == (a - b) * c;
  }

  function Factorial(n: nat): nat
  {
    if n == 0 then 1 else n * Factorial(n - 1)
  }

  lemma {:induction false} FactorialPositive(n: nat)
    ensures Factorial(n) >= 1
  {
    if n > 0 {
      FactorialPositive(n - 1);
      MulAtLeast(Factorial(n - 1), n);
    }
  }

  lemma {:induction false} FactorialDivisible(n: nat, d: nat)
    requires 1 <= d <= n
    ensures Factorial(n) % d == 0
    decreases n
  {
    var f := Factorial(n - 1);
    assert Factorial(n) == n * f;
    if d == n {
      MulMod(f, n);
    } else {
      FactorialDivisible(n - 1, d);
      var a := f / d;
      DivExact(f, d);
      Regroup(n, a, d);
      MulMod(n * a, d);
    }
  }

  lemma Regroup(n: int, a: int, d: int)
    ensures n * (a * d) == (n * a) * d
  {
  }

  /** The least divisor from `lo` up. */
  lemma {:induction false} LeastDivisorFrom(n: nat, lo: nat) returns (d: nat)
    requires 2 <= lo <= n
    requires forall e :: 2 <= e < lo ==> n % e != 0
    ensures 2 <= d <= n && n % d == 0
    ensures forall e :: 2 <= e < d ==> n % e != 0
    decreases n - lo
  {
    if lo == n {
      MulMod(1, n);
      d := n;
    } else if n % lo == 0 {
      d := lo;
    } else {
      d := LeastDivisorFrom(n, lo + 1);
    }
  }

  /** There is a prime at least as large as any number (Euclid: the least
      divisor of `n! + 1`). */
  lemma PrimeAtLeast(x: nat) returns (p: nat)
    ensures x <= p && IsPrime(p)
  {
    FactorialPositive(x);
    var n := Factorial(x) + 1;
    p := LeastDivisorFrom(n, 2);
    forall e | 2 <= e < p
      ensures p % e != 0
    {
      DividesTrans(n, p, e);
    }
    if p <= x {
      FactorialDivisible(x, p);
      var a := Factorial(x) / p;
      assert Factorial(x) == a * p;
      MulModPlusOne(a, p);
    }
  }

  /** Numbers with the same remainder differ by a multiple. */
  lemma SameRemainder(x: int, y: int, n: int)
    requires n > 0 && x % n == y % n
    ensures (x - y) % n == 0
  {
    var qx, qy := x / n, y / n;
    assert x - y == n * (qx - qy);
    MulMod(qx - qy, n);
    assert (qx - qy) * n == n * (qx - qy);
  }

  lemma Distribute(a: int, b: int, c: int)
    ensures (a - b) * c == a * c - b * c
  {
  }

  /** A prime divides no product of two numbers between 0 and itself. */
  lemma {:induction false} NoZeroDivisor(p: int, a: int, b: int)
    requires IsPrime(p) && 0 < a < p && 0 < b < p
    ensures (a * b) % p != 0
    decreases a
  {
    if (a * b) % p == 0 {
      if a == 1 {
        DivModUnique(b, p, 0, b);
      } else {
        var q, r := p / a, p % a;
        assert r != 0;
        var m := (a * b) / p;
        DivExact(a * b, p);
        assert r == p - q * a;
        Distribute(p, q * a, b);
        assert (q * a) * b == q * (a * b);
        assert q * (a * b) == q * (m * p) == (q * m) * p;
        Distribute(b, q * m, p);
        assert r * b == (b - q * m) * p;
        MulMod(b - q * m, p);
        NoZeroDivisor(p, r, b);
      }
    }
  }

  // ------------------------------------------------------------ get_next_prime

  /** What `get_next_prime(x)` returns: 3 for `x <= 2`, otherwise the least
      prime not below `x`. */
  ghost predicate NextPrimeOf(x: nat, r: nat)
  {
    (x <= 2 ==> r == 3) &&
    (2 < x ==> x <= r && IsPrime(r) && forall y :: x <= y < r ==> !IsPrime(y))
  }

  /**
   * `get_next_prime(x)`: 3 for `x <= 2`; otherwise `x` is made odd and raised
   * by 2 until no `i` with `2 <= i` and `i * i <= x` divides it.
   */
  method NextPrime(x0: nat) returns (r: nat)
    ensures NextPrimeOf(x0, r)
    ensures 3 <= r && IsPrime(r)
  {
    if x0 <= 2 {
      NoSmallDivisor(3, 2);
      return 3;
    }
    var x := if x0 % 2 == 0 then x0 + 1 else x0;
    if x0 % 2 == 0 {
      EvenNotPrime(x0);
    }
    ghost var p := PrimeAtLeast(x);
    var notPrime := true;
    while notPrime
      invariant x % 2 == 1 && 3 <= x && x0 <= x
      invariant notPrime ==> x <= p && forall y :: x0 <= y < x ==> !IsPrime(y)
      invariant !notPrime ==> 5 <= x && x0 <= x - 2 && IsPrime(x - 2)
      invariant !notPrime ==> forall y :: x0 <= y < x - 2 ==> !IsPrime(y)
      decreases p + 2 - x
    {
      notPrime := false;
      var i := 2;
      while i * i <= x
        invariant 2 <= i
        invariant !notPrime
        invariant forall d :: 2 <= d < i ==> x % d != 0
        decreases x - i
      {
        MulAtLeast(i, i);
        if x % i == 0 {
          notPrime := true;
          break;
        }
        i := i + 1;
      }
      if notPrime {
        StepPastComposite(x0, x, i, p);
      } else {
        NoSmallDivisor(x, i);
      }
      x := x + 2;
    }
    r := x - 2;
  }

  /** One round of the outer loop that found a divisor `i` of `x`: neither `x`
      nor the even `x + 1` is prime, and the prime `p` is still ahead. */
  lemma StepPastComposite(x0: nat, x: nat, i: int, p: nat)
    requires x % 2 == 1 && 3 <= x && x0 <= x && x <= p && IsPrime(p)
    requires 2 <= i && i * i <= x && x % i == 0
    requires forall y :: x0 <= y < x ==> !IsPrime(y)
    ensures x + 2 <= p && forall y :: x0 <= y < x + 2 ==> !IsPrime(y)
  {
    MulAtLeast(i, i);
    assert 2 <= i < x && x % i == 0;
    EvenNotPrime(x + 1);
    assert p % 2 != 0;
  }

  /** The default request of both constructors is already prime. */
  lemma NineteenIsPrime()
    ensures IsPrime(19)
  {
    NoSmallDivisor(19, 5);
  }
}
