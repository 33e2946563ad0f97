/** The incremental Sieve of Eratosthenes behind `isPrime`: a set of known
    non-primes, complete up to an inclusive bound `hi` that grows on demand. */
module Primality {
  import opened JsValues
  import opened IntSqrt

  ghost predicate IsPrime(n: int) {
    n >= 2 && forall d :: 2 <= d < n ==> n % d != 0
  }

  ghost predicate Composite(n: int) {
    n >= 2 && !IsPrime(n)
  }

  /** The sieve's `max` helper. */
  function Max(a: int, b: int): (m: int)
    ensures a <= m && b <= m
    ensures m == a || m == b
  {
    if a > b then a else b
  }

  /** The least factor of c that is at least d, when c has none in [2, d). */
  function LeastFactorFrom(c: int, d: int): (f: int)
    requires 2 <= d <= c
    requires forall e :: 2 <= e < d ==> c % e != 0
    ensures d <= f <= c && c % f == 0
    ensures forall e :: 2 <= e < f ==> c % e != 0
    decreases c - d
  {
    if c % d == 0 then d
    else
      ModSelf(c);
      assert d < c;
      LeastFactorFrom(c, d + 1)
  }

  /** The least factor of c that is at least 2. */
  function LeastFactor(c: int): (f: int)
    requires c >= 2
    ensures 2 <= f <= c && c % f == 0
    ensures forall e :: 2 <= e < f ==> c % e != 0
  {
    LeastFactorFrom(c, 2)
  }

  lemma MulMonotone(a: int, b: int, k: int)
    requires 0 <= k && a <= b
    ensures a * k <= b * k
  {
  }

  /** a * k is a multiple of k. */
  lemma MultipleMod(a: int, k: int)
    requires k > 0
    ensures (a * k) % k == 0
  {
    var q, r := (a * k) / k, (a * k) % k;
    assert a * k == q * k + r;
    assert (a - q) * k == r;
    if a - q >= 1 {
      MulMonotone(1, a - q, k);
    } else if a - q <= -1 {
      MulMonotone(a - q, -1, k);
    }
  }

  lemma ModSelf(c: int)
    requires c > 0
    ensures c % c == 0
  {
    MultipleMod(1, c);
  }

  lemma LeastFactorBelow(c: int)
    requires Composite(c)
    ensures LeastFactor(c) < c
  {
    var d :| 2 <= d < c && c % d == 0;
  }

  /** The cofactor c / m of the least factor m is a factor too, so m * m <= c. */
  lemma LeastFactorSquared(c: int)
    requires Composite(c)
    ensures c >= 2 * LeastFactor(c) && LeastFactor(c) * LeastFactor(c) <= c
  {
    var m := LeastFactor(c);
    LeastFactorBelow(c);
    var k := c / m;
    assert c == m * k;
    if k <= 1 {
      MulMonotone(k, 1, m);
    }
    assert k >= 2;
    MulMonotone(2, k, m);
    MultipleMod(m, k);
    MulMonotone(2, m, k);
    assert c % k == 0 && k < c;
    assert m <= k;
    MulMonotone(m, k, m);
  }

  /** A composite number's least factor is at most its square root. */
  lemma LeastFactorOfComposite(c: int)
    requires Composite(c)
    ensures LeastFactor(c) < c
    ensures c >= 2 * LeastFactor(c)
    ensures LeastFactor(c) <= FloorSqrt(c)
  {
    var m := LeastFactor(c);
    LeastFactorBelow(c);
    LeastFactorSquared(c);
    var r := FloorSqrt(c);
    if r < m {
      SquareMonotone(r + 1, m);
    }
  }

  /** The multiples of p that one sieve extension from `h` to `n` marks. */
  ghost predicate MarkedBy(h: int, n: int, p: int, c: int) {
    0 <= n && 2 <= p <= FloorSqrt(n) && c % p == 0 && Max(h / p * p, 2 * p) <= c <= n
  }

  /** The extension never marks a prime (nor 1): what it marks is composite. */
  lemma MarkedIsComposite(h: int, n: int, p: int, c: int)
    requires MarkedBy(h, n, p, c)
    ensures Composite(c)
  {
    assert 2 <= p < c && c % p == 0;
  }

  /** The extension from `h` skips no composite in (h, n]: its least factor marks it. */
  lemma ExtensionMarksComposite(h: int, n: int, c: int)
    requires 1 <= h < c <= n && Composite(c)
    ensures MarkedBy(h, n, LeastFactor(c), c)
  {
    var p := LeastFactor(c);
    LeastFactorOfComposite(c);
    FloorSqrtMonotone(c, n);
    RoundDownBelow(h, p);
  }

  /** h / p * p, the start of the sieve's scan for p, is a multiple of p that is at most h. */
  lemma RoundDownBelow(h: int, p: int)
    requires 0 <= h && 0 < p
    ensures 0 <= h / p * p <= h && (h / p * p) % p == 0
  {
    MultipleMod(h / p, p);
  }

  lemma NextMultiple(c: int, p: int)
    requires 0 < p && c % p == 0
    ensures (c + p) % p == 0
  {
    var j := c / p;
    assert c + p == (j + 1) * p;
    MultipleMod(j + 1, p);
  }

  /** Two multiples of p less than p apart are equal. */
  lemma MultiplesApart(c: int, m: int, p: int)
    requires 0 < p && c % p == 0 && m % p == 0 && c <= m < c + p
    ensures m == c
  {
    var a, b := c / p, m / p;
    assert c == a * p && m == b * p;
    if a < b {
      MulMonotone(a + 1, b, p);
    } else if b < a {
      MulMonotone(b + 1, a, p);
    }
  }

  /** What the sieve holds once it is complete up to h: the Number 1 it was
      seeded with, and the BigInt of every composite in [2, h]. */
  ghost function SieveContents(h: int): set<JsValue> {
    {Number(1.0)} + set c | 2 <= c <= h && Composite(c) :: BigInt(c)
  }

  /** Membership in SieveContents, element by element. */
  lemma SieveContentsMembers(s: set<JsValue>, h: int)
    ensures s == SieveContents(h) <==>
              && Number(1.0) in s
              && (forall v :: v in s ==> v == Number(1.0) || (v.BigInt? && v.big <= h && Composite(v.big)))
              && (forall c :: 2 <= c <= h && Composite(c) ==> BigInt(c) in s)
  {
    var t := SieveContents(h);
    if Number(1.0) in s
      && (forall v :: v in s ==> v == Number(1.0) || (v.BigInt? && v.big <= h && Composite(v.big)))
      && (forall c :: 2 <= c <= h && Composite(c) ==> BigInt(c) in s)
    {
      forall v | v in t
        ensures v in s
      {
        if v != Number(1.0) {
          var c :| 2 <= c <= h && Composite(c) && v == BigInt(c);
        }
      }
      forall v | v in s
        ensures v in t
      {
        if v != Number(1.0) {
          assert 2 <= v.big <= h && Composite(v.big) && v == BigInt(v.big);
        }
      }
    }
  }

  /** The closure behind `isPrime`. `nonprimes` starts out holding the Number 1,
      not the BigInt 1n, and the sieve only ever adds BigInts. */
  class IncrementalSieve {
    var nonprimes: set<JsValue>
    var hi: int
    const isqrt: MemoSqrt

    /** The sieve invariant: `nonprimes` holds the seed and, up to `hi`, exactly
        the composites. */
    ghost predicate Valid()
      reads this, isqrt
    {
      isqrt.Valid() && 1 <= hi && nonprimes == SieveContents(hi)
    }

    constructor (root: MemoSqrt)
      requires root.Valid()
      ensures Valid()
      ensures isqrt == root && hi == 1 && nonprimes == {Number(1.0)}
    {
      nonprimes := {Number(1.0)};
      hi := 1;
      isqrt := root;
    }

    /** isPrime(v): rejects anything but a positive BigInt before touching the
        sieve; otherwise extends the sieve to v if v > hi and answers whether v
        is absent from `nonprimes`. */
    method Query(v: JsValue) returns (r: Result<bool>)
      requires Valid()
      modifies this, isqrt
      ensures Valid()
      ensures isqrt.n1 >= old(isqrt.n1) && isqrt.n2 >= old(isqrt.n2)
      ensures !(v.BigInt? && v.big > 0) ==>
                && r == Err(PositiveExpected)
                && nonprimes == old(nonprimes) && hi == old(hi)
                && isqrt.table == old(isqrt.table) && isqrt.n1 == old(isqrt.n1) && isqrt.n2 == old(isqrt.n2)
      ensures v.BigInt? && v.big > 0 ==>
                && r == Ok(BigInt(v.big) !in nonprimes)
                && r == Ok(!Composite(v.big))
                && (v.big >= 2 ==> r == Ok(IsPrime(v.big)))
                && (v.big == 1 ==> r == Ok(true))
                && hi == Max(old(hi), v.big)
                && (old(hi) < v.big ==> v.big <= isqrt.n2)
                && (v.big <= old(hi) ==>
                      && nonprimes == old(nonprimes)
                      && isqrt.table == old(isqrt.table) && isqrt.n1 == old(isqrt.n1) && isqrt.n2 == old(isqrt.n2))
                && old(nonprimes) <= nonprimes
    {
      if !(v.BigInt? && v.big > 0) {
        return Err(PositiveExpected);
      }
      var n := v.big;
      SieveContentsMembers(nonprimes, hi);
      if n > hi {
        var p := 2;
        var q := isqrt.Query(BigInt(n));
        while p <= q.value
          invariant q == Ok(FloorSqrt(n)) && 2 <= p <= q.value + 1 && n <= isqrt.n2
          invariant isqrt.Valid() && isqrt.n1 >= old(isqrt.n1) && isqrt.n2 >= old(isqrt.n2)
          invariant hi == old(hi) && old(nonprimes) <= nonprimes && Number(1.0) in nonprimes
          invariant forall x :: x in nonprimes ==> x == Number(1.0) || (x.BigInt? && x.big <= n && Composite(x.big))
          invariant forall c :: 2 <= c <= hi && Composite(c) ==> BigInt(c) in nonprimes
          invariant forall c :: hi < c <= n && Composite(c) && LeastFactor(c) < p ==> BigInt(c) in nonprimes
        {
          MarkMultiples(p, n);
          p := p + 1;
          q := isqrt.Query(BigInt(n));
        }
        forall c | hi < c <= n && Composite(c)
          ensures BigInt(c) in nonprimes
        {
          LeastFactorOfComposite(c);
          FloorSqrtMonotone(c, n);
        }
        hi := n;
        SieveContentsMembers(nonprimes, hi);
      }
      r := Ok(BigInt(n) !in nonprimes);
    }

    /** The inner loop of an extension: mark every multiple of p from
        max(hi / p * p, 2p) up to n. */
    method MarkMultiples(p: int, n: int)
      requires 1 <= hi < n && 2 <= p <= FloorSqrt(n)
      requires forall x :: x in nonprimes ==> x == Number(1.0) || (x.BigInt? && x.big <= n && Composite(x.big))
      modifies this
      ensures hi == old(hi)
      ensures nonprimes == old(nonprimes) + set c | 0 <= c <= n && MarkedBy(hi, n, p, c) :: BigInt(c)
      ensures forall x :: x in nonprimes ==> x == Number(1.0) || (x.BigInt? && x.big <= n && Composite(x.big))
      ensures forall c :: hi < c <= n && Composite(c) && LeastFactor(c) == p ==> BigInt(c) in nonprimes
    {
      var start := Max(hi / p * p, p * 2);
      RoundDownBelow(hi, p);
      MultipleMod(2, p);
      var c := start;
      while c <= n
        invariant hi == old(hi) && start <= c && c % p == 0
        invariant forall m :: start <= m < c && m % p == 0 ==> BigInt(m) in nonprimes
        invariant nonprimes == old(nonprimes) + set m | start <= m < c && m <= n && m % p == 0 :: BigInt(m)
        decreases n - c
      {
        nonprimes := nonprimes + {BigInt(c)};
        forall m | c <= m < c + p && m % p == 0
          ensures m == c
        {
          MultiplesApart(c, m, p);
        }
        NextMultiple(c, p);
        c := c + p;
      }
      assert forall m :: MarkedBy(hi, n, p, m) <==> start <= m <= n && m % p == 0;
      forall c | hi < c <= n && Composite(c) && LeastFactor(c) == p
        ensures BigInt(c) in nonprimes
      {
        ExtensionMarksComposite(hi, n, c);
      }
    }
  }
}
