/** Powers of two and scaling by them: the arithmetic of binary significands. */
module Powers {

  function Pow2(n: nat): (r: nat)
    ensures r >= 1
  {
    if n == 0 then 1 else 2 * Pow2(n - 1)
  }

  /** v * 2^k for any integer k, by repeated doubling or halving. */
  function Scale(v: real, k: int): (r: real)
    decreases if k >= 0 then k else -k
  {
    if k == 0 then v else if k > 0 then 2.0 * Scale(v, k - 1) else Scale(v, k + 1) / 2.0
  }

  function Bit(b: bool): nat { if b then 1 else 0 }

  lemma Pow2Double(n: nat)
    ensures Pow2(n + 1) == 2 * Pow2(n)
  {
  }

  lemma {:induction false} Pow2Add(m: nat, n: nat)
    ensures Pow2(m + n) == Pow2(m) * Pow2(n)
  {
    if m == 0 {
      assert Pow2(0) == 1;
    } else {
      hide Pow2;
      Pow2Add(m - 1, n);
      Pow2Double(m - 1);
      Pow2Double(m - 1 + n);
      DoubleProduct(Pow2(m - 1), Pow2(n));
    }
  }

  lemma DoubleProduct(x: int, y: int)
    ensures (2 * x) * y == 2 * (x * y)
  {
  }

  lemma Pow2Order(m: nat, n: nat)
    requires Pow2(m) < Pow2(n)
    ensures m < n
  {
    if n <= m {
      Pow2Mono(n, m);
    }
  }

  lemma {:induction false} Pow2Mono(m: nat, n: nat)
    requires m <= n
    ensures Pow2(m) <= Pow2(n)
  {
    if m < n {
      Pow2Mono(m, n - 1);
    }
  }

  lemma {:induction false} Pow2Exceeds(n: nat)
    ensures Pow2(n) > n
  {
    if n != 0 {
      Pow2Exceeds(n - 1);
    }
  }

  lemma ScaleZero(v: real)
    ensures Scale(v, 0) == v
  {
  }

  lemma ScaleSucc(v: real, k: int)
    ensures Scale(v, k + 1) == 2.0 * Scale(v, k)
  {
  }

  lemma {:induction false} ScaleScale(v: real, j: int, k: int)
    ensures Scale(Scale(v, j), k) == Scale(v, j + k)
    decreases if k >= 0 then k else -k
  {
    if k > 0 {
      ScaleScale(v, j, k - 1);
      ScaleSucc(v, j + k - 1);
    } else if k < 0 {
      ScaleScale(v, j, k + 1);
      ScaleSucc(v, j + k);
    }
  }

  lemma {:induction false} ScaleSum(u: real, v: real, k: int)
    ensures Scale(u + v, k) == Scale(u, k) + Scale(v, k)
    ensures Scale(u - v, k) == Scale(u, k) - Scale(v, k)
    decreases if k >= 0 then k else -k
  {
    if k > 0 {
      ScaleSum(u, v, k - 1);
    } else if k < 0 {
      ScaleSum(u, v, k + 1);
    }
  }

  lemma {:induction false} ScaleSign(v: real, k: int)
    ensures v > 0.0 <==> Scale(v, k) > 0.0
    ensures v == 0.0 <==> Scale(v, k) == 0.0
    decreases if k >= 0 then k else -k
  {
    if k > 0 {
      ScaleSign(v, k - 1);
    } else if k < 0 {
      ScaleSign(v, k + 1);
    }
  }

  lemma ScaleMono(u: real, v: real, k: int)
    ensures u < v <==> Scale(u, k) < Scale(v, k)
    ensures u == v <==> Scale(u, k) == Scale(v, k)
  {
    ScaleSum(v, u, k);
    ScaleSign(v - u, k);
  }

  /** On integers a non-negative scaling is multiplication by Pow2. */
  lemma {:induction false} ScaleUp(n: int, k: nat)
    ensures Scale(n as real, k) == (n * Pow2(k)) as real
  {
    if k != 0 {
      ScaleUp(n, k - 1);
      DoubleProduct(Pow2(k - 1), n);
    }
  }

  /** Dividing by Pow2 and taking the floor is integer division. */
  lemma ScaleDown(n: int, k: nat)
    ensures Scale(n as real, 0 - k).Floor == n / Pow2(k)
    ensures Scale(n as real, 0 - k) == Scale(n as real, 0 - k).Floor as real <==> n % Pow2(k) == 0
  {
    hide Scale, Pow2;
    var p, x := Pow2(k), Scale(n as real, 0 - k);
    var q, r := n / p, n % p;
    assert n == q * p + r;
    ScaleZero(n as real);
    ScaleScale(n as real, 0 - k, k);
    ScaleUp(q, k);
    ScaleUp(q + 1, k);
    assert (q + 1) * p == q * p + p;
    ScaleMono(q as real, x, k);
    ScaleMono(x, (q + 1) as real, k);
    ScaleMono(x, q as real, k);
  }

  /** Scaling a factor scales the product. */
  lemma {:induction false} ScaleMul(u: real, v: real, w: real, k: int)
    requires w == u * v
    ensures Scale(u, k) * v == Scale(w, k)
    decreases if k >= 0 then k else -k
  {
    if k > 0 {
      ScaleMul(u, v, w, k - 1);
      MulHalf(Scale(u, k), Scale(u, k - 1), v);
    } else if k < 0 {
      ScaleMul(u, v, w, k + 1);
      MulHalf(Scale(u, k + 1), Scale(u, k), v);
    }
  }

  lemma MulHalf(x: real, y: real, v: real)
    requires x == 2.0 * y
    ensures x * v == 2.0 * (y * v)
  {
  }

  lemma ScaleProduct(x: real, y: real, w: real, j: int, k: int)
    requires w == x * y
    ensures Scale(x, j) * Scale(y, k) == Scale(w, j + k)
  {
    hide Scale;
    ScaleMul(y, x, w, k);
    ScaleMul(x, Scale(y, k), Scale(w, k), j);
    ScaleScale(w, k, j);
  }

  lemma DivModUnique(n: int, d: int, q: int, r: int)
    requires d > 0 && n == d * q + r && 0 <= r < d
    ensures n / d == q && n % d == r
  {
    assert d * (q - n / d) == n % d - r;
    NoSmallMultiple(d, q - n / d);
  }

  lemma NoSmallMultiple(d: int, k: int)
    requires -d < d * k < d
    ensures k == 0
  {
  }
}
