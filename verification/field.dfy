/** The scalar field of edwards25519 (arkworks `ark_ed25519::Fr`): integers
    modulo the order L of the prime-order subgroup.  A scalar is kept in its
    canonical range [0, L), and every operation reduces its integer result.

    Inverses are computed with the extended Euclidean algorithm, so `Inverse`
    is exact for any modulus: it succeeds precisely on the units.  That L is
    prime is a published fact this model does not prove; the few results that
    need it take `PrimeModulus()` as a hypothesis. */
module Field {
  import opened Wrappers

  /** 2^252 + 27742317777372353535851937790883648493 */
  const L: int := 7237005577332262213973186563042994240857116359379907606001950938285454250989

  type Scalar = x: int | 0 <= x < L

  /** Rust's `usize` on a 64-bit target.  Since 2^64 < L, the conversion
      `ScalarField::from(i as u64)` keeps the value, and a `Usize` is a `Scalar`. */
  type Usize = x: int | 0 <= x < 0x1_0000_0000_0000_0000

  function Add(a: Scalar, b: Scalar): Scalar {
    if a + b < L then a + b else a + b - L
  }

  function Sub(a: Scalar, b: Scalar): Scalar {
    if a >= b then a - b else a - b + L
  }

  /** `ZERO - a` */
  function Neg(a: Scalar): Scalar {
    Sub(0, a)
  }

  function Mul(a: Scalar, b: Scalar): Scalar { (a * b) % L }

  /** `x.pow([j])` */
  function Pow(x: Scalar, j: nat): Scalar {
    if j == 0 then 1 else Mul(Pow(x, j - 1), x)
  }

  /** s[0] + s[1] + ... + s[n-1], accumulated from 0 left to right. */
  function Sum(s: seq<Scalar>): Scalar {
    if |s| == 0 then 0 else Add(Sum(s[..|s| - 1]), s[|s| - 1])
  }

  // ---------------------------------------------------------------------------
  // Reduction modulo L commutes with the ring operations on int.

  lemma ModSmall(x: int)
    requires 0 <= x < L
    ensures x % L == x
  {
  }

  lemma ModShift(x: int, k: int)
    ensures (x + L * k) % L == x % L
  {
  }

  lemma ModMul(x: int, y: int)
    ensures ((x % L) * (y % L)) % L == (x * y) % L
  {
    var qx, rx := x / L, x % L;
    var qy, ry := y / L, y % L;
    assert x == L * qx + rx;
    assert y == L * qy + ry;
    calc {
      x * y;
      (L * qx + rx) * y;
      L * qx * y + rx * (L * qy + ry);
      rx * ry + L * (qx * y + rx * qy);
    }
    ModShift(rx * ry, qx * y + rx * qy);
  }

  lemma ModAdd(x: int, y: int)
    ensures Add(x % L, y % L) == (x + y) % L
  {
  }

  lemma ModSub(x: int, y: int)
    ensures Sub(x % L, y % L) == (x - y) % L
  {
  }

  // ---------------------------------------------------------------------------
  // Ring laws.

  lemma MulAssoc(a: Scalar, b: Scalar, c: Scalar)
    ensures Mul(Mul(a, b), c) == Mul(a, Mul(b, c))
  {
    var ab, bc := a * b, b * c;
    var s := ab * c;
    assert s == a * bc;
    ModSmall(a);
    ModSmall(c);
    ModMul(ab, c);
    assert Mul(Mul(a, b), c) == ((ab % L) * (c % L)) % L;
    ModMul(a, bc);
    assert Mul(a, Mul(b, c)) == ((a % L) * (bc % L)) % L;
  }

  lemma Distrib(a: Scalar, b: Scalar, c: Scalar)
    ensures Mul(a, Add(b, c)) == Add(Mul(a, b), Mul(a, c))
  {
    var p, q, s := a * b, a * c, a * (b + c);
    assert s == p + q;
    assert Add(b, c) == (b + c) % L;
    ModSmall(a);
    ModMul(a, b + c);
    assert Mul(a, Add(b, c)) == s % L;
    ModAdd(p, q);
  }

  lemma DistribSub(a: Scalar, b: Scalar, c: Scalar)
    ensures Mul(a, Sub(b, c)) == Sub(Mul(a, b), Mul(a, c))
  {
    var p, q, s := a * b, a * c, a * (b - c);
    assert s == p - q;
    assert Sub(b, c) == (b - c) % L;
    ModSmall(a);
    ModMul(a, b - c);
    assert Mul(a, Sub(b, c)) == s % L;
    ModSub(p, q);
  }

  lemma MulNeg(a: Scalar, b: Scalar)
    ensures Mul(Neg(a), b) == Neg(Mul(a, b))
  {
    var p, s := a * b, (0 - a as int) * b;
    assert s == 0 - p;
    assert Neg(a) == (0 - a as int) % L;
    ModSmall(b);
    ModMul(0 - a as int, b);
    assert Mul(Neg(a), b) == s % L;
    ModSub(0, p);
  }

  // ---------------------------------------------------------------------------
  // Sums.

  lemma {:induction false} SumAppend(a: seq<Scalar>, b: seq<Scalar>)
    ensures Sum(a + b) == Add(Sum(a), Sum(b))
    decreases |b|
  {
    if |b| == 0 {
      assert a + b == a;
    } else {
      var b' := b[..|b| - 1];
      assert (a + b)[..|a + b| - 1] == a + b';
      SumAppend(a, b');
      ModAdd(Sum(a) + Sum(b'), b[|b| - 1]);
      ModAdd(Sum(a), Sum(b') + b[|b| - 1]);
    }
  }

  /** Taking one summand out of the middle of a sum. */
  lemma SumRemove(b: seq<Scalar>, k: nat)
    requires k < |b|
    ensures Sum(b) == Add(Sum(b[..k] + b[k + 1..]), b[k])
  {
    var x, u, w := b[k], b[..k], b[k + 1..];
    assert b == (u + [x]) + w;
    SumAppend(u + [x], w);
    assert (u + [x])[..|u|] == u;
    assert Sum(u + [x]) == Add(Sum(u), x);
    SumAppend(u, w);
    AddSwapLast(Sum(u), x, Sum(w));
  }

  lemma AddSwapLast(a: Scalar, x: Scalar, w: Scalar)
    ensures Add(Add(a, x), w) == Add(Add(a, w), x)
  {
  }

  /** Summation does not depend on the order of the summands. */
  lemma {:induction false} SumPermutation(a: seq<Scalar>, b: seq<Scalar>)
    requires multiset(a) == multiset(b)
    ensures Sum(a) == Sum(b)
    decreases |a|
  {
    if |a| == 0 {
      assert |b| == |multiset(b)| == 0;
    } else {
      var x := a[|a| - 1];
      var a' := a[..|a| - 1];
      assert a == a' + [x];
      assert x in multiset(b);
      var k :| 0 <= k < |b| && b[k] == x;
      var b' := b[..k] + b[k + 1..];
      assert b == b[..k] + [x] + b[k + 1..];
      assert multiset(a') == multiset(a) - multiset{x};
      assert multiset(b') == multiset(b) - multiset{x};
      SumPermutation(a', b');
      SumRemove(b, k);
    }
  }

  /** (a+b)+(c+d) == (a+c)+(b+d) */
  lemma Add4Swap(a: Scalar, b: Scalar, c: Scalar, d: Scalar)
    ensures Add(Add(a, b), Add(c, d)) == Add(Add(a, c), Add(b, d))
  {
    ModAdd(a + b, c + d);
    ModAdd(a + c, b + d);
  }

  /** A sum of pointwise sums is the sum of the two sums. */
  lemma {:induction false} SumPointwiseAdd(a: seq<Scalar>, b: seq<Scalar>, s: seq<Scalar>)
    requires |a| == |s| && |b| == |s|
    requires forall i :: 0 <= i < |s| ==> s[i] == Add(a[i], b[i])
    ensures Sum(s) == Add(Sum(a), Sum(b))
    decreases |s|
  {
    if |s| > 0 {
      var n, a', b', s' := |s|, a[..|s| - 1], b[..|s| - 1], s[..|s| - 1];
      assert forall i :: 0 <= i < |s'| ==> s'[i] == Add(a'[i], b'[i]);
      SumPointwiseAdd(a', b', s');
      Add4Swap(Sum(a'), Sum(b'), a[n - 1], b[n - 1]);
    }
  }

  /** A common factor comes out of a sum. */
  lemma {:induction false} SumPointwiseScale(k: Scalar, a: seq<Scalar>, s: seq<Scalar>)
    requires |a| == |s|
    requires forall i :: 0 <= i < |s| ==> s[i] == Mul(k, a[i])
    ensures Sum(s) == Mul(k, Sum(a))
    decreases |s|
  {
    if |s| > 0 {
      var n := |s|;
      SumPointwiseScale(k, a[..n - 1], s[..n - 1]);
      Distrib(k, Sum(a[..n - 1]), a[n - 1]);
    } else {
      assert Mul(k, 0) == 0;
    }
  }

  // ---------------------------------------------------------------------------
  // Divisibility and the extended Euclidean algorithm.

  predicate Divides(d: int, n: int) {
    d != 0 && n % d == 0
  }

  lemma MulModSelf(g: int, k: int)
    requires g > 0
    ensures (g * k) % g == 0
  {
    var m := g * k;
    var j := k - m / g;
    assert m == g * (m / g) + m % g;
    assert g * j == m % g;
  }

  lemma DividesStep(g: int, a: nat, b: nat)
    requires g > 0 && b > 0 && b % g == 0 && (a % b) % g == 0
    ensures a % g == 0
  {
    var kb, kr := b / g, (a % b) / g;
    assert b == g * kb;
    assert a % b == g * kr;
    calc {
      a;
      b * (a / b) + a % b;
      g * kb * (a / b) + g * kr;
      g * (kb * (a / b) + kr);
    }
    MulModSelf(g, kb * (a / b) + kr);
  }

  /** The extended Euclidean algorithm: (g, x, y) with g = gcd(a, b). */
  function Egcd(a: nat, b: nat): (nat, int, int)
    decreases b
  {
    if b == 0 then
      (a, 1, 0)
    else
      var r := Egcd(b, a % b);
      (r.0, r.2, r.1 - (a / b) * r.2)
  }

  lemma BezoutStep(a: int, b: int, q: int, m: int, g: int, x: int, y: int)
    requires a == b * q + m && b * x + m * y == g
    ensures a * y + b * (x - q * y) == g
  {
    var qy := q * y;
    assert a * y == b * qy + m * y;
    assert b * (x - qy) == b * x - b * qy;
  }

  /** Egcd returns a common divisor g of a and b with a*x + b*y == g. */
  lemma {:induction false} EgcdBezout(a: nat, b: nat)
    ensures var r := Egcd(a, b);
      && a * r.1 + b * r.2 == r.0
      && (a > 0 || b > 0 ==> r.0 > 0 && a % r.0 == 0 && b % r.0 == 0)
    decreases b
  {
    if b != 0 {
      var r' := Egcd(b, a % b);
      EgcdBezout(b, a % b);
      var g, x, y, q, m := r'.0, r'.1, r'.2, a / b, a % b;
      assert Egcd(a, b) == (g, y, x - q * y);
      BezoutStep(a, b, q, m, g, x, y);
      DividesStep(g, a, b);
    }
  }

  lemma BezoutInverse(a: Scalar, x: int, y: int)
    requires a * x + L * y == 1
    ensures Mul(a, x % L) == 1
  {
    ModSmall(a);
    ModSmall(1);
    ModMul(a, x);
    ModShift(a * x, y);
  }

  /** No multiple of an integer g > 1 equals 1. */
  lemma NotUnitMultiple(g: int, m: int)
    requires g > 1
    ensures g * m != 1
  {
    if m >= 1 {
      assert g * m >= g * 1;
    } else {
      assert g * m <= g * 0;
    }
  }

  lemma NoInverse(a: Scalar, g: int)
    requires g > 1 && a % g == 0 && L % g == 0
    ensures forall v: Scalar :: Mul(a, v) != 1
  {
    forall v: Scalar
      ensures Mul(a, v) != 1
    {
      var av := a * v;
      var q := av / L;
      assert av == L * q + av % L;
      var ka, kl := a / g, L / g;
      assert a == g * ka && L == g * kl;
      var m := ka * v - kl * q;
      calc {
        g * m;
        g * ka * v - g * kl * q;
        av - L * q;
        av % L;
      }
      NotUnitMultiple(g, m);
    }
  }

  /** a is a unit: some scalar multiplies it to one. */
  ghost predicate Invertible(a: Scalar) {
    exists v: Scalar :: Mul(a, v) == 1
  }

  /** The inverse of a unit, and 0 for a non-unit (a total helper for proofs). */
  ghost function Recip(a: Scalar): (r: Scalar)
    ensures Invertible(a) ==> Mul(a, r) == 1
  {
    if Invertible(a) then var v: Scalar :| Mul(a, v) == 1; v else 0
  }

  /** `inverse()`: the multiplicative inverse, computed by Euclid's algorithm;
      it is present exactly for the units, and is then their unique inverse. */
  function Inverse(a: Scalar): (r: Option<Scalar>)
    ensures r.Some? <==> Invertible(a)
    ensures r.Some? ==> Mul(a, r.value) == 1 && r.value == Recip(a)
  {
    var e := Egcd(a, L);
    EgcdBezout(a, L);
    if e.0 == 1 then
      BezoutInverse(a, e.1, e.2);
      InverseUnique(a, e.1 % L);
      Some(e.1 % L)
    else
      NoInverse(a, e.0);
      None
  }

  /** An inverse is unique: any v with a*v == 1 is the one `Inverse` finds. */
  lemma InverseUnique(a: Scalar, v: Scalar)
    requires Mul(a, v) == 1
    ensures Invertible(a) && Recip(a) == v
  {
    var r := Recip(a);
    assert Mul(a, r) == 1;
    calc {
      r;
      { MulOne(r); }
      Mul(r, 1);
      Mul(r, Mul(a, v));
      { MulAssoc(r, a, v); }
      Mul(Mul(r, a), v);
      { assert Mul(r, a) == Mul(a, r); }
      Mul(1, v);
      { MulOne(v); }
      v;
    }
  }

  lemma MulComm(a: Scalar, b: Scalar)
    ensures Mul(a, b) == Mul(b, a)
  {
    assert a * b == b * a;
  }

  lemma MulOne(a: Scalar)
    ensures Mul(a, 1) == a && Mul(1, a) == a
  {
  }

  lemma InvertibleMul(a: Scalar, b: Scalar)
    requires Invertible(a) && Invertible(b)
    ensures Invertible(Mul(a, b))
    ensures Recip(Mul(a, b)) == Mul(Recip(a), Recip(b))
  {
    var ra, rb := Recip(a), Recip(b);
    var ab, rab := Mul(a, b), Mul(ra, rb);
    assert Mul(a, ra) == 1 && Mul(b, rb) == 1;
    calc {
      Mul(ab, rab);
      { MulAssoc(a, b, rab); }
      Mul(a, Mul(b, rab));
      { MulAssoc(b, ra, rb); }
      Mul(a, Mul(Mul(b, ra), rb));
      { assert Mul(b, ra) == Mul(ra, b); }
      Mul(a, Mul(Mul(ra, b), rb));
      { MulAssoc(ra, b, rb); }
      Mul(a, Mul(ra, Mul(b, rb)));
      Mul(a, Mul(ra, 1));
      { MulOne(ra); }
      Mul(a, ra);
      1;
    }
    InverseUnique(ab, rab);
  }

  /** A factor of a unit is a unit. */
  lemma InvertibleFactor(a: Scalar, b: Scalar)
    requires Invertible(Mul(a, b))
    ensures Invertible(a)
  {
    var r := Recip(Mul(a, b));
    MulAssoc(a, b, r);
    InverseUnique(a, Mul(b, r));
  }

  /** Multiplication by a unit can be cancelled. */
  lemma Cancel(x: Scalar, y: Scalar, u: Scalar)
    requires Invertible(u) && Mul(x, u) == Mul(y, u)
    ensures x == y
  {
    var r := Recip(u);
    assert Mul(u, r) == 1;
    calc {
      x;
      { MulOne(x); }
      Mul(x, 1);
      Mul(x, Mul(u, r));
      { MulAssoc(x, u, r); }
      Mul(Mul(x, u), r);
      Mul(Mul(y, u), r);
      { MulAssoc(y, u, r); }
      Mul(y, Mul(u, r));
      Mul(y, 1);
      { MulOne(y); }
      y;
    }
  }

  /** (a*b)*(c*d) == (a*c)*(b*d) */
  lemma Mul4Swap(a: Scalar, b: Scalar, c: Scalar, d: Scalar)
    ensures Mul(Mul(a, b), Mul(c, d)) == Mul(Mul(a, c), Mul(b, d))
  {
    calc {
      Mul(Mul(a, b), Mul(c, d));
      { MulAssoc(a, b, Mul(c, d)); }
      Mul(a, Mul(b, Mul(c, d)));
      { MulAssoc(b, c, d); MulComm(b, c); MulAssoc(c, b, d); }
      Mul(a, Mul(c, Mul(b, d)));
      { MulAssoc(a, c, Mul(b, d)); }
      Mul(Mul(a, c), Mul(b, d));
    }
  }

  /** That L is prime; true of the edwards25519 group order, not proved here. */
  ghost predicate PrimeModulus() {
    forall d :: 1 < d < L ==> !Divides(d, L)
  }

  /** In a prime field every non-zero scalar is a unit. */
  lemma DivisorBound(g: int, a: int)
    requires g > 0 && a > 0 && a % g == 0
    ensures g <= a
  {
    var k := a / g;
    assert a == g * k;
    assert k >= 1;
    assert g * k >= g * 1;
  }

  lemma NonZeroInvertible(a: Scalar)
    requires PrimeModulus() && a != 0
    ensures Invertible(a)
  {
    var e := Egcd(a, L);
    EgcdBezout(a, L);
    var g := e.0;
    DivisorBound(g, a);
    if g != 1 {
      assert Divides(g, L);
      assert false;
    }
    BezoutInverse(a, e.1, e.2);
  }

}
