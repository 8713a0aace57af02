/** Lagrange interpolation at x = 0 over a list of x-coordinates.

    The basis value of position i is Π_{j≠i} (0 - x_j) / (x_i - x_j), the
    quantity `shamir_reconstruct` builds.  The main result, `Interpolation`,
    says that combining the values of a polynomial with fewer coefficients
    than there are points, weighted by these basis values, gives the
    polynomial's value at 0.  It needs only that the pairwise differences of
    the x-coordinates are invertible (`UnitDiffs`), which in a prime field is
    the same as their being distinct. */
module Lagrange {
  import opened Field
  import opened Polynomial

  /** Π (p - xs[j]) over the positions j != skip, accumulated in order. */
  function ProdDiff(p: Scalar, xs: seq<Scalar>, skip: int): Scalar {
    if |xs| == 0 then 1
    else
      var rest := ProdDiff(p, xs[..|xs| - 1], skip);
      if |xs| - 1 == skip then rest else Mul(rest, Sub(p, xs[|xs| - 1]))
  }

  /** The Lagrange basis polynomial of position i, evaluated at 0. */
  ghost function Basis(xs: seq<Scalar>, i: nat): Scalar
    requires i < |xs|
  {
    Mul(ProdDiff(0, xs, i), Recip(ProdDiff(xs[i], xs, i)))
  }

  /** The basis values of all positions, in order. */
  ghost function Bases(xs: seq<Scalar>): (bs: seq<Scalar>)
    ensures |bs| == |xs|
    ensures forall i :: 0 <= i < |xs| ==> bs[i] == Basis(xs, i)
  {
    seq(|xs|, i requires 0 <= i < |xs| => Basis(xs, i))
  }

  /** Σ_{i<m} s[i]. */
  function PrefixSum(s: seq<Scalar>, m: nat): Scalar
    requires m <= |s|
  {
    if m == 0 then 0 else Add(PrefixSum(s, m - 1), s[m - 1])
  }

  /** Σ_{i<m} ys[i] * ws[i]. */
  function Weighted(ys: seq<Scalar>, ws: seq<Scalar>, m: nat): Scalar
    requires m <= |ys| && m <= |ws|
  {
    if m == 0 then 0 else Add(Weighted(ys, ws, m - 1), Mul(ys[m - 1], ws[m - 1]))
  }

  /** The Lagrange combination Σ_i ys[i] * Basis(xs, i): the value at 0 of the
      interpolating polynomial through the points (xs[i], ys[i]). */
  ghost function Combine(xs: seq<Scalar>, ys: seq<Scalar>): Scalar
    requires |xs| == |ys|
  {
    Weighted(ys, Bases(xs), |xs|)
  }

  ghost predicate UnitDiffs(xs: seq<Scalar>) {
    forall i, j :: 0 <= i < |xs| && 0 <= j < |xs| && i != j ==> Invertible(Sub(xs[i], xs[j]))
  }

  lemma UnitDiffsSlice(xs: seq<Scalar>, lo: nat, hi: nat)
    requires lo <= hi <= |xs| && UnitDiffs(xs)
    ensures UnitDiffs(xs[lo..hi])
  {
    var ys := xs[lo..hi];
    forall i, j | 0 <= i < |ys| && 0 <= j < |ys| && i != j
      ensures Invertible(Sub(ys[i], ys[j]))
    {
      assert ys[i] == xs[lo + i] && ys[j] == xs[lo + j];
    }
  }

  /** Distinct points of a prime field have invertible differences. */
  lemma DistinctUnitDiffs(xs: seq<Scalar>)
    requires PrimeModulus()
    requires forall i, j :: 0 <= i < j < |xs| ==> xs[i] != xs[j]
    ensures UnitDiffs(xs)
  {
    forall i, j | 0 <= i < |xs| && 0 <= j < |xs| && i != j
      ensures Invertible(Sub(xs[i], xs[j]))
    {
      NonZeroInvertible(Sub(xs[i], xs[j]));
    }
  }

  // ---------------------------------------------------------------------------
  // The products.

  /** A product of unit factors is a unit. */
  lemma {:induction false} ProdDiffInvertible(p: Scalar, xs: seq<Scalar>, skip: int)
    requires forall j :: 0 <= j < |xs| && j != skip ==> Invertible(Sub(p, xs[j]))
    ensures Invertible(ProdDiff(p, xs, skip))
    decreases |xs|
  {
    if |xs| == 0 {
      InverseUnique(1, 1);
    } else {
      var n := |xs|;
      ProdDiffInvertible(p, xs[..n - 1], skip);
      if n - 1 != skip {
        InvertibleMul(ProdDiff(p, xs[..n - 1], skip), Sub(p, xs[n - 1]));
      }
    }
  }

  /** Peeling the first factor off the product. */
  lemma {:induction false} ProdDiffFirst(p: Scalar, xs: seq<Scalar>, skip: int)
    requires |xs| > 0 && skip != 0
    ensures ProdDiff(p, xs, skip) == Mul(Sub(p, xs[0]), ProdDiff(p, xs[1..], skip - 1))
    decreases |xs|
  {
    var n := |xs|;
    if n == 1 {
      assert xs[..0] == [] && xs[1..] == [];
      MulOne(Sub(p, xs[0]));
    } else {
      var init := xs[..n - 1];
      ProdDiffFirst(p, init, skip);
      assert init[1..] == xs[1..][..n - 2];
      if n - 1 != skip {
        MulAssoc(Sub(p, xs[0]), ProdDiff(p, init[1..], skip - 1), Sub(p, xs[n - 1]));
      }
    }
  }

  /** n*f / (d*u), multiplied by u, is f * (n/d). */
  lemma FractionStep(n: Scalar, f: Scalar, d: Scalar, u: Scalar)
    requires Invertible(d) && Invertible(u)
    ensures Mul(Mul(Mul(n, f), Recip(Mul(d, u))), u) == Mul(f, Mul(n, Recip(d)))
  {
    InvertibleMul(d, u);
    var nf, rd, ru := Mul(n, f), Recip(d), Recip(u);
    calc {
      Mul(Mul(nf, Mul(rd, ru)), u);
      { MulAssoc(nf, Mul(rd, ru), u); }
      Mul(nf, Mul(Mul(rd, ru), u));
      { MulAssoc(rd, ru, u); }
      Mul(nf, Mul(rd, Mul(ru, u)));
      { assert Mul(ru, u) == Mul(u, ru) == 1; MulOne(rd); }
      Mul(nf, rd);
      { assert nf == Mul(f, n); MulAssoc(f, n, rd); }
      Mul(f, Mul(n, rd));
    }
  }

  /** Removing the last point a: basis(i) * (x_i - a) == -a * basis'(i). */
  lemma DropLast(xs: seq<Scalar>, i: nat)
    requires i + 1 < |xs| && UnitDiffs(xs)
    ensures var k := |xs|;
      Mul(Basis(xs, i), Sub(xs[i], xs[k - 1])) == Mul(Neg(xs[k - 1]), Basis(xs[..k - 1], i))
  {
    var k := |xs|;
    var xs', a := xs[..k - 1], xs[k - 1];
    UnitDiffsSlice(xs, 0, k - 1);
    ProdDiffInvertible(xs'[i], xs', i);
    assert xs'[i] == xs[i];
    FractionStep(ProdDiff(0, xs', i), Neg(a), ProdDiff(xs[i], xs', i), Sub(xs[i], a));
  }

  /** Removing the first point b: basis(i) * (x_i - b) == -b * basis''(i - 1). */
  lemma DropFirst(xs: seq<Scalar>, i: nat)
    requires 1 <= i < |xs| && UnitDiffs(xs)
    ensures Mul(Basis(xs, i), Sub(xs[i], xs[0])) == Mul(Neg(xs[0]), Basis(xs[1..], i - 1))
  {
    var xs'', b := xs[1..], xs[0];
    UnitDiffsSlice(xs, 1, |xs|);
    ProdDiffInvertible(xs''[i - 1], xs'', i - 1);
    assert xs''[i - 1] == xs[i];
    var n, d, u := ProdDiff(0, xs'', i - 1), ProdDiff(xs[i], xs'', i - 1), Sub(xs[i], b);
    ProdDiffFirst(0, xs, i);
    ProdDiffFirst(xs[i], xs, i);
    assert ProdDiff(0, xs, i) == Mul(n, Neg(b));
    assert ProdDiff(xs[i], xs, i) == Mul(d, u);
    FractionStep(n, Neg(b), d, u);
  }

  // ---------------------------------------------------------------------------
  // The recurrences, for every position at once.

  /** DropLast at every position but the last. */
  lemma DropLastAll(xs: seq<Scalar>)
    requires |xs| >= 2 && UnitDiffs(xs)
    ensures var k := |xs|; var bs, bl := Bases(xs), Bases(xs[..k - 1]);
      forall i :: 0 <= i < k - 1 ==> Mul(bs[i], Sub(xs[i], xs[k - 1])) == Mul(Neg(xs[k - 1]), bl[i])
  {
    var k := |xs|;
    forall i | 0 <= i < k - 1
      ensures Mul(Bases(xs)[i], Sub(xs[i], xs[k - 1])) == Mul(Neg(xs[k - 1]), Bases(xs[..k - 1])[i])
    {
      DropLast(xs, i);
    }
  }

  /** DropFirst at every position but the first. */
  lemma DropFirstAll(xs: seq<Scalar>)
    requires |xs| >= 2 && UnitDiffs(xs)
    ensures var bs, bf := Bases(xs), Bases(xs[1..]);
      forall i :: 1 <= i < |xs| ==> Mul(bs[i], Sub(xs[i], xs[0])) == Mul(Neg(xs[0]), bf[i - 1])
  {
    forall i | 1 <= i < |xs|
      ensures Mul(Bases(xs)[i], Sub(xs[i], xs[0])) == Mul(Neg(xs[0]), Bases(xs[1..])[i - 1])
    {
      DropFirst(xs, i);
    }
  }

  // ---------------------------------------------------------------------------
  // Partition of unity, by Neville's recurrence.

  lemma DistribRight(a: Scalar, b: Scalar, c: Scalar)
    ensures Mul(Add(a, b), c) == Add(Mul(a, c), Mul(b, c))
  {
    Distrib(c, a, b);
  }

  /** One point's share of Neville's recurrence: t*(b - a) from the two drops. */
  lemma TwoPointStep(t: Scalar, x: Scalar, a: Scalar, b: Scalar, ta: Scalar, tb: Scalar)
    requires Mul(t, Sub(x, a)) == Mul(Neg(a), ta)
    requires Mul(t, Sub(x, b)) == Mul(Neg(b), tb)
    ensures Mul(t, Sub(b, a)) == Sub(Mul(Neg(a), ta), Mul(Neg(b), tb))
  {
    assert Sub(b, a) == Sub(Sub(x, a), Sub(x, b));
    DistribSub(t, Sub(x, a), Sub(x, b));
  }

  /** Adding one term to both sides of the recurrence. */
  lemma NevilleAlgebra(s: Scalar, t: Scalar, ba: Scalar, na: Scalar, nb: Scalar,
                       sa: Scalar, ta: Scalar, sb: Scalar, tb: Scalar)
    requires Mul(s, ba) == Sub(Mul(na, sa), Mul(nb, sb))
    requires Mul(t, ba) == Sub(Mul(na, ta), Mul(nb, tb))
    ensures Mul(Add(s, t), ba) == Sub(Mul(na, Add(sa, ta)), Mul(nb, Add(sb, tb)))
  {
    DistribRight(s, t, ba);
    Distrib(na, sa, ta);
    Distrib(nb, sb, tb);
  }

  /** Neville's recurrence summed over the first m positions: bs are the basis
      values of xs, bl those of xs without its last point a, bf those of xs
      without its first point b. */
  lemma {:induction false} NevillePrefix(xs: seq<Scalar>, bs: seq<Scalar>, bl: seq<Scalar>, bf: seq<Scalar>, m: nat)
    requires |xs| >= 2 && |bs| == |xs| && |bl| == |xs| - 1 && |bf| == |xs| - 1
    requires 1 <= m < |xs|
    requires forall i :: 0 <= i < |xs| - 1 ==> Mul(bs[i], Sub(xs[i], xs[|xs| - 1])) == Mul(Neg(xs[|xs| - 1]), bl[i])
    requires forall i :: 1 <= i < |xs| ==> Mul(bs[i], Sub(xs[i], xs[0])) == Mul(Neg(xs[0]), bf[i - 1])
    ensures var a, b := xs[|xs| - 1], xs[0];
      Mul(PrefixSum(bs, m), Sub(b, a)) == Sub(Mul(Neg(a), PrefixSum(bl, m)), Mul(Neg(b), PrefixSum(bf, m - 1)))
    decreases m
  {
    var a, b := xs[|xs| - 1], xs[0];
    if m == 1 {
      assert Mul(bs[0], Sub(xs[0], a)) == Mul(Neg(a), bl[0]);
      assert Mul(Neg(b), 0) == 0;
    } else {
      var i := m - 1;
      NevillePrefix(xs, bs, bl, bf, i);
      TwoPointStep(bs[i], xs[i], a, b, bl[i], bf[i - 1]);
      NevilleAlgebra(PrefixSum(bs, i), bs[i], Sub(b, a), Neg(a), Neg(b),
                     PrefixSum(bl, i), bl[i], PrefixSum(bf, i - 1), bf[i - 1]);
    }
  }

  /** The last step of the partition of unity, as field algebra. */
  lemma PartitionAlgebra(s: Scalar, t: Scalar, a: Scalar, b: Scalar, sb: Scalar, tb: Scalar)
    requires Invertible(Sub(b, a))
    requires Mul(s, Sub(b, a)) == Sub(Mul(Neg(a), 1), Mul(Neg(b), sb))
    requires Mul(t, Sub(a, b)) == Mul(Neg(b), tb)
    requires Add(sb, tb) == 1
    ensures Add(s, t) == 1
  {
    var ba, na, nb := Sub(b, a), Neg(a), Neg(b);
    MulOne(na);
    MulOne(nb);
    MulOne(ba);
    var nbs, nbt := Mul(nb, sb), Mul(nb, tb);
    assert Mul(ba, t) == Neg(nbt) by {
      assert ba == Neg(Sub(a, b));
      MulNeg(Sub(a, b), t);
    }
    calc {
      Mul(Add(s, t), ba);
      { DistribRight(s, t, ba); }
      Add(Sub(na, nbs), Neg(nbt));
      Sub(na, Add(nbs, nbt));
      { Distrib(nb, sb, tb); }
      Sub(na, nb);
      ba;
      Mul(1, ba);
    }
    Cancel(Add(s, t), 1, ba);
  }

  /** The basis values sum to one. */
  lemma {:induction false} PartitionOfUnity(xs: seq<Scalar>)
    requires |xs| >= 1 && UnitDiffs(xs)
    ensures PrefixSum(Bases(xs), |xs|) == 1
    decreases |xs|
  {
    var k := |xs|;
    if k == 1 {
      assert ProdDiff(0, xs[..0], 0) == 1;
      assert ProdDiff(0, xs, 0) == 1 && ProdDiff(xs[0], xs, 0) == 1;
      InverseUnique(1, 1);
      MulOne(1);
    } else {
      var a, b := xs[k - 1], xs[0];
      var xs', xs'' := xs[..k - 1], xs[1..];
      var bs, bl, bf := Bases(xs), Bases(xs'), Bases(xs'');
      UnitDiffsSlice(xs, 0, k - 1);
      UnitDiffsSlice(xs, 1, k);
      PartitionOfUnity(xs');
      PartitionOfUnity(xs'');
      DropLastAll(xs);
      DropFirstAll(xs);
      NevillePrefix(xs, bs, bl, bf, k - 1);
      assert Invertible(Sub(xs[0], xs[k - 1]));
      PartitionAlgebra(PrefixSum(bs, k - 1), bs[k - 1], a, b, PrefixSum(bf, k - 2), bf[k - 2]);
    }
  }

  // ---------------------------------------------------------------------------
  // Interpolation, by synthetic division at the last point.

  lemma SyntheticTerm(y: Scalar, t: Scalar, d: Scalar, q: Scalar, fa: Scalar, na: Scalar, t': Scalar)
    requires y == Add(Mul(d, q), fa)
    requires Mul(t, d) == Mul(na, t')
    ensures Mul(y, t) == Add(Mul(na, Mul(q, t')), Mul(fa, t))
  {
    DistribRight(Mul(d, q), fa, t);
    calc {
      Mul(Mul(d, q), t);
      { MulAssoc(d, q, t); }
      Mul(d, Mul(q, t));
      { assert Mul(q, t) == Mul(t, q); }
      Mul(d, Mul(t, q));
      { MulAssoc(d, t, q); }
      Mul(Mul(d, t), q);
      { assert Mul(d, t) == Mul(t, d); }
      Mul(Mul(na, t'), q);
      { MulAssoc(na, t', q); }
      Mul(na, Mul(t', q));
      { assert Mul(t', q) == Mul(q, t'); }
      Mul(na, Mul(q, t'));
    }
  }

  /** Regrouping the two running sums after one more term. */
  lemma SyntheticAlgebra(na: Scalar, fa: Scalar, w: Scalar, s: Scalar, u: Scalar, t: Scalar)
    ensures Add(Add(Mul(na, w), Mul(fa, s)), Add(Mul(na, u), Mul(fa, t)))
         == Add(Mul(na, Add(w, u)), Mul(fa, Add(s, t)))
  {
    Distrib(na, w, u);
    Distrib(fa, s, t);
  }

  /** Over the first m < k positions, the combination of the values splits into
      the quotient's combination over the points without the last one, a, and
      the basis sum weighted by c(a). */
  lemma {:induction false} SyntheticPrefix(xs: seq<Scalar>, ys: seq<Scalar>, c: seq<Scalar>,
                                           qs: seq<Scalar>, bs: seq<Scalar>, bl: seq<Scalar>, m: nat)
    requires |xs| >= 1 && |ys| == |xs| && |bs| == |xs| && |qs| == |xs| - 1 && |bl| == |xs| - 1
    requires m < |xs|
    requires forall i :: 0 <= i < |xs| ==> ys[i] == Eval(c, xs[i])
    requires forall i :: 0 <= i < |xs| - 1 ==> qs[i] == Eval(Quot(c, xs[|xs| - 1]), xs[i])
    requires forall i :: 0 <= i < |xs| - 1 ==> Mul(bs[i], Sub(xs[i], xs[|xs| - 1])) == Mul(Neg(xs[|xs| - 1]), bl[i])
    ensures var a := xs[|xs| - 1];
      Weighted(ys, bs, m) == Add(Mul(Neg(a), Weighted(qs, bl, m)), Mul(Eval(c, a), PrefixSum(bs, m)))
    decreases m
  {
    var a := xs[|xs| - 1];
    var na, fa := Neg(a), Eval(c, a);
    if m == 0 {
      assert Mul(na, 0) == 0 && Mul(fa, 0) == 0;
    } else {
      var i := m - 1;
      SyntheticPrefix(xs, ys, c, qs, bs, bl, i);
      DivisionIdentity(c, a, xs[i]);
      SyntheticTerm(ys[i], bs[i], Sub(xs[i], a), qs[i], fa, na, bl[i]);
      SyntheticAlgebra(na, fa, Weighted(qs, bl, i), PrefixSum(bs, i), Mul(qs[i], bl[i]), bs[i]);
    }
  }

  lemma InterpolationAlgebra(na: Scalar, e: Scalar, fa: Scalar, s: Scalar, t: Scalar)
    requires Add(s, t) == 1
    ensures Add(Add(Mul(na, e), Mul(fa, s)), Mul(fa, t)) == Add(Mul(na, e), fa)
  {
    Distrib(fa, s, t);
    MulOne(fa);
  }

  /** The step of `Interpolation`: given the result for the quotient by
      (X - a) over the points without the last one, a, the result for c. */
  lemma InterpolationStep(xs: seq<Scalar>, ys: seq<Scalar>, c: seq<Scalar>, qs: seq<Scalar>)
    requires |xs| >= 1 && |xs| == |ys| && UnitDiffs(xs)
    requires forall i :: 0 <= i < |xs| ==> ys[i] == Eval(c, xs[i])
    requires |qs| == |xs| - 1
    requires forall i :: 0 <= i < |qs| ==> qs[i] == Eval(Quot(c, xs[|xs| - 1]), xs[i])
    requires Combine(xs[..|xs| - 1], qs) == Eval(Quot(c, xs[|xs| - 1]), 0)
    ensures Combine(xs, ys) == Eval(c, 0)
  {
    var k := |xs|;
    var a := xs[k - 1];
    var bs, bl := Bases(xs), Bases(xs[..k - 1]);
    if k >= 2 {
      DropLastAll(xs);
    }
    SyntheticPrefix(xs, ys, c, qs, bs, bl, k - 1);
    PartitionOfUnity(xs);
    DivisionIdentity(c, a, 0);
    InterpolationAlgebra(Neg(a), Eval(Quot(c, a), 0), Eval(c, a), PrefixSum(bs, k - 1), bs[k - 1]);
  }

  /** Lagrange interpolation at 0: a polynomial with at most |xs| coefficients
      is recovered at 0 from its values at xs. */
  lemma {:induction false} Interpolation(xs: seq<Scalar>, ys: seq<Scalar>, c: seq<Scalar>)
    requires |xs| == |ys| && |c| <= |xs| && UnitDiffs(xs)
    requires forall i :: 0 <= i < |xs| ==> ys[i] == Eval(c, xs[i])
    ensures Combine(xs, ys) == Eval(c, 0)
    decreases |xs|
  {
    var k := |xs|;
    if k > 0 {
      var xs' := xs[..k - 1];
      var q := Quot(c, xs[k - 1]);
      var qs := seq(k - 1, i requires 0 <= i < k - 1 => Eval(q, xs'[i]));
      UnitDiffsSlice(xs, 0, k - 1);
      Interpolation(xs', qs, q);
      InterpolationStep(xs, ys, c, qs);
    }
  }
}
