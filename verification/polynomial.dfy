/** Polynomials over the scalar field, as coefficient sequences c[0], c[1], ...
    with c[j] the coefficient of x^j. */
module Polynomial {
  import opened Field

  /** The value at x: c[0]·x^0 + c[1]·x^1 + ..., accumulated from 0 in
      coefficient order, as `shamir_split` evaluates each share. */
  function Eval(c: seq<Scalar>, x: Scalar): (r: Scalar)
    ensures |c| == 0 ==> r == 0
    ensures |c| == 1 ==> r == c[0]
  {
    if |c| == 0 then 0
    else
      var r := Add(Eval(c[..|c| - 1], x), Mul(c[|c| - 1], Pow(x, |c| - 1)));
      assert |c| == 1 ==> r == c[0] by {
        if |c| == 1 {
          ModSmall(c[0]);
        }
      }
      r
  }

  lemma HornerAlgebra(c0: Scalar, x: Scalar, e: Scalar, cn: Scalar, p: Scalar)
    ensures Add(Add(c0, Mul(x, e)), Mul(cn, Mul(p, x))) == Add(c0, Mul(x, Add(e, Mul(cn, p))))
  {
    Distrib(x, e, Mul(cn, p));
    calc {
      Mul(x, Mul(cn, p));
      { MulAssoc(x, cn, p); }
      Mul(Mul(x, cn), p);
      { assert Mul(x, cn) == Mul(cn, x); }
      Mul(Mul(cn, x), p);
      { MulAssoc(cn, x, p); }
      Mul(cn, Mul(x, p));
      { assert Mul(x, p) == Mul(p, x); }
      Mul(cn, Mul(p, x));
    }
  }

  /** Horner's rule: c(x) = c[0] + x * (c[1..])(x). */
  lemma {:induction false} Horner(c: seq<Scalar>, x: Scalar)
    requires |c| > 0
    ensures Eval(c, x) == Add(c[0], Mul(x, Eval(c[1..], x)))
    decreases |c|
  {
    var n := |c|;
    if n == 1 {
      assert c[..0] == [] && c[1..] == [];
    } else {
      var init := c[..n - 1];
      Horner(init, x);
      assert init[0] == c[0];
      assert init[1..] == c[1..][..n - 2];
      var e, p := Eval(init[1..], x), Pow(x, n - 2);
      assert Eval(c, x) == Add(Eval(init, x), Mul(c[n - 1], Pow(x, n - 1)));
      assert Pow(x, n - 1) == Mul(p, x);
      assert Eval(c[1..], x) == Add(e, Mul(c[n - 1], p));
      HornerAlgebra(c[0], x, e, c[n - 1], p);
    }
  }

  /** The value at 0 is the constant coefficient. */
  lemma EvalAtZero(c: seq<Scalar>)
    ensures Eval(c, 0) == if |c| == 0 then 0 else c[0]
  {
    if |c| > 0 {
      Horner(c, 0);
    }
  }

  /** A polynomial of degree at most one: (c0 + c1·X)(x) == c0 + c1·x. */
  lemma EvalLinear(c0: Scalar, c1: Scalar, x: Scalar)
    ensures Eval([c0, c1], x) == Add(c0, Mul(c1, x))
  {
    var c := [c0, c1];
    assert c[..1] == [c0] && [c0][..0] == [];
    assert Pow(x, 0) == 1;
    assert Pow(x, 1) == Mul(1, x);
    MulOne(c0);
    MulComm(1, x);
    MulOne(x);
    assert Eval([c0], x) == Add(0, Mul(c0, 1)) == c0;
    assert Eval(c, x) == Add(Eval([c0], x), Mul(c1, Pow(x, 1)));
  }

  /** The quotient of c by (X - a): coefficient j is the value at a of the
      tail c[j+1..] (synthetic division). */
  function Quot(c: seq<Scalar>, a: Scalar): (q: seq<Scalar>)
    ensures |q| == if |c| == 0 then 0 else |c| - 1
    decreases |c|
  {
    if |c| <= 1 then [] else [Eval(c[1..], a)] + Quot(c[1..], a)
  }

  /** x·g == (x - a)·g + a·g */
  lemma SplitAt(x: Scalar, a: Scalar, g: Scalar)
    ensures Mul(x, g) == Add(Mul(Sub(x, a), g), Mul(a, g))
  {
    var d := Sub(x, a);
    calc {
      Add(Mul(d, g), Mul(a, g));
      { MulComm(d, g); MulComm(a, g); }
      Add(Mul(g, d), Mul(g, a));
      { Distrib(g, d, a); }
      Mul(g, Add(d, a));
      { assert Add(d, a) == x; }
      Mul(g, x);
      { MulComm(g, x); }
      Mul(x, g);
    }
  }

  /** The inductive step of the division identity, on plain values:
      c0 + x*((x - a)*qg + ga) == (x - a)*(ga + x*qg) + (c0 + a*ga). */
  lemma DivisionAlgebra(c0: Scalar, x: Scalar, a: Scalar, qg: Scalar, ga: Scalar)
    ensures Add(c0, Mul(x, Add(Mul(Sub(x, a), qg), ga)))
         == Add(Mul(Sub(x, a), Add(ga, Mul(x, qg))), Add(c0, Mul(a, ga)))
  {
    var d := Sub(x, a);
    var u, v := Mul(x, Mul(d, qg)), Mul(d, ga);
    // x*(d*qg + ga) == u + x*ga, and u == d*(x*qg)
    Distrib(x, Mul(d, qg), ga);
    assert u == Mul(d, Mul(x, qg)) by {
      MulAssoc(x, d, qg);
      MulComm(x, d);
      MulAssoc(d, x, qg);
    }
    // d*(ga + x*qg) == v + u
    Distrib(d, ga, Mul(x, qg));
    // x*ga == v + a*ga
    SplitAt(x, a, ga);
  }

  /** A constant is its own remainder, with quotient zero. */
  lemma DivisionConstant(c: seq<Scalar>, a: Scalar, x: Scalar)
    requires |c| <= 1
    ensures Eval(c, x) == Add(Mul(Sub(x, a), Eval(Quot(c, a), x)), Eval(c, a))
  {
    assert Quot(c, a) == [];
    assert Mul(Sub(x, a), 0) == 0;
    if |c| == 1 {
      assert c[..0] == [];
      assert Eval(c, x) == c[0] == Eval(c, a) by {
        MulOne(c[0]);
      }
    }
  }

  /** Division with remainder by (X - a): c(x) = (x - a) * q(x) + c(a). */
  lemma {:induction false} DivisionIdentity(c: seq<Scalar>, a: Scalar, x: Scalar)
    ensures Eval(c, x) == Add(Mul(Sub(x, a), Eval(Quot(c, a), x)), Eval(c, a))
    decreases |c|
  {
    if |c| <= 1 {
      DivisionConstant(c, a, x);
    } else {
      var g := c[1..];
      var q := Quot(c, a);
      DivisionIdentity(g, a, x);
      Horner(c, x);
      Horner(c, a);
      Horner(q, x);
      assert q[0] == Eval(g, a) && q[1..] == Quot(g, a);
      DivisionAlgebra(c[0], x, a, Eval(Quot(g, a), x), Eval(g, a));
    }
  }
}
