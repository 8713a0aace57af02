/** Points of the prime-order subgroup of edwards25519 (`EdwardsProjective`),
    each represented by its discrete logarithm with respect to one fixed base
    point B: the point k·B is `Element(k)`.  Point addition is then addition of
    logarithms, multiplication by a scalar is multiplication, and the identity
    (`Element::ZERO`) is 0·B.  The curve arithmetic itself is not modelled. */
module Group {
  import opened Field

  datatype Element = Element(dlog: Scalar)

  /** `Element::ZERO`, the neutral element. */
  const Identity: Element := Element(0)

  /** `p + q` */
  function Plus(p: Element, q: Element): Element {
    Element(Add(p.dlog, q.dlog))
  }

  /** `p * k` */
  function Scale(p: Element, k: Scalar): Element {
    Element(Mul(p.dlog, k))
  }

  /** `p1 + p2 + ...`, accumulated from the identity in order. */
  function PlusAll(ps: seq<Element>): Element {
    if |ps| == 0 then Identity else Plus(PlusAll(ps[..|ps| - 1]), ps[|ps| - 1])
  }

  lemma PlusIdentity(p: Element)
    ensures Plus(p, Identity) == p && Plus(Identity, p) == p
  {
  }

  lemma PlusComm(p: Element, q: Element)
    ensures Plus(p, q) == Plus(q, p)
  {
  }

  lemma PlusAssoc(p: Element, q: Element, r: Element)
    ensures Plus(Plus(p, q), r) == Plus(p, Plus(q, r))
  {
  }

  /** Multiplying by zero gives the identity. */
  lemma ScaleZero(p: Element)
    ensures Scale(p, 0) == Identity
  {
  }

  /** Scalar multiplication distributes over scalar addition. */
  lemma ScaleAdd(p: Element, a: Scalar, b: Scalar)
    ensures Scale(p, Add(a, b)) == Plus(Scale(p, a), Scale(p, b))
  {
    Distrib(p.dlog, a, b);
  }

  /** Scalar multiplication distributes over point addition. */
  lemma ScalePlus(p: Element, q: Element, k: Scalar)
    ensures Scale(Plus(p, q), k) == Plus(Scale(p, k), Scale(q, k))
  {
    var a, b := p.dlog, q.dlog;
    Distrib(k, a, b);
    MulComm(Add(a, b), k);
    MulComm(a, k);
    MulComm(b, k);
  }

  lemma ScaleScale(p: Element, a: Scalar, b: Scalar)
    ensures Scale(Scale(p, a), b) == Scale(p, Mul(a, b))
  {
    MulAssoc(p.dlog, a, b);
  }

  /** The logarithm of an in-order sum of points is the field sum of theirs. */
  lemma {:induction false} PlusAllLogs(ps: seq<Element>, ls: seq<Scalar>)
    requires |ps| == |ls| && forall i :: 0 <= i < |ps| ==> ps[i].dlog == ls[i]
    ensures PlusAll(ps).dlog == Sum(ls)
    decreases |ps|
  {
    if |ps| > 0 {
      PlusAllLogs(ps[..|ps| - 1], ls[..|ls| - 1]);
    }
  }
}
