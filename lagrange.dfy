/** Shamir's reconstruction (A. Shamir, "How to Share a Secret", CACM 22,
    1979) over GF(2^8): a polynomial of degree below n is recovered at 0 from
    its values at n distinct points by the Lagrange basis coefficients
    L_j = prod_{l != j} x_l / (x_j + x_l). Addition in the field is XOR, so
    x_j - x_l is x_j + x_l. */
module Lagrange {
  import opened GFBits
  import opened GF256

  // ---------------------------------------------------------------------
  // Field algebra used below

  lemma MulSwap4(a: bv8, b: bv8, c: bv8, d: bv8)
    ensures Mul(Mul(a, b), Mul(c, d)) == Mul(Mul(a, d), Mul(b, c))
  {
    calc {
      Mul(Mul(a, b), Mul(c, d));
      { MulComm(c, d); }
      Mul(Mul(a, b), Mul(d, c));
      { MulAssoc(a, b, Mul(d, c)); MulAssoc(b, d, c); }
      Mul(a, Mul(Mul(b, d), c));
      { MulComm(b, d); MulAssoc(d, b, c); }
      Mul(a, Mul(d, Mul(b, c)));
      { MulAssoc(a, d, Mul(b, c)); }
      Mul(Mul(a, d), Mul(b, c));
    }
  }

  lemma MulInverse(u: bv8)
    requires u != 0
    ensures Mul(u, Inverse(u)) == 1 && Mul(Inverse(u), u) == 1
  {
    MulComm(u, Inverse(u));
  }

  /** (u G) (B (c / u)) = c (G B). */
  lemma Cancel(u: bv8, g: bv8, b: bv8, c: bv8)
    requires u != 0
    ensures Mul(Mul(u, g), Mul(b, Mul(c, Inverse(u)))) == Mul(c, Mul(g, b))
  {
    var iu := Inverse(u);
    calc {
      Mul(Mul(u, g), Mul(b, Mul(c, iu)));
      { MulAssoc(b, c, iu); }
      Mul(Mul(u, g), Mul(Mul(b, c), iu));
      { MulSwap4(u, g, Mul(b, c), iu); }
      Mul(Mul(u, iu), Mul(g, Mul(b, c)));
      { MulInverse(u); MulOneLeft(Mul(g, Mul(b, c))); }
      Mul(g, Mul(b, c));
      { MulAssoc(g, b, c); MulComm(Mul(g, b), c); }
      Mul(c, Mul(g, b));
    }
  }

  /** (A u) (B (x / u)) = (A B) x. */
  lemma Rearrange(a: bv8, b: bv8, u: bv8, x: bv8)
    requires u != 0
    ensures Mul(Mul(a, u), Mul(b, Mul(x, Inverse(u)))) == Mul(Mul(a, b), x)
  {
    var iu := Inverse(u);
    calc {
      Mul(Mul(a, u), Mul(b, Mul(x, iu)));
      { MulComm(x, iu); MulAssoc(b, iu, x); }
      Mul(Mul(a, u), Mul(Mul(b, iu), x));
      { MulAssoc(Mul(a, u), Mul(b, iu), x); }
      Mul(Mul(Mul(a, u), Mul(b, iu)), x);
    }
    calc {
      Mul(Mul(a, u), Mul(b, iu));
      { MulSwap4(a, u, b, iu); }
      Mul(Mul(a, iu), Mul(u, b));
      { MulComm(u, b); MulSwap4(a, iu, b, u); }
      Mul(Mul(a, u), Mul(iu, b));
      { MulAssoc(Mul(a, u), iu, b); MulAssoc(a, u, iu); }
      Mul(Mul(a, Mul(u, iu)), b);
      { MulInverse(u); MulOneRight(a); }
      Mul(a, b);
    }
  }

  /** A nonzero factor can be cancelled. */
  lemma MulCancel(a: bv8, b: bv8, c: bv8)
    requires a != 0 && Mul(a, b) == Mul(a, c)
    ensures b == c
  {
    MulAddRight(a, b, c);
    AddSelf(Mul(a, b));
    NoZeroDivisors(a, Add(b, c));
    AddZeroMeansEqual(b, c);
  }

  // ---------------------------------------------------------------------
  // Polynomials: coefficient sequences, constant term first

  /** The value at x of the polynomial p[0] + p[1] x + p[2] x^2 + ..., by
      Horner's rule. */
  function Eval(p: seq<bv8>, x: bv8): bv8
    decreases |p|
  {
    if p == [] then 0 else Add(p[0], Mul(x, Eval(p[1..], x)))
  }

  /** At 0 a polynomial is its constant term. */
  lemma EvalAtZero(p: seq<bv8>)
    ensures Eval(p, 0) == if p == [] then 0 else p[0]
  {
    if p != [] {
      MulZeroLeft(Eval(p[1..], 0));
      AddZero(p[0]);
    }
  }

  /** The quotient of p by (x + c): p(x) = p(c) + (x + c) g(x). */
  function SynDiv(p: seq<bv8>, c: bv8): (g: seq<bv8>)
    ensures |g| == if |p| <= 1 then 0 else |p| - 1
    decreases |p|
  {
    if |p| <= 1 then [] else [Eval(p[1..], c)] + SynDiv(p[1..], c)
  }

  lemma {:induction false} SynDivSpec(p: seq<bv8>, c: bv8, x: bv8)
    ensures Eval(p, x) == Add(Eval(p, c), Mul(Add(x, c), Eval(SynDiv(p, c), x)))
    decreases |p|
  {
    if |p| <= 1 {
      SynDivConstant(p, c, x);
    } else {
      var q := p[1..];
      var g := SynDiv(p, c);
      var g1 := SynDiv(q, c);
      SynDivSpec(q, c, x);
      var a, b, h := Eval(q, c), Eval(q, x), Eval(g1, x);
      assert g[1..] == g1;
      assert Eval(g, x) == Add(a, Mul(x, h));
      SynDivStep(p[0], c, x, a, b, h);
    }
  }

  /** The algebra of one step of synthetic division: if q(x) = a + (x + c) h
      with a = q(c), then p0 + x q(x) = (p0 + c a) + (x + c)(a + x h). */
  lemma SynDivStep(p0: bv8, c: bv8, x: bv8, a: bv8, b: bv8, h: bv8)
    requires b == Add(a, Mul(Add(x, c), h))
    ensures Add(Add(p0, Mul(c, a)), Mul(Add(x, c), Add(a, Mul(x, h)))) == Add(p0, Mul(x, b))
  {
    var u := Add(x, c);
    calc {
      Add(Add(p0, Mul(c, a)), Mul(u, Add(a, Mul(x, h))));
      { MulAddRight(u, a, Mul(x, h)); }
      Add(Add(p0, Mul(c, a)), Add(Mul(u, a), Mul(u, Mul(x, h))));
      { MulAddLeft(x, c, a); }
      Add(Add(p0, Mul(c, a)), Add(Add(Mul(x, a), Mul(c, a)), Mul(u, Mul(x, h))));
      { UMulXH(u, x, h, b, a); }
      Add(Add(p0, Mul(c, a)), Add(Add(Mul(x, a), Mul(c, a)), Add(Mul(x, b), Mul(x, a))));
      { Collect(p0, Mul(c, a), Mul(x, a), Mul(x, b)); }
      Add(p0, Mul(x, b));
    }
  }

  lemma SynDivConstant(p: seq<bv8>, c: bv8, x: bv8)
    requires |p| <= 1
    ensures Eval(p, x) == Add(Eval(p, c), Mul(Add(x, c), Eval(SynDiv(p, c), x)))
  {
    MulZeroLeft(Add(x, c));
    MulComm(Add(x, c), 0);
    if p != [] {
      assert p[1..] == [];
      MulComm(x, 0);
      MulComm(c, 0);
    }
    AddZero(Eval(p, c));
  }

  /** u (x h) = x b + x a when b = a + u h. */
  lemma UMulXH(u: bv8, x: bv8, h: bv8, b: bv8, a: bv8)
    requires b == Add(a, Mul(u, h))
    ensures Mul(u, Mul(x, h)) == Add(Mul(x, b), Mul(x, a))
  {
    calc {
      Mul(u, Mul(x, h));
      { MulAssoc(u, x, h); MulComm(u, x); MulAssoc(x, u, h); }
      Mul(x, Mul(u, h));
      { AddSelf(a); AddAssoc(a, a, Mul(u, h)); AddComm(0, Mul(u, h)); AddZero(Mul(u, h)); }
      Mul(x, Add(a, b));
      { MulAddRight(x, a, b); AddComm(Mul(x, a), Mul(x, b)); }
      Add(Mul(x, b), Mul(x, a));
    }
  }

  /** (p0 + ca) + ((xa + ca) + (xb + xa)) = p0 + xb. */
  lemma Collect(p0: bv8, ca: bv8, xa: bv8, xb: bv8)
    ensures Add(Add(p0, ca), Add(Add(xa, ca), Add(xb, xa))) == Add(p0, xb)
  {
    Swap4(xa, ca, xb, xa);
    AddComm(xa, xb);
    AddAssoc(xb, xa, xa);
    AddSelf(xa);
    AddZero(xb);
    Swap4(p0, ca, ca, xb);
    AddSelf(ca);
    AddZero(Add(p0, xb));
    AddComm(0, Add(p0, xb));
  }

  /** r(x) + a. */
  function PlusConst(r: seq<bv8>, a: bv8): (s: seq<bv8>)
    ensures |s| == if r == [] then 1 else |r|
  {
    if r == [] then [a] else [Add(r[0], a)] + r[1..]
  }

  lemma EvalPlusConst(r: seq<bv8>, a: bv8, x: bv8)
    ensures Eval(PlusConst(r, a), x) == Add(Eval(r, x), a)
  {
    var s := PlusConst(r, a);
    if r == [] {
      assert s[1..] == [];
      MulComm(x, 0);
      MulZeroLeft(x);
      AddZero(a);
      AddComm(0, a);
    } else {
      assert s[1..] == r[1..];
      AddAssoc(r[0], a, Mul(x, Eval(r[1..], x)));
      AddComm(a, Mul(x, Eval(r[1..], x)));
      AddAssoc(r[0], Mul(x, Eval(r[1..], x)), a);
    }
  }

  /** q(x) (x + a). */
  function MulLinear(q: seq<bv8>, a: bv8): (s: seq<bv8>)
    ensures |s| == if q == [] then 0 else |q| + 1
    decreases |q|
  {
    if q == [] then [] else [Mul(a, q[0])] + PlusConst(MulLinear(q[1..], a), q[0])
  }

  lemma {:induction false} EvalMulLinear(q: seq<bv8>, a: bv8, x: bv8)
    ensures Eval(MulLinear(q, a), x) == Mul(Eval(q, x), Add(x, a))
    decreases |q|
  {
    if q == [] {
      MulZeroLeft(Add(x, a));
    } else {
      var s := MulLinear(q, a);
      var r := MulLinear(q[1..], a);
      var e := Eval(q[1..], x);
      EvalMulLinear(q[1..], a, x);
      assert s[1..] == PlusConst(r, q[0]);
      EvalPlusConst(r, q[0], x);
      // s(x) = a q0 + x (e (x + a) + q0)
      MulLinearStep(q[0], a, x, e);
    }
  }

  /** a q0 + x (e (x + a) + q0) = (q0 + x e)(x + a). */
  lemma MulLinearStep(q0: bv8, a: bv8, x: bv8, e: bv8)
    ensures Add(Mul(a, q0), Mul(x, Add(Mul(e, Add(x, a)), q0))) == Mul(Add(q0, Mul(x, e)), Add(x, a))
  {
    var u := Add(x, a);
    calc {
      Mul(Add(q0, Mul(x, e)), u);
      { MulAddLeft(q0, Mul(x, e), u); }
      Add(Mul(q0, u), Mul(Mul(x, e), u));
      { MulComm(q0, u); MulAddLeft(x, a, q0); }
      Add(Add(Mul(x, q0), Mul(a, q0)), Mul(Mul(x, e), u));
      { MulAssoc(x, e, u); }
      Add(Add(Mul(x, q0), Mul(a, q0)), Mul(x, Mul(e, u)));
      { AddComm(Mul(x, q0), Mul(a, q0)); AddAssoc(Mul(a, q0), Mul(x, q0), Mul(x, Mul(e, u))); }
      Add(Mul(a, q0), Add(Mul(x, q0), Mul(x, Mul(e, u))));
      { MulAddRight(x, q0, Mul(e, u)); AddComm(q0, Mul(e, u)); }
      Add(Mul(a, q0), Mul(x, Add(Mul(e, u), q0)));
    }
  }

  /** The product of (x + r) over the roots r in order. */
  function Linear(roots: seq<bv8>, x: bv8): bv8
    decreases |roots|
  {
    if roots == [] then 1 else Mul(Linear(roots[..|roots| - 1], x), Add(x, roots[|roots| - 1]))
  }

  /** The polynomial whose value at x is Linear(roots, x). */
  function ProdPoly(roots: seq<bv8>): (p: seq<bv8>)
    ensures |p| == |roots| + 1
    decreases |roots|
  {
    if roots == [] then [1] else MulLinear(ProdPoly(roots[..|roots| - 1]), roots[|roots| - 1])
  }

  lemma {:induction false} EvalProdPoly(roots: seq<bv8>, x: bv8)
    ensures Eval(ProdPoly(roots), x) == Linear(roots, x)
    decreases |roots|
  {
    if roots == [] {
      assert [1][1..] == [];
      MulComm(x, 0);
      MulZeroLeft(x);
      AddZero(1);
    } else {
      var init := roots[..|roots| - 1];
      EvalProdPoly(init, x);
      EvalMulLinear(ProdPoly(init), roots[|roots| - 1], x);
    }
  }

  /** Linear vanishes at its roots and only there. */
  lemma {:induction false} LinearZero(roots: seq<bv8>, x: bv8)
    ensures Linear(roots, x) == 0 <==> x in roots
    decreases |roots|
  {
    if roots != [] {
      var init, last := roots[..|roots| - 1], roots[|roots| - 1];
      LinearZero(init, x);
      NoZeroDivisors(Linear(init, x), Add(x, last));
      AddZeroMeansEqual(x, last);
      assert roots == init + [last];
    }
  }

  /** Linear at 0 is the product of the roots. */
  lemma {:induction false} LinearAtZero(roots: seq<bv8>)
    ensures Linear(roots, 0) == Product(roots)
    decreases |roots|
  {
    if roots != [] {
      LinearAtZero(roots[..|roots| - 1]);
      AddZero(roots[|roots| - 1]);
    }
  }

  function Product(xs: seq<bv8>): bv8
    decreases |xs|
  {
    if xs == [] then 1 else Mul(Product(xs[..|xs| - 1]), xs[|xs| - 1])
  }

  // ---------------------------------------------------------------------
  // The Lagrange basis at 0

  predicate Distinct(xs: seq<bv8>) {
    forall i, j :: 0 <= i < j < |xs| ==> xs[i] != xs[j]
  }

  /** The factor x_l / (x_j + x_l) of the j-th basis coefficient. */
  function Factor(xj: bv8, xl: bv8): bv8 {
    Mul(xl, Inverse(Add(xj, xl)))
  }

  /** The product of Factor(xs[j], xs[l]) over l < m with l != j, in order. */
  function BasisUpTo(xs: seq<bv8>, j: nat, m: nat): bv8
    requires j < |xs| && m <= |xs|
    decreases m
  {
    if m == 0 then 1
    else if m - 1 == j then BasisUpTo(xs, j, m - 1)
    else Mul(BasisUpTo(xs, j, m - 1), Factor(xs[j], xs[m - 1]))
  }

  /** L_j = prod_{l != j} x_l / (x_j + x_l): the value at 0 of the j-th
      Lagrange basis polynomial for the points xs. */
  function Basis(xs: seq<bv8>, j: nat): bv8
    requires j < |xs|
  {
    BasisUpTo(xs, j, |xs|)
  }

  function Bases(xs: seq<bv8>): (bs: seq<bv8>)
    ensures |bs| == |xs| && forall j :: 0 <= j < |xs| ==> bs[j] == Basis(xs, j)
  {
    seq(|xs|, j requires 0 <= j < |xs| => Basis(xs, j))
  }

  /** The values of p at the points xs. */
  function Values(p: seq<bv8>, xs: seq<bv8>): (ys: seq<bv8>)
    ensures |ys| == |xs| && forall j :: 0 <= j < |xs| ==> ys[j] == Eval(p, xs[j])
  {
    seq(|xs|, j requires 0 <= j < |xs| => Eval(p, xs[j]))
  }

  /** ys[0] cs[0] + .. + ys[m-1] cs[m-1], summed left to right. */
  function Dot(ys: seq<bv8>, cs: seq<bv8>, m: nat): bv8
    requires m <= |ys| && m <= |cs|
    decreases m
  {
    if m == 0 then 0 else Add(Dot(ys, cs, m - 1), Mul(ys[m - 1], cs[m - 1]))
  }

  /** cs[0] + .. + cs[m-1]. */
  function Sum(cs: seq<bv8>, m: nat): bv8
    requires m <= |cs|
    decreases m
  {
    if m == 0 then 0 else Add(Sum(cs, m - 1), cs[m - 1])
  }

  /** Shamir's reconstruction: for distinct points and a polynomial of degree
      below their number, the values weighted by the basis coefficients sum
      to the value at 0. */
  lemma {:induction false} LagrangeAtZero(xs: seq<bv8>, p: seq<bv8>)
    requires Distinct(xs) && |p| <= |xs|
    ensures Dot(Values(p, xs), Bases(xs), |xs|) == Eval(p, 0)
    decreases |xs|
  {
    if xs == [] {
      assert p == [];
    } else {
      var init, c := xs[..|xs| - 1], xs[|xs| - 1];
      assert xs == init + [c];
      assert Distinct(init) && c !in init;
      // The basis coefficients sum to 1, shown on the product polynomial.
      var pp := ProdPoly(init);
      var gp := SynDiv(pp, c);
      SplitLast(init, c, pp);
      LagrangeAtZero(init, gp);
      ProdPolyAtPoints(init, c);
      SynDivSpec(pp, c, 0);
      AddZero(c);
      AddComm(0, c);
      var t := Sum(Bases(xs), |xs|);
      var pc := Eval(pp, c);
      var rest := Mul(c, Eval(gp, 0));
      AddCancelRight(Mul(pc, t), pc, rest);
      EvalProdPoly(init, c);
      LinearZero(init, c);
      MulOneRight(pc);
      MulCancel(pc, t, 1);
      // Now any polynomial of degree below |xs|.
      var g := SynDiv(p, c);
      SplitLast(init, c, p);
      LagrangeAtZero(init, g);
      SynDivSpec(p, c, 0);
      MulOneRight(Eval(p, c));
    }
  }

  lemma AddCancelRight(a: bv8, b: bv8, x: bv8)
    requires Add(a, x) == Add(b, x)
    ensures a == b
  {
    AddAssoc(a, x, x);
    AddAssoc(b, x, x);
    AddSelf(x);
    AddZero(a);
    AddZero(b);
  }

  /** The weighted sum over the points init + [c] splits into p(c) times the
      sum of the basis coefficients plus c times the weighted sum, over init,
      of the quotient g = p(x) / (x + c). */
  lemma SplitLast(init: seq<bv8>, c: bv8, p: seq<bv8>)
    requires Distinct(init + [c])
    ensures var xs := init + [c];
      Dot(Values(p, xs), Bases(xs), |xs|) ==
        Add(Mul(Eval(p, c), Sum(Bases(xs), |xs|)),
            Mul(c, Dot(Values(SynDiv(p, c), init), Bases(init), |init|)))
  {
    var xs := init + [c];
    var n := |init|;
    var e := Eval(p, c);
    var g := SynDiv(p, c);
    SplitPrefix(init, c, p, n);
    var s := Sum(Bases(xs), n);
    var d := Dot(Values(g, init), Bases(init), n);
    var b := Basis(xs, n);
    assert xs[n] == c;
    calc {
      Dot(Values(p, xs), Bases(xs), n + 1);
      Add(Add(Mul(e, s), Mul(c, d)), Mul(e, b));
      { AddAssoc(Mul(e, s), Mul(c, d), Mul(e, b));
        AddComm(Mul(c, d), Mul(e, b));
        AddAssoc(Mul(e, s), Mul(e, b), Mul(c, d)); }
      Add(Add(Mul(e, s), Mul(e, b)), Mul(c, d));
      { MulAddRight(e, s, b); }
      Add(Mul(e, Sum(Bases(xs), n + 1)), Mul(c, d));
    }
  }

  /** SplitLast over the first m points of init. */
  lemma {:induction false} SplitPrefix(init: seq<bv8>, c: bv8, p: seq<bv8>, m: nat)
    requires Distinct(init + [c]) && m <= |init|
    ensures var xs := init + [c];
      Dot(Values(p, xs), Bases(xs), m) ==
        Add(Mul(Eval(p, c), Sum(Bases(xs), m)),
            Mul(c, Dot(Values(SynDiv(p, c), init), Bases(init), m)))
    decreases m
  {
    if m == 0 {
      AddZero(0);
    } else {
      SplitPrefix(init, c, p, m - 1);
      SplitPrefixNext(init, c, p, m);
    }
  }

  /** One step of SplitPrefix: the split for the first m - 1 points extends
      to the first m. */
  lemma SplitPrefixNext(init: seq<bv8>, c: bv8, p: seq<bv8>, m: nat)
    requires Distinct(init + [c]) && 0 < m <= |init|
    requires var xs := init + [c];
      Dot(Values(p, xs), Bases(xs), m - 1) ==
        Add(Mul(Eval(p, c), Sum(Bases(xs), m - 1)),
            Mul(c, Dot(Values(SynDiv(p, c), init), Bases(init), m - 1)))
    ensures var xs := init + [c];
      Dot(Values(p, xs), Bases(xs), m) ==
        Add(Mul(Eval(p, c), Sum(Bases(xs), m)),
            Mul(c, Dot(Values(SynDiv(p, c), init), Bases(init), m)))
  {
    var xs := init + [c];
    var e := Eval(p, c);
    var g := SynDiv(p, c);
    var j := m - 1;
    var s := Sum(Bases(xs), j);
    var d := Dot(Values(g, init), Bases(init), j);
    var b := Basis(xs, j);
    var t := Mul(Eval(g, init[j]), Basis(init, j));
    SplitTerm(init, c, p, j);
    assert xs[j] == init[j];
    calc {
      Dot(Values(p, xs), Bases(xs), m);
      Add(Add(Mul(e, s), Mul(c, d)), Add(Mul(e, b), Mul(c, t)));
      { Swap4(Mul(e, s), Mul(c, d), Mul(e, b), Mul(c, t)); }
      Add(Add(Mul(e, s), Mul(e, b)), Add(Mul(c, d), Mul(c, t)));
      { MulAddRight(e, s, b); MulAddRight(c, d, t); }
      Add(Mul(e, Sum(Bases(xs), m)), Mul(c, Dot(Values(g, init), Bases(init), m)));
    }
  }

  /** One term of SplitPrefix: p(x_j) L_j = p(c) L_j + c (g(x_j) L'_j), where
      L'_j is the basis coefficient over init alone. */
  lemma SplitTerm(init: seq<bv8>, c: bv8, p: seq<bv8>, j: nat)
    requires Distinct(init + [c]) && j < |init|
    ensures var xs := init + [c];
      Mul(Eval(p, init[j]), Basis(xs, j)) ==
        Add(Mul(Eval(p, c), Basis(xs, j)),
            Mul(c, Mul(Eval(SynDiv(p, c), init[j]), Basis(init, j))))
  {
    var xs := init + [c];
    var u := Add(init[j], c);
    var e, g := Eval(p, c), Eval(SynDiv(p, c), init[j]);
    SynDivSpec(p, c, init[j]);
    BasisLast(init, c, j);
    assert xs[j] == init[j] && xs[|init|] == c;
    AddZeroMeansEqual(init[j], c);
    MulAddLeft(e, Mul(u, g), Basis(xs, j));
    Cancel(u, g, Basis(init, j), c);
  }

  /** Adding the point c multiplies L_j by c / (x_j + c). */
  lemma BasisLast(init: seq<bv8>, c: bv8, j: nat)
    requires j < |init|
    ensures Basis(init + [c], j) == Mul(Basis(init, j), Mul(c, Inverse(Add(init[j], c))))
  {
    var xs := init + [c];
    BasisPrefix(init, c, j, |init|);
    assert xs[j] == init[j] && xs[|init|] == c;
  }

  lemma {:induction false} BasisPrefix(init: seq<bv8>, c: bv8, j: nat, m: nat)
    requires j < |init| && m <= |init|
    ensures BasisUpTo(init + [c], j, m) == BasisUpTo(init, j, m)
    decreases m
  {
    if m > 0 {
      BasisPrefix(init, c, j, m - 1);
      assert (init + [c])[j] == init[j] && (init + [c])[m - 1] == init[m - 1];
    }
  }

  /** The product polynomial of init vanishes at each point of init, so its
      weighted sum is its value at c times L_c, which is the product of the
      points of init: its value at 0. */
  lemma ProdPolyAtPoints(init: seq<bv8>, c: bv8)
    requires Distinct(init + [c])
    ensures Dot(Values(ProdPoly(init), init + [c]), Bases(init + [c]), |init| + 1) == Eval(ProdPoly(init), 0)
  {
    var xs := init + [c];
    var n := |init|;
    var pp := ProdPoly(init);
    forall j | 0 <= j < n
      ensures Values(pp, xs)[j] == 0
    {
      ProdPolyAtRoot(init, j);
      assert xs[j] == init[j];
    }
    DotZero(Values(pp, xs), Bases(xs), n);
    EvalProdPoly(init, c);
    EvalProdPoly(init, 0);
    LinearAtZero(init);
    LastBasis(init, c, n);
    assert init[..n] == init;
    assert xs[n] == c;
    assert Basis(xs, n) == BasisUpTo(xs, n, n);
    AddComm(0, Mul(Eval(pp, c), Basis(xs, n)));
    AddZero(Mul(Eval(pp, c), Basis(xs, n)));
  }

  /** A weighted sum of zeros is zero. */
  lemma {:induction false} DotZero(ys: seq<bv8>, cs: seq<bv8>, m: nat)
    requires m <= |ys| && m <= |cs|
    requires forall j :: 0 <= j < m ==> ys[j] == 0
    ensures Dot(ys, cs, m) == 0
    decreases m
  {
    if m > 0 {
      DotZero(ys, cs, m - 1);
      MulZeroLeft(cs[m - 1]);
      AddZero(0);
    }
  }

  /** The product polynomial of init is zero at each point of init. */
  lemma ProdPolyAtRoot(init: seq<bv8>, i: nat)
    requires i < |init|
    ensures Eval(ProdPoly(init), init[i]) == 0
  {
    EvalProdPoly(init, init[i]);
    LinearZero(init, init[i]);
  }

  /** Linear and Product over init[..m] peel off their last factor. */
  lemma PrefixLast(init: seq<bv8>, c: bv8, m: nat)
    requires 0 < m <= |init|
    ensures Linear(init[..m], c) == Mul(Linear(init[..m - 1], c), Add(c, init[m - 1]))
    ensures Product(init[..m]) == Mul(Product(init[..m - 1]), init[m - 1])
  {
    assert init[..m][..m - 1] == init[..m - 1];
  }

  /** (prod_{l<m} (c + x_l)) times the partial L_c over l < m is the product
      of the x_l, c being the last point. */
  lemma {:induction false} LastBasis(init: seq<bv8>, c: bv8, m: nat)
    requires Distinct(init + [c]) && m <= |init|
    ensures Mul(Linear(init[..m], c), BasisUpTo(init + [c], |init|, m)) == Product(init[..m])
    decreases m
  {
    if m == 0 {
      MulOneLeft(1);
    } else {
      LastBasis(init, c, m - 1);
      LastBasisNext(init, c, m);
    }
  }

  lemma LastBasisNext(init: seq<bv8>, c: bv8, m: nat)
    requires Distinct(init + [c]) && 0 < m <= |init|
    requires Mul(Linear(init[..m - 1], c), BasisUpTo(init + [c], |init|, m - 1)) == Product(init[..m - 1])
    ensures Mul(Linear(init[..m], c), BasisUpTo(init + [c], |init|, m)) == Product(init[..m])
  {
    var x := init[m - 1];
    LastBasisStep(init, c, m);
    PrefixLast(init, c, m);
    LastDiffers(init, c, m - 1);
    AddZeroMeansEqual(c, x);
    StepCombine(Linear(init[..m - 1], c), BasisUpTo(init + [c], |init|, m - 1), Product(init[..m - 1]), Add(c, x), x);
  }

  /** The last point differs from every earlier one. */
  lemma LastDiffers(init: seq<bv8>, c: bv8, i: nat)
    requires Distinct(init + [c]) && i < |init|
    ensures init[i] != c
  {
    var xs := init + [c];
    assert xs[i] == init[i] && xs[|init|] == c;
  }

  /** One step of LastBasis: a * b == p carries over to the next factors. */
  lemma StepCombine(a: bv8, b: bv8, p: bv8, u: bv8, x: bv8)
    requires u != 0 && Mul(a, b) == p
    ensures Mul(Mul(a, u), Mul(b, Mul(x, Inverse(u)))) == Mul(p, x)
  {
    Rearrange(a, b, u, x);
  }

  lemma LastBasisStep(init: seq<bv8>, c: bv8, m: nat)
    requires 0 < m <= |init|
    ensures BasisUpTo(init + [c], |init|, m) ==
            Mul(BasisUpTo(init + [c], |init|, m - 1), Mul(init[m - 1], Inverse(Add(c, init[m - 1]))))
  {
    var xs := init + [c];
    assert xs[m - 1] == init[m - 1] && xs[|init|] == c;
  }
}
