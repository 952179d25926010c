/** The two solver passes of src/bin/shamir-combine.rs for GF(2^8), as
    functions of the Decoder fields they read.

    Pass 1 (pass_1, lines 246-265) computes, for each j < K, the coefficient
    L_j = prod_{l != j} x_l / (x_j + x_l), multiplying and dividing in the order
    the loops do, and panics on an x-value it does not have, on a division by
    zero and on a zero coefficient. The lemmas show that it computes exactly
    the Lagrange basis at 0 (module Lagrange) when the K x-values are nonzero
    and distinct, and which panic it reaches otherwise.

    Pass 2 (pass_2, lines 267-300) XORs, for each word i of the secret, the
    products of the K share bytes of column i with the coefficients; the share
    byte of line j for word i sits at i + j * words of the concatenated share
    data. */
module Passes {
  import opened Outcomes
  import opened GFBits
  import opened GF256
  import opened Lagrange
  import opened Panics

  // ---------------------------------------------------------------------
  // Pass 1

  /** Some x-value before position m, other than x_j itself, equals x_j. */
  ghost predicate ClashBefore(xs: seq<bv8>, j: nat, m: nat)
    requires j < |xs|
  {
    exists l :: 0 <= l < m && l < |xs| && l != j && xs[l] == xs[j]
  }

  /** temp after the inner loop of pass 1 (lines 254-261) has run for
      l = 0 .. m-1 while computing coefficient j: multiply by x_l, then divide
      by x_j + x_l, skipping l = j. */
  function InnerUpTo(xs: seq<bv8>, j: nat, m: nat): (r: Result<bv8, Panic>)
    ensures r.Err? ==> r.error == MissingShares || r.error == DivisionByZero
    decreases m
  {
    if m == 0 then Ok(1)
    else
      match InnerUpTo(xs, j, m - 1)
      case Err(e) => Err(e)
      case Ok(t) =>
        var l := m - 1;
        if l == j then Ok(t)
        else if l >= |xs| || j >= |xs| then Err(MissingShares)
        else
          var d := Add(xs[j], xs[l]);
          if d == 0 then Err(DivisionByZero) else Ok(Div(Mul(t, xs[l]), d))
  }

  /** One more turn of the inner loop. */
  lemma InnerNext(xs: seq<bv8>, j: nat, l: nat, t: bv8)
    requires InnerUpTo(xs, j, l) == Ok(t)
    ensures InnerUpTo(xs, j, l + 1) ==
      if l == j then Ok(t)
      else if l >= |xs| || j >= |xs| then Err(MissingShares)
      else if Add(xs[j], xs[l]) == 0 then Err(DivisionByZero)
      else Ok(Div(Mul(t, xs[l]), Add(xs[j], xs[l])))
  {
  }

  /** Coefficient j of pass 1 for quorum k (lines 253-263). */
  function Coefficient(xs: seq<bv8>, k: nat, j: nat): (r: Result<bv8, Panic>)
    ensures r.Ok? ==> r.value != 0
  {
    match InnerUpTo(xs, j, k)
    case Err(e) => Err(e)
    case Ok(t) => if t == 0 then Err(LinearIndependence) else Ok(t)
  }

  /** The coefficients pass 1 has pushed after the outer loop ran for
      j = 0 .. m-1, or its first panic. */
  function CoefficientsUpTo(xs: seq<bv8>, k: nat, m: nat): (r: Result<seq<bv8>, Panic>)
    ensures r.Ok? ==> |r.value| == m
    ensures r.Err? ==> r.error in {MissingShares, DivisionByZero, LinearIndependence}
    decreases m
  {
    if m == 0 then Ok([])
    else
      match CoefficientsUpTo(xs, k, m - 1)
      case Err(e) => Err(e)
      case Ok(cs) =>
        match Coefficient(xs, k, m - 1)
        case Err(e) => Err(e)
        case Ok(t) => Ok(cs + [t])
  }

  /** What pass 1 computes from the x-values for quorum k. */
  function Pass1Result(xs: seq<bv8>, k: nat): (r: Result<seq<bv8>, Panic>)
    ensures r.Ok? ==> |r.value| == k && forall j :: 0 <= j < k ==> r.value[j] != 0
    ensures r.Err? ==> r.error in {MissingShares, DivisionByZero, LinearIndependence}
  {
    var r := CoefficientsUpTo(xs, k, k);
    if r.Ok? then CoefficientsNonZero(xs, k, k); r else r
  }

  lemma {:induction false} CoefficientsNonZero(xs: seq<bv8>, k: nat, m: nat)
    requires CoefficientsUpTo(xs, k, m).Ok?
    ensures forall j :: 0 <= j < m ==> CoefficientsUpTo(xs, k, m).value[j] != 0
    decreases m
  {
    if m > 0 {
      CoefficientsNonZero(xs, k, m - 1);
    }
  }

  /** Dividing t x_l by x_j + x_l is multiplying t by the basis factor. */
  lemma DivFactor(t: bv8, xj: bv8, xl: bv8)
    requires Add(xj, xl) != 0
    ensures Div(Mul(t, xl), Add(xj, xl)) == Mul(t, Factor(xj, xl))
  {
    MulAssoc(t, xl, Inverse(Add(xj, xl)));
  }

  /** A clash before m is a clash before m - 1 or one at m - 1. */
  lemma ClashStep(xs: seq<bv8>, j: nat, m: nat)
    requires j < |xs| && m > 0
    ensures ClashBefore(xs, j, m) <==>
      ClashBefore(xs, j, m - 1) || (m - 1 != j && m - 1 < |xs| && xs[m - 1] == xs[j])
  {
    if ClashBefore(xs, j, m) {
      var l :| 0 <= l < m && l < |xs| && l != j && xs[l] == xs[j];
      if l < m - 1 {
        assert ClashBefore(xs, j, m - 1);
      }
    }
    if ClashBefore(xs, j, m - 1) {
      var l :| 0 <= l < m - 1 && l < |xs| && l != j && xs[l] == xs[j];
      assert 0 <= l < m;
    }
  }

  /** Over the x-values it has, the inner loop computes the partial basis
      coefficient, or stops at the first x-value equal to x_j. */
  lemma {:induction false} InnerBasis(xs: seq<bv8>, j: nat, m: nat)
    requires j < |xs| && m <= |xs|
    ensures InnerUpTo(xs, j, m) ==
      if ClashBefore(xs, j, m) then Err(DivisionByZero) else Ok(BasisUpTo(xs, j, m))
    decreases m
  {
    if m > 0 {
      var l := m - 1;
      InnerBasis(xs, j, l);
      ClashStep(xs, j, m);
      if !ClashBefore(xs, j, l) && l != j {
        AddZeroMeansEqual(xs[j], xs[l]);
        if xs[l] != xs[j] {
          DivFactor(BasisUpTo(xs, j, l), xs[j], xs[l]);
        }
      }
    }
  }

  /** A nonzero byte has a nonzero inverse. */
  lemma InverseNonZero(a: bv8)
    requires a != 0
    ensures Inverse(a) != 0
  {
    MulComm(a, 0);
    MulZeroLeft(a);
  }

  /** With nonzero x-values and no clash, the partial basis coefficient is
      nonzero: pass 1 then never reports linear dependence. */
  lemma {:induction false} BasisNonZero(xs: seq<bv8>, j: nat, m: nat)
    requires j < |xs| && m <= |xs| && !ClashBefore(xs, j, m)
    requires forall l :: 0 <= l < |xs| ==> xs[l] != 0
    ensures BasisUpTo(xs, j, m) != 0
    decreases m
  {
    if m > 0 {
      var l := m - 1;
      ClashStep(xs, j, m);
      BasisNonZero(xs, j, l);
      if l != j {
        AddZeroMeansEqual(xs[j], xs[l]);
        InverseNonZero(Add(xs[j], xs[l]));
        NoZeroDivisors(xs[l], Inverse(Add(xs[j], xs[l])));
        NoZeroDivisors(BasisUpTo(xs, j, l), Factor(xs[j], xs[l]));
      }
    }
  }

  /** Coefficient j, when pass 1 has exactly K nonzero x-values: the Lagrange
      basis coefficient, or a division by zero when x_j is repeated. */
  lemma CoefficientClosed(xs: seq<bv8>, j: nat)
    requires j < |xs| && forall l :: 0 <= l < |xs| ==> xs[l] != 0
    ensures Coefficient(xs, |xs|, j) ==
      if ClashBefore(xs, j, |xs|) then Err(DivisionByZero) else Ok(Basis(xs, j))
  {
    InnerBasis(xs, j, |xs|);
    if !ClashBefore(xs, j, |xs|) {
      BasisNonZero(xs, j, |xs|);
    }
  }

  /** Some coefficient before m meets a repeated x-value. */
  ghost predicate RepeatBefore(xs: seq<bv8>, m: nat) {
    exists j :: 0 <= j < m && j < |xs| && ClashBefore(xs, j, |xs|)
  }

  lemma {:induction false} CoefficientsClosed(xs: seq<bv8>, m: nat)
    requires m <= |xs| && forall l :: 0 <= l < |xs| ==> xs[l] != 0
    ensures CoefficientsUpTo(xs, |xs|, m) ==
      if RepeatBefore(xs, m) then Err(DivisionByZero) else Ok(Bases(xs)[..m])
    decreases m
  {
    if m > 0 {
      CoefficientsClosed(xs, m - 1);
      CoefficientsClosedNext(xs, m);
    }
  }

  lemma CoefficientsClosedNext(xs: seq<bv8>, m: nat)
    requires 0 < m <= |xs| && forall l :: 0 <= l < |xs| ==> xs[l] != 0
    requires CoefficientsUpTo(xs, |xs|, m - 1) ==
      if RepeatBefore(xs, m - 1) then Err(DivisionByZero) else Ok(Bases(xs)[..m - 1])
    ensures CoefficientsUpTo(xs, |xs|, m) ==
      if RepeatBefore(xs, m) then Err(DivisionByZero) else Ok(Bases(xs)[..m])
  {
    CoefficientClosed(xs, m - 1);
    RepeatStep(xs, m);
    BasesPrefix(xs, m);
  }

  lemma BasesPrefix(xs: seq<bv8>, m: nat)
    requires 0 < m <= |xs|
    ensures Bases(xs)[..m] == Bases(xs)[..m - 1] + [Basis(xs, m - 1)]
  {
  }

  /** RepeatBefore grows by one coefficient at a time. */
  lemma RepeatStep(xs: seq<bv8>, m: nat)
    requires 0 < m <= |xs|
    ensures RepeatBefore(xs, m) <==> RepeatBefore(xs, m - 1) || ClashBefore(xs, m - 1, |xs|)
  {
    if RepeatBefore(xs, m) && !ClashBefore(xs, m - 1, |xs|) {
      var j :| 0 <= j < m && j < |xs| && ClashBefore(xs, j, |xs|);
      assert j < m - 1;
    }
  }

  lemma NoRepeatDistinct(xs: seq<bv8>)
    ensures !RepeatBefore(xs, |xs|) <==> Distinct(xs)
  {
    if !Distinct(xs) {
      var i, j :| 0 <= i < j < |xs| && xs[i] == xs[j];
      assert ClashBefore(xs, i, |xs|);
    }
    if RepeatBefore(xs, |xs|) {
      var j :| 0 <= j < |xs| && ClashBefore(xs, j, |xs|);
      var l :| 0 <= l < |xs| && l != j && xs[l] == xs[j];
      if l < j {
        assert !Distinct(xs);
      } else {
        assert !Distinct(xs);
      }
    }
  }

  /** With as many nonzero x-values as the quorum, pass 1 yields the Lagrange
      basis at 0 exactly when the x-values are distinct, and otherwise panics
      dividing by zero; it never reports linear dependence. */
  lemma Pass1Complete(xs: seq<bv8>)
    requires forall l :: 0 <= l < |xs| ==> xs[l] != 0
    ensures Pass1Result(xs, |xs|) ==
      if Distinct(xs) then Ok(Bases(xs)) else Err(DivisionByZero)
  {
    CoefficientsClosed(xs, |xs|);
    NoRepeatDistinct(xs);
    assert Bases(xs)[..|xs|] == Bases(xs);
  }

  /** A panic in the inner loop ends it. */
  lemma {:induction false} InnerErrSticks(xs: seq<bv8>, j: nat, m: nat, n: nat)
    requires m <= n && InnerUpTo(xs, j, m).Err?
    ensures InnerUpTo(xs, j, n) == InnerUpTo(xs, j, m)
    decreases n
  {
    if n > m {
      InnerErrSticks(xs, j, m, n - 1);
    }
  }

  lemma {:induction false} CoefficientsErrSticks(xs: seq<bv8>, k: nat, m: nat, n: nat)
    requires m <= n && CoefficientsUpTo(xs, k, m).Err?
    ensures CoefficientsUpTo(xs, k, n) == CoefficientsUpTo(xs, k, m)
    decreases n
  {
    if n > m {
      CoefficientsErrSticks(xs, k, m, n - 1);
    }
  }

  /** With fewer distinct x-values than a quorum of at least 2, pass 1 panics
      on the first x-value it does not have, while computing coefficient 0. */
  lemma Pass1Short(xs: seq<bv8>, k: nat)
    requires |xs| < k && 2 <= k && Distinct(xs)
    ensures Pass1Result(xs, k) == Err(MissingShares)
  {
    var n := |xs|;
    if n == 0 {
      assert InnerUpTo(xs, 0, 1) == Ok(1);
      assert InnerUpTo(xs, 0, 2) == Err(MissingShares);
      InnerErrSticks(xs, 0, 2, k);
    } else {
      InnerBasis(xs, 0, n);
      assert !ClashBefore(xs, 0, n);
      assert InnerUpTo(xs, 0, n + 1) == Err(MissingShares);
      InnerErrSticks(xs, 0, n + 1, k);
    }
    assert CoefficientsUpTo(xs, k, 1) == Err(MissingShares);
    CoefficientsErrSticks(xs, k, 1, k);
  }

  // ---------------------------------------------------------------------
  // Pass 2

  /** Every word i < words finds its k share bytes at i + j * words and its
      k coefficients. */
  predicate Fits(shares: seq<bv8>, coefs: seq<bv8>, words: nat, k: nat) {
    k * words <= |shares| && (words == 0 || k <= |coefs|)
  }

  /** Word i finds the share bytes and coefficients of lines 0 .. m-1. */
  predicate RowFits(shares: seq<bv8>, coefs: seq<bv8>, words: nat, i: nat, m: nat) {
    m <= |coefs| && (m == 0 || i + (m - 1) * words < |shares|)
  }

  lemma RowFitsPrefix(shares: seq<bv8>, coefs: seq<bv8>, words: nat, i: nat, m: nat)
    requires m > 0 && RowFits(shares, coefs, words, i, m)
    ensures RowFits(shares, coefs, words, i, m - 1)
  {
    if m > 1 {
      assert (m - 1) * words == (m - 2) * words + words;
    }
  }

  /** The XOR, over lines j < m, of share byte i + j * words times
      coefficient j: temp after the inner loop of pass 2 (lines 287-296). */
  function Word(shares: seq<bv8>, coefs: seq<bv8>, words: nat, i: nat, m: nat): (r: bv8)
    requires RowFits(shares, coefs, words, i, m)
    ensures (forall j :: 0 <= j < m ==> coefs[j] == 0) ==> r == 0
    decreases m
  {
    if m == 0 then 0
    else
      RowFitsPrefix(shares, coefs, words, i, m);
      Add(Word(shares, coefs, words, i, m - 1), Mul(shares[i + (m - 1) * words], coefs[m - 1]))
  }

  lemma FitsRow(shares: seq<bv8>, coefs: seq<bv8>, words: nat, k: nat, i: nat)
    requires Fits(shares, coefs, words, k) && i < words
    ensures RowFits(shares, coefs, words, i, k)
  {
    if k > 0 {
      assert k * words == (k - 1) * words + words;
    }
  }

  /** The secret pass 2 returns: one word per column of the share data. */
  function Answer(shares: seq<bv8>, coefs: seq<bv8>, words: nat, k: nat): (r: seq<bv8>)
    requires Fits(shares, coefs, words, k)
    ensures |r| == words
    ensures forall i :: 0 <= i < words ==>
      RowFits(shares, coefs, words, i, k) && r[i] == Word(shares, coefs, words, i, k)
  {
    seq(words, i requires 0 <= i < words =>
      FitsRow(shares, coefs, words, k, i);
      Word(shares, coefs, words, i, k))
  }

  /** What pass 2 returns, or the index panic it meets first: it walks word
      0 first, checking the share byte of line j before coefficient j, so it
      runs out of coefficients first exactly when they are fewer than k and
      word 0 has the share bytes of lines 0 .. |coefs|. */
  function Pass2Result(shares: seq<bv8>, coefs: seq<bv8>, words: nat, k: nat): (r: Result<seq<bv8>, Panic>)
    ensures r.Ok? <==> Fits(shares, coefs, words, k)
    ensures r.Ok? ==> |r.value| == words
    ensures r.Err? ==> r.error == MissingShareData || r.error == MissingCoefficients
  {
    if Fits(shares, coefs, words, k) then Ok(Answer(shares, coefs, words, k))
    else if |coefs| < k && |coefs| * words < |shares| then Err(MissingCoefficients)
    else Err(MissingShareData)
  }

  /** A word of pass 2 is the weighted sum of Lagrange when its share bytes
      are the values ys. */
  lemma {:induction false} WordOfValues(shares: seq<bv8>, coefs: seq<bv8>, words: nat, i: nat, m: nat, ys: seq<bv8>)
    requires RowFits(shares, coefs, words, i, m) && m <= |ys|
    requires forall j :: 0 <= j < m ==> shares[i + j * words] == ys[j]
    ensures Word(shares, coefs, words, i, m) == Dot(ys, coefs, m)
    decreases m
  {
    if m > 0 {
      RowFitsPrefix(shares, coefs, words, i, m);
      WordOfValues(shares, coefs, words, i, m - 1, ys);
    }
  }

  /** Bytes after those a word reads do not change it. */
  lemma {:induction false} WordPrefix(shares: seq<bv8>, extra: seq<bv8>, coefs: seq<bv8>, words: nat, i: nat, m: nat)
    requires RowFits(shares, coefs, words, i, m)
    ensures RowFits(shares + extra, coefs, words, i, m)
    ensures Word(shares + extra, coefs, words, i, m) == Word(shares, coefs, words, i, m)
    decreases m
  {
    if m > 0 {
      RowFitsPrefix(shares, coefs, words, i, m);
      WordPrefix(shares, extra, coefs, words, i, m - 1);
    }
  }

  /** Pass 2 reads only the first k * words bytes of the share data: the
      data of lines beyond the quorum never reaches the secret. */
  lemma Pass2ReadsPrefix(shares: seq<bv8>, coefs: seq<bv8>, words: nat, k: nat)
    requires Fits(shares, coefs, words, k)
    ensures Pass2Result(shares, coefs, words, k) == Pass2Result(shares[..k * words], coefs, words, k)
  {
    var front := shares[..k * words];
    assert shares == front + shares[k * words..];
    assert Fits(front, coefs, words, k);
    var a, b := Answer(shares, coefs, words, k), Answer(front, coefs, words, k);
    forall i | 0 <= i < words
      ensures a[i] == b[i]
    {
      FitsRow(front, coefs, words, k, i);
      WordPrefix(front, shares[k * words..], coefs, words, i, k);
    }
    assert a == b;
  }
}
