/** The Decoder of src/bin/shamir-combine.rs and the three steps main runs on
    it: parse_shares fills it from the input lines, pass_1 pushes the
    coefficients, pass_2 returns the secret. Each method updates the fields in
    place as the source does and is proved against the functions of modules
    Session and Passes. */
module Combine {
  import opened Outcomes
  import opened GFBits
  import opened GF256
  import opened Panics
  import opened ShareLine
  import opened Session
  import opened Passes

  /** The Decoder struct (lines 64-77). The source keeps K and W in u16 and
      the hex length in usize; here they are unbounded. */
  class Decoder {
    var quorum: nat
    var width: nat
    var hexLength: nat
    var xValues: seq<bv8>
    var shares: seq<bv8>
    var coefficients: seq<bv8>
    var solution: seq<bv8>

    /** The empty decoder parse_shares starts from (lines 109-115). */
    constructor ()
      ensures Snapshot(0) == Initial && coefficients == [] && solution == []
    {
      quorum, width, hexLength := 0, 0, 0;
      xValues, shares, coefficients, solution := [], [], [], [];
    }

    /** The session state the decoder holds once count lines are read. */
    function Snapshot(count: nat): State
      reads this
    {
      State(count, quorum, width, hexLength, xValues, shares)
    }

    /** The body of the loop of parse_shares (lines 154-180) for a line whose
        own checks gave f, count lines having been accepted before it: append
        the share data, fix or compare K, W and the hex length, check the
        share index, and store the x-value while count stays within K. */
    method Accept(count: nat, f: Fields) returns (r: Result<(), Panic>)
      requires f.width != 0
      modifies this
      ensures Step(old(Snapshot(count)), Ok(f)).Err? ==> r == Err(Step(old(Snapshot(count)), Ok(f)).error)
      ensures Step(old(Snapshot(count)), Ok(f)).Ok? ==>
        r.Ok? && Snapshot(count + 1) == Step(old(Snapshot(count)), Ok(f)).value
      ensures coefficients == old(coefficients) && solution == old(solution)
    {
      shares := shares + f.data;
      if count == 0 {
        if !SupportedWidth(f.width) {
          return Err(BadFieldWidth);
        }
        if f.quorum < 1 || f.quorum > Limit(f.width) {
          return Err(BadQuorum);
        }
        quorum, width, hexLength := f.quorum, f.width, f.hexLength;
      } else {
        if f.width != width {
          return Err(MismatchedWidth);
        }
        if f.quorum != quorum {
          return Err(MismatchedQuorum);
        }
        if f.hexLength != hexLength {
          return Err(WrongShareLength);
        }
      }
      if f.index < 1 || f.index > Limit(f.width) {
        return Err(BadShareIndex);
      }
      if count + 1 <= f.quorum {
        if f.width == 8 {
          xValues := xValues + [ByteOf(f.index % 256)];
        } else {
          return Err(UnsupportedWidth);
        }
      }
      r := Ok(());
    }

    /** pass_1 (lines 246-265): for j < K, multiplies temp by x_l and divides
        it by x_j + x_l for every l != j, and pushes it. */
    method Pass1() returns (r: Result<(), Panic>)
      modifies this
      ensures Pass1Result(xValues, quorum).Err? ==> r == Err(Pass1Result(xValues, quorum).error)
      ensures Pass1Result(xValues, quorum).Ok? ==>
        r.Ok? && coefficients == old(coefficients) + Pass1Result(xValues, quorum).value
      ensures quorum == old(quorum) && width == old(width) && hexLength == old(hexLength)
      ensures xValues == old(xValues) && shares == old(shares) && solution == old(solution)
    {
      var k, xs := quorum, xValues;
      var j := 0;
      while j < k
        invariant j <= k
        invariant CoefficientsUpTo(xs, k, j).Ok?
        invariant coefficients == old(coefficients) + CoefficientsUpTo(xs, k, j).value
        invariant quorum == old(quorum) && width == old(width) && hexLength == old(hexLength)
        invariant xValues == old(xValues) && shares == old(shares) && solution == old(solution)
      {
        var inner := InnerProduct(xs, k, j);
        if inner.Err? {
          InnerErrStops(xs, k, j);
          return Err(inner.error);
        }
        var temp := inner.value;
        if temp == 0 {
          CoefficientStops(xs, k, j);
          return Err(LinearIndependence);
        }
        CoefficientsStepOk(xs, k, j);
        coefficients := coefficients + [temp];
        j := j + 1;
      }
      r := Ok(());
    }

    /** pass_2 (lines 267-300): word i of the answer is the XOR over j < K of
        share byte i + j * words times coefficient j, words being half the hex
        length. The decoder is left as it is. */
    method Pass2() returns (r: Result<seq<bv8>, Panic>)
      ensures r == Pass2Result(shares, coefficients, hexLength / 2, quorum)
    {
      var k := quorum;
      var words := hexLength / 2;
      var ans: seq<bv8> := [];
      var i := 0;
      while i < words
        invariant i <= words && |ans| == i
        invariant i > 0 ==> k <= |coefficients| && (k == 0 || i - 1 + (k - 1) * words < |shares|)
        invariant forall i' :: 0 <= i' < i ==>
          RowFits(shares, coefficients, words, i', k) && ans[i'] == Word(shares, coefficients, words, i', k)
      {
        var temp := CombineWord(shares, coefficients, words, k, i);
        if temp.Err? {
          return Err(temp.error);
        }
        RowsFit(shares, coefficients, words, k, i);
        ans := ans + [temp.value];
        i := i + 1;
      }
      FitsAtEnd(shares, coefficients, words, k);
      assert ans == Answer(shares, coefficients, words, k);
      r := Ok(ans);
    }
  }

  /** The inner loop of pass_2 (lines 284-296) for word i: the sum over
      j < K of share byte i + j * words times coefficient j; it panics on a
      share byte or a coefficient it does not have. Earlier words having
      fitted, a panic here is the panic of the whole pass. */
  method CombineWord(shares: seq<bv8>, coefs: seq<bv8>, words: nat, k: nat, i: nat)
    returns (r: Result<bv8, Panic>)
    requires i < words
    requires i > 0 ==> k <= |coefs| && (k == 0 || i - 1 + (k - 1) * words < |shares|)
    ensures r.Ok? ==> RowFits(shares, coefs, words, i, k) && r.value == Word(shares, coefs, words, i, k)
    ensures r.Err? ==> Pass2Result(shares, coefs, words, k) == Err(r.error)
  {
    var temp: bv8 := 0;
    var j := 0;
    while j < k
      invariant j <= k
      invariant RowFits(shares, coefs, words, i, j)
      invariant temp == Word(shares, coefs, words, i, j)
    {
      var index := i + j * words;
      if index >= |shares| {
        ShareStop(shares, coefs, words, k, i, j);
        return Err(MissingShareData);
      }
      if j >= |coefs| {
        CoefficientStop(shares, coefs, words, k, i, j);
        return Err(MissingCoefficients);
      }
      temp := Add(temp, Mul(shares[index], coefs[j]));
      j := j + 1;
    }
    r := Ok(temp);
  }

  /** The inner loop of pass_1 (lines 254-261) for coefficient j: temp
      starts at 1 and, for every l < K other than j, is multiplied by x_l and
      divided by x_j + x_l; it panics on an x-value it does not have and on
      division by zero. */
  method InnerProduct(xs: seq<bv8>, k: nat, j: nat) returns (r: Result<bv8, Panic>)
    ensures r == InnerUpTo(xs, j, k)
  {
    var temp: bv8 := 1;
    var l := 0;
    while l < k
      invariant l <= k
      invariant InnerUpTo(xs, j, l) == Ok(temp)
    {
      InnerNext(xs, j, l, temp);
      if l != j {
        if l >= |xs| {
          InnerErrSticks(xs, j, l + 1, k);
          return Err(MissingShares);
        }
        var t := Mul(temp, xs[l]);
        if j >= |xs| {
          InnerErrSticks(xs, j, l + 1, k);
          return Err(MissingShares);
        }
        var d := Add(xs[j], xs[l]);
        if d == 0 {
          InnerErrSticks(xs, j, l + 1, k);
          return Err(DivisionByZero);
        }
        temp := Div(t, d);
      }
      l := l + 1;
    }
    r := Ok(temp);
  }

  /** A panic in the inner loop of pass 1 is the panic of the whole pass. */
  lemma InnerErrStops(xs: seq<bv8>, k: nat, j: nat)
    requires j < k && CoefficientsUpTo(xs, k, j).Ok? && InnerUpTo(xs, j, k).Err?
    ensures Pass1Result(xs, k) == Err(InnerUpTo(xs, j, k).error)
  {
    CoefficientOfInnerErr(xs, k, j);
    CoefficientStops(xs, k, j);
  }

  lemma CoefficientOfInnerErr(xs: seq<bv8>, k: nat, j: nat)
    requires InnerUpTo(xs, j, k).Err?
    ensures Coefficient(xs, k, j) == Err(InnerUpTo(xs, j, k).error)
  {
  }

  /** A zero coefficient is the panic of the whole pass. */
  lemma CoefficientStops(xs: seq<bv8>, k: nat, j: nat)
    requires j < k && CoefficientsUpTo(xs, k, j).Ok? && Coefficient(xs, k, j).Err?
    ensures Pass1Result(xs, k) == Err(Coefficient(xs, k, j).error)
  {
    CoefficientsStepErr(xs, k, j);
    CoefficientsErrSticks(xs, k, j + 1, k);
  }

  lemma CoefficientsStepOk(xs: seq<bv8>, k: nat, j: nat)
    requires CoefficientsUpTo(xs, k, j).Ok? && Coefficient(xs, k, j).Ok?
    ensures CoefficientsUpTo(xs, k, j + 1) == Ok(CoefficientsUpTo(xs, k, j).value + [Coefficient(xs, k, j).value])
  {
  }

  lemma CoefficientsStepErr(xs: seq<bv8>, k: nat, j: nat)
    requires CoefficientsUpTo(xs, k, j).Ok? && Coefficient(xs, k, j).Err?
    ensures CoefficientsUpTo(xs, k, j + 1) == Err(Coefficient(xs, k, j).error)
  {
  }

  lemma MulMono(a: nat, b: nat, c: nat)
    requires a <= b
    ensures a * c <= b * c
  {
    assert b * c == a * c + (b - a) * c;
  }

  /** Pass 2 runs out of share bytes at line j of word i. */
  lemma ShareStop(shares: seq<bv8>, coefs: seq<bv8>, words: nat, k: nat, i: nat, j: nat)
    requires i < words && j < k && i + j * words >= |shares|
    requires j <= |coefs| && (i > 0 ==> k <= |coefs|)
    ensures Pass2Result(shares, coefs, words, k) == Err(MissingShareData)
  {
    MulMono(j + 1, k, words);
    MulMono(j, |coefs|, words);
  }

  /** Pass 2 runs out of coefficients at line j of word i: only on word 0. */
  lemma CoefficientStop(shares: seq<bv8>, coefs: seq<bv8>, words: nat, k: nat, i: nat, j: nat)
    requires i < words && j < k && i + j * words < |shares|
    requires j <= |coefs| && j >= |coefs| && (i > 0 ==> k <= |coefs|)
    ensures Pass2Result(shares, coefs, words, k) == Err(MissingCoefficients)
  {
  }

  /** A completed word i brings the row facts of the outer loop forward. */
  lemma RowsFit(shares: seq<bv8>, coefs: seq<bv8>, words: nat, k: nat, i: nat)
    requires RowFits(shares, coefs, words, i, k)
    ensures k <= |coefs| && (k == 0 || i + (k - 1) * words < |shares|)
  {
  }

  /** All words completed: the share data and coefficients fit. */
  lemma FitsAtEnd(shares: seq<bv8>, coefs: seq<bv8>, words: nat, k: nat)
    requires words > 0 ==> k <= |coefs| && (k == 0 || words - 1 + (k - 1) * words < |shares|)
    ensures Fits(shares, coefs, words, k)
  {
    if words > 0 && k > 0 {
      assert k * words == (k - 1) * words + words;
    }
  }

  /** parse_shares (lines 104-183) over the input lines: a fresh decoder
      holding the session state, or the first panic. */
  method ParseShares(lines: seq<string>) returns (r: Result<Decoder, Panic>)
    ensures Run(lines).Err? ==> r == Err(Run(lines).error)
    ensures Run(lines).Ok? ==>
      r.Ok? && fresh(r.value) && r.value.Snapshot(|lines|) == Run(lines).value &&
      r.value.coefficients == [] && r.value.solution == []
  {
    var d := new Decoder();
    ghost var ps := ParseAll(lines);
    var count := 0;
    while count < |lines|
      invariant count <= |lines|
      invariant RunParsed(ps[..count]) == Ok(d.Snapshot(count))
      invariant fresh(d) && d.coefficients == [] && d.solution == []
    {
      RunNext(ps, count);
      var parsed := ParseLine(lines[count]);
      if parsed.Err? {
        RunEnds(ps, count);
        return Err(parsed.error);
      }
      var accepted := d.Accept(count, parsed.value);
      if accepted.Err? {
        RunEnds(ps, count);
        return Err(accepted.error);
      }
      count := count + 1;
    }
    assert ps[..count] == ps;
    r := Ok(d);
  }

  /** A line whose Step panics ends the run with that panic. */
  lemma RunEnds(ps: seq<Result<Fields, Panic>>, i: nat)
    requires i < |ps| && forall l :: 0 <= l < |ps| ==> Checked(ps[l])
    requires RunParsed(ps[..i + 1]).Err?
    ensures RunParsed(ps) == RunParsed(ps[..i + 1])
  {
    RunErrSticks(ps, i + 1, |ps|);
    assert ps[..|ps|] == ps;
  }

  /** main (lines 307-341) once parse_shares has run: the width-8 field runs
      both passes; the 4-, 16- and 32-bit solvers panic; any other width
      (only 0, when there was no input) hits the final panic. */
  function Finish(run: Result<State, Panic>): (r: Result<seq<bv8>, Panic>)
    ensures run.Err? ==> r == Err(run.error)
    ensures r.Ok? ==> run.Ok? && run.value.width == 8 && |r.value| == run.value.hexLength / 2
    ensures run.Ok? ==> (r == Err(FieldNotImplemented) <==> run.value.width in {4, 16, 32})
    ensures run.Ok? && run.value.width == 8 && r.Err? ==>
      r.error in {MissingShares, DivisionByZero, LinearIndependence, MissingShareData, MissingCoefficients}
  {
    match run
    case Err(e) => Err(e)
    case Ok(st) =>
      if st.width == 8 then
        match Pass1Result(st.xValues, st.quorum)
        case Err(e) => Err(e)
        case Ok(coefs) => Pass2Result(st.shares, coefs, st.hexLength / 2, st.quorum)
      else if st.width == 4 || st.width == 16 || st.width == 32 then Err(FieldNotImplemented)
      else Err(NoFieldWidth)
  }

  /** What shamir-combine makes of its input lines. */
  function Outcome(lines: seq<string>): (r: Result<seq<bv8>, Panic>)
    ensures r.Ok? ==>
      Run(lines).Ok? && Run(lines).value.width == 8 && |r.value| == Run(lines).value.hexLength / 2
  {
    Finish(Run(lines))
  }

  /** main (lines 307-341): parse the shares, then solve in the field of
      their width. */
  method CombineShares(lines: seq<string>) returns (r: Result<seq<bv8>, Panic>)
    ensures r == Outcome(lines)
  {
    var parsed := ParseShares(lines);
    if parsed.Err? {
      OutcomeOfPanic(lines);
      return Err(parsed.error);
    }
    var d := parsed.value;
    ghost var st := d.Snapshot(|lines|);
    OutcomeOfState(lines, st);
    if d.width == 8 {
      var p1 := d.Pass1();
      if p1.Err? {
        return Err(p1.error);
      }
      assert d.coefficients == Pass1Result(st.xValues, st.quorum).value;
      assert d.shares == st.shares && d.hexLength == st.hexLength && d.quorum == st.quorum;
      r := d.Pass2();
    } else if d.width == 4 || d.width == 16 || d.width == 32 {
      r := Err(FieldNotImplemented);
    } else {
      r := Err(NoFieldWidth);
    }
  }

  lemma OutcomeOfState(lines: seq<string>, st: State)
    requires Run(lines) == Ok(st)
    ensures Outcome(lines) == Finish(Ok(st))
  {
  }

  lemma OutcomeOfPanic(lines: seq<string>)
    requires Run(lines).Err?
    ensures Outcome(lines) == Err(Run(lines).error)
  {
  }
}
