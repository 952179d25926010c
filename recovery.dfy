/** What shamir-combine recovers. Each word of a secret is the constant term
    of a polynomial of degree below K over GF(2^8); the share with index S
    holds the value of every word's polynomial at x = S (the comment at
    src/bin/shamir-combine.rs:38-57). The theorems run the whole model,
    parse_shares, pass_1 and pass_2, on the lines such shares are written as,
    and say what comes out. */
module Recovery {
  import opened Outcomes
  import opened GFBits
  import opened GF256
  import opened Text
  import opened Panics
  import opened ShareLine
  import opened Session
  import opened Lagrange
  import opened Passes
  import opened Combine

  /** The data of the share with index s: word i is polys[i] at x = s. */
  function ShareData(s: nat, polys: seq<seq<bv8>>): (data: seq<bv8>)
    requires s < 256
    ensures |data| == |polys| && forall i :: 0 <= i < |polys| ==> data[i] == Eval(polys[i], ByteOf(s))
  {
    seq(|polys|, i requires 0 <= i < |polys| => Eval(polys[i], ByteOf(s)))
  }

  /** Share indices a share generator may hand out for GF(2^8): 1 .. 2^7. */
  predicate ValidIndices(idx: seq<nat>) {
    forall j :: 0 <= j < |idx| ==> 1 <= idx[j] <= 128
  }

  /** The share lines, one per index, for quorum k. */
  function ShareLines(k: nat, idx: seq<nat>, polys: seq<seq<bv8>>): (lines: seq<string>)
    requires ValidIndices(idx)
    ensures |lines| == |idx| &&
      forall j :: 0 <= j < |idx| ==> lines[j] == FormatLine(k, 8, idx[j], ShareData(idx[j], polys))
  {
    seq(|idx|, j requires 0 <= j < |idx| => FormatLine(k, 8, idx[j], ShareData(idx[j], polys)))
  }

  /** What each of those lines parses to on its own. */
  function ShareFields(k: nat, idx: seq<nat>, polys: seq<seq<bv8>>): (ps: seq<Result<Fields, Panic>>)
    requires ValidIndices(idx)
    ensures |ps| == |idx| &&
      forall j :: 0 <= j < |idx| ==>
        ps[j] == Ok(Fields(k, 8, idx[j], 2 * |polys|, ShareData(idx[j], polys)))
  {
    seq(|idx|, j requires 0 <= j < |idx| => Ok(Fields(k, 8, idx[j], 2 * |polys|, ShareData(idx[j], polys))))
  }

  /** The first k indices differ from each other. */
  predicate DistinctFirst(idx: seq<nat>, k: nat) {
    forall a, b :: 0 <= a < b < k && b < |idx| ==> idx[a] != idx[b]
  }

  /** The secret: the constant term of every word's polynomial. */
  function Secret(polys: seq<seq<bv8>>): (s: seq<bv8>)
    requires forall i :: 0 <= i < |polys| ==> polys[i] != []
    ensures |s| == |polys| && forall i :: 0 <= i < |polys| ==> s[i] == polys[i][0]
  {
    seq(|polys|, i requires 0 <= i < |polys| => polys[i][0])
  }

  lemma ParsedShareLines(k: nat, idx: seq<nat>, polys: seq<seq<bv8>>)
    requires k <= U16Max && ValidIndices(idx)
    ensures ParseAll(ShareLines(k, idx, polys)) == ShareFields(k, idx, polys)
  {
    var lines := ShareLines(k, idx, polys);
    forall j | 0 <= j < |idx|
      ensures ParseLine(lines[j]) == ShareFields(k, idx, polys)[j]
    {
      var data := ShareData(idx[j], polys);
      assert (8 * |data|) % 8 == 0;
      ParseFormatLine(k, 8, idx[j], data);
    }
  }

  /** Where block j starts when blocks of `words` bytes are laid end to end:
      j * words, counted out block by block. */
  function Offset(j: nat, words: nat): nat {
    if j == 0 then 0 else Offset(j - 1, words) + words
  }

  lemma {:induction false} OffsetIsProduct(j: nat, words: nat)
    ensures Offset(j, words) == j * words
  {
    if j > 0 {
      OffsetIsProduct(j - 1, words);
      assert j * words == (j - 1) * words + words;
    }
  }

  /** Blocks of `words` bytes each, laid end to end, take Offset(n, words)
      bytes. */
  lemma {:induction false} FlattenLength(blocks: seq<seq<bv8>>, words: nat)
    requires forall j :: 0 <= j < |blocks| ==> |blocks[j]| == words
    ensures |Flatten(blocks)| == Offset(|blocks|, words)
    decreases |blocks|
  {
    if blocks != [] {
      FlattenLength(blocks[..|blocks| - 1], words);
    }
  }

  /** Byte i of block j sits at Offset(j, words) + i of the blocks laid end
      to end. */
  lemma {:induction false} FlattenAt(blocks: seq<seq<bv8>>, words: nat, j: nat, i: nat)
    requires forall l :: 0 <= l < |blocks| ==> |blocks[l]| == words
    requires j < |blocks| && i < words
    ensures Offset(j, words) + i < |Flatten(blocks)|
    ensures Flatten(blocks)[Offset(j, words) + i] == blocks[j][i]
    decreases |blocks|
  {
    var n := |blocks| - 1;
    var init := blocks[..n];
    assert Flatten(blocks) == Flatten(init) + blocks[n];
    FlattenLength(init, words);
    if j < n {
      FlattenAt(init, words, j, i);
      assert init[j] == blocks[j];
    }
  }

  lemma ByteOfInjective(a: nat, b: nat)
    requires a < 256 && b < 256 && a != b
    ensures ByteOf(a) != ByteOf(b)
  {
  }

  /** The accepted session for the share lines of n >= 1 indices. */
  lemma SessionOfShares(k: nat, idx: seq<nat>, polys: seq<seq<bv8>>)
    requires 1 <= k <= 128 && 1 <= |idx| && ValidIndices(idx)
    ensures var ps := ShareFields(k, idx, polys);
      RunParsed(ps).Ok? && Describes(RunParsed(ps).value, ps)
  {
    var ps := ShareFields(k, idx, polys);
    assert Acceptable(ps);
    RunAccepts(ps);
  }

  /** Column i of the share data holds p at the x-values when block j holds
      p(x_j) at position i. */
  lemma ColumnValues(shares: seq<bv8>, blocks: seq<seq<bv8>>, words: nat, i: nat, p: seq<bv8>, xs: seq<bv8>)
    requires shares == Flatten(blocks) && |xs| <= |blocks| && i < words
    requires forall j :: 0 <= j < |blocks| ==> |blocks[j]| == words
    requires forall j :: 0 <= j < |xs| ==> blocks[j][i] == Eval(p, xs[j])
    ensures forall j :: 0 <= j < |xs| ==>
      i + j * words < |shares| && shares[i + j * words] == Values(p, xs)[j]
  {
    forall j | 0 <= j < |xs|
      ensures i + j * words < |shares| && shares[i + j * words] == Values(p, xs)[j]
    {
      FlattenAt(blocks, words, j, i);
      OffsetIsProduct(j, words);
    }
  }

  /** A word of pass 2 whose column holds the values of p at distinct points,
      weighted by their Lagrange basis, is the constant term of p. */
  lemma WordSecret(shares: seq<bv8>, words: nat, i: nat, p: seq<bv8>, xs: seq<bv8>)
    requires Distinct(xs) && 1 <= |p| <= |xs|
    requires RowFits(shares, Bases(xs), words, i, |xs|)
    requires forall j :: 0 <= j < |xs| ==> shares[i + j * words] == Values(p, xs)[j]
    ensures Word(shares, Bases(xs), words, i, |xs|) == p[0]
  {
    WordOfValues(shares, Bases(xs), words, i, |xs|, Values(p, xs));
    LagrangeAtZero(xs, p);
    EvalAtZero(p);
  }

  /** Pass 2 over the session of the share lines, with the Lagrange basis of
      the first k x-values as coefficients, returns the secret. */
  lemma Pass2OfShares(k: nat, idx: seq<nat>, polys: seq<seq<bv8>>, xs: seq<bv8>, shares: seq<bv8>)
    requires 1 <= k <= |idx| && ValidIndices(idx)
    requires forall i :: 0 <= i < |polys| ==> 1 <= |polys[i]| <= k
    requires |xs| == k && forall j :: 0 <= j < k ==> xs[j] == ByteOf(idx[j])
    requires Distinct(xs)
    requires shares == Flatten(DataOf(ShareFields(k, idx, polys)))
    ensures Pass2Result(shares, Bases(xs), |polys|, k) == Ok(Secret(polys))
  {
    var words := |polys|;
    var blocks := DataOf(ShareFields(k, idx, polys));
    assert forall j :: 0 <= j < |blocks| ==> blocks[j] == ShareData(idx[j], polys);
    FlattenLength(blocks, words);
    OffsetIsProduct(|idx|, words);
    MulMono(k, |idx|, words);
    var coefs := Bases(xs);
    assert Fits(shares, coefs, words, k);
    var ans := Answer(shares, coefs, words, k);
    forall i | 0 <= i < words
      ensures ans[i] == polys[i][0]
    {
      ColumnValues(shares, blocks, words, i, polys[i], xs);
      WordSecret(shares, words, i, polys[i], xs);
    }
    assert ans == Secret(polys);
  }

  /** Both passes over a session holding the shares' x-values and data. */
  lemma FinishShares(st: State, k: nat, idx: seq<nat>, polys: seq<seq<bv8>>)
    requires 1 <= k <= 128 && k <= |idx| && ValidIndices(idx)
    requires forall i :: 0 <= i < |polys| ==> 1 <= |polys[i]| <= k
    requires st.width == 8 && st.quorum == k && st.hexLength == 2 * |polys|
    requires |st.xValues| == k && forall j :: 0 <= j < k ==> st.xValues[j] == ByteOf(idx[j])
    requires st.shares == Flatten(DataOf(ShareFields(k, idx, polys)))
    ensures Finish(Ok(st)) == if DistinctFirst(idx, k) then Ok(Secret(polys)) else Err(DivisionByZero)
  {
    var xs := st.xValues;
    assert forall j :: 0 <= j < k ==> xs[j] != 0;
    Pass1Complete(xs);
    DistinctIndices(idx, k, xs);
    assert st.hexLength / 2 == |polys|;
    if DistinctFirst(idx, k) {
      Pass2OfShares(k, idx, polys, xs, st.shares);
    }
  }

  /** The theorem below over what the lines parse to. */
  lemma CombineParsed(k: nat, idx: seq<nat>, polys: seq<seq<bv8>>)
    requires 1 <= k <= 128 && k <= |idx| && ValidIndices(idx)
    requires forall i :: 0 <= i < |polys| ==> 1 <= |polys[i]| <= k
    ensures Finish(RunParsed(ShareFields(k, idx, polys))) ==
      if DistinctFirst(idx, k) then Ok(Secret(polys)) else Err(DivisionByZero)
  {
    var ps := ShareFields(k, idx, polys);
    SessionOfShares(k, idx, polys);
    var st := RunParsed(ps).value;
    assert Min(|ps|, k) == k;
    FinishShares(st, k, idx, polys);
  }

  lemma DistinctIndices(idx: seq<nat>, k: nat, xs: seq<bv8>)
    requires k <= |idx| && ValidIndices(idx)
    requires |xs| == k && forall j :: 0 <= j < k ==> xs[j] == ByteOf(idx[j])
    ensures Distinct(xs) <==> DistinctFirst(idx, k)
  {
    if !DistinctFirst(idx, k) {
      var a, b :| 0 <= a < b < k && b < |idx| && idx[a] == idx[b];
      assert xs[a] == xs[b];
    }
    if DistinctFirst(idx, k) {
      forall a, b | 0 <= a < b < |xs|
        ensures xs[a] != xs[b]
      {
        ByteOfInjective(idx[a], idx[b]);
      }
    }
  }

  /** Shamir's scheme end to end: from the lines of at least K shares of a
      secret, shamir-combine recovers the secret when the first K share
      indices differ, and otherwise stops dividing by zero. Lines after the
      K-th take no part. */
  lemma CombineShareLines(k: nat, idx: seq<nat>, polys: seq<seq<bv8>>)
    requires 1 <= k <= 128 && k <= |idx| && ValidIndices(idx)
    requires forall i :: 0 <= i < |polys| ==> 1 <= |polys[i]| <= k
    ensures Outcome(ShareLines(k, idx, polys)) ==
      if DistinctFirst(idx, k) then Ok(Secret(polys)) else Err(DivisionByZero)
  {
    ParsedShareLines(k, idx, polys);
    CombineParsed(k, idx, polys);
  }

  /** Fewer than K shares with distinct indices, K >= 2: pass 1 runs out of
      x-values. */
  lemma CombineTooFewLines(k: nat, idx: seq<nat>, polys: seq<seq<bv8>>)
    requires 2 <= k <= 128 && 1 <= |idx| < k && ValidIndices(idx) && DistinctFirst(idx, k)
    ensures Outcome(ShareLines(k, idx, polys)) == Err(MissingShares)
  {
    var ps := ShareFields(k, idx, polys);
    ParsedShareLines(k, idx, polys);
    SessionOfShares(k, idx, polys);
    var xs := RunParsed(ps).value.xValues;
    assert |xs| == |idx|;
    forall a, b | 0 <= a < b < |xs|
      ensures xs[a] != xs[b]
    {
      ByteOfInjective(idx[a], idx[b]);
    }
    Pass1Short(xs, k);
  }

  /** After an accepted run the width is 8, or 0 when there were no lines:
      a first line of width 4, 16 or 32 always stops at the x-value it cannot
      store, so the solvers for those fields are never reached. */
  lemma AcceptedWidth(ps: seq<Result<Fields, Panic>>)
    requires forall i :: 0 <= i < |ps| ==> Checked(ps[i])
    requires RunParsed(ps).Ok?
    ensures RunParsed(ps).value.width == if ps == [] then 0 else 8
  {
    RunAccepts(ps);
  }

  /** Hence shamir-combine never reaches the 4-, 16- and 32-bit solvers, and
      stops with the final panic exactly on empty input. */
  lemma OnlyWidth8Solves(lines: seq<string>)
    ensures Outcome(lines) != Err(FieldNotImplemented)
    ensures Run(lines).Ok? ==> (Outcome(lines) == Err(NoFieldWidth) <==> lines == [])
  {
    var ps := ParseAll(lines);
    if Run(lines).Ok? {
      AcceptedWidth(ps);
    } else {
      RunPanics(ps);
    }
  }

  /** The panics parse_shares can raise. */
  predicate SessionPanic(e: Panic) {
    e in {WrongFieldCount, BadNumber, TrailingData, ZeroWidth, NotMultipleOfWidth, MissingPadding,
          InvalidHex, BadFieldWidth, BadQuorum, MismatchedWidth, MismatchedQuorum,
          WrongShareLength, BadShareIndex, UnsupportedWidth}
  }

  lemma {:induction false} RunPanics(ps: seq<Result<Fields, Panic>>)
    requires forall i :: 0 <= i < |ps| ==> Checked(ps[i])
    requires forall i :: 0 <= i < |ps| ==> ps[i].Err? ==> SessionPanic(ps[i].error)
    ensures RunParsed(ps).Err? ==> SessionPanic(RunParsed(ps).error)
    decreases |ps|
  {
    if ps != [] {
      RunPanics(ps[..|ps| - 1]);
    }
  }
}
