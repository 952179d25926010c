/** The session that parse_shares (src/bin/shamir-combine.rs:104-183) runs over
    the input lines, as a function of the lines read so far. The first line
    fixes the quorum K, the field width W and the hex length; every later line
    must agree with them; the share index is range-checked on every line; only
    the first K lines give an x-value, while the share data of every line is
    kept. The Decoder class in module Combine runs the same session in place;
    this module is its specification. */
module Session {
  import opened Outcomes
  import opened GFBits
  import opened Panics
  import opened ShareLine

  /** What parse_shares has accumulated: the line counter, the Decoder
      fields it sets, and the x-values and share bytes it has collected. */
  datatype State = State(count: nat, quorum: nat, width: nat, hexLength: nat,
                         xValues: seq<bv8>, shares: seq<bv8>)

  /** The Decoder before the first line: every number zero, every vector empty. */
  const Initial := State(0, 0, 0, 0, [], [])

  function Pow2(n: nat): (r: nat)
    ensures r >= 1
  {
    if n == 0 then 1 else 2 * Pow2(n - 1)
  }

  predicate SupportedWidth(w: nat) {
    w == 4 || w == 8 || w == 16 || w == 32
  }

  /** The largest quorum and share index a field of w bits admits: 2^(w-1). */
  function Limit(w: nat): nat
    requires w >= 1
  {
    Pow2(w - 1)
  }

  /** The line checks rule out W = 0 before anything divides by W. */
  predicate Checked(parsed: Result<Fields, Panic>) {
    parsed.Ok? ==> parsed.value.width != 0
  }

  /** One iteration of the loop of src/bin/shamir-combine.rs:117-182, given
      what the line's own checks (ShareLine.ParseLine) made of it. */
  function Step(st: State, parsed: Result<Fields, Panic>): (r: Result<State, Panic>)
    requires Checked(parsed)
    ensures parsed.Err? ==> r == Err(parsed.error)
    ensures r.Err? && parsed.Ok? ==>
      r.error in {BadFieldWidth, BadQuorum, MismatchedWidth, MismatchedQuorum, WrongShareLength,
                  BadShareIndex, UnsupportedWidth}
    ensures r.Ok? ==>
      var f := parsed.value;
      r.value.count == st.count + 1 && r.value.shares == st.shares + f.data &&
      r.value.quorum == f.quorum && r.value.width == f.width && r.value.hexLength == f.hexLength &&
      1 <= f.index <= Limit(f.width) &&
      r.value.xValues == (if r.value.count <= f.quorum then st.xValues + [ByteOf(f.index % 256)] else st.xValues)
  {
    match parsed
    case Err(e) => Err(e)
    case Ok(f) =>
      var shares := st.shares + f.data;
      var fixed :=
        if st.count == 0 then
          if !SupportedWidth(f.width) then Err(BadFieldWidth)
          else if f.quorum < 1 || f.quorum > Limit(f.width) then Err(BadQuorum)
          else Ok(st.(quorum := f.quorum, width := f.width, hexLength := f.hexLength))
        else if f.width != st.width then Err(MismatchedWidth)
        else if f.quorum != st.quorum then Err(MismatchedQuorum)
        else if f.hexLength != st.hexLength then Err(WrongShareLength)
        else Ok(st);
      match fixed
      case Err(e) => Err(e)
      case Ok(st1) =>
        var count := st.count + 1;
        if f.index < 1 || f.index > Limit(f.width) then Err(BadShareIndex)
        else if count > f.quorum then Ok(st1.(count := count, shares := shares))
        else if f.width == 8 then
          Ok(st1.(count := count, shares := shares, xValues := st1.xValues + [ByteOf(f.index % 256)]))
        else Err(UnsupportedWidth)
  }

  /** The session after lines whose own checks gave the results ps: the first
      panic, or the state. */
  function RunParsed(ps: seq<Result<Fields, Panic>>): (r: Result<State, Panic>)
    requires forall i :: 0 <= i < |ps| ==> Checked(ps[i])
    ensures r.Ok? ==> r.value.count == |ps| && |r.value.xValues| <= |ps|
    decreases |ps|
  {
    if ps == [] then Ok(Initial)
    else
      match RunParsed(ps[..|ps| - 1])
      case Err(e) => Err(e)
      case Ok(st) => Step(st, ps[|ps| - 1])
  }

  /** Each line's own checks, in order. */
  function ParseAll(lines: seq<string>): (ps: seq<Result<Fields, Panic>>)
    ensures |ps| == |lines| && forall i :: 0 <= i < |lines| ==> ps[i] == ParseLine(lines[i]) && Checked(ps[i])
  {
    seq(|lines|, i requires 0 <= i < |lines| => ParseLine(lines[i]))
  }

  /** parse_shares over the given lines. */
  function Run(lines: seq<string>): (r: Result<State, Panic>)
    ensures r.Ok? ==> r.value.count == |lines| && forall i :: 0 <= i < |lines| ==> ParseLine(lines[i]).Ok?
  {
    RunAccepts(ParseAll(lines));
    RunParsed(ParseAll(lines))
  }

  /** The rules of parse_shares stated over the whole input at once: every
      line parses; the first line has W = 8 (the only width whose x-values
      are stored) and 1 <= K <= 2^7; and every line agrees with the first on
      W, K and hex length and has an index in 1 .. 2^7. */
  ghost predicate Acceptable(ps: seq<Result<Fields, Panic>>) {
    (forall i :: 0 <= i < |ps| ==> ps[i].Ok?) &&
    (|ps| > 0 ==>
      1 <= ps[0].value.quorum <= 128 &&
      forall i :: 0 <= i < |ps| ==>
        ps[i].value.width == 8 && ps[i].value.quorum == ps[0].value.quorum &&
        ps[i].value.hexLength == ps[0].value.hexLength && 1 <= ps[i].value.index <= 128)
  }

  /** The blocks one after another. */
  function Flatten(blocks: seq<seq<bv8>>): (r: seq<bv8>)
    decreases |blocks|
  {
    if blocks == [] then [] else Flatten(blocks[..|blocks| - 1]) + blocks[|blocks| - 1]
  }

  /** The share data of every line, in arrival order. */
  function DataOf(ps: seq<Result<Fields, Panic>>): (r: seq<seq<bv8>>)
    requires forall i :: 0 <= i < |ps| ==> ps[i].Ok?
    ensures |r| == |ps| && forall i :: 0 <= i < |ps| ==> r[i] == ps[i].value.data
  {
    seq(|ps|, i requires 0 <= i < |ps| => ps[i].value.data)
  }

  function Min(a: nat, b: nat): nat {
    if a <= b then a else b
  }

  /** What the session holds after accepting the lines: K, W = 8 and the hex
      length of the first line; the indices of the first K lines as x-values,
      in arrival order (S & 255 is S, since S <= 128); and the data of all
      lines, in arrival order. */
  ghost predicate Describes(st: State, ps: seq<Result<Fields, Panic>>)
    requires Acceptable(ps)
  {
    st.count == |ps| &&
    (|ps| == 0 ==> st == Initial) &&
    (|ps| > 0 ==>
      st.quorum == ps[0].value.quorum && st.width == 8 && st.hexLength == ps[0].value.hexLength &&
      |st.xValues| == Min(|ps|, ps[0].value.quorum) &&
      (forall i :: 0 <= i < |st.xValues| ==> st.xValues[i] == ByteOf(ps[i].value.index)) &&
      st.shares == Flatten(DataOf(ps)))
  }

  /** A run is acceptable when the run before its last line was, and the
      last line parsed and agrees with the first. */
  lemma AcceptableLast(ps: seq<Result<Fields, Panic>>)
    requires |ps| >= 1
    ensures Acceptable(ps) <==>
      Acceptable(ps[..|ps| - 1]) && ps[|ps| - 1].Ok? && ps[0].Ok? &&
      1 <= ps[0].value.quorum <= 128 &&
      var f := ps[|ps| - 1].value;
      f.width == 8 && f.quorum == ps[0].value.quorum &&
      f.hexLength == ps[0].value.hexLength && 1 <= f.index <= 128
  {
    var prefix := ps[..|ps| - 1];
    assert forall i :: 0 <= i < |prefix| ==> prefix[i] == ps[i];
  }

  lemma FlattenLast(ps: seq<Result<Fields, Panic>>)
    requires |ps| >= 1 && forall i :: 0 <= i < |ps| ==> ps[i].Ok?
    ensures Flatten(DataOf(ps)) == Flatten(DataOf(ps[..|ps| - 1])) + ps[|ps| - 1].value.data
  {
    var prefix := ps[..|ps| - 1];
    assert DataOf(ps)[..|ps| - 1] == DataOf(prefix);
  }

  /** The last line of an acceptable run moves a described state on to the
      next described state. */
  lemma StepAccepts(ps: seq<Result<Fields, Panic>>, st: State)
    requires |ps| >= 1 && Acceptable(ps)
    requires Acceptable(ps[..|ps| - 1]) && Describes(st, ps[..|ps| - 1])
    ensures Step(st, ps[|ps| - 1]).Ok? && Describes(Step(st, ps[|ps| - 1]).value, ps)
  {
    FlattenLast(ps);
    assert Limit(8) == 128;
    if |ps| == 1 {
      StepAcceptsFirst(ps, st);
    } else {
      StepAcceptsLater(ps, st);
    }
  }

  lemma StepAcceptsFirst(ps: seq<Result<Fields, Panic>>, st: State)
    requires |ps| == 1 && Acceptable(ps) && st == Initial
    requires Flatten(DataOf(ps)) == Flatten(DataOf(ps[..0])) + ps[0].value.data
    ensures Step(st, ps[0]).Ok? && Describes(Step(st, ps[0]).value, ps)
  {
    assert Limit(8) == 128;
    assert ps[0].value.index % 256 == ps[0].value.index;
  }

  lemma StepAcceptsLater(ps: seq<Result<Fields, Panic>>, st: State)
    requires |ps| >= 2 && Acceptable(ps)
    requires Acceptable(ps[..|ps| - 1]) && Describes(st, ps[..|ps| - 1])
    requires Flatten(DataOf(ps)) == Flatten(DataOf(ps[..|ps| - 1])) + ps[|ps| - 1].value.data
    ensures Step(st, ps[|ps| - 1]).Ok? && Describes(Step(st, ps[|ps| - 1]).value, ps)
  {
    var n := |ps|;
    var prefix := ps[..n - 1];
    var f := ps[n - 1].value;
    assert prefix[0] == ps[0];
    StepLater(st, f);
    DescribesLater(ps, st);
  }

  /** The state StepLater yields describes the run one line longer. */
  lemma DescribesLater(ps: seq<Result<Fields, Panic>>, st: State)
    requires |ps| >= 2 && Acceptable(ps)
    requires Acceptable(ps[..|ps| - 1]) && Describes(st, ps[..|ps| - 1])
    requires Flatten(DataOf(ps)) == Flatten(DataOf(ps[..|ps| - 1])) + ps[|ps| - 1].value.data
    ensures var f := ps[|ps| - 1].value;
      Describes(st.(count := st.count + 1, shares := st.shares + f.data,
        xValues := if st.count + 1 > f.quorum then st.xValues else st.xValues + [ByteOf(f.index)]), ps)
  {
    var n := |ps|;
    var prefix := ps[..n - 1];
    var f := ps[n - 1].value;
    assert prefix[0] == ps[0];
    var xs := if st.count + 1 > f.quorum then st.xValues else st.xValues + [ByteOf(f.index)];
    forall i | 0 <= i < |xs|
      ensures xs[i] == ByteOf(ps[i].value.index)
    {
      if i < |st.xValues| {
        assert prefix[i] == ps[i];
      }
    }
  }

  /** A later line that agrees with the session and has an index in
      1 .. 2^7 is counted, its data appended, and its index kept as an
      x-value while fewer than K lines have been counted. */
  lemma StepLater(st: State, f: Fields)
    requires st.count > 0 && st.width == 8 && f.width == 8
    requires f.quorum == st.quorum && f.hexLength == st.hexLength && 1 <= f.index <= 128
    ensures Step(st, Ok(f)) == Ok(st.(count := st.count + 1, shares := st.shares + f.data,
      xValues := if st.count + 1 > f.quorum then st.xValues else st.xValues + [ByteOf(f.index)]))
  {
    assert Limit(8) == 128;
    assert f.index % 256 == f.index;
  }

  /** A last line that makes the run unacceptable panics. */
  lemma StepRejects(ps: seq<Result<Fields, Panic>>, st: State)
    requires |ps| >= 1 && !Acceptable(ps) && Checked(ps[|ps| - 1])
    requires Acceptable(ps[..|ps| - 1]) && Describes(st, ps[..|ps| - 1])
    ensures Step(st, ps[|ps| - 1]).Err?
  {
    var n := |ps|;
    var prefix := ps[..n - 1];
    AcceptableLast(ps);
    assert Limit(8) == 128;
    if n > 1 {
      assert prefix[0] == ps[0];
    }
  }

  /** parse_shares finishes without a panic exactly on acceptable input, and
      then holds what Describes says. */
  lemma {:induction false} RunAccepts(ps: seq<Result<Fields, Panic>>)
    requires forall i :: 0 <= i < |ps| ==> Checked(ps[i])
    ensures RunParsed(ps).Ok? <==> Acceptable(ps)
    ensures RunParsed(ps).Ok? ==> Describes(RunParsed(ps).value, ps)
    decreases |ps|
  {
    if ps != [] {
      var prefix := ps[..|ps| - 1];
      RunAccepts(prefix);
      AcceptableLast(ps);
      if Acceptable(ps) {
        StepAccepts(ps, RunParsed(prefix).value);
      } else if Acceptable(prefix) {
        StepRejects(ps, RunParsed(prefix).value);
      }
    }
  }

  /** One more line moves the run on by one Step. */
  lemma RunNext(ps: seq<Result<Fields, Panic>>, i: nat)
    requires i < |ps| && forall l :: 0 <= l < |ps| ==> Checked(ps[l])
    requires RunParsed(ps[..i]).Ok?
    ensures RunParsed(ps[..i + 1]) == Step(RunParsed(ps[..i]).value, ps[i])
  {
    assert ps[..i + 1][..i] == ps[..i];
  }

  /** A panic ends the run: later lines change nothing. */
  lemma {:induction false} RunErrSticks(ps: seq<Result<Fields, Panic>>, m: nat, n: nat)
    requires m <= n <= |ps| && forall l :: 0 <= l < |ps| ==> Checked(ps[l])
    requires RunParsed(ps[..m]).Err?
    ensures RunParsed(ps[..n]) == RunParsed(ps[..m])
    decreases n
  {
    if n > m {
      RunErrSticks(ps, m, n - 1);
      var q := ps[..n];
      assert q[..|q| - 1] == ps[..n - 1];
      assert RunParsed(q[..|q| - 1]).Err?;
    }
  }
}
