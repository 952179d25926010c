/** The multiplicative orbit of the generator 3 in GF(2^8).

    Scale3(k, y) is y multiplied k times by 3, and Exp(k) = Scale3(k, 1) = 3^k.
    Seventeen concrete segments of fifteen steps each establish that 3^255 = 1
    and that no smaller positive power of 3 is 1. From that, the powers 3^0 ..
    3^254 are pairwise distinct, and counting shows that they are exactly the
    255 nonzero bytes. The field module turns this into multiplicative inverses
    and the absence of zero divisors. */
module GFOrbit {
  import opened GFBits

  /** y times 3^k. */
  function Scale3(k: nat, y: bv8): bv8 {
    if k == 0 then y else Times3(Scale3(k - 1, y))
  }

  /** 3^k. */
  function Exp(k: nat): bv8 {
    Scale3(k, 1)
  }

  /** None of Scale3(1, y) .. Scale3(k, y) is 1. */
  ghost predicate AvoidsOne(k: nat, y: bv8) {
    k == 0 || (Scale3(k, y) != 1 && AvoidsOne(k - 1, y))
  }

  lemma {:induction false} Scale3Compose(a: nat, b: nat, y: bv8)
    ensures Scale3(a + b, y) == Scale3(b, Scale3(a, y))
    decreases b
  {
    if b != 0 {
      Scale3Compose(a, b - 1, y);
    }
  }

  lemma {:induction false} AvoidsOneCompose(a: nat, b: nat, y: bv8)
    requires AvoidsOne(a, y) && AvoidsOne(b, Scale3(a, y))
    ensures AvoidsOne(a + b, y)
    decreases b
  {
    if b != 0 {
      Scale3Compose(a, b, y);
      AvoidsOneCompose(a, b - 1, y);
    }
  }

  lemma {:induction false} AvoidsOneAt(k: nat, y: bv8, m: nat)
    requires AvoidsOne(k, y) && 1 <= m <= k
    ensures Scale3(m, y) != 1
    decreases k
  {
    if m < k {
      AvoidsOneAt(k - 1, y, m);
    }
  }

  /** 3^(15 c), for c = 0 .. 16. */
  function Checkpoint(c: nat): bv8
    requires c <= 17
  {
    match c
      case 0 => 0x01
      case 1 => 0x35
      case 2 => 0x66
      case 3 => 0xab
      case 4 => 0xd3
      case 5 => 0x08
      case 6 => 0xb3
      case 7 => 0x1d
      case 8 => 0x2f
      case 9 => 0xc2
      case 10 => 0x40
      case 11 => 0xef
      case 12 => 0xe8
      case 13 => 0x63
      case 14 => 0x4a
      case 15 => 0x36
      case 16 => 0x39
      case _ => 0x01
  }

  lemma Segment0(y: bv8)
    requires y == 0x01
    ensures Scale3(15, y) == 0x35 && AvoidsOne(15, y)
  {
    assert Scale3(5, 0x01) == 0x33 && AvoidsOne(5, 0x01);
    assert Scale3(10, 0x01) == 0x72 && AvoidsOne(10, 0x01);
  }

  lemma Segment1(y: bv8)
    requires y == 0x35
    ensures Scale3(15, y) == 0x66 && AvoidsOne(15, y)
  {
    assert Scale3(5, 0x35) == 0xd8 && AvoidsOne(5, 0x35);
    assert Scale3(10, 0x35) == 0x02 && AvoidsOne(10, 0x35);
  }

  lemma Segment2(y: bv8)
    requires y == 0x66
    ensures Scale3(15, y) == 0xab && AvoidsOne(15, y)
  {
    assert Scale3(5, 0x66) == 0xe4 && AvoidsOne(5, 0x66);
    assert Scale3(10, 0x66) == 0x6a && AvoidsOne(10, 0x66);
  }

  lemma Segment3(y: bv8)
    requires y == 0xab
    ensures Scale3(15, y) == 0xd3 && AvoidsOne(15, y)
  {
    assert Scale3(5, 0xab) == 0x04 && AvoidsOne(5, 0xab);
    assert Scale3(10, 0xab) == 0xcc && AvoidsOne(10, 0xab);
  }

  lemma Segment4(y: bv8)
    requires y == 0xd3
    ensures Scale3(15, y) == 0x08 && AvoidsOne(15, y)
  {
    assert Scale3(5, 0xd3) == 0xd4 && AvoidsOne(5, 0xd3);
    assert Scale3(10, 0xd3) == 0x4d && AvoidsOne(10, 0xd3);
  }

  lemma Segment5(y: bv8)
    requires y == 0x08
    ensures Scale3(15, y) == 0xb3 && AvoidsOne(15, y)
  {
    assert Scale3(5, 0x08) == 0x83 && AvoidsOne(5, 0x08);
    assert Scale3(10, 0x08) == 0xbd && AvoidsOne(10, 0x08);
  }

  lemma Segment6(y: bv8)
    requires y == 0xb3
    ensures Scale3(15, y) == 0x1d && AvoidsOne(15, y)
  {
    assert Scale3(5, 0xb3) == 0x9a && AvoidsOne(5, 0xb3);
    assert Scale3(10, 0xb3) == 0x10 && AvoidsOne(10, 0xb3);
  }

  lemma Segment7(y: bv8)
    requires y == 0x1d
    ensures Scale3(15, y) == 0x2f && AvoidsOne(15, y)
  {
    assert Scale3(5, 0x1d) == 0x61 && AvoidsOne(5, 0x1d);
    assert Scale3(10, 0x1d) == 0x7d && AvoidsOne(10, 0x1d);
  }

  lemma Segment8(y: bv8)
    requires y == 0x2f
    ensures Scale3(15, y) == 0xc2 && AvoidsOne(15, y)
  {
    assert Scale3(5, 0x2f) == 0x20 && AvoidsOne(5, 0x2f);
    assert Scale3(10, 0x2f) == 0x3a && AvoidsOne(10, 0x2f);
  }

  lemma Segment9(y: bv8)
    requires y == 0xc2
    ensures Scale3(15, y) == 0x40 && AvoidsOne(15, y)
  {
    assert Scale3(5, 0xc2) == 0xfa && AvoidsOne(5, 0xc2);
    assert Scale3(10, 0xc2) == 0x5e && AvoidsOne(10, 0xc2);
  }

  lemma Segment10(y: bv8)
    requires y == 0x40
    ensures Scale3(15, y) == 0xef && AvoidsOne(15, y)
  {
    assert Scale3(5, 0x40) == 0x74 && AvoidsOne(5, 0x40);
    assert Scale3(10, 0x40) == 0x9f && AvoidsOne(10, 0x40);
  }

  lemma Segment11(y: bv8)
    requires y == 0xef
    ensures Scale3(15, y) == 0xe8 && AvoidsOne(15, y)
  {
    assert Scale3(5, 0xef) == 0xbc && AvoidsOne(5, 0xef);
    assert Scale3(10, 0xef) == 0x80 && AvoidsOne(10, 0xef);
  }

  lemma Segment12(y: bv8)
    requires y == 0xe8
    ensures Scale3(15, y) == 0x63 && AvoidsOne(15, y)
  {
    assert Scale3(5, 0xe8) == 0x25 && AvoidsOne(5, 0xe8);
    assert Scale3(10, 0xe8) == 0xc5 && AvoidsOne(10, 0xe8);
  }

  lemma Segment13(y: bv8)
    requires y == 0x63
    ensures Scale3(15, y) == 0x4a && AvoidsOne(15, y)
  {
    assert Scale3(5, 0x63) == 0x1b && AvoidsOne(5, 0x63);
    assert Scale3(10, 0x63) == 0xcb && AvoidsOne(10, 0x63);
  }

  lemma Segment14(y: bv8)
    requires y == 0x4a
    ensures Scale3(15, y) == 0x36 && AvoidsOne(15, y)
  {
    assert Scale3(5, 0x4a) == 0x91 && AvoidsOne(5, 0x4a);
    assert Scale3(10, 0x4a) == 0xc6 && AvoidsOne(10, 0x4a);
  }

  lemma Segment15(y: bv8)
    requires y == 0x36
    ensures Scale3(15, y) == 0x39 && AvoidsOne(15, y)
  {
    assert Scale3(5, 0x36) == 0x8d && AvoidsOne(5, 0x36);
    assert Scale3(10, 0x36) == 0x94 && AvoidsOne(10, 0x36);
  }

  lemma Segment16(y: bv8)
    requires y == 0x39
    ensures Scale3(15, y) == 0x01 && AvoidsOne(14, y)
  {
    assert Scale3(5, 0x39) == 0x97 && AvoidsOne(5, 0x39);
    assert Scale3(10, 0x39) == 0x6c && AvoidsOne(10, 0x39);
  }

  lemma SegmentsFrom0(c: nat)
    requires 0 <= c < 3
    ensures Scale3(15, Checkpoint(c)) == Checkpoint(c + 1)
    ensures AvoidsOne(if c == 16 then 14 else 15, Checkpoint(c))
  {
    if c == 0 {
      Segment0(Checkpoint(c));
    } else if c == 1 {
      Segment1(Checkpoint(c));
    } else {
      Segment2(Checkpoint(c));
    }
  }

  lemma SegmentsFrom3(c: nat)
    requires 3 <= c < 6
    ensures Scale3(15, Checkpoint(c)) == Checkpoint(c + 1)
    ensures AvoidsOne(if c == 16 then 14 else 15, Checkpoint(c))
  {
    if c == 3 {
      Segment3(Checkpoint(c));
    } else if c == 4 {
      Segment4(Checkpoint(c));
    } else {
      Segment5(Checkpoint(c));
    }
  }

  lemma SegmentsFrom6(c: nat)
    requires 6 <= c < 12
    ensures Scale3(15, Checkpoint(c)) == Checkpoint(c + 1)
    ensures AvoidsOne(if c == 16 then 14 else 15, Checkpoint(c))
  {
    if c == 6 {
      Segment6(Checkpoint(c));
    } else if c == 7 {
      Segment7(Checkpoint(c));
    } else if c == 8 {
      Segment8(Checkpoint(c));
    } else if c == 9 {
      Segment9(Checkpoint(c));
    } else if c == 10 {
      Segment10(Checkpoint(c));
    } else {

      Segment11(Checkpoint(c));
    }
  }

  lemma SegmentsFrom12(c: nat)
    requires 12 <= c < 17
    ensures Scale3(15, Checkpoint(c)) == Checkpoint(c + 1)
    ensures AvoidsOne(if c == 16 then 14 else 15, Checkpoint(c))
  {
    if c == 12 {
      Segment12(Checkpoint(c));
    } else if c == 13 {
      Segment13(Checkpoint(c));
    } else if c == 14 {
      Segment14(Checkpoint(c));
    } else if c == 15 {
      Segment15(Checkpoint(c));
    } else {

      Segment16(Checkpoint(c));
    }
  }

  /** Segment c leads from checkpoint c to checkpoint c + 1 without meeting 1
      (the last segment meets 1 only at its end). */
  lemma SegmentAt(c: nat)
    requires c < 17
    ensures Scale3(15, Checkpoint(c)) == Checkpoint(c + 1)
    ensures AvoidsOne(if c == 16 then 14 else 15, Checkpoint(c))
  {
    if c < 3 {
      SegmentsFrom0(c);
    } else if c < 6 {
      SegmentsFrom3(c);
    } else if c < 12 {
      SegmentsFrom6(c);
    } else {
      SegmentsFrom12(c);
    }
  }

  lemma ChainStep(a: nat, b: nat, y: bv8, z: bv8)
    requires Exp(a) == y && AvoidsOne(a, 1)
    requires Scale3(b, y) == z && AvoidsOne(b, y)
    ensures Exp(a + b) == z && AvoidsOne(a + b, 1)
  {
    Scale3Compose(a, b, 1);
    AvoidsOneCompose(a, b, 1);
  }

  lemma {:induction false} Prefix(c: nat)
    requires c <= 16
    ensures Exp(15 * c) == Checkpoint(c) && AvoidsOne(15 * c, 1)
  {
    if c != 0 {
      Prefix(c - 1);
      SegmentAt(c - 1);
      ChainStep(15 * (c - 1), 15, Checkpoint(c - 1), Checkpoint(c));
    }
  }

  /** 3 has multiplicative order 255: 3^255 = 1 and 3^m != 1 for 0 < m < 255. */
  lemma OrderOfThree()
    ensures Exp(255) == 1
    ensures forall m :: 1 <= m < 255 ==> Exp(m) != 1
  {
    LastSegment(16);
  }

  /** The last segment closes the cycle. The segment number is a parameter so
      that the solver does not evaluate the powers involved on its own. */
  lemma LastSegment(c: nat)
    requires c == 16
    ensures Exp(15 * c + 15) == 1
    ensures forall m :: 1 <= m < 15 * c + 15 ==> Exp(m) != 1
  {
    Prefix(c);
    SegmentAt(c);
    Scale3Compose(15 * c, 15, 1);
    AvoidsOneCompose(15 * c, 14, 1);
    forall m | 1 <= m < 15 * c + 15
      ensures Exp(m) != 1
    {
      AvoidsOneAt(15 * c + 14, 1, m);
    }
  }

  /** Multiplying by a power of 3 is one-to-one. */
  lemma {:induction false} Scale3Injective(k: nat, y: bv8, z: bv8)
    ensures Scale3(k, y) == Scale3(k, z) ==> y == z
    decreases k
  {
    if k != 0 {
      Times3Injective(Scale3(k - 1, y), Scale3(k - 1, z));
      Scale3Injective(k - 1, y, z);
    }
  }

  lemma {:induction false} Scale3Zero(k: nat)
    ensures Scale3(k, 0) == 0
    decreases k
  {
    if k != 0 {
      Scale3Zero(k - 1);
      XTimeZero();
      AddZero(0);
    }
  }

  /** No power of 3 is zero. */
  lemma ExpNonZero(k: nat)
    ensures Exp(k) != 0
  {
    Scale3Zero(k);
    Scale3Injective(k, 1, 0);
  }

  lemma ExpProduct(i: nat, j: nat)
    ensures Exp(i + j) == Scale3(i, Exp(j))
  {
    Scale3Compose(j, i, 1);
  }

  /** 3^0 .. 3^254 are pairwise distinct. */
  lemma ExpDistinct(i: nat, j: nat)
    requires i < j < 255
    ensures Exp(i) != Exp(j)
  {
    OrderOfThree();
    ExpProduct(i, j - i);
    Scale3Injective(i, 1, Exp(j - i));
  }

  /** The numeric values of 3^0 .. 3^(n-1). */
  ghost function Powers(n: nat): set<int> {
    set k | 0 <= k < n :: Exp(k) as int
  }

  /** The integers lo .. hi - 1. */
  ghost function Range(lo: int, hi: int): set<int>
    decreases hi - lo
  {
    if lo >= hi then {} else Range(lo, hi - 1) + {hi - 1}
  }

  lemma {:induction false} RangeSize(lo: int, hi: int)
    requires lo <= hi
    ensures |Range(lo, hi)| == hi - lo
    ensures forall x :: x in Range(lo, hi) <==> lo <= x < hi
    decreases hi - lo
  {
    if lo < hi {
      RangeSize(lo, hi - 1);
    }
  }

  lemma {:induction false} PowersSize(n: nat)
    requires n <= 255
    ensures |Powers(n)| == n
    decreases n
  {
    if n != 0 {
      PowersSize(n - 1);
      assert Powers(n) == Powers(n - 1) + {Exp(n - 1) as int};
      if Exp(n - 1) as int in Powers(n - 1) {
        var k :| 0 <= k < n - 1 && Exp(k) as int == Exp(n - 1) as int;
        AsInt(Exp(k), Exp(n - 1));
        ExpDistinct(k, n - 1);
      }
    }
  }

  /** A subset as large as its superset is all of it. */
  lemma SubsetOfSameSize(a: set<int>, b: set<int>)
    requires a <= b && |a| == |b|
    ensures a == b
  {
    assert a + (b - a) == b;
    assert b - a == {};
  }

  /** Every nonzero byte is a power of 3: 3 generates the multiplicative group. */
  lemma ExpSurjective(a: bv8)
    requires a != 0
    ensures exists k :: 0 <= k < 255 && Exp(k) == a
  {
    RangeSize(1, 256);
    forall x | x in Powers(255)
      ensures x in Range(1, 256)
    {
      var k :| 0 <= k < 255 && Exp(k) as int == x;
      ExpNonZero(k);
      AsInt(Exp(k), 0);
    }
    PowersSize(255);
    SubsetOfSameSize(Powers(255), Range(1, 256));
    AsInt(a, 0);
    assert a as int in Powers(255);
    var k :| 0 <= k < 255 && Exp(k) as int == a as int;
    AsInt(Exp(k), a);
  }
}
