/** The field GF(2^8) with the AES reduction polynomial 0x11b.

    Mul is the shift-and-XOR ("Russian peasant") product: it walks the bits of
    the multiplier from the top, doubling the partial product with XTime and
    adding the multiplicand for each set bit. The lemmas show that Mul makes
    the bytes a commutative ring with XOR as addition, and, through the orbit
    of 3, a field: every nonzero byte has an inverse and there are no zero
    divisors. Div is multiplication by the inverse. */
module GF256 {
  import opened GFBits
  import opened GFOrbit

  /** The product a * b in GF(2^8). */
  function Mul(a: bv8, b: bv8): (r: bv8)
    ensures a == 0 || b == 0 ==> r == 0
    ensures b == 1 ==> r == a
    decreases b as int
  {
    if b == 0 then 0
    else
      HalfSmaller(b);
      Add(XTime(Mul(a, Half(b))), if Odd(b) then a else 0)
  }

  /** Worked example of section 4.2 of FIPS-197: {57} * {83} = {c1}. */
  lemma MulExample()
    ensures Mul(0x57, 0x83) == 0xc1
  {}

  lemma {:induction false} MulZeroLeft(b: bv8)
    ensures Mul(0, b) == 0
    decreases b as int
  {
    if b != 0 {
      HalfSmaller(b);
      MulZeroLeft(Half(b));
      XTimeZero();
      AddZero(0);
    }
  }

  lemma MulOneRight(a: bv8)
    ensures Mul(a, 1) == a
  {
    assert Half(1) == 0 && Odd(1);
    XTimeZero();
    AddZero(a);
  }

  lemma {:induction false} MulOneLeft(b: bv8)
    ensures Mul(1, b) == b
    decreases b as int
  {
    if b != 0 {
      HalfSmaller(b);
      MulOneLeft(Half(b));
      SplitByte(b);
    }
  }

  /** Mul distributes over XOR in its left argument. */
  lemma {:induction false} MulAddLeft(a: bv8, c: bv8, b: bv8)
    ensures Mul(Add(a, c), b) == Add(Mul(a, b), Mul(c, b))
    decreases b as int
  {
    if b == 0 {
      AddZero(0);
    } else {
      HalfSmaller(b);
      MulAddLeft(a, c, Half(b));
      var p, q := Mul(a, Half(b)), Mul(c, Half(b));
      XTimeAdd(p, q);
      if Odd(b) {
        Swap4(XTime(p), XTime(q), a, c);
      } else {
        AddZero(XTime(p));
        AddZero(XTime(q));
        AddZero(Add(XTime(p), XTime(q)));
      }
    }
  }

  lemma {:induction false} MulXTimeLeft(a: bv8, b: bv8)
    ensures Mul(XTime(a), b) == XTime(Mul(a, b))
    decreases b as int
  {
    if b == 0 {
      XTimeZero();
    } else {
      HalfSmaller(b);
      MulXTimeLeft(a, Half(b));
      var p := Mul(a, Half(b));
      XTimeAdd(XTime(p), if Odd(b) then a else 0);
      XTimeZero();
    }
  }

  /** Multiplying by a single bit selects. */
  lemma MulBit(bit: bv8, a: bv8)
    requires bit == 0 || bit == 1
    ensures Mul(bit, a) == if bit == 1 then a else 0
  {
    MulZeroLeft(a);
    MulOneLeft(a);
  }

  lemma {:induction false} MulComm(a: bv8, b: bv8)
    ensures Mul(a, b) == Mul(b, a)
    decreases b as int
  {
    if b == 0 {
      MulZeroLeft(a);
    } else {
      HalfSmaller(b);
      var h, bit := Half(b), if Odd(b) then 1 else 0;
      MulComm(a, h);
      SplitByte(b);
      MulAddLeft(XTime(h), bit, a);
      MulXTimeLeft(h, a);
      MulBit(bit, a);
    }
  }

  /** Mul distributes over XOR in its right argument. */
  lemma MulAddRight(a: bv8, b: bv8, c: bv8)
    ensures Mul(a, Add(b, c)) == Add(Mul(a, b), Mul(a, c))
  {
    MulComm(a, Add(b, c));
    MulAddLeft(b, c, a);
    MulComm(b, a);
    MulComm(c, a);
  }

  lemma {:induction false} MulAssoc(a: bv8, b: bv8, c: bv8)
    ensures Mul(Mul(a, b), c) == Mul(a, Mul(b, c))
    decreases a as int
  {
    if a == 0 {
      MulZeroLeft(b);
      MulZeroLeft(c);
      MulZeroLeft(Mul(b, c));
    } else {
      HalfSmaller(a);
      var h, bit := Half(a), if Odd(a) then 1 else 0;
      MulAssoc(h, b, c);
      SplitByte(a);
      // (h x + bit) b = x (h b) + bit b
      MulAddLeft(XTime(h), bit, b);
      MulXTimeLeft(h, b);
      MulBit(bit, b);
      // ((h b) x + bit b) c = x ((h b) c) + (bit b) c
      MulAddLeft(XTime(Mul(h, b)), Mul(bit, b), c);
      MulXTimeLeft(Mul(h, b), c);
      // (h x + bit) (b c) = x (h (b c)) + bit (b c)
      MulAddLeft(XTime(h), bit, Mul(b, c));
      MulXTimeLeft(h, Mul(b, c));
      MulBit(bit, Mul(b, c));
      MulZeroLeft(c);
    }
  }

  lemma MulTimes3Left(x: bv8, y: bv8)
    ensures Mul(Times3(x), y) == Times3(Mul(x, y))
  {
    MulAddLeft(XTime(x), x, y);
    MulXTimeLeft(x, y);
  }

  lemma {:induction false} MulScale3(k: nat, x: bv8, y: bv8)
    ensures Mul(Scale3(k, x), y) == Scale3(k, Mul(x, y))
    decreases k
  {
    if k != 0 {
      MulScale3(k - 1, x, y);
      MulTimes3Left(Scale3(k - 1, x), y);
    }
  }

  /** 3^i * 3^j = 3^(i + j). */
  lemma MulExp(i: nat, j: nat)
    ensures Mul(Exp(i), Exp(j)) == Exp(i + j)
  {
    MulScale3(i, 1, Exp(j));
    MulOneLeft(Exp(j));
    ExpProduct(i, j);
  }

  /** Every nonzero byte has a multiplicative inverse. */
  lemma InverseExists(a: bv8)
    requires a != 0
    ensures exists b :: Mul(a, b) == 1
  {
    ExpSurjective(a);
    var k :| 0 <= k < 255 && Exp(k) == a;
    MulExp(k, 255 - k);
    OrderOfThree();
  }

  /** A product is zero exactly when a factor is zero. */
  lemma NoZeroDivisors(a: bv8, b: bv8)
    ensures Mul(a, b) == 0 <==> a == 0 || b == 0
  {
    MulZeroLeft(b);
    if a != 0 && b != 0 {
      ExpSurjective(a);
      ExpSurjective(b);
      var i :| 0 <= i < 255 && Exp(i) == a;
      var j :| 0 <= j < 255 && Exp(j) == b;
      MulExp(i, j);
      ExpNonZero(i + j);
    }
  }

  /** Searches c, c - 1, .., 0 for an inverse of a; 0 when there is none. */
  function FindInverse(a: bv8, c: bv8): (r: bv8)
    ensures (exists b :: b as int <= c as int && Mul(a, b) == 1) ==> Mul(a, r) == 1
    decreases c as int
  {
    if Mul(a, c) == 1 then c
    else if c == 0 then 0
    else
      Predecessor(c);
      var r := FindInverse(a, c - 1);
      assert (exists b :: b as int <= c as int && Mul(a, b) == 1) ==>
             (exists b :: b as int <= (c - 1) as int && Mul(a, b) == 1) by {
        if b :| b as int <= c as int && Mul(a, b) == 1 {
          AsInt(b, c);
        }
      }
      r
  }

  lemma InverseInRange(a: bv8)
    requires a != 0
    ensures exists b :: b as int <= 0xff as int && Mul(a, b) == 1
  {
    InverseExists(a);
    var b :| Mul(a, b) == 1;
    AsInt(b, 0xff);
  }

  /** The multiplicative inverse of a nonzero byte (0 for 0). The search
      starts at a | 0xff, which is 0xff, written so that the verifier does not
      evaluate the whole search whenever Inverse is unfolded. */
  function Inverse(a: bv8): (r: bv8)
    ensures a != 0 ==> Mul(a, r) == 1
  {
    if a == 0 then 0
    else
      InverseInRange(a);
      assert a | 0xff == 0xff;
      FindInverse(a, a | 0xff)
  }

  /** a / b: the unique c with c * b = a. */
  function Div(a: bv8, b: bv8): (r: bv8)
    requires b != 0
    ensures Mul(r, b) == a
  {
    var r := Mul(a, Inverse(b));
    MulAssoc(a, Inverse(b), b);
    MulComm(Inverse(b), b);
    MulOneRight(a);
    r
  }

  /** Division has exactly one answer. */
  lemma DivUnique(a: bv8, b: bv8, c: bv8)
    requires b != 0
    ensures Mul(c, b) == a <==> c == Div(a, b)
  {
    if Mul(c, b) == a {
      var d := Div(a, b);
      MulAddLeft(c, d, b);
      AddSelf(a);
      NoZeroDivisors(Add(c, d), b);
      AddZeroMeansEqual(c, d);
    }
  }
}
