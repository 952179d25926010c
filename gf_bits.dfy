/** Bit-level operations on GF(2^8) elements, stored as bytes.

    An element is a polynomial over GF(2) of degree below 8, one coefficient per bit.
    Addition is bitwise XOR. XTime multiplies by the polynomial x and reduces modulo
    the AES polynomial x^8 + x^4 + x^3 + x + 1 (0x11b): shifting out bit 7 folds
    0x1b back into the low bits.

    Every fact in this module is decided by the solver on 8- or 16-bit values. The
    modules above it use only these functions and lemmas, never raw bit operators,
    so that their proofs stay algebraic. */
module GFBits {

  /** Field addition (and subtraction): bitwise XOR. */
  function Add(a: bv8, b: bv8): bv8 { a ^ b }

  /** Multiplication by x, reduced modulo 0x11b. */
  function XTime(a: bv8): bv8 {
    if a & 0x80 == 0 then a << 1 else (a << 1) ^ 0x1b
  }

  /** The multiplier shifted right by one bit (its next bit moves to the bottom). */
  function Half(b: bv8): bv8 { b >> 1 }

  /** Whether the lowest bit of the multiplier is set. */
  predicate Odd(b: bv8) { b & 1 == 1 }

  /** Multiplication by the generator 3 (= x + 1). */
  function Times3(a: bv8): bv8 { Add(XTime(a), a) }

  lemma AddComm(a: bv8, b: bv8)
    ensures Add(a, b) == Add(b, a)
  {}

  lemma AddAssoc(a: bv8, b: bv8, c: bv8)
    ensures Add(Add(a, b), c) == Add(a, Add(b, c))
  {}

  lemma AddZero(a: bv8)
    ensures Add(a, 0) == a && Add(0, a) == a
  {}

  /** Every element is its own additive inverse. */
  lemma AddSelf(a: bv8)
    ensures Add(a, a) == 0
  {}

  lemma AddZeroMeansEqual(a: bv8, b: bv8)
    ensures Add(a, b) == 0 <==> a == b
  {}

  lemma Swap4(p: bv8, q: bv8, r: bv8, s: bv8)
    ensures Add(Add(p, q), Add(r, s)) == Add(Add(p, r), Add(q, s))
  {
    AddAssoc(p, q, Add(r, s));
    AddAssoc(q, r, s);
    AddComm(q, r);
    AddAssoc(r, q, s);
    AddAssoc(p, r, Add(q, s));
  }

  /** XTime is linear over XOR. */
  lemma XTimeAdd(a: bv8, c: bv8)
    ensures XTime(Add(a, c)) == Add(XTime(a), XTime(c))
  {
    ShiftAdd(a, c);
    if a & 0x80 == 0 && c & 0x80 == 0 {
    } else if a & 0x80 == 0 || c & 0x80 == 0 {
      AddAssoc(a << 1, c << 1, 0x1b);
    } else {
      Swap4(a << 1, 0x1b, c << 1, 0x1b);
      AddSelf(0x1b);
      AddZero(Add(a << 1, c << 1));
    }
  }

  lemma ShiftAdd(a: bv8, c: bv8)
    ensures Add(a, c) << 1 == Add(a << 1, c << 1)
    ensures Add(a, c) & 0x80 == 0 <==> (a & 0x80 == 0) == (c & 0x80 == 0)
  {}

  lemma XTimeZero()
    ensures XTime(0) == 0
  {}

  /** Halving a nonzero multiplier makes it smaller, so recursion on it ends. */
  lemma HalfSmaller(b: bv8)
    requires b != 0
    ensures Half(b) as int < b as int
  {}

  /** A byte is its upper seven bits times x, plus its lowest bit. */
  lemma SplitByte(b: bv8)
    ensures b == Add(XTime(Half(b)), if Odd(b) then 1 else 0)
  {}

  /** Multiplying by 3 is one-to-one. */
  lemma Times3Injective(a: bv8, c: bv8)
    ensures Times3(a) == Times3(c) ==> a == c
  {}

  /** Distinct bytes have distinct numeric values, all below 256. */
  lemma AsInt(a: bv8, b: bv8)
    ensures 0 <= a as int < 256
    ensures a as int == b as int ==> a == b
    ensures a as int == 0 <==> a == 0
  {}

  /** Stepping a nonzero byte down by one lowers its value by one. */
  lemma Predecessor(c: bv8)
    requires c != 0
    ensures (c - 1) as int == c as int - 1
  {}

  /** Counting up by one raises the value by one. */
  lemma Successor(b: bv8)
    requires b as int < 255
    ensures (b + 1) as int == b as int + 1
  {}

  /** The byte with numeric value n, counted up from 0. */
  function ByteOf(n: nat): (b: bv8)
    requires n < 256
    ensures b as int == n
  {
    if n == 0 then 0
    else
      var p := ByteOf(n - 1);
      Successor(p);
      p + 1
  }

  /** The byte with high nibble hi and low nibble lo. */
  function Pack(hi: bv8, lo: bv8): bv8 {
    (hi << 4) | lo
  }

  function High(b: bv8): bv8 { b >> 4 }

  function Low(b: bv8): bv8 { b & 0x0f }

  lemma PackParts(b: bv8)
    ensures Pack(High(b), Low(b)) == b
    ensures High(b) < 16 && Low(b) < 16
  {}

  lemma NibbleValue(b: bv8)
    ensures b < 16 <==> b as int < 16
  {}
}
