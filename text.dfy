/** The string operations of the Rust standard library and of the `hex` crate
    that the share parser relies on: `str::trim`, `str::split` on a one-character
    pattern, `u16`/`u64` parsing, `str::len` (a length in UTF-8 bytes) and
    `hex::decode`. Strings are sequences of Unicode scalar values. */
module Text {
  import opened Outcomes
  import opened GFBits

  /** The Unicode White_Space property, which `char::is_whitespace` tests. */
  predicate IsWhitespace(c: char) {
    var u := c as int;
    (0x09 <= u <= 0x0d) || u == 0x20 || u == 0x85 || u == 0xa0 || u == 0x1680 ||
    (0x2000 <= u <= 0x200a) || u == 0x2028 || u == 0x2029 || u == 0x202f ||
    u == 0x205f || u == 0x3000
  }

  /** The end of the run of white space in s that starts at i. */
  function LeadingEnd(s: string, i: nat): (r: nat)
    requires i <= |s|
    ensures i <= r <= |s|
    ensures forall j :: i <= j < r ==> IsWhitespace(s[j])
    ensures r == |s| || !IsWhitespace(s[r])
    decreases |s| - i
  {
    if i < |s| && IsWhitespace(s[i]) then LeadingEnd(s, i + 1) else i
  }

  /** The start of the run of white space in s that ends at n. */
  function TrailingStart(s: string, n: nat): (r: nat)
    requires n <= |s|
    ensures r <= n
    ensures forall j :: r <= j < n ==> IsWhitespace(s[j])
    ensures r == 0 || !IsWhitespace(s[r - 1])
  {
    if n > 0 && IsWhitespace(s[n - 1]) then TrailingStart(s, n - 1) else n
  }

  /** `str::trim`: s with white space removed from both ends, the slice
      between the leading and the trailing run of white space (empty when s
      is all white space). */
  function Trim(s: string): (r: string)
    ensures r == [] || (!IsWhitespace(r[0]) && !IsWhitespace(r[|r| - 1]))
  {
    var a, b := LeadingEnd(s, 0), TrailingStart(s, |s|);
    if b <= a then [] else s[a..b]
  }

  /** What trim leaves is the slice of s that starts where the leading
      white space ends, with only white space before it and after it. */
  lemma TrimIsSlice(s: string)
    ensures var r, i := Trim(s), LeadingEnd(s, 0);
      i + |r| <= |s| && r == s[i..i + |r|] &&
      (forall j :: 0 <= j < i ==> IsWhitespace(s[j])) &&
      (forall j :: i + |r| <= j < |s| ==> IsWhitespace(s[j]))
  {
    var a, b := LeadingEnd(s, 0), TrailingStart(s, |s|);
    assert b <= a ==> a == |s|;
  }

  /** Trimming twice is trimming once. */
  lemma TrimIdempotent(s: string)
    ensures Trim(Trim(s)) == Trim(s)
  {
    var r := Trim(s);
    if r != [] {
      TrimNoop(r);
    }
  }

  /** A string with no white space at either end is its own trim. */
  lemma TrimNoop(s: string)
    requires s != [] && !IsWhitespace(s[0]) && !IsWhitespace(s[|s| - 1])
    ensures Trim(s) == s
  {
    assert LeadingEnd(s, 0) == 0;
    assert TrailingStart(s, |s|) == |s|;
  }

  function Count(s: string, c: char): nat {
    if s == [] then 0 else (if s[0] == c then 1 else 0) + Count(s[1..], c)
  }

  /** The segments joined back together with '=' between them. */
  function Join(segs: seq<string>): string
    requires |segs| >= 1
  {
    if |segs| == 1 then segs[0] else segs[0] + "=" + Join(segs[1..])
  }

  /** A join whose first segment is not empty starts with that segment's
      first character, and one whose last segment is empty ends with '='. */
  lemma {:induction false} JoinEnds(segs: seq<string>)
    requires |segs| >= 2 && segs[0] != [] && segs[|segs| - 1] == []
    ensures Join(segs) != [] && Join(segs)[0] == segs[0][0]
    ensures Join(segs)[|Join(segs)| - 1] == '='
  {
    JoinEndsWithSeparator(segs);
  }

  lemma {:induction false} JoinEndsWithSeparator(segs: seq<string>)
    requires |segs| >= 2 && segs[|segs| - 1] == []
    ensures Join(segs) != [] && Join(segs)[|Join(segs)| - 1] == '='
    decreases |segs|
  {
    if |segs| > 2 {
      JoinEndsWithSeparator(segs[1..]);
    }
  }

  /** `s.split("=")`: the pieces between the '=' signs, empty ones included. */
  function Split(s: string): (r: seq<string>)
    ensures |r| == Count(s, '=') + 1
    ensures forall i :: 0 <= i < |r| ==> '=' !in r[i]
    ensures Join(r) == s
  {
    if s == [] then [[]]
    else
      var rest := Split(s[1..]);
      if s[0] == '=' then
        assert [[]] + rest == [[]] + rest[0..];
        [[]] + rest
      else
        var r := [[s[0]] + rest[0]] + rest[1..];
        assert Join(r) == s by {
          if |rest| == 1 {
            assert r == [[s[0]] + rest[0]];
          } else {
            assert r[1..] == rest[1..];
          }
        }
        r
  }

  /** Splitting undoes joining when no segment holds the separator. */
  lemma {:induction false} SplitJoin(segs: seq<string>)
    requires |segs| >= 1
    requires forall i :: 0 <= i < |segs| ==> '=' !in segs[i]
    ensures Split(Join(segs)) == segs
    decreases |segs|, |segs[0]|
  {
    if segs[0] == [] {
      if |segs| > 1 {
        assert Join(segs) == "=" + Join(segs[1..]);
        SplitJoin(segs[1..]);
        assert Join(segs)[1..] == Join(segs[1..]);
      }
    } else {
      var tail := [segs[0][1..]] + segs[1..];
      assert '=' !in segs[0][1..];
      assert forall i :: 0 <= i < |tail| ==> '=' !in tail[i] by {
        forall i | 0 <= i < |tail|
          ensures '=' !in tail[i]
        {
          if i > 0 {
            assert tail[i] == segs[i];
          }
        }
      }
      SplitJoin(tail);
      assert Join(segs) == [segs[0][0]] + Join(tail) by {
        if |segs| == 1 {
          assert segs[0] == [segs[0][0]] + segs[0][1..];
        } else {
          assert tail[1..] == segs[1..];
          assert segs[0] == [segs[0][0]] + segs[0][1..];
        }
      }
      assert Join(segs)[1..] == Join(tail);
      assert segs[0][0] != '=' by {
        assert segs[0][0] == segs[0][..][0];
      }
      assert [segs[0][0]] + tail[0] == segs[0];
      assert segs == [segs[0]] + segs[1..];
      assert segs == [[segs[0][0]] + tail[0]] + tail[1..];
    }
  }

  predicate IsDigit(c: char) {
    '0' <= c <= '9'
  }

  predicate AllDigits(s: string) {
    forall i :: 0 <= i < |s| ==> IsDigit(s[i])
  }

  /** The number a string of decimal digits denotes. */
  function DigitsValue(ds: string): nat
    requires AllDigits(ds)
  {
    if ds == [] then 0
    else DigitsValue(ds[..|ds| - 1]) * 10 + (ds[|ds| - 1] as int - '0' as int)
  }

  /** What `str::parse` accepts for an unsigned integer type: an optional '+'
      followed by one or more ASCII digits. */
  predicate UnsignedSyntax(s: string) {
    var ds := if s != [] && s[0] == '+' then s[1..] else s;
    ds != [] && AllDigits(ds)
  }

  function UnsignedValue(s: string): nat
    requires UnsignedSyntax(s)
  {
    DigitsValue(if s[0] == '+' then s[1..] else s)
  }

  /** `str::parse::<uN>()` for the unsigned type whose largest value is max:
      None when the text is empty, is a bare sign, holds a character that is
      not a digit (a '-' included) or denotes a number above max. */
  function ParseUnsigned(s: string, max: nat): (r: Option<nat>)
    ensures r.Some? <==> UnsignedSyntax(s) && UnsignedValue(s) <= max
    ensures r.Some? ==> r.value == UnsignedValue(s) && r.value <= max
  {
    if s == [] then None
    else
      var ds := if s[0] == '+' then s[1..] else s;
      if ds == [] || !AllDigits(ds) then None
      else if DigitsValue(ds) > max then None
      else Some(DigitsValue(ds))
  }

  const U16Max: nat := 0xffff
  const U64Max: nat := 0xffff_ffff_ffff_ffff

  /** The shortest decimal spelling of n. */
  function Decimal(n: nat): (r: string)
    ensures r != [] && AllDigits(r)
    decreases n
  {
    var d := [('0' as int + n % 10) as char];
    if n < 10 then d else Decimal(n / 10) + d
  }

  lemma {:induction false} DecimalValue(n: nat)
    ensures DigitsValue(Decimal(n)) == n
    decreases n
  {
    if n >= 10 {
      DecimalValue(n / 10);
      assert Decimal(n)[..|Decimal(n)| - 1] == Decimal(n / 10);
    }
  }

  /** Parsing reads back the number that Decimal wrote. */
  lemma ParseDecimal(n: nat, max: nat)
    requires n <= max
    ensures ParseUnsigned(Decimal(n), max) == Some(n)
  {
    DecimalValue(n);
  }

  /** The number of bytes the UTF-8 encoding of c takes. */
  function Utf8Width(c: char): nat {
    if c as int < 0x80 then 1
    else if c as int < 0x800 then 2
    else if c as int < 0x1_0000 then 3
    else 4
  }

  /** `str::len`: the length of s in UTF-8 bytes. */
  function Utf8Length(s: string): (n: nat)
    ensures |s| <= n <= 4 * |s|
    ensures n == |s| <==> forall i :: 0 <= i < |s| ==> s[i] as int < 0x80
  {
    if s == [] then 0
    else
      var n := Utf8Width(s[0]) + Utf8Length(s[1..]);
      assert (forall i :: 0 <= i < |s| ==> s[i] as int < 0x80) <==>
             s[0] as int < 0x80 && (forall i :: 0 <= i < |s[1..]| ==> s[1..][i] as int < 0x80) by {
        if forall i :: 0 <= i < |s[1..]| ==> s[1..][i] as int < 0x80 {
          forall i | 1 <= i < |s|
            ensures s[i] as int < 0x80
          {
            assert s[i] == s[1..][i - 1];
          }
        }
      }
      n
  }

  predicate IsHexDigit(c: char) {
    ('0' <= c <= '9') || ('a' <= c <= 'f') || ('A' <= c <= 'F')
  }

  /** The value of a hex digit, as a nibble. */
  function HexValue(c: char): (v: bv8)
    requires IsHexDigit(c)
    ensures v < 16
  {
    var n := if '0' <= c <= '9' then c as int - '0' as int
             else if 'a' <= c <= 'f' then c as int - 'a' as int + 10
             else c as int - 'A' as int + 10;
    NibbleValue(ByteOf(n));
    ByteOf(n)
  }

  predicate AllHex(s: string) {
    forall i :: 0 <= i < |s| ==> IsHexDigit(s[i])
  }

  /** `hex::decode`: every two hex digits (either case) become one byte, the
      first digit giving the high nibble. It fails on an odd number of bytes
      or on a byte that is not a hex digit; a character outside ASCII is never
      a hex digit, and an even number of hex digits is an even number of
      bytes, so both failures amount to "not an even run of hex digits". */
  function HexDecode(s: string): (r: Option<seq<bv8>>)
    ensures r.Some? <==> |s| % 2 == 0 && AllHex(s)
    ensures r.Some? ==> |r.value| == |s| / 2
    ensures r.Some? ==> forall i :: 0 <= i < |r.value| ==>
      r.value[i] == Pack(HexValue(s[2 * i]), HexValue(s[2 * i + 1]))
  {
    if |s| % 2 != 0 || !AllHex(s) then None
    else Some(seq(|s| / 2, i requires 0 <= i < |s| / 2 =>
                Pack(HexValue(s[2 * i]), HexValue(s[2 * i + 1]))))
  }

  /** The lower-case hex digit for a nibble. */
  function HexDigit(v: bv8): (c: char)
    requires v < 16
    ensures IsHexDigit(c) && HexValue(c) == v
  {
    NibbleValue(v);
    var n := v as int;
    var c := if n < 10 then ('0' as int + n) as char else ('a' as int + n - 10) as char;
    AsInt(HexValue(c), v);
    c
  }

  /** `hex::encode`: two lower-case hex digits per byte, high nibble first. */
  function HexEncode(bytes: seq<bv8>): (s: string)
    ensures |s| == 2 * |bytes| && AllHex(s)
    ensures forall i :: 0 <= i < |bytes| ==>
      s[2 * i] == HexDigit(High(bytes[i])) && s[2 * i + 1] == HexDigit(Low(bytes[i]))
  {
    seq(2 * |bytes|, i requires 0 <= i < 2 * |bytes| =>
      PackParts(bytes[i / 2]);
      if i % 2 == 0 then HexDigit(High(bytes[i / 2])) else HexDigit(Low(bytes[i / 2])))
  }

  /** Decoding recovers the bytes that were encoded. */
  lemma HexRoundTrip(bytes: seq<bv8>)
    ensures HexDecode(HexEncode(bytes)) == Some(bytes)
  {
    var s := HexEncode(bytes);
    assert |s| % 2 == 0;
    var r := HexDecode(s);
    forall i | 0 <= i < |bytes|
      ensures r.value[i] == bytes[i]
    {
      PackParts(bytes[i]);
      assert r.value[i] == Pack(HexValue(s[2 * i]), HexValue(s[2 * i + 1]));
    }
    assert r.value == bytes;
  }
}
