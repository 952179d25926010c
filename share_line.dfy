/** One input line of shamir-combine, `K=W=S=HEX=`: quorum K, field width W in
    bits, share index S and the share data in hex, each field followed by '='.
    ParseLine runs the checks that parse_shares makes on a line by itself, in
    the order it makes them; the checks that compare a line with the first
    line belong to the session (module Session). */
module ShareLine {
  import opened Outcomes
  import opened GFBits
  import opened Text
  import opened Panics

  /** The fields of a line that passed its own checks. hexLength counts the
      hex text in UTF-8 bytes, as `str::len` does. */
  datatype Fields = Fields(quorum: nat, width: nat, index: nat, hexLength: nat, data: seq<bv8>)

  /** The five segments of a line: the text around its '=' signs. */
  function Segments(line: string): seq<string> {
    Split(Trim(line))
  }

  /** Everything parse_shares requires of a line's segments on their own. */
  predicate WellFormedFields(v: seq<string>) {
    |v| == 5 &&
    ParseUnsigned(v[0], U16Max).Some? &&
    ParseUnsigned(v[1], U16Max).Some? &&
    ParseUnsigned(v[2], U64Max).Some? &&
    v[4] == [] &&
    var w := ParseUnsigned(v[1], U16Max).value;
    var hlen := Utf8Length(v[3]);
    w != 0 && (hlen * 4) % w == 0 &&
    (w == 4 ==> hlen % 2 == 0) &&
    HexDecode(v[3]).Some?
  }

  /** The checks of src/bin/shamir-combine.rs:125-152 on the segments of a
      line, with the panic each failing check raises. */
  function ParseFields(v: seq<string>): (r: Result<Fields, Panic>)
    ensures r.Ok? <==> WellFormedFields(v)
    ensures r.Ok? ==>
      r.value.quorum <= U16Max && r.value.width <= U16Max && r.value.index <= U64Max &&
      |v| == 5 && v[4] == [] &&
      ParseUnsigned(v[0], U16Max) == Some(r.value.quorum) &&
      ParseUnsigned(v[1], U16Max) == Some(r.value.width) &&
      ParseUnsigned(v[2], U64Max) == Some(r.value.index) &&
      r.value.hexLength == Utf8Length(v[3]) == |v[3]| &&
      HexDecode(v[3]) == Some(r.value.data) &&
      r.value.width != 0 && (r.value.hexLength * 4) % r.value.width == 0 &&
      |r.value.data| * 2 == r.value.hexLength
    ensures r.Err? ==> r.error in {WrongFieldCount, BadNumber, TrailingData, ZeroWidth,
                                   NotMultipleOfWidth, MissingPadding, InvalidHex}
  {
    if |v| != 5 then Err(WrongFieldCount)
    else
      var k := ParseUnsigned(v[0], U16Max);
      var w := ParseUnsigned(v[1], U16Max);
      var s := ParseUnsigned(v[2], U64Max);
      if k.None? || w.None? || s.None? then Err(BadNumber)
      else
        var hlen := Utf8Length(v[3]);
        if v[4] != [] then Err(TrailingData)
        else if w.value == 0 then Err(ZeroWidth)
        else if (hlen * 4) % w.value != 0 then Err(NotMultipleOfWidth)
        else if w.value == 4 && hlen % 2 != 0 then Err(MissingPadding)
        else
          var bytes := HexDecode(v[3]);
          if bytes.None? then Err(InvalidHex)
          else
            assert Utf8Length(v[3]) == |v[3]| by {
              assert forall i :: 0 <= i < |v[3]| ==> IsHexDigit(v[3][i]);
            }
            Ok(Fields(k.value, w.value, s.value, hlen, bytes.value))
  }

  /** A line of src/bin/shamir-combine.rs:120-152: trimmed, split at '=' and
      checked field by field. It passes exactly when its segments are well
      formed, and there are then five of them. */
  function ParseLine(line: string): (r: Result<Fields, Panic>)
    ensures r.Ok? <==> WellFormedFields(Segments(line))
    ensures r.Ok? ==> |Segments(line)| == 5 && r.value.width != 0
    ensures r.Err? ==> r.error in {WrongFieldCount, BadNumber, TrailingData, ZeroWidth,
                                   NotMultipleOfWidth, MissingPadding, InvalidHex}
  {
    ParseFields(Segments(line))
  }

  /** The line a share generator writes: K, W and S in decimal and the data
      in lower-case hex, each followed by '='. */
  function FormatLine(k: nat, w: nat, s: nat, data: seq<bv8>): string {
    Join([Decimal(k), Decimal(w), Decimal(s), HexEncode(data), ""])
  }

  lemma NoSeparator(t: string)
    requires AllDigits(t) || AllHex(t)
    ensures '=' !in t
  {
    forall i | 0 <= i < |t|
      ensures t[i] != '='
    {
    }
  }

  /** Splitting a trimmed join of five separator-free segments, the first
      starting with a non-space and the last empty, gives the segments back. */
  lemma SegmentsOfJoin(segs: seq<string>)
    requires |segs| == 5 && segs[0] != [] && segs[4] == []
    requires forall i :: 0 <= i < |segs| ==> '=' !in segs[i]
    requires !IsWhitespace(segs[0][0])
    ensures Segments(Join(segs)) == segs
  {
    JoinEnds(segs);
    TrimNoop(Join(segs));
    SplitJoin(segs);
  }

  /** The segments of a generated line are the fields it was built from. */
  lemma FormatLineSegments(k: nat, w: nat, s: nat, data: seq<bv8>)
    ensures Segments(FormatLine(k, w, s, data)) == [Decimal(k), Decimal(w), Decimal(s), HexEncode(data), ""]
  {
    var segs := [Decimal(k), Decimal(w), Decimal(s), HexEncode(data), ""];
    NoSeparator(Decimal(k));
    NoSeparator(Decimal(w));
    NoSeparator(Decimal(s));
    NoSeparator(HexEncode(data));
    SegmentsOfJoin(segs);
  }

  /** The fields parse back to the numbers and bytes they were written from. */
  lemma ParseFormattedFields(k: nat, w: nat, s: nat, data: seq<bv8>)
    requires k <= U16Max && w <= U16Max && s <= U64Max
    requires w != 0 && (8 * |data|) % w == 0
    ensures ParseFields([Decimal(k), Decimal(w), Decimal(s), HexEncode(data), ""]) ==
            Ok(Fields(k, w, s, 2 * |data|, data))
  {
    var v := [Decimal(k), Decimal(w), Decimal(s), HexEncode(data), ""];
    ParseDecimal(k, U16Max);
    ParseDecimal(w, U16Max);
    ParseDecimal(s, U64Max);
    HexRoundTrip(data);
    var hex := v[3];
    assert forall i :: 0 <= i < |hex| ==> IsHexDigit(hex[i]);
    assert Utf8Length(hex) == |hex| == 2 * |data|;
    assert |hex| * 4 == 8 * |data|;
  }

  /** Parsing reads back the fields a generator wrote, provided they pass the
      checks: K and W fit in 16 bits, S in 64, W is not zero, W divides the
      number of data bits, and the data is whole bytes (so the W = 4 padding
      rule holds). */
  lemma ParseFormatLine(k: nat, w: nat, s: nat, data: seq<bv8>)
    requires k <= U16Max && w <= U16Max && s <= U64Max
    requires w != 0 && (8 * |data|) % w == 0
    ensures ParseLine(FormatLine(k, w, s, data)) == Ok(Fields(k, w, s, 2 * |data|, data))
  {
    FormatLineSegments(k, w, s, data);
    ParseFormattedFields(k, w, s, data);
  }
}
