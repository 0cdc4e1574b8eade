/**
 * Label-driven lossy decoding of UTF-16 and UTF-32 (src/wide.rs). Unlike
 * `decode_utf_lossy`, a byte-order mark in the input always wins over the
 * byte order the label names; without a mark the input is big-endian only
 * when the label ends in "be" (any case).
 */
module Wide {
  import opened Wrappers
  import opened Bytes
  import opened Encoding
  import opened Bom
  import opened Unicode
  import opened Utf
  import opened DecodeLossy

  /** `try_decode_utf32_lossy`. */
  function TryDecodeUtf32Lossy(input: seq<byte>, name: string, keepBom: bool): (r: Option<string>)
    ensures r.Some? <==> MatchEncodingParts(name, 0, ["utf", "32"]).Some?
  {
    match MatchEncodingParts(name, 0, ["utf", "32"])
    case None => None
    case Some(at) =>
      var bom := GetUtf32Bom(input);
      var (le, rest, keep) :=
        if bom == Le then (true, input[4..], keepBom)
        else if bom == Be then (false, input[4..], keepBom)
        else (!RestEqIgnoreCase(name, at, "be"), input, false);
      var text := DecodeUtf32LossyInner(rest, le);
      Some(if keep then [BomChar] + text else text)
  }

  /** `try_decode_utf16_lossy`: a consumed marker is never emitted. */
  function TryDecodeUtf16Lossy(input: seq<byte>, name: string): (r: Option<string>)
    ensures r.Some? <==> MatchEncodingParts(name, 0, ["utf", "16"]).Some?
  {
    match MatchEncodingParts(name, 0, ["utf", "16"])
    case None => None
    case Some(at) =>
      var bom := GetUtf16Bom(input);
      var (le, rest) :=
        if bom == Le then (true, input[2..])
        else if bom == Be then (false, input[2..])
        else (!RestEqIgnoreCase(name, at, "be"), input);
      Some(DecodeUtf16LossyInner(rest, le))
  }

  // ---------------------------------------------------------------------
  // Properties.

  /** A label that parses as UTF-16 or UTF-32 matches the parts "utf" and its width; what is left spells the byte order. */
  lemma ParsedLabelMatches(name: string, e: UtfEncoding) returns (q: nat)
    requires Parse(name) == Some(e) && e.ty != Utf8
    ensures q <= |name| && MatchEncodingParts(name, 0, ["utf", DigitsOf(e.ty)]) == Some(q)
    ensures name[q..] in OrderSpellings(e.byteOrder)
  {
    var p := TrimEncodingPrefix(name, 0, "utf").value;
    assert ParseType(name, p) == Some(e.ty);
    q := TrimEncodingPrefix(name, p, DigitsOf(e.ty)).value;
    assert ParseOrder(name, q) == Some(e.byteOrder);
    MatchPartsCons(name, 0, "utf", [DigitsOf(e.ty)]);
    MatchPartsCons(name, p, DigitsOf(e.ty), []);
    MatchNoParts(name, q);
    assert ["utf", DigitsOf(e.ty)] == ["utf"] + [DigitsOf(e.ty)];
    assert [DigitsOf(e.ty)] == [DigitsOf(e.ty)] + [];
  }

  lemma OrderSuffixIsBe(name: string, q: nat, m: ByteOrderMark)
    requires q <= |name| && name[q..] in OrderSpellings(m)
    ensures RestEqIgnoreCase(name, q, "be") <==> m == Be
  {
    assert EqIgnoreAsciiCase("BE", "be");
    assert AsciiLower("le"[0]) != AsciiLower("be"[0]) && AsciiLower("LE"[0]) != AsciiLower("be"[0]);
    assert !EqIgnoreAsciiCase("le", "be") && !EqIgnoreAsciiCase("LE", "be") && !EqIgnoreAsciiCase("", "be");
  }

  /**
   * For every label `decode_utf_lossy` accepts as UTF-32, and whenever the
   * label leaves the order open or the input has no marker, both decoders
   * give the same text.
   */
  lemma Utf32AgreesWithLabelDecoder(input: seq<byte>, name: string, e: UtfEncoding)
    requires Parse(name) == Some(e) && e.ty == Utf32
    requires e.byteOrder == NotPresent || GetUtf32Bom(input) == NotPresent
    ensures TryDecodeUtf32Lossy(input, name, false) == Some(DecodeUtfLossy(input, e))
  {
    var q := ParsedLabelMatches(name, e);
    OrderSuffixIsBe(name, q, e.byteOrder);
  }

  lemma Utf16AgreesWithLabelDecoder(input: seq<byte>, name: string, e: UtfEncoding)
    requires Parse(name) == Some(e) && e.ty == Utf16
    requires e.byteOrder == NotPresent || GetUtf16Bom(input) == NotPresent
    ensures TryDecodeUtf16Lossy(input, name) == Some(DecodeUtfLossy(input, e))
  {
    var q := ParsedLabelMatches(name, e);
    OrderSuffixIsBe(name, q, e.byteOrder);
  }

  /** A marker overrides the label's byte order and is removed. */
  lemma Utf32MarkerOverridesLabel(body: seq<byte>, name: string, le: bool)
    requires MatchEncodingParts(name, 0, ["utf", "32"]).Some?
    ensures TryDecodeUtf32Lossy(BomBytes(32, le) + body, name, false) == Some(DecodeUtf32LossyInner(body, le))
  {
    DetectsOwnMarker(body);
    assert (BomBytes(32, le) + body)[4..] == body;
  }

  lemma Utf16MarkerOverridesLabel(body: seq<byte>, name: string, le: bool)
    requires MatchEncodingParts(name, 0, ["utf", "16"]).Some?
    ensures TryDecodeUtf16Lossy(BomBytes(16, le) + body, name) == Some(DecodeUtf16LossyInner(body, le))
  {
    DetectsOwnMarker(body);
    assert (BomBytes(16, le) + body)[2..] == body;
  }

  /** `keep_bom` adds one U+FEFF in front, and only when the input carried a marker. */
  lemma Utf32KeepBom(input: seq<byte>, name: string)
    requires MatchEncodingParts(name, 0, ["utf", "32"]).Some?
    ensures IsPresent(GetUtf32Bom(input)) ==>
      TryDecodeUtf32Lossy(input, name, true).value == [BomChar] + TryDecodeUtf32Lossy(input, name, false).value
    ensures !IsPresent(GetUtf32Bom(input)) ==>
      TryDecodeUtf32Lossy(input, name, true) == TryDecodeUtf32Lossy(input, name, false)
  {
  }

  /** Text written with a marker decodes back, whatever order the label names. */
  lemma Utf16MarkedRoundTrip(s: string, name: string, le: bool)
    requires MatchEncodingParts(name, 0, ["utf", "16"]).Some?
    ensures TryDecodeUtf16Lossy(BomBytes(16, le) + Bytes16(Encode16(s), le), name) == Some(s)
  {
    var body := Bytes16(Encode16(s), le);
    Utf16MarkerOverridesLabel(body, name, le);
    Units16OfBytes16(Encode16(s), le);
    Decode16LossyOfEncode16(s);
    assert DecodeUtf16LossyInner(body, le) == s + [] == s;
  }

  lemma Utf32MarkedRoundTrip(s: string, name: string, le: bool)
    requires MatchEncodingParts(name, 0, ["utf", "32"]).Some?
    ensures TryDecodeUtf32Lossy(BomBytes(32, le) + Bytes32(Encode32(s), le), name, false) == Some(s)
  {
    var body := Bytes32(Encode32(s), le);
    Utf32MarkerOverridesLabel(body, name, le);
    Units32OfBytes32(Encode32(s), le);
    Decode32OfEncode32(s);
    Decode32LossyAgrees(Encode32(s));
    assert DecodeUtf32LossyInner(body, le) == s + [] == s;
  }
}
