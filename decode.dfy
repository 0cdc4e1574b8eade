/**
 * Strict decoding of a UTF-8, UTF-16 or UTF-32 byte string into text
 * (src/utf/decode.rs). The byte order comes from `consume_input_bom`; when
 * neither the label nor a marker fixes it, little-endian is assumed.
 */
module Decode {
  import opened Wrappers
  import opened Bytes
  import opened Bom
  import opened Unicode
  import opened Utf8
  import opened Utf
  import opened Errors

  /** `decode_utf16_inner`. */
  function DecodeUtf16Inner(input: seq<byte>, le: bool): (r: Result<string, ConvertError>)
    ensures r.Err? ==> r.error == InvalidInput
    ensures r.Ok? <==> |input| % 2 == 0 && WellFormed16(Units16(input, le))
    ensures r.Ok? ==> Bytes16(Encode16(r.value), le) == input
  {
    if |input| % 2 != 0 then Err(InvalidInput)
    else
      var units := Units16(input, le);
      Decode16Succeeds(units);
      match Decode16(units)
      case None => Err(InvalidInput)
      case Some(s) =>
        Encode16OfDecode16(units);
        Bytes16OfUnits16(input, le);
        assert input[..|input| / 2 * 2] == input;
        Ok(s)
  }

  /** `decode_utf32_inner`. */
  function DecodeUtf32Inner(input: seq<byte>, le: bool): (r: Result<string, ConvertError>)
    ensures r.Err? ==> r.error == InvalidInput
    ensures r.Ok? <==> |input| % 4 == 0 && forall i :: 0 <= i < |input| / 4 ==> IsScalar(Units32(input, le)[i])
    ensures r.Ok? ==> Bytes32(Encode32(r.value), le) == input
  {
    if |input| % 4 != 0 then Err(InvalidInput)
    else
      var units := Units32(input, le);
      match Decode32(units)
      case None =>
        var k :| 0 <= k < |units| && !IsScalar(units[k]);
        assert k < |input| / 4 && !IsScalar(Units32(input, le)[k]);
        Err(InvalidInput)
      case Some(s) =>
        Encode32OfDecode32(units);
        Bytes32OfUnits32(input, le);
        assert input[..|input| / 4 * 4] == input;
        Ok(s)
  }

  /** `decode_utf`. */
  function DecodeUtf(input: seq<byte>, e: UtfEncoding): (r: Result<string, ConvertError>)
    ensures r.Err? ==> r.error == InvalidInput
    ensures e.ty == Utf8 ==> (r.Ok? <==> Decode8(input).Some?)
    ensures e.ty == Utf8 && r.Ok? ==> Encode8(r.value) == input
  {
    var (order, rest) := InputBomConsumed(e, input);
    var le := IsLe(order, true);
    match e.ty
    case Utf16 => DecodeUtf16Inner(rest, le)
    case Utf32 => DecodeUtf32Inner(rest, le)
    case Utf8 =>
      match Decode8(rest)
      case Some(s) =>
        Encode8OfDecode8(rest);
        Ok(s)
      case None => Err(InvalidInput)
  }

  // ---------------------------------------------------------------------
  // Properties.

  /** UTF-16 text written in a fixed byte order decodes back under the label naming that order. */
  lemma DecodeUtf16Explicit(s: string, le: bool)
    ensures DecodeUtf(Bytes16(Encode16(s), le), UtfEncoding(Utf16, if le then Le else Be)) == Ok(s)
  {
    var units := Encode16(s);
    Units16OfBytes16(units, le);
    Decode16OfEncode16(s);
  }

  lemma DecodeUtf32Explicit(s: string, le: bool)
    ensures DecodeUtf(Bytes32(Encode32(s), le), UtfEncoding(Utf32, if le then Le else Be)) == Ok(s)
  {
    Units32OfBytes32(Encode32(s), le);
    Decode32OfEncode32(s);
  }

  /** Under the order-less label, a leading marker selects the byte order and is not part of the text. */
  lemma DecodeUtf16Marked(s: string, le: bool)
    ensures DecodeUtf(BomBytes(16, le) + Bytes16(Encode16(s), le), UtfEncoding(Utf16, NotPresent)) == Ok(s)
  {
    var body := Bytes16(Encode16(s), le);
    DetectsOwnMarker(body);
    assert (BomBytes(16, le) + body)[2..] == body;
    DecodeUtf16Explicit(s, le);
  }

  lemma DecodeUtf32Marked(s: string, le: bool)
    ensures DecodeUtf(BomBytes(32, le) + Bytes32(Encode32(s), le), UtfEncoding(Utf32, NotPresent)) == Ok(s)
  {
    var body := Bytes32(Encode32(s), le);
    DetectsOwnMarker(body);
    assert (BomBytes(32, le) + body)[4..] == body;
    DecodeUtf32Explicit(s, le);
  }

  /** Under the order-less label and without a marker, the input is read as little-endian. */
  lemma DecodeUtf16DefaultsToLe(s: string)
    requires GetUtf16Bom(Bytes16(Encode16(s), true)) == NotPresent
    ensures DecodeUtf(Bytes16(Encode16(s), true), UtfEncoding(Utf16, NotPresent)) == Ok(s)
  {
    DecodeUtf16Explicit(s, true);
  }

  lemma DecodeUtf32DefaultsToLe(s: string)
    requires GetUtf32Bom(Bytes32(Encode32(s), true)) == NotPresent
    ensures DecodeUtf(Bytes32(Encode32(s), true), UtfEncoding(Utf32, NotPresent)) == Ok(s)
  {
    DecodeUtf32Explicit(s, true);
  }

  /**
   * Under an explicit byte order, a marker of the opposite order is not
   * removed: its bytes decode as the character U+FFFE.
   */
  lemma OppositeMarkerIsContent(s: string)
    ensures DecodeUtf(Utf16LeBom + Bytes16(Encode16(s), false), UtfEncoding(Utf16, Be)) == Ok(['\U{FFFE}'] + s)
    ensures DecodeUtf(Utf16BeBom + Bytes16(Encode16(s), true), UtfEncoding(Utf16, Le)) == Ok(['\U{FFFE}'] + s)
  {
    var c: char := '\U{FFFE}';
    assert EncodeChar16(c) == [0xFFFE];
    assert Encode16([c] + s) == [0xFFFE] + Encode16(s) by {
      assert ([c] + s)[1..] == s;
    }
    Bytes16Append([0xFFFE], Encode16(s), false);
    Bytes16Append([0xFFFE], Encode16(s), true);
    assert Bytes16([0xFFFE], false) == Utf16LeBom;
    assert Bytes16([0xFFFE], true) == Utf16BeBom;
    DecodeUtf16Explicit([c] + s, false);
    DecodeUtf16Explicit([c] + s, true);
  }

  /** A UTF-8 byte-order mark is never consumed: it decodes as U+FEFF. */
  lemma Utf8MarkerIsContent(s: string)
    ensures DecodeUtf(Utf8Bom + Encode8(s), UtfEncoding(Utf8, NotPresent)) == Ok([BomChar] + s)
  {
    BomCharEncoding();
    assert Encode8([BomChar] + s) == Utf8Bom + Encode8(s) by {
      assert ([BomChar] + s)[1..] == s;
    }
    Decode8OfEncode8([BomChar] + s);
  }
}

/**
 * Lossy decoding (src/utf/decode_lossy.rs): never fails; each ill-formed
 * unit or subpart, and a trailing partial unit, becomes one U+FFFD.
 */
module DecodeLossy {
  import opened Wrappers
  import opened Bytes
  import opened Bom
  import opened Unicode
  import opened Utf8
  import opened Utf
  import opened Errors
  import opened Decode

  /** `decode_utf16_lossy_inner`. */
  function DecodeUtf16LossyInner(input: seq<byte>, le: bool): (r: string)
    ensures |r| <= |input| / 2 + |input| % 2
  {
    Decode16Lossy(Units16(input, le)) + (if |input| % 2 != 0 then [Replacement] else [])
  }

  /** `decode_utf32_lossy_inner`. */
  function DecodeUtf32LossyInner(input: seq<byte>, le: bool): (r: string)
    ensures |r| == |input| / 4 + (if |input| % 4 != 0 then 1 else 0)
    ensures forall i :: 0 <= i < |input| / 4 ==>
      var u := U32From(input[4 * i], input[4 * i + 1], input[4 * i + 2], input[4 * i + 3], le);
      if IsScalar(u) then r[i] as int == u else r[i] == Replacement
    ensures |input| % 4 != 0 ==> r[|r| - 1] == Replacement
  {
    Decode32Lossy(Units32(input, le)) + (if |input| % 4 != 0 then [Replacement] else [])
  }

  /** `decode_utf_lossy`: the same byte-order choice as `decode_utf`. */
  function DecodeUtfLossy(input: seq<byte>, e: UtfEncoding): (r: string)
  {
    var (order, rest) := InputBomConsumed(e, input);
    var le := IsLe(order, true);
    match e.ty
    case Utf16 => DecodeUtf16LossyInner(rest, le)
    case Utf32 => DecodeUtf32LossyInner(rest, le)
    case Utf8 => Lossy8(rest)
  }

  // ---------------------------------------------------------------------
  // Properties.

  lemma Units16IgnoresOddByte(input: seq<byte>, b: byte, le: bool)
    requires |input| % 2 == 0
    ensures Units16(input + [b], le) == Units16(input, le)
  {
  }

  /** One trailing odd byte adds exactly one U+FFFD to what the even part decodes to. */
  lemma OddByteIsOneReplacement(input: seq<byte>, b: byte, le: bool)
    requires |input| % 2 == 0
    ensures DecodeUtf16LossyInner(input + [b], le) == DecodeUtf16LossyInner(input, le) + [Replacement]
  {
    Units16IgnoresOddByte(input, b, le);
  }

  /**
   * In the bytes, an unpaired surrogate after well-formed UTF-16 becomes
   * exactly one U+FFFD: the bytes before it decode as they are, and decoding
   * resumes with the two bytes after it, whatever follows (an odd tail byte
   * included).
   */
  lemma UnpairedSurrogateBytes(x: seq<byte>, c0: byte, c1: byte, y: seq<byte>, le: bool)
    requires DecodeUtf16Inner(x, le).Ok?
    requires var u := U16From(c0, c1, le);
      IsLowSurrogate(u) || (IsHighSurrogate(u) && (|y| < 2 || !IsLowSurrogate(U16From(y[0], y[1], le))))
    ensures DecodeUtf16LossyInner(x + [c0, c1] + y, le)
      == DecodeUtf16Inner(x, le).value + [Replacement] + DecodeUtf16LossyInner(y, le)
  {
    var u := U16From(c0, c1, le);
    var a := Units16(x, le);
    var b := Units16(y, le);
    StrictUnits16(x, le);
    LossyInnerAround(x, c0, c1, y, le);
    if !IsLowSurrogate(u) { FirstUnitNotLow(y, le); }
    UnpairedThenTail(a, u, b, if |y| % 2 != 0 then [Replacement] else []);
  }

  /** An unpaired surrogate stays one replacement whatever follows the lossy decoding. */
  lemma UnpairedThenTail(a: seq<u16>, u: u16, b: seq<u16>, tail: string)
    requires Decode16(a).Some?
    requires IsLowSurrogate(u) || (IsHighSurrogate(u) && (b == [] || !IsLowSurrogate(b[0])))
    ensures Decode16Lossy(a + [u] + b) + tail == Decode16(a).value + [Replacement] + (Decode16Lossy(b) + tail)
  {
    UnpairedSurrogateLossy(a, u, b);
  }

  /** The lossy decoding of bytes around a unit is the lossy decoding of the units around it. */
  lemma LossyInnerAround(x: seq<byte>, c0: byte, c1: byte, y: seq<byte>, le: bool)
    requires |x| % 2 == 0
    ensures DecodeUtf16LossyInner(x + [c0, c1] + y, le)
      == Decode16Lossy(Units16(x, le) + [U16From(c0, c1, le)] + Units16(y, le))
         + (if |y| % 2 != 0 then [Replacement] else [])
    ensures DecodeUtf16LossyInner(y, le)
      == Decode16Lossy(Units16(y, le)) + (if |y| % 2 != 0 then [Replacement] else [])
  {
    UnitsAround(x, c0, c1, y, le);
    assert |x + [c0, c1] + y| % 2 == |y| % 2;
  }

  /** The first unit of `y` is the one its first two bytes spell. */
  lemma FirstUnitNotLow(y: seq<byte>, le: bool)
    requires |y| >= 2 ==> !IsLowSurrogate(U16From(y[0], y[1], le))
    ensures Units16(y, le) == [] || !IsLowSurrogate(Units16(y, le)[0])
  {
  }

  /** Strict decoding of an even number of bytes is strict decoding of their units. */
  lemma StrictUnits16(x: seq<byte>, le: bool)
    requires DecodeUtf16Inner(x, le).Ok?
    ensures Decode16(Units16(x, le)) == Some(DecodeUtf16Inner(x, le).value)
  {
  }

  lemma UnitsAround(x: seq<byte>, c0: byte, c1: byte, y: seq<byte>, le: bool)
    requires |x| % 2 == 0
    ensures Units16(x + [c0, c1] + y, le) == Units16(x, le) + [U16From(c0, c1, le)] + Units16(y, le)
  {
    var w := [c0, c1] + y;
    assert x + [c0, c1] + y == x + w;
    Units16Append(x, w, le);
    Units16Append([c0, c1], y, le);
    Units16Pair(c0, c1, le);
  }

  lemma Units16Pair(c0: byte, c1: byte, le: bool)
    ensures Units16([c0, c1], le) == [U16From(c0, c1, le)]
  {
    assert [c0, c1][2..] == [];
  }

  lemma Utf16LossyAgrees(input: seq<byte>, le: bool)
    requires DecodeUtf16Inner(input, le).Ok?
    ensures DecodeUtf16LossyInner(input, le) == DecodeUtf16Inner(input, le).value
  {
    Decode16LossyAgrees(Units16(input, le));
  }

  lemma Utf32LossyAgrees(input: seq<byte>, le: bool)
    requires DecodeUtf32Inner(input, le).Ok?
    ensures DecodeUtf32LossyInner(input, le) == DecodeUtf32Inner(input, le).value
  {
    Decode32LossyAgrees(Units32(input, le));
  }

  /**
   * The byte order `decode_utf_lossy` reads UTF-16 in: a stated order as
   * stated, with the input whole; without one, a leading mark's order with
   * the mark removed, and little-endian when there is no mark.
   */
  lemma Lossy16Order(body: seq<byte>, le: bool)
    ensures DecodeUtfLossy(body, UtfEncoding(Utf16, if le then Le else Be)) == DecodeUtf16LossyInner(body, le)
    ensures DecodeUtfLossy(BomBytes(16, le) + body, UtfEncoding(Utf16, NotPresent)) == DecodeUtf16LossyInner(body, le)
    ensures GetUtf16Bom(body) == NotPresent ==> DecodeUtfLossy(body, UtfEncoding(Utf16, NotPresent)) == DecodeUtf16LossyInner(body, true)
  {
    LossyMarked16(body, le);
  }

  lemma LossyMarked16(body: seq<byte>, le: bool)
    ensures DecodeUtfLossy(BomBytes(16, le) + body, UtfEncoding(Utf16, NotPresent)) == DecodeUtf16LossyInner(body, le)
  {
    var input := BomBytes(16, le) + body;
    DetectsOwnMarker(body);
    assert input[2..] == body;
    assert InputBomConsumed(UtfEncoding(Utf16, NotPresent), input) == (if le then Le else Be, body);
  }

  lemma Lossy32Order(body: seq<byte>, le: bool)
    ensures DecodeUtfLossy(body, UtfEncoding(Utf32, if le then Le else Be)) == DecodeUtf32LossyInner(body, le)
    ensures DecodeUtfLossy(BomBytes(32, le) + body, UtfEncoding(Utf32, NotPresent)) == DecodeUtf32LossyInner(body, le)
    ensures GetUtf32Bom(body) == NotPresent ==> DecodeUtfLossy(body, UtfEncoding(Utf32, NotPresent)) == DecodeUtf32LossyInner(body, true)
  {
    LossyMarked32(body, le);
  }

  lemma LossyMarked32(body: seq<byte>, le: bool)
    ensures DecodeUtfLossy(BomBytes(32, le) + body, UtfEncoding(Utf32, NotPresent)) == DecodeUtf32LossyInner(body, le)
  {
    var input := BomBytes(32, le) + body;
    DetectsOwnMarker(body);
    assert input[4..] == body;
    assert InputBomConsumed(UtfEncoding(Utf32, NotPresent), input) == (if le then Le else Be, body);
  }

  /** UTF-8 input is decoded lossily whole, whatever the label says of its order: a mark stays. */
  lemma Lossy8Whole(input: seq<byte>, order: ByteOrderMark)
    ensures DecodeUtfLossy(input, UtfEncoding(Utf8, order)) == Lossy8(input)
  {
  }

  /** Wherever strict decoding succeeds, lossy decoding returns the same text. */
  lemma LossyAgreesWithStrict(input: seq<byte>, e: UtfEncoding)
    requires DecodeUtf(input, e).Ok?
    ensures DecodeUtfLossy(input, e) == DecodeUtf(input, e).value
  {
    var (order, rest) := InputBomConsumed(e, input);
    var le := IsLe(order, true);
    match e.ty
    case Utf16 => Utf16LossyAgrees(rest, le);
    case Utf32 => Utf32LossyAgrees(rest, le);
    case Utf8 => Lossy8Agrees(rest);
  }
}
