/**
 * `convert_inner` of the Web back-end (src/sys/wasm/convert.rs), under the
 * default build, without the nonstandard legacy-encoding feature: the
 * target must be a UTF label. A UTF source is decoded by the crate so that
 * a byte-order mark survives; any other source goes through the JavaScript
 * `TextDecoder`, which appears here as the parameter `textDecoder`.
 */
module WasmConvert {
  import opened Wrappers
  import opened Bytes
  import opened Unicode
  import opened Utf8
  import opened Bom
  import opened Errors
  import opened Encoding
  import opened Utf
  import opened Decode
  import opened DecodeLossy
  import opened WasmUtf

  /** What `new TextDecoder(label, { fatal })` followed by `decode(input)` gives. */
  datatype TextDecoding = LabelRefused | DecodeFailed | Decoded(text: string)

  /** `TextDecoder` with `ignoreBOM` off: label, input, `fatal`. */
  type TextDecoder = (string, seq<byte>, bool) -> TextDecoding

  /** `decoded` in `convert_inner`: the text of the input, or the error that stops the conversion. */
  function DecodedText(input: seq<byte>, from: string, lossy: bool, textDecoder: TextDecoder): (r: Result<string, ConvertError>)
    ensures r.Err? ==> r.error in {InvalidInput, UnknownConversion}
    ensures Parse(from).Some? ==> r.Err? ==> !lossy && r.error == InvalidInput
    ensures Parse(from).Some? && lossy ==> r == Ok(DecodeUtfLossy(input, Parse(from).value))
    ensures Parse(from).Some? && !lossy ==> r == DecodeUtf(input, Parse(from).value)
  {
    match Parse(from)
    case Some(u) => if lossy then Ok(DecodeUtfLossy(input, u)) else DecodeUtf(input, u)
    case None =>
      match textDecoder(from, input, !lossy)
      case LabelRefused => Err(UnknownConversion)
      case DecodeFailed => Err(InvalidInput)
      case Decoded(s) => Ok(s)
  }

  /** The bytes of `text` in the target encoding; a mark is written exactly for an order-less UTF-16/32 target. */
  function EncodedText(text: string, target: UtfEncoding): (r: seq<byte>)
    ensures target.ty == Utf8 ==> r == Encode8(text)
    ensures target.ty != Utf8 ==>
      var le := IsLe(target.byteOrder, true);
      r == (if IsAmbiguous(target) then BomBytes(Width(target.ty), le) else [])
           + (if target.ty == Utf16 then Bytes16(Encode16(text), le) else Bytes32(Encode32(text), le))
  {
    var addBom := IsAmbiguous(target);
    var le := IsLe(target.byteOrder, true);
    match target.ty
    case Utf8 => Encode8(text)
    case Utf16 => Utf16Bytes(text, addBom, le)
    case Utf32 => Utf32Bytes(text, addBom, le)
  }

  /** `convert_inner`. */
  function ConvertInner(input: seq<byte>, from: string, to: string, lossy: bool, textDecoder: TextDecoder)
    : (r: Result<seq<byte>, ConvertError>)
    ensures Parse(to).None? ==> r == Err(UnknownConversion)
    ensures Parse(to).Some? && (EqIgnoreAsciiCase(from, to) || (Parse(from) == Parse(to) && Parse(to).value.ty == Utf8))
      ==> r == Ok(input)
  {
    match Parse(to)
    case None => Err(UnknownConversion)
    case Some(target) =>
      if RestEqIgnoreCase(from, 0, to) || (Parse(from) == Parse(to) && target.ty == Utf8) then
        assert from[0..] == from;
        Ok(input)
      else
        match DecodedText(input, from, lossy, textDecoder)
        case Err(e) => Err(e)
        case Ok(text) => Ok(EncodedText(text, target))
  }

  // ---------------------------------------------------------------------
  // Properties.

  /** Whatever the target, its own decoder reads back the text: the mark, when written, selects the order. */
  lemma EncodedTextDecodes(text: string, target: UtfEncoding)
    ensures DecodeUtf(EncodedText(text, target), target) == Ok(text)
  {
    var le := IsLe(target.byteOrder, true);
    match target.ty
    case Utf8 =>
      Decode8OfEncode8(text);
    case Utf16 =>
      if IsAmbiguous(target) {
        Utf16MarkedBytesDecode(text, le);
      } else {
        DecodeUtf16Explicit(text, le);
      }
    case Utf32 =>
      if IsAmbiguous(target) {
        Utf32MarkedBytesDecode(text, le);
      } else {
        DecodeUtf32Explicit(text, le);
      }
  }

  /** Outside the copy path, the output decodes under the target label to exactly the decoded source text. */
  lemma ConvertedDecodes(input: seq<byte>, from: string, to: string, lossy: bool, textDecoder: TextDecoder)
    requires Parse(to).Some? && !EqIgnoreAsciiCase(from, to)
    requires !(Parse(from) == Parse(to) && Parse(to).value.ty == Utf8)
    requires DecodedText(input, from, lossy, textDecoder).Ok?
    ensures ConvertInner(input, from, to, lossy, textDecoder).Ok?
    ensures DecodeUtf(ConvertInner(input, from, to, lossy, textDecoder).value, Parse(to).value)
      == DecodedText(input, from, lossy, textDecoder)
  {
    var text := DecodedText(input, from, lossy, textDecoder).value;
    ConvertInnerEncodes(input, from, to, lossy, textDecoder);
    EncodedTextDecodes(text, Parse(to).value);
  }

  lemma ConvertInnerEncodes(input: seq<byte>, from: string, to: string, lossy: bool, textDecoder: TextDecoder)
    requires Parse(to).Some? && !EqIgnoreAsciiCase(from, to)
    requires !(Parse(from) == Parse(to) && Parse(to).value.ty == Utf8)
    requires DecodedText(input, from, lossy, textDecoder).Ok?
    ensures ConvertInner(input, from, to, lossy, textDecoder)
      == Ok(EncodedText(DecodedText(input, from, lossy, textDecoder).value, Parse(to).value))
  {
    assert from[0..] == from;
  }

  /** Between UTF labels the lossy conversion never fails, and it agrees with the strict one wherever that succeeds. */
  lemma LossyUtfConversion(input: seq<byte>, from: string, to: string, textDecoder: TextDecoder)
    requires Parse(from).Some? && Parse(to).Some?
    ensures ConvertInner(input, from, to, true, textDecoder).Ok?
    ensures ConvertInner(input, from, to, false, textDecoder).Ok? ==>
      ConvertInner(input, from, to, true, textDecoder) == ConvertInner(input, from, to, false, textDecoder)
  {
    if DecodeUtf(input, Parse(from).value).Ok? {
      LossyAgreesWithStrict(input, Parse(from).value);
    }
  }

  /** Strict conversion from a UTF label fails exactly when strict decoding of the source fails. */
  lemma StrictUtfConversionFails(input: seq<byte>, from: string, to: string, textDecoder: TextDecoder)
    requires Parse(from).Some? && Parse(to).Some? && !EqIgnoreAsciiCase(from, to)
    requires !(Parse(from) == Parse(to) && Parse(to).value.ty == Utf8)
    ensures ConvertInner(input, from, to, false, textDecoder).Err?
      <==> DecodeUtf(input, Parse(from).value).Err?
    ensures ConvertInner(input, from, to, false, textDecoder).Err? ==>
      ConvertInner(input, from, to, false, textDecoder).error == InvalidInput
  {
  }

  /** An order-less UTF-16 target gets a little-endian mark; an explicit order gets none. */
  lemma Utf16TargetMark(text: string, order: ByteOrderMark)
    ensures order == NotPresent ==> EncodedText(text, UtfEncoding(Utf16, order)) == Utf16LeBom + Bytes16(Encode16(text), true)
    ensures order != NotPresent ==> EncodedText(text, UtfEncoding(Utf16, order)) == Bytes16(Encode16(text), order == Le)
  {
    if order == NotPresent {
      assert BomBytes(16, true) == Utf16LeBom;
    } else {
      assert [] + Bytes16(Encode16(text), order == Le) == Bytes16(Encode16(text), order == Le);
    }
  }
}
