/**
 * The Web back-end's lossy entry points (src/sys/wasm.rs), under the default
 * build, without the nonstandard legacy-encoding feature. The JavaScript
 * `TextDecoder` and the helpers `adjust_utf16_params`,
 * `string_to_utf16_lossy` and `string_to_utf32_lossy` (not part of this
 * model) are parameters.
 */
module Wasm {
  import opened Wrappers
  import opened Bytes
  import opened Unicode
  import opened Utf8
  import opened Bom
  import opened Errors
  import opened Encoding
  import opened Utf
  import opened Wide

  /** `adjust_utf16_params`: may rewrite the source label and the input. */
  type AdjustUtf16 = (string, seq<byte>) -> (string, seq<byte>)
  /** `TextDecoder(label)` then `decode(input)`, non-fatal; `None` when the label is refused. */
  type LabelDecoder = (string, seq<byte>) -> Option<string>
  /** `string_to_utf16_lossy` / `string_to_utf32_lossy`: text, `add_bom`, little-endian. */
  type TextWriter = (string, bool, bool) -> seq<byte>

  predicate EndsWith(s: string, t: string)
  {
    |t| <= |s| && s[|s| - |t|..] == t
  }

  /** The target is little-endian unless its label ends in "be" or "BE". */
  predicate TargetIsLe(to: string)
  {
    !(EndsWith(to, "be") || EndsWith(to, "BE"))
  }

  /**
   * `decoded` in `convert_lossy`: the crate's UTF-32 decoder first, keeping
   * a mark when the target is order-less or the source label fixed its
   * order, then `TextDecoder` with `ignoreBOM` set. Ambiguity of the source
   * is judged on the label before `adjust_utf16_params`.
   */
  function DecodedLossy(input: seq<byte>, from: string, to: string, adjust: AdjustUtf16, decoder: LabelDecoder)
    : (r: Option<string>)
  {
    var keepBom := IsEncodingByteOrderAmbiguous(to) || !IsEncodingByteOrderAmbiguous(from);
    var (name, bytes) := adjust(from, input);
    match TryDecodeUtf32Lossy(bytes, name, keepBom)
    case Some(s) => Some(s)
    case None => decoder(name, bytes)
  }

  /** `add_bom`: the target is order-less, or the decoded text already starts with U+FEFF. */
  predicate AddsBom(to: string, text: string)
  {
    IsEncodingByteOrderAmbiguous(to) || IsPresent(GetUtf8Bom(Encode8(text)))
  }

  /** The UTF-8 output: the text's bytes, with EF BB BF put in front when a mark is wanted and missing. */
  function Utf8Output(text: string, addBom: bool): (r: seq<byte>)
    ensures addBom ==> GetUtf8Bom(r) == Le
    ensures !IsPresent(GetUtf8Bom(Encode8(text))) ==> r == (if addBom then Utf8Bom else []) + Encode8(text)
  {
    if addBom && GetUtf8Bom(Encode8(text)) == NotPresent then Utf8Bom + Encode8(text) else Encode8(text)
  }

  /** The `res` rewrite of the UTF-8 branch: the splice, or the drain of a mark that is not wanted. */
  method SpliceUtf8Bom(text: string, addBom: bool) returns (res: seq<byte>)
    requires IsPresent(GetUtf8Bom(Encode8(text))) ==> addBom
    ensures res == Utf8Output(text, addBom)
  {
    res := Encode8(text);
    var bom := GetUtf8Bom(res);
    if bom == NotPresent && addBom {
      res := [0xEF, 0xBB, 0xBF] + res;
    } else if IsPresent(bom) && !addBom {
      // The source drains the mark here; `add_bom` includes its presence, so this never runs.
      assert false;
    }
  }

  /** `convert_lossy` of src/sys/wasm.rs. */
  method ConvertLossy(input: seq<byte>, from: string, to: string, adjust: AdjustUtf16, decoder: LabelDecoder,
                      utf16Writer: TextWriter, utf32Writer: TextWriter)
    returns (r: Result<seq<byte>, ConvertLossyError>)
    ensures TrimEncodingPrefix(to, 0, "utf").None? ==> r == Err(LossyUnknownToEncoding)
    ensures TrimEncodingPrefix(to, 0, "utf").Some?
      && (EqIgnoreAsciiCase(from, to) || (MatchEncodingPartsExact(from, ["utf", "8"]) && MatchEncodingPartsExact(to, ["utf", "8"])))
      ==> r == Ok(input)
    ensures r.Err? ==> r.error in {LossyUnknownFromEncoding, LossyUnknownToEncoding}
    ensures r == Err(LossyUnknownFromEncoding) ==> DecodedLossy(input, from, to, adjust, decoder).None?
    ensures
      && TrimEncodingPrefix(to, 0, "utf").Some? && !EqIgnoreAsciiCase(from, to)
      && !(MatchEncodingPartsExact(from, ["utf", "8"]) && MatchEncodingPartsExact(to, ["utf", "8"]))
      && DecodedLossy(input, from, to, adjust, decoder).None?
      ==> r == Err(LossyUnknownFromEncoding)
    ensures
      && TrimEncodingPrefix(to, 0, "utf").Some? && !EqIgnoreAsciiCase(from, to)
      && !(MatchEncodingPartsExact(from, ["utf", "8"]) && MatchEncodingPartsExact(to, ["utf", "8"]))
      && DecodedLossy(input, from, to, adjust, decoder).Some?
      ==>
      var p := TrimEncodingPrefix(to, 0, "utf").value;
      var text := DecodedLossy(input, from, to, adjust, decoder).value;
      var addBom := AddsBom(to, text);
      r == if RestStartsWith(to, p, "32") then Ok(utf32Writer(text, addBom, TargetIsLe(to)))
           else if RestStartsWith(to, p, "16") then Ok(utf16Writer(text, addBom, TargetIsLe(to)))
           else if RestIs(to, p, "8") then Ok(Utf8Output(text, addBom))
           else Err(LossyUnknownToEncoding)
  {
    var utf := TrimEncodingPrefix(to, 0, "utf");
    if utf.None? {
      return Err(LossyUnknownToEncoding);
    }
    if RestEqIgnoreCase(from, 0, to)
      || (MatchEncodingPartsExact(from, ["utf", "8"]) && MatchEncodingPartsExact(to, ["utf", "8"]))
    {
      assert from[0..] == from;
      return Ok(input);
    }
    assert from[0..] == from;
    var fromAmbiguous := IsEncodingByteOrderAmbiguous(from);
    var toAmbiguous := IsEncodingByteOrderAmbiguous(to);
    var (name, bytes) := adjust(from, input);
    var decoded := TryDecodeUtf32Lossy(bytes, name, toAmbiguous || !fromAmbiguous);
    if decoded.None? {
      decoded := decoder(name, bytes);
      if decoded.None? {
        return Err(LossyUnknownFromEncoding);
      }
    }
    var text := decoded.value;
    var p := utf.value;
    var isLe := !(EndsWith(to, "be") || EndsWith(to, "BE"));
    var addBom := toAmbiguous || IsPresent(GetUtf8Bom(Encode8(text)));
    if RestStartsWith(to, p, "32") {
      r := Ok(utf32Writer(text, addBom, isLe));
    } else if RestStartsWith(to, p, "16") {
      r := Ok(utf16Writer(text, addBom, isLe));
    } else if RestIs(to, p, "8") {
      var res := SpliceUtf8Bom(text, addBom);
      r := Ok(res);
    } else {
      r := Err(LossyUnknownToEncoding);
    }
  }

  /** `decode_lossy`: UTF-16 labels, then UTF-32 labels without a kept mark, then a plain `TextDecoder`. */
  function DecodeLossy(input: seq<byte>, encoding: string, decoder: LabelDecoder): (r: Result<string, ConvertLossyError>)
    ensures MatchEncodingParts(encoding, 0, ["utf", "16"]).Some? ==> r == Ok(TryDecodeUtf16Lossy(input, encoding).value)
    ensures MatchEncodingParts(encoding, 0, ["utf", "16"]).None? && MatchEncodingParts(encoding, 0, ["utf", "32"]).Some? ==>
      r == Ok(TryDecodeUtf32Lossy(input, encoding, false).value)
    ensures MatchEncodingParts(encoding, 0, ["utf", "16"]).None? && MatchEncodingParts(encoding, 0, ["utf", "32"]).None? ==>
      r == match decoder(encoding, input)
           case Some(s) => Ok(s)
           case None => Err(LossyUnknownFromEncoding)
    ensures r.Err? ==> r.error == LossyUnknownFromEncoding && decoder(encoding, input).None?
  {
    match TryDecodeUtf16Lossy(input, encoding)
    case Some(s) => Ok(s)
    case None =>
      match TryDecodeUtf32Lossy(input, encoding, false)
      case Some(s) => Ok(s)
      case None =>
        match decoder(encoding, input)
        case None => Err(LossyUnknownFromEncoding)
        case Some(s) => Ok(s)
  }

  // ---------------------------------------------------------------------
  // Properties.

  /** The UTF-8 output starts with a mark exactly when `add_bom` holds, and never loses one the text had. */
  lemma Utf8OutputMark(text: string, to: string)
    ensures IsPresent(GetUtf8Bom(Utf8Output(text, AddsBom(to, text)))) <==> AddsBom(to, text)
    ensures Utf8Output(text, AddsBom(to, text)) == Encode8(text)
      || Utf8Output(text, AddsBom(to, text)) == Utf8Bom + Encode8(text)
  {
  }

  /** A text starting with U+FEFF keeps exactly that one mark. */
  lemma MarkedTextKeepsOneMark(rest: string, to: string)
    ensures Utf8Output([BomChar] + rest, AddsBom(to, [BomChar] + rest)) == Encode8([BomChar] + rest)
  {
    var text := [BomChar] + rest;
    Encode8StartsWithBom(text);
    var b := Encode8(text);
    assert b[..3] == Utf8Bom;
    assert GetUtf8Bom(b) == Le;
  }

  /** A label ending in "be" or "BE" selects big-endian whatever comes before it; "Be" does not. */
  lemma TargetOrderExamples()
    ensures !TargetIsLe("utf-16be") && !TargetIsLe("UTF-32BE")
    ensures TargetIsLe("utf-16") && TargetIsLe("utf-16Be")
  {
    assert "utf-16be"[6..] == "be";
    assert "UTF-32BE"[6..] == "BE";
    assert "utf-16Be"[6..] == "Be";
  }
}
