/**
 * The Windows back-end's entry points (src/sys/win.rs). `convert_lossy`
 * always keeps the byte-order-mark policy of the bridge; `decode_lossy`
 * first tries the crate's own label-driven UTF-16 and UTF-32 decoders and
 * only then converts to UTF-8 through the bridge, without a mark. A Rust
 * `String` is modelled by its UTF-8 bytes.
 */
module Win {
  import opened Wrappers
  import opened Bytes
  import opened Unicode
  import opened Utf8
  import opened Bom
  import opened Errors
  import opened Encoding
  import opened Utf
  import opened Codepage
  import opened Wide
  import opened WinWide
  import LossyUtf = DecodeLossy

  /** `convert_lossy`: the bridge with `ignore_bom` off, so an order-less UTF-16/32 target always gets its mark. */
  function ConvertLossy(input: seq<byte>, from: string, to: string, toWide: ToWide, fromWide: FromWide)
    : (r: Result<seq<byte>, ConvertLossyError>)
    ensures EncodingToCodepage(from).None? ==> r == Err(LossyUnknownFromEncoding)
    ensures EncodingToCodepage(from).Some? && EncodingToCodepage(to).None? ==> r == Err(LossyUnknownToEncoding)
    ensures
      && EncodingToCodepage(from).Some? && EncodingToCodepage(to).Some?
      && EncodingToCodepage(from) != EncodingToCodepage(to)
      && IsEncodingByteOrderAmbiguous(to)
      && DecodedWide(input, EncodingToCodepage(from).value, toWide).Ok?
      && (IsUtf16Codepage(EncodingToCodepage(to).value) || IsUtf32Codepage(EncodingToCodepage(to).value))
      ==> var toCp := EncodingToCodepage(to).value;
          r.Ok? && BomBytes(if IsUtf16Codepage(toCp) then 16 else 32, toCp == CodepageUtf16 || toCp == CodepageUtf32) <= r.value
  {
    OrderlessTargetMarked(input, from, to, toWide, fromWide);
    ConvertedLossy(input, from, to, false, toWide, fromWide)
  }

  /** With `ignore_bom` off, an order-less UTF-16/32 target's output starts with the target's mark. */
  lemma OrderlessTargetMarked(input: seq<byte>, from: string, to: string, toWide: ToWide, fromWide: FromWide)
    ensures
      && EncodingToCodepage(from).Some? && EncodingToCodepage(to).Some?
      && EncodingToCodepage(from) != EncodingToCodepage(to)
      && IsEncodingByteOrderAmbiguous(to)
      && DecodedWide(input, EncodingToCodepage(from).value, toWide).Ok?
      && (IsUtf16Codepage(EncodingToCodepage(to).value) || IsUtf32Codepage(EncodingToCodepage(to).value))
      ==> var toCp := EncodingToCodepage(to).value;
          var r := ConvertedLossy(input, from, to, false, toWide, fromWide);
          r.Ok? && BomBytes(if IsUtf16Codepage(toCp) then 16 else 32, toCp == CodepageUtf16 || toCp == CodepageUtf32) <= r.value
  {
    if
      && EncodingToCodepage(from).Some? && EncodingToCodepage(to).Some?
      && EncodingToCodepage(from) != EncodingToCodepage(to)
      && IsEncodingByteOrderAmbiguous(to)
      && DecodedWide(input, EncodingToCodepage(from).value, toWide).Ok?
      && (IsUtf16Codepage(EncodingToCodepage(to).value) || IsUtf32Codepage(EncodingToCodepage(to).value))
    {
      IgnoreBomDropsOnlyTheMark(input, from, to, toWide, fromWide);
    }
  }

  /** `decode_lossy`: UTF-16 labels first, then UTF-32 labels without a kept mark, then the bridge to "utf-8". */
  function DecodeLossy(input: seq<byte>, encoding: string, toWide: ToWide, fromWide: FromWide)
    : (r: Result<seq<byte>, ConvertLossyError>)
    ensures MatchEncodingParts(encoding, 0, ["utf", "16"]).Some? ==>
      r == Ok(Encode8(TryDecodeUtf16Lossy(input, encoding).value))
    ensures MatchEncodingParts(encoding, 0, ["utf", "16"]).None? && MatchEncodingParts(encoding, 0, ["utf", "32"]).Some? ==>
      r == Ok(Encode8(TryDecodeUtf32Lossy(input, encoding, false).value))
    ensures MatchEncodingParts(encoding, 0, ["utf", "16"]).None? && MatchEncodingParts(encoding, 0, ["utf", "32"]).None? ==>
      r == ConvertedLossy(input, encoding, "utf-8", true, toWide, fromWide)
  {
    match TryDecodeUtf16Lossy(input, encoding)
    case Some(s) => Ok(Encode8(s))
    case None =>
      match TryDecodeUtf32Lossy(input, encoding, false)
      case Some(s) => Ok(Encode8(s))
      case None => ConvertedLossy(input, encoding, "utf-8", true, toWide, fromWide)
  }

  // ---------------------------------------------------------------------
  // Properties.

  lemma Utf8LabelCodepage()
    ensures EncodingToCodepage("utf-8") == Some(CodepageUtf8)
  {
    assert Lower("utf-")[..3] == "utf";
    assert "utf-8" == "utf-" + "8";
    UtfShortLabels("utf-8", "utf-", "8");
  }

  /**
   * The fallback never adds a mark: a label with a code page other than
   * UTF-8 whose input decodes to some units gets exactly the bytes
   * `WideCharToMultiByte` produces for them.
   */
  lemma FallbackAddsNoMark(input: seq<byte>, encoding: string, toWide: ToWide, fromWide: FromWide)
    requires MatchEncodingParts(encoding, 0, ["utf", "16"]).None? && MatchEncodingParts(encoding, 0, ["utf", "32"]).None?
    requires EncodingToCodepage(encoding).Some? && EncodingToCodepage(encoding).value != CodepageUtf8
    requires DecodedWide(input, EncodingToCodepage(encoding).value, toWide).Ok?
    requires DecodedWide(input, EncodingToCodepage(encoding).value, toWide).value != []
    ensures var w := DecodedWide(input, EncodingToCodepage(encoding).value, toWide).value;
      DecodeLossy(input, encoding, toWide, fromWide)
      == match fromWide(CodepageUtf8, w) case None => Err(LossyUnknownToEncoding) case Some(b) => Ok(b)
  {
    Utf8LabelCodepage();
    var cp := EncodingToCodepage(encoding).value;
    assert !IsUtf16Codepage(CodepageUtf8) && !IsUtf32Codepage(CodepageUtf8);
    var w := DecodedWide(input, cp, toWide).value;
    var e := EncodedWide(w, CodepageUtf8, false, fromWide);
    assert e == match fromWide(CodepageUtf8, w) case None => Err(LossyUnknownToEncoding) case Some(b) => Ok([] + b);
    if fromWide(CodepageUtf8, w).Some? {
      assert [] + fromWide(CodepageUtf8, w).value == fromWide(CodepageUtf8, w).value;
    }
  }

  /** "utf-8" is neither a UTF-16 nor a UTF-32 label: after "utf-" the next part fails on '8'. */
  lemma Utf8LabelIsNotWide()
    ensures MatchEncodingParts("utf-8", 0, ["utf", "16"]).None?
    ensures MatchEncodingParts("utf-8", 0, ["utf", "32"]).None?
  {
    assert TrimEncodingPrefix("utf-8", 0, "utf") == Some(4);
    MatchPartsCons("utf-8", 0, "utf", ["16"]);
    MatchPartsCons("utf-8", 0, "utf", ["32"]);
    MatchMismatch("utf-8", 4, ["16"]);
    MatchMismatch("utf-8", 4, ["32"]);
  }

  /** Under "utf-8" the bridge converts between equal code pages, so the input is returned as it is. */
  lemma Utf8LabelCopies(input: seq<byte>, toWide: ToWide, fromWide: FromWide)
    ensures DecodeLossy(input, "utf-8", toWide, fromWide) == Ok(input)
  {
    Utf8LabelIsNotWide();
    Utf8LabelCodepage();
  }

  /** Empty input under any other label with a code page decodes to the empty text. */
  lemma EmptyFallbackIsEmpty(encoding: string, toWide: ToWide, fromWide: FromWide)
    requires MatchEncodingParts(encoding, 0, ["utf", "16"]).None? && MatchEncodingParts(encoding, 0, ["utf", "32"]).None?
    requires EncodingToCodepage(encoding).Some?
    ensures DecodeLossy([], encoding, toWide, fromWide) == Ok([])
  {
    Utf8LabelCodepage();
    var cp := EncodingToCodepage(encoding).value;
    assert AfterMarker([], cp) == [];
    assert !IsUtf16Codepage(CodepageUtf8) && !IsUtf32Codepage(CodepageUtf8);
    if cp != CodepageUtf8 {
      if IsUtf32Codepage(cp) {
        assert Shim([]) == WinWide.Zeros(4);
      }
      assert DecodedWide([], cp, toWide) == Ok([]);
    }
  }

  /** An empty GB18030 input decodes to the empty text. */
  lemma EmptyGb18030(toWide: ToWide, fromWide: FromWide)
    ensures DecodeLossy([], "gb18030", toWide, fromWide) == Ok([])
  {
    MatchMismatch("gb18030", 0, ["utf", "16"]);
    MatchMismatch("gb18030", 0, ["utf", "32"]);
    assert "gb18030" == "gb" + "18030";
    GbLabels("gb18030", "gb", "18030");
    EmptyFallbackIsEmpty("gb18030", toWide, fromWide);
  }

  /** A label the UTF parser reads as UTF-32 is not taken for a UTF-16 label. */
  lemma Utf32LabelIsNotUtf16(name: string, e: UtfEncoding)
    requires Parse(name) == Some(e) && e.ty == Utf32
    ensures MatchEncodingParts(name, 0, ["utf", "16"]).None?
  {
    var p := TrimEncodingPrefix(name, 0, "utf").value;
    assert ParseType(name, p) == Some(Utf32);
    MatchPartsCons(name, 0, "utf", ["16"]);
  }

  /** Every label the UTF parser reads as UTF-16 is decoded by the crate, never by the bridge. */
  lemma Utf16LabelsDecodedInCrate(input: seq<byte>, name: string, e: UtfEncoding, toWide: ToWide, fromWide: FromWide)
    requires Parse(name) == Some(e) && e.ty == Utf16
    requires e.byteOrder == NotPresent || GetUtf16Bom(input) == NotPresent
    ensures DecodeLossy(input, name, toWide, fromWide) == Ok(Encode8(LossyUtf.DecodeUtfLossy(input, e)))
  {
    Utf16AgreesWithLabelDecoder(input, name, e);
  }

  /** UTF-32 text with a mark decodes under any UTF-32 label, and the mark is not kept. */
  lemma Utf32MarkedDecodesWithoutMark(s: string, name: string, e: UtfEncoding, le: bool, toWide: ToWide, fromWide: FromWide)
    requires Parse(name) == Some(e) && e.ty == Utf32
    ensures DecodeLossy(BomBytes(32, le) + Bytes32(Encode32(s), le), name, toWide, fromWide) == Ok(Encode8(s))
  {
    Utf32LabelIsNotUtf16(name, e);
    var _ := ParsedLabelMatches(name, e);
    Utf32MarkedRoundTrip(s, name, le);
  }
}
