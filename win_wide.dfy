/**
 * The Windows conversion bridge (src/sys/win/wide.rs): the input is decoded
 * into UTF-16 "wide" units, then encoded into the target codepage. The
 * UTF-16 and UTF-32 codepages are handled in the crate; every other codepage
 * goes through `MultiByteToWideChar` / `WideCharToMultiByte`, which appear
 * here as the function parameters `toWide` / `fromWide` (`None` stands for
 * the size query returning zero or less).
 */
module WinWide {
  import opened Wrappers
  import opened Bytes
  import opened Unicode
  import opened Bom
  import opened Errors
  import opened Utf
  import opened Codepage
  import opened Decode
  import opened DecodeLossy
  import opened WinUtf

  type ToWide = (u32, seq<byte>) -> Option<seq<u16>>
  type FromWide = (u32, seq<u16>) -> Option<seq<byte>>

  predicate IsUtf16Codepage(cp: u32) { cp == CodepageUtf16 || cp == CodepageUtf16Be }
  predicate IsUtf32Codepage(cp: u32) { cp == CodepageUtf32 || cp == CodepageUtf32Be }

  // ---------------------------------------------------------------------
  // The local `utf32_to_wide_lossy`: a partial last chunk is zero-padded
  // into a four-byte `shim` and decoded, unless the shim is all zero.

  function Zeros(n: nat): (z: seq<byte>)
    ensures |z| == n && forall i :: 0 <= i < n ==> z[i] == 0
  {
    if n == 0 then [] else [0] + Zeros(n - 1)
  }

  /** The bytes after the last whole chunk, zero-padded to four. */
  function Shim(input: seq<byte>): (s: seq<byte>)
    ensures |s| == 4
    ensures s[..|input| % 4] == input[|input| / 4 * 4..]
    ensures forall i :: |input| % 4 <= i < 4 ==> s[i] == 0
  {
    input[|input| / 4 * 4..] + Zeros(4 - |input| % 4)
  }

  /** The text the padded decoder yields: one character per whole chunk, then one for a non-zero shim. */
  function PaddedText(input: seq<byte>, le: bool): (t: string)
    ensures |t| == |input| / 4 + (if Shim(input) != Zeros(4) then 1 else 0)
    ensures t[..|input| / 4] == Decode32Lossy(Units32(input, le))
  {
    var s := Shim(input);
    Decode32Lossy(Units32(input, le))
      + (if s != Zeros(4) then Decode32Lossy([U32From(s[0], s[1], s[2], s[3], le)]) else [])
  }

  /** `utf32_to_wide_lossy` of src/sys/win/wide.rs, with its byte-by-byte copy into `shim`. */
  method PaddedUtf32ToWide(input: seq<byte>, le: bool) returns (res: seq<u16>)
    ensures res == Encode16(PaddedText(input, le))
  {
    var text := Decode32Lossy(Units32(input, le));
    res := Encode16(text);
    var rest := input[|input| / 4 * 4..];
    var shim := new byte[4](_ => 0);
    for i := 0 to |rest|
      invariant forall k :: 0 <= k < 4 ==> shim[k] == if k < i then rest[k] else 0
    {
      shim[i] := rest[i];
    }
    ShimIs(input, shim[..]);
    if shim[..] != Zeros(4) {
      var tail := Decode32Lossy([U32From(shim[0], shim[1], shim[2], shim[3], le)]);
      assert PaddedText(input, le) == text + tail by {
        var sh := Shim(input);
        assert sh[0] == shim[0] && sh[1] == shim[1] && sh[2] == shim[2] && sh[3] == shim[3];
      }
      Encode16Append(text, tail);
      res := res + Encode16(tail);
      assert res == Encode16(text + tail);
    } else {
      assert PaddedText(input, le) == text + [] == text;
    }
  }

  lemma ShimIs(input: seq<byte>, s: seq<byte>)
    requires |s| == 4
    requires forall k :: 0 <= k < 4 ==> s[k] == if k < |input| % 4 then input[|input| / 4 * 4 + k] else 0
    ensures s == Shim(input)
  {
    var t := Shim(input);
    forall k | 0 <= k < 4
      ensures s[k] == t[k]
    {
      if k < |input| % 4 {
        assert t[..|input| % 4][k] == t[k];
      }
    }
  }

  // ---------------------------------------------------------------------
  // `decode_wide_lossy`.

  /** Whether `decode_wide_lossy` finds, and strips, a byte-order mark at the head of `input`. */
  predicate MarkerFound(input: seq<byte>, cp: u32)
  {
    if cp == CodepageUtf8 then GetUtf8Bom(input) == Le
    else if IsUtf16Codepage(cp) then IsPresent(GetUtf16Bom(input))
    else if IsUtf32Codepage(cp) then IsPresent(GetUtf32Bom(input))
    else false
  }

  function MarkerLength(cp: u32): (n: nat)
  {
    if cp == CodepageUtf8 then 3 else if IsUtf16Codepage(cp) then 2 else 4
  }

  /** The input once a found mark is stripped. */
  function AfterMarker(input: seq<byte>, cp: u32): (rest: seq<byte>)
    ensures MarkerFound(input, cp) ==> |input| >= MarkerLength(cp) && input == input[..MarkerLength(cp)] + rest
    ensures !MarkerFound(input, cp) ==> rest == input
  {
    if MarkerFound(input, cp) then input[MarkerLength(cp)..] else input
  }

  /**
   * The byte order of the UTF-16/32 branches: the codepage's own, switched to
   * big-endian by a big-endian mark. A little-endian mark is stripped but does
   * not switch a big-endian codepage.
   */
  predicate SourceIsLe(input: seq<byte>, cp: u32)
  {
    if IsUtf16Codepage(cp) then cp == CodepageUtf16 && GetUtf16Bom(input) != Be
    else cp == CodepageUtf32 && GetUtf32Bom(input) != Be
  }

  /** The units `decode_wide_lossy` returns. Only a failing native size query is an error. */
  function DecodedWide(input: seq<byte>, cp: u32, toWide: ToWide): (r: Result<seq<u16>, ConvertLossyError>)
    ensures r.Err? ==>
      r.error == LossyUnknownFromEncoding && !IsUtf16Codepage(cp) && !IsUtf32Codepage(cp)
      && AfterMarker(input, cp) != [] && toWide(cp, AfterMarker(input, cp)).None?
    ensures IsUtf16Codepage(cp) ==> r.Ok? && |r.value| == |AfterMarker(input, cp)| / 2
    ensures !IsUtf16Codepage(cp) && !IsUtf32Codepage(cp) && AfterMarker(input, cp) == [] ==> r == Ok([])
  {
    var rest := AfterMarker(input, cp);
    if IsUtf16Codepage(cp) then Ok(Utf16ToWideLossy(rest, SourceIsLe(input, cp)))
    else if IsUtf32Codepage(cp) then Ok(Encode16(PaddedText(rest, SourceIsLe(input, cp))))
    else if rest == [] then Ok([])
    else
      match toWide(cp, rest)
      case None => Err(LossyUnknownFromEncoding)
      case Some(w) => Ok(w)
  }

  /**
   * `decode_wide_lossy`: `preserveBom` is the caller's flag, returned cleared
   * unless a mark was found and stripped.
   */
  method DecodeWideLossy(input: seq<byte>, codepage: u32, preserveBom: bool, toWide: ToWide)
    returns (r: Result<seq<u16>, ConvertLossyError>, preserve: bool)
    ensures preserve == (preserveBom && MarkerFound(input, codepage))
    ensures r == DecodedWide(input, codepage, toWide)
  {
    var rest := input;
    preserve := preserveBom;
    if codepage == CodepageUtf8 {
      if |rest| >= 3 && rest[..3] == [0xEF, 0xBB, 0xBF] {
        rest := rest[3..];
      } else {
        preserve := false;
      }
    } else if IsUtf16Codepage(codepage) {
      var isLe := codepage == CodepageUtf16;
      if |rest| >= 2 && rest[..2] == [0xFF, 0xFE] {
        rest := rest[2..];
      } else if |rest| >= 2 && rest[..2] == [0xFE, 0xFF] {
        isLe := false;
        rest := rest[2..];
      } else {
        preserve := false;
      }
      r := Ok(Utf16ToWideLossy(rest, isLe));
      return;
    } else if IsUtf32Codepage(codepage) {
      var isLe := codepage == CodepageUtf32;
      if |rest| >= 4 && rest[..4] == [0xFF, 0xFE, 0x00, 0x00] {
        rest := rest[4..];
      } else if |rest| >= 4 && rest[..4] == [0x00, 0x00, 0xFE, 0xFF] {
        isLe := false;
        rest := rest[4..];
      } else {
        preserve := false;
      }
      var wide := PaddedUtf32ToWide(rest, isLe);
      r := Ok(wide);
      return;
    } else {
      preserve := false;
    }
    if rest == [] {
      r := Ok([]);
      return;
    }
    match toWide(codepage, rest)
    case None =>
      r := Err(LossyUnknownFromEncoding);
    case Some(w) =>
      r := Ok(w);
  }

  // ---------------------------------------------------------------------
  // `encode_wide`.

  /** The bytes `encode_wide` returns. Only a failing native size query is an error. */
  function EncodedWide(units: seq<u16>, cp: u32, addBom: bool, fromWide: FromWide): (r: Result<seq<byte>, ConvertLossyError>)
    ensures r.Err? ==>
      r.error == LossyUnknownToEncoding && !IsUtf16Codepage(cp) && !IsUtf32Codepage(cp)
      && units != [] && fromWide(cp, units).None?
    ensures IsUtf16Codepage(cp) ==> r.Ok? && |r.value| == 2 * |units| + (if addBom then 2 else 0)
    ensures IsUtf32Codepage(cp) ==> r.Ok? && |r.value| % 4 == 0
    ensures !IsUtf16Codepage(cp) && !IsUtf32Codepage(cp) && units == [] ==> r == Ok([])
  {
    if IsUtf16Codepage(cp) then
      var le := cp == CodepageUtf16;
      Ok((if addBom then BomBytes(16, le) else []) + Bytes16(units, le))
    else if IsUtf32Codepage(cp) then
      var le := cp == CodepageUtf32;
      Ok((if addBom then BomBytes(32, le) else []) + WideToUtf32Lossy(units, le))
    else if units == [] then Ok([])
    else
      match fromWide(cp, units)
      case None => Err(LossyUnknownToEncoding)
      case Some(b) => Ok((if cp == CodepageUtf8 && addBom then Utf8Bom else []) + b)
  }

  /** `encode_wide`, appending to `output` as the source does. */
  method EncodeWide(units: seq<u16>, codepage: u32, addBom: bool, fromWide: FromWide)
    returns (r: Result<seq<byte>, ConvertLossyError>)
    ensures r == EncodedWide(units, codepage, addBom, fromWide)
  {
    if IsUtf16Codepage(codepage) {
      var isLe := codepage == CodepageUtf16;
      var output: seq<byte> := [];
      if isLe {
        if addBom {
          output := output + [0xFF, 0xFE];
        }
        output := output + Bytes16(units, true);
        assert output == (if addBom then BomBytes(16, true) else []) + Bytes16(units, true);
      } else {
        if addBom {
          output := output + [0xFE, 0xFF];
        }
        output := output + Bytes16(units, false);
        assert output == (if addBom then BomBytes(16, false) else []) + Bytes16(units, false);
      }
      return Ok(output);
    }
    if IsUtf32Codepage(codepage) {
      var isLe := codepage == CodepageUtf32;
      var output: seq<byte> := [];
      if isLe {
        if addBom {
          output := output + [0xFF, 0xFE, 0x00, 0x00];
        }
        output := output + WideToUtf32Lossy(units, true);
        assert output == (if addBom then BomBytes(32, true) else []) + WideToUtf32Lossy(units, true);
      } else {
        if addBom {
          output := output + [0x00, 0x00, 0xFE, 0xFF];
        }
        output := output + WideToUtf32Lossy(units, false);
        assert output == (if addBom then BomBytes(32, false) else []) + WideToUtf32Lossy(units, false);
      }
      return Ok(output);
    }
    var output: seq<byte> := [];
    if codepage == CodepageUtf8 && addBom {
      output := output + [0xEF, 0xBB, 0xBF];
    }
    assert output == if codepage == CodepageUtf8 && addBom then Utf8Bom else [];
    if units == [] {
      return Ok([]);
    }
    match fromWide(codepage, units)
    case None =>
      r := Err(LossyUnknownToEncoding);
    case Some(b) =>
      output := output + b;
      r := Ok(output);
  }

  // ---------------------------------------------------------------------
  // `convert_lossy`.

  /** `add_bom` before `ignore_bom` applies: the source label fixed its order and carried a mark, or the target label leaves the order open. */
  predicate AddsBom(input: seq<byte>, from: string, to: string, fromCp: u32)
  {
    (!IsEncodingByteOrderAmbiguous(from) && MarkerFound(input, fromCp)) || IsEncodingByteOrderAmbiguous(to)
  }

  /** What `convert_lossy` returns. */
  function ConvertedLossy(input: seq<byte>, from: string, to: string, ignoreBom: bool, toWide: ToWide, fromWide: FromWide)
    : (r: Result<seq<byte>, ConvertLossyError>)
    ensures EncodingToCodepage(from).None? ==> r == Err(LossyUnknownFromEncoding)
    ensures EncodingToCodepage(from).Some? && EncodingToCodepage(to).None? ==> r == Err(LossyUnknownToEncoding)
    ensures EncodingToCodepage(from).Some? && EncodingToCodepage(from) == EncodingToCodepage(to) ==> r == Ok(input)
  {
    match EncodingToCodepage(from)
    case None => Err(LossyUnknownFromEncoding)
    case Some(fromCp) =>
      match EncodingToCodepage(to)
      case None => Err(LossyUnknownToEncoding)
      case Some(toCp) =>
        if fromCp == toCp then Ok(input)
        else
          match DecodedWide(input, fromCp, toWide)
          case Err(e) => Err(e)
          case Ok(wide) => EncodedWide(wide, toCp, AddsBom(input, from, to, fromCp) && !ignoreBom, fromWide)
  }

  /** `convert_lossy` of src/sys/win/wide.rs. */
  method ConvertLossy(input: seq<byte>, from: string, to: string, ignoreBom: bool, toWide: ToWide, fromWide: FromWide)
    returns (r: Result<seq<byte>, ConvertLossyError>)
    ensures r == ConvertedLossy(input, from, to, ignoreBom, toWide, fromWide)
  {
    var fromCp := EncodingToCodepage(from);
    if fromCp.None? {
      return Err(LossyUnknownFromEncoding);
    }
    var toCp := EncodingToCodepage(to);
    if toCp.None? {
      return Err(LossyUnknownToEncoding);
    }
    if fromCp.value == toCp.value {
      return Ok(input);
    }
    var preserveBom := !IsEncodingByteOrderAmbiguous(from);
    var wide;
    wide, preserveBom := DecodeWideLossy(input, fromCp.value, preserveBom, toWide);
    if wide.Err? {
      return Err(wide.error);
    }
    var addBom := preserveBom || IsEncodingByteOrderAmbiguous(to);
    r := EncodeWide(wide.value, toCp.value, addBom && !ignoreBom, fromWide);
  }

  // ---------------------------------------------------------------------
  // Properties.

  /** The shim is non-zero exactly when some byte after the last whole chunk is. */
  lemma ShimNonZero(input: seq<byte>)
    ensures Shim(input) != Zeros(4) <==> exists i :: |input| / 4 * 4 <= i < |input| && input[i] != 0
  {
    var s := Shim(input);
    var k := |input| / 4 * 4;
    if s != Zeros(4) {
      var j :| 0 <= j < 4 && s[j] != Zeros(4)[j];
      assert j < |input| % 4;
      assert s[..|input| % 4][j] == input[k + j];
    } else {
      forall i | k <= i < |input|
        ensures input[i] == 0
      {
        assert s[..|input| % 4][i - k] == input[k..][i - k];
      }
    }
  }

  /** On input made of whole chunks, the padded decoder agrees with `utf32_to_wide_lossy` of src/sys/win/utf32.rs. */
  lemma PaddedAgreesOnWholeChunks(input: seq<byte>, le: bool)
    requires |input| % 4 == 0
    ensures Encode16(PaddedText(input, le)) == Utf32ToWideLossy(input, le)
  {
    assert Shim(input) == Zeros(4);
    assert PaddedText(input, le) == DecodeUtf32LossyInner(input, le);
  }

  /**
   * On a partial chunk the two Windows UTF-32 decoders differ: one byte 0x41
   * decodes to "A" here and to U+FFFD in src/sys/win/utf32.rs, and a lone
   * zero byte decodes to nothing here.
   */
  lemma PaddedDiffersOnPartialChunk()
    ensures PaddedText([0x41], true) == "A"
    ensures Utf32ToWideLossy([0x41], true) == [0xFFFD]
    ensures PaddedText([0x00], true) == ""
  {
    assert Shim([0x41]) == [0x41, 0, 0, 0];
    assert Shim([0x00]) == Zeros(4);
    assert Units32([0x41], true) == [];
    assert Encode16([Replacement]) == [0xFFFD] by {
      assert [Replacement][1..] == [];
    }
    assert DecodeUtf32LossyInner([0x41], true) == [Replacement];
  }

  /** A mark of the source codepage's own order is stripped and sets that order. */
  lemma OwnMarkerStripped(body: seq<byte>, cp: u32)
    requires IsUtf16Codepage(cp) || IsUtf32Codepage(cp)
    ensures var m := BomBytes(if IsUtf16Codepage(cp) then 16 else 32, cp == CodepageUtf16 || cp == CodepageUtf32);
      MarkerFound(m + body, cp) && AfterMarker(m + body, cp) == body
      && SourceIsLe(m + body, cp) == (cp == CodepageUtf16 || cp == CodepageUtf32)
  {
    DetectsOwnMarker(body);
    var m := BomBytes(if IsUtf16Codepage(cp) then 16 else 32, cp == CodepageUtf16 || cp == CodepageUtf32);
    assert (m + body)[|m|..] == body;
  }

  /** A big-endian mark switches the little-endian codepages (those of "utf-16" and "utf-32") to big-endian. */
  lemma BeMarkerSwitchesOrder(body: seq<byte>)
    ensures MarkerFound(Utf16BeBom + body, CodepageUtf16) && !SourceIsLe(Utf16BeBom + body, CodepageUtf16)
    ensures AfterMarker(Utf16BeBom + body, CodepageUtf16) == body
    ensures MarkerFound(Utf32BeBom + body, CodepageUtf32) && !SourceIsLe(Utf32BeBom + body, CodepageUtf32)
    ensures AfterMarker(Utf32BeBom + body, CodepageUtf32) == body
  {
    DetectsOwnMarker(body);
    assert (Utf16BeBom + body)[2..] == body;
    assert (Utf32BeBom + body)[4..] == body;
  }

  /** A little-endian mark on a big-endian codepage is stripped, but the input is still read big-endian. */
  lemma LeMarkerKeepsBigEndian(body: seq<byte>)
    ensures MarkerFound(Utf16LeBom + body, CodepageUtf16Be) && !SourceIsLe(Utf16LeBom + body, CodepageUtf16Be)
    ensures AfterMarker(Utf16LeBom + body, CodepageUtf16Be) == body
    ensures MarkerFound(Utf32LeBom + body, CodepageUtf32Be) && !SourceIsLe(Utf32LeBom + body, CodepageUtf32Be)
    ensures AfterMarker(Utf32LeBom + body, CodepageUtf32Be) == body
  {
    DetectsOwnMarker(body);
    assert (Utf16LeBom + body)[2..] == body;
    assert (Utf32LeBom + body)[4..] == body;
  }

  /** UTF-16 bytes written with a mark decode back to the same units, and the mark is reported. */
  lemma Utf16WideRoundTrip(units: seq<u16>, cp: u32, toWide: ToWide, fromWide: FromWide)
    requires IsUtf16Codepage(cp)
    ensures var b := EncodedWide(units, cp, true, fromWide).value;
      MarkerFound(b, cp) && DecodedWide(b, cp, toWide) == Ok(units)
  {
    var le := cp == CodepageUtf16;
    var body := Bytes16(units, le);
    OwnMarkerStripped(body, cp);
    Units16OfBytes16(units, le);
  }

  /** UTF-32 bytes written with a mark decode back to well-formed units, and the mark is reported. */
  lemma Utf32WideRoundTrip(units: seq<u16>, cp: u32, toWide: ToWide, fromWide: FromWide)
    requires IsUtf32Codepage(cp) && Decode16(units).Some?
    ensures var b := EncodedWide(units, cp, true, fromWide).value;
      MarkerFound(b, cp) && DecodedWide(b, cp, toWide) == Ok(units)
  {
    var le := cp == CodepageUtf32;
    var body := WideToUtf32Lossy(units, le);
    OwnMarkerStripped(body, cp);
    var s := Decode16Lossy(units);
    assert DecodeUtf32Inner(body, le) == Ok(s);
    Utf32LossyAgrees(body, le);
    PaddedAgreesOnWholeChunks(body, le);
    Decode16LossyAgrees(units);
    Encode16OfDecode16(units);
  }

  /**
   * Between two different UTF-16/32 codepages, the output is the target's
   * mark when the policy asks for one, then the decoded units in the target
   * codepage.
   */
  lemma UtfTargetLayout(input: seq<byte>, from: string, to: string, ignoreBom: bool, toWide: ToWide, fromWide: FromWide)
    requires EncodingToCodepage(from).Some? && EncodingToCodepage(to).Some?
    requires EncodingToCodepage(from) != EncodingToCodepage(to)
    requires IsUtf16Codepage(EncodingToCodepage(from).value) || IsUtf32Codepage(EncodingToCodepage(from).value)
    requires IsUtf16Codepage(EncodingToCodepage(to).value) || IsUtf32Codepage(EncodingToCodepage(to).value)
    ensures var fromCp, toCp := EncodingToCodepage(from).value, EncodingToCodepage(to).value;
      var width := if IsUtf16Codepage(toCp) then 16 else 32;
      var le := toCp == CodepageUtf16 || toCp == CodepageUtf32;
      var wide := DecodedWide(input, fromCp, toWide).value;
      ConvertedLossy(input, from, to, ignoreBom, toWide, fromWide)
      == Ok((if AddsBom(input, from, to, fromCp) && !ignoreBom then BomBytes(width, le) else [])
            + (if width == 16 then Bytes16(wide, le) else WideToUtf32Lossy(wide, le)))
  {
  }

  /** `ignore_bom` removes exactly the mark: without it the output is the mark followed by the same bytes. */
  lemma IgnoreBomDropsOnlyTheMark(input: seq<byte>, from: string, to: string, toWide: ToWide, fromWide: FromWide)
    requires EncodingToCodepage(from).Some? && EncodingToCodepage(to).Some?
    requires EncodingToCodepage(from) != EncodingToCodepage(to)
    requires IsUtf16Codepage(EncodingToCodepage(to).value) || IsUtf32Codepage(EncodingToCodepage(to).value)
    requires DecodedWide(input, EncodingToCodepage(from).value, toWide).Ok?
    requires AddsBom(input, from, to, EncodingToCodepage(from).value)
    ensures var toCp := EncodingToCodepage(to).value;
      var m := BomBytes(if IsUtf16Codepage(toCp) then 16 else 32, toCp == CodepageUtf16 || toCp == CodepageUtf32);
      ConvertedLossy(input, from, to, false, toWide, fromWide).value
      == m + ConvertedLossy(input, from, to, true, toWide, fromWide).value
  {
    var fromCp, toCp := EncodingToCodepage(from).value, EncodingToCodepage(to).value;
    var wide := DecodedWide(input, fromCp, toWide).value;
    assert ConvertedLossy(input, from, to, false, toWide, fromWide) == EncodedWide(wide, toCp, true, fromWide);
    assert ConvertedLossy(input, from, to, true, toWide, fromWide) == EncodedWide(wide, toCp, false, fromWide);
    EncodedWideMark(wide, toCp, fromWide);
  }

  lemma EncodedWideMark(units: seq<u16>, cp: u32, fromWide: FromWide)
    requires IsUtf16Codepage(cp) || IsUtf32Codepage(cp)
    ensures EncodedWide(units, cp, true, fromWide).value
      == BomBytes(if IsUtf16Codepage(cp) then 16 else 32, cp == CodepageUtf16 || cp == CodepageUtf32)
         + EncodedWide(units, cp, false, fromWide).value
  {
    if IsUtf16Codepage(cp) {
      assert [] + Bytes16(units, cp == CodepageUtf16) == Bytes16(units, cp == CodepageUtf16);
    } else {
      var le := cp == CodepageUtf32;
      assert [] + WideToUtf32Lossy(units, le) == WideToUtf32Lossy(units, le);
    }
  }
}
