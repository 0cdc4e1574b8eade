/**
 * Conversions between byte strings in UTF-16/UTF-32 and the Windows "wide"
 * representation, a sequence of UTF-16 code units (src/sys/win/utf16.rs and
 * src/sys/win/utf32.rs). The `bytes_to_num` closure the source passes is one
 * of the std byte-order conversions, modelled by the flag `le`.
 */
module WinUtf {
  import opened Wrappers
  import opened Bytes
  import opened Unicode
  import opened Errors
  import opened Decode
  import opened DecodeLossy

  /** `utf16_to_wide_lossy`: whole 2-byte chunks become units; an odd last byte is dropped, not replaced. */
  function Utf16ToWideLossy(input: seq<byte>, le: bool): (r: seq<u16>)
    ensures |r| == |input| / 2
    ensures forall i :: 0 <= i < |r| ==> r[i] == U16From(input[2 * i], input[2 * i + 1], le)
  {
    Units16(input, le)
  }

  /** `utf32_to_wide_lossy` (src/sys/win/utf32.rs): a non-empty partial chunk adds one unit 0xFFFD. */
  function Utf32ToWideLossy(input: seq<byte>, le: bool): (r: seq<u16>)
    ensures r == Encode16(DecodeUtf32LossyInner(input, le))
    ensures Decode16(r) == Some(DecodeUtf32LossyInner(input, le))
  {
    var text := Decode32Lossy(Units32(input, le));
    var tail: string := if |input| % 4 != 0 then [Replacement] else [];
    Encode16Append(text, tail);
    assert Encode16(tail) == (if |input| % 4 != 0 then [0xFFFD] else []) by {
      if tail != [] {
        assert tail[1..] == [];
      }
    }
    Decode16OfEncode16(DecodeUtf32LossyInner(input, le));
    Encode16(text) + (if |input| % 4 != 0 then [0xFFFD] else [])
  }

  /** `utf32_to_wide`: `InvalidInput` on a partial chunk or on a unit that is not a scalar value. */
  function Utf32ToWide(input: seq<byte>, le: bool): (r: Result<seq<u16>, ConvertError>)
    ensures r.Err? ==> r.error == InvalidInput
    ensures r.Ok? <==> |input| % 4 == 0 && forall i :: 0 <= i < |input| / 4 ==> IsScalar(Units32(input, le)[i])
    ensures r.Ok? ==> DecodeUtf32Inner(input, le).Ok? && Decode16(r.value) == Some(DecodeUtf32Inner(input, le).value)
  {
    if |input| % 4 != 0 then Err(InvalidInput)
    else
      var units := Units32(input, le);
      match Decode32(units)
      case None =>
        var k :| 0 <= k < |units| && !IsScalar(units[k]);
        assert k < |input| / 4 && !IsScalar(Units32(input, le)[k]);
        Err(InvalidInput)
      case Some(s) =>
        Decode16OfEncode16(s);
        Ok(Encode16(s))
  }

  /** `wide_to_utf32_lossy`: each unpaired surrogate becomes U+FFFD, every character four bytes. */
  function WideToUtf32Lossy(units: seq<u16>, le: bool): (r: seq<byte>)
    ensures |r| % 4 == 0 && |r| <= 4 * |units|
    ensures DecodeUtf32Inner(r, le) == Ok(Decode16Lossy(units))
  {
    var s := Decode16Lossy(units);
    Units32OfBytes32(Encode32(s), le);
    Decode32OfEncode32(s);
    Bytes32(Encode32(s), le)
  }

  /** `wide_to_utf32`: `InvalidInput` exactly when the units hold an unpaired surrogate. */
  function WideToUtf32(units: seq<u16>, le: bool): (r: Result<seq<byte>, ConvertError>)
    ensures r.Err? ==> r.error == InvalidInput
    ensures r.Ok? <==> Decode16(units).Some?
    ensures r.Ok? ==> DecodeUtf32Inner(r.value, le) == Ok(Decode16(units).value)
  {
    match Decode16(units)
    case None => Err(InvalidInput)
    case Some(s) =>
      Units32OfBytes32(Encode32(s), le);
      Decode32OfEncode32(s);
      Ok(Bytes32(Encode32(s), le))
  }

  // ---------------------------------------------------------------------
  // Properties.

  /** The wide units, written back in the same byte order, give the input up to its odd byte. */
  lemma Utf16ToWideKeepsBytes(input: seq<byte>, le: bool)
    ensures Bytes16(Utf16ToWideLossy(input, le), le) == input[..|input| / 2 * 2]
  {
    Bytes16OfUnits16(input, le);
  }

  /** An odd trailing byte adds nothing, in particular no 0xFFFD. */
  lemma Utf16ToWideDropsOddByte(input: seq<byte>, b: byte, le: bool)
    requires |input| % 2 == 0
    ensures Utf16ToWideLossy(input + [b], le) == Utf16ToWideLossy(input, le)
  {
    Units16IgnoresOddByte(input, b, le);
  }

  /** A partial chunk of one to three bytes adds exactly one 0xFFFD unit. */
  lemma {:induction false} Utf32ToWidePartialChunk(input: seq<byte>, tail: seq<byte>, le: bool)
    requires |input| % 4 == 0 && 1 <= |tail| <= 3
    ensures Utf32ToWideLossy(input + tail, le) == Utf32ToWideLossy(input, le) + [0xFFFD]
  {
    var whole := input + tail;
    assert Units32(whole, le) == Units32(input, le) by {
      PrefixUnits32(input, tail, le);
    }
    var text := Decode32Lossy(Units32(input, le));
    assert DecodeUtf32LossyInner(whole, le) == text + [Replacement];
    assert DecodeUtf32LossyInner(input, le) == text;
    Encode16Append(text, [Replacement]);
    assert Encode16([Replacement]) == [0xFFFD] by {
      assert [Replacement][1..] == [];
    }
  }

  lemma PrefixUnits32(input: seq<byte>, tail: seq<byte>, le: bool)
    requires |input| % 4 == 0 && |tail| < 4
    ensures Units32(input + tail, le) == Units32(input, le)
  {
    var a := Units32(input + tail, le);
    var b := Units32(input, le);
    assert |a| == |b|;
    forall i | 0 <= i < |a|
      ensures a[i] == b[i]
    {
      assert 4 * i + 3 < |input|;
    }
  }

  /** Where the strict conversion succeeds, the lossy one gives the same units. */
  lemma Utf32ToWideLossyAgrees(input: seq<byte>, le: bool)
    requires Utf32ToWide(input, le).Ok?
    ensures Utf32ToWideLossy(input, le) == Utf32ToWide(input, le).value
  {
    var s := DecodeUtf32Inner(input, le).value;
    Utf32LossyAgrees(input, le);
    Encode16OfDecode16(Utf32ToWide(input, le).value);
  }

  lemma WideToUtf32LossyAgrees(units: seq<u16>, le: bool)
    requires WideToUtf32(units, le).Ok?
    ensures WideToUtf32Lossy(units, le) == WideToUtf32(units, le).value
  {
    Decode16LossyAgrees(units);
  }

  /** Valid UTF-32 survives the trip through wide units unchanged. */
  lemma Utf32WideRoundTrip(input: seq<byte>, le: bool)
    requires Utf32ToWide(input, le).Ok?
    ensures WideToUtf32(Utf32ToWide(input, le).value, le) == Ok(input)
  {
    var s := DecodeUtf32Inner(input, le).value;
    var w := Utf32ToWide(input, le).value;
    assert Decode16(w) == Some(s);
  }

  /** Well-formed wide units survive the trip through UTF-32 unchanged. */
  lemma WideUtf32RoundTrip(units: seq<u16>, le: bool)
    requires WideToUtf32(units, le).Ok?
    ensures Utf32ToWide(WideToUtf32(units, le).value, le) == Ok(units)
  {
    var b := WideToUtf32(units, le).value;
    var w := Utf32ToWide(b, le).value;
    Encode16OfDecode16(units);
    Encode16OfDecode16(w);
  }
}
