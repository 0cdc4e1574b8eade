/**
 * Byte-order-mark detection (src/bom.rs). The markers are those of
 * section 3.2 of RFC 2781 (UTF-16), section 6 of RFC 3629 (UTF-8) and the
 * UTF-32 serializations of U+FEFF.
 */
module Bom {
  import opened Bytes

  datatype ByteOrderMark = Le | Be | NotPresent

  const Utf8Bom: seq<byte> := [0xEF, 0xBB, 0xBF]
  const Utf16LeBom: seq<byte> := [0xFF, 0xFE]
  const Utf16BeBom: seq<byte> := [0xFE, 0xFF]
  const Utf32LeBom: seq<byte> := [0xFF, 0xFE, 0x00, 0x00]
  const Utf32BeBom: seq<byte> := [0x00, 0x00, 0xFE, 0xFF]

  predicate IsPresent(m: ByteOrderMark)
  {
    m != NotPresent
  }

  /**
   * `ByteOrderMark::is_le(default)`, which src/bom.rs does not define; its
   * call sites (src/utf/decode.rs:39, src/sys/wasm/convert.rs:65) need a
   * present mark to give its own order and an absent one to give `default`.
   */
  function IsLe(m: ByteOrderMark, default: bool): (r: bool)
    ensures m == Le ==> r
    ensures m == Be ==> !r
    ensures m == NotPresent ==> r == default
  {
    match m
    case Le => true
    case Be => false
    case NotPresent => default
  }

  function GetUtf8Bom(input: seq<byte>): (r: ByteOrderMark)
    ensures r != Be
    ensures r == Le <==> Utf8Bom <= input
  {
    if |input| >= 3 && input[..3] == Utf8Bom then Le else NotPresent
  }

  function GetUtf16Bom(input: seq<byte>): (r: ByteOrderMark)
    ensures r == Le <==> Utf16LeBom <= input
    ensures r == Be <==> Utf16BeBom <= input
    ensures |input| < 2 ==> r == NotPresent
  {
    assert Utf16BeBom <= input ==> input[0] == 0xFE;
    if |input| >= 2 && input[..2] == Utf16LeBom then Le
    else if |input| >= 2 && input[..2] == Utf16BeBom then Be
    else NotPresent
  }

  function GetUtf32Bom(input: seq<byte>): (r: ByteOrderMark)
    ensures r == Le <==> Utf32LeBom <= input
    ensures r == Be <==> Utf32BeBom <= input
    ensures |input| < 4 ==> r == NotPresent
  {
    assert Utf32BeBom <= input ==> input[0] == 0x00;
    if |input| >= 4 && input[..4] == Utf32LeBom then Le
    else if |input| >= 4 && input[..4] == Utf32BeBom then Be
    else NotPresent
  }

  /** The marker a width and order produce; its length is the width in bytes. */
  function BomBytes(width: nat, le: bool): (r: seq<byte>)
    requires width == 8 || width == 16 || width == 32
    ensures |r| == width / 8 + (if width == 8 then 2 else 0)
  {
    if width == 8 then Utf8Bom
    else if width == 16 then (if le then Utf16LeBom else Utf16BeBom)
    else if le then Utf32LeBom else Utf32BeBom
  }

  /** A detector reports a mark exactly when the input starts with one of the markers it knows. */
  lemma PresentExactlyOnMarker(input: seq<byte>)
    ensures IsPresent(GetUtf8Bom(input)) <==> Utf8Bom <= input
    ensures IsPresent(GetUtf16Bom(input)) <==> Utf16LeBom <= input || Utf16BeBom <= input
    ensures IsPresent(GetUtf32Bom(input)) <==> Utf32LeBom <= input || Utf32BeBom <= input
  {
  }

  /** Each detector recognises the marker it is asked about, whatever follows it. */
  lemma DetectsOwnMarker(rest: seq<byte>)
    ensures GetUtf8Bom(Utf8Bom + rest) == Le
    ensures GetUtf16Bom(Utf16LeBom + rest) == Le
    ensures GetUtf16Bom(Utf16BeBom + rest) == Be
    ensures GetUtf32Bom(Utf32LeBom + rest) == Le
    ensures GetUtf32Bom(Utf32BeBom + rest) == Be
  {
    assert (Utf8Bom + rest)[..3] == Utf8Bom;
    assert (Utf16LeBom + rest)[..2] == Utf16LeBom;
    assert (Utf16BeBom + rest)[..2] == Utf16BeBom;
    assert (Utf32LeBom + rest)[..4] == Utf32LeBom;
    assert (Utf32BeBom + rest)[..4] == Utf32BeBom;
  }

  /** Detection looks only at a fixed prefix: appending bytes never changes a detected mark. */
  lemma DetectionIsPrefixOnly(input: seq<byte>, more: seq<byte>)
    ensures IsPresent(GetUtf8Bom(input)) ==> GetUtf8Bom(input + more) == GetUtf8Bom(input)
    ensures IsPresent(GetUtf16Bom(input)) ==> GetUtf16Bom(input + more) == GetUtf16Bom(input)
    ensures IsPresent(GetUtf32Bom(input)) ==> GetUtf32Bom(input + more) == GetUtf32Bom(input)
  {
    if |input| >= 2 {
      assert (input + more)[..2] == input[..2];
    }
    if |input| >= 3 {
      assert (input + more)[..3] == input[..3];
    }
    if |input| >= 4 {
      assert (input + more)[..4] == input[..4];
    }
  }

  /** A UTF-32 little-endian marker starts with the UTF-16 little-endian one. */
  lemma Utf32LeMarkerIsUtf16LeMarker(input: seq<byte>)
    requires GetUtf32Bom(input) == Le
    ensures GetUtf16Bom(input) == Le
  {
    assert input[..2] == input[..4][..2];
  }
}
