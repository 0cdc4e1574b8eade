/**
 * The Web back-end's UTF-16 and UTF-32 writers (src/sys/wasm/utf16.rs and
 * src/sys/wasm/utf32.rs): an optional byte-order mark, the serialized
 * U+FEFF, then the code units of the text. The `bytes_to_num` closure is one
 * of the std byte-order conversions, modelled by the flag `le`.
 */
module WasmUtf {
  import opened Wrappers
  import opened Bytes
  import opened Unicode
  import opened Bom
  import opened Errors
  import opened Utf
  import opened Decode

  /** The bytes `string_to_utf16` returns. */
  function Utf16Bytes(s: string, addBom: bool, le: bool): (r: seq<byte>)
    ensures |r| == 2 * |Encode16(s)| + (if addBom then 2 else 0)
    ensures addBom ==> r[..2] == BomBytes(16, le)
    ensures r[if addBom then 2 else 0..] == Bytes16(Encode16(s), le)
  {
    var mark := if addBom then U16Bytes(0xFEFF, le) else [];
    assert addBom ==> mark == BomBytes(16, le);
    mark + Bytes16(Encode16(s), le)
  }

  /** The bytes `string_to_utf32` returns. */
  function Utf32Bytes(s: string, addBom: bool, le: bool): (r: seq<byte>)
    ensures |r| == 4 * |s| + (if addBom then 4 else 0)
    ensures addBom ==> r[..4] == BomBytes(32, le)
    ensures r[if addBom then 4 else 0..] == Bytes32(Encode32(s), le)
  {
    var mark := if addBom then U32Bytes(0xFEFF, le) else [];
    assert addBom ==> mark == BomBytes(32, le);
    mark + Bytes32(Encode32(s), le)
  }

  /** `string_to_utf16`: the mark first when asked for, then every unit of every character. */
  method StringToUtf16(input: string, addBom: bool, le: bool) returns (res: seq<byte>)
    ensures res == Utf16Bytes(input, addBom, le)
  {
    res := [];
    if addBom {
      res := res + U16Bytes(0xFEFF, le);
    }
    res := res + Bytes16(Encode16(input), le);
  }

  /** `string_to_utf32`: the mark first when asked for, then four bytes per character. */
  method StringToUtf32(input: string, addBom: bool, le: bool) returns (res: seq<byte>)
    ensures res == Utf32Bytes(input, addBom, le)
  {
    res := [];
    if addBom {
      res := res + U32Bytes(0xFEFF, le);
    }
    res := res + Bytes32(Encode32(input), le);
  }

  // ---------------------------------------------------------------------
  // Properties.

  /** Without a mark, strict decoding in the same byte order gives the text back. */
  lemma {:induction false} Utf16BytesRoundTrip(s: string, le: bool)
    ensures DecodeUtf16Inner(Utf16Bytes(s, false, le), le) == Ok(s)
  {
    assert Utf16Bytes(s, false, le) == Bytes16(Encode16(s), le);
    Units16OfBytes16(Encode16(s), le);
    Decode16OfEncode16(s);
  }

  lemma {:induction false} Utf32BytesRoundTrip(s: string, le: bool)
    ensures DecodeUtf32Inner(Utf32Bytes(s, false, le), le) == Ok(s)
  {
    assert Utf32Bytes(s, false, le) == Bytes32(Encode32(s), le);
    Units32OfBytes32(Encode32(s), le);
    Decode32OfEncode32(s);
  }

  /** With a mark, the order-less UTF-16 decoder finds the order from the mark and gives the text back. */
  lemma Utf16MarkedBytesDecode(s: string, le: bool)
    ensures DecodeUtf(Utf16Bytes(s, true, le), UtfEncoding(Utf16, NotPresent)) == Ok(s)
  {
    assert Utf16Bytes(s, true, le) == BomBytes(16, le) + Bytes16(Encode16(s), le);
    DecodeUtf16Marked(s, le);
  }

  lemma Utf32MarkedBytesDecode(s: string, le: bool)
    ensures DecodeUtf(Utf32Bytes(s, true, le), UtfEncoding(Utf32, NotPresent)) == Ok(s)
  {
    assert Utf32Bytes(s, true, le) == BomBytes(32, le) + Bytes32(Encode32(s), le);
    DecodeUtf32Marked(s, le);
  }

  /** Characters keep their order: writing a concatenation writes the parts one after the other. */
  lemma Utf16BytesAppend(a: string, b: string, le: bool)
    ensures Utf16Bytes(a + b, false, le) == Utf16Bytes(a, false, le) + Utf16Bytes(b, false, le)
  {
    Encode16Append(a, b);
    Bytes16Append(Encode16(a), Encode16(b), le);
  }

  lemma Utf32BytesAppend(a: string, b: string, le: bool)
    ensures Utf32Bytes(a + b, false, le) == Utf32Bytes(a, false, le) + Utf32Bytes(b, false, le)
  {
    assert Encode32(a + b) == Encode32(a) + Encode32(b);
    Bytes32Append(Encode32(a), Encode32(b), le);
  }

  /** Section 2.1 of RFC 2781: a character below U+10000 is one unit, any other a surrogate pair. */
  lemma Utf16CharWidth(c: char, le: bool)
    ensures |Utf16Bytes([c], false, le)| == if c as int < 0x1_0000 then 2 else 4
  {
    assert Encode16([c]) == EncodeChar16(c) + Encode16([]);
  }
}
