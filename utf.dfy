/**
 * UTF encoding descriptors (src/utf.rs): parsing a label into a width and a
 * byte order, the notion of an ambiguous encoding, and the two routines that
 * advance an input cursor past a byte-order mark.
 */
module Utf {
  import opened Wrappers
  import opened Bytes
  import opened Encoding
  import opened Bom

  datatype UtfType = Utf8 | Utf16 | Utf32

  datatype UtfEncoding = UtfEncoding(ty: UtfType, byteOrder: ByteOrderMark)

  function Width(ty: UtfType): (w: nat)
    ensures w == 8 || w == 16 || w == 32
  {
    match ty
    case Utf8 => 8
    case Utf16 => 16
    case Utf32 => 32
  }

  /** The digits that name a width in a label. */
  function DigitsOf(ty: UtfType): string
  {
    match ty
    case Utf8 => "8"
    case Utf16 => "16"
    case Utf32 => "32"
  }

  /** The byte-order suffix of the view `s[q..]`, spelled all lower or all upper case. */
  function ParseOrder(s: string, q: nat): (r: Option<ByteOrderMark>)
    requires q <= |s|
    ensures r == Some(Le) <==> s[q..] in {"le", "LE"}
    ensures r == Some(Be) <==> s[q..] in {"be", "BE"}
    ensures r == Some(NotPresent) <==> s[q..] == ""
  {
    if RestIs(s, q, "le") || RestIs(s, q, "LE") then Some(Le)
    else if RestIs(s, q, "be") || RestIs(s, q, "BE") then Some(Be)
    else if q == |s| then Some(NotPresent)
    else None
  }

  /** The width named at the start of the view `s[p..]`: "8", then "16", then "32". */
  function ParseType(s: string, p: nat): (r: Option<UtfType>)
    requires p <= |s|
    ensures r == Some(Utf8) <==> "8" <= s[p..]
    ensures r == Some(Utf16) <==> !("8" <= s[p..]) && "16" <= s[p..]
    ensures r == Some(Utf32) <==> !("8" <= s[p..]) && !("16" <= s[p..]) && "32" <= s[p..]
    ensures r.Some? ==> DigitsOf(r.value) <= s[p..]
  {
    if RestStartsWith(s, p, "8") then Some(Utf8)
    else if RestStartsWith(s, p, "16") then Some(Utf16)
    else if RestStartsWith(s, p, "32") then Some(Utf32)
    else None
  }

  /** `UtfEncoding::parse`. */
  function Parse(s: string): (r: Option<UtfEncoding>)
  {
    match TrimEncodingPrefix(s, 0, "utf")
    case None => None
    case Some(p) =>
      match ParseType(s, p)
      case None => None
      case Some(ty) =>
        match TrimEncodingPrefix(s, p, DigitsOf(ty))
        case None => None
        case Some(q) =>
          match ParseOrder(s, q)
          case None => None
          case Some(order) => Some(UtfEncoding(ty, order))
  }

  predicate IsAmbiguous(e: UtfEncoding)
  {
    e.ty != Utf8 && e.byteOrder == NotPresent
  }

  /**
   * `is_encoding_byte_order_ambiguous`, which src/encoding.rs does not
   * define: a label is ambiguous when it parses as UTF-16 or UTF-32 without
   * a byte order. It is declared here because it needs `Parse`.
   */
  predicate IsEncodingByteOrderAmbiguous(name: string)
  {
    match Parse(name)
    case Some(e) => IsAmbiguous(e)
    case None => false
  }

  // ---------------------------------------------------------------------
  // The spelling a label must have to parse, stated independently of the parser.

  const Separators: set<string> := {"", "-", "_", " "}

  function OrderSpellings(m: ByteOrderMark): set<string>
  {
    match m
    case Le => {"le", "LE"}
    case Be => {"be", "BE"}
    case NotPresent => {""}
  }

  /**
   * `s` is "utf" in any ASCII case, an optional separator, the width digits,
   * an optional separator and the byte-order suffix (empty when absent).
   */
  ghost predicate Spells(s: string, e: UtfEncoding)
  {
    && |s| >= 3 && EqIgnoreAsciiCase(s[..3], "utf")
    && exists sep1, sep2, order | sep1 in Separators && sep2 in Separators && order in OrderSpellings(e.byteOrder) ::
         s[3..] == sep1 + DigitsOf(e.ty) + sep2 + order
  }

  /** A label parses to `e` exactly when it has the spelling of `e`. */
  lemma ParseSpells(s: string, e: UtfEncoding)
    ensures Parse(s) == Some(e) <==> Spells(s, e)
  {
    if Parse(s) == Some(e) {
      ParseGivesSpelling(s, e);
    }
    if Spells(s, e) {
      SpellingParses(s, e);
    }
  }

  /** A parsed label starts with "utf" in any case, and a stated byte order is its last two characters. */
  lemma ParseShape(s: string)
    ensures Parse(s).Some? ==> |s| >= 3 && EqIgnoreAsciiCase(s[..3], "utf")
    ensures Parse(s).Some? && IsPresent(Parse(s).value.byteOrder) ==>
      |s| >= 5 && s[|s| - 2..] in (if Parse(s).value.byteOrder == Le then {"le", "LE"} else {"be", "BE"})
  {
    if Parse(s).Some? {
      var p := TrimEncodingPrefix(s, 0, "utf").value;
      assert s[0..3] == s[..3];
      var ty := ParseType(s, p).value;
      var q := TrimEncodingPrefix(s, p, DigitsOf(ty)).value;
      OrderAtEnd(s, q);
    }
  }

  /** A byte-order suffix fills the last two characters of the label. */
  lemma OrderAtEnd(s: string, q: nat)
    requires q <= |s|
    ensures ParseOrder(s, q).Some? && IsPresent(ParseOrder(s, q).value) ==>
      q == |s| - 2 && s[|s| - 2..] in (if ParseOrder(s, q).value == Le then {"le", "LE"} else {"be", "BE"})
  {
    if ParseOrder(s, q).Some? && IsPresent(ParseOrder(s, q).value) {
      assert |s[q..]| == 2;
    }
  }

  /** A label is ambiguous exactly when it spells UTF-16 or UTF-32 without a byte order. */
  lemma AmbiguousLabels(name: string)
    ensures IsEncodingByteOrderAmbiguous(name) <==>
      Spells(name, UtfEncoding(Utf16, NotPresent)) || Spells(name, UtfEncoding(Utf32, NotPresent))
  {
    ParseSpells(name, UtfEncoding(Utf16, NotPresent));
    ParseSpells(name, UtfEncoding(Utf32, NotPresent));
  }

  /**
   * An encoding is ambiguous exactly when `consume_input_bom` reads a
   * leading mark of its own width: it then consumes a little-endian one
   * whole, where any other encoding leaves it in place.
   */
  lemma AmbiguousExactlyWhenMarkRead(e: UtfEncoding)
    ensures IsAmbiguous(e) <==> InputBomConsumed(e, BomBytes(Width(e.ty), true)) == (Le, [])
  {
    var m := BomBytes(Width(e.ty), true);
    DetectsOwnMarker([]);
    assert m + [] == m;
  }

  lemma SeparatorSpelled(c: char)
    requires IsSeparator(c)
    ensures [c] in Separators
  {
    if c == '-' { assert [c] == "-"; }
    else if c == '_' { assert [c] == "_"; }
    else { assert [c] == " "; }
  }

  /** Trimming `t` from `s[at..]` when `t` and then `sep` spell out the view's start. */
  lemma TrimThrough(s: string, at: nat, t: string, sep: string)
    requires sep in Separators
    requires at + |t| + |sep| <= |s|
    requires s[at..at + |t|] == t && s[at + |t|..at + |t| + |sep|] == sep
    requires sep == "" && at + |t| < |s| ==> !IsSeparator(s[at + |t|])
    ensures TrimEncodingPrefix(s, at, t) == Some(at + |t| + |sep|)
  {
    if sep != "" {
      assert s[at + |t|] == sep[0];
    }
  }

  lemma ParseGivesSpelling(s: string, e: UtfEncoding)
    requires Parse(s) == Some(e)
    ensures Spells(s, e)
  {
    var p := TrimEncodingPrefix(s, 0, "utf").value;
    var d := DigitsOf(e.ty);
    assert ParseType(s, p) == Some(e.ty);
    var q := TrimEncodingPrefix(s, p, d).value;
    assert ParseOrder(s, q) == Some(e.byteOrder);
    assert s[..3] == s[0..3];
    PartsGiveSpelling(s, e, p, q);
  }

  lemma PartsGiveSpelling(s: string, e: UtfEncoding, p: nat, q: nat)
    requires |s| >= 3 && EqIgnoreAsciiCase(s[..3], "utf")
    requires 3 <= p <= 4 && p <= |s| && (p == 4 ==> IsSeparator(s[3]))
    requires DigitsOf(e.ty) <= s[p..]
    requires p + |DigitsOf(e.ty)| <= q <= p + |DigitsOf(e.ty)| + 1 && q <= |s|
    requires q == p + |DigitsOf(e.ty)| + 1 ==> IsSeparator(s[q - 1])
    requires s[q..] in OrderSpellings(e.byteOrder)
    ensures Spells(s, e)
  {
    var d := DigitsOf(e.ty);
    var m := p + |d|;
    var sep1, sep2, order := s[3..p], s[m..q], s[q..];
    assert s[p..m] == d;
    SeparatorSlice(s, 3, p);
    SeparatorSlice(s, m, q);
    SplitAt(s, 3, p, m, q);
  }

  /** A slice of at most one character that is a separator when present. */
  lemma SeparatorSlice(s: string, i: nat, j: nat)
    requires i <= j <= i + 1 && j <= |s| && (j == i + 1 ==> IsSeparator(s[i]))
    ensures s[i..j] in Separators
  {
    if j == i + 1 {
      assert s[i..j] == [s[i]];
      SeparatorSpelled(s[i]);
    } else {
      assert s[i..j] == "";
    }
  }

  lemma SplitAt(s: string, a: nat, b: nat, c: nat, d: nat)
    requires a <= b <= c <= d <= |s|
    ensures s[a..] == s[a..b] + s[b..c] + s[c..d] + s[d..]
  {
    assert s[a..] == s[a..b] + s[b..];
    assert s[b..] == s[b..c] + s[c..];
    assert s[c..] == s[c..d] + s[d..];
  }

  lemma SpellingParses(s: string, e: UtfEncoding)
    requires Spells(s, e)
    ensures Parse(s) == Some(e)
  {
    var sep1, sep2, order :| sep1 in Separators && sep2 in Separators && order in OrderSpellings(e.byteOrder) &&
      s[3..] == sep1 + DigitsOf(e.ty) + sep2 + order;
    SpellingPartsParse(s, e, sep1, sep2, order);
  }

  lemma SpellingPartsParse(s: string, e: UtfEncoding, sep1: string, sep2: string, order: string)
    requires |s| >= 3 && EqIgnoreAsciiCase(s[..3], "utf")
    requires sep1 in Separators && sep2 in Separators && order in OrderSpellings(e.byteOrder)
    requires s[3..] == sep1 + DigitsOf(e.ty) + sep2 + order
    ensures Parse(s) == Some(e)
  {
    var d := DigitsOf(e.ty);
    var p := 3 + |sep1|;
    var q := p + |d| + |sep2|;
    TailSlices(s, sep1, d, sep2, order);
    FirstSeparatorTrim(s, sep1, d);
    assert ParseType(s, p) == Some(e.ty) by {
      assert s[p..][..|d|] == d;
    }
    SecondSeparatorTrim(s, p, d, sep2, order);
    assert ParseOrder(s, q) == Some(e.byteOrder);
  }

  lemma FirstSeparatorTrim(s: string, sep1: string, d: string)
    requires |s| >= 3 && EqIgnoreAsciiCase(s[..3], "utf") && sep1 in Separators && d in {"8", "16", "32"}
    requires 3 + |sep1| + |d| <= |s| && s[3..3 + |sep1|] == sep1 && s[3 + |sep1|..3 + |sep1| + |d|] == d
    ensures TrimEncodingPrefix(s, 0, "utf") == Some(3 + |sep1|)
  {
    assert s[0..3] == s[..3];
    if sep1 == "" {
      assert s[3] == d[0];
    } else {
      assert s[3] == sep1[0];
    }
  }

  lemma SecondSeparatorTrim(s: string, p: nat, d: string, sep2: string, order: string)
    requires sep2 in Separators && order in {"", "le", "LE", "be", "BE"}
    requires p + |d| + |sep2| <= |s| && s[p..p + |d|] == d && s[p + |d|..p + |d| + |sep2|] == sep2
    requires s[p + |d| + |sep2|..] == order
    ensures TrimEncodingPrefix(s, p, d) == Some(p + |d| + |sep2|)
  {
    var q := p + |d| + |sep2|;
    if sep2 == "" && q < |s| {
      assert s[q] == order[0];
    }
    TrimThrough(s, p, d, sep2);
  }

  lemma TailSlices(s: string, sep1: string, d: string, sep2: string, order: string)
    requires |s| >= 3 && s[3..] == sep1 + d + sep2 + order
    ensures var p := 3 + |sep1|; var q := p + |d| + |sep2|;
      s[3..p] == sep1 && s[p..p + |d|] == d && s[p + |d|..q] == sep2 && s[q..] == order
  {
    var tail := s[3..];
    assert tail[..|sep1|] == sep1;
    assert tail[|sep1|..|sep1| + |d|] == d;
    assert tail[|sep1| + |d|..|sep1| + |d| + |sep2|] == sep2;
    assert tail[|sep1| + |d| + |sep2|..] == order;
  }

  lemma DashedLabelParses(e: UtfEncoding, order: string)
    requires order in OrderSpellings(e.byteOrder)
    ensures Parse("utf-" + DigitsOf(e.ty) + order) == Some(e)
  {
    var s := "utf-" + DigitsOf(e.ty) + order;
    assert s[..3] == "utf";
    assert s[3..] == "-" + DigitsOf(e.ty) + "" + order;
    SpellingPartsParse(s, e, "-", "", order);
  }

  /** The UTF-16 labels the unit tests in src/utf.rs accept. */
  lemma ParseUtf16Examples()
    ensures Parse("utf-16") == Some(UtfEncoding(Utf16, NotPresent))
    ensures Parse("utf-16le") == Some(UtfEncoding(Utf16, Le))
    ensures Parse("utf-16be") == Some(UtfEncoding(Utf16, Be))
  {
    DashedLabelParses(UtfEncoding(Utf16, NotPresent), "");
    assert "utf-" + DigitsOf(Utf16) + "" == "utf-16";
    DashedLabelParses(UtfEncoding(Utf16, Le), "le");
    assert "utf-" + DigitsOf(Utf16) + "le" == "utf-16le";
    DashedLabelParses(UtfEncoding(Utf16, Be), "be");
    assert "utf-" + DigitsOf(Utf16) + "be" == "utf-16be";
  }

  /** The UTF-8 and UTF-32 labels the unit tests in src/utf.rs accept. */
  lemma ParseUtf8And32Examples()
    ensures Parse("utf-8") == Some(UtfEncoding(Utf8, NotPresent))
    ensures Parse("utf-32") == Some(UtfEncoding(Utf32, NotPresent))
  {
    DashedLabelParses(UtfEncoding(Utf8, NotPresent), "");
    assert "utf-" + DigitsOf(Utf8) + "" == "utf-8";
    DashedLabelParses(UtfEncoding(Utf32, NotPresent), "");
    assert "utf-" + DigitsOf(Utf32) + "" == "utf-32";
  }

  /** The UTF-32 labels with a byte order that the unit tests in src/utf.rs accept. */
  lemma ParseUtf32OrderExamples()
    ensures Parse("utf-32le") == Some(UtfEncoding(Utf32, Le))
    ensures Parse("utf-32be") == Some(UtfEncoding(Utf32, Be))
  {
    DashedLabelParses(UtfEncoding(Utf32, Le), "le");
    assert "utf-" + DigitsOf(Utf32) + "le" == "utf-32le";
    DashedLabelParses(UtfEncoding(Utf32, Be), "be");
    assert "utf-" + DigitsOf(Utf32) + "be" == "utf-32be";
  }

  lemma ParseRejects()
    ensures Parse("utf") == None
    ensures Parse("utf-9") == None
    ensures Parse("utf-16lebe") == None
    ensures Parse("wtf-32") == None
  {
    assert TrimEncodingPrefix("utf", 0, "utf") == Some(3);
    assert TrimEncodingPrefix("utf-9", 0, "utf") == Some(4);
    assert ParseType("utf-9", 4) == None;
    assert TrimEncodingPrefix("utf-16lebe", 0, "utf") == Some(4);
    assert ParseType("utf-16lebe", 4) == Some(Utf16);
    assert TrimEncodingPrefix("utf-16lebe", 4, "16") == Some(6);
    assert ParseOrder("utf-16lebe", 6) == None;
    assert TrimEncodingPrefix("wtf-32", 0, "utf") == None;
  }

  /** The ambiguity table of the unit tests in src/utf.rs. */
  lemma AmbiguityExamples()
    ensures !IsEncodingByteOrderAmbiguous("utf-8")
    ensures IsEncodingByteOrderAmbiguous("utf-16")
    ensures IsEncodingByteOrderAmbiguous("utf-32")
    ensures !IsEncodingByteOrderAmbiguous("utf-16le")
    ensures !IsEncodingByteOrderAmbiguous("utf-16be")
  {
    ParseUtf16Examples();
    ParseUtf8And32Examples();
  }

  lemma AmbiguityOrderExamples()
    ensures !IsEncodingByteOrderAmbiguous("utf-32le")
    ensures !IsEncodingByteOrderAmbiguous("utf-32be")
  {
    ParseUtf32OrderExamples();
  }

  // ---------------------------------------------------------------------
  // Cursor routines. The source advances a `&mut &[u8]`; the functions give
  // the flag or order together with the new cursor, and `Cursor` below
  // performs the same update in place.

  /** `strip_bom`: whether a marker was removed, and the input after it. */
  function BomStripped(e: UtfEncoding, input: seq<byte>): (r: (bool, seq<byte>))
    ensures r.0 <==> |r.1| < |input|
    ensures !r.0 ==> r.1 == input
    ensures e.ty == Utf8 ==> (r.0 <==> Utf8Bom <= input)
    ensures e.ty != Utf8 ==> (r.0 <==> IsPresent(e.byteOrder) && BomBytes(Width(e.ty), e.byteOrder == Le) <= input)
    ensures r.0 ==> input == BomBytes(Width(e.ty), e.byteOrder != Be) + r.1
  {
    match e.ty
    case Utf8 =>
      if IsPresent(GetUtf8Bom(input)) then (true, input[3..]) else (false, input)
    case Utf16 =>
      if IsPresent(e.byteOrder) && GetUtf16Bom(input) == e.byteOrder then (true, input[2..]) else (false, input)
    case Utf32 =>
      if IsPresent(e.byteOrder) && GetUtf32Bom(input) == e.byteOrder then (true, input[4..]) else (false, input)
  }

  /**
   * `consume_input_bom`: the byte order to read the input in, and the input
   * after any marker that was consumed. Only an ambiguous encoding looks at
   * the input; a UTF-8 marker is never consumed.
   */
  function InputBomConsumed(e: UtfEncoding, input: seq<byte>): (r: (ByteOrderMark, seq<byte>))
    ensures !IsAmbiguous(e) ==> r == (e.byteOrder, input)
    ensures e.ty == Utf8 ==> r.1 == input
    ensures IsAmbiguous(e) && e.ty == Utf16 ==> r.0 == GetUtf16Bom(input)
    ensures IsAmbiguous(e) && e.ty == Utf32 ==> r.0 == GetUtf32Bom(input)
    ensures IsAmbiguous(e) && !IsPresent(r.0) ==> r.1 == input
    ensures IsAmbiguous(e) && IsPresent(r.0) ==> input == BomBytes(Width(e.ty), r.0 == Le) + r.1
  {
    if !IsAmbiguous(e) then (e.byteOrder, input)
    else match e.ty
      case Utf16 =>
        var bom := GetUtf16Bom(input);
        if IsPresent(bom) then (bom, input[2..]) else (e.byteOrder, input)
      case Utf32 =>
        var bom := GetUtf32Bom(input);
        if IsPresent(bom) then (bom, input[4..]) else (e.byteOrder, input)
  }

  /** Cases of the `consume_input_bom` unit test in src/utf.rs, on the input "hello". */
  lemma ConsumeInputBomExamples(hello: seq<byte>)
    requires hello == [0x68, 0x65, 0x6C, 0x6C, 0x6F]
    ensures InputBomConsumed(UtfEncoding(Utf8, NotPresent), hello) == (NotPresent, hello)
    ensures InputBomConsumed(UtfEncoding(Utf16, NotPresent), hello) == (NotPresent, hello)
    ensures InputBomConsumed(UtfEncoding(Utf16, NotPresent), Utf16LeBom + hello) == (Le, hello)
    ensures InputBomConsumed(UtfEncoding(Utf16, NotPresent), Utf16BeBom + hello) == (Be, hello)
    ensures InputBomConsumed(UtfEncoding(Utf16, Be), Utf16LeBom + hello) == (Be, Utf16LeBom + hello)
    ensures InputBomConsumed(UtfEncoding(Utf16, Le), Utf16BeBom + hello) == (Le, Utf16BeBom + hello)
    ensures InputBomConsumed(UtfEncoding(Utf32, NotPresent), Utf32LeBom + hello) == (Le, hello)
    ensures InputBomConsumed(UtfEncoding(Utf32, NotPresent), Utf32BeBom + hello) == (Be, hello)
    ensures InputBomConsumed(UtfEncoding(Utf32, Be), Utf32LeBom + hello) == (Be, Utf32LeBom + hello)
    ensures InputBomConsumed(UtfEncoding(Utf32, Le), Utf32BeBom + hello) == (Le, Utf32BeBom + hello)
  {
    DetectsOwnMarker(hello);
  }

  /** An input slice that the BOM routines advance in place. */
  class Cursor {
    var rest: seq<byte>

    constructor (input: seq<byte>)
      ensures rest == input
    {
      rest := input;
    }

    method StripBom(e: UtfEncoding) returns (stripped: bool)
      modifies this
      ensures (stripped, rest) == BomStripped(e, old(rest))
    {
      stripped := true;
      if e.ty == Utf8 && IsPresent(GetUtf8Bom(rest)) {
        rest := rest[3..];
      } else if e.ty == Utf16 && IsPresent(e.byteOrder) && GetUtf16Bom(rest) == e.byteOrder {
        rest := rest[2..];
      } else if e.ty == Utf32 && IsPresent(e.byteOrder) && GetUtf32Bom(rest) == e.byteOrder {
        rest := rest[4..];
      } else {
        stripped := false;
      }
    }

    method ConsumeInputBom(e: UtfEncoding) returns (order: ByteOrderMark)
      modifies this
      ensures (order, rest) == InputBomConsumed(e, old(rest))
    {
      if !IsAmbiguous(e) {
        return e.byteOrder;
      }
      var bom, len := if e.ty == Utf16 then GetUtf16Bom(rest) else GetUtf32Bom(rest), if e.ty == Utf16 then 2 else 4;
      if IsPresent(bom) {
        rest := rest[len..];
        order := bom;
      } else {
        order := e.byteOrder;
      }
    }
  }
}
