/**
 * UTF-8 as defined by RFC 3629: the encoding of section 3, the byte-sequence
 * syntax of section 4, and the decoding that Rust's `str::from_utf8`
 * (strict) and `String::from_utf8_lossy` (one U+FFFD per maximal ill-formed
 * subpart) perform.
 */
module Utf8 {
  import opened Wrappers
  import opened Bytes
  import opened Unicode

  const Utf8BomChars: seq<byte> := [0xEF, 0xBB, 0xBF]

  predicate IsCont(b: int) { 0x80 <= b <= 0xBF }

  /** Section 3 of RFC 3629: one to four bytes per scalar value. */
  function EncodeChar8(c: char): (r: seq<byte>)
    ensures |r| == Length8(c as int)
    ensures |r| == 1 ==> r[0] == c as int
  {
    var v := c as int;
    if v < 0x80 then [v]
    else if v < 0x800 then [0xC0 + v / 0x40, 0x80 + v % 0x40]
    else if v < 0x1_0000 then [0xE0 + v / 0x1000, 0x80 + (v / 0x40) % 0x40, 0x80 + v % 0x40]
    else [0xF0 + v / 0x4_0000, 0x80 + (v / 0x1000) % 0x40, 0x80 + (v / 0x40) % 0x40, 0x80 + v % 0x40]
  }

  function Length8(v: int): nat
  {
    if v < 0x80 then 1 else if v < 0x800 then 2 else if v < 0x1_0000 then 3 else 4
  }

  /** The UTF-8 bytes of a string: what `String::into_bytes` gives. */
  function Encode8(s: string): (r: seq<byte>)
    ensures |s| <= |r| <= 4 * |s|
  {
    if s == "" then [] else EncodeChar8(s[0]) + Encode8(s[1..])
  }

  /** The length of the sequence a lead byte starts, or 0 for a byte that cannot start one. */
  function LeadLength(b0: byte): nat
  {
    if b0 < 0x80 then 1
    else if 0xC2 <= b0 <= 0xDF then 2
    else if 0xE0 <= b0 <= 0xEF then 3
    else if 0xF0 <= b0 <= 0xF4 then 4
    else 0
  }

  /** Section 4 of RFC 3629: the bytes allowed right after a multi-byte lead byte. */
  predicate SecondOk(b0: byte, b1: byte)
  {
    if b0 == 0xE0 then 0xA0 <= b1 <= 0xBF
    else if b0 == 0xED then 0x80 <= b1 <= 0x9F
    else if b0 == 0xF0 then 0x90 <= b1 <= 0xBF
    else if b0 == 0xF4 then 0x80 <= b1 <= 0x8F
    else IsCont(b1)
  }

  function Value2(b0: int, b1: int): int { (b0 - 0xC0) * 0x40 + (b1 - 0x80) }
  function Value3(b0: int, b1: int, b2: int): int { (b0 - 0xE0) * 0x1000 + (b1 - 0x80) * 0x40 + (b2 - 0x80) }
  function Value4(b0: int, b1: int, b2: int, b3: int): int
  {
    (b0 - 0xF0) * 0x4_0000 + (b1 - 0x80) * 0x1000 + (b2 - 0x80) * 0x40 + (b3 - 0x80)
  }

  /**
   * One step of decoding at `b[i]`: the character read, or `None` with the
   * length of the maximal ill-formed subpart (the longest prefix of a
   * well-formed sequence that is present, at least one byte).
   */
  function Step8(b: seq<byte>, i: nat): (r: Step)
    requires i < |b|
    ensures 1 <= r.len <= 4 && i + r.len <= |b|
    ensures r.ch.Some? ==> EncodeChar8(r.ch.value) == b[i..i + r.len]
  {
    var b0 := b[i];
    var n := LeadLength(b0);
    if n == 1 then
      Step(Some(b0 as char), 1)
    else if n == 0 || !(i + 1 < |b| && SecondOk(b0, b[i + 1])) then
      Step(None, 1)
    else if n == 2 then
      Decode2(b0, b[i + 1]);
      Slice2(b, i);
      Step(Some(Value2(b0, b[i + 1]) as char), 2)
    else if !(i + 2 < |b| && IsCont(b[i + 2])) then
      Step(None, 2)
    else if n == 3 then
      Decode3(b0, b[i + 1], b[i + 2]);
      Slice3(b, i);
      Step(Some(Value3(b0, b[i + 1], b[i + 2]) as char), 3)
    else if !(i + 3 < |b| && IsCont(b[i + 3])) then
      Step(None, 3)
    else
      Decode4(b0, b[i + 1], b[i + 2], b[i + 3]);
      Slice4(b, i);
      Step(Some(Value4(b0, b[i + 1], b[i + 2], b[i + 3]) as char), 4)
  }

  lemma Slice2(b: seq<byte>, i: nat)
    requires i + 2 <= |b|
    ensures b[i..i + 2] == [b[i], b[i + 1]]
  {
  }

  lemma Slice3(b: seq<byte>, i: nat)
    requires i + 3 <= |b|
    ensures b[i..i + 3] == [b[i], b[i + 1], b[i + 2]]
  {
  }

  lemma Slice4(b: seq<byte>, i: nat)
    requires i + 4 <= |b|
    ensures b[i..i + 4] == [b[i], b[i + 1], b[i + 2], b[i + 3]]
  {
  }

  lemma Decode2(b0: byte, b1: byte)
    requires 0xC2 <= b0 <= 0xDF && IsCont(b1)
    ensures IsScalar(Value2(b0, b1)) && 0x80 <= Value2(b0, b1) < 0x800
    ensures EncodeChar8(Value2(b0, b1) as char) == [b0, b1]
  {
    var v := Value2(b0, b1);
    assert v / 0x40 == b0 - 0xC0 && v % 0x40 == b1 - 0x80;
  }

  lemma Decode3(b0: byte, b1: byte, b2: byte)
    requires 0xE0 <= b0 <= 0xEF && SecondOk(b0, b1) && IsCont(b2)
    ensures IsScalar(Value3(b0, b1, b2)) && 0x800 <= Value3(b0, b1, b2) < 0x1_0000
    ensures EncodeChar8(Value3(b0, b1, b2) as char) == [b0, b1, b2]
  {
    var v := Value3(b0, b1, b2);
    var q := (b0 - 0xE0) * 0x40 + (b1 - 0x80);
    assert v == q * 0x40 + (b2 - 0x80);
    assert v / 0x40 == q && v % 0x40 == b2 - 0x80;
    assert q / 0x40 == b0 - 0xE0 && q % 0x40 == b1 - 0x80;
    assert v / 0x1000 == q / 0x40;
  }

  lemma Decode4(b0: byte, b1: byte, b2: byte, b3: byte)
    requires 0xF0 <= b0 <= 0xF4 && SecondOk(b0, b1) && IsCont(b2) && IsCont(b3)
    ensures IsScalar(Value4(b0, b1, b2, b3)) && 0x1_0000 <= Value4(b0, b1, b2, b3)
    ensures EncodeChar8(Value4(b0, b1, b2, b3) as char) == [b0, b1, b2, b3]
  {
    var v := Value4(b0, b1, b2, b3);
    var q1 := (b0 - 0xF0) * 0x40 + (b1 - 0x80);
    var q2 := q1 * 0x40 + (b2 - 0x80);
    assert v == q2 * 0x40 + (b3 - 0x80);
    assert v / 0x40 == q2 && v % 0x40 == b3 - 0x80;
    assert q2 / 0x40 == q1 && q2 % 0x40 == b2 - 0x80;
    assert q1 / 0x40 == b0 - 0xF0 && q1 % 0x40 == b1 - 0x80;
    assert v / 0x1000 == q1 by {
      assert v == q1 * 0x1000 + ((b2 - 0x80) * 0x40 + (b3 - 0x80));
    }
    assert v / 0x4_0000 == b0 - 0xF0 by {
      assert v == (b0 - 0xF0) * 0x4_0000 + ((b1 - 0x80) * 0x1000 + (b2 - 0x80) * 0x40 + (b3 - 0x80));
    }
  }

  /** `str::from_utf8` from byte `i`: `None` when any ill-formed subpart remains. */
  function Decode8From(b: seq<byte>, i: nat): (r: Option<string>)
    requires i <= |b|
    decreases |b| - i
  {
    if i == |b| then Some("")
    else
      var st := Step8(b, i);
      match st.ch
      case None => None
      case Some(c) =>
        match Decode8From(b, i + st.len)
        case None => None
        case Some(tail) => Some([c] + tail)
  }

  function Decode8(b: seq<byte>): Option<string>
  {
    Decode8From(b, 0)
  }

  /** `String::from_utf8_lossy` from byte `i`: one U+FFFD per maximal ill-formed subpart. */
  function Lossy8From(b: seq<byte>, i: nat): (r: string)
    requires i <= |b|
    ensures |r| <= |b| - i
    decreases |b| - i
  {
    if i == |b| then ""
    else
      var st := Step8(b, i);
      [if st.ch.Some? then st.ch.value else Replacement] + Lossy8From(b, i + st.len)
  }

  function Lossy8(b: seq<byte>): (r: string)
    ensures |r| <= |b|
  {
    Lossy8From(b, 0)
  }

  // ---------------------------------------------------------------------
  // Properties.

  /** The step at the start of a character's encoding reads that character back. */
  lemma StepOfEncodeChar(c: char, b: seq<byte>, i: nat)
    requires i + |EncodeChar8(c)| <= |b| && b[i..i + |EncodeChar8(c)|] == EncodeChar8(c)
    ensures Step8(b, i) == Step(Some(c), |EncodeChar8(c)|)
  {
    var v := c as int;
    assert b[i] == EncodeChar8(c)[0];
    if v < 0x80 {
    } else if v < 0x800 {
      StepOfTwoBytes(c, b, i);
    } else if v < 0x1_0000 {
      StepOfThreeBytes(c, b, i);
    } else {
      StepOfFourBytes(c, b, i);
    }
  }

  lemma StepOfTwoBytes(c: char, b: seq<byte>, i: nat)
    requires 0x80 <= c as int < 0x800
    requires i + 2 <= |b| && b[i..i + 2] == EncodeChar8(c)
    ensures Step8(b, i) == Step(Some(c), 2)
  {
    var e := EncodeChar8(c);
    assert b[i] == e[0] && b[i + 1] == e[1];
    Decode2(e[0], e[1]);
  }

  lemma StepOfThreeBytes(c: char, b: seq<byte>, i: nat)
    requires 0x800 <= c as int < 0x1_0000
    requires i + 3 <= |b| && b[i..i + 3] == EncodeChar8(c)
    ensures Step8(b, i) == Step(Some(c), 3)
  {
    var v := c as int;
    var e := EncodeChar8(c);
    assert b[i] == e[0] && b[i + 1] == e[1] && b[i + 2] == e[2];
    assert SecondOk(e[0], e[1]) by {
      if e[0] == 0xE0 { assert v < 0x1000; }
      if e[0] == 0xED { assert 0xD000 <= v < 0xD800; }
    }
    Decode3(e[0], e[1], e[2]);
    assert Value3(e[0], e[1], e[2]) == v by {
      Reassemble3(v);
    }
  }

  lemma StepOfFourBytes(c: char, b: seq<byte>, i: nat)
    requires 0x1_0000 <= c as int
    requires i + 4 <= |b| && b[i..i + 4] == EncodeChar8(c)
    ensures Step8(b, i) == Step(Some(c), 4)
  {
    var v := c as int;
    var e := EncodeChar8(c);
    assert b[i] == e[0] && b[i + 1] == e[1] && b[i + 2] == e[2] && b[i + 3] == e[3];
    assert SecondOk(e[0], e[1]) by {
      if e[0] == 0xF0 { assert v < 0x4_0000; }
      if e[0] == 0xF4 { assert v <= 0x10FFFF; }
    }
    Decode4(e[0], e[1], e[2], e[3]);
    assert Value4(e[0], e[1], e[2], e[3]) == v by {
      Reassemble4(v);
    }
  }

  lemma Reassemble3(v: int)
    requires 0x800 <= v < 0x1_0000
    ensures v == (v / 0x1000) * 0x1000 + ((v / 0x40) % 0x40) * 0x40 + v % 0x40
  {
    var q := v / 0x40;
    assert v == q * 0x40 + v % 0x40;
    assert q == (q / 0x40) * 0x40 + q % 0x40;
    assert q / 0x40 == v / 0x1000;
  }

  lemma Reassemble4(v: int)
    requires 0x1_0000 <= v <= 0x10FFFF
    ensures v == (v / 0x4_0000) * 0x4_0000 + ((v / 0x1000) % 0x40) * 0x1000 + ((v / 0x40) % 0x40) * 0x40 + v % 0x40
  {
    var q1 := v / 0x40;
    var q2 := q1 / 0x40;
    assert v == q1 * 0x40 + v % 0x40;
    assert q1 == q2 * 0x40 + q1 % 0x40;
    assert q2 == (q2 / 0x40) * 0x40 + q2 % 0x40;
    assert q2 == v / 0x1000;
    assert q2 / 0x40 == v / 0x4_0000;
  }

  lemma SplitSuffix(b: seq<byte>, i: nat, e: seq<byte>, t: seq<byte>)
    requires i <= |b| && b[i..] == e + t
    ensures i + |e| <= |b| && b[i..i + |e|] == e && b[i + |e|..] == t
  {
    assert b[i..i + |e|] == (e + t)[..|e|];
    assert b[i + |e|..] == (e + t)[|e|..];
  }

  lemma SplitAt(b: seq<byte>, i: nat, j: nat)
    requires i <= j <= |b|
    ensures b[i..] == b[i..j] + b[j..]
  {
  }

  lemma Encode8Cons(c: char, tail: string)
    ensures Encode8([c] + tail) == EncodeChar8(c) + Encode8(tail)
  {
    var s := [c] + tail;
    assert s[0] == c && s[1..] == tail;
  }

  /** The first step over an encoding reads its first character and stops where the rest's encoding starts. */
  lemma StepOfEncodeHead(s: string, b: seq<byte>, i: nat)
    requires s != "" && i <= |b| && b[i..] == Encode8(s)
    ensures i < |b| && Step8(b, i).ch == Some(s[0]) && b[i + Step8(b, i).len..] == Encode8(s[1..])
  {
    var c, tail := s[0], s[1..];
    assert s == [c] + tail;
    Encode8Cons(c, tail);
    var e := EncodeChar8(c);
    SplitSuffix(b, i, e, Encode8(tail));
    StepOfEncodeChar(c, b, i);
  }

  /** Decoding from `i` reads back a string whose encoding is all that follows `i`. */
  lemma {:induction false} Decode8FromEncode(s: string, b: seq<byte>, i: nat)
    requires i <= |b| && b[i..] == Encode8(s)
    ensures Decode8From(b, i) == Some(s)
    decreases |s|
  {
    if s == "" {
      assert |b[i..]| == 0;
    } else {
      StepOfEncodeHead(s, b, i);
      var n := Step8(b, i).len;
      Decode8FromEncode(s[1..], b, i + n);
      assert [s[0]] + s[1..] == s;
    }
  }

  /** Encoding then decoding gives back the string. */
  lemma Decode8OfEncode8(s: string)
    ensures Decode8(Encode8(s)) == Some(s)
  {
    assert Encode8(s)[0..] == Encode8(s);
    Decode8FromEncode(s, Encode8(s), 0);
  }

  lemma {:induction false} Encode8OfDecode8From(b: seq<byte>, i: nat)
    requires i <= |b| && Decode8From(b, i).Some?
    ensures Encode8(Decode8From(b, i).value) == b[i..]
    decreases |b| - i
  {
    if i < |b| {
      var st := Step8(b, i);
      var c := st.ch.value;
      var tail := Decode8From(b, i + st.len).value;
      assert Decode8From(b, i).value == [c] + tail;
      Encode8OfDecode8From(b, i + st.len);
      Encode8Cons(c, tail);
      SplitAt(b, i, i + st.len);
    }
  }

  /** A successful decode is undone by encoding: the bytes were the string's own. */
  lemma Encode8OfDecode8(b: seq<byte>)
    requires Decode8(b).Some?
    ensures Encode8(Decode8(b).value) == b
  {
    Encode8OfDecode8From(b, 0);
  }

  /** RFC 3629: a byte sequence is valid UTF-8 exactly when it is the encoding of some string. */
  lemma Decode8Succeeds(b: seq<byte>)
    ensures Decode8(b).Some? <==> exists s :: Encode8(s) == b
  {
    if Decode8(b).Some? {
      Encode8OfDecode8(b);
    }
    if exists s :: Encode8(s) == b {
      var s :| Encode8(s) == b;
      Decode8OfEncode8(s);
    }
  }

  lemma {:induction false} Lossy8AgreesFrom(b: seq<byte>, i: nat)
    requires i <= |b| && Decode8From(b, i).Some?
    ensures Lossy8From(b, i) == Decode8From(b, i).value
    decreases |b| - i
  {
    if i < |b| {
      Lossy8AgreesFrom(b, i + Step8(b, i).len);
    }
  }

  /** On valid input, lossy decoding equals strict decoding. */
  lemma Lossy8Agrees(b: seq<byte>)
    requires Decode8(b).Some?
    ensures Lossy8(b) == Decode8(b).value
  {
    Lossy8AgreesFrom(b, 0);
  }

  lemma BomCharEncoding()
    ensures EncodeChar8(BomChar) == Utf8BomChars
  {
    var v := BomChar as int;
    assert v == 0xFEFF;
    assert v / 0x1000 == 0xF && (v / 0x40) % 0x40 == 0x3B && v % 0x40 == 0x3F;
  }

  /** The encoding starts with EF BB BF exactly when the string starts with U+FEFF. */
  lemma Encode8StartsWithBom(s: string)
    ensures Utf8BomChars <= Encode8(s) <==> |s| > 0 && s[0] == BomChar
  {
    BomCharEncoding();
    if s != "" {
      var b := Encode8(s);
      var e := EncodeChar8(s[0]);
      assert b == e + Encode8(s[1..]);
      assert b[..|e|] == e;
      StepOfEncodeChar(s[0], b, 0);
      if Utf8BomChars <= b {
        assert b[..3] == Utf8BomChars;
        StepOfEncodeChar(BomChar, b, 0);
      }
    }
  }
}
