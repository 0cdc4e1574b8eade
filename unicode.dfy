/**
 * Unicode scalar values and the UTF-32 and UTF-16 encoding forms, stated by
 * the standards rather than by the iterators of the `widestring` crate that
 * the source calls: section 3.9 of the Unicode Standard for UTF-32, sections
 * 2.1 and 2.2 of RFC 2781 for UTF-16. A Dafny `char` is a Unicode scalar
 * value, as a Rust `char` is.
 */
module Unicode {
  import opened Wrappers
  import opened Bytes

  /** U+FFFD REPLACEMENT CHARACTER, which every lossy decoder emits. */
  const Replacement: char := '\U{FFFD}'

  /** U+FEFF, the character a byte-order mark encodes. */
  const BomChar: char := '\U{FEFF}'

  predicate IsHighSurrogate(v: int) { 0xD800 <= v <= 0xDBFF }
  predicate IsLowSurrogate(v: int) { 0xDC00 <= v <= 0xDFFF }
  predicate IsSurrogate(v: int) { 0xD800 <= v <= 0xDFFF }

  /** A Unicode scalar value: a code point that is not a surrogate. */
  predicate IsScalar(v: int) { 0 <= v <= 0x10FFFF && !IsSurrogate(v) }

  lemma CharIsScalar(c: char)
    ensures IsScalar(c as int)
  {
  }

  // ---------------------------------------------------------------------
  // UTF-32: one unit per scalar value.

  /** `decode_utf32`, collected into `Result<String, _>`: `None` at the first unit that is not a scalar value. */
  function Decode32(units: seq<u32>): (r: Option<string>)
    ensures r.Some? <==> forall i :: 0 <= i < |units| ==> IsScalar(units[i])
    ensures r.Some? ==> |r.value| == |units| && forall i :: 0 <= i < |units| ==> r.value[i] as int == units[i]
  {
    if units == [] then Some("")
    else if !IsScalar(units[0]) then None
    else match Decode32(units[1..])
      case None => None
      case Some(tail) => Some([units[0] as char] + tail)
  }

  /** `decode_utf32_lossy`: one character per unit, U+FFFD for a unit that is not a scalar value. */
  function Decode32Lossy(units: seq<u32>): (r: string)
    ensures |r| == |units|
    ensures forall i :: 0 <= i < |units| ==>
      if IsScalar(units[i]) then r[i] as int == units[i] else r[i] == Replacement
  {
    if units == [] then ""
    else [if IsScalar(units[0]) then units[0] as char else Replacement] + Decode32Lossy(units[1..])
  }

  /** `encode_utf32`: each character as its scalar value. */
  function Encode32(s: string): (r: seq<u32>)
    ensures |r| == |s|
    ensures forall i :: 0 <= i < |s| ==> r[i] == s[i] as int
  {
    if s == "" then [] else [s[0] as int] + Encode32(s[1..])
  }

  lemma {:induction false} Decode32OfEncode32(s: string)
    ensures Decode32(Encode32(s)) == Some(s)
  {
    var r := Decode32(Encode32(s));
    assert r.Some?;
    assert r.value == s;
  }

  lemma {:induction false} Encode32OfDecode32(units: seq<u32>)
    requires Decode32(units).Some?
    ensures Encode32(Decode32(units).value) == units
  {
  }

  /** Where strict decoding succeeds, lossy decoding gives the same text. */
  lemma {:induction false} Decode32LossyAgrees(units: seq<u32>)
    requires Decode32(units).Some?
    ensures Decode32Lossy(units) == Decode32(units).value
  {
  }

  // ---------------------------------------------------------------------
  // UTF-16 (RFC 2781).

  /** Section 2.1 of RFC 2781: one unit below U+10000, otherwise a high and a low surrogate. */
  function EncodeChar16(c: char): (r: seq<u16>)
    ensures |r| == 1 <==> c as int < 0x1_0000
    ensures |r| == 1 ==> r[0] == c as int && !IsSurrogate(r[0])
    ensures |r| != 1 ==>
              |r| == 2 && IsHighSurrogate(r[0]) && IsLowSurrogate(r[1]) && Combine(r[0], r[1]) == c as int
  {
    var v := c as int;
    if v < 0x1_0000 then [v]
    else
      var w := v - 0x1_0000;
      [0xD800 + w / 0x400, 0xDC00 + w % 0x400]
  }

  /** Section 2.2 of RFC 2781: the scalar value a surrogate pair stands for. */
  function Combine(high: int, low: int): (v: int)
    requires IsHighSurrogate(high) && IsLowSurrogate(low)
    ensures 0x1_0000 <= v <= 0x10FFFF && IsScalar(v)
  {
    0x1_0000 + (high - 0xD800) * 0x400 + (low - 0xDC00)
  }

  /** `encode_utf16`: the units of each character, in order. */
  function Encode16(s: string): (r: seq<u16>)
    ensures |s| <= |r| <= 2 * |s|
  {
    if s == "" then [] else EncodeChar16(s[0]) + Encode16(s[1..])
  }

  /** Encoding distributes over concatenation. */
  lemma {:induction false} Encode16Append(a: string, b: string)
    ensures Encode16(a + b) == Encode16(a) + Encode16(b)
    decreases |a|
  {
    if a != "" {
      assert (a + b)[0] == a[0] && (a + b)[1..] == a[1..] + b;
      Encode16Append(a[1..], b);
    } else {
      assert a + b == b;
    }
  }

  /**
   * One step of a UTF-16 decoder at `units[i]`: the character read (or
   * `None` for an unpaired surrogate) and how many units it used. An unpaired
   * surrogate uses one unit, so decoding resumes at the next one.
   */
  datatype Step = Step(ch: Option<char>, len: nat)

  function Step16(units: seq<u16>, i: nat): (r: Step)
    requires i < |units|
    ensures r.len == 1 || r.len == 2
    ensures i + r.len <= |units|
    ensures r.len == 2 <==> r.ch.Some? && r.ch.value as int >= 0x1_0000
    ensures r.ch.Some? ==> EncodeChar16(r.ch.value) == units[i..i + r.len]
    ensures r.ch.None? <==>
      IsLowSurrogate(units[i]) || (IsHighSurrogate(units[i]) && !(i + 1 < |units| && IsLowSurrogate(units[i + 1])))
  {
    var u := units[i];
    if !IsSurrogate(u) then
      Step(Some(u as char), 1)
    else if IsHighSurrogate(u) && i + 1 < |units| && IsLowSurrogate(units[i + 1]) then
      var v := Combine(u, units[i + 1]);
      PairRoundTrip(u, units[i + 1]);
      Step(Some(v as char), 2)
    else
      Step(None, 1)
  }

  lemma PairRoundTrip(high: int, low: int)
    requires IsHighSurrogate(high) && IsLowSurrogate(low)
    ensures (Combine(high, low) - 0x1_0000) / 0x400 == high - 0xD800
    ensures (Combine(high, low) - 0x1_0000) % 0x400 == low - 0xDC00
  {
  }

  /** `decode_utf16` from unit `i`, collected into `Result<String, _>`. */
  function Decode16From(units: seq<u16>, i: nat): (r: Option<string>)
    requires i <= |units|
    decreases |units| - i
  {
    if i == |units| then Some("")
    else
      var st := Step16(units, i);
      match st.ch
      case None => None
      case Some(c) =>
        match Decode16From(units, i + st.len)
        case None => None
        case Some(tail) => Some([c] + tail)
  }

  function Decode16(units: seq<u16>): Option<string>
  {
    Decode16From(units, 0)
  }

  /** `decode_utf16_lossy` from unit `i`: each unpaired surrogate becomes one U+FFFD. */
  function Decode16LossyFrom(units: seq<u16>, i: nat): (r: string)
    requires i <= |units|
    ensures |r| <= |units| - i
    decreases |units| - i
  {
    if i == |units| then ""
    else
      var st := Step16(units, i);
      [if st.ch.Some? then st.ch.value else Replacement] + Decode16LossyFrom(units, i + st.len)
  }

  function Decode16Lossy(units: seq<u16>): (r: string)
    ensures |r| <= |units|
  {
    Decode16LossyFrom(units, 0)
  }

  /**
   * Well-formed UTF-16 in the terms of section 2.2 of RFC 2781: every high
   * surrogate is followed by a low one and every low surrogate follows a
   * high one. `WellFormed16From(units, i)` is the same for decoding that
   * starts at `i`, where a low surrogate cannot be paired.
   */
  ghost predicate WellFormed16From(units: seq<u16>, i: nat)
    requires i <= |units|
  {
    && (forall j :: i <= j < |units| && IsHighSurrogate(units[j]) ==> j + 1 < |units| && IsLowSurrogate(units[j + 1]))
    && (forall j :: i <= j < |units| && IsLowSurrogate(units[j]) ==> i < j && IsHighSurrogate(units[j - 1]))
  }

  ghost predicate WellFormed16(units: seq<u16>)
  {
    WellFormed16From(units, 0)
  }

  /** Strict UTF-16 decoding fails exactly on input with an unpaired surrogate. */
  lemma Decode16Succeeds(units: seq<u16>)
    ensures Decode16(units).Some? <==> WellFormed16(units)
  {
    Decode16FromSucceeds(units, 0);
  }

  lemma {:induction false} Decode16FromSucceeds(units: seq<u16>, i: nat)
    requires i <= |units|
    ensures Decode16From(units, i).Some? <==> WellFormed16From(units, i)
    decreases |units| - i
  {
    if i < |units| {
      var st := Step16(units, i);
      if st.ch.Some? {
        Decode16FromSucceeds(units, i + st.len);
        if st.len == 1 {
          assert !IsSurrogate(units[i]);
        } else {
          assert IsHighSurrogate(units[i]) && IsLowSurrogate(units[i + 1]);
        }
        WellFormedShift(units, i, st.len);
      } else {
        assert !WellFormed16From(units, i);
      }
    }
  }

  lemma WellFormedShift(units: seq<u16>, i: nat, n: nat)
    requires i + n <= |units|
    requires n == 1 ==> !IsSurrogate(units[i])
    requires n == 2 ==> IsHighSurrogate(units[i]) && IsLowSurrogate(units[i + 1])
    requires n == 1 || n == 2
    ensures WellFormed16From(units, i) <==> WellFormed16From(units, i + n)
  {
  }

  lemma {:induction false} Decode16OfEncode16(s: string)
    ensures Decode16(Encode16(s)) == Some(s)
  {
    Decode16FromEncode(s, []);
    assert [] + Encode16(s) == Encode16(s);
  }

  /** Decoding the encoding of `s` after any well-decoded prefix `pre` reads back `s`. */
  lemma {:induction false} Decode16FromEncode(s: string, pre: seq<u16>)
    ensures Decode16From(pre + Encode16(s), |pre|) == Some(s)
    decreases |s|
  {
    var units := pre + Encode16(s);
    if s != "" {
      var e := EncodeChar16(s[0]);
      assert Encode16(s) == e + Encode16(s[1..]);
      assert units == (pre + e) + Encode16(s[1..]);
      assert units[|pre|..|pre| + |e|] == e;
      var st := Step16(units, |pre|);
      assert st == Step(Some(s[0]), |e|) by {
        if |e| == 1 {
          assert units[|pre|] == s[0] as int;
        } else {
          assert units[|pre|] == e[0] && units[|pre| + 1] == e[1];
          PairRoundTrip(e[0], e[1]);
        }
      }
      Decode16FromEncode(s[1..], pre + e);
      assert Decode16From(units, |pre| + |e|) == Some(s[1..]);
      assert [s[0]] + s[1..] == s;
    } else {
      assert units == pre;
    }
  }

  lemma {:induction false} Encode16OfDecode16From(units: seq<u16>, i: nat)
    requires i <= |units| && Decode16From(units, i).Some?
    ensures Encode16(Decode16From(units, i).value) == units[i..]
    decreases |units| - i
  {
    if i < |units| {
      var st := Step16(units, i);
      Encode16OfDecode16From(units, i + st.len);
      assert units[i..] == units[i..i + st.len] + units[i + st.len..];
    }
  }

  /** A successful decode is undone by encoding: UTF-16 decoding is injective. */
  lemma Encode16OfDecode16(units: seq<u16>)
    requires Decode16(units).Some?
    ensures Encode16(Decode16(units).value) == units
  {
    Encode16OfDecode16From(units, 0);
  }

  lemma {:induction false} Decode16LossyAgreesFrom(units: seq<u16>, i: nat)
    requires i <= |units| && Decode16From(units, i).Some?
    ensures Decode16LossyFrom(units, i) == Decode16From(units, i).value
    decreases |units| - i
  {
    if i < |units| {
      Decode16LossyAgreesFrom(units, i + Step16(units, i).len);
    }
  }

  /** Where strict decoding succeeds, lossy decoding gives the same text. */
  lemma Decode16LossyAgrees(units: seq<u16>)
    requires Decode16(units).Some?
    ensures Decode16Lossy(units) == Decode16(units).value
  {
    Decode16LossyAgreesFrom(units, 0);
  }

  /** Lossy decoding of well-formed text never produces U+FFFD that was not encoded. */
  lemma {:induction false} Decode16LossyOfEncode16(s: string)
    ensures Decode16Lossy(Encode16(s)) == s
  {
    Decode16OfEncode16(s);
    Decode16LossyAgrees(Encode16(s));
  }

  /** A decoding step looks only at the units from `i` on: a prefix shifts it and nothing more. */
  lemma Step16Shift(pre: seq<u16>, units: seq<u16>, i: nat)
    requires i < |units|
    ensures Step16(pre + units, |pre| + i) == Step16(units, i)
  {
    var w := pre + units;
    assert w[|pre| + i] == units[i];
    if i + 1 < |units| {
      assert w[|pre| + i + 1] == units[i + 1];
    }
  }

  /** Lossy decoding from a position inside a suffix is lossy decoding of that suffix. */
  lemma {:induction false} Lossy16Shift(pre: seq<u16>, units: seq<u16>, i: nat)
    requires i <= |units|
    ensures Decode16LossyFrom(pre + units, |pre| + i) == Decode16LossyFrom(units, i)
    decreases |units| - i
  {
    if i < |units| {
      Step16Shift(pre, units, i);
      Lossy16Shift(pre, units, i + Step16(units, i).len);
    }
  }

  /** A decoding step that reads a character is not changed by units appended after it. */
  lemma Step16Extend(units: seq<u16>, more: seq<u16>, i: nat)
    requires i < |units| && Step16(units, i).ch.Some?
    ensures Step16(units + more, i) == Step16(units, i)
  {
    var w := units + more;
    assert w[i] == units[i];
    if i + 1 < |units| {
      assert w[i + 1] == units[i + 1];
    }
  }

  /** Lossy decoding goes through a well-formed prefix unit by unit, ending exactly where the prefix ends. */
  lemma {:induction false} Lossy16PastWellFormed(units: seq<u16>, more: seq<u16>, i: nat)
    requires i <= |units| && Decode16From(units, i).Some?
    ensures Decode16LossyFrom(units + more, i) == Decode16From(units, i).value + Decode16LossyFrom(units + more, |units|)
    decreases |units| - i
  {
    if i < |units| {
      var st := Step16(units, i);
      Step16Extend(units, more, i);
      Lossy16PastWellFormed(units, more, i + st.len);
    }
  }

  /**
   * An unpaired surrogate between well-formed text and any other units
   * becomes exactly one U+FFFD: the text before it decodes as it is, and
   * decoding resumes at the next unit.
   */
  lemma UnpairedSurrogateLossy(a: seq<u16>, u: u16, b: seq<u16>)
    requires Decode16(a).Some?
    requires IsLowSurrogate(u) || (IsHighSurrogate(u) && (b == [] || !IsLowSurrogate(b[0])))
    ensures Decode16Lossy(a + [u] + b) == Decode16(a).value + [Replacement] + Decode16Lossy(b)
  {
    var rest := [u] + b;
    assert a + [u] + b == a + rest;
    Lossy16AfterWellFormed(a, rest);
    LeadingUnpairedLossy(u, b);
  }

  /** Well-formed text in front of any units decodes as it is, and the units after it decode on their own. */
  lemma Lossy16AfterWellFormed(a: seq<u16>, rest: seq<u16>)
    requires Decode16(a).Some?
    ensures Decode16Lossy(a + rest) == Decode16(a).value + Decode16Lossy(rest)
  {
    Lossy16PastWellFormed(a, rest, 0);
    Lossy16Shift(a, rest, 0);
  }

  /** Input that starts with an unpaired surrogate decodes to U+FFFD, then the rest on its own. */
  lemma LeadingUnpairedLossy(u: u16, b: seq<u16>)
    requires IsLowSurrogate(u) || (IsHighSurrogate(u) && (b == [] || !IsLowSurrogate(b[0])))
    ensures Decode16Lossy([u] + b) == [Replacement] + Decode16Lossy(b)
  {
    var rest := [u] + b;
    assert rest[0] == u;
    if 1 < |rest| {
      assert rest[1] == b[0];
    }
    assert Step16(rest, 0).ch == None;
    Lossy16Shift([u], b, 0);
  }

  /** An unpaired surrogate on its own decodes to exactly one U+FFFD. */
  lemma LoneSurrogateLossy(u: u16)
    requires IsSurrogate(u)
    ensures Decode16Lossy([u]) == [Replacement]
  {
  }
}
