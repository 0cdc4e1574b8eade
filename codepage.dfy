/**
 * Mapping an encoding label to a Windows code page identifier
 * (src/sys/win/codepage.rs). The label is examined with the matching
 * helpers of the `Encoding` module; a branch that recognises its prefix
 * decides the answer, so a later branch is never tried once an earlier
 * prefix matched.
 */
module Codepage {
  import opened Wrappers
  import opened Bytes
  import opened Encoding
  import opened Bom
  import opened Utf

  const CodepageUtf8: u32 := 65001
  const CodepageUtf16: u32 := 1200
  const CodepageUtf16Be: u32 := 1201
  const CodepageUtf32: u32 := 12000
  const CodepageUtf32Be: u32 := 12001

  /** `s[i..]` holds a character outside ASCII (`str::find(|c| !c.is_ascii())`). */
  predicate HasNonAscii(s: string, i: nat)
    requires i <= |s|
    ensures HasNonAscii(s, i) <==> (exists k :: i <= k < |s| && !IsAscii(s[k]))
    decreases |s| - i
  {
    i < |s| && (!IsAscii(s[i]) || HasNonAscii(s, i + 1))
  }

  predicate IsDigit(c: char) { '0' <= c <= '9' }

  /** Every character of `s[lo..hi]` is a decimal digit. */
  predicate AllDigits(s: string, lo: nat, hi: nat)
    requires lo <= hi <= |s|
    ensures AllDigits(s, lo, hi) <==> (forall k :: lo <= k < hi ==> IsDigit(s[k]))
    decreases hi
  {
    lo == hi || (IsDigit(s[hi - 1]) && AllDigits(s, lo, hi - 1))
  }

  /** The value of the decimal digits `s[lo..hi]`, most significant first. */
  function DigitsValue(s: string, lo: nat, hi: nat): nat
    requires lo <= hi <= |s| && AllDigits(s, lo, hi)
    decreases hi
  {
    if lo == hi then 0 else DigitsValue(s, lo, hi - 1) * 10 + (s[hi - 1] as int - '0' as int)
  }

  /**
   * `str::parse::<u32>()` of the view `s[at..]`: an optional '+', then one
   * or more decimal digits and nothing else, with a value below 2^32.
   */
  function ParseU32(s: string, at: nat): (r: Option<u32>)
    requires at <= |s|
    ensures r.Some? ==> at < |s| && (s[at] == '+' || IsDigit(s[at]))
    ensures (exists k :: at < k < |s| && !IsDigit(s[k])) ==> r == None
  {
    var start := if at < |s| && s[at] == '+' then at + 1 else at;
    if start == |s| || !AllDigits(s, start, |s|) then None
    else
      var v := DigitsValue(s, start, |s|);
      if v < 0x1_0000_0000 then Some(v) else None
  }

  /** The shortest decimal spelling of `n`: the reference for `ParseU32`. */
  function Decimal(n: nat): (r: string)
    ensures 1 <= |r|
    ensures forall k :: 0 <= k < |r| ==> IsDigit(r[k])
    ensures r[0] == '0' ==> n == 0
  {
    var d := ['0' + (n % 10) as char];
    if n < 10 then d else Decimal(n / 10) + d
  }

  /** `find_map` of `TrimEncodingPrefix` over `prefixes[k..]`. */
  function FirstTrim(s: string, prefixes: seq<string>, k: nat): (r: Option<nat>)
    requires k <= |prefixes|
    ensures r.Some? ==> r.value <= |s|
    decreases |prefixes| - k
  {
    if k == |prefixes| then None
    else match TrimEncodingPrefix(s, 0, prefixes[k])
      case Some(p) => Some(p)
      case None => FirstTrim(s, prefixes, k + 1)
  }

  lemma FirstTrimSkip(s: string, prefixes: seq<string>, k: nat)
    requires k < |prefixes| && TrimEncodingPrefix(s, 0, prefixes[k]) == None
    ensures FirstTrim(s, prefixes, k) == FirstTrim(s, prefixes, k + 1)
  {
  }

  lemma FirstTrimHit(s: string, prefixes: seq<string>, k: nat)
    requires k < |prefixes| && TrimEncodingPrefix(s, 0, prefixes[k]).Some?
    ensures FirstTrim(s, prefixes, k) == TrimEncodingPrefix(s, 0, prefixes[k])
  {
  }

  /** Prefixes after which the label is a plain code page number. */
  const NumberedPrefixes: seq<string> := ["asmo", "dos", "windows", "cp"]

  function NumberedStart(s: string): (r: Option<nat>)
    ensures r.Some? ==> r.value <= |s|
  {
    match FirstTrim(s, NumberedPrefixes, 0)
    case Some(p) => Some(p)
    case None => MatchEncodingParts(s, 0, ["x", "cp"])
  }

  /** The "euc" branch; only the upper-case "JP" selects 20932. */
  function EucCodepage(s: string, at: nat): (r: Option<u32>)
    requires at <= |s|
  {
    if RestEqIgnoreCase(s, at, "cn") then Some(51936)
    else if RestIs(s, at, "JP") then Some(20932)
    else if RestEqIgnoreCase(s, at, "jp") then Some(51932)
    else if RestEqIgnoreCase(s, at, "kr") then Some(51949)
    else None
  }

  lemma TrimSelf(s: string, at: nat)
    requires at + 2 <= |s|
    ensures TrimEncodingPrefix(s, at, s[at..at + 2]).Some?
  {
  }

  /**
   * The "utf" branch: "7" and "8" directly; otherwise the first two
   * characters are the width and what follows them (after at most one
   * separator) must be a byte order spelled "le", "LE", "be", "BE" or
   * nothing.
   */
  function UtfCodepage(s: string, at: nat): (r: Option<u32>)
    requires at <= |s|
  {
    if RestIs(s, at, "7") then Some(65000)
    else if RestIs(s, at, "8") then Some(CodepageUtf8)
    else if |s| - at < 2 then None
    else
      var digits := s[at..at + 2];
      TrimSelf(s, at);
      var q := TrimEncodingPrefix(s, at, digits).value;
      var little := RestIs(s, q, "le") || RestIs(s, q, "LE") || RestIs(s, q, "");
      var big := RestIs(s, q, "be") || RestIs(s, q, "BE");
      if digits == "16" && little then Some(CodepageUtf16)
      else if digits == "32" && little then Some(CodepageUtf32)
      else if digits == "16" && big then Some(CodepageUtf16Be)
      else if digits == "32" && big then Some(CodepageUtf32Be)
      else None
  }

  function GbCodepage(s: string, at: nat): (r: Option<u32>)
    requires at <= |s|
  {
    if RestIs(s, at, "k") || RestIs(s, at, "K") || RestIs(s, at, "2312") then Some(936)
    else if RestIs(s, at, "18030") then Some(54936)
    else None
  }

  /** IBM numbers whose Windows code page is the number plus 20000. */
  predicate IbmShifted(n: nat) { n == 924 || 273 <= n <= 424 || 871 <= n <= 905 }

  function IbmCodepage(s: string, at: nat): (r: Option<u32>)
    requires at <= |s|
  {
    if RestEqIgnoreCase(s, at, "thai") then Some(20838)
    else match ParseU32(s, at)
      case None => None
      case Some(n) => Some(if IbmShifted(n) then n + 20000 else n)
  }

  /** Exact part names after "iso-8859", and their code pages. */
  const Iso8859Parts: seq<(string, u32)> := [
    ("1", 28591), ("2", 28592), ("3", 28593), ("4", 28594), ("5", 28595),
    ("6", 28596), ("7", 28597), ("9", 28599), ("13", 28603), ("15", 28605)]

  /** The first entry of `table[k..]` whose name is exactly the view `s[at..]`. */
  function FindExact(s: string, at: nat, table: seq<(string, u32)>, k: nat): (r: Option<u32>)
    requires at <= |s| && k <= |table|
    ensures r.Some? ==> exists j ::
      && k <= j < |table| && s[at..] == table[j].0 && r.value == table[j].1
      && (forall i :: k <= i < j ==> s[at..] != table[i].0)
    ensures r.None? <==> forall j :: k <= j < |table| ==> s[at..] != table[j].0
    decreases |table| - k
  {
    if k == |table| then None
    else if RestIs(s, at, table[k].0) then Some(table[k].1)
    else FindExact(s, at, table, k + 1)
  }

  function IsoCodepage(s: string, at: nat): (r: Option<u32>)
    requires at <= |s|
  {
    match TrimEncodingPrefix(s, at, "2022")
    case Some(p) =>
      if RestIs(s, p, "jp") then Some(50220)
      else if RestIs(s, p, "kr") then Some(50225)
      else None
    case None =>
      match TrimEncodingPrefix(s, at, "8859")
      case None => None
      case Some(p) =>
        match FindExact(s, p, Iso8859Parts, 0)
        case Some(c) => Some(c)
        case None =>
          match TrimEncodingPrefix(s, p, "8")
          case None => None
          case Some(q) => Some(if RestIs(s, q, "i") || RestIs(s, q, "I") then 38598 else 28598)
  }

  /** Labels recognised as a whole, by their parts. */
  const SpecialParts: seq<(seq<string>, u32)> := [
    (["hz", "gb", "2312"], 52936),
    (["big", "5"], 950),
    (["johab"], 1361),
    (["koi8", "r"], 20866),
    (["koi8", "u"], 21866),
    (["ks", "c", "5601", "1987"], 949),
    (["macintosh"], 10000),
    (["shift", "jis"], 932),
    (["unicode", "fffe"], 1201),
    (["us", "ascii"], 20127),
    (["x", "chinese", "eten"], 20002),
    (["x", "chinese", "cns"], 20000),
    (["x", "EBCDIC", "KoreanExtended"], 20833),
    (["x", "Europa"], 29001)]

  /** The first entry of `SpecialParts[k..]` whose parts consume the whole label. */
  function FindSpecial(s: string, k: nat): (r: Option<u32>)
    requires k <= |SpecialParts|
    ensures r.Some? ==> exists j ::
      && k <= j < |SpecialParts| && MatchEncodingPartsExact(s, SpecialParts[j].0) && r.value == SpecialParts[j].1
      && (forall i :: k <= i < j ==> !MatchEncodingPartsExact(s, SpecialParts[i].0))
    ensures r.None? <==> forall j :: k <= j < |SpecialParts| ==> !MatchEncodingPartsExact(s, SpecialParts[j].0)
    decreases |SpecialParts| - k
  {
    if k == |SpecialParts| then None
    else if MatchEncodingPartsExact(s, SpecialParts[k].0) then Some(SpecialParts[k].1)
    else
      var r := FindSpecial(s, k + 1);
      SpecialSearchStep(s, SpecialParts, k, r);
      r
  }

  /** A result that is the first match from `k + 1` on is the first match from `k` on when entry `k` fails. */
  lemma SpecialSearchStep(s: string, table: seq<(seq<string>, u32)>, k: nat, r: Option<u32>)
    requires k < |table| && !MatchEncodingPartsExact(s, table[k].0)
    requires r.Some? ==> exists j ::
      && k + 1 <= j < |table| && MatchEncodingPartsExact(s, table[j].0) && r.value == table[j].1
      && (forall i :: k + 1 <= i < j ==> !MatchEncodingPartsExact(s, table[i].0))
    requires r.None? <==> forall j :: k + 1 <= j < |table| ==> !MatchEncodingPartsExact(s, table[j].0)
    ensures r.Some? ==> exists j ::
      && k <= j < |table| && MatchEncodingPartsExact(s, table[j].0) && r.value == table[j].1
      && (forall i :: k <= i < j ==> !MatchEncodingPartsExact(s, table[i].0))
    ensures r.None? <==> forall j :: k <= j < |table| ==> !MatchEncodingPartsExact(s, table[j].0)
  {
    if r.Some? {
      var j :| k + 1 <= j < |table| && MatchEncodingPartsExact(s, table[j].0) && r.value == table[j].1
        && (forall i :: k + 1 <= i < j ==> !MatchEncodingPartsExact(s, table[i].0));
      assert forall i :: k <= i < j ==> !MatchEncodingPartsExact(s, table[i].0);
    }
  }

  const XIa5Parts: seq<(string, u32)> := [
    ("", 20105), ("german", 20106), ("norwegian", 20108), ("swedish", 20107)]

  const XIsciiParts: seq<(string, u32)> := [
    ("as", 57006), ("be", 57003), ("de", 57002), ("gu", 57010), ("ka", 57008),
    ("ma", 57009), ("or", 57007), ("pa", 57011), ("ta", 57004), ("te", 57005)]

  const XMacParts: seq<(string, u32)> := [
    ("arabic", 10004), ("ce", 10029), ("chinesesimp", 10008), ("chinesetrad", 10002),
    ("croatian", 10082), ("cyrillic", 10007), ("greek", 10006), ("hebrew", 10005),
    ("icelandic", 10079), ("japanese", 10001), ("korean", 10003), ("romanian", 10010),
    ("thai", 10021), ("turkish", 10081), ("ukrainian", 10017)]

  /** The single part `part` consumes the whole view `s[at..]`. */
  predicate ConsumesRest(s: string, at: nat, part: string)
    requires at <= |s|
  {
    MatchEncodingParts(s, at, [part]) == Some(|s|)
  }

  /** The first entry of `table[k..]` whose single part consumes the whole view `s[at..]`. */
  function FindPart(s: string, at: nat, table: seq<(string, u32)>, k: nat): (r: Option<u32>)
    requires at <= |s| && k <= |table|
    ensures r.Some? ==> exists j ::
      && k <= j < |table| && ConsumesRest(s, at, table[j].0) && r.value == table[j].1
      && (forall i :: k <= i < j ==> !ConsumesRest(s, at, table[i].0))
    ensures r.None? <==> forall j :: k <= j < |table| ==> !ConsumesRest(s, at, table[j].0)
    decreases |table| - k
  {
    if k == |table| then None
    else if ConsumesRest(s, at, table[k].0) then Some(table[k].1)
    else
      var r := FindPart(s, at, table, k + 1);
      PartSearchStep(s, at, table, k, r);
      r
  }

  /** A result that is the first match from `k + 1` on is the first match from `k` on when entry `k` fails. */
  lemma PartSearchStep(s: string, at: nat, table: seq<(string, u32)>, k: nat, r: Option<u32>)
    requires at <= |s| && k < |table| && !ConsumesRest(s, at, table[k].0)
    requires r.Some? ==> exists j ::
      && k + 1 <= j < |table| && ConsumesRest(s, at, table[j].0) && r.value == table[j].1
      && (forall i :: k + 1 <= i < j ==> !ConsumesRest(s, at, table[i].0))
    requires r.None? <==> forall j :: k + 1 <= j < |table| ==> !ConsumesRest(s, at, table[j].0)
    ensures r.Some? ==> exists j ::
      && k <= j < |table| && ConsumesRest(s, at, table[j].0) && r.value == table[j].1
      && (forall i :: k <= i < j ==> !ConsumesRest(s, at, table[i].0))
    ensures r.None? <==> forall j :: k <= j < |table| ==> !ConsumesRest(s, at, table[j].0)
  {
    if r.Some? {
      var j :| k + 1 <= j < |table| && ConsumesRest(s, at, table[j].0) && r.value == table[j].1
        && (forall i :: k + 1 <= i < j ==> !ConsumesRest(s, at, table[i].0));
      assert forall i :: k <= i < j ==> !ConsumesRest(s, at, table[i].0);
    }
  }

  /** The "x" branch: an "ia5", "iscii" or "mac" family, then a name from its table. */
  function XCodepage(s: string, at: nat): (r: Option<u32>)
    requires at <= |s|
  {
    match TrimEncodingPrefix(s, at, "ia5")
    case Some(p) => FindPart(s, p, XIa5Parts, 0)
    case None =>
      match TrimEncodingPrefix(s, at, "iscii")
      case Some(p) => FindPart(s, p, XIsciiParts, 0)
      case None =>
        match TrimEncodingPrefix(s, at, "mac")
        case Some(p) => FindPart(s, p, XMacParts, 0)
        case None => None
  }

  /** `encoding_to_codepage`. */
  function EncodingToCodepage(s: string): (r: Option<u32>)
    ensures HasNonAscii(s, 0) ==> r == None
  {
    if HasNonAscii(s, 0) then None
    else if MatchEncodingPartsExact(s, ["cp", "1025"]) then Some(21025)
    else if RestEqIgnoreCase(s, 0, "csISO2022JP") then Some(50221)
    else match NumberedStart(s)
    case Some(p) => ParseU32(s, p)
    case None =>
    match TrimEncodingPrefix(s, 0, "euc")
    case Some(p) => EucCodepage(s, p)
    case None =>
    match TrimEncodingPrefix(s, 0, "utf")
    case Some(p) => UtfCodepage(s, p)
    case None =>
    match TrimEncodingPrefix(s, 0, "gb")
    case Some(p) => GbCodepage(s, p)
    case None =>
    match TrimEncodingPrefix(s, 0, "ibm")
    case Some(p) => IbmCodepage(s, p)
    case None =>
    match TrimEncodingPrefix(s, 0, "iso")
    case Some(p) => IsoCodepage(s, p)
    case None =>
    match FindSpecial(s, 0)
    case Some(c) => Some(c)
    case None =>
    match TrimEncodingPrefix(s, 0, "x")
    case Some(p) => XCodepage(s, p)
    case None => None
  }

  /** `is_no_flag_codepage`: code pages that refuse conversion flags. */
  predicate IsNoFlagCodepage(cp: u32)
  {
    cp in [50220, 50221, 50222, 50225, 50227, 50229, 65000, 42] || 57002 <= cp <= 57011
  }

  // ---------------------------------------------------------------------
  // Properties.

  /** `s` with ASCII capitals lowered: the spelling case-insensitive matching sees. */
  function Lower(s: string): (r: string)
  {
    seq(|s|, i requires 0 <= i < |s| => AsciiLower(s[i]))
  }

  predicate IsPlain(c: char) { 'a' <= c <= 'z' || '0' <= c <= '9' }

  /** A name written in lower-case letters and digits only. */
  predicate Plain(n: string) { forall i :: 0 <= i < |n| ==> IsPlain(n[i]) }

  /** The names of a table are plain and pairwise different. */
  ghost predicate PlainTable(t: seq<(string, u32)>)
  {
    && (forall j :: 0 <= j < |t| ==> Plain(t[j].0))
    && (forall j, k :: 0 <= j < k < |t| ==> t[j].0 != t[k].0)
  }

  /** No name in `t[j..]` is `n`. */
  predicate NameAbsent(n: string, t: seq<(string, u32)>, j: nat)
    decreases |t| - j
  {
    j >= |t| || (t[j].0 != n && NameAbsent(n, t, j + 1))
  }

  /** `PlainTable` for the entries from `k` on, checked entry by entry. */
  predicate PlainFrom(t: seq<(string, u32)>, k: nat)
    decreases |t| - k
  {
    k >= |t| || (Plain(t[k].0) && NameAbsent(t[k].0, t, k + 1) && PlainFrom(t, k + 1))
  }

  lemma {:induction false} NameAbsentMeans(n: string, t: seq<(string, u32)>, j: nat)
    requires NameAbsent(n, t, j)
    ensures forall i :: j <= i < |t| ==> t[i].0 != n
    decreases |t| - j
  {
    if j < |t| {
      NameAbsentMeans(n, t, j + 1);
    }
  }

  lemma {:induction false} PlainFromMeans(t: seq<(string, u32)>, k: nat)
    requires PlainFrom(t, k)
    ensures forall j :: k <= j < |t| ==> Plain(t[j].0)
    ensures forall i, j :: k <= i < j < |t| ==> t[i].0 != t[j].0
    decreases |t| - k
  {
    if k < |t| {
      NameAbsentMeans(t[k].0, t, k + 1);
      PlainFromMeans(t, k + 1);
    }
  }

  // The table checks go a few entries at a time, each lemma relying on the next.

  lemma Iso8859PartsFrom8()
    ensures PlainFrom(Iso8859Parts, 8)
  {
  }

  lemma Iso8859PartsFrom4()
    ensures PlainFrom(Iso8859Parts, 4)
  {
    Iso8859PartsFrom8();
  }

  lemma Iso8859PartsFrom0()
    ensures PlainFrom(Iso8859Parts, 0)
  {
    Iso8859PartsFrom4();
  }

  lemma Iso8859PartsPlain()
    ensures PlainTable(Iso8859Parts)
  {
    Iso8859PartsFrom0();
    PlainFromMeans(Iso8859Parts, 0);
  }

  lemma XIa5PartsFrom0()
    ensures PlainFrom(XIa5Parts, 0)
  {
  }

  lemma XIa5PartsPlain()
    ensures PlainTable(XIa5Parts)
  {
    XIa5PartsFrom0();
    PlainFromMeans(XIa5Parts, 0);
  }

  /** `a` comes strictly before `b` in alphabetical order, comparing from position `i` on. */
  predicate BeforeFrom(a: string, b: string, i: nat)
    requires i <= |a| && i <= |b|
    decreases |a| - i
  {
    i < |b| && (i == |a| || a[i] < b[i] || (a[i] == b[i] && BeforeFrom(a, b, i + 1)))
  }

  lemma {:induction false} BeforeIrreflexive(a: string, i: nat)
    requires i <= |a|
    ensures !BeforeFrom(a, a, i)
    decreases |a| - i
  {
    if i < |a| {
      BeforeIrreflexive(a, i + 1);
    }
  }

  lemma {:induction false} BeforeTransitive(a: string, b: string, c: string, i: nat)
    requires i <= |a| && i <= |b| && i <= |c|
    requires BeforeFrom(a, b, i) && BeforeFrom(b, c, i)
    ensures BeforeFrom(a, c, i)
    decreases |a| - i
  {
    if i < |a| && a[i] == b[i] && b[i] == c[i] {
      BeforeTransitive(a, b, c, i + 1);
    }
  }

  /** Names that agree before position `d` and differ there are ordered by their characters at `d`. */
  lemma {:induction false} BeforeAt(a: string, b: string, i: nat, d: nat)
    requires i <= d < |a| && d < |b| && a[d] < b[d]
    requires forall k :: i <= k < d ==> a[k] == b[k]
    ensures BeforeFrom(a, b, i)
    decreases d - i
  {
    if i < d {
      BeforeAt(a, b, i + 1, d);
    }
  }

  /** The names of `t[k..]` are plain and in strictly increasing alphabetical order. */
  predicate SortedFrom(t: seq<(string, u32)>, k: nat)
    decreases |t| - k
  {
    k >= |t| || (Plain(t[k].0) && (k + 1 < |t| ==> BeforeFrom(t[k].0, t[k + 1].0, 0)) && SortedFrom(t, k + 1))
  }

  lemma {:induction false} SortedFromMeans(t: seq<(string, u32)>, k: nat)
    requires SortedFrom(t, k)
    ensures forall j :: k <= j < |t| ==> Plain(t[j].0)
    ensures forall i, j :: k <= i < j < |t| ==> BeforeFrom(t[i].0, t[j].0, 0)
    decreases |t| - k
  {
    if k < |t| {
      SortedFromMeans(t, k + 1);
      forall j | k + 1 < j < |t|
        ensures BeforeFrom(t[k].0, t[j].0, 0)
      {
        BeforeTransitive(t[k].0, t[k + 1].0, t[j].0, 0);
      }
    }
  }

  /** A sorted table is a plain table. */
  lemma SortedIsPlain(t: seq<(string, u32)>)
    requires SortedFrom(t, 0)
    ensures PlainTable(t)
  {
    SortedFromMeans(t, 0);
    forall i, j | 0 <= i < j < |t|
      ensures t[i].0 != t[j].0
    {
      if t[i].0 == t[j].0 {
        BeforeIrreflexive(t[i].0, 0);
      }
    }
  }

  lemma XIsciiPartsSorted()
    ensures SortedFrom(XIsciiParts, 0)
  {
  }

  lemma XIsciiPartsPlain()
    ensures PlainTable(XIsciiParts)
  {
    XIsciiPartsSorted();
    SortedIsPlain(XIsciiParts);
  }

  lemma XMacPartsSortedFrom10()
    ensures SortedFrom(XMacParts, 10)
  {
  }

  lemma XMacPartsSortedFrom5()
    ensures SortedFrom(XMacParts, 5)
  {
    XMacPartsSortedFrom10();
  }

  lemma XMacPartsSortedFrom3()
    ensures SortedFrom(XMacParts, 3)
  {
    XMacPartsSortedFrom5();
  }

  lemma XMacPartsSorted()
    ensures SortedFrom(XMacParts, 0)
  {
    BeforeAt("chinesesimp", "chinesetrad", 0, 7);
    XMacPartsSortedFrom3();
  }

  lemma XMacPartsPlain()
    ensures PlainTable(XMacParts)
  {
    XMacPartsSorted();
    SortedIsPlain(XMacParts);
  }

  /** A view that differs from the prefix at some position, up to ASCII case, does not start with it. */
  lemma MismatchAt(s: string, at: nat, prefix: string, k: nat)
    requires at + k < |s| && k < |prefix| && AsciiLower(s[at + k]) != AsciiLower(prefix[k])
    ensures TrimEncodingPrefix(s, at, prefix) == None
  {
    if |prefix| <= |s| - at {
      assert s[at..at + |prefix|][k] == s[at + k];
    }
  }

  lemma MatchMismatch(s: string, at: nat, parts: seq<string>)
    requires at < |s| && 0 < |parts| && 0 < |parts[0]| && AsciiLower(s[at]) != AsciiLower(parts[0][0])
    ensures MatchEncodingParts(s, at, parts) == None
  {
    MismatchAt(s, at, parts[0], 0);
  }

  /** A single plain part consumes the whole plain view exactly when the view, lowered, is that part. */
  lemma PartMatches(s: string, at: nat, n: string)
    requires at <= |s| && Plain(n) && Plain(Lower(s)[at..])
    ensures MatchEncodingParts(s, at, [n]) == Some(|s|) <==> Lower(s)[at..] == n
  {
    MatchPartsCons(s, at, n, []);
    assert [n] + [] == [n];
    if Lower(s)[at..] == n {
      PartMatchesSpelled(s, at, n);
    }
    if MatchEncodingParts(s, at, [n]) == Some(|s|) {
      var p := TrimEncodingPrefix(s, at, n).value;
      MatchNoParts(s, p);
      PartMatchedIsSpelled(s, at, n, p);
    }
  }

  lemma PartMatchesSpelled(s: string, at: nat, n: string)
    requires at <= |s| && Plain(n) && Lower(s)[at..] == n
    ensures TrimEncodingPrefix(s, at, n) == Some(|s|)
  {
    assert EqIgnoreAsciiCase(s[at..at + |n|], n) by {
      forall i | 0 <= i < |n|
        ensures AsciiLower(s[at..at + |n|][i]) == AsciiLower(n[i])
      {
        assert Lower(s)[at..][i] == AsciiLower(s[at + i]);
      }
    }
  }

  lemma PartMatchedIsSpelled(s: string, at: nat, n: string, p: nat)
    requires at <= |s| && Plain(n) && Plain(Lower(s)[at..])
    requires TrimEncodingPrefix(s, at, n) == Some(p) && p == |s|
    ensures Lower(s)[at..] == n
  {
    var view := Lower(s)[at..];
    forall i | at <= i < |s|
      ensures !IsSeparator(s[i])
    {
      assert view[i - at] == AsciiLower(s[i]);
    }
    assert |view| == |n|;
    forall i | 0 <= i < |n|
      ensures view[i] == n[i]
    {
      assert s[at..at + |n|][i] == s[at + i];
      assert view[i] == AsciiLower(s[at + i]);
    }
  }

  /** In a plain table, the spelled name reaches its own entry: no other name matches first. */
  lemma {:induction false} FindPartSpelled(s: string, at: nat, table: seq<(string, u32)>, j: nat, k: nat)
    requires at <= |s| && PlainTable(table) && k <= j < |table| && Lower(s)[at..] == table[j].0
    ensures FindPart(s, at, table, k) == Some(table[j].1)
    decreases j - k
  {
    PartMatches(s, at, table[k].0);
    if k < j {
      FindPartSpelled(s, at, table, j, k + 1);
    }
  }

  lemma {:induction false} FindExactSpelled(s: string, at: nat, table: seq<(string, u32)>, j: nat, k: nat)
    requires at <= |s| && PlainTable(table) && k <= j < |table| && s[at..] == table[j].0
    ensures FindExact(s, at, table, k) == Some(table[j].1)
    decreases j - k
  {
    if k < j {
      FindExactSpelled(s, at, table, j, k + 1);
    }
  }

  /** Labels not starting with a, c, d, w or x (any case) skip the numbered branches. */
  lemma NotNumbered(s: string)
    requires 0 < |s| && AsciiLower(s[0]) !in "acdwx"
    ensures !MatchEncodingPartsExact(s, ["cp", "1025"])
    ensures !RestEqIgnoreCase(s, 0, "csISO2022JP")
    ensures NumberedStart(s) == None
  {
    MatchMismatch(s, 0, ["cp", "1025"]);
    MatchMismatch(s, 0, ["x", "cp"]);
    MismatchAt(s, 0, "asmo", 0);
    MismatchAt(s, 0, "dos", 0);
    MismatchAt(s, 0, "windows", 0);
    MismatchAt(s, 0, "cp", 0);
    assert FirstTrim(s, NumberedPrefixes, 0) == None;
  }

  /** An "euc" label is decided by the "euc" branch alone. */
  lemma RouteEuc(s: string, p: nat)
    requires !HasNonAscii(s, 0) && TrimEncodingPrefix(s, 0, "euc") == Some(p)
    ensures EncodingToCodepage(s) == EucCodepage(s, p)
  {
    NotNumbered(s);
  }

  lemma RouteUtf(s: string, p: nat)
    requires !HasNonAscii(s, 0) && TrimEncodingPrefix(s, 0, "utf") == Some(p)
    ensures EncodingToCodepage(s) == UtfCodepage(s, p)
  {
    NotNumbered(s);
    MismatchAt(s, 0, "euc", 0);
  }

  lemma RouteGb(s: string, p: nat)
    requires !HasNonAscii(s, 0) && TrimEncodingPrefix(s, 0, "gb") == Some(p)
    ensures EncodingToCodepage(s) == GbCodepage(s, p)
  {
    NotNumbered(s);
    MismatchAt(s, 0, "euc", 0);
    MismatchAt(s, 0, "utf", 0);
  }

  lemma RouteIbm(s: string, p: nat)
    requires !HasNonAscii(s, 0) && TrimEncodingPrefix(s, 0, "ibm") == Some(p)
    ensures EncodingToCodepage(s) == IbmCodepage(s, p)
  {
    NotNumbered(s);
    MismatchAt(s, 0, "euc", 0);
    MismatchAt(s, 0, "utf", 0);
    MismatchAt(s, 0, "gb", 0);
  }

  lemma RouteIso(s: string, p: nat)
    requires !HasNonAscii(s, 0) && TrimEncodingPrefix(s, 0, "iso") == Some(p)
    ensures EncodingToCodepage(s) == IsoCodepage(s, p)
  {
    NotNumbered(s);
    MismatchAt(s, 0, "euc", 0);
    MismatchAt(s, 0, "utf", 0);
    MismatchAt(s, 0, "gb", 0);
    MismatchAt(s, 0, "ibm", 1);
  }

  /** "x", a separator, then "i" or "m": none of the earlier branches or whole-label names apply. */
  lemma RouteXFamily(s: string)
    requires !HasNonAscii(s, 0) && 3 <= |s| && AsciiLower(s[0]) == 'x' && IsSeparator(s[1])
    requires AsciiLower(s[2]) == 'i' || AsciiLower(s[2]) == 'm'
    ensures EncodingToCodepage(s) == XCodepage(s, 2)
  {
    XFamilyNotNumbered(s);
    NoLetterPrefix(s);
    XFamilyNotSpecial(s);
    XTrim(s);
  }

  lemma XTrim(s: string)
    requires 2 <= |s| && AsciiLower(s[0]) == 'x' && IsSeparator(s[1])
    ensures TrimEncodingPrefix(s, 0, "x") == Some(2)
  {
    assert EqIgnoreAsciiCase(s[0..1], "x");
  }

  /** A label starting with "x" skips the "euc", "utf", "gb", "ibm" and "iso" branches. */
  lemma NoLetterPrefix(s: string)
    requires 0 < |s| && AsciiLower(s[0]) == 'x'
    ensures TrimEncodingPrefix(s, 0, "euc") == None && TrimEncodingPrefix(s, 0, "utf") == None
    ensures TrimEncodingPrefix(s, 0, "gb") == None && TrimEncodingPrefix(s, 0, "ibm") == None
    ensures TrimEncodingPrefix(s, 0, "iso") == None
  {
    MismatchAt(s, 0, "euc", 0);
    MismatchAt(s, 0, "utf", 0);
    MismatchAt(s, 0, "gb", 0);
    MismatchAt(s, 0, "ibm", 0);
    MismatchAt(s, 0, "iso", 0);
  }

  lemma XFamilyNotNumbered(s: string)
    requires 3 <= |s| && AsciiLower(s[0]) == 'x' && IsSeparator(s[1])
    requires AsciiLower(s[2]) == 'i' || AsciiLower(s[2]) == 'm'
    ensures !MatchEncodingPartsExact(s, ["cp", "1025"])
    ensures !RestEqIgnoreCase(s, 0, "csISO2022JP")
    ensures NumberedStart(s) == None
  {
    MatchMismatch(s, 0, ["cp", "1025"]);
    MismatchAt(s, 0, "asmo", 0);
    MismatchAt(s, 0, "dos", 0);
    MismatchAt(s, 0, "windows", 0);
    MismatchAt(s, 0, "cp", 0);
    assert FirstTrim(s, NumberedPrefixes, 0) == None;
    MatchPartsCons(s, 0, "x", ["cp"]);
    MismatchAt(s, 2, "cp", 0);
  }

  lemma XFamilyNotSpecial(s: string)
    requires 3 <= |s| && AsciiLower(s[0]) == 'x' && IsSeparator(s[1])
    requires AsciiLower(s[2]) == 'i' || AsciiLower(s[2]) == 'm'
    ensures FindSpecial(s, 0) == None
  {
    InitialsFrom0();
    SkipByInitial(s, 0, 10);
    XFamilyNotXSpecial(s);
  }

  /** The whole-label names starting with "x" continue with "c" or "e". */
  lemma XFamilyNotXSpecial(s: string)
    requires 3 <= |s| && AsciiLower(s[0]) == 'x' && IsSeparator(s[1])
    requires AsciiLower(s[2]) == 'i' || AsciiLower(s[2]) == 'm'
    ensures FindSpecial(s, 10) == None
  {
    XEntries();
    XSpecialSkip(s, 10);
    XSpecialSkip(s, 11);
    XSpecialSkip(s, 12);
    XSpecialSkip(s, 13);
    FindSpecialEnd(s);
  }

  /** The last four entries are "x" followed by a part starting with 'c' or 'E'. */
  lemma XEntries()
    ensures forall k :: 10 <= k < |SpecialParts| ==>
      && 2 <= |SpecialParts[k].0| && SpecialParts[k].0[0] == "x"
      && 0 < |SpecialParts[k].0[1]| && SpecialParts[k].0[1][0] in "cE"
  {
  }

  /** Entry `k`, "x" and then a part starting with 'c' or 'E', fails on a label continuing "x-i" or "x-m". */
  lemma XSpecialSkip(s: string, k: nat)
    requires 3 <= |s| && AsciiLower(s[0]) == 'x' && IsSeparator(s[1])
    requires AsciiLower(s[2]) == 'i' || AsciiLower(s[2]) == 'm'
    requires k < |SpecialParts| && 2 <= |SpecialParts[k].0| && SpecialParts[k].0[0] == "x"
    requires 0 < |SpecialParts[k].0[1]| && SpecialParts[k].0[1][0] in "cE"
    ensures FindSpecial(s, k) == FindSpecial(s, k + 1)
  {
    var parts := SpecialParts[k].0;
    var rest := parts[1..];
    assert parts == ["x"] + rest;
    MatchPartsCons(s, 0, "x", rest);
    MatchMismatch(s, 2, rest);
  }

  /** The view lowered starts with the plain prefix: trimming succeeds, past one separator if present. */
  lemma TrimSpelled(s: string, at: nat, prefix: string)
    requires Plain(prefix) && at + |prefix| <= |s| && Lower(s)[at..at + |prefix|] == prefix
    ensures TrimEncodingPrefix(s, at, prefix) ==
      Some(if at + |prefix| < |s| && IsSeparator(s[at + |prefix|]) then at + |prefix| + 1 else at + |prefix|)
  {
    assert EqIgnoreAsciiCase(s[at..at + |prefix|], prefix) by {
      forall i | 0 <= i < |prefix|
        ensures AsciiLower(s[at..at + |prefix|][i]) == AsciiLower(prefix[i])
      {
        assert Lower(s)[at..at + |prefix|][i] == AsciiLower(s[at + i]);
      }
    }
  }

  /** A label whose lowered form is ASCII is ASCII. */
  lemma AsciiSpelled(s: string)
    requires forall i :: 0 <= i < |s| ==> IsAscii(Lower(s)[i])
    ensures !HasNonAscii(s, 0)
  {
    forall k | 0 <= k < |s|
      ensures IsAscii(s[k])
    {
      assert IsAscii(Lower(s)[k]);
    }
  }

  /** Position `i` of a lowered label whose lowered form starts with `pre`. */
  lemma LowerAt(s: string, pre: string, rest: string, i: nat)
    requires Lower(s) == pre + rest && i < |pre|
    ensures AsciiLower(s[i]) == pre[i]
  {
    assert Lower(s)[i] == (pre + rest)[i];
  }

  lemma PlainIsAscii(pre: string, n: string)
    requires (forall i :: 0 <= i < |pre| ==> IsAscii(pre[i])) && Plain(n)
    ensures forall i :: 0 <= i < |pre + n| ==> IsAscii((pre + n)[i])
  {
  }

  /** Every x-mac name is reached by "x-mac-" and the name, in any ASCII case. */
  lemma XMacLabels(s: string, j: nat)
    requires j < |XMacParts| && Lower(s) == "x-mac-" + XMacParts[j].0
    ensures EncodingToCodepage(s) == Some(XMacParts[j].1)
  {
    XMacPartsPlain();
    PlainIsAscii("x-mac-", XMacParts[j].0);
    AsciiSpelled(s);
    LowerAt(s, "x-mac-", XMacParts[j].0, 0);
    LowerAt(s, "x-mac-", XMacParts[j].0, 1);
    LowerAt(s, "x-mac-", XMacParts[j].0, 2);
    RouteXFamily(s);
    XMacCodepage(s, j);
  }

  lemma XMacCodepage(s: string, j: nat)
    requires j < |XMacParts| && Lower(s) == "x-mac-" + XMacParts[j].0
    ensures XCodepage(s, 2) == Some(XMacParts[j].1)
  {
    XMacPartsPlain();
    LowerAt(s, "x-mac-", XMacParts[j].0, 2);
    LowerAt(s, "x-mac-", XMacParts[j].0, 5);
    assert Lower(s)[2..5] == "mac";
    MismatchAt(s, 2, "ia5", 0);
    MismatchAt(s, 2, "iscii", 0);
    TrimSpelled(s, 2, "mac");
    FindPartSpelled(s, 6, XMacParts, j, 0);
  }

  /** Every x-iscii name is reached by "x-iscii-" and the name, in any ASCII case. */
  lemma XIsciiLabels(s: string, j: nat)
    requires j < |XIsciiParts| && Lower(s) == "x-iscii-" + XIsciiParts[j].0
    ensures EncodingToCodepage(s) == Some(XIsciiParts[j].1)
  {
    XIsciiPartsPlain();
    PlainIsAscii("x-iscii-", XIsciiParts[j].0);
    AsciiSpelled(s);
    LowerAt(s, "x-iscii-", XIsciiParts[j].0, 0);
    LowerAt(s, "x-iscii-", XIsciiParts[j].0, 1);
    LowerAt(s, "x-iscii-", XIsciiParts[j].0, 2);
    RouteXFamily(s);
    XIsciiCodepage(s, j);
  }

  lemma XIsciiCodepage(s: string, j: nat)
    requires j < |XIsciiParts| && Lower(s) == "x-iscii-" + XIsciiParts[j].0
    ensures XCodepage(s, 2) == Some(XIsciiParts[j].1)
  {
    XIsciiPartsPlain();
    LowerAt(s, "x-iscii-", XIsciiParts[j].0, 3);
    LowerAt(s, "x-iscii-", XIsciiParts[j].0, 7);
    assert Lower(s)[2..7] == "iscii";
    MismatchAt(s, 2, "ia5", 1);
    TrimSpelled(s, 2, "iscii");
    FindPartSpelled(s, 8, XIsciiParts, j, 0);
  }

  /** "x-ia5" alone is the first entry; "x-ia5-" and a name reaches that name's entry. */
  lemma XIa5Labels(s: string, j: nat)
    requires j < |XIa5Parts|
    requires Lower(s) == "x-ia5" + (if j == 0 then "" else "-" + XIa5Parts[j].0)
    ensures EncodingToCodepage(s) == Some(XIa5Parts[j].1)
  {
    XIa5PartsPlain();
    var rest := if j == 0 then "" else "-" + XIa5Parts[j].0;
    if j == 0 {
      PlainIsAscii("x-ia5", "");
    } else {
      PlainIsAscii("x-ia5-", XIa5Parts[j].0);
      assert "x-ia5-" + XIa5Parts[j].0 == "x-ia5" + rest;
    }
    AsciiSpelled(s);
    LowerAt(s, "x-ia5", rest, 0);
    LowerAt(s, "x-ia5", rest, 1);
    LowerAt(s, "x-ia5", rest, 2);
    RouteXFamily(s);
    XIa5Codepage(s, j);
  }

  lemma XIa5Codepage(s: string, j: nat)
    requires j < |XIa5Parts|
    requires Lower(s) == "x-ia5" + (if j == 0 then "" else "-" + XIa5Parts[j].0)
    ensures XCodepage(s, 2) == Some(XIa5Parts[j].1)
  {
    XIa5PartsPlain();
    var rest := if j == 0 then "" else "-" + XIa5Parts[j].0;
    assert Lower(s)[2..5] == "ia5";
    TrimSpelled(s, 2, "ia5");
    if j != 0 {
      LowerAt(s, "x-ia5-", XIa5Parts[j].0, 5);
    }
    FindPartSpelled(s, if j == 0 then 5 else 6, XIa5Parts, j, 0);
  }

  // ---------------------------------------------------------------------
  // Numbers.

  /** `z` zero digits. */
  function Zeros(z: nat): (r: string)
    ensures |r| == z && forall k :: 0 <= k < z ==> r[k] == '0'
  {
    if z == 0 then "" else Zeros(z - 1) + "0"
  }

  lemma {:induction false} ZerosValue(s: string, lo: nat, hi: nat)
    requires lo <= hi <= |s| && forall k :: lo <= k < hi ==> s[k] == '0'
    ensures AllDigits(s, lo, hi) && DigitsValue(s, lo, hi) == 0
    decreases hi
  {
    if lo < hi {
      ZerosValue(s, lo, hi - 1);
    }
  }

  /** Zeros followed by the decimal spelling of `n` have the value `n`. */
  lemma {:induction false} DecimalValue(s: string, lo: nat, mid: nat, n: nat)
    requires lo <= mid && mid + |Decimal(n)| <= |s|
    requires forall k :: lo <= k < mid ==> s[k] == '0'
    requires s[mid..mid + |Decimal(n)|] == Decimal(n)
    ensures AllDigits(s, lo, mid + |Decimal(n)|) && DigitsValue(s, lo, mid + |Decimal(n)|) == n
    decreases n
  {
    var spelled := Decimal(n);
    var hi := mid + |spelled|;
    var d := ['0' + (n % 10) as char];
    assert s[hi - 1] == spelled[|spelled| - 1] == d[0];
    if n < 10 {
      ZerosValue(s, lo, mid);
    } else {
      var head := Decimal(n / 10);
      assert spelled == head + d;
      assert s[mid..hi - 1] == s[mid..hi][..|head|] == head;
      DecimalValue(s, lo, mid, n / 10);
    }
  }

  /**
   * `ParseU32` reads an optional '+', any number of leading zeros and a
   * decimal spelling as that number, and refuses numbers of 2^32 and above.
   */
  lemma ParseDecimal(s: string, at: nat, sign: string, z: nat, n: nat)
    requires at <= |s| && (sign == "" || sign == "+")
    requires s[at..] == sign + Zeros(z) + Decimal(n)
    ensures ParseU32(s, at) == if n < 0x1_0000_0000 then Some(n as u32) else None
  {
    var start := at + |sign|;
    ConcatAssoc(sign, Zeros(z), Decimal(n));
    assert s[start..] == Zeros(z) + Decimal(n) by {
      assert s[at..][|sign|..] == s[start..];
    }
    if sign == "" {
      assert s[at] == (Zeros(z) + Decimal(n))[0];
    } else {
      assert s[at] == s[at..][0] == '+';
    }
    SpelledValue(s, start, z, n);
    ParseDigits(s, at, start);
  }

  lemma SpelledValue(s: string, start: nat, z: nat, n: nat)
    requires start <= |s| && s[start..] == Zeros(z) + Decimal(n)
    ensures AllDigits(s, start, |s|) && DigitsValue(s, start, |s|) == n
  {
    var digits := Zeros(z) + Decimal(n);
    forall k | start <= k < start + z
      ensures s[k] == '0'
    {
      assert s[k] == digits[k - start] == Zeros(z)[k - start];
    }
    assert s[start + z..] == Decimal(n) by {
      assert digits[z..] == Decimal(n);
    }
    DecimalValue(s, start, start + z, n);
  }

  lemma ParseDigits(s: string, at: nat, start: nat)
    requires start < |s| && AllDigits(s, start, |s|)
    requires (start == at + 1 && s[at] == '+') || (start == at && s[at] != '+')
    ensures ParseU32(s, at) == if DigitsValue(s, start, |s|) < 0x1_0000_0000 then Some(DigitsValue(s, start, |s|) as u32) else None
  {
  }

  /** The empty view, a lone '+' and a leading '-' are not numbers. */
  lemma ParseRejects(s: string, at: nat)
    requires at <= |s| && (s[at..] == "" || s[at..] == "+" || (at < |s| && s[at] == '-'))
    ensures ParseU32(s, at) == None
  {
  }

  // ---------------------------------------------------------------------
  // Numbered labels.

  /** `p` is the plain word `w` in any ASCII case, optionally followed by one separator. */
  predicate PrefixSpelling(p: string, w: string)
  {
    Lower(p) == w || (|p| == |w| + 1 && Lower(p)[..|w|] == w && IsSeparator(p[|w|]))
  }

  /** A label made of a spelled prefix and decimal digits is ASCII. */
  lemma PrefixedDigitsAscii(s: string, p: string, w: string, t: string)
    requires s == p + t && Plain(w) && PrefixSpelling(p, w)
    requires forall i :: 0 <= i < |t| ==> IsDigit(t[i])
    ensures !HasNonAscii(s, 0)
  {
    forall k | 0 <= k < |s|
      ensures IsAscii(s[k])
    {
      if k < |w| {
        assert Lower(p)[k] == AsciiLower(p[k]) && s[k] == p[k];
        assert Lower(p)[..|w|][k] == w[k];
      } else if k < |p| {
        assert s[k] == p[k];
      } else {
        assert s[k] == t[k - |p|];
      }
    }
  }

  /** Trimming the word of a spelled prefix stops where the digits start. */
  lemma PrefixTrim(s: string, p: string, w: string, t: string)
    requires s == p + t && Plain(w) && PrefixSpelling(p, w) && 0 < |t| && IsDigit(t[0])
    ensures TrimEncodingPrefix(s, 0, w) == Some(|p|)
  {
    assert Lower(s)[0..|w|] == w by {
      forall i | 0 <= i < |w|
        ensures Lower(s)[i] == w[i]
      {
        assert s[i] == p[i] && Lower(p)[i] == AsciiLower(p[i]);
        assert Lower(p)[..|w|][i] == w[i];
      }
    }
    TrimSpelled(s, 0, w);
    assert s[|p|] == t[0];
    if |p| > |w| {
      assert s[|w|] == p[|w|];
    }
  }

  /** The digits of the label, and where they start. */
  lemma NumberFacts(z: nat, n: nat)
    ensures 0 < |Zeros(z) + Decimal(n)| && IsDigit((Zeros(z) + Decimal(n))[0])
    ensures forall i :: 0 <= i < |Zeros(z) + Decimal(n)| ==> IsDigit((Zeros(z) + Decimal(n))[i])
  {
  }

  /** The first letter of a label that spells a numbered prefix picks that prefix. */
  lemma NumberedFirstTrim(s: string, p: string, w: string, t: string)
    requires s == p + t && w in NumberedPrefixes && PrefixSpelling(p, w) && 0 < |t| && IsDigit(t[0])
    ensures FirstTrim(s, NumberedPrefixes, 0) == Some(|p|)
    ensures w != "cp" ==> !RestEqIgnoreCase(s, 0, "csISO2022JP") && !MatchEncodingPartsExact(s, ["cp", "1025"])
  {
    PrefixTrim(s, p, w, t);
    assert AsciiLower(s[0]) == w[0] by {
      assert Lower(s)[0] == AsciiLower(p[0]);
      assert Lower(p)[..|w|][0] == w[0];
    }
    var np := NumberedPrefixes;
    if w == "asmo" {
      FirstTrimHit(s, np, 0);
    } else {
      MismatchAt(s, 0, "asmo", 0);
      FirstTrimSkip(s, np, 0);
      if w == "dos" {
        FirstTrimHit(s, np, 1);
      } else {
        MismatchAt(s, 0, "dos", 0);
        FirstTrimSkip(s, np, 1);
        if w == "windows" {
          FirstTrimHit(s, np, 2);
        } else {
          MismatchAt(s, 0, "windows", 0);
          FirstTrimSkip(s, np, 2);
          FirstTrimHit(s, np, 3);
        }
      }
    }
    if w != "cp" {
      NotCpSpecial(s);
    }
  }

  /** A label that does not start with 'c' is neither "csISO2022JP" nor "cp1025". */
  lemma NotCpSpecial(s: string)
    requires 0 < |s| && AsciiLower(s[0]) != 'c'
    ensures !RestEqIgnoreCase(s, 0, "csISO2022JP") && !MatchEncodingPartsExact(s, ["cp", "1025"])
  {
    MatchMismatch(s, 0, ["cp", "1025"]);
    assert !EqIgnoreAsciiCase(s[0..], "csISO2022JP") by {
      if |s| == 11 {
        assert s[0..][0] == s[0];
      }
    }
  }

  /** A "cp" label with digits after the prefix is the whole-label name "cp1025" only when the digits are "1025". */
  lemma Cp1025Exact(s: string, q: nat)
    requires TrimEncodingPrefix(s, 0, "cp") == Some(q)
    requires forall k :: q <= k < |s| ==> IsDigit(s[k])
    ensures MatchEncodingPartsExact(s, ["cp", "1025"]) ==> s[q..] == "1025"
  {
    MatchPartsCons(s, 0, "cp", ["1025"]);
    MatchPartsCons(s, q, "1025", []);
    assert ["cp", "1025"] == ["cp"] + ["1025"] && ["1025"] == ["1025"] + [];
    match TrimEncodingPrefix(s, q, "1025")
    case None =>
    case Some(r) =>
      MatchNoParts(s, r);
      if r == |s| {
        forall i | 0 <= i < 4
          ensures s[q + i] == "1025"[i]
        {
          assert AsciiLower(s[q..q + 4][i]) == AsciiLower("1025"[i]);
        }
        assert |s| == q + 4;
      }
  }

  /** The only spelling of 1025 without leading zeros. */
  lemma Spelled1025(z: nat, n: nat)
    ensures Zeros(z) + Decimal(n) == "1025" ==> z == 0 && n == 1025
  {
    var t := Zeros(z) + Decimal(n);
    if 0 < z {
      assert t[0] == '0';
    } else if t == "1025" {
      assert t == Decimal(n);
      DecimalValue(t, 0, 0, n);
      Value1025();
    }
  }

  lemma Value1025()
    ensures AllDigits("1025", 0, 4) && DigitsValue("1025", 0, 4) == 1025
  {
    assert DigitsValue("1025", 0, 1) == 1;
    assert DigitsValue("1025", 0, 2) == 10;
    assert DigitsValue("1025", 0, 3) == 102;
  }

  /** "cp" and a number that is not 1025 (or has leading zeros) passes the "cp1025" and "csISO2022JP" checks. */
  lemma CpNot1025(s: string, p: string, z: nat, n: nat)
    requires s == p + Zeros(z) + Decimal(n) && PrefixSpelling(p, "cp") && !(z == 0 && n == 1025)
    ensures !MatchEncodingPartsExact(s, ["cp", "1025"])
  {
    var t := Zeros(z) + Decimal(n);
    NumberFacts(z, n);
    ConcatAssoc(p, Zeros(z), Decimal(n));
    PrefixTrim(s, p, "cp", t);
    assert s[|p|..] == t;
    Spelled1025(z, n);
    Cp1025Exact(s, |p|);
  }

  lemma CpNotCsIso(s: string, p: string, t: string)
    requires s == p + t && PrefixSpelling(p, "cp")
    ensures !RestEqIgnoreCase(s, 0, "csISO2022JP")
  {
    assert AsciiLower(s[1]) == 'p' by {
      assert s[1] == p[1];
      assert Lower(p)[..2][1] == 'p';
    }
    assert !EqIgnoreAsciiCase(s[0..], "csISO2022JP") by {
      if |s| == 11 {
        assert s[0..][1] == s[1];
      }
    }
  }

  /** A label that starts with a numbered prefix is a number and nothing else. */
  lemma RouteNumbered(s: string, q: nat)
    requires !HasNonAscii(s, 0) && NumberedStart(s) == Some(q)
    requires !MatchEncodingPartsExact(s, ["cp", "1025"]) && !RestEqIgnoreCase(s, 0, "csISO2022JP")
    ensures EncodingToCodepage(s) == ParseU32(s, q)
  {
  }

  /**
   * "asmo", "dos", "windows" or "cp" in any case, an optional separator and
   * a decimal number: the code page is that number, and none when it does
   * not fit in 32 bits. "cp1025" alone is the exception.
   */
  lemma NumberedLabels(s: string, p: string, w: string, z: nat, n: nat)
    requires w in NumberedPrefixes && PrefixSpelling(p, w)
    requires s == p + Zeros(z) + Decimal(n) && !(w == "cp" && z == 0 && n == 1025)
    ensures EncodingToCodepage(s) == if n < 0x1_0000_0000 then Some(n as u32) else None
  {
    assert Plain(w);
    DigitsLabel(s, p, w, z, n);
    NumberedSpelled(s, p, w, z, n);
    NumberedDigits(s, |p|, z, n);
  }

  lemma NumberedSpelled(s: string, p: string, w: string, z: nat, n: nat)
    requires w in NumberedPrefixes && PrefixSpelling(p, w)
    requires s == p + Zeros(z) + Decimal(n) && !(w == "cp" && z == 0 && n == 1025)
    ensures NumberedStart(s) == Some(|p|)
    ensures !MatchEncodingPartsExact(s, ["cp", "1025"]) && !RestEqIgnoreCase(s, 0, "csISO2022JP")
  {
    NumberFacts(z, n);
    ConcatAssoc(p, Zeros(z), Decimal(n));
    NumberedFirstTrim(s, p, w, Zeros(z) + Decimal(n));
    if w == "cp" {
      CpNot1025(s, p, z, n);
      CpNotCsIso(s, p, Zeros(z) + Decimal(n));
    }
  }

  lemma NumberedDigits(s: string, q: nat, z: nat, n: nat)
    requires !HasNonAscii(s, 0) && NumberedStart(s) == Some(q)
    requires !MatchEncodingPartsExact(s, ["cp", "1025"]) && !RestEqIgnoreCase(s, 0, "csISO2022JP")
    requires q <= |s| && s[q..] == Zeros(z) + Decimal(n)
    ensures EncodingToCodepage(s) == if n < 0x1_0000_0000 then Some(n as u32) else None
  {
    assert s[q..] == "" + Zeros(z) + Decimal(n);
    RouteNumbered(s, q);
    ParseDecimal(s, q, "", z, n);
  }

  /** A spelled prefix followed by a number: an ASCII label whose view after the prefix is the number. */
  lemma DigitsLabel(s: string, p: string, w: string, z: nat, n: nat)
    requires Plain(w) && PrefixSpelling(p, w) && s == p + Zeros(z) + Decimal(n)
    ensures !HasNonAscii(s, 0) && |p| <= |s| && s[|p|..] == Zeros(z) + Decimal(n)
    ensures 0 < |s| - |p| && IsDigit(s[|p|])
  {
    NumberFacts(z, n);
    ConcatAssoc(p, Zeros(z), Decimal(n));
    DigitsAfterPrefix(s, p, w, Zeros(z) + Decimal(n));
  }

  lemma ConcatAssoc(a: string, b: string, c: string)
    ensures a + b + c == a + (b + c)
  {
  }

  lemma DigitsAfterPrefix(s: string, p: string, w: string, t: string)
    requires Plain(w) && PrefixSpelling(p, w) && s == p + t
    requires 0 < |t| && forall i :: 0 <= i < |t| ==> IsDigit(t[i])
    ensures !HasNonAscii(s, 0) && |p| <= |s| && s[|p|..] == t
    ensures 0 < |s| - |p| && IsDigit(s[|p|])
  {
    PrefixedDigitsAscii(s, p, w, t);
    assert s[|p|..] == t;
    assert s[|p|] == t[0];
  }

  /** "cp", an optional separator and "1025" is code page 21025, not 1025. */
  lemma Cp1025Label(s: string, p: string)
    requires PrefixSpelling(p, "cp") && s == p + "1025"
    ensures EncodingToCodepage(s) == Some(21025)
  {
    PrefixedDigitsAscii(s, p, "cp", "1025");
    PrefixTrim(s, p, "cp", "1025");
    assert Lower(s)[|p|..|p| + 4] == "1025";
    TrimSpelled(s, |p|, "1025");
    MatchPartsCons(s, 0, "cp", ["1025"]);
    MatchPartsCons(s, |p|, "1025", []);
    MatchNoParts(s, |s|);
    assert ["cp", "1025"] == ["cp"] + ["1025"] && ["1025"] == ["1025"] + [];
  }

  /**
   * "ibm" in any case, an optional separator and a number with any leading
   * zeros: the number, plus 20000 for the EBCDIC pages that Windows numbers
   * that way.
   */
  lemma IbmLabels(s: string, p: string, z: nat, n: nat)
    requires PrefixSpelling(p, "ibm") && s == p + Zeros(z) + Decimal(n)
    ensures EncodingToCodepage(s) ==
      if n < 0x1_0000_0000 then Some(if IbmShifted(n) then n as u32 + 20000 else n as u32) else None
  {
    var t := Zeros(z) + Decimal(n);
    NumberFacts(z, n);
    ConcatAssoc(p, Zeros(z), Decimal(n));
    PrefixedDigitsAscii(s, p, "ibm", t);
    PrefixTrim(s, p, "ibm", t);
    RouteIbm(s, |p|);
    assert s[|p|..] == t;
    IbmDigits(s, |p|, z, n);
  }

  lemma IbmDigits(s: string, at: nat, z: nat, n: nat)
    requires at <= |s| && s[at..] == Zeros(z) + Decimal(n)
    ensures IbmCodepage(s, at) ==
      if n < 0x1_0000_0000 then Some(if IbmShifted(n) then n as u32 + 20000 else n as u32) else None
  {
    var t := Zeros(z) + Decimal(n);
    NumberFacts(z, n);
    assert !EqIgnoreAsciiCase(s[at..], "thai") by {
      if |s| - at == 4 {
        assert s[at..][0] == t[0];
      }
    }
    assert s[at..] == "" + t;
    ParseDecimal(s, at, "", z, n);
  }

  /** Trimming the word of a spelled prefix that starts the view at `at` stops right after the prefix. */
  lemma PrefixTrimAt(s: string, at: nat, p: string, w: string, t: string)
    requires at <= |s| && s[at..] == p + t && Plain(w) && PrefixSpelling(p, w)
    requires |p| == |w| && 0 < |t| ==> !IsSeparator(t[0])
    ensures TrimEncodingPrefix(s, at, w) == Some(at + |p|)
  {
    assert |w| <= |p|;
    assert Lower(s)[at..at + |w|] == w by {
      forall i | 0 <= i < |w|
        ensures Lower(s)[at + i] == w[i]
      {
        assert s[at + i] == s[at..][i] == p[i] && Lower(p)[i] == AsciiLower(p[i]);
        assert Lower(p)[..|w|][i] == w[i];
      }
    }
    TrimSpelled(s, at, w);
    if |p| > |w| {
      assert s[at + |w|] == s[at..][|w|] == p[|w|];
    } else if 0 < |t| {
      assert s[at + |p|] == s[at..][|p|] == t[0];
    }
  }

  /** A spelled prefix is ASCII. */
  lemma SpellingAscii(p: string, w: string)
    requires Plain(w) && PrefixSpelling(p, w)
    ensures forall i :: 0 <= i < |p| ==> IsAscii(p[i])
  {
    forall i | 0 <= i < |p|
      ensures IsAscii(p[i])
    {
      if i < |w| {
        assert Lower(p)[i] == AsciiLower(p[i]);
        assert Lower(p)[..|w|][i] == w[i];
      }
    }
  }

  /** A label whose lowered prefix and rest are ASCII is ASCII. */
  lemma SpelledAscii(s: string, p: string, w: string, t: string)
    requires s == p + t && Plain(w) && PrefixSpelling(p, w)
    requires forall i :: 0 <= i < |t| ==> IsAscii(t[i])
    ensures !HasNonAscii(s, 0)
  {
    forall k | 0 <= k < |s|
      ensures IsAscii(s[k])
    {
      if k < |w| {
        assert Lower(p)[k] == AsciiLower(p[k]) && s[k] == p[k];
        assert Lower(p)[..|w|][k] == w[k];
      } else if k < |p| {
        assert s[k] == p[k];
      } else {
        assert s[k] == t[k - |p|];
      }
    }
  }

  /** A label whose first letter is "x" and whose next part is not "cp" skips the numbered branches. */
  lemma XNotNumbered(s: string, q: nat)
    requires 0 < |s| && AsciiLower(s[0]) == 'x' && TrimEncodingPrefix(s, 0, "x") == Some(q)
    requires TrimEncodingPrefix(s, q, "cp") == None
    ensures !MatchEncodingPartsExact(s, ["cp", "1025"])
    ensures !RestEqIgnoreCase(s, 0, "csISO2022JP")
    ensures NumberedStart(s) == None
  {
    MatchMismatch(s, 0, ["cp", "1025"]);
    MismatchAt(s, 0, "asmo", 0);
    MismatchAt(s, 0, "dos", 0);
    MismatchAt(s, 0, "windows", 0);
    MismatchAt(s, 0, "cp", 0);
    assert FirstTrim(s, NumberedPrefixes, 0) == None;
    MatchPartsCons(s, 0, "x", ["cp"]);
    assert !EqIgnoreAsciiCase(s[0..], "csISO2022JP") by {
      if |s| == 11 {
        assert s[0..][0] == s[0];
      }
    }
  }

  /** "x", an optional separator, "cp", an optional separator and a number: that number. */
  lemma XCpLabels(s: string, p1: string, p2: string, z: nat, n: nat)
    requires PrefixSpelling(p1, "x") && PrefixSpelling(p2, "cp")
    requires s == p1 + p2 + Zeros(z) + Decimal(n)
    ensures EncodingToCodepage(s) == if n < 0x1_0000_0000 then Some(n as u32) else None
  {
    var t := Zeros(z) + Decimal(n);
    NumberFacts(z, n);
    ConcatAssoc(p1 + p2, Zeros(z), Decimal(n));
    ConcatAssoc(p1, p2, t);
    XCpStart(s, p1, p2, t);
    XCpAscii(s, p1, p2, t);
    SliceAfter(p1, p2, t);
    NumberedDigits(s, |p1| + |p2|, z, n);
  }

  lemma SliceAfter(a: string, b: string, t: string)
    ensures (a + (b + t))[|a| + |b|..] == t
  {
    assert (a + (b + t))[|a|..] == b + t;
  }

  lemma XCpAscii(s: string, p1: string, p2: string, t: string)
    requires PrefixSpelling(p1, "x") && PrefixSpelling(p2, "cp") && s == p1 + (p2 + t)
    requires forall i :: 0 <= i < |t| ==> IsDigit(t[i])
    ensures !HasNonAscii(s, 0)
  {
    assert Plain("x") && Plain("cp");
    SpellingAscii(p2, "cp");
    assert forall i :: 0 <= i < |p2 + t| ==> IsAscii((p2 + t)[i]);
    SpelledAscii(s, p1, "x", p2 + t);
  }

  lemma XCpStart(s: string, p1: string, p2: string, t: string)
    requires PrefixSpelling(p1, "x") && PrefixSpelling(p2, "cp") && s == p1 + (p2 + t)
    requires 0 < |t| && IsDigit(t[0])
    ensures NumberedStart(s) == Some(|p1| + |p2|)
    ensures !MatchEncodingPartsExact(s, ["cp", "1025"]) && !RestEqIgnoreCase(s, 0, "csISO2022JP")
  {
    XCpParts(s, p1, p2, t);
    NoNumberedPrefix(s);
    NotCpSpecial(s);
  }

  /** "x" and "cp", each spelled with an optional separator, match the parts "x" and "cp" up to the digits. */
  lemma XCpParts(s: string, p1: string, p2: string, t: string)
    requires PrefixSpelling(p1, "x") && PrefixSpelling(p2, "cp") && s == p1 + (p2 + t)
    requires 0 < |t| && IsDigit(t[0])
    ensures 0 < |s| && AsciiLower(s[0]) == 'x'
    ensures MatchEncodingParts(s, 0, ["x", "cp"]) == Some(|p1| + |p2|)
  {
    assert Plain("x") && Plain("cp");
    assert AsciiLower(p2[0]) == 'c' by {
      assert Lower(p2)[..2][0] == 'c' && Lower(p2)[0] == AsciiLower(p2[0]);
    }
    assert (p2 + t)[0] == p2[0];
    PrefixTrimAt(s, 0, p1, "x", p2 + t);
    assert s[|p1|..] == p2 + t;
    PrefixTrimAt(s, |p1|, p2, "cp", t);
    assert AsciiLower(s[0]) == 'x' by {
      assert Lower(p1)[..1][0] == 'x' && Lower(p1)[0] == AsciiLower(p1[0]);
    }
    MatchPartsCons(s, 0, "x", ["cp"]);
    MatchPartsCons(s, |p1|, "cp", []);
    MatchNoParts(s, |p1| + |p2|);
    assert ["x", "cp"] == ["x"] + ["cp"] && ["cp"] == ["cp"] + [];
  }

  /** A label starting with 'x' starts with none of the numbered prefixes. */
  lemma NoNumberedPrefix(s: string)
    requires 0 < |s| && AsciiLower(s[0]) == 'x'
    ensures FirstTrim(s, NumberedPrefixes, 0) == None
  {
    var np := NumberedPrefixes;
    MismatchAt(s, 0, "asmo", 0);
    FirstTrimSkip(s, np, 0);
    MismatchAt(s, 0, "dos", 0);
    FirstTrimSkip(s, np, 1);
    MismatchAt(s, 0, "windows", 0);
    FirstTrimSkip(s, np, 2);
    MismatchAt(s, 0, "cp", 0);
    FirstTrimSkip(s, np, 3);
  }

  // ---------------------------------------------------------------------
  // Labels of the "euc", "gb", "iso" and "utf" branches.

  lemma RestAfter(p: string, t: string)
    ensures (p + t)[|p|..] == t
  {
  }

  /** "euc", an optional separator and a region: only the upper-case "JP" selects 20932, other spellings of "jp" 51932. */
  lemma EucLabels(s: string, p: string, t: string)
    requires PrefixSpelling(p, "euc") && s == p + t && (forall i :: 0 <= i < |t| ==> IsAscii(t[i]))
    requires |p| == 3 && 0 < |t| ==> !IsSeparator(t[0])
    ensures EncodingToCodepage(s) ==
      if EqIgnoreAsciiCase(t, "cn") then Some(51936)
      else if t == "JP" then Some(20932)
      else if EqIgnoreAsciiCase(t, "jp") then Some(51932)
      else if EqIgnoreAsciiCase(t, "kr") then Some(51949)
      else None
  {
    assert Plain("euc");
    SpelledAscii(s, p, "euc", t);
    assert s[0..] == s;
    PrefixTrimAt(s, 0, p, "euc", t);
    RouteEuc(s, |p|);
    RestAfter(p, t);
  }

  /** "gb", an optional separator and "k", "K" or "2312" is 936; "18030" is 54936. */
  lemma GbLabels(s: string, p: string, t: string)
    requires PrefixSpelling(p, "gb") && s == p + t && (forall i :: 0 <= i < |t| ==> IsAscii(t[i]))
    requires |p| == 2 && 0 < |t| ==> !IsSeparator(t[0])
    ensures EncodingToCodepage(s) ==
      if t == "k" || t == "K" || t == "2312" then Some(936)
      else if t == "18030" then Some(54936)
      else None
  {
    assert Plain("gb");
    SpelledAscii(s, p, "gb", t);
    assert s[0..] == s;
    PrefixTrimAt(s, 0, p, "gb", t);
    RouteGb(s, |p|);
    RestAfter(p, t);
  }

  /** An "iso" label whose second part is `w` reaches the "iso" branch with `w` trimmed. */
  lemma IsoRoute(s: string, p1: string, p2: string, w: string, t: string)
    requires PrefixSpelling(p1, "iso") && PrefixSpelling(p2, w) && (w == "2022" || w == "8859")
    requires s == p1 + (p2 + t) && (forall i :: 0 <= i < |t| ==> IsAscii(t[i]))
    requires |p2| == 4 && 0 < |t| ==> !IsSeparator(t[0])
    ensures EncodingToCodepage(s) == IsoCodepage(s, |p1|)
    ensures s[|p1|..] == p2 + t && TrimEncodingPrefix(s, |p1|, w) == Some(|p1| + |p2|)
  {
    assert Plain("iso") && Plain(w);
    SpellingAscii(p2, w);
    assert forall i :: 0 <= i < |p2 + t| ==> IsAscii((p2 + t)[i]);
    SpelledAscii(s, p1, "iso", p2 + t);
    assert s[0..] == s;
    assert (p2 + t)[0] == p2[0] && IsDigit(w[0]);
    assert Lower(p2)[..4][0] == w[0] && Lower(p2)[0] == AsciiLower(p2[0]);
    PrefixTrimAt(s, 0, p1, "iso", p2 + t);
    RouteIso(s, |p1|);
    RestAfter(p1, p2 + t);
    PrefixTrimAt(s, |p1|, p2, w, t);
  }

  /** "iso-2022-" and then exactly "jp" or "kr", in lower case; any other ending has no code page. */
  lemma Iso2022Labels(s: string, p1: string, p2: string, t: string)
    requires PrefixSpelling(p1, "iso") && PrefixSpelling(p2, "2022")
    requires s == p1 + (p2 + t) && (forall i :: 0 <= i < |t| ==> IsAscii(t[i]))
    requires |p2| == 4 && 0 < |t| ==> !IsSeparator(t[0])
    ensures EncodingToCodepage(s) == if t == "jp" then Some(50220) else if t == "kr" then Some(50225) else None
  {
    IsoRoute(s, p1, p2, "2022", t);
    SliceAfter(p1, p2, t);
  }

  /** "iso-8859-" and a part name of the table: that part's code page. */
  lemma Iso8859Labels(s: string, p1: string, p2: string, j: nat)
    requires PrefixSpelling(p1, "iso") && PrefixSpelling(p2, "8859") && j < |Iso8859Parts|
    requires s == p1 + (p2 + Iso8859Parts[j].0)
    ensures EncodingToCodepage(s) == Some(Iso8859Parts[j].1)
  {
    var t := Iso8859Parts[j].0;
    assert 0 < |t| && forall i :: 0 <= i < |t| ==> IsDigit(t[i]);
    IsoRoute(s, p1, p2, "8859", t);
    Iso8859Part(s, p1, p2, j);
  }

  lemma Iso8859Part(s: string, p1: string, p2: string, j: nat)
    requires PrefixSpelling(p1, "iso") && PrefixSpelling(p2, "8859") && j < |Iso8859Parts|
    requires s == p1 + (p2 + Iso8859Parts[j].0)
    requires s[|p1|..] == p2 + Iso8859Parts[j].0 && TrimEncodingPrefix(s, |p1|, "8859") == Some(|p1| + |p2|)
    ensures IsoCodepage(s, |p1|) == Some(Iso8859Parts[j].1)
  {
    var t := Iso8859Parts[j].0;
    assert s[|p1|] == p2[0];
    assert AsciiLower(p2[0]) == '8' by {
      assert Lower(p2)[..4][0] == '8' && Lower(p2)[0] == AsciiLower(p2[0]);
    }
    MismatchAt(s, |p1|, "2022", 0);
    SliceAfter(p1, p2, t);
    Iso8859PartsPlain();
    FindExactSpelled(s, |p1| + |p2|, Iso8859Parts, j, 0);
  }

  /** `t` without one leading separator, if it has one. */
  function DropSeparator(t: string): (r: string)
    ensures |t| > 0 && IsSeparator(t[0]) ==> [t[0]] + r == t
    ensures !(|t| > 0 && IsSeparator(t[0])) ==> r == t
  {
    if 0 < |t| && IsSeparator(t[0]) then t[1..] else t
  }

  /**
   * "iso-8859-8" followed by anything ASCII is 28598, except when what
   * follows is "i" or "I", with or without one separator before it, which
   * is 38598.
   */
  lemma Iso8859EightLabels(s: string, p1: string, p2: string, t: string)
    requires PrefixSpelling(p1, "iso") && PrefixSpelling(p2, "8859")
    requires s == p1 + (p2 + ("8" + t)) && (forall i :: 0 <= i < |t| ==> IsAscii(t[i]))
    ensures EncodingToCodepage(s) ==
      if DropSeparator(t) in {"i", "I"} then Some(38598) else Some(28598)
  {
    assert forall i :: 0 <= i < |"8" + t| ==> IsAscii(("8" + t)[i]);
    IsoRoute(s, p1, p2, "8859", "8" + t);
    assert s[|p1|] == p2[0];
    assert AsciiLower(p2[0]) == '8' by {
      assert Lower(p2)[..4][0] == '8' && Lower(p2)[0] == AsciiLower(p2[0]);
    }
    SliceAfter(p1, p2, "8" + t);
    Iso8859Eight(s, |p1|, |p1| + |p2|, t);
  }

  lemma Iso8859Eight(s: string, at: nat, q: nat, t: string)
    requires at < |s| && AsciiLower(s[at]) == '8'
    requires TrimEncodingPrefix(s, at, "8859") == Some(q) && s[q..] == "8" + t
    ensures IsoCodepage(s, at) == if DropSeparator(t) in {"i", "I"} then Some(38598) else Some(28598)
  {
    MismatchAt(s, at, "2022", 0);
    NoEightPart(s, q, t);
    EightTrim(s, q, t);
  }

  /** No part name of the table starts with "8". */
  lemma NoEightPart(s: string, q: nat, t: string)
    requires q <= |s| && s[q..] == "8" + t
    ensures FindExact(s, q, Iso8859Parts, 0) == None
  {
    Iso8859Initials();
    forall j | 0 <= j < |Iso8859Parts|
      ensures s[q..] != Iso8859Parts[j].0
    {
      assert s[q..][0] == '8';
    }
  }

  lemma Iso8859Initials()
    ensures forall j :: 0 <= j < |Iso8859Parts| ==> 0 < |Iso8859Parts[j].0| && Iso8859Parts[j].0[0] != '8'
  {
  }

  lemma EightTrim(s: string, q: nat, t: string)
    requires q <= |s| && s[q..] == "8" + t
    ensures TrimEncodingPrefix(s, q, "8").Some?
    ensures s[TrimEncodingPrefix(s, q, "8").value..] == DropSeparator(t)
  {
    assert s[q] == s[q..][0] == '8';
    assert EqIgnoreAsciiCase(s[q..q + 1], "8");
    assert s[q + 1..] == t by {
      assert s[q..][1..] == t;
    }
    if 0 < |t| {
      assert s[q + 1] == t[0];
    }
  }

  /** The code page of a UTF-16 or UTF-32 encoding: little-endian unless it says big-endian. */
  function UtfCodepageOf(e: UtfEncoding): (cp: u32)
    requires e.ty != Utf8
    ensures cp in {CodepageUtf16, CodepageUtf16Be, CodepageUtf32, CodepageUtf32Be}
  {
    match (e.ty, e.byteOrder)
    case (Utf16, Be) => CodepageUtf16Be
    case (Utf16, _) => CodepageUtf16
    case (_, Be) => CodepageUtf32Be
    case (_, _) => CodepageUtf32
  }

  /** A label that parses as UTF-16 or UTF-32 is ASCII. */
  lemma ParsedIsAscii(s: string, e: UtfEncoding)
    requires Parse(s) == Some(e)
    ensures !HasNonAscii(s, 0)
  {
    var p := TrimEncodingPrefix(s, 0, "utf").value;
    var d := DigitsOf(e.ty);
    assert ParseType(s, p) == Some(e.ty);
    var q := TrimEncodingPrefix(s, p, d).value;
    assert ParseOrder(s, q) == Some(e.byteOrder);
    OrderAscii(s, q, e.byteOrder);
    TrimmedAscii(s, 0, "utf", p);
    TrimmedAscii(s, p, d, q);
  }

  /** Trimming an ASCII prefix passes over ASCII characters only. */
  lemma TrimmedAscii(s: string, at: nat, w: string, q: nat)
    requires at <= |s| && TrimEncodingPrefix(s, at, w) == Some(q)
    requires forall k :: 0 <= k < |w| ==> IsAscii(w[k])
    ensures forall k :: at <= k < q ==> IsAscii(s[k])
  {
    forall k | at <= k < q
      ensures IsAscii(s[k])
    {
      if k < at + |w| {
        assert AsciiLower(s[at..at + |w|][k - at]) == AsciiLower(w[k - at]);
      } else {
        assert IsSeparator(s[k]);
      }
    }
  }

  lemma OrderAscii(s: string, q: nat, m: ByteOrderMark)
    requires q <= |s| && s[q..] in OrderSpellings(m)
    ensures forall k :: q <= k < |s| ==> IsAscii(s[k])
  {
    forall k | q <= k < |s|
      ensures IsAscii(s[k])
    {
      assert s[k] == s[q..][k - q];
    }
  }

  /**
   * Every label that the UTF label parser reads as UTF-16 or UTF-32 maps
   * to the code page of that encoding, the order-less ones to the
   * little-endian page.
   */
  lemma ParsedUtfLabels(s: string, e: UtfEncoding)
    requires Parse(s) == Some(e) && e.ty != Utf8
    ensures EncodingToCodepage(s) == Some(UtfCodepageOf(e))
  {
    var p := TrimEncodingPrefix(s, 0, "utf").value;
    ParsedIsAscii(s, e);
    RouteUtf(s, p);
    ParsedUtfCodepage(s, e, p);
  }

  lemma ParsedUtfCodepage(s: string, e: UtfEncoding, p: nat)
    requires Parse(s) == Some(e) && e.ty != Utf8 && TrimEncodingPrefix(s, 0, "utf") == Some(p)
    ensures UtfCodepage(s, p) == Some(UtfCodepageOf(e))
  {
    var d := DigitsOf(e.ty);
    assert ParseType(s, p) == Some(e.ty);
    var q := TrimEncodingPrefix(s, p, d).value;
    assert ParseOrder(s, q) == Some(e.byteOrder);
    assert s[p..p + 2] == d;
  }

  /** "utf", an optional separator and "7" or "8" alone: UTF-7 and UTF-8. */
  lemma UtfShortLabels(s: string, p: string, d: string)
    requires PrefixSpelling(p, "utf") && (d == "7" || d == "8") && s == p + d
    ensures EncodingToCodepage(s) == Some(if d == "7" then 65000 else CodepageUtf8)
  {
    assert Plain("utf");
    SpelledAscii(s, p, "utf", d);
    assert s[0..] == s;
    PrefixTrimAt(s, 0, p, "utf", d);
    RouteUtf(s, |p|);
    RestAfter(p, d);
  }

  /**
   * "utf-8" followed by anything, such as a byte order, has no code page,
   * although the UTF label parser accepts "utf-8le" and "utf-8-".
   */
  lemma Utf8WithSuffix(s: string, p: string, t: string)
    requires PrefixSpelling(p, "utf") && s == p + ("8" + t) && 0 < |t| && (forall i :: 0 <= i < |t| ==> IsAscii(t[i]))
    ensures EncodingToCodepage(s) == None
  {
    assert Plain("utf");
    assert forall i :: 0 <= i < |"8" + t| ==> IsAscii(("8" + t)[i]);
    SpelledAscii(s, p, "utf", "8" + t);
    assert s[0..] == s;
    PrefixTrimAt(s, 0, p, "utf", "8" + t);
    RouteUtf(s, |p|);
    RestAfter(p, "8" + t);
    assert s[|p|] == '8';
  }

  lemma Utf8SuffixesParse()
    ensures Parse("utf-8le") == Some(UtfEncoding(Utf8, Le)) && EncodingToCodepage("utf-8le") == None
    ensures Parse("utf-8-") == Some(UtfEncoding(Utf8, NotPresent)) && EncodingToCodepage("utf-8-") == None
  {
    Utf8LeSuffixParses();
    Utf8DashSuffixParses();
  }

  lemma Utf8LeSuffixParses()
    ensures Parse("utf-8le") == Some(UtfEncoding(Utf8, Le)) && EncodingToCodepage("utf-8le") == None
  {
    assert "utf-8le"[..3] == "utf";
    assert "utf-8le"[3..] == "-" + "8" + "" + "le";
    SpellingPartsParse("utf-8le", UtfEncoding(Utf8, Le), "-", "", "le");
    assert Lower("utf-") == "utf-";
    Utf8WithSuffix("utf-8le", "utf-", "le");
  }

  lemma Utf8DashSuffixParses()
    ensures Parse("utf-8-") == Some(UtfEncoding(Utf8, NotPresent)) && EncodingToCodepage("utf-8-") == None
  {
    assert "utf-8-"[..3] == "utf";
    assert "utf-8-"[3..] == "-" + "8" + "-" + "";
    SpellingPartsParse("utf-8-", UtfEncoding(Utf8, NotPresent), "-", "-", "");
    assert Lower("utf-") == "utf-";
    Utf8WithSuffix("utf-8-", "utf-", "-");
  }

  /** "csISO2022JP", in any ASCII case, is 50221: it is checked right after "cp1025". */
  lemma CsIso2022JpLabel(s: string)
    requires EqIgnoreAsciiCase(s, "csISO2022JP")
    ensures EncodingToCodepage(s) == Some(50221)
  {
    forall k | 0 <= k < |s|
      ensures IsAscii(s[k])
    {
      assert IsAscii(AsciiLower("csISO2022JP"[k]));
    }
    PartMismatch(s, 0, ["cp", "1025"], 0, 1);
  }

  /** "ibm", an optional separator and "thai" in any ASCII case is 20838, ahead of any number. */
  lemma IbmThaiLabels(s: string, p: string, t: string)
    requires PrefixSpelling(p, "ibm") && s == p + t && EqIgnoreAsciiCase(t, "thai")
    ensures EncodingToCodepage(s) == Some(20838)
  {
    assert Plain("ibm");
    forall k | 0 <= k < |t|
      ensures IsAscii(t[k])
    {
      assert IsAscii(AsciiLower("thai"[k]));
    }
    SpelledAscii(s, p, "ibm", t);
    assert s[0..] == s;
    assert AsciiLower(t[0]) == 't';
    PrefixTrimAt(s, 0, p, "ibm", t);
    RouteIbm(s, |p|);
    RestAfter(p, t);
  }

  /**
   * A label whose first letter, in any ASCII case, starts none of the names the resolver knows
   * (and an "i" not followed by "b" or "s", as in "invalid_encoding") has no code page.
   */
  lemma UnknownInitialLabels(s: string)
    requires 2 <= |s| && AsciiLower(s[0]) !in "acdwxegbhjkmsu"
    requires AsciiLower(s[0]) == 'i' ==> AsciiLower(s[1]) != 'b' && AsciiLower(s[1]) != 's'
    ensures EncodingToCodepage(s) == None
  {
    if !HasNonAscii(s, 0) {
      NotNumbered(s);
      UnknownInitialBranches(s);
      NoSpecialFrom(s, 0);
      MismatchAt(s, 0, "x", 0);
      RouteNone(s);
    }
  }

  /** A label whose first letter starts no whole-label entry matches none of them. */
  lemma NoSpecialFrom(s: string, k: nat)
    requires 0 < |s| && k <= |SpecialParts| && AsciiLower(s[0]) !in "hbjkmsux"
    ensures FindSpecial(s, k) == None
  {
    NotAnInitial(AsciiLower(s[0]));
    NoInitialNoSpecial(s, k);
  }

  /** When no entry from `k` on starts with the label's first letter, none of them matches. */
  lemma NoInitialNoSpecial(s: string, k: nat)
    requires 0 < |s| && k <= |SpecialParts| && |SpecialParts| <= |SpecialInitials|
    requires forall i :: k <= i < |SpecialParts| ==> AsciiLower(s[0]) != SpecialInitials[i]
    ensures FindSpecial(s, k) == None
  {
    SkipByInitial(s, k, |SpecialParts|);
    FindSpecialEnd(s);
  }

  lemma NotAnInitial(c: char)
    requires c !in "hbjkmsux"
    ensures |SpecialInitials| == |SpecialParts|
    ensures forall i :: 0 <= i < |SpecialInitials| ==> c != SpecialInitials[i]
  {
    forall i | 0 <= i < |SpecialInitials|
      ensures c != SpecialInitials[i]
    {
      assert SpecialInitials[i] in "hbjkmsux";
    }
  }

  lemma FindSpecialEnd(s: string)
    ensures FindSpecial(s, |SpecialParts|) == None
  {
  }

  /** A label that every branch and every whole-label entry passes over has no code page. */
  lemma RouteNone(s: string)
    requires !HasNonAscii(s, 0) && NumberedStart(s) == None
    requires !MatchEncodingPartsExact(s, ["cp", "1025"]) && !RestEqIgnoreCase(s, 0, "csISO2022JP")
    requires TrimEncodingPrefix(s, 0, "euc") == None && TrimEncodingPrefix(s, 0, "utf") == None
    requires TrimEncodingPrefix(s, 0, "gb") == None && TrimEncodingPrefix(s, 0, "ibm") == None
    requires TrimEncodingPrefix(s, 0, "iso") == None && FindSpecial(s, 0) == None
    requires TrimEncodingPrefix(s, 0, "x") == None
    ensures EncodingToCodepage(s) == None
  {
  }

  lemma UnknownInitialBranches(s: string)
    requires 2 <= |s| && AsciiLower(s[0]) !in "egu"
    requires AsciiLower(s[0]) == 'i' ==> AsciiLower(s[1]) != 'b' && AsciiLower(s[1]) != 's'
    ensures TrimEncodingPrefix(s, 0, "euc") == None && TrimEncodingPrefix(s, 0, "utf") == None
    ensures TrimEncodingPrefix(s, 0, "gb") == None && TrimEncodingPrefix(s, 0, "ibm") == None
    ensures TrimEncodingPrefix(s, 0, "iso") == None
  {
    MismatchAt(s, 0, "euc", 0);
    MismatchAt(s, 0, "utf", 0);
    MismatchAt(s, 0, "gb", 0);
    if AsciiLower(s[0]) == 'i' {
      MismatchAt(s, 0, "ibm", 1);
      MismatchAt(s, 0, "iso", 1);
    } else {
      MismatchAt(s, 0, "ibm", 0);
      MismatchAt(s, 0, "iso", 0);
    }
  }

  /**
   * The code pages the resolver gives for "iso-2022-jp", "iso-2022-kr", "csISO2022JP", "utf-7" and
   * every x-iscii name refuse conversion flags; the UTF code pages accept them.
   */
  lemma NoFlagCodepages()
    ensures IsNoFlagCodepage(50220) && IsNoFlagCodepage(50225) && IsNoFlagCodepage(50221) && IsNoFlagCodepage(65000)
    ensures forall j :: 0 <= j < |XIsciiParts| ==> IsNoFlagCodepage(XIsciiParts[j].1)
    ensures !IsNoFlagCodepage(CodepageUtf8) && !IsNoFlagCodepage(CodepageUtf16) && !IsNoFlagCodepage(CodepageUtf16Be)
    ensures !IsNoFlagCodepage(CodepageUtf32) && !IsNoFlagCodepage(CodepageUtf32Be)
  {
  }

  /** The code pages that refuse conversion flags, written out one by one. */
  const NoFlagSet: set<u32> := {
    42, 50220, 50221, 50222, 50225, 50227, 50229, 65000,
    57002, 57003, 57004, 57005, 57006, 57007, 57008, 57009, 57010, 57011
  }

  /** A code page refuses flags exactly when it is one of the eighteen listed. */
  lemma NoFlagExactly(cp: u32)
    ensures IsNoFlagCodepage(cp) <==> cp in NoFlagSet
  {
    if 57002 <= cp <= 57011 {
      assert cp in NoFlagSet;
    }
  }

  // ---------------------------------------------------------------------
  // Whole-label names.

  /** A label the earlier branches leave alone is decided by the whole-label names when one matches. */
  lemma RouteSpecial(s: string)
    requires !HasNonAscii(s, 0) && NumberedStart(s) == None
    requires !MatchEncodingPartsExact(s, ["cp", "1025"]) && !RestEqIgnoreCase(s, 0, "csISO2022JP")
    requires TrimEncodingPrefix(s, 0, "euc") == None && TrimEncodingPrefix(s, 0, "utf") == None
    requires TrimEncodingPrefix(s, 0, "gb") == None && TrimEncodingPrefix(s, 0, "ibm") == None
    requires TrimEncodingPrefix(s, 0, "iso") == None && FindSpecial(s, 0).Some?
    ensures EncodingToCodepage(s) == FindSpecial(s, 0)
  {
  }

  /** Names whose first letter starts no earlier branch, where a leading "u" is not followed by "t". */
  lemma RoutePlainSpecial(s: string)
    requires !HasNonAscii(s, 0) && 2 <= |s| && FindSpecial(s, 0).Some?
    requires AsciiLower(s[0]) !in "acdwxegi"
    requires AsciiLower(s[0]) == 'u' ==> AsciiLower(s[1]) != 't'
    ensures EncodingToCodepage(s) == FindSpecial(s, 0)
  {
    NotNumbered(s);
    NotLetterBranches(s);
    RouteSpecial(s);
  }

  lemma NotLetterBranches(s: string)
    requires 2 <= |s| && AsciiLower(s[0]) !in "egi"
    requires AsciiLower(s[0]) == 'u' ==> AsciiLower(s[1]) != 't'
    ensures TrimEncodingPrefix(s, 0, "euc") == None && TrimEncodingPrefix(s, 0, "utf") == None
    ensures TrimEncodingPrefix(s, 0, "gb") == None && TrimEncodingPrefix(s, 0, "ibm") == None
    ensures TrimEncodingPrefix(s, 0, "iso") == None
  {
    MismatchAt(s, 0, "euc", 0);
    if AsciiLower(s[0]) == 'u' {
      MismatchAt(s, 0, "utf", 1);
    } else {
      MismatchAt(s, 0, "utf", 0);
    }
    MismatchAt(s, 0, "gb", 0);
    MismatchAt(s, 0, "ibm", 0);
    MismatchAt(s, 0, "iso", 0);
  }

  /** Names starting with "x", a separator and a part other than "cp". */
  lemma RouteXSpecial(s: string)
    requires !HasNonAscii(s, 0) && 3 <= |s| && FindSpecial(s, 0).Some?
    requires AsciiLower(s[0]) == 'x' && IsSeparator(s[1]) && TrimEncodingPrefix(s, 2, "cp") == None
    ensures EncodingToCodepage(s) == FindSpecial(s, 0)
  {
    XTrim(s);
    XNotNumbered(s, 2);
    NoLetterPrefix(s);
    RouteSpecial(s);
  }

  /** The initial letter of the first part of each whole-label entry, in table order. */
  const SpecialInitials: string := "hbjkkkmsuuxxxx"

  /** Entries from `k` on have a non-empty first part starting with the listed initial. */
  predicate InitialsFrom(k: nat)
    decreases |SpecialParts| - k
  {
    k >= |SpecialParts| ||
      (&& k < |SpecialInitials| && 0 < |SpecialParts[k].0| && 0 < |SpecialParts[k].0[0]|
       && SpecialParts[k].0[0][0] == SpecialInitials[k] && InitialsFrom(k + 1))
  }

  lemma InitialsFrom7()
    ensures InitialsFrom(7)
  {
  }

  lemma InitialsFrom0()
    ensures InitialsFrom(0)
  {
    InitialsFrom7();
  }

  lemma {:induction false} InitialAt(k: nat, j: nat)
    requires InitialsFrom(k) && k <= j < |SpecialParts|
    ensures j < |SpecialInitials| && 0 < |SpecialParts[j].0| && 0 < |SpecialParts[j].0[0]|
    ensures SpecialParts[j].0[0][0] == SpecialInitials[j]
    decreases j - k
  {
    if k < j {
      InitialAt(k + 1, j);
    }
  }

  /** Entries `k..j` whose initials differ from the label's first letter are skipped. */
  lemma {:induction false} SkipByInitial(s: string, k: nat, j: nat)
    requires 0 < |s| && k <= j <= |SpecialParts| && j <= |SpecialInitials|
    requires forall i :: k <= i < j ==> AsciiLower(s[0]) != SpecialInitials[i]
    ensures FindSpecial(s, k) == FindSpecial(s, j)
    decreases j - k
  {
    if k < j {
      InitialsFrom0();
      InitialAt(0, k);
      MatchMismatch(s, 0, SpecialParts[k].0);
      SkipByInitial(s, k + 1, j);
    }
  }

  /** The view lowered starts with the prefix lowered: trimming succeeds, past one separator if present. */
  lemma TrimLowered(s: string, at: nat, prefix: string)
    requires at + |prefix| <= |s| && Lower(s)[at..at + |prefix|] == Lower(prefix)
    ensures TrimEncodingPrefix(s, at, prefix) ==
      Some(if at + |prefix| < |s| && IsSeparator(Lower(s)[at + |prefix|]) then at + |prefix| + 1 else at + |prefix|)
  {
    assert EqIgnoreAsciiCase(s[at..at + |prefix|], prefix) by {
      forall i | 0 <= i < |prefix|
        ensures AsciiLower(s[at..at + |prefix|][i]) == AsciiLower(prefix[i])
      {
        assert Lower(s)[at..at + |prefix|][i] == AsciiLower(s[at + i]);
        assert Lower(prefix)[i] == AsciiLower(prefix[i]);
      }
    }
    if at + |prefix| < |s| {
      assert Lower(s)[at + |prefix|] == AsciiLower(s[at + |prefix|]);
    }
  }

  /** A part spelled, in any case, at `at` is consumed, with one separator after it. */
  lemma SpelledStep(s: string, at: nat, parts: seq<string>, j: nat, q: nat)
    requires j < |parts| && at + |parts[j]| <= |s| && Lower(s)[at..at + |parts[j]|] == Lower(parts[j])
    requires q == if at + |parts[j]| < |s| && IsSeparator(Lower(s)[at + |parts[j]|]) then at + |parts[j]| + 1 else at + |parts[j]|
    ensures MatchPartsFrom(s, at, parts, j) == MatchPartsFrom(s, q, parts, j + 1)
  {
    TrimLowered(s, at, parts[j]);
  }

  /** Part `j` differing from the view at its `k`-th character ends the match. */
  lemma PartMismatch(s: string, at: nat, parts: seq<string>, j: nat, k: nat)
    requires at + k < |s| && j < |parts| && k < |parts[j]| && AsciiLower(s[at + k]) != AsciiLower(parts[j][k])
    ensures MatchPartsFrom(s, at, parts, j) == None
  {
    MismatchAt(s, at, parts[j], k);
  }

  lemma SpecialSkip(s: string, k: nat)
    requires k < |SpecialParts| && MatchPartsFrom(s, 0, SpecialParts[k].0, 0) == None
    ensures FindSpecial(s, k) == FindSpecial(s, k + 1)
  {
  }

  lemma SpecialHit(s: string, k: nat)
    requires k < |SpecialParts| && MatchPartsFrom(s, 0, SpecialParts[k].0, 0) == Some(|s|)
    ensures FindSpecial(s, k) == Some(SpecialParts[k].1)
  {
  }

  /**
   * A label consumed exactly by entry `j`, whose first letter starts no earlier entry, selects
   * entry `j`: the first entry that matches wins.
   */
  lemma FoundByInitial(s: string, j: nat)
    requires 0 < |s| && j < |SpecialParts| && MatchPartsFrom(s, 0, SpecialParts[j].0, 0) == Some(|s|)
    requires forall i :: 0 <= i < j ==> AsciiLower(s[0]) != SpecialInitials[i]
    ensures FindSpecial(s, 0) == Some(SpecialParts[j].1)
  {
    SkipByInitial(s, 0, j);
    SpecialHit(s, j);
  }

  lemma LowerLength(s: string, n: string)
    requires Lower(s) == n
    ensures |s| == |n|
  {
  }

  lemma LowerFirst(s: string, c: char)
    requires 0 < |s| && Lower(s)[0] == c
    ensures AsciiLower(s[0]) == c
  {
  }

  // Each label of the unit-test table of whole-label names (src/sys/win/codepage.rs:221-333), in any
  // ASCII case, is consumed exactly by the parts of its own entry (`...Parts`), and each earlier entry
  // sharing its first letter fails on it (`...Not<k>`). With `FoundByInitial`, `SpecialSkip` and the
  // routes above, this gives the code page the test table lists.

  lemma HzGb2312Step0(s: string)
    requires Lower(s) == "hz-gb-2312"
    ensures MatchPartsFrom(s, 0, ["hz", "gb", "2312"], 0) == MatchPartsFrom(s, 3, ["hz", "gb", "2312"], 1)
  {
    SpelledStep(s, 0, ["hz", "gb", "2312"], 0, 3);
  }

  lemma HzGb2312Step1(s: string)
    requires Lower(s) == "hz-gb-2312"
    ensures MatchPartsFrom(s, 3, ["hz", "gb", "2312"], 1) == MatchPartsFrom(s, 6, ["hz", "gb", "2312"], 2)
  {
    SpelledStep(s, 3, ["hz", "gb", "2312"], 1, 6);
  }

  lemma HzGb2312Step2(s: string)
    requires Lower(s) == "hz-gb-2312"
    ensures MatchPartsFrom(s, 6, ["hz", "gb", "2312"], 2) == MatchPartsFrom(s, 10, ["hz", "gb", "2312"], 3)
  {
    SpelledStep(s, 6, ["hz", "gb", "2312"], 2, 10);
  }

  lemma HzGb2312Parts(s: string)
    requires Lower(s) == "hz-gb-2312"
    ensures MatchPartsFrom(s, 0, ["hz", "gb", "2312"], 0) == Some(10)
  {
    HzGb2312Step0(s);
    HzGb2312Step1(s);
    HzGb2312Step2(s);
  }

  lemma Big5Parts(s: string)
    requires Lower(s) == "big5"
    ensures MatchPartsFrom(s, 0, ["big", "5"], 0) == Some(4)
  {
    SpelledStep(s, 0, ["big", "5"], 0, 3);
    SpelledStep(s, 3, ["big", "5"], 1, 4);
  }

  lemma JohabParts(s: string)
    requires Lower(s) == "johab"
    ensures MatchPartsFrom(s, 0, ["johab"], 0) == Some(5)
  {
    SpelledStep(s, 0, ["johab"], 0, 5);
  }

  lemma Koi8RParts(s: string)
    requires Lower(s) == "koi8-r"
    ensures MatchPartsFrom(s, 0, ["koi8", "r"], 0) == Some(6)
  {
    SpelledStep(s, 0, ["koi8", "r"], 0, 5);
    SpelledStep(s, 5, ["koi8", "r"], 1, 6);
  }

  lemma Koi8UParts(s: string)
    requires Lower(s) == "koi8-u"
    ensures MatchPartsFrom(s, 0, ["koi8", "u"], 0) == Some(6)
  {
    SpelledStep(s, 0, ["koi8", "u"], 0, 5);
    SpelledStep(s, 5, ["koi8", "u"], 1, 6);
  }

  lemma Koi8UNot3(s: string)
    requires Lower(s) == "koi8-u"
    ensures MatchPartsFrom(s, 0, ["koi8", "r"], 0) == None
  {
    SpelledStep(s, 0, ["koi8", "r"], 0, 5);
    assert AsciiLower(s[5]) == Lower(s)[5];
    PartMismatch(s, 5, ["koi8", "r"], 1, 0);
  }

  lemma Ksc56011987Step0(s: string)
    requires Lower(s) == "ks_c_5601-1987"
    ensures MatchPartsFrom(s, 0, ["ks", "c", "5601", "1987"], 0) == MatchPartsFrom(s, 3, ["ks", "c", "5601", "1987"], 1)
  {
    SpelledStep(s, 0, ["ks", "c", "5601", "1987"], 0, 3);
  }

  lemma Ksc56011987Step1(s: string)
    requires Lower(s) == "ks_c_5601-1987"
    ensures MatchPartsFrom(s, 3, ["ks", "c", "5601", "1987"], 1) == MatchPartsFrom(s, 5, ["ks", "c", "5601", "1987"], 2)
  {
    SpelledStep(s, 3, ["ks", "c", "5601", "1987"], 1, 5);
  }

  lemma Ksc56011987Step2(s: string)
    requires Lower(s) == "ks_c_5601-1987"
    ensures MatchPartsFrom(s, 5, ["ks", "c", "5601", "1987"], 2) == MatchPartsFrom(s, 10, ["ks", "c", "5601", "1987"], 3)
  {
    SpelledStep(s, 5, ["ks", "c", "5601", "1987"], 2, 10);
  }

  lemma Ksc56011987Step3(s: string)
    requires Lower(s) == "ks_c_5601-1987"
    ensures MatchPartsFrom(s, 10, ["ks", "c", "5601", "1987"], 3) == MatchPartsFrom(s, 14, ["ks", "c", "5601", "1987"], 4)
  {
    SpelledStep(s, 10, ["ks", "c", "5601", "1987"], 3, 14);
  }

  lemma Ksc56011987Parts(s: string)
    requires Lower(s) == "ks_c_5601-1987"
    ensures MatchPartsFrom(s, 0, ["ks", "c", "5601", "1987"], 0) == Some(14)
  {
    Ksc56011987Step0(s);
    Ksc56011987Step1(s);
    Ksc56011987Step2(s);
    Ksc56011987Step3(s);
  }

  lemma Ksc56011987Not3(s: string)
    requires Lower(s) == "ks_c_5601-1987"
    ensures MatchPartsFrom(s, 0, ["koi8", "r"], 0) == None
  {
    assert AsciiLower(s[1]) == Lower(s)[1];
    PartMismatch(s, 0, ["koi8", "r"], 0, 1);
  }

  lemma Ksc56011987Not4(s: string)
    requires Lower(s) == "ks_c_5601-1987"
    ensures MatchPartsFrom(s, 0, ["koi8", "u"], 0) == None
  {
    assert AsciiLower(s[1]) == Lower(s)[1];
    PartMismatch(s, 0, ["koi8", "u"], 0, 1);
  }

  lemma MacintoshParts(s: string)
    requires Lower(s) == "macintosh"
    ensures MatchPartsFrom(s, 0, ["macintosh"], 0) == Some(9)
  {
    SpelledStep(s, 0, ["macintosh"], 0, 9);
  }

  lemma ShiftJisParts(s: string)
    requires Lower(s) == "shift_jis"
    ensures MatchPartsFrom(s, 0, ["shift", "jis"], 0) == Some(9)
  {
    SpelledStep(s, 0, ["shift", "jis"], 0, 6);
    SpelledStep(s, 6, ["shift", "jis"], 1, 9);
  }

  lemma UnicodeFffeStep0(s: string)
    requires Lower(s) == "unicodefffe"
    ensures MatchPartsFrom(s, 0, ["unicode", "fffe"], 0) == MatchPartsFrom(s, 7, ["unicode", "fffe"], 1)
  {
    SpelledStep(s, 0, ["unicode", "fffe"], 0, 7);
  }

  lemma UnicodeFffeStep1(s: string)
    requires Lower(s) == "unicodefffe"
    ensures MatchPartsFrom(s, 7, ["unicode", "fffe"], 1) == MatchPartsFrom(s, 11, ["unicode", "fffe"], 2)
  {
    SpelledStep(s, 7, ["unicode", "fffe"], 1, 11);
  }

  lemma UnicodeFffeParts(s: string)
    requires Lower(s) == "unicodefffe"
    ensures MatchPartsFrom(s, 0, ["unicode", "fffe"], 0) == Some(11)
  {
    UnicodeFffeStep0(s);
    UnicodeFffeStep1(s);
  }

  lemma UsAsciiParts(s: string)
    requires Lower(s) == "us-ascii"
    ensures MatchPartsFrom(s, 0, ["us", "ascii"], 0) == Some(8)
  {
    SpelledStep(s, 0, ["us", "ascii"], 0, 3);
    SpelledStep(s, 3, ["us", "ascii"], 1, 8);
  }

  lemma UsAsciiNot8(s: string)
    requires Lower(s) == "us-ascii"
    ensures MatchPartsFrom(s, 0, ["unicode", "fffe"], 0) == None
  {
    assert AsciiLower(s[1]) == Lower(s)[1];
    PartMismatch(s, 0, ["unicode", "fffe"], 0, 1);
  }

  lemma XChineseEtenStep0(s: string)
    requires Lower(s) == "x_chinese-eten"
    ensures MatchPartsFrom(s, 0, ["x", "chinese", "eten"], 0) == MatchPartsFrom(s, 2, ["x", "chinese", "eten"], 1)
  {
    SpelledStep(s, 0, ["x", "chinese", "eten"], 0, 2);
  }

  lemma XChineseEtenStep1(s: string)
    requires Lower(s) == "x_chinese-eten"
    ensures MatchPartsFrom(s, 2, ["x", "chinese", "eten"], 1) == MatchPartsFrom(s, 10, ["x", "chinese", "eten"], 2)
  {
    SpelledStep(s, 2, ["x", "chinese", "eten"], 1, 10);
  }

  lemma XChineseEtenStep2(s: string)
    requires Lower(s) == "x_chinese-eten"
    ensures MatchPartsFrom(s, 10, ["x", "chinese", "eten"], 2) == MatchPartsFrom(s, 14, ["x", "chinese", "eten"], 3)
  {
    SpelledStep(s, 10, ["x", "chinese", "eten"], 2, 14);
  }

  lemma XChineseEtenParts(s: string)
    requires Lower(s) == "x_chinese-eten"
    ensures MatchPartsFrom(s, 0, ["x", "chinese", "eten"], 0) == Some(14)
  {
    XChineseEtenStep0(s);
    XChineseEtenStep1(s);
    XChineseEtenStep2(s);
  }

  lemma XChineseCnsStep0(s: string)
    requires Lower(s) == "x-chinese_cns"
    ensures MatchPartsFrom(s, 0, ["x", "chinese", "cns"], 0) == MatchPartsFrom(s, 2, ["x", "chinese", "cns"], 1)
  {
    SpelledStep(s, 0, ["x", "chinese", "cns"], 0, 2);
  }

  lemma XChineseCnsStep1(s: string)
    requires Lower(s) == "x-chinese_cns"
    ensures MatchPartsFrom(s, 2, ["x", "chinese", "cns"], 1) == MatchPartsFrom(s, 10, ["x", "chinese", "cns"], 2)
  {
    SpelledStep(s, 2, ["x", "chinese", "cns"], 1, 10);
  }

  lemma XChineseCnsStep2(s: string)
    requires Lower(s) == "x-chinese_cns"
    ensures MatchPartsFrom(s, 10, ["x", "chinese", "cns"], 2) == MatchPartsFrom(s, 13, ["x", "chinese", "cns"], 3)
  {
    SpelledStep(s, 10, ["x", "chinese", "cns"], 2, 13);
  }

  lemma XChineseCnsParts(s: string)
    requires Lower(s) == "x-chinese_cns"
    ensures MatchPartsFrom(s, 0, ["x", "chinese", "cns"], 0) == Some(13)
  {
    XChineseCnsStep0(s);
    XChineseCnsStep1(s);
    XChineseCnsStep2(s);
  }

  lemma XChineseCnsNot10(s: string)
    requires Lower(s) == "x-chinese_cns"
    ensures MatchPartsFrom(s, 0, ["x", "chinese", "eten"], 0) == None
  {
    XChineseCnsEtenStep0(s);
    XChineseCnsEtenStep1(s);
    assert AsciiLower(s[10]) == Lower(s)[10];
    PartMismatch(s, 10, ["x", "chinese", "eten"], 2, 0);
  }

  lemma XChineseCnsEtenStep0(s: string)
    requires Lower(s) == "x-chinese_cns"
    ensures MatchPartsFrom(s, 0, ["x", "chinese", "eten"], 0) == MatchPartsFrom(s, 2, ["x", "chinese", "eten"], 1)
  {
    SpelledStep(s, 0, ["x", "chinese", "eten"], 0, 2);
  }

  lemma XChineseCnsEtenStep1(s: string)
    requires Lower(s) == "x-chinese_cns"
    ensures MatchPartsFrom(s, 2, ["x", "chinese", "eten"], 1) == MatchPartsFrom(s, 10, ["x", "chinese", "eten"], 2)
  {
    SpelledStep(s, 2, ["x", "chinese", "eten"], 1, 10);
  }

  lemma XFirstStep(s: string, parts: seq<string>)
    requires 1 <= |parts| && parts[0] == "x" && 2 <= |s| && Lower(s)[0] == 'x' && IsSeparator(Lower(s)[1])
    ensures MatchPartsFrom(s, 0, parts, 0) == MatchPartsFrom(s, 2, parts, 1)
  {
    assert Lower(s)[0..1] == Lower(parts[0]);
    SpelledStep(s, 0, parts, 0, 2);
  }

  lemma XEbcdicKoreanExtendedStep0(s: string)
    requires Lower(s) == "x-ebcdic-koreanextended"
    ensures MatchPartsFrom(s, 0, ["x", "EBCDIC", "KoreanExtended"], 0) == MatchPartsFrom(s, 2, ["x", "EBCDIC", "KoreanExtended"], 1)
  {
    SpelledStep(s, 0, ["x", "EBCDIC", "KoreanExtended"], 0, 2);
  }

  lemma XEbcdicKoreanExtendedStep1(s: string)
    requires Lower(s) == "x-ebcdic-koreanextended"
    ensures MatchPartsFrom(s, 2, ["x", "EBCDIC", "KoreanExtended"], 1) == MatchPartsFrom(s, 9, ["x", "EBCDIC", "KoreanExtended"], 2)
  {
    SpelledStep(s, 2, ["x", "EBCDIC", "KoreanExtended"], 1, 9);
  }

  lemma XEbcdicKoreanExtendedStep2(s: string)
    requires Lower(s) == "x-ebcdic-koreanextended"
    ensures MatchPartsFrom(s, 9, ["x", "EBCDIC", "KoreanExtended"], 2) == MatchPartsFrom(s, 23, ["x", "EBCDIC", "KoreanExtended"], 3)
  {
    SpelledStep(s, 9, ["x", "EBCDIC", "KoreanExtended"], 2, 23);
  }

  lemma XEbcdicKoreanExtendedParts(s: string)
    requires Lower(s) == "x-ebcdic-koreanextended"
    ensures MatchPartsFrom(s, 0, ["x", "EBCDIC", "KoreanExtended"], 0) == Some(23)
  {
    XEbcdicKoreanExtendedStep0(s);
    XEbcdicKoreanExtendedStep1(s);
    XEbcdicKoreanExtendedStep2(s);
  }

  lemma XEbcdicKoreanExtendedNot10(s: string)
    requires Lower(s) == "x-ebcdic-koreanextended"
    ensures MatchPartsFrom(s, 0, ["x", "chinese", "eten"], 0) == None
  {
    assert Lower(s)[..3] == "x-e";
    XSecondPartMismatch(s, ["x", "chinese", "eten"]);
  }

  lemma XEbcdicKoreanExtendedNot11(s: string)
    requires Lower(s) == "x-ebcdic-koreanextended"
    ensures MatchPartsFrom(s, 0, ["x", "chinese", "cns"], 0) == None
  {
    assert Lower(s)[..3] == "x-e";
    XSecondPartMismatch(s, ["x", "chinese", "cns"]);
  }

  /** After "x" and a separator, a third character unlike the second part's first letter ends the match. */
  lemma XSecondPartMismatch(s: string, parts: seq<string>)
    requires 2 <= |parts| && parts[0] == "x" && 0 < |parts[1]| && 3 <= |s|
    requires IsSeparator(Lower(s)[1]) && Lower(s)[0] == 'x' && Lower(s)[2] != AsciiLower(parts[1][0])
    ensures MatchPartsFrom(s, 0, parts, 0) == None
  {
    XFirstStep(s, parts);
    PartMismatch(s, 2, parts, 1, 0);
  }

  lemma XEuropaParts(s: string)
    requires Lower(s) == "x-europa"
    ensures MatchPartsFrom(s, 0, ["x", "Europa"], 0) == Some(8)
  {
    SpelledStep(s, 0, ["x", "Europa"], 0, 2);
    SpelledStep(s, 2, ["x", "Europa"], 1, 8);
  }

  lemma XEuropaNot10(s: string)
    requires Lower(s) == "x-europa"
    ensures MatchPartsFrom(s, 0, ["x", "chinese", "eten"], 0) == None
  {
    SpelledStep(s, 0, ["x", "chinese", "eten"], 0, 2);
    assert AsciiLower(s[2]) == Lower(s)[2];
    PartMismatch(s, 2, ["x", "chinese", "eten"], 1, 0);
  }

  lemma XEuropaNot11(s: string)
    requires Lower(s) == "x-europa"
    ensures MatchPartsFrom(s, 0, ["x", "chinese", "cns"], 0) == None
  {
    SpelledStep(s, 0, ["x", "chinese", "cns"], 0, 2);
    assert AsciiLower(s[2]) == Lower(s)[2];
    PartMismatch(s, 2, ["x", "chinese", "cns"], 1, 0);
  }

  lemma XEuropaNot12(s: string)
    requires Lower(s) == "x-europa"
    ensures MatchPartsFrom(s, 0, ["x", "EBCDIC", "KoreanExtended"], 0) == None
  {
    SpelledStep(s, 0, ["x", "EBCDIC", "KoreanExtended"], 0, 2);
    assert AsciiLower(s[3]) == Lower(s)[3];
    PartMismatch(s, 2, ["x", "EBCDIC", "KoreanExtended"], 1, 1);
  }

}
