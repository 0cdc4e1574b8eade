/**
 * Encoding-name matching (src/encoding.rs).
 *
 * A label is a string; the Rust code walks it with sub-slices, which are
 * views `name[at..]` of the original name, so every routine here takes the
 * name and the offset `at` where the current view starts, and returns the
 * offset of the remaining view. The source splits at a byte offset; since
 * every prefix the crate passes is ASCII, splitting by characters gives the
 * same answers.
 */
module Encoding {
  import opened Wrappers

  predicate IsSeparator(c: char) { c == '-' || c == '_' || c == ' ' }

  predicate IsAscii(c: char) { c as int < 0x80 }

  function AsciiLower(c: char): (r: char)
    ensures IsAscii(r) <==> IsAscii(c)
    ensures 'A' <= c <= 'Z' ==> r as int == c as int + 32
    ensures !('A' <= c <= 'Z') ==> r == c
  {
    if 'A' <= c <= 'Z' then (c as int + 32) as char else c
  }

  /** Reference meaning of `a.eq_ignore_ascii_case(b)`. */
  ghost predicate EqIgnoreAsciiCase(a: string, b: string)
  {
    |a| == |b| && forall i :: 0 <= i < |a| ==> AsciiLower(a[i]) == AsciiLower(b[i])
  }

  /** Characters `i..` of `t` equal the characters at `at + i ..` of `s`, up to ASCII case. */
  predicate CaseEqFrom(s: string, at: nat, t: string, i: nat)
    requires at + |t| <= |s| && i <= |t|
    ensures CaseEqFrom(s, at, t, i) <==>
      forall k :: i <= k < |t| ==> AsciiLower(s[at + k]) == AsciiLower(t[k])
    decreases |t| - i
  {
    i == |t| || (AsciiLower(s[at + i]) == AsciiLower(t[i]) && CaseEqFrom(s, at, t, i + 1))
  }

  /** Characters `i..` of `t` equal the characters at `at + i ..` of `s` exactly. */
  predicate ExactFrom(s: string, at: nat, t: string, i: nat)
    requires at + |t| <= |s| && i <= |t|
    ensures ExactFrom(s, at, t, i) <==> forall k :: i <= k < |t| ==> s[at + k] == t[k]
    decreases |t| - i
  {
    i == |t| || (s[at + i] == t[i] && ExactFrom(s, at, t, i + 1))
  }

  /** The view `s[at..]` equals `t` (a Rust `match` arm on a string literal). */
  predicate RestIs(s: string, at: nat, t: string)
    requires at <= |s|
    ensures RestIs(s, at, t) <==> s[at..] == t
  {
    |s| - at == |t| && ExactFrom(s, at, t, 0)
  }

  /** The view `s[at..]` equals `t` up to ASCII case. */
  predicate RestEqIgnoreCase(s: string, at: nat, t: string)
    requires at <= |s|
    ensures RestEqIgnoreCase(s, at, t) <==> EqIgnoreAsciiCase(s[at..], t)
  {
    |s| - at == |t| && CaseEqFrom(s, at, t, 0)
  }

  /** The view `s[at..]` starts with `t` (`str::starts_with`). */
  predicate RestStartsWith(s: string, at: nat, t: string)
    requires at <= |s|
    ensures RestStartsWith(s, at, t) <==> t <= s[at..]
  {
    |t| <= |s| - at && ExactFrom(s, at, t, 0)
  }

  /**
   * `trim_encoding_prefix(name[at..], prefix)`: `None` when the view is
   * shorter than the prefix or does not start with it up to ASCII case;
   * otherwise the offset after the prefix and after at most one separator.
   */
  function TrimEncodingPrefix(name: string, at: nat, prefix: string): (r: Option<nat>)
    requires at <= |name|
    ensures |name| - at < |prefix| ==> r == None
    ensures r.Some? <==>
      |prefix| <= |name| - at && EqIgnoreAsciiCase(name[at..at + |prefix|], prefix)
    ensures r.Some? ==>
      && at + |prefix| <= r.value <= |name|
      && r.value <= at + |prefix| + 1
      && (r.value == at + |prefix| + 1 <==> at + |prefix| < |name| && IsSeparator(name[at + |prefix|]))
  {
    if |name| - at < |prefix| || !CaseEqFrom(name, at, prefix, 0) then None
    else
      var p := at + |prefix|;
      Some(if p < |name| && IsSeparator(name[p]) then p + 1 else p)
  }

  /** `match_encoding_parts`: `try_fold` of `TrimEncodingPrefix` over `parts[j..]`. */
  function MatchPartsFrom(name: string, at: nat, parts: seq<string>, j: nat): (r: Option<nat>)
    requires at <= |name| && j <= |parts|
    ensures r.Some? ==> at <= r.value <= |name|
    decreases |parts| - j
  {
    if j == |parts| then Some(at)
    else match TrimEncodingPrefix(name, at, parts[j])
      case None => None
      case Some(p) => MatchPartsFrom(name, p, parts, j + 1)
  }

  function MatchEncodingParts(name: string, at: nat, parts: seq<string>): (r: Option<nat>)
    requires at <= |name|
    ensures r.Some? ==> at <= r.value <= |name|
  {
    MatchPartsFrom(name, at, parts, 0)
  }

  /** `match_encoding_parts_exact`: the parts consume the whole name. */
  predicate MatchEncodingPartsExact(name: string, parts: seq<string>)
  {
    MatchEncodingParts(name, 0, parts) == Some(|name|)
  }

  // ---------------------------------------------------------------------
  // Properties

  /** An empty list of parts matches trivially and leaves the view as it is. */
  lemma MatchNoParts(name: string, at: nat)
    requires at <= |name|
    ensures MatchEncodingParts(name, at, []) == Some(at)
  {
  }

  /** Matching parts is trimming the first part and then matching the rest on what remains. */
  lemma {:induction false} MatchPartsCons(name: string, at: nat, part: string, rest: seq<string>)
    requires at <= |name|
    ensures MatchEncodingParts(name, at, [part] + rest) ==
      match TrimEncodingPrefix(name, at, part)
      case None => None
      case Some(p) => MatchEncodingParts(name, p, rest)
  {
    if TrimEncodingPrefix(name, at, part).Some? {
      var p := TrimEncodingPrefix(name, at, part).value;
      ShiftParts(name, p, [part] + rest, 1);
      assert ([part] + rest)[1..] == rest;
    }
  }

  /**
   * Two parts match exactly when the first trims from the start of the name
   * and the second, trimmed from what remains, reaches the end.
   */
  lemma ExactTwoParts(name: string, first: string, second: string)
    ensures MatchEncodingPartsExact(name, [first, second]) <==>
      && TrimEncodingPrefix(name, 0, first).Some?
      && TrimEncodingPrefix(name, TrimEncodingPrefix(name, 0, first).value, second) == Some(|name|)
  {
    MatchPartsCons(name, 0, first, [second]);
    assert [first, second] == [first] + [second];
    if TrimEncodingPrefix(name, 0, first).Some? {
      var p := TrimEncodingPrefix(name, 0, first).value;
      MatchPartsCons(name, p, second, []);
      assert [second] == [second] + [];
      if TrimEncodingPrefix(name, p, second).Some? {
        MatchNoParts(name, TrimEncodingPrefix(name, p, second).value);
      }
    }
  }

  lemma {:induction false} ShiftParts(name: string, at: nat, parts: seq<string>, d: nat)
    requires at <= |name| && d <= |parts|
    ensures MatchPartsFrom(name, at, parts, d) == MatchPartsFrom(name, at, parts[d..], 0)
    decreases |parts| - d
  {
    if d < |parts| {
      var rest := parts[d..];
      assert rest[0] == parts[d];
      match TrimEncodingPrefix(name, at, parts[d])
      case None =>
      case Some(p) =>
        ShiftParts(name, p, parts, d + 1);
        ShiftParts(name, p, rest, 1);
        assert rest[1..] == parts[d + 1..];
    }
  }

  /** The unit-test table of `trim_encoding_prefix` (src/encoding.rs:31-38). */
  lemma TrimExamples()
    ensures TrimEncodingPrefix("utf8", 0, "UTf") == Some(3)
    ensures TrimEncodingPrefix("uTf-8", 0, "utf") == Some(4)
    ensures TrimEncodingPrefix("UTF_8", 0, "utf") == Some(4)
    ensures TrimEncodingPrefix("UTf 8", 0, "utf") == Some(4)
    ensures TrimEncodingPrefix("utf", 0, "utf") == Some(3)
    ensures TrimEncodingPrefix("ut", 0, "utf") == None
  {
  }

  /** The unit-test tables of `match_encoding_parts` and its exact form (src/encoding.rs:51-83). */
  lemma MatchExamples()
    ensures MatchEncodingParts("utf8", 0, ["utf"]) == Some(3)
    ensures MatchEncodingParts("uTf-8", 0, ["utf", "8"]) == Some(5)
    ensures MatchEncodingParts("utf_7", 0, ["utf", "8"]) == None
    ensures MatchEncodingParts("utf-16be", 0, ["utf"]) == Some(4)
    ensures MatchEncodingParts("utf-16be", 0, ["utf", "16"]) == Some(6)
    ensures MatchEncodingParts("utf-16be", 0, ["utf", "16", "be"]) == Some(8)
  {
  }

  lemma MatchExamplesContinued()
    ensures MatchEncodingParts("utf-16be", 0, ["utf", "16", "le"]) == None
    ensures MatchEncodingParts("utf-16be", 0, ["utf", "8"]) == None
    ensures MatchEncodingParts("utf-16-BE", 0, ["utf", "16", "be"]) == Some(9)
    ensures !MatchEncodingPartsExact("utf8", ["utf"])
    ensures MatchEncodingPartsExact("uTf-8", ["utf", "8"])
    ensures !MatchEncodingPartsExact("utf-16be", ["utf", "16"])
    ensures MatchEncodingPartsExact("utf-16-BE", ["utf", "16", "be"])
  {
    Utf16beExamples();
    Utf16DashBEExamples();
    Utf8Examples();
  }

  lemma Utf16beExamples()
    ensures MatchEncodingParts("utf-16be", 0, ["utf", "16", "le"]) == None
    ensures MatchEncodingParts("utf-16be", 0, ["utf", "8"]) == None
    ensures !MatchEncodingPartsExact("utf-16be", ["utf", "16"])
  {
  }

  lemma Utf16DashBEExamples()
    ensures MatchEncodingParts("utf-16-BE", 0, ["utf", "16", "be"]) == Some(9)
  {
    var n := "utf-16-BE";
    assert TrimEncodingPrefix(n, 0, "utf") == Some(4);
    assert TrimEncodingPrefix(n, 4, "16") == Some(7);
    assert TrimEncodingPrefix(n, 7, "be") == Some(9);
    assert ["utf", "16", "be"] == ["utf"] + ["16", "be"];
    assert ["16", "be"] == ["16"] + ["be"];
    assert ["be"] == ["be"] + [];
    MatchPartsCons(n, 0, "utf", ["16", "be"]);
    MatchPartsCons(n, 4, "16", ["be"]);
    MatchPartsCons(n, 7, "be", []);
    MatchNoParts(n, 9);
  }

  lemma Utf8Examples()
    ensures !MatchEncodingPartsExact("utf8", ["utf"])
    ensures MatchEncodingPartsExact("uTf-8", ["utf", "8"])
  {
  }
}
