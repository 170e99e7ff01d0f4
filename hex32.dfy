/**
 * The command-word parser `parse_hex32` and the list's display form `0x%08X`.
 *
 * A command word is an unsigned 32-bit integer. Text is normalised by
 * stripping surrounding whitespace and deleting every `_` and space; the
 * result must be non-empty, must not start with `#`, may carry one `0x` or
 * `0X` prefix, and what remains is read in base 16 and range-checked.
 */
module Hex32 {
  import opened Results

  const MaxWord: int := 0xFFFF_FFFF

  type Word32 = x: int | 0 <= x <= 0xFFFF_FFFF

  /** Why a text was refused (the messages of the source's ValueError). */
  datatype ParseError = Empty | Comment | NotHex | OutOfRange

  /** The characters Python's `str.strip()` removes (`str.isspace`). */
  predicate IsSpace(c: char) {
    var k := c as int;
    (0x09 <= k <= 0x0D) || (0x1C <= k <= 0x20) || k == 0x85 || k == 0xA0 ||
    k == 0x1680 || (0x2000 <= k <= 0x200A) || k == 0x2028 || k == 0x2029 ||
    k == 0x202F || k == 0x205F || k == 0x3000
  }

  predicate IsSeparator(c: char) {
    c == '_' || c == ' '
  }

  predicate IsHexDigit(c: char) {
    ('0' <= c <= '9') || ('a' <= c <= 'f') || ('A' <= c <= 'F')
  }

  /** What `int(s, 16)` accepts in this model: one or more ASCII hex digits. */
  predicate IsHexString(d: string) {
    |d| > 0 && forall k :: 0 <= k < |d| ==> IsHexDigit(d[k])
  }

  function StripLeft(s: string): string {
    if s != [] && IsSpace(s[0]) then StripLeft(s[1..]) else s
  }

  function StripRight(s: string): string {
    if s != [] && IsSpace(s[|s| - 1]) then StripRight(s[..|s| - 1]) else s
  }

  /** `str.strip()`. */
  function Strip(s: string): string {
    StripRight(StripLeft(s))
  }

  /** Drops every underscore and every plain space, keeping the other characters in order. */
  function RemoveSeparators(s: string): string {
    if s == [] then []
    else if IsSeparator(s[0]) then RemoveSeparators(s[1..])
    else [s[0]] + RemoveSeparators(s[1..])
  }

  lemma {:induction false} StripLeftMeaning(s: string)
    ensures var r := StripLeft(s);
      |r| <= |s| && r == s[|s| - |r|..] && (r == [] || !IsSpace(r[0])) &&
      forall k :: 0 <= k < |s| - |r| ==> IsSpace(s[k])
  {
    if s != [] && IsSpace(s[0]) {
      var t := s[1..];
      StripLeftMeaning(t);
      var r := StripLeft(t);
      assert StripLeft(s) == r;
      assert t[|t| - |r|..] == s[|s| - |r|..];
      forall k | 0 < k < |s| - |r|
        ensures IsSpace(s[k])
      {
        assert s[k] == t[k - 1];
      }
    }
  }

  lemma {:induction false} StripRightMeaning(s: string)
    ensures var r := StripRight(s);
      |r| <= |s| && r == s[..|r|] && (r == [] || !IsSpace(r[|r| - 1])) &&
      forall k :: |r| <= k < |s| ==> IsSpace(s[k])
  {
    if s != [] && IsSpace(s[|s| - 1]) {
      var t := s[..|s| - 1];
      StripRightMeaning(t);
      var r := StripRight(t);
      assert StripRight(s) == r;
      assert t[..|r|] == s[..|r|];
      forall k | |r| <= k < |s| - 1
        ensures IsSpace(s[k])
      {
        assert s[k] == t[k];
      }
    }
  }

  /** `str.strip()` keeps the slice between the leading and the trailing whitespace, whose ends are not whitespace. */
  lemma StripMeaning(s: string)
    ensures var r := Strip(s);
      (r == [] || (!IsSpace(r[0]) && !IsSpace(r[|r| - 1]))) &&
      exists i, j :: 0 <= i <= j <= |s| && r == s[i..j] &&
        (forall k :: 0 <= k < i ==> IsSpace(s[k])) &&
        (forall k :: j <= k < |s| ==> IsSpace(s[k]))
  {
    var l := StripLeft(s);
    StripLeftMeaning(s);
    StripRightMeaning(l);
    var r := StripRight(l);
    var i := |s| - |l|;
    assert r == s[i..i + |r|];
    assert r == [] || !IsSpace(r[0]);
  }

  /** Deleting separators keeps every other character, in order. */
  lemma {:induction false} RemoveSeparatorsMeaning(s: string)
    ensures var r := RemoveSeparators(s);
      |r| <= |s| && (forall k :: 0 <= k < |r| ==> !IsSeparator(r[k])) &&
      ((forall k :: 0 <= k < |s| ==> !IsSeparator(s[k])) ==> r == s)
  {
    if s != [] {
      RemoveSeparatorsMeaning(s[1..]);
    }
  }

  /** The text after stripping and deleting separators. */
  function Cleaned(s: string): string {
    RemoveSeparators(Strip(s))
  }

  predicate HasHexPrefix(t: string) {
    |t| >= 2 && t[0] == '0' && (t[1] == 'x' || t[1] == 'X')
  }

  /** The digits that are read in base 16: one optional prefix dropped. */
  function DigitsOf(t: string): string {
    if HasHexPrefix(t) then t[2..] else t
  }

  function DigitValue(c: char): (v: nat)
    requires IsHexDigit(c)
    ensures v < 16
  {
    if '0' <= c <= '9' then c as int - '0' as int
    else if 'a' <= c <= 'f' then c as int - 'a' as int + 10
    else c as int - 'A' as int + 10
  }

  /** The base-16 value of a digit string, most significant digit first. */
  function HexValue(d: string): nat
    requires forall k :: 0 <= k < |d| ==> IsHexDigit(d[k])
  {
    if d == [] then 0 else HexValue(d[..|d| - 1]) * 16 + DigitValue(d[|d| - 1])
  }

  /** The checks `parse_hex32` makes once the text is cleaned. */
  function ParseCleaned(t: string): Result<Word32, ParseError> {
    if t == [] then Err(Empty)
    else if t[0] == '#' then Err(Comment)
    else
      var d := DigitsOf(t);
      if !IsHexString(d) then Err(NotHex)
      else
        var v := HexValue(d);
        if v > MaxWord then Err(OutOfRange) else Ok(v)
  }

  /** `parse_hex32`: the command word a line of text denotes, or why it is refused. */
  function ParseHex32(s: string): Result<Word32, ParseError> {
    ParseCleaned(Cleaned(s))
  }

  /**
   * The four ways cleaned text can be refused, each exactly when its
   * condition holds, and the word it denotes otherwise.
   */
  lemma ParseCleanedMeaning(t: string)
    ensures ParseCleaned(t) == Err(Empty) <==> t == []
    ensures ParseCleaned(t) == Err(Comment) <==> t != [] && t[0] == '#'
    ensures ParseCleaned(t) == Err(NotHex) <==> t != [] && t[0] != '#' && !IsHexString(DigitsOf(t))
    ensures ParseCleaned(t) == Err(OutOfRange) <==>
      t != [] && t[0] != '#' && IsHexString(DigitsOf(t)) && HexValue(DigitsOf(t)) > MaxWord
    ensures ParseCleaned(t).Ok? <==>
      t != [] && t[0] != '#' && IsHexString(DigitsOf(t)) && HexValue(DigitsOf(t)) <= MaxWord
    ensures ParseCleaned(t).Ok? ==> HexValue(DigitsOf(t)) == ParseCleaned(t).value
  {
  }

  /**
   * A line is `Empty` exactly when nothing is left after cleaning, a
   * `Comment` exactly when what is left starts with `#`, and otherwise
   * denotes the base-16 value of its digits when it denotes a word.
   */
  lemma ParseHex32Meaning(s: string)
    ensures ParseHex32(s) == Err(Empty) <==> Cleaned(s) == []
    ensures ParseHex32(s) == Err(Comment) <==> Cleaned(s) != [] && Cleaned(s)[0] == '#'
    ensures ParseHex32(s).Ok? ==>
      IsHexString(DigitsOf(Cleaned(s))) && HexValue(DigitsOf(Cleaned(s))) == ParseHex32(s).value
  {
    ParseCleanedMeaning(Cleaned(s));
  }

  // ---------------------------------------------------------------------
  // The display form used by the list, `f"0x{w:08X}"`.

  function Pow16(k: nat): (p: nat)
    ensures p >= 1
  {
    if k == 0 then 1 else 16 * Pow16(k - 1)
  }

  function DigitChar(v: nat, upper: bool): (c: char)
    requires v < 16
    ensures IsHexDigit(c) && DigitValue(c) == v
  {
    if v < 10 then ('0' as int + v) as char
    else if upper then ('A' as int + v - 10) as char
    else ('a' as int + v - 10) as char
  }

  /** The low `k` base-16 digits of `v`, zero-padded, most significant first. */
  function HexDigits(v: nat, k: nat, upper: bool): (d: string)
    ensures |d| == k
    ensures forall i :: 0 <= i < |d| ==> IsHexDigit(d[i])
  {
    if k == 0 then [] else HexDigits(v / 16, k - 1, upper) + [DigitChar(v % 16, upper)]
  }

  /** The list's rendering of a word: `0x` and eight upper-case digits. */
  function FormatHex32(w: Word32): string {
    "0x" + HexDigits(w, 8, true)
  }

  lemma {:induction false} HexDigitsValue(v: nat, k: nat, upper: bool)
    requires v < Pow16(k)
    ensures HexValue(HexDigits(v, k, upper)) == v
  {
    if k > 0 {
      var d := HexDigits(v, k, upper);
      HexDigitsValue(v / 16, k - 1, upper);
      assert d[..|d| - 1] == HexDigits(v / 16, k - 1, upper);
    }
  }

  /** Text with no whitespace and no separator is its own cleaned form. */
  lemma CleanPlain(t: string)
    requires forall k :: 0 <= k < |t| ==> !IsSpace(t[k]) && !IsSeparator(t[k])
    ensures Cleaned(t) == t
  {
    assert StripLeft(t) == t;
    assert StripRight(t) == t;
    RemoveSeparatorsMeaning(t);
  }

  lemma HexDigitPlain(c: char)
    requires IsHexDigit(c)
    ensures !IsSpace(c) && !IsSeparator(c) && c != '#' && c != 'x' && c != 'X'
  {
  }

  lemma CleanHexDigits(d: string)
    requires IsHexString(d)
    ensures Cleaned(d) == d
  {
    forall k | 0 <= k < |d| ensures !IsSpace(d[k]) && !IsSeparator(d[k]) {
      HexDigitPlain(d[k]);
    }
    CleanPlain(d);
  }

  lemma DigitsNotMarked(d: string)
    requires IsHexString(d)
    ensures d[0] != '#' && !HasHexPrefix(d)
  {
    HexDigitPlain(d[0]);
    if |d| >= 2 {
      HexDigitPlain(d[1]);
    }
  }

  lemma ParseCleanedDigits(d: string)
    requires IsHexString(d) && d[0] != '#' && !HasHexPrefix(d)
    ensures ParseCleaned(d) == if HexValue(d) > MaxWord then Err(OutOfRange) else Ok(HexValue(d))
  {
  }

  /** A digit string is read as its own base-16 value, refused only when that is out of range. */
  lemma ParseDigits(d: string)
    requires IsHexString(d)
    ensures ParseHex32(d) == if HexValue(d) > MaxWord then Err(OutOfRange) else Ok(HexValue(d))
  {
    DigitsNotMarked(d);
    CleanHexDigits(d);
    ParseOfClean(d);
    ParseCleanedDigits(d);
  }

  lemma CleanPrefixed(d: string, x: char)
    requires IsHexString(d) && (x == 'x' || x == 'X')
    ensures Cleaned(['0', x] + d) == ['0', x] + d
  {
    var p := ['0', x] + d;
    forall k | 0 <= k < |p| ensures !IsSpace(p[k]) && !IsSeparator(p[k]) {
      if k >= 2 {
        assert p[k] == d[k - 2];
        HexDigitPlain(d[k - 2]);
      }
    }
    CleanPlain(p);
  }

  lemma ParseOfClean(t: string)
    requires Cleaned(t) == t
    ensures ParseHex32(t) == ParseCleaned(t)
  {
  }

  lemma ParsePrefixed(d: string, x: char)
    requires d != [] && d[0] != '#' && !HasHexPrefix(d) && (x == 'x' || x == 'X')
    ensures ParseCleaned(['0', x] + d) == ParseCleaned(d)
  {
    assert (['0', x] + d)[2..] == d;
  }

  /** One `0x` or `0X` prefix is optional: with or without it a digit string parses the same. */
  lemma PrefixOptional(d: string, x: char)
    requires IsHexString(d) && (x == 'x' || x == 'X')
    ensures ParseHex32(['0', x] + d) == ParseHex32(d)
  {
    var p := ['0', x] + d;
    assert ParseHex32(p) == ParseCleaned(p) by {
      CleanPrefixed(d, x);
      ParseOfClean(p);
    }
    assert ParseCleaned(p) == ParseCleaned(d) by {
      DigitsNotMarked(d);
      ParsePrefixed(d, x);
    }
    assert ParseCleaned(d) == ParseHex32(d) by {
      CleanHexDigits(d);
      ParseOfClean(d);
    }
  }

  /** Parsing the list's display form of a word gives the word back, with either digit case. */
  lemma FormatRoundTrip(w: Word32, upper: bool)
    ensures ParseHex32("0x" + HexDigits(w, 8, upper)) == Ok(w)
  {
    var d := HexDigits(w, 8, upper);
    assert Pow16(8) == 0x1_0000_0000;
    HexDigitsValue(w, 8, upper);
    ParseDigits(d);
    PrefixOptional(d, 'x');
    assert "0x" + d == ['0', 'x'] + d;
  }

  lemma DisplayRoundTrip(w: Word32)
    ensures ParseHex32(FormatHex32(w)) == Ok(w)
  {
    FormatRoundTrip(w, true);
  }

  // ---------------------------------------------------------------------
  // Separators inserted anywhere do not change the word.

  lemma {:induction false} RemoveSeparatorsAppend(a: string, b: string)
    ensures RemoveSeparators(a + b) == RemoveSeparators(a) + RemoveSeparators(b)
  {
    if a == [] {
      assert a + b == b;
    } else {
      assert (a + b)[1..] == a[1..] + b;
      RemoveSeparatorsAppend(a[1..], b);
    }
  }

  /** Text whose only whitespace is the space character, which cleaning deletes anyway. */
  predicate OnlySpaceWhitespace(s: string) {
    forall k :: 0 <= k < |s| ==> IsSpace(s[k]) ==> s[k] == ' '
  }

  lemma {:induction false} StripLeftSpaces(s: string)
    requires OnlySpaceWhitespace(s)
    ensures RemoveSeparators(StripLeft(s)) == RemoveSeparators(s)
  {
    if s != [] && IsSpace(s[0]) {
      StripLeftSpaces(s[1..]);
    }
  }

  lemma {:induction false} StripRightSpaces(s: string)
    requires OnlySpaceWhitespace(s)
    ensures RemoveSeparators(StripRight(s)) == RemoveSeparators(s)
  {
    if s != [] && IsSpace(s[|s| - 1]) {
      var init := s[..|s| - 1];
      StripRightSpaces(init);
      assert s == init + [s[|s| - 1]];
      RemoveSeparatorsAppend(init, [s[|s| - 1]]);
    }
  }

  lemma StripSpaces(s: string)
    requires OnlySpaceWhitespace(s)
    ensures Cleaned(s) == RemoveSeparators(s)
  {
    StripLeftSpaces(s);
    StripLeftMeaning(s);
    var l := StripLeft(s);
    assert OnlySpaceWhitespace(l);
    StripRightSpaces(l);
  }

  lemma RemoveSeparatorsInsert(s: string, i: nat, c: char)
    requires i <= |s| && IsSeparator(c)
    ensures RemoveSeparators(s[..i] + [c] + s[i..]) == RemoveSeparators(s)
  {
    var a, b := s[..i], s[i..];
    assert RemoveSeparators(s) == RemoveSeparators(a) + RemoveSeparators(b) by {
      assert s == a + b;
      RemoveSeparatorsAppend(a, b);
    }
    assert RemoveSeparators(a + [c]) == RemoveSeparators(a) by {
      RemoveSeparatorsAppend(a, [c]);
      assert RemoveSeparators([c]) == [];
    }
    RemoveSeparatorsAppend(a + [c], b);
  }

  /** A character that is not a separator survives, in place between what its two sides become. */
  lemma RemoveSeparatorsKeeps(s: string, i: nat)
    requires i < |s| && !IsSeparator(s[i])
    ensures RemoveSeparators(s) == RemoveSeparators(s[..i]) + [s[i]] + RemoveSeparators(s[i + 1..])
  {
    var a, c, b := s[..i], s[i], s[i + 1..];
    var t := [c] + b;
    assert RemoveSeparators(t) == [c] + RemoveSeparators(b) by {
      assert t[0] == c && t[1..] == b;
    }
    assert s == a + t;
    RemoveSeparatorsAppend(a, t);
    var ra, rb := RemoveSeparators(a), RemoveSeparators(b);
    assert ra + ([c] + rb) == ra + [c] + rb;
  }

  lemma CleanedInsert(s: string, i: nat, c: char)
    requires i <= |s| && IsSeparator(c)
    requires OnlySpaceWhitespace(s)
    ensures Cleaned(s[..i] + [c] + s[i..]) == Cleaned(s)
  {
    var s' := s[..i] + [c] + s[i..];
    assert OnlySpaceWhitespace(s') by {
      forall k | 0 <= k < |s'| && IsSpace(s'[k]) ensures s'[k] == ' ' {
        if k < i { assert s'[k] == s[k]; }
        else if k > i { assert s'[k] == s[k - 1]; }
      }
    }
    StripSpaces(s);
    StripSpaces(s');
    RemoveSeparatorsInsert(s, i, c);
  }

  /** Inserting a `_` or a space anywhere leaves the parse unchanged (for text whose only whitespace is spaces). */
  lemma SeparatorInsensitive(s: string, i: nat, c: char)
    requires i <= |s| && IsSeparator(c)
    requires OnlySpaceWhitespace(s)
    ensures ParseHex32(s[..i] + [c] + s[i..]) == ParseHex32(s)
  {
    CleanedInsert(s, i, c);
  }
}
