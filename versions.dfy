/**
 * The client version identifier: the string `EDOPRO-<PLATFORM>-<major>.<minor>.<patch>`
 * that the lookup route reads from its `version` query parameter or the
 * `User-Agent` header, its parsed form, and the order on version numbers.
 *
 * The source matches the string with the regular expression
 * `^EDOPRO-(WINDOWS|MAC|LINUX)-(\d+)\.(\d+)\.(\d+)$` under the `i` flag; here it is
 * parsed by a small hand-written scanner, and `ParseCharacterization` proves that
 * the scanner accepts exactly the strings that expression matches.
 */
module Versions {
  import opened Wrappers

  datatype Platform = Windows | Mac | Linux

  /** A parsed client version: the cache key of a lookup. */
  datatype Version = Version(os: Platform, major: nat, minor: nat, patch: nat)

  /** The (major, minor, patch) part of a version; the platform is only a partition key. */
  type VersionTuple = (nat, nat, nat)

  function Tuple(v: Version): (t: VersionTuple) {
    (v.major, v.minor, v.patch)
  }

  /** The upper-case spelling of a platform, as stored in the `os` columns. */
  function Token(p: Platform): (token: string) {
    match p
    case Windows => "WINDOWS"
    case Mac => "MAC"
    case Linux => "LINUX"
  }

  // ---------------------------------------------------------------------------
  // Order on version numbers

  /**
   * Strict lexicographic order on (major, minor, patch), most significant first.
   * The source compares formatted "major.minor.patch" strings instead
   * (src/app.js:42), which is text order: see `Catalog.NewerAsWritten`.
   */
  predicate Less(a: VersionTuple, b: VersionTuple) {
    a.0 < b.0 || (a.0 == b.0 && (a.1 < b.1 || (a.1 == b.1 && a.2 < b.2)))
  }

  lemma LessIrreflexive(a: VersionTuple)
    ensures !Less(a, a)
  {
  }

  lemma LessAsymmetric(a: VersionTuple, b: VersionTuple)
    requires Less(a, b)
    ensures !Less(b, a)
  {
  }

  lemma LessTransitive(a: VersionTuple, b: VersionTuple, c: VersionTuple)
    requires Less(a, b) && Less(b, c)
    ensures Less(a, c)
  {
  }

  /** Any two distinct version numbers are comparable: the order is total. */
  lemma LessConnected(a: VersionTuple, b: VersionTuple)
    ensures a == b || Less(a, b) || Less(b, a)
  {
  }

  // ---------------------------------------------------------------------------
  // Characters and decimal numerals

  predicate IsDigit(c: char) {
    '0' <= c <= '9'
  }

  predicate AllDigits(d: string) {
    forall i :: 0 <= i < |d| ==> IsDigit(d[i])
  }

  /** A non-empty run of decimal digits: what `\d+` matches. */
  predicate IsNumeral(d: string) {
    |d| > 0 && AllDigits(d)
  }

  /**
   * Case folding as the `i` flag applies it to this pattern: only the ASCII
   * letters have upper-case forms that can meet the pattern's characters.
   */
  function Upper(c: char): (u: char) {
    if 'a' <= c <= 'z' then (c as int - 32) as char else c
  }

  function UpperString(s: string): (u: string)
    ensures |u| == |s|
  {
    seq(|s|, i requires 0 <= i < |s| => Upper(s[i]))
  }

  function DigitValue(c: char): (n: nat)
    requires IsDigit(c)
  {
    c as int - '0' as int
  }

  function DigitChar(k: nat): (c: char)
    requires k < 10
  {
    ('0' as int + k) as char
  }

  /** The decimal value of a run of digits, as `parseInt` reads it (src/app.js:22-24). */
  function Value(d: string): (n: nat)
    requires AllDigits(d)
  {
    if |d| == 0 then 0 else Value(d[..|d| - 1]) * 10 + DigitValue(d[|d| - 1])
  }

  /** The decimal numeral of `n`, as a template literal prints a number. */
  function Decimal(n: nat): (d: string)
    ensures IsNumeral(d)
  {
    if n < 10 then [DigitChar(n)] else Decimal(n / 10) + [DigitChar(n % 10)]
  }

  /** Printing a number and reading it back gives the number. */
  lemma {:induction false} ValueOfDecimal(n: nat)
    ensures Value(Decimal(n)) == n
  {
    var d := Decimal(n);
    if n < 10 {
      assert d[..|d| - 1] == [];
    } else {
      assert d[..|d| - 1] == Decimal(n / 10);
      ValueOfDecimal(n / 10);
    }
  }

  /** The "major.minor.patch" name under which patches are listed (src/app.js:42-43). */
  function Name(t: VersionTuple): (name: string) {
    Decimal(t.0) + ("." + (Decimal(t.1) + ("." + Decimal(t.2))))
  }

  /** The canonical version string of a client at version `v`. */
  function Format(v: Version): (s: string) {
    "EDOPRO-" + (Token(v.os) + ("-" + Name(Tuple(v))))
  }

  // ---------------------------------------------------------------------------
  // The scanner

  /** Consumes `lit` at the front of `s`, comparing case-folded characters. */
  function StripFolded(s: string, lit: string): (r: Option<string>)
  {
    if |lit| <= |s| && UpperString(s[..|lit|]) == lit then Some(s[|lit|..]) else None
  }

  /** Consumes one separator character; case folding leaves '-' and '.' unchanged. */
  function StripChar(s: string, c: char): (r: Option<string>)
  {
    if |s| > 0 && s[0] == c then Some(s[1..]) else None
  }

  /** Consumes the platform alternative `(WINDOWS|MAC|LINUX)`. */
  function StripPlatform(s: string): (r: Option<(Platform, string)>)
  {
    if StripFolded(s, "WINDOWS").Some? then Some((Windows, s[7..]))
    else if StripFolded(s, "MAC").Some? then Some((Mac, s[3..]))
    else if StripFolded(s, "LINUX").Some? then Some((Linux, s[5..]))
    else None
  }

  /** The length of the longest run of digits at the front of `s`. */
  function DigitPrefix(s: string): (n: nat)
    ensures n <= |s|
    ensures AllDigits(s[..n])
    ensures n < |s| ==> !IsDigit(s[n])
  {
    if |s| > 0 && IsDigit(s[0]) then
      var m := DigitPrefix(s[1..]);
      assert s[..m + 1] == [s[0]] + s[1..][..m];
      m + 1
    else 0
  }

  /** Consumes `\d+` and converts it, reading as many digits as there are. */
  function StripNumber(s: string): (r: Option<(nat, string)>)
  {
    var n := DigitPrefix(s);
    if n == 0 then None else Some((Value(s[..n]), s[n..]))
  }

  /** Consumes `(\d+)\.(\d+)\.(\d+)$`: three numbers and nothing after them. */
  function ParseNumbers(s: string): (r: Option<VersionTuple>)
  {
    var major :- StripNumber(s);
    var afterDot :- StripChar(major.1, '.');
    var minor :- StripNumber(afterDot);
    var afterDot' :- StripChar(minor.1, '.');
    var patch :- StripNumber(afterDot');
    if patch.1 != [] then None else Some((major.0, minor.0, patch.0))
  }

  /**
   * The parse step of the lookup route (src/app.js:17-25): `None` is the
   * "Missing version parameter" rejection.
   */
  function Parse(s: string): (r: Option<Version>)
  {
    var afterPrefix :- StripFolded(s, "EDOPRO-");
    var platform :- StripPlatform(afterPrefix);
    var afterDash :- StripChar(platform.1, '-');
    var numbers :- ParseNumbers(afterDash);
    Some(Version(platform.0, numbers.0, numbers.1, numbers.2))
  }

  // ---------------------------------------------------------------------------
  // What the regular expression matches, independently of the scanner

  /**
   * One way of writing a version string that the expression matches: the
   * prefix and the platform token in any mix of cases, then three digit runs.
   */
  datatype Spelling = Spelling(prefix: string, os: Platform, token: string,
                               major: string, minor: string, patch: string)

  predicate WellSpelled(sp: Spelling) {
    && UpperString(sp.prefix) == "EDOPRO-"
    && UpperString(sp.token) == Token(sp.os)
    && IsNumeral(sp.major) && IsNumeral(sp.minor) && IsNumeral(sp.patch)
  }

  /** The string a spelling stands for. */
  function Render(sp: Spelling): (s: string) {
    sp.prefix + (sp.token + ("-" + (sp.major + ("." + (sp.minor + ("." + sp.patch))))))
  }

  /** The version the source extracts from a spelling: the upper-cased token and `parseInt` of each run. */
  function Meaning(sp: Spelling): (v: Version)
    requires WellSpelled(sp)
  {
    Version(sp.os, Value(sp.major), Value(sp.minor), Value(sp.patch))
  }

  // ---------------------------------------------------------------------------
  // The scanner accepts exactly the well-spelled strings

  lemma StripFoldedFront(x: string, rest: string, lit: string)
    requires UpperString(x) == lit
    ensures StripFolded(x + rest, lit) == Some(rest)
  {
    assert (x + rest)[..|lit|] == x;
    assert (x + rest)[|lit|..] == rest;
  }

  lemma StripFoldedSplit(s: string, lit: string) returns (x: string)
    requires StripFolded(s, lit).Some?
    ensures UpperString(x) == lit && s == x + StripFolded(s, lit).value
  {
    x := s[..|lit|];
    assert s == x + s[|lit|..];
  }

  /** Folded platform tokens differ in their first letter, so at most one alternative matches. */
  lemma StripPlatformFront(token: string, rest: string, os: Platform)
    requires UpperString(token) == Token(os)
    ensures StripPlatform(token + rest) == Some((os, rest))
  {
    var s := token + rest;
    StripFoldedFront(token, rest, Token(os));
    assert Upper(s[0]) == Token(os)[0] by {
      assert UpperString(token)[0] == Upper(token[0]);
    }
    assert |s| >= 7 ==> UpperString(s[..7])[0] == Upper(s[0]);
    assert |s| >= 3 ==> UpperString(s[..3])[0] == Upper(s[0]);
  }

  lemma StripPlatformSplit(s: string) returns (token: string)
    requires StripPlatform(s).Some?
    ensures UpperString(token) == Token(StripPlatform(s).value.0)
    ensures s == token + StripPlatform(s).value.1
  {
    var os := StripPlatform(s).value.0;
    token := StripFoldedSplit(s, Token(os));
  }

  /** A maximal run of digits in front is read whole. */
  lemma StripNumberFront(d: string, rest: string)
    requires IsNumeral(d)
    requires rest == [] || !IsDigit(rest[0])
    ensures StripNumber(d + rest) == Some((Value(d), rest))
  {
    var s := d + rest;
    DigitPrefixOfRun(d, rest);
    assert s[..|d|] == d;
    assert s[|d|..] == rest;
  }

  lemma {:induction false} DigitPrefixOfRun(d: string, rest: string)
    requires AllDigits(d)
    requires rest == [] || !IsDigit(rest[0])
    ensures DigitPrefix(d + rest) == |d|
  {
    if |d| > 0 {
      assert (d + rest)[1..] == d[1..] + rest;
      DigitPrefixOfRun(d[1..], rest);
    }
  }

  lemma StripNumberSplit(s: string) returns (d: string)
    requires StripNumber(s).Some?
    ensures IsNumeral(d) && StripNumber(s).value.0 == Value(d)
    ensures s == d + StripNumber(s).value.1
  {
    var k := DigitPrefix(s);
    d := s[..k];
    assert s == d + s[k..];
  }

  lemma ParseNumbersFront(major: string, minor: string, patch: string)
    requires IsNumeral(major) && IsNumeral(minor) && IsNumeral(patch)
    ensures ParseNumbers(major + ("." + (minor + ("." + patch))))
         == Some((Value(major), Value(minor), Value(patch)))
  {
    var r2 := "." + patch;
    var r1 := minor + r2;
    StripNumberFront(major, "." + r1);
    assert StripChar("." + r1, '.') == Some(r1);
    StripNumberFront(minor, r2);
    assert StripChar(r2, '.') == Some(patch);
    StripNumberFront(patch, []);
    assert patch + [] == patch;
  }

  lemma StripCharSplit(s: string, c: char)
    requires StripChar(s, c).Some?
    ensures s == [c] + StripChar(s, c).value
  {
  }

  lemma ParseNumbersSplit(s: string) returns (major: string, minor: string, patch: string)
    requires ParseNumbers(s).Some?
    ensures IsNumeral(major) && IsNumeral(minor) && IsNumeral(patch)
    ensures ParseNumbers(s).value == (Value(major), Value(minor), Value(patch))
    ensures s == major + ("." + (minor + ("." + patch)))
  {
    var m1 := StripNumber(s).value;
    major := StripNumberSplit(s);
    var r2 := StripChar(m1.1, '.').value;
    StripCharSplit(m1.1, '.');
    var m2 := StripNumber(r2).value;
    minor := StripNumberSplit(r2);
    var r4 := StripChar(m2.1, '.').value;
    StripCharSplit(m2.1, '.');
    var m3 := StripNumber(r4).value;
    patch := StripNumberSplit(r4);
    assert m3.1 == [];
    assert ParseNumbers(s) == Some((m1.0, m2.0, m3.0));
    assert r4 == patch;
  }

  /** Every well-spelled string is accepted, with the version it spells (src/app.js:17-25). */
  lemma ParseComplete(sp: Spelling)
    requires WellSpelled(sp)
    ensures Parse(Render(sp)) == Some(Meaning(sp))
  {
    var numbers := sp.major + ("." + (sp.minor + ("." + sp.patch)));
    var r1 := "-" + numbers;
    StripFoldedFront(sp.prefix, sp.token + r1, "EDOPRO-");
    StripPlatformFront(sp.token, r1, sp.os);
    assert StripChar(r1, '-') == Some(numbers);
    ParseNumbersFront(sp.major, sp.minor, sp.patch);
  }

  /** Every accepted string is well spelled, and the result is what it spells. */
  lemma ParseSound(s: string) returns (sp: Spelling)
    requires Parse(s).Some?
    ensures WellSpelled(sp) && Render(sp) == s && Meaning(sp) == Parse(s).value
  {
    var r0 := StripFolded(s, "EDOPRO-").value;
    var prefix := StripFoldedSplit(s, "EDOPRO-");
    var platform := StripPlatform(r0).value;
    var token := StripPlatformSplit(r0);
    var r2 := StripChar(platform.1, '-').value;
    StripCharSplit(platform.1, '-');
    var numbers := ParseNumbers(r2).value;
    var major, minor, patch := ParseNumbersSplit(r2);
    assert Parse(s) == Some(Version(platform.0, numbers.0, numbers.1, numbers.2));
    sp := Spelling(prefix, platform.0, token, major, minor, patch);
  }

  /**
   * The parser accepts `s` with result `v` exactly when `s` is a well-spelled
   * version string meaning `v`; every other string is rejected.
   */
  lemma ParseCharacterization(s: string, v: Version)
    ensures Parse(s) == Some(v) <==>
            exists sp :: WellSpelled(sp) && Render(sp) == s && Meaning(sp) == v
  {
    if Parse(s) == Some(v) {
      var sp := ParseSound(s);
    }
    if exists sp :: WellSpelled(sp) && Render(sp) == s && Meaning(sp) == v {
      var sp :| WellSpelled(sp) && Render(sp) == s && Meaning(sp) == v;
      ParseComplete(sp);
    }
  }

  lemma UpperOfUpper(s: string)
    requires forall i :: 0 <= i < |s| ==> !('a' <= s[i] <= 'z')
    ensures UpperString(s) == s
  {
  }

  /**
   * Formatting a version back into a version string and parsing it reproduces
   * the platform and every numeric component.
   */
  lemma ParseFormat(v: Version)
    ensures Parse(Format(v)) == Some(v)
  {
    UpperOfUpper("EDOPRO-");
    UpperOfUpper(Token(v.os));
    var sp := Spelling("EDOPRO-", v.os, Token(v.os),
                       Decimal(v.major), Decimal(v.minor), Decimal(v.patch));
    assert Render(sp) == Format(v);
    ValueOfDecimal(v.major);
    ValueOfDecimal(v.minor);
    ValueOfDecimal(v.patch);
    ParseComplete(sp);
  }

  /** A listed name reads back as the version number it was printed from. */
  lemma NameRoundTrip(t: VersionTuple)
    ensures ParseNumbers(Name(t)) == Some(t)
  {
    ValueOfDecimal(t.0);
    ValueOfDecimal(t.1);
    ValueOfDecimal(t.2);
    ParseNumbersFront(Decimal(t.0), Decimal(t.1), Decimal(t.2));
  }

  /** Distinct version numbers are listed under distinct names. */
  lemma NameInjective(a: VersionTuple, b: VersionTuple)
    requires Name(a) == Name(b)
    ensures a == b
  {
    NameRoundTrip(a);
    NameRoundTrip(b);
  }
}
