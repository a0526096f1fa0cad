/** The version bump of scripts/update-version.js: computing the new version
    (`getNewVersion`, the increment rules of Semantic Versioning 2.0.0, items 6
    to 8) and writing it into the three manifests. */
module UpdateVersion {
  import opened Wrappers
  import opened Text
  import opened ScriptSupport

  // ---------------------------------------------------------------- versions

  datatype Version = Version(major: nat, minor: nat, patch: nat)

  /** The test `/^\d+\.\d+\.\d+$/`: three non-empty digit groups joined by dots. */
  predicate IsExplicitVersion(s: string)
  {
    var parts := Split(s, '.');
    |parts| == 3 && forall k | 0 <= k < 3 :: |parts[k]| > 0 && AllDigits(parts[k])
  }

  function ParseVersion(s: string): (r: Option<Version>)
    ensures r.Some? <==> IsExplicitVersion(s)
  {
    if IsExplicitVersion(s) then
      var parts := Split(s, '.');
      Some(Version(DigitsValue(parts[0]), DigitsValue(parts[1]), DigitsValue(parts[2])))
    else None
  }

  function FormatVersion(v: Version): string
  {
    NatToString(v.major) + "." + NatToString(v.minor) + "." + NatToString(v.patch)
  }

  /** Three dot-free pieces joined by dots split back into those pieces. */
  lemma SplitThree(a: string, b: string, c: string)
    requires '.' !in a && '.' !in b && '.' !in c
    ensures Split(a + "." + b + "." + c, '.') == [a, b, c]
  {
    assert Split(c, '.') == [c];
    SplitCons(b, '.', c);
    SplitCons(a, '.', b + ['.'] + c);
    assert a + "." + b + "." + c == a + ['.'] + (b + ['.'] + c);
  }

  /** Formatting a version and reading it back gives the same numbers. */
  lemma ParseFormatVersion(v: Version)
    ensures ParseVersion(FormatVersion(v)) == Some(v)
  {
    var a, b, c := NatToString(v.major), NatToString(v.minor), NatToString(v.patch);
    SplitThree(a, b, c);
    var parts := Split(FormatVersion(v), '.');
    assert parts[0] == a && parts[1] == b && parts[2] == c;
    assert IsExplicitVersion(FormatVersion(v));
  }

  /** Lexicographic order on (major, minor, patch), the precedence of item 11
      of Semantic Versioning 2.0.0 for versions without pre-release parts. */
  predicate VersionLess(x: Version, y: Version)
  {
    x.major < y.major ||
    (x.major == y.major && (x.minor < y.minor || (x.minor == y.minor && x.patch < y.patch)))
  }

  /** Items 6 to 8 of Semantic Versioning 2.0.0, stated independently of the script. */
  function Increment(v: Version, kind: string): Version
    requires kind in {"major", "minor", "patch"}
  {
    if kind == "major" then Version(v.major + 1, 0, 0)
    else if kind == "minor" then Version(v.major, v.minor + 1, 0)
    else Version(v.major, v.minor, v.patch + 1)
  }

  // ---------------------------------------------------------------- getNewVersion

  /** A JavaScript number as `Number(part)` and array destructuring produce it. */
  datatype JsNumber = Num(n: nat) | NaN | Undefined

  /** `Number(part)` for a piece of `current.split('.')`: a digit string is its
      value (the empty string is 0), anything else is NaN. */
  function ToNumber(part: string): (x: JsNumber)
    ensures x != Undefined
    ensures x.Num? <==> AllDigits(part)
  {
    if AllDigits(part) then Num(DigitsValue(part)) else NaN
  }

  /** The `k`-th element of `current.split('.').map(Number)`. */
  function Component(parts: seq<string>, k: nat): (x: JsNumber)
    ensures x == Undefined <==> k >= |parts|
  {
    if k < |parts| then ToNumber(parts[k]) else Undefined
  }

  /** `x + 1`. */
  function PlusOne(x: JsNumber): JsNumber
  {
    match x
    case Num(n) => Num(n + 1)
    case _ => NaN
  }

  /** `${x}` in a template literal. */
  function Show(x: JsNumber): (r: string)
    ensures |r| > 0
    ensures x.Num? <==> AllDigits(r)
  {
    match x
    case Num(n) => NatToString(n)
    case NaN => assert !IsDigit("NaN"[0]); "NaN"
    case Undefined => assert !IsDigit("undefined"[0]); "undefined"
  }

  const UnknownTypeHead: string := "未知的版本类型: "

  /** `getNewVersion(current, type)`; `Failure` is the thrown error's message. */
  function GetNewVersion(current: string, versionType: string): (r: Result<string, string>)
    ensures IsExplicitVersion(versionType) ==> r == Success(versionType)
    ensures r.Success? <==> IsExplicitVersion(versionType) || versionType in {"major", "minor", "patch"}
    ensures r.Failure? ==> r.error == UnknownTypeHead + versionType
  {
    if IsExplicitVersion(versionType) then Success(versionType)
    else
      var parts := Split(current, '.');
      var major, minor, patch := Component(parts, 0), Component(parts, 1), Component(parts, 2);
      if versionType == "major" then Success(Show(PlusOne(major)) + ".0.0")
      else if versionType == "minor" then Success(Show(major) + "." + Show(PlusOne(minor)) + ".0")
      else if versionType == "patch" then Success(Show(major) + "." + Show(minor) + "." + Show(PlusOne(patch)))
      else Failure(UnknownTypeHead + versionType)
  }

  /** The three numbers `getNewVersion` reads from a well-formed version. */
  lemma ComponentsOfParsed(current: string)
    requires ParseVersion(current).Some?
    ensures var v, parts := ParseVersion(current).value, Split(current, '.');
            Component(parts, 0) == Num(v.major) && Component(parts, 1) == Num(v.minor) &&
            Component(parts, 2) == Num(v.patch)
  {
  }

  /** A text without a dot is not an explicit version. */
  lemma DotlessIsNotExplicit(s: string)
    requires '.' !in s
    ensures !IsExplicitVersion(s)
  {
    assert Split(s, '.') == [s];
  }

  lemma KeywordIsNotExplicit(kind: string)
    requires kind in {"major", "minor", "patch"}
    ensures !IsExplicitVersion(kind)
  {
    assert '.' !in kind;
    DotlessIsNotExplicit(kind);
  }

  lemma ZeroTail(s: string)
    ensures s + "." + NatToString(0) == s + ".0"
    ensures s + "." + NatToString(0) + "." + NatToString(0) == s + ".0.0"
  {
    assert NatToString(0) == "0";
  }

  /** The text of a keyword bump of a well-formed version. */
  lemma BumpText(current: string, kind: string)
    requires ParseVersion(current).Some?
    requires kind in {"major", "minor", "patch"}
    ensures GetNewVersion(current, kind) == Success(FormatVersion(Increment(ParseVersion(current).value, kind)))
  {
    KeywordIsNotExplicit(kind);
    ComponentsOfParsed(current);
    var v := ParseVersion(current).value;
    assert NatToString(0) == "0";
    var r := GetNewVersion(current, kind);
    var w := Increment(v, kind);
    if kind == "major" {
      assert r.value == NatToString(v.major + 1) + ".0.0";
      ZeroTail(NatToString(v.major + 1));
    } else if kind == "minor" {
      assert r.value == NatToString(v.major) + "." + NatToString(v.minor + 1) + ".0";
      ZeroTail(NatToString(v.major) + "." + NatToString(v.minor + 1));
    } else {
      assert r.value == NatToString(v.major) + "." + NatToString(v.minor) + "." + NatToString(v.patch + 1);
    }
  }

  /** On a well-formed current version, a keyword bump is the Semantic Versioning
      increment, its result is again well-formed, and it is strictly greater. */
  lemma BumpIsIncrement(current: string, kind: string)
    requires ParseVersion(current).Some?
    requires kind in {"major", "minor", "patch"}
    ensures !IsExplicitVersion(kind)
    ensures GetNewVersion(current, kind) == Success(FormatVersion(Increment(ParseVersion(current).value, kind)))
    ensures ParseVersion(GetNewVersion(current, kind).value) == Some(Increment(ParseVersion(current).value, kind))
    ensures VersionLess(ParseVersion(current).value, Increment(ParseVersion(current).value, kind))
  {
    KeywordIsNotExplicit(kind);
    BumpText(current, kind);
    ParseFormatVersion(Increment(ParseVersion(current).value, kind));
  }

  /** The keyword bumps in terms of the parts `getNewVersion` reads, one
      keyword at a time. */
  lemma MajorBump(current: string, major: JsNumber)
    requires Component(Split(current, '.'), 0) == major
    ensures GetNewVersion(current, "major") == Success(Show(PlusOne(major)) + ".0.0")
  {
    KeywordIsNotExplicit("major");
  }

  lemma MinorBump(current: string, major: JsNumber, minor: JsNumber)
    requires Component(Split(current, '.'), 0) == major && Component(Split(current, '.'), 1) == minor
    ensures GetNewVersion(current, "minor") == Success(Show(major) + "." + Show(PlusOne(minor)) + ".0")
  {
    KeywordIsNotExplicit("minor");
    KeywordsDiffer();
  }

  lemma PatchBump(current: string, major: JsNumber, minor: JsNumber, patch: JsNumber)
    requires var parts := Split(current, '.');
             Component(parts, 0) == major && Component(parts, 1) == minor && Component(parts, 2) == patch
    ensures GetNewVersion(current, "patch") == Success(Show(major) + "." + Show(minor) + "." + Show(PlusOne(patch)))
  {
    KeywordIsNotExplicit("patch");
    KeywordsDiffer();
  }

  lemma KeywordsDiffer()
    ensures "major" != "minor" && "major" != "patch" && "minor" != "patch"
  {
    assert "major"[1] != "minor"[1];
    assert "major"[0] != "patch"[0];
    assert "minor"[0] != "patch"[0];
  }

  /** The parts of a current version with two digit parts. */
  lemma TwoPartComponents(a: string, b: string)
    requires '.' !in a && '.' !in b && AllDigits(a) && AllDigits(b)
    ensures var parts := Split(a + "." + b, '.');
            Component(parts, 0) == Num(DigitsValue(a)) && Component(parts, 1) == Num(DigitsValue(b)) &&
            Component(parts, 2) == Undefined
  {
    assert Split(b, '.') == [b];
    SplitCons(a, '.', b);
    assert a + "." + b == a + ['.'] + b;
  }

  /** A current version with two digit parts: major and minor bumps are still
      numbers, but patch reads the missing third part and gives "NaN". */
  lemma TwoPartCurrent(a: string, b: string)
    requires '.' !in a && '.' !in b && AllDigits(a) && AllDigits(b)
    ensures GetNewVersion(a + "." + b, "major") == Success(NatToString(DigitsValue(a) + 1) + ".0.0")
    ensures GetNewVersion(a + "." + b, "minor") ==
            Success(NatToString(DigitsValue(a)) + "." + NatToString(DigitsValue(b) + 1) + ".0")
    ensures GetNewVersion(a + "." + b, "patch") ==
            Success(NatToString(DigitsValue(a)) + "." + NatToString(DigitsValue(b)) + "." + "NaN")
  {
    TwoPartComponents(a, b);
    MajorBump(a + "." + b, Num(DigitsValue(a)));
    MinorBump(a + "." + b, Num(DigitsValue(a)), Num(DigitsValue(b)));
    PatchBump(a + "." + b, Num(DigitsValue(a)), Num(DigitsValue(b)), Undefined);
  }

  /** A version string that is not of the dotted form puts "NaN" or "undefined"
      into the result instead of failing. */
  lemma ShortCurrentQuirk()
    ensures GetNewVersion("1.2", "patch") == Success("1.2.NaN")
  {
    assert Split("2", '.') == ["2"];
    SplitCons("1", '.', "2");
    assert "1.2" == "1" + ['.'] + "2";
    assert Split("1.2", '.') == ["1", "2"];
    assert DigitsValue("1") == 1 && DigitsValue("2") == 2;
    assert NatToString(1) == "1" && NatToString(2) == "2";
    var parts := Split("1.2", '.');
    assert Component(parts, 0) == Num(1) && Component(parts, 1) == Num(2) && Component(parts, 2) == Undefined;
    assert "1" + "." + "2" + "." + "NaN" == "1.2.NaN";
    assert !IsExplicitVersion("patch") by { assert '.' !in "patch"; }
  }

  // ---------------------------------------------------------------- the Cargo.toml line

  /** The characters at which a JavaScript `^`/`$` in multiline mode and `.` stop. */
  predicate IsLineTerminator(c: char)
  {
    c == '\n' || c == '\r' || c == '\U{2028}' || c == '\U{2029}'
  }

  predicate IsLineStart(text: string, i: int)
  {
    0 <= i <= |text| && (i == 0 || IsLineTerminator(text[i - 1]))
  }

  /** The end of the line that starts at `i`. */
  function LineEnd(text: string, i: nat): (e: nat)
    requires i <= |text|
    ensures i <= e <= |text|
    ensures forall p | i <= p < e :: !IsLineTerminator(text[p])
    ensures e == |text| || IsLineTerminator(text[e])
    decreases |text| - i
  {
    if i == |text| || IsLineTerminator(text[i]) then i else LineEnd(text, i + 1)
  }

  const VersionLineHead: string := "version = \""

  /** A whole line matched by `^version = ".*"$`. */
  predicate IsVersionLine(line: string)
  {
    |line| > |VersionLineHead| && line[..|VersionLineHead|] == VersionLineHead && line[|line| - 1] == '"'
  }

  predicate LineMatches(text: string, i: nat)
    requires i <= |text|
  {
    IsLineStart(text, i) && IsVersionLine(text[i..LineEnd(text, i)])
  }

  /** The first line, starting at or after the line start `i`, that the pattern matches. */
  function FirstVersionLine(text: string, i: nat): (r: Option<nat>)
    requires IsLineStart(text, i)
    ensures r.Some? ==> i <= r.value <= |text| && LineMatches(text, r.value)
    ensures r.Some? ==> forall j | i <= j < r.value :: !LineMatches(text, j)
    ensures r.None? ==> forall j | i <= j <= |text| :: !LineMatches(text, j)
    decreases |text| - i
  {
    var e := LineEnd(text, i);
    if IsVersionLine(text[i..e]) then Some(i)
    else if e == |text| then None
    else
      var r := FirstVersionLine(text, e + 1);
      assert forall j | i < j <= e :: !IsLineStart(text, j);
      r
  }

  function VersionLine(newVersion: string): (line: string)
    ensures IsVersionLine(line)
  {
    VersionLineHead + newVersion + "\""
  }

  /** `cargoToml.replace(/^version = ".*"$/m, ...)`: the first matching line is
      replaced and all other text is kept; with no such line nothing changes. */
  function ReplaceVersionLine(text: string, newVersion: string): (r: string)
    ensures FirstVersionLine(text, 0).None? ==> r == text
    ensures FirstVersionLine(text, 0).Some? ==>
              var k := FirstVersionLine(text, 0).value;
              r == text[..k] + VersionLine(newVersion) + text[LineEnd(text, k)..]
  {
    match FirstVersionLine(text, 0)
    case None => text
    case Some(k) => text[..k] + VersionLine(newVersion) + text[LineEnd(text, k)..]
  }

  /** A line end depends only on the text up to it. */
  lemma {:induction false} LineEndOfSharedPrefix(text: string, other: string, j: nat, m: nat)
    requires j <= m <= |text| && m <= |other| && text[..m] == other[..m]
    requires LineEnd(text, j) < m
    ensures LineEnd(other, j) == LineEnd(text, j)
    decreases m - j
  {
    assert text[j] == text[..m][j] == other[..m][j] == other[j];
    if !IsLineTerminator(text[j]) {
      LineEndOfSharedPrefix(text, other, j + 1, m);
    }
  }

  lemma LineEndIs(text: string, i: nat, e: nat)
    requires i <= e <= |text|
    requires forall p | i <= p < e :: !IsLineTerminator(text[p])
    requires e == |text| || IsLineTerminator(text[e])
    ensures LineEnd(text, i) == e
  {
  }

  /** Before a line start `k`, two texts that agree up to `k` have the same lines. */
  lemma SameLineBefore(text: string, other: string, j: nat, k: nat)
    requires j < k <= |text| && k <= |other| && text[..k] == other[..k]
    requires IsLineStart(text, k) && IsLineStart(other, j)
    ensures IsLineStart(text, j)
    ensures LineEnd(other, j) == LineEnd(text, j)
    ensures other[j..LineEnd(other, j)] == text[j..LineEnd(text, j)]
  {
    if j > 0 { assert other[j - 1] == text[..k][j - 1]; }
    var e := LineEnd(text, j);
    LineEndOfSharedPrefix(text, other, j, k);
    assert other[j..e] == other[..k][j..e];
  }

  /** A line put between a text that ends a line and a text that starts one is
      a whole line of the result. */
  lemma SpliceLine(pre: string, line: string, post: string)
    requires |pre| == 0 || IsLineTerminator(pre[|pre| - 1])
    requires forall p | 0 <= p < |line| :: !IsLineTerminator(line[p])
    requires |post| == 0 || IsLineTerminator(post[0])
    ensures var r := pre + line + post;
            IsLineStart(r, |pre|) && LineEnd(r, |pre|) == |pre| + |line| && r[|pre|..|pre| + |line|] == line
  {
    var r := pre + line + post;
    if |pre| > 0 { assert r[|pre| - 1] == pre[|pre| - 1]; }
    forall p | |pre| <= p < |pre| + |line|
      ensures !IsLineTerminator(r[p])
    {
      assert r[p] == line[p - |pre|];
    }
    if |post| > 0 { assert r[|pre| + |line|] == post[0]; }
    LineEndIs(r, |pre|, |pre| + |line|);
    assert r[|pre|..|pre| + |line|] == line;
  }

  lemma VersionLineIsOneLine(newVersion: string)
    requires forall p | 0 <= p < |newVersion| :: !IsLineTerminator(newVersion[p])
    ensures forall p | 0 <= p < |VersionLine(newVersion)| :: !IsLineTerminator(VersionLine(newVersion)[p])
  {
    var line := VersionLine(newVersion);
    forall p | 0 <= p < |line|
      ensures !IsLineTerminator(line[p])
    {
      if |VersionLineHead| <= p < |VersionLineHead| + |newVersion| {
        assert line[p] == newVersion[p - |VersionLineHead|];
      }
    }
  }

  /** The new line sits where the replaced one started, as a whole line. */
  lemma ReplacedLineMatches(text: string, newVersion: string, k: nat)
    requires forall p | 0 <= p < |newVersion| :: !IsLineTerminator(newVersion[p])
    requires FirstVersionLine(text, 0) == Some(k)
    ensures var r := ReplaceVersionLine(text, newVersion);
            k <= |r| && r[..k] == text[..k] && LineMatches(r, k) && LineEnd(r, k) == k + |VersionLine(newVersion)|
  {
    var line := VersionLine(newVersion);
    var e := LineEnd(text, k);
    var pre, post := text[..k], text[e..];
    if k > 0 { assert pre[k - 1] == text[k - 1]; }
    if e < |text| { assert post[0] == text[e]; }
    VersionLineIsOneLine(newVersion);
    SpliceLine(pre, line, post);
    var r := pre + line + post;
    assert r[..k] == pre;
  }

  /** Two texts that agree before a line start `k` match the pattern on the same
      lines before `k`. */
  lemma NoEarlierMatch(text: string, other: string, k: nat)
    requires k <= |text| && k <= |other| && text[..k] == other[..k]
    requires IsLineStart(text, k)
    requires forall j | 0 <= j < k :: !LineMatches(text, j)
    ensures forall j | 0 <= j < k :: !LineMatches(other, j)
  {
    forall j | 0 <= j < k
      ensures !LineMatches(other, j)
    {
      if IsLineStart(other, j) {
        SameLineBefore(text, other, j, k);
        assert !LineMatches(text, j);
      }
    }
  }

  /** After the replacement, the new line is the first line the pattern matches. */
  lemma ReplacedLineIsFirst(text: string, newVersion: string, k: nat)
    requires forall p | 0 <= p < |newVersion| :: !IsLineTerminator(newVersion[p])
    requires FirstVersionLine(text, 0) == Some(k)
    ensures var r := ReplaceVersionLine(text, newVersion);
            FirstVersionLine(r, 0) == Some(k) && LineEnd(r, k) == k + |VersionLine(newVersion)|
  {
    var r := ReplaceVersionLine(text, newVersion);
    ReplacedLineMatches(text, newVersion, k);
    NoEarlierMatch(text, r, k);
  }

  /** Writing the same version twice changes nothing the second time, when the
      version has no line break in it. */
  lemma ReplaceVersionLineIdempotent(text: string, newVersion: string)
    requires forall p | 0 <= p < |newVersion| :: !IsLineTerminator(newVersion[p])
    ensures ReplaceVersionLine(ReplaceVersionLine(text, newVersion), newVersion) == ReplaceVersionLine(text, newVersion)
  {
    if FirstVersionLine(text, 0).Some? {
      var k := FirstVersionLine(text, 0).value;
      var r := ReplaceVersionLine(text, newVersion);
      var line := VersionLine(newVersion);
      var e := LineEnd(text, k);
      assert r == text[..k] + line + text[e..];
      ReplacedLineIsFirst(text, newVersion, k);
      var r2 := ReplaceVersionLine(r, newVersion);
      assert r2 == r[..k] + line + r[k + |line|..];
      assert r[..k] == text[..k];
      assert r[k + |line|..] == text[e..];
    }
  }

  // ---------------------------------------------------------------- the script

  /** The version fields of the three manifests the script rewrites. */
  class Manifests {
    /** `version` in package.json. */
    var packageVersion: string
    /** The text of src-tauri/Cargo.toml. */
    var cargoToml: string
    /** `version` in src-tauri/tauri.conf.json. */
    var tauriVersion: string

    constructor (packageVersion: string, cargoToml: string, tauriVersion: string)
      ensures this.packageVersion == packageVersion && this.cargoToml == cargoToml
      ensures this.tauriVersion == tauriVersion
    {
      this.packageVersion := packageVersion;
      this.cargoToml := cargoToml;
      this.tauriVersion := tauriVersion;
    }

    /** The whole script: the new version is computed from package.json's; an
        unknown type throws before anything is written. */
    method Run(args: seq<string>) returns (outcome: Result<string, string>)
      modifies this
      ensures outcome == GetNewVersion(old(packageVersion), VersionTypeArg(args))
      ensures outcome.Failure? ==> unchanged(this)
      ensures outcome.Success? ==>
                packageVersion == outcome.value && tauriVersion == outcome.value &&
                cargoToml == ReplaceVersionLine(old(cargoToml), outcome.value)
    {
      outcome := GetNewVersion(packageVersion, VersionTypeArg(args));
      if outcome.Failure? {
        return;
      }
      var newVersion := outcome.value;
      packageVersion := newVersion;
      cargoToml := ReplaceVersionLine(cargoToml, newVersion);
      tauriVersion := newVersion;
    }
  }
}
