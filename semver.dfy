/** Semantic Versioning 2.0.0, as far as the bleeding-edge probe needs it:
    the `MAJOR.MINOR.PATCH[-PRERELEASE][+BUILD]` grammar of section 2, 9 and
    10, its printed form, and precedence as section 11 defines it. */
module Semver {
  import opened Common
  import opened Ordering

  datatype Version = Version(major: nat, minor: nat, patch: nat, prerelease: seq<string>, build: seq<string>)

  // ---------------------------------------------------------------------------
  // Characters and identifiers
  // ---------------------------------------------------------------------------

  predicate IsDigit(c: char) {
    '0' <= c <= '9'
  }

  predicate IsIdentChar(c: char) {
    IsDigit(c) || 'a' <= c <= 'z' || 'A' <= c <= 'Z' || c == '-'
  }

  predicate AllDigits(s: string) {
    forall i :: 0 <= i < |s| ==> IsDigit(s[i])
  }

  /** `0|[1-9][0-9]*` */
  predicate NumericId(s: string) {
    |s| > 0 && AllDigits(s) && (|s| == 1 || s[0] != '0')
  }

  /** A pre-release identifier: alphanumerics and hyphens, not empty, and no
      leading zero when it is numeric (section 9). */
  predicate PreId(s: string) {
    |s| > 0 && (forall i :: 0 <= i < |s| ==> IsIdentChar(s[i])) && (AllDigits(s) ==> NumericId(s))
  }

  /** A build identifier: alphanumerics and hyphens, not empty (section 10). */
  predicate BuildId(s: string) {
    |s| > 0 && forall i :: 0 <= i < |s| ==> IsIdentChar(s[i])
  }

  /** The decimal value of a digit string. */
  function DigitsValue(s: string): nat
    requires AllDigits(s)
    decreases |s|
  {
    if s == [] then 0
    else DigitsValue(s[..|s| - 1]) * 10 + (s[|s| - 1] as int - '0' as int)
  }

  function DigitChar(d: nat): (c: char)
    requires d < 10
    ensures IsDigit(c) && c as int - '0' as int == d
  {
    ('0' as int + d) as char
  }

  /** `str(n)` for a natural number. */
  function NatToString(n: nat): (s: string)
    ensures NumericId(s)
    ensures DigitsValue(s) == n
    decreases n
  {
    if n < 10 then [DigitChar(n)]
    else
      var s := NatToString(n / 10) + [DigitChar(n % 10)];
      assert s[..|s| - 1] == NatToString(n / 10);
      s
  }

  lemma {:induction false} DigitsValueZero(s: string)
    requires AllDigits(s) && DigitsValue(s) == 0
    ensures forall i :: 0 <= i < |s| ==> s[i] == '0'
    decreases |s|
  {
    if s != [] {
      var p := s[..|s| - 1];
      DigitsValueZero(p);
      forall i | 0 <= i < |s| ensures s[i] == '0' {
        if i < |p| { assert s[i] == p[i]; }
      }
    }
  }

  /** A numeric identifier is the printed form of its value. */
  lemma {:induction false} NatToStringOfDigits(s: string)
    requires NumericId(s)
    ensures NatToString(DigitsValue(s)) == s
    decreases |s|
  {
    if |s| > 1 {
      var p := s[..|s| - 1];
      assert p[0] == s[0];
      assert NumericId(p);
      NatToStringOfDigits(p);
      if DigitsValue(p) == 0 {
        DigitsValueZero(p);
        assert false;
      }
      var n := DigitsValue(s);
      assert n / 10 == DigitsValue(p);
      assert n % 10 == s[|s| - 1] as int - '0' as int;
      assert s == p + [s[|s| - 1]];
    }
  }

  // ---------------------------------------------------------------------------
  // Parsing and printing
  // ---------------------------------------------------------------------------

  /** The text before the first `c`, and the text after it when there is one. */
  function SplitFirst(s: string, c: char): (r: (string, Option<string>))
    ensures c !in r.0
    ensures r.1.None? ==> r.0 == s
    ensures r.1.Some? ==> s == r.0 + [c] + r.1.value
    decreases |s|
  {
    if s == [] then ("", None)
    else if s[0] == c then ("", Some(s[1..]))
    else
      var rest := SplitFirst(s[1..], c);
      assert s == [s[0]] + s[1..];
      ([s[0]] + rest.0, rest.1)
  }

  predicate AllPreIds(ids: seq<string>) {
    forall i :: 0 <= i < |ids| ==> PreId(ids[i])
  }

  predicate AllBuildIds(ids: seq<string>) {
    forall i :: 0 <= i < |ids| ==> BuildId(ids[i])
  }

  /** The version the three parts of a version string spell, if they are well formed. */
  function Assemble(core: string, preText: Option<string>, buildText: Option<string>): (r: Option<Version>)
    ensures r.Some? ==> AllPreIds(r.value.prerelease) && AllBuildIds(r.value.build)
  {
    var nums := Split(core, '.');
    var pre := if preText.None? then [] else Split(preText.value, '.');
    var build := if buildText.None? then [] else Split(buildText.value, '.');
    if |nums| == 3 && NumericId(nums[0]) && NumericId(nums[1]) && NumericId(nums[2]) && AllPreIds(pre) && AllBuildIds(build)
    then Some(Version(DigitsValue(nums[0]), DigitsValue(nums[1]), DigitsValue(nums[2]), pre, build))
    else None
  }

  /** `semver.VersionInfo.parse`: None where the library raises ValueError.
      The build part starts at the first `+` and the pre-release part at the
      first `-` before it. */
  function ParseVersion(s: string): (r: Option<Version>)
    ensures r.Some? ==> AllPreIds(r.value.prerelease) && AllBuildIds(r.value.build)
  {
    var main := SplitFirst(s, '+');
    var core := SplitFirst(main.0, '-');
    Assemble(core.0, core.1, main.1)
  }

  /** The text a part printed after its marker came from. */
  function Marked(marker: char, text: Option<string>): string {
    if text.None? then "" else [marker] + text.value
  }

  /** `str(version)`. */
  function Format(v: Version): string {
    NatToString(v.major) + "." + NatToString(v.minor) + "." + NatToString(v.patch)
    + Suffix('-', v.prerelease) + Suffix('+', v.build)
  }

  lemma CoreRoundTrip(core: string)
    requires |Split(core, '.')| == 3
    requires NumericId(Split(core, '.')[0]) && NumericId(Split(core, '.')[1]) && NumericId(Split(core, '.')[2])
    ensures NatToString(DigitsValue(Split(core, '.')[0])) + "." + NatToString(DigitsValue(Split(core, '.')[1])) + "."
            + NatToString(DigitsValue(Split(core, '.')[2])) == core
  {
    var nums := Split(core, '.');
    NatToStringOfDigits(nums[0]);
    NatToStringOfDigits(nums[1]);
    NatToStringOfDigits(nums[2]);
    JoinSplit(core, '.');
    assert nums[1..][0] == nums[1] && nums[1..][1..] == nums[2..] && nums[2..] == [nums[2]];
    assert Join(nums[2..], '.') == nums[2];
    assert Join(nums[1..], '.') == nums[1] + "." + nums[2];
  }

  /** An optional dotted part printed after its marker. */
  function Suffix(marker: char, ids: seq<string>): string {
    if ids == [] then "" else [marker] + Join(ids, '.')
  }

  lemma SuffixRoundTrip(text: Option<string>, marker: char)
    ensures Suffix(marker, if text.None? then [] else Split(text.value, '.')) == Marked(marker, text)
  {
    if text.Some? {
      JoinSplit(text.value, '.');
    }
  }

  lemma AssembleFormat(core: string, preText: Option<string>, buildText: Option<string>)
    requires Assemble(core, preText, buildText).Some?
    ensures Format(Assemble(core, preText, buildText).value) == core + Marked('-', preText) + Marked('+', buildText)
  {
    CoreRoundTrip(core);
    SuffixRoundTrip(preText, '-');
    SuffixRoundTrip(buildText, '+');
  }

  /** Printing a parsed version gives back the text it was parsed from. */
  lemma ParseFormat(s: string)
    requires ParseVersion(s).Some?
    ensures Format(ParseVersion(s).value) == s
  {
    var main := SplitFirst(s, '+');
    var core := SplitFirst(main.0, '-');
    AssembleFormat(core.0, core.1, main.1);
    assert main.0 == core.0 + Marked('-', core.1);
    assert s == main.0 + Marked('+', main.1);
  }

  /** Printing a well-formed version and parsing the text gives the version
      back: the parser accepts every version it can print. */
  lemma FormatParse(v: Version)
    requires AllPreIds(v.prerelease) && AllBuildIds(v.build)
    ensures ParseVersion(Format(v)) == Some(v)
  {
    var core := NatToString(v.major) + "." + NatToString(v.minor) + "." + NatToString(v.patch);
    var pre := Suffix('-', v.prerelease);
    var build := Suffix('+', v.build);
    assert Format(v) == core + pre + build;
    CoreText(NatToString(v.major), NatToString(v.minor), NatToString(v.patch));
    assert '+' !in core + pre by {
      if v.prerelease != [] {
        SuffixText('-', v.prerelease, '+');
      }
    }
    if v.build == [] {
      assert core + pre + build == core + pre;
      SplitFirstAbsent(core + pre, '+');
    } else {
      SuffixText('+', v.build, '+');
      assert core + pre + build == (core + pre) + ['+'] + Join(v.build, '.');
      SplitFirstAt(core + pre, '+', Join(v.build, '.'));
    }
    if v.prerelease == [] {
      assert core + pre == core;
      SplitFirstAbsent(core, '-');
    } else {
      SuffixText('-', v.prerelease, '+');
      assert core + pre == core + ['-'] + Join(v.prerelease, '.');
      SplitFirstAt(core, '-', Join(v.prerelease, '.'));
    }
  }

  /** The printed core: no `+` or `-`, and its dot-separated fields are the
      three printed numbers. */
  lemma CoreText(a: string, b: string, c: string)
    requires AllDigits(a) && AllDigits(b) && AllDigits(c)
    ensures '+' !in a + "." + b + "." + c && '-' !in a + "." + b + "." + c
    ensures Split(a + "." + b + "." + c, '.') == [a, b, c]
  {
    DigitsAvoid(a);
    DigitsAvoid(b);
    DigitsAvoid(c);
    assert a + "." + b + "." + c == a + ['.'] + (b + ['.'] + c);
    SplitAtFirst(a, '.', b + ['.'] + c);
    SplitAtFirst(b, '.', c);
    SplitNoSeparator(c, '.');
  }

  lemma DigitsAvoid(s: string)
    requires AllDigits(s)
    ensures '.' !in s && '+' !in s && '-' !in s
  {
    forall i | 0 <= i < |s|
      ensures s[i] != '.' && s[i] != '+' && s[i] != '-'
    {
      assert IsDigit(s[i]);
    }
  }

  /** A printed dotted part is its marker and the joined identifiers, which
      avoid `other` and split back into the identifiers. */
  lemma SuffixText(marker: char, ids: seq<string>, other: char)
    requires ids != []
    requires forall i :: 0 <= i < |ids| ==> |ids[i]| > 0 && forall k :: 0 <= k < |ids[i]| ==> IsIdentChar(ids[i][k])
    requires !IsIdentChar(other) && other != '.'
    ensures Suffix(marker, ids) == [marker] + Join(ids, '.')
    ensures other !in Join(ids, '.') && Split(Join(ids, '.'), '.') == ids
  {
    forall i | 0 <= i < |ids|
      ensures other !in ids[i] && '.' !in ids[i]
    {
      assert forall k :: 0 <= k < |ids[i]| ==> IsIdentChar(ids[i][k]);
    }
    JoinAvoids(ids, '.', other);
    SplitJoin(ids, '.');
  }

  lemma {:induction false} SplitFirstAt(a: string, c: char, b: string)
    requires c !in a
    ensures SplitFirst(a + [c] + b, c) == (a, Some(b))
    decreases |a|
  {
    if a == [] {
      assert a + [c] + b == [c] + b;
      assert ([c] + b)[1..] == b;
    } else {
      SplitFirstAt(a[1..], c, b);
      assert (a + [c] + b)[1..] == a[1..] + [c] + b;
      assert [a[0]] + a[1..] == a;
    }
  }

  /** `1.2.3` is a release version. */
  lemma ParsePlainRelease()
    ensures ParseVersion("1.2.3") == Some(Version(1, 2, 3, [], []))
  {
    SplitFirstAbsent("1.2.3", '+');
    SplitFirstAbsent("1.2.3", '-');
    SplitPlainCore();
    SingleDigits();
  }

  lemma SingleDigits()
    ensures NumericId("1") && NumericId("2") && NumericId("3")
    ensures DigitsValue("1") == 1 && DigitsValue("2") == 2 && DigitsValue("3") == 3
  {
    assert "1"[..0] == [] && "2"[..0] == [] && "3"[..0] == [];
  }

  lemma SplitPlainCore()
    ensures Split("1.2.3", '.') == ["1", "2", "3"]
  {
    assert "1.2.3" == "1" + ['.'] + ("2" + ['.'] + "3");
    SplitAtFirst("1", '.', "2" + ['.'] + "3");
    SplitAtFirst("2", '.', "3");
    SplitNoSeparator("3", '.');
  }

  lemma {:induction false} SplitFirstAbsent(s: string, c: char)
    requires c !in s
    ensures SplitFirst(s, c) == (s, None)
    decreases |s|
  {
    if s != [] {
      SplitFirstAbsent(s[1..], c);
      assert [s[0]] + s[1..] == s;
    }
  }

  /** A numeric field with a leading zero is refused. */
  lemma ParseLeadingZero()
    ensures ParseVersion("01.2.3") == None
  {
    SplitFirstAbsent("01.2.3", '+');
    SplitFirstAbsent("01.2.3", '-');
    assert "01.2.3" == "01" + ['.'] + "2.3";
    SplitAtFirst("01", '.', "2.3");
  }

  // ---------------------------------------------------------------------------
  // Precedence (section 11)
  // ---------------------------------------------------------------------------

  function CompareNat(a: nat, b: nat): int {
    if a < b then -1 else if a > b then 1 else 0
  }

  /** Python's string comparison as -1, 0 or 1. */
  function CompareText(a: string, b: string): int {
    if a == b then 0 else if LexLe(a, b) then -1 else 1
  }

  /** Section 11.4.1-11.4.3: numeric identifiers compare numerically and sort
      before alphanumeric ones, which compare in ASCII order. */
  function CompareId(a: string, b: string): int {
    if AllDigits(a) && AllDigits(b) then CompareNat(DigitsValue(a), DigitsValue(b))
    else if AllDigits(a) then -1
    else if AllDigits(b) then 1
    else CompareText(a, b)
  }

  /** Section 11.4.4: identifier by identifier, a shorter list first when
      all the shared identifiers are equal. */
  function CompareIds(a: seq<string>, b: seq<string>): int
    decreases |a|
  {
    if a == [] && b == [] then 0
    else if a == [] then -1
    else if b == [] then 1
    else if CompareId(a[0], b[0]) != 0 then CompareId(a[0], b[0])
    else CompareIds(a[1..], b[1..])
  }

  /** Section 11.3: a version without pre-release identifiers has the higher precedence. */
  function ComparePre(a: seq<string>, b: seq<string>): int {
    if a == [] && b == [] then 0
    else if a == [] then 1
    else if b == [] then -1
    else CompareIds(a, b)
  }

  /** Section 11.2-11.4: major, minor and patch numerically, then the
      pre-release; build metadata plays no part (section 10). */
  function Compare(v: Version, w: Version): (c: int)
    ensures -1 <= c <= 1
  {
    if v.major != w.major then CompareNat(v.major, w.major)
    else if v.minor != w.minor then CompareNat(v.minor, w.minor)
    else if v.patch != w.patch then CompareNat(v.patch, w.patch)
    else
      var p := ComparePre(v.prerelease, w.prerelease);
      assert -1 <= p <= 1 by { ComparePreRange(v.prerelease, w.prerelease); }
      p
  }

  predicate Less(v: Version, w: Version) {
    Compare(v, w) < 0
  }

  /** The `ordered` relation that each comparison level is shown to be: a
      total preorder given as -1/0/1, with the two directions mirrored. */
  lemma {:induction false} CompareIdsRange(a: seq<string>, b: seq<string>)
    ensures -1 <= CompareIds(a, b) <= 1
    decreases |a|
  {
    if a != [] && b != [] && CompareId(a[0], b[0]) == 0 {
      CompareIdsRange(a[1..], b[1..]);
    }
  }

  lemma ComparePreRange(a: seq<string>, b: seq<string>)
    ensures -1 <= ComparePre(a, b) <= 1
  {
    CompareIdsRange(a, b);
  }

  lemma CompareTextAntisymmetric(a: string, b: string)
    ensures CompareText(a, b) == -CompareText(b, a)
  {
    if a != b {
      LexLeTotal(a, b);
      if LexLe(a, b) && LexLe(b, a) {
        LexLeAntisymmetric(a, b);
      }
    }
  }

  lemma CompareTextTransitive(a: string, b: string, c: string)
    requires CompareText(a, b) <= 0 && CompareText(b, c) <= 0
    ensures CompareText(a, c) <= 0
    ensures CompareText(a, c) == 0 ==> a == b && b == c
  {
    if a != b && b != c {
      LexLeTransitive(a, b, c);
      if a == c {
        LexLeAntisymmetric(a, b);
      }
    }
  }

  lemma CompareIdAntisymmetric(a: string, b: string)
    ensures CompareId(a, b) == -CompareId(b, a)
  {
    CompareTextAntisymmetric(a, b);
  }

  lemma CompareIdTransitive(a: string, b: string, c: string)
    requires CompareId(a, b) <= 0 && CompareId(b, c) <= 0
    ensures CompareId(a, c) <= 0
    ensures CompareId(a, c) == 0 ==> CompareId(a, b) == 0 && CompareId(b, c) == 0
  {
    if !AllDigits(a) && !AllDigits(b) && !AllDigits(c) {
      CompareTextTransitive(a, b, c);
    }
  }

  lemma {:induction false} CompareIdsAntisymmetric(a: seq<string>, b: seq<string>)
    ensures CompareIds(a, b) == -CompareIds(b, a)
    decreases |a|
  {
    if a != [] && b != [] {
      CompareIdAntisymmetric(a[0], b[0]);
      CompareIdsAntisymmetric(a[1..], b[1..]);
    }
  }

  lemma {:induction false} CompareIdsTransitive(a: seq<string>, b: seq<string>, c: seq<string>)
    requires CompareIds(a, b) <= 0 && CompareIds(b, c) <= 0
    ensures CompareIds(a, c) <= 0
    ensures CompareIds(a, c) == 0 ==> CompareIds(a, b) == 0 && CompareIds(b, c) == 0
    decreases |a|
  {
    CompareIdsRange(a, b);
    CompareIdsRange(b, c);
    if a != [] && b != [] && c != [] {
      CompareIdTransitive(a[0], b[0], c[0]);
      CompareIdAntisymmetric(a[0], b[0]);
      CompareIdAntisymmetric(b[0], c[0]);
      if CompareId(a[0], b[0]) == 0 && CompareId(b[0], c[0]) == 0 {
        CompareIdsTransitive(a[1..], b[1..], c[1..]);
      }
    }
  }

  lemma ComparePreAntisymmetric(a: seq<string>, b: seq<string>)
    ensures ComparePre(a, b) == -ComparePre(b, a)
  {
    CompareIdsAntisymmetric(a, b);
  }

  lemma ComparePreTransitive(a: seq<string>, b: seq<string>, c: seq<string>)
    requires ComparePre(a, b) <= 0 && ComparePre(b, c) <= 0
    ensures ComparePre(a, c) <= 0
    ensures ComparePre(a, c) == 0 ==> ComparePre(a, b) == 0 && ComparePre(b, c) == 0
  {
    if a != [] && b != [] && c != [] {
      CompareIdsTransitive(a, b, c);
    }
  }

  /** Precedence is antisymmetric: comparing the other way round flips the sign. */
  lemma CompareAntisymmetric(v: Version, w: Version)
    ensures Compare(v, w) == -Compare(w, v)
  {
    ComparePreAntisymmetric(v.prerelease, w.prerelease);
  }

  /** Precedence is transitive, strictly so when either step is strict. */
  lemma CompareTransitive(u: Version, v: Version, w: Version)
    requires Compare(u, v) <= 0 && Compare(v, w) <= 0
    ensures Compare(u, w) <= 0
    ensures Compare(u, w) == 0 ==> Compare(u, v) == 0 && Compare(v, w) == 0
  {
    if u.major == v.major == w.major && u.minor == v.minor == w.minor && u.patch == v.patch == w.patch {
      ComparePreTransitive(u.prerelease, v.prerelease, w.prerelease);
    }
  }

  /** Precedence ignores build metadata and ranks a release above its pre-releases. */
  lemma CompareIgnoresBuild(v: Version, build: seq<string>)
    ensures Compare(v, v.(build := build)) == 0
    ensures v.prerelease != [] ==> Less(v, v.(prerelease := []))
  {
    CompareIdsAntisymmetric(v.prerelease, v.prerelease);
  }

  /** No version ranks strictly above itself. */
  lemma LessIrreflexive(v: Version)
    ensures !Less(v, v)
  {
    CompareAntisymmetric(v, v);
  }

  /** Whatever ranks at or below `a` ranks strictly below anything above `a`. */
  lemma LessAfterAtMost(a: Version, b: Version, c: Version)
    requires !Less(a, b) && Less(a, c)
    ensures Less(b, c) && !Less(c, b)
  {
    CompareAntisymmetric(a, b);
    CompareTransitive(b, a, c);
    CompareAntisymmetric(b, c);
  }
}
