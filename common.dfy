/** Values shared by the models of the pipeline scripts, and the handful of
    Python string operations the scripts rely on, written out exactly. */
module Common {

  datatype Option<+T> = None | Some(value: T)

  /** The Python exception, or explicit exit, that ends a script run. */
  datatype Fault =
    | ValueError(detail: string)
    | KeyError(key: string)
    | IndexError(detail: string)
    | Exit(code: int)

  datatype Result<+T> = Ok(value: T) | Err(fault: Fault)

  /** One release entry of the JSON inventory shared by the extractor, the
      bleeding-edge probe, the test runner and the compose updater:
      image repository -> tags, the release's git SHA (null for the
      bleeding-edge pseudo-release) and the git tags pointing at it. */
  datatype ReleaseEntry = ReleaseEntry(images: map<string, seq<string>>, gitSha: Option<string>, gitTags: seq<string>)

  predicate IsPrefix(p: string, s: string) {
    |p| <= |s| && s[..|p|] == p
  }

  predicate IsSuffix(t: string, s: string) {
    |t| <= |s| && s[|s| - |t|..] == t
  }

  /** Number of occurrences of `c` in `s`. */
  function Count(s: string, c: char): nat
    decreases |s|
  {
    if s == [] then 0 else (if s[0] == c then 1 else 0) + Count(s[1..], c)
  }

  /** Python's `s.split(sep)` for a one-character separator. */
  function Split(s: string, sep: char): (parts: seq<string>)
    ensures |parts| == Count(s, sep) + 1
    ensures forall i :: 0 <= i < |parts| ==> sep !in parts[i]
    decreases |s|
  {
    if s == [] then [""]
    else
      var rest := Split(s[1..], sep);
      if s[0] == sep then [""] + rest
      else [[s[0]] + rest[0]] + rest[1..]
  }

  /** Python's `sep.join(parts)` for a one-character separator. */
  function Join(parts: seq<string>, sep: char): string
    decreases |parts|
  {
    if |parts| == 0 then ""
    else if |parts| == 1 then parts[0]
    else parts[0] + [sep] + Join(parts[1..], sep)
  }

  lemma {:induction false} SplitNoSeparator(s: string, sep: char)
    requires sep !in s
    ensures Split(s, sep) == [s]
    decreases |s|
  {
    if s != [] {
      SplitNoSeparator(s[1..], sep);
      assert [s[0]] + s[1..] == s;
    }
  }

  /** Splitting at the first separator peels off the text before it. */
  lemma {:induction false} SplitAtFirst(a: string, sep: char, b: string)
    requires sep !in a
    ensures Split(a + [sep] + b, sep) == [a] + Split(b, sep)
    decreases |a|
  {
    if a == [] {
      assert a + [sep] + b == [sep] + b;
      assert ([sep] + b)[1..] == b;
    } else {
      SplitAtFirst(a[1..], sep, b);
      assert (a + [sep] + b)[1..] == a[1..] + [sep] + b;
      assert [a[0]] + a[1..] == a;
    }
  }

  /** Joining the pieces of a split gives the original text back. */
  lemma {:induction false} JoinSplit(s: string, sep: char)
    ensures Join(Split(s, sep), sep) == s
    decreases |s|
  {
    if s != [] {
      JoinSplit(s[1..], sep);
      var rest := Split(s[1..], sep);
      if s[0] == sep {
        assert Split(s, sep) == [""] + rest;
        assert ([""] + rest)[1..] == rest;
        assert [sep] + s[1..] == s;
      } else {
        var parts := Split(s, sep);
        assert parts == [[s[0]] + rest[0]] + rest[1..];
        if |rest| == 1 {
          assert [s[0]] + s[1..] == s;
        } else {
          assert parts[1..] == rest[1..];
          assert Join(rest, sep) == rest[0] + [sep] + Join(rest[1..], sep);
          assert [s[0]] + s[1..] == s;
        }
      }
    }
  }

  /** Splitting joined separator-free pieces gives the pieces back. */
  lemma {:induction false} SplitJoin(parts: seq<string>, sep: char)
    requires |parts| >= 1
    requires forall i :: 0 <= i < |parts| ==> sep !in parts[i]
    ensures Split(Join(parts, sep), sep) == parts
    decreases |parts|
  {
    if |parts| == 1 {
      SplitNoSeparator(parts[0], sep);
    } else {
      SplitJoin(parts[1..], sep);
      SplitAtFirst(parts[0], sep, Join(parts[1..], sep));
      assert [parts[0]] + parts[1..] == parts;
    }
  }

  /** A character that is neither the separator nor in any piece is not in the join. */
  lemma {:induction false} JoinAvoids(parts: seq<string>, sep: char, c: char)
    requires c != sep
    requires forall i :: 0 <= i < |parts| ==> c !in parts[i]
    ensures c !in Join(parts, sep)
    decreases |parts|
  {
    if |parts| > 1 {
      JoinAvoids(parts[1..], sep, c);
    }
  }

  /** Python's `s.split(":", 2)` unpacked into exactly two names, as in
      `image_repo, image_tag = image.split(":", 2)`: it succeeds only when
      the string holds exactly one colon, and raises ValueError otherwise. */
  function SplitRepoTag(image: string): (r: Result<(string, string)>)
    ensures r.Ok? <==> Count(image, ':') == 1
    ensures r.Ok? ==> image == r.value.0 + ":" + r.value.1
    ensures r.Ok? ==> ':' !in r.value.0 && ':' !in r.value.1
  {
    var parts := Split(image, ':');
    if |parts| == 2 then
      JoinSplit(image, ':');
      assert Join(parts, ':') == parts[0] + [':'] + parts[1];
      Ok((parts[0], parts[1]))
    else Err(ValueError("expected exactly one ':' in " + image))
  }

  /** The partner of SplitRepoTag: a colon-free repository and tag come back. */
  lemma SplitRepoTagOfJoin(repo: string, tag: string)
    requires ':' !in repo && ':' !in tag
    ensures SplitRepoTag(repo + ":" + tag) == Ok((repo, tag))
  {
    SplitAtFirst(repo, ':', tag);
    SplitNoSeparator(tag, ':');
    assert repo + ":" + tag == repo + [':'] + tag;
  }

  /** Last `/`-separated segment: `os.path.basename` and `s.split('/')[-1]`. */
  function Basename(path: string): (r: string)
    ensures '/' !in r
    ensures IsSuffix(r, path)
    decreases |path|
  {
    if path == [] then ""
    else if path[|path| - 1] == '/' then ""
    else
      var r := Basename(path[..|path| - 1]) + [path[|path| - 1]];
      assert path[..|path| - 1] + [path[|path| - 1]] == path;
      r
  }

  /** The basename runs back to the last `/`, or to the start of a path without one. */
  lemma {:induction false} BasenameMaximal(path: string)
    ensures Basename(path) == path || path[|path| - |Basename(path)| - 1] == '/'
    decreases |path|
  {
    if path != [] && path[|path| - 1] != '/' {
      var n := |path| - 1;
      BasenameMaximal(path[..n]);
      assert path[..n] + [path[n]] == path;
    }
  }

  predicate MatchesAt(s: string, pat: string, i: nat) {
    i + |pat| <= |s| && s[i..i + |pat|] == pat
  }

  /** Python's `s.replace(pat, rep)`: every non-overlapping occurrence of
      `pat`, scanning left to right, is replaced. */
  function ReplaceAll(s: string, pat: string, rep: string): string
    requires pat != []
    decreases |s|
  {
    if |s| < |pat| then s
    else if s[..|pat|] == pat then rep + ReplaceAll(s[|pat|..], pat, rep)
    else [s[0]] + ReplaceAll(s[1..], pat, rep)
  }

  /** Text in front of which no occurrence of the pattern starts passes through unchanged. */
  lemma {:induction false} ReplaceAllSkips(a: string, b: string, pat: string, rep: string)
    requires pat != []
    requires forall i :: 0 <= i < |a| ==> !MatchesAt(a + b, pat, i)
    ensures ReplaceAll(a + b, pat, rep) == a + ReplaceAll(b, pat, rep)
    decreases |a|
  {
    if a != [] {
      var s := a + b;
      assert !MatchesAt(s, pat, 0);
      if |s| < |pat| {
        assert ReplaceAll(b, pat, rep) == b;
      } else {
        assert s[1..] == a[1..] + b;
        forall i | 0 <= i < |a[1..]|
          ensures !MatchesAt(a[1..] + b, pat, i)
        {
          assert !MatchesAt(s, pat, i + 1);
          if i + |pat| <= |a[1..] + b| {
            assert (a[1..] + b)[i..i + |pat|] == s[i + 1..i + 1 + |pat|];
          }
        }
        ReplaceAllSkips(a[1..], b, pat, rep);
        assert s[..|pat|] == s[0..|pat|];
        assert ReplaceAll(s, pat, rep) == [s[0]] + ReplaceAll(s[1..], pat, rep);
        assert s[0] == a[0];
        assert [a[0]] + a[1..] == a;
      }
    } else {
      assert a + b == b;
    }
  }

  lemma ReplaceAllAtStart(pat: string, b: string, rep: string)
    requires pat != []
    ensures ReplaceAll(pat + b, pat, rep) == rep + ReplaceAll(b, pat, rep)
  {
    assert (pat + b)[..|pat|] == pat;
    assert (pat + b)[|pat|..] == b;
  }

  lemma ReplaceAllEmpty(pat: string, rep: string)
    requires pat != []
    ensures ReplaceAll("", pat, rep) == ""
  {
  }

  /** Removing every occurrence of a character leaves none behind and adds none. */
  lemma {:induction false} RemoveCharGone(s: string, c: char)
    ensures c !in ReplaceAll(s, [c], "")
    ensures forall x :: x in ReplaceAll(s, [c], "") ==> x in s
    decreases |s|
  {
    if |s| >= 1 {
      RemoveCharGone(s[1..], c);
      assert forall x :: x in s[1..] ==> x in s;
    }
  }

  /** ASCII lower-casing, as `str.lower()` does for ASCII text. */
  function LowerChar(c: char): char {
    if 'A' <= c <= 'Z' then (c as int + 32) as char else c
  }

  function Lower(s: string): (r: string)
    ensures |r| == |s|
    ensures forall i :: 0 <= i < |s| ==> r[i] == LowerChar(s[i])
  {
    seq(|s|, i requires 0 <= i < |s| => LowerChar(s[i]))
  }

  /** Lower-casing leaves no capital behind, moves each capital to its small
      letter, keeps every other character, and is idempotent. */
  lemma LowerMeaning(s: string)
    ensures forall i :: 0 <= i < |s| ==> !('A' <= Lower(s)[i] <= 'Z')
    ensures forall i :: 0 <= i < |s| && 'A' <= s[i] <= 'Z' ==> Lower(s)[i] as int == s[i] as int + 32
    ensures forall i :: 0 <= i < |s| && !('A' <= s[i] <= 'Z') ==> Lower(s)[i] == s[i]
    ensures Lower(Lower(s)) == Lower(s)
  {
    var r := Lower(s);
    assert forall i :: 0 <= i < |r| ==> LowerChar(r[i]) == r[i];
  }

  predicate NoDuplicates<T(==)>(s: seq<T>) {
    forall i, j :: 0 <= i < j < |s| ==> s[i] != s[j]
  }

  /** `a` is `b` with some elements left out, the rest kept in order. */
  predicate IsSubsequence<T(==)>(a: seq<T>, b: seq<T>)
    decreases |b|
  {
    a == [] ||
    (b != [] &&
      ((a[|a| - 1] == b[|b| - 1] && IsSubsequence(a[..|a| - 1], b[..|b| - 1])) || IsSubsequence(a, b[..|b| - 1])))
  }

  function Elements<T(==)>(s: seq<T>): set<T> {
    set x | x in s
  }

  function Reversed<T>(s: seq<T>): (r: seq<T>)
    ensures |r| == |s|
    ensures forall i :: 0 <= i < |s| ==> r[i] == s[|s| - 1 - i]
  {
    seq(|s|, i requires 0 <= i < |s| => s[|s| - 1 - i])
  }

  /** Reversing twice gives the sequence back. */
  lemma ReversedInvolution<T>(s: seq<T>)
    ensures Reversed(Reversed(s)) == s
  {
    var r := Reversed(s);
    assert forall i :: 0 <= i < |s| ==> Reversed(r)[i] == r[|s| - 1 - i] == s[i];
  }

  /** Reversing only reorders: the same elements, each as often. */
  lemma {:induction false} ReversedMultiset<T>(s: seq<T>)
    ensures multiset(Reversed(s)) == multiset(s)
    decreases |s|
  {
    if s != [] {
      var n := |s| - 1;
      ReversedMultiset(s[..n]);
      assert Reversed(s) == [s[n]] + Reversed(s[..n]);
      assert s == s[..n] + [s[n]];
    }
  }
}
