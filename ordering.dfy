/** Python's ordering of strings (code point by code point, a proper prefix
    first) and the sort the scripts get from `list.sort()`. */
module Ordering {

  /** `a <= b` on Python strings. */
  predicate LexLe(a: string, b: string)
    decreases |a|
  {
    |a| == 0 || (|b| > 0 && (a[0] < b[0] || (a[0] == b[0] && LexLe(a[1..], b[1..]))))
  }

  predicate LexLt(a: string, b: string) {
    LexLe(a, b) && a != b
  }

  lemma {:induction false} LexLeReflexive(a: string)
    ensures LexLe(a, a)
    decreases |a|
  {
    if |a| > 0 {
      LexLeReflexive(a[1..]);
    }
  }

  lemma {:induction false} LexLeTotal(a: string, b: string)
    ensures LexLe(a, b) || LexLe(b, a)
    decreases |a|
  {
    if |a| > 0 && |b| > 0 && a[0] == b[0] {
      LexLeTotal(a[1..], b[1..]);
    }
  }

  lemma {:induction false} LexLeAntisymmetric(a: string, b: string)
    requires LexLe(a, b) && LexLe(b, a)
    ensures a == b
    decreases |a|
  {
    if |a| > 0 {
      LexLeAntisymmetric(a[1..], b[1..]);
      assert a == [a[0]] + a[1..];
      assert b == [b[0]] + b[1..];
    }
  }

  lemma {:induction false} LexLeTransitive(a: string, b: string, c: string)
    requires LexLe(a, b) && LexLe(b, c)
    ensures LexLe(a, c)
    decreases |a|
  {
    if |a| > 0 && a[0] == b[0] && b[0] == c[0] {
      LexLeTransitive(a[1..], b[1..], c[1..]);
    }
  }

  /** `s` is in ascending order of `key`. */
  ghost predicate SortedBy<T>(s: seq<T>, key: T -> string) {
    forall i, j :: 0 <= i < j < |s| ==> LexLe(key(s[i]), key(s[j]))
  }

  /** Inserts `x` after every element whose key is not greater than its own,
      as a stable sort does. */
  function InsertBy<T>(s: seq<T>, x: T, key: T -> string): seq<T>
    decreases |s|
  {
    if s == [] then [x]
    else if LexLt(key(x), key(s[0])) then [x] + s
    else [s[0]] + InsertBy(s[1..], x, key)
  }

  /** `sorted(s, key=key)`. */
  function SortBy<T>(s: seq<T>, key: T -> string): seq<T>
    decreases |s|
  {
    if s == [] then []
    else InsertBy(SortBy(s[..|s| - 1], key), s[|s| - 1], key)
  }

  /** Insertion adds the one element and loses none. */
  lemma {:induction false} InsertByPermutes<T>(s: seq<T>, x: T, key: T -> string)
    ensures multiset(InsertBy(s, x, key)) == multiset(s) + multiset{x}
    decreases |s|
  {
    if s != [] && !LexLt(key(x), key(s[0])) {
      InsertByPermutes(s[1..], x, key);
      assert s == [s[0]] + s[1..];
    }
  }

  lemma {:induction false} InsertBySorted<T>(s: seq<T>, x: T, key: T -> string)
    requires SortedBy(s, key)
    ensures SortedBy(InsertBy(s, x, key), key)
    decreases |s|
  {
    if s != [] && !LexLt(key(x), key(s[0])) {
      InsertBySorted(s[1..], x, key);
      InsertByPermutes(s[1..], x, key);
      var r := InsertBy(s, x, key);
      var t := InsertBy(s[1..], x, key);
      assert r == [s[0]] + t;
      // x comes after s[0], so every element of t is at least key(s[0])
      LexLeTotal(key(x), key(s[0]));
      assert LexLe(key(s[0]), key(x)) by {
        if key(x) == key(s[0]) { LexLeReflexive(key(x)); }
      }
      forall k | 0 <= k < |t|
        ensures LexLe(key(s[0]), key(t[k]))
      {
        assert t[k] in multiset(t);
        assert t[k] in multiset(s[1..]) + multiset{x};
        if t[k] != x {
          assert t[k] in s[1..];
          var m :| 0 <= m < |s[1..]| && s[1..][m] == t[k];
          assert s[m + 1] == t[k];
        }
      }
    } else if s != [] {
      var r := [x] + s;
      forall i, j | 0 <= i < j < |r|
        ensures LexLe(key(r[i]), key(r[j]))
      {
        if i == 0 {
          assert LexLe(key(x), key(s[0]));
          if j > 1 {
            LexLeTransitive(key(x), key(s[0]), key(s[j - 1]));
          }
        }
      }
    }
  }

  /** `sorted` returns its input in ascending order of the key, and loses nothing. */
  lemma {:induction false} SortBySorted<T>(s: seq<T>, key: T -> string)
    ensures SortedBy(SortBy(s, key), key)
    ensures multiset(SortBy(s, key)) == multiset(s)
    decreases |s|
  {
    if s != [] {
      SortBySorted(s[..|s| - 1], key);
      InsertBySorted(SortBy(s[..|s| - 1], key), s[|s| - 1], key);
      InsertByPermutes(SortBy(s[..|s| - 1], key), s[|s| - 1], key);
      assert s == s[..|s| - 1] + [s[|s| - 1]];
    }
  }

  function Identity(s: string): string { s }
}
