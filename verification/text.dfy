/** Option values, and the string vocabulary shared by every pass of the monitor:
    Python's character classes, `str.strip`, `in`, `startswith`, `endswith` and
    `str.replace(pat, "")`, all over `string` (a sequence of Unicode scalar values). */
module Options {
  datatype Option<T> = None | Some(value: T)
}

module Text {
  import opened Options

  /** The least position in `lo..hi` (inclusive) satisfying `p`: the scan `re.search`
      performs over candidate start positions. */
  function FirstWhere(p: nat -> bool, lo: nat, hi: nat): (r: Option<nat>)
    ensures r.Some? ==> lo <= r.value <= hi && p(r.value)
    ensures r.Some? ==> forall k :: lo <= k < r.value ==> !p(k)
    ensures r.None? ==> forall k :: lo <= k <= hi ==> !p(k)
    decreases hi + 1 - lo
  {
    if lo > hi then None
    else if p(lo) then Some(lo)
    else FirstWhere(p, lo + 1, hi)
  }

  /** Characters for which Python's `str.isspace()` holds; these are what `\s` in a
      `str` pattern and the argument-less `str.strip()` treat as whitespace. */
  predicate IsSpace(c: char) {
    if c <= ' ' then
      c == ' ' || ('\t' <= c <= '\r') || ('\U{1c}' <= c <= '\U{1f}')
    else
      && '\U{85}' <= c <= '\U{3000}'
      && (|| c == '\U{85}' || c == '\U{a0}' || c == '\U{1680}'
          || ('\U{2000}' <= c <= '\U{200a}')
          || c == '\U{2028}' || c == '\U{2029}' || c == '\U{202f}' || c == '\U{205f}' || c == '\U{3000}')
  }

  /** The regex class `[a-zA-Z0-9_]`. */
  predicate IsWordChar(c: char) {
    ('a' <= c <= 'z') || ('A' <= c <= 'Z') || ('0' <= c <= '9') || c == '_'
  }

  /** The decimal digits `\d` accepts that matter for the portal's Arabic text:
      ASCII, Arabic-Indic and Extended Arabic-Indic digits. */
  predicate IsDigit(c: char) {
    ('0' <= c <= '9') || ('\U{660}' <= c <= '\U{669}') || ('\U{6f0}' <= c <= '\U{6f9}')
  }

  predicate AllDigits(s: string) {
    forall k :: 0 <= k < |s| ==> IsDigit(s[k])
  }

  /** `s.startswith(p)` */
  predicate StartsWith(s: string, p: string) {
    |p| <= |s| && s[..|p|] == p
  }

  /** `s.endswith(p)` */
  predicate EndsWith(s: string, p: string) {
    |p| <= |s| && s[|s| - |p|..] == p
  }

  /** `p in s` for strings: `p` occurs at some position of `s`. */
  predicate Contains(s: string, p: string) {
    exists i :: 0 <= i <= |s| - |p| && StartsWith(s[i..], p)
  }

  /** `a` can be obtained from `b` by deleting characters. */
  predicate IsSubsequence<T(==)>(a: seq<T>, b: seq<T>)
    decreases |b|
  {
    && |a| <= |b|
    && (|a| == 0 || (a[0] == b[0] && IsSubsequence(a[1..], b[1..])) || IsSubsequence(a, b[1..]))
  }

  lemma {:induction false} SubsequenceOfSelf<T>(s: seq<T>)
    ensures IsSubsequence(s, s)
    decreases |s|
  {
    if |s| > 0 {
      SubsequenceOfSelf(s[1..]);
    }
  }

  /** Deleting characters never introduces one. */
  lemma {:induction false} SubsequenceElements<T>(a: seq<T>, b: seq<T>)
    requires IsSubsequence(a, b)
    ensures forall x :: x in a ==> x in b
    decreases |b|
  {
    if |a| > 0 {
      if a[0] == b[0] && IsSubsequence(a[1..], b[1..]) {
        SubsequenceElements(a[1..], b[1..]);
        assert forall x :: x in a ==> x == a[0] || x in a[1..];
      } else {
        SubsequenceElements(a, b[1..]);
      }
    }
  }

  /** Prepending characters to the longer sequence keeps a subsequence one. */
  lemma {:induction false} SubsequencePrepend<T>(a: seq<T>, p: seq<T>, b: seq<T>)
    requires IsSubsequence(a, b)
    ensures IsSubsequence(a, p + b)
    decreases |p|
  {
    if |p| > 0 {
      SubsequencePrepend(a, p[1..], b);
      assert (p + b)[1..] == p[1..] + b;
      assert IsSubsequence(a, (p + b)[1..]);
      assert |a| <= |p + b|;
    } else {
      assert p + b == b;
    }
  }

  lemma AppendAssociative<T>(x: seq<T>, y: seq<T>, z: seq<T>)
    ensures x + (y + z) == x + y + z
  {
  }

  /** Position of the first `c` at or after `i`, or `|t|`. */
  function NextChar(t: string, c: char, i: nat): (j: nat)
    requires i <= |t|
    ensures i <= j <= |t|
    ensures j < |t| ==> t[j] == c
    decreases |t| - i
  {
    if i == |t| || t[i] == c then i else NextChar(t, c, i + 1)
  }

  /** No `c` is skipped: everything before the position found differs from `c`. */
  lemma {:induction false} NextCharSkips(t: string, c: char, i: nat)
    requires i <= |t|
    ensures forall k :: i <= k < NextChar(t, c, i) ==> t[k] != c
    decreases |t| - i
  {
    if i < |t| && t[i] != c {
      NextCharSkips(t, c, i + 1);
    }
  }

  /** A `c` at `j` bounds the search from `i`. */
  lemma {:induction false} NextCharBefore(t: string, c: char, i: nat, j: nat)
    requires i <= j < |t| && t[j] == c
    ensures NextChar(t, c, i) <= j
    decreases j - i
  {
    if i < j && t[i] != c {
      NextCharBefore(t, c, i + 1, j);
    }
  }

  /** The first `c` from `i` on is the one at `j`, if none comes before it. */
  lemma {:induction false} NextCharAt(t: string, c: char, i: nat, j: nat)
    requires i <= j < |t| && t[j] == c
    requires forall k :: i <= k < j ==> t[k] != c
    ensures NextChar(t, c, i) == j
    decreases j - i
  {
    if i < j {
      NextCharAt(t, c, i + 1, j);
    }
  }

  /** Index of the first non-space character at or after `i` (or `|s|`). */
  function SkipSpace(s: string, i: nat): (j: nat)
    requires i <= |s|
    ensures i <= j <= |s|
    ensures forall k :: i <= k < j ==> IsSpace(s[k])
    ensures j == |s| || !IsSpace(s[j])
    decreases |s| - i
  {
    if i < |s| && IsSpace(s[i]) then SkipSpace(s, i + 1) else i
  }

  /** Index just past the last non-space character in `s[lo..e]` (or `lo`). */
  function BackSpace(s: string, lo: nat, e: nat): (j: nat)
    requires lo <= e <= |s|
    ensures lo <= j <= e
    ensures forall k :: j <= k < e ==> IsSpace(s[k])
    ensures j == lo || !IsSpace(s[j - 1])
    decreases e
  {
    if e > lo && IsSpace(s[e - 1]) then BackSpace(s, lo, e - 1) else e
  }

  /** `s.strip()`: the infix of `s` left after cutting every whitespace character off
      both ends; it neither starts nor ends with whitespace. */
  function Strip(s: string): (r: string)
    ensures var i := SkipSpace(s, 0);
      && i + |r| <= |s|
      && r == s[i..i + |r|]
      && (forall k :: 0 <= k < i ==> IsSpace(s[k]))
      && (forall k :: i + |r| <= k < |s| ==> IsSpace(s[k]))
    ensures r == [] || (!IsSpace(r[0]) && !IsSpace(r[|r| - 1]))
  {
    var i := SkipSpace(s, 0);
    s[i..BackSpace(s, i, |s|)]
  }

  /** A string that starts and ends with a non-space character is its own strip. */
  lemma StripKeepsTrimmed(s: string)
    requires s == [] || (!IsSpace(s[0]) && !IsSpace(s[|s| - 1]))
    ensures Strip(s) == s
  {
  }

  lemma StripIdempotent(s: string)
    ensures Strip(Strip(s)) == Strip(s)
  {
    StripKeepsTrimmed(Strip(s));
  }

  /** `s.replace(p, "")`: removes the non-overlapping occurrences of `p` found scanning
      left to right, never rescanning the text that a removal brings together. */
  function RemoveAll(s: string, p: string): (r: string)
    requires p != []
    ensures IsSubsequence(r, s)
    ensures !Contains(s, p) ==> r == s
    decreases |s|
  {
    if s == [] then []
    else if StartsWith(s, p) then
      var r := RemoveAll(s[|p|..], p);
      SubsequencePrepend(r, s[..|p|], s[|p|..]);
      assert s == s[..|p|] + s[|p|..];
      assert Contains(s, p) by { assert StartsWith(s[0..], p); }
      r
    else
      var r := RemoveAll(s[1..], p);
      assert Contains(s[1..], p) ==> Contains(s, p) by {
        if Contains(s[1..], p) {
          var i :| 0 <= i <= |s[1..]| - |p| && StartsWith(s[1..][i..], p);
          assert s[1..][i..] == s[i + 1..];
        }
      }
      [s[0]] + r
  }

  /** `replace` scans left to right: the text `u` before the first occurrence of `p`
      is kept, that occurrence is removed, and the scan resumes right after it. The
      condition says no occurrence starts inside `u`, not even one that overlaps `p`. */
  lemma {:induction false} RemoveAllSkipsTo(u: string, p: string, v: string)
    requires p != [] && !Contains(u + p[..|p| - 1], p)
    ensures RemoveAll(u + p + v, p) == u + RemoveAll(v, p)
    decreases |u|
  {
    if u == [] {
      RemoveAllAtStart(p, v);
    } else {
      NoEarlierOccurrence(u, p, v);
      RemoveAllSkipsTo(u[1..], p, v);
      RemoveAllSkipStep(u, p, v);
    }
  }

  /** An occurrence at the very start is removed and the scan resumes after it. */
  lemma RemoveAllAtStart(p: string, v: string)
    requires p != []
    ensures RemoveAll([] + p + v, p) == RemoveAll(v, p)
  {
    var s := [] + p + v;
    assert s == p + v && StartsWith(s, p);
    assert s[|p|..] == v;
  }

  /** With no occurrence starting inside `u`, none starts at its first character, and
      none starts inside the rest of `u`. */
  lemma NoEarlierOccurrence(u: string, p: string, v: string)
    requires u != [] && p != [] && !Contains(u + p[..|p| - 1], p)
    ensures !StartsWith(u + p + v, p)
    ensures !Contains(u[1..] + p[..|p| - 1], p)
  {
    var s, w := u + p + v, u + p[..|p| - 1];
    assert !StartsWith(w[0..], p);
    assert w[0..][..|p|] == s[..|p|];
    assert w == [u[0]] + (u[1..] + p[..|p| - 1]);
    ContainsInTail(u[0], u[1..] + p[..|p| - 1], p);
  }

  /** The step past a first character of `u` that starts no occurrence. */
  lemma RemoveAllSkipStep(u: string, p: string, v: string)
    requires u != [] && p != [] && !StartsWith(u + p + v, p)
    requires RemoveAll(u[1..] + p + v, p) == u[1..] + RemoveAll(v, p)
    ensures RemoveAll(u + p + v, p) == u + RemoveAll(v, p)
  {
    RemoveAllKeepsHead(u, p, v);
    ConsTail(u, RemoveAll(v, p));
  }

  /** The first character of `u` is kept and the scan goes on in the rest. */
  lemma RemoveAllKeepsHead(u: string, p: string, v: string)
    requires u != [] && p != [] && !StartsWith(u + p + v, p)
    ensures RemoveAll(u + p + v, p) == [u[0]] + RemoveAll(u[1..] + p + v, p)
  {
    var s := u + p + v;
    RemoveAllCopiesFirst(s, p);
    assert s[1..] == u[1..] + p + v;
  }

  lemma ConsTail<T>(u: seq<T>, r: seq<T>)
    requires u != []
    ensures [u[0]] + (u[1..] + r) == u + r
  {
    AppendAssociative([u[0]], u[1..], r);
    assert [u[0]] + u[1..] == u;
  }

  /** A first character that starts no occurrence is kept. */
  lemma RemoveAllCopiesFirst(s: string, p: string)
    requires s != [] && p != [] && !StartsWith(s, p)
    ensures RemoveAll(s, p) == [s[0]] + RemoveAll(s[1..], p)
  {
  }

  /** An occurrence in the tail is an occurrence in the whole. */
  lemma ContainsInTail(x: char, a: string, p: string)
    ensures Contains(a, p) ==> Contains([x] + a, p)
  {
    if Contains(a, p) {
      var i :| 0 <= i <= |a| - |p| && StartsWith(a[i..], p);
      assert ([x] + a)[i + 1..] == a[i..];
    }
  }
}
