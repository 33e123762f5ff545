/** The text passes that turn the extracted `[ ... ]` literal into something Python's
    literal parser accepts: drop newlines and tabs, quote bare keys, turn every single
    quote into a double quote, and drop a comma left before a closing bracket. */
module Normalize {
  import opened Options
  import opened Text

  /** `s.replace(c, '')` for one character: every `c` goes, everything else stays,
      in order. */
  function RemoveChar(s: string, c: char): (r: string)
    ensures c !in r
    ensures IsSubsequence(r, s)
    ensures forall d :: d != c ==> multiset(r)[d] == multiset(s)[d]
    decreases |s|
  {
    if s == [] then []
    else
      var rest := RemoveChar(s[1..], c);
      assert s == [s[0]] + s[1..];
      if s[0] == c then
        SubsequencePrepend(rest, [s[0]], s[1..]);
        rest
      else
        [s[0]] + rest
  }

  /** Length of the run of `[a-zA-Z0-9_]` characters that `s` starts with. */
  function WordRun(s: string): (n: nat)
    ensures n <= |s|
    ensures forall k :: 0 <= k < n ==> IsWordChar(s[k])
    ensures n == |s| || !IsWordChar(s[n])
    decreases |s|
  {
    if s != [] && IsWordChar(s[0]) then 1 + WordRun(s[1..]) else 0
  }

  /** Length of the run of whitespace characters that `s` starts with. */
  function SpaceRun(s: string): (n: nat)
    ensures n <= |s|
    ensures forall k :: 0 <= k < n ==> IsSpace(s[k])
    ensures n == |s| || !IsSpace(s[n])
    decreases |s|
  {
    if s != [] && IsSpace(s[0]) then 1 + SpaceRun(s[1..]) else 0
  }

  /** A match of `([a-zA-Z0-9_]+)\s*:\s*` at the start of a string: the key is its first
      `keyLen` characters, the ':' is at `colon`, and the whole match is `len`
      characters long. */
  datatype KeyMatch = KeyMatch(keyLen: nat, colon: nat, len: nat)

  /** The key pattern anchored at the start of `s`. A match is a whole word run, then
      whitespace, the ':', and all the whitespace after it. The word run is taken
      whole: a shorter run would be followed by a word character, which is neither
      whitespace nor ':'. `MatchKeyFindsKey` shows that every such prefix is found. */
  function MatchKey(s: string): (m: Option<KeyMatch>)
    ensures m.Some? ==> 0 < m.value.keyLen <= m.value.colon < m.value.len <= |s|
    ensures m.Some? ==> forall k :: 0 <= k < m.value.keyLen ==> IsWordChar(s[k])
    ensures m.Some? ==> !IsWordChar(s[m.value.keyLen])
    ensures m.Some? ==> s[m.value.colon] == ':'
    ensures m.Some? ==> forall k :: m.value.keyLen <= k < m.value.len && k != m.value.colon ==> IsSpace(s[k])
    ensures m.Some? ==> m.value.len == |s| || !IsSpace(s[m.value.len])
    ensures m.Some? ==> s[0] != '\'' && s[0] != '"'
  {
    var n := WordRun(s);
    if n == 0 then None
    else
      var a := n + SpaceRun(s[n..]);
      if a < |s| && s[a] == ':' then Some(KeyMatch(n, a, a + 1 + SpaceRun(s[a + 1..])))
      else None
  }

  /** The replacement `'\1': ` for a key. */
  function QuotedKey(key: string): string {
    "'" + key + "': "
  }

  /** `re.sub(r'([a-zA-Z0-9_]+)\s*:\s*', r"'\1': ", s)`, scanning left to right: a match
      is replaced and the scan resumes after it; elsewhere one character is copied.
      The only characters it adds are quotes, colons and spaces. */
  function QuoteKeys(s: string): (r: string)
    ensures forall c :: c in r ==> c in s || c == '\'' || c == ':' || c == ' '
    decreases |s|
  {
    if s == [] then []
    else
      match MatchKey(s)
      case Some(m) =>
        var rest := QuoteKeys(s[m.len..]);
        assert forall c :: c in s[..m.keyLen] ==> c in s;
        assert forall c :: c in s[m.len..] ==> c in s;
        QuotedKey(s[..m.keyLen]) + rest
      case None =>
        [s[0]] + QuoteKeys(s[1..])
  }

  /** A quote character opens a string literal. */
  predicate IsQuote(c: char) {
    c == '\'' || c == '"'
  }

  /** Length of the string literal `s` starts with: up to and including the next
      occurrence of its opening quote, or the rest of `s` when it is unterminated. */
  function QuotedLen(s: string): (n: nat)
    requires s != [] && IsQuote(s[0])
    ensures 1 <= n <= |s|
  {
    ClosingAt(s, 1)
  }

  /** Position just past the first `s[0]` at or after `i`, or `|s|`. */
  function ClosingAt(s: string, i: nat): (n: nat)
    requires 1 <= i <= |s|
    ensures i <= n <= |s|
    ensures forall k :: i <= k < n - 1 ==> s[k] != s[0]
    ensures n < |s| ==> s[n - 1] == s[0]
    decreases |s| - i
  {
    if i == |s| then i
    else if s[i] == s[0] then i + 1
    else ClosingAt(s, i + 1)
  }

  /** The key-quoting pass as it was evidently meant: bare keys are quoted as above,
      but string literals are copied through untouched. */
  function QuoteKeysOutsideStrings(s: string): (r: string)
    ensures forall c :: c in r ==> c in s || c == '\'' || c == ':' || c == ' '
    decreases |s|
  {
    if s == [] then []
    else if IsQuote(s[0]) then
      var n := QuotedLen(s);
      var rest := QuoteKeysOutsideStrings(s[n..]);
      assert forall c :: c in s[..n] ==> c in s;
      assert forall c :: c in s[n..] ==> c in s;
      s[..n] + rest
    else
      match MatchKey(s)
      case Some(m) =>
        var rest := QuoteKeysOutsideStrings(s[m.len..]);
        assert forall c :: c in s[..m.keyLen] ==> c in s;
        assert forall c :: c in s[m.len..] ==> c in s;
        QuotedKey(s[..m.keyLen]) + rest
      case None =>
        [s[0]] + QuoteKeysOutsideStrings(s[1..])
  }

  /** Outside string literals the corrected pass is the original one. */
  lemma {:induction false} QuoteKeysAgreeWithoutQuotes(s: string)
    requires forall k :: 0 <= k < |s| ==> !IsQuote(s[k])
    ensures QuoteKeysOutsideStrings(s) == QuoteKeys(s)
    decreases |s|
  {
    if s != [] {
      match MatchKey(s)
      case Some(m) => QuoteKeysAgreeWithoutQuotes(s[m.len..]);
      case None => QuoteKeysAgreeWithoutQuotes(s[1..]);
    }
  }

  /** A string literal is copied through verbatim, whatever it contains. */
  lemma QuotedSegmentPreserved(q: char, body: string, rest: string)
    requires IsQuote(q) && q !in body
    ensures QuoteKeysOutsideStrings([q] + body + [q] + rest) == [q] + body + [q] + QuoteKeysOutsideStrings(rest)
  {
    var s := [q] + body + [q] + rest;
    var n := |body| + 2;
    assert forall k :: 1 <= k < n - 1 ==> s[k] != s[0] by {
      forall k | 1 <= k < n - 1 ensures s[k] != s[0] {
        assert s[k] == body[k - 1];
      }
    }
    assert s[n - 1] == q;
    assert QuotedLen(s) == n;
    assert s[..n] == [q] + body + [q];
    assert s[n..] == rest;
  }

  /** A character that cannot start a key is copied. */
  lemma QuoteKeysCopies(c: char, rest: string)
    requires !IsWordChar(c)
    ensures QuoteKeys([c] + rest) == [c] + QuoteKeys(rest)
  {
    assert ([c] + rest)[1..] == rest;
  }

  /** A word, whitespace, ':' and whitespace are quoted as a key, and the scan goes on
      after the whitespace. */
  lemma QuoteKeysQuotesWord(w: string, ws1: string, ws2: string, rest: string)
    requires w != [] && forall k :: 0 <= k < |w| ==> IsWordChar(w[k])
    requires forall k :: 0 <= k < |ws1| ==> IsSpace(ws1[k])
    requires forall k :: 0 <= k < |ws2| ==> IsSpace(ws2[k])
    requires rest == [] || !IsSpace(rest[0])
    ensures QuoteKeys(w + ws1 + ":" + ws2 + rest) == QuotedKey(w) + QuoteKeys(rest)
  {
    MatchKeyOfKey(w, ws1, ws2, rest);
    KeySlices(w, ws1, ws2, rest);
    QuoteKeysAtMatch(w + ws1 + ":" + ws2 + rest, KeyMatch(|w|, |w| + |ws1|, |w| + |ws1| + 1 + |ws2|), w, rest);
  }

  /** Where the key pattern matches, the key is quoted and the scan resumes after the
      match. */
  lemma QuoteKeysAtMatch(s: string, m: KeyMatch, key: string, rest: string)
    requires MatchKey(s) == Some(m) && s[..m.keyLen] == key && s[m.len..] == rest
    ensures QuoteKeys(s) == QuotedKey(key) + QuoteKeys(rest)
  {
  }

  lemma KeySlices(w: string, ws1: string, ws2: string, rest: string)
    ensures var s := w + ws1 + ":" + ws2 + rest;
      s[..|w|] == w && s[|w| + |ws1| + 1 + |ws2|..] == rest
  {
  }

  /** The key pattern matches a word, whitespace, ':' and whitespace, and nothing
      after them. */
  lemma MatchKeyOfKey(w: string, ws1: string, ws2: string, rest: string)
    requires w != [] && forall k :: 0 <= k < |w| ==> IsWordChar(w[k])
    requires forall k :: 0 <= k < |ws1| ==> IsSpace(ws1[k])
    requires forall k :: 0 <= k < |ws2| ==> IsSpace(ws2[k])
    requires rest == [] || !IsSpace(rest[0])
    ensures MatchKey(w + ws1 + ":" + ws2 + rest) == Some(KeyMatch(|w|, |w| + |ws1|, |w| + |ws1| + 1 + |ws2|))
  {
    var s := w + ws1 + ":" + ws2 + rest;
    var n, c := |w|, |w| + |ws1|;
    var e := c + 1 + |ws2|;
    forall k | 0 <= k < n ensures IsWordChar(s[k]) {
      assert s[k] == w[k];
    }
    forall k | n <= k < e && k != c ensures IsSpace(s[k]) {
      if k < c { assert s[k] == ws1[k - n]; } else { assert s[k] == ws2[k - c - 1]; }
    }
    assert s[c] == ':';
    assert e < |s| ==> s[e] == rest[0];
    MatchKeyOfShape(s, n, c, e);
  }

  /** The converse of `MatchKey`'s contract: a word run, whitespace, ':' and all the
      whitespace after it are exactly the match found. */
  lemma MatchKeyOfShape(s: string, n: nat, c: nat, e: nat)
    requires 0 < n <= c < e <= |s|
    requires forall k :: 0 <= k < n ==> IsWordChar(s[k])
    requires s[c] == ':'
    requires forall k :: n <= k < e && k != c ==> IsSpace(s[k])
    requires e == |s| || !IsSpace(s[e])
    ensures MatchKey(s) == Some(KeyMatch(n, c, e))
  {
    WordsBefore(s, n);
    SpacesBefore(s, n, c);
    SpacesBefore(s, c + 1, e);
    MatchKeyOfRuns(s, n, c, e);
  }

  /** The match read off the word run and the two whitespace runs. */
  lemma MatchKeyOfRuns(s: string, n: nat, c: nat, e: nat)
    requires 0 < n <= c < |s| && s[c] == ':'
    requires WordRun(s) == n && SpaceRun(s[n..]) == c - n && SpaceRun(s[c + 1..]) == e - c - 1
    ensures MatchKey(s) == Some(KeyMatch(n, c, e))
  {
    var m := MatchKey(s);
    assert m.Some? && m.value.keyLen == n;
    assert m.value.colon == c;
    assert m.value.len == e;
    assert m.value == KeyMatch(n, c, e);
  }

  /** The word run of a string whose word characters stop at `n`. */
  lemma WordsBefore(s: string, n: nat)
    requires n < |s|
    requires forall k :: 0 <= k < n ==> IsWordChar(s[k])
    requires !IsWordChar(s[n])
    ensures WordRun(s) == n
  {
  }

  /** The whitespace run from `i` of a string whose whitespace stops at `j`. */
  lemma SpacesBefore(s: string, i: nat, j: nat)
    requires i <= j <= |s|
    requires forall k :: i <= k < j ==> IsSpace(s[k])
    requires j == |s| || !IsSpace(s[j])
    ensures SpaceRun(s[i..]) == j - i
  {
  }

  /** No key is missed: whenever `s` starts with a word, whitespace and ':', the
      pattern matches there. */
  lemma MatchKeyFindsKey(w: string, ws: string, t: string)
    requires w != [] && forall k :: 0 <= k < |w| ==> IsWordChar(w[k])
    requires forall k :: 0 <= k < |ws| ==> IsSpace(ws[k])
    ensures MatchKey(w + ws + ":" + t).Some?
  {
    var n := SpaceRun(t);
    assert t == t[..n] + t[n..];
    assert w + ws + ":" + t == w + ws + ":" + t[..n] + t[n..];
    MatchKeyOfKey(w, ws, t[..n], t[n..]);
  }

  lemma {:induction false} WordRunOfWord(w: string, rest: string)
    requires forall k :: 0 <= k < |w| ==> IsWordChar(w[k])
    requires rest == [] || !IsWordChar(rest[0])
    ensures WordRun(w + rest) == |w|
    decreases |w|
  {
    if w != [] {
      assert (w + rest)[1..] == w[1..] + rest;
      WordRunOfWord(w[1..], rest);
    } else {
      assert w + rest == rest;
    }
  }

  /** The pass as written rewrites the scheme of a quoted URL value as if it were a
      key: `'http://x'` becomes `''http': //x'`, so the literal now closes right after
      its opening quote and the URL is lost. */
  lemma QuoteKeysCorruptsQuotedUrl(scheme: string, rest: string)
    requires scheme != [] && forall k :: 0 <= k < |scheme| ==> IsWordChar(scheme[k])
    requires rest == [] || !IsSpace(rest[0])
    ensures QuoteKeys("'" + scheme + ":" + rest) == "'" + QuotedKey(scheme) + QuoteKeys(rest)
  {
    calc {
      QuoteKeys("'" + scheme + ":" + rest);
      { assert "'" + scheme + ":" + rest == ['\''] + (scheme + ":" + rest); }
      QuoteKeys(['\''] + (scheme + ":" + rest));
      { QuoteKeysAfterNonWord('\'', scheme, rest); }
      ['\''] + (QuotedKey(scheme) + QuoteKeys(rest));
      { AppendAssociative("'", QuotedKey(scheme), QuoteKeys(rest)); }
      "'" + QuotedKey(scheme) + QuoteKeys(rest);
    }
  }

  /** A word with its ':' behind a non-word character is still quoted as a key. */
  lemma QuoteKeysAfterNonWord(c: char, w: string, rest: string)
    requires !IsWordChar(c)
    requires w != [] && forall k :: 0 <= k < |w| ==> IsWordChar(w[k])
    requires rest == [] || !IsSpace(rest[0])
    ensures QuoteKeys([c] + (w + ":" + rest)) == [c] + (QuotedKey(w) + QuoteKeys(rest))
  {
    QuoteKeysCopies(c, w + ":" + rest);
    NoSpaceAroundColon(w, rest);
    QuoteKeysQuotesWord(w, [], [], rest);
  }

  lemma NoSpaceAroundColon(w: string, rest: string)
    ensures w + [] + ":" + [] + rest == w + ":" + rest
  {
  }


  /** The corrected pass leaves the same quoted URL alone. */
  lemma QuoteKeysOutsideStringsKeepsQuotedUrl(url: string, rest: string)
    requires '\'' !in url
    ensures QuoteKeysOutsideStrings("'" + url + "'" + rest) == "'" + url + "'" + QuoteKeysOutsideStrings(rest)
  {
    QuotedSegmentPreserved('\'', url, rest);
    assert "'" + url + "'" + rest == ['\''] + url + ['\''] + rest;
  }

  /** `s.replace("'", '"')`: every single quote becomes a double quote, nothing else moves. */
  function SingleToDoubleQuotes(s: string): (r: string)
    ensures |r| == |s| && '\'' !in r
    ensures forall k :: 0 <= k < |s| ==> r[k] == if s[k] == '\'' then '"' else s[k]
  {
    seq(|s|, k requires 0 <= k < |s| => if s[k] == '\'' then '"' else s[k])
  }

  /** A comma followed by whitespace and a ']' stands at the start of `s`; the value is
      the length of the whitespace run. */
  function TrailingCommaAt(s: string): (m: Option<nat>)
    ensures m.Some? ==> 2 + m.value <= |s| && s[0] == ',' && s[1 + m.value] == ']'
    ensures m.Some? ==> forall k :: 1 <= k < 1 + m.value ==> IsSpace(s[k])
  {
    if s == [] || s[0] != ',' then None
    else
      var n := SpaceRun(s[1..]);
      if 1 + n < |s| && s[1 + n] == ']' then
        assert forall k :: 1 <= k < 1 + n ==> s[k] == s[1..][k - 1];
        Some(n)
      else None
  }

  /** `re.sub(r',\s*\]', ']', s)`, scanning left to right without rescanning what a
      replacement produces; it only ever deletes characters. */
  function DropTrailingCommas(s: string): (r: string)
    ensures IsSubsequence(r, s)
    decreases |s|
  {
    if s == [] then []
    else
      match TrailingCommaAt(s)
      case Some(n) =>
        var tail := s[2 + n..];
        var rest := DropTrailingCommas(tail);
        assert s == s[..1 + n] + ([']'] + tail);
        SubsequencePrepend([']'] + rest, s[..1 + n], [']'] + tail);
        "]" + rest
      case None =>
        var rest := DropTrailingCommas(s[1..]);
        assert s == [s[0]] + s[1..];
        [s[0]] + rest
  }

  /** The whitespace run of `ws + rest` is `ws` when `rest` does not start with space. */
  lemma {:induction false} SpaceRunOfSpaces(ws: string, rest: string)
    requires forall k :: 0 <= k < |ws| ==> IsSpace(ws[k])
    requires rest == [] || !IsSpace(rest[0])
    ensures SpaceRun(ws + rest) == |ws|
    decreases |ws|
  {
    if ws != [] {
      assert (ws + rest)[1..] == ws[1..] + rest;
      SpaceRunOfSpaces(ws[1..], rest);
    } else {
      assert ws + rest == rest;
    }
  }

  /** The pass turns a comma, any whitespace and a ']' into the ']' alone, and goes on
      after the ']'. */
  lemma DropsCommaRun(ws: string, v: string)
    requires forall k :: 0 <= k < |ws| ==> IsSpace(ws[k])
    ensures DropTrailingCommas("," + ws + "]" + v) == "]" + DropTrailingCommas(v)
  {
    var s := "," + ws + "]" + v;
    assert s[1..] == ws + ("]" + v);
    SpaceRunOfSpaces(ws, "]" + v);
    assert s[1 + |ws|] == ']';
    assert TrailingCommaAt(s) == Some(|ws|);
    assert s[2 + |ws|..] == v;
  }

  /** A character other than a comma is copied, and the scan goes on after it. */
  lemma DropCopiesNonComma(c: char, v: string)
    requires c != ','
    ensures DropTrailingCommas([c] + v) == [c] + DropTrailingCommas(v)
  {
    assert ([c] + v)[1..] == v;
  }

  /** A comma not followed by whitespace and a ']' is copied too. */
  lemma DropCopiesLoneComma(v: string)
    requires v[SpaceRun(v)..] == [] || v[SpaceRun(v)] != ']'
    ensures DropTrailingCommas("," + v) == "," + DropTrailingCommas(v)
  {
    var s := "," + v;
    assert s[1..] == v;
    assert TrailingCommaAt(s).None?;
  }

  /** The characters the pass deletes are commas and whitespace only: every other
      character occurs as often after it as before. */
  lemma {:induction false} DropTrailingCommasDeletesOnlyCommasAndSpaces(s: string, c: char)
    requires c != ',' && !IsSpace(c)
    ensures multiset(DropTrailingCommas(s))[c] == multiset(s)[c]
    decreases |s|
  {
    if s != [] {
      match TrailingCommaAt(s)
      case Some(n) =>
        DropTrailingCommasDeletesOnlyCommasAndSpaces(s[2 + n..], c);
        DropCommaRunStep(s, n, c);
      case None =>
        DropTrailingCommasDeletesOnlyCommasAndSpaces(s[1..], c);
        DropOtherStep(s, c);
    }
  }

  /** The step over a `,\s*]` at the start of `s`. */
  lemma DropCommaRunStep(s: string, n: nat, c: char)
    requires TrailingCommaAt(s) == Some(n)
    requires c != ',' && !IsSpace(c)
    requires multiset(DropTrailingCommas(s[2 + n..]))[c] == multiset(s[2 + n..])[c]
    ensures multiset(DropTrailingCommas(s))[c] == multiset(s)[c]
  {
    DropAtCommaRun(s, n);
    CommaRunHasNo(s, n, c);
    MultisetCons(']', DropTrailingCommas(s[2 + n..]), c);
    MultisetCons(']', s[2 + n..], c);
  }

  /** At a `,\s*]` the pass emits the ']' and goes on after it. */
  lemma DropAtCommaRun(s: string, n: nat)
    requires TrailingCommaAt(s) == Some(n)
    ensures DropTrailingCommas(s) == "]" + DropTrailingCommas(s[2 + n..])
  {
  }

  lemma MultisetCons(x: char, t: string, c: char)
    ensures multiset([x] + t)[c] == (if x == c then 1 else 0) + multiset(t)[c]
  {
  }

  /** The step over a character that does not start a `,\s*]`. */
  lemma DropOtherStep(s: string, c: char)
    requires s != [] && TrailingCommaAt(s).None?
    requires multiset(DropTrailingCommas(s[1..]))[c] == multiset(s[1..])[c]
    ensures multiset(DropTrailingCommas(s))[c] == multiset(s)[c]
  {
    assert DropTrailingCommas(s) == [s[0]] + DropTrailingCommas(s[1..]);
    assert s == [s[0]] + s[1..];
  }

  /** Replacing `,\s*]` by `]` keeps the count of any other character. */
  lemma CommaRunHasNo(s: string, n: nat, c: char)
    requires TrailingCommaAt(s) == Some(n)
    requires c != ',' && !IsSpace(c)
    ensures multiset(s)[c] == multiset("]" + s[2 + n..])[c]
  {
    assert s == s[..1 + n] + ([']'] + s[2 + n..]);
    assert c !in s[..1 + n] by {
      forall k | 0 <= k < 1 + n ensures s[k] != c {
      }
    }
  }

  /** The first steps of the fetch step's cleanup: strip the group and drop its
      newlines and tabs. Nothing else is added or removed. */
  function FlattenLiteral(literal: string): (r: string)
    ensures '\n' !in r && '\t' !in r
    ensures forall c :: c in r ==> c in literal
  {
    var t := Strip(literal);
    assert forall c :: c in t ==> c in literal by {
      var i := SkipSpace(literal, 0);
      forall k | 0 <= k < |t| ensures t[k] in literal {
        assert t[k] == literal[i + k];
      }
    }
    var a0 := RemoveChar(t, '\n');
    SubsequenceElements(a0, t);
    var a := RemoveChar(a0, '\t');
    SubsequenceElements(a, a0);
    a
  }

  /** The last steps: unify quotes and drop trailing commas. Given text without newline
      or tab, the result has no newline, tab or single quote. */
  function FinishLiteral(b: string): (r: string)
    requires '\n' !in b && '\t' !in b
    ensures '\n' !in r && '\t' !in r && '\'' !in r
  {
    var c := SingleToDoubleQuotes(b);
    assert '\n' !in c && '\t' !in c;
    var r := DropTrailingCommas(c);
    SubsequenceElements(r, c);
    r
  }

  /** The cleanup chain of the fetch step as main.py writes it: strip, drop newlines and
      tabs, quote keys with the plain substitution, unify quotes, drop trailing commas.
      What it hands to the literal parser has no newline, tab or single quote left. */
  function CleanLiteral(literal: string): (r: string)
    ensures '\n' !in r && '\t' !in r && '\'' !in r
  {
    var a := FlattenLiteral(literal);
    var b := QuoteKeys(a);
    assert '\n' !in b && '\t' !in b;
    FinishLiteral(b)
  }

  /** The same chain with the corrected key-quoting pass, which copies string literals
      through untouched. */
  function CleanLiteralCorrected(literal: string): (r: string)
    ensures '\n' !in r && '\t' !in r && '\'' !in r
  {
    var a := FlattenLiteral(literal);
    var b := QuoteKeysOutsideStrings(a);
    assert '\n' !in b && '\t' !in b;
    FinishLiteral(b)
  }

  /** The two chains hand the parser the same text whenever the literal has no quote
      character, so the defect only shows on literals with quoted values. */
  lemma CleanLiteralAgreesWithoutQuotes(literal: string)
    requires '\'' !in literal && '"' !in literal
    ensures CleanLiteral(literal) == CleanLiteralCorrected(literal)
  {
    var a := FlattenLiteral(literal);
    assert forall k :: 0 <= k < |a| ==> !IsQuote(a[k]) by {
      forall k | 0 <= k < |a| ensures !IsQuote(a[k]) {
        assert a[k] in a;
      }
    }
    QuoteKeysAgreeWithoutQuotes(a);
  }
}
