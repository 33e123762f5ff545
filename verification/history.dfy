/** The two history files: the text they hold, how it is read back (universal newline
    translation, then either line iteration or `splitlines`), and the two ways of
    writing it: appending one line per link, or replacing it with a sorted snapshot. */
module History {
  import opened Text

  /** A history file: absent, or present with its text. */
  datatype File = Missing | Present(content: string)

  /** The text of a file; an absent file reads like an empty one. */
  function Content(f: File): (c: string)
    ensures f.Missing? ==> c == []
  {
    if f.Missing? then [] else f.content
  }

  /** Reading in text mode: "\r\n" and a lone "\r" both become "\n"
      (`TranslateCrLf`, `TranslateLoneReturn`), so no carriage return is left. */
  function Translate(s: string): (r: string)
    ensures '\r' !in r
    ensures |r| <= |s|
  {
    TranslateFrom(s, 0)
  }

  /** The text read from position `i` on. */
  function TranslateFrom(s: string, i: nat): (r: string)
    requires i <= |s|
    ensures '\r' !in r
    ensures |r| <= |s| - i
    decreases |s| - i
  {
    if i == |s| then [] else [NewlineAt(s, i)] + TranslateFrom(s, i + StepAt(s, i))
  }

  /** How many characters the read step at `i` takes: 2 for "\r\n", else 1. */
  function StepAt(s: string, i: nat): (k: nat)
    requires i < |s|
    ensures 1 <= k <= |s| - i
  {
    if s[i] == '\r' && i + 1 < |s| && s[i + 1] == '\n' then 2 else 1
  }

  /** The character the read step at `i` produces. */
  function NewlineAt(s: string, i: nat): (c: char)
    requires i < |s|
    ensures c != '\r'
  {
    if s[i] == '\r' then '\n' else s[i]
  }

  /** Text without a carriage return reads back unchanged. */
  lemma TranslateWithoutReturn(s: string)
    requires '\r' !in s
    ensures Translate(s) == s
  {
    TranslateFromWithoutReturn(s, 0);
  }

  lemma {:induction false} TranslateFromWithoutReturn(s: string, i: nat)
    requires i <= |s| && forall k :: i <= k < |s| ==> s[k] != '\r'
    ensures TranslateFrom(s, i) == s[i..]
    decreases |s| - i
  {
    if i < |s| {
      TranslateFromWithoutReturn(s, i + 1);
      assert s[i..] == [s[i]] + s[i + 1..];
    }
  }

  /** Reading what follows a prefix does not depend on the prefix. */
  lemma {:induction false} TranslateShift(p: string, b: string, j: nat)
    requires j <= |b|
    ensures TranslateFrom(p + b, |p| + j) == TranslateFrom(b, j)
    decreases |b| - j
  {
    if j < |b| {
      StepAfterPrefix(p, b, j);
      TranslateShift(p, b, j + StepAt(b, j));
    }
  }

  /** The read step at a position of `b` is the same within `p + b`. */
  lemma StepAfterPrefix(p: string, b: string, j: nat)
    requires j < |b|
    ensures StepAt(p + b, |p| + j) == StepAt(b, j) && NewlineAt(p + b, |p| + j) == NewlineAt(b, j)
  {
    var pb := p + b;
    assert pb[|p| + j] == b[j];
    assert j + 1 < |b| ==> pb[|p| + j + 1] == b[j + 1];
  }

  /** The read step at a position of `a` is the same within `a + b`, unless it is a
      final "\r" of `a` that might pair with a "\n" of `b`. */
  lemma StepBeforeSuffix(a: string, b: string, i: nat)
    requires i < |a| && a[|a| - 1] != '\r'
    ensures StepAt(a + b, i) == StepAt(a, i) && NewlineAt(a + b, i) == NewlineAt(a, i)
  {
    var ab := a + b;
    assert ab[i] == a[i];
    assert i + 1 < |a| ==> ab[i + 1] == a[i + 1];
  }

  /** Translation works piecewise when the first piece does not end in "\r". */
  lemma TranslateAppend(a: string, b: string)
    requires a == [] || a[|a| - 1] != '\r'
    ensures Translate(a + b) == Translate(a) + Translate(b)
  {
    TranslateAppendFrom(a, b, 0);
  }

  /** A "\r\n" pair is read as one "\n". */
  lemma TranslateCrLf(a: string, b: string)
    requires a == [] || a[|a| - 1] != '\r'
    ensures Translate(a + "\r\n" + b) == Translate(a) + "\n" + Translate(b)
  {
    assert a + "\r\n" + b == a + ("\r\n" + b);
    TranslateAppend(a, "\r\n" + b);
    TranslateShift("\r\n", b, 0);
  }

  /** A "\r" that is not followed by "\n" is read as "\n". */
  lemma TranslateLoneReturn(a: string, b: string)
    requires a == [] || a[|a| - 1] != '\r'
    requires b == [] || b[0] != '\n'
    ensures Translate(a + "\r" + b) == Translate(a) + "\n" + Translate(b)
  {
    assert a + "\r" + b == a + ("\r" + b);
    TranslateAppend(a, "\r" + b);
    TranslateShift("\r", b, 0);
  }

  lemma {:induction false} TranslateAppendFrom(a: string, b: string, i: nat)
    requires i <= |a| && (a == [] || a[|a| - 1] != '\r')
    ensures TranslateFrom(a + b, i) == TranslateFrom(a, i) + TranslateFrom(b, 0)
    decreases |a| - i
  {
    var ab := a + b;
    if i == |a| {
      TranslateShift(a, b, 0);
    } else {
      var k := StepAt(a, i);
      StepBeforeSuffix(a, b, i);
      TranslateAppendFrom(a, b, i + k);
      AppendAssociative([NewlineAt(a, i)], TranslateFrom(a, i + k), TranslateFrom(b, 0));
    }
  }

  /** Text ending in "\n" still ends in "\n" once read. */
  lemma TranslateKeepsFinalNewline(s: string)
    requires s != [] && s[|s| - 1] == '\n'
    ensures Translate(s) != [] && Translate(s)[|Translate(s)| - 1] == '\n'
  {
    TranslateFromKeepsFinalNewline(s, 0);
  }

  lemma {:induction false} TranslateFromKeepsFinalNewline(s: string, i: nat)
    requires i < |s| && s[|s| - 1] == '\n'
    ensures var t := TranslateFrom(s, i); t != [] && t[|t| - 1] == '\n'
    decreases |s| - i
  {
    var k := StepAt(s, i);
    if i + k < |s| {
      TranslateFromKeepsFinalNewline(s, i + k);
    }
  }

  /** A file every write has left terminated: empty, or ending in "\n". */
  predicate WellTerminated(f: File) {
    Content(f) == [] || Content(f)[|Content(f)| - 1] == '\n'
  }

  /** One line per link: each link followed by "\n". */
  function Join(ls: seq<string>): (t: string)
    ensures ls != [] ==> t != [] && t[|t| - 1] == '\n'
    decreases |ls|
  {
    if ls == [] then [] else ls[0] + "\n" + Join(ls[1..])
  }

  /** `for line in f`, each line without its "\n": the pieces between newlines, where
      a final piece without a newline still counts. */
  function FileLines(t: string): (ls: seq<string>)
    ensures forall k :: 0 <= k < |ls| ==> '\n' !in ls[k]
    decreases |t|
  {
    if t == [] then []
    else
      var i := NextChar(t, '\n', 0);
      NextCharSkips(t, '\n', 0);
      assert '\n' !in t[..i] by {
        forall k | 0 <= k < i ensures t[..i][k] != '\n' {
        }
      }
      if i == |t| then [t] else [t[..i]] + FileLines(t[i + 1..])
  }

  /** Text with a final newline added unless it is empty or already has one. */
  function Terminated(t: string): (u: string)
    ensures u == [] || u[|u| - 1] == '\n'
  {
    if t == [] || t[|t| - 1] == '\n' then t else t + "\n"
  }

  /** Writing the lines back one per line restores the text, up to the final newline
      a last unterminated line gains. */
  lemma {:induction false} JoinFileLines(t: string)
    ensures Join(FileLines(t)) == Terminated(t)
    decreases |t|
  {
    if t != [] {
      var i := NextChar(t, '\n', 0);
      if i == |t| {
        assert FileLines(t) == [t];
        assert Join([t]) == t + "\n" + Join([]);
      } else {
        JoinFileLines(t[i + 1..]);
        JoinFileLinesStep(t, i);
      }
    }
  }

  /** The inductive step: a first line ended by the newline at `i`, then the rest. */
  lemma JoinFileLinesStep(t: string, i: nat)
    requires t != [] && i == NextChar(t, '\n', 0) && i < |t|
    requires Join(FileLines(t[i + 1..])) == Terminated(t[i + 1..])
    ensures Join(FileLines(t)) == Terminated(t)
  {
    JoinFirstLine(t, i);
    TerminatedFirstLine(t, i);
  }

  /** Written back, the lines of `t` are its first line, a newline, then the rest. */
  lemma JoinFirstLine(t: string, i: nat)
    requires t != [] && i == NextChar(t, '\n', 0) && i < |t|
    requires Join(FileLines(t[i + 1..])) == Terminated(t[i + 1..])
    ensures Join(FileLines(t)) == t[..i] + "\n" + Terminated(t[i + 1..])
  {
    FileLinesSplit(t, i);
    JoinCons(t[..i], FileLines(t[i + 1..]));
  }

  /** Terminating `t` only touches the part after its first newline. */
  lemma TerminatedFirstLine(t: string, i: nat)
    requires i < |t| && t[i] == '\n'
    ensures Terminated(t) == t[..i] + "\n" + Terminated(t[i + 1..])
  {
    var line, tail := t[..i], t[i + 1..];
    assert t == (line + "\n") + tail;
    TerminatedAfterNewline(line + "\n", tail);
  }

  /** The first line of `t` ends at the newline at `i`. */
  lemma FileLinesSplit(t: string, i: nat)
    requires t != [] && i == NextChar(t, '\n', 0) && i < |t|
    ensures FileLines(t) == [t[..i]] + FileLines(t[i + 1..])
  {
  }

  lemma JoinCons(line: string, rest: seq<string>)
    ensures Join([line] + rest) == line + "\n" + Join(rest)
  {
    assert ([line] + rest)[1..] == rest;
  }

  /** Terminating text that follows a newline terminates the part after it. */
  lemma TerminatedAfterNewline(p: string, u: string)
    requires p != [] && p[|p| - 1] == '\n'
    ensures Terminated(p + u) == p + Terminated(u)
  {
    if u == [] {
      assert p + u == p;
    } else {
      assert (p + u)[|p + u| - 1] == u[|u| - 1];
      AppendAssociative(p, u, "\n");
    }
  }

  /** Lines of newline-terminated text followed by more text: the lines of each. */
  lemma {:induction false} FileLinesAppend(a: string, b: string)
    requires a == [] || a[|a| - 1] == '\n'
    ensures FileLines(a + b) == FileLines(a) + FileLines(b)
    decreases |a|
  {
    if a == [] {
      assert a + b == b;
    } else {
      var i := NextChar(a, '\n', 0);
      RestTerminated(a);
      FileLinesAppend(a[i + 1..], b);
      FileLinesAppendStep(a, b);
    }
  }

  /** In newline-terminated text, the text after the first newline is terminated too. */
  lemma RestTerminated(a: string)
    requires a != [] && a[|a| - 1] == '\n'
    ensures NextChar(a, '\n', 0) < |a|
    ensures var rest := a[NextChar(a, '\n', 0) + 1..];
      rest == [] || rest[|rest| - 1] == '\n'
  {
    NextCharBefore(a, '\n', 0, |a| - 1);
    var rest := a[NextChar(a, '\n', 0) + 1..];
    assert rest != [] ==> rest[|rest| - 1] == a[|a| - 1];
  }

  /** The inductive step: if the lines after the first newline of `a` split over `b`,
      so do all lines of `a`. */
  lemma FileLinesAppendStep(a: string, b: string)
    requires a != [] && NextChar(a, '\n', 0) < |a|
    requires var rest := a[NextChar(a, '\n', 0) + 1..];
      FileLines(rest + b) == FileLines(rest) + FileLines(b)
    ensures FileLines(a + b) == FileLines(a) + FileLines(b)
  {
    var i := NextChar(a, '\n', 0);
    var line, rest := a[..i], a[i + 1..];
    FileLinesFirst(a, b);
    AppendAssociative([line], FileLines(rest), FileLines(b));
  }


  /** The first line of `a + b` lies in `a` when `a` has a newline. */
  lemma FileLinesFirst(a: string, b: string)
    requires a != [] && NextChar(a, '\n', 0) < |a|
    ensures var i := NextChar(a, '\n', 0);
      FileLines(a + b) == [a[..i]] + FileLines(a[i + 1..] + b)
  {
    var ab, i := a + b, NextChar(a, '\n', 0);
    NextCharSkips(a, '\n', 0);
    assert forall k :: 0 <= k <= i ==> ab[k] == a[k];
    NextCharAt(ab, '\n', 0, i);
    assert ab[..i] == a[..i];
    assert ab[i + 1..] == a[i + 1..] + b;
  }

  /** Lines written one per link read back as those links, if none contains "\n". */
  lemma {:induction false} FileLinesOfJoin(ls: seq<string>)
    requires forall i :: 0 <= i < |ls| ==> '\n' !in ls[i]
    ensures FileLines(Join(ls)) == ls
    decreases |ls|
  {
    if ls != [] {
      FileLinesOfJoin(ls[1..]);
      FileLinesOfJoinStep(ls[0], ls[1..]);
    }
  }

  /** One written line followed by more lines reads back as that line first. */
  lemma FileLinesOfJoinStep(l: string, ls: seq<string>)
    requires '\n' !in l
    ensures FileLines(Join([l] + ls)) == [l] + FileLines(Join(ls))
  {
    var t := Join([l] + ls);
    var n := |l|;
    assert ([l] + ls)[1..] == ls;
    assert t == l + ("\n" + Join(ls));
    assert forall k :: 0 <= k < n ==> t[k] == l[k];
    NextCharAt(t, '\n', 0, n);
    assert t[..n] == l;
    assert t[n + 1..] == Join(ls);
  }

  /** The entries of append-mode lines: each line stripped, blank ones skipped. */
  function Entries(ls: seq<string>): (s: set<string>)
    ensures forall x :: x in s ==> x != [] && Strip(x) == x
  {
    set i | 0 <= i < |ls| && Strip(ls[i]) != [] :: (StripIdempotent(ls[i]); Strip(ls[i]))
  }

  lemma EntriesAppend(a: seq<string>, b: seq<string>)
    ensures Entries(a + b) == Entries(a) + Entries(b)
  {
    var ab := a + b;
    forall x | x in Entries(ab) ensures x in Entries(a) + Entries(b) {
      var i :| 0 <= i < |ab| && Strip(ab[i]) != [] && x == Strip(ab[i]);
      if i < |a| {
        assert ab[i] == a[i];
      } else {
        assert ab[i] == b[i - |a|];
      }
    }
    forall x | x in Entries(a) + Entries(b) ensures x in Entries(ab) {
      if x in Entries(a) {
        var i :| 0 <= i < |a| && Strip(a[i]) != [] && x == Strip(a[i]);
        assert ab[i] == a[i];
      } else {
        var i :| 0 <= i < |b| && Strip(b[i]) != [] && x == Strip(b[i]);
        assert ab[|a| + i] == b[i];
      }
    }
  }

  /** main.py `load_history`: the stripped non-blank lines; a missing file gives none. */
  function LoadAppendMode(f: File): (h: set<string>)
    ensures f.Missing? ==> h == {}
    ensures forall x :: x in h ==> x != [] && Strip(x) == x
  {
    if f.Missing? then {} else Entries(FileLines(Translate(f.content)))
  }

  /** main.py `save_history`: appends one line per link, creating the file if needed.
      The earlier text is kept as it was, and the appended part reads back as the
      links when none contains a newline. */
  function SaveAppendMode(f: File, links: seq<string>): (g: File)
    ensures g.Present? && StartsWith(Content(g), Content(f))
    ensures (forall i :: 0 <= i < |links| ==> '\n' !in links[i]) ==>
      FileLines(Content(g)[|Content(f)|..]) == links
  {
    var g := Present(Content(f) + Join(links));
    assert Content(g)[..|Content(f)|] == Content(f);
    assert Content(g)[|Content(f)|..] == Join(links);
    assert (forall i :: 0 <= i < |links| ==> '\n' !in links[i]) ==> FileLines(Join(links)) == links by {
      if forall i :: 0 <= i < |links| ==> '\n' !in links[i] {
        FileLinesOfJoin(links);
      }
    }
    g
  }

  /** Appending keeps a file terminated. */
  lemma SaveAppendKeepsTerminated(f: File, links: seq<string>)
    requires WellTerminated(f)
    ensures WellTerminated(SaveAppendMode(f, links))
  {
    var c := Content(f) + Join(links);
    if links != [] {
      assert c[|c| - 1] == Join(links)[|Join(links)| - 1];
    } else {
      assert c == Content(f);
    }
  }

  /** Reading back after an append: the earlier entries plus the entries of the new lines. */
  lemma LoadAfterAppend(f: File, links: seq<string>)
    requires WellTerminated(f)
    requires forall i :: 0 <= i < |links| ==> '\n' !in links[i] && '\r' !in links[i]
    ensures LoadAppendMode(SaveAppendMode(f, links)) == LoadAppendMode(f) + Entries(links)
  {
    var prev, j := Content(f), Join(links);
    TranslateAppend(prev, j);
    JoinWithoutReturn(links);
    TranslateWithoutReturn(j);
    if prev != [] {
      TranslateKeepsFinalNewline(prev);
    }
    FileLinesAppend(Translate(prev), j);
    FileLinesOfJoin(links);
    EntriesAppend(FileLines(Translate(prev)), links);
    if f.Missing? {
      assert Entries(FileLines(Translate(prev))) == {};
    }
  }

  /** Appending to a newline-terminated file never loses an entry, whatever the links
      contain. */
  lemma AppendIsMonotone(f: File, links: seq<string>)
    requires WellTerminated(f)
    ensures LoadAppendMode(f) <= LoadAppendMode(SaveAppendMode(f, links))
  {
    var prev, j := Content(f), Join(links);
    TranslateAppend(prev, j);
    if prev != [] {
      TranslateKeepsFinalNewline(prev);
    }
    FileLinesAppend(Translate(prev), Translate(j));
    EntriesAppend(FileLines(Translate(prev)), FileLines(Translate(j)));
  }
  /** Why the file must be newline-terminated: appending "b" to a file holding "a"
      without a final newline yields the single line "ab", and the entry "a" is lost. */
  lemma AppendToUnterminatedMergesLines()
    ensures LoadAppendMode(Present("a")) == {"a"}
    ensures LoadAppendMode(SaveAppendMode(Present("a"), ["b"])) == {"ab"}
  {
    OneLineFile("a");
    assert Content(SaveAppendMode(Present("a"), ["b"])) == "ab" + "\n";
    OneLineFile("ab");
  }

  /** A file holding one stripped, non-blank line, with or without its newline. */
  lemma OneLineFile(l: string)
    requires l != [] && Strip(l) == l && '\n' !in l && '\r' !in l
    ensures LoadAppendMode(Present(l)) == {l}
    ensures LoadAppendMode(Present(l + "\n")) == {l}
  {
    TranslateWithoutReturn(l);
    assert '\r' !in l + "\n";
    TranslateWithoutReturn(l + "\n");
    FileLinesOfJoin([l]);
    assert Join([l]) == l + "\n";
    NextCharSkips(l, '\n', 0);
    assert FileLines(l) == [l];
    EntriesOfOne(l);
  }

  lemma EntriesOfOne(l: string)
    requires l != [] && Strip(l) == l
    ensures Entries([l]) == {l}
  {
    assert [l][0] == l;
  }



  /** Joined links without "\r" make text without "\r". */
  lemma {:induction false} JoinWithoutReturn(ls: seq<string>)
    requires forall i :: 0 <= i < |ls| ==> '\r' !in ls[i]
    ensures '\r' !in Join(ls)
    decreases |ls|
  {
    if ls != [] {
      JoinWithoutReturn(ls[1..]);
    }
  }

  /** The line boundaries `str.splitlines()` recognises. */
  predicate IsLineBreak(c: char) {
    || c == '\n' || c == '\r' || c == '\U{0b}' || c == '\U{0c}'
    || c == '\U{1c}' || c == '\U{1d}' || c == '\U{1e}'
    || c == '\U{85}' || c == '\U{2028}' || c == '\U{2029}'
  }

  /** Position of the first line boundary at or after `i`, or `|t|`. */
  function NextBreak(t: string, i: nat): (j: nat)
    requires i <= |t|
    ensures i <= j <= |t|
    ensures forall k :: i <= k < j ==> !IsLineBreak(t[k])
    ensures j < |t| ==> IsLineBreak(t[j])
    decreases |t| - i
  {
    if i == |t| || IsLineBreak(t[i]) then i else NextBreak(t, i + 1)
  }

  /** `t.splitlines()`: the pieces between line boundaries, "\r\n" counting as one
      boundary; a boundary at the very end opens no further piece. */
  function SplitLines(t: string): (ls: seq<string>)
    ensures t != [] ==> ls != []
    ensures forall i :: 0 <= i < |ls| ==> IsOneLine(ls[i])
    decreases |t|
  {
    if t == [] then []
    else
      var i := NextBreak(t, 0);
      if i == |t| then [t]
      else
        var skip := if t[i] == '\r' && i + 1 < |t| && t[i + 1] == '\n' then 2 else 1;
        [t[..i]] + SplitLines(t[i + skip..])
  }

  /** A line free of boundaries. */
  predicate IsOneLine(l: string) {
    forall k :: 0 <= k < |l| ==> !IsLineBreak(l[k])
  }

  /** Links written one per line read back under `splitlines` as those links, if none
      contains a line boundary. */
  lemma {:induction false} SplitLinesOfJoin(ls: seq<string>)
    requires forall i :: 0 <= i < |ls| ==> IsOneLine(ls[i])
    ensures SplitLines(Join(ls)) == ls
    decreases |ls|
  {
    if ls != [] {
      var t := Join(ls);
      var n := |ls[0]|;
      assert t == ls[0] + ("\n" + Join(ls[1..]));
      assert forall k :: 0 <= k < n ==> t[k] == ls[0][k];
      NextBreakAt(t, 0, n);
      SplitLinesAtNewline(t, n);
      assert t[..n] == ls[0];
      assert t[n + 1..] == Join(ls[1..]);
      SplitLinesOfJoin(ls[1..]);
    }
  }

  /** A first boundary that is "\n" ends the first piece. */
  lemma SplitLinesAtNewline(t: string, n: nat)
    requires n < |t| && t[n] == '\n' && NextBreak(t, 0) == n
    ensures SplitLines(t) == [t[..n]] + SplitLines(t[n + 1..])
  {
  }

  /** The first boundary from `i` on is the one at `j`, if none comes before it. */
  lemma {:induction false} NextBreakAt(t: string, i: nat, j: nat)
    requires i <= j < |t| && IsLineBreak(t[j])
    requires forall k :: i <= k < j ==> !IsLineBreak(t[k])
    ensures NextBreak(t, i) == j
    decreases j - i
  {
    if i < j {
      NextBreakAt(t, i + 1, j);
    }
  }

  /** Python's `<=` on `str`: lexicographic by code point. */
  predicate LexLessEq(a: string, b: string)
    decreases |a|
  {
    a == [] || (b != [] && (a[0] < b[0] || (a[0] == b[0] && LexLessEq(a[1..], b[1..]))))
  }

  lemma {:induction false} LexReflexive(a: string)
    ensures LexLessEq(a, a)
    decreases |a|
  {
    if a != [] {
      LexReflexive(a[1..]);
    }
  }

  lemma {:induction false} LexTotal(a: string, b: string)
    ensures LexLessEq(a, b) || LexLessEq(b, a)
    decreases |a|
  {
    if a != [] && b != [] && a[0] == b[0] {
      LexTotal(a[1..], b[1..]);
    }
  }

  lemma {:induction false} LexAntisymmetric(a: string, b: string)
    requires LexLessEq(a, b) && LexLessEq(b, a)
    ensures a == b
    decreases |a|
  {
    if a != [] {
      LexAntisymmetric(a[1..], b[1..]);
      assert a == [a[0]] + a[1..] && b == [b[0]] + b[1..];
    }
  }

  lemma {:induction false} LexTransitive(a: string, b: string, c: string)
    requires LexLessEq(a, b) && LexLessEq(b, c)
    ensures LexLessEq(a, c)
    decreases |a|
  {
    if a != [] && a[0] == b[0] && b[0] == c[0] {
      LexTransitive(a[1..], b[1..], c[1..]);
    }
  }

  /** The least element of `s` in string order. */
  predicate IsLeast(m: string, s: set<string>) {
    m in s && forall y :: y in s ==> LexLessEq(m, y)
  }

  lemma {:induction false} LeastExists(s: set<string>)
    requires s != {}
    ensures exists m :: IsLeast(m, s)
    decreases |s|
  {
    var x :| x in s;
    var rest := s - {x};
    if rest == {} {
      assert s == {x};
      LexReflexive(x);
      assert IsLeast(x, s);
    } else {
      LeastExists(rest);
      var m :| IsLeast(m, rest);
      LexTotal(x, m);
      if LexLessEq(x, m) {
        forall y | y in s ensures LexLessEq(x, y) {
          if y == x {
            LexReflexive(x);
          } else {
            LexTransitive(x, m, y);
          }
        }
        assert IsLeast(x, s);
      } else {
        assert IsLeast(m, s);
      }
    }
  }

  /** Strictly increasing in string order. */
  predicate StrictlySorted(xs: seq<string>) {
    forall i, j :: 0 <= i < j < |xs| ==> LexLessEq(xs[i], xs[j]) && xs[i] != xs[j]
  }

  /** `sorted(list(s))`: the elements of `s`, each once, in increasing order. */
  ghost function SortedList(s: set<string>): (xs: seq<string>)
    ensures |xs| == |s|
    ensures forall x :: x in xs <==> x in s
    ensures StrictlySorted(xs)
    decreases |s|
  {
    if s == {} then []
    else
      LeastExists(s);
      var m :| IsLeast(m, s);
      var rest := SortedList(s - {m});
      PrependLeast(m, s, rest);
      [m] + rest
  }

  /** Putting the least element in front of the sorted rest keeps the order. */
  lemma PrependLeast(m: string, s: set<string>, rest: seq<string>)
    requires IsLeast(m, s) && StrictlySorted(rest)
    requires forall x :: x in rest <==> x in s - {m}
    ensures StrictlySorted([m] + rest)
    ensures forall x :: x in [m] + rest <==> x in s
  {
    var xs := [m] + rest;
    forall i | 0 <= i < |rest| ensures LexLessEq(m, rest[i]) && m != rest[i] {
      assert rest[i] in s - {m};
    }
    forall i, j | 0 <= i < j < |xs| ensures LexLessEq(xs[i], xs[j]) && xs[i] != xs[j] {
      assert xs[j] == rest[j - 1];
      if i > 0 {
        assert xs[i] == rest[i - 1];
      }
    }
    assert forall x :: x in xs <==> x == m || x in rest;
  }

  /** monitor.py `load_history`: the set of `splitlines` pieces; a missing file gives
      none. Blank lines give the empty link. */
  function LoadReplaceMode(f: File): (h: set<string>)
    ensures f.Missing? ==> h == {}
  {
    if f.Missing? then {} else set l | l in SplitLines(Translate(f.content))
  }

  /** monitor.py `save_history`: the file is replaced by the links in sorted order,
      one per line; when no link contains a line boundary, the snapshot's lines are
      the links in increasing order. */
  ghost function SaveReplaceMode(links: set<string>): (g: File)
    ensures g.Present?
    ensures (forall l :: l in links ==> IsOneLine(l)) ==>
      SplitLines(Translate(Content(g))) == SortedList(links)
  {
    var xs := SortedList(links);
    assert (forall l :: l in links ==> IsOneLine(l)) ==> SplitLines(Translate(Join(xs))) == xs by {
      if forall l :: l in links ==> IsOneLine(l) {
        forall i | 0 <= i < |xs| ensures IsOneLine(xs[i]) && '\r' !in xs[i] {
          assert xs[i] in links;
          assert IsLineBreak('\r');
        }
        JoinWithoutReturn(xs);
        TranslateWithoutReturn(Join(xs));
        SplitLinesOfJoin(xs);
      }
    }
    Present(Join(xs))
  }

  /** Reading back a snapshot gives exactly the saved set: anything recorded before
      and not in it is gone. */
  lemma LoadAfterReplace(links: set<string>)
    requires forall l :: l in links ==> IsOneLine(l)
    ensures LoadReplaceMode(SaveReplaceMode(links)) == links
  {
  }
}
