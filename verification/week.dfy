/** The week number of an assessment: the digits inside the first parenthesised
    number of its type text, `re.search(r'\((\d+)\)', text).group(1)`, or "0". */
module Week {
  import opened Options
  import opened Text

  /** Length of the run of decimal digits starting at position `i`. */
  function DigitRun(s: string, i: nat): (n: nat)
    requires i <= |s|
    ensures i + n <= |s|
    ensures forall k :: i <= k < i + n ==> IsDigit(s[k])
    ensures i + n == |s| || !IsDigit(s[i + n])
    decreases |s| - i
  {
    if i < |s| && IsDigit(s[i]) then 1 + DigitRun(s, i + 1) else 0
  }

  /** The pattern `\((\d+)\)` matches at position `i`. The digit run is taken whole:
      any shorter run is followed by a digit, not by ')'. */
  predicate MatchesAt(s: string, i: nat) {
    && i < |s| && s[i] == '('
    && var n := DigitRun(s, i + 1);
    && n > 0 && i + 1 + n < |s| && s[i + 1 + n] == ')'
  }

  /** The digits captured by the match at `i`. */
  function DigitsAt(s: string, i: nat): (d: string)
    requires MatchesAt(s, i)
    ensures d != [] && AllDigits(d)
    ensures s[i] == '(' && i + 1 + |d| < |s| && s[i + 1 + |d|] == ')'
    ensures d == s[i + 1..i + 1 + |d|]
  {
    var d := s[i + 1..i + 1 + DigitRun(s, i + 1)];
    assert forall k :: 0 <= k < |d| ==> d[k] == s[i + 1 + k];
    d
  }

  /** The start positions the search tries, as a test. */
  function Candidates(s: string): nat -> bool {
    (k: nat) => MatchesAt(s, k)
  }

  /** `parse_week`: the digits of the leftmost `(digits)` in the text, else "0". The
      result is never empty and consists of digits only. */
  function ParseWeek(s: string): (r: string)
    ensures r != [] && AllDigits(r)
  {
    match FirstWhere(Candidates(s), 0, |s|)
    case None => "0"
    case Some(p) => DigitsAt(s, p)
  }

  /** ParseWeek is the leftmost search: "0" exactly when no `(digits)` occurs, and
      otherwise the digits of the first one. */
  lemma ParseWeekIsLeftmost(s: string)
    ensures (forall k: nat :: !MatchesAt(s, k)) ==> ParseWeek(s) == "0"
    ensures forall p: nat ::
      MatchesAt(s, p) && (forall k: nat :: k < p ==> !MatchesAt(s, k)) ==> ParseWeek(s) == DigitsAt(s, p)
  {
    var f := Candidates(s);
    match FirstWhere(f, 0, |s|)
    case None =>
      forall p: nat ensures !MatchesAt(s, p) {
        if p <= |s| {
          assert !f(p);
        }
      }
    case Some(q) =>
      assert MatchesAt(s, q) by { assert f(q); }
      forall p: nat | MatchesAt(s, p) && (forall k: nat :: k < p ==> !MatchesAt(s, k))
        ensures ParseWeek(s) == DigitsAt(s, p)
      {
        assert q < p ==> !MatchesAt(s, q);
        assert p < q ==> !f(p);
        assert p == q;
      }
  }

  /** A type text starting with `(d)` has week `d`, whatever follows. */
  lemma {:induction false} ParseWeekOfPrefix(d: string, rest: string)
    requires d != [] && AllDigits(d)
    ensures ParseWeek("(" + d + ")" + rest) == d
  {
    var s := "(" + d + ")" + rest;
    assert forall k :: 0 <= k < |d| ==> s[1 + k] == d[k];
    DigitRunOf(s, 1, |d|);
    assert MatchesAt(s, 0);
    ParseWeekIsLeftmost(s);
    assert s[1..1 + |d|] == d;
  }

  /** A run of `n` digits ended by a non-digit has length `n`. */
  lemma {:induction false} DigitRunOf(s: string, i: nat, n: nat)
    requires i + n < |s| && !IsDigit(s[i + n])
    requires forall k :: i <= k < i + n ==> IsDigit(s[k])
    ensures DigitRun(s, i) == n
    decreases n
  {
    if n > 0 {
      DigitRunOf(s, i + 1, n - 1);
    }
  }
}
