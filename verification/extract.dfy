/** Literal extraction: finding the `const books = [ ... ];` assignment in the fetched
    script with the pattern `const\s+books\s*=\s*(\[[^;]*?\]);` (DOTALL) and returning
    its bracketed group. */
module Extract {
  import opened Options
  import opened Text

  /** The word `w` occurs in `t` at position `i`. */
  predicate WordAt(t: string, i: nat, w: string)
    decreases |w|
  {
    i + |w| <= |t| && (w == [] || (t[i] == w[0] && WordAt(t, i + 1, w[1..])))
  }

  /** The captured group `[ ... ]` as the half-open range `t[start..end]`. */
  datatype Span = Span(start: nat, end: nat)

  /** The pattern anchored at position `i`. Each `\s` run in it is followed by a
      non-space character, so taking the run whole is the only way to continue; the
      lazy body then stops at the first ';' after the '[', and the match succeeds only
      if a ']' other than the opening bracket stands right before that ';'. */
  function MatchAt(t: string, i: nat): (m: Option<Span>)
    requires i <= |t|
  {
    if !WordAt(t, i, "const") then None
    else
      var j := SkipSpace(t, i + 5);
      if j == i + 5 || !WordAt(t, j, "books") then None
      else
        var k := SkipSpace(t, j + 5);
        if k == |t| || t[k] != '=' then None
        else
          var q := SkipSpace(t, k + 1);
          if q == |t| || t[q] != '[' then None
          else
            var s := NextChar(t, ';', q + 1);
            if s < |t| && s >= q + 2 && t[s - 1] == ']' then Some(Span(q, s)) else None
  }

  /** The pattern matches at position `k` of `t`. */
  predicate MatchesAt(t: string, k: nat) {
    k <= |t| && MatchAt(t, k).Some?
  }

  /** A match is a bracketed `[ ... ]` free of ';', followed by the ';' ending the statement. */
  lemma MatchShape(t: string, i: nat)
    requires i <= |t| && MatchAt(t, i).Some?
    ensures var m := MatchAt(t, i).value;
      && i < m.start < m.end < |t|
      && m.start + 2 <= m.end
      && t[m.start] == '[' && t[m.end - 1] == ']' && t[m.end] == ';'
      && forall k :: m.start <= k < m.end ==> t[k] != ';'
  {
    var m := MatchAt(t, i).value;
    NextCharSkips(t, ';', m.start + 1);
  }

  /** The start positions the search tries, as a test. */
  function Candidates(t: string): nat -> bool {
    (k: nat) => MatchesAt(t, k)
  }

  /** `match.group(1)` of the leftmost match in `t`, or None when the assignment is
      absent: a bracketed `[ ... ]` that contains no ';'. */
  function ExtractBooks(t: string): (r: Option<string>)
    ensures r.Some? ==> |r.value| >= 2 && r.value[0] == '[' && r.value[|r.value| - 1] == ']'
    ensures r.Some? ==> ';' !in r.value
  {
    match FirstWhere(Candidates(t), 0, |t|)
    case None => None
    case Some(p) => Some(Group(t, p))
  }

  /** The span the match at `p` captures, with the shape MatchShape proves. */
  function SpanAt(t: string, p: nat): (sp: Span)
    requires MatchesAt(t, p)
    ensures sp == MatchAt(t, p).value
    ensures p < sp.start < sp.end < |t| && sp.start + 2 <= sp.end
    ensures t[sp.start] == '[' && t[sp.end - 1] == ']' && t[sp.end] == ';'
    ensures forall k :: sp.start <= k < sp.end ==> t[k] != ';'
  {
    MatchShape(t, p);
    MatchAt(t, p).value
  }

  /** The group captured by the match at `p`. */
  function Group(t: string, p: nat): (g: string)
    requires MatchesAt(t, p)
    ensures |g| >= 2 && g[0] == '[' && g[|g| - 1] == ']' && ';' !in g
  {
    var sp := SpanAt(t, p);
    var g := t[sp.start..sp.end];
    assert g[0] == t[sp.start];
    assert g[|g| - 1] == t[sp.end - 1];
    assert ';' !in g by {
      forall k | 0 <= k < |g| ensures g[k] != ';' {
        assert g[k] == t[sp.start + k];
      }
    }
    g
  }

  /** ExtractBooks is `re.search`: it fails exactly when the pattern matches nowhere,
      and otherwise returns the group of the leftmost match. */
  lemma ExtractBooksIsLeftmost(t: string)
    ensures ExtractBooks(t).None? <==> forall k: nat :: k <= |t| ==> !MatchesAt(t, k)
    ensures ExtractBooks(t).Some? ==>
      exists p: nat :: MatchesAt(t, p) && ExtractBooks(t).value == Group(t, p)
        && forall k: nat :: k < p ==> !MatchesAt(t, k)
  {
    var f := Candidates(t);
    match FirstWhere(f, 0, |t|)
    case None =>
      forall k: nat | k <= |t| ensures !MatchesAt(t, k) {
        assert !f(k);
      }
    case Some(p) =>
      assert f(p);
      assert ExtractBooks(t).value == Group(t, p);
      forall k: nat | k < p ensures !MatchesAt(t, k) {
        assert !f(k);
      }
      assert MatchesAt(t, p) && ExtractBooks(t).value == Group(t, p)
        && forall k: nat :: k < p ==> !MatchesAt(t, k);
  }

  /** The extracted group starts with '[' and ends with ']', so the `.strip()` applied
      to it changes nothing. */
  lemma StripOfExtractedIsIdentity(t: string)
    requires ExtractBooks(t).Some?
    ensures Strip(ExtractBooks(t).value) == ExtractBooks(t).value
  {
    var group := ExtractBooks(t).value;
    assert !IsSpace(group[0]) && !IsSpace(group[|group| - 1]);
    StripKeepsTrimmed(group);
  }
}
