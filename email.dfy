/** The contact form's e-mail format check: the pattern
    `^[a-zA-Z0-9._-]+@[a-zA-Z0-9.-]+\.[a-zA-Z]{2,6}$`, written out by hand. It is
    the game's own ad-hoc pattern, not the address grammar of RFC 5322. */
module Email {
  import opened Wrappers
  import opened Chars

  /** The class `[a-zA-Z0-9._-]` of the part before the '@'. */
  predicate IsLocalChar(ch: char)
  {
    IsAsciiLetter(ch) || IsAsciiDigit(ch) || ch == '.' || ch == '_' || ch == '-'
  }

  /** The class `[a-zA-Z0-9.-]` of the part after the '@'. */
  predicate IsDomainChar(ch: char)
  {
    IsAsciiLetter(ch) || IsAsciiDigit(ch) || ch == '.' || ch == '-'
  }

  /** The pattern matched with the '@' at `at` and the last '.' at `dot`: a
      non-empty local run, '@', a non-empty domain run, '.', then two to six
      letters that end the string. */
  predicate MatchesAt(s: string, at: int, dot: int)
  {
    && 0 < at && at + 1 < dot && dot + 3 <= |s| <= dot + 7
    && s[at] == '@' && s[dot] == '.'
    && (forall i :: 0 <= i < at ==> IsLocalChar(s[i]))
    && (forall i :: at < i < dot ==> IsDomainChar(s[i]))
    && (forall i :: dot < i < |s| ==> IsAsciiLetter(s[i]))
  }

  /** A match has a single '@' (at `at`), at least six characters ("a@b.cd"),
      and no character outside the two classes. */
  lemma MatchShape(s: string, at: int, dot: int)
    requires MatchesAt(s, at, dot)
    ensures |s| >= 6
    ensures forall i :: 0 <= i < |s| && s[i] == '@' ==> i == at
    ensures forall i :: 0 <= i < |s| ==> s[i] == '@' || IsLocalChar(s[i])
  {
    assert forall i :: 0 <= i < |s| && i != at ==> IsLocalChar(s[i]);
  }

  /** What the regular expression accepts: some way of cutting the string fits.
      Every match has exactly one '@', at least six characters and no character
      outside the two classes, so no space. */
  ghost predicate MatchesPattern(s: string): (r: bool)
    ensures r ==> |s| >= 6 && ' ' !in s
    ensures r ==> exists at :: 0 < at < |s| && s[at] == '@' && forall i :: 0 <= i < |s| && s[i] == '@' ==> i == at
    ensures r ==> forall i :: 0 <= i < |s| ==> s[i] == '@' || IsLocalChar(s[i])
  {
    if exists at, dot :: MatchesAt(s, at, dot) then
      var at, dot :| MatchesAt(s, at, dot);
      MatchShape(s, at, dot);
      true
    else
      false
  }

  /** How many characters of the local class `s` starts with. */
  function LocalRun(s: string): (k: nat)
    ensures k <= |s|
    ensures forall i :: 0 <= i < k ==> IsLocalChar(s[i])
    ensures k < |s| ==> !IsLocalChar(s[k])
  {
    if s == [] || !IsLocalChar(s[0]) then 0 else 1 + LocalRun(s[1..])
  }

  /** The last position of `ch` in `s`. */
  function LastIndexOf(s: string, ch: char): (r: Option<nat>)
    ensures r.None? ==> forall i :: 0 <= i < |s| ==> s[i] != ch
    ensures r.Some? ==> r.value < |s| && s[r.value] == ch && forall i :: r.value < i < |s| ==> s[i] != ch
  {
    if s == [] then None
    else if s[|s| - 1] == ch then Some(|s| - 1)
    else LastIndexOf(s[..|s| - 1], ch)
  }

  /** After the '@': domain characters only, and a last '.' that has a non-empty
      run before it and two to six letters after it. */
  predicate IsValidDomain(d: string)
  {
    && (forall i :: 0 <= i < |d| ==> IsDomainChar(d[i]))
    && match LastIndexOf(d, '.')
       case None => false
       case Some(p) => 0 < p && 2 <= |d| - p - 1 <= 6 && forall i :: p < i < |d| ==> IsAsciiLetter(d[i])
  }

  /** A cut after the local run, at an '@', before a valid domain fits the
      pattern. */
  lemma CutMatches(s: string, at: nat)
    requires at == LocalRun(s) && 0 < at < |s| && s[at] == '@' && IsValidDomain(s[at + 1..])
    ensures MatchesPattern(s)
  {
    var d := s[at + 1..];
    var p := LastIndexOf(d, '.').value;
    var dot := at + 1 + p;
    assert forall i :: at < i < dot ==> s[i] == d[i - at - 1];
    assert forall i :: dot < i < |s| ==> s[i] == d[i - at - 1];
    assert MatchesAt(s, at, dot);
  }

  /** The local run stops at the first character outside the local class. */
  lemma {:induction false} LocalRunStops(s: string, k: nat)
    requires k < |s| && !IsLocalChar(s[k])
    requires forall i :: 0 <= i < k ==> IsLocalChar(s[i])
    ensures LocalRun(s) == k
  {
    if k > 0 {
      LocalRunStops(s[1..], k - 1);
    }
  }

  /** A `ch` with no `ch` after it is the last one. */
  lemma {:induction false} LastIndexOfIs(s: string, ch: char, p: nat)
    requires p < |s| && s[p] == ch
    requires forall i :: p < i < |s| ==> s[i] != ch
    ensures LastIndexOf(s, ch) == Some(p)
  {
    if p < |s| - 1 {
      LastIndexOfIs(s[..|s| - 1], ch, p);
    }
  }

  /** The pattern forces the cut: the '@' ends the local run, and the '.' before
      the final letters is the last '.' of the domain. */
  lemma PatternCut(s: string, at: int, dot: int)
    requires MatchesAt(s, at, dot)
    ensures LocalRun(s) == at && IsValidDomain(s[at + 1..])
  {
    LocalRunStops(s, at);
    var d := s[at + 1..];
    var p := dot - at - 1;
    assert forall i :: 0 <= i < |d| ==> d[i] == s[i + at + 1];
    LastIndexOfIs(d, '.', p);
  }

  /** `isValidEmail`: the local run must stop at an '@' after at least one
      character, and what follows must be a valid domain. It accepts exactly
      what the pattern matches. */
  predicate IsValidEmail(email: string): (r: bool)
    ensures r <==> MatchesPattern(email)
  {
    var at := LocalRun(email);
    var valid := 0 < at < |email| && email[at] == '@' && IsValidDomain(email[at + 1..]);
    assert valid ==> MatchesPattern(email) by {
      if valid {
        CutMatches(email, at);
      }
    }
    assert MatchesPattern(email) ==> valid by {
      if MatchesPattern(email) {
        var a, d :| MatchesAt(email, a, d);
        PatternCut(email, a, d);
      }
    }
    valid
  }

  /** The empty string, a string with a space and a string with two '@' are all
      refused. */
  lemma Refused(s: string)
    ensures !IsValidEmail("")
    ensures ' ' in s ==> !IsValidEmail(s)
    ensures (exists i, j :: 0 <= i < j < |s| && s[i] == '@' && s[j] == '@') ==> !IsValidEmail(s)
  {
    if IsValidEmail(s) {
      var at :| 0 < at < |s| && s[at] == '@' && forall i :: 0 <= i < |s| && s[i] == '@' ==> i == at;
    }
  }
}
