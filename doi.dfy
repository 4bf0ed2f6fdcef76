/**
 * The DOI helpers of the scientific extension: the syntax check
 * `is_doi_valid` and the resolver-URL builder `doi_to_url`.
 */
module Doi {
  import PercentEncoding

  /** The resolver every DOI link points at. */
  const DOI_URL_BASE: string := "https://doi.org/"

  predicate IsDigit(c: char)
  {
    '0' <= c <= '9'
  }

  predicate AllDigits(s: string)
  {
    forall k :: 0 <= k < |s| ==> IsDigit(s[k])
  }

  // ---------------------------------------------------------------------
  // Reference: the strings that the pattern  10[.][0-9]{4}([.][0-9]+)*/.+
  // matches at position 0 (Python's re.match anchors the start only, and
  // `.` matches anything but a newline).

  /** The language of  ([.][0-9]+)* : zero or more dot-and-digits groups. */
  ghost predicate DotGroups(t: string)
    decreases |t|
  {
    t == [] ||
    (t[0] == '.' && exists j :: 2 <= j <= |t| && AllDigits(t[1..j]) && DotGroups(t[j..]))
  }

  // A prefix of `t` matches  ([.][0-9]+)*/.+ .
  ghost predicate GroupsThenSuffix(t: string)
  {
    exists i :: 0 <= i && i + 1 < |t| && DotGroups(t[..i]) && t[i] == '/' && t[i + 1] != '\n'
  }

  /** `10.`, exactly four digits, then the groups, `/` and at least one more character. */
  ghost predicate MatchesDoiPattern(s: string)
  {
    |s| >= 7 && s[..3] == "10." && AllDigits(s[3..7]) && GroupsThenSuffix(s[7..])
  }

  // ---------------------------------------------------------------------
  // The matcher.

  /** The length of the run of digits that `s` starts with. */
  function DigitRun(s: string): (n: nat)
    ensures n <= |s| && AllDigits(s[..n])
    ensures n < |s| ==> !IsDigit(s[n])
  {
    if |s| > 0 && IsDigit(s[0]) then
      var n := 1 + DigitRun(s[1..]);
      assert forall k :: 1 <= k < n ==> s[..n][k] == s[1..][..n - 1][k - 1];
      n
    else 0
  }

  // Matches  ([.][0-9]+)*/.+  at the start of `t`. Each digit group is taken
  // whole: a shorter group would leave a digit where the pattern next needs
  // `.` or `/`, so backtracking never helps.
  function MatchGroupsThenSuffix(t: string): bool
    decreases |t|
  {
    if |t| == 0 then false
    else if t[0] == '/' then |t| >= 2 && t[1] != '\n'
    else if t[0] == '.' then
      var n := DigitRun(t[1..]);
      n > 0 && MatchGroupsThenSuffix(t[1 + n..])
    else false
  }

  /** A digit run that ends before a non-digit is the whole run. */
  lemma DigitRunExact(s: string, m: nat)
    requires m < |s| && AllDigits(s[..m]) && !IsDigit(s[m])
    ensures DigitRun(s) == m
  {
  }

  /** What the matcher accepts, the pattern matches. */
  lemma {:induction false} MatchGroupsThenSuffixSound(t: string)
    requires MatchGroupsThenSuffix(t)
    ensures GroupsThenSuffix(t)
    decreases |t|
  {
    if t[0] == '/' {
      assert t[..0] == [];
      assert DotGroups(t[..0]);
    } else {
      var n := DigitRun(t[1..]);
      var u := t[1 + n..];
      MatchGroupsThenSuffixSound(u);
      var i' :| 0 <= i' && i' + 1 < |u| && DotGroups(u[..i']) && u[i'] == '/' && u[i' + 1] != '\n';
      var i := 1 + n + i';
      var j := 1 + n;
      var g := t[..i];
      assert g[1..j] == t[1..][..n];
      assert g[j..] == u[..i'];
      assert g[0] == '.' && 2 <= j <= |g| && AllDigits(g[1..j]) && DotGroups(g[j..]);
      assert DotGroups(g);
      assert t[i] == u[i'] && t[i + 1] == u[i' + 1];
    }
  }

  /** A first group `.d...d` that ends at `/` or at the next `.` is read whole by DigitRun. */
  lemma FirstGroupRun(t: string, i: nat, j: nat)
    requires 2 <= j <= i < |t| && t[i] == '/'
    requires AllDigits(t[1..j]) && (j < i ==> t[j] == '.')
    ensures DigitRun(t[1..]) == j - 1
  {
    assert t[1..][..j - 1] == t[1..j] && t[1..][j - 1] == t[j];
    DigitRunExact(t[1..], j - 1);
  }

  /** What the pattern matches, the matcher accepts. */
  lemma {:induction false} MatchGroupsThenSuffixComplete(t: string)
    requires GroupsThenSuffix(t)
    ensures MatchGroupsThenSuffix(t)
    decreases |t|
  {
    var i :| 0 <= i && i + 1 < |t| && DotGroups(t[..i]) && t[i] == '/' && t[i + 1] != '\n';
    if i > 0 {
      var g := t[..i];
      assert g[0] == '.';
      var j :| 2 <= j <= i && AllDigits(g[1..j]) && DotGroups(g[j..]);
      assert AllDigits(t[1..j]) by { assert t[1..j] == g[1..j]; }
      assert j < i ==> t[j] == '.' by { assert j < i ==> g[j..][0] == t[j]; }
      FirstGroupRun(t, i, j);
      var u := t[j..];
      assert u[..i - j] == g[j..];
      assert u[i - j] == t[i] && u[i - j + 1] == t[i + 1];
      MatchGroupsThenSuffixComplete(u);
    }
  }

  lemma MatchGroupsThenSuffixCorrect(t: string)
    ensures MatchGroupsThenSuffix(t) <==> GroupsThenSuffix(t)
  {
    if MatchGroupsThenSuffix(t) {
      MatchGroupsThenSuffixSound(t);
    }
    if GroupsThenSuffix(t) {
      MatchGroupsThenSuffixComplete(t);
    }
  }

  /** `is_doi_valid`: holds exactly for the strings the DOI pattern matches at the start. */
  function IsDoiValid(s: string): (b: bool)
    ensures b <==> MatchesDoiPattern(s)
  {
    if |s| >= 7 && s[..3] == "10." && AllDigits(s[3..7]) then
      MatchGroupsThenSuffixCorrect(s[7..]);
      MatchGroupsThenSuffix(s[7..])
    else false
  }

  /** `doi_to_url`: the resolver prefix followed by the quoted DOI. */
  function DoiToUrl(doi: string): (url: string)
    ensures |url| >= |DOI_URL_BASE| && url[..|DOI_URL_BASE|] == DOI_URL_BASE
    ensures url[|DOI_URL_BASE|..] == PercentEncoding.Quote(doi)
  {
    DOI_URL_BASE + PercentEncoding.Quote(doi)
  }

  /** A DOI spelled only with unreserved characters and `/` appears in its URL as it is. */
  lemma DoiToUrlVerbatim(doi: string)
    requires forall k :: 0 <= k < |doi| ==> PercentEncoding.IsSafe(doi[k])
    ensures DoiToUrl(doi) == DOI_URL_BASE + doi
  {
    PercentEncoding.QuoteSafeIdentity(doi);
  }

  /** Distinct DOIs have distinct URLs, so matching links by URL is matching them by DOI. */
  lemma DoiToUrlInjective(a: string, b: string)
    ensures DoiToUrl(a) == DoiToUrl(b) <==> a == b
  {
    if DoiToUrl(a) == DoiToUrl(b) {
      PercentEncoding.QuoteInjective(a, b);
    }
  }
}

/** Worked examples of the DOI helpers. */
module DoiExamples {
  import PercentEncoding
  import opened Doi

  lemma DoiHandbookIsValid()
    ensures IsDoiValid("10.1000/182")
  {
    var s := "10.1000/182";
    assert s[..3] == "10." && AllDigits(s[3..7]);
    assert s[7..] == "/182";
  }

  /**
   * The DOI is a parameter pinned by the precondition: with the literal in the
   * contract itself the solver unfolds `Quote` on it character by character.
   */
  lemma DoiHandbookUrl(doi: string)
    requires doi == "10.1000/182"
    ensures DoiToUrl(doi) == "https://doi.org/10.1000/182"
  {
    assert forall k :: 0 <= k < |doi| ==> PercentEncoding.IsSafe(doi[k]);
    DoiToUrlVerbatim(doi);
  }

  lemma SubGroupsAreValid()
    ensures IsDoiValid("10.1000.5.12/x")
  {
    var s := "10.1000.5.12/x";
    assert s[..3] == "10.";
    assert s[3..7] == "1000";
    var t := s[7..];
    assert t == ".5.12/x";
    var t2 := t[2..];
    assert t2 == ".12/x";
    assert t2[3..] == "/x";
    assert MatchGroupsThenSuffix(t2[3..]);
    DigitRunExact(t2[1..], 2);
    assert MatchGroupsThenSuffix(t2);
    DigitRunExact(t[1..], 1);
    assert MatchGroupsThenSuffix(t);
  }

  lemma MalformedAreInvalid()
    ensures !IsDoiValid("10.1/182")       // fewer than four registrant digits
    ensures !IsDoiValid("10.12345/x")     // more than four registrant digits
    ensures !IsDoiValid("not-a-doi")
    ensures !IsDoiValid("10.1000/")       // nothing after the slash
    ensures !IsDoiValid("10.1000/\nx")    // `.` does not match a newline
  {
    assert "10.1/182"[4] == '/';
    assert "10.12345/x"[7..] == "5/x";
    assert "not-a-doi"[0] == 'n';
    assert "10.1000/\nx"[7..] == "/\nx";
  }
}
