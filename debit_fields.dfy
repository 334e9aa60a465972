// The header fields of a debit note other than the account number: the
// policy number, the issue date, the endorsement number, the insured or
// agent name and the insurance class. Each regular expression is written
// out as a scanner at one position plus a left-to-right search, with the
// backtracking order of Python's `re` made explicit where it matters.

module DebitFields {
  import opened Text

  // ---------------------------------------------------------------------
  // Policy number: POLICY\s+N[O0Q][.:;]?\s*([A-Z0-9\-]{10,})  (IGNORECASE)
  // ---------------------------------------------------------------------

  /** `O`, `0` or `Q` in either case. */
  predicate IsOhChar(c: char)
  {
    c == 'O' || c == 'o' || c == '0' || c == 'Q' || c == 'q'
  }

  /** `[A-Z0-9\-]` under IGNORECASE. */
  predicate IsPolicyChar(c: char)
  {
    IsAlnum(c) || c == '-'
  }

  function SkipPolicyChars(s: string, i: nat): (j: nat)
    requires i <= |s|
    decreases |s| - i
    ensures i <= j <= |s|
    ensures forall k :: i <= k < j ==> IsPolicyChar(s[k])
    ensures j == |s| || !IsPolicyChar(s[j])
  {
    if i < |s| && IsPolicyChar(s[i]) then SkipPolicyChars(s, i + 1) else i
  }

  /** The policy capture when the pattern matches at `p`. No choice in the
      pattern can be revisited usefully: giving back whitespace or the
      optional punctuation leaves a character the next item cannot take. */
  function PolicyAt(t: string, p: nat): (r: Option<string>)
    requires p <= |t|
    ensures r.Some? ==> |r.value| >= 10 && forall k :: 0 <= k < |r.value| ==> IsPolicyChar(r.value[k])
  {
    if !MatchAtCI(t, p, "POLICY") then None
    else
      var b := SkipSpace(t, p + 6);
      if b == p + 6 || |t| - b < 2 || !SameCI(t[b], 'N') || !IsOhChar(t[b + 1]) then None
      else
        var c := if b + 2 < |t| && t[b + 2] in ".:;" then b + 3 else b + 2;
        var d := SkipSpace(t, c);
        var e := SkipPolicyChars(t, d);
        if e - d < 10 then None else Some(t[d..e])
  }

  function FindPolicy(t: string, p: nat): (r: Option<string>)
    requires p <= |t|
    decreases |t| - p
    ensures r.Some? ==> |r.value| >= 10 && forall k :: 0 <= k < |r.value| ==> IsPolicyChar(r.value[k])
  {
    var here := PolicyAt(t, p);
    if here.Some? then here
    else if p == |t| then None
    else FindPolicy(t, p + 1)
  }

  /** `extract_policy_number`: "" or a run of at least ten letters, digits
      and hyphens (stripping the capture changes nothing). */
  function ExtractPolicyNumber(t: string): (r: string)
    ensures r == "" || (|r| >= 10 && forall k :: 0 <= k < |r| ==> IsPolicyChar(r[k]))
  {
    match FindPolicy(t, 0)
    case None => ""
    case Some(g) => StripTrimmed(g); Strip(g)
  }

  /** Text without the word POLICY, in any case, has no policy number. */
  lemma {:induction false} NoLabelNoPolicy(t: string, p: nat)
    requires p <= |t|
    requires forall q :: p <= q <= |t| ==> !MatchAtCI(t, q, "POLICY")
    decreases |t| - p
    ensures FindPolicy(t, p).None?
  {
    if p < |t| {
      NoLabelNoPolicy(t, p + 1);
    }
  }

  // ---------------------------------------------------------------------
  // Issue date: DATE[:;]?\s*(\d{1,2}\s+\w+\s+\d{4})  (IGNORECASE)
  // ---------------------------------------------------------------------

  function SkipWord(s: string, i: nat): (j: nat)
    requires i <= |s|
    decreases |s| - i
    ensures i <= j <= |s|
    ensures forall k :: i <= k < j ==> IsWordChar(s[k])
    ensures j == |s| || !IsWordChar(s[j])
  {
    if i < |s| && IsWordChar(s[i]) then SkipWord(s, i + 1) else i
  }

  /** The shape of the captured date: one or two digits, whitespace, a word,
      whitespace, four digits. */
  predicate IsDateCapture(g: string)
  {
    |g| >= 8 && IsDigit(g[0]) && AllDigits(g[|g| - 4..])
  }

  /** The date capture when the pattern matches at `p`. The day must be a
      run of exactly one or two digits and the word a whole run of word
      characters followed by whitespace: every shorter choice leaves a digit
      or a word character where whitespace is required. */
  function IssueDateAt(t: string, p: nat): (r: Option<string>)
    requires p <= |t|
    ensures r.Some? ==> IsDateCapture(r.value)
  {
    if !MatchAtCI(t, p, "DATE") then None
    else
      var a := if p + 4 < |t| && t[p + 4] in ":;" then p + 5 else p + 4;
      var s := SkipSpace(t, a);
      var d := SkipDigits(t, s);
      var w0 := SkipSpace(t, d);
      var w := SkipWord(t, w0);
      var y := SkipSpace(t, w);
      if d == s || d - s > 2 || w0 == d || w == w0 || y == w || |t| - y < 4 || !AllDigits(t[y..y + 4]) then None
      else
        assert t[s..y + 4][y + 4 - s - 4..] == t[y..y + 4];
        Some(t[s..y + 4])
  }

  function FindIssueDate(t: string, p: nat): (r: Option<string>)
    requires p <= |t|
    decreases |t| - p
    ensures r.Some? ==> IsDateCapture(r.value)
  {
    var here := IssueDateAt(t, p);
    if here.Some? then here
    else if p == |t| then None
    else FindIssueDate(t, p + 1)
  }

  /** The debit note's `issue_date`: the raw date text or "". */
  function ExtractDebitIssueDate(t: string): (r: string)
    ensures r == "" || IsDateCapture(r)
  {
    match FindIssueDate(t, 0)
    case None => ""
    case Some(g) => StripTrimmed(g); Strip(g)
  }

  /** Text without the word DATE, in any case, has no issue date. */
  lemma {:induction false} NoLabelNoIssueDate(t: string, p: nat)
    requires p <= |t|
    requires forall q :: p <= q <= |t| ==> !MatchAtCI(t, q, "DATE")
    decreases |t| - p
    ensures FindIssueDate(t, p).None?
  {
    if p < |t| {
      NoLabelNoIssueDate(t, p + 1);
    }
  }

  // ---------------------------------------------------------------------
  // Endorsement number:
  //   ENO+R[S5]?\s*(?:N[O0Q])?[.:;]?\s*([A-Z0-9\-_ ]+)  (IGNORECASE)
  // ---------------------------------------------------------------------

  /** `[A-Z0-9\-_ ]` under IGNORECASE. */
  predicate IsEndorsementChar(c: char)
  {
    IsAlnum(c) || c == '-' || c == '_' || c == ' '
  }

  function SkipEndorsementChars(s: string, i: nat): (j: nat)
    requires i <= |s|
    decreases |s| - i
    ensures i <= j <= |s|
    ensures forall k :: i <= k < j ==> IsEndorsementChar(s[k])
    ensures j == |s| || !IsEndorsementChar(s[j])
  {
    if i < |s| && IsEndorsementChar(s[i]) then SkipEndorsementChars(s, i + 1) else i
  }

  /** The run of `O` or `o` starting at `i`. */
  function SkipOhs(s: string, i: nat): (j: nat)
    requires i <= |s|
    decreases |s| - i
    ensures i <= j <= |s|
  {
    if i < |s| && SameCI(s[i], 'O') then SkipOhs(s, i + 1) else i
  }

  /** The group start chosen by the last `\s*` as it gives back whitespace
      one character at a time, from `hi` down to `lo`: the group matches as
      soon as its first character can be taken. */
  function GroupStartDown(t: string, hi: nat, lo: nat): (r: Option<nat>)
    requires lo <= hi <= |t|
    decreases hi - lo
    ensures r.Some? ==> lo <= r.value <= hi && r.value < |t| && IsEndorsementChar(t[r.value])
  {
    if hi < |t| && IsEndorsementChar(t[hi]) then Some(hi)
    else if hi == lo then None
    else GroupStartDown(t, hi - 1, lo)
  }

  /** `[.:;]?\s*(...)` from `n`: with the punctuation taken first, then
      without it. */
  function AfterNumberLabel(t: string, n: nat): (r: Option<nat>)
    requires n <= |t|
    ensures r.Some? ==> n <= r.value < |t| && IsEndorsementChar(t[r.value])
  {
    var taken := if n < |t| && t[n] in ".:;" then GroupStartDown(t, SkipSpace(t, n + 1), n + 1) else None;
    if taken.Some? then taken else GroupStartDown(t, SkipSpace(t, n), n)
  }

  /** `N[O0Q]` at `w`, ignoring case. */
  predicate NumberLabelAt(t: string, w: nat)
  {
    w + 2 <= |t| && SameCI(t[w], 'N') && IsOhChar(t[w + 1])
  }

  /** `(?:N[O0Q])?[.:;]?\s*(...)` from `w`: with the label taken first. */
  function AfterFirstSpace(t: string, w: nat): (r: Option<nat>)
    requires w <= |t|
    ensures r.Some? ==> w <= r.value < |t| && IsEndorsementChar(t[r.value])
  {
    var taken := if NumberLabelAt(t, w) then AfterNumberLabel(t, w + 2) else None;
    if taken.Some? then taken else AfterNumberLabel(t, w)
  }

  /** The first `\s*` giving back whitespace from `hi` down to `lo`. */
  function FirstSpaceDown(t: string, hi: nat, lo: nat): (r: Option<nat>)
    requires lo <= hi <= |t|
    decreases hi - lo
    ensures r.Some? ==> lo <= r.value < |t| && IsEndorsementChar(t[r.value])
  {
    var here := AfterFirstSpace(t, hi);
    if here.Some? then here
    else if hi == lo then None
    else FirstSpaceDown(t, hi - 1, lo)
  }

  /** `[S5]?\s*...` from `a`, just after the `R`: with the suffix taken
      first. */
  function AfterR(t: string, a: nat): (r: Option<nat>)
    requires a <= |t|
    ensures r.Some? ==> a <= r.value < |t| && IsEndorsementChar(t[r.value])
  {
    var taken := if a < |t| && t[a] in "Ss5" then FirstSpaceDown(t, SkipSpace(t, a + 1), a + 1) else None;
    if taken.Some? then taken else FirstSpaceDown(t, SkipSpace(t, a), a)
  }

  /** The endorsement capture when the pattern matches at `p`. Giving back
      an `O` of `O+` leaves an `O` where `R` is required, so only the
      whole run is tried; the group is greedy with nothing after it, so it
      is the whole run of group characters from its start. */
  function EndorsementAt(t: string, p: nat): (r: Option<string>)
    requires p <= |t|
    ensures r.Some? ==> r.value != [] && forall k :: 0 <= k < |r.value| ==> IsEndorsementChar(r.value[k])
  {
    if !MatchAtCI(t, p, "EN") then None
    else
      var o := SkipOhs(t, p + 2);
      if o == p + 2 || o == |t| || !SameCI(t[o], 'R') then None
      else match AfterR(t, o + 1)
        case None => None
        case Some(g) => Some(t[g..SkipEndorsementChars(t, g)])
  }

  function FindEndorsement(t: string, p: nat): (r: Option<string>)
    requires p <= |t|
    decreases |t| - p
    ensures r.Some? ==> r.value != [] && forall k :: 0 <= k < |r.value| ==> IsEndorsementChar(r.value[k])
  {
    var here := EndorsementAt(t, p);
    if here.Some? then here
    else if p == |t| then None
    else FindEndorsement(t, p + 1)
  }

  /** Text without "EN", in any case, has no endorsement capture. */
  lemma {:induction false} NoLabelNoEndorsement(t: string, p: nat)
    requires p <= |t|
    requires forall q :: p <= q <= |t| ==> !MatchAtCI(t, q, "EN")
    decreases |t| - p
    ensures FindEndorsement(t, p).None?
  {
    if p < |t| {
      NoLabelNoEndorsement(t, p + 1);
    }
  }

  // ---------------------------------------------------------------------
  // clean_endorsement_number
  // ---------------------------------------------------------------------

  /** `W\b` at `q`, where `W` ends with a word character. */
  predicate KeywordEndsAt(u: string, q: nat, w: string)
  {
    MatchAt(u, q, w) && (q + |w| == |u| || !IsWordChar(u[q + |w|]))
  }

  /** `(CLASS|POLICY|ACC)\b` at `q` (no IGNORECASE; the text is upper-cased). */
  predicate KeywordAt(u: string, q: nat)
  {
    KeywordEndsAt(u, q, "CLASS") || KeywordEndsAt(u, q, "POLICY") || KeywordEndsAt(u, q, "ACC")
  }

  /** `re.split(r"(CLASS|POLICY|ACC)\b", u)[0]`: the text before the first
      keyword, searched from `q`. */
  function BeforeKeyword(u: string, q: nat): (r: string)
    requires q <= |u|
    decreases |u| - q
    ensures q <= |r| <= |u| && r == u[..|r|]
    ensures forall k :: q <= k < |r| ==> !KeywordAt(u, k)
    ensures |r| < |u| ==> KeywordAt(u, |r|)
  {
    if KeywordAt(u, q) then u[..q]
    else if q == |u| then u
    else BeforeKeyword(u, q + 1)
  }

  /** `re.sub(r"[\s_]+", "", s)`: every whitespace character and underscore
      removed. */
  function RemoveBlanks(s: string): (r: string)
    decreases |s|
    ensures |r| <= |s|
    ensures forall k :: 0 <= k < |r| ==> !IsSpace(r[k]) && r[k] != '_'
    ensures forall c :: c in r ==> c in s
  {
    if s == [] then []
    else if IsSpace(s[0]) || s[0] == '_' then RemoveBlanks(s[1..])
    else [s[0]] + RemoveBlanks(s[1..])
  }

  /** `re.sub(r"-+", "-", s)`: every run of hyphens becomes one hyphen. */
  function CollapseHyphens(s: string): (r: string)
    decreases |s|
    ensures |r| <= |s|
    ensures |s| > 0 ==> |r| > 0 && r[0] == s[0]
    ensures forall c :: c in r ==> c in s
    ensures NoDoubleHyphen(r)
  {
    if |s| <= 1 then s
    else if s[0] == '-' && s[1] == '-' then CollapseHyphens(s[1..])
    else [s[0]] + CollapseHyphens(s[1..])
  }

  /** The three month fixes, applied in order. */
  function MonthOcrFixes(s: string): string
  {
    Replace(Replace(Replace(s, "TNOV", "NOV"), "TNO", "NOV"), "RNOV", "NOV")
  }

  const MonthNames: seq<string> :=
    ["JAN", "FEB", "MAR", "APR", "MAY", "JUN", "JUL", "AUG", "SEP", "OCT", "NOV", "DEC"]

  /** No two hyphens in a row. */
  predicate NoDoubleHyphen(x: string)
  {
    forall k :: 0 <= k < |x| - 1 ==> !(x[k] == '-' && x[k + 1] == '-')
  }

  /** Text with no two hyphens in a row is unchanged by replacing "--". */
  lemma DoubleHyphenFixNoop(x: string)
    requires NoDoubleHyphen(x)
    ensures Replace(x, "--", "-") == x
  {
    forall i: nat | i <= |x| ensures !MatchAt(x, i, "--") {
      if i + 2 <= |x| {
        assert x[i..i + 2][0] == x[i] && x[i..i + 2][1] == x[i + 1];
      }
    }
    ReplaceAbsent(x, "--", "-");
  }

  /** Every month name is three upper-case letters. */
  lemma MonthLetters(m: string)
    requires m in MonthNames
    ensures |m| == 3 && forall k :: 0 <= k < 3 ==> IsUpperLetter(m[k])
  {
  }

  /** The dashed form of a month followed by text without hyphens has no
      double hyphen, so the final replace leaves it unchanged. */
  lemma DashedMonth(s: string, e: nat, x: string)
    requires 4 <= e <= |s| && s[..3] in MonthNames
    requires forall i :: 3 <= i < e ==> s[i] != '-'
    requires x == s[..3] + "-" + s[3..e]
    ensures NoDoubleHyphen(x) && Replace(x, "--", "-") == x && x[4..] == s[3..e]
  {
    MonthLetters(s[..3]);
    assert NoDoubleHyphen(x) by {
      forall i | 0 <= i < |x| - 1 ensures !(x[i] == '-' && x[i + 1] == '-') {
        if i >= 3 {
          assert x[i + 1] == s[i];
        } else {
          assert x[i] == s[..3][i];
        }
      }
    }
    DoubleHyphenFixNoop(x);
  }

  /** `re.match(r"(JAN|...|DEC)([A-Z]?)(\d{1,4})", s)` and the dashed form
      built from it. The optional letter is taken only when a digit follows
      it: otherwise the letter itself would have to be the first digit. The
      final `.replace("--", "-")` never fires, so the result is the month,
      a dash, and the matched text after the month. */
  function MonthDash(s: string): (r: Option<string>)
    ensures r.Some? ==> 5 <= |r.value| <= 9 && |r.value| - 1 <= |s|
    ensures r.Some? ==> r.value[..3] == s[..3] && s[..3] in MonthNames && r.value[3] == '-'
    ensures r.Some? ==> r.value[4..] == s[3..|r.value| - 1] && IsDigit(r.value[|r.value| - 1])
    ensures r.Some? ==> NoDoubleHyphen(r.value)
  {
    if |s| < 4 || s[..3] !in MonthNames then None
    else
      var k := if IsUpperLetter(s[3]) then 4 else 3;
      if k == |s| || !IsDigit(s[k]) then None
      else
        var d := SkipDigits(s, k);
        var e := if d - k > 4 then k + 4 else d;
        var x := s[..3] + "-" + s[3..e];
        DashedMonth(s, e, x);
        Some(Replace(x, "--", "-"))
  }

  /** The month step applies exactly when the text opens with a month name
      followed by a digit, or by a capital letter and a digit. */
  lemma MonthDashDefined(s: string)
    ensures MonthDash(s).Some? <==>
      |s| >= 4 && s[..3] in MonthNames
      && (IsDigit(s[3]) || (|s| >= 5 && IsUpperLetter(s[3]) && IsDigit(s[4])))
  {
  }

  /** When it applies, the result is the month, a hyphen, the optional
      letter and the longest run of digits after it, cut at four; the rest
      of the text is dropped. */
  lemma MonthDashValue(s: string)
    requires MonthDash(s).Some?
    ensures
      var r := MonthDash(s).value;
      var k := if IsUpperLetter(s[3]) then 4 else 3;
      var e := |r| - 1;
      && k < e <= k + 4 && e <= |s| && (forall i :: k <= i < e ==> IsDigit(s[i]))
      && (e == k + 4 || e == |s| || !IsDigit(s[e]))
      && r == s[..3] + "-" + s[3..e]
  {
    var k := if IsUpperLetter(s[3]) then 4 else 3;
    var d := SkipDigits(s, k);
    var e := if d - k > 4 then k + 4 else d;
    var x := s[..3] + "-" + s[3..e];
    DashedMonth(s, e, x);
    assert MonthDash(s) == Some(x);
  }

  /** The text `clean_endorsement_number` works on before the month check:
      upper-cased, cut at the first keyword, blanks removed, hyphen runs
      collapsed and the month fixes applied. */
  function EndorsementText(raw: string): string
  {
    MonthOcrFixes(CollapseHyphens(RemoveBlanks(BeforeKeyword(Upper(raw), 0))))
  }

  /** `clean_endorsement_number`. */
  function CleanEndorsement(raw: string): (r: string)
  {
    if raw == [] then ""
    else
      var x := EndorsementText(raw);
      match MonthDash(x)
      case Some(m) => m
      case None => x
  }

  /** A character that can survive `clean_endorsement_number`. */
  predicate IsCleanEndorsementChar(c: char)
  {
    !IsLowerLetter(c) && !IsSpace(c) && c != '_'
  }

  const CleanChars: iset<char> := iset c: char | IsCleanEndorsementChar(c)

  /** The month fixes bring in only the clean letters N, O and V. */
  lemma MonthOcrFixesChars(c: string)
    requires forall k :: 0 <= k < |c| ==> c[k] in CleanChars
    ensures forall k :: 0 <= k < |MonthOcrFixes(c)| ==> MonthOcrFixes(c)[k] in CleanChars
  {
    assert forall k :: 0 <= k < 3 ==> "NOV"[k] in CleanChars;
    ReplaceKeepsChars(c, "TNOV", "NOV", CleanChars);
    var c1 := Replace(c, "TNOV", "NOV");
    ReplaceKeepsChars(c1, "TNO", "NOV", CleanChars);
    var c2 := Replace(c1, "TNO", "NOV");
    ReplaceKeepsChars(c2, "RNOV", "NOV", CleanChars);
  }

  lemma EndorsementTextChars(raw: string)
    ensures forall k :: 0 <= k < |EndorsementText(raw)| ==> EndorsementText(raw)[k] in CleanChars
  {
    var b := BeforeKeyword(Upper(raw), 0);
    var c := CollapseHyphens(RemoveBlanks(b));
    forall k | 0 <= k < |c| ensures c[k] in CleanChars {
      assert c[k] in c;
      assert c[k] in b;
    }
    MonthOcrFixesChars(c);
  }

  /** The dashed month form adds only a hyphen. */
  lemma MonthDashChars(x: string)
    requires forall k :: 0 <= k < |x| ==> x[k] in CleanChars
    ensures MonthDash(x).Some? ==> forall k :: 0 <= k < |MonthDash(x).value| ==> MonthDash(x).value[k] in CleanChars
  {
    if MonthDash(x).Some? {
      var m := MonthDash(x).value;
      forall k | 0 <= k < |m| ensures m[k] in CleanChars {
        if k < 3 {
          assert m[k] == m[..3][k] == x[k];
        } else if k > 3 {
          assert m[k] == m[4..][k - 4] == x[k - 1];
        }
      }
    }
  }

  /** The cleaned number has no lower-case letter, no whitespace and no
      underscore, whichever branch produced it. */
  lemma CleanEndorsementChars(raw: string)
    ensures forall k :: 0 <= k < |CleanEndorsement(raw)| ==> IsCleanEndorsementChar(CleanEndorsement(raw)[k])
  {
    if raw != [] {
      EndorsementTextChars(raw);
      MonthDashChars(EndorsementText(raw));
    }
  }

  /** A replacement text that is not empty and holds no hyphen cannot
      create two hyphens in a row. */
  lemma {:induction false} ReplaceNoDoubleHyphen(s: string, pat: string, rep: string)
    requires NoDoubleHyphen(s)
    requires |rep| > 0 && forall k :: 0 <= k < |rep| ==> rep[k] != '-'
    decreases |s|
    ensures NoDoubleHyphen(Replace(s, pat, rep))
    ensures |s| > 0 ==> |Replace(s, pat, rep)| > 0
    ensures |s| > 0 ==> Replace(s, pat, rep)[0] == s[0] || Replace(s, pat, rep)[0] == rep[0]
  {
    if pat != [] && |s| >= |pat| {
      if s[..|pat|] == pat {
        var rest := s[|pat|..];
        assert NoDoubleHyphen(rest) by {
          forall k | 0 <= k < |rest| - 1 ensures !(rest[k] == '-' && rest[k + 1] == '-') {
            assert rest[k] == s[k + |pat|] && rest[k + 1] == s[k + 1 + |pat|];
          }
        }
        ReplaceNoDoubleHyphen(rest, pat, rep);
        var t := Replace(rest, pat, rep);
        var r := rep + t;
        forall k | 0 <= k < |r| - 1 ensures !(r[k] == '-' && r[k + 1] == '-') {
          if k < |rep| {
            assert r[k] == rep[k];
          } else {
            assert r[k] == t[k - |rep|] && r[k + 1] == t[k + 1 - |rep|];
          }
        }
      } else {
        var rest := s[1..];
        assert NoDoubleHyphen(rest) by {
          forall k | 0 <= k < |rest| - 1 ensures !(rest[k] == '-' && rest[k + 1] == '-') {
            assert rest[k] == s[k + 1] && rest[k + 1] == s[k + 2];
          }
        }
        ReplaceNoDoubleHyphen(rest, pat, rep);
        var t := Replace(rest, pat, rep);
        var r := [s[0]] + t;
        forall k | 0 <= k < |r| - 1 ensures !(r[k] == '-' && r[k + 1] == '-') {
          if k == 0 {
            assert r[1] == t[0];
            assert rest[0] == s[1];
          } else {
            assert r[k] == t[k - 1] && r[k + 1] == t[k];
          }
        }
      }
    }
  }

  /** The month fixes keep the text free of double hyphens. */
  lemma MonthOcrFixesNoDoubleHyphen(c: string, rep: string)
    requires rep == "NOV" && NoDoubleHyphen(c)
    ensures NoDoubleHyphen(MonthOcrFixes(c))
  {
    assert forall k :: 0 <= k < |rep| ==> rep[k] != '-';
    ReplaceNoDoubleHyphen(c, "TNOV", rep);
    var c1 := Replace(c, "TNOV", rep);
    ReplaceNoDoubleHyphen(c1, "TNO", rep);
    var c2 := Replace(c1, "TNO", rep);
    ReplaceNoDoubleHyphen(c2, "RNOV", rep);
  }

  /** The cleaned number never holds two hyphens in a row. */
  lemma CleanEndorsementNoDoubleHyphen(raw: string)
    ensures NoDoubleHyphen(CleanEndorsement(raw))
  {
    if raw != [] {
      MonthOcrFixesNoDoubleHyphen(CollapseHyphens(RemoveBlanks(BeforeKeyword(Upper(raw), 0))), "NOV");
    }
  }

  /** Upper-case letters other than C, P and A pass the first three
      cleaning steps unchanged. */
  lemma PlainLettersKept(u: string)
    requires forall k :: 0 <= k < |u| ==> IsUpperLetter(u[k]) && u[k] != 'C' && u[k] != 'P' && u[k] != 'A'
    ensures CollapseHyphens(RemoveBlanks(BeforeKeyword(Upper(u), 0))) == u
  {
    assert Upper(u) == u;
    forall q | 0 <= q < |u| ensures !KeywordAt(u, q) {
      assert u[q..][0] == u[q];
    }
    assert BeforeKeyword(u, 0) == u;
    NoBlanksKept(u);
    NoHyphensKept(u);
  }

  lemma {:induction false} NoBlanksKept(u: string)
    requires forall k :: 0 <= k < |u| ==> !IsSpace(u[k]) && u[k] != '_'
    ensures RemoveBlanks(u) == u
    decreases |u|
  {
    if u != [] {
      NoBlanksKept(u[1..]);
    }
  }

  lemma {:induction false} NoHyphensKept(u: string)
    requires forall k :: 0 <= k < |u| ==> u[k] != '-'
    ensures CollapseHyphens(u) == u
    decreases |u|
  {
    if |u| > 1 {
      NoHyphensKept(u[1..]);
    }
  }

  lemma NoMonthStartsWithT()
    ensures forall m :: m in MonthNames ==> |m| == 3 && m[0] != 'T'
  {
  }

  /** The month fixes turn "TTNO" into "TNOV". */
  lemma MonthFixesTTNO(s: string)
    requires s == "TTNO"
    ensures MonthOcrFixes(s) == "TNOV"
  {
    ReplaceMissingChar(s, "TNOV", "NOV", 3);
    assert s[..3] != "TNO";
    assert s[1..][..3] == "TNO";
    assert Replace(s[1..][3..], "TNO", "NOV") == [];
    var t := "TNOV";
    assert Replace(s, "TNO", "NOV") == t;
    ReplaceMissingChar(t, "RNOV", "NOV", 0);
  }

  /** The month fixes turn "TNOV" into "NOV". */
  lemma MonthFixesTNOV(s: string)
    requires s == "TNOV"
    ensures MonthOcrFixes(s) == "NOV"
  {
    assert s[..4] == "TNOV";
    assert Replace(s, "TNOV", "NOV") == "NOV";
    ReplaceMissingChar("NOV", "TNO", "NOV", 0);
  }

  /** No month name starts with T, so "TNOV" gets no dash. */
  lemma TNOVNoMonth(x: string)
    requires |x| >= 1 && x[0] == 'T'
    ensures MonthDash(x).None?
  {
    NoMonthStartsWithT();
    if |x| >= 4 {
      assert x[..3][0] == 'T';
    }
  }

  lemma CleanTTNO(raw: string)
    requires raw == "TTNO"
    ensures CleanEndorsement(raw) == "TNOV"
  {
    PlainLettersKept(raw);
    MonthFixesTTNO(raw);
    TNOVNoMonth("TNOV");
  }

  lemma CleanTNOV(raw: string)
    requires raw == "TNOV"
    ensures CleanEndorsement(raw) == "NOV"
  {
    PlainLettersKept(raw);
    MonthFixesTNOV(raw);
  }

  /** `clean_endorsement_number` is not idempotent: "TTNO" cleans to "TNOV"
      (the second fix turns "TNO" into "NOV"), and "TNOV" cleans to "NOV". */
  lemma CleanEndorsementTwice(raw: string)
    requires raw == "TTNO"
    ensures CleanEndorsement(CleanEndorsement(raw)) != CleanEndorsement(raw)
  {
    CleanTTNO(raw);
    CleanTNOV("TNOV");
  }

  /** `extract_endorsement_number_dn`: the first capture, stripped, then
      cleaned; "" when there is none. */
  function ExtractEndorsementNumber(t: string): (r: string)
    ensures forall k :: 0 <= k < |r| ==> IsCleanEndorsementChar(r[k])
  {
    var raw := match FindEndorsement(t, 0) case Some(g) => Strip(g) case None => "";
    CleanEndorsementChars(raw);
    CleanEndorsement(raw)
  }

  // ---------------------------------------------------------------------
  // Insured or agent: (?:INSURED|CUSTOMER)\s+([A-Z ]{6,40})  (case-sensitive)
  // ---------------------------------------------------------------------

  predicate IsNameChar(c: char)
  {
    IsUpperLetter(c) || c == ' '
  }

  function SkipNameChars(s: string, i: nat): (j: nat)
    requires i <= |s|
    decreases |s| - i
    ensures i <= j <= |s|
    ensures forall k :: i <= k < j ==> IsNameChar(s[k])
    ensures j == |s| || !IsNameChar(s[j])
  {
    if i < |s| && IsNameChar(s[i]) then SkipNameChars(s, i + 1) else i
  }

  /** The group as `\s+` gives back whitespace from `hi` down to `lo`: the
      first start with at least six name characters after it wins, and the
      group takes at most forty. */
  function NameGroupDown(t: string, hi: nat, lo: nat): (r: Option<(nat, nat)>)
    requires lo <= hi <= |t|
    decreases hi - lo
    ensures r.Some? ==> lo <= r.value.0 && r.value.0 + 6 <= r.value.1 <= r.value.0 + 40 && r.value.1 <= |t|
    ensures r.Some? ==> forall k :: r.value.0 <= k < r.value.1 ==> IsNameChar(t[k])
  {
    var e := SkipNameChars(t, hi);
    if e - hi >= 6 then Some((hi, if e - hi > 40 then hi + 40 else e))
    else if hi == lo then None
    else NameGroupDown(t, hi - 1, lo)
  }

  /** The name capture when the pattern matches at `p`. */
  function InsuredAt(t: string, p: nat): (r: Option<string>)
    requires p <= |t|
    ensures r.Some? ==> 6 <= |r.value| <= 40 && forall k :: 0 <= k < |r.value| ==> IsNameChar(r.value[k])
  {
    var a := if MatchAt(t, p, "INSURED") then p + 7 else if MatchAt(t, p, "CUSTOMER") then p + 8 else p;
    if a == p then None
    else
      var w := SkipSpace(t, a);
      if w == a then None
      else match NameGroupDown(t, w, a + 1)
        case None => None
        case Some((g, e)) => Some(t[g..e])
  }

  function FindInsured(t: string, p: nat): (r: Option<string>)
    requires p <= |t|
    decreases |t| - p
    ensures r.Some? ==> 6 <= |r.value| <= 40 && forall k :: 0 <= k < |r.value| ==> IsNameChar(r.value[k])
  {
    var here := InsuredAt(t, p);
    if here.Some? then here
    else if p == |t| then None
    else FindInsured(t, p + 1)
  }

  /** `\bW\b` at `q`, case-sensitive, for a word `W` of letters. */
  predicate WordAt(n: string, q: nat, w: string)
  {
    MatchAt(n, q, w) && (q == 0 || !IsWordChar(n[q - 1])) && (q + |w| == |n| || !IsWordChar(n[q + |w|]))
  }

  /** `\bFLAT\b|\bROOM\b|\bFLOOR\b` at `q`. */
  predicate StopWordAt(n: string, q: nat)
  {
    WordAt(n, q, "FLAT") || WordAt(n, q, "ROOM") || WordAt(n, q, "FLOOR")
  }

  /** `re.split(...)[0]`: the name before the first stop word. */
  function BeforeStopWord(n: string, q: nat): (r: string)
    requires q <= |n|
    decreases |n| - q
    ensures q <= |r| <= |n| && r == n[..|r|]
    ensures forall k :: q <= k < |r| ==> !StopWordAt(n, k)
    ensures |r| < |n| ==> StopWordAt(n, |r|)
  {
    if StopWordAt(n, q) then n[..q]
    else if q == |n| then n
    else BeforeStopWord(n, q + 1)
  }

  /** `extract_insured_or_agent`: "" or at most forty upper-case letters and
      spaces, with no space at either end. */
  function ExtractInsured(t: string): (r: string)
    ensures |r| <= 40 && forall k :: 0 <= k < |r| ==> IsNameChar(r[k])
    ensures r == [] || (r[0] != ' ' && r[|r| - 1] != ' ')
  {
    match FindInsured(t, 0)
    case None => ""
    case Some(g) =>
      var n := Strip(g);
      var c := BeforeStopWord(n, 0);
      var r := Strip(c);
      assert forall k :: 0 <= k < |r| ==> r[k] in g by {
        forall k | 0 <= k < |r| ensures r[k] in g {
          assert r[k] in c && c[..] <= n;
          assert r[k] in n;
        }
      }
      r
  }

  /** A whole word inside a part of `n` that is bounded by non-word
      characters is a whole word of `n`. */
  lemma WordShift(n: string, r: string, i: nat, q: nat, w: string)
    requires i + |r| <= |n| && r == n[i..i + |r|]
    requires i == 0 || !IsWordChar(n[i - 1])
    requires i + |r| == |n| || !IsWordChar(n[i + |r|])
    ensures WordAt(r, q, w) ==> WordAt(n, i + q, w)
  {
    if q + |w| <= |r| {
      var a := r[q..q + |w|];
      var b := n[i + q..i + q + |w|];
      forall k | 0 <= k < |a| ensures a[k] == b[k] {
        assert a[k] == r[q + k] == n[i + q + k];
      }
      if q > 0 {
        assert r[q - 1] == n[i..i + |r|][q - 1] == n[i + q - 1];
      }
      if q + |w| < |r| {
        assert r[q + |w|] == n[i..i + |r|][q + |w|] == n[i + q + |w|];
      }
    }
  }

  /** The cut ends just after a non-word character, or at an end of the
      name. */
  lemma CutEnd(n: string)
    ensures var c := BeforeStopWord(n, 0);
      c == [] || |c| == |n| || !IsWordChar(n[|c| - 1])
  {
  }

  /** Where the stripped cut `r` lies in the name: at `i`, inside the cut
      `c`, with only whitespace around it there. */
  lemma CutSlice(n: string, c: string, r: string) returns (i: nat)
    requires c == BeforeStopWord(n, 0) && r == Strip(c)
    ensures i + |r| <= |c| && r == n[i..i + |r|]
    ensures forall k :: 0 <= k < i ==> IsSpace(n[k])
    ensures forall k :: i + |r| <= k < |c| ==> IsSpace(n[k])
  {
    i := StripSlice(c);
    PrefixSlice(n, c, i, i + |r|);
    assert forall k :: 0 <= k < |c| ==> c[k] == n[k];
  }

  /** The stripped cut has non-word characters (or the ends of the name) on
      both sides. */
  lemma CutBounds(n: string, c: string, r: string) returns (i: nat)
    requires forall k :: 0 <= k < |n| ==> IsNameChar(n[k])
    requires c == BeforeStopWord(n, 0) && r == Strip(c) && r != []
    ensures i + |r| <= |c| <= |n| && r == n[i..i + |r|]
    ensures i == 0 || !IsWordChar(n[i - 1])
    ensures i + |r| == |n| || !IsWordChar(n[i + |r|])
  {
    i := CutSlice(n, c, r);
    CutEnd(n);
    CutRightBound(n, c, r, i);
    if i > 0 {
      assert IsSpace(n[i - 1]);
    }
  }

  lemma CutRightBound(n: string, c: string, r: string, i: nat)
    requires forall k :: 0 <= k < |n| ==> IsNameChar(n[k])
    requires |c| <= |n| && (c == [] || |c| == |n| || !IsWordChar(n[|c| - 1]))
    requires r == Strip(c) && r != []
    requires i + |r| <= |c| && r == n[i..i + |r|]
    requires forall k :: i + |r| <= k < |c| ==> IsSpace(n[k])
    ensures i + |r| == |n| || !IsWordChar(n[i + |r|])
  {
    var j := i + |r|;
    assert !IsSpace(r[|r| - 1]) && n[j - 1] == r[|r| - 1];
    assert IsUpperLetter(n[j - 1]);
    if j < |c| {
      assert IsSpace(n[j]);
    }
  }

  lemma StopWordShift(n: string, r: string, i: nat, q: nat)
    requires i + |r| <= |n| && r == n[i..i + |r|]
    requires i == 0 || !IsWordChar(n[i - 1])
    requires i + |r| == |n| || !IsWordChar(n[i + |r|])
    ensures StopWordAt(r, q) ==> StopWordAt(n, i + q) && q < |r|
  {
    WordShift(n, r, i, q, "FLAT");
    WordShift(n, r, i, q, "ROOM");
    WordShift(n, r, i, q, "FLOOR");
  }

  lemma StopWordShiftAll(n: string, r: string, i: nat)
    requires i + |r| <= |n| && r == n[i..i + |r|]
    requires i == 0 || !IsWordChar(n[i - 1])
    requires i + |r| == |n| || !IsWordChar(n[i + |r|])
    ensures forall q: nat :: StopWordAt(r, q) ==> StopWordAt(n, i + q) && q < |r|
  {
    forall q: nat | StopWordAt(r, q) ensures StopWordAt(n, i + q) && q < |r| {
      StopWordShift(n, r, i, q);
    }
  }

  /** What is left of a name after the cut and the strip holds none of the
      stop words FLAT, ROOM and FLOOR as a whole word. */
  lemma NameHasNoStopWord(n: string)
    requires forall k :: 0 <= k < |n| ==> IsNameChar(n[k])
    ensures forall q :: 0 <= q <= |Strip(BeforeStopWord(n, 0))| ==> !StopWordAt(Strip(BeforeStopWord(n, 0)), q)
  {
    var c := BeforeStopWord(n, 0);
    var r := Strip(c);
    if r != [] {
      var i := CutBounds(n, c, r);
      StopWordShiftAll(n, r, i);
    }
  }

  /** The extracted name holds none of the stop words as a whole word. */
  lemma InsuredHasNoStopWord(t: string)
    ensures forall q :: 0 <= q <= |ExtractInsured(t)| ==> !StopWordAt(ExtractInsured(t), q)
  {
    match FindInsured(t, 0)
    case None =>
    case Some(g) =>
      var n := Strip(g);
      forall k | 0 <= k < |n| ensures IsNameChar(n[k]) {
        assert n[k] in g;
      }
      NameHasNoStopWord(n);
  }

  // ---------------------------------------------------------------------
  // Insurance class:
  //   CLAS[S]?\s*([0-9OQ]{2,3})[- ]*([A-Z ]+HELPER)  (IGNORECASE)
  // ---------------------------------------------------------------------

  /** `[0-9OQ]` under IGNORECASE. */
  predicate IsCodeChar(c: char)
  {
    IsDigit(c) || c == 'O' || c == 'o' || c == 'Q' || c == 'q'
  }

  /** `[A-Z ]` under IGNORECASE. */
  predicate IsClassChar(c: char)
  {
    IsLetter(c) || c == ' '
  }

  function SkipCodeChars(s: string, i: nat): (j: nat)
    requires i <= |s|
    decreases |s| - i
    ensures i <= j <= |s|
    ensures forall k :: i <= k < j ==> IsCodeChar(s[k])
  {
    if i < |s| && IsCodeChar(s[i]) then SkipCodeChars(s, i + 1) else i
  }

  function SkipClassChars(s: string, i: nat): (j: nat)
    requires i <= |s|
    decreases |s| - i
    ensures i <= j <= |s|
    ensures forall k :: i <= k < j ==> IsClassChar(s[k])
    ensures j == |s| || !IsClassChar(s[j])
  {
    if i < |s| && IsClassChar(s[i]) then SkipClassChars(s, i + 1) else i
  }

  /** The run of hyphens and spaces starting at `i`. */
  function SkipDashSpace(s: string, i: nat): (j: nat)
    requires i <= |s|
    decreases |s| - i
    ensures i <= j <= |s|
  {
    if i < |s| && (s[i] == '-' || s[i] == ' ') then SkipDashSpace(s, i + 1) else i
  }

  /** `[A-Z ]+HELPER` from `g`: the greedy run gives back characters until
      HELPER follows, so the latest HELPER at `h` in (g, hi] wins. */
  function LastHelper(t: string, g: nat, h: nat): (r: Option<nat>)
    requires g < h <= |t|
    decreases h - g
    ensures r.Some? ==> g < r.value <= h && MatchAtCI(t, r.value, "HELPER")
  {
    if MatchAtCI(t, h, "HELPER") then Some(h)
    else if h == g + 1 then None
    else LastHelper(t, g, h - 1)
  }

  /** The second group when it starts at `g`: its end. */
  function HelperGroupAt(t: string, g: nat): (r: Option<nat>)
    requires g <= |t|
    ensures r.Some? ==> g + 7 <= r.value <= |t| && MatchAtCI(t, r.value - 6, "HELPER")
    ensures r.Some? ==> forall k :: g <= k < r.value ==> IsClassChar(t[k])
  {
    var run := SkipClassChars(t, g);
    if run == g then None
    else match LastHelper(t, g, run)
      case None => None
      case Some(h) =>
        assert forall k :: h <= k < h + 6 ==> IsLetter(t[k]) by {
          forall k | h <= k < h + 6 ensures IsLetter(t[k]) {
            assert SameCI(t[k], "HELPER"[k - h]);
          }
        }
        assert h + 6 <= run;
        Some(h + 6)
  }

  /** `[- ]*` giving back characters from `hi` down to `lo`: the first
      start of a second group that matches, with its end. */
  function DashSpaceDown(t: string, hi: nat, lo: nat): (r: Option<(nat, nat)>)
    requires lo <= hi <= |t|
    decreases hi - lo
    ensures r.Some? ==> lo <= r.value.0 && r.value.0 + 7 <= r.value.1 <= |t|
    ensures r.Some? ==> MatchAtCI(t, r.value.1 - 6, "HELPER")
    ensures r.Some? ==> forall k :: r.value.0 <= k < r.value.1 ==> IsClassChar(t[k])
  {
    match HelperGroupAt(t, hi)
    case Some(e) => Some((hi, e))
    case None => if hi == lo then None else DashSpaceDown(t, hi - 1, lo)
  }

  /** The second class group: at least one class character followed by
      HELPER in any case. */
  predicate WordsShape(words: string)
  {
    |words| >= 7 && MatchAtCI(words, |words| - 6, "HELPER")
    && forall i :: 0 <= i < |words| ==> IsClassChar(words[i])
  }

  /** What the two class groups always look like. */
  predicate ClassGroups(code: string, words: string)
  {
    2 <= |code| <= 3 && (forall i :: 0 <= i < |code| ==> IsCodeChar(code[i])) && WordsShape(words)
  }

  /** The second group after a code ending at `c`. */
  function WordsAfter(t: string, c: nat): (r: Option<string>)
    requires c <= |t|
    ensures r.Some? ==> WordsShape(r.value)
  {
    match DashSpaceDown(t, SkipDashSpace(t, c), c)
    case None => None
    case Some((g, e)) =>
      MatchAtCISlice(t, g, e, e - 6, "HELPER");
      Some(t[g..e])
  }

  /** Both groups when the code takes `k` characters from `s`. */
  function ClassWithCode(t: string, s: nat, k: nat): (r: Option<(string, string)>)
    requires 2 <= k <= 3 && s + k <= |t|
    requires forall i :: s <= i < s + k ==> IsCodeChar(t[i])
    ensures r.Some? ==> ClassGroups(r.value.0, r.value.1)
  {
    match WordsAfter(t, s + k)
    case None => None
    case Some(words) => Some((t[s..s + k], words))
  }

  /** The two groups when the class pattern matches at `p`. `CLAS[S]?` and
      `\s*` have no useful alternative; the code takes three characters
      first, then two. */
  function ClassAt(t: string, p: nat): (r: Option<(string, string)>)
    requires p <= |t|
    ensures r.Some? ==> ClassGroups(r.value.0, r.value.1)
  {
    if !MatchAtCI(t, p, "CLAS") then None
    else
      var a := if p + 4 < |t| && SameCI(t[p + 4], 'S') then p + 5 else p + 4;
      var s := SkipSpace(t, a);
      var run := SkipCodeChars(t, s);
      if run - s < 2 then None
      else
        var three := if run - s >= 3 then ClassWithCode(t, s, 3) else None;
        if three.Some? then three else ClassWithCode(t, s, 2)
  }

  function FindClass(t: string, p: nat): (r: Option<(string, string)>)
    requires p <= |t|
    decreases |t| - p
    ensures r.Some? ==> ClassGroups(r.value.0, r.value.1)
  {
    var here := ClassAt(t, p);
    if here.Some? then here
    else if p == |t| then None
    else FindClass(t, p + 1)
  }

  /** The code with upper-case O and Q read as 0 (the replacement is
      case-sensitive, so a lower-case o or q stays). */
  function FixCode(code: string): string
  {
    Replace(Replace(code, "O", "0"), "Q", "0")
  }

  /** The class words upper-cased, with the DOMESTIC and HELPER fixes. */
  function FixClassWords(words: string): string
  {
    Replace(Replace(Replace(Upper(words), "OOMESTIC", "DOMESTIC"), "DQMESTIC", "DOMESTIC"), "XELPER", "HELPER")
  }

  /** The fixed code and the fixed words of the first class match. */
  function ClassParts(t: string): Option<(string, string)>
  {
    match FindClass(t, 0)
    case None => None
    case Some((code, words)) => Some((FixCode(code), FixClassWords(words)))
  }

  /** `extract_insurance_class`: the fixed code, a space, the fixed words;
      "" when the pattern does not occur. */
  function ExtractInsuranceClass(t: string): (r: string)
  {
    match ClassParts(t)
    case None => ""
    case Some((code, words)) => code + " " + words
  }

  /** A character of a fixed code: a digit, or a lower-case o or q that the
      case-sensitive replacement leaves alone. */
  predicate IsFixedCodeChar(c: char)
  {
    IsDigit(c) || c == 'o' || c == 'q'
  }

  /** A character of the fixed class words. */
  predicate IsFixedWordChar(c: char)
  {
    IsUpperLetter(c) || c == ' '
  }

  lemma FixCodeShape(code: string)
    requires forall i :: 0 <= i < |code| ==> IsCodeChar(code[i])
    ensures |FixCode(code)| == |code|
    ensures forall i :: 0 <= i < |code| ==> IsFixedCodeChar(FixCode(code)[i])
  {
    ReplaceOneChar(code, 'O', '0');
    ReplaceOneChar(MapChar(code, 'O', '0'), 'Q', '0');
  }

  /** Replacing a pattern by one of the same length keeps the length. */
  lemma {:induction false} ReplaceSameLength(s: string, pat: string, rep: string)
    requires |pat| == |rep|
    ensures |Replace(s, pat, rep)| == |s|
    decreases |s|
  {
    if pat != [] && |s| >= |pat| {
      if s[..|pat|] == pat {
        ReplaceSameLength(s[|pat|..], pat, rep);
      } else {
        ReplaceSameLength(s[1..], pat, rep);
      }
    }
  }

  const FixedWordChars: iset<char> := iset c: char | IsFixedWordChar(c)

  lemma FixClassWordsShape(words: string)
    requires forall i :: 0 <= i < |words| ==> IsClassChar(words[i])
    ensures |FixClassWords(words)| == |words|
    ensures forall i :: 0 <= i < |words| ==> FixClassWords(words)[i] in FixedWordChars
  {
    var u := Upper(words);
    assert forall i :: 0 <= i < |u| ==> u[i] in FixedWordChars;
    assert forall i :: 0 <= i < 8 ==> "DOMESTIC"[i] in FixedWordChars;
    assert forall i :: 0 <= i < 6 ==> "HELPER"[i] in FixedWordChars;
    ReplaceKeepsChars(u, "OOMESTIC", "DOMESTIC", FixedWordChars);
    ReplaceSameLength(u, "OOMESTIC", "DOMESTIC");
    var u1 := Replace(u, "OOMESTIC", "DOMESTIC");
    ReplaceKeepsChars(u1, "DQMESTIC", "DOMESTIC", FixedWordChars);
    ReplaceSameLength(u1, "DQMESTIC", "DOMESTIC");
    var u2 := Replace(u1, "DQMESTIC", "DOMESTIC");
    ReplaceKeepsChars(u2, "XELPER", "HELPER", FixedWordChars);
    ReplaceSameLength(u2, "XELPER", "HELPER");
  }

  /** Upper-casing turns a case-insensitive HELPER ending into HELPER. */
  lemma UpperHelperEnding(words: string)
    requires WordsShape(words)
    ensures Upper(words)[|words| - 6..] == "HELPER"
  {
    var u := Upper(words);
    forall k | 0 <= k < 6 ensures u[|words| - 6..][k] == "HELPER"[k] {
      assert SameCI(words[|words| - 6 + k], "HELPER"[k]);
    }
  }

  lemma HelperPatternsDisjoint()
    ensures 'O' !in "HELPER" && 'D' !in "HELPER" && 'X' !in "HELPER"
    ensures 'H' !in "OOMESTIC" && 'H' !in "DQMESTIC" && 'H' !in "XELPER"
  {
  }

  /** The word fixes keep the HELPER ending: none of their patterns can
      start inside it or run into it. */
  lemma FixClassWordsEnding(words: string)
    requires WordsShape(words)
    ensures |FixClassWords(words)| >= 6 && FixClassWords(words)[|FixClassWords(words)| - 6..] == "HELPER"
  {
    var u := Upper(words);
    UpperHelperEnding(words);
    HelperPatternsDisjoint();
    ReplaceKeepsSuffix(u, "HELPER", "OOMESTIC", "DOMESTIC");
    var u1 := Replace(u, "OOMESTIC", "DOMESTIC");
    ReplaceKeepsSuffix(u1, "HELPER", "DQMESTIC", "DOMESTIC");
    var u2 := Replace(u1, "DQMESTIC", "DOMESTIC");
    ReplaceKeepsSuffix(u2, "HELPER", "XELPER", "HELPER");
  }

  /** The class code has two or three characters, each a digit or a
      lower-case o or q (upper-case O and Q are read as 0), and the class
      words are at least seven upper-case letters and spaces ending in
      HELPER. */
  lemma ClassPartsShape(t: string)
    ensures ClassParts(t).Some? ==>
      var (code, words) := ClassParts(t).value;
      2 <= |code| <= 3 && (forall i :: 0 <= i < |code| ==> IsFixedCodeChar(code[i]))
      && |words| >= 7 && (forall i :: 0 <= i < |words| ==> IsFixedWordChar(words[i]))
      && words[|words| - 6..] == "HELPER"
  {
    match FindClass(t, 0)
    case None =>
    case Some((code, words)) =>
      FixCodeShape(code);
      FixClassWordsShape(words);
      FixClassWordsEnding(words);
  }

  /** The parser's own fixes to the extracted class. */
  function FixClassCode(cls: string): string
  {
    Replace(Replace(Replace(cls, "0O3", "003"), "O03", "003"), "0o3", "003")
  }

  /** Where a character of an extracted class comes from: the code, the
      separating space, or the words. */
  lemma ClassChars(code: string, words: string, i: nat)
    requires 2 <= |code| <= 3 && (forall k :: 0 <= k < |code| ==> IsFixedCodeChar(code[k]))
    requires forall k :: 0 <= k < |words| ==> IsFixedWordChar(words[k])
    requires i < |code + " " + words|
    ensures var r := code + " " + words;
      (r[i] == '0' ==> i < |code|) && (r[i] == 'O' ==> i > |code|)
  {
    var r := code + " " + words;
    if i > |code| {
      assert r[i] == words[i - |code| - 1];
    } else if i < |code| {
      assert r[i] == code[i];
    }
  }

  lemma ClassHasNoZeroCapitalO(code: string, words: string)
    requires 2 <= |code| <= 3 && (forall k :: 0 <= k < |code| ==> IsFixedCodeChar(code[k]))
    requires forall k :: 0 <= k < |words| ==> IsFixedWordChar(words[k])
    ensures !Contains(code + " " + words, "0O3") && !Contains(code + " " + words, "O03")
  {
    var r := code + " " + words;
    forall i: nat | i <= |r| ensures !MatchAt(r, i, "0O3") && !MatchAt(r, i, "O03") {
      if i + 3 <= |r| {
        ClassChars(code, words, i);
        ClassChars(code, words, i + 1);
        assert r[i..i + 3][0] == r[i] && r[i..i + 3][1] == r[i + 1];
      }
    }
  }

  /** In an extracted class a `0` comes only from the code and an `O` only
      from the words, so the parser's fixes of "0O3" and "O03" never fire:
      only "0o3" (a lower-case o the code fix leaves) is ever rewritten. */
  lemma ClassFixOnlyLowerO(t: string)
    ensures FixClassCode(ExtractInsuranceClass(t)) == Replace(ExtractInsuranceClass(t), "0o3", "003")
  {
    var r := ExtractInsuranceClass(t);
    ClassPartsShape(t);
    if ClassParts(t).Some? {
      var (code, words) := ClassParts(t).value;
      ClassHasNoZeroCapitalO(code, words);
    } else {
      assert r == [];
    }
    ReplaceAbsent(r, "0O3", "003");
    ReplaceAbsent(r, "O03", "003");
  }
}
