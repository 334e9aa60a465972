// The header fields of a renewal notice: the issue and expiry dates, the
// policy number, the AC code, the insurance class, the insured name and the
// two money figures (total earning and renewal premium). As for the debit
// note, each regular expression is a scanner at one position plus a
// left-to-right search, and the lazy `.*?` gaps become "first position at
// or after" searches.

module RenewalFields {
  import opened Text
  import opened Numbers
  import opened RenewalText

  // ---------------------------------------------------------------------
  // Dates: {label}.*?(\d{2}/\d{2}/\d{4})  (IGNORECASE | DOTALL)
  // ---------------------------------------------------------------------

  /** `\d{2}/\d{2}/\d{4}` at `q`. */
  predicate SlashDateAt(t: string, q: nat)
  {
    q + 10 <= |t| && IsDigit(t[q]) && IsDigit(t[q + 1]) && t[q + 2] == '/'
    && IsDigit(t[q + 3]) && IsDigit(t[q + 4]) && t[q + 5] == '/'
    && IsDigit(t[q + 6]) && IsDigit(t[q + 7]) && IsDigit(t[q + 8]) && IsDigit(t[q + 9])
  }

  /** A `dd/mm/yyyy` text, kept as written. */
  predicate IsSlashDate(d: string)
  {
    |d| == 10 && SlashDateAt(d, 0)
  }

  /** The lazy gap before the date: the first date at or after `q`. */
  function FirstDate(t: string, q: nat): (r: Option<nat>)
    decreases |t| - q
    ensures r.Some? ==> q <= r.value && SlashDateAt(t, r.value)
    ensures r.Some? ==> forall k :: q <= k < r.value ==> !SlashDateAt(t, k)
    ensures r.None? ==> forall k :: q <= k ==> !SlashDateAt(t, k)
  {
    if q + 10 > |t| then None
    else if SlashDateAt(t, q) then Some(q)
    else FirstDate(t, q + 1)
  }

  /** Where the captured date starts when the pattern matches at `p`. */
  function DateAfterAt(t: string, heading: string, p: nat): (r: Option<nat>)
    ensures r.Some? ==> SlashDateAt(t, r.value)
  {
    if MatchAtCI(t, p, heading) then FirstDate(t, p + |heading|) else None
  }

  function FindDateAfter(t: string, heading: string, p: nat): (r: Option<nat>)
    decreases |t| + 1 - p
    ensures r.Some? ==> SlashDateAt(t, r.value)
  {
    if p > |t| then None
    else
      var here := DateAfterAt(t, heading, p);
      if here.Some? then here else FindDateAfter(t, heading, p + 1)
  }

  /** The ten characters of the date at `q`, which strip to themselves. */
  function DateText(t: string, q: nat): (r: string)
    requires SlashDateAt(t, q)
    ensures IsSlashDate(r)
  {
    var d := t[q..q + 10];
    assert forall k :: 0 <= k < 10 ==> d[k] == t[q + k];
    StripTrimmed(d);
    Strip(d)
  }

  /** `extract_date_after(label, text)`: "" or a `dd/mm/yyyy` text. */
  function ExtractDateAfter(heading: string, t: string): (r: string)
    ensures r == "" || IsSlashDate(r)
  {
    match FindDateAfter(t, heading, 0)
    case None => ""
    case Some(q) => DateText(t, q)
  }

  /** Positions where the label does not occur are passed over. */
  lemma {:induction false} DateSearchSkips(t: string, heading: string, from: nat, p: nat)
    requires from <= p <= |t| + 1
    requires forall k :: from <= k < p ==> !MatchAtCI(t, k, heading)
    ensures FindDateAfter(t, heading, from) == FindDateAfter(t, heading, p)
    decreases p - from
  {
    if from < p {
      DateSearchSkips(t, heading, from + 1, p);
    }
  }

  /** With no date from `q` on, no label at or after `q - |label|` helps. */
  lemma {:induction false} DateSearchFails(t: string, heading: string, p: nat, q: nat)
    requires q <= p + |heading|
    requires forall k :: q <= k ==> !SlashDateAt(t, k)
    ensures FindDateAfter(t, heading, p).None?
    decreases |t| + 1 - p
  {
    if p <= |t| {
      DateSearchFails(t, heading, p + 1, q);
    }
  }

  /** Without the label there is no date. */
  lemma DateWithoutLabel(heading: string, t: string)
    requires FindCI(t, heading, 0).None?
    ensures ExtractDateAfter(heading, t) == ""
  {
    DateSearchSkips(t, heading, 0, |t| + 1);
  }

  /** The search settles at the FIRST occurrence of the label: the date is
      the first one after it, and there is none when no date follows it. */
  lemma DateAtFirstLabel(heading: string, t: string, p: nat)
    requires FindCI(t, heading, 0) == Some(p)
    ensures FindDateAfter(t, heading, 0) == FirstDate(t, p + |heading|)
  {
    DateSearchSkips(t, heading, 0, p);
    if FirstDate(t, p + |heading|).None? {
      DateSearchFails(t, heading, p + 1, p + |heading|);
    }
  }

  // ---------------------------------------------------------------------
  // Policy number: POLICY\s*NO\.?\s*[:\-]?\s*([A-Z0-9\-]+)  (IGNORECASE)
  // ---------------------------------------------------------------------

  /** `[A-Z0-9\-]` under IGNORECASE. */
  predicate IsPolicyNoChar(c: char)
  {
    IsAlnum(c) || c == '-'
  }

  function SkipPolicyNoChars(s: string, i: nat): (j: nat)
    requires i <= |s|
    decreases |s| - i
    ensures i <= j <= |s|
    ensures forall k :: i <= k < j ==> IsPolicyNoChar(s[k])
    ensures j == |s| || !IsPolicyNoChar(s[j])
  {
    if i < |s| && IsPolicyNoChar(s[i]) then SkipPolicyNoChars(s, i + 1) else i
  }

  /** `POLICY\s*NO` at `p`: the position after NO. */
  function PolicyNoEnd(t: string, p: nat): (r: Option<nat>)
    ensures r.Some? ==> p + 8 <= r.value <= |t|
  {
    if !MatchAtCI(t, p, "POLICY") then None
    else
      var a := SkipSpace(t, p + 6);
      if MatchAtCI(t, a, "NO") then Some(a + 2) else None
  }

  /** Where `\.?\s*[:\-]?\s*` lets the group start after NO at `n`. Only one
      backtrack can succeed: a hyphen taken as the optional separator, with
      no group character after it, is given back and starts the group. */
  function PolicyGroupStart(t: string, n: nat): (r: Option<nat>)
    requires n <= |t|
    ensures r.Some? ==> n <= r.value < |t| && IsPolicyNoChar(t[r.value])
  {
    var a := if n < |t| && t[n] == '.' then n + 1 else n;
    var b := SkipSpace(t, a);
    if b < |t| && (t[b] == ':' || t[b] == '-') then
      var c := SkipSpace(t, b + 1);
      if c < |t| && IsPolicyNoChar(t[c]) then Some(c)
      else if t[b] == '-' then Some(b)
      else None
    else if b < |t| && IsPolicyNoChar(t[b]) then Some(b)
    else None
  }

  /** The span of the policy group when the pattern matches at `p`: a
      non-empty, greedy run of group characters. */
  function PolicyNoAt(t: string, p: nat): (r: Option<(nat, nat)>)
    ensures r.Some? ==> p < r.value.0 < r.value.1 <= |t|
    ensures r.Some? ==> forall k :: r.value.0 <= k < r.value.1 ==> IsPolicyNoChar(t[k])
    ensures r.Some? ==> r.value.1 == |t| || !IsPolicyNoChar(t[r.value.1])
  {
    match PolicyNoEnd(t, p)
    case None => None
    case Some(n) =>
      match PolicyGroupStart(t, n)
      case None => None
      case Some(g) => Some((g, SkipPolicyNoChars(t, g)))
  }

  function FindPolicyNo(t: string, p: nat): (r: Option<(nat, nat)>)
    decreases |t| + 1 - p
    ensures r.Some? ==> r.value.0 < r.value.1 <= |t|
    ensures r.Some? ==> forall k :: r.value.0 <= k < r.value.1 ==> IsPolicyNoChar(t[k])
  {
    if p > |t| then None
    else
      var here := PolicyNoAt(t, p);
      if here.Some? then here else FindPolicyNo(t, p + 1)
  }

  /** `extract_policy_number_r`: "" or a non-empty run of letters, digits and
      hyphens (removing spaces and stripping change nothing). */
  function ExtractPolicyNumberR(t: string): (r: string)
    ensures r == "" || forall k :: 0 <= k < |r| ==> IsPolicyNoChar(r[k])
  {
    match FindPolicyNo(t, 0)
    case None => ""
    case Some((g, e)) =>
      var grp := t[g..e];
      assert forall k :: 0 <= k < |grp| ==> IsPolicyNoChar(grp[k]);
      ReplaceMissingChar(grp, " ", "", 0);
      StripTrimmed(grp);
      Strip(Replace(grp, " ", ""))
  }

  /** The captured number is never empty. */
  lemma PolicyNumberRNonEmpty(t: string)
    ensures FindPolicyNo(t, 0).Some? <==> ExtractPolicyNumberR(t) != ""
  {
    match FindPolicyNo(t, 0)
    case None =>
    case Some((g, e)) =>
      var grp := t[g..e];
      assert forall k :: 0 <= k < |grp| ==> IsPolicyNoChar(grp[k]);
      ReplaceMissingChar(grp, " ", "", 0);
      StripTrimmed(grp);
  }

  /** Text without the word POLICY, in any case, has no policy number. */
  lemma {:induction false} NoLabelNoPolicyNo(t: string, p: nat)
    requires forall q :: p <= q <= |t| ==> !MatchAtCI(t, q, "POLICY")
    decreases |t| + 1 - p
    ensures FindPolicyNo(t, p).None?
  {
    if p <= |t| {
      NoLabelNoPolicyNo(t, p + 1);
    }
  }

  /** A hyphen separator followed by nothing the group can take is read as
      the group itself: "POLICY NO -" gives "-". */
  lemma HyphenGivenBack(t: string, n: nat)
    requires n < |t| && t[n] == '-'
    requires SkipSpace(t, n + 1) == |t| || !IsPolicyNoChar(t[SkipSpace(t, n + 1)])
    ensures PolicyGroupStart(t, n) == Some(n)
  {
    assert SkipSpace(t, n) == n;
  }

  // ---------------------------------------------------------------------
  // AC code: ACICODE\s+([A-Z0-9]+)  (IGNORECASE)
  // ---------------------------------------------------------------------

  /** The span of the code when the pattern matches at `p`. */
  function AcCodeAt(t: string, p: nat): (r: Option<(nat, nat)>)
    ensures r.Some? ==> p < r.value.0 < r.value.1 <= |t|
    ensures r.Some? ==> forall k :: r.value.0 <= k < r.value.1 ==> IsAlnum(t[k])
    ensures r.Some? ==> r.value.1 == |t| || !IsAlnum(t[r.value.1])
  {
    if !MatchAtCI(t, p, "ACICODE") then None
    else
      var s := SkipSpace(t, p + 7);
      if s == p + 7 || s == |t| || !IsAlnum(t[s]) then None
      else Some((s, SkipAlnum(t, s)))
  }

  function FindAcCode(t: string, p: nat): (r: Option<(nat, nat)>)
    decreases |t| + 1 - p
    ensures r.Some? ==> r.value.0 < r.value.1 <= |t|
    ensures r.Some? ==> forall k :: r.value.0 <= k < r.value.1 ==> IsAlnum(t[k])
  {
    if p > |t| then None
    else
      var here := AcCodeAt(t, p);
      if here.Some? then here else FindAcCode(t, p + 1)
  }

  /** `extract_ac_code`: "" or a non-empty run of letters and digits. */
  function ExtractAcCode(t: string): (r: string)
    ensures forall k :: 0 <= k < |r| ==> IsAlnum(r[k])
    ensures r == "" <==> FindAcCode(t, 0).None?
  {
    match FindAcCode(t, 0)
    case None => ""
    case Some((g, e)) =>
      var grp := t[g..e];
      assert forall k :: 0 <= k < |grp| ==> IsAlnum(grp[k]);
      StripTrimmed(grp);
      Strip(grp)
  }

  // ---------------------------------------------------------------------
  // Insurance class: \bBUSINESS\s+INSURANCE\b  (IGNORECASE)
  // ---------------------------------------------------------------------

  /** The end of the whole match when the pattern matches at `p`. */
  function BusinessClassAt(t: string, p: nat): (r: Option<nat>)
    ensures r.Some? ==> p + 18 <= r.value <= |t|
    ensures r.Some? ==> MatchAtCI(t, p, "BUSINESS") && MatchAtCI(t, r.value - 9, "INSURANCE")
  {
    if !MatchAtCI(t, p, "BUSINESS") || (p > 0 && IsWordChar(t[p - 1])) then None
    else
      var s := SkipSpace(t, p + 8);
      if s == p + 8 || !MatchAtCI(t, s, "INSURANCE") || (s + 9 < |t| && IsWordChar(t[s + 9])) then None
      else Some(s + 9)
  }

  function FindBusinessClass(t: string, p: nat): (r: Option<(nat, nat)>)
    decreases |t| + 1 - p
    ensures r.Some? ==> r.value.0 + 18 <= r.value.1 <= |t|
    ensures r.Some? ==> MatchAtCI(t, r.value.0, "BUSINESS") && MatchAtCI(t, r.value.1 - 9, "INSURANCE")
  {
    if p > |t| then None
    else match BusinessClassAt(t, p)
      case Some(e) => Some((p, e))
      case None => FindBusinessClass(t, p + 1)
  }

  /** `extract_insurance_class_r`: "" or the matched words as written, which
      start with BUSINESS and end with INSURANCE in any case. */
  function ExtractInsuranceClassR(t: string): (r: string)
    ensures r == "" || (|r| >= 18 && MatchAtCI(r, 0, "BUSINESS") && MatchAtCI(r, |r| - 9, "INSURANCE"))
  {
    match FindBusinessClass(t, 0)
    case None => ""
    case Some((g, e)) =>
      var m := t[g..e];
      MatchAtCISlice(t, g, e, g, "BUSINESS");
      MatchAtCISlice(t, g, e, e - 9, "INSURANCE");
      assert SameCI(m[0 + 0], "BUSINESS"[0]);
      assert SameCI(m[|m| - 9 + 8], "INSURANCE"[8]);
      StripTrimmed(m);
      Strip(m)
  }

  // ---------------------------------------------------------------------
  // Insured name: the text between \bINSURED\b and \bPOLICY\s*NO
  // ---------------------------------------------------------------------

  /** `\bPOLICY\s*NO` at `p`. */
  predicate PolicyNoLabelAt(t: string, p: nat)
  {
    p <= |t| && (p == 0 || !IsWordChar(t[p - 1])) && PolicyNoEnd(t, p).Some?
  }

  function FindPolicyNoLabel(t: string, p: nat): (r: Option<nat>)
    decreases |t| + 1 - p
    ensures r.Some? ==> p <= r.value <= |t| && PolicyNoLabelAt(t, r.value)
    ensures r.Some? ==> forall k :: p <= k < r.value ==> !PolicyNoLabelAt(t, k)
    ensures r.None? ==> forall k :: p <= k ==> !PolicyNoLabelAt(t, k)
  {
    if p > |t| then None
    else if PolicyNoLabelAt(t, p) then Some(p)
    else FindPolicyNoLabel(t, p + 1)
  }

  /** `CLASS\s+OF\s+INSURANCE` at `i`: the end of the phrase. */
  function ClassPhraseEnd(s: string, i: nat): (r: Option<nat>)
    ensures r.Some? ==> i + 18 <= r.value <= |s|
  {
    if !MatchAtCI(s, i, "CLASS") then None
    else
      var a := SkipSpace(s, i + 5);
      if a == i + 5 || !MatchAtCI(s, a, "OF") then None
      else
        var b := SkipSpace(s, a + 2);
        if b == a + 2 || !MatchAtCI(s, b, "INSURANCE") then None
        else Some(b + 9)
  }

  /** `re.sub(r"CLASS\s+OF\s+INSURANCE", "", s[i..], flags=re.IGNORECASE)`:
      the phrases found left to right, without overlap, are removed. */
  function RemoveClassPhrase(s: string, i: nat): (r: string)
    requires i <= |s|
    decreases |s| - i
    ensures |r| <= |s| - i
  {
    if i == |s| then []
    else match ClassPhraseEnd(s, i)
      case Some(e) => RemoveClassPhrase(s, e)
      case None => [s[i]] + RemoveClassPhrase(s, i + 1)
  }

  /** Text without the phrase is left as it is. */
  lemma {:induction false} NoClassPhraseKept(s: string, i: nat)
    requires i <= |s|
    requires forall k :: i <= k < |s| ==> ClassPhraseEnd(s, k).None?
    ensures RemoveClassPhrase(s, i) == s[i..]
    decreases |s| - i
  {
    if i < |s| {
      NoClassPhraseKept(s, i + 1);
      assert s[i..] == [s[i]] + s[i + 1..];
    }
  }

  /** `\bROOM\b|\bBLOCK\b|\bFLAT\b|\bUNIT\b` at `q`, ignoring case. */
  predicate UnitWordAt(n: string, q: nat)
  {
    WordAtCI(n, q, "ROOM") || WordAtCI(n, q, "BLOCK") || WordAtCI(n, q, "FLAT") || WordAtCI(n, q, "UNIT")
  }

  /** `re.split(...)[0]`: the text before the first address word. */
  function BeforeUnitWord(n: string, q: nat): (r: string)
    requires q <= |n|
    decreases |n| - q
    ensures q <= |r| <= |n| && r == n[..|r|]
    ensures forall k :: q <= k < |r| ==> !UnitWordAt(n, k)
    ensures |r| < |n| ==> UnitWordAt(n, |r|)
  {
    if UnitWordAt(n, q) then n[..q]
    else if q == |n| then n
    else BeforeUnitWord(n, q + 1)
  }

  /** The characters of `strip(" {")`. */
  const NameTrim: set<char> := {' ', '{'}

  /** The name made from the text between the two labels. */
  function InsuredFromSegment(seg: string): (r: string)
    ensures r == [] || (!IsSpace(r[0]) && !IsSpace(r[|r| - 1]))
  {
    var c := BeforeUnitWord(RemoveClassPhrase(seg, 0), 0);
    Strip(StripChars(c, NameTrim))
  }

  /** `extract_insured_name`: "" unless both labels occur; otherwise the
      text from the end of the first INSURED to the first POLICY NO (empty
      when that comes first), cleaned. */
  function ExtractInsuredName(t: string): (r: string)
    ensures r == [] || (!IsSpace(r[0]) && !IsSpace(r[|r| - 1]))
  {
    match (FindWordCI(t, "INSURED", 0), FindPolicyNoLabel(t, 0))
    case (Some(i), Some(p)) =>
      var seg := if i + 7 <= p then t[i + 7..p] else [];
      InsuredFromSegment(seg)
    case _ => ""
  }

  /** A name needs both labels, INSURED ending before POLICY NO starts. */
  lemma InsuredNameNeedsLabels(t: string)
    ensures ExtractInsuredName(t) != "" ==>
      FindWordCI(t, "INSURED", 0).Some? && FindPolicyNoLabel(t, 0).Some?
      && FindWordCI(t, "INSURED", 0).value + 7 < FindPolicyNoLabel(t, 0).value
  {
    match (FindWordCI(t, "INSURED", 0), FindPolicyNoLabel(t, 0))
    case (Some(i), Some(p)) =>
      if i + 7 >= p {
        assert RemoveClassPhrase([], 0) == [];
        assert BeforeUnitWord([], 0) == [];
      }
    case _ =>
  }

  /** `s.strip(chars)` is a slice of `s`. */
  lemma {:induction false} StripCharsSlice(s: string, cs: set<char>) returns (i: nat)
    ensures i + |StripChars(s, cs)| <= |s| && StripChars(s, cs) == s[i..i + |StripChars(s, cs)|]
    decreases |s|
  {
    var r := StripChars(s, cs);
    if |s| > 0 && s[0] in cs {
      var j := StripCharsSlice(s[1..], cs);
      assert r == StripChars(s[1..], cs);
      assert s[1..][j..j + |r|] == s[j + 1..j + 1 + |r|];
      i := j + 1;
    } else if |s| > 0 && s[|s| - 1] in cs {
      i := StripCharsSlice(s[..|s| - 1], cs);
      assert r == StripChars(s[..|s| - 1], cs);
      assert s[..|s| - 1][i..i + |r|] == s[i..i + |r|];
    } else {
      i := 0;
    }
  }

  /** The cleaned name is a slice of the text it is cleaned from: in
      `InsuredFromSegment`, of the text before the first address word (ROOM,
      BLOCK, FLAT or UNIT). */
  lemma TrimmedSlice(c: string, m: string, r: string) returns (i: nat)
    requires m == StripChars(c, NameTrim) && r == Strip(m)
    ensures i + |r| <= |c| && r == c[i..i + |r|]
  {
    var a := StripCharsSlice(c, NameTrim);
    var b := StripSlice(m);
    i := a + b;
    SliceOfSlice(c, a, m, b, r, i);
  }

  lemma SliceOfSlice(c: string, a: nat, m: string, b: nat, r: string, i: nat)
    requires a + |m| <= |c| && m == c[a..a + |m|]
    requires b + |r| <= |m| && r == m[b..b + |r|]
    requires i == a + b
    ensures i + |r| <= |c| && r == c[i..i + |r|]
  {
    assert forall k :: 0 <= k < |r| ==> r[k] == m[b + k] == c[a + b + k];
  }

  // ---------------------------------------------------------------------
  // Total earning: TOTAL.*?\n(.*)  (IGNORECASE, `.` stops at newlines)
  // ---------------------------------------------------------------------

  /** The span of the line after the first newline that follows TOTAL at `p`. */
  function TotalLineAt(t: string, p: nat): (r: Option<(nat, nat)>)
    ensures r.Some? ==> p + 5 < r.value.0 <= r.value.1 <= |t| && t[r.value.0 - 1] == '\n'
    ensures r.Some? ==> forall k :: r.value.0 <= k < r.value.1 ==> t[k] != '\n'
    ensures r.Some? ==> r.value.1 == |t| || t[r.value.1] == '\n'
  {
    if !MatchAtCI(t, p, "TOTAL") then None
    else match IndexOf(t, '\n', p + 5)
      case None => None
      case Some(n) => Some((n + 1, LineEnd(t, n + 1)))
  }

  function FindTotalLine(t: string, p: nat): (r: Option<(nat, nat)>)
    decreases |t| + 1 - p
    ensures r.Some? ==> r.value.0 <= r.value.1 <= |t|
  {
    if p > |t| then None
    else
      var here := TotalLineAt(t, p);
      if here.Some? then here else FindTotalLine(t, p + 1)
  }

  /** `extract_total_earning`: `clean_money` of the captured line, or 0.0. */
  function ExtractTotalEarning(t: string): (r: real)
    ensures r >= 0.0
  {
    match FindTotalLine(t, 0)
    case None => 0.0
    case Some((a, b)) => CleanMoney(t[a..b])
  }

  lemma {:induction false} TotalSearchSkips(t: string, from: nat, p: nat)
    requires from <= p <= |t| + 1
    requires forall k :: from <= k < p ==> !MatchAtCI(t, k, "TOTAL")
    ensures FindTotalLine(t, from) == FindTotalLine(t, p)
    decreases p - from
  {
    if from < p {
      TotalSearchSkips(t, from + 1, p);
    }
  }

  /** With no newline from `q` on, no TOTAL at or after `q - 5` helps. */
  lemma {:induction false} TotalSearchFails(t: string, p: nat, q: nat)
    requires q <= p + 5
    requires forall k :: q <= k < |t| ==> t[k] != '\n'
    ensures FindTotalLine(t, p).None?
    decreases |t| + 1 - p
  {
    if p <= |t| {
      TotalSearchFails(t, p + 1, q);
    }
  }

  /** Without TOTAL the figure is 0.0. */
  lemma TotalWithoutLabel(t: string)
    requires FindCI(t, "TOTAL", 0).None?
    ensures ExtractTotalEarning(t) == 0.0
  {
    TotalSearchSkips(t, 0, |t| + 1);
  }

  /** The search settles at the FIRST TOTAL: the figure is read from the line
      after that TOTAL's line, and there is none when that line is the last. */
  lemma TotalAtFirstLabel(t: string, p: nat)
    requires FindCI(t, "TOTAL", 0) == Some(p)
    ensures FindTotalLine(t, 0) == TotalLineAt(t, p)
  {
    TotalSearchSkips(t, 0, p);
    if IndexOf(t, '\n', p + 5).None? {
      TotalSearchFails(t, p + 1, p + 5);
    }
  }

  // ---------------------------------------------------------------------
  // Renewal premium: RENEWAL\s+PREMIUM.*?(\d[\d\s,]+)  (IGNORECASE | DOTALL)
  // ---------------------------------------------------------------------

  /** `RENEWAL\s+PREMIUM` at `p`: the end of the label. */
  function PremiumLabelEnd(t: string, p: nat): (r: Option<nat>)
    ensures r.Some? ==> p + 15 <= r.value <= |t|
  {
    if !MatchAtCI(t, p, "RENEWAL") then None
    else
      var s := SkipSpace(t, p + 7);
      if s == p + 7 || !MatchAtCI(t, s, "PREMIUM") then None else Some(s + 7)
  }

  /** `\d[\d\s,]+` can start at `q`: a digit, then a digit, whitespace or comma. */
  predicate AmountStartAt(t: string, q: nat)
  {
    q + 1 < |t| && IsDigit(t[q]) && IsMoneyChar(t[q + 1])
  }

  function SkipMoneyChars(s: string, i: nat): (j: nat)
    requires i <= |s|
    decreases |s| - i
    ensures i <= j <= |s|
    ensures forall k :: i <= k < j ==> IsMoneyChar(s[k])
    ensures j == |s| || !IsMoneyChar(s[j])
  {
    if i < |s| && IsMoneyChar(s[i]) then SkipMoneyChars(s, i + 1) else i
  }

  /** The lazy gap before the amount: the first place one can start. */
  function FirstAmount(t: string, q: nat): (r: Option<nat>)
    decreases |t| - q
    ensures r.Some? ==> q <= r.value && AmountStartAt(t, r.value)
    ensures r.None? ==> forall k :: q <= k ==> !AmountStartAt(t, k)
  {
    if q + 1 >= |t| then None
    else if AmountStartAt(t, q) then Some(q)
    else FirstAmount(t, q + 1)
  }

  /** The span of the amount when the pattern matches at `p`: the greedy run
      of digits, whitespace and commas from the first place one can start. */
  function PremiumAt(t: string, p: nat): (r: Option<(nat, nat)>)
    ensures r.Some? ==> r.value.0 + 2 <= r.value.1 <= |t|
  {
    match PremiumLabelEnd(t, p)
    case None => None
    case Some(e) =>
      match FirstAmount(t, e)
      case None => None
      case Some(q) => Some((q, SkipMoneyChars(t, q + 1)))
  }

  function FindPremium(t: string, p: nat): (r: Option<(nat, nat)>)
    decreases |t| + 1 - p
    ensures r.Some? ==> r.value.0 <= r.value.1 <= |t|
  {
    if p > |t| then None
    else
      var here := PremiumAt(t, p);
      if here.Some? then here else FindPremium(t, p + 1)
  }

  /** `extract_renewal_premium`: `clean_money` of the captured amount, or 0.0. */
  function ExtractRenewalPremium(t: string): (r: real)
    ensures r >= 0.0
  {
    match FindPremium(t, 0)
    case None => 0.0
    case Some((a, b)) => CleanMoney(t[a..b])
  }

  /** The first place the label matches. */
  function FindPremiumLabel(t: string, p: nat): (r: Option<nat>)
    decreases |t| + 1 - p
    ensures r.Some? ==> p <= r.value && PremiumLabelEnd(t, r.value).Some?
    ensures r.Some? ==> forall k :: p <= k < r.value ==> PremiumLabelEnd(t, k).None?
    ensures r.None? ==> forall k :: p <= k ==> PremiumLabelEnd(t, k).None?
  {
    if p > |t| then None
    else if PremiumLabelEnd(t, p).Some? then Some(p)
    else FindPremiumLabel(t, p + 1)
  }

  lemma {:induction false} PremiumSearchSkips(t: string, from: nat, p: nat)
    requires from <= p <= |t| + 1
    requires forall k :: from <= k < p ==> PremiumLabelEnd(t, k).None?
    ensures FindPremium(t, from) == FindPremium(t, p)
    decreases p - from
  {
    if from < p {
      PremiumSearchSkips(t, from + 1, p);
    }
  }

  /** With no amount from `q` on, no label at or after `q` helps. */
  lemma {:induction false} PremiumSearchFails(t: string, p: nat, q: nat)
    requires q <= p
    requires forall k :: q <= k ==> !AmountStartAt(t, k)
    ensures FindPremium(t, p).None?
    decreases |t| + 1 - p
  {
    if p <= |t| {
      PremiumSearchFails(t, p + 1, q);
    }
  }

  /** A letter matched ignoring case is not a digit. */
  lemma LabelCharNotDigit(t: string, p: nat, w: string, k: nat)
    requires MatchAtCI(t, p, w) && k < |w| && IsUpperLetter(w[k])
    ensures !IsDigit(t[p + k])
  {
    assert SameCI(t[p + k], w[k]);
  }

  /** No amount starts inside the label. */
  lemma PremiumLabelNoAmount(t: string, p: nat)
    requires PremiumLabelEnd(t, p).Some?
    ensures forall k :: p <= k < PremiumLabelEnd(t, p).value ==> !AmountStartAt(t, k)
  {
    var s := SkipSpace(t, p + 7);
    forall k | p <= k < s + 7 ensures !IsDigit(t[k]) {
      if k < p + 7 {
        LabelCharNotDigit(t, p, "RENEWAL", k - p);
      } else if k >= s {
        LabelCharNotDigit(t, s, "PREMIUM", k - s);
      }
    }
  }

  /** Without the label the figure is 0.0. */
  lemma PremiumWithoutLabel(t: string)
    requires FindPremiumLabel(t, 0).None?
    ensures ExtractRenewalPremium(t) == 0.0
  {
    PremiumSearchSkips(t, 0, |t| + 1);
  }

  /** The search settles at the FIRST label: the amount is the first one
      after it, and there is none when no amount follows it. */
  lemma PremiumAtFirstLabel(t: string, p: nat)
    requires FindPremiumLabel(t, 0) == Some(p)
    ensures FindPremium(t, 0) == PremiumAt(t, p)
  {
    PremiumSearchSkips(t, 0, p);
    var e := PremiumLabelEnd(t, p).value;
    if FirstAmount(t, e).None? {
      PremiumLabelNoAmount(t, p);
      PremiumSearchFails(t, p + 1, p);
    }
  }
}
