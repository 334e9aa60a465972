/** The debit-note parser's text normalisation and its account and policy
    numbers (ocr/debit_note_parser.py). */
module DebitNote {
  import opened Text
  import opened DebitAccount

  // =====================================================================
  // normalize_text
  // =====================================================================

  /** The `normalize_text` table, in its dictionary's insertion order:
      insurance terms, policy and account noise, the account suffix, then
      COPY noise. */
  const TermRules: seq<Rule> := [
    Rule("OOMEST1C", "DOMESTIC"), Rule("OOMESTIC", "DOMESTIC"),
    Rule("DQMESTIC", "DOMESTIC"), Rule("XELPER", "HELPER"),
    Rule("Roz", "R03"), Rule("Ros", "R03"), Rule("ROZ", "R03")]
  const SuffixRules: seq<Rule> := [Rule("To1", "(T01)"), Rule("T01)", "(T01)")]
  const CopyRules: seq<Rule> := [
    Rule("CQPY", "COPY"), Rule("C0PY", "COPY"), Rule("COPV", "COPY"),
    Rule("COpy", "COPY"), Rule("CQRY", "COPY"), Rule("CQFY", "COPY")]
  const DebitNoteReplacements: seq<Rule> := TermRules + SuffixRules + CopyRules

  /** `normalize_text`: reassigns `text` once per table entry. */
  method NormalizeText(text: string) returns (r: string)
    ensures r == ApplyRules(text, DebitNoteReplacements)
  {
    r := text;
    var i := 0;
    while i < |DebitNoteReplacements|
      invariant 0 <= i <= |DebitNoteReplacements|
      invariant ApplyRules(r, DebitNoteReplacements[i..]) == ApplyRules(text, DebitNoteReplacements)
    {
      ApplyRulesSplit(r, DebitNoteReplacements, i);
      r := Replace(r, DebitNoteReplacements[i].pat, DebitNoteReplacements[i].rep);
      i := i + 1;
    }
  }

  /** Text containing none of the table's patterns is left as it is. */
  lemma NormalizeNoTrigger(text: string)
    requires forall k :: 0 <= k < |DebitNoteReplacements| ==> !Contains(text, DebitNoteReplacements[k].pat)
    ensures ApplyRules(text, DebitNoteReplacements) == text
  {
    ApplyRulesNoTrigger(text, DebitNoteReplacements);
  }

  /** Every COPY-noise pattern starts with C. */
  lemma CopyRulesUntouched(s: string)
    requires 'C' !in s
    ensures ApplyRules(s, CopyRules) == s
  {
    ApplyRulesUntouched(s, CopyRules);
  }

  /** Every term and noise pattern starts with O, D, X or R. */
  lemma TermRulesUntouched(s: string)
    requires 'O' !in s && 'D' !in s && 'X' !in s && 'R' !in s
    ensures ApplyRules(s, TermRules) == s
  {
    ApplyRulesUntouched(s, TermRules);
  }

  /** The whole table is the three parts applied in turn. */
  lemma NormalizeParts(s: string)
    ensures ApplyRules(s, DebitNoteReplacements)
      == ApplyRules(ApplyRules(ApplyRules(s, TermRules), SuffixRules), CopyRules)
  {
    ApplyRulesAppend(s, TermRules + SuffixRules, CopyRules);
    ApplyRulesAppend(s, TermRules, SuffixRules);
  }

  /** The suffix rules, one after the other. */
  lemma SuffixSteps(s: string)
    ensures ApplyRules(s, SuffixRules) == Replace(Replace(s, "To1", "(T01)"), "T01)", "(T01)")
  {
    assert SuffixRules[1..][1..] == [];
  }

  /** "T01)" is rewritten to "(T01)" behind any run of opening brackets. */
  lemma {:induction false} ReplaceClosedSuffix(p: string)
    requires forall c <- p :: c == '('
    ensures Replace(p + "T01)", "T01)", "(T01)") == p + "(T01)"
    decreases |p|
  {
    var s := p + "T01)";
    if p == [] {
      assert s == "T01)";
      assert Replace(s, "T01)", "(T01)") == "(T01)" + Replace(s[4..], "T01)", "(T01)");
      assert s[4..] == [];
      assert p + "(T01)" == "(T01)";
    } else {
      assert s[..4][0] == p[0];
      assert s[1..] == p[1..] + "T01)";
      assert forall c <- p[1..] :: c in p;
      ReplaceClosedSuffix(p[1..]);
      assert p[0] in p;
      assert s[..4] != "T01)";
      assert Replace(s, "T01)", "(T01)") == [s[0]] + Replace(s[1..], "T01)", "(T01)");
      assert [p[0]] + (p[1..] + "(T01)") == p + "(T01)";
    }
  }

  /** The "To1" rule on "To1". */
  lemma ReplaceTo1Once()
    ensures Replace("To1", "To1", "(T01)") == "(T01)"
  {
    var s: string := "To1";
    assert s[..3] == "To1" && s[3..] == [];
  }

  /** The "T01)" rule on "(T01)". */
  lemma ReplaceT01Once()
    ensures Replace("(T01)", "T01)", "(T01)") == "((T01)"
  {
    var s: string := "(T01)";
    assert s[..4][0] == '(';
    assert s[1..] == "T01)";
    assert s[1..][..4] == "T01)" && s[1..][4..] == [];
  }

  /** `normalize_text("To1")` is "((T01)": the "T01)" rule fires on the
      "(T01)" the "To1" rule has just written. */
  lemma NormalizeTo1(s: string)
    requires s == "To1"
    ensures ApplyRules(s, DebitNoteReplacements) == "((T01)"
  {
    NormalizeParts(s);
    To1Chars(s);
    TermRulesUntouched(s);
    SuffixSteps(s);
    ReplaceTo1Once();
    ReplaceT01Once();
    var t := "((T01)";
    DoubleBracketChars(t);
    CopyRulesUntouched(t);
  }

  lemma To1Chars(s: string)
    requires s == "To1"
    ensures 'O' !in s && 'D' !in s && 'X' !in s && 'R' !in s
  {
  }

  lemma DoubleBracketChars(t: string)
    requires t == "((T01)"
    ensures 'C' !in t
  {
  }

  /** The characters of a bracketed "T01)". */
  lemma BracketedChars(q: string)
    requires forall c <- q :: c == '('
    ensures 'O' !in q + "T01)" && 'D' !in q + "T01)" && 'X' !in q + "T01)" && 'R' !in q + "T01)"
    ensures 'C' !in q + "(T01)"
    ensures 'o' !in q + "T01)"
  {
  }

  /** Normalising a bracketed "T01)" adds one more bracket, so
      `normalize_text` is not idempotent: "(T01)" becomes "((T01)" and
      that becomes "(((T01)". */
  lemma NormalizeAddsBracket(q: string)
    requires forall c <- q :: c == '('
    ensures ApplyRules(q + "T01)", DebitNoteReplacements) == q + "(T01)"
  {
    var s := q + "T01)";
    var t := q + "(T01)";
    BracketedChars(q);
    NormalizeParts(s);
    TermRulesUntouched(s);
    SuffixSteps(s);
    ReplaceMissingChar(s, "To1", "(T01)", 1);
    ReplaceClosedSuffix(q);
    CopyRulesUntouched(t);
  }

  // =====================================================================
  // Account number
  // =====================================================================

  /** `[O0Q]` under IGNORECASE. */
  predicate IsOhLike(c: char)
  {
    c == 'O' || c == 'o' || c == '0' || c == 'Q' || c == 'q'
  }

  /** `[A-Z0-9 ()]` under IGNORECASE. */
  predicate IsAccChar(c: char)
  {
    IsAlnum(c) || c == ' ' || c == '(' || c == ')'
  }

  /** Where `ACC[O0Q]U?N?T\s+N[O0Q][.:;]?` matched at `p` ends. Each optional
      piece is followed by something it cannot match, so taking it when it
      is there is the only way on; and leaving out a present punctuation mark
      puts the group on that mark, which it cannot match. */
  function AccLabelEnd(t: string, p: nat): (r: Option<nat>)
    requires p <= |t|
    ensures r.Some? ==> p < r.value <= |t|
  {
    if !MatchAtCI(t, p, "ACC") || p + 3 >= |t| || !IsOhLike(t[p + 3]) then None
    else
      var u := if p + 4 < |t| && SameCI(t[p + 4], 'U') then p + 5 else p + 4;
      var n := if u < |t| && SameCI(t[u], 'N') then u + 1 else u;
      if n >= |t| || !SameCI(t[n], 'T') then None
      else
        var w := SkipSpace(t, n + 1);
        if w == n + 1 || w + 1 >= |t| || !SameCI(t[w], 'N') || !IsOhLike(t[w + 1]) then None
        else if w + 2 < |t| && t[w + 2] in {'.', ':', ';'} then Some(w + 3)
        else Some(w + 2)
  }

  /** `(?=\s+(POL|P0L|ENO|CLA)|\Z)` at `e`, under IGNORECASE. */
  predicate AccStop(t: string, e: nat)
    requires e <= |t|
  {
    e == |t| || (SkipSpace(t, e) > e && StopWordAt(t, SkipSpace(t, e)))
  }

  /** One of the words that end the account group starts at `f`. */
  predicate StopWordAt(t: string, f: nat)
  {
    MatchAtCI(t, f, "POL") || MatchAtCI(t, f, "P0L")
    || MatchAtCI(t, f, "ENO") || MatchAtCI(t, f, "CLA")
  }

  /** The lazy group `[A-Z0-9 ()]+?` from `g`, extended one character at
      a time from `e`: the first end where the lookahead holds. */
  function LazyAccEnd(t: string, g: nat, e: nat): (r: Option<nat>)
    requires g < e <= |t|
    decreases |t| - e
    ensures r.Some? ==> e <= r.value <= |t| && AccStop(t, r.value)
    ensures r.Some? ==> forall k :: e <= k < r.value ==> IsAccChar(t[k])
  {
    if AccStop(t, e) then Some(e)
    else if e < |t| && IsAccChar(t[e]) then LazyAccEnd(t, g, e + 1)
    else None
  }

  /** The group when it starts at `g`. */
  function AccGroupAt(t: string, g: nat): (r: Option<nat>)
    requires g <= |t|
    ensures r.Some? ==> g < r.value <= |t|
    ensures r.Some? ==> forall k :: g <= k < r.value ==> IsAccChar(t[k])
  {
    if g < |t| && IsAccChar(t[g]) then LazyAccEnd(t, g, g + 1) else None
  }

  /** The `\s*` before the group gives back one character at a time: the
      group is tried from `g` down to `h`, where the label ended. */
  function AccGroupFrom(t: string, h: nat, g: nat): (r: Option<(nat, nat)>)
    requires h <= g <= |t|
    decreases g - h
    ensures r.Some? ==> h <= r.value.0 <= g && r.value.0 < r.value.1 <= |t|
    ensures r.Some? ==> forall k :: r.value.0 <= k < r.value.1 ==> IsAccChar(t[k])
  {
    match AccGroupAt(t, g)
    case Some(e) => Some((g, e))
    case None => if g == h then None else AccGroupFrom(t, h, g - 1)
  }

  /** The captured account number when the pattern matches at `p`. */
  function AccountAt(t: string, p: nat): (r: Option<string>)
    requires p <= |t|
    ensures r.Some? ==> r.value != [] && forall k :: 0 <= k < |r.value| ==> IsAccChar(r.value[k])
  {
    match AccLabelEnd(t, p)
    case None => None
    case Some(h) =>
      match AccGroupFrom(t, h, SkipSpace(t, h))
      case None => None
      case Some(ge) => Some(t[ge.0..ge.1])
  }

  /** `re.search` of the account pattern from `p`. */
  function FindAccount(t: string, p: nat): (r: Option<string>)
    requires p <= |t|
    decreases |t| - p
    ensures r.Some? ==> r.value != [] && forall k :: 0 <= k < |r.value| ==> IsAccChar(r.value[k])
  {
    var here := AccountAt(t, p);
    if here.Some? then here
    else if p == |t| then None
    else FindAccount(t, p + 1)
  }

  /** Text without the letters ACC, in any case, has no account number. */
  lemma {:induction false} NoLabelNoAccount(t: string, p: nat)
    requires p <= |t|
    requires forall q :: p <= q <= |t| ==> !MatchAtCI(t, q, "ACC")
    decreases |t| - p
    ensures FindAccount(t, p).None?
  {
    assert AccLabelEnd(t, p).None?;
    if p < |t| {
      NoLabelNoAccount(t, p + 1);
    }
  }

  /** `extract_account_number_dn`: the first account capture, stripped and
      passed through `clean_account_number`; "" when there is none. */
  function ExtractAccountNumberDn(t: string): (r: string)
    ensures forall k :: 0 <= k < |r| ==> CleanAccountChar(r[k])
  {
    var acc := match FindAccount(t, 0) case Some(g) => Strip(g) case None => "";
    CleanAccountChars(acc);
    CleanAccountNumber(acc)
  }

  /** Cleaning the extracted number a second time, as the parser does,
      gives back the same number. */
  lemma ExtractedAccountIsClean(t: string)
    ensures CleanAccountNumber(ExtractAccountNumberDn(t)) == ExtractAccountNumberDn(t)
  {
    var acc := match FindAccount(t, 0) case Some(g) => Strip(g) case None => "";
    CleanAccountIdempotent(acc);
  }

  /** Text without an "ACC" label, in any case, yields "". */
  lemma NoLabelNoAccountNumber(t: string)
    requires forall q :: 0 <= q <= |t| ==> !MatchAtCI(t, q, "ACC")
    ensures ExtractAccountNumberDn(t) == ""
  {
    NoLabelNoAccount(t, 0);
  }
}
