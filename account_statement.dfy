/** The account-statement parser (ocr/account_statement_parser.py): OCR
    correction tables, the issue and premium-due dates, the address, the
    account number, the numeric cleaner, and the statement entries built by
    aligning (policy, nature) pairs with (date, debit note, premium) rows. */
module AccountStatement {
  import opened Text
  import opened Numbers
  import opened Dates

  // =====================================================================
  // OCR corrections
  // =====================================================================

  const TextOcrCorrections: seq<Rule> := [
    Rule("i1", "11"), Rule("Noyember", "November"), Rule("20z5", "2025"),
    Rule("EOWARD", "EDWARD"), Rule("LEYEL", "LEVEL"),
    Rule("MQNGKOK", "MONGKOK"), Rule("MONGKOX", "MONGKOK"),
    Rule("XQWLOON", "KOWLOON"), Rule("XOWI_OON_", "KOWLOON"),
    Rule("S2E", "SZE")]

  const NumericOcrCorrections: seq<Rule> := [
    Rule("O", "0"), Rule("Q", "0"), Rule("l", "1"), Rule("I", "1"),
    Rule("7o", "70"), Rule("QQ", "00")]

  /** What `apply_ocr_corrections(text, numeric_only)` returns: the text
      table in order, then the numeric table only when `numericOnly`. */
  function OcrCorrected(text: string, numericOnly: bool): string
  {
    var t := ApplyRules(text, TextOcrCorrections);
    if numericOnly then ApplyRules(t, NumericOcrCorrections) else t
  }

  /** `apply_ocr_corrections`: reassigns `text` once per rule. */
  method ApplyOcrCorrections(text: string, numericOnly: bool) returns (r: string)
    ensures r == OcrCorrected(text, numericOnly)
  {
    r := text;
    var i := 0;
    while i < |TextOcrCorrections|
      invariant 0 <= i <= |TextOcrCorrections|
      invariant ApplyRules(r, TextOcrCorrections[i..]) == ApplyRules(text, TextOcrCorrections)
    {
      ApplyRulesSplit(r, TextOcrCorrections, i);
      r := Replace(r, TextOcrCorrections[i].pat, TextOcrCorrections[i].rep);
      i := i + 1;
    }
    if numericOnly {
      var afterText := r;
      i := 0;
      while i < |NumericOcrCorrections|
        invariant 0 <= i <= |NumericOcrCorrections|
        invariant ApplyRules(r, NumericOcrCorrections[i..]) == ApplyRules(afterText, NumericOcrCorrections)
      {
        ApplyRulesSplit(r, NumericOcrCorrections, i);
        r := Replace(r, NumericOcrCorrections[i].pat, NumericOcrCorrections[i].rep);
        i := i + 1;
      }
    }
  }

  /** Text containing no pattern of either table comes back unchanged. */
  lemma CorrectionsNoTrigger(text: string, numericOnly: bool)
    requires forall k :: 0 <= k < |TextOcrCorrections| ==> !Contains(text, TextOcrCorrections[k].pat)
    requires numericOnly ==>
      forall k :: 0 <= k < |NumericOcrCorrections| ==> !Contains(text, NumericOcrCorrections[k].pat)
    ensures OcrCorrected(text, numericOnly) == text
  {
    ApplyRulesNoTrigger(text, TextOcrCorrections);
    if numericOnly { ApplyRulesNoTrigger(text, NumericOcrCorrections); }
  }

  /** What the numeric table makes of a single character. */
  function NumericFix(c: char): char
  {
    if c == 'O' || c == 'Q' then '0' else if c == 'l' || c == 'I' then '1' else c
  }

  /** On a single character the text table never fires (its patterns are
      longer) and the numeric table, applied only when `numericOnly`, reads
      O and Q as 0 and l and I as 1: so "O" survives without `numericOnly`
      and becomes "0" with it. */
  lemma SingleCharCorrected(c: char)
    ensures OcrCorrected([c], false) == [c]
    ensures OcrCorrected([c], true) == [NumericFix(c)]
  {
    ApplyRulesUntouched([c], TextOcrCorrections);
    NumericSingle(c);
  }

  /** The numeric table on a single character. */
  lemma NumericSingle(c: char)
    ensures ApplyRules([c], NumericOcrCorrections) == [NumericFix(c)]
  {
    var n := NumericOcrCorrections;
    var s0 := [c];
    assert n[0..] == n;
    ApplyRulesSplit(s0, n, 0);
    ReplaceSingle(c, 'O', '0');
    var c1 := if c == 'O' then '0' else c;
    ApplyRulesSplit([c1], n, 1);
    ReplaceSingle(c1, 'Q', '0');
    var c2 := if c1 == 'Q' then '0' else c1;
    ApplyRulesSplit([c2], n, 2);
    ReplaceSingle(c2, 'l', '1');
    var c3 := if c2 == 'l' then '1' else c2;
    ApplyRulesSplit([c3], n, 3);
    ReplaceSingle(c3, 'I', '1');
    var c4 := if c3 == 'I' then '1' else c3;
    ApplyRulesUntouched([c4], n[4..]);
  }

  /** Past its first rule the text table cannot fire on three characters
      without an S: every later pattern is longer or starts with S. */
  lemma TableTailUntouched(s: string)
    requires forall c <- s :: c == 'i' || c == '1'
    ensures ApplyRules(s, TextOcrCorrections[1..]) == s
  {
    var t := TextOcrCorrections[1..];
    forall k | 0 <= k < |t| ensures t[k].pat != [] && t[k].pat[0] !in s {
      assert t[k].pat[0] != 'i' && t[k].pat[0] != '1';
    }
    ApplyRulesUntouched(s, t);
  }

  /** The rules run in sequence: "ii1" becomes "i11" ... */
  lemma CorrectionsFirstPass()
    ensures OcrCorrected("ii1", false) == "i11"
  {
    var t := TextOcrCorrections;
    assert t[0..] == t;
    assert Replace("ii1", "i1", "11") == "i11" by {
      assert "ii1"[..2][1] != "i1"[1];
      assert "ii1"[1..] == "i1";
      assert "i1"[..2] == "i1";
      assert "i1"[2..] == "";
    }
    ApplyRulesSplit("ii1", t, 0);
    TableTailUntouched("i11");
  }

  /** ... and correcting "i11" again gives "111", so the table is not idempotent. */
  lemma CorrectionsSecondPass()
    ensures OcrCorrected("i11", false) == "111"
  {
    var t := TextOcrCorrections;
    assert t[0..] == t;
    assert Replace("i11", "i1", "11") == "111" by {
      assert "i11"[..2] == "i1";
      assert "i11"[2..] == "1";
    }
    ApplyRulesSplit("i11", t, 0);
    TableTailUntouched("111");
  }

  // =====================================================================
  // Dates
  // =====================================================================

  /** End of `\d{1,2}\s+[A-Za-z]+\s+\d{4}` matched at `k`, if it matches there. */
  function LongDateAt(t: string, k: nat): (r: Option<nat>)
    requires k <= |t|
    ensures r.Some? ==> k < r.value <= |t|
  {
    var d := SkipDigits(t, k);
    if d == k || d - k > 2 then None
    else
      var a := SkipSpace(t, d);
      var b := SkipLetters(t, a);
      var c := SkipSpace(t, b);
      if a == d || b == a || c == b || |t| - c < 4 || !AllDigits(t[c..c + 4]) then None
      else Some(c + 4)
  }

  /** The first position in [k, e) where a long date starts, with its end. */
  function FirstLongDate(t: string, k: nat, e: nat): (r: Option<(nat, nat)>)
    requires k <= e <= |t|
    decreases e - k
    ensures r.Some? ==> k <= r.value.0 < e && LongDateAt(t, r.value.0) == Some(r.value.1)
  {
    if k == e then None
    else match LongDateAt(t, k)
      case Some(end) => Some((k, end))
      case None => FirstLongDate(t, k + 1, e)
  }

  /** The capture of `Issued Date\s*[:：]?\s*.*?(\d{1,2}\s+[A-Za-z]+\s+\d{4})`
      (IGNORECASE), searched from `from`: after the label, whitespace, an
      optional colon, whitespace, then anything on that line up to the
      first date. A label with no date after it on its line is skipped. */
  function IssueDateCapture(t: string, from: nat): (r: Option<string>)
    decreases |t| - from
  {
    match FindCI(t, "Issued Date", from)
    case None => None
    case Some(l) =>
      var p0 := SkipSpace(t, l + 11);
      var p := if p0 < |t| && (t[p0] == ':' || t[p0] == '\U{FF1A}') then SkipSpace(t, p0 + 1) else p0;
      match FirstLongDate(t, p, LineEnd(t, p))
      case Some((k, end)) => Some(t[k..end])
      case None => IssueDateCapture(t, l + 1)
  }

  /** A parsed long date as YYYY-MM-DD, or "" where strptime would raise. */
  function LongDateToIso(s: string): (r: string)
    ensures r == "" || IsIsoDate(r)
  {
    match ParseLongDate(s)
    case None => ""
    case Some(d) => IsoRoundTrip(d); FormatIso(d)
  }

  /** `extract_issue_date`: "" or a real calendar date as YYYY-MM-DD. */
  function ExtractIssueDate(text: string): (r: string)
    ensures r == "" || IsIsoDate(r)
  {
    match IssueDateCapture(OcrCorrected(text, false), 0)
    case None => ""
    case Some(c) => LongDateToIso(c)
  }

  /** The premium-due date read from the line above a "PREMIUM DUE DATE"
      line, trying the lines from `i` on; None when no such line parses. */
  function DueDateFrom(lines: seq<string>, i: nat): (r: Option<string>)
    decreases |lines| - i
    ensures r.Some? ==> IsIsoDate(r.value)
  {
    if i >= |lines| then None
    else if i > 0 && Contains(Upper(lines[i]), "PREMIUM DUE DATE") then
      var dateLine := Strip(lines[i - 1]);
      var first := LongDateToIso(dateLine);
      if first != "" then Some(first)
      else
        var second := LongDateToIso(OcrCorrected(dateLine, false));
        if second != "" then Some(second) else DueDateFrom(lines, i + 1)
    else DueDateFrom(lines, i + 1)
  }

  /** `extract_premium_due_date`: the date on the line immediately above the
      first "PREMIUM DUE DATE" line whose upper line parses; otherwise the
      issue date. */
  function ExtractPremiumDueDate(text: string): (r: string)
    ensures r == "" || IsIsoDate(r)
  {
    var t := OcrCorrected(text, false);
    match DueDateFrom(SplitLines(t), 0)
    case Some(d) => d
    case None => ExtractIssueDate(t)
  }

  /** With no "PREMIUM DUE DATE" line below another line, the premium-due
      date falls back to the issue date. */
  lemma {:induction false} PremiumDueDateFallback(text: string)
    requires var lines := SplitLines(OcrCorrected(text, false));
      forall i :: 0 < i < |lines| ==> !Contains(Upper(lines[i]), "PREMIUM DUE DATE")
    ensures ExtractPremiumDueDate(text) == ExtractIssueDate(OcrCorrected(text, false))
  {
    var lines := SplitLines(OcrCorrected(text, false));
    NoDueDateLine(lines, 0);
  }

  lemma {:induction false} NoDueDateLine(lines: seq<string>, i: nat)
    requires forall j :: 0 < j < |lines| ==> !Contains(Upper(lines[j]), "PREMIUM DUE DATE")
    ensures DueDateFrom(lines, i) == None
    decreases |lines| - i
  {
    if i < |lines| {
      assert !(i > 0 && Contains(Upper(lines[i]), "PREMIUM DUE DATE"));
      assert DueDateFrom(lines, i) == DueDateFrom(lines, i + 1);
      NoDueDateLine(lines, i + 1);
    }
  }

  /** When the first "PREMIUM DUE DATE" line has a long date right above
      it, that date is the premium-due date. */
  lemma {:induction false} PremiumDueDateAbove(lines: seq<string>, i: nat, d: Date)
    requires 0 < i < |lines|
    requires Contains(Upper(lines[i]), "PREMIUM DUE DATE")
    requires forall j :: 0 < j < i ==> !Contains(Upper(lines[j]), "PREMIUM DUE DATE")
    requires ParseLongDate(Strip(lines[i - 1])) == Some(d)
    ensures DueDateFrom(lines, 0) == Some(FormatIso(d))
  {
    DueDateSkip(lines, 0, i);
  }

  lemma {:induction false} DueDateSkip(lines: seq<string>, j: nat, i: nat)
    requires j <= i < |lines|
    requires forall m :: 0 < m < i ==> !Contains(Upper(lines[m]), "PREMIUM DUE DATE")
    ensures DueDateFrom(lines, j) == DueDateFrom(lines, i)
    decreases i - j
  {
    if j < i {
      assert !(j > 0 && Contains(Upper(lines[j]), "PREMIUM DUE DATE"));
      assert DueDateFrom(lines, j) == DueDateFrom(lines, j + 1);
      DueDateSkip(lines, j + 1, i);
    }
  }

  // =====================================================================
  // Address
  // =====================================================================

  /** `re.match(r'\d{1,2}\s+[A-Za-z]+\s+\d{4}', line)`: a line that opens with a long date. */
  predicate StartsWithLongDate(line: string)
  {
    LongDateAt(line, 0).Some?
  }

  /** The address lines `extract_address` collects from line `i` on, with
      `capture` telling whether a date line has been seen. */
  function AddressLinesFrom(lines: seq<string>, i: nat, capture: bool): seq<string>
    decreases |lines| - i
  {
    if i >= |lines| then []
    else
      var line := Strip(lines[i]);
      if line == [] then AddressLinesFrom(lines, i + 1, capture)
      else if StartsWithLongDate(line) then AddressLinesFrom(lines, i + 1, true)
      else if Contains(line, "EFFECTIVE DATE") then []
      else if capture then [line] + AddressLinesFrom(lines, i + 1, capture)
      else AddressLinesFrom(lines, i + 1, capture)
  }

  /** One step of `AddressLinesFrom`. */
  lemma AddressLinesStep(lines: seq<string>, i: nat, capture: bool)
    requires i < |lines|
    ensures var line := Strip(lines[i]);
      AddressLinesFrom(lines, i, capture) ==
        if line == [] then AddressLinesFrom(lines, i + 1, capture)
        else if StartsWithLongDate(line) then AddressLinesFrom(lines, i + 1, true)
        else if Contains(line, "EFFECTIVE DATE") then []
        else if capture then [line] + AddressLinesFrom(lines, i + 1, capture)
        else AddressLinesFrom(lines, i + 1, capture)
  {
  }

  /** `extract_address`: the non-blank lines after a line opening with a
      long date, up to the first "EFFECTIVE DATE" line, joined by spaces. */
  method ExtractAddress(text: string) returns (address: string)
    ensures address == Join(AddressLinesFrom(SplitLines(text), 0, false), " ")
  {
    var lines := SplitLines(text);
    var addressLines: seq<string> := [];
    var capture := false;
    var i := 0;
    ghost var all := AddressLinesFrom(lines, 0, false);
    while i < |lines|
      invariant 0 <= i <= |lines|
      invariant addressLines + AddressLinesFrom(lines, i, capture) == all
    {
      var line := Strip(lines[i]);
      AddressLinesStep(lines, i, capture);
      if line == [] {
        i := i + 1;
        continue;
      }
      if StartsWithLongDate(line) {
        capture := true;
        i := i + 1;
        continue;
      }
      if Contains(line, "EFFECTIVE DATE") {
        assert addressLines == all;
        break;
      }
      if capture {
        addressLines := addressLines + [line];
      }
      i := i + 1;
    }
    assert addressLines == all;
    address := Join(addressLines, " ");
  }

  /** A line `extract_address` may keep. */
  predicate IsAddressLine(line: string)
  {
    line != [] && Strip(line) == line && !StartsWithLongDate(line) && !Contains(line, "EFFECTIVE DATE")
  }

  /** Every address line is a stripped, non-blank line that neither opens
      with a long date nor contains "EFFECTIVE DATE". */
  lemma {:induction false} AddressLinesShape(lines: seq<string>, i: nat, capture: bool)
    ensures forall line <- AddressLinesFrom(lines, i, capture) :: IsAddressLine(line)
    decreases |lines| - i
  {
    if i < |lines| {
      var line := Strip(lines[i]);
      var r := AddressLinesFrom(lines, i, capture);
      if line == [] {
        AddressLinesShape(lines, i + 1, capture);
        assert r == AddressLinesFrom(lines, i + 1, capture);
      } else if StartsWithLongDate(line) {
        AddressLinesShape(lines, i + 1, true);
        assert r == AddressLinesFrom(lines, i + 1, true);
      } else if Contains(line, "EFFECTIVE DATE") {
        assert r == [];
      } else if capture {
        AddressLinesShape(lines, i + 1, capture);
        StripTrimmed(line);
        assert IsAddressLine(line);
        assert r == [line] + AddressLinesFrom(lines, i + 1, capture);
      } else {
        AddressLinesShape(lines, i + 1, capture);
        assert r == AddressLinesFrom(lines, i + 1, capture);
      }
    }
  }

  /** Before any line opening with a long date nothing is captured: a text
      without such a line has an empty address. */
  lemma {:induction false} NoDateNoAddress(lines: seq<string>, i: nat)
    requires forall k :: 0 <= k < |lines| ==> !StartsWithLongDate(Strip(lines[k]))
    ensures AddressLinesFrom(lines, i, false) == []
    decreases |lines| - i
  {
    if i < |lines| {
      var line := Strip(lines[i]);
      NoDateNoAddress(lines, i + 1);
      assert !StartsWithLongDate(line);
      if line == [] {
        assert AddressLinesFrom(lines, i, false) == AddressLinesFrom(lines, i + 1, false);
      } else if Contains(line, "EFFECTIVE DATE") {
        assert AddressLinesFrom(lines, i, false) == [];
      } else {
        assert AddressLinesFrom(lines, i, false) == AddressLinesFrom(lines, i + 1, false);
      }
    }
  }

  // =====================================================================
  // Account number
  // =====================================================================

  /** The capture of `ACCOUNT NUMBER\s*[:：]?\s*([A-Z0-9]+)` (IGNORECASE, so
      letters of either case), searched from `from`. */
  function AccountNumberCapture(t: string, from: nat): (r: Option<string>)
    decreases |t| - from
    ensures r.Some? ==> r.value != [] && forall k :: 0 <= k < |r.value| ==> IsAlnum(r.value[k])
  {
    match FindCI(t, "ACCOUNT NUMBER", from)
    case None => None
    case Some(l) =>
      var p0 := SkipSpace(t, l + 14);
      var p := if p0 < |t| && (t[p0] == ':' || t[p0] == '\U{FF1A}') then SkipSpace(t, p0 + 1) else p0;
      var e := SkipAlnum(t, p);
      if e > p then Some(t[p..e]) else AccountNumberCapture(t, l + 1)
  }

  /** "N/A" cannot be mistaken for a captured account number. */
  lemma AlnumNotNA(c: string)
    requires forall k :: 0 <= k < |c| ==> IsAlnum(c[k])
    ensures c != "N/A"
  {
    if |c| == 3 { assert !IsAlnum("N/A"[1]); }
  }

  /** `extract_account_number`: a non-empty run of letters and digits, or
      'N/A' when no "ACCOUNT NUMBER" label is followed by one. */
  function ExtractAccountNumber(text: string): (r: string)
    ensures r == "N/A" || (r != [] && forall k :: 0 <= k < |r| ==> IsAlnum(r[k]))
    ensures r == "N/A" <==> AccountNumberCapture(OcrCorrected(text, false), 0).None?
  {
    CaptureOrNA(AccountNumberCapture(OcrCorrected(text, false), 0))
  }

  /** The capture, or 'N/A' when there is none. */
  function CaptureOrNA(c: Option<string>): (r: string)
    requires c.Some? ==> c.value != [] && forall k :: 0 <= k < |c.value| ==> IsAlnum(c.value[k])
    ensures r == "N/A" || (r != [] && forall k :: 0 <= k < |r| ==> IsAlnum(r[k]))
    ensures r == "N/A" <==> c.None?
  {
    match c
    case None => "N/A"
    case Some(v) => AlnumNotNA(v); v
  }

  // =====================================================================
  // Global OCR clean
  // =====================================================================

  /** The `clean_global_ocr` table, in its dictionary's insertion order. */
  const GlobalOcrReplacements: seq<Rule> := [
    Rule("T,", "TJ"), Rule("Tj", "TJ"), Rule("t,", "TJ"), Rule("T.", "TJ"),
    Rule("PFF25o", "PFF250"), Rule("Ro", "R0"), Rule("Q", "0")]

  /** `clean_global_ocr`: reassigns `text` once per table entry. */
  method CleanGlobalOcr(text: string) returns (r: string)
    ensures r == ApplyRules(text, GlobalOcrReplacements)
    ensures 'Q' !in r
  {
    r := text;
    var i := 0;
    while i < |GlobalOcrReplacements|
      invariant 0 <= i <= |GlobalOcrReplacements|
      invariant ApplyRules(r, GlobalOcrReplacements[i..]) == ApplyRules(text, GlobalOcrReplacements)
    {
      ApplyRulesSplit(r, GlobalOcrReplacements, i);
      r := Replace(r, GlobalOcrReplacements[i].pat, GlobalOcrReplacements[i].rep);
      i := i + 1;
    }
    GlobalCleanHasNoQ(text);
  }

  /** The last entry maps every 'Q' to '0', so none is left. */
  lemma GlobalCleanHasNoQ(text: string)
    ensures 'Q' !in ApplyRules(text, GlobalOcrReplacements)
  {
    var rs := GlobalOcrReplacements;
    var t := ApplyRules(text, rs[..6]);
    assert ApplyRules(text, rs) == ApplyRules(t, rs[6..]) by {
      ApplyRulesAppend(text, rs[..6], rs[6..]);
      assert rs[..6] + rs[6..] == rs;
    }
    ReplaceOneChar(t, 'Q', '0');
    assert rs[6..][1..] == [];
  }

  // =====================================================================
  // clean_number
  // =====================================================================

  /** `^(\d)\s+(\d{3})\s+(\d{2})$`, read as `d + ddd + "." + dd`. */
  function SpacedThousands(s: string): (r: Option<real>)
    ensures r.Some? ==> r.value >= 0.0
  {
    if |s| == 0 || !IsDigit(s[0]) then None
    else
      var a := SkipSpace(s, 1);
      if a == 1 || |s| - a < 3 || !AllDigits(s[a..a + 3]) then None
      else
        var b := SkipSpace(s, a + 3);
        if b == a + 3 || |s| - b != 2 || !AllDigits(s[b..]) then None
        else Some(DigitsValue([s[0]] + s[a..a + 3]) as real + DigitsValue(s[b..]) as real / 100.0)
  }

  /** The digit-for-letter fixes of `clean_number`: Q and O read as 0, l as 1. */
  function FixNumberChars(s: string): string
  {
    MapChar(MapChar(MapChar(s, 'Q', '0'), 'O', '0'), 'l', '1')
  }

  /** Keeps only digits and points; this also removes the whitespace and
      commas `clean_number` strips first. */
  function KeepDecimalChars(s: string): (r: string)
    ensures forall k :: 0 <= k < |r| ==> IsDigit(r[k]) || r[k] == '.'
  {
    if s == [] then []
    else if IsDigit(s[0]) || s[0] == '.' then [s[0]] + KeepDecimalChars(s[1..])
    else KeepDecimalChars(s[1..])
  }

  /** `clean_number`: total and never negative. */
  function CleanNumber(raw: string): (r: real)
    ensures r >= 0.0
  {
    if raw == [] then 0.0
    else
      var s := Strip(raw);
      match SpacedThousands(s)
      case Some(v) => v
      case None =>
        match ParseDecimal(KeepDecimalChars(FixNumberChars(s)))
        case Some(v) => v
        case None => 0.0
  }

  /** Input with no digit and none of the letters read as digits (Q, O, l)
      is pure noise and gives 0.0. */
  lemma CleanNumberNoise(raw: string)
    requires forall k :: 0 <= k < |raw| ==> !IsDigit(raw[k]) && raw[k] !in {'Q', 'O', 'l'}
    ensures CleanNumber(raw) == 0.0
  {
    if raw != [] {
      var s := Strip(raw);
      StripSubstring(raw);
      NoDigitsKept(FixNumberChars(s));
      ParseDecimalDefined(KeepDecimalChars(FixNumberChars(s)));
    }
  }

  lemma StripSubstring(s: string)
    ensures forall k :: 0 <= k < |Strip(s)| ==> Strip(s)[k] in s
  {
    var l := LStrip(s);
    forall k | 0 <= k < |Strip(s)| ensures Strip(s)[k] in s {
      assert Strip(s)[k] == l[k];
      assert l[k] == s[|s| - |l| + k];
    }
  }

  lemma {:induction false} NoDigitsKept(s: string)
    requires forall k :: 0 <= k < |s| ==> !IsDigit(s[k])
    ensures !HasDigit(KeepDecimalChars(s))
    decreases |s|
  {
    if s != [] { NoDigitsKept(s[1..]); }
  }

  /** The characters of digits, a point, digits, a point and digits. */
  lemma TwoPointsChars(a: string, b: string, c: string)
    requires AllDigits(a) && AllDigits(b) && AllDigits(c)
    ensures var s := a + "." + b + "." + c;
      (forall k :: 0 <= k < |s| ==> IsDigit(s[k]) || s[k] == '.')
      && s[|a|] == '.' && s[|a| + |b| + 1] == '.'
  {
    var s := a + "." + b + "." + c;
    forall k | 0 <= k < |s| ensures IsDigit(s[k]) || s[k] == '.' {
      if k < |a| { assert s[k] == a[k]; }
      else if |a| < k < |a| + |b| + 1 { assert s[k] == b[k - |a| - 1]; }
      else if k > |a| + |b| + 1 { assert s[k] == c[k - |a| - |b| - 2]; }
    }
  }

  /** A second point makes the cleaned text one `float` refuses: digits, a
      point, digits, a point and digits give 0.0 ("1.2.3" is 0.0). */
  lemma CleanNumberTwoPoints(a: string, b: string, c: string)
    requires AllDigits(a) && AllDigits(b) && AllDigits(c)
    ensures CleanNumber(a + "." + b + "." + c) == 0.0
  {
    var s := a + "." + b + "." + c;
    TwoPointsChars(a, b, c);
    assert !IsSpace(s[0]) && !IsSpace(s[1]) && !IsSpace(s[|s| - 1]);
    SpacedThousandsNeedsSpace(s);
    FixNumberCharsAbsent(s);
    KeepDecimalText(s);
    ParseDecimalDefined(s);
    CleanNumberFallbackPath(s);
  }

  /** `^(\d)\s+(\d{3})\s+(\d{2})$` with single spaces: the first two groups
      give the whole part and the last the hundredths. */
  lemma SpacedThousandsShape(d: char, t3: string, t2: string)
    requires IsDigit(d) && |t3| == 3 && AllDigits(t3) && |t2| == 2 && AllDigits(t2)
    ensures SpacedThousands([d] + " " + t3 + " " + t2)
            == Some(DigitsValue([d] + t3) as real + DigitsValue(t2) as real / 100.0)
  {
    var s := [d] + " " + t3 + " " + t2;
    assert s[0] == d && s[1] == ' ' && s[2] == t3[0] && s[5] == ' ' && s[6] == t2[0];
    assert SkipSpace(s, 1) == 2 by { assert SkipSpace(s, 2) == 2; }
    assert SkipSpace(s, 5) == 6 by { assert SkipSpace(s, 6) == 6; }
    assert s[2..5] == t3 && s[6..] == t2;
    assert [s[0]] + s[2..5] == [d] + t3;
  }

  /** Stripped text of the spaced-thousands shape is read by that shape alone. */
  lemma CleanNumberSpacedPath(s: string)
    requires s != [] && !IsSpace(s[0]) && !IsSpace(s[|s| - 1])
    requires SpacedThousands(s).Some?
    ensures CleanNumber(s) == SpacedThousands(s).value
  {
    StripTrimmed(s);
  }

  lemma CleanNumberSpacedShape(d: char, t3: string, t2: string)
    requires IsDigit(d) && |t3| == 3 && AllDigits(t3) && |t2| == 2 && AllDigits(t2)
    ensures CleanNumber([d] + " " + t3 + " " + t2)
            == DigitsValue([d] + t3) as real + DigitsValue(t2) as real / 100.0
  {
    var s := [d] + " " + t3 + " " + t2;
    SpacedThousandsShape(d, t3, t2);
    assert s[0] == d && s[|s| - 1] == t2[1];
    CleanNumberSpacedPath(s);
  }

  /** Digit values the example below needs. */
  lemma DigitsValues(d: char, t3: string, t2: string)
    requires d == '1' && t3 == "296" && t2 == "20"
    ensures DigitsValue([d] + t3) == 1296 && DigitsValue(t2) == 20
  {
    assert [d] + t3 == "1296";
    assert "1296"[..3] == "129" && "129"[..2] == "12" && "12"[..1] == "1" && "1"[..0] == "";
    assert "20"[..1] == "2" && "2"[..0] == "";
  }

  /** The spaced-thousands shape: "1 296 20" is 1296.20. */
  lemma CleanNumberSpaced(d: char, t3: string, t2: string)
    requires d == '1' && t3 == "296" && t2 == "20"
    ensures CleanNumber([d] + " " + t3 + " " + t2) == 1296.20
  {
    CleanNumberSpacedShape(d, t3, t2);
    DigitsValues(d, t3, t2);
  }

  /** The spaced-thousands shape needs whitespace after its first digit. */
  lemma SpacedThousandsNeedsSpace(s: string)
    requires |s| < 2 || !IsSpace(s[1])
    ensures SpacedThousands(s).None?
  {
    if |s| >= 1 {
      assert SkipSpace(s, 1) == 1;
    }
  }

  /** Stripped text outside the spaced-thousands shape: the letters are fixed,
      only digits and points are kept, and a text `float` refuses gives 0.0. */
  lemma CleanNumberFallbackPath(s: string)
    requires s != [] && !IsSpace(s[0]) && !IsSpace(s[|s| - 1])
    requires SpacedThousands(s).None?
    ensures var p := ParseDecimal(KeepDecimalChars(FixNumberChars(s)));
      CleanNumber(s) == if p.Some? then p.value else 0.0
  {
    StripTrimmed(s);
  }

  lemma {:induction false} KeepDecimalCharsAppend(x: string, y: string)
    ensures KeepDecimalChars(x + y) == KeepDecimalChars(x) + KeepDecimalChars(y)
    decreases |x|
  {
    if x == [] {
      assert x + y == y;
    } else {
      assert (x + y)[0] == x[0] && (x + y)[1..] == x[1..] + y;
      KeepDecimalCharsAppend(x[1..], y);
    }
  }

  /** Digits and points are all kept. */
  lemma {:induction false} KeepDecimalText(s: string)
    requires forall k :: 0 <= k < |s| ==> IsDigit(s[k]) || s[k] == '.'
    ensures KeepDecimalChars(s) == s
    decreases |s|
  {
    if s != [] {
      KeepDecimalText(s[1..]);
      assert [s[0]] + s[1..] == s;
    }
  }

  /** Text without Q, O or l has nothing to fix. */
  lemma FixNumberCharsAbsent(s: string)
    requires forall k :: 0 <= k < |s| ==> s[k] != 'Q' && s[k] != 'O' && s[k] != 'l'
    ensures FixNumberChars(s) == s
  {
  }

  /** The letters at both ends are read as zeros. */
  lemma FixNumberCharsEnds(t: string)
    requires AllDigits(t)
    ensures FixNumberChars("Q" + t + "O") == "0" + t + "0"
  {
    var s, u := "Q" + t + "O", "0" + t + "0";
    forall k | 0 <= k < |s| ensures FixNumberChars(s)[k] == u[k] {
      if 0 < k < |s| - 1 { assert s[k] == t[k - 1] && u[k] == t[k - 1]; }
    }
  }

  lemma AllDigitsAppend(a: string, b: string)
    requires AllDigits(a) && AllDigits(b)
    ensures AllDigits(a + b)
  {
    forall k | 0 <= k < |a + b| ensures IsDigit((a + b)[k]) {
      if k >= |a| { assert (a + b)[k] == b[k - |a|]; }
    }
  }

  /** Digits around one comma keep only the digits. */
  lemma KeepAroundComma(a: string, b: string)
    requires AllDigits(a) && AllDigits(b)
    ensures KeepDecimalChars(a + "," + b) == a + b
  {
    assert a + "," + b == a + ("," + b);
    KeepDecimalCharsAppend(a, "," + b);
    KeepDecimalCharsAppend(",", b);
    KeepDecimalText(a);
    KeepDecimalText(b);
    assert KeepDecimalChars(",") == [];
  }

  /** Digits and a comma have nothing to fix. */
  lemma FixAroundComma(a: string, b: string)
    requires AllDigits(a) && AllDigits(b)
    ensures FixNumberChars(a + "," + b) == a + "," + b
  {
    var s := a + "," + b;
    forall k | 0 <= k < |s| ensures s[k] != 'Q' && s[k] != 'O' && s[k] != 'l' {
      if k < |a| { assert s[k] == a[k]; }
      else if k > |a| { assert s[k] == b[k - |a| - 1]; }
    }
    FixNumberCharsAbsent(s);
  }

  /** Commas are thousands separators: digits, a comma and digits read as
      the number the digits spell together ("12,500" is 12500.0). */
  lemma CleanNumberCommas(a: string, b: string)
    requires a != [] && b != [] && AllDigits(a) && AllDigits(b)
    ensures CleanNumber(a + "," + b) == DigitsValue(a + b) as real
  {
    var s := a + "," + b;
    assert s[0] == a[0] && s[|s| - 1] == b[|b| - 1];
    assert s[1] == if |a| > 1 then a[1] else ',';
    SpacedThousandsNeedsSpace(s);
    FixAroundComma(a, b);
    KeepAroundComma(a, b);
    AllDigitsAppend(a, b);
    ParseDecimalDigits(a + b);
    CleanNumberFallbackPath(s);
  }

  /** Q and O are read as 0 wherever they stand: "Q", digits, "O" is ten
      times the digits' value ("Q12O" is 120.0). */
  lemma CleanNumberLetters(t: string)
    requires t != [] && AllDigits(t)
    ensures CleanNumber("Q" + t + "O") == (10 * DigitsValue(t)) as real
  {
    var s := "Q" + t + "O";
    assert s[0] == 'Q' && s[1] == t[0] && s[|s| - 1] == 'O';
    SpacedThousandsNeedsSpace(s);
    CleanNumberFallbackPath(s);
    FixNumberCharsEnds(t);
    var u := "0" + t + "0";
    AllDigitsAppend("0" + t, "0");
    AllDigitsAppend("0", t);
    KeepDecimalText(u);
    ParseDecimalDigits(u);
    assert u[..|u| - 1] == "0" + t;
    DigitsValueLeadingZero(t);
  }
}
