/** The statement entries of the account-statement parser
    (ocr/account_statement_parser.py): the (policy, nature) pairs of the
    premium block, the (date, debit note, premium) column entries, their
    alignment by index, and the statement record with its total and
    warnings. */
module AccountEntries {
  import opened Text
  import opened Numbers
  import opened AccountStatement

  // =====================================================================
  // Policy and nature pairs
  // =====================================================================

  /** `[A-Za-z0-9,\-]` */
  predicate IsPolicyChar(c: char)
  {
    IsAlnum(c) || c == ',' || c == '-'
  }

  /** `[\dOQol.,]` under IGNORECASE, which also admits q and L. */
  predicate IsNatureChar(c: char)
  {
    IsDigit(c) || c in {'O', 'o', 'Q', 'q', 'l', 'L', '.', ','}
  }

  function SkipPolicyChars(s: string, i: nat): (j: nat)
    requires i <= |s|
    decreases |s| - i
    ensures i <= j <= |s|
    ensures forall k :: i <= k < j ==> IsPolicyChar(s[k])
    ensures j == |s| || !IsPolicyChar(s[j])
  {
    if i < |s| && IsPolicyChar(s[i]) then SkipPolicyChars(s, i + 1) else i
  }

  function SkipNatureChars(s: string, i: nat): (j: nat)
    requires i <= |s|
    decreases |s| - i
    ensures i <= j <= |s|
    ensures forall k :: i <= k < j ==> IsNatureChar(s[k])
    ensures j == |s| || !IsNatureChar(s[j])
  {
    if i < |s| && IsNatureChar(s[i]) then SkipNatureChars(s, i + 1) else i
  }

  /** One match of `([A-Za-z0-9,\-]+)\s+([\dOQol.,]+)\)` at `p`: the two
      groups and the end of the match. Each class is disjoint from what
      follows it (the policy class from `\s`, `\s` from the nature class,
      the nature class from `)`), so the greedy runs are the only way to
      match. */
  datatype RawPair = RawPair(policy: string, nature: string, end: nat)

  function PairAt(t: string, p: nat): (r: Option<RawPair>)
    requires p <= |t|
    ensures r.Some? ==> p < r.value.end <= |t|
    ensures r.Some? ==> r.value.policy != [] && r.value.nature != []
    ensures r.Some? ==> forall k :: 0 <= k < |r.value.policy| ==> IsPolicyChar(r.value.policy[k])
    ensures r.Some? ==> forall k :: 0 <= k < |r.value.nature| ==> IsNatureChar(r.value.nature[k])
  {
    var a := SkipPolicyChars(t, p);
    var b := SkipSpace(t, a);
    var c := SkipNatureChars(t, b);
    if a == p || b == a || c == b || c == |t| || t[c] != ')' then None
    else Some(RawPair(t[p..a], t[b..c], c + 1))
  }

  /** The policy cleaning: spaces and commas dropped, o and O read as 0,
      l as 1. */
  function CleanPolicy(raw: string): (r: string)
    decreases |raw|
  {
    if raw == [] then []
    else
      var c := raw[0];
      var rest := CleanPolicy(raw[1..]);
      if c == ' ' || c == ',' then rest
      else [if c == 'o' || c == 'O' then '0' else if c == 'l' then '1' else c] + rest
  }

  /** The nature cleaning: O, Q and o read as 0, l as 1, commas dropped. */
  function CleanNatureText(raw: string): (r: string)
    decreases |raw|
  {
    if raw == [] then []
    else
      var c := raw[0];
      var rest := CleanNatureText(raw[1..]);
      if c == ',' then rest
      else [if c == 'O' || c == 'Q' || c == 'o' then '0' else if c == 'l' then '1' else c] + rest
  }

  /** `float(nature)`, or 0.0 where it raises. */
  function NatureValue(raw: string): (r: real)
    ensures r >= 0.0
  {
    match ParseDecimal(CleanNatureText(raw))
    case Some(v) => v
    case None => 0.0
  }

  datatype Pair = Pair(policyNumber: string, nature: real)

  function CleanPair(raw: RawPair): Pair
  {
    Pair(CleanPolicy(raw.policy), NatureValue(raw.nature))
  }

  /** The pairs `finditer` yields from `p` on: a match consumes its text,
      a failed position moves on by one character. */
  function PairsFrom(t: string, p: nat): seq<Pair>
    requires p <= |t|
    decreases |t| - p
  {
    if p == |t| then []
    else
      match PairAt(t, p)
      case Some(m) => [CleanPair(m)] + PairsFrom(t, m.end)
      case None => PairsFrom(t, p + 1)
  }

  /** `extract_policy_nature_pairs`: appends one cleaned pair per match. */
  method ExtractPolicyNaturePairs(bigRow: string) returns (pairs: seq<Pair>)
    ensures pairs == PairsFrom(bigRow, 0)
  {
    pairs := [];
    var p := 0;
    ghost var all := PairsFrom(bigRow, 0);
    while p < |bigRow|
      invariant p <= |bigRow|
      invariant pairs + PairsFrom(bigRow, p) == all
      decreases |bigRow| - p
    {
      var m := PairAt(bigRow, p);
      if m.Some? {
        assert PairsFrom(bigRow, p) == [CleanPair(m.value)] + PairsFrom(bigRow, m.value.end);
        pairs := pairs + [CleanPair(m.value)];
        p := m.value.end;
      } else {
        p := p + 1;
      }
    }
  }

  /** What the cleaners leave: a policy number free of the OCR letters o, O
      and l, of commas and spaces; a nature that is never negative. */
  predicate CleanedPair(pair: Pair)
  {
    pair.nature >= 0.0
    && forall k :: 0 <= k < |pair.policyNumber| ==> pair.policyNumber[k] !in {'o', 'O', 'l', ',', ' '}
  }

  lemma {:induction false} CleanPolicyChars(raw: string)
    ensures forall k :: 0 <= k < |CleanPolicy(raw)| ==> CleanPolicy(raw)[k] !in {'o', 'O', 'l', ',', ' '}
    decreases |raw|
  {
    if raw != [] {
      CleanPolicyChars(raw[1..]);
    }
  }

  /** Every pair `extract_policy_nature_pairs` returns is cleaned. */
  lemma {:induction false} PairsCleaned(t: string, p: nat)
    requires p <= |t|
    ensures forall pair <- PairsFrom(t, p) :: CleanedPair(pair)
    decreases |t| - p
  {
    if p < |t| {
      match PairAt(t, p)
      case Some(m) =>
        PairsCleaned(t, m.end);
        CleanPolicyChars(m.policy);
      case None =>
        PairsCleaned(t, p + 1);
    }
  }

  /** Every match ends with `)`: text without one yields no pairs. */
  lemma {:induction false} NoParenNoPairs(t: string, p: nat)
    requires p <= |t|
    requires forall k :: p <= k < |t| ==> t[k] != ')'
    ensures PairsFrom(t, p) == []
    decreases |t| - p
  {
    if p < |t| {
      assert PairAt(t, p).None?;
      NoParenNoPairs(t, p + 1);
    }
  }

  // =====================================================================
  // Date, debit note and premium columns
  // =====================================================================

  /** `^\d{2}/\d{2}/\d{4}$` on a stripped line. */
  predicate IsDateLine(line: string)
  {
    |line| == 10 && line[2] == '/' && line[5] == '/'
    && IsDigit(line[0]) && IsDigit(line[1]) && IsDigit(line[3]) && IsDigit(line[4])
    && AllDigits(line[6..])
  }

  /** `[\w\-?]` */
  predicate IsDebitChar(c: char)
  {
    IsWordChar(c) || c == '-' || c == '?'
  }

  /** `^B[\w\-?]+$` under IGNORECASE, on a stripped line. */
  predicate IsDebitLine(line: string)
  {
    |line| >= 2 && (line[0] == 'B' || line[0] == 'b')
    && forall k :: 1 <= k < |line| ==> IsDebitChar(line[k])
  }

  /** A debit line never looks like a date: it opens with a letter. */
  lemma DebitIsNotDate(line: string)
    requires IsDebitLine(line)
    ensures !IsDateLine(line)
  {
  }

  datatype ColumnEntry = ColumnEntry(effectiveDate: string, debitNote: Option<string>, premium: real)

  /** Where a date line's entry ends: the index of its last consumed line,
      with the debit note and premium it takes. */
  datatype Attached = Attached(debitNote: Option<string>, premium: real, last: nat)

  /** The line the debit step ends on: the next line when it has the
      debit shape, otherwise the date line itself. */
  function DebitEnd(lines: seq<string>, i: nat): (j: nat)
    requires i < |lines|
    ensures i <= j < |lines| && j <= i + 1
  {
    if i + 1 < |lines| && IsDebitLine(lines[i + 1]) then i + 1 else i
  }

  /** Whether the line after `j` is taken as a premium: it is neither a
      date nor a debit and holds a digit. */
  predicate TakesPremium(lines: seq<string>, j: nat)
  {
    j + 1 < |lines| && !IsDateLine(lines[j + 1]) && !IsDebitLine(lines[j + 1]) && HasDigit(lines[j + 1])
  }

  /** The attachment rules for the date line at `i`. */
  function Attach(lines: seq<string>, i: nat): (r: Attached)
    requires i < |lines|
    ensures i <= r.last < |lines| && r.last <= i + 2
    ensures r.premium >= 0.0
  {
    var j := DebitEnd(lines, i);
    var debit := if j > i then Some(lines[i + 1]) else None;
    if TakesPremium(lines, j) then Attached(debit, CleanNumber(lines[j + 1]), j + 1)
    else Attached(debit, 0.0, j)
  }

  /** The entries the state parser emits from line `i` on. */
  function EntriesFrom(lines: seq<string>, i: nat): seq<ColumnEntry>
    requires i <= |lines|
    decreases |lines| - i
  {
    if i == |lines| then []
    else if IsDateLine(lines[i]) then
      var a := Attach(lines, i);
      [ColumnEntry(lines[i], a.debitNote, a.premium)] + EntriesFrom(lines, a.last + 1)
    else EntriesFrom(lines, i + 1)
  }

  /** The stripped non-blank lines the state parser walks. */
  function ColumnLines(text: string): seq<string>
  {
    StrippedNonBlank(SplitLines(text))
  }

  /** One step of `EntriesFrom` on a date line. */
  lemma EntriesFromDate(lines: seq<string>, i: nat)
    requires i < |lines| && IsDateLine(lines[i])
    ensures var a := Attach(lines, i);
      EntriesFrom(lines, i) == [ColumnEntry(lines[i], a.debitNote, a.premium)] + EntriesFrom(lines, a.last + 1)
  {
  }

  /** The loop invariant survives one date line and what it takes. */
  lemma DateStep(lines: seq<string>, i: nat, entries: seq<ColumnEntry>, debitNote: Option<string>, premium: real, last: nat)
    requires i < |lines| && IsDateLine(lines[i])
    requires Attached(debitNote, premium, last) == Attach(lines, i)
    ensures (entries + [ColumnEntry(lines[i], debitNote, premium)]) + EntriesFrom(lines, last + 1)
            == entries + EntriesFrom(lines, i)
  {
    EntriesFromDate(lines, i);
  }

  /** `extract_date_debit_premium`: a `while` loop advancing `i` by hand. */
  method ExtractDateDebitPremium(text: string) returns (entries: seq<ColumnEntry>)
    ensures entries == EntriesFrom(ColumnLines(text), 0)
  {
    entries := ColumnEntries(ColumnLines(text));
  }

  /** The state parser's loop over the stripped non-blank lines. */
  method ColumnEntries(lines: seq<string>) returns (entries: seq<ColumnEntry>)
    ensures entries == EntriesFrom(lines, 0)
  {
    entries := [];
    ghost var all := EntriesFrom(lines, 0);
    var i := 0;
    while i < |lines|
      invariant i <= |lines|
      invariant entries + EntriesFrom(lines, i) == all
      decreases |lines| - i
    {
      var line := lines[i];
      if IsDateLine(line) {
        var debitNote, premium, last := AttachAt(lines, i);
        DateStep(lines, i, entries, debitNote, premium, last);
        entries := entries + [ColumnEntry(line, debitNote, premium)];
        i := last + 1;
      } else {
        i := i + 1;
      }
    }
  }

  /** The lines one date line takes: the debit-note line after it, then the
      premium line after that, each only when it is there. This is the step
      the source's loop takes, index by index with `if` statements;
      `Attach` states the same rules as a value for the specification
      scan, and the ensures ties the two. */
  method AttachAt(lines: seq<string>, i: nat) returns (debitNote: Option<string>, premium: real, last: nat)
    requires i < |lines|
    ensures Attached(debitNote, premium, last) == Attach(lines, i)
  {
    debitNote := None;
    premium := 0.0;
    last := i;
    if i + 1 < |lines| && IsDebitLine(lines[i + 1]) {
      debitNote := Some(lines[i + 1]);
      last := i + 1;
    }
    assert last == DebitEnd(lines, i);
    // the next line is the premium when it is neither a date nor a
    // debit and holds a digit
    if TakesPremium(lines, last) {
      premium := CleanNumber(lines[last + 1]);
      last := last + 1;
    }
  }

  /** The date lines among `lines[i..]`, in order. */
  function DateLines(lines: seq<string>, i: nat): seq<string>
    requires i <= |lines|
    decreases |lines| - i
  {
    if i == |lines| then []
    else if IsDateLine(lines[i]) then [lines[i]] + DateLines(lines, i + 1)
    else DateLines(lines, i + 1)
  }

  function EffectiveDates(entries: seq<ColumnEntry>): seq<string>
  {
    if entries == [] then [] else [entries[0].effectiveDate] + EffectiveDates(entries[1..])
  }

  /** A line a date entry consumes as its debit or premium is no date. */
  lemma AttachedAreNotDates(lines: seq<string>, i: nat)
    requires i < |lines|
    ensures forall k :: i < k <= Attach(lines, i).last ==> !IsDateLine(lines[k])
  {
    var j := DebitEnd(lines, i);
    var a := Attach(lines, i);
    assert a.last == j || (a.last == j + 1 && TakesPremium(lines, j));
    forall k | i < k <= a.last
      ensures !IsDateLine(lines[k])
    {
      if k <= j {
        assert k == i + 1 && IsDebitLine(lines[k]);
        DebitIsNotDate(lines[k]);
      } else {
        assert k == j + 1 && TakesPremium(lines, j);
      }
    }
  }

  lemma {:induction false} DateLinesSkip(lines: seq<string>, i: nat, j: nat)
    requires i <= j <= |lines|
    requires forall k :: i <= k < j ==> !IsDateLine(lines[k])
    ensures DateLines(lines, i) == DateLines(lines, j)
    decreases j - i
  {
    if i < j {
      DateLinesSkip(lines, i + 1, j);
    }
  }

  /** Exactly one entry per date line, in document order: a date line is
      never consumed as a debit note or a premium. */
  lemma {:induction false} OneEntryPerDateLine(lines: seq<string>, i: nat)
    requires i <= |lines|
    ensures EffectiveDates(EntriesFrom(lines, i)) == DateLines(lines, i)
    decreases |lines| - i
  {
    if i < |lines| {
      if IsDateLine(lines[i]) {
        var a := Attach(lines, i);
        AttachedAreNotDates(lines, i);
        DateLinesSkip(lines, i + 1, a.last + 1);
        OneEntryPerDateLine(lines, a.last + 1);
        var e := ColumnEntry(lines[i], a.debitNote, a.premium);
        assert ([e] + EntriesFrom(lines, a.last + 1))[1..] == EntriesFrom(lines, a.last + 1);
      } else {
        OneEntryPerDateLine(lines, i + 1);
      }
    }
  }

  /** No entry's premium is negative. */
  lemma {:induction false} EntryPremiumsNonNegative(lines: seq<string>, i: nat)
    requires i <= |lines|
    ensures forall e <- EntriesFrom(lines, i) :: e.premium >= 0.0
    decreases |lines| - i
  {
    if i < |lines| {
      if IsDateLine(lines[i]) {
        EntryPremiumsNonNegative(lines, Attach(lines, i).last + 1);
      } else {
        EntryPremiumsNonNegative(lines, i + 1);
      }
    }
  }

  /** The entries the state parser emits have the column lines' length
      bound: one per date line. */
  lemma {:induction false} EffectiveDatesLength(entries: seq<ColumnEntry>)
    ensures |EffectiveDates(entries)| == |entries|
    decreases |entries|
  {
    if entries != [] {
      EffectiveDatesLength(entries[1..]);
    }
  }

  // =====================================================================
  // The header entry
  // =====================================================================

  /** Index of the first date line at or after `i`. */
  function FirstDateFrom(lines: seq<string>, i: nat): (r: Option<nat>)
    requires i <= |lines|
    decreases |lines| - i
    ensures r.Some? ==> i <= r.value < |lines| && IsDateLine(lines[r.value])
    ensures r.Some? ==> forall m :: i <= m < r.value ==> !IsDateLine(lines[m])
    ensures r.None? ==> forall m :: i <= m < |lines| ==> !IsDateLine(lines[m])
  {
    if i == |lines| then None
    else if IsDateLine(lines[i]) then Some(i)
    else FirstDateFrom(lines, i + 1)
  }

  /** The header premium: the line just above the first date line, cleaned,
      when there is such a line and it holds a digit; 0.0 otherwise. */
  function HeaderPremiumOf(lines: seq<string>): (r: real)
    ensures r >= 0.0
  {
    match FirstDateFrom(lines, 0)
    case None => 0.0
    case Some(k) => if k > 0 && HasDigit(lines[k - 1]) then CleanNumber(lines[k - 1]) else 0.0
  }

  /** `extract_header_premium_from_block`: a `for` loop that stops at the
      first date line. */
  method HeaderPremium(text: string) returns (premium: real)
    ensures premium == HeaderPremiumOf(ColumnLines(text))
  {
    var lines := ColumnLines(text);
    var i := 0;
    while i < |lines|
      invariant i <= |lines|
      invariant FirstDateFrom(lines, 0) == FirstDateFrom(lines, i)
    {
      if IsDateLine(lines[i]) {
        if i > 0 && HasDigit(lines[i - 1]) {
          return CleanNumber(lines[i - 1]);
        }
        break;
      }
      i := i + 1;
    }
    return 0.0;
  }

  /** The first date line is the effective date of the first column entry;
      with no date line there is no column entry. */
  lemma FirstDateIsFirstEntry(lines: seq<string>, i: nat)
    requires i <= |lines|
    ensures FirstDateFrom(lines, i).None? <==> EntriesFrom(lines, i) == []
    ensures FirstDateFrom(lines, i).Some? ==>
      EntriesFrom(lines, i)[0].effectiveDate == lines[FirstDateFrom(lines, i).value]
  {
    OneEntryPerDateLine(lines, i);
    match FirstDateFrom(lines, i)
    case None =>
      DateLinesSkip(lines, i, |lines|);
      EffectiveDatesLength(EntriesFrom(lines, i));
    case Some(k) =>
      DateLinesSkip(lines, i, k);
      assert DateLines(lines, i)[0] == lines[k];
  }

  /** `[\w\-?]` run. */
  function SkipDebitChars(s: string, i: nat): (j: nat)
    requires i <= |s|
    decreases |s| - i
    ensures i <= j <= |s|
    ensures forall k :: i <= k < j ==> IsDebitChar(s[k])
  {
    if i < |s| && IsDebitChar(s[i]) then SkipDebitChars(s, i + 1) else i
  }

  /** One match at `p` of
      `EFFECTIVE\s+DATE\s+DEBIT\s+NOTE\s+NO\.\s*(\d{2}/\d{2}/\d{4})\s+(B[\w\-?]+)`
      under IGNORECASE: the date and the debit note. Each `\s` run is
      followed by a non-space, so the greedy runs are the only match. */
  function HeaderAt(t: string, p: nat): (r: Option<(string, string)>)
    requires p <= |t|
    ensures r.Some? ==> IsDateLine(r.value.0) && IsDebitLine(r.value.1)
    ensures r.Some? ==> MatchAtCI(t, p, "EFFECTIVE")
  {
    if !MatchAtCI(t, p, "EFFECTIVE") then None
    else
      var a := SkipSpace(t, p + 9);
      if a == p + 9 || !MatchAtCI(t, a, "DATE") then None
      else
        var b := SkipSpace(t, a + 4);
        if b == a + 4 || !MatchAtCI(t, b, "DEBIT") then None
        else
          var c := SkipSpace(t, b + 5);
          if c == b + 5 || !MatchAtCI(t, c, "NOTE") then None
          else
            var d := SkipSpace(t, c + 4);
            if d == c + 4 || !MatchAtCI(t, d, "NO.") then None
            else
              var e := SkipSpace(t, d + 3);
              if e + 10 > |t| || !IsDateLine(t[e..e + 10]) then None
              else
                var f := SkipSpace(t, e + 10);
                if f == e + 10 || f == |t| || (t[f] != 'B' && t[f] != 'b') then None
                else
                  var g := SkipDebitChars(t, f + 1);
                  if g == f + 1 then None
                  else Some((t[e..e + 10], t[f..g]))
  }

  /** The outcome of trying the header pattern at each position of `t`. */
  function HeaderTable(t: string): (hs: seq<Option<(string, string)>>)
    ensures |hs| == |t| + 1
    ensures forall q :: 0 <= q <= |t| ==> hs[q] == HeaderAt(t, q)
  {
    seq(|t| + 1, q requires 0 <= q <= |t| => HeaderAt(t, q))
  }

  /** `re.search` of the header pattern from `p`. */
  function FindHeader(t: string, p: nat): (r: Option<(string, string)>)
    requires p <= |t|
    ensures r.Some? ==> IsDateLine(r.value.0) && IsDebitLine(r.value.1)
  {
    FirstSome(HeaderTable(t), p)
  }

  /** The search fails exactly when the pattern matches at no position. */
  lemma FindHeaderNone(t: string, p: nat)
    requires p <= |t|
    ensures FindHeader(t, p).None? <==> forall q :: p <= q <= |t| ==> HeaderAt(t, q).None?
  {
    var hs := HeaderTable(t);
    assert forall q :: p <= q <= |t| ==> hs[q] == HeaderAt(t, q);
  }

  /** `extract_header_entry`: the header's date and debit note, with the
      header premium. */
  function HeaderEntries(t: string): (r: seq<ColumnEntry>)
    ensures |r| <= 1
    ensures r != [] ==> IsDateLine(r[0].effectiveDate) && r[0].debitNote.Some?
  {
    match FindHeader(t, 0)
    case None => []
    case Some(h) => [ColumnEntry(h.0, Some(h.1), HeaderPremiumOf(ColumnLines(t)))]
  }

  /** Without the word EFFECTIVE, in any case, there is no header entry. */
  lemma NoKeywordNoHeader(t: string, p: nat)
    requires p <= |t|
    requires forall q :: p <= q <= |t| ==> !MatchAtCI(t, q, "EFFECTIVE")
    ensures FindHeader(t, p).None?
  {
    FindHeaderNone(t, p);
  }

  // =====================================================================
  // The premium block and the alignment by index
  // =====================================================================

  /** `PREM[1I]UM` under IGNORECASE at `p`. */
  predicate PremiumWordAt(t: string, p: nat)
  {
    p + 7 <= |t| && MatchAtCI(t, p, "PREM") && t[p + 4] in {'1', 'I', 'i'}
    && MatchAtCI(t, p + 5, "UM")
  }

  /** `T[O0]TAL\s+HXS` under IGNORECASE at `q`. */
  predicate TotalAt(t: string, q: nat)
  {
    q + 5 <= |t| && SameCI(t[q], 'T') && t[q + 1] in {'O', 'o', '0'}
    && MatchAtCI(t, q + 2, "TAL")
    && var s := SkipSpace(t, q + 5); s > q + 5 && MatchAtCI(t, s, "HXS")
  }

  /** The first terminator at or after `q`. */
  function FindTotal(t: string, q: nat): (r: Option<nat>)
    requires q <= |t|
    decreases |t| - q
    ensures r.Some? ==> q <= r.value <= |t| && TotalAt(t, r.value)
    ensures r.Some? ==> forall m :: q <= m < r.value ==> !TotalAt(t, m)
    ensures r.None? ==> forall m :: q <= m <= |t| ==> !TotalAt(t, m)
  {
    if TotalAt(t, q) then Some(q)
    else if q == |t| then None
    else FindTotal(t, q + 1)
  }

  /** One match at `p` of `PREM[1I]UM\s*(.*?)(?:T[O0]TAL)\s+HXS` under
      DOTALL and IGNORECASE: the lazy group runs from the end of the
      spaces to the first terminator. Giving back spaces to the group
      cannot help, since a terminator opens with T. */
  function BigRowAt(t: string, p: nat): (r: Option<string>)
    requires p <= |t|
  {
    if !PremiumWordAt(t, p) then None
    else
      var s := SkipSpace(t, p + 7);
      match FindTotal(t, s)
      case None => None
      case Some(q) => Some(t[s..q])
  }

  /** `re.search` of the premium-block pattern from `p`. */
  function FindBigRow(t: string, p: nat): (r: Option<string>)
    requires p <= |t|
    decreases |t| - p
    ensures r.None? <==> forall q :: p <= q <= |t| ==> BigRowAt(t, q).None?
  {
    if BigRowAt(t, p).Some? then BigRowAt(t, p)
    else if p == |t| then None
    else FindBigRow(t, p + 1)
  }

  /** Without a terminator there is no premium block. */
  lemma NoTotalNoBigRow(t: string)
    requires forall q :: 0 <= q <= |t| ==> !TotalAt(t, q)
    ensures FindBigRow(t, 0).None?
  {
    forall q | 0 <= q <= |t|
      ensures BigRowAt(t, q).None?
    {
      if PremiumWordAt(t, q) {
        var s := SkipSpace(t, q + 7);
        assert FindTotal(t, s).None?;
      }
    }
  }

  /** The (policy, nature) pairs read from the premium block, if any. */
  function PolicyPairs(t: string): seq<Pair>
  {
    match FindBigRow(t, 0)
    case None => []
    case Some(bigRow) => PairsFrom(bigRow, 0)
  }

  /** The structured entries: the header entry, if any, then the column
      entries. */
  function StructuredEntries(t: string): seq<ColumnEntry>
  {
    HeaderEntries(t) + EntriesFrom(ColumnLines(t), 0)
  }

  /** A statement entry. */
  datatype Entry = Entry(
    effectiveDate: string,
    debitNote: Option<string>,
    policyNumber: Option<string>,
    nature: Option<real>,
    premium: real)

  /** Entry `i` takes its date, debit note and premium from structured
      entry `i` and its policy and nature from pair `i`, when there is
      one. */
  predicate AlignedWith(entries: seq<Entry>, structured: seq<ColumnEntry>, pairs: seq<Pair>)
  {
    |entries| == |structured|
    && forall i :: 0 <= i < |entries| ==>
      entries[i].effectiveDate == structured[i].effectiveDate
      && entries[i].debitNote == structured[i].debitNote
      && entries[i].premium == structured[i].premium
      && entries[i].policyNumber == (if i < |pairs| then Some(pairs[i].policyNumber) else None)
      && entries[i].nature == (if i < |pairs| then Some(pairs[i].nature) else None)
  }

  /** The alignment loop of `parse_entries`. */
  method AlignByIndex(structured: seq<ColumnEntry>, pairs: seq<Pair>) returns (entries: seq<Entry>)
    ensures AlignedWith(entries, structured, pairs)
  {
    entries := [];
    var i := 0;
    while i < |structured|
      invariant i <= |structured|
      invariant AlignedWith(entries, structured[..i], pairs)
    {
      var policy: Option<string> := None;
      var nature: Option<real> := None;
      if i < |pairs| {
        policy := Some(pairs[i].policyNumber);
        nature := Some(pairs[i].nature);
      }
      entries := entries + [Entry(structured[i].effectiveDate, structured[i].debitNote, policy, nature, structured[i].premium)];
      i := i + 1;
    }
    assert structured[..i] == structured;
  }

  /** `parse_entries`. */
  method ParseEntries(normalizedText: string) returns (entries: seq<Entry>)
    ensures var t := ApplyRules(normalizedText, GlobalOcrReplacements);
      AlignedWith(entries, StructuredEntries(t), PolicyPairs(t))
  {
    var text := CleanGlobalOcr(normalizedText);
    var pairs: seq<Pair> := [];
    var bigRow := FindBigRow(text, 0);
    if bigRow.Some? {
      pairs := ExtractPolicyNaturePairs(bigRow.value);
    }
    var structured: seq<ColumnEntry> := [];
    var header := FindHeader(text, 0);
    if header.Some? {
      var premium := HeaderPremium(text);
      structured := [ColumnEntry(header.value.0, Some(header.value.1), premium)];
    }
    var columns := ExtractDateDebitPremium(text);
    structured := structured + columns;
    entries := AlignByIndex(structured, pairs);
  }

  /** One structured entry for the header, if any, and one per date line. */
  lemma EntryCount(t: string)
    ensures |StructuredEntries(t)| == |HeaderEntries(t)| + |DateLines(ColumnLines(t), 0)|
  {
    OneEntryPerDateLine(ColumnLines(t), 0);
    EffectiveDatesLength(EntriesFrom(ColumnLines(t), 0));
  }

  /** No structured entry has a negative premium. */
  lemma StructuredPremiumsNonNegative(t: string)
    ensures forall e <- StructuredEntries(t) :: e.premium >= 0.0
  {
    EntryPremiumsNonNegative(ColumnLines(t), 0);
  }

  /** Every policy number an entry carries is cleaned, and every nature is
      non-negative. */
  lemma AlignedPoliciesCleaned(entries: seq<Entry>, t: string)
    requires AlignedWith(entries, StructuredEntries(t), PolicyPairs(t))
    ensures forall e <- entries :: e.policyNumber.Some? ==> CleanedPair(Pair(e.policyNumber.value, e.nature.value))
  {
    match FindBigRow(t, 0)
    case None =>
    case Some(bigRow) => PairsCleaned(bigRow, 0);
  }

  /** Without a `TOTAL HXS` terminator no entry has a policy number. */
  lemma NoTotalNoPolicies(entries: seq<Entry>, t: string)
    requires AlignedWith(entries, StructuredEntries(t), PolicyPairs(t))
    requires forall q :: 0 <= q <= |t| ==> !TotalAt(t, q)
    ensures forall e <- entries :: e.policyNumber.None? && e.nature.None?
  {
    NoTotalNoBigRow(t);
  }

  // =====================================================================
  // The statement record
  // =====================================================================

  datatype Statement = Statement(
    issueDate: string,
    premiumDueDate: string,
    accountNumber: string,
    address: string,
    totalPremiumDue: real,
    entries: seq<Entry>,
    warnings: seq<string>)

  const MissingPolicyWarning: string := "Some policy numbers missing or unreliable."

  /** The sum of the entries' premiums. */
  function SumPremiums(entries: seq<Entry>): real
  {
    if entries == [] then 0.0 else entries[0].premium + SumPremiums(entries[1..])
  }

  lemma {:induction false} SumPremiumsNonNegative(entries: seq<Entry>)
    requires forall e <- entries :: e.premium >= 0.0
    ensures SumPremiums(entries) >= 0.0
    decreases |entries|
  {
    if entries != [] {
      assert entries[0] in entries;
      SumPremiumsNonNegative(entries[1..]);
    }
  }

  /** Rounding a non-negative amount never gives a negative one. */
  lemma Round2NonNegative(x: real)
    requires x >= 0.0
    ensures Round2(x) >= 0.0
  {
    var r := Round2(x);
    assert r * 100.0 >= -0.5;
  }

  /** `not e.get('policy_number')`: the policy is missing or empty. */
  predicate MissingPolicy(e: Entry)
  {
    e.policyNumber.None? || e.policyNumber == Some("")
  }

  /** What `parse_account_statement_text` gives for a text. */
  predicate StatementFrom(rawText: string, st: Statement)
  {
    var text := OcrCorrected(rawText, false);
    var t := ApplyRules(text, GlobalOcrReplacements);
    && st.issueDate == ExtractIssueDate(text)
    && st.premiumDueDate == ExtractPremiumDueDate(text)
    && st.accountNumber == ExtractAccountNumber(text)
    && st.address == Join(AddressLinesFrom(SplitLines(text), 0, false), " ")
    && AlignedWith(st.entries, StructuredEntries(t), PolicyPairs(t))
    && st.totalPremiumDue == Round2(SumPremiums(st.entries))
    && st.warnings == (if exists e <- st.entries :: MissingPolicy(e) then [MissingPolicyWarning] else [])
  }

  /** `parse_account_statement_text`; the name passed in is not used. */
  method ParseAccountStatementText(rawText: string, insuredOrAgent: string) returns (st: Statement)
    ensures StatementFrom(rawText, st)
    ensures st.totalPremiumDue >= 0.0
  {
    var text := ApplyOcrCorrections(rawText, false);
    var issueDate := ExtractIssueDate(text);
    var premiumDueDate := ExtractPremiumDueDate(text);
    var accountNumber := ExtractAccountNumber(text);
    var address := ExtractAddress(text);
    var entries := ParseEntries(text);
    var total := Round2(SumPremiums(entries));
    if total == 0.0 {
      // the second sum reads the same premiums
      total := Round2(SumPremiums(entries));
    }
    ghost var t := ApplyRules(text, GlobalOcrReplacements);
    StructuredPremiumsNonNegative(t);
    assert forall e <- entries :: e.premium >= 0.0 by {
      forall e <- entries
        ensures e.premium >= 0.0
      {
        var i :| 0 <= i < |entries| && entries[i] == e;
        assert StructuredEntries(t)[i] in StructuredEntries(t);
      }
    }
    SumPremiumsNonNegative(entries);
    Round2NonNegative(SumPremiums(entries));
    var warnings: seq<string> := [];
    if exists e <- entries :: MissingPolicy(e) {
      warnings := [MissingPolicyWarning];
    }
    st := Statement(issueDate, premiumDueDate, accountNumber, address, total, entries, warnings);
  }

  /** The warning is raised whenever the premium block yields fewer pairs
      than there are entries: an entry past the last pair has no policy. */
  lemma MoreEntriesThanPairsWarns(rawText: string, st: Statement)
    requires StatementFrom(rawText, st)
    requires |PolicyPairs(ApplyRules(OcrCorrected(rawText, false), GlobalOcrReplacements))| < |st.entries|
    ensures st.warnings == [MissingPolicyWarning]
  {
    var t := ApplyRules(OcrCorrected(rawText, false), GlobalOcrReplacements);
    ShortPairsMissPolicy(st.entries, StructuredEntries(t), PolicyPairs(t));
  }

  /** Entries past the last pair carry no policy. */
  lemma ShortPairsMissPolicy(entries: seq<Entry>, structured: seq<ColumnEntry>, pairs: seq<Pair>)
    requires AlignedWith(entries, structured, pairs) && |pairs| < |entries|
    ensures exists e <- entries :: MissingPolicy(e)
  {
    assert entries[|pairs|] in entries;
  }
}
