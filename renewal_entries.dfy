/** `extract_renewal_entries`: the table of employee classes and their
    earnings between EMPLOYEES and TOTAL (ocr/renewal_notice_parser.py). */
module RenewalEntries {
  import opened Text
  import opened Numbers
  import opened RenewalText

  // ---------------------------------------------------------------------
  // The block: EMPLOYEES.*?(?=TOTAL)  (IGNORECASE | DOTALL)
  // ---------------------------------------------------------------------

  /** End of the block when EMPLOYEES starts at `p`: the first TOTAL after it. */
  function BlockEndAt(t: string, p: nat): (r: Option<nat>)
    ensures r.Some? ==> MatchAtCI(t, p, "EMPLOYEES") && p + 9 <= r.value && MatchAtCI(t, r.value, "TOTAL")
    ensures r.Some? ==> forall k :: p + 9 <= k < r.value ==> !MatchAtCI(t, k, "TOTAL")
  {
    if MatchAtCI(t, p, "EMPLOYEES") then FindCI(t, "TOTAL", p + 9) else None
  }

  /** The span of the first block at or after `p`. */
  function FindBlock(t: string, p: nat): (r: Option<(nat, nat)>)
    decreases |t| + 1 - p
    ensures r.Some? ==> p <= r.value.0 && BlockEndAt(t, r.value.0) == Some(r.value.1)
    ensures r.Some? ==> forall k :: p <= k < r.value.0 ==> BlockEndAt(t, k).None?
  {
    if p > |t| then None
    else match BlockEndAt(t, p)
      case Some(q) => Some((p, q))
      case None => FindBlock(t, p + 1)
  }

  lemma {:induction false} BlockSearchSkips(t: string, k: nat, p: nat)
    requires k <= p && forall j :: k <= j < p ==> !MatchAtCI(t, j, "EMPLOYEES")
    ensures FindBlock(t, k) == FindBlock(t, p)
    decreases p - k
  {
    if k < p {
      BlockSearchStep(t, k);
      BlockSearchSkips(t, k + 1, p);
    }
  }

  /** The search moves past a position without EMPLOYEES. */
  lemma BlockSearchStep(t: string, k: nat)
    requires !MatchAtCI(t, k, "EMPLOYEES")
    ensures FindBlock(t, k) == FindBlock(t, k + 1)
  {
    assert BlockEndAt(t, k).None?;
  }

  lemma {:induction false} BlockSearchFails(t: string, k: nat, p: nat)
    requires p < k && FindCI(t, "TOTAL", p + 9).None?
    ensures FindBlock(t, k).None?
    decreases |t| + 1 - k
  {
    if k <= |t| {
      assert BlockEndAt(t, k).None?;
      BlockSearchFails(t, k + 1, p);
    }
  }

  /** Without EMPLOYEES there is no block. */
  lemma NoEmployeesNoBlock(t: string)
    requires FindCI(t, "EMPLOYEES", 0).None?
    ensures FindBlock(t, 0).None?
  {
    BlockSearchSkips(t, 0, |t| + 1);
  }

  /** The search settles at the first EMPLOYEES: the block runs from there to
      the first TOTAL after it, and when no TOTAL follows it there is no
      block at all (a later EMPLOYEES has even less text after it). */
  lemma BlockAtFirstEmployees(t: string, p: nat)
    requires FindCI(t, "EMPLOYEES", 0) == Some(p)
    ensures FindCI(t, "TOTAL", p + 9).Some? ==> FindBlock(t, 0) == Some((p, FindCI(t, "TOTAL", p + 9).value))
    ensures FindCI(t, "TOTAL", p + 9).None? ==> FindBlock(t, 0).None?
  {
    BlockSearchSkips(t, 0, p);
    if FindCI(t, "TOTAL", p + 9).None? {
      BlockSearchFails(t, p + 1, p);
    }
  }

  /** `[line.strip() for line in block.split("\n") if line.strip()]`, or
      None when there is no block. */
  function BlockLines(t: string): Option<seq<string>>
  {
    match FindBlock(t, 0)
    case None => None
    case Some((p, q)) => Some(StrippedNonBlank(SplitOn(t[p..q], '\n')))
  }

  /** The first kept line of the block is the EMPLOYEES line: it starts
      with EMPLOYEES, so `lines[1]` is the next non-blank line. */
  lemma BlockFirstLine(t: string)
    requires BlockLines(t).Some?
    ensures |BlockLines(t).value| >= 1 && MatchAtCI(BlockLines(t).value[0], 0, "EMPLOYEES")
  {
    var p, q := FindBlock(t, 0).value.0, FindBlock(t, 0).value.1;
    assert BlockLines(t) == Some(StrippedNonBlank(SplitOn(t[p..q], '\n')));
    BlockFirstLineAt(t, p, q);
  }

  lemma BlockFirstLineAt(t: string, p: nat, q: nat)
    requires p + 9 <= q <= |t| && MatchAtCI(t, p, "EMPLOYEES")
    ensures var lines := StrippedNonBlank(SplitOn(t[p..q], '\n'));
      |lines| >= 1 && MatchAtCI(lines[0], 0, "EMPLOYEES")
  {
    var b := t[p..q];
    BlockStartsWithLabel(t, p, q, b);
    var pieces := SplitOn(b, '\n');
    FirstPieceStarts(b, pieces);
    EmployeesIsUpper();
    FirstLineKept(pieces[0], "EMPLOYEES");
    FirstKeptLine(pieces);
  }

  lemma EmployeesIsUpper()
    ensures forall k :: 0 <= k < |"EMPLOYEES"| ==> IsUpperLetter("EMPLOYEES"[k])
  {
    var w := "EMPLOYEES";
    assert w[0] == 'E' && w[1] == 'M' && w[2] == 'P' && w[3] == 'L' && w[4] == 'O';
    assert w[5] == 'Y' && w[6] == 'E' && w[7] == 'E' && w[8] == 'S';
  }

  lemma BlockStartsWithLabel(t: string, p: nat, q: nat, b: string)
    requires p + 9 <= q <= |t| && MatchAtCI(t, p, "EMPLOYEES") && b == t[p..q]
    ensures MatchAtCI(b, 0, "EMPLOYEES")
  {
    forall k | 0 <= k < 9 ensures SameCI(b[k], "EMPLOYEES"[k]) {
      assert b[k] == t[p + k];
    }
  }

  /** A text that starts with a word of letters has that word in its first
      line. */
  lemma FirstPieceStarts(b: string, pieces: seq<string>)
    requires MatchAtCI(b, 0, "EMPLOYEES") && pieces == SplitOn(b, '\n')
    ensures MatchAtCI(pieces[0], 0, "EMPLOYEES")
  {
    forall k | 0 <= k < 9 ensures b[k] != '\n' {
      assert SameCI(b[k], "EMPLOYEES"[k]);
    }
    match IndexOf(b, '\n', 0)
    case None =>
    case Some(i) =>
      assert b[i] == '\n';
      assert i >= 9;
      forall k | 0 <= k < 9 ensures SameCI(pieces[0][k], "EMPLOYEES"[k]) {
        assert pieces[0][k] == b[k];
      }
  }

  /** A line that starts with a word of letters keeps that start when
      stripped. */
  lemma FirstLineKept(s: string, w: string)
    requires |w| >= 1 && MatchAtCI(s, 0, w)
    requires forall k :: 0 <= k < |w| ==> IsUpperLetter(w[k])
    ensures Strip(s) != [] && MatchAtCI(Strip(s), 0, w)
  {
    forall k | 0 <= k < |w| ensures !IsSpace(s[k]) {
      assert SameCI(s[k], w[k]);
    }
    var i := StripSlice(s);
    assert !IsSpace(s[0]);
    assert i == 0;
    assert !IsSpace(s[|w| - 1]);
    assert |Strip(s)| >= |w|;
    forall k | 0 <= k < |w| ensures SameCI(Strip(s)[k], w[k]) {
      assert Strip(s)[k] == s[k];
    }
  }

  lemma FirstKeptLine(pieces: seq<string>)
    requires |pieces| >= 1 && Strip(pieces[0]) != []
    ensures |StrippedNonBlank(pieces)| >= 1 && StrippedNonBlank(pieces)[0] == Strip(pieces[0])
  {
  }

  // ---------------------------------------------------------------------
  // The labels line
  // ---------------------------------------------------------------------

  /** The characters `[A-Za-z0-9\s\-/\(\)]` that survive the clean-up. */
  predicate IsLabelChar(c: char)
  {
    IsAlnum(c) || IsSpace(c) || c == '-' || c == '/' || c == '(' || c == ')'
  }

  /** `re.sub(r"[^A-Za-z0-9\s\-/\(\)]", "", s)`. */
  function KeepLabelChars(s: string): (r: string)
    ensures |r| <= |s|
    ensures forall k :: 0 <= k < |r| ==> IsLabelChar(r[k])
    decreases |s|
  {
    if s == [] then [] else (if IsLabelChar(s[0]) then [s[0]] else []) + KeepLabelChars(s[1..])
  }

  /** A line that is already clean is left as it is. */
  lemma {:induction false} KeepLabelCharsClean(s: string)
    requires forall k :: 0 <= k < |s| ==> IsLabelChar(s[k])
    ensures KeepLabelChars(s) == s
    decreases |s|
  {
    if s != [] {
      KeepLabelCharsClean(s[1..]);
    }
  }

  /** The clean-up works character by character. */
  lemma {:induction false} KeepLabelCharsAppend(a: string, b: string)
    ensures KeepLabelChars(a + b) == KeepLabelChars(a) + KeepLabelChars(b)
    decreases |a|
  {
    if a == [] {
      assert a + b == b;
    } else {
      assert (a + b)[1..] == a[1..] + b;
      KeepLabelCharsAppend(a[1..], b);
    }
  }

  /** Cleaning twice is cleaning once. */
  lemma KeepLabelCharsIdempotent(s: string)
    ensures KeepLabelChars(KeepLabelChars(s)) == KeepLabelChars(s)
  {
    KeepLabelCharsClean(KeepLabelChars(s));
  }

  /** Where `re.split(r"\s(?=\d[\.\-]?)", s)` cuts: a whitespace character
      followed by a digit (the optional point or hyphen after the digit
      never changes whether the lookahead holds). */
  predicate CutAt(s: string, k: nat)
  {
    k + 1 < |s| && IsSpace(s[k]) && IsDigit(s[k + 1])
  }

  function FirstCut(s: string, from: nat): (r: Option<nat>)
    decreases |s| - from
    ensures r.Some? ==> from <= r.value && CutAt(s, r.value)
    ensures r.Some? ==> forall k :: from <= k < r.value ==> !CutAt(s, k)
    ensures r.None? ==> forall k :: from <= k ==> !CutAt(s, k)
  {
    if from + 1 >= |s| then None
    else if CutAt(s, from) then Some(from)
    else FirstCut(s, from + 1)
  }

  /** A prefix that ends before the first cut has no cut of its own. */
  lemma NoCutInPrefix(s: string, n: nat)
    requires n <= |s| && forall k :: 0 <= k < n ==> !CutAt(s, k)
    ensures forall k :: !CutAt(s[..n], k)
  {
    forall k: nat | CutAt(s[..n], k) ensures false {
      assert s[..n][k] == s[k] && s[..n][k + 1] == s[k + 1];
      assert CutAt(s, k);
    }
  }

  /** The pieces of `re.split(r"\s(?=\d[\.\-]?)", s)`: no piece has a cut
      left inside it, every piece after the first starts with a digit, and
      the first piece is the start of the text. */
  function SplitAtCuts(s: string): (r: seq<string>)
    decreases |s|
    ensures |r| >= 1 && |r[0]| <= |s| && r[0] == s[..|r[0]|]
    ensures s != [] && !IsSpace(s[0]) ==> r[0] != []
    ensures forall j, k: nat :: 0 <= j < |r| ==> !CutAt(r[j], k)
    ensures forall j :: 1 <= j < |r| ==> r[j] != [] && IsDigit(r[j][0])
  {
    match FirstCut(s, 0)
    case None => [s]
    case Some(k) =>
      NoCutInPrefix(s, k);
      var rest := SplitAtCuts(s[k + 1..]);
      assert s[k + 1..][0] == s[k + 1];
      [s[..k]] + rest
  }

  /** When every cut falls on a plain space, joining the pieces with spaces
      gives the text back. */
  lemma {:induction false} SplitAtCutsJoin(s: string)
    requires forall k: nat :: CutAt(s, k) ==> s[k] == ' '
    ensures Join(SplitAtCuts(s), " ") == s
    decreases |s|
  {
    match FirstCut(s, 0)
    case None =>
    case Some(k) =>
      var rest := s[k + 1..];
      CutsOfRest(s, k, rest);
      SplitAtCutsJoin(rest);
      var pieces := SplitAtCuts(rest);
      assert SplitAtCuts(s) == [s[..k]] + pieces;
      JoinAtCut(s, k, pieces);
  }

  /** The text after a cut keeps the plain-space cuts. */
  lemma CutsOfRest(s: string, k: nat, rest: string)
    requires k < |s| && rest == s[k + 1..]
    requires forall j: nat :: CutAt(s, j) ==> s[j] == ' '
    ensures forall j: nat :: CutAt(rest, j) ==> rest[j] == ' '
  {
    forall j: nat | CutAt(rest, j) ensures rest[j] == ' ' {
      assert rest[j] == s[k + 1 + j] && rest[j + 1] == s[k + 2 + j];
      assert CutAt(s, k + 1 + j);
    }
  }

  /** Joining the piece before a space with the pieces after it. */
  lemma JoinAtCut(s: string, k: nat, pieces: seq<string>)
    requires k < |s| && s[k] == ' ' && |pieces| >= 1
    requires Join(pieces, " ") == s[k + 1..]
    ensures Join([s[..k]] + pieces, " ") == s
  {
    JoinCons(s[..k], pieces, " ");
    assert s == s[..k] + " " + s[k + 1..];
  }

  lemma JoinCons(x: string, rest: seq<string>, sep: string)
    requires |rest| >= 1
    ensures Join([x] + rest, sep) == x + sep + Join(rest, sep)
  {
    assert ([x] + rest)[1..] == rest;
  }

  /** `lines[1] if len(lines) > 1 else ""`. */
  function LabelsLine(lines: seq<string>): string
  {
    if |lines| > 1 then lines[1] else ""
  }

  /** The labels: the line after the EMPLOYEES line, cleaned, cut before
      every number, each piece stripped and the blank ones dropped. */
  function Labels(lines: seq<string>): (r: seq<string>)
    ensures forall l <- r :: l != [] && Strip(l) == l
  {
    var pieces := SplitAtCuts(KeepLabelChars(LabelsLine(lines)));
    StrippedNonBlankShape(pieces);
    StrippedNonBlank(pieces)
  }

  /** `lines[2:]`. */
  function AmountLines(lines: seq<string>): seq<string>
  {
    if |lines| > 2 then lines[2..] else []
  }

  // ---------------------------------------------------------------------
  // Numbers on an amount line: [\d,]+\.\d+|[\d,]+
  // ---------------------------------------------------------------------

  predicate IsNumChar(c: char) { IsDigit(c) || c == ',' }

  /** End of the run of digits and commas starting at `i`. */
  function SkipNumChars(s: string, i: nat): (j: nat)
    requires i <= |s|
    decreases |s| - i
    ensures i <= j <= |s|
    ensures forall k :: i <= k < j ==> IsNumChar(s[k])
    ensures j == |s| || !IsNumChar(s[j])
  {
    if i < |s| && IsNumChar(s[i]) then SkipNumChars(s, i + 1) else i
  }

  /** End of the match of `[\d,]+\.\d+|[\d,]+` starting at `i`, if any: the
      first alternative when the run is followed by a point and a digit. */
  function NumberAt(s: string, i: nat): (r: Option<nat>)
    requires i <= |s|
    ensures r.Some? ==> i < r.value <= |s|
  {
    var e := SkipNumChars(s, i);
    if e == i then None
    else if e + 1 < |s| && s[e] == '.' && IsDigit(s[e + 1]) then Some(SkipDigits(s, e + 1))
    else Some(e)
  }

  /** The shape of a match: digits and commas, then possibly a point and at
      least one digit. */
  predicate NumberShape(tok: string)
  {
    match IndexOf(tok, '.', 0)
    case None => tok != [] && forall k :: 0 <= k < |tok| ==> IsNumChar(tok[k])
    case Some(d) =>
      0 < d && d + 1 < |tok|
      && (forall k :: 0 <= k < d ==> IsNumChar(tok[k]))
      && (forall k :: d < k < |tok| ==> IsDigit(tok[k]))
  }

  lemma NumberAtShape(s: string, i: nat)
    requires i <= |s| && NumberAt(s, i).Some?
    ensures NumberShape(s[i..NumberAt(s, i).value])
  {
    var e0 := SkipNumChars(s, i);
    var e := NumberAt(s, i).value;
    var tok := s[i..e];
    assert forall k :: 0 <= k < |tok| ==> tok[k] == s[i + k];
    if e == e0 {
      assert forall k :: 0 <= k < |tok| ==> IsNumChar(tok[k]);
    } else {
      var d := e0 - i;
      assert tok[d] == '.';
      assert forall k :: 0 <= k < d ==> IsNumChar(tok[k]);
      assert IndexOf(tok, '.', 0) == Some(d);
    }
  }

  /** `re.findall(r"[\d,]+\.\d+|[\d,]+", s[i..])`. */
  function NumberTokens(s: string, i: nat): seq<string>
    requires i <= |s|
    decreases |s| - i
  {
    if i == |s| then []
    else match NumberAt(s, i)
      case Some(e) => [s[i..e]] + NumberTokens(s, e)
      case None => NumberTokens(s, i + 1)
  }

  /** Every token has the shape of a match. */
  lemma {:induction false} NumberTokensShape(s: string, i: nat)
    requires i <= |s|
    ensures forall tok <- NumberTokens(s, i) :: NumberShape(tok)
    decreases |s| - i
  {
    if i < |s| {
      match NumberAt(s, i)
      case Some(e) =>
        NumberAtShape(s, i);
        NumberTokensShape(s, e);
      case None =>
        NumberTokensShape(s, i + 1);
    }
  }

  /** No digit is lost: the digits of the tokens, in order, are the digits
      of the line. */
  lemma {:induction false} NumberTokensDigits(s: string, i: nat)
    requires i <= |s|
    ensures OnlyDigits(Flatten(NumberTokens(s, i))) == OnlyDigits(s[i..])
    decreases |s| - i
  {
    if i < |s| {
      match NumberAt(s, i)
      case Some(e) =>
        var rest := NumberTokens(s, e);
        NumberTokensDigits(s, e);
        TokenThenRest(s, i, e, rest);
      case None =>
        NumberTokensDigits(s, i + 1);
        SkippedChar(s, i);
    }
  }

  lemma TokenThenRest(s: string, i: nat, e: nat, rest: seq<string>)
    requires i < e <= |s| && NumberAt(s, i) == Some(e) && rest == NumberTokens(s, e)
    requires OnlyDigits(Flatten(rest)) == OnlyDigits(s[e..])
    ensures OnlyDigits(Flatten(NumberTokens(s, i))) == OnlyDigits(s[i..])
  {
    var tok := s[i..e];
    assert NumberTokens(s, i) == [tok] + rest;
    FlattenCons(tok, rest);
    DigitsThroughToken(s, i, e, Flatten(rest));
  }

  lemma FlattenCons(x: string, rest: seq<string>)
    ensures Flatten([x] + rest) == x + Flatten(rest)
  {
    assert ([x] + rest)[1..] == rest;
  }

  /** The digits of a token followed by those of the text after it. */
  lemma DigitsThroughToken(s: string, i: nat, e: nat, after: string)
    requires i <= e <= |s| && OnlyDigits(after) == OnlyDigits(s[e..])
    ensures OnlyDigits(s[i..e] + after) == OnlyDigits(s[i..])
  {
    OnlyDigitsAppend(s[i..e], after);
    assert s[i..] == s[i..e] + s[e..];
    OnlyDigitsAppend(s[i..e], s[e..]);
  }

  lemma SkippedChar(s: string, i: nat)
    requires i < |s| && NumberAt(s, i).None?
    requires OnlyDigits(Flatten(NumberTokens(s, i + 1))) == OnlyDigits(s[i + 1..])
    ensures OnlyDigits(Flatten(NumberTokens(s, i))) == OnlyDigits(s[i..])
  {
    assert NumberTokens(s, i) == NumberTokens(s, i + 1);
    assert !IsDigit(s[i]);
    assert s[i..] == [s[i]] + s[i + 1..];
    OnlyDigitsAppend([s[i]], s[i + 1..]);
  }

  // ---------------------------------------------------------------------
  // Converting the tokens
  // ---------------------------------------------------------------------

  /** The message `float("")` raises with. */
  const FloatError := "could not convert string to float: ''"

  /** `s` without the character `c`. */
  function DropChar(s: string, c: char): (r: string)
    ensures forall k :: 0 <= k < |r| ==> r[k] != c
    decreases |s|
  {
    if s == [] then [] else (if s[0] == c then [] else [s[0]]) + DropChar(s[1..], c)
  }

  /** `s.replace(c, "")` for a single character. */
  lemma {:induction false} ReplaceDropChar(s: string, c: char)
    ensures Replace(s, [c], []) == DropChar(s, c)
    decreases |s|
  {
    if |s| >= 1 {
      ReplaceDropChar(s[1..], c);
      assert s[..1] == [s[0]];
    }
  }

  lemma {:induction false} DropCharAppend(a: string, b: string, c: char)
    ensures DropChar(a + b, c) == DropChar(a, c) + DropChar(b, c)
    decreases |a|
  {
    if a == [] {
      assert a + b == b;
    } else {
      assert (a + b)[1..] == a[1..] + b;
      DropCharAppend(a[1..], b, c);
    }
  }

  /** On digits and commas, dropping the commas keeps exactly the digits. */
  lemma {:induction false} DropCommasDigits(s: string)
    requires forall k :: 0 <= k < |s| ==> IsNumChar(s[k])
    ensures DropChar(s, ',') == OnlyDigits(s)
    decreases |s|
  {
    if s != [] {
      DropCommasDigits(s[1..]);
    }
  }

  /** `float(tok.replace(",", ""))`; None when it raises. */
  function TokenValue(tok: string): (r: Option<real>)
    ensures r.Some? ==> r.value >= 0.0
  {
    ParseDecimal(Replace(tok, ",", ""))
  }

  /** A token converts exactly when it holds a digit: only a token of
      commas alone makes the conversion raise. */
  lemma TokenValueDefined(tok: string)
    requires NumberShape(tok)
    ensures TokenValue(tok).Some? <==> OnlyDigits(tok) != []
  {
    ReplaceDropChar(tok, ',');
    match IndexOf(tok, '.', 0)
    case None => PlainTokenValue(tok);
    case Some(p) => PointedTokenValue(tok, p);
  }

  lemma PlainTokenValue(tok: string)
    requires forall k :: 0 <= k < |tok| ==> IsNumChar(tok[k])
    ensures ParseDecimal(DropChar(tok, ',')).Some? <==> OnlyDigits(tok) != []
  {
    DropCommasDigits(tok);
    ParseDigits(OnlyDigits(tok));
  }

  lemma PointedTokenValue(tok: string, p: nat)
    requires 0 < p && p + 1 < |tok| && tok[p] == '.'
    requires forall k :: 0 <= k < p ==> IsNumChar(tok[k])
    requires forall k :: p < k < |tok| ==> IsDigit(tok[k])
    ensures ParseDecimal(DropChar(tok, ',')).Some? && OnlyDigits(tok) != []
  {
    var a, b := tok[..p], tok[p + 1..];
    assert tok == a + ['.'] + b;
    assert AllDigits(b) by {
      assert forall k :: 0 <= k < |b| ==> b[k] == tok[p + 1 + k];
    }
    DropPointed(tok, a, b);
    ParsePointed(OnlyDigits(a), b);
    OnlyDigitsPointed(tok, a, b);
  }

  /** Dropping the commas of a pointed token leaves the whole part's digits,
      the point and the fraction. */
  lemma DropPointed(tok: string, a: string, b: string)
    requires tok == a + ['.'] + b && AllDigits(b)
    requires forall k :: 0 <= k < |a| ==> IsNumChar(a[k])
    ensures DropChar(tok, ',') == OnlyDigits(a) + ['.'] + b
  {
    DropCharAppend(a, ['.'], ',');
    DropCommasDigits(a);
    assert ['.'][1..] == [];
    assert DropChar(a + ['.'], ',') == OnlyDigits(a) + ['.'];
    DropCharAppend(a + ['.'], b, ',');
    DropCommasDigits(b);
    OnlyDigitsAll(b);
  }

  lemma OnlyDigitsPointed(tok: string, a: string, b: string)
    requires tok == a + ['.'] + b && AllDigits(b) && b != []
    ensures OnlyDigits(tok) != []
  {
    OnlyDigitsAppend(a + ['.'], b);
    OnlyDigitsAll(b);
  }

  /** Digits alone convert unless there are none. */
  lemma ParseDigits(d: string)
    requires AllDigits(d)
    ensures ParseDecimal(d).Some? <==> d != []
  {
    assert forall k :: 0 <= k < |d| ==> d[k] != '.';
  }

  /** Digits, a point and at least one digit convert. */
  lemma ParsePointed(da: string, b: string)
    requires AllDigits(da) && AllDigits(b) && b != []
    ensures ParseDecimal(da + ['.'] + b).Some?
  {
    var d := da + ['.'] + b;
    assert d[|da|] == '.';
    assert forall k :: 0 <= k < |da| ==> d[k] == da[k] != '.';
    assert IndexOf(d, '.', 0) == Some(|da|);
    assert d[..|da|] == da && d[|da| + 1..] == b;
  }

  /** `[float(s.replace(",", "")) for s in toks]`: the values in order, or
      the error of the first token that does not convert. */
  function TokenValues(toks: seq<string>): Result<seq<real>>
    decreases |toks|
  {
    if toks == [] then Ok([])
    else match TokenValue(toks[0])
      case None => Err(FloatError)
      case Some(v) =>
        match TokenValues(toks[1..])
        case Err(m) => Err(m)
        case Ok(vs) => Ok([v] + vs)
  }

  /** Without an error there is one value per token, in order. */
  lemma {:induction false} TokenValuesOk(toks: seq<string>)
    requires TokenValues(toks).Ok?
    ensures |TokenValues(toks).value| == |toks|
    ensures forall k :: 0 <= k < |toks| ==> TokenValue(toks[k]) == Some(TokenValues(toks).value[k])
    decreases |toks|
  {
    if toks != [] {
      TokenValuesOk(toks[1..]);
      assert forall k :: 1 <= k < |toks| ==> toks[k] == toks[1..][k - 1];
    }
  }

  /** The conversion raises exactly when one token does not convert, and
      then with the message of `float("")`. */
  lemma {:induction false} TokenValuesErr(toks: seq<string>)
    ensures TokenValues(toks).Err? <==> exists k :: 0 <= k < |toks| && TokenValue(toks[k]).None?
    ensures TokenValues(toks).Err? ==> TokenValues(toks).msg == FloatError
    decreases |toks|
  {
    if toks != [] {
      var rest := toks[1..];
      TokenValuesErr(rest);
      if TokenValue(toks[0]).Some? {
        if TokenValues(rest).Err? {
          var k :| 0 <= k < |rest| && TokenValue(rest[k]).None?;
          assert rest[k] == toks[k + 1];
        } else {
          forall k | 0 <= k < |toks| ensures TokenValue(toks[k]).Some? {
            if k > 0 {
              assert toks[k] == rest[k - 1];
            }
          }
        }
      }
    }
  }

  /** `max(xs)` */
  function MaxOf(xs: seq<real>): (m: real)
    requires xs != []
    ensures m in xs && forall x <- xs :: x <= m
    decreases |xs|
  {
    if |xs| == 1 then xs[0]
    else
      var rest := MaxOf(xs[1..]);
      assert forall x <- xs :: x == xs[0] || x in xs[1..];
      if xs[0] >= rest then xs[0] else rest
  }

  /** The amount of one line already passed through `fix_ocr_numbers`: 0.0
      without numbers, else the largest of them; it raises when a token is
      made of commas alone. */
  function LineAmount(c: string): Result<real>
  {
    var toks := NumberTokens(c, 0);
    if toks == [] then Ok(0.0)
    else match TokenValues(toks)
      case Err(m) => Err(m)
      case Ok(vs) => Ok(MaxOf(vs))
  }

  /** An amount is never negative, and the only error is that of
      `float("")`. */
  lemma LineAmountFacts(c: string)
    ensures LineAmount(c).Ok? ==> LineAmount(c).value >= 0.0
    ensures LineAmount(c).Err? ==> LineAmount(c).msg == FloatError
  {
    var toks := NumberTokens(c, 0);
    TokenValuesErr(toks);
    if toks != [] && TokenValues(toks).Ok? {
      var vs := TokenValues(toks).value;
      TokenValuesOk(toks);
      var m := MaxOf(vs);
      var k :| 0 <= k < |vs| && vs[k] == m;
      assert TokenValue(toks[k]) == Some(m);
    }
  }

  /** The amount is 0.0 on a line without numbers, and otherwise the
      largest of the values of its numbers. */
  lemma LineAmountIsMax(c: string)
    requires LineAmount(c).Ok?
    ensures NumberTokens(c, 0) == [] ==> LineAmount(c).value == 0.0
    ensures NumberTokens(c, 0) != [] ==>
      exists k :: 0 <= k < |NumberTokens(c, 0)| && TokenValue(NumberTokens(c, 0)[k]) == Some(LineAmount(c).value)
    ensures forall k :: 0 <= k < |NumberTokens(c, 0)| ==>
      TokenValue(NumberTokens(c, 0)[k]).Some? && TokenValue(NumberTokens(c, 0)[k]).value <= LineAmount(c).value
  {
    var toks := NumberTokens(c, 0);
    if toks != [] {
      var vs := TokenValues(toks).value;
      TokenValuesOk(toks);
      var m := MaxOf(vs);
      assert forall k :: 0 <= k < |vs| ==> vs[k] in vs;
      var k :| 0 <= k < |vs| && vs[k] == m;
      assert TokenValue(toks[k]) == Some(m);
    }
  }

  /** A line raises exactly when one of its tokens is made of commas alone. */
  lemma LineAmountFails(c: string)
    ensures LineAmount(c).Err? <==>
      exists k :: 0 <= k < |NumberTokens(c, 0)| && OnlyDigits(NumberTokens(c, 0)[k]) == []
  {
    var toks := NumberTokens(c, 0);
    NumberTokensShape(c, 0);
    TokenValuesErr(toks);
    forall k | 0 <= k < |toks| ensures TokenValue(toks[k]).Some? <==> OnlyDigits(toks[k]) != [] {
      TokenValueDefined(toks[k]);
    }
  }

  // ---------------------------------------------------------------------
  // The amounts loop and the entries loop
  // ---------------------------------------------------------------------

  /** The values of a run of per-line results: all of them in order, or
      the first error. */
  function Collect(rs: seq<Result<real>>): Result<seq<real>>
    decreases |rs|
  {
    if rs == [] then Ok([])
    else
      match Collect(rs[..|rs| - 1])
      case Err(m) => Err(m)
      case Ok(a) =>
        match rs[|rs| - 1]
        case Err(m) => Err(m)
        case Ok(v) => Ok(a + [v])
  }

  /** Without an error there is one value per result, in order. */
  lemma {:induction false} CollectOk(rs: seq<Result<real>>)
    requires Collect(rs).Ok?
    ensures |Collect(rs).value| == |rs|
    ensures forall k :: 0 <= k < |rs| ==> rs[k] == Ok(Collect(rs).value[k])
    decreases |rs|
  {
    if rs != [] {
      var init := rs[..|rs| - 1];
      CollectOk(init);
    }
  }

  /** The run fails exactly when one of its results is an error. */
  lemma {:induction false} CollectErr(rs: seq<Result<real>>)
    ensures Collect(rs).Err? <==> exists k :: 0 <= k < |rs| && rs[k].Err?
    decreases |rs|
  {
    if rs != [] {
      var init := rs[..|rs| - 1];
      CollectErr(init);
      if Collect(init).Err? {
        var k :| 0 <= k < |init| && init[k].Err?;
        assert rs[k] == init[k];
      } else {
        assert forall k :: 0 <= k < |init| ==> rs[k] == init[k];
      }
    }
  }

  /** Once a prefix fails, the whole run fails with the same error. */
  lemma {:induction false} CollectErrSticks(rs: seq<Result<real>>, n: nat)
    requires n <= |rs| && Collect(rs[..n]).Err?
    ensures Collect(rs) == Collect(rs[..n])
    decreases |rs| - n
  {
    if n < |rs| {
      var init := rs[..|rs| - 1];
      assert init[..n] == rs[..n];
      CollectErrSticks(init, n);
    } else {
      assert rs[..n] == rs;
    }
  }

  /** The error of a run is the error of one of its results. */
  lemma {:induction false} CollectMessage(rs: seq<Result<real>>, msg: string)
    requires forall k :: 0 <= k < |rs| && rs[k].Err? ==> rs[k].msg == msg
    requires Collect(rs).Err?
    ensures Collect(rs).msg == msg
    decreases |rs|
  {
    var init := rs[..|rs| - 1];
    if Collect(init).Err? {
      CollectMessage(init, msg);
    }
  }

  /** The result of each amount line after `fix_ocr_numbers`. */
  function LineResults(lines: seq<string>): (r: seq<Result<real>>)
    ensures |r| == |lines|
  {
    seq(|lines|, k requires 0 <= k < |lines| => LineAmount(FixDigits(lines[k])))
  }

  /** The amounts of the amount lines, one per line, or the error of the
      first line that raises. */
  function AmountsOf(lines: seq<string>): Result<seq<real>>
  {
    Collect(LineResults(lines))
  }

  /** Without an error there is one amount per line: the amount of that
      line after `fix_ocr_numbers`. */
  lemma AmountsOfOk(lines: seq<string>)
    requires AmountsOf(lines).Ok?
    ensures |AmountsOf(lines).value| == |lines|
    ensures forall k :: 0 <= k < |lines| ==> LineAmount(FixDigits(lines[k])) == Ok(AmountsOf(lines).value[k])
  {
    CollectOk(LineResults(lines));
  }

  /** The loop raises exactly when one of the lines raises, and then with
      the message of `float("")`. */
  lemma AmountsOfErr(lines: seq<string>)
    ensures AmountsOf(lines).Err? <==> exists k :: 0 <= k < |lines| && LineAmount(FixDigits(lines[k])).Err?
    ensures AmountsOf(lines).Err? ==> AmountsOf(lines).msg == FloatError
  {
    var rs := LineResults(lines);
    CollectErr(rs);
    assert forall k :: 0 <= k < |lines| ==> rs[k] == LineAmount(FixDigits(lines[k]));
    if Collect(rs).Err? {
      forall k | 0 <= k < |rs| && rs[k].Err? ensures rs[k].msg == FloatError {
        LineAmountFacts(FixDigits(lines[k]));
      }
      CollectMessage(rs, FloatError);
    }
  }

  /** The `for line in amount_lines` loop. */
  method ExtractAmounts(amountLines: seq<string>) returns (r: Result<seq<real>>)
    ensures r == AmountsOf(amountLines)
  {
    ghost var rs := LineResults(amountLines);
    var amounts: seq<real> := [];
    var i := 0;
    while i < |amountLines|
      invariant i <= |amountLines|
      invariant Collect(rs[..i]) == Ok(amounts)
    {
      var clean := FixOcrNumbers(amountLines[i]);
      var amount := LineAmount(clean);
      CollectStep(rs, i, amounts);
      if amount.Err? {
        CollectErrSticks(rs, i + 1);
        return Err(amount.msg);
      }
      amounts := amounts + [amount.value];
      i := i + 1;
    }
    assert rs[..i] == rs;
    r := Ok(amounts);
  }

  /** One more result: its value is appended, or its error is the run's. */
  lemma CollectStep(rs: seq<Result<real>>, i: nat, amounts: seq<real>)
    requires i < |rs| && Collect(rs[..i]) == Ok(amounts)
    ensures rs[i].Ok? ==> Collect(rs[..i + 1]) == Ok(amounts + [rs[i].value])
    ensures rs[i].Err? ==> Collect(rs[..i + 1]) == Err(rs[i].msg)
  {
    assert rs[..i + 1][..i] == rs[..i];
  }

  /** One renewal entry. */
  datatype RenewalEntry = RenewalEntry(labelText: string, amount: real)

  /** Entry `i` pairs label `i` with amount `i`, or with 0.0 when there are
      fewer amounts than labels. */
  predicate PairedWith(entries: seq<RenewalEntry>, labels: seq<string>, amounts: seq<real>)
  {
    |entries| == |labels|
    && forall i :: 0 <= i < |entries| ==>
      entries[i] == RenewalEntry(labels[i], if i < |amounts| then amounts[i] else 0.0)
  }

  /** The `for i, label in enumerate(labels)` loop. */
  method PairEntries(labels: seq<string>, amounts: seq<real>) returns (entries: seq<RenewalEntry>)
    ensures PairedWith(entries, labels, amounts)
  {
    entries := [];
    var i := 0;
    while i < |labels|
      invariant i <= |labels|
      invariant PairedWith(entries, labels[..i], amounts)
    {
      var amount := if i < |amounts| then amounts[i] else 0.0;
      entries := entries + [RenewalEntry(labels[i], amount)];
      i := i + 1;
    }
    assert labels[..i] == labels;
  }

  /** The pairing leaves nothing open: at most one list of entries fits. */
  lemma PairedWithUnique(e1: seq<RenewalEntry>, e2: seq<RenewalEntry>, labels: seq<string>, amounts: seq<real>)
    requires PairedWith(e1, labels, amounts) && PairedWith(e2, labels, amounts)
    ensures e1 == e2
  {
  }

  /** Amounts beyond the last label are never read. */
  lemma SurplusAmountsIgnored(entries: seq<RenewalEntry>, labels: seq<string>, amounts: seq<real>, extra: seq<real>)
    requires |amounts| >= |labels|
    ensures PairedWith(entries, labels, amounts) <==> PairedWith(entries, labels, amounts + extra)
  {
  }

  /** What `extract_renewal_entries` gives for a text: `[]` without a
      block; otherwise one entry per label, or the error of the first amount
      line that raises. */
  predicate EntriesOutcome(text: string, r: Result<seq<RenewalEntry>>)
  {
    match BlockLines(text)
    case None => r == Ok([])
    case Some(lines) =>
      match AmountsOf(AmountLines(lines))
      case Err(m) => r == Err(m)
      case Ok(amounts) => r.Ok? && PairedWith(r.value, Labels(lines), amounts)
  }

  /** `extract_renewal_entries`. */
  method ExtractRenewalEntries(text: string) returns (r: Result<seq<RenewalEntry>>)
    ensures EntriesOutcome(text, r)
    ensures r.Err? ==> r.msg == FloatError
    ensures r.Ok? ==> forall e <- r.value :: e.labelText != [] && e.amount >= 0.0
  {
    var block := FindBlock(text, 0);
    if block.None? {
      return Ok([]);
    }
    var p, q := block.value.0, block.value.1;
    var lines := StrippedNonBlank(SplitOn(text[p..q], '\n'));
    var labels := Labels(lines);
    var amounts := ExtractAmounts(AmountLines(lines));
    if amounts.Err? {
      AmountsOfErr(AmountLines(lines));
      return Err(amounts.msg);
    }
    var entries := PairEntries(labels, amounts.value);
    forall i | 0 <= i < |entries| ensures entries[i].labelText != [] && entries[i].amount >= 0.0 {
      assert labels[i] in labels;
      if i < |amounts.value| {
        AmountsOfOk(AmountLines(lines));
        LineAmountFacts(FixDigits(AmountLines(lines)[i]));
      }
    }
    r := Ok(entries);
  }
}
