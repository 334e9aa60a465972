/** The debit-note parser's financial figures: the GROSS PREMIUM gate, the
    numeric tokens, the last five values above 50, the copy labels that
    decide how many records carry them, the COPY blocks and the block
    filter (ocr/debit_note_parser.py). */
module DebitFinancials {
  import opened Text
  import opened Numbers

  // =====================================================================
  // GROSS\s+PREMIUM
  // =====================================================================

  /** `GROSS\s+PREMIUM` at `p`, ignoring case. `PREMIUM` starts with a
      non-space, so `\s+` can only take the whole run of whitespace. */
  predicate GrossPremiumAt(t: string, p: nat)
  {
    MatchAtCI(t, p, "GROSS") && p + 5 < |t| && IsSpace(t[p + 5])
    && MatchAtCI(t, SkipSpace(t, p + 5), "PREMIUM")
  }

  /** `re.search(r"GROSS\s+PREMIUM", t, re.IGNORECASE)` from `p`. */
  predicate HasGrossPremiumFrom(t: string, p: nat)
    decreases |t| - p
  {
    p <= |t| && (GrossPremiumAt(t, p) || (p < |t| && HasGrossPremiumFrom(t, p + 1)))
  }

  predicate HasGrossPremium(t: string)
  {
    HasGrossPremiumFrom(t, 0)
  }

  /** The search succeeds exactly when the phrase occurs somewhere. */
  lemma {:induction false} HasGrossPremiumExists(t: string, p: nat)
    requires p <= |t|
    decreases |t| - p
    ensures HasGrossPremiumFrom(t, p) <==> exists q :: p <= q <= |t| && GrossPremiumAt(t, q)
  {
    if p < |t| {
      HasGrossPremiumExists(t, p + 1);
    }
  }

  // =====================================================================
  // is_valid_financial_block
  // =====================================================================

  /** `GROSS\s+PREMIUM` at `p`, case-sensitive (the block is upper-cased
      first). */
  predicate GrossPremiumExactAt(u: string, p: nat)
  {
    MatchAt(u, p, "GROSS") && p + 5 < |u| && IsSpace(u[p + 5])
    && MatchAt(u, SkipSpace(u, p + 5), "PREMIUM")
  }

  predicate HasGrossPremiumExactFrom(u: string, p: nat)
    decreases |u| - p
  {
    p <= |u| && (GrossPremiumExactAt(u, p) || (p < |u| && HasGrossPremiumExactFrom(u, p + 1)))
  }

  /** `\bW\b` at `p`, case-sensitive, for a word `W` of word characters. */
  predicate WordAt(u: string, p: nat, w: string)
  {
    MatchAt(u, p, w) && (p == 0 || !IsWordChar(u[p - 1]))
    && (p + |w| == |u| || !IsWordChar(u[p + |w|]))
  }

  /** `re.search(r"\bTEL\b|\bFAX\b", u)` from `p`. */
  predicate HasTelOrFaxFrom(u: string, p: nat)
    decreases |u| - p
  {
    p <= |u| && (WordAt(u, p, "TEL") || WordAt(u, p, "FAX") || (p < |u| && HasTelOrFaxFrom(u, p + 1)))
  }

  /** `is_valid_financial_block`: on the upper-cased block, the financial
      header is present, no TEL or FAX word occurs, and neither ROOM nor
      STREET occurs more than twice. */
  predicate IsValidFinancialBlock(block: string)
  {
    var u := Upper(block);
    HasGrossPremiumExactFrom(u, 0)
    && !HasTelOrFaxFrom(u, 0)
    && Count(u, "ROOM") <= 2 && Count(u, "STREET") <= 2
  }

  /** The case-sensitive header on the upper-cased text is the
      case-insensitive header on the text. */
  lemma GrossPremiumUpperAt(t: string, p: nat)
    ensures GrossPremiumExactAt(Upper(t), p) <==> GrossPremiumAt(t, p)
  {
    MatchAtUpper(t, p, "GROSS");
    if p + 5 < |t| {
      assert Upper(t)[p + 5] == UpperChar(t[p + 5]);
      SkipSpaceUpper(t, p + 5);
      MatchAtUpper(t, SkipSpace(t, p + 5), "PREMIUM");
    }
  }

  lemma {:induction false} GrossPremiumUpperFrom(t: string, p: nat)
    decreases |t| - p
    ensures HasGrossPremiumExactFrom(Upper(t), p) <==> HasGrossPremiumFrom(t, p)
  {
    GrossPremiumUpperAt(t, p);
    if p < |t| {
      GrossPremiumUpperFrom(t, p + 1);
    }
  }

  /** A block the filter keeps passes the GROSS PREMIUM gate of
      `extract_manager_financials`, and a text that fails the gate has no
      valid block. */
  lemma ValidBlockHasGrossPremium(block: string)
    ensures IsValidFinancialBlock(block) ==> HasGrossPremium(block)
  {
    GrossPremiumUpperFrom(block, 0);
  }

  /** Upper-casing a block first does not change the verdict. */
  lemma ValidBlockUpper(block: string)
    ensures IsValidFinancialBlock(Upper(block)) == IsValidFinancialBlock(block)
  {
    assert Upper(Upper(block)) == Upper(block);
  }

  // =====================================================================
  // The numeric tokens: re.findall(r"\b\d{2,4}[., ]?\d{0,2}\b", text)
  // =====================================================================

  predicate IsSep(c: char) { c == '.' || c == ',' || c == ' ' }

  /** `\b` at `e`: a word character on exactly one side. */
  predicate BoundaryAt(t: string, e: nat)
    requires e <= |t|
  {
    (e > 0 && IsWordChar(t[e - 1])) != (e < |t| && IsWordChar(t[e]))
  }

  /** `\d{0,m}\b` from `b` over a run of at least `m` digits, trying the
      longest first. */
  function FracEnd(t: string, b: nat, m: nat): (r: Option<nat>)
    requires b + m <= |t|
    decreases m
    ensures r.Some? ==> b <= r.value <= b + m && BoundaryAt(t, r.value)
  {
    if BoundaryAt(t, b + m) then Some(b + m)
    else if m == 0 then None
    else FracEnd(t, b, m - 1)
  }

  /** `\d{0,2}\b` from `b`. */
  function FracFrom(t: string, b: nat): (r: Option<nat>)
    requires b <= |t|
    ensures r.Some? ==> b <= r.value <= b + 2 && r.value <= |t| && BoundaryAt(t, r.value)
    ensures r.Some? ==> forall k :: b <= k < r.value ==> IsDigit(t[k])
  {
    var d := SkipDigits(t, b) - b;
    FracEnd(t, b, if d > 2 then 2 else d)
  }

  /** `[., ]?\d{0,2}\b` from `a`: the separator is taken when one is there
      and given back only when no ending fits after it. The result is where
      the fraction starts and where the token ends. */
  function SepEnd(t: string, a: nat): (r: Option<(nat, nat)>)
    requires a <= |t|
    ensures r.Some? ==> (r.value.0 == a || (r.value.0 == a + 1 && a < |t| && IsSep(t[a])))
    ensures r.Some? ==> r.value.0 <= r.value.1 <= r.value.0 + 2 && r.value.1 <= |t|
    ensures r.Some? ==> BoundaryAt(t, r.value.1) && forall k :: r.value.0 <= k < r.value.1 ==> IsDigit(t[k])
  {
    var withSep := if a < |t| && IsSep(t[a]) then FracFrom(t, a + 1) else None;
    if withSep.Some? then Some((a + 1, withSep.value))
    else match FracFrom(t, a)
      case Some(e) => Some((a, e))
      case None => None
  }

  /** A token `t[p..e]` split as whole digits `t[p..a]`, an optional
      separator `t[a..b]` and fraction digits `t[b..e]`. */
  predicate TokenSplit(t: string, p: nat, a: nat, b: nat, e: nat)
  {
    p + 2 <= a <= p + 4 && a <= b <= a + 1 && b <= e <= b + 2 && e <= |t|
    && (forall k :: p <= k < a ==> IsDigit(t[k]))
    && (b == a + 1 ==> IsSep(t[a]))
    && (forall k :: b <= k < e ==> IsDigit(t[k]))
  }

  /** `\d{2,4}` from `p` with `n` digits available, trying 4, 3 then 2. */
  function WholeEnd(t: string, p: nat, n: nat): (r: Option<(nat, nat, nat)>)
    requires 2 <= n <= 4 && p + n <= |t|
    requires forall k :: p <= k < p + n ==> IsDigit(t[k])
    decreases n
    ensures r.Some? ==> TokenSplit(t, p, r.value.0, r.value.1, r.value.2) && BoundaryAt(t, r.value.2)
  {
    match SepEnd(t, p + n)
    case Some(be) => Some((p + n, be.0, be.1))
    case None => if n == 2 then None else WholeEnd(t, p, n - 1)
  }

  /** The whole pattern at `p`. */
  function TokenAt(t: string, p: nat): (r: Option<(nat, nat, nat)>)
    requires p <= |t|
    ensures r.Some? ==> TokenSplit(t, p, r.value.0, r.value.1, r.value.2) && BoundaryAt(t, r.value.2)
  {
    var d := SkipDigits(t, p) - p;
    if BoundaryAt(t, p) && d >= 2 then WholeEnd(t, p, if d > 4 then 4 else d) else None
  }

  /** The shape of every token: 2 to 4 digits, an optional separator, then
      at most 2 digits. */
  predicate ShapeSplit(s: string, a: nat, b: nat)
  {
    2 <= a <= 4 && a <= b <= a + 1 && b <= |s| <= b + 2
    && (forall k :: 0 <= k < a ==> IsDigit(s[k]))
    && (b == a + 1 ==> IsSep(s[a]))
    && (forall k :: b <= k < |s| ==> IsDigit(s[k]))
  }

  predicate TokenShape(s: string)
  {
    exists a: nat, b: nat | a <= b <= |s| :: ShapeSplit(s, a, b)
  }

  lemma TokenSplitShape(t: string, p: nat, a: nat, b: nat, e: nat)
    requires TokenSplit(t, p, a, b, e)
    ensures ShapeSplit(t[p..e], a - p, b - p)
  {
    var s := t[p..e];
    forall k | 0 <= k < |s| ensures s[k] == t[p + k] {
    }
  }

  /** `re.findall`: the matches from `p` on, left to right, each search
      resuming where the previous match ended. */
  function Tokens(t: string, p: nat): (r: seq<string>)
    requires p <= |t|
    decreases |t| - p
    ensures forall k :: 0 <= k < |r| ==> TokenShape(r[k])
  {
    if p == |t| then []
    else match TokenAt(t, p)
      case Some(s) =>
        TokenSplitShape(t, p, s.0, s.1, s.2);
        [t[p..s.2]] + Tokens(t, s.2)
      case None => Tokens(t, p + 1)
  }

  // =====================================================================
  // Token values: float(n.replace(" ", "").replace(",", "."))
  // =====================================================================

  function CleanToken(s: string): string
  {
    Replace(Replace(s, " ", ""), ",", ".")
  }

  /** The value `float` gives the cleaned token; None where it would raise. */
  function TokenValue(s: string): Option<real>
  {
    ParseDecimal(CleanToken(s))
  }

  /** Replacing the only occurrence of a character. */
  lemma {:induction false} ReplaceOnlyChar(x: string, c: char, y: string, rep: string)
    requires c !in x && c !in y
    decreases |x|
    ensures Replace(x + [c] + y, [c], rep) == x + rep + y
  {
    var s := x + [c] + y;
    if x == [] {
      assert s[..1] == [c] && s[1..] == y;
      ReplaceMissingChar(y, [c], rep, 0);
    } else {
      assert s[..1] == [x[0]] && s[1..] == x[1..] + [c] + y;
      ReplaceOnlyChar(x[1..], c, y, rep);
    }
  }

  /** Digits, a point, digits: `float` reads the whole part plus the
      fraction. */
  lemma ParsePointed(w: string, f: string)
    requires w != [] && AllDigits(w) && AllDigits(f)
    ensures ParseDecimal(w + "." + f)
            == Some(DigitsValue(w) as real + DigitsValue(f) as real / Pow10(|f|) as real)
  {
    var s := w + "." + f;
    PointAt(w, f);
    assert s[..|w|] == w && s[|w| + 1..] == f;
    var v := DigitsValue(w) as real + DigitsValue(f) as real / Pow10(|f|) as real;
    assert ParseDecimal(s) == if AllDigits(w) && AllDigits(f) && (w != [] || f != []) then Some(v) else None;
  }

  lemma PointAt(w: string, f: string)
    requires AllDigits(w)
    ensures IndexOf(w + "." + f, '.', 0) == Some(|w|)
  {
    var s := w + "." + f;
    forall k | 0 <= k < |w| ensures s[k] != '.' {
      assert s[k] == w[k];
    }
    assert s[|w|] == '.';
  }

  /** A token never makes `float` raise, so the `except` branch is never
      taken. A comma or point separates the fraction; a space is deleted
      and the digits run on. */
  lemma TokenValueParts(s: string, a: nat, b: nat)
    requires ShapeSplit(s, a, b)
    ensures TokenValue(s).Some?
    ensures b == a ==> TokenValue(s) == Some(DigitsValue(s) as real)
    ensures b == a + 1 && s[a] == ' ' ==> TokenValue(s) == Some(DigitsValue(s[..a] + s[b..]) as real)
    ensures b == a + 1 && s[a] != ' ' ==>
      TokenValue(s) == Some(DigitsValue(s[..a]) as real + DigitsValue(s[b..]) as real / Pow10(|s| - b) as real)
  {
    ShapeParts(s, a, b);
    if b == a {
      TokenValueRun(s, s[..a], s[b..]);
    } else if s[a] == ' ' {
      TokenValueSpaced(s, s[..a], s[b..]);
    } else {
      TokenValuePointed(s, s[..a], s[a], s[b..]);
    }
  }

  /** The two digit runs of a shaped token and what lies between them. */
  lemma ShapeParts(s: string, a: nat, b: nat)
    requires ShapeSplit(s, a, b)
    ensures AllDigits(s[..a]) && AllDigits(s[b..]) && s[..a] != []
    ensures b == a ==> s == s[..a] + s[b..]
    ensures b == a + 1 ==> s == s[..a] + [s[a]] + s[b..] && |s[b..]| == |s| - b
  {
    var w, f := s[..a], s[b..];
    forall k | 0 <= k < |f| ensures IsDigit(f[k]) { assert f[k] == s[b + k]; }
    if b == a {
      assert s == w + f;
    } else {
      assert s == w + [s[a]] + f;
    }
  }

  /** A run of digits reads as itself. */
  lemma TokenValueRun(s: string, w: string, f: string)
    requires AllDigits(w) && AllDigits(f) && w != [] && s == w + f
    ensures TokenValue(s) == Some(DigitsValue(s) as real)
  {
    assert AllDigits(s) by {
      forall k | 0 <= k < |s| ensures IsDigit(s[k]) {
        if k >= |w| { assert s[k] == f[k - |w|]; }
      }
    }
    assert ' ' !in s && ',' !in s;
    ReplaceMissingChar(s, " ", "", 0);
    ReplaceMissingChar(s, ",", ".", 0);
    ParseDecimalDigits(s);
  }

  /** A space between digit runs is deleted and the digits run on. */
  lemma TokenValueSpaced(s: string, w: string, f: string)
    requires AllDigits(w) && AllDigits(f) && w != [] && s == w + [' '] + f
    ensures TokenValue(s) == Some(DigitsValue(w + f) as real)
  {
    assert ' ' !in w && ' ' !in f && ',' !in w + f;
    ReplaceOnlyChar(w, ' ', f, "");
    assert w + "" + f == w + f;
    ReplaceMissingChar(w + f, ",", ".", 0);
    ParseDecimalDigits(w + f);
  }

  /** A comma or a point between digit runs separates the fraction. */
  lemma TokenValuePointed(s: string, w: string, c: char, f: string)
    requires AllDigits(w) && AllDigits(f) && w != [] && s == w + [c] + f
    requires c == ',' || c == '.'
    ensures TokenValue(s) == Some(DigitsValue(w) as real + DigitsValue(f) as real / Pow10(|f|) as real)
  {
    assert ' ' !in s && ',' !in w && ',' !in f;
    ReplaceMissingChar(s, " ", "", 0);
    if c == ',' {
      ReplaceOnlyChar(w, ',', f, ".");
    } else {
      ReplaceMissingChar(s, ",", ".", 0);
      assert s == w + "." + f;
    }
    ParsePointed(w, f);
  }

  lemma TokenValueDefined(s: string)
    requires TokenShape(s)
    ensures TokenValue(s).Some?
  {
    var a: nat, b: nat :| ShapeSplit(s, a, b);
    TokenValueParts(s, a, b);
  }

  // =====================================================================
  // The qualifying values
  // =====================================================================

  /** The values above 50, in token order: the `values` list. */
  function LargeValues(toks: seq<string>): (r: seq<real>)
    ensures |r| <= |toks|
    ensures forall k :: 0 <= k < |r| ==> r[k] > 50.0
  {
    if toks == [] then []
    else
      var pre := LargeValues(toks[..|toks| - 1]);
      match TokenValue(toks[|toks| - 1])
      case Some(v) => if v > 50.0 then pre + [v] else pre
      case None => pre
  }

  /** The selection works token by token: the values of a concatenation
      are the values of each part, in order. */
  lemma {:induction false} LargeValuesAppend(a: seq<string>, b: seq<string>)
    decreases |b|
    ensures LargeValues(a + b) == LargeValues(a) + LargeValues(b)
  {
    if b == [] {
      assert a + b == a;
    } else {
      var b' := b[..|b| - 1];
      assert (a + b)[..|a + b| - 1] == a + b';
      LargeValuesAppend(a, b');
    }
  }

  /** A value is selected exactly when some token reads as that value and
      it is above 50. */
  lemma {:induction false} LargeValuesMember(toks: seq<string>, v: real)
    decreases |toks|
    ensures v in LargeValues(toks) <==> v > 50.0 && ReadsAs(toks, v)
  {
    if toks != [] {
      var pre := toks[..|toks| - 1];
      LargeValuesMember(pre, v);
      ReadsAsLast(toks, v);
    }
  }

  /** What `float` gives for each token, in order. */
  function TokenReadings(toks: seq<string>): (r: seq<Option<real>>)
    ensures |r| == |toks|
    ensures forall k :: 0 <= k < |toks| ==> r[k] == TokenValue(toks[k])
  {
    seq(|toks|, k requires 0 <= k < |toks| => TokenValue(toks[k]))
  }

  /** Some token reads as `v`. */
  predicate ReadsAs(toks: seq<string>, v: real)
  {
    Some(v) in TokenReadings(toks)
  }

  lemma ReadsAsLast(toks: seq<string>, v: real)
    requires toks != []
    ensures ReadsAs(toks, v) <==> ReadsAs(toks[..|toks| - 1], v) || TokenValue(toks[|toks| - 1]) == Some(v)
  {
    var pre := toks[..|toks| - 1];
    assert TokenReadings(toks) == TokenReadings(pre) + [TokenValue(toks[|toks| - 1])];
  }

  // =====================================================================
  // detect_copy_types
  // =====================================================================

  /** The copy types, in the order of the pattern table. */
  const CopyKeys: seq<string> := ["manager", "agent", "account", "file"]

  /** `C[O0]P[YV]` at `q`, ignoring case. */
  predicate CopyWordAt(t: string, q: nat)
  {
    q + 4 <= |t| && SameCI(t[q], 'C') && (SameCI(t[q + 1], 'O') || t[q + 1] == '0')
    && SameCI(t[q + 2], 'P') && (SameCI(t[q + 3], 'Y') || SameCI(t[q + 3], 'V'))
  }

  /** The end of the label word of `key` at `p`: `MANAG[EA]R` for the
      manager copy, the key itself for the others, ignoring case. */
  function LabelEnd(t: string, p: nat, key: string): (r: Option<nat>)
    ensures r.Some? ==> p < r.value <= |t|
  {
    if key == "manager" then
      if MatchAtCI(t, p, "MANAG") && p + 7 <= |t| && (SameCI(t[p + 5], 'E') || SameCI(t[p + 5], 'A'))
         && SameCI(t[p + 6], 'R')
      then Some(p + 7) else None
    else if key != [] && MatchAtCI(t, p, key) then Some(p + |key|)
    else None
  }

  /** `LABEL\s*C[O0]P[YV]` at `p`; the copy word starts with a non-space,
      so `\s*` takes the whole run. */
  predicate CopyLabelAt(t: string, p: nat, key: string)
  {
    match LabelEnd(t, p, key)
    case Some(e) => CopyWordAt(t, SkipSpace(t, e))
    case None => false
  }

  /** `re.search(pattern, text, re.IGNORECASE)` for the key's pattern, from `p`. */
  predicate HasCopyLabelFrom(t: string, key: string, p: nat)
    decreases |t| - p
  {
    p <= |t| && (CopyLabelAt(t, p, key) || (p < |t| && HasCopyLabelFrom(t, key, p + 1)))
  }

  /** The keys whose label occurs in the text. */
  function CopyTypes(t: string): (r: set<string>)
    ensures r <= set k | k in CopyKeys
  {
    set k | k in CopyKeys && HasCopyLabelFrom(t, k, 0)
  }

  /** `detect_copy_types`: adds each key whose pattern is found, walking the
      table in order. */
  method DetectCopyTypes(t: string) returns (found: set<string>)
    ensures found == CopyTypes(t)
  {
    found := {};
    var i := 0;
    while i < |CopyKeys|
      invariant 0 <= i <= |CopyKeys|
      invariant found == set k | k in CopyKeys[..i] && HasCopyLabelFrom(t, k, 0)
    {
      var key := CopyKeys[i];
      if HasCopyLabelFrom(t, key, 0) {
        found := found + {key};
      }
      assert CopyKeys[..i + 1] == CopyKeys[..i] + [key];
      i := i + 1;
    }
    assert CopyKeys[..i] == CopyKeys;
  }

  /** Every pattern needs a copy word, so text without one finds no type
      (and the records fall back to the manager copy). */
  lemma {:induction false} NoCopyWordNoLabel(t: string, key: string, p: nat)
    requires forall q :: 0 <= q <= |t| ==> !CopyWordAt(t, q)
    decreases |t| - p
    ensures !HasCopyLabelFrom(t, key, p)
  {
    if p < |t| {
      NoCopyWordNoLabel(t, key, p + 1);
    }
  }

  lemma NoCopyWordNoTypes(t: string)
    requires forall q :: 0 <= q <= |t| ==> !CopyWordAt(t, q)
    ensures CopyTypes(t) == {}
  {
    forall k | k in CopyKeys ensures !HasCopyLabelFrom(t, k, 0) {
      NoCopyWordNoLabel(t, k, 0);
    }
  }

  /** The labels are searched ignoring case, so upper-casing the text
      first finds the same types. */
  lemma CopyLabelUpperAt(t: string, p: nat, key: string)
    ensures CopyLabelAt(Upper(t), p, key) <==> CopyLabelAt(t, p, key)
  {
    LabelEndUpper(t, p, key);
    match LabelEnd(t, p, key)
    case Some(e) =>
      SkipSpaceUpper(t, e);
      CopyWordUpper(t, SkipSpace(t, e));
    case None =>
  }

  lemma LabelEndUpper(t: string, p: nat, key: string)
    ensures LabelEnd(Upper(t), p, key) == LabelEnd(t, p, key)
  {
    var u := Upper(t);
    MatchAtCIUpper(t, p, "MANAG");
    MatchAtCIUpper(t, p, key);
    if p + 7 <= |t| {
      assert u[p + 5] == UpperChar(t[p + 5]) && u[p + 6] == UpperChar(t[p + 6]);
    }
  }

  lemma CopyWordUpper(t: string, q: nat)
    ensures CopyWordAt(Upper(t), q) <==> CopyWordAt(t, q)
  {
    var u := Upper(t);
    if q + 4 <= |t| {
      assert u[q] == UpperChar(t[q]) && u[q + 1] == UpperChar(t[q + 1]);
      assert u[q + 2] == UpperChar(t[q + 2]) && u[q + 3] == UpperChar(t[q + 3]);
    }
  }

  lemma {:induction false} CopyLabelUpperFrom(t: string, key: string, p: nat)
    decreases |t| - p
    ensures HasCopyLabelFrom(Upper(t), key, p) <==> HasCopyLabelFrom(t, key, p)
  {
    CopyLabelUpperAt(t, p, key);
    if p < |t| {
      CopyLabelUpperFrom(t, key, p + 1);
    }
  }

  lemma CopyTypesUpper(t: string)
    ensures CopyTypes(Upper(t)) == CopyTypes(t)
  {
    forall k | k in CopyKeys ensures HasCopyLabelFrom(Upper(t), k, 0) <==> HasCopyLabelFrom(t, k, 0) {
      CopyLabelUpperFrom(t, k, 0);
    }
  }

  // =====================================================================
  // extract_manager_financials
  // =====================================================================

  /** One financial record: the five figures and the copy it belongs to. */
  datatype FinancialRow = FinancialRow(
    grossPremium: real, commission: real, overridingInsurer: real,
    cost: real, profit: real, category: string)

  /** The record a copy gets: the last five values, in order. */
  function RowFor(vs: seq<real>, c: string): FinancialRow
    requires |vs| >= 5
  {
    FinancialRow(vs[|vs| - 5], vs[|vs| - 4], vs[|vs| - 3], vs[|vs| - 2], vs[|vs| - 1], c)
  }

  /** The copies the records belong to. */
  function Categories(rows: seq<FinancialRow>): set<string>
  {
    if rows == [] then {} else Categories(rows[..|rows| - 1]) + {rows[|rows| - 1].category}
  }

  lemma CategoriesAppend(rows: seq<FinancialRow>, x: FinancialRow)
    ensures Categories(rows + [x]) == Categories(rows) + {x.category}
  {
    assert (rows + [x])[..|rows|] == rows;
  }

  /** The copies that get a record: the detected ones, or the manager copy
      when none is detected. */
  function RowCategories(t: string): (r: set<string>)
    ensures r != {} && r <= set k | k in CopyKeys
  {
    if CopyTypes(t) == {} then {"manager"} else CopyTypes(t)
  }

  /** The first loop of `extract_manager_financials`: each token cleaned
      and read, kept when above 50. */
  method SelectValues(nums: seq<string>) returns (values: seq<real>)
    ensures values == LargeValues(nums)
  {
    values := [];
    for i := 0 to |nums|
      invariant values == LargeValues(nums[..i])
    {
      assert nums[..i + 1][..i] == nums[..i];
      match TokenValue(nums[i]) {
        case Some(v) =>
          if v > 50.0 {
            values := values + [v];
          }
        case None =>
      }
    }
    assert nums[..|nums|] == nums;
  }

  /** What `extract_manager_financials` returns for `text`: nothing without
      the GROSS PREMIUM header or with fewer than five values above 50;
      otherwise one record per copy, each carrying the last five values,
      all above 50. */
  predicate FinancialsFor(text: string, rows: seq<FinancialRow>)
  {
    var vs := LargeValues(Tokens(text, 0));
    (!HasGrossPremium(text) ==> rows == [])
    && (|vs| < 5 ==> rows == [])
    && (HasGrossPremium(text) && |vs| >= 5 ==>
          |rows| == |RowCategories(text)| && Categories(rows) == RowCategories(text)
          && forall r :: r in rows ==> r == RowFor(vs, r.category))
    && (forall r :: r in rows ==>
          r.grossPremium > 50.0 && r.commission > 50.0 && r.overridingInsurer > 50.0
          && r.cost > 50.0 && r.profit > 50.0)
  }

  /** `extract_manager_financials`: nothing without the GROSS PREMIUM header
      or with fewer than five values above 50; otherwise one record per
      copy, each carrying the last five values. The copies are visited in
      no particular order, as Python visits a set. */
  method ExtractManagerFinancials(text: string) returns (rows: seq<FinancialRow>)
    ensures FinancialsFor(text, rows)
  {
    if !HasGrossPremium(text) {
      return [];
    }
    var values := SelectValues(Tokens(text, 0));
    if |values| < 5 {
      return [];
    }
    var gross, commission, overriding := values[|values| - 5], values[|values| - 4], values[|values| - 3];
    var cost, profit := values[|values| - 2], values[|values| - 1];

    var copyTypes := DetectCopyTypes(text);
    if copyTypes == {} {
      copyTypes := {"manager"};
    }
    rows := CopyRecords(gross, commission, overriding, cost, profit, copyTypes);
  }

  /** The second loop of `extract_manager_financials`: one record per copy
      type, every record with the same figures. */
  method CopyRecords(gross: real, commission: real, overriding: real, cost: real, profit: real,
                     copyTypes: set<string>) returns (rows: seq<FinancialRow>)
    ensures |rows| == |copyTypes| && Categories(rows) == copyTypes
    ensures forall r :: r in rows ==> r == FinancialRow(gross, commission, overriding, cost, profit, r.category)
  {
    rows := [];
    var remaining := copyTypes;
    while remaining != {}
      invariant remaining <= copyTypes
      invariant |rows| + |remaining| == |copyTypes|
      invariant Categories(rows) == copyTypes - remaining
      invariant forall r :: r in rows ==> r == FinancialRow(gross, commission, overriding, cost, profit, r.category)
      decreases |remaining|
    {
      var c :| c in remaining;
      var row := FinancialRow(gross, commission, overriding, cost, profit, c);
      CategoriesAppend(rows, row);
      rows := rows + [row];
      assert copyTypes - (remaining - {c}) == (copyTypes - remaining) + {c};
      remaining := remaining - {c};
    }
  }

  // =====================================================================
  // split_by_copy
  // =====================================================================

  /** `"COPY" in line.upper()` */
  predicate IsCopyLine(line: string)
  {
    OccursFrom(Upper(line), "COPY", 0)
  }

  /** `w in u[p:]` */
  predicate OccursFrom(u: string, w: string, p: nat)
    decreases |u| - p
  {
    p + |w| <= |u| && (u[p..p + |w|] == w || OccursFrom(u, w, p + 1))
  }

  /** The blocks as lists of lines: a COPY line closes the block before it
      and opens a new one; the first line always opens a block. */
  function CopyGroups(lines: seq<string>): (gs: seq<seq<string>>)
    decreases |lines|
    ensures |gs| <= |lines| && (lines != [] <==> gs != [])
  {
    if lines == [] then []
    else
      CutStep(CopyGroups(lines[..|lines| - 1]), lines[|lines| - 1])
  }

  /** One step of the cut: the line `l` opens a new block or joins the
      last one. */
  function CutStep(gs: seq<seq<string>>, l: string): seq<seq<string>>
  {
    if gs == [] || IsCopyLine(l) then gs + [[l]]
    else gs[..|gs| - 1] + [gs[|gs| - 1] + [l]]
  }

  /** No block is empty, each block after the first starts with a COPY
      line, and no COPY line sits inside a block. */
  predicate WellCut(gs: seq<seq<string>>)
  {
    (forall j :: 0 <= j < |gs| ==> gs[j] != [])
    && (forall j :: 0 < j < |gs| ==> IsCopyLine(gs[j][0]))
    && (forall j, k :: 0 <= j < |gs| && 0 < k < |gs[j]| ==> !IsCopyLine(gs[j][k]))
  }

  lemma CutStepShape(gs: seq<seq<string>>, l: string)
    requires WellCut(gs)
    ensures WellCut(CutStep(gs, l))
    ensures Flatten(CutStep(gs, l)) == Flatten(gs) + [l]
  {
    if gs == [] || IsCopyLine(l) {
      FlattenAppend(gs, [l]);
    } else {
      var init := gs[..|gs| - 1];
      var last := gs[|gs| - 1];
      assert gs == init + [last];
      FlattenAppend(init, last);
      FlattenAppend(init, last + [l]);
      JoinLastWellCut(gs, init, last, l, CutStep(gs, l));
    }
  }

  /** A plain line joining the last block keeps the cut well formed. */
  lemma JoinLastWellCut(gs: seq<seq<string>>, init: seq<seq<string>>, last: seq<string>, l: string, r: seq<seq<string>>)
    requires WellCut(gs) && gs == init + [last] && !IsCopyLine(l)
    requires r == init + [last + [l]]
    ensures WellCut(r)
  {
    assert |r| == |gs|;
    forall j | 0 <= j < |r| ensures r[j] != [] && (0 < j ==> IsCopyLine(r[j][0])) {
      if j < |init| {
        assert r[j] == gs[j];
      } else {
        assert r[j] == last + [l] && gs[j] == last;
      }
    }
    forall j, k | 0 <= j < |r| && 0 < k < |r[j]| ensures !IsCopyLine(r[j][k]) {
      if j < |init| {
        assert r[j] == gs[j];
      } else if k < |last| {
        assert gs[j] == last;
        assert r[j][k] == last[k];
      }
    }
  }

  /** The blocks cut the lines without losing, adding or reordering any,
      and the cut is well formed. */
  lemma {:induction false} CopyGroupsShape(lines: seq<string>)
    decreases |lines|
    ensures Flatten(CopyGroups(lines)) == lines
    ensures WellCut(CopyGroups(lines))
  {
    if lines != [] {
      var pre := lines[..|lines| - 1];
      var l := lines[|lines| - 1];
      CopyGroupsShape(pre);
      assert lines == pre + [l];
      assert CopyGroups(lines) == CutStep(CopyGroups(pre), l);
      CutStepShape(CopyGroups(pre), l);
    }
  }

  /** The blocks closed so far, plus the open one when it has lines. */
  function Pending(done: seq<seq<string>>, current: seq<string>): seq<seq<string>>
  {
    if current == [] then done else done + [current]
  }

  /** A COPY line closes the open block and opens its own; any other line
      joins the open block. */
  lemma PendingStep(done: seq<seq<string>>, current: seq<string>, line: string)
    requires current == [] ==> done == []
    ensures IsCopyLine(line) && current != [] ==>
      CutStep(Pending(done, current), line) == Pending(done + [current], [line])
    ensures !(IsCopyLine(line) && current != []) ==>
      CutStep(Pending(done, current), line) == Pending(done, current + [line])
  {
    if current != [] {
      var p := done + [current];
      assert p[..|p| - 1] == done && p[|p| - 1] == current;
      if !IsCopyLine(line) {
        assert CutStep(p, line) == done + [current + [line]];
      }
    } else {
      assert CutStep([], line) == [[line]];
      assert current + [line] == [line];
      assert Pending(done, [line]) == [[line]];
    }
  }

  /** The blocks of one more line, in terms of the accumulators. */
  lemma SplitStep(lines: seq<string>, i: nat, done: seq<seq<string>>, current: seq<string>)
    requires i < |lines| && CopyGroups(lines[..i]) == Pending(done, current)
    requires current == [] ==> done == []
    ensures IsCopyLine(lines[i]) && current != [] ==>
      CopyGroups(lines[..i + 1]) == Pending(done + [current], [] + [lines[i]])
    ensures !(IsCopyLine(lines[i]) && current != []) ==>
      CopyGroups(lines[..i + 1]) == Pending(done, current + [lines[i]])
  {
    var pre := lines[..i + 1];
    assert pre[..|pre| - 1] == lines[..i] && pre[|pre| - 1] == lines[i];
    assert CopyGroups(pre) == CutStep(CopyGroups(lines[..i]), lines[i]);
    PendingStep(done, current, lines[i]);
    assert [] + [lines[i]] == [lines[i]];
  }

  /** `split_by_copy`: walks the lines with the `blocks` and `current`
      accumulators. */
  method SplitByCopy(text: string) returns (blocks: seq<string>)
    ensures blocks == JoinEach(CopyGroups(SplitLines(text)), "\n")
  {
    var lines := SplitLines(text);
    blocks := [];
    var current: seq<string> := [];
    ghost var done: seq<seq<string>> := [];
    for i := 0 to |lines|
      invariant blocks == JoinEach(done, "\n")
      invariant CopyGroups(lines[..i]) == Pending(done, current)
      invariant current == [] ==> done == [] && i == 0
    {
      var line := lines[i];
      SplitStep(lines, i, done, current);
      if IsCopyLine(line) {
        if current != [] {
          JoinEachAppend(done, current, "\n");
          blocks := blocks + [Join(current, "\n")];
          done := done + [current];
          current := [];
        }
      }
      current := current + [line];
    }
    CloseLast(lines, done, current, blocks);
    if current != [] {
      blocks := blocks + [Join(current, "\n")];
    }
  }

  /** The open block closes the walk. */
  lemma CloseLast(lines: seq<string>, done: seq<seq<string>>, current: seq<string>, blocks: seq<string>)
    requires CopyGroups(lines[..|lines|]) == Pending(done, current)
    requires blocks == JoinEach(done, "\n")
    ensures current == [] ==> blocks == JoinEach(CopyGroups(lines), "\n")
    ensures current != [] ==> blocks + [Join(current, "\n")] == JoinEach(CopyGroups(lines), "\n")
  {
    assert lines[..|lines|] == lines;
    JoinEachAppend(done, current, "\n");
  }

  /** Joining the blocks with newlines gives back the joined lines. */
  lemma SplitByCopyJoin(text: string)
    ensures Join(JoinEach(CopyGroups(SplitLines(text)), "\n"), "\n") == Join(SplitLines(text), "\n")
  {
    CopyGroupsShape(SplitLines(text));
    JoinFlatten(CopyGroups(SplitLines(text)), "\n");
  }

  // =====================================================================
  // A worked example: five amounts above 50 under the header, read as four
  // =====================================================================

  /** The header, then five amounts that are each above 50. */
  const Example: string := "GROSS PREMIUM\n1000 200 60 300 120"

  /** The text passes the GROSS PREMIUM gate. */
  lemma ExampleHasHeader(t: string)
    requires t == Example
    ensures HasGrossPremium(t)
  {
    assert SkipSpace(t, 6) == 6;
    assert SkipSpace(t, 5) == 6;
    assert GrossPremiumAt(t, 0);
  }

  /** No token starts where no digit is. */
  lemma {:induction false} TokensSkip(t: string, p: nat, q: nat)
    requires p <= q <= |t|
    requires forall k :: p <= k < q ==> !IsDigit(t[k])
    decreases q - p
    ensures Tokens(t, p) == Tokens(t, q)
  {
    if p < q {
      assert SkipDigits(t, p) == p;
      TokensSkip(t, p + 1, q);
    }
  }

  /** "1000 ": the space is taken, and no fraction digit ends on a word
      boundary after it. */
  lemma ExampleToken14(t: string)
    requires t == Example
    ensures TokenAt(t, 14) == Some((18, 19, 19))
  {
    assert SkipDigits(t, 18) == 18;
    assert SkipDigits(t, 16) == 18;
    assert SkipDigits(t, 14) == 18;
    assert SkipDigits(t, 22) == 22;
    assert SkipDigits(t, 20) == 22;
    assert SkipDigits(t, 19) == 22;
    assert !BoundaryAt(t, 21) && !BoundaryAt(t, 20) && BoundaryAt(t, 19);
    assert FracEnd(t, 19, 2) == Some(19);
    assert SepEnd(t, 18) == Some((19, 19));
    assert WholeEnd(t, 14, 4) == Some((18, 19, 19));
  }

  /** "200 60": the space is taken and both digits of "60" follow it. */
  lemma ExampleToken19(t: string)
    requires t == Example
    ensures TokenAt(t, 19) == Some((22, 23, 25))
  {
    assert SkipDigits(t, 22) == 22;
    assert SkipDigits(t, 20) == 22;
    assert SkipDigits(t, 19) == 22;
    assert SkipDigits(t, 25) == 25;
    assert SkipDigits(t, 23) == 25;
  }

  /** No token starts at the space, then "300 " and "120". */
  lemma ExampleLastTokens(t: string)
    requires t == Example
    ensures TokenAt(t, 25) == None && TokenAt(t, 26) == Some((29, 30, 30))
    ensures TokenAt(t, 30) == Some((33, 33, 33))
  {
    assert SkipDigits(t, 25) == 25 && SkipDigits(t, 29) == 29;
    assert SkipDigits(t, 26) == 29 && SkipDigits(t, 27) == 29;
    assert SkipDigits(t, 32) == 33 && SkipDigits(t, 30) == 33;
    assert SkipDigits(t, 33) == 33;
    assert !BoundaryAt(t, 32) && !BoundaryAt(t, 31) && BoundaryAt(t, 30);
    assert FracEnd(t, 30, 2) == Some(30);
  }

  lemma ExampleTail(t: string)
    requires t == Example
    ensures Tokens(t, 25) == [t[26..30], t[30..33]]
  {
    ExampleLastTokens(t);
    assert Tokens(t, 33) == [];
    assert Tokens(t, 30) == [t[30..33]];
    assert Tokens(t, 26) == [t[26..30], t[30..33]];
  }

  /** One match, then the search resumes at its end. */
  lemma TokensStep(t: string, p: nat, a: nat, b: nat, e: nat)
    requires p < |t| && TokenAt(t, p) == Some((a, b, e))
    ensures Tokens(t, p) == [t[p..e]] + Tokens(t, e)
  {
  }

  /** The header holds no digit. */
  lemma ExampleHeaderNoDigits(t: string)
    requires t == Example
    ensures forall k :: 0 <= k < 14 ==> !IsDigit(t[k])
  {
  }

  /** The amounts give four tokens: "200 60" is one. */
  lemma ExampleBodyTokens(t: string)
    requires t == Example
    ensures Tokens(t, 14) == [t[14..19], t[19..25], t[26..30], t[30..33]]
  {
    ExampleToken14(t);
    ExampleToken19(t);
    ExampleTail(t);
    TokensStep(t, 14, 18, 19, 19);
    TokensStep(t, 19, 22, 23, 25);
    TokensTwoSteps(t, t[14..19], t[19..25], [t[26..30], t[30..33]]);
  }

  lemma TokensTwoSteps(t: string, x0: string, x1: string, rest: seq<string>)
    requires 25 <= |t|
    requires Tokens(t, 14) == [x0] + Tokens(t, 19) && Tokens(t, 19) == [x1] + Tokens(t, 25)
    requires Tokens(t, 25) == rest
    ensures Tokens(t, 14) == [x0, x1] + rest
  {
  }

  /** The five amounts give four tokens. */
  lemma ExampleTokens(t: string)
    requires t == Example
    ensures Tokens(t, 0) == [t[14..19], t[19..25], t[26..30], t[30..33]]
  {
    ExampleHeaderNoDigits(t);
    TokensSkip(t, 0, 14);
    ExampleBodyTokens(t);
  }

  /** A token of digits, a space and digits reads as the digits run on. */
  lemma SpacedReading(s: string, w: string, f: string, v: nat)
    requires AllDigits(w) && AllDigits(f) && w != [] && s == w + [' '] + f
    requires DigitsValue(w + f) == v
    ensures TokenValue(s) == Some(v as real)
  {
    TokenValueSpaced(s, w, f);
  }

  /** The digit strings of the example, read as numbers. */
  lemma ExampleDigitValues()
    ensures DigitsValue("1000" + "") == 1000 && DigitsValue("200" + "60") == 20060
    ensures DigitsValue("300" + "") == 300 && DigitsValue("120") == 120
  {
    assert "1000" + "" == "1000" && "300" + "" == "300" && "200" + "60" == "20060";
    assert "1000"[..3] == "100" && "100"[..2] == "10" && "10"[..1] == "1" && "1"[..0] == "";
    assert DigitsValue("10") == 10;
    assert "20060"[..4] == "2006" && "2006"[..3] == "200" && "200"[..2] == "20" && "20"[..1] == "2";
    assert DigitsValue("200") == 200;
    assert "300"[..2] == "30" && "30"[..1] == "3";
    assert "120"[..2] == "12" && "12"[..1] == "1";
  }

  /** "1000 ", "200 60" and "300 ": the space is deleted. */
  lemma SpacedReadings(s0: string, s1: string, s2: string)
    requires s0 == "1000 " && s1 == "200 60" && s2 == "300 "
    ensures TokenValue(s0) == Some(1000.0) && TokenValue(s1) == Some(20060.0)
    ensures TokenValue(s2) == Some(300.0)
  {
    assert s0 == "1000" + [' '] + "";
    assert s1 == "200" + [' '] + "60";
    assert s2 == "300" + [' '] + "";
    ExampleDigitValues();
    SpacedReading(s0, "1000", "", 1000);
    SpacedReading(s1, "200", "60", 20060);
    SpacedReading(s2, "300", "", 300);
  }

  /** "120" reads as itself. */
  lemma RunReading(s: string)
    requires s == "120"
    ensures TokenValue(s) == Some(120.0)
  {
    assert s == "120" + "";
    ExampleDigitValues();
    TokenValueRun(s, "120", "");
  }

  /** The readings of the four tokens. */
  lemma ExampleReadings(t: string)
    requires t == Example
    ensures TokenValue(t[14..19]) == Some(1000.0) && TokenValue(t[19..25]) == Some(20060.0)
    ensures TokenValue(t[26..30]) == Some(300.0) && TokenValue(t[30..33]) == Some(120.0)
  {
    assert t[14..19] == "1000 " && t[19..25] == "200 60";
    assert t[26..30] == "300 " && t[30..33] == "120";
    SpacedReadings(t[14..19], t[19..25], t[26..30]);
    RunReading(t[30..33]);
  }

  /** A token that reads above 50 adds its value at the end. */
  lemma LargeValuesSnoc(pre: seq<string>, x: string, v: real)
    requires TokenValue(x) == Some(v) && v > 50.0
    ensures LargeValues(pre + [x]) == LargeValues(pre) + [v]
  {
    assert (pre + [x])[..|pre|] == pre;
  }

  /** Four tokens that each read above 50 give their four values. */
  lemma LargeValuesOfFour(a: string, b: string, c: string, d: string, va: real, vb: real, vc: real, vd: real)
    requires TokenValue(a) == Some(va) && TokenValue(b) == Some(vb)
    requires TokenValue(c) == Some(vc) && TokenValue(d) == Some(vd)
    requires va > 50.0 && vb > 50.0 && vc > 50.0 && vd > 50.0
    ensures LargeValues([a, b, c, d]) == [va, vb, vc, vd]
  {
    LargeValuesSnoc([], a, va);
    LargeValuesSnoc([a], b, vb);
    LargeValuesSnoc([a, b], c, vc);
    LargeValuesSnoc([a, b, c], d, vd);
    assert [] + [a] == [a] && [a] + [b] == [a, b] && [a, b] + [c] == [a, b, c] && [a, b, c] + [d] == [a, b, c, d];
  }

  /** The four tokens read 1000, 20060 (the space is deleted), 300 and
      120, all above 50. */
  lemma ExampleValues(t: string)
    requires t == Example
    ensures LargeValues(Tokens(t, 0)) == [1000.0, 20060.0, 300.0, 120.0]
  {
    ExampleTokens(t);
    ExampleReadings(t);
    LargeValuesOfFour(t[14..19], t[19..25], t[26..30], t[30..33], 1000.0, 20060.0, 300.0, 120.0);
  }

  /** The header is there and all five amounts are above 50, but "200 60"
      is read as one token, so only four values qualify and no record is
      produced. */
  lemma ExampleNoFinancials(t: string, rows: seq<FinancialRow>)
    requires t == Example && FinancialsFor(t, rows)
    ensures HasGrossPremium(t) && |LargeValues(Tokens(t, 0))| == 4
    ensures rows == []
  {
    ExampleHasHeader(t);
    ExampleValues(t);
  }
}
