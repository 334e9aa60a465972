/** The text-level helpers of the renewal-notice parser: `normalize_ocr_text`
    (one tidy line per non-blank input line), `fix_ocr_numbers` (letters OCR
    reads in place of digits) and `clean_money` (the digits of an amount). */
module RenewalText {
  import opened Text
  import opened Numbers

  // ---------------------------------------------------------------------
  // Words: `str.split()` over concatenations
  // ---------------------------------------------------------------------

  /** The front word is not extended past a whitespace boundary. */
  lemma {:induction false} TakeWordPrefix(a: string, b: string)
    requires b == [] || IsSpace(b[0]) || (a != [] && IsSpace(a[|a| - 1]))
    ensures TakeWord(a + b) == TakeWord(a)
    decreases |a|
  {
    if a != [] && !IsSpace(a[0]) {
      assert (a + b)[1..] == a[1..] + b;
      TakeWordPrefix(a[1..], b);
    }
  }

  /** A whitespace-free text is one word. */
  lemma {:induction false} TakeWordAll(w: string)
    requires NoSpace(w)
    ensures TakeWord(w) == w
    decreases |w|
  {
    if w != [] {
      TakeWordAll(w[1..]);
    }
  }

  /** Splitting two texts that meet at whitespace is splitting each. */
  lemma {:induction false} WordsAppend(a: string, b: string)
    requires a == [] || b == [] || IsSpace(a[|a| - 1]) || IsSpace(b[0])
    ensures Words(a + b) == Words(a) + Words(b)
    decreases |a|
  {
    var ab := a + b;
    if a == [] {
      assert ab == b;
    } else if IsSpace(a[0]) {
      assert ab[1..] == a[1..] + b;
      WordsAppend(a[1..], b);
      WordsSkip(ab);
      WordsSkip(a);
    } else {
      var w := TakeWord(a);
      TakeWordPrefix(a, b);
      var rest := a[|w|..];
      assert ab[|w|..] == rest + b;
      WordsAppend(rest, b);
      WordsCons(ab, w);
      WordsCons(a, w);
    }
  }

  /** `split()` past a leading whitespace character. */
  lemma WordsSkip(s: string)
    requires s != [] && IsSpace(s[0])
    ensures Words(s) == Words(s[1..])
  {
  }

  /** `split()` of a text opening with the word `w`. */
  lemma WordsCons(s: string, w: string)
    requires s != [] && !IsSpace(s[0]) && w == TakeWord(s)
    ensures Words(s) == [w] + Words(s[|w|..])
  {
  }

  /** Whitespace alone has no words. */
  lemma {:induction false} WordsBlank(s: string)
    requires forall k :: 0 <= k < |s| ==> IsSpace(s[k])
    ensures Words(s) == []
    decreases |s|
  {
    if s != [] {
      WordsBlank(s[1..]);
    }
  }

  /** Stripping keeps every word. */
  lemma WordsStrip(s: string)
    ensures Words(Strip(s)) == Words(s)
  {
    var i := StripSlice(s);
    var m := Strip(s);
    var pre, post := s[..i], s[i + |m|..];
    assert s == pre + m + post;
    WordsPadded(pre, m, post);
  }

  /** Whitespace around a text adds no words. */
  lemma WordsPadded(pre: string, m: string, post: string)
    requires forall k :: 0 <= k < |pre| ==> IsSpace(pre[k])
    requires forall k :: 0 <= k < |post| ==> IsSpace(post[k])
    ensures Words(pre + m + post) == Words(m)
  {
    var mp := m + post;
    assert pre + m + post == pre + mp;
    WordsBlank(pre);
    WordsBlank(post);
    WordsAppend(pre, mp);
    WordsAppend(m, post);
    assert Words(mp) == Words(m) + [];
  }

  /** Words joined by single spaces split back into the same words. */
  lemma {:induction false} WordsJoinWords(ws: seq<string>)
    requires forall k :: 0 <= k < |ws| ==> ws[k] != [] && NoSpace(ws[k])
    ensures Words(Join(ws, " ")) == ws
    decreases |ws|
  {
    if |ws| == 1 {
      WordsOneWord(ws[0]);
    } else if |ws| > 1 {
      var w, rest := ws[0], Join(ws[1..], " ");
      var sr := " " + rest;
      assert Join(ws, " ") == w + sr;
      WordsJoinWords(ws[1..]);
      WordsAppend(w, sr);
      WordsSkip(sr);
      assert sr[1..] == rest;
      WordsOneWord(w);
      assert ws == [w] + ws[1..];
    }
  }

  /** A non-empty whitespace-free text is a single word. */
  lemma WordsOneWord(w: string)
    requires w != [] && NoSpace(w)
    ensures Words(w) == [w]
  {
    TakeWordAll(w);
    WordsCons(w, w);
    assert w[|w|..] == [];
  }

  /** Texts that differ only in which whitespace character stands where
      have the same words. */
  lemma {:induction false} WordsSameSpacing(s: string, t: string)
    requires |s| == |t|
    requires forall k :: 0 <= k < |s| ==> (IsSpace(s[k]) <==> IsSpace(t[k]))
    requires forall k :: 0 <= k < |s| && !IsSpace(s[k]) ==> s[k] == t[k]
    ensures Words(s) == Words(t)
    decreases |s|
  {
    if s != [] {
      if IsSpace(s[0]) {
        WordsSameSpacing(s[1..], t[1..]);
      } else {
        var n := SameTakeWord(s, t);
        WordsSameSpacing(s[n..], t[n..]);
      }
    }
  }

  lemma {:induction false} SameTakeWord(s: string, t: string) returns (n: nat)
    requires |s| == |t|
    requires forall k :: 0 <= k < |s| ==> (IsSpace(s[k]) <==> IsSpace(t[k]))
    requires forall k :: 0 <= k < |s| && !IsSpace(s[k]) ==> s[k] == t[k]
    ensures n == |TakeWord(s)| && TakeWord(s) == TakeWord(t)
    decreases |s|
  {
    if s == [] || IsSpace(s[0]) {
      n := 0;
    } else {
      var m := SameTakeWord(s[1..], t[1..]);
      n := m + 1;
    }
  }

  // ---------------------------------------------------------------------
  // Tidy text
  // ---------------------------------------------------------------------

  /** No whitespace at either end and never two whitespace characters in a row. */
  predicate SingleSpaced(y: string)
  {
    (y == [] || (!IsSpace(y[0]) && !IsSpace(y[|y| - 1])))
    && forall k :: 0 <= k < |y| - 1 && IsSpace(y[k]) ==> !IsSpace(y[k + 1])
  }

  /** The only whitespace characters in `y` are those in `seps`. */
  predicate SpacesAmong(y: string, seps: set<char>)
  {
    forall k :: 0 <= k < |y| && IsSpace(y[k]) ==> y[k] in seps
  }

  /** A line of normalized text: non-empty, words separated by single spaces. */
  predicate CollapsedLine(l: string)
  {
    l != [] && SingleSpaced(l) && SpacesAmong(l, {' '})
  }

  /** Two tidy pieces around one separator make a tidy text. */
  lemma TidyJoinTwo(a: string, c: char, b: string, seps: set<char>)
    requires a != [] && b != [] && IsSpace(c) && c in seps
    requires SingleSpaced(a) && SingleSpaced(b) && SpacesAmong(a, seps) && SpacesAmong(b, seps)
    ensures SingleSpaced(a + [c] + b) && SpacesAmong(a + [c] + b, seps)
  {
    var y := a + [c] + b;
    assert forall k :: 0 <= k < |a| ==> y[k] == a[k];
    assert forall k :: |a| < k < |y| ==> y[k] == b[k - |a| - 1];
    assert y[|a|] == c;
  }

  /** Tidy pieces joined by one whitespace separator make a tidy text. */
  lemma {:induction false} TidyJoin(ls: seq<string>, c: char, seps: set<char>)
    requires IsSpace(c) && c in seps
    requires forall k :: 0 <= k < |ls| ==> ls[k] != [] && SingleSpaced(ls[k]) && SpacesAmong(ls[k], seps)
    ensures SingleSpaced(Join(ls, [c])) && SpacesAmong(Join(ls, [c]), seps)
    ensures ls != [] ==> Join(ls, [c]) != []
    decreases |ls|
  {
    if |ls| > 1 {
      TidyJoin(ls[1..], c, seps);
      TidyJoinTwo(ls[0], c, Join(ls[1..], [c]), seps);
    }
  }

  /** `" ".join(line.split())` */
  function Collapse(line: string): string
  {
    Join(Words(line), " ")
  }

  /** A line with a non-space first character collapses to a proper line
      holding the same words. */
  lemma CollapseShape(line: string)
    requires line != [] && !IsSpace(line[0])
    ensures CollapsedLine(Collapse(line)) && Words(Collapse(line)) == Words(line)
  {
    var ws := Words(line);
    assert ws != [];
    TidyJoin(ws, ' ', {' '});
    WordsJoinWords(ws);
  }

  /** A proper line is already collapsed. */
  lemma {:induction false} CollapseFixes(l: string)
    requires CollapsedLine(l)
    ensures Collapse(l) == l
    decreases |l|
  {
    var w := TakeWord(l);
    if |w| < |l| {
      var rest := CollapsedRest(l, |w|);
      CollapseFixes(rest);
      assert l[|w|..][1..] == rest;
      assert Words(l) == [w] + Words(rest);
    } else {
      assert l[|w|..] == [];
    }
  }

  /** What follows the first space of a proper line is a proper line. */
  lemma CollapsedRest(l: string, n: nat) returns (rest: string)
    requires CollapsedLine(l) && n < |l| && IsSpace(l[n])
    ensures n + 1 < |l| && l[n] == ' ' && rest == l[n + 1..] && CollapsedLine(rest)
  {
    rest := l[n + 1..];
    assert forall k :: 0 <= k < |rest| ==> rest[k] == l[n + 1 + k];
  }

  // ---------------------------------------------------------------------
  // normalize_ocr_text
  // ---------------------------------------------------------------------

  function CollapseEach(lines: seq<string>): (r: seq<string>)
    ensures |r| == |lines| && forall k :: 0 <= k < |lines| ==> r[k] == Collapse(lines[k])
  {
    seq(|lines|, k requires 0 <= k < |lines| => Collapse(lines[k]))
  }

  /** `normalize_ocr_text`: "" stays ""; carriage returns become newlines;
      each line is stripped, blank lines are dropped and runs of whitespace
      inside a line become one space. */
  function NormalizeOcrText(raw: string): string
  {
    if raw == [] then []
    else
      var text := Replace(raw, "\r", "\n");
      Join(CollapseEach(StrippedNonBlank(SplitOn(text, '\n'))), "\n")
  }

  /** Text the normalizer produces: "" or newline-separated proper lines. */
  predicate Normalized(y: string)
  {
    y == [] || forall l <- SplitOn(y, '\n') :: CollapsedLine(l)
  }

  /** Normalized text, character by character: no whitespace but spaces and
      newlines (so no carriage return or tab), none at either end, and never
      two in a row (so no empty line, no line with spaces at its ends, no
      double space). */
  predicate TidyText(y: string)
  {
    SingleSpaced(y) && SpacesAmong(y, {' ', '\n'})
  }

  /** Splitting text joined on `c` gives the pieces back when none holds `c`. */
  lemma {:induction false} SplitOnJoin(ls: seq<string>, c: char)
    requires ls != [] && forall k :: 0 <= k < |ls| ==> c !in ls[k]
    ensures SplitOn(Join(ls, [c]), c) == ls
    decreases |ls|
  {
    var s := Join(ls, [c]);
    if |ls| == 1 {
      assert IndexOf(s, c, 0).None?;
    } else {
      var rest := Join(ls[1..], [c]);
      assert s == ls[0] + [c] + rest;
      SplitOnFirst(ls[0], c, rest);
      SplitOnJoin(ls[1..], c);
      assert ls == [ls[0]] + ls[1..];
    }
  }

  /** Splitting at the first separator. */
  lemma SplitOnFirst(a: string, c: char, b: string)
    requires c !in a
    ensures SplitOn(a + [c] + b, c) == [a] + SplitOn(b, c)
  {
    var s := a + [c] + b;
    var i := |a|;
    assert s[i] == c;
    assert forall k :: 0 <= k < i ==> s[k] == a[k];
    assert IndexOf(s, c, 0) == Some(i);
    assert s[..i] == a;
    assert s[i + 1..] == b;
  }

  /** Kept lines collapse to proper lines with the same words. */
  lemma {:induction false} CollapseEachShape(ls: seq<string>)
    requires forall l <- ls :: l != [] && Strip(l) == l
    ensures forall k :: 0 <= k < |ls| ==> CollapsedLine(CollapseEach(ls)[k])
  {
    forall k | 0 <= k < |ls| ensures CollapsedLine(CollapseEach(ls)[k]) {
      assert ls[k] in ls;
      CollapseShape(ls[k]);
    }
  }

  /** The normalizer's output is normalized. */
  lemma NormalizeNormalized(raw: string)
    ensures Normalized(NormalizeOcrText(raw))
  {
    if raw != [] {
      var lines := SplitOn(Replace(raw, "\r", "\n"), '\n');
      var kept := StrippedNonBlank(lines);
      StrippedNonBlankShape(lines);
      CollapseEachShape(kept);
      NormalizedJoin(CollapseEach(kept));
    }
  }

  /** Proper lines joined by newlines are normalized text. */
  lemma NormalizedJoin(cs: seq<string>)
    requires forall k :: 0 <= k < |cs| ==> CollapsedLine(cs[k])
    ensures Normalized(Join(cs, "\n"))
  {
    if cs != [] {
      forall k | 0 <= k < |cs| ensures '\n' !in cs[k] {
        CollapsedNoNewline(cs[k]);
      }
      SplitOnJoin(cs, '\n');
    }
  }

  lemma CollapsedNoNewline(l: string)
    requires SpacesAmong(l, {' '})
    ensures '\n' !in l
  {
  }

  /** Normalized text, read character by character. */
  lemma NormalizedTidy(y: string)
    requires Normalized(y)
    ensures TidyText(y)
  {
    if y != [] {
      var ls := SplitOn(y, '\n');
      JoinSplitOn(y, '\n');
      forall k | 0 <= k < |ls|
        ensures ls[k] != [] && SingleSpaced(ls[k]) && SpacesAmong(ls[k], {' ', '\n'})
      {
        assert ls[k] in ls;
      }
      TidyJoin(ls, '\n', {' ', '\n'});
    }
  }

  /** Stripping and dropping blanks leaves lines that are already stripped
      and non-blank alone. */
  lemma {:induction false} StrippedNonBlankFixes(ls: seq<string>)
    requires forall k :: 0 <= k < |ls| ==> CollapsedLine(ls[k])
    ensures StrippedNonBlank(ls) == ls
    decreases |ls|
  {
    if ls != [] {
      StripTrimmed(ls[0]);
      StrippedNonBlankFixes(ls[1..]);
      assert ls == [ls[0]] + ls[1..];
    }
  }

  /** Normalized text is left as it is. */
  lemma NormalizeFixes(y: string)
    requires Normalized(y)
    ensures NormalizeOcrText(y) == y
  {
    if y != [] {
      NormalizedTidy(y);
      ReplaceOneChar(y, '\r', '\n');
      assert MapChar(y, '\r', '\n') == y by {
        forall k | 0 <= k < |y| ensures y[k] != '\r' {
          if y[k] == '\r' { assert IsSpace(y[k]); }
        }
      }
      var ls := SplitOn(y, '\n');
      assert forall k :: 0 <= k < |ls| ==> CollapsedLine(ls[k]) by {
        forall k | 0 <= k < |ls| ensures CollapsedLine(ls[k]) { assert ls[k] in ls; }
      }
      StrippedNonBlankFixes(ls);
      CollapseEachFixes(ls);
      JoinSplitOn(y, '\n');
    }
  }

  lemma CollapseEachFixes(ls: seq<string>)
    requires forall k :: 0 <= k < |ls| ==> CollapsedLine(ls[k])
    ensures CollapseEach(ls) == ls
  {
    forall k | 0 <= k < |ls| ensures CollapseEach(ls)[k] == ls[k] {
      CollapseFixes(ls[k]);
    }
  }

  /** Normalizing twice is normalizing once. */
  lemma NormalizeIdempotent(raw: string)
    ensures NormalizeOcrText(NormalizeOcrText(raw)) == NormalizeOcrText(raw)
  {
    NormalizeNormalized(raw);
    NormalizeFixes(NormalizeOcrText(raw));
  }

  /** Normalized text has no carriage return, no empty line, no whitespace at
      the ends of a line and no double space. */
  lemma NormalizeTidy(raw: string)
    ensures TidyText(NormalizeOcrText(raw))
  {
    NormalizeNormalized(raw);
    NormalizedTidy(NormalizeOcrText(raw));
  }

  // ---------------------------------------------------------------------
  // Normalizing keeps the words
  // ---------------------------------------------------------------------

  /** The words of each line, one line after the other. */
  function AllWords(ls: seq<string>): seq<string>
  {
    if ls == [] then [] else Words(ls[0]) + AllWords(ls[1..])
  }

  /** Lines joined by a whitespace separator hold the words of the lines. */
  lemma {:induction false} WordsJoinLines(ls: seq<string>, c: char)
    requires IsSpace(c)
    ensures Words(Join(ls, [c])) == AllWords(ls)
    decreases |ls|
  {
    if |ls| == 1 {
      assert AllWords(ls) == Words(ls[0]) + [];
    } else if |ls| > 1 {
      var rest := Join(ls[1..], [c]);
      var cr := [c] + rest;
      assert Join(ls, [c]) == ls[0] + cr;
      WordsAppend(ls[0], cr);
      WordsSkip(cr);
      assert cr[1..] == rest;
      WordsJoinLines(ls[1..], c);
    }
  }

  /** Stripping lines and dropping blank ones loses no word. */
  lemma {:induction false} AllWordsStripped(ls: seq<string>)
    ensures AllWords(StrippedNonBlank(ls)) == AllWords(ls)
    decreases |ls|
  {
    if ls != [] {
      WordsStrip(ls[0]);
      AllWordsStripped(ls[1..]);
      if Strip(ls[0]) == [] {
        assert Words(ls[0]) == [];
        assert AllWords(ls) == [] + AllWords(ls[1..]);
      }
    }
  }

  /** Collapsing lines loses no word. */
  lemma {:induction false} AllWordsCollapsed(ls: seq<string>)
    requires forall k :: 0 <= k < |ls| ==> ls[k] != [] && !IsSpace(ls[k][0])
    ensures AllWords(CollapseEach(ls)) == AllWords(ls)
    decreases |ls|
  {
    if ls != [] {
      CollapseShape(ls[0]);
      assert CollapseEach(ls)[1..] == CollapseEach(ls[1..]);
      AllWordsCollapsed(ls[1..]);
    }
  }

  /** Normalizing changes only whitespace: the text keeps its words, in order. */
  lemma NormalizeKeepsWords(raw: string)
    ensures Words(NormalizeOcrText(raw)) == Words(raw)
  {
    if raw != [] {
      var m := Replace(raw, "\r", "\n");
      ReplaceOneChar(raw, '\r', '\n');
      WordsSameSpacing(raw, m);
      var lines := SplitOn(m, '\n');
      JoinSplitOn(m, '\n');
      WordsJoinLines(lines, '\n');
      var kept := StrippedNonBlank(lines);
      AllWordsStripped(lines);
      StrippedNonBlankShape(lines);
      assert forall k :: 0 <= k < |kept| ==> kept[k] != [] && !IsSpace(kept[k][0]) by {
        forall k | 0 <= k < |kept| ensures kept[k] != [] && !IsSpace(kept[k][0]) {
          assert kept[k] in kept;
        }
      }
      AllWordsCollapsed(kept);
      WordsJoinLines(CollapseEach(kept), '\n');
    }
  }

  // ---------------------------------------------------------------------
  // fix_ocr_numbers
  // ---------------------------------------------------------------------

  /** The correction table, in its insertion order. */
  const OcrDigitFixes: seq<Rule> :=
    [Rule("Q", "0"), Rule("o", "0"), Rule("O", "0"), Rule("z", "2"),
     Rule("Z", "2"), Rule("l", "1"), Rule("|", "1"), Rule("I", "1")]

  /** The characters OCR reads in place of digits. */
  const OcrMisreads: set<char> := {'Q', 'o', 'O', 'z', 'Z', 'l', '|', 'I'}

  /** The table's effect on one character. */
  function FixDigitChar(c: char): (r: char)
    ensures r !in OcrMisreads
    ensures r != c ==> c in OcrMisreads && IsDigit(r)
  {
    if c == 'Q' || c == 'o' || c == 'O' then '0'
    else if c == 'z' || c == 'Z' then '2'
    else if c == 'l' || c == '|' || c == 'I' then '1'
    else c
  }

  /** The table's effect on a text, character by character. */
  function FixDigits(s: string): (r: string)
    ensures |r| == |s| && forall k :: 0 <= k < |s| ==> r[k] == FixDigitChar(s[k])
    decreases |s|
  {
    if s == [] then [] else [FixDigitChar(s[0])] + FixDigits(s[1..])
  }

  /** `fix_ocr_numbers`: reassigns `line` once per table entry. */
  method FixOcrNumbers(line: string) returns (r: string)
    ensures r == ApplyRules(line, OcrDigitFixes)
    ensures r == FixDigits(line)
  {
    r := line;
    var i := 0;
    while i < |OcrDigitFixes|
      invariant 0 <= i <= |OcrDigitFixes|
      invariant ApplyRules(r, OcrDigitFixes[i..]) == ApplyRules(line, OcrDigitFixes)
    {
      ApplyRulesSplit(r, OcrDigitFixes, i);
      r := Replace(r, OcrDigitFixes[i].pat, OcrDigitFixes[i].rep);
      i := i + 1;
    }
    FixTableIsPerChar(line);
  }

  /** A table of one-character rules, applied to one character. */
  function CharRules(c: char, rules: seq<Rule>): char
    requires forall k :: 0 <= k < |rules| ==> |rules[k].pat| == 1 && |rules[k].rep| == 1
    decreases |rules|
  {
    if rules == [] then c
    else CharRules(if c == rules[0].pat[0] then rules[0].rep[0] else c, rules[1..])
  }

  /** A table of one-character rules acts character by character. */
  lemma {:induction false} ApplyCharRules(s: string, rules: seq<Rule>)
    requires forall k :: 0 <= k < |rules| ==> |rules[k].pat| == 1 && |rules[k].rep| == 1
    ensures |ApplyRules(s, rules)| == |s|
    ensures forall k :: 0 <= k < |s| ==> ApplyRules(s, rules)[k] == CharRules(s[k], rules)
    decreases |rules|
  {
    if rules != [] {
      var a, b := rules[0].pat[0], rules[0].rep[0];
      assert rules[0].pat == [a] && rules[0].rep == [b];
      ReplaceOneChar(s, a, b);
      ApplyCharRules(MapChar(s, a, b), rules[1..]);
    }
  }

  /** The table, read as a per-character map, is `FixDigitChar`. */
  lemma FixTableChar(c: char)
    ensures CharRules(c, OcrDigitFixes) == FixDigitChar(c)
  {
    var t := OcrDigitFixes;
    var c1 := if c == 'Q' then '0' else c;
    var c2 := if c1 == 'o' then '0' else c1;
    var c3 := if c2 == 'O' then '0' else c2;
    var c4 := if c3 == 'z' then '2' else c3;
    var c5 := if c4 == 'Z' then '2' else c4;
    var c6 := if c5 == 'l' then '1' else c5;
    var c7 := if c6 == '|' then '1' else c6;
    var c8 := if c7 == 'I' then '1' else c7;
    assert CharRules(c7, t[7..]) == c8 by { assert t[7..][1..] == []; }
    assert CharRules(c6, t[6..]) == c8 by { assert t[6..][1..] == t[7..]; }
    assert CharRules(c5, t[5..]) == c8 by { assert t[5..][1..] == t[6..]; }
    assert CharRules(c4, t[4..]) == c8 by { assert t[4..][1..] == t[5..]; }
    assert CharRules(c3, t[3..]) == c8 by { assert t[3..][1..] == t[4..]; }
    assert CharRules(c2, t[2..]) == c8 by { assert t[2..][1..] == t[3..]; }
    assert CharRules(c1, t[1..]) == c8 by { assert t[1..][1..] == t[2..]; }
  }

  /** `fix_ocr_numbers` is the per-character map `FixDigitChar`. */
  lemma FixTableIsPerChar(line: string)
    ensures ApplyRules(line, OcrDigitFixes) == FixDigits(line)
  {
    ApplyCharRules(line, OcrDigitFixes);
    forall k | 0 <= k < |line| ensures ApplyRules(line, OcrDigitFixes)[k] == FixDigits(line)[k] {
      FixTableChar(line[k]);
    }
  }

  /** The fixed line keeps its length and no misread character. */
  lemma FixDigitsClean(line: string)
    ensures |FixDigits(line)| == |line|
    ensures forall k :: 0 <= k < |line| ==> FixDigits(line)[k] !in OcrMisreads
    ensures forall k :: 0 <= k < |line| && line[k] !in OcrMisreads ==> FixDigits(line)[k] == line[k]
  {
  }

  /** Fixing a fixed line changes nothing. */
  lemma FixDigitsIdempotent(line: string)
    ensures FixDigits(FixDigits(line)) == FixDigits(line)
  {
    var f := FixDigits(line);
    assert forall k :: 0 <= k < |f| ==> FixDigitChar(f[k]) == f[k];
  }

  // ---------------------------------------------------------------------
  // clean_money
  // ---------------------------------------------------------------------

  /** The characters `[\d\s,]` that survive the noise filter. */
  predicate IsMoneyChar(c: char) { IsDigit(c) || IsSpace(c) || c == ',' }

  /** `re.sub(r"[^\d\s,]", "", s)` */
  function KeepMoneyChars(s: string): string
    decreases |s|
  {
    if s == [] then [] else (if IsMoneyChar(s[0]) then [s[0]] else []) + KeepMoneyChars(s[1..])
  }

  /** `re.findall(r"\d+", s)`: the maximal runs of digits, in order. */
  function DigitRuns(s: string): (r: seq<string>)
    decreases |s|
    ensures forall k :: 0 <= k < |r| ==> r[k] != [] && AllDigits(r[k])
  {
    if s == [] then []
    else if !IsDigit(s[0]) then DigitRuns(s[1..])
    else
      var e := SkipDigits(s, 0);
      [s[..e]] + DigitRuns(s[e..])
  }

  /** `"".join(runs)` for runs of digits. */
  function JoinRuns(runs: seq<string>): (r: string)
    requires forall k :: 0 <= k < |runs| ==> AllDigits(runs[k])
    ensures AllDigits(r)
  {
    if runs == [] then []
    else
      var h, t := runs[0], JoinRuns(runs[1..]);
      assert AllDigits(h) && AllDigits(t);
      assert forall i :: 0 <= i < |h + t| ==> IsDigit((h + t)[i]) by {
        forall i | 0 <= i < |h + t| ensures IsDigit((h + t)[i]) {
          if i < |h| { assert (h + t)[i] == h[i]; } else { assert (h + t)[i] == t[i - |h|]; }
        }
      }
      h + t
  }

  /** The digits of `s`, in order. */
  function OnlyDigits(s: string): (r: string)
    ensures AllDigits(r)
    decreases |s|
  {
    if s == [] then [] else (if IsDigit(s[0]) then [s[0]] else []) + OnlyDigits(s[1..])
  }

  /** `clean_money`: 0.0 for "", otherwise the value of all the digits of the
      text read as one whole number (0.0 when there is none). */
  function CleanMoney(raw: string): (r: real)
    ensures r >= 0.0
  {
    if raw == [] then 0.0
    else
      var runs := DigitRuns(KeepMoneyChars(raw));
      if runs == [] then 0.0 else DigitsValue(JoinRuns(runs)) as real
  }

  lemma {:induction false} OnlyDigitsAppend(a: string, b: string)
    ensures OnlyDigits(a + b) == OnlyDigits(a) + OnlyDigits(b)
    decreases |a|
  {
    if a == [] {
      assert a + b == b;
    } else {
      assert (a + b)[1..] == a[1..] + b;
      OnlyDigitsAppend(a[1..], b);
    }
  }

  lemma {:induction false} OnlyDigitsAll(s: string)
    requires AllDigits(s)
    ensures OnlyDigits(s) == s
    decreases |s|
  {
    if s != [] {
      OnlyDigitsAll(s[1..]);
    }
  }

  /** The runs of digits, put together, are the digits of the text. */
  lemma {:induction false} DigitRunsFlatten(s: string)
    ensures JoinRuns(DigitRuns(s)) == OnlyDigits(s)
    decreases |s|
  {
    if s != [] {
      if IsDigit(s[0]) {
        var e := SkipDigits(s, 0);
        assert s == s[..e] + s[e..];
        OnlyDigitsAppend(s[..e], s[e..]);
        OnlyDigitsAll(s[..e]);
        DigitRunsFlatten(s[e..]);
      } else {
        DigitRunsFlatten(s[1..]);
      }
    }
  }

  /** The noise filter keeps every digit. */
  lemma {:induction false} KeepMoneyDigits(s: string)
    ensures OnlyDigits(KeepMoneyChars(s)) == OnlyDigits(s)
    decreases |s|
  {
    if s != [] {
      var h := if IsMoneyChar(s[0]) then [s[0]] else [];
      OnlyDigitsAppend(h, KeepMoneyChars(s[1..]));
      KeepMoneyDigits(s[1..]);
      if !IsMoneyChar(s[0]) {
        assert !IsDigit(s[0]);
      }
    }
  }

  /** `clean_money` is 0.0 when the text has no digit and otherwise the
      whole number all its digits spell, points and separators ignored. */
  lemma CleanMoneyDigits(raw: string)
    ensures CleanMoney(raw) == if OnlyDigits(raw) == [] then 0.0 else DigitsValue(OnlyDigits(raw)) as real
  {
    if raw != [] {
      var runs := DigitRuns(KeepMoneyChars(raw));
      DigitRunsFlatten(KeepMoneyChars(raw));
      KeepMoneyDigits(raw);
      if runs != [] {
        assert JoinRuns(runs) == runs[0] + JoinRuns(runs[1..]);
      }
    }
  }

  /** A decimal point is dropped, not read: "1296.20" gives 129620. */
  lemma CleanMoneyDropsPoint(whole: string, frac: string)
    requires whole != [] && AllDigits(whole) && AllDigits(frac)
    ensures CleanMoney(whole + "." + frac) == DigitsValue(whole + frac) as real
  {
    var s := whole + "." + frac;
    CleanMoneyDigits(s);
    OnlyDigitsAppend(whole + ".", frac);
    OnlyDigitsAppend(whole, ".");
    OnlyDigitsAll(whole);
    OnlyDigitsAll(frac);
    assert OnlyDigits(".") == [];
    assert whole + [] == whole;
  }
}
