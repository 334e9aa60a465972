/** The character classes and the operations of Python's `str` type that the
    three parsers use, on ASCII text: case mapping, literal search and
    replacement, stripping, splitting and joining. */
module Text {

  datatype Option<T> = None | Some(value: T)

  /** A value, or the message of the exception raised instead. */
  datatype Result<T> = Ok(value: T) | Err(msg: string)

  // ---------------------------------------------------------------------
  // Character classes (regex \d, \s, \w and [A-Z] on ASCII)
  // ---------------------------------------------------------------------

  predicate IsDigit(c: char) { '0' <= c <= '9' }
  predicate IsUpperLetter(c: char) { 'A' <= c <= 'Z' }
  predicate IsLowerLetter(c: char) { 'a' <= c <= 'z' }
  predicate IsLetter(c: char) { IsUpperLetter(c) || IsLowerLetter(c) }
  predicate IsAlnum(c: char) { IsLetter(c) || IsDigit(c) }
  /** regex `\w` */
  predicate IsWordChar(c: char) { IsAlnum(c) || c == '_' }
  /** `str.isspace` and regex `\s`: space, TAB..CR and the separators 0x1C..0x1F */
  predicate IsSpace(c: char) { c == ' ' || '\t' <= c <= '\r' || '\U{1C}' <= c <= '\U{1F}' }

  predicate AllDigits(s: string) { forall i :: 0 <= i < |s| ==> IsDigit(s[i]) }
  predicate HasDigit(s: string) { exists i :: 0 <= i < |s| && IsDigit(s[i]) }
  predicate NoSpace(s: string) { forall i :: 0 <= i < |s| ==> !IsSpace(s[i]) }

  function UpperChar(c: char): char
  {
    if IsLowerLetter(c) then (c as int - 32) as char else c
  }

  /** `str.upper()` */
  function Upper(s: string): (r: string)
    ensures |r| == |s|
  {
    seq(|s|, i requires 0 <= i < |s| => UpperChar(s[i]))
  }

  /** Two characters equal under IGNORECASE. */
  predicate SameCI(a: char, b: char) { UpperChar(a) == UpperChar(b) }

  // ---------------------------------------------------------------------
  // Literal matching at a position
  // ---------------------------------------------------------------------

  predicate MatchAt(s: string, i: nat, p: string)
  {
    i <= |s| && |p| <= |s| - i && s[i..i + |p|] == p
  }

  predicate MatchAtCI(s: string, i: nat, p: string)
  {
    i <= |s| && |p| <= |s| - i && forall k :: 0 <= k < |p| ==> SameCI(s[i + k], p[k])
  }

  /** `\bW\b` where `W` starts and ends with a word character. */
  predicate WordAtCI(s: string, i: nat, w: string)
  {
    MatchAtCI(s, i, w) && (i == 0 || !IsWordChar(s[i - 1]))
    && (i + |w| == |s| || !IsWordChar(s[i + |w|]))
  }

  /** A match inside a slice is a match of the slice. */
  lemma MatchAtCISlice(s: string, g: nat, e: nat, i: nat, p: string)
    requires g <= i && i + |p| <= e <= |s| && MatchAtCI(s, i, p)
    ensures MatchAtCI(s[g..e], i - g, p)
  {
    forall k | 0 <= k < |p| ensures SameCI(s[g..e][i - g + k], p[k]) {
      assert s[g..e][i - g + k] == s[i + k];
    }
  }

  /** Matching ignoring case does not see whether the text was upper-cased. */
  lemma MatchAtCIUpper(t: string, i: nat, p: string)
    ensures MatchAtCI(Upper(t), i, p) <==> MatchAtCI(t, i, p)
  {
    if i <= |t| && |p| <= |t| - i {
      forall k | 0 <= k < |p| ensures SameCI(Upper(t)[i + k], p[k]) <==> SameCI(t[i + k], p[k]) {
        assert Upper(t)[i + k] == UpperChar(t[i + k]);
      }
    }
  }

  /** An exact match of an upper-case pattern in the upper-cased text is a
      match ignoring case in the text itself. */
  lemma MatchAtUpper(t: string, i: nat, p: string)
    requires forall k :: 0 <= k < |p| ==> UpperChar(p[k]) == p[k]
    ensures MatchAt(Upper(t), i, p) <==> MatchAtCI(t, i, p)
  {
    if i <= |t| && |p| <= |t| - i {
      var u := Upper(t)[i..i + |p|];
      forall k | 0 <= k < |p| ensures u[k] == UpperChar(t[i + k]) {
      }
      if MatchAtCI(t, i, p) {
        assert u == p;
      }
    }
  }

  /** Upper-casing moves no whitespace. */
  lemma {:induction false} SkipSpaceUpper(t: string, i: nat)
    requires i <= |t|
    decreases |t| - i
    ensures SkipSpace(Upper(t), i) == SkipSpace(t, i)
  {
    if i < |t| {
      assert Upper(t)[i] == UpperChar(t[i]);
      if IsSpace(t[i]) {
        SkipSpaceUpper(t, i + 1);
      }
    }
  }

  predicate Contains(s: string, p: string)
  {
    exists i: nat | i <= |s| :: MatchAt(s, i, p)
  }

  predicate ContainsCI(s: string, p: string)
  {
    exists i: nat | i <= |s| :: MatchAtCI(s, i, p)
  }

  /** First position at or after `from` where `p` occurs. */
  function Find(s: string, p: string, from: nat): (r: Option<nat>)
    decreases |s| - from
    ensures r.Some? ==> from <= r.value && MatchAt(s, r.value, p)
    ensures r.Some? ==> forall k :: from <= k < r.value ==> !MatchAt(s, k, p)
    ensures r.None? ==> forall k :: from <= k ==> !MatchAt(s, k, p)
  {
    if from > |s| then None
    else if MatchAt(s, from, p) then Some(from)
    else Find(s, p, from + 1)
  }

  /** First position at or after `from` where `p` occurs, ignoring case. */
  function FindCI(s: string, p: string, from: nat): (r: Option<nat>)
    decreases |s| - from
    ensures r.Some? ==> from <= r.value && MatchAtCI(s, r.value, p)
    ensures r.Some? ==> forall k :: from <= k < r.value ==> !MatchAtCI(s, k, p)
    ensures r.None? ==> forall k :: from <= k ==> !MatchAtCI(s, k, p)
  {
    if from > |s| then None
    else if MatchAtCI(s, from, p) then Some(from)
    else FindCI(s, p, from + 1)
  }

  /** First position at or after `from` where the word `w` occurs, ignoring case. */
  function FindWordCI(s: string, w: string, from: nat): (r: Option<nat>)
    decreases |s| - from
    ensures r.Some? ==> from <= r.value && WordAtCI(s, r.value, w)
    ensures r.Some? ==> forall k :: from <= k < r.value ==> !WordAtCI(s, k, w)
    ensures r.None? ==> forall k :: from <= k ==> !WordAtCI(s, k, w)
  {
    if from > |s| then None
    else if WordAtCI(s, from, w) then Some(from)
    else FindWordCI(s, w, from + 1)
  }

  /** The first present entry of `hs` at or after `from`: a left-to-right
      search over the outcomes of trying a pattern at each position. */
  function FirstSome<X>(hs: seq<Option<X>>, from: nat): (r: Option<X>)
    decreases |hs| - from
    ensures r.Some? ==> exists k :: from <= k < |hs| && hs[k] == r
    ensures r.None? <==> forall k :: from <= k < |hs| ==> hs[k].None?
  {
    if from >= |hs| then None
    else if hs[from].Some? then hs[from]
    else FirstSome(hs, from + 1)
  }

  /** First index at or after `from` of character `c`. */
  function IndexOf(s: string, c: char, from: nat): (r: Option<nat>)
    decreases |s| - from
    ensures r.Some? ==> from <= r.value < |s| && s[r.value] == c
    ensures r.Some? ==> forall k :: from <= k < r.value ==> s[k] != c
    ensures r.None? ==> forall k :: from <= k < |s| ==> s[k] != c
  {
    if from >= |s| then None
    else if s[from] == c then Some(from)
    else IndexOf(s, c, from + 1)
  }

  // ---------------------------------------------------------------------
  // Runs of characters
  // ---------------------------------------------------------------------

  /** End of the run of whitespace starting at `i`. */
  function SkipSpace(s: string, i: nat): (j: nat)
    requires i <= |s|
    decreases |s| - i
    ensures i <= j <= |s|
    ensures forall k :: i <= k < j ==> IsSpace(s[k])
    ensures j == |s| || !IsSpace(s[j])
  {
    if i < |s| && IsSpace(s[i]) then SkipSpace(s, i + 1) else i
  }

  /** End of the run of digits starting at `i`. */
  function SkipDigits(s: string, i: nat): (j: nat)
    requires i <= |s|
    decreases |s| - i
    ensures i <= j <= |s|
    ensures forall k :: i <= k < j ==> IsDigit(s[k])
    ensures j == |s| || !IsDigit(s[j])
  {
    if i < |s| && IsDigit(s[i]) then SkipDigits(s, i + 1) else i
  }

  /** End of the run of ASCII letters starting at `i`. */
  function SkipLetters(s: string, i: nat): (j: nat)
    requires i <= |s|
    decreases |s| - i
    ensures i <= j <= |s|
    ensures forall k :: i <= k < j ==> IsLetter(s[k])
    ensures j == |s| || !IsLetter(s[j])
  {
    if i < |s| && IsLetter(s[i]) then SkipLetters(s, i + 1) else i
  }

  /** End of the run of ASCII letters and digits starting at `i`. */
  function SkipAlnum(s: string, i: nat): (j: nat)
    requires i <= |s|
    decreases |s| - i
    ensures i <= j <= |s|
    ensures forall k :: i <= k < j ==> IsAlnum(s[k])
    ensures j == |s| || !IsAlnum(s[j])
  {
    if i < |s| && IsAlnum(s[i]) then SkipAlnum(s, i + 1) else i
  }

  /** End of the run of non-newline characters starting at `i` (regex `.` without DOTALL). */
  function LineEnd(s: string, i: nat): (j: nat)
    requires i <= |s|
    decreases |s| - i
    ensures i <= j <= |s|
    ensures forall k :: i <= k < j ==> s[k] != '\n'
    ensures j == |s| || s[j] == '\n'
  {
    if i < |s| && s[i] != '\n' then LineEnd(s, i + 1) else i
  }

  // ---------------------------------------------------------------------
  // str.replace, str.count
  // ---------------------------------------------------------------------

  /** `s.replace(pat, rep)`: every non-overlapping occurrence, left to right.
      (Every pattern used here is non-empty; an empty one is left alone.) */
  function Replace(s: string, pat: string, rep: string): (r: string)
    decreases |s|
  {
    if pat == [] || |s| < |pat| then s
    else if s[..|pat|] == pat then rep + Replace(s[|pat|..], pat, rep)
    else [s[0]] + Replace(s[1..], pat, rep)
  }

  /** Replacing a substring that does not occur leaves the text unchanged. */
  lemma {:induction false} ReplaceAbsent(s: string, pat: string, rep: string)
    requires !Contains(s, pat)
    ensures Replace(s, pat, rep) == s
    decreases |s|
  {
    if pat != [] && |s| >= |pat| {
      assert !MatchAt(s, 0, pat);
      assert s[0..|pat|] == s[..|pat|];
      forall i: nat ensures !MatchAt(s[1..], i, pat) {
        if MatchAt(s[1..], i, pat) {
          assert s[1..][i..i + |pat|] == s[i + 1..i + 1 + |pat|];
          assert MatchAt(s, i + 1, pat);
        }
      }
      ReplaceAbsent(s[1..], pat, rep);
    }
  }

  /** Replacement brings in no character that is neither in the text nor
      in the replacement. */
  lemma {:induction false} ReplaceKeepsChars(s: string, pat: string, rep: string, ok: iset<char>)
    requires forall k :: 0 <= k < |s| ==> s[k] in ok
    requires forall k :: 0 <= k < |rep| ==> rep[k] in ok
    ensures forall k :: 0 <= k < |Replace(s, pat, rep)| ==> Replace(s, pat, rep)[k] in ok
    decreases |s|
  {
    if pat != [] && |s| >= |pat| {
      if s[..|pat|] == pat {
        ReplaceKeepsChars(s[|pat|..], pat, rep, ok);
      } else {
        ReplaceKeepsChars(s[1..], pat, rep, ok);
      }
    }
  }

  /** A suffix `w` survives replacement when no occurrence of `pat` can
      start inside it or run into it. */
  lemma {:induction false} ReplaceKeepsSuffix(y: string, w: string, pat: string, rep: string)
    requires |w| > 0 && |pat| > 0 && pat[0] !in w && w[0] !in pat
    requires |y| >= |w| && y[|y| - |w|..] == w
    ensures |Replace(y, pat, rep)| >= |w|
    ensures Replace(y, pat, rep)[|Replace(y, pat, rep)| - |w|..] == w
    decreases |y|
  {
    var r := Replace(y, pat, rep);
    if |y| == |w| {
      assert y == w;
      ReplaceMissingChar(y, pat, rep, 0);
    } else if |y| >= |pat| {
      if y[..|pat|] == pat {
        assert |y| - |pat| >= |w| by {
          assert y[|y| - |w|] == w[0];
          assert forall k :: 0 <= k < |pat| ==> y[k] == y[..|pat|][k] == pat[k];
        }
        var z := y[|pat|..];
        assert z[|z| - |w|..] == w;
        ReplaceKeepsSuffix(z, w, pat, rep);
        var rz := Replace(z, pat, rep);
        assert r == rep + rz;
        assert r[|r| - |w|..] == rz[|rz| - |w|..];
      } else {
        var z := y[1..];
        assert z[|z| - |w|..] == w;
        ReplaceKeepsSuffix(z, w, pat, rep);
        var rz := Replace(z, pat, rep);
        assert r == [y[0]] + rz;
        assert r[|r| - |w|..] == rz[|rz| - |w|..];
      }
    }
  }

  /** Per-character substitution of `a` by `b`. */
  function MapChar(s: string, a: char, b: char): (r: string)
    ensures |r| == |s|
    ensures forall i :: 0 <= i < |s| ==> r[i] == if s[i] == a then b else s[i]
    decreases |s|
  {
    if s == [] then [] else [if s[0] == a then b else s[0]] + MapChar(s[1..], a, b)
  }

  /** Replacing one character in a one-character string. */
  lemma ReplaceSingle(d: char, a: char, b: char)
    ensures Replace([d], [a], [b]) == [if d == a then b else d]
  {
    assert [d][..1] == [d];
    assert [d][1..] == [];
  }

  /** Replacing a one-character string is a per-character substitution. */
  lemma {:induction false} ReplaceOneChar(s: string, a: char, b: char)
    ensures Replace(s, [a], [b]) == MapChar(s, a, b)
    decreases |s|
  {
    if |s| >= 1 {
      ReplaceOneChar(s[1..], a, b);
      assert s[..1] == [s[0]];
    }
  }

  /** `s.count(p)`: the number of non-overlapping occurrences. */
  function Count(s: string, p: string): nat
    decreases |s|
  {
    if p == [] || |s| < |p| then 0
    else if s[..|p|] == p then 1 + Count(s[|p|..], p)
    else Count(s[1..], p)
  }

  // ---------------------------------------------------------------------
  // Stripping
  // ---------------------------------------------------------------------

  function LStrip(s: string): (r: string)
    decreases |s|
    ensures |r| <= |s| && r == s[|s| - |r|..]
    ensures r == [] || !IsSpace(r[0])
    ensures forall k :: 0 <= k < |s| - |r| ==> IsSpace(s[k])
  {
    if |s| > 0 && IsSpace(s[0]) then LStrip(s[1..]) else s
  }

  function RStrip(s: string): (r: string)
    decreases |s|
    ensures |r| <= |s| && r == s[..|r|]
    ensures r == [] || !IsSpace(r[|r| - 1])
    ensures forall k :: |r| <= k < |s| ==> IsSpace(s[k])
  {
    if |s| > 0 && IsSpace(s[|s| - 1]) then RStrip(s[..|s| - 1]) else s
  }

  /** `str.strip()` */
  function Strip(s: string): (r: string)
    ensures r == [] || (!IsSpace(r[0]) && !IsSpace(r[|r| - 1]))
  {
    RStrip(LStrip(s))
  }

  /** The stripped text is empty exactly when the text is all whitespace. */
  lemma StripEmpty(s: string)
    ensures Strip(s) == [] <==> forall k :: 0 <= k < |s| ==> IsSpace(s[k])
  {
  }

  /** Where the stripped text lies: at `i`, with only whitespace before and
      after it. */
  lemma StripSlice(s: string) returns (i: nat)
    ensures i + |Strip(s)| <= |s| && Strip(s) == s[i..i + |Strip(s)|]
    ensures forall k :: 0 <= k < i ==> IsSpace(s[k])
    ensures forall k :: i + |Strip(s)| <= k < |s| ==> IsSpace(s[k])
  {
    var l := LStrip(s);
    i := |s| - |l|;
    assert forall k :: |Strip(s)| <= k < |l| ==> l[k] == s[i + k];
  }

  /** A slice of a prefix is the same slice of the whole text. */
  lemma PrefixSlice(n: string, c: string, i: nat, j: nat)
    requires |c| <= |n| && c == n[..|c|] && i <= j <= |c|
    ensures c[i..j] == n[i..j]
  {
  }

  /** Text with no whitespace at either end is its own strip. */
  lemma StripTrimmed(s: string)
    requires s == [] || (!IsSpace(s[0]) && !IsSpace(s[|s| - 1]))
    ensures Strip(s) == s
  {
  }

  /** `s.strip(chars)` for an explicit character set. */
  function StripChars(s: string, cs: set<char>): (r: string)
    decreases |s|
    ensures r == [] || (r[0] !in cs && r[|r| - 1] !in cs)
  {
    if |s| > 0 && s[0] in cs then StripChars(s[1..], cs)
    else if |s| > 0 && s[|s| - 1] in cs then StripChars(s[..|s| - 1], cs)
    else s
  }

  // ---------------------------------------------------------------------
  // Splitting and joining
  // ---------------------------------------------------------------------

  /** `sep.join(parts)` */
  function Join(parts: seq<string>, sep: string): string
  {
    if |parts| == 0 then ""
    else if |parts| == 1 then parts[0]
    else parts[0] + sep + Join(parts[1..], sep)
  }

  /** Joining two non-empty lists is joining each and putting the
      separator between. */
  lemma {:induction false} JoinAppend(a: seq<string>, b: seq<string>, sep: string)
    requires a != [] && b != []
    decreases |a|
    ensures Join(a + b, sep) == Join(a, sep) + sep + Join(b, sep)
  {
    if |a| == 1 {
      assert (a + b)[1..] == b;
    } else {
      assert (a + b)[1..] == a[1..] + b;
      JoinAppend(a[1..], b, sep);
    }
  }

  /** The lists of a list of lists, one after the other. */
  function Flatten<T>(gs: seq<seq<T>>): seq<T>
  {
    if gs == [] then [] else gs[0] + Flatten(gs[1..])
  }

  lemma {:induction false} FlattenAppend<T>(gs: seq<seq<T>>, x: seq<T>)
    ensures Flatten(gs + [x]) == Flatten(gs) + x
  {
    if gs != [] {
      assert (gs + [x])[1..] == gs[1..] + [x];
      FlattenAppend(gs[1..], x);
    } else {
      assert [x][1..] == [];
    }
  }

  /** Each list joined on its own. */
  function JoinEach(gs: seq<seq<string>>, sep: string): (r: seq<string>)
    ensures |r| == |gs| && forall k :: 0 <= k < |gs| ==> r[k] == Join(gs[k], sep)
  {
    seq(|gs|, k requires 0 <= k < |gs| => Join(gs[k], sep))
  }

  lemma JoinEachAppend(gs: seq<seq<string>>, g: seq<string>, sep: string)
    ensures JoinEach(gs + [g], sep) == JoinEach(gs, sep) + [Join(g, sep)]
  {
  }

  /** Joining the joined groups is joining all their items, when no group
      is empty. */
  lemma {:induction false} JoinFlatten(gs: seq<seq<string>>, sep: string)
    requires forall k :: 0 <= k < |gs| ==> gs[k] != []
    ensures Join(JoinEach(gs, sep), sep) == Join(Flatten(gs), sep)
  {
    if |gs| == 1 {
      assert Flatten(gs) == gs[0] + Flatten(gs[1..]);
      assert gs[0] + [] == gs[0];
    } else if |gs| > 1 {
      var rest := gs[1..];
      JoinFlatten(rest, sep);
      assert JoinEach(gs, sep)[1..] == JoinEach(rest, sep);
      assert Flatten(rest) != [] by {
        assert Flatten(rest) == rest[0] + Flatten(rest[1..]);
      }
      JoinAppend(gs[0], Flatten(rest), sep);
    }
  }

  /** `s.split(c)` for a single character: never empty, pieces free of `c`. */
  function SplitOn(s: string, c: char): (r: seq<string>)
    decreases |s|
    ensures |r| >= 1
    ensures forall k :: 0 <= k < |r| ==> c !in r[k]
  {
    match IndexOf(s, c, 0)
    case None => [s]
    case Some(i) => [s[..i]] + SplitOn(s[i + 1..], c)
  }

  /** Joining the pieces of a split with the separator gives the text back. */
  lemma {:induction false} JoinSplitOn(s: string, c: char)
    ensures Join(SplitOn(s, c), [c]) == s
    decreases |s|
  {
    match IndexOf(s, c, 0)
    case None =>
    case Some(i) =>
      JoinSplitOn(s[i + 1..], c);
      assert s == s[..i] + [c] + s[i + 1..];
  }

  /** `s.splitlines()` with `\n` as the only line boundary: like `split`
      but "" has no lines and a final newline does not open a new line. */
  function SplitLines(s: string): (r: seq<string>)
    ensures forall k :: 0 <= k < |r| ==> '\n' !in r[k]
  {
    if s == [] then []
    else
      var p := SplitOn(s, '\n');
      if p[|p| - 1] == [] then p[..|p| - 1] else p
  }

  /** The maximal run of non-whitespace characters at the front of `s`. */
  function TakeWord(s: string): (w: string)
    decreases |s|
    ensures |w| <= |s| && w == s[..|w|] && NoSpace(w)
    ensures |w| < |s| ==> IsSpace(s[|w|])
  {
    if s == [] || IsSpace(s[0]) then [] else [s[0]] + TakeWord(s[1..])
  }

  /** `s.split()`: the non-empty, whitespace-free words of `s`, in order. */
  function Words(s: string): (r: seq<string>)
    decreases |s|
    ensures forall k :: 0 <= k < |r| ==> r[k] != [] && NoSpace(r[k])
  {
    if s == [] then []
    else if IsSpace(s[0]) then Words(s[1..])
    else
      var w := TakeWord(s);
      [w] + Words(s[|w|..])
  }

  /** `[l.strip() for l in lines if l.strip()]` */
  function StrippedNonBlank(lines: seq<string>): (r: seq<string>)
    ensures |r| <= |lines|
  {
    if lines == [] then []
    else
      var t := Strip(lines[0]);
      if t == [] then StrippedNonBlank(lines[1..]) else [t] + StrippedNonBlank(lines[1..])
  }

  /** The kept lines are non-blank and already stripped. */
  lemma {:induction false} StrippedNonBlankShape(lines: seq<string>)
    ensures forall l <- StrippedNonBlank(lines) :: l != [] && Strip(l) == l
  {
    if lines != [] {
      StripTrimmed(Strip(lines[0]));
      StrippedNonBlankShape(lines[1..]);
    }
  }
  // ---------------------------------------------------------------------
  // Ordered replacement tables
  // ---------------------------------------------------------------------

  /** One literal `text.replace(pat, rep)` rule of a correction table. */
  datatype Rule = Rule(pat: string, rep: string)

  /** The rules applied one after the other, each to the text the previous
      rules left. */
  function ApplyRules(s: string, rules: seq<Rule>): string
    decreases |rules|
  {
    if rules == [] then s else ApplyRules(Replace(s, rules[0].pat, rules[0].rep), rules[1..])
  }

  /** No rule fires on text that contains none of the rule patterns. */
  lemma {:induction false} ApplyRulesNoTrigger(s: string, rules: seq<Rule>)
    requires forall k :: 0 <= k < |rules| ==> !Contains(s, rules[k].pat)
    ensures ApplyRules(s, rules) == s
    decreases |rules|
  {
    if rules != [] {
      ReplaceAbsent(s, rules[0].pat, rules[0].rep);
      ApplyRulesNoTrigger(s, rules[1..]);
    }
  }

  /** Applying a table in two parts is applying it whole. */
  lemma {:induction false} ApplyRulesSplit(s: string, rules: seq<Rule>, i: nat)
    requires i < |rules|
    ensures ApplyRules(Replace(s, rules[i].pat, rules[i].rep), rules[i + 1..])
            == ApplyRules(s, rules[i..])
  {
    assert rules[i..][1..] == rules[i + 1..];
  }

  /** No rule fires when each pattern is longer than the text or starts with
      a character the text does not contain. */
  lemma ApplyRulesUntouched(s: string, rules: seq<Rule>)
    requires forall k :: 0 <= k < |rules| ==>
      |rules[k].pat| > |s| || (rules[k].pat != [] && rules[k].pat[0] !in s)
    ensures ApplyRules(s, rules) == s
  {
    forall k | 0 <= k < |rules| ensures !Contains(s, rules[k].pat) {
      var pat := rules[k].pat;
      forall i: nat | i <= |s| ensures !MatchAt(s, i, pat) {
        if i + |pat| <= |s| && pat != [] && pat[0] !in s {
          assert s[i..i + |pat|][0] == s[i];
        }
      }
    }
    ApplyRulesNoTrigger(s, rules);
  }

  /** Applying `a + b` is applying `a`, then `b`. */
  lemma {:induction false} ApplyRulesAppend(s: string, a: seq<Rule>, b: seq<Rule>)
    ensures ApplyRules(s, a + b) == ApplyRules(ApplyRules(s, a), b)
    decreases |a|
  {
    if a == [] {
      assert a + b == b;
    } else {
      assert (a + b)[0] == a[0] && (a + b)[1..] == a[1..] + b;
      ApplyRulesAppend(Replace(s, a[0].pat, a[0].rep), a[1..], b);
    }
  }

  /** A pattern with a character the text lacks never occurs in it. */
  lemma ReplaceMissingChar(s: string, pat: string, rep: string, j: nat)
    requires j < |pat| && pat[j] !in s
    ensures Replace(s, pat, rep) == s
  {
    forall i: nat | i <= |s| ensures !MatchAt(s, i, pat) {
      if i + |pat| <= |s| {
        assert s[i..i + |pat|][j] == s[i + j];
      }
    }
    ReplaceAbsent(s, pat, rep);
  }
}
