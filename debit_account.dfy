/** `clean_account_number` of the debit-note parser
    (ocr/debit_note_parser.py): upper-casing, the O/Q/S digit fixes, the
    `(T01)` suffix normalisation and the extraction of the base number. */
module DebitAccount {
  import opened Text

  // =====================================================================
  // re.sub(r"\(+T01\)+", "(T01)", acc)
  // =====================================================================

  /** The number of leading `c` characters of `x`. */
  function LeadCount(x: string, c: char): (n: nat)
    decreases |x|
    ensures n <= |x|
    ensures forall k :: 0 <= k < n ==> x[k] == c
    ensures n == |x| || x[n] != c
  {
    if x != [] && x[0] == c then 1 + LeadCount(x[1..], c) else 0
  }

  /** "T01)" at `k`. */
  predicate T01At(x: string, k: nat)
  {
    k + 4 <= |x| && x[k] == 'T' && x[k + 1] == '0' && x[k + 2] == '1' && x[k + 3] == ')'
  }

  /** The length of a match of `\(+T01\)+` at the start of `x`. The bracket
      runs are followed by T and by a non-bracket, so the greedy runs are the
      only way to match. */
  function T01Match(x: string): (r: Option<nat>)
    ensures r.Some? ==> 5 <= r.value <= |x|
    ensures r.Some? ==> r.value == |x| || x[r.value] != ')'
  {
    var k := LeadCount(x, '(');
    if k > 0 && T01At(x, k) then
      var n := LeadCount(x[k + 3..], ')');
      assert n == |x[k + 3..]| || x[k + 3 + n] != ')' by {
        if n < |x[k + 3..]| { assert x[k + 3..][n] == x[k + 3 + n]; }
      }
      Some(k + 3 + n)
    else None
  }

  /** The substitution, scanning left to right: a match is replaced by
      "(T01)", any other character is kept. */
  function SubT01(x: string): (r: string)
    decreases |x|
  {
    if x == [] then []
    else
      match T01Match(x)
      case Some(m) => "(T01)" + SubT01(x[m..])
      case None => [x[0]] + SubT01(x[1..])
  }

  /** The first character after the substitution: a bracket where a match
      starts, the original character otherwise. */
  lemma SubT01Head(x: string)
    ensures SubT01(x) == [] <==> x == []
    ensures x != [] ==> SubT01(x)[0] == if T01Match(x).Some? then '(' else x[0]
  {
  }

  /** A prefix without brackets is copied through. */
  lemma {:induction false} SubT01Prefix(a: string, b: string)
    requires '(' !in a
    ensures SubT01(a + b) == a + SubT01(b)
    decreases |a|
  {
    if a == [] {
      assert a + b == b;
    } else {
      assert a == [a[0]] + a[1..];
      SubT01Prefix(a[1..], b);
      SubT01PrefixStep(a[0], a[1..], b);
    }
  }

  lemma SubT01PrefixStep(c: char, y: string, b: string)
    requires c != '(' && SubT01(y + b) == y + SubT01(b)
    ensures SubT01([c] + y + b) == [c] + y + SubT01(b)
  {
    assert [c] + y + b == [c] + (y + b);
    SubT01Plain(c, y + b);
  }

  /** A character that opens no bracket run is copied through. */
  lemma SubT01Plain(c: char, y: string)
    requires c != '('
    ensures SubT01([c] + y) == [c] + SubT01(y)
  {
    var x := [c] + y;
    assert x[0] == c && x[1..] == y;
    assert LeadCount(x, '(') == 0;
  }

  /** A "(T01)" not followed by a closing bracket is a match of its own. */
  lemma T01Block(y: string)
    requires y == [] || y[0] != ')'
    ensures SubT01("(T01)" + y) == "(T01)" + SubT01(y)
  {
    var x := "(T01)" + y;
    assert x[0] == '(' && x[1] == 'T' && x[2] == '0' && x[3] == '1' && x[4] == ')';
    assert x[1..][0] == 'T';
    assert LeadCount(x, '(') == 1;
    assert x[4..][0] == ')';
    assert x[4..][1..] == y;
    assert LeadCount(x[4..], ')') == 1;
    assert x[5..] == y;
  }

  /** Without a match, a run of opening brackets is copied through. */
  lemma {:induction false} OpenRun(x: string)
    requires x != [] && x[0] == '(' && T01Match(x).None?
    ensures var k := LeadCount(x, '(');
      SubT01(x) == x[..k] + SubT01(x[k..])
    decreases |x|
  {
    var k := LeadCount(x, '(');
    var x1 := x[1..];
    assert k == 1 + LeadCount(x1, '(');
    SubT01Unmatched(x);
    if k > 1 {
      assert x1[0] == '(';
      assert T01Match(x1).None? by {
        assert x1[k - 1..] == x[k..];
        assert T01At(x1, k - 1) == T01At(x, k);
      }
      OpenRun(x1);
      OpenRunStep(x, k, SubT01(x), SubT01(x1), SubT01(x1[k - 1..]));
    } else {
      assert x[..1] == [x[0]] && x1 == x[k..];
    }
  }

  /** Where nothing matches, the first character is copied through. */
  lemma SubT01Unmatched(x: string)
    requires x != [] && T01Match(x).None?
    ensures SubT01(x) == [x[0]] + SubT01(x[1..])
  {
  }

  /** Re-bracketing the output of one step of a bracket run. */
  lemma OpenRunStep(x: string, k: nat, r: string, r1: string, rest: string)
    requires 1 < k <= |x|
    requires r == [x[0]] + r1 && r1 == x[1..][..k - 1] + rest
    ensures r == x[..k] + rest && x[1..][k - 1..] == x[k..]
  {
    assert x[..k] == [x[0]] + x[1..][..k - 1];
  }

  /** What follows a run of brackets that did not match: no bracket, and
      not "T01)". */
  predicate NotMatchTail(y: string)
  {
    (y == [] || y[0] != '(') && !T01At(y, 0)
  }

  /** The substitution copies such a tail through. */
  lemma NotMatchTailKept(y: string)
    requires NotMatchTail(y)
    ensures NotMatchTail(SubT01(y))
  {
    if y != [] {
      var z := SubT01(y);
      assert z == [y[0]] + SubT01(y[1..]);
      if |z| >= 4 && y[0] == 'T' {
        var y1 := y[1..];
        SubT01Head(y1);
        if y1[0] == '0' && T01Match(y1).None? {
          var y2 := y1[1..];
          assert SubT01(y1) == [y1[0]] + SubT01(y2);
          SubT01Head(y2);
          if y2[0] == '1' && T01Match(y2).None? {
            var y3 := y2[1..];
            assert SubT01(y2) == [y2[0]] + SubT01(y3);
            SubT01Head(y3);
            assert z[3] == SubT01(y3)[0];
          } else {
            assert z[2] == SubT01(y2)[0];
          }
        } else {
          assert z[1] == SubT01(y1)[0];
        }
      }
    }
  }

  /** Leading brackets followed by a non-matching tail. */
  lemma {:induction false} LeadCountAppend(a: string, b: string)
    requires forall k :: 0 <= k < |a| ==> a[k] == '('
    requires b == [] || b[0] != '('
    ensures LeadCount(a + b, '(') == |a|
    decreases |a|
  {
    if a == [] {
      assert a + b == b;
    } else {
      assert (a + b)[1..] == a[1..] + b;
      LeadCountAppend(a[1..], b);
    }
  }

  /** The substitution is idempotent: its output has no match left. */
  lemma {:induction false} SubT01Idempotent(x: string)
    ensures SubT01(SubT01(x)) == SubT01(x)
    decreases |x|
  {
    if x != [] {
      match T01Match(x)
      case Some(m) =>
        var y := SubT01(x[m..]);
        SubT01Head(x[m..]);
        T01Block(y);
        SubT01Idempotent(x[m..]);
      case None =>
        if x[0] != '(' {
          var z := SubT01(x[1..]);
          SubT01Plain(x[0], z);
          SubT01Idempotent(x[1..]);
        } else {
          var k := LeadCount(x, '(');
          var y := x[k..];
          OpenRun(x);
          assert NotMatchTail(y) by {
            assert T01At(y, 0) == T01At(x, k);
          }
          var z := SubT01(y);
          NotMatchTailKept(y);
          var u := x[..k] + z;
          LeadCountAppend(x[..k], z);
          assert u[k..] == z;
          assert T01Match(u).None? by {
            assert T01At(u, k) == T01At(z, 0);
          }
          OpenRun(u);
          assert u[..k] == x[..k];
          SubT01Idempotent(y);
        }
    }
  }

  // =====================================================================
  // clean_account_number
  // =====================================================================

  predicate IsUpperAlnum(c: char)
  {
    IsUpperLetter(c) || IsDigit(c)
  }

  /** End of the run of `[A-Z0-9]` starting at `i`. */
  function SkipUpperAlnum(s: string, i: nat): (j: nat)
    requires i <= |s|
    decreases |s| - i
    ensures i <= j <= |s|
    ensures forall k :: i <= k < j ==> IsUpperAlnum(s[k])
    ensures j == |s| || !IsUpperAlnum(s[j])
  {
    if i < |s| && IsUpperAlnum(s[i]) then SkipUpperAlnum(s, i + 1) else i
  }

  /** `re.search(r"([A-Z0-9]{6,10})\s*(\(T01\))?", s)` from `i`: the first
      position that opens six or more such characters; the optional tail
      never changes the group, which takes up to ten. */
  function FindBaseNumber(s: string, i: nat): (r: Option<string>)
    requires i <= |s|
    decreases |s| - i
    ensures r.Some? ==> 6 <= |r.value| <= 10 && forall k :: 0 <= k < |r.value| ==> IsUpperAlnum(r.value[k])
    ensures r.Some? ==> forall k :: 0 <= k < |r.value| ==> r.value[k] in s
  {
    var j := SkipUpperAlnum(s, i);
    if j - i >= 6 then Some(s[i..if j - i > 10 then i + 10 else j])
    else if i == |s| then None
    else FindBaseNumber(s, i + 1)
  }

  /** Position `k` opens six or more of `[A-Z0-9]`, so the search's group
      can match there. */
  predicate OpensRun(s: string, k: nat)
    requires k <= |s|
  {
    SkipUpperAlnum(s, k) - k >= 6
  }

  /** The group as matched at `k`: the greedy run, cut at ten characters. */
  function RunAt(s: string, k: nat): (g: string)
    requires k <= |s|
    ensures |g| <= 10 && k + |g| <= |s| && g == s[k..k + |g|]
    ensures OpensRun(s, k) ==> 6 <= |g|
  {
    var j := SkipUpperAlnum(s, k);
    s[k..if j - k > 10 then k + 10 else j]
  }

  /** The search fails exactly when no position from `i` opens a run. */
  lemma {:induction false} FindBaseNumberNone(s: string, i: nat)
    requires i <= |s|
    ensures FindBaseNumber(s, i).None? <==> forall k :: i <= k <= |s| ==> !OpensRun(s, k)
    decreases |s| - i
  {
    if !OpensRun(s, i) && i < |s| {
      FindBaseNumberNone(s, i + 1);
    }
  }

  /** A found base number is the group at the FIRST position that opens a
      run, as `re.search` scans left to right. */
  lemma {:induction false} FindBaseNumberFirst(s: string, i: nat)
    requires i <= |s| && FindBaseNumber(s, i).Some?
    ensures exists k ::
              i <= k <= |s| && OpensRun(s, k)
              && (forall m :: i <= m < k ==> !OpensRun(s, m))
              && FindBaseNumber(s, i).value == RunAt(s, k)
    decreases |s| - i
  {
    if OpensRun(s, i) {
      assert FindBaseNumber(s, i).value == RunAt(s, i);
    } else {
      FindBaseNumberFirst(s, i + 1);
      var k :| i + 1 <= k <= |s| && OpensRun(s, k)
        && (forall m :: i + 1 <= m < k ==> !OpensRun(s, m))
        && FindBaseNumber(s, i + 1).value == RunAt(s, k);
      assert forall m :: i <= m < k ==> !OpensRun(s, m);
    }
  }

  /** Upper-casing and the O, Q and S fixes, as three `replace` calls. */
  function FixedAccountChars(acc: string): string
  {
    Replace(Replace(Replace(Upper(acc), "O", "0"), "Q", "0"), "S", "5")
  }

  /** `clean_account_number`. */
  function CleanAccountNumber(acc: string): (r: string)
  {
    if acc == [] then []
    else
      var w := SubT01(FixedAccountChars(acc));
      match FindBaseNumber(w, 0)
      case Some(base) => base + " (T01)"
      case None => w
  }

  /** A character the cleaner may leave: no lower-case letter, no O, Q or S. */
  predicate CleanAccountChar(c: char)
  {
    !IsLowerLetter(c) && c != 'O' && c != 'Q' && c != 'S'
  }

  lemma UpperHasNoLower(s: string)
    ensures forall k :: 0 <= k < |Upper(s)| ==> !IsLowerLetter(Upper(s)[k])
  {
  }

  /** Text free of lower-case letters is its own upper-casing. */
  lemma UpperIdentity(s: string)
    requires forall k :: 0 <= k < |s| ==> !IsLowerLetter(s[k])
    ensures Upper(s) == s
  {
  }

  /** After the fixes no character is lower-case, O, Q or S. */
  lemma FixedAccountCharsClean(acc: string)
    ensures var v := FixedAccountChars(acc);
      |v| == |acc| && forall k :: 0 <= k < |v| ==> CleanAccountChar(v[k])
  {
    var u := Upper(acc);
    UpperHasNoLower(acc);
    ReplaceOneChar(u, 'O', '0');
    var u1 := MapChar(u, 'O', '0');
    ReplaceOneChar(u1, 'Q', '0');
    var u2 := MapChar(u1, 'Q', '0');
    ReplaceOneChar(u2, 'S', '5');
  }

  /** The substitution writes only brackets, T, 0 and 1. */
  lemma {:induction false} SubT01Clean(x: string)
    requires forall k :: 0 <= k < |x| ==> CleanAccountChar(x[k])
    ensures forall k :: 0 <= k < |SubT01(x)| ==> CleanAccountChar(SubT01(x)[k])
    decreases |x|
  {
    if x != [] {
      match T01Match(x)
      case Some(m) =>
        SubT01Clean(x[m..]);
        var r := SubT01(x[m..]);
        assert forall k :: 0 <= k < |"(T01)" + r| ==> ("(T01)" + r)[k] == if k < 5 then "(T01)"[k] else r[k - 5];
      case None =>
        SubT01Clean(x[1..]);
    }
  }

  /** Every character of the result is clean: no lower-case letter, no O, Q
      or S. */
  lemma CleanAccountChars(acc: string)
    ensures forall k :: 0 <= k < |CleanAccountNumber(acc)| ==> CleanAccountChar(CleanAccountNumber(acc)[k])
  {
    if acc != [] {
      FixedAccountCharsClean(acc);
      var w := SubT01(FixedAccountChars(acc));
      SubT01Clean(FixedAccountChars(acc));
      match FindBaseNumber(w, 0)
      case Some(base) =>
        var r := base + " (T01)";
        assert forall k :: 0 <= k < |r| ==> r[k] == if k < |base| then base[k] else " (T01)"[k - |base|];
      case None =>
    }
  }

  /** Clean text is left alone by upper-casing and the O, Q and S fixes. */
  lemma FixedAccountCharsIdentity(x: string)
    requires forall k :: 0 <= k < |x| ==> CleanAccountChar(x[k])
    ensures FixedAccountChars(x) == x
  {
    UpperIdentity(x);
    assert 'O' !in x && 'Q' !in x && 'S' !in x;
    ReplaceMissingChar(x, "O", "0", 0);
    ReplaceMissingChar(x, "Q", "0", 0);
    ReplaceMissingChar(x, "S", "5", 0);
  }

  /** When the fixed text holds a run of six or more letters and digits, the
      result is the first such run, cut at ten, followed by " (T01)",
      whether or not the input carried the suffix. */
  lemma CleanAccountSuffix(acc: string)
    requires FindBaseNumber(SubT01(FixedAccountChars(acc)), 0).Some?
    ensures var w := SubT01(FixedAccountChars(acc));
      exists k ::
        0 <= k <= |w| && OpensRun(w, k)
        && (forall m :: 0 <= m < k ==> !OpensRun(w, m))
        && CleanAccountNumber(acc) == RunAt(w, k) + " (T01)"
    ensures var r := CleanAccountNumber(acc);
      12 <= |r| <= 16 && r[|r| - 6..] == " (T01)"
      && forall k :: 0 <= k < |r| - 6 ==> IsUpperAlnum(r[k])
  {
    FindBaseNumberFirst(SubT01(FixedAccountChars(acc)), 0);
  }

  /** With no run of six letters and digits, the fixed and bracket-normalised
      text is returned as it stands. */
  lemma CleanAccountNoBase(acc: string)
    requires acc != []
    requires var w := SubT01(FixedAccountChars(acc));
      forall k :: 0 <= k <= |w| ==> !OpensRun(w, k)
    ensures CleanAccountNumber(acc) == SubT01(FixedAccountChars(acc))
  {
    FindBaseNumberNone(SubT01(FixedAccountChars(acc)), 0);
  }

  /** A bare number of six to ten clean letters and digits gains the
      suffix: "ABC123" becomes "ABC123 (T01)". */
  lemma CleanPlainNumber(acc: string)
    requires 6 <= |acc| <= 10
    requires forall k :: 0 <= k < |acc| ==> IsUpperAlnum(acc[k]) && CleanAccountChar(acc[k])
    ensures CleanAccountNumber(acc) == acc + " (T01)"
  {
    FixedAccountCharsIdentity(acc);
    assert '(' !in acc by {
      forall k | 0 <= k < |acc| ensures acc[k] != '(' {
        assert IsUpperAlnum(acc[k]);
      }
    }
    SubT01Prefix(acc, []);
    assert acc + [] == acc;
    assert SkipUpperAlnum(acc, 0) == |acc|;
    assert acc[0..|acc|] == acc;
  }

  /** A base number with the suffix appended is a fixed point. */
  lemma SuffixedIsFixed(b: string)
    requires 6 <= |b| <= 10
    requires forall k :: 0 <= k < |b| ==> IsUpperAlnum(b[k]) && CleanAccountChar(b[k])
    ensures CleanAccountNumber(b + " (T01)") == b + " (T01)"
  {
    var x := b + " (T01)";
    SuffixedChars(b, x);
    FixedAccountCharsIdentity(x);
    SuffixedSub(b, x);
    SuffixedBase(b, x);
  }

  lemma SuffixedChars(b: string, x: string)
    requires forall k :: 0 <= k < |b| ==> CleanAccountChar(b[k])
    requires x == b + " (T01)"
    ensures forall k :: 0 <= k < |x| ==> CleanAccountChar(x[k])
  {
    forall k | 0 <= k < |x| ensures CleanAccountChar(x[k]) {
      if k >= |b| {
        assert x[k] in " (T01)";
      }
    }
  }

  lemma SuffixedSub(b: string, x: string)
    requires forall k :: 0 <= k < |b| ==> IsUpperAlnum(b[k])
    requires x == b + " (T01)"
    ensures SubT01(x) == x
  {
    var a := b + " ";
    assert '(' !in a by {
      forall k | 0 <= k < |a| ensures a[k] != '(' {
        if k < |b| { assert a[k] == b[k]; }
      }
    }
    assert x == a + "(T01)";
    SubT01Prefix(a, "(T01)");
    T01Block([]);
    assert "(T01)" + [] == "(T01)";
  }

  lemma SuffixedBase(b: string, x: string)
    requires 6 <= |b| <= 10
    requires forall k :: 0 <= k < |b| ==> IsUpperAlnum(b[k])
    requires x == b + " (T01)"
    ensures FindBaseNumber(x, 0) == Some(b)
  {
    assert x[|b|] == ' ';
    SkipUpperAlnumPrefix(x, |b|);
    assert x[0..|b|] == b;
  }

  lemma {:induction false} SkipUpperAlnumPrefix(x: string, n: nat)
    requires n < |x| && !IsUpperAlnum(x[n])
    requires forall k :: 0 <= k < n ==> IsUpperAlnum(x[k])
    ensures SkipUpperAlnum(x, 0) == n
  {
    SkipUpperAlnumFrom(x, 0, n);
  }

  lemma {:induction false} SkipUpperAlnumFrom(x: string, i: nat, n: nat)
    requires i <= n < |x| && !IsUpperAlnum(x[n])
    requires forall k :: i <= k < n ==> IsUpperAlnum(x[k])
    ensures SkipUpperAlnum(x, i) == n
    decreases n - i
  {
    if i < n {
      SkipUpperAlnumFrom(x, i + 1, n);
    }
  }

  /** `clean_account_number` is idempotent, so cleaning an already cleaned
      number again changes nothing. */
  lemma CleanAccountIdempotent(acc: string)
    ensures CleanAccountNumber(CleanAccountNumber(acc)) == CleanAccountNumber(acc)
  {
    if acc != [] {
      var v := FixedAccountChars(acc);
      var w := SubT01(v);
      FixedAccountCharsClean(acc);
      SubT01Clean(v);
      match FindBaseNumber(w, 0)
      case Some(b) =>
        SuffixedIsFixed(b);
      case None =>
        FixedAccountCharsIdentity(w);
        SubT01Head(v);
        SubT01Idempotent(v);
    }
  }
}
