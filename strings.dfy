/**
  The JavaScript string operations the importer relies on, on `seq<char>`:
  prefix tests, `indexOf`, `replace` with a string pattern (first occurrence),
  `replaceAll` / a global regular expression without metacharacters (every
  non-overlapping occurrence, left to right), `split` on one character,
  `Array.prototype.join`, and decimal formatting and parsing of numbers.
*/
module Strings {
  import opened Wrappers

  /** ASCII case folding, the part of the `i` flag of a regular expression the model uses. */
  function Lower(c: char): char {
    if 'A' <= c <= 'Z' then (c as int + 32) as char else c
  }

  /** Two characters are equal, or equal up to ASCII case when `ci` holds. */
  predicate CharEq(a: char, b: char, ci: bool) {
    a == b || (ci && Lower(a) == Lower(b))
  }

  /** `p` occurs in `s` at offset `i` (compared exactly, or ignoring ASCII case when `ci` holds). */
  predicate MatchesAt(s: string, i: nat, p: string, ci: bool) {
    i + |p| <= |s| && forall k :: 0 <= k < |p| ==> CharEq(s[i + k], p[k], ci)
  }

  /** `String.prototype.startsWith`. */
  predicate StartsWith(s: string, p: string) {
    |p| <= |s| && s[..|p|] == p
  }

  /** `String.prototype.endsWith`. */
  predicate EndsWith(s: string, p: string) {
    |p| <= |s| && s[|s| - |p|..] == p
  }

  /** `p` occurs somewhere in `s`. */
  predicate Contains(s: string, p: string, ci: bool) {
    exists i: nat :: i <= |s| && MatchesAt(s, i, p, ci)
  }

  lemma ExactMatchIsPrefix(s: string, p: string)
    ensures MatchesAt(s, 0, p, false) <==> StartsWith(s, p)
  {
    if MatchesAt(s, 0, p, false) {
      assert s[..|p|] == p;
    }
  }

  /** The leftmost occurrence of `p` in `s` at or after `from`. */
  function IndexFrom(s: string, p: string, ci: bool, from: nat): (r: Option<nat>)
    ensures r.Some? ==> from <= r.value && MatchesAt(s, r.value, p, ci)
    ensures r.Some? ==> forall j :: from <= j < r.value ==> !MatchesAt(s, j, p, ci)
    ensures r.None? ==> forall j :: from <= j ==> !MatchesAt(s, j, p, ci)
    decreases |s| - from
  {
    if MatchesAt(s, from, p, ci) then Some(from)
    else if from >= |s| then None
    else IndexFrom(s, p, ci, from + 1)
  }

  /** The leftmost position at which `p` occurs in `s`, as `indexOf` finds it. */
  function IndexOf(s: string, p: string, ci: bool): (r: Option<nat>)
    ensures r.Some? ==> MatchesAt(s, r.value, p, ci)
    ensures r.Some? ==> forall j :: 0 <= j < r.value ==> !MatchesAt(s, j, p, ci)
    ensures r.None? <==> !Contains(s, p, ci)
  {
    IndexFrom(s, p, ci, 0)
  }

  /** An occurrence in the tail of `s` is an occurrence in `s`, one place further on. */
  lemma MatchesInTail(s: string, j: nat, p: string, ci: bool)
    requires |s| > 0
    ensures MatchesAt(s[1..], j, p, ci) <==> MatchesAt(s, j + 1, p, ci)
  {
  }

  /**
    Every non-overlapping occurrence of the non-empty pattern `p`, scanning
    left to right, replaced by `rep`: `replaceAll` with a string pattern, or
    `replace` with a global regular expression that matches a fixed text.
  */
  function ReplaceAll(s: string, p: string, rep: string, ci: bool): string
    requires |p| > 0
    decreases |s|
  {
    if |s| == 0 then []
    else if MatchesAt(s, 0, p, ci) then rep + ReplaceAll(s[|p|..], p, rep, ci)
    else [s[0]] + ReplaceAll(s[1..], p, rep, ci)
  }

  /** Text in which the pattern does not occur is left unchanged. */
  lemma {:induction false} ReplaceAllNoMatch(s: string, p: string, rep: string, ci: bool)
    requires |p| > 0
    requires !Contains(s, p, ci)
    ensures ReplaceAll(s, p, rep, ci) == s
    decreases |s|
  {
    if |s| > 0 {
      assert !MatchesAt(s, 0, p, ci);
      assert !Contains(s[1..], p, ci) by {
        if Contains(s[1..], p, ci) {
          var j: nat :| j <= |s| - 1 && MatchesAt(s[1..], j, p, ci);
          MatchesInTail(s, j, p, ci);
        }
      }
      ReplaceAllNoMatch(s[1..], p, rep, ci);
    }
  }

  /** `String.prototype.replace` with a string pattern: only the first occurrence. */
  function ReplaceFirst(s: string, p: string, rep: string): string {
    match IndexOf(s, p, false)
    case None => s
    case Some(i) => s[..i] + rep + s[i + |p|..]
  }

  /**
    ReplaceAll is the repetition of "find the leftmost occurrence, replace it
    and continue after it", the way JavaScript defines a global replacement.
  */
  lemma {:induction false} ReplaceAllFirstMatch(s: string, p: string, rep: string, ci: bool, i: nat)
    requires |p| > 0
    requires MatchesAt(s, i, p, ci)
    requires forall j :: 0 <= j < i ==> !MatchesAt(s, j, p, ci)
    ensures ReplaceAll(s, p, rep, ci) == s[..i] + rep + ReplaceAll(s[i + |p|..], p, rep, ci)
    decreases i
  {
    if i == 0 {
      assert s[..0] == [];
    } else {
      var t, k := s[1..], i - 1;
      var tail := ReplaceAll(s[i + |p|..], p, rep, ci);
      assert ReplaceAll(s, p, rep, ci) == [s[0]] + ReplaceAll(t, p, rep, ci) by {
        assert !MatchesAt(s, 0, p, ci);
      }
      assert ReplaceAll(t, p, rep, ci) == t[..k] + rep + tail by {
        FirstMatchInTail(s, p, ci, i);
        ReplaceAllFirstMatch(t, p, rep, ci, k);
        assert t[k + |p|..] == s[i + |p|..];
      }
      ConsPrefix(s, i, rep, tail);
    }
  }

  lemma ConsAssoc(c: char, t: string, x: string)
    ensures [c] + (t + x) == [c] + t + x
  {
  }

  lemma ConsPrefix(s: string, i: nat, y: string, z: string)
    requires 0 < i <= |s|
    ensures [s[0]] + (s[1..][..i - 1] + y + z) == s[..i] + y + z
  {
    assert [s[0]] + s[1..][..i - 1] == s[..i];
  }

  /** The leftmost occurrence at `i > 0` is the leftmost occurrence in the tail, one place earlier. */
  lemma FirstMatchInTail(s: string, p: string, ci: bool, i: nat)
    requires 0 < i && MatchesAt(s, i, p, ci)
    requires forall j :: 0 <= j < i ==> !MatchesAt(s, j, p, ci)
    ensures MatchesAt(s[1..], i - 1, p, ci)
    ensures forall j :: 0 <= j < i - 1 ==> !MatchesAt(s[1..], j, p, ci)
  {
    MatchesInTail(s, i - 1, p, ci);
    forall j | 0 <= j < i - 1
      ensures !MatchesAt(s[1..], j, p, ci)
    {
      MatchesInTail(s, j, p, ci);
    }
  }

  /** Where `p` does not occur, ReplaceAll is the identity; otherwise the leftmost occurrence is replaced first. */
  lemma ReplaceAllByIndexOf(s: string, p: string, rep: string, ci: bool)
    requires |p| > 0
    ensures ReplaceAll(s, p, rep, ci) ==
      match IndexOf(s, p, ci)
      case None => s
      case Some(i) => s[..i] + rep + ReplaceAll(s[i + |p|..], p, rep, ci)
  {
    match IndexOf(s, p, ci)
    case None => ReplaceAllNoMatch(s, p, rep, ci);
    case Some(i) => ReplaceAllFirstMatch(s, p, rep, ci, i);
  }

  /** The first occurrence of `p` is replaced; with no occurrence nothing changes. */
  lemma ReplaceFirstSpec(s: string, p: string, rep: string, i: nat)
    requires MatchesAt(s, i, p, false)
    requires forall j :: 0 <= j < i ==> !MatchesAt(s, j, p, false)
    ensures ReplaceFirst(s, p, rep) == s[..i] + rep + s[i + |p|..]
  {
    assert Contains(s, p, false);
  }

  /** A prefix that holds no character the pattern could start with is copied unchanged. */
  lemma {:induction false} ReplaceAllSkipsPrefix(u: string, x: string, p: string, rep: string, ci: bool)
    requires |p| > 0
    requires forall k :: 0 <= k < |u| ==> !CharEq(u[k], p[0], ci)
    ensures ReplaceAll(u + x, p, rep, ci) == u + ReplaceAll(x, p, rep, ci)
    decreases |u|
  {
    if |u| > 0 {
      assert (u + x)[0] == u[0];
      assert !MatchesAt(u + x, 0, p, ci);
      assert (u + x)[1..] == u[1..] + x;
      ReplaceAllSkipsPrefix(u[1..], x, p, rep, ci);
    } else {
      assert u + x == x;
    }
  }

  /** An occurrence at the front is replaced and the scan resumes after it. */
  lemma ReplaceAllAtPattern(x: string, p: string, rep: string, ci: bool)
    requires |p| > 0
    ensures ReplaceAll(p + x, p, rep, ci) == rep + ReplaceAll(x, p, rep, ci)
  {
    assert MatchesAt(p + x, 0, p, ci);
    assert (p + x)[|p|..] == x;
  }

  /** Matching at the front, one character at a time. */
  lemma MatchesCons(x: string, p: string, ci: bool)
    requires |p| > 0
    ensures MatchesAt(x, 0, p, ci) <==> |x| > 0 && CharEq(x[0], p[0], ci) && MatchesAt(x[1..], 0, p[1..], ci)
  {
    if |x| > 0 && CharEq(x[0], p[0], ci) && MatchesAt(x[1..], 0, p[1..], ci) {
      forall k | 0 <= k < |p|
        ensures CharEq(x[k], p[k], ci)
      {
        if k > 0 {
          assert x[1..][k - 1] == x[k] && p[1..][k - 1] == p[k];
        }
      }
    }
  }

  /** Past a prefix `u`, matches in `u + r` are the matches in `r`. */
  lemma MatchesAfterPrefix(u: string, r: string, i: nat, q: string, ci: bool)
    requires i >= |u|
    ensures MatchesAt(u + r, i, q, ci) <==> MatchesAt(r, i - |u|, q, ci)
  {
    if i + |q| <= |u + r| {
      forall k | 0 <= k < |q|
        ensures CharEq((u + r)[i + k], q[k], ci) == CharEq(r[i - |u| + k], q[k], ci)
      {
      }
    }
  }

  /** An occurrence in a suffix of `s` is an occurrence in `s`. */
  lemma ContainsSuffix(s: string, n: nat, q: string, ci: bool)
    requires n <= |s|
    ensures Contains(s[n..], q, ci) ==> Contains(s, q, ci)
  {
    if Contains(s[n..], q, ci) {
      var i: nat :| i <= |s[n..]| && MatchesAt(s[n..], i, q, ci);
      forall k | 0 <= k < |q|
        ensures CharEq(s[n + i + k], q[k], ci)
      {
        assert s[n..][i + k] == s[n + i + k];
      }
      assert MatchesAt(s, n + i, q, ci);
    }
  }

  /** A text without the pattern's first character does not contain the pattern. */
  lemma WithoutFirstChar(s: string, p: string)
    requires |p| > 0 && p[0] !in s
    ensures !Contains(s, p, false)
  {
    forall i: nat | i <= |s|
      ensures !MatchesAt(s, i, p, false)
    {
      if i + |p| <= |s| {
        assert !CharEq(s[i + 0], p[0], false);
      }
    }
  }

  /**
    If the replacement text starts with a character that `w` does not hold, a
    result starting with `w` comes from a text starting with `w`.
  */
  lemma {:induction false} ReplaceAllKeepsPrefix(y: string, w: string, p: string, rep: string)
    requires |p| > 0 && |rep| > 0 && rep[0] !in w
    ensures MatchesAt(ReplaceAll(y, p, rep, false), 0, w, false) ==> MatchesAt(y, 0, w, false)
    decreases |w|
  {
    var r := ReplaceAll(y, p, rep, false);
    if |w| > 0 && |y| > 0 {
      MatchesCons(r, w, false);
      MatchesCons(y, w, false);
      if MatchesAt(y, 0, p, false) {
        assert r[0] == rep[0];
      } else {
        assert r[1..] == ReplaceAll(y[1..], p, rep, false);
        assert rep[0] !in w[1..];
        ReplaceAllKeepsPrefix(y[1..], w[1..], p, rep);
      }
    }
  }

  /**
    A replacement text sharing no character with `q` creates no occurrence of
    `q`: replacing `q` itself leaves none, and replacing another pattern in a
    text without `q` leaves none.
  */
  lemma {:induction false} ReplaceAllLeaves(s: string, p: string, rep: string, q: string)
    requires |p| > 0 && |q| > 0 && |rep| > 0
    requires forall k :: 0 <= k < |rep| ==> rep[k] !in q
    requires q == p || !Contains(s, q, false)
    ensures !Contains(ReplaceAll(s, p, rep, false), q, false)
    decreases |s|
  {
    var r := ReplaceAll(s, p, rep, false);
    if |s| > 0 {
      var n := if MatchesAt(s, 0, p, false) then |p| else 1;
      var head := if MatchesAt(s, 0, p, false) then rep else [s[0]];
      var t := s[n..];
      ContainsSuffix(s, n, q, false);
      ReplaceAllLeaves(t, p, rep, q);
      var rt := ReplaceAll(t, p, rep, false);
      assert r == head + rt;
      forall i: nat | i <= |r|
        ensures !MatchesAt(r, i, q, false)
      {
        if i >= |head| {
          MatchesAfterPrefix(head, rt, i, q, false);
          assert !MatchesAt(rt, i - |head|, q, false);
        } else if MatchesAt(s, 0, p, false) {
          assert r[i + 0] == rep[i] && rep[i] != q[0];
          assert !CharEq(r[i + 0], q[0], false);
        } else {
          MatchesCons(r, q, false);
          MatchesCons(s, q, false);
          assert r[1..] == rt;
          assert rep[0] !in q[1..];
          ReplaceAllKeepsPrefix(t, q[1..], p, rep);
          assert i == 0 && r[0] == s[0] && t == s[1..];
          assert !MatchesAt(s, 0, q, false);
        }
      }
    }
  }

  lemma MatchesOneChar(t: string, p: char)
    requires |t| > 0
    ensures MatchesAt(t, 0, [p], false) <==> t[0] == p
  {
    assert [p][0] == p;
  }

  /** Replacing a single character: the replacement of `s + [c]` ends with what `c` became. */
  lemma {:induction false} ReplaceCharSnoc(s: string, c: char, p: char, rep: string)
    ensures ReplaceAll(s + [c], [p], rep, false) ==
      ReplaceAll(s, [p], rep, false) + (if c == p then rep else [c])
    decreases |s|
  {
    var t := s + [c];
    var tail := if c == p then rep else [c];
    if |s| == 0 {
      assert t == [c] && t[1..] == [];
      MatchesOneChar(t, p);
    } else {
      assert t[0] == s[0] && t[1..] == s[1..] + [c];
      MatchesOneChar(t, p);
      MatchesOneChar(s, p);
      var head := if s[0] == p then rep else [s[0]];
      assert ReplaceAll(t, [p], rep, false) == head + ReplaceAll(s[1..] + [c], [p], rep, false);
      assert ReplaceAll(s, [p], rep, false) == head + ReplaceAll(s[1..], [p], rep, false);
      ReplaceCharSnoc(s[1..], c, p, rep);
    }
  }

  /** `Array.prototype.join`. */
  function Join(xs: seq<string>, sep: string): string
    decreases |xs|
  {
    if |xs| == 0 then ""
    else if |xs| == 1 then xs[0]
    else xs[0] + sep + Join(xs[1..], sep)
  }

  /** `String.prototype.split` on one separator character: joining the parts gives `s` back. */
  function Split(s: string, sep: char): (r: seq<string>)
    ensures |r| >= 1
    ensures forall k :: 0 <= k < |r| ==> sep !in r[k]
    ensures Join(r, [sep]) == s
    decreases |s|
  {
    if |s| == 0 then [""]
    else
      var rest := Split(s[1..], sep);
      if s[0] == sep then
        assert Join([""] + rest, [sep]) == [sep] + Join(rest, [sep]) by {
          assert ([""] + rest)[1..] == rest;
        }
        [""] + rest
      else
        var r := [[s[0]] + rest[0]] + rest[1..];
        assert Join(r, [sep]) == [s[0]] + Join(rest, [sep]) by {
          assert r[1..] == rest[1..];
        }
        r
  }

  /** The first part of a split is the text before the first separator. */
  lemma SplitHead(s: string, sep: char)
    ensures var h := Split(s, sep)[0];
      StartsWith(s, h) && sep !in h && (|h| < |s| ==> s[|h|] == sep) && (sep !in s ==> h == s)
  {
    var r := Split(s, sep);
    if |r| > 1 {
      assert s == r[0] + [sep] + Join(r[1..], [sep]);
      assert s[..|r[0]|] == r[0];
    }
  }

  /** Without a separator the split is the whole text. */
  lemma {:induction false} SplitWithoutSeparator(s: string, sep: char)
    requires sep !in s
    ensures Split(s, sep) == [s]
    decreases |s|
  {
    if |s| > 0 {
      assert sep !in s[1..];
      SplitWithoutSeparator(s[1..], sep);
    }
  }

  /** With a separator, the split is the text before the first one, then the split of what follows it. */
  lemma {:induction false} SplitAtFirst(s: string, sep: char)
    requires sep in s
    ensures var h := Split(s, sep)[0];
      |h| < |s| && Split(s, sep) == [h] + Split(s[|h| + 1..], sep)
    decreases |s|
  {
    if s[0] != sep {
      assert sep in s[1..];
      SplitAtFirst(s[1..], sep);
      var rest := Split(s[1..], sep);
      assert s[1..][|rest[0]| + 1..] == s[|rest[0]| + 2..];
    }
  }

  /** A decimal digit. */
  predicate IsDigit(c: char) {
    '0' <= c <= '9'
  }

  function DigitChar(d: nat): (c: char)
    requires d < 10
    ensures IsDigit(c)
  {
    ('0' as int + d) as char
  }

  /** The decimal text of a natural number, as `String(n)` renders it. */
  function NatToString(n: nat): (r: string)
    ensures |r| >= 1
    ensures forall k :: 0 <= k < |r| ==> IsDigit(r[k])
  {
    if n < 10 then [DigitChar(n)] else NatToString(n / 10) + [DigitChar(n % 10)]
  }

  /** The value of a string of decimal digits. */
  function DigitsValue(s: string): nat
    requires forall k :: 0 <= k < |s| ==> IsDigit(s[k])
  {
    if |s| == 0 then 0
    else
      assert IsDigit(s[|s| - 1]);
      DigitsValue(s[..|s| - 1]) * 10 + (s[|s| - 1] as int - '0' as int)
  }

  /** Reading back the decimal text of `n` gives `n`. */
  lemma {:induction false} DigitsValueOfNatToString(n: nat)
    ensures DigitsValue(NatToString(n)) == n
  {
    if n >= 10 {
      var h := NatToString(n / 10);
      assert (h + [DigitChar(n % 10)])[..|h|] == h;
      DigitsValueOfNatToString(n / 10);
    }
  }

  /** Distinct numbers have distinct decimal texts. */
  lemma NatToStringInjective(m: nat, n: nat)
    requires NatToString(m) == NatToString(n)
    ensures m == n
  {
    DigitsValueOfNatToString(m);
    DigitsValueOfNatToString(n);
  }

  /** The decimal text of an integer, with a leading minus sign when negative. */
  function IntToString(i: int): (r: string)
    ensures |r| >= 1
    ensures i >= 0 ==> r == NatToString(i)
  {
    if i < 0 then "-" + NatToString(-i) else NatToString(i)
  }
}
