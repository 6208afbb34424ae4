/**
 * Literal string search and replacement, as PHP's `str_replace`, `explode`
 * and `preg_replace` behave on patterns without regular-expression
 * metacharacters, plus PHP's reading of integer strings.
 */
module Strings {
  import opened Wrappers

  /** `p` occurs in `s` starting at index `i`. */
  predicate At(s: string, i: nat, p: string)
  {
    AtFrom(s, i, p, 0)
  }

  /** `p` fits in `s` at `i`, and matches it from its own index `k` on. */
  predicate AtFrom(s: string, i: nat, p: string, k: nat)
    decreases |p| - k
  {
    if k >= |p| then i + |p| <= |s|
    else i + k < |s| && s[i + k] == p[k] && AtFrom(s, i, p, k + 1)
  }

  lemma {:induction false} AtFromSlice(s: string, i: nat, p: string, k: nat)
    requires k <= |p|
    ensures AtFrom(s, i, p, k) <==> i + |p| <= |s| && s[i + k..i + |p|] == p[k..]
    decreases |p| - k
  {
    if k < |p| {
      AtFromSlice(s, i, p, k + 1);
      if i + |p| <= |s| {
        assert s[i + k..i + |p|] == [s[i + k]] + s[i + k + 1..i + |p|];
        assert p[k..] == [p[k]] + p[k + 1..];
      }
    }
  }

  /** An occurrence is a slice equal to the pattern. */
  lemma AtSlice(s: string, i: nat, p: string)
    ensures At(s, i, p) <==> i + |p| <= |s| && s[i..i + |p|] == p
  {
    AtFromSlice(s, i, p, 0);
    assert p[0..] == p;
  }

  /** `p` occurs somewhere in `s`. */
  predicate Contains(s: string, p: string)
  {
    exists i: nat | i <= |s| :: At(s, i, p)
  }

  /** `s` holds no `@`, the character every template marker starts and ends with. */
  predicate AtFree(s: string)
  {
    forall k :: 0 <= k < |s| ==> s[k] != '@'
  }

  /** The first index at or after `i` at which `p` occurs in `s`. */
  function FindFrom(s: string, p: string, i: nat): (r: Option<nat>)
    ensures r.Some? ==> i <= r.value && r.value + |p| <= |s| && At(s, r.value, p)
    decreases |s| - i
  {
    if i + |p| > |s| then None
    else if At(s, i, p) then Some(i)
    else FindFrom(s, p, i + 1)
  }

  /** `FindFrom` finds the first occurrence: none lies before the one it
      finds, and there is none at all when it finds nothing. */
  lemma {:induction false} FindFromFirst(s: string, p: string, i: nat)
    ensures FindFrom(s, p, i).Some? ==> forall k: nat :: i <= k < FindFrom(s, p, i).value ==> !At(s, k, p)
    ensures FindFrom(s, p, i).None? ==> forall k: nat :: i <= k ==> !At(s, k, p)
    decreases |s| - i
  {
    if i + |p| > |s| {
      NoRoom(s, i, p);
    } else if !At(s, i, p) {
      FindFromFirst(s, p, i + 1);
    }
  }

  /**
   * Every occurrence of `pat` in `s`, scanning left to right and resuming
   * after each replaced occurrence, replaced by `rep` (`str_replace`, and
   * `preg_replace` with a pattern that matches itself literally).
   */
  function ReplaceAll(s: string, pat: string, rep: string): string
    requires pat != []
    decreases |s|
  {
    if |s| < |pat| then s
    else if s[..|pat|] == pat then rep + ReplaceAll(s[|pat|..], pat, rep)
    else [s[0]] + ReplaceAll(s[1..], pat, rep)
  }

  /** `s` cut at the occurrences of `pat` that `ReplaceAll` replaces (`explode`). */
  function Split(s: string, pat: string): (parts: seq<string>)
    requires pat != []
    ensures |parts| >= 1
    decreases |s|
  {
    if |s| < |pat| then [s]
    else if s[..|pat|] == pat then [""] + Split(s[|pat|..], pat)
    else
      var rest := Split(s[1..], pat);
      [[s[0]] + rest[0]] + rest[1..]
  }

  /** The parts with `sep` between each two neighbours (`implode`). */
  function Join(parts: seq<string>, sep: string): string
  {
    if |parts| == 0 then ""
    else if |parts| == 1 then parts[0]
    else parts[0] + sep + Join(parts[1..], sep)
  }

  /** The patterns applied one after another to the whole text, each with its
      replacement (`preg_replace` given arrays of patterns and replacements). */
  function ReplaceEach(s: string, pats: seq<string>, reps: seq<string>): string
    requires |pats| == |reps|
    requires forall k :: 0 <= k < |pats| ==> pats[k] != []
    decreases |pats|
  {
    if pats == [] then s
    else ReplaceEach(ReplaceAll(s, pats[0], reps[0]), pats[1..], reps[1..])
  }

  lemma JoinPrepend(x: string, parts: seq<string>, sep: string)
    requires |parts| >= 1
    ensures Join([x + parts[0]] + parts[1..], sep) == x + Join(parts, sep)
  {
    var q := [x + parts[0]] + parts[1..];
    if |parts| > 1 {
      assert q[1..] == parts[1..];
    }
  }

  /** Joining the pieces of a split with the pattern gives back the text. */
  lemma {:induction false} SplitJoin(s: string, pat: string)
    requires pat != []
    ensures Join(Split(s, pat), pat) == s
    decreases |s|
  {
    if |s| < |pat| {
    } else if s[..|pat|] == pat {
      var rest := Split(s[|pat|..], pat);
      SplitJoin(s[|pat|..], pat);
      assert Split(s, pat) == [""] + rest;
      assert ([""] + rest)[1..] == rest;
      assert Join([""] + rest, pat) == "" + pat + Join(rest, pat);
      assert s == s[..|pat|] + s[|pat|..];
    } else {
      var rest := Split(s[1..], pat);
      SplitJoin(s[1..], pat);
      assert Split(s, pat) == [[s[0]] + rest[0]] + rest[1..];
      JoinPrepend([s[0]], rest, pat);
      assert s == [s[0]] + s[1..];
    }
  }

  lemma {:induction false} JoinStartsWithFirst(parts: seq<string>, sep: string)
    requires |parts| >= 1
    ensures |parts[0]| <= |Join(parts, sep)|
    ensures Join(parts, sep)[..|parts[0]|] == parts[0]
  {
    if |parts| > 1 {
      assert Join(parts, sep) == parts[0] + (sep + Join(parts[1..], sep));
    }
  }

  /** The first piece of a split is a prefix of the text. */
  lemma FirstPieceIsPrefix(s: string, pat: string)
    requires pat != []
    ensures |Split(s, pat)[0]| <= |s| && s[..|Split(s, pat)[0]|] == Split(s, pat)[0]
  {
    SplitJoin(s, pat);
    JoinStartsWithFirst(Split(s, pat), pat);
  }

  /** Matching after a prepended character is matching one place earlier
      without it. */
  lemma {:induction false} AtFromShift(c: char, x: string, i: nat, p: string, k: nat)
    ensures AtFrom([c] + x, i + 1, p, k) <==> AtFrom(x, i, p, k)
    decreases |p| - k
  {
    if k < |p| {
      AtFromShift(c, x, i, p, k + 1);
      if i + k < |x| {
        assert ([c] + x)[i + 1 + k] == x[i + k];
      }
    }
  }

  /** An occurrence at the start of a prefix is one at the start of the text. */
  lemma PrefixAt(s: string, first: string, pat: string)
    requires |first| <= |s| && s[..|first|] == first && At(first, 0, pat)
    ensures |pat| <= |s| && s[..|pat|] == pat
  {
    AtSlice(first, 0, pat);
    assert s[..|pat|] == s[..|first|][0..|pat|];
  }

  /** Prepending a character adds no occurrence except possibly one at the start. */
  lemma ConsFree(c: char, x: string, pat: string)
    requires !Contains(x, pat) && !At([c] + x, 0, pat)
    ensures !Contains([c] + x, pat)
  {
    forall i: nat | i <= |[c] + x| && At([c] + x, i, pat) ensures false {
      AtFromShift(c, x, i - 1, pat, 0);
      assert At(x, i - 1, pat);
    }
  }

  /** A piece grown by a character that does not start the pattern there
      still holds no occurrence of it. */
  lemma GrownPieceFree(s: string, pat: string)
    requires pat != [] && |s| >= |pat| && s[..|pat|] != pat
    requires !Contains(Split(s[1..], pat)[0], pat)
    ensures !Contains([s[0]] + Split(s[1..], pat)[0], pat)
  {
    var piece := Split(s[1..], pat)[0];
    FirstPieceIsPrefix(s[1..], pat);
    GrownPrefix(s, piece);
    if At([s[0]] + piece, 0, pat) {
      PrefixAt(s, [s[0]] + piece, pat);
    }
    ConsFree(s[0], piece, pat);
  }

  lemma GrownPrefix(s: string, piece: string)
    requires |s| >= 1 && |piece| <= |s| - 1 && s[1..][..|piece|] == piece
    ensures s[..|piece| + 1] == [s[0]] + piece
  {
    assert s[..|piece| + 1] == [s[0]] + s[1..][..|piece|];
  }

  /** No piece of a split contains the pattern: every occurrence was a cut. */
  lemma {:induction false} SplitPiecesFree(s: string, pat: string)
    requires pat != []
    ensures forall k :: 0 <= k < |Split(s, pat)| ==> !Contains(Split(s, pat)[k], pat)
    decreases |s|
  {
    var parts := Split(s, pat);
    if |s| < |pat| {
      NoRoom(s, 0, pat);
    } else if s[..|pat|] == pat {
      SplitPiecesFree(s[|pat|..], pat);
      var rest := Split(s[|pat|..], pat);
      assert parts == [""] + rest;
      NoRoom("", 0, pat);
      forall k | 0 < k < |parts| ensures parts[k] == rest[k - 1] { }
    } else {
      SplitPiecesFree(s[1..], pat);
      var rest := Split(s[1..], pat);
      assert parts == [[s[0]] + rest[0]] + rest[1..];
      GrownPieceFree(s, pat);
      forall k | 0 < k < |parts| ensures parts[k] == rest[k] { }
    }
  }

  /** Replacing is splitting at the pattern and joining with the replacement. */
  lemma {:induction false} ReplaceAllIsSplitJoin(s: string, pat: string, rep: string)
    requires pat != []
    ensures ReplaceAll(s, pat, rep) == Join(Split(s, pat), rep)
    decreases |s|
  {
    if |s| < |pat| {
    } else if s[..|pat|] == pat {
      ReplaceAllIsSplitJoin(s[|pat|..], pat, rep);
      var rest := Split(s[|pat|..], pat);
      assert ([""] + rest)[1..] == rest;
    } else {
      ReplaceAllIsSplitJoin(s[1..], pat, rep);
      JoinPrepend([s[0]], Split(s[1..], pat), rep);
    }
  }

  /** Text in which the pattern does not occur is left as it is. */
  lemma {:induction false} ReplaceAllAbsent(s: string, pat: string, rep: string)
    requires pat != [] && !Contains(s, pat)
    ensures ReplaceAll(s, pat, rep) == s
    decreases |s|
  {
    if |s| >= |pat| {
      assert !At(s, 0, pat);
      AtSlice(s, 0, pat);
      forall i: nat | At(s[1..], i, pat) ensures false {
        AtSlice(s[1..], i, pat);
        assert s[1..][i..i + |pat|] == s[i + 1..i + 1 + |pat|];
        AtSlice(s, i + 1, pat);
      }
      ReplaceAllAbsent(s[1..], pat, rep);
      assert s == [s[0]] + s[1..];
    }
  }

  /** A replacement no longer than the pattern never makes the text longer. */
  lemma {:induction false} ReplaceAllNotLonger(s: string, pat: string, rep: string)
    requires pat != [] && |rep| <= |pat|
    ensures |ReplaceAll(s, pat, rep)| <= |s|
    decreases |s|
  {
    if |s| < |pat| {
    } else if s[..|pat|] == pat {
      ReplaceAllNotLonger(s[|pat|..], pat, rep);
    } else {
      ReplaceAllNotLonger(s[1..], pat, rep);
    }
  }

  /** A strictly shorter replacement of a pattern that occurs shortens the text. */
  lemma {:induction false} ReplaceAllShorter(s: string, pat: string, rep: string, i: nat)
    requires pat != [] && |rep| < |pat| && At(s, i, pat)
    ensures |ReplaceAll(s, pat, rep)| < |s|
    decreases |s|
  {
    AtSlice(s, i, pat);
    if s[..|pat|] == pat {
      ReplaceAllNotLonger(s[|pat|..], pat, rep);
    } else {
      assert i > 0;
      assert s[1..][i - 1..i - 1 + |pat|] == s[i..i + |pat|];
      AtSlice(s[1..], i - 1, pat);
      ReplaceAllShorter(s[1..], pat, rep, i - 1);
    }
  }

  /** A prefix holding no first character of the pattern is copied unchanged. */
  lemma {:induction false} ReplaceAllSkips(a: string, t: string, pat: string, rep: string)
    requires pat != [] && forall k :: 0 <= k < |a| ==> a[k] != pat[0]
    ensures ReplaceAll(a + t, pat, rep) == a + ReplaceAll(t, pat, rep)
    decreases |a|
  {
    if a != [] {
      var s := a + t;
      ReplaceAllSkips(a[1..], t, pat, rep);
      assert s[1..] == a[1..] + t;
      assert a == [a[0]] + a[1..];
      if |s| >= |pat| {
        assert s[..|pat|] != pat by { assert s[..|pat|][0] == a[0]; }
        calc {
          ReplaceAll(s, pat, rep);
          [s[0]] + ReplaceAll(s[1..], pat, rep);
          [a[0]] + (a[1..] + ReplaceAll(t, pat, rep));
          ([a[0]] + a[1..]) + ReplaceAll(t, pat, rep);
        }
      } else {
        assert ReplaceAll(t, pat, rep) == t;
      }
    } else {
      assert a + t == t;
    }
  }

  /** A pattern longer than what is left of the text does not occur in it. */
  lemma NoRoom(s: string, i: nat, p: string)
    requires i + |p| > |s|
    ensures forall k: nat :: i <= k ==> !At(s, k, p)
  {
    forall k: nat | i <= k ensures !At(s, k, p) {
      AtSlice(s, k, p);
    }
  }

  lemma AtBound(s: string, i: nat, p: string)
    requires At(s, i, p)
    ensures i + |p| <= |s|
  {
    AtSlice(s, i, p);
  }

  /** A slice of the text occurs where it was taken. */
  lemma AtSliceOf(s: string, i: nat, j: nat)
    requires i <= j <= |s|
    ensures At(s, i, s[i..j])
  {
    AtSlice(s, i, s[i..j]);
  }

  /** A text occurs in itself at its start. */
  lemma AtWhole(s: string)
    ensures At(s, 0, s)
  {
    AtSlice(s, 0, s);
    assert s[0..|s|] == s;
  }

  /** Two pieces found side by side make one occurrence of their
      concatenation; `j` is where the second piece starts. */
  lemma AtConcat(s: string, i: nat, x: string, y: string, j: nat)
    requires j == i + |x| && At(s, i, x) && At(s, j, y)
    ensures At(s, i, x + y)
  {
    AtSlice(s, i, x + y);
    AtSlice(s, i, x);
    AtSlice(s, j, y);
    assert s[i..j + |y|] == s[i..j] + s[j..j + |y|];
  }

  /** An occurrence of a concatenation is an occurrence of each piece; `j`
      is where the second piece starts. */
  lemma AtSplit(s: string, i: nat, x: string, y: string, j: nat)
    requires j == i + |x| && At(s, i, x + y)
    ensures At(s, i, x) && At(s, j, y)
  {
    AtSlice(s, i, x + y);
    AtSlice(s, i, x);
    AtSlice(s, j, y);
    assert s[i..j] == (x + y)[..|x|] == x;
    assert s[j..j + |y|] == (x + y)[|x|..] == y;
  }

  /** An occurrence that lies within an occurrence of `y` at `h` is an
      occurrence in `y`. */
  lemma AtInside(s: string, h: nat, y: string, i: nat, p: string)
    requires At(s, h, y) && h <= i && i + |p| <= h + |y| && At(s, i, p)
    ensures At(y, i - h, p)
  {
    AtSlice(s, h, y);
    AtSlice(s, i, p);
    forall k | 0 <= k < |p| ensures y[i - h + k] == p[k] {
      assert s[i + k] == p[k];
      assert s[h + (i - h + k)] == y[i - h + k];
    }
    assert y[i - h..i - h + |p|] == p;
    AtSlice(y, i - h, p);
  }

  /** A pattern that starts with `@` does not occur in text without `@`. */
  lemma AtFreeLacksMarker(s: string, p: string)
    requires AtFree(s) && p != [] && p[0] == '@'
    ensures !Contains(s, p)
  {
    forall i: nat | At(s, i, p) ensures false { }
  }

  /** Text in which no pattern occurs passes through a sequence of replacements. */
  lemma {:induction false} ReplaceEachAbsent(s: string, pats: seq<string>, reps: seq<string>)
    requires |pats| == |reps|
    requires forall k :: 0 <= k < |pats| ==> pats[k] != [] && !Contains(s, pats[k])
    ensures ReplaceEach(s, pats, reps) == s
    decreases |pats|
  {
    if pats != [] {
      ReplaceAllAbsent(s, pats[0], reps[0]);
      ReplaceEachAbsent(s, pats[1..], reps[1..]);
    }
  }

  /** The pattern at the head of the text is replaced there. */
  lemma ReplaceAllAtHead(pat: string, y: string, rep: string)
    requires pat != []
    ensures ReplaceAll(pat + y, pat, rep) == rep + ReplaceAll(y, pat, rep)
  {
    var s := pat + y;
    assert s[..|pat|] == pat && s[|pat|..] == y;
  }

  /** A prefix in which no occurrence starts is copied unchanged. */
  lemma {:induction false} ReplaceAllPast(u: string, y: string, pat: string, rep: string)
    requires pat != []
    requires forall i :: 0 <= i < |u| ==> !At(u + y, i, pat)
    ensures ReplaceAll(u + y, pat, rep) == u + ReplaceAll(y, pat, rep)
    decreases |u|
  {
    var s := u + y;
    if u == [] {
      assert s == y;
    } else if |s| < |pat| {
      assert ReplaceAll(y, pat, rep) == y;
    } else {
      assert !At(s, 0, pat);
      AtSlice(s, 0, pat);
      assert s[1..] == u[1..] + y;
      forall i | 0 <= i < |u| - 1 ensures !At(u[1..] + y, i, pat) {
        if At(s[1..], i, pat) {
          AtSlice(s[1..], i, pat);
          assert s[1..][i..i + |pat|] == s[i + 1..i + 1 + |pat|];
          AtSlice(s, i + 1, pat);
        }
      }
      ReplaceAllPast(u[1..], y, pat, rep);
      assert u == [u[0]] + u[1..];
    }
  }

  /** A text whose first character does not start the pattern keeps that
      first character. */
  lemma ReplaceAllFirst(y: string, pat: string, rep: string)
    requires pat != [] && y != [] && y[0] != pat[0]
    ensures ReplaceAll(y, pat, rep) != [] && ReplaceAll(y, pat, rep)[0] == y[0]
  {
    if |y| >= |pat| {
      assert y[..|pat|][0] == y[0];
    }
  }

  /** Text without `@` in front passes through replacements of patterns that
      start with `@`. */
  lemma {:induction false} ReplaceEachSkips(a: string, t: string, pats: seq<string>, reps: seq<string>)
    requires AtFree(a) && |pats| == |reps|
    requires forall k :: 0 <= k < |pats| ==> pats[k] != [] && pats[k][0] == '@'
    ensures ReplaceEach(a + t, pats, reps) == a + ReplaceEach(t, pats, reps)
    decreases |pats|
  {
    if pats != [] {
      ReplaceAllSkips(a, t, pats[0], reps[0]);
      ReplaceEachSkips(a, ReplaceAll(t, pats[0], reps[0]), pats[1..], reps[1..]);
    }
  }

  /** An occurrence that ends within `a` is an occurrence in `a`. */
  lemma AtPrefix(a: string, b: string, k: nat, q: string)
    requires k + |q| <= |a|
    ensures At(a + b, k, q) <==> At(a, k, q)
  {
    AtSlice(a + b, k, q);
    AtSlice(a, k, q);
    assert (a + b)[k..k + |q|] == a[k..k + |q|];
  }

  /** An occurrence after `a` is an occurrence in what follows `a`. */
  lemma AtDrop(a: string, b: string, k: nat, q: string)
    ensures At(a + b, |a| + k, q) <==> At(b, k, q)
  {
    AtSlice(a + b, |a| + k, q);
    AtSlice(b, k, q);
    if |a| + k + |q| <= |a + b| {
      assert (a + b)[|a| + k..|a| + k + |q|] == b[k..k + |q|];
    }
  }

  /** `p` is the first occurrence of `pat` at or after `from`. */
  predicate FirstAt(s: string, pat: string, from: nat, p: nat)
  {
    from <= p && At(s, p, pat) && forall k :: from <= k < p ==> !At(s, k, pat)
  }

  /** `FindFrom` answers exactly the first occurrence. */
  lemma {:induction false} FindFromIs(s: string, pat: string, from: nat, p: nat)
    ensures FindFrom(s, pat, from) == Some(p) <==> FirstAt(s, pat, from, p)
  {
    FindFromFirst(s, pat, from);
    var r := FindFrom(s, pat, from);
    if FirstAt(s, pat, from, p) {
      assert r.Some?;
      assert !(r.value < p) && !(p < r.value);
    }
  }

  // ---------------------------------------------------------------------
  // PHP's view of integer strings

  predicate IsDigit(c: char)
  {
    '0' <= c <= '9'
  }

  /** A non-empty run of decimal digits. */
  predicate AllDigits(s: string)
  {
    |s| > 0 && forall k :: 0 <= k < |s| ==> IsDigit(s[k])
  }

  /** `is_numeric`, restricted to optionally signed decimal integers. */
  predicate IsNumeric(s: string)
  {
    AllDigits(s) || (|s| > 1 && (s[0] == '+' || s[0] == '-') && AllDigits(s[1..]))
  }

  function DigitValue(c: char): nat
    requires IsDigit(c)
  {
    (c as int) - ('0' as int)
  }

  function DigitsValue(s: string): nat
    requires forall k :: 0 <= k < |s| ==> IsDigit(s[k])
    decreases |s|
  {
    if s == [] then 0
    else DigitsValue(s[..|s| - 1]) * 10 + DigitValue(s[|s| - 1])
  }

  /** `(int)` applied to a numeric string. */
  function ParseInt(s: string): int
    requires IsNumeric(s)
  {
    if AllDigits(s) then DigitsValue(s)
    else if s[0] == '-' then -(DigitsValue(s[1..]) as int)
    else DigitsValue(s[1..])
  }

  function DigitChar(d: nat): (c: char)
    requires d < 10
    ensures IsDigit(c)
  {
    (('0' as int) + d) as char
  }

  /** The decimal text of `n`, as PHP turns an integer into a string. */
  function NatToString(n: nat): (r: string)
    ensures AllDigits(r)
  {
    if n < 10 then [DigitChar(n)] else NatToString(n / 10) + [DigitChar(n % 10)]
  }

  /** Reading back the text of a number gives that number. */
  lemma {:induction false} NatToStringRoundTrip(n: nat)
    ensures IsNumeric(NatToString(n)) && ParseInt(NatToString(n)) == n
  {
    var s := NatToString(n);
    if n >= 10 {
      NatToStringRoundTrip(n / 10);
      assert s[..|s| - 1] == NatToString(n / 10);
      assert DigitValue(s[|s| - 1]) == n % 10;
    } else {
      assert s == [DigitChar(n)];
      assert s[..0] == [];
      assert DigitsValue(s) == DigitsValue(s[..0]) * 10 + DigitValue(s[0]);
      assert DigitValue(s[0]) == n;
    }
  }

  /** PHP's `empty()` on a string: the empty string and `"0"`. */
  predicate PhpEmpty(v: string)
  {
    v == "" || v == "0"
  }
}
