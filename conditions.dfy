/**
 * Conditional blocks of an entry template and their resolution
 * (`BB4DWTemplating::resolve_conditions`).
 *
 * A block reads `@?F@then@;F@` or `@?F<op>value@then@;F@`, optionally with
 * an else-branch `@:F@else` before the closing marker. `FindBlock` is the
 * left-most match of the pattern `@\?(\w+)(?:(<=|>=|==|!=|~)(.*?))?@(.*?)(?:@:\1@(.*?))?@;\1@`
 * in the order a backtracking matcher tries the alternatives.
 */
module Conditions {
  import opened Wrappers
  import opened Strings
  import opened Bib

  /** `preg_match('/' . pattern . '/', subject) > 0`, supplied by the caller. */
  type RegexMatch = (string, string) -> bool

  datatype Op = Le | Ge | Eq | Ne | Tilde

  /** The test of a block: presence alone, or an operator and its operand. */
  datatype Test = Exists | Compare(op: Op, operand: string)

  /** A matched block: where it starts, the whole matched text and its parts. */
  datatype Block = Block(start: nat, text: string, field: string, test: Test,
                         thenPart: string, elsePart: Option<string>)

  /** What follows the header of a block, up to the end of its closing marker. */
  datatype Tail = Tail(thenPart: string, elsePart: Option<string>, end: nat)

  /** `\w` without the Unicode flag. */
  predicate IsWordChar(c: char)
  {
    'a' <= c <= 'z' || 'A' <= c <= 'Z' || '0' <= c <= '9' || c == '_'
  }

  predicate IsWord(s: string)
  {
    |s| > 0 && forall k :: 0 <= k < |s| ==> IsWordChar(s[k])
  }

  function OpText(op: Op): string
  {
    match op
    case Le => "<="
    case Ge => ">="
    case Eq => "=="
    case Ne => "!="
    case Tilde => "~"
  }

  function TestText(t: Test): string
  {
    match t
    case Exists => ""
    case Compare(op, operand) => OpText(op) + operand
  }

  function ElseMarker(field: string): string
  {
    "@:" + field + "@"
  }

  function CloseMarker(field: string): string
  {
    "@;" + field + "@"
  }

  function ElseText(field: string, elsePart: Option<string>): string
  {
    match elsePart
    case None => ""
    case Some(x) => ElseMarker(field) + x
  }

  /** The text of the block with the given parts. */
  function Assemble(field: string, test: Test, thenPart: string, elsePart: Option<string>): string
  {
    "@?" + field + TestText(test) + "@" + thenPart + ElseText(field, elsePart) + CloseMarker(field)
  }

  /** The end of the longest run of word characters that starts at `i`. */
  function WordEnd(s: string, i: nat): (j: nat)
    requires i <= |s|
    ensures i <= j <= |s|
    ensures forall k :: i <= k < j ==> IsWordChar(s[k])
    ensures j < |s| ==> !IsWordChar(s[j])
    decreases |s| - i
  {
    if i < |s| && IsWordChar(s[i]) then WordEnd(s, i + 1) else i
  }

  /** The operator at `i`, trying the alternatives in the pattern's order. */
  function OpAt(s: string, i: nat): (r: Option<Op>)
    ensures r.Some? ==> At(s, i, OpText(r.value)) && i + |OpText(r.value)| <= |s|
  {
    if At(s, i, "<=") then Some(Le)
    else if At(s, i, ">=") then Some(Ge)
    else if At(s, i, "==") then Some(Eq)
    else if At(s, i, "!=") then Some(Ne)
    else if At(s, i, "~") then Some(Tilde)
    else None
  }

  /** The text from the start of the then-branch to the end of the block. */
  function TailText(field: string, t: Tail): string
  {
    t.thenPart + ElseText(field, t.elsePart) + CloseMarker(field)
  }

  /** The block starting at `p` with the given field, test and branches. */
  function BlockOf(p: nat, field: string, test: Test, t: Tail): Block
  {
    Block(p, Assemble(field, test, t.thenPart, t.elsePart), field, test, t.thenPart, t.elsePart)
  }

  /** `b` is a block of `s`: its parts assemble to its text, which occurs in
      `s` where the block starts. */
  predicate Matches(s: string, b: Block)
  {
    IsWord(b.field) &&
    b.text == Assemble(b.field, b.test, b.thenPart, b.elsePart) &&
    At(s, b.start, b.text)
  }

  /**
   * The lazily matched branches of a block of `field` whose then-branch
   * starts at `h`, trying `i` as the end of the then-branch and every later
   * position after it: the branch ends at the first position where either
   * the else marker starts and a closing marker follows it, or the closing
   * marker starts.
   */
  function TailFrom(s: string, field: string, h: nat, i: nat): Option<Tail>
    requires h <= i <= |s|
    decreases |s| - i
  {
    var elseMarker := ElseMarker(field);
    var close := CloseMarker(field);
    if At(s, i, elseMarker) && FindFrom(s, close, i + |elseMarker|).Some? then
      var c := FindFrom(s, close, i + |elseMarker|).value;
      Some(Tail(s[h..i], Some(s[i + |elseMarker|..c]), c + |close|))
    else if At(s, i, close) then
      Some(Tail(s[h..i], None, i + |close|))
    else if i == |s| then None
    else TailFrom(s, field, h, i + 1)
  }

  /** The branches the scan finds occur in `s` where the then-branch starts,
      and end where the block ends. */
  lemma {:induction false} TailFromMatches(s: string, field: string, h: nat, i: nat)
    requires h <= i <= |s|
    ensures var r := TailFrom(s, field, h, i);
      r.Some? ==> r.value.end == h + |TailText(field, r.value)| && At(s, h, TailText(field, r.value))
    decreases |s| - i
  {
    var elseMarker := ElseMarker(field);
    var close := CloseMarker(field);
    if At(s, i, elseMarker) && FindFrom(s, close, i + |elseMarker|).Some? {
      var c := FindFrom(s, close, i + |elseMarker|).value;
      TailWithElse(s, field, h, i, c, Tail(s[h..i], Some(s[i + |elseMarker|..c]), c + |close|));
    } else if At(s, i, close) {
      TailWithoutElse(s, field, h, i, Tail(s[h..i], None, i + |close|));
    } else if i < |s| {
      TailFromMatches(s, field, h, i + 1);
    }
  }

  lemma {:induction false} TailWithoutElse(s: string, field: string, h: nat, i: nat, t: Tail)
    requires h <= i && At(s, i, CloseMarker(field))
    requires t == Tail(s[h..i], None, i + |CloseMarker(field)|)
    ensures t.end == h + |TailText(field, t)| && At(s, h, TailText(field, t))
  {
    AtBound(s, i, CloseMarker(field));
    AtSliceOf(s, h, i);
    AtConcat(s, h, s[h..i], CloseMarker(field), i);
    assert TailText(field, t) == s[h..i] + CloseMarker(field);
  }

  lemma {:induction false} TailWithElse(s: string, field: string, h: nat, i: nat, c: nat, t: Tail)
    requires h <= i && At(s, i, ElseMarker(field)) && i + |ElseMarker(field)| <= c
    requires At(s, c, CloseMarker(field))
    requires t == Tail(s[h..i], Some(s[i + |ElseMarker(field)|..c]), c + |CloseMarker(field)|)
    ensures t.end == h + |TailText(field, t)| && At(s, h, TailText(field, t))
  {
    var em := ElseMarker(field);
    var close := CloseMarker(field);
    AtBound(s, c, close);
    var x := s[i + |em|..c];
    AtSliceOf(s, i + |em|, c);
    AtSliceOf(s, h, i);
    AtConcat(s, i, em, x, i + |em|);
    AtConcat(s, h, s[h..i], em + x, i);
    AtConcat(s, h, s[h..i] + (em + x), close, c);
    assert TailText(field, t) == s[h..i] + (em + x) + close;
  }

  /** The lazily matched operand of a block of `field`: the first `@` at or
      after `j` after which the branches of the block match, with those
      branches. */
  function OperandEnd(s: string, field: string, j: nat): (r: Option<(nat, Tail)>)
    requires j <= |s|
    ensures r.Some? ==> j <= r.value.0 < |s| && s[r.value.0] == '@'
    decreases |s| - j
  {
    if j == |s| then None
    else
      if s[j] == '@' && TailFrom(s, field, j + 1, j + 1).Some? then Some((j, TailFrom(s, field, j + 1, j + 1).value))
      else OperandEnd(s, field, j + 1)
  }

  /** The branches found after the operand occur right after its closing
      `@`. */
  lemma {:induction false} OperandEndMatches(s: string, field: string, j: nat)
    requires j <= |s|
    ensures var r := OperandEnd(s, field, j);
      r.Some? ==> At(s, r.value.0 + 1, TailText(field, r.value.1))
    decreases |s| - j
  {
    if j < |s| {
      if s[j] == '@' && TailFrom(s, field, j + 1, j + 1).Some? {
        TailFromMatches(s, field, j + 1, j + 1);
      } else {
        OperandEndMatches(s, field, j + 1);
      }
    }
  }

  /** The pieces of a header found side by side make the header; `n` is where
      the test starts and `j` the `@` after it. */
  lemma {:induction false} HeaderAt(s: string, p: nat, field: string, test: Test, n: nat, j: nat)
    requires n == p + 2 + |field| && j == n + |TestText(test)|
    requires At(s, p, "@?") && At(s, p + 2, field) && At(s, n, TestText(test)) && At(s, j, "@")
    ensures At(s, p, "@?" + field + TestText(test) + "@")
  {
    AtConcat(s, p, "@?", field, p + 2);
    AtConcat(s, p, "@?" + field, TestText(test), n);
    AtConcat(s, p, "@?" + field + TestText(test), "@", j);
  }

  /** A header and the branches after it, where `h` is where the branches
      start, make a block. */
  lemma {:induction false} HeaderThenTail(s: string, p: nat, field: string, test: Test, h: nat, t: Tail)
    requires IsWord(field) && h == p + 3 + |field| + |TestText(test)|
    requires At(s, p, "@?" + field + TestText(test) + "@") && At(s, h, TailText(field, t))
    ensures Matches(s, BlockOf(p, field, test, t))
  {
    var header := "@?" + field + TestText(test) + "@";
    var elseText := ElseText(field, t.elsePart);
    AtSplit(s, h, t.thenPart + elseText, CloseMarker(field), h + |t.thenPart| + |elseText|);
    AtSplit(s, h, t.thenPart, elseText, h + |t.thenPart|);
    AtConcat(s, p, header, t.thenPart, h);
    AtConcat(s, p, header + t.thenPart, elseText, h + |t.thenPart|);
    AtConcat(s, p, header + t.thenPart + elseText, CloseMarker(field), h + |t.thenPart| + |elseText|);
  }

  /** The block with a bare presence test whose field name ends at `n`. */
  function PresenceBlockAt(s: string, p: nat, n: nat): Option<Block>
    requires p + 2 < n < |s|
  {
    match TailFrom(s, s[p + 2..n], n + 1, n + 1)
    case None => None
    case Some(t) => Some(BlockOf(p, s[p + 2..n], Exists, t))
  }

  /** The block of `field` with operator `op` whose operand starts at `v`. */
  function OperandBlockAt(s: string, p: nat, field: string, op: Op, v: nat): Option<Block>
    requires v <= |s|
  {
    match OperandEnd(s, field, v)
    case None => None
    case Some((j, t)) => Some(BlockOf(p, field, Compare(op, s[v..j]), t))
  }

  /** A block with a presence test is matched where it starts. */
  lemma {:induction false} PresenceMatches(s: string, p: nat, n: nat)
    requires p + 2 < n < |s| && At(s, p, "@?") && IsWord(s[p + 2..n]) && s[n] == '@'
    ensures PresenceBlockAt(s, p, n).Some? ==> PresenceBlockAt(s, p, n).value.start == p && Matches(s, PresenceBlockAt(s, p, n).value)
  {
    var o := TailFrom(s, s[p + 2..n], n + 1, n + 1);
    if o.Some? {
      TailFromMatches(s, s[p + 2..n], n + 1, n + 1);
      PresenceTail(s, p, n, o.value);
      PresenceBlock(s, p, n, o.value);
    }
  }

  /** The header with a presence test, followed by the branches `t`, makes a
      block. */
  lemma {:induction false} PresenceBlock(s: string, p: nat, n: nat, t: Tail)
    requires p + 2 < n < |s| && At(s, p, "@?") && IsWord(s[p + 2..n]) && s[n] == '@'
    requires At(s, n + 1, TailText(s[p + 2..n], t))
    ensures Matches(s, BlockOf(p, s[p + 2..n], Exists, t))
  {
    AtSliceOf(s, p + 2, n);
    assert At(s, n, "@");
    HeaderAt(s, p, s[p + 2..n], Exists, n, n);
    HeaderThenTail(s, p, s[p + 2..n], Exists, n + 1, t);
  }

  /** A block with operator `op` is matched where it starts. */
  lemma {:induction false} OperandMatches(s: string, p: nat, n: nat, op: Op)
    requires p + 2 < n && n + |OpText(op)| <= |s| && At(s, p, "@?") && IsWord(s[p + 2..n]) && At(s, n, OpText(op))
    ensures var r := OperandBlockAt(s, p, s[p + 2..n], op, n + |OpText(op)|); r.Some? ==> r.value.start == p && Matches(s, r.value)
  {
    var o := OperandEnd(s, s[p + 2..n], n + |OpText(op)|);
    if o.Some? {
      OperandMatchesAt(s, p, n, op, o.value.0, o.value.1);
    }
  }

  /** The block with operator `op` whose operand ends at `j` is matched
      where it starts. */
  lemma {:induction false} OperandMatchesAt(s: string, p: nat, n: nat, op: Op, j: nat, t: Tail)
    requires p + 2 < n <= |s| && At(s, p, "@?") && IsWord(s[p + 2..n]) && At(s, n, OpText(op))
    requires n + |OpText(op)| <= |s| && OperandEnd(s, s[p + 2..n], n + |OpText(op)|) == Some((j, t))
    ensures n + |OpText(op)| <= j
    ensures OperandBlockAt(s, p, s[p + 2..n], op, n + |OpText(op)|) == Some(BlockOf(p, s[p + 2..n], Compare(op, s[n + |OpText(op)|..j]), t))
    ensures p == BlockOf(p, s[p + 2..n], Compare(op, s[n + |OpText(op)|..j]), t).start
    ensures Matches(s, BlockOf(p, s[p + 2..n], Compare(op, s[n + |OpText(op)|..j]), t))
  {
    var w := s[n + |OpText(op)|..j];
    var b := BlockOf(p, s[p + 2..n], Compare(op, w), t);
    assert OperandBlockAt(s, p, s[p + 2..n], op, n + |OpText(op)|) == Some(b);
    assert Matches(s, b) by {
      OperandEndMatches(s, s[p + 2..n], n + |OpText(op)|);
      OperandBlock(s, p, n, op, j, t, b);
    }
  }

  /** The header with operator `op` at `n` and operand up to the `@` at `j`,
      followed by the branches `t`, make the block `b`. */
  lemma {:induction false} OperandBlock(s: string, p: nat, n: nat, op: Op, j: nat, t: Tail, b: Block)
    requires p + 2 < n && n + |OpText(op)| <= j < |s| && s[j] == '@'
    requires At(s, p, "@?") && IsWord(s[p + 2..n]) && At(s, n, OpText(op))
    requires At(s, j + 1, TailText(s[p + 2..n], t))
    requires b == BlockOf(p, s[p + 2..n], Compare(op, s[n + |OpText(op)|..j]), t)
    ensures b.start == p && Matches(s, b)
  {
    var field := s[p + 2..n];
    var test := Compare(op, s[n + |OpText(op)|..j]);
    AtSliceOf(s, p + 2, n);
    OperandTestAt(s, n, op, j);
    assert At(s, j, "@");
    HeaderAt(s, p, field, test, n, j);
    HeaderThenTail(s, p, field, test, j + 1, t);
  }

  /** An operator and the operand after it make the text of a test. */
  lemma {:induction false} OperandTestAt(s: string, n: nat, op: Op, j: nat)
    requires n + |OpText(op)| <= j <= |s| && At(s, n, OpText(op))
    ensures At(s, n, TestText(Compare(op, s[n + |OpText(op)|..j])))
  {
    AtSliceOf(s, n + |OpText(op)|, j);
    AtConcat(s, n, OpText(op), s[n + |OpText(op)|..j], n + |OpText(op)|);
  }

  /** The block that the pattern matches starting exactly at `p`, if any: the
      field name is the whole run of word characters after `@?` (a shorter
      name would be followed by a word character, which neither an operator
      nor `@` starts with); the operator alternative is tried first. */
  function BlockAt(s: string, p: nat): Option<Block>
  {
    if !At(s, p, "@?") then None
    else
      var n := WordEnd(s, p + 2);
      if n == p + 2 then None
      else if n < |s| && s[n] == '@' then PresenceBlockAt(s, p, n)
      else
        match OpAt(s, n)
        case None => None
        case Some(op) => OperandBlockAt(s, p, s[p + 2..n], op, n + |OpText(op)|)
  }

  /** A block found at `p` starts at `p`, and its text occurs there and is
      assembled from its parts. */
  lemma {:induction false} BlockAtMatches(s: string, p: nat)
    ensures BlockAt(s, p).Some? ==> BlockAt(s, p).value.start == p && Matches(s, BlockAt(s, p).value)
  {
    if !At(s, p, "@?") {
      assert BlockAt(s, p) == None;
    } else {
      AtBound(s, p, "@?");
      var n := WordEnd(s, p + 2);
      if n == p + 2 {
        assert BlockAt(s, p) == None;
      } else if n < |s| && s[n] == '@' {
        assert IsWord(s[p + 2..n]);
        BlockAtPresence(s, p, n);
        PresenceMatches(s, p, n);
      } else if OpAt(s, n).None? {
        assert BlockAt(s, p) == None;
      } else {
        var op := OpAt(s, n).value;
        assert IsWord(s[p + 2..n]) && n < |s|;
        BlockAtComparison(s, p, n, op);
        OperandMatches(s, p, n, op);
      }
    }
  }

  /** The block at `p` whose field name, ending at `n`, is followed by `@`
      is the one the branch scan delimits. */
  lemma {:induction false} PresenceBlockAtIs(s: string, p: nat, n: nat, field: string, h: nat, t: Tail)
    requires p + 2 < n < |s| && h == n + 1
    requires At(s, p, "@?") && IsWord(field) && s[p + 2..n] == field && WordEnd(s, p + 2) == n && s[n] == '@'
    requires TailFrom(s, field, h, h) == Some(t)
    ensures BlockAt(s, p) == Some(BlockOf(p, field, Exists, t))
  {
    assert IsWord(s[p + 2..n]) && TailFrom(s, s[p + 2..n], n + 1, n + 1) == Some(t);
    PresenceTail(s, p, n, t);
    BlockAtPresence(s, p, n);
  }

  /** A field name followed by `@` starts a presence test. */
  lemma {:induction false} BlockAtPresence(s: string, p: nat, n: nat)
    requires p + 2 < n < |s| && At(s, p, "@?") && WordEnd(s, p + 2) == n && s[n] == '@'
    ensures BlockAt(s, p) == PresenceBlockAt(s, p, n)
  {
  }

  /** A presence test is delimited by its branch scan. */
  lemma {:induction false} PresenceTail(s: string, p: nat, n: nat, t: Tail)
    requires p + 2 < n < |s|
    requires TailFrom(s, s[p + 2..n], n + 1, n + 1) == Some(t)
    ensures PresenceBlockAt(s, p, n) == Some(BlockOf(p, s[p + 2..n], Exists, t))
  {
  }

  /** The block at `p` whose field name, ending at `n`, is followed by an
      operator is the one the operand scan delimits; the operand runs from
      `v` to `j`. */
  lemma {:induction false} ComparisonBlockAtIs(s: string, p: nat, n: nat, op: Op, field: string, w: string, v: nat, j: nat, t: Tail)
    requires p + 2 < n < |s| && v == n + |OpText(op)| && j == v + |w| && j <= |s|
    requires At(s, p, "@?") && IsWord(field) && s[p + 2..n] == field && WordEnd(s, p + 2) == n && s[n] != '@'
    requires OpAt(s, n) == Some(op) && s[v..j] == w
    requires OperandEnd(s, field, v) == Some((j, t))
    ensures BlockAt(s, p) == Some(BlockOf(p, field, Compare(op, w), t))
  {
    assert OperandBlockAt(s, p, field, op, v) == Some(BlockOf(p, field, Compare(op, w), t));
    BlockAtComparison(s, p, n, op);
  }

  /** A field name followed by an operator starts a comparison, which reads
      its operand after the operator. */
  lemma {:induction false} BlockAtComparison(s: string, p: nat, n: nat, op: Op)
    requires p + 2 < n < |s| && At(s, p, "@?") && WordEnd(s, p + 2) == n && s[n] != '@'
    requires OpAt(s, n) == Some(op)
    ensures n + |OpText(op)| <= |s| && BlockAt(s, p) == OperandBlockAt(s, p, s[p + 2..n], op, n + |OpText(op)|)
  {
    var o := OpAt(s, n);
    assert BlockAt(s, p) == if o.Some? then OperandBlockAt(s, p, s[p + 2..n], o.value, n + |OpText(o.value)|) else None;
  }


  /** No block starts in the last character of the text. */
  lemma NoBlockNearEnd(s: string, i: nat)
    requires i + 2 > |s|
    ensures forall k: nat :: i <= k ==> BlockAt(s, k).None?
  {
    forall k: nat | i <= k ensures BlockAt(s, k).None? {
      if At(s, k, "@?") {
        AtBound(s, k, "@?");
      }
    }
  }

  /** The left-most block starting at or after `i` (`preg_match`). */
  function FindBlock(s: string, i: nat): (r: Option<Block>)
    ensures r.Some? ==> i <= r.value.start && BlockAt(s, r.value.start) == r
    decreases |s| - i
  {
    if i + 2 > |s| then None
    else if BlockAt(s, i).Some? then BlockAt(s, i)
    else FindBlock(s, i + 1)
  }

  /** The block `FindBlock` finds is the left-most one: no block starts
      between `i` and it, and none at all when it finds nothing. */
  lemma {:induction false} FindBlockFirst(s: string, i: nat)
    ensures FindBlock(s, i).Some? ==> forall k: nat :: i <= k < FindBlock(s, i).value.start ==> BlockAt(s, k).None?
    ensures FindBlock(s, i).None? ==> forall k: nat :: i <= k ==> BlockAt(s, k).None?
    decreases |s| - i
  {
    if i + 2 > |s| {
      NoBlockNearEnd(s, i);
    } else if BlockAt(s, i).Some? {
      BlockAtMatches(s, i);
      assert FindBlock(s, i) == BlockAt(s, i);
    } else {
      var r := FindBlock(s, i + 1);
      FindBlockFirst(s, i + 1);
      assert FindBlock(s, i) == r;
      if r.Some? {
        forall k: nat | i <= k < r.value.start ensures BlockAt(s, k).None? {
          if k > i {
            assert i + 1 <= k < r.value.start;
          }
        }
      } else {
        forall k: nat | i <= k ensures BlockAt(s, k).None? {
          if k > i {
            assert i + 1 <= k;
          }
        }
      }
    }
  }

  /** Whether the condition of a block holds for the entry: never for a field
      that is missing or PHP-empty, always for a bare presence test, and
      otherwise as the operator says. */
  function Holds(e: Entry, field: string, test: Test, m: RegexMatch): bool
  {
    match Lookup(e, field)
    case None => false
    case Some(v) =>
      !PhpEmpty(v) &&
      match test
      case Exists => true
      case Compare(op, w) =>
        match op
        case Eq => v == w
        case Ne => v != w
        case Le => IsNumeric(v) && IsNumeric(w) && ParseInt(v) <= ParseInt(w)
        case Ge => IsNumeric(v) && IsNumeric(w) && ParseInt(v) >= ParseInt(w)
        case Tilde => m(w, v)
  }

  /** The text a block stands for before its own conditions are resolved: the
      then-branch, else a non-empty else-branch, else nothing. */
  function Choice(e: Entry, b: Block, m: RegexMatch): string
  {
    if Holds(e, b.field, b.test, m) then b.thenPart
    else match b.elsePart
      case Some(x) => if !PhpEmpty(x) then x else ""
      case None => ""
  }

  /** The chosen branch is strictly shorter than the block, which lies within the text. */
  lemma ChoiceShorter(e: Entry, s: string, b: Block, m: RegexMatch)
    requires Matches(s, b)
    ensures |Choice(e, b, m)| < |b.text| && b.start + |b.text| <= |s|
  {
    AtBound(s, b.start, b.text);
  }

  /**
   * The text with its conditions resolved: while a block remains, the
   * left-most one is resolved, its chosen branch resolved in turn, and
   * every copy of the block's text replaced by the result.
   */
  function Resolved(e: Entry, s: string, m: RegexMatch): (r: string)
    ensures |r| <= |s|
    ensures FindBlock(r, 0).None?
    decreases |s|
  {
    match FindBlock(s, 0)
    case None => s
    case Some(b) =>
      BlockAtMatches(s, b.start);
      ChoiceShorter(e, s, b, m);
      var inner := Resolved(e, Choice(e, b, m), m);
      ReplaceAllShorter(s, b.text, inner, b.start);
      Resolved(e, ReplaceAll(s, b.text, inner), m)
  }

  /** The evaluation of the matched block's condition in `resolve_conditions`. */
  method EvalCondition(entry: Entry, b: Block, m: RegexMatch) returns (evalcond: bool)
    ensures evalcond == Holds(entry, b.field, b.test, m)
  {
    var value := Lookup(entry, b.field);
    evalcond := value.Some? && !PhpEmpty(value.value);
    if evalcond && b.test.Compare? {
      var operand := b.test.operand;
      match b.test.op {
        case Eq => evalcond := value.value == operand;
        case Ne => evalcond := value.value != operand;
        case Le =>
          evalcond := IsNumeric(value.value) && IsNumeric(operand) && ParseInt(value.value) <= ParseInt(operand);
        case Ge =>
          evalcond := IsNumeric(value.value) && IsNumeric(operand) && ParseInt(value.value) >= ParseInt(operand);
        case Tilde => evalcond := m(operand, value.value);
      }
    }
  }

  /** `resolve_conditions`: `str` with every conditional block resolved. */
  method ResolveConditions(entry: Entry, str: string, m: RegexMatch) returns (r: string)
    ensures r == Resolved(entry, str, m)
    decreases |str|
  {
    r := str;
    var found := FindBlock(r, 0);
    while found.Some?
      invariant found == FindBlock(r, 0)
      invariant |r| <= |str|
      invariant Resolved(entry, r, m) == Resolved(entry, str, m)
      decreases |r|
    {
      var b := found.value;
      var evalcond := EvalCondition(entry, b, m);
      var resolved := "";
      if evalcond {
        resolved := b.thenPart;
      } else if b.elsePart.Some? && !PhpEmpty(b.elsePart.value) {
        resolved := b.elsePart.value;
      }
      assert resolved == Choice(entry, b, m);
      BlockAtMatches(r, b.start);
      ChoiceShorter(entry, r, b, m);
      resolved := ResolveConditions(entry, resolved, m);
      ReplaceAllShorter(r, b.text, resolved, b.start);
      r := ReplaceAll(r, b.text, resolved);
      found := FindBlock(r, 0);
    }
  }
}
