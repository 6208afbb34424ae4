/**
 * What `resolve_conditions` does with a text that is one conditional block:
 * the block is found whole, and the text resolves to its chosen branch,
 * itself resolved. Also the laws of the decision table.
 */
module ConditionLaws {
  import opened Wrappers
  import opened Strings
  import opened Bib
  import opened Conditions

  /** `mk` starts with `@` and holds no other `@` before its last character. */
  predicate MarkerShape(mk: string)
  {
    |mk| >= 2 && mk[0] == '@' && forall k :: 0 < k < |mk| - 1 ==> mk[k] != '@'
  }

  lemma MarkersHaveShape(field: string)
    requires IsWord(field)
    ensures MarkerShape(ElseMarker(field)) && MarkerShape(CloseMarker(field))
  {
    assert forall k :: 0 <= k < |field| ==> field[k] != '@' by {
      forall k | 0 <= k < |field| ensures field[k] != '@' {
        assert IsWordChar(field[k]);
      }
    }
    var e := ElseMarker(field);
    var c := CloseMarker(field);
    forall k | 0 < k < |e| - 1 ensures e[k] != '@' {
      if k >= 2 { assert e[k] == field[k - 2]; }
    }
    forall k | 0 < k < |c| - 1 ensures c[k] != '@' {
      if k >= 2 { assert c[k] == field[k - 2]; }
    }
  }

  /** A marker that does not occur in `x + "@"` does not start inside `x`
      where `x` is followed by `@` in `s`. */
  lemma NoMarkerInside(s: string, h: nat, x: string, mk: string, i: nat)
    requires At(s, h, x + "@") && MarkerShape(mk) && !Contains(x + "@", mk)
    requires h <= i < h + |x|
    ensures !At(s, i, mk)
  {
    var y := x + "@";
    AtSlice(s, h, y);
    AtSlice(s, i, mk);
    if i + |mk| <= h + |y| {
      if At(s, i, mk) {
        AtInside(s, h, y, i, mk);
        assert false;
      }
    } else if i + |mk| <= |s| {
      var idx := h + |x| - i;
      assert s[h..h + |y|][|x|] == '@';
      assert s[i..i + |mk|][idx] == s[h + |x|] && mk[idx] != '@';
    }
  }

  /** The scan for the end of the then-branch passes over positions where
      neither marker starts. */
  lemma {:induction false} TailFromSkips(s: string, field: string, h: nat, i: nat, k: nat)
    requires h <= i <= k <= |s|
    requires forall j :: i <= j < k ==> !At(s, j, ElseMarker(field)) && !At(s, j, CloseMarker(field))
    ensures TailFrom(s, field, h, i) == TailFrom(s, field, h, k)
    decreases k - i
  {
    if i < k {
      TailFromSkips(s, field, h, i + 1, k);
    }
  }

  /** The scan for the end of an operand passes over characters other than `@`. */
  lemma {:induction false} OperandEndSkips(s: string, field: string, j: nat, k: nat)
    requires j <= k <= |s|
    requires forall x :: j <= x < k ==> s[x] != '@'
    ensures OperandEnd(s, field, j) == OperandEnd(s, field, k)
    decreases k - j
  {
    if j < k {
      OperandEndSkips(s, field, j + 1, k);
    }
  }

  lemma {:induction false} WordEndExact(s: string, i: nat, k: nat)
    requires i <= k <= |s|
    requires forall x :: i <= x < k ==> IsWordChar(s[x])
    requires k < |s| ==> !IsWordChar(s[k])
    ensures WordEnd(s, i) == k
    decreases k - i
  {
    if i < k {
      WordEndExact(s, i + 1, k);
    }
  }

  /** The branches of a block are lazily matched as written when the
      then-branch holds no marker of the field and the else-branch no closing
      marker (counting the `@` that follows each). */
  predicate BranchesFit(field: string, thenPart: string, elsePart: Option<string>)
  {
    !Contains(thenPart + "@", ElseMarker(field)) &&
    !Contains(thenPart + "@", CloseMarker(field)) &&
    (elsePart.Some? ==> !Contains(elsePart.value + "@", CloseMarker(field)))
  }

  /** The closing marker after the else-branch, at `c`, is the first one
      after the else-branch's start `g`. */
  lemma ElseCloses(s: string, g: nat, x: string, field: string, c: nat)
    requires c == g + |x|
    requires IsWord(field) && !Contains(x + "@", CloseMarker(field))
    requires At(s, g, x) && At(s, c, CloseMarker(field))
    ensures FindFrom(s, CloseMarker(field), g) == Some(c)
  {
    var close := CloseMarker(field);
    MarkersHaveShape(field);
    assert At(s, c, "@");
    AtConcat(s, g, x, "@", c);
    forall j | g <= j < c ensures !At(s, j, close) {
      NoMarkerInside(s, g, x, close, j);
    }
    FindFromIs(s, close, g, c);
  }

  /** The scan for the end of a then-branch followed by `@` at `i` passes
      over it when it holds no marker of the field. */
  lemma ThenSkipped(s: string, field: string, h: nat, thenPart: string, i: nat)
    requires i == h + |thenPart|
    requires IsWord(field)
    requires !Contains(thenPart + "@", ElseMarker(field)) && !Contains(thenPart + "@", CloseMarker(field))
    requires At(s, h, thenPart) && i < |s| && s[i] == '@'
    ensures TailFrom(s, field, h, h) == TailFrom(s, field, h, i)
  {
    MarkersHaveShape(field);
    assert At(s, i, "@");
    AtConcat(s, h, thenPart, "@", i);
    forall j | h <= j < i ensures !At(s, j, ElseMarker(field)) && !At(s, j, CloseMarker(field)) {
      NoMarkerInside(s, h, thenPart, ElseMarker(field), j);
      NoMarkerInside(s, h, thenPart, CloseMarker(field), j);
    }
    TailFromSkips(s, field, h, h, i);
  }

  /** The branches of a block without an else-branch, found whole; the
      closing marker starts at `i` and the block ends at `end`. */
  lemma TailNoElse(s: string, field: string, h: nat, thenPart: string, i: nat, end: nat)
    requires i == h + |thenPart| && end == i + |CloseMarker(field)|
    requires IsWord(field) && BranchesFit(field, thenPart, None)
    requires At(s, h, thenPart) && At(s, i, CloseMarker(field))
    ensures TailFrom(s, field, h, h) == Some(Tail(thenPart, None, end))
  {
    AtSlice(s, h, thenPart);
    AtSlice(s, i, CloseMarker(field));
    AtSlice(s, i, ElseMarker(field));
    assert s[i] == '@' && s[i + 1] == ';';
    ThenSkipped(s, field, h, thenPart, i);
  }

  /** The branches of a block with an else-branch, found whole; the else
      marker starts at `i`, the else-branch at `g`, the closing marker at `c`. */
  lemma TailWithElseWhole(s: string, field: string, h: nat, thenPart: string, x: string, i: nat, g: nat, c: nat, end: nat)
    requires i == h + |thenPart| && g == i + |ElseMarker(field)| && c == g + |x| && end == c + |CloseMarker(field)|
    requires IsWord(field) && BranchesFit(field, thenPart, Some(x))
    requires At(s, h, thenPart) && At(s, i, ElseMarker(field)) && At(s, g, x) && At(s, c, CloseMarker(field))
    ensures TailFrom(s, field, h, h) == Some(Tail(thenPart, Some(x), end))
  {
    AtSlice(s, h, thenPart);
    AtSlice(s, g, x);
    AtBound(s, c, CloseMarker(field));
    AtBound(s, i, ElseMarker(field));
    assert s[i] == '@';
    ThenSkipped(s, field, h, thenPart, i);
    ElseCloses(s, g, x, field, c);
    TailAtElse(s, field, h, i, thenPart, x, g, c, end);
  }

  /** The scan that reaches the else marker of a block takes the branches
      from there. */
  lemma TailAtElse(s: string, field: string, h: nat, i: nat, thenPart: string, x: string, g: nat, c: nat, end: nat)
    requires g == i + |ElseMarker(field)| && c == g + |x| && end == c + |CloseMarker(field)|
    requires h <= i <= |s| && s[h..i] == thenPart && At(s, i, ElseMarker(field))
    requires c <= |s| && s[g..c] == x
    requires FindFrom(s, CloseMarker(field), g) == Some(c)
    ensures TailFrom(s, field, h, i) == Some(Tail(thenPart, Some(x), end))
  {
  }

  /** The branches of a block found whole after the header, which ends at `h`. */
  lemma TailWhole(s: string, field: string, h: nat, thenPart: string, elsePart: Option<string>, end: nat)
    requires end == h + |TailText(field, Tail(thenPart, elsePart, 0))|
    requires IsWord(field) && BranchesFit(field, thenPart, elsePart)
    requires At(s, h, TailText(field, Tail(thenPart, elsePart, 0)))
    ensures TailFrom(s, field, h, h) == Some(Tail(thenPart, elsePart, end))
  {
    var close := CloseMarker(field);
    var elseText := ElseText(field, elsePart);
    var i := h + |thenPart|;
    var c := i + |elseText|;
    AtSplit(s, h, thenPart + elseText, close, c);
    AtSplit(s, h, thenPart, elseText, i);
    match elsePart
    case None =>
      TailNoElse(s, field, h, thenPart, i, end);
    case Some(x) =>
      var em := ElseMarker(field);
      assert elseText == em + x;
      AtSplit(s, i, em, x, i + |em|);
      TailWithElseWhole(s, field, h, thenPart, x, i, i + |em|, c, end);
  }

  /** No operator starts with a word character or with `@`. */
  lemma OpStart(op: Op)
    ensures !IsWordChar(OpText(op)[0]) && OpText(op)[0] != '@'
  {
  }

  /** The side conditions under which a text that is one block is found whole. */
  predicate WholeBlock(field: string, test: Test, thenPart: string, elsePart: Option<string>)
  {
    IsWord(field) &&
    (test.Compare? ==> AtFree(test.operand)) &&
    BranchesFit(field, thenPart, elsePart)
  }

  /** The pieces of a header found at the start of a text: the test starts
      at `n` and the `@` after it is at `j`. */
  lemma HeaderPieces(t: string, field: string, tt: string, n: nat, j: nat)
    requires n == 2 + |field| && j == n + |tt|
    requires At(t, 0, "@?" + field + tt + "@")
    ensures At(t, 0, "@?") && At(t, 2, field) && At(t, n, tt) && At(t, j, "@")
  {
    AtSplit(t, 0, "@?" + field + tt, "@", j);
    AtSplit(t, 0, "@?" + field, tt, n);
    AtSplit(t, 0, "@?", field, 2);
  }

  /** A field name followed, at `n`, by a character that is not a word
      character is the whole run of word characters. */
  lemma FieldEnds(t: string, field: string, n: nat)
    requires n == 2 + |field| && IsWord(field) && At(t, 2, field)
    requires n < |t| && !IsWordChar(t[n])
    ensures t[2..n] == field && WordEnd(t, 2) == n
  {
    AtSlice(t, 2, field);
    forall x | 2 <= x < n ensures IsWordChar(t[x]) {
      assert t[x] == field[x - 2];
    }
    WordEndExact(t, 2, n);
  }

  /** What follows a field name in a header is not a word character. */
  lemma AfterField(t: string, n: nat, test: Test, j: nat)
    requires j == n + |TestText(test)| && At(t, n, TestText(test)) && At(t, j, "@")
    ensures n < |t| && !IsWordChar(t[n])
  {
    match test
    case Exists =>
    case Compare(op, w) =>
      AtSplit(t, n, OpText(op), w, n + |OpText(op)|);
      OpStart(op);
  }

  /** The operator written at `n` is the one the alternatives find. */
  lemma OpAtIs(t: string, n: nat, op: Op)
    requires At(t, n, OpText(op))
    ensures OpAt(t, n) == Some(op)
  {
    AtSlice(t, n, OpText(op));
    AtSlice(t, n, "<=");
    AtSlice(t, n, ">=");
    AtSlice(t, n, "==");
    AtSlice(t, n, "!=");
  }

  lemma AssembleLength(field: string, test: Test, thenPart: string, elsePart: Option<string>)
    ensures |Assemble(field, test, thenPart, elsePart)|
         == 3 + |field| + |TestText(test)| + |TailText(field, Tail(thenPart, elsePart, 0))|
  {
  }

  /** The header and the branches, which start at `h`, of a block that
      occurs at the start of `t`. */
  lemma BlockPieces(t: string, field: string, test: Test, thenPart: string, elsePart: Option<string>, h: nat)
    requires h == 3 + |field| + |TestText(test)|
    requires At(t, 0, Assemble(field, test, thenPart, elsePart))
    ensures At(t, 0, "@?" + field + TestText(test) + "@")
    ensures At(t, h, TailText(field, Tail(thenPart, elsePart, 0)))
  {
    var header := "@?" + field + TestText(test) + "@";
    var elseText := ElseText(field, elsePart);
    AtSplit(t, 0, header + thenPart + elseText, CloseMarker(field), h + |thenPart| + |elseText|);
    AtSplit(t, 0, header + thenPart, elseText, h + |thenPart|);
    AtSplit(t, 0, header, thenPart, h);
    AtConcat(t, h, thenPart, elseText, h + |thenPart|);
    AtConcat(t, h, thenPart + elseText, CloseMarker(field), h + |thenPart| + |elseText|);
  }

  /** The header of a text that is one block: its field name, which ends at
      `n`, the test between `n` and the `@` at `j`, and the branches from
      `h` on, found lazily as written. */
  lemma HeaderWhole(t: string, field: string, test: Test, thenPart: string, elsePart: Option<string>, n: nat, j: nat, h: nat)
    requires n == 2 + |field| && j == n + |TestText(test)| && h == j + 1
    requires WholeBlock(field, test, thenPart, elsePart)
    requires At(t, 0, Assemble(field, test, thenPart, elsePart))
    requires |t| == |Assemble(field, test, thenPart, elsePart)|
    ensures At(t, 0, "@?") && n < |t| && t[2..n] == field && WordEnd(t, 2) == n
    ensures At(t, n, TestText(test)) && At(t, j, "@")
    ensures TailFrom(t, field, h, h) == Some(Tail(thenPart, elsePart, |t|))
  {
    BlockPieces(t, field, test, thenPart, elsePart, h);
    AssembleLength(field, test, thenPart, elsePart);
    HeaderPieces(t, field, TestText(test), n, j);
    AfterField(t, n, test, j);
    FieldEnds(t, field, n);
    TailWhole(t, field, h, thenPart, elsePart, |t|);
  }

  /** A text that is one block is matched whole, from the pieces of its header. */
  lemma BlockWhole(t: string, field: string, test: Test, thenPart: string, elsePart: Option<string>)
    requires WholeBlock(field, test, thenPart, elsePart)
    requires At(t, 0, Assemble(field, test, thenPart, elsePart))
    requires |t| == |Assemble(field, test, thenPart, elsePart)|
    ensures BlockAt(t, 0) == Some(BlockOf(0, field, test, Tail(thenPart, elsePart, |t|)))
  {
    var n := 2 + |field|;
    var j := n + |TestText(test)|;
    var h := j + 1;
    HeaderWhole(t, field, test, thenPart, elsePart, n, j, h);
    var tail := Tail(thenPart, elsePart, |t|);
    match test
    case Exists => PresenceFound(t, field, tail, n, j, h);
    case Compare(op, w) => ComparisonFound(t, field, op, w, tail, n, n + |OpText(op)|, j, h);
  }

  /** A header with a presence test and the branches after it make the block
      found at the start of the text. */
  lemma PresenceFound(t: string, field: string, tail: Tail, n: nat, j: nat, h: nat)
    requires n == 2 + |field| && j == n && h == j + 1
    requires IsWord(field) && At(t, 0, "@?") && n < |t| && t[2..n] == field && WordEnd(t, 2) == n
    requires At(t, j, "@")
    requires TailFrom(t, field, h, h) == Some(tail)
    ensures BlockAt(t, 0) == Some(BlockOf(0, field, Exists, tail))
  {
    assert t[n] == '@';
    PresenceBlockAtIs(t, 0, n, field, h, tail);
  }

  /** A header with an operator test whose operand holds no `@`, and the
      branches after it, make the block found at the start of the text; the
      operand starts at `v`. */
  lemma ComparisonFound(t: string, field: string, op: Op, w: string, tail: Tail, n: nat, v: nat, j: nat, h: nat)
    requires n == 2 + |field| && v == n + |OpText(op)| && j == v + |w| && h == j + 1
    requires IsWord(field) && AtFree(w) && At(t, 0, "@?") && n < |t| && t[2..n] == field && WordEnd(t, 2) == n
    requires At(t, n, TestText(Compare(op, w))) && At(t, j, "@")
    requires TailFrom(t, field, h, h) == Some(tail)
    ensures BlockAt(t, 0) == Some(BlockOf(0, field, Compare(op, w), tail))
  {
    AtSplit(t, n, OpText(op), w, v);
    OpAtIs(t, n, op);
    OperandWhole(t, field, v, w, tail, j, h);
    AtSlice(t, v, w);
    AtSlice(t, n, OpText(op));
    assert t[n] == OpText(op)[0];
    OpStart(op);
    AtBound(t, j, "@");
    ComparisonBlockAtIs(t, 0, n, op, field, w, v, j, tail);
  }

  /** The operand of a block whose operand holds no `@` ends at the first
      `@`, at `j`. */
  lemma OperandWhole(t: string, field: string, v: nat, w: string, tail: Tail, j: nat, h: nat)
    requires j == v + |w| && h == j + 1
    requires AtFree(w) && At(t, v, w) && At(t, j, "@")
    requires TailFrom(t, field, h, h) == Some(tail)
    ensures OperandEnd(t, field, v) == Some((j, tail))
  {
    AtSlice(t, v, w);
    forall x | v <= x < j ensures t[x] != '@' {
      assert t[x] == w[x - v];
    }
    AtBound(t, j, "@");
    assert t[j] == '@';
    assert OperandEnd(t, field, j) == Some((j, tail));
    OperandEndSkips(t, field, v, j);
  }

  /** A text that is one block is matched whole, with its own parts. */
  lemma BlockAtWhole(field: string, test: Test, thenPart: string, elsePart: Option<string>)
    requires WholeBlock(field, test, thenPart, elsePart)
    ensures
      var t := Assemble(field, test, thenPart, elsePart);
      BlockAt(t, 0) == Some(Block(0, t, field, test, thenPart, elsePart))
  {
    var t := Assemble(field, test, thenPart, elsePart);
    AtWhole(t);
    BlockWhole(t, field, test, thenPart, elsePart);
  }

  /** `ReplaceAll` of a text by itself. */
  lemma ReplaceWhole(t: string, x: string)
    requires t != []
    ensures ReplaceAll(t, t, x) == x
  {
    assert t[..|t|] == t;
    assert t[|t|..] == [];
    assert ReplaceAll([], t, x) == [];
    assert x + [] == x;
  }

  /** A text that is one block resolves to its chosen branch, resolved in
      turn (templating.php:173-214, one pass of the loop). */
  lemma ResolveWholeBlock(e: Entry, field: string, test: Test, thenPart: string, elsePart: Option<string>, m: RegexMatch)
    requires WholeBlock(field, test, thenPart, elsePart)
    ensures
      var t := Assemble(field, test, thenPart, elsePart);
      Resolved(e, t, m) == Resolved(e, Choice(e, Block(0, t, field, test, thenPart, elsePart), m), m)
  {
    var t := Assemble(field, test, thenPart, elsePart);
    var b := Block(0, t, field, test, thenPart, elsePart);
    BlockAtWhole(field, test, thenPart, elsePart);
    assert FindBlock(t, 0) == Some(b);
    var inner := Resolved(e, Choice(e, b, m), m);
    ReplaceWhole(t, inner);
  }

  /** A text without `@` holds no block and resolves to itself. */
  lemma AtFreeResolved(e: Entry, s: string, m: RegexMatch)
    requires AtFree(s)
    ensures Resolved(e, s, m) == s
  {
    forall k: nat ensures BlockAt(s, k).None? {
      if k < |s| { assert s[k] != '@'; }
    }
  }

  /** Branches without `@` fit any field. */
  lemma AtFreeFits(field: string, x: string)
    requires IsWord(field) && AtFree(x)
    ensures !Contains(x + "@", ElseMarker(field)) && !Contains(x + "@", CloseMarker(field))
  {
    var y := x + "@";
    forall i: nat | i <= |y| ensures !At(y, i, ElseMarker(field)) && !At(y, i, CloseMarker(field)) {
      if i < |x| {
        assert y[i] != '@';
      } else {
        if At(y, i, ElseMarker(field)) { AtBound(y, i, ElseMarker(field)); }
        if At(y, i, CloseMarker(field)) { AtBound(y, i, CloseMarker(field)); }
      }
    }
  }

  /**
   * The decision, for a block whose branches hold no `@`: the then-branch
   * when the condition holds, else the else-branch when it is present and
   * not PHP-empty, else nothing (templating.php:202-209).
   */
  lemma ResolveSimpleBlock(e: Entry, field: string, test: Test, thenPart: string, elsePart: Option<string>, m: RegexMatch)
    requires IsWord(field) && (test.Compare? ==> AtFree(test.operand))
    requires AtFree(thenPart) && (elsePart.Some? ==> AtFree(elsePart.value))
    ensures
      var r := Resolved(e, Assemble(field, test, thenPart, elsePart), m);
      if Holds(e, field, test, m) then r == thenPart
      else if elsePart.Some? && !PhpEmpty(elsePart.value) then r == elsePart.value
      else r == ""
  {
    AtFreeFits(field, thenPart);
    if elsePart.Some? {
      AtFreeFits(field, elsePart.value);
    }
    ResolveWholeBlock(e, field, test, thenPart, elsePart, m);
    var t := Assemble(field, test, thenPart, elsePart);
    var c := Choice(e, Block(0, t, field, test, thenPart, elsePart), m);
    assert AtFree(c);
    AtFreeResolved(e, c, m);
  }

  /** Text with no complete block is returned as it is, so resolving twice is
      resolving once (templating.php:173). */
  lemma ResolvedIdempotent(e: Entry, s: string, m: RegexMatch)
    ensures Resolved(e, Resolved(e, s, m), m) == Resolved(e, s, m)
  {
  }

  /**
   * The decision table (templating.php:176-200): a missing or PHP-empty field
   * never holds; a presence test holds for any other value; `==` and `!=`
   * are exact and complementary; `<=` and `>=` hold exactly when both sides
   * are numeric and their integer readings are so ordered; `~` holds exactly
   * when the matcher accepts the value.
   */
  lemma HoldsLaws(e: Entry, field: string, w: string, m: RegexMatch)
    ensures Lookup(e, field).None? ==> forall t :: !Holds(e, field, t, m)
    ensures Lookup(e, field).Some? && PhpEmpty(Lookup(e, field).value) ==> forall t :: !Holds(e, field, t, m)
    ensures Lookup(e, field).Some? && !PhpEmpty(Lookup(e, field).value) ==>
      Holds(e, field, Exists, m) &&
      (Holds(e, field, Compare(Eq, w), m) <==> Lookup(e, field).value == w) &&
      (Holds(e, field, Compare(Ne, w), m) <==> !Holds(e, field, Compare(Eq, w), m))
    ensures Holds(e, field, Compare(Le, w), m) <==>
      Lookup(e, field).Some? && !PhpEmpty(Lookup(e, field).value) &&
      IsNumeric(Lookup(e, field).value) && IsNumeric(w) && ParseInt(Lookup(e, field).value) <= ParseInt(w)
    ensures Holds(e, field, Compare(Ge, w), m) <==>
      Lookup(e, field).Some? && !PhpEmpty(Lookup(e, field).value) &&
      IsNumeric(Lookup(e, field).value) && IsNumeric(w) && ParseInt(Lookup(e, field).value) >= ParseInt(w)
    ensures Holds(e, field, Compare(Tilde, w), m) <==>
      Lookup(e, field).Some? && !PhpEmpty(Lookup(e, field).value) && m(w, Lookup(e, field).value)
  {
  }
}
