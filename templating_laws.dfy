/**
 * What the template engine promises: placeholders become their values,
 * marker blocks are found left-most with the nearest closing marker, and
 * each block is replaced by one rendering per group or per entry, in order.
 */
module TemplateLaws {
  import opened Wrappers
  import opened Strings
  import opened Bib
  import opened Conditions
  import opened Templating
  import opened ConditionLaws

  // ---------------------------------------------------------------------
  // Placeholders side by side with text

  /** What follows a placeholder cannot run on into another placeholder:
      it is empty, holds no `@`, or starts with a character that is neither
      `@` nor a word character. */
  predicate Separated(y: string)
  {
    y == [] || AtFree(y) || (y[0] != '@' && !IsWordChar(y[0]))
  }

  /** No other placeholder starts inside the placeholder of `name`. */
  lemma PlaceholderPast(name: string, other: string, y: string)
    requires IsWord(name) && IsWord(other) && name != other && Separated(y)
    ensures forall i :: 0 <= i < |Placeholder(name)| ==> !At(Placeholder(name) + y, i, Placeholder(other))
  {
    var t := Placeholder(name);
    var q := Placeholder(other);
    var s := t + y;
    forall i | 0 <= i < |t| ensures !At(s, i, q) {
      AtSlice(s, i, q);
      if i + |q| <= |s| {
        var w := s[i..i + |q|];
        if i == 0 {
          if |other| < |name| {
            assert w[|other| + 1] == s[|other| + 1] == t[|other| + 1] == name[|other|];
            assert q[|other| + 1] == '@';
          } else if |other| > |name| {
            assert w[|name| + 1] == s[|name| + 1] == t[|name| + 1] == '@';
            assert q[|name| + 1] == other[|name|];
          } else {
            assert w[1..|name| + 1] == name && q[1..|other| + 1] == other;
          }
        } else if i <= |name| {
          assert w[0] == name[i - 1];
        } else if AtFree(y) {
          assert w[|q| - 1] == y[|q| - 2];
        } else {
          assert i + 1 == |t|;
          assert w[1] == s[|t|] == y[0];
          assert q[1] == other[0];
        }
      }
    }
  }

  /** Replacing a placeholder keeps text separated. */
  lemma SeparatedKept(y: string, pat: string, rep: string)
    requires Separated(y) && pat != [] && pat[0] == '@'
    ensures Separated(ReplaceAll(y, pat, rep))
  {
    if AtFree(y) {
      AtFreeLacksMarker(y, pat);
      ReplaceAllAbsent(y, pat, rep);
    } else if y != [] {
      ReplaceAllFirst(y, pat, rep);
    }
  }

  /** The placeholders of the given names, in order. */
  predicate PlaceholdersOf(pats: seq<string>, names: seq<string>)
  {
    |pats| == |names| &&
    forall j :: 0 <= j < |pats| ==> IsWord(names[j]) && pats[j] == Placeholder(names[j])
  }

  /** The first pattern's placeholder becomes its replacement. */
  lemma ReplaceEachHead(x: string, y: string, names: seq<string>, pats: seq<string>, reps: seq<string>)
    requires PlaceholdersOf(pats, names) && |reps| == |pats| && 0 < |pats|
    requires AtFree(x) && (1 < |pats| ==> AtFree(reps[0]))
    ensures ReplaceEach(x + pats[0] + y, pats, reps) == x + reps[0] + ReplaceEach(y, pats, reps)
  {
    var y1 := ReplaceAll(y, pats[0], reps[0]);
    assert x + pats[0] + y == x + (pats[0] + y);
    ReplaceAllSkips(x, pats[0] + y, pats[0], reps[0]);
    ReplaceAllAtHead(pats[0], y, reps[0]);
    assert ReplaceAll(x + pats[0] + y, pats[0], reps[0]) == (x + reps[0]) + y1;
    if 1 < |pats| {
      ReplaceEachSkips(x + reps[0], y1, pats[1..], reps[1..]);
    }
  }

  /** A later pattern's placeholder passes the first replacement unchanged. */
  lemma ReplaceFirstPast(x: string, y: string, names: seq<string>, pats: seq<string>, reps: seq<string>, k: nat)
    requires PlaceholdersOf(pats, names) && |reps| == |pats| && 0 < k < |pats| && names[0] != names[k]
    requires AtFree(x) && Separated(y)
    ensures ReplaceAll(x + pats[k] + y, pats[0], reps[0]) == x + pats[k] + ReplaceAll(y, pats[0], reps[0])
  {
    assert x + pats[k] + y == x + (pats[k] + y);
    ReplaceAllSkips(x, pats[k] + y, pats[0], reps[0]);
    PlaceholderPast(names[k], names[0], y);
    ReplaceAllPast(pats[k], y, pats[0], reps[0]);
  }

  /**
   * A placeholder between text without `@` and separated text becomes its
   * replacement, while the rest is processed on its own, when the patterns
   * are applied one after another (`preg_replace` with arrays).
   */
  lemma {:induction false} ReplaceEachToken(x: string, y: string, names: seq<string>, pats: seq<string>, reps: seq<string>, k: nat)
    requires PlaceholdersOf(pats, names) && |reps| == |pats| && k < |pats|
    requires forall j :: 0 <= j < |pats| && j != k ==> names[j] != names[k]
    requires AtFree(x) && (k + 1 < |pats| ==> AtFree(reps[k])) && Separated(y)
    ensures ReplaceEach(x + pats[k] + y, pats, reps) == x + reps[k] + ReplaceEach(y, pats, reps)
    decreases k
  {
    if k == 0 {
      ReplaceEachHead(x, y, names, pats, reps);
    } else {
      ReplaceFirstPast(x, y, names, pats, reps, k);
      SeparatedKept(y, pats[0], reps[0]);
      assert pats[1..][k - 1] == pats[k];
      ReplaceEachToken(x, ReplaceAll(y, pats[0], reps[0]), names[1..], pats[1..], reps[1..], k - 1);
    }
  }

  // ---------------------------------------------------------------------
  // Global and group placeholders

  /** The global placeholders, named by words. */
  lemma GlobalNames()
    ensures PlaceholdersOf([GlobalCount, GlobalGroupCount, GlobalKey], ["globalcount", "globalgroupcount", "globalkey"])
  {
    assert IsWord("globalcount");
    assert IsWord("globalgroupcount");
    assert IsWord("globalkey");
  }

  /** The group placeholders, named by words. */
  lemma GroupNames()
    ensures PlaceholdersOf([GroupKey, GroupId, GroupCount], ["groupkey", "groupid", "groupcount"])
  {
    assert IsWord("groupkey");
    assert IsWord("groupid");
    assert IsWord("groupcount");
  }

  /**
   * `@globalcount@` becomes `0`, `@globalgroupcount@` the number of groups
   * and `@globalkey@` the configured `groupby` (templating.php:46-48).
   */
  lemma GlobalsFilled(x: string, y: string, data: Data)
    requires AtFree(x) && Separated(y)
    ensures SubstGlobals(x + GlobalCount + y, data) == x + "0" + SubstGlobals(y, data)
    ensures SubstGlobals(x + GlobalGroupCount + y, data) == x + NatToString(|data.groups|) + SubstGlobals(y, data)
    ensures SubstGlobals(x + GlobalKey + y, data) == x + data.config.groupby + SubstGlobals(y, data)
  {
    var names := ["globalcount", "globalgroupcount", "globalkey"];
    var pats := [GlobalCount, GlobalGroupCount, GlobalKey];
    var reps := ["0", NatToString(|data.groups|), data.config.groupby];
    GlobalNames();
    ReplaceEachToken(x, y, names, pats, reps, 0);
    ReplaceEachToken(x, y, names, pats, reps, 1);
    ReplaceEachToken(x, y, names, pats, reps, 2);
  }

  /**
   * In a group's template, `@groupkey@` becomes the group's key, `@groupid@`
   * its index and `@groupcount@` its number of entries (templating.php:86-88).
   */
  lemma GroupFilled(key: string, id: nat, count: nat, x: string, y: string)
    requires AtFree(x) && Separated(y)
    ensures AtFree(key) ==> SubstGroup(key, id, count, x + GroupKey + y) == x + key + SubstGroup(key, id, count, y)
    ensures SubstGroup(key, id, count, x + GroupId + y) == x + NatToString(id) + SubstGroup(key, id, count, y)
    ensures SubstGroup(key, id, count, x + GroupCount + y) == x + NatToString(count) + SubstGroup(key, id, count, y)
  {
    var names := ["groupkey", "groupid", "groupcount"];
    var pats := [GroupKey, GroupId, GroupCount];
    var reps := [key, NatToString(id), NatToString(count)];
    GroupNames();
    if AtFree(key) {
      ReplaceEachToken(x, y, names, pats, reps, 0);
    }
    ReplaceEachToken(x, y, names, pats, reps, 1);
    ReplaceEachToken(x, y, names, pats, reps, 2);
  }

  // ---------------------------------------------------------------------
  // Marker blocks

  /** `p` is the first opening marker and `c` the first closing marker
      after it. */
  predicate Delimits(s: string, open: string, close: string, p: nat, c: nat)
  {
    FirstAt(s, open, 0, p) && FirstAt(s, close, p + |open|, c)
  }

  /**
   * `open(.*?)close` matches left-most with the nearest closing marker: the
   * answer is the first opening marker and the first closing marker after
   * it, and there is none exactly when no such pair exists
   * (templating.php:51, :90).
   */
  lemma FindDelimitedIs(s: string, open: string, close: string, p: nat, c: nat)
    ensures FindDelimited(s, open, close) == Some((p, c)) <==> Delimits(s, open, close, p, c)
    ensures FindDelimited(s, open, close).None? <==> forall p': nat, c': nat :: !Delimits(s, open, close, p', c')
  {
    FindFromIs(s, open, 0, p);
    FindFromIs(s, close, p + |open|, c);
    match FindDelimited(s, open, close)
    case None =>
      forall p': nat, c': nat ensures !Delimits(s, open, close, p', c') {
        FindFromIs(s, open, 0, p');
        FindFromIs(s, close, p' + |open|, c');
      }
    case Some((p', c')) =>
      FindFromIs(s, open, 0, p');
      FindFromIs(s, close, p' + |open|, c');
      assert Delimits(s, open, close, p', c');
  }

  /** No occurrence of `q` starts in `a` when `q` follows it. */
  predicate FreeBefore(a: string, q: string)
  {
    forall i :: 0 <= i < |a| ==> !At(a + q, i, q)
  }

  /** The opening marker after `pre` is the first one when none starts in `pre`. */
  lemma OpenedAfter(pre: string, open: string, rest: string)
    requires FreeBefore(pre, open)
    ensures FirstAt(pre + open + rest, open, 0, |pre|)
  {
    var s := pre + open + rest;
    assert s == (pre + open) + rest;
    forall k | 0 <= k < |pre| ensures !At(s, k, open) {
      AtPrefix(pre + open, rest, k, open);
    }
    AtPrefix(pre + open, rest, |pre|, open);
    AtDrop(pre, open, 0, open);
    AtWhole(open);
  }

  /**
   * In `pre open body close post`, where no opening marker starts in `pre`
   * and no closing marker starts in `body`, the match is `open body close`.
   */
  lemma Delimited(pre: string, open: string, body: string, close: string, post: string)
    requires FreeBefore(pre, open) && FreeBefore(body, close)
    ensures FindDelimited(pre + open + body + close + post, open, close)
         == Some((|pre|, |pre| + |open| + |body|))
  {
    var s := pre + open + body + close + post;
    var a := pre + open;
    assert s == pre + open + (body + close + post);
    OpenedAfter(pre, open, body + close + post);
    assert s == a + (body + close + post);
    OpenedAfter(body, close, post);
    forall k | |a| <= k <= |a| + |body| ensures At(s, k, close) <==> At(body + close + post, k - |a|, close) {
      AtDrop(a, body + close + post, k - |a|, close);
    }
    FindDelimitedIs(s, open, close, |pre|, |pre| + |open| + |body|);
  }

  /** Text without `@` holds no opening marker. */
  lemma AtFreeBefore(a: string, q: string)
    requires AtFree(a) && q != [] && q[0] == '@'
    ensures FreeBefore(a, q)
  {
    forall i | 0 <= i < |a| ensures !At(a + q, i, q) {
      assert (a + q)[i] == a[i];
    }
  }

  /** Text without `@` holds no block. */
  lemma AtFreeUndelimited(s: string, open: string, close: string)
    requires AtFree(s) && open != [] && open[0] == '@'
    ensures FindDelimited(s, open, close).None?
  {
    AtFreeLacksMarker(s, open);
  }

  /** Replacing a delimited block by `x` leaves what surrounds it. */
  lemma SpliceBlock(pre: string, open: string, body: string, close: string, post: string, x: string)
    ensures var s := pre + open + body + close + post;
      s[|pre| + |open|..|pre| + |open| + |body|] == body &&
      Splice(s, |pre|, |pre| + |open| + |body| + |close|, x) == pre + x + post
  {
    var s := pre + open + body + close + post;
    assert s[..|pre|] == pre;
    assert s[|pre| + |open| + |body| + |close|..] == post;
  }

  /**
   * One pass of the entry loop: the first entry block is replaced by the
   * renderings of the entries, one after another (templating.php:90-106).
   */
  lemma EntryBlockPass(pre: string, body: string, post: string, es: seq<Entry>, m: RegexMatch, fuel: nat)
    requires fuel > 0 && FreeBefore(pre, EntryOpen) && FreeBefore(body, EntryClose)
    ensures ExpandEntries(pre + EntryOpen + body + EntryClose + post, es, m, fuel)
         == ExpandEntries(pre + RenderEntries(es, body, m) + post, es, m, Spend(fuel))
  {
    var s := pre + EntryOpen + body + EntryClose + post;
    var p := |pre|;
    var c := |pre| + |EntryOpen| + |body|;
    var x := RenderEntries(es, body, m);
    assert FindDelimited(s, EntryOpen, EntryClose) == Some((p, c)) by {
      Delimited(pre, EntryOpen, body, EntryClose, post);
    }
    assert s[p + |EntryOpen|..c] == body && Splice(s, p, c + |EntryClose|, x) == pre + x + post by {
      SpliceBlock(pre, EntryOpen, body, EntryClose, post, x);
    }
    ExpandEntriesStep(s, es, m, fuel, p, c, x, pre + x + post, ExpandEntries(s, es, m, fuel));
  }

  /** A group without entries leaves nothing where its entry block was
      (templating.php:90-106). */
  lemma EmptyGroupDropsBlock(pre: string, body: string, post: string, m: RegexMatch, fuel: nat)
    requires fuel > 0 && AtFree(pre) && AtFree(post) && FreeBefore(body, EntryClose)
    ensures ExpandEntries(pre + EntryOpen + body + EntryClose + post, [], m, fuel) == Some(pre + post)
  {
    var s := pre + EntryOpen + body + EntryClose + post;
    calc {
      ExpandEntries(s, [], m, fuel);
      { AtFreeBefore(pre, EntryOpen);
        EntryBlockPass(pre, body, post, [], m, fuel); }
      ExpandEntries(pre + RenderEntries([], body, m) + post, [], m, Spend(fuel));
      { assert pre + RenderEntries([], body, m) + post == pre + post; }
      ExpandEntries(pre + post, [], m, Spend(fuel));
      { AtFreeJoin(pre, post);
        EntriesDone(pre + post, [], m, Spend(fuel)); }
      Some(pre + post);
    }
  }

  lemma AtFreeJoin(a: string, b: string)
    requires AtFree(a) && AtFree(b)
    ensures AtFree(a + b)
  {
  }

  /** Text without `@` has no entry block left to expand. */
  lemma EntriesDone(s: string, es: seq<Entry>, m: RegexMatch, fuel: nat)
    requires AtFree(s)
    ensures ExpandEntries(s, es, m, fuel) == Some(s)
  {
    AtFreeUndelimited(s, EntryOpen, EntryClose);
  }

  /**
   * One pass of the group loop: the first group block is replaced by the
   * renderings of the groups, one after another, unless one of them runs
   * out of passes (templating.php:51-65).
   */
  lemma GroupBlockPass(pre: string, body: string, post: string, gs: seq<Group>, m: RegexMatch, fuel: nat)
    requires fuel > 0 && FreeBefore(pre, GroupOpen) && FreeBefore(body, GroupClose)
    ensures ExpandGroups(pre + GroupOpen + body + GroupClose + post, gs, m, fuel)
         == match RenderGroups(gs, body, m, fuel)
            case None => None
            case Some(x) => ExpandGroups(pre + x + post, gs, m, Spend(fuel))
  {
    match RenderGroups(gs, body, m, fuel)
    case None =>
      GroupBlockFails(pre, body, post, gs, m, fuel);
    case Some(x) =>
      GroupBlockRenders(pre, body, post, gs, m, fuel, x);
  }

  /** A group block whose groups fail to render makes the expansion fail. */
  lemma GroupBlockFails(pre: string, body: string, post: string, gs: seq<Group>, m: RegexMatch, fuel: nat)
    requires fuel > 0 && FreeBefore(pre, GroupOpen) && FreeBefore(body, GroupClose)
    requires RenderGroups(gs, body, m, fuel).None?
    ensures ExpandGroups(pre + GroupOpen + body + GroupClose + post, gs, m, fuel).None?
  {
    Delimited(pre, GroupOpen, body, GroupClose, post);
    SpliceBlock(pre, GroupOpen, body, GroupClose, post, []);
  }

  /** A group block whose groups render as `x` is replaced by `x`. */
  lemma GroupBlockRenders(pre: string, body: string, post: string, gs: seq<Group>, m: RegexMatch, fuel: nat, x: string)
    requires fuel > 0 && FreeBefore(pre, GroupOpen) && FreeBefore(body, GroupClose)
    requires RenderGroups(gs, body, m, fuel) == Some(x)
    ensures ExpandGroups(pre + GroupOpen + body + GroupClose + post, gs, m, fuel)
         == ExpandGroups(pre + x + post, gs, m, Spend(fuel))
  {
    var s := pre + GroupOpen + body + GroupClose + post;
    var p := |pre|;
    var c := |pre| + |GroupOpen| + |body|;
    assert FindDelimited(s, GroupOpen, GroupClose) == Some((p, c)) by {
      Delimited(pre, GroupOpen, body, GroupClose, post);
    }
    assert s[p + |GroupOpen|..c] == body && Splice(s, p, c + |GroupClose|, x) == pre + x + post by {
      SpliceBlock(pre, GroupOpen, body, GroupClose, post, x);
    }
    ExpandGroupsStep(s, gs, m, fuel, p, c, x, pre + x + post, ExpandGroups(s, gs, m, fuel));
  }

  /**
   * The entry loop stops only once no entry block is left: a finished
   * expansion holds none (templating.php:97, :105).
   */
  lemma {:induction false} ExpandEntriesDone(s: string, es: seq<Entry>, m: RegexMatch, fuel: nat, r: string)
    requires ExpandEntries(s, es, m, fuel) == Some(r)
    ensures FindDelimited(r, EntryOpen, EntryClose).None?
    decreases fuel
  {
    match FindDelimited(s, EntryOpen, EntryClose)
    case None =>
      assert r == s;
    case Some((p, c)) =>
      var x := RenderEntries(es, s[p + |EntryOpen|..c], m);
      var t := Splice(s, p, c + |EntryClose|, x);
      ExpandEntriesStep(s, es, m, fuel, p, c, x, t, Some(r));
      ExpandEntriesDone(t, es, m, Spend(fuel), r);
  }

  /**
   * The group loop stops only once no group block is left: a finished
   * expansion holds none (templating.php:55, :64).
   */
  lemma {:induction false} ExpandGroupsDone(s: string, gs: seq<Group>, m: RegexMatch, fuel: nat, r: string)
    requires ExpandGroups(s, gs, m, fuel) == Some(r)
    ensures FindDelimited(r, GroupOpen, GroupClose).None?
    decreases fuel
  {
    match FindDelimited(s, GroupOpen, GroupClose)
    case None =>
      assert r == s;
    case Some((p, c)) =>
      var x := RenderGroups(gs, s[p + |GroupOpen|..c], m, fuel).value;
      var t := Splice(s, p, c + |GroupClose|, x);
      ExpandGroupsStep(s, gs, m, fuel, p, c, x, t, Some(r));
      ExpandGroupsDone(t, gs, m, Spend(fuel), r);
  }

  /** A rendered group holds no entry block, and a processed template that
      uses groups holds no group block. */
  lemma NoBlocksLeft(key: string, id: nat, es: seq<Entry>, tpl: string, data: Data, m: RegexMatch, fuel: nat)
    ensures RenderGroup(key, id, es, tpl, m, fuel).Some? ==>
      FindDelimited(RenderGroup(key, id, es, tpl, m, fuel).value, EntryOpen, EntryClose).None?
    ensures data.config.usegroup && TemplateResult(tpl, data, m, fuel).Some? ==>
      FindDelimited(TemplateResult(tpl, data, m, fuel).value, GroupOpen, GroupClose).None?
  {
    var g := RenderGroup(key, id, es, tpl, m, fuel);
    if g.Some? {
      ExpandEntriesDone(SubstGroup(key, id, |es|, tpl), es, m, fuel, g.value);
    }
    var t := TemplateResult(tpl, data, m, fuel);
    if data.config.usegroup && t.Some? {
      ExpandGroupsDone(SubstGlobals(tpl, data), data.groups, m, fuel, t.value);
    }
  }

  // ---------------------------------------------------------------------
  // Entries

  /** The renderings of two runs of entries, one after the other. */
  lemma {:induction false} RenderEntriesAppend(a: seq<Entry>, b: seq<Entry>, tpl: string, m: RegexMatch)
    ensures RenderEntries(a + b, tpl, m) == RenderEntries(a, tpl, m) + RenderEntries(b, tpl, m)
    decreases |b|
  {
    if b == [] {
      assert a + b == a;
    } else {
      var front := b[..|b| - 1];
      var last := RenderEntry(b[|b| - 1], tpl, m);
      assert (a + b)[..|a + b| - 1] == a + front;
      assert (a + b)[|a + b| - 1] == b[|b| - 1];
      var ra := RenderEntries(a, tpl, m);
      var rf := RenderEntries(front, tpl, m);
      calc {
        RenderEntries(a + b, tpl, m);
        RenderEntries(a + front, tpl, m) + last;
        { RenderEntriesAppend(a, front, tpl, m); }
        ra + rf + last;
        ra + (rf + last);
        RenderEntries(a, tpl, m) + RenderEntries(b, tpl, m);
      }
    }
  }

  /** Text without `@` is the same for every entry. */
  lemma PlainEntry(e: Entry, tpl: string, m: RegexMatch)
    requires AtFree(tpl)
    ensures RenderEntry(e, tpl, m) == tpl
  {
    AtFreeLacksMarker(tpl, EntryKey);
    ReplaceAllAbsent(tpl, EntryKey, KeyOf(e));
    AtFreeResolved(e, tpl, m);
    FieldsAbsent(e, tpl);
  }

  /** No field placeholder occurs in text without `@`. */
  lemma FieldsAbsent(e: Entry, s: string)
    requires AtFree(s)
    ensures ReplaceEach(s, FieldPatterns(e), FieldValues(e)) == s
  {
    var pats := FieldPatterns(e);
    forall k | 0 <= k < |pats| ensures pats[k] != [] && !Contains(s, pats[k]) {
      AtFreeLacksMarker(s, pats[k]);
    }
    ReplaceEachAbsent(s, pats, FieldValues(e));
  }

  /** `n` copies of `x`. */
  function Repeat(x: string, n: nat): (r: string)
    ensures |r| == n * |x|
  {
    if n == 0 then "" else Repeat(x, n - 1) + x
  }

  /** An entry template without markers is repeated once per entry. */
  lemma {:induction false} PlainEntriesRepeat(es: seq<Entry>, tpl: string, m: RegexMatch)
    requires AtFree(tpl)
    ensures RenderEntries(es, tpl, m) == Repeat(tpl, |es|)
    decreases |es|
  {
    if es != [] {
      PlainEntriesRepeat(es[..|es| - 1], tpl, m);
      PlainEntry(es[|es| - 1], tpl, m);
    }
  }

  /** A block starts with `@?` and ends with `@`. */
  lemma {:induction false} BlockShape(s: string, p: nat)
    ensures BlockAt(s, p).Some? ==>
      var n := |BlockAt(s, p).value.text|;
      p + 2 < p + n <= |s| && s[p] == '@' && s[p + 1] == '?' && s[p + n - 1] == '@'
  {
    BlockAtMatches(s, p);
    if BlockAt(s, p).Some? {
      var b := BlockAt(s, p).value;
      var n := |b.text|;
      AtSlice(s, p, b.text);
      assert b.text[0] == '@' && b.text[1] == '?' && b.text[n - 1] == '@';
      assert s[p..p + n][0] == s[p] && s[p..p + n][1] == s[p + 1] && s[p..p + n][n - 1] == s[p + n - 1];
    }
  }

  /** A placeholder between texts without `@` holds no block. */
  lemma PlaceholderNoBlock(x: string, name: string, y: string)
    requires AtFree(x) && IsWord(name) && AtFree(y)
    ensures forall p: nat :: BlockAt(x + Placeholder(name) + y, p).None?
  {
    var s := x + Placeholder(name) + y;
    var c := |x| + |name| + 1;
    forall p: nat ensures BlockAt(s, p).None? {
      BlockShape(s, p);
      if p < |x| {
        assert s[p] == x[p];
      } else if p == |x| {
        assert s[p + 1] == name[0];
      } else if p < c {
        assert s[p] == name[p - |x| - 1];
      } else if p == c {
        forall k | c < k < |s| ensures s[k] != '@' {
          assert s[k] == y[k - c - 1];
        }
      } else if p < |s| {
        assert s[p] == y[p - c - 1];
      }
    }
  }

  /** So such a text resolves to itself. */
  lemma PlaceholderResolved(e: Entry, x: string, name: string, y: string, m: RegexMatch)
    requires AtFree(x) && IsWord(name) && AtFree(y)
    ensures Resolved(e, x + Placeholder(name) + y, m) == x + Placeholder(name) + y
  {
    PlaceholderNoBlock(x, name, y);
    assert FindBlock(x + Placeholder(name) + y, 0).None?;
  }

  /** A pattern starting with `@` that starts nowhere in the placeholder does
      not occur between texts without `@`. */
  lemma AroundAbsent(x: string, t: string, y: string, q: string)
    requires AtFree(x) && AtFree(y) && q != [] && q[0] == '@'
    requires forall i :: 0 <= i < |t| ==> !At(t + y, i, q)
    ensures !Contains(x + t + y, q)
  {
    var s := x + t + y;
    assert s == x + (t + y);
    forall i: nat | i <= |s| ensures !At(s, i, q) {
      AtSlice(s, i, q);
      if i < |x| {
        assert s[i] == x[i];
        if i + |q| <= |s| { assert s[i..i + |q|][0] == s[i]; }
      } else if i < |x| + |t| {
        AtDrop(x, t + y, i - |x|, q);
      } else if i < |s| {
        assert s[i] == y[i - |x| - |t|];
        if i + |q| <= |s| { assert s[i..i + |q|][0] == s[i]; }
      }
    }
  }

  /** `@entrykey@` becomes the entry's key (templating.php:125). */
  lemma EntryKeyFilled(e: Entry, x: string, y: string, m: RegexMatch)
    requires AtFree(x) && AtFree(y) && AtFree(KeyOf(e))
    ensures RenderEntry(e, x + EntryKey + y, m) == x + KeyOf(e) + y
  {
    var key := KeyOf(e);
    assert x + EntryKey + y == x + (EntryKey + y);
    ReplaceAllSkips(x, EntryKey + y, EntryKey, key);
    ReplaceAllAtHead(EntryKey, y, key);
    AtFreeLacksMarker(y, EntryKey);
    ReplaceAllAbsent(y, EntryKey, key);
    var s := x + key + y;
    assert ReplaceAll(x + EntryKey + y, EntryKey, key) == s;
    AtFreeJoin(x, key);
    AtFreeJoin(x + key, y);
    AtFreeResolved(e, s, m);
    FieldsAbsent(e, s);
  }

  /** The field names of an entry, in order. */
  function FieldNames(e: Entry): (r: seq<string>)
    ensures |r| == |e| && forall k :: 0 <= k < |r| ==> r[k] == e[k].0
  {
    seq(|e|, k requires 0 <= k < |e| => e[k].0)
  }

  /** The entry's field names are words and differ from `@entrykey@`'s. */
  predicate WordFields(e: Entry)
  {
    forall k :: 0 <= k < |e| ==> IsWord(e[k].0) && e[k].0 != "entrykey"
  }

  /** A PHP array holds each key once. */
  predicate UniqueFields(e: Entry)
  {
    forall j, k :: 0 <= j < k < |e| ==> e[j].0 != e[k].0
  }

  /** `@entrykey@` is not the placeholder of a word other than `entrykey`. */
  lemma EntryKeyElsewhere(x: string, name: string, y: string, key: string)
    requires AtFree(x) && AtFree(y) && IsWord(name) && name != "entrykey"
    ensures ReplaceAll(x + Placeholder(name) + y, EntryKey, key) == x + Placeholder(name) + y
  {
    assert IsWord("entrykey");
    PlaceholderPast(name, "entrykey", y);
    AroundAbsent(x, Placeholder(name), y, EntryKey);
    ReplaceAllAbsent(x + Placeholder(name) + y, EntryKey, key);
  }

  /**
   * The placeholder of a field the entry has becomes that field's value
   * (templating.php:134-143).
   */
  lemma EntryFieldFilled(e: Entry, name: string, v: string, x: string, y: string, m: RegexMatch)
    requires WordFields(e) && UniqueFields(e) && Lookup(e, name) == Some(v)
    requires AtFree(x) && AtFree(y) && AtFree(v)
    ensures RenderEntry(e, x + Placeholder(name) + y, m) == x + v + y
  {
    var k :| 0 <= k < |e| && e[k] == (name, v);
    EntryKeyElsewhere(x, name, y, KeyOf(e));
    PlaceholderResolved(e, x, name, y, m);
    var names := FieldNames(e);
    assert PlaceholdersOf(FieldPatterns(e), names);
    ReplaceEachToken(x, y, names, FieldPatterns(e), FieldValues(e), k);
    FieldsAbsent(e, y);
  }

  /**
   * The placeholder of a field the entry lacks stays as it is
   * (templating.php:29-30).
   */
  lemma UnknownFieldKept(e: Entry, name: string, x: string, y: string, m: RegexMatch)
    requires WordFields(e) && IsWord(name) && name != "entrykey" && Lookup(e, name).None?
    requires AtFree(x) && AtFree(y)
    ensures RenderEntry(e, x + Placeholder(name) + y, m) == x + Placeholder(name) + y
  {
    var s := x + Placeholder(name) + y;
    EntryKeyElsewhere(x, name, y, KeyOf(e));
    PlaceholderResolved(e, x, name, y, m);
    var pats := FieldPatterns(e);
    forall k | 0 <= k < |pats| ensures pats[k] != [] && !Contains(s, pats[k]) {
      PlaceholderPast(name, e[k].0, y);
      AroundAbsent(x, Placeholder(name), y, pats[k]);
    }
    ReplaceEachAbsent(s, pats, FieldValues(e));
  }

  /** A template without `@` is left as it is by the group substitution. */
  lemma GroupPlain(key: string, id: nat, count: nat, y: string)
    requires AtFree(y)
    ensures SubstGroup(key, id, count, y) == y
  {
    var pats := [GroupKey, GroupId, GroupCount];
    GroupNames();
    forall k | 0 <= k < |pats| ensures pats[k] != [] && !Contains(y, pats[k]) {
      AtFreeLacksMarker(y, pats[k]);
    }
    ReplaceEachAbsent(y, pats, [key, NatToString(id), NatToString(count)]);
  }

  /** Rendering one more group appends that group's text. */
  lemma RenderGroupsSnoc(gs: seq<Group>, tpl: string, m: RegexMatch, fuel: nat, front: string, last: string)
    requires gs != [] && RenderGroups(gs[..|gs| - 1], tpl, m, fuel) == Some(front)
    requires RenderGroup(gs[|gs| - 1].key, |gs| - 1, gs[|gs| - 1].entries, tpl, m, fuel) == Some(last)
    ensures RenderGroups(gs, tpl, m, fuel) == Some(front + last)
  {
  }

  /** A group body showing only `@groupid@` renders as that group's id. */
  lemma GroupIdAlone(key: string, id: nat, es: seq<Entry>, x: string, y: string, m: RegexMatch, fuel: nat)
    requires AtFree(x) && AtFree(y)
    ensures RenderGroup(key, id, es, x + GroupId + y, m, fuel) == Some(x + NatToString(id) + y)
  {
    GroupFilled(key, id, |es|, x, y);
    GroupPlain(key, id, |es|, y);
    var digits := NatToString(id);
    assert AtFree(digits) by {
      forall k | 0 <= k < |digits| ensures digits[k] != '@' {
        assert IsDigit(digits[k]);
      }
    }
    AtFreeJoin(x, digits);
    AtFreeJoin(x + digits, y);
    EntriesDone(x + digits + y, es, m, fuel);
  }

  /** A group body showing only `@groupkey@` renders as that group's key. */
  lemma GroupKeyAlone(key: string, id: nat, es: seq<Entry>, x: string, y: string, m: RegexMatch, fuel: nat)
    requires AtFree(x) && AtFree(y) && AtFree(key)
    ensures RenderGroup(key, id, es, x + GroupKey + y, m, fuel) == Some(x + key + y)
  {
    GroupFilled(key, id, |es|, x, y);
    GroupPlain(key, id, |es|, y);
    AtFreeJoin(x, key);
    AtFreeJoin(x + key, y);
    EntriesDone(x + key + y, es, m, fuel);
  }

  /** `x`, the id, `y`, once for each id below `n` in increasing order. */
  function Numbered(x: string, y: string, n: nat): string
  {
    if n == 0 then "" else Numbered(x, y, n - 1) + (x + NatToString(n - 1) + y)
  }

  /**
   * A group block whose body only shows `@groupid@` lists the ids 0, 1, ...
   * of the groups in their order (templating.php:57-61, 86).
   */
  lemma {:induction false} GroupIdsNumbered(gs: seq<Group>, x: string, y: string, m: RegexMatch, fuel: nat)
    requires AtFree(x) && AtFree(y)
    ensures RenderGroups(gs, x + GroupId + y, m, fuel) == Some(Numbered(x, y, |gs|))
    decreases |gs|
  {
    if gs != [] {
      GroupIdsNumbered(gs[..|gs| - 1], x, y, m, fuel);
      GroupIdsStep(gs, x, y, m, fuel);
    }
  }

  /** One more group adds its id to the list. */
  lemma GroupIdsStep(gs: seq<Group>, x: string, y: string, m: RegexMatch, fuel: nat)
    requires AtFree(x) && AtFree(y) && gs != []
    requires RenderGroups(gs[..|gs| - 1], x + GroupId + y, m, fuel) == Some(Numbered(x, y, |gs| - 1))
    ensures RenderGroups(gs, x + GroupId + y, m, fuel) == Some(Numbered(x, y, |gs|))
  {
    var n := |gs| - 1;
    var g := gs[n];
    var t := x + NatToString(n) + y;
    GroupIdAlone(g.key, n, g.entries, x, y, m, fuel);
    RenderGroupsSnoc(gs, x + GroupId + y, m, fuel, Numbered(x, y, n), t);
    assert Numbered(x, y, |gs|) == Numbered(x, y, n) + t;
  }

  /** `x`, the key, `y`, once for each group in order. */
  function Keyed(gs: seq<Group>, x: string, y: string): (r: string)
    ensures |r| == |gs| * (|x| + |y|) + KeysLength(gs)
  {
    if gs == [] then "" else Keyed(gs[..|gs| - 1], x, y) + (x + gs[|gs| - 1].key + y)
  }

  /** The total length of the keys. */
  function KeysLength(gs: seq<Group>): nat
  {
    if gs == [] then 0 else KeysLength(gs[..|gs| - 1]) + |gs[|gs| - 1].key|
  }

  /**
   * A group block whose body only shows `@groupkey@` lists the keys of the
   * groups in their order (templating.php:57-61, 86).
   */
  lemma {:induction false} GroupKeysListed(gs: seq<Group>, x: string, y: string, m: RegexMatch, fuel: nat)
    requires AtFree(x) && AtFree(y)
    requires forall k :: 0 <= k < |gs| ==> AtFree(gs[k].key)
    ensures RenderGroups(gs, x + GroupKey + y, m, fuel) == Some(Keyed(gs, x, y))
    decreases |gs|
  {
    if gs != [] {
      GroupKeysListed(gs[..|gs| - 1], x, y, m, fuel);
      GroupKeysStep(gs, x, y, m, fuel);
    }
  }

  /** One more group adds its key to the list. */
  lemma GroupKeysStep(gs: seq<Group>, x: string, y: string, m: RegexMatch, fuel: nat)
    requires AtFree(x) && AtFree(y) && gs != [] && AtFree(gs[|gs| - 1].key)
    requires RenderGroups(gs[..|gs| - 1], x + GroupKey + y, m, fuel) == Some(Keyed(gs[..|gs| - 1], x, y))
    ensures RenderGroups(gs, x + GroupKey + y, m, fuel) == Some(Keyed(gs, x, y))
  {
    var n := |gs| - 1;
    var g := gs[n];
    var t := x + g.key + y;
    GroupKeyAlone(g.key, n, g.entries, x, y, m, fuel);
    RenderGroupsSnoc(gs, x + GroupKey + y, m, fuel, Keyed(gs[..n], x, y), t);
    assert Keyed(gs, x, y) == Keyed(gs[..n], x, y) + t;
  }
}
