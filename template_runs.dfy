/**
 * Whole templates: markers and placeholders standing between runs of plain
 * text. The three levels of the engine (global, group and entry) are
 * composed here on one template shape, and a template whose entry loop
 * never ends is exhibited.
 */
module TemplateRuns {
  import opened Wrappers
  import opened Strings
  import opened Bib
  import opened Conditions
  import opened Templating
  import opened ConditionLaws
  import opened TemplateLaws

  // ---------------------------------------------------------------------
  // Tokens

  /** A character that can follow the `@` opening a marker or a placeholder. */
  predicate Opener(c: char)
  {
    IsWordChar(c) || c == '{' || c == '}'
  }

  /** A marker or a placeholder: `@`, an opener, no further `@` until the
      closing `@`. */
  predicate Token(t: string)
  {
    |t| >= 3 && t[0] == '@' && t[|t| - 1] == '@' && Opener(t[1]) &&
    forall k :: 0 < k < |t| - 1 ==> t[k] != '@'
  }

  /** Plain text that may stand after a token: no `@`, not empty, and not
      starting with a character that would join the token's closing `@`
      into a new token. */
  predicate Lead(p: string)
  {
    AtFree(p) && p != [] && !Opener(p[0])
  }

  /** What follows a token cannot run on into another token. */
  predicate Trail(y: string)
  {
    y == [] || AtFree(y) || (y[0] != '@' && !Opener(y[0]))
  }

  lemma LeadTrail(p: string, rest: string)
    requires Lead(p)
    ensures Trail(p + rest) && (p + rest)[0] == p[0]
  {
    assert (p + rest)[0] == p[0];
  }

  /** The placeholder of a word is a token. */
  lemma PlaceholderToken(name: string)
    requires IsWord(name)
    ensures Token(Placeholder(name))
  {
    var t := Placeholder(name);
    assert t == "@" + name + "@";
    assert t[1] == name[0];
    forall k | 0 < k < |t| - 1 ensures t[k] != '@' {
      assert t[k] == name[k - 1];
    }
  }

  /** The four block markers are tokens. */
  lemma MarkerTokens()
    ensures Token(GroupOpen) && Token(GroupClose) && Token(EntryOpen) && Token(EntryClose)
  {
  }

  /** The text of a number holds no `@`. */
  lemma DigitsAtFree(n: nat)
    ensures AtFree(NatToString(n))
  {
    var digits := NatToString(n);
    forall k | 0 <= k < |digits| ensures digits[k] != '@' {
      assert IsDigit(digits[k]);
    }
  }

  /** Copies of text without `@` hold no `@`. */
  lemma {:induction false} RepeatAtFree(x: string, n: nat)
    requires AtFree(x)
    ensures AtFree(Repeat(x, n))
    decreases n
  {
    if n > 0 {
      RepeatAtFree(x, n - 1);
      AtFreeJoin(Repeat(x, n - 1), x);
    }
  }

  /**
   * No token other than `t` starts inside `t`, whatever follows it, as long
   * as that does not begin with an opener: the closing `@` of `t` would then
   * open nothing.
   */
  lemma TokenPast(t: string, y: string, q: string)
    requires Token(t) && Token(q) && t != q
    requires y == [] || AtFree(y) || !Opener(y[0])
    ensures forall i :: 0 <= i < |t| ==> !At(t + y, i, q)
  {
    var s := t + y;
    forall i | 0 <= i < |t| ensures !At(s, i, q) {
      AtSlice(s, i, q);
      if i + |q| <= |s| {
        var w := s[i..i + |q|];
        if i == 0 && |q| < |t| {
          assert w[|q| - 1] == t[|q| - 1];
        } else if i == 0 && |q| > |t| {
          assert w[|t| - 1] == t[|t| - 1];
        } else if i == 0 {
          assert w == s[..|t|] == t;
        } else if i < |t| - 1 {
          assert w[0] == t[i];
        } else {
          assert w[1] == y[0];
          assert w[|q| - 1] == y[|q| - 2];
        }
      }
    }
  }

  /** Replacing a pattern that starts with `@` keeps a trail a trail. */
  lemma TrailKept(y: string, pat: string, rep: string)
    requires Trail(y) && pat != [] && pat[0] == '@'
    ensures Trail(ReplaceAll(y, pat, rep))
  {
    if AtFree(y) {
      AtFreeLacksMarker(y, pat);
      ReplaceAllAbsent(y, pat, rep);
    } else if y != [] {
      ReplaceAllFirst(y, pat, rep);
    }
  }

  /** Placeholders other than the token `t` pass over it, one replacement
      after another. */
  lemma {:induction false} ReplaceEachPastToken(t: string, y: string, names: seq<string>, pats: seq<string>, reps: seq<string>)
    requires PlaceholdersOf(pats, names) && |reps| == |pats|
    requires Token(t) && Trail(y) && forall j :: 0 <= j < |pats| ==> pats[j] != t
    ensures ReplaceEach(t + y, pats, reps) == t + ReplaceEach(y, pats, reps)
    decreases |pats|
  {
    if pats != [] {
      PlaceholderToken(names[0]);
      TokenPast(t, y, pats[0]);
      ReplaceAllPast(t, y, pats[0], reps[0]);
      TrailKept(y, pats[0], reps[0]);
      ReplaceEachPastToken(t, ReplaceAll(y, pats[0], reps[0]), names[1..], pats[1..], reps[1..]);
    }
  }

  /** Every placeholder starts with `@`. */
  lemma PlaceholdersOpen(names: seq<string>, pats: seq<string>)
    requires PlaceholdersOf(pats, names)
    ensures forall k :: 0 <= k < |pats| ==> pats[k] != [] && pats[k][0] == '@'
  {
    forall k | 0 <= k < |pats| ensures pats[k] != [] && pats[k][0] == '@' {
      assert pats[k] == Placeholder(names[k]);
    }
  }

  /** Plain text and a token that is none of the patterns are copied, and
      the replacements go on after them. */
  lemma ReplaceEachPast(x: string, t: string, y: string, names: seq<string>, pats: seq<string>, reps: seq<string>)
    requires PlaceholdersOf(pats, names) && |reps| == |pats|
    requires AtFree(x) && Token(t) && Trail(y) && forall j :: 0 <= j < |pats| ==> pats[j] != t
    ensures ReplaceEach(x + (t + y), pats, reps) == x + (t + ReplaceEach(y, pats, reps))
  {
    PlaceholdersOpen(names, pats);
    ReplaceEachSkips(x, t + y, pats, reps);
    ReplaceEachPastToken(t, y, names, pats, reps);
  }

  /** Plain text is left alone by placeholder replacements. */
  lemma PlainKept(s: string, names: seq<string>, pats: seq<string>, reps: seq<string>)
    requires PlaceholdersOf(pats, names) && |reps| == |pats| && AtFree(s)
    ensures ReplaceEach(s, pats, reps) == s
  {
    forall k | 0 <= k < |pats| ensures pats[k] != [] && !Contains(s, pats[k]) {
      AtFreeLacksMarker(s, pats[k]);
    }
    ReplaceEachAbsent(s, pats, reps);
  }

  /** A token `q` other than `t` starts in none of plain text, `t`, and a
      rest in which it starts nowhere. */
  lemma FreeBeforeToken(x: string, t: string, r: string, q: string)
    requires AtFree(x) && Token(t) && Token(q) && t != q
    requires r != [] && !Opener(r[0]) && FreeBefore(r, q)
    ensures FreeBefore(x + t + r, q)
  {
    var s := x + t + r + q;
    assert s == x + (t + (r + q)) == (x + t) + (r + q);
    assert (r + q)[0] == r[0];
    TokenPast(t, r + q, q);
    forall i | 0 <= i < |x + t + r| ensures !At(s, i, q) {
      AtSlice(s, i, q);
      if i < |x| {
        assert s[i] == x[i];
        if i + |q| <= |s| { assert s[i..i + |q|][0] == s[i]; }
      } else if i < |x| + |t| {
        AtDrop(x, t + (r + q), i - |x|, q);
      } else {
        AtDrop(x + t, r + q, i - |x| - |t|, q);
      }
    }
  }

  // ---------------------------------------------------------------------
  // A template with a group block holding an entry block

  /**
   * The plain text of a group body laid out as
   * `head @groupkey@ sub @{entry@ lead @groupid@ tail @}entry@ foot`.
   */
  datatype Layout = Layout(head: string, sub: string, lead: string, tail: string, foot: string)

  /** Every piece is plain text that cannot join the tokens around it. */
  predicate Fits(l: Layout)
  {
    Lead(l.head) && Lead(l.sub) && Lead(l.lead) && Lead(l.tail) && Lead(l.foot)
  }

  /** The group body, from its end backwards: what follows `@groupid@`,
      what follows `@{entry@`, what follows `@groupkey@`, and the whole. */
  function AfterGroupId(l: Layout): string
  {
    l.tail + EntryClose + l.foot
  }

  function AfterEntryOpen(l: Layout): string
  {
    l.lead + GroupId + AfterGroupId(l)
  }

  function AfterGroupKey(l: Layout): string
  {
    l.sub + EntryOpen + AfterEntryOpen(l)
  }

  function Body(l: Layout): string
  {
    l.head + GroupKey + AfterGroupKey(l)
  }

  /** `pre @{group@ body @}group@ post`. */
  function Page(pre: string, l: Layout, post: string): string
  {
    pre + GroupOpen + Body(l) + GroupClose + post
  }

  /** What a group with key `key`, id `id` and `n` entries shows: its key
      once, and its id once per entry. */
  function Shown(l: Layout, key: string, id: nat, n: nat): string
  {
    l.head + key + l.sub + Repeat(l.lead + NatToString(id) + l.tail, n) + l.foot
  }

  /** What the groups show, one after another, numbered from 0. */
  function Listing(gs: seq<Group>, l: Layout): string
  {
    if gs == [] then ""
    else Listing(gs[..|gs| - 1], l) + Shown(l, gs[|gs| - 1].key, |gs| - 1, |gs[|gs| - 1].entries|)
  }

  /** Plain text and a token other than the group placeholders pass the
      group substitution. */
  lemma GroupPastToken(key: string, id: nat, count: nat, x: string, t: string, y: string)
    requires AtFree(x) && Token(t) && Trail(y) && t != GroupKey && t != GroupId && t != GroupCount
    ensures SubstGroup(key, id, count, x + t + y) == x + t + SubstGroup(key, id, count, y)
  {
    GroupNames();
    ReplaceEachPast(x, t, y, ["groupkey", "groupid", "groupcount"], [GroupKey, GroupId, GroupCount],
                    [key, NatToString(id), NatToString(count)]);
    var sy := SubstGroup(key, id, count, y);
    assert x + t + y == x + (t + y);
    assert x + (t + sy) == x + t + sy;
  }

  /** Plain text and a token other than the global placeholders pass the
      global substitution. */
  lemma GlobalsPastToken(x: string, t: string, y: string, data: Data)
    requires AtFree(x) && Token(t) && Trail(y) && t != GlobalCount && t != GlobalGroupCount && t != GlobalKey
    ensures SubstGlobals(x + t + y, data) == x + t + SubstGlobals(y, data)
  {
    GlobalNames();
    ReplaceEachPast(x, t, y, ["globalcount", "globalgroupcount", "globalkey"], [GlobalCount, GlobalGroupCount, GlobalKey],
                    ["0", NatToString(|data.groups|), data.config.groupby]);
    var sy := SubstGlobals(y, data);
    assert x + t + y == x + (t + y);
    assert x + (t + sy) == x + t + sy;
  }

  lemma GroupTailKept(key: string, id: nat, count: nat, l: Layout)
    requires AtFree(l.tail) && AtFree(l.foot)
    ensures SubstGroup(key, id, count, AfterGroupId(l)) == AfterGroupId(l)
  {
    MarkerTokens();
    GroupPastToken(key, id, count, l.tail, EntryClose, l.foot);
    GroupPlain(key, id, count, l.foot);
  }

  lemma GroupLeadFilled(key: string, id: nat, count: nat, l: Layout)
    requires AtFree(l.lead) && Lead(l.tail) && AtFree(l.foot)
    ensures SubstGroup(key, id, count, AfterEntryOpen(l)) == l.lead + NatToString(id) + AfterGroupId(l)
  {
    GroupTailKept(key, id, count, l);
    LeadTrail(l.tail, EntryClose + l.foot);
    assert l.tail + (EntryClose + l.foot) == AfterGroupId(l);
    GroupFilled(key, id, count, l.lead, AfterGroupId(l));
  }

  lemma GroupSubFilled(key: string, id: nat, count: nat, l: Layout)
    requires AtFree(l.sub) && Lead(l.lead) && Lead(l.tail) && AtFree(l.foot)
    ensures SubstGroup(key, id, count, AfterGroupKey(l))
         == l.sub + EntryOpen + (l.lead + NatToString(id) + AfterGroupId(l))
  {
    MarkerTokens();
    GroupLeadFilled(key, id, count, l);
    LeadTrail(l.lead, GroupId + AfterGroupId(l));
    assert l.lead + (GroupId + AfterGroupId(l)) == AfterEntryOpen(l);
    GroupPastToken(key, id, count, l.sub, EntryOpen, AfterEntryOpen(l));
  }

  /**
   * The group placeholders are substituted throughout a group body,
   * including inside its entry block, before any entry is seen; the entry
   * markers and the plain text stay (templating.php:86-88).
   */
  lemma GroupBodyFilled(key: string, id: nat, count: nat, l: Layout)
    requires AtFree(key) && AtFree(l.head) && Lead(l.sub) && Lead(l.lead) && Lead(l.tail) && AtFree(l.foot)
    ensures SubstGroup(key, id, count, Body(l))
         == l.head + key + (l.sub + EntryOpen + (l.lead + NatToString(id) + (l.tail + EntryClose + l.foot)))
  {
    GroupSubFilled(key, id, count, l);
    LeadTrail(l.sub, EntryOpen + AfterEntryOpen(l));
    assert l.sub + (EntryOpen + AfterEntryOpen(l)) == AfterGroupKey(l);
    GroupFilled(key, id, count, l.head, AfterGroupKey(l));
  }

  /** Nine pieces regrouped. */
  lemma Regroup(a: string, b: string, c: string, d: string, e: string, f: string, g: string, h: string, i: string)
    ensures a + b + (c + d + (e + f + (g + h + i))) == (a + b + c) + d + (e + f + g) + h + i
  {
  }

  /**
   * A group renders as its key, then its entry block once per entry with
   * the group id substituted in it (templating.php:80-109).
   */
  lemma GroupShown(key: string, id: nat, es: seq<Entry>, l: Layout, m: RegexMatch, fuel: nat)
    requires fuel > 0 && AtFree(key) && Fits(l)
    ensures RenderGroup(key, id, es, Body(l), m, fuel) == Some(Shown(l, key, id, |es|))
  {
    GroupBodyFilled(key, id, |es|, l);
    DigitsAtFree(id);
    var pre := l.head + key + l.sub;
    var body := l.lead + NatToString(id) + l.tail;
    Regroup(l.head, key, l.sub, EntryOpen, l.lead, NatToString(id), l.tail, EntryClose, l.foot);
    assert SubstGroup(key, id, |es|, Body(l)) == pre + EntryOpen + body + EntryClose + l.foot;
    AtFreeJoin(l.head, key);
    AtFreeJoin(l.head + key, l.sub);
    AtFreeJoin(l.lead, NatToString(id));
    AtFreeJoin(l.lead + NatToString(id), l.tail);
    AtFreeBefore(pre, EntryOpen);
    AtFreeBefore(body, EntryClose);
    EntryBlockPass(pre, body, l.foot, es, m, fuel);
    PlainEntriesRepeat(es, body, m);
    RepeatAtFree(body, |es|);
    AtFreeJoin(pre, Repeat(body, |es|));
    AtFreeJoin(pre + Repeat(body, |es|), l.foot);
    EntriesDone(pre + Repeat(body, |es|) + l.foot, es, m, Spend(fuel));
  }

  /** The group block renders as every group shown in turn. */
  lemma {:induction false} GroupsListed(gs: seq<Group>, l: Layout, m: RegexMatch, fuel: nat)
    requires fuel > 0 && Fits(l)
    requires forall k :: 0 <= k < |gs| ==> AtFree(gs[k].key)
    ensures RenderGroups(gs, Body(l), m, fuel) == Some(Listing(gs, l))
    decreases |gs|
  {
    if gs != [] {
      var n := |gs| - 1;
      var g := gs[n];
      GroupsListed(gs[..n], l, m, fuel);
      GroupShown(g.key, n, g.entries, l, m, fuel);
      RenderGroupsSnoc(gs, Body(l), m, fuel, Listing(gs[..n], l), Shown(l, g.key, n, |g.entries|));
    }
  }

  /** The groups shown hold no `@`. */
  lemma {:induction false} ListingAtFree(gs: seq<Group>, l: Layout)
    requires Fits(l) && forall k :: 0 <= k < |gs| ==> AtFree(gs[k].key)
    ensures AtFree(Listing(gs, l))
    decreases |gs|
  {
    if gs != [] {
      var n := |gs| - 1;
      var g := gs[n];
      ListingAtFree(gs[..n], l);
      var body := l.lead + NatToString(n) + l.tail;
      DigitsAtFree(n);
      AtFreeJoin(l.lead, NatToString(n));
      AtFreeJoin(l.lead + NatToString(n), l.tail);
      RepeatAtFree(body, |g.entries|);
      assert AtFree(Shown(l, g.key, n, |g.entries|));
      AtFreeJoin(Listing(gs[..n], l), Shown(l, g.key, n, |g.entries|));
    }
  }

  /** No closing group marker starts in the group body. */
  lemma BodyFreeBeforeClose(l: Layout)
    requires Fits(l)
    ensures FreeBefore(Body(l), GroupClose)
  {
    MarkerTokens();
    assert IsWord("groupkey") && IsWord("groupid");
    PlaceholderToken("groupkey");
    PlaceholderToken("groupid");
    AtFreeBefore(l.foot, GroupClose);
    FreeBeforeToken(l.tail, EntryClose, l.foot, GroupClose);
    LeadTrail(l.tail, EntryClose + l.foot);
    FreeBeforeToken(l.lead, GroupId, AfterGroupId(l), GroupClose);
    LeadTrail(l.lead, GroupId + AfterGroupId(l));
    assert l.lead + (GroupId + AfterGroupId(l)) == AfterEntryOpen(l);
    FreeBeforeToken(l.sub, EntryOpen, AfterEntryOpen(l), GroupClose);
    LeadTrail(l.sub, EntryOpen + AfterEntryOpen(l));
    assert l.sub + (EntryOpen + AfterEntryOpen(l)) == AfterGroupKey(l);
    FreeBeforeToken(l.head, GroupKey, AfterGroupKey(l), GroupClose);
  }

  /** A text the global substitution keeps, behind plain text and a token
      that is no global placeholder, is kept too. */
  lemma GlobalsKeptStep(x: string, t: string, y: string, data: Data)
    requires Lead(x) && Token(t) && t != GlobalCount && t != GlobalGroupCount && t != GlobalKey
    requires Trail(y) && SubstGlobals(y, data) == y
    ensures SubstGlobals(x + t + y, data) == x + t + y && Trail(x + (t + y))
  {
    GlobalsPastToken(x, t, y, data);
    LeadTrail(x, t + y);
  }

  /** `s` followed by `@}group@` and `post`. */
  function Closed(s: string, post: string): string
  {
    s + (GroupClose + post)
  }

  lemma GlobalsKeptTail(l: Layout, post: string, data: Data)
    requires Fits(l) && AtFree(post)
    ensures SubstGlobals(Closed(AfterGroupId(l), post), data) == Closed(AfterGroupId(l), post)
    ensures Trail(Closed(AfterGroupId(l), post))
  {
    MarkerTokens();
    GlobalNames();
    PlainKept(post, ["globalcount", "globalgroupcount", "globalkey"], [GlobalCount, GlobalGroupCount, GlobalKey],
              ["0", NatToString(|data.groups|), data.config.groupby]);
    GlobalsKeptStep(l.foot, GroupClose, post, data);
    assert l.foot + GroupClose + post == l.foot + (GroupClose + post);
    GlobalsKeptStep(l.tail, EntryClose, l.foot + (GroupClose + post), data);
    assert Closed(AfterGroupId(l), post) == l.tail + EntryClose + (l.foot + (GroupClose + post));
  }

  lemma GlobalsKeptLead(l: Layout, post: string, data: Data)
    requires Fits(l) && AtFree(post)
    ensures SubstGlobals(Closed(AfterEntryOpen(l), post), data) == Closed(AfterEntryOpen(l), post)
    ensures Trail(Closed(AfterEntryOpen(l), post))
  {
    GlobalsKeptTail(l, post, data);
    assert IsWord("groupid");
    PlaceholderToken("groupid");
    GlobalsKeptStep(l.lead, GroupId, Closed(AfterGroupId(l), post), data);
    assert Closed(AfterEntryOpen(l), post) == l.lead + GroupId + Closed(AfterGroupId(l), post);
  }

  lemma GlobalsKeptSub(l: Layout, post: string, data: Data)
    requires Fits(l) && AtFree(post)
    ensures SubstGlobals(Closed(AfterGroupKey(l), post), data) == Closed(AfterGroupKey(l), post)
    ensures Trail(Closed(AfterGroupKey(l), post))
  {
    GlobalsKeptLead(l, post, data);
    MarkerTokens();
    GlobalsKeptStep(l.sub, EntryOpen, Closed(AfterEntryOpen(l), post), data);
    assert Closed(AfterGroupKey(l), post) == l.sub + EntryOpen + Closed(AfterEntryOpen(l), post);
  }

  lemma GlobalsKeptBody(l: Layout, post: string, data: Data)
    requires Fits(l) && AtFree(post)
    ensures SubstGlobals(Closed(Body(l), post), data) == Closed(Body(l), post)
    ensures Trail(Closed(Body(l), post))
  {
    GlobalsKeptSub(l, post, data);
    assert IsWord("groupkey");
    PlaceholderToken("groupkey");
    GlobalsKeptStep(l.head, GroupKey, Closed(AfterGroupKey(l), post), data);
    assert Closed(Body(l), post) == l.head + GroupKey + Closed(AfterGroupKey(l), post);
  }

  /** The global placeholders do not occur in such a template, so the global
      substitution leaves it unchanged (templating.php:46-48). */
  lemma PageGlobalsKept(pre: string, l: Layout, post: string, data: Data)
    requires AtFree(pre) && Fits(l) && AtFree(post)
    ensures SubstGlobals(Page(pre, l, post), data) == Page(pre, l, post)
  {
    GlobalsKeptBody(l, post, data);
    MarkerTokens();
    GlobalsPastToken(pre, GroupOpen, Closed(Body(l), post), data);
    assert Page(pre, l, post) == pre + GroupOpen + Closed(Body(l), post);
  }

  /**
   * The processed template: with groups on and at least one pass allowed,
   * the group block becomes every group shown in turn, each listing its
   * group id once per entry; without a pass to spend it fails; with groups
   * off the template is returned as it is (templating.php:42-69, 80-109).
   */
  lemma PageRendered(pre: string, l: Layout, post: string, data: Data, m: RegexMatch, fuel: nat)
    requires AtFree(pre) && Fits(l) && AtFree(post)
    requires forall k :: 0 <= k < |data.groups| ==> AtFree(data.groups[k].key)
    ensures data.config.usegroup && fuel > 0 ==>
      TemplateResult(Page(pre, l, post), data, m, fuel) == Some(pre + Listing(data.groups, l) + post)
    ensures data.config.usegroup && fuel == 0 ==> TemplateResult(Page(pre, l, post), data, m, fuel).None?
    ensures !data.config.usegroup ==> TemplateResult(Page(pre, l, post), data, m, fuel) == Some(Page(pre, l, post))
  {
    var page := Page(pre, l, post);
    var gs := data.groups;
    PageGlobalsKept(pre, l, post, data);
    AtFreeBefore(pre, GroupOpen);
    BodyFreeBeforeClose(l);
    Delimited(pre, GroupOpen, Body(l), GroupClose, post);
    if fuel > 0 {
      GroupsListed(gs, l, m, fuel);
      GroupBlockRenders(pre, Body(l), post, gs, m, fuel, Listing(gs, l));
      ListingAtFree(gs, l);
      AtFreeJoin(pre, Listing(gs, l));
      AtFreeJoin(pre + Listing(gs, l), post);
      AtFreeUndelimited(pre + Listing(gs, l) + post, GroupOpen, GroupClose);
    }
  }

  // ---------------------------------------------------------------------
  // A template whose entry loop never ends

  /** `@{entry@@title@@}entry@`. */
  function Looping(): string
  {
    EntryOpen + Placeholder("title") + EntryClose
  }

  /** An entry whose only field, `title`, is that template itself. */
  function LoopEntry(): Entry
  {
    [("title", Looping())]
  }

  /** Rendering the entry block's body for that entry gives the whole
      template back. */
  lemma LoopEntryRenders(m: RegexMatch)
    ensures RenderEntries([LoopEntry()], Placeholder("title"), m) == Looping()
  {
    var e := LoopEntry();
    var body := Placeholder("title");
    assert IsWord("title");
    assert KeyOf(e) == "";
    assert ReplaceAll(body, EntryKey, KeyOf(e)) == body;
    PlaceholderResolved(e, "", "title", "", m);
    assert "" + body + "" == body;
    assert FieldPatterns(e) == [body] && FieldValues(e) == [Looping()];
    ReplaceWhole(body, Looping());
    assert RenderEntry(e, body, m) == Looping();
    assert RenderEntries([e], body, m) == RenderEntries([], body, m) + Looping();
  }

  /**
   * An entry block whose rendering is the block itself is put back by every
   * pass of the entry loop, so no number of passes finishes it.
   */
  lemma {:induction false} SelfRenderingBlock(t: string, es: seq<Entry>, m: RegexMatch, fuel: nat)
    requires FreeBefore(t, EntryClose) && RenderEntries(es, t, m) == EntryOpen + t + EntryClose
    ensures ExpandEntries(EntryOpen + t + EntryClose, es, m, fuel).None?
    decreases fuel
  {
    var s := EntryOpen + t + EntryClose;
    assert s == "" + EntryOpen + t + EntryClose + "";
    assert FreeBefore("", EntryOpen);
    Delimited("", EntryOpen, t, EntryClose, "");
    if fuel > 0 {
      EntryBlockPass("", t, "", es, m, fuel);
      assert "" + s + "" == s;
      SelfRenderingBlock(t, es, m, Spend(fuel));
    }
  }

  /**
   * So `process_tpl_group` never returns for the template
   * `@{entry@@title@@}entry@` and an entry whose title is that template
   * (templating.php:97-106).
   */
  lemma EntryLoopRunsForever(m: RegexMatch, fuel: nat)
    ensures ExpandEntries(Looping(), [LoopEntry()], m, fuel).None?
  {
    var body := Placeholder("title");
    assert IsWord("title");
    PlaceholderToken("title");
    MarkerTokens();
    TokenPast(body, EntryClose, EntryClose);
    LoopEntryRenders(m);
    SelfRenderingBlock(body, [LoopEntry()], m, fuel);
  }
}
