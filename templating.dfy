/**
 * The template engine (`BB4DWTemplating`): global placeholders, group
 * blocks expanded once per group, entry blocks expanded once per entry, and
 * each entry rendered by substituting its key, resolving its conditional
 * blocks and substituting its fields.
 *
 * Each PHP method is a Dafny method whose loops follow the source, proved
 * equal to a specification function. The group and entry loops share one
 * budget, `fuel`: each group pass spends one unit, and the entry loops run
 * during the k-th group pass (counting from 0) get the `fuel - k` passes that
 * are left. `None` means that this shared budget ran out, not that some
 * single loop needs more than `fuel` passes.
 */
module Templating {
  import opened Wrappers
  import opened Strings
  import opened Bib
  import opened Conditions

  const GroupOpen: string := "@{group@"
  const GroupClose: string := "@}group@"
  const EntryOpen: string := "@{entry@"
  const EntryClose: string := "@}entry@"
  const EntryKey: string := Placeholder("entrykey")
  const GlobalCount: string := Placeholder("globalcount")
  const GlobalGroupCount: string := Placeholder("globalgroupcount")
  const GlobalKey: string := Placeholder("globalkey")
  const GroupKey: string := Placeholder("groupkey")
  const GroupId: string := Placeholder("groupid")
  const GroupCount: string := Placeholder("groupcount")

  /** The token `@name@` of a field. */
  function Placeholder(name: string): (r: string)
    ensures |r| == |name| + 2 && r[0] == '@' && r[|r| - 1] == '@'
  {
    "@" + name + "@"
  }

  /**
   * The left-most match of `open(.*?)close` with `.` matching newlines:
   * the first occurrence of `open`, and the first occurrence of `close`
   * after it (`preg_match` with the patterns at templating.php:51 and :90).
   * The answer is the start of `open` and the start of `close`.
   */
  function FindDelimited(s: string, open: string, close: string): (r: Option<(nat, nat)>)
    ensures r.Some? ==> r.value.0 + |open| <= r.value.1 && r.value.1 + |close| <= |s|
  {
    match FindFrom(s, open, 0)
    case None => None
    case Some(p) =>
      match FindFrom(s, close, p + |open|)
      case None => None
      case Some(c) => Some((p, c))
  }

  /** `s` with `s[p..q]` replaced by `x` (`preg_replace` with limit 1). */
  function Splice(s: string, p: nat, q: nat, x: string): (r: string)
    requires p <= q <= |s|
  {
    s[..p] + x + s[q..]
  }

  /** The global placeholders substituted (templating.php:47-48). */
  function SubstGlobals(tpl: string, data: Data): string
  {
    ReplaceEach(tpl, [GlobalCount, GlobalGroupCount, GlobalKey],
                ["0", NatToString(|data.groups|), data.config.groupby])
  }

  /** The group placeholders substituted (templating.php:86-88). */
  function SubstGroup(key: string, id: nat, count: nat, tpl: string): string
  {
    ReplaceEach(tpl, [GroupKey, GroupId, GroupCount], [key, NatToString(id), NatToString(count)])
  }

  /** The field tokens of an entry, in its field order. */
  function FieldPatterns(e: Entry): (r: seq<string>)
    ensures |r| == |e| && forall k :: 0 <= k < |r| ==> r[k] == Placeholder(e[k].0)
  {
    seq(|e|, k requires 0 <= k < |e| => Placeholder(e[k].0))
  }

  /** The field values of an entry, in its field order. */
  function FieldValues(e: Entry): (r: seq<string>)
    ensures |r| == |e| && forall k :: 0 <= k < |r| ==> r[k] == e[k].1
  {
    seq(|e|, k requires 0 <= k < |e| => e[k].1)
  }

  /** The text of one entry: its key substituted, its conditions resolved,
      then each of its fields substituted in turn (templating.php:118-144). */
  function RenderEntry(e: Entry, tpl: string, m: RegexMatch): string
  {
    ReplaceEach(Resolved(e, ReplaceAll(tpl, EntryKey, KeyOf(e)), m), FieldPatterns(e), FieldValues(e))
  }

  /** The renderings of the entries, one after another. */
  function RenderEntries(es: seq<Entry>, tpl: string, m: RegexMatch): string
  {
    if es == [] then ""
    else RenderEntries(es[..|es| - 1], tpl, m) + RenderEntry(es[|es| - 1], tpl, m)
  }

  /** `fuel` with one pass spent. */
  function Spend(fuel: nat): (r: nat)
    requires fuel > 0
    ensures r + 1 == fuel
  {
    fuel - 1
  }

  /** The entry blocks of `s` expanded one pass at a time, each pass taking
      the first block; `None` when more than `fuel` passes would be needed. */
  function ExpandEntries(s: string, es: seq<Entry>, m: RegexMatch, fuel: nat): Option<string>
    decreases fuel
  {
    match FindDelimited(s, EntryOpen, EntryClose)
    case None => Some(s)
    case Some((p, c)) =>
      if fuel == 0 then None
      else
        var body := s[p + |EntryOpen|..c];
        ExpandEntries(Splice(s, p, c + |EntryClose|, RenderEntries(es, body, m)), es, m, Spend(fuel))
  }

  /** The text of one group (templating.php:80-109). */
  function RenderGroup(key: string, id: nat, es: seq<Entry>, tpl: string, m: RegexMatch, fuel: nat): Option<string>
  {
    ExpandEntries(SubstGroup(key, id, |es|, tpl), es, m, fuel)
  }

  /** The renderings of the groups, one after another, each with its index as
      its id. */
  function RenderGroups(gs: seq<Group>, tpl: string, m: RegexMatch, fuel: nat): Option<string>
  {
    if gs == [] then Some("")
    else
      var g := gs[|gs| - 1];
      match RenderGroups(gs[..|gs| - 1], tpl, m, fuel)
      case None => None
      case Some(front) =>
        match RenderGroup(g.key, |gs| - 1, g.entries, tpl, m, fuel)
        case None => None
        case Some(last) => Some(front + last)
  }

  /** The group blocks of `s` expanded one pass at a time, each pass taking
      the first block. */
  function ExpandGroups(s: string, gs: seq<Group>, m: RegexMatch, fuel: nat): Option<string>
    decreases fuel
  {
    match FindDelimited(s, GroupOpen, GroupClose)
    case None => Some(s)
    case Some((p, c)) =>
      if fuel == 0 then None
      else
        var body := s[p + |GroupOpen|..c];
        match RenderGroups(gs, body, m, fuel)
        case None => None
        case Some(x) => ExpandGroups(Splice(s, p, c + |GroupClose|, x), gs, m, Spend(fuel))
  }

  /** The processed template (templating.php:42-69). */
  function TemplateResult(tpl: string, data: Data, m: RegexMatch, fuel: nat): Option<string>
  {
    var s := SubstGlobals(tpl, data);
    if data.config.usegroup then ExpandGroups(s, data.groups, m, fuel) else Some(s)
  }

  /** `process_tpl_entry`: the patterns and replacements are collected field
      by field, then applied in that order. */
  method ProcessTplEntry(entryfields: Entry, tpl: string, m: RegexMatch) returns (r: string)
    ensures r == RenderEntry(entryfields, tpl, m)
  {
    var result := ReplaceAll(tpl, EntryKey, KeyOf(entryfields));
    result := ResolveConditions(entryfields, result, m);
    var patterns: seq<string> := [];
    var replacements: seq<string> := [];
    var i := 0;
    while i < |entryfields|
      invariant 0 <= i <= |entryfields|
      invariant patterns == FieldPatterns(entryfields[..i])
      invariant replacements == FieldValues(entryfields[..i])
    {
      patterns := patterns + [Placeholder(entryfields[i].0)];
      replacements := replacements + [entryfields[i].1];
      i := i + 1;
    }
    assert entryfields[..i] == entryfields;
    r := ReplaceEach(result, patterns, replacements);
  }

  /** `process_tpl_group`, with at most `fuel` passes of its entry loop;
      `process_template` hands it the passes its own loop has left. */
  method ProcessTplGroup(groupkey: string, id: nat, group: seq<Entry>, tpl: string, m: RegexMatch, fuel: nat)
    returns (r: Option<string>)
    ensures r == RenderGroup(groupkey, id, group, tpl, m, fuel)
  {
    var result := SubstGroup(groupkey, id, |group|, tpl);
    ghost var goal := ExpandEntries(result, group, m, fuel);
    var entryTpl := FindDelimited(result, EntryOpen, EntryClose);
    var left := fuel;
    while entryTpl.Some?
      invariant entryTpl == FindDelimited(result, EntryOpen, EntryClose)
      invariant ExpandEntries(result, group, m, left) == goal
      decreases left
    {
      if left == 0 {
        return None;
      }
      var p := entryTpl.value.0;
      var c := entryTpl.value.1;
      var entriesRes := ProcessEntries(group, result[p + |EntryOpen|..c], m);
      ghost var before := result;
      result := Splice(result, p, c + |EntryClose|, entriesRes);
      ExpandEntriesStep(before, group, m, left, p, c, entriesRes, result, goal);
      left := Spend(left);
      entryTpl := FindDelimited(result, EntryOpen, EntryClose);
    }
    r := Some(result);
  }

  /** The `foreach` over the entries in `process_tpl_group`: each entry's
      rendering of the entry template appended in order. */
  method ProcessEntries(group: seq<Entry>, body: string, m: RegexMatch) returns (entriesRes: string)
    ensures entriesRes == RenderEntries(group, body, m)
  {
    entriesRes := "";
    var k := 0;
    while k < |group|
      invariant 0 <= k <= |group|
      invariant entriesRes == RenderEntries(group[..k], body, m)
    {
      var one := ProcessTplEntry(group[k], body, m);
      assert group[..k + 1][..k] == group[..k];
      entriesRes := entriesRes + one;
      k := k + 1;
    }
    assert group[..k] == group;
  }

  /** The `foreach` over the groups in `process_template`: each group's
      rendering appended in order, with its index as id. */
  method ProcessGroups(groups: seq<Group>, body: string, m: RegexMatch, fuel: nat) returns (r: Option<string>)
    ensures r == RenderGroups(groups, body, m, fuel)
  {
    var groupsRes := "";
    var id := 0;
    while id < |groups|
      invariant 0 <= id <= |groups|
      invariant RenderGroups(groups[..id], body, m, fuel) == Some(groupsRes)
    {
      var one := ProcessTplGroup(groups[id].key, id, groups[id].entries, body, m, fuel);
      if one.None? {
        RenderGroupsNone(groups, id, body, m, fuel);
        return None;
      }
      assert groups[..id + 1][..id] == groups[..id];
      groupsRes := groupsRes + one.value;
      id := id + 1;
    }
    assert groups[..id] == groups;
    return Some(groupsRes);
  }

  /** `process_template`, with one budget of `fuel` passes shared by the
      group loop and the entry loops run inside each of its passes. */
  method ProcessTemplate(tpl: string, data: Data, m: RegexMatch, fuel: nat) returns (r: Option<string>)
    ensures r == TemplateResult(tpl, data, m, fuel)
    ensures !data.config.usegroup ==> r == Some(SubstGlobals(tpl, data))
  {
    var groups := data.groups;
    var result := SubstGlobals(tpl, data);
    if data.config.usegroup {
      ghost var goal := ExpandGroups(result, groups, m, fuel);
      var groupTpl := FindDelimited(result, GroupOpen, GroupClose);
      var left := fuel;
      while groupTpl.Some?
        invariant groupTpl == FindDelimited(result, GroupOpen, GroupClose)
        invariant ExpandGroups(result, groups, m, left) == goal
        decreases left
      {
        if left == 0 {
          return None;
        }
        var p := groupTpl.value.0;
        var c := groupTpl.value.1;
        var body := result[p + |GroupOpen|..c];
        var groupsRes := ProcessGroups(groups, body, m, left);
        if groupsRes.None? {
          return None;
        }
        ghost var before := result;
        result := Splice(result, p, c + |GroupClose|, groupsRes.value);
        ExpandGroupsStep(before, groups, m, left, p, c, groupsRes.value, result, goal);
        left := Spend(left);
        groupTpl := FindDelimited(result, GroupOpen, GroupClose);
      }
    }
    r := Some(result);
  }

  /** One pass of the entry loop keeps the final outcome. */
  lemma ExpandEntriesStep(s: string, es: seq<Entry>, m: RegexMatch, fuel: nat, p: nat, c: nat, x: string, t: string, goal: Option<string>)
    requires FindDelimited(s, EntryOpen, EntryClose) == Some((p, c)) && fuel > 0
    requires RenderEntries(es, s[p + |EntryOpen|..c], m) == x
    requires t == Splice(s, p, c + |EntryClose|, x)
    requires ExpandEntries(s, es, m, fuel) == goal
    ensures ExpandEntries(t, es, m, Spend(fuel)) == goal
  {
  }

  /** One pass of the group loop keeps the final outcome. */
  lemma ExpandGroupsStep(s: string, gs: seq<Group>, m: RegexMatch, fuel: nat, p: nat, c: nat, x: string, t: string, goal: Option<string>)
    requires FindDelimited(s, GroupOpen, GroupClose) == Some((p, c)) && fuel > 0
    requires RenderGroups(gs, s[p + |GroupOpen|..c], m, fuel) == Some(x)
    requires t == Splice(s, p, c + |GroupClose|, x)
    requires ExpandGroups(s, gs, m, fuel) == goal
    ensures ExpandGroups(t, gs, m, Spend(fuel)) == goal
  {
    var body := s[p + |GroupOpen|..c];
    assert RenderGroups(gs, body, m, fuel) == Some(x);
    assert ExpandGroups(s, gs, m, fuel) == ExpandGroups(t, gs, m, Spend(fuel));
  }

  /** A group that fails to render makes every longer run of groups fail. */
  lemma {:induction false} RenderGroupsNone(gs: seq<Group>, k: nat, tpl: string, m: RegexMatch, fuel: nat)
    requires k < |gs|
    requires RenderGroup(gs[k].key, k, gs[k].entries, tpl, m, fuel).None?
    ensures RenderGroups(gs, tpl, m, fuel).None?
    decreases |gs|
  {
    var front := gs[..|gs| - 1];
    if k < |gs| - 1 {
      assert front[k] == gs[k];
      RenderGroupsNone(front, k, tpl, m, fuel);
    }
  }
}
