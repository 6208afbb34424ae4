/**
 * The plugin's preparation of the engine's input (`syntax_plugin_bb4dw`):
 * `handle` splits the sorted entries into groups by year, keeping the order
 * in which the years first appear and the order of the entries within each
 * year; `render` reverses the groups when the order is `newest` and hands
 * them to the template engine.
 */
module Grouping {
  import opened Wrappers
  import opened Bib
  import opened Conditions
  import opened Templating

  /** The configuration `handle` always uses (syntax.php:57). */
  const DefaultConfig: Config := Config("wiki", true, "year", "newest")

  /** The message `handle` reports for a grouping it does not know. */
  const UnknownGroupBy: string := "Unknown groupby passed!"

  /** The year of an entry, read from its `year` field; an entry without one
      has the empty year. */
  function Year(e: Entry): string
  {
    match Lookup(e, "year")
    case Some(y) => y
    case None => ""
  }

  /** The keys of the groups, in order. */
  function Keys(gs: seq<Group>): (r: seq<string>)
    ensures |r| == |gs| && forall i :: 0 <= i < |gs| ==> r[i] == gs[i].key
  {
    seq(|gs|, i requires 0 <= i < |gs| => gs[i].key)
  }

  /** The position of the group with key `key`, if there is one. */
  function IndexOfKey(gs: seq<Group>, key: string): (r: Option<nat>)
    ensures r.Some? ==> r.value < |gs| && gs[r.value].key == key
    ensures r.None? ==> key !in Keys(gs)
  {
    if gs == [] then None
    else if gs[|gs| - 1].key == key then Some(|gs| - 1)
    else
      match IndexOfKey(gs[..|gs| - 1], key)
      case None => None
      case Some(i) => Some(i)
  }

  /** One step of the `foreach` at syntax.php:81-86: a new group for a year
      not seen yet, otherwise the entry appended to its year's group. */
  function AddEntry(gs: seq<Group>, e: Entry): seq<Group>
  {
    match IndexOfKey(gs, Year(e))
    case None => gs + [Group(Year(e), [e])]
    case Some(i) => gs[i := Group(Year(e), gs[i].entries + [e])]
  }

  /** The groups `handle` builds from the entries `raw`. */
  function GroupByYear(raw: seq<Entry>): seq<Group>
  {
    if raw == [] then [] else AddEntry(GroupByYear(raw[..|raw| - 1]), raw[|raw| - 1])
  }

  /** The entries of `raw` whose year is `key`, in their order. */
  function WithYear(raw: seq<Entry>, key: string): seq<Entry>
  {
    if raw == [] then []
    else WithYear(raw[..|raw| - 1], key) + (if Year(raw[|raw| - 1]) == key then [raw[|raw| - 1]] else [])
  }

  /** The years of `raw`, each taken once, at its first appearance. */
  function FirstYears(raw: seq<Entry>): seq<string>
  {
    if raw == [] then []
    else
      var front := FirstYears(raw[..|raw| - 1]);
      if Year(raw[|raw| - 1]) in front then front else front + [Year(raw[|raw| - 1])]
  }

  /** The total number of entries in the groups. */
  function Size(gs: seq<Group>): nat
  {
    if gs == [] then 0 else Size(gs[..|gs| - 1]) + |gs[|gs| - 1].entries|
  }

  /** No two groups have the same key. */
  predicate DistinctKeys(gs: seq<Group>)
  {
    forall i, j :: 0 <= i < j < |gs| ==> gs[i].key != gs[j].key
  }

  /** Each group holds exactly the entries of its year, in their order, and
      is not empty. */
  predicate GroupsHoldYears(raw: seq<Entry>, gs: seq<Group>)
  {
    forall i :: 0 <= i < |gs| ==> gs[i].entries == WithYear(raw, gs[i].key) && gs[i].entries != []
  }

  /** Every entry's year has a group. */
  predicate CoversYears(raw: seq<Entry>, gs: seq<Group>)
  {
    forall k :: 0 <= k < |raw| ==> Year(raw[k]) in Keys(gs)
  }

  /**
   * `gs` partitions `raw` by year: the keys are distinct, each group holds
   * exactly the entries of its year in their order and is not empty, and
   * every entry's year has a group.
   */
  predicate PartitionsByYear(raw: seq<Entry>, gs: seq<Group>)
  {
    DistinctKeys(gs) && GroupsHoldYears(raw, gs) && CoversYears(raw, gs)
  }

  /** The elements in the opposite order (`array_reverse`, syntax.php:102). */
  function Reverse<T>(xs: seq<T>): (r: seq<T>)
    ensures |r| == |xs| && forall i :: 0 <= i < |xs| ==> r[i] == xs[|xs| - 1 - i]
  {
    if xs == [] then [] else [xs[|xs| - 1]] + Reverse(xs[..|xs| - 1])
  }

  /** The data `render` gives the engine (syntax.php:101-102). */
  function Arranged(data: Data): Data
  {
    if data.config.order == "newest" then Data(Reverse(data.groups), data.config) else data
  }

  /**
   * The grouping in `handle` (syntax.php:70-87): only grouping by year is
   * known; each entry is appended to the group of its year, a group being
   * opened for a year not seen yet.
   */
  method GroupEntries(raw: seq<Entry>, config: Config) returns (r: Result<seq<Group>>)
    ensures config.groupby != "year" ==> r == Err(UnknownGroupBy)
    ensures config.groupby == "year" ==> r == Ok(GroupByYear(raw))
    ensures r.Ok? ==> PartitionsByYear(raw, r.value) && Keys(r.value) == FirstYears(raw) && Size(r.value) == |raw|
  {
    if config.groupby != "year" {
      return Err(UnknownGroupBy);
    }
    var groups: seq<Group> := [];
    var i := 0;
    while i < |raw|
      invariant 0 <= i <= |raw|
      invariant groups == GroupByYear(raw[..i])
    {
      var entry := raw[i];
      var groupby := Year(entry);
      var at := IndexOfKey(groups, groupby);
      if at.None? {
        groups := groups + [Group(groupby, [entry])];
      } else {
        groups := groups[at.value := Group(groupby, groups[at.value].entries + [entry])];
      }
      assert raw[..i + 1][..i] == raw[..i];
      i := i + 1;
    }
    assert raw[..i] == raw;
    GroupByYearPartitions(raw);
    GroupByYearKeys(raw);
    GroupByYearSize(raw);
    return Ok(groups);
  }

  /** `handle` with its fixed configuration: it always succeeds. */
  method Handle(raw: seq<Entry>) returns (data: Data)
    ensures data == Data(GroupByYear(raw), DefaultConfig)
    ensures PartitionsByYear(raw, data.groups) && Keys(data.groups) == FirstYears(raw)
  {
    var grouped := GroupEntries(raw, DefaultConfig);
    data := Data(grouped.value, DefaultConfig);
  }

  /** `render`'s use of the engine: the groups are put in display order and
      the template processed, with the budget of `fuel` passes that the
      group and entry loops share. */
  method Render(data: Data, tpl: string, m: RegexMatch, fuel: nat) returns (r: Option<string>)
    ensures r == TemplateResult(tpl, Arranged(data), m, fuel)
  {
    var arranged := data;
    if data.config.order == "newest" {
      arranged := Data(Reverse(data.groups), data.config);
    }
    r := ProcessTemplate(tpl, arranged, m, fuel);
  }

  /** Adding one entry keeps the keys distinct. */
  lemma AddEntryDistinct(gs: seq<Group>, e: Entry)
    requires DistinctKeys(gs)
    ensures DistinctKeys(AddEntry(gs, e))
  {
    var gs' := AddEntry(gs, e);
    if IndexOfKey(gs, Year(e)).None? {
      forall i | 0 <= i < |gs| ensures gs'[i].key != Year(e) {
        assert Keys(gs)[i] == gs[i].key;
      }
    }
  }

  /** Adding the last entry keeps each group equal to the entries of its
      year. */
  lemma AddEntryHolds(raw: seq<Entry>, gs: seq<Group>)
    requires raw != [] && DistinctKeys(gs)
    requires GroupsHoldYears(raw[..|raw| - 1], gs) && CoversYears(raw[..|raw| - 1], gs)
    ensures GroupsHoldYears(raw, AddEntry(gs, raw[|raw| - 1]))
  {
    var front := raw[..|raw| - 1];
    var e := raw[|raw| - 1];
    var gs' := AddEntry(gs, e);
    forall j | 0 <= j < |gs'|
      ensures gs'[j].entries == WithYear(raw, gs'[j].key) && gs'[j].entries != []
    {
      match IndexOfKey(gs, Year(e))
      case None =>
        if j < |gs| {
          assert Keys(gs)[j] == gs[j].key;
        } else {
          NoEntriesOfYear(front, Year(e));
        }
      case Some(i) =>
    }
  }

  /** Adding the last entry keeps a group for every year seen. */
  lemma AddEntryCovers(raw: seq<Entry>, gs: seq<Group>)
    requires raw != [] && CoversYears(raw[..|raw| - 1], gs)
    ensures CoversYears(raw, AddEntry(gs, raw[|raw| - 1]))
  {
    var front := raw[..|raw| - 1];
    var e := raw[|raw| - 1];
    var gs' := AddEntry(gs, e);
    var at := IndexOfKey(gs, Year(e));
    forall k | 0 <= k < |raw| ensures Year(raw[k]) in Keys(gs') {
      if k < |front| {
        assert front[k] == raw[k] && Year(front[k]) in Keys(gs);
        var j :| 0 <= j < |gs| && Keys(gs)[j] == Year(raw[k]);
        assert Keys(gs')[j] == Year(raw[k]);
      } else if at.Some? {
        assert Keys(gs')[at.value] == Year(e);
      } else {
        assert Keys(gs')[|gs|] == Year(e);
      }
    }
  }

  /** A year that no entry has has no entries. */
  lemma NoEntriesOfYear(raw: seq<Entry>, key: string)
    requires forall k :: 0 <= k < |raw| ==> Year(raw[k]) != key
    ensures WithYear(raw, key) == []
  {
    if raw != [] {
      NoEntriesOfYear(raw[..|raw| - 1], key);
    }
  }

  /**
   * `handle` partitions the entries by year: every entry is in the one group
   * of its year, the groups are distinct and none is empty
   * (syntax.php:81-86).
   */
  lemma {:induction false} GroupByYearPartitions(raw: seq<Entry>)
    ensures PartitionsByYear(raw, GroupByYear(raw))
  {
    if raw != [] {
      var front := raw[..|raw| - 1];
      var gs := GroupByYear(front);
      GroupByYearPartitions(front);
      AddEntryDistinct(gs, raw[|raw| - 1]);
      AddEntryHolds(raw, gs);
      AddEntryCovers(raw, gs);
    }
  }

  /** The groups appear in the order in which their years first appear
      among the entries (syntax.php:81-86). */
  lemma {:induction false} GroupByYearKeys(raw: seq<Entry>)
    ensures Keys(GroupByYear(raw)) == FirstYears(raw)
  {
    if raw != [] {
      var front := raw[..|raw| - 1];
      var e := raw[|raw| - 1];
      var gs := GroupByYear(front);
      GroupByYearKeys(front);
      match IndexOfKey(gs, Year(e))
      case None =>
        assert Keys(gs + [Group(Year(e), [e])]) == Keys(gs) + [Year(e)];
      case Some(i) =>
        assert Keys(gs)[i] == Year(e);
        assert Keys(gs[i := Group(Year(e), gs[i].entries + [e])]) == Keys(gs);
    }
  }

  /** Appending to the last group or adding a group adds its size. */
  lemma SizeSnoc(gs: seq<Group>, g: Group)
    ensures Size(gs + [g]) == Size(gs) + |g.entries|
  {
    assert (gs + [g])[..|gs|] == gs;
  }

  /** Replacing a group changes the total by the change in its size. */
  lemma {:induction false} SizeUpdate(gs: seq<Group>, i: nat, g: Group)
    requires i < |gs|
    ensures Size(gs[i := g]) + |gs[i].entries| == Size(gs) + |g.entries|
    decreases |gs|
  {
    var n := |gs| - 1;
    assert gs[i := g][..n] == if i < n then gs[..n][i := g] else gs[..n];
    if i < n {
      SizeUpdate(gs[..n], i, g);
    }
  }

  /** Every entry lands in exactly one group, so the sizes add up to the
      number of entries (syntax.php:81-86). */
  lemma {:induction false} GroupByYearSize(raw: seq<Entry>)
    ensures Size(GroupByYear(raw)) == |raw|
  {
    if raw != [] {
      var front := raw[..|raw| - 1];
      var e := raw[|raw| - 1];
      var gs := GroupByYear(front);
      GroupByYearSize(front);
      match IndexOfKey(gs, Year(e))
      case None =>
        SizeSnoc(gs, Group(Year(e), [e]));
      case Some(i) =>
        SizeUpdate(gs, i, Group(Year(e), gs[i].entries + [e]));
    }
  }

  /** Reversing twice gives the sequence back. */
  lemma ReverseReverse<T>(xs: seq<T>)
    ensures Reverse(Reverse(xs)) == xs
  {
    var r := Reverse(Reverse(xs));
    assert forall i :: 0 <= i < |xs| ==> r[i] == xs[i];
  }

  /** Reversal keeps the keys distinct. */
  lemma ReverseDistinct(gs: seq<Group>)
    requires DistinctKeys(gs)
    ensures DistinctKeys(Reverse(gs))
  {
    var r := Reverse(gs);
    forall i, j | 0 <= i < j < |r| ensures r[i].key != r[j].key {
      assert r[i] == gs[|gs| - 1 - i] && r[j] == gs[|gs| - 1 - j];
    }
  }

  /** Reversal keeps the groups, so a partition stays a partition. */
  lemma ReversePartitions(raw: seq<Entry>, gs: seq<Group>)
    requires PartitionsByYear(raw, gs)
    ensures PartitionsByYear(raw, Reverse(gs))
  {
    var r := Reverse(gs);
    ReverseDistinct(gs);
    forall i | 0 <= i < |r| ensures r[i].entries == WithYear(raw, r[i].key) && r[i].entries != [] {
      assert r[i] == gs[|gs| - 1 - i];
    }
    forall k | 0 <= k < |raw| ensures Year(raw[k]) in Keys(r) {
      var j :| 0 <= j < |gs| && Keys(gs)[j] == Year(raw[k]);
      assert Keys(r)[|gs| - 1 - j] == Year(raw[k]);
    }
  }

  /**
   * Putting the groups in display order keeps the partition and the
   * configuration; with `newest` the groups come last-first, otherwise
   * they are unchanged (syntax.php:101-102).
   */
  lemma ArrangedPartitions(raw: seq<Entry>, data: Data)
    requires PartitionsByYear(raw, data.groups)
    ensures PartitionsByYear(raw, Arranged(data).groups)
    ensures Arranged(data).config == data.config
    ensures data.config.order == "newest" ==> Keys(Arranged(data).groups) == Reverse(Keys(data.groups))
    ensures data.config.order != "newest" ==> Arranged(data) == data
    ensures Size(Arranged(data).groups) == Size(data.groups)
  {
    if data.config.order == "newest" {
      ReversePartitions(raw, data.groups);
      ReverseSize(data.groups);
    }
  }

  /**
   * With the default configuration the engine sees the groups of the years
   * from the last to first appear, each holding its year's entries in their
   * order, and all entries between them (syntax.php:57, 81-86, 101-102).
   */
  lemma DefaultDisplay(raw: seq<Entry>)
    ensures var shown := Arranged(Data(GroupByYear(raw), DefaultConfig)).groups;
      PartitionsByYear(raw, shown) && Keys(shown) == Reverse(FirstYears(raw)) && Size(shown) == |raw|
  {
    GroupByYearPartitions(raw);
    GroupByYearKeys(raw);
    GroupByYearSize(raw);
    ArrangedPartitions(raw, Data(GroupByYear(raw), DefaultConfig));
  }

  /** Reversal keeps the total number of entries. */
  lemma {:induction false} ReverseSize(gs: seq<Group>)
    ensures Size(Reverse(gs)) == Size(gs)
    decreases |gs|
  {
    if gs != [] {
      var n := |gs| - 1;
      ReverseSize(gs[..n]);
      SizeCons(gs[n], Reverse(gs[..n]));
    }
  }

  /** A group put in front adds its size. */
  lemma {:induction false} SizeCons(g: Group, gs: seq<Group>)
    ensures Size([g] + gs) == |g.entries| + Size(gs)
    decreases |gs|
  {
    if gs != [] {
      var n := |gs| - 1;
      assert ([g] + gs)[..n + 1] == [g] + gs[..n];
      SizeCons(g, gs[..n]);
    } else {
      assert [g] + gs == [g];
      assert ([g])[..0] == [];
    }
  }
}
