/** The values the template engine is given: entries, groups of entries and
    the plugin configuration. */
module Bib {
  import opened Wrappers

  /**
   * One bibliography entry as a field array: the name and value of each
   * field, in the array's order. A PHP array has unique keys, and every
   * field is a string.
   */
  type Entry = seq<(string, string)>

  /** The value stored under `name` (the first such pair), if any. */
  function Lookup(e: Entry, name: string): (r: Option<string>)
    ensures r.Some? ==> (name, r.value) in e
    ensures r.None? ==> forall i :: 0 <= i < |e| ==> e[i].0 != name
  {
    if e == [] then None
    else if e[0].0 == name then Some(e[0].1)
    else Lookup(e[1..], name)
  }

  /** `$entryfields['key']`: a missing key reads as null, which substitutes as
      the empty string. */
  function KeyOf(e: Entry): string
  {
    match Lookup(e, "key")
    case Some(k) => k
    case None => ""
  }

  /** A group: its key and its entries, in order. */
  datatype Group = Group(key: string, entries: seq<Entry>)

  /** The plugin configuration `$data['config']`. */
  datatype Config = Config(target: string, usegroup: bool, groupby: string, order: string)

  /** `$data`: the groups, in display order, and the configuration. */
  datatype Data = Data(groups: seq<Group>, config: Config)
}
