# bb4dw template engine, modelled in Dafny

bb4dw is a DokuWiki plugin that renders a bibliography as wiki markup. It
does this by filling in a small template language:

- `@{group@ … @}group@` is repeated once per group of entries.
- `@{entry@ … @}entry@` is repeated once per entry of the group.
- `@name@` is a placeholder for a field of the entry, or for a group or
  global value.
- `@?F@then@;F@` and `@?F<op>value@then@:F@else@;F@` are conditional blocks.
  They test the entry's field `F` with one of the operators `<=`, `>=`, `==`,
  `!=` or `~`.

This project models two parts of the plugin:

- `BB4DWTemplating` (templating.php), the engine itself.
- The part of `syntax_plugin_bb4dw` (syntax.php) that prepares the engine's
  input. It groups the sorted entries by year under the fixed default
  configuration, and reverses the groups for the `newest` order.

The modules:

- `Wrappers`: `Option` and `Result`.
- `Bib`: an entry as its PHP field array (an ordered list of name/value
  pairs), groups, the configuration and the engine's `$data`.
- `Strings`: the text operations the engine uses. These are literal
  `preg_replace`/`str_replace` (`ReplaceAll`), the same with arrays of
  patterns (`ReplaceEach`), left-most search (`FindFrom`), `is_numeric`,
  `(int)`, the decimal rendering of a count, and PHP's `empty` on a string.
- `Conditions`: `resolve_conditions`.
  - `BlockAt`/`FindBlock` give the left-most match of the conditional
    pattern at templating.php:155. They try the alternatives in the order a
    backtracking matcher does: greedy field name, operator first, lazy
    operand, lazy branches.
  - `Holds`/`Choice` give the decision.
  - `Resolved` is the specification of the loop, and `ResolveConditions` is
    the loop itself.
- `ConditionLaws`: what resolution does to a text that is one block, and the
  laws of the decision table.
- `Templating`: `process_template`, `process_tpl_group` and
  `process_tpl_entry`.
  - Each is a method with the source's loops.
  - Each is proved equal to a specification function: `TemplateResult`,
    `RenderGroup`, `RenderEntry`.
- `TemplateLaws`: what the engine promises.
  - Placeholders become their values.
  - Unknown placeholders stay.
  - Blocks are found left-most with the nearest closing marker.
  - A block is replaced by one rendering per group or per entry, in order.
  - Groups are numbered from 0.
- `TemplateRuns`: the three levels composed on one template shape, a group
  block around an entry block, and a template whose entry loop never ends.
- `Grouping`: `handle`'s grouping loop and `render`'s reversal, with the
  partition they build proved.

The `~` operator calls `preg_match` with a pattern built from the block's
operand. The model takes that matcher as a parameter, `RegexMatch`.

The group and entry loops of the engine need not terminate. For example, the
template `@{entry@@title@@}entry@`, rendered for an entry whose `title` is
that same template, gives the template back on every pass
(`TemplateRuns.EntryLoopRunsForever`). So these loops share one budget of
`fuel` passes and return `None` when it runs out. Each group pass spends one
unit, and the entry loops inside the k-th group pass (counting from 0) get the
`fuel - k` passes that are left.

Groups are not sorted by key. They keep the order in which the years first
appear among the sorted entries (syntax.php:81-87), and `newest` then applies
`array_reverse` (syntax.php:101-102).

The comment table at templating.php:156-164 gives other group numbers for
presence tests. The code uses group 4 as the then-branch and group 5 as the
else-branch in every case, because group 4 always takes part in a match, so
`count($match) > 3` always holds. The model follows the code.

## Model

| member | source | states |
|---|---|---|
| Templating.ProcessTemplate | templating.php:42-69 | The result is the processed template: globals substituted, then, with `usegroup`, each group block (first one first) replaced by the renderings of all groups; without `usegroup` the result is just the globals substituted |
| Templating.ProcessGroups | templating.php:55-61 | The `foreach` over the groups appends each group's rendering, with its index as id, in group order, and fails when a group's rendering runs out of passes |
| Templating.ProcessTplGroup | templating.php:80-109 | The group's template with `@groupkey@`, `@groupid@`, `@groupcount@` substituted and each entry block, first one first, replaced by the renderings of the group's entries |
| Templating.ProcessEntries | templating.php:97-102 | The inner `foreach` yields the renderings of the entries of the group, concatenated in entry order |
| Templating.ProcessTplEntry | templating.php:118-144 | The entry text: `@entrykey@` replaced by the entry's key, conditions resolved, then each field's placeholder replaced by its value, field by field in the array's order |
| Templating.ExpandEntriesStep | templating.php:97-106 | One pass of the entry-block loop (replace the first block by the entries' renderings) keeps the final outcome with one pass fewer |
| Templating.ExpandGroupsStep | templating.php:55-65 | One pass of the group-block loop keeps the final outcome with one pass fewer |
| Templating.RenderGroupsNone | templating.php:59-61 | If any one group fails to render, the whole run of groups fails |
| Templating.FindDelimited | templating.php:51-53 | A found block's opening marker lies before its closing marker and both lie inside the text |
| Templating.Placeholder | templating.php:139 | A placeholder is the name between two `@` |
| TemplateLaws.FindDelimitedIs | templating.php:51-53 | `open(.*?)close` matches at the first opening marker and at the first closing marker after it, iff such a pair exists; there is no match iff there is no such pair |
| TemplateLaws.Delimited | templating.php:90-94 | In `pre open body close post`, with no opening marker in `pre` and no closing marker in `body`, the match is exactly `open body close` |
| TemplateLaws.AtFreeUndelimited | templating.php:94 | Text without `@` contains no block |
| TemplateLaws.GlobalsFilled | templating.php:46-48 | `@globalcount@` becomes `0`, `@globalgroupcount@` the number of groups in decimal, `@globalkey@` the `groupby` setting; the text around each is processed on its own |
| TemplateLaws.GroupFilled | templating.php:86-88 | `@groupkey@` becomes the group key, `@groupid@` its index, `@groupcount@` its number of entries |
| TemplateLaws.GroupPlain | templating.php:86-88 | The group substitution leaves text without `@` unchanged |
| TemplateLaws.EntryBlockPass | templating.php:97-106 | One pass replaces the entry block by the entries' renderings in order, then continues on the result |
| TemplateLaws.EmptyGroupDropsBlock | templating.php:97-106 | For a group with no entries the entry block disappears, leaving what surrounds it |
| TemplateLaws.GroupBlockPass | templating.php:55-65 | One pass replaces the group block by the groups' renderings and continues, or fails when a group fails |
| TemplateLaws.GroupBlockFails | templating.php:55-65 | A group block whose groups fail to render makes the whole expansion fail |
| TemplateLaws.GroupBlockRenders | templating.php:55-65 | A group block whose groups render as `x` is replaced by `x` and the expansion continues |
| TemplateLaws.RenderEntriesAppend | templating.php:100-102 | The renderings of `a + b` are those of `a` followed by those of `b` |
| TemplateLaws.PlainEntry | templating.php:118-144 | A template without `@` renders as itself for every entry |
| TemplateLaws.PlainEntriesRepeat | templating.php:100-102 | An entry template without `@` is repeated once per entry |
| TemplateLaws.EntryKeyFilled | templating.php:123-125 | `@entrykey@` becomes the entry's `key` value, or the empty string when the entry has none |
| TemplateLaws.EntryFieldFilled | templating.php:134-143 | The placeholder of a field the entry has becomes that field's value |
| TemplateLaws.UnknownFieldKept | templating.php:29-30 | The placeholder of a field the entry lacks is left in the output unchanged |
| TemplateLaws.ReplaceEachToken | templating.php:143 | With the patterns applied one after another, the placeholder of the k-th name becomes the k-th replacement and the text after it is processed on its own |
| TemplateLaws.PlaceholderNoBlock | templating.php:155 | A placeholder between texts without `@` holds no conditional block at any position |
| TemplateLaws.PlaceholderResolved | templating.php:128 | Condition resolution leaves such a text unchanged |
| TemplateLaws.BlockShape | templating.php:155 | A matched block starts with `@?`, ends with `@`, and lies inside the text |
| TemplateLaws.GroupIdAlone | templating.php:86-88 | A group body that shows only `@groupid@` renders as that group's id |
| TemplateLaws.GroupKeyAlone | templating.php:86-88 | A group body that shows only `@groupkey@` renders as that group's key |
| TemplateLaws.GroupIdsNumbered | templating.php:57-61 | The group ids are 0, 1, 2, … in group order |
| TemplateLaws.GroupKeysListed | templating.php:59-61 | The group keys appear in group order |
| TemplateLaws.RenderGroupsSnoc | templating.php:59-60 | One more group appends its rendering |
| TemplateLaws.ExpandEntriesDone | templating.php:97-106 | A finished entry loop leaves no entry block in its result |
| TemplateLaws.ExpandGroupsDone | templating.php:55-65 | A finished group loop leaves no group block in its result |
| TemplateLaws.NoBlocksLeft | templating.php:55-106 | A rendered group holds no entry block, and a processed template with groups on holds no group block |
| TemplateRuns.TokenPast | templating.php:86-88 | No marker or placeholder starts inside a different one, unless the text after it starts with a word character or a brace |
| TemplateRuns.ReplaceEachPast | templating.php:86-88 | A marker or foreign placeholder after `@`-free text is copied unchanged by array `preg_replace`, which goes on with the text after it |
| TemplateRuns.GroupPastToken | templating.php:86-88 | The group substitution copies `@`-free text and a marker or non-group placeholder |
| TemplateRuns.GlobalsPastToken | templating.php:46-48 | The global substitution copies `@`-free text and a marker or non-global placeholder |
| TemplateRuns.GroupBodyFilled | templating.php:86-88 | In `head @groupkey@ sub @{entry@ lead @groupid@ tail @}entry@ foot` the key and the id are substituted, the one inside the entry block included, and the entry markers stay |
| TemplateRuns.GroupShown | templating.php:80-109 | Such a group renders as its header with the key, then `lead id tail` once per entry, then `foot` |
| TemplateRuns.GroupsListed | templating.php:55-61 | The group block of that body renders as every group shown in turn, numbered from 0 |
| TemplateRuns.BodyFreeBeforeClose | templating.php:51 | No `@}group@` starts inside that body, so the lazy group pattern ends after it |
| TemplateRuns.PageGlobalsKept | templating.php:46-48 | The global substitution leaves the whole template unchanged |
| TemplateRuns.PageRendered | templating.php:42-69 | `pre @{group@ body @}group@ post` becomes `pre`, every group shown, `post` when groups are on and one pass is allowed; with no pass allowed it fails; with groups off it stays as it is |
| TemplateRuns.SelfRenderingBlock | templating.php:97-106 | An entry block whose rendering is the block itself never finishes, whatever the bound on passes |
| TemplateRuns.EntryLoopRunsForever | templating.php:97-106 | For `@{entry@@title@@}entry@` and an entry whose title is that template, the entry loop never finishes |
| TemplateRuns.LoopEntryRenders | templating.php:118-144 | That entry renders `@title@` as the whole template |
| Conditions.ResolveConditions | templating.php:154-218 | The loop yields `Resolved`: while a block remains, the left-most one is replaced everywhere by its chosen branch, itself resolved recursively |
| Conditions.Resolved | templating.php:173-215 | The resolved text is no longer than the input and contains no conditional block |
| Conditions.EvalCondition | templating.php:176-200 | The condition is false for a missing or PHP-empty field; true for a presence test; exact (in)equality for `==`/`!=`; numeric integer comparison for `<=`/`>=`, false when either side is not numeric; the caller's matcher for `~` |
| Conditions.ChoiceShorter | templating.php:202-209 | The chosen branch is strictly shorter than its block, which lies inside the text, so the loop terminates |
| Conditions.BlockAtMatches | templating.php:155 | A block found at `p` starts at `p`, its field is a word, and its text, assembled from header, test, branches and markers, occurs at `p` |
| Conditions.FindBlock | templating.php:173 | The block found starts at or after the search start and is the block at that position |
| Conditions.FindBlockFirst | templating.php:173 | No block starts before the one found, and none at all when none is found |
| Conditions.WordEnd | templating.php:155 | `(\w+)` is greedy: the run of word characters ends at the first non-word character |
| Conditions.OpAt | templating.php:155 | The operator found is written at that position |
| Conditions.TailFromMatches | templating.php:155 | The lazily matched branches and their markers occur right after the header and end where the block ends |
| Conditions.OperandEnd | templating.php:155 | The lazy operand ends at an `@` at or after its start |
| Conditions.OperandEndMatches | templating.php:155 | The branches occur right after the `@` ending the operand |
| ConditionLaws.BlockAtWhole | templating.php:155 | A text that is one block (field a word, operand without `@`, branches without the field's markers) is matched whole, with its own field, test and branches |
| ConditionLaws.TailWhole | templating.php:155 | The branches of such a block are found as written, with or without an else-branch |
| ConditionLaws.ElseCloses | templating.php:155 | The closing marker after an else-branch without one is the first one after the branch |
| ConditionLaws.ResolveWholeBlock | templating.php:173-214 | A text that is one block resolves to its chosen branch, resolved in turn |
| ConditionLaws.ResolveSimpleBlock | templating.php:202-212 | A block without `@` in its branches resolves to the then-branch when the condition holds, else the else-branch when present and not PHP-empty, else the empty string |
| ConditionLaws.AtFreeResolved | templating.php:173 | Text without `@` resolves to itself |
| ConditionLaws.ResolvedIdempotent | templating.php:173 | Resolving twice is resolving once |
| ConditionLaws.HoldsLaws | templating.php:176-200 | A missing or empty field fails every test; a presence test holds otherwise; `==` is exact equality and `!=` its complement; `<=` holds iff the field is present, not empty, both sides are numeric and the field's integer is at most the operand's; `>=` likewise with at least; `~` holds iff the field is present, not empty and the matcher accepts it |
| Bib.Lookup | templating.php:176 | A value found is stored under the name; no value means no pair has that name |
| Strings.FindFromFirst | templating.php:53 | The occurrence found is the first one at or after the start; none found means none exists |
| Strings.FindFromIs | templating.php:53 | The search finds `p` iff `p` is the first occurrence at or after the start |
| Strings.ReplaceAllIsSplitJoin | templating.php:214 | Replacing every occurrence equals cutting at the occurrences and joining with the replacement |
| Strings.SplitJoin | templating.php:214 | Joining the pieces with the pattern gives the text back |
| Strings.ReplaceAllAbsent | templating.php:214 | A text without the pattern is unchanged |
| Strings.ReplaceAllShorter | templating.php:214 | Replacing an occurring pattern by a shorter text shortens the text |
| Strings.ReplaceEachAbsent | templating.php:143 | Patterns that do not occur leave the text unchanged |
| Strings.NatToStringRoundTrip | templating.php:48 | The decimal rendering of a count is numeric and reads back as the count |
| Grouping.GroupEntries | syntax.php:70-87 | Any `groupby` other than `year` is an error with the source's message; for `year`, the groups the loop builds partition the entries by year, in order of first appearance, with every entry counted once |
| Grouping.Handle | syntax.php:51-91 | With the fixed default configuration, `handle` always succeeds with the year partition and that configuration |
| Grouping.Render | syntax.php:101-115 | The engine processes the template with the groups reversed for `newest` and unchanged otherwise |
| Grouping.IndexOfKey | syntax.php:83 | A position found holds a group with that key; none found means no group has it |
| Grouping.Reverse | syntax.php:102 | Element `i` of the result is element `n-1-i` of the input, so the groups come last-first |
| Grouping.GroupByYearPartitions | syntax.php:81-87 | Keys are distinct, each group holds exactly its year's entries in their order and is not empty, and every entry's year has a group |
| Grouping.GroupByYearKeys | syntax.php:81-87 | The groups are in the order in which their years first appear |
| Grouping.GroupByYearSize | syntax.php:81-87 | The group sizes add up to the number of entries |
| Grouping.AddEntryHolds | syntax.php:83-86 | Adding one entry keeps each group equal to the entries of its year |
| Grouping.ReverseReverse | syntax.php:102 | Reversing twice gives the sequence back |
| Grouping.ReversePartitions | syntax.php:102 | Reversal keeps the partition |
| Grouping.ArrangedPartitions | syntax.php:101-102 | Putting the groups in display order keeps the partition, the configuration and the entry count, and reverses the keys exactly for `newest` |
| Grouping.DefaultDisplay | syntax.php:57 | With the default configuration the engine sees the year groups from the last year to appear to the first, each with its entries in order, and all entries among them |

## Left out

- Loading the bibliography (`BibDataBase::load`, syntax.php:59-67) and the `compare_bib_entries` sort (syntax.php:68) are not part of this model. `Handle` takes the sorted entries as its input.
- `getYear` belongs to bibtexbrowser, which is not part of this model. An entry's year is read from its `year` field, and the empty string stands for a missing year.
- PHP turns numeric-string array keys into integers. This does not change any order here (`array_reverse` is called with keys preserved), so group keys are kept as strings.
- `handle` stores `BibEntry` objects in the groups (syntax.php:81-86), and `process_template` passes them on to `process_tpl_entry`, whose parameter is declared `array` (templating.php:100-101, :118). The source converts them nowhere, so PHP would reject that call with a `TypeError`. The model assumes each entry arrives as its field array, the `Entry` type.
- `die()` after an unknown `groupby` (syntax.php:75-78) is modelled as `Err` with the reported message. The process exit and the `msg` call are left out.
- Debug logging (`dbg`), the lexer registration and the other DokuWiki plugin plumbing (syntax.php:1-50, 94-99, 116-126) do the template language no work and are left out. The same goes for the use of the result after `process_template`.
- The fixed template text at syntax.php:104-111 is not modelled. `Render` takes the template as a parameter.
- The `~` operator builds a regular expression from the operand (templating.php:198). PCRE is outside the model, so the matcher is the parameter `RegexMatch`.
- Templating.ProcessTemplate: the PHP loops may run forever. The model gives the group loop and the entry loops one shared budget of `fuel` passes. Each group pass spends one unit, and the entry loops run during the k-th group pass (counting from 0) get only the `fuel - k` passes that are left. So `None` means that the shared budget ran out, not that some single loop needs more than `fuel` passes. A `Some` result is the source's result.
- Templating.ProcessTplGroup: its entry loop is bounded by the `fuel` it is given, which inside `ProcessTemplate` is what the group loop has left.
- Field names, group keys and values are inserted literally. PHP would read `$1` or `\1` in a replacement as a back-reference, and would read a field name holding pattern metacharacters as a pattern. Both are left out.
- The same holds for each block's rendering. templating.php:63 and :104 pass the whole rendered block, template text included, as the replacement string of `preg_replace`. PHP therefore turns a `\\` in a block body (DokuWiki's forced line break) into `\`, and expands `$1` or `\1` there to the block's body. `Splice` inserts the rendering literally, so templates inside blocks holding these sequences are not modelled faithfully.
- `is_numeric` and `(int)` are modelled for optionally signed decimal integers only. PHP 8's `is_numeric` also accepts leading and trailing whitespace, decimals and exponents, which `IsNumeric` rejects; the `(int)` readings of such strings and integer overflow are left out too.
- `\w` is taken as ASCII letters, digits and `_`, which is PCRE without the Unicode flag.
- TemplateLaws.GlobalsFilled: stated for a placeholder with `@`-free text before it and a separated text after it, not for every context.
- TemplateLaws.GroupFilled: the `@groupkey@` clause needs a key without `@`. A key holding `@` could form a new placeholder with the text around it.
- TemplateLaws.GroupFilled: stated for a placeholder with `@`-free text before it and a separated text after it, not for every context. `TemplateRuns.GroupBodyFilled` covers a body with entry markers.
- TemplateLaws.EntryKeyFilled: stated for `@`-free text on both sides and an `@`-free key, not for every context.
- TemplateRuns.PageRendered: stated for one template shape whose plain pieces are not empty, hold no `@`, and do not start with a word character or a brace, so that no piece joins a marker into a new token. Group keys hold no `@`.
- TemplateRuns.GroupBodyFilled: stated for the same shape, with an `@`-free key.
- TemplateRuns.GroupShown: stated for the same shape, with an `@`-free key and at least one pass.
- TemplateRuns.GroupsListed: stated for the same shape, with `@`-free keys and at least one pass.
- TemplateLaws.EntryFieldFilled: stated for word field names, unique fields and `@`-free values and context, for the same reason.
- TemplateLaws.UnknownFieldKept: stated for word field names and `@`-free context.
- ConditionLaws.BlockAtWhole: stated for operands without `@` and for branches without the field's own markers. Other blocks are matched by `BlockAt`/`FindBlock` as the pattern does, but no closed form is proved for them.
- Conditions.ResolveConditions: PHP's pass-by-reference `&$string` parameter is modelled by value, because the caller only uses the returned text.
