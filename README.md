# Magic model hook, modelled in Dafny

The Jovo "magic model" hook turns one JSON template per locale into a language model.
For every locale of the build it does four things in order:

1. It merges the global `config.json` and the locale's `config-<locale>.json` into a
   configuration map.
2. It walks the template twice with `doJexl`. This resolves `${...}` placeholders
   against the map through the JEXL expression evaluator.
3. It walks the template once with `explodeSpintax`. This expands every spintax
   definition under a `phrases` key into all of its variants. Each variant is trimmed,
   and runs of spaces in it are collapsed.
4. It serialises the result with a replacer, and writes it as `models/<locale>.json`.
   The replacer filters, deduplicates and sorts the arrays under `phrases`, `values`
   and `synonyms`.

## Modules

The project has seven modules, one file each.

- `JsonValue` (`json.dfy`)
  - The untyped document: objects as ordered members, arrays, strings, integers,
    booleans, `null` and `undefined`.
  - The key under which the walker hands a child to a processor: a name or an index.
  - The failure outcomes, as a `Result`.
  - `String(v)`.
- `Text` (`text.dfy`)
  - `trim()`, and the space-collapsing `replace(/ {1,}/g, " ")`.
  - The first-occurrence `String.prototype.replace` with a string pattern.
  - Lexicographic order on strings.
  - Split and join at a delimiter.
- `Walker` (`walker.dfy`)
  - `traverseAndProcessJsonTree`, written two ways: as the functional walk `Walk`, and
    as the loops the source runs (`Traverse`, `TraverseMembers`, `TraverseItems`).
    Each loop is proved equal to the walk.
  - Lemmas about what a walk touches and what it establishes.
- `Resolver` (`resolver.dfy`)
  - `doJexl`: the whole-match rule, the non-greedy `/\${(.+?)}/g` matcher, and the
    loop that replaces the first occurrence of each match in the text built so far.
  - JEXL is a parameter `Evaluator`. It gives the text substituted for an expression,
    or `None` when evaluation throws.
- `Spintax` (`spintax.dfy`)
  - The `[a|b]` definition language as segments, and its expansion as a cross product
    over bracket groups.
  - `createAllPermutations`, `createAllPermutationsFromSpinnerArray` and
    `explodeSpintax`.
- `Output` (`output.dfy`)
  - `valueIsNotEmpty`, `valueIsUnique` and the default sort.
  - The replacer, and `JSON.stringify`'s descent around it.
- `Pipeline` (`pipeline.dfy`)
  - The merge loops of `updateContextWithUserConfig`, and `processMagicModel`.
  - The locale loop, as a class `BuildContext`. Its configuration map is created once
    and merged into again for every locale.

### Modelling notes

- **Two references for the resolver.** `Resolver.Resolve` follows the source: each match
  of the original string is looked up again in the text built so far, and only its first
  occurrence is replaced. `Resolver.Splice` is an independent reference that replaces
  every match in place. The two agree whenever every `$` of the string begins a placeholder
  and no substituted text contains a `$` (`Resolver.ResolveSplices`). They can differ when
  a substituted text contains a `$` (`Resolver.ResolveFirstOccurrenceExample`), and when a `$`
  of the string begins no placeholder (`Resolver.StrayDollarExample`).
- **One configuration map for all locales.** `updateContextWithUserConfig` is called
  per locale with that locale's file (src/MagicModelHook.ts:84-127), which suggests a
  configuration of the global file plus the locale's own file. The code, however, keeps
  one map for the whole build (src/MagicModelHook.ts:17-22), so an earlier locale's keys
  stay visible. The model follows the code; the difference is recorded under "## Findings".

## Model

| member | source | states |
|---|---|---|
| Text.TrimStart | src/MagicModelHook.ts:281-282 | the result is a suffix of the input; every dropped character is whitespace; the result is empty or starts with a non-whitespace character |
| Text.TrimEnd | src/MagicModelHook.ts:281-282 | the result is a prefix of the input; every dropped character is whitespace; the result is empty or ends with a non-whitespace character |
| Text.TrimSpec | src/MagicModelHook.ts:281-282 | `trim()` returns a slice `s[i..j]` with only whitespace before `i` and after `j`; neither end of the slice is whitespace |
| Text.CollapseSpacesSpec | src/MagicModelHook.ts:282 | after the space collapse, no two spaces are adjacent; the non-space characters are exactly those of the input, in order; the result is empty iff the input is; a first or last character that is not a space is kept; and the result equals the positional reference that drops exactly the spaces directly following a space, so each run of spaces becomes exactly one space |
| Text.CollapseSpacesDrops | src/MagicModelHook.ts:282 | `replace(/ {1,}/g, " ")` equals the positional reference: every character is kept except a space directly after a space |
| Text.CollapseSpacesFixed | src/MagicModelHook.ts:282 | a string without two adjacent spaces is left unchanged by the collapse |
| Text.NormalizeSpec | src/MagicModelHook.ts:281-283 | a trimmed and collapsed variant has no leading or trailing whitespace and no run of two spaces, and keeps the trimmed input's non-space characters in order; it is exactly the trimmed input with every space that follows a space removed |
| Text.NormalizeIdempotent | src/MagicModelHook.ts:281-283 | normalizing a normalized variant changes nothing |
| Text.LexLeTotal | src/MagicModelHook.ts:48 | any two strings are comparable in the sort's order |
| Text.LexLeTransitive | src/MagicModelHook.ts:48 | the sort's order is transitive |
| Text.LexLeAntisymmetric | src/MagicModelHook.ts:48 | two strings that each sort before-or-equal the other are equal |
| Text.IndexOfFrom | src/MagicModelHook.ts:223 | the result is the first position at or after `from` where the pattern occurs, or `None` when it occurs nowhere there |
| Text.ReplaceFirstSpec | src/MagicModelHook.ts:223 | `replace` with a string pattern changes only the first occurrence of the pattern into the replacement; text without an occurrence is unchanged |
| Text.JoinSplit | src/MagicModelHook.ts:273-280 | splitting a group body at the option delimiter and joining the options again gives the body back; no option contains the delimiter |
| Text.SplitJoin | src/MagicModelHook.ts:273-280 | options free of the delimiter, joined and split again, are recovered exactly |
| Walker.Traverse | src/MagicModelHook.ts:158-185 | the traversal produces exactly the functional walk's result, a failing processor included |
| Walker.TraverseMembers | src/MagicModelHook.ts:163-184 | the `for...in` loop over an object's keys, which assigns each processed child, produces the walk of the members |
| Walker.TraverseItems | src/MagicModelHook.ts:163-184 | the same loop over an array, each item visited under its index, produces the walk of the items |
| Walker.WalkKeepsKeys | src/MagicModelHook.ts:163-184 | a successful walk keeps an object's keys in order and an array's length; a scalar root is returned as it is, because the root is never handed to the processor |
| Walker.WalkIsMapLeaves | src/MagicModelHook.ts:163-184 | for a processor that returns containers unchanged, the walk equals an independent reference: the processor applied once to every reachable scalar, in document order |
| Walker.WalkUntouched | src/MagicModelHook.ts:163-184 | a processor that is the identity outside some keys leaves a tree without those keys unchanged |
| Walker.WalkSettles | src/MagicModelHook.ts:163-174 | if the processor's result under a key in `names` satisfies `ok` and contains no such key itself, then after the walk every member under those keys, at any depth, satisfies `ok` |
| Resolver.WholeMatchKeyIff | src/MagicModelHook.ts:204-210 | the whole-match search finds key `K` exactly when `K` is a configuration key and the string is `${K}` |
| Resolver.CloseFromFinds | src/MagicModelHook.ts:212 | the lazy `.+?` stops at the first `}`, unless a line terminator comes before it |
| Resolver.CloseFromSpec | src/MagicModelHook.ts:212 | a found `}` has neither a `}` nor a line terminator before it; nothing is found exactly when every `}` after the start has a line terminator before it |
| Resolver.FindMatchSpec | src/MagicModelHook.ts:212-214 | `exec` returns the leftmost match at or after the cursor; no match means there is no match anywhere after the cursor |
| Resolver.FindMatchFirst | src/MagicModelHook.ts:212-214 | the first position where a placeholder matches, with none before it, is the match `exec` returns |
| Resolver.DoJexl | src/MagicModelHook.ts:198-229 | the method with its `exec` loop computes `Resolve`: a non-string unchanged, a whole match as the raw configuration value, otherwise each match replaced in turn, and failure as soon as an evaluation throws |
| Resolver.ResolverLeavesOnly | src/MagicModelHook.ts:198-229 | `doJexl` returns every object and array unchanged, so a resolution walk rewrites leaves only |
| Resolver.ResolveWholeMatch | src/MagicModelHook.ts:203-228 | a non-string value is returned unchanged; the string `${K}` for a configuration key `K` returns `config[K]` itself, whatever its type |
| Resolver.ResolveNoPlaceholder | src/MagicModelHook.ts:212-226 | a string without `${` comes back unchanged |
| Resolver.SubstituteFailsIff | src/MagicModelHook.ts:213-225 | the loop fails exactly when some match of the original string has an expression whose evaluation throws |
| Resolver.SubstituteIsSplice | src/MagicModelHook.ts:213-225 | while no `$` is produced outside the placeholders, the replace-first loop equals the in-place reference `Splice` |
| Resolver.ResolveSplices | src/MagicModelHook.ts:198-229 | a string that is no whole match and produces no stray `$` resolves to its in-place splice |
| Resolver.SpliceTwoPlaceholders | src/MagicModelHook.ts:212-226 | two placeholders between literal texts are both replaced by their texts, in order |
| Resolver.ResolveLonePlaceholder | src/MagicModelHook.ts:204-226 | `${e}` for an expression `e` that is no configuration key becomes the evaluator's text |
| Resolver.ResolveVersionExample | test/magic-model.test.ts:258-264 | `${version}.${1+1}` with `version` = "4.1" resolves to "4.1.2" |
| Resolver.ResolveWholeExample | test/magic-model.test.ts:267-280 | `${MyTestString}` resolves to "some test string", and to the array `["Käsekuchen"]` itself when the configuration holds that array |
| Resolver.ResolveRepeatedExample | test/magic-model.test.ts:267-280 | `${MyTestString}-${MyTestString}` has both copies replaced |
| Resolver.TwoPlaceholderMatches | src/MagicModelHook.ts:212-224 | in `${a}-${b}` the matcher finds `${a}` at 0, then `${b}` at 5, then nothing |
| Resolver.TwoPlaceholderReplacements | src/MagicModelHook.ts:223 | when `a` evaluates to `${b}`, the second `replace` hits the substituted copy of `${b}` rather than the original one |
| Resolver.ResolveFirstOccurrenceExample | src/MagicModelHook.ts:213-225 | with `a` giving `${b}` and `b` giving "B", `doJexl` returns "B-${b}" while an in-place splice gives "${b}-B" |
| Resolver.StrayDollarExample | src/MagicModelHook.ts:213-225 | for `$${a} ${q}` with `a` giving `{q}` and `q` giving "Q", no evaluated text holds a `$`, yet `doJexl` returns "Q ${q}" while an in-place splice gives "${q} Q": the first replace completes a new `${q}` after the stray `$` and the second replace hits it |
| Spintax.RenderParse | src/MagicModelHook.ts:273-280 | reading a definition into literal runs and bracket groups loses nothing: writing the segments back gives the definition |
| Spintax.UnspinCount | src/MagicModelHook.ts:280 | the number of variants is the product of the groups' option counts |
| Spintax.UnspinIff | src/MagicModelHook.ts:280 | a string is a variant exactly when it is the literal runs with one option chosen from each group |
| Spintax.CreateAllPermutationsFromSpinnerArray | src/MagicModelHook.ts:251-261 | the accumulating loop returns the expansions of the definitions, concatenated in order, or the first failure |
| Spintax.ExpandAllNormalized | src/MagicModelHook.ts:281-283 | every produced phrase has no leading or trailing whitespace and no run of two spaces |
| Spintax.ExpandAllAppend | src/MagicModelHook.ts:255-259 | expanding two lists of definitions one after the other gives the concatenation of their expansions |
| Spintax.ExpandAllSingle | src/MagicModelHook.ts:251-272 | a single definition expands to its own permutations; an `undefined` one gives none |
| Spintax.ExploderSpec | src/MagicModelHook.ts:187-196 | `explodeSpintax` changes nothing under any key but `phrases`; under `phrases` it gives a flat list of normalized strings |
| Spintax.ExplodeWalkPhrases | src/MagicModelHook.ts:139-143 | after the spintax walk every `phrases` member, at any depth, is a list of normalized strings |
| Spintax.ParseGroup | src/MagicModelHook.ts:273-280 | a `[` followed by a body without `]` and then `]` is read as one group whose options are the body split at the option delimiter |
| Spintax.PermutationsOneGroup | src/MagicModelHook.ts:269-284 | literal text followed by one group expands to the literal text prefixed to each option, each normalized |
| Spintax.PermutationsTwoOptions | src/MagicModelHook.ts:269-284 | a word, a space and a group of two normalized options expands to exactly the word followed by each option, in option order |
| Spintax.WasJetztNunExample | test/magic-model.test.ts:232-243 | "Was " followed by a group with the options "jetzt" and "nun" expands to exactly "Was jetzt" and "Was nun" |
| Spintax.WhatNowExample | test/magic-model.test.ts:245-256 | "What " followed by a group with the options "now" and "can I do" expands to exactly "What now" and "What can I do" |
| Output.KeepNonEmpty | src/MagicModelHook.ts:290-294 | the filter keeps every copy of each entry that is not `undefined`, not `null` and not blank after `String(v).trim()`, and no copy of any other entry |
| Output.KeepUniqueMembers | src/MagicModelHook.ts:286-288 | the uniqueness filter keeps every value of the input: it removes repeated copies only, never a value's first occurrence |
| Output.KeepUniqueFrom | src/MagicModelHook.ts:286-288 | the filtered list holds no primitive twice, only entries of the input, and every copy of each object or array (distinct objects are never `===`) |
| Output.SortSorted | src/MagicModelHook.ts:48 | the sort's result is in ascending `String()` order |
| Output.SortByText | src/MagicModelHook.ts:48 | the sort's result is a permutation of its input |
| Output.SortUnique | src/MagicModelHook.ts:48 | sorting keeps a list free of repeated primitives |
| Output.CleanListSpec | src/MagicModelHook.ts:44-48 | a cleaned list is sorted, holds no blank entry and no primitive twice, holds exactly the non-blank values of the input, each no more often than there, and every copy of each non-blank object or array |
| Output.Sanitize | src/MagicModelHook.ts:42-51 | the replacer never deepens a value, so the serialiser's descent into its result ends |
| Output.StringifyItemsText | src/MagicModelHook.ts:40-53 | serialising an array keeps its length and every item's kind and `String()` text, so a cleaned list stays sorted and clean when written |
| Output.StringifyClean | src/MagicModelHook.ts:40-53 | in a serialised model every `phrases`, `values` and `synonyms` member, at any depth, is a clean array |
| Output.StringifyPlain | src/MagicModelHook.ts:50 | a model with no list key and no `undefined` is written unchanged |
| Pipeline.OverlayLookup | src/MagicModelHook.ts:101-103 | after the assignment loop a key holds the value of its last entry; a key with no entry keeps what it had |
| Pipeline.MergeConfigSpec | src/MagicModelHook.ts:92-127 | after the merge a key holds its locale value if the locale file defines it, else its global value if the global file does, else its previous value |
| Pipeline.ProcessMagicModel | src/MagicModelHook.ts:130-148 | the three traversals compute two resolution walks followed by one spintax walk; the first failure ends the locale |
| Pipeline.ProcessModelPhrases | src/MagicModelHook.ts:130-148 | after processing, every `phrases` member, at any depth, is a list of normalized strings |
| Pipeline.BuildContext.constructor | src/MagicModelHook.ts:73-82 | the hook's configuration map starts empty |
| Pipeline.BuildContext.UpdateWithUserConfig | src/MagicModelHook.ts:92-127 | the map becomes the old map overlaid with the global entries and then the locale entries |
| Pipeline.BuildContext.BuildAndWrite | src/MagicModelHook.ts:24-63 | one locale's output is written exactly when a template exists and processing and serialisation succeed |
| Pipeline.BuildContext.Run | src/MagicModelHook.ts:20-64 | the locale loop leaves the map and the written models as the reference `RunFrom` gives them from the map it started with |
| Pipeline.RunWritesPresent | src/MagicModelHook.ts:20-64 | no more models are written than there are locales, and each goes to `models/<locale>.json` of a locale with a template |
| Pipeline.RunWritesEachLocale | src/MagicModelHook.ts:20-64 | the loop equals an index-based reference: in locale order, each locale writes at most one model, built under the map holding the merges of all locales up to and including it; the final map holds every locale's merge |
| Pipeline.RunWritesBuiltLocale | src/MagicModelHook.ts:20-64 | a locale whose model builds under the map it sees is written, whatever the other locales do |
| Pipeline.RunWritesCleanLists | src/MagicModelHook.ts:40-56 | in every written model each `phrases`, `values` and `synonyms` member is a clean array |
| Pipeline.ProcessLeaf | src/MagicModelHook.ts:134-143 | a one-member template outside `phrases` goes through the two resolution passes and is left alone by the spintax pass |
| Pipeline.WriteLeaf | src/MagicModelHook.ts:40-53 | a one-member model outside the list keys is written unchanged |
| Pipeline.TwoPassExample | src/MagicModelHook.ts:134-136 | a placeholder whose configured value is another placeholder is resolved only by the second pass |
| Pipeline.LocaleConfigLeaks | src/MagicModelHook.ts:17-22 | as written, a key defined only by an earlier locale's file is still visible when a later locale is built, and would be absent from a fresh merge |
| Pipeline.SharedMapExample | src/MagicModelHook.ts:17-22 | locales `de`, `en`: de's `Dessert` = "Käsekuchen" ends up in en's model |
| Pipeline.UnknownKeyResolves | src/MagicModelHook.ts:204-226 | `${Dessert}` with no `Dessert` key is handed to the evaluator, and its text is substituted |
| Pipeline.RunIsolatedAppend | src/MagicModelHook.ts:20-22 | with a fresh map per locale, what is written for a list of locales is what each part writes on its own |
| Pipeline.IsolatedMapExample | src/MagicModelHook.ts:20-22 | with a fresh map per locale, the same `en` template is resolved by the evaluator instead of by de's value |

## Left out

- File reads and writes, and the console diagnostics. Each configuration file and each template is an `Option<Json>` parameter: `None` means missing or unparsable. Each written file is a `Written` value.
- JSON text parsing, and pretty-printing with two-space indentation. The model works on the parsed tree. A written model is the tree `JSON.stringify` serialises, not its text.
- The JEXL expression language. It is the uninterpreted `Evaluator` parameter, which gives the text `replace` substitutes, or a failure.
- The internals of `node-spintax`. Nested groups, escapes and the library's exact grammar are not modelled. The model reads `[` up to the next `]` as one group of `|`-separated options, and any other character as literal text.
- Spintax.Permutations: a `phrases` entry that is a number, boolean, `null`, object or array is taken to make the spintax library throw (an `UnsupportedSpinner` failure, which ends that locale's output). The library's behaviour on such input is not part of this model.
- `$&`-style patterns in the replacement string of `String.prototype.replace`. The replacement is literal text.
- The default sort compares UTF-16 code units. The model compares Dafny characters, which is the same order within the Basic Multilingual Plane.
- Output.SortSorted: the model's insertion sort keeps ties in input order, as the language requires of `sort`, but stability is not stated as a property.
- `for...in` over a primitive string is approximated: under `phrases` and in a configuration file, it visits the string's characters. A template whose top-level value is a non-empty string is returned as it is (Walker.WalkKeepsKeys), whereas the source, in strict mode, would throw a TypeError on the assignment at src/MagicModelHook.ts:177 and write nothing for that locale. JavaScript's property order for integer-like keys in objects is not modelled; members keep file order.
- `checkSyntax`. Its only call is commented out, so it is dead code.
- The deep copy of the build context in `createExtendedBuildPlatformContext`. Only the configuration map it adds is modelled.
- Exceptions. A throw is an `Err` result, and a failure ends that locale's output only.
- Walker.Traverse: the walk works on values. A child is replaced in its parent by rebuilding the parent, not by assignment into a shared object. So aliasing is not captured: an array inserted by a whole match is not shared with the configuration map, whereas the source's later passes would mutate the configuration's own array.
- Output.KeepUniqueFrom: `valueIsUnique` compares with `===`, objects and arrays by reference. The model treats every object or array entry as a distinct object and keeps all of them. That holds for entries parsed from the template. It does not hold for one configuration value placed twice by whole matches (`"values": ["${MyTestArray}", "${MyTestArray}"]`): there both entries are the same array, and the source keeps only the first, while the model writes both.
- Numbers are integers. Floating-point values and their text are not modelled.

## Findings

| source | as written | input that shows it | evidently intended | confidence | as-written member | corrected member |
|---|---|---|---|---|---|---|
| src/MagicModelHook.ts:17-22 | one configuration map is created for the whole build, and the loops at lines 101-103 and 117-119 merge into it again for each locale, so a key that only an earlier locale's file defines stays visible to later locales | locales `de`, `en`; `config-de.json` = `{"Dessert": "Käsekuchen"}`; no `config-en.json`; `en-template.json` = `{"x": "${Dessert}"}`; the `en` model gets "Käsekuchen" | each locale's configuration is the global file overlaid with that locale's own file, as the per-locale call of `updateContextWithUserConfig` (lines 84-127) reads them, so a locale's model depends only on those two files | medium; not executed | Pipeline.SharedMapExample | Pipeline.RunIsolatedAppend |
