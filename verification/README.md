# Mobile Strings Toolkit — a verified model of the core

Mobile Strings Toolkit turns a localisation spreadsheet into Android string
resources. This project models the three parts of that transformation in
Dafny and proves properties of the model:

- **The resource model** (`mst/resources.py`). A key that is set exactly once.
  Three resource kinds: `String` (language → text), `StringArray` (language →
  integer index → text, read back in index order) and `QuantityStrings`
  (language → one text for each of the six plural categories `zero`, `one`,
  `two`, `few`, `many`, `other`). Each kind has per-language add and get,
  which fail on undeclared languages, and a merge. Resources are ordered by
  key.
- **The spreadsheet parser** (`Spreadsheet` in `mst/spreadsheet.py`).
  - Row 0 is the header. It must name the `type` column, the key column,
    every language and `options`, and is checked in that order.
  - Each data row's type cell selects the kind of resource it feeds. Rows
    with an empty key cell are skipped.
  - `key:index` and `key:quantity` cells are split at their one colon. Rows
    of the same key are gathered into one resource.
  - `get_all_resources` concatenates strings, then arrays, then plurals.
- **The Android generator** (`mst/generator.py`).
  - `Escape.escape` first un-escapes `\'` and then escapes every `'`.
  - `GeneratorFactory.create` knows only `android`.
  - `addResources` sends each resource to the handler for its kind.
  - The handlers decide which elements and items are emitted, in which
    order. Output is an abstract element tree (`string`, `string-array`,
    `plurals` children of the root), not XML text.

Python exceptions become `Result` failures with a named `Error` (modules
`Errors`, `Resources`, `Spreadsheet`, `Generator`):

- an IndexError on a row too short for a column becomes `CellMissing`;
- a KeyError becomes `MissingEntry`;
- a ValueError from `int()` becomes `InvalidIndex`;
- a ValueError from `split(':')` unpacking becomes `MalformedKey`.

Python built-ins the code relies on are written out in `Strings` and
`Collections`:

- `str.replace` (leftmost, non-overlapping), `split`/`join`, `int()`, and
  string ordering;
- `sorted()` on int keys, a stable `sorted()` by a string key, and the
  insertion-ordered `dict`.

Notes on what the code does, which the model follows:

- An empty options cell yields the one option `""`
  (`mst/spreadsheet.py:150`). The `_get_row_options` docstring at
  `mst/spreadsheet.py:145-146` promises an empty list when options are not
  available, but that branch (`:151-152`) needs a negative options column,
  which loading never leaves. Only the space character is removed from the
  cell, not other whitespace.
- An array index is whatever `int()` accepts (`mst/spreadsheet.py:233`).
  That includes a sign (so negative indices), surrounding whitespace and
  leading zeros.
- With an empty language list, the loops at `mst/spreadsheet.py:229-233`
  and `:246-250` never run, so a row's index or category is never parsed.
  A malformed suffix therefore does not fail there.
- The Android generator escapes and emits every `string-array` item, empty
  ones included (`mst/generator.py:122-127`), and always emits a `string`
  element, even for an empty text (`mst/generator.py:111-117`). Only empty
  plural categories are dropped (`mst/generator.py:137`).

## Model

| member | source | states |
|---|---|---|
| Strings.LessIrreflexive | mst/resources.py:46-53 | no key is below itself |
| Strings.LessTransitive | mst/resources.py:46-53 | key order is transitive |
| Strings.LessTotal | mst/resources.py:46-53 | of two different keys one is below the other |
| Strings.LessAsymmetric | mst/resources.py:46-53 | two keys are never each below the other |
| Strings.Split | mst/spreadsheet.py:150 | `split(';')` gives one more piece than there are separators, no piece holds the separator, and joining the pieces gives the text back |
| Strings.SplitJoin | mst/spreadsheet.py:150 | splitting a join of separator-free pieces gives the pieces back |
| Strings.Replace | mst/generator.py:34 | replacing a one-character pattern by text without it leaves no occurrence of it |
| Strings.ReplaceAbsent | mst/generator.py:34 | replacing a pattern that does not occur changes nothing |
| Strings.ParseShowInt | mst/spreadsheet.py:233 | `int()` reads back every integer written in decimal, negative ones included |
| Collections.SortedIndices | mst/resources.py:169 | `sorted(array.keys())` lists exactly the stored indices, strictly ascending |
| Collections.SortedIndicesLength | mst/resources.py:169-171 | the ascending list has one entry per stored index |
| Collections.DedupOnto | mst/spreadsheet.py:226-228 | dict keys after inserting a sequence of keys: no repeats, the old keys first, then exactly the new ones |
| Collections.DedupOntoOrder | mst/spreadsheet.py:226-228 | new dict keys come in the order of their first insertion |
| Collections.Dedup | mst/spreadsheet.py:234 | the distinct keys of a sequence, without repeats |
| Collections.DedupOrder | mst/spreadsheet.py:234 | distinct keys in first-appearance order |
| Collections.Groups.Values | mst/spreadsheet.py:234 | `list(d.values())` holds the entry of each key, in insertion order |
| Collections.Groups.Put | mst/spreadsheet.py:226-227 | `d[key] = value` keeps an existing key's place, appends a new key, and keeps the dict well formed |
| Collections.InsertBy | mst/spreadsheet.py:252 | insertion keeps the list ordered, adds exactly the one element, and adds nothing else |
| Collections.SortBy | mst/spreadsheet.py:252 | `sorted()` by key returns an ordered permutation |
| Collections.DistinctKeysPermutation | mst/spreadsheet.py:252 | a permutation of values with distinct keys has distinct keys |
| Collections.SortByStrict | mst/spreadsheet.py:252 | sorting values with distinct keys makes the keys strictly ascend |
| Resources.AssignKey | mst/resources.py:66-73 | the key setter succeeds only while no key is set, and then stores the value |
| Resources.KeyAssignedOnce | mst/resources.py:43-44 | each of the three constructors sets its key through the setter, so the key is the given string, and a second assignment fails naming that key |
| Resources.NewStringResource | mst/resources.py:81-89 | a new `String` has the given key and exactly the listed languages, each with the empty text |
| Resources.StringResource.Add | mst/resources.py:91-95 | `add` succeeds exactly for a declared language; it stores the normalised text and changes no other language |
| Resources.StringResource.Get | mst/resources.py:97-101 | `get` succeeds exactly for a declared language and returns its text |
| Resources.StringResource.Merge | mst/resources.py:103-111 | merge fails on different keys, then on shared languages (naming them); otherwise the languages are the union and each side keeps its texts |
| Resources.AddThenGet | mst/resources.py:91-101 | `get` after `add` returns the normalised text; other languages read as before |
| Resources.MergeCommutes | mst/resources.py:103-111 | merging disjoint parts in either order gives the same texts |
| Resources.NewStringArray | mst/resources.py:130-134 | a new `StringArray` has the key and exactly the listed languages, each with an empty array |
| Resources.StringArray.Add | mst/resources.py:147-154 | `add` succeeds exactly for a declared language; the index set grows by that index, which holds the normalised text; nothing else changes |
| Resources.StringArray.Get | mst/resources.py:156-161 | `get` fails on an undeclared language, then on a missing index; otherwise it returns the stored text |
| Resources.StringArray.Items | mst/resources.py:144-145 | `array()` is the language's index map, a KeyError for an undeclared language |
| Resources.StringArray.GetArray | mst/resources.py:163-171 | `get_array` lists the texts in ascending index order, one per stored index |
| Resources.StringArray.Size | mst/resources.py:173-178 | `size` succeeds exactly for a declared language and fails naming any other; `GetArrayOrdered` ties its count to `get_array` |
| Resources.StringArray.Merge | mst/resources.py:180-188 | merge fails on different keys, then on shared languages; otherwise it is the disjoint union |
| Resources.ArrayAddThenGet | mst/resources.py:144-178 | after `add` the index reads back the text, `array()` shows it at that index with every other index unchanged, and the size grows exactly when the index was new |
| Resources.ArrayAddCommutes | mst/resources.py:147-154 | adds at different places commute |
| Resources.GetArrayOrdered | mst/resources.py:163-178 | `get_array` is the texts at the stored indices taken in strictly ascending order, and its length is `size` |
| Resources.ParseQuantity | mst/resources.py:218-222 | quantity validation accepts exactly the six category names |
| Resources.QuantityNames | mst/resources.py:200-207 | every category's name is accepted as that category, and `QUANTITIES` lists each category exactly once |
| Resources.NewQuantityStrings | mst/resources.py:209-216 | a new `QuantityStrings` has the key and, for every listed language, all six categories with the empty text |
| Resources.QuantityStrings.AddQuantityText | mst/resources.py:235-241 | the category is checked first, then the language; success stores the normalised text in that category only |
| Resources.QuantityStrings.GetQuantityText | mst/resources.py:243-248 | an undeclared language fails as such, a name outside the categories as a missing key; otherwise it returns the text stored for that category, so a new resource reads the empty text |
| Resources.QuantityStrings.GetQuantities | mst/resources.py:232-233 | `get_quantities` is the language's category map, a KeyError for an undeclared language |
| Resources.QuantityStrings.MergeAsWritten | mst/resources.py:250-259 | merge as written: the key and overlap checks, then the broken copy loop fails whenever the other side has a language, so success only when it has none |
| Resources.QuantityStrings.Merge | mst/resources.py:250-255 | merge as intended: the key and overlap checks, then the disjoint union |
| Resources.AddQuantityThenGet | mst/resources.py:232-248 | adding keeps all six categories, the category then reads back the normalised text, and `get_quantities` differs only in that category |
| Resources.CompleteGet | mst/resources.py:209-216 | on a constructed resource every category of a declared language can be read |
| Resources.MergeComplete | mst/resources.py:250-255 | the intended merge keeps all six categories present |
| Resources.MergeAsWrittenBreaks | mst/resources.py:257-259 | merging `fr` into `en` fails as written and succeeds as intended |
| Resources.BeforeIsStrictOrder | mst/resources.py:46-53 | `__lt__` is a strict order, total on resources with different keys |
| Resources.SortResources | mst/resources.py:46-53 | sorting resources gives a permutation in ascending key order |
| Escaping.UnescapeQuoteAll | mst/generator.py:34 | the un-escaping pass exactly undoes the escaping pass |
| Escaping.EscapeIdempotent | mst/generator.py:27-34 | escaping twice is escaping once, so backslashes do not pile up |
| Escaping.EscapeRoundTrip | mst/generator.py:34 | un-escaping an escaped text gives the text with its own escapes removed |
| Escaping.QuoteAllEscapes | mst/generator.py:34 | after the escaping pass every quote follows a backslash |
| Escaping.EscapedQuotes | mst/generator.py:34 | in an escaped text every single quote follows a backslash |
| Escaping.EscapeWithoutQuotes | mst/generator.py:34 | a text without single quotes is returned unchanged |
| Escaping.EscapeEmpty | mst/generator.py:34 | the escaped text is empty exactly when the text is |
| Generator.Create | mst/generator.py:45-52 | `android` gives an empty Android generator, `ios` a not-implemented error, anything else an unknown-generator error |
| Generator.EscapeAll | mst/generator.py:122-123 | every array item is escaped, in order |
| Generator.QuantityTexts | mst/generator.py:135-136 | reading the categories in order fails on an undeclared language and otherwise yields each category's text |
| Generator.Select | mst/generator.py:135-142 | the loop keeps no more items than there are categories |
| Generator.Source | mst/generator.py:137-142 | each kept item is a category with a non-empty text, tagged with it |
| Generator.SourceMonotone | mst/generator.py:135-142 | kept items follow the order of their categories |
| Generator.SelectCover | mst/generator.py:136-142 | every category with a non-empty text is kept |
| Generator.PluralItems | mst/generator.py:130-143 | the items of a plurals element can be built exactly when the language is declared with all six categories; an undeclared language fails as such |
| Generator.Render | mst/generator.py:73-81 | a rendered element carries its resource's key and is of the resource's kind |
| Generator.AddStringElement | mst/generator.py:111-117 | a string gives one `string` element named by its key and holding the escaped text, even an empty one; an undeclared language fails |
| Generator.AddStringArrayElement | mst/generator.py:119-128 | an array gives one item per stored index, ascending and escaped, empty ones included |
| Generator.AddQuantityElement | mst/generator.py:130-143 | a complete plurals resource gives one `plurals` element named by its key and holding the kept items; only an undeclared language fails |
| Generator.PluralItemsTexts | mst/generator.py:135-142 | each plural item holds the escaped, non-empty text of its category |
| Generator.PluralItemsCover | mst/generator.py:135-142 | a category gets an item exactly when its text is non-empty |
| Generator.PluralItemsOrder | mst/generator.py:135 | plural items follow the fixed order `zero, one, two, few, many, other` |
| Generator.RenderSucceeds | mst/generator.py:73-81 | a resource renders exactly when its handler finds what it reads |
| Generator.AddResources | mst/generator.py:68-81 | succeeds exactly when every resource can be rendered; then each resource, in input order, adds exactly one element of its own kind after the existing ones |
| Spreadsheet.Locate | mst/spreadsheet.py:104-108 | a column resolves to the first position of its name, or fails naming the column |
| Spreadsheet.LocateLanguages | mst/spreadsheet.py:116-122 | every language resolves to its first position; the first missing language fails |
| Spreadsheet.Load | mst/spreadsheet.py:95-128 | row 0 is the header and the rest are data; loading succeeds exactly when the header is complete, failing on `type`, then the key column, then the first missing language in list order, then `options` |
| Spreadsheet.LoadReadsHeaderOnly | mst/spreadsheet.py:95-128 | the outcome of loading depends on the header row only |
| Spreadsheet.Cell | mst/spreadsheet.py:130-136 | reading a cell fails exactly on a row too short for the column |
| Spreadsheet.OptionsOf | mst/spreadsheet.py:143-150 | options are the cell without spaces, split at `;`; no option holds a space or a `;` |
| Spreadsheet.EmptyOptions | mst/spreadsheet.py:149-150 | an empty options cell yields `[""]` |
| Spreadsheet.OptionsRoundTrip | mst/spreadsheet.py:149-150 | options written joined by `;` are read back as they were |
| Spreadsheet.SplitKey | mst/spreadsheet.py:225 | a composite key splits exactly when it has one colon, into the parts around it |
| Spreadsheet.SplitKeyRoundTrip | mst/spreadsheet.py:225 | a key and suffix joined by a colon split back into themselves |
| Spreadsheet.ParseIndex | mst/spreadsheet.py:233 | an index is what `int()` accepts, else a failure naming the text |
| Spreadsheet.LanguageCell | mst/spreadsheet.py:186-188 | a language's cell is read from its resolved column |
| Spreadsheet.RowOptions | mst/spreadsheet.py:143-150 | the row options are read from the options column |
| Spreadsheet.HasValidKey | mst/spreadsheet.py:154-159 | a row is valid exactly when its key cell is non-empty |
| Spreadsheet.FillString | mst/spreadsheet.py:168-172 | each language gets its cell with the row options; other languages keep their texts |
| Spreadsheet.RowString | mst/spreadsheet.py:161-173 | a string row gives a resource keyed by its key cell with every language's text from that language's column |
| Spreadsheet.StringStep | mst/spreadsheet.py:212-216 | a selected string row appends its resource; any other row is passed over |
| Spreadsheet.SelectedRows | mst/spreadsheet.py:213 | every row kept is a row of the input of that kind with a non-empty key, and every such input row is kept |
| Spreadsheet.StringRowsSucceed | mst/spreadsheet.py:210-217 | the string loop fails exactly when a row lacks a cell it reads |
| Spreadsheet.StringRowsSpec | mst/spreadsheet.py:210-217 | when it succeeds, the string loop appends to what it had the reference list of resources for its rows |
| Spreadsheet.StringsOfSelected | mst/spreadsheet.py:212-216 | the reference list holds, in order, the resource of each string row with a non-empty key |
| Spreadsheet.GetStringsRows | mst/spreadsheet.py:210-217 | `get_strings` is one resource per valid string row, in row order, without merging repeated keys |
| Spreadsheet.Composite | mst/spreadsheet.py:223-225 | the composite key of a valid row of a kind whose key cell has one colon |
| Spreadsheet.GroupKeys | mst/spreadsheet.py:221-225 | the group keys named by the rows, exactly those of rows with a composite key |
| Spreadsheet.FillArray | mst/spreadsheet.py:229-233 | each language's array gets the row's text at `int(index)`; other languages are unchanged |
| Spreadsheet.AddArrayRow | mst/spreadsheet.py:224-233 | an array row updates only the entry of its key, creating it if new, and keeps the dict well formed |
| Spreadsheet.AddArrayRowSucceeds | mst/spreadsheet.py:224-233 | an array row goes through exactly when its cells are there and, with languages, its index is an integer |
| Spreadsheet.AddArrayRowWrites | mst/spreadsheet.py:229-233 | an array row writes its text at its index for every language |
| Spreadsheet.ArrayStep | mst/spreadsheet.py:221-233 | rows that are not valid array rows leave the dict as it was |
| Spreadsheet.ArrayStepSucceeds | mst/spreadsheet.py:221-233 | one iteration of the array loop fails exactly on a row with a missing cell, a key without exactly one colon, or a non-integer index |
| Spreadsheet.ArrayRows | mst/spreadsheet.py:219-233 | the array loop keeps every entry filed under its own key with the declared languages |
| Spreadsheet.ArrayRowsSucceed | mst/spreadsheet.py:219-234 | the array loop fails exactly when some row does |
| Spreadsheet.ArrayRowsOrder | mst/spreadsheet.py:219-234 | the dict's keys are the keys the rows name, each once, in first-appearance order |
| Spreadsheet.AddArrayRowOwnKey | mst/spreadsheet.py:224-233 | the array of the row's key gets the row's write |
| Spreadsheet.AddArrayRowOtherKey | mst/spreadsheet.py:224-233 | arrays of other keys are untouched |
| Spreadsheet.ArrayStepWrites | mst/spreadsheet.py:221-233 | one iteration writes each array as the row-by-row reference says |
| Spreadsheet.ArrayRowsContent | mst/spreadsheet.py:219-233 | each array holds, per language, what its key's rows wrote, later rows overwriting earlier ones |
| Spreadsheet.GetStringArraysValues | mst/spreadsheet.py:219-234 | `get_string_arrays` returns the values of the well-formed dict its loop builds |
| Spreadsheet.GetStringArraysSucceeds | mst/spreadsheet.py:219-234 | `get_string_arrays` fails exactly when some row has a missing cell, a key without exactly one colon, or an index `int()` rejects |
| Spreadsheet.GetStringArraysRows | mst/spreadsheet.py:219-234 | `get_string_arrays` gives one array per distinct key, in first-appearance order, with the declared languages, holding what its rows wrote |
| Spreadsheet.FillPlurals | mst/spreadsheet.py:247-251 | each language gets the row's text in the row's category; other languages are unchanged |
| Spreadsheet.AddPluralsRow | mst/spreadsheet.py:242-251 | a plurals row updates only the entry of its key, creating it if new, and keeps the dict well formed |
| Spreadsheet.AddPluralsRowSucceeds | mst/spreadsheet.py:242-251 | a plurals row goes through exactly when its cells are there and, with languages, it names one of the six categories |
| Spreadsheet.AddPluralsRowWrites | mst/spreadsheet.py:247-251 | a plurals row writes its text in its category for every language |
| Spreadsheet.PluralsStep | mst/spreadsheet.py:239-251 | rows that are not valid plurals rows leave the dict as it was |
| Spreadsheet.PluralsStepSucceeds | mst/spreadsheet.py:239-251 | one iteration of the plurals loop fails exactly on a row with a missing cell, a key without exactly one colon, or an unknown category |
| Spreadsheet.PluralsRows | mst/spreadsheet.py:237-251 | the plurals loop keeps every entry filed under its own key, with the declared languages and all six categories |
| Spreadsheet.PluralsRowsSucceed | mst/spreadsheet.py:237-251 | the plurals loop fails exactly when some row does |
| Spreadsheet.PluralsRowsOrder | mst/spreadsheet.py:237-251 | the dict's keys are the keys the rows name, each once, in first-appearance order |
| Spreadsheet.AddPluralsRowOwnKey | mst/spreadsheet.py:242-251 | the resource of the row's key gets the row's write |
| Spreadsheet.AddPluralsRowOtherKey | mst/spreadsheet.py:242-251 | resources of other keys are untouched |
| Spreadsheet.PluralsStepWrites | mst/spreadsheet.py:239-251 | one iteration writes each resource as the row-by-row reference says |
| Spreadsheet.PluralsRowsContent | mst/spreadsheet.py:237-251 | each resource holds, per language, what its key's rows wrote over the blank texts |
| Spreadsheet.SortedPluralsAscend | mst/spreadsheet.py:252 | the sorted resources have strictly ascending keys |
| Spreadsheet.SortedPluralsEntries | mst/spreadsheet.py:252 | each sorted resource is the dict's entry for its key |
| Spreadsheet.SortedPluralsCover | mst/spreadsheet.py:252 | every dict entry is among the sorted resources |
| Spreadsheet.GetQuantityStringsSorted | mst/spreadsheet.py:237-252 | `get_quantity_strings` returns the sorted values of the well-formed dict its loop builds |
| Spreadsheet.PluralsGroupKeys | mst/spreadsheet.py:237-251 | the plurals dict has an entry for exactly the keys the rows name |
| Spreadsheet.SortedPluralsKeys | mst/spreadsheet.py:252 | the sorted resources carry exactly the dict's keys |
| Spreadsheet.GetQuantityStringsSucceeds | mst/spreadsheet.py:237-252 | `get_quantity_strings` fails exactly when some row has a missing cell, a key without exactly one colon, or an unknown category |
| Spreadsheet.GetQuantityStringsAscend | mst/spreadsheet.py:252 | `get_quantity_strings` returns resources in strictly ascending key order |
| Spreadsheet.GetQuantityStringsKeys | mst/spreadsheet.py:237-252 | there is a resource for exactly the keys the plurals rows name |
| Spreadsheet.GetQuantityStringsContent | mst/spreadsheet.py:237-252 | each resource is complete and holds per language what its rows wrote over the blank texts |
| Spreadsheet.GetAllResources | mst/spreadsheet.py:254-259 | succeeds exactly when all three getters do; the first failing getter decides the error |
| Spreadsheet.Concatenated | mst/spreadsheet.py:255-259 | the strings come first, then the arrays, then the plurals, each wrapped as a resource of its kind |
| Spreadsheet.GetAllResourcesLayout | mst/spreadsheet.py:254-259 | all resources are the strings, then the arrays, then the plurals, each in its getter's order |

## Left out

- Reading CSV files (`Spreadsheet.__load_csv`) and the loaders: the model takes the table as rows of cells.
- Configuration, the command line and the orchestration around the core: they are glue. `generate.py` and `mst/factory.py` call generator variants that `mst/generator.py` does not define.
- Building the DOM and writing the file (`toprettyxml`, `write`): the model emits abstract elements.
- The importer, which parses XML.
- Unicode NFC normalisation (`Strings.Nfc`) is the identity in the model. For already-composed text CPython returns the text object itself, so the row options survive. For text that is not composed, CPython returns a plain `str` and the options are lost; the model does not show that.
- `ResourceText` option aliasing through the shared default list, and the `__str__` methods.
- Resources.StringArray.Merge: in the source the merged resource stores the other resource's per-language dict itself (mst/resources.py:188), so a later `add` through either object changes both. The model's resources are values and the merge copies.
- The dead `_get_row_string`.
- The class-level `__language_column` (mst/spreadsheet.py:57) is a per-sheet map in the model, a simplification. In the source the dict is shared by every `Spreadsheet` and updated in place (:120). A later sheet built in the same process, even one whose constructor then fails, changes the columns an earlier sheet reads its language cells from.
- The `str` type checks on keys and the argument type checks of `StringArray.add`: the model's types rule those inputs out. For the same reason `addResources` cannot receive a resource of a fourth kind.
- What a failed loop leaves behind: an exception abandons the partial dict or DOM, and the model returns only the failure.
- `sorted()` stability is not stated; the keys being sorted are distinct.
- Dict order: the model's `Groups` keeps insertion order, which Python guarantees from version 3.7. On an older Python 3 the order of `get_string_arrays` (and so `ArrayRowsOrder`, `GetStringArraysRows` and the layout of `get_all_resources`) is not promised.
- `int()` accepts digits from other scripts, underscores between digits and non-ASCII whitespace; the model reads ASCII only.
- Strings.Replace: its contract states only what the escaping proofs need (a removed one-character pattern and the no-occurrence case). The definition itself is leftmost and non-overlapping, like `str.replace`.
- Generator.Select: on its own it only bounds the number of items; `Source`, `SourceMonotone` and `SelectCover` state what it keeps and in what order.
- Generator.AddQuantityElement: stated for resources holding all six categories, which is what the constructor produces and what every add and merge keeps.

## Findings

| source | as written | input that shows it | evidently intended | confidence | as-written member | corrected member |
|---|---|---|---|---|---|---|
| mst/resources.py:257-259 | after its checks, merge reads `self.quantity_string` and calls `resource.get(lang, quantity)`; neither attribute exists, so any merge with a language to copy raises AttributeError | merging `QuantityStrings('k', ['fr'])` into `QuantityStrings('k', ['en'])` | copy every category of the other side's languages, a disjoint union like the other two kinds | not executed | Resources.QuantityStrings.MergeAsWritten (shown by Resources.MergeAsWrittenBreaks) | Resources.QuantityStrings.Merge |
