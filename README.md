# A verified model of the question-editing helpers of qtype_formulas

The editing form of the Formulas question type (`amd/src/editing.js`) holds some
logic that is not DOM plumbing. This project models that logic in Dafny and
proves what it does. There are four pieces:

- **Correctness criterion.** The simplified controls edit a text such as
  `_relerr < 0.01`. The model covers:
  - the regular expression that splits the text into error kind, comparison and
    tolerance;
  - the default that replaces a blank field;
  - the fall-back to the raw field for any other text;
  - `formMerge`, which writes the three controls back.
- **Dataset tables.** The model covers:
  - the fixed order of the 203 variable groups;
  - the header made of the variable names;
  - the shortened text of each value;
  - the dataset table, with its header repeated every 50 rows, alternating row
    classes, rows cut short at the first missing or mismatched group, and a
    trailing error cell;
  - the statistics table (min and max per variable over all datasets).
- **Variable mapping.** This is the name-to-value object built from the groups of
  one dataset.
- **Placeholder substitution.** Each `{name}` or `{name[index]}` match in a text
  is looked up in the variable mapping:
  - a null value, or an index at or past the end of an array, leaves the
    placeholder as it is;
  - otherwise the first occurrence of its spelling is replaced by the value's
    text (an array without an index gives `undefined`, and a name the mapping
    does not hold gives `undefined` as written);
  - `$`-patterns in that text are expanded as `String.prototype.replace` does.

  The model also covers the rule that puts each part's text into the preview.

Modules:

| file | module | what |
|---|---|---|
| `js_strings.dfy` | `JsStrings` | The JavaScript string built-ins relied on: `\s`, trimming, `join`, `indexOf`, `String.prototype.replace` with a string pattern (first occurrence only, with ECMA-262 GetSubstitution `$`-patterns), decimal digit strings |
| `js_values.dfy` | `JsValues` | JavaScript values, object property reads, the two null tests, `ToString` |
| `criteria.dfy` | `Criteria` | The criterion grammar (the numeral read by a finite automaton), `formMerge`, `formulasFormCorrectness` |
| `groups.dfy` | `Groups` | `getGroupnames`, the walk over the groups of one row, `getVariablesMapping` |
| `display.dfy` | `Display` | `getDatasetShorten`, `getDatasetDisplayHeader`, `getDatasetDisplay`, `updateDataset` |
| `statistics.dfy` | `Statistics` | `getStatistics` (N, min, max), `updateStatistics` |
| `substitution.dfy` | `Substitution` | `substituteVariablesInText`, and the insert-or-append rule of `updatePreview` |

Two design choices run through the model.

**Missing entries.** The code tests for a missing entry with `=== null`. That
test lets a missing property through, and JavaScript reads a missing property as
`undefined`. The model therefore keeps `undefined` apart from `null`:
- `Entry` is `Absent`, `NullEntry` or `Present`.
- Every operation that makes such a test takes a `NullCheck` parameter.
  `StrictNull` is the code as written. `LooseNull` is the `== null` test the code
  evidently means.
- An exception is a `TypeError` result.

**Numbers.** Number-to-text conversion (`'' + x` and `x.toPrecision(4)`) is a
`NumberFormat` parameter. String-to-number conversion is a `StringToNumber`
parameter. Numbers are reals bounded by `Number.MAX_VALUE`.

The code's own loops are methods, each proved equal to a specification
function:
- `getGroupnames`, `getStatistics`, the loops of `updateStatistics`,
  `getDatasetDisplay` and `getDatasetShorten`;
- `getVariablesMapping`;
- `substituteVariablesInText`.

The properties are proved about those functions. The regular expression match,
`formMerge` and the header's map/filter/join are pure in the code and are
functions here.

## Model

| member | source | states |
|---|---|---|
| JsStrings.TrimEmptyIffAllSpace | amd/src/editing.js:51 | Trimming leading and trailing whitespace leaves nothing exactly when every character is whitespace |
| JsStrings.TrimStartSplit | amd/src/editing.js:49 | Leading `\s*` removes a whitespace prefix and keeps the rest of the text, which does not start with whitespace |
| JsStrings.TrimEndSplit | amd/src/editing.js:49 | Trailing `\s*$` removes a whitespace suffix and keeps the front of the text, which does not end with whitespace |
| JsStrings.JoinAppend | amd/src/editing.js:440 | Joining two non-empty lists puts one separator between the two joins |
| JsStrings.ReplaceAtFirst | amd/src/editing.js:624 | `replace` with a string pattern changes only the first occurrence; the text before and after it is kept |
| JsStrings.ReplaceAbsent | amd/src/editing.js:575 | `replace` of a pattern that does not occur returns the text unchanged |
| JsStrings.DigitsValueOfDecimal | amd/src/editing.js:328 | Reading back the decimal spelling of `i` in `local${i}` gives `i` |
| Criteria.NumeralSound | amd/src/editing.js:49 | A text the numeral automaton accepts is spelt by a well-formed `[-+]?[0-9]*\.?[0-9]+([eE][-+]?[0-9]+)?` numeral |
| Criteria.NumeralComplete | amd/src/editing.js:49 | Every well-formed numeral is accepted by the automaton |
| Criteria.NumeralTrimmed | amd/src/editing.js:49 | A numeral has no surrounding whitespace, so trimming keeps it whole |
| Criteria.ReadKind | amd/src/editing.js:49 | A recognised `_relerr` or `_err` is a prefix of the text, with the rest returned |
| Criteria.ReadComparison | amd/src/editing.js:49 | A recognised `<` or `==` is a prefix of the text, with the rest returned |
| Criteria.KindStage | amd/src/editing.js:49 | Whitespace then an error kind: matching continues after the kind |
| Criteria.OpStage | amd/src/editing.js:49 | Whitespace then a comparison: matching continues after the comparison |
| Criteria.ToleranceStage | amd/src/editing.js:49 | A numeral between whitespace is captured as the tolerance without the whitespace |
| Criteria.MatchComplete | amd/src/editing.js:49 | Every text of the grammar (whitespace, kind, whitespace, comparison, whitespace, numeral, whitespace) matches, with the components it was spelt with as captures |
| Criteria.MatchSound | amd/src/editing.js:49 | Every text that matches is a text of the grammar, and the captures are its components |
| Criteria.ToleranceParts | amd/src/editing.js:49 | A successful tolerance stage consumed whitespace, a well-formed numeral and whitespace, and captured the numeral |
| Criteria.ComparisonParts | amd/src/editing.js:49 | A successful comparison stage consumed whitespace and a comparison |
| Criteria.KindParts | amd/src/editing.js:49 | A successful match starts with whitespace and an error kind |
| Criteria.MergeThenMatch | amd/src/editing.js:147-154 | The merged `type op tol` matches exactly when the trimmed tolerance field is a numeral, and then captures the selections and the trimmed field |
| Criteria.MatchThenMerge | amd/src/editing.js:49-57 | Round trip: merging the captures of any matching text gives a text that matches with the same captures |
| Criteria.DefaultMatches | amd/src/editing.js:51-54 | The default text `_relerr < 0.01` is in the grammar, with components `_relerr`, `<`, `0.01` |
| Criteria.BlankDoesNotMatch | amd/src/editing.js:49-51 | A blank text never matches, so the default branch is the only way a blank field gets components |
| Criteria.ShowCorrectness | amd/src/editing.js:47-57 | Expert mode keeps the raw field. Otherwise the structured controls show the captures of a matching text; a blank text becomes `_relerr < 0.01` with the default components; every other text falls back to raw mode unchanged |
| Groups.GroupNames | amd/src/editing.js:325-331 | The list is `leading`, `random`, `global`, then `local<i>`, `answer<i>` for i = 0..99, 203 names in all |
| Groups.GroupOrderUnique | amd/src/editing.js:325-331 | That description pins down one list |
| Groups.GroupOrderDistinct | amd/src/editing.js:325-331 | No group name occurs twice |
| Groups.Classify | amd/src/editing.js:586-593 | One group of a row, as an exact case table: skipped exactly when its names are null; otherwise a missing row, or a non-null row entry with either entry absent, throws; a null row entry or lengths that differ stop the walk; two present entries of equal length are taken, with the names and the data as the group. Throwing needs a missing row or, strictly, a missing entry |
| Groups.WalkHaltsAt | amd/src/editing.js:460-463 | The first group that stops or throws decides the whole walk |
| Groups.WalkHalted | amd/src/editing.js:592-594 | After a `break` the remaining groups change nothing |
| Groups.NullGroupSkipped | amd/src/editing.js:588-590 | A group whose names are null is skipped as if it were not listed |
| Groups.StopKeepsEarlier | amd/src/editing.js:592-594 | A null or mismatched group ends the walk, keeping exactly the groups taken before it |
| Groups.LooseWalkNeverThrows | amd/src/editing.js:588-594 | With `== null`, the walk over an existing row never throws |
| Groups.StrictWalkThrowsOnOmittedGroup | amd/src/editing.js:591-592 | As written, a row that omits a listed group throws when the walk reaches it, where `== null` does not |
| Groups.LastValue | amd/src/editing.js:596 | The reference reading of a chain of assignments: no value exactly when no pair names the key |
| Groups.AssignedLookup | amd/src/editing.js:595-597 | The object built by the assignments holds exactly the assigned names, each with the value assigned last |
| Groups.LaterAssignmentWins | amd/src/editing.js:586-598 | A later group's assignment to a name overrides an earlier group's |
| Groups.AssignGroup | amd/src/editing.js:595-597 | The inner loop assigns each name of the group its value, in order |
| Groups.VariablesMapping | amd/src/editing.js:584-600 | The loop returns the assignments of the groups the walk takes, or the TypeError of the walk |
| Groups.MappingLookup | amd/src/editing.js:584-600 | A name is in the mapping exactly when a taken group lists it; its value is the one at its last listing |
| Display.ShortNumber | amd/src/editing.js:492 | The shorter of `toPrecision(4)` and the full text; the full text on a tie |
| Display.ItemsText | amd/src/editing.js:486-495 | An array is shown when every element is; then one text per element, in order |
| Display.Shorten | amd/src/editing.js:484-506 | The loop returns the shortened text of a value, or the TypeError of one without `toPrecision` |
| Display.ShortenStrings | amd/src/editing.js:488-496 | An array of strings is shown as its strings separated by `, ` |
| Display.ShortenMissing | amd/src/editing.js:492 | A null or undefined value, or an array holding one, cannot be shortened |
| Display.RenderCells | amd/src/editing.js:464-470 | One `<td>` per value, in order; a value that cannot be shortened gives an empty cell |
| Display.RenderRow | amd/src/editing.js:454-471 | The row's cells are those of the groups the walk takes, or the walk's TypeError |
| Display.RowStopsAt | amd/src/editing.js:460-463 | Cells of groups before a null or mismatched group stay; the groups after it add none |
| Display.HeaderIsAllCells | amd/src/editing.js:433-441 | The header is the `<th>` cell of every variable of every non-null group, in group order, one per line |
| Display.HeaderThrowsOnAbsentGroup | amd/src/editing.js:435-439 | As written, a group missing from the names makes the header throw; with `== null` it does not |
| Display.LooseHeaderNeverThrows | amd/src/editing.js:435-439 | With `== null`, the header never throws |
| Display.ErrorCell | amd/src/editing.js:474-476 | The trailing cell is present exactly when `errors[count] !== ''`; a missing error reads `undefined` |
| Display.RenderDatasetDisplay | amd/src/editing.js:444-481 | The loop returns the table, or the TypeError of the header or of a row |
| Display.RowThrowsTable | amd/src/editing.js:449-478 | A row that throws makes the whole table throw |
| Display.RowsOkIff | amd/src/editing.js:449-478 | The rows are produced exactly when none of them throws |
| Display.RowsArePieces | amd/src/editing.js:449-478 | The rows are the pieces of the table one after another, one per list entry |
| Display.HeaderEveryFiftyRows | amd/src/editing.js:450-452 | Row `k` of the table starts with the repeated header exactly when `k % 50 == 0`, since the header never begins like a data row |
| Display.UpdateDataset | amd/src/editing.js:334-348 | The table of the dataset under the `getGroupnames()` order, with `leading` headed `#` in the names and set to its index in the last row only; with no dataset, `lists[-1]` makes it throw |
| Display.OnlyLastRowNumbered | amd/src/editing.js:340-344 | As written, an earlier row without its own `leading` makes the table throw under `=== null`, and shows no cell at all under `== null` |
| Display.EveryRowNumbered | amd/src/editing.js:343-344 | With every row given its index, each row opens with that index under `#` and its walk goes on; the last row is numbered as the code already does |
| Display.DisplayShape | amd/src/editing.js:444-481 | The table is produced exactly when the header and every row are. It is then one `<table …>` holding one `<tr class="r{count%2}">` piece per list entry, the header (cells followed by the cells in `<tr>`) before rows 0, 50, 100, … |
| Display.LooseDisplayNeverThrows | amd/src/editing.js:456-460 | With `== null`, the table never throws |
| Display.StrictDisplayThrowsOnOmittedGroup | amd/src/editing.js:459-460 | As written, one row that omits a listed group makes the whole table throw |
| Statistics.SeqMin | amd/src/editing.js:416 | The minimum is one of the numbers and bounds all of them below |
| Statistics.SeqMax | amd/src/editing.js:417 | The maximum is one of the numbers and bounds all of them above |
| Statistics.NumbersMembers | amd/src/editing.js:412-420 | The numbers kept are exactly those some datum converts to |
| Statistics.GetStatistics | amd/src/editing.js:406-431 | The loop from ±`Number.MAX_VALUE` returns `{}` without numbers, otherwise the count, the minimum and the maximum of the numeric data |
| Statistics.StatisticsMeaning | amd/src/editing.js:406-430 | `{}` exactly when no datum is numeric. Otherwise N counts the numeric data, `min <= max`, and both are numeric data bounding every numeric datum |
| Statistics.NonNumbersIgnored | amd/src/editing.js:413 | A datum that is NaN (undefined, a non-numeric text) does not change the record |
| Statistics.CollectColumn | amd/src/editing.js:377-385 | The column of variable `j` over all datasets: missing group data is skipped, short data gives undefined |
| Statistics.ColumnStatistics | amd/src/editing.js:375-388 | One statistics record per variable of the group, over its column |
| Statistics.StoreGroup | amd/src/editing.js:389-394 | Each row gets the group's array of min (or max) values under the group's name |
| Statistics.UpdateStatistics | amd/src/editing.js:351-403 | The groups walked are the `getGroupnames()` order; the result is the statistics table over them, or the TypeError of a group missing from the names |
| Statistics.StatRowsThrow | amd/src/editing.js:370-376 | Once a group has thrown, the later groups cannot undo it: the whole walk throws |
| Statistics.AbsentGroupThrows | amd/src/editing.js:370-376 | As written, any listed group absent from the dataset's names makes the statistics and their table throw |
| Statistics.StatisticsNeedLeading | amd/src/editing.js:355-376 | As written, unless the dataset's own names hold `leading` (the first group walked), the statistics table throws |
| Statistics.LooseStatisticsNeverThrow | amd/src/editing.js:371-376 | With `== null`, absent groups are skipped and the statistics table never throws |
| Statistics.StatRowsAligned | amd/src/editing.js:389-394 | Every listed group with names gets one value per name in both rows, the min (max) of that variable's column, so no group other than `leading` cuts a statistics row short |
| Statistics.StatLeadingAligned | amd/src/editing.js:360-364 | Each statistics row has one leading cell, its quantity's name (396-398); the shown names give `leading` one heading exactly when the dataset's names have no `leading` or a one-entry one, since the copy loop lets the dataset's `leading` replace the empty heading |
| Substitution.ReadSound | amd/src/editing.js:609 | What the placeholder pattern reads is a well-formed placeholder spelt at the start of the text |
| Substitution.ReadSpell | amd/src/editing.js:609 | A well-formed placeholder is read back from its spelling, whatever follows |
| Substitution.MatchesAreSpellings | amd/src/editing.js:604-612 | Every match of the global pattern re-reads with `exec` as a well-formed placeholder, so `d === null` never holds |
| Substitution.NoBraceNoMatches | amd/src/editing.js:604 | A text without `{` has no match |
| Substitution.LoneMatch | amd/src/editing.js:604 | A lone placeholder is exactly one match |
| Substitution.SubstituteVariables | amd/src/editing.js:603-627 | The loop replaces, match by match, the first occurrence of each resolved placeholder with its value's text |
| Substitution.NoPlaceholderUnchanged | amd/src/editing.js:604-607 | Without a match (in particular without `{`) the text comes back unchanged |
| Substitution.ScalarReplaced | amd/src/editing.js:616-624 | `{name}` with a non-array value is replaced by the value's text, the rest of the text kept |
| Substitution.IndexedReplaced | amd/src/editing.js:617-624 | `{name[i]}` with an array value and `i` below its length is replaced by element `i` |
| Substitution.SkippedLeftVerbatim | amd/src/editing.js:613-621 | `{name[i]}` with `i` at or past the end, and a placeholder whose value is null, stay verbatim |
| Substitution.UnknownNameBecomesUndefined | amd/src/editing.js:613-624 | As written, a placeholder whose name is not in the mapping is replaced by `undefined` |
| Substitution.UnknownNameLeftVerbatim | amd/src/editing.js:613 | With `== null`, a placeholder whose name is not in the mapping stays verbatim |
| Substitution.MatchesAround | amd/src/editing.js:604 | A placeholder with no other `{` before or after it is the text's only match |
| Substitution.SubstituteInText | amd/src/editing.js:603-627 | In a text with one placeholder and no other `{`, the placeholder is replaced by what it resolves to, or the text stays as it is when it is skipped |
| Substitution.PlaceholderInText | amd/src/editing.js:613-624 | In such a text a scalar is put in the placeholder's place, an array element in range likewise, and a null value or an index past the end leaves the text unchanged |
| Substitution.ScalarExample | amd/src/editing.js:603-627 | `Result: {ans}` with `ans` = 5 becomes `Result: 5` |
| Substitution.IndexExample | amd/src/editing.js:617-624 | `{arr[2]}` with `arr` = `[1, 2, 3]` becomes `3` |
| Substitution.OutOfRangeExample | amd/src/editing.js:619-621 | `{arr[9]}` with `arr` = `[1, 2, 3]` stays as it is |
| Substitution.WovenMatches | amd/src/editing.js:604 | In a text of placeholders between pieces without `{`, the global pattern finds exactly those placeholders, in order |
| Substitution.OutcomesClear | amd/src/editing.js:613-624 | What the loop has already put in place cannot hold the spelling of a resolved placeholder: a value's text has no `{`, and a skipped placeholder left as written is a different placeholder |
| Substitution.NoSpellingIn | amd/src/editing.js:624 | Between pieces without `{`, texts clear of a placeholder never hold its spelling, so `replace` finds none before the placeholder's own place |
| Substitution.MixedStep | amd/src/editing.js:608-625 | One iteration puts the `i`-th placeholder's outcome (its value's text, or its own spelling when skipped) in that placeholder's own place and changes nothing else |
| Substitution.SubstituteWoven | amd/src/editing.js:603-627 | In a text of any number of placeholders between pieces without `{`, repeated ones included, each placeholder is replaced in its own place by its value's text, and one that is skipped stays as written, provided no value's text holds `{` or `$` |
| Substitution.TwoPlaceholdersExample | amd/src/editing.js:603-627 | `{a} and {b[7]}` with `a` = 5 and `b` = `[2]` becomes `5 and {b[7]}` |
| Substitution.LonePlaceholderReplaced | amd/src/editing.js:603-627 | A text that is a lone placeholder of a scalar variable becomes the variable's text |
| Substitution.InsertAtPlaceholder | amd/src/editing.js:572-576 | A part with a placeholder replaces the placeholder's first occurrence in the preview |
| Substitution.InsertDropsUnplaced | amd/src/editing.js:575 | A part whose placeholder does not occur in the preview is dropped from it |

## Left out

- DOM construction, events and styling are not modelled. `formulasFormCorrectness` is modelled only as the choice of field text and controls (`ShowCorrectness`), not the `<select>` markup.
- `initialiseSelectiveCriteria`, `showDatasetAndPreview`, `initPreviewControls` and the `FormulasForm` constructor are not modelled: they only wire the DOM.
- `updateOptionsFromGlobal` and `initialiseGlobalOptionsForNamedItem` are not modelled: they are attribute selectors over the live document.
- `instantiateDataset` is not modelled: it is an XMLHttpRequest to the server. Its result (`vars.names`, `vars.lists`, `vars.errors`) is a parameter everywhere.
- `initialiseNumdatasetOption` is not modelled: it only builds DOM options.
- `UpdateDataset`: `Object.assign` copies are modelled as values, so the model does not show that the bundle itself is left untouched. The number of datasets is bounded by the JavaScript array limit (2^32 - 1), which keeps the row index a finite number.
- `updatePreview` is modelled only as its insert-or-append rule (`InsertPart`). The reading of editor contents, the `answer === null` skip and the markup around each part are not modelled.
- Statistics.GetStatistics: mean and SD (`sum`, `sum2`, `Math.sqrt`) are not modelled, because they are floating-point arithmetic. N, min and max are modelled exactly over reals.
- Display.ShortNumber: `toPrecision(4)` and `'' + x` are a `NumberFormat` parameter, because they are floating-point formatting. Only the choice of the shorter text is modelled.
- Statistics.NumberOf: the conversion of a string to a number is a `StringToNumber` parameter. Strings that convert to an infinity are not modelled, since numbers here are finite.
- Groups.VariablesMapping: `idataset` is a dataset index. The code receives it from a text field as a string, and that conversion is not modelled.
- Property names inherited from `Object.prototype` (`constructor`, `__proto__`, …) are not modelled: an object is a plain map.
- Substitution.SubstituteWoven: texts in which a value's text holds `{` or `$` are not covered. A `{` in an inserted value can start a later match inside it, and `$` patterns are expanded by `replace`; the model itself (`SubstituteOf`, with `Replace` and `Expand`) still defines the outcome for such texts; only this lemma does not state it.
- Statistics.StatRowsAligned: the `leading` group is not covered; `StatLeadingAligned` states when its heading and cells line up.
- Strings are sequences of characters, not UTF-16 code units, so `.length` is not distinguished from the character count.
- `M.util.get_string` and `M.cfg` are host-framework globals and are not modelled.

## Findings

The model takes the null test as a parameter. `StrictNull` models the code as
written; `LooseNull` is the corrected definition that the other lemmas are
stated for where it matters. The `updateDataset` row is about which rows are
given their index; its corrected definition is `NumberedRows`.

| source | as written | input that shows it | evidently intended | confidence | as-written member | corrected member |
|---|---|---|---|---|---|---|
| amd/src/editing.js:591-592 | `subset === null` lets a missing group through to `subset.length` | `names = {random: ['a']}`, row `{}`, groups `['random']`: TypeError instead of an empty mapping | A missing group ends the walk like a null one (`== null`) | medium, not executed | Groups.StrictWalkThrowsOnOmittedGroup | Groups.LooseWalkNeverThrows |
| amd/src/editing.js:459-460 | The same test in the table makes one incomplete row blank the whole table | `names = {random: ['a']}`, one row `{}`, groups `['random']`: TypeError instead of a table | The row ends quietly and the table is still produced | medium, not executed | Display.StrictDisplayThrowsOnOmittedGroup | Display.LooseDisplayNeverThrows |
| amd/src/editing.js:613 | `mapping[d[1]] === null` lets an unknown name through, and `replace` inserts `undefined` | Text `{x}` with mapping `{}` gives `undefined` | An unknown placeholder stays verbatim | medium, not executed | Substitution.UnknownNameBecomesUndefined | Substitution.UnknownNameLeftVerbatim |
| amd/src/editing.js:343-344 | `lists[finalItem].leading = [finalItem]` numbers the last row only, while the names head a `leading` column | Two datasets `{}`, `{}`: the first row throws at `subset.length` (`=== null`) or is blank (`== null`) | Every row `k` gets `leading = [k]` | low, not executed | Display.OnlyLastRowNumbered | Display.EveryRowNumbered |
| amd/src/editing.js:371 | `updateStatistics` reads each group from `this.vars.names`, not from the local `names` that line 361 gave `leading`, and `n === null` lets the absent `leading` through to `n.length` | A dataset whose names have no `leading` key: `this.vars.names.leading` is `undefined`, and `n.length` throws a TypeError | Read the local `names` (or skip absent groups with `== null`) so that the statistics table is produced | low, not executed | Statistics.StatisticsNeedLeading | Statistics.LooseStatisticsNeverThrow |
