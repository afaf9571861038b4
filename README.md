# ReportPropertiesFile, modelled in Dafny

`ReportPropertiesFile` is a diagnostic task of the selfdiagnose framework. It loads a
properties resource and reports its keys and values as one line,
`name1: value1, name2: value2, ...`. The task can be configured in two ways:

- a key filter (`setKeysToReport`): when the filter is non-null and non-empty, only the
  keys in it are reported;
- per-key formats (`addFormatForKey`): each format gives an alternative display name and
  a value template in which every `{value}` is replaced by the property's value.

This project models the report pipeline of that class:

- key selection: the keys go into a `TreeSet`, which `retainAll` then shrinks to the filter;
- per-key rendering of the name, the value and the `name: value` pair;
- joining the pairs with `", "`;
- the two configuration fields and the methods that change them;
- the two messages that `run` writes into the framework's result object.

It also proves what the class promises about these parts.

Files:

- `wrappers.dfy`: `Option`, which stands for a Java reference that may be null, and
  `Result`, which stands for a value or a thrown exception's message.
- `key_order.dfy` (module `KeyOrder`): the `String.compareTo` order (`Less`) and its
  laws. It also holds the sorted, duplicate-free sequence a `TreeSet` iterates over:
  `Insert` is `TreeSet.add` and `SortedKeys` is the iteration order of a key set.
- `text.dfy` (module `Text`): `Replace` models `String.replaceAll` with the literal
  pattern `{value}`. `Split` is the reference partner of `Replace`. `Join` joins parts
  with a separator, and `Intersperse`/`Concat` describe where the separators go.
- `report.dfy` (module `Report`):
  - the `KeyFormat` record and the load outcome `Lookup`;
  - `readProperties` and its error messages;
  - the rendering functions `KeyNameToReport`, `ValueToReport`, `KeyAndValueToReport`,
    `Pairs` and `ReportMessage`;
  - the specification `PassedReport` of what a successful run passes;
  - class `ReportPropertiesFile`, with the fields `keysToShow` and `keyFormatters` and the
    methods `SetKeysToReport`, `AddFormatForKey`, `CollectKeys` (the key-selection loops of
    `run`), `CreateReportMessage` (the iterator loop) and `Run`;
  - class `TaskResult`, which stands for the framework's `DiagnosticTaskResult`.

Java `null` is `None`. `String.format("%s", null)` prints `null`, and `FormatArg` does the
same. The functions here are specification functions: each one's row names the lemmas and
methods whose contracts state their properties.

Where the code and a natural reading of the class differ, the model follows the code:

- A format entry whose alternative name is null makes the key display as `null`. The name
  does not fall back to the raw key
  (`src/main/java/com/philemonworks/selfdiagnose/report/ReportPropertiesFile.java:93-94`).
  `NameFromFormat` states this.
- After a failed load, `run` still calls `setPassedMessage` with the initial `"?"` (`:56`,
  `:71`). This call comes right after `setErrorMessage` (`:69`). So a failure leaves both
  messages set. `ReportPropertiesFile.Run` states this.
- The input stream that `readProperties` opens is never closed. Nothing models its release.

## Model

| member | source | states |
|---|---|---|
| KeyOrder.Less | src/main/java/com/philemonworks/selfdiagnose/report/ReportPropertiesFile.java:59 | the String.compareTo order of the TreeSet: characters compared in turn, a proper prefix first; LessIrreflexive, LessTransitive and LessTotal below prove it a strict total order |
| KeyOrder.LessIrreflexive | src/main/java/com/philemonworks/selfdiagnose/report/ReportPropertiesFile.java:59 | no key sorts before itself in the TreeSet's String order |
| KeyOrder.LessTransitive | src/main/java/com/philemonworks/selfdiagnose/report/ReportPropertiesFile.java:59 | the String order is transitive |
| KeyOrder.LessTotal | src/main/java/com/philemonworks/selfdiagnose/report/ReportPropertiesFile.java:59 | any two distinct keys are ordered one way or the other |
| KeyOrder.LessAsymmetric | src/main/java/com/philemonworks/selfdiagnose/report/ReportPropertiesFile.java:59 | two keys are never each below the other |
| KeyOrder.Insert | src/main/java/com/philemonworks/selfdiagnose/report/ReportPropertiesFile.java:60-62 | adding a key to the sorted set keeps it strictly ascending; afterwards it holds exactly the old keys plus the new one, with no duplicate |
| KeyOrder.SortedKeys | src/main/java/com/philemonworks/selfdiagnose/report/ReportPropertiesFile.java:59-62 | the iteration order of a TreeSet of a key set is strictly ascending and lists exactly those keys |
| KeyOrder.SortedUnique | src/main/java/com/philemonworks/selfdiagnose/report/ReportPropertiesFile.java:59 | two strictly ascending sequences with the same keys are equal, so the order does not depend on the order in which keys were added |
| KeyOrder.SortedKeysUnique | src/main/java/com/philemonworks/selfdiagnose/report/ReportPropertiesFile.java:59-62 | any strictly ascending listing of a key set is that set's TreeSet order |
| KeyOrder.SnocSorted | src/main/java/com/philemonworks/selfdiagnose/report/ReportPropertiesFile.java:64 | retaining keys in iteration order keeps them ascending: a key above all kept keys can be appended |
| Text.Replace | src/main/java/com/philemonworks/selfdiagnose/report/ReportPropertiesFile.java:105 | replaceAll of the placeholder with a literal value, scanning left to right; ReplaceIsSplitJoin, ReplaceWithoutMatch and ReplaceBySelf below state what it computes |
| Text.Split | src/main/java/com/philemonworks/selfdiagnose/report/ReportPropertiesFile.java:105 | cutting a template at the placeholder matches gives pieces that contain no placeholder and that rejoin with the placeholder into the template |
| Text.ReplaceIsSplitJoin | src/main/java/com/philemonworks/selfdiagnose/report/ReportPropertiesFile.java:105 | replaceAll replaces every placeholder: the result is the placeholder-free pieces rejoined with the value |
| Text.ReplaceWithoutMatch | src/main/java/com/philemonworks/selfdiagnose/report/ReportPropertiesFile.java:105 | a template without the placeholder is returned unchanged |
| Text.ReplaceBySelf | src/main/java/com/philemonworks/selfdiagnose/report/ReportPropertiesFile.java:105 | substituting the placeholder text by itself gives the template back |
| Text.Join | src/main/java/com/philemonworks/selfdiagnose/report/ReportPropertiesFile.java:77-88 | the pairs with the separator between neighbours; JoinAppend and JoinIsInterspersed below state its layout |
| Text.JoinAppend | src/main/java/com/philemonworks/selfdiagnose/report/ReportPropertiesFile.java:77-88 | each further pair adds exactly one separator before it; the first pair adds none |
| Text.Intersperse | src/main/java/com/philemonworks/selfdiagnose/report/ReportPropertiesFile.java:85-87 | n parts give 2n-1 items: parts at even positions in their order and the separator at every odd position |
| Text.JoinIsInterspersed | src/main/java/com/philemonworks/selfdiagnose/report/ReportPropertiesFile.java:74-90 | the joined string is the parts with a separator between every two neighbours: n-1 separators, none leading or trailing |
| Report.FormatArg | src/main/java/com/philemonworks/selfdiagnose/report/ReportPropertiesFile.java:112 | how `%s` renders a name: the string itself, or `null` for a null reference; NameFromFormat and KeyAndValueToReport state its use |
| Report.NotFoundMessage | src/main/java/com/philemonworks/selfdiagnose/report/ReportPropertiesFile.java:128-129 | the missing-resource message contains the quoted file name and "not found" |
| Report.ReadErrorMessage | src/main/java/com/philemonworks/selfdiagnose/report/ReportPropertiesFile.java:138-139 | the read-failure message contains the quoted file name and the cause's text (`null` for a null cause) |
| Report.ReadProperties | src/main/java/com/philemonworks/selfdiagnose/report/ReportPropertiesFile.java:115-141 | loading succeeds exactly when the resource was parsed, and then gives the parsed map; every error message names the file in quotes; a missing resource says "not found"; a failed read carries the cause's text |
| Report.UnselectedValueUnconstrained | src/main/java/com/philemonworks/selfdiagnose/report/ReportPropertiesFile.java:63-66 | a value the filter drops is never substituted, so it may hold `$`: a=$1 under the template "{value}", b=x and the filter {b} give "b: x" |
| Report.MissingResourceFails | src/main/java/com/philemonworks/selfdiagnose/report/ReportPropertiesFile.java:127-129 | a missing resource fails with `Properties file '<name>' not found (tried both class-path and disk)`, which contains the quoted name and "not found" |
| Report.KeyNameToReport | src/main/java/com/philemonworks/selfdiagnose/report/ReportPropertiesFile.java:92-98 | the display name of a key: the format entry's name, even null, or the key itself; NameFromFormat and NameWithoutFormat below state it |
| Report.ValueToReport | src/main/java/com/philemonworks/selfdiagnose/report/ReportPropertiesFile.java:100-109 | the display value of a key: the template with the value substituted, or the raw value; TemplateWithoutPlaceholder, TemplateSubstitutesEveryPlaceholder and RawValueWithoutTemplate below state it |
| Report.KeyAndValueToReport | src/main/java/com/philemonworks/selfdiagnose/report/ReportPropertiesFile.java:111-113 | a pair is the display name (null shown as "null"), then ": ", then the display value, and nothing else |
| Report.PairToReport | src/main/java/com/philemonworks/selfdiagnose/report/ReportPropertiesFile.java:79-84 | one key's pair: its display name and display value combined; KeyAndValueToReport states the layout |
| Report.Pairs | src/main/java/com/philemonworks/selfdiagnose/report/ReportPropertiesFile.java:76-84 | one pair per key, the i-th pair rendered from the i-th key |
| Report.ReportMessage | src/main/java/com/philemonworks/selfdiagnose/report/ReportPropertiesFile.java:74-90 | the pairs of the keys joined by ", "; ReportMessageAppend, ReportLayout and TwoKeyMessage state it, and CreateReportMessage is proved equal to it |
| Report.SelectedKeys | src/main/java/com/philemonworks/selfdiagnose/report/ReportPropertiesFile.java:63-65 | the reported keys are keys of the file, and inside a non-null, non-empty filter |
| Report.PassedReport | src/main/java/com/philemonworks/selfdiagnose/report/ReportPropertiesFile.java:58-66 | the message a successful run passes: ReportMessage of the selected keys in TreeSet order; ReportInKeyOrder and Run state it |
| Report.ReportMessageAppend | src/main/java/com/philemonworks/selfdiagnose/report/ReportPropertiesFile.java:77-88 | the message for one more key is the previous message, a separator unless it is the first key, and that key's pair |
| Report.NameFromFormat | src/main/java/com/philemonworks/selfdiagnose/report/ReportPropertiesFile.java:92-94 | once a format is added for a key, that key's display name is the format's name, even a null name; other keys' names do not change |
| Report.NameWithoutFormat | src/main/java/com/philemonworks/selfdiagnose/report/ReportPropertiesFile.java:95-97 | a key without a format entry is shown under its own name |
| Report.TemplateWithoutPlaceholder | src/main/java/com/philemonworks/selfdiagnose/report/ReportPropertiesFile.java:100-109 | a template without `{value}` is reported as it is, whatever the value, `$` and `\` included |
| Report.TemplateSubstitutesEveryPlaceholder | src/main/java/com/philemonworks/selfdiagnose/report/ReportPropertiesFile.java:100-109 | a non-null template is reported with every `{value}` replaced by the raw value |
| Report.RawValueWithoutTemplate | src/main/java/com/philemonworks/selfdiagnose/report/ReportPropertiesFile.java:100-109 | with no entry, or an entry whose template is null, the raw value is reported |
| Report.ReportInKeyOrder | src/main/java/com/philemonworks/selfdiagnose/report/ReportPropertiesFile.java:59-66 | the report is the pairs of the selected keys in ascending order of the raw key, for any format map: renaming never reorders |
| Report.ReportLayout | src/main/java/com/philemonworks/selfdiagnose/report/ReportPropertiesFile.java:74-90 | the message is the pairs with ", " between neighbours and nowhere else; no keys give "" |
| Report.EmptyPropertiesReportNothing | src/main/java/com/philemonworks/selfdiagnose/report/ReportPropertiesFile.java:59-66 | an empty properties file gives the empty report, with or without a filter |
| Report.TemplateExample | src/main/java/com/philemonworks/selfdiagnose/report/ReportPropertiesFile.java:105 | the template "[{value}]-[{value}]" with the value 7 gives "[7]-[7]" |
| Report.TwoKeyMessage | src/main/java/com/philemonworks/selfdiagnose/report/ReportPropertiesFile.java:74-90 | two keys give their two pairs with one separator between them |
| Report.FilteredRenamedExample | src/main/java/com/philemonworks/selfdiagnose/report/ReportPropertiesFile.java:59-113 | the properties a=1, b=2, c=3 with the filter {a, c} and key a formatted as ("Alpha", "v={value}") give "Alpha: v=1, c: 3" |
| Report.TaskResult.constructor | src/main/java/com/philemonworks/selfdiagnose/report/ReportPropertiesFile.java:55 | a fresh result has neither message set |
| Report.TaskResult.SetPassedMessage | src/main/java/com/philemonworks/selfdiagnose/report/ReportPropertiesFile.java:71 | the passed message is the given text; the error message is untouched |
| Report.TaskResult.SetErrorMessage | src/main/java/com/philemonworks/selfdiagnose/report/ReportPropertiesFile.java:69 | the error message is the given text; the passed message is untouched |
| Report.ReportPropertiesFile.constructor | src/main/java/com/philemonworks/selfdiagnose/report/ReportPropertiesFile.java:39-44 | a new task has no filter and no format map |
| Report.ReportPropertiesFile.SetKeysToReport | src/main/java/com/philemonworks/selfdiagnose/report/ReportPropertiesFile.java:148-150 | the filter is replaced wholesale by the given set (which may be null); the formats are untouched |
| Report.ReportPropertiesFile.AddFormatForKey | src/main/java/com/philemonworks/selfdiagnose/report/ReportPropertiesFile.java:160-165 | the format map exists afterwards; the key's entry is the given pair and overwrites any earlier one; every other key's entry and the filter are unchanged |
| Report.ReportPropertiesFile.CollectKeys | src/main/java/com/philemonworks/selfdiagnose/report/ReportPropertiesFile.java:59-65 | the selected keys are strictly ascending and are exactly the properties' keys, intersected with the filter when it is non-null and non-empty |
| Report.ReportPropertiesFile.CreateReportMessage | src/main/java/com/philemonworks/selfdiagnose/report/ReportPropertiesFile.java:74-90 | the loop's message is the pairs of the keys, in order, joined by ", " |
| Report.ReportPropertiesFile.Run | src/main/java/com/philemonworks/selfdiagnose/report/ReportPropertiesFile.java:55-72 | on a successful load the passed message is the report and the error message is untouched; on a failed load the error message is the failure's message and the passed message is "?" |

## Left out

- Resource resolution is I/O and is not modelled: `getResourceAsStream` through the class and
  through its class loader, and then `File`/`FileInputStream` (lines 117-126). It comes in
  as the `Lookup` value `NotFound`, `ReadFailed(message)` or `Parsed(map)`.
- `Properties.load` parsing (line 132) is a library grammar. The model takes the parsed
  `map<string, string>` as given. A non-String key, which would make the cast at line 61
  throw, cannot occur in this model.
- Report.ValueToReport: Java's `replaceAll` reads `$` and `\` in the replacement as group
  references and escapes, and may throw on them. The model substitutes literally. It
  requires (`Substitutable`) that the value contains neither character only when the key
  has a non-null template that contains `{value}`, since only then does `replaceAll` read
  the value. `Run` and `PassedReport` require this (`SelectionSubstitutable`) only of the
  keys the filter selects; the values of other keys are unconstrained.
- Report.ReportPropertiesFile.Run: because of that precondition, the model has no path on
  which `createReportMessage` throws and the failure is caught at line 67.
- `printStackTrace` logging (lines 68, 137) is left out.
- `setUp` is left out: it delegates to `DiagnoseUtil.verifyNonEmptyString` and to the base
  class's `name`/`url` fields, which are not part of this model.
- `getDescription` and the severity set in the constructor are left out. The base class
  `CheckResourceProperty` is not part of this model.
- `getName()` comes in as the `fileName` parameter of `Run`.
- `DiagnosticTaskResult` is not part of this model. `TaskResult` assumes that
  `setPassedMessage` and `setErrorMessage` simply store their argument.
- `ErrorMessageException` is not part of this model. Its `getMessage()` is taken to return
  the text it was built with.
- Report.ReportPropertiesFile.SetKeysToReport stores the set by value. In Java the field
  aliases the caller's set, so a later change to that set also changes the filter. That
  aliasing is not modelled.
- KeyOrder.Less compares Dafny characters, which are Unicode scalar values.
  `String.compareTo` compares UTF-16 code units. The two orders differ only between
  supplementary characters and the characters U+E000 to U+FFFF.
