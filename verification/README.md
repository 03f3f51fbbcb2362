# Talend Data Preparation: step history, value actions and filters

This project models in Dafny five pieces of the Talend Data Preparation repository and proves properties of the
model.

1. **The step history of a preparation.** A preparation is a chain of steps that starts at a root step. Each step
   carries one action. An action works on one column, may create new columns, and may delete its column. The
   model covers these operations and what each does to the column ids of the later steps:
   - appending actions after the head;
   - updating a step;
   - deleting a step;
   - moving a step to another position;
   - moving the head;
   - healing a head that points at a missing step;
   - reading the details of a preparation;
   - copying the steps of another preparation.

   Column ids are numbers printed as four-digit texts (`0004`). A step's "diff" lists the ids of the columns it
   created. The column-id arithmetic is in `ColumnIds` and `StepDiff`. Renumbering after an edit is in
   `ColumnShift`. The repository of preparations is in `Preparations`.
2. **The editable-regex widget** (`EditableRegex`). It offers five regex types:
   - Equals, Contains, Starts With and Ends With each turn a plain text into a regular expression, escaping the
     regex metacharacters;
   - RegEx takes the text as it is.

   Loading a stored expression back detects its type and reads the text back out of it. `EditableRegex.Init`
   does this as the widget's code is written. Two defects of that code are listed under "Findings";
   `EditableRegex.InitCorrected` states the widget with both repaired.
3. **The `negate` action** (`Negate`). A cell holding a boolean text has it replaced by the negated value, in
   proper case. Proper casing puts the first letter of each word in upper case and the rest in lower case.
4. **The `extract URL tokens` action** (`UrlTokens`). It inserts three columns after a URL column: the protocol,
   the host and the port. It fills them from the parsed URL. A malformed URL leaves the row alone.
5. **The client-side filter list** (`Filters`). Filters can be added, removed, removed all at once and updated.
   The model also states the row predicates of the six filter types and the labels they display.

Conventions:
- Step ids are opaque fresh numbers drawn from a counter.
- The modification date is a counter that grows by one with each successful change.
- The URL parser is a parameter of the model.

Two behaviours of the preparation service that its tests pin down:
- Deleting a step also deletes, transitively, every later step that works on a column a deleted step created.
  In the test at `PreparationControllerTest.java:1465-1486`, deleting a copy leaves only the root, so the
  uppercase step on the copied column 0004 went with it.
- After updating a step so that it creates more columns, the ids of later steps above its old created range
  shift by the difference. In the test at lines 1380-1409, the first step changes from a copy (0004) to a split
  creating 0004, 0005 and 0006, and the later split's diff moves from 0005, 0006 to 0007, 0008.

When several errors could apply, they are reported in this order:
1. the preparation is unknown (NotFound);
2. for a delete or a move, the root step is targeted (Forbidden); for an append or an update, the scope is
   inconsistent (MissingActionScope);
3. the step is unknown (NotFound); an update of the root step is reported this way, since the root is not one of
   the chain's steps;
4. the renumbered chain would use a column that does not exist yet or was deleted (Conflict). For an update this
   covers a later step using a column the updated step no longer creates, and any step from the updated one on
   that would use a missing or deleted column. The tests check this rule for moves (lines 1742-1804, status 409);
   no test updates a step into a conflict, and the model applies the same rule to updates.

In `Negate`, the guard trims the value but the boolean is parsed from the untrimmed text, as the code does.
So `" true"` is negated to `True` (`Negate.NegatePaddedTrue`).

In `Filters`, the row predicates are stated as follows. The filter-service tests fix some of this; the rest is
the model's own choice, listed under "Left out":
- "contains" matches when the phrase occurs in the cell, and `*` in the phrase is a wildcard (tested); the model
  also ignores case, which no test exercises;
- "exact" compares case-sensitively only when asked to (tested);
- "empty records" keeps present, empty cells (tested);
- "invalid records" keeps cells listed among the column's invalid values (tested);
- "valid records" keeps non-empty cells that are not invalid (tested);
- "inside range" keeps cells whose integer value lies between the bounds (tested);
- a "contains" or "exact" filter on a column the row does not have keeps nothing and raises no error (tested);
  the model extends this to every filter type.

## Model

| member | source | states |
|---|---|---|
| ColumnIds.Format | dataprep-preparation/src/test/java/org/talend/dataprep/preparation/service/PreparationControllerTest.java:1918-1934 | a column id prints as its decimal digits left-padded with zeros to four characters |
| ColumnIds.ParseFormat | dataprep-preparation/src/test/java/org/talend/dataprep/preparation/service/PreparationControllerTest.java:1918-1934 | reading a printed column id back gives the id |
| ColumnIds.FormatInjective | dataprep-preparation/src/test/java/org/talend/dataprep/preparation/service/PreparationControllerTest.java:1918-1934 | distinct column ids print as distinct texts |
| ColumnIds.FormatExamples | dataprep-preparation/src/test/java/org/talend/dataprep/preparation/service/PreparationControllerTest.java:1380-1409 | ids 1, 3, 4, 7 and 8 print as the texts the tests compare against |
| StepDiff.CreatedIdsFresh | dataprep-preparation/src/test/java/org/talend/dataprep/preparation/service/PreparationControllerTest.java:1380-1395 | each step's created ids lie above the initial columns and above every id created by an earlier step |
| StepDiff.Replay | dataprep-preparation/src/test/java/org/talend/dataprep/preparation/service/PreparationControllerTest.java:1245-1268 | replaying a history step by step gives each step's diff, the next free id, and the final schema: exactly the allocated ids that no step deleted |
| StepDiff.OriginOfCreated | dataprep-preparation/src/test/java/org/talend/dataprep/preparation/service/PreparationControllerTest.java:1465-1486 | the k-th id a step creates traces back to that step and offset k |
| ColumnShift.RenumberFollowsCreator | dataprep-preparation/src/test/java/org/talend/dataprep/preparation/service/PreparationControllerTest.java:1625-1740 | a renumbered column traces back to the new position of its creator step, at the same offset |
| ColumnShift.RenumberInjective | dataprep-preparation/src/test/java/org/talend/dataprep/preparation/service/PreparationControllerTest.java:1488-1518 | renumbering never maps two columns onto one |
| ColumnShift.RenumberZeroShift | dataprep-preparation/src/test/java/org/talend/dataprep/preparation/service/PreparationControllerTest.java:1295-1378 | when no step changes how many columns it creates, every column keeps its id |
| ColumnShift.UpdateShifts | dataprep-preparation/src/test/java/org/talend/dataprep/preparation/service/PreparationControllerTest.java:1380-1409 | updating step k conflicts exactly when a later step uses one of the created ids that vanish, or when the renumbered history uses, from step k on, a column that is not yet created or already deleted; otherwise earlier steps stay, step k becomes the new action, ids up to the updated step's range stay, higher ids shift by the change in created count, and every step from k on uses a live column |
| ColumnShift.UpdateShiftsCreatedIds | dataprep-preparation/src/test/java/org/talend/dataprep/preparation/service/PreparationControllerTest.java:1397-1408 | after an update, the diffs of later steps are their old diffs shifted by the change in created count |
| ColumnShift.UpdateValid | dataprep-preparation/src/test/java/org/talend/dataprep/preparation/service/PreparationControllerTest.java:1380-1409 | an accepted update of a consistent history gives a consistent history |
| ColumnShift.UpdateDeletedConflict | dataprep-preparation/src/test/java/org/talend/dataprep/preparation/service/PreparationControllerTest.java:1776-1804 | the rule these move tests check, applied to an update: turning a step into a deletion of the column a later step still uses is a conflict |
| ColumnShift.UpdateMissingConflict | dataprep-preparation/src/test/java/org/talend/dataprep/preparation/service/PreparationControllerTest.java:1742-1774 | the rule these move tests check, applied to an update: making a step use a column the schema does not have is a conflict |
| ColumnShift.DeleteSucceeds | dataprep-preparation/src/test/java/org/talend/dataprep/preparation/service/PreparationControllerTest.java:1436-1518 | deleting a step of a consistent history never conflicts |
| ColumnShift.DeletePrefix | dataprep-preparation/src/test/java/org/talend/dataprep/preparation/service/PreparationControllerTest.java:1436-1463 | deleting step k keeps the steps before k and removes at least the deleted step |
| ColumnShift.DeleteKeeps | dataprep-preparation/src/test/java/org/talend/dataprep/preparation/service/PreparationControllerTest.java:1488-1518 | a step before the deleted one stays at its position unchanged; a later survivor keeps its order and its action, only its column renumbered |
| ColumnShift.DeleteCascades | dataprep-preparation/src/test/java/org/talend/dataprep/preparation/service/PreparationControllerTest.java:1465-1486 | every step left after a delete is a surviving step of the old chain, in order, with only its column renumbered; it is not the deleted step and uses no column created by a step that was removed |
| ColumnShift.DeleteValid | dataprep-preparation/src/test/java/org/talend/dataprep/preparation/service/PreparationControllerTest.java:1436-1518 | deleting a step of a consistent history gives a consistent history: every step works on a live column |
| ColumnShift.DeleteSingleExample | dataprep-preparation/src/test/java/org/talend/dataprep/preparation/service/PreparationControllerTest.java:1436-1463 | deleting the first of two steps on an initial column leaves only the second |
| ColumnShift.DeleteCascadeExample | dataprep-preparation/src/test/java/org/talend/dataprep/preparation/service/PreparationControllerTest.java:1465-1486 | deleting a copy also deletes the step that works on the copy |
| ColumnShift.DeleteShiftExample | dataprep-preparation/src/test/java/org/talend/dataprep/preparation/service/PreparationControllerTest.java:1488-1518 | deleting the first of two copies shifts the later reference from 0005 to 0004 |
| ColumnShift.UpdateExample | dataprep-preparation/src/test/java/org/talend/dataprep/preparation/service/PreparationControllerTest.java:1380-1409 | turning the first step from a copy into a split that creates three columns moves the later split's diff from 0005, 0006 to 0007, 0008 |
| ColumnShift.MovePermutes | dataprep-preparation/src/test/java/org/talend/dataprep/preparation/service/PreparationControllerTest.java:1625-1740 | moving a step permutes the steps |
| ColumnShift.MoveElem | dataprep-preparation/src/test/java/org/talend/dataprep/preparation/service/PreparationControllerTest.java:1625-1740 | each position of the moved list holds the element of its source position |
| ColumnShift.ReorderIsRenamedMove | dataprep-preparation/src/test/java/org/talend/dataprep/preparation/service/PreparationControllerTest.java:1625-1740 | a successful move is the moved list with the column references of the affected steps renamed by origin |
| ColumnShift.ReorderNames | dataprep-preparation/src/test/java/org/talend/dataprep/preparation/service/PreparationControllerTest.java:1625-1740 | after a move the step names are the old names moved, and the same multiset of names |
| ColumnShift.ReorderKeepsSteps | dataprep-preparation/src/test/java/org/talend/dataprep/preparation/service/PreparationControllerTest.java:1625-1740 | a moved step keeps its name, creation count and deletion flag |
| ColumnShift.ReorderFollowsCreator | dataprep-preparation/src/test/java/org/talend/dataprep/preparation/service/PreparationControllerTest.java:1703-1740 | after a move, a step on a created column works on the column created by the same creator at the same offset |
| ColumnShift.ReorderValid | dataprep-preparation/src/test/java/org/talend/dataprep/preparation/service/PreparationControllerTest.java:1742-1804 | a move that succeeds yields a consistent history |
| ColumnShift.ReorderInPlace | dataprep-preparation/src/test/java/org/talend/dataprep/preparation/service/PreparationControllerTest.java:1625-1661 | moving a step onto its own position changes nothing |
| ColumnShift.ReorderToFirstExample | dataprep-preparation/src/test/java/org/talend/dataprep/preparation/service/PreparationControllerTest.java:1625-1661 | moving the copy to the front gives copy, uppercase, rename, lowercase with the rename still on 0004 |
| ColumnShift.ReorderToLastExample | dataprep-preparation/src/test/java/org/talend/dataprep/preparation/service/PreparationControllerTest.java:1663-1701 | moving the uppercase step after the last step gives copy, rename, lowercase, uppercase with the copy still 0004 |
| ColumnShift.ReorderAfterCopyExample | dataprep-preparation/src/test/java/org/talend/dataprep/preparation/service/PreparationControllerTest.java:1703-1740 | moving the uppercase step after the copy gives the order the test expects, ids unchanged |
| ColumnShift.ReorderBeforeCreationExample | dataprep-preparation/src/test/java/org/talend/dataprep/preparation/service/PreparationControllerTest.java:1742-1774 | moving a step on 0005 before the copy that creates 0005 conflicts |
| ColumnShift.ReorderAfterDeletionExample | dataprep-preparation/src/test/java/org/talend/dataprep/preparation/service/PreparationControllerTest.java:1776-1804 | moving a column deletion before the step that works on that column conflicts |
| Preparations.NewPreparation | dataprep-preparation/src/test/java/org/talend/dataprep/preparation/service/PreparationControllerTest.java:1918-1934 | a new preparation has no steps and its head is the root |
| Preparations.RebuildWellFormed | dataprep-preparation/src/test/java/org/talend/dataprep/preparation/service/PreparationControllerTest.java:1245-1268 | rebuilding a chain from actions gives distinct, allocated step ids and diffs that match the replayed history |
| Preparations.AppendSpec | dataprep-preparation/src/test/java/org/talend/dataprep/preparation/service/PreparationControllerTest.java:1163-1292 | appending fails on an unknown preparation or an inconsistent scope; otherwise the head advances by the number of actions, the chain gains exactly those actions after the kept prefix, the date advances and other preparations are untouched |
| Preparations.AppendCumulative | dataprep-preparation/src/test/java/org/talend/dataprep/preparation/service/PreparationControllerTest.java:1185-1218 | appending several actions at once places each of them, in order, right after the old chain |
| Preparations.UpdateStepSpec | dataprep-preparation/src/test/java/org/talend/dataprep/preparation/service/PreparationControllerTest.java:1295-1378 | a successful update keeps the steps before the updated one, gives it the new action, keeps every later action except for its renumbered column, leaves every step from the updated one on on a live column, and advances the date |
| Preparations.UpdateStepErrors | dataprep-preparation/src/test/java/org/talend/dataprep/preparation/service/PreparationControllerTest.java:1411-1432 | update fails on an unknown preparation, an inconsistent scope or an unknown step; it conflicts exactly when a later step uses a created id that vanishes, or when a step from the updated one on would use a column not yet created or already deleted |
| Preparations.UpdateStepValid | dataprep-preparation/src/test/java/org/talend/dataprep/preparation/service/PreparationControllerTest.java:1380-1409 | an accepted update of a consistent preparation leaves it consistent |
| Preparations.DeleteStepSpec | dataprep-preparation/src/test/java/org/talend/dataprep/preparation/service/PreparationControllerTest.java:1436-1567 | a successful delete stores the cascaded chain, with the earlier steps unchanged, and advances the date |
| Preparations.DeleteStepErrors | dataprep-preparation/src/test/java/org/talend/dataprep/preparation/service/PreparationControllerTest.java:1520-1547 | deleting the root is forbidden and deleting an unknown step is NotFound |
| Preparations.DeleteStepValid | dataprep-preparation/src/test/java/org/talend/dataprep/preparation/service/PreparationControllerTest.java:1488-1518 | deleting a known step of a consistent preparation always succeeds and leaves it consistent |
| Preparations.ReorderStepSpec | dataprep-preparation/src/test/java/org/talend/dataprep/preparation/service/PreparationControllerTest.java:1625-1740 | a successful move stores the chain whose action names are the old ones moved, the same multiset of steps, and advances the date |
| Preparations.ReorderStepErrors | dataprep-preparation/src/test/java/org/talend/dataprep/preparation/service/PreparationControllerTest.java:1600-1623 | moving fails with NotFound on an unknown preparation or step, and the root cannot be moved |
| Preparations.ReorderStepValid | dataprep-preparation/src/test/java/org/talend/dataprep/preparation/service/PreparationControllerTest.java:1742-1804 | a stored move keeps the preparation consistent |
| Preparations.SetHeadSpec | dataprep-preparation/src/test/java/org/talend/dataprep/preparation/service/PreparationControllerTest.java:1116-1158 | moving the head succeeds exactly for a known step, points the head at it and leaves the date alone |
| Preparations.HealSpec | dataprep-preparation/src/test/java/org/talend/dataprep/preparation/service/PreparationControllerTest.java:1569-1597 | healing keeps the longest prefix of stored steps, and healing twice is healing once |
| Preparations.DetailsErrors | dataprep-preparation/src/test/java/org/talend/dataprep/preparation/service/PreparationControllerTest.java:385-400 | details fail with NotFound on an unknown preparation, and at a given step succeed exactly when the step is in the healed chain |
| Preparations.DetailsStoresHealed | dataprep-preparation/src/test/java/org/talend/dataprep/preparation/service/PreparationControllerTest.java:1569-1597 | reading the details stores the healed preparation |
| Preparations.DetailsIds | dataprep-preparation/src/test/java/org/talend/dataprep/preparation/service/PreparationControllerTest.java:362-383 | the details list the root and the step ids of the chain up to the requested step |
| Preparations.CopyStepsSpec | dataprep-preparation/src/test/java/org/talend/dataprep/preparation/service/PreparationControllerTest.java:713-799 | copying steps fails on an unknown target or one that already has steps, does nothing for an unknown reference, and otherwise gives the target the reference's actions under fresh step ids |
| Preparations.AppendCopyScenario | dataprep-preparation/src/test/java/org/talend/dataprep/preparation/service/PreparationControllerTest.java:1245-1268 | a copy appended to three columns records the created id 0004 |
| Preparations.AppendSplitScenario | dataprep-preparation/src/test/java/org/talend/dataprep/preparation/service/PreparationControllerTest.java:1380-1395 | a split appended after the copy records the created ids 5 and 6 |
| Preparations.UpdateShiftScenario | dataprep-preparation/src/test/java/org/talend/dataprep/preparation/service/PreparationControllerTest.java:1380-1409 | updating the split to create one more column moves the last diff to 0007 and 0008 |
| Preparations.UpdateShiftChain | dataprep-preparation/src/test/java/org/talend/dataprep/preparation/service/PreparationControllerTest.java:1397-1403 | updating the first step into a split creating three columns yields the two-split chain, the later step unchanged |
| Preparations.TwoSplitsCreated | dataprep-preparation/src/test/java/org/talend/dataprep/preparation/service/PreparationControllerTest.java:1405-1408 | in that chain the first split records 4, 5 and 6 and the second 7 and 8 |
| Preparations.HealScenario | dataprep-preparation/src/test/java/org/talend/dataprep/preparation/service/PreparationControllerTest.java:1569-1597 | a preparation whose last two steps are not stored heals to its first step |
| Preparations.DetailsScenario | dataprep-preparation/src/test/java/org/talend/dataprep/preparation/service/PreparationControllerTest.java:362-383 | details at the second of three steps list the root and the first two step ids |
| EditableRegex.EscapeAppend | dataprep-webapp/src/components/widgets/editable-regex/widget-editable-regex-controller.js:4-6 | escaping works character by character: escaping a concatenation concatenates the escapes |
| EditableRegex.EscapeIdentity | dataprep-webapp/src/components/widgets/editable-regex/widget-editable-regex-controller.js:4-6 | escaping leaves a text unchanged exactly when it has no metacharacter |
| EditableRegex.UnescapeEscape | dataprep-webapp/src/components/widgets/editable-regex/widget-editable-regex-controller.js:8-25 | the corrected unescape undoes escape on every text |
| EditableRegex.UnescapeFirstOnlyExample | dataprep-webapp/src/components/widgets/editable-regex/widget-editable-regex-controller.js:8-25 | the unescape as written restores only the first `[.]` of `a[.][.]b` |
| EditableRegex.UnescapeAsWrittenNoMeta | dataprep-webapp/src/components/widgets/editable-regex/widget-editable-regex-controller.js:8-25 | the unescape as written leaves a text without metacharacters alone |
| EditableRegex.StripAdapt | dataprep-webapp/src/components/widgets/editable-regex/widget-editable-regex-controller.js:27-81 | cutting the anchors off an adapted text gives back the escaped text, for the four non-RegEx types |
| EditableRegex.Substring | dataprep-webapp/src/components/widgets/editable-regex/widget-editable-regex-controller.js:37 | JavaScript `substring` takes the slice for in-range bounds and never yields more than the text |
| EditableRegex.CleanAdapt | dataprep-webapp/src/components/widgets/editable-regex/widget-editable-regex-controller.js:27-95 | with the corrected unescape, reading back an adapted text gives the entered text, for every type and every text |
| EditableRegex.CleanAsWrittenAdapt | dataprep-webapp/src/components/widgets/editable-regex/widget-editable-regex-controller.js:27-95 | the as-written read-back recovers texts without metacharacters |
| EditableRegex.FirstMatch | dataprep-webapp/src/components/widgets/editable-regex/widget-editable-regex-controller.js:159-163 | type detection picks a listed type that accepts the text, or RegEx when no listed type accepts it |
| EditableRegex.FirstMatchIsFirst | dataprep-webapp/src/components/widgets/editable-regex/widget-editable-regex-controller.js:159-163 | no type listed before the picked one accepts the text |
| EditableRegex.Detect | dataprep-webapp/src/components/widgets/editable-regex/widget-editable-regex-controller.js:111 | the corrected detection, whose Starts With test requires a leading `^`: the detected type matches the text, and no type listed before it does |
| EditableRegex.DetectAsWritten | dataprep-webapp/src/components/widgets/editable-regex/widget-editable-regex-controller.js:111 | detection as the widget writes it, Starts With accepting any first character: the detected type matches the text, and no type listed before it does |
| EditableRegex.DetectStartsWith | dataprep-webapp/src/components/widgets/editable-regex/widget-editable-regex-controller.js:61-63 | the corrected detection reports Starts With only for texts that begin with `^` and end with `.*` |
| EditableRegex.DetectAdapt | dataprep-webapp/src/components/widgets/editable-regex/widget-editable-regex-controller.js:27-95 | an adapted text of a type other than RegEx is detected as that type |
| EditableRegex.DetectAsWrittenAdapt | dataprep-webapp/src/components/widgets/editable-regex/widget-editable-regex-controller.js:27-95 | the as-written detection also recovers the type of an adapted text |
| EditableRegex.DetectAsWrittenExample | dataprep-webapp/src/components/widgets/editable-regex/widget-editable-regex-controller.js:61-63 | as written, `abc.*` is detected as Starts With |
| EditableRegex.CleanAsWrittenExample | dataprep-webapp/src/components/widgets/editable-regex/widget-editable-regex-controller.js:64-66 | as written, `abc.*` then reads back as `bc`, losing its first letter |
| EditableRegex.DetectExample | dataprep-webapp/src/components/widgets/editable-regex/widget-editable-regex-controller.js:83-95 | the corrected detection reads `abc.*` as a RegEx and keeps it whole |
| EditableRegex.Init | dataprep-webapp/src/components/widgets/editable-regex/widget-editable-regex-controller.js:119-127 | an empty value starts as Equals with no text; otherwise the selected type matches the value as the widget tests it, Equals wins whenever it matches, and a RegEx keeps the value as its text |
| EditableRegex.InitCorrected | dataprep-webapp/src/components/widgets/editable-regex/widget-editable-regex-controller.js:119-127 | the same start with the corrected detection and unescape |
| EditableRegex.UpdateModel | dataprep-webapp/src/components/widgets/editable-regex/widget-editable-regex-controller.js:138-140 | the bound value is empty for an empty text; otherwise the corrected read-back gives the entered text, and the widget's own read-back does so for texts without metacharacters |
| EditableRegex.SetSelectedType | dataprep-webapp/src/components/widgets/editable-regex/widget-editable-regex-controller.js:148-151 | choosing a type keeps the text and adapts the value to the new type |
| EditableRegex.ReloadRecovers | dataprep-webapp/src/components/widgets/editable-regex/widget-editable-regex-controller.js:119-140 | reloading the widget from its bound value restores the type and the text, for an anchored type and a text without metacharacters or line terminators |
| EditableRegex.ReloadRecoversCorrected | dataprep-webapp/src/components/widgets/editable-regex/widget-editable-regex-controller.js:119-140 | with the corrected reading, type and text survive a reload for every text without line terminators |
| EditableRegex.ReloadDotsAsWritten | dataprep-webapp/src/components/widgets/editable-regex/widget-editable-regex-controller.js:8-25 | as written, the Equals text `a..b` is saved as `^a[.][.]b$` and reloads as `a.[.]b` |
| EditableRegex.ReloadRawAsWritten | dataprep-webapp/src/components/widgets/editable-regex/widget-editable-regex-controller.js:55-67 | as written, the raw expression `abc.*` is saved as it is and reloads as Starts With with the text `bc` |
| EditableRegex.ReloadEmpty | dataprep-webapp/src/components/widgets/editable-regex/widget-editable-regex-controller.js:119-140 | an empty text reloads as Equals with no text |
| EditableRegex.ReloadRegEx | dataprep-webapp/src/components/widgets/editable-regex/widget-editable-regex-controller.js:119-140 | a RegEx entry reloads as itself exactly when none of the anchored shape tests, Starts With as written, accepts it |
| EditableRegex.ReloadRegExCorrected | dataprep-webapp/src/components/widgets/editable-regex/widget-editable-regex-controller.js:119-140 | with the corrected Starts With test, a RegEx entry reloads as itself exactly when no anchored type accepts it |
| Negate.ProperCaseFrom | dataprep-transformation/src/main/java/org/talend/dataprep/transformation/api/action/metadata/Negate.java:82-110 | proper casing from a state keeps the length, and each character is cased by whether it starts a word |
| Negate.ProperCase | dataprep-transformation/src/main/java/org/talend/dataprep/transformation/api/action/metadata/Negate.java:82-110 | delimiters are kept, a character after a delimiter or at the start is upper-cased, the others lower-cased |
| Negate.ProperCaseIdempotent | dataprep-transformation/src/main/java/org/talend/dataprep/transformation/api/action/metadata/Negate.java:82-110 | proper casing twice is proper casing once |
| Negate.ProperCaseBooleans | dataprep-transformation/src/main/java/org/talend/dataprep/transformation/api/action/metadata/Negate.java:76 | the negated booleans print as `True` and `False` |
| Negate.NegateValue | dataprep-transformation/src/main/java/org/talend/dataprep/transformation/api/action/metadata/Negate.java:70-78 | a value is negated exactly when its trimmed text is a boolean ignoring case; the result is `False` exactly when the untrimmed text parses as true |
| Negate.NegateWritten | dataprep-transformation/src/main/java/org/talend/dataprep/transformation/api/action/metadata/Negate.java:74-76 | `True` negates to `False` and `False` to `True` |
| Negate.NegateUpperTrue | dataprep-transformation/src/main/java/org/talend/dataprep/transformation/api/action/metadata/Negate.java:74-76 | `TRUE` negates to `False` |
| Negate.NegateFalse | dataprep-transformation/src/main/java/org/talend/dataprep/transformation/api/action/metadata/Negate.java:74-76 | `false` negates to `True` |
| Negate.NegatePaddedTrue | dataprep-transformation/src/main/java/org/talend/dataprep/transformation/api/action/metadata/Negate.java:74-76 | ` true` passes the trimmed guard but parses as false untrimmed, so it becomes `True` |
| Negate.NegateOther | dataprep-transformation/src/main/java/org/talend/dataprep/transformation/api/action/metadata/Negate.java:74 | a non-boolean value is not negated |
| Negate.ColumnName | dataprep-transformation/src/main/java/org/talend/dataprep/transformation/api/action/metadata/Negate.java:57-69 | the column name is absent without a column-name parameter, and otherwise is the value of one of them |
| Negate.ColumnNameLast | dataprep-transformation/src/main/java/org/talend/dataprep/transformation/api/action/metadata/Negate.java:59-64 | a later column-name parameter overrides the earlier ones |
| Negate.ColumnNameIgnores | dataprep-transformation/src/main/java/org/talend/dataprep/transformation/api/action/metadata/Negate.java:65-67 | unrecognised parameters do not affect the column name |
| Negate.Apply | dataprep-transformation/src/main/java/org/talend/dataprep/transformation/api/action/metadata/Negate.java:70-78 | applying the action keeps the row's columns and every other cell, and negates the named cell when it holds a boolean |
| Negate.NegateTwice | dataprep-transformation/src/main/java/org/talend/dataprep/transformation/api/action/metadata/Negate.java:70-78 | negating the negation of a negation is the first negation |
| Negate.NegateFlips | dataprep-transformation/src/main/java/org/talend/dataprep/transformation/api/action/metadata/Negate.java:70-78 | negating a written boolean twice gives it back |
| UrlTokens.AcceptColumnExamples | dataprep-backend-common/src/main/java/org/talend/dataprep/transformation/api/action/metadata/web/ExtractUrlTokens.java:113-115 | only string columns whose domain is `url`, ignoring case, are accepted |
| UrlTokens.IndexOf | dataprep-backend-common/src/main/java/org/talend/dataprep/transformation/api/action/metadata/web/ExtractUrlTokens.java:124 | a column lookup finds a column with the id, and fails exactly when none has it |
| UrlTokens.InsertAt | dataprep-backend-common/src/main/java/org/talend/dataprep/transformation/api/action/metadata/web/ExtractUrlTokens.java:134 | inserting a column gives it the next free id right after the anchor and advances the id counter |
| UrlTokens.InsertAfterFindsNew | dataprep-backend-common/src/main/java/org/talend/dataprep/transformation/api/action/metadata/web/ExtractUrlTokens.java:134-139 | after inserting, the ids stay distinct and the new column is found right after its anchor |
| UrlTokens.PortText | dataprep-backend-common/src/main/java/org/talend/dataprep/transformation/api/action/metadata/web/ExtractUrlTokens.java:76-79 | the port text is empty exactly for the missing port -1 |
| UrlTokens.PortTextParses | dataprep-backend-common/src/main/java/org/talend/dataprep/transformation/api/action/metadata/web/ExtractUrlTokens.java:76-79 | a present port's text reads back as that port |
| UrlTokens.Token | dataprep-backend-common/src/main/java/org/talend/dataprep/transformation/api/action/metadata/web/ExtractUrlTokens.java:46-85 | the three extractors give the protocol, the host and the port text |
| UrlTokens.NewColumn | dataprep-backend-common/src/main/java/org/talend/dataprep/transformation/api/action/metadata/web/ExtractUrlTokens.java:152-158 | a new column is named after its source plus the suffix, has the extractor's type and the source's header size |
| UrlTokens.ExtendColumns | dataprep-backend-common/src/main/java/org/talend/dataprep/transformation/api/action/metadata/web/ExtractUrlTokens.java:131-140 | the loop places the new columns, in extractor order and with consecutive fresh ids, right after the source column |
| UrlTokens.ExtendWellFormed | dataprep-backend-common/src/main/java/org/talend/dataprep/transformation/api/action/metadata/web/ExtractUrlTokens.java:131-140 | the loop keeps column ids distinct and below the counter |
| UrlTokens.WrittenValues | dataprep-backend-common/src/main/java/org/talend/dataprep/transformation/api/action/metadata/web/ExtractUrlTokens.java:135-137 | the loop writes each new column's token and keeps every other value |
| UrlTokens.MalformedUnchanged | dataprep-backend-common/src/main/java/org/talend/dataprep/transformation/api/action/metadata/web/ExtractUrlTokens.java:141-143 | a malformed URL leaves the row exactly as it was |
| UrlTokens.ApplyLayout | dataprep-backend-common/src/main/java/org/talend/dataprep/transformation/api/action/metadata/web/ExtractUrlTokens.java:121-144 | otherwise the protocol, host and port columns follow the source column and the id counter advances by three |
| UrlTokens.ApplyValues | dataprep-backend-common/src/main/java/org/talend/dataprep/transformation/api/action/metadata/web/ExtractUrlTokens.java:121-144 | the three new cells hold the tokens and every other cell is kept |
| UrlTokens.NullGivesEmpty | dataprep-backend-common/src/main/java/org/talend/dataprep/transformation/api/action/metadata/web/ExtractUrlTokens.java:129-135 | a null value gives three empty cells under the three new ids, and every other cell keeps its value |
| UrlTokens.ParsedGivesTokens | dataprep-backend-common/src/main/java/org/talend/dataprep/transformation/api/action/metadata/web/ExtractUrlTokens.java:129-137 | a parsed URL gives its protocol, host and port text under the three new ids, and every other cell keeps its value |
| UrlTokens.PortExamples | dataprep-backend-common/src/main/java/org/talend/dataprep/transformation/api/action/metadata/web/ExtractUrlTokens.java:76-79 | port 8080 prints as `8080` and a missing port as the empty text |
| Filters.Find | dataprep-webapp/src/services/filter/filter-service.spec.js:299-355 | the lookup by id finds a filter with that id, and fails exactly when none has it |
| Filters.RangeOn | dataprep-webapp/src/services/filter/filter-service.spec.js:425-451 | the lookup finds an "inside range" filter on the column, and fails exactly when there is none |
| Filters.AddFilter | dataprep-webapp/src/services/filter/filter-service.spec.js:17-206 | adding appends a filter with a fresh id, the requested type, column, arguments, label and callback, keeping the others; a second range on a column replaces the first in place and keeps its callback |
| Filters.AddValid | dataprep-webapp/src/services/filter/filter-service.spec.js:17-206 | adding keeps filter ids distinct and below the counter |
| Filters.AddOneRange | dataprep-webapp/src/services/filter/filter-service.spec.js:425-451 | adding never leaves two range filters on one column |
| Filters.RemoveFilter | dataprep-webapp/src/services/filter/filter-service.spec.js:299-355 | removing an unknown id does nothing; otherwise exactly that filter is removed, handed back for its callback, and the others keep their order |
| Filters.RemoveAfterAdd | dataprep-webapp/src/services/filter/filter-service.spec.js:299-312 | removing the filter just added gives back the previous list |
| Filters.RemoveValid | dataprep-webapp/src/services/filter/filter-service.spec.js:299-355 | after removal the list is still consistent and no filter has the removed id |
| Filters.RemoveTwice | dataprep-webapp/src/services/filter/filter-service.spec.js:339-355 | removing the same id twice is removing it once |
| Filters.RemoveAllFilters | dataprep-webapp/src/services/filter/filter-service.spec.js:280-289 | removing all filters empties the list |
| Filters.NewArgs | dataprep-webapp/src/services/filter/filter-service.spec.js:359-423 | new arguments are produced only when the new value fits the filter type |
| Filters.UpdateFilter | dataprep-webapp/src/services/filter/filter-service.spec.js:359-423 | updating an unknown id does nothing; otherwise the filter is replaced in place by one with a fresh id, the same type and column, the new arguments and label, and the old callback |
| Filters.UpdateValid | dataprep-webapp/src/services/filter/filter-service.spec.js:359-451 | updating keeps ids distinct and at most one range per column |
| Filters.RecordsPartition | dataprep-webapp/src/services/filter/filter-service.spec.js:89-170 | a present cell is kept by exactly one of the empty, invalid and valid record filters |
| Filters.MissingColumnKeepsNothing | dataprep-webapp/src/services/filter/filter-service.spec.js:208-236 | a "contains" or "exact" filter on a column the row does not have keeps nothing and raises no error; the model states it for every filter type |
| Filters.PrefixStar | dataprep-webapp/src/services/filter/filter-service.spec.js:41-54 | a star-free text followed by `*` matches exactly the texts it starts |
| Filters.LeadingStar | dataprep-webapp/src/services/filter/filter-service.spec.js:41-54 | a leading `*` matches exactly when the rest matches some suffix |
| Filters.ContainsPlain | dataprep-webapp/src/services/filter/filter-service.spec.js:17-39 | for a star-free phrase the contains match holds exactly when the phrase occurs in the text |
| Filters.ContainsKeeps | dataprep-webapp/src/services/filter/filter-service.spec.js:17-39 | a star-free contains filter keeps a row exactly when the cell has text and contains the phrase; the model compares ignoring case, which the lower-case tests do not decide |
| Filters.OccursExamples | dataprep-webapp/src/services/filter/filter-service.spec.js:30-38 | `toto` occurs in ` toto est ici` and not in ` tata est ici` |
| Filters.WildcardFound | dataprep-webapp/src/services/filter/filter-service.spec.js:41-54 | `a*b` matches every text that contains `a` and later `b` |
| Filters.RangeLabels | dataprep-webapp/src/services/filter/filter-service.spec.js:172-206 | range filters are labelled `[0 .. 22]`, `[5 .. 10]` and `[0 .. 1,000,000]` |
| Filters.GroupedIntParses | dataprep-webapp/src/services/filter/filter-service.spec.js:172-206 | a range bound printed with thousands separators reads back as the bound |
| Filters.ExactExamples | dataprep-webapp/src/services/filter/filter-service.spec.js:56-87 | the exact filter on `toici` rejects `Toici` only when case-sensitive |
| Filters.RangeExamples | dataprep-webapp/src/services/filter/filter-service.spec.js:172-206 | `5` lies in `[0, 22]` and `-5` does not; `1000` lies in `[0, 1000000]` and `-5` does not |
| Filters.RecordExamples | dataprep-webapp/src/services/filter/filter-service.spec.js:89-170 | the invalid, empty and valid record filters keep the cells the tests list |
| Filters.RangeReplaceScenario | dataprep-webapp/src/services/filter/filter-service.spec.js:425-451 | a second range on a column leaves one filter labelled `[5 .. 10]` with the first callback |
| Filters.UpdateScenario | dataprep-webapp/src/services/filter/filter-service.spec.js:359-381 | updating a contains filter keeps one filter with the new phrase and label |

## Left out

- The REST and HTTP layer, folders, locks, preparation moves and copies, CORS and dataset lookups are not part of this model. Only the step operations are.
- Step ids in the repository are hashes of the step content. The model uses distinct fresh numbers, which is all the tests rely on.
- Modification dates come from a wall clock. They are a counter here.
- Concurrent requests are not modelled.
- `dataprep-actions/.../math/Negate.java` is a different, later action and is not part of this model.
- `java.net.URL` parsing is a parameter of the model. It returns either a URL with protocol, host and port, or nothing for a malformed text.
- `RowMetadata.insertAfter` gives new columns the next free id. This is modelled as a counter in the schema.
- The domain of a new URL column is left unset. The column's statistics and other metadata are not modelled.
- Case mapping, trimming and `equalsIgnoreCase` use ASCII letters and ASCII space/control characters only. Java and JavaScript apply Unicode rules.
- Filters.Keeps: three behaviours are the model's choices, not fixed by any test: "contains" ignores case; a filter of a type other than "contains" or "exact" on a missing column keeps nothing; an unknown column has no invalid values.
- Filters.Keeps: "inside range" parses integers only. The locale-dependent number parsing and decimal values of the client are not modelled.
- The calls into `DatagridService`, the `$timeout` wrapper and the digest cycle are not modelled. The model covers the filter list and the row predicates the grid applies.
- Filters.Keeps: the wildcard pattern ignores the JavaScript rule that `.` in the generated regex does not match line terminators.
- Filters.ContainsKeeps: covers star-free phrases only. For phrases with `*` the model gives `Filters.WildcardFound`, one direction of the match.
- Filters.AddFilter: requires the arguments to fit the filter type, for example an interval for "inside range", as every caller in the tests does.
- Filters.UpdateFilter: a new value of the wrong kind for the filter, such as a range for a "contains" filter, leaves the list unchanged.
- EditableRegex.ReloadRecovers: requires a non-empty text without line terminators or metacharacters. `EditableRegex.ReloadEmpty` covers the empty text, and `EditableRegex.ReloadDotsAsWritten` shows a text with metacharacters that does not survive. A line terminator stops the JavaScript `.` from matching, so such a text is detected as a plain RegEx.
- EditableRegex.Detect: is the corrected detection; the widget's own is `EditableRegex.DetectAsWritten`, which `EditableRegex.Init` uses.
- EditableRegex.CleanAdapt: is stated for the corrected unescape; the widget's own read-back is only proved to recover texts without metacharacters (`EditableRegex.CleanAsWrittenAdapt`).
- Preparations.ReorderStepErrors: moving the root is reported as Forbidden, a case no test exercises.

## Findings

| source | as written | input that shows it | evidently intended | confidence | as-written member | corrected member |
|---|---|---|---|---|---|---|
| dataprep-webapp/src/components/widgets/editable-regex/widget-editable-regex-controller.js:8-25 | each `replace` with a string pattern replaces only the first occurrence, so only the first escaped character of each kind is restored | `a..b` escapes to `a[.][.]b` and reads back as `a.[.]b` | every escaped character is restored, so reading back undoes escaping | not executed | EditableRegex.UnescapeFirstOnlyExample | EditableRegex.UnescapeEscape |
| dataprep-webapp/src/components/widgets/editable-regex/widget-editable-regex-controller.js:61-63 | the Starts With pattern `/^[^].*[.][*]$/` uses `[^]`, which in JavaScript matches any character rather than `^` | `abc.*` is detected as Starts With and reads back as `bc` | only texts beginning with a literal `^` are Starts With; `abc.*` stays a RegEx and reads back whole | not executed | EditableRegex.DetectAsWrittenExample | EditableRegex.DetectStartsWith |
