# MetaG training analysis, modelled in Dafny

MetaG's training script (`supplemental/scripts/train/metag-train.py`)
scores every parameter setting of a classifier run against a ground truth
and prints the settings best first. This project models the core of that
script, lines 150-383:

- **Expectation loader** (lines 157-191 and 215-252). It reads an
  expectation file with an `@@ranks<TAB>r1;r2;…` line and `@@negative` /
  `@@positive` sections.
  - In Rk (Matthews correlation) mode it builds negative read-name patterns
    and positive patterns with the expected label at the analysed rank. A
    label `0` is stored as NaN.
  - In Bray-Curtis mode it builds expected counts per taxon, with negative
    counts going to the `UNMATCHED` taxon, plus the total abundance.
  - `isNegative` starts out False (line 149), so data lines before any
    section line belong to the positive section. A positive entry before the
    `@@ranks` line fails with `RanksNotDeclared`.
- **Read resolver** (Rk, lines 193-214). It gives every query header one
  entry in the read table, holding its expected label. The first matching
  negative pattern wins, otherwise the first matching positive one. A
  header that no pattern matches ends the run.
- **Training-output parser** (lines 259-336). `@@…` lines open one block
  per setting. In Rk mode a rank line records the current read's label
  for the current setting; a second label for the same read and setting
  ends the run, and so does an unknown read. In Bray-Curtis mode a rank line
  moves one read from `UNMATCHED` to its taxon. A file with no setting
  ends the run.
- **Fill, score and report** (lines 341-383). Missing cells become
  `unclassified` or 0, and each setting's row is scored against the `exp`
  row. The (setting, score) pairs are sorted by descending score, then by
  setting name, and printed one `setting<TAB>score` line each.

Every stage exists twice:

- as a left fold of a line function over the file (`Lines.Fold`), and
- as a method of `Run.RunContext`, the script's global state.

Each method reads its file line by line and updates the state's fields in
place. It is proved to end in the state, or with the error, that the fold
gives. The properties are proved as lemmas about the folds:

- the rank index;
- one read-table entry per header, with first-match precedence;
- `totalAbund` is the sum of the expected counts;
- the setting list and the "no setting" error;
- a label assignment sets exactly one cell, with its three error cases;
- Bray-Curtis conservation;
- the report is the one sorted permutation of the scores.

`Run.Analyze` runs the stages in the script's order. It is proved equal
to `Run.Pipeline`, the composition of the fold functions.

Scores are integers in ten-thousandths, the precision `round(x, 4)` keeps.
Bray-Curtis is computed exactly on the integer counts and rounded half to
even. The Matthews correlation is a parameter of the model (`mcc`).

Three behaviours of the script are easy to misread:

- **Labels.** The label of a `<rank>: <label>` line is the second
  `": "`-separated field (`split(": ")[1]`), not everything after the first
  separator. A line without `": "` ends the run.
- **The "no setting" check.** The run stops with "no setting" exactly when
  no label was recorded and the last setting name is empty. A file whose
  only block is `@@_` therefore stops the run, even though its one setting
  has the empty name.
- **Conservation.** Each setting's row summing to the total abundance is
  only guaranteed when:
  - setting names are distinct, because a repeated block re-seeds
    `UNMATCHED` but keeps the earlier counts;
  - no setting is named `exp`, because such a block overwrites the expected
    row.

## Model

| member | source | states |
|---|---|---|
| Lines.Fold | supplemental/scripts/train/metag-train.py:161 | definition: a `for line in file` loop whose body may end the run, as a left fold that stops at the first error |
| Text.Strip | supplemental/scripts/train/metag-train.py:164 | `str.strip(c)`: the result is the piece of the text that starts right after its leading `c` and is followed only by `c`; it has no `c` at either end, and a text with no `c` at its ends is left as it is |
| Text.Split | supplemental/scripts/train/metag-train.py:165 | `str.split(sep)`: at least one field, and no field contains the separator |
| Text.JoinSplit | supplemental/scripts/train/metag-train.py:165 | joining the fields of a split with the separator gives back the original text |
| Text.SplitJoin | supplemental/scripts/train/metag-train.py:185 | splitting a join of separator-free fields gives back exactly those fields |
| Text.Contains | supplemental/scripts/train/metag-train.py:202 | `re.search` on a literal pattern: the pattern occurs at some position of the name |
| Text.FindFrom | supplemental/scripts/train/metag-train.py:202 | the first occurrence at or after a position, or proof that there is none |
| Text.IndexOf | supplemental/scripts/train/metag-train.py:169 | `list.index`: the first position holding the item, or None exactly when the item is absent |
| Text.ParseInt | supplemental/scripts/train/metag-train.py:238 | `int()`: defined exactly on an optionally signed decimal numeral; its value is the digits' value, negated after a `-` sign |
| Text.ParseFormat | supplemental/scripts/train/metag-train.py:238 | `int(str(n)) == n` for every integer |
| Text.RemovePrefix | supplemental/scripts/train/metag-train.py:268 | `re.sub('^@@_', '', line, 1)`: drops the prefix when the line starts with it, otherwise no change |
| Text.NumeralOfFormat | supplemental/scripts/train/metag-train.py:361 | `str(n)` of a natural number reads back as n |
| Dicts.GetFacts | supplemental/scripts/train/metag-train.py:249 | a dictionary lookup finds a value exactly when the key is present, and the value is stored under that key |
| Dicts.PutFacts | supplemental/scripts/train/metag-train.py:190 | `d[k] = v`: a new key goes last and an old one keeps its place; k now maps to v and every other key is unchanged |
| Dicts.PutKeepsDistinct | supplemental/scripts/train/metag-train.py:203 | assignment never duplicates a key |
| Dicts.PutCells | supplemental/scripts/train/metag-train.py:288 | replacing a column's inner dictionary changes the cells of that column only |
| Dicts.RowSumPut | supplemental/scripts/train/metag-train.py:250 | a row's sum changes by the new cell minus the old one |
| Dicts.RowsPut | supplemental/scripts/train/metag-train.py:344 | the row keys of the frame after an assignment that keeps a column's keys are the old ones plus the new keys |
| Expectation.RankIndex | supplemental/scripts/train/metag-train.py:163-170 | the index of the first occurrence of the rank in the `@@ranks` list; the error when the list is missing and the error when the rank is absent, each exactly when it happens |
| Expectation.RankField | supplemental/scripts/train/metag-train.py:186 | `lineage.split(";")[idx]`; an error if no rank line came first or the lineage is too short |
| Expectation.RankFieldOfLineage | supplemental/scripts/train/metag-train.py:186 | the field at index i of a lineage written with `;` is its i-th label |
| Expectation.AddKey | supplemental/scripts/train/metag-train.py:180-182 | `negPatterns[line] = ""`: the patterns are the old ones plus the new one and nothing else |
| Expectation.PositiveRk | supplemental/scripts/train/metag-train.py:184-190 | a positive entry must have exactly two tab fields; yields the pattern and the label at the rank, NaN exactly for `0` |
| Expectation.PositiveRkEntry | supplemental/scripts/train/metag-train.py:184-190 | an entry written as pattern, tab, lineage is read back as that pattern and the label at the rank |
| Expectation.RkLoadStep | supplemental/scripts/train/metag-train.py:161-190 | definition: one expectation line in Rk mode: `@@ranks` sets the index through RankIndex, the section lines set the flag, an entry line goes to AddKey or through PositiveRk into the positive table; each case is stated by the Rk step lemmas below |
| Expectation.LoadRk | supplemental/scripts/train/metag-train.py:157-191 | definition: the Rk load, the line step folded over the file |
| Expectation.LoadRkRankAbsent | supplemental/scripts/train/metag-train.py:163-170 | an `@@ranks` line without the requested rank makes the whole load fail, whatever follows |
| Expectation.RkRanksStep | supplemental/scripts/train/metag-train.py:163-170 | an `@@ranks` line naming the rank sets the rank index and keeps the section flag and both tables |
| Expectation.RkRanksFails | supplemental/scripts/train/metag-train.py:163-170 | an `@@ranks` line without the rank (or without a second field) ends the load with that error |
| Expectation.RkSectionStep | supplemental/scripts/train/metag-train.py:172-178 | `@@negative` sets the section flag, `@@positive` clears it; the index and both tables are kept |
| Expectation.RkNegativeStep | supplemental/scripts/train/metag-train.py:180-182 | an entry line of a negative section adds its text, newline stripped, to the negative patterns and changes nothing else |
| Expectation.RkPositiveStep | supplemental/scripts/train/metag-train.py:184-190 | a well-formed entry line of a positive section stores its label under its pattern (`posPatterns[pattern] = lineage`) and changes nothing else |
| Expectation.RkPositiveFails | supplemental/scripts/train/metag-train.py:184-190 | a malformed entry line of a positive section ends the load with PositiveRk's error |
| Expectation.LastForMeaning | supplemental/scripts/train/metag-train.py:190 | what a run of `d[key] = value` leaves in `d[key]`: the value of an entry for the key that no later entry overrides, None exactly when no entry has the key |
| Expectation.LoadRkContents | supplemental/scripts/train/metag-train.py:157-191 | for a whole file that loads: a string is a negative pattern exactly when it is the stripped text of some entry line read in a negative section; each pattern's positive label is the last one the positive entry lines give it; the positive table lists the patterns in the order of their first positive entry lines |
| Expectation.LoadRkPositive | supplemental/scripts/train/metag-train.py:184-190 | for a whole file that loads: a pattern is a key of the positive table exactly when some positive entry line carries it, and its label is the one of such a line that no later line for the pattern overrides |
| Expectation.FirstKeysHas | supplemental/scripts/train/metag-train.py:190 | a key is listed in first-appearance order exactly when some assignment sets it |
| Expectation.FirstKeysOrder | supplemental/scripts/train/metag-train.py:190 | of two keys in first-appearance order, the earlier one is assigned before any assignment of the later one |
| Expectation.LoadRkOrder | supplemental/scripts/train/metag-train.py:184-190 | of two keys of the positive table, the earlier one has a positive entry line before every entry line of the later one, so the resolver's loop over `posPatterns` (line 208) tries patterns in the order they first appear in the file |
| Expectation.RkLoadPrefix | supplemental/scripts/train/metag-train.py:157-191 | the characterization of LoadRkContents holds after every prefix of the file that loads |
| Expectation.NegativeBc | supplemental/scripts/train/metag-train.py:236-238 | a negative count line is accepted exactly when it is an integer numeral |
| Expectation.PositiveBc | supplemental/scripts/train/metag-train.py:243-247 | a positive count entry needs two tab fields and an integer count; yields the taxon at the rank and the count |
| Expectation.PositiveBcEntry | supplemental/scripts/train/metag-train.py:243-247 | an entry written as a number, a tab and a lineage is read back as the taxon at the rank and that number |
| Expectation.SetCountFacts | supplemental/scripts/train/metag-train.py:249-252 | writing one count changes that cell only, and its row sum by the difference; the row becomes a row of the frame |
| Expectation.AddCountFacts | supplemental/scripts/train/metag-train.py:249-252 | `abunds[t][row] += n` (or a new cell n): that cell gains n, every other cell stays, and the row sum grows by n |
| Expectation.AddCountOthers | supplemental/scripts/train/metag-train.py:249-252 | adding to one taxon leaves every other taxon's counts unchanged |
| Expectation.BcRanksStep | supplemental/scripts/train/metag-train.py:219-226 | a rank line sets the rank index and changes nothing else |
| Expectation.BcRanksFails | supplemental/scripts/train/metag-train.py:219-226 | a rank line without the rank ends the load with the rank error |
| Expectation.BcSectionStep | supplemental/scripts/train/metag-train.py:228-234 | a section line sets the section flag and changes nothing else |
| Expectation.BcNegativeStep | supplemental/scripts/train/metag-train.py:236-242 | a negative count adds n to the total and to UNMATCHED's expected count |
| Expectation.BcPositiveStep | supplemental/scripts/train/metag-train.py:243-252 | a positive entry adds its count to the total and to its taxon's expected count |
| Expectation.BcNegativeFails | supplemental/scripts/train/metag-train.py:236-238 | a negative line that is not an integer ends the load |
| Expectation.BcPositiveFails | supplemental/scripts/train/metag-train.py:244-247 | a malformed positive entry ends the load with its error |
| Expectation.BcNegativeLine | supplemental/scripts/train/metag-train.py:236-242 | after a negative line, the total and UNMATCHED's expected count each grew by the line's integer, and no other taxon changed |
| Expectation.BcPositiveLine | supplemental/scripts/train/metag-train.py:243-252 | after a positive line, the total and the taxon's expected count each grew by the entry's count, and no other taxon changed |
| Expectation.BcLoadStep | supplemental/scripts/train/metag-train.py:217-252 | definition: one expectation line in Bray-Curtis mode; its cases are the Bc step lemmas |
| Expectation.LoadBc | supplemental/scripts/train/metag-train.py:215-252 | definition: the Bray-Curtis load, the line step folded over the file |
| Expectation.BcLoadStepKeeps | supplemental/scripts/train/metag-train.py:219-252 | every line keeps "total = sum of the exp row, and exp is the only row" |
| Expectation.BcLoadKeeps | supplemental/scripts/train/metag-train.py:216-252 | the invariant holds after any prefix of the file that loads |
| Expectation.LoadBcTotal | supplemental/scripts/train/metag-train.py:236-252 | the loaded `totalAbund` is the sum of all expected counts, and `exp` is the table's only row |
| Expectation.LoadBcCounts | supplemental/scripts/train/metag-train.py:236-252 | for a whole file that loads: `totalAbund` is the sum of the counts of every count line, negative and positive, which is the negative sum plus the positive sum; each taxon's `exp` count is the sum of the counts of the lines for it; negative lines count for UNMATCHED |
| Expectation.LoadBcUnmatched | supplemental/scripts/train/metag-train.py:236-242 | when no positive line's taxon is UNMATCHED, `abunds["UNMATCHED"]["exp"]` is the sum of the negative section's counts |
| Expectation.SumCountsSplit | supplemental/scripts/train/metag-train.py:238-248 | the sum of all counts is the negative sum plus the positive sum |
| Expectation.UnmatchedIsNegative | supplemental/scripts/train/metag-train.py:239-242 | when only negative lines count for UNMATCHED, UNMATCHED's sum is the negative sum |
| Expectation.BcLoadPrefix | supplemental/scripts/train/metag-train.py:215-252 | on every prefix that loads, the total and each taxon's `exp` count are the sums of the count lines read so far |
| Resolver.HeaderId | supplemental/scripts/train/metag-train.py:198-199 | definition: the read name of a header, `strip(">")` then `strip("\n")` |
| Resolver.ResolveStep | supplemental/scripts/train/metag-train.py:196-214 | definition: one query line; its cases are the Resolve step lemmas |
| Resolver.Resolve | supplemental/scripts/train/metag-train.py:193-214 | definition: the resolution, the step folded over the query file |
| Resolver.FirstMatch | supplemental/scripts/train/metag-train.py:201-211 | the position of a pattern occurring in the name, with no earlier one occurring; None exactly when none occurs |
| Resolver.ExpectedLabel | supplemental/scripts/train/metag-train.py:201-211 | NaN when any negative pattern matches; else the first matching positive pattern's label; None exactly when no pattern of either kind matches |
| Resolver.ResolveNegativeStep | supplemental/scripts/train/metag-train.py:201-205 | a header matched by a negative pattern gets the entry `{exp: NaN}` |
| Resolver.ResolvePositiveStep | supplemental/scripts/train/metag-train.py:206-211 | a header that no negative pattern matches gets the label of its first positive match |
| Resolver.ResolveUnknownStep | supplemental/scripts/train/metag-train.py:212-214 | a header that matches no pattern ends the run with the unexpected-read error |
| Resolver.StepFails | supplemental/scripts/train/metag-train.py:196-214 | one query line fails exactly when it is a header no pattern accounts for |
| Resolver.ResolveStepKeeps | supplemental/scripts/train/metag-train.py:196-211 | each header keeps the read table distinct-keyed, one entry per header, each holding only its expected label |
| Resolver.PutResolved | supplemental/scripts/train/metag-train.py:203 | adding a resolved entry keeps the table resolved, with the read added to its names |
| Resolver.PutEntriesResolved | supplemental/scripts/train/metag-train.py:209 | every entry after an assignment is an old entry or the new one |
| Resolver.ResolveEntries | supplemental/scripts/train/metag-train.py:193-214 | after a successful resolution the keys are exactly the header names, with no duplicates, and each entry is `{exp: expected label}` |
| Resolver.ResolveFails | supplemental/scripts/train/metag-train.py:193-214 | the resolution fails exactly when some header matches no pattern |
| Training.TrainingLine | supplemental/scripts/train/metag-train.py:266 | definition: a training line without its `\n` (line 304 alike) |
| Training.SettingOf | supplemental/scripts/train/metag-train.py:268 | definition: the setting name of an `@@` line, `@@_` removed once |
| Training.SettingNames | supplemental/scripts/train/metag-train.py:267-269 | definition: the setting names of the `@@` lines, in file order |
| Training.LabelOf | supplemental/scripts/train/metag-train.py:287 | `split(": ")[1]` fails exactly when the line has no `": "`; the label itself contains no `": "` |
| Training.LabelOfRankLine | supplemental/scripts/train/metag-train.py:281-287 | the line `<rank>: <taxon>` yields the taxon, when neither contains `": "` (single colons, as in `O157:H7`, are allowed) |
| Training.RkAssign | supplemental/scripts/train/metag-train.py:282-292 | definition: recording one label, with its two error cases |
| Training.RkAssignFacts | supplemental/scripts/train/metag-train.py:282-292 | the read error (read not in the table), the duplicate error (cell already set) and success, each exactly when it happens; on success exactly the (read, setting) cell is set, the reads are unchanged and `foundC` grows by one |
| Training.RkTrainStep | supplemental/scripts/train/metag-train.py:265-292 | definition: one training line in Rk mode; its cases are the Rk step lemmas |
| Training.TrainRk | supplemental/scripts/train/metag-train.py:259-296 | definition: the Rk parse, the step folded over the file, then the no-setting check |
| Training.RkSettingStep | supplemental/scripts/train/metag-train.py:267-270 | an `@@` line appends its setting and makes it current |
| Training.RkReadStep | supplemental/scripts/train/metag-train.py:273-275 | a `>` line inside a block makes that read current |
| Training.RkNoMatchStep | supplemental/scripts/train/metag-train.py:278-279 | a `No match` line inside a block clears the current read |
| Training.RkIgnoredStep | supplemental/scripts/train/metag-train.py:272-281 | lines outside a block, and in-block lines that are not a rank line for a read, change nothing |
| Training.RkRecordStep | supplemental/scripts/train/metag-train.py:281-289 | a rank line for a known read with an unset cell stores the label under the setting and counts it |
| Training.RkUnknownReadStep | supplemental/scripts/train/metag-train.py:290-292 | a label for a read not in the read table ends the run |
| Training.RkDuplicateStep | supplemental/scripts/train/metag-train.py:283-285 | a second label for a read in one setting ends the run |
| Training.RkNoLabelStep | supplemental/scripts/train/metag-train.py:287 | a rank line without `": "` ends the run |
| Training.RkNoMatchClears | supplemental/scripts/train/metag-train.py:278-281 | after `No match`, rank lines record nothing until the next read header |
| Training.RkRankLine | supplemental/scripts/train/metag-train.py:281 | a rank line for a current read inside a block is an assignment |
| Training.SettingsNext | supplemental/scripts/train/metag-train.py:267-269 | each `@@` line appends one setting name and makes it the current setting |
| Training.LastSettingListed | supplemental/scripts/train/metag-train.py:268-269 | the current setting is one of the listed settings |
| Training.NoSettingLast | supplemental/scripts/train/metag-train.py:263-269 | with no `@@` line the current setting is still empty |
| Training.RkTrainStepKeeps | supplemental/scripts/train/metag-train.py:265-292 | each line keeps: settings = the `@@` names so far, current = the last one, no label before a setting, and the table only gains cells in setting rows |
| Training.RkAssignExtends | supplemental/scripts/train/metag-train.py:288-289 | an assignment keeps every existing cell and adds one in a setting row |
| Training.RkTrainKeeps | supplemental/scripts/train/metag-train.py:261-292 | the invariant holds after any prefix that parses |
| Training.TrainRkResult | supplemental/scripts/train/metag-train.py:259-296 | success returns as settings exactly the `@@` names in order, at least one; the exp labels and read set are unchanged and new cells lie only in setting rows |
| Training.RkIgnoredUntilSetting | supplemental/scripts/train/metag-train.py:272 | lines before the first `@@` line change nothing |
| Training.TrainRkNoSetting | supplemental/scripts/train/metag-train.py:294-296 | a file with no `@@` line ends the run with the no-setting error |
| Training.BcTrainStep | supplemental/scripts/train/metag-train.py:303-332 | definition: one training line in Bray-Curtis mode |
| Training.TrainBc | supplemental/scripts/train/metag-train.py:297-336 | definition: the Bray-Curtis parse, the step folded over the file, then the no-setting check |
| Training.BcOpen | supplemental/scripts/train/metag-train.py:305-314 | a block appends its setting and seeds UNMATCHED's cell for it with the total; no other cell changes |
| Training.BcMove | supplemental/scripts/train/metag-train.py:317-332 | a rank line adds one to the taxon's cell and takes one from UNMATCHED's cell for the setting, and counts it |
| Training.BcMoveSums | supplemental/scripts/train/metag-train.py:317-332 | moving a read changes no row sum and no cell outside the taxon and UNMATCHED |
| Training.BcTrainStepKeeps | supplemental/scripts/train/metag-train.py:303-332 | each line keeps the setting list, the current setting, and a present UNMATCHED cell for the current setting, so `-= 1` never fails |
| Training.BcTrainKeeps | supplemental/scripts/train/metag-train.py:298-332 | the parser invariant holds after any prefix that parses |
| Training.BcOpenConserves | supplemental/scripts/train/metag-train.py:308-313 | a new setting (not a repeat, not `exp`) starts with a row summing to the total |
| Training.BcMoveConserves | supplemental/scripts/train/metag-train.py:320-332 | moving a read keeps every setting's row sum at the total and the exp row as loaded |
| Training.BcTrainStepConserves | supplemental/scripts/train/metag-train.py:303-332 | any one line keeps conservation |
| Training.SettingNamesLast | supplemental/scripts/train/metag-train.py:305-307 | distinct setting names stay distinct on every prefix, and the last one is new |
| Training.BcTrainConserves | supplemental/scripts/train/metag-train.py:298-333 | with distinct settings none called `exp`, every setting row sums to the total and the `exp` counts are as loaded |
| Training.BcIgnoredUntilSetting | supplemental/scripts/train/metag-train.py:316 | lines before the first `@@` line change nothing |
| Training.TrainBcNoSetting | supplemental/scripts/train/metag-train.py:334-336 | a file with no `@@` line ends the run with the no-setting error |
| Training.TrainBcResult | supplemental/scripts/train/metag-train.py:297-336 | success returns the `@@` names in order, at least one; with distinct settings none called `exp`, each setting's counts sum to the total and the exp cells are unchanged; with no setting called `exp`, repeated or not, the exp cells are unchanged |
| Training.BcTrainExpKept | supplemental/scripts/train/metag-train.py:297-332 | when no `@@` line is named `exp`, the parse leaves every expected count as loaded, even when setting names repeat |
| Scoring.FilledLabel | supplemental/scripts/train/metag-train.py:347 | `fillna("unclassified")`: a set label stays, NaN and a missing cell become `unclassified` |
| Scoring.LabelRow | supplemental/scripts/train/metag-train.py:344-349 | `df.loc[row]`: one filled label per read, in table order |
| Scoring.CountRow | supplemental/scripts/train/metag-train.py:366-371 | `fillna(0).loc[row]`: one count per taxon, in table order, 0 where missing |
| Scoring.CountRowSum | supplemental/scripts/train/metag-train.py:366-371 | the filled row adds up to the row sum of the table |
| Scoring.RkScore | supplemental/scripts/train/metag-train.py:352-355 | a setting with no row is a KeyError; otherwise its score is `mcc(exp row, setting row)` |
| Scoring.RkScores | supplemental/scripts/train/metag-train.py:341-356 | definition: the `exp` lookup, then the scoring loop; its meaning is RkScoresMeaning |
| Scoring.RkScoreFold | supplemental/scripts/train/metag-train.py:351-355 | the scoring loop fails exactly when some setting has no row; on success it holds one (setting, mcc) pair per setting, in order |
| Scoring.RkScoresMeaning | supplemental/scripts/train/metag-train.py:341-355 | the Rk scores fail exactly when `exp` or some setting has no row, and otherwise pair each setting with its score, in setting order |
| Scoring.RoundHalfEven | supplemental/scripts/train/metag-train.py:376 | the nearest integer to n / d, ties to the even one |
| Scoring.RoundWhole | supplemental/scripts/train/metag-train.py:376 | a whole quotient is its own rounding |
| Scoring.RoundUnit | supplemental/scripts/train/metag-train.py:376 | rounding a quotient in [0, k] stays in [0, k] |
| Scoring.Dissimilarity | supplemental/scripts/train/metag-train.py:374-376 | `round(braycurtis(u, v), 4)`: within half a unit of `10000 * sum|u - v| / sum|u + v|`; undefined exactly when the denominator is 0 |
| Scoring.DiffWithinSum | supplemental/scripts/train/metag-train.py:374 | on counts, `sum|u - v|` is between 0 and `sum|u + v|` |
| Scoring.Similarity | supplemental/scripts/train/metag-train.py:376 | `1 - round(bc, 4)`: adds up with the dissimilarity to 1 (10000) |
| Scoring.SimilarityBounds | supplemental/scripts/train/metag-train.py:374-376 | the similarity of count rows lies in [0, 1] |
| Scoring.SimilaritySelf | supplemental/scripts/train/metag-train.py:374-376 | a row compared with itself scores 1 |
| Scoring.SimilaritySymmetric | supplemental/scripts/train/metag-train.py:374-376 | the score does not depend on the order of the two rows |
| Scoring.SumSumZero | supplemental/scripts/train/metag-train.py:374 | the Bray-Curtis denominator is 0 exactly when both count rows are all zeros |
| Scoring.BcScore | supplemental/scripts/train/metag-train.py:373-377 | fails exactly when the setting has no row or its counts and the `exp` counts add up to 0; a missing row is `MissingRow`, otherwise the setting is paired with its similarity |
| Scoring.BcScores | supplemental/scripts/train/metag-train.py:363-377 | definition: the `exp` lookup, then the scoring loop; its meaning is BcScoresMeaning |
| Scoring.BcScoreFold | supplemental/scripts/train/metag-train.py:372-377 | the scoring loop fails exactly when some setting has no row or a zero Bray-Curtis denominator; on success, one (setting, similarity) pair per setting, in order |
| Scoring.BcScoresMeaning | supplemental/scripts/train/metag-train.py:363-377 | the Bray-Curtis scores fail exactly when `exp` is missing or some setting cannot be scored, a missing `exp` first; success pairs every setting with its similarity in setting order |
| Ranking.LexLeTotal | supplemental/scripts/train/metag-train.py:359 | Python's string order is total |
| Ranking.LexLeAntisymmetric | supplemental/scripts/train/metag-train.py:359 | two strings that are each at most the other are equal |
| Ranking.LexLeTransitive | supplemental/scripts/train/metag-train.py:359 | Python's string order is transitive |
| Ranking.RanksBeforeTotal | supplemental/scripts/train/metag-train.py:359 | the key (-score, setting) orders any two pairs |
| Ranking.RanksBeforeTransitive | supplemental/scripts/train/metag-train.py:359 | the key order is transitive |
| Ranking.RanksBeforeAntisymmetric | supplemental/scripts/train/metag-train.py:359 | pairs that precede each other are equal |
| Ranking.Insert | supplemental/scripts/train/metag-train.py:359 | inserting into a sorted ranking keeps it sorted and adds exactly that pair |
| Ranking.Ranked | supplemental/scripts/train/metag-train.py:359 | `sorted(key = (-score, setting))`: a sorted permutation of the pairs |
| Ranking.RankingUnique | supplemental/scripts/train/metag-train.py:359 | two sorted arrangements of the same pairs are equal, so the ranking is the one `sorted` returns |
| Ranking.FormatScore | supplemental/scripts/train/metag-train.py:361 | `str(score)` is non-empty and contains no tab or newline, so an output line keeps its two fields |
| Ranking.FormatScoreMeaning | supplemental/scripts/train/metag-train.py:354-361 | `str(round(x, 4))`: a `-` exactly for a negative score, then the integer part of the magnitude, a point and its four places written shortest |
| Ranking.ScoreBodyMeaning | supplemental/scripts/train/metag-train.py:361 | the unsigned text starts with a digit and splits at its one point into the integer part and the shortest fraction |
| Ranking.FractionValue | supplemental/scripts/train/metag-train.py:361 | the fraction digits of a value below 10^width: at most width digits, their value scaled to width places is the value, and no trailing zero unless it is `0` |
| Ranking.FractionDigitsValue | supplemental/scripts/train/metag-train.py:361 | width digits written for a value below 10^width read back as that value |
| Ranking.Report | supplemental/scripts/train/metag-train.py:360-361 | one output line per pair |
| Ranking.ReportLineFields | supplemental/scripts/train/metag-train.py:361 | an output line splits at its tab into the setting and the formatted score |
| Ranking.ReportOrder | supplemental/scripts/train/metag-train.py:358-361 | the i-th line reports the i-th pair of the sorted permutation of the scores |
| Run.FirstMatching | supplemental/scripts/train/metag-train.py:201-211 | the `for pattern …: if re.search: break` loop finds the first matching pattern, or none |
| Run.RunContext.LoadRkExpectation | supplemental/scripts/train/metag-train.py:157-191 | the pattern fields end as the Rk load gives them, or the method fails with the load's error |
| Run.RunContext.ResolveReads | supplemental/scripts/train/metag-train.py:193-214 | the read table ends as the resolution gives it, or the method fails with its error |
| Run.RunContext.ResolveLine | supplemental/scripts/train/metag-train.py:196-214 | one query line updates the read table as the resolver step does |
| Run.RunContext.LoadBcExpectation | supplemental/scripts/train/metag-train.py:215-252 | `totalAbund` and `abunds` end as the Bray-Curtis load gives them, or the method fails with its error |
| Run.RunContext.LoadBcLine | supplemental/scripts/train/metag-train.py:219-252 | one expectation line updates the rank index, the section, the total and the counts as the load step does |
| Run.RunContext.LoadBcCount | supplemental/scripts/train/metag-train.py:236-252 | one count line updates the state as the load step does |
| Run.RunContext.LoadBcNegative | supplemental/scripts/train/metag-train.py:236-242 | one negative count line updates the state as the load step does |
| Run.RunContext.LoadBcPositive | supplemental/scripts/train/metag-train.py:243-252 | one positive count line updates the state as the load step does |
| Run.RunContext.AddExpected | supplemental/scripts/train/metag-train.py:248-252 | the total and the taxon's expected count both grow by n |
| Run.RunContext.ParseTrainingRk | supplemental/scripts/train/metag-train.py:259-296 | the settings and the read table end as the Rk training parse gives them, including the no-setting error |
| Run.RunContext.ParseTrainingRkLine | supplemental/scripts/train/metag-train.py:265-292 | one training line updates the state as the Rk parser step does |
| Run.RunContext.ParseBlockLine | supplemental/scripts/train/metag-train.py:272-292 | an in-block line updates the current read, or records a label, as the step does |
| Run.RunContext.ParseLabelLine | supplemental/scripts/train/metag-train.py:280-292 | a rank line for the current read records its label; other lines change nothing |
| Run.RunContext.RecordLabel | supplemental/scripts/train/metag-train.py:281-292 | fills the (read, setting) cell, or fails with the step's error and leaves the table as it was |
| Run.RunContext.ParseTrainingBc | supplemental/scripts/train/metag-train.py:297-336 | the settings and the counts end as the Bray-Curtis training parse gives them, including the no-setting error |
| Run.RunContext.ScoreRk | supplemental/scripts/train/metag-train.py:341-356 | the loop computes the Rk scores of the settings in order |
| Run.RunContext.ScoreBc | supplemental/scripts/train/metag-train.py:363-377 | the loop computes the Bray-Curtis similarities of the settings in order |
| Run.Pipeline | supplemental/scripts/train/metag-train.py:157-383 | definition: the whole run as the composition of the load, resolve, parse, score and report functions |
| Run.Analyze | supplemental/scripts/train/metag-train.py:157-383 | running the stages on a fresh state yields exactly the report of the whole-run function, or its error |
| Run.PipelineReport | supplemental/scripts/train/metag-train.py:357-383 | a successful run prints one line per setting block, and at least one |
| Run.PipelineBcConservation | supplemental/scripts/train/metag-train.py:236-336 | with distinct settings none called `exp`, the total abundance is the sum of the expected counts, and every setting's filled row adds up to it |

## Left out

- **Command line, I/O and exit codes.** The command line, file opening and
  `print` are not modelled. Files are sequences of lines, each keeping its
  `\n`. Each `sys.exit(1)` is an `Err` of `Common.Error`.
- **Regular expressions.** `re.match('^…')` is a literal prefix test and
  `re.search(pattern, id)` a literal substring test. Patterns, and a rank
  name, that use regular-expression syntax are not interpreted.
- **The Matthews correlation** (`sklearn.metrics.matthews_corrcoef`) is the
  parameter `mcc`, which is assumed to return its score already rounded to
  `round(rk, 4)`. Its arithmetic is not modelled.
- **Floating point.**
  - Scores are exact ten-thousandths rounded half to even. This can
    disagree with `round` on the binary float in a tie that the float
    cannot represent.
  - `Ranking.FormatScore` writes `1 - round(bc, 4)` as its exact decimal.
    Python's float subtraction can print extra digits, such as
    `0.30000000000000004`. A similarity below 0.0001 prints in exponent
    form: with `round(bc, 4) == 0.9999`, `1 - round(bc, 4)` prints as
    `9.99...e-05`, where `Ranking.FormatScore` writes `0.0001`.
  - `round(rk, 4)` of a small negative correlation is `-0.0`, which the
    script prints as `-0.0` (lines 354 and 361). The model's score is the
    integer 0 and prints as `0.0`.
- **NaN scores.** `scipy`'s Bray-Curtis of two all-zero rows is NaN, and the
  script would go on and print it. The model stops with
  `UndefinedScore` instead, because the order `sorted` gives to NaN keys is
  not defined.
- **`int()`** accepts only an optional sign and ASCII digits, not the
  surrounding whitespace, underscores or other Unicode digits Python also
  allows.
- **pandas** is modelled only as far as the script uses it. The frame's
  rows are the keys some inner dictionary holds, so `df.loc` on any other
  key is `MissingRow`. The fill values are `unclassified` and 0.
- **Training.BcTrainConserves and Run.PipelineBcConservation** state
  conservation only for distinct setting names none of which is `exp`. With
  a repeated setting or one named `exp`, the script breaks conservation
  itself.
- `parse-genbank_ATCC_sim.py` and the rest of the repository are not part
  of this model.
