/** The training output (metag-train.py, lines 259-336): the classifier's
    output for every parameter setting tried, one block per setting. An
    "@@<name>" line opens a block; its setting is the name with one leading
    "@@_" removed. Lines before the first block are ignored. In Rk mode a
    ">read" line makes that read current, a "No match" line clears it, and a
    "<rank>: <label>" line records the label of the current read for the
    current setting in the read table. In Bray-Curtis mode every
    "<rank>: <taxon>" line moves one read of the current setting from the
    UNMATCHED taxon, seeded with the total abundance, to that taxon. */
module Training {
  import opened Common
  import opened Text
  import opened Dicts
  import opened Lines
  import opened Expectation
  import opened Resolver

  /** A training line as the script reads it: `line.strip("\n")`. */
  function TrainingLine(raw: string): string {
    Strip(raw, '\n')
  }

  predicate IsSettingLine(raw: string) {
    StartsWith(TrainingLine(raw), "@@")
  }

  /** `re.sub('^@@_', '', line, 1)`: the setting a block line opens. */
  function SettingOf(raw: string): string {
    RemovePrefix(TrainingLine(raw), "@@_")
  }

  /** The settings of a training file, one per block line, in file order. */
  function SettingNames(lines: seq<string>): seq<string>
    decreases |lines|
  {
    if lines == [] then []
    else
      var before := SettingNames(lines[..|lines| - 1]);
      if IsSettingLine(lines[|lines| - 1]) then before + [SettingOf(lines[|lines| - 1])] else before
  }

  /** The setting of the block the file ends in; "" before the first block. */
  function LastSetting(lines: seq<string>): string
    decreases |lines|
  {
    if lines == [] then ""
    else if IsSettingLine(lines[|lines| - 1]) then SettingOf(lines[|lines| - 1])
    else LastSetting(lines[..|lines| - 1])
  }

  /** `re.match('^' + rank + ':', line)`, the rank read as literal text. */
  predicate IsRankLine(rank: string, line: string) {
    StartsWith(line, rank + ":")
  }

  /** `line.split(": ")[1]`: the second ": "-separated field of a rank line. */
  function LabelOf(line: string): (r: Result<string>)
    ensures r.Err? <==> !Contains(line, ": ")
    ensures r.Err? ==> r == Err(MissingLabel(line))
    ensures r.Ok? ==> !Contains(r.value, ": ")
  {
    var fields := Split(line, ": ");
    if |fields| < 2 then Err(MissingLabel(line)) else Ok(fields[1])
  }

  /** The label of a line written as rank, ": " and label, when neither of
      them holds ": " (a colon alone, as in "O157:H7", is allowed). */
  lemma LabelOfRankLine(rank: string, taxon: string)
    requires !Contains(rank, ": ") && !Contains(taxon, ": ")
    ensures LabelOf(rank + ": " + taxon) == Ok(taxon)
  {
    var line := rank + ": " + taxon;
    assert OccursAt(line, ": ", |rank|) by {
      assert line[|rank|..|rank| + 2] == ": ";
    }
    forall j: nat | j < |rank| ensures !OccursAt(line, ": ", j) {
      if j + 2 <= |rank| {
        assert line[j..j + 2] == rank[j..j + 2];
        assert !OccursAt(rank, ": ", j);
      } else {
        assert line[j..j + 2][1] == line[|rank|] == ':';
      }
    }
    FindFirstIs(line, ": ", |rank|);
    assert line[|rank| + 2..] == taxon;
    assert Split(taxon, ": ") == [taxon];
    assert line[..|rank|] == rank;
  }

  // ---------------------------------------------------------------- Rk mode

  /** The loop state of the Rk parser: the settings so far, the read table,
      the current setting and read, and `foundC`. */
  datatype RkTrainer = RkTrainer(settings: seq<string>, table: Reads, setting: string, readId: string, found: nat)

  /** A rank line for the current read in the current setting:
      `reads[readId][setting] = line.split(": ")[1]`. */
  function RkAssign(st: RkTrainer, line: string): Result<RkTrainer> {
    match Get(st.table, st.readId)
    case None => Err(UnexpectedTrainingRead(st.readId))
    case Some(m) =>
      if st.setting in m then Err(DuplicateClassification(st.readId, st.setting))
      else
        var text :- LabelOf(line);
        Ok(st.(table := Put(st.table, st.readId, m[st.setting := Some(text)]), found := st.found + 1))
  }

  /** An assignment fails for a read the table does not hold and for a cell
      already filled; otherwise it fills exactly the (read, setting) cell with
      the line's label, keeps the reads and counts one rank line more. */
  lemma RkAssignFacts(st: RkTrainer, line: string)
    ensures var r := RkAssign(st, line);
      && (r == Err(UnexpectedTrainingRead(st.readId)) <==> st.readId !in Keys(st.table))
      && (r == Err(DuplicateClassification(st.readId, st.setting)) <==>
          st.readId in Keys(st.table) && Cell(st.table, st.readId, st.setting).Some?)
      && (r.Ok? <==> st.readId in Keys(st.table) && Cell(st.table, st.readId, st.setting).None? && LabelOf(line).Ok?)
    ensures var r := RkAssign(st, line);
      r.Ok? ==> var t := r.value.table;
      && Keys(t) == Keys(st.table)
      && Cell(t, st.readId, st.setting) == Some(Some(LabelOf(line).value))
      && (forall c, row :: c != st.readId || row != st.setting ==> Cell(t, c, row) == Cell(st.table, c, row))
      && r.value.settings == st.settings && r.value.setting == st.setting
      && r.value.readId == st.readId && r.value.found == st.found + 1
  {
    var cur := Get(st.table, st.readId);
    GetFacts(st.table, st.readId);
    if cur.Some? {
      var m := cur.value;
      if st.setting !in m && LabelOf(line).Ok? {
        var text := LabelOf(line).value;
        var m' := m[st.setting := Some(text)];
        PutCells(st.table, st.readId, m');
        PutKeys(st.table, st.readId, m');
      }
    }
  }

  /** One line of the training output in Rk mode. */
  function RkTrainStep(rank: string, st: RkTrainer, raw: string): Result<RkTrainer> {
    var line := TrainingLine(raw);
    if StartsWith(line, "@@") then
      var s := SettingOf(raw);
      Ok(st.(settings := st.settings + [s], setting := s))
    else if st.setting == "" then Ok(st)
    else if StartsWith(line, ">") then Ok(st.(readId := Strip(line, '>')))
    else if StartsWith(line, "No match") then Ok(st.(readId := ""))
    else if st.readId != "" && IsRankLine(rank, line) then RkAssign(st, line)
    else Ok(st)
  }

  function RkTrainSteps(rank: string): (RkTrainer, string) -> Result<RkTrainer> {
    (st, raw) => RkTrainStep(rank, st, raw)
  }

  function RkTrainStart(table: Reads): RkTrainer {
    RkTrainer([], table, "", "", 0)
  }

  /** The settings and the completed read table of a training output (Rk mode). */
  function TrainRk(rank: string, table: Reads, lines: seq<string>): Result<(seq<string>, Reads)> {
    var st :- Fold(RkTrainSteps(rank), RkTrainStart(table), lines);
    if st.found == 0 && st.setting == "" then Err(NoSetting) else Ok((st.settings, st.table))
  }

  /** The Rk step on raw succeeds, leaving the given parser state. */
  predicate RkStepYields(rank: string, st: RkTrainer, raw: string,
                         settings: seq<string>, table: Reads, setting: string, readId: string, found: nat) {
    var r := RkTrainStep(rank, st, raw);
    && r.Ok? && r.value.settings == settings && r.value.table == table
    && r.value.setting == setting && r.value.readId == readId && r.value.found == found
  }

  /** One line of the training output more, in Rk mode. */
  lemma RkTrainNext(rank: string, table0: Reads, lines: seq<string>, i: nat, st: RkTrainer)
    requires i < |lines| && Fold(RkTrainSteps(rank), RkTrainStart(table0), lines[..i]) == Ok(st)
    requires RkTrainStep(rank, st, lines[i]).Ok?
    ensures Fold(RkTrainSteps(rank), RkTrainStart(table0), lines[..i + 1]) == Ok(RkTrainStep(rank, st, lines[i]).value)
  {
    assert RkTrainSteps(rank)(st, lines[i]) == RkTrainStep(rank, st, lines[i]);
    FoldOk(RkTrainSteps(rank), RkTrainStart(table0), lines, i, st, RkTrainStep(rank, st, lines[i]).value);
  }

  /** A line whose step fails ends the Rk parse with that failure. */
  lemma RkTrainFailsAt(rank: string, table0: Reads, lines: seq<string>, i: nat, st: RkTrainer, e: Error)
    requires i < |lines| && Fold(RkTrainSteps(rank), RkTrainStart(table0), lines[..i]) == Ok(st)
    requires RkTrainStep(rank, st, lines[i]) == Err(e)
    ensures Fold(RkTrainSteps(rank), RkTrainStart(table0), lines) == Err(e)
  {
    assert RkTrainSteps(rank)(st, lines[i]) == RkTrainStep(rank, st, lines[i]);
    FoldFailsAt(RkTrainSteps(rank), RkTrainStart(table0), lines, i);
  }

  /** A block line appends its setting and makes it current. */
  lemma RkSettingStep(rank: string, st: RkTrainer, raw: string)
    requires IsSettingLine(raw)
    ensures RkTrainStep(rank, st, raw) == Ok(RkTrainer(st.settings + [SettingOf(raw)], st.table, SettingOf(raw), st.readId, st.found))
  {
  }

  /** Inside a block a ">read" line makes that read current. */
  lemma RkReadStep(rank: string, st: RkTrainer, raw: string)
    requires !IsSettingLine(raw) && st.setting != "" && StartsWith(TrainingLine(raw), ">")
    ensures RkTrainStep(rank, st, raw) == Ok(RkTrainer(st.settings, st.table, st.setting, Strip(TrainingLine(raw), '>'), st.found))
  {
  }

  /** Inside a block a "No match" line clears the current read. */
  lemma RkNoMatchStep(rank: string, st: RkTrainer, raw: string)
    requires !IsSettingLine(raw) && st.setting != "" && !StartsWith(TrainingLine(raw), ">")
    requires StartsWith(TrainingLine(raw), "No match")
    ensures RkTrainStep(rank, st, raw) == Ok(RkTrainer(st.settings, st.table, st.setting, "", st.found))
  {
  }

  /** Any other line outside a block, without a current read or not of the
      rank changes nothing. */
  lemma RkIgnoredStep(rank: string, st: RkTrainer, raw: string)
    requires !IsSettingLine(raw)
    requires st.setting == "" ||
             (!StartsWith(TrainingLine(raw), ">") && !StartsWith(TrainingLine(raw), "No match") &&
              (st.readId == "" || !IsRankLine(rank, TrainingLine(raw))))
    ensures RkTrainStep(rank, st, raw) == Ok(st)
  {
  }

  /** The conditions of a rank line that reaches `RkAssign`. */
  predicate RkRecording(rank: string, st: RkTrainer, raw: string) {
    && !IsSettingLine(raw) && st.setting != "" && st.readId != ""
    && !StartsWith(TrainingLine(raw), ">") && !StartsWith(TrainingLine(raw), "No match")
    && IsRankLine(rank, TrainingLine(raw))
  }

  /** A rank line for a read with no label yet in the current setting records the label. */
  lemma RkRecordStep(rank: string, st: RkTrainer, raw: string, m: map<string, Label>, text: string)
    requires RkRecording(rank, st, raw)
    requires Get(st.table, st.readId) == Some(m) && st.setting !in m && LabelOf(TrainingLine(raw)) == Ok(text)
    ensures RkStepYields(rank, st, raw, st.settings, Put(st.table, st.readId, m[st.setting := Some(text)]),
                         st.setting, st.readId, st.found + 1)
  {
    assert RkTrainStep(rank, st, raw) == RkAssign(st, TrainingLine(raw));
  }

  /** A rank line for a read the read table does not hold ends the run. */
  lemma RkUnknownReadStep(rank: string, st: RkTrainer, raw: string)
    requires RkRecording(rank, st, raw) && Get(st.table, st.readId).None?
    ensures RkTrainStep(rank, st, raw) == Err(UnexpectedTrainingRead(st.readId))
  {
  }

  /** A second rank line for the same read in the same setting ends the run. */
  lemma RkDuplicateStep(rank: string, st: RkTrainer, raw: string, m: map<string, Label>)
    requires RkRecording(rank, st, raw) && Get(st.table, st.readId) == Some(m) && st.setting in m
    ensures RkTrainStep(rank, st, raw) == Err(DuplicateClassification(st.readId, st.setting))
  {
  }

  /** A rank line without a ": " field ends the run. */
  lemma RkNoLabelStep(rank: string, st: RkTrainer, raw: string, m: map<string, Label>)
    requires RkRecording(rank, st, raw) && Get(st.table, st.readId) == Some(m) && st.setting !in m
    requires LabelOf(TrainingLine(raw)).Err?
    ensures RkTrainStep(rank, st, raw) == Err(LabelOf(TrainingLine(raw)).error)
  {
  }

  /** What the table keeps through the parse: the same reads in the same
      order, every cell it had, and new cells only in the rows of settings. */
  ghost predicate Extends(before: Reads, after: Reads, rows: seq<string>) {
    && Keys(after) == Keys(before)
    && (forall c, row :: Cell(before, c, row).Some? ==> Cell(after, c, row) == Cell(before, c, row))
    && (forall c, row :: Cell(after, c, row).Some? && Cell(before, c, row).None? ==> row in rows)
  }

  /** The parser state after a prefix of the file. */
  ghost predicate RkTrained(table0: Reads, lines: seq<string>, st: RkTrainer) {
    && st.settings == SettingNames(lines)
    && st.setting == LastSetting(lines)
    && (SettingNames(lines) == [] ==> st.found == 0)
    && Extends(table0, st.table, st.settings)
  }

  lemma RkTrainStepKeeps(rank: string, table0: Reads, lines: seq<string>, st: RkTrainer, raw: string)
    requires RkTrained(table0, lines, st) && RkTrainStep(rank, st, raw).Ok?
    ensures RkTrained(table0, lines + [raw], RkTrainStep(rank, st, raw).value)
  {
    SettingsNext(lines, raw);
    var st' := RkTrainStep(rank, st, raw).value;
    var line := TrainingLine(raw);
    if IsSettingLine(raw) {
      RkSettingStep(rank, st, raw);
      ExtendsMoreRows(table0, st.table, st.settings, [SettingOf(raw)]);
    } else if st.setting != "" && st.readId != "" && !StartsWith(line, ">") && !StartsWith(line, "No match") && IsRankLine(rank, line) {
      assert SettingNames(lines) != [] by {
        if SettingNames(lines) == [] {
          NoSettingLast(lines);
        }
      }
      LastSettingListed(lines);
      assert st' == RkAssign(st, line).value;
      RkAssignExtends(table0, st, line);
    } else {
      assert st'.table == st.table && st'.settings == st.settings && st'.setting == st.setting && st'.found == st.found;
    }
  }

  /** Extending a table stays an extension when more rows are allowed. */
  lemma ExtendsMoreRows(before: Reads, after: Reads, rows: seq<string>, more: seq<string>)
    requires Extends(before, after, rows)
    ensures Extends(before, after, rows + more)
  {
  }

  /** A recorded label keeps the table an extension, when its setting is one of the rows. */
  lemma RkAssignExtends(table0: Reads, st: RkTrainer, line: string)
    requires Extends(table0, st.table, st.settings) && st.setting in st.settings && RkAssign(st, line).Ok?
    ensures Extends(table0, RkAssign(st, line).value.table, st.settings)
    ensures RkAssign(st, line).value.settings == st.settings && RkAssign(st, line).value.setting == st.setting
    ensures RkAssign(st, line).value.found == st.found + 1
  {
    RkAssignFacts(st, line);
  }

  /** Reading one more line: a block line adds its setting and makes it current. */
  lemma SettingsNext(lines: seq<string>, raw: string)
    ensures SettingNames(lines + [raw]) == SettingNames(lines) + (if IsSettingLine(raw) then [SettingOf(raw)] else [])
    ensures LastSetting(lines + [raw]) == if IsSettingLine(raw) then SettingOf(raw) else LastSetting(lines)
  {
    assert (lines + [raw])[..|lines|] == lines;
  }

  /** A file with no block line ends outside every block. */
  lemma {:induction false} NoSettingLast(lines: seq<string>)
    decreases |lines|
    requires SettingNames(lines) == []
    ensures LastSetting(lines) == ""
  {
    if lines != [] {
      NoSettingLast(lines[..|lines| - 1]);
    }
  }

  /** The current setting, when there is one, is one of the listed settings. */
  lemma {:induction false} LastSettingListed(lines: seq<string>)
    decreases |lines|
    ensures SettingNames(lines) != [] ==> LastSetting(lines) in SettingNames(lines)
  {
    if lines != [] && !IsSettingLine(lines[|lines| - 1]) {
      LastSettingListed(lines[..|lines| - 1]);
    }
  }

  lemma {:induction false} RkTrainKeeps(rank: string, table0: Reads, lines: seq<string>)
    decreases |lines|
    requires Fold(RkTrainSteps(rank), RkTrainStart(table0), lines).Ok?
    ensures RkTrained(table0, lines, Fold(RkTrainSteps(rank), RkTrainStart(table0), lines).value)
  {
    if lines != [] {
      var prefix := lines[..|lines| - 1];
      RkTrainKeeps(rank, table0, prefix);
      ButLast(lines);
      RkTrainStepKeeps(rank, table0, prefix, Fold(RkTrainSteps(rank), RkTrainStart(table0), prefix).value, lines[|lines| - 1]);
    }
  }

  /** A successful parse reports the settings of the block lines in file
      order, at least one of them, keeps every read and every label it was
      given (the expected ones among them), and adds labels only in the rows
      of settings. */
  lemma TrainRkResult(rank: string, table0: Reads, lines: seq<string>)
    requires TrainRk(rank, table0, lines).Ok?
    ensures TrainRk(rank, table0, lines).value.0 == SettingNames(lines) != []
    ensures Extends(table0, TrainRk(rank, table0, lines).value.1, SettingNames(lines))
  {
    RkTrainKeeps(rank, table0, lines);
    var st := Fold(RkTrainSteps(rank), RkTrainStart(table0), lines).value;
    if SettingNames(lines) == [] {
      NoSettingLast(lines);
    }
  }

  /** Outside every block a line changes nothing. */
  lemma {:induction false} RkIgnoredUntilSetting(rank: string, table0: Reads, lines: seq<string>)
    decreases |lines|
    requires forall k :: 0 <= k < |lines| ==> !IsSettingLine(lines[k])
    ensures Fold(RkTrainSteps(rank), RkTrainStart(table0), lines) == Ok(RkTrainStart(table0))
  {
    if lines != [] {
      RkIgnoredUntilSetting(rank, table0, lines[..|lines| - 1]);
    }
  }

  /** A training output without a block line ends the run. */
  lemma TrainRkNoSetting(rank: string, table0: Reads, lines: seq<string>)
    requires forall k :: 0 <= k < |lines| ==> !IsSettingLine(lines[k])
    ensures TrainRk(rank, table0, lines) == Err(NoSetting)
  {
    RkIgnoredUntilSetting(rank, table0, lines);
  }

  /** After "No match" no rank line records anything until the next read. */
  lemma RkNoMatchClears(rank: string, st: RkTrainer, raw: string, next: string)
    requires st.setting != "" && !IsSettingLine(raw) && !StartsWith(TrainingLine(raw), ">")
    requires StartsWith(TrainingLine(raw), "No match")
    requires !IsSettingLine(next) && !StartsWith(TrainingLine(next), ">")
    ensures RkTrainStep(rank, st, raw) == Ok(st.(readId := ""))
    ensures RkTrainStep(rank, st.(readId := ""), next) == Ok(st.(readId := ""))
  {
  }

  /** A rank line inside a block with a current read fills exactly the
      (read, setting) cell, or ends the run when the read is unknown or the
      cell is already filled. */
  lemma RkRankLine(rank: string, st: RkTrainer, raw: string)
    requires st.setting != "" && st.readId != ""
    requires IsRankLine(rank, TrainingLine(raw)) && !IsSettingLine(raw)
    requires !StartsWith(TrainingLine(raw), ">") && !StartsWith(TrainingLine(raw), "No match")
    ensures RkTrainStep(rank, st, raw) == RkAssign(st, TrainingLine(raw))
  {
  }

  // ------------------------------------------------------- Bray-Curtis mode

  /** The loop state of the Bray-Curtis parser: the settings so far, the
      abundance table, the current setting and `foundC`. */
  datatype BcTrainer = BcTrainer(settings: seq<string>, abunds: Abunds, setting: string, found: nat)

  /** A block line: the setting's UNMATCHED count starts at the total abundance. */
  function BcOpen(total: int, st: BcTrainer, s: string): (r: BcTrainer)
    ensures r.settings == st.settings + [s] && r.setting == s && r.found == st.found
    ensures Cell(r.abunds, UNMATCHED, s) == Some(total)
    ensures forall t, row :: t != UNMATCHED || row != s ==> Cell(r.abunds, t, row) == Cell(st.abunds, t, row)
  {
    SetCountFacts(st.abunds, UNMATCHED, s, total);
    st.(settings := st.settings + [s], setting := s, abunds := SetCount(st.abunds, UNMATCHED, s, total))
  }

  /** A rank line: one read of the current setting moves from UNMATCHED to its taxon. */
  function BcMove(st: BcTrainer, taxon: string): (r: BcTrainer)
    ensures r.settings == st.settings && r.setting == st.setting && r.found == st.found + 1
    ensures taxon != UNMATCHED ==>
      && Count(r.abunds, taxon, st.setting) == Count(st.abunds, taxon, st.setting) + 1
      && Count(r.abunds, UNMATCHED, st.setting) == Count(st.abunds, UNMATCHED, st.setting) - 1
    ensures Cell(r.abunds, UNMATCHED, st.setting).Some?
  {
    var counted := AddCount(st.abunds, taxon, st.setting, 1);
    var moved := AddCount(counted, UNMATCHED, st.setting, -1);
    AddCountFacts(st.abunds, taxon, st.setting, 1);
    AddCountFacts(counted, UNMATCHED, st.setting, -1);
    st.(abunds := moved, found := st.found + 1)
  }

  /** A move changes only two cells of the current setting's row, and no row's sum. */
  lemma BcMoveSums(st: BcTrainer, taxon: string)
    ensures var a := BcMove(st, taxon).abunds;
      && (forall t, row :: (t != taxon && t != UNMATCHED) || row != st.setting ==> Cell(a, t, row) == Cell(st.abunds, t, row))
      && (forall row :: RowSum(a, row) == RowSum(st.abunds, row))
      && Rows(a) == Rows(st.abunds) + {st.setting}
  {
    var counted := AddCount(st.abunds, taxon, st.setting, 1);
    var moved := AddCount(counted, UNMATCHED, st.setting, -1);
    AddCountFacts(st.abunds, taxon, st.setting, 1);
    AddCountFacts(counted, UNMATCHED, st.setting, -1);
    assert BcMove(st, taxon).abunds == moved;
  }

  /** One line of the training output in Bray-Curtis mode. */
  function BcTrainStep(rank: string, total: int, st: BcTrainer, raw: string): Result<BcTrainer> {
    var line := TrainingLine(raw);
    if StartsWith(line, "@@") then Ok(BcOpen(total, st, SettingOf(raw)))
    else if st.setting == "" then Ok(st)
    else if IsRankLine(rank, line) then
      var taxon :- LabelOf(line);
      Ok(BcMove(st, taxon))
    else Ok(st)
  }

  function BcTrainSteps(rank: string, total: int): (BcTrainer, string) -> Result<BcTrainer> {
    (st, raw) => BcTrainStep(rank, total, st, raw)
  }

  function BcTrainStart(abunds: Abunds): BcTrainer {
    BcTrainer([], abunds, "", 0)
  }

  /** The settings and the completed abundance table of a training output
      (Bray-Curtis mode). */
  function TrainBc(rank: string, total: int, abunds: Abunds, lines: seq<string>): Result<(seq<string>, Abunds)> {
    var st :- Fold(BcTrainSteps(rank, total), BcTrainStart(abunds), lines);
    if st.found == 0 && st.setting == "" then Err(NoSetting) else Ok((st.settings, st.abunds))
  }

  /** The parser state after a prefix of the file. The current setting
      always has an UNMATCHED cell, so `abunds["UNMATCHED"][setting] -= 1`
      never looks up a missing key. */
  ghost predicate BcTrained(abunds0: Abunds, lines: seq<string>, st: BcTrainer) {
    && st.settings == SettingNames(lines)
    && st.setting == LastSetting(lines)
    && (SettingNames(lines) == [] ==> st.found == 0)
    && (st.setting != "" ==> Cell(st.abunds, UNMATCHED, st.setting).Some?)
  }

  /** What conservation needs: every setting row sums to the total, rows
      are "exp" and the settings seen, and the expected counts are as loaded. */
  ghost predicate Conserved(total: int, abunds0: Abunds, st: BcTrainer) {
    && (forall s :: s in st.settings ==> RowSum(st.abunds, s) == total)
    && (forall row :: row in Rows(st.abunds) ==> row == EXP || row in st.settings)
    && (forall t :: Cell(st.abunds, t, EXP) == Cell(abunds0, t, EXP))
  }

  lemma BcTrainStepKeeps(rank: string, total: int, abunds0: Abunds, lines: seq<string>, st: BcTrainer, raw: string)
    requires BcTrained(abunds0, lines, st) && BcTrainStep(rank, total, st, raw).Ok?
    ensures BcTrained(abunds0, lines + [raw], BcTrainStep(rank, total, st, raw).value)
  {
    SettingsNext(lines, raw);
    var line := TrainingLine(raw);
    var st' := BcTrainStep(rank, total, st, raw).value;
    if StartsWith(line, "@@") {
      assert st' == BcOpen(total, st, SettingOf(raw));
    } else if st.setting == "" || !IsRankLine(rank, line) {
      assert st' == st;
    } else {
      var taxon := LabelOf(line).value;
      assert st' == BcMove(st, taxon);
      if SettingNames(lines) == [] {
        NoSettingLast(lines);
      }
    }
  }

  /** A block line for a fresh setting, not named "exp", keeps conservation. */
  lemma BcOpenConserves(total: int, abunds0: Abunds, st: BcTrainer, s: string)
    requires Conserved(total, abunds0, st) && s !in st.settings && s != EXP
    ensures Conserved(total, abunds0, BcOpen(total, st, s))
  {
    RowSumAbsent(st.abunds, s);
    var a := SetCount(st.abunds, UNMATCHED, s, total);
    SetCountFacts(st.abunds, UNMATCHED, s, total);
    assert Count(st.abunds, UNMATCHED, s) == 0 by {
      if Cell(st.abunds, UNMATCHED, s).Some? {
        GetRows(st.abunds, UNMATCHED);
      }
    }
    assert RowSum(a, s) == total;
    var st' := BcOpen(total, st, s);
    assert st'.abunds == a && st'.settings == st.settings + [s];
    forall s' | s' in st'.settings ensures RowSum(a, s') == total {
      if s' != s {
        assert s' in st.settings;
      }
    }
    forall row | row in Rows(a) ensures row == EXP || row in st'.settings {
      assert row in Rows(st.abunds) + {s};
    }
    forall t ensures Cell(a, t, EXP) == Cell(abunds0, t, EXP) {
      assert Cell(a, t, EXP) == Cell(st.abunds, t, EXP);
    }
  }

  /** Moving a read within a setting row keeps conservation. */
  lemma BcMoveConserves(total: int, abunds0: Abunds, st: BcTrainer, taxon: string)
    requires Conserved(total, abunds0, st) && st.setting in st.settings && st.setting != EXP
    ensures Conserved(total, abunds0, BcMove(st, taxon))
  {
    BcMoveSums(st, taxon);
  }

  lemma {:induction false} BcTrainKeeps(rank: string, total: int, abunds0: Abunds, lines: seq<string>)
    decreases |lines|
    requires Fold(BcTrainSteps(rank, total), BcTrainStart(abunds0), lines).Ok?
    ensures BcTrained(abunds0, lines, Fold(BcTrainSteps(rank, total), BcTrainStart(abunds0), lines).value)
  {
    if lines != [] {
      var prefix := lines[..|lines| - 1];
      var raw := lines[|lines| - 1];
      BcTrainKeeps(rank, total, abunds0, prefix);
      ButLast(lines);
      var st := Fold(BcTrainSteps(rank, total), BcTrainStart(abunds0), prefix).value;
      FoldLast(BcTrainSteps(rank, total), BcTrainStart(abunds0), lines);
      assert BcTrainSteps(rank, total)(st, raw) == BcTrainStep(rank, total, st, raw);
      BcTrainStepKeeps(rank, total, abunds0, prefix, st, raw);
    }
  }

  /** One line keeps conservation when a block line opens a fresh setting
      not named "exp" and the current setting is one not named "exp". */
  lemma BcTrainStepConserves(rank: string, total: int, abunds0: Abunds, st: BcTrainer, raw: string)
    requires Conserved(total, abunds0, st) && BcTrainStep(rank, total, st, raw).Ok?
    requires IsSettingLine(raw) ==> SettingOf(raw) !in st.settings && SettingOf(raw) != EXP
    requires st.setting != "" ==> st.setting in st.settings && st.setting != EXP
    ensures Conserved(total, abunds0, BcTrainStep(rank, total, st, raw).value)
  {
    var line := TrainingLine(raw);
    var st' := BcTrainStep(rank, total, st, raw).value;
    if StartsWith(line, "@@") {
      assert st' == BcOpen(total, st, SettingOf(raw));
      BcOpenConserves(total, abunds0, st, SettingOf(raw));
    } else if st.setting == "" || !IsRankLine(rank, line) {
      assert st' == st;
    } else {
      assert st' == BcMove(st, LabelOf(line).value);
      BcMoveConserves(total, abunds0, st, LabelOf(line).value);
    }
  }

  /** The settings of a prefix, and the one a last block line adds. */
  lemma SettingNamesLast(lines: seq<string>)
    requires lines != [] && Distinct(SettingNames(lines))
    ensures Distinct(SettingNames(lines[..|lines| - 1]))
    ensures IsSettingLine(lines[|lines| - 1]) ==> SettingOf(lines[|lines| - 1]) !in SettingNames(lines[..|lines| - 1])
    ensures forall s :: s in SettingNames(lines[..|lines| - 1]) ==> s in SettingNames(lines)
  {
    var names := SettingNames(lines[..|lines| - 1]);
    var raw := lines[|lines| - 1];
    forall i, j | 0 <= i < j < |names| ensures names[i] != names[j] {
      assert SettingNames(lines)[i] == names[i] && SettingNames(lines)[j] == names[j];
    }
  }

  lemma {:induction false} BcTrainConserves(rank: string, total: int, abunds0: Abunds, lines: seq<string>)
    decreases |lines|
    requires Fold(BcTrainSteps(rank, total), BcTrainStart(abunds0), lines).Ok?
    requires Distinct(SettingNames(lines)) && EXP !in SettingNames(lines)
    requires Rows(abunds0) <= {EXP}
    ensures Conserved(total, abunds0, Fold(BcTrainSteps(rank, total), BcTrainStart(abunds0), lines).value)
  {
    if lines != [] {
      var prefix := lines[..|lines| - 1];
      var raw := lines[|lines| - 1];
      SettingNamesLast(lines);
      BcTrainConserves(rank, total, abunds0, prefix);
      BcTrainKeeps(rank, total, abunds0, prefix);
      var st := Fold(BcTrainSteps(rank, total), BcTrainStart(abunds0), prefix).value;
      LastSettingListed(prefix);
      if SettingNames(prefix) == [] {
        NoSettingLast(prefix);
      }
      assert IsSettingLine(raw) ==> SettingOf(raw) in SettingNames(lines);
      BcTrainStepConserves(rank, total, abunds0, st, raw);
    }
  }

  /** A line keeps every "exp" cell when neither a block line it opens nor
      the current setting is named "exp". */
  lemma BcTrainStepExpKept(rank: string, total: int, st: BcTrainer, raw: string)
    requires BcTrainStep(rank, total, st, raw).Ok?
    requires IsSettingLine(raw) ==> SettingOf(raw) != EXP
    requires st.setting != EXP
    ensures forall t :: Cell(BcTrainStep(rank, total, st, raw).value.abunds, t, EXP) == Cell(st.abunds, t, EXP)
  {
    var line := TrainingLine(raw);
    if StartsWith(line, "@@") {
      assert BcTrainStep(rank, total, st, raw).value == BcOpen(total, st, SettingOf(raw));
    } else if st.setting != "" && IsRankLine(rank, line) {
      assert BcTrainStep(rank, total, st, raw).value == BcMove(st, LabelOf(line).value);
      BcMoveSums(st, LabelOf(line).value);
    }
  }

  /** The parse leaves every expected count as loaded when no block line is
      named "exp", whether or not setting names repeat. */
  lemma {:induction false} BcTrainExpKept(rank: string, total: int, abunds0: Abunds, lines: seq<string>)
    decreases |lines|
    requires Fold(BcTrainSteps(rank, total), BcTrainStart(abunds0), lines).Ok?
    requires EXP !in SettingNames(lines)
    ensures forall t :: Cell(Fold(BcTrainSteps(rank, total), BcTrainStart(abunds0), lines).value.abunds, t, EXP) == Cell(abunds0, t, EXP)
  {
    if lines != [] {
      var prefix := lines[..|lines| - 1];
      var raw := lines[|lines| - 1];
      ButLast(lines);
      SettingsNext(prefix, raw);
      BcTrainExpKept(rank, total, abunds0, prefix);
      BcTrainKeeps(rank, total, abunds0, prefix);
      var st := Fold(BcTrainSteps(rank, total), BcTrainStart(abunds0), prefix).value;
      LastSettingListed(prefix);
      if SettingNames(prefix) == [] {
        NoSettingLast(prefix);
      }
      FoldLast(BcTrainSteps(rank, total), BcTrainStart(abunds0), lines);
      assert BcTrainSteps(rank, total)(st, raw) == BcTrainStep(rank, total, st, raw);
      BcTrainStepExpKept(rank, total, st, raw);
    }
  }

  /** Outside every block a line changes nothing. */
  lemma {:induction false} BcIgnoredUntilSetting(rank: string, total: int, abunds0: Abunds, lines: seq<string>)
    decreases |lines|
    requires forall k :: 0 <= k < |lines| ==> !IsSettingLine(lines[k])
    ensures Fold(BcTrainSteps(rank, total), BcTrainStart(abunds0), lines) == Ok(BcTrainStart(abunds0))
  {
    if lines != [] {
      BcIgnoredUntilSetting(rank, total, abunds0, lines[..|lines| - 1]);
    }
  }

  /** A training output without a block line ends the run. */
  lemma TrainBcNoSetting(rank: string, total: int, abunds0: Abunds, lines: seq<string>)
    requires forall k :: 0 <= k < |lines| ==> !IsSettingLine(lines[k])
    ensures TrainBc(rank, total, abunds0, lines) == Err(NoSetting)
  {
    BcIgnoredUntilSetting(rank, total, abunds0, lines);
  }

  /** A successful parse reports the settings of the block lines in file
      order, at least one of them. When they are distinct and none is named
      "exp", every setting's counts over all taxa sum to the total abundance,
      and the expected counts are those loaded. */
  lemma TrainBcResult(rank: string, total: int, abunds0: Abunds, lines: seq<string>)
    requires TrainBc(rank, total, abunds0, lines).Ok?
    ensures TrainBc(rank, total, abunds0, lines).value.0 == SettingNames(lines) != []
    ensures Distinct(SettingNames(lines)) && EXP !in SettingNames(lines) && Rows(abunds0) <= {EXP} ==>
      var abunds := TrainBc(rank, total, abunds0, lines).value.1;
      && (forall s :: s in SettingNames(lines) ==> RowSum(abunds, s) == total)
      && (forall t :: Cell(abunds, t, EXP) == Cell(abunds0, t, EXP))
    ensures EXP !in SettingNames(lines) ==>
      forall t :: Cell(TrainBc(rank, total, abunds0, lines).value.1, t, EXP) == Cell(abunds0, t, EXP)
  {
    BcTrainKeeps(rank, total, abunds0, lines);
    if EXP !in SettingNames(lines) {
      BcTrainExpKept(rank, total, abunds0, lines);
    }
    if SettingNames(lines) == [] {
      NoSettingLast(lines);
    }
    if Distinct(SettingNames(lines)) && EXP !in SettingNames(lines) && Rows(abunds0) <= {EXP} {
      BcTrainConserves(rank, total, abunds0, lines);
    }
  }
}
