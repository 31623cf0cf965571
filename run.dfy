/** One run of the analysis (metag-train.py, lines 150-383): the script's
    global state, the stages that update it file by file, and the report.
    Each stage reads its file line by line as the script does and is proved
    to leave the state that the corresponding fold of the line functions
    describes; `Pipeline` composes those functions into the whole run. */
module Run {
  import opened Common
  import opened Text
  import opened Dicts
  import opened Lines
  import opened Expectation
  import opened Resolver
  import opened Training
  import opened Scoring
  import opened Ranking

  datatype Metric = Rk | Bc

  /** The positions of the first pattern that occurs in a read name: the
      `for pattern in ...: if re.search(pattern, line): ... break` loop. */
  method FirstMatching(patterns: seq<string>, id: string) returns (k: Option<nat>)
    ensures k == FirstMatch(patterns, id)
  {
    var i := 0;
    while i < |patterns|
      invariant 0 <= i <= |patterns|
      invariant forall j :: 0 <= j < i ==> !Contains(id, patterns[j])
    {
      if Contains(id, patterns[i]) {
        return Some(i);
      }
      i := i + 1;
    }
    return None;
  }

  /** The script's global state: the pattern tables, the read table, the
      abundance table, the total abundance and the setting list. */
  class RunContext {
    var negPatterns: seq<string>
    var posPatterns: Dict<Label>
    var readTable: Reads
    var abunds: Abunds
    var totalAbund: int
    var settings: seq<string>

    constructor ()
      ensures negPatterns == [] && posPatterns == [] && readTable == []
      ensures abunds == [] && totalAbund == 0 && settings == []
    {
      negPatterns := [];
      posPatterns := [];
      readTable := [];
      abunds := [];
      totalAbund := 0;
      settings := [];
    }

    /** Lines 157-191: the pattern tables of the expectation file. */
    method LoadRkExpectation(exp: seq<string>, rank: string) returns (r: Result<()>)
      requires negPatterns == [] && posPatterns == []
      modifies this`negPatterns, this`posPatterns
      ensures r.Err? <==> LoadRk(exp, rank).Err?
      ensures r.Err? ==> r.error == LoadRk(exp, rank).error
      ensures r.Ok? ==> RkPatterns(negPatterns, posPatterns) == LoadRk(exp, rank).value
    {
      var idx: Option<nat> := None;
      var isNegative := false;
      for i := 0 to |exp|
        invariant Fold(RkLoadSteps(rank), RK_LOADER_START, exp[..i]) ==
                  Ok(RkLoader(idx, isNegative, RkPatterns(negPatterns, posPatterns)))
      {
        FoldNext(RkLoadSteps(rank), RK_LOADER_START, exp, i);
        var raw := exp[i];
        if StartsWith(raw, "@@ranks") {
          var found := RankIndex(raw, rank);
          if found.Err? {
            FoldFailsAt(RkLoadSteps(rank), RK_LOADER_START, exp, i);
            return Err(found.error);
          }
          idx := Some(found.value);
        } else if StartsWith(raw, "@@negative") {
          isNegative := true;
        } else if StartsWith(raw, "@@positive") {
          isNegative := false;
        } else if isNegative {
          negPatterns := AddKey(negPatterns, Strip(raw, '\n'));
        } else {
          var entry := PositiveRk(Strip(raw, '\n'), idx);
          if entry.Err? {
            FoldFailsAt(RkLoadSteps(rank), RK_LOADER_START, exp, i);
            return Err(entry.error);
          }
          posPatterns := Put(posPatterns, entry.value.0, entry.value.1);
        }
      }
      assert exp[..|exp|] == exp;
      return Ok(());
    }

    /** Lines 193-214: one read table entry per query header. */
    method ResolveReads(query: seq<string>) returns (r: Result<()>)
      requires readTable == []
      modifies this`readTable
      ensures r.Err? <==> Resolve(RkPatterns(negPatterns, posPatterns), query).Err?
      ensures r.Err? ==> r.error == Resolve(RkPatterns(negPatterns, posPatterns), query).error
      ensures r.Ok? ==> readTable == Resolve(RkPatterns(negPatterns, posPatterns), query).value
    {
      ghost var p := RkPatterns(negPatterns, posPatterns);
      for i := 0 to |query|
        invariant Fold(ResolveSteps(p), [], query[..i]) == Ok(readTable)
      {
        ghost var table := readTable;
        var step := ResolveLine(query[i]);
        if step.Err? {
          var e := step.error;
          ResolveFailsAt(p, query, i, table, e);
          return Err(e);
        }
        ResolveNext(p, query, i, table);
      }
      assert query[..|query|] == query;
      return Ok(());
    }

    /** Lines 194-214: one line of the query file. */
    method ResolveLine(raw: string) returns (r: Result<()>)
      modifies this`readTable
      ensures var step := ResolveStep(RkPatterns(negPatterns, posPatterns), old(readTable), raw);
        && (r.Err? ==> step == Err(r.error))
        && (r.Ok? ==> step.Ok? && step.value == readTable)
    {
      ghost var p := RkPatterns(negPatterns, posPatterns);
      if !StartsWith(raw, ">") {
        return Ok(());
      }
      var id := Strip(Strip(raw, '>'), '\n');
      var neg := FirstMatching(negPatterns, id);
      if neg.Some? {
        ResolveNegativeStep(p, readTable, raw, neg.value);
        readTable := Put(readTable, id, map[EXP := None]);
        return Ok(());
      }
      var pos := FirstMatching(Keys(posPatterns), id);
      if pos.None? {
        ResolveUnknownStep(p, readTable, raw);
        return Err(UnexpectedReadId(id));
      }
      var k := pos.value;
      ResolvePositiveStep(p, readTable, raw, k);
      readTable := Put(readTable, id, map[EXP := posPatterns[k].1]);
      return Ok(());
    }

    /** Lines 215-252: the total abundance and the expected counts. */
    method LoadBcExpectation(exp: seq<string>, rank: string) returns (r: Result<()>)
      requires abunds == [] && totalAbund == 0
      modifies this`abunds, this`totalAbund
      ensures r.Err? <==> LoadBc(exp, rank).Err?
      ensures r.Err? ==> r.error == LoadBc(exp, rank).error
      ensures r.Ok? ==> (totalAbund, abunds) == LoadBc(exp, rank).value
    {
      var idx: Option<nat> := None;
      var isNegative := false;
      ghost var st := BC_LOADER_START;
      for i := 0 to |exp|
        invariant Fold(BcLoadSteps(rank), BC_LOADER_START, exp[..i]) == Ok(st)
        invariant st.idx == idx && st.isNegative == isNegative && st.total == totalAbund && st.abunds == abunds
      {
        var step, idx', isNegative' := LoadBcLine(rank, exp[i], idx, isNegative, st);
        if step.Err? {
          var e := step.error;
          BcLoadFailsAt(rank, exp, i, st, e);
          return Err(e);
        }
        BcLoadNext(rank, exp, i, st);
        st := BcLoadStep(rank, st, exp[i]).value;
        idx, isNegative := idx', isNegative';
      }
      assert exp[..|exp|] == exp;
      return Ok(());
    }

    /** Lines 219-252: one line of the expectation file in Bray-Curtis mode,
        with the rank index and the current section passed in and out. */
    method LoadBcLine(rank: string, raw: string, idx: Option<nat>, isNegative: bool, ghost st: BcLoader)
      returns (r: Result<()>, idx': Option<nat>, isNegative': bool)
      requires st.idx == idx && st.isNegative == isNegative && st.total == totalAbund && st.abunds == abunds
      modifies this`abunds, this`totalAbund
      ensures r.Err? ==> BcLoadStep(rank, st, raw) == Err(r.error)
      ensures r.Ok? ==> BcLoadStep(rank, st, raw).Ok?
      ensures r.Ok? ==> var next := BcLoadStep(rank, st, raw).value;
        next.idx == idx' && next.isNegative == isNegative' && next.total == totalAbund && next.abunds == abunds
    {
      if StartsWith(raw, "@@ranks") {
        var found := RankIndex(raw, rank);
        if found.Err? {
          BcRanksFails(rank, st, raw);
          return Err(found.error), idx, isNegative;
        }
        var k := found.value;
        BcRanksStep(rank, st, raw, k);
        return Ok(()), Some(k), isNegative;
      } else if StartsWith(raw, "@@negative") || StartsWith(raw, "@@positive") {
        BcSectionStep(rank, st, raw);
        return Ok(()), idx, StartsWith(raw, "@@negative");
      } else {
        r := LoadBcCount(rank, raw, idx, isNegative, st);
        return r, idx, isNegative;
      }
    }

    /** Lines 232-252: a count line of the negative or the positive section. */
    method LoadBcCount(rank: string, raw: string, idx: Option<nat>, isNegative: bool, ghost st: BcLoader)
      returns (r: Result<()>)
      requires !StartsWith(raw, "@@ranks") && !StartsWith(raw, "@@negative") && !StartsWith(raw, "@@positive")
      requires st.idx == idx && st.isNegative == isNegative && st.total == totalAbund && st.abunds == abunds
      modifies this`abunds, this`totalAbund
      ensures r.Err? ==> BcLoadStep(rank, st, raw) == Err(r.error)
      ensures r.Ok? ==> BcLoadStep(rank, st, raw).Ok?
      ensures r.Ok? ==> var next := BcLoadStep(rank, st, raw).value;
        next.idx == idx && next.isNegative == isNegative && next.total == totalAbund && next.abunds == abunds
    {
      if isNegative {
        r := LoadBcNegative(rank, raw, idx, isNegative, st);
      } else {
        r := LoadBcPositive(rank, raw, idx, isNegative, st);
      }
    }

    /** Lines 232-240: a count of unclassified reads. */
    method LoadBcNegative(rank: string, raw: string, idx: Option<nat>, isNegative: bool, ghost st: BcLoader)
      returns (r: Result<()>)
      requires isNegative
      requires !StartsWith(raw, "@@ranks") && !StartsWith(raw, "@@negative") && !StartsWith(raw, "@@positive")
      requires st.idx == idx && st.isNegative == isNegative && st.total == totalAbund && st.abunds == abunds
      modifies this`abunds, this`totalAbund
      ensures r.Err? ==> BcLoadStep(rank, st, raw) == Err(r.error)
      ensures r.Ok? ==> BcLoadStep(rank, st, raw).Ok?
      ensures r.Ok? ==> var next := BcLoadStep(rank, st, raw).value;
        next.idx == idx && next.isNegative == isNegative && next.total == totalAbund && next.abunds == abunds
    {
      var parsed := NegativeBc(Strip(raw, '\n'));
      if parsed.Err? {
        BcNegativeFails(rank, st, raw);
        return Err(parsed.error);
      }
      var n := parsed.value;
      BcNegativeStep(rank, st, raw, n);
      AddExpected(UNMATCHED, n);
      return Ok(());
    }

    /** Lines 241-252: a count of reads of one lineage. */
    method LoadBcPositive(rank: string, raw: string, idx: Option<nat>, isNegative: bool, ghost st: BcLoader)
      returns (r: Result<()>)
      requires !isNegative
      requires !StartsWith(raw, "@@ranks") && !StartsWith(raw, "@@negative") && !StartsWith(raw, "@@positive")
      requires st.idx == idx && st.isNegative == isNegative && st.total == totalAbund && st.abunds == abunds
      modifies this`abunds, this`totalAbund
      ensures r.Err? ==> BcLoadStep(rank, st, raw) == Err(r.error)
      ensures r.Ok? ==> BcLoadStep(rank, st, raw).Ok?
      ensures r.Ok? ==> var next := BcLoadStep(rank, st, raw).value;
        next.idx == idx && next.isNegative == isNegative && next.total == totalAbund && next.abunds == abunds
    {
      var parsed := PositiveBc(Strip(raw, '\n'), idx);
      if parsed.Err? {
        BcPositiveFails(rank, st, raw);
        return Err(parsed.error);
      }
      var (taxon, n) := parsed.value;
      BcPositiveStep(rank, st, raw, taxon, n);
      AddExpected(taxon, n);
      return Ok(());
    }

    /** `abunds[taxon]["exp"] += n; totalAbund += n` (lines 241-252). */
    method AddExpected(taxon: string, n: int)
      modifies this`abunds, this`totalAbund
      ensures totalAbund == old(totalAbund) + n
      ensures abunds == AddCount(old(abunds), taxon, EXP, n)
    {
      totalAbund := totalAbund + n;
      abunds := AddCount(abunds, taxon, EXP, n);
    }

    /** Lines 262-296: the settings and the labels of the training output. */
    method ParseTrainingRk(train: seq<string>, rank: string) returns (r: Result<()>)
      requires settings == []
      modifies this`readTable, this`settings
      ensures r.Err? <==> TrainRk(rank, old(readTable), train).Err?
      ensures r.Err? ==> r.error == TrainRk(rank, old(readTable), train).error
      ensures r.Ok? ==> (settings, readTable) == TrainRk(rank, old(readTable), train).value
    {
      ghost var table0 := readTable;
      var readId := "";
      var setting := "";
      var foundC: nat := 0;
      ghost var st := RkTrainStart(table0);
      for i := 0 to |train|
        invariant Fold(RkTrainSteps(rank), RkTrainStart(table0), train[..i]) == Ok(st)
        invariant st.settings == settings && st.table == readTable && st.setting == setting
        invariant st.readId == readId && st.found == foundC
      {
        var step, setting', readId', foundC' := ParseTrainingRkLine(rank, train[i], setting, readId, foundC, st);
        if step.Err? {
          var e := step.error;
          RkTrainFailsAt(rank, table0, train, i, st, e);
          return Err(e);
        }
        RkTrainNext(rank, table0, train, i, st);
        st := RkTrainStep(rank, st, train[i]).value;
        setting, readId, foundC := setting', readId', foundC';
      }
      assert train[..|train|] == train;
      if foundC == 0 && setting == "" {
        return Err(NoSetting);
      }
      return Ok(());
    }

    /** Lines 264-296: one line of the training output in Rk mode, with the
        current setting, the current read and `foundC` passed in and out. */
    method ParseTrainingRkLine(rank: string, raw: string, setting: string, readId: string, foundC: nat, ghost st: RkTrainer)
      returns (r: Result<()>, setting': string, readId': string, foundC': nat)
      requires st.settings == settings && st.table == readTable && st.setting == setting
      requires st.readId == readId && st.found == foundC
      modifies this`readTable, this`settings
      ensures r.Err? ==> RkTrainStep(rank, st, raw) == Err(r.error)
      ensures r.Ok? ==> RkStepYields(rank, st, raw, settings, readTable, setting', readId', foundC')
    {
      var line := TrainingLine(raw);
      if StartsWith(line, "@@") {
        var name := RemovePrefix(line, "@@_");
        settings := settings + [name];
        RkSettingStep(rank, st, raw);
        return Ok(()), name, readId, foundC;
      }
      r, readId', foundC' := ParseBlockLine(rank, raw, line, setting, readId, foundC, st);
      return r, setting, readId', foundC';
    }

    /** Lines 275-296: a line that opens no block, which moves the current
        read or records a label, inside a block only. */
    method ParseBlockLine(rank: string, raw: string, line: string, setting: string, readId: string, foundC: nat, ghost st: RkTrainer)
      returns (r: Result<()>, readId': string, foundC': nat)
      requires !IsSettingLine(raw) && line == TrainingLine(raw)
      requires st.table == readTable && st.setting == setting && st.readId == readId && st.found == foundC
      modifies this`readTable
      ensures r.Err? ==> RkTrainStep(rank, st, raw) == Err(r.error)
      ensures r.Ok? ==> RkStepYields(rank, st, raw, st.settings, readTable, setting, readId', foundC')
    {
      if setting == "" {
        RkIgnoredStep(rank, st, raw);
        return Ok(()), readId, foundC;
      }
      if StartsWith(line, ">") {
        RkReadStep(rank, st, raw);
        return Ok(()), Strip(line, '>'), foundC;
      }
      if StartsWith(line, "No match") {
        RkNoMatchStep(rank, st, raw);
        return Ok(()), "", foundC;
      }
      r, foundC' := ParseLabelLine(rank, raw, line, setting, readId, foundC, st);
      return r, readId, foundC';
    }

    /** Lines 279-296: inside a block, a line that names no read: a rank line
        for the current read records its label, any other line is skipped. */
    method ParseLabelLine(rank: string, raw: string, line: string, setting: string, readId: string, foundC: nat, ghost st: RkTrainer)
      returns (r: Result<()>, foundC': nat)
      requires !IsSettingLine(raw) && line == TrainingLine(raw) && setting != ""
      requires !StartsWith(line, ">") && !StartsWith(line, "No match")
      requires st.table == readTable && st.setting == setting && st.readId == readId && st.found == foundC
      modifies this`readTable
      ensures r.Err? ==> RkTrainStep(rank, st, raw) == Err(r.error)
      ensures r.Ok? ==> RkStepYields(rank, st, raw, st.settings, readTable, setting, readId, foundC')
    {
      if readId != "" && IsRankLine(rank, line) {
        r := RecordLabel(rank, raw, line, readId, setting, st);
        return r, foundC + 1;
      }
      RkIgnoredStep(rank, st, raw);
      return Ok(()), foundC;
    }

    /** Lines 279-294: a rank line for the current read in the current
        setting fills the read's cell for the setting. */
    method RecordLabel(rank: string, raw: string, line: string, readId: string, setting: string, ghost st: RkTrainer)
      returns (r: Result<()>)
      requires RkRecording(rank, st, raw) && line == TrainingLine(raw)
      requires st.table == readTable && st.readId == readId && st.setting == setting
      modifies this`readTable
      ensures r.Err? ==> RkTrainStep(rank, st, raw) == Err(r.error) && readTable == old(readTable)
      ensures r.Ok? ==> RkStepYields(rank, st, raw, st.settings, readTable, st.setting, st.readId, st.found + 1)
    {
      var cur := Get(readTable, readId);
      if cur.None? {
        RkUnknownReadStep(rank, st, raw);
        return Err(UnexpectedTrainingRead(readId));
      }
      var m := cur.value;
      if setting in m {
        RkDuplicateStep(rank, st, raw, m);
        return Err(DuplicateClassification(readId, setting));
      }
      var parsed := LabelOf(line);
      if parsed.Err? {
        RkNoLabelStep(rank, st, raw, m);
        return Err(parsed.error);
      }
      var text := parsed.value;
      RkRecordStep(rank, st, raw, m, text);
      readTable := Put(readTable, readId, m[setting := Some(text)]);
      return Ok(());
    }

    /** Lines 297-336: the settings and the counts of the training output. */
    method ParseTrainingBc(train: seq<string>, rank: string) returns (r: Result<()>)
      requires settings == []
      modifies this`abunds, this`settings
      ensures r.Err? <==> TrainBc(rank, totalAbund, old(abunds), train).Err?
      ensures r.Err? ==> r.error == TrainBc(rank, totalAbund, old(abunds), train).error
      ensures r.Ok? ==> (settings, abunds) == TrainBc(rank, totalAbund, old(abunds), train).value
    {
      var setting := "";
      var foundC: nat := 0;
      for i := 0 to |train|
        invariant Fold(BcTrainSteps(rank, totalAbund), BcTrainStart(old(abunds)), train[..i]) ==
                  Ok(BcTrainer(settings, abunds, setting, foundC))
      {
        ghost var st := BcTrainer(settings, abunds, setting, foundC);
        assert BcTrainSteps(rank, totalAbund)(st, train[i]) == BcTrainStep(rank, totalAbund, st, train[i]);
        var line := Strip(train[i], '\n');
        if StartsWith(line, "@@") {
          setting := RemovePrefix(line, "@@_");
          settings := settings + [setting];
          abunds := SetCount(abunds, UNMATCHED, setting, totalAbund);
          assert BcTrainStep(rank, totalAbund, st, train[i]) == Ok(BcOpen(totalAbund, st, setting));
          FoldOk(BcTrainSteps(rank, totalAbund), BcTrainStart(old(abunds)), train, i, st, BcTrainer(settings, abunds, setting, foundC));
        } else if setting != "" && IsRankLine(rank, line) {
          var taxon := LabelOf(line);
          if taxon.Err? {
            assert BcTrainStep(rank, totalAbund, st, train[i]) == Err(taxon.error);
            FoldFailsAt(BcTrainSteps(rank, totalAbund), BcTrainStart(old(abunds)), train, i);
            return Err(taxon.error);
          }
          abunds := AddCount(abunds, taxon.value, setting, 1);
          abunds := AddCount(abunds, UNMATCHED, setting, -1);
          foundC := foundC + 1;
          BcMoveIs(st, taxon.value);
          assert BcMove(st, taxon.value) == BcTrainer(settings, abunds, setting, foundC);
          assert BcTrainStep(rank, totalAbund, st, train[i]) == Ok(BcMove(st, taxon.value));
          FoldOk(BcTrainSteps(rank, totalAbund), BcTrainStart(old(abunds)), train, i, st, BcTrainer(settings, abunds, setting, foundC));
        } else {
          assert BcTrainStep(rank, totalAbund, st, train[i]) == Ok(st);
          FoldOk(BcTrainSteps(rank, totalAbund), BcTrainStart(old(abunds)), train, i, st, BcTrainer(settings, abunds, setting, foundC));
        }
      }
      assert train[..|train|] == train;
      if foundC == 0 && setting == "" {
        return Err(NoSetting);
      }
      return Ok(());
    }

    /** Lines 341-356: the Rk score of every setting, in setting order. */
    method ScoreRk(mcc: (seq<string>, seq<string>) -> int) returns (r: Result<seq<Scored>>)
      ensures r == RkScores(mcc, readTable, settings)
    {
      if EXP !in Rows(readTable) {
        return Err(MissingRow(EXP));
      }
      var expec := LabelRow(readTable, EXP);
      var rks: seq<Scored> := [];
      for i := 0 to |settings|
        invariant Fold(RkScoreSteps(mcc, readTable), [], settings[..i]) == Ok(rks)
      {
        FoldNext(RkScoreSteps(mcc, readTable), [], settings, i);
        var setting := settings[i];
        if setting !in Rows(readTable) {
          FoldFailsAt(RkScoreSteps(mcc, readTable), [], settings, i);
          return Err(MissingRow(setting));
        }
        rks := rks + [(setting, mcc(expec, LabelRow(readTable, setting)))];
      }
      assert settings[..|settings|] == settings;
      return Ok(rks);
    }

    /** Lines 363-376: the Bray-Curtis score of every setting, in setting order. */
    method ScoreBc() returns (r: Result<seq<Scored>>)
      ensures r == BcScores(abunds, settings)
    {
      if EXP !in Rows(abunds) {
        return Err(MissingRow(EXP));
      }
      var expec := CountRow(abunds, EXP);
      var bcs: seq<Scored> := [];
      for i := 0 to |settings|
        invariant Fold(BcScoreSteps(abunds), [], settings[..i]) == Ok(bcs)
      {
        FoldNext(BcScoreSteps(abunds), [], settings, i);
        var setting := settings[i];
        if setting !in Rows(abunds) {
          FoldFailsAt(BcScoreSteps(abunds), [], settings, i);
          return Err(MissingRow(setting));
        }
        var bc := Similarity(expec, CountRow(abunds, setting), setting);
        if bc.Err? {
          FoldFailsAt(BcScoreSteps(abunds), [], settings, i);
          return Err(bc.error);
        }
        bcs := bcs + [(setting, bc.value)];
      }
      assert settings[..|settings|] == settings;
      return Ok(bcs);
    }
  }

  /** The two updates of a rank line, as `BcMove` makes them. */
  lemma BcMoveIs(st: BcTrainer, taxon: string)
    ensures BcMove(st, taxon).abunds == AddCount(AddCount(st.abunds, taxon, st.setting, 1), UNMATCHED, st.setting, -1)
    ensures BcMove(st, taxon) == BcTrainer(st.settings, BcMove(st, taxon).abunds, st.setting, st.found + 1)
  {
  }

  /** The whole run as a function of its inputs: the report lines, or the
      condition that ends the run. The query file is read in Rk mode only. */
  function Pipeline(metric: Metric, rank: string, exp: seq<string>, query: seq<string>, train: seq<string>,
                    mcc: (seq<string>, seq<string>) -> int): Result<seq<string>>
  {
    match metric
    case Rk =>
      var patterns :- LoadRk(exp, rank);
      var table :- Resolve(patterns, query);
      var trained :- TrainRk(rank, table, train);
      var scores :- RkScores(mcc, trained.1, trained.0);
      Ok(Report(scores))
    case Bc =>
      var loaded :- LoadBc(exp, rank);
      var trained :- TrainBc(rank, loaded.0, loaded.1, train);
      var scores :- BcScores(trained.1, trained.0);
      Ok(Report(scores))
  }

  /** Runs the stages in the script's order on a fresh state. */
  method Analyze(metric: Metric, rank: string, exp: seq<string>, query: seq<string>, train: seq<string>,
                 mcc: (seq<string>, seq<string>) -> int) returns (r: Result<seq<string>>)
    ensures r == Pipeline(metric, rank, exp, query, train, mcc)
  {
    var ctx := new RunContext();
    match metric
    case Rk =>
      var loaded := ctx.LoadRkExpectation(exp, rank);
      if loaded.Err? {
        return Err(loaded.error);
      }
      var resolved := ctx.ResolveReads(query);
      if resolved.Err? {
        return Err(resolved.error);
      }
      var trained := ctx.ParseTrainingRk(train, rank);
      if trained.Err? {
        return Err(trained.error);
      }
      var scores := ctx.ScoreRk(mcc);
      if scores.Err? {
        return Err(scores.error);
      }
      return Ok(Report(scores.value));
    case Bc =>
      var loaded := ctx.LoadBcExpectation(exp, rank);
      if loaded.Err? {
        return Err(loaded.error);
      }
      var trained := ctx.ParseTrainingBc(train, rank);
      if trained.Err? {
        return Err(trained.error);
      }
      var scores := ctx.ScoreBc();
      if scores.Err? {
        return Err(scores.error);
      }
      return Ok(Report(scores.value));
  }

  /** A successful run reports one line per setting block, best score first. */
  lemma PipelineReport(metric: Metric, rank: string, exp: seq<string>, query: seq<string>, train: seq<string>,
                       mcc: (seq<string>, seq<string>) -> int)
    requires Pipeline(metric, rank, exp, query, train, mcc).Ok?
    ensures |Pipeline(metric, rank, exp, query, train, mcc).value| == |SettingNames(train)| > 0
  {
    match metric
    case Rk =>
      var patterns := LoadRk(exp, rank).value;
      var table := Resolve(patterns, query).value;
      TrainRkResult(rank, table, train);
      var trained := TrainRk(rank, table, train).value;
      RkScoresMeaning(mcc, trained.1, trained.0);
    case Bc =>
      var loaded := LoadBc(exp, rank).value;
      TrainBcResult(rank, loaded.0, loaded.1, train);
      var trained := TrainBc(rank, loaded.0, loaded.1, train).value;
      BcScoresMeaning(trained.1, trained.0);
  }

  /** In Bray-Curtis mode, with distinct settings none of which is named
      "exp", the counts of every setting add up to the total abundance, and
      that total is the sum of the expected counts. */
  lemma PipelineBcConservation(rank: string, exp: seq<string>, train: seq<string>)
    requires LoadBc(exp, rank).Ok?
    requires TrainBc(rank, LoadBc(exp, rank).value.0, LoadBc(exp, rank).value.1, train).Ok?
    requires Distinct(SettingNames(train)) && EXP !in SettingNames(train)
    ensures var loaded := LoadBc(exp, rank).value;
      var abunds := TrainBc(rank, loaded.0, loaded.1, train).value.1;
      && loaded.0 == Total(CountRow(loaded.1, EXP))
      && forall s :: s in SettingNames(train) ==> Total(CountRow(abunds, s)) == loaded.0
  {
    var loaded := LoadBc(exp, rank).value;
    LoadBcTotal(exp, rank);
    CountRowSum(loaded.1, EXP);
    forall row | row in Rows(loaded.1) ensures row == EXP {
      RowsHold(loaded.1, row);
    }
    TrainBcResult(rank, loaded.0, loaded.1, train);
    var abunds := TrainBc(rank, loaded.0, loaded.1, train).value.1;
    forall s | s in SettingNames(train) ensures Total(CountRow(abunds, s)) == loaded.0 {
      CountRowSum(abunds, s);
    }
  }
}
