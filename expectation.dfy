/** The expectation file (metag-train.py, lines 157-191 for Rk and 215-252 for
    Bray-Curtis). An "@@ranks<TAB>r1;r2;..." line fixes the index of the
    analysed rank; "@@negative" and "@@positive" lines switch the section for
    the lines that follow. In Rk mode the sections hold read-name patterns:
    negative ones (reads expected unclassified) and positive ones with a
    lineage. In Bray-Curtis mode they hold counts: negative counts of
    unclassifiable reads and positive counts with a lineage. The lineage is
    reduced to its field at the rank index. */
module Expectation {
  import opened Common
  import opened Text
  import opened Dicts
  import opened Lines

  /** The rank list of an "@@ranks" line: its second tab field split at ';'. */
  function RankList(line: string): Option<seq<string>> {
    var fields := Split(Strip(line, '\n'), "\t");
    if |fields| < 2 then None else Some(Split(fields[1], ";"))
  }

  /** The index of the analysed rank, as `ranks.index(rank)` finds it. */
  function RankIndex(line: string, rank: string): (r: Result<nat>)
    ensures r.Ok? || r == Err(MissingRankList) || r == Err(RankAbsent(rank))
    ensures r == Err(MissingRankList) <==> RankList(line).None?
    ensures r == Err(RankAbsent(rank)) <==> RankList(line).Some? && rank !in RankList(line).value
    ensures r.Ok? ==> var ranks := RankList(line).value;
      r.value < |ranks| && ranks[r.value] == rank && forall j :: 0 <= j < r.value ==> ranks[j] != rank
  {
    match RankList(line)
    case None => Err(MissingRankList)
    case Some(ranks) =>
      match IndexOf(ranks, rank)
      case None => Err(RankAbsent(rank))
      case Some(i) => Ok(i)
  }

  /** `lineage.split(";")[idx]`; idx is None while no "@@ranks" line was read. */
  function RankField(lineage: string, idx: Option<nat>): (r: Result<string>)
    ensures idx.None? ==> r == Err(RanksNotDeclared)
    ensures r.Ok? <==> idx.Some? && idx.value < |Split(lineage, ";")|
    ensures r.Ok? ==> r.value == Split(lineage, ";")[idx.value]
    ensures idx.Some? && r.Err? ==> r == Err(LineageTooShort(lineage))
  {
    match idx
    case None => Err(RanksNotDeclared)
    case Some(i) =>
      var fields := Split(lineage, ";");
      if i < |fields| then Ok(fields[i]) else Err(LineageTooShort(lineage))
  }

  /** The field at the rank index of a lineage written out with ';'. */
  lemma RankFieldOfLineage(fields: seq<string>, i: nat)
    requires i < |fields|
    requires forall k, j :: 0 <= k < |fields| && 0 <= j < |fields[k]| ==> fields[k][j] != ';'
    ensures RankField(Join(fields, ";"), Some(i)) == Ok(fields[i])
  {
    SplitJoin(fields, ';');
  }

  // ---------------------------------------------------------------- Rk mode

  /** The pattern tables: negative patterns (a dictionary whose values are
      all "", so only its keys in order count) and positive patterns with the
      expected label at the analysed rank. Order is file order. */
  datatype RkPatterns = RkPatterns(negative: seq<string>, positive: Dict<Label>)

  /** The loop state of the Rk loader. */
  datatype RkLoader = RkLoader(idx: Option<nat>, isNegative: bool, patterns: RkPatterns)

  /** `d[k] = ""` on a dictionary whose values are all "": a new key goes last. */
  function AddKey(keys: seq<string>, k: string): (r: seq<string>)
    ensures k in r && forall x :: x in keys ==> x in r
    ensures forall x :: x in r ==> x in keys || x == k
  {
    if k in keys then keys else keys + [k]
  }

  /** A positive entry `<pattern><TAB><lineage>`, read as the pattern and the
      label at the rank index; a label "0" is stored as NaN. */
  function PositiveRk(line: string, idx: Option<nat>): (r: Result<(string, Label)>)
    ensures |Split(line, "\t")| != 2 ==> r == Err(MalformedLine(line))
    ensures |Split(line, "\t")| == 2 ==> var parts := Split(line, "\t");
      && (r.Ok? <==> RankField(parts[1], idx).Ok?)
      && (r.Ok? ==> r.value.0 == parts[0])
      && (r.Ok? ==> (r.value.1.None? <==> RankField(parts[1], idx).value == "0"))
      && (r.Ok? && r.value.1.Some? ==> r.value.1.value == RankField(parts[1], idx).value)
  {
    var parts := Split(line, "\t");
    if |parts| != 2 then Err(MalformedLine(line))
    else
      var field :- RankField(parts[1], idx);
      Ok((parts[0], if field == "0" then None else Some(field)))
  }

  /** An entry written as pattern, tab, lineage is read back as the pattern and
      the lineage's field at the rank index. */
  lemma PositiveRkEntry(pattern: string, fields: seq<string>, i: nat)
    requires i < |fields|
    requires forall j :: 0 <= j < |pattern| ==> pattern[j] != '\t'
    requires forall k, j :: 0 <= k < |fields| && 0 <= j < |fields[k]| ==> fields[k][j] != ';' && fields[k][j] != '\t'
    ensures PositiveRk(pattern + "\t" + Join(fields, ";"), Some(i)) ==
            Ok((pattern, if fields[i] == "0" then None else Some(fields[i])))
  {
    var lineage := Join(fields, ";");
    JoinHasNo(fields, ';', '\t');
    SplitJoin([pattern, lineage], '\t');
    assert Join([pattern, lineage], "\t") == pattern + "\t" + lineage;
    RankFieldOfLineage(fields, i);
  }

  /** Joining pieces free of x with a separator other than x gives a text free of x. */
  lemma {:induction false} JoinHasNo(parts: seq<string>, c: char, x: char)
    requires |parts| >= 1 && c != x
    requires forall k, j :: 0 <= k < |parts| && 0 <= j < |parts[k]| ==> parts[k][j] != x
    ensures forall j :: 0 <= j < |Join(parts, [c])| ==> Join(parts, [c])[j] != x
  {
    if |parts| > 1 {
      JoinHasNo(parts[1..], c, x);
    }
  }

  /** One line of the expectation file in Rk mode. */
  function RkLoadStep(rank: string, st: RkLoader, raw: string): Result<RkLoader> {
    if StartsWith(raw, "@@ranks") then
      var i :- RankIndex(raw, rank);
      Ok(st.(idx := Some(i)))
    else if StartsWith(raw, "@@negative") then Ok(st.(isNegative := true))
    else if StartsWith(raw, "@@positive") then Ok(st.(isNegative := false))
    else if st.isNegative then
      var pattern := Strip(raw, '\n');
      Ok(st.(patterns := st.patterns.(negative := AddKey(st.patterns.negative, pattern))))
    else
      var entry :- PositiveRk(Strip(raw, '\n'), st.idx);
      Ok(st.(patterns := st.patterns.(positive := Put(st.patterns.positive, entry.0, entry.1))))
  }

  function RkLoadSteps(rank: string): (RkLoader, string) -> Result<RkLoader> {
    (st, raw) => RkLoadStep(rank, st, raw)
  }

  const RK_LOADER_START: RkLoader := RkLoader(None, false, RkPatterns([], []))

  /** The pattern tables of an expectation file (Rk mode). */
  function LoadRk(lines: seq<string>, rank: string): Result<RkPatterns> {
    var st :- Fold(RkLoadSteps(rank), RK_LOADER_START, lines);
    Ok(st.patterns)
  }

  /** A rank line that does not list the requested rank ends the run, whatever follows. */
  lemma LoadRkRankAbsent(lines: seq<string>, rank: string, k: nat)
    requires k < |lines| && StartsWith(lines[k], "@@ranks")
    requires RankList(lines[k]).Some? && rank !in RankList(lines[k]).value
    ensures LoadRk(lines, rank).Err?
  {
    FoldNext(RkLoadSteps(rank), RK_LOADER_START, lines, k);
    FoldStopsAtError(RkLoadSteps(rank), RK_LOADER_START, lines, k + 1);
  }

  /** A line that is not one of the three `@@` headers: an entry line. */
  predicate IsDataLine(raw: string) {
    !StartsWith(raw, "@@ranks") && !StartsWith(raw, "@@negative") && !StartsWith(raw, "@@positive")
  }

  /** A `@@ranks` header sets the rank index and nothing else. */
  lemma RkRanksStep(rank: string, st: RkLoader, raw: string, k: nat)
    requires StartsWith(raw, "@@ranks") && RankIndex(raw, rank) == Ok(k)
    ensures RkLoadStep(rank, st, raw).Ok?
    ensures var next := RkLoadStep(rank, st, raw).value;
      next.idx == Some(k) && next.isNegative == st.isNegative && next.patterns == st.patterns
  {
  }

  /** A `@@ranks` header without the rank ends the load. */
  lemma RkRanksFails(rank: string, st: RkLoader, raw: string)
    requires StartsWith(raw, "@@ranks") && RankIndex(raw, rank).Err?
    ensures RkLoadStep(rank, st, raw) == Err(RankIndex(raw, rank).error)
  {
  }

  /** A `@@negative` or `@@positive` header switches the section. */
  lemma RkSectionStep(rank: string, st: RkLoader, raw: string)
    requires !StartsWith(raw, "@@ranks") && (StartsWith(raw, "@@negative") || StartsWith(raw, "@@positive"))
    ensures RkLoadStep(rank, st, raw).Ok?
    ensures var next := RkLoadStep(rank, st, raw).value;
      next.idx == st.idx && next.isNegative == StartsWith(raw, "@@negative") && next.patterns == st.patterns
  {
  }

  /** An entry line of a negative section adds its text as a negative pattern. */
  lemma RkNegativeStep(rank: string, st: RkLoader, raw: string)
    requires IsDataLine(raw) && st.isNegative
    ensures RkLoadStep(rank, st, raw).Ok?
    ensures var next := RkLoadStep(rank, st, raw).value;
      && next.idx == st.idx && next.isNegative
      && next.patterns.negative == AddKey(st.patterns.negative, Strip(raw, '\n'))
      && next.patterns.positive == st.patterns.positive
  {
  }

  /** An entry line of a positive section stores its label under its pattern. */
  lemma RkPositiveStep(rank: string, st: RkLoader, raw: string, pattern: string, lbl: Label)
    requires IsDataLine(raw) && !st.isNegative
    requires PositiveRk(Strip(raw, '\n'), st.idx) == Ok((pattern, lbl))
    ensures RkLoadStep(rank, st, raw).Ok?
    ensures var next := RkLoadStep(rank, st, raw).value;
      && next.idx == st.idx && !next.isNegative
      && next.patterns.negative == st.patterns.negative
      && next.patterns.positive == Put(st.patterns.positive, pattern, lbl)
  {
  }

  /** A malformed positive entry ends the load with its error. */
  lemma RkPositiveFails(rank: string, st: RkLoader, raw: string)
    requires IsDataLine(raw) && !st.isNegative && PositiveRk(Strip(raw, '\n'), st.idx).Err?
    ensures RkLoadStep(rank, st, raw) == Err(PositiveRk(Strip(raw, '\n'), st.idx).error)
  {
  }

  /** The loader state after the first k lines. */
  function RkLoaderBefore(rank: string, lines: seq<string>, k: nat): Result<RkLoader>
    requires k <= |lines|
  {
    Fold(RkLoadSteps(rank), RK_LOADER_START, lines[..k])
  }

  /** The negative entry a line makes when read in state st. */
  function NegativeOf(st: RkLoader, raw: string): Option<string> {
    if IsDataLine(raw) && st.isNegative then Some(Strip(raw, '\n')) else None
  }

  /** The positive entry a line makes when read in state st. */
  function PositiveOf(st: RkLoader, raw: string): Option<(string, Label)> {
    if IsDataLine(raw) && !st.isNegative && PositiveRk(Strip(raw, '\n'), st.idx).Ok?
    then Some(PositiveRk(Strip(raw, '\n'), st.idx).value)
    else None
  }

  /** The negative pattern line k contributes: its text, when it is an entry
      line read in a negative section. */
  function NegativeEntry(rank: string, lines: seq<string>, k: nat): Option<string>
    requires k < |lines|
  {
    match RkLoaderBefore(rank, lines, k)
    case Err(_) => None
    case Ok(st) => NegativeOf(st, lines[k])
  }

  /** The positive entry line k contributes: its pattern and label, when it is
      a well-formed entry line read in a positive section. */
  function PositiveEntry(rank: string, lines: seq<string>, k: nat): Option<(string, Label)>
    requires k < |lines|
  {
    match RkLoaderBefore(rank, lines, k)
    case Err(_) => None
    case Ok(st) => PositiveOf(st, lines[k])
  }

  /** The positive entry line k makes, None past the end of the file. */
  function PositiveAt(rank: string, lines: seq<string>): nat -> Option<(string, Label)> {
    (k: nat) => if k < |lines| then PositiveEntry(rank, lines, k) else None
  }

  /** The positive entries of the first n lines, one per line. */
  function PositiveEntries(rank: string, lines: seq<string>, n: nat): seq<Option<(string, Label)>> {
    Tabulate(PositiveAt(rank, lines), n)
  }

  /** Entry k of PositiveEntries is line k's. */
  lemma PositiveEntriesAt(rank: string, lines: seq<string>, n: nat, k: nat)
    requires k < n <= |lines|
    ensures PositiveEntries(rank, lines, n)[k] == PositiveEntry(rank, lines, k)
  {
    TabulateAt(PositiveAt(rank, lines), n, k);
  }

  /** The value of the last entry for `key`, read backwards from the end; None
      when no entry has that key. This is what a run of `d[key] = value`
      assignments leaves in `d[key]`. */
  function LastFor<V>(entries: seq<Option<(string, V)>>, key: string): Option<V> {
    if entries == [] then None
    else
      var e := entries[|entries| - 1];
      if e.Some? && e.value.0 == key then Some(e.value.1) else LastFor(entries[..|entries| - 1], key)
  }

  /** LastFor is the value of an entry for the key that no later entry for it
      overrides, and None exactly when no entry has the key. */
  lemma {:induction false} LastForMeaning<V>(entries: seq<Option<(string, V)>>, key: string)
    ensures LastFor(entries, key).None? <==>
      forall k :: 0 <= k < |entries| ==> entries[k].None? || entries[k].value.0 != key
    ensures LastFor(entries, key).Some? ==>
      exists k :: 0 <= k < |entries| && entries[k] == Some((key, LastFor(entries, key).value))
        && forall j :: k < j < |entries| ==> entries[j].None? || entries[j].value.0 != key
  {
    if entries != [] {
      var n := |entries| - 1;
      var front := entries[..n];
      LastForMeaning(front, key);
      assert forall k :: 0 <= k < n ==> front[k] == entries[k];
      var e := entries[n];
      if e.Some? && e.value.0 == key {
        assert entries[n] == Some((key, LastFor(entries, key).value));
      } else if LastFor(entries, key).Some? {
        var k :| 0 <= k < n && front[k] == Some((key, LastFor(front, key).value))
          && forall j :: k < j < n ==> front[j].None? || front[j].value.0 != key;
        assert entries[k] == Some((key, LastFor(entries, key).value));
      }
    }
  }

  /** The negative entry line k makes, None past the end of the file. */
  function NegativeAt(rank: string, lines: seq<string>): nat -> Option<string> {
    (k: nat) => if k < |lines| then NegativeEntry(rank, lines, k) else None
  }

  /** The negative entries of the first n lines, one per line. */
  function NegativeEntries(rank: string, lines: seq<string>, n: nat): seq<Option<string>> {
    Tabulate(NegativeAt(rank, lines), n)
  }

  /** Entry k of NegativeEntries is line k's. */
  lemma NegativeEntriesAt(rank: string, lines: seq<string>, n: nat, k: nat)
    requires k < n <= |lines|
    ensures NegativeEntries(rank, lines, n)[k] == NegativeEntry(rank, lines, k)
  {
    TabulateAt(NegativeAt(rank, lines), n, k);
  }

  /** What the Rk load holds after some lines, given their entries: the
      negative patterns are exactly the negative entries, and each pattern's
      positive label is the one of its last positive entry. */
  ghost predicate RkLoadedFrom(p: RkPatterns, negs: seq<Option<string>>, poss: seq<Option<(string, Label)>>) {
    && (forall x :: x in p.negative <==> Some(x) in negs)
    && (forall x :: Get(p.positive, x) == LastFor(poss, x))
    && Keys(p.positive) == FirstKeys(poss)
  }

  /** The pattern tables of a whole expectation file that loads: a negative
      pattern is exactly the text of some entry line of a negative section,
      and the label stored for a pattern is the one of its last entry line in
      a positive section (`d[k] = v` overrides), None for a pattern no such
      line has. */
  lemma LoadRkContents(lines: seq<string>, rank: string)
    requires LoadRk(lines, rank).Ok?
    ensures var p := LoadRk(lines, rank).value;
      && (forall x :: x in p.negative <==> exists k :: 0 <= k < |lines| && NegativeEntry(rank, lines, k) == Some(x))
      && (forall x :: Get(p.positive, x) == LastFor(PositiveEntries(rank, lines, |lines|), x))
      && Keys(p.positive) == FirstKeys(PositiveEntries(rank, lines, |lines|))
  {
    assert lines[..|lines|] == lines;
    RkLoadPrefix(rank, lines, |lines|);
    forall x ensures Some(x) in NegativeEntries(rank, lines, |lines|) <==>
                     exists k :: 0 <= k < |lines| && NegativeEntry(rank, lines, k) == Some(x) {
      NegativeEntriesHold(rank, lines, x);
    }
  }

  /** Some(x) is among the negative entries exactly when some line's entry is Some(x). */
  lemma NegativeEntriesHold(rank: string, lines: seq<string>, x: string)
    ensures Some(x) in NegativeEntries(rank, lines, |lines|) <==>
      exists k :: 0 <= k < |lines| && NegativeEntry(rank, lines, k) == Some(x)
  {
    var negs := NegativeEntries(rank, lines, |lines|);
    if Some(x) in negs {
      var k :| 0 <= k < |negs| && negs[k] == Some(x);
      NegativeEntriesAt(rank, lines, |lines|, k);
    }
    forall k | 0 <= k < |lines| && NegativeEntry(rank, lines, k) == Some(x) ensures Some(x) in negs {
      NegativeEntriesAt(rank, lines, |lines|, k);
    }
  }

  /** Read line by line: a pattern is a key of the positive table exactly when
      some entry line of a positive section carries it, and its label is the
      one of such a line that no later line for the pattern overrides. */
  lemma LoadRkPositive(lines: seq<string>, rank: string, x: string)
    requires LoadRk(lines, rank).Ok?
    ensures var pos := LoadRk(lines, rank).value.positive;
      x in Keys(pos) <==>
        exists k :: 0 <= k < |lines| && PositiveEntry(rank, lines, k).Some? && PositiveEntry(rank, lines, k).value.0 == x
    ensures var pos := LoadRk(lines, rank).value.positive;
      Get(pos, x).Some? ==>
        exists k :: 0 <= k < |lines| && PositiveEntry(rank, lines, k) == Some((x, Get(pos, x).value))
          && forall j :: k < j < |lines| ==> PositiveEntry(rank, lines, j).None? || PositiveEntry(rank, lines, j).value.0 != x
  {
    var pos := LoadRk(lines, rank).value.positive;
    var entries := PositiveEntries(rank, lines, |lines|);
    LoadRkContents(lines, rank);
    GetFacts(pos, x);
    LastForMeaning(entries, x);
    forall k | 0 <= k < |lines| ensures entries[k] == PositiveEntry(rank, lines, k) {
      PositiveEntriesAt(rank, lines, |lines|, k);
    }
  }

  /** Every prefix that loads holds what RkLoadedFrom says of its entries. */
  lemma {:induction false} RkLoadPrefix(rank: string, lines: seq<string>, n: nat)
    requires n <= |lines| && RkLoaderBefore(rank, lines, n).Ok?
    ensures RkLoadedFrom(RkLoaderBefore(rank, lines, n).value.patterns,
                         NegativeEntries(rank, lines, n), PositiveEntries(rank, lines, n))
  {
    if n == 0 {
      assert lines[..0] == [];
    } else {
      var m := n - 1;
      FoldNext(RkLoadSteps(rank), RK_LOADER_START, lines, m);
      var st := RkLoaderBefore(rank, lines, m).value;
      assert RkLoaderBefore(rank, lines, n) == RkLoadStep(rank, st, lines[m]);
      RkLoadPrefix(rank, lines, m);
      RkLoadedNext(rank, st, lines[m], RkLoaderBefore(rank, lines, n).value,
                   NegativeEntries(rank, lines, m), PositiveEntries(rank, lines, m),
                   NegativeEntry(rank, lines, m), PositiveEntry(rank, lines, m));
    }
  }

  /** One line more keeps RkLoadedFrom, with that line's entries appended. */
  lemma RkLoadedNext(rank: string, st: RkLoader, raw: string, next: RkLoader,
                     negs: seq<Option<string>>, poss: seq<Option<(string, Label)>>,
                     ne: Option<string>, pe: Option<(string, Label)>)
    requires RkLoadStep(rank, st, raw) == Ok(next)
    requires ne == NegativeOf(st, raw) && pe == PositiveOf(st, raw)
    requires RkLoadedFrom(st.patterns, negs, poss)
    ensures RkLoadedFrom(next.patterns, negs + [ne], poss + [pe])
  {
    if !IsDataLine(raw) {
      if StartsWith(raw, "@@ranks") {
        RkRanksStep(rank, st, raw, RankIndex(raw, rank).value);
      } else {
        RkSectionStep(rank, st, raw);
      }
      NegativeExtend(st.patterns.negative, negs, None);
      PositiveExtend(st.patterns.positive, poss, None);
      KeysExtend(st.patterns.positive, poss, None);
    } else if st.isNegative {
      RkNegativeStep(rank, st, raw);
      NegativeExtend(st.patterns.negative, negs, ne);
      PositiveExtend(st.patterns.positive, poss, None);
      KeysExtend(st.patterns.positive, poss, None);
    } else {
      var (pattern, lbl) := PositiveRk(Strip(raw, '\n'), st.idx).value;
      RkPositiveStep(rank, st, raw, pattern, lbl);
      NegativeExtend(st.patterns.negative, negs, None);
      PositiveExtend(st.patterns.positive, poss, pe);
      KeysExtend(st.patterns.positive, poss, pe);
    }
  }

  /** An entry appended to the negative entries: its text joins the patterns. */
  lemma NegativeExtend(neg: seq<string>, negs: seq<Option<string>>, e: Option<string>)
    requires forall x :: x in neg <==> Some(x) in negs
    ensures forall x :: x in (if e.Some? then AddKey(neg, e.value) else neg) <==> Some(x) in negs + [e]
  {
  }

  /** An entry appended to the positive entries: its label becomes the last one for its pattern. */
  lemma PositiveExtend(pos: Dict<Label>, poss: seq<Option<(string, Label)>>, e: Option<(string, Label)>)
    requires forall x :: Get(pos, x) == LastFor(poss, x)
    ensures forall x :: Get(if e.Some? then Put(pos, e.value.0, e.value.1) else pos, x) == LastFor(poss + [e], x)
  {
    assert (poss + [e])[..|poss|] == poss;
    if e.Some? {
      PutFacts(pos, e.value.0, e.value.1);
    }
  }

  /** An appended entry adds its key at the end when its key is new. */
  lemma KeysExtend(pos: Dict<Label>, poss: seq<Option<(string, Label)>>, e: Option<(string, Label)>)
    requires Keys(pos) == FirstKeys(poss)
    ensures Keys(if e.Some? then Put(pos, e.value.0, e.value.1) else pos) == FirstKeys(poss + [e])
  {
    assert (poss + [e])[..|poss|] == poss;
    if e.Some? {
      PutFacts(pos, e.value.0, e.value.1);
    }
  }

  /** Entry k has key x. */
  predicate KeyAt<V>(entries: seq<Option<(string, V)>>, k: nat, x: string)
    requires k < |entries|
  {
    entries[k].Some? && entries[k].value.0 == x
  }

  /** The keys of the entries, each listed once at its first entry, in the
      entries' order: the key order a run of `d[key] = value` assignments
      leaves in a dictionary. */
  function FirstKeys<V>(entries: seq<Option<(string, V)>>): seq<string> {
    if entries == [] then []
    else
      var front := FirstKeys(entries[..|entries| - 1]);
      var e := entries[|entries| - 1];
      if e.Some? && e.value.0 !in front then front + [e.value.0] else front
  }

  /** A key is listed exactly when some entry has it. */
  lemma {:induction false} FirstKeysHas<V>(entries: seq<Option<(string, V)>>, x: string)
    ensures x in FirstKeys(entries) <==> exists k :: 0 <= k < |entries| && KeyAt(entries, k, x)
  {
    if entries != [] {
      var n := |entries| - 1;
      var front := entries[..n];
      FirstKeysHas(front, x);
      if x in FirstKeys(front) {
        var k :| 0 <= k < n && KeyAt(front, k, x);
        assert KeyAt(entries, k, x);
      } else if KeyAt(entries, n, x) {
        assert x in FirstKeys(entries);
      } else {
        forall k | 0 <= k < n ensures !KeyAt(entries, k, x) {
          assert !KeyAt(front, k, x);
        }
      }
    }
  }

  /** Of two listed keys, the earlier one has an entry before every entry of
      the later one. */
  lemma {:induction false} FirstKeysOrder<V>(entries: seq<Option<(string, V)>>, i: nat, j: nat)
    requires i < j < |FirstKeys(entries)|
    ensures exists k :: 0 <= k < |entries| && KeyAt(entries, k, FirstKeys(entries)[i])
                        && forall k' :: 0 <= k' <= k ==> !KeyAt(entries, k', FirstKeys(entries)[j])
  {
    var n := |entries| - 1;
    var front := entries[..n];
    var keys := FirstKeys(front);
    assert forall k :: 0 <= k < n ==> front[k] == entries[k];
    var x := FirstKeys(entries)[i];
    var y := FirstKeys(entries)[j];
    if j < |keys| {
      assert x == keys[i] && y == keys[j];
      FirstKeysOrder(front, i, j);
      var k :| 0 <= k < n && KeyAt(front, k, x) && forall k' :: 0 <= k' <= k ==> !KeyAt(front, k', y);
      assert KeyAt(entries, k, x);
      forall k' | 0 <= k' <= k ensures !KeyAt(entries, k', y) {
        assert !KeyAt(front, k', y);
      }
    } else {
      assert y == entries[n].value.0 && y !in keys && x == keys[i];
      FirstKeysHas(front, x);
      FirstKeysHas(front, y);
      var k :| 0 <= k < n && KeyAt(front, k, x);
      assert KeyAt(entries, k, x);
      forall k' | 0 <= k' <= k ensures !KeyAt(entries, k', y) {
        assert !KeyAt(front, k', y);
      }
    }
  }

  /** The positive table lists its patterns in the order of their first
      positive entry lines: of two keys, the earlier one has an entry line
      before every entry line of the later one, which is the order in which
      the read resolver tries them. */
  lemma LoadRkOrder(lines: seq<string>, rank: string, i: nat, j: nat)
    requires LoadRk(lines, rank).Ok?
    requires i < j < |LoadRk(lines, rank).value.positive|
    ensures var keys := Keys(LoadRk(lines, rank).value.positive);
      exists k :: 0 <= k < |lines| && PositiveEntry(rank, lines, k).Some? && PositiveEntry(rank, lines, k).value.0 == keys[i]
        && forall k' :: 0 <= k' <= k ==> PositiveEntry(rank, lines, k').None? || PositiveEntry(rank, lines, k').value.0 != keys[j]
  {
    var keys := Keys(LoadRk(lines, rank).value.positive);
    var entries := PositiveEntries(rank, lines, |lines|);
    LoadRkContents(lines, rank);
    FirstKeysOrder(entries, i, j);
    var k :| 0 <= k < |entries| && KeyAt(entries, k, keys[i]) && forall k' :: 0 <= k' <= k ==> !KeyAt(entries, k', keys[j]);
    PositiveEntriesAt(rank, lines, |lines|, k);
    forall k' | 0 <= k' <= k
      ensures PositiveEntry(rank, lines, k').None? || PositiveEntry(rank, lines, k').value.0 != keys[j]
    {
      PositiveEntriesAt(rank, lines, |lines|, k');
      assert !KeyAt(entries, k', keys[j]);
    }
  }

  // ------------------------------------------------------- Bray-Curtis mode

  /** The abundance table: taxon -> row key ("exp" or a setting) -> count. */
  type Abunds = Dict<map<string, int>>

  /** The count of a taxon in a row, 0 where the table has no such cell (the
      value pandas' `fillna(0)` gives it). */
  function Count(abunds: Abunds, taxon: string, row: string): int {
    match Cell(abunds, taxon, row)
    case Some(n) => n
    case None => 0
  }

  /** Every inner dictionary has exactly the "exp" key: no setting is counted yet. */
  predicate OnlyExpected(abunds: Abunds) {
    forall i :: 0 <= i < |abunds| ==> abunds[i].1.Keys == {EXP}
  }

  /** The counts of a taxon per row; none for a taxon not in the table. */
  function Counts(abunds: Abunds, taxon: string): map<string, int> {
    match Get(abunds, taxon)
    case Some(m) => m
    case None => map[]
  }

  /** `abunds[taxon][row] = v`, where a missing taxon (`abunds[taxon] = {row: v}`)
      starts with no counts. */
  function SetCount(abunds: Abunds, taxon: string, row: string, v: int): Abunds {
    Put(abunds, taxon, Counts(abunds, taxon)[row := v])
  }

  /** `abunds[taxon][row] += n`, where a missing cell (`abunds[taxon][row] = n`)
      or a missing taxon (`abunds[taxon] = {row: n}`) starts from 0. */
  function AddCount(abunds: Abunds, taxon: string, row: string, n: int): Abunds {
    SetCount(abunds, taxon, row, Count(abunds, taxon, row) + n)
  }

  /** An assignment to a count cell: the taxon is added at the end when it is
      new, the cell holds the new count, every other cell keeps its count, the
      row's sum changes by the difference, other rows' sums are unchanged, and
      the row exists afterwards. */
  lemma SetCountFacts(abunds: Abunds, taxon: string, row: string, v: int)
    ensures var r := SetCount(abunds, taxon, row, v);
      && Keys(r) == (if taxon in Keys(abunds) then Keys(abunds) else Keys(abunds) + [taxon])
      && Cell(r, taxon, row) == Some(v)
      && (forall t, rw :: t != taxon || rw != row ==> Cell(r, t, rw) == Cell(abunds, t, rw))
      && RowSum(r, row) == RowSum(abunds, row) - Count(abunds, taxon, row) + v
      && (forall rw :: rw != row ==> RowSum(r, rw) == RowSum(abunds, rw))
      && Rows(r) == Rows(abunds) + {row}
      && (row == EXP && OnlyExpected(abunds) ==> OnlyExpected(r))
  {
    PutKeys(abunds, taxon, Counts(abunds, taxon)[row := v]);
    SetCountSums(abunds, taxon, row, v);
    SetCountCells(abunds, taxon, row, v);
    SetCountRows(abunds, taxon, row, v);
    SetCountOnlyExpected(abunds, taxon, row, v);
  }

  /** An increment of a count cell, of which a missing cell counts as 0. */
  lemma AddCountFacts(abunds: Abunds, taxon: string, row: string, n: int)
    ensures var r := AddCount(abunds, taxon, row, n);
      && Keys(r) == (if taxon in Keys(abunds) then Keys(abunds) else Keys(abunds) + [taxon])
      && Cell(r, taxon, row) == Some(Count(abunds, taxon, row) + n)
      && (forall t, rw :: t != taxon || rw != row ==> Cell(r, t, rw) == Cell(abunds, t, rw))
      && RowSum(r, row) == RowSum(abunds, row) + n
      && (forall rw :: rw != row ==> RowSum(r, rw) == RowSum(abunds, rw))
      && Rows(r) == Rows(abunds) + {row}
      && (row == EXP && OnlyExpected(abunds) ==> OnlyExpected(r))
  {
    var v := Count(abunds, taxon, row) + n;
    SetCountFacts(abunds, taxon, row, v);
    assert AddCount(abunds, taxon, row, n) == SetCount(abunds, taxon, row, v);
  }

  /** Adding n to a cell raises its count by n. */
  lemma AddCountRaises(abunds: Abunds, taxon: string, row: string, n: int)
    ensures Count(AddCount(abunds, taxon, row, n), taxon, row) == Count(abunds, taxon, row) + n
  {
    AddCountFacts(abunds, taxon, row, n);
  }

  /** An increment leaves every other taxon's counts as they were. */
  lemma AddCountOthers(abunds: Abunds, taxon: string, row: string, n: int)
    ensures forall t :: t != taxon ==> Get(AddCount(abunds, taxon, row, n), t) == Get(abunds, t)
  {
    var m := Counts(abunds, taxon)[row := Count(abunds, taxon, row) + n];
    forall t | t != taxon ensures Get(Put(abunds, taxon, m), t) == Get(abunds, t) {
      PutGetOther(abunds, taxon, m, t);
    }
  }

  lemma SetCountSums(abunds: Abunds, taxon: string, row: string, v: int)
    ensures RowSum(Put(abunds, taxon, Counts(abunds, taxon)[row := v]), row) ==
            RowSum(abunds, row) - Count(abunds, taxon, row) + v
    ensures forall rw :: rw != row ==>
      RowSum(Put(abunds, taxon, Counts(abunds, taxon)[row := v]), rw) == RowSum(abunds, rw)
  {
    var m' := Counts(abunds, taxon)[row := v];
    RowSumPut(abunds, taxon, m', row);
    forall rw | rw != row ensures RowSum(Put(abunds, taxon, m'), rw) == RowSum(abunds, rw) {
      RowSumPut(abunds, taxon, m', rw);
    }
  }

  lemma SetCountCells(abunds: Abunds, taxon: string, row: string, v: int)
    ensures Cell(Put(abunds, taxon, Counts(abunds, taxon)[row := v]), taxon, row) == Some(v)
    ensures forall t, rw :: t != taxon || rw != row ==>
      Cell(Put(abunds, taxon, Counts(abunds, taxon)[row := v]), t, rw) == Cell(abunds, t, rw)
  {
    var m' := Counts(abunds, taxon)[row := v];
    PutCells(abunds, taxon, m');
    forall rw | rw != row ensures Cell(Put(abunds, taxon, m'), taxon, rw) == Cell(abunds, taxon, rw) {
      assert (rw in m') == (rw in Counts(abunds, taxon));
    }
  }

  lemma SetCountRows(abunds: Abunds, taxon: string, row: string, v: int)
    ensures Rows(Put(abunds, taxon, Counts(abunds, taxon)[row := v])) == Rows(abunds) + {row}
  {
    var m := Counts(abunds, taxon);
    var m' := m[row := v];
    assert m'.Keys == m.Keys + {row};
    RowsPut(abunds, taxon, m');
    GetRows(abunds, taxon);
  }

  lemma SetCountOnlyExpected(abunds: Abunds, taxon: string, row: string, v: int)
    ensures row == EXP && OnlyExpected(abunds) ==> OnlyExpected(Put(abunds, taxon, Counts(abunds, taxon)[row := v]))
  {
    if row == EXP && OnlyExpected(abunds) {
      var m := Counts(abunds, taxon);
      GetFacts(abunds, taxon);
      if Get(abunds, taxon).Some? {
        var i :| 0 <= i < |abunds| && abunds[i] == (taxon, Get(abunds, taxon).value);
        assert m.Keys == {EXP};
      }
      OnlyExpectedPut(abunds, taxon, m[row := v]);
    }
  }

  lemma {:induction false} OnlyExpectedPut(abunds: Abunds, taxon: string, m: map<string, int>)
    requires OnlyExpected(abunds) ==> m.Keys == {EXP}
    ensures OnlyExpected(abunds) ==> OnlyExpected(Put(abunds, taxon, m))
  {
    if OnlyExpected(abunds) && abunds != [] && abunds[0].0 != taxon {
      OnlyExpectedPut(abunds[1..], taxon, m);
    }
  }

  /** The loop state of the Bray-Curtis loader. */
  datatype BcLoader = BcLoader(idx: Option<nat>, isNegative: bool, total: int, abunds: Abunds)

  /** A negative entry: the number of reads expected to stay unassigned. */
  function NegativeBc(line: string): (r: Result<int>)
    ensures r.Ok? <==> IsIntegerText(line)
    ensures r.Err? ==> r == Err(NotAnInteger(line))
  {
    match ParseInt(line)
    case None => Err(NotAnInteger(line))
    case Some(n) => Ok(n)
  }

  /** A negative count is the number int() reads from the line. */
  lemma NegativeBcParses(line: string)
    requires NegativeBc(line).Ok?
    ensures ParseInt(line) == Some(NegativeBc(line).value)
  {
  }

  /** A positive entry `<count><TAB><lineage>`, read as the taxon at the rank
      index and its count. */
  function PositiveBc(line: string, idx: Option<nat>): (r: Result<(string, int)>)
    ensures |Split(line, "\t")| != 2 ==> r == Err(MalformedLine(line))
    ensures |Split(line, "\t")| == 2 ==> var parts := Split(line, "\t");
      && (r.Ok? <==> IsIntegerText(parts[0]) && RankField(parts[1], idx).Ok?)
      && (!IsIntegerText(parts[0]) ==> r == Err(NotAnInteger(parts[0])))
      && (r.Ok? ==> r.value == (RankField(parts[1], idx).value, ParseInt(parts[0]).value))
  {
    var parts := Split(line, "\t");
    if |parts| != 2 then Err(MalformedLine(line))
    else match ParseInt(parts[0])
      case None => Err(NotAnInteger(parts[0]))
      case Some(n) =>
        var taxon :- RankField(parts[1], idx);
        Ok((taxon, n))
  }

  /** A count line written as a number, a tab and a lineage whose fields
      hold neither ';' nor a tab yields the field at the rank index and the
      number. */
  lemma PositiveBcEntry(n: int, fields: seq<string>, i: nat)
    requires i < |fields|
    requires forall k, j :: 0 <= k < |fields| && 0 <= j < |fields[k]| ==> fields[k][j] != ';' && fields[k][j] != '\t'
    ensures PositiveBc(FormatInt(n) + "\t" + Join(fields, ";"), Some(i)) == Ok((fields[i], n))
  {
    var count := FormatInt(n);
    var lineage := Join(fields, ";");
    JoinHasNo(fields, ';', '\t');
    FormatHasNoTab(n);
    SplitJoin([count, lineage], '\t');
    assert Join([count, lineage], "\t") == count + "\t" + lineage;
    ParseFormat(n);
    RankFieldOfLineage(fields, i);
  }

  /** A formatted integer has no tab. */
  lemma FormatHasNoTab(n: int)
    ensures forall j :: 0 <= j < |FormatInt(n)| ==> FormatInt(n)[j] != '\t'
  {
    var d := FormatNat(if n < 0 then -n else n);
    assert forall j :: 0 <= j < |d| ==> IsDigit(d[j]);
    if n < 0 {
      assert FormatInt(n) == "-" + d;
    }
  }

  /** One line of the expectation file in Bray-Curtis mode. */
  function BcLoadStep(rank: string, st: BcLoader, raw: string): Result<BcLoader> {
    if StartsWith(raw, "@@ranks") then
      var i :- RankIndex(raw, rank);
      Ok(st.(idx := Some(i)))
    else if StartsWith(raw, "@@negative") then Ok(st.(isNegative := true))
    else if StartsWith(raw, "@@positive") then Ok(st.(isNegative := false))
    else if st.isNegative then
      var n :- NegativeBc(Strip(raw, '\n'));
      Ok(st.(total := st.total + n, abunds := AddCount(st.abunds, UNMATCHED, EXP, n)))
    else
      var entry :- PositiveBc(Strip(raw, '\n'), st.idx);
      Ok(st.(total := st.total + entry.1, abunds := AddCount(st.abunds, entry.0, EXP, entry.1)))
  }

  /** A count line of the negative section adds its count to the total and to UNMATCHED. */
  lemma BcNegativeStep(rank: string, st: BcLoader, raw: string, n: int)
    requires !StartsWith(raw, "@@ranks") && !StartsWith(raw, "@@negative") && !StartsWith(raw, "@@positive")
    requires st.isNegative && NegativeBc(Strip(raw, '\n')) == Ok(n)
    ensures BcLoadStep(rank, st, raw).Ok?
    ensures var next := BcLoadStep(rank, st, raw).value;
      && next.idx == st.idx && next.isNegative && next.total == st.total + n
      && next.abunds == AddCount(st.abunds, UNMATCHED, EXP, n)
  {
  }

  /** A lineage line of the positive section adds its count to the total and to its taxon. */
  lemma BcPositiveStep(rank: string, st: BcLoader, raw: string, taxon: string, n: int)
    requires !StartsWith(raw, "@@ranks") && !StartsWith(raw, "@@negative") && !StartsWith(raw, "@@positive")
    requires !st.isNegative && PositiveBc(Strip(raw, '\n'), st.idx) == Ok((taxon, n))
    ensures BcLoadStep(rank, st, raw).Ok?
    ensures var next := BcLoadStep(rank, st, raw).value;
      && next.idx == st.idx && !next.isNegative && next.total == st.total + n
      && next.abunds == AddCount(st.abunds, taxon, EXP, n)
  {
  }

  /** A negative count line that is not an integer ends the load. */
  lemma BcNegativeFails(rank: string, st: BcLoader, raw: string)
    requires !StartsWith(raw, "@@ranks") && !StartsWith(raw, "@@negative") && !StartsWith(raw, "@@positive")
    requires st.isNegative && NegativeBc(Strip(raw, '\n')).Err?
    ensures BcLoadStep(rank, st, raw) == Err(NegativeBc(Strip(raw, '\n')).error)
  {
  }

  /** A malformed positive line ends the load. */
  lemma BcPositiveFails(rank: string, st: BcLoader, raw: string)
    requires !StartsWith(raw, "@@ranks") && !StartsWith(raw, "@@negative") && !StartsWith(raw, "@@positive")
    requires !st.isNegative && PositiveBc(Strip(raw, '\n'), st.idx).Err?
    ensures BcLoadStep(rank, st, raw) == Err(PositiveBc(Strip(raw, '\n'), st.idx).error)
  {
  }

  function BcLoadSteps(rank: string): (BcLoader, string) -> Result<BcLoader> {
    (st, raw) => BcLoadStep(rank, st, raw)
  }

  const BC_LOADER_START: BcLoader := BcLoader(None, false, 0, [])

  /** The total abundance and the expected abundance table of an expectation
      file (Bray-Curtis mode). */
  function LoadBc(lines: seq<string>, rank: string): Result<(int, Abunds)> {
    var st :- Fold(BcLoadSteps(rank), BC_LOADER_START, lines);
    Ok((st.total, st.abunds))
  }

  /** One line of the expectation file more, in Bray-Curtis mode. */
  lemma BcLoadNext(rank: string, lines: seq<string>, i: nat, st: BcLoader)
    requires i < |lines| && Fold(BcLoadSteps(rank), BC_LOADER_START, lines[..i]) == Ok(st)
    requires BcLoadStep(rank, st, lines[i]).Ok?
    ensures Fold(BcLoadSteps(rank), BC_LOADER_START, lines[..i + 1]) == Ok(BcLoadStep(rank, st, lines[i]).value)
  {
    assert BcLoadSteps(rank)(st, lines[i]) == BcLoadStep(rank, st, lines[i]);
    FoldOk(BcLoadSteps(rank), BC_LOADER_START, lines, i, st, BcLoadStep(rank, st, lines[i]).value);
  }

  /** A line that does not parse ends the whole load with its error. */
  lemma BcLoadFailsAt(rank: string, lines: seq<string>, i: nat, st: BcLoader, e: Error)
    requires i < |lines| && Fold(BcLoadSteps(rank), BC_LOADER_START, lines[..i]) == Ok(st)
    requires BcLoadStep(rank, st, lines[i]) == Err(e)
    ensures Fold(BcLoadSteps(rank), BC_LOADER_START, lines) == Err(e)
  {
    assert BcLoadSteps(rank)(st, lines[i]) == BcLoadStep(rank, st, lines[i]);
    FoldFailsAt(BcLoadSteps(rank), BC_LOADER_START, lines, i);
  }

  /** A `@@ranks` header naming the rank sets the rank index. */
  lemma BcRanksStep(rank: string, st: BcLoader, raw: string, k: nat)
    requires StartsWith(raw, "@@ranks") && RankIndex(raw, rank) == Ok(k)
    ensures BcLoadStep(rank, st, raw).Ok?
    ensures var next := BcLoadStep(rank, st, raw).value;
      next.idx == Some(k) && next.isNegative == st.isNegative && next.total == st.total && next.abunds == st.abunds
  {
  }

  /** A `@@ranks` header without the rank ends the load. */
  lemma BcRanksFails(rank: string, st: BcLoader, raw: string)
    requires StartsWith(raw, "@@ranks") && RankIndex(raw, rank).Err?
    ensures BcLoadStep(rank, st, raw) == Err(RankIndex(raw, rank).error)
  {
  }

  /** A `@@negative` or `@@positive` header switches the section. */
  lemma BcSectionStep(rank: string, st: BcLoader, raw: string)
    requires !StartsWith(raw, "@@ranks") && (StartsWith(raw, "@@negative") || StartsWith(raw, "@@positive"))
    ensures BcLoadStep(rank, st, raw).Ok?
    ensures var next := BcLoadStep(rank, st, raw).value;
      next.idx == st.idx && next.isNegative == StartsWith(raw, "@@negative") && next.total == st.total && next.abunds == st.abunds
  {
  }

  /** What the loader keeps true line by line: the total is the sum of all
      expected counts, and no setting appears in the table. */
  predicate BcLoaderInvariant(st: BcLoader) {
    st.total == RowSum(st.abunds, EXP) && OnlyExpected(st.abunds)
  }

  lemma BcLoadStepKeeps(rank: string, st: BcLoader, raw: string)
    requires BcLoaderInvariant(st) && BcLoadStep(rank, st, raw).Ok?
    ensures BcLoaderInvariant(BcLoadStep(rank, st, raw).value)
  {
    if StartsWith(raw, "@@ranks") {
      var k := RankIndex(raw, rank).value;
      BcRanksStep(rank, st, raw, k);
    } else if StartsWith(raw, "@@negative") || StartsWith(raw, "@@positive") {
      BcSectionStep(rank, st, raw);
    } else if st.isNegative {
      BcNegativeKeeps(rank, st, raw);
    } else {
      BcPositiveKeeps(rank, st, raw);
    }
  }

  lemma BcNegativeKeeps(rank: string, st: BcLoader, raw: string)
    requires !StartsWith(raw, "@@ranks") && !StartsWith(raw, "@@negative") && !StartsWith(raw, "@@positive")
    requires BcLoaderInvariant(st) && st.isNegative && BcLoadStep(rank, st, raw).Ok?
    ensures BcLoaderInvariant(BcLoadStep(rank, st, raw).value)
  {
    var n := NegativeBc(Strip(raw, '\n')).value;
    BcNegativeStep(rank, st, raw, n);
    AddExpectedKeeps(st.abunds, UNMATCHED, n);
  }

  lemma BcPositiveKeeps(rank: string, st: BcLoader, raw: string)
    requires !StartsWith(raw, "@@ranks") && !StartsWith(raw, "@@negative") && !StartsWith(raw, "@@positive")
    requires BcLoaderInvariant(st) && !st.isNegative && BcLoadStep(rank, st, raw).Ok?
    ensures BcLoaderInvariant(BcLoadStep(rank, st, raw).value)
  {
    var (taxon, n) := PositiveBc(Strip(raw, '\n'), st.idx).value;
    BcPositiveStep(rank, st, raw, taxon, n);
    AddExpectedKeeps(st.abunds, taxon, n);
  }

  /** An expected count added to a table of expected counts only raises
      their sum by the count and adds no other row. */
  lemma AddExpectedKeeps(abunds: Abunds, taxon: string, n: int)
    requires OnlyExpected(abunds)
    ensures RowSum(AddCount(abunds, taxon, EXP, n), EXP) == RowSum(abunds, EXP) + n
    ensures OnlyExpected(AddCount(abunds, taxon, EXP, n))
  {
    var v := Count(abunds, taxon, EXP) + n;
    SetCountSums(abunds, taxon, EXP, v);
    SetCountOnlyExpected(abunds, taxon, EXP, v);
  }

  lemma {:induction false} BcLoadKeeps(rank: string, lines: seq<string>)
    decreases |lines|
    requires Fold(BcLoadSteps(rank), BC_LOADER_START, lines).Ok?
    ensures BcLoaderInvariant(Fold(BcLoadSteps(rank), BC_LOADER_START, lines).value)
  {
    if lines != [] {
      var prefix := lines[..|lines| - 1];
      BcLoadKeeps(rank, prefix);
      BcLoadStepKeeps(rank, Fold(BcLoadSteps(rank), BC_LOADER_START, prefix).value, lines[|lines| - 1]);
    }
  }

  /** The loaded total abundance is the sum of every expected count, negative
      ones (under UNMATCHED) included, and only "exp" cells exist. */
  lemma LoadBcTotal(lines: seq<string>, rank: string)
    requires LoadBc(lines, rank).Ok?
    ensures LoadBc(lines, rank).value.0 == RowSum(LoadBc(lines, rank).value.1, EXP)
    ensures OnlyExpected(LoadBc(lines, rank).value.1)
  {
    BcLoadKeeps(rank, lines);
  }

  /** A negative line of count n adds n to the total and to UNMATCHED's
      expected count and to nothing else. */
  lemma BcNegativeLine(rank: string, st: BcLoader, raw: string)
    requires st.isNegative && BcLoadStep(rank, st, raw).Ok?
    requires !StartsWith(raw, "@@ranks") && !StartsWith(raw, "@@negative") && !StartsWith(raw, "@@positive")
    ensures var st' := BcLoadStep(rank, st, raw).value;
      var n := ParseInt(Strip(raw, '\n')).value;
      && st'.total == st.total + n
      && Count(st'.abunds, UNMATCHED, EXP) == Count(st.abunds, UNMATCHED, EXP) + n
      && forall t :: t != UNMATCHED ==> Get(st'.abunds, t) == Get(st.abunds, t)
  {
    var line := Strip(raw, '\n');
    assert NegativeBc(line).Ok?;
    var n := NegativeBc(line).value;
    NegativeBcParses(line);
    BcNegativeStep(rank, st, raw, n);
    LoaderAdded(st, BcLoadStep(rank, st, raw).value, UNMATCHED, n);
  }

  /** A positive line adds its count to the total and to its taxon's expected
      count and to nothing else. */
  lemma BcPositiveLine(rank: string, st: BcLoader, raw: string)
    requires !st.isNegative && BcLoadStep(rank, st, raw).Ok?
    requires !StartsWith(raw, "@@ranks") && !StartsWith(raw, "@@negative") && !StartsWith(raw, "@@positive")
    ensures var st' := BcLoadStep(rank, st, raw).value;
      var entry := PositiveBc(Strip(raw, '\n'), st.idx).value;
      && st'.total == st.total + entry.1
      && Count(st'.abunds, entry.0, EXP) == Count(st.abunds, entry.0, EXP) + entry.1
      && forall t :: t != entry.0 ==> Get(st'.abunds, t) == Get(st.abunds, t)
  {
    var (taxon, n) := PositiveBc(Strip(raw, '\n'), st.idx).value;
    BcPositiveStep(rank, st, raw, taxon, n);
    LoaderAdded(st, BcLoadStep(rank, st, raw).value, taxon, n);
  }

  /** A loader step that adds n to one taxon's expected count changes no
      other taxon. */
  lemma LoaderAdded(st: BcLoader, next: BcLoader, taxon: string, n: int)
    requires next.total == st.total + n && next.abunds == AddCount(st.abunds, taxon, EXP, n)
    ensures Count(next.abunds, taxon, EXP) == Count(st.abunds, taxon, EXP) + n
    ensures forall t :: t != taxon ==> Get(next.abunds, t) == Get(st.abunds, t)
  {
    AddCountRaises(st.abunds, taxon, EXP, n);
    AddCountOthers(st.abunds, taxon, EXP, n);
  }

  /** A count line of the expectation file as the loader reads it: the
      section it is in, the taxon it counts for (UNMATCHED in a negative
      section) and its count. */
  datatype CountLine = CountLine(negative: bool, taxon: string, count: int)

  /** The count a line makes when read in state st; None for a header line or
      a line that does not parse. */
  function CountOf(st: BcLoader, raw: string): Option<CountLine> {
    if !IsDataLine(raw) then None
    else if st.isNegative then
      match NegativeBc(Strip(raw, '\n'))
      case Ok(n) => Some(CountLine(true, UNMATCHED, n))
      case Err(_) => None
    else
      match PositiveBc(Strip(raw, '\n'), st.idx)
      case Ok(entry) => Some(CountLine(false, entry.0, entry.1))
      case Err(_) => None
  }

  /** The loader state after the first k lines, in Bray-Curtis mode. */
  function BcLoaderBefore(rank: string, lines: seq<string>, k: nat): Result<BcLoader>
    requires k <= |lines|
  {
    Fold(BcLoadSteps(rank), BC_LOADER_START, lines[..k])
  }

  /** The count line k makes, read in the state the lines before it leave. */
  function CountEntry(rank: string, lines: seq<string>, k: nat): Option<CountLine>
    requires k < |lines|
  {
    match BcLoaderBefore(rank, lines, k)
    case Err(_) => None
    case Ok(st) => CountOf(st, lines[k])
  }

  /** The count line k makes, None past the end of the file. */
  function CountAt(rank: string, lines: seq<string>): nat -> Option<CountLine> {
    (k: nat) => if k < |lines| then CountEntry(rank, lines, k) else None
  }

  /** The count entries of the first n lines, one per line. */
  function CountEntries(rank: string, lines: seq<string>, n: nat): seq<Option<CountLine>> {
    Tabulate(CountAt(rank, lines), n)
  }

  /** Entry k of CountEntries is line k's. */
  lemma CountEntriesAt(rank: string, lines: seq<string>, n: nat, k: nat)
    requires k < n <= |lines|
    ensures CountEntries(rank, lines, n)[k] == CountEntry(rank, lines, k)
  {
    TabulateAt(CountAt(rank, lines), n, k);
  }

  /** The sum of all counts. */
  function SumCounts(entries: seq<Option<CountLine>>): int {
    if entries == [] then 0
    else
      var e := entries[|entries| - 1];
      SumCounts(entries[..|entries| - 1]) + (if e.Some? then e.value.count else 0)
  }

  /** The sum of the counts for one taxon. */
  function SumFor(entries: seq<Option<CountLine>>, taxon: string): int {
    if entries == [] then 0
    else
      var e := entries[|entries| - 1];
      SumFor(entries[..|entries| - 1], taxon) + (if e.Some? && e.value.taxon == taxon then e.value.count else 0)
  }

  /** The sum of the counts of the negative section. */
  function NegativeSum(entries: seq<Option<CountLine>>): int {
    if entries == [] then 0
    else
      var e := entries[|entries| - 1];
      NegativeSum(entries[..|entries| - 1]) + (if e.Some? && e.value.negative then e.value.count else 0)
  }

  /** The sum of the counts of the positive sections. */
  function PositiveSum(entries: seq<Option<CountLine>>): int {
    if entries == [] then 0
    else
      var e := entries[|entries| - 1];
      PositiveSum(entries[..|entries| - 1]) + (if e.Some? && !e.value.negative then e.value.count else 0)
  }

  /** Every count is a negative one or a positive one. */
  lemma {:induction false} SumCountsSplit(entries: seq<Option<CountLine>>)
    ensures SumCounts(entries) == NegativeSum(entries) + PositiveSum(entries)
  {
    if entries != [] {
      SumCountsSplit(entries[..|entries| - 1]);
    }
  }

  /** The count entries are well formed: a negative one counts for UNMATCHED. */
  predicate NegativesUnmatched(entries: seq<Option<CountLine>>) {
    forall k :: 0 <= k < |entries| && entries[k].Some? && entries[k].value.negative ==> entries[k].value.taxon == UNMATCHED
  }

  /** When no positive line counts for UNMATCHED, UNMATCHED's counts are
      exactly the negative section's. */
  lemma {:induction false} UnmatchedIsNegative(entries: seq<Option<CountLine>>)
    requires NegativesUnmatched(entries)
    requires forall k :: 0 <= k < |entries| && entries[k].Some? && !entries[k].value.negative ==> entries[k].value.taxon != UNMATCHED
    ensures SumFor(entries, UNMATCHED) == NegativeSum(entries)
  {
    if entries != [] {
      var front := entries[..|entries| - 1];
      assert forall k :: 0 <= k < |front| ==> front[k] == entries[k];
      UnmatchedIsNegative(front);
    }
  }

  /** What the BC load holds after some lines, given their count entries: the
      total is the sum of all counts, and each taxon's expected count is the
      sum of the counts for it. */
  ghost predicate BcLoadedFrom(st: BcLoader, entries: seq<Option<CountLine>>) {
    && st.total == SumCounts(entries)
    && (forall taxon :: Count(st.abunds, taxon, EXP) == SumFor(entries, taxon))
    && NegativesUnmatched(entries)
  }

  /** The totals of a whole expectation file that loads (Bray-Curtis mode):
      `totalAbund` is the sum of every count line's count, negative and
      positive; each taxon's expected count is the sum of the counts of the
      lines for it; and UNMATCHED's is the sum of the negative section's
      counts, plus those of any positive line whose taxon is UNMATCHED. */
  lemma LoadBcCounts(lines: seq<string>, rank: string)
    requires LoadBc(lines, rank).Ok?
    ensures var (total, abunds) := LoadBc(lines, rank).value;
      var entries := CountEntries(rank, lines, |lines|);
      && total == SumCounts(entries) == NegativeSum(entries) + PositiveSum(entries)
      && (forall taxon :: Count(abunds, taxon, EXP) == SumFor(entries, taxon))
      && NegativesUnmatched(entries)
  {
    assert lines[..|lines|] == lines;
    BcLoadPrefix(rank, lines, |lines|);
    SumCountsSplit(CountEntries(rank, lines, |lines|));
  }

  /** When no positive line has UNMATCHED as its taxon, which is what the
      script assumes, UNMATCHED's expected count is the negative section's sum. */
  lemma LoadBcUnmatched(lines: seq<string>, rank: string)
    requires LoadBc(lines, rank).Ok?
    requires forall k :: 0 <= k < |lines| && CountEntry(rank, lines, k).Some? && !CountEntry(rank, lines, k).value.negative
               ==> CountEntry(rank, lines, k).value.taxon != UNMATCHED
    ensures Count(LoadBc(lines, rank).value.1, UNMATCHED, EXP) == NegativeSum(CountEntries(rank, lines, |lines|))
  {
    var entries := CountEntries(rank, lines, |lines|);
    LoadBcCounts(lines, rank);
    forall k | 0 <= k < |entries| && entries[k].Some? && !entries[k].value.negative
      ensures entries[k].value.taxon != UNMATCHED
    {
      CountEntriesAt(rank, lines, |lines|, k);
    }
    UnmatchedIsNegative(entries);
  }

  /** Every prefix that loads holds what BcLoadedFrom says of its entries. */
  lemma {:induction false} BcLoadPrefix(rank: string, lines: seq<string>, n: nat)
    requires n <= |lines| && BcLoaderBefore(rank, lines, n).Ok?
    ensures BcLoadedFrom(BcLoaderBefore(rank, lines, n).value, CountEntries(rank, lines, n))
  {
    if n == 0 {
      assert lines[..0] == [];
    } else {
      var m := n - 1;
      FoldNext(BcLoadSteps(rank), BC_LOADER_START, lines, m);
      var st := BcLoaderBefore(rank, lines, m).value;
      assert BcLoaderBefore(rank, lines, n) == BcLoadStep(rank, st, lines[m]);
      BcLoadPrefix(rank, lines, m);
      BcLoadedNext(rank, st, lines[m], BcLoaderBefore(rank, lines, n).value,
                   CountEntries(rank, lines, m), CountEntry(rank, lines, m));
    }
  }

  /** One line more keeps BcLoadedFrom, with that line's count appended. */
  lemma BcLoadedNext(rank: string, st: BcLoader, raw: string, next: BcLoader,
                     entries: seq<Option<CountLine>>, e: Option<CountLine>)
    requires BcLoadStep(rank, st, raw) == Ok(next)
    requires e == CountOf(st, raw)
    requires BcLoadedFrom(st, entries)
    ensures BcLoadedFrom(next, entries + [e])
  {
    if !IsDataLine(raw) {
      if StartsWith(raw, "@@ranks") {
        BcRanksStep(rank, st, raw, RankIndex(raw, rank).value);
      } else {
        BcSectionStep(rank, st, raw);
      }
    } else if st.isNegative {
      var n := NegativeBc(Strip(raw, '\n')).value;
      BcNegativeStep(rank, st, raw, n);
      LoaderAdded(st, next, UNMATCHED, n);
    } else {
      var (taxon, n) := PositiveBc(Strip(raw, '\n'), st.idx).value;
      BcPositiveStep(rank, st, raw, taxon, n);
      LoaderAdded(st, next, taxon, n);
    }
    CountsExtend(st, next, entries, e);
  }

  /** Appending a count entry: the total and its taxon's count grow by its
      count when the loader added it, and nothing changes for no entry. */
  lemma CountsExtend(st: BcLoader, next: BcLoader, entries: seq<Option<CountLine>>, e: Option<CountLine>)
    requires BcLoadedFrom(st, entries)
    requires e.None? ==> next.total == st.total && next.abunds == st.abunds
    requires e.Some? ==> && next.total == st.total + e.value.count
                         && Count(next.abunds, e.value.taxon, EXP) == Count(st.abunds, e.value.taxon, EXP) + e.value.count
                         && (forall t :: t != e.value.taxon ==> Get(next.abunds, t) == Get(st.abunds, t))
                         && (e.value.negative ==> e.value.taxon == UNMATCHED)
    ensures BcLoadedFrom(next, entries + [e])
  {
    var all := entries + [e];
    assert all[..|entries|] == entries;
    assert forall k :: 0 <= k < |entries| ==> all[k] == entries[k];
  }
}
