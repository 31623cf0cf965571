/** Resolving the query reads against the expectation patterns (Rk mode,
    metag-train.py lines 193-214). Every header line of the query file names
    a read; the read is expected unclassified when a negative pattern occurs
    in its name, else it takes the label of the first positive pattern that
    occurs in it; a read no pattern accounts for ends the run. */
module Resolver {
  import opened Common
  import opened Text
  import opened Dicts
  import opened Lines
  import opened Expectation

  /** The position of the first pattern that occurs in id (`re.search` in file order). */
  function FirstMatch(patterns: seq<string>, id: string): (r: Option<nat>)
    ensures r.Some? ==> r.value < |patterns| && Contains(id, patterns[r.value])
    ensures r.Some? ==> forall j :: 0 <= j < r.value ==> !Contains(id, patterns[j])
    ensures r.None? <==> forall j :: 0 <= j < |patterns| ==> !Contains(id, patterns[j])
  {
    if patterns == [] then None
    else if Contains(id, patterns[0]) then Some(0)
    else match FirstMatch(patterns[1..], id)
      case None => None
      case Some(i) => Some(i + 1)
  }

  /** The expected label of a read: Some(None) when a negative pattern
      matches (NaN), Some(label) of the first matching positive pattern
      otherwise, None when nothing matches. */
  function ExpectedLabel(id: string, p: RkPatterns): (r: Option<Label>)
    ensures r.None? <==>
      (forall j :: 0 <= j < |p.negative| ==> !Contains(id, p.negative[j])) &&
      (forall j :: 0 <= j < |p.positive| ==> !Contains(id, p.positive[j].0))
    ensures (exists j :: 0 <= j < |p.negative| && Contains(id, p.negative[j])) ==> r == Some(None)
    ensures FirstMatch(p.negative, id).None? && FirstMatch(Keys(p.positive), id).Some? ==>
      r == Some(p.positive[FirstMatch(Keys(p.positive), id).value].1)
  {
    if FirstMatch(p.negative, id).Some? then Some(None)
    else match FirstMatch(Keys(p.positive), id)
      case Some(i) => Some(p.positive[i].1)
      case None => None
  }

  /** Every pattern of the positive table, in order, matches or not as its key does. */
  lemma KeysMatch(p: RkPatterns, id: string)
    ensures FirstMatch(Keys(p.positive), id).None? <==>
      forall j :: 0 <= j < |p.positive| ==> !Contains(id, p.positive[j].0)
  {
  }

  /** The read name of a query header: `line.strip(">").strip("\n")`. */
  function HeaderId(raw: string): string {
    Strip(Strip(raw, '>'), '\n')
  }

  predicate IsHeader(raw: string) {
    StartsWith(raw, ">")
  }

  /** The read table: read -> row key ("exp" or a setting) -> label. */
  type Reads = Dict<map<string, Label>>

  /** One line of the query file. */
  function ResolveStep(p: RkPatterns, table: Reads, raw: string): Result<Reads> {
    if IsHeader(raw) then
      var id := HeaderId(raw);
      match ExpectedLabel(id, p)
      case None => Err(UnexpectedReadId(id))
      case Some(expected) => Ok(Put(table, id, map[EXP := expected]))
    else Ok(table)
  }

  function ResolveSteps(p: RkPatterns): (Reads, string) -> Result<Reads> {
    (table, raw) => ResolveStep(p, table, raw)
  }

  /** The read table the query file yields: one entry per read, holding only
      its expected label. */
  function Resolve(p: RkPatterns, query: seq<string>): Result<Reads> {
    Fold(ResolveSteps(p), [], query)
  }

  /** One query line more. */
  lemma ResolveNext(p: RkPatterns, query: seq<string>, i: nat, table: Reads)
    requires i < |query| && Fold(ResolveSteps(p), [], query[..i]) == Ok(table)
    requires ResolveStep(p, table, query[i]).Ok?
    ensures Fold(ResolveSteps(p), [], query[..i + 1]) == Ok(ResolveStep(p, table, query[i]).value)
  {
    assert ResolveSteps(p)(table, query[i]) == ResolveStep(p, table, query[i]);
    FoldOk(ResolveSteps(p), [], query, i, table, ResolveStep(p, table, query[i]).value);
  }

  /** A query line whose step fails ends the resolution with that failure. */
  lemma ResolveFailsAt(p: RkPatterns, query: seq<string>, i: nat, table: Reads, e: Error)
    requires i < |query| && Fold(ResolveSteps(p), [], query[..i]) == Ok(table)
    requires ResolveStep(p, table, query[i]) == Err(e)
    ensures Fold(ResolveSteps(p), [], query) == Err(e)
  {
    assert ResolveSteps(p)(table, query[i]) == ResolveStep(p, table, query[i]);
    FoldFailsAt(ResolveSteps(p), [], query, i);
  }

  /** A header that a negative pattern matches is expected unclassified. */
  lemma ResolveNegativeStep(p: RkPatterns, table: Reads, raw: string, k: nat)
    requires IsHeader(raw) && FirstMatch(p.negative, HeaderId(raw)) == Some(k)
    ensures ResolveStep(p, table, raw).Ok?
    ensures ResolveStep(p, table, raw).value == Put(table, HeaderId(raw), map[EXP := None])
  {
  }

  /** Otherwise a header takes the label of the first positive pattern that matches. */
  lemma ResolvePositiveStep(p: RkPatterns, table: Reads, raw: string, k: nat)
    requires IsHeader(raw) && FirstMatch(p.negative, HeaderId(raw)).None?
    requires FirstMatch(Keys(p.positive), HeaderId(raw)) == Some(k)
    ensures ResolveStep(p, table, raw).Ok?
    ensures ResolveStep(p, table, raw).value == Put(table, HeaderId(raw), map[EXP := p.positive[k].1])
  {
  }

  /** A header no pattern matches ends the run. */
  lemma ResolveUnknownStep(p: RkPatterns, table: Reads, raw: string)
    requires IsHeader(raw) && FirstMatch(p.negative, HeaderId(raw)).None?
    requires FirstMatch(Keys(p.positive), HeaderId(raw)).None?
    ensures ResolveStep(p, table, raw) == Err(UnexpectedReadId(HeaderId(raw)))
  {
  }

  /** The names of the query headers, in file order. */
  function HeaderIds(query: seq<string>): seq<string>
    decreases |query|
  {
    if query == [] then []
    else
      var rest := HeaderIds(query[..|query| - 1]);
      if IsHeader(query[|query| - 1]) then rest + [HeaderId(query[|query| - 1])] else rest
  }

  /** What the resolver keeps true: one entry per header read so far, each
      with nothing but the label the patterns give it. */
  ghost predicate ResolvedTable(p: RkPatterns, table: Reads, ids: seq<string>) {
    && Distinct(Keys(table))
    && (forall id :: id in Keys(table) <==> id in ids)
    && (forall k :: 0 <= k < |table| ==> EntryResolved(p, table[k]))
  }

  /** A read's entry holds exactly its expected label. */
  predicate EntryResolved(p: RkPatterns, entry: (string, map<string, Label>)) {
    ExpectedLabel(entry.0, p).Some? && entry.1 == map[EXP := ExpectedLabel(entry.0, p).value]
  }

  /** A header line that no pattern accounts for. */
  predicate Unresolvable(p: RkPatterns, raw: string) {
    IsHeader(raw) && ExpectedLabel(HeaderId(raw), p).None?
  }

  lemma ResolveStepKeeps(p: RkPatterns, table: Reads, ids: seq<string>, raw: string)
    requires ResolvedTable(p, table, ids) && ResolveStep(p, table, raw).Ok?
    ensures ResolvedTable(p, ResolveStep(p, table, raw).value, if IsHeader(raw) then ids + [HeaderId(raw)] else ids)
  {
    if IsHeader(raw) {
      var id := HeaderId(raw);
      var expected := ExpectedLabel(id, p).value;
      var m := map[EXP := expected];
      assert ResolveStep(p, table, raw) == Ok(Put(table, id, m));
      PutResolved(p, table, ids, id, m);
    }
  }

  /** Recording a resolved entry keeps the table resolved, with one more read. */
  lemma PutResolved(p: RkPatterns, table: Reads, ids: seq<string>, id: string, m: map<string, Label>)
    requires ResolvedTable(p, table, ids) && EntryResolved(p, (id, m))
    ensures ResolvedTable(p, Put(table, id, m), ids + [id])
  {
    PutKeys(table, id, m);
    PutKeepsDistinct(table, id, m);
    PutEntriesResolved(p, table, id, m);
  }

  /** Every entry of Put(table, id, m) is resolved when those of table and (id, m) are. */
  lemma {:induction false} PutEntriesResolved(p: RkPatterns, table: Reads, id: string, m: map<string, Label>)
    requires forall k :: 0 <= k < |table| ==> EntryResolved(p, table[k])
    requires EntryResolved(p, (id, m))
    ensures forall k :: 0 <= k < |Put(table, id, m)| ==> EntryResolved(p, Put(table, id, m)[k])
  {
    if table != [] && table[0].0 != id {
      PutEntriesResolved(p, table[1..], id, m);
      assert Put(table, id, m) == [table[0]] + Put(table[1..], id, m);
    }
  }

  /** A successful resolution gives every query header exactly one entry,
      no other entry, and the expected label the patterns assign. */
  lemma {:induction false} ResolveEntries(p: RkPatterns, query: seq<string>)
    decreases |query|
    requires Resolve(p, query).Ok?
    ensures ResolvedTable(p, Resolve(p, query).value, HeaderIds(query))
  {
    if query != [] {
      var prefix := query[..|query| - 1];
      ResolveEntries(p, prefix);
      ResolveStepKeeps(p, Resolve(p, prefix).value, HeaderIds(prefix), query[|query| - 1]);
    }
  }

  /** One query line fails exactly when it is a header no pattern accounts for. */
  lemma StepFails(p: RkPatterns, table: Reads, raw: string)
    ensures ResolveStep(p, table, raw).Err? <==> Unresolvable(p, raw)
  {
  }

  /** Resolving a query is resolving all but its last line, then that line. */
  lemma ResolveLast(p: RkPatterns, query: seq<string>)
    requires query != []
    ensures Resolve(p, query) ==
            match Resolve(p, query[..|query| - 1])
            case Err(e) => Err(e)
            case Ok(t) => ResolveStep(p, t, query[|query| - 1])
  {
  }

  /** The resolution fails exactly when some header matches no pattern. */
  lemma {:induction false} ResolveFails(p: RkPatterns, query: seq<string>)
    decreases |query|
    ensures Resolve(p, query).Err? <==> SomeUnresolvable(p, query)
  {
    if query != [] {
      var n := |query| - 1;
      var prefix := query[..n];
      ResolveFails(p, prefix);
      ResolveLast(p, query);
      UnresolvableSplit(p, query);
      var before := Resolve(p, prefix);
      if before.Ok? {
        StepFails(p, before.value, query[n]);
      }
    }
  }

  /** Some line of the query is a header no pattern accounts for. */
  predicate SomeUnresolvable(p: RkPatterns, query: seq<string>) {
    AnyLine(raw => Unresolvable(p, raw), query)
  }

  /** Some line of the lines satisfies f. */
  predicate AnyLine(f: string -> bool, lines: seq<string>) {
    exists k :: 0 <= k < |lines| && f(lines[k])
  }

  /** Some line of a non-empty sequence satisfies f exactly when one before
      the last does or the last one does. */
  lemma AnyLineSplit(f: string -> bool, lines: seq<string>)
    requires lines != []
    ensures AnyLine(f, lines) <==> AnyLine(f, lines[..|lines| - 1]) || f(lines[|lines| - 1])
  {
    var n := |lines| - 1;
    var prefix := lines[..n];
    if AnyLine(f, lines) {
      var k :| 0 <= k < |lines| && f(lines[k]);
      if k < n {
        assert prefix[k] == lines[k];
      }
    }
    if AnyLine(f, prefix) {
      var k :| 0 <= k < n && f(prefix[k]);
      assert lines[k] == prefix[k];
    }
  }

  /** Some line of a non-empty query is unresolvable exactly when one before
      the last is or the last one is. */
  lemma UnresolvableSplit(p: RkPatterns, query: seq<string>)
    requires query != []
    ensures SomeUnresolvable(p, query) <==>
            SomeUnresolvable(p, query[..|query| - 1]) || Unresolvable(p, query[|query| - 1])
  {
    AnyLineSplit(raw => Unresolvable(p, raw), query);
  }
}
