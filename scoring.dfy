/** Filling and scoring (metag-train.py, lines 341-376). The read table (Rk)
    or the abundance table (Bray-Curtis) becomes a table whose columns are
    the reads or taxa in table order and whose rows are the row keys some
    column holds; every missing cell is filled, with "unclassified" or 0.
    Each setting's row is then compared with the "exp" row. Scores are
    fixed-point numbers in ten-thousandths, the precision `round(x, 4)`
    keeps. */
module Scoring {
  import opened Common
  import opened Dicts
  import opened Lines
  import opened Expectation
  import opened Resolver

  // ----------------------------------------------------------------- filling

  /** The filled label of one read's cell: NaN and a missing cell both
      become "unclassified". */
  function FilledLabel(m: map<string, Label>, row: string): (r: string)
    ensures row in m && m[row].Some? ==> r == m[row].value
    ensures row !in m || m[row].None? ==> r == UNCLASSIFIED
  {
    if row in m && m[row].Some? then m[row].value else UNCLASSIFIED
  }

  /** `df.fillna("unclassified").loc[row]` over the reads in table order. */
  function LabelRow(table: Reads, row: string): (r: seq<string>)
    ensures |r| == |table|
    ensures forall i :: 0 <= i < |table| ==> r[i] == FilledLabel(table[i].1, row)
  {
    if table == [] then [] else [FilledLabel(table[0].1, row)] + LabelRow(table[1..], row)
  }

  /** `df.fillna(0).loc[row]` over the taxa in table order. */
  function CountRow(abunds: Abunds, row: string): (r: seq<int>)
    ensures |r| == |abunds|
    ensures forall i :: 0 <= i < |abunds| ==> r[i] == CountOr0(abunds[i].1, row)
  {
    if abunds == [] then [] else [CountOr0(abunds[0].1, row)] + CountRow(abunds[1..], row)
  }

  /** A filled count row adds up to the row sum of the table. */
  lemma {:induction false} CountRowSum(abunds: Abunds, row: string)
    ensures Total(CountRow(abunds, row)) == RowSum(abunds, row)
  {
    if abunds != [] {
      CountRowSum(abunds[1..], row);
      assert CountRow(abunds, row)[1..] == CountRow(abunds[1..], row);
    }
  }

  function Total(xs: seq<int>): int {
    if xs == [] then 0 else xs[0] + Total(xs[1..])
  }

  // ---------------------------------------------------------------- Rk score

  /** The Rk coefficient of a setting, in ten-thousandths, given the
      coefficient `mcc` of an expected and a predicted label sequence;
      looking up a row no read has a cell in fails as `df.loc` does. */
  function RkScore(mcc: (seq<string>, seq<string>) -> int, table: Reads, setting: string): (r: Result<(string, int)>)
    ensures r.Err? <==> setting !in Rows(table)
    ensures r.Err? ==> r == Err(MissingRow(setting))
    ensures r.Ok? ==> r.value == (setting, mcc(LabelRow(table, EXP), LabelRow(table, setting)))
  {
    if setting !in Rows(table) then Err(MissingRow(setting))
    else Ok((setting, mcc(LabelRow(table, EXP), LabelRow(table, setting))))
  }

  /** `rks.append((setting, rk))` for one more setting. */
  function RkScoreSteps(mcc: (seq<string>, seq<string>) -> int, table: Reads): (seq<(string, int)>, string) -> Result<seq<(string, int)>> {
    (acc, setting) => match RkScore(mcc, table, setting) case Ok(x) => Ok(acc + [x]) case Err(e) => Err(e)
  }

  /** The scores of the settings in order, after the "exp" row is looked up. */
  function RkScores(mcc: (seq<string>, seq<string>) -> int, table: Reads, settings: seq<string>): Result<seq<(string, int)>> {
    if EXP !in Rows(table) then Err(MissingRow(EXP))
    else Fold(RkScoreSteps(mcc, table), [], settings)
  }

  lemma {:induction false} RkScoreFold(mcc: (seq<string>, seq<string>) -> int, table: Reads, settings: seq<string>)
    decreases |settings|
    ensures Fold(RkScoreSteps(mcc, table), [], settings).Err? <==>
      exists i :: 0 <= i < |settings| && settings[i] !in Rows(table)
    ensures Fold(RkScoreSteps(mcc, table), [], settings).Ok? ==>
      var r := Fold(RkScoreSteps(mcc, table), [], settings).value;
      && |r| == |settings|
      && forall i :: 0 <= i < |settings| ==>
           r[i] == (settings[i], mcc(LabelRow(table, EXP), LabelRow(table, settings[i])))
  {
    if settings != [] {
      var prefix := settings[..|settings| - 1];
      RkScoreFold(mcc, table, prefix);
      if exists i :: 0 <= i < |prefix| && prefix[i] !in Rows(table) {
        var i :| 0 <= i < |prefix| && prefix[i] !in Rows(table);
        assert settings[i] == prefix[i];
      }
      if Fold(RkScoreSteps(mcc, table), [], settings).Ok? {
        forall i | 0 <= i < |settings| ensures settings[i] in Rows(table) {
          if i < |prefix| {
            assert settings[i] == prefix[i];
          }
        }
      }
    }
  }

  /** Every setting is scored, in order, against the filled "exp" row; the
      run fails exactly when the "exp" row or some setting's row does not
      exist, and then on "exp" first. */
  lemma RkScoresMeaning(mcc: (seq<string>, seq<string>) -> int, table: Reads, settings: seq<string>)
    ensures RkScores(mcc, table, settings).Err? <==>
      EXP !in Rows(table) || exists i :: 0 <= i < |settings| && settings[i] !in Rows(table)
    ensures EXP !in Rows(table) ==> RkScores(mcc, table, settings) == Err(MissingRow(EXP))
    ensures RkScores(mcc, table, settings).Ok? ==> var r := RkScores(mcc, table, settings).value;
      && |r| == |settings|
      && forall i :: 0 <= i < |settings| ==>
           r[i] == (settings[i], mcc(LabelRow(table, EXP), LabelRow(table, settings[i])))
  {
    RkScoreFold(mcc, table, settings);
  }

  // ------------------------------------------------------- Bray-Curtis score

  /** The sum of |u[i] - v[i]|. */
  function DiffSum(u: seq<int>, v: seq<int>): (r: int)
    requires |u| == |v|
    ensures r >= 0
  {
    if u == [] then 0 else Abs(u[0] - v[0]) + DiffSum(u[1..], v[1..])
  }

  /** The sum of |u[i] + v[i]|. */
  function SumSum(u: seq<int>, v: seq<int>): (r: int)
    requires |u| == |v|
    ensures r >= 0
  {
    if u == [] then 0 else Abs(u[0] + v[0]) + SumSum(u[1..], v[1..])
  }

  function Abs(x: int): int {
    if x < 0 then -x else x
  }

  /** n / d rounded to the nearest integer, halves to the even one, as
      Python's `round` does. */
  function RoundHalfEven(n: int, d: int): (q: int)
    requires d > 0
    ensures -d <= 2 * (n - q * d) <= d
    ensures 2 * (n - q * d) == d || 2 * (n - q * d) == -d ==> q % 2 == 0
  {
    var q := n / d;
    var r := n % d;
    assert n - q * d == r && 0 <= r < d;
    assert n - (q + 1) * d == r - d;
    if 2 * r < d then q
    else if 2 * r > d then q + 1
    else if q % 2 == 0 then q
    else q + 1
  }

  /** Rounding is exact on a whole quotient. */
  lemma RoundWhole(k: int, d: int)
    requires d > 0
    ensures RoundHalfEven(k * d, d) == k
  {
    var q := RoundHalfEven(k * d, d);
    assert k * d - q * d == (k - q) * d;
    SmallMultiple(k - q, d);
  }

  /** The only multiple of d within d/2 of zero is zero. */
  lemma SmallMultiple(m: int, d: int)
    requires d > 0 && -d <= 2 * (m * d) <= d
    ensures m == 0
  {
    if m >= 1 {
      MulAtLeast(m, 1, d);
    } else if m <= -1 {
      MulAtLeast(-1, m, d);
    }
  }

  lemma MulAtLeast(a: int, b: int, d: int)
    requires a >= b && d > 0
    ensures a * d >= b * d
  {
    assert a * d - b * d == (a - b) * d;
  }

  /** Rounding keeps a quotient in [0, 1] within [0, 1]. */
  lemma RoundUnit(n: int, d: int, scale: nat)
    requires d > 0 && 0 <= n <= scale * d
    ensures 0 <= RoundHalfEven(n, d) <= scale
  {
    var q := RoundHalfEven(n, d);
    assert -d <= 2 * (n - q * d) <= d;
    assert (scale + 1) * d == scale * d + d;
    NonNegativeFactor(q, d);
    FactorBelow(q, scale, d);
  }

  /** A multiple of d above -d has a non-negative factor. */
  lemma NonNegativeFactor(q: int, d: int)
    requires d > 0 && q * d > -d
    ensures q >= 0
  {
    if q < 0 {
      MulAtLeast(-1, q, d);
    }
  }

  /** A multiple of d below (k + 1) * d has a factor of at most k. */
  lemma FactorBelow(q: int, k: int, d: int)
    requires d > 0 && q * d < (k + 1) * d
    ensures q <= k
  {
    if q > k {
      MulAtLeast(q, k + 1, d);
    }
  }

  /** The Bray-Curtis dissimilarity of two count rows, in ten-thousandths:
      `round(sum|u - v| / sum|u + v|, 4)`; two rows of zeros have none. */
  function Dissimilarity(u: seq<int>, v: seq<int>, setting: string): (r: Result<int>)
    requires |u| == |v|
    ensures r.Err? <==> SumSum(u, v) == 0
    ensures r.Err? ==> r == Err(UndefinedScore(setting))
    ensures r.Ok? ==> -SumSum(u, v) <= 2 * (10000 * DiffSum(u, v) - r.value * SumSum(u, v)) <= SumSum(u, v)
  {
    var den := SumSum(u, v);
    if den == 0 then Err(UndefinedScore(setting))
    else Ok(RoundHalfEven(10000 * DiffSum(u, v), den))
  }

  /** The differences never outweigh the sums on non-negative counts. */
  lemma {:induction false} DiffWithinSum(u: seq<int>, v: seq<int>)
    requires |u| == |v|
    requires forall i :: 0 <= i < |u| ==> u[i] >= 0 && v[i] >= 0
    ensures 0 <= DiffSum(u, v) <= SumSum(u, v)
  {
    if u != [] {
      DiffWithinSum(u[1..], v[1..]);
    }
  }

  /** On non-negative counts the similarity `1 - round(bc, 4)` lies in [0, 1]. */
  lemma SimilarityBounds(u: seq<int>, v: seq<int>, setting: string)
    requires |u| == |v|
    requires forall i :: 0 <= i < |u| ==> u[i] >= 0 && v[i] >= 0
    requires Dissimilarity(u, v, setting).Ok?
    ensures 0 <= Similarity(u, v, setting).value <= 10000
  {
    DiffWithinSum(u, v);
    RoundUnit(10000 * DiffSum(u, v), SumSum(u, v), 10000);
  }

  /** `1 - round(braycurtis(u, v), 4)`, in ten-thousandths. */
  function Similarity(u: seq<int>, v: seq<int>, setting: string): (r: Result<int>)
    requires |u| == |v|
    ensures r.Err? <==> Dissimilarity(u, v, setting).Err?
    ensures r.Ok? ==> r.value + Dissimilarity(u, v, setting).value == 10000
  {
    var d :- Dissimilarity(u, v, setting);
    Ok(10000 - d)
  }

  lemma {:induction false} DiffSumSelf(u: seq<int>)
    ensures DiffSum(u, u) == 0
  {
    if u != [] {
      DiffSumSelf(u[1..]);
    }
  }

  /** A setting that counts exactly the expected abundances scores 1. */
  lemma SimilaritySelf(u: seq<int>, setting: string)
    requires Dissimilarity(u, u, setting).Ok?
    ensures Similarity(u, u, setting) == Ok(10000)
  {
    DiffSumSelf(u);
    RoundWhole(0, SumSum(u, u));
  }

  lemma {:induction false} SumsSymmetric(u: seq<int>, v: seq<int>)
    requires |u| == |v|
    ensures DiffSum(u, v) == DiffSum(v, u) && SumSum(u, v) == SumSum(v, u)
  {
    if u != [] {
      SumsSymmetric(u[1..], v[1..]);
    }
  }

  /** The dissimilarity does not depend on which row is the expected one. */
  lemma SimilaritySymmetric(u: seq<int>, v: seq<int>, setting: string)
    requires |u| == |v|
    ensures Similarity(u, v, setting) == Similarity(v, u, setting)
  {
    SumsSymmetric(u, v);
  }

  /** Non-negative rows have no dissimilarity only when both are all zeros. */
  lemma {:induction false} SumSumZero(u: seq<int>, v: seq<int>)
    requires |u| == |v|
    requires forall i :: 0 <= i < |u| ==> u[i] >= 0 && v[i] >= 0
    ensures SumSum(u, v) == 0 <==> forall i :: 0 <= i < |u| ==> u[i] == 0 && v[i] == 0
  {
    if u != [] {
      SumSumZero(u[1..], v[1..]);
      assert SumSum(u[1..], v[1..]) >= 0 by {
        DiffWithinSum(u[1..], v[1..]);
      }
      if SumSum(u, v) == 0 {
        forall i | 0 <= i < |u| ensures u[i] == 0 && v[i] == 0 {
          if i > 0 {
            assert u[i] == u[1..][i - 1] && v[i] == v[1..][i - 1];
          }
        }
      }
      if forall i :: 0 <= i < |u| ==> u[i] == 0 && v[i] == 0 {
        forall i | 0 <= i < |u[1..]| ensures u[1..][i] == 0 && v[1..][i] == 0 {
          assert u[1..][i] == u[i + 1] && v[1..][i] == v[i + 1];
        }
      }
    }
  }

  /** A setting the script cannot score: its row is missing, or its counts
      and the expected counts add up to zero, where braycurtis divides by zero. */
  predicate Unscorable(abunds: Abunds, setting: string) {
    setting !in Rows(abunds) || SumSum(CountRow(abunds, EXP), CountRow(abunds, setting)) == 0
  }

  /** The Bray-Curtis score of a setting against the expected row. */
  function BcScore(abunds: Abunds, setting: string): (r: Result<(string, int)>)
    ensures r.Err? <==> Unscorable(abunds, setting)
    ensures setting !in Rows(abunds) ==> r == Err(MissingRow(setting))
    ensures setting in Rows(abunds) ==>
      var s := Similarity(CountRow(abunds, EXP), CountRow(abunds, setting), setting);
      && (r.Ok? <==> s.Ok?)
      && (r.Ok? ==> r.value == (setting, s.value))
      && (r.Err? ==> r == Err(UndefinedScore(setting)))
  {
    if setting !in Rows(abunds) then Err(MissingRow(setting))
    else
      var score :- Similarity(CountRow(abunds, EXP), CountRow(abunds, setting), setting);
      Ok((setting, score))
  }

  /** `bcs.append((setting, bc))` for one more setting. */
  function BcScoreSteps(abunds: Abunds): (seq<(string, int)>, string) -> Result<seq<(string, int)>> {
    (acc, setting) => match BcScore(abunds, setting) case Ok(x) => Ok(acc + [x]) case Err(e) => Err(e)
  }

  /** The scores of the settings in order, after the "exp" row is looked up. */
  function BcScores(abunds: Abunds, settings: seq<string>): Result<seq<(string, int)>> {
    if EXP !in Rows(abunds) then Err(MissingRow(EXP))
    else Fold(BcScoreSteps(abunds), [], settings)
  }

  lemma {:induction false} BcScoreFold(abunds: Abunds, settings: seq<string>)
    decreases |settings|
    ensures Fold(BcScoreSteps(abunds), [], settings).Err? <==>
      exists i :: 0 <= i < |settings| && Unscorable(abunds, settings[i])
    ensures Fold(BcScoreSteps(abunds), [], settings).Ok? ==>
      var r := Fold(BcScoreSteps(abunds), [], settings).value;
      && |r| == |settings|
      && forall i :: 0 <= i < |settings| ==>
           && settings[i] in Rows(abunds)
           && Similarity(CountRow(abunds, EXP), CountRow(abunds, settings[i]), settings[i]).Ok?
           && r[i] == (settings[i], Similarity(CountRow(abunds, EXP), CountRow(abunds, settings[i]), settings[i]).value)
  {
    if settings != [] {
      var prefix := settings[..|settings| - 1];
      BcScoreFold(abunds, prefix);
      forall i | 0 <= i < |prefix| ensures settings[i] == prefix[i] {
      }
      if exists i :: 0 <= i < |prefix| && Unscorable(abunds, prefix[i]) {
        var i :| 0 <= i < |prefix| && Unscorable(abunds, prefix[i]);
        assert Unscorable(abunds, settings[i]);
      }
      if Fold(BcScoreSteps(abunds), [], settings).Ok? {
        forall i | 0 <= i < |settings| ensures !Unscorable(abunds, settings[i]) {
          if i < |prefix| {
            assert settings[i] == prefix[i];
          }
        }
      }
    }
  }

  /** Every setting is scored, in order, against the filled "exp" row; the
      run fails exactly when the "exp" row is missing or some setting cannot
      be scored, and a missing "exp" row is reported first. */
  lemma BcScoresMeaning(abunds: Abunds, settings: seq<string>)
    ensures BcScores(abunds, settings).Err? <==>
      EXP !in Rows(abunds) || exists i :: 0 <= i < |settings| && Unscorable(abunds, settings[i])
    ensures EXP !in Rows(abunds) ==> BcScores(abunds, settings) == Err(MissingRow(EXP))
    ensures BcScores(abunds, settings).Ok? ==> var r := BcScores(abunds, settings).value;
      && |r| == |settings|
      && forall i :: 0 <= i < |settings| ==>
           && settings[i] in Rows(abunds)
           && Similarity(CountRow(abunds, EXP), CountRow(abunds, settings[i]), settings[i]).Ok?
           && r[i] == (settings[i], Similarity(CountRow(abunds, EXP), CountRow(abunds, settings[i]), settings[i]).value)
  {
    BcScoreFold(abunds, settings);
  }
}
