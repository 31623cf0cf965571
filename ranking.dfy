/** The report (metag-train.py, lines 358-361 and 378-383): the
    (setting, score) pairs sorted by the key (-score, setting), that is by
    descending score and, among equal scores, by ascending setting name in
    code-point order, one "<setting><TAB><score>" line each. */
module Ranking {
  import opened Common
  import opened Text

  type Scored = (string, int)

  /** Python's `<=` on strings: code point by code point, a proper prefix first. */
  predicate LexLe(a: string, b: string)
    decreases |a|
  {
    if a == [] then true
    else if b == [] then false
    else if a[0] != b[0] then a[0] < b[0]
    else LexLe(a[1..], b[1..])
  }

  lemma {:induction false} LexLeReflexive(a: string)
    decreases |a|
    ensures LexLe(a, a)
  {
    if a != [] {
      LexLeReflexive(a[1..]);
    }
  }

  lemma {:induction false} LexLeTotal(a: string, b: string)
    decreases |a|
    ensures LexLe(a, b) || LexLe(b, a)
  {
    if a != [] && b != [] && a[0] == b[0] {
      LexLeTotal(a[1..], b[1..]);
    }
  }

  lemma {:induction false} LexLeAntisymmetric(a: string, b: string)
    decreases |a|
    requires LexLe(a, b) && LexLe(b, a)
    ensures a == b
  {
    if a != [] && b != [] {
      LexLeAntisymmetric(a[1..], b[1..]);
      assert a == [a[0]] + a[1..] && b == [b[0]] + b[1..];
    }
  }

  lemma {:induction false} LexLeTransitive(a: string, b: string, c: string)
    decreases |a|
    requires LexLe(a, b) && LexLe(b, c)
    ensures LexLe(a, c)
  {
    if a != [] && b != [] && c != [] && a[0] == b[0] && b[0] == c[0] {
      LexLeTransitive(a[1..], b[1..], c[1..]);
    }
  }

  /** x comes no later than y under the key (-score, setting). */
  predicate RanksBefore(x: Scored, y: Scored) {
    x.1 > y.1 || (x.1 == y.1 && LexLe(x.0, y.0))
  }

  lemma RanksBeforeTotal(x: Scored, y: Scored)
    ensures RanksBefore(x, y) || RanksBefore(y, x)
  {
    LexLeTotal(x.0, y.0);
  }

  lemma RanksBeforeTransitive(x: Scored, y: Scored, z: Scored)
    requires RanksBefore(x, y) && RanksBefore(y, z)
    ensures RanksBefore(x, z)
  {
    if x.1 == y.1 == z.1 {
      LexLeTransitive(x.0, y.0, z.0);
    }
  }

  lemma RanksBeforeAntisymmetric(x: Scored, y: Scored)
    requires RanksBefore(x, y) && RanksBefore(y, x)
    ensures x == y
  {
    LexLeAntisymmetric(x.0, y.0);
  }

  predicate Sorted(r: seq<Scored>) {
    forall i, j :: 0 <= i < j < |r| ==> RanksBefore(r[i], r[j])
  }

  /** Insertion of one pair into a ranking, after every pair it does not precede. */
  function Insert(x: Scored, r: seq<Scored>): (r': seq<Scored>)
    requires Sorted(r)
    ensures Sorted(r') && multiset(r') == multiset(r) + multiset{x}
  {
    if r == [] then [x]
    else if RanksBefore(x, r[0]) then
      InsertFirst(x, r);
      [x] + r
    else
      RanksBeforeTotal(x, r[0]);
      var rest := Insert(x, r[1..]);
      InsertLater(x, r, rest);
      [r[0]] + rest
  }

  /** A pair that precedes the first of a ranking precedes all of it. */
  lemma InsertFirst(x: Scored, r: seq<Scored>)
    requires Sorted(r) && r != [] && RanksBefore(x, r[0])
    ensures Sorted([x] + r)
  {
    assert forall j :: 0 <= j < |r| ==> RanksBefore(x, r[j]) by {
      forall j | 0 <= j < |r| ensures RanksBefore(x, r[j]) {
        if j > 0 {
          RanksBeforeTransitive(x, r[0], r[j]);
        }
      }
    }
  }

  /** The first of a ranking stays first when x goes into the rest. */
  lemma InsertLater(x: Scored, r: seq<Scored>, rest: seq<Scored>)
    requires Sorted(r) && r != [] && RanksBefore(r[0], x)
    requires Sorted(rest) && multiset(rest) == multiset(r[1..]) + multiset{x}
    ensures Sorted([r[0]] + rest) && multiset([r[0]] + rest) == multiset(r) + multiset{x}
  {
    assert r == [r[0]] + r[1..];
    assert forall j :: 0 <= j < |rest| ==> RanksBefore(r[0], rest[j]) by {
      forall j | 0 <= j < |rest| ensures RanksBefore(r[0], rest[j]) {
        assert rest[j] in multiset(rest);
        if rest[j] != x {
          assert rest[j] in multiset(r[1..]);
          var k :| 0 <= k < |r[1..]| && r[1..][k] == rest[j];
          assert r[k + 1] == rest[j];
        }
      }
    }
  }

  /** `sorted(pairs, key = lambda p: (-p[1], p[0]))`. */
  function Ranked(pairs: seq<Scored>): (r: seq<Scored>)
    ensures Sorted(r) && multiset(r) == multiset(pairs) && |r| == |pairs|
  {
    if pairs == [] then []
    else
      assert |multiset(pairs)| == |pairs|;
      assert pairs == pairs[..|pairs| - 1] + [pairs[|pairs| - 1]];
      Insert(pairs[|pairs| - 1], Ranked(pairs[..|pairs| - 1]))
  }

  /** There is one ranking of any collection of pairs: two sorted
      arrangements of the same pairs are equal. */
  lemma {:induction false} RankingUnique(r: seq<Scored>, s: seq<Scored>)
    decreases |r|
    requires Sorted(r) && Sorted(s) && multiset(r) == multiset(s)
    ensures r == s
  {
    assert |multiset(s)| == |s| && |multiset(r)| == |r|;
    if r != [] {
      SortedHeads(r, s);
      SameTails(r, s);
      RankingUnique(r[1..], s[1..]);
      assert r == [r[0]] + r[1..] && s == [s[0]] + s[1..];
    }
  }

  /** Two sorted arrangements of the same pairs start with the same pair. */
  lemma SortedHeads(r: seq<Scored>, s: seq<Scored>)
    requires r != [] && Sorted(r) && Sorted(s) && multiset(r) == multiset(s)
    ensures s != [] && r[0] == s[0]
  {
    assert r[0] in multiset(s);
    assert s[0] in multiset(r);
    var i :| 0 <= i < |s| && s[i] == r[0];
    var j :| 0 <= j < |r| && r[j] == s[0];
    LexLeReflexive(r[0].0);
    LexLeReflexive(s[0].0);
    assert RanksBefore(s[0], s[i]);
    assert RanksBefore(r[0], r[j]);
    RanksBeforeAntisymmetric(r[0], s[0]);
  }

  lemma SameTails(r: seq<Scored>, s: seq<Scored>)
    requires r != [] && s != [] && r[0] == s[0] && multiset(r) == multiset(s)
    ensures multiset(r[1..]) == multiset(s[1..])
  {
    assert r == [r[0]] + r[1..] && s == [s[0]] + s[1..];
    assert multiset(r) == multiset{r[0]} + multiset(r[1..]);
    assert multiset(s) == multiset{s[0]} + multiset(s[1..]);
    var x := r[0];
    forall y ensures multiset(r[1..])[y] == multiset(s[1..])[y] {
      assert multiset(r)[y] == multiset{x}[y] + multiset(r[1..])[y];
      assert multiset(s)[y] == multiset{x}[y] + multiset(s[1..])[y];
    }
  }

  /** `str(score)` of a score in ten-thousandths, written as Python writes
      the float `round(x, 4)`: the digits after the point without trailing
      zeros, keeping at least one. */
  function FormatScore(k: int): (s: string)
    ensures |s| > 0 && forall i :: 0 <= i < |s| ==> s[i] != '\t' && s[i] != '\n'
  {
    var sign := if k < 0 then "-" else "";
    sign + ScoreBody(if k < 0 then -k else k)
  }

  /** The unsigned part of a score: integer part, point, fraction. */
  function ScoreBody(n: nat): (s: string)
    ensures |s| > 0 && forall i :: 0 <= i < |s| ==> s[i] != '\t' && s[i] != '\n'
  {
    NoControl(FormatNat(n / 10000));
    FormatNat(n / 10000) + "." + Fraction(n % 10000, 4)
  }

  lemma NoControl(s: string)
    requires AllDigits(s)
    ensures forall i :: 0 <= i < |s| ==> s[i] != '\t' && s[i] != '\n'
  {
  }

  /** The `width`-digit fraction `n`, without trailing zeros but at least one digit. */
  function Fraction(n: nat, width: nat): (s: string)
    ensures |s| > 0 && AllDigits(s)
    decreases width
  {
    if width <= 1 then [Digit(n % 10)]
    else if n % 10 == 0 then Fraction(n / 10, width - 1)
    else FractionDigits(n / 10, width - 1) + [Digit(n % 10)]
  }

  /** The `width` low digits of n, most significant first. */
  function FractionDigits(n: nat, width: nat): (s: string)
    ensures |s| == width && AllDigits(s)
  {
    if width == 0 then [] else FractionDigits(n / 10, width - 1) + [Digit(n % 10)]
  }

  function Pow10(k: nat): (p: nat)
    ensures p >= 1
  {
    if k == 0 then 1 else 10 * Pow10(k - 1)
  }

  /** f is how `str` writes the fraction m / 10^width of a float rounded to
      width places: at most width digits whose value, scaled back to width
      places, is m, with no trailing zero unless f is "0". */
  predicate ShortFraction(f: string, m: nat, width: nat) {
    1 <= |f| <= width && AllDigits(f) && NumeralValue(f) * Pow10(width - |f|) == m
    && (f == "0" || f[|f| - 1] != '0')
  }

  /** `str(round(x, 4))` in ten-thousandths k: a '-' exactly when k is
      negative, then the integer part of |k| / 10000, a point, and the four
      places of |k| % 10000 written shortest. */
  lemma FormatScoreMeaning(k: int)
    ensures var s := FormatScore(k);
      var n := if k < 0 then -k else k;
      var parts := Split(if k < 0 then s[1..] else s, ".");
      (s[0] == '-' <==> k < 0) && |parts| == 2 && parts[0] == FormatNat(n / 10000)
      && ShortFraction(parts[1], n % 10000, 4)
  {
    var s := FormatScore(k);
    if k < 0 {
      ScoreBodyMeaning(-k);
      assert s[1..] == ScoreBody(-k);
    } else {
      assert s == ScoreBody(k);
      ScoreBodyMeaning(k);
    }
  }

  /** The unsigned part starts with a digit and splits at its point into the
      integer part and the shortest four-place fraction. */
  lemma ScoreBodyMeaning(n: nat)
    ensures var parts := Split(ScoreBody(n), ".");
      IsDigit(ScoreBody(n)[0]) && |parts| == 2 && parts[0] == FormatNat(n / 10000)
      && ShortFraction(parts[1], n % 10000, 4)
  {
    var w := FormatNat(n / 10000);
    var f := Fraction(n % 10000, 4);
    assert Pow10(4) == 10000;
    FractionValue(n % 10000, 4);
    PointSplit(w, f);
    assert ScoreBody(n)[0] == w[0];
  }

  /** Digits, a point and digits split at the point into the two numerals. */
  lemma PointSplit(w: string, f: string)
    requires AllDigits(w) && AllDigits(f)
    ensures Split(w + "." + f, ".") == [w, f]
  {
    assert w + "." + f == Join([w, f], ".");
    NoPoint(w);
    NoPoint(f);
    SplitJoin([w, f], '.');
  }

  lemma NoPoint(s: string)
    requires AllDigits(s)
    ensures forall i :: 0 <= i < |s| ==> s[i] != '.'
  {
  }

  /** The fraction written by Fraction for an m of at most width places. */
  lemma {:induction false} FractionValue(m: nat, width: nat)
    requires 1 <= width && m < Pow10(width)
    decreases width, 1
    ensures ShortFraction(Fraction(m, width), m, width)
  {
    if width == 1 {
      var f := Fraction(m, width);
      assert m % 10 == m;
      assert f[..0] == [];
    } else if m % 10 == 0 {
      FractionDropZero(m, width);
    } else {
      FractionLastDigit(m, width);
    }
  }

  /** A trailing zero place is dropped and the rest written shortest. */
  lemma {:induction false} FractionDropZero(m: nat, width: nat)
    requires 2 <= width && m < Pow10(width) && m % 10 == 0
    decreases width, 0
    ensures ShortFraction(Fraction(m, width), m, width)
  {
    var f := Fraction(m, width);
    assert f == Fraction(m / 10, width - 1);
    DivBound(m, Pow10(width - 1));
    FractionValue(m / 10, width - 1);
    var v := NumeralValue(f);
    var e: nat := width - 1 - |f|;
    var p := Pow10(e);
    assert v * p == m / 10;
    assert width - |f| == e + 1;
    assert Pow10(e + 1) == 10 * p;
    MulTen(v, p);
  }

  lemma MulTen(v: nat, p: nat)
    ensures v * (10 * p) == 10 * (v * p)
  {
  }

  /** A non-zero last place ends the fraction, after all width places. */
  lemma FractionLastDigit(m: nat, width: nat)
    requires 2 <= width && m < Pow10(width) && m % 10 != 0
    ensures ShortFraction(Fraction(m, width), m, width)
  {
    var f := Fraction(m, width);
    var g := FractionDigits(m / 10, width - 1);
    assert f == g + [Digit(m % 10)];
    assert f[..|f| - 1] == g;
    DivBound(m, Pow10(width - 1));
    FractionDigitsValue(m / 10, width - 1);
    assert NumeralValue(f) == 10 * (m / 10) + m % 10;
    assert f[|f| - 1] != '0' by {
      assert DigitValue(f[|f| - 1]) == m % 10;
    }
  }

  lemma DivBound(m: nat, p: nat)
    requires m < 10 * p
    ensures m / 10 < p
  {
  }

  /** FractionDigits writes an n of at most width digits. */
  lemma {:induction false} FractionDigitsValue(n: nat, width: nat)
    requires n < Pow10(width)
    ensures NumeralValue(FractionDigits(n, width)) == n
  {
    if width > 0 {
      var s := FractionDigits(n, width);
      assert s[..|s| - 1] == FractionDigits(n / 10, width - 1);
      DivBound(n, Pow10(width - 1));
      FractionDigitsValue(n / 10, width - 1);
    }
  }

  /** One report line. */
  function ReportLine(p: Scored): string {
    p.0 + "\t" + FormatScore(p.1)
  }

  /** The report: the ranked pairs, one line each. */
  function Report(pairs: seq<Scored>): (lines: seq<string>)
    ensures |lines| == |pairs|
  {
    var r := Ranked(pairs);
    seq(|r|, i requires 0 <= i < |r| => ReportLine(r[i]))
  }

  /** A report line splits at its tab into the setting and its score, when
      the setting has no tab. */
  lemma ReportLineFields(p: Scored)
    requires forall i :: 0 <= i < |p.0| ==> p.0[i] != '\t'
    ensures Split(ReportLine(p), "\t") == [p.0, FormatScore(p.1)]
  {
    var parts := [p.0, FormatScore(p.1)];
    SplitJoin(parts, '\t');
    assert Join(parts, "\t") == ReportLine(p);
  }

  /** The report lists every pair once, best first. */
  lemma ReportOrder(pairs: seq<Scored>)
    ensures forall i, j :: 0 <= i < j < |Report(pairs)| ==> RanksBefore(Ranked(pairs)[i], Ranked(pairs)[j])
    ensures forall i :: 0 <= i < |Report(pairs)| ==> Report(pairs)[i] == ReportLine(Ranked(pairs)[i])
    ensures multiset(Ranked(pairs)) == multiset(pairs)
  {
  }
}
