/** The string operations the script borrows from Python: prefix and substring
    tests (the regular expressions, read as literal text), str.strip with one
    character, str.split with a separator, the anchored one-time substitution
    of a prefix, int() on a decimal numeral and list.index. */
module Text {
  import opened Common

  predicate StartsWith(s: string, prefix: string) {
    |prefix| <= |s| && s[..|prefix|] == prefix
  }

  predicate OccursAt(s: string, pat: string, i: nat) {
    i + |pat| <= |s| && s[i..i + |pat|] == pat
  }

  /** An occurrence inside a prefix of s is an occurrence in s. */
  lemma OccursInPrefix(s: string, pat: string, n: nat, j: nat)
    requires n <= |s| && OccursAt(s[..n], pat, j)
    ensures OccursAt(s, pat, j)
  {
    assert s[..n][j..j + |pat|] == s[j..j + |pat|];
  }

  /** The first position at or after `from` where `pat` occurs in `s`. */
  function FindFrom(s: string, pat: string, from: nat): (r: Option<nat>)
    decreases |s| - from
    ensures r.Some? ==> from <= r.value && OccursAt(s, pat, r.value)
    ensures r.Some? ==> forall j: nat :: from <= j < r.value ==> !OccursAt(s, pat, j)
    ensures r.None? ==> forall j: nat :: from <= j ==> !OccursAt(s, pat, j)
  {
    if from + |pat| > |s| then None
    else if s[from..from + |pat|] == pat then Some(from)
    else FindFrom(s, pat, from + 1)
  }

  /** `re.search(pat, s)` with `pat` read as literal text. */
  predicate Contains(s: string, pat: string)
    ensures Contains(s, pat) <==> exists i: nat :: OccursAt(s, pat, i)
  {
    FindFrom(s, pat, 0).Some?
  }

  function StripLeft(s: string, c: char): (r: string)
    ensures |r| <= |s| && r == s[|s| - |r|..]
    ensures forall i :: 0 <= i < |s| - |r| ==> s[i] == c
    ensures r == [] || r[0] != c
  {
    if |s| > 0 && s[0] == c then StripLeft(s[1..], c) else s
  }

  function StripRight(s: string, c: char): (r: string)
    ensures |r| <= |s| && r == s[..|r|]
    ensures forall i :: |r| <= i < |s| ==> s[i] == c
    ensures r == [] || r[|r| - 1] != c
  {
    if |s| > 0 && s[|s| - 1] == c then StripRight(s[..|s| - 1], c) else s
  }

  /** The number of leading c in s. */
  function LeadingCount(s: string, c: char): (n: nat)
    ensures n <= |s| && (n == |s| || s[n] != c)
    ensures forall j :: 0 <= j < n ==> s[j] == c
  {
    if |s| > 0 && s[0] == c then 1 + LeadingCount(s[1..], c) else 0
  }

  /** r stands in s at position i and is followed there only by c. */
  predicate PieceAfter(s: string, c: char, i: nat, r: string) {
    i + |r| <= |s| && r == s[i..i + |r|] && forall j :: i + |r| <= j < |s| ==> s[j] == c
  }

  /** Python's `s.strip(c)`: every leading and every trailing `c` removed.
      The result is the piece of s that follows its leading c and is followed
      only by c, and it neither starts nor ends with c. */
  function Strip(s: string, c: char): (r: string)
    ensures |r| <= |s|
    ensures r == [] || (r[0] != c && r[|r| - 1] != c)
    ensures PieceAfter(s, c, LeadingCount(s, c), r)
    ensures (s == [] || (s[0] != c && s[|s| - 1] != c)) ==> r == s
    ensures (forall i :: 0 <= i < |s| ==> s[i] != c) ==> r == s
  {
    var l := StripLeft(s, c);
    var r := StripRight(l, c);
    StripEnds(s, c, l, r);
    StripPiece(s, c, l, r);
    r
  }

  /** The stripped text stands after the leading c of s, with only c after it. */
  lemma StripPiece(s: string, c: char, l: string, r: string)
    requires l == StripLeft(s, c) && r == StripRight(l, c)
    ensures PieceAfter(s, c, LeadingCount(s, c), r)
  {
    LeftIsLeading(s, c);
    PrefixOfSuffix(s, c, LeadingCount(s, c), l, r);
  }

  /** The stripped text neither starts nor ends with c. */
  lemma StripEnds(s: string, c: char, l: string, r: string)
    requires l == StripLeft(s, c) && r == StripRight(l, c)
    ensures r == [] || (r[0] != c && r[|r| - 1] != c)
  {
    if r != [] {
      assert r[0] == l[0];
    }
  }

  /** A prefix r of s[i..] followed there only by c is a piece of s after i. */
  lemma PrefixOfSuffix(s: string, c: char, i: nat, l: string, r: string)
    requires i <= |s| && l == s[i..] && |r| <= |l| && r == l[..|r|]
    requires forall j :: |r| <= j < |l| ==> l[j] == c
    ensures PieceAfter(s, c, i, r)
  {
    forall j | 0 <= j < |r| ensures r[j] == s[i + j] {
      assert r[j] == l[j];
    }
    assert r == s[i..i + |r|];
    forall j | i + |r| <= j < |s| ensures s[j] == c {
      assert s[j] == l[j - i];
    }
  }

  /** StripLeft drops exactly the leading c. */
  lemma {:induction false} LeftIsLeading(s: string, c: char)
    ensures |StripLeft(s, c)| == |s| - LeadingCount(s, c)
  {
    if |s| > 0 && s[0] == c {
      LeftIsLeading(s[1..], c);
    }
  }

  /** Python's `s.split(sep)` for a non-empty separator. */
  function Split(s: string, sep: string): (parts: seq<string>)
    requires |sep| > 0
    decreases |s|
    ensures |parts| >= 1
    ensures forall k :: 0 <= k < |parts| ==> !Contains(parts[k], sep)
  {
    match FindFrom(s, sep, 0)
    case None => [s]
    case Some(i) =>
      var head := s[..i];
      assert !Contains(head, sep) by {
        forall j: nat | OccursAt(head, sep, j) ensures false {
          OccursInPrefix(s, sep, i, j);
        }
      }
      [head] + Split(s[i + |sep|..], sep)
  }

  /** `sep.join(parts)`. */
  function Join(parts: seq<string>, sep: string): string
    requires |parts| >= 1
  {
    if |parts| == 1 then parts[0] else parts[0] + sep + Join(parts[1..], sep)
  }

  /** Splitting loses nothing: joining the pieces gives the text back. */
  lemma {:induction false} JoinSplit(s: string, sep: string)
    requires |sep| > 0
    decreases |s|
    ensures Join(Split(s, sep), sep) == s
  {
    match FindFrom(s, sep, 0)
    case None =>
    case Some(i) =>
      var rest := s[i + |sep|..];
      var tail := Split(rest, sep);
      assert Split(s, sep) == [s[..i]] + tail;
      JoinSplit(rest, sep);
      assert ([s[..i]] + tail)[1..] == tail;
      assert Join(Split(s, sep), sep) == s[..i] + sep + Join(tail, sep);
      assert s == s[..i] + s[i..i + |sep|] + rest;
  }

  /** With a one-character separator that no piece contains, splitting the
      joined text gives the pieces back. */
  lemma {:induction false} SplitJoin(parts: seq<string>, c: char)
    requires |parts| >= 1
    requires forall k, i :: 0 <= k < |parts| && 0 <= i < |parts[k]| ==> parts[k][i] != c
    ensures Split(Join(parts, [c]), [c]) == parts
  {
    var p := parts[0];
    if |parts| == 1 {
      NoOccurrence(p, c);
    } else {
      var rest := Join(parts[1..], [c]);
      var s := p + [c] + rest;
      assert FindFrom(s, [c], 0) == Some(|p|) by {
        assert OccursAt(s, [c], |p|);
        NoOccurrence(p, c);
        forall j: nat | j < |p| ensures !OccursAt(s, [c], j) {
          assert s[j..j + 1] == p[j..j + 1];
          assert !OccursAt(p, [c], j);
        }
        FindFirstIs(s, [c], |p|);
      }
      assert s[..|p|] == p;
      assert s[|p| + 1..] == rest;
      SplitJoin(parts[1..], c);
    }
  }

  /** A text without c has no occurrence of [c]. */
  lemma NoOccurrence(p: string, c: char)
    requires forall i :: 0 <= i < |p| ==> p[i] != c
    ensures forall j: nat :: !OccursAt(p, [c], j)
  {
    forall j: nat | j < |p| ensures !OccursAt(p, [c], j) {
      assert p[j..j + 1] == [p[j]];
    }
  }

  /** When pat occurs at i and nowhere before, FindFrom finds i. */
  lemma FindFirstIs(s: string, pat: string, i: nat)
    requires OccursAt(s, pat, i)
    requires forall j: nat :: j < i ==> !OccursAt(s, pat, j)
    ensures FindFrom(s, pat, 0) == Some(i)
  {
  }

  /** `re.sub('^' + prefix, '', s, 1)`: drop the prefix once when present. */
  function RemovePrefix(s: string, prefix: string): (r: string)
    ensures StartsWith(s, prefix) ==> s == prefix + r
    ensures !StartsWith(s, prefix) ==> r == s
  {
    if StartsWith(s, prefix) then s[|prefix|..] else s
  }

  /** The first index of x in xs, as Python's `list.index` finds it. */
  function IndexOf(xs: seq<string>, x: string): (r: Option<nat>)
    ensures r.None? <==> x !in xs
    ensures r.Some? ==> r.value < |xs| && xs[r.value] == x
    ensures r.Some? ==> forall j :: 0 <= j < r.value ==> xs[j] != x
  {
    if xs == [] then None
    else if xs[0] == x then Some(0)
    else match IndexOf(xs[1..], x)
      case None => None
      case Some(i) => Some(i + 1)
  }

  predicate IsDigit(c: char) {
    '0' <= c <= '9'
  }

  predicate AllDigits(s: string) {
    forall i :: 0 <= i < |s| ==> IsDigit(s[i])
  }

  function DigitValue(c: char): nat
    requires IsDigit(c)
  {
    c as int - '0' as int
  }

  function Digit(d: nat): (c: char)
    requires d < 10
    ensures IsDigit(c) && DigitValue(c) == d
  {
    ('0' as int + d) as char
  }

  /** The value of a decimal numeral, most significant digit first. */
  function NumeralValue(s: string): nat
    requires AllDigits(s)
  {
    if s == [] then 0 else 10 * NumeralValue(s[..|s| - 1]) + DigitValue(s[|s| - 1])
  }

  /** A sign (optional) followed by at least one decimal digit. */
  predicate IsIntegerText(s: string) {
    if |s| > 0 && (s[0] == '-' || s[0] == '+') then |s| > 1 && AllDigits(s[1..])
    else |s| > 0 && AllDigits(s)
  }

  /** Python's `int(s)` on a decimal numeral; None where int() raises. */
  function ParseInt(s: string): (r: Option<int>)
    ensures r.Some? <==> IsIntegerText(s)
    ensures r.Some? && |s| > 0 && s[0] == '-' ==> r.value <= 0
    ensures r.Some? && AllDigits(s) ==> r.value == NumeralValue(s)
    ensures r.Some? && s[0] == '-' ==> r.value == -(NumeralValue(s[1..]) as int)
    ensures r.Some? && s[0] == '+' ==> r.value == NumeralValue(s[1..])
  {
    if |s| > 0 && (s[0] == '-' || s[0] == '+') then
      if |s| > 1 && AllDigits(s[1..]) then
        var n: int := NumeralValue(s[1..]);
        Some(if s[0] == '-' then -n else n)
      else None
    else if |s| > 0 && AllDigits(s) then Some(NumeralValue(s))
    else None
  }

  /** The shortest decimal numeral of n. */
  function FormatNat(n: nat): (s: string)
    ensures |s| > 0 && AllDigits(s)
  {
    if n < 10 then [Digit(n)] else FormatNat(n / 10) + [Digit(n % 10)]
  }

  function FormatInt(n: int): (s: string)
  {
    if n < 0 then "-" + FormatNat(-n) else FormatNat(n)
  }

  lemma {:induction false} NumeralOfFormat(n: nat)
    ensures NumeralValue(FormatNat(n)) == n
  {
    var s := FormatNat(n);
    if n >= 10 {
      NumeralOfFormat(n / 10);
      assert s[..|s| - 1] == FormatNat(n / 10);
    }
  }

  /** int() reads back every number the decimal formatter writes. */
  lemma ParseFormat(n: int)
    ensures ParseInt(FormatInt(n)) == Some(n)
  {
    if n < 0 {
      NumeralOfFormat(-n);
      assert FormatInt(n)[1..] == FormatNat(-n);
    } else {
      NumeralOfFormat(n);
    }
  }
}
