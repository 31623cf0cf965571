/** Every stage of the script reads one file top to bottom, changing its state
    line by line, and the first fatal condition ends the run. `Fold` is that
    reading, stated once for all stages: the state after the lines of a file
    have been read by `step`. */
module Lines {
  import opened Common

  function Fold<S>(step: (S, string) -> Result<S>, init: S, lines: seq<string>): Result<S>
    decreases |lines|
  {
    if lines == [] then Ok(init)
    else match Fold(step, init, lines[..|lines| - 1])
      case Err(e) => Err(e)
      case Ok(s) => step(s, lines[|lines| - 1])
  }

  /** A non-empty file is its lines before the last, then the last. */
  lemma ButLast<T>(lines: seq<T>)
    requires lines != []
    ensures lines[..|lines| - 1] + [lines[|lines| - 1]] == lines
  {
  }

  /** Reading one more line. */
  lemma FoldNext<S>(step: (S, string) -> Result<S>, init: S, lines: seq<string>, i: nat)
    requires i < |lines|
    ensures Fold(step, init, lines[..i + 1]) ==
            match Fold(step, init, lines[..i])
            case Err(e) => Err(e)
            case Ok(s) => step(s, lines[i])
  {
    assert lines[..i + 1][..i] == lines[..i];
  }

  /** Once a fatal condition is met, the rest of the file is never read. */
  lemma {:induction false} FoldStopsAtError<S>(step: (S, string) -> Result<S>, init: S, lines: seq<string>, i: nat)
    requires i <= |lines| && Fold(step, init, lines[..i]).Err?
    decreases |lines| - i
    ensures Fold(step, init, lines) == Fold(step, init, lines[..i])
  {
    if i < |lines| {
      FoldNext(step, init, lines, i);
      FoldStopsAtError(step, init, lines, i + 1);
    } else {
      assert lines[..i] == lines;
    }
  }

  /** Reading a non-empty file is reading all but its last line, then that line. */
  lemma FoldLast<S>(step: (S, string) -> Result<S>, init: S, lines: seq<string>)
    requires lines != []
    ensures Fold(step, init, lines) ==
            match Fold(step, init, lines[..|lines| - 1])
            case Err(e) => Err(e)
            case Ok(s) => step(s, lines[|lines| - 1])
  {
  }

  /** A line whose step succeeds extends the state of the lines before it. */
  lemma FoldOk<S>(step: (S, string) -> Result<S>, init: S, lines: seq<string>, i: nat, s: S, s': S)
    requires i < |lines| && Fold(step, init, lines[..i]) == Ok(s) && step(s, lines[i]) == Ok(s')
    ensures Fold(step, init, lines[..i + 1]) == Ok(s')
  {
    FoldNext(step, init, lines, i);
  }

  /** A line whose step fails ends the reading of the whole file with that failure. */
  lemma FoldFailsAt<S>(step: (S, string) -> Result<S>, init: S, lines: seq<string>, i: nat)
    requires i < |lines| && Fold(step, init, lines[..i]).Ok?
    requires step(Fold(step, init, lines[..i]).value, lines[i]).Err?
    ensures Fold(step, init, lines) == step(Fold(step, init, lines[..i]).value, lines[i])
  {
    FoldNext(step, init, lines, i);
    FoldStopsAtError(step, init, lines, i + 1);
  }

  /** Reading a file in two parts: the second part starts from the state the
      first part left. */
  lemma {:induction false} FoldAppend<S>(step: (S, string) -> Result<S>, init: S, a: seq<string>, b: seq<string>)
    decreases |b|
    ensures Fold(step, init, a + b) ==
            match Fold(step, init, a)
            case Err(e) => Err(e)
            case Ok(s) => Fold(step, s, b)
  {
    if b == [] {
      assert a + b == a;
    } else {
      var b' := b[..|b| - 1];
      FoldAppend(step, init, a, b');
      assert (a + b)[..|a + b| - 1] == a + b';
      assert (a + b)[|a + b| - 1] == b[|b| - 1];
    }
  }

  /** The sequence f(0), ..., f(n - 1). */
  function Tabulate<T>(f: nat -> T, n: nat): (r: seq<T>)
    ensures |r| == n
  {
    if n == 0 then [] else Tabulate(f, n - 1) + [f(n - 1)]
  }

  /** Element k of a tabulation is f(k). */
  lemma {:induction false} TabulateAt<T>(f: nat -> T, n: nat, k: nat)
    requires k < n
    ensures Tabulate(f, n)[k] == f(k)
  {
    if k < n - 1 {
      TabulateAt(f, n - 1, k);
    }
  }
}
