/** Values shared by every stage of the training analysis: optional values,
    the fatal conditions that end a run, and results that carry one of them. */
module Common {

  datatype Option<+T> = None | Some(value: T)

  /** Why a run stops. The script has no recoverable errors: every one of
      these ends it with exit status 1 before anything is reported. */
  datatype Error =
    | MissingRankList                  // an "@@ranks" line with no tab-separated rank list
    | RankAbsent(rank: string)         // the requested rank is not in the rank list
    | RanksNotDeclared                 // a positive entry read before any "@@ranks" line
    | MalformedLine(line: string)      // an entry that is not exactly two tab-separated fields
    | LineageTooShort(lineage: string) // a lineage with no field at the rank index
    | NotAnInteger(text: string)       // an abundance that is not a decimal integer
    | UnexpectedReadId(id: string)     // a query header that matches no expectation pattern
    | DuplicateClassification(read: string, setting: string)
    | UnexpectedTrainingRead(read: string) // a classified read that is not in the read table
    | MissingLabel(line: string)       // a "<rank>:" line without ": " before a label
    | NoSetting                        // the training output has no setting block to analyse
    | MissingRow(key: string)          // a table row that was never created is looked up
    | UndefinedScore(setting: string)  // Bray-Curtis of two all-zero count vectors (0 / 0)

  datatype Result<+T> = Ok(value: T) | Err(error: Error) {

    predicate IsFailure() {
      Err?
    }

    function PropagateFailure<U>(): Result<U>
      requires Err?
    {
      Err(error)
    }

    function Extract(): T
      requires Ok?
    {
      value
    }
  }

  /** A table cell of the read table: None stands for NaN (no label). */
  type Label = Option<string>

  /** Name of the expectation row and column key. */
  const EXP: string := "exp"

  /** The taxon that collects reads left unassigned (Bray-Curtis mode). */
  const UNMATCHED: string := "UNMATCHED"

  /** The category that replaces every missing label before Rk is computed. */
  const UNCLASSIFIED: string := "unclassified"
}
