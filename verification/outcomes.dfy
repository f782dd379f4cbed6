/** The exceptions the pipeline raises, and a failure-compatible result type
    carrying them. Each constructor of `Error` stands for one raise site (or
    one library exception the core lets propagate) and keeps the payload its
    message is built from.
 */
module Outcomes {

  datatype Error =
    /** `ValueError` from the standardizer: a configured text column is absent. */
    | MissingTextColumn(column: string)
    /** `KeyError` from pandas: projected fields or the merge key are absent. */
    | ColumnsNotInFrame(absent: seq<string>)
    /** A required CSV file could not be read. */
    | UnreadableFile(file: string)
    /** `AssertionError` at load time; the message lists every required feature. */
    | MissingRequiredFeatures(required: seq<string>)
    /** `ValueError` from `remove_columns`: the named columns are not in the dataset. */
    | ColumnsNotInDataset(missing: set<string>)
    /** `ValueError` from `rename_column`: the new name is already a column. */
    | ColumnAlreadyExists(column: string)
    /** `KeyError` from the per-batch encoder, listing the batch's available keys. */
    | BatchKeysMissing(available: seq<string>)
    /** `TypeError`: the field under this key does not hold text. */
    | NotText(key: string)
    /** `ValueError` from `train_test_split`: with this many rows and this
        test share the train part would be empty. */
    | EmptyTrainPart(rows: nat, testPercent: nat)
    /** `IndexError` from `select`: a split is shorter than the sample size. */
    | SampleTooLarge(split: string, size: nat)
    /** `ValueError` from `save_dataset`: the value is not a split dictionary. */
    | NotADatasetDict
    /** `TypeError` from joining the output directory with a missing dataset name. */
    | NoDatasetName

  datatype Result<+T> = Ok(value: T) | Err(error: Error) {

    predicate IsFailure() {
      Err?
    }

    function PropagateFailure<U>(): Result<U>
      requires Err?
    {
      Err(error)
    }

    function Extract(): T
      requires Ok?
    {
      value
    }
  }

  /** A value that may be absent: Python's `None`. */
  datatype Option<T> = None | Some(value: T)
}
