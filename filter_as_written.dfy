/** The row filter exactly as the code runs it, stage by stage. */
module FilterAsWritten {
  import opened CurationConfigs
  import opened RowFilter
  import opened LabelSelection
  import opened RejectsTable

  /** The first stage, as the code runs it: the table is cut down to the rows inside
      the line-length window before the rows outside it are selected from it, so the
      rejects table starts empty (its reason column set to "max_ll"). */
  method FirstStageAsWritten(rows: seq<Row>, pass: (Stage, Row) -> bool)
    returns (df: seq<Row>, rejects: seq<Rejection>)
    requires Increasing(rows)
    ensures df == Survivors(rows, pass, 1)
    ensures rejects == []
  {
    var flag := Mask(rows, pass, LineLengthWindow);
    df := Where(rows, flag, true);
    var chunk := Where(df, flag, false);
    FirstKept(rows, pass, flag);
    FirstCovered(rows, pass, flag);
    FirstNoneLeft(rows, pass, flag);
    rejects := SetReason(Untagged(chunk), ReasonTag(LineLengthWindow));
  }

  /** One of the stages after the first, as the code runs it: the flag is computed on
      the current table, the table is cut down to the rows flagged true, and only then
      are the rows flagged false selected from it, appended to the rejects table,
      re-sorted by label and given the stage's reason where they lack one. Since the
      cut-down table holds no row flagged false, nothing is appended. */
  method StageAsWritten(rows: seq<Row>, pass: (Stage, Row) -> bool, k: nat, df: seq<Row>, rejects: seq<Rejection>)
    returns (df': seq<Row>, rejects': seq<Rejection>)
    requires Increasing(rows) && 1 <= k < |Stages|
    requires df == Survivors(rows, pass, k) && rejects == []
    ensures df' == Survivors(rows, pass, k + 1)
    ensures rejects' == []
  {
    var flag := Mask(df, pass, Stages[k]);
    StageSelections(rows, pass, k, df, flag);
    df' := Where(df, flag, true);
    var chunk := Where(df', flag, false);
    EmptyStaysEmpty(rejects, chunk, ReasonTag(Stages[k]));
    rejects' := FillNa(SortIndex(rejects + Untagged(chunk)), ReasonTag(Stages[k]));
  }

  /** The survivors and the rejects table of the filter exactly as the code computes
      them: the rows that pass every stage, in table order, with the parse stage keeping
      the rows that do not parse; and an empty rejects table. */
  method FilterParquetRows(rows: seq<Row>, c: FilterConfig, parse: string -> ParseOutcome)
    returns (kept: seq<Row>, rejects: seq<Rejection>)
    requires Increasing(rows)
    ensures kept == Survivors(rows, AsWritten(c, parse), |Stages|)
    ensures rejects == []
  {
    var pass := AsWritten(c, parse);
    var df;
    df, rejects := FirstStageAsWritten(rows, pass);
    df, rejects := StageAsWritten(rows, pass, 1, df, rejects);  // size at least min_len
    df, rejects := StageAsWritten(rows, pass, 2, df, rejects);  // size in whole KiB at most max_size_kbs
    df, rejects := StageAsWritten(rows, pass, 3, df, rejects);  // alphanumeric fraction inside the open window
    df, rejects := StageAsWritten(rows, pass, 4, df, rejects);  // average line length above min_ave_ll
    df, rejects := StageAsWritten(rows, pass, 5, df, rejects);  // estimated line count at least min_lines
    df, rejects := StageAsWritten(rows, pass, 6, df, rejects);  // the parse check, negated
    kept := df;
  }
}
