/** The two data-integrity assertions of the pipeline, as error values. */
module Integrity {

  datatype IntegrityError =
    | MultipleDischargeSummaries  // two kept notes share an admission id
    | RowsIncreased               // the left join produced more rows than admissions
}
