/** Column names shared by the alignment and the writer. */
module DataModel {

  /** `DataModel.time_column` of data_models/model.py. */
  const TimeColumn: string := "Gmt time"

  /** The release-time column of the interest-rate event files, written literally in database/db_writer.py. */
  const ReleaseTimeColumn: string := "RELEASE_TIME"
}
