/** Vocabulary shared by the tables the preprocessor and the detector work on. */
module Tables {

  /** A parsed entry of a CSV file's datetime index, as an instant on one integer time line. */
  type Timestamp = int
}
