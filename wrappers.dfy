/** Option and Result datatypes shared by the pipeline's stages. */
module Wrappers {

  /** A value that may be absent: a missing sensor reading, or a model fit that raised. */
  datatype Option<+T> = None | Some(value: T)

  /** The outcome of a stage that can fail with an error instead of a value. */
  datatype Result<+T, +E> = Ok(value: T) | Err(error: E)
}

/** The file system as the stages see it: a path either names an existing file or it does not. */
module Files {

  type Path = string

  /** The only I/O failure the core reports: a required input file is absent. */
  datatype IoError = FileNotFound(path: Path)
}
