/** Outcomes of the driver's calls. */
module Results {
  datatype Option<+T> = None | Some(value: T)

  datatype IgbError =
    | QueueNotAligned
    | QueueFull
    | NoMemory
    | PageNotAligned
    | NotReady
    | InvalidQueue

  /** `Panic` stands for a failed `assert!`, an explicit `panic!` or an index out of range. */
  datatype Result<+T> = Ok(value: T) | Err(error: IgbError) | Panic
}
