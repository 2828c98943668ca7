/** Small value types shared by the runner and the scrapers. */
module Common {

  /** An optional value: `undefined` / a failed match in the source. */
  datatype Option<+T> = None | Some(value: T)

  /** What awaiting a registered scraper yields: it resolves, or it rejects
      with an error whose `message` the runner reports. */
  datatype Outcome = Ok | Fail(message: string)
}
