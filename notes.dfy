/** The values the note pipeline passes between its services. */
module Notes {

  datatype Option<+T> = None | Some(value: T)

  /** What one call to the external AI provider produced: a failure of any kind (network,
      authentication, a reply without the expected fields) or the text content of the reply. */
  datatype Outcome = Fail | Ok(content: string)

  /** `if (!this.openaiApiKey)`: an unset key and an empty key both mean "no provider". */
  predicate KeyConfigured(apiKey: Option<string>)
  {
    apiKey.Some? && apiKey.value != ""
  }

  /** Extracted facts: category name to the list of values found in that category. */
  type EntitySet = map<string, seq<string>>

  /** One stored note; `timestamp` is in milliseconds since the epoch. */
  datatype Recording = Recording(id: nat, timestamp: int, text: string, entities: Option<EntitySet>)
}
