/** The persistence pattern both stores share. Each mutator ends by
    writing the whole in-memory state to one file (the key-value store's
    `clear` deletes it instead), and each store reads that file back when
    it is constructed. The serialisation format is not modelled: a file
    either is absent, makes the load raise `EOFError`, makes it raise
    anything else, or holds a state. */
module Snapshot {

  datatype File<S> =
    | Absent             // no file at the store's path
    | Truncated          // the load raises `EOFError` (for instance, an empty file)
    | Garbled            // the load raises any other error, such as a short or corrupt record
    | Holds(state: S)    // a complete snapshot of `state`

  /** What a mutator leaves behind and the value it returns to its caller. */
  datatype Mutation<S> = Mutation(state: S, returned: bool)
}
