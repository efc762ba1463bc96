/** The values kept by the store, and the shape of the store itself. */
module Values {

  /** A stored value: a single text payload. */
  datatype Value = Value(data: string)

  type Key = string

  /** One exported (key, value) pair, the unit the persistence layer writes. */
  type Entry = (Key, Value)

  /** The in-memory store: each key maps to its current value; absence means "not found". */
  type Store = map<Key, Value>
}
