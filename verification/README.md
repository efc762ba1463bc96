# Storage engine of a small key-value store, modelled in Dafny

This project models the storage engine of `rust_nosql_db`, an embedded key-value store that
maps string keys to text values, stages operations in a transaction, and persists its whole
contents to one file. The model is sequential and functional: the database is an immutable
`Database.State` holding

- the store, a `map<string, Value>`;
- the transaction slot, `Option<Transaction>`, where a transaction is an ordered log of
  `Put(key, value)` / `Delete(key)` operations;
- an abstract file system `Fs`: a map from paths to byte strings, plus the paths on which the
  operating system reports an I/O error (with its kind, `NotFound` or `Other`);
- the path of the database file.

Each operation of the façade is a function (or, where it must list a map's entries in an
unspecified order, a method) from a state to a `Step`: the next state and the operation's
`Result`. The serialization format is a `Codec`: a total encoder and a partial decoder passed
as function values. Its round trip is not assumed globally; the lemmas that need it take the
predicate `Persistence.Lawful` as a precondition. `Lawful` says that decoding an encoding gives
back the entries. It also says that an encoding is never empty. A zero-length file is read as
"no entries" without consulting the decoder, so an encoder that emitted zero bytes would break
the round trip.

Modules follow the source files:

| module | source |
|---|---|
| `Errors` | `src/error/database_error.rs`, plus the `Option`/`Result` wrappers |
| `Values` | `src/core/value.rs` |
| `Maps` | map export and re-insertion used by `database.rs` and `write_cache.rs` |
| `Transactions` | `src/transactions/transaction.rs` and the commit loop of `database.rs` |
| `FileSystem` | the `std::fs` calls used by `persistence.rs` and `database.rs` |
| `Persistence` | `src/storage/persistence.rs` |
| `Database` | `src/core/database.rs` |
| `WriteCache` | `src/core/write_cache.rs` |

Where the code and the intended design differ, the model follows the code:

- `put` and `delete` change only memory; they do not save to the file.
- `delete` of an absent key succeeds.
- Saving truncates the file and writes the new encoding; there is no atomic rename.
- Undecodable bytes fail with `SerializationError`; there is no separate corrupt-data error.
- There is no way to abandon a transaction.
- The transaction stub in `transaction.rs` stores payload-less `Put`/`Delete` tags and has no
  `operations()` accessor. `database.rs` calls `trans.put(key, value)` and iterates the
  operations as (key, value) pairs. The model's log carries the payloads, which is what the
  caller needs. Staged deletes are applied as removals.
- `SerializationError` is declared to wrap a JSON error, but `persistence.rs` builds it from a
  message string. The model's `SerializationError` carries no payload.
- Line 26 of `write_cache.rs` sends a pair `(batch, oneshot sender)` on a channel whose items
  are single `(key, Option<Value>)` writes. The model sends the drained batch as one message.

## Model

| member | source | states |
|---|---|---|
| `Maps.Export` | src/core/database.rs:67-69 | every entry of the map is listed exactly once with its value, and nothing else is listed |
| `Maps.InsertAll` | src/core/database.rs:77-80 | after inserting the entries in order, each mentioned key holds the value of its last entry, unmentioned keys keep their old value, and the key set is the old keys plus the mentioned ones |
| `Maps.ExportSize` | src/core/write_cache.rs:24-25 | an export has exactly one entry per key of the map, so it is empty exactly when the map is |
| `Maps.ExportRebuilds` | src/core/database.rs:66-83 | re-inserting an export of a map into an empty map gives back that map exactly |
| `Transactions.New` | src/transactions/transaction.rs:11-15 | a new transaction has an empty operation log |
| `Transactions.StagePut` | src/transactions/transaction.rs:17-19 | staging a put adds exactly one `Put(k, v)` at the end of the log, and the old log is a prefix of the new one |
| `Transactions.StageDelete` | src/transactions/transaction.rs:21-23 | staging a delete adds exactly one `Delete(k)` at the end of the log, and the old log is a prefix of the new one |
| `Transactions.ApplyOp` | src/core/database.rs:104-106 | a put makes its key hold its value, a delete makes its key absent, and no other key changes |
| `Transactions.Apply` | src/core/database.rs:102-106 | after applying the log, each key holds what the last operation on it says, and keys the log never names are unchanged (last write wins) |
| `Transactions.ApplyConcat` | src/core/database.rs:104-106 | applying a log in two consecutive pieces equals applying it whole: operations take effect in log order |
| `Transactions.StagedPutApplies` | src/core/database.rs:93-106 | committing a log extended by a staged put equals committing the shorter log and then writing that key |
| `Transactions.StagedDeleteAfterPut` | tests/database_tests.rs:83-97 | staging put a, put b, delete a and applying leaves a absent and b with its staged value |
| `Persistence.SaveToFile` | src/storage/persistence.rs:6-12 | saving succeeds exactly when the file can be created; then the path holds exactly the encoding, replacing earlier content, and no other path changes; otherwise the I/O error kind is returned |
| `Persistence.LoadFromFile` | src/storage/persistence.rs:14-23 | a faulting path gives its I/O error and a missing file gives `NotFound`; an empty file gives no entries; otherwise the result is exactly what the decoder gives, and bytes it rejects give `SerializationError` rather than any entries |
| `Persistence.SaveLoadRoundTrip` | src/storage/persistence.rs:6-23 | with a lawful codec, loading right after a successful save returns exactly the saved entries |
| `Database.Get` | src/core/database.rs:55-59 | get succeeds exactly for present keys, with the stored value; an absent key fails with `KeyNotFound` carrying that key |
| `Database.Put` | src/core/database.rs:50-53 | put always succeeds; afterwards get of the key returns the new value, every other key reads as before, and the transaction slot and the files are untouched |
| `Database.Delete` | src/core/database.rs:61-64 | delete always succeeds, even for an absent key; afterwards get of the key fails with `KeyNotFound`, every other key reads as before, and the slot and files are untouched |
| `Database.Load` | src/core/database.rs:74-83 | on a read or decode error nothing changes and the error is returned; otherwise the store holds exactly the keys of the file, each with its last value in the file, and earlier contents are gone |
| `Database.Open` | src/core/database.rs:27-48 | a missing file gives an empty store plus a new empty file; an existing file is loaded; every other error, including a failure to create the file, is returned |
| `Database.OpenIdempotent` | src/core/database.rs:36-45 | opening again the file system a successful open left behind gives the same database |
| `Database.Save` | src/core/database.rs:66-72 | the in-memory state is unchanged; the save succeeds exactly when the file can be created, and then the file holds the encoding of a listing of every entry of the store |
| `Database.Snapshot` | src/core/database.rs:114-117 | like save, but the encoding goes to the path with `_snapshot` appended |
| `Database.BeginTransaction` | src/core/database.rs:85-91 | with a transaction open it fails with `TransactionAlreadyInProgress` and changes nothing; otherwise it installs an empty transaction and touches nothing else |
| `Database.PutInTransaction` | src/core/database.rs:93-100 | with no transaction open it fails with `NoTransactionInProgress` and changes nothing; otherwise it appends `Put(k, v)` to the log and leaves the store and files alone |
| `Database.CommitTransaction` | src/core/database.rs:102-112 | with no transaction it fails with `NoTransactionInProgress` and changes nothing; otherwise the slot is emptied, the staged operations are applied with the last one per key winning, and the store is saved; a failed save is returned but the applied changes stay |
| `Database.ReopenRestores` | src/core/database.rs:66-83 | with a lawful codec, opening the file a save of a store wrote gives back exactly that store, with no transaction open |
| `WriteCache.New` | src/core/write_cache.rs:12-17 | a new cache has no pending writes and leaves the channel's batches as they were |
| `WriteCache.Add` | src/core/write_cache.rs:19-21 | the pending write for the key becomes the given value or deletion, replacing any earlier one, and other keys' pending writes are unchanged |
| `WriteCache.Flush` | src/core/write_cache.rs:23-30 | afterwards nothing is pending; with nothing pending or a refused send no batch is added; otherwise exactly one batch is appended, holding each pending key once with its latest write |

## Left out

- Concurrency: the `DashMap` store, its sharing through `Arc`, and the `Clone` implementation that aliases the map (src/core/database.rs:16-24). The model is single-threaded, one operation after another.
- The save triggered by `Drop` (src/core/database.rs:120-125). It runs whenever a `Database` value is dropped, logs its failure and returns nothing; `Database.Save` is the explicit operation.
- Database.Open: does not model the `Drop` save of the half-built database when `new` returns an error (src/core/database.rs:42, 44). In the source that save writes the encoding of an empty entry list to the path whenever the path can be created. So opening a file with undecodable bytes returns `SerializationError` and also replaces the file with an empty database, and the next open succeeds with an empty store. The model's `Open` returns the error and leaves the file system unchanged.
- `async`, tokio, the mpsc and oneshot mechanics of the write cache, logging, and `src/main.rs` with its timed snapshot loop.
- The MessagePack byte layout and `rmp_serde`. The codec is an abstract pair of functions, and its round trip is a precondition (`Persistence.Lawful`), not a proved fact.
- Persistence.SaveToFile: never fails with `SerializationError`. The encoder is total, so the encode-error mapping of src/storage/persistence.rs:9 is not modelled.
- Persistence.SaveToFile: a write or flush that fails after the file was created (src/storage/persistence.rs:9-10) is not modelled; that would leave a truncated or partial file. I/O failures are per path: a path that faults fails its open and its create with the same kind.
- Persistence.LoadFromFile: the separate failure points of `open`, `metadata` and `read_to_end` (src/storage/persistence.rs:15-21) are folded into the one per-path fault.
- `Timeout` and `LockError` are declared (src/error/database_error.rs:11-18) but no modelled operation produces them, as in the source.
- `Database.Save`, `Database.Snapshot` and `Database.CommitTransaction` leave the order of the written entries open, as hash-map iteration does; they state that the file holds the encoding of some listing of the store's entries.
- A staged delete on the database façade: `database.rs` exposes only the staged put. `Transactions.StageDelete` models the transaction log's own `delete`.
- The test files, which target several mutually inconsistent versions of the API, are used only as evidence for the properties above.
