/** The database façade: a store, at most one open transaction, the file system it persists
    to and the path of its file. Every operation is a state transition returning the new
    state with the operation's result. */
module Database {
  import opened Errors
  import opened Values
  import opened Maps
  import opened FileSystem
  import opened Persistence
  import Transactions

  datatype State = State(store: Store, txn: Option<Transactions.Transaction>, fs: Fs, path: Path)

  /** The state after an operation, together with what the operation returned. */
  datatype Step<T> = Step(state: State, result: Result<T>)

  /** The file a snapshot is written to, next to the database file. */
  function SnapshotPath(p: Path): Path
  {
    p + "_snapshot"
  }

  /** A successful save of `m` to `p` turned file system `before` into `after`: `p` now holds
      the encoding of some listing of `m`'s entries, and nothing else changed. */
  ghost predicate Persisted(before: Fs, after: Fs, c: Codec, p: Path, m: Store)
  {
    && p !in before.faults
    && exists es :: IsExport(es, m) && after == before.(files := before.files[p := c.encode(es)])
  }

  /** Looks `k` up: its value if present, otherwise `KeyNotFound` naming the key. */
  function Get(s: State, k: Key): (r: Result<Value>)
    ensures r.Ok? <==> k in s.store
    ensures r.Ok? ==> r.value == s.store[k]
    ensures r.Err? ==> r.error == KeyNotFound(k)
  {
    if k in s.store then Ok(s.store[k]) else Err(KeyNotFound(k))
  }

  /** Inserts or overwrites `k`. Always succeeds; nothing is written to the file. */
  function Put(s: State, k: Key, v: Value): (r: Step<()>)
    ensures r.result == Ok(())
    ensures Get(r.state, k) == Ok(v)
    ensures forall k' :: k' != k ==> Get(r.state, k') == Get(s, k')
    ensures r.state.txn == s.txn && r.state.fs == s.fs && r.state.path == s.path
  {
    Step(s.(store := s.store[k := v]), Ok(()))
  }

  /** Removes `k` if present. Succeeds whether or not the key was there. */
  function Delete(s: State, k: Key): (r: Step<()>)
    ensures r.result == Ok(())
    ensures Get(r.state, k) == Err(KeyNotFound(k))
    ensures forall k' :: k' != k ==> Get(r.state, k') == Get(s, k')
    ensures r.state.txn == s.txn && r.state.fs == s.fs && r.state.path == s.path
  {
    Step(s.(store := s.store - {k}), Ok(()))
  }

  /** Replaces the store with the entries read from the database file. On a read or decode
      error nothing changes and the error is returned. Otherwise the old contents are gone:
      each key holds the value of its last entry in the file and no other key is present. */
  function Load(s: State, c: Codec): (r: Step<()>)
    ensures LoadFromFile(s.fs, c, s.path).Err? ==>
              r.state == s && r.result == Err(LoadFromFile(s.fs, c, s.path).error)
    ensures LoadFromFile(s.fs, c, s.path).Ok? ==>
              && r.result == Ok(())
              && r.state.store.Keys == KeysOf(LoadFromFile(s.fs, c, s.path).value)
              && (forall k :: Lookup(r.state.store, k) == LastValue(LoadFromFile(s.fs, c, s.path).value, k))
              && r.state.txn == s.txn && r.state.fs == s.fs && r.state.path == s.path
  {
    match LoadFromFile(s.fs, c, s.path)
    case Err(e) => Step(s, Err(e))
    case Ok(entries) => Step(s.(store := InsertAll(map[], entries)), Ok(()))
  }

  /** Opens the database stored at `p`. An existing file is loaded; a missing file gives an
      empty store and creates an empty file; every other error is returned. */
  function Open(fs: Fs, c: Codec, p: Path): (r: Result<State>)
    ensures p in fs.faults ==> r == Err(IoError(fs.faults[p]))
    ensures p !in fs.faults && p !in fs.files ==>
              r == Ok(State(map[], None, fs.(files := fs.files[p := []]), p))
    ensures p !in fs.faults && p in fs.files ==>
              match LoadFromFile(fs, c, p)
              case Err(e) => r == Err(e)
              case Ok(entries) =>
                && r.Ok? && r.value.txn == None && r.value.fs == fs && r.value.path == p
                && r.value.store.Keys == KeysOf(entries)
                && forall k :: Lookup(r.value.store, k) == LastValue(entries, k)
  {
    var empty := State(map[], None, fs, p);
    var loaded := Load(empty, c);
    match loaded.result
    case Ok(_) => Ok(loaded.state)
    case Err(IoError(NotFound)) =>
      (match Create(fs, p)
       case Ok(created) => Ok(empty.(fs := created))
       case Err(e) => Err(e))
    case Err(e) => Err(e)
  }

  /** Writes every entry of the store to the database file. The in-memory state is unchanged;
      the result is `Ok` exactly when the file could be created. */
  method Save(s: State, c: Codec) returns (r: Step<()>)
    ensures r.state.store == s.store && r.state.txn == s.txn && r.state.path == s.path
    ensures r.result.Ok? <==> s.path !in s.fs.faults
    ensures r.result.Ok? ==> Persisted(s.fs, r.state.fs, c, s.path, s.store)
    ensures r.result.Err? ==> r.state.fs == s.fs && r.result.error == IoError(s.fs.faults[s.path])
  {
    var entries := Export(s.store);
    match SaveToFile(s.fs, c, s.path, entries)
    case Ok(fs') =>
      r := Step(s.(fs := fs'), Ok(()));
    case Err(e) =>
      r := Step(s, Err(e));
  }

  /** Writes every entry of the store to the snapshot file beside the database file. */
  method Snapshot(s: State, c: Codec) returns (r: Step<()>)
    ensures r.state.store == s.store && r.state.txn == s.txn && r.state.path == s.path
    ensures r.result.Ok? <==> SnapshotPath(s.path) !in s.fs.faults
    ensures r.result.Ok? ==> Persisted(s.fs, r.state.fs, c, SnapshotPath(s.path), s.store)
    ensures r.result.Err? ==>
              r.state.fs == s.fs && r.result.error == IoError(s.fs.faults[SnapshotPath(s.path)])
  {
    var entries := Export(s.store);
    match SaveToFile(s.fs, c, SnapshotPath(s.path), entries)
    case Ok(fs') =>
      r := Step(s.(fs := fs'), Ok(()));
    case Err(e) =>
      r := Step(s, Err(e));
  }

  /** Opens a transaction. Fails, changing nothing, if one is already open. */
  function BeginTransaction(s: State): (r: Step<()>)
    ensures s.txn.Some? ==> r == Step(s, Err(TransactionAlreadyInProgress))
    ensures s.txn.None? ==>
              && r.result == Ok(())
              && r.state.txn.Some? && r.state.txn.value.ops == []
              && r.state.store == s.store && r.state.fs == s.fs && r.state.path == s.path
  {
    if s.txn.Some? then Step(s, Err(TransactionAlreadyInProgress))
    else Step(s.(txn := Some(Transactions.New())), Ok(()))
  }

  /** Stages a put in the open transaction without touching the store. Fails, changing
      nothing, if no transaction is open. */
  function PutInTransaction(s: State, k: Key, v: Value): (r: Step<()>)
    ensures s.txn.None? ==> r == Step(s, Err(NoTransactionInProgress))
    ensures s.txn.Some? ==>
              && r.result == Ok(())
              && r.state.txn.Some? && r.state.txn.value.ops == s.txn.value.ops + [Transactions.Op.Put(k, v)]
              && r.state.store == s.store && r.state.fs == s.fs && r.state.path == s.path
  {
    match s.txn
    case Some(t) => Step(s.(txn := Some(Transactions.StagePut(t, k, v))), Ok(()))
    case None => Step(s, Err(NoTransactionInProgress))
  }

  /** Commits the open transaction: closes it, applies its operations to the store in order
      (so the last operation on a key decides it), then saves. A failed save is returned as
      the result but the applied changes stay in the store and the transaction stays closed. */
  method CommitTransaction(s: State, c: Codec) returns (r: Step<()>)
    ensures s.txn.None? ==> r == Step(s, Err(NoTransactionInProgress))
    ensures s.txn.Some? ==>
              && r.state.txn.None?
              && r.state.path == s.path
              && (forall k :: Lookup(r.state.store, k) ==
                               Transactions.Outcome(Transactions.LastOpOn(s.txn.value.ops, k), Lookup(s.store, k)))
              && (r.result.Ok? <==> s.path !in s.fs.faults)
              && (r.result.Ok? ==> Persisted(s.fs, r.state.fs, c, s.path, r.state.store))
              && (r.result.Err? ==> r.state.fs == s.fs && r.result.error == IoError(s.fs.faults[s.path]))
  {
    match s.txn
    case None =>
      r := Step(s, Err(NoTransactionInProgress));
    case Some(t) =>
      var applied := s.(txn := None, store := Transactions.Apply(s.store, t.ops));
      r := Save(applied, c);
  }

  /** Reopening a file that a save of `m` wrote restores `m` exactly, with no transaction open. */
  lemma ReopenRestores(before: Fs, after: Fs, c: Codec, p: Path, m: Store)
    requires Lawful(c)
    requires Persisted(before, after, c, p, m)
    ensures Open(after, c, p) == Ok(State(m, None, after, p))
  {
    var es :| IsExport(es, m) && after == before.(files := before.files[p := c.encode(es)]);
    assert c.decode(c.encode(es)) == Some(es) && |c.encode(es)| > 0;
    assert LoadFromFile(after, c, p) == Ok(es);
    ExportRebuilds(es, m);
  }

  /** Opening is repeatable: opening again the file system an open left behind gives the
      same database (a missing file was created empty, and an empty file loads as empty). */
  lemma OpenIdempotent(fs: Fs, c: Codec, p: Path)
    requires Open(fs, c, p).Ok?
    ensures Open(Open(fs, c, p).value.fs, c, p) == Open(fs, c, p)
  {
  }
}
