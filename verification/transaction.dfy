/** The transaction log: an append-only list of staged operations, and what committing it
    does to a store. */
module Transactions {
  import opened Errors
  import opened Values
  import opened Maps

  /** A staged mutation. */
  datatype Op = Put(key: Key, value: Value) | Delete(key: Key)

  /** A transaction is the ordered log of the operations staged so far. */
  datatype Transaction = Transaction(ops: seq<Op>)

  /** A fresh transaction has nothing staged. */
  function New(): (t: Transaction)
    ensures |t.ops| == 0
  {
    Transaction([])
  }

  /** Stages a put: one `Put` entry at the end of the log, everything before it untouched. */
  function StagePut(t: Transaction, k: Key, v: Value): (r: Transaction)
    ensures |r.ops| == |t.ops| + 1
    ensures t.ops <= r.ops
    ensures r.ops[|t.ops|] == Op.Put(k, v)
  {
    Transaction(t.ops + [Op.Put(k, v)])
  }

  /** Stages a delete: one `Delete` entry at the end of the log, everything before it untouched. */
  function StageDelete(t: Transaction, k: Key): (r: Transaction)
    ensures |r.ops| == |t.ops| + 1
    ensures t.ops <= r.ops
    ensures r.ops[|t.ops|] == Op.Delete(k)
  {
    Transaction(t.ops + [Op.Delete(k)])
  }

  /** The effect of one operation on a store: only its key changes. */
  function ApplyOp(m: Store, op: Op): (r: Store)
    ensures op.Put? ==> Lookup(r, op.key) == Some(op.value)
    ensures op.Delete? ==> Lookup(r, op.key) == None
    ensures forall k :: k != op.key ==> Lookup(r, k) == Lookup(m, k)
  {
    match op
    case Put(k, v) => m[k := v]
    case Delete(k) => m - {k}
  }

  /** Applies `ops` to `m` from first to last. Last write wins: afterwards each key holds
      what the last operation on it says, and keys the log never names are unchanged. */
  function Apply(m: Store, ops: seq<Op>): (r: Store)
    ensures forall k :: Lookup(r, k) == Outcome(LastOpOn(ops, k), Lookup(m, k))
    decreases |ops|
  {
    if ops == [] then m
    else ApplyOp(Apply(m, ops[..|ops| - 1]), ops[|ops| - 1])
  }

  /** The last operation in `ops` on key `k`, if any. */
  function LastOpOn(ops: seq<Op>, k: Key): (r: Option<Op>)
    ensures r.Some? ==> r.value in ops && r.value.key == k
    decreases |ops|
  {
    if ops == [] then None
    else if ops[|ops| - 1].key == k then Some(ops[|ops| - 1])
    else LastOpOn(ops[..|ops| - 1], k)
  }

  /** What key `k` holds after applying `ops` to a store where it held `before`: the last
      operation on `k` decides, and a key no operation names keeps its value. */
  function Outcome(last: Option<Op>, before: Option<Value>): Option<Value>
  {
    match last
    case None => before
    case Some(Put(_, v)) => Some(v)
    case Some(Delete(_)) => None
  }

  /** Applying a log in two pieces is applying it whole: staged operations compose in order. */
  lemma {:induction false} ApplyConcat(m: Store, a: seq<Op>, b: seq<Op>)
    ensures Apply(m, a + b) == Apply(Apply(m, a), b)
    decreases |b|
  {
    if b == [] {
      assert a + b == a;
    } else {
      var b' := b[..|b| - 1];
      assert (a + b)[..|a + b| - 1] == a + b';
      assert (a + b)[|a + b| - 1] == b[|b| - 1];
      ApplyConcat(m, a, b');
    }
  }

  /** Committing a transaction with one more staged put is committing the shorter one and
      then writing that key. */
  lemma StagedPutApplies(m: Store, t: Transaction, k: Key, v: Value)
    ensures Apply(m, StagePut(t, k, v).ops) == Apply(m, t.ops)[k := v]
  {
  }

  /** A delete staged after a put of the same key wins, and other staged keys are unaffected. */
  lemma StagedDeleteAfterPut(m: Store, k1: Key, v1: Value, k2: Key, v2: Value)
    requires k1 != k2
    ensures var t := StageDelete(StagePut(StagePut(New(), k1, v1), k2, v2), k1);
            var r := Apply(m, t.ops);
            k1 !in r && k2 in r && r[k2] == v2
  {
  }
}
