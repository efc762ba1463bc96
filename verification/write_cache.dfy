/** The write cache: a buffer of pending writes keyed by key (a value, or `None` for a
    deletion), drained as one batch into an outgoing channel. The channel is modelled by the
    list of batches it has accepted so far. */
module WriteCache {
  import opened Errors
  import opened Values
  import opened Maps

  /** A pending write: the new value, or `None` for a deletion. */
  type Write = Option<Value>

  /** One message on the channel: every pending write drained by one flush. */
  type Batch = seq<(Key, Write)>

  datatype Cache = Cache(pending: map<Key, Write>, sent: seq<Batch>)

  /** A cache over a channel that has so far accepted the batches `sent`. */
  function New(sent: seq<Batch>): (r: Cache)
    ensures |r.pending| == 0
    ensures r.sent == sent
  {
    Cache(map[], sent)
  }

  /** Records a pending write for `k`, replacing any earlier pending write for it. */
  function Add(c: Cache, k: Key, w: Write): (r: Cache)
    ensures Lookup(r.pending, k) == Some(w)
    ensures forall k' :: k' != k ==> Lookup(r.pending, k') == Lookup(c.pending, k')
    ensures r.sent == c.sent
  {
    c.(pending := c.pending[k := w])
  }

  /** Drains every pending write and, if there was any, sends them as one batch. `delivered`
      says whether the channel accepts the batch; a refused batch is reported on the error
      stream only, and its writes are lost. */
  method Flush(c: Cache, delivered: bool) returns (r: Cache)
    ensures |r.pending| == 0
    ensures |c.pending| == 0 || !delivered ==> r.sent == c.sent
    ensures |c.pending| > 0 && delivered ==>
              && |r.sent| == |c.sent| + 1
              && r.sent[..|c.sent|] == c.sent
              && IsExport(r.sent[|c.sent|], c.pending)
  {
    var batch := Export(c.pending);
    ExportSize(batch, c.pending);
    if |batch| > 0 && delivered {
      r := Cache(map[], c.sent + [batch]);
    } else {
      r := Cache(map[], c.sent);
    }
  }
}
