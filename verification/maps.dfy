/** Entry lists and the maps they describe: exporting a map to a list of its entries (in an
    unspecified order, as a hash map iterates), and inserting a list of entries into a map
    one after another, so that a later entry for a key replaces an earlier one. */
module Maps {
  import opened Errors

  /** The value `m` holds for `k`, if any. */
  function Lookup<K, V>(m: map<K, V>, k: K): Option<V>
  {
    if k in m then Some(m[k]) else None
  }

  /** The keys an entry list mentions. */
  function KeysOf<K, V>(es: seq<(K, V)>): set<K>
  {
    set i | 0 <= i < |es| :: es[i].0
  }

  ghost predicate NoDuplicateKeys<K, V>(es: seq<(K, V)>)
  {
    forall i, j :: 0 <= i < j < |es| ==> es[i].0 != es[j].0
  }

  /** `es` lists every entry of `m` exactly once, in some order, and nothing else. */
  ghost predicate IsExport<K, V>(es: seq<(K, V)>, m: map<K, V>)
  {
    && NoDuplicateKeys(es)
    && KeysOf(es) == m.Keys
    && forall i :: 0 <= i < |es| ==> es[i].0 in m && m[es[i].0] == es[i].1
  }

  /** Lists the entries of `m`, each once, in an order the model leaves open. */
  method Export<K, V>(m: map<K, V>) returns (es: seq<(K, V)>)
    ensures IsExport(es, m)
  {
    es := [];
    var rest := m.Keys;
    while rest != {}
      invariant rest <= m.Keys
      invariant KeysOf(es) == m.Keys - rest
      invariant NoDuplicateKeys(es)
      invariant forall i :: 0 <= i < |es| ==> es[i].0 in m && m[es[i].0] == es[i].1
      decreases rest
    {
      var k :| k in rest;
      KeysOfAppend(es, (k, m[k]));
      es := es + [(k, m[k])];
      rest := rest - {k};
    }
  }

  lemma KeysOfAppend<K, V>(es: seq<(K, V)>, e: (K, V))
    ensures KeysOf(es + [e]) == KeysOf(es) + {e.0}
  {
    var es' := es + [e];
    assert es'[|es|] == e;
    assert forall i :: 0 <= i < |es| ==> es'[i] == es[i];
  }

  /** Without duplicate keys, an entry list has one entry per key it mentions. */
  lemma {:induction false} KeysOfSize<K, V>(es: seq<(K, V)>)
    requires NoDuplicateKeys(es)
    ensures |KeysOf(es)| == |es|
    decreases |es|
  {
    if es != [] {
      var init := es[..|es| - 1];
      var last := es[|es| - 1];
      assert es == init + [last];
      KeysOfAppend(init, last);
      KeysOfSize(init);
      assert last.0 !in KeysOf(init);
    }
  }

  /** An export has exactly as many entries as the map has keys. */
  lemma ExportSize<K, V>(es: seq<(K, V)>, m: map<K, V>)
    requires IsExport(es, m)
    ensures |es| == |m|
  {
    KeysOfSize(es);
    assert |KeysOf(es)| == |m.Keys|;
  }

  /** Inserts the entries of `es` into `m` from first to last. Afterwards each key holds the
      value of its last entry in `es` (a later entry overwrites an earlier one), and keys `es`
      does not mention keep what they had in `m`. */
  function InsertAll<K(==,!new), V>(m: map<K, V>, es: seq<(K, V)>): (r: map<K, V>)
    ensures r.Keys == m.Keys + KeysOf(es)
    ensures forall k :: Lookup(r, k) == if LastValue(es, k).Some? then LastValue(es, k) else Lookup(m, k)
    decreases |es|
  {
    if es == [] then m
    else
      var init := es[..|es| - 1];
      var last := es[|es| - 1];
      assert es == init + [last];
      KeysOfAppend(init, last);
      InsertAll(m, init)[last.0 := last.1]
  }

  /** The value of the last entry of `es` for `k`: the reference meaning of "last write wins". */
  function LastValue<K(==), V>(es: seq<(K, V)>, k: K): Option<V>
    decreases |es|
  {
    if es == [] then None
    else if es[|es| - 1].0 == k then Some(es[|es| - 1].1)
    else LastValue(es[..|es| - 1], k)
  }

  /** A key has a last entry in `es` exactly when `es` mentions it. */
  lemma {:induction false} LastValueMentioned<K, V>(es: seq<(K, V)>, k: K)
    ensures LastValue(es, k).Some? <==> k in KeysOf(es)
    decreases |es|
  {
    if es != [] {
      var init := es[..|es| - 1];
      LastValueMentioned(init, k);
      assert es == init + [es[|es| - 1]];
      KeysOfAppend(init, es[|es| - 1]);
    }
  }

  /** When every entry of `es` agrees with `m`, the last entry for a mentioned key carries
      `m`'s value for it. */
  lemma {:induction false} LastValueAgrees<K, V>(es: seq<(K, V)>, m: map<K, V>, k: K)
    requires forall i :: 0 <= i < |es| ==> es[i].0 in m && m[es[i].0] == es[i].1
    ensures LastValue(es, k).Some? ==> k in m && LastValue(es, k).value == m[k]
    decreases |es|
  {
    if es != [] && es[|es| - 1].0 != k {
      LastValueAgrees(es[..|es| - 1], m, k);
    }
  }

  /** Inserting an export of `m` into an empty map rebuilds `m` exactly. */
  lemma ExportRebuilds<K(!new), V>(es: seq<(K, V)>, m: map<K, V>)
    requires IsExport(es, m)
    ensures InsertAll(map[], es) == m
  {
    var r := InsertAll(map[], es);
    forall k
      ensures Lookup(r, k) == Lookup(m, k)
    {
      LastValueMentioned(es, k);
      LastValueAgrees(es, m, k);
    }
    forall k | k in r
      ensures k in m && r[k] == m[k]
    {
      assert Lookup(r, k) == Lookup(m, k);
    }
    forall k | k in m
      ensures k in r
    {
      assert Lookup(r, k) == Lookup(m, k);
    }
    assert r.Keys == m.Keys;
  }
}
