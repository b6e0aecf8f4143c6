/** `@fields_by_index`: a Ruby Hash from header positions to fields. Ruby
    hashes remember insertion order, and `validate_row` depends on it (through
    `each_with_index` and `key`), so the hash is a map together with the list
    of its keys in the order they were first stored. */
module IndexMaps {
  import opened Diagnostics

  /** `order` lists every key of `m` exactly once, and nothing else. */
  ghost predicate Ordered<V>(m: map<nat, V>, order: seq<nat>) {
    && (forall k :: k in m <==> k in order)
    && (forall p, q :: 0 <= p < q < |order| ==> order[p] != order[q])
  }

  /** Keys were stored in increasing order, as one `validate_header` call on
      an empty hash stores them. */
  predicate Increasing(order: seq<nat>) {
    forall p, q :: 0 <= p < q < |order| ==> order[p] < order[q]
  }

  /** `h[k] = v`: a new key goes to the end of the order, an existing key
      keeps its place and gets the new value. */
  function Store<V>(m: map<nat, V>, order: seq<nat>, k: nat, v: V): (r: (map<nat, V>, seq<nat>))
    ensures Ordered(m, order) ==> Ordered(r.0, r.1)
    ensures k in m ==> r.1 == order
    ensures k !in m ==> r.1 == order + [k]
    ensures k in r.0 && r.0[k] == v
    ensures forall j :: j != k ==> (j in r.0 <==> j in m) && (j in m ==> r.0[j] == m[j])
  {
    if k in m then (m[k := v], order) else (m[k := v], order + [k])
  }

  /** The position in `order` of the first key whose value is `v`; `h.key(v)`
      is the key at that position. */
  function FirstKeyPos<V(==)>(m: map<nat, V>, order: seq<nat>, v: V): (p: Option<nat>)
    requires forall k :: k in order ==> k in m
    ensures p.Some? ==> p.value < |order| && m[order[p.value]] == v
    ensures p.Some? ==> forall q :: 0 <= q < p.value ==> m[order[q]] != v
    ensures p.None? <==> forall k :: k in order ==> m[k] != v
  {
    if order == [] then None
    else if m[order[0]] == v then Some(0)
    else
      match FirstKeyPos(m, order[1..], v)
      case None => None
      case Some(p) => Some(p + 1)
  }

  /** When keys were stored in increasing order, `h.key(v)` is the smallest
      key holding `v`. */
  lemma KeyIsSmallest<V>(m: map<nat, V>, order: seq<nat>, k: nat)
    requires Ordered(m, order) && Increasing(order)
    requires k in m
    ensures FirstKeyPos(m, order, m[k]).Some?
    ensures order[FirstKeyPos(m, order, m[k]).value] <= k
  {
    var p := FirstKeyPos(m, order, m[k]).value;
    var q :| 0 <= q < |order| && order[q] == k;
    assert !(q < p);
  }
}
