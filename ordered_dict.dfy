/**
 * A JavaScript object used as a dictionary with string keys: assigning a
 * new key appends it to the enumeration order, assigning an existing key
 * replaces its value in place.
 */
module OrderedDict {
  import opened Seqs

  datatype Dict<V> = Dict(keys: seq<string>, entries: map<string, V>) {

    /** The enumeration order lists every key exactly once. */
    ghost predicate Valid() {
      && Distinct(keys)
      && forall k :: k in entries <==> k in keys
    }

    /** `d[k] = v`. */
    function Put(k: string, v: V): (d: Dict<V>)
      requires Valid()
      ensures d.Valid()
      ensures d.entries == entries[k := v]
      ensures d.keys == if k in entries then keys else keys + [k]
    {
      if k in entries then Dict(keys, entries[k := v]) else Dict(keys + [k], entries[k := v])
    }
  }

  /** `{}`. */
  function Empty<V>(): (d: Dict<V>)
    ensures d.Valid() && d.keys == []
  {
    Dict([], map[])
  }
}
