/**
  Python dictionaries as the sync pass uses them: a finite map from relative
  paths to values together with the insertion order of its keys. Iterating a
  Python dict visits its keys in that order; assigning to an existing key
  keeps its position, assigning to a new key appends it.

  The module also holds the small vocabulary the other modules share: `Path`
  (a relative path), Python's optional value `Option`, and the associativity
  of sequence concatenation.
 */
module PyDict {

  type Path = string

  datatype Option<+T> = None | Some(value: T)

  /** No element occurs twice. */
  predicate NoDup<T(==)>(s: seq<T>) {
    forall i, j :: 0 <= i < j < |s| ==> s[i] != s[j]
  }

  /** Concatenation is associative. */
  lemma Assoc<T>(a: seq<T>, b: seq<T>, c: seq<T>)
    ensures (a + b) + c == a + (b + c)
  {
  }

  /** The value stored under `k`, or None when `k` is absent (Python's `d.get(k)`). */
  function Get<K, V>(m: map<K, V>, k: K): Option<V> {
    if k in m then Some(m[k]) else None
  }

  datatype Dict<V> = Dict(order: seq<Path>, entries: map<Path, V>) {

    /** The order lists every key exactly once and nothing else. */
    predicate Valid() {
      && NoDup(order)
      && (forall k :: k in order ==> k in entries)
      && (forall k :: k in entries ==> k in order)
    }

    /** Python's `d[k] = v`. */
    function Put(k: Path, v: V): (d: Dict<V>)
      ensures Valid() ==> d.Valid()
      ensures d.entries.Keys == entries.Keys + {k}
      ensures d.entries[k] == v
      ensures forall p :: p != k ==> Get(d.entries, p) == Get(entries, p)
      ensures k in entries ==> d.order == order
      ensures k !in entries ==> d.order == order + [k]
    {
      if k in entries then Dict(order, entries[k := v])
      else Dict(order + [k], entries[k := v])
    }
  }

  function Empty<V>(): (d: Dict<V>)
    ensures d.Valid() && d.entries == map[]
  {
    Dict([], map[])
  }
}
