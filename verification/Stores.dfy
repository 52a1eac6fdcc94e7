/** The store interface and its reference implementation, the in-memory store. One vault of a
    store is a map from keys to envelopes. */
module Stores {
  import opened Wrappers

  /** A record's address within a vault. */
  datatype Key = Key(coll: string, id: string)

  /** Collections with a leading underscore are internal: `loadAll` leaves them out. */
  predicate Internal(coll: string) {
    coll != "" && coll[0] == '_'
  }

  /** `_v`, `_ts` and the payload; what is inside the payload is opaque here. */
  datatype Envelope = Envelope(v: int, ts: string, data: string)

  type Snapshot<K> = map<K, Envelope>

  function Lookup<K, V>(m: map<K, V>, k: K): Option<V> {
    if k in m then Some(m[k]) else None
  }

  /** Whether a conditional put goes through: only an existing record can conflict. */
  predicate CasAdmits<K>(m: Snapshot<K>, k: K, expected: Option<int>) {
    expected.None? || k !in m || m[k].v == expected.value
  }

  class MemoryStore<K(==)> {
    var data: Snapshot<K>

    constructor ()
      ensures data == map[]
    {
      data := map[];
    }

    method Get(k: K) returns (r: Option<Envelope>)
      ensures r == Lookup(data, k)
    {
      r := Lookup(data, k);
    }

    /** False stands for a thrown `ConflictError`. */
    method Put(k: K, env: Envelope, expected: Option<int>) returns (ok: bool)
      modifies this
      ensures ok == CasAdmits(old(data), k, expected)
      ensures !ok <==> expected.Some? && k in old(data) && old(data)[k].v != expected.value
      ensures data == if ok then old(data)[k := env] else old(data)
    {
      if expected.Some? && k in data {
        if data[k].v != expected.value {
          return false;
        }
      }
      data := data[k := env];
      return true;
    }

    method Delete(k: K)
      modifies this
      ensures data == old(data) - {k}
    {
      data := data - {k};
    }
  }
}
