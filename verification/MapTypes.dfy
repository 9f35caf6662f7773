/** What the map implementations share: keys, values and addresses. */
module MapTypes {
  import opened Common

  /** Keys are C strings: signed characters, NUL not among them. */
  type Ch = c: int | -128 <= c < 128
  type Key = seq<Ch>
  const NUL: Ch := 0

  /** A key as qb_map passes it: a non-empty C string. */
  predicate IsKey(k: Key) {
    k != [] && NUL !in k
  }

  type Value = int // an address the map never looks behind
  type Ptr = nat
  const NULL: Ptr := 0
  const HEADER: Ptr := 1

  function Find(m: map<Key, Value>, k: Key): (r: Option<Value>) {
    if k in m then Some(m[k]) else None
  }

  lemma RemoveSize(m: map<Key, Value>, k: Key)
    ensures |m - {k}| == |m| - if k in m then 1 else 0
  {
    assert (m - {k}).Keys == m.Keys - {k};
  }
}
