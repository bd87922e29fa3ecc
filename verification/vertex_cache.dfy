/**
  The vertex welding cache (VertexCache): a dictionary from exact vertex
  position to the index of that vertex in the mesh, where the first index
  stored for a position is kept.
 */
module Cache {
  import opened Wrappers

  datatype VertexCache<K> = VertexCache(entries: map<K, int>)

  /** A new cache holds nothing. */
  function Empty<K>(): (c: VertexCache<K>)
    ensures c.entries == map[]
  {
    VertexCache(map[])
  }

  /** GetCachedIndex: the stored index, or null when the vertex was never stored. */
  function GetCachedIndex<K>(c: VertexCache<K>, vertex: K): (r: Option<int>)
    ensures r.Some? <==> vertex in c.entries
    ensures r.Some? ==> r.value == c.entries[vertex]
  {
    if vertex in c.entries then Some(c.entries[vertex]) else None
  }

  /** StoreVertex: adds the vertex only if it is not already present. */
  function StoreVertex<K>(c: VertexCache<K>, vertex: K, index: int): (r: VertexCache<K>)
    ensures r.entries.Keys == c.entries.Keys + {vertex}
    ensures GetCachedIndex(r, vertex) == GetCachedIndex(c, vertex).GetOrSome(index)
  {
    if vertex !in c.entries then VertexCache(c.entries[vertex := index]) else c
  }

  /** Storing an unseen vertex makes it retrievable under the given index. */
  lemma StoreThenGet<K>(c: VertexCache<K>, vertex: K, index: int)
    requires GetCachedIndex(c, vertex) == None
    ensures GetCachedIndex(StoreVertex(c, vertex, index), vertex) == Some(index)
  {
  }

  /** Storing an already stored vertex changes nothing: the first write wins. */
  lemma FirstWriteWins<K>(c: VertexCache<K>, vertex: K, index: int)
    requires GetCachedIndex(c, vertex).Some?
    ensures StoreVertex(c, vertex, index) == c
  {
  }

  /** Storing one vertex never changes the entry of another. */
  lemma StoreLeavesOtherKeys<K>(c: VertexCache<K>, vertex: K, index: int, other: K)
    requires other != vertex
    ensures GetCachedIndex(StoreVertex(c, vertex, index), other) == GetCachedIndex(c, other)
  {
  }

  /** A sequence of StoreVertex calls, applied in order. */
  function StoreAll<K>(c: VertexCache<K>, stores: seq<(K, int)>): VertexCache<K>
    decreases |stores|
  {
    if stores == [] then c else StoreAll(StoreVertex(c, stores[0].0, stores[0].1), stores[1..])
  }

  /** The index of the first store of `vertex` in a history, or None if it was never stored. */
  function FirstStored<K(==)>(stores: seq<(K, int)>, vertex: K): Option<int>
    decreases |stores|
  {
    if stores == [] then None
    else if stores[0].0 == vertex then Some(stores[0].1)
    else FirstStored(stores[1..], vertex)
  }

  /**
    Over a whole history of stores into a fresh cache, GetCachedIndex returns
    the index of the first store of that vertex, and null if it was never stored.
   */
  lemma {:induction false} HistoryKeepsFirstWrite<K>(c: VertexCache<K>, stores: seq<(K, int)>, vertex: K)
    ensures GetCachedIndex(StoreAll(c, stores), vertex) ==
      (if vertex in c.entries then Some(c.entries[vertex]) else FirstStored(stores, vertex))
    decreases |stores|
  {
    if stores != [] {
      var c' := StoreVertex(c, stores[0].0, stores[0].1);
      HistoryKeepsFirstWrite(c', stores[1..], vertex);
    }
  }
}
