/** The page-identity index (BufHashTbl): a map from (file, page number) to
    frame number. Bucket chaining is not modelled; only the contract of
    lookup, insert and remove is. */
module BufHash {
  import opened BufTypes

  type Index = map<PageKey, int>

  /** lookup: the frame bound to `k`, or HASHNOTFOUND. */
  function Lookup(m: Index, k: PageKey): (r: Result<int>)
    ensures r.Ok? <==> k in m
    ensures r.Ok? ==> r.value == m[k]
    ensures r.Err? ==> r.status == HASHNOTFOUND
  {
    if k in m then Ok(m[k]) else Err(HASHNOTFOUND)
  }

  /** insert: bind `k` to `frame`; refuses to overwrite an existing entry. */
  function Insert(m: Index, k: PageKey, frame: int): (r: (Status, Index))
    ensures r.0 == OK <==> k !in m
    ensures r.0 == OK ==> r.1 == m[k := frame]
    ensures r.0 != OK ==> r.0 == HASHTBLERROR && r.1 == m
  {
    if k in m then (HASHTBLERROR, m) else (OK, m[k := frame])
  }

  /** remove: drop the entry for `k`; HASHNOTFOUND when there is none, in
      which case the index is left as it was. */
  function Remove(m: Index, k: PageKey): (r: (Status, Index))
    ensures r.0 == OK <==> k in m
    ensures r.0 != OK ==> r.0 == HASHNOTFOUND
    ensures r.1 == m - {k}
    ensures k !in m ==> r.1 == m
  {
    (if k in m then OK else HASHNOTFOUND, m - {k})
  }
}
