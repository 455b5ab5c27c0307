/** The in-memory vector index: three parallel containers with a swap-with-last delete, and a
    brute-force search. Vectors, their normalisation and their inner product are abstract. */
module VectorIndexes {
  import opened Sorting
  import opened Wrappers

  type Vec = seq<real>

  /** How vectors are normalised and compared. */
  datatype Geometry = Geometry(unit: Vec -> Vec, dot: (Vec, Vec) -> real)

  // ---- What a search over a plain map from id to vector must return ----

  /** Best similarity first; equal similarities in id order. */
  predicate HitLe(a: Hit, b: Hit) {
    a.similarity > b.similarity || (a.similarity == b.similarity && StringLe(a.id, b.id))
  }

  predicate HitLess(a: Hit, b: Hit) {
    a != b && HitLe(a, b)
  }

  lemma HitLeOrder()
    ensures TotalPreorder(HitLe)
  {
    forall a, b ensures HitLe(a, b) || HitLe(b, a) { StringLeTotal(a.id, b.id); }
    forall a, b, c | HitLe(a, b) && HitLe(b, c) ensures HitLe(a, c) {
      if StringLe(a.id, b.id) && StringLe(b.id, c.id) {
        StringLeTransitive(a.id, b.id, c.id);
      }
    }
  }

  lemma HitLeAntisymmetric(a: Hit, b: Hit)
    requires HitLe(a, b) && HitLe(b, a)
    ensures a == b
  {
    StringLeTotal(a.id, b.id);
  }

  function HitOf(g: Geometry, m: map<string, Vec>, q: Vec, id: string): (h: Hit)
    requires id in m
  {
    Hit(id, g.dot(m[id], q))
  }

  /** hits are the first min(k, |m|) entries of m in the order of HitLe for query q. */
  ghost predicate IsTopK(g: Geometry, m: map<string, Vec>, query: Vec, k: nat, hits: seq<Hit>) {
    var q := g.unit(query);
    && |hits| == (if k < |m| then k else |m|)
    && (forall i :: 0 <= i < |hits| ==> hits[i].id in m && hits[i] == HitOf(g, m, q, hits[i].id))
    && (forall i, j :: 0 <= i < j < |hits| ==> HitLess(hits[i], hits[j]))
    && (forall id {:trigger HitOf(g, m, q, id)} :: id in m && !Listed(hits, id) ==> AllBefore(hits, HitOf(g, m, q, id)))
  }

  predicate Listed(hits: seq<Hit>, id: string) {
    exists j :: 0 <= j < |hits| && hits[j].id == id
  }

  predicate AllBefore(hits: seq<Hit>, h: Hit) {
    forall i :: 0 <= i < |hits| ==> HitLess(hits[i], h)
  }

  /** Each entry comes with its inner product with the normalised query, the greatest first and equal ones by id, and
      none left out has a greater one than any listed. */
  ghost predicate BestFirst(g: Geometry, m: map<string, Vec>, query: Vec, hits: seq<Hit>) {
    && (forall i :: 0 <= i < |hits| ==>
          hits[i].id in m && hits[i].similarity == g.dot(m[hits[i].id], g.unit(query)))
    && (forall i, j :: 0 <= i < j < |hits| ==>
          hits[i].similarity > hits[j].similarity
          || (hits[i].similarity == hits[j].similarity && StringLess(hits[i].id, hits[j].id)))
    && (forall i, id :: 0 <= i < |hits| && id in m && (forall j :: 0 <= j < |hits| ==> hits[j].id != id) ==>
          g.dot(m[id], g.unit(query)) <= hits[i].similarity)
  }

  lemma TopKBestFirst(g: Geometry, m: map<string, Vec>, query: Vec, k: nat, hits: seq<Hit>)
    requires IsTopK(g, m, query, k, hits)
    ensures BestFirst(g, m, query, hits)
  {
    var q := g.unit(query);
    forall i, j | 0 <= i < j < |hits|
      ensures hits[i].similarity > hits[j].similarity
        || (hits[i].similarity == hits[j].similarity && StringLess(hits[i].id, hits[j].id))
    {
      assert HitLess(hits[i], hits[j]);
    }
    forall i, id | 0 <= i < |hits| && id in m && (forall j :: 0 <= j < |hits| ==> hits[j].id != id)
      ensures g.dot(m[id], q) <= hits[i].similarity
    {
      assert !Listed(hits, id) && AllBefore(hits, HitOf(g, m, q, id));
      assert HitLess(hits[i], HitOf(g, m, q, id));
    }
  }

  /** The answer depends on nothing but the map: not on how the index came to hold it. */
  lemma TopKUnique(g: Geometry, m: map<string, Vec>, query: Vec, k: nat, a: seq<Hit>, b: seq<Hit>)
    requires IsTopK(g, m, query, k, a) && IsTopK(g, m, query, k, b)
    ensures a == b
  {
    if a != b {
      var i := FirstDifference(a, b);
      NotBefore(g, m, query, k, a, b, i);
      NotBefore(g, m, query, k, b, a, i);
      HitLeAntisymmetric(a[i], b[i]);
    }
  }

  lemma {:induction false} FirstDifference<T>(a: seq<T>, b: seq<T>) returns (i: nat)
    requires |a| == |b| && a != b
    ensures i < |a| && a[i] != b[i] && forall j :: 0 <= j < i ==> a[j] == b[j]
  {
    if a[0] != b[0] {
      i := 0;
    } else {
      assert a == [a[0]] + a[1..] && b == [b[0]] + b[1..];
      var n := FirstDifference(a[1..], b[1..]);
      i := n + 1;
      forall j | 0 <= j < i ensures a[j] == b[j] {
        assert j > 0 ==> a[j] == a[1..][j - 1] && b[j] == b[1..][j - 1];
      }
    }
  }

  lemma NotBefore(g: Geometry, m: map<string, Vec>, query: Vec, k: nat, a: seq<Hit>, b: seq<Hit>, i: nat)
    requires IsTopK(g, m, query, k, a) && IsTopK(g, m, query, k, b)
    requires i < |a| && (forall j :: 0 <= j < i ==> a[j] == b[j])
    ensures HitLe(b[i], a[i])
  {
    HitLeOrder();
    if Listed(b, a[i].id) {
      var j :| 0 <= j < |b| && b[j].id == a[i].id;
      assert b[j] == a[i];
    } else {
      assert HitLess(b[i], HitOf(g, m, g.unit(query), a[i].id));
    }
  }

  // ---- The index ----

  /** The rows and the id list run in parallel, and idToIdx is the inverse of the id list. */
  ghost predicate Parallel(ids: seq<string>, idToIdx: map<string, nat>, mat: seq<Vec>) {
    && |ids| == |mat|
    && (forall i :: 0 <= i < |ids| ==> ids[i] in idToIdx && idToIdx[ids[i]] == i)
    && (forall id :: id in idToIdx ==> idToIdx[id] < |ids| && ids[idToIdx[id]] == id)
  }

  ghost function RowsById(ids: seq<string>, idToIdx: map<string, nat>, mat: seq<Vec>): map<string, Vec>
    requires Parallel(ids, idToIdx, mat)
  {
    map id | id in idToIdx :: mat[idToIdx[id]]
  }

  /** Dropping the last row. */
  lemma LastDropped(ids: seq<string>, idToIdx: map<string, nat>, mat: seq<Vec>)
    requires Parallel(ids, idToIdx, mat) && ids != []
    ensures var last := |ids| - 1;
      && Parallel(ids[..last], idToIdx - {ids[last]}, mat[..last])
      && RowsById(ids[..last], idToIdx - {ids[last]}, mat[..last]) == RowsById(ids, idToIdx, mat) - {ids[last]}
  {
  }

  /** Exchanging the row at idx with the last row changes no entry. */
  lemma RowsSwapped(ids: seq<string>, idToIdx: map<string, nat>, mat: seq<Vec>, idx: nat)
    requires Parallel(ids, idToIdx, mat) && idx < |ids| - 1
    ensures var last := |ids| - 1;
      var ids', mat' := ids[idx := ids[last]][last := ids[idx]], mat[idx := mat[last]][last := mat[idx]];
      var idToIdx' := idToIdx[ids[last] := idx][ids[idx] := last];
      Parallel(ids', idToIdx', mat') && RowsById(ids', idToIdx', mat') == RowsById(ids, idToIdx, mat)
  {
  }

  /** Moving the last row into the gap at idx and cutting off the end removes exactly the entry at idx. */
  lemma SwappedAndDropped(ids: seq<string>, idToIdx: map<string, nat>, mat: seq<Vec>, idx: nat)
    requires Parallel(ids, idToIdx, mat) && idx < |ids| - 1
    ensures var last := |ids| - 1;
      var ids', mat' := ids[idx := ids[last]][..last], mat[idx := mat[last]][..last];
      var idToIdx' := (idToIdx - {ids[idx]})[ids[last] := idx];
      Parallel(ids', idToIdx', mat') && RowsById(ids', idToIdx', mat') == RowsById(ids, idToIdx, mat) - {ids[idx]}
  {
    var last := |ids| - 1;
    RowsSwapped(ids, idToIdx, mat, idx);
    var ids', mat' := ids[idx := ids[last]][last := ids[idx]], mat[idx := mat[last]][last := mat[idx]];
    var idToIdx' := idToIdx[ids[last] := idx][ids[idx] := last];
    LastDropped(ids', idToIdx', mat');
    assert ids'[..last] == ids[idx := ids[last]][..last] && mat'[..last] == mat[idx := mat[last]][..last];
    assert idToIdx' - {ids[idx]} == (idToIdx - {ids[idx]})[ids[last] := idx];
  }

  class VectorIndex {
    const dim: nat
    const geometry: Geometry
    var ids: seq<string>
    var idToIdx: map<string, nat>
    var mat: seq<Vec>

    constructor (dim: nat, geometry: Geometry)
      ensures this.dim == dim && this.geometry == geometry
      ensures Valid() && Contents() == map[]
    {
      this.dim, this.geometry := dim, geometry;
      ids, idToIdx, mat := [], map[], [];
    }

    ghost predicate Valid()
      reads this
    {
      Parallel(ids, idToIdx, mat)
    }

    /** The map from id to normalised vector that the containers stand for. */
    ghost function Contents(): (m: map<string, Vec>)
      requires Valid()
      reads this
    {
      RowsById(ids, idToIdx, mat)
    }

    /** Inserts or replaces; a vector of another dimension is refused and changes nothing. */
    method Upsert(id: string, vector: Vec) returns (ok: bool)
      requires Valid()
      modifies this
      ensures Valid()
      ensures ok <==> |vector| == dim
      ensures Contents() == if ok then old(Contents())[id := geometry.unit(vector)] else old(Contents())
    {
      if |vector| != dim {
        return false;
      }
      var vec := geometry.unit(vector);
      if id in idToIdx {
        mat := mat[idToIdx[id] := vec];
      } else {
        mat := mat + [vec];
        idToIdx := idToIdx[id := |ids|];
        ids := ids + [id];
      }
      return true;
    }

    /** Removes id by moving the last row into its place; an absent id is a no-op. */
    method Delete(id: string)
      requires Valid()
      modifies this
      ensures Valid()
      ensures Contents() == old(Contents()) - {id}
    {
      if id !in idToIdx {
        return;
      }
      var idx := idToIdx[id];
      var last := |ids| - 1;
      ghost var ids0, idToIdx0, mat0 := ids, idToIdx, mat;
      assert idx < |ids0| && ids0[idx] == id;
      idToIdx := idToIdx - {id};
      if idx != last {
        mat := mat[idx := mat[last]];
        var swapped := ids[last];
        ids := ids[idx := swapped];
        idToIdx := idToIdx[swapped := idx];
      }
      ids := ids[..last];
      mat := mat[..last];
      if idx == last {
        LastDropped(ids0, idToIdx0, mat0);
      } else {
        SwappedAndDropped(ids0, idToIdx0, mat0, idx);
      }
    }

    /** The best topK entries for query. */
    method Search(query: Vec, topK: nat) returns (hits: seq<Hit>)
      requires Valid()
      ensures IsTopK(geometry, Contents(), query, topK, hits)
      ensures BestFirst(geometry, Contents(), query, hits) && |hits| == if topK < |Contents()| then topK else |Contents()|
    {
      ContentsSize();
      if |ids| == 0 {
        TopKBestFirst(geometry, Contents(), query, topK, []);
        return [];
      }
      var q := geometry.unit(query);
      var all: seq<Hit> := [];
      for i := 0 to |ids|
        invariant |all| == i
        invariant forall j :: 0 <= j < i ==> all[j] == Hit(ids[j], geometry.dot(mat[j], q))
      {
        all := all + [Hit(ids[i], geometry.dot(mat[i], q))];
      }
      var sorted := Sort(HitLe, all);
      SortedIsTopK(all, sorted, q);
      var k := if topK < |sorted| then topK else |sorted|;
      hits := sorted[..k];
      TopKOfSorted(geometry, Contents(), query, topK, sorted);
      TopKBestFirst(geometry, Contents(), query, topK, hits);
    }

    lemma ContentsSize()
      requires Valid()
      ensures |Contents()| == |ids|
    {
      DistinctSize(ids, idToIdx.Keys);
      assert Contents().Keys == idToIdx.Keys;
    }

    lemma SortedIsTopK(all: seq<Hit>, sorted: seq<Hit>, q: Vec)
      requires Valid() && |all| == |ids|
      requires forall j :: 0 <= j < |ids| ==> all[j] == Hit(ids[j], geometry.dot(mat[j], q))
      requires sorted == Sort(HitLe, all)
      ensures Sorted(HitLe, sorted) && Distinct(sorted)
      ensures forall h :: h in sorted <==> h.id in Contents() && h == HitOf(geometry, Contents(), q, h.id)
    {
      HitLeOrder();
      SortCorrect(HitLe, all);
      DistinctPermutation(all, sorted);
      forall h ensures h in sorted <==> h in all {
        assert h in multiset(sorted) <==> h in multiset(all);
      }
      forall h: Hit | h.id in Contents() && h == HitOf(geometry, Contents(), q, h.id) ensures h in all {
        assert all[idToIdx[h.id]] == h;
      }
    }
  }

  /** Cutting the full sorted listing at k gives the top k. */
  lemma TopKOfSorted(g: Geometry, m: map<string, Vec>, query: Vec, k: nat, sorted: seq<Hit>)
    requires |sorted| == |m| && Sorted(HitLe, sorted) && Distinct(sorted)
    requires forall h :: h in sorted <==> h.id in m && h == HitOf(g, m, g.unit(query), h.id)
    ensures IsTopK(g, m, query, k, sorted[..if k < |sorted| then k else |sorted|])
  {
    var n := if k < |sorted| then k else |sorted|;
    var hits := sorted[..n];
    var q := g.unit(query);
    forall i | 0 <= i < |hits| ensures hits[i].id in m && hits[i] == HitOf(g, m, q, hits[i].id) {
      assert sorted[i] in sorted;
    }
    forall id, i | 0 <= i < |hits| && id in m && !Listed(hits, id)
      ensures HitLess(hits[i], HitOf(g, m, q, id))
    {
      var h := HitOf(g, m, q, id);
      assert h in sorted;
      var j :| 0 <= j < |sorted| && sorted[j] == h;
      assert forall l :: 0 <= l < n ==> hits[l] == sorted[l];
      assert HitLe(sorted[i], sorted[j]) && sorted[i] != sorted[j];
    }
  }
}
