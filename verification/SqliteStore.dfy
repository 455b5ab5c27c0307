/** The store's own methods, each carried out from start to end: the database table and the index object
    move together as whole writes of the index protocol. */
module SqliteStores {
  import opened Wrappers
  import opened VectorIndexes
  import opened IndexProtocol

  class SqliteStore {
    const geometry: Geometry
    var dim: nat
    var rows: map<string, Option<Vec>>
    var vectorIndex: VectorIndex
    var indexWarm: bool

    /** Opens a database that may already hold rows; nothing is read yet. */
    constructor (dim: nat, geometry: Geometry, rows: map<string, Option<Vec>>)
      ensures Valid() && fresh(vectorIndex) && Initial(Now())
      ensures this.rows == rows && this.dim == dim && this.geometry == geometry
    {
      this.geometry, this.dim, this.rows, indexWarm := geometry, dim, rows, false;
      vectorIndex := new VectorIndex(dim, geometry);
    }

    ghost predicate Valid()
      reads this, vectorIndex
    {
      vectorIndex.Valid() && vectorIndex.dim == dim && vectorIndex.geometry == geometry
    }

    /** The store as a settled state of the protocol. */
    ghost function Now(): State
      requires Valid()
      reads this, vectorIndex
    {
      State(dim, rows, vectorIndex.Contents(), indexWarm, None, map[])
    }

    method PutMemory(id: string, vector: Option<Vec>) returns (ok: bool)
      requires Valid()
      modifies this`rows, vectorIndex
      ensures Valid()
      ensures Now() == WholeWrite(geometry, old(Now()), PutRow(id, vector), id)
      ensures ok <==> (vector.Some? ==> |vector.value| == dim)
      ensures rows == old(rows)[id := vector]
      ensures vectorIndex.Contents() == if vector.Some? && |vector.value| == dim
        then old(vectorIndex.Contents())[id := geometry.unit(vector.value)] else old(vectorIndex.Contents())
    {
      rows := rows[id := vector];
      ok := true;
      if vector.Some? {
        ok := vectorIndex.Upsert(id, vector.value);
      }
    }

    method UpdateMemoryContent(id: string, vector: Option<Vec>) returns (ok: bool)
      requires Valid()
      modifies this`rows, vectorIndex
      ensures Valid()
      ensures Now() == WholeWrite(geometry, old(Now()), UpdateRow(id, vector), id)
      ensures ok <==> (vector.Some? && id in old(rows) ==> |vector.value| == dim)
      ensures rows == if vector.Some? && id in old(rows) then old(rows)[id := vector] else old(rows)
      ensures vectorIndex.Contents() == if vector.Some? && id in old(rows) && |vector.value| == dim
        then old(vectorIndex.Contents())[id := geometry.unit(vector.value)] else old(vectorIndex.Contents())
    {
      ok := true;
      if vector.Some? && id in rows {
        rows := rows[id := vector];
        ok := vectorIndex.Upsert(id, vector.value);
      }
    }

    method DeleteMemory(id: string)
      requires Valid()
      modifies this`rows, vectorIndex
      ensures Valid()
      ensures Now() == WholeWrite(geometry, old(Now()), DeleteRow(id), id)
      ensures rows == old(rows) - {id} && vectorIndex.Contents() == old(vectorIndex.Contents()) - {id}
    {
      rows := rows - {id};
      vectorIndex.Delete(id);
    }

    /** The deletes by type and source, and by symbol: rows go, the index is not told. */
    method DeleteMany(ids: set<string>)
      requires Valid()
      modifies this`rows
      ensures Valid()
      ensures Now() == Next(geometry, old(Now()), BulkDelete(ids))
      ensures rows == old(rows) - ids && vectorIndex.Contents() == old(vectorIndex.Contents())
    {
      rows := rows - ids;
    }

    /** Copies every stored embedding of the right dimension into the index, in any order. fails is the number of
        rows after which the query breaks off, if it does; copied are the rows that went over. */
    method WarmIndexFromBlobs(fails: Option<nat>) returns (ok: bool, ghost copied: set<string>)
      requires Valid()
      modifies vectorIndex
      ensures Valid() && (ok <==> fails.None?)
      ensures Now() == Broken(geometry, old(Now()), copied) && copied <= Ideal(geometry, old(Now())).Keys
      ensures ok ==> copied == Ideal(geometry, old(Now())).Keys
    {
      ghost var before := Now();
      var todo := set id | id in rows && rows[id].Some?;
      var read := 0;
      copied := {};
      NothingCopied(geometry, before);
      while todo != {} && fails != Some(read)
        invariant Valid() && todo <= rows.Keys && forall id :: id in todo ==> rows[id].Some?
        invariant rows == before.rows && dim == before.dim && indexWarm == before.warm
        invariant copied <= Ideal(geometry, before).Keys && Ideal(geometry, before).Keys <= copied + todo
        invariant vectorIndex.Contents() == Broken(geometry, before, copied).index
        decreases todo
      {
        var id :| id in todo;
        todo, read := todo - {id}, read + 1;
        if |rows[id].value| == dim {
          CopiedOne(geometry, before, copied, id);
          var _ := vectorIndex.Upsert(id, rows[id].value);
          copied := copied + {id};
        }
      }
      ok := fails.None?;
    }

    /** Loads once; a load whose query fails leaves the index cold, so the next search tries again. */
    method EnsureIndex(fails: Option<nat>) returns (ghost copied: set<string>)
      requires Valid()
      modifies this`indexWarm, vectorIndex
      ensures Valid() && copied <= Ideal(geometry, old(Now())).Keys
      ensures Now() == if old(indexWarm) then old(Now()) else if fails.Some? then Broken(geometry, old(Now()), copied)
        else Loaded(geometry, old(Now()))
    {
      copied := {};
      if indexWarm {
        return;
      }
      ghost var before := Now();
      var ok;
      ok, copied := WarmIndexFromBlobs(fails);
      if ok {
        AllCopied(geometry, before);
        indexWarm := true;
      }
    }

    method RebuildVectorIndex(newDim: nat)
      requires Valid()
      modifies this
      ensures Valid() && fresh(vectorIndex)
      ensures Now() == Next(geometry, old(Now()), Rebuild(newDim))
      ensures dim == newDim && rows == old(rows) && vectorIndex.Contents() == map[] && !indexWarm
    {
      dim := newDim;
      vectorIndex := new VectorIndex(newDim, geometry);
      indexWarm := false;
    }

    /** Every settled, indexable row is weighed by a search, unless the load's query failed. */
    method VectorSearch(query: Vec, topK: nat, fails: Option<nat>) returns (hits: seq<Hit>)
      requires Valid() && Inv(geometry, Now())
      modifies this`indexWarm, vectorIndex
      ensures Valid() && Inv(geometry, Now()) && rows == old(rows) && dim == old(dim)
      ensures IsTopK(geometry, Now().index, query, topK, hits)
      ensures old(indexWarm) || fails.None? ==> indexWarm && Covers(geometry, Now())
    {
      ghost var _ := EnsureIndex(fails);
      hits := vectorIndex.Search(query, topK);
    }
  }

  lemma NothingCopied(g: Geometry, s: State)
    ensures Broken(g, s, {}).index == s.index
  {
  }

  lemma AllCopied(g: Geometry, s: State)
    ensures Broken(g, s, Ideal(g, s).Keys).index == Loaded(g, s).index
  {
    assert Restrict(Ideal(g, s), Ideal(g, s).Keys) == Ideal(g, s);
  }

  /** Copying one more row. */
  lemma CopiedOne(g: Geometry, s: State, copied: set<string>, id: string)
    requires id in Ideal(g, s)
    ensures Broken(g, s, copied + {id}).index == Broken(g, s, copied).index[id := Ideal(g, s)[id]]
  {
  }
}
