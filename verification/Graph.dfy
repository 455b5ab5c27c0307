/** The memory graph: rows, edges and the store that owns them. Every background pass of the other
    modules reads and writes the graph through this store. */
module Graph {
  import opened Wrappers

  type Id = string

  datatype Layer = Working | Episodic | Semantic | Procedural | Associative | Mental | Predictive

  datatype MemoryType =
    | Note | Event | Fact | CodeFile | CodeSymbol | Playbook | Snippet | MentalModel | ForwardIntent | Resource

  /** A metadata value that is read as a number. */
  datatype MetaNumber = Missing | NotANumber | Number(value: real)

  /** A memory row with the metadata keys the passes read or write. */
  datatype Memory = Memory(
    id: Id,
    layer: Layer,
    typ: MemoryType,
    workspace: string,
    content: string,
    summary: string,
    tags: seq<string>,
    source: string,
    contentHash: string,
    createdAt: real,
    sourceEpisode: Id,
    updatedFrom: Id,
    supersededBy: Id,
    superseded: bool,
    aliases: seq<string>,
    filePath: string,
    consolidatedAt: Option<real>,
    validTo: MetaNumber)

  /** Machine-projected edges have an id determined by their ends and relation; the others a random one. */
  datatype EdgeId = Random(key: string) | Projected(src: Id, relation: string, dst: Id)

  datatype Edge = Edge(id: EdgeId, src: Id, relation: string, dst: Id, validFrom: real, validTo: Option<real>)

  datatype State = State(memories: map<Id, Memory>, edges: map<EdgeId, Edge>)

  const SUPERSEDES := "supersedes"
  const ABSTRACTS := "abstracts"
  const OPERATES_ON := "operates_on"
  const PRODUCED_FROM := "produced_from"

  /** The first n characters. */
  function Truncate(s: string, n: nat): string {
    if |s| <= n then s else s[..n]
  }

  function Contents(ms: seq<Memory>): (r: seq<string>)
    ensures |r| == |ms| && forall i :: 0 <= i < |ms| ==> r[i] == ms[i].content
  {
    seq(|ms|, i requires 0 <= i < |ms| => ms[i].content)
  }

  predicate IsRetired(m: Memory) {
    m.supersededBy != "" || m.superseded
  }

  /** Rows and edges sit under their own ids, a projected id names its edge, and the foreign keys hold. */
  ghost predicate WellFormed(s: State) {
    && (forall id :: id in s.memories ==> s.memories[id].id == id && id != "")
    && (forall e :: e in s.edges ==> WellFormedEdge(s, e, s.edges[e]))
  }

  predicate WellFormedEdge(s: State, key: EdgeId, e: Edge) {
    && e.id == key
    && e.src in s.memories && e.dst in s.memories
    && (key.Projected? ==> key == Projected(e.src, e.relation, e.dst))
  }

  predicate Touches(e: Edge, id: Id) {
    e.src == id || e.dst == id
  }

  /** A valid edge at id, of the given relation, or of any when that is empty. */
  predicate LeadsOn(e: Edge, id: Id, relation: string) {
    e.validTo.None? && Touches(e, id) && (relation == "" || e.relation == relation)
  }

  /** A valid edge between the given ends. */
  predicate IsLive(s: State, e: EdgeId, src: Id, relation: string, dst: Id) {
    e in s.edges && s.edges[e].validTo.None? && s.edges[e].src == src && s.edges[e].relation == relation
    && s.edges[e].dst == dst
  }

  ghost predicate HasLive(s: State, src: Id, relation: string, dst: Id) {
    exists e :: IsLive(s, e, src, relation, dst)
  }

  // ---- What each write does to the state ----

  /** The row upsert: an existing row keeps its creation time. */
  function PutRow(s: State, m: Memory): (s': State) {
    var row := if m.id in s.memories then m.(createdAt := s.memories[m.id].createdAt) else m;
    s.(memories := s.memories[m.id := row])
  }

  function PutEdgeIn(s: State, e: Edge): State {
    s.(edges := s.edges[e.id := e])
  }

  /** Deleting a row takes its edges with it. */
  function DeleteRow(s: State, id: Id): State {
    State(s.memories - {id}, map e | e in s.edges && !Touches(s.edges[e], id) :: s.edges[e])
  }

  /** The valid edges at id, in either direction. */
  function Closing(s: State, id: Id): set<EdgeId> {
    set e | e in s.edges && Touches(s.edges[e], id) && s.edges[e].validTo.None?
  }

  function EndListed(s: State, ending: set<EdgeId>, now: real): (s': State)
    ensures s'.edges.Keys == s.edges.Keys
  {
    s.(edges := map e | e in s.edges :: if e in ending then s.edges[e].(validTo := Some(now)) else s.edges[e])
  }

  lemma EndOneMore(s: State, ending: set<EdgeId>, now: real, e: Edge)
    requires WellFormed(s) && e.id in s.edges && s.edges[e.id] == e && e.id !in ending
    ensures EndListed(s, ending + {e.id}, now) == PutEdgeIn(EndListed(s, ending, now), e.(validTo := Some(now)))
    ensures WellFormedEdge(EndListed(s, ending, now), e.id, e.(validTo := Some(now)))
  {
  }

  /** Every valid edge at id ends now. */
  function CloseEdges(s: State, id: Id, now: real): (s': State) {
    EndListed(s, Closing(s, id), now)
  }

  function MarkRetired(m: Memory, newId: Id): Memory {
    if newId != "" then m.(supersededBy := newId) else m.(superseded := true)
  }

  /** Retiring m in favour of newId, or of nothing when newId is empty. */
  function RetireIn(s: State, m: Memory, newId: Id, now: real, edge: EdgeId): State {
    var closed := CloseEdges(s, m.id, now);
    var linked := if newId == "" then closed
                  else PutEdgeIn(closed, Edge(edge, m.id, SUPERSEDES, newId, now, None));
    PutRow(linked, MarkRetired(m, newId))
  }

  /** What retiring demands: both ends are rows, and the new edge's id is unused. */
  ghost predicate CanRetire(s: State, m: Memory, newId: Id, edge: EdgeId) {
    m.id in s.memories && (newId != "" ==> newId in s.memories && edge.Random? && edge !in s.edges)
  }

  lemma RetireKeepsWellFormed(s: State, m: Memory, newId: Id, now: real, edge: EdgeId)
    requires WellFormed(s) && CanRetire(s, m, newId, edge)
    ensures WellFormed(RetireIn(s, m, newId, now, edge))
  {
  }

  /** after is before with the mark of a retired row: the name of its replacement, or the bare flag when there is
      none. */
  ghost predicate Marked(before: Memory, after: Memory, newId: Id) {
    && after.supersededBy == (if newId != "" then newId else before.supersededBy)
    && after.superseded == (before.superseded || newId == "")
    && after.(supersededBy := before.supersededBy, superseded := before.superseded) == before
  }

  /** Retiring a row changes its mark and no other field, and no other row. */
  lemma RowsAfterRetire(s: State, m: Memory, newId: Id, now: real, edge: EdgeId)
    requires m.id in s.memories && s.memories[m.id] == m
    ensures var t := RetireIn(s, m, newId, now, edge);
      && t.memories.Keys == s.memories.Keys && Marked(m, t.memories[m.id], newId)
      && (forall id :: id in s.memories && id != m.id ==> t.memories[id] == s.memories[id])
  {
  }

  /** It ends every valid edge at the row now, adds the one to the replacement, and changes no other edge. */
  lemma EdgesEndedByRetire(s: State, m: Memory, newId: Id, now: real, edge: EdgeId)
    requires CanRetire(s, m, newId, edge)
    ensures var t := RetireIn(s, m, newId, now, edge);
      && (newId == "" ==> t.edges.Keys == s.edges.Keys)
      && (newId != "" ==> t.edges.Keys == s.edges.Keys + {edge})
      && (newId != "" ==> t.edges[edge] == Edge(edge, m.id, "supersedes", newId, now, None))
      && (forall e :: e in s.edges ==>
            t.edges[e] == if s.edges[e].validTo.None? && (s.edges[e].src == m.id || s.edges[e].dst == m.id)
                          then s.edges[e].(validTo := Some(now)) else s.edges[e])
  {
  }

  lemma EdgesAfterRetire(s: State, m: Memory, newId: Id, now: real, edge: EdgeId, e: EdgeId, a: Id, relation: string, b: Id)
    requires CanRetire(s, m, newId, edge)
    ensures IsLive(RetireIn(s, m, newId, now, edge), e, a, relation, b) <==>
      (newId != "" && e == edge && a == m.id && relation == SUPERSEDES && b == newId)
      || (IsLive(s, e, a, relation, b) && a != m.id && b != m.id)
  {
  }

  /** Retiring takes every valid link at m and adds the one to its successor, if there is one. */
  lemma LinksAfterRetire(s: State, m: Memory, newId: Id, now: real, edge: EdgeId, a: Id, relation: string, b: Id)
    requires CanRetire(s, m, newId, edge)
    ensures HasLive(RetireIn(s, m, newId, now, edge), a, relation, b) <==>
      (newId != "" && a == m.id && relation == SUPERSEDES && b == newId)
      || (HasLive(s, a, relation, b) && a != m.id && b != m.id)
  {
    var t := RetireIn(s, m, newId, now, edge);
    EdgesAfterRetire(s, m, newId, now, edge, edge, a, relation, b);
    if e :| IsLive(s, e, a, relation, b) {
      EdgesAfterRetire(s, m, newId, now, edge, e, a, relation, b);
    }
    if e :| IsLive(t, e, a, relation, b) {
      EdgesAfterRetire(s, m, newId, now, edge, e, a, relation, b);
    }
  }

  // ---- Fresh ids ----

  /** No finite set of ids holds every id. */
  lemma {:induction false} FreshIdExists(used: set<Id>)
    ensures exists id :: id != "" && id !in used
  {
    var n := LongestIn(used);
    var id := seq(n + 1, _ => 'a');
    assert |id| > n;
    assert id != "" && id !in used;
  }

  lemma {:induction false} LongestIn(used: set<Id>) returns (n: nat)
    ensures forall id :: id in used ==> |id| <= n
  {
    if used == {} {
      n := 0;
    } else {
      var x :| x in used;
      n := LongestIn(used - {x});
      n := if |x| > n then |x| else n;
    }
  }

  // ---- The store ----

  class Store {
    var memories: map<Id, Memory>
    var edges: map<EdgeId, Edge>

    ghost function Now(): State
      reads this
    {
      State(memories, edges)
    }

    ghost predicate Valid()
      reads this
    {
      WellFormed(Now())
    }

    constructor ()
      ensures Now() == State(map[], map[]) && Valid()
    {
      memories, edges := map[], map[];
    }

    /** A random id: any that is not in use. */
    method NewId() returns (id: Id)
      ensures id != "" && id !in memories
    {
      FreshIdExists(memories.Keys);
      id :| id != "" && id !in memories;
    }

    method NewEdgeId() returns (e: EdgeId)
      ensures e.Random? && e !in edges
    {
      ghost var used := set k | k in edges && k.Random? :: k.key;
      FreshIdExists(used);
      ghost var key :| key != "" && key !in used;
      assert Random(key) !in edges;
      e :| e.Random? && e !in edges;
    }

    method GetMemory(id: Id) returns (m: Option<Memory>)
      ensures m == if id in memories then Some(memories[id]) else None
    {
      m := if id in memories then Some(memories[id]) else None;
    }

    method PutMemory(m: Memory)
      requires Valid() && m.id != ""
      modifies this`memories
      ensures Valid() && Now() == PutRow(old(Now()), m)
      ensures memories == old(memories)[m.id := if m.id in old(memories)
                                                then m.(createdAt := old(memories[m.id].createdAt)) else m]
    {
      var row := if m.id in memories then m.(createdAt := memories[m.id].createdAt) else m;
      memories := memories[m.id := row];
    }

    method PutEdge(e: Edge)
      requires Valid() && WellFormedEdge(Now(), e.id, e)
      modifies this`edges
      ensures Valid() && Now() == PutEdgeIn(old(Now()), e) && edges == old(edges)[e.id := e]
    {
      edges := edges[e.id := e];
    }

    method DeleteMemory(id: Id)
      requires Valid()
      modifies this
      ensures Valid() && Now() == DeleteRow(old(Now()), id)
      ensures memories == old(memories) - {id}
      ensures forall e :: e in edges <==> e in old(edges) && old(edges[e]).src != id && old(edges[e]).dst != id
      ensures forall e :: e in edges ==> edges[e] == old(edges[e])
    {
      memories := memories - {id};
      edges := map e | e in edges && !Touches(edges[e], id) :: edges[e];
    }

    /** The valid edges at id, of one relation or of all, in no particular order. */
    method Neighbors(id: Id, relation: string) returns (found: seq<Edge>)
      requires Valid()
      ensures forall e {:trigger e in found} :: e in found <==>
        e.id in edges && edges[e.id] == e && LeadsOn(e, id, relation)
      ensures forall i, j :: 0 <= i < j < |found| ==> found[i].id != found[j].id
    {
      found := [];
      var todo := edges.Keys;
      while todo != {}
        invariant todo <= edges.Keys && EdgesListed(edges, todo, id, relation, found)
        decreases todo
      {
        var k :| k in todo;
        EdgesListedNext(edges, todo, id, relation, found, k);
        todo := todo - {k};
        if LeadsOn(edges[k], id, relation) {
          found := found + [edges[k]];
        }
      }
    }

    /** The rows that pass the optional filters, in no particular order. */
    method IterMemories(workspace: string, layer: Option<Layer>, typ: Option<MemoryType>)
      returns (found: seq<Memory>)
      requires Valid()
      ensures forall m {:trigger m in found} :: m in found <==>
        && m.id in memories && memories[m.id] == m
        && (workspace == "" || m.workspace == workspace)
        && (layer.None? || m.layer == layer.value)
        && (typ.None? || m.typ == typ.value)
      ensures forall i, j :: 0 <= i < j < |found| ==> found[i].id != found[j].id
    {
      found := [];
      var todo := memories.Keys;
      while todo != {}
        invariant todo <= memories.Keys
        invariant forall m {:trigger m in found} :: m in found <==>
          m.id in memories && m.id !in todo && memories[m.id] == m && Selected(m, workspace, layer, typ)
        invariant forall i, j :: 0 <= i < j < |found| ==> found[i].id != found[j].id
        decreases todo
      {
        var k :| k in todo;
        todo := todo - {k};
        var m := memories[k];
        if Selected(m, workspace, layer, typ) {
          assert forall f :: f in found ==> f.id != k;
          found := found + [m];
        }
      }
    }

    /** Ends every valid edge at id. */
    method CloseNeighbors(id: Id, now: real)
      requires Valid()
      modifies this`edges
      ensures Valid() && Now() == CloseEdges(old(Now()), id, now)
    {
      ghost var before := Now();
      var neighbors := Neighbors(id, "");
      EdgeIdsOfNone(before, now);
      for i := 0 to |neighbors|
        invariant Valid() && Now() == EndListed(before, EdgeIds(neighbors[..i]), now)
      {
        var e := neighbors[i];
        assert e in neighbors;
        EdgeIdsNext(neighbors, i);
        EndOneMore(before, EdgeIds(neighbors[..i]), now, e);
        PutEdge(e.(validTo := Some(now)));
      }
      assert neighbors[..|neighbors|] == neighbors;
      NeighborsAreClosing(before, id, neighbors);
    }

    /** Retires m: marks it, ends its valid edges, links it to its successor, and writes it back. The
        result is the caller's copy of m, marked. */
    method Retire(m: Memory, newId: Id, now: real) returns (retired: Memory, ghost edge: EdgeId)
      requires Valid() && m.id in memories && (newId != "" ==> newId in memories)
      modifies this
      ensures Valid()
      ensures CanRetire(old(Now()), m, newId, edge)
      ensures Now() == RetireIn(old(Now()), m, newId, now, edge)
      ensures retired == MarkRetired(m, newId)
      // the row names its replacement, or has the bare flag; nothing else of it changes, nor any other row
      ensures Marked(m, retired, newId)
      ensures memories == old(memories)[m.id := retired.(createdAt := old(memories[m.id].createdAt))]
    {
      var id := NewEdgeId();
      edge := id;
      retired := MarkRetired(m, newId);
      CloseNeighbors(m.id, now);
      if newId != "" {
        PutEdge(Edge(id, m.id, SUPERSEDES, newId, now, None));
      }
      PutMemory(retired);
    }
  }

  /** The edges that lead on from id, but for those still to do, each once. */
  ghost predicate EdgesListed(edges: map<EdgeId, Edge>, todo: set<EdgeId>, id: Id, relation: string, found: seq<Edge>) {
    && (forall e {:trigger e in found} :: e in found <==>
          e.id in edges && e.id !in todo && edges[e.id] == e && LeadsOn(e, id, relation))
    && (forall i, j :: 0 <= i < j < |found| ==> found[i].id != found[j].id)
  }

  lemma EdgesListedNext(edges: map<EdgeId, Edge>, todo: set<EdgeId>, id: Id, relation: string, found: seq<Edge>,
                        k: EdgeId)
    requires EdgesListed(edges, todo, id, relation, found) && k in todo && k in edges && edges[k].id == k
    ensures EdgesListed(edges, todo - {k}, id, relation,
                        if LeadsOn(edges[k], id, relation) then found + [edges[k]] else found)
  {
    forall i | 0 <= i < |found| ensures found[i].id != k {
      assert found[i] in found;
    }
  }

  function EdgeIds(es: seq<Edge>): set<EdgeId> {
    set e | e in es :: e.id
  }

  lemma EdgeIdsOfNone(s: State, now: real)
    ensures EndListed(s, EdgeIds([]), now) == s
  {
    assert EdgeIds([]) == {};
    assert EndListed(s, {}, now).edges == s.edges;
  }

  lemma EdgeIdsNext(es: seq<Edge>, i: nat)
    requires i < |es| && forall j, k :: 0 <= j < k < |es| ==> es[j].id != es[k].id
    ensures es[i].id !in EdgeIds(es[..i]) && EdgeIds(es[..i + 1]) == EdgeIds(es[..i]) + {es[i].id}
  {
    assert es[..i + 1] == es[..i] + [es[i]];
    forall e | e in es[..i] ensures e.id != es[i].id {
      var j :| 0 <= j < i && es[j] == e;
    }
    forall id ensures id in EdgeIds(es[..i + 1]) <==> id in EdgeIds(es[..i]) || id == es[i].id {
      if id in EdgeIds(es[..i]) {
        var e :| e in es[..i] && e.id == id;
        assert e in es[..i + 1];
      }
      assert es[i] in es[..i + 1];
    }
  }

  lemma NeighborsAreClosing(s: State, id: Id, neighbors: seq<Edge>)
    requires WellFormed(s)
    requires forall e {:trigger e in neighbors} :: e in neighbors <==>
      e.id in s.edges && s.edges[e.id] == e && LeadsOn(e, id, "")
    ensures EdgeIds(neighbors) == Closing(s, id)
  {
    forall e | e in Closing(s, id) ensures e in EdgeIds(neighbors) {
      assert s.edges[e] in neighbors;
    }
  }

  predicate Selected(m: Memory, workspace: string, layer: Option<Layer>, typ: Option<MemoryType>) {
    && (workspace == "" || m.workspace == workspace)
    && (layer.Some? ==> m.layer == layer.value)
    && (typ.Some? ==> m.typ == typ.value)
  }
}
