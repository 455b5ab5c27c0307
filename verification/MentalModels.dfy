/** Mental models: extraction abstracts clusters of uncovered memories into models, and merging replaces a
    cluster of models by one. Both keep every memory under at most one live model. */
module MentalModels {
  import opened Wrappers
  import opened Graph
  import C = Clustering

  // ---- Coverage ----

  predicate LiveModel(s: State, id: Id) {
    id in s.memories && s.memories[id].layer == Mental && !IsRetired(s.memories[id])
  }

  predicate Abstracting(s: State, e: EdgeId) {
    e in s.edges && s.edges[e].validTo.None? && s.edges[e].relation == ABSTRACTS
  }

  /** Some live model abstracts id. */
  ghost predicate Covered(s: State, id: Id) {
    exists e :: Abstracting(s, e) && s.edges[e].dst == id
  }

  /** Valid abstracts edges lead from live models to memories of other layers. */
  ghost predicate ModelsCover(s: State) {
    && WellFormed(s)
    && (forall e :: Abstracting(s, e) ==>
          LiveModel(s, s.edges[e].src) && s.memories[s.edges[e].dst].layer != Mental)
  }

  /** And at most one of them to each memory. */
  ghost predicate CoverInv(s: State) {
    && ModelsCover(s)
    && (forall e, f :: Abstracting(s, e) && Abstracting(s, f) && s.edges[e].dst == s.edges[f].dst ==> e == f)
  }

  /** A pass over a workspace sees its rows; one without a workspace sees all rows. */
  predicate InScope(m: Memory, ws: string) {
    Selected(m, ws, None, None)
  }

  /** Of every covered memory that a pass over ws may abstract, the pass sees the model. */
  ghost predicate Scoped(s: State, ws: string) {
    forall e :: Abstracting(s, e) && s.edges[e].src in s.memories && s.edges[e].dst in s.memories
      && Abstractable(s.memories[s.edges[e].dst]) && InScope(s.memories[s.edges[e].dst], ws)
      ==> InScope(s.memories[s.edges[e].src], ws)
  }

  /** A pass over ws leaves its own scope in order, and, unless ws is empty, every other. */
  ghost predicate ScopesKept(s: State, t: State, ws: string) {
    forall v :: (v == ws || ws != "") && Scoped(s, v) ==> Scoped(t, v)
  }

  /** Some memory has a model that a pass over ws sees and one that it does not. */
  ghost predicate Twice(s: State, ws: string) {
    exists e, f :: IsTwice(s, ws, e, f)
  }

  ghost predicate IsTwice(s: State, ws: string, e: EdgeId, f: EdgeId) {
    && Abstracting(s, e) && Abstracting(s, f) && s.edges[e].dst == s.edges[f].dst
    && s.edges[e].src in s.memories && s.edges[f].src in s.memories
    && !InScope(s.memories[s.edges[e].src], ws) && InScope(s.memories[s.edges[f].src], ws)
  }

  lemma TwiceIsTooOften(s: State, ws: string)
    requires Twice(s, ws)
    ensures !CoverInv(s)
  {
    var e, f :| IsTwice(s, ws, e, f);
    assert e != f;
  }

  /** t is s with one valid abstracts edge from model to each of the members, under new ids. */
  ghost predicate Linked(s: State, t: State, model: Id, members: set<Id>) {
    && t.memories == s.memories
    && (forall e :: e in s.edges ==> e in t.edges && t.edges[e] == s.edges[e])
    && (forall e :: e in t.edges && e !in s.edges ==>
          Abstracting(t, e) && t.edges[e].src == model && t.edges[e].dst in members)
    && (forall e, f :: e in t.edges && e !in s.edges && f in t.edges && f !in s.edges && t.edges[e].dst == t.edges[f].dst
          ==> e == f)
    && (forall x :: x in members ==> exists e :: e in t.edges && e !in s.edges && t.edges[e].dst == x)
  }

  /** Linking a live model to memories covers exactly those in addition. */
  lemma LinkedModelsCover(s: State, t: State, model: Id, members: set<Id>)
    requires ModelsCover(s) && WellFormed(t) && Linked(s, t, model, members) && LiveModel(s, model)
    requires forall x :: x in members ==> x in s.memories && s.memories[x].layer != Mental
    ensures ModelsCover(t)
    ensures forall x :: Covered(t, x) <==> Covered(s, x) || x in members
  {
    forall e | Abstracting(t, e) && e in s.edges ensures Abstracting(s, e) {}
    forall x ensures Covered(t, x) <==> Covered(s, x) || x in members {
      if x in members {
        var e :| e in t.edges && e !in s.edges && t.edges[e].dst == x;
        assert Abstracting(t, e);
      }
      if e :| Abstracting(s, e) && s.edges[e].dst == x {
        assert Abstracting(t, e) && t.edges[e].dst == x;
      }
      if e :| Abstracting(t, e) && t.edges[e].dst == x {
        assert e in s.edges ==> Abstracting(s, e);
      }
    }
  }

  /** And if nobody covered them, one model a memory at most remains. */
  lemma LinkedKeepsCover(s: State, t: State, model: Id, members: set<Id>)
    requires CoverInv(s) && WellFormed(t) && Linked(s, t, model, members) && LiveModel(s, model)
    requires forall x :: x in members ==>
      x in s.memories && s.memories[x].layer != Mental && !Covered(s, x)
    ensures CoverInv(t)
    ensures forall x :: Covered(t, x) <==> Covered(s, x) || x in members
  {
    LinkedModelsCover(s, t, model, members);
    forall e | Abstracting(s, e) ensures Abstracting(t, e) && Covered(s, s.edges[e].dst) {}
    forall e | Abstracting(t, e) && e in s.edges ensures Abstracting(s, e) {}
    forall e, f | Abstracting(t, e) && Abstracting(t, f) && t.edges[e].dst == t.edges[f].dst ensures e == f {
      assert e in s.edges ==> Covered(s, t.edges[e].dst);
      assert f in s.edges ==> Covered(s, t.edges[f].dst);
    }
  }

  /** Linking a covered memory gives it two live models. */
  lemma LinkedTwice(s: State, t: State, model: Id, members: set<Id>, x: Id)
    requires Linked(s, t, model, members) && x in members && Covered(s, x)
    ensures !CoverInv(t)
  {
    var e :| Abstracting(s, e) && s.edges[e].dst == x;
    var f :| f in t.edges && f !in s.edges && t.edges[f].dst == x;
    assert Abstracting(t, e) && Abstracting(t, f) && e != f;
  }

  /** The new edges respect a scope if the model is in it whenever a member is. */
  lemma LinkedKeepsScope(s: State, t: State, model: Id, members: set<Id>, v: string)
    requires Linked(s, t, model, members) && Scoped(s, v) && model in s.memories
    requires forall x :: x in members && x in s.memories && Abstractable(s.memories[x]) && InScope(s.memories[x], v) ==>
      InScope(s.memories[model], v)
    ensures Scoped(t, v)
  {
    forall e | Abstracting(t, e) && t.edges[e].src in t.memories && t.edges[e].dst in t.memories
      && Abstractable(t.memories[t.edges[e].dst]) && InScope(t.memories[t.edges[e].dst], v)
      ensures InScope(t.memories[t.edges[e].src], v)
    {
      if e in s.edges {
        assert Abstracting(s, e);
      }
    }
  }

  /** A model without a workspace is not seen by the passes over the workspaces of its members. */
  lemma MixedScopes(s: State, t: State, model: Id, members: set<Id>, x: Id)
    requires Linked(s, t, model, members) && x in members && model in s.memories && x in s.memories
    requires s.memories[model].workspace == "" && s.memories[x].workspace != "" && Abstractable(s.memories[x])
    ensures !Scoped(t, s.memories[x].workspace)
  {
    var e :| e in t.edges && e !in s.edges && t.edges[e].dst == x;
    assert Abstracting(t, e);
  }

  /** A new row changes nobody's coverage. */
  lemma NewRowKeepsCover(s: State, m: Memory)
    requires ModelsCover(s) && m.id !in s.memories && m.id != ""
    ensures ModelsCover(PutRow(s, m)) && (CoverInv(s) ==> CoverInv(PutRow(s, m)))
    ensures forall x :: Covered(PutRow(s, m), x) <==> Covered(s, x)
    ensures forall v :: Scoped(s, v) ==> Scoped(PutRow(s, m), v)
  {
    var t := PutRow(s, m);
    forall e ensures Abstracting(t, e) <==> Abstracting(s, e) {}
    forall v | Scoped(s, v) ensures Scoped(t, v) {
      forall e | Abstracting(t, e) ensures Abstracting(s, e) && s.edges[e].src in s.memories && s.edges[e].dst in s.memories {}
    }
    forall x ensures Covered(t, x) <==> Covered(s, x) {
      if e :| Abstracting(s, e) && s.edges[e].dst == x { assert Abstracting(t, e); }
      if e :| Abstracting(t, e) && t.edges[e].dst == x { assert Abstracting(s, e); }
    }
  }

  lemma AbstractingAfterRetire(s: State, m: Memory, newId: Id, now: real, edge: EdgeId, e: EdgeId)
    requires CanRetire(s, m, newId, edge)
    ensures Abstracting(RetireIn(s, m, newId, now, edge), e) <==> Abstracting(s, e) && !Touches(s.edges[e], m.id)
    ensures Abstracting(s, e) && !Touches(s.edges[e], m.id) ==> RetireIn(s, m, newId, now, edge).edges[e] == s.edges[e]
  {
  }

  /** t is s after retiring m: m marked, its abstracts edges gone, the others as they were. */
  ghost predicate RetiredOne(s: State, t: State, m: Memory, newId: Id) {
    && t.memories == s.memories[m.id := MarkRetired(m, newId)]
    && (forall e :: Abstracting(t, e) <==> Abstracting(s, e) && !Touches(s.edges[e], m.id))
    && (forall e :: Abstracting(t, e) ==> t.edges[e] == s.edges[e])
  }

  lemma RetireIsRetiredOne(s: State, m: Memory, newId: Id, now: real, edge: EdgeId, t: State)
    requires CanRetire(s, m, newId, edge) && s.memories[m.id] == m && t == RetireIn(s, m, newId, now, edge)
    ensures RetiredOne(s, t, m, newId)
  {
    forall e { AbstractingAfterRetire(s, m, newId, now, edge, e); }
  }

  /** Retiring any memory, model or not, never leaves an edge from a retired model, nor doubles one. */
  lemma RetireKeepsCover(s: State, m: Memory, newId: Id, now: real, edge: EdgeId, t: State)
    requires CoverInv(s) && CanRetire(s, m, newId, edge) && s.memories[m.id] == m
    requires t == RetireIn(s, m, newId, now, edge)
    ensures CoverInv(t) && RetiredOne(s, t, m, newId)
  {
    RetireKeepsWellFormed(s, m, newId, now, edge);
    RetireIsRetiredOne(s, m, newId, now, edge, t);
  }

  lemma RetireKeepsModels(s: State, m: Memory, newId: Id, now: real, edge: EdgeId, t: State)
    requires ModelsCover(s) && CanRetire(s, m, newId, edge) && s.memories[m.id] == m
    requires t == RetireIn(s, m, newId, now, edge)
    ensures ModelsCover(t) && RetiredOne(s, t, m, newId)
  {
    RetireKeepsWellFormed(s, m, newId, now, edge);
    RetireIsRetiredOne(s, m, newId, now, edge, t);
  }

  /** And it keeps every scope. */
  lemma RetireKeepsScopes(s: State, t: State, m: Memory, newId: Id)
    requires WellFormed(s) && RetiredOne(s, t, m, newId) && m.id in s.memories && s.memories[m.id] == m
    ensures forall v :: Scoped(s, v) ==> Scoped(t, v)
  {
    forall v | Scoped(s, v) ensures Scoped(t, v) {
      forall e | Abstracting(t, e) ensures Abstracting(s, e) && t.edges[e] == s.edges[e] {}
    }
  }

  lemma DeleteKeepsCover(s: State, id: Id)
    requires CoverInv(s)
    ensures CoverInv(DeleteRow(s, id))
    ensures forall v :: Scoped(s, v) ==> Scoped(DeleteRow(s, id), v)
  {
    var t := DeleteRow(s, id);
    forall e ensures Abstracting(t, e) <==> Abstracting(s, e) && !Touches(s.edges[e], id) {}
    forall v | Scoped(s, v) ensures Scoped(t, v) {
      forall e | Abstracting(t, e) ensures Abstracting(s, e) && t.edges[e] == s.edges[e] {}
    }
  }

  /** An edge of any other relation, even one put over an abstracts edge, harms nothing. */
  lemma OtherEdgeKeepsCover(s: State, e: Edge)
    requires CoverInv(s) && WellFormedEdge(s, e.id, e) && e.relation != ABSTRACTS
    ensures CoverInv(PutEdgeIn(s, e))
  {
    var t := PutEdgeIn(s, e);
    PutEdgeKeepsWellFormed(s, e);
    forall k ensures Abstracting(t, k) <==> Abstracting(s, k) && k != e.id {}
    assert forall k :: Abstracting(t, k) ==> t.edges[k] == s.edges[k];
  }

  lemma PutEdgeKeepsWellFormed(s: State, e: Edge)
    requires WellFormed(s) && WellFormedEdge(s, e.id, e)
    ensures WellFormed(PutEdgeIn(s, e))
  {
  }

  // ---- Extraction ----

  predicate Abstractable(m: Memory) {
    (m.layer == Semantic && (m.typ == Fact || m.typ == Note))
    || (m.layer == Procedural && (m.typ == Playbook || m.typ == Snippet))
  }

  datatype Summary = Summary(title: string, model: string)

  /** What the model answers when asked for the i-th time, about some memories; None is an error or an empty
      answer. */
  type Provider = (nat, seq<Memory>) -> Option<Summary>

  function ModelContent(sum: Summary): string {
    if sum.model == "" then ModelTitle(sum) else ModelTitle(sum) + ": " + sum.model
  }

  function ModelTitle(sum: Summary): string {
    if sum.title == "" then "mental model" else sum.title
  }

  /** A row that holds a title, or "mental model" for none, and behind it the text of the model, if there is one. */
  ghost predicate ModelRow(m: Memory, sum: Summary, source: string, now: real) {
    && (sum.title != "" ==> m.summary == sum.title) && (sum.title == "" ==> m.summary == "mental model")
    && (sum.model == "" ==> m.content == m.summary)
    && (sum.model != "" ==> m.content == m.summary + ": " + sum.model)
    && m.layer == Mental && m.typ == MentalModel && m.tags == ["mental_model"] && m.source == source
    && m.createdAt == now && m.supersededBy == "" && !m.superseded
  }

  function NewModel(ws: string, id: Id, sum: Summary, source: string, now: real): Memory {
    Memory(id, Mental, MentalModel, ws, ModelContent(sum), ModelTitle(sum), ["mental_model"], source, "", now, "", "",
           "", false, [], "", None, Missing)
  }

  /** A live model that a pass over ws sees abstracts x. */
  ghost predicate CoveredIn(s: State, ws: string, x: Id) {
    exists e :: Abstracting(s, e) && s.edges[e].dst == x
      && s.edges[e].src in s.memories && InScope(s.memories[s.edges[e].src], ws)
  }

  /** The ids that a live model of the workspace abstracts. */
  method CoveredMemberIds(store: Store, ws: string) returns (covered: set<Id>)
    requires store.Valid() && CoverInv(store.Now())
    ensures forall x :: x in covered <==> CoveredIn(store.Now(), ws, x)
  {
    ghost var s := store.Now();
    covered := {};
    var l5s := store.IterMemories(ws, Some(Mental), None);
    for i := 0 to |l5s|
      invariant forall x :: x in covered ==> CoveredIn(s, ws, x)
      invariant forall e, j :: 0 <= j < i && Abstracting(s, e) && s.edges[e].src == l5s[j].id ==> s.edges[e].dst in covered
    {
      var l5 := l5s[i];
      assert l5 in l5s;
      if !IsRetired(l5) {
        var dsts := AbstractedBy(store, l5.id);
        forall x | x in dsts ensures CoveredIn(s, ws, x) {
          var e :| Abstracting(s, e) && s.edges[e].src == l5.id && s.edges[e].dst == x;
        }
        covered := covered + dsts;
      }
    }
    forall x | CoveredIn(s, ws, x) ensures x in covered {
      var e :| Abstracting(s, e) && s.edges[e].dst == x
        && s.edges[e].src in s.memories && InScope(s.memories[s.edges[e].src], ws);
      assert s.memories[s.edges[e].src] in l5s;
    }
  }

  /** The targets of the model's own valid abstracts edges. */
  method AbstractedBy(store: Store, model: Id) returns (dsts: set<Id>)
    requires store.Valid()
    ensures forall x :: x in dsts <==> AbstractedByOne(store.Now(), model, x)
  {
    ghost var s := store.Now();
    dsts := {};
    var edges := store.Neighbors(model, ABSTRACTS);
    for k := 0 to |edges|
      invariant forall x :: x in dsts ==> AbstractedByOne(s, model, x)
      invariant forall j :: 0 <= j < k && edges[j].src == model ==> edges[j].dst in dsts
    {
      assert edges[k] in edges;
      if edges[k].src == model {
        assert Abstracting(s, edges[k].id) && s.edges[edges[k].id] == edges[k];
        dsts := dsts + {edges[k].dst};
      }
    }
    forall e | Abstracting(s, e) && s.edges[e].src == model ensures s.edges[e].dst in dsts {
      assert s.edges[e] in edges;
    }
  }

  /** Writes one abstracts edge from model to each of the members. */
  method LinkMembers(store: Store, model: Id, members: seq<Memory>, now: real)
    requires store.Valid() && model in store.memories
    requires forall i :: 0 <= i < |members| ==> members[i].id in store.memories
    requires forall i, j :: 0 <= i < j < |members| ==> members[i].id != members[j].id
    modifies store`edges
    ensures store.Valid()
    ensures Linked(old(store.Now()), store.Now(), model, IdsOf(members))
  {
    ghost var s := store.Now();
    assert members[..0] == [] && IdsOf([]) == {};
    for i := 0 to |members|
      invariant store.Valid() && Linked(s, store.Now(), model, IdsOf(members[..i]))
    {
      LinkMember(store, s, model, members, i, now);
    }
    assert members[..|members|] == members;
  }

  /** Writes the next edge. */
  method LinkMember(store: Store, ghost s: State, model: Id, members: seq<Memory>, i: nat, now: real)
    requires store.Valid() && i < |members| && Linked(s, store.Now(), model, IdsOf(members[..i]))
    requires model in store.memories && members[i].id in store.memories
    requires forall i, j :: 0 <= i < j < |members| ==> members[i].id != members[j].id
    modifies store`edges
    ensures store.Valid() && Linked(s, store.Now(), model, IdsOf(members[..i + 1]))
  {
    var id := store.NewEdgeId();
    ghost var t := store.Now();
    store.PutEdge(Edge(id, model, ABSTRACTS, members[i].id, now, None));
    NextMember(members, i);
    LinkedStep(s, t, store.Now(), model, IdsOf(members[..i]), id, members[i].id, now);
  }

  lemma NextMember(members: seq<Memory>, i: nat)
    requires i < |members| && forall i, j :: 0 <= i < j < |members| ==> members[i].id != members[j].id
    ensures members[i].id !in IdsOf(members[..i])
    ensures IdsOf(members[..i + 1]) == IdsOf(members[..i]) + {members[i].id}
  {
    assert members[..i + 1] == members[..i] + [members[i]];
    IdsOfSnoc(members[..i], members[i]);
    forall m | m in members[..i] ensures m.id != members[i].id {
      var j :| 0 <= j < i && members[j] == m;
    }
  }

  function IdsOf(ms: seq<Memory>): set<Id> {
    set m | m in ms :: m.id
  }

  lemma LinkedStep(s: State, t: State, u: State, model: Id, members: set<Id>, id: EdgeId, x: Id, now: real)
    requires Linked(s, t, model, members) && id !in t.edges && x !in members
    requires u == PutEdgeIn(t, Edge(id, model, ABSTRACTS, x, now, None))
    ensures Linked(s, u, model, members + {x})
  {
    LinkedReaches(s, t, u, model, members, id, x);
    LinkedOnce(s, t, u, model, members, id, x);
    forall e | e in u.edges && e !in s.edges
      ensures Abstracting(u, e) && u.edges[e].src == model && u.edges[e].dst in members + {x}
    {
      assert e != id ==> Abstracting(t, e);
    }
  }

  lemma LinkedOnce(s: State, t: State, u: State, model: Id, members: set<Id>, id: EdgeId, x: Id)
    requires Linked(s, t, model, members) && id !in t.edges && x !in members
    requires u.edges.Keys == t.edges.Keys + {id} && u.edges[id].dst == x
    requires forall e :: e in t.edges ==> u.edges[e] == t.edges[e]
    ensures forall e, f ::
      e in u.edges && e !in s.edges && f in u.edges && f !in s.edges && u.edges[e].dst == u.edges[f].dst ==> e == f
  {
  }

  lemma LinkedReaches(s: State, t: State, u: State, model: Id, members: set<Id>, id: EdgeId, x: Id)
    requires Linked(s, t, model, members) && id !in t.edges && id in u.edges && u.edges[id].dst == x
    requires forall e :: e in t.edges ==> e in u.edges && u.edges[e] == t.edges[e]
    ensures forall y :: y in members + {x} ==> exists e :: e in u.edges && e !in s.edges && u.edges[e].dst == y
  {
    forall y | y in members + {x} ensures exists e :: e in u.edges && e !in s.edges && u.edges[e].dst == y {
      if y == x {
        assert u.edges[id].dst == y;
      } else {
        var e :| e in t.edges && e !in s.edges && t.edges[e].dst == y;
        assert u.edges[e].dst == y;
      }
    }
  }

  /** t has everything s has, unchanged. */
  ghost predicate Extends(s: State, t: State) {
    && (forall id :: id in s.memories ==> id in t.memories && t.memories[id] == s.memories[id])
    && (forall e :: e in s.edges ==> e in t.edges && t.edges[e] == s.edges[e])
  }

  ghost predicate LinksAll(t: State, model: Id, members: set<Id>) {
    forall x :: x in members ==> HasLive(t, model, "abstracts", x)
  }

  lemma ExtendsKeepsLinks(s: State, t: State, model: Id, members: set<Id>)
    requires Extends(s, t) && LinksAll(s, model, members)
    ensures LinksAll(t, model, members)
  {
    forall x | x in members ensures HasLive(t, model, ABSTRACTS, x) {
      var e :| IsLive(s, e, model, ABSTRACTS, x);
      assert IsLive(t, e, model, ABSTRACTS, x);
    }
  }

  lemma LinkedLinksAll(s: State, t: State, model: Id, members: set<Id>)
    requires Linked(s, t, model, members)
    ensures LinksAll(t, model, members) && Extends(s, t)
  {
    forall x | x in members ensures HasLive(t, model, ABSTRACTS, x) {
      var e :| e in t.edges && e !in s.edges && t.edges[e].dst == x;
      assert IsLive(t, e, model, ABSTRACTS, x);
    }
  }

  /** A memory that a model of the workspace may abstract. */
  ghost predicate Ready(s: State, ws: string, x: Id) {
    x in s.memories && InScope(s.memories[x], ws) && s.memories[x].layer != Mental
  }

  ghost predicate NoneCovered(s: State, ids: set<Id>) {
    forall x :: x in ids ==> !Covered(s, x)
  }

  ghost predicate AllReady(s: State, ws: string, members: seq<Memory>) {
    && (forall i :: 0 <= i < |members| ==> Ready(s, ws, members[i].id))
    && (forall i, j :: 0 <= i < j < |members| ==> members[i].id != members[j].id)
  }

  /** Stores one model and links it to its members. */
  method AddModel(store: Store, ws: string, members: seq<Memory>, sum: Summary, now: real) returns (model: Id)
    requires store.Valid() && ModelsCover(store.Now())
    requires AllReady(store.Now(), ws, members)
    modifies store
    ensures store.Valid() && ModelsCover(store.Now()) && Extends(old(store.Now()), store.Now())
    ensures old(CoverInv(store.Now())) && NoneCovered(old(store.Now()), IdsOf(members)) ==> CoverInv(store.Now())
    ensures model !in old(store.memories) && store.memories.Keys == old(store.memories.Keys) + {model}
    ensures LiveModel(store.Now(), model) && store.memories[model].content == ModelContent(sum)
    ensures store.memories[model].workspace == ws && ModelRow(store.memories[model], sum, "l5_extract", now)
    ensures LinksAll(store.Now(), model, IdsOf(members))
    ensures forall x :: Covered(store.Now(), x) <==> old(Covered(store.Now(), x)) || x in IdsOf(members)
    ensures ScopesKept(old(store.Now()), store.Now(), ws)
  {
    ghost var s := store.Now();
    model := store.NewId();
    var row := NewModel(ws, model, sum, "l5_extract", now);
    NewRowKeepsCover(s, row);
    store.PutMemory(row);
    LinkMembers(store, model, members, now);
    ModelAdded(s, store.Now(), ws, row, members);
  }

  lemma ModelAdded(s: State, u: State, ws: string, row: Memory, members: seq<Memory>)
    requires ModelsCover(s) && AllReady(s, ws, members) && WellFormed(u)
    requires row.id !in s.memories && row.id != "" && row.workspace == ws && row.layer == Mental && !IsRetired(row)
    requires Linked(PutRow(s, row), u, row.id, IdsOf(members))
    ensures ModelsCover(u) && Extends(s, u) && LinksAll(u, row.id, IdsOf(members)) && ScopesKept(s, u, ws)
    ensures CoverInv(s) && NoneCovered(s, IdsOf(members)) ==> CoverInv(u)
    ensures forall x :: Covered(u, x) <==> Covered(s, x) || x in IdsOf(members)
  {
    var t := PutRow(s, row);
    NewRowKeepsCover(s, row);
    MembersReady(s, ws, members);
    LinkedModelsCover(t, u, row.id, IdsOf(members));
    LinkedLinksAll(t, u, row.id, IdsOf(members));
    AddedKeepsScopes(s, t, u, ws, row.id, members);
    if CoverInv(s) && NoneCovered(s, IdsOf(members)) {
      LinkedKeepsCover(t, u, row.id, IdsOf(members));
    }
  }

  lemma MembersReady(s: State, ws: string, members: seq<Memory>)
    requires AllReady(s, ws, members)
    ensures forall x :: x in IdsOf(members) ==> x in s.memories && s.memories[x].layer != Mental
  {
  }

  lemma AddedKeepsScopes(s: State, t: State, u: State, ws: string, model: Id, members: seq<Memory>)
    requires Linked(t, u, model, IdsOf(members)) && AllReady(s, ws, members)
    requires model in t.memories && t.memories[model].workspace == ws && forall v :: Scoped(s, v) ==> Scoped(t, v)
    requires forall id :: id in s.memories ==> id in t.memories && t.memories[id] == s.memories[id]
    ensures ScopesKept(s, u, ws)
  {
    forall v | (v == ws || ws != "") && Scoped(s, v) ensures Scoped(u, v) {
      LinkedKeepsScope(t, u, model, IdsOf(members), v);
    }
  }

  /** The memories an extraction may abstract. */
  ghost predicate Candidate(s: State, ws: string, m: Memory) {
    m.id in s.memories && s.memories[m.id] == m && InScope(m, ws) && !Covered(s, m.id) && Abstractable(m)
  }

  /** The memories an extraction does take: those it sees no model of. */
  ghost predicate Taken(s: State, ws: string, m: Memory) {
    m.id in s.memories && s.memories[m.id] == m && InScope(m, ws) && !CoveredIn(s, ws, m.id) && Abstractable(m)
  }

  lemma CoveredInScope(s: State, ws: string, m: Memory)
    requires CoverInv(s) && Scoped(s, ws) && Covered(s, m.id)
    requires m.id in s.memories && s.memories[m.id] == m && InScope(m, ws) && Abstractable(m)
    ensures CoveredIn(s, ws, m.id)
  {
    var e :| Abstracting(s, e) && s.edges[e].dst == m.id;
    assert InScope(s.memories[s.edges[e].src], ws);
  }

  /** They are uncovered, all of them, if and only if the scope is in order. */
  lemma TakenUncoveredIff(s: State, ws: string)
    requires CoverInv(s)
    ensures (forall m :: Taken(s, ws, m) ==> Candidate(s, ws, m)) <==> Scoped(s, ws)
  {
    if Scoped(s, ws) {
      forall m | Taken(s, ws, m) ensures !Covered(s, m.id) {
        if Covered(s, m.id) {
          CoveredInScope(s, ws, m);
        }
      }
    } else {
      var e :| Abstracting(s, e) && s.edges[e].src in s.memories && s.edges[e].dst in s.memories
        && Abstractable(s.memories[s.edges[e].dst]) && InScope(s.memories[s.edges[e].dst], ws)
        && !InScope(s.memories[s.edges[e].src], ws);
      var m := s.memories[s.edges[e].dst];
      assert Taken(s, ws, m) by {
        forall f | Abstracting(s, f) && s.edges[f].dst == m.id ensures f == e {}
      }
      assert Covered(s, m.id);
    }
  }

  ghost predicate ListsCandidates(s: State, ws: string, cands: seq<Memory>) {
    && (forall m {:trigger m in cands} :: m in cands <==> Candidate(s, ws, m))
    && (forall i, j :: 0 <= i < j < |cands| ==> cands[i].id != cands[j].id)
  }

  method FindCandidates(store: Store, ws: string) returns (cands: seq<Memory>)
    requires store.Valid() && CoverInv(store.Now())
    ensures ListsTaken(store.Now(), ws, cands)
    // facts and notes, playbooks and snippets
    ensures forall m: Memory {:trigger m in cands} :: m in cands <==>
      && m.id in store.memories && store.memories[m.id] == m && (ws == "" || m.workspace == ws)
      && (m.layer == Semantic ==> m.typ == Fact || m.typ == Note)
      && (m.layer == Procedural ==> m.typ == Playbook || m.typ == Snippet)
      && (m.layer == Semantic || m.layer == Procedural)
      && !CoveredIn(store.Now(), ws, m.id)
    ensures Scoped(store.Now(), ws) ==> ListsCandidates(store.Now(), ws, cands)
  {
    ghost var s := store.Now();
    var covered := CoveredMemberIds(store, ws);
    var all := store.IterMemories(ws, None, None);
    cands := [];
    for i := 0 to |all|
      invariant forall m :: m in cands ==> m in all && Taken(s, ws, m)
      invariant forall k :: 0 <= k < i && Taken(s, ws, all[k]) ==> all[k] in cands
      invariant forall k, j :: 0 <= k < |cands| && i <= j < |all| ==> cands[k].id != all[j].id
      invariant forall k, j :: 0 <= k < j < |cands| ==> cands[k].id != cands[j].id
    {
      assert all[i] in all;
      if all[i].id !in covered && Abstractable(all[i]) {
        cands := cands + [all[i]];
      }
    }
    forall m | Taken(s, ws, m) ensures m in cands {
      assert m in all;
    }
    if Scoped(s, ws) {
      TakenUncoveredIff(s, ws);
      forall m | Candidate(s, ws, m) ensures Taken(s, ws, m) { NotCoveredIn(s, ws, m.id); }
    }
  }

  lemma NotCoveredIn(s: State, ws: string, x: Id)
    requires !Covered(s, x)
    ensures !CoveredIn(s, ws, x)
  {
  }

  /** A group becomes a model when it is large enough and the provider summarises it. */
  predicate Chosen(g: nat, group: seq<Memory>, minSize: int, summarise: Provider) {
    |group| >= minSize && summarise(g, group).Some?
  }

  /** model is a new live model that holds the summary and abstracts the whole group. */
  ghost predicate ModelOf(s: State, t: State, group: seq<Memory>, sum: Option<Summary>, model: Id) {
    && model !in s.memories && LiveModel(t, model) && LinksAll(t, model, IdsOf(group))
    && sum.Some? && t.memories[model].content == ModelContent(sum.value)
  }

  /** The groups are the lists at the given positions. */
  ghost predicate PickedGroups(ms: seq<Memory>, at: seq<seq<nat>>, groups: seq<seq<Memory>>) {
    |groups| == |at| && forall g :: 0 <= g < |at| ==> C.Below(at[g], |ms|) && groups[g] == C.Pick(ms, at[g])
  }

  /** No id stands twice, in one group or in two. */
  ghost predicate Apart(groups: seq<seq<Memory>>) {
    && (forall g, i, j :: 0 <= g < |groups| && 0 <= i < j < |groups[g]| ==> groups[g][i].id != groups[g][j].id)
    && (forall g, h :: 0 <= g < |groups| && 0 <= h < |groups| && g != h ==> IdsOf(groups[g]) !! IdsOf(groups[h]))
  }

  lemma PickedApart(ms: seq<Memory>, at: seq<seq<nat>>, groups: seq<seq<Memory>>)
    requires PickedGroups(ms, at, groups) && C.Partition(at, |ms|)
    requires forall i, j :: 0 <= i < j < |ms| ==> ms[i].id != ms[j].id
    ensures Apart(groups)
  {
    forall g, h | 0 <= g < |groups| && 0 <= h < |groups| && g != h ensures IdsOf(groups[g]) !! IdsOf(groups[h]) {
      forall x | x in IdsOf(groups[g]) && x in IdsOf(groups[h]) ensures false {
        var k := PositionOf(ms, at[g], x);
        var l := PositionOf(ms, at[h], x);
      }
    }
    forall g, i, j | 0 <= g < |groups| && 0 <= i < j < |groups[g]| ensures groups[g][i].id != groups[g][j].id {
      assert C.Increasing(at[g]);
      assert at[g][i] < at[g][j];
    }
  }

  lemma PositionOf(ms: seq<Memory>, group: seq<nat>, x: Id) returns (k: nat)
    requires C.Below(group, |ms|) && x in IdsOf(C.Pick(ms, group))
    ensures k in group && k < |ms| && ms[k].id == x
  {
    var p := C.Pick(ms, group);
    var m :| m in p && m.id == x;
    var i :| 0 <= i < |p| && p[i] == m;
    k := group[i];
  }

  lemma PickedIn(ms: seq<Memory>, at: seq<seq<nat>>, groups: seq<seq<Memory>>)
    requires PickedGroups(ms, at, groups)
    ensures forall g, i :: 0 <= g < |groups| && 0 <= i < |groups[g]| ==> groups[g][i] in ms
  {
    forall g, i | 0 <= g < |groups| && 0 <= i < |groups[g]| ensures groups[g][i] in ms {
      assert groups[g][i] == ms[at[g][i]];
    }
  }

  ghost predicate InSome(groups: seq<seq<Memory>>, x: Id) {
    exists g :: 0 <= g < |groups| && x in IdsOf(groups[g])
  }

  /** The first h groups are done: the chosen ones have their model, and exactly the memories in chosen groups are
      covered in addition to those that were. */
  ghost predicate Outcome(s: State, t: State, groups: seq<seq<Memory>>, models: map<nat, Id>, minSize: int,
                          summarise: Provider, h: nat) {
    && (forall g: nat :: g in models ==> g < h)
    && (forall g: nat :: g < h && g < |groups| ==> (g in models <==> Chosen(g, groups[g], minSize, summarise)))
    && (forall g: nat :: g < |groups| && g in models ==>
          ModelOf(s, t, groups[g], summarise(g, groups[g]), models[g]))
    && (forall g: nat, x :: g < |groups| && x in IdsOf(groups[g]) ==> (Covered(t, x) <==> Covered(s, x) || g in models))
    && (forall x :: Covered(s, x) ==> Covered(t, x))
    && (forall x :: Covered(t, x) && !Covered(s, x) ==> InSome(groups, x))
  }

  /** No chosen one of the first h groups holds a memory that is covered already. */
  ghost predicate TakesUncovered(s: State, groups: seq<seq<Memory>>, minSize: int, summarise: Provider, h: nat) {
    forall g: nat :: g < h && g < |groups| && Chosen(g, groups[g], minSize, summarise) ==>
      NoneCovered(s, IdsOf(groups[g]))
  }

  /** The list of exactly what an extraction takes. */
  ghost predicate ListsTaken(s: State, ws: string, cands: seq<Memory>) {
    && (forall m {:trigger m in cands} :: m in cands <==> Taken(s, ws, m))
    && (forall i, j :: 0 <= i < j < |cands| ==> cands[i].id != cands[j].id)
  }

  /** In a scope in order, what is taken is uncovered. */
  lemma ScopedTakesUncovered(s: State, ws: string, cands: seq<Memory>, at: seq<seq<nat>>, groups: seq<seq<Memory>>,
                             minSize: int, summarise: Provider)
    requires CoverInv(s) && Scoped(s, ws) && ListsTaken(s, ws, cands) && PickedGroups(cands, at, groups)
    ensures TakesUncovered(s, groups, minSize, summarise, |groups|)
  {
    TakenUncoveredIff(s, ws);
    PickedIn(cands, at, groups);
    forall g: nat, x | g < |groups| && x in IdsOf(groups[g]) ensures !Covered(s, x) {
      var m :| m in groups[g] && m.id == x;
      var i :| 0 <= i < |groups[g]| && groups[g][i] == m;
      assert groups[g][i] in cands;
    }
  }

  /** Clusters what it takes and makes a model of every chosen cluster. One model a memory at most remains if and
      only if no chosen cluster holds a covered memory. at gives the clusters as positions in the list of what was
      taken, models the model of each. */
  method ExtractClusters(store: Store, ws: string, similarity: (string, string) -> real, threshold: real, minSize: int,
                         summarise: Provider, now: real)
    returns (newModels: nat, ghost cands: seq<Memory>, ghost at: seq<seq<nat>>, ghost groups: seq<seq<Memory>>,
             ghost models: map<nat, Id>)
    requires store.Valid() && CoverInv(store.Now())
    modifies store
    ensures store.Valid() && ModelsCover(store.Now()) && Extends(old(store.Now()), store.Now())
    ensures CoverInv(store.Now()) <==> TakesUncovered(old(store.Now()), groups, minSize, summarise, |groups|)
    ensures !CoverInv(store.Now()) ==> Twice(store.Now(), ws)
    ensures ScopesKept(old(store.Now()), store.Now(), ws)
    ensures ListsTaken(old(store.Now()), ws, cands)
    ensures C.Partition(at, |cands|) && PickedGroups(cands, at, groups)
    ensures C.GroupsAreComponents(at, |cands|, C.Near(Contents(cands), similarity, threshold))
    ensures Outcome(old(store.Now()), store.Now(), groups, models, minSize, summarise, |groups|)
    ensures newModels == |models|
    // large enough, and with a summary
    ensures forall g: nat :: g in models <==> g < |groups| && |groups[g]| >= minSize && summarise(g, groups[g]).Some?
    // in a scope in order these are the uncovered ones, and one model each remains
    ensures old(Scoped(store.Now(), ws)) ==> ListsCandidates(old(store.Now()), ws, cands) && CoverInv(store.Now())
  {
    ghost var s := store.Now();
    var candidates := FindCandidates(store, ws);
    cands := candidates;
    var comps: seq<seq<Memory>>;
    comps, at := C.ConnectedComponents(candidates, Contents(candidates), similarity, threshold);
    groups := comps;
    PickedApart(cands, at, groups);
    PickedIn(cands, at, groups);
    newModels, models := ExtractGroups(store, ws, comps, minSize, summarise, now);
    assert forall g: nat :: g in models ==> g < |groups| && Chosen(g, groups[g], minSize, summarise);
    if Scoped(s, ws) {
      ScopedTakesUncovered(s, ws, cands, at, groups, minSize, summarise);
    }
  }

  /** The groups hold what an extraction takes, each once. */
  ghost predicate TakenGroups(s: State, ws: string, groups: seq<seq<Memory>>) {
    Apart(groups) && forall g, i :: 0 <= g < |groups| && 0 <= i < |groups[g]| ==> Taken(s, ws, groups[g][i])
  }

  /** How far the cover of s has come in t, after the first h groups. */
  ghost predicate CoverSoFar(s: State, t: State, ws: string, groups: seq<seq<Memory>>, minSize: int,
                             summarise: Provider, h: nat) {
    && ModelsCover(t)
    && (TakesUncovered(s, groups, minSize, summarise, h) ==> CoverInv(t))
    && (!TakesUncovered(s, groups, minSize, summarise, h) ==> Twice(t, ws))
  }

  method ExtractGroups(store: Store, ws: string, groups: seq<seq<Memory>>, minSize: int,
                       summarise: Provider, now: real)
    returns (newModels: nat, ghost models: map<nat, Id>)
    requires store.Valid() && CoverInv(store.Now()) && TakenGroups(store.Now(), ws, groups)
    modifies store
    ensures store.Valid() && ModelsCover(store.Now()) && Extends(old(store.Now()), store.Now())
    ensures CoverInv(store.Now()) <==> TakesUncovered(old(store.Now()), groups, minSize, summarise, |groups|)
    ensures !CoverInv(store.Now()) ==> Twice(store.Now(), ws)
    ensures ScopesKept(old(store.Now()), store.Now(), ws)
    ensures Outcome(old(store.Now()), store.Now(), groups, models, minSize, summarise, |groups|)
    ensures newModels == |models|
  {
    ghost var s := store.Now();
    newModels, models := 0, map[];
    for h := 0 to |groups|
      invariant store.Valid() && Extends(s, store.Now()) && ScopesKept(s, store.Now(), ws)
      invariant CoverSoFar(s, store.Now(), ws, groups, minSize, summarise, h)
      invariant Outcome(s, store.Now(), groups, models, minSize, summarise, h) && newModels == |models|
    {
      var did;
      did, models := ExtractGroup(store, ws, s, groups, models, minSize, summarise, h, now);
      newModels := newModels + if did then 1 else 0;
    }
    if !TakesUncovered(s, groups, minSize, summarise, |groups|) {
      TwiceIsTooOften(store.Now(), ws);
    }
  }

  /** Makes a model of one group if it is chosen. */
  method ExtractGroup(store: Store, ws: string, ghost s: State, groups: seq<seq<Memory>>, ghost models: map<nat, Id>,
                      minSize: int, summarise: Provider, h: nat, now: real)
    returns (did: bool, ghost models': map<nat, Id>)
    requires store.Valid() && CoverInv(s) && TakenGroups(s, ws, groups) && h < |groups| && Extends(s, store.Now())
    requires CoverSoFar(s, store.Now(), ws, groups, minSize, summarise, h)
    requires Outcome(s, store.Now(), groups, models, minSize, summarise, h)
    modifies store
    ensures store.Valid() && Extends(old(store.Now()), store.Now())
    ensures ScopesKept(old(store.Now()), store.Now(), ws)
    ensures CoverSoFar(s, store.Now(), ws, groups, minSize, summarise, h + 1)
    ensures Outcome(s, store.Now(), groups, models', minSize, summarise, h + 1)
    ensures |models'| == |models| + if did then 1 else 0
  {
    var group := groups[h];
    ghost var t := store.Now();
    did, models' := |group| >= minSize && summarise(h, group).Some?, models;
    if did {
      GroupReady(s, t, ws, groups, h);
      var model := AddModel(store, ws, group, summarise(h, group).value, now);
      OutcomeStep(s, t, store.Now(), groups, models, minSize, summarise, h, model);
      CoverStep(s, t, store.Now(), ws, groups, models, minSize, summarise, h, model);
      models' := models[h := model];
    } else {
      OutcomeSkip(s, t, groups, models, minSize, summarise, h);
    }
  }

  /** A group whose memories nobody covered before the pass is uncovered when its turn comes. */
  lemma StillUncovered(s: State, t: State, groups: seq<seq<Memory>>, models: map<nat, Id>, minSize: int,
                       summarise: Provider, h: nat)
    requires Outcome(s, t, groups, models, minSize, summarise, h) && h < |groups| && NoneCovered(s, IdsOf(groups[h]))
    ensures NoneCovered(t, IdsOf(groups[h]))
  {
    assert h !in models;
    forall x | x in IdsOf(groups[h]) ensures !Covered(t, x) {
      assert !Covered(s, x);
    }
  }

  lemma UncoveredStep(s: State, groups: seq<seq<Memory>>, minSize: int, summarise: Provider, h: nat)
    requires h < |groups| && Chosen(h, groups[h], minSize, summarise)
    ensures TakesUncovered(s, groups, minSize, summarise, h + 1) <==>
      TakesUncovered(s, groups, minSize, summarise, h) && NoneCovered(s, IdsOf(groups[h]))
  {
  }

  lemma GroupTwice(s: State, u: State, ws: string, groups: seq<seq<Memory>>, h: nat, model: Id)
    requires CoverInv(s) && TakenGroups(s, ws, groups) && h < |groups| && !NoneCovered(s, IdsOf(groups[h]))
    requires Extends(s, u) && model in u.memories && u.memories[model].workspace == ws
    requires LinksAll(u, model, IdsOf(groups[h]))
    ensures Twice(u, ws)
  {
    var x :| x in IdsOf(groups[h]) && Covered(s, x);
    var m :| m in groups[h] && m.id == x;
    var i :| 0 <= i < |groups[h]| && groups[h][i] == m;
    TakenTwice(s, u, ws, model, m);
  }

  /** What the next model does to the cover. */
  lemma CoverStep(s: State, t: State, u: State, ws: string, groups: seq<seq<Memory>>, models: map<nat, Id>,
                  minSize: int, summarise: Provider, h: nat, model: Id)
    requires CoverInv(s) && TakenGroups(s, ws, groups) && h < |groups| && Chosen(h, groups[h], minSize, summarise)
    requires CoverSoFar(s, t, ws, groups, minSize, summarise, h) && Extends(s, t) && Extends(t, u) && ModelsCover(u)
    requires Outcome(s, t, groups, models, minSize, summarise, h)
    requires CoverInv(t) && NoneCovered(t, IdsOf(groups[h])) ==> CoverInv(u)
    requires model in u.memories && u.memories[model].workspace == ws && LinksAll(u, model, IdsOf(groups[h]))
    ensures CoverSoFar(s, u, ws, groups, minSize, summarise, h + 1)
  {
    UncoveredStep(s, groups, minSize, summarise, h);
    if !NoneCovered(s, IdsOf(groups[h])) {
      ExtendsTwice(s, t, u);
      GroupTwice(s, u, ws, groups, h, model);
    } else if TakesUncovered(s, groups, minSize, summarise, h) {
      StillUncovered(s, t, groups, models, minSize, summarise, h);
    } else {
      TwiceExtends(t, u, ws);
    }
  }

  lemma ExtendsTwice(s: State, t: State, u: State)
    requires Extends(s, t) && Extends(t, u)
    ensures Extends(s, u)
  {
  }

  lemma TwiceExtends(s: State, t: State, ws: string)
    requires Twice(s, ws) && Extends(s, t)
    ensures Twice(t, ws)
  {
    var e, f :| IsTwice(s, ws, e, f);
    assert IsTwice(t, ws, e, f);
  }

  /** A covered memory that is taken has a model the pass does not see, and gets one that it does. */
  lemma TakenTwice(s: State, u: State, ws: string, model: Id, m: Memory)
    requires CoverInv(s) && Taken(s, ws, m) && Covered(s, m.id) && Extends(s, u)
    requires model in u.memories && u.memories[model].workspace == ws && HasLive(u, model, ABSTRACTS, m.id)
    ensures Twice(u, ws)
  {
    var e :| Abstracting(s, e) && s.edges[e].dst == m.id;
    var f :| IsLive(u, f, model, ABSTRACTS, m.id);
    assert IsTwice(u, ws, e, f);
  }

  lemma OutcomeSkip(s: State, t: State, groups: seq<seq<Memory>>, models: map<nat, Id>, minSize: int,
                    summarise: Provider, h: nat)
    requires Outcome(s, t, groups, models, minSize, summarise, h) && h < |groups|
    requires !Chosen(h, groups[h], minSize, summarise)
    ensures Outcome(s, t, groups, models, minSize, summarise, h + 1)
  {
  }

  lemma GroupReady(s: State, t: State, ws: string, groups: seq<seq<Memory>>, h: nat)
    requires TakenGroups(s, ws, groups) && h < |groups| && Extends(s, t)
    ensures AllReady(t, ws, groups[h])
  {
    forall i | 0 <= i < |groups[h]| ensures Ready(t, ws, groups[h][i].id) {
      assert Taken(s, ws, groups[h][i]);
    }
  }

  lemma ModelOfKept(s: State, t: State, u: State, group: seq<Memory>, sum: Option<Summary>, model: Id)
    requires ModelOf(s, t, group, sum, model) && Extends(t, u)
    ensures ModelOf(s, u, group, sum, model)
  {
    ExtendsKeepsLinks(t, u, model, IdsOf(group));
  }

  /** Of the groups only the next one gets its memories covered. */
  lemma GroupCovered(s: State, t: State, u: State, groups: seq<seq<Memory>>, models: map<nat, Id>, minSize: int,
                     summarise: Provider, h: nat, g: nat, x: Id)
    requires Outcome(s, t, groups, models, minSize, summarise, h) && h < |groups| && Apart(groups)
    requires Covered(u, x) <==> Covered(t, x) || x in IdsOf(groups[h])
    requires g < |groups| && x in IdsOf(groups[g])
    ensures Covered(u, x) <==> Covered(s, x) || g in models || g == h
  {
    if g != h {
      assert IdsOf(groups[g]) !! IdsOf(groups[h]);
    }
  }

  lemma ModelsKept(s: State, t: State, u: State, groups: seq<seq<Memory>>, models: map<nat, Id>,
                   minSize: int, summarise: Provider, h: nat)
    requires Outcome(s, t, groups, models, minSize, summarise, h) && Extends(t, u)
    ensures forall g: nat :: g < |groups| && g in models ==>
      ModelOf(s, u, groups[g], summarise(g, groups[g]), models[g])
  {
    forall g: nat | g < |groups| && g in models
      ensures ModelOf(s, u, groups[g], summarise(g, groups[g]), models[g])
    {
      ModelOfKept(s, t, u, groups[g], summarise(g, groups[g]), models[g]);
    }
  }

  lemma CoverGrows(s: State, t: State, u: State, groups: seq<seq<Memory>>, models: map<nat, Id>,
                   minSize: int, summarise: Provider, h: nat)
    requires Outcome(s, t, groups, models, minSize, summarise, h) && h < |groups|
    requires forall x :: Covered(u, x) <==> Covered(t, x) || x in IdsOf(groups[h])
    ensures forall x :: Covered(s, x) ==> Covered(u, x)
    ensures forall x :: Covered(u, x) && !Covered(s, x) ==> InSome(groups, x)
  {
  }

  lemma OutcomeStep(s: State, t: State, u: State, groups: seq<seq<Memory>>, models: map<nat, Id>,
                    minSize: int, summarise: Provider, h: nat, model: Id)
    requires Outcome(s, t, groups, models, minSize, summarise, h) && h < |groups| && Apart(groups)
    requires Chosen(h, groups[h], minSize, summarise) && Extends(t, u)
    requires ModelOf(s, u, groups[h], summarise(h, groups[h]), model)
    requires forall x :: Covered(u, x) <==> Covered(t, x) || x in IdsOf(groups[h])
    ensures Outcome(s, u, groups, models[h := model], minSize, summarise, h + 1)
  {
    ModelsKept(s, t, u, groups, models, minSize, summarise, h);
    CoverGrows(s, t, u, groups, models, minSize, summarise, h);
    forall g: nat, x | g < |groups| && x in IdsOf(groups[g])
      ensures Covered(u, x) <==> Covered(s, x) || g in models[h := model]
    {
      GroupCovered(s, t, u, groups, models, minSize, summarise, h, g, x);
    }
  }

  // ---- Merging models ----

  /** x is abstracted by one of the models. */
  ghost predicate MemberOf(s: State, models: seq<Memory>, x: Id) {
    exists i, e :: 0 <= i < |models| && Abstracting(s, e) && s.edges[e].src == models[i].id && s.edges[e].dst == x
  }

  /** members lists rows, each once. */
  ghost predicate RowList(s: State, members: seq<Memory>) {
    && (forall i :: 0 <= i < |members| ==>
          members[i].id in s.memories && s.memories[members[i].id] == members[i])
    && (forall i, j :: 0 <= i < j < |members| ==> members[i].id != members[j].id)
  }

  lemma RowListSnoc(s: State, members: seq<Memory>, m: Memory)
    requires RowList(s, members) && m.id in s.memories && s.memories[m.id] == m && m.id !in IdsOf(members)
    ensures RowList(s, members + [m]) && IdsOf(members + [m]) == IdsOf(members) + {m.id}
  {
    IdsOfSnoc(members, m);
    forall i | 0 <= i < |members| ensures members[i].id != m.id {
      assert members[i] in members;
    }
  }

  /** Adds what one model abstracts. */
  method CollectFrom(store: Store, model: Id, members0: seq<Memory>) returns (members: seq<Memory>)
    requires store.Valid() && RowList(store.Now(), members0)
    ensures RowList(store.Now(), members) && IdsOf(members0) <= IdsOf(members)
    ensures forall x :: x in IdsOf(members) <==> x in IdsOf(members0) || AbstractedByOne(store.Now(), model, x)
  {
    ghost var s := store.Now();
    members := members0;
    var seen := IdsOf(members0);
    var edges := store.Neighbors(model, ABSTRACTS);
    for j := 0 to |edges|
      invariant RowList(s, members) && seen == IdsOf(members) && IdsOf(members0) <= seen
      invariant forall k :: 0 <= k < j && edges[k].src == model ==> edges[k].dst in seen
      invariant forall x :: x in seen ==> x in IdsOf(members0) || AbstractedByOne(s, model, x)
    {
      var e := edges[j];
      assert e in edges;
      if e.src == model && e.dst !in seen {
        assert Abstracting(s, e.id) && s.edges[e.id] == e;
        var mb := store.GetMemory(e.dst);
        if mb.Some? {
          RowListSnoc(s, members, mb.value);
          seen, members := seen + {e.dst}, members + [mb.value];
        }
      }
    }
    forall x | AbstractedByOne(s, model, x) ensures x in seen {
      var e :| Abstracting(s, e) && s.edges[e].src == model && s.edges[e].dst == x;
      assert s.edges[e] in edges;
    }
  }

  ghost predicate AbstractedByOne(s: State, model: Id, x: Id) {
    exists e :: Abstracting(s, e) && s.edges[e].src == model && s.edges[e].dst == x
  }

  ghost predicate ListsMembers(s: State, models: seq<Memory>, members: seq<Memory>) {
    RowList(s, members) && forall x :: x in IdsOf(members) <==> MemberOf(s, models, x)
  }

  /** The stored memories that the models abstract, each once. */
  method CollectMembers(store: Store, models: seq<Memory>) returns (members: seq<Memory>)
    requires store.Valid()
    ensures ListsMembers(store.Now(), models, members)
  {
    ghost var s := store.Now();
    members := [];
    for i := 0 to |models|
      invariant RowList(s, members)
      invariant forall x :: x in IdsOf(members) <==> exists k :: 0 <= k < i && AbstractedByOne(s, models[k].id, x)
    {
      members := CollectFrom(store, models[i].id, members);
    }
    forall x ensures x in IdsOf(members) <==> MemberOf(s, models, x) {
      if k :| 0 <= k < |models| && AbstractedByOne(s, models[k].id, x) {
        var e :| Abstracting(s, e) && s.edges[e].src == models[k].id && s.edges[e].dst == x;
        assert MemberOf(s, models, x);
      }
      if k, e :| 0 <= k < |models| && Abstracting(s, e) && s.edges[e].src == models[k].id && s.edges[e].dst == x {
        assert AbstractedByOne(s, models[k].id, x);
      }
    }
  }

  lemma IdsOfSnoc(ms: seq<Memory>, m: Memory)
    ensures IdsOf(ms + [m]) == IdsOf(ms) + {m.id}
  {
    forall x | x in IdsOf(ms) + {m.id} ensures x in IdsOf(ms + [m]) {
      if x == m.id {
        assert (ms + [m])[|ms|] == m;
      } else {
        var n :| n in ms && n.id == x;
        assert n in ms + [m];
      }
    }
  }

  /** The valid abstracts edges of t are those of s that leave none of the sources in gone. */
  ghost predicate Dropped(s: State, t: State, gone: set<Id>) {
    && (forall e :: Abstracting(t, e) <==> Abstracting(s, e) && s.edges[e].src !in gone)
    && (forall e :: Abstracting(t, e) ==> t.edges[e] == s.edges[e])
  }

  /** Rows of t: those of s, the models among the first i replaced by their retired form. */
  ghost predicate RetiredRows(s: State, t: State, models: seq<Memory>, i: nat, newId: Id)
    requires i <= |models|
  {
    && t.memories.Keys == s.memories.Keys
    && (forall j :: 0 <= j < i ==> models[j].id in t.memories && t.memories[models[j].id] == MarkRetired(models[j], newId))
    && (forall id :: id in s.memories && (forall j :: 0 <= j < i ==> models[j].id != id) ==> t.memories[id] == s.memories[id])
  }

  lemma RetireDrops(s: State, t: State, u: State, gone: set<Id>, m: Memory, newId: Id)
    requires ModelsCover(t) && Dropped(s, t, gone) && RetiredOne(t, u, m, newId) && m.layer == Mental
    requires m.id in t.memories && t.memories[m.id] == m
    ensures Dropped(s, u, gone + {m.id})
  {
  }

  lemma RetireMarks(s: State, t: State, u: State, models: seq<Memory>, i: nat, newId: Id)
    requires i < |models| && RetiredRows(s, t, models, i, newId) && RetiredOne(t, u, models[i], newId)
    requires models[i].id in s.memories && forall j, k :: 0 <= j < k < |models| ==> models[j].id != models[k].id
    ensures RetiredRows(s, u, models, i + 1, newId)
  {
  }

  /** Retires every one of the models in favour of newId. */
  method RetireAll(store: Store, models: seq<Memory>, newId: Id, now: real)
    requires store.Valid() && ModelsCover(store.Now()) && newId in store.memories && newId != ""
    requires RowList(store.Now(), models)
    requires forall i :: 0 <= i < |models| ==> models[i].layer == Mental && models[i].id != newId
    modifies store
    ensures store.Valid() && ModelsCover(store.Now())
    ensures Dropped(old(store.Now()), store.Now(), IdsOf(models))
    ensures RetiredRows(old(store.Now()), store.Now(), models, |models|, newId)
    ensures forall v :: Scoped(old(store.Now()), v) ==> Scoped(store.Now(), v)
  {
    ghost var s := store.Now();
    ghost var gone: set<Id> := {};
    for i := 0 to |models|
      invariant store.Valid() && ModelsCover(store.Now()) && Dropped(s, store.Now(), gone)
      invariant RetiredRows(s, store.Now(), models, i, newId)
      invariant forall v :: Scoped(s, v) ==> Scoped(store.Now(), v)
      invariant gone <= IdsOf(models) && forall j :: 0 <= j < i ==> models[j].id in gone
    {
      ghost var t := store.Now();
      var _, edge := store.Retire(models[i], newId, now);
      RetireKeepsModels(t, models[i], newId, now, edge, store.Now());
      RetireKeepsScopes(t, store.Now(), models[i], newId);
      RetireDrops(s, t, store.Now(), gone, models[i], newId);
      RetireMarks(s, t, store.Now(), models, i, newId);
      assert models[i] in models;
      gone := gone + {models[i].id};
    }
    assert gone == IdsOf(models);
  }

  /** A component of live models that a pass over ws sees, as rows of s. */
  ghost predicate ModelRows(s: State, ws: string, models: seq<Memory>) {
    && (forall i :: 0 <= i < |models| ==>
          models[i].id in s.memories && s.memories[models[i].id] == models[i]
          && LiveModel(s, models[i].id) && InScope(models[i], ws))
    && (forall i, j :: 0 <= i < j < |models| ==> models[i].id != models[j].id)
  }

  /** t replaces the models by one new live model, merged, which abstracts all they abstracted. */
  ghost predicate Replaced(s: State, t: State, models: seq<Memory>, merged: Id) {
    && merged !in s.memories && LiveModel(t, merged)
    && (forall i :: 0 <= i < |models| ==>
          models[i].id in t.memories && t.memories[models[i].id] == MarkRetired(models[i], merged))
    && (forall x :: MemberOf(s, models, x) ==> HasLive(t, merged, ABSTRACTS, x))
  }

  /** Rows of s outside the models, and the abstracts edges of other sources, are the same in t. */
  ghost predicate OthersKept(s: State, t: State, models: seq<Memory>) {
    && (forall id :: id in s.memories && id !in IdsOf(models) ==> id in t.memories && t.memories[id] == s.memories[id])
    && (forall e :: Abstracting(s, e) && s.edges[e].src !in IdsOf(models) ==>
          Abstracting(t, e) && t.edges[e] == s.edges[e])
    && (forall e :: Abstracting(t, e) && t.edges[e].src in s.memories ==> Abstracting(s, e) && t.edges[e] == s.edges[e])
  }

  ghost predicate SameCover(s: State, t: State) {
    forall x :: Covered(t, x) <==> Covered(s, x)
  }

  /** A merge covers the same memories and gives none a second model, nor takes a second one away that the pass does
      not see. */
  ghost predicate CoverKept(s: State, t: State, ws: string) {
    ModelsCover(t) && SameCover(s, t) && (CoverInv(s) ==> CoverInv(t)) && (Twice(s, ws) ==> Twice(t, ws))
  }

  /** The state u between retiring the models and linking the new one. */
  ghost predicate Between(s: State, ws: string, models: seq<Memory>, row: Memory, u: State) {
    && ModelsCover(s) && ModelRows(s, ws, models)
    && row.id !in s.memories && row.id != "" && row.workspace == ws && row.layer == Mental && !IsRetired(row)
    && ModelsCover(u) && Dropped(PutRow(s, row), u, IdsOf(models))
    && RetiredRows(PutRow(s, row), u, models, |models|, row.id)
  }

  lemma RowsBetween(s: State, ws: string, models: seq<Memory>, row: Memory, u: State, id: Id)
    requires Between(s, ws, models, row, u) && id in s.memories && id !in IdsOf(models)
    ensures id in u.memories && u.memories[id] == s.memories[id]
    ensures LiveModel(u, row.id) && u.memories[row.id] == row
  {
    var r := PutRow(s, row);
    assert forall j :: 0 <= j < |models| ==> models[j] in models;
    assert r.memories[id] == s.memories[id] && r.memories[row.id] == row;
    assert forall j :: 0 <= j < |models| ==> models[j].id != id && models[j].id != row.id;
  }

  lemma NewModelBetween(s: State, ws: string, models: seq<Memory>, row: Memory, u: State)
    requires Between(s, ws, models, row, u)
    ensures row.id in u.memories && LiveModel(u, row.id) && u.memories[row.id] == row
  {
    assert PutRow(s, row).memories[row.id] == row;
    assert forall j :: 0 <= j < |models| ==> models[j].id != row.id;
  }

  lemma MemberRow(s: State, ws: string, models: seq<Memory>, i: nat, e: EdgeId)
    requires ModelsCover(s) && ModelRows(s, ws, models)
    requires i < |models| && Abstracting(s, e) && s.edges[e].src == models[i].id
    ensures var x := s.edges[e].dst;
      && s.edges[e].src in IdsOf(models) && x !in IdsOf(models)
      && x in s.memories && s.memories[x].layer != Mental
  {
    assert models[i] in models;
    var x := s.edges[e].dst;
    forall m | m in models ensures m.id != x {
      var j :| 0 <= j < |models| && models[j] == m;
      assert s.memories[models[j].id].layer == Mental;
    }
  }

  /** The edge that abstracted x has gone, and it was the only one. */
  lemma OnlyEdgeGone(s: State, u: State, gone: set<Id>, e: EdgeId)
    requires CoverInv(s) && Dropped(s, u, gone) && Abstracting(s, e) && s.edges[e].src in gone
    ensures !Covered(u, s.edges[e].dst)
  {
    forall f | Abstracting(u, f) ensures u.edges[f].dst != s.edges[e].dst {
      assert Abstracting(s, f) && u.edges[f] == s.edges[f];
    }
  }

  lemma DroppedRows(s: State, r: State, u: State, gone: set<Id>)
    requires r.edges == s.edges && Dropped(r, u, gone)
    ensures Dropped(s, u, gone)
  {
    forall e ensures Abstracting(r, e) <==> Abstracting(s, e) {}
  }

  lemma MemberStays(s: State, ws: string, models: seq<Memory>, row: Memory, u: State, x: Id)
    requires Between(s, ws, models, row, u) && MemberOf(s, models, x)
    ensures x in u.memories && u.memories[x].layer != Mental
  {
    var i, e :| 0 <= i < |models| && Abstracting(s, e) && s.edges[e].src == models[i].id && s.edges[e].dst == x;
    MemberRow(s, ws, models, i, e);
    RowsBetween(s, ws, models, row, u, x);
  }

  /** After the models are retired nothing covers what they abstracted, if one model each was the rule. */
  lemma MemberFree(s: State, ws: string, models: seq<Memory>, row: Memory, u: State, x: Id)
    requires Between(s, ws, models, row, u) && MemberOf(s, models, x) && CoverInv(s)
    ensures !Covered(u, x)
  {
    var i, e :| 0 <= i < |models| && Abstracting(s, e) && s.edges[e].src == models[i].id && s.edges[e].dst == x;
    MemberRow(s, ws, models, i, e);
    DroppedRows(s, PutRow(s, row), u, IdsOf(models));
    OnlyEdgeGone(s, u, IdsOf(models), e);
  }

  /** Merging moves the members of the models to the new model and covers nobody else. */
  lemma MergeMoves(s: State, ws: string, models: seq<Memory>, members: seq<Memory>, row: Memory, u: State, t: State)
    requires Between(s, ws, models, row, u)
    requires forall x :: x in IdsOf(members) <==> MemberOf(s, models, x)
    requires WellFormed(t) && Linked(u, t, row.id, IdsOf(members))
    ensures ModelsCover(t) && SameCover(s, t) && Replaced(s, t, models, row.id)
    ensures CoverInv(s) ==> CoverInv(t)
  {
    NewModelBetween(s, ws, models, row, u);
    forall x | x in IdsOf(members) ensures x in u.memories && u.memories[x].layer != Mental {
      MemberStays(s, ws, models, row, u, x);
    }
    LinkedModelsCover(u, t, row.id, IdsOf(members));
    LinkedLinksAll(u, t, row.id, IdsOf(members));
    CoverMoved(s, PutRow(s, row), u, models, members);
    if CoverInv(s) {
      MergeKeepsOneEach(s, ws, models, members, row, u, t);
    }
  }

  lemma MergeKeepsOneEach(s: State, ws: string, models: seq<Memory>, members: seq<Memory>, row: Memory, u: State,
                          t: State)
    requires Between(s, ws, models, row, u) && CoverInv(s) && LiveModel(u, row.id)
    requires forall x :: x in IdsOf(members) <==> MemberOf(s, models, x)
    requires WellFormed(t) && Linked(u, t, row.id, IdsOf(members))
    ensures CoverInv(t)
  {
    DroppedRows(s, PutRow(s, row), u, IdsOf(models));
    DroppedKeepsOneEach(s, u, IdsOf(models));
    forall x | x in IdsOf(members) ensures x in u.memories && u.memories[x].layer != Mental && !Covered(u, x) {
      MemberStays(s, ws, models, row, u, x);
      MemberFree(s, ws, models, row, u, x);
    }
    LinkedKeepsCover(u, t, row.id, IdsOf(members));
  }

  lemma DroppedKeepsOneEach(s: State, u: State, gone: set<Id>)
    requires CoverInv(s) && Dropped(s, u, gone) && ModelsCover(u)
    ensures CoverInv(u)
  {
  }

  /** A merge of seen models takes no seen model of a memory away without giving it another. */
  lemma MergeKeepsTwice(s: State, t: State, ws: string, models: seq<Memory>, merged: Id)
    requires ModelRows(s, ws, models) && Replaced(s, t, models, merged) && OthersKept(s, t, models) && Twice(s, ws)
    requires InScope(t.memories[merged], ws)
    ensures Twice(t, ws)
  {
    var e, f :| IsTwice(s, ws, e, f);
    var x := s.edges[f].dst;
    SeenByPass(s, ws, models, s.edges[e].src);
    if s.edges[f].src in IdsOf(models) {
      var m :| m in models && m.id == s.edges[f].src;
      var i :| 0 <= i < |models| && models[i] == m;
      assert MemberOf(s, models, x);
      var k :| IsLive(t, k, merged, ABSTRACTS, x);
      assert IsTwice(t, ws, e, k);
    } else {
      assert IsTwice(t, ws, e, f);
    }
  }

  lemma SeenByPass(s: State, ws: string, models: seq<Memory>, id: Id)
    requires ModelRows(s, ws, models) && id in s.memories && !InScope(s.memories[id], ws)
    ensures id !in IdsOf(models)
  {
    forall m | m in models ensures m.id != id {
      var i :| 0 <= i < |models| && models[i] == m;
    }
  }

  lemma MemberInScope(s: State, ws: string, models: seq<Memory>, x: Id, v: string)
    requires ModelsCover(s) && ModelRows(s, ws, models) && Scoped(s, v) && (v == ws || ws != "")
    requires MemberOf(s, models, x) && x in s.memories && Abstractable(s.memories[x]) && InScope(s.memories[x], v)
    ensures v == "" || v == ws
  {
    var i, e :| 0 <= i < |models| && Abstracting(s, e) && s.edges[e].src == models[i].id && s.edges[e].dst == x;
    assert InScope(models[i], v) && InScope(models[i], ws);
  }

  lemma MemberSame(s: State, ws: string, models: seq<Memory>, row: Memory, u: State, x: Id)
    requires Between(s, ws, models, row, u) && MemberOf(s, models, x)
    ensures x in s.memories && x in u.memories && u.memories[x] == s.memories[x]
  {
    var i, e :| 0 <= i < |models| && Abstracting(s, e) && s.edges[e].src == models[i].id && s.edges[e].dst == x;
    MemberRow(s, ws, models, i, e);
    RowsBetween(s, ws, models, row, u, x);
  }

  /** A member seen from v, after the models are retired. */
  ghost predicate SeenFrom(u: State, members: seq<Memory>, v: string, x: Id) {
    x in IdsOf(members) && x in u.memories && Abstractable(u.memories[x]) && InScope(u.memories[x], v)
  }

  lemma SeenMember(s: State, ws: string, models: seq<Memory>, members: seq<Memory>, row: Memory, u: State, v: string,
                   x: Id)
    requires Between(s, ws, models, row, u) && Scoped(s, v) && (v == ws || ws != "")
    requires ListsMembers(s, models, members) && SeenFrom(u, members, v, x)
    ensures v == "" || v == ws
  {
    MemberSame(s, ws, models, row, u, x);
    MemberInScope(s, ws, models, x, v);
  }

  /** The members stay in every scope they were in, for the new model takes the workspace of the old ones. */
  lemma MergeKeepsScope(u: State, t: State, ws: string, row: Memory, members: seq<Memory>, v: string)
    requires Linked(u, t, row.id, IdsOf(members)) && Scoped(u, v)
    requires row.id in u.memories && u.memories[row.id] == row && row.workspace == ws
    requires forall x :: SeenFrom(u, members, v, x) ==> v == "" || v == ws
    ensures Scoped(t, v)
  {
    forall x | x in IdsOf(members) && x in u.memories && Abstractable(u.memories[x]) && InScope(u.memories[x], v)
      ensures InScope(row, v)
    {
      assert SeenFrom(u, members, v, x);
    }
    LinkedKeepsScope(u, t, row.id, IdsOf(members), v);
  }

  lemma MergeKeepsScopes(s: State, ws: string, models: seq<Memory>, members: seq<Memory>, row: Memory, u: State,
                         t: State)
    requires Between(s, ws, models, row, u) && ListsMembers(s, models, members)
    requires Linked(u, t, row.id, IdsOf(members)) && forall v :: Scoped(s, v) ==> Scoped(u, v)
    ensures ScopesKept(s, t, ws)
  {
    NewModelBetween(s, ws, models, row, u);
    forall v | (v == ws || ws != "") && Scoped(s, v) ensures Scoped(t, v) {
      forall x | SeenFrom(u, members, v, x) ensures v == "" || v == ws {
        SeenMember(s, ws, models, members, row, u, v, x);
      }
      MergeKeepsScope(u, t, ws, row, members, v);
    }
  }

  lemma MergeKeepsOthers(s: State, ws: string, models: seq<Memory>, members: set<Id>, row: Memory, u: State, t: State)
    requires Between(s, ws, models, row, u) && Linked(u, t, row.id, members)
    ensures OthersKept(s, t, models)
  {
    var r := PutRow(s, row);
    assert r.edges == s.edges;
    forall id | id in s.memories && id !in IdsOf(models) ensures id in t.memories && t.memories[id] == s.memories[id] {
      RowsBetween(s, ws, models, row, u, id);
    }
    forall e | Abstracting(s, e) && s.edges[e].src !in IdsOf(models)
      ensures Abstracting(t, e) && t.edges[e] == s.edges[e]
    {
      assert Abstracting(r, e) && Abstracting(u, e);
    }
    forall e | Abstracting(t, e) && t.edges[e].src in s.memories
      ensures Abstracting(s, e) && t.edges[e] == s.edges[e]
    {
      assert e in u.edges && Abstracting(u, e) && Abstracting(r, e);
    }
  }

  lemma CoverMoved(s: State, r: State, u: State, models: seq<Memory>, members: seq<Memory>)
    requires r.edges == s.edges && Dropped(r, u, IdsOf(models))
    requires forall x :: x in IdsOf(members) <==> MemberOf(s, models, x)
    ensures forall x :: Covered(s, x) <==> Covered(u, x) || x in IdsOf(members)
  {
    forall x ensures Covered(s, x) <==> Covered(u, x) || x in IdsOf(members) {
      if e :| Abstracting(s, e) && s.edges[e].dst == x {
        assert Abstracting(r, e);
        if s.edges[e].src in IdsOf(models) {
          var m :| m in models && m.id == s.edges[e].src;
          var i :| 0 <= i < |models| && models[i] == m;
          assert MemberOf(s, models, x);
        } else {
          assert Abstracting(u, e) && u.edges[e].dst == x;
        }
      }
      if e :| Abstracting(u, e) && u.edges[e].dst == x {
        assert Abstracting(r, e) && Abstracting(s, e) && s.edges[e].dst == x;
      }
      if x in IdsOf(members) {
        var i, e :| 0 <= i < |models| && Abstracting(s, e) && s.edges[e].src == models[i].id && s.edges[e].dst == x;
      }
    }
  }

  /** Stores the new model, retires the old ones in its favour and links their members to it. u is the state before
      the linking. */
  method ReplaceModels(store: Store, ws: string, models: seq<Memory>, members: seq<Memory>, sum: Summary, now: real)
    returns (id: Id, ghost row: Memory, ghost u: State)
    requires store.Valid() && ModelsCover(store.Now()) && ModelRows(store.Now(), ws, models)
    requires ListsMembers(store.Now(), models, members)
    modifies store
    ensures store.Valid() && Between(old(store.Now()), ws, models, row, u) && row.id == id
    ensures Linked(u, store.Now(), id, IdsOf(members)) && row.content == ModelContent(sum)
    ensures ModelRow(row, sum, "l5_merge", now)
    ensures forall v :: Scoped(old(store.Now()), v) ==> Scoped(u, v)
  {
    ghost var s := store.Now();
    id := store.NewId();
    var model := NewModel(ws, id, sum, "l5_merge", now);
    row := model;
    NewRowKeepsCover(s, row);
    store.PutMemory(model);
    RetireAll(store, models, id, now);
    u := store.Now();
    MembersBetween(s, ws, models, members, row, u);
    LinkMembers(store, id, members, now);
  }

  lemma MembersBetween(s: State, ws: string, models: seq<Memory>, members: seq<Memory>, row: Memory, u: State)
    requires Between(s, ws, models, row, u) && ListsMembers(s, models, members)
    ensures row.id in u.memories && forall i :: 0 <= i < |members| ==> members[i].id in u.memories
  {
    NewModelBetween(s, ws, models, row, u);
    InIds(members);
    forall i | 0 <= i < |members| ensures members[i].id in u.memories {
      MemberStays(s, ws, models, row, u, members[i].id);
    }
  }

  /** What a merge comes to. */
  lemma MergeDone(s: State, ws: string, models: seq<Memory>, members: seq<Memory>, row: Memory, u: State, t: State)
    requires Between(s, ws, models, row, u) && ListsMembers(s, models, members)
    requires WellFormed(t) && Linked(u, t, row.id, IdsOf(members)) && forall v :: Scoped(s, v) ==> Scoped(u, v)
    ensures CoverKept(s, t, ws) && ScopesKept(s, t, ws)
    ensures Replaced(s, t, models, row.id) && OthersKept(s, t, models) && t.memories[row.id] == row
  {
    NewModelBetween(s, ws, models, row, u);
    MergeMoves(s, ws, models, members, row, u, t);
    MergeKeepsOthers(s, ws, models, IdsOf(members), row, u, t);
    MergeKeepsScopes(s, ws, models, members, row, u, t);
    if Twice(s, ws) {
      MergeKeepsTwice(s, t, ws, models, row.id);
    }
  }

  /** Merges one component of models, unless it abstracts nothing or the provider gives no summary. */
  method MergeGroup(store: Store, ws: string, models: seq<Memory>, summarise: Provider, h: nat, now: real)
    returns (merged: Option<Id>)
    requires store.Valid() && ModelsCover(store.Now()) && ModelRows(store.Now(), ws, models)
    modifies store
    ensures store.Valid() && CoverKept(old(store.Now()), store.Now(), ws)
    ensures ScopesKept(old(store.Now()), store.Now(), ws)
    ensures merged.None? ==> store.Now() == old(store.Now())
    ensures merged.Some? ==> Replaced(old(store.Now()), store.Now(), models, merged.value)
    ensures merged.Some? ==> OthersKept(old(store.Now()), store.Now(), models)
    ensures merged.Some? ==> exists members ::
      && ListsMembers(old(store.Now()), models, members) && summarise(h, members).Some?
      && store.memories[merged.value].content == ModelContent(summarise(h, members).value)
      && ModelRow(store.memories[merged.value], summarise(h, members).value, "l5_merge", now)
    // each of the old models names the new one
    ensures merged.Some? ==> forall i :: 0 <= i < |models| ==>
      models[i].id in store.memories && Marked(models[i], store.memories[models[i].id], merged.value)
    ensures (exists x :: MemberOf(old(store.Now()), models, x)) && (forall i, ms :: summarise(i, ms).Some?) ==> merged.Some?
  {
    ghost var s := store.Now();
    var members := CollectMembers(store, models);
    if |members| == 0 {
      assert IdsOf(members) == {};
      return None;
    }
    var sum := summarise(h, members);
    if sum.None? {
      return None;
    }
    var id;
    ghost var row, u;
    id, row, u := ReplaceModels(store, ws, models, members, sum.value, now);
    MergeDone(s, ws, models, members, row, u, store.Now());
    return Some(id);
  }

  ghost predicate ListsModels(s: State, ws: string, models: seq<Memory>) {
    && (forall m {:trigger m in models} :: m in models <==>
          m.id in s.memories && s.memories[m.id] == m && LiveModel(s, m.id) && InScope(m, ws))
    && (forall i, j :: 0 <= i < j < |models| ==> models[i].id != models[j].id)
  }

  method FindModels(store: Store, ws: string) returns (models: seq<Memory>)
    requires store.Valid()
    ensures ListsModels(store.Now(), ws, models)
  {
    var all := store.IterMemories(ws, Some(Mental), None);
    models := [];
    for i := 0 to |all|
      invariant forall m :: m in models ==> m in all && !IsRetired(m)
      invariant forall k :: 0 <= k < i && !IsRetired(all[k]) ==> all[k] in models
      invariant forall k, j :: 0 <= k < |models| && i <= j < |all| ==> models[k].id != all[j].id
      invariant forall k, j :: 0 <= k < j < |models| ==> models[k].id != models[j].id
    {
      if !IsRetired(all[i]) {
        models := models + [all[i]];
      }
    }
    forall m: Memory | m.id in store.memories && store.memories[m.id] == m && LiveModel(store.Now(), m.id) && InScope(m, ws)
      ensures m in models
    {
      assert m in all;
    }
  }

  /** The group is as it was: rows and the abstracts edges leaving them. */
  ghost predicate GroupKept(s: State, t: State, models: seq<Memory>) {
    && (forall i :: 0 <= i < |models| ==> models[i].id in t.memories && t.memories[models[i].id] == models[i])
    && (forall e :: Abstracting(s, e) && s.edges[e].src in IdsOf(models) ==>
          Abstracting(t, e) && t.edges[e] == s.edges[e])
  }

  /** Of the groups, merged ones are replaced and the others kept. */
  ghost predicate MergedSoFar(s: State, t: State, groups: seq<seq<Memory>>, merged: map<nat, Id>, h: nat) {
    && (forall g: nat :: g in merged ==> g < h && g < |groups| && |groups[g]| >= 2)
    && (forall g: nat :: g < |groups| && g in merged ==> Replaced(s, t, groups[g], merged[g]))
    && (forall g: nat :: g < |groups| && g !in merged ==> GroupKept(s, t, groups[g]))
    && (forall id :: id in s.memories ==> id in t.memories)
  }

  /** With a provider that always answers, a component of two or more that abstracts anything is merged. */
  ghost predicate NoneSkipped(s: State, groups: seq<seq<Memory>>, merged: map<nat, Id>,
                              summarise: Provider, h: nat) {
    (forall i, ms :: summarise(i, ms).Some?) ==>
      forall g: nat, x :: g < h && g < |groups| && |groups[g]| >= 2 && MemberOf(s, groups[g], x) ==> g in merged
  }

  /** The groups hold live models of the workspace, each once. */
  ghost predicate ModelGroups(s: State, ws: string, groups: seq<seq<Memory>>) {
    Apart(groups) && forall g, i :: 0 <= g < |groups| && 0 <= i < |groups[g]| ==>
      && groups[g][i].id in s.memories && s.memories[groups[g][i].id] == groups[g][i]
      && LiveModel(s, groups[g][i].id) && InScope(groups[g][i], ws)
  }

  lemma InIds(ms: seq<Memory>)
    ensures forall i :: 0 <= i < |ms| ==> ms[i].id in IdsOf(ms)
  {
    forall i | 0 <= i < |ms| ensures ms[i].id in IdsOf(ms) { assert ms[i] in ms; }
  }

  /** A group other than the one being merged stays what it was. */
  lemma OtherGroupKept(s: State, t: State, u: State, group: seq<Memory>, other: seq<Memory>)
    requires IdsOf(group) !! IdsOf(other) && GroupKept(s, t, group) && OthersKept(t, u, other)
    ensures GroupKept(s, u, group)
  {
    InIds(group);
  }

  /** And so does a group already replaced. */
  lemma ReplacedKept(s: State, t: State, u: State, group: seq<Memory>, other: seq<Memory>, merged: Id)
    requires IdsOf(group) !! IdsOf(other) && Replaced(s, t, group, merged) && OthersKept(t, u, other)
    requires forall x :: x in IdsOf(other) ==> x in s.memories
    ensures Replaced(s, u, group, merged)
  {
    InIds(group);
    forall x | MemberOf(s, group, x) ensures HasLive(u, merged, ABSTRACTS, x) {
      var e :| IsLive(t, e, merged, ABSTRACTS, x);
      assert Abstracting(t, e) && IsLive(u, e, merged, ABSTRACTS, x);
    }
  }

  /** What a kept group abstracts it still abstracts. */
  lemma KeptMembers(s: State, t: State, models: seq<Memory>, x: Id)
    requires GroupKept(s, t, models) && MemberOf(s, models, x)
    ensures MemberOf(t, models, x)
  {
    var i, e :| 0 <= i < |models| && Abstracting(s, e) && s.edges[e].src == models[i].id && s.edges[e].dst == x;
    InIds(models);
    assert Abstracting(t, e) && t.edges[e] == s.edges[e];
  }

  lemma GroupIdsStored(s: State, ws: string, groups: seq<seq<Memory>>, h: nat)
    requires ModelGroups(s, ws, groups) && h < |groups|
    ensures forall x :: x in IdsOf(groups[h]) ==> x in s.memories
    ensures ModelRows(s, ws, groups[h])
  {
    forall x | x in IdsOf(groups[h]) ensures x in s.memories {
      var m :| m in groups[h] && m.id == x;
      var i :| 0 <= i < |groups[h]| && groups[h][i] == m;
    }
  }

  /** What merging one group means for the others. */
  lemma OtherGroups(s: State, t: State, u: State, groups: seq<seq<Memory>>, merged: map<nat, Id>, h: nat)
    requires MergedSoFar(s, t, groups, merged, h) && h < |groups| && OthersKept(t, u, groups[h]) && h !in merged
    requires Apart(groups) && forall x :: x in IdsOf(groups[h]) ==> x in s.memories
    ensures forall g: nat :: g < |groups| && g in merged ==> Replaced(s, u, groups[g], merged[g])
    ensures forall g: nat :: g < |groups| && g !in merged && g != h ==> GroupKept(s, u, groups[g])
  {
    forall g: nat | g < |groups| && g in merged ensures Replaced(s, u, groups[g], merged[g]) {
      ReplacedKept(s, t, u, groups[g], groups[h], merged[g]);
    }
    forall g: nat | g < |groups| && g !in merged && g != h ensures GroupKept(s, u, groups[g]) {
      OtherGroupKept(s, t, u, groups[g], groups[h]);
    }
  }

  /** A group that was kept and is now replaced has been replaced altogether. */
  lemma KeptThenReplaced(s: State, t: State, u: State, models: seq<Memory>, id: Id)
    requires GroupKept(s, t, models) && Replaced(t, u, models, id) && forall x :: x in s.memories ==> x in t.memories
    ensures Replaced(s, u, models, id)
  {
    forall x | MemberOf(s, models, x) ensures HasLive(u, id, ABSTRACTS, x) { KeptMembers(s, t, models, x); }
  }

  lemma RowsStored(s: State, t: State, u: State, models: seq<Memory>, id: Id)
    requires Replaced(t, u, models, id) && OthersKept(t, u, models) && forall x :: x in s.memories ==> x in t.memories
    ensures forall x :: x in s.memories ==> x in u.memories
  {
    forall x | x in s.memories ensures x in u.memories {
      if x in IdsOf(models) {
        var m :| m in models && m.id == x;
        var i :| 0 <= i < |models| && models[i] == m;
      }
    }
  }

  lemma MergedStep(s: State, ws: string, t: State, u: State, groups: seq<seq<Memory>>, merged: map<nat, Id>, h: nat,
                   id: Id)
    requires MergedSoFar(s, t, groups, merged, h) && h < |groups| && |groups[h]| >= 2 && ModelGroups(s, ws, groups)
    requires Replaced(t, u, groups[h], id) && OthersKept(t, u, groups[h]) && h !in merged
    ensures MergedSoFar(s, u, groups, merged[h := id], h + 1)
  {
    GroupIdsStored(s, ws, groups, h);
    OtherGroups(s, t, u, groups, merged, h);
    KeptThenReplaced(s, t, u, groups[h], id);
    RowsStored(s, t, u, groups[h], id);
  }

  /** Merges the components of similar live models. at gives the components as positions in the model list,
      merged the replacement of each merged one. */
  method MergeL5(store: Store, ws: string, similarity: (string, string) -> real, threshold: real,
                 summarise: Provider, now: real)
    returns (mergedModels: nat, ghost models: seq<Memory>, ghost at: seq<seq<nat>>, ghost groups: seq<seq<Memory>>,
             ghost merged: map<nat, Id>)
    requires store.Valid() && ModelsCover(store.Now())
    modifies store
    ensures store.Valid() && CoverKept(old(store.Now()), store.Now(), ws)
    ensures ScopesKept(old(store.Now()), store.Now(), ws)
    ensures ListsModels(old(store.Now()), ws, models)
    ensures C.Partition(at, |models|) && PickedGroups(models, at, groups)
    ensures C.GroupsAreComponents(at, |models|, C.Near(Contents(models), similarity, threshold))
    ensures MergedSoFar(old(store.Now()), store.Now(), groups, merged, |groups|)
    ensures NoneSkipped(old(store.Now()), groups, merged, summarise, |groups|)
    ensures mergedModels == |merged|
    // each of the models merged away names the one that replaced it
    ensures forall g: nat, i :: g < |groups| && g in merged && 0 <= i < |groups[g]| ==>
      groups[g][i].id in store.memories && Marked(groups[g][i], store.memories[groups[g][i].id], merged[g])
  {
    var live := FindModels(store, ws);
    models := live;
    var comps: seq<seq<Memory>>;
    comps, at := C.ConnectedComponents(live, Contents(live), similarity, threshold);
    groups := comps;
    PickedApart(models, at, groups);
    PickedIn(models, at, groups);
    mergedModels, merged := MergeGroups(store, ws, comps, summarise, now);
  }

  method MergeGroups(store: Store, ws: string, groups: seq<seq<Memory>>, summarise: Provider, now: real)
    returns (mergedModels: nat, ghost merged: map<nat, Id>)
    requires store.Valid() && ModelsCover(store.Now()) && ModelGroups(store.Now(), ws, groups)
    modifies store
    ensures store.Valid() && CoverKept(old(store.Now()), store.Now(), ws)
    ensures ScopesKept(old(store.Now()), store.Now(), ws)
    ensures MergedSoFar(old(store.Now()), store.Now(), groups, merged, |groups|)
    ensures NoneSkipped(old(store.Now()), groups, merged, summarise, |groups|)
    ensures mergedModels == |merged|
  {
    ghost var s := store.Now();
    mergedModels, merged := 0, map[];
    for h := 0 to |groups|
      invariant store.Valid() && CoverKept(s, store.Now(), ws) && ScopesKept(s, store.Now(), ws)
      invariant MergedSoFar(s, store.Now(), groups, merged, h) && mergedModels == |merged|
      invariant NoneSkipped(s, groups, merged, summarise, h)
    {
      // a lone model is left alone, so with fewer than two models nothing happens
      if |groups[h]| >= 2 {
        var done;
        done, merged := MergeComponent(store, ws, s, groups, merged, summarise, h, now);
        mergedModels := mergedModels + if done then 1 else 0;
      } else {
        LoneSkipped(s, store.Now(), groups, merged, summarise, h);
      }
    }
  }

  /** A kept group of s consists of live models of t as well. */
  lemma KeptRows(s: State, t: State, ws: string, models: seq<Memory>)
    requires ModelRows(s, ws, models) && GroupKept(s, t, models)
    ensures ModelRows(t, ws, models)
  {
  }

  lemma KeptOnward(s: State, t: State, u: State, ws: string)
    requires CoverKept(s, t, ws) && ScopesKept(s, t, ws) && CoverKept(t, u, ws) && ScopesKept(t, u, ws)
    ensures CoverKept(s, u, ws) && ScopesKept(s, u, ws)
  {
  }

  /** A lone model is left alone. */
  lemma LoneSkipped(s: State, t: State, groups: seq<seq<Memory>>, merged: map<nat, Id>, summarise: Provider, h: nat)
    requires MergedSoFar(s, t, groups, merged, h) && NoneSkipped(s, groups, merged, summarise, h)
    requires h < |groups| && |groups[h]| < 2
    ensures MergedSoFar(s, t, groups, merged, h + 1) && NoneSkipped(s, groups, merged, summarise, h + 1)
  {
  }

  /** Deals with one component of at least two. */
  method MergeComponent(store: Store, ws: string, ghost s: State, groups: seq<seq<Memory>>, ghost merged: map<nat, Id>,
                        summarise: Provider, h: nat, now: real)
    returns (done: bool, ghost merged': map<nat, Id>)
    requires store.Valid() && CoverKept(s, store.Now(), ws) && ScopesKept(s, store.Now(), ws)
    requires MergedSoFar(s, store.Now(), groups, merged, h) && NoneSkipped(s, groups, merged, summarise, h)
    requires ModelGroups(s, ws, groups) && h < |groups| && |groups[h]| >= 2
    modifies store
    ensures store.Valid() && CoverKept(s, store.Now(), ws) && ScopesKept(s, store.Now(), ws)
    ensures MergedSoFar(s, store.Now(), groups, merged', h + 1)
    ensures NoneSkipped(s, groups, merged', summarise, h + 1)
    ensures |merged'| == |merged| + if done then 1 else 0
  {
    ghost var t := store.Now();
    GroupIdsStored(s, ws, groups, h);
    KeptRows(s, t, ws, groups[h]);
    var id := MergeGroup(store, ws, groups[h], summarise, h, now);
    KeptOnward(s, t, store.Now(), ws);
    forall x | MemberOf(s, groups[h], x) ensures MemberOf(t, groups[h], x) { KeptMembers(s, t, groups[h], x); }
    done, merged' := id.Some?, merged;
    if done {
      MergedStep(s, ws, t, store.Now(), groups, merged, h, id.value);
      merged' := merged[h := id.value];
    }
  }

  // ---- The pass ----

  datatype Report = Report(newModels: nat, mergedModels: nat, skipped: bool)

  /** The model's answers in the two halves of a pass. */
  datatype Llm = Llm(extract: Provider, merge: Provider)

  /** What a pass clustered, and how far its two halves got. */
  datatype Trace = Trace(
    cands: seq<Memory>, candAt: seq<seq<nat>>, candGroups: seq<seq<Memory>>, made: map<nat, Id>, mid: State,
    models: seq<Memory>, modelAt: seq<seq<nat>>, modelGroups: seq<seq<Memory>>, merged: map<nat, Id>)

  ghost predicate Extracted(s: State, ws: string, similarity: (string, string) -> real, threshold: real, minSize: int,
                            summarise: Provider, tr: Trace) {
    && ListsTaken(s, ws, tr.cands) && (Scoped(s, ws) ==> ListsCandidates(s, ws, tr.cands))
    && C.Partition(tr.candAt, |tr.cands|) && PickedGroups(tr.cands, tr.candAt, tr.candGroups)
    && C.GroupsAreComponents(tr.candAt, |tr.cands|, C.Near(Contents(tr.cands), similarity, threshold))
    && Outcome(s, tr.mid, tr.candGroups, tr.made, minSize, summarise, |tr.candGroups|)
  }

  ghost predicate Merged(t: State, ws: string, similarity: (string, string) -> real, threshold: real,
                         summarise: Provider, tr: Trace) {
    && ListsModels(tr.mid, ws, tr.models)
    && C.Partition(tr.modelAt, |tr.models|) && PickedGroups(tr.models, tr.modelAt, tr.modelGroups)
    && C.GroupsAreComponents(tr.modelAt, |tr.models|, C.Near(Contents(tr.models), similarity, threshold))
    && MergedSoFar(tr.mid, t, tr.modelGroups, tr.merged, |tr.modelGroups|)
    && NoneSkipped(tr.mid, tr.modelGroups, tr.merged, summarise, |tr.modelGroups|)
  }

  /** One extraction pass: new models from the memories it sees no model of and, on every n-th pass, a merge. cycles
      is the stored pass counter, absent or unreadable when None. Whatever the provider answers, no memory loses its
      cover and no retired model keeps a valid edge; no memory ends up with two models if and only if no chosen
      cluster held a covered one, as is so in a scope in order. */
  method ExtractL5(store: Store, ws: string, similarity: (string, string) -> real, clusterAt: real, mergeAt: real,
                   minSize: int, mergeEvery: int, cycles: Option<int>, llm: Option<Llm>, now: real)
    returns (report: Report, cycles': Option<int>, ghost tr: Trace)
    requires store.Valid() && CoverInv(store.Now())
    modifies store
    ensures store.Valid() && ModelsCover(store.Now())
    ensures llm.Some? ==> (CoverInv(store.Now()) <==>
      TakesUncovered(old(store.Now()), tr.candGroups, minSize, llm.value.extract, |tr.candGroups|))
    ensures old(Scoped(store.Now(), ws)) ==> CoverInv(store.Now()) && Scoped(store.Now(), ws)
    ensures ScopesKept(old(store.Now()), store.Now(), ws)
    ensures forall x :: old(Covered(store.Now(), x)) ==> Covered(store.Now(), x)
    ensures report.skipped <==> llm.None?
    ensures llm.None? ==> store.Now() == old(store.Now()) && cycles' == cycles
    ensures llm.Some? ==> Extracted(old(store.Now()), ws, similarity, clusterAt, minSize, llm.value.extract, tr)
    ensures llm.Some? ==> report.newModels == |tr.made| && report.mergedModels == |tr.merged|
    // the counter runs 1, 2, .., n - 1, 0 and a merge comes with each 0
    ensures llm.Some? && 0 < mergeEvery <= (if cycles.Some? then cycles.value + 1 else 1) ==>
      cycles' == Some(0) && Merged(store.Now(), ws, similarity, mergeAt, llm.value.merge, tr)
    ensures llm.Some? && !(0 < mergeEvery <= (if cycles.Some? then cycles.value + 1 else 1)) ==>
      && store.Now() == tr.mid && tr.merged == map[]
      && cycles' == if mergeEvery > 0 then Some(if cycles.Some? then cycles.value + 1 else 1) else cycles
  {
    tr := Trace([], [], [], map[], store.Now(), [], [], [], map[]);
    if llm.None? {
      return Report(0, 0, true), cycles, tr;
    }
    var newModels;
    newModels, tr := ExtractHalf(store, ws, similarity, clusterAt, minSize, llm.value.extract, now);
    report, cycles' := Report(newModels, 0, false), cycles;
    if mergeEvery > 0 {
      var counter := Tick(cycles);
      if counter >= mergeEvery {
        cycles' := Some(0);
        var mergedModels;
        mergedModels, tr := MergeHalf(store, ws, similarity, mergeAt, llm.value.merge, now, tr);
        report := Report(newModels, mergedModels, false);
        if Twice(tr.mid, ws) {
          TwiceIsTooOften(store.Now(), ws);
        }
      } else {
        cycles' := Some(counter);
      }
    }
  }

  method ExtractHalf(store: Store, ws: string, similarity: (string, string) -> real, threshold: real, minSize: int,
                     summarise: Provider, now: real)
    returns (newModels: nat, ghost tr: Trace)
    requires store.Valid() && CoverInv(store.Now())
    modifies store
    ensures store.Valid() && ModelsCover(store.Now()) && tr.mid == store.Now() && tr.merged == map[]
    ensures CoverInv(store.Now()) <==>
      TakesUncovered(old(store.Now()), tr.candGroups, minSize, summarise, |tr.candGroups|)
    ensures !CoverInv(store.Now()) ==> Twice(store.Now(), ws)
    ensures old(Scoped(store.Now(), ws)) ==> CoverInv(store.Now())
    ensures ScopesKept(old(store.Now()), store.Now(), ws)
    ensures forall x :: old(Covered(store.Now(), x)) ==> Covered(store.Now(), x)
    ensures Extracted(old(store.Now()), ws, similarity, threshold, minSize, summarise, tr) && newModels == |tr.made|
  {
    ghost var cands, candAt, candGroups, made;
    newModels, cands, candAt, candGroups, made :=
      ExtractClusters(store, ws, similarity, threshold, minSize, summarise, now);
    tr := Trace(cands, candAt, candGroups, made, store.Now(), [], [], [], map[]);
  }

  method MergeHalf(store: Store, ws: string, similarity: (string, string) -> real, threshold: real,
                   summarise: Provider, now: real, ghost tr: Trace)
    returns (mergedModels: nat, ghost tr': Trace)
    requires store.Valid() && ModelsCover(store.Now()) && tr.mid == store.Now()
    modifies store
    ensures store.Valid() && CoverKept(tr.mid, store.Now(), ws) && ScopesKept(tr.mid, store.Now(), ws)
    ensures Merged(store.Now(), ws, similarity, threshold, summarise, tr') && mergedModels == |tr'.merged|
    ensures tr' == tr.(models := tr'.models, modelAt := tr'.modelAt, modelGroups := tr'.modelGroups, merged := tr'.merged)
  {
    ghost var models, modelAt, modelGroups, merged;
    mergedModels, models, modelAt, modelGroups, merged := MergeL5(store, ws, similarity, threshold, summarise, now);
    tr' := tr.(models := models, modelAt := modelAt, modelGroups := modelGroups, merged := merged);
  }

  function Tick(cycles: Option<int>): int {
    if cycles.Some? then cycles.value + 1 else 1
  }
}
