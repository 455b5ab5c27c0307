/** One consolidation pass: a batch of unstamped episodes, oldest first; a verdict for each, its effect on
    the semantic layer, and the stamp that keeps later passes from taking the episode again. */
module Consolidate {
  import opened Wrappers
  import opened Sorting
  import opened Graph
  import opened Backlogs
  import W = Worker

  /** A verdict; a model may also answer with a word that is none of the four. */
  datatype Action = Add | Update | Delete | Noop | Other(word: string)

  datatype Similar = Similar(memory: Memory, sim: real)

  predicate IsConsolidated(m: Memory) {
    m.consolidatedAt.Some? && m.consolidatedAt.value > 0.0
  }

  /** NOOP exactly when there is a fact of the same content, else UPDATE exactly when the nearest one is close. */
  ghost predicate OfflineVerdict(candidate: string, candidateHash: string, similar: seq<Similar>, threshold: real,
                                 action: Action, newText: string) {
    && (action == Noop <==> exists i :: 0 <= i < |similar| && SameContent(similar[i], candidateHash))
    && (action == Update <==> action != Noop && similar != [] && similar[0].sim >= threshold)
    && (action == Add <==> action != Noop && action != Update) && newText == (if action == Update then candidate else "")
  }

  /** The classifier used when there is no model: a fact with the same content is not added again, a close
      one is updated. */
  method OfflineClassify(candidate: string, candidateHash: string, similar: seq<Similar>, threshold: real)
    returns (action: Action, newText: string)
    ensures OfflineVerdict(candidate, candidateHash, similar, threshold, action, newText)
  {
    for i := 0 to |similar|
      invariant forall j :: 0 <= j < i ==> !SameContent(similar[j], candidateHash)
    {
      if similar[i].memory.contentHash != "" && similar[i].memory.contentHash == candidateHash {
        assert SameContent(similar[i], candidateHash);
        return Noop, "";
      }
    }
    if |similar| > 0 && similar[0].sim >= threshold {
      return Update, candidate;
    }
    return Add, "";
  }

  predicate SameContent(s: Similar, hash: string) {
    s.memory.contentHash != "" && s.memory.contentHash == hash
  }

  // ---- Selection ----

  predicate IsEpisode(s: State, ws: string, id: Id) {
    id in s.memories && Selected(s.memories[id], ws, Some(Episodic), None)
  }

  predicate IsDue(m: Memory, since: real) {
    !IsConsolidated(m) && (since != 0.0 ==> m.createdAt >= since)
  }

  predicate IsPending(s: State, ws: string, since: real, id: Id) {
    IsEpisode(s, ws, id) && IsDue(s.memories[id], since)
  }

  /** The backlog: unstamped episodes with their creation times. */
  function Backlog(s: State, ws: string, since: real): map<Id, real> {
    map id | id in s.memories && IsPending(s, ws, since, id) :: s.memories[id].createdAt
  }

  ghost function StampedEpisodes(s: State, ws: string): set<Id> {
    set id | id in s.memories && IsEpisode(s, ws, id) && IsConsolidated(s.memories[id])
  }

  /** The ids of the stamped ones among the first n episodes. */
  ghost predicate StampedAmong(episodes: seq<Memory>, n: nat, stamped: set<Id>)
    requires n <= |episodes|
  {
    forall id :: id in stamped <==> exists j :: 0 <= j < n && episodes[j].id == id && IsConsolidated(episodes[j])
  }

  lemma StampedAmongNext(episodes: seq<Memory>, n: nat, stamped: set<Id>)
    requires n < |episodes| && StampedAmong(episodes, n, stamped)
    requires forall i, j :: 0 <= i < j < |episodes| ==> episodes[i].id != episodes[j].id
    ensures episodes[n].id !in stamped
    ensures IsConsolidated(episodes[n]) ==> StampedAmong(episodes, n + 1, stamped + {episodes[n].id})
    ensures !IsConsolidated(episodes[n]) ==> StampedAmong(episodes, n + 1, stamped)
  {
  }

  lemma AllStamped(s: State, ws: string, episodes: seq<Memory>, stamped: set<Id>)
    requires StampedAmong(episodes, |episodes|, stamped)
    requires forall m {:trigger m in episodes} :: m in episodes <==>
      m.id in s.memories && s.memories[m.id] == m && Selected(m, ws, Some(Episodic), None)
    requires forall id :: id in s.memories ==> s.memories[id].id == id
    ensures stamped == StampedEpisodes(s, ws)
  {
    forall id ensures id in stamped <==> id in StampedEpisodes(s, ws) {
      if id in StampedEpisodes(s, ws) {
        assert s.memories[id] in episodes;
      }
      if j :| 0 <= j < |episodes| && episodes[j].id == id && IsConsolidated(episodes[j]) {
        assert episodes[j] in episodes;
      }
    }
  }

  /** The pending ones among the first n episodes, in order. */
  ghost predicate PendingAmong(episodes: seq<Memory>, n: nat, since: real, pending: seq<Memory>)
    requires n <= |episodes|
  {
    && (forall m :: m in pending <==> exists j :: 0 <= j < n && episodes[j] == m && IsDue(m, since))
    && (forall i, j :: 0 <= i < j < |pending| ==> pending[i].id != pending[j].id)
  }

  lemma PendingAmongNext(episodes: seq<Memory>, n: nat, since: real, pending: seq<Memory>)
    requires n < |episodes| && PendingAmong(episodes, n, since, pending)
    requires forall i, j :: 0 <= i < j < |episodes| ==> episodes[i].id != episodes[j].id
    ensures IsDue(episodes[n], since) ==> PendingAmong(episodes, n + 1, since, pending + [episodes[n]])
    ensures !IsDue(episodes[n], since) ==> PendingAmong(episodes, n + 1, since, pending)
  {
    forall i | 0 <= i < |pending| ensures pending[i].id != episodes[n].id {
      assert pending[i] in pending;
    }
  }

  /** Drops the stamped episodes, counting them, and those too old. */
  method DropStamped(episodes: seq<Memory>, since: real)
    returns (pending: seq<Memory>, skipped: nat, ghost stamped: set<Id>)
    requires forall i, j :: 0 <= i < j < |episodes| ==> episodes[i].id != episodes[j].id
    ensures PendingAmong(episodes, |episodes|, since, pending)
    ensures StampedAmong(episodes, |episodes|, stamped) && skipped == |stamped|
  {
    pending, skipped, stamped := [], 0, {};
    for i := 0 to |episodes|
      invariant PendingAmong(episodes, i, since, pending)
      invariant StampedAmong(episodes, i, stamped) && skipped == |stamped|
    {
      StampedAmongNext(episodes, i, stamped);
      PendingAmongNext(episodes, i, since, pending);
      if IsConsolidated(episodes[i]) {
        skipped, stamped := skipped + 1, stamped + {episodes[i].id};
      } else if since == 0.0 || episodes[i].createdAt >= since {
        pending := pending + [episodes[i]];
      }
    }
  }

  /** The unstamped episodes; also how many stamped ones were passed over. */
  method FindPending(store: Store, ws: string, since: real) returns (pending: seq<Memory>, skipped: nat)
    requires store.Valid()
    ensures Rows(store.Now(), pending)
    ensures forall m :: m in pending ==> IsPending(store.Now(), ws, since, m.id)
    ensures forall id :: IsPending(store.Now(), ws, since, id) ==> store.memories[id] in pending
    ensures forall m :: m in pending <==>
      && m.id in store.memories && store.memories[m.id] == m && m.layer == Episodic
      && (ws == "" || m.workspace == ws)
      && (m.consolidatedAt.None? || m.consolidatedAt.value <= 0.0)
      && (since == 0.0 || m.createdAt >= since)
    ensures skipped == |StampedEpisodes(store.Now(), ws)|
    ensures forall id :: id in StampedEpisodes(store.Now(), ws) <==>
      && id in store.memories && store.memories[id].layer == Episodic && (ws == "" || store.memories[id].workspace == ws)
      && store.memories[id].consolidatedAt.Some? && store.memories[id].consolidatedAt.value > 0.0
  {
    ghost var s := store.Now();
    var episodes := store.IterMemories(ws, Some(Episodic), None);
    ghost var stamped;
    pending, skipped, stamped := DropStamped(episodes, since);
    AllStamped(s, ws, episodes, stamped);
    AllPending(s, ws, since, episodes, pending);
    forall m ensures m in pending <==> m.id in s.memories && s.memories[m.id] == m && IsPending(s, ws, since, m.id) {
      PendingRow(s, ws, since, pending, m);
    }
  }

  lemma PendingRow(s: State, ws: string, since: real, pending: seq<Memory>, m: Memory)
    requires Rows(s, pending)
    requires forall m :: m in pending ==> IsPending(s, ws, since, m.id)
    requires forall id :: IsPending(s, ws, since, id) ==> s.memories[id] in pending
    ensures m in pending <==> m.id in s.memories && s.memories[m.id] == m && IsPending(s, ws, since, m.id)
  {
    if m in pending {
      var i :| 0 <= i < |pending| && pending[i] == m;
    }
  }

  lemma AllPending(s: State, ws: string, since: real, episodes: seq<Memory>, pending: seq<Memory>)
    requires PendingAmong(episodes, |episodes|, since, pending)
    requires forall m {:trigger m in episodes} :: m in episodes <==>
      m.id in s.memories && s.memories[m.id] == m && Selected(m, ws, Some(Episodic), None)
    requires forall id :: id in s.memories ==> s.memories[id].id == id
    ensures Rows(s, pending)
    ensures forall m :: m in pending ==> IsPending(s, ws, since, m.id)
    ensures forall id :: IsPending(s, ws, since, id) ==> s.memories[id] in pending
  {
    forall m | m in pending ensures m in episodes && IsDue(m, since) {
      var j :| 0 <= j < |episodes| && episodes[j] == m && IsDue(m, since);
      assert episodes[j] in episodes;
    }
    forall i | 0 <= i < |pending| ensures pending[i].id in s.memories && s.memories[pending[i].id] == pending[i] {
      assert pending[i] in pending;
    }
    forall id | IsPending(s, ws, since, id) ensures s.memories[id] in pending {
      assert s.memories[id] in episodes;
      var j :| 0 <= j < |episodes| && episodes[j] == s.memories[id];
      assert IsDue(episodes[j], since);
    }
  }

  /** The oldest unstamped episodes, at most 500. */
  method SelectBatch(store: Store, ws: string, since: real) returns (batch: seq<Memory>, skipped: nat)
    requires store.Valid()
    ensures skipped == |StampedEpisodes(store.Now(), ws)|
    ensures Rows(store.Now(), batch)
    ensures W.IsBatch(Backlog(store.Now(), ws, since), Ids(batch))
    ensures forall i :: 0 <= i < |batch| ==> IsPending(store.Now(), ws, since, batch[i].id)
  {
    var pending;
    pending, skipped := FindPending(store, ws, since);
    batch := Oldest(pending, W.BATCH_SIZE);
    PendingListed(store.Now(), ws, since, pending);
    OldestIsOldest(store.Now(), Backlog(store.Now(), ws, since), pending, W.BATCH_SIZE);
  }

  lemma PendingListed(s: State, ws: string, since: real, pending: seq<Memory>)
    requires WellFormed(s) && Rows(s, pending)
    requires forall m :: m in pending ==> IsPending(s, ws, since, m.id)
    requires forall id :: IsPending(s, ws, since, id) ==> s.memories[id] in pending
    ensures AgesListed(s, Backlog(s, ws, since), pending)
  {
  }

  // ---- Provenance ----

  /** An operates_on link, in whichever direction it was written. */
  ghost predicate OperatesWith(s: State, ep: Id, r: Id) {
    HasLive(s, ep, OPERATES_ON, r) || HasLive(s, r, OPERATES_ON, ep)
  }

  /** The links a fact gets from its episode: to the episode, and to what that operates on. */
  ghost predicate ProvenanceLink(s: State, ep: Id, relation: string, dst: Id) {
    (relation == "produced_from" && dst == ep) || (relation == "operates_on" && OperatesWith(s, ep, dst))
  }

  /** The valid links of t are those of s and the provenance of the fact. */
  ghost predicate Provenance(s: State, t: State, fact: Id, ep: Id) {
    forall a, relation, b :: HasLive(t, a, relation, b) <==>
      HasLive(s, a, relation, b) || (a == fact && ProvenanceLink(s, ep, relation, b))
  }

  lemma PutEdgeLinks(s: State, e: Edge, src: Id, relation: string, dst: Id)
    requires WellFormed(s) && WellFormedEdge(s, e.id, e) && e.id.Projected? && e.validTo.None?
    ensures HasLive(PutEdgeIn(s, e), src, relation, dst) <==>
      HasLive(s, src, relation, dst) || (src == e.src && relation == e.relation && dst == e.dst)
  {
    var t := PutEdgeIn(s, e);
    assert IsLive(t, e.id, e.src, e.relation, e.dst);
    if k :| IsLive(s, k, src, relation, dst) {
      assert IsLive(t, k, src, relation, dst);
    }
    if k :| IsLive(t, k, src, relation, dst) {
      assert k != e.id ==> IsLive(s, k, src, relation, dst);
    }
  }

  function Opposite(e: Edge, ep: Id): Id {
    if e.src != ep then e.src else e.dst
  }

  /** The links of s, that to the episode, and those for the first n of its edges. */
  ghost predicate LinkedTo(s: State, t: State, fact: Id, ep: Id, edges: seq<Edge>, n: nat)
    requires n <= |edges|
  {
    forall a, relation, b :: HasLive(t, a, relation, b) <==>
      || HasLive(s, a, relation, b)
      || (a == fact && relation == PRODUCED_FROM && b == ep)
      || (a == fact && relation == OPERATES_ON && exists j :: 0 <= j < n && Opposite(edges[j], ep) == b)
  }

  lemma LinkedStart(s: State, e: Edge, t: State, edges: seq<Edge>)
    requires WellFormed(s) && WellFormedEdge(s, e.id, e) && e.id.Projected? && e.validTo.None?
    requires e.relation == PRODUCED_FROM && t == PutEdgeIn(s, e)
    ensures LinkedTo(s, t, e.src, e.dst, edges, 0)
  {
    forall a, relation, b { PutEdgeLinks(s, e, a, relation, b); }
  }

  lemma LinkedNext(s: State, t: State, u: State, fact: Id, ep: Id, edges: seq<Edge>, n: nat, e: Edge)
    requires n < |edges| && LinkedTo(s, t, fact, ep, edges, n) && WellFormed(t)
    requires e.id.Projected? && e.validTo.None? && WellFormedEdge(t, e.id, e) && u == PutEdgeIn(t, e)
    requires e.src == fact && e.relation == OPERATES_ON && e.dst == Opposite(edges[n], ep)
    ensures LinkedTo(s, u, fact, ep, edges, n + 1)
  {
    forall a, relation, b { PutEdgeLinks(t, e, a, relation, b); }
  }

  /** The edges listed at the episode are what it operates with. */
  lemma OperatesListed(t: State, ep: Id, edges: seq<Edge>, r: Id)
    requires WellFormed(t)
    requires forall e {:trigger e in edges} :: e in edges <==>
      e.id in t.edges && t.edges[e.id] == e && e.validTo.None? && Touches(e, ep) && e.relation == OPERATES_ON
    ensures OperatesWith(t, ep, r) <==> exists j :: 0 <= j < |edges| && Opposite(edges[j], ep) == r
  {
    if k :| IsLive(t, k, ep, OPERATES_ON, r) {
      assert t.edges[k] in edges;
    }
    if k :| IsLive(t, k, r, OPERATES_ON, ep) {
      assert t.edges[k] in edges;
    }
    if j :| 0 <= j < |edges| && Opposite(edges[j], ep) == r {
      var e := edges[j];
      assert e in edges;
      assert IsLive(t, e.id, e.src, OPERATES_ON, e.dst);
    }
  }

  lemma LinkedToAll(s: State, t: State, u: State, fact: Id, ep: Id, edges: seq<Edge>)
    requires LinkedTo(s, t, fact, ep, edges, |edges|)
    requires forall r :: OperatesWith(u, ep, r) <==> exists j :: 0 <= j < |edges| && Opposite(edges[j], ep) == r
    requires forall r :: OperatesWith(u, ep, r) <==> OperatesWith(s, ep, r)
    ensures Provenance(s, t, fact, ep)
  {
    forall a, relation, b
      ensures HasLive(t, a, relation, b) <==>
        HasLive(s, a, relation, b) || (a == fact && ProvenanceLink(s, ep, relation, b))
    {
      assert OperatesWith(u, ep, b) <==> OperatesWith(s, ep, b);
    }
  }

  /** Projects the provenance of a new fact from its episode. */
  method ProjectProvenance(store: Store, fact: Id, ep: Id, now: real)
    requires store.Valid() && fact in store.memories && ep in store.memories
    modifies store`edges
    ensures store.Valid()
    ensures Provenance(old(store.Now()), store.Now(), fact, ep)
  {
    ghost var s := store.Now();
    var e := Edge(Projected(fact, PRODUCED_FROM, ep), fact, PRODUCED_FROM, ep, now, None);
    store.PutEdge(e);
    ghost var t := store.Now();
    var neighbors := store.Neighbors(ep, OPERATES_ON);
    LinkedStart(s, e, t, neighbors);
    for i := 0 to |neighbors|
      invariant store.Valid() && store.memories == s.memories
      invariant LinkedTo(s, store.Now(), fact, ep, neighbors, i)
    {
      assert neighbors[i] in neighbors;
      var dst := Opposite(neighbors[i], ep);
      ghost var u := store.Now();
      var pe := Edge(Projected(fact, OPERATES_ON, dst), fact, OPERATES_ON, dst, now, None);
      store.PutEdge(pe);
      LinkedNext(s, u, store.Now(), fact, ep, neighbors, i, pe);
    }
    forall r { OperatesListed(t, ep, neighbors, r); }
    forall r ensures OperatesWith(t, ep, r) <==> OperatesWith(s, ep, r) {
      PutEdgeLinks(s, e, ep, OPERATES_ON, r);
      PutEdgeLinks(s, e, r, OPERATES_ON, ep);
    }
    LinkedToAll(s, store.Now(), t, fact, ep, neighbors);
  }

  // ---- One episode ----

  predicate Usable(s: State, ws: string, h: Hit) {
    h.similarity >= 0.1 && h.id in s.memories && s.memories[h.id].workspace == ws && s.memories[h.id].layer == Semantic
  }

  predicate NotFarther(a: Similar, b: Similar) {
    a.sim >= b.sim
  }

  predicate IsSimilarRow(s: State, ws: string, x: Similar) {
    var m := x.memory;
    m.id in s.memories && s.memories[m.id] == m && m.workspace == ws && m.layer == Semantic
  }

  /** Rows of the semantic layer of the workspace, nearest first. */
  ghost predicate SimilarRows(s: State, ws: string, similar: seq<Similar>) {
    (forall i :: 0 <= i < |similar| ==> IsSimilarRow(s, ws, similar[i])) && Sorted(NotFarther, similar)
  }

  /** The rows of the usable hits with their similarities, in the order of the hits. */
  function Similars(s: State, ws: string, hits: seq<Hit>): seq<Similar> {
    if hits == [] then []
    else
      var last := hits[|hits| - 1];
      Similars(s, ws, hits[..|hits| - 1]) +
      if Usable(s, ws, last) then [Similar(s.memories[last.id], last.similarity)] else []
  }

  /** similar lists them nearest first, those equally near in the order of the hits. */
  ghost predicate Found(s: State, ws: string, hits: seq<Hit>, similar: seq<Similar>) {
    similar == Sort(NotFarther, Similars(s, ws, hits))
  }

  lemma {:induction false} SimilarsAreRows(s: State, ws: string, hits: seq<Hit>)
    requires WellFormed(s)
    ensures forall x :: x in Similars(s, ws, hits) ==> IsSimilarRow(s, ws, x)
  {
    if hits != [] {
      SimilarsAreRows(s, ws, hits[..|hits| - 1]);
    }
  }

  lemma FoundRows(s: State, ws: string, hits: seq<Hit>, similar: seq<Similar>)
    requires WellFormed(s) && Found(s, ws, hits, similar)
    ensures SimilarRows(s, ws, similar)
  {
    NearestFirst(Similars(s, ws, hits));
    SimilarsAreRows(s, ws, hits);
    forall i | 0 <= i < |similar| ensures IsSimilarRow(s, ws, similar[i]) {
      assert similar[i] in similar;
    }
  }

  /** A row of the semantic layer of the workspace with the similarity of its hit, one of 0.1 at least. */
  ghost predicate OfHit(s: State, ws: string, hits: seq<Hit>, x: Similar) {
    && x.memory.id in s.memories && s.memories[x.memory.id] == x.memory
    && x.memory.workspace == ws && x.memory.layer == Semantic && x.sim >= 0.1
    && exists k :: 0 <= k < |hits| && hits[k] == Hit(x.memory.id, x.sim)
  }

  lemma {:induction false} SimilarsOfHits(s: State, ws: string, hits: seq<Hit>)
    requires WellFormed(s)
    ensures forall x :: x in Similars(s, ws, hits) <==> OfHit(s, ws, hits, x)
  {
    if hits != [] {
      var n := |hits| - 1;
      SimilarsOfHits(s, ws, hits[..n]);
      forall x ensures x in Similars(s, ws, hits) <==> OfHit(s, ws, hits, x) { OfLastHit(s, ws, hits, x); }
    }
  }

  lemma OfLastHit(s: State, ws: string, hits: seq<Hit>, x: Similar)
    requires WellFormed(s) && hits != []
    requires x in Similars(s, ws, hits[..|hits| - 1]) <==> OfHit(s, ws, hits[..|hits| - 1], x)
    ensures x in Similars(s, ws, hits) <==> OfHit(s, ws, hits, x)
  {
    var n := |hits| - 1;
    if OfHit(s, ws, hits, x) {
      var k :| 0 <= k < |hits| && hits[k] == Hit(x.memory.id, x.sim);
      assert k < n ==> hits[..n][k] == hits[k];
    }
    if OfHit(s, ws, hits[..n], x) {
      var k :| 0 <= k < n && hits[..n][k] == Hit(x.memory.id, x.sim);
      assert hits[k] == hits[..n][k];
    }
  }

  /** The facts among the hits of a vector search, nearest first. */
  method FindSimilar(store: Store, ws: string, hits: seq<Hit>) returns (similar: seq<Similar>)
    requires store.Valid()
    ensures Found(store.Now(), ws, hits, similar) && SimilarRows(store.Now(), ws, similar)
    ensures forall x :: x in similar <==> OfHit(store.Now(), ws, hits, x)
    ensures forall i, j :: 0 <= i < j < |similar| ==> similar[i].sim >= similar[j].sim
  {
    ghost var s := store.Now();
    var found: seq<Similar> := [];
    for i := 0 to |hits|
      invariant found == Similars(s, ws, hits[..i])
    {
      assert hits[..i + 1][..i] == hits[..i];
      if hits[i].similarity >= 0.1 {
        var m := store.GetMemory(hits[i].id);
        if m.Some? && m.value.workspace == ws && m.value.layer == Semantic {
          found := found + [Similar(m.value, hits[i].similarity)];
        }
      }
    }
    assert hits[..|hits|] == hits;
    similar := Sort(NotFarther, found);
    FoundRows(s, ws, hits, similar);
    NearestFirst(found);
    SimilarsOfHits(s, ws, hits);
    assert forall i, j :: 0 <= i < j < |similar| ==> NotFarther(similar[i], similar[j]);
  }

  lemma NearestFirst(found: seq<Similar>)
    ensures Sorted(NotFarther, Sort(NotFarther, found))
    ensures forall x :: x in Sort(NotFarther, found) <==> x in found
  {
    assert TotalPreorder(NotFarther);
    SortCorrect(NotFarther, found);
    forall x ensures x in Sort(NotFarther, found) <==> x in found {
      assert x in multiset(Sort(NotFarther, found)) <==> x in multiset(found);
    }
  }

  function Or(a: string, b: string): string {
    if a != "" then a else b
  }

  /** The fact an ADD makes of an episode: its metadata and tags go along, and it names the episode. */
  function FactOf(ep: Memory, id: Id, ws: string, content: string, hash: string -> string, now: real): Memory {
    ep.(id := id, layer := Semantic, typ := Fact, workspace := Or(ws, "default"), content := content, contentHash := hash(content),
        summary := Or(ep.summary, Truncate(content, 80)), source := "consolidate", createdAt := now,
        sourceEpisode := ep.id)
  }

  /** row says what the verdict on the episode says, or, when that has no text, what the episode says. */
  ghost predicate Says(row: Memory, ep: Memory, newText: string, hash: string -> string) {
    && (newText != "" ==> row.content == newText) && (newText == "" ==> row.content == ep.content)
    && row.contentHash == hash(row.content) && row.sourceEpisode == ep.id
  }

  /** What an ADD stores: a fact of the workspace that says this, with the episode's tags and metadata. */
  ghost predicate AddedRow(ep: Memory, row: Memory, ws: string, newText: string, hash: string -> string, now: real) {
    && Says(row, ep, newText, hash)
    && row.layer == Semantic && row.typ == Fact && row.source == "consolidate" && row.createdAt == now
    && row.workspace == (if ws == "" then "default" else ws)
    && (ep.summary != "" ==> row.summary == ep.summary)
    && (ep.summary == "" ==> row.summary == if |row.content| <= 80 then row.content else row.content[..80])
    && row.tags == ep.tags && row.aliases == ep.aliases && row.filePath == ep.filePath
    && row.updatedFrom == ep.updatedFrom && row.supersededBy == ep.supersededBy && row.superseded == ep.superseded
    && row.consolidatedAt == ep.consolidatedAt && row.validTo == ep.validTo
  }

  /** What an UPDATE stores: the nearest fact, saying this now. */
  ghost predicate MergedRow(target: Memory, ep: Memory, row: Memory, newText: string, hash: string -> string) {
    && Says(row, ep, newText, hash) && row.updatedFrom == target.id
    && row.summary == (if ep.summary != "" then ep.summary else target.summary)
    && row.(id := target.id, content := target.content, contentHash := target.contentHash, summary := target.summary,
            sourceEpisode := target.sourceEpisode, updatedFrom := target.updatedFrom) == target
  }

  /** ADD: a new fact, with its provenance. */
  method AddFact(store: Store, ws: string, ep: Memory, newText: string, hash: string -> string, now: real)
    returns (fact: Id)
    requires store.Valid() && ep.id in store.memories
    modifies store
    ensures store.Valid()
    ensures fact !in old(store.memories)
    ensures store.memories ==
      old(store.memories)[fact := FactOf(ep, fact, ws, Or(newText, ep.content), hash, now)]
    ensures AddedRow(ep, store.memories[fact], ws, newText, hash, now)
    ensures Provenance(old(store.Now()), store.Now(), fact, ep.id)
  {
    ghost var s := store.Now();
    fact := store.NewId();
    store.PutMemory(FactOf(ep, fact, ws, Or(newText, ep.content), hash, now));
    ghost var t := store.Now();
    ProjectProvenance(store, fact, ep.id, now);
    ProvenanceFrom(s, t, store.Now(), fact, ep.id);
  }

  /** Rows do not matter to links. */
  lemma ProvenanceFrom(s: State, t: State, u: State, fact: Id, ep: Id)
    requires s.edges == t.edges && Provenance(t, u, fact, ep)
    ensures Provenance(s, u, fact, ep)
  {
    forall a, relation, b ensures HasLive(s, a, relation, b) <==> HasLive(t, a, relation, b) {
      forall e ensures IsLive(s, e, a, relation, b) <==> IsLive(t, e, a, relation, b) {}
    }
  }

  /** The fact an UPDATE makes of the nearest one: its text and summary are the episode's, and it names both. */
  function MergedFact(target: Memory, ep: Memory, id: Id, content: string, hash: string -> string): Memory {
    target.(id := id, content := content, contentHash := hash(content), summary := Or(ep.summary, target.summary),
            sourceEpisode := ep.id, updatedFrom := target.id)
  }

  /** The valid links after an UPDATE: target's are gone but for the one to its successor, the new fact, which
      has its provenance. */
  ghost predicate LinksReplaced(s: State, t: State, fact: Id, ep: Id, target: Id) {
    forall a, relation, b :: HasLive(t, a, relation, b) <==>
      || (HasLive(s, a, relation, b) && a != target && b != target)
      || (a == target && relation == SUPERSEDES && b == fact)
      || (a == fact && ProvenanceLink(s, ep, relation, b) && b != target)
  }

  lemma ReplacedFrom(s: State, m: Memory, fact: Id, now: real, edge: EdgeId, ep: Id, t: State, u: State, v: State)
    requires s.edges == t.edges && CanRetire(t, m, fact, edge) && u == RetireIn(t, m, fact, now, edge)
    requires fact != "" && ep != m.id && Provenance(u, v, fact, ep)
    ensures LinksReplaced(s, v, fact, ep, m.id)
  {
    forall a, relation, b ensures HasLive(s, a, relation, b) <==> HasLive(t, a, relation, b) {
      forall e ensures IsLive(s, e, a, relation, b) <==> IsLive(t, e, a, relation, b) {}
    }
    forall a, relation, b
      ensures HasLive(v, a, relation, b) <==>
        || (HasLive(s, a, relation, b) && a != m.id && b != m.id)
        || (a == m.id && relation == SUPERSEDES && b == fact)
        || (a == fact && ProvenanceLink(s, ep, relation, b) && b != m.id)
    {
      LinksAfterRetire(t, m, fact, now, edge, a, relation, b);
      LinksAfterRetire(t, m, fact, now, edge, ep, OPERATES_ON, b);
      LinksAfterRetire(t, m, fact, now, edge, b, OPERATES_ON, ep);
    }
  }

  /** UPDATE: the nearest fact is replaced by a merged one and retired in its favour. */
  method UpdateFact(store: Store, ep: Memory, target: Memory, newText: string, hash: string -> string, now: real)
    returns (fact: Id)
    requires store.Valid() && ep.id in store.memories && ep.layer == Episodic && store.memories[ep.id] == ep
    requires target.id in store.memories && store.memories[target.id] == target && target.layer == Semantic
    modifies store
    ensures store.Valid()
    ensures fact !in old(store.memories)
    ensures store.memories ==
      old(store.memories)[fact := MergedFact(target, ep, fact, Or(newText, ep.content), hash)]
                         [target.id := MarkRetired(target, fact)]
    ensures MergedRow(target, ep, store.memories[fact], newText, hash)
    ensures Marked(target, store.memories[target.id], fact)
    ensures LinksReplaced(old(store.Now()), store.Now(), fact, ep.id, target.id)
  {
    ghost var s := store.Now();
    fact := store.NewId();
    store.PutMemory(MergedFact(target, ep, fact, Or(newText, ep.content), hash));
    ghost var t := store.Now();
    var _, edge := store.Retire(target, fact, now);
    ghost var u := store.Now();
    ProjectProvenance(store, fact, ep.id, now);
    ReplacedFrom(s, target, fact, now, edge, ep.id, t, u, store.Now());
  }

  // ---- The pass ----

  /** A model's answer on the i-th episode of a pass; None is an error, which ends the pass. */
  type Classifier = (nat, string, seq<string>) -> Option<(Action, string)>

  function Texts(similar: seq<Similar>): (r: seq<string>)
    ensures |r| == |similar| && forall i :: 0 <= i < |similar| ==> r[i] == similar[i].memory.content
  {
    seq(|similar|, i requires 0 <= i < |similar| => similar[i].memory.content)
  }

  datatype Settings = Settings(ws: string, llm: Option<Classifier>, threshold: real, hash: string -> string)

  /** t is s after the verdict and, unless the episode was passed over, its stamp. */
  ghost predicate Processed(s: State, t: State, ep: Id, stamped: bool, now: real) {
    && ep in s.memories && ep in t.memories
    && t.memories[ep] == (if stamped then s.memories[ep].(consolidatedAt := Some(now)) else s.memories[ep])
    && (forall id :: id in s.memories ==> id in t.memories && t.memories[id].layer == s.memories[id].layer)
    && (forall id :: id in s.memories && s.memories[id].layer == Episodic && id != ep ==> t.memories[id] == s.memories[id])
    && (forall id :: id in t.memories && id !in s.memories ==> t.memories[id].layer != Episodic)
  }

  /** What one episode led to. fact is the new fact, if any, effect the state before the stamp. */
  datatype Outcome = Outcome(similar: seq<Similar>, action: Action, newText: string, fact: Id, effect: State)

  /** An UPDATE with nothing to update: no effect, and no stamp either. */
  predicate PassedOver(d: Outcome) {
    d.action == Update && d.similar == []
  }

  ghost predicate LinksClosed(s: State, t: State, id: Id) {
    forall a, relation, b :: HasLive(t, a, relation, b) <==> HasLive(s, a, relation, b) && a != id && b != id
  }

  /** What the verdict did: rows and valid links. */
  ghost predicate TookEffect(s: State, cfg: Settings, ep: Memory, d: Outcome, now: real) {
    var t, text := d.effect, Or(d.newText, ep.content);
    match d.action
    case Add =>
      && d.fact !in s.memories
      && t.memories == s.memories[d.fact := FactOf(ep, d.fact, cfg.ws, text, cfg.hash, now)]
      && Provenance(s, t, d.fact, ep.id)
    case Update =>
      if d.similar == [] then t == s
      else
        var target := d.similar[0].memory;
        && d.fact !in s.memories
        && t.memories == s.memories[d.fact := MergedFact(target, ep, d.fact, text, cfg.hash)]
                                   [target.id := MarkRetired(target, d.fact)]
        && LinksReplaced(s, t, d.fact, ep.id, target.id)
    case Delete =>
      if d.similar == [] then t == s
      else
        var target := d.similar[0].memory;
        t.memories == s.memories[target.id := MarkRetired(target, "")] && LinksClosed(s, t, target.id)
    case Noop => t == s
    case Other(_) => t == s
  }

  /** What each verdict does to the rows, field by field. */
  lemma RowsAfterVerdict(s: State, cfg: Settings, ep: Memory, d: Outcome, now: real)
    requires TookEffect(s, cfg, ep, d, now)
    requires d.similar != [] ==> d.similar[0].memory.id in s.memories
    ensures d.action == Add ==>
      && d.effect.memories.Keys == s.memories.Keys + {d.fact}
      && AddedRow(ep, d.effect.memories[d.fact], cfg.ws, d.newText, cfg.hash, now)
    ensures d.action == Update && d.similar != [] ==>
      && d.effect.memories.Keys == s.memories.Keys + {d.fact}
      && MergedRow(d.similar[0].memory, ep, d.effect.memories[d.fact], d.newText, cfg.hash)
      && Marked(d.similar[0].memory, d.effect.memories[d.similar[0].memory.id], d.fact)
    ensures d.action == Delete && d.similar != [] ==>
      && d.effect.memories.Keys == s.memories.Keys
      && Marked(d.similar[0].memory, d.effect.memories[d.similar[0].memory.id], "")
    ensures forall id :: id in s.memories && !Replaces(d, id) ==> d.effect.memories[id] == s.memories[id]
  {
  }

  /** Replay: once a verdict has stored a fact, the offline classifier answers NOOP for every candidate of its hash
      that finds it among the similar ones; so it does for the text the fact was made of. */
  lemma StoredIsNotAddedAgain(s: State, cfg: Settings, ep: Memory, d: Outcome, now: real, candidate: string,
                              similar: seq<Similar>, k: nat, threshold: real, action: Action, newText: string)
    requires TookEffect(s, cfg, ep, d, now) && (d.action == Add || (d.action == Update && d.similar != []))
    requires d.similar != [] ==> d.similar[0].memory.id in s.memories
    requires k < |similar| && similar[k].memory == d.effect.memories[d.fact]
    requires cfg.hash(candidate) == cfg.hash(if d.newText != "" then d.newText else ep.content) != ""
    requires OfflineVerdict(candidate, cfg.hash(candidate), similar, threshold, action, newText)
    ensures action == Noop && newText == ""
  {
    RowsAfterVerdict(s, cfg, ep, d, now);
    assert SameContent(similar[k], cfg.hash(candidate));
  }

  predicate LiveFact(s: State, id: Id) {
    id in s.memories && s.memories[id].layer == Semantic && !IsRetired(s.memories[id])
  }

  /** What an UPDATE or a DELETE does away with. */
  predicate Replaces(d: Outcome, id: Id) {
    (d.action == Update || d.action == Delete) && d.similar != [] && id == d.similar[0].memory.id
  }

  /** The row that the new fact takes its metadata from, and with it the mark of a retired one. */
  function ModelledOn(ep: Memory, d: Outcome): Option<Memory> {
    if d.action == Add then Some(ep)
    else if d.action == Update && d.similar != [] then Some(d.similar[0].memory)
    else None
  }

  /** The live facts after a verdict: those before, less the one replaced, and the new one if and only if the row
      it is modelled on is not retired. The search does not skip retired facts, nor the backlog retired episodes. */
  lemma LiveFactsAfter(s: State, cfg: Settings, ep: Memory, d: Outcome, now: real)
    requires TookEffect(s, cfg, ep, d, now)
    requires d.similar != [] ==>
      var target := d.similar[0].memory;
      target.id in s.memories && s.memories[target.id] == target && target.layer == Semantic
    ensures forall id :: LiveFact(d.effect, id) <==>
      || (LiveFact(s, id) && !Replaces(d, id))
      || (id == d.fact && ModelledOn(ep, d).Some? && !IsRetired(ModelledOn(ep, d).value))
  {
    if (d.action == Update || d.action == Delete) && d.similar != [] {
      var target := d.similar[0].memory;
      assert IsRetired(d.effect.memories[target.id]);
    }
  }

  /** So an UPDATE whose nearest fact is retired stores a fact that is retired from the start and changes no live
      one. */
  lemma UpdateOfRetired(s: State, cfg: Settings, ep: Memory, d: Outcome, now: real)
    requires TookEffect(s, cfg, ep, d, now) && d.action == Update && d.similar != []
    requires var target := d.similar[0].memory;
      target.id in s.memories && s.memories[target.id] == target && target.layer == Semantic
    ensures d.fact in d.effect.memories
    ensures IsRetired(d.effect.memories[d.fact]) <==> IsRetired(d.similar[0].memory)
    ensures (forall id :: LiveFact(d.effect, id) <==> LiveFact(s, id)) <==> IsRetired(d.similar[0].memory)
  {
    LiveFactsAfter(s, cfg, ep, d, now);
    var target := d.similar[0].memory;
    assert !IsRetired(target) ==> LiveFact(s, target.id) && !LiveFact(d.effect, target.id);
  }

  /** The verdict is the model's, or the offline classifier's when there is none. */
  ghost predicate Classified(cfg: Settings, i: nat, ep: Memory, similar: seq<Similar>,
                             answer: Option<(Action, string)>) {
    if cfg.llm.Some? then answer == cfg.llm.value(i, ep.content, Texts(similar))
    else
      && answer.Some?
      && OfflineVerdict(ep.content, cfg.hash(ep.content), similar, cfg.threshold, answer.value.0, answer.value.1)
  }

  /** Everything about one episode: what was found, the verdict on it, its effect, and the stamp. */
  ghost predicate EpisodeStep(s: State, t: State, cfg: Settings, i: nat, ep: Memory, hits: seq<Hit>, d: Outcome,
                              now: real) {
    && Found(s, cfg.ws, hits, d.similar)
    && Classified(cfg, i, ep, d.similar, Some((d.action, d.newText)))
    && TookEffect(s, cfg, ep, d, now)
    && t == (if PassedOver(d) then d.effect else PutRow(d.effect, Stamped(ep, now)))
  }

  method Classify(cfg: Settings, i: nat, ep: Memory, similar: seq<Similar>) returns (verdict: Option<(Action, string)>)
    ensures Classified(cfg, i, ep, similar, verdict)
  {
    if cfg.llm.Some? {
      verdict := cfg.llm.value(i, ep.content, Texts(similar));
    } else {
      var action, newText := OfflineClassify(ep.content, cfg.hash(ep.content), similar, cfg.threshold);
      verdict := Some((action, newText));
    }
  }

  lemma DeletedLinks(s: State, m: Memory, now: real, edge: EdgeId)
    requires CanRetire(s, m, "", edge)
    ensures LinksClosed(s, RetireIn(s, m, "", now, edge), m.id)
  {
    forall a, relation, b { LinksAfterRetire(s, m, "", now, edge, a, relation, b); }
  }

  /** Carries out one verdict. */
  method Carry(store: Store, cfg: Settings, ep: Memory, action: Action, newText: string, similar: seq<Similar>,
               now: real)
    returns (ghost d: Outcome)
    requires store.Valid() && ep.id in store.memories && store.memories[ep.id] == ep && ep.layer == Episodic
    requires SimilarRows(store.Now(), cfg.ws, similar)
    modifies store
    ensures store.Valid() && d.effect == store.Now()
    ensures d.similar == similar && d.action == action && d.newText == newText
    ensures TookEffect(old(store.Now()), cfg, ep, d, now)
  {
    ghost var s := store.Now();
    var id := "";
    match action {
      case Add =>
        id := AddFact(store, cfg.ws, ep, newText, cfg.hash, now);
      case Update =>
        if |similar| > 0 {
          id := UpdateFact(store, ep, similar[0].memory, newText, cfg.hash, now);
        }
      case Delete =>
        if |similar| > 0 {
          var _, edge := store.Retire(similar[0].memory, "", now);
          DeletedLinks(s, similar[0].memory, now, edge);
        }
      case Noop =>
      case Other(_) =>
    }
    d := Outcome(similar, action, newText, id, store.Now());
  }

  /** One episode: verdict, effect, stamp. Without a verdict nothing happens. */
  method ConsolidateOne(store: Store, cfg: Settings, i: nat, ep: Memory, hits: seq<Hit>, now: real)
    returns (verdict: Option<Action>, ghost d: Outcome)
    requires store.Valid() && ep.id in store.memories && store.memories[ep.id] == ep && ep.layer == Episodic
    modifies store
    ensures store.Valid()
    ensures verdict.None? ==> store.Now() == old(store.Now()) && cfg.llm.Some?
    ensures verdict.None? ==> exists similar ::
      Found(store.Now(), cfg.ws, hits, similar) && Classified(cfg, i, ep, similar, None)
    ensures verdict.Some? ==> EpisodeStep(old(store.Now()), store.Now(), cfg, i, ep, hits, d, now)
    ensures verdict.Some? ==> verdict.value == d.action
  {
    var found := FindSimilar(store, cfg.ws, hits);
    d := Outcome(found, Noop, "", "", store.Now());
    var answer := Classify(cfg, i, ep, found);
    if answer.None? {
      return None, d;
    }
    var (action, newText) := answer.value;
    verdict := Some(action);
    d := Carry(store, cfg, ep, action, newText, found, now);
    if action == Update && |found| == 0 {
      return;
    }
    store.PutMemory(Stamped(ep, now));
  }

  /** No other episodic row changes. */
  lemma StepProcesses(s: State, t: State, cfg: Settings, i: nat, ep: Memory, hits: seq<Hit>, d: Outcome, now: real)
    requires EpisodeStep(s, t, cfg, i, ep, hits, d, now)
    requires WellFormed(s) && ep.id in s.memories && s.memories[ep.id] == ep && ep.layer == Episodic
    ensures Processed(s, t, ep.id, !PassedOver(d), now)
    ensures cfg.llm.None? ==> !PassedOver(d)
  {
    FoundRows(s, cfg.ws, hits, d.similar);
    assert d.similar != [] ==> IsSimilarRow(s, cfg.ws, d.similar[0]);
  }

  /** actions counts the verdicts by their word. */
  datatype Report = Report(actions: map<Action, nat>, promoted: nat, kept: nat, skipped: nat)

  function NewReport(skipped: nat): Report {
    Report(map[Add := 0, Update := 0, Delete := 0, Noop := 0], 0, 0, skipped)
  }

  /** How many of the verdicts are a. */
  function CountOf(ds: seq<Outcome>, a: Action): nat {
    if ds == [] then 0 else CountOf(ds[..|ds| - 1], a) + if ds[|ds| - 1].action == a then 1 else 0
  }

  function Counted(r: Report, a: Action): nat {
    if a in r.actions then r.actions[a] else 0
  }

  ghost predicate Reports(r: Report, ds: seq<Outcome>) {
    (forall a :: Counted(r, a) == CountOf(ds, a)) && r.promoted == CountOf(ds, Add)
  }

  function CountAction(r: Report, a: Action): Report {
    r.(actions := r.actions[a := Counted(r, a) + 1], promoted := r.promoted + if a == Add then 1 else 0)
  }

  /** The positions of the verdicts that are a. */
  ghost function PlacesOf(ds: seq<Outcome>, a: Action): set<nat> {
    set i: nat | i < |ds| && ds[i].action == a
  }

  lemma PlacesSnoc(ds: seq<Outcome>, a: Action)
    requires ds != []
    ensures |PlacesOf(ds, a)| == |PlacesOf(ds[..|ds| - 1], a)| + if ds[|ds| - 1].action == a then 1 else 0
  {
    var n: nat := |ds| - 1;
    var front := ds[..n];
    assert forall i :: 0 <= i < n ==> front[i] == ds[i];
    assert PlacesOf(ds, a) == PlacesOf(front, a) + if ds[n].action == a then {n} else {};
    assert n !in PlacesOf(front, a);
  }

  /** Counting is counting the positions. */
  lemma {:induction false} CountIsSize(ds: seq<Outcome>, a: Action)
    ensures CountOf(ds, a) == |PlacesOf(ds, a)|
  {
    if ds == [] {
      assert PlacesOf(ds, a) == {};
    } else {
      CountIsSize(ds[..|ds| - 1], a);
      PlacesSnoc(ds, a);
    }
  }

  lemma ReportsOneMore(r: Report, ds: seq<Outcome>, d: Outcome)
    requires Reports(r, ds)
    ensures Reports(CountAction(r, d.action), ds + [d])
  {
    assert (ds + [d])[..|ds|] == ds;
    forall a ensures Counted(CountAction(r, d.action), a) == CountOf(ds + [d], a) {
      assert Counted(r, a) == CountOf(ds, a);
    }
  }

  /** The pass went through the states, one episode of the batch after the other. */
  ghost predicate BatchRun(states: seq<State>, ds: seq<Outcome>, cfg: Settings, batch: seq<Memory>,
                           search: nat -> seq<Hit>, now: real) {
    && |states| == |ds| + 1 && |ds| <= |batch|
    && (forall i :: 0 <= i < |states| ==> WellFormed(states[i]))
    && (forall i :: 0 <= i < |ds| ==> EpisodeStep(states[i], states[i + 1], cfg, i, batch[i], search(i), ds[i], now))
  }

  /** The episodes of the batch that were left unstamped in spite of a verdict. */
  ghost function Unstamped(batch: seq<Memory>, ds: seq<Outcome>): set<Id>
    requires |ds| <= |batch|
  {
    set i | 0 <= i < |ds| && PassedOver(ds[i]) :: batch[i].id
  }

  function Stamped(m: Memory, now: real): Memory {
    m.(consolidatedAt := Some(now))
  }

  /** Of the episodic rows exactly the first n of the batch, less those passed over, carry the pass's stamp. */
  ghost predicate StampedSoFar(s: State, t: State, batch: seq<Memory>, n: nat, over: set<Id>, now: real)
    requires n <= |batch|
  {
    && (forall id :: id in s.memories ==> id in t.memories && t.memories[id].layer == s.memories[id].layer)
    && (forall i :: 0 <= i < |batch| ==>
          && batch[i].id in t.memories
          && t.memories[batch[i].id] == (if i < n && batch[i].id !in over then Stamped(batch[i], now) else batch[i]))
    && (forall id :: id in s.memories && s.memories[id].layer == Episodic && (forall i :: 0 <= i < |batch| ==> batch[i].id != id)
          ==> t.memories[id] == s.memories[id])
    && (forall id :: id in t.memories && id !in s.memories ==> t.memories[id].layer != Episodic)
  }

  lemma StampedStep(s: State, t: State, u: State, batch: seq<Memory>, n: nat, over: set<Id>, now: real, stamped: bool)
    requires n < |batch| && Rows(s, batch) && StampedSoFar(s, t, batch, n, over, now)
    requires batch[n].id !in over && Processed(t, u, batch[n].id, stamped, now)
    requires forall i :: 0 <= i < |batch| ==> batch[i].layer == Episodic
    ensures StampedSoFar(s, u, batch, n + 1, if stamped then over else over + {batch[n].id}, now)
  {
    forall i | 0 <= i < |batch| ensures batch[i].id in u.memories && (i != n ==> u.memories[batch[i].id] == t.memories[batch[i].id]) {
      assert t.memories[batch[i].id].layer == Episodic;
    }
  }

  lemma RunOneMore(states: seq<State>, t: State, ds: seq<Outcome>, d: Outcome, cfg: Settings, batch: seq<Memory>,
                   search: nat -> seq<Hit>, now: real)
    requires BatchRun(states, ds, cfg, batch, search, now) && |ds| < |batch| && WellFormed(t)
    requires EpisodeStep(states[|ds|], t, cfg, |ds|, batch[|ds|], search(|ds|), d, now)
    ensures BatchRun(states + [t], ds + [d], cfg, batch, search, now)
    ensures Unstamped(batch, ds + [d]) ==
      Unstamped(batch, ds) + if PassedOver(d) then {batch[|ds|].id} else {}
  {
    var more := ds + [d];
    forall i | 0 <= i < |more|
      ensures EpisodeStep((states + [t])[i], (states + [t])[i + 1], cfg, i, batch[i], search(i), more[i], now)
    {
      assert i < |ds| ==> EpisodeStep(states[i], states[i + 1], cfg, i, batch[i], search(i), ds[i], now);
    }
    forall id ensures id in Unstamped(batch, more) <==>
        id in Unstamped(batch, ds) || (PassedOver(d) && id == batch[|ds|].id)
    {
      if id in Unstamped(batch, ds) {
        var i :| 0 <= i < |ds| && PassedOver(ds[i]) && batch[i].id == id;
        assert PassedOver(more[i]);
      }
      if PassedOver(d) && id == batch[|ds|].id {
        assert PassedOver(more[|ds|]);
      }
    }
  }

  lemma NotYetUnstamped(s: State, batch: seq<Memory>, ds: seq<Outcome>)
    requires Rows(s, batch) && |ds| < |batch|
    ensures batch[|ds|].id !in Unstamped(batch, ds)
  {
  }

  /** The loop of the pass over its batch. It ends early only when the model gives no answer. */
  method RunBatch(store: Store, cfg: Settings, batch: seq<Memory>, search: nat -> seq<Hit>, skipped: nat, now: real)
    returns (ok: bool, report: Report, ghost ds: seq<Outcome>, ghost states: seq<State>)
    requires store.Valid() && Rows(store.Now(), batch) && forall i :: 0 <= i < |batch| ==> batch[i].layer == Episodic
    modifies store
    ensures store.Valid()
    ensures BatchRun(states, ds, cfg, batch, search, now)
    ensures states[0] == old(store.Now()) && states[|ds|] == store.Now()
    ensures StampedSoFar(old(store.Now()), store.Now(), batch, |ds|, Unstamped(batch, ds), now)
    ensures ok <==> |ds| == |batch|
    ensures cfg.llm.None? ==> ok && Unstamped(batch, ds) == {}
    ensures Reports(report, ds) && report.skipped == skipped && (ok ==> report.kept == |batch|)
  {
    ghost var s := store.Now();
    ds, states := [], [s];
    report := NewReport(skipped);
    for i := 0 to |batch|
      invariant store.Valid() && |ds| == i && BatchRun(states, ds, cfg, batch, search, now)
      invariant states[0] == s && states[i] == store.Now()
      invariant StampedSoFar(s, store.Now(), batch, i, Unstamped(batch, ds), now)
      invariant cfg.llm.None? ==> Unstamped(batch, ds) == {}
      invariant Reports(report, ds) && report.skipped == skipped
    {
      ghost var t := store.Now();
      NotYetUnstamped(s, batch, ds);
      ghost var d;
      var verdict;
      verdict, d := ConsolidateOne(store, cfg, i, batch[i], search(i), now);
      if verdict.None? {
        return false, report, ds, states;
      }
      StepProcesses(t, store.Now(), cfg, i, batch[i], search(i), d, now);
      StampedStep(s, t, store.Now(), batch, i, Unstamped(batch, ds), now, !PassedOver(d));
      RunOneMore(states, store.Now(), ds, d, cfg, batch, search, now);
      ReportsOneMore(report, ds, d);
      report := CountAction(report, verdict.value);
      ds, states := ds + [d], states + [store.Now()];
    }
    ok, report := true, report.(kept := |batch|);
  }

  /** One pass over the backlog. search gives the vector hits of the i-th episode; ds and states are the run. */
  method Consolidate(store: Store, cfg: Settings, since: real, search: nat -> seq<Hit>, now: real)
    returns (ok: bool, report: Report, ghost batch: seq<Memory>, ghost ds: seq<Outcome>, ghost states: seq<State>)
    requires store.Valid() && now > 0.0
    modifies store
    ensures store.Valid()
    // the batch is the oldest part of the backlog, and the run goes through it in order
    ensures Rows(old(store.Now()), batch) && W.IsBatch(Backlog(old(store.Now()), cfg.ws, since), Ids(batch))
    ensures BatchRun(states, ds, cfg, batch, search, now)
    ensures states[0] == old(store.Now()) && states[|ds|] == store.Now()
    ensures Reports(report, ds) && report.skipped == |StampedEpisodes(old(store.Now()), cfg.ws)|
    ensures forall a :: (if a in report.actions then report.actions[a] else 0) == |PlacesOf(ds, a)|
    ensures report.promoted == |PlacesOf(ds, Add)|
    ensures ok <==> |ds| == |batch|
    ensures ok ==> report.kept == |batch|
    // of the episodic rows exactly the batch as far as it went is stamped, less what was passed over
    ensures StampedSoFar(old(store.Now()), store.Now(), batch, |ds|, Unstamped(batch, ds), now)
    ensures cfg.llm.None? ==> ok && Unstamped(batch, ds) == {}
    // and those are what has left the backlog
    ensures Backlog(store.Now(), cfg.ws, since) ==
      Backlog(old(store.Now()), cfg.ws, since) - (Elements(Ids(batch[..|ds|])) - Unstamped(batch, ds))
    ensures cfg.llm.None? ==>
      Backlog(store.Now(), cfg.ws, since) == Backlog(old(store.Now()), cfg.ws, since) - Elements(Ids(batch))
  {
    ghost var s := store.Now();
    var episodes, skipped := SelectBatch(store, cfg.ws, since);
    batch := episodes;
    ok, report, ds, states := RunBatch(store, cfg, episodes, search, skipped, now);
    BacklogAfter(s, store.Now(), cfg.ws, since, batch, |ds|, Unstamped(batch, ds), now);
    WholeBatch(batch);
    forall a ensures Counted(report, a) == |PlacesOf(ds, a)| {
      CountIsSize(ds, a);
      assert Counted(report, a) == CountOf(ds, a);
    }
    CountIsSize(ds, Add);
  }

  lemma WholeBatch(batch: seq<Memory>)
    ensures Elements(Ids(batch[..|batch|])) - {} == Elements(Ids(batch))
  {
    assert batch[..|batch|] == batch;
  }

  lemma InBatch(batch: seq<Memory>, id: Id)
    ensures id in Ids(batch) <==> exists i :: 0 <= i < |batch| && batch[i].id == id
  {
    if i :| 0 <= i < |batch| && batch[i].id == id { assert Ids(batch)[i] == id; }
    if i :| 0 <= i < |Ids(batch)| && Ids(batch)[i] == id { assert batch[i].id == id; }
  }

  lemma PendingAfter(s: State, t: State, ws: string, since: real, batch: seq<Memory>, n: nat, over: set<Id>, now: real,
                     id: Id)
    requires Rows(s, batch) && now > 0.0 && n <= |batch| && StampedSoFar(s, t, batch, n, over, now)
    ensures IsPending(t, ws, since, id) <==>
      IsPending(s, ws, since, id) && id !in Elements(Ids(batch[..n])) - over
    ensures IsPending(t, ws, since, id) ==> t.memories[id] == s.memories[id]
  {
    InBatch(batch, id);
    InBatch(batch[..n], id);
    if i :| 0 <= i < |batch| && batch[i].id == id {
      assert i < n ==> batch[..n][i].id == id;
      assert t.memories[batch[i].id] == if i < n && id !in over then Stamped(batch[i], now) else batch[i];
    }
  }

  /** What has left the backlog is the batch as far as the pass went, less what it passed over. */
  lemma BacklogAfter(s: State, t: State, ws: string, since: real, batch: seq<Memory>, n: nat, over: set<Id>, now: real)
    requires Rows(s, batch) && now > 0.0 && n <= |batch| && StampedSoFar(s, t, batch, n, over, now)
    ensures Backlog(t, ws, since) == Backlog(s, ws, since) - (Elements(Ids(batch[..n])) - over)
  {
    var b, c := Backlog(s, ws, since) - (Elements(Ids(batch[..n])) - over), Backlog(t, ws, since);
    forall id ensures id in c <==> id in b {
      PendingAfter(s, t, ws, since, batch, n, over, now, id);
    }
    forall id | id in c ensures c[id] == b[id] {
      PendingAfter(s, t, ws, since, batch, n, over, now, id);
    }
  }

  // ---- A pass is a cycle of the worker protocol ----

  /** The protocol's account of the episodes agrees with the store. */
  ghost predicate Accounts(es: map<Id, W.Episode>, s: State, ws: string) {
    && (forall id :: id in es <==> IsEpisode(s, ws, id))
    && (forall id :: id in es ==>
          es[id].createdAt == s.memories[id].createdAt && (es[id].stamped <==> IsConsolidated(s.memories[id])))
  }

  lemma PendingIsBacklog(es: map<Id, W.Episode>, s: State, ws: string)
    requires Accounts(es, s, ws)
    ensures W.Pending(es) == Backlog(s, ws, 0.0)
  {
  }

  /** The protocol steps of one episode. */
  function StepsOf(r: string, d: Outcome): seq<W.Step> {
    if PassedOver(d) then [W.PassOver(r)] else [W.Effect(r), W.Stamp(r)]
  }

  /** The state of the protocol after them. */
  ghost predicate Moved(w: W.State, u: W.State, r: string, e: Id, over: bool)
    requires W.At(w, r, false) && W.Current(w, r) == e
  {
    var c := w.running[r];
    && u.lock == w.lock
    && u.running == w.running[r := c.(pos := c.pos + 1, over := c.over + if over then {e} else {})]
    && u.episodes ==
       if over then w.episodes
       else w.episodes[e := w.episodes[e].(applied := w.episodes[e].applied + 1, stamped := true)]
  }

  /** Effect and stamp, one after the other. */
  lemma EffectThenStamp(w: W.State, r: string, e: Id)
    requires W.At(w, r, false) && W.Current(w, r) == e
    ensures W.Enabled(w, W.Effect(r)) && W.Enabled(W.Next(w, W.Effect(r)), W.Stamp(r))
    ensures Moved(w, W.Next(W.Next(w, W.Effect(r)), W.Stamp(r)), r, e, false)
  {
    var c := w.running[r];
    var mid := W.Next(w, W.Effect(r));
    assert mid.running[r] == c.(effected := true) && W.Current(mid, r) == e;
    var end := W.Next(mid, W.Stamp(r));
    Advanced(c);
    assert end.running == w.running[r := c.(pos := c.pos + 1, over := c.over + {})];
  }

  lemma Advanced(c: W.Phase)
    requires c.Running? && !c.effected
    ensures c.(effected := true).(effected := false, pos := c.pos + 1) == c.(pos := c.pos + 1, over := c.over + {})
  {
    assert c.over + {} == c.over;
  }

  lemma OneStep(w: W.State, step: W.Step, steps: seq<W.Step>)
    requires W.Enabled(w, step) && steps == [step]
    ensures W.Runs(w, steps) && W.After(w, steps) == W.Next(w, step)
  {
    assert steps[0] == step && steps[1..] == [];
    assert W.After(W.Next(w, step), []) == W.Next(w, step);
  }

  lemma StepsMove(w: W.State, r: string, e: Id, d: Outcome)
    requires W.At(w, r, false) && W.Current(w, r) == e
    ensures W.Runs(w, StepsOf(r, d)) && Moved(w, W.After(w, StepsOf(r, d)), r, e, PassedOver(d))
  {
    var steps := StepsOf(r, d);
    if PassedOver(d) {
      assert steps[0] == W.PassOver(r) && steps[1..] == [];
    } else {
      EffectThenStamp(w, r, e);
      var mid := W.Next(w, W.Effect(r));
      var rest := [W.Stamp(r)];
      assert steps[0] == W.Effect(r) && steps[1..] == rest;
      OneStep(mid, W.Stamp(r), rest);
    }
  }

  lemma AccountsAfter(w: W.State, u: W.State, r: string, s: State, t: State, ws: string, ep: Memory, over: bool, now: real)
    requires Accounts(w.episodes, s, ws) && W.At(w, r, false) && W.Current(w, r) == ep.id
    requires Moved(w, u, r, ep.id, over) && Processed(s, t, ep.id, !over, now) && now > 0.0
    requires IsEpisode(s, ws, ep.id)
    ensures Accounts(u.episodes, t, ws)
  {
    forall id ensures IsEpisode(t, ws, id) <==> IsEpisode(s, ws, id) {}
  }

  function AllSteps(r: string, ds: seq<Outcome>): seq<W.Step> {
    if ds == [] then [] else AllSteps(r, ds[..|ds| - 1]) + StepsOf(r, ds[|ds| - 1])
  }

  /** Where the protocol is after the first k episodes of the batch. */
  ghost predicate AfterSome(w: W.State, u: W.State, r: string, s: State, ws: string, batch: seq<Memory>,
                            ds: seq<Outcome>, seen: map<Id, real>)
    requires |ds| <= |batch|
  {
    && u.lock == w.lock
    && r in u.running && u.running[r] == W.Running(Ids(batch), |ds|, false, seen, Unstamped(batch, ds))
    && Accounts(u.episodes, s, ws)
    && (forall j :: |ds| <= j < |batch| ==> IsEpisode(s, ws, batch[j].id) && s.memories[batch[j].id] == batch[j])
  }

  lemma OneMoreEpisode(w: W.State, u: W.State, r: string, s: State, t: State, cfg: Settings, batch: seq<Memory>,
                       ds: seq<Outcome>, d: Outcome, hits: seq<Hit>, seen: map<Id, real>, now: real) returns (v: W.State)
    requires |ds| < |batch| && AfterSome(w, u, r, s, cfg.ws, batch, ds, seen) && now > 0.0
    requires WellFormed(s) && WellFormed(t) && EpisodeStep(s, t, cfg, |ds|, batch[|ds|], hits, d, now)
    requires forall i, j :: 0 <= i < j < |batch| ==> batch[i].id != batch[j].id
    requires Unstamped(batch, ds + [d]) == Unstamped(batch, ds) + if PassedOver(d) then {batch[|ds|].id} else {}
    ensures W.Runs(u, StepsOf(r, d)) && v == W.After(u, StepsOf(r, d))
    ensures AfterSome(w, v, r, t, cfg.ws, batch, ds + [d], seen)
  {
    var ep := batch[|ds|];
    assert W.At(u, r, false) && W.Current(u, r) == ep.id;
    StepsMove(u, r, ep.id, d);
    v := W.After(u, StepsOf(r, d));
    StepProcesses(s, t, cfg, |ds|, ep, hits, d, now);
    AccountsAfter(u, v, r, s, t, cfg.ws, ep, PassedOver(d), now);
    forall j | |ds| < j < |batch| ensures IsEpisode(t, cfg.ws, batch[j].id) && t.memories[batch[j].id] == batch[j] {
      assert IsEpisode(s, cfg.ws, batch[j].id);
    }
  }

  /** The run of a pass through its batch is a run of the protocol. */
  lemma {:induction false} BatchIsARun(w: W.State, r: string, states: seq<State>, ds: seq<Outcome>, cfg: Settings,
                                       batch: seq<Memory>, search: nat -> seq<Hit>, seen: map<Id, real>, now: real)
    returns (u: W.State)
    requires BatchRun(states, ds, cfg, batch, search, now) && now > 0.0
    requires forall i, j :: 0 <= i < j < |batch| ==> batch[i].id != batch[j].id
    requires AfterSome(w, w, r, states[0], cfg.ws, batch, [], seen)
    ensures W.Runs(w, AllSteps(r, ds)) && u == W.After(w, AllSteps(r, ds))
    ensures AfterSome(w, u, r, states[|ds|], cfg.ws, batch, ds, seen)
    decreases |ds|
  {
    if ds == [] {
      u := w;
    } else {
      var n := |ds| - 1;
      var front, d := ds[..n], ds[n];
      assert ds == front + [d];
      FrontRun(states, ds, cfg, batch, search, now);
      var mid := BatchIsARun(w, r, states[..|ds|], front, cfg, batch, search, seen, now);
      assert states[..|ds|][n] == states[n];
      RunOneMore(states[..|ds|], states[|ds|], front, d, cfg, batch, search, now);
      u := OneMoreEpisode(w, mid, r, states[n], states[|ds|], cfg, batch, front, d, search(n), seen, now);
      RunsConcat(w, AllSteps(r, front), StepsOf(r, d));
    }
  }

  lemma FrontRun(states: seq<State>, ds: seq<Outcome>, cfg: Settings, batch: seq<Memory>, search: nat -> seq<Hit>,
                 now: real)
    requires BatchRun(states, ds, cfg, batch, search, now) && ds != []
    ensures BatchRun(states[..|ds|], ds[..|ds| - 1], cfg, batch, search, now)
    ensures var n := |ds| - 1;
      EpisodeStep(states[n], states[|ds|], cfg, n, batch[n], search(n), ds[n], now)
  {
    var n := |ds| - 1;
    assert EpisodeStep(states[n], states[n + 1], cfg, n, batch[n], search(n), ds[n], now);
    forall i | 0 <= i < n
      ensures EpisodeStep(states[..|ds|][i], states[..|ds|][i + 1], cfg, i, batch[i], search(i), ds[..n][i], now)
    {
      assert EpisodeStep(states[i], states[i + 1], cfg, i, batch[i], search(i), ds[i], now);
    }
  }

  lemma {:induction false} RunsConcat(w: W.State, a: seq<W.Step>, b: seq<W.Step>)
    requires W.Runs(w, a) && W.Runs(W.After(w, a), b)
    ensures W.Runs(w, a + b) && W.After(w, a + b) == W.After(W.After(w, a), b)
    decreases |a|
  {
    if a == [] {
      assert a + b == b;
    } else {
      assert (a + b)[0] == a[0] && (a + b)[1..] == a[1..] + b;
      RunsConcat(W.Next(w, a[0]), a[1..], b);
    }
  }

  lemma AfterSelect(w: W.State, r: string, s: State, ws: string, batch: seq<Memory>) returns (mid: W.State)
    requires Accounts(w.episodes, s, ws) && r in w.running && w.running[r].Locked? && Rows(s, batch)
    requires W.IsBatch(Backlog(s, ws, 0.0), Ids(batch))
    ensures W.Enabled(w, W.Select(r, Ids(batch))) && mid == W.Next(w, W.Select(r, Ids(batch)))
    ensures AfterSome(mid, mid, r, s, ws, batch, [], W.Pending(w.episodes))
  {
    PendingIsBacklog(w.episodes, s, ws);
    mid := W.Next(w, W.Select(r, Ids(batch)));
    forall j | 0 <= j < |batch| ensures IsEpisode(s, ws, batch[j].id) {
      assert Ids(batch)[j] in Backlog(s, ws, 0.0);
    }
    assert Unstamped(batch, []) == {};
  }

  /** What Consolidate promises of a pass over the whole backlog is a cycle of the protocol: a replica that holds
      the lock can select the batch and go through it, episode by episode; afterwards it is at the end of the
      batch if and only if the pass was a success, and the protocol's account agrees with the store again. */
  lemma PassIsACycle(w: W.State, r: string, states: seq<State>, ds: seq<Outcome>, cfg: Settings, batch: seq<Memory>,
                     search: nat -> seq<Hit>, now: real)
    requires BatchRun(states, ds, cfg, batch, search, now) && now > 0.0 && Rows(states[0], batch)
    requires Accounts(w.episodes, states[0], cfg.ws) && r in w.running && w.running[r].Locked?
    requires W.IsBatch(Backlog(states[0], cfg.ws, 0.0), Ids(batch))
    ensures var steps := [W.Select(r, Ids(batch))] + AllSteps(r, ds);
      && W.Runs(w, steps)
      && var u := W.After(w, steps);
      && Accounts(u.episodes, states[|ds|], cfg.ws)
      && (W.Enabled(u, W.Release(r)) <==> |ds| == |batch|)
      && r in u.running && u.running[r].Running? && u.running[r].over == Unstamped(batch, ds)
  {
    var select := W.Select(r, Ids(batch));
    var mid := AfterSelect(w, r, states[0], cfg.ws, batch);
    var u := BatchIsARun(mid, r, states, ds, cfg, batch, search, W.Pending(w.episodes), now);
    FirstStep(w, select, AllSteps(r, ds));
    AtItsEnd(mid, u, r, states[|ds|], cfg.ws, batch, ds, W.Pending(w.episodes));
  }

  lemma FirstStep(w: W.State, step: W.Step, rest: seq<W.Step>)
    requires W.Enabled(w, step) && W.Runs(W.Next(w, step), rest)
    ensures W.Runs(w, [step] + rest) && W.After(w, [step] + rest) == W.After(W.Next(w, step), rest)
  {
    assert ([step] + rest)[0] == step && ([step] + rest)[1..] == rest;
  }

  lemma AtItsEnd(w: W.State, u: W.State, r: string, s: State, ws: string, batch: seq<Memory>, ds: seq<Outcome>,
                 seen: map<Id, real>)
    requires |ds| <= |batch| && AfterSome(w, u, r, s, ws, batch, ds, seen)
    ensures (W.Enabled(u, W.Release(r)) <==> |ds| == |batch|)
    ensures Accounts(u.episodes, s, ws)
    ensures r in u.running && u.running[r].Running? && u.running[r].over == Unstamped(batch, ds)
  {
  }
}
