/** The second recall tier: a hop-bounded breadth-first expansion of the graph around the first tier's
    hits. The set of visited ids is shared by all anchors; a superseding version is reported but not
    expanded; at the end every visited code symbol brings in its file. */
module Recall {
  import opened Wrappers
  import opened Graph

  datatype Anchor = Anchor(id: Id, score: real)

  datatype Item = Item(memory: Memory, sim: real, via: seq<Id>)

  datatype Node = Node(id: Id, depth: nat, path: seq<Id>)

  // ---- The graph the expansion walks ----

  predicate Joins(e: Edge, a: Id, b: Id) {
    e.validTo.None? && ((e.src == a && e.dst == b) || (e.src == b && e.dst == a))
  }

  ghost predicate Adjacent(s: State, a: Id, b: Id) {
    exists k :: k in s.edges && Joins(s.edges[k], a, b)
  }

  predicate Inside(s: State, ws: string, id: Id) {
    id in s.memories && s.memories[id].workspace == ws
  }

  /** A walk along valid edges that stays, after its first id, in the workspace. */
  ghost predicate Path(s: State, ws: string, p: seq<Id>) {
    && p != []
    && (forall i, j :: 0 <= i && j == i + 1 && j < |p| ==> Adjacent(s, p[i], p[j]))
    && (forall i :: 1 <= i < |p| ==> Inside(s, ws, p[i]))
  }

  ghost predicate Walk(s: State, ws: string, p: seq<Id>, a: Id, b: Id) {
    Path(s, ws, p) && p[0] == a && p[|p| - 1] == b
  }

  ghost predicate Shortest(s: State, ws: string, p: seq<Id>) {
    forall q :: Path(s, ws, q) && p != [] && q[0] == p[0] && q[|q| - 1] == p[|p| - 1] ==> |p| <= |q|
  }

  /** A walk that, after its first id, avoids some ids, and goes on through none of those it must stop at. */
  ghost predicate FreeWalk(s: State, ws: string, avoid: set<Id>, stop: set<Id>, p: seq<Id>, a: Id, b: Id) {
    && Walk(s, ws, p, a, b)
    && (forall i :: 1 <= i < |p| ==> p[i] !in avoid)
    && (forall i :: 1 <= i < |p| - 1 ==> p[i] !in stop)
  }

  ghost predicate NoSupersedes(s: State) {
    forall k :: k in s.edges && s.edges[k].validTo.None? ==> s.edges[k].relation != SUPERSEDES
  }

  lemma ExtendPath(s: State, ws: string, p: seq<Id>, b: Id)
    requires Path(s, ws, p) && Adjacent(s, p[|p| - 1], b) && Inside(s, ws, b)
    ensures Path(s, ws, p + [b])
  {
  }

  // ---- What an item means ----

  function Max(a: real, b: real): real {
    if a >= b then a else b
  }

  /** The last step of the hit's path leads to a version that supersedes the one before it. */
  ghost predicate Newer(s: State, it: Item) {
    |it.via| >= 2 && HasLive(s, it.via[|it.via| - 2], SUPERSEDES, it.via[|it.via| - 1])
  }

  /** 6 tenths of the score for a newer version, 5 for any other neighbour, over the hops, and 0.05 at least. */
  ghost predicate SimOf(score: real, newer: bool, hops: nat, sim: real)
    requires hops > 0
  {
    var share := if newer then score * 0.6 / hops as real else score * 0.5 / hops as real;
    sim == if share >= 0.05 then share else 0.05
  }

  /** A hit for a row with a valid path of at most hops + 1 ids from the anchor. */
  ghost predicate HasPath(s: State, ws: string, hops: int, anchor: Id, it: Item) {
    && 2 <= |it.via| <= hops + 1 && Walk(s, ws, it.via, anchor, it.memory.id)
    && s.memories[it.memory.id] == it.memory
  }

  ghost predicate GraphItem(s: State, ws: string, hops: int, anchor: Anchor, it: Item) {
    HasPath(s, ws, hops, anchor.id, it) && SimOf(anchor.score, Newer(s, it), |it.via| - 1, it.sim)
  }

  ghost predicate FileItem(s: State, ws: string, it: Item) {
    && it.memory.id in s.memories && s.memories[it.memory.id] == it.memory
    && Selected(it.memory, ws, None, Some(CodeFile))
    && |it.via| == 2 && it.via[1] == it.memory.id && it.sim == 0.1
    && it.via[0] in s.memories && s.memories[it.via[0]].typ == CodeSymbol
    && s.memories[it.via[0]].filePath == it.memory.filePath != ""
  }

  ghost predicate Emitted(out: seq<Item>, id: Id) {
    exists i :: 0 <= i < |out| && out[i].memory.id == id
  }

  ghost predicate IsAnchor(anchors: seq<Anchor>, id: Id) {
    exists k :: 0 <= k < |anchors| && anchors[k].id == id
  }

  /** Every hit was visited, none is an anchor, none comes twice, and a visited id of the workspace that
      is no anchor is a hit. */
  ghost predicate Accounted(s: State, ws: string, anchors: seq<Anchor>, seen: set<Id>, out: seq<Item>) {
    && (forall k :: 0 <= k < |anchors| ==> anchors[k].id in seen)
    && (forall i :: 0 <= i < |out| ==> out[i].memory.id in seen && !IsAnchor(anchors, out[i].memory.id))
    && (forall i, j :: 0 <= i < j < |out| ==> out[i].memory.id != out[j].memory.id)
    && (forall id :: id in seen && Inside(s, ws, id) && !IsAnchor(anchors, id) ==> Emitted(out, id))
  }

  /** All hits from position from on are graph hits of the anchor. */
  ghost predicate AllGraph(s: State, ws: string, hops: int, anchor: Anchor, out: seq<Item>, from: nat) {
    forall i :: from <= i < |out| ==> GraphItem(s, ws, hops, anchor, out[i])
  }

  lemma EmittedGrows(out: seq<Item>, extra: seq<Item>, id: Id)
    requires Emitted(out, id)
    ensures Emitted(out + extra, id)
  {
    var i :| 0 <= i < |out| && out[i].memory.id == id;
    assert (out + extra)[i].memory.id == id;
  }

  /** Marking an id of another workspace, or of no row, keeps the account. */
  lemma AccountedSkip(s: State, ws: string, anchors: seq<Anchor>, seen: set<Id>, out: seq<Item>, id: Id)
    requires Accounted(s, ws, anchors, seen, out) && !Inside(s, ws, id)
    ensures Accounted(s, ws, anchors, seen + {id}, out)
  {
  }

  /** Marking a new id and reporting it keeps the account. */
  lemma AccountedEmit(s: State, ws: string, anchors: seq<Anchor>, seen: set<Id>, out: seq<Item>, it: Item)
    requires Accounted(s, ws, anchors, seen, out) && it.memory.id !in seen
    ensures Accounted(s, ws, anchors, seen + {it.memory.id}, out + [it])
  {
    forall x | x in seen + {it.memory.id} && Inside(s, ws, x) && !IsAnchor(anchors, x) ensures Emitted(out + [it], x) {
      if x == it.memory.id {
        assert (out + [it])[|out|].memory.id == x;
      } else {
        EmittedGrows(out, [it], x);
      }
    }
  }

  // ---- One node ----

  ghost predicate NodeOk(s: State, ws: string, anchor: Id, n: Node) {
    n.depth >= 1 && |n.path| == n.depth && Walk(s, ws, n.path, anchor, n.id)
  }

  /** A hit that the node led to in one step. */
  ghost predicate StepItem(s: State, anchor: Anchor, cur: Node, newer: bool, it: Item) {
    && cur.depth >= 1 && it.memory.id in s.memories && s.memories[it.memory.id] == it.memory
    && it.via == cur.path + [it.memory.id]
    && SimOf(anchor.score, newer, cur.depth, it.sim)
  }

  lemma NewerIff(s: State, cur: Node, it: Item)
    requires cur.path != [] && cur.path[|cur.path| - 1] == cur.id && it.via == cur.path + [it.memory.id]
    ensures Newer(s, it) <==> HasLive(s, cur.id, SUPERSEDES, it.memory.id)
  {
    assert it.via[|it.via| - 2] == cur.id && it.via[|it.via| - 1] == it.memory.id;
  }

  /** What the node led to is a graph hit, one hop on. */
  lemma StepIsGraphItem(s: State, ws: string, hops: int, anchor: Anchor, cur: Node, newer: bool, it: Item)
    requires NodeOk(s, ws, anchor.id, cur) && cur.depth <= hops && StepItem(s, anchor, cur, newer, it)
    requires Adjacent(s, cur.id, it.memory.id) && Inside(s, ws, it.memory.id)
    requires newer <==> HasLive(s, cur.id, SUPERSEDES, it.memory.id)
    ensures GraphItem(s, ws, hops, anchor, it)
  {
    ExtendPath(s, ws, cur.path, it.memory.id);
    NewerIff(s, cur, it);
  }

  lemma SupersedesJoins(s: State, a: Id, b: Id)
    requires HasLive(s, a, SUPERSEDES, b)
    ensures Adjacent(s, a, b)
  {
    var e :| IsLive(s, e, a, SUPERSEDES, b);
    assert Joins(s.edges[e], a, b);
  }

  /** What was visited and reported when some of what a node leads to has been looked at. */
  ghost predicate Reporting(s: State, ws: string, anchors: seq<Anchor>, anchor: Anchor, cur: Node, newer: bool,
                            seen0: set<Id>, out0: seq<Item>, seen: set<Id>, out: seq<Item>) {
    && Accounted(s, ws, anchors, seen, out) && seen0 <= seen && out0 <= out
    && (forall i :: |out0| <= i < |out| ==>
          StepItem(s, anchor, cur, newer, out[i]) && out[i].memory.id !in seen0 && Inside(s, ws, out[i].memory.id))
  }

  lemma ReportingEmit(s: State, ws: string, anchors: seq<Anchor>, anchor: Anchor, cur: Node, newer: bool,
                      seen0: set<Id>, out0: seq<Item>, seen: set<Id>, out: seq<Item>, it: Item)
    requires Reporting(s, ws, anchors, anchor, cur, newer, seen0, out0, seen, out)
    requires StepItem(s, anchor, cur, newer, it) && it.memory.id !in seen && Inside(s, ws, it.memory.id)
    ensures Reporting(s, ws, anchors, anchor, cur, newer, seen0, out0, seen + {it.memory.id}, out + [it])
  {
    AccountedEmit(s, ws, anchors, seen, out, it);
  }

  lemma ReportingSkip(s: State, ws: string, anchors: seq<Anchor>, anchor: Anchor, cur: Node, newer: bool,
                      seen0: set<Id>, out0: seq<Item>, seen: set<Id>, out: seq<Item>, id: Id)
    requires Reporting(s, ws, anchors, anchor, cur, newer, seen0, out0, seen, out) && !Inside(s, ws, id)
    ensures Reporting(s, ws, anchors, anchor, cur, newer, seen0, out0, seen + {id}, out)
  {
    AccountedSkip(s, ws, anchors, seen, out, id);
  }

  /** So exactly the new ids of the workspace have been reported. */
  lemma ReportedIff(s: State, ws: string, anchors: seq<Anchor>, anchor: Anchor, cur: Node, newer: bool,
                    seen0: set<Id>, out0: seq<Item>, seen: set<Id>, out: seq<Item>)
    requires Reporting(s, ws, anchors, anchor, cur, newer, seen0, out0, seen, out)
    requires Accounted(s, ws, anchors, seen0, out0)
    ensures forall b :: Emitted(out[|out0|..], b) <==> b in seen && b !in seen0 && Inside(s, ws, b)
  {
    forall b ensures Emitted(out[|out0|..], b) <==> b in seen && b !in seen0 && Inside(s, ws, b) {
      if b in seen && b !in seen0 && Inside(s, ws, b) {
        assert Emitted(out, b);
        var i :| 0 <= i < |out| && out[i].memory.id == b;
        assert i >= |out0|;
        assert out[|out0|..][i - |out0|].memory.id == b;
      }
      if Emitted(out[|out0|..], b) {
        var i :| 0 <= i < |out[|out0|..]| && out[|out0|..][i].memory.id == b;
        assert out[|out0| + i].memory.id == b;
      }
    }
  }

  /** Reports every unseen version that supersedes the node, with 6 tenths of the score, and queues none. */
  method FollowSupersedes(store: Store, ws: string, ghost anchors: seq<Anchor>, anchor: Anchor, cur: Node,
                          seen0: set<Id>, out0: seq<Item>)
    returns (seen: set<Id>, out: seq<Item>)
    requires store.Valid() && NodeOk(store.Now(), ws, anchor.id, cur)
    requires Accounted(store.Now(), ws, anchors, seen0, out0)
    ensures Reporting(store.Now(), ws, anchors, anchor, cur, true, seen0, out0, seen, out)
    ensures forall b :: b in seen <==> b in seen0 || HasLive(store.Now(), cur.id, SUPERSEDES, b)
    ensures forall b :: Emitted(out[|out0|..], b) <==>
      b !in seen0 && Inside(store.Now(), ws, b) && HasLive(store.Now(), cur.id, SUPERSEDES, b)
  {
    ghost var s := store.Now();
    seen, out := seen0, out0;
    var supEdges := store.Neighbors(cur.id, SUPERSEDES);
    for i := 0 to |supEdges|
      invariant Reporting(s, ws, anchors, anchor, cur, true, seen0, out0, seen, out)
      invariant forall j :: 0 <= j < i && supEdges[j].src == cur.id ==> supEdges[j].dst in seen
      invariant forall b :: b in seen ==> b in seen0 || HasLive(s, cur.id, SUPERSEDES, b)
    {
      var e := supEdges[i];
      assert e in supEdges;
      if e.src == cur.id && e.dst !in seen {
        assert IsLive(s, e.id, cur.id, SUPERSEDES, e.dst);
        var newer := store.GetMemory(e.dst);
        if newer.Some? && newer.value.workspace == ws {
          var it := Item(newer.value, Max(0.05, anchor.score * 0.6 / cur.depth as real), cur.path + [e.dst]);
          ReportingEmit(s, ws, anchors, anchor, cur, true, seen0, out0, seen, out, it);
          out := out + [it];
        } else {
          ReportingSkip(s, ws, anchors, anchor, cur, true, seen0, out0, seen, out, e.dst);
        }
        seen := seen + {e.dst};
      }
    }
    forall b | HasLive(s, cur.id, SUPERSEDES, b) ensures b in seen {
      var k :| IsLive(s, k, cur.id, SUPERSEDES, b);
      assert s.edges[k] in supEdges;
    }
    ReportedIff(s, ws, anchors, anchor, cur, true, seen0, out0, seen, out);
  }

  function Other(e: Edge, id: Id): Id {
    if e.src == id then e.dst else e.src
  }

  /** The nodes queued for the hits, one each, in order. */
  ghost predicate Mirrors(cur: Node, nodes: seq<Node>, items: seq<Item>) {
    && |items| == |nodes|
    && (forall i :: 0 <= i < |nodes| ==> nodes[i] == Node(items[i].memory.id, cur.depth + 1, items[i].via))
  }

  /** What holds of the visits to some neighbours. */
  ghost predicate Visiting(s: State, ws: string, anchors: seq<Anchor>, anchor: Anchor, cur: Node, seen0: set<Id>,
                           out0: seq<Item>, seen: set<Id>, out: seq<Item>, nodes: seq<Node>) {
    && Reporting(s, ws, anchors, anchor, cur, false, seen0, out0, seen, out) && Mirrors(cur, nodes, out[|out0|..])
    && (forall b :: b in seen ==> b in seen0 || Adjacent(s, cur.id, b))
  }

  /** Visits one neighbour. */
  method VisitNeighbor(store: Store, ws: string, ghost anchors: seq<Anchor>, anchor: Anchor, cur: Node, otherId: Id,
                       ghost seen0: set<Id>, ghost out0: seq<Item>, seen1: set<Id>, out1: seq<Item>, nodes1: seq<Node>)
    returns (seen: set<Id>, out: seq<Item>, nodes: seq<Node>)
    requires store.Valid() && cur.depth >= 1 && Adjacent(store.Now(), cur.id, otherId)
    requires Visiting(store.Now(), ws, anchors, anchor, cur, seen0, out0, seen1, out1, nodes1)
    ensures Visiting(store.Now(), ws, anchors, anchor, cur, seen0, out0, seen, out, nodes)
    ensures seen == seen1 + {otherId}
  {
    ghost var s := store.Now();
    seen, out, nodes := seen1, out1, nodes1;
    if otherId !in seen {
      var other := store.GetMemory(otherId);
      if other.Some? && other.value.workspace == ws {
        var path := cur.path + [otherId];
        var it := Item(other.value, Max(0.05, anchor.score * 0.5 / cur.depth as real), path);
        ReportingEmit(s, ws, anchors, anchor, cur, false, seen0, out0, seen, out, it);
        assert (out + [it])[|out0|..] == out[|out0|..] + [it];
        out := out + [it];
        nodes := nodes + [Node(otherId, cur.depth + 1, path)];
      } else {
        ReportingSkip(s, ws, anchors, anchor, cur, false, seen0, out0, seen, out, otherId);
      }
      seen := seen + {otherId};
    }
  }

  /** Reports and queues every neighbour not seen before, with 5 tenths of the score. */
  method VisitNeighbors(store: Store, ws: string, ghost anchors: seq<Anchor>, anchor: Anchor, cur: Node,
                        seen0: set<Id>, out0: seq<Item>)
    returns (seen: set<Id>, out: seq<Item>, nodes: seq<Node>)
    requires store.Valid() && NodeOk(store.Now(), ws, anchor.id, cur)
    requires Accounted(store.Now(), ws, anchors, seen0, out0)
    ensures Reporting(store.Now(), ws, anchors, anchor, cur, false, seen0, out0, seen, out)
    ensures Mirrors(cur, nodes, out[|out0|..])
    ensures forall b :: b in seen <==> b in seen0 || Adjacent(store.Now(), cur.id, b)
    ensures forall b :: Emitted(out[|out0|..], b) <==>
      b !in seen0 && Inside(store.Now(), ws, b) && Adjacent(store.Now(), cur.id, b)
  {
    ghost var s := store.Now();
    seen, out, nodes := seen0, out0, [];
    var edges := store.Neighbors(cur.id, "");
    for i := 0 to |edges|
      invariant Visiting(s, ws, anchors, anchor, cur, seen0, out0, seen, out, nodes)
      invariant forall j :: 0 <= j < i ==> Other(edges[j], cur.id) in seen
    {
      assert edges[i] in edges;
      var otherId := Other(edges[i], cur.id);
      assert Joins(s.edges[edges[i].id], cur.id, otherId);
      seen, out, nodes := VisitNeighbor(store, ws, anchors, anchor, cur, otherId, seen0, out0, seen, out, nodes);
    }
    AllNeighborsSeen(s, cur.id, edges, seen);
    ReportedIff(s, ws, anchors, anchor, cur, false, seen0, out0, seen, out);
  }

  lemma AllNeighborsSeen(s: State, id: Id, edges: seq<Edge>, seen: set<Id>)
    requires WellFormed(s)
    requires forall k :: k in s.edges && LeadsOn(s.edges[k], id, "") ==> s.edges[k] in edges
    requires forall j :: 0 <= j < |edges| ==> Other(edges[j], id) in seen
    ensures forall b :: Adjacent(s, id, b) ==> b in seen
  {
    forall b | Adjacent(s, id, b) ensures b in seen {
      var k :| k in s.edges && Joins(s.edges[k], id, b);
      assert s.edges[k] in edges;
      var j :| 0 <= j < |edges| && edges[j] == s.edges[k];
      assert Other(edges[j], id) in seen;
    }
  }

  /** All a node leads to: the newer versions first, up to position mid, then the other neighbours, which are the
      ones queued. */
  ghost predicate VisitedNode(s: State, ws: string, anchors: seq<Anchor>, anchor: Anchor, cur: Node, seen0: set<Id>,
                              out0: seq<Item>, seen: set<Id>, out: seq<Item>, mid: nat, nodes: seq<Node>) {
    && Accounted(s, ws, anchors, seen, out) && out0 <= out && |out0| <= mid <= |out|
    && (forall b :: b in seen <==> b in seen0 || Adjacent(s, cur.id, b))
    && (forall i :: |out0| <= i < |out| ==>
          && StepItem(s, anchor, cur, i < mid, out[i])
          && Inside(s, ws, out[i].memory.id) && Adjacent(s, cur.id, out[i].memory.id)
          && out[i].memory.id !in seen0
          && (i < mid <==> HasLive(s, cur.id, SUPERSEDES, out[i].memory.id)))
    && (forall b :: b !in seen0 && Inside(s, ws, b) && Adjacent(s, cur.id, b) ==> Emitted(out[|out0|..], b))
    && Mirrors(cur, nodes, out[mid..])
  }

  lemma BothVisited(s: State, ws: string, anchors: seq<Anchor>, anchor: Anchor, cur: Node, seen0: set<Id>,
                    out0: seq<Item>, seen1: set<Id>, out1: seq<Item>, seen: set<Id>, out: seq<Item>, nodes: seq<Node>)
    requires Reporting(s, ws, anchors, anchor, cur, true, seen0, out0, seen1, out1)
    requires forall b :: b in seen1 <==> b in seen0 || HasLive(s, cur.id, SUPERSEDES, b)
    requires forall b :: Emitted(out1[|out0|..], b) <==>
      b !in seen0 && Inside(s, ws, b) && HasLive(s, cur.id, SUPERSEDES, b)
    requires Reporting(s, ws, anchors, anchor, cur, false, seen1, out1, seen, out)
    requires forall b :: b in seen <==> b in seen1 || Adjacent(s, cur.id, b)
    requires forall b :: Emitted(out[|out1|..], b) <==> b !in seen1 && Inside(s, ws, b) && Adjacent(s, cur.id, b)
    requires Mirrors(cur, nodes, out[|out1|..])
    ensures VisitedNode(s, ws, anchors, anchor, cur, seen0, out0, seen, out, |out1|, nodes)
  {
    forall b | HasLive(s, cur.id, SUPERSEDES, b) ensures Adjacent(s, cur.id, b) { SupersedesJoins(s, cur.id, b); }
    assert out[|out0|..] == out1[|out0|..] + out[|out1|..];
    forall i | |out0| <= i < |out1|
      ensures out[i] == out1[i] && HasLive(s, cur.id, SUPERSEDES, out[i].memory.id)
    {
      assert out1[|out0|..][i - |out0|].memory.id == out[i].memory.id;
      assert Emitted(out1[|out0|..], out[i].memory.id);
    }
    forall i | |out1| <= i < |out|
      ensures Adjacent(s, cur.id, out[i].memory.id) && !HasLive(s, cur.id, SUPERSEDES, out[i].memory.id)
    {
      assert out[|out1|..][i - |out1|].memory.id == out[i].memory.id;
      assert Emitted(out[|out1|..], out[i].memory.id);
    }
    forall b | b !in seen0 && Inside(s, ws, b) && Adjacent(s, cur.id, b) ensures Emitted(out[|out0|..], b) {
      EmittedInEither(out1[|out0|..], out[|out1|..], b);
    }
  }

  lemma EmittedInEither(a: seq<Item>, b: seq<Item>, id: Id)
    ensures Emitted(a + b, id) <==> Emitted(a, id) || Emitted(b, id)
  {
    if Emitted(a, id) {
      EmittedGrows(a, b, id);
    }
    if Emitted(b, id) {
      var i :| 0 <= i < |b| && b[i].memory.id == id;
      assert (a + b)[|a| + i].memory.id == id;
    }
  }

  /** Reports what a node leads to and returns the nodes to queue: no newer version is among them. */
  method VisitNode(store: Store, ws: string, ghost anchors: seq<Anchor>, anchor: Anchor, cur: Node, seen0: set<Id>,
                   out0: seq<Item>)
    returns (seen: set<Id>, out: seq<Item>, nodes: seq<Node>, ghost mid: nat)
    requires store.Valid() && NodeOk(store.Now(), ws, anchor.id, cur)
    requires Accounted(store.Now(), ws, anchors, seen0, out0)
    ensures VisitedNode(store.Now(), ws, anchors, anchor, cur, seen0, out0, seen, out, mid, nodes)
    ensures forall i :: 0 <= i < |nodes| ==> !HasLive(store.Now(), cur.id, SUPERSEDES, nodes[i].id)
  {
    var seen1, out1 := FollowSupersedes(store, ws, anchors, anchor, cur, seen0, out0);
    seen, out, nodes := VisitNeighbors(store, ws, anchors, anchor, cur, seen1, out1);
    mid := |out1|;
    BothVisited(store.Now(), ws, anchors, anchor, cur, seen0, out0, seen1, out1, seen, out, nodes);
    NoneQueuedIsNewer(store.Now(), ws, anchors, anchor, cur, seen0, out0, seen, out, mid, nodes);
  }

  lemma NoneQueuedIsNewer(s: State, ws: string, anchors: seq<Anchor>, anchor: Anchor, cur: Node, seen0: set<Id>,
                          out0: seq<Item>, seen: set<Id>, out: seq<Item>, mid: nat, nodes: seq<Node>)
    requires VisitedNode(s, ws, anchors, anchor, cur, seen0, out0, seen, out, mid, nodes)
    ensures forall i :: 0 <= i < |nodes| ==> !HasLive(s, cur.id, SUPERSEDES, nodes[i].id)
  {
    forall i | 0 <= i < |nodes| ensures !HasLive(s, cur.id, SUPERSEDES, nodes[i].id) {
      assert nodes[i].id == out[mid..][i].memory.id == out[mid + i].memory.id;
    }
  }

  // ---- One anchor ----

  /** all lists the nodes ever queued, the first head of them processed: depths never fall along the
      queue and never exceed the current one by more than one. */
  ghost predicate QueueOk(s: State, ws: string, anchor: Id, all: seq<Node>, head: nat) {
    && head <= |all| && all != [] && all[0] == Node(anchor, 1, [anchor])
    && (forall i :: 0 <= i < |all| ==> NodeOk(s, ws, anchor, all[i]))
    && (forall i, j :: 0 <= i < j < |all| ==> all[i].depth <= all[j].depth)
    && (head < |all| ==> forall j :: 0 <= j < |all| ==> all[j].depth <= all[head].depth + 1)
  }

  ghost predicate HasId(all: seq<Node>, id: Id) {
    exists j :: 1 <= j < |all| && all[j].id == id
  }

  /** The hit and the node stand for one another. */
  ghost predicate Same(s: State, it: Item, n: Node) {
    it.memory.id == n.id && it.via == n.path && !Newer(s, it)
  }

  /** The hits of this anchor are the nodes queued after it and newer versions. */
  ghost predicate HitsAndNodes(s: State, mine: seq<Item>, all: seq<Node>) {
    && (forall i :: 0 <= i < |mine| ==> Newer(s, mine[i]) || IsNode(s, mine[i], all))
    && (forall j :: 1 <= j < |all| ==> IsHit(s, mine, all[j]))
  }

  ghost predicate IsNode(s: State, it: Item, all: seq<Node>) {
    exists j :: 1 <= j < |all| && Same(s, it, all[j])
  }

  ghost predicate IsHit(s: State, mine: seq<Item>, n: Node) {
    exists i :: 0 <= i < |mine| && Same(s, mine[i], n)
  }

  /** Paths lead through queued nodes only. */
  ghost predicate ThroughNodes(mine: seq<Item>, all: seq<Node>) {
    && (forall j, k :: 0 <= j < |all| && 1 <= k < |all[j].path| ==> HasId(all, all[j].path[k]))
    && (forall i, k :: 0 <= i < |mine| && 1 <= k < |mine[i].via| - 1 ==> HasId(all, mine[i].via[k]))
  }

  /** Nearest first, and no farther than what comes next. */
  ghost predicate InOrder(mine: seq<Item>, all: seq<Node>, head: nat) {
    && (forall i, j :: 0 <= i < j < |mine| ==> |mine[i].via| <= |mine[j].via|)
    && (head < |all| ==> forall i :: 0 <= i < |mine| ==> |mine[i].via| <= all[head].depth + 1)
  }

  ghost predicate Within(mine: seq<Item>, id: Id, length: int) {
    exists i :: 0 <= i < |mine| && mine[i].memory.id == id && |mine[i].via| <= length
  }

  /** Of processed nodes within the bound all neighbours that were not known before are reported. */
  ghost predicate Expanded(s: State, ws: string, hops: int, avoid: set<Id>, mine: seq<Item>, all: seq<Node>, head: nat)
    requires head <= |all|
  {
    forall i, b :: 0 <= i < head && all[i].depth <= hops && Inside(s, ws, b) && b !in avoid && Adjacent(s, all[i].id, b)
      ==> Within(mine, b, all[i].depth + 1)
  }

  /** The state of the breadth-first loop; mine are the hits of this anchor. */
  ghost predicate Tracks(s: State, ws: string, hops: int, anchor: Anchor, avoid: set<Id>, mine: seq<Item>,
                         all: seq<Node>, head: nat) {
    && QueueOk(s, ws, anchor.id, all, head) && AllGraph(s, ws, hops, anchor, mine, 0)
    && HitsAndNodes(s, mine, all) && ThroughNodes(mine, all) && InOrder(mine, all, head)
    && Expanded(s, ws, hops, avoid, mine, all, head)
  }

  ghost predicate Searching(s: State, ws: string, hops: int, anchors: seq<Anchor>, anchor: Anchor, seen: set<Id>,
                            out: seq<Item>, from: nat, all: seq<Node>, head: nat, avoid: set<Id>) {
    && Accounted(s, ws, anchors, seen, out) && from <= |out| && IsAnchor(anchors, anchor.id)
    && avoid == Known(anchors, out[..from])
    && Tracks(s, ws, hops, anchor, avoid, out[from..], all, head)
  }

  /** The items a node led to: the newer versions and, from position mid, the mirrored neighbours. */
  ghost predicate FromNode(s: State, ws: string, hops: int, anchor: Anchor, cur: Node, more: seq<Item>, mid: nat,
                           nodes: seq<Node>) {
    && mid <= |more| && AllGraph(s, ws, hops, anchor, more, 0) && Mirrors(cur, nodes, more[mid..])
    && (forall i :: 0 <= i < |more| ==> more[i].via == cur.path + [more[i].memory.id])
    && (forall i :: 0 <= i < |more| ==> (Newer(s, more[i]) <==> i < mid))
  }

  lemma NodeVisited(s: State, ws: string, hops: int, anchors: seq<Anchor>, anchor: Anchor, cur: Node, seen0: set<Id>,
                    out0: seq<Item>, seen: set<Id>, out: seq<Item>, mid: nat, nodes: seq<Node>)
    requires NodeOk(s, ws, anchor.id, cur) && cur.depth <= hops
    requires VisitedNode(s, ws, anchors, anchor, cur, seen0, out0, seen, out, mid, nodes)
    ensures FromNode(s, ws, hops, anchor, cur, out[|out0|..], mid - |out0|, nodes)
  {
    var more := out[|out0|..];
    forall i | 0 <= i < |more|
      ensures GraphItem(s, ws, hops, anchor, more[i])
      ensures Newer(s, more[i]) <==> i < mid - |out0|
    {
      assert more[i] == out[|out0| + i];
      StepIsGraphItem(s, ws, hops, anchor, cur, |out0| + i < mid, more[i]);
      NewerIff(s, cur, more[i]);
    }
    assert more[mid - |out0|..] == out[mid..];
  }

  lemma NodeAt(cur: Node, more: seq<Item>, mid: nat, nodes: seq<Node>, i: nat)
    requires mid <= i < |more| && Mirrors(cur, nodes, more[mid..])
    ensures i - mid < |nodes| && nodes[i - mid] == Node(more[i].memory.id, cur.depth + 1, more[i].via)
  {
    assert more[mid..][i - mid] == more[i];
  }

  lemma QueueStep(s: State, ws: string, hops: int, anchor: Anchor, all: seq<Node>, head: nat, more: seq<Item>, mid: nat,
                  nodes: seq<Node>)
    requires QueueOk(s, ws, anchor.id, all, head) && head < |all|
    requires FromNode(s, ws, hops, anchor, all[head], more, mid, nodes)
    ensures QueueOk(s, ws, anchor.id, all + nodes, head + 1)
  {
    forall j | 0 <= j < |nodes| ensures NodeOk(s, ws, anchor.id, nodes[j]) && nodes[j].depth == all[head].depth + 1 {
      NodeAt(all[head], more, mid, nodes, mid + j);
      assert GraphItem(s, ws, hops, anchor, more[mid + j]);
    }
  }

  lemma HitsStep(s: State, ws: string, hops: int, anchor: Anchor, cur: Node, mine: seq<Item>, all: seq<Node>,
                 more: seq<Item>, mid: nat, nodes: seq<Node>)
    requires HitsAndNodes(s, mine, all) && FromNode(s, ws, hops, anchor, cur, more, mid, nodes) && all != []
    ensures HitsAndNodes(s, mine + more, all + nodes)
  {
    var mine', all' := mine + more, all + nodes;
    forall i | 0 <= i < |mine'| ensures Newer(s, mine'[i]) || IsNode(s, mine'[i], all') {
      if i < |mine| {
        assert mine'[i] == mine[i];
        NodeGrows(s, mine[i], all, nodes);
      } else {
        assert mine'[i] == more[i - |mine|];
        MoreIsNode(s, ws, hops, anchor, cur, all, more, mid, nodes, i - |mine|);
      }
    }
    forall j | 1 <= j < |all'| ensures IsHit(s, mine', all'[j]) {
      if j < |all| {
        assert all'[j] == all[j];
        HitGrows(s, mine, more, all[j]);
      } else {
        assert all'[j] == nodes[j - |all|];
        NodeIsHit(s, ws, hops, anchor, cur, mine, more, mid, nodes, j - |all|);
      }
    }
  }

  lemma HitGrows(s: State, mine: seq<Item>, more: seq<Item>, n: Node)
    requires IsHit(s, mine, n)
    ensures IsHit(s, mine + more, n)
  {
    var i :| 0 <= i < |mine| && Same(s, mine[i], n);
    assert (mine + more)[i] == mine[i];
  }

  lemma NodeIsHit(s: State, ws: string, hops: int, anchor: Anchor, cur: Node, mine: seq<Item>, more: seq<Item>,
                  mid: nat, nodes: seq<Node>, j: nat)
    requires FromNode(s, ws, hops, anchor, cur, more, mid, nodes) && j < |nodes|
    ensures IsHit(s, mine + more, nodes[j])
  {
    NodeAt(cur, more, mid, nodes, mid + j);
    assert (mine + more)[|mine| + mid + j] == more[mid + j];
  }

  lemma NodeGrows(s: State, it: Item, all: seq<Node>, nodes: seq<Node>)
    ensures IsNode(s, it, all) ==> IsNode(s, it, all + nodes)
  {
    if j :| 1 <= j < |all| && Same(s, it, all[j]) {
      assert (all + nodes)[j] == all[j];
    }
  }

  lemma MoreIsNode(s: State, ws: string, hops: int, anchor: Anchor, cur: Node, all: seq<Node>, more: seq<Item>,
                   mid: nat, nodes: seq<Node>, i: nat)
    requires FromNode(s, ws, hops, anchor, cur, more, mid, nodes) && all != [] && i < |more|
    ensures Newer(s, more[i]) || IsNode(s, more[i], all + nodes)
  {
    if i >= mid {
      NodeAt(cur, more, mid, nodes, i);
      assert (all + nodes)[|all| + (i - mid)] == nodes[i - mid];
    }
  }

  lemma HasIdGrows(all: seq<Node>, nodes: seq<Node>, id: Id)
    requires HasId(all, id)
    ensures HasId(all + nodes, id)
  {
    var j :| 1 <= j < |all| && all[j].id == id;
    assert (all + nodes)[j].id == id;
  }

  lemma ThroughStep(s: State, ws: string, hops: int, anchor: Anchor, mine: seq<Item>, all: seq<Node>, head: nat,
                    more: seq<Item>, mid: nat, nodes: seq<Node>)
    requires ThroughNodes(mine, all) && head < |all| && FromNode(s, ws, hops, anchor, all[head], more, mid, nodes)
    ensures ThroughNodes(mine + more, all + nodes)
  {
    var mine', all', path := mine + more, all + nodes, all[head].path;
    forall k | 1 <= k < |path| ensures HasId(all', path[k]) { HasIdGrows(all, nodes, path[k]); }
    forall j, k | 0 <= j < |all'| && 1 <= k < |all'[j].path| ensures HasId(all', all'[j].path[k]) {
      if j < |all| {
        HasIdGrows(all, nodes, all[j].path[k]);
      } else {
        NodeAt(all[head], more, mid, nodes, mid + (j - |all|));
        assert all'[j].path == path + [all'[j].id];
        if k == |path| {
          assert all'[j].id == all'[j].path[k];
        }
      }
    }
    forall i, k | 0 <= i < |mine'| && 1 <= k < |mine'[i].via| - 1 ensures HasId(all', mine'[i].via[k]) {
      if i < |mine| {
        HasIdGrows(all, nodes, mine[i].via[k]);
      } else {
        assert mine'[i].via == path + [mine'[i].memory.id];
      }
    }
  }

  lemma OrderStep(s: State, ws: string, hops: int, anchor: Anchor, mine: seq<Item>, all: seq<Node>, head: nat,
                  more: seq<Item>, mid: nat, nodes: seq<Node>)
    requires InOrder(mine, all, head) && QueueOk(s, ws, anchor.id, all, head) && head < |all|
    requires QueueOk(s, ws, anchor.id, all + nodes, head + 1)
    requires FromNode(s, ws, hops, anchor, all[head], more, mid, nodes)
    ensures InOrder(mine + more, all + nodes, head + 1)
  {
    assert NodeOk(s, ws, anchor.id, all[head]);
    assert forall i :: 0 <= i < |more| ==> |more[i].via| == all[head].depth + 1;
    assert head + 1 < |all + nodes| ==> (all + nodes)[head].depth <= (all + nodes)[head + 1].depth;
  }

  lemma WithinGrows(mine: seq<Item>, more: seq<Item>, id: Id, length: int)
    requires Within(mine, id, length)
    ensures Within(mine + more, id, length)
  {
    var i :| 0 <= i < |mine| && mine[i].memory.id == id && |mine[i].via| <= length;
    assert (mine + more)[i].memory.id == id;
  }

  lemma ExpandedStep(s: State, ws: string, hops: int, avoid: set<Id>, mine: seq<Item>, all: seq<Node>, head: nat,
                     more: seq<Item>, nodes: seq<Node>)
    requires head < |all| && Expanded(s, ws, hops, avoid, mine, all, head)
    requires forall b :: Inside(s, ws, b) && b !in avoid && Adjacent(s, all[head].id, b) && all[head].depth <= hops ==>
      Within(mine + more, b, all[head].depth + 1)
    ensures Expanded(s, ws, hops, avoid, mine + more, all + nodes, head + 1)
  {
    var mine', all' := mine + more, all + nodes;
    forall i, b | 0 <= i < head + 1 && all'[i].depth <= hops && Inside(s, ws, b) && b !in avoid
      && Adjacent(s, all'[i].id, b)
      ensures Within(mine', b, all'[i].depth + 1)
    {
      if i < head {
        WithinGrows(mine, more, b, all[i].depth + 1);
      }
    }
  }

  /** A neighbour of the node is reported by now: it was before, or the node did it. */
  lemma NeighborWithin(s: State, ws: string, anchors: seq<Anchor>, anchor: Anchor, avoid: set<Id>, cur: Node,
                       seen: set<Id>, out: seq<Item>, from: nat, b: Id)
    requires Accounted(s, ws, anchors, seen, out) && from <= |out| && avoid == Known(anchors, out[..from])
    requires b in seen && Inside(s, ws, b) && b !in avoid
    requires forall i :: from <= i < |out| ==> |out[i].via| <= cur.depth + 1
    ensures Within(out[from..], b, cur.depth + 1)
  {
    forall k | 0 <= k < |anchors| ensures anchors[k].id != b { assert anchors[k] in anchors; }
    assert Emitted(out, b);
    var i :| 0 <= i < |out| && out[i].memory.id == b;
    forall j | 0 <= j < from ensures out[j].memory.id != b { assert out[..from][j] in out[..from]; }
    assert out[from..][i - from].memory.id == b;
  }

  lemma SearchingStep(s: State, ws: string, hops: int, anchors: seq<Anchor>, anchor: Anchor, seen0: set<Id>,
                      out0: seq<Item>, from: nat, all: seq<Node>, head: nat, avoid: set<Id>,
                      seen: set<Id>, out: seq<Item>, mid: nat, nodes: seq<Node>)
    requires Searching(s, ws, hops, anchors, anchor, seen0, out0, from, all, head, avoid)
    requires head < |all| && all[head].depth <= hops
    requires VisitedNode(s, ws, anchors, anchor, all[head], seen0, out0, seen, out, mid, nodes)
    ensures Searching(s, ws, hops, anchors, anchor, seen, out, from, all + nodes, head + 1, avoid)
  {
    var cur, mine, more := all[head], out0[from..], out[|out0|..];
    NodeVisited(s, ws, hops, anchors, anchor, cur, seen0, out0, seen, out, mid, nodes);
    assert out[from..] == mine + more && out[..from] == out0[..from];
    TracksStep(s, ws, hops, anchors, anchor, avoid, mine, all, head, more, mid - |out0|, nodes, seen, out, from);
  }

  lemma AllGraphBoth(s: State, ws: string, hops: int, anchor: Anchor, mine: seq<Item>, more: seq<Item>)
    requires AllGraph(s, ws, hops, anchor, mine, 0) && AllGraph(s, ws, hops, anchor, more, 0)
    ensures AllGraph(s, ws, hops, anchor, mine + more, 0)
  {
    var both := mine + more;
    forall i | 0 <= i < |both| ensures GraphItem(s, ws, hops, anchor, both[i]) {
      assert both[i] == if i < |mine| then mine[i] else more[i - |mine|];
    }
  }

  lemma CloseEnough(s: State, ws: string, anchor: Id, mine: seq<Item>, all: seq<Node>, head: nat, more: seq<Item>,
                    out: seq<Item>, from: nat)
    requires InOrder(mine, all, head) && head < |all| && NodeOk(s, ws, anchor, all[head])
    requires forall i :: 0 <= i < |more| ==> more[i].via == all[head].path + [more[i].memory.id]
    requires from <= |out| && out[from..] == mine + more
    ensures forall i :: from <= i < |out| ==> |out[i].via| <= all[head].depth + 1
  {
    forall i | from <= i < |out| ensures |out[i].via| <= all[head].depth + 1 {
      assert out[i] == (mine + more)[i - from];
    }
  }

  lemma TracksStep(s: State, ws: string, hops: int, anchors: seq<Anchor>, anchor: Anchor, avoid: set<Id>,
                   mine: seq<Item>, all: seq<Node>, head: nat, more: seq<Item>, mid: nat, nodes: seq<Node>,
                   seen: set<Id>, out: seq<Item>, from: nat)
    requires Tracks(s, ws, hops, anchor, avoid, mine, all, head) && head < |all| && all[head].depth <= hops
    requires FromNode(s, ws, hops, anchor, all[head], more, mid, nodes)
    requires Accounted(s, ws, anchors, seen, out) && from <= |out| && avoid == Known(anchors, out[..from])
    requires out[from..] == mine + more && forall b :: Adjacent(s, all[head].id, b) ==> b in seen
    ensures Tracks(s, ws, hops, anchor, avoid, mine + more, all + nodes, head + 1)
  {
    QueueStep(s, ws, hops, anchor, all, head, more, mid, nodes);
    HitsStep(s, ws, hops, anchor, all[head], mine, all, more, mid, nodes);
    ThroughStep(s, ws, hops, anchor, mine, all, head, more, mid, nodes);
    OrderStep(s, ws, hops, anchor, mine, all, head, more, mid, nodes);
    AllGraphBoth(s, ws, hops, anchor, mine, more);
    CloseEnough(s, ws, anchor.id, mine, all, head, more, out, from);
    forall b | Inside(s, ws, b) && b !in avoid && Adjacent(s, all[head].id, b)
      ensures Within(mine + more, b, all[head].depth + 1)
    {
      NeighborWithin(s, ws, anchors, anchor, avoid, all[head], seen, out, from, b);
    }
    ExpandedStep(s, ws, hops, avoid, mine, all, head, more, nodes);
  }

  lemma PopAndPush(all: seq<Node>, head: nat, nodes: seq<Node>)
    requires head < |all|
    ensures (all + nodes)[head + 1..] == all[head..][1..] + nodes
  {
  }

  lemma SearchingSkip(s: State, ws: string, hops: int, anchors: seq<Anchor>, anchor: Anchor, seen: set<Id>,
                      out: seq<Item>, from: nat, all: seq<Node>, head: nat, avoid: set<Id>)
    requires Searching(s, ws, hops, anchors, anchor, seen, out, from, all, head, avoid)
    requires head < |all| && all[head].depth > hops
    ensures Searching(s, ws, hops, anchors, anchor, seen, out, from, all, head + 1, avoid)
  {
  }

  // ---- What one anchor gets ----

  /** The newer versions among the hits. */
  ghost function Newers(s: State, mine: seq<Item>): set<Id> {
    set it | it in mine && Newer(s, it) :: it.memory.id
  }

  ghost predicate Distinct(mine: seq<Item>) {
    forall i, j :: 0 <= i < j < |mine| ==> mine[i].memory.id != mine[j].memory.id
  }

  /** Once the queue is empty, whatever a walk within the bound ends at is reported, no farther than the walk is long,
      if the walk avoids what was known before and goes on through no newer version. */
  lemma {:induction false} WalkReported(s: State, ws: string, hops: int, anchor: Id, avoid: set<Id>, stop: set<Id>,
                                        mine: seq<Item>, all: seq<Node>, q: seq<Id>, b: Id)
    requires QueueOk(s, ws, anchor, all, |all|) && HitsAndNodes(s, mine, all) && stop == Newers(s, mine)
    requires Expanded(s, ws, hops, avoid, mine, all, |all|)
    requires FreeWalk(s, ws, avoid, stop, q, anchor, b) && 2 <= |q| <= hops + 1
    ensures Within(mine, b, |q|)
    decreases |q|
  {
    var n := |q|;
    assert Adjacent(s, q[n - 2], q[n - 1]);
    if n == 2 {
      assert Within(mine, b, all[0].depth + 1);
    } else {
      var r, c := q[..n - 1], q[n - 2];
      FreeFront(s, ws, avoid, stop, q, anchor, b);
      WalkReported(s, ws, hops, anchor, avoid, stop, mine, all, r, c);
      var j := NodeFor(s, mine, all, c, n - 1);
      assert NodeOk(s, ws, anchor, all[j]);
      assert Within(mine, b, all[j].depth + 1);
    }
  }

  lemma FreeFront(s: State, ws: string, avoid: set<Id>, stop: set<Id>, q: seq<Id>, a: Id, b: Id)
    requires FreeWalk(s, ws, avoid, stop, q, a, b) && |q| >= 3
    ensures FreeWalk(s, ws, avoid, stop, q[..|q| - 1], a, q[|q| - 2]) && q[|q| - 2] !in stop
  {
  }

  /** The node queued for a hit that is no newer version. */
  lemma NodeFor(s: State, mine: seq<Item>, all: seq<Node>, c: Id, length: int) returns (j: nat)
    requires HitsAndNodes(s, mine, all) && Within(mine, c, length) && c !in Newers(s, mine)
    ensures 1 <= j < |all| && all[j].id == c && |all[j].path| <= length
  {
    var i :| 0 <= i < |mine| && mine[i].memory.id == c && |mine[i].via| <= length;
    assert mine[i] in mine && !Newer(s, mine[i]);
    j :| 1 <= j < |all| && Same(s, mine[i], all[j]);
  }

  /** No queued node is a newer version. */
  lemma NodeIsNotNewer(s: State, mine: seq<Item>, all: seq<Node>, id: Id)
    requires HitsAndNodes(s, mine, all) && Distinct(mine) && HasId(all, id)
    ensures Emitted(mine, id) && id !in Newers(s, mine)
  {
    var j :| 1 <= j < |all| && all[j].id == id;
    var i :| 0 <= i < |mine| && Same(s, mine[i], all[j]);
    forall it | it in mine && it.memory.id == id ensures it == mine[i] {
      var k :| 0 <= k < |mine| && mine[k] == it;
    }
  }

  /** Every hit comes with a walk that avoids what was known and goes on through no newer version. */
  lemma HitWalk(s: State, ws: string, anchor: Id, avoid: set<Id>, mine: seq<Item>, all: seq<Node>, i: nat)
    requires HitsAndNodes(s, mine, all) && ThroughNodes(mine, all) && Distinct(mine) && i < |mine|
    requires Walk(s, ws, mine[i].via, anchor, mine[i].memory.id)
    requires forall k :: 0 <= k < |mine| ==> mine[k].memory.id !in avoid
    ensures FreeWalk(s, ws, avoid, Newers(s, mine), mine[i].via, anchor, mine[i].memory.id)
  {
    var via := mine[i].via;
    forall k | 1 <= k < |via| - 1 ensures via[k] !in avoid && via[k] !in Newers(s, mine) {
      NodeIsNotNewer(s, mine, all, via[k]);
      var j :| 0 <= j < |mine| && mine[j].memory.id == via[k];
    }
  }

  ghost predicate Reached(s: State, ws: string, hops: int, anchor: Id, avoid: set<Id>, stop: set<Id>, b: Id) {
    exists q :: FreeWalk(s, ws, avoid, stop, q, anchor, b) && 2 <= |q| <= hops + 1
  }

  /** No such walk to the same end is shorter. */
  ghost predicate FreeShortest(s: State, ws: string, anchor: Id, avoid: set<Id>, stop: set<Id>, p: seq<Id>, b: Id) {
    && FreeWalk(s, ws, avoid, stop, p, anchor, b)
    && (forall q :: FreeWalk(s, ws, avoid, stop, q, anchor, b) ==> |p| <= |q|)
  }

  /** The hits are exactly what the anchor reaches within the bound by walks that avoid what was known before and go
      on through none of the newer versions among the hits, nearest first, each with a shortest such walk. */
  ghost predicate ExactBut(s: State, ws: string, hops: int, anchor: Anchor, avoid: set<Id>, mine: seq<Item>) {
    var stop := Newers(s, mine);
    && (forall b :: Emitted(mine, b) <==> Reached(s, ws, hops, anchor.id, avoid, stop, b))
    && (forall i :: 0 <= i < |mine| ==> FreeShortest(s, ws, anchor.id, avoid, stop, mine[i].via, mine[i].memory.id))
    && (forall i, j :: 0 <= i < j < |mine| ==> |mine[i].via| <= |mine[j].via|)
    && AllGraph(s, ws, hops, anchor, mine, 0)
  }

  /** The path given with a hit is a shortest such walk. */
  lemma ShortestReported(s: State, ws: string, hops: int, anchor: Id, avoid: set<Id>, stop: set<Id>, mine: seq<Item>,
                         all: seq<Node>, i: nat)
    requires QueueOk(s, ws, anchor, all, |all|) && HitsAndNodes(s, mine, all) && stop == Newers(s, mine)
    requires Expanded(s, ws, hops, avoid, mine, all, |all|) && Distinct(mine) && i < |mine| && anchor in avoid
    requires FreeWalk(s, ws, avoid, stop, mine[i].via, anchor, mine[i].memory.id) && 2 <= |mine[i].via| <= hops + 1
    ensures FreeShortest(s, ws, anchor, avoid, stop, mine[i].via, mine[i].memory.id)
  {
    var p, b := mine[i].via, mine[i].memory.id;
    assert b == p[|p| - 1] && b !in avoid;
    forall q | FreeWalk(s, ws, avoid, stop, q, anchor, b) ensures |p| <= |q| {
      assert q[0] == anchor && q[|q| - 1] == b;
      if |q| <= hops + 1 {
        WalkReported(s, ws, hops, anchor, avoid, stop, mine, all, q, b);
        var k :| 0 <= k < |mine| && mine[k].memory.id == b && |mine[k].via| <= |q|;
        assert k == i;
      }
    }
  }

  lemma HitReached(s: State, ws: string, hops: int, anchor: Anchor, avoid: set<Id>, mine: seq<Item>, all: seq<Node>,
                   i: nat)
    requires HitsAndNodes(s, mine, all) && ThroughNodes(mine, all) && Distinct(mine) && i < |mine|
    requires AllGraph(s, ws, hops, anchor, mine, 0)
    requires forall k :: 0 <= k < |mine| ==> mine[k].memory.id !in avoid
    ensures FreeWalk(s, ws, avoid, Newers(s, mine), mine[i].via, anchor.id, mine[i].memory.id)
    ensures 2 <= |mine[i].via| <= hops + 1
  {
    assert GraphItem(s, ws, hops, anchor, mine[i]);
    HitWalk(s, ws, anchor.id, avoid, mine, all, i);
  }

  lemma ExactFromQueue(s: State, ws: string, hops: int, anchor: Anchor, avoid: set<Id>, mine: seq<Item>, all: seq<Node>)
    requires Tracks(s, ws, hops, anchor, avoid, mine, all, |all|) && Distinct(mine) && anchor.id in avoid
    requires forall k :: 0 <= k < |mine| ==> mine[k].memory.id !in avoid
    ensures ExactBut(s, ws, hops, anchor, avoid, mine)
  {
    var stop := Newers(s, mine);
    forall b ensures Emitted(mine, b) <==> Reached(s, ws, hops, anchor.id, avoid, stop, b) {
      if q :| FreeWalk(s, ws, avoid, stop, q, anchor.id, b) && 2 <= |q| <= hops + 1 {
        WalkReported(s, ws, hops, anchor.id, avoid, stop, mine, all, q, b);
      }
      if i :| 0 <= i < |mine| && mine[i].memory.id == b {
        HitReached(s, ws, hops, anchor, avoid, mine, all, i);
      }
    }
    forall i | 0 <= i < |mine|
      ensures FreeShortest(s, ws, anchor.id, avoid, stop, mine[i].via, mine[i].memory.id)
    {
      HitReached(s, ws, hops, anchor, avoid, mine, all, i);
      ShortestReported(s, ws, hops, anchor.id, avoid, stop, mine, all, i);
    }
  }

  /** One step of a walk. */
  lemma StepWalk(s: State, ws: string, avoid: set<Id>, stop: set<Id>, a: Id, b: Id)
    requires Adjacent(s, a, b) && Inside(s, ws, b) && b !in avoid
    ensures FreeWalk(s, ws, avoid, stop, [a, b], a, b)
  {
  }

  /** A direct neighbour that was not known before is reported straight from the anchor. */
  lemma NeighborHit(s: State, ws: string, hops: int, anchor: Anchor, avoid: set<Id>, mine: seq<Item>, b: Id)
    returns (i: nat)
    requires ExactBut(s, ws, hops, anchor, avoid, mine) && hops >= 1
    requires Adjacent(s, anchor.id, b) && Inside(s, ws, b) && b !in avoid
    ensures i < |mine| && mine[i].memory.id == b && |mine[i].via| <= 2 && GraphItem(s, ws, hops, anchor, mine[i])
  {
    var stop := Newers(s, mine);
    StepWalk(s, ws, avoid, stop, anchor.id, b);
    assert Reached(s, ws, hops, anchor.id, avoid, stop, b);
    i :| 0 <= i < |mine| && mine[i].memory.id == b;
    assert FreeShortest(s, ws, anchor.id, avoid, stop, mine[i].via, b);
  }

  /** b with 6 tenths of the anchor's score, but 0.05 at least, straight from the anchor. */
  ghost predicate Straight(s: State, anchor: Anchor, it: Item, b: Id) {
    && b in s.memories && it.memory == s.memories[b] && it.via == [anchor.id, b]
    && it.sim == if anchor.score * 0.6 >= 0.05 then anchor.score * 0.6 else 0.05
  }

  /** It is reported, and no path of the turn goes on through it. */
  ghost predicate SuccessorReported(s: State, anchor: Anchor, mine: seq<Item>, b: Id) {
    && (exists i :: 0 <= i < |mine| && Straight(s, anchor, mine[i], b))
    && (forall j, k :: 0 <= j < |mine| && 1 <= k < |mine[j].via| - 1 ==> mine[j].via[k] != b)
  }

  /** A direct successor that was not known before comes with 6 tenths of the score, straight from the anchor, and no
      hit of the anchor goes on through it. */
  lemma SuccessorHit(s: State, ws: string, hops: int, anchor: Anchor, avoid: set<Id>, mine: seq<Item>, b: Id)
    requires ExactBut(s, ws, hops, anchor, avoid, mine) && hops >= 1
    requires HasLive(s, anchor.id, SUPERSEDES, b) && Inside(s, ws, b) && b !in avoid
    ensures SuccessorReported(s, anchor, mine, b)
  {
    SupersedesJoins(s, anchor.id, b);
    var i := NeighborHit(s, ws, hops, anchor, avoid, mine, b);
    SimStraight(s, ws, hops, anchor, mine[i], b);
    assert mine[i] in mine && b in Newers(s, mine);
    StopsAt(s, ws, hops, anchor, avoid, mine, b);
  }

  lemma SimStraight(s: State, ws: string, hops: int, anchor: Anchor, it: Item, b: Id)
    requires GraphItem(s, ws, hops, anchor, it) && it.memory.id == b && |it.via| <= 2
    requires HasLive(s, anchor.id, SUPERSEDES, b)
    ensures Straight(s, anchor, it, b) && Newer(s, it)
  {
    assert it.via == [anchor.id, b];
    assert anchor.score * 0.6 / 1 as real == anchor.score * 0.6;
  }

  lemma StopsAt(s: State, ws: string, hops: int, anchor: Anchor, avoid: set<Id>, mine: seq<Item>, b: Id)
    requires ExactBut(s, ws, hops, anchor, avoid, mine) && b in Newers(s, mine)
    ensures forall j, k :: 0 <= j < |mine| && 1 <= k < |mine[j].via| - 1 ==> mine[j].via[k] != b
  {
    forall j, k | 0 <= j < |mine| && 1 <= k < |mine[j].via| - 1 ensures mine[j].via[k] != b {
      assert FreeShortest(s, ws, anchor.id, avoid, Newers(s, mine), mine[j].via, mine[j].memory.id);
    }
  }

  // ---- A lone anchor ----

  /** The hits are exactly the other memories within the bound, nearest first, each with a shortest path. */
  ghost predicate Exact(s: State, ws: string, hops: int, anchor: Id, out: seq<Item>) {
    && (forall b :: Emitted(out, b) <==> b != anchor && exists q :: Walk(s, ws, q, anchor, b) && |q| <= hops + 1)
    && (forall i :: 0 <= i < |out| ==> Walk(s, ws, out[i].via, anchor, out[i].memory.id) && Shortest(s, ws, out[i].via))
    && (forall i, j :: 0 <= i < j < |out| ==> |out[i].via| <= |out[j].via|)
  }

  /** A walk that comes back to its start has a shorter one inside that does not. */
  lemma {:induction false} WithoutReturn(s: State, ws: string, q: seq<Id>, a: Id, b: Id) returns (r: seq<Id>)
    requires Walk(s, ws, q, a, b)
    ensures FreeWalk(s, ws, {a}, {}, r, a, b) && |r| <= |q|
    decreases |q|
  {
    if i :| 1 <= i < |q| && q[i] == a {
      assert forall j, k :: 0 <= j && k == j + 1 && k < |q[i..]| ==> q[i..][j] == q[i + j] && q[i..][k] == q[i + k];
      assert Walk(s, ws, q[i..], a, b);
      r := WithoutReturn(s, ws, q[i..], a, b);
    } else {
      r := q;
    }
  }

  lemma NoneNewer(s: State, mine: seq<Item>)
    requires NoSupersedes(s)
    ensures Newers(s, mine) == {}
  {
    forall a, b ensures !HasLive(s, a, SUPERSEDES, b) {}
  }

  /** So with nothing else to avoid, and no newer versions, an anchor gets everything within the bound. */
  lemma LoneExact(s: State, ws: string, hops: int, anchor: Anchor, out: seq<Item>)
    requires ExactBut(s, ws, hops, anchor, {anchor.id}, out) && NoSupersedes(s)
    ensures Exact(s, ws, hops, anchor.id, out)
  {
    var a := anchor.id;
    NoneNewer(s, out);
    forall b ensures Emitted(out, b) <==> b != a && exists q :: Walk(s, ws, q, a, b) && |q| <= hops + 1 {
      if q :| b != a && Walk(s, ws, q, a, b) && |q| <= hops + 1 {
        var r := WithoutReturn(s, ws, q, a, b);
        assert Reached(s, ws, hops, a, {a}, {}, b);
      }
      if Emitted(out, b) {
        var q :| FreeWalk(s, ws, {a}, {}, q, a, b) && 2 <= |q| <= hops + 1;
        assert Walk(s, ws, q, a, b) && b == q[|q| - 1];
      }
    }
    forall i | 0 <= i < |out| ensures Shortest(s, ws, out[i].via) {
      var p := out[i].via;
      assert FreeShortest(s, ws, a, {a}, {}, p, out[i].memory.id);
      forall q | Path(s, ws, q) && q[0] == p[0] && q[|q| - 1] == p[|p| - 1] ensures |p| <= |q| {
        var r := WithoutReturn(s, ws, q, a, out[i].memory.id);
      }
    }
  }

  // ---- The search ----

  /** The unvisited rows get fewer, or the queue shorter. */
  ghost predicate Shrinks(s: State, seen0: set<Id>, before: nat, seen: set<Id>, after: nat) {
    var left0, left := s.memories.Keys - seen0, s.memories.Keys - seen;
    left < left0 || (left == left0 && after < before)
  }

  lemma QueueingShrinks(s: State, ws: string, anchors: seq<Anchor>, anchor: Anchor, cur: Node, seen0: set<Id>,
                        out0: seq<Item>, seen: set<Id>, out: seq<Item>, mid: nat, nodes: seq<Node>, before: nat)
    requires VisitedNode(s, ws, anchors, anchor, cur, seen0, out0, seen, out, mid, nodes) && before > 0
    ensures Shrinks(s, seen0, before, seen, before - 1 + |nodes|)
  {
    if nodes != [] {
      assert nodes[0].id == out[mid..][0].memory.id == out[mid].memory.id;
      assert nodes[0].id in s.memories.Keys - seen0 && nodes[0].id !in s.memories.Keys - seen;
    }
  }

  /** Takes the first node off the queue, expands it unless it is too deep, and queues what it led to. */
  method SearchStep(store: Store, ws: string, hops: int, ghost anchors: seq<Anchor>, anchor: Anchor, seen0: set<Id>,
                    out0: seq<Item>, ghost from: nat, frontier0: seq<Node>, ghost all0: seq<Node>, ghost head: nat,
                    ghost avoid: set<Id>)
    returns (seen: set<Id>, out: seq<Item>, frontier: seq<Node>, ghost all: seq<Node>)
    requires store.Valid()
    requires Searching(store.Now(), ws, hops, anchors, anchor, seen0, out0, from, all0, head, avoid)
    requires Waiting(frontier0, all0, head) && frontier0 != []
    ensures Searching(store.Now(), ws, hops, anchors, anchor, seen, out, from, all, head + 1, avoid)
    ensures Waiting(frontier, all, head + 1) && seen0 <= seen && out0 <= out
    ensures Shrinks(store.Now(), seen0, |frontier0|, seen, |frontier|)
  {
    ghost var s := store.Now();
    var cur := frontier0[0];
    frontier := frontier0[1..];
    seen, out, all := seen0, out0, all0;
    assert NodeOk(s, ws, anchor.id, all0[head]);
    if cur.depth > hops {
      SearchingSkip(s, ws, hops, anchors, anchor, seen0, out0, from, all0, head, avoid);
    } else {
      var nodes;
      ghost var mid;
      seen, out, nodes, mid := VisitNode(store, ws, anchors, anchor, cur, seen0, out0);
      SearchingStep(s, ws, hops, anchors, anchor, seen0, out0, from, all0, head, avoid, seen, out, mid, nodes);
      PopAndPush(all0, head, nodes);
      frontier, all := frontier + nodes, all0 + nodes;
      QueueingShrinks(s, ws, anchors, anchor, cur, seen0, out0, seen, out, mid, nodes, |frontier0|);
    }
  }

  /** The anchors and what has been reported so far. */
  ghost function Known(anchors: seq<Anchor>, out: seq<Item>): set<Id> {
    (set r | r in anchors :: r.id) + (set it | it in out :: it.memory.id)
  }

  lemma AnchorKnown(anchors: seq<Anchor>, out: seq<Item>, id: Id)
    requires IsAnchor(anchors, id)
    ensures id in Known(anchors, out)
  {
    var k :| 0 <= k < |anchors| && anchors[k].id == id;
    assert anchors[k] in anchors;
  }

  lemma SearchingStart(s: State, ws: string, hops: int, anchors: seq<Anchor>, anchor: Anchor, seen: set<Id>,
                       out: seq<Item>)
    requires Accounted(s, ws, anchors, seen, out) && IsAnchor(anchors, anchor.id)
    ensures Searching(s, ws, hops, anchors, anchor, seen, out, |out|, [Node(anchor.id, 1, [anchor.id])], 0,
                      Known(anchors, out))
  {
    assert out[..|out|] == out && out[|out|..] == [];
  }

  /** What is reported now was neither an anchor nor reported before. */
  lemma MineAreNew(s: State, ws: string, anchors: seq<Anchor>, seen: set<Id>, out: seq<Item>, from: nat)
    requires Accounted(s, ws, anchors, seen, out) && from <= |out|
    ensures Distinct(out[from..])
    ensures forall k :: 0 <= k < |out[from..]| ==> out[from..][k].memory.id !in Known(anchors, out[..from])
  {
    var mine := out[from..];
    assert forall k :: 0 <= k < |mine| ==> mine[k] == out[from + k];
    forall k | 0 <= k < |mine| ensures mine[k].memory.id !in Known(anchors, out[..from]) {
      forall r | r in anchors ensures r.id != mine[k].memory.id {
        var i :| 0 <= i < |anchors| && anchors[i] == r;
      }
      forall it | it in out[..from] ensures it.memory.id != mine[k].memory.id {
        var i :| 0 <= i < from && out[i] == it;
      }
    }
  }

  lemma SearchingDone(s: State, ws: string, hops: int, anchors: seq<Anchor>, anchor: Anchor, seen: set<Id>,
                      out: seq<Item>, from: nat, all: seq<Node>, avoid: set<Id>)
    requires Searching(s, ws, hops, anchors, anchor, seen, out, from, all, |all|, avoid)
    ensures ExactBut(s, ws, hops, anchor, avoid, out[from..])
  {
    MineAreNew(s, ws, anchors, seen, out, from);
    AnchorKnown(anchors, out[..from], anchor.id);
    ExactFromQueue(s, ws, hops, anchor, avoid, out[from..], all);
  }

  /** The queue is what has not been processed yet. */
  ghost predicate Waiting(frontier: seq<Node>, all: seq<Node>, head: nat) {
    head <= |all| && frontier == all[head..]
  }

  lemma NothingWaits(all: seq<Node>, head: nat)
    requires Waiting([], all, head)
    ensures head == |all|
  {
    assert |all[head..]| == |all| - head;
  }

  /** Runs the queue of one anchor until it is empty. */
  method RunQueue(store: Store, ws: string, hops: int, ghost anchors: seq<Anchor>, anchor: Anchor, seen0: set<Id>,
                  out0: seq<Item>, ghost avoid: set<Id>)
    returns (seen: set<Id>, out: seq<Item>, ghost all: seq<Node>)
    requires store.Valid()
    requires Searching(store.Now(), ws, hops, anchors, anchor, seen0, out0, |out0|,
                       [Node(anchor.id, 1, [anchor.id])], 0, avoid)
    ensures Searching(store.Now(), ws, hops, anchors, anchor, seen, out, |out0|, all, |all|, avoid)
    ensures seen0 <= seen && out0 <= out
  {
    ghost var s := store.Now();
    seen, out := seen0, out0;
    var frontier := [Node(anchor.id, 1, [anchor.id])];
    ghost var head := 0;
    all := frontier;
    while frontier != []
      invariant Searching(s, ws, hops, anchors, anchor, seen, out, |out0|, all, head, avoid)
      invariant Waiting(frontier, all, head) && seen0 <= seen && out0 <= out
      decreases s.memories.Keys - seen, |frontier|
    {
      seen, out, frontier, all := SearchStep(store, ws, hops, anchors, anchor, seen, out, |out0|, frontier, all, head, avoid);
      head := head + 1;
    }
    NothingWaits(all, head);
  }

  /** Expands one anchor breadth first. */
  method ExpandAnchor(store: Store, ws: string, hops: int, ghost anchors: seq<Anchor>, anchor: Anchor, seen0: set<Id>,
                      out0: seq<Item>)
    returns (seen: set<Id>, out: seq<Item>)
    requires store.Valid() && Accounted(store.Now(), ws, anchors, seen0, out0) && IsAnchor(anchors, anchor.id)
    ensures Accounted(store.Now(), ws, anchors, seen, out) && seen0 <= seen && out0 <= out
    ensures ExactBut(store.Now(), ws, hops, anchor, Known(anchors, out0), out[|out0|..])
  {
    ghost var s := store.Now();
    ghost var avoid := Known(anchors, out0);
    SearchingStart(s, ws, hops, anchors, anchor, seen0, out0);
    ghost var all;
    seen, out, all := RunQueue(store, ws, hops, anchors, anchor, seen0, out0, avoid);
    SearchingDone(s, ws, hops, anchors, anchor, seen, out, |out0|, all, avoid);
  }

  // ---- Files of visited code symbols ----

  predicate IsFileOf(s: State, ws: string, sym: Id, file: Id) {
    && sym in s.memories && file in s.memories
    && s.memories[sym].typ == CodeSymbol && s.memories[sym].filePath == s.memories[file].filePath != ""
    && Selected(s.memories[file], ws, None, Some(CodeFile))
  }

  ghost predicate AllFiles(s: State, ws: string, out: seq<Item>, from: nat) {
    forall i :: from <= i < |out| ==> FileItem(s, ws, out[i])
  }

  /** Reports the files of one visited memory, if it is a code symbol with a path. */
  method FilesOf(store: Store, ws: string, ghost anchors: seq<Anchor>, memId: Id, seen0: set<Id>, out0: seq<Item>)
    returns (seen: set<Id>, out: seq<Item>)
    requires store.Valid() && Accounted(store.Now(), ws, anchors, seen0, out0)
    ensures Accounted(store.Now(), ws, anchors, seen, out)
    ensures seen0 <= seen && out0 <= out && AllFiles(store.Now(), ws, out, |out0|)
    ensures forall f :: IsFileOf(store.Now(), ws, memId, f) ==> f in seen
  {
    ghost var s := store.Now();
    seen, out := seen0, out0;
    var mem := store.GetMemory(memId);
    if mem.None? || mem.value.typ != CodeSymbol || mem.value.filePath == "" {
      return;
    }
    var files := store.IterMemories(ws, None, Some(CodeFile));
    for i := 0 to |files|
      invariant Accounted(s, ws, anchors, seen, out)
      invariant seen0 <= seen && out0 <= out && AllFiles(s, ws, out, |out0|)
      invariant forall j :: 0 <= j < i && files[j].filePath == mem.value.filePath ==> files[j].id in seen
    {
      var m := files[i];
      assert m in files;
      if m.filePath == mem.value.filePath && m.id !in seen {
        var it := Item(m, 0.1, [memId, m.id]);
        AccountedEmit(s, ws, anchors, seen, out, it);
        seen, out := seen + {m.id}, out + [it];
      }
    }
    forall f | IsFileOf(s, ws, memId, f) ensures f in seen {
      assert s.memories[f] in files;
    }
  }

  /** Goes over the ids visited so far, in any order; the files it adds are not visited in turn. */
  method Backtrack(store: Store, ws: string, ghost anchors: seq<Anchor>, seen0: set<Id>, out0: seq<Item>)
    returns (seen: set<Id>, out: seq<Item>)
    requires store.Valid() && Accounted(store.Now(), ws, anchors, seen0, out0)
    ensures Accounted(store.Now(), ws, anchors, seen, out)
    ensures out0 <= out && AllFiles(store.Now(), ws, out, |out0|)
    ensures forall sym, f :: sym in seen0 && IsFileOf(store.Now(), ws, sym, f) ==> f in seen
  {
    ghost var s := store.Now();
    seen, out := seen0, out0;
    var seenIds := seen0;
    while seenIds != {}
      invariant Accounted(s, ws, anchors, seen, out)
      invariant out0 <= out && AllFiles(s, ws, out, |out0|)
      invariant forall sym, f :: sym in seen0 && sym !in seenIds && IsFileOf(s, ws, sym, f) ==> f in seen
      decreases seenIds
    {
      var memId :| memId in seenIds;
      seenIds := seenIds - {memId};
      ghost var outBefore := out;
      seen, out := FilesOf(store, ws, anchors, memId, seen, out);
      assert forall i :: |out0| <= i < |outBefore| ==> out[i] == outBefore[i];
    }
  }

  // ---- The whole tier ----

  ghost predicate FromSomeAnchor(s: State, ws: string, hops: int, anchors: seq<Anchor>, it: Item) {
    exists k :: 0 <= k < |anchors| && GraphItem(s, ws, hops, anchors[k], it)
  }

  /** Each anchor in turn gets exactly what it reaches by walks that avoid the anchors and what was reported before
      its turn; the hits of anchor k lie between positions cuts[k] and cuts[k + 1]. */
  ghost predicate ExactInTurn(s: State, ws: string, hops: int, anchors: seq<Anchor>, n: nat, out: seq<Item>,
                              cuts: seq<nat>) {
    && n <= |anchors| && |cuts| == n + 1 && cuts[0] == 0 && cuts[n] == |out|
    && (forall k, l :: 0 <= k < l <= n ==> cuts[k] <= cuts[l])
    && (forall k, l :: 0 <= k && l == k + 1 && l <= n ==>
          ExactBut(s, ws, hops, anchors[k], Known(anchors, out[..cuts[k]]), out[cuts[k]..cuts[l]]))
  }

  lemma NextTurn(s: State, ws: string, hops: int, anchors: seq<Anchor>, n: nat, out0: seq<Item>, cuts: seq<nat>,
                 out: seq<Item>)
    requires ExactInTurn(s, ws, hops, anchors, n, out0, cuts) && n < |anchors| && out0 <= out
    requires ExactBut(s, ws, hops, anchors[n], Known(anchors, out0), out[|out0|..])
    ensures ExactInTurn(s, ws, hops, anchors, n + 1, out, cuts + [|out|])
  {
    var more := cuts + [|out|];
    assert forall k :: 0 <= k <= n ==> more[k] == cuts[k] <= |out0|;
    forall k, l | 0 <= k && l == k + 1 && l <= n + 1
      ensures ExactBut(s, ws, hops, anchors[k], Known(anchors, out[..more[k]]), out[more[k]..more[l]])
    {
      SlicesOf(out0, out, more[k], if l <= n then more[l] else |out0|);
      assert l == n + 1 ==> more[k] == |out0| && more[l] == |out|;
    }
  }

  lemma SlicesOf(out0: seq<Item>, out: seq<Item>, i: nat, j: nat)
    requires out0 <= out && i <= j <= |out0|
    ensures out[..i] == out0[..i] && out[i..j] == out0[i..j] && out[|out0|..|out|] == out[|out0|..]
    ensures i == |out0| ==> out[..i] == out0
  {
  }

  lemma LoneTurn(s: State, ws: string, hops: int, anchors: seq<Anchor>, out: seq<Item>, cuts: seq<nat>)
    requires |anchors| == 1 && ExactInTurn(s, ws, hops, anchors, 1, out, cuts) && NoSupersedes(s)
    ensures Exact(s, ws, hops, anchors[0].id, out)
  {
    assert anchors == [anchors[0]];
    assert Known(anchors, out[..cuts[0]]) == {anchors[0].id};
    assert out[cuts[0]..cuts[1]] == out;
    LoneExact(s, ws, hops, anchors[0], out);
  }

  /** Expands every anchor in turn. */
  method ExpandAll(store: Store, tier1: seq<Anchor>, hops: int, ws: string)
    returns (seen: set<Id>, out: seq<Item>, ghost cuts: seq<nat>)
    requires store.Valid()
    ensures Accounted(store.Now(), ws, tier1, seen, out)
    ensures ExactInTurn(store.Now(), ws, hops, tier1, |tier1|, out, cuts)
  {
    ghost var s := store.Now();
    seen := set r | r in tier1 :: r.id;
    out, cuts := [], [0];
    NoHitsYet(s, ws, tier1, seen);
    for k := 0 to |tier1|
      invariant Accounted(s, ws, tier1, seen, out) && ExactInTurn(s, ws, hops, tier1, k, out, cuts)
    {
      assert IsAnchor(tier1, tier1[k].id);
      ghost var out0 := out;
      seen, out := ExpandAnchor(store, ws, hops, tier1, tier1[k], seen, out);
      NextTurn(s, ws, hops, tier1, k, out0, cuts, out);
      cuts := cuts + [|out|];
    }
  }

  lemma NoHitsYet(s: State, ws: string, anchors: seq<Anchor>, seen: set<Id>)
    requires seen == set r | r in anchors :: r.id
    ensures Accounted(s, ws, anchors, seen, [])
  {
    assert forall k :: 0 <= k < |anchors| ==> anchors[k] in anchors;
    forall x | x in seen ensures IsAnchor(anchors, x) {
      var r :| r in anchors && r.id == x;
      var k :| 0 <= k < |anchors| && anchors[k] == r;
    }
  }

  /** Every hit belongs to some anchor's turn. */
  lemma {:induction false} TurnOf(cuts: seq<nat>, n: nat, i: nat) returns (k: nat)
    requires |cuts| == n + 1 && cuts[0] == 0 && i < cuts[n]
    ensures k < n && cuts[k] <= i < cuts[k + 1]
  {
    if cuts[n - 1] <= i {
      k := n - 1;
    } else {
      k := TurnOf(cuts[..n], n - 1, i);
    }
  }

  lemma AllFromAnchors(s: State, ws: string, hops: int, anchors: seq<Anchor>, out: seq<Item>, cuts: seq<nat>)
    requires ExactInTurn(s, ws, hops, anchors, |anchors|, out, cuts)
    ensures forall i :: 0 <= i < |out| ==> FromSomeAnchor(s, ws, hops, anchors, out[i])
  {
    forall i | 0 <= i < |out| ensures FromSomeAnchor(s, ws, hops, anchors, out[i]) {
      var k := TurnOf(cuts, |anchors|, i);
      var l := k + 1;
      var mine := out[cuts[k]..cuts[l]];
      assert ExactBut(s, ws, hops, anchors[k], Known(anchors, out[..cuts[k]]), mine);
      assert mine[i - cuts[k]] == out[i];
      assert GraphItem(s, ws, hops, anchors[k], out[i]);
    }
  }

  /** Of the workspace no direct neighbour of an anchor is missed. */
  lemma NeighborReported(s: State, ws: string, hops: int, anchors: seq<Anchor>, out: seq<Item>, cuts: seq<nat>, k: nat,
                         b: Id)
    requires ExactInTurn(s, ws, hops, anchors, |anchors|, out, cuts) && hops >= 1 && k < |anchors|
    requires Adjacent(s, anchors[k].id, b) && Inside(s, ws, b) && !IsAnchor(anchors, b)
    ensures Emitted(out, b)
  {
    var l := k + 1;
    var avoid, mine := Known(anchors, out[..cuts[k]]), out[cuts[k]..cuts[l]];
    assert ExactBut(s, ws, hops, anchors[k], avoid, mine);
    if b in avoid {
      forall r | r in anchors ensures r.id != b { var i :| 0 <= i < |anchors| && anchors[i] == r; }
      var it :| it in out[..cuts[k]] && it.memory.id == b;
      var i :| 0 <= i < cuts[k] && out[i] == it;
    } else {
      var i := NeighborHit(s, ws, hops, anchors[k], avoid, mine, b);
      assert out[cuts[k] + i].memory.id == b;
    }
  }

  /** A successor of an anchor that was neither an anchor nor reported before that anchor's turn. */
  ghost predicate Succeeds(s: State, ws: string, anchors: seq<Anchor>, before: seq<Item>, k: nat, b: Id)
    requires k < |anchors|
  {
    HasLive(s, anchors[k].id, SUPERSEDES, b) && Inside(s, ws, b) && !IsAnchor(anchors, b) && !Emitted(before, b)
  }

  lemma SuccessorsReported(s: State, ws: string, hops: int, anchors: seq<Anchor>, out: seq<Item>, cuts: seq<nat>,
                           k: nat, l: nat, b: Id)
    requires ExactInTurn(s, ws, hops, anchors, |anchors|, out, cuts) && hops >= 1 && k < |anchors| && l == k + 1
    requires Succeeds(s, ws, anchors, out[..cuts[k]], k, b)
    ensures SuccessorReported(s, anchors[k], out[cuts[k]..cuts[l]], b)
  {
    var avoid, mine := Known(anchors, out[..cuts[k]]), out[cuts[k]..cuts[l]];
    assert ExactBut(s, ws, hops, anchors[k], avoid, mine);
    assert b !in avoid by {
      forall r | r in anchors ensures r.id != b { var i :| 0 <= i < |anchors| && anchors[i] == r; }
      forall it | it in out[..cuts[k]] ensures it.memory.id != b {
        var i :| 0 <= i < cuts[k] && out[..cuts[k]][i] == it;
      }
    }
    SuccessorHit(s, ws, hops, anchors[k], avoid, mine, b);
  }

  /** Expands the anchors, then adds files. graph is the length of the graph part. */
  method Tier2Expand(store: Store, tier1: seq<Anchor>, hops: int, ws: string)
    returns (out: seq<Item>, ghost graph: nat, ghost cuts: seq<nat>)
    requires store.Valid()
    // no hit twice, and never an anchor
    ensures forall i, j :: 0 <= i < j < |out| ==> out[i].memory.id != out[j].memory.id
    ensures forall i :: 0 <= i < |out| ==> !IsAnchor(tier1, out[i].memory.id)
    // every hit is justified, by a bounded path from an anchor or as the file of a symbol
    ensures graph <= |out| && AllFiles(store.Now(), ws, out, graph)
    ensures forall i :: 0 <= i < graph ==> FromSomeAnchor(store.Now(), ws, hops, tier1, out[i])
    // each anchor gets exactly what it reaches within the bound, past what was known before and through no newer
    // version, which is reported but not expanded
    ensures ExactInTurn(store.Now(), ws, hops, tier1, |tier1|, out[..graph], cuts)
    // so no direct neighbour is missed
    ensures hops >= 1 ==> forall k, b ::
      0 <= k < |tier1| && Adjacent(store.Now(), tier1[k].id, b) && Inside(store.Now(), ws, b) && !IsAnchor(tier1, b)
      ==> Emitted(out[..graph], b)
    // the newest version of an anchor has 6 tenths of its score, and nothing is reached through it
    ensures hops >= 1 ==> forall k, l, b ::
      0 <= k && l == k + 1 && l <= |tier1| && Succeeds(store.Now(), ws, tier1, out[..cuts[k]], k, b)
      ==> SuccessorReported(store.Now(), tier1[k], out[cuts[k]..cuts[l]], b)
    // and a lone anchor without newer versions gets everything within the bound
    ensures |tier1| == 1 && NoSupersedes(store.Now()) ==> Exact(store.Now(), ws, hops, tier1[0].id, out[..graph])
    // nor is the file of a symbol missed that was an anchor or a hit
    ensures ws != "" ==> forall sym, f ::
      (IsAnchor(tier1, sym) || Emitted(out[..graph], sym)) && IsFileOf(store.Now(), ws, sym, f)
      ==> IsAnchor(tier1, f) || Emitted(out, f)
  {
    ghost var s := store.Now();
    var seen;
    seen, out, cuts := ExpandAll(store, tier1, hops, ws);
    graph := |out|;
    ghost var graphOut := out;
    AllFromAnchors(s, ws, hops, tier1, out, cuts);
    forall k, b | hops >= 1 && 0 <= k < |tier1| && Adjacent(s, tier1[k].id, b) && Inside(s, ws, b) && !IsAnchor(tier1, b)
      ensures Emitted(graphOut, b)
    {
      NeighborReported(s, ws, hops, tier1, graphOut, cuts, k, b);
    }
    forall k, l, b | hops >= 1 && 0 <= k && l == k + 1 && l <= |tier1| && Succeeds(s, ws, tier1, graphOut[..cuts[k]], k, b)
      ensures SuccessorReported(s, tier1[k], graphOut[cuts[k]..cuts[l]], b)
    {
      SuccessorsReported(s, ws, hops, tier1, graphOut, cuts, k, l, b);
    }
    seen, out := Backtrack(store, ws, tier1, seen, out);
    assert out[..graph] == graphOut;
    assert forall k :: 0 <= k <= |tier1| ==> out[..cuts[k]] == graphOut[..cuts[k]];
    assert forall k, l :: 0 <= k && l == k + 1 && l <= |tier1| ==> out[cuts[k]..cuts[l]] == graphOut[cuts[k]..cuts[l]];
    if |tier1| == 1 && NoSupersedes(s) {
      LoneTurn(s, ws, hops, tier1, graphOut, cuts);
    }
  }
}
