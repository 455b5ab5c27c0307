/** Version chains: what any run of retirements keeps about the valid supersedes edges, and where walking
    them forward ends. */
module Supersedes {
  import opened Wrappers
  import opened Graph

  /** A walk along valid supersedes edges. */
  ghost predicate SupPath(s: State, p: seq<Id>) {
    p != [] && forall i :: 0 <= i < |p| - 1 ==> HasLive(s, p[i], SUPERSEDES, p[i + 1])
  }

  ghost predicate Leads(s: State, p: seq<Id>, a: Id, z: Id) {
    SupPath(s, p) && p[0] == a && p[|p| - 1] == z
  }

  ghost predicate Acyclic(s: State) {
    forall p :: SupPath(s, p) && |p| >= 2 ==> p[0] != p[|p| - 1]
  }

  /** Nothing supersedes id. */
  ghost predicate Sink(s: State, id: Id) {
    forall to :: !HasLive(s, id, SUPERSEDES, to)
  }

  /** No memory has two valid successors. */
  ghost predicate Functional(s: State) {
    forall e, f, a, b, c :: IsLive(s, e, a, SUPERSEDES, b) && IsLive(s, f, a, SUPERSEDES, c) ==> e == f
  }

  /** Walking forward from a can end at z. */
  ghost predicate Ends(s: State, a: Id, z: Id) {
    Sink(s, z) && exists p :: Leads(s, p, a, z)
  }

  // ---- One retirement ----

  /** Retiring leaves m with one valid edge, to its successor, or with none. */
  lemma OnlyEdgeOfRetired(s: State, m: Memory, newId: Id, now: real, edge: EdgeId, e: EdgeId)
    requires CanRetire(s, m, newId, edge)
    ensures var t := RetireIn(s, m, newId, now, edge);
      e in t.edges && t.edges[e].validTo.None? && Touches(t.edges[e], m.id) ==>
        newId != "" && e == edge && IsLive(t, e, m.id, SUPERSEDES, newId)
  {
  }

  /** Nothing on a cycle could have entered the memory just retired, so no cycle is made. */
  lemma RetireKeepsAcyclic(s: State, m: Memory, newId: Id, now: real, edge: EdgeId)
    requires Acyclic(s) && CanRetire(s, m, newId, edge) && newId != m.id
    ensures Acyclic(RetireIn(s, m, newId, now, edge))
  {
    var t := RetireIn(s, m, newId, now, edge);
    forall p | SupPath(t, p) && |p| >= 2 ensures p[0] != p[|p| - 1] {
      if p[0] == p[|p| - 1] {
        forall i | 0 <= i < |p| - 1 ensures HasLive(s, p[i], SUPERSEDES, p[i + 1]) {
          var before := if i == 0 then p[|p| - 2] else p[i - 1];
          assert HasLive(t, p[|p| - 2], SUPERSEDES, p[|p| - 2 + 1]);
          assert i > 0 ==> HasLive(t, p[i - 1], SUPERSEDES, p[i - 1 + 1]);
          LinksAfterRetire(s, m, newId, now, edge, before, SUPERSEDES, p[i]);
          LinksAfterRetire(s, m, newId, now, edge, p[i], SUPERSEDES, p[i + 1]);
        }
        assert SupPath(s, p);
      }
    }
  }

  lemma RetireKeepsFunctional(s: State, m: Memory, newId: Id, now: real, edge: EdgeId)
    requires Functional(s) && CanRetire(s, m, newId, edge)
    ensures Functional(RetireIn(s, m, newId, now, edge))
  {
    var t := RetireIn(s, m, newId, now, edge);
    forall e, f, a, b, c | IsLive(t, e, a, SUPERSEDES, b) && IsLive(t, f, a, SUPERSEDES, c) ensures e == f {
      EdgesAfterRetire(s, m, newId, now, edge, e, a, SUPERSEDES, b);
      EdgesAfterRetire(s, m, newId, now, edge, f, a, SUPERSEDES, c);
    }
  }

  // ---- Runs of retirements ----

  datatype Call = Call(m: Memory, newId: Id, now: real, edge: EdgeId)

  ghost predicate Runs(s: State, calls: seq<Call>)
    decreases calls
  {
    calls == [] ||
    var c := calls[0];
    CanRetire(s, c.m, c.newId, c.edge) && c.newId != c.m.id
    && Runs(RetireIn(s, c.m, c.newId, c.now, c.edge), calls[1..])
  }

  ghost function After(s: State, calls: seq<Call>): State
    requires Runs(s, calls)
    decreases calls
  {
    if calls == [] then s else
      var c := calls[0];
      After(RetireIn(s, c.m, c.newId, c.now, c.edge), calls[1..])
  }

  /** No run of retirements, with or without successors, closes a cycle or forks a chain. */
  lemma {:induction false} RunKeepsChains(s: State, calls: seq<Call>)
    requires Acyclic(s) && Functional(s) && Runs(s, calls)
    ensures Acyclic(After(s, calls)) && Functional(After(s, calls))
    decreases calls
  {
    if calls != [] {
      var c := calls[0];
      RetireKeepsAcyclic(s, c.m, c.newId, c.now, c.edge);
      RetireKeepsFunctional(s, c.m, c.newId, c.now, c.edge);
      RunKeepsChains(RetireIn(s, c.m, c.newId, c.now, c.edge), calls[1..]);
    }
  }

  // ---- Where chains end ----

  /** In a fork-free graph a memory's chain has one end. */
  lemma {:induction false} EndUnique(s: State, p: seq<Id>, q: seq<Id>)
    requires Functional(s) && SupPath(s, p) && SupPath(s, q) && p[0] == q[0]
    requires Sink(s, p[|p| - 1]) && Sink(s, q[|q| - 1])
    ensures p[|p| - 1] == q[|q| - 1]
  {
    assert |p| > 1 ==> HasLive(s, p[0], SUPERSEDES, p[1]);
    assert |q| > 1 ==> HasLive(s, q[0], SUPERSEDES, q[1]);
    if |p| > 1 && |q| > 1 {
      TailPath(s, p);
      TailPath(s, q);
      EndUnique(s, p[1..], q[1..]);
    }
  }

  lemma TailPath(s: State, p: seq<Id>)
    requires SupPath(s, p) && |p| > 1
    ensures SupPath(s, p[1..])
  {
    forall i | 0 <= i < |p[1..]| - 1 ensures HasLive(s, p[1..][i], SUPERSEDES, p[1..][i + 1]) {
      assert HasLive(s, p[i + 1], SUPERSEDES, p[i + 1 + 1]);
    }
  }

  /** After retiring m in favour of newId, the chain of m ends where the chain of newId does. */
  lemma RetiredEndsWithSuccessor(s: State, m: Memory, newId: Id, now: real, edge: EdgeId, z: Id)
    requires CanRetire(s, m, newId, edge) && newId != "" && newId != m.id
    ensures var t := RetireIn(s, m, newId, now, edge); Ends(t, m.id, z) <==> Ends(t, newId, z)
  {
    var t := RetireIn(s, m, newId, now, edge);
    LinksAfterRetire(s, m, newId, now, edge, m.id, SUPERSEDES, newId);
    if p :| Leads(t, p, newId, z) {
      var q := [m.id] + p;
      forall i | 0 <= i < |q| - 1 ensures HasLive(t, q[i], SUPERSEDES, q[i + 1]) {
        if i > 0 {
          assert HasLive(t, p[i - 1], SUPERSEDES, p[i - 1 + 1]);
        }
      }
      assert Leads(t, q, m.id, z);
    }
    if p :| Leads(t, p, m.id, z) {
      if Sink(t, z) {
        assert |p| > 1;
        assert HasLive(t, p[0], SUPERSEDES, p[1]);
        LinksAfterRetire(s, m, newId, now, edge, m.id, SUPERSEDES, p[1]);
        TailPath(t, p);
        assert Leads(t, p[1..], newId, z);
      }
    }
  }

  /** So the two walks have one result. */
  lemma LatestAgrees(s: State, m: Memory, newId: Id, now: real, edge: EdgeId, y: Id, z: Id)
    requires Functional(s) && CanRetire(s, m, newId, edge) && newId != "" && newId != m.id
    requires var t := RetireIn(s, m, newId, now, edge); Ends(t, m.id, y) && Ends(t, newId, z)
    ensures y == z
  {
    var t := RetireIn(s, m, newId, now, edge);
    RetiredEndsWithSuccessor(s, m, newId, now, edge, z);
    RetireKeepsFunctional(s, m, newId, now, edge);
    var p :| Leads(t, p, m.id, y);
    var q :| Leads(t, q, m.id, z);
    EndUnique(t, p, q);
  }

  /** The chain is not extended for the older versions: retiring m also ends the edges into m, so a memory
      whose chain reached m now ends at the last memory before m, and the others end where they did. */
  lemma RetireCutsChains(s: State, m: Memory, newId: Id, now: real, edge: EdgeId, p: seq<Id>, k: nat)
    requires Functional(s) && CanRetire(s, m, newId, edge)
    requires SupPath(s, p) && k < |p| && (forall i :: 0 <= i <= k ==> p[i] != m.id)
    requires (k < |p| - 1 && p[k + 1] == m.id) || (k == |p| - 1 && Sink(s, p[k]))
    ensures Ends(RetireIn(s, m, newId, now, edge), p[0], p[k])
  {
    var t := RetireIn(s, m, newId, now, edge);
    var q := p[..k + 1];
    forall i | 0 <= i < |q| - 1 ensures HasLive(t, q[i], SUPERSEDES, q[i + 1]) {
      assert HasLive(s, p[i], SUPERSEDES, p[i + 1]);
      LinksAfterRetire(s, m, newId, now, edge, p[i], SUPERSEDES, p[i + 1]);
    }
    assert Leads(t, q, p[0], p[k]);
    forall to ensures !HasLive(t, p[k], SUPERSEDES, to) {
      LinksAfterRetire(s, m, newId, now, edge, p[k], SUPERSEDES, to);
      if HasLive(s, p[k], SUPERSEDES, to) && k < |p| - 1 {
        assert HasLive(s, p[k], SUPERSEDES, p[k + 1]);
      }
    }
  }

  /** Retiring a for b and then b for c leaves the chain of a at a: its newest version is not found. */
  lemma ChainOfTwoIsCut(s: State, a: Memory, b: Memory, c: Id, t1: real, t2: real, e1: EdgeId, e2: EdgeId)
    requires CanRetire(s, a, b.id, e1) && a.id != b.id && b.id != c && b.id != ""
    requires CanRetire(RetireIn(s, a, b.id, t1, e1), b, c, e2)
    ensures Ends(RetireIn(RetireIn(s, a, b.id, t1, e1), b, c, t2, e2), a.id, a.id)
  {
    var s1 := RetireIn(s, a, b.id, t1, e1);
    var s2 := RetireIn(s1, b, c, t2, e2);
    forall to ensures !HasLive(s2, a.id, SUPERSEDES, to) {
      LinksAfterRetire(s1, b, c, t2, e2, a.id, SUPERSEDES, to);
      LinksAfterRetire(s, a, b.id, t1, e1, a.id, SUPERSEDES, to);
    }
    assert Leads(s2, [a.id], a.id, a.id);
  }

  // ---- The walk ----

  /** The edge from a to b is a newest among the valid successors of a. */
  ghost predicate NewestStep(s: State, a: Id, b: Id) {
    exists e :: IsLive(s, e, a, SUPERSEDES, b) &&
      forall f, c :: IsLive(s, f, a, SUPERSEDES, c) ==> s.edges[f].validFrom <= s.edges[e].validFrom
  }

  ghost predicate NewestPath(s: State, p: seq<Id>) {
    forall i :: 0 <= i < |p| - 1 ==> NewestStep(s, p[i], p[i + 1])
  }

  /** The newest of the valid edges to a successor, if there is one. */
  method NewestSuccessor(store: Store, cur: Id) returns (best: Option<Edge>)
    requires store.Valid()
    ensures best.None? ==> Sink(store.Now(), cur)
    ensures best.Some? ==> best.value.dst in store.memories
    ensures best.Some? ==> IsLive(store.Now(), best.value.id, cur, SUPERSEDES, best.value.dst)
    ensures best.Some? ==> NewestStep(store.Now(), cur, best.value.dst)
  {
    ghost var s := store.Now();
    var neighbors := store.Neighbors(cur, SUPERSEDES);
    best := None;
    for i := 0 to |neighbors|
      invariant best.Some? ==> best.value in neighbors && best.value.src == cur
      invariant forall j :: 0 <= j < i && neighbors[j].src == cur ==>
        best.Some? && neighbors[j].validFrom <= best.value.validFrom
    {
      var e := neighbors[i];
      if e.src == cur && (best.None? || e.validFrom > best.value.validFrom) {
        best := Some(e);
      }
    }
    if best.None? {
      assert forall n :: n in neighbors ==> n.src != cur;
      NoNeighborNoStep(s, cur, neighbors);
    } else {
      forall f, c | IsLive(s, f, cur, SUPERSEDES, c) ensures s.edges[f].validFrom <= best.value.validFrom {
        assert s.edges[f] in neighbors;
      }
      assert IsLive(s, best.value.id, cur, SUPERSEDES, best.value.dst);
    }
  }

  /** Follows the newest valid supersedes edge until there is none or the walk returns to a visited id. It
      ends on every graph, at an id reachable from memId; without cycles, at an end of the chain. */
  method LatestInChain(store: Store, memId: Id) returns (cur: Id)
    requires store.Valid()
    ensures exists p :: Leads(store.Now(), p, memId, cur) && NewestPath(store.Now(), p)
    ensures Acyclic(store.Now()) ==> Ends(store.Now(), memId, cur)
  {
    ghost var s := store.Now();
    ghost var path := [memId];
    var seen: set<Id> := {};
    cur := memId;
    while cur !in seen
      invariant Leads(s, path, memId, cur) && NewestPath(s, path)
      invariant forall id :: id in seen ==> id in path[..|path| - 1]
      invariant cur in s.memories.Keys + {memId}
      decreases s.memories.Keys + {memId} - seen
    {
      seen := seen + {cur};
      var best := NewestSuccessor(store, cur);
      if best.None? {
        assert store.Now() == s && Leads(s, path, memId, cur) && NewestPath(s, path);
        return;
      }
      assert path == path[..|path| - 1] + [cur];
      path := path + [best.value.dst];
      assert path[..|path| - 1] + [best.value.dst] == path;
      cur := best.value.dst;
    }
    assert store.Now() == s && Leads(s, path, memId, cur) && NewestPath(s, path);
    ghost var i :| 0 <= i < |path| - 1 && path[..|path| - 1][i] == cur;
    CycleFrom(s, path, i);
  }

  lemma NoNeighborNoStep(s: State, id: Id, neighbors: seq<Edge>)
    requires forall n :: n in neighbors ==> n.src != id
    requires forall e, to :: IsLive(s, e, id, SUPERSEDES, to) ==> s.edges[e] in neighbors
    ensures Sink(s, id)
  {
  }

  /** A walk that comes back to an earlier id holds a cycle. */
  lemma CycleFrom(s: State, p: seq<Id>, i: nat)
    requires SupPath(s, p) && i < |p| - 1 && p[i] == p[|p| - 1]
    ensures !Acyclic(s)
  {
    var c := p[i..];
    forall k | 0 <= k < |c| - 1 ensures HasLive(s, c[k], SUPERSEDES, c[k + 1]) {
      assert HasLive(s, p[i + k], SUPERSEDES, p[i + k + 1]);
    }
    assert SupPath(s, c) && |c| >= 2 && c[0] == c[|c| - 1];
  }
}
