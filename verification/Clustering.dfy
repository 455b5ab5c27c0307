/** The clustering step of the mental-model passes: a union-find with path halving over a parent array
    groups the ids whose vectors are linked, directly or through others, by a similarity at least the
    threshold. */
module Clustering {

  // ---- The relation the clusters are meant to compute ----

  /** Pairs are compared once, lower position first. */
  predicate Linked(near: (nat, nat) -> bool, a: nat, b: nat) {
    if a < b then near(a, b) else a > b && near(b, a)
  }

  ghost predicate Chain(n: nat, near: (nat, nat) -> bool, p: seq<nat>) {
    && p != []
    && (forall k :: 0 <= k < |p| ==> p[k] < n)
    && (forall k :: 0 <= k < |p| - 1 ==> Linked(near, p[k], p[k + 1]))
  }

  /** Some chain of linked positions below n leads from a to b. */
  ghost predicate Connected(n: nat, near: (nat, nat) -> bool, a: nat, b: nat) {
    exists p :: Chain(n, near, p) && p[0] == a && p[|p| - 1] == b
  }

  lemma ConnectedRefl(n: nat, near: (nat, nat) -> bool, a: nat)
    requires a < n
    ensures Connected(n, near, a, a)
  {
    assert Chain(n, near, [a]);
  }

  lemma ConnectedStep(n: nat, near: (nat, nat) -> bool, a: nat, b: nat)
    requires a < n && b < n && Linked(near, a, b)
    ensures Connected(n, near, a, b)
  {
    var p := [a, b];
    assert Chain(n, near, p) && p[0] == a && p[|p| - 1] == b;
  }

  lemma ConnectedSym(n: nat, near: (nat, nat) -> bool, a: nat, b: nat)
    requires Connected(n, near, a, b)
    ensures Connected(n, near, b, a)
  {
    var p :| Chain(n, near, p) && p[0] == a && p[|p| - 1] == b;
    var q := seq(|p|, k requires 0 <= k < |p| => p[|p| - 1 - k]);
    forall k | 0 <= k < |q| - 1 ensures Linked(near, q[k], q[k + 1]) {
      var j := |p| - 2 - k;
      assert Linked(near, p[j], p[j + 1]);
    }
    assert Chain(n, near, q) && q[0] == b && q[|q| - 1] == a;
  }

  lemma ConnectedTrans(n: nat, near: (nat, nat) -> bool, a: nat, b: nat, c: nat)
    requires Connected(n, near, a, b) && Connected(n, near, b, c)
    ensures Connected(n, near, a, c)
  {
    var p :| Chain(n, near, p) && p[0] == a && p[|p| - 1] == b;
    var q :| Chain(n, near, q) && q[0] == b && q[|q| - 1] == c;
    var r := p + q[1..];
    forall k | 0 <= k < |r| - 1 ensures Linked(near, r[k], r[k + 1]) {
      if k < |p| - 1 {
        assert Linked(near, p[k], p[k + 1]);
      } else {
        assert Linked(near, q[k - |p| + 1], q[k - |p| + 2]);
      }
    }
    assert Chain(n, near, r) && r[0] == a && r[|r| - 1] == c;
  }

  // ---- The union-find forest ----

  /** parent is a forest in which root names the tree of every position; height falls towards the
      root, which is what makes the walks end. */
  ghost predicate Forest(parent: seq<nat>, root: seq<nat>, height: seq<nat>) {
    && |root| == |height| == |parent|
    && (forall i {:trigger parent[i]} :: 0 <= i < |parent| ==> parent[i] < |parent| && root[parent[i]] == root[i])
    && (forall i {:trigger root[i]} :: 0 <= i < |parent| ==> root[i] < |parent| && parent[root[i]] == root[i])
    && (forall i {:trigger parent[i]} :: 0 <= i < |parent| && parent[i] == i ==> root[i] == i)
    && (forall i {:trigger parent[i]} :: 0 <= i < |parent| && parent[i] != i ==> height[parent[i]] < height[i])
  }

  /** Two positions share a tree only when they are connected. */
  ghost predicate Sound(root: seq<nat>, n: nat, near: (nat, nat) -> bool) {
    forall a, b :: 0 <= a < |root| && 0 <= b < |root| && root[a] == root[b] ==> Connected(n, near, a, b)
  }

  /** Every linked pair up to (i, j), row by row, already shares a tree. */
  ghost predicate Joined(root: seq<nat>, near: (nat, nat) -> bool, i: nat, j: nat) {
    forall a, b :: 0 <= a < b < |root| && (a < i || (a == i && b < j)) && near(a, b) ==> root[a] == root[b]
  }

  /** Walks to the root of i, pointing every second visited position at its grandparent. */
  method Find(parent: array<nat>, ghost root: seq<nat>, ghost height: seq<nat>, i: nat) returns (r: nat)
    requires Forest(parent[..], root, height) && i < parent.Length
    modifies parent
    ensures Forest(parent[..], root, height)
    ensures r == root[i]
  {
    r := i;
    while parent[r] != r
      invariant r < parent.Length && Forest(parent[..], root, height) && root[r] == root[i]
      decreases height[r]
    {
      ghost var before := parent[..];
      assert before[r] == parent[r];
      ghost var p := before[r];
      assert root[before[p]] == root[p] == root[r];
      assert height[before[p]] <= height[p] < height[r];
      parent[r] := parent[parent[r]];
      assert parent[..] == before[r := before[p]];
      HalvingKeepsForest(before, root, height, r);
      r := parent[r];
    }
    assert parent[..][r] == r;
  }

  /** One step of path halving changes neither the trees nor the heights that bound the walks. */
  lemma HalvingKeepsForest(parent: seq<nat>, root: seq<nat>, height: seq<nat>, r: nat)
    requires Forest(parent, root, height) && r < |parent| && parent[r] != r
    ensures Forest(parent[r := parent[parent[r]]], root, height)
  {
    var g := parent[parent[r]];
    var q := parent[r := g];
    assert height[g] <= height[parent[r]] < height[r];
    assert root[g] == root[r];
    forall i | 0 <= i < |q| ensures q[root[i]] == root[i] {
      assert parent[root[i]] == root[i];
    }
  }

  ghost function JoinedRoots(root: seq<nat>, ra: nat, rb: nat): (r: seq<nat>)
    ensures |r| == |root|
  {
    seq(|root|, k requires 0 <= k < |root| => if root[k] == ra then rb else root[k])
  }

  ghost function JoinedHeights(root: seq<nat>, height: seq<nat>, ra: nat, rb: nat): (r: seq<nat>)
    requires |root| == |height| && rb < |height|
    ensures |r| == |root|
  {
    seq(|root|, k requires 0 <= k < |root| => if root[k] == ra then height[k] + height[rb] + 1 else height[k])
  }

  /** Hanging one root under another merges exactly those two trees. */
  lemma JoinKeepsForest(parent: seq<nat>, root: seq<nat>, height: seq<nat>, ra: nat, rb: nat)
    requires Forest(parent, root, height)
    requires ra < |parent| && rb < |parent| && ra != rb && root[ra] == ra && root[rb] == rb
    ensures Forest(parent[ra := rb], JoinedRoots(root, ra, rb), JoinedHeights(root, height, ra, rb))
  {
    var q, r, h := parent[ra := rb], JoinedRoots(root, ra, rb), JoinedHeights(root, height, ra, rb);
    forall i | 0 <= i < |q|
      ensures q[r[i]] == r[i] && r[q[i]] == r[i] && (q[i] == i ==> r[i] == i) && (q[i] != i ==> h[q[i]] < h[i])
    {
      assert root[parent[i]] == root[i] && parent[root[i]] == root[i] && parent[rb] == rb by {
        assert parent[root[rb]] == root[rb];
      }
    }
  }

  /** Joins the trees of a and b unless they are already one. */
  method Union(parent: array<nat>, ghost root: seq<nat>, ghost height: seq<nat>, a: nat, b: nat)
    returns (ghost root': seq<nat>, ghost height': seq<nat>)
    requires Forest(parent[..], root, height) && a < parent.Length && b < parent.Length
    modifies parent
    ensures Forest(parent[..], root', height')
    ensures root' == JoinedRoots(root, root[a], root[b])
  {
    var ra := Find(parent, root, height, a);
    var rb := Find(parent, root, height, b);
    root', height' := root, height;
    if ra != rb {
      ghost var before := parent[..];
      assert before[root[a]] == root[a] && before[root[b]] == root[b];
      assert root[ra] == ra && root[rb] == rb;
      parent[ra] := rb;
      assert parent[..] == before[ra := rb];
      JoinKeepsForest(before, root, height, ra, rb);
      root', height' := JoinedRoots(root, ra, rb), JoinedHeights(root, height, ra, rb);
    } else {
      assert root' == JoinedRoots(root, ra, rb);
    }
  }

  lemma JoinKeepsSound(root: seq<nat>, n: nat, near: (nat, nat) -> bool, i: nat, j: nat)
    requires Sound(root, n, near) && i < j < |root| == n && near(i, j)
    ensures Sound(JoinedRoots(root, root[i], root[j]), n, near)
  {
    var r := JoinedRoots(root, root[i], root[j]);
    ConnectedStep(n, near, i, j);
    ConnectedSym(n, near, i, j);
    forall a, b | 0 <= a < |r| && 0 <= b < |r| && r[a] == r[b] ensures Connected(n, near, a, b) {
      if root[a] == root[b] {
      } else if root[a] == root[i] {
        assert root[b] == root[j];
        ConnectedTrans(n, near, a, i, j);
        ConnectedTrans(n, near, a, j, b);
      } else {
        assert root[b] == root[i] && root[a] == root[j];
        ConnectedTrans(n, near, a, j, i);
        ConnectedTrans(n, near, a, i, b);
      }
    }
  }

  /** Once every linked pair shares a tree, so does every chain. */
  lemma {:induction false} ChainShares(root: seq<nat>, near: (nat, nat) -> bool, p: seq<nat>)
    requires Joined(root, near, |root|, 0) && Chain(|root|, near, p)
    ensures root[p[0]] == root[p[|p| - 1]]
  {
    if |p| > 1 {
      assert Linked(near, p[0], p[1]);
      var q := p[1..];
      forall k | 0 <= k < |q| - 1 ensures Linked(near, q[k], q[k + 1]) {
        assert Linked(near, p[k + 1], p[k + 2]);
      }
      ChainShares(root, near, q);
    }
  }

  // ---- The clusters ----

  ghost predicate Increasing(s: seq<nat>) {
    forall i, j :: 0 <= i < j < |s| ==> s[i] < s[j]
  }

  ghost predicate Below(s: seq<nat>, n: nat) {
    forall k :: 0 <= k < |s| ==> s[k] < n
  }

  ghost predicate InOne(groups: seq<seq<nat>>, k: nat) {
    exists g :: 0 <= g < |groups| && k in groups[g]
  }

  ghost predicate Together(groups: seq<seq<nat>>, a: nat, b: nat) {
    exists g :: 0 <= g < |groups| && a in groups[g] && b in groups[g]
  }

  /** groups splits the positions below n into nonempty groups, each in position order, no position
      missing and none twice. */
  ghost predicate Partition(groups: seq<seq<nat>>, n: nat) {
    && (forall g :: 0 <= g < |groups| ==> groups[g] != [] && Increasing(groups[g]) && Below(groups[g], n))
    && (forall k: nat :: k < n ==> InOne(groups, k))
    && (forall g, h, k :: 0 <= g < h < |groups| && k in groups[g] ==> k !in groups[h])
  }

  /** Two positions share a group exactly when a chain of links connects them. */
  ghost predicate GroupsAreComponents(groups: seq<seq<nat>>, n: nat, near: (nat, nat) -> bool) {
    forall a: nat, b: nat :: a < n && b < n ==> (Together(groups, a, b) <==> Connected(n, near, a, b))
  }

  /** The ids standing at the given positions. */
  function Pick<T>(ids: seq<T>, at: seq<nat>): (r: seq<T>)
    requires Below(at, |ids|)
    ensures |r| == |at|
  {
    seq(|at|, k requires 0 <= k < |at| => ids[at[k]])
  }

  /** The positions below m whose root is r, in order. */
  ghost function Members(root: seq<nat>, r: nat, m: nat): (s: seq<nat>)
    requires m <= |root|
    ensures Below(s, m)
  {
    if m == 0 then [] else
      var s := Members(root, r, m - 1);
      if root[m - 1] == r then s + [m - 1] else s
  }

  lemma {:induction false} MembersExact(root: seq<nat>, r: nat, m: nat)
    requires m <= |root|
    ensures Increasing(Members(root, r, m))
    ensures forall k: nat :: k in Members(root, r, m) <==> k < m && root[k] == r
  {
    if m > 0 {
      MembersExact(root, r, m - 1);
    }
  }

  /** Listing the members of every root once partitions the positions by root. */
  lemma MembersPartition(root: seq<nat>, order: seq<nat>, groups: seq<seq<nat>>)
    requires forall i, j :: 0 <= i < j < |order| ==> order[i] != order[j]
    requires forall r :: r in order <==> Members(root, r, |root|) != []
    requires |groups| == |order| && forall g :: 0 <= g < |order| ==> groups[g] == Members(root, order[g], |root|)
    ensures Partition(groups, |root|)
    ensures forall a: nat, b: nat :: a < |root| && b < |root| ==> (Together(groups, a, b) <==> root[a] == root[b])
  {
    forall g | 0 <= g < |groups|
      ensures groups[g] != [] && Increasing(groups[g]) && Below(groups[g], |root|)
      ensures forall k: nat :: k in groups[g] <==> k < |root| && root[k] == order[g]
    {
      assert order[g] in order;
      MembersExact(root, order[g], |root|);
    }
    forall k: nat | k < |root| ensures exists g :: 0 <= g < |groups| && order[g] == root[k] {
      MembersExact(root, root[k], |root|);
      assert root[k] in order;
    }
    ReadOffPartition(root, order, groups);
  }

  lemma ReadOffPartition(root: seq<nat>, order: seq<nat>, groups: seq<seq<nat>>)
    requires forall i, j :: 0 <= i < j < |order| ==> order[i] != order[j]
    requires |groups| == |order|
    requires forall g :: 0 <= g < |groups| ==> groups[g] != [] && Increasing(groups[g]) && Below(groups[g], |root|)
    requires forall g :: 0 <= g < |groups| ==>
      forall k: nat :: k in groups[g] <==> k < |root| && root[k] == order[g]
    requires forall k: nat :: k < |root| ==> exists g :: 0 <= g < |groups| && order[g] == root[k]
    ensures Partition(groups, |root|)
    ensures forall a: nat, b: nat :: a < |root| && b < |root| ==> (Together(groups, a, b) <==> root[a] == root[b])
  {
    forall a: nat, b: nat | a < |root| && b < |root| && root[a] == root[b] ensures Together(groups, a, b) {
      var g :| 0 <= g < |order| && order[g] == root[a];
      assert a in groups[g] && b in groups[g];
    }
    forall k: nat | k < |root| ensures InOne(groups, k) {
      assert Together(groups, k, k);
    }
    forall g, h, k | 0 <= g < h < |groups| && k in groups[g] ensures k !in groups[h] {
      assert root[k] == order[g] != order[h];
    }
  }

  /** out lists the ids in the groups given by at: a partition of the positions into connected components. */
  ghost predicate Groups<T>(ids: seq<T>, near: (nat, nat) -> bool, at: seq<seq<nat>>, out: seq<seq<T>>) {
    && Partition(at, |ids|) && GroupsAreComponents(at, |ids|, near)
    && |out| == |at| && forall g :: 0 <= g < |at| ==> Below(at[g], |ids|) && out[g] == Pick(ids, at[g])
  }

  /** Groups ids by the similarity of their vectors. The groups come in no particular order; inside a
      group the ids keep theirs. at gives the positions behind each group. */
  method ConnectedComponents<T, V>(ids: seq<T>, vecs: seq<V>, similarity: (V, V) -> real, threshold: real)
    returns (out: seq<seq<T>>, ghost at: seq<seq<nat>>)
    requires |vecs| == |ids|
    ensures Groups(ids, Near(vecs, similarity, threshold), at, out)
  {
    ghost var near := Near(vecs, similarity, threshold);
    if |ids| == 0 {
      out, at := [], [];
      assert Groups(ids, near, at, out);
      return;
    }
    var parent := new nat[|ids|](i => i);
    ghost var root: seq<nat>, height: seq<nat> := parent[..], parent[..];
    assert Sound(root, |ids|, near) by {
      forall a | 0 <= a < |ids| { ConnectedRefl(|ids|, near, a); }
    }
    for i := 0 to |ids|
      invariant |root| == |ids| && Forest(parent[..], root, height)
      invariant Sound(root, |ids|, near) && Joined(root, near, i, 0)
    {
      RowStart(root, near, i);
      for j := i + 1 to |ids|
        invariant |root| == |ids| && Forest(parent[..], root, height)
        invariant Sound(root, |ids|, near) && Joined(root, near, i, j)
      {
        root, height := JoinIf(parent, root, height, near, i, j, similarity(vecs[i], vecs[j]) >= threshold);
      }
      RowEnd(root, near, i);
    }
    out, at := CollectGroups(ids, parent, root, height);
    GroupsAreConnected(root, near, at);
    assert Groups(ids, near, at, out);
  }

  lemma JoinKeepsJoined(root: seq<nat>, near: (nat, nat) -> bool, i: nat, j: nat)
    requires Joined(root, near, i, j) && i < j < |root|
    ensures Joined(JoinedRoots(root, root[i], root[j]), near, i, j + 1)
  {
  }

  lemma RowStart(root: seq<nat>, near: (nat, nat) -> bool, i: nat)
    requires Joined(root, near, i, 0)
    ensures Joined(root, near, i, i + 1)
  {
  }

  lemma RowEnd(root: seq<nat>, near: (nat, nat) -> bool, i: nat)
    requires Joined(root, near, i, |root|)
    ensures Joined(root, near, i + 1, 0)
  {
  }

  lemma JoinPassesOver(root: seq<nat>, near: (nat, nat) -> bool, i: nat, j: nat)
    requires Joined(root, near, i, j) && !near(i, j)
    ensures Joined(root, near, i, j + 1)
  {
  }

  /** Deals with one pair: joins it when it is close. */
  method JoinIf(parent: array<nat>, ghost root: seq<nat>, ghost height: seq<nat>, ghost near: (nat, nat) -> bool,
                i: nat, j: nat, close: bool)
    returns (ghost root': seq<nat>, ghost height': seq<nat>)
    requires Forest(parent[..], root, height) && i < j < parent.Length && close == near(i, j)
    requires Sound(root, |root|, near) && Joined(root, near, i, j)
    modifies parent
    ensures Forest(parent[..], root', height') && |root'| == |root|
    ensures Sound(root', |root|, near) && Joined(root', near, i, j + 1)
  {
    if close {
      JoinKeepsSound(root, |root|, near, i, j);
      JoinKeepsJoined(root, near, i, j);
      root', height' := Union(parent, root, height, i, j);
    } else {
      JoinPassesOver(root, near, i, j);
      root', height' := root, height;
    }
  }

  ghost function Near<V>(vecs: seq<V>, similarity: (V, V) -> real, threshold: real): (nat, nat) -> bool {
    (a: nat, b: nat) => a < |vecs| && b < |vecs| && similarity(vecs[a], vecs[b]) >= threshold
  }

  /** The first m ids, listed by root. */
  ghost predicate Grouped<T>(ids: seq<T>, root: seq<nat>, groups: map<nat, seq<T>>, m: nat)
    requires m <= |root| == |ids|
  {
    forall r: nat :: GroupedAt(ids, root, groups, m, r)
  }

  function Append<T>(groups: map<nat, seq<T>>, r: nat, x: T): map<nat, seq<T>> {
    groups[r := (if r in groups then groups[r] else []) + [x]]
  }

  /** What Grouped says of one root. */
  ghost predicate GroupedAt<T>(ids: seq<T>, root: seq<nat>, groups: map<nat, seq<T>>, m: nat, r: nat)
    requires m <= |root| == |ids|
  {
    && (r in groups <==> Members(root, r, m) != [])
    && (r in groups ==> groups[r] == Pick(ids, Members(root, r, m)))
  }

  lemma PickNext<T>(ids: seq<T>, at: seq<nat>, k: nat)
    requires Below(at, |ids|) && k < |ids|
    ensures Below(at + [k], |ids|) && Pick(ids, at + [k]) == Pick(ids, at) + [ids[k]]
  {
  }

  lemma GroupedStepAt<T>(ids: seq<T>, root: seq<nat>, groups: map<nat, seq<T>>, m: nat, r: nat)
    requires m < |root| == |ids| && GroupedAt(ids, root, groups, m, r)
    ensures GroupedAt(ids, root, Append(groups, root[m], ids[m]), m + 1, r)
  {
    var before := Members(root, r, m);
    if r == root[m] {
      assert Members(root, r, m + 1) == before + [m];
      PickNext(ids, before, m);
      if before == [] {
        assert Pick(ids, before) == [];
      }
    } else {
      assert Members(root, r, m + 1) == before;
    }
  }

  lemma GroupedStep<T>(ids: seq<T>, root: seq<nat>, groups: map<nat, seq<T>>, m: nat)
    requires m < |root| == |ids| && Grouped(ids, root, groups, m)
    ensures Grouped(ids, root, Append(groups, root[m], ids[m]), m + 1)
  {
    var next, n := Append(groups, root[m], ids[m]), m + 1;
    forall r: nat ensures GroupedAt(ids, root, next, n, r) {
      assert GroupedAt(ids, root, groups, m, r);
      GroupedStepAt(ids, root, groups, m, r);
    }
  }

  lemma GroupedAll<T>(ids: seq<T>, root: seq<nat>, groups: map<nat, seq<T>>)
    requires |root| == |ids| && Grouped(ids, root, groups, |root|)
    ensures forall r :: r in groups <==> Members(root, r, |root|) != []
    ensures forall r :: r in groups ==> groups[r] == Pick(ids, Members(root, r, |root|))
  {
    forall r: nat ensures r in groups <==> Members(root, r, |root|) != [] {
      assert GroupedAt(ids, root, groups, |root|, r);
    }
    forall r | r in groups ensures groups[r] == Pick(ids, Members(root, r, |root|)) {
      assert GroupedAt(ids, root, groups, |root|, r);
    }
  }

  /** Appends every id to the list kept for its root. */
  method GroupByRoot<T>(ids: seq<T>, parent: array<nat>, ghost root: seq<nat>, ghost height: seq<nat>)
    returns (groups: map<nat, seq<T>>)
    requires parent.Length == |ids| && Forest(parent[..], root, height)
    modifies parent
    ensures Grouped(ids, root, groups, |ids|)
  {
    groups := map[];
    for i := 0 to |ids|
      invariant Forest(parent[..], root, height)
      invariant Grouped(ids, root, groups, i)
    {
      var r := Find(parent, root, height, i);
      GroupedStep(ids, root, groups, i);
      groups := Append(groups, r, ids[i]);
    }
  }

  /** Reads the trees off into groups, in an arbitrary order of their roots. */
  method CollectGroups<T>(ids: seq<T>, parent: array<nat>, ghost root: seq<nat>, ghost height: seq<nat>)
    returns (out: seq<seq<T>>, ghost at: seq<seq<nat>>)
    requires parent.Length == |ids| && Forest(parent[..], root, height)
    modifies parent
    ensures Partition(at, |ids|)
    ensures forall a: nat, b: nat :: a < |ids| && b < |ids| ==> (Together(at, a, b) <==> root[a] == root[b])
    ensures |out| == |at| && forall g :: 0 <= g < |at| ==> Below(at[g], |ids|) && out[g] == Pick(ids, at[g])
  {
    var groups := GroupByRoot(ids, parent, root, height);
    GroupedAll(ids, root, groups);
    out, at := [], [];
    ghost var order: seq<nat> := [];
    var todo := groups.Keys;
    while todo != {}
      invariant todo <= groups.Keys
      invariant forall r :: r in order <==> r in groups && r !in todo
      invariant forall i, j :: 0 <= i < j < |order| ==> order[i] != order[j]
      invariant |out| == |at| == |order|
      invariant forall g :: 0 <= g < |at| ==> order[g] in groups && at[g] == Members(root, order[g], |root|)
      invariant forall g :: 0 <= g < |at| ==> out[g] == groups[order[g]]
      decreases todo
    {
      var r :| r in todo;
      todo := todo - {r};
      out, at, order := out + [groups[r]], at + [Members(root, r, |root|)], order + [r];
    }
    MembersPartition(root, order, at);
  }

  lemma GroupsAreConnected(root: seq<nat>, near: (nat, nat) -> bool, at: seq<seq<nat>>)
    requires Sound(root, |root|, near) && Joined(root, near, |root|, 0)
    requires forall a: nat, b: nat :: a < |root| && b < |root| ==> (Together(at, a, b) <==> root[a] == root[b])
    ensures GroupsAreComponents(at, |root|, near)
  {
    forall a: nat, b: nat | a < |root| && b < |root| && Connected(|root|, near, a, b) ensures root[a] == root[b] {
      var p :| Chain(|root|, near, p) && p[0] == a && p[|p| - 1] == b;
      ChainShares(root, near, p);
    }
  }
}
