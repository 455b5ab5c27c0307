/** Alias merging of resource entities: a confirmed pair folds into its older member, which takes over the
    aliases and the incoming operates_on edges of the younger one. */
module Aliases {
  import opened Wrappers
  import opened Sorting
  import opened Graph

  /** One case-folding function stands for the program's two. */
  type Fold = string -> string

  // ---- Names and ages ----

  predicate IsResource(s: State, ws: string, id: Id) {
    id in s.memories && Selected(s.memories[id], ws, Some(Semantic), Some(Resource))
  }

  predicate LiveResource(s: State, ws: string, id: Id) {
    IsResource(s, ws, id) && !IsRetired(s.memories[id])
  }

  function LiveResources(s: State, ws: string): set<Id> {
    set id | id in s.memories && LiveResource(s, ws, id)
  }

  predicate HasAlias(fold: Fold, aliases: seq<string>, name: string) {
    exists a :: a in aliases && fold(a) == fold(name)
  }

  /** No two of the aliases are equal up to case. */
  ghost predicate NoTwice(fold: Fold, aliases: seq<string>) {
    forall i, j :: 0 <= i < j < |aliases| ==> fold(aliases[i]) != fold(aliases[j])
  }

  /** Adds name unless an alias equal to it up to case is there. */
  function AppendAlias(fold: Fold, aliases: seq<string>, name: string): (r: seq<string>)
    ensures aliases <= r && HasAlias(fold, r, name)
    ensures forall a :: a in r ==> a in aliases || a == name
  {
    if HasAlias(fold, aliases, name) then aliases
    else
      assert name in aliases + [name];
      aliases + [name]
  }

  function Absorb(fold: Fold, aliases: seq<string>, names: seq<string>): (r: seq<string>)
    ensures aliases <= r
    ensures forall a :: a in r ==> a in aliases || a in names
    decreases names
  {
    if names == [] then aliases else Absorb(fold, AppendAlias(fold, aliases, names[0]), names[1..])
  }

  /** A name is appended if and only if no alias is equal to it up to case, so none comes twice. */
  lemma AppendOnce(fold: Fold, aliases: seq<string>, name: string)
    ensures var r := AppendAlias(fold, aliases, name);
      && r == (if exists i :: 0 <= i < |aliases| && fold(aliases[i]) == fold(name) then aliases else aliases + [name])
      && (NoTwice(fold, aliases) ==> NoTwice(fold, r))
  {
    if a :| a in aliases && fold(a) == fold(name) {
      var i :| 0 <= i < |aliases| && aliases[i] == a;
    }
  }

  lemma {:induction false} AbsorbOnce(fold: Fold, aliases: seq<string>, names: seq<string>)
    requires NoTwice(fold, aliases)
    ensures NoTwice(fold, Absorb(fold, aliases, names))
    decreases names
  {
    if names != [] {
      AppendOnce(fold, aliases, names[0]);
      AbsorbOnce(fold, AppendAlias(fold, aliases, names[0]), names[1..]);
    }
  }

  lemma {:induction false} AbsorbHasAll(fold: Fold, aliases: seq<string>, names: seq<string>, name: string)
    requires HasAlias(fold, aliases, name) || HasAlias(fold, names, name)
    ensures HasAlias(fold, Absorb(fold, aliases, names), name)
    decreases names
  {
    if names != [] {
      var more := AppendAlias(fold, aliases, names[0]);
      if HasAlias(fold, aliases, name) {
        var a :| a in aliases && fold(a) == fold(name);
        assert a in more;
      } else {
        var a :| a in names && fold(a) == fold(name);
        if a != names[0] {
          assert a in names[1..];
        }
      }
      AbsorbHasAll(fold, more, names[1..], name);
    }
  }

  /** The older of two, ties broken by id. */
  predicate Older(a: Memory, b: Memory) {
    a.createdAt < b.createdAt || (a.createdAt == b.createdAt && StringLess(a.id, b.id))
  }

  // ---- One merge ----

  datatype Merge = Merge(winner: Memory, loser: Memory, now: real, edge: EdgeId)

  predicate CanMerge(s: State, ws: string, m: Merge) {
    && LiveResource(s, ws, m.winner.id) && s.memories[m.winner.id] == m.winner
    && LiveResource(s, ws, m.loser.id) && s.memories[m.loser.id] == m.loser
    && Older(m.winner, m.loser)
    && m.edge.Random? && m.edge !in s.edges
  }

  function Absorbed(fold: Fold, m: Merge): Memory {
    m.winner.(aliases := Absorb(fold, m.winner.aliases, m.loser.aliases))
  }

  /** The ids with a valid operates_on edge into id. */
  function Sources(s: State, id: Id): set<Id> {
    set e | e in s.edges && IsLive(s, e, s.edges[e].src, OPERATES_ON, id) :: s.edges[e].src
  }

  /** Every source also gets an edge to the winner, under its projected id. */
  function Repoint(s: State, sources: set<Id>, winner: Id, now: real): State {
    s.(edges := s.edges +
       map e: EdgeId | e in (set src | src in sources :: Projected(src, OPERATES_ON, winner)) ::
         Edge(e, e.src, OPERATES_ON, winner, now, None))
  }

  function MergeIn(fold: Fold, s: State, m: Merge): State {
    var absorbed := PutRow(s, Absorbed(fold, m));
    RetireIn(Repoint(absorbed, Sources(s, m.loser.id), m.winner.id, m.now), m.loser, m.winner.id, m.now, m.edge)
  }

  /** The rows after a merge: aliases joined, loser marked, nothing else. */
  lemma RowsAfterMerge(fold: Fold, s: State, ws: string, m: Merge)
    requires WellFormed(s) && CanMerge(s, ws, m)
    ensures MergeIn(fold, s, m).memories ==
      s.memories[m.winner.id := Absorbed(fold, m)][m.loser.id := MarkRetired(m.loser, m.winner.id)]
    ensures m.winner.id != m.loser.id
  {
  }

  /** The row merged away names what it was merged into. */
  lemma LoserRow(fold: Fold, s: State, ws: string, m: Merge)
    requires WellFormed(s) && CanMerge(s, ws, m)
    ensures m.loser.id in MergeIn(fold, s, m).memories
    ensures Marked(m.loser, MergeIn(fold, s, m).memories[m.loser.id], m.winner.id)
  {
    RowsAfterMerge(fold, s, ws, m);
  }

  /** The surviving row: its own aliases first, then every one of the other's that it does not have up to case; all
      else as it was. */
  lemma SurvivorRow(fold: Fold, s: State, ws: string, m: Merge)
    requires WellFormed(s) && CanMerge(s, ws, m)
    ensures var row := MergeIn(fold, s, m).memories[m.winner.id];
      && row.(aliases := m.winner.aliases) == m.winner && m.winner.aliases <= row.aliases
      && (forall a :: a in row.aliases ==> a in m.winner.aliases || a in m.loser.aliases)
      && (forall a :: a in m.loser.aliases ==> exists b :: b in row.aliases && fold(b) == fold(a))
      && (NoTwice(fold, m.winner.aliases) ==> NoTwice(fold, row.aliases))
  {
    RowsAfterMerge(fold, s, ws, m);
    if NoTwice(fold, m.winner.aliases) {
      AbsorbOnce(fold, m.winner.aliases, m.loser.aliases);
    }
    forall a | a in m.loser.aliases
      ensures exists b :: b in Absorbed(fold, m).aliases && fold(b) == fold(a)
    {
      assert HasAlias(fold, m.loser.aliases, a);
      AbsorbHasAll(fold, m.winner.aliases, m.loser.aliases, a);
    }
  }

  lemma RepointKeepsWellFormed(s: State, sources: set<Id>, winner: Id, now: real)
    requires WellFormed(s) && winner in s.memories && sources <= s.memories.Keys
    ensures WellFormed(Repoint(s, sources, winner, now))
  {
  }

  lemma LinksAfterRepoint(s: State, sources: set<Id>, winner: Id, now: real, src: Id, dst: Id)
    requires WellFormed(s)
    ensures HasLive(Repoint(s, sources, winner, now), src, OPERATES_ON, dst) <==>
      HasLive(s, src, OPERATES_ON, dst) || (src in sources && dst == winner)
  {
    var t := Repoint(s, sources, winner, now);
    if src in sources && dst == winner {
      assert IsLive(t, Projected(src, OPERATES_ON, winner), src, OPERATES_ON, dst);
    } else if e :| IsLive(s, e, src, OPERATES_ON, dst) {
      assert e.Projected? ==> e == Projected(src, OPERATES_ON, dst);
      assert IsLive(t, e, src, OPERATES_ON, dst);
    }
    if e :| IsLive(t, e, src, OPERATES_ON, dst) {
      assert IsLive(s, e, src, OPERATES_ON, dst) || (src in sources && dst == winner);
    }
  }

  lemma SourcesExact(s: State, id: Id, src: Id)
    ensures src in Sources(s, id) <==> HasLive(s, src, OPERATES_ON, id)
  {
    if e :| IsLive(s, e, src, OPERATES_ON, id) {
      assert IsLive(s, e, s.edges[e].src, OPERATES_ON, id);
    }
  }

  lemma MergeKeepsWellFormed(fold: Fold, s: State, ws: string, m: Merge)
    requires WellFormed(s) && CanMerge(s, ws, m)
    ensures WellFormed(MergeIn(fold, s, m))
  {
    var absorbed := PutRow(s, Absorbed(fold, m));
    RepointKeepsWellFormed(absorbed, Sources(s, m.loser.id), m.winner.id, m.now);
    RetireKeepsWellFormed(Repoint(absorbed, Sources(s, m.loser.id), m.winner.id, m.now), m.loser, m.winner.id,
                          m.now, m.edge);
  }

  /** Which valid operates_on links there are after a merge. */
  lemma LinksAfterMerge(fold: Fold, s: State, ws: string, m: Merge, src: Id, dst: Id)
    requires WellFormed(s) && CanMerge(s, ws, m)
    ensures HasLive(MergeIn(fold, s, m), src, OPERATES_ON, dst) <==>
      src != m.loser.id && dst != m.loser.id &&
      (HasLive(s, src, OPERATES_ON, dst) || (dst == m.winner.id && HasLive(s, src, OPERATES_ON, m.loser.id)))
  {
    var absorbed := PutRow(s, Absorbed(fold, m));
    var sources := Sources(s, m.loser.id);
    assert WellFormed(absorbed);
    SourcesExact(s, m.loser.id, src);
    SameLinks(s, absorbed, src, dst);
    LinksAfterRepoint(absorbed, sources, m.winner.id, m.now, src, dst);
    LinksAfterRetire(Repoint(absorbed, sources, m.winner.id, m.now), m.loser, m.winner.id, m.now, m.edge, src, OPERATES_ON, dst);
  }

  lemma SameLinks(s: State, t: State, src: Id, dst: Id)
    requires s.edges == t.edges
    ensures HasLive(s, src, OPERATES_ON, dst) <==> HasLive(t, src, OPERATES_ON, dst)
  {
    if e :| IsLive(s, e, src, OPERATES_ON, dst) {
      assert IsLive(t, e, src, OPERATES_ON, dst);
    }
    if e :| IsLive(t, e, src, OPERATES_ON, dst) {
      assert IsLive(s, e, src, OPERATES_ON, dst);
    }
  }

  /** Exactly the loser stops being a live resource. */
  lemma LiveAfterMerge(fold: Fold, s: State, ws: string, m: Merge)
    requires WellFormed(s) && CanMerge(s, ws, m)
    ensures LiveResources(MergeIn(fold, s, m), ws) == LiveResources(s, ws) - {m.loser.id}
    ensures forall id :: IsResource(MergeIn(fold, s, m), ws, id) <==> IsResource(s, ws, id)
  {
    RowsAfterMerge(fold, s, ws, m);
  }

  // ---- A pass of merges ----

  ghost predicate Merges(fold: Fold, ws: string, s: State, ms: seq<Merge>)
    decreases ms
  {
    ms == [] || (CanMerge(s, ws, ms[0]) && Merges(fold, ws, MergeIn(fold, s, ms[0]), ms[1..]))
  }

  ghost function After(fold: Fold, ws: string, s: State, ms: seq<Merge>): State
    requires Merges(fold, ws, s, ms)
    decreases ms
  {
    if ms == [] then s else After(fold, ws, MergeIn(fold, s, ms[0]), ms[1..])
  }

  lemma {:induction false} MergesSnoc(fold: Fold, ws: string, s: State, ms: seq<Merge>, m: Merge)
    requires Merges(fold, ws, s, ms) && CanMerge(After(fold, ws, s, ms), ws, m)
    ensures Merges(fold, ws, s, ms + [m])
    ensures After(fold, ws, s, ms + [m]) == MergeIn(fold, After(fold, ws, s, ms), m)
    decreases ms
  {
    if ms == [] {
      assert ([m])[1..] == [];
    } else {
      assert (ms + [m])[1..] == ms[1..] + [m];
      MergesSnoc(fold, ws, MergeIn(fold, s, ms[0]), ms[1..], m);
    }
  }

  /** The resource that r has become part of after the merges. */
  function Survivor(ms: seq<Merge>, r: Id): Id
    decreases ms
  {
    if ms == [] then r
    else Survivor(ms[1..], if r == ms[0].loser.id then ms[0].winner.id else r)
  }

  predicate NoYounger(s: State, a: Id, b: Id) {
    a in s.memories && b in s.memories && (a == b || Older(s.memories[a], s.memories[b]))
  }

  lemma OlderTransitive(a: Memory, b: Memory, c: Memory)
    requires Older(a, b) && Older(b, c)
    ensures Older(a, c)
  {
    if StringLess(a.id, b.id) && StringLess(b.id, c.id) {
      StringLeTransitive(a.id, b.id, c.id);
      StringLeTotal(a.id, b.id);
    }
  }

  /** Merging changes nobody's age. */
  lemma AgesKept(fold: Fold, s: State, ws: string, m: Merge, a: Id, b: Id)
    requires WellFormed(s) && CanMerge(s, ws, m)
    ensures NoYounger(MergeIn(fold, s, m), a, b) <==> NoYounger(s, a, b)
  {
    RowsAfterMerge(fold, s, ws, m);
  }

  /** The resource that r is part of after one merge is live and no younger. */
  lemma OneStepSurvivor(fold: Fold, s: State, ws: string, m: Merge, r: Id)
    requires WellFormed(s) && CanMerge(s, ws, m) && LiveResource(s, ws, r)
    ensures var r' := if r == m.loser.id then m.winner.id else r;
      LiveResource(MergeIn(fold, s, m), ws, r') && NoYounger(s, r', r)
  {
    var r' := if r == m.loser.id then m.winner.id else r;
    LiveAfterMerge(fold, s, ws, m);
    RowsAfterMerge(fold, s, ws, m);
    assert r' in LiveResources(MergeIn(fold, s, m), ws);
  }

  lemma NoYoungerTransitive(s: State, a: Id, b: Id, c: Id)
    requires NoYounger(s, a, b) && NoYounger(s, b, c)
    ensures NoYounger(s, a, c)
  {
    if a != b && b != c && a != c {
      OlderTransitive(s.memories[a], s.memories[b], s.memories[c]);
    }
  }

  /** What r became part of is live and, of all that merged into it, the oldest. */
  lemma {:induction false} SurvivorIsOldest(fold: Fold, ws: string, s: State, ms: seq<Merge>, r: Id)
    requires WellFormed(s) && Merges(fold, ws, s, ms) && LiveResource(s, ws, r)
    ensures LiveResource(After(fold, ws, s, ms), ws, Survivor(ms, r))
    ensures NoYounger(s, Survivor(ms, r), r)
    decreases ms
  {
    if ms != [] {
      var m := ms[0];
      var r' := if r == m.loser.id then m.winner.id else r;
      MergeKeepsWellFormed(fold, s, ws, m);
      OneStepSurvivor(fold, s, ws, m, r);
      SurvivorIsOldest(fold, ws, MergeIn(fold, s, m), ms[1..], r');
      AgesKept(fold, s, ws, m, Survivor(ms[1..], r'), r');
      NoYoungerTransitive(s, Survivor(ms[1..], r'), r', r);
    }
  }

  /** History is conserved: a source outside the resources keeps its operates_on link, to what its target
      became part of. */
  lemma {:induction false} HistoryFollows(fold: Fold, ws: string, s: State, ms: seq<Merge>, src: Id, r: Id)
    requires WellFormed(s) && Merges(fold, ws, s, ms) && LiveResource(s, ws, r)
    requires HasLive(s, src, OPERATES_ON, r) && !IsResource(s, ws, src)
    ensures HasLive(After(fold, ws, s, ms), src, OPERATES_ON, Survivor(ms, r))
    decreases ms
  {
    if ms != [] {
      var m := ms[0];
      var t := MergeIn(fold, s, m);
      var r' := if r == m.loser.id then m.winner.id else r;
      MergeKeepsWellFormed(fold, s, ws, m);
      RowsAfterMerge(fold, s, ws, m);
      LiveAfterMerge(fold, s, ws, m);
      LinksAfterMerge(fold, s, ws, m, src, r');
      assert r' in LiveResources(t, ws);
      HistoryFollows(fold, ws, t, ms[1..], src, r');
    }
  }

  /** Nothing operates on what has been merged away. */
  lemma {:induction false} NothingIntoMerged(fold: Fold, ws: string, s: State, ms: seq<Merge>, src: Id, x: Id)
    requires WellFormed(s) && Merges(fold, ws, s, ms)
    requires LiveResource(s, ws, x) || !HasLive(s, src, OPERATES_ON, x)
    ensures LiveResource(After(fold, ws, s, ms), ws, x) || !HasLive(After(fold, ws, s, ms), src, OPERATES_ON, x)
    decreases ms
  {
    if ms != [] {
      var m := ms[0];
      MergeKeepsWellFormed(fold, s, ws, m);
      LiveAfterMerge(fold, s, ws, m);
      LinksAfterMerge(fold, s, ws, m, src, x);
      assert LiveResource(s, ws, x) && x != m.loser.id ==> x in LiveResources(MergeIn(fold, s, m), ws);
      NothingIntoMerged(fold, ws, MergeIn(fold, s, m), ms[1..], src, x);
    }
  }

  /** Each merge costs one live resource. */
  lemma {:induction false} MergesCount(fold: Fold, ws: string, s: State, ms: seq<Merge>)
    requires WellFormed(s) && Merges(fold, ws, s, ms)
    ensures WellFormed(After(fold, ws, s, ms))
    ensures |LiveResources(After(fold, ws, s, ms), ws)| + |ms| == |LiveResources(s, ws)|
    decreases ms
  {
    if ms != [] {
      var m := ms[0];
      MergeKeepsWellFormed(fold, s, ws, m);
      LiveAfterMerge(fold, s, ws, m);
      assert m.loser.id in LiveResources(s, ws);
      MergesCount(fold, ws, MergeIn(fold, s, m), ms[1..]);
    }
  }

  /** A retired row stays what it is over any sequence of merges. */
  lemma {:induction false} RetiredRowStays(fold: Fold, ws: string, s: State, ms: seq<Merge>, id: Id)
    requires WellFormed(s) && Merges(fold, ws, s, ms) && id in s.memories && IsRetired(s.memories[id])
    ensures id in After(fold, ws, s, ms).memories && After(fold, ws, s, ms).memories[id] == s.memories[id]
    decreases ms
  {
    if ms != [] {
      RowsAfterMerge(fold, s, ws, ms[0]);
      MergeKeepsWellFormed(fold, s, ws, ms[0]);
      RetiredRowStays(fold, ws, MergeIn(fold, s, ms[0]), ms[1..], id);
    }
  }

  ghost predicate NamesWinner(t: State, m: Merge) {
    && m.loser.id in t.memories
    && t.memories[m.loser.id].supersededBy == m.winner.id && !t.memories[m.loser.id].superseded
  }

  /** ms leads from s to t. */
  ghost predicate LeadsTo(fold: Fold, ws: string, s: State, ms: seq<Merge>, t: State) {
    WellFormed(s) && Merges(fold, ws, s, ms) && t == After(fold, ws, s, ms)
  }

  /** Over any sequence of merges every row that was merged away names exactly what it was merged into. */
  lemma {:induction false} LosersNameWinners(fold: Fold, ws: string, s: State, ms: seq<Merge>, t: State, k: nat)
    requires LeadsTo(fold, ws, s, ms, t) && k < |ms|
    ensures NamesWinner(t, ms[k])
    decreases k
  {
    var m := ms[k];
    if k == 0 {
      FirstLoser(fold, ws, s, ms, t);
    } else {
      var next, rest := AfterFirst(fold, ws, s, ms, t, k);
      LosersNameWinners(fold, ws, next, rest, t, k - 1);
      assert rest[k - 1] == m;
    }
    assert NamesWinner(t, m);
  }

  lemma AfterFirst(fold: Fold, ws: string, s: State, ms: seq<Merge>, t: State, k: nat)
    returns (next: State, rest: seq<Merge>)
    requires LeadsTo(fold, ws, s, ms, t) && 0 < k < |ms|
    ensures LeadsTo(fold, ws, next, rest, t) && |rest| == |ms| - 1 && rest[k - 1] == ms[k]
  {
    MergeKeepsWellFormed(fold, s, ws, ms[0]);
    next, rest := MergeIn(fold, s, ms[0]), ms[1..];
  }

  lemma FirstLoser(fold: Fold, ws: string, s: State, ms: seq<Merge>, t: State)
    requires LeadsTo(fold, ws, s, ms, t) && ms != []
    ensures NamesWinner(t, ms[0])
  {
    MergeKeepsWellFormed(fold, s, ws, ms[0]);
    var m, next := ms[0], MergeIn(fold, s, ms[0]);
    LoserRow(fold, s, ws, m);
    assert m.winner.id != "" by { assert s.memories[m.winner.id].id == m.winner.id; }
    RetiredRowStays(fold, ws, next, ms[1..], m.loser.id);
  }

  lemma AllNameWinners(fold: Fold, ws: string, s: State, ms: seq<Merge>)
    requires WellFormed(s) && Merges(fold, ws, s, ms)
    ensures forall k :: 0 <= k < |ms| ==> NamesWinner(After(fold, ws, s, ms), ms[k])
  {
    forall k | 0 <= k < |ms| ensures NamesWinner(After(fold, ws, s, ms), ms[k]) {
      LosersNameWinners(fold, ws, s, ms, After(fold, ws, s, ms), k);
    }
  }

  // ---- The pass ----

  /** Which of two survives. */
  function MergeWinner(a: Memory, b: Memory): (r: (Memory, Memory))
    ensures r == (a, b) || r == (b, a)
    ensures a.id != b.id ==> Older(r.0, r.1)
    ensures r.0.createdAt < r.1.createdAt || (r.0.createdAt == r.1.createdAt && (a.id != b.id ==> StringLess(r.0.id, r.1.id)))
  {
    if a.createdAt < b.createdAt then (a, b)
    else if b.createdAt < a.createdAt then (b, a)
    else if StringLess(a.id, b.id) then (a, b)
    else
      StringLeTotal(a.id, b.id);
      (b, a)
  }

  /** The model's answer to whether two resources are one. */
  datatype Answer = Failed | Same(same: bool)

  /** Folds loser into winner; the results are the caller's copies, updated. */
  method MergeResourcePair(store: Store, fold: Fold, ghost ws: string, winner: Memory, loser: Memory, now: real)
    returns (winner': Memory, loser': Memory, ghost m: Merge)
    requires store.Valid()
    requires LiveResource(store.Now(), ws, winner.id) && store.memories[winner.id] == winner
    requires LiveResource(store.Now(), ws, loser.id) && store.memories[loser.id] == loser
    requires Older(winner, loser)
    modifies store
    ensures store.Valid()
    ensures CanMerge(old(store.Now()), ws, m) && m.winner == winner && m.loser == loser
    ensures store.Now() == MergeIn(fold, old(store.Now()), m)
    ensures store.memories[winner.id] == winner' && store.memories[loser.id] == loser'
    ensures winner' == Absorbed(fold, m) && loser' == MarkRetired(loser, winner.id)
    ensures Marked(loser, store.memories[loser.id], winner.id)
  {
    ghost var s := store.Now();
    var aliases := winner.aliases;
    var aliasesChanged := false;
    for i := 0 to |loser.aliases|
      invariant Absorb(fold, aliases, loser.aliases[i..]) == Absorb(fold, winner.aliases, loser.aliases)
      invariant !aliasesChanged ==> aliases == winner.aliases
    {
      assert loser.aliases[i..][1..] == loser.aliases[i + 1..];
      var more := AppendAlias(fold, aliases, loser.aliases[i]);
      if more != aliases {
        aliasesChanged := true;
      }
      aliases := more;
    }
    assert loser.aliases[|loser.aliases|..] == [];
    winner' := winner.(aliases := aliases);
    if aliasesChanged {
      store.PutMemory(winner');
    }
    ghost var absorbed := PutRow(s, winner');
    assert store.Now() == absorbed by {
      assert store.memories == absorbed.memories;
    }
    forall src { SourcesExact(absorbed, loser.id, src); }
    assert Sources(absorbed, loser.id) == Sources(s, loser.id);
    PointAtWinner(store, winner.id, loser.id, now, Sources(s, loser.id));
    ghost var edge;
    loser', edge := store.Retire(loser, winner.id, now);
    m := Merge(winner, loser, now, edge);
    RowsAfterMerge(fold, s, ws, m);
  }

  lemma RepointOneMore(s: State, sources: set<Id>, src: Id, winner: Id, now: real)
    requires src in s.memories && winner in s.memories
    ensures WellFormedEdge(Repoint(s, sources, winner, now), Projected(src, OPERATES_ON, winner),
                           Edge(Projected(src, OPERATES_ON, winner), src, OPERATES_ON, winner, now, None))
    ensures PutEdgeIn(Repoint(s, sources, winner, now),
                      Edge(Projected(src, OPERATES_ON, winner), src, OPERATES_ON, winner, now, None))
      == Repoint(s, sources + {src}, winner, now)
  {
  }

  method PointOne(store: Store, ghost s: State, ghost done: set<Id>, src: Id, winner: Id, now: real)
    requires store.Valid() && store.Now() == Repoint(s, done, winner, now)
    requires src in s.memories && winner in s.memories
    modifies store`edges
    ensures store.Valid() && store.Now() == Repoint(s, done + {src}, winner, now)
  {
    RepointOneMore(s, done, src, winner, now);
    store.PutEdge(Edge(Projected(src, OPERATES_ON, winner), src, OPERATES_ON, winner, now, None));
  }

  /** The sources of the first i edges into the loser are done. */
  ghost predicate SourcesIn(neighbors: seq<Edge>, loser: Id, i: nat, done: set<Id>) {
    forall j :: 0 <= j < i && j < |neighbors| && neighbors[j].dst == loser ==> neighbors[j].src in done
  }

  lemma SourcesInStep(neighbors: seq<Edge>, loser: Id, i: nat, done: set<Id>, done': set<Id>)
    requires SourcesIn(neighbors, loser, i, done) && done <= done' && i < |neighbors|
    requires neighbors[i].dst == loser ==> neighbors[i].src in done'
    ensures SourcesIn(neighbors, loser, i + 1, done')
  {
  }

  /** The valid operates_on edges at the loser show all its sources. */
  lemma SourcesSeen(s: State, neighbors: seq<Edge>, loser: Id, sources: set<Id>, done: set<Id>)
    requires forall src :: src in sources <==> HasLive(s, src, OPERATES_ON, loser)
    requires forall e, src :: IsLive(s, e, src, OPERATES_ON, loser) ==> s.edges[e] in neighbors
    requires SourcesIn(neighbors, loser, |neighbors|, done) && done <= sources
    ensures done == sources
  {
    forall src | src in sources ensures src in done {
      var e :| IsLive(s, e, src, OPERATES_ON, loser);
      assert s.edges[e] in neighbors;
    }
  }

  /** Gives every source of the loser a projected edge to the winner. */
  method PointAtWinner(store: Store, winner: Id, loser: Id, now: real, ghost sources: set<Id>)
    requires store.Valid() && winner in store.memories && winner != loser
    requires forall src :: src in sources <==> HasLive(store.Now(), src, OPERATES_ON, loser)
    modifies store`edges
    ensures store.Valid()
    ensures store.Now() == Repoint(old(store.Now()), sources, winner, now)
  {
    ghost var s := store.Now();
    var neighbors := store.Neighbors(loser, OPERATES_ON);
    ghost var done: set<Id> := {};
    for i := 0 to |neighbors|
      invariant store.Valid() && store.Now() == Repoint(s, done, winner, now)
      invariant done <= sources && SourcesIn(neighbors, loser, i, done)
    {
      ghost var done0 := done;
      var e := neighbors[i];
      assert e in neighbors && e.validTo.None?;
      if e.validTo.None? && e.dst == loser {
        assert IsLive(s, e.id, e.src, OPERATES_ON, loser);
        PointOne(store, s, done, e.src, winner, now);
        done := done + {e.src};
      }
      SourcesInStep(neighbors, loser, i, done0, done);
    }
    SourcesSeen(s, neighbors, loser, sources, done);
  }

  /** Confirmed says that the pass was told the two listed resources at i and j are one. */
  predicate Confirmed(listed: seq<Memory>, similarity: (string, string) -> real, threshold: real,
                      answer: (nat, nat) -> Answer, i: nat, j: nat) {
    i < j < |listed| && similarity(listed[i].content, listed[j].content) >= threshold && answer(i, j) == Same(true)
  }

  ghost predicate Justified(listed: seq<Memory>, similarity: (string, string) -> real, threshold: real,
                            answer: (nat, nat) -> Answer, m: Merge) {
    exists i: nat, j: nat :: Confirmed(listed, similarity, threshold, answer, i, j) &&
      {m.winner.id, m.loser.id} == {listed[i].id, listed[j].id}
  }

  /** The in-memory list agrees with the rows and still lists the same ids. */
  ghost predicate Mirrors(s: State, ws: string, listed: seq<Memory>, live: seq<Memory>) {
    && |live| == |listed|
    && (forall k :: 0 <= k < |live| ==>
          live[k].id == listed[k].id && live[k].content == listed[k].content
          && IsResource(s, ws, live[k].id) && s.memories[live[k].id] == live[k])
    && (forall k, l :: 0 <= k < l < |live| ==> live[k].id != live[l].id)
  }

  /** Every pair up to (i, j), row by row, that is similar enough and still unmerged was denied. */
  ghost predicate Settled(live: seq<Memory>, similarity: (string, string) -> real, threshold: real,
                          answer: (nat, nat) -> Answer, i: nat, j: nat) {
    forall a: nat, b: nat ::
      a < b < |live| && (a < i || (a == i && b < j)) && !IsRetired(live[a]) && !IsRetired(live[b])
      && similarity(live[a].content, live[b].content) >= threshold
      ==> answer(a, b) == Same(false)
  }

  lemma MirrorsStep(fold: Fold, s: State, ws: string, listed: seq<Memory>, live: seq<Memory>, m: Merge, w: nat, l: nat)
    requires WellFormed(s) && Mirrors(s, ws, listed, live) && CanMerge(s, ws, m)
    requires w < |live| && l < |live| && w != l && live[w] == m.winner && live[l] == m.loser
    ensures Mirrors(MergeIn(fold, s, m), ws, listed,
                    live[w := Absorbed(fold, m)][l := MarkRetired(m.loser, m.winner.id)])
  {
    RowsAfterMerge(fold, s, ws, m);
    MirrorsUpdated(s, MergeIn(fold, s, m), ws, listed, live, w, l, Absorbed(fold, m), MarkRetired(m.loser, m.winner.id));
  }

  lemma MirrorsUpdated(s: State, t: State, ws: string, listed: seq<Memory>, live: seq<Memory>, w: nat, l: nat,
                       a: Memory, b: Memory)
    requires Mirrors(s, ws, listed, live) && w < |live| && l < |live| && w != l
    requires a == live[w].(aliases := a.aliases)
    requires b == live[l].(supersededBy := b.supersededBy, superseded := b.superseded)
    requires t.memories == s.memories[live[w].id := a][live[l].id := b]
    ensures Mirrors(t, ws, listed, live[w := a][l := b])
  {
  }

  /** Looking at one more pair keeps the account, whether it was merged, denied or passed over. */
  lemma SettledStep(live: seq<Memory>, live': seq<Memory>, similarity: (string, string) -> real, threshold: real,
                    answer: (nat, nat) -> Answer, i: nat, j: nat)
    requires i < j < |live| == |live'| && Settled(live, similarity, threshold, answer, i, j)
    requires forall k :: 0 <= k < |live| ==> live'[k].content == live[k].content
    requires forall k :: 0 <= k < |live| && IsRetired(live[k]) ==> IsRetired(live'[k])
    requires IsRetired(live'[i]) || IsRetired(live'[j]) || answer(i, j) == Same(false)
      || similarity(live[i].content, live[j].content) < threshold
    ensures Settled(live', similarity, threshold, answer, i, j + 1)
  {
  }

  /** What the pass has done so far, leading from s to t. */
  ghost predicate Progress(fold: Fold, ws: string, s: State, t: State, ms: seq<Merge>, listed: seq<Memory>,
                           live: seq<Memory>, similarity: (string, string) -> real, threshold: real,
                           answer: (nat, nat) -> Answer) {
    && Merges(fold, ws, s, ms) && t == After(fold, ws, s, ms)
    && Mirrors(t, ws, listed, live)
    && (forall m :: m in ms ==> Justified(listed, similarity, threshold, answer, m))
  }

  lemma ProgressStep(fold: Fold, ws: string, s: State, t: State, ms: seq<Merge>, listed: seq<Memory>,
                     live: seq<Memory>, similarity: (string, string) -> real, threshold: real,
                     answer: (nat, nat) -> Answer, m: Merge, live': seq<Memory>, i: nat, j: nat)
    requires Progress(fold, ws, s, t, ms, listed, live, similarity, threshold, answer)
    requires CanMerge(t, ws, m) && Mirrors(MergeIn(fold, t, m), ws, listed, live')
    requires Confirmed(listed, similarity, threshold, answer, i, j)
    requires {m.winner.id, m.loser.id} == {listed[i].id, listed[j].id}
    ensures Progress(fold, ws, s, MergeIn(fold, t, m), ms + [m], listed, live', similarity, threshold, answer)
  {
    MergesSnoc(fold, ws, s, ms, m);
    assert Justified(listed, similarity, threshold, answer, m);
  }

  /** Looks at one pair: merges it when it is live, similar enough and confirmed. */
  method ConsiderPair(store: Store, fold: Fold, ghost ws: string, ghost s: State, ghost ms: seq<Merge>,
                      ghost listed: seq<Memory>, live: seq<Memory>, similarity: (string, string) -> real,
                      threshold: real, answer: (nat, nat) -> Answer, i: nat, j: nat, now: real)
    returns (live': seq<Memory>, merged: bool, ok: bool, ghost ms': seq<Merge>)
    requires store.Valid() && i < j < |live| && Settled(live, similarity, threshold, answer, i, j)
    requires Progress(fold, ws, s, store.Now(), ms, listed, live, similarity, threshold, answer)
    modifies store
    ensures store.Valid()
    ensures Progress(fold, ws, s, store.Now(), ms', listed, live', similarity, threshold, answer)
    ensures |ms'| == |ms| + (if merged then 1 else 0) && |live'| == |live|
    ensures ok ==> Settled(live', similarity, threshold, answer, i, j + 1)
  {
    live', merged, ok, ms' := live, false, true, ms;
    if !IsRetired(live[i]) && !IsRetired(live[j]) && similarity(live[i].content, live[j].content) >= threshold {
      match answer(i, j)
      case Failed => ok := false;
      case Same(false) =>
      case Same(true) =>
        ghost var t := store.Now();
        ghost var m;
        live', m := MergeAt(store, fold, ws, listed, live, i, j, now);
        ProgressStep(fold, ws, s, t, ms, listed, live, similarity, threshold, answer, m, live', i, j);
        merged, ms' := true, ms + [m];
    }
    if ok {
      SettledStep(live, live', similarity, threshold, answer, i, j);
    }
  }

  /** The live resources, each once. */
  method ListLive(store: Store, ws: string) returns (live: seq<Memory>)
    requires store.Valid()
    ensures forall m :: m in live <==>
      m.id in store.memories && store.memories[m.id] == m && LiveResource(store.Now(), ws, m.id)
    ensures Mirrors(store.Now(), ws, live, live)
  {
    var res := store.IterMemories(ws, Some(Semantic), Some(Resource));
    live := DropRetired(res);
    MirrorsListed(store.Now(), ws, res, live);
  }

  /** Looks at every pair of resource i and a later one. */
  method MergeRow(store: Store, fold: Fold, ghost ws: string, ghost s: State, ghost ms: seq<Merge>,
                  ghost listed: seq<Memory>, live: seq<Memory>, similarity: (string, string) -> real,
                  threshold: real, answer: (nat, nat) -> Answer, i: nat, now: real)
    returns (live': seq<Memory>, dids: nat, ok: bool, ghost ms': seq<Merge>)
    requires store.Valid() && i < |live| && Settled(live, similarity, threshold, answer, i, 0)
    requires Progress(fold, ws, s, store.Now(), ms, listed, live, similarity, threshold, answer)
    modifies store
    ensures store.Valid() && |live'| == |live|
    ensures Progress(fold, ws, s, store.Now(), ms', listed, live', similarity, threshold, answer)
    ensures |ms'| == |ms| + dids
    ensures ok ==> Settled(live', similarity, threshold, answer, i + 1, 0)
  {
    live', dids, ok, ms' := live, 0, true, ms;
    SettledRow(live', similarity, threshold, answer, i);
    for j := i + 1 to |live|
      invariant store.Valid() && |ms'| == |ms| + dids && |live'| == |live|
      invariant Progress(fold, ws, s, store.Now(), ms', listed, live', similarity, threshold, answer)
      invariant Settled(live', similarity, threshold, answer, i, j)
    {
      var did;
      live', did, ok, ms' := ConsiderPair(store, fold, ws, s, ms', listed, live', similarity, threshold, answer, i, j, now);
      dids := dids + if did then 1 else 0;
      if !ok {
        return;
      }
    }
    SettledRow(live', similarity, threshold, answer, i);
  }

  /** Merges every confirmed pair of live resources. Without an agent nothing happens; a failed answer
      ends the pass with what has been merged so far. */
  method MergeAliases(store: Store, fold: Fold, ws: string, similarity: (string, string) -> real, threshold: real,
                      agent: Option<(nat, nat) -> Answer>, now: real)
    returns (merged: nat, ok: bool, ghost ms: seq<Merge>, ghost listed: seq<Memory>)
    requires store.Valid()
    modifies store
    ensures store.Valid()
    ensures Merges(fold, ws, old(store.Now()), ms) && store.Now() == After(fold, ws, old(store.Now()), ms)
    ensures merged == |ms|
    ensures agent.None? ==> ok && ms == []
    // every row merged away names what it was merged into
    ensures forall k :: 0 <= k < |ms| ==> NamesWinner(store.Now(), ms[k])
    // the pairs were formed over the live resources, each listed once
    ensures agent.Some? ==> forall m :: m in listed <==>
      m.id in old(store.memories) && old(store.memories)[m.id] == m && LiveResource(old(store.Now()), ws, m.id)
    ensures agent.Some? ==> forall m :: m in ms ==> Justified(listed, similarity, threshold, agent.value, m)
    // a pass that ran to its end left no confirmed pair apart
    ensures agent.Some? && ok ==> forall i: nat, j: nat ::
      i < j < |listed| && LiveResource(store.Now(), ws, listed[i].id) && LiveResource(store.Now(), ws, listed[j].id)
      ==> !Confirmed(listed, similarity, threshold, agent.value, i, j)
  {
    ms, listed, merged, ok := [], [], 0, true;
    if agent.None? {
      return;
    }
    ghost var s := store.Now();
    var live := ListLive(store, ws);
    listed := live;
    for i := 0 to |live|
      invariant store.Valid() && merged == |ms| && |live| == |listed|
      invariant Progress(fold, ws, s, store.Now(), ms, listed, live, similarity, threshold, agent.value)
      invariant Settled(live, similarity, threshold, agent.value, i, 0)
    {
      var dids;
      live, dids, ok, ms := MergeRow(store, fold, ws, s, ms, listed, live, similarity, threshold, agent.value, i, now);
      merged := merged + dids;
      if !ok {
        AllNameWinners(fold, ws, s, ms);
        return;
      }
    }
    AllNameWinners(fold, ws, s, ms);
    NoneApart(store.Now(), ws, listed, live, similarity, threshold, agent.value);
  }

  lemma MirrorsListed(s: State, ws: string, res: seq<Memory>, live: seq<Memory>)
    requires forall m :: m in live ==> m in res
    requires forall m :: m in res ==> m.id in s.memories && s.memories[m.id] == m && IsResource(s, ws, m.id)
    requires forall i, j :: 0 <= i < j < |live| ==> live[i].id != live[j].id
    ensures Mirrors(s, ws, live, live)
  {
    forall k | 0 <= k < |live| ensures IsResource(s, ws, live[k].id) && s.memories[live[k].id] == live[k] {
      assert live[k] in live;
    }
  }

  /** A row starts after its own diagonal, and a finished row is the start of the next. */
  lemma SettledRow(live: seq<Memory>, similarity: (string, string) -> real, threshold: real,
                   answer: (nat, nat) -> Answer, i: nat)
    ensures Settled(live, similarity, threshold, answer, i, 0) ==> Settled(live, similarity, threshold, answer, i, i + 1)
    ensures Settled(live, similarity, threshold, answer, i, |live|) ==>
      Settled(live, similarity, threshold, answer, i + 1, 0)
  {
  }

  lemma NoneApart(t: State, ws: string, listed: seq<Memory>, live: seq<Memory>, similarity: (string, string) -> real,
                  threshold: real, answer: (nat, nat) -> Answer)
    requires Mirrors(t, ws, listed, live) && Settled(live, similarity, threshold, answer, |live|, 0)
    ensures forall i: nat, j: nat ::
      i < j < |listed| && LiveResource(t, ws, listed[i].id) && LiveResource(t, ws, listed[j].id)
      ==> !Confirmed(listed, similarity, threshold, answer, i, j)
  {
    forall i: nat, j: nat | i < j < |listed| && LiveResource(t, ws, listed[i].id) && LiveResource(t, ws, listed[j].id)
      ensures !Confirmed(listed, similarity, threshold, answer, i, j)
    {
      assert live[i].id == listed[i].id && live[j].id == listed[j].id;
    }
  }

  method DropRetired(res: seq<Memory>) returns (live: seq<Memory>)
    requires forall i, j :: 0 <= i < j < |res| ==> res[i].id != res[j].id
    ensures forall m :: m in live <==> m in res && !IsRetired(m)
    ensures forall i, j :: 0 <= i < j < |live| ==> live[i].id != live[j].id
  {
    live := [];
    for i := 0 to |res|
      invariant forall m :: m in live <==> m in res[..i] && !IsRetired(m)
      invariant forall j, k :: 0 <= j < k < |live| ==> live[j].id != live[k].id
    {
      assert res[..i + 1] == res[..i] + [res[i]];
      if !IsRetired(res[i]) {
        forall j | 0 <= j < |live| ensures live[j].id != res[i].id {
          assert live[j] in res[..i];
        }
        live := live + [res[i]];
      }
    }
    assert res[..|res|] == res;
  }

  /** Merges the two listed resources at i and j and updates the list in place. */
  method MergeAt(store: Store, fold: Fold, ghost ws: string, ghost listed: seq<Memory>, live: seq<Memory>, i: nat, j: nat,
                 now: real)
    returns (live': seq<Memory>, ghost m: Merge)
    requires store.Valid() && Mirrors(store.Now(), ws, listed, live) && i < j < |live|
    requires !IsRetired(live[i]) && !IsRetired(live[j])
    modifies store
    ensures store.Valid() && Mirrors(store.Now(), ws, listed, live')
    ensures CanMerge(old(store.Now()), ws, m) && store.Now() == MergeIn(fold, old(store.Now()), m)
    ensures {m.winner.id, m.loser.id} == {listed[i].id, listed[j].id}
    ensures IsRetired(live'[i]) || IsRetired(live'[j])
    ensures forall k :: 0 <= k < |live| ==> (IsRetired(live[k]) ==> IsRetired(live'[k]))
  {
    ghost var s := store.Now();
    var (winner, loser) := MergeWinner(live[i], live[j]);
    var winner', loser';
    winner', loser', m := MergeResourcePair(store, fold, ws, winner, loser, now);
    if winner == live[i] {
      MirrorsStep(fold, s, ws, listed, live, m, i, j);
      live' := live[i := winner'][j := loser'];
    } else {
      MirrorsStep(fold, s, ws, listed, live, m, j, i);
      live' := live[j := winner'][i := loser'];
    }
  }
}
