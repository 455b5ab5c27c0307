/** The name registry: resolving a name to a resource of the workspace, growing alias lists on the way,
    interleaved with alias merges. */
module Resources {
  import opened Wrappers
  import opened Graph
  import opened Aliases

  // ---- Who owns a name ----

  predicate Owns(fold: Fold, m: Memory, name: string) {
    fold(m.content) == fold(name) || HasAlias(fold, m.aliases, name)
  }

  ghost predicate OwnedLive(fold: Fold, s: State, ws: string, name: string) {
    exists id :: LiveResource(s, ws, id) && Owns(fold, s.memories[id], name)
  }

  /** A retired resource of the workspace owns the name. */
  ghost predicate OwnedRetired(fold: Fold, s: State, ws: string, name: string) {
    exists id :: IsResource(s, ws, id) && IsRetired(s.memories[id]) && Owns(fold, s.memories[id], name)
  }

  /** A resource's content is among its aliases, up to case. */
  ghost predicate ContentIsAlias(fold: Fold, s: State, ws: string) {
    forall id :: IsResource(s, ws, id) ==> HasAlias(fold, s.memories[id].aliases, s.memories[id].content)
  }

  /** No name belongs to two live resources. */
  ghost predicate NamesUnique(fold: Fold, s: State, ws: string) {
    forall a, b, name ::
      LiveResource(s, ws, a) && LiveResource(s, ws, b)
      && Owns(fold, s.memories[a], name) && Owns(fold, s.memories[b], name)
      ==> a == b
  }

  /** Resources sit in the semantic layer, names are well registered, the graph is well formed. */
  ghost predicate Registry(fold: Fold, s: State, ws: string) {
    && WellFormed(s)
    && (forall id :: id in s.memories && s.memories[id].typ == Resource ==> s.memories[id].layer == Semantic)
    && ContentIsAlias(fold, s, ws) && NamesUnique(fold, s, ws)
  }

  // ---- Steps ----

  datatype Step =
    | Grow(id: Id, name: string)                          // a vector hit takes the name as an alias
    | Create(id: Id, name: string, createdAt: real)       // nothing matched: a new entity
    | Fold(merge: Merge)                                  // an alias merge

  ghost predicate Unowned(fold: Fold, s: State, ws: string, name: string) {
    forall id :: IsResource(s, ws, id) ==> !Owns(fold, s.memories[id], name)
  }

  function NewResource(ws: string, id: Id, name: string, createdAt: real): Memory {
    Memory(id, Semantic, Resource, ws, name, name, [], "", "", createdAt, "", "", "", false, [name], "", None, Missing)
  }

  ghost predicate Enabled(fold: Fold, ws: string, s: State, step: Step) {
    match step
    case Grow(id, name) => IsResource(s, ws, id) && Unowned(fold, s, ws, name)
    case Create(id, name, _) => id !in s.memories && id != "" && Unowned(fold, s, ws, name)
    case Fold(m) => CanMerge(s, ws, m)
  }

  function Next(fold: Fold, ws: string, s: State, step: Step): State
    requires step.Grow? ==> step.id in s.memories
  {
    match step
    case Grow(id, name) =>
      PutRow(s, s.memories[id].(aliases := AppendAlias(fold, s.memories[id].aliases, name)))
    case Create(id, name, createdAt) => PutRow(s, NewResource(ws, id, name, createdAt))
    case Fold(m) => MergeIn(fold, s, m)
  }

  /** Growing an alias list adds exactly the appended name. */
  lemma OwnsAfterAppend(fold: Fold, m: Memory, name: string, other: string)
    ensures Owns(fold, m.(aliases := AppendAlias(fold, m.aliases, name)), other) <==>
      Owns(fold, m, other) || fold(other) == fold(name)
  {
    var grown := AppendAlias(fold, m.aliases, name);
    if HasAlias(fold, m.aliases, other) {
      var a :| a in m.aliases && fold(a) == fold(other);
      assert a in grown;
    }
    if fold(other) == fold(name) {
      var a :| a in grown && fold(a) == fold(name);
      assert HasAlias(fold, grown, other);
    }
    if HasAlias(fold, grown, other) {
      var a :| a in grown && fold(a) == fold(other);
      assert a in m.aliases || a == name;
    }
  }

  /** The winner of a merge owns exactly what either of the two owned. */
  lemma OwnsAfterMerge(fold: Fold, m: Merge, name: string)
    requires HasAlias(fold, m.loser.aliases, m.loser.content)
    ensures Owns(fold, Absorbed(fold, m), name) <==> Owns(fold, m.winner, name) || Owns(fold, m.loser, name)
  {
    var all := Absorbed(fold, m).aliases;
    if Owns(fold, m.winner, name) || Owns(fold, m.loser, name) {
      if fold(m.loser.content) == fold(name) {
        var a :| a in m.loser.aliases && fold(a) == fold(m.loser.content);
        assert HasAlias(fold, m.loser.aliases, name);
      }
      if HasAlias(fold, m.winner.aliases, name) || HasAlias(fold, m.loser.aliases, name) {
        AbsorbHasAll(fold, m.winner.aliases, m.loser.aliases, name);
      }
    }
    if HasAlias(fold, all, name) {
      var a :| a in all && fold(a) == fold(name);
      assert a in m.winner.aliases || a in m.loser.aliases;
    }
  }

  /** Growing one list changes no row's standing, and ownership only of the one name. */
  lemma GrowRows(fold: Fold, ws: string, s: State, t: State, id: Id, name: string)
    requires IsResource(s, ws, id) && WellFormed(s) && t == Next(fold, ws, s, Grow(id, name))
    ensures WellFormed(t)
    ensures forall x :: IsResource(t, ws, x) <==> IsResource(s, ws, x)
    ensures forall x :: LiveResource(t, ws, x) <==> LiveResource(s, ws, x)
    ensures forall x :: x in t.memories <==> x in s.memories
    ensures forall x :: x in t.memories ==> t.memories[x].layer == s.memories[x].layer
    ensures forall x :: x in t.memories ==> t.memories[x].typ == s.memories[x].typ
    ensures forall x, n :: x in t.memories ==>
      (Owns(fold, t.memories[x], n) <==> Owns(fold, s.memories[x], n) || (x == id && fold(n) == fold(name)))
  {
    forall n { OwnsAfterAppend(fold, s.memories[id], name, n); }
  }

  lemma GrowKeepsRegistry(fold: Fold, ws: string, s: State, id: Id, name: string)
    requires Registry(fold, s, ws) && Enabled(fold, ws, s, Grow(id, name))
    ensures Registry(fold, Next(fold, ws, s, Grow(id, name)), ws)
    ensures forall n :: OwnedLive(fold, s, ws, n) ==> OwnedLive(fold, Next(fold, ws, s, Grow(id, name)), ws, n)
  {
    var t := Next(fold, ws, s, Grow(id, name));
    GrowRows(fold, ws, s, t, id, name);
    GrowKeepsContent(fold, ws, s, t, id, name);
    forall a, b, n | LiveResource(t, ws, a) && LiveResource(t, ws, b)
      && Owns(fold, t.memories[a], n) && Owns(fold, t.memories[b], n) ensures a == b
    {
      OwnsFolded(fold, s, n, name);
    }
    forall n | OwnedLive(fold, s, ws, n) ensures OwnedLive(fold, t, ws, n) {
      var x :| LiveResource(s, ws, x) && Owns(fold, s.memories[x], n);
      assert LiveResource(t, ws, x) && Owns(fold, t.memories[x], n);
    }
  }

  lemma GrowKeepsContent(fold: Fold, ws: string, s: State, t: State, id: Id, name: string)
    requires ContentIsAlias(fold, s, ws) && IsResource(s, ws, id) && WellFormed(s)
    requires t == Next(fold, ws, s, Grow(id, name))
    ensures ContentIsAlias(fold, t, ws)
  {
    forall x | IsResource(t, ws, x) ensures HasAlias(fold, t.memories[x].aliases, t.memories[x].content) {
      assert IsResource(s, ws, x);
      var a :| a in s.memories[x].aliases && fold(a) == fold(s.memories[x].content);
      assert a in t.memories[x].aliases;
    }
  }

  /** Ownership looks at names up to case only. */
  lemma OwnsFolded(fold: Fold, s: State, a: string, b: string)
    ensures fold(a) == fold(b) ==> forall id :: id in s.memories ==>
      (Owns(fold, s.memories[id], a) <==> Owns(fold, s.memories[id], b))
  {
  }

  lemma CreateKeepsRegistry(fold: Fold, ws: string, s: State, step: Step)
    requires Registry(fold, s, ws) && step.Create? && Enabled(fold, ws, s, step)
    ensures Registry(fold, Next(fold, ws, s, step), ws)
    ensures forall n :: OwnedLive(fold, s, ws, n) ==> OwnedLive(fold, Next(fold, ws, s, step), ws, n)
    ensures OwnedLive(fold, Next(fold, ws, s, step), ws, step.name)
  {
    var t := Next(fold, ws, s, step);
    var m := t.memories[step.id];
    assert m.aliases[0] == step.name && step.name in m.aliases;
    forall n ensures Owns(fold, m, n) <==> fold(n) == fold(step.name) {
      if HasAlias(fold, m.aliases, n) {
        var a :| a in m.aliases && fold(a) == fold(n);
      }
    }
    forall a, b, n | LiveResource(t, ws, a) && LiveResource(t, ws, b)
      && Owns(fold, t.memories[a], n) && Owns(fold, t.memories[b], n) ensures a == b
    {
      OwnsFolded(fold, s, n, step.name);
      assert a != step.id ==> LiveResource(s, ws, a) && t.memories[a] == s.memories[a];
      assert b != step.id ==> LiveResource(s, ws, b) && t.memories[b] == s.memories[b];
    }
    forall n | OwnedLive(fold, s, ws, n) ensures OwnedLive(fold, t, ws, n) {
      var x :| LiveResource(s, ws, x) && Owns(fold, s.memories[x], n);
      assert LiveResource(t, ws, x) && Owns(fold, t.memories[x], n);
    }
    assert LiveResource(t, ws, step.id) && Owns(fold, t.memories[step.id], step.name);
  }

  lemma LiveAfterFold(fold: Fold, ws: string, s: State, m: Merge, x: Id)
    requires WellFormed(s) && CanMerge(s, ws, m)
    ensures LiveResource(MergeIn(fold, s, m), ws, x) <==> LiveResource(s, ws, x) && x != m.loser.id
    ensures LiveResource(MergeIn(fold, s, m), ws, m.winner.id)
  {
    LiveAfterMerge(fold, s, ws, m);
    RowsAfterMerge(fold, s, ws, m);
    assert x in LiveResources(MergeIn(fold, s, m), ws) <==> x in LiveResources(s, ws) && x != m.loser.id;
    assert m.winner.id in LiveResources(s, ws) && m.winner.id in LiveResources(MergeIn(fold, s, m), ws);
  }

  lemma FoldKeepsContent(fold: Fold, ws: string, s: State, m: Merge)
    requires Registry(fold, s, ws) && CanMerge(s, ws, m)
    ensures ContentIsAlias(fold, MergeIn(fold, s, m), ws)
    ensures forall id :: id in MergeIn(fold, s, m).memories && MergeIn(fold, s, m).memories[id].typ == Resource ==>
      MergeIn(fold, s, m).memories[id].layer == Semantic
  {
    RowsAfterMerge(fold, s, ws, m);
    AbsorbHasAll(fold, m.winner.aliases, m.loser.aliases, m.winner.content);
  }

  lemma FoldKeepsOwned(fold: Fold, ws: string, s: State, m: Merge, n: string)
    requires Registry(fold, s, ws) && CanMerge(s, ws, m) && OwnedLive(fold, s, ws, n)
    ensures OwnedLive(fold, MergeIn(fold, s, m), ws, n)
  {
    var x :| LiveResource(s, ws, x) && Owns(fold, s.memories[x], n);
    var y := if x == m.loser.id then m.winner.id else x;
    RowsAfterMerge(fold, s, ws, m);
    OwnsAfterMerge(fold, m, n);
    LiveAfterFold(fold, ws, s, m, x);
    assert LiveResource(MergeIn(fold, s, m), ws, y) && Owns(fold, MergeIn(fold, s, m).memories[y], n);
  }

  lemma FoldKeepsUnique(fold: Fold, ws: string, s: State, m: Merge, t: State)
    requires Registry(fold, s, ws) && CanMerge(s, ws, m) && t == MergeIn(fold, s, m)
    ensures NamesUnique(fold, t, ws)
  {
    forall a, b, n | LiveResource(t, ws, a) && LiveResource(t, ws, b)
      && Owns(fold, t.memories[a], n) && Owns(fold, t.memories[b], n) ensures a == b
    {
      LiveAfterFold(fold, ws, s, m, a);
      LiveAfterFold(fold, ws, s, m, b);
      WhoOwned(fold, ws, s, m, a, n);
      WhoOwned(fold, ws, s, m, b, n);
    }
  }

  lemma FoldKeepsRegistry(fold: Fold, ws: string, s: State, m: Merge)
    requires Registry(fold, s, ws) && CanMerge(s, ws, m)
    ensures Registry(fold, MergeIn(fold, s, m), ws)
    ensures forall n :: OwnedLive(fold, s, ws, n) ==> OwnedLive(fold, MergeIn(fold, s, m), ws, n)
  {
    MergeKeepsWellFormed(fold, s, ws, m);
    FoldKeepsContent(fold, ws, s, m);
    FoldKeepsUnique(fold, ws, s, m, MergeIn(fold, s, m));
    forall n | OwnedLive(fold, s, ws, n) ensures OwnedLive(fold, MergeIn(fold, s, m), ws, n) {
      FoldKeepsOwned(fold, ws, s, m, n);
    }
  }

  lemma WhoOwned(fold: Fold, ws: string, s: State, m: Merge, a: Id, n: string)
    requires Registry(fold, s, ws) && CanMerge(s, ws, m) && a != m.loser.id
    requires LiveResource(s, ws, a) && a in MergeIn(fold, s, m).memories
    requires Owns(fold, MergeIn(fold, s, m).memories[a], n)
    ensures Owns(fold, s.memories[a], n) || (a == m.winner.id && Owns(fold, m.loser, n))
  {
    RowsAfterMerge(fold, s, ws, m);
    OwnsAfterMerge(fold, m, n);
  }

  // ---- Runs ----

  ghost predicate Runs(fold: Fold, ws: string, s: State, steps: seq<Step>)
    decreases steps
  {
    steps == [] ||
    (Enabled(fold, ws, s, steps[0]) && Runs(fold, ws, Next(fold, ws, s, steps[0]), steps[1..]))
  }

  ghost function After(fold: Fold, ws: string, s: State, steps: seq<Step>): State
    requires Runs(fold, ws, s, steps)
    decreases steps
  {
    if steps == [] then s else After(fold, ws, Next(fold, ws, s, steps[0]), steps[1..])
  }

  lemma StepKeepsRegistry(fold: Fold, ws: string, s: State, step: Step)
    requires Registry(fold, s, ws) && Enabled(fold, ws, s, step)
    ensures Registry(fold, Next(fold, ws, s, step), ws)
    ensures forall n :: OwnedLive(fold, s, ws, n) ==> OwnedLive(fold, Next(fold, ws, s, step), ws, n)
  {
    match step
    case Grow(id, name) => GrowKeepsRegistry(fold, ws, s, id, name);
    case Create(_, _, _) => CreateKeepsRegistry(fold, ws, s, step);
    case Fold(m) => FoldKeepsRegistry(fold, ws, s, m);
  }

  /** However resolving and merging interleave, a name has at most one live owner, and once it has one it
      always has one. */
  lemma {:induction false} NamesStayOwned(fold: Fold, ws: string, s: State, steps: seq<Step>)
    requires Registry(fold, s, ws) && Runs(fold, ws, s, steps)
    ensures Registry(fold, After(fold, ws, s, steps), ws)
    ensures forall n :: OwnedLive(fold, s, ws, n) ==> OwnedLive(fold, After(fold, ws, s, steps), ws, n)
    decreases steps
  {
    if steps != [] {
      StepKeepsRegistry(fold, ws, s, steps[0]);
      NamesStayOwned(fold, ws, Next(fold, ws, s, steps[0]), steps[1..]);
    }
  }

  /** A workspace without rows is well registered. */
  lemma EmptyIsRegistry(fold: Fold, ws: string)
    ensures Registry(fold, State(map[], map[]), ws)
  {
  }

  // ---- Which names have a live owner, which a retired one ----

  /** The step gives the name a retired owner. */
  predicate GivesRetired(fold: Fold, s: State, step: Step, n: string) {
    match step
    case Grow(id, name) => id in s.memories && IsRetired(s.memories[id]) && fold(n) == fold(name)
    case Create(_, _, _) => false
    case Fold(m) => Owns(fold, m.loser, n)
  }

  /** The step gives the name a live owner. */
  predicate GivesLive(fold: Fold, s: State, step: Step, n: string) {
    match step
    case Grow(id, name) => id in s.memories && !IsRetired(s.memories[id]) && fold(n) == fold(name)
    case Create(_, name, _) => fold(n) == fold(name)
    case Fold(_) => false
  }

  /** The resource x, retired or live, owns the name. */
  predicate OwnsAs(fold: Fold, s: State, ws: string, x: Id, n: string, retired: bool) {
    IsResource(s, ws, x) && IsRetired(s.memories[x]) == retired && Owns(fold, s.memories[x], n)
  }

  lemma OwnersAre(fold: Fold, s: State, ws: string, n: string)
    ensures OwnedRetired(fold, s, ws, n) <==> exists x :: OwnsAs(fold, s, ws, x, n, true)
    ensures OwnedLive(fold, s, ws, n) <==> exists x :: OwnsAs(fold, s, ws, x, n, false)
  {
    if x :| IsResource(s, ws, x) && IsRetired(s.memories[x]) && Owns(fold, s.memories[x], n) {
      assert OwnsAs(fold, s, ws, x, n, true);
    }
    if x :| LiveResource(s, ws, x) && Owns(fold, s.memories[x], n) {
      assert OwnsAs(fold, s, ws, x, n, false);
    }
    if x :| OwnsAs(fold, s, ws, x, n, false) {
      assert LiveResource(s, ws, x) && Owns(fold, s.memories[x], n);
    }
  }

  /** When ownership changes at y only, there is an owner afterwards if there was one or y became one. */
  lemma OneMoreOwner(fold: Fold, ws: string, s: State, t: State, n: string, y: Id, retired: bool, gives: bool)
    requires forall x :: OwnsAs(fold, t, ws, x, n, retired) <==>
      OwnsAs(fold, s, ws, x, n, retired) || (x == y && gives)
    ensures (exists x :: OwnsAs(fold, t, ws, x, n, retired)) <==>
      (exists x :: OwnsAs(fold, s, ws, x, n, retired)) || gives
  {
    if x :| OwnsAs(fold, s, ws, x, n, retired) {
      assert OwnsAs(fold, t, ws, x, n, retired);
    }
    if gives {
      assert OwnsAs(fold, t, ws, y, n, retired);
    }
  }

  lemma GrowOwners(fold: Fold, ws: string, s: State, id: Id, name: string, n: string)
    requires Registry(fold, s, ws) && Enabled(fold, ws, s, Grow(id, name))
    ensures var t := Next(fold, ws, s, Grow(id, name));
      && (OwnedRetired(fold, t, ws, n) <==> OwnedRetired(fold, s, ws, n) || GivesRetired(fold, s, Grow(id, name), n))
      && (OwnedLive(fold, t, ws, n) <==> OwnedLive(fold, s, ws, n) || GivesLive(fold, s, Grow(id, name), n))
  {
    var t, step := Next(fold, ws, s, Grow(id, name)), Grow(id, name);
    OwnsAfterAppend(fold, s.memories[id], name, n);
    forall x, retired { GrownAs(fold, ws, s, id, name, n, x, retired); }
    OneMoreOwner(fold, ws, s, t, n, id, true, GivesRetired(fold, s, step, n));
    OneMoreOwner(fold, ws, s, t, n, id, false, GivesLive(fold, s, step, n));
    OwnersAre(fold, s, ws, n);
    OwnersAre(fold, t, ws, n);
  }

  lemma GrownAs(fold: Fold, ws: string, s: State, id: Id, name: string, n: string, x: Id, retired: bool)
    requires WellFormed(s) && IsResource(s, ws, id)
    ensures OwnsAs(fold, Next(fold, ws, s, Grow(id, name)), ws, x, n, retired) <==>
      || OwnsAs(fold, s, ws, x, n, retired)
      || (x == id && IsRetired(s.memories[id]) == retired && fold(n) == fold(name))
  {
    OwnsAfterAppend(fold, s.memories[id], name, n);
  }

  lemma CreateOwners(fold: Fold, ws: string, s: State, step: Step, n: string)
    requires step.Create? && Enabled(fold, ws, s, step)
    ensures var t := Next(fold, ws, s, step);
      && (OwnedRetired(fold, t, ws, n) <==> OwnedRetired(fold, s, ws, n))
      && (OwnedLive(fold, t, ws, n) <==> OwnedLive(fold, s, ws, n) || GivesLive(fold, s, step, n))
  {
    var t := Next(fold, ws, s, step);
    var m := t.memories[step.id];
    assert m.aliases[0] == step.name && step.name in m.aliases;
    assert Owns(fold, m, n) <==> fold(n) == fold(step.name);
    OneMoreOwner(fold, ws, s, t, n, step.id, true, false);
    OneMoreOwner(fold, ws, s, t, n, step.id, false, GivesLive(fold, s, step, n));
    OwnersAre(fold, s, ws, n);
    OwnersAre(fold, t, ws, n);
  }

  lemma FoldedAs(fold: Fold, ws: string, s: State, m: Merge, n: string, x: Id)
    requires Registry(fold, s, ws) && CanMerge(s, ws, m)
    ensures OwnsAs(fold, MergeIn(fold, s, m), ws, x, n, true) <==>
      OwnsAs(fold, s, ws, x, n, true) || (x == m.loser.id && Owns(fold, m.loser, n))
    ensures OwnsAs(fold, MergeIn(fold, s, m), ws, x, n, false) ==>
      OwnsAs(fold, s, ws, x, n, false) || Owns(fold, m.loser, n)
  {
    RowsAfterMerge(fold, s, ws, m);
    OwnsAfterMerge(fold, m, n);
  }

  /** A merge leaves the names with a live owner as they are; with a retired one are, beside those that had
      one, exactly the names of the loser. */
  lemma FoldOwners(fold: Fold, ws: string, s: State, m: Merge, n: string)
    requires Registry(fold, s, ws) && CanMerge(s, ws, m)
    ensures var t := MergeIn(fold, s, m);
      && (OwnedRetired(fold, t, ws, n) <==> OwnedRetired(fold, s, ws, n) || Owns(fold, m.loser, n))
      && (OwnedLive(fold, t, ws, n) <==> OwnedLive(fold, s, ws, n))
  {
    var t := MergeIn(fold, s, m);
    forall x { FoldedAs(fold, ws, s, m, n, x); }
    OneMoreOwner(fold, ws, s, t, n, m.loser.id, true, Owns(fold, m.loser, n));
    OwnersAre(fold, s, ws, n);
    OwnersAre(fold, t, ws, n);
    if OwnedLive(fold, s, ws, n) {
      FoldKeepsOwned(fold, ws, s, m, n);
    } else {
      assert !OwnsAs(fold, s, ws, m.loser.id, n, false);
    }
  }

  /** So after a merge the loser's own name has two owners, the retired loser and the live winner. */
  lemma MergedNameHasTwoOwners(fold: Fold, ws: string, s: State, m: Merge)
    requires Registry(fold, s, ws) && CanMerge(s, ws, m)
    ensures var t := MergeIn(fold, s, m);
      && IsResource(t, ws, m.loser.id) && IsRetired(t.memories[m.loser.id]) && LiveResource(t, ws, m.winner.id)
      && Owns(fold, t.memories[m.loser.id], m.loser.content) && Owns(fold, t.memories[m.winner.id], m.loser.content)
  {
    RowsAfterMerge(fold, s, ws, m);
    OwnsAfterMerge(fold, m, m.loser.content);
  }

  lemma StepOwners(fold: Fold, ws: string, s: State, step: Step, n: string)
    requires Registry(fold, s, ws) && Enabled(fold, ws, s, step)
    ensures var t := Next(fold, ws, s, step);
      && (OwnedRetired(fold, t, ws, n) <==> OwnedRetired(fold, s, ws, n) || GivesRetired(fold, s, step, n))
      && (OwnedLive(fold, t, ws, n) <==> OwnedLive(fold, s, ws, n) || GivesLive(fold, s, step, n))
  {
    match step
    case Grow(id, name) => GrowOwners(fold, ws, s, id, name, n);
    case Create(_, _, _) => CreateOwners(fold, ws, s, step, n);
    case Fold(m) => FoldOwners(fold, ws, s, m, n);
  }

  /** Some step of the run gives the name a retired owner, or a live one. */
  ghost predicate SomeGives(fold: Fold, ws: string, s: State, steps: seq<Step>, n: string, retired: bool)
    requires Runs(fold, ws, s, steps)
    decreases steps
  {
    steps != [] && (
      || (if retired then GivesRetired(fold, s, steps[0], n) else GivesLive(fold, s, steps[0], n))
      || SomeGives(fold, ws, Next(fold, ws, s, steps[0]), steps[1..], n, retired))
  }

  /** After any run a name has a retired owner if and only if it had one before, or a step merged away a
      resource that owned it, or a step gave it to a retired resource; and a live owner if and only if it had
      one before, or a step created a resource of that name or gave it to a live one. */
  lemma {:induction false} OwnersAfterRun(fold: Fold, ws: string, s: State, steps: seq<Step>, n: string)
    requires Registry(fold, s, ws) && Runs(fold, ws, s, steps)
    ensures var t := After(fold, ws, s, steps);
      && (OwnedRetired(fold, t, ws, n) <==> OwnedRetired(fold, s, ws, n) || SomeGives(fold, ws, s, steps, n, true))
      && (OwnedLive(fold, t, ws, n) <==> OwnedLive(fold, s, ws, n) || SomeGives(fold, ws, s, steps, n, false))
    decreases steps
  {
    if steps != [] {
      StepOwners(fold, ws, s, steps[0], n);
      StepKeepsRegistry(fold, ws, s, steps[0]);
      OwnersAfterRun(fold, ws, Next(fold, ws, s, steps[0]), steps[1..], n);
    }
  }

  /** A name that only retired resources own is lost: no run gives it a live owner again. */
  lemma {:induction false} LostNamesStayLost(fold: Fold, ws: string, s: State, steps: seq<Step>, n: string)
    requires Registry(fold, s, ws) && Runs(fold, ws, s, steps)
    requires OwnedRetired(fold, s, ws, n) && !OwnedLive(fold, s, ws, n)
    ensures var t := After(fold, ws, s, steps); OwnedRetired(fold, t, ws, n) && !OwnedLive(fold, t, ws, n)
    decreases steps
  {
    if steps != [] {
      NotGivenTwice(fold, ws, s, steps[0], n);
      StepOwners(fold, ws, s, steps[0], n);
      StepKeepsRegistry(fold, ws, s, steps[0]);
      LostNamesStayLost(fold, ws, Next(fold, ws, s, steps[0]), steps[1..], n);
    }
  }

  /** Only a name nobody owns is given away. */
  lemma NotGivenTwice(fold: Fold, ws: string, s: State, step: Step, n: string)
    requires Enabled(fold, ws, s, step) && OwnedRetired(fold, s, ws, n)
    ensures !GivesLive(fold, s, step, n)
  {
    var x :| IsResource(s, ws, x) && IsRetired(s.memories[x]) && Owns(fold, s.memories[x], n);
    if !step.Fold? {
      OwnsFolded(fold, s, n, step.name);
    }
  }

  // ---- Resolving ----

  /** A vector hit good enough to answer: similar, and a resource of the workspace. */
  predicate Answers(s: State, ws: string, threshold: real, h: Hit) {
    h.similarity >= threshold && h.id in s.memories && s.memories[h.id].typ == Resource
    && s.memories[h.id].workspace == ws
  }

  /** The hit at i is the first good one. */
  ghost predicate FirstAnswer(s: State, ws: string, threshold: real, hits: seq<Hit>, i: nat) {
    i < |hits| && Answers(s, ws, threshold, hits[i]) && forall j :: 0 <= j < i ==> !Answers(s, ws, threshold, hits[j])
  }

  ghost predicate NoAnswer(s: State, ws: string, threshold: real, hits: seq<Hit>) {
    forall j :: 0 <= j < |hits| ==> !Answers(s, ws, threshold, hits[j])
  }

  /** The resources of the workspace, each once, in some order. */
  ghost predicate ListsResources(s: State, ws: string, listing: seq<Memory>) {
    && (forall i :: 0 <= i < |listing| ==>
          && IsResource(s, ws, listing[i].id) && s.memories[listing[i].id] == listing[i])
    && (forall id :: IsResource(s, ws, id) ==> s.memories[id] in listing)
    && (forall i, j :: 0 <= i < j < |listing| ==> listing[i].id != listing[j].id)
  }

  /** The first owner of the name in the listing. */
  function FirstOwner(fold: Fold, listing: seq<Memory>, name: string): (r: Option<Memory>)
    ensures r.Some? ==> r.value in listing && Owns(fold, r.value, name)
    ensures r.None? ==> forall m :: m in listing ==> !Owns(fold, m, name)
  {
    if listing == [] then None
    else if Owns(fold, listing[0], name) then Some(listing[0])
    else FirstOwner(fold, listing[1..], name)
  }

  /** Up to case the name is the content or one of the aliases. */
  ghost predicate Named(fold: Fold, m: Memory, name: string) {
    fold(m.content) == fold(name) || exists i :: 0 <= i < |m.aliases| && fold(m.aliases[i]) == fold(name)
  }

  /** found is the first of the listing with this name, if any has it. */
  ghost predicate FirstNamed(fold: Fold, listing: seq<Memory>, name: string, found: Option<Memory>) {
    if found.None? then forall i :: 0 <= i < |listing| ==> !Named(fold, listing[i], name)
    else
      exists i :: 0 <= i < |listing| && listing[i] == found.value && Named(fold, listing[i], name)
        && forall j :: 0 <= j < i ==> !Named(fold, listing[j], name)
  }

  lemma OwnsNamed(fold: Fold, m: Memory, name: string)
    ensures Owns(fold, m, name) <==> Named(fold, m, name)
  {
    if a :| a in m.aliases && fold(a) == fold(name) {
      var i :| 0 <= i < |m.aliases| && m.aliases[i] == a;
    }
  }

  lemma {:induction false} FirstOwnerNamed(fold: Fold, listing: seq<Memory>, name: string)
    ensures FirstNamed(fold, listing, name, FirstOwner(fold, listing, name))
  {
    if listing != [] {
      OwnsNamed(fold, listing[0], name);
      FirstOwnerNamed(fold, listing[1..], name);
      LaterNamed(fold, listing, name);
    }
  }

  lemma LaterNamed(fold: Fold, listing: seq<Memory>, name: string)
    requires listing != []
    requires FirstNamed(fold, listing[1..], name, FirstOwner(fold, listing[1..], name))
    ensures !Named(fold, listing[0], name) ==> FirstNamed(fold, listing, name, FirstOwner(fold, listing[1..], name))
  {
    var r := FirstOwner(fold, listing[1..], name);
    if r.Some? && !Named(fold, listing[0], name) {
      var i :| 0 <= i < |listing| - 1 && listing[1..][i] == r.value && Named(fold, listing[1..][i], name)
        && forall j :: 0 <= j < i ==> !Named(fold, listing[1..][j], name);
      assert listing[i + 1] == r.value;
      forall j | 0 <= j < i + 1 ensures !Named(fold, listing[j], name) {
        assert j > 0 ==> listing[j] == listing[1..][j - 1];
      }
    } else {
      assert forall i :: 1 <= i < |listing| ==> listing[i] == listing[1..][i - 1];
    }
  }

  lemma {:induction false} RowsOf(s: State, ws: string, ids: set<Id>) returns (rows: seq<Memory>)
    requires WellFormed(s) && forall id :: id in ids ==> IsResource(s, ws, id)
    ensures forall i :: 0 <= i < |rows| ==>
      rows[i].id in ids && rows[i].id in s.memories && s.memories[rows[i].id] == rows[i]
    ensures forall id :: id in ids ==> id in s.memories && s.memories[id] in rows
    ensures forall i, j :: 0 <= i < j < |rows| ==> rows[i].id != rows[j].id
  {
    if ids == {} {
      rows := [];
    } else {
      var id :| id in ids;
      var rest := RowsOf(s, ws, ids - {id});
      rows := [s.memories[id]] + rest;
      forall x | x in ids ensures s.memories[x] in rows {
        if x == id { assert rows[0] == s.memories[x]; }
      }
    }
  }

  /** Any resource can come first in the listing. */
  lemma ListedFirst(s: State, ws: string, id: Id) returns (listing: seq<Memory>)
    requires WellFormed(s) && IsResource(s, ws, id)
    ensures ListsResources(s, ws, listing) && listing != [] && listing[0] == s.memories[id]
  {
    var others := set x | x in s.memories && IsResource(s, ws, x) && x != id;
    var rest := RowsOf(s, ws, others);
    listing := [s.memories[id]] + rest;
    forall x | IsResource(s, ws, x) ensures s.memories[x] in listing {
      if x == id { assert listing[0] == s.memories[x]; } else { assert x in others; }
    }
  }

  /** Whatever the order of the listing, the owner found is not a retired one, if and only if no retired
      resource of the workspace owns the name. */
  lemma NeverRetiredIff(fold: Fold, s: State, ws: string, name: string)
    requires WellFormed(s)
    ensures (forall listing: seq<Memory> :: ListsResources(s, ws, listing) && FirstOwner(fold, listing, name).Some? ==>
               !IsRetired(FirstOwner(fold, listing, name).value))
      <==> !OwnedRetired(fold, s, ws, name)
  {
    if OwnedRetired(fold, s, ws, name) {
      var id :| IsResource(s, ws, id) && IsRetired(s.memories[id]) && Owns(fold, s.memories[id], name);
      var listing := ListedFirst(s, ws, id);
      assert FirstOwner(fold, listing, name) == Some(s.memories[id]);
    } else {
      forall listing: seq<Memory> | ListsResources(s, ws, listing) && FirstOwner(fold, listing, name).Some?
        ensures !IsRetired(FirstOwner(fold, listing, name).value)
      {
        var m := FirstOwner(fold, listing, name).value;
        var i :| 0 <= i < |listing| && listing[i] == m;
        assert IsResource(s, ws, listing[i].id);
      }
    }
  }

  /** The first good vector hit, if there is one, is live. */
  ghost predicate FirstHitLive(s: State, ws: string, threshold: real, hits: seq<Hit>) {
    forall i: nat :: FirstAnswer(s, ws, threshold, hits, i) ==> !IsRetired(s.memories[hits[i].id])
  }

  /** With this listing the answer is live: the first owner, or else the first good hit, or else a new entity. */
  ghost predicate AnswersLive(fold: Fold, s: State, ws: string, listing: seq<Memory>, name: string, hits: seq<Hit>,
                              threshold: real) {
    var owner := FirstOwner(fold, listing, name);
    if owner.Some? then !IsRetired(owner.value) else FirstHitLive(s, ws, threshold, hits)
  }

  /** Whatever the order of the listing, the answer is live, if and only if no retired resource owns the name
      and, should nobody own it, the first good vector hit is not retired either. */
  lemma AnswerLiveIff(fold: Fold, s: State, ws: string, name: string, hits: seq<Hit>, threshold: real)
    requires WellFormed(s)
    ensures (forall listing: seq<Memory> :: ListsResources(s, ws, listing) ==>
               AnswersLive(fold, s, ws, listing, name, hits, threshold))
      <==> !OwnedRetired(fold, s, ws, name) && (Unowned(fold, s, ws, name) ==> FirstHitLive(s, ws, threshold, hits))
  {
    NeverRetiredIff(fold, s, ws, name);
    forall listing: seq<Memory> | ListsResources(s, ws, listing)
      ensures FirstOwner(fold, listing, name).None? <==> Unowned(fold, s, ws, name)
    {
      FirstOwnerUnowned(fold, s, ws, listing, name);
    }
    var some := AnyListing(s, ws);
    assert FirstOwner(fold, some, name).None? <==> Unowned(fold, s, ws, name);
    assert Unowned(fold, s, ws, name) ==> !OwnedRetired(fold, s, ws, name);
    if OwnedRetired(fold, s, ws, name) {
      var listing: seq<Memory> :| ListsResources(s, ws, listing) && FirstOwner(fold, listing, name).Some?
        && IsRetired(FirstOwner(fold, listing, name).value);
      assert !AnswersLive(fold, s, ws, listing, name, hits, threshold);
    }
  }

  lemma AnyListing(s: State, ws: string) returns (listing: seq<Memory>)
    requires WellFormed(s)
    ensures ListsResources(s, ws, listing)
  {
    listing := RowsOf(s, ws, set x | x in s.memories && IsResource(s, ws, x));
  }

  lemma FirstOwnerUnowned(fold: Fold, s: State, ws: string, listing: seq<Memory>, name: string)
    requires ListsResources(s, ws, listing)
    ensures FirstOwner(fold, listing, name).None? <==> Unowned(fold, s, ws, name)
    ensures var r := FirstOwner(fold, listing, name);
      r.Some? ==> IsResource(s, ws, r.value.id) && s.memories[r.value.id] == r.value
  {
    var r := FirstOwner(fold, listing, name);
    if r.Some? {
      var i :| 0 <= i < |listing| && listing[i] == r.value;
    }
  }

  /** Looks for an owner among all resources of the workspace, retired ones included, in listing order. */
  method FindOwner(store: Store, fold: Fold, ws: string, name: string)
    returns (found: Option<Memory>, ghost listing: seq<Memory>)
    requires store.Valid()
    ensures ListsResources(store.Now(), ws, listing) && found == FirstOwner(fold, listing, name)
    ensures FirstNamed(fold, listing, name, found)
  {
    var existing := store.IterMemories(ws, Some(Semantic), Some(Resource));
    listing := existing;
    FirstOwnerNamed(fold, existing, name);
    assert forall i :: 0 <= i < |existing| ==> existing[i] in existing;
    assert existing[0..] == existing;
    for i := 0 to |existing|
      invariant FirstOwner(fold, existing[i..], name) == FirstOwner(fold, existing, name)
    {
      assert existing[i..][1..] == existing[i + 1..];
      var owns := OwnsName(fold, existing[i], name);
      if owns {
        return Some(existing[i]), listing;
      }
    }
    return None, listing;
  }

  /** Looks for the first good vector hit. */
  method FindHit(store: Store, ws: string, hits: seq<Hit>, threshold: real) returns (found: Option<Memory>)
    requires store.Valid()
    ensures found.Some? ==> found.value.id in store.memories && store.memories[found.value.id] == found.value
    ensures found.Some? ==>
      exists i: nat :: FirstAnswer(store.Now(), ws, threshold, hits, i) && hits[i].id == found.value.id
    ensures found.None? <==> NoAnswer(store.Now(), ws, threshold, hits)
    ensures found.None? <==> forall i :: 0 <= i < |hits| ==>
      hits[i].similarity < threshold || hits[i].id !in store.memories
      || store.memories[hits[i].id].typ != Resource || store.memories[hits[i].id].workspace != ws
    ensures found.Some? ==> found.value.typ == Resource && found.value.workspace == ws
  {
    for i := 0 to |hits|
      invariant forall j :: 0 <= j < i ==> !Answers(store.Now(), ws, threshold, hits[j])
    {
      if hits[i].similarity >= threshold {
        var m := store.GetMemory(hits[i].id);
        if m.Some? && m.value.typ == Resource && m.value.workspace == ws {
          assert FirstAnswer(store.Now(), ws, threshold, hits, i);
          return m;
        }
      }
    }
    return None;
  }

  /** Appends an unowned name to the aliases of a row and writes it back. */
  method GrowAliases(store: Store, fold: Fold, ghost ws: string, m: Memory, name: string) returns (m': Memory)
    requires store.Valid() && Registry(fold, store.Now(), ws) && Unowned(fold, store.Now(), ws, name)
    requires IsResource(store.Now(), ws, m.id) && store.memories[m.id] == m
    modifies store`memories
    ensures store.Valid() && Registry(fold, store.Now(), ws)
    ensures store.Now() == Next(fold, ws, old(store.Now()), Grow(m.id, name))
    ensures m' == m.(aliases := m.aliases + [name])
    ensures m'.id == m.id && IsResource(store.Now(), ws, m.id) && store.memories[m.id] == m' && Owns(fold, m', name)
  {
    ghost var s := store.Now();
    GrowKeepsRegistry(fold, ws, s, m.id, name);
    OwnsAfterAppend(fold, m, name, name);
    var grown := AppendAlias(fold, m.aliases, name);
    m' := m.(aliases := grown);
    if grown != m.aliases {
      store.PutMemory(m');
    }
    assert store.memories == Next(fold, ws, s, Grow(m.id, name)).memories;
  }

  /** Resolves a name. hits is whatever the vector search returns; step says what was written, if anything.
      An owner of the name is preferred, then the first good hit, then a new entity. */
  method ResolveResource(store: Store, fold: Fold, ws: string, name: string, hits: seq<Hit>, threshold: real, now: real)
    returns (m: Memory, created: bool, ghost step: Option<Step>, ghost listing: seq<Memory>)
    requires store.Valid() && Registry(fold, store.Now(), ws)
    modifies store`memories
    ensures store.Valid() && Registry(fold, store.Now(), ws)
    ensures IsResource(store.Now(), ws, m.id) && store.memories[m.id] == m && Owns(fold, m, name)
    ensures step.None? <==> !Unowned(fold, old(store.Now()), ws, name)
    ensures step.None? ==> store.Now() == old(store.Now())
    ensures step.Some? ==> Enabled(fold, ws, old(store.Now()), step.value)
    ensures step.Some? ==> store.Now() == Next(fold, ws, old(store.Now()), step.value)
    ensures created <==> step.Some? && NoAnswer(old(store.Now()), ws, threshold, hits)
    ensures created ==> step.value == Create(m.id, name, now) && m.content == name
    ensures step.Some? && !created ==> step.value == Grow(m.id, name)
    ensures step.Some? && !created ==>
      exists i: nat :: FirstAnswer(old(store.Now()), ws, threshold, hits, i) && hits[i].id == m.id
    // a new entity is a resource of just this name; a hit keeps everything and takes the name as one more alias
    ensures created ==>
      && m.summary == name && m.aliases == [name] && m.workspace == ws && m.createdAt == now
      && m.layer == Semantic && m.typ == Resource && m.supersededBy == "" && !m.superseded
    ensures step.Some? && !created ==>
      m == old(store.memories)[m.id].(aliases := old(store.memories)[m.id].aliases + [name])
    ensures FirstNamed(fold, listing, name, if step.None? then Some(m) else None)
    // an owner is the first in the order of the listing, live or not
    ensures ListsResources(old(store.Now()), ws, listing)
    ensures step.None? ==> FirstOwner(fold, listing, name) == Some(m)
    // a new entity is live, any other answer as live as it was
    ensures if created then !IsRetired(m) else
      m.id in old(store.memories) && IsRetired(m) == IsRetired(old(store.memories)[m.id])
    ensures !IsRetired(m) <==> AnswersLive(fold, old(store.Now()), ws, listing, name, hits, threshold)
    // the name has a live owner afterwards if it had one, or if it has been given to a live resource
    ensures OwnedLive(fold, store.Now(), ws, name) <==>
      old(OwnedLive(fold, store.Now(), ws, name)) || (step.Some? && !IsRetired(m))
  {
    ghost var s := store.Now();
    created, step := false, None;
    var found;
    found, listing := FindOwner(store, fold, ws, name);
    FirstOwnerUnowned(fold, s, ws, listing, name);
    if found.Some? {
      return found.value, false, None, listing;
    }
    found := FindHit(store, ws, hits, threshold);
    if found.Some? {
      m := found.value;
      GrowOwners(fold, ws, s, m.id, name, name);
      step := Some(Grow(m.id, name));
      assert IsResource(s, ws, m.id);
      m := GrowAliases(store, fold, ws, m, name);
    } else {
      var id := store.NewId();
      step := Some(Create(id, name, now));
      CreateKeepsRegistry(fold, ws, s, step.value);
      CreateOwners(fold, ws, s, step.value, name);
      m, created := NewResource(ws, id, name, now), true;
      store.PutMemory(m);
    }
  }

  method OwnsName(fold: Fold, m: Memory, name: string) returns (owns: bool)
    ensures owns <==> Owns(fold, m, name)
  {
    if fold(m.content) == fold(name) {
      return true;
    }
    for i := 0 to |m.aliases|
      invariant forall j :: 0 <= j < i ==> fold(m.aliases[j]) != fold(name)
    {
      if fold(m.aliases[i]) == fold(name) {
        return true;
      }
    }
    return false;
  }
}
