/** Replicated workers over one backlog of episodes. A cycle runs under a lock that a crash releases; it
    takes a batch of unstamped episodes and, one by one, applies a verdict and then stamps, or passes the
    episode over. */
module Worker {
  import opened Wrappers
  import opened Sorting
  import opened Backlogs
  import opened Graph

  /** How many episodes one pass takes at most. */
  const BATCH_SIZE := 500

  // ---- Batches ----

  /** The batch lists the oldest min(500, n) of the n pending episodes, oldest first. */
  ghost predicate IsBatch(pending: map<Id, real>, batch: seq<Id>) {
    IsOldest(pending, 500, batch)
  }

  // ---- Draining ----

  /** Successive successful passes over a backlog that gets no new episodes. */
  ghost predicate Passes(pending: map<Id, real>, batches: seq<seq<Id>>)
    decreases batches
  {
    batches == [] || (IsBatch(pending, batches[0]) && Passes(pending - Elements(batches[0]), batches[1..]))
  }

  ghost function Left(pending: map<Id, real>, batches: seq<seq<Id>>): map<Id, real>
    decreases batches
  {
    if batches == [] then pending else Left(pending - Elements(batches[0]), batches[1..])
  }

  /** Each pass takes 500 episodes as long as there are that many: the backlog drains. */
  lemma {:induction false} BacklogDrains(pending: map<Id, real>, batches: seq<seq<Id>>)
    requires Passes(pending, batches)
    ensures |Left(pending, batches)| ==
      if |pending| <= 500 * |batches| then 0 else |pending| - 500 * |batches|
    decreases batches
  {
    if batches != [] {
      TakenSize(pending, BATCH_SIZE, batches[0]);
      BacklogDrains(pending - Elements(batches[0]), batches[1..]);
    }
  }

  /** The same with passes that leave some episodes of their batch unstamped. */
  ghost predicate PassesOver(pending: map<Id, real>, batches: seq<seq<Id>>, overs: seq<set<Id>>)
    requires |batches| == |overs|
    decreases batches
  {
    batches == [] || (
      && IsBatch(pending, batches[0]) && overs[0] <= Elements(batches[0])
      && PassesOver(pending - (Elements(batches[0]) - overs[0]), batches[1..], overs[1..]))
  }

  ghost function LeftOver(pending: map<Id, real>, batches: seq<seq<Id>>, overs: seq<set<Id>>): map<Id, real>
    requires |batches| == |overs|
    decreases batches
  {
    if batches == [] then pending
    else LeftOver(pending - (Elements(batches[0]) - overs[0]), batches[1..], overs[1..])
  }

  /** How many episodes the passes stamp. */
  function StampedBy(batches: seq<seq<Id>>, overs: seq<set<Id>>): int
    requires |batches| == |overs|
  {
    if batches == [] then 0 else |batches[0]| - |overs[0]| + StampedBy(batches[1..], overs[1..])
  }

  /** Passes that leave episodes unstamped drain the backlog by the rest of their batches. */
  lemma {:induction false} BacklogDrainsBut(pending: map<Id, real>, batches: seq<seq<Id>>, overs: seq<set<Id>>)
    requires |batches| == |overs| && PassesOver(pending, batches, overs)
    ensures |LeftOver(pending, batches, overs)| == |pending| - StampedBy(batches, overs)
    decreases batches
  {
    if batches != [] {
      StampedSize(pending, batches[0], overs[0]);
      BacklogDrainsBut(pending - (Elements(batches[0]) - overs[0]), batches[1..], overs[1..]);
    }
  }

  lemma StampedSize(pending: map<Id, real>, batch: seq<Id>, over: set<Id>)
    requires IsBatch(pending, batch) && over <= Elements(batch)
    ensures |pending - (Elements(batch) - over)| == |pending| - (|batch| - |over|)
  {
    var gone := Elements(batch) - over;
    DistinctSize(batch, Elements(batch));
    assert (pending - gone).Keys == pending.Keys - gone;
    assert gone <= pending.Keys;
    assert |Elements(batch) - over| == |Elements(batch)| - |over|;
    assert |pending.Keys - gone| == |pending.Keys| - |gone|;
  }

  /** A pass that stamps nothing of its batch leaves the next pass the same backlog, and so the same batch. */
  lemma StuckBatch(pending: map<Id, real>, batch: seq<Id>)
    requires IsBatch(pending, batch)
    ensures pending - (Elements(batch) - Elements(batch)) == pending
    ensures IsBatch(pending - (Elements(batch) - Elements(batch)), batch)
  {
    assert pending - (Elements(batch) - Elements(batch)) == pending;
  }

  /** First in, first out: nothing in a later batch is older than anything in an earlier one. */
  lemma {:induction false} BatchesInOrder(pending: map<Id, real>, batches: seq<seq<Id>>, i: nat, j: nat, a: Id, b: Id)
    requires Passes(pending, batches) && i < j < |batches| && a in batches[i] && b in batches[j]
    ensures Elder(pending, a, b) && a != b
    decreases batches
  {
    FirstThenOthers(pending, batches);
    if i == 0 {
      LaterPending(pending - Elements(batches[0]), batches[1..], j - 1, b);
      BatchFirst(pending, batches[0], a, b);
    } else {
      BatchesInOrder(pending - Elements(batches[0]), batches[1..], i - 1, j - 1, a, b);
      ElderBefore(pending, Elements(batches[0]), a, b);
    }
  }

  lemma FirstThenOthers(pending: map<Id, real>, batches: seq<seq<Id>>)
    requires Passes(pending, batches) && batches != []
    ensures IsBatch(pending, batches[0]) && Passes(pending - Elements(batches[0]), batches[1..])
    ensures forall k :: 1 <= k < |batches| ==> batches[1..][k - 1] == batches[k]
  {
  }

  lemma ElderBefore(pending: map<Id, real>, gone: set<Id>, a: Id, b: Id)
    requires Elder(pending - gone, a, b)
    ensures Elder(pending, a, b)
  {
  }

  lemma BatchFirst(pending: map<Id, real>, batch: seq<Id>, a: Id, b: Id)
    requires IsBatch(pending, batch) && a in batch && b in pending - Elements(batch)
    ensures Elder(pending, a, b) && a != b
  {
    var i :| 0 <= i < |batch| && batch[i] == a;
    assert b !in batch;
  }

  lemma {:induction false} LaterPending(pending: map<Id, real>, batches: seq<seq<Id>>, j: nat, b: Id)
    requires Passes(pending, batches) && j < |batches| && b in batches[j]
    ensures b in pending
    decreases batches
  {
    if j > 0 {
      assert batches[1..][j - 1] == batches[j];
      LaterPending(pending - Elements(batches[0]), batches[1..], j - 1, b);
    }
  }

  // ---- The protocol ----

  /** What the store knows of an episode; applied and lost count, for the statement only, how often its
      verdict took effect and how often a cycle died between that and the stamp. */
  datatype Episode = Episode(createdAt: real, stamped: bool, applied: nat, lost: nat)

  datatype Phase =
    | Locked                                                              // lock taken, nothing selected yet
    | Running(batch: seq<Id>, pos: nat, effected: bool, seen: map<Id, real>, over: set<Id>)

  /** running: what each active replica is doing. seen is the backlog a cycle selected from, over what it has
      passed over. */
  datatype State = State(episodes: map<Id, Episode>, lock: Option<string>, running: map<string, Phase>)

  function Pending(episodes: map<Id, Episode>): (m: map<Id, real>) {
    map e | e in episodes && !episodes[e].stamped :: episodes[e].createdAt
  }

  datatype Step =
    | Arrive(e: Id, createdAt: real)       // ingestion, by anyone, at any time
    | Acquire(r: string)                   // the lock is free
    | Skip(r: string)                      // the lock is held: stand by
    | Select(r: string, batch: seq<Id>)
    | Effect(r: string)                    // the verdict on the current episode takes effect
    | Stamp(r: string)
    | PassOver(r: string)                  // the verdict was an UPDATE with nothing similar
    | Release(r: string)                   // the cycle ran to its end
    | Die(r: string)                       // error or crash: the lock goes with the process

  predicate Idle(s: State, r: string) { r !in s.running }

  predicate At(s: State, r: string, effected: bool) {
    r in s.running && s.running[r].Running? && s.running[r].effected == effected
    && s.running[r].pos < |s.running[r].batch| && s.running[r].batch[s.running[r].pos] in s.episodes
  }

  /** No step but Acquire looks at the lock. */
  ghost predicate Enabled(s: State, step: Step) {
    match step
    case Arrive(e, _) => e !in s.episodes
    case Acquire(r) => Idle(s, r) && s.lock.None?
    case Skip(r) => Idle(s, r) && s.lock.Some?
    case Select(r, batch) => r in s.running && s.running[r].Locked? && IsBatch(Pending(s.episodes), batch)
    case Effect(r) => At(s, r, false)
    case Stamp(r) => At(s, r, true)
    case PassOver(r) => At(s, r, false)
    case Release(r) => r in s.running && s.running[r].Running? && s.running[r].pos == |s.running[r].batch|
    case Die(r) => r in s.running
  }

  function Current(s: State, r: string): Id
    requires r in s.running && s.running[r].Running? && s.running[r].pos < |s.running[r].batch|
  {
    s.running[r].batch[s.running[r].pos]
  }

  function Leave(s: State, r: string): State {
    s.(lock := if s.lock == Some(r) then None else s.lock, running := s.running - {r})
  }

  function Next(s: State, step: Step): State
    requires Enabled(s, step)
  {
    match step
    case Arrive(e, createdAt) => s.(episodes := s.episodes[e := Episode(createdAt, false, 0, 0)])
    case Acquire(r) => s.(lock := Some(r), running := s.running[r := Locked])
    case Skip(_) => s
    case Select(r, batch) => s.(running := s.running[r := Running(batch, 0, false, Pending(s.episodes), {})])
    case Effect(r) =>
      var e := Current(s, r);
      s.(episodes := s.episodes[e := s.episodes[e].(applied := s.episodes[e].applied + 1)],
         running := s.running[r := s.running[r].(effected := true)])
    case Stamp(r) =>
      var e := Current(s, r);
      s.(episodes := s.episodes[e := s.episodes[e].(stamped := true)],
         running := s.running[r := s.running[r].(effected := false, pos := s.running[r].pos + 1)])
    case PassOver(r) =>
      var c := s.running[r];
      s.(running := s.running[r := c.(pos := c.pos + 1, over := c.over + {Current(s, r)})])
    case Release(r) => Leave(s, r)
    case Die(r) =>
      if At(s, r, true) then
        var e := Current(s, r);
        Leave(s.(episodes := s.episodes[e := s.episodes[e].(lost := s.episodes[e].lost + 1)]), r)
      else Leave(s, r)
  }

  /** The verdict on e has taken effect in the cycle that holds the lock, which has still to stamp it. */
  predicate InDoubt(s: State, e: Id) {
    s.lock.Some? && At(s, s.lock.value, true) && Current(s, s.lock.value) == e
  }

  ghost predicate Passed(c: Phase, e: Id)
    requires c.Running?
  {
    exists i :: 0 <= i < c.pos && i < |c.batch| && c.batch[i] == e
  }

  /** The cycle's batch was right when it was selected, and of that backlog exactly the part of the batch it has
      got through, less what it passed over, is stamped. */
  ghost predicate CycleOk(s: State, c: Phase) {
    c.Running? ==>
      && IsBatch(c.seen, c.batch) && c.pos <= |c.batch| && (c.effected ==> c.pos < |c.batch|)
      && (forall e :: e in c.over ==> Passed(c, e))
      && (forall e :: e in c.seen ==>
            && e in s.episodes && s.episodes[e].createdAt == c.seen[e]
            && (s.episodes[e].stamped <==> Passed(c, e) && e !in c.over))
  }

  /** Every effect of the episode's verdict is accounted for: stamped, lost, or awaiting its stamp. */
  ghost predicate Counted(s: State, e: Id)
    requires e in s.episodes
  {
    s.episodes[e].applied ==
    s.episodes[e].lost + (if s.episodes[e].stamped then 1 else 0) + (if InDoubt(s, e) then 1 else 0)
  }

  ghost predicate Inv(s: State) {
    && (forall r :: r in s.running ==> s.lock == Some(r))
    && (forall r :: r in s.running ==> CycleOk(s, s.running[r]))
    && (forall e :: e in s.episodes ==> Counted(s, e))
  }

  /** No replica is active; whatever is stamped was processed once. */
  predicate Initial(s: State) {
    && s.lock.None? && s.running == map[]
    && (forall e :: e in s.episodes ==>
          s.episodes[e].lost == 0 && s.episodes[e].applied == if s.episodes[e].stamped then 1 else 0)
  }

  /** The current episode of a cycle that has not passed it is not stamped. */
  lemma CurrentUnstamped(s: State, r: string)
    requires Inv(s) && r in s.running && s.running[r].Running? && s.running[r].pos < |s.running[r].batch|
    ensures Current(s, r) in s.episodes && !s.episodes[Current(s, r)].stamped && Current(s, r) in s.running[r].seen
  {
    var c := s.running[r];
    assert CycleOk(s, c);
    assert c.batch[c.pos] in c.seen;
  }

  lemma EffectKeepsInv(s: State, r: string)
    requires Inv(s) && Enabled(s, Effect(r))
    ensures Inv(Next(s, Effect(r)))
  {
    CurrentUnstamped(s, r);
    var t := Next(s, Effect(r));
    var c, d := s.running[r], t.running[r];
    assert CycleOk(s, c);
    assert forall e :: Passed(d, e) <==> Passed(c, e);
    forall e | e in t.episodes ensures Counted(t, e) { assert Counted(s, e); }
  }

  lemma StampKeepsInv(s: State, r: string)
    requires Inv(s) && Enabled(s, Stamp(r))
    ensures Inv(Next(s, Stamp(r)))
  {
    CurrentUnstamped(s, r);
    var t := Next(s, Stamp(r));
    var c, d := s.running[r], t.running[r];
    assert CycleOk(s, c);
    forall e ensures Passed(d, e) <==> Passed(c, e) || e == Current(s, r) {
      if e == Current(s, r) { assert d.batch[c.pos] == e; }
    }
    forall e | e in t.episodes ensures Counted(t, e) { assert Counted(s, e); }
  }

  lemma PassOverKeepsInv(s: State, r: string)
    requires Inv(s) && Enabled(s, PassOver(r))
    ensures Inv(Next(s, PassOver(r)))
  {
    CurrentUnstamped(s, r);
    var t := Next(s, PassOver(r));
    var c, d := s.running[r], t.running[r];
    assert CycleOk(s, c);
    forall e ensures Passed(d, e) <==> Passed(c, e) || e == Current(s, r) {
      if e == Current(s, r) { assert d.batch[c.pos] == e; }
    }
    forall e | e in t.episodes ensures Counted(t, e) { assert Counted(s, e); }
  }

  lemma OtherKeepsInv(s: State, step: Step)
    requires Inv(s) && Enabled(s, step) && !step.Effect? && !step.Stamp? && !step.PassOver?
    ensures Inv(Next(s, step))
  {
    var t := Next(s, step);
    forall e | e in t.episodes ensures Counted(t, e) {
      if e in s.episodes { assert Counted(s, e); }
    }
    forall r | r in t.running ensures CycleOk(t, t.running[r]) {
      if r in s.running { assert CycleOk(s, s.running[r]); }
    }
  }

  lemma NextKeepsInv(s: State, step: Step)
    requires Inv(s) && Enabled(s, step)
    ensures Inv(Next(s, step))
  {
    match step
    case Effect(r) => EffectKeepsInv(s, r);
    case Stamp(r) => StampKeepsInv(s, r);
    case PassOver(r) => PassOverKeepsInv(s, r);
    case _ => OtherKeepsInv(s, step);
  }

  ghost predicate Runs(s: State, steps: seq<Step>)
    decreases steps
  {
    steps == [] || (Enabled(s, steps[0]) && Runs(Next(s, steps[0]), steps[1..]))
  }

  ghost function After(s: State, steps: seq<Step>): State
    requires Runs(s, steps)
    decreases steps
  {
    if steps == [] then s else After(Next(s, steps[0]), steps[1..])
  }

  lemma {:induction false} RunKeepsInv(s: State, steps: seq<Step>)
    requires Inv(s) && Runs(s, steps)
    ensures Inv(After(s, steps))
    decreases steps
  {
    if steps != [] {
      NextKeepsInv(s, steps[0]);
      RunKeepsInv(Next(s, steps[0]), steps[1..]);
    }
  }

  /** Whatever replicas do, crash or not, at most one cycle runs at a time, and a verdict is applied at most
      once more than cycles died between its effect and its stamp. */
  lemma WorkersTheorem(s: State, steps: seq<Step>)
    requires Initial(s) && Runs(s, steps)
    ensures var t := After(s, steps);
      && (forall q, r :: q in t.running && r in t.running ==> q == r)
      && (forall e :: e in t.episodes ==> t.episodes[e].applied <= 1 + t.episodes[e].lost)
      && (forall e :: e in t.episodes && t.episodes[e].stamped ==> t.episodes[e].applied == 1 + t.episodes[e].lost)
  {
    RunKeepsInv(s, steps);
    var t := After(s, steps);
    forall e | e in t.episodes
      ensures t.episodes[e].applied <= 1 + t.episodes[e].lost
      ensures t.episodes[e].stamped ==> t.episodes[e].applied == 1 + t.episodes[e].lost
    {
      assert Counted(t, e);
      if InDoubt(t, e) {
        CurrentUnstamped(t, t.lock.value);
      }
    }
  }

  /** A cycle that reaches its end has stamped exactly its batch, the oldest 500 of the backlog it found, less
      what it passed over; what else it leaves of that backlog is no older. */
  lemma FinishedCycle(s: State, r: string)
    requires Inv(s) && Enabled(s, Release(r))
    ensures var c := s.running[r];
      && IsBatch(c.seen, c.batch) && c.over <= Elements(c.batch)
      && (forall e :: e in c.seen ==> (s.episodes[e].stamped <==> e in c.batch && e !in c.over))
      && (forall e, f :: e in c.seen && f in c.seen && s.episodes[e].stamped && !s.episodes[f].stamped && f !in c.over
            ==> Elder(c.seen, e, f))
  {
    var c := s.running[r];
    assert CycleOk(s, c);
    forall e ensures Passed(c, e) <==> e in c.batch {}
  }

  predicate PassesNothingOver(steps: seq<Step>) {
    forall i :: 0 <= i < |steps| ==> !steps[i].PassOver?
  }

  ghost predicate NothingOver(s: State) {
    forall r :: r in s.running && s.running[r].Running? ==> s.running[r].over == {}
  }

  lemma {:induction false} OfflineRun(s: State, steps: seq<Step>)
    requires NothingOver(s) && Runs(s, steps) && PassesNothingOver(steps)
    ensures NothingOver(After(s, steps))
    decreases steps
  {
    if steps != [] {
      assert !steps[0].PassOver?;
      OfflineRun(Next(s, steps[0]), steps[1..]);
    }
  }

  /** When no verdict is passed over, as none of the offline classifier is, a cycle that ends has stamped
      exactly its batch. */
  lemma FinishedOfflineCycle(s: State, steps: seq<Step>, r: string)
    requires Initial(s) && Runs(s, steps) && PassesNothingOver(steps) && Enabled(After(s, steps), Release(r))
    ensures var t := After(s, steps);
      var c := t.running[r];
      && IsBatch(c.seen, c.batch)
      && forall e :: e in c.seen ==> e in t.episodes && (t.episodes[e].stamped <==> e in c.batch)
  {
    RunKeepsInv(s, steps);
    OfflineRun(s, steps);
    FinishedCycle(After(s, steps), r);
  }
}
