/** Forward prediction: expired intents are retired, then the oldest episodes past the watermark form the
    window that predictions are made from, and the watermark moves to the end of the window. */
module Predict {
  import opened Wrappers
  import opened Sorting
  import opened Graph
  import opened Backlogs

  // ---- The window and the watermark ----

  predicate IsAhead(s: State, ws: string, watermark: real, id: Id) {
    id in s.memories && Selected(s.memories[id], ws, Some(Episodic), None) && s.memories[id].createdAt > watermark
  }

  /** The episodes newer than the watermark. */
  function Ahead(s: State, ws: string, watermark: real): map<Id, real> {
    map id | id in s.memories && IsAhead(s, ws, watermark, id) :: s.memories[id].createdAt
  }

  /** The watermark after a window: its last creation time. */
  function Advance(age: map<Id, real>, watermark: real, window: seq<Id>): real {
    if window == [] || window[|window| - 1] !in age then watermark else age[window[|window| - 1]]
  }

  function Newer(age: map<Id, real>, watermark: real): map<Id, real> {
    map e | e in age && age[e] > watermark :: age[e]
  }

  /** Moving the watermark passes over nothing but the window if and only if no episode left out shares the
      creation time of the window's end. */
  lemma NothingPassedOverIff(age: map<Id, real>, watermark: real, cap: nat, window: seq<Id>)
    requires IsOldest(Newer(age, watermark), cap, window) && window != []
    ensures var last := age[window[|window| - 1]];
      Newer(age, Advance(age, watermark, window)) == Newer(age, watermark) - Elements(window)
      <==> forall e :: e in age && e !in window ==> age[e] != last
  {
    var n := Newer(age, watermark);
    var last := age[window[|window| - 1]];
    assert window[|window| - 1] in n;
    forall e | e in n && e !in window ensures age[e] >= last {
      assert Elder(n, window[|window| - 1], e);
    }
    forall e | e in window ensures e in n && age[e] <= last {
      var i :| 0 <= i < |window| && window[i] == e;
      assert i < |window| - 1 ==> Elder(n, window[i], window[|window| - 1]);
    }
    var after := Newer(age, last);
    if forall e :: e in age && e !in window ==> age[e] != last {
      assert after == n - Elements(window);
    } else {
      var e :| e in age && e !in window && age[e] == last;
      assert e in n - Elements(window) && e !in after;
    }
  }

  lemma FirstCutOff(age: map<Id, real>, ids: seq<Id>, ages: seq<real>, k: nat)
    requires Listing(age, ids, ages) && 0 < k < |ids|
    ensures (forall e :: e in age && e !in ids[..k] ==> age[e] != ages[k - 1]) <==> ages[k - 1] < ages[k]
  {
    var window := ids[..k];
    forall e | e in age && e !in window ensures age[e] >= ages[k] {
      var j :| 0 <= j < |ids| && ids[j] == e;
    }
    assert ages[k - 1] <= ages[k];
    assert ids[k] in age && age[ids[k]] == ages[k];
    forall j | 0 <= j < k ensures window[j] != ids[k] {}
  }

  /** A cut in the middle. */
  lemma CutIff(age: map<Id, real>, ids: seq<Id>, ages: seq<real>, watermark: real, cap: nat)
    requires Listing(age, ids, ages) && Newer(age, watermark) == age && 0 < cap < |ids|
    ensures var window := ids[..cap];
      Newer(age, Advance(age, watermark, window)) == age - Elements(window) <==> ages[cap - 1] < ages[cap]
  {
    var window := ids[..cap];
    FrontIsOldest(age, ids, ages, cap, window);
    assert window[cap - 1] == ids[cap - 1] && age[ids[cap - 1]] == ages[cap - 1];
    NothingPassedOverIff(age, watermark, cap, window);
    FirstCutOff(age, ids, ages, cap);
  }

  /** No cut at all. */
  lemma NothingCut(age: map<Id, real>, ids: seq<Id>, ages: seq<real>, watermark: real)
    requires Listing(age, ids, ages) && Newer(age, watermark) == age
    ensures Newer(age, Advance(age, watermark, ids)) == age - Elements(ids)
  {
    assert age - Elements(ids) == map[];
    if ids != [] {
      var last := ages[|ids| - 1];
      assert Advance(age, watermark, ids) == last;
      forall e | e in age ensures age[e] <= last {
        var j :| 0 <= j < |ids| && ids[j] == e;
        assert ages[j] <= last;
      }
    } else {
      assert age == map[];
    }
  }

  lemma ListingCutIff(age: map<Id, real>, ids: seq<Id>, ages: seq<real>, watermark: real, cap: nat)
    requires Listing(age, ids, ages) && Newer(age, watermark) == age
    ensures var window := ids[..if |ids| > cap then cap else |ids|];
      && watermark <= Advance(age, watermark, window)
      && (Newer(age, Advance(age, watermark, window)) == age - Elements(window)
          <==> cap == 0 || |ids| <= cap || ages[cap - 1] < ages[cap])
  {
    var window := ids[..if |ids| > cap then cap else |ids|];
    FrontIsOldest(age, ids, ages, cap, window);
    WatermarkMonotone(age, watermark, cap, window);
    if |ids| <= cap {
      assert window == ids;
      NothingCut(age, ids, ages, watermark);
    } else if cap > 0 {
      CutIff(age, ids, ages, watermark, cap);
    } else {
      assert age - Elements(window) == age;
    }
  }

  /** The guard of the cut: it cuts nothing off, or cuts between two creation times. */
  predicate CutsClean(recent: seq<Memory>, cap: nat) {
    var sorted := Sort(NotNewer, recent);
    cap == 0 || |recent| <= cap || sorted[cap - 1].createdAt < sorted[cap].createdAt
  }

  lemma IdsOfFront(ms: seq<Memory>, k: nat)
    requires k <= |ms|
    ensures Ids(ms[..k]) == Ids(ms)[..k]
  {
  }

  lemma OldestCut(recent: seq<Memory>, cap: nat)
    ensures var ids, ages := Ids(Sort(NotNewer, recent)), Ages(Sort(NotNewer, recent));
      && Ids(Oldest(recent, cap)) == ids[..if |ids| > cap then cap else |ids|]
      && (CutsClean(recent, cap) <==> cap == 0 || |ids| <= cap || ages[cap - 1] < ages[cap])
  {
    var sorted := Sort(NotNewer, recent);
    assert sorted[..|sorted|] == sorted;
    IdsOfFront(sorted, if |sorted| > cap then cap else |sorted|);
  }

  lemma SortedCut(s: State, age: map<Id, real>, recent: seq<Memory>, cap: nat)
    returns (ids: seq<Id>, ages: seq<real>)
    requires AgesListed(s, age, recent)
    ensures Listing(age, ids, ages)
    ensures Ids(Oldest(recent, cap)) == ids[..if |ids| > cap then cap else |ids|]
    ensures CutsClean(recent, cap) <==> cap == 0 || |ids| <= cap || ages[cap - 1] < ages[cap]
  {
    ids, ages := Ids(Sort(NotNewer, recent)), Ages(Sort(NotNewer, recent));
    SortedRows(s, age, recent);
    SortedIsListing(s, age, Sort(NotNewer, recent));
    OldestCut(recent, cap);
  }

  lemma RowsCutIff(s: State, age: map<Id, real>, watermark: real, cap: nat, recent: seq<Memory>)
    requires AgesListed(s, age, recent) && Newer(age, watermark) == age
    ensures var window := Ids(Oldest(recent, cap));
      && watermark <= Advance(age, watermark, window)
      && (Newer(age, Advance(age, watermark, window)) == age - Elements(window) <==> CutsClean(recent, cap))
  {
    var ids, ages := SortedCut(s, age, recent, cap);
    ListingCutIff(age, ids, ages, watermark, cap);
  }

  /** The same on the input: with recent the episodes of the workspace past the watermark, the cut at cap passes
      over none of them but the window if and only if it cuts nothing off, or cuts between two creation times. What
      it does to other workspaces is said by OtherWorkspaceIff. */
  lemma CutPassesNothingIff(s: State, ws: string, watermark: real, cap: nat, recent: seq<Memory>)
    requires AgesListed(s, Ahead(s, ws, watermark), recent)
    ensures var age, window := Ahead(s, ws, watermark), Ids(Oldest(recent, cap));
      Ahead(s, ws, Advance(age, watermark, window)) == age - Elements(window) <==> CutsClean(recent, cap)
  {
    var age := Ahead(s, ws, watermark);
    NewerAhead(s, ws, watermark, watermark);
    RowsCutIff(s, age, watermark, cap, recent);
    NewerAhead(s, ws, watermark, Advance(age, watermark, Ids(Oldest(recent, cap))));
  }

  lemma NewerAhead(s: State, ws: string, watermark: real, later: real)
    ensures watermark <= later ==> Newer(Ahead(s, ws, watermark), later) == Ahead(s, ws, later)
    ensures Ahead(s, ws, watermark) == Newer(Ahead(s, ws, watermark), watermark)
  {
  }

  /** The watermark never goes back. */
  lemma WatermarkMonotone(age: map<Id, real>, watermark: real, cap: nat, window: seq<Id>)
    requires IsOldest(Newer(age, watermark), cap, window)
    ensures watermark <= Advance(age, watermark, window)
  {
    assert window != [] ==> window[|window| - 1] in Newer(age, watermark);
  }

  // ---- Runs over a growing list of episodes ----

  /** The episodes of a workspace in order of arrival, the watermark, how many of them lie at or before it, the
      windows used so far, end to end, and what was passed over. */
  datatype Timeline = Timeline(episodes: seq<(Id, real)>, watermark: real, front: nat, used: seq<Id>, passed: set<Id>)

  datatype Event =
    | Arrive(id: Id, at: real)
    | Window(ids: seq<Id>)       // a successful prediction
    | Jump(to: real)             // one for another workspace, which moves the same watermark
    | Failure                    // a prediction that ended in an error

  function AgeOf(episodes: seq<(Id, real)>): map<Id, real> {
    if episodes == [] then map[]
    else
      var last := episodes[|episodes| - 1];
      AgeOf(episodes[..|episodes| - 1])[last.0 := last.1]
  }

  /** Distinct ids, increasing times. */
  ghost predicate InOrder(episodes: seq<(Id, real)>) {
    forall i, j :: 0 <= i < j < |episodes| ==> episodes[i].0 != episodes[j].0 && episodes[i].1 < episodes[j].1
  }

  ghost predicate Enabled(t: Timeline, cap: nat, ev: Event) {
    match ev
    case Arrive(id, at) =>
      && at > t.watermark
      && (forall i :: 0 <= i < |t.episodes| ==> t.episodes[i].0 != id && t.episodes[i].1 < at)
    case Window(ids) => IsOldest(Newer(AgeOf(t.episodes), t.watermark), cap, ids)
    case Jump(to) => t.watermark <= to
    case Failure => true
  }

  /** How many of the episodes are not newer than a time. */
  function UpTo(episodes: seq<(Id, real)>, time: real): (k: nat)
    ensures k <= |episodes|
  {
    if episodes == [] then 0
    else
      var last := |episodes| - 1;
      UpTo(episodes[..last], time) + if episodes[last].1 <= time then 1 else 0
  }

  /** The ids from position i up to position j. */
  function Between(episodes: seq<(Id, real)>, i: nat, j: nat): set<Id> {
    set k | i <= k < j && k < |episodes| :: episodes[k].0
  }

  function Next(t: Timeline, ev: Event): Timeline {
    match ev
    case Arrive(id, at) => t.(episodes := t.episodes + [(id, at)])
    case Window(ids) =>
      t.(watermark := Advance(AgeOf(t.episodes), t.watermark, ids), front := t.front + |ids|, used := t.used + ids)
    case Jump(to) =>
      var front := UpTo(t.episodes, to);
      t.(watermark := to, front := front, passed := t.passed + Between(t.episodes, t.front, front))
    case Failure => t
  }

  ghost predicate Runs(t: Timeline, cap: nat, evs: seq<Event>)
    decreases evs
  {
    evs == [] || (Enabled(t, cap, evs[0]) && Runs(Next(t, evs[0]), cap, evs[1..]))
  }

  ghost function After(t: Timeline, evs: seq<Event>): Timeline
    decreases evs
  {
    if evs == [] then t else After(Next(t, evs[0]), evs[1..])
  }

  /** The ids of the episodes that were not passed over, in order. */
  function Without(episodes: seq<(Id, real)>, passed: set<Id>): seq<Id> {
    if episodes == [] then []
    else
      var last := episodes[|episodes| - 1].0;
      Without(episodes[..|episodes| - 1], passed) + if last in passed then [] else [last]
  }

  /** The watermark separates a front of the timeline from the rest, and what has been used is that front less
      what was passed over. */
  ghost predicate UsedIsFront(t: Timeline) {
    && InOrder(t.episodes) && t.front <= |t.episodes|
    && (forall i :: 0 <= i < |t.episodes| ==> (i < t.front <==> t.episodes[i].1 <= t.watermark))
    && t.used == Without(t.episodes[..t.front], t.passed)
    && t.passed <= Between(t.episodes, 0, t.front)
  }

  /** The watermark is the time of the last episode before it. */
  predicate AtLast(t: Timeline) {
    0 < t.front <= |t.episodes| ==> t.watermark == t.episodes[t.front - 1].1
  }

  lemma {:induction false} WithoutNone(episodes: seq<(Id, real)>)
    ensures |Without(episodes, {})| == |episodes|
    ensures forall i :: 0 <= i < |episodes| ==> Without(episodes, {})[i] == episodes[i].0
  {
    if episodes != [] {
      WithoutNone(episodes[..|episodes| - 1]);
    }
  }

  /** Only what is passed over is left out. */
  lemma {:induction false} WithoutSame(episodes: seq<(Id, real)>, passed: set<Id>, more: set<Id>)
    requires forall i :: 0 <= i < |episodes| ==> (episodes[i].0 in passed <==> episodes[i].0 in more)
    ensures Without(episodes, more) == Without(episodes, passed)
  {
    if episodes != [] {
      WithoutSame(episodes[..|episodes| - 1], passed, more);
    }
  }

  lemma {:induction false} WithoutAppend(episodes: seq<(Id, real)>, n: nat, m: nat, passed: set<Id>)
    requires n <= m <= |episodes| && forall i :: n <= i < m ==> episodes[i].0 in passed
    ensures Without(episodes[..m], passed) == Without(episodes[..n], passed)
    decreases m
  {
    if n < m {
      assert episodes[..m][..m - 1] == episodes[..m - 1];
      WithoutAppend(episodes, n, m - 1, passed);
    }
  }

  lemma {:induction false} WithoutGrows(episodes: seq<(Id, real)>, n: nat, ids: seq<Id>, passed: set<Id>)
    requires n + |ids| <= |episodes|
    requires forall i :: 0 <= i < |ids| ==> ids[i] == episodes[n + i].0 && ids[i] !in passed
    ensures Without(episodes[..n + |ids|], passed) == Without(episodes[..n], passed) + ids
    decreases |ids|
  {
    if ids == [] {
      assert Without(episodes[..n], passed) + ids == Without(episodes[..n], passed);
    } else {
      var k := |ids| - 1;
      WithoutGrows(episodes, n, ids[..k], passed);
      assert episodes[..n + |ids|][..n + k] == episodes[..n + k];
      assert ids == ids[..k] + [ids[k]];
    }
  }

  lemma {:induction false} UpToExact(episodes: seq<(Id, real)>, time: real)
    requires InOrder(episodes)
    ensures forall i :: 0 <= i < |episodes| ==> (i < UpTo(episodes, time) <==> episodes[i].1 <= time)
  {
    if episodes != [] {
      var last := |episodes| - 1;
      UpToExact(episodes[..last], time);
      assert forall i :: 0 <= i < last ==> episodes[..last][i] == episodes[i] && episodes[i].1 < episodes[last].1;
    }
  }

  ghost predicate Stands(episodes: seq<(Id, real)>, e: Id) {
    exists i :: 0 <= i < |episodes| && episodes[i].0 == e
  }

  ghost predicate Holds(age: map<Id, real>, episodes: seq<(Id, real)>) {
    && (forall i :: 0 <= i < |episodes| ==> episodes[i].0 in age && age[episodes[i].0] == episodes[i].1)
    && (forall e :: e in age ==> Stands(episodes, e))
  }

  lemma HoldsSnoc(age: map<Id, real>, front: seq<(Id, real)>, last: (Id, real))
    requires Holds(age, front) && InOrder(front + [last])
    ensures Holds(age[last.0 := last.1], front + [last])
  {
    var all, more := front + [last], age[last.0 := last.1];
    assert all[|front|] == last;
    forall i | 0 <= i < |all| ensures all[i].0 in more && more[all[i].0] == all[i].1 {
      if i < |front| {
        assert all[i] == front[i] && all[i].0 != all[|front|].0;
      }
    }
    forall e | e in more ensures Stands(all, e) {
      if e != last.0 {
        assert Stands(front, e);
        var i :| 0 <= i < |front| && front[i].0 == e;
        assert all[i].0 == e;
      }
    }
  }

  lemma {:induction false} AgeOfExact(episodes: seq<(Id, real)>)
    requires InOrder(episodes)
    ensures Holds(AgeOf(episodes), episodes)
  {
    if episodes != [] {
      var n := |episodes| - 1;
      AgeOfExact(episodes[..n]);
      assert episodes == episodes[..n] + [episodes[n]];
      HoldsSnoc(AgeOf(episodes[..n]), episodes[..n], episodes[n]);
    }
  }

  /** The episodes past the front. */
  function Rest(t: Timeline): (r: seq<Id>)
    requires t.front <= |t.episodes|
    ensures |r| == |t.episodes| - t.front
  {
    seq(|t.episodes| - t.front, i requires 0 <= i < |t.episodes| - t.front => t.episodes[t.front + i].0)
  }

  /** all lists the episodes of age in strictly increasing order of time. */
  ghost predicate ListsUp(age: map<Id, real>, all: seq<Id>) {
    && |all| == |age|
    && (forall e :: e in age ==> e in all)
    && (forall i :: 0 <= i < |all| ==> all[i] in age)
    && (forall i, j :: 0 <= i < j < |all| ==> age[all[i]] < age[all[j]])
  }

  lemma AtMost(age: map<Id, real>, n: nat, taken: seq<Id>, all: seq<Id>, i: nat)
    requires IsOldest(age, n, taken) && ListsUp(age, all) && i < |taken|
    requires forall j :: 0 <= j < i ==> taken[j] == all[j]
    ensures age[taken[i]] <= age[all[i]]
  {
    if all[i] in taken {
      var q :| 0 <= q < |taken| && taken[q] == all[i];
      if q > i {
        assert Elder(age, taken[i], taken[q]);
      }
    } else {
      assert Elder(age, taken[i], all[i]);
    }
  }

  lemma {:induction false} OldestAt(age: map<Id, real>, n: nat, taken: seq<Id>, all: seq<Id>, i: nat)
    requires IsOldest(age, n, taken) && ListsUp(age, all) && i < |taken|
    ensures taken[i] == all[i]
  {
    forall j | 0 <= j < i ensures taken[j] == all[j] { OldestAt(age, n, taken, all, j); }
    AtMost(age, n, taken, all, i);
    assert taken[i] in age;
    forall q | i < q < |all| ensures all[q] != taken[i] {
      assert age[all[i]] < age[all[q]];
    }
    var p :| 0 <= p < |all| && all[p] == taken[i];
    assert forall j :: 0 <= j < i ==> all[j] == taken[j] && taken[j] != taken[i];
    assert p >= i;
  }

  lemma RestInNewer(t: Timeline, age: map<Id, real>, i: nat)
    requires UsedIsFront(t) && Holds(age, t.episodes) && i < |t.episodes| - t.front
    ensures var n := Newer(age, t.watermark);
      Rest(t)[i] in n && n[Rest(t)[i]] == t.episodes[t.front + i].1
  {
    assert t.episodes[t.front + i].1 > t.watermark;
  }

  lemma NewerInRest(t: Timeline, age: map<Id, real>, e: Id)
    requires UsedIsFront(t) && Holds(age, t.episodes) && e in Newer(age, t.watermark)
    ensures e in Rest(t)
  {
    var i :| 0 <= i < |t.episodes| && t.episodes[i].0 == e;
    assert age[t.episodes[i].0] == t.episodes[i].1 > t.watermark;
    assert Rest(t)[i - t.front] == e;
  }

  /** What is not in the front is what is newer than the watermark. */
  lemma RestIsNewer(t: Timeline, age: map<Id, real>)
    requires UsedIsFront(t) && Holds(age, t.episodes)
    ensures ListsUp(Newer(age, t.watermark), Rest(t))
  {
    var n, rest := Newer(age, t.watermark), Rest(t);
    forall i | 0 <= i < |rest| ensures rest[i] in n && n[rest[i]] == t.episodes[t.front + i].1 {
      RestInNewer(t, age, i);
    }
    forall e | e in n.Keys ensures e in rest { NewerInRest(t, age, e); }
    forall i, j | 0 <= i < j < |rest| ensures n[rest[i]] < n[rest[j]] {
      assert t.episodes[t.front + i].1 < t.episodes[t.front + j].1;
    }
    DistinctSize(rest, n.Keys);
  }

  /** With distinct times there is one oldest selection: the next stretch of the timeline. */
  lemma WindowIsNextStretch(t: Timeline, age: map<Id, real>, cap: nat, window: seq<Id>)
    requires UsedIsFront(t) && Holds(age, t.episodes) && IsOldest(Newer(age, t.watermark), cap, window)
    ensures |window| == if cap < |Rest(t)| then cap else |Rest(t)|
    ensures forall i :: 0 <= i < |window| ==> window[i] == Rest(t)[i]
  {
    RestIsNewer(t, age);
    StretchOf(Newer(age, t.watermark), cap, window, Rest(t));
  }

  lemma StretchOf(age: map<Id, real>, n: nat, taken: seq<Id>, all: seq<Id>)
    requires IsOldest(age, n, taken) && ListsUp(age, all)
    ensures |taken| == if n < |all| then n else |all|
    ensures forall i :: 0 <= i < |taken| ==> taken[i] == all[i]
  {
    forall i | 0 <= i < |taken| ensures taken[i] == all[i] { OldestAt(age, n, taken, all, i); }
  }

  lemma AdvanceToLast(t: Timeline, age: map<Id, real>, ids: seq<Id>)
    requires t.front <= |t.episodes| && Holds(age, t.episodes) && 0 < |ids| <= |Rest(t)|
    requires ids[|ids| - 1] == Rest(t)[|ids| - 1]
    ensures Advance(age, t.watermark, ids) == t.episodes[t.front + |ids| - 1].1
  {
    assert ids[|ids| - 1] == t.episodes[t.front + |ids| - 1].0;
  }

  lemma WindowKeepsFront(t: Timeline, age: map<Id, real>, cap: nat, ids: seq<Id>, u: Timeline)
    requires UsedIsFront(t) && Holds(age, t.episodes) && IsOldest(Newer(age, t.watermark), cap, ids)
    requires u == t.(watermark := Advance(age, t.watermark, ids), front := t.front + |ids|, used := t.used + ids)
    ensures UsedIsFront(u) && t.watermark <= u.watermark && (AtLast(t) ==> AtLast(u))
  {
    if ids == [] {
      assert u == t;
    } else {
      WindowIsNextStretch(t, age, cap, ids);
      AdvanceToLast(t, age, ids);
      FrontMoves(t, u, ids);
    }
  }

  /** Using the next stretch, with its last time as watermark, keeps the front. */
  lemma FrontMoves(t: Timeline, u: Timeline, ids: seq<Id>)
    requires UsedIsFront(t) && ids != [] && t.front + |ids| <= |t.episodes|
    requires u == Timeline(t.episodes, t.episodes[t.front + |ids| - 1].1, t.front + |ids|, t.used + ids, t.passed)
    requires forall i :: 0 <= i < |ids| ==> ids[i] == Rest(t)[i]
    ensures UsedIsFront(u) && t.watermark <= u.watermark && AtLast(u)
  {
    forall i | 0 <= i < |ids| ensures ids[i] == t.episodes[t.front + i].0 && ids[i] !in t.passed {
      assert ids[i] == Rest(t)[i] == t.episodes[t.front + i].0;
      assert ids[i] !in Between(t.episodes, 0, t.front);
    }
    WithoutGrows(t.episodes, t.front, ids, t.passed);
  }

  /** An episode between the watermark and a later time. */
  ghost predicate JumpedOver(t: Timeline, to: real, e: Id) {
    exists i :: 0 <= i < |t.episodes| && t.episodes[i].0 == e && t.watermark < t.episodes[i].1 <= to
  }

  lemma JumpForward(t: Timeline, to: real)
    requires UsedIsFront(t) && t.watermark <= to
    ensures t.front <= UpTo(t.episodes, to)
    ensures forall i :: 0 <= i < |t.episodes| ==> (i < UpTo(t.episodes, to) <==> t.episodes[i].1 <= to)
  {
    UpToExact(t.episodes, to);
    assert t.front > 0 ==> t.episodes[t.front - 1].1 <= t.watermark;
  }

  lemma BetweenFronts(t: Timeline, to: real, e: Id)
    requires UsedIsFront(t) && t.watermark <= to
    ensures e in Between(t.episodes, t.front, UpTo(t.episodes, to)) <==> JumpedOver(t, to, e)
  {
    JumpForward(t, to);
    if JumpedOver(t, to, e) {
      var i :| 0 <= i < |t.episodes| && t.episodes[i].0 == e && t.watermark < t.episodes[i].1 <= to;
      assert t.front <= i < UpTo(t.episodes, to);
    }
  }

  lemma JumpPassesOver(t: Timeline, to: real)
    requires UsedIsFront(t) && t.watermark <= to
    ensures forall e :: e in Next(t, Jump(to)).passed <==> e in t.passed || JumpedOver(t, to, e)
  {
    forall e ensures e in Next(t, Jump(to)).passed <==> e in t.passed || JumpedOver(t, to, e) {
      BetweenFronts(t, to, e);
    }
  }

  lemma BetweenOrder(episodes: seq<(Id, real)>, i: nat, j: nat)
    requires InOrder(episodes) && i <= j <= |episodes|
    ensures forall k :: 0 <= k < i ==> episodes[k].0 !in Between(episodes, i, j)
    ensures forall k :: i <= k < j ==> episodes[k].0 in Between(episodes, i, j)
    ensures Between(episodes, 0, i) + Between(episodes, i, j) == Between(episodes, 0, j)
  {
  }

  /** A jump keeps the front: what it passes over is not used. */
  lemma JumpKeepsFront(t: Timeline, to: real)
    requires UsedIsFront(t) && t.watermark <= to
    ensures UsedIsFront(Next(t, Jump(to)))
  {
    var u := Next(t, Jump(to));
    JumpForward(t, to);
    BetweenOrder(t.episodes, t.front, u.front);
    WithoutSame(t.episodes[..t.front], t.passed, u.passed);
    WithoutAppend(t.episodes, t.front, u.front, u.passed);
  }

  lemma NextKeepsFront(t: Timeline, cap: nat, ev: Event)
    requires UsedIsFront(t) && Enabled(t, cap, ev)
    ensures UsedIsFront(Next(t, ev)) && t.watermark <= Next(t, ev).watermark
    ensures AtLast(t) && !ev.Jump? ==> AtLast(Next(t, ev))
  {
    match ev
    case Arrive(id, at) => ArrivalKeepsFront(t, id, at);
    case Window(ids) =>
      AgeOfExact(t.episodes);
      WindowKeepsFront(t, AgeOf(t.episodes), cap, ids, Next(t, ev));
    case Jump(to) => JumpKeepsFront(t, to);
    case Failure =>
  }

  lemma ArrivalKeepsFront(t: Timeline, id: Id, at: real)
    requires UsedIsFront(t) && at > t.watermark
    requires forall i :: 0 <= i < |t.episodes| ==> t.episodes[i].0 != id && t.episodes[i].1 < at
    ensures UsedIsFront(Next(t, Arrive(id, at)))
  {
    assert (t.episodes + [(id, at)])[..t.front] == t.episodes[..t.front];
    assert forall i :: 0 <= i < |t.episodes| ==> (t.episodes + [(id, at)])[i] == t.episodes[i];
  }

  /** The windows of successive predictions, end to end, are the front of the timeline in order, less what the
      jumps passed over; without jumps the watermark is the end of the last window. */
  lemma {:induction false} WindowsFollowTimeline(t: Timeline, cap: nat, evs: seq<Event>)
    requires UsedIsFront(t) && Runs(t, cap, evs)
    ensures UsedIsFront(After(t, evs)) && t.watermark <= After(t, evs).watermark
    ensures t.passed <= After(t, evs).passed
    ensures (forall i :: 0 <= i < |evs| ==> !evs[i].Jump?) ==>
      After(t, evs).passed == t.passed && (AtLast(t) ==> AtLast(After(t, evs)))
    decreases evs
  {
    if evs != [] {
      NextKeepsFront(t, cap, evs[0]);
      WindowsFollowTimeline(Next(t, evs[0]), cap, evs[1..]);
    }
  }

  /** A store whose watermark was never written starts at the front of an empty timeline. */
  lemma EmptyTimeline()
    ensures UsedIsFront(Timeline([], 0.0, 0, [], {})) && AtLast(Timeline([], 0.0, 0, [], {}))
  {
  }

  // ---- The pass ----

  /** A predicted intent; its text has the blanks around it trimmed. */
  datatype Intent = Intent(text: string, horizon: Option<real>)

  datatype Report = Report(expired: nat, seen: nat, predictions: nat, skipped: bool)

  predicate Expired(m: Memory, now: real) {
    !IsRetired(m) && match m.validTo
                     case Missing => now > 0.0
                     case NotANumber => false
                     case Number(validTo) => now > validTo
  }

  /** An intent row whose time is up. */
  predicate IsExpired(s: State, ws: string, now: real, id: Id) {
    id in s.memories && Selected(s.memories[id], ws, Some(Predictive), None) && Expired(s.memories[id], now)
  }

  ghost function ExpiredIds(s: State, ws: string, now: real): set<Id> {
    set id | id in s.memories && IsExpired(s, ws, now, id)
  }

  /** The valid edges at any of the ids. */
  function EdgesAt(s: State, ids: set<Id>): set<EdgeId> {
    set e | e in s.edges && s.edges[e].validTo.None? && (s.edges[e].src in ids || s.edges[e].dst in ids)
  }

  /** t is s with the expired intents marked and every valid edge at them ended; nothing else changes. */
  ghost predicate Swept(s: State, t: State, ws: string, now: real) {
    && t.memories.Keys == s.memories.Keys
    && (forall id :: id in s.memories ==>
          t.memories[id] == (if IsExpired(s, ws, now, id) then MarkRetired(s.memories[id], "") else s.memories[id]))
    && t.edges == EndListed(s, EdgesAt(s, ExpiredIds(s, ws, now)), now).edges
  }

  /** An intent of the workspace that is not retired and whose stored time has passed; a missing time counts as 0, and
      one that is no number never passes. */
  ghost predicate RunOut(m: Memory, ws: string, now: real) {
    && m.layer == Predictive && (ws == "" || m.workspace == ws) && m.supersededBy == "" && !m.superseded
    && ((m.validTo == Missing && now > 0.0) || (m.validTo.Number? && now > m.validTo.value))
  }

  lemma SweptRows(s: State, t: State, ws: string, now: real)
    requires Swept(s, t, ws, now)
    ensures forall id :: id in s.memories ==>
      if RunOut(s.memories[id], ws, now) then Marked(s.memories[id], t.memories[id], "")
      else t.memories[id] == s.memories[id]
    ensures forall id :: id in ExpiredIds(s, ws, now) <==> id in s.memories && RunOut(s.memories[id], ws, now)
  {
  }

  /** Retires the expired intents. */
  method SweepExpired(store: Store, ws: string, now: real) returns (expired: nat)
    requires store.Valid()
    modifies store
    ensures store.Valid() && Swept(old(store.Now()), store.Now(), ws, now)
    ensures expired == |ExpiredIds(old(store.Now()), ws, now)|
    ensures forall id :: id in store.memories ==>
      if RunOut(old(store.memories)[id], ws, now) then Marked(old(store.memories)[id], store.memories[id], "")
      else store.memories[id] == old(store.memories)[id]
    ensures forall id :: id in ExpiredIds(old(store.Now()), ws, now) <==>
      id in store.memories && RunOut(old(store.memories)[id], ws, now)
  {
    ghost var s := store.Now();
    var l6s := store.IterMemories(ws, Some(Predictive), None);
    assert forall j :: 0 <= j < |l6s| ==> l6s[j] in l6s;
    ghost var done;
    expired, done := SweepListed(store, l6s, now);
    AllSwept(s, store.Now(), ws, l6s, now);
    AllExpired(s, ws, l6s, now, done);
    SweptRows(s, store.Now(), ws, now);
  }

  /** The first n of the listed intents have been looked at; done are the retired ones. */
  ghost predicate Sweeping(s: State, t: State, l6s: seq<Memory>, n: nat, now: real, done: set<Id>) {
    && n <= |l6s| && SweptSome(s, t, l6s, n, now) && SweptIds(l6s, n, now, done)
    && t.edges == EndListed(s, EdgesAt(s, done), now).edges
  }

  lemma SweepingStart(s: State, l6s: seq<Memory>, now: real)
    requires Rows(s, l6s)
    ensures Sweeping(s, s, l6s, 0, now, {})
  {
    NoEdges(s, now);
  }

  lemma SweepingNext(s: State, t: State, u: State, l6s: seq<Memory>, n: nat, now: real, done: set<Id>, edge: EdgeId)
    requires Sweeping(s, t, l6s, n, now, done) && n < |l6s|
    requires u == if Expired(l6s[n], now) then RetireIn(t, l6s[n], "", now, edge) else t
    ensures l6s[n].id !in done
    ensures Sweeping(s, u, l6s, n + 1, now, if Expired(l6s[n], now) then done + {l6s[n].id} else done)
  {
    SweptIdsNext(l6s, n, now, done);
    if Expired(l6s[n], now) {
      SweptOne(s, t, u, l6s, n, now);
      SweptEdges(s, t, done, l6s[n], now);
    }
  }

  lemma SweepingRow(s: State, t: State, l6s: seq<Memory>, n: nat, now: real, done: set<Id>)
    requires Sweeping(s, t, l6s, n, now, done) && n < |l6s|
    ensures l6s[n].id in t.memories && t.memories[l6s[n].id] == l6s[n]
  {
  }

  /** Looks at one listed intent. */
  method SweepItem(store: Store, ghost s: State, l6s: seq<Memory>, n: nat, now: real, ghost done: set<Id>)
    returns (did: bool, ghost done': set<Id>)
    requires store.Valid() && n < |l6s| && Sweeping(s, store.Now(), l6s, n, now, done)
    modifies store
    ensures store.Valid() && Sweeping(s, store.Now(), l6s, n + 1, now, done')
    ensures |done'| == |done| + if did then 1 else 0
  {
    ghost var t := store.Now();
    did, done' := Expired(l6s[n], now), done;
    if did {
      SweepingRow(s, t, l6s, n, now, done);
      var _, edge := store.Retire(l6s[n], "", now);
      done' := SweepingRetired(s, t, store.Now(), l6s, n, now, done, edge);
    } else {
      SweepingNext(s, t, t, l6s, n, now, done, Random(""));
    }
  }

  lemma SweepingRetired(s: State, t: State, u: State, l6s: seq<Memory>, n: nat, now: real, done: set<Id>, edge: EdgeId)
    returns (done': set<Id>)
    requires Sweeping(s, t, l6s, n, now, done) && n < |l6s| && Expired(l6s[n], now)
    requires u == RetireIn(t, l6s[n], "", now, edge)
    ensures Sweeping(s, u, l6s, n + 1, now, done') && |done'| == |done| + 1
  {
    SweepingNext(s, t, u, l6s, n, now, done, edge);
    done' := done + {l6s[n].id};
  }

  method SweepListed(store: Store, l6s: seq<Memory>, now: real) returns (expired: nat, ghost done: set<Id>)
    requires store.Valid() && Rows(store.Now(), l6s)
    modifies store
    ensures store.Valid() && Sweeping(old(store.Now()), store.Now(), l6s, |l6s|, now, done)
    ensures expired == |done|
  {
    ghost var s := store.Now();
    expired, done := 0, {};
    SweepingStart(s, l6s, now);
    for i := 0 to |l6s|
      invariant store.Valid() && Sweeping(s, store.Now(), l6s, i, now, done) && expired == |done|
    {
      var did;
      did, done := SweepItem(store, s, l6s, i, now, done);
      if did {
        expired := expired + 1;
      }
    }
  }

  lemma NoEdges(s: State, now: real)
    ensures EndListed(s, EdgesAt(s, {}), now).edges == s.edges
  {
    assert EdgesAt(s, {}) == {};
  }

  /** Ending the edges at one more id. */
  lemma SweptEdges(s: State, t: State, ids: set<Id>, m: Memory, now: real)
    requires t.edges == EndListed(s, EdgesAt(s, ids), now).edges
    ensures forall edge :: RetireIn(t, m, "", now, edge).edges == EndListed(s, EdgesAt(s, ids + {m.id}), now).edges
  {
    var u, all := CloseEdges(t, m.id, now), EndListed(s, EdgesAt(s, ids + {m.id}), now);
    assert u.edges.Keys == s.edges.Keys == all.edges.Keys;
    forall e | e in s.edges ensures u.edges[e] == all.edges[e] {
      assert e in Closing(t, m.id) <==> t.edges[e].validTo.None? && Touches(s.edges[e], m.id);
    }
    assert u.edges == all.edges;
  }

  /** The ids of the expired among the first n intents. */
  ghost predicate SweptIds(l6s: seq<Memory>, n: nat, now: real, done: set<Id>)
    requires n <= |l6s|
  {
    forall id :: id in done <==> exists j :: 0 <= j < n && l6s[j].id == id && Expired(l6s[j], now)
  }

  lemma SweptIdsNext(l6s: seq<Memory>, n: nat, now: real, done: set<Id>)
    requires n < |l6s| && SweptIds(l6s, n, now, done)
    requires forall i, j :: 0 <= i < j < |l6s| ==> l6s[i].id != l6s[j].id
    ensures l6s[n].id !in done
    ensures Expired(l6s[n], now) ==> SweptIds(l6s, n + 1, now, done + {l6s[n].id})
    ensures !Expired(l6s[n], now) ==> SweptIds(l6s, n + 1, now, done)
  {
  }

  lemma AllExpired(s: State, ws: string, l6s: seq<Memory>, now: real, done: set<Id>)
    requires WellFormed(s) && SweptIds(l6s, |l6s|, now, done)
    requires forall m {:trigger m in l6s} :: m in l6s <==>
      m.id in s.memories && s.memories[m.id] == m && Selected(m, ws, Some(Predictive), None)
    ensures done == ExpiredIds(s, ws, now)
  {
    forall id ensures id in done <==> id in ExpiredIds(s, ws, now) {
      if id in ExpiredIds(s, ws, now) {
        assert s.memories[id] in l6s;
      }
      if j :| 0 <= j < |l6s| && l6s[j].id == id && Expired(l6s[j], now) {
        assert l6s[j] in l6s;
      }
    }
  }

  /** The first n of the listed rows have been looked at. */
  ghost predicate SweptSome(s: State, t: State, l6s: seq<Memory>, n: nat, now: real) {
    && t.memories.Keys == s.memories.Keys && Rows(s, l6s)
    && (forall j :: 0 <= j < |l6s| ==>
          && l6s[j].id in t.memories
          && t.memories[l6s[j].id] == (if j < n && Expired(l6s[j], now) then MarkRetired(l6s[j], "") else l6s[j]))
    && (forall id :: id in s.memories && (forall j :: 0 <= j < |l6s| ==> l6s[j].id != id) ==>
          t.memories[id] == s.memories[id])
  }

  lemma SweptOne(s: State, t: State, u: State, l6s: seq<Memory>, n: nat, now: real)
    requires SweptSome(s, t, l6s, n, now) && n < |l6s| && Expired(l6s[n], now)
    requires u.memories == t.memories[l6s[n].id := MarkRetired(l6s[n], "")]
    ensures SweptSome(s, u, l6s, n + 1, now)
  {
  }

  lemma AllSwept(s: State, t: State, ws: string, l6s: seq<Memory>, now: real)
    requires WellFormed(s) && SweptSome(s, t, l6s, |l6s|, now)
    requires forall m {:trigger m in l6s} :: m in l6s <==>
      m.id in s.memories && s.memories[m.id] == m && Selected(m, ws, Some(Predictive), None)
    ensures forall id :: id in s.memories ==>
      t.memories[id] == if IsExpired(s, ws, now, id) then MarkRetired(s.memories[id], "") else s.memories[id]
  {
    forall id | id in s.memories
      ensures t.memories[id] == if IsExpired(s, ws, now, id) then MarkRetired(s.memories[id], "") else s.memories[id]
    {
      if Selected(s.memories[id], ws, Some(Predictive), None) {
        assert s.memories[id] in l6s;
        var j :| 0 <= j < |l6s| && l6s[j] == s.memories[id];
        assert l6s[j].id == id;
      } else {
        assert forall j :: 0 <= j < |l6s| ==> l6s[j] in l6s && l6s[j].id != id;
      }
    }
  }

  function IntentRow(ws: string, id: Id, it: Intent, defaultHorizon: real, now: real): Memory {
    var horizon := if it.horizon.Some? then it.horizon.value else defaultHorizon;
    Memory(id, Predictive, ForwardIntent, ws, it.text, Truncate(it.text, 80), ["predicted"], "l6_predict", "", now, "", "",
           "", false, [], "", None, Number(now + horizon))
  }

  /** The intents that have a text, in order. */
  function WithText(intents: seq<Intent>): seq<Intent> {
    if intents == [] then [] else
      WithText(intents[..|intents| - 1]) +
      if intents[|intents| - 1].text != "" then [intents[|intents| - 1]] else []
  }

  /** t has one new row in s for each of the intents, under the given ids, and changes nothing else. */
  ghost predicate IntentsAdded(s: State, t: State, ws: string, intents: seq<Intent>, ids: seq<Id>,
                               defaultHorizon: real, now: real) {
    && |ids| == |intents| && Distinct(ids)
    && (forall k :: 0 <= k < |ids| ==>
          && ids[k] !in s.memories && ids[k] in t.memories
          && t.memories[ids[k]] == IntentRow(ws, ids[k], intents[k], defaultHorizon, now))
    && (forall id :: id in t.memories <==> id in s.memories || id in ids)
    && (forall id :: id in s.memories ==> t.memories[id] == s.memories[id])
    && t.edges == s.edges
  }

  /** The row of an intent: it is live, and expires once its horizon, or the default one, is over. */
  ghost predicate StoredIntent(t: State, ws: string, id: Id, it: Intent, defaultHorizon: real, now: real) {
    var until := now + if it.horizon.Some? then it.horizon.value else defaultHorizon;
    && id in t.memories
    && var m := t.memories[id];
    && m.content == it.text && m.layer == Predictive && m.typ == ForwardIntent && m.workspace == ws
    && m.supersededBy == "" && !m.superseded && m.createdAt == now && m.validTo == Number(until)
    && m.summary == (if |it.text| <= 80 then it.text else it.text[..80])
    && m.tags == ["predicted"] && m.source == "l6_predict"
    && (forall time :: IsExpired(t, ws, time, id) <==> time > until)
  }

  lemma IntentsAreStored(s: State, t: State, ws: string, intents: seq<Intent>, ids: seq<Id>, defaultHorizon: real,
                         now: real)
    requires IntentsAdded(s, t, ws, intents, ids, defaultHorizon, now)
    ensures forall k :: 0 <= k < |ids| ==> StoredIntent(t, ws, ids[k], intents[k], defaultHorizon, now)
  {
  }

  /** They are the intents with a text, in their order. */
  lemma {:induction false} TextsInOrder(intents: seq<Intent>) returns (at: seq<nat>)
    ensures |at| == |WithText(intents)|
    ensures forall j :: 0 <= j < |at| ==> at[j] < |intents| && WithText(intents)[j] == intents[at[j]]
    ensures forall i, j :: 0 <= i < j < |at| ==> at[i] < at[j]
    ensures forall i: nat :: i in at <==> i < |intents| && intents[i].text != ""
  {
    if intents == [] {
      at := [];
    } else {
      var n := |intents| - 1;
      at := TextsInOrder(intents[..n]);
      if intents[n].text != "" {
        at := at + [n];
      }
    }
  }

  lemma IntentsAddedNext(s: State, t: State, u: State, ws: string, intents: seq<Intent>, ids: seq<Id>,
                         defaultHorizon: real, now: real, it: Intent, id: Id)
    requires IntentsAdded(s, t, ws, intents, ids, defaultHorizon, now) && id !in t.memories
    requires u == PutRow(t, IntentRow(ws, id, it, defaultHorizon, now))
    ensures IntentsAdded(s, u, ws, intents + [it], ids + [id], defaultHorizon, now)
  {
    DistinctSnoc(ids, id);
  }

  /** Stores the intents that have a text. */
  method StoreIntents(store: Store, ws: string, intents: seq<Intent>, defaultHorizon: real, now: real)
    returns (predictions: nat, ghost ids: seq<Id>)
    requires store.Valid()
    modifies store`memories
    ensures store.Valid() && predictions == |WithText(intents)|
    ensures IntentsAdded(old(store.Now()), store.Now(), ws, WithText(intents), ids, defaultHorizon, now)
  {
    ghost var s := store.Now();
    predictions, ids := 0, [];
    for i := 0 to |intents|
      invariant store.Valid() && predictions == |WithText(intents[..i])|
      invariant IntentsAdded(s, store.Now(), ws, WithText(intents[..i]), ids, defaultHorizon, now)
    {
      assert intents[..i + 1][..i] == intents[..i];
      if intents[i].text != "" {
        ghost var t := store.Now();
        var id := store.NewId();
        store.PutMemory(IntentRow(ws, id, intents[i], defaultHorizon, now));
        IntentsAddedNext(s, t, store.Now(), ws, WithText(intents[..i]), ids, defaultHorizon, now, intents[i], id);
        predictions, ids := predictions + 1, ids + [id];
      }
    }
    assert intents[..|intents|] == intents;
  }

  /** The episodes newer than the watermark, at most cap of them, oldest first. */
  method SelectWindow(store: Store, ws: string, watermark: real, cap: nat) returns (window: seq<Memory>)
    requires store.Valid()
    ensures Rows(store.Now(), window)
    ensures IsOldest(Ahead(store.Now(), ws, watermark), cap, Ids(window))
  {
    ghost var s := store.Now();
    var episodes := store.IterMemories(ws, Some(Episodic), None);
    var recent: seq<Memory> := [];
    for i := 0 to |episodes|
      invariant Rows(s, recent)
      invariant forall m :: m in recent ==> IsAhead(s, ws, watermark, m.id)
      invariant forall j :: 0 <= j < i && IsAhead(s, ws, watermark, episodes[j].id) ==> episodes[j] in recent
      invariant forall k, j :: 0 <= k < |recent| && i <= j < |episodes| ==> recent[k].id != episodes[j].id
    {
      assert episodes[i] in episodes;
      if episodes[i].createdAt > watermark {
        recent := recent + [episodes[i]];
      }
    }
    forall id | IsAhead(s, ws, watermark, id) ensures s.memories[id] in recent {
      assert s.memories[id] in episodes;
    }
    window := Oldest(recent, cap);
    RecentListed(s, ws, watermark, recent);
    OldestIsOldest(s, Ahead(s, ws, watermark), recent, cap);
  }

  lemma RecentListed(s: State, ws: string, watermark: real, recent: seq<Memory>)
    requires WellFormed(s) && Rows(s, recent)
    requires forall m :: m in recent ==> IsAhead(s, ws, watermark, m.id)
    requires forall id :: IsAhead(s, ws, watermark, id) ==> s.memories[id] in recent
    ensures AgesListed(s, Ahead(s, ws, watermark), recent)
  {
  }

  /** The last of a nonempty window is what the watermark moves to. */
  lemma AdvanceToWindow(s: State, ws: string, watermark: real, cap: nat, window: seq<Memory>)
    requires Rows(s, window) && IsOldest(Ahead(s, ws, watermark), cap, Ids(window)) && window != []
    ensures Advance(Ahead(s, ws, watermark), watermark, Ids(window)) == window[|window| - 1].createdAt
  {
    assert Ids(window)[|window| - 1] == window[|window| - 1].id;
    assert Ids(window)[|window| - 1] in Ahead(s, ws, watermark);
  }

  lemma SweepKeepsAhead(s: State, t: State, ws: string, now: real, watermark: real)
    requires Swept(s, t, ws, now)
    ensures Ahead(t, ws, watermark) == Ahead(s, ws, watermark)
  {
    forall id ensures IsAhead(t, ws, watermark, id) <==> IsAhead(s, ws, watermark, id) {}
  }

  /** One prediction. watermark is the stored one, 0 when absent; predict is the model, its None an error.
      swept is the state between the sweep and the prediction. */
  method PredictL6(store: Store, ws: string, watermark: real, cap: nat, defaultHorizon: real,
                   llm: Option<seq<string> -> Option<seq<Intent>>>, now: real)
    returns (ok: bool, report: Report, watermark': real, window: seq<Memory>, ghost swept: State,
             ghost ids: seq<Id>)
    requires store.Valid()
    modifies store
    ensures store.Valid()
    ensures llm.None? ==> ok && report.skipped && store.Now() == old(store.Now()) && watermark' == watermark
    ensures llm.Some? ==> !report.skipped && Swept(old(store.Now()), swept, ws, now)
    ensures llm.Some? ==> IsOldest(Ahead(old(store.Now()), ws, watermark), cap, Ids(window)) && report.seen == |window|
    ensures llm.Some? ==> Rows(swept, window)
    ensures llm.Some? ==> report.expired == |ExpiredIds(old(store.Now()), ws, now)|
    ensures llm.Some? && window == [] ==> ok && store.Now() == swept && watermark' == watermark
    ensures llm.Some? && window != [] ==> (ok <==> llm.value(Contents(window)).Some?)
    ensures !ok ==> store.Now() == swept && watermark' == watermark
    ensures llm.Some? && ok ==> watermark' == Advance(Ahead(old(store.Now()), ws, watermark), watermark, Ids(window))
    ensures llm.Some? && ok && window != [] ==>
      var intents := llm.value(Contents(window)).value;
      report.predictions == |WithText(intents)|
      && IntentsAdded(swept, store.Now(), ws, WithText(intents), ids, defaultHorizon, now)
    ensures llm.Some? && ok && window != [] ==>
      var intents := WithText(llm.value(Contents(window)).value);
      |ids| == |intents|
      && forall k :: 0 <= k < |ids| ==> StoredIntent(store.Now(), ws, ids[k], intents[k], defaultHorizon, now)
    // so the call is a prediction of the runs below
    ensures llm.Some? ==> exists intents :: Predicts(Moment(old(store.Now()), watermark),
      Prediction(ws, ok, watermark', window, swept, intents, ids, defaultHorizon, now),
      Moment(store.Now(), watermark'), cap)
  {
    window, watermark', swept, ids := [], watermark, store.Now(), [];
    if llm.None? {
      return true, Report(0, 0, 0, true), watermark, [], swept, [];
    }
    ghost var s := store.Now();
    var expired := SweepExpired(store, ws, now);
    swept := store.Now();
    SweepKeepsAhead(s, swept, ws, now, watermark);
    window := SelectWindow(store, ws, watermark, cap);
    report := Report(expired, |window|, 0, false);
    if |window| == 0 {
      ids := [];
      assert Predicts(Moment(s, watermark),
                      Prediction(ws, true, watermark, window, swept, [], ids, defaultHorizon, now),
                      Moment(store.Now(), watermark), cap);
      return true, report, watermark, window, swept, ids;
    }
    var answer := llm.value(Contents(window));
    if answer.None? {
      ids := [];
      assert Predicts(Moment(s, watermark),
                      Prediction(ws, false, watermark, window, swept, [], ids, defaultHorizon, now),
                      Moment(store.Now(), watermark), cap);
      return false, report, watermark, window, swept, ids;
    }
    var predictions;
    predictions, ids := StoreIntents(store, ws, answer.value, defaultHorizon, now);
    report := report.(predictions := predictions);
    ok, watermark' := true, window[|window| - 1].createdAt;
    AdvanceToWindow(swept, ws, watermark, cap, window);
    IntentsAreStored(swept, store.Now(), ws, WithText(answer.value), ids, defaultHorizon, now);
    assert Predicts(Moment(s, watermark),
                    Prediction(ws, ok, watermark', window, swept, WithText(answer.value), ids, defaultHorizon, now),
                    Moment(store.Now(), watermark'), cap);
  }

  // ---- Calls over a store ----

  /** The episodes of the workspace with their creation times. */
  function Episodes(s: State, ws: string): map<Id, real> {
    map id | id in s.memories && Selected(s.memories[id], ws, Some(Episodic), None) :: s.memories[id].createdAt
  }

  /** The rows and edges, and the one watermark that all workspaces share. */
  datatype Moment = Moment(store: State, watermark: real)

  /** What happens to a store between two moments. */
  datatype Act =
    | Arrival(m: Memory)             // a new episode of the workspace
    | Prediction(of: string, ok: bool, later: real, window: seq<Memory>, swept: State, intents: seq<Intent>,
                 ids: seq<Id>, defaultHorizon: real, now: real)
    | Elsewhere                      // writes that leave the episodes of the workspace and the watermark alone

  /** A prediction, for whatever workspace, does what PredictL6 promises. */
  ghost predicate Predicts(a: Moment, act: Act, b: Moment, cap: nat) {
    && act.Prediction? && b.watermark == act.later
    && Swept(a.store, act.swept, act.of, act.now) && Rows(act.swept, act.window)
    && IsOldest(Ahead(a.store, act.of, a.watermark), cap, Ids(act.window))
    && (if act.ok then
          && act.later == Advance(Ahead(a.store, act.of, a.watermark), a.watermark, Ids(act.window))
          && (b.store == act.swept
              || IntentsAdded(act.swept, b.store, act.of, act.intents, act.ids, act.defaultHorizon, act.now))
        else b == Moment(act.swept, a.watermark))
  }

  /** What happens, seen from a workspace. */
  ghost predicate Happens(a: Moment, act: Act, b: Moment, ws: string, cap: nat) {
    match act
    case Arrival(m) =>
      && m.id !in a.store.memories && Selected(m, ws, Some(Episodic), None) && m.createdAt > a.watermark
      && (forall id :: id in Episodes(a.store, ws) ==> Episodes(a.store, ws)[id] < m.createdAt)
      && b == Moment(PutRow(a.store, m), a.watermark)
    case Prediction(_, _, _, _, _, _, _, _, _) => Predicts(a, act, b, cap)
    case Elsewhere => Episodes(b.store, ws) == Episodes(a.store, ws) && b.watermark == a.watermark
  }

  /** A successful prediction for another workspace. */
  predicate Foreign(act: Act, ws: string) {
    act.Prediction? && act.ok && act.of != ws
  }

  function EventOf(act: Act, ws: string): Event {
    match act
    case Arrival(m) => Arrive(m.id, m.createdAt)
    case Prediction(of, ok, later, window, _, _, _, _, _) =>
      if !ok then Failure else if of == ws then Window(Ids(window)) else Jump(later)
    case Elsewhere => Failure
  }

  /** What a prediction for one workspace does to another: it passes over nothing there if and only if every
      episode ahead there is newer than the last of the window. */
  lemma OtherWorkspaceIff(a: Moment, act: Act, b: Moment, ws: string, cap: nat)
    requires Predicts(a, act, b, cap) && act.ok && act.window != []
    ensures Ahead(b.store, ws, b.watermark) == Ahead(a.store, ws, a.watermark) <==>
      forall id :: IsAhead(a.store, ws, a.watermark, id) ==>
        a.store.memories[id].createdAt > act.window[|act.window| - 1].createdAt
  {
    SweepKeepsAhead(a.store, act.swept, act.of, act.now, a.watermark);
    AdvanceToWindow(act.swept, act.of, a.watermark, cap, act.window);
    PredictionMoves(a, act, b, ws, cap);
    StillAhead(a, b, ws);
  }

  lemma StillAhead(a: Moment, b: Moment, ws: string)
    requires Episodes(b.store, ws) == Episodes(a.store, ws) && a.watermark <= b.watermark
    ensures Ahead(b.store, ws, b.watermark) == Newer(Ahead(a.store, ws, a.watermark), b.watermark)
    ensures Ahead(b.store, ws, b.watermark) == Ahead(a.store, ws, a.watermark) <==>
      forall id :: IsAhead(a.store, ws, a.watermark, id) ==> a.store.memories[id].createdAt > b.watermark
  {
    AheadOfEpisodes(a.store, ws, a.watermark);
    AheadOfEpisodes(b.store, ws, b.watermark);
    forall id ensures IsAhead(a.store, ws, a.watermark, id) <==> id in Ahead(a.store, ws, a.watermark) {}
    if Ahead(b.store, ws, b.watermark) == Ahead(a.store, ws, a.watermark) {
      forall id | IsAhead(a.store, ws, a.watermark, id) ensures a.store.memories[id].createdAt > b.watermark {
        assert id in Ahead(b.store, ws, b.watermark);
      }
    }
  }

  lemma AheadOfEpisodes(s: State, ws: string, watermark: real)
    ensures Ahead(s, ws, watermark) == Newer(Episodes(s, ws), watermark)
  {
  }

  lemma PredictionMoves(a: Moment, act: Act, b: Moment, ws: string, cap: nat)
    requires Predicts(a, act, b, cap)
    ensures a.watermark <= b.watermark && Episodes(b.store, ws) == Episodes(a.store, ws)
  {
    PredictionKeepsEpisodes(a.store, act.swept, b.store, act.of, ws, act.intents, act.ids, act.defaultHorizon, act.now);
    if act.ok {
      NewerAhead(a.store, act.of, a.watermark, a.watermark);
      WatermarkMonotone(Ahead(a.store, act.of, a.watermark), a.watermark, cap, Ids(act.window));
    }
  }

  function Episode(id: Id, ws: string, at: real): Memory {
    Memory(id, Episodic, Event, ws, "", "", [], "", "", at, "", "", "", false, [], "", None, Missing)
  }

  /** An input on which it does: an episode of w, a later one of v, and a call for v that cuts nothing off. */
  lemma OtherWorkspacePassedOver(cap: nat)
    requires cap > 0
    ensures var s := State(map["a" := Episode("a", "v", 2.0), "b" := Episode("b", "w", 1.0)], map[]);
      && WellFormed(s) && CutsClean([s.memories["a"]], cap)
      && IsOldest(Ahead(s, "v", 0.0), cap, ["a"])
      && IsAhead(s, "w", 0.0, "b") && !IsAhead(s, "w", Advance(Ahead(s, "v", 0.0), 0.0, ["a"]), "b")
  {
    var s := State(map["a" := Episode("a", "v", 2.0), "b" := Episode("b", "w", 1.0)], map[]);
    var age := Ahead(s, "v", 0.0);
    assert age == map["a" := 2.0];
    assert |age| == 1;
    assert Sort(NotNewer, [s.memories["a"]]) == [s.memories["a"]];
  }

  /** The timeline lists the episodes of the store and has its watermark. */
  ghost predicate Matches(t: Timeline, a: Moment, ws: string) {
    InOrder(t.episodes) && Holds(Episodes(a.store, ws), t.episodes) && t.watermark == a.watermark
  }

  /** What is ahead in the store is what is newer in the timeline. */
  lemma AheadIsNewer(t: Timeline, a: Moment, ws: string)
    requires Matches(t, a, ws)
    ensures AgeOf(t.episodes) == Episodes(a.store, ws)
    ensures Ahead(a.store, ws, a.watermark) == Newer(AgeOf(t.episodes), t.watermark)
  {
    AgeOfExact(t.episodes);
    SameHolds(AgeOf(t.episodes), Episodes(a.store, ws), t.episodes);
  }

  lemma SameHolds(a: map<Id, real>, b: map<Id, real>, episodes: seq<(Id, real)>)
    requires Holds(a, episodes) && Holds(b, episodes)
    ensures a == b
  {
    forall e ensures (e in a <==> e in b) && (e in a && e in b ==> a[e] == b[e]) {
      if e in a || e in b {
        var i :| 0 <= i < |episodes| && episodes[i].0 == e;
      }
    }
  }

  /** Neither the sweep nor the new intents touch an episode. */
  lemma PredictionKeepsEpisodes(s: State, swept: State, u: State, of: string, ws: string, intents: seq<Intent>,
                                ids: seq<Id>, defaultHorizon: real, now: real)
    requires Swept(s, swept, of, now)
    requires u == swept || IntentsAdded(swept, u, of, intents, ids, defaultHorizon, now)
    ensures Episodes(u, ws) == Episodes(s, ws)
  {
    SweepKeepsEpisodes(s, swept, of, ws, now);
    if u != swept {
      IntentsKeepEpisodes(swept, u, of, ws, intents, ids, defaultHorizon, now);
    }
  }

  lemma SweepKeepsEpisodes(s: State, swept: State, of: string, ws: string, now: real)
    requires Swept(s, swept, of, now)
    ensures Episodes(swept, ws) == Episodes(s, ws)
  {
  }

  lemma IntentsKeepEpisodes(s: State, u: State, of: string, ws: string, intents: seq<Intent>, ids: seq<Id>,
                            defaultHorizon: real, now: real)
    requires IntentsAdded(s, u, of, intents, ids, defaultHorizon, now)
    ensures Episodes(u, ws) == Episodes(s, ws)
  {
    forall id | id in u.memories && id !in s.memories ensures u.memories[id].layer == Predictive {
      var k :| 0 <= k < |ids| && ids[k] == id;
    }
  }

  lemma ArrivalMatches(t: Timeline, a: Moment, m: Memory, b: Moment, ws: string)
    requires Matches(t, a, ws) && Happens(a, Arrival(m), b, ws, 0)
    ensures Enabled(t, 0, Arrive(m.id, m.createdAt))
    ensures Matches(Next(t, Arrive(m.id, m.createdAt)), b, ws)
  {
    var before := Episodes(a.store, ws);
    forall i | 0 <= i < |t.episodes| ensures t.episodes[i].0 != m.id && t.episodes[i].1 < m.createdAt {
      assert t.episodes[i].0 in before;
    }
    assert Episodes(b.store, ws) == before[m.id := m.createdAt];
    HoldsSnoc(before, t.episodes, (m.id, m.createdAt));
  }

  /** Each act is an event of the timeline. */
  lemma ActMatches(t: Timeline, a: Moment, act: Act, b: Moment, ws: string, cap: nat)
    requires Matches(t, a, ws) && Happens(a, act, b, ws, cap)
    ensures Enabled(t, cap, EventOf(act, ws)) && Matches(Next(t, EventOf(act, ws)), b, ws)
  {
    match act
    case Arrival(m) => ArrivalMatches(t, a, m, b, ws);
    case Prediction(of, ok, _, window, _, _, _, _, _) =>
      AheadIsNewer(t, a, ws);
      PredictionMoves(a, act, b, ws, cap);
      if ok && of == ws {
        AdvanceNewer(AgeOf(t.episodes), t.watermark, Ids(window), cap);
      }
    case Elsewhere =>
  }

  lemma AdvanceNewer(age: map<Id, real>, watermark: real, window: seq<Id>, cap: nat)
    requires IsOldest(Newer(age, watermark), cap, window)
    ensures Advance(Newer(age, watermark), watermark, window) == Advance(age, watermark, window)
  {
    assert window != [] ==> window[|window| - 1] in Newer(age, watermark);
  }

  /** What a step takes off the episodes ahead of a workspace. */
  function TakenOff(a: Moment, b: Moment, ws: string): set<Id> {
    Ahead(a.store, ws, a.watermark).Keys - Ahead(b.store, ws, b.watermark).Keys
  }

  /** A call for another workspace passes over exactly what it takes off. */
  lemma ForeignPasses(t: Timeline, a: Moment, act: Act, b: Moment, ws: string, cap: nat)
    requires Matches(t, a, ws) && Predicts(a, act, b, cap) && Foreign(act, ws) && UsedIsFront(t)
    ensures Next(t, EventOf(act, ws)).passed == t.passed + TakenOff(a, b, ws)
  {
    PredictionMoves(a, act, b, ws, cap);
    StillAhead(a, b, ws);
    AheadIsNewer(t, a, ws);
    JumpPasses(t, Ahead(a.store, ws, a.watermark), Ahead(b.store, ws, b.watermark), act.later);
  }

  lemma JumpPasses(t: Timeline, ahead: map<Id, real>, after: map<Id, real>, to: real)
    requires UsedIsFront(t) && t.watermark <= to
    requires ahead == Newer(AgeOf(t.episodes), t.watermark) && after == Newer(ahead, to)
    ensures Next(t, Jump(to)).passed == t.passed + (ahead.Keys - after.Keys)
  {
    JumpPassesOver(t, to);
    forall e ensures e in ahead && e !in after <==> JumpedOver(t, to, e) { JumpTakes(t, ahead, after, to, e); }
  }

  lemma JumpTakes(t: Timeline, ahead: map<Id, real>, after: map<Id, real>, to: real, e: Id)
    requires UsedIsFront(t) && ahead == Newer(AgeOf(t.episodes), t.watermark) && after == Newer(ahead, to)
    ensures e in ahead && e !in after <==> JumpedOver(t, to, e)
  {
    AgeOfExact(t.episodes);
    if e in ahead {
      assert Stands(t.episodes, e);
    }
  }

  function EventsOf(acts: seq<Act>, ws: string): (r: seq<Event>)
    ensures |r| == |acts|
  {
    seq(|acts|, i requires 0 <= i < |acts| => EventOf(acts[i], ws))
  }

  /** The windows of the successful predictions for the workspace, end to end. */
  function WindowsOf(acts: seq<Act>, ws: string): seq<Id> {
    if acts == [] then []
    else
      (if acts[0].Prediction? && acts[0].ok && acts[0].of == ws then Ids(acts[0].window) else [])
      + WindowsOf(acts[1..], ws)
  }

  /** What the calls for other workspaces took off. */
  function PassedOver(moments: seq<Moment>, acts: seq<Act>, ws: string): set<Id>
    requires |moments| == |acts| + 1
    decreases |acts|
  {
    if acts == [] then {}
    else
      (if Foreign(acts[0], ws) then TakenOff(moments[0], moments[1], ws) else {})
      + PassedOver(moments[1..], acts[1..], ws)
  }

  ghost predicate Chain(moments: seq<Moment>, acts: seq<Act>, ws: string, cap: nat) {
    && |moments| == |acts| + 1
    && (forall i :: 0 <= i < |acts| ==> Happens(moments[i], acts[i], moments[i + 1], ws, cap))
  }

  lemma ChainTail(moments: seq<Moment>, acts: seq<Act>, ws: string, cap: nat)
    requires Chain(moments, acts, ws, cap) && acts != []
    ensures Happens(moments[0], acts[0], moments[1], ws, cap) && Chain(moments[1..], acts[1..], ws, cap)
  {
    forall i | 0 <= i < |acts| - 1 ensures Happens(moments[1..][i], acts[1..][i], moments[1..][i + 1], ws, cap) {
      assert Happens(moments[i + 1], acts[i + 1], moments[i + 2], ws, cap);
    }
  }

  lemma RunsFirst(t: Timeline, cap: nat, acts: seq<Act>, ws: string)
    requires acts != [] && Enabled(t, cap, EventOf(acts[0], ws))
    requires Runs(Next(t, EventOf(acts[0], ws)), cap, EventsOf(acts[1..], ws))
    ensures Runs(t, cap, EventsOf(acts, ws))
    ensures After(t, EventsOf(acts, ws)) == After(Next(t, EventOf(acts[0], ws)), EventsOf(acts[1..], ws))
  {
    assert EventsOf(acts, ws)[0] == EventOf(acts[0], ws) && EventsOf(acts, ws)[1..] == EventsOf(acts[1..], ws);
  }

  lemma UsedFirst(t: Timeline, acts: seq<Act>, ws: string)
    requires acts != []
    ensures Next(t, EventOf(acts[0], ws)).used + WindowsOf(acts[1..], ws) == t.used + WindowsOf(acts, ws)
  {
    var part := if acts[0].Prediction? && acts[0].ok && acts[0].of == ws then Ids(acts[0].window) else [];
    assert Next(t, EventOf(acts[0], ws)).used == t.used + part;
    ConcatAssociative(t.used, part, WindowsOf(acts[1..], ws));
  }

  lemma ConcatAssociative<T>(a: seq<T>, b: seq<T>, c: seq<T>)
    ensures (a + b) + c == a + (b + c)
  {
  }

  lemma PassedFirst(t: Timeline, moments: seq<Moment>, acts: seq<Act>, ws: string, cap: nat)
    requires Chain(moments, acts, ws, cap) && acts != [] && UsedIsFront(t) && Matches(t, moments[0], ws)
    ensures Next(t, EventOf(acts[0], ws)).passed + PassedOver(moments[1..], acts[1..], ws)
      == t.passed + PassedOver(moments, acts, ws)
  {
    assert Happens(moments[0], acts[0], moments[1], ws, cap);
    if Foreign(acts[0], ws) {
      ForeignPasses(t, moments[0], acts[0], moments[1], ws, cap);
    }
  }

  /** Over any run of a store in which the episodes of a workspace arrive at distinct, increasing times: what the
      successful calls for the workspace have used, window after window, is a front of its episodes in time order
      less what the calls for other workspaces took off, and the watermark never goes back. */
  lemma {:induction false} PredictionsFollowTimeline(moments: seq<Moment>, acts: seq<Act>, ws: string, cap: nat,
                                                     t: Timeline)
    returns (u: Timeline)
    requires Chain(moments, acts, ws, cap) && UsedIsFront(t) && Matches(t, moments[0], ws)
    ensures UsedIsFront(u) && Matches(u, moments[|acts|], ws)
    ensures u.used == t.used + WindowsOf(acts, ws) && t.watermark <= u.watermark
    ensures u.passed == t.passed + PassedOver(moments, acts, ws)
    ensures Runs(t, cap, EventsOf(acts, ws)) && u == After(t, EventsOf(acts, ws))
    decreases |acts|
  {
    if acts == [] {
      u := t;
      assert EventsOf(acts, ws) == [];
      assert t.used + [] == t.used;
    } else {
      var next := Next(t, EventOf(acts[0], ws));
      ChainTail(moments, acts, ws, cap);
      ActMatches(t, moments[0], acts[0], moments[1], ws, cap);
      NextKeepsFront(t, cap, EventOf(acts[0], ws));
      PassedFirst(t, moments, acts, ws, cap);
      u := PredictionsFollowTimeline(moments[1..], acts[1..], ws, cap, next);
      RunsFirst(t, cap, acts, ws);
      UsedFirst(t, acts, ws);
    }
  }

  /** No call for another workspace passed over anything of this one. */
  ghost predicate NothingTaken(moments: seq<Moment>, acts: seq<Act>, ws: string)
    requires |moments| == |acts| + 1
  {
    forall i :: 0 <= i < |acts| && Foreign(acts[i], ws) ==> TakenOff(moments[i], moments[i + 1], ws) == {}
  }

  /** What was used is the whole front of the timeline: no gap, no repeat. */
  ghost predicate Gapless(t: Timeline) {
    |t.used| == t.front <= |t.episodes| && forall i :: 0 <= i < t.front ==> t.used[i] == t.episodes[i].0
  }

  /** So the windows for a workspace are a front of its episodes without a gap if and only if no call for another
      one passed over anything of it. */
  lemma NoGapIff(moments: seq<Moment>, acts: seq<Act>, ws: string, cap: nat, t: Timeline)
    requires Chain(moments, acts, ws, cap) && UsedIsFront(t) && t.passed == {} && Matches(t, moments[0], ws)
    ensures Gapless(After(t, EventsOf(acts, ws))) <==> NothingTaken(moments, acts, ws)
  {
    var u := PredictionsFollowTimeline(moments, acts, ws, cap, t);
    assert UsedIsFront(u) && u.passed == PassedOver(moments, acts, ws);
    AllUsedIff(u);
    NoneTakenOff(moments, acts, ws);
  }

  lemma AllUsedIff(t: Timeline)
    requires UsedIsFront(t)
    ensures Gapless(t) <==> t.passed == {}
  {
    if t.passed == {} {
      WithoutNone(t.episodes[..t.front]);
    } else {
      var e :| e in t.passed;
      assert e in Between(t.episodes, 0, t.front);
      var i :| 0 <= i < t.front && t.episodes[i].0 == e;
      WithoutShorter(t.episodes[..t.front], t.passed, i);
    }
  }

  lemma {:induction false} WithoutShorter(episodes: seq<(Id, real)>, passed: set<Id>, i: nat)
    requires i < |episodes| && episodes[i].0 in passed
    ensures |Without(episodes, passed)| < |episodes|
  {
    var last := |episodes| - 1;
    if i < last {
      WithoutShorter(episodes[..last], passed, i);
    } else {
      WithoutAtMost(episodes[..last], passed);
    }
  }

  lemma {:induction false} WithoutAtMost(episodes: seq<(Id, real)>, passed: set<Id>)
    ensures |Without(episodes, passed)| <= |episodes|
  {
    if episodes != [] {
      WithoutAtMost(episodes[..|episodes| - 1], passed);
    }
  }

  lemma {:induction false} NoneTakenOff(moments: seq<Moment>, acts: seq<Act>, ws: string)
    requires |moments| == |acts| + 1
    ensures PassedOver(moments, acts, ws) == {} <==> NothingTaken(moments, acts, ws)
    decreases |acts|
  {
    if acts != [] {
      NoneTakenOff(moments[1..], acts[1..], ws);
      forall i | 0 <= i < |acts| - 1
        ensures Foreign(acts[1..][i], ws) <==> Foreign(acts[i + 1], ws)
        ensures TakenOff(moments[1..][i], moments[1..][i + 1], ws) == TakenOff(moments[i + 1], moments[i + 2], ws)
      {}
      if PassedOver(moments, acts, ws) == {} {
        forall i | 0 <= i < |acts| && Foreign(acts[i], ws) ensures TakenOff(moments[i], moments[i + 1], ws) == {} {
          if i > 0 {
            assert Foreign(acts[1..][i - 1], ws);
          }
        }
      }
    }
  }
}
