/** Taking the oldest few out of a backlog of episodes. */
module Backlogs {
  import opened Sorting
  import opened Graph

  // ---- What a selection must be ----

  predicate Elder(age: map<Id, real>, a: Id, b: Id) {
    a in age && b in age && age[a] <= age[b]
  }

  /** taken lists the oldest min(n, |age|) of the episodes, oldest first. age maps an episode to its
      creation time. */
  ghost predicate IsOldest(age: map<Id, real>, n: nat, taken: seq<Id>) {
    && |taken| == (if |age| < n then |age| else n)
    && Distinct(taken)
    && (forall i :: 0 <= i < |taken| ==> taken[i] in age)
    && (forall i, j :: 0 <= i < j < |taken| ==> Elder(age, taken[i], taken[j]))
    && (forall i, e :: 0 <= i < |taken| && e in age && e !in taken ==> Elder(age, taken[i], e))
  }

  function Elements(s: seq<Id>): set<Id> {
    set x | x in s
  }

  lemma TakenSize(age: map<Id, real>, n: nat, taken: seq<Id>)
    requires IsOldest(age, n, taken)
    ensures |age - Elements(taken)| == |age| - |taken|
  {
    DistinctSize(taken, Elements(taken));
    assert (age - Elements(taken)).Keys == age.Keys - Elements(taken);
    assert Elements(taken) <= age.Keys;
    assert |age.Keys - Elements(taken)| == |age.Keys| - |Elements(taken)|;
  }

  // ---- Selecting among rows ----

  function Ids(ms: seq<Memory>): (r: seq<Id>)
    ensures |r| == |ms| && forall i :: 0 <= i < |ms| ==> r[i] == ms[i].id
  {
    seq(|ms|, i requires 0 <= i < |ms| => ms[i].id)
  }

  function Ages(ms: seq<Memory>): (r: seq<real>)
    ensures |r| == |ms| && forall i :: 0 <= i < |ms| ==> r[i] == ms[i].createdAt
  {
    seq(|ms|, i requires 0 <= i < |ms| => ms[i].createdAt)
  }

  predicate NotNewer(a: Memory, b: Memory) {
    a.createdAt <= b.createdAt
  }

  /** The front of the listing sorted by creation time; ties stay in listing order. */
  function Oldest(pending: seq<Memory>, n: nat): seq<Memory> {
    var sorted := Sort(NotNewer, pending);
    if |sorted| > n then sorted[..n] else sorted
  }

  /** Rows of s, each once. */
  ghost predicate Rows(s: State, ms: seq<Memory>) {
    && (forall i :: 0 <= i < |ms| ==> ms[i].id in s.memories && s.memories[ms[i].id] == ms[i])
    && (forall i, j :: 0 <= i < j < |ms| ==> ms[i].id != ms[j].id)
  }

  /** age gives the creation times of exactly the listed rows. */
  ghost predicate AgesListed(s: State, age: map<Id, real>, ms: seq<Memory>) {
    && Rows(s, ms)
    && (forall m :: m in ms ==> m.id in age && age[m.id] == m.createdAt)
    && (forall id :: id in age ==> id in s.memories && s.memories[id].id == id && s.memories[id] in ms)
  }

  lemma SortedRows(s: State, age: map<Id, real>, ms: seq<Memory>)
    requires AgesListed(s, age, ms)
    ensures AgesListed(s, age, Sort(NotNewer, ms)) && Sorted(NotNewer, Sort(NotNewer, ms))
    ensures forall m :: m in Sort(NotNewer, ms) <==> m in ms
  {
    var sorted := Sort(NotNewer, ms);
    assert TotalPreorder(NotNewer);
    SortCorrect(NotNewer, ms);
    forall m ensures m in sorted <==> m in ms {
      assert m in multiset(sorted) <==> m in multiset(ms);
    }
    DistinctPermutation(ms, sorted);
    forall i | 0 <= i < |sorted| ensures sorted[i].id in s.memories && s.memories[sorted[i].id] == sorted[i] {
      assert sorted[i] in ms;
    }
  }

  /** The sorted listing as ids and ages. */
  ghost predicate Listing(age: map<Id, real>, ids: seq<Id>, ages: seq<real>) {
    && |ages| == |ids| == |age| && Distinct(ids)
    && (forall i :: 0 <= i < |ids| ==> ids[i] in age && age[ids[i]] == ages[i])
    && (forall e :: e in age ==> e in ids)
    && (forall i, j :: 0 <= i < j < |ages| ==> ages[i] <= ages[j])
  }

  lemma SortedIsListing(s: State, age: map<Id, real>, sorted: seq<Memory>)
    requires AgesListed(s, age, sorted) && Sorted(NotNewer, sorted)
    ensures Listing(age, Ids(sorted), Ages(sorted))
  {
    forall i | 0 <= i < |sorted| ensures sorted[i].id in age && age[sorted[i].id] == sorted[i].createdAt {
      assert sorted[i] in sorted;
    }
    forall id ensures id in Ids(sorted) <==> id in age.Keys {
      if id in age.Keys {
        var i :| 0 <= i < |sorted| && sorted[i] == s.memories[id];
        assert Ids(sorted)[i] == id;
      }
      if i :| 0 <= i < |sorted| && Ids(sorted)[i] == id {
        assert sorted[i] in sorted;
      }
    }
    DistinctSize(Ids(sorted), age.Keys);
    forall i, j | 0 <= i < j < |sorted| ensures Ages(sorted)[i] <= Ages(sorted)[j] {
      assert NotNewer(sorted[i], sorted[j]);
    }
  }

  lemma FrontIsOldest(age: map<Id, real>, ids: seq<Id>, ages: seq<real>, n: nat, taken: seq<Id>)
    requires Listing(age, ids, ages) && taken == ids[..if |ids| > n then n else |ids|]
    ensures IsOldest(age, n, taken)
  {
    forall i, e | 0 <= i < |taken| && e in age && e !in taken ensures Elder(age, taken[i], e) {
      var j :| 0 <= j < |ids| && ids[j] == e;
      assert forall k :: 0 <= k < |taken| ==> ids[k] == taken[k] && taken[k] != e;
    }
  }

  lemma CutRows(s: State, age: map<Id, real>, sorted: seq<Memory>, k: nat)
    requires AgesListed(s, age, sorted) && Sorted(NotNewer, sorted) && k <= |sorted|
    ensures Rows(s, sorted[..k]) && Sorted(NotNewer, sorted[..k]) && Ids(sorted[..k]) == Ids(sorted)[..k]
    ensures forall i :: 0 <= i < k ==> sorted[..k][i] in sorted
  {
  }

  /** Sorting and cutting takes the oldest. */
  lemma OldestIsOldest(s: State, age: map<Id, real>, pending: seq<Memory>, n: nat)
    requires AgesListed(s, age, pending)
    ensures Rows(s, Oldest(pending, n)) && IsOldest(age, n, Ids(Oldest(pending, n)))
    ensures forall i :: 0 <= i < |Oldest(pending, n)| ==> Oldest(pending, n)[i] in pending
    ensures Sorted(NotNewer, Oldest(pending, n))
  {
    SortedRows(s, age, pending);
    var sorted := Sort(NotNewer, pending);
    var k := if |sorted| > n then n else |sorted|;
    assert Oldest(pending, n) == sorted[..k];
    CutRows(s, age, sorted, k);
    SortedIsListing(s, age, sorted);
    FrontIsOldest(age, Ids(sorted), Ages(sorted), n, Ids(sorted[..k]));
  }
}
