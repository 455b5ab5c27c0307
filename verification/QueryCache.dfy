/** The least-recently-used cache in front of the embedding provider. */
module QueryCache {
  import opened Sorting
  import opened Wrappers

  type Vec = seq<real>

  // ---- Recency ----

  /** s without x. */
  function Without<T(==, !new)>(s: seq<T>, x: T): (r: seq<T>)
    ensures forall t :: t in r <==> t in s && t != x
  {
    if s == [] then [] else (if s[0] == x then [] else [s[0]]) + Without(s[1..], x)
  }

  /** The distinct texts of a request history, the least recently requested first. */
  function Recent<T(==, !new)>(history: seq<T>): (r: seq<T>)
    ensures forall t :: t in r <==> t in history
  {
    if history == [] then []
    else
      var last := |history| - 1;
      Without(Recent(history[..last]), history[last]) + [history[last]]
  }

  /** The last k elements of s, or all of it. */
  function LastOf<T(==, !new)>(s: seq<T>, k: nat): seq<T> {
    if |s| <= k then s else s[|s| - k..]
  }

  lemma {:induction false} WithoutDistinct<T(!new)>(s: seq<T>, x: T)
    requires Distinct(s)
    ensures Distinct(Without(s, x))
  {
    if s != [] {
      WithoutDistinct(s[1..], x);
      if s[0] != x {
        assert s[0] !in s[1..];
        DistinctCons(Without(s[1..], x), s[0]);
      }
    }
  }

  lemma {:induction false} WithoutConcat<T(!new)>(a: seq<T>, b: seq<T>, x: T)
    ensures Without(a + b, x) == Without(a, x) + Without(b, x)
  {
    if a == [] {
      assert a + b == b;
    } else {
      assert (a + b)[1..] == a[1..] + b;
      WithoutConcat(a[1..], b, x);
    }
  }

  lemma {:induction false} WithoutAbsent<T(!new)>(s: seq<T>, x: T)
    requires x !in s
    ensures Without(s, x) == s
  {
    if s != [] {
      WithoutAbsent(s[1..], x);
    }
  }

  lemma WithoutHead<T(!new)>(s: seq<T>, x: T)
    requires x !in s
    ensures Without([x] + s, x) == s
  {
    assert ([x] + s)[1..] == s;
    WithoutAbsent(s, x);
  }

  lemma WithoutBetween<T(!new)>(a: seq<T>, b: seq<T>, x: T)
    requires x !in a && x !in b
    ensures Without(a + ([x] + b), x) == a + b
  {
    WithoutConcat(a, [x] + b, x);
    WithoutAbsent(a, x);
    WithoutHead(b, x);
  }

  lemma ApartFrom<T(!new)>(s: seq<T>, i: nat)
    requires Distinct(s) && i < |s|
    ensures s[i] !in s[..i] && s[i] !in s[i + 1..]
  {
  }

  lemma CutAt<T(!new)>(s: seq<T>, i: nat)
    requires i < |s|
    ensures s == s[..i] + ([s[i]] + s[i + 1..])
  {
  }

  lemma WithoutAt<T(!new)>(s: seq<T>, i: nat)
    requires Distinct(s) && i < |s|
    ensures Without(s, s[i]) == s[..i] + s[i + 1..]
  {
    ApartFrom(s, i);
    WithoutBetween(s[..i], s[i + 1..], s[i]);
    CutAt(s, i);
  }

  lemma MovedLast<T(!new)>(s: seq<T>, i: nat)
    requires Distinct(s) && i < |s|
    ensures var moved := s[..i] + s[i + 1..] + [s[i]];
      Distinct(moved) && forall t :: t in moved <==> t in s
  {
    WithoutAt(s, i);
    WithoutDistinct(s, s[i]);
    DistinctSnoc(Without(s, s[i]), s[i]);
  }

  lemma FirstDropped<T(!new)>(s: seq<T>)
    requires Distinct(s) && s != []
    ensures Distinct(s[1..]) && forall t :: t in s[1..] <==> t in s && t != s[0]
  {
    assert s == [s[0]] + s[1..];
  }

  lemma {:induction false} RecentDistinct<T(!new)>(history: seq<T>)
    ensures Distinct(Recent(history))
  {
    if history != [] {
      var last := |history| - 1;
      RecentDistinct(history[..last]);
      WithoutDistinct(Recent(history[..last]), history[last]);
      DistinctSnoc(Without(Recent(history[..last]), history[last]), history[last]);
    }
  }

  lemma RecentSnoc<T(!new)>(history: seq<T>, text: T)
    ensures Recent(history + [text]) == Without(Recent(history), text) + [text]
  {
    assert (history + [text])[..|history|] == history;
  }

  /** What was requested since the last request for text comes behind it, in its own order of recency. */
  lemma {:induction false} RecentSplit<T(!new)>(before: seq<T>, text: T, since: seq<T>) returns (front: seq<T>)
    requires text !in since
    ensures Recent(before + [text] + since) == front + [text] + Recent(since)
  {
    if since == [] {
      assert before + [text] + since == before + [text];
      RecentSnoc(before, text);
      front := Without(Recent(before), text);
    } else {
      var last := |since| - 1;
      var x := since[last];
      var shorter := RecentSplit(before, text, since[..last]);
      assert since == since[..last] + [x];
      assert before + [text] + since == (before + [text] + since[..last]) + [x];
      RecentSnoc(before + [text] + since[..last], x);
      RecentSnoc(since[..last], x);
      WithoutConcat(shorter + [text], Recent(since[..last]), x);
      WithoutConcat(shorter, [text], x);
      WithoutAbsent([text], x);
      front := Without(shorter, x);
    }
  }

  /** A text is among the k most recent if and only if fewer than k other texts were requested since. */
  lemma KeptIffFewSince<T(!new)>(before: seq<T>, text: T, since: seq<T>, k: nat)
    requires text !in since
    ensures text in LastOf(Recent(before + [text] + since), k) <==> |(set t | t in since)| < k
  {
    var front := RecentSplit(before, text, since);
    var all := Recent(before + [text] + since);
    RecentDistinct(before + [text] + since);
    RecentDistinct(since);
    DistinctSize(Recent(since), set t | t in since);
    assert all[|front|] == text;
    AmongLast(all, |front|, k);
  }

  lemma AmongLast<T(!new)>(s: seq<T>, i: nat, k: nat)
    requires Distinct(s) && i < |s|
    ensures s[i] in LastOf(s, k) <==> |s| - i <= k
  {
    var kept := LastOf(s, k);
    if |s| - i <= k {
      assert |s| > k ==> kept[i - (|s| - k)] == s[i];
    } else {
      forall j | 0 <= j < |kept| ensures kept[j] != s[i] {
        assert kept[j] == s[|s| - k + j];
      }
    }
  }

  lemma NeverRequestedNotKept<T(!new)>(history: seq<T>, text: T, k: nat)
    requires text !in history
    ensures text !in LastOf(Recent(history), k)
  {
    assert forall t :: t in LastOf(Recent(history), k) ==> t in Recent(history);
  }

  lemma LastOfOneMore<T(!new)>(s: seq<T>, k: nat)
    requires |s| <= k + 1
    ensures LastOf(s, k) == if |s| > k then s[1..] else s
  {
  }

  lemma LastOfConcat<T(!new)>(a: seq<T>, b: seq<T>, k: nat)
    requires |b| >= k
    ensures LastOf(a + b, k) == LastOf(b, k)
  {
  }

  /** The cached order can be maintained from itself: move or append the text, then drop the oldest. */
  lemma OrderStep<T(!new)>(s: seq<T>, text: T, k: nat)
    requires Distinct(s)
    ensures LastOf(Without(s, text) + [text], k) == LastOf(Without(LastOf(s, k), text) + [text], k)
  {
    if |s| > k {
      var front, kept := s[..|s| - k], LastOf(s, k);
      assert s == front + kept;
      WithoutConcat(front, kept, text);
      assert Without(s, text) + [text] == Without(front, text) + (Without(kept, text) + [text]);
      if text in kept {
        var i :| 0 <= i < |kept| && kept[i] == text;
        assert Distinct(kept);
        WithoutAt(kept, i);
      } else {
        WithoutAbsent(kept, text);
      }
      LastOfConcat(Without(front, text), Without(kept, text) + [text], k);
    }
  }

  /** What a request makes of the order: a text that is listed moves to the end; another is appended, and
      the oldest goes if that is one too many. */
  lemma OrderNext<T(!new)>(history: seq<T>, text: T, k: nat)
    ensures var order, next := LastOf(Recent(history), k), LastOf(Recent(history + [text]), k);
      && Distinct(order) && Distinct(next)
      && (forall i :: 0 <= i < |order| && order[i] == text ==> next == order[..i] + order[i + 1..] + [text])
      && (text !in order ==> next == LastOf(order + [text], k))
  {
    var order := LastOf(Recent(history), k);
    RecentDistinct(history);
    RecentDistinct(history + [text]);
    RecentSnoc(history, text);
    OrderStep(Recent(history), text, k);
    forall i | 0 <= i < |order| && order[i] == text
      ensures Without(order, text) == order[..i] + order[i + 1..]
    {
      WithoutAt(order, i);
    }
    if text !in order {
      WithoutAbsent(order, text);
    }
  }

  // ---- The cache ----

  class CachedEmbedding {
    const inner: string -> Vec
    const size: int
    var order: seq<string>
    var idx: map<string, nat>
    var cache: map<string, Vec>
    ghost var history: seq<string>   // the texts requested with success

    constructor (inner: string -> Vec, size: int)
      ensures this.inner == inner && this.size == size
      ensures Valid() && history == []
    {
      this.inner, this.size := inner, size;
      order, idx, cache, history := [], map[], map[], [];
    }

    ghost function Capacity(): nat {
      if size < 0 then 0 else size
    }

    ghost predicate Indexed()
      reads this
    {
      forall i :: 0 <= i < |order| ==> order[i] in idx && idx[order[i]] == i
    }

    /** idx is the inverse of the order, and the cache holds the embeddings of its texts. */
    ghost predicate Consistent()
      reads this
    {
      && Indexed()
      && (forall t :: t in idx <==> t in order)
      && (forall t :: t in cache <==> t in order)
      && (forall t :: t in cache ==> cache[t] == inner(t))
    }

    /** The order lists the most recently requested texts. */
    ghost predicate Valid()
      reads this
    {
      Consistent() && order == LastOf(Recent(history), Capacity())
    }

    /** Answers what the inner provider answers; a text that is not cached needs the provider to be up. */
    method Embed(text: string, up: bool) returns (r: Option<Vec>)
      requires Valid()
      modifies this
      ensures Valid()
      ensures r == if up || text in old(cache) then Some(inner(text)) else None
      ensures history == if r.Some? then old(history) + [text] else old(history)
    {
      if text in cache {
        Touch(text);
        r := Some(cache[text]);
      } else if up {
        Add(text);
        r := Some(inner(text));
      } else {
        return None;
      }
      history := history + [text];
    }

    /** Adds a text the inner provider has answered and drops the oldest if that is one too many. */
    method Add(text: string)
      requires Valid() && text !in cache
      modifies this`order, this`idx, this`cache
      ensures Consistent() && order == LastOf(Recent(history + [text]), Capacity())
    {
      OrderNext(history, text, Capacity());
      AddLast(text);
    }

    method AddLast(text: string)
      requires Consistent() && Distinct(order) && |order| <= Capacity() && text !in order
      modifies this`order, this`idx, this`cache
      ensures Consistent() && order == LastOf(old(order) + [text], Capacity())
    {
      cache := cache[text := inner(text)];
      order := order + [text];
      idx := idx[text := |order| - 1];
      DistinctSnoc(old(order), text);
      LastOfOneMore(order, Capacity());
      if |order| > size {
        DropOldest();
      }
    }

    /** Drops the text requested least recently. */
    method DropOldest()
      requires Consistent() && Distinct(order) && order != []
      modifies this`order, this`idx, this`cache
      ensures Consistent() && order == old(order)[1..]
    {
      FirstDropped(order);
      var oldest := order[0];
      order := order[1..];
      cache := cache - {oldest};
      idx := idx - {oldest};
      Renumber();
    }

    /** Moves text to the end of the order. */
    method Touch(text: string)
      requires Valid() && text in cache
      modifies this`order, this`idx
      ensures Consistent() && order == LastOf(Recent(history + [text]), Capacity())
    {
      OrderNext(history, text, Capacity());
      MoveLast(text);
    }

    method MoveLast(text: string)
      requires Consistent() && Distinct(order) && text in cache
      modifies this`order, this`idx
      ensures Consistent() && old(text in idx && idx[text] < |order| && order[idx[text]] == text)
      ensures order == old(order[..idx[text]] + order[idx[text] + 1..]) + [text]
    {
      var i := idx[text];
      MovedLast(order, i);
      order := order[..i] + order[i + 1..] + [text];
      Renumber();
    }

    /** Numbers the texts in order. */
    method Renumber()
      requires Distinct(order)
      modifies this`idx
      ensures Indexed()
      ensures forall t :: t in idx <==> t in old(idx) || t in order
    {
      for j := 0 to |order|
        invariant forall i :: 0 <= i < j ==> order[i] in idx && idx[order[i]] == i
        invariant forall t :: t in idx <==> t in old(idx) || t in order[..j]
      {
        idx := idx[order[j] := j];
      }
    }

    /** A text is answered without the provider if and only if it was requested before and, since then, fewer
        other texts than the cache holds. */
    lemma CachedIffFewSince(before: seq<string>, text: string, since: seq<string>)
      requires Valid() && text !in since
      ensures history == before + [text] + since ==> (text in cache <==> |(set t | t in since)| < Capacity())
      ensures text !in history ==> text !in cache
    {
      KeptIffFewSince(before, text, since, Capacity());
      if text !in history {
        NeverRequestedNotKept(history, text, Capacity());
      }
    }
  }
}
