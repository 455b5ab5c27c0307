/** Leftmost, ordered-choice, greedy matching of regular expressions over character classes, with
    lookahead: the meaning the tokenizer's patterns have. */
module Regex {

  datatype Re =
    | Class(chars: char -> bool)
    | Some1(chars: char -> bool)      // one or more, greedy
    | Optional(re: Re)                // one if possible
    | Then(first: Re, second: Re)
    | Either(first: Re, second: Re)   // the first alternative is preferred
    | Ahead(re: Re)                   // matches nothing, if re matches here

  /** The length of the run of chars at the front of s. */
  function Run(chars: char -> bool, s: string): (n: nat)
    ensures n <= |s|
  {
    if s != "" && chars(s[0]) then 1 + Run(chars, s[1..]) else 0
  }

  /** n, n - 1, .., 1 */
  function Down(n: nat): (r: seq<nat>)
    ensures |r| == n && forall i :: 0 <= i < n ==> r[i] == n - i
  {
    if n == 0 then [] else [n] + Down(n - 1)
  }

  predicate Within(lengths: seq<nat>, n: nat) {
    forall i :: 0 <= i < |lengths| ==> lengths[i] <= n
  }

  /** The lengths of the prefixes of s that match, most preferred first. */
  function Lengths(re: Re, s: string): (r: seq<nat>)
    ensures Within(r, |s|)
    decreases re, 0, |s|
  {
    match re
    case Class(chars) => if s != "" && chars(s[0]) then [1] else []
    case Some1(chars) => Down(Run(chars, s))
    case Optional(r) => Lengths(r, s) + [0]
    case Then(first, second) => Continue(second, s, Lengths(first, s))
    case Either(first, second) => Lengths(first, s) + Lengths(second, s)
    case Ahead(r) => if Lengths(r, s) != [] then [0] else []
  }

  /** Continues each of the prefixes with re. */
  function Continue(re: Re, s: string, prefixes: seq<nat>): (r: seq<nat>)
    requires Within(prefixes, |s|)
    ensures Within(r, |s|)
    decreases re, 1, |prefixes|, |s|
  {
    if prefixes == [] then []
    else
      Shift(prefixes[0], Lengths(re, s[prefixes[0]..])) + Continue(re, s, prefixes[1..])
  }

  function Shift(base: nat, lengths: seq<nat>): (r: seq<nat>)
    ensures |r| == |lengths| && forall i :: 0 <= i < |r| ==> r[i] == base + lengths[i]
  {
    seq(|lengths|, i requires 0 <= i < |lengths| => base + lengths[i])
  }

  /** The preferred match at the front of s; 0 when there is none or it is empty. */
  function First(re: Re, s: string): (n: nat)
    ensures n <= |s|
  {
    var lengths := Lengths(re, s);
    if lengths == [] then 0 else
      lengths[0]
  }

  /** All matches, from left to right, none overlapping: after a match the search goes on behind it. */
  function FindAll(re: Re, s: string): (parts: seq<string>)
    ensures forall p :: p in parts ==> p != ""
    decreases |s|
  {
    if s == "" then []
    else
      var n := First(re, s);
      if n == 0 then FindAll(re, s[1..]) else [s[..n]] + FindAll(re, s[n..])
  }

  lemma {:induction false} RunExact(chars: char -> bool, s: string)
    ensures forall i :: 0 <= i < Run(chars, s) ==> chars(s[i])
    ensures Run(chars, s) < |s| ==> !chars(s[Run(chars, s)])
  {
    if s != "" && chars(s[0]) {
      RunExact(chars, s[1..]);
      forall i | 0 <= i < Run(chars, s) ensures chars(s[i]) {
        assert i > 0 ==> s[i] == s[1..][i - 1];
      }
    }
  }

  /** The run is the length n with these two properties. */
  lemma {:induction false} RunIs(chars: char -> bool, s: string, n: nat)
    requires n <= |s| && (forall i :: 0 <= i < n ==> chars(s[i])) && (n < |s| ==> !chars(s[n]))
    ensures Run(chars, s) == n
  {
    if n > 0 {
      RunIs(chars, s[1..], n - 1);
    }
  }

  /** A run at the front of a does not reach into b when the ends do not both belong to it. */
  lemma RunCut(chars: char -> bool, a: string, b: string)
    requires a != "" && b != "" && !(chars(a[|a| - 1]) && chars(b[0]))
    ensures Run(chars, a + b) == Run(chars, a)
  {
    RunExact(chars, a);
    RunIs(chars, a + b, Run(chars, a));
  }

  /** Of the prefixes in the list, the first that re can continue decides. */
  lemma {:induction false} ContinueFrom(re: Re, s: string, prefixes: seq<nat>, i: nat)
    requires Within(prefixes, |s|)
    requires i < |prefixes| && forall j :: 0 <= j < i ==> Lengths(re, s[prefixes[j]..]) == []
    requires Lengths(re, s[prefixes[i]..]) != []
    ensures Continue(re, s, prefixes) != []
    ensures Continue(re, s, prefixes)[0] == prefixes[i] + Lengths(re, s[prefixes[i]..])[0]
  {
    if i > 0 {
      assert forall j :: 0 <= j < i ==> prefixes[1..][j] == prefixes[j + 1];
      ContinueFrom(re, s, prefixes[1..], i - 1);
    }
  }

  lemma {:induction false} ContinueNone(re: Re, s: string, prefixes: seq<nat>)
    requires Within(prefixes, |s|)
    requires forall j :: 0 <= j < |prefixes| ==> Lengths(re, s[prefixes[j]..]) == []
    ensures Continue(re, s, prefixes) == []
  {
    if prefixes != [] {
      ContinueNone(re, s, prefixes[1..]);
    }
  }
}
