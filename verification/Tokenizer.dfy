/** The embedding tokenizer on ASCII text: words and punctuation, words split at camelCase humps and
    underscores, all in lower case. */
module Tokenizer {
  import opened Regex

  predicate IsUpper(c: char) { 'A' <= c <= 'Z' }
  predicate IsLower(c: char) { 'a' <= c <= 'z' }
  predicate IsDigit(c: char) { '0' <= c <= '9' }
  predicate IsAlnum(c: char) { IsUpper(c) || IsLower(c) || IsDigit(c) }
  predicate IsWordChar(c: char) { IsAlnum(c) || c == '_' }
  predicate IsPunct(c: char) { c in ".,;:()[]{}" }

  function HumpRe(up: char -> bool, low: char -> bool): Re {
    Ahead(Then(Class(up), Class(low)))
  }

  /** [A-Z]+(?=[A-Z][a-z])|[A-Z]?[a-z]+|[A-Z]+|\d+ for given classes of capitals, small letters and digits. */
  function HumpsRe(up: char -> bool, low: char -> bool, digit: char -> bool): Re {
    Either(Then(Some1(up), HumpRe(up, low)),
    Either(Then(Optional(Class(up)), Some1(low)),
    Either(Some1(up), Some1(digit))))
  }

  function CamelRe(): Re {
    HumpsRe(IsUpper, IsLower, IsDigit)
  }

  /** [A-Za-z0-9_]+|[.,;:()\[\]{}] */
  function TokenRe(): Re {
    Either(Some1(IsWordChar), Class(IsPunct))
  }

  // ---- The preferred match of the camelCase pattern, in closed form ----

  function Step(up: char -> bool, low: char -> bool, digit: char -> bool, s: string): (n: nat)
    ensures n <= |s|
  {
    if s == "" then 0
    else if up(s[0]) then
      var u := Run(up, s);
      if 2 <= u < |s| && low(s[u]) then u - 1
      else if 1 < |s| && low(s[1]) then 1 + Run(low, s[1..])
      else u
    else if low(s[0]) then Run(low, s)
    else Run(digit, s)
  }

  ghost predicate Disjoint(up: char -> bool, low: char -> bool, digit: char -> bool) {
    forall c :: !(up(c) && low(c)) && !(up(c) && digit(c)) && !(low(c) && digit(c))
  }

  predicate AtHump(up: char -> bool, low: char -> bool, s: string) {
    |s| >= 2 && up(s[0]) && low(s[1])
  }

  /** The lookahead asks for a capital and a small letter. */
  lemma HumpAhead(re: Re, up: char -> bool, low: char -> bool, s: string)
    requires re == HumpRe(up, low)
    ensures Lengths(re, s) == if AtHump(up, low, s) then [0] else []
  {
    var first := Lengths(Class(up), s);
    assert Lengths(Then(Class(up), Class(low)), s) == Continue(Class(low), s, first);
    assert |s| >= 2 ==> s[1..][0] == s[1];
    if |s| >= 2 && up(s[0]) && low(s[1]) {
      ContinueFrom(Class(low), s, first, 0);
    } else {
      ContinueNone(Class(low), s, first);
    }
  }

  /** Behind all but i of the u leading capitals a hump starts only for i = 1 and a small letter. */
  lemma OneHump(up: char -> bool, low: char -> bool, s: string, u: nat, i: nat)
    requires u == Run(up, s) && i < u && forall c :: !(up(c) && low(c))
    ensures AtHump(up, low, s[u - i..]) <==> i == 1 && u < |s| && low(s[u])
  {
    var rest := s[u - i..];
    RunExact(up, s);
    assert |rest| == |s| - (u - i);
    if i == 0 {
      assert rest != "" ==> rest[0] == s[u] && !up(s[u]);
    } else {
      assert rest[0] == s[u - i] && up(s[u - i]);
      assert |rest| >= 2 ==> rest[1] == s[u - i + 1];
      assert i > 1 ==> up(s[u - i + 1]);
    }
  }

  lemma HumpsBehind(re: Re, up: char -> bool, low: char -> bool, s: string, u: nat, prefixes: seq<nat>)
    requires u == Run(up, s) && forall c :: !(up(c) && low(c))
    requires forall t :: Lengths(re, t) == if AtHump(up, low, t) then [0] else []
    requires |prefixes| == u && forall i :: 0 <= i < u ==> prefixes[i] == u - i
    ensures forall i :: 0 <= i < u ==>
      Lengths(re, s[prefixes[i]..]) == if i == 1 && u < |s| && low(s[u]) then [0] else []
  {
    forall i | 0 <= i < u
      ensures Lengths(re, s[prefixes[i]..]) == if i == 1 && u < |s| && low(s[u]) then [0] else []
    {
      OneHump(up, low, s, u, i);
      assert s[prefixes[i]..] == s[u - i..];
    }
  }

  /** When only the second prefix can be continued, and by nothing, it is the match. */
  lemma SecondOnly(re: Re, s: string, prefixes: seq<nat>, can: bool)
    requires Within(prefixes, |s|)
    requires forall i :: 0 <= i < |prefixes| ==> Lengths(re, s[prefixes[i]..]) == if i == 1 && can then [0] else []
    ensures var lengths := Continue(re, s, prefixes);
      if |prefixes| >= 2 && can then lengths != [] && lengths[0] == prefixes[1] else lengths == []
  {
    if |prefixes| >= 2 && can {
      ContinueFrom(re, s, prefixes, 1);
    } else {
      ContinueNone(re, s, prefixes);
    }
  }

  /** The first alternative: the run of capitals, less one when a hump follows it. */
  lemma CapitalsBeforeHump(up: char -> bool, low: char -> bool, s: string)
    requires forall c :: !(up(c) && low(c))
    ensures var lengths := Lengths(Then(Some1(up), HumpRe(up, low)), s);
      var u := Run(up, s);
      if 2 <= u < |s| && low(s[u]) then lengths != [] && lengths[0] == u - 1 else lengths == []
  {
    var u := Run(up, s);
    var prefixes := Lengths(Some1(up), s);
    var re := HumpRe(up, low);
    forall t ensures Lengths(re, t) == if AtHump(up, low, t) then [0] else [] { HumpAhead(re, up, low, t); }
    HumpsBehind(re, up, low, s, u, prefixes);
    SecondOnly(re, s, prefixes, u < |s| && low(s[u]));
  }

  lemma FirstOrSecond(re: Re, s: string, a: nat, b: nat)
    requires a <= |s| && b <= |s|
    ensures Continue(re, s, [a, b]) == Shift(a, Lengths(re, s[a..])) + Shift(b, Lengths(re, s[b..]))
    ensures Continue(re, s, [b]) == Shift(b, Lengths(re, s[b..]))
  {
    assert [a, b][1..] == [b] && [b][1..] == [];
    assert Continue(re, s, []) == [];
  }

  /** The second alternative: a run of small letters, with a capital in front if there is one. */
  lemma HumpOrRun(up: char -> bool, low: char -> bool, s: string)
    requires forall c :: !(up(c) && low(c))
    ensures var lengths := Lengths(Then(Optional(Class(up)), Some1(low)), s);
      if s != "" && up(s[0]) then
        if 1 < |s| && low(s[1]) then lengths != [] && lengths[0] == 1 + Run(low, s[1..]) else lengths == []
      else if Run(low, s) > 0 then lengths != [] && lengths[0] == Run(low, s) else lengths == []
  {
    var small := Some1(low);
    var opt := Lengths(Optional(Class(up)), s);
    assert s[0..] == s;
    if s != "" && up(s[0]) {
      assert opt == [1, 0] by { assert opt == Lengths(Class(up), s) + [0] == [1] + [0]; }
      FirstOrSecond(small, s, 1, 0);
      assert 1 < |s| ==> s[1..][0] == s[1];
    } else {
      assert opt == [0] by { assert opt == Lengths(Class(up), s) + [0] == [] + [0]; }
      FirstOrSecond(small, s, 0, 0);
    }
  }

  lemma FirstIsStep(up: char -> bool, low: char -> bool, digit: char -> bool, s: string)
    requires Disjoint(up, low, digit)
    ensures First(HumpsRe(up, low, digit), s) == Step(up, low, digit, s)
  {
    CapitalsBeforeHump(up, low, s);
    HumpOrRun(up, low, s);
    var humps := Then(Optional(Class(up)), Some1(low));
    var runs := Either(Some1(up), Some1(digit));
    FirstOfEither(Some1(up), Some1(digit), s);
    FirstOfEither(humps, runs, s);
    FirstOfEither(Then(Some1(up), HumpRe(up, low)), Either(humps, runs), s);
    assert Lengths(Some1(up), s) == Down(Run(up, s)) && Lengths(Some1(digit), s) == Down(Run(digit, s));
  }

  lemma FirstOfEither(first: Re, second: Re, s: string)
    ensures First(Either(first, second), s) == if Lengths(first, s) != [] then Lengths(first, s)[0] else First(second, s)
  {
    assert Lengths(Either(first, second), s) == Lengths(first, s) + Lengths(second, s);
  }

  function CamelStep(s: string): (n: nat)
    ensures n <= |s|
  {
    Step(IsUpper, IsLower, IsDigit, s)
  }

  /** The parts in closed form: one preferred match after the other. */
  function CamelParts(s: string): (parts: seq<string>)
    decreases |s|
  {
    if s == "" then []
    else
      var n := CamelStep(s);
      if n == 0 then CamelParts(s[1..]) else [s[..n]] + CamelParts(s[n..])
  }

  lemma {:induction false} PartsAreMatches(re: Re, s: string)
    requires re == CamelRe()
    ensures FindAll(re, s) == CamelParts(s)
    decreases |s|
  {
    if s != "" {
      FirstIsStep(IsUpper, IsLower, IsDigit, s);
      var n := CamelStep(s);
      assert First(re, s) == n;
      PartsAreMatches(re, if n == 0 then s[1..] else s[n..]);
    }
  }

  // ---- The hand-written matcher ----

  /** The end of the run of chars that starts at i. */
  method ScanRun(chars: char -> bool, raw: string, i: nat) returns (k: nat)
    requires i <= |raw|
    ensures k == i + Run(chars, raw[i..])
  {
    k := i;
    while k < |raw| && chars(raw[k])
      invariant i <= k <= |raw| && forall j :: i <= j < k ==> chars(raw[j])
    {
      k := k + 1;
    }
    RunIs(chars, raw[i..], k - i);
  }

  /** Looks back from the end j of the capitals at i for a capital that starts a hump. */
  method FindHump(raw: string, i: nat, j: nat) returns (k: nat)
    requires i < j <= |raw| && j == i + Run(IsUpper, raw[i..])
    ensures i <= k && k == if 2 <= j - i && j < |raw| && IsLower(raw[j]) then j - 1 else i
  {
    RunExact(IsUpper, raw[i..]);
    assert forall l :: i <= l < j ==> raw[l] == raw[i..][l - i];
    assert j < |raw| ==> raw[j] == raw[i..][j - i];
    k := j;
    while k > i
      invariant i <= k <= j
      invariant forall l :: k < l <= j ==>
        !(l < |raw| && IsUpper(raw[l]) && l + 1 < |raw| && IsLower(raw[l + 1]))
    {
      if k < |raw| && IsUpper(raw[k]) && k + 1 < |raw| && IsLower(raw[k + 1]) {
        return;
      }
      k := k - 1;
    }
    assert IsUpper(raw[j - 1]);
  }

  /** The end of the part that starts at i, or i when none does. */
  method PartEnd(raw: string, i: nat) returns (k: nat)
    requires i < |raw|
    ensures k == i + CamelStep(raw[i..])
  {
    k := i;
    var c := raw[i];
    ghost var rest := raw[i..];
    assert rest[0] == c;
    assert i + 1 < |raw| ==> rest[1] == raw[i + 1] && rest[1..] == raw[i + 1..];
    if IsUpper(c) {
      var j := ScanRun(IsUpper, raw, i);
      assert j < |raw| ==> rest[j - i] == raw[j];
      k := FindHump(raw, i, j);
      if k == i {
        if i + 1 < |raw| && IsLower(raw[i + 1]) {
          k := ScanRun(IsLower, raw, i + 1);
        } else {
          k := ScanRun(IsUpper, raw, i);
        }
      }
    } else if IsLower(c) {
      k := ScanRun(IsLower, raw, i);
    } else if IsDigit(c) {
      k := ScanRun(IsDigit, raw, i);
    }
  }

  lemma PartsStep(raw: string, i: nat, k: nat)
    requires i < |raw| && k == i + CamelStep(raw[i..])
    ensures CamelParts(raw[i..]) == if k > i then [raw[i..k]] + CamelParts(raw[k..]) else CamelParts(raw[i + 1..])
  {
    var rest := raw[i..];
    assert rest[..k - i] == raw[i..k] && rest[k - i..] == raw[k..] && rest[1..] == raw[i + 1..];
  }

  /** Splits a word into its parts: exactly what the regular expression finds. */
  method SplitCamel(raw: string) returns (out: seq<string>)
    ensures out == FindAll(CamelRe(), raw)
  {
    out := ScanParts(raw);
    PartsAreMatches(CamelRe(), raw);
  }

  method ScanParts(raw: string) returns (out: seq<string>)
    ensures out == CamelParts(raw)
  {
    out := [];
    var i, n := 0, |raw|;
    assert raw[0..] == raw;
    while i < n
      invariant i <= n && out + CamelParts(raw[i..]) == CamelParts(raw)
    {
      var k := PartEnd(raw, i);
      PartsStep(raw, i, k);
      if k > i {
        Concat3(out, [raw[i..k]], CamelParts(raw[k..]));
        out := out + [raw[i..k]];
        i := k;
      } else {
        i := i + 1;
      }
    }
    assert raw[i..] == "";
  }

  lemma Concat3<T>(a: seq<T>, b: seq<T>, c: seq<T>)
    ensures a + (b + c) == (a + b) + c
  {
  }

  // ---- Nothing alphanumeric is lost ----

  function Joined(parts: seq<string>): string {
    if parts == [] then "" else parts[0] + Joined(parts[1..])
  }

  function AlnumOnly(s: string): string {
    if s == "" then "" else (if IsAlnum(s[0]) then [s[0]] else "") + AlnumOnly(s[1..])
  }

  lemma {:induction false} AlnumKept(s: string, n: nat)
    requires n <= |s| && forall i :: 0 <= i < n ==> IsAlnum(s[i])
    ensures AlnumOnly(s) == s[..n] + AlnumOnly(s[n..])
  {
    if n == 0 {
      assert s[0..] == s;
    } else {
      var rest := s[1..];
      assert rest[n - 1..] == s[n..] && s[..n] == [s[0]] + rest[..n - 1];
      AlnumKept(rest, n - 1);
      Concat3([s[0]], rest[..n - 1], AlnumOnly(s[n..]));
    }
  }

  lemma CamelStepAlnum(s: string)
    ensures forall i :: 0 <= i < CamelStep(s) ==> IsAlnum(s[i])
    ensures s != "" ==> (CamelStep(s) == 0 <==> !IsAlnum(s[0]))
  {
    RunExact(IsUpper, s);
    RunExact(IsLower, s);
    RunExact(IsDigit, s);
    if |s| > 1 {
      RunExact(IsLower, s[1..]);
      assert forall i :: 1 <= i < |s| ==> s[i] == s[1..][i - 1];
    }
  }

  lemma {:induction false} CamelPartsKeepAlnum(s: string)
    ensures Joined(CamelParts(s)) == AlnumOnly(s)
    ensures forall p :: p in CamelParts(s) ==> p != ""
    decreases |s|
  {
    if s != "" {
      var n := CamelStep(s);
      CamelStepAlnum(s);
      if n == 0 {
        CamelPartsKeepAlnum(s[1..]);
      } else {
        CamelPartsKeepAlnum(s[n..]);
        AlnumKept(s, n);
        assert ([s[..n]] + CamelParts(s[n..]))[1..] == CamelParts(s[n..]);
      }
    }
  }

  /** The parts are nonempty, and put together they are the word without its other characters. */
  lemma PartsKeepAlnum(s: string)
    ensures Joined(FindAll(CamelRe(), s)) == AlnumOnly(s)
    ensures forall p :: p in FindAll(CamelRe(), s) ==> p != ""
  {
    PartsAreMatches(CamelRe(), s);
    CamelPartsKeepAlnum(s);
  }

  // ---- Tokens ----

  predicate IsAscii(s: string) {
    forall i :: 0 <= i < |s| ==> s[i] < 128 as char
  }

  function LowerChar(c: char): char {
    if IsUpper(c) then c - 'A' + 'a' else c
  }

  function Lower(s: string): (r: string)
    ensures |r| == |s| && forall i :: 0 <= i < |s| ==> r[i] == LowerChar(s[i])
  {
    seq(|s|, i requires 0 <= i < |s| => LowerChar(s[i]))
  }

  function Lowers(parts: seq<string>): (r: seq<string>)
    ensures |r| == |parts| && forall i :: 0 <= i < |parts| ==> r[i] == Lower(parts[i])
  {
    seq(|parts|, i requires 0 <= i < |parts| => Lower(parts[i]))
  }

  /** The tokens of one match of the token pattern: its parts or, if it has none, itself. */
  function WordTokens(raw: string): seq<string> {
    var parts := FindAll(CamelRe(), raw);
    if parts != [] then Lowers(parts) else [Lower(raw)]
  }

  function FlatMap(f: string -> seq<string>, raws: seq<string>): seq<string> {
    if raws == [] then [] else f(raws[0]) + FlatMap(f, raws[1..])
  }

  /** The tokens of a text, in order. */
  function Tokens(text: string): seq<string> {
    FlatMap(WordTokens, FindAll(TokenRe(), text))
  }

  method TokensOfWord(raw: string) returns (out: seq<string>)
    ensures out == WordTokens(raw)
  {
    var parts := SplitCamel(raw);
    if |parts| > 0 {
      out := Lowers(parts);
    } else {
      out := [Lower(raw)];
    }
  }

  lemma {:induction false} FlatMapConcat(f: string -> seq<string>, a: seq<string>, b: seq<string>)
    ensures FlatMap(f, a + b) == FlatMap(f, a) + FlatMap(f, b)
  {
    if a == [] {
      assert a + b == b;
    } else {
      assert (a + b)[0] == a[0] && (a + b)[1..] == a[1..] + b;
      FlatMapConcat(f, a[1..], b);
    }
  }

  lemma FlatMapNext(f: string -> seq<string>, raws: seq<string>, i: nat)
    requires i < |raws|
    ensures FlatMap(f, raws[..i + 1]) == FlatMap(f, raws[..i]) + f(raws[i])
  {
    assert raws[..i + 1] == raws[..i] + [raws[i]];
    FlatMapConcat(f, raws[..i], [raws[i]]);
    assert [raws[i]][1..] == [];
    assert FlatMap(f, [raws[i]]) == f(raws[i]) + FlatMap(f, []);
  }

  method TokensOfMatches(raws: seq<string>) returns (out: seq<string>)
    ensures out == FlatMap(WordTokens, raws)
  {
    out := [];
    ghost var f := WordTokens;
    for i := 0 to |raws|
      invariant out == FlatMap(f, raws[..i])
    {
      FlatMapNext(f, raws, i);
      var tokens := TokensOfWord(raws[i]);
      out := out + tokens;
    }
    assert raws[..|raws|] == raws;
  }

  method Tokenize(text: string) returns (out: seq<string>)
    requires IsAscii(text)
    ensures out == Tokens(text) && Joined(out) == KeptText(text)
  {
    out := TokensOfMatches(FindAll(TokenRe(), text));
    TokensKeepText(text);
  }

  // ---- camelCase and snake_case ----

  predicate IsLowerWord(w: string) {
    w != "" && forall i :: 0 <= i < |w| ==> IsLower(w[i])
  }

  predicate AllLowerWords(ws: seq<string>) {
    forall i :: 0 <= i < |ws| ==> IsLowerWord(ws[i])
  }

  function Cap(w: string): (r: string)
    requires IsLowerWord(w)
    ensures |r| == |w|
  {
    [w[0] - 'a' + 'A'] + w[1..]
  }

  function Caps(ws: seq<string>): string
    requires AllLowerWords(ws)
  {
    if ws == [] then "" else Cap(ws[0]) + Caps(ws[1..])
  }

  function Camel(ws: seq<string>): string
    requires AllLowerWords(ws)
  {
    if ws == [] then "" else ws[0] + Caps(ws[1..])
  }

  function Snake(ws: seq<string>): string {
    if ws == [] then "" else if |ws| == 1 then ws[0] else ws[0] + "_" + Snake(ws[1..])
  }

  /** Two words of one letter stand next to each other. */
  predicate SinglesMeet(ws: seq<string>) {
    exists i :: 0 <= i < |ws| - 1 && |ws[i]| == 1 && |ws[i + 1]| == 1
  }

  lemma CapStart(ws: seq<string>)
    requires AllLowerWords(ws) && ws != []
    ensures Caps(ws) != "" && IsUpper(Caps(ws)[0])
    ensures |ws[0]| > 1 ==> |Caps(ws)| > 1 && IsLower(Caps(ws)[1])
    ensures |ws[0]| == 1 && |ws| == 1 ==> |Caps(ws)| == 1
    ensures |ws[0]| == 1 && |ws| > 1 ==> |Caps(ws)| > 1 && IsUpper(Caps(ws)[1])
  {
    assert Caps(ws) == Cap(ws[0]) + Caps(ws[1..]);
    if |ws| > 1 {
      assert Caps(ws[1..]) == Cap(ws[1]) + Caps(ws[1..][1..]);
    }
  }

  /** The run of small letters from position 1 of a capitalised word ends with the word. */
  lemma WordRun(w: string, rest: string)
    requires IsLowerWord(w) && (rest == "" || !IsLower(rest[0]))
    ensures Run(IsLower, (Cap(w) + rest)[1..]) == |w| - 1
    ensures Run(IsLower, w + rest) == |w|
  {
    RunIs(IsLower, (Cap(w) + rest)[1..], |w| - 1);
    RunIs(IsLower, w + rest, |w|);
  }

  /** Of a sequence of capitalised words the first part is the first word, unless it and the next are
      single letters; then it is longer. */
  lemma FirstPart(ws: seq<string>)
    requires AllLowerWords(ws) && ws != []
    ensures var s := Caps(ws);
      if |ws| > 1 && |ws[0]| == 1 && |ws[1]| == 1 then CamelStep(s) > 1 else CamelStep(s) == |ws[0]|
  {
    var s, rest := Caps(ws), Caps(ws[1..]);
    var u := Run(IsUpper, s);
    assert s == Cap(ws[0]) + rest;
    CapStart(ws);
    RunExact(IsUpper, s);
    if |ws[0]| > 1 {
      if |ws| > 1 { CapStart(ws[1..]); }
      WordRun(ws[0], rest);
      RunIs(IsUpper, s, 1);
    } else if |ws| == 1 {
      RunIs(IsUpper, s, 1);
    } else {
      CapStart(ws[1..]);
      assert s[1..] == rest;
      assert |rest| > 1 ==> s[2] == rest[1];
      if |ws[1]| > 1 {
        RunIs(IsUpper, s, 2);
      } else if |ws| == 2 {
        RunIs(IsUpper, s, 2);
      } else {
        assert IsUpper(s[0]) && IsUpper(s[1]) && IsUpper(s[2]);
        RunAtLeast(IsUpper, s, 3);
      }
    }
  }

  lemma {:induction false} RunAtLeast(chars: char -> bool, s: string, n: nat)
    requires n <= |s| && forall i :: 0 <= i < n ==> chars(s[i])
    ensures Run(chars, s) >= n
  {
    if n > 0 {
      RunAtLeast(chars, s[1..], n - 1);
    }
  }

  lemma LowerOfCap(w: string)
    requires IsLowerWord(w)
    ensures Lower(Cap(w)) == w && Lower(w) == w
  {
  }

  lemma LowersCons(p: string, parts: seq<string>)
    ensures Lowers([p] + parts) == [Lower(p)] + Lowers(parts)
  {
  }

  /** Capitalised words come apart into the words if and only if no two single letters meet. */
  lemma {:induction false} CapsParts(ws: seq<string>)
    requires AllLowerWords(ws)
    ensures Lowers(CamelParts(Caps(ws))) == ws <==> !SinglesMeet(ws)
  {
    if ws != [] {
      var s := Caps(ws);
      var n := CamelStep(s);
      FirstPart(ws);
      CapsParts(ws[1..]);
      assert CamelParts(s) == [s[..n]] + CamelParts(s[n..]);
      LowersCons(s[..n], CamelParts(s[n..]));
      SinglesCons(ws);
      if |ws| > 1 && |ws[0]| == 1 && |ws[1]| == 1 {
        assert |Lowers(CamelParts(s))[0]| == n > 1;
      } else {
        assert s[..n] == Cap(ws[0]) && s[n..] == Caps(ws[1..]);
        LowerOfCap(ws[0]);
        assert ws == [ws[0]] + ws[1..];
        assert Lowers(CamelParts(s)) == [ws[0]] + Lowers(CamelParts(Caps(ws[1..])));
        assert Lowers(CamelParts(s))[1..] == Lowers(CamelParts(Caps(ws[1..])));
      }
    }
  }

  lemma SinglesCons(ws: seq<string>)
    requires ws != []
    ensures SinglesMeet(ws) <==> (|ws| > 1 && |ws[0]| == 1 && |ws[1]| == 1) || SinglesMeet(ws[1..])
  {
    if i :| 0 <= i < |ws[1..]| - 1 && |ws[1..][i]| == 1 && |ws[1..][i + 1]| == 1 {
      assert |ws[i + 1]| == 1 && |ws[i + 1 + 1]| == 1;
    }
    if i :| 0 <= i < |ws| - 1 && |ws[i]| == 1 && |ws[i + 1]| == 1 {
      assert i > 0 ==> |ws[1..][i - 1]| == 1 && |ws[1..][i - 1 + 1]| == 1;
    }
  }

  /** The snake_case spelling comes apart into its words, always. */
  lemma {:induction false} SnakeParts(ws: seq<string>)
    requires AllLowerWords(ws)
    ensures CamelParts(Snake(ws)) == ws
  {
    if ws != [] {
      var s := Snake(ws);
      var rest := if |ws| == 1 then "" else "_" + Snake(ws[1..]);
      assert s == ws[0] + rest;
      WordRun(ws[0], rest);
      assert CamelStep(s) == |ws[0]| && s[..|ws[0]|] == ws[0] && s[|ws[0]|..] == rest;
      SnakeParts(ws[1..]);
      if |ws| > 1 {
        assert Run(IsDigit, rest) == 0 && CamelStep(rest) == 0;
        assert rest[1..] == Snake(ws[1..]);
      } else {
        assert CamelParts("") == [];
      }
      assert CamelParts(s) == [ws[0]] + CamelParts(rest);
      assert ws == [ws[0]] + ws[1..];
    }
  }

  lemma FirstWordApart(ws: seq<string>)
    requires AllLowerWords(ws) && ws != []
    ensures CamelParts(Camel(ws)) == [ws[0]] + CamelParts(Caps(ws[1..]))
  {
    var s, rest := Camel(ws), Caps(ws[1..]);
    if |ws| > 1 { CapStart(ws[1..]); }
    WordRun(ws[0], rest);
    assert CamelStep(s) == |ws[0]| && s[..|ws[0]|] == ws[0] && s[|ws[0]|..] == rest;
  }

  /** The camelCase spelling comes apart into its words if and only if, after the first word, no two single
      letters meet. */
  lemma CamelPartsOfWords(ws: seq<string>)
    requires AllLowerWords(ws)
    ensures Lowers(CamelParts(Camel(ws))) == ws <==> (ws == [] || !SinglesMeet(ws[1..]))
  {
    if ws != [] {
      var rest := CamelParts(Caps(ws[1..]));
      FirstWordApart(ws);
      LowersCons(ws[0], rest);
      LowerOfCap(ws[0]);
      CapsParts(ws[1..]);
      assert ws == [ws[0]] + ws[1..];
      assert ([ws[0]] + Lowers(rest))[1..] == Lowers(rest);
    }
  }

  // ---- Whole words as one token match ----

  predicate AllWordChars(s: string) {
    forall i :: 0 <= i < |s| ==> IsWordChar(s[i])
  }

  lemma OneWord(re: Re, s: string)
    requires re == Either(Some1(IsWordChar), Class(IsPunct)) && s != "" && AllWordChars(s)
    ensures FindAll(re, s) == [s]
  {
    RunIs(IsWordChar, s, |s|);
    assert Lengths(re, s) == Down(|s|) + Lengths(Class(IsPunct), s);
    assert First(re, s) == |s|;
    assert s[..|s|] == s && s[|s|..] == "";
    assert FindAll(re, "") == [];
  }

  lemma {:induction false} CapsWordChars(ws: seq<string>)
    requires AllLowerWords(ws)
    ensures AllWordChars(Caps(ws))
  {
    if ws != [] {
      CapsWordChars(ws[1..]);
      var c := Cap(ws[0]);
      assert forall i :: 0 <= i < |c| ==> IsWordChar(c[i]);
    }
  }

  lemma {:induction false} SnakeWordChars(ws: seq<string>)
    requires AllLowerWords(ws)
    ensures AllWordChars(Snake(ws))
  {
    if |ws| > 1 {
      SnakeWordChars(ws[1..]);
    }
  }

  lemma TokensOfOneWord(s: string)
    requires s != "" && AllWordChars(s) && CamelParts(s) != []
    ensures Tokens(s) == Lowers(CamelParts(s))
  {
    OneWord(TokenRe(), s);
    PartsAreMatches(CamelRe(), s);
    var raws := FindAll(TokenRe(), s);
    assert raws == [s] && raws[1..] == [];
    assert FlatMap(WordTokens, raws) == WordTokens(s) + FlatMap(WordTokens, []);
  }

  lemma PartsNotEmpty(s: string)
    requires s != "" && IsLower(s[0])
    ensures CamelParts(s) != []
  {
  }

  /** Every list of lowercase words is what its snake_case spelling tokenizes to; it is what its camelCase
      spelling tokenizes to if and only if, after the first word, no two single letters meet. */
  lemma CamelLikeSnake(ws: seq<string>)
    requires AllLowerWords(ws)
    ensures Tokens(Snake(ws)) == ws
    ensures Tokens(Camel(ws)) == ws <==> (ws == [] || !SinglesMeet(ws[1..]))
  {
    CamelPartsOfWords(ws);
    if ws == [] {
      assert FindAll(TokenRe(), "") == [];
    } else {
      TokensOfSnake(ws);
      TokensOfCamel(ws);
    }
  }

  lemma TokensOfSnake(ws: seq<string>)
    requires AllLowerWords(ws) && ws != []
    ensures Tokens(Snake(ws)) == ws
  {
    SnakeParts(ws);
    SnakeWordChars(ws);
    TokensOfOneWord(Snake(ws));
    LowersOfWords(ws);
  }

  lemma TokensOfCamel(ws: seq<string>)
    requires AllLowerWords(ws) && ws != []
    ensures Tokens(Camel(ws)) == Lowers(CamelParts(Camel(ws)))
  {
    CapsWordChars(ws[1..]);
    PartsNotEmpty(Camel(ws));
    TokensOfOneWord(Camel(ws));
  }

  lemma LowersOfWords(ws: seq<string>)
    requires AllLowerWords(ws)
    ensures Lowers(ws) == ws
  {
    forall i | 0 <= i < |ws| ensures Lower(ws[i]) == ws[i] { LowerOfCap(ws[i]); }
  }

  // ---- What becomes of every text ----

  /** The characters, listed. */
  lemma CharClasses(c: char)
    ensures IsUpper(c) <==> c in "ABCDEFGHIJKLMNOPQRSTUVWXYZ"
    ensures IsLower(c) <==> c in "abcdefghijklmnopqrstuvwxyz"
    ensures IsDigit(c) <==> c in "0123456789"
    ensures IsWordChar(c) <==> IsUpper(c) || IsLower(c) || IsDigit(c) || c == '_'
  {
  }

  /** The length of the match of the token pattern at the front, 0 for none. */
  function TokenStep(s: string): (n: nat)
    ensures n <= |s|
  {
    if Run(IsWordChar, s) > 0 then Run(IsWordChar, s) else if s != "" && IsPunct(s[0]) then 1 else 0
  }

  function Matches(s: string): (raws: seq<string>)
    decreases |s|
  {
    if s == "" then []
    else
      var n := TokenStep(s);
      if n == 0 then Matches(s[1..]) else [s[..n]] + Matches(s[n..])
  }

  lemma TokenFirst(re: Re, s: string)
    requires re == Either(Some1(IsWordChar), Class(IsPunct))
    ensures First(re, s) == TokenStep(s)
  {
    FirstOfEither(Some1(IsWordChar), Class(IsPunct), s);
    assert Lengths(Some1(IsWordChar), s) == Down(Run(IsWordChar, s));
  }

  lemma {:induction false} AllMatches(re: Re, s: string)
    requires re == Either(Some1(IsWordChar), Class(IsPunct))
    ensures FindAll(re, s) == Matches(s)
    decreases |s|
  {
    if s != "" {
      TokenFirst(re, s);
      var n := TokenStep(s);
      AllMatches(re, if n == 0 then s[1..] else s[n..]);
    }
  }

  lemma TokensOfMatchesOf(s: string)
    ensures Tokens(s) == FlatMap(WordTokens, Matches(s))
  {
    AllMatches(TokenRe(), s);
  }

  /** No match of the token pattern reaches from a into b. */
  predicate Cut(a: string, b: string) {
    a == "" || b == "" || !IsWordChar(a[|a| - 1]) || !IsWordChar(b[0])
  }

  lemma TokenStepCut(a: string, b: string)
    requires Cut(a, b) && a != ""
    ensures TokenStep(a + b) == TokenStep(a)
  {
    if b == "" {
      assert a + b == a;
    } else {
      RunCut(IsWordChar, a, b);
    }
  }

  lemma {:induction false} MatchesCut(a: string, b: string)
    requires Cut(a, b)
    ensures Matches(a + b) == Matches(a) + Matches(b)
    decreases |a|
  {
    if a == "" {
      assert a + b == b;
    } else {
      TokenStepCut(a, b);
      var n := TokenStep(a);
      var k := if n == 0 then 1 else n;
      assert (a + b)[k..] == a[k..] + b && (a + b)[..k] == a[..k];
      MatchesCut(a[k..], b);
      if n > 0 {
        Concat3([a[..n]], Matches(a[n..]), Matches(b));
      }
    }
  }

  /** A text tokenizes piece by piece, wherever no two word characters are torn apart. */
  lemma TokensCut(a: string, b: string)
    requires Cut(a, b)
    ensures Tokens(a + b) == Tokens(a) + Tokens(b)
  {
    MatchesCut(a, b);
    TokensOfMatchesOf(a);
    TokensOfMatchesOf(b);
    TokensOfMatchesOf(a + b);
    FlatMapConcat(WordTokens, Matches(a), Matches(b));
  }

  lemma OneSign(c: char)
    requires !IsWordChar(c)
    ensures Tokens([c]) == if c in ".,;:()[]{}" then [[c]] else []
  {
    TokensOfMatchesOf([c]);
    assert Run(IsWordChar, [c]) == 0;
    assert Matches("") == [];
    if IsPunct(c) {
      assert [c][..1] == [c] && [c][1..] == "";
      assert Matches([c]) == [[c]];
      assert CamelStep([c]) == 0 by { CamelStepAlnum([c]); }
      PartsAreMatches(CamelRe(), [c]);
      assert CamelParts([c]) == CamelParts([c][1..]) == [];
      assert WordTokens([c]) == [Lower([c])] && Lower([c]) == [c];
      assert Matches([c])[1..] == [];
      assert FlatMap(WordTokens, Matches([c])) == WordTokens([c]) + FlatMap(WordTokens, []);
    } else {
      assert Matches([c]) == [];
    }
  }

  /** Every punctuation sign is a token of its own, wherever it stands; any other sign that is no word character
      only separates. */
  lemma SignsSeparate(a: string, c: char, b: string)
    requires !(c == '_' || 'a' <= c <= 'z' || 'A' <= c <= 'Z' || '0' <= c <= '9')
    ensures Tokens(a + [c] + b) == Tokens(a) + (if c in ".,;:()[]{}" then [[c]] else []) + Tokens(b)
  {
    OneSign(c);
    SignCuts(a, c, b);
    TokensCut(a, [c]);
    TokensCut(a + [c], b);
  }

  lemma SignCuts(a: string, c: char, b: string)
    requires !IsWordChar(c)
    ensures Cut(a, [c]) && Cut(a + [c], b)
  {
    assert (a + [c])[|a + [c]| - 1] == c;
  }

  lemma TokensOfWordRun(w: string)
    requires w != "" && AllWordChars(w)
    ensures Tokens(w) == if AlnumOnly(w) == "" then [Lower(w)] else Lowers(CamelParts(w))
  {
    OneWord(TokenRe(), w);
    PartsAreMatches(CamelRe(), w);
    CamelPartsKeepAlnum(w);
    assert CamelParts(w) == [] <==> AlnumOnly(w) == "" by {
      if CamelParts(w) != [] {
        assert CamelParts(w)[0] in CamelParts(w);
      }
    }
    var raws := FindAll(TokenRe(), w);
    assert raws == [w] && raws[1..] == [];
    assert FlatMap(WordTokens, raws) == WordTokens(w) + FlatMap(WordTokens, []);
  }

  lemma {:induction false} UnderscoresOnly(s: string)
    requires forall i :: 0 <= i < |s| ==> s[i] == '_'
    ensures AlnumOnly(s) == "" && Lower(s) == s
  {
    if s != "" {
      UnderscoresOnly(s[1..]);
    }
  }

  /** A run of underscores is one token. */
  lemma UnderscoreRun(w: string)
    requires w != "" && forall i :: 0 <= i < |w| ==> w[i] == '_'
    ensures Tokens(w) == [w]
  {
    UnderscoresOnly(w);
    TokensOfWordRun(w);
  }

  // ---- Where a word comes apart ----

  /** No part reaches from x to y: one is no letter or digit, or just one is a digit, or a hump starts at y. */
  predicate Apart(x: char, y: char) {
    !IsAlnum(x) || !IsAlnum(y) || (IsDigit(x) <==> !IsDigit(y)) || (IsLower(x) && IsUpper(y))
  }

  lemma CamelStepCut(a: string, b: string)
    requires a != "" && b != "" && Apart(a[|a| - 1], b[0])
    ensures CamelStep(a + b) == CamelStep(a)
  {
    var s, x, y := a + b, a[|a| - 1], b[0];
    assert s[0] == a[0] && s[|a|] == y;
    if IsUpper(a[0]) {
      RunExact(IsUpper, a);
      RunCut(IsUpper, a, b);
      if |a| > 1 {
        assert s[1..] == a[1..] + b && a[1..][|a[1..]| - 1] == x;
        RunCut(IsLower, a[1..], b);
      }
    } else if IsLower(a[0]) {
      RunCut(IsLower, a, b);
    } else {
      RunCut(IsDigit, a, b);
    }
  }

  /** A word comes apart piece by piece, wherever no part reaches across. */
  lemma {:induction false} PartsCut(a: string, b: string)
    requires a == "" || b == "" || Apart(a[|a| - 1], b[0])
    ensures CamelParts(a + b) == CamelParts(a) + CamelParts(b)
    decreases |a|
  {
    if a == "" {
      assert a + b == b;
    } else if b == "" {
      assert a + b == a && CamelParts(b) == [];
    } else {
      CamelStepCut(a, b);
      var n := CamelStep(a);
      var k := if n == 0 then 1 else n;
      assert (a + b)[k..] == a[k..] + b && (a + b)[..k] == a[..k];
      PartsCut(a[k..], b);
      if n > 0 {
        Concat3([a[..n]], CamelParts(a[n..]), CamelParts(b));
      }
    }
  }

  lemma WholePart(s: string)
    requires s != "" && CamelStep(s) == |s|
    ensures CamelParts(s) == [s]
  {
    assert s[..|s|] == s && s[|s|..] == "" && CamelParts("") == [];
  }

  /** A run of digits is one part. */
  lemma DigitsPart(d: string)
    requires d != "" && forall i :: 0 <= i < |d| ==> IsDigit(d[i])
    ensures CamelParts(d) == [d]
  {
    RunIs(IsDigit, d, |d|);
    WholePart(d);
  }

  /** Capitals with small letters behind them: the last capital goes with the small letters. */
  lemma LettersParts(u: string, l: string)
    requires u + l != ""
    requires (forall i :: 0 <= i < |u| ==> IsUpper(u[i])) && (forall i :: 0 <= i < |l| ==> IsLower(l[i]))
    ensures CamelParts(u + l) ==
      if l == "" || |u| <= 1 then [u + l] else [u[..|u| - 1], [u[|u| - 1]] + l]
  {
    var s := u + l;
    RunIs(IsUpper, s, |u|);
    if u == "" {
      RunIs(IsLower, s, |s|);
      WholePart(s);
    } else if l == "" {
      assert |s| > 1 ==> s[1] == u[1];
      WholePart(s);
    } else {
      var last := [u[|u| - 1]] + l;
      RunIs(IsUpper, last, 1);
      assert last[1..] == l;
      RunIs(IsLower, l, |l|);
      assert CamelStep(last) == |last|;
      WholePart(last);
      if |u| == 1 {
        assert s == last;
      } else {
        assert s[|u|] == l[0] && CamelStep(s) == |u| - 1;
        assert s[..|u| - 1] == u[..|u| - 1] && s[|u| - 1..] == last;
      }
    }
  }

  // ---- Nothing but separators and underscores is lost ----

  /** What a text keeps: its word runs in lower case, without underscores unless they are all there is to the run, and
      its punctuation. */
  function KeptText(text: string): string
    decreases |text|
  {
    if text == "" then ""
    else
      var n := Run(IsWordChar, text);
      if n == 0 then (if text[0] in ".,;:()[]{}" then [text[0]] else "") + KeptText(text[1..])
      else
        (if AlnumOnly(text[..n]) == "" then text[..n] else Lower(AlnumOnly(text[..n]))) + KeptText(text[n..])
  }

  lemma {:induction false} JoinedConcat(a: seq<string>, b: seq<string>)
    ensures Joined(a + b) == Joined(a) + Joined(b)
  {
    if a == [] {
      assert a + b == b;
    } else {
      assert (a + b)[0] == a[0] && (a + b)[1..] == a[1..] + b;
      JoinedConcat(a[1..], b);
    }
  }

  lemma {:induction false} JoinedLowers(parts: seq<string>)
    ensures Joined(Lowers(parts)) == Lower(Joined(parts))
  {
    if parts != [] {
      JoinedLowers(parts[1..]);
      assert Lowers(parts)[1..] == Lowers(parts[1..]);
    }
  }

  lemma WordKept(w: string)
    requires w != "" && AllWordChars(w)
    ensures Joined(Tokens(w)) == if AlnumOnly(w) == "" then w else Lower(AlnumOnly(w))
  {
    TokensOfWordRun(w);
    if AlnumOnly(w) == "" {
      AllUnderscores(w);
      assert Joined([w]) == w + Joined([]);
    } else {
      CamelPartsKeepAlnum(w);
      JoinedLowers(CamelParts(w));
    }
  }

  lemma {:induction false} AllUnderscores(w: string)
    requires AllWordChars(w) && AlnumOnly(w) == ""
    ensures Lower(w) == w
  {
    if w != "" {
      assert w[0] == '_';
      AllUnderscores(w[1..]);
      assert forall i :: 1 <= i < |w| ==> Lower(w)[i] == Lower(w[1..])[i - 1] == w[1..][i - 1];
    }
  }

  lemma SignKept(c: char)
    requires !IsWordChar(c)
    ensures Joined(Tokens([c])) == if c in ".,;:()[]{}" then [c] else ""
  {
    OneSign(c);
    assert Joined([[c]]) == [c] + Joined([]);
  }

  /** The text falls into its first word run or sign and the rest. */
  lemma FirstPieceCut(text: string, k: nat)
    requires text != "" && k == if Run(IsWordChar, text) == 0 then 1 else Run(IsWordChar, text)
    ensures Cut(text[..k], text[k..])
    ensures Run(IsWordChar, text) == 0 ==> !IsWordChar(text[0]) && text[..k] == [text[0]]
    ensures Run(IsWordChar, text) > 0 ==> AllWordChars(text[..k])
  {
    RunExact(IsWordChar, text);
  }

  lemma PieceKept(text: string, k: nat)
    requires text != "" && k == if Run(IsWordChar, text) == 0 then 1 else Run(IsWordChar, text)
    ensures Joined(Tokens(text[..k])) + KeptText(text[k..]) == KeptText(text)
  {
    FirstPieceCut(text, k);
    if Run(IsWordChar, text) == 0 {
      SignKept(text[0]);
    } else {
      WordKept(text[..k]);
    }
  }

  /** End to end the tokens are the text in lower case, less what the pattern skips and the underscores of words. */
  lemma {:induction false} TokensKeepText(text: string)
    ensures Joined(Tokens(text)) == KeptText(text)
    decreases |text|
  {
    if text == "" {
      TokensOfMatchesOf("");
    } else {
      var k := if Run(IsWordChar, text) == 0 then 1 else Run(IsWordChar, text);
      var a, b := text[..k], text[k..];
      assert text == a + b;
      FirstPieceCut(text, k);
      PieceKept(text, k);
      TokensCut(a, b);
      JoinedConcat(Tokens(a), Tokens(b));
      TokensKeepText(b);
    }
  }
}
