/** The text format of the secrets file: one "name = ciphertext" a line. */
module SecretFile {
  import opened Sorting

  /** White space as Unicode, and Go's strings.TrimSpace, has it. */
  predicate IsSpace(c: char) {
    || '\t' <= c <= '\r' || c == ' ' || c == '\U{85}' || c == '\U{A0}' || c == '\U{1680}'
    || '\U{2000}' <= c <= '\U{200A}' || c == '\U{2028}' || c == '\U{2029}' || c == '\U{202F}'
    || c == '\U{205F}' || c == '\U{3000}'
  }

  function TrimLeft(s: string): (r: string)
    ensures r == "" || !IsSpace(r[0])
    ensures forall c :: c in r ==> c in s
  {
    if s != "" && IsSpace(s[0]) then TrimLeft(s[1..]) else s
  }

  function TrimRight(s: string): (r: string)
    ensures r <= s && (r == "" || !IsSpace(r[|r| - 1]))
  {
    if s != "" && IsSpace(s[|s| - 1]) then TrimRight(s[..|s| - 1]) else s
  }

  predicate Trimmed(s: string) {
    s == "" || (!IsSpace(s[0]) && !IsSpace(s[|s| - 1]))
  }

  function Trim(s: string): (r: string)
    ensures Trimmed(r)
    ensures forall c :: c in r ==> c in s
  {
    var left := TrimLeft(s);
    var r := TrimRight(left);
    assert forall c :: c in r ==> c in left;
    assert r != "" ==> r[0] == left[0];
    r
  }

  /** The pieces of s between its newlines. */
  function Lines(s: string): (r: seq<string>)
    ensures r != [] && forall i :: 0 <= i < |r| ==> '\n' !in r[i]
  {
    if s == "" then [""]
    else
      var rest := Lines(s[1..]);
      if s[0] == '\n' then [""] + rest else [[s[0]] + rest[0]] + rest[1..]
  }

  /** The first position of c in s, or the length of s. */
  function IndexOf(s: string, c: char): (n: nat)
    ensures n <= |s| && c !in s[..n]
    ensures n < |s| ==> s[n] == c
    ensures n == |s| ==> c !in s
  {
    if s == "" then 0
    else if s[0] == c then 0
    else
      var n := IndexOf(s[1..], c);
      assert s[..n + 1] == [s[0]] + s[1..][..n];
      n + 1
  }

  /** Blank lines, comments and lines without "=" are skipped; a later line for a name replaces an earlier. */
  function AddLine(kv: map<string, string>, raw: string): map<string, string> {
    var line := Trim(raw);
    if line == "" || line[0] == '#' || '=' !in line then kv
    else
      var i := IndexOf(line, '=');
      kv[Trim(line[..i]) := Trim(line[i + 1..])]
  }

  function AddLines(kv: map<string, string>, lines: seq<string>): map<string, string>
    decreases |lines|
  {
    if lines == [] then kv else AddLines(AddLine(kv, lines[0]), lines[1..])
  }

  /** The entries of a file. */
  function Parse(text: string): map<string, string> {
    AddLines(map[], Lines(text))
  }

  function LineOf(name: string, enc: string): string {
    name + " = " + enc
  }

  function LinesOf(names: seq<string>, kv: map<string, string>): string
    requires forall n :: n in names ==> n in kv
  {
    if names == [] then "" else LineOf(names[0], kv[names[0]]) + "\n" + LinesOf(names[1..], kv)
  }

  ghost predicate IsListing(names: seq<string>, keys: set<string>) {
    Sorted(StringLe, names) && Distinct(names) && forall n :: n in names <==> n in keys
  }

  /** text is what kv is written as: its entries, sorted by name. */
  ghost predicate IsRendering(text: string, kv: map<string, string>) {
    exists names :: IsListing(names, kv.Keys) && text == LinesOf(names, kv)
  }

  /** A name the file can hold. */
  predicate WellFormed(name: string) {
    Trimmed(name) && '\n' !in name && '=' !in name && (name == "" || name[0] != '#')
  }

  predicate Clean(enc: string) {
    Trimmed(enc) && '\n' !in enc
  }

  predicate Representable(kv: map<string, string>) {
    forall n | n in kv :: WellFormed(n) && Clean(kv[n])
  }

  // ---- A rendering has one form ----

  lemma FirstLeast(names: seq<string>, n: string)
    requires Sorted(StringLe, names) && n in names
    ensures StringLe(names[0], n)
  {
    StringLeTotal(n, n);
  }

  lemma {:induction false} ListingUnique(a: seq<string>, b: seq<string>, keys: set<string>)
    requires IsListing(a, keys) && IsListing(b, keys)
    ensures a == b
    decreases |a|
  {
    if a == [] {
      if b != [] { SameFirst(b, a, keys); }
    } else {
      SameFirst(a, b, keys);
      ListingTail(a, keys);
      ListingTail(b, keys);
      ListingUnique(a[1..], b[1..], keys - {a[0]});
      assert a == [a[0]] + a[1..] && b == [b[0]] + b[1..];
    }
  }

  lemma SameFirst(a: seq<string>, b: seq<string>, keys: set<string>)
    requires IsListing(a, keys) && IsListing(b, keys) && a != []
    ensures b != [] && a[0] == b[0]
  {
    assert a[0] in keys;
    assert b[0] in keys;
    FirstLeast(a, b[0]);
    FirstLeast(b, a[0]);
    StringLeTotal(a[0], b[0]);
  }

  lemma ListingTail(a: seq<string>, keys: set<string>)
    requires IsListing(a, keys) && a != []
    ensures IsListing(a[1..], keys - {a[0]})
  {
    assert a == [a[0]] + a[1..];
    forall n ensures n in a[1..] <==> n in keys - {a[0]} {
      if n == a[0] {
        assert n !in a[1..];
      }
    }
  }

  lemma RenderingUnique(a: string, b: string, kv: map<string, string>)
    requires IsRendering(a, kv) && IsRendering(b, kv)
    ensures a == b
  {
    var m :| IsListing(m, kv.Keys) && a == LinesOf(m, kv);
    var n :| IsListing(n, kv.Keys) && b == LinesOf(n, kv);
    ListingUnique(m, n, kv.Keys);
  }

  // ---- Reading back what was written ----

  lemma {:induction false} LinesFirst(line: string, rest: string)
    requires '\n' !in line
    ensures Lines(line + "\n" + rest) == [line] + Lines(rest)
  {
    var s := line + "\n" + rest;
    if line == "" {
      assert s[1..] == rest;
    } else {
      assert s[1..] == line[1..] + "\n" + rest;
      LinesFirst(line[1..], rest);
      assert line == [line[0]] + line[1..];
    }
  }

  lemma {:induction false} TrimRightSpaces(s: string, spaces: string)
    requires s == "" || !IsSpace(s[|s| - 1])
    requires forall i :: 0 <= i < |spaces| ==> IsSpace(spaces[i])
    ensures TrimRight(s + spaces) == s
  {
    if spaces == "" {
      assert s + spaces == s;
    } else {
      assert (s + spaces)[..|s + spaces| - 1] == s + spaces[..|spaces| - 1];
      TrimRightSpaces(s, spaces[..|spaces| - 1]);
    }
  }

  lemma TrimSpaceBefore(s: string)
    requires Trimmed(s)
    ensures Trim(" " + s) == s && Trim(s) == s
  {
    assert (" " + s)[1..] == s;
    assert TrimLeft(s) == s && TrimLeft(" " + s) == s;
    assert TrimRight(s) == s;
  }

  lemma TrimSpaceBehind(s: string)
    requires Trimmed(s)
    ensures Trim(s + " ") == s
  {
    TrimRightSpaces(s, " ");
    if s == "" {
      assert s + " " == " " && " "[1..] == "";
    }
  }

  /** The line of an entry loses a blank at an end where the name or the ciphertext is empty. */
  lemma TrimLine(name: string, enc: string)
    requires Trimmed(name) && Trimmed(enc)
    ensures var before, behind := if name == "" then "" else name + " ", if enc == "" then "" else " " + enc;
      Trim(LineOf(name, enc)) == before + "=" + behind
  {
    var before, behind := if name == "" then "" else name + " ", if enc == "" then "" else " " + enc;
    var core := before + "=" + behind;
    var line := LineOf(name, enc);
    assert Trimmed(core);
    var tail := if enc == "" then " " else "";
    if name == "" {
      assert line == " " + (core + tail) && line[1..] == core + tail;
    } else {
      assert line == core + tail;
    }
    assert TrimLeft(core + tail) == core + tail;
    TrimRightSpaces(core, tail);
  }

  lemma {:induction false} IndexOfIs(a: string, c: char, b: string)
    requires c !in a
    ensures IndexOf(a + [c] + b, c) == |a|
  {
    if a != "" {
      assert (a + [c] + b)[1..] == a[1..] + [c] + b;
      IndexOfIs(a[1..], c, b);
    }
  }

  lemma CutLine(kv: map<string, string>, raw: string, before: string, behind: string)
    requires Trim(raw) == before + "=" + behind && '=' !in before && (before == "" || before[0] != '#')
    ensures AddLine(kv, raw) == kv[Trim(before) := Trim(behind)]
  {
    var line := before + "=" + behind;
    IndexOfIs(before, '=', behind);
    assert line == before + ['='] + behind && line[|before|] == '=';
    assert line[..|before|] == before && line[|before| + 1..] == behind;
  }

  /** A line written for an entry is read as that entry. */
  lemma LineRoundTrip(kv: map<string, string>, name: string, enc: string)
    requires WellFormed(name) && Trimmed(enc)
    ensures AddLine(kv, LineOf(name, enc)) == kv[name := enc]
  {
    var before, behind := if name == "" then "" else name + " ", if enc == "" then "" else " " + enc;
    TrimLine(name, enc);
    CutLine(kv, LineOf(name, enc), before, behind);
    TrimSpaceBehind(name);
    TrimSpaceBefore(enc);
  }

  /** The entries of kv with the given names, over those of acc. */
  function With(acc: map<string, string>, names: seq<string>, kv: map<string, string>): map<string, string>
    requires forall n :: n in names ==> n in kv
  {
    acc + map n | n in names :: kv[n]
  }

  lemma WithFirst(acc: map<string, string>, names: seq<string>, kv: map<string, string>)
    requires (forall n :: n in names ==> n in kv) && names != []
    ensures With(acc[names[0] := kv[names[0]]], names[1..], kv) == With(acc, names, kv)
  {
    assert names == [names[0]] + names[1..];
  }

  lemma {:induction false} LinesRoundTrip(names: seq<string>, kv: map<string, string>, acc: map<string, string>)
    requires (forall n :: n in names ==> n in kv) && Representable(kv)
    ensures AddLines(acc, Lines(LinesOf(names, kv))) == With(acc, names, kv)
    decreases |names|
  {
    if names == [] {
      assert Lines("") == [""] && [""][1..] == [];
      assert AddLine(acc, "") == acc;
    } else {
      var name, enc := names[0], kv[names[0]];
      LinesFirst(LineOf(name, enc), LinesOf(names[1..], kv));
      LineRoundTrip(acc, name, enc);
      LinesRoundTrip(names[1..], kv, acc[name := enc]);
      WithFirst(acc, names, kv);
      AddLinesFirst(acc, LineOf(name, enc), Lines(LinesOf(names[1..], kv)));
    }
  }

  lemma AddLinesFirst(acc: map<string, string>, line: string, lines: seq<string>)
    ensures AddLines(acc, [line] + lines) == AddLines(AddLine(acc, line), lines)
  {
    assert ([line] + lines)[1..] == lines;
  }

  /** What is read from any file is representable. */
  lemma {:induction false} AddLinesRepresentable(kv: map<string, string>, lines: seq<string>)
    requires Representable(kv) && forall i :: 0 <= i < |lines| ==> '\n' !in lines[i]
    ensures Representable(AddLines(kv, lines))
    decreases |lines|
  {
    if lines != [] {
      AddLineRepresentable(kv, lines[0]);
      AddLinesRepresentable(AddLine(kv, lines[0]), lines[1..]);
    }
  }

  lemma AddLineRepresentable(kv: map<string, string>, raw: string)
    requires Representable(kv) && '\n' !in raw
    ensures Representable(AddLine(kv, raw))
  {
    var line := Trim(raw);
    if line != "" && line[0] != '#' && '=' in line {
      var i := IndexOf(line, '=');
      NameRepresentable(line, i);
      assert Clean(Trim(line[i + 1..]));
    }
  }

  lemma NameRepresentable(line: string, i: nat)
    requires i < |line| && Trimmed(line) && '\n' !in line && '=' !in line[..i] && line[0] != '#'
    ensures WellFormed(Trim(line[..i]))
  {
    var before := line[..i];
    if i > 0 {
      assert before[0] == line[0];
      assert TrimLeft(before) == before;
      assert Trim(before) <= before;
    }
  }

  /** Reading back what was written gives the same entries if and only if every name is well formed and
      every ciphertext is clean. */
  lemma RoundTripIff(text: string, kv: map<string, string>)
    requires IsRendering(text, kv)
    ensures Parse(text) == kv <==> Representable(kv)
  {
    ParseRepresentable(text);
    if Representable(kv) {
      RoundTrip(text, kv);
    }
  }

  lemma RoundTrip(text: string, kv: map<string, string>)
    requires IsRendering(text, kv) && Representable(kv)
    ensures Parse(text) == kv
  {
    var names :| IsListing(names, kv.Keys) && text == LinesOf(names, kv);
    LinesRoundTrip(names, kv, map[]);
    WithAll(names, kv);
  }

  lemma WithAll(names: seq<string>, kv: map<string, string>)
    requires forall n :: n in names <==> n in kv
    ensures With(map[], names, kv) == kv
  {
  }

  lemma ParseRepresentable(text: string)
    ensures Representable(Parse(text))
  {
    AddLinesRepresentable(map[], Lines(text));
  }

  // ---- What each further line does ----

  lemma {:induction false} LinesLast(text: string, line: string)
    requires '\n' !in line
    ensures Lines(text + "\n" + line) == Lines(text) + [line]
  {
    var s := text + "\n" + line;
    if text == "" {
      OneLine(line);
      assert s[1..] == line;
    } else {
      assert s[1..] == text[1..] + "\n" + line;
      LinesLast(text[1..], line);
    }
  }

  lemma {:induction false} OneLine(line: string)
    requires '\n' !in line
    ensures Lines(line) == [line]
  {
    if line != "" {
      OneLine(line[1..]);
      assert line == [line[0]] + line[1..];
    }
  }

  lemma {:induction false} AddLinesLast(kv: map<string, string>, lines: seq<string>, line: string)
    ensures AddLines(kv, lines + [line]) == AddLine(AddLines(kv, lines), line)
    decreases |lines|
  {
    if lines == [] {
      assert [line][1..] == [] && lines + [line] == [line];
    } else {
      assert (lines + [line])[1..] == lines[1..] + [line];
      AddLinesLast(AddLine(kv, lines[0]), lines[1..], line);
    }
  }

  lemma ParseLast(text: string, line: string)
    requires '\n' !in line
    ensures Parse(text + "\n" + line) == AddLine(Parse(text), line)
  {
    LinesLast(text, line);
    AddLinesLast(map[], Lines(text), line);
  }

  ghost predicate Blanks(s: string) {
    forall i :: 0 <= i < |s| ==> s[i] == ' ' || s[i] == '\t' || s[i] == '\r'
  }

  lemma {:induction false} TrimLeftBlanks(a: string, s: string)
    requires Blanks(a)
    ensures TrimLeft(a + s) == TrimLeft(s)
  {
    if a == "" {
      assert a + s == s;
    } else {
      assert (a + s)[1..] == a[1..] + s;
      TrimLeftBlanks(a[1..], s);
    }
  }

  /** Blanks around it are trimmed off. */
  lemma TrimBlanks(a: string, core: string, b: string)
    requires Blanks(a) && Blanks(b) && Trimmed(core)
    ensures Trim(a + core + b) == core
  {
    assert a + core + b == a + (core + b);
    TrimLeftBlanks(a, core + b);
    if core == "" {
      assert core + b == b + "";
      TrimLeftBlanks(b, "");
    } else {
      assert TrimLeft(core + b) == core + b;
      TrimRightSpaces(core, b);
    }
  }

  /** The trimmed line of an entry: the blanks next to an empty name or value go, too. */
  lemma TrimEntry(a: string, name: string, b: string, c: string, enc: string, d: string)
    requires Blanks(a) && Blanks(b) && Blanks(c) && Blanks(d) && Trimmed(name) && Trimmed(enc)
    ensures var before, behind := if name == "" then "" else name + b, if enc == "" then "" else c + enc;
      Trim(a + name + b + "=" + c + enc + d) == before + "=" + behind
  {
    var before, behind := if name == "" then "" else name + b, if enc == "" then "" else c + enc;
    var core := before + "=" + behind;
    var front, back := if name == "" then a + b else a, if enc == "" then c + d else d;
    assert a + name + b + "=" + c + enc + d == front + core + back;
    TrimBlanks(front, core, back);
  }

  /** One more line with an entry sets exactly that entry, however blanks stand around name and value, and whatever
      the file held for the name. */
  lemma EntryAppended(text: string, a: string, name: string, b: string, c: string, enc: string, d: string)
    requires Blanks(a) && Blanks(b) && Blanks(c) && Blanks(d) && WellFormed(name) && Clean(enc)
    ensures Parse(text + "\n" + (a + name + b + "=" + c + enc + d)) == Parse(text)[name := enc]
  {
    var line := a + name + b + "=" + c + enc + d;
    ParseLast(text, line);
    EntryLine(Parse(text), a, name, b, c, enc, d);
  }

  lemma EntryLine(kv: map<string, string>, a: string, name: string, b: string, c: string, enc: string, d: string)
    requires Blanks(a) && Blanks(b) && Blanks(c) && Blanks(d) && WellFormed(name) && Clean(enc)
    ensures AddLine(kv, a + name + b + "=" + c + enc + d) == kv[name := enc]
  {
    var before, behind := if name == "" then "" else name + b, if enc == "" then "" else c + enc;
    TrimEntry(a, name, b, c, enc, d);
    NoEqualsIn(name, b);
    CutLine(kv, a + name + b + "=" + c + enc + d, before, behind);
    TrimEnds(name, b, c, enc);
  }

  lemma NoEqualsIn(name: string, b: string)
    requires Blanks(b) && WellFormed(name)
    ensures '=' !in name + b && (name != "" ==> (name + b)[0] != '#')
  {
  }

  lemma TrimEnds(name: string, b: string, c: string, enc: string)
    requires Blanks(b) && Blanks(c) && Trimmed(name) && Trimmed(enc)
    ensures Trim(name + b) == name && Trim(c + enc) == enc && Trim("") == ""
  {
    assert "" + name + b == name + b && c + enc + "" == c + enc;
    TrimBlanks("", name, b);
    TrimBlanks(c, enc, "");
  }

  /** One more line that is blank, a comment, or without an equals sign changes nothing. */
  lemma OtherLineAppended(text: string, a: string, rest: string)
    requires Blanks(a) && '\n' !in rest && (rest == "" || rest[0] == '#' || '=' !in rest)
    ensures Parse(text + "\n" + (a + rest)) == Parse(text)
  {
    ParseLast(text, a + rest);
    TrimLeftBlanks(a, rest);
    if rest != "" && rest[0] == '#' {
      assert TrimLeft(rest) == rest;
      HashStays(rest);
    }
  }

  lemma {:induction false} HashStays(s: string)
    requires s != "" && s[0] == '#'
    ensures TrimRight(s) != "" && TrimRight(s)[0] == '#'
  {
    if IsSpace(s[|s| - 1]) {
      HashStays(s[..|s| - 1]);
    }
  }

  // ---- The loops ----

  method ReadText(text: string) returns (kv: map<string, string>)
    ensures kv == Parse(text)
  {
    var lines := Lines(text);
    kv := map[];
    assert lines[0..] == lines;
    for i := 0 to |lines|
      invariant AddLines(kv, lines[i..]) == Parse(text)
    {
      assert lines[i..][1..] == lines[i + 1..];
      var line := Trim(lines[i]);
      if line == "" || line[0] == '#' || '=' !in line {
        continue;
      }
      var at := IndexOf(line, '=');
      kv := kv[Trim(line[..at]) := Trim(line[at + 1..])];
    }
    assert lines[|lines|..] == [];
  }

  lemma StringLeOrder()
    ensures TotalPreorder(StringLe)
  {
    forall a, b ensures StringLe(a, b) || StringLe(b, a) { StringLeTotal(a, b); }
    forall a, b, c | StringLe(a, b) && StringLe(b, c) ensures StringLe(a, c) { StringLeTransitive(a, b, c); }
  }

  /** The names in order. */
  method SortedNames(kv: map<string, string>) returns (names: seq<string>)
    ensures IsListing(names, kv.Keys)
  {
    var left := kv.Keys;
    var all: seq<string> := [];
    while left != {}
      invariant left <= kv.Keys && Distinct(all)
      invariant forall n :: n in all <==> n in kv.Keys - left
      decreases |left|
    {
      var n :| n in left;
      DistinctSnoc(all, n);
      all := all + [n];
      left := left - {n};
    }
    names := Sort(StringLe, all);
    StringLeOrder();
    SortCorrect(StringLe, all);
    DistinctPermutation(all, names);
    forall n ensures n in names <==> n in all {
      assert n in multiset(names) <==> n in multiset(all);
    }
  }

  method RenderKV(kv: map<string, string>) returns (text: string)
    ensures IsRendering(text, kv)
  {
    var names := SortedNames(kv);
    text := "";
    for i := 0 to |names|
      invariant text == LinesOf(names[..i], kv)
    {
      LinesOfSnoc(names[..i], names[i], kv);
      assert names[..i + 1] == names[..i] + [names[i]];
      text := text + names[i] + " = " + kv[names[i]] + "\n";
    }
    assert names[..|names|] == names;
  }

  lemma {:induction false} LinesOfSnoc(names: seq<string>, n: string, kv: map<string, string>)
    requires (forall m :: m in names ==> m in kv) && n in kv
    ensures LinesOf(names + [n], kv) == LinesOf(names, kv) + n + " = " + kv[n] + "\n"
  {
    if names == [] {
      assert [n][1..] == [];
      assert LinesOf([], kv) == "";
      assert LinesOf([n], kv) == LineOf(n, kv[n]) + "\n" + "";
    } else {
      assert (names + [n])[1..] == names[1..] + [n];
      LinesOfSnoc(names[1..], n, kv);
    }
  }
}
