/** Installing the observer hooks into a harness's JSON config, and taking them out again. */
module Hooks {
  import opened Wrappers

  datatype Json =
    | Null
    | Bool(b: bool)
    | Num(n: real)
    | Str(s: string)
    | Arr(items: seq<Json>)
    | Obj(fields: map<string, Json>)

  type Doc = map<string, Json>

  /** A config file: missing, not JSON, or what it holds. */
  datatype File = Absent | Unparseable(text: string) | Holds(json: Json)

  const PREFIX: string := "ladym hook "

  // ---- Hook entries ----

  predicate Ours(h: Json) {
    h.Obj? && "command" in h.fields && h.fields["command"].Str? && PREFIX <= h.fields["command"].s
  }

  function NewHook(harness: string, withTimeout: bool): (h: Json)
    ensures Ours(h)
    ensures h.Obj? && h.fields.Keys == {"type", "command"} + if withTimeout then {"timeout"} else {}
    ensures h.fields["type"] == Str("command") && h.fields["command"] == Str("ladym hook --harness " + harness)
    ensures withTimeout ==> h.fields["timeout"] == Num(10.0)
  {
    var fields := map["type" := Str("command"), "command" := Str(PREFIX + "--harness " + harness)];
    Obj(if withTimeout then fields["timeout" := Num(10.0)] else fields)
  }

  function NewGroup(harness: string, withTimeout: bool): (g: Json)
    ensures g == Obj(map["hooks" := Arr([NewHook(harness, withTimeout)])])
  {
    Obj(map["hooks" := Arr([NewHook(harness, withTimeout)])])
  }

  /** The hook entries of a group; none if it has no list of them. */
  function HooksOf(group: Json): seq<Json> {
    if group.Obj? && "hooks" in group.fields && group.fields["hooks"].Arr? then group.fields["hooks"].items else []
  }

  predicate HasOurs(groups: seq<Json>) {
    exists g :: g in groups && exists h :: h in HooksOf(g) && Ours(h)
  }

  function Cell(hooks: Doc, ev: string): Option<Json> {
    if ev in hooks then Some(hooks[ev]) else None
  }

  // ---- What installing and uninstalling make of the hooks object ----

  predicate BadShape(v: Option<Json>) {
    v.Some? && !v.value.Arr? && !v.value.Null?
  }

  function Added(v: Option<Json>, group: Json): Json {
    if v.Some? && v.value.Arr? then
      if HasOurs(v.value.items) then v.value else Arr(v.value.items + [group])
    else Arr([group])
  }

  predicate CanInstall(hooks: Doc, events: seq<string>) {
    forall ev :: ev in events ==> !BadShape(Cell(hooks, ev))
  }

  ghost function Installed(hooks: Doc, events: seq<string>, group: Json): Doc {
    map ev | ev in hooks.Keys + (set e | e in events) ::
      if ev in events then Added(Cell(hooks, ev), group) else hooks[ev]
  }

  function KeptHooks(hs: seq<Json>): seq<Json> {
    if hs == [] then [] else (if Ours(hs[0]) then [] else [hs[0]]) + KeptHooks(hs[1..])
  }

  /** What stays of one group: it goes when no hook entry is left in it; what is no group stays as it is. */
  function KeptGroup(g: Json): seq<Json> {
    if !g.Obj? then [g]
    else
      var kept := KeptHooks(HooksOf(g));
      if kept == [] then [] else [Obj(g.fields["hooks" := Arr(kept)])]
  }

  function KeptGroups(groups: seq<Json>): seq<Json> {
    if groups == [] then [] else KeptGroup(groups[0]) + KeptGroups(groups[1..])
  }

  /** Stays when it is no list, or when groups are left in it. */
  predicate Stays(v: Json) {
    v.Arr? ==> KeptGroups(v.items) != []
  }

  function Kept(v: Json): Json {
    if v.Arr? then Arr(KeptGroups(v.items)) else v
  }

  ghost function Uninstalled(hooks: Doc): Doc {
    map ev | ev in hooks && Stays(hooks[ev]) :: Kept(hooks[ev])
  }

  // ---- Laws of installing ----

  lemma AddedHasOurs(v: Option<Json>, group: Json)
    requires exists h :: h in HooksOf(group) && Ours(h)
    ensures Added(v, group).Arr? && HasOurs(Added(v, group).items)
  {
    assert group in Added(v, group).items || HasOurs(Added(v, group).items);
  }

  /** Installing leaves every installed event with a hook of ours, behind the groups it had. */
  lemma InstalledAll(hooks: Doc, events: seq<string>, group: Json)
    requires exists h :: h in HooksOf(group) && Ours(h)
    ensures forall ev :: ev in events ==>
      && var v := Installed(hooks, events, group)[ev];
      && v.Arr? && HasOurs(v.items) && (ev in hooks && hooks[ev].Arr? ==> hooks[ev].items <= v.items)
    ensures forall ev :: ev !in events ==> Cell(Installed(hooks, events, group), ev) == Cell(hooks, ev)
  {
    forall ev | ev in events
      ensures Added(Cell(hooks, ev), group).Arr? && HasOurs(Added(Cell(hooks, ev), group).items)
    {
      AddedHasOurs(Cell(hooks, ev), group);
    }
  }

  /** An event whose groups hold a hook of ours keeps its groups, one with other groups gets ours behind them, and one
      without or with a null gets ours alone. */
  lemma InstalledExactly(hooks: Doc, events: seq<string>, group: Json, ev: string)
    requires ev in events
    ensures var v := Installed(hooks, events, group)[ev];
      && (ev in hooks && hooks[ev].Arr? ==>
            v == if HoldsOurs(hooks[ev].items) then hooks[ev] else Arr(hooks[ev].items + [group]))
      && (!(ev in hooks && hooks[ev].Arr?) ==> v == Arr([group]))
  {
    if ev in hooks && hooks[ev].Arr? {
      HoldsOursIff(hooks[ev].items);
    }
  }

  /** Some group lists an object whose command begins with our prefix. */
  ghost predicate HoldsOurs(groups: seq<Json>) {
    exists i, j :: 0 <= i < |groups| && 0 <= j < |HooksOf(groups[i])| && IsOurCommand(HooksOf(groups[i])[j])
  }

  ghost predicate IsOurCommand(h: Json) {
    && h.Obj? && "command" in h.fields && h.fields["command"].Str?
    && |h.fields["command"].s| >= 11 && h.fields["command"].s[..11] == "ladym hook "
  }

  lemma OursIff(h: Json)
    ensures Ours(h) <==> IsOurCommand(h)
  {
    assert |PREFIX| == 11;
  }

  lemma HoldsOursIff(groups: seq<Json>)
    ensures HasOurs(groups) <==> HoldsOurs(groups)
  {
    if g :| g in groups && exists h :: h in HooksOf(g) && Ours(h) {
      var h :| h in HooksOf(g) && Ours(h);
      var i :| 0 <= i < |groups| && groups[i] == g;
      var j :| 0 <= j < |HooksOf(g)| && HooksOf(g)[j] == h;
      OursIff(h);
    }
    if i, j :| 0 <= i < |groups| && 0 <= j < |HooksOf(groups[i])| && IsOurCommand(HooksOf(groups[i])[j]) {
      OursIff(HooksOf(groups[i])[j]);
      assert groups[i] in groups && HooksOf(groups[i])[j] in HooksOf(groups[i]);
    }
  }

  /** Installing again changes nothing, whatever harness it is for. */
  lemma InstallIdempotent(hooks: Doc, events: seq<string>, group: Json, other: Json)
    requires exists h :: h in HooksOf(group) && Ours(h)
    ensures CanInstall(Installed(hooks, events, group), events)
    ensures Installed(Installed(hooks, events, group), events, other) == Installed(hooks, events, group)
  {
    InstalledAll(hooks, events, group);
  }

  // ---- Laws of uninstalling ----

  lemma {:induction false} KeptHooksConcat(a: seq<Json>, b: seq<Json>)
    ensures KeptHooks(a + b) == KeptHooks(a) + KeptHooks(b)
  {
    if a == [] {
      assert a + b == b;
    } else {
      assert (a + b)[1..] == a[1..] + b;
      KeptHooksConcat(a[1..], b);
    }
  }

  lemma {:induction false} KeptGroupsConcat(a: seq<Json>, b: seq<Json>)
    ensures KeptGroups(a + b) == KeptGroups(a) + KeptGroups(b)
  {
    if a == [] {
      assert a + b == b;
    } else {
      assert (a + b)[1..] == a[1..] + b;
      KeptGroupsConcat(a[1..], b);
    }
  }

  lemma {:induction false} KeptHooksNotOurs(hs: seq<Json>)
    ensures forall h :: h in KeptHooks(hs) <==> h in hs && !Ours(h)
    ensures |KeptHooks(hs)| <= |hs|
    ensures KeptHooks(hs) == hs <==> forall h :: h in hs ==> !Ours(h)
  {
    if hs != [] {
      KeptHooksNotOurs(hs[1..]);
      assert hs == [hs[0]] + hs[1..];
      if !Ours(hs[0]) {
        assert KeptHooks(hs)[1..] == KeptHooks(hs[1..]);
      }
    }
  }

  /** All hook entries of a list of groups, in order. */
  function AllHooks(groups: seq<Json>): seq<Json> {
    if groups == [] then [] else HooksOf(groups[0]) + AllHooks(groups[1..])
  }

  lemma {:induction false} AllHooksConcat(a: seq<Json>, b: seq<Json>)
    ensures AllHooks(a + b) == AllHooks(a) + AllHooks(b)
  {
    if a == [] {
      assert a + b == b;
    } else {
      assert (a + b)[1..] == a[1..] + b;
      AllHooksConcat(a[1..], b);
    }
  }

  lemma OneGroupKept(g: Json)
    ensures AllHooks(KeptGroup(g)) == KeptHooks(HooksOf(g))
    ensures |KeptGroup(g)| <= 1
  {
    assert AllHooks([]) == [];
    forall k ensures AllHooks([k]) == HooksOf(k) { assert [k][1..] == []; }
  }

  /** Of one group uninstalling leaves nothing if it is an object without a foreign hook, and otherwise the group with
      all its fields, its foreign hooks being the list under "hooks"; what is no object stays as it is. */
  ghost predicate StrippedTo(g: Json, left: Json) {
    if !g.Obj? then left == g
    else
      && left.Obj? && left.fields.Keys == g.fields.Keys
      && (forall key :: key in g.fields && key != "hooks" ==> left.fields[key] == g.fields[key])
      && "hooks" in left.fields && left.fields["hooks"] == Arr(KeptHooks(HooksOf(g)))
  }

  ghost predicate HoldsForeign(g: Json) {
    g.Obj? ==> exists j :: 0 <= j < |HooksOf(g)| && !IsOurCommand(HooksOf(g)[j])
  }

  lemma GroupStripped(g: Json)
    ensures KeptGroup(g) == [] <==> !HoldsForeign(g)
    ensures HoldsForeign(g) ==> |KeptGroup(g)| == 1 && StrippedTo(g, KeptGroup(g)[0])
  {
    KeptHooksNotOurs(HooksOf(g));
    forall h { OursIff(h); }
    if g.Obj? && KeptHooks(HooksOf(g)) != [] {
      var h := KeptHooks(HooksOf(g))[0];
      assert h in KeptHooks(HooksOf(g));
      var j :| 0 <= j < |HooksOf(g)| && HooksOf(g)[j] == h;
    }
    if g.Obj? && HoldsForeign(g) {
      var j :| 0 <= j < |HooksOf(g)| && !IsOurCommand(HooksOf(g)[j]);
      assert HooksOf(g)[j] in KeptHooks(HooksOf(g));
    }
  }

  /** The groups left are those that hold a foreign hook, or are no objects, in their order, each less our hooks. */
  lemma {:induction false} GroupsLeft(groups: seq<Json>) returns (at: seq<nat>)
    ensures |at| == |KeptGroups(groups)|
    ensures forall k :: 0 <= k < |at| ==> at[k] < |groups| && StrippedTo(groups[at[k]], KeptGroups(groups)[k])
    ensures forall k, l :: 0 <= k < l < |at| ==> at[k] < at[l]
    ensures forall i: nat :: i in at <==> i < |groups| && HoldsForeign(groups[i])
  {
    if groups == [] {
      at := [];
    } else {
      var n := |groups| - 1;
      at := GroupsLeft(groups[..n]);
      GroupStripped(groups[n]);
      assert groups == groups[..n] + [groups[n]];
      KeptGroupsConcat(groups[..n], [groups[n]]);
      assert [groups[n]][1..] == [] && KeptGroups([groups[n]]) == KeptGroup(groups[n]) + [];
      if HoldsForeign(groups[n]) {
        at := at + [n];
      }
    }
  }

  /** Uninstalling keeps exactly the hook entries that are not ours, in their order. */
  lemma {:induction false} OthersKeptInOrder(groups: seq<Json>)
    ensures AllHooks(KeptGroups(groups)) == KeptHooks(AllHooks(groups))
  {
    if groups != [] {
      OthersKeptInOrder(groups[1..]);
      OneGroupKept(groups[0]);
      AllHooksConcat(KeptGroup(groups[0]), KeptGroups(groups[1..]));
      KeptHooksConcat(HooksOf(groups[0]), AllHooks(groups[1..]));
    }
  }

  lemma {:induction false} AllHooksCollect(groups: seq<Json>)
    ensures HasOurs(groups) <==> exists h :: h in AllHooks(groups) && Ours(h)
  {
    if groups != [] {
      AllHooksCollect(groups[1..]);
      assert groups == [groups[0]] + groups[1..];
    }
  }

  /** No hook of ours is left anywhere. */
  lemma NoneLeft(hooks: Doc, ev: string)
    requires ev in Uninstalled(hooks) && Uninstalled(hooks)[ev].Arr?
    ensures !HasOurs(Uninstalled(hooks)[ev].items)
  {
    var groups := hooks[ev].items;
    AllHooksCollect(KeptGroups(groups));
    OthersKeptInOrder(groups);
    KeptHooksNotOurs(AllHooks(groups));
  }

  // ---- Uninstalling takes back what installing did ----

  /** A group uninstalling leaves as it is. */
  predicate CleanGroup(g: Json) {
    g.Obj? ==> HooksOf(g) != [] && forall h :: h in HooksOf(g) ==> !Ours(h)
  }

  predicate CleanGroups(groups: seq<Json>) {
    forall g :: g in groups ==> CleanGroup(g)
  }

  lemma CleanGroupKept(g: Json)
    ensures KeptGroup(g) == [g] <==> CleanGroup(g)
  {
    KeptHooksNotOurs(HooksOf(g));
    if g.Obj? && KeptHooks(HooksOf(g)) != [] {
      var kept := KeptHooks(HooksOf(g));
      assert KeptGroup(g) == [Obj(g.fields["hooks" := Arr(kept)])];
      if kept == HooksOf(g) {
        assert g.fields["hooks" := Arr(kept)] == g.fields;
      } else {
        assert g.fields["hooks" := Arr(kept)]["hooks"] == Arr(kept);
      }
    }
  }

  /** At most one element in front of at most |rest| makes [x] + rest only from the same parts. */
  lemma SameParts<T>(front: seq<T>, back: seq<T>, x: T, rest: seq<T>)
    requires |front| <= 1 && |back| <= |rest|
    ensures front + back == [x] + rest <==> front == [x] && back == rest
  {
    if front + back == [x] + rest {
      assert |front| == 1;
      assert front == (front + back)[..1] && back == (front + back)[1..];
      assert [x] == ([x] + rest)[..1] && rest == ([x] + rest)[1..];
    }
  }

  lemma {:induction false} KeptGroupsShrink(groups: seq<Json>)
    ensures |KeptGroups(groups)| <= |groups|
    ensures KeptGroups(groups) == groups <==> CleanGroups(groups)
  {
    if groups != [] {
      var g, rest := groups[0], groups[1..];
      KeptGroupsShrink(rest);
      CleanGroupKept(g);
      OneGroupKept(g);
      assert groups == [g] + rest;
      SameParts(KeptGroup(g), KeptGroups(rest), g, rest);
      CleanGroupsCons(g, rest);
    }
  }

  lemma CleanGroupsCons(g: Json, rest: seq<Json>)
    ensures CleanGroups([g] + rest) <==> CleanGroup(g) && CleanGroups(rest)
  {
    assert g in [g] + rest;
    assert forall r :: r in rest ==> r in [g] + rest;
  }

  predicate CleanValue(v: Json) {
    v.Arr? ==> v.items != [] && CleanGroups(v.items)
  }

  lemma CleanValueKept(v: Json)
    ensures Stays(v) && Kept(v) == v <==> CleanValue(v)
  {
    if v.Arr? {
      KeptGroupsShrink(v.items);
    }
  }

  lemma GroupOfOursGoes(groups: seq<Json>, group: Json)
    requires group.Obj? && KeptHooks(HooksOf(group)) == []
    ensures KeptGroups(groups + [group]) == KeptGroups(groups)
  {
    KeptGroupsConcat(groups, [group]);
    assert [group][1..] == [];
    assert KeptGroups([group]) == KeptGroup(group) + [];
  }

  /** The events whose null installing replaces. */
  ghost function NullEvents(hooks: Doc, events: seq<string>): set<string> {
    set ev | ev in events && ev in hooks && hooks[ev].Null?
  }

  lemma AddedGoes(v: Option<Json>, group: Json)
    requires group.Obj? && KeptHooks(HooksOf(group)) == [] && !BadShape(v)
    ensures Stays(Added(v, group)) <==> v.Some? && v.value.Arr? && Stays(v.value)
    ensures Stays(Added(v, group)) ==> Kept(Added(v, group)) == Kept(v.value)
  {
    GroupOfOursGoes(if v.Some? && v.value.Arr? then v.value.items else [], group);
    assert [] + [group] == [group];
  }

  /** To uninstall after installing is to uninstall, but for the nulls that installing replaced. */
  lemma UninstallCancelsInstall(hooks: Doc, events: seq<string>, group: Json)
    requires CanInstall(hooks, events) && group.Obj? && KeptHooks(HooksOf(group)) == []
    ensures Uninstalled(Installed(hooks, events, group)) == Uninstalled(hooks) - NullEvents(hooks, events)
  {
    var installed := Installed(hooks, events, group);
    forall ev
      ensures Cell(Uninstalled(installed), ev) == Cell(Uninstalled(hooks) - NullEvents(hooks, events), ev)
    {
      if ev in events {
        AddedGoes(Cell(hooks, ev), group);
      }
    }
    SameCells(Uninstalled(installed), Uninstalled(hooks) - NullEvents(hooks, events));
  }

  lemma SameCells(a: Doc, b: Doc)
    requires forall ev :: Cell(a, ev) == Cell(b, ev)
    ensures a == b
  {
    forall ev ensures ev in a <==> ev in b { assert Cell(a, ev) == Cell(b, ev); }
    forall ev | ev in a ensures a[ev] == b[ev] { assert Cell(a, ev) == Cell(b, ev); }
  }

  /** Every list of groups is one uninstalling leaves as it is, and no installed event holds a null. */
  predicate CleanHooks(hooks: Doc, events: seq<string>) {
    && (forall ev | ev in hooks :: CleanValue(hooks[ev]))
    && (forall ev | ev in hooks :: ev in events ==> !hooks[ev].Null?)
  }

  lemma RestoredIff(hooks: Doc, events: seq<string>, group: Json)
    requires CanInstall(hooks, events) && group.Obj? && KeptHooks(HooksOf(group)) == []
    ensures Uninstalled(Installed(hooks, events, group)) == hooks <==> CleanHooks(hooks, events)
  {
    UninstallCancelsInstall(hooks, events, group);
    forall ev | ev in hooks ensures Stays(hooks[ev]) && Kept(hooks[ev]) == hooks[ev] <==> CleanValue(hooks[ev]) {
      CleanValueKept(hooks[ev]);
    }
    var restored := Uninstalled(hooks) - NullEvents(hooks, events);
    if CleanHooks(hooks, events) {
      assert NullEvents(hooks, events) == {};
      assert restored == hooks;
    } else if ev :| ev in hooks && ev in events && hooks[ev].Null? {
      assert ev !in restored;
    } else {
      var ev :| ev in hooks && !CleanValue(hooks[ev]);
      assert ev in restored ==> restored[ev] == Kept(hooks[ev]);
    }
  }

  // ---- The whole file ----

  /** The document of a file; a missing file and a null are an empty one, and nothing else can be read. */
  function ReadDoc(file: File): Option<Doc> {
    match file
    case Absent => Some(map[])
    case Unparseable(_) => None
    case Holds(json) => if json.Null? then Some(map[]) else if json.Obj? then Some(json.fields) else None
  }

  function HooksObject(doc: Doc): Doc {
    if "hooks" in doc && doc["hooks"].Obj? then doc["hooks"].fields else map[]
  }

  predicate FileInstalls(file: File, events: seq<string>) {
    ReadDoc(file).Some? && CanInstall(HooksObject(ReadDoc(file).value), events)
  }

  ghost function InstallFile(file: File, events: seq<string>, group: Json): File
    requires FileInstalls(file, events)
  {
    var doc := ReadDoc(file).value;
    Holds(Obj(doc["hooks" := Obj(Installed(HooksObject(doc), events, group))]))
  }

  ghost function UninstallFile(file: File): File
    requires ReadDoc(file).Some?
  {
    if file.Absent? then Absent
    else
      var doc := ReadDoc(file).value;
      var hooks := Uninstalled(HooksObject(doc));
      if hooks == map[] && doc.Keys == {"hooks"} then Absent else Holds(Obj(doc["hooks" := Obj(hooks)]))
  }

  /** What a file says, with a missing hooks object taken for an empty one. */
  function Meaning(file: File): Option<Doc> {
    var doc := ReadDoc(file);
    if doc.None? || "hooks" in doc.value then doc else Some(doc.value["hooks" := Obj(map[])])
  }

  predicate CleanFile(file: File, events: seq<string>)
    requires ReadDoc(file).Some?
  {
    var doc := ReadDoc(file).value;
    ("hooks" in doc ==> doc["hooks"].Obj?) && CleanHooks(HooksObject(doc), events)
  }

  lemma NewGroupGoes(harness: string, withTimeout: bool)
    ensures var group := NewGroup(harness, withTimeout);
      group.Obj? && KeptHooks(HooksOf(group)) == [] && exists h :: h in HooksOf(group) && Ours(h)
  {
    var h := NewHook(harness, withTimeout);
    assert HooksOf(NewGroup(harness, withTimeout)) == [h];
    assert h in [h] && [h][1..] == [];
    assert KeptHooks([h]) == [];
  }

  /** What uninstalling makes of an installed file. */
  lemma MeaningOfBoth(file: File, events: seq<string>, group: Json)
    requires FileInstalls(file, events)
    ensures var doc := ReadDoc(file).value;
      Meaning(UninstallFile(InstallFile(file, events, group)))
        == Some(doc["hooks" := Obj(Uninstalled(Installed(HooksObject(doc), events, group)))])
  {
    var doc := ReadDoc(file).value;
    var installed := Installed(HooksObject(doc), events, group);
    var after := doc["hooks" := Obj(installed)];
    assert ReadDoc(InstallFile(file, events, group)) == Some(after) && HooksObject(after) == installed;
    var left := Obj(Uninstalled(installed));
    assert after["hooks" := left] == doc["hooks" := left];
    if after.Keys == {"hooks"} {
      assert doc["hooks" := left] == map["hooks" := left];
    }
  }

  /** Installing and uninstalling restores what the file said, hooks and all other keys, if and only if its
      hooks were an object (or missing), every list of groups in it was one uninstalling leaves as it is, and
      no installed event held a null. */
  lemma FileRestoredIff(file: File, events: seq<string>, harness: string, withTimeout: bool)
    requires FileInstalls(file, events)
    ensures Meaning(UninstallFile(InstallFile(file, events, NewGroup(harness, withTimeout)))) == Meaning(file)
      <==> CleanFile(file, events)
  {
    var doc := ReadDoc(file).value;
    var group := NewGroup(harness, withTimeout);
    NewGroupGoes(harness, withTimeout);
    MeaningOfBoth(file, events, group);
    RestoredIff(HooksObject(doc), events, group);
    var hooks := Obj(Uninstalled(Installed(HooksObject(doc), events, group)));
    assert doc["hooks" := hooks]["hooks"] == hooks;
    if "hooks" in doc {
      if doc["hooks"] == hooks {
        assert doc["hooks" := hooks] == doc;
      }
    } else {
      assert doc["hooks" := Obj(map[])]["hooks"] == Obj(map[]);
    }
  }

  // ---- The editing loops ----

  class HookConfig {
    var file: File
    var backup: File

    constructor (file: File, backup: File)
      ensures this.file == file && this.backup == backup
    {
      this.file, this.backup := file, backup;
    }

    /** Writes the document, keeping the first file that was there as the backup. */
    method Write(doc: Doc)
      modifies this
      ensures file == Holds(Obj(doc))
      ensures backup == if old(file) != Absent && old(backup) == Absent then old(file) else old(backup)
    {
      if file != Absent {
        if backup == Absent {
          backup := file;
        }
      }
      file := Holds(Obj(doc));
    }

    /** Adds our hook to every event that has none; an unreadable file, or an event that holds something
        else than a list, is left alone. */
    method Install(harness: string, events: seq<string>, withTimeout: bool) returns (ok: bool)
      modifies this
      ensures ok <==> FileInstalls(old(file), events)
      ensures file == if ok then InstallFile(old(file), events, NewGroup(harness, withTimeout)) else old(file)
      ensures backup == if ok && old(file) != Absent && old(backup) == Absent then old(file) else old(backup)
    {
      var doc := ReadDoc(file);
      if doc.None? {
        return false;
      }
      var hooks := AddGroups(HooksObject(doc.value), events, NewGroup(harness, withTimeout));
      if hooks.None? {
        return false;
      }
      Write(doc.value["hooks" := Obj(hooks.value)]);
      return true;
    }

    /** Takes every hook of ours out; a file that held nothing else is removed. */
    method Uninstall() returns (ok: bool)
      modifies this
      ensures ok <==> ReadDoc(old(file)).Some?
      ensures file == if ok then UninstallFile(old(file)) else old(file)
      ensures backup == if ok && old(file) != Absent && file != Absent && old(backup) == Absent
        then old(file) else old(backup)
    {
      if file == Absent {
        return true;
      }
      var doc := ReadDoc(file);
      if doc.None? {
        return false;
      }
      var hooks := StripEvents(HooksObject(doc.value));
      if |hooks| == 0 && |doc.value| == 1 && "hooks" in doc.value {
        OnlyKey(doc.value, "hooks");
        file := Absent;
        return true;
      }
      Write(doc.value["hooks" := Obj(hooks)]);
      return true;
    }
  }

  lemma OnlyKey(doc: Doc, key: string)
    requires |doc| == 1 && key in doc
    ensures doc.Keys == {key}
  {
    assert |doc.Keys - {key}| == 0;
  }

  method FindOurs(hooks: Doc, ev: string) returns (found: bool)
    ensures found <==> ev in hooks && hooks[ev].Arr? && HasOurs(hooks[ev].items)
    ensures found <==> ev in hooks && hooks[ev].Arr? && HoldsOurs(hooks[ev].items)
  {
    if ev !in hooks || !hooks[ev].Arr? {
      return false;
    }
    var groups := hooks[ev].items;
    HoldsOursIff(groups);
    for i := 0 to |groups|
      invariant !HasOurs(groups[..i])
    {
      var hs := HooksOf(groups[i]);
      for j := 0 to |hs|
        invariant forall h :: h in hs[..j] ==> !Ours(h)
      {
        if Ours(hs[j]) {
          assert groups[i] in groups && hs[j] in HooksOf(groups[i]);
          return true;
        }
      }
      assert hs[..|hs|] == hs;
    }
    assert groups[..|groups|] == groups;
    return false;
  }

  method AddGroups(hooks: Doc, events: seq<string>, group: Json) returns (r: Option<Doc>)
    requires exists h :: h in HooksOf(group) && Ours(h)
    ensures r.Some? <==> CanInstall(hooks, events)
    ensures r.Some? ==> r.value == Installed(hooks, events, group)
  {
    var result := hooks;
    for i := 0 to |events|
      invariant CanInstall(hooks, events[..i])
      invariant result == Installed(hooks, events[..i], group)
    {
      var ev := events[i];
      InstalledNext(hooks, events[..i], ev, group);
      assert events[..i + 1] == events[..i] + [ev];
      var next := AddGroup(result, ev, group);
      if next.None? {
        assert BadShape(Cell(hooks, ev));
        return None;
      }
      result := next.value;
    }
    assert events[..|events|] == events;
    return Some(result);
  }

  /** One event. */
  method AddGroup(hooks: Doc, ev: string, group: Json) returns (r: Option<Doc>)
    ensures r.Some? <==> !BadShape(Cell(hooks, ev))
    ensures r.Some? ==> r.value == hooks[ev := Added(Cell(hooks, ev), group)]
  {
    var ours := FindOurs(hooks, ev);
    if ours {
      assert hooks[ev := hooks[ev]] == hooks;
      return Some(hooks);
    }
    if ev in hooks && hooks[ev].Arr? {
      r := Some(hooks[ev := Arr(hooks[ev].items + [group])]);
    } else if ev !in hooks || hooks[ev].Null? {
      r := Some(hooks[ev := Arr([group])]);
    } else {
      r := None;
    }
  }

  /** An event that is not installed yet is as it was. */
  lemma InstalledNew(hooks: Doc, events: seq<string>, ev: string, group: Json)
    requires ev !in events
    ensures var now := Installed(hooks, events, group);
      && Cell(now, ev) == Cell(hooks, ev)
      && Installed(hooks, events + [ev], group) == now[ev := Added(Cell(now, ev), group)]
  {
  }

  /** An event that is installed already has a list with a hook of ours. */
  lemma InstalledAgain(hooks: Doc, events: seq<string>, ev: string, group: Json)
    requires ev in events && exists h :: h in HooksOf(group) && Ours(h)
    ensures var now := Installed(hooks, events, group);
      && ev in now && now[ev].Arr? && HasOurs(now[ev].items)
      && Installed(hooks, events + [ev], group) == now
  {
    AddedHasOurs(Cell(hooks, ev), group);
  }

  /** One event more: what has been installed decides as the original would. */
  lemma InstalledNext(hooks: Doc, events: seq<string>, ev: string, group: Json)
    requires exists h :: h in HooksOf(group) && Ours(h)
    ensures var now := Installed(hooks, events, group);
      && Installed(hooks, events + [ev], group) == now[ev := Added(Cell(now, ev), group)]
      && (CanInstall(hooks, events) ==> (BadShape(Cell(now, ev)) <==> BadShape(Cell(hooks, ev))))
  {
    var now := Installed(hooks, events, group);
    if ev in events {
      InstalledAgain(hooks, events, ev, group);
      assert now[ev := now[ev]] == now;
    } else {
      InstalledNew(hooks, events, ev, group);
    }
  }

  method StripHooks(hs: seq<Json>) returns (kept: seq<Json>)
    ensures kept == KeptHooks(hs)
  {
    kept := [];
    assert hs[0..] == hs;
    for i := 0 to |hs|
      invariant kept + KeptHooks(hs[i..]) == KeptHooks(hs)
    {
      assert hs[i..][1..] == hs[i + 1..];
      if Ours(hs[i]) {
        continue;
      }
      assert kept + ([hs[i]] + KeptHooks(hs[i + 1..])) == (kept + [hs[i]]) + KeptHooks(hs[i + 1..]);
      kept := kept + [hs[i]];
    }
    assert hs[|hs|..] == [];
  }

  method StripGroup(g: Json) returns (kept: seq<Json>)
    ensures kept == KeptGroup(g)
  {
    if !g.Obj? {
      return [g];
    }
    var hs := StripHooks(HooksOf(g));
    kept := if |hs| == 0 then [] else [Obj(g.fields["hooks" := Arr(hs)])];
  }

  method StripGroups(groups: seq<Json>) returns (kept: seq<Json>)
    ensures kept == KeptGroups(groups)
  {
    kept := [];
    assert groups[0..] == groups;
    for i := 0 to |groups|
      invariant kept + KeptGroups(groups[i..]) == KeptGroups(groups)
    {
      assert groups[i..][1..] == groups[i + 1..];
      var one := StripGroup(groups[i]);
      assert kept + (one + KeptGroups(groups[i + 1..])) == (kept + one) + KeptGroups(groups[i + 1..]);
      kept := kept + one;
    }
    assert groups[|groups|..] == [];
  }

  method StripEvents(hooks: Doc) returns (r: Doc)
    ensures r == Uninstalled(hooks)
  {
    r := hooks;
    var left := hooks.Keys;
    while left != {}
      invariant left <= hooks.Keys
      invariant forall ev :: ev in left ==> Cell(r, ev) == Cell(hooks, ev)
      invariant forall ev :: ev !in left ==> Cell(r, ev) == Cell(Uninstalled(hooks), ev)
      decreases |left|
    {
      var ev :| ev in left;
      assert Cell(r, ev) == Cell(hooks, ev);
      left := left - {ev};
      if !r[ev].Arr? {
        continue;
      }
      var kept := StripGroups(r[ev].items);
      if |kept| == 0 {
        r := r - {ev};
      } else {
        r := r[ev := Arr(kept)];
      }
    }
    SameCells(r, Uninstalled(hooks));
  }
}
