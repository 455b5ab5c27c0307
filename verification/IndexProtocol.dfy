/** The lazily warmed vector index as a protocol. A write changes its database row first and the index
    later, under the read lock; the one-time load reads a snapshot of the rows and fills the index under
    the write lock. Steps of different writers and of the loader interleave freely, except that an id has
    at most one write in flight and that nothing else touches the index while the loader holds its lock. */
module IndexProtocol {
  import opened Wrappers
  import opened VectorIndexes

  /** The index half of a write whose database half is done. */
  datatype Pending = Upsert(vec: Vec) | Remove

  /** rows: the memories table, reduced to the embedding column. loading: the snapshot rows the loader
      has still to copy, while it holds the write lock. */
  datatype State = State(
    dim: nat,
    rows: map<string, Option<Vec>>,
    index: map<string, Vec>,
    warm: bool,
    loading: Option<map<string, Vec>>,
    pending: map<string, Pending>)

  datatype Step =
    | PutRow(id: string, vec: Option<Vec>)        // PutMemory, database half
    | UpdateRow(id: string, vec: Option<Vec>)     // UpdateMemoryContent, database half
    | DeleteRow(id: string)                       // DeleteMemory, database half
    | BulkDelete(ids: set<string>)                // the deletes that never visit the index
    | IndexHalf(id: string)                       // any write's index half
    | LoadStart | LoadRow(id: string) | LoadDone | LoadFail
    | Rebuild(dim: nat)

  predicate Fits(s: State, id: string) {
    id in s.rows && s.rows[id].Some? && |s.rows[id].value| == s.dim
  }

  /** The stored embeddings of the index dimension. */
  function Stored(s: State): (m: map<string, Vec>) {
    map id | id in s.rows && Fits(s, id) :: s.rows[id].value
  }

  /** What an index in full agreement with the database holds. */
  function Ideal(g: Geometry, s: State): (m: map<string, Vec>) {
    map id | id in s.rows && Fits(s, id) :: g.unit(s.rows[id].value)
  }

  predicate Enabled(s: State, step: Step) {
    match step
    case PutRow(id, _) => id !in s.pending
    case UpdateRow(id, _) => id !in s.pending
    case DeleteRow(id) => id !in s.pending
    case BulkDelete(ids) => ids !! s.pending.Keys
    case IndexHalf(id) => id in s.pending && s.loading.None?
    case LoadStart => s.loading.None? && !s.warm
    case LoadRow(id) => s.loading.Some? && id in s.loading.value
    case LoadDone => s.loading == Some(map[])
    case LoadFail => s.loading.Some?
    case Rebuild(_) => s.loading.None?
  }

  function Write(s: State, id: string, vec: Option<Vec>): State {
    if vec.None? then s else s.(pending := s.pending[id := Upsert(vec.value)])
  }

  function Next(g: Geometry, s: State, step: Step): (s': State)
    requires Enabled(s, step)
  {
    match step
    case PutRow(id, vec) => Write(s.(rows := s.rows[id := vec]), id, vec)
    case UpdateRow(id, vec) =>
      if id !in s.rows || vec.None? then s else Write(s.(rows := s.rows[id := vec]), id, vec)
    case DeleteRow(id) => s.(rows := s.rows - {id}, pending := s.pending[id := Remove])
    case BulkDelete(ids) => s.(rows := s.rows - ids)
    case IndexHalf(id) =>
      var after := s.(pending := s.pending - {id});
      (match s.pending[id]
       case Remove => after.(index := s.index - {id})
       case Upsert(vec) => if |vec| == s.dim then after.(index := s.index[id := g.unit(vec)]) else after)
    case LoadStart => s.(loading := Some(Stored(s)))
    case LoadRow(id) =>
      s.(index := s.index[id := g.unit(s.loading.value[id])], loading := Some(s.loading.value - {id}))
    case LoadDone => s.(loading := None, warm := true)
    case LoadFail => s.(loading := None)
    case Rebuild(dim) => s.(dim := dim, index := map[], warm := false)
  }

  // ---- Runs ----

  ghost predicate Runs(g: Geometry, s: State, steps: seq<Step>)
    decreases steps
  {
    steps == [] || (Enabled(s, steps[0]) && Runs(g, Next(g, s, steps[0]), steps[1..]))
  }

  ghost function After(g: Geometry, s: State, steps: seq<Step>): State
    requires Runs(g, s, steps)
    decreases steps
  {
    if steps == [] then s else After(g, Next(g, s, steps[0]), steps[1..])
  }

  /** A store just opened: any rows, an empty cold index. */
  predicate Initial(s: State) {
    s.index == map[] && !s.warm && s.loading.None? && s.pending == map[]
  }

  // ---- A hot index covers the database ----

  /** Every id that is not being written and has an embedding of the right dimension is in the index,
      with exactly that vector, normalised. */
  ghost predicate Covers(g: Geometry, s: State) {
    forall id :: id in s.rows && Fits(s, id) && id !in s.pending ==>
      id in s.index && s.index[id] == g.unit(s.rows[id].value)
  }

  /** A write's row holds what its index half is about to copy. */
  ghost predicate PendingMatchesRows(s: State) {
    forall id :: id in s.pending ==>
      match s.pending[id]
      case Remove => id !in s.rows
      case Upsert(vec) => id in s.rows && s.rows[id] == Some(vec)
  }

  /** While loading, a settled row is either still to be copied or already copied. */
  ghost predicate LoadingCovers(g: Geometry, s: State) {
    s.loading.Some? ==>
      && !s.warm
      && (forall id :: id in s.rows && Fits(s, id) && id !in s.pending ==>
            if id in s.loading.value then s.loading.value[id] == s.rows[id].value
            else id in s.index && s.index[id] == g.unit(s.rows[id].value))
  }

  ghost predicate Inv(g: Geometry, s: State) {
    PendingMatchesRows(s) && LoadingCovers(g, s) && (s.warm ==> Covers(g, s))
  }

  lemma NextKeepsInv(g: Geometry, s: State, step: Step)
    requires Inv(g, s) && Enabled(s, step)
    ensures Inv(g, Next(g, s, step))
  {
  }

  /** Whatever interleaving of writers, deletes, loads, failed loads and rebuilds led here, a hot index
      covers the database. */
  lemma {:induction false} HotIndexCovers(g: Geometry, s: State, steps: seq<Step>)
    requires Inv(g, s) && Runs(g, s, steps)
    ensures Inv(g, After(g, s, steps))
    ensures After(g, s, steps).warm ==> Covers(g, After(g, s, steps))
    decreases steps
  {
    if steps != [] {
      NextKeepsInv(g, s, steps[0]);
      HotIndexCovers(g, Next(g, s, steps[0]), steps[1..]);
    }
  }

  // ---- With writes that always visit the index, the two agree exactly ----

  /** Vectored puts and updates of the index dimension, content-only updates, single deletes, loads and
      rebuilds; no put without a vector and no bulk delete. */
  predicate Clean(s: State, step: Step) {
    match step
    case PutRow(_, vec) => vec.Some? && |vec.value| == s.dim
    case UpdateRow(_, vec) => vec.Some? ==> |vec.value| == s.dim
    case BulkDelete(_) => false
    case _ => true
  }

  ghost predicate CleanRuns(g: Geometry, s: State, steps: seq<Step>)
    decreases steps
  {
    steps == [] ||
    (Enabled(s, steps[0]) && Clean(s, steps[0]) && CleanRuns(g, Next(g, s, steps[0]), steps[1..]))
  }

  /** Settled index and snapshot entries mirror their rows; a write that the index will refuse (its
      dimension changed under way) has no entry to leave stale. */
  ghost predicate NothingStale(g: Geometry, s: State) {
    && (forall id :: id in s.index && id !in s.pending ==>
          id in s.rows && Fits(s, id) && s.index[id] == g.unit(s.rows[id].value))
    && (s.loading.Some? ==> forall id :: id in s.loading.value ==>
          && |s.loading.value[id]| == s.dim
          && (id !in s.pending ==> id in s.rows && s.rows[id] == Some(s.loading.value[id])))
    && (forall id :: id in s.pending && s.pending[id].Upsert? && |s.pending[id].vec| != s.dim ==>
          id !in s.index && (s.loading.Some? ==> id !in s.loading.value))
  }

  lemma CleanKeepsNothingStale(g: Geometry, s: State, step: Step)
    requires Inv(g, s) && NothingStale(g, s) && Enabled(s, step) && Clean(s, step)
    ensures NothingStale(g, Next(g, s, step))
  {
  }

  lemma {:induction false} CleanRunIsExact(g: Geometry, s: State, steps: seq<Step>)
    requires Inv(g, s) && NothingStale(g, s) && CleanRuns(g, s, steps)
    ensures Runs(g, s, steps)
    ensures var t := After(g, s, steps);
      NothingStale(g, t) && (t.warm && t.pending == map[] ==> t.index == Ideal(g, t))
    decreases steps
  {
    if steps == [] {
      assert s.warm && s.pending == map[] ==> s.index.Keys == Ideal(g, s).Keys;
    } else {
      NextKeepsInv(g, s, steps[0]);
      CleanKeepsNothingStale(g, s, steps[0]);
      CleanRunIsExact(g, Next(g, s, steps[0]), steps[1..]);
    }
  }

  /** From a freshly opened store: the index covers whenever hot, and equals the database whenever it is
      hot, no write is in flight, and every write visited it. */
  lemma OpenedStoreTheorem(g: Geometry, s: State, steps: seq<Step>)
    requires Initial(s)
    ensures Runs(g, s, steps) && After(g, s, steps).warm ==> Covers(g, After(g, s, steps))
    ensures CleanRuns(g, s, steps) ==> Runs(g, s, steps)
    ensures CleanRuns(g, s, steps) && After(g, s, steps).warm && After(g, s, steps).pending == map[] ==>
      After(g, s, steps).index == Ideal(g, After(g, s, steps))
  {
    if Runs(g, s, steps) {
      HotIndexCovers(g, s, steps);
    }
    if CleanRuns(g, s, steps) {
      CleanRunIsExact(g, s, steps);
    }
  }

  // ---- What a hot index holds beyond the database, on every run ----

  /** The index has an entry for id, or is about to be given one by a load under way. */
  predicate Held(s: State, id: string) {
    id in s.index || (s.loading.Some? && id in s.loading.value)
  }

  /** An entry that nothing in the database accounts for and no write under way will remove. */
  predicate Stale(s: State, id: string) {
    Held(s, id) && id !in s.pending && !Fits(s, id)
  }

  /** A write that overtakes the entry of id: a put without a vector, a bulk delete, or one whose vector the
      index refuses. */
  predicate Overtakes(s: State, step: Step, id: string) {
    match step
    case PutRow(x, vec) => x == id && vec.None? && Held(s, id)
    case BulkDelete(ids) => id in ids && Held(s, id)
    case IndexHalf(x) => x == id && id in s.pending && id in s.index
      && s.pending[id].Upsert? && |s.pending[id].vec| != s.dim
    case _ => false
  }

  /** A step that puts the entry of id right or takes it away: a write that visits the index, a rebuild, or a
      failing load that had the only copy. */
  predicate Clears(s: State, step: Step, id: string) {
    match step
    case PutRow(x, vec) => x == id && vec.Some?
    case UpdateRow(x, vec) => x == id && vec.Some? && id in s.rows
    case DeleteRow(x) => x == id
    case LoadFail => id !in s.index
    case Rebuild(_) => true
    case _ => false
  }

  lemma NextStaleIff(g: Geometry, s: State, step: Step, id: string)
    requires Inv(g, s) && Enabled(s, step)
    ensures Stale(Next(g, s, step), id) <==> Overtakes(s, step, id) || (Stale(s, id) && !Clears(s, step, id))
  {
  }

  ghost predicate NeverCleared(g: Geometry, s: State, steps: seq<Step>, id: string)
    requires Runs(g, s, steps)
    decreases steps
  {
    steps == [] || (!Clears(s, steps[0], id) && NeverCleared(g, Next(g, s, steps[0]), steps[1..], id))
  }

  /** Some step of the run overtook the entry of id, and no later one cleared it. */
  ghost predicate Overtaken(g: Geometry, s: State, steps: seq<Step>, id: string)
    requires Runs(g, s, steps)
    decreases steps
  {
    && steps != []
    && (Overtaken(g, Next(g, s, steps[0]), steps[1..], id)
        || (Overtakes(s, steps[0], id) && NeverCleared(g, Next(g, s, steps[0]), steps[1..], id)))
  }

  lemma {:induction false} StaleIff(g: Geometry, s: State, steps: seq<Step>, id: string)
    requires Inv(g, s) && Runs(g, s, steps)
    ensures Stale(After(g, s, steps), id) <==>
      Overtaken(g, s, steps, id) || (Stale(s, id) && NeverCleared(g, s, steps, id))
    decreases steps
  {
    if steps != [] {
      NextKeepsInv(g, s, steps[0]);
      NextStaleIff(g, s, steps[0], id);
      StaleIff(g, Next(g, s, steps[0]), steps[1..], id);
    }
  }

  lemma HotSettled(g: Geometry, s: State)
    requires Inv(g, s) && s.warm && s.pending == map[]
    ensures forall id :: id in s.index <==> id in Ideal(g, s) || Stale(s, id)
    ensures forall id :: id in Ideal(g, s) ==> id in s.index && s.index[id] == Ideal(g, s)[id] && !Stale(s, id)
    ensures s.index == Ideal(g, s) <==> forall id :: !Stale(s, id)
  {
    forall id ensures id in s.index <==> id in Ideal(g, s) || Stale(s, id) {
      assert id in Ideal(g, s) <==> id in s.rows && Fits(s, id);
    }
    if forall id :: !Stale(s, id) {
      forall id ensures id in s.index <==> id in Ideal(g, s) {
        assert !Stale(s, id);
      }
      assert s.index == Ideal(g, s);
    } else {
      var id :| Stale(s, id);
      assert id in s.index && id !in Ideal(g, s);
    }
  }

  /** On every run from a freshly opened store: once hot and settled, the index holds the database and, besides,
      exactly the overtaken entries; it equals the database if and only if there are none. */
  lemma BeyondTheDatabase(g: Geometry, s: State, steps: seq<Step>)
    requires Initial(s) && Runs(g, s, steps)
    requires After(g, s, steps).warm && After(g, s, steps).pending == map[]
    ensures var t := After(g, s, steps);
      && (forall id :: id in t.index <==> id in Ideal(g, t) || Overtaken(g, s, steps, id))
      && (forall id :: id in Ideal(g, t) ==>
            id in t.index && t.index[id] == Ideal(g, t)[id] && !Overtaken(g, s, steps, id))
      && (t.index == Ideal(g, t) <==> forall id :: !Overtaken(g, s, steps, id))
  {
    HotIndexCovers(g, s, steps);
    HotSettled(g, After(g, s, steps));
    forall id ensures Stale(After(g, s, steps), id) <==> Overtaken(g, s, steps, id) {
      StaleIff(g, s, steps, id);
    }
  }

  // ---- Which writes leave a stale entry behind ----

  /** A put carried through on a settled, exact, hot index keeps it exact if and only if the vector has
      the index dimension or there was no entry to leave behind. */
  lemma PutKeepsExactIff(g: Geometry, s: State, id: string, vec: Option<Vec>)
    requires s.loading.None? && s.pending == map[] && s.index == Ideal(g, s)
    ensures var t := WholeWrite(g, s, PutRow(id, vec), id);
      t.index == Ideal(g, t) <==> (vec.Some? && |vec.value| == s.dim) || id !in s.index
  {
    var t := WholeWrite(g, s, PutRow(id, vec), id);
    if vec.Some? && |vec.value| == s.dim {
      assert t.index == Ideal(g, t);
    } else {
      assert id !in Ideal(g, t);
      assert t.index == s.index;
      if id !in s.index {
        assert t.index == Ideal(g, t);
      }
    }
  }

  /** An update does if and only if it brings no vector, or one of the index dimension, or there was no entry
      to leave behind. */
  lemma UpdateKeepsExactIff(g: Geometry, s: State, id: string, vec: Option<Vec>)
    requires s.loading.None? && s.pending == map[] && s.index == Ideal(g, s)
    ensures var t := WholeWrite(g, s, UpdateRow(id, vec), id);
      t.index == Ideal(g, t) <==> vec.None? || |vec.value| == s.dim || id !in s.index
  {
    var t := WholeWrite(g, s, UpdateRow(id, vec), id);
    if vec.None? || id !in s.rows {
      assert t == s;
    } else if |vec.value| == s.dim {
      assert t.index == Ideal(g, t);
    } else {
      assert id !in Ideal(g, t) && t.index == s.index;
      assert id !in s.index ==> t.index == Ideal(g, t);
    }
  }

  /** A bulk delete keeps it exact if and only if it removes no indexed row. */
  lemma BulkDeleteKeepsExactIff(g: Geometry, s: State, ids: set<string>)
    requires s.loading.None? && s.pending == map[] && s.index == Ideal(g, s)
    ensures var t := Next(g, s, BulkDelete(ids)); t.index == Ideal(g, t) <==> ids !! s.index.Keys
  {
    var t := Next(g, s, BulkDelete(ids));
    if ids !! s.index.Keys {
      assert t.index == Ideal(g, t);
    } else {
      var id :| id in ids && id in s.index.Keys;
      assert id !in Ideal(g, t);
    }
  }

  // ---- The same steps without interleaving ----

  /** Both halves of one write, back to back. */
  function WholeWrite(g: Geometry, s: State, step: Step, id: string): (t: State)
    requires Enabled(s, step) && s.loading.None?
    requires step.PutRow? || step.UpdateRow? || step.DeleteRow?
  {
    var mid := Next(g, s, step);
    if id in mid.pending then Next(g, mid, IndexHalf(id)) else mid
  }

  /** A load that ran to its end. */
  function Loaded(g: Geometry, s: State): State {
    s.(index := s.index + Ideal(g, s), warm := true)
  }

  /** A whole load is a run of the protocol, whatever order the rows come in. */
  lemma LoadIsARun(g: Geometry, s: State)
    requires s.loading.None? && !s.warm
    ensures exists steps :: Runs(g, s, steps) && After(g, s, steps) == Loaded(g, s)
  {
    var mid := Next(g, s, LoadStart);
    var rest := CopyRows(g, mid);
    assert mid.index + Units(g, mid.loading.value) == s.index + Ideal(g, s);
    RunsCons(g, s, LoadStart, rest);
  }

  function Restrict(m: map<string, Vec>, keys: set<string>): map<string, Vec> {
    map id | id in m && id in keys :: m[id]
  }

  /** A load that broke off after copying some rows: the index stays cold. */
  function Broken(g: Geometry, s: State, copied: set<string>): State {
    s.(index := s.index + Restrict(Ideal(g, s), copied))
  }

  /** A load that breaks off is a run of the protocol too. */
  lemma BrokenLoadIsARun(g: Geometry, s: State, copied: set<string>)
    requires s.loading.None? && !s.warm && copied <= Ideal(g, s).Keys
    ensures exists steps :: Runs(g, s, steps) && After(g, s, steps) == Broken(g, s, copied)
  {
    var mid := Next(g, s, LoadStart);
    var rest := CopySome(g, mid, copied);
    assert mid.index + Restrict(Units(g, mid.loading.value), copied) == s.index + Restrict(Ideal(g, s), copied);
    RunsCons(g, s, LoadStart, rest);
  }

  lemma {:induction false} CopySome(g: Geometry, s: State, copied: set<string>) returns (steps: seq<Step>)
    requires s.loading.Some? && copied <= s.loading.value.Keys
    ensures Runs(g, s, steps)
    ensures After(g, s, steps) == s.(index := s.index + Restrict(Units(g, s.loading.value), copied), loading := None)
    decreases copied
  {
    if copied == {} {
      NothingRestricted(g, s.index, s.loading.value);
      RunsCons(g, s, LoadFail, []);
      steps := [LoadFail];
    } else {
      var id :| id in copied;
      var rest := CopySome(g, Next(g, s, LoadRow(id)), copied - {id});
      RunsCons(g, s, LoadRow(id), rest);
      steps := [LoadRow(id)] + rest;
      CopiedRestricted(g, s.index, s.loading.value, copied, id);
    }
  }

  lemma NothingRestricted(g: Geometry, index: map<string, Vec>, todo: map<string, Vec>)
    ensures index + Restrict(Units(g, todo), {}) == index
  {
  }

  lemma CopiedRestricted(g: Geometry, index: map<string, Vec>, todo: map<string, Vec>, copied: set<string>, id: string)
    requires id in copied && copied <= todo.Keys
    ensures index[id := g.unit(todo[id])] + Restrict(Units(g, todo - {id}), copied - {id})
      == index + Restrict(Units(g, todo), copied)
  {
  }

  function Units(g: Geometry, m: map<string, Vec>): map<string, Vec> {
    map id | id in m :: g.unit(m[id])
  }

  lemma {:induction false} CopyRows(g: Geometry, s: State) returns (steps: seq<Step>)
    requires s.loading.Some?
    ensures Runs(g, s, steps)
    ensures After(g, s, steps) == s.(index := s.index + Units(g, s.loading.value), loading := None, warm := true)
    decreases s.loading.value.Keys
  {
    var todo := s.loading.value;
    if todo == map[] {
      assert s.index + Units(g, todo) == s.index;
      RunsCons(g, s, LoadDone, []);
      steps := [LoadDone];
    } else {
      var id :| id in todo;
      var mid := Next(g, s, LoadRow(id));
      var rest := CopyRows(g, mid);
      RunsCons(g, s, LoadRow(id), rest);
      steps := [LoadRow(id)] + rest;
      CopiedRow(g, s.index, todo, id);
    }
  }

  lemma CopiedRow(g: Geometry, index: map<string, Vec>, todo: map<string, Vec>, id: string)
    requires id in todo
    ensures index[id := g.unit(todo[id])] + Units(g, todo - {id}) == index + Units(g, todo)
  {
  }

  lemma RunsCons(g: Geometry, s: State, step: Step, rest: seq<Step>)
    requires Enabled(s, step) && Runs(g, Next(g, s, step), rest)
    ensures Runs(g, s, [step] + rest)
    ensures After(g, s, [step] + rest) == After(g, Next(g, s, step), rest)
  {
    assert ([step] + rest)[1..] == rest;
  }
}
