/** How the cache backend publishes an entry: the data goes to a temporary file that
    is renamed, then the entry becomes visible in memory, then its metadata file is
    written and renamed. Puts, metadata writers, lookups, the startup scan and loads
    run concurrently; any step may fail and the process may die at any point. */
module Publish {
  import opened Options

  type Key = nat
  type Obj = nat

  // ----- Files -----

  /** Data and metadata of a key, and the temporary files of put number `put`. */
  datatype Path = Data(key: Key) | DataTmp(put: nat) | Meta(key: Key) | MetaTmp(put: nat)

  datatype Content = Partial | Full(put: nat)

  // ----- Actors -----

  /** A put: queued, writing its temporary file, written, renamed, listed in memory,
      leaving (reference still held), released, gone. */
  datatype PutPhase = Queued | Writing | Written | Renamed | Listed | Leaving | Released | Gone

  datatype Put = Put(key: Key, obj: Obj, phase: PutPhase)

  datatype WriterPhase = Starting | Opened | Filled | Broken | Finished

  /** The metadata task of a put. */
  datatype Writer = Writer(put: nat, phase: WriterPhase)

  /** `contains`, or one file of the startup scan: not in memory, so it reads the
      metadata file and lists what it says. */
  datatype LookupPhase = Missed | HasRead(put: nat) | Answered(found: bool)

  /** `hit` remembers whether the key was in memory when `contains` looked. */
  datatype Lookup = Lookup(key: Key, hit: bool, phase: LookupPhase)

  datatype LoadPhase = Loading | Returned | Dropped | Leaked

  /** The memory object a load is given: usable; no longer valid, so that the load
      returns at once; or without the tensor that is asserted to be there. */
  datatype Fitness = Usable | Invalid | NoTensor

  datatype Load = Load(key: Key, obj: Obj, fit: Fitness, phase: LoadPhase)

  /** `described` records the puts whose metadata file was renamed into place. */
  datatype State = State(
    files: map<Path, Content>,
    hot: map<Key, nat>,
    tasks: set<Key>,
    refs: map<Obj, int>,
    described: set<nat>,
    puts: seq<Put>, writers: seq<Writer>, lookups: seq<Lookup>, loads: seq<Load>)

  datatype Step =
    | Submit(key: Key, obj: Obj)
    | OpenTmp(p: nat)
    | FillTmp(p: nat)
    | RenameData(p: nat)
    | SaveFails(p: nat)
    | List(p: nat)
    | Spawn(p: nat)
    | SpawnFails(p: nat)
    | Release(p: nat)
    | Discard(p: nat)
    | OpenMeta(w: nat)
    | FillMeta(w: nat)
    | RenameMeta(w: nat)
    | MetaFails(w: nat)
    | PopBroken(w: nat)
    | Contains(key: Key)
    | Scan(key: Key)
    | ReadMeta(l: nat)
    | ReadFails(l: nat)
    | ListRead(l: nat)
    | StartLoad(key: Key, obj: Obj, fit: Fitness)
    | LoadOk(d: nat)
    | LoadShort(d: nat)
    | LoadFails(d: nat)
    | Crash

  predicate PutIn(s: State, p: nat, phase: PutPhase) {
    p < |s.puts| && s.puts[p].phase == phase
  }

  predicate WriterIn(s: State, w: nat, phase: WriterPhase) {
    w < |s.writers| && s.writers[w].phase == phase && s.writers[w].put < |s.puts|
  }

  predicate Enabled(s: State, a: Step) {
    match a
    case Submit(_, _) => true
    case OpenTmp(p) => PutIn(s, p, Queued)
    case FillTmp(p) => PutIn(s, p, Writing)
    case RenameData(p) => PutIn(s, p, Written) && DataTmp(p) in s.files
    case SaveFails(p) => p < |s.puts| && s.puts[p].phase in {Queued, Writing, Written}
    case List(p) => PutIn(s, p, Renamed)
    case Spawn(p) => PutIn(s, p, Listed)
    case SpawnFails(p) => PutIn(s, p, Listed)
    case Release(p) => PutIn(s, p, Leaving)
    case Discard(p) => PutIn(s, p, Released)
    case OpenMeta(w) => WriterIn(s, w, Starting)
    case FillMeta(w) => WriterIn(s, w, Opened)
    case RenameMeta(w) => WriterIn(s, w, Filled) && MetaTmp(s.writers[w].put) in s.files
    case MetaFails(w) => w < |s.writers| && s.writers[w].phase in {Starting, Opened, Filled}
      && s.writers[w].put < |s.puts|
    case PopBroken(w) => WriterIn(s, w, Broken)
    case Contains(_) => true
    case Scan(key) => Meta(key) in s.files
    case ReadMeta(l) => l < |s.lookups| && s.lookups[l].phase == Missed && Meta(s.lookups[l].key) in s.files
      && s.files[Meta(s.lookups[l].key)].Full?
    case ReadFails(l) => l < |s.lookups| && s.lookups[l].phase == Missed
    case ListRead(l) => l < |s.lookups| && s.lookups[l].phase.HasRead?
    case StartLoad(key, _, _) => key in s.hot
    case LoadOk(d) => d < |s.loads| && s.loads[d].phase == Loading
    case LoadShort(d) => d < |s.loads| && s.loads[d].phase == Loading
    case LoadFails(d) => d < |s.loads| && s.loads[d].phase == Loading
    case Crash => true
  }

  function Moved(s: State, p: nat, phase: PutPhase): State
    requires p < |s.puts|
  {
    s.(puts := s.puts[p := s.puts[p].(phase := phase)])
  }

  function WriterMoved(s: State, w: nat, phase: WriterPhase): State
    requires w < |s.writers|
  {
    s.(writers := s.writers[w := s.writers[w].(phase := phase)])
  }

  function LookupMoved(s: State, l: nat, phase: LookupPhase): State
    requires l < |s.lookups|
  {
    s.(lookups := s.lookups[l := s.lookups[l].(phase := phase)])
  }

  function LoadMoved(s: State, d: nat, phase: LoadPhase): State
    requires d < |s.loads|
  {
    s.(loads := s.loads[d := s.loads[d].(phase := phase)])
  }

  function Count(refs: map<Obj, int>, obj: Obj): int {
    if obj in refs then refs[obj] else 0
  }

  function Up(refs: map<Obj, int>, obj: Obj): map<Obj, int> {
    refs[obj := Count(refs, obj) + 1]
  }

  function Down(refs: map<Obj, int>, obj: Obj): map<Obj, int> {
    refs[obj := Count(refs, obj) - 1]
  }

  function Apply(s: State, a: Step): State
    requires Enabled(s, a)
  {
    match a
    case Submit(key, obj) =>
      s.(refs := Up(s.refs, obj), tasks := s.tasks + {key}, puts := s.puts + [Put(key, obj, Queued)])
    case OpenTmp(p) => Moved(s, p, Writing).(files := s.files[DataTmp(p) := Partial])
    case FillTmp(p) => Moved(s, p, Written).(files := s.files[DataTmp(p) := Full(p)])
    case RenameData(p) =>
      Moved(s, p, Renamed).(files := s.files[Data(s.puts[p].key) := s.files[DataTmp(p)]] - {DataTmp(p)})
    case SaveFails(p) => Moved(s, p, Leaving)
    case List(p) => Moved(s, p, Listed).(hot := s.hot[s.puts[p].key := p])
    case Spawn(p) => Moved(s, p, Leaving).(writers := s.writers + [Writer(p, Starting)])
    case SpawnFails(p) => Moved(s, p, Leaving).(hot := s.hot - {s.puts[p].key})
    case Release(p) => Moved(s, p, Released).(refs := Down(s.refs, s.puts[p].obj))
    case Discard(p) => Moved(s, p, Gone).(tasks := s.tasks - {s.puts[p].key})
    case OpenMeta(w) => WriterMoved(s, w, Opened).(files := s.files[MetaTmp(s.writers[w].put) := Partial])
    case FillMeta(w) =>
      WriterMoved(s, w, Filled).(files := s.files[MetaTmp(s.writers[w].put) := Full(s.writers[w].put)])
    case RenameMeta(w) =>
      var tmp := MetaTmp(s.writers[w].put);
      WriterMoved(s, w, Finished).(files := s.files[Meta(s.puts[s.writers[w].put].key) := s.files[tmp]] - {tmp},
                                   described := s.described + {s.writers[w].put})
    case MetaFails(w) => WriterMoved(s, w, Broken)
    case PopBroken(w) => WriterMoved(s, w, Finished).(hot := s.hot - {s.puts[s.writers[w].put].key})
    case Contains(key) =>
      s.(lookups := s.lookups + [Lookup(key, key in s.hot, if key in s.hot then Answered(true) else Missed)])
    case Scan(key) => s.(lookups := s.lookups + [Lookup(key, false, Missed)])
    case ReadMeta(l) => LookupMoved(s, l, HasRead(s.files[Meta(s.lookups[l].key)].put))
    case ReadFails(l) => LookupMoved(s, l, Answered(false))
    case ListRead(l) =>
      LookupMoved(s, l, Answered(false)).(hot := s.hot[s.lookups[l].key := s.lookups[l].phase.put])
    case StartLoad(key, obj, fit) =>
      s.(refs := Up(s.refs, obj), loads := s.loads + [Load(key, obj, fit, if fit.Usable? then Loading else Leaked)])
    case LoadOk(d) => LoadMoved(s, d, Returned)
    case LoadShort(d) => LoadMoved(s, d, Dropped).(refs := Down(s.refs, s.loads[d].obj))
    case LoadFails(d) =>
      LoadMoved(s, d, Dropped).(refs := Down(s.refs, s.loads[d].obj), hot := s.hot - {s.loads[d].key})
    case Crash =>
      s.(hot := map[], tasks := {}, refs := map[],
         puts := seq(|s.puts|, i requires 0 <= i < |s.puts| => s.puts[i].(phase := Gone)),
         writers := [], lookups := [], loads := [])
  }

  // ----- Publication -----

  /** Put `p` is for `key`, and the key's data file is in place. */
  predicate Names(s: State, key: Key, p: nat) {
    p < |s.puts| && s.puts[p].key == key && Data(key) in s.files
  }

  /** A visible data file is complete and belongs to its key. */
  ghost predicate DataOk(s: State) {
    forall k :: Data(k) in s.files ==> s.files[Data(k)].Full? && Names(s, k, s.files[Data(k)].put)
  }

  /** So is a visible metadata file, and its data is in place. */
  ghost predicate MetaOk(s: State) {
    forall k :: Meta(k) in s.files ==> s.files[Meta(k)].Full? && Names(s, k, s.files[Meta(k)].put)
  }

  /** A written temporary file is complete, and a renamed one is in place. */
  ghost predicate PutOk(s: State, p: nat)
    requires p < |s.puts|
  {
    && (s.puts[p].phase == Written ==> DataTmp(p) in s.files && s.files[DataTmp(p)] == Full(p))
    && (s.puts[p].phase in {Renamed, Listed} ==> Names(s, s.puts[p].key, p))
  }

  ghost predicate PutsOk(s: State) {
    forall p :: 0 <= p < |s.puts| ==> PutOk(s, p)
  }

  /** A put has a metadata writer only once its data is in place, and at most one. */
  ghost predicate WritersOk(s: State) {
    forall w :: 0 <= w < |s.writers| ==> WriterOk(s, s.writers[w])
  }

  ghost predicate WritersDiffer(s: State) {
    forall v, w :: 0 <= v < w < |s.writers| ==> s.writers[v].put != s.writers[w].put
  }

  ghost predicate WriterOk(s: State, w: Writer) {
    && w.put < |s.puts| && s.puts[w.put].phase in {Leaving, Released, Gone} && Data(s.puts[w.put].key) in s.files
    && (w.phase == Filled ==> MetaTmp(w.put) in s.files && s.files[MetaTmp(w.put)] == Full(w.put))
  }

  ghost predicate LookupsOk(s: State) {
    forall l :: 0 <= l < |s.lookups| ==>
      match s.lookups[l].phase
      case Missed => true
      case HasRead(p) => Names(s, s.lookups[l].key, p)
      case Answered(found) => found ==> Data(s.lookups[l].key) in s.files
  }

  ghost predicate HotOk(s: State) {
    forall k :: k in s.hot ==> Names(s, k, s.hot[k])
  }

  ghost predicate Inv(s: State) {
    DataOk(s) && MetaOk(s) && PutsOk(s) && WritersOk(s) && WritersDiffer(s) && LookupsOk(s) && HotOk(s)
  }

  /** The put a step moves on, if any. */
  function PutOf(a: Step): Option<nat> {
    match a
    case OpenTmp(p) => Some(p)
    case FillTmp(p) => Some(p)
    case RenameData(p) => Some(p)
    case SaveFails(p) => Some(p)
    case List(p) => Some(p)
    case Spawn(p) => Some(p)
    case SpawnFails(p) => Some(p)
    case Release(p) => Some(p)
    case Discard(p) => Some(p)
    case _ => None
  }

  /** Later puts and files only add to what is published. */
  predicate Grows(s: State, s': State) {
    && |s.puts| <= |s'.puts| && (forall p :: 0 <= p < |s.puts| ==> s'.puts[p].key == s.puts[p].key)
    && (forall f :: f in s.files && f.Data? ==> f in s'.files)
  }

  lemma KeysStay(s: State, a: Step)
    requires Enabled(s, a)
    ensures |s.puts| <= |Apply(s, a).puts| && forall p :: 0 <= p < |s.puts| ==> Apply(s, a).puts[p].key == s.puts[p].key
  {
  }

  lemma DataStays(s: State, a: Step)
    requires Enabled(s, a)
    ensures forall f :: f in s.files && f.Data? ==> f in Apply(s, a).files
  {
  }

  lemma StepGrows(s: State, a: Step)
    requires Enabled(s, a)
    ensures Grows(s, Apply(s, a))
  {
    hide Apply, Enabled;
    KeysStay(s, a);
    DataStays(s, a);
  }

  lemma NamesStay(s: State, s': State)
    requires Grows(s, s')
    ensures forall k, p :: Names(s, k, p) ==> Names(s', k, p)
  {
  }

  lemma DataKept(s: State, a: Step)
    requires Inv(s) && Enabled(s, a)
    ensures DataOk(Apply(s, a))
  {
    hide MetaOk, WritersOk, WritersDiffer, LookupsOk, HotOk;
    if a.RenameData? {
      assert PutOk(s, a.p);
    }
    StepGrows(s, a);
    NamesStay(s, Apply(s, a));
  }

  lemma MetaKept(s: State, a: Step)
    requires Inv(s) && Enabled(s, a)
    ensures MetaOk(Apply(s, a))
  {
    hide DataOk, PutsOk, WritersDiffer, LookupsOk, HotOk;
    StepGrows(s, a);
    NamesStay(s, Apply(s, a));
  }

  lemma HotKept(s: State, a: Step)
    requires Inv(s) && Enabled(s, a)
    ensures HotOk(Apply(s, a))
  {
    hide DataOk, MetaOk, WritersOk, WritersDiffer;
    if a.List? {
      assert PutOk(s, a.p);
    }
    StepGrows(s, a);
    NamesStay(s, Apply(s, a));
  }

  lemma LookupsKept(s: State, a: Step)
    requires Inv(s) && Enabled(s, a)
    ensures LookupsOk(Apply(s, a))
  {
    hide DataOk, PutsOk, WritersOk, WritersDiffer;
    StepGrows(s, a);
    NamesStay(s, Apply(s, a));
  }

  /** A step of put `p` keeps what is known about it. */
  lemma OwnPutKept(s: State, a: Step, p: nat)
    requires PutsOk(s) && Enabled(s, a) && PutOf(a) == Some(p)
    ensures p < |Apply(s, a).puts| && PutOk(Apply(s, a), p)
  {
    assert PutOk(s, p);
  }

  /** A step of anything else leaves put `p` and its temporary file alone, or ends it. */
  lemma OtherPutKept(s: State, a: Step, p: nat)
    requires p < |s.puts| && Enabled(s, a) && PutOf(a) != Some(p)
    ensures p < |Apply(s, a).puts| && (Apply(s, a).puts[p] == s.puts[p] || Apply(s, a).puts[p].phase == Gone)
    ensures DataTmp(p) in s.files ==>
      DataTmp(p) in Apply(s, a).files && Apply(s, a).files[DataTmp(p)] == s.files[DataTmp(p)]
  {
  }

  lemma PutsKept(s: State, a: Step)
    requires Inv(s) && Enabled(s, a)
    ensures PutsOk(Apply(s, a))
  {
    hide LookupsOk, HotOk, DataOk, MetaOk, WritersOk, WritersDiffer;
    StepGrows(s, a);
    NewPuts(s, a);
    hide Apply, Enabled;
    NamesStay(s, Apply(s, a));
    forall p | 0 <= p < |Apply(s, a).puts| ensures PutOk(Apply(s, a), p) {
      if PutOf(a) == Some(p) {
        OwnPutKept(s, a, p);
      } else if p < |s.puts| {
        OtherPutKept(s, a, p);
        assert PutOk(s, p);
      }
    }
  }

  lemma NewPuts(s: State, a: Step)
    requires Enabled(s, a)
    ensures forall p :: |s.puts| <= p < |Apply(s, a).puts| ==> Apply(s, a).puts[p].phase == Queued
  {
  }

  /** Once a put is leaving it never publishes again. */
  lemma LeavingStays(s: State, a: Step, p: nat)
    requires p < |s.puts| && s.puts[p].phase in {Leaving, Released, Gone} && Enabled(s, a)
    ensures p < |Apply(s, a).puts| && Apply(s, a).puts[p].phase in {Leaving, Released, Gone}
  {
  }

  /** The metadata temporary file of a put is touched only by its own writer. */
  lemma MetaTmpStays(s: State, a: Step, p: nat)
    requires Enabled(s, a) && (forall w :: 0 <= w < |s.writers| && WriterStep(a) == Some(w) ==> s.writers[w].put != p)
    ensures MetaTmp(p) in s.files ==>
      MetaTmp(p) in Apply(s, a).files && Apply(s, a).files[MetaTmp(p)] == s.files[MetaTmp(p)]
  {
  }

  /** The writer a step moves on, if any. */
  function WriterStep(a: Step): Option<nat> {
    match a
    case OpenMeta(w) => Some(w)
    case FillMeta(w) => Some(w)
    case RenameMeta(w) => Some(w)
    case MetaFails(w) => Some(w)
    case PopBroken(w) => Some(w)
    case _ => None
  }

  /** What a step does to the list of writers. */
  lemma WriterMoves(s: State, a: Step)
    requires Enabled(s, a)
    ensures a.Crash? ==> Apply(s, a).writers == []
    ensures a.Spawn? ==> Apply(s, a).writers == s.writers + [Writer(a.p, Starting)] && PutIn(Apply(s, a), a.p, Leaving)
    ensures WriterStep(a).Some? ==>
      var w := WriterStep(a).value;
      && w < |s.writers| && |Apply(s, a).writers| == |s.writers|
        && Apply(s, a).writers == s.writers[w := Apply(s, a).writers[w]]
      && Apply(s, a).writers[w].put == s.writers[w].put
      && (Apply(s, a).writers[w].phase == Filled ==>
            MetaTmp(s.writers[w].put) in Apply(s, a).files
              && Apply(s, a).files[MetaTmp(s.writers[w].put)] == Full(s.writers[w].put))
    ensures !a.Crash? && !a.Spawn? && WriterStep(a).None? ==> Apply(s, a).writers == s.writers
  {
  }

  lemma WritersKept(s: State, a: Step)
    requires Inv(s) && Enabled(s, a)
    ensures WritersOk(Apply(s, a))
  {
    hide LookupsOk, HotOk, DataOk, MetaOk;
    var s' := Apply(s, a);
    StepGrows(s, a);
    WriterMoves(s, a);
    if a.Spawn? {
      assert PutOk(s, a.p);
    }
    hide Apply, Enabled;
    forall w | 0 <= w < |s'.writers| ensures WriterOk(s', s'.writers[w]) {
      if w < |s.writers| {
        var p := s.writers[w].put;
        assert WriterOk(s, s.writers[w]);
        LeavingStays(s, a, p);
        assert Data(s.puts[p].key) in s'.files;
        if WriterStep(a) != Some(w) {
          MetaTmpStays(s, a, p);
        }
      }
    }
  }

  lemma WritersStayApart(s: State, a: Step)
    requires Inv(s) && Enabled(s, a)
    ensures WritersDiffer(Apply(s, a))
  {
    hide LookupsOk, HotOk, DataOk, MetaOk, PutsOk;
  }

  lemma StepKeeps(s: State, a: Step)
    requires Inv(s) && Enabled(s, a)
    ensures Inv(Apply(s, a))
  {
    hide Apply, Enabled, DataOk, MetaOk, PutsOk, WritersOk, WritersDiffer, LookupsOk, HotOk;
    DataKept(s, a);
    MetaKept(s, a);
    PutsKept(s, a);
    WritersKept(s, a);
    WritersStayApart(s, a);
    LookupsKept(s, a);
    HotKept(s, a);
  }

  // ----- References -----

  predicate PutHolds(p: Put) {
    p.phase != Released && p.phase != Gone
  }

  predicate LoadHolds(d: Load) {
    d.phase != Dropped
  }

  /** How many puts still hold `obj`. */
  function PutRefs(puts: seq<Put>, obj: Obj): nat {
    if puts == [] then 0 else
      var p := puts[|puts| - 1];
      PutRefs(puts[..|puts| - 1], obj) + if p.obj == obj && PutHolds(p) then 1 else 0
  }

  /** How many loads hold it: running, returned to the caller, or leaked. */
  function LoadRefs(loads: seq<Load>, obj: Obj): nat {
    if loads == [] then 0 else
      var d := loads[|loads| - 1];
      LoadRefs(loads[..|loads| - 1], obj) + if d.obj == obj && LoadHolds(d) then 1 else 0
  }

  lemma {:induction false} PutRefsUpdate(puts: seq<Put>, i: nat, p: Put, obj: Obj)
    requires i < |puts|
    ensures PutRefs(puts[i := p], obj) + (if puts[i].obj == obj && PutHolds(puts[i]) then 1 else 0) ==
            PutRefs(puts, obj) + (if p.obj == obj && PutHolds(p) then 1 else 0)
    decreases |puts|
  {
    var n := |puts| - 1;
    if i == n {
      assert puts[i := p][..n] == puts[..n];
    } else {
      assert puts[i := p][..n] == puts[..n][i := p];
      PutRefsUpdate(puts[..n], i, p, obj);
    }
  }

  lemma {:induction false} LoadRefsUpdate(loads: seq<Load>, i: nat, d: Load, obj: Obj)
    requires i < |loads|
    ensures LoadRefs(loads[i := d], obj) + (if loads[i].obj == obj && LoadHolds(loads[i]) then 1 else 0) ==
            LoadRefs(loads, obj) + (if d.obj == obj && LoadHolds(d) then 1 else 0)
    decreases |loads|
  {
    var n := |loads| - 1;
    if i == n {
      assert loads[i := d][..n] == loads[..n];
    } else {
      assert loads[i := d][..n] == loads[..n][i := d];
      LoadRefsUpdate(loads[..n], i, d, obj);
    }
  }

  /** The reference count of every object is the number of its holders. */
  ghost predicate Balanced(s: State) {
    forall obj: Obj :: Count(s.refs, obj) == PutRefs(s.puts, obj) + LoadRefs(s.loads, obj)
  }

  lemma PutStep(s: State, a: Step)
    requires Enabled(s, a) && PutOf(a).Some?
    ensures
      var p, s' := PutOf(a).value, Apply(s, a);
      && p < |s.puts| && |s'.puts| == |s.puts| && s'.puts == s.puts[p := s'.puts[p]] && s'.puts[p].obj == s.puts[p].obj
      && s'.puts[p].key == s.puts[p].key && s'.loads == s.loads
      && (a.Release? ==> PutHolds(s.puts[p]) && !PutHolds(s'.puts[p]) && s'.refs == Down(s.refs, s.puts[p].obj))
      && (!a.Release? ==> PutHolds(s.puts[p]) == PutHolds(s'.puts[p]) && s'.refs == s.refs)
      && s.puts[p].phase != Gone && (s'.puts[p].phase == Gone <==> a.Discard?)
      && s'.tasks == if a.Discard? then s.tasks - {s.puts[p].key} else s.tasks
  {
  }

  lemma {:induction false} AllGone(puts: seq<Put>, obj: Obj)
    requires forall i :: 0 <= i < |puts| ==> puts[i].phase == Gone
    ensures PutRefs(puts, obj) == 0
  {
    if puts != [] {
      AllGone(puts[..|puts| - 1], obj);
    }
  }

  lemma BalanceAt(s: State, a: Step, obj: Obj)
    requires Balanced(s) && Enabled(s, a)
    ensures Count(Apply(s, a).refs, obj) == PutRefs(Apply(s, a).puts, obj) + LoadRefs(Apply(s, a).loads, obj)
  {
    hide PutRefs, LoadRefs;
    var s' := Apply(s, a);
    assert Count(s.refs, obj) == PutRefs(s.puts, obj) + LoadRefs(s.loads, obj);
    if PutOf(a).Some? {
      PutStep(s, a);
      hide Apply, Enabled;
      var p := PutOf(a).value;
      PutRefsUpdate(s.puts, p, s'.puts[p], obj);
    } else if a.Submit? {
      PutRefsSnoc(s.puts, Put(a.key, a.obj, Queued), obj);
    } else if a.StartLoad? {
      LoadRefsSnoc(s.loads, Load(a.key, a.obj, a.fit, if a.fit.Usable? then Loading else Leaked), obj);
    } else if a.LoadOk? || a.LoadShort? || a.LoadFails? {
      LoadRefsUpdate(s.loads, a.d, s'.loads[a.d], obj);
    } else if a.Crash? {
      AllGone(s'.puts, obj);
      NoLoads(obj);
    }
  }

  lemma NoLoads(obj: Obj)
    ensures LoadRefs([], obj) == 0
  {
  }

  lemma PutRefsSnoc(puts: seq<Put>, p: Put, obj: Obj)
    ensures PutRefs(puts + [p], obj) == PutRefs(puts, obj) + if p.obj == obj && PutHolds(p) then 1 else 0
  {
    assert (puts + [p])[..|puts|] == puts;
  }

  lemma LoadRefsSnoc(loads: seq<Load>, d: Load, obj: Obj)
    ensures LoadRefs(loads + [d], obj) == LoadRefs(loads, obj) + if d.obj == obj && LoadHolds(d) then 1 else 0
  {
    assert (loads + [d])[..|loads|] == loads;
  }

  lemma BalanceKept(s: State, a: Step)
    requires Balanced(s) && Enabled(s, a)
    ensures Balanced(Apply(s, a))
  {
    hide Apply, Enabled, PutRefs, LoadRefs, Count;
    forall obj: Obj
      ensures Count(Apply(s, a).refs, obj) == PutRefs(Apply(s, a).puts, obj) + LoadRefs(Apply(s, a).loads, obj)
    {
      BalanceAt(s, a, obj);
    }
  }

  /** A load ends without releasing or returning its object exactly if that was not
      usable. */
  ghost predicate LoadsOk(s: State) {
    forall d :: 0 <= d < |s.loads| ==> (s.loads[d].phase == Leaked <==> !s.loads[d].fit.Usable?)
  }

  lemma LoadsKept(s: State, a: Step)
    requires LoadsOk(s) && Enabled(s, a)
    ensures LoadsOk(Apply(s, a))
  {
  }

  // ----- Pending keys -----

  predicate Pending(s: State, p: nat, key: Key) {
    p < |s.puts| && s.puts[p].phase != Gone && s.puts[p].key == key
  }

  ghost predicate HasPending(s: State, key: Key) {
    exists p :: Pending(s, p, key)
  }

  /** A key in `tasks` always has a put pending. */
  ghost predicate TasksOk(s: State) {
    forall k :: k in s.tasks ==> HasPending(s, k)
  }

  /** The key is in `tasks` exactly while a put for it is pending. */
  ghost predicate Exact(s: State, key: Key) {
    key in s.tasks <==> HasPending(s, key)
  }

  /** At most one put of the key is pending. */
  ghost predicate Single(s: State, key: Key) {
    forall p, q :: Pending(s, p, key) && Pending(s, q, key) ==> p == q
  }

  /** The step does not submit the key while a put for it is pending. */
  ghost predicate Fresh(s: State, a: Step, key: Key) {
    a.Submit? && a.key == key ==> !HasPending(s, key)
  }

  /** Steps that neither submit nor move a put leave puts and tasks alone. */
  lemma OtherStep(s: State, a: Step)
    requires Enabled(s, a) && PutOf(a).None? && !a.Submit? && !a.Crash?
    ensures Apply(s, a).puts == s.puts && Apply(s, a).tasks == s.tasks
  {
  }

  lemma TasksKept(s: State, a: Step)
    requires TasksOk(s) && Enabled(s, a)
    ensures TasksOk(Apply(s, a))
  {
    var s' := Apply(s, a);
    if PutOf(a).Some? {
      PutStep(s, a);
    } else if !a.Submit? && !a.Crash? {
      OtherStep(s, a);
    }
    forall k | k in s'.tasks ensures HasPending(s', k) {
      if a.Submit? && k == a.key {
        assert Pending(s', |s.puts|, k);
      } else if !a.Crash? {
        assert k in s.tasks;
        var p :| Pending(s, p, k);
        assert Pending(s', p, k);
      }
    }
  }

  lemma SingleKept(s: State, a: Step, key: Key)
    requires Single(s, key) && Enabled(s, a) && Fresh(s, a, key)
    ensures Single(Apply(s, a), key)
  {
    var s' := Apply(s, a);
    if PutOf(a).Some? {
      PutStep(s, a);
      hide Apply, Enabled;
      forall p: nat, q: nat | Pending(s', p, key) && Pending(s', q, key) ensures p == q {
        assert Pending(s, p, key) && Pending(s, q, key);
      }
    } else if a.Submit? {
      forall p: nat, q: nat | Pending(s', p, key) && Pending(s', q, key) ensures p == q {
        assert p < |s.puts| ==> Pending(s, p, key);
        assert q < |s.puts| ==> Pending(s, q, key);
      }
    } else if !a.Crash? {
      OtherStep(s, a);
      hide Apply, Enabled;
      forall p: nat, q: nat | Pending(s', p, key) && Pending(s', q, key) ensures p == q {
        assert Pending(s, p, key) && Pending(s, q, key);
      }
    }
  }

  lemma ExactKept(s: State, a: Step, key: Key)
    requires TasksOk(s) && Exact(s, key) && Single(s, key) && Enabled(s, a)
    ensures Exact(Apply(s, a), key)
  {
    var s' := Apply(s, a);
    TasksKept(s, a);
    if HasPending(s', key) && !(a.Submit? && a.key == key) {
      var p :| Pending(s', p, key);
      if PutOf(a).Some? {
        PutStep(s, a);
        hide Apply, Enabled;
        var q := PutOf(a).value;
        assert s.puts[q].key == key ==> Pending(s, q, key);
        assert Pending(s, p, key);
      } else if !a.Submit? && !a.Crash? {
        OtherStep(s, a);
        assert Pending(s, p, key);
      } else if a.Submit? {
        assert Pending(s, p, key);
      }
    }
  }

  // ----- Whole runs -----

  predicate Initial(s: State) {
    s == State(map[], map[], {}, map[], {}, [], [], [], [])
  }

  predicate Runs(s: State, run: seq<Step>)
    decreases |run|
  {
    run == [] || (Enabled(s, run[0]) && Runs(Apply(s, run[0]), run[1..]))
  }

  function Final(s: State, run: seq<Step>): State
    requires Runs(s, run)
    decreases |run|
  {
    if run == [] then s else Final(Apply(s, run[0]), run[1..])
  }

  /** The key is never submitted while a put for it is pending. */
  ghost predicate FreshRun(s: State, run: seq<Step>, key: Key)
    requires Runs(s, run)
    decreases |run|
  {
    run == [] || (Fresh(s, run[0], key) && FreshRun(Apply(s, run[0]), run[1..], key))
  }

  lemma {:induction false} RunKeeps(s: State, run: seq<Step>)
    requires Inv(s) && Balanced(s) && LoadsOk(s) && TasksOk(s) && Runs(s, run)
    ensures Inv(Final(s, run)) && Balanced(Final(s, run)) && LoadsOk(Final(s, run)) && TasksOk(Final(s, run))
    decreases |run|
  {
    hide Inv, Balanced, LoadsOk, TasksOk, Enabled, Apply;
    if run != [] {
      StepKeeps(s, run[0]);
      BalanceKept(s, run[0]);
      LoadsKept(s, run[0]);
      TasksKept(s, run[0]);
      RunKeeps(Apply(s, run[0]), run[1..]);
    }
  }

  lemma {:induction false} RunExact(s: State, run: seq<Step>, key: Key)
    requires TasksOk(s) && Exact(s, key) && Single(s, key) && Runs(s, run) && FreshRun(s, run, key)
    ensures Exact(Final(s, run), key) && Single(Final(s, run), key)
    decreases |run|
  {
    hide TasksOk, Exact, Single, Enabled, Apply, Fresh;
    if run != [] {
      TasksKept(s, run[0]);
      ExactKept(s, run[0], key);
      SingleKept(s, run[0], key);
      RunExact(Apply(s, run[0]), run[1..], key);
    }
  }

  /** The data of `key` is in place and complete. */
  predicate DataInPlace(s: State, key: Key) {
    Data(key) in s.files && s.files[Data(key)].Full?
  }

  /** After any run, crashes included: a key that is listed in memory, that has a
      visible metadata file, or for which a lookup has answered yes, has its complete
      data file in place. */
  lemma PublishSafety(s: State, run: seq<Step>)
    requires Initial(s) && Runs(s, run)
    ensures var f := Final(s, run);
      && (forall k :: k in f.hot ==> DataInPlace(f, k))
      && (forall k :: Meta(k) in f.files ==> DataInPlace(f, k))
      && (forall l :: 0 <= l < |f.lookups| && f.lookups[l].phase == Answered(true) ==> DataInPlace(f, f.lookups[l].key))
  {
    Starts(s);
    RunKeeps(s, run);
  }

  lemma Starts(s: State)
    requires Initial(s)
    ensures Inv(s) && Balanced(s) && LoadsOk(s) && TasksOk(s)
  {
  }

  /** After any run every reference count is the number of holders: puts that have
      not released, and loads that have not dropped theirs. A load keeps its object
      without returning it exactly if the object was not valid or had no tensor. Once
      every put is gone and every load has dropped its object, no reference is left. */
  lemma ReferencesConserved(s: State, run: seq<Step>, obj: Obj)
    requires Initial(s) && Runs(s, run)
    ensures var f := Final(s, run);
      && Count(f.refs, obj) == PutRefs(f.puts, obj) + LoadRefs(f.loads, obj)
      && (forall d :: 0 <= d < |f.loads| ==> (f.loads[d].phase == Leaked <==> !f.loads[d].fit.Usable?))
      && ((forall i :: 0 <= i < |f.puts| ==> f.puts[i].phase == Gone) &&
          (forall i :: 0 <= i < |f.loads| ==> f.loads[i].phase == Dropped) ==>
            Count(f.refs, obj) == 0)
  {
    Starts(s);
    RunKeeps(s, run);
    var f := Final(s, run);
    if forall i :: 0 <= i < |f.puts| ==> f.puts[i].phase == Gone {
      AllGone(f.puts, obj);
    }
    if forall i :: 0 <= i < |f.loads| ==> f.loads[i].phase == Dropped {
      AllDropped(f.loads, obj);
    }
  }

  lemma {:induction false} AllDropped(loads: seq<Load>, obj: Obj)
    requires forall i :: 0 <= i < |loads| ==> loads[i].phase == Dropped
    ensures LoadRefs(loads, obj) == 0
  {
    if loads != [] {
      AllDropped(loads[..|loads| - 1], obj);
    }
  }

  // ----- Pending keys over whole runs -----

  ghost predicate Reachable(s: State) {
    exists s0, run :: Initial(s0) && Runs(s0, run) && Final(s0, run) == s
  }

  lemma ReachableKeeps(s: State)
    requires Reachable(s)
    ensures Inv(s) && TasksOk(s) && LookupsTrue(s)
  {
    var s0, run :| Initial(s0) && Runs(s0, run) && Final(s0, run) == s;
    Starts(s0);
    RunKeeps(s0, run);
    LookupsExact(s0, run);
  }

  /** In every continuation without a duplicate submission of the key, it is in
      `tasks` exactly while a put for it is pending. */
  ghost predicate StaysExact(s: State, key: Key) {
    forall run :: Runs(s, run) && FreshRun(s, run, key) ==> Exact(Final(s, run), key)
  }

  /** The next step on the shortest way out for a put. */
  function Exit(p: nat, phase: PutPhase): Step
    requires phase != Gone
  {
    match phase
    case Renamed => List(p)
    case Listed => SpawnFails(p)
    case Leaving => Release(p)
    case Released => Discard(p)
    case _ => SaveFails(p)
  }

  function StepsLeft(phase: PutPhase): nat {
    match phase
    case Renamed => 4
    case Listed => 3
    case Leaving => 2
    case Released => 1
    case Gone => 0
    case _ => 3
  }

  lemma ExitStep(s: State, p: nat, q: nat, key: Key)
    requires p != q && Pending(s, p, key) && Pending(s, q, key)
    ensures
      var a := Exit(p, s.puts[p].phase);
      && Enabled(s, a) && Fresh(s, a, key) && Pending(Apply(s, a), q, key)
      && (s.puts[p].phase == Released ==> !Exact(Apply(s, a), key))
      && (s.puts[p].phase != Released ==>
            Pending(Apply(s, a), p, key) && StepsLeft(Apply(s, a).puts[p].phase) < StepsLeft(s.puts[p].phase))
  {
    var a := Exit(p, s.puts[p].phase);
    PutStep(s, a);
    assert Pending(Apply(s, a), q, key);
  }

  /** A put can leave while everything else stands still. */
  lemma {:induction false} DriveOut(s: State, p: nat, q: nat, key: Key) returns (run: seq<Step>)
    requires p != q && Pending(s, p, key) && Pending(s, q, key)
    ensures Runs(s, run) && FreshRun(s, run, key)
    ensures Pending(Final(s, run), q, key) && !Exact(Final(s, run), key)
    decreases StepsLeft(s.puts[p].phase)
  {
    hide Apply, Enabled, Exit, StepsLeft, Exact, Fresh;
    var a := Exit(p, s.puts[p].phase);
    ExitStep(s, p, q, key);
    var rest: seq<Step> := [];
    if s.puts[p].phase != Released {
      rest := DriveOut(Apply(s, a), p, q, key);
    }
    run := [a] + rest;
    assert run[1..] == rest;
  }

  /** Exactly when `tasks` can be relied on from now on: no put of the key is
      missing from it, and no two are pending. */
  lemma PendingKeys(s: State, key: Key)
    requires Reachable(s)
    ensures StaysExact(s, key) <==> Exact(s, key) && Single(s, key)
  {
    ReachableKeeps(s);
    hide Reachable, Inv;
    if StaysExact(s, key) {
      assert Runs(s, []) && FreshRun(s, [], key) && Final(s, []) == s;
      forall p, q | Pending(s, p, key) && Pending(s, q, key) ensures p == q {
        if p != q {
          var run := DriveOut(s, p, q, key);
          assert false;
        }
      }
    } else if Exact(s, key) && Single(s, key) {
      forall run | Runs(s, run) && FreshRun(s, run, key) ensures Exact(Final(s, run), key) {
        RunExact(s, run, key);
      }
    }
  }

  /** So it can be from the start, and a submission keeps it that way exactly if the
      key is not in `tasks`, which a caller can ask beforehand. */
  lemma SubmitKeepsExact(s: State, key: Key, obj: Obj)
    requires Reachable(s) && StaysExact(s, key)
    ensures StaysExact(Apply(s, Submit(key, obj)), key) <==> key !in s.tasks
  {
    var s' := Apply(s, Submit(key, obj));
    PendingKeys(s, key);
    ReachableNext(s, Submit(key, obj));
    PendingKeys(s', key);
    hide Reachable, StaysExact;
    assert Pending(s', |s.puts|, key);
    if key in s.tasks {
      var p :| Pending(s, p, key);
      assert Pending(s', p, key);
    } else {
      assert Fresh(s, Submit(key, obj), key);
      SingleKept(s, Submit(key, obj), key);
    }
  }

  lemma {:induction false} RunSnoc(s: State, run: seq<Step>, a: Step)
    requires Runs(s, run) && Enabled(Final(s, run), a)
    ensures Runs(s, run + [a]) && Final(s, run + [a]) == Apply(Final(s, run), a)
    decreases |run|
  {
    hide Enabled, Apply;
    if run == [] {
      assert (run + [a])[1..] == [];
    } else {
      RunSnoc(Apply(s, run[0]), run[1..], a);
      assert (run + [a])[1..] == run[1..] + [a];
    }
  }

  lemma ReachableNext(s: State, a: Step)
    requires Reachable(s) && Enabled(s, a)
    ensures Reachable(Apply(s, a))
  {
    hide Enabled, Apply;
    var s0, run :| Initial(s0) && Runs(s0, run) && Final(s0, run) == s;
    RunSnoc(s0, run, a);
  }

  lemma ReachableInitial(s: State)
    requires Initial(s)
    ensures Reachable(s) && forall key :: StaysExact(s, key)
  {
    assert Runs(s, []) && Final(s, []) == s;
    forall key ensures StaysExact(s, key) {
      PendingKeys(s, key);
    }
  }

  /** `s'` comes after `s` by one step. */
  lemma Do(s: State, a: Step) returns (s': State)
    requires Reachable(s) && Enabled(s, a)
    ensures Reachable(s') && s' == Apply(s, a)
  {
    ReachableNext(s, a);
    s' := Apply(s, a);
  }

  lemma Begin() returns (s: State)
    ensures Reachable(s) && Initial(s)
  {
    s := State(map[], map[], {}, map[], {}, [], [], [], []);
    ReachableInitial(s);
  }

  /** Two puts of one key, the first of which leaves: the other is still pending,
      but the key is no longer in `tasks`. */
  lemma DuplicateBreaks(key: Key, obj: Obj) returns (s: State)
    ensures Reachable(s) && HasPending(s, key) && key !in s.tasks
  {
    hide Reachable;
    s := Begin();
    s := Do(s, Submit(key, obj));
    s := Do(s, Submit(key, obj));
    s := Do(s, SaveFails(0));
    s := Do(s, Release(0));
    s := Do(s, Discard(0));
    assert Pending(s, 1, key);
  }

  // ----- What `contains` answers -----

  /** A lookup that has answered said yes exactly if the key was in memory when it
      looked. */
  ghost predicate LookupsTrue(s: State) {
    forall l :: 0 <= l < |s.lookups| ==> LookupTrue(s.lookups[l])
  }

  predicate LookupTrue(k: Lookup) {
    match k.phase
    case Answered(found) => found == k.hit
    case _ => !k.hit
  }

  lemma LookupsStayTrue(s: State, a: Step)
    requires LookupsTrue(s) && Enabled(s, a)
    ensures LookupsTrue(Apply(s, a))
  {
    var s' := Apply(s, a);
    if a.ReadMeta? || a.ReadFails? || a.ListRead? {
      assert LookupTrue(s.lookups[a.l]) && LookupTrue(s'.lookups[a.l]);
      assert s'.lookups == s.lookups[a.l := s'.lookups[a.l]];
    } else if a.Contains? || a.Scan? {
      assert s'.lookups[..|s.lookups|] == s.lookups && LookupTrue(s'.lookups[|s.lookups|]);
    } else {
      assert s'.lookups == if a.Crash? then [] else s.lookups;
    }
    hide Apply, Enabled, LookupTrue;
  }

  lemma {:induction false} RunLookups(s: State, run: seq<Step>)
    requires LookupsTrue(s) && Runs(s, run)
    ensures LookupsTrue(Final(s, run))
    decreases |run|
  {
    hide LookupsTrue, Enabled, Apply;
    if run != [] {
      LookupsStayTrue(s, run[0]);
      RunLookups(Apply(s, run[0]), run[1..]);
    }
  }

  /** After any run, every lookup that has answered said yes exactly if the key was
      in memory when it looked. What the metadata file says makes no difference. */
  lemma LookupsExact(s: State, run: seq<Step>)
    requires Initial(s) && Runs(s, run)
    ensures forall l :: 0 <= l < |Final(s, run).lookups| && Final(s, run).lookups[l].phase.Answered? ==>
      Final(s, run).lookups[l].phase.found == Final(s, run).lookups[l].hit
    ensures LookupsTrue(Final(s, run))
  {
    RunLookups(s, run);
  }

  /** The lookup keeps its key and its record, until the process dies. */
  lemma {:induction false} LookupStays(s: State, run: seq<Step>, l: nat)
    requires Runs(s, run) && Crash !in run && l < |s.lookups|
    ensures l < |Final(s, run).lookups|
    ensures Final(s, run).lookups[l].key == s.lookups[l].key && Final(s, run).lookups[l].hit == s.lookups[l].hit
    decreases |run|
  {
    if run != [] {
      LookupStep(s, run[0], l);
      hide Enabled, Apply;
      LookupStays(Apply(s, run[0]), run[1..], l);
    }
  }

  lemma LookupStep(s: State, a: Step, l: nat)
    requires Enabled(s, a) && !a.Crash? && l < |s.lookups|
    ensures l < |Apply(s, a).lookups|
    ensures Apply(s, a).lookups[l].key == s.lookups[l].key && Apply(s, a).lookups[l].hit == s.lookups[l].hit
  {
  }

  /** An entry that is on disk but not in memory is always answered no, whatever else
      happens meanwhile. */
  lemma DiskOnlyMisses(s: State, key: Key, run: seq<Step>)
    requires Reachable(s) && key !in s.hot && Runs(Apply(s, Contains(key)), run) && Crash !in run
    ensures var l, f := |s.lookups|, Final(Apply(s, Contains(key)), run);
      l < |f.lookups| && f.lookups[l].key == key && f.lookups[l].phase != Answered(true)
  {
    var s1 := Apply(s, Contains(key));
    ReachableKeeps(s);
    hide Reachable, Inv;
    LookupsStayTrue(s, Contains(key));
    LookupStays(s1, run, |s.lookups|);
    RunLookups(s1, run);
  }

  /** A put has listed its entry and started its metadata writer. */
  lemma ListedReachable(key: Key, obj: Obj) returns (s: State)
    ensures Reachable(s) && s.puts == [Put(key, obj, Leaving)] && s.writers == [Writer(0, Starting)]
    ensures s.files == map[Data(key) := Full(0)] && s.hot == map[key := 0]
  {
    hide Reachable;
    s := Begin();
    s := Do(s, Submit(key, obj));
    s := Do(s, OpenTmp(0));
    s := Do(s, FillTmp(0));
    s := Do(s, RenameData(0));
    assert s.files == map[Data(key) := Full(0)];
    s := Do(s, List(0));
    s := Do(s, Spawn(0));
  }

  lemma PublishedReachable(key: Key, obj: Obj) returns (s: State)
    ensures Reachable(s) && DataInPlace(s, key) && Meta(key) in s.files
  {
    hide Reachable;
    s := ListedReachable(key, obj);
    s := Do(s, OpenMeta(0));
    s := Do(s, FillMeta(0));
    s := Do(s, RenameMeta(0));
  }

  /** Such entries exist: whatever was published before the process was restarted. */
  lemma DiskOnlyReachable(key: Key, obj: Obj) returns (s: State)
    ensures Reachable(s) && key !in s.hot && DataInPlace(s, key) && Meta(key) in s.files
  {
    hide Reachable;
    s := PublishedReachable(key, obj);
    s := Do(s, Crash);
  }
}
