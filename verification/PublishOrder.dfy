/** Whether the metadata of a key describes the data that is in place. The key
    leaves `tasks` before its metadata writer ends, so a writer that is late can
    overwrite newer metadata; this module says when that cannot happen. */
module PublishOrder {
  import opened Options
  import opened Publish

  /** Put `p` of the key can still rename a file: it has not got beyond starting its
      metadata writer, or that writer is at work. */
  ghost predicate Busy(s: State, p: nat, key: Key) {
    && p < |s.puts| && s.puts[p].key == key
    && (s.puts[p].phase in {Queued, Writing, Written, Renamed, Listed} || exists w :: Works(s, w, p))
  }

  predicate Works(s: State, w: nat, p: nat) {
    w < |s.writers| && s.writers[w].put == p && s.writers[w].phase in {Starting, Opened, Filled}
  }

  ghost predicate AnyBusy(s: State, key: Key) {
    exists p :: Busy(s, p, key)
  }

  /** The step does not submit the key while an earlier put of it is busy. */
  ghost predicate Serial(s: State, a: Step, key: Key) {
    a.Submit? && a.key == key ==> !AnyBusy(s, key)
  }

  ghost predicate SerialRun(s: State, run: seq<Step>, key: Key)
    requires Runs(s, run)
    decreases |run|
  {
    run == [] || (Serial(s, run[0], key) && SerialRun(Apply(s, run[0]), run[1..], key))
  }

  /** The put whose data, and the one whose metadata, is in place. */
  predicate DataFrom(s: State, key: Key, p: nat) {
    Data(key) in s.files && s.files[Data(key)] == Full(p)
  }

  predicate MetaFrom(s: State, key: Key, p: nat) {
    Meta(key) in s.files && s.files[Meta(key)] == Full(p)
  }

  /** The metadata in place is never newer than the data, memory lists nothing newer
      either, and data whose metadata was renamed is described by it. */
  ghost predicate Agrees(s: State, key: Key) {
    && (forall d, m :: DataFrom(s, key, d) && MetaFrom(s, key, m) ==> m <= d)
    && (forall d :: DataFrom(s, key, d) && key in s.hot ==> s.hot[key] <= d)
    && (forall d :: DataFrom(s, key, d) ==> (d in s.described <==> MetaFrom(s, key, d)))
  }

  // ----- Serial submissions keep the order -----

  predicate OfKey(s: State, p: nat, key: Key) {
    p < |s.puts| && s.puts[p].key == key
  }

  ghost predicate Newest(s: State, p: nat, key: Key) {
    forall q: nat :: OfKey(s, q, key) ==> q <= p
  }

  /** Whoever can still rename a file is the newest put of the key. */
  ghost predicate BusyNewest(s: State, key: Key) {
    forall p :: Busy(s, p, key) ==> Newest(s, p, key)
  }

  /** A put that has renamed its data, and is not done, still has it in place. */
  ghost predicate OwnData(s: State, key: Key) {
    && (forall p: nat :: OfKey(s, p, key) && s.puts[p].phase in {Renamed, Listed} ==> DataFrom(s, key, p))
    && (forall w, p :: Works(s, w, p) && OfKey(s, p, key) ==> DataFrom(s, key, p))
  }

  /** The metadata in place is that of the newest put that has any, and no newer
      than the data. */
  ghost predicate MetaOld(s: State, key: Key) {
    && (forall m: nat :: MetaFrom(s, key, m) ==> m in s.described)
    && (forall m: nat, d: nat :: MetaFrom(s, key, m) && DataFrom(s, key, d) ==> m <= d)
    && (forall p: nat :: OfKey(s, p, key) && p in s.described ==> Meta(key) in s.files)
    && (forall p: nat, m: nat :: OfKey(s, p, key) && p in s.described && MetaFrom(s, key, m) ==> p <= m)
  }

  predicate ReadOf(s: State, l: nat, key: Key) {
    l < |s.lookups| && s.lookups[l].key == key && s.lookups[l].phase.HasRead?
  }

  ghost predicate ListedOld(s: State, key: Key) {
    && (forall d :: DataFrom(s, key, d) && key in s.hot ==> s.hot[key] <= d)
    && (forall d, l: nat :: DataFrom(s, key, d) && ReadOf(s, l, key) ==> s.lookups[l].phase.put <= d)
  }

  ghost predicate DescribedOld(s: State) {
    forall p :: p in s.described ==> p < |s.puts|
  }

  ghost predicate Ordered(s: State, key: Key) {
    DescribedOld(s) && BusyNewest(s, key) && OwnData(s, key) && MetaOld(s, key) && ListedOld(s, key)
  }

  lemma OrderedAgrees(s: State, key: Key)
    requires Inv(s) && Ordered(s, key)
    ensures Agrees(s, key)
  {
    forall d | DataFrom(s, key, d) ensures d in s.described <==> MetaFrom(s, key, d) {
      assert Names(s, key, d);
      assert OfKey(s, d, key);
      if d in s.described {
        assert s.files[Meta(key)].Full?;
        assert MetaFrom(s, key, s.files[Meta(key)].put);
      }
    }
  }

  /** The put of the key whose data, or whose metadata, the step renames. */
  function Renames(s: State, a: Step, key: Key): Option<nat>
    requires Enabled(s, a)
  {
    if a.RenameData? && s.puts[a.p].key == key then Some(a.p) else None
  }

  function Describes(s: State, a: Step, key: Key): Option<nat>
    requires Enabled(s, a)
  {
    if a.RenameMeta? && s.puts[s.writers[a.w].put].key == key then Some(s.writers[a.w].put) else None
  }

  /** What a step does to the two files of the key. */
  lemma FilesOf(s: State, a: Step, key: Key)
    requires PutsOk(s) && WritersOk(s) && Enabled(s, a)
    ensures Renames(s, a, key).None? ==>
      (Data(key) in s.files <==> Data(key) in Apply(s, a).files)
      && (Data(key) in s.files ==> Apply(s, a).files[Data(key)] == s.files[Data(key)])
    ensures Renames(s, a, key).Some? ==> DataFrom(Apply(s, a), key, Renames(s, a, key).value)
    ensures Describes(s, a, key).None? ==>
      (Meta(key) in s.files <==> Meta(key) in Apply(s, a).files)
      && (Meta(key) in s.files ==> Apply(s, a).files[Meta(key)] == s.files[Meta(key)])
    ensures Describes(s, a, key).Some? ==> MetaFrom(Apply(s, a), key, Describes(s, a, key).value)
    ensures Describes(s, a, key).None? ==>
      forall p: nat :: OfKey(s, p, key) && p in Apply(s, a).described ==> p in s.described
    ensures forall p :: p in s.described ==> p in Apply(s, a).described
    ensures Describes(s, a, key).Some? ==> Apply(s, a).described == s.described + {Describes(s, a, key).value}
  {
    if a.RenameData? {
      assert PutOk(s, a.p);
    } else if a.RenameMeta? {
      assert WriterOk(s, s.writers[a.w]);
    }
  }

  /** What a step does to the puts of the key: a submission adds one that is newer
      than all others, and nobody else becomes busy. */
  lemma PutsOf(s: State, a: Step, key: Key)
    requires Enabled(s, a)
    ensures |s.puts| <= |Apply(s, a).puts|
    ensures forall p: nat :: OfKey(Apply(s, a), p, key) ==>
      OfKey(s, p, key) || (a.Submit? && a.key == key && p == |s.puts|)
    ensures forall p: nat :: OfKey(s, p, key) ==> OfKey(Apply(s, a), p, key)
  {
    KeysStay(s, a);
    if a.Submit? {
    } else if PutOf(a).Some? {
      PutStep(s, a);
    } else if !a.Crash? {
      OtherStep(s, a);
    }
  }

  lemma WorksOf(s: State, a: Step, w: nat, p: nat)
    requires Enabled(s, a) && Works(Apply(s, a), w, p)
    ensures Works(s, w, p) || (a == Spawn(p) && PutIn(s, p, Listed))
  {
    WriterMoves(s, a);
    WriterAhead(s, a);
    hide Apply, Enabled;
  }

  /** A writer only moves on. */
  lemma WriterAhead(s: State, a: Step)
    requires Enabled(s, a)
    ensures a.Spawn? ==> PutIn(s, a.p, Listed)
    ensures WriterStep(a).Some? ==>
      WriterStep(a).value < |s.writers| && WriterStep(a).value < |Apply(s, a).writers|
      && (Apply(s, a).writers[WriterStep(a).value].phase in {Starting, Opened, Filled} ==>
            s.writers[WriterStep(a).value].phase in {Starting, Opened, Filled})
  {
  }

  predicate Early(phase: PutPhase) {
    phase in {Queued, Writing, Written, Renamed, Listed}
  }

  lemma PutAhead(s: State, a: Step, p: nat)
    requires Enabled(s, a) && p < |s.puts|
    ensures p < |Apply(s, a).puts|
    ensures Early(Apply(s, a).puts[p].phase) ==> Early(s.puts[p].phase)
    ensures Apply(s, a).puts[p].phase in {Renamed, Listed} ==>
      s.puts[p].phase in {Renamed, Listed} || a == RenameData(p)
  {
    if PutOf(a) == Some(p) {
    } else {
      OtherPutKept(s, a, p);
    }
  }

  lemma BusyOf(s: State, a: Step, p: nat, key: Key)
    requires Enabled(s, a) && Busy(Apply(s, a), p, key) && p < |s.puts|
    ensures Busy(s, p, key)
  {
    KeysStay(s, a);
    PutAhead(s, a, p);
    var s' := Apply(s, a);
    hide Apply, Enabled;
    if !Early(s'.puts[p].phase) {
      var w :| Works(s', w, p);
      WorksOf(s, a, w, p);
    }
  }

  lemma NewestKept(s: State, a: Step, key: Key)
    requires BusyNewest(s, key) && Enabled(s, a) && Serial(s, a, key)
    ensures BusyNewest(Apply(s, a), key)
  {
    var s' := Apply(s, a);
    PutsOf(s, a, key);
    hide Apply, Enabled;
    forall p: nat | Busy(s', p, key) ensures Newest(s', p, key) {
      assert OfKey(s', p, key);
      if p < |s.puts| {
        BusyOf(s, a, p, key);
        assert !(a.Submit? && a.key == key);
      }
    }
  }

  lemma OwnDataKept(s: State, a: Step, key: Key)
    requires Inv(s) && BusyNewest(s, key) && OwnData(s, key) && Enabled(s, a)
    ensures OwnData(Apply(s, a), key)
  {
    var s' := Apply(s, a);
    FilesOf(s, a, key);
    PutsOf(s, a, key);
    NewPuts(s, a);
    assert Renames(s, a, key).Some? ==> a == RenameData(Renames(s, a, key).value) && Busy(s, a.p, key);
    hide Apply, Enabled, Inv;
    forall p: nat | OfKey(s', p, key) && s'.puts[p].phase in {Renamed, Listed} ensures DataFrom(s', key, p) {
      if p < |s.puts| {
        PutAhead(s, a, p);
        if Renames(s, a, key).Some? {
          SameBusy(s, key, p, Renames(s, a, key).value);
        }
      }
    }
    forall w: nat, p: nat | Works(s', w, p) && OfKey(s', p, key) ensures DataFrom(s', key, p) {
      WorksOf(s, a, w, p);
      if Renames(s, a, key).Some? {
        SameBusy(s, key, p, Renames(s, a, key).value);
      }
    }
  }

  lemma SameBusy(s: State, key: Key, p: nat, q: nat)
    requires BusyNewest(s, key) && Busy(s, p, key) && Busy(s, q, key)
    ensures p == q
  {
    assert OfKey(s, p, key) && OfKey(s, q, key);
  }

  lemma DescribedKept(s: State, a: Step)
    requires DescribedOld(s) && Enabled(s, a)
    ensures DescribedOld(Apply(s, a))
  {
    KeysStay(s, a);
    DescribedMoves(s, a);
  }

  lemma DescribedMoves(s: State, a: Step)
    requires Enabled(s, a)
    ensures Apply(s, a).described == if a.RenameMeta? then s.described + {s.writers[a.w].put} else s.described
    ensures a.RenameMeta? ==> s.writers[a.w].put < |s.puts| && Works(s, a.w, s.writers[a.w].put)
    ensures a.RenameData? ==> a.p < |s.puts| && Early(s.puts[a.p].phase)
  {
  }

  lemma MetaOldKept(s: State, a: Step, key: Key)
    requires Inv(s) && Ordered(s, key) && Enabled(s, a)
    ensures MetaOld(Apply(s, a), key)
  {
    var s' := Apply(s, a);
    FilesOf(s, a, key);
    PutsOf(s, a, key);
    DescribedMoves(s, a);
    hide Apply, Enabled;
    if Renames(s, a, key).Some? {
      assert Busy(s, Renames(s, a, key).value, key);
      NamedOld(s, key, Renames(s, a, key).value);
    }
    hide Inv, ListedOld;
    if Describes(s, a, key).Some? {
      var m := Describes(s, a, key).value;
      assert Works(s, a.w, m) && OfKey(s, m, key);
      assert Busy(s, m, key);
      assert DataFrom(s, key, m) && Newest(s, m, key);
    } else {
      assert forall m: nat :: MetaFrom(s', key, m) ==> MetaFrom(s, key, m);
      assert forall p: nat :: OfKey(s', p, key) && p in s'.described ==> OfKey(s, p, key) && p in s.described;
      assert Renames(s, a, key).None? ==> forall d: nat :: DataFrom(s', key, d) ==> DataFrom(s, key, d);
    }
  }

  /** Where an entry in memory comes from. */
  lemma HotMoves(s: State, a: Step, key: Key)
    requires Enabled(s, a) && key in Apply(s, a).hot
    ensures
      || (key in s.hot && Apply(s, a).hot[key] == s.hot[key])
      || (a == List(Apply(s, a).hot[key]) && PutIn(s, a.p, Renamed) && OfKey(s, a.p, key))
      || (a.ListRead? && ReadOf(s, a.l, key) && s.lookups[a.l].phase.put == Apply(s, a).hot[key])
  {
  }

  /** Where what a lookup has read comes from. */
  lemma ReadMoves(s: State, a: Step, l: nat, key: Key)
    requires Enabled(s, a) && ReadOf(Apply(s, a), l, key)
    ensures
      || (ReadOf(s, l, key) && Apply(s, a).lookups[l].phase == s.lookups[l].phase)
      || (a == ReadMeta(l) && MetaFrom(s, key, Apply(s, a).lookups[l].phase.put))
  {
  }

  /** What is listed or read names a put of the key, so it is no newer than the
      newest one. */
  lemma NamedOld(s: State, key: Key, p: nat)
    requires Inv(s) && Newest(s, p, key)
    ensures key in s.hot ==> s.hot[key] <= p
    ensures forall l: nat :: ReadOf(s, l, key) ==> s.lookups[l].phase.put <= p
    ensures forall m: nat :: MetaFrom(s, key, m) ==> m <= p
  {
    hide DataOk, PutsOk, WritersOk, WritersDiffer;
    if key in s.hot {
      assert OfKey(s, s.hot[key], key);
    }
    forall l: nat | ReadOf(s, l, key) ensures s.lookups[l].phase.put <= p {
      assert OfKey(s, s.lookups[l].phase.put, key);
    }
    forall m: nat | MetaFrom(s, key, m) ensures m <= p {
      assert OfKey(s, m, key);
    }
  }

  /** Where the data in place comes from. */
  lemma DataMoves(s: State, a: Step, key: Key, d: nat)
    requires Inv(s) && BusyNewest(s, key) && Enabled(s, a) && DataFrom(Apply(s, a), key, d)
    ensures DataFrom(s, key, d) || (a == RenameData(d) && Newest(s, d, key))
  {
    FilesOf(s, a, key);
    DescribedMoves(s, a);
    hide Apply, Enabled, Inv;
    if Renames(s, a, key).Some? {
      assert Busy(s, d, key);
    }
  }

  lemma HotOld(s: State, a: Step, key: Key, d: nat)
    requires Inv(s) && Ordered(s, key) && Enabled(s, a) && DataFrom(Apply(s, a), key, d) && key in Apply(s, a).hot
    ensures Apply(s, a).hot[key] <= d
  {
    hide Apply, Enabled, Inv, MetaOld;
    HotMoves(s, a, key);
    DataMoves(s, a, key, d);
    if !DataFrom(s, key, d) {
      NamedOld(s, key, d);
    }
  }

  lemma ReadOld(s: State, a: Step, key: Key, d: nat, l: nat)
    requires Inv(s) && Ordered(s, key) && Enabled(s, a) && DataFrom(Apply(s, a), key, d) && ReadOf(Apply(s, a), l, key)
    ensures Apply(s, a).lookups[l].phase.put <= d
  {
    hide Apply, Enabled, Inv, OwnData;
    ReadMoves(s, a, l, key);
    DataMoves(s, a, key, d);
    if !DataFrom(s, key, d) {
      NamedOld(s, key, d);
    }
  }

  lemma ListedOldKept(s: State, a: Step, key: Key)
    requires Inv(s) && Ordered(s, key) && Enabled(s, a)
    ensures ListedOld(Apply(s, a), key)
  {
    hide Apply, Enabled, Inv, Ordered, DataFrom;
    var s' := Apply(s, a);
    forall d: nat | DataFrom(s', key, d) && key in s'.hot ensures s'.hot[key] <= d {
      HotOld(s, a, key, d);
    }
    forall d: nat, l: nat | DataFrom(s', key, d) && ReadOf(s', l, key)
      ensures l < |s'.lookups| && s'.lookups[l].phase.HasRead? && s'.lookups[l].phase.put <= d
    {
      ReadOld(s, a, key, d, l);
    }
  }

  lemma OrderedKept(s: State, a: Step, key: Key)
    requires Inv(s) && Ordered(s, key) && Enabled(s, a) && Serial(s, a, key)
    ensures Ordered(Apply(s, a), key)
  {
    DescribedKept(s, a);
    NewestKept(s, a, key);
    OwnDataKept(s, a, key);
    MetaOldKept(s, a, key);
    ListedOldKept(s, a, key);
    hide Apply, Enabled, Inv, DescribedOld, BusyNewest, OwnData, MetaOld, ListedOld;
  }

  lemma {:induction false} OrderedRun(s: State, run: seq<Step>, key: Key)
    requires Inv(s) && Ordered(s, key) && Runs(s, run) && SerialRun(s, run, key)
    ensures Inv(Final(s, run)) && Ordered(Final(s, run), key)
    decreases |run|
  {
    hide Inv, Ordered, Enabled, Apply, Serial;
    if run != [] {
      StepKeeps(s, run[0]);
      OrderedKept(s, run[0], key);
      OrderedRun(Apply(s, run[0]), run[1..], key);
    }
  }

  /** After any run that submits the key only while no earlier put of it is busy,
      failures, crashes and everything about other keys included: the metadata in
      place and the entry in memory are no newer than the data, and the metadata
      describes the data exactly if it was renamed for it. */
  lemma SerialAgrees(s: State, run: seq<Step>, key: Key)
    requires Initial(s) && Runs(s, run) && SerialRun(s, run, key)
    ensures Agrees(Final(s, run), key)
  {
    Starts(s);
    OrderedRun(s, run, key);
    OrderedAgrees(Final(s, run), key);
  }

  // ----- And the condition is needed -----

  /** In every serial continuation the files agree. */
  ghost predicate StaysAgreeing(s: State, key: Key) {
    forall run :: Runs(s, run) && SerialRun(s, run, key) ==> Agrees(Final(s, run), key)
  }

  /** From `s` to `s'` without a submission. */
  ghost predicate Goes(s: State, s': State) {
    exists run: seq<Step> :: Runs(s, run) && (forall a :: a in run ==> !a.Submit?) && Final(s, run) == s'
  }

  lemma GoesNowhere(s: State)
    ensures Goes(s, s)
  {
    assert Runs(s, []) && Final(s, []) == s;
  }

  lemma GoOn(s0: State, s: State, a: Step) returns (s': State)
    requires Goes(s0, s) && Inv(s) && Enabled(s, a) && !a.Submit?
    ensures Goes(s0, s') && Inv(s') && s' == Apply(s, a)
  {
    StepKeeps(s, a);
    s' := Apply(s, a);
    hide Enabled, Apply, Inv;
    var run: seq<Step> :| Runs(s0, run) && (forall b :: b in run ==> !b.Submit?) && Final(s0, run) == s;
    RunSnoc(s0, run, a);
    assert forall b :: b in run + [a] ==> !b.Submit?;
  }

  lemma {:induction false} NoSubmitIsSerial(s: State, run: seq<Step>, key: Key)
    requires Runs(s, run) && (forall a :: a in run ==> !a.Submit?)
    ensures SerialRun(s, run, key)
    decreases |run|
  {
    if run != [] {
      hide Enabled, Apply;
      NoSubmitIsSerial(Apply(s, run[0]), run[1..], key);
    }
  }

  predicate OthersStay(s: State, s': State, p: nat) {
    |s'.puts| == |s.puts| && forall q :: 0 <= q < |s.puts| && q != p ==> s'.puts[q] == s.puts[q]
  }

  /** A put can get its data into place. */
  lemma {:induction false} DataOut(s0: State, s: State, p: nat, key: Key) returns (s': State)
    requires Goes(s0, s) && Inv(s) && OfKey(s, p, key) && s.puts[p].phase in {Queued, Writing, Written}
    ensures Goes(s0, s') && Inv(s') && PutIn(s', p, Renamed) && OfKey(s', p, key) && DataFrom(s', key, p)
    ensures OthersStay(s, s', p) && s'.writers == s.writers && s'.described == s.described
    ensures forall m: nat :: MetaFrom(s, key, m) ==> MetaFrom(s', key, m)
    decreases match s.puts[p].phase case Queued => 2 case Writing => 1 case _ => 0
  {
    hide Goes;
    if s.puts[p].phase == Queued {
      var s1 := GoOn(s0, s, OpenTmp(p));
      hide Inv;
      s' := DataOut(s0, s1, p, key);
    } else if s.puts[p].phase == Writing {
      var s1 := GoOn(s0, s, FillTmp(p));
      hide Inv;
      s' := DataOut(s0, s1, p, key);
    } else {
      assert PutOk(s, p);
      s' := GoOn(s0, s, RenameData(p));
    }
  }

  /** Then it can list the entry and start its metadata writer. */
  lemma ListOut(s0: State, s: State, p: nat) returns (s': State)
    requires Goes(s0, s) && Inv(s) && p < |s.puts| && s.puts[p].phase in {Renamed, Listed}
    ensures Goes(s0, s') && Inv(s') && s'.writers == s.writers + [Writer(p, Starting)]
    ensures OthersStay(s, s', p) && s'.puts[p].key == s.puts[p].key && s'.files == s.files
      && s'.described == s.described
  {
    hide Goes;
    s' := s;
    if s.puts[p].phase == Renamed {
      s' := GoOn(s0, s, List(p));
    }
    hide Inv;
    s' := GoOn(s0, s', Spawn(p));
  }

  /** And the writer can get the metadata into place. */
  lemma {:induction false} WriterOut(s0: State, s: State, w: nat, p: nat, key: Key) returns (s': State)
    requires Goes(s0, s) && Inv(s) && Works(s, w, p) && OfKey(s, p, key)
    ensures Goes(s0, s') && Inv(s') && MetaFrom(s', key, p) && s'.described == s.described + {p}
    ensures s'.puts == s.puts && |s'.writers| == |s.writers|
    ensures forall v :: 0 <= v < |s.writers| && v != w ==> s'.writers[v] == s.writers[v]
    ensures forall d: nat :: DataFrom(s, key, d) ==> DataFrom(s', key, d)
    decreases match s.writers[w].phase case Starting => 2 case Opened => 1 case _ => 0
  {
    hide Goes;
    if s.writers[w].phase == Starting {
      var s1 := GoOn(s0, s, OpenMeta(w));
      hide Inv;
      s' := WriterOut(s0, s1, w, p, key);
    } else if s.writers[w].phase == Opened {
      var s1 := GoOn(s0, s, FillMeta(w));
      hide Inv;
      s' := WriterOut(s0, s1, w, p, key);
    } else {
      assert WriterOk(s, s.writers[w]);
      s' := GoOn(s0, s, RenameMeta(w));
    }
  }

  /** A new put can publish data and metadata while the others stand still. */
  lemma PublishOut(s0: State, s: State, r: nat, key: Key) returns (s': State)
    requires Goes(s0, s) && Inv(s) && OfKey(s, r, key) && s.puts[r].phase == Queued
    ensures Goes(s0, s') && Inv(s') && DataFrom(s', key, r) && MetaFrom(s', key, r) && r in s'.described
    ensures OthersStay(s, s', r) && |s'.writers| == |s.writers| + 1 && s'.writers[..|s.writers|] == s.writers
  {
    hide Goes, Inv;
    var s1 := DataOut(s0, s, r, key);
    var s2 := ListOut(s0, s1, r);
    s' := WriterOut(s0, s2, |s.writers|, r, key);
  }

  /** A late writer puts old metadata over new. */
  lemma LateWriter(s0: State, s: State, w: nat, p: nat, r: nat, key: Key) returns (s': State)
    requires Goes(s0, s) && Inv(s) && Works(s, w, p) && OfKey(s, p, key) && p != r
    requires OfKey(s, r, key) && s.puts[r].phase == Queued
    ensures Goes(s0, s') && DataFrom(s', key, r) && r in s'.described && MetaFrom(s', key, p)
  {
    hide Goes, Inv;
    var s1 := PublishOut(s0, s, r, key);
    assert s1.writers[w] == s1.writers[..|s.writers|][w];
    s' := WriterOut(s0, s1, w, p, key);
  }

  /** Whoever is busy when the key is submitted again can spoil the files later. */
  lemma BusySpoils(s: State, p: nat, r: nat, key: Key) returns (s': State)
    requires Inv(s) && Busy(s, p, key) && p < r && OfKey(s, r, key) && s.puts[r].phase == Queued
    ensures Goes(s, s') && !Agrees(s', key)
  {
    GoesNowhere(s);
    hide Goes, Inv;
    if s.puts[p].phase in {Queued, Writing, Written} {
      var s1 := PublishOut(s, s, r, key);
      s' := DataOut(s, s1, p, key);
    } else if s.puts[p].phase in {Renamed, Listed} {
      var s1 := ListOut(s, s, p);
      s' := LateWriter(s, s1, |s.writers|, p, r, key);
    } else {
      var w :| Works(s, w, p);
      s' := LateWriter(s, s, w, p, r, key);
    }
  }

  /** So after any serial run, a further submission of the key keeps its files in
      agreement exactly if no put of it is busy. That the key is not in `tasks` is
      not enough. */
  lemma SubmitKeepsOrder(s0: State, run: seq<Step>, key: Key, obj: Obj)
    requires Initial(s0) && Runs(s0, run) && SerialRun(s0, run, key)
    ensures StaysAgreeing(Apply(Final(s0, run), Submit(key, obj)), key) <==> !AnyBusy(Final(s0, run), key)
  {
    Starts(s0);
    OrderedRun(s0, run, key);
    var s := Final(s0, run);
    var s1 := Apply(s, Submit(key, obj));
    StepKeeps(s, Submit(key, obj));
    hide Inv, Agrees, Ordered;
    if AnyBusy(s, key) {
      var p :| Busy(s, p, key);
      BusyAfterSubmit(s, p, key, obj);
      var s' := BusySpoils(s1, p, |s.puts|, key);
      var more: seq<Step> :| Runs(s1, more) && (forall a :: a in more ==> !a.Submit?) && Final(s1, more) == s';
      NoSubmitIsSerial(s1, more, key);
    } else {
      assert Serial(s, Submit(key, obj), key);
      OrderedKept(s, Submit(key, obj), key);
      forall more | Runs(s1, more) && SerialRun(s1, more, key) ensures Agrees(Final(s1, more), key) {
        OrderedRun(s1, more, key);
        OrderedAgrees(Final(s1, more), key);
      }
    }
  }

  lemma BusyAfterSubmit(s: State, p: nat, key: Key, obj: Obj)
    requires Busy(s, p, key)
    ensures Busy(Apply(s, Submit(key, obj)), p, key)
  {
    if exists w :: Works(s, w, p) {
      var w :| Works(s, w, p);
      assert Works(Apply(s, Submit(key, obj)), w, p);
    }
  }

  lemma NotInTasksButBusy(key: Key, obj: Obj) returns (s: State)
    ensures Reachable(s) && key !in s.tasks && AnyBusy(s, key)
  {
    hide Reachable;
    s := ListedReachable(key, obj);
    s := Do(s, Release(0));
    s := Do(s, Discard(0));
    assert Works(s, 0, 0);
    assert Busy(s, 0, key);
  }
}
