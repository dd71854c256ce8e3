/** What every run of the file system keeps: handle counts, finalized files, the state machine. */
module Lifecycle {
  import opened Bytes
  import opened Store
  import opened World
  import FP = FetchPolicy

  type Handles = map<int, Handle>

  ghost function WriterIds(handles: Handles, name: string): set<int> {
    set id | id in handles && handles[id] == Writer(name)
  }

  ghost predicate CountOk(counts: Counts, handles: Handles, name: string) {
    CountOf(counts, name) == |WriterIds(handles, name)|
  }

  /** The write-handle count of every name is its number of live write handles. */
  ghost predicate CountsExact(w: World) {
    forall name :: CountOk(w.writers, w.handles, name)
  }

  predicate Archived(w: World, n: string) {
    n in w.rows && !IsLocal(w.rows[n].state)
  }

  /** What holds for every name with a row. The source column follows the state; a finalized file has the size and
      hash its row records, if it is there; an archived file has no local copy. */
  predicate RowOk(m: Mount, w: World, n: string) {
    n in w.rows ==>
      && w.rows[n].source == SourceForState(w.rows[n].state)
      && (w.rows[n].state == LocalFinalized && n in w.local ==>
            w.rows[n].sha == Some(m.sha(w.local[n])) && w.rows[n].size == |w.local[n]|)
      && (Archived(w, n) ==> n !in w.local)
  }

  /** What holds for every open handle. A file open for writing is active and present; a handle that was opened on an
      archived file still belongs to one. */
  predicate HandleOk(w: World, h: Handle) {
    match h
    case Writer(n) => n in w.rows && w.rows[n].state == Active && n in w.local
    case Reader(n, state, _) => !IsLocal(state) ==> Archived(w, n)
    case NullWriter(_) => true
  }

  ghost predicate RowsOk(m: Mount, w: World) { forall n :: RowOk(m, w, n) }

  ghost predicate HandlesOk(w: World) { forall id :: id in w.handles ==> HandleOk(w, w.handles[id]) }

  ghost predicate Inv(m: Mount, w: World) { CountsExact(w) && RowsOk(m, w) && HandlesOk(w) }

  /** What one step may do to one name: its row stays and its state stutters or follows one edge of the state machine,
      a new row is active, only a finalized file may disappear, and one that stays finalized keeps size and hash and,
      unless it disappears, its bytes. */
  predicate NameStep(w: World, w': World, n: string) {
    && (n in w.rows ==> n in w'.rows && Allowed(w.rows[n].state, w'.rows[n].state))
    && (n in w'.rows && n !in w.rows ==> w'.rows[n].state == Active)
    && (n in w.local && n !in w'.local ==> n in w.rows && w.rows[n].state == LocalFinalized)
    && (n in w'.rows && w'.rows[n].state == LocalFinalized && n !in w'.local ==>
        n in w.rows && w.rows[n].state == LocalFinalized)
    && (n in w.rows && n in w'.rows && w.rows[n].state == LocalFinalized == w'.rows[n].state ==>
          && (n in w'.local ==> n in w.local && w'.local[n] == w.local[n])
          && w'.rows[n].sha == w.rows[n].sha && w'.rows[n].size == w.rows[n].size)
  }

  ghost predicate StepAllowed(w: World, w': World) { forall n :: NameStep(w, w', n) }

  ghost predicate Good(m: Mount, w: World, w': World) { Inv(m, w') && StepAllowed(w, w') }

  predicate SameName(w: World, w': World, n: string) {
    && (n in w.rows <==> n in w'.rows) && (n in w.rows ==> w'.rows[n] == w.rows[n])
    && (n in w.local <==> n in w'.local) && (n in w.local ==> w'.local[n] == w.local[n])
  }

  predicate SameHandle(w: World, w': World, i: int) {
    i in w'.handles ==> i in w.handles && w'.handles[i] == w.handles[i]
  }

  /** A name keeps what its other handles rely on: archived files stay archived, files being written stay writable. */
  predicate KeepsPromises(w: World, w': World, n: string) {
    && (Archived(w, n) ==> Archived(w', n))
    && (n in w.rows && w.rows[n].state == Active && n in w.local ==>
          n in w'.rows && w'.rows[n].state == Active && n in w'.local)
  }

  /** Most steps touch one name and one handle; this is what they have to show. */
  lemma OneNameStep(m: Mount, w: World, w': World, name: string, id: int)
    requires Inv(m, w) && CountsExact(w')
    requires forall n :: n != name ==> SameName(w, w', n)
    requires forall i :: i != id ==> SameHandle(w, w', i)
    requires RowOk(m, w', name) && NameStep(w, w', name)
    requires id in w'.handles ==> HandleOk(w', w'.handles[id])
    requires KeepsPromises(w, w', name)
             || forall i :: i in w'.handles ==>
                  w'.handles[i] != Writer(name) && (Archived(w, name) ==> Archived(w', name))
    ensures Good(m, w, w')
  {
    hide CountsExact;
    forall n
      ensures RowOk(m, w', n) && NameStep(w, w', n)
    {
      if n != name {
        assert SameName(w, w', n);
        assert RowOk(m, w, n);
      }
    }
    forall i | i in w'.handles
      ensures HandleOk(w', w'.handles[i])
    {
      if i != id {
        assert SameHandle(w, w', i);
        assert HandleOk(w, w.handles[i]);
        var n := w.handles[i].name;
        if n != name {
          assert SameName(w, w', n);
        }
      }
    }
  }

  /** A step that changes neither rows, local files nor handles. */
  lemma NothingChanged(m: Mount, w: World, w': World)
    requires Inv(m, w) && w'.rows == w.rows && w'.local == w.local && w'.handles == w.handles && w'.writers == w.writers
    ensures Good(m, w, w')
  {
    hide CountsExact;
    SameCounts(w, w');
    forall n
      ensures RowOk(m, w', n) && NameStep(w, w', n)
    {
      assert RowOk(m, w, n);
    }
    forall i | i in w'.handles
      ensures HandleOk(w', w'.handles[i])
    {
      assert HandleOk(w, w.handles[i]);
    }
  }

  // Opening and creating

  lemma OpenedWriterAt(counts: Counts, handles: Handles, id: int, name: string, n: string)
    requires CountOk(counts, handles, n) && id !in handles
    ensures CountOk(CountOpened(counts, name), handles[id := Writer(name)], n)
  {
    var handles' := handles[id := Writer(name)];
    if n == name {
      assert WriterIds(handles', n) == WriterIds(handles, n) + {id};
    } else {
      assert WriterIds(handles', n) == WriterIds(handles, n);
    }
  }

  lemma OtherHandleAt(counts: Counts, handles: Handles, id: int, h: Handle, n: string)
    requires CountOk(counts, handles, n) && (id in handles ==> !handles[id].Writer?) && !h.Writer?
    ensures CountOk(counts, handles[id := h], n)
  {
    assert WriterIds(handles[id := h], n) == WriterIds(handles, n);
  }

  lemma ReleasedWriterAt(counts: Counts, handles: Handles, id: int, name: string, n: string)
    requires CountOk(counts, handles, n) && id in handles && handles[id] == Writer(name)
    ensures CountOk(CountClosed(counts, name), handles - {id}, n)
  {
    var handles' := handles - {id};
    if n == name {
      assert id in WriterIds(handles, n) && WriterIds(handles', n) == WriterIds(handles, n) - {id};
    } else {
      assert WriterIds(handles', n) == WriterIds(handles, n);
    }
  }

  lemma ReleasedOtherAt(counts: Counts, handles: Handles, id: int, n: string)
    requires CountOk(counts, handles, n) && id in handles && !handles[id].Writer?
    ensures CountOk(counts, handles - {id}, n)
  {
    assert WriterIds(handles - {id}, n) == WriterIds(handles, n);
  }

  lemma SameCounts(w: World, w': World)
    requires CountsExact(w) && w'.handles == w.handles && w'.writers == w.writers
    ensures CountsExact(w')
  {
    hide CountOk;
    forall n
      ensures CountOk(w'.writers, w'.handles, n)
    {
      assert CountOk(w.writers, w.handles, n);
    }
  }

  lemma OpenedWriter(w: World, w': World, id: int, name: string)
    requires CountsExact(w) && id !in w.handles
    requires w'.handles == w.handles[id := Writer(name)] && w'.writers == CountOpened(w.writers, name)
    ensures CountsExact(w')
  {
    hide CountOk, CountOpened;
    forall n
      ensures CountOk(w'.writers, w'.handles, n)
    {
      assert CountOk(w.writers, w.handles, n);
      OpenedWriterAt(w.writers, w.handles, id, name, n);
    }
  }

  lemma OtherHandle(w: World, w': World, id: int, h: Handle)
    requires CountsExact(w) && (id in w.handles ==> !w.handles[id].Writer?) && !h.Writer?
    requires w'.handles == w.handles[id := h] && w'.writers == w.writers
    ensures CountsExact(w')
  {
    hide CountOk;
    forall n
      ensures CountOk(w'.writers, w'.handles, n)
    {
      assert CountOk(w.writers, w.handles, n);
      OtherHandleAt(w.writers, w.handles, id, h, n);
    }
  }

  lemma ReleasedWriter(w: World, w': World, id: int, name: string)
    requires CountsExact(w) && id in w.handles && w.handles[id] == Writer(name)
    requires w'.handles == w.handles - {id} && w'.writers == CountClosed(w.writers, name)
    ensures CountsExact(w')
  {
    hide CountOk, CountClosed;
    forall n
      ensures CountOk(w'.writers, w'.handles, n)
    {
      assert CountOk(w.writers, w.handles, n);
      ReleasedWriterAt(w.writers, w.handles, id, name, n);
    }
  }

  lemma ReleasedOther(w: World, w': World, id: int)
    requires CountsExact(w) && id in w.handles && !w.handles[id].Writer?
    requires w'.handles == w.handles - {id} && w'.writers == w.writers
    ensures CountsExact(w')
  {
    hide CountOk;
    forall n
      ensures CountOk(w'.writers, w'.handles, n)
    {
      assert CountOk(w.writers, w.handles, n);
      ReleasedOtherAt(w.writers, w.handles, id, n);
    }
  }

  /** Handing out a handle that cannot write changes no file. */
  lemma AddedHandle(m: Mount, w: World, id: int, h: Handle)
    requires Inv(m, w) && id !in w.handles && !h.Writer? && HandleOk(w, h)
    ensures Good(m, w, AddHandle(w, id, h))
  {
    hide CountsExact;
    var w' := AddHandle(w, id, h);
    OtherHandle(w, w', id, h);
    assert RowOk(m, w, h.name);
    OneNameStep(m, w, w', h.name, id);
  }

  /** Handing out a write handle to a name that is, or becomes, active. */
  lemma AddedWriter(m: Mount, w: World, w': World, id: int, name: string)
    requires Inv(m, w) && id !in w.handles && (name in w.rows ==> w.rows[name].state == Active)
    requires w'.handles == w.handles[id := Writer(name)] && w'.writers == CountOpened(w.writers, name)
    requires forall n :: n != name ==> SameName(w, w', n)
    requires name in w'.rows && w'.rows[name].state == Active && w'.rows[name].source == Local && name in w'.local
    ensures Good(m, w, w')
  {
    hide CountsExact;
    OpenedWriter(w, w', id, name);
    OneNameStep(m, w, w', name, id);
  }

  lemma OpenKeeps(m: Mount, w: World, id: int, name: string, write: bool, lookupFails: bool, fails: bool)
    requires Inv(m, w) && id !in w.handles
    ensures Good(m, w, Open(w, id, name, write, lookupFails, fails))
  {
    hide CountsExact, Good, RowsOk, HandlesOk;
    var w' := Open(w, id, name, write, lookupFails, fails);
    if name !in w.rows || lookupFails || (write && w.rows[name].state == Active && fails) {
      NothingChanged(m, w, w');
    } else {
      var state := w.rows[name].state;
      if !write {
        AddedHandle(m, w, id, Reader(name, state, FP.FRESH));
      } else if state != Active {
        AddedHandle(m, w, id, NullWriter(name));
      } else {
        RowAt(m, w, name);
        AddedWriter(m, w, w', id, name);
      }
    }
  }

  lemma RowAt(m: Mount, w: World, n: string)
    requires RowsOk(m, w)
    ensures RowOk(m, w, n)
  {
  }

  lemma HandleAt(w: World, id: int)
    requires HandlesOk(w) && id in w.handles
    ensures HandleOk(w, w.handles[id])
  {
  }

  /** Create takes a name that has a row for a new one. */
  predicate Misled(w: World, op: Op) {
    op.OpCreate? && op.lookupFails && op.name in w.rows && w.rows[op.name].state != Active && !op.openFails
  }

  /** A misled Create does no harm only where it stores no row and leaves the bytes of a finalized file as they are. */
  predicate Safe(w: World, op: Op) {
    Misled(w, op) ==>
      && op.upsertFails && w.rows[op.name].state == LocalFinalized && op.name in w.local
      && (op.truncate ==> w.local[op.name] == [])
  }

  /** Create for a name that is new or active. */
  lemma CreateFileKeeps(m: Mount, w: World, id: int, name: string, truncate: bool, now: int,
                        lookupFails: bool, openFails: bool, upsertFails: bool)
    requires Inv(m, w) && id !in w.handles && (name in w.rows ==> w.rows[name].state == Active)
    ensures Good(m, w, Create(w, id, name, truncate, now, lookupFails, openFails, upsertFails))
  {
    hide CountsExact, Good, RowsOk, HandlesOk, CountOpened;
    var w' := Create(w, id, name, truncate, now, lookupFails, openFails, upsertFails);
    if openFails {
      NothingChanged(m, w, w');
    } else if upsertFails {
      LocalFileAppears(m, w, w', id, name);
    } else {
      AddedWriter(m, w, w', id, name);
    }
  }

  lemma CreateKeeps(m: Mount, w: World, op: Op)
    requires Inv(m, w) && op.OpCreate? && op.id !in w.handles && Safe(w, op)
    ensures Good(m, w, Create(w, op.id, op.name, op.truncate, op.now, op.lookupFails, op.openFails, op.upsertFails))
  {
    if op.name in w.rows && w.rows[op.name].state != Active {
      hide Inv, Good, CountOpened;
      if !op.lookupFails {
        AddedHandle(m, w, op.id, NullWriter(op.name));
      } else {
        SafeCreateDoesNothing(w, op);
        NothingChanged(m, w, w);
      }
    } else {
      hide Inv, Good, Create;
      CreateFileKeeps(m, w, op.id, op.name, op.truncate, op.now, op.lookupFails, op.openFails, op.upsertFails);
    }
  }

  lemma SafeCreateDoesNothing(w: World, op: Op)
    requires op.OpCreate? && op.lookupFails && op.name in w.rows && w.rows[op.name].state != Active && Safe(w, op)
    ensures Create(w, op.id, op.name, op.truncate, op.now, op.lookupFails, op.openFails, op.upsertFails) == w
  {
    if !op.openFails {
      assert w.local[op.name := w.local[op.name]] == w.local;
    }
  }

  /** Anywhere else it breaks the file system: the row leaves the state machine, or the file its row. */
  lemma UnsafeCreateBreaks(m: Mount, w: World, op: Op)
    requires Inv(m, w) && op.OpCreate? && op.id !in w.handles && !Safe(w, op)
    ensures !Good(m, w, Create(w, op.id, op.name, op.truncate, op.now, op.lookupFails, op.openFails, op.upsertFails))
  {
    hide CountsExact, HandlesOk, CountOpened;
    var name := op.name;
    var w' := Create(w, op.id, name, op.truncate, op.now, op.lookupFails, op.openFails, op.upsertFails);
    RowAt(m, w, name);
    AllowedRaisesRank(w.rows[name].state, Active);
    assert !RowOk(m, w', name) || !NameStep(w, w', name);
  }

  /** A local file created or truncated for a name that is not archived or finalized. */
  lemma LocalFileAppears(m: Mount, w: World, w': World, id: int, name: string)
    requires Inv(m, w) && id !in w.handles && (name in w.rows ==> w.rows[name].state == Active)
    requires w'.rows == w.rows && w'.handles == w.handles && w'.writers == w.writers
    requires name in w'.local && w'.local == w.local[name := w'.local[name]]
    ensures Good(m, w, w')
  {
    hide CountsExact, Good, RowsOk, HandlesOk;
    RowAt(m, w, name);
    SameCounts(w, w');
    OneNameStep(m, w, w', name, id);
  }

  // Writing

  lemma WriteKeeps(m: Mount, w: World, id: int, off: nat, data: Buf, lookupFails: bool, written: nat)
    requires Inv(m, w) && written <= |data|
    ensures Good(m, w, Write(w, id, off, data, lookupFails, written))
  {
    hide CountsExact, Good, RowsOk, HandlesOk, WriteAt;
    var w' := Write(w, id, off, data, lookupFails, written);
    if w' == w {
      NothingChanged(m, w, w');
    } else {
      SameCounts(w, w');
      HandleAt(w, id);
      RowAt(m, w, w.handles[id].name);
      OneNameStep(m, w, w', w.handles[id].name, id);
    }
  }

  lemma AllocateKeeps(m: Mount, w: World, id: int, off: nat, size: nat, supported: bool)
    requires Inv(m, w)
    ensures Good(m, w, Allocate(w, id, off, size, supported))
  {
    hide CountsExact, Good, RowsOk, HandlesOk, Zeros;
    var w' := Allocate(w, id, off, size, supported);
    if w' == w {
      NothingChanged(m, w, w');
    } else {
      SameCounts(w, w');
      HandleAt(w, id);
      RowAt(m, w, w.handles[id].name);
      OneNameStep(m, w, w', w.handles[id].name, id);
    }
  }

  /** Once the count of a name is zero, no handle can write to it. */
  lemma NoWritersLeft(w: World, name: string)
    requires CountsExact(w) && CountOf(w.writers, name) == 0
    ensures forall id :: id in w.handles ==> w.handles[id] != Writer(name)
  {
    assert CountOk(w.writers, w.handles, name);
    assert WriterIds(w.handles, name) == {};
    assert forall id :: id in w.handles && w.handles[id] == Writer(name) ==> id in WriterIds(w.handles, name);
  }

  lemma ReleaseKeeps(m: Mount, w: World, id: int, now: int, fails: bool)
    requires Inv(m, w)
    ensures Good(m, w, Release(m, w, id, now, fails))
  {
    hide Inv, Good, IsBlockOrUndo, ShouldFinalize, CountClosed, Finalized;
    var w' := Release(m, w, id, now, fails);
    if id !in w.handles {
      NothingChanged(m, w, w');
    } else if w.handles[id].Writer? {
      ReleaseWriterKeeps(m, w, w', id, now);
    } else {
      ReleaseOtherKeeps(m, w, id);
    }
  }

  /** Closing any other handle changes no file. */
  lemma ReleaseOtherKeeps(m: Mount, w: World, id: int)
    requires Inv(m, w) && id in w.handles && !w.handles[id].Writer?
    ensures Good(m, w, w.(handles := w.handles - {id}))
  {
    hide CountsExact, Good, RowsOk, HandlesOk;
    var w' := w.(handles := w.handles - {id});
    ReleasedOther(w, w', id);
    RowAt(m, w, w.handles[id].name);
    OneNameStep(m, w, w', w.handles[id].name, id);
  }

  /** Closing a write handle finalizes the file only when it was the last one. */
  lemma ReleaseWriterKeeps(m: Mount, w: World, w': World, id: int, now: int)
    requires Inv(m, w) && id in w.handles && w.handles[id].Writer?
    requires var name := w.handles[id].name;
             && w'.handles == w.handles - {id} && w'.writers == CountClosed(w.writers, name) && w'.local == w.local
             && (w'.rows == w.rows
                 || (CountOf(w'.writers, name) == 0 && name in w.rows && name in w.local
                     && w'.rows == w.rows[name := Finalized(m, w.rows[name], w.local[name], now)]))
    ensures Good(m, w, w')
  {
    hide CountsExact, Good, RowsOk, HandlesOk, CountClosed;
    var name := w.handles[id].name;
    HandleAt(w, id);
    RowAt(m, w, name);
    ReleasedWriter(w, w', id, name);
    if CountOf(w'.writers, name) == 0 {
      NoWritersLeft(w', name);
    }
    assert Transition(Active, Finalize) == Some(LocalFinalized);
    OneNameStep(m, w, w', name, id);
  }

  // Reading

  /** A read may touch its own row, and turn it into a cached one. */
  predicate RowRead(r: Row, r': Row) {
    && (|| (r'.state == r.state && r'.source == r.source && r'.sha == r.sha && r'.size == r.size)
        || (r'.state == Cached && r'.source == Server))
    && (r'.heightLast == r.heightLast || r'.heightLast == 0)
  }

  /** What a read through a FileHandle may change. */
  predicate ReadFrame(w: World, w': World, id: int)
    requires id in w.handles && w.handles[id].Reader?
  {
    var h := w.handles[id];
    && w'.local == w.local && w'.writers == w.writers
    && id in w'.handles && w'.handles[id].Reader? && w'.handles[id].name == h.name
    && (w'.handles[id].state == h.state || (h.state == Remote && w'.handles[id].state == Cached))
    && w'.handles == w.handles[id := w'.handles[id]]
    && (if h.name in w.rows
        then h.name in w'.rows && w'.rows == w.rows[h.name := w'.rows[h.name]]
            && RowRead(w.rows[h.name], w'.rows[h.name])
        else w'.rows == w.rows)
  }

  lemma FetchAndCacheFrame(m: Mount, w: World, name: string, env: ReadEnv)
    ensures var w' := FetchAndCache(m, w, name, env).1;
            && w'.local == w.local && w'.writers == w.writers && w'.handles == w.handles
            && (if name in w.rows
                then name in w'.rows && w'.rows == w.rows[name := w'.rows[name]] && RowRead(w.rows[name], w'.rows[name])
                else w'.rows == w.rows)
  {
    hide ExpectedHash;
    var w' := FetchAndCache(m, w, name, env).1;
    if name in w.rows && w'.rows == w.rows {
      assert w.rows[name := w.rows[name]] == w.rows;
    }
  }

  lemma ObservedFrame(m: Mount, w: World, id: int, off: nat, n: nat, env: ReadEnv)
    requires id in w.handles && w.handles[id].Reader?
    ensures ReadFrame(w, Observed(m, w, id, off, n, env), id)
  {
    hide FP.Observe;
  }

  lemma FileModeFrame(m: Mount, w: World, id: int, off: nat, len: nat, env: ReadEnv)
    requires id in w.handles && w.handles[id].Reader? && w.handles[id].state == Remote
    ensures ReadFrame(w, FileMode(m, w, id, off, len, env).1, id)
  {
    hide FetchAndCache, FP.AfterSuccess, FP.AfterFailure, Pread, ServerRange, FP.Observe;
    FetchAndCacheFrame(m, w, w.handles[id].name, env);
  }

  lemma RangeModeFrame(m: Mount, w: World, id: int, off: nat, len: nat, env: ReadEnv)
    requires id in w.handles && w.handles[id].Reader? && w.handles[id].state == Remote
    ensures ReadFrame(w, RangeMode(m, w, id, off, len, env).1, id)
  {
    hide FileMode, Observed, Clip, FP.Promotes, FP.AfterSuccess;
    var data := ServerRange(m, w.handles[id].name, off, len, env.firstRangeFails);
    if data.Some? {
      ObservedFrame(m, w, id, off, |data.value|, env);
    } else {
      FileModeFrame(m, w, id, off, len, env);
    }
  }

  /** Only rows, local files, handles and counts matter to the frame. */
  lemma FrameFrom(w: World, w1: World, w': World, id: int)
    requires w1.rows == w.rows && w1.local == w.local && w1.handles == w.handles && w1.writers == w.writers
    requires id in w.handles && w.handles[id].Reader? && ReadFrame(w1, w', id)
    ensures ReadFrame(w, w', id)
  {
  }

  lemma ReadRemoteFrame(m: Mount, w: World, id: int, off: nat, dest: Buf, env: ReadEnv)
    requires id in w.handles && w.handles[id].Reader? && w.handles[id].state == Remote
    ensures ReadFrame(w, ReadRemote(m, w, id, off, dest, env).1, id)
  {
    hide ReadFrame, FileMode, RangeMode, BlockmapMode, Observed, FP.Answer, FP.AfterQuery, FP.Promotes,
        FP.AfterSuccess, HasPrefix;
    var h := w.handles[id];
    var w1 := w.(hints := FP.AfterQuery(m.policy, w.hints, h.name, env.now));
    var w' := ReadRemote(m, w, id, off, dest, env).1;
    if FP.Answer(m.policy, w.hints, h.name, env.now) == FP.File {
      FileModeFrame(m, w1, id, off, |dest|, env);
      FrameFrom(w, w1, w', id);
    } else if m.blockCache && HasPrefix(h.name, "blk") {
      ReadByBlockmapFrame(m, w1, id, off, dest, env);
      FrameFrom(w, w1, w', id);
    } else {
      RangeModeFrame(m, w1, id, off, |dest|, env);
      FrameFrom(w, w1, w', id);
    }
  }

  /** The blockmap branch of a remote read, with the range request to fall back on. */
  function ReadByBlockmap(m: Mount, w: World, id: int, off: nat, dest: Buf, env: ReadEnv): World
    requires id in w.handles && w.handles[id].Reader?
  {
    var (reply, w2) := BlockmapMode(m, w, w.handles[id].name, off, dest, env);
    if reply == BlockRead.Fail(BlockRead.ENODATA) then RangeMode(m, w2, id, off, |dest|, env).1
    else if reply.Data? then MaybePromote(m, Observed(m, w2, id, off, |dest|, env), id, env.now)
    else w2
  }

  lemma ReadByBlockmapFrame(m: Mount, w: World, id: int, off: nat, dest: Buf, env: ReadEnv)
    requires id in w.handles && w.handles[id].Reader? && w.handles[id].state == Remote
    ensures ReadFrame(w, ReadByBlockmap(m, w, id, off, dest, env), id)
  {
    hide RangeMode, BlockmapMode, Observed, FP.Promotes, FP.AfterSuccess;
    var w2 := BlockmapMode(m, w, w.handles[id].name, off, dest, env).1;
    RangeModeFrame(m, w2, id, off, |dest|, env);
    ObservedFrame(m, w2, id, off, |dest|, env);
  }

  lemma ReadReaderFrame(m: Mount, w: World, id: int, off: nat, dest: Buf, env: ReadEnv)
    requires id in w.handles && w.handles[id].Reader?
    ensures ReadFrame(w, ReadReader(m, w, id, off, dest, env).1, id)
  {
    hide ReadRemote, Pread;
    if w.handles[id].state == Remote {
      ReadRemoteFrame(m, w, id, off, dest, env);
    }
  }

  /** A local handle never reaches the download path, so its own row keeps its state too. */
  lemma LocalReadKeepsRow(m: Mount, w: World, id: int, off: nat, dest: Buf, env: ReadEnv)
    requires id in w.handles && w.handles[id].Reader? && IsLocal(w.handles[id].state)
    ensures ReadReader(m, w, id, off, dest, env).1 == w
  {
    hide ReadRemote;
  }

  lemma FrameKeeps(m: Mount, w: World, w': World, id: int)
    requires Inv(m, w) && id in w.handles && w.handles[id].Reader? && !IsLocal(w.handles[id].state)
    requires ReadFrame(w, w', id)
    ensures Good(m, w, w')
  {
    hide CountsExact, Good, RowsOk, HandlesOk;
    var name := w.handles[id].name;
    HandleAt(w, id);
    RowAt(m, w, name);
    OtherHandle(w, w', id, w'.handles[id]);
    assert Transition(Remote, CacheFetch) == Some(Cached);
    OneNameStep(m, w, w', name, id);
  }

  lemma ReadKeeps(m: Mount, w: World, id: int, off: nat, dest: Buf, env: ReadEnv)
    requires Inv(m, w)
    ensures Good(m, w, Read(m, w, id, off, dest, env).1)
  {
    hide Good, Inv, ReadReader, ReadNull, ReadWriter;
    var w' := Read(m, w, id, off, dest, env).1;
    if id in w.handles && w.handles[id].Reader? && !IsLocal(w.handles[id].state) {
      ReadReaderFrame(m, w, id, off, dest, env);
      FrameKeeps(m, w, w', id);
    } else {
      if id in w.handles && w.handles[id].Reader? {
        LocalReadKeepsRow(m, w, id, off, dest, env);
      }
      NothingChanged(m, w, w');
    }
  }

  // The daemon

  function EvictedRow(row: Row, n: string, victims: seq<string>, removeFails: set<string>,
        updateFails: set<string>): Row {
    if n in victims && n !in removeFails && n !in updateFails then row.(state := Remote) else row
  }

  lemma RemoveCachedRows(w: World, name: string, removeFails: set<string>, updateFails: set<string>)
    requires name in w.rows
    ensures var w' := RemoveCached(w, name, removeFails, updateFails);
            && w' == w.(rows := w'.rows, cache := w'.cache)
            && w'.rows.Keys == w.rows.Keys
            && forall n :: n in w.rows ==> w'.rows[n] == EvictedRow(w.rows[n], n, [name], removeFails, updateFails)
  {
    var rows' := RemoveCached(w, name, removeFails, updateFails).rows;
    var remote := w.rows[name := w.rows[name].(state := Remote)];
    assert rows' == if name in removeFails || name in updateFails then w.rows else remote;
  }

  lemma {:induction false} EvictAllRows(w: World, victims: seq<string>, removeFails: set<string>,
        updateFails: set<string>)
    requires forall i :: 0 <= i < |victims| ==> victims[i] in w.rows
    ensures var w' := EvictAll(w, victims, removeFails, updateFails);
            && w' == w.(rows := w'.rows, cache := w'.cache)
            && w'.rows.Keys == w.rows.Keys
            && forall n :: n in w.rows ==> w'.rows[n] == EvictedRow(w.rows[n], n, victims, removeFails, updateFails)
    decreases |victims|
  {
    hide RemoveCached;
    if victims != [] {
      RemoveCachedRows(w, victims[0], removeFails, updateFails);
      var w1 := RemoveCached(w, victims[0], removeFails, updateFails);
      EvictAllRows(w1, victims[1..], removeFails, updateFails);
      assert victims == [victims[0]] + victims[1..];
    }
  }

  /** A step that only moves rows along the state machine without touching handles. */
  lemma RowsStep(m: Mount, w: World, w': World)
    requires Inv(m, w) && w'.handles == w.handles && w'.writers == w.writers
    requires forall n :: RowOk(m, w', n) && NameStep(w, w', n) && KeepsPromises(w, w', n)
    ensures Good(m, w, w')
  {
    hide CountsExact;
    SameCounts(w, w');
    forall i | i in w'.handles
      ensures HandleOk(w', w'.handles[i])
    {
      assert HandleOk(w, w.handles[i]);
      assert KeepsPromises(w, w', w.handles[i].name);
    }
  }

  lemma EvictKeeps(m: Mount, w: World, limit: nat, victims: seq<string>, removeFails: set<string>,
        updateFails: set<string>)
    requires Inv(m, w) && LruPrefix(w.rows, victims, limit)
    ensures Good(m, w, EvictAll(w, victims, removeFails, updateFails))
  {
    hide CountsExact, Good, RowsOk, HandlesOk, EvictAll;
    var w' := EvictAll(w, victims, removeFails, updateFails);
    EvictAllRows(w, victims, removeFails, updateFails);
    forall n
      ensures RowOk(m, w', n) && NameStep(w, w', n) && KeepsPromises(w, w', n)
    {
      RowAt(m, w, n);
      assert Transition(Cached, CacheEvict) == Some(Remote);
    }
    RowsStep(m, w, w');
  }

  lemma CompactKeeps(m: Mount, w: World, height: int, removeFails: set<string>, updateFails: set<string>)
    requires Inv(m, w)
    ensures Good(m, w, Compacted(w, height, removeFails, updateFails))
  {
    hide CountsExact, Good, RowsOk, HandlesOk;
    var w' := Compacted(w, height, removeFails, updateFails);
    forall n
      ensures RowOk(m, w', n) && NameStep(w, w', n) && KeepsPromises(w, w', n)
    {
      RowAt(m, w, n);
      assert Transition(LocalFinalized, Compact) == Some(Remote);
    }
    RowsStep(m, w, w');
  }

  // Single steps

  /** Every step keeps the invariant and moves each file only along the state machine, unless it is a Create that a
      failed lookup misleads into harm; and such a Create never does. */
  lemma NextKeepsIff(m: Mount, w: World, op: Op)
    requires Inv(m, w) && Enabled(w, op)
    ensures Good(m, w, Next(m, w, op)) <==> Safe(w, op)
  {
    hide Inv, Good, Open, Create, Write, Allocate, Release, Read, EvictAll, Compacted, LruPrefix;
    match op
    case OpOpen(id, name, write, lookupFails, fails) => OpenKeeps(m, w, id, name, write, lookupFails, fails);
    case OpCreate(_, _, _, _, _, _, _) =>
      if Safe(w, op) {
        CreateKeeps(m, w, op);
      } else {
        UnsafeCreateBreaks(m, w, op);
      }
    case OpWrite(id, off, data, lookupFails, written) => WriteKeeps(m, w, id, off, data, lookupFails, written);
    case OpAllocate(id, off, size, supported) => AllocateKeeps(m, w, id, off, size, supported);
    case OpRelease(id, now, fails) => ReleaseKeeps(m, w, id, now, fails);
    case OpRead(id, off, dest, env) => ReadKeeps(m, w, id, off, dest, env);
    case OpEvict(limit, victims, removeFails, updateFails) =>
      EvictKeeps(m, w, limit, victims, removeFails, updateFails);
    case OpCompact(height, removeFails, updateFails) => CompactKeeps(m, w, height, removeFails, updateFails);
  }

  // Lost files

  /** Every finalized file is there. */
  ghost predicate Present(w: World) {
    forall n :: n in w.rows && w.rows[n].state == LocalFinalized ==> n in w.local
  }

  /** A compaction deletes a file whose row it then fails to store. */
  predicate Loses(w: World, op: Op) {
    op.OpCompact? &&
    exists n :: n in w.rows && Covered(w.rows[n], op.height) && !Blocked(w.local, op.removeFails, n)
        && n in op.updateFails
  }

  /** No step but a compaction deletes a local file. */
  lemma LocalFilesStay(m: Mount, w: World, op: Op)
    requires Enabled(w, op) && !op.OpCompact?
    ensures w.local.Keys <= Next(m, w, op).local.Keys
  {
    hide LruPrefix, Open, Create, Write, Allocate, Release, Read, EvictAll;
    match op
    case OpOpen(id, name, write, lookupFails, fails) => OpenLocal(w, id, name, write, lookupFails, fails);
    case OpCreate(id, name, truncate, now, lookupFails, openFails, upsertFails) =>
      CreateLocal(w, id, name, truncate, now, lookupFails, openFails, upsertFails);
    case OpWrite(id, off, data, lookupFails, written) => WriteLocal(w, id, off, data, lookupFails, written);
    case OpAllocate(id, off, size, supported) => AllocateLocal(w, id, off, size, supported);
    case OpRelease(id, now, fails) => ReleaseLocal(m, w, id, now, fails);
    case OpRead(id, off, dest, env) =>
      if id in w.handles && w.handles[id].Reader? {
        ReadReaderFrame(m, w, id, off, dest, env);
      }
      ReadIs(m, w, id, off, dest, env);
    case OpEvict(limit, victims, removeFails, updateFails) =>
      VictimsHaveRows(w, victims, limit);
      EvictAllRows(w, victims, removeFails, updateFails);
  }

  lemma OpenLocal(w: World, id: int, name: string, write: bool, lookupFails: bool, fails: bool)
    ensures w.local.Keys <= Open(w, id, name, write, lookupFails, fails).local.Keys
  {
  }

  lemma CreateLocal(w: World, id: int, name: string, truncate: bool, now: int,
                    lookupFails: bool, openFails: bool, upsertFails: bool)
    ensures w.local.Keys <= Create(w, id, name, truncate, now, lookupFails, openFails, upsertFails).local.Keys
  {
  }

  lemma WriteLocal(w: World, id: int, off: nat, data: Buf, lookupFails: bool, written: nat)
    requires written <= |data|
    ensures Write(w, id, off, data, lookupFails, written).local.Keys == w.local.Keys
  {
    hide WriteAt;
  }

  lemma AllocateLocal(w: World, id: int, off: nat, size: nat, supported: bool)
    ensures Allocate(w, id, off, size, supported).local.Keys == w.local.Keys
  {
    hide Zeros;
  }

  lemma ReleaseLocal(m: Mount, w: World, id: int, now: int, fails: bool)
    ensures Release(m, w, id, now, fails).local == w.local
  {
    hide IsBlockOrUndo, ShouldFinalize, CountClosed, Finalized;
  }

  lemma ReadIs(m: Mount, w: World, id: int, off: nat, dest: Buf, env: ReadEnv)
    ensures Read(m, w, id, off, dest, env).1 ==
            if id in w.handles && w.handles[id].Reader? then ReadReader(m, w, id, off, dest, env).1 else w
  {
    hide ReadReader, ReadNull, ReadWriter;
  }

  lemma VictimsHaveRows(w: World, victims: seq<string>, limit: nat)
    requires LruPrefix(w.rows, victims, limit)
    ensures forall i :: 0 <= i < |victims| ==> victims[i] in w.rows
  {
  }

  /** Finalized files stay where they are through every step but a compaction that fails to store a row. */
  lemma PresentKeptIff(m: Mount, w: World, op: Op)
    requires Inv(m, w) && Present(w) && Enabled(w, op) && Safe(w, op)
    ensures Present(Next(m, w, op)) <==> !Loses(w, op)
  {
    hide Inv;
    if op.OpCompact? {
      CompactPresentIff(w, op.height, op.removeFails, op.updateFails);
    } else {
      hide Next, Enabled, RowsOk, HandlesOk, CountsExact;
      LocalFilesStay(m, w, op);
      NextKeepsIff(m, w, op);
      var w' := Next(m, w, op);
      forall n | n in w'.rows && w'.rows[n].state == LocalFinalized
        ensures n in w'.local
      {
        assert NameStep(w, w', n);
      }
    }
  }

  lemma CompactPresentIff(w: World, height: int, removeFails: set<string>, updateFails: set<string>)
    requires Present(w)
    ensures Present(Compacted(w, height, removeFails, updateFails)) <==>
            !exists n :: n in w.rows && Covered(w.rows[n], height) && !Blocked(w.local, removeFails, n)
                && n in updateFails
  {
    var w' := Compacted(w, height, removeFails, updateFails);
    forall n | n in w.rows
      ensures w'.rows[n].state == LocalFinalized && n !in w'.local
              <==> Covered(w.rows[n], height) && !Blocked(w.local, removeFails, n) && n in updateFails
    {
    }
    hide Covered, Blocked, Compacted;
  }

  /** Another compaction at that height makes good for the rows that one failed to store: it ends where a compaction
      without such failures would have. */
  lemma CompactionHeals(w: World, height: int, removeFails: set<string>, updateFails: set<string>)
    ensures Compacted(Compacted(w, height, removeFails, updateFails), height, removeFails, {})
            == Compacted(w, height, removeFails, {})
  {
    hide Covered;
    var once, twice := Compacted(w, height, removeFails, updateFails), Compacted(w, height, removeFails, {});
    var healed := Compacted(once, height, removeFails, {});
    forall n
      ensures (n in healed.rows <==> n in twice.rows) && (n in healed.rows ==> healed.rows[n] == twice.rows[n])
      ensures n in healed.local <==> n in twice.local
    {
      if n in w.rows {
        HandedNotCovered(w.rows[n], height);
      }
    }
    assert healed.rows == twice.rows && healed.local == twice.local;
  }

  lemma HandedNotCovered(row: Row, height: int)
    ensures !Covered(row.(state := Remote, source := Server), height)
  {
  }

  // Runs

  /** A run: each world follows from the one before by an enabled step. */
  ghost predicate IsRun(m: Mount, worlds: seq<World>, ops: seq<Op>) {
    && |worlds| == |ops| + 1
    && forall i :: 0 <= i < |ops| ==> Enabled(worlds[i], ops[i]) && worlds[i + 1] == Next(m, worlds[i], ops[i])
  }

  /** No step is a Create that a failed lookup misleads into harm. */
  ghost predicate AllSafe(worlds: seq<World>, ops: seq<Op>) {
    forall i :: 0 <= i < |ops| && i < |worlds| ==> Safe(worlds[i], ops[i])
  }

  /** A freshly mounted file system: nothing open, nothing finalized, sources in order, archived files not local. */
  ghost predicate Initial(w: World) {
    && w.handles == map[] && w.writers == map[]
    && forall n :: n in w.rows ==>
         w.rows[n].source == SourceForState(w.rows[n].state) && w.rows[n].state != LocalFinalized
         && (!IsLocal(w.rows[n].state) ==> n !in w.local)
  }

  lemma InitialInv(m: Mount, w: World)
    requires Initial(w)
    ensures Inv(m, w)
  {
    forall n
      ensures CountOk(w.writers, w.handles, n)
    {
      assert WriterIds(w.handles, n) == {};
    }
  }

  lemma {:induction false} RunKeeps(m: Mount, worlds: seq<World>, ops: seq<Op>, i: nat)
    requires IsRun(m, worlds, ops) && AllSafe(worlds, ops) && Initial(worlds[0]) && i < |worlds|
    ensures Inv(m, worlds[i])
    ensures i + 1 < |worlds| ==> StepAllowed(worlds[i], worlds[i + 1])
  {
    hide Inv, StepAllowed, Next, Enabled, Initial, Safe;
    if i == 0 {
      InitialInv(m, worlds[0]);
    } else {
      RunKeeps(m, worlds, ops, i - 1);
      assert worlds[(i - 1) + 1] == Next(m, worlds[i - 1], ops[i - 1]);
      NextKeepsIff(m, worlds[i - 1], ops[i - 1]);
    }
    if i + 1 < |worlds| {
      assert worlds[i + 1] == Next(m, worlds[i], ops[i]);
      NextKeepsIff(m, worlds[i], ops[i]);
    }
  }

  /** Every step keeps the invariant and the state machine exactly in the runs where no Create is misled into harm. */
  lemma RunKeepsIff(m: Mount, worlds: seq<World>, ops: seq<Op>)
    requires IsRun(m, worlds, ops) && Initial(worlds[0])
    ensures (forall i :: 0 <= i < |ops| ==> Good(m, worlds[i], worlds[i + 1])) <==> AllSafe(worlds, ops)
  {
    hide Inv, StepAllowed, Next, Enabled, Initial, Safe;
    if AllSafe(worlds, ops) {
      forall i | 0 <= i < |ops|
        ensures Good(m, worlds[i], worlds[i + 1])
      {
        RunKeeps(m, worlds, ops, i);
        RunKeeps(m, worlds, ops, i + 1);
      }
    }
    if forall i :: 0 <= i < |ops| ==> Good(m, worlds[i], worlds[i + 1]) {
      InitialInv(m, worlds[0]);
      forall i | 0 <= i < |ops|
        ensures Safe(worlds[i], ops[i])
      {
        assert i > 0 ==> Good(m, worlds[i - 1], worlds[(i - 1) + 1]);
        assert worlds[i + 1] == Next(m, worlds[i], ops[i]);
        NextKeepsIff(m, worlds[i], ops[i]);
      }
    }
  }

  lemma {:induction false} StillPresent(m: Mount, worlds: seq<World>, ops: seq<Op>, i: nat)
    requires IsRun(m, worlds, ops) && AllSafe(worlds, ops) && Initial(worlds[0]) && i < |worlds|
    requires forall k :: 0 <= k < i ==> !Loses(worlds[k], ops[k])
    ensures Present(worlds[i])
  {
    hide Inv, StepAllowed, Next, Enabled, Safe, Loses;
    if i > 0 {
      StillPresent(m, worlds, ops, i - 1);
      RunKeeps(m, worlds, ops, i - 1);
      assert worlds[(i - 1) + 1] == Next(m, worlds[i - 1], ops[i - 1]);
      PresentKeptIff(m, worlds[i - 1], ops[i - 1]);
    }
  }

  /** In every run and at every moment the count of a name is its number of live write handles, and a finalized name has
      none. It is there unless a compaction failed to store a row, and then its row records the hash and size of its
      bytes. */
  lemma CountsAndFinalizedFiles(m: Mount, worlds: seq<World>, ops: seq<Op>, i: nat, n: string)
    requires IsRun(m, worlds, ops) && AllSafe(worlds, ops) && Initial(worlds[0]) && i < |worlds|
    ensures CountOf(worlds[i].writers, n) == |WriterIds(worlds[i].handles, n)|
    ensures n in worlds[i].rows && worlds[i].rows[n].state == LocalFinalized ==>
              && CountOf(worlds[i].writers, n) == 0
              && (n in worlds[i].local || exists k :: 0 <= k < i && Loses(worlds[k], ops[k]))
              && (n in worlds[i].local ==>
                    && worlds[i].rows[n].sha == Some(m.sha(worlds[i].local[n]))
                    && worlds[i].rows[n].size == |worlds[i].local[n]|)
    ensures n in worlds[i].rows ==> worlds[i].rows[n].source == SourceForState(worlds[i].rows[n].state)
  {
    assert |ops| == |worlds| - 1;
    hide IsRun, AllSafe, Initial, StepAllowed, Loses;
    var w := worlds[i];
    RunKeeps(m, worlds, ops, i);
    assert RowOk(m, w, n) && CountOk(w.writers, w.handles, n);
    if n in w.rows && w.rows[n].state == LocalFinalized {
      assert forall id :: id in w.handles ==> HandleOk(w, w.handles[id]);
      assert WriterIds(w.handles, n) == {};
      if forall k :: 0 <= k < i ==> !Loses(worlds[k], ops[k]) {
        StillPresent(m, worlds, ops, i);
      }
    }
  }

  /** Along every run each step is a stutter or an edge of the state machine for every name, so a file only ever moves
      towards the archive; once archived it never becomes active or finalized again. */
  lemma {:induction false} OnlyTowardsTheArchive(m: Mount, worlds: seq<World>, ops: seq<Op>, i: nat, j: nat, n: string)
    requires IsRun(m, worlds, ops) && AllSafe(worlds, ops) && Initial(worlds[0]) && i <= j < |worlds|
        && n in worlds[i].rows
    ensures n in worlds[j].rows && Rank(worlds[i].rows[n].state) <= Rank(worlds[j].rows[n].state)
    ensures j == i + 1 ==> Allowed(worlds[i].rows[n].state, worlds[j].rows[n].state)
    ensures !IsLocal(worlds[i].rows[n].state) ==> !IsLocal(worlds[j].rows[n].state)
    decreases j
  {
    hide IsRun, AllSafe, Initial, Inv, Allowed;
    if i < j {
      OnlyTowardsTheArchive(m, worlds, ops, i, j - 1, n);
      RunKeeps(m, worlds, ops, j - 1);
      assert NameStep(worlds[j - 1], worlds[j], n);
      AllowedRaisesRank(worlds[j - 1].rows[n].state, worlds[j].rows[n].state);
    }
  }

  /** As long as a file is finalized its hash and size do not change, and neither do its bytes while it is there; once
      it is lost it does not come back as something else. */
  lemma {:induction false} FinalizedFilesAreImmutable(m: Mount, worlds: seq<World>, ops: seq<Op>, i: nat, j: nat,
        n: string)
    requires IsRun(m, worlds, ops) && AllSafe(worlds, ops) && Initial(worlds[0]) && i <= j < |worlds|
    requires n in worlds[i].rows && worlds[i].rows[n].state == LocalFinalized
    requires n in worlds[j].rows && worlds[j].rows[n].state == LocalFinalized
    ensures n in worlds[j].local ==> n in worlds[i].local && worlds[j].local[n] == worlds[i].local[n]
    ensures worlds[j].rows[n].sha == worlds[i].rows[n].sha && worlds[j].rows[n].size == worlds[i].rows[n].size
    decreases j
  {
    hide IsRun, AllSafe, Initial, Inv, Allowed;
    if i < j {
      OnlyTowardsTheArchive(m, worlds, ops, i, j - 1, n);
      OnlyTowardsTheArchive(m, worlds, ops, j - 1, j, n);
      FinalizedFilesAreImmutable(m, worlds, ops, i, j - 1, n);
      RunKeeps(m, worlds, ops, j - 1);
      assert NameStep(worlds[j - 1], worlds[j], n);
    }
  }
}
