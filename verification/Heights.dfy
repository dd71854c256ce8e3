/** Compaction covers rows by their last block height, which nothing in the program ever sets. */
module Heights {
  import opened Bytes
  import opened Store
  import opened World
  import opened Lifecycle
  import Startup

  /** No row has a height, as in a new store. */
  ghost predicate NoHeights(rows: Rows) {
    forall n :: n in rows ==> rows[n].heightLast == 0
  }

  /** A compaction on such rows does nothing, at any height. */
  lemma NothingCovered(w: World, height: int, removeFails: set<string>, updateFails: set<string>)
    requires NoHeights(w.rows)
    ensures Compacted(w, height, removeFails, updateFails) == w
  {
    var w' := Compacted(w, height, removeFails, updateFails);
    assert forall n :: n in w.rows ==> !Covered(w.rows[n], height);
    assert w'.rows == w.rows && w'.local == w.local;
  }

  // What the steps do to rows

  lemma OpenRows(w: World, id: int, name: string, write: bool, lookupFails: bool, fails: bool)
    ensures Open(w, id, name, write, lookupFails, fails).rows == w.rows
  {
  }

  lemma WriteRows(w: World, id: int, off: nat, data: Buf, lookupFails: bool, written: nat)
    requires written <= |data|
    ensures Write(w, id, off, data, lookupFails, written).rows == w.rows
  {
    hide WriteAt;
  }

  lemma AllocateRows(w: World, id: int, off: nat, size: nat, supported: bool)
    ensures Allocate(w, id, off, size, supported).rows == w.rows
  {
  }

  lemma CreateRows(w: World, id: int, name: string, truncate: bool, now: int, lookupFails: bool, openFails: bool,
                   upsertFails: bool)
    ensures Create(w, id, name, truncate, now, lookupFails, openFails, upsertFails).rows in
              {w.rows, w.rows[name := Row(Active, Local, 0, None, now, now, 0, 0)]}
  {
  }

  /** A release finalizes one row or none. */
  lemma ReleaseRows(m: Mount, w: World, id: int, now: int, fails: bool)
    ensures var rows' := Release(m, w, id, now, fails).rows;
            || rows' == w.rows
            || (id in w.handles && w.handles[id].Writer? &&
                var n := w.handles[id].name;
                && n in w.rows && w.rows[n].state == Active && n in w.local
                && rows' == w.rows[n := Finalized(m, w.rows[n], w.local[n], now)])
  {
    hide ShouldFinalize, IsBlockOrUndo, Finalized;
  }

  /** A read changes at most the row of its own file: the state stays or becomes Cached, the height stays or goes. */
  lemma ReadRows(m: Mount, w: World, id: int, off: nat, dest: Buf, env: ReadEnv, n: string)
    ensures var rows' := Read(m, w, id, off, dest, env).1.rows;
            && (n in rows' <==> n in w.rows)
            && (n in w.rows ==> && rows'[n].state in {w.rows[n].state, Cached}
                                && rows'[n].heightLast in {w.rows[n].heightLast, 0})
  {
    hide ReadReader, ReadNull, ReadWriter;
    if id in w.handles && w.handles[id].Reader? {
      if IsLocal(w.handles[id].state) {
        LocalReadKeepsRow(m, w, id, off, dest, env);
      } else {
        ReadReaderFrame(m, w, id, off, dest, env);
      }
    }
  }

  /** No step of the file system, not even a misled one, gives a row a height. */
  lemma NextKeepsHeights(m: Mount, w: World, op: Op)
    requires Enabled(w, op) && NoHeights(w.rows)
    ensures NoHeights(Next(m, w, op).rows)
  {
    hide Open, Create, Write, Allocate, Release, Read, EvictAll, Compacted, LruPrefix, Finalized, NoHeights;
    match op
    case OpOpen(id, name, write, lookupFails, fails) => OpenRows(w, id, name, write, lookupFails, fails);
    case OpCreate(id, name, truncate, now, lookupFails, openFails, upsertFails) =>
      CreateRows(w, id, name, truncate, now, lookupFails, openFails, upsertFails);
      NewRowKeepsHeights(w.rows, name, Row(Active, Local, 0, None, now, now, 0, 0));
    case OpWrite(id, off, data, lookupFails, written) => WriteRows(w, id, off, data, lookupFails, written);
    case OpAllocate(id, off, size, supported) => AllocateRows(w, id, off, size, supported);
    case OpRelease(id, now, fails) => ReleaseKeepsHeights(m, w, id, now, fails);
    case OpRead(id, off, dest, env) => ReadKeepsHeights(m, w, id, off, dest, env);
    case OpEvict(limit, victims, removeFails, updateFails) =>
      EvictKeepsHeights(w, limit, victims, removeFails, updateFails);
    case OpCompact(height, removeFails, updateFails) => NothingCovered(w, height, removeFails, updateFails);
  }

  lemma NewRowKeepsHeights(rows: Rows, n: string, row: Row)
    requires NoHeights(rows) && row.heightLast == 0
    ensures NoHeights(rows[n := row])
  {
  }

  lemma ReleaseKeepsHeights(m: Mount, w: World, id: int, now: int, fails: bool)
    requires NoHeights(w.rows)
    ensures NoHeights(Release(m, w, id, now, fails).rows)
  {
    hide Release;
    ReleaseRows(m, w, id, now, fails);
  }

  lemma ReadKeepsHeights(m: Mount, w: World, id: int, off: nat, dest: Buf, env: ReadEnv)
    requires NoHeights(w.rows)
    ensures NoHeights(Read(m, w, id, off, dest, env).1.rows)
  {
    hide Read;
    forall n
      ensures var rows' := Read(m, w, id, off, dest, env).1.rows;
              n in rows' ==> n in w.rows && rows'[n].heightLast in {w.rows[n].heightLast, 0}
    {
      ReadRows(m, w, id, off, dest, env, n);
    }
  }

  lemma EvictKeepsHeights(w: World, limit: nat, victims: seq<string>, removeFails: set<string>,
                          updateFails: set<string>)
    requires NoHeights(w.rows) && LruPrefix(w.rows, victims, limit)
    ensures NoHeights(EvictAll(w, victims, removeFails, updateFails).rows)
  {
    hide EvictAll, LruPrefix;
    VictimsHaveRows(w, victims, limit);
    EvictAllRows(w, victims, removeFails, updateFails);
  }

  /** Nor do mounting and polling, whatever fails. */
  lemma StartAndPollKeepHeights(rows: Rows, dir: Startup.Dir, files: seq<Listed>, now: int, faults: Startup.Faults,
                                added: map<string, Listed>, removed: set<string>, fails: set<string>)
    requires NoHeights(rows) && Startup.DistinctNames(files)
    ensures NoHeights(Startup.Started(rows, dir, files, now, faults))
    ensures NoHeights(Startup.Polled(rows, added, removed, now, fails))
  {
    hide Startup.Started, Startup.Swept, IsBlockOrUndo;
    var rows' := Startup.Started(rows, dir, files, now, faults);
    forall n | n in rows'
      ensures rows'[n].heightLast == 0
    {
      Startup.StartedRow(rows, dir, files, now, faults, n);
    }
  }

  /** So in every run that starts without heights no compaction changes anything. */
  lemma {:induction false} RunsNeverCompact(m: Mount, worlds: seq<World>, ops: seq<Op>, i: nat)
    requires IsRun(m, worlds, ops) && NoHeights(worlds[0].rows) && i < |worlds|
    ensures NoHeights(worlds[i].rows)
    ensures i < |ops| && ops[i].OpCompact? ==> worlds[i + 1] == worlds[i]
  {
    hide NoHeights, Enabled, Next;
    if i > 0 {
      RunsNeverCompact(m, worlds, ops, i - 1);
      assert worlds[(i - 1) + 1] == Next(m, worlds[i - 1], ops[i - 1]);
      NextKeepsHeights(m, worlds[i - 1], ops[i - 1]);
    }
    if i < |ops| && ops[i].OpCompact? {
      CompactIsNothing(m, worlds[i], ops[i]);
    }
  }

  lemma CompactIsNothing(m: Mount, w: World, op: Op)
    requires Enabled(w, op) && NoHeights(w.rows) && op.OpCompact?
    ensures Next(m, w, op) == w
  {
    NothingCovered(w, op.height, op.removeFails, op.updateFails);
  }

  /** No step but a compaction takes a finalized file out of that state. */
  lemma OnlyCompactionHandsOver(m: Mount, w: World, op: Op, n: string)
    requires Inv(m, w) && Enabled(w, op) && Safe(w, op) && !op.OpCompact?
    requires n in w.rows && w.rows[n].state == LocalFinalized
    ensures n in Next(m, w, op).rows && Next(m, w, op).rows[n].state == LocalFinalized
  {
    hide Inv, Good, Safe, Open, Create, Write, Allocate, Release, Read, EvictAll, Compacted, LruPrefix, Finalized;
    NextKeepsIff(m, w, op);
    EdgeFromFinalized(m, w, Next(m, w, op), n);
    match op
    case OpOpen(id, name, write, lookupFails, fails) => OpenRows(w, id, name, write, lookupFails, fails);
    case OpCreate(id, name, truncate, now, lookupFails, openFails, upsertFails) =>
      CreateRows(w, id, name, truncate, now, lookupFails, openFails, upsertFails);
    case OpWrite(id, off, data, lookupFails, written) => WriteRows(w, id, off, data, lookupFails, written);
    case OpAllocate(id, off, size, supported) => AllocateRows(w, id, off, size, supported);
    case OpRelease(id, now, fails) => ReleaseRows(m, w, id, now, fails);
    case OpRead(id, off, dest, env) => ReadRows(m, w, id, off, dest, env, n);
    case OpEvict(limit, victims, removeFails, updateFails) =>
      EvictSparesFinalized(w, limit, victims, removeFails, updateFails, n);
  }

  /** The state machine leaves a finalized file two ways. */
  lemma EdgeFromFinalized(m: Mount, w: World, w': World, n: string)
    requires Good(m, w, w') && n in w.rows && w.rows[n].state == LocalFinalized
    ensures n in w'.rows && w'.rows[n].state in {LocalFinalized, Remote}
  {
    hide Inv, Allowed;
    assert NameStep(w, w', n);
    AllowedRaisesRank(LocalFinalized, w'.rows[n].state);
  }

  lemma EvictSparesFinalized(w: World, limit: nat, victims: seq<string>, removeFails: set<string>,
                             updateFails: set<string>, n: string)
    requires LruPrefix(w.rows, victims, limit) && n in w.rows && w.rows[n].state == LocalFinalized
    ensures var rows' := EvictAll(w, victims, removeFails, updateFails).rows;
            n in rows' && rows'[n].state == LocalFinalized
  {
    hide EvictAll;
    EvictAllRows(w, victims, removeFails, updateFails);
  }

  /** And a finalized file stays finalized and where it is for good: its space is never given back. */
  lemma {:induction false} FinalizedForGood(m: Mount, worlds: seq<World>, ops: seq<Op>, i: nat, j: nat, n: string)
    requires IsRun(m, worlds, ops) && AllSafe(worlds, ops) && Initial(worlds[0]) && NoHeights(worlds[0].rows)
    requires i <= j < |worlds| && n in worlds[i].rows && worlds[i].rows[n].state == LocalFinalized
    ensures n in worlds[j].rows && worlds[j].rows[n].state == LocalFinalized
    ensures n in worlds[i].local && n in worlds[j].local && worlds[j].local[n] == worlds[i].local[n]
    decreases j
  {
    hide Inv, Enabled, Next, NoHeights, Initial, Safe;
    NothingLost(m, worlds, ops, j);
    NothingLost(m, worlds, ops, i);
    if i < j {
      FinalizedForGood(m, worlds, ops, i, j - 1, n);
      RunKeeps(m, worlds, ops, j - 1);
      assert worlds[(j - 1) + 1] == Next(m, worlds[j - 1], ops[j - 1]);
      if ops[j - 1].OpCompact? {
        RunsNeverCompact(m, worlds, ops, j - 1);
      } else {
        OnlyCompactionHandsOver(m, worlds[j - 1], ops[j - 1], n);
      }
      FinalizedFilesAreImmutable(m, worlds, ops, i, j, n);
    }
  }

  lemma NothingLost(m: Mount, worlds: seq<World>, ops: seq<Op>, i: nat)
    requires IsRun(m, worlds, ops) && AllSafe(worlds, ops) && Initial(worlds[0]) && NoHeights(worlds[0].rows)
    requires i < |worlds|
    ensures Present(worlds[i])
  {
    hide Inv, Enabled, Next, NoHeights, Initial, Safe, Loses, IsRun, AllSafe, Present;
    assert |worlds| == |ops| + 1 by { WorldsAndOps(m, worlds, ops); }
    forall k | 0 <= k < i
      ensures !Loses(worlds[k], ops[k])
    {
      RunsNeverCompact(m, worlds, ops, k);
      NothingToLose(worlds[k], ops[k]);
    }
    StillPresent(m, worlds, ops, i);
  }

  lemma WorldsAndOps(m: Mount, worlds: seq<World>, ops: seq<Op>)
    requires IsRun(m, worlds, ops)
    ensures |worlds| == |ops| + 1
  {
  }

  lemma NothingToLose(w: World, op: Op)
    requires NoHeights(w.rows)
    ensures !Loses(w, op)
  {
  }
}
