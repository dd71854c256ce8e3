/** What single steps do to bytes, rows and handles, said without the step functions' own vocabulary. */
module Steps {
  import opened Bytes
  import opened Store
  import opened BlockRead
  import opened World
  import L = Lifecycle
  import FP = FetchPolicy

  // Opening and creating

  /** Opening adds a handle where the row is found: for reading always, for writing one that discards unless the file is
      active. It changes no row and no byte: an active file keeps its bytes, and one that is missing is made empty. */
  lemma OpenLeaves(w: World, id: int, name: string, write: bool, lookupFails: bool, fails: bool)
    ensures var w' := Open(w, id, name, write, lookupFails, fails);
            var found := name in w.rows && !lookupFails;
            var active := found && w.rows[name].state == Active;
            && w'.rows == w.rows && w'.cache == w.cache && w'.blocks == w.blocks
            && (forall n :: n in w.local ==> n in w'.local && w'.local[n] == w.local[n])
            && (forall n :: n in w'.local && n !in w.local ==>
                  n == name && active && write && !fails && w'.local[n] == [])
            && (found && !write ==> w'.handles == w.handles[id := Reader(name, w.rows[name].state, FP.FRESH)])
            && (found && write && !active ==> w'.handles == w.handles[id := NullWriter(name)])
            && (active && write && !fails ==> w'.handles == w.handles[id := Writer(name)] && name in w'.local)
            && (!found || (active && write && fails) ==> w' == w)
  {
    hide CountOpened;
    if name in w.rows && !lookupFails && write && w.rows[name].state == Active && !fails {
      assert name in w.local ==> w.local[name := w.local[name]] == w.local;
    }
  }

  /** Creating a name that is new or active: the file is emptied if asked for, or made; its row starts over, and the
      caller gets a write handle, unless the file cannot be opened, when nothing happens, or the row not stored, when
      only the file is left. A name that is neither is opened for discarding. */
  lemma CreateLeaves(w: World, id: int, name: string, truncate: bool, now: int, lookupFails: bool, openFails: bool,
                     upsertFails: bool)
    ensures var w' := Create(w, id, name, truncate, now, lookupFails, openFails, upsertFails);
            var sealed := name in w.rows && !lookupFails && w.rows[name].state != Active;
            && w'.cache == w.cache && w'.blocks == w.blocks
            && (forall n :: n != name ==>
                  && (n in w'.local <==> n in w.local) && (n in w.local ==> w'.local[n] == w.local[n])
                  && (n in w'.rows <==> n in w.rows) && (n in w.rows ==> w'.rows[n] == w.rows[n]))
            && (sealed ==> w'.handles == w.handles[id := NullWriter(name)] && w'.local == w.local && w'.rows == w.rows)
            && (!sealed && openFails ==> w' == w)
            && (!sealed && !openFails ==>
                  && name in w'.local
                  && w'.local[name] == (if name in w.local && !truncate then w.local[name] else [])
                  && (upsertFails ==> w'.rows == w.rows && w'.handles == w.handles)
                  && (!upsertFails ==>
                        && w'.handles == w.handles[id := Writer(name)]
                        && name in w'.rows && w'.rows[name].state == Active && w'.rows[name].source == Local
                        && w'.rows[name].size == 0 && w'.rows[name].sha == None))
  {
    hide CountOpened;
  }

  // Writing

  /** The bytes of a file after `n` bytes of `data` were written at `off`: the old ones outside the range, zeros in a
      gap in front of it. */
  predicate Overwritten(before: Buf, off: nat, data: Buf, n: nat, after: Buf)
    requires n <= |data|
  {
    && |after| == Max(|before|, off + n)
    && forall i :: 0 <= i < |after| ==>
         after[i] == if off <= i < off + n then data[i - off] else if i < |before| then before[i] else 0
  }

  lemma WriteAtBytes(file: Buf, off: nat, data: Buf)
    requires data != []
    ensures Overwritten(file, off, data, |data|, WriteAt(file, off, data))
  {
    var grown := if |file| < off then file + Zeros(off - |file|) else file;
    var behind := if off + |data| < |grown| then grown[off + |data|..] else [];
    assert WriteAt(file, off, data) == grown[..off] + data + behind;
  }

  /** A write through a handle goes through iff the row is found and active, the file is there and some byte reaches the
      disk; then the file has exactly these bytes in their place, and nothing else changes anywhere. */
  lemma WriteLeaves(w: World, id: int, off: nat, data: Buf, lookupFails: bool, written: nat)
    requires id in w.handles && w.handles[id].Writer? && written <= |data|
    ensures var w' := Write(w, id, off, data, lookupFails, written);
            var n := w.handles[id].name;
            if !lookupFails && n in w.rows && w.rows[n].state == Active && n in w.local && written > 0 then
              && n in w'.local && Overwritten(w.local[n], off, data, written, w'.local[n])
              && w' == w.(local := w.local[n := w'.local[n]])
            else w' == w
  {
    hide WriteAt;
    var n := w.handles[id].name;
    if !lookupFails && n in w.rows && w.rows[n].state == Active && n in w.local {
      if written > 0 {
        WriteAtBytes(w.local[n], off, data[..written]);
      } else {
        NothingWritten(w.local[n], off);
        assert data[..written] == [];
        assert w.local[n := w.local[n]] == w.local;
      }
    }
  }

  lemma NothingWritten(file: Buf, off: nat)
    ensures WriteAt(file, off, []) == file
  {
  }

  /** What was written is what any handle on the file reads there, and what was there before is read around it. */
  lemma WrittenIsRead(m: Mount, w: World, id: int, off: nat, data: Buf, reader: int, at: nat, dest: Buf, env: ReadEnv)
    requires id in w.handles && w.handles[id].Writer? && L.HandleOk(w, w.handles[id]) && data != []
    requires reader in w.handles && w.handles[reader].name == w.handles[id].name && env.localStop.None?
    requires w.handles[reader].Writer? || (w.handles[reader].Reader? && w.handles[reader].state == Active)
    ensures var n := w.handles[id].name;
            var w' := Write(w, id, off, data, false, |data|);
            && n in w'.local && Overwritten(w.local[n], off, data, |data|, w'.local[n])
            && Read(m, w', reader, at, dest, env).0 == Data(Clip(w'.local[n], at, |dest|))
            && (at == off && |dest| == |data| ==> Read(m, w', reader, at, dest, env).0 == Data(data))
  {
    hide Write, Overwritten;
    var n := w.handles[id].name;
    WriteLeaves(w, id, off, data, false, |data|);
    RangeComesBack(w.local[n], off, data, Write(w, id, off, data, false, |data|).local[n]);
  }

  lemma RangeComesBack(before: Buf, off: nat, data: Buf, after: Buf)
    requires Overwritten(before, off, data, |data|, after) && data != []
    ensures Clip(after, off, |data|) == data
  {
  }

  /** Preallocation makes the file long enough with zeros behind its old end, and never shorter. */
  lemma AllocateLeaves(w: World, id: int, off: nat, size: nat, supported: bool)
    requires id in w.handles && w.handles[id].Writer?
    ensures var w' := Allocate(w, id, off, size, supported);
            var n := w.handles[id].name;
            if supported && size > 0 && n in w.local then
              && n in w'.local && |w'.local[n]| == Max(|w.local[n]|, off + size)
              && (forall i :: 0 <= i < |w'.local[n]| ==>
                    w'.local[n][i] == if i < |w.local[n]| then w.local[n][i] else 0)
              && w' == w.(local := w.local[n := w'.local[n]])
            else w' == w
  {
  }

  // Finalizing

  /** Closing this handle finalizes this file: it was the last write handle, the row is active, the file is a blk file
      of some number whose successor lies in the local directory, it lies there itself, and nothing fails. */
  ghost predicate Finalizes(w: World, id: int, fails: bool, n: string) {
    && L.WriterIds(w.handles, n) == {id}
    && n in w.rows && w.rows[n].state == Active && n in w.local && !fails
    && exists k: int64 :: ParseBlockFileNumber(n, "blk") == Some(k)
                          && BlkName(if k == TWO63 - 1 then -TWO63 else k + 1) in w.local
  }

  /** A release finalizes exactly then; the row gets the hash and the size of the bytes, and no other row changes. No
      release changes a byte. */
  lemma ReleaseFinalizesIff(m: Mount, w: World, id: int, now: int, fails: bool, n: string)
    requires L.CountsExact(w) && id in w.handles
    ensures var w' := Release(m, w, id, now, fails);
            && w'.local == w.local && w'.cache == w.cache && w'.handles == w.handles - {id}
            && (n in w'.rows <==> n in w.rows)
            && (Finalizes(w, id, fails, n) ==>
                  w'.rows[n] == w.rows[n].(state := LocalFinalized, sha := Some(m.sha(w.local[n])),
                                           size := |w.local[n]|, access := now))
            && (n in w.rows && !Finalizes(w, id, fails, n) ==> w'.rows[n] == w.rows[n])
  {
    hide ParseBlockFileNumber, BlkName;
    OnlyWriter(w, id, n);
    if w.handles[id].Writer? && n == w.handles[id].name {
      assert L.CountOk(w.writers, w.handles, n);
      ClosedCount(w.writers, n);
    }
  }

  lemma ClosedCount(counts: Counts, n: string)
    ensures CountOf(CountClosed(counts, n), n) == if CountOf(counts, n) == 0 then 0 else CountOf(counts, n) - 1
  {
  }

  /** A handle is the only writer of a file iff it is one and the number of writers is 1. */
  lemma OnlyWriter(w: World, id: int, n: string)
    requires id in w.handles
    ensures L.WriterIds(w.handles, n) == {id}
            <==> w.handles[id] == Writer(n) && |L.WriterIds(w.handles, n)| <= 1
  {
    var ids := L.WriterIds(w.handles, n);
    if w.handles[id] == Writer(n) {
      assert id in ids && ids == {id} + (ids - {id});
    }
    assert ids == {id} ==> id in ids;
  }

  /** So the blk file of number k is finalized when its last writer leaves iff the file of number k + 1 is there. */
  lemma SuccessorDecides(m: Mount, w: World, id: int, now: int, k: nat)
    requires L.CountsExact(w) && id in w.handles && k < TWO63 - 1
    requires L.WriterIds(w.handles, BlkName(k)) == {id} && L.HandleOk(w, w.handles[id])
    ensures BlkName(k) in w.rows && BlkName(k) in Release(m, w, id, now, false).rows
    ensures Release(m, w, id, now, false).rows[BlkName(k)].state == LocalFinalized <==> BlkName(k + 1) in w.local
  {
    hide Release, BlkName, ParseBlockFileNumber;
    OnlyWriter(w, id, BlkName(k));
    BlkNameParses(k);
    ReleaseFinalizesIff(m, w, id, now, false, BlkName(k));
  }

  /** And an undo file never is. */
  lemma UndoFilesStayActive(m: Mount, w: World, id: int, now: int, fails: bool, n: string)
    requires L.CountsExact(w) && id in w.handles && n in w.rows && HasPrefix(n, "rev")
    ensures n in Release(m, w, id, now, fails).rows && Release(m, w, id, now, fails).rows[n] == w.rows[n]
  {
    hide Release, BlkName;
    assert !HasPrefix(n, "blk") by {
      assert "blk"[0] != "rev"[0];
    }
    ReleaseFinalizesIff(m, w, id, now, fails, n);
  }

  // The daemon

  /** A compaction takes a file iff its row is finalized and its last block is within the snapshot, and the file is gone
      or can be removed; the row goes to the server unless it cannot be stored. All other rows and files stay. */
  lemma CompactionTakesIff(w: World, height: int, removeFails: set<string>, updateFails: set<string>, n: string)
    ensures var w' := Compacted(w, height, removeFails, updateFails);
            var taken := && n in w.rows && w.rows[n].state == LocalFinalized
                         && height != 0 && 0 < w.rows[n].heightLast && w.rows[n].heightLast <= height
                         && (n in w.local ==> n !in removeFails);
            && (n in w'.local <==> n in w.local && !taken)
            && (n in w'.local ==> w'.local[n] == w.local[n])
            && (n in w'.rows <==> n in w.rows)
            && (n in w.rows ==> w'.rows[n] == if taken && n !in updateFails
                                              then w.rows[n].(state := Remote, source := Server) else w.rows[n])
            && w' == w.(local := w'.local, rows := w'.rows)
  {
  }

  /** The victims of an eviction are different cached files, as many as asked for or all there are, and none of them was
      used more recently than a cached file that is spared. */
  lemma VictimsAreOldest(rows: Rows, victims: seq<string>, limit: nat)
    requires LruPrefix(rows, victims, limit)
    ensures forall i :: 0 <= i < |victims| ==> victims[i] in rows && rows[victims[i]].state == Cached
    ensures forall i, j :: 0 <= i < j < |victims| ==> victims[i] != victims[j]
    ensures |victims| <= limit
    ensures forall n :: n in rows && rows[n].state == Cached && n !in victims ==>
              |victims| == limit && forall i :: 0 <= i < |victims| ==> rows[victims[i]].access <= rows[n].access
  {
  }

  /** An eviction removes the cached files of its victims, except where that fails, and turns their rows remote, except
      where that fails; every other file and row stays. */
  lemma EvictionTakesIff(w: World, victims: seq<string>, removeFails: set<string>, updateFails: set<string>, n: string)
    requires forall i :: 0 <= i < |victims| ==> victims[i] in w.rows
    ensures var w' := EvictAll(w, victims, removeFails, updateFails);
            && (n in w'.cache <==> n in w.cache && !(n in victims && n !in removeFails))
            && (n in w'.cache ==> w'.cache[n] == w.cache[n])
            && (n in w'.rows <==> n in w.rows)
            && (n in w.rows ==> w'.rows[n] == if n in victims && n !in removeFails && n !in updateFails
                                              then w.rows[n].(state := Remote) else w.rows[n])
  {
    hide EvictAll;
    L.EvictAllRows(w, victims, removeFails, updateFails);
    EvictedCache(w, victims, removeFails, updateFails, n);
  }

  lemma {:induction false} EvictedCache(w: World, victims: seq<string>, removeFails: set<string>,
                                        updateFails: set<string>, n: string)
    ensures var cache' := EvictAll(w, victims, removeFails, updateFails).cache;
            && (n in cache' <==> n in w.cache && !(n in victims && n !in removeFails))
            && (n in cache' ==> cache'[n] == w.cache[n])
    decreases |victims|
  {
    if victims != [] {
      EvictedCache(RemoveCached(w, victims[0], removeFails, updateFails), victims[1..], removeFails, updateFails, n);
      assert victims == [victims[0]] + victims[1..];
    }
  }
}
