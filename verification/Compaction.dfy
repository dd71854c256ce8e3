/** Compaction of finalized files, file by file, with crashes at any point and the recovery behind them. */
module Compaction {
  import opened Bytes
  import opened Store
  import W = World

  datatype Marker = InProgress | Completed

  /** What compaction works on: the metadata, the local directory and the state file. */
  datatype Disk = Disk(rows: Rows, local: map<string, Buf>, marker: Option<Marker>)

  /** One entry of the snapshot that coveredFiles takes before anything changes. */
  datatype Item = Item(name: string, row: Row)

  function Handed(row: Row): Row { row.(state := Remote, source := Server) }

  /** The entries that ListByState and the height filter select, in no particular order. */
  ghost predicate CoveredItems(rows: Rows, height: int, items: seq<Item>) {
    && (forall i :: 0 <= i < |items| ==>
          items[i].name in rows && items[i].row == rows[items[i].name] && W.Covered(items[i].row, height))
    && (forall i, j :: 0 <= i < j < |items| ==> items[i].name != items[j].name)
    && (forall n :: n in rows && W.Covered(rows[n], height) ==> exists i :: 0 <= i < |items| && items[i].name == n)
  }

  predicate DistinctItems(items: seq<Item>) {
    forall i, j :: 0 <= i < j < |items| ==> items[i].name != items[j].name
  }

  /** replaceFiles stopped after `steps` removals and row updates. `stuck` files cannot be removed and are skipped;
      the row of an `unsaved` one cannot be stored, which is passed over. */
  function Replace(d: Disk, items: seq<Item>, stuck: set<string>, unsaved: set<string>, steps: nat): Disk
    decreases |items|
  {
    if items == [] || steps == 0 then d
    else if W.Blocked(d.local, stuck, items[0].name) then Replace(d, items[1..], stuck, unsaved, steps)
    else
      var removed := d.(local := d.local - {items[0].name});
      if steps == 1 then removed
      else Replace(Updated(removed, items[0], unsaved), items[1..], stuck, unsaved, steps - 2)
  }

  function Updated(d: Disk, item: Item, unsaved: set<string>): Disk {
    if item.name in unsaved then d else d.(rows := d.rows[item.name := Handed(item.row)])
  }

  /** The outcome of an uninterrupted compaction. */
  function Compacted(d: Disk, height: int, stuck: set<string>, unsaved: set<string>): (r: Disk)
    ensures r.marker == d.marker
  {
    var gone := Gone(d, height, stuck);
    Disk(HandedOver(d.rows, gone, unsaved), d.local - gone, d.marker)
  }

  function HandedOver(rows: Rows, gone: set<string>, unsaved: set<string>): Rows {
    map n | n in rows :: if n in gone && n !in unsaved then Handed(rows[n]) else rows[n]
  }

  function Gone(d: Disk, height: int, stuck: set<string>): set<string> {
    set n | n in d.rows && W.Covered(d.rows[n], height) && !W.Blocked(d.local, stuck, n)
  }

  class CompactionManager {
    var rows: Rows
    var local: map<string, Buf>
    var marker: Option<Marker>

    function State(): Disk
      reads this
    {
      Disk(rows, local, marker)
    }

    constructor (d: Disk)
      ensures State() == d
    {
      rows, local, marker := d.rows, d.local, d.marker;
    }

    method CoveredFiles(height: int) returns (items: seq<Item>)
      ensures CoveredItems(rows, height, items)
    {
      items := [];
      var todo := set n | n in rows && W.Covered(rows[n], height);
      while todo != {}
        invariant todo <= set n | n in rows && W.Covered(rows[n], height)
        invariant forall i :: 0 <= i < |items| ==>
          items[i].name in rows && items[i].row == rows[items[i].name] && W.Covered(items[i].row, height)
              && items[i].name !in todo
        invariant forall i, j :: 0 <= i < j < |items| ==> items[i].name != items[j].name
        invariant forall n :: n in rows && W.Covered(rows[n], height) && n !in todo ==>
          exists i :: 0 <= i < |items| && items[i].name == n
        decreases |todo|
      {
        var n :| n in todo;
        todo := todo - {n};
        ghost var before := items;
        items := items + [Item(n, rows[n])];
        assert items[|before|].name == n;
        assert forall i :: 0 <= i < |before| ==> items[i] == before[i];
      }
    }

    /** Removes each file and hands its row to the server, until the process dies. */
    method ReplaceFiles(items: seq<Item>, stuck: set<string>, unsaved: set<string>, steps: nat) returns (left: nat)
      requires DistinctItems(items)
      modifies this
      ensures State() == Replace(old(State()), items, stuck, unsaved, steps)
      ensures left > 0 <==> steps > 2 * Live(old(local), items, stuck)
    {
      hide DistinctItems;
      left := steps;
      for i := 0 to |items|
        invariant Replace(State(), items[i..], stuck, unsaved, left)
               == Replace(old(State()), items, stuck, unsaved, steps)
        invariant left as int - 2 * Live(local, items[i..], stuck) == steps as int - 2 * Live(old(local), items, stuck)
      {
        assert items[i..][1..] == items[i + 1..];
        if left == 0 {
          assert Live(local, items[i..], stuck) >= 0;
          return;
        }
        var e := items[i];
        if W.Blocked(local, stuck, e.name) {
          continue;
        }
        LiveElsewhere(local, items, i, stuck);
        local := local - {e.name};
        if left == 1 {
          assert Live(local, items[i + 1..], stuck) >= 0;
          return 0;
        }
        if e.name !in unsaved {
          rows := rows[e.name := Handed(e.row)];
        }
        left := left - 2;
      }
    }

    /** Compact; dies after `steps` removals and row updates, or runs to its end. */
    method Compact(height: int, stuck: set<string>, unsaved: set<string>, steps: nat)
      returns (finished: bool, ghost items: seq<Item>)
      modifies this
      ensures CoveredItems(old(rows), height, items)
      ensures items == [] ==> finished && State() == old(State())
      ensures items != [] ==>
              State() == Replace(old(State()), items, stuck, unsaved, steps)
                         .(marker := Some(if finished then Completed else InProgress))
      ensures items != [] ==> (finished <==> steps > 2 * Live(old(local), items, stuck))
    {
      var covered := CoveredFiles(height);
      items := covered;
      if |covered| == 0 {
        return true, items;
      }
      MarkerIrrelevant(State(), Some(InProgress), items, stuck, unsaved, steps);
      marker := Some(InProgress);
      var left := ReplaceFiles(covered, stuck, unsaved, steps);
      if left == 0 {
        return false, items;
      }
      marker := Some(Completed);
      return true, items;
    }

    method RecoverFromCrash()
      modifies this
      ensures State() == old(State()).(marker := None)
    {
      match marker {
        case None => return;
        case Some(_) => marker := None;
      }
    }
  }

  /** How many of the items can be removed. */
  function Live(local: map<string, Buf>, items: seq<Item>, stuck: set<string>): nat
    decreases |items|
  {
    if items == [] then 0
    else (if W.Blocked(local, stuck, items[0].name) then 0 else 1) + Live(local, items[1..], stuck)
  }

  /** Removing one item's file makes no difference to the items behind it. */
  lemma LiveElsewhere(local: map<string, Buf>, items: seq<Item>, i: nat, stuck: set<string>)
    requires DistinctItems(items) && i < |items|
    ensures Live(local - {items[i].name}, items[i + 1..], stuck) == Live(local, items[i + 1..], stuck)
  {
    assert forall item :: item in items[i + 1..] ==> item.name != items[i].name;
    LiveWithout(local, items[i].name, items[i + 1..], stuck);
  }

  lemma {:induction false} LiveWithout(local: map<string, Buf>, n: string, items: seq<Item>, stuck: set<string>)
    requires forall item :: item in items ==> item.name != n
    ensures Live(local - {n}, items, stuck) == Live(local, items, stuck)
    decreases |items|
  {
    if items != [] {
      LiveWithout(local, n, items[1..], stuck);
    }
  }

  lemma {:induction false} MarkerIrrelevant(
      d: Disk, marker: Option<Marker>, items: seq<Item>, stuck: set<string>, unsaved: set<string>, steps: nat)
    ensures Replace(d.(marker := marker), items, stuck, unsaved, steps)
            == Replace(d, items, stuck, unsaved, steps).(marker := marker)
    ensures Replace(d, items, stuck, unsaved, steps).marker == d.marker
    decreases |items|
  {
    if items != [] && steps > 0 {
      if W.Blocked(d.local, stuck, items[0].name) {
        MarkerIrrelevant(d, marker, items[1..], stuck, unsaved, steps);
      } else if steps > 1 {
        var next := Updated(d.(local := d.local - {items[0].name}), items[0], unsaved);
        MarkerIrrelevant(next, marker, items[1..], stuck, unsaved, steps - 2);
      }
    }
  }

  // Uninterrupted runs

  /** The names whose files are removed. */
  function Taken(local: map<string, Buf>, items: seq<Item>, stuck: set<string>): set<string> {
    set i | 0 <= i < |items| && !W.Blocked(local, stuck, items[i].name) :: items[i].name
  }

  lemma {:induction false} ReplaceOutcome(d: Disk, items: seq<Item>, stuck: set<string>, unsaved: set<string>,
        steps: nat)
    requires steps >= 2 * |items| && DistinctItems(items)
    requires forall i :: 0 <= i < |items| ==> items[i].name in d.rows && items[i].row == d.rows[items[i].name]
    ensures var d', taken := Replace(d, items, stuck, unsaved, steps), Taken(d.local, items, stuck);
            d'.local == d.local - taken && d'.rows == HandedOver(d.rows, taken, unsaved)
    decreases |items|
  {
    hide W.Blocked, Taken, HandedOver;
    if items == [] {
      NothingHandedOver(d, stuck, unsaved);
    } else {
      var item, rest := items[0], items[1..];
      TakenParts(d.local, items, stuck);
      if W.Blocked(d.local, stuck, item.name) {
        ReplaceOutcome(d, rest, stuck, unsaved, steps);
      } else {
        var next := Updated(d.(local := d.local - {item.name}), item, unsaved);
        ReplaceOutcome(next, rest, stuck, unsaved, steps - 2);
        TakenElsewhere(d.local, items, stuck);
        OneMoreHandedOver(d, item, Taken(d.local, rest, stuck), unsaved);
      }
    }
  }

  lemma NothingHandedOver(d: Disk, stuck: set<string>, unsaved: set<string>)
    ensures Taken(d.local, [], stuck) == {} && HandedOver(d.rows, {}, unsaved) == d.rows && d.local - {} == d.local
  {
  }

  lemma OneMoreHandedOver(d: Disk, item: Item, taken: set<string>, unsaved: set<string>)
    requires item.name in d.rows && item.row == d.rows[item.name] && item.name !in taken
    ensures HandedOver(Updated(d.(local := d.local - {item.name}), item, unsaved).rows, taken, unsaved)
            == HandedOver(d.rows, taken + {item.name}, unsaved)
    ensures d.local - {item.name} - taken == d.local - (taken + {item.name})
  {
  }

  lemma TakenElsewhere(local: map<string, Buf>, items: seq<Item>, stuck: set<string>)
    requires items != [] && DistinctItems(items)
    ensures Taken(local - {items[0].name}, items[1..], stuck) == Taken(local, items[1..], stuck)
    ensures items[0].name !in Taken(local, items[1..], stuck)
  {
  }

  lemma TakenParts(local: map<string, Buf>, items: seq<Item>, stuck: set<string>)
    requires items != []
    ensures Taken(local, items, stuck) ==
            if W.Blocked(local, stuck, items[0].name) then Taken(local, items[1..], stuck)
            else Taken(local, items[1..], stuck) + {items[0].name}
  {
    hide W.Blocked;
    forall n
      ensures n in Taken(local, items, stuck) <==>
              n in Taken(local, items[1..], stuck) || (n == items[0].name && !W.Blocked(local, stuck, n))
    {
      if i :| 0 <= i < |items| && !W.Blocked(local, stuck, items[i].name) && n == items[i].name {
        assert i > 0 ==> items[1..][i - 1] == items[i];
      }
      if i :| 0 <= i < |items[1..]| && !W.Blocked(local, stuck, items[1..][i].name) && n == items[1..][i].name {
        assert items[i + 1] == items[1..][i];
      }
    }
  }

  /** An uninterrupted compaction has the same outcome in whatever order the files are listed: every covered file that
      can be removed is, and its row is handed over unless that cannot be stored. */
  lemma CompactionOutcome(d: Disk, height: int, items: seq<Item>, stuck: set<string>, unsaved: set<string>, steps: nat)
    requires CoveredItems(d.rows, height, items) && steps >= 2 * |items|
    ensures Replace(d, items, stuck, unsaved, steps) == Compacted(d, height, stuck, unsaved)
  {
    hide W.Covered, W.Blocked, HandedOver;
    ReplaceOutcome(d, items, stuck, unsaved, steps);
    MarkerIrrelevant(d, d.marker, items, stuck, unsaved, steps);
    forall n
      ensures n in Taken(d.local, items, stuck) <==> n in Gone(d, height, stuck)
    {
      if n in Gone(d, height, stuck) {
        var i :| 0 <= i < |items| && items[i].name == n;
      }
    }
    assert Taken(d.local, items, stuck) == Gone(d, height, stuck);
  }

  // Crashes

  /** A state in the middle of compacting `d`: every name is as it was, or gone, or gone and handed over. */
  predicate NameBetween(d: Disk, d': Disk, height: int, stuck: set<string>, n: string) {
    && (n in d'.rows <==> n in d.rows)
    && (n in d.rows ==> d'.rows[n] == d.rows[n]
                        || (W.Covered(d.rows[n], height) && !W.Blocked(d.local, stuck, n)
                            && d'.rows[n] == Handed(d.rows[n]) && n !in d'.local))
    && (n in d'.local ==> n in d.local && d'.local[n] == d.local[n])
    && (n in d.local && n !in d'.local ==> n in d.rows && W.Covered(d.rows[n], height) && !W.Blocked(d.local, stuck, n))
  }

  ghost predicate Between(d: Disk, d': Disk, height: int, stuck: set<string>) {
    forall n :: NameBetween(d, d', height, stuck, n)
  }

  /** Removing the file and handing over the row of one covered name. */
  lemma StepBetween(d0: Disk, d: Disk, item: Item, height: int, stuck: set<string>, stuck': set<string>,
        unsaved: set<string>)
    requires Between(d0, d, height, stuck) && stuck <= stuck' && !W.Blocked(d.local, stuck', item.name)
    requires item.name in d0.rows && item.row == d0.rows[item.name] && W.Covered(item.row, height)
    ensures Between(d0, d.(local := d.local - {item.name}), height, stuck)
    ensures Between(d0, Updated(d.(local := d.local - {item.name}), item, unsaved), height, stuck)
  {
    hide W.Covered, Between;
    var n := item.name;
    BetweenAt(d0, d, height, stuck, n);
    var removed := d.(local := d.local - {n});
    var updated := Updated(removed, item, unsaved);
    forall k
      ensures NameBetween(d0, removed, height, stuck, k) && NameBetween(d0, updated, height, stuck, k)
    {
      BetweenAt(d0, d, height, stuck, k);
    }
    EveryNameBetween(d0, removed, height, stuck);
    EveryNameBetween(d0, updated, height, stuck);
  }

  lemma BetweenAt(d: Disk, d': Disk, height: int, stuck: set<string>, n: string)
    requires Between(d, d', height, stuck)
    ensures NameBetween(d, d', height, stuck, n)
  {
    hide NameBetween;
  }

  lemma EveryNameBetween(d: Disk, d': Disk, height: int, stuck: set<string>)
    requires forall n :: NameBetween(d, d', height, stuck, n)
    ensures Between(d, d', height, stuck)
  {
    hide NameBetween;
  }

  /** An attempt stopped anywhere stays in the middle, if nothing could be removed that cannot be removed at last. */
  lemma {:induction false} ReplaceBetween(
      d0: Disk, d: Disk, items: seq<Item>, height: int, stuck: set<string>, stuck': set<string>,
          unsaved: set<string>, steps: nat)
    requires Between(d0, d, height, stuck) && stuck <= stuck'
    requires forall i :: 0 <= i < |items| ==>
      items[i].name in d0.rows && items[i].row == d0.rows[items[i].name] && W.Covered(items[i].row, height)
    ensures Between(d0, Replace(d, items, stuck', unsaved, steps), height, stuck)
    decreases |items|
  {
    hide Between, W.Covered, W.Blocked, Updated;
    if items != [] && steps > 0 {
      if W.Blocked(d.local, stuck', items[0].name) {
        ReplaceBetween(d0, d, items[1..], height, stuck, stuck', unsaved, steps);
      } else {
        StepBetween(d0, d, items[0], height, stuck, stuck', unsaved);
        if steps > 1 {
          var next := Updated(d.(local := d.local - {items[0].name}), items[0], unsaved);
          ReplaceBetween(d0, next, items[1..], height, stuck, stuck', unsaved, steps - 2);
        }
      }
    }
  }

  lemma HandedNotCovered(row: Row, height: int)
    ensures !W.Covered(Handed(row), height)
  {
  }

  /** Compacting from any state in the middle ends where compacting from the start does. */
  lemma BetweenCompactsAlike(d: Disk, d': Disk, height: int, stuck: set<string>)
    requires Between(d, d', height, stuck)
    ensures Compacted(d', height, stuck, {}) == Compacted(d, height, stuck, {}).(marker := d'.marker)
  {
    hide W.Covered, Between;
    var a, b := Compacted(d', height, stuck, {}), Compacted(d, height, stuck, {});
    forall n
      ensures (n in a.rows <==> n in b.rows) && (n in a.rows ==> a.rows[n] == b.rows[n])
      ensures (n in a.local <==> n in b.local) && (n in a.local ==> a.local[n] == b.local[n])
    {
      BetweenAt(d, d', height, stuck, n);
      if n in d.rows {
        HandedNotCovered(d.rows[n], height);
      }
    }
    assert a.rows == b.rows && a.local == b.local;
  }

  lemma SelfBetween(d: Disk, marker: Option<Marker>, height: int, stuck: set<string>)
    ensures Between(d, d.(marker := marker), height, stuck)
  {
  }

  lemma MarkedBetween(d: Disk, d': Disk, marker: Option<Marker>, height: int, stuck: set<string>)
    requires Between(d, d', height, stuck)
    ensures Between(d, d'.(marker := marker), height, stuck)
  {
    hide Between;
    forall n
      ensures NameBetween(d, d'.(marker := marker), height, stuck, n)
    {
      BetweenAt(d, d', height, stuck, n);
    }
    EveryNameBetween(d, d'.(marker := marker), height, stuck);
  }

  /** One attempt that dies or ends: what it listed, what it met, and how far it got. */
  datatype Attempt = Attempt(items: seq<Item>, stuck: set<string>, unsaved: set<string>, steps: nat)

  /** The state behind a number of attempts, each followed by a recovery. */
  function AfterAttempts(d: Disk, attempts: seq<Attempt>): Disk {
    if attempts == [] then d else
      var a := attempts[|attempts| - 1];
      var before := AfterAttempts(d, attempts[..|attempts| - 1]).(marker := Some(InProgress));
      Replace(before, a.items, a.stuck, a.unsaved, a.steps).(marker := None)
  }

  /** Each attempt lists the files that are covered when it starts, and cannot remove what can never be removed. */
  ghost predicate AreAttempts(d: Disk, height: int, stuck: set<string>, attempts: seq<Attempt>) {
    forall i :: 0 <= i < |attempts| ==>
      stuck <= attempts[i].stuck && CoveredItems(AfterAttempts(d, attempts[..i]).rows, height, attempts[i].items)
  }

  /** What is still covered in the middle has its old row. */
  lemma CoveredFromStart(d: Disk, d': Disk, height: int, stuck: set<string>, items: seq<Item>)
    requires Between(d, d', height, stuck) && CoveredItems(d'.rows, height, items)
    ensures forall i :: 0 <= i < |items| ==>
              items[i].name in d.rows && items[i].row == d.rows[items[i].name] && W.Covered(items[i].row, height)
  {
    hide Between, W.Covered;
    forall i | 0 <= i < |items|
      ensures items[i].name in d.rows && items[i].row == d.rows[items[i].name]
    {
      BetweenAt(d, d', height, stuck, items[i].name);
      if items[i].name in d.rows {
        HandedNotCovered(d.rows[items[i].name], height);
      }
    }
  }

  lemma {:induction false} AttemptsBetween(d: Disk, height: int, stuck: set<string>, attempts: seq<Attempt>)
    requires AreAttempts(d, height, stuck, attempts)
    ensures Between(d, AfterAttempts(d, attempts), height, stuck)
    decreases |attempts|
  {
    hide Between, CoveredItems, Replace;
    if attempts == [] {
      SelfBetween(d, d.marker, height, stuck);
      assert d.(marker := d.marker) == d;
    } else {
      var k := |attempts| - 1;
      var front, a := attempts[..k], attempts[k];
      assert forall i :: 0 <= i < k ==> front[i] == attempts[i] && front[..i] == attempts[..i];
      AttemptsBetween(d, height, stuck, front);
      var before := AfterAttempts(d, front).(marker := Some(InProgress));
      CoveredFromStart(d, AfterAttempts(d, front), height, stuck, a.items);
      MarkedBetween(d, AfterAttempts(d, front), Some(InProgress), height, stuck);
      ReplaceBetween(d, before, a.items, height, stuck, a.stuck, a.unsaved, a.steps);
      MarkedBetween(d, Replace(before, a.items, a.stuck, a.unsaved, a.steps), None, height, stuck);
    }
  }

  /** Killed any number of times after any number of removals and row updates, with rows that could not be stored, and
      recovered each time: one more attempt at the same height that runs to its end and stores its rows ends in the
      rows and the local directory of a single uninterrupted run, whatever order each attempt lists the files in. */
  lemma CrashRecoverCompact(d: Disk, height: int, stuck: set<string>, attempts: seq<Attempt>, items: seq<Item>,
        steps: nat)
    requires AreAttempts(d, height, stuck, attempts)
    requires CoveredItems(AfterAttempts(d, attempts).rows, height, items) && steps >= 2 * |items|
    ensures var last := Replace(AfterAttempts(d, attempts), items, stuck, {}, steps);
            && last.rows == Compacted(d, height, stuck, {}).rows
            && last.local == Compacted(d, height, stuck, {}).local
  {
    hide Replace, Compacted, Between, CoveredItems;
    AttemptsBetween(d, height, stuck, attempts);
    BetweenCompactsAlike(d, AfterAttempts(d, attempts), height, stuck);
    CompactionOutcome(AfterAttempts(d, attempts), height, items, stuck, {}, steps);
  }

  /** Files that the height does not cover keep row and contents in every intermediate and final state. */
  lemma UncoveredUntouched(
      d: Disk, height: int, stuck: set<string>, unsaved: set<string>, items: seq<Item>, steps: nat, n: string)
    requires CoveredItems(d.rows, height, items) && (n in d.rows ==> !W.Covered(d.rows[n], height))
    ensures var d' := Replace(d, items, stuck, unsaved, steps);
            && (n in d'.rows <==> n in d.rows) && (n in d.rows ==> d'.rows[n] == d.rows[n])
            && (n in d'.local <==> n in d.local) && (n in d.local ==> d'.local[n] == d.local[n])
  {
    hide Replace, Between;
    SelfBetween(d, d.marker, height, stuck);
    assert d.(marker := d.marker) == d;
    ReplaceBetween(d, d, items, height, stuck, stuck, unsaved, steps);
    BetweenAt(d, Replace(d, items, stuck, unsaved, steps), height, stuck, n);
  }

  /** Seen from the file system, a completed compaction is the single step it is modelled as. */
  lemma CompactionIsOneStep(w: W.World, height: int, items: seq<Item>, stuck: set<string>, unsaved: set<string>,
        steps: nat)
    requires CoveredItems(w.rows, height, items) && steps >= 2 * |items|
    ensures var d := Replace(Disk(w.rows, w.local, Some(InProgress)), items, stuck, unsaved, steps);
            W.Compacted(w, height, stuck, unsaved) == w.(rows := d.rows, local := d.local)
  {
    hide Replace, CoveredItems;
    CompactionOutcome(Disk(w.rows, w.local, Some(InProgress)), height, items, stuck, unsaved, steps);
  }
}
