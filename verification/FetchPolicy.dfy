/** Choosing between range requests and whole-file downloads: expiring hints and cooldowns, and the read tracker. */
module FetchPolicy {
  import opened Bytes

  datatype Mode = Auto | File | Range

  datatype Config = Config(
    mode: Mode, gapTolerance: int, minRequests: int, minSequentialBytes: int, minRate: real,
    maxBackwardSeeks: int, hintTTL: int, cooldown: int)

  /** The two maps of deadlines. */
  datatype Hints = Hints(fileUntil: map<string, int>, cooldownUntil: map<string, int>)

  const NO_HINTS := Hints(map[], map[])

  datatype Tracker = Tracker(
    initialized: bool, lastEnd: int, requests: int, totalBytes: int, sequentialBytes: int, backwardSeeks: int)

  const FRESH := Tracker(false, 0, 0, 0, 0, 0)

  predicate IsAdaptive(name: string) { |name| >= 3 && name[..3] == "blk" }

  predicate Before(m: map<string, int>, name: string, now: int) { name in m && now < m[name] }

  function Answer(c: Config, h: Hints, name: string, now: int): Mode {
    if c.mode != Auto then c.mode
    else if !IsAdaptive(name) then Range
    else if Before(h.cooldownUntil, name, now) then Range
    else if Before(h.fileUntil, name, now) then File
    else Range
  }

  /** Asking also forgets an expired hint, unless an earlier test already decided. */
  function AfterQuery(c: Config, h: Hints, name: string, now: int): Hints {
    if c.mode == Auto && IsAdaptive(name) && !Before(h.cooldownUntil, name, now) && !Before(h.fileUntil, name, now)
    then h.(fileUntil := h.fileUntil - {name})
    else h
  }

  function AfterSuccess(c: Config, h: Hints, name: string, now: int): Hints {
    Hints(h.fileUntil[name := now + c.hintTTL], h.cooldownUntil - {name})
  }

  function AfterFailure(c: Config, h: Hints, name: string, now: int): Hints {
    Hints(h.fileUntil - {name}, h.cooldownUntil[name := now + c.cooldown])
  }

  predicate MeetsThresholds(c: Config, t: Tracker) {
    && t.requests >= c.minRequests
    && t.sequentialBytes >= c.minSequentialBytes
    && t.totalBytes > 0
    && t.backwardSeeks <= c.maxBackwardSeeks
    && t.sequentialBytes as real / t.totalBytes as real >= c.minRate
  }

  predicate Promotes(c: Config, h: Hints, name: string, t: Tracker, now: int) {
    c.mode == Auto && IsAdaptive(name) && MeetsThresholds(c, t) && !Before(h.cooldownUntil, name, now)
  }

  function Observe(c: Config, t: Tracker, off: int, n: int): Tracker {
    if n <= 0 then t
    else if !t.initialized then
      Tracker(true, off + n, t.requests + 1, t.totalBytes + n, t.sequentialBytes + n, t.backwardSeeks)
    else
      var delta := off - t.lastEnd;
      var near := 0 <= delta <= c.gapTolerance;
      Tracker(true, off + n, t.requests + 1, t.totalBytes + n,
              if near then t.sequentialBytes + n else t.sequentialBytes,
              if delta < 0 then t.backwardSeeks + 1 else t.backwardSeeks)
  }

  class Policy {
    const config: Config
    var fileHints: map<string, int>
    var cooldownUntil: map<string, int>

    function State(): Hints
      reads this
    {
      Hints(fileHints, cooldownUntil)
    }

    constructor (config: Config)
      ensures this.config == config && State() == NO_HINTS
    {
      this.config := config;
      fileHints := map[];
      cooldownUntil := map[];
    }

    method ResolveMode(name: string, now: int) returns (mode: Mode)
      modifies this
      ensures mode == Answer(config, old(State()), name, now)
      ensures State() == AfterQuery(config, old(State()), name, now)
    {
      if config.mode != Auto {
        return config.mode;
      }
      if !IsAdaptive(name) {
        return Range;
      }
      if name in cooldownUntil && now < cooldownUntil[name] {
        return Range;
      }
      if name in fileHints && now < fileHints[name] {
        return File;
      }
      if name in fileHints && !(now < fileHints[name]) {
        fileHints := fileHints - {name};
      }
      assert fileHints == old(fileHints) - {name};
      return Range;
    }

    method MarkPromotionSuccess(name: string, now: int)
      modifies this
      ensures State() == AfterSuccess(config, old(State()), name, now)
    {
      fileHints := fileHints[name := now + config.hintTTL];
      cooldownUntil := cooldownUntil - {name};
    }

    method MarkPromotionFailure(name: string, now: int)
      modifies this
      ensures State() == AfterFailure(config, old(State()), name, now)
    {
      cooldownUntil := cooldownUntil[name := now + config.cooldown];
      fileHints := fileHints - {name};
    }

    method ShouldPromoteToFile(name: string, t: ReadTracker, now: int) returns (promote: bool)
      ensures promote == Promotes(config, State(), name, t.State(), now)
    {
      if config.mode != Auto { return false; }
      if !IsAdaptive(name) { return false; }
      if t.rangeRequests < config.minRequests { return false; }
      if t.sequentialBytes < config.minSequentialBytes { return false; }
      if t.totalBytes <= 0 { return false; }
      if t.backwardSeeks > config.maxBackwardSeeks { return false; }
      if t.sequentialBytes as real / t.totalBytes as real < config.minRate { return false; }
      if name in cooldownUntil && now < cooldownUntil[name] { return false; }
      return true;
    }

    method ObserveRangeRead(t: ReadTracker, off: int, n: int)
      modifies t
      ensures t.State() == Observe(config, old(t.State()), off, n)
    {
      if n <= 0 { return; }
      t.rangeRequests := t.rangeRequests + 1;
      t.totalBytes := t.totalBytes + n;
      if !t.initialized {
        t.initialized := true;
        t.lastEndOffset := off + n;
        t.sequentialBytes := t.sequentialBytes + n;
        return;
      }
      var delta := off - t.lastEndOffset;
      if delta >= 0 && delta <= config.gapTolerance {
        t.sequentialBytes := t.sequentialBytes + n;
      } else if delta < 0 {
        t.backwardSeeks := t.backwardSeeks + 1;
      }
      t.lastEndOffset := off + n;
    }
  }

  class ReadTracker {
    var initialized: bool
    var lastEndOffset: int
    var rangeRequests: int
    var totalBytes: int
    var sequentialBytes: int
    var backwardSeeks: int

    function State(): Tracker
      reads this
    {
      Tracker(initialized, lastEndOffset, rangeRequests, totalBytes, sequentialBytes, backwardSeeks)
    }

    constructor ()
      ensures State() == FRESH
    {
      initialized, lastEndOffset, rangeRequests := false, 0, 0;
      totalBytes, sequentialBytes, backwardSeeks := 0, 0, 0;
    }
  }

  // Histories

  datatype Event = Success(name: string, at: int) | Failure(name: string, at: int) | Query(name: string, at: int)

  function Apply(c: Config, h: Hints, e: Event): Hints {
    match e
    case Success(name, at) => AfterSuccess(c, h, name, at)
    case Failure(name, at) => AfterFailure(c, h, name, at)
    case Query(name, at) => AfterQuery(c, h, name, at)
  }

  function Run(c: Config, history: seq<Event>): Hints {
    if history == [] then NO_HINTS
    else Apply(c, Run(c, history[..|history| - 1]), history[|history| - 1])
  }

  /** The latest success or failure recorded for a name. */
  function LatestMark(history: seq<Event>, name: string): Option<Event> {
    if history == [] then None
    else
      var e := history[|history| - 1];
      if e.name == name && !e.Query? then Some(e) else LatestMark(history[..|history| - 1], name)
  }

  /** Whether the name was asked for at or after a deadline since its latest mark. */
  predicate QueriedPast(history: seq<Event>, name: string, deadline: int) {
    history != [] &&
    var e := history[|history| - 1];
    if e.name == name && !e.Query? then false
    else (e.name == name && e.at >= deadline) || QueriedPast(history[..|history| - 1], name, deadline)
  }

  predicate NotAfter(history: seq<Event>, now: int) {
    forall i :: 0 <= i < |history| ==> history[i].at <= now
  }

  /** What the two maps say about a name: exactly its latest mark, except that a hint is gone once it was asked for
      after its deadline. */
  predicate Reflects(c: Config, h: Hints, history: seq<Event>, name: string) {
    match LatestMark(history, name)
    case None => name !in h.fileUntil && name !in h.cooldownUntil
    case Some(Success(_, at)) =>
      && name !in h.cooldownUntil
      && (name in h.fileUntil <==> !(c.mode == Auto && IsAdaptive(name) && QueriedPast(history, name, at + c.hintTTL)))
      && (name in h.fileUntil ==> h.fileUntil[name] == at + c.hintTTL)
    case Some(Failure(_, at)) =>
      name !in h.fileUntil && name in h.cooldownUntil && h.cooldownUntil[name] == at + c.cooldown
    case Some(Query(_, _)) => false
  }

  lemma {:induction false} RunReflects(c: Config, history: seq<Event>, name: string)
    ensures Reflects(c, Run(c, history), history, name)
    decreases |history|
  {
    hide IsAdaptive;
    if history != [] {
      RunReflects(c, history[..|history| - 1], name);
    }
  }

  /** For every history and clock: in auto mode a blk file is read whole iff its latest mark is an unexpired success and
      nothing has asked for the file after the deadline of that success. */
  lemma {:induction false} WholeFileIff(c: Config, history: seq<Event>, name: string, now: int)
    requires c.mode == Auto && IsAdaptive(name)
    ensures Answer(c, Run(c, history), name, now) == File
            <==> (&& LatestMark(history, name).Some? && LatestMark(history, name).value.Success?
                  && now < LatestMark(history, name).value.at + c.hintTTL
                  && !QueriedPast(history, name, LatestMark(history, name).value.at + c.hintTTL))
  {
    hide Run, LatestMark, QueriedPast;
    RunReflects(c, history, name);
  }

  lemma {:induction false} NotQueriedPast(history: seq<Event>, name: string, deadline: int, now: int)
    requires NotAfter(history, now) && now < deadline
    ensures !QueriedPast(history, name, deadline)
  {
    if history != [] {
      NotQueriedPast(history[..|history| - 1], name, deadline, now);
    }
  }

  /** So the last event wins as long as the clock does not run backwards past it: a blk file is read whole exactly while
      its latest mark is an unexpired success. */
  lemma {:induction false} LastEventWins(c: Config, history: seq<Event>, name: string, now: int)
    requires c.mode == Auto && IsAdaptive(name) && NotAfter(history, now)
    ensures Answer(c, Run(c, history), name, now) == File
            <==> (LatestMark(history, name).Some? && LatestMark(history, name).value.Success?
                  && now < LatestMark(history, name).value.at + c.hintTTL)
  {
    hide Run, LatestMark, QueriedPast, NotAfter, Answer;
    WholeFileIff(c, history, name, now);
    var mark := LatestMark(history, name);
    if mark.Some? && mark.value.Success? && now < mark.value.at + c.hintTTL {
      NotQueriedPast(history, name, mark.value.at + c.hintTTL, now);
    }
  }

  /** No name is ever hinted and cooling down at once, whatever the mode and the clock. */
  lemma {:induction false} NeverInBothMaps(c: Config, history: seq<Event>, name: string)
    ensures !(name in Run(c, history).fileUntil && name in Run(c, history).cooldownUntil)
  {
    RunReflects(c, history, name);
  }

  /** Promotion is suppressed exactly during the cooldown that follows a latest failure, whatever the clock. */
  lemma {:induction false} PromotionRespectsCooldown(c: Config, history: seq<Event>, name: string, t: Tracker, now: int)
    requires c.mode == Auto && IsAdaptive(name)
    ensures Promotes(c, Run(c, history), name, t, now)
            <==> (MeetsThresholds(c, t)
                  && !(LatestMark(history, name).Some? && LatestMark(history, name).value.Failure?
                       && now < LatestMark(history, name).value.at + c.cooldown))
  {
    hide Run, LatestMark, MeetsThresholds, QueriedPast;
    RunReflects(c, history, name);
  }

  /** When the clock runs backwards the rule breaks: a late query forgets a hint that an earlier time still needs. */
  lemma BackwardClockForgets(c: Config, name: string)
    requires c.mode == Auto && IsAdaptive(name) && c.hintTTL > 0
    ensures Answer(c, Run(c, [Success(name, 0), Query(name, c.hintTTL)]), name, 0) == Range
    ensures LatestMark([Success(name, 0), Query(name, c.hintTTL)], name) == Some(Success(name, 0))
  {
    var history := [Success(name, 0), Query(name, c.hintTTL)];
    assert history[..1] == [Success(name, 0)] && history[..1][..0] == [];
    assert Run(c, history[..1]) == AfterSuccess(c, NO_HINTS, name, 0);
    assert LatestMark(history[..1], name) == Some(Success(name, 0));
  }

  // Reads

  datatype RangeRead = RangeRead(off: int, n: int)

  function Track(c: Config, run: seq<RangeRead>): Tracker {
    if run == [] then FRESH
    else Observe(c, Track(c, run[..|run| - 1]), run[|run| - 1].off, run[|run| - 1].n)
  }

  function Total(run: seq<RangeRead>): int {
    if run == [] then 0 else Total(run[..|run| - 1]) + Max(0, run[|run| - 1].n)
  }

  /** Over any run of reads the sequential share is a part of the total, so the promotion ratio lies between 0 and 1. */
  lemma {:induction false} TrackBounds(c: Config, run: seq<RangeRead>)
    ensures var t := Track(c, run);
            && t.totalBytes == Total(run) && 0 <= t.sequentialBytes <= t.totalBytes
            && 0 <= t.backwardSeeks <= t.requests <= |run| && (t.initialized <==> t.requests > 0)
    decreases |run|
  {
    if run != [] {
      TrackBounds(c, run[..|run| - 1]);
    }
  }

  /** The reads that count: those that brought something. */
  function NonEmpty(run: seq<RangeRead>): seq<RangeRead> {
    if run == [] then []
    else
      var last := run[|run| - 1];
      NonEmpty(run[..|run| - 1]) + (if last.n > 0 then [last] else [])
  }

  /** How far behind the end of the read before a read starts. */
  function Gap(rs: seq<RangeRead>, i: nat): int
    requires 1 <= i < |rs|
  {
    rs[i].off - (rs[i - 1].off + rs[i - 1].n)
  }

  /** How many reads start in front of the end of the one before. */
  function Seeks(rs: seq<RangeRead>): nat {
    if |rs| <= 1 then 0 else Seeks(rs[..|rs| - 1]) + if Gap(rs, |rs| - 1) < 0 then 1 else 0
  }

  /** The bytes of the first read and of those that follow the one before within the tolerance. */
  function SequentialBytes(rs: seq<RangeRead>, tolerance: int): int {
    if rs == [] then 0
    else
      var k := |rs| - 1;
      SequentialBytes(rs[..k], tolerance) + if k == 0 || 0 <= Gap(rs, k) <= tolerance then rs[k].n else 0
  }

  /** What the tracker holds after any run of reads. */
  lemma {:induction false} TrackCounts(c: Config, run: seq<RangeRead>)
    ensures var t, rs := Track(c, run), NonEmpty(run);
            && t.requests == |rs| && t.totalBytes == Total(run)
            && t.sequentialBytes == SequentialBytes(rs, c.gapTolerance) && t.backwardSeeks == Seeks(rs)
            && (t.initialized <==> rs != [])
            && (rs != [] ==> t.lastEnd == rs[|rs| - 1].off + rs[|rs| - 1].n)
    decreases |run|
  {
    hide Seeks, SequentialBytes, NonEmpty;
    NonEmptyParts(run);
    if run == [] {
      NoReads(c.gapTolerance);
    } else {
      var front, last := run[..|run| - 1], run[|run| - 1];
      TrackCounts(c, front);
      OneMoreRead(NonEmpty(front), last, c.gapTolerance);
    }
  }

  lemma NonEmptyParts(run: seq<RangeRead>)
    ensures NonEmpty(run) ==
            if run == [] then []
            else if run[|run| - 1].n > 0 then NonEmpty(run[..|run| - 1]) + [run[|run| - 1]]
            else NonEmpty(run[..|run| - 1])
  {
  }

  lemma NoReads(tolerance: int)
    ensures Seeks([]) == 0 && SequentialBytes([], tolerance) == 0
  {
  }

  lemma OneMoreRead(rs: seq<RangeRead>, last: RangeRead, tolerance: int)
    ensures var gap := if rs == [] then 0 else last.off - (rs[|rs| - 1].off + rs[|rs| - 1].n);
            && Seeks(rs + [last]) == Seeks(rs) + (if gap < 0 then 1 else 0)
            && SequentialBytes(rs + [last], tolerance)
               == SequentialBytes(rs, tolerance) + if rs == [] || 0 <= gap <= tolerance then last.n else 0
  {
    var rs' := rs + [last];
    assert rs'[..|rs|] == rs;
  }

  /** Over any run of reads, a file is promoted exactly when the policy is adaptive about it, the reads that count are
      enough and long enough in sequence, both absolutely and as a share of all, seek back seldom enough, and no
      cooldown runs. */
  lemma PromotesIff(c: Config, h: Hints, name: string, run: seq<RangeRead>, now: int)
    ensures var rs := NonEmpty(run);
            var sequential := SequentialBytes(rs, c.gapTolerance);
            Promotes(c, h, name, Track(c, run), now)
            <==> && c.mode == Auto && "blk" <= name && |rs| >= c.minRequests && sequential >= c.minSequentialBytes
                 && Seeks(rs) <= c.maxBackwardSeeks
                 && Total(run) > 0 && sequential as real / Total(run) as real >= c.minRate
                 && (name in h.cooldownUntil ==> h.cooldownUntil[name] <= now)
  {
    hide Track, Seeks, SequentialBytes, NonEmpty, Total;
    TrackCounts(c, run);
  }

  /** In a fixed mode every file is read in that mode, and in the adaptive one files that are no blk files by ranges;
      asking leaves no trace. */
  lemma FixedAnswers(c: Config, h: Hints, name: string, now: int)
    ensures c.mode == File ==> Answer(c, h, name, now) == File
    ensures c.mode == Range || (c.mode == Auto && !("blk" <= name)) ==> Answer(c, h, name, now) == Range
    ensures c.mode != Auto || !("blk" <= name) ==> AfterQuery(c, h, name, now) == h
  {
  }

  predicate Gapless(run: seq<RangeRead>) {
    && (forall i :: 0 <= i < |run| ==> run[i].n > 0)
    && (forall i :: 1 <= i < |run| ==> run[i].off == run[i - 1].off + run[i - 1].n)
  }

  /** A gapless scan counts every byte as sequential and no seek as backward. */
  lemma {:induction false} GaplessScan(c: Config, run: seq<RangeRead>)
    requires Gapless(run) && c.gapTolerance >= 0
    ensures var t := Track(c, run);
            && t.sequentialBytes == t.totalBytes == Total(run) && t.backwardSeeks == 0 && t.requests == |run|
            && (run != [] ==> t.initialized && t.lastEnd == run[|run| - 1].off + run[|run| - 1].n)
    decreases |run|
  {
    if run != [] {
      var front := run[..|run| - 1];
      assert forall i :: 0 <= i < |front| ==> front[i] == run[i];
      GaplessScan(c, front);
      if front != [] {
        assert front[|front| - 1] == run[|run| - 2];
      }
    }
  }

  /** So a gapless scan is promoted exactly when it is long enough and no cooldown is running. */
  lemma GaplessScanPromotes(c: Config, h: Hints, name: string, run: seq<RangeRead>, now: int)
    requires Gapless(run) && run != []
    requires c.mode == Auto && IsAdaptive(name) && c.gapTolerance >= 0 && c.maxBackwardSeeks >= 0 && c.minRate <= 1.0
    ensures Promotes(c, h, name, Track(c, run), now)
            <==> (|run| >= c.minRequests && Total(run) >= c.minSequentialBytes && !Before(h.cooldownUntil, name, now))
  {
    hide Track, Total, Gapless, IsAdaptive;
    GaplessScan(c, run);
    TotalPositive(run);
    RatioOfItself(Total(run) as real);
  }

  lemma RatioOfItself(x: real)
    requires x != 0.0
    ensures x / x == 1.0
  {
  }

  lemma {:induction false} TotalPositive(run: seq<RangeRead>)
    requires Gapless(run)
    ensures Total(run) >= |run|
    decreases |run|
  {
    if run != [] {
      var front := run[..|run| - 1];
      assert forall i :: 0 <= i < |front| ==> front[i] == run[i];
      TotalPositive(front);
    }
  }
}
