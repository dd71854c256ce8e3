/** File metadata rows, the state machine over them, and block-file names. */
module Store {
  import opened Bytes

  datatype FileState = Active | LocalFinalized | Cached | Remote
  datatype Source = Server | Local

  /** A metadata row; `sha` is None where the source stores an empty hash. */
  datatype Row = Row(
    state: FileState, source: Source, size: int, sha: Option<Digest>,
    created: int, access: int, heightFirst: int, heightLast: int)

  type Rows = map<string, Row>

  /** One manifest entry; a hash is None where the manifest has an empty one. */
  datatype Listed = Listed(name: string, size: nat, sha: Option<Digest>, blockmapSha: Option<Digest>)

  const MAX_BLOCK_FILE := 128 * 1024 * 1024
  const SLACK := 4 * 1024 * 1024
  const FINALIZED_THRESHOLD := MAX_BLOCK_FILE - SLACK

  datatype Event = Finalize | CacheFetch | CacheEvict | Compact

  /** The allowed state changes; None stands for ErrInvalidTransition. */
  function Transition(current: FileState, event: Event): Option<FileState> {
    match (current, event)
    case (Active, Finalize) => Some(LocalFinalized)
    case (Remote, CacheFetch) => Some(Cached)
    case (Cached, CacheEvict) => Some(Remote)
    case (LocalFinalized, Compact) => Some(Remote)
    case _ => None
  }

  predicate IsWritable(s: FileState) { s == Active }

  predicate IsLocal(s: FileState) { s == Active || s == LocalFinalized }

  predicate IsEvictable(s: FileState) { s == Cached }

  function SourceForState(s: FileState): Source { if IsLocal(s) then Local else Server }

  /** The rules and the machine say the same: a file is written until it is finalized, evicted where the machine
      evicts, and local until it is compacted. */
  lemma RulesMatchMachine(s: FileState)
    ensures IsWritable(s) <==> Transition(s, Finalize).Some?
    ensures IsEvictable(s) <==> Transition(s, CacheEvict).Some?
    ensures IsLocal(s) <==> IsWritable(s) || Transition(s, Compact).Some?
    ensures forall e :: Transition(s, e).Some? && SourceForState(Transition(s, e).value) == Local ==>
        SourceForState(s) == Local
  {
  }

  /** A stutter or one edge of the state machine. */
  predicate Allowed(from: FileState, to: FileState) {
    from == to || exists e :: Transition(from, e) == Some(to)
  }

  /** How far a file is from being written locally to being served by the archive. */
  function Rank(s: FileState): nat {
    match s
    case Active => 0
    case LocalFinalized => 1
    case Cached => 2
    case Remote => 2
  }

  /** The state machine only moves files towards the archive. */
  lemma AllowedRaisesRank(from: FileState, to: FileState)
    ensures Allowed(from, to) ==> Rank(from) <= Rank(to)
    ensures Allowed(from, to) <==>
            || from == to
            || (from, to) in {(Active, LocalFinalized), (Remote, Cached), (Cached, Remote), (LocalFinalized, Remote)}
  {
    if (from, to) in {(Active, LocalFinalized), (Remote, Cached), (Cached, Remote), (LocalFinalized, Remote)} {
      var e := match from
        case Active => Finalize
        case Remote => CacheFetch
        case Cached => CacheEvict
        case LocalFinalized => Compact;
      assert Transition(from, e) == Some(to);
    }
  }

  // Names

  predicate HasPrefix(s: string, prefix: string) { |prefix| <= |s| && s[..|prefix|] == prefix }

  predicate HasSuffix(s: string, suffix: string) { |suffix| <= |s| && s[|s| - |suffix|..] == suffix }

  predicate IsDigit(c: char) { '0' <= c <= '9' }

  function Digits(s: string): Option<nat> {
    if s == [] then Some(0)
    else
      var front, c := Digits(s[..|s| - 1]), s[|s| - 1];
      if front.None? || !IsDigit(c) then None else Some(front.value * 10 + (c as int - '0' as int))
  }

  /** strconv.Atoi: an optional sign and at least one digit, within int64. */
  function Atoi(s: string): Option<int64> {
    var signed := s != [] && (s[0] == '-' || s[0] == '+');
    var body := if signed then s[1..] else s;
    var n := Digits(body);
    if body == [] || n.None? then None
    else
      var v: int := if signed && s[0] == '-' then -(n.value as int) else n.value;
      if -TWO63 <= v < TWO63 then Some(v) else None
  }

  /** The number in prefix#####.dat. */
  function ParseBlockFileNumber(name: string, prefix: string): Option<int64> {
    if !HasPrefix(name, prefix) || !HasSuffix(name, ".dat") || |name| <= |prefix| + 4 then None
    else Atoi(name[|prefix|..|name| - 4])
  }

  function Decimal(n: nat): string {
    if n < 10 then [DigitChar(n)] else Decimal(n / 10) + [DigitChar(n % 10)]
  }

  function DigitChar(d: nat): char
    requires d < 10
  {
    '0' + d as char
  }

  function Padded(s: string, width: nat): string
    decreases width - |s|
  {
    if |s| >= width then s else Padded("0" + s, width)
  }

  /** fmt.Sprintf("blk%05d.dat", n): the sign counts towards the width. */
  function BlkName(n: int): string {
    "blk" + (if n < 0 then "-" + Padded(Decimal(-n), 4) else Padded(Decimal(n), 5)) + ".dat"
  }

  /** The blk file after number `n`, in 64-bit arithmetic. */
  function NextBlkName(n: int64): string {
    BlkName(if n == TWO63 - 1 then -TWO63 else n + 1)
  }

  predicate IsBlockOrUndo(name: string) {
    ParseBlockFileNumber(name, "blk").Some? || ParseBlockFileNumber(name, "rev").Some?
  }

  lemma {:induction false} DecimalDigits(n: nat)
    ensures Digits(Decimal(n)) == Some(n) && |Decimal(n)| > 0
    ensures forall i :: 0 <= i < |Decimal(n)| ==> IsDigit(Decimal(n)[i])
  {
    var s := Decimal(n);
    if n < 10 {
      assert s[..0] == [];
    } else {
      DecimalDigits(n / 10);
      assert s[..|s| - 1] == Decimal(n / 10);
    }
  }

  lemma {:induction false} LeadingZero(s: string)
    ensures Digits("0" + s) == Digits(s)
  {
    if s == [] {
      assert "0" + s == "0" && "0"[..0] == [];
    } else {
      LeadingZero(s[..|s| - 1]);
      assert ("0" + s)[..|s|] == "0" + s[..|s| - 1];
    }
  }

  lemma {:induction false} PaddedDigits(s: string, width: nat)
    requires s != [] && IsDigit(s[0])
    ensures Digits(Padded(s, width)) == Digits(s)
    ensures Padded(s, width) != [] && IsDigit(Padded(s, width)[0])
    decreases width - |s|
  {
    if |s| < width {
      LeadingZero(s);
      PaddedDigits("0" + s, width);
    }
  }

  /** Printing and parsing blk file names agree on every number, so the successor that is looked for is the real one. */
  lemma BlkNameParses(n: int64)
    ensures ParseBlockFileNumber(BlkName(n), "blk") == Some(n)
  {
    hide Digits, Decimal, Padded;
    var m: nat := if n < 0 then -(n as int) else n;
    var digits := Padded(Decimal(m), if n < 0 then 4 else 5);
    DecimalDigits(m);
    PaddedDigits(Decimal(m), if n < 0 then 4 else 5);
    var mid := (if n < 0 then "-" else "") + digits;
    var name := BlkName(n);
    assert name == "blk" + mid + ".dat";
    assert name[..3] == "blk" && name[|name| - 4..] == ".dat" && name[3..|name| - 4] == mid;
    if n < 0 {
      assert mid[1..] == digits;
    } else {
      assert mid == digits && IsDigit(mid[0]) && mid[0] != '-' && mid[0] != '+';
    }
    assert Atoi(mid) == Some(n);
  }

  lemma {:induction false} DecimalLength(n: nat, width: nat)
    requires n < Power10(width) && width > 0
    ensures |Decimal(n)| <= width
  {
    if n >= 10 {
      DecimalLength(n / 10, width - 1);
    }
  }

  function Power10(n: nat): nat { if n == 0 then 1 else 10 * Power10(n - 1) }

  lemma {:induction false} PaddedLength(s: string, width: nat)
    ensures |Padded(s, width)| == Max(|s|, width)
    decreases width - |s|
  {
    if |s| < width {
      PaddedLength("0" + s, width);
    }
  }

  /** The names of the first hundred thousand blk files have five digits, so with the above they are these and no
      others. */
  lemma BlkNameHasFiveDigits(n: nat)
    requires n < 100_000
    ensures |BlkName(n)| == 12 && forall i :: 3 <= i < 8 ==> IsDigit(BlkName(n)[i])
  {
    assert Power10(5) == 100_000;
    DecimalLength(n, 5);
    PaddedLength(Decimal(n), 5);
    DecimalDigits(n);
    AllDigits(Decimal(n), 5);
  }

  lemma {:induction false} AllDigits(s: string, width: nat)
    requires forall i :: 0 <= i < |s| ==> IsDigit(s[i])
    ensures forall i :: 0 <= i < |Padded(s, width)| ==> IsDigit(Padded(s, width)[i])
    decreases width - |s|
  {
    if |s| < width {
      AllDigits("0" + s, width);
    }
  }

  /** The block files and undo files are those named blk or rev, a number, .dat. */
  ghost predicate NamesNumbered(name: string) {
    exists mid: string :: (name == "blk" + mid + ".dat" || name == "rev" + mid + ".dat") && Atoi(mid).Some?
  }

  lemma IsBlockOrUndoIff(name: string)
    ensures IsBlockOrUndo(name) <==> NamesNumbered(name)
  {
    hide Atoi;
    NoNumberWithoutDigits();
    if IsBlockOrUndo(name) {
      var mid := name[3..|name| - 4];
      assert name == name[..3] + mid + name[|name| - 4..];
      assert name == "blk" + mid + ".dat" || name == "rev" + mid + ".dat";
    }
    if mid: string :| (name == "blk" + mid + ".dat" || name == "rev" + mid + ".dat") && Atoi(mid).Some? {
      assert name[..3] == "blk" || name[..3] == "rev";
      assert name[3..|name| - 4] == mid && name[|name| - 4..] == ".dat";
    }
  }

  lemma NoNumberWithoutDigits()
    ensures Atoi("").None?
  {
  }

  /** So the undo file of every blk file is one. */
  lemma UndoFilesAreNumbered(n: int64)
    ensures IsBlockOrUndo(BlkName(n)) && IsBlockOrUndo("rev" + BlkName(n)[3..])
  {
    hide BlkName, Atoi, IsBlockOrUndo;
    BlkNameParses(n);
    var name := BlkName(n);
    var mid := name[3..|name| - 4];
    assert name == name[..3] + mid + name[|name| - 4..];
    assert "rev" + name[3..] == "rev" + mid + ".dat";
    IsBlockOrUndoIff(name);
    IsBlockOrUndoIff("rev" + name[3..]);
    assert name == "blk" + mid + ".dat";
  }
}
