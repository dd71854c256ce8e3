/** The server's scan for finalized files: a first pass over blk files by size, a second over undo files by number. */
module FinalizedScan {
  import opened Bytes
  import opened Store

  datatype DirFile = DirFile(name: string, data: Buf)

  /** Go's order on strings. */
  predicate Less(a: string, b: string) {
    b != "" && (a == "" || a[0] < b[0] || (a[0] == b[0] && Less(a[1..], b[1..])))
  }

  /** A directory listing: distinct names in ascending order. */
  predicate Ascending(files: seq<DirFile>) {
    forall i, j :: 0 <= i < j < |files| ==> Less(files[i].name, files[j].name)
  }

  /** filepath.Glob for prefix*.dat. */
  predicate Globs(name: string, prefix: string) {
    HasPrefix(name, prefix) && HasSuffix(name, ".dat") && |name| >= |prefix| + 4
  }

  /** extractFileNumber: what stands between blk or rev and .dat. */
  function FileNumber(name: string): string {
    if Globs(name, "blk") || Globs(name, "rev") then name[3..|name| - 4] else ""
  }

  // Scanning

  predicate BigBlk(f: DirFile) { Globs(f.name, "blk") && |f.data| >= FINALIZED_THRESHOLD }

  predicate RevOf(numbers: set<string>, f: DirFile) {
    Globs(f.name, "rev") && FileNumber(f.name) != "" && FileNumber(f.name) in numbers
  }

  function Select(files: seq<DirFile>, p: DirFile -> bool): seq<DirFile> {
    if files == [] then [] else
      var f := files[|files| - 1];
      Select(files[..|files| - 1], p) + (if p(f) then [f] else [])
  }

  function Numbers(dir: seq<DirFile>): set<string> {
    set f | f in dir && BigBlk(f) && FileNumber(f.name) != "" :: FileNumber(f.name)
  }

  function Blks(dir: seq<DirFile>): seq<DirFile> { Select(dir, BigBlk) }

  function Revs(dir: seq<DirFile>, numbers: set<string>): seq<DirFile> { Select(dir, f => RevOf(numbers, f)) }

  function Scan(dir: seq<DirFile>): seq<DirFile> { Blks(dir) + Revs(dir, Numbers(dir)) }

  method ScanFinalizedFiles(dir: seq<DirFile>) returns (scanned: seq<DirFile>)
    ensures scanned == Scan(dir)
  {
    hide Globs, FileNumber;
    scanned := [];
    var numbers: set<string> := {};
    for i := 0 to |dir|
      invariant scanned == Blks(dir[..i]) && numbers == Numbers(dir[..i])
    {
      assert dir[..i + 1][..i] == dir[..i];
      if Globs(dir[i].name, "blk") && |dir[i].data| >= FINALIZED_THRESHOLD {
        scanned := scanned + [dir[i]];
        var num := FileNumber(dir[i].name);
        if num != "" {
          numbers := numbers + {num};
        }
      }
      NumbersStep(dir, i);
    }
    assert dir[..|dir|] == dir;
    for i := 0 to |dir|
      invariant scanned == Blks(dir) + Revs(dir[..i], numbers)
    {
      assert dir[..i + 1][..i] == dir[..i];
      var num := FileNumber(dir[i].name);
      if Globs(dir[i].name, "rev") && num != "" && num in numbers {
        scanned := scanned + [dir[i]];
      }
    }
  }

  lemma NumbersStep(dir: seq<DirFile>, i: nat)
    requires i < |dir|
    ensures Numbers(dir[..i + 1]) ==
            Numbers(dir[..i])
            + if BigBlk(dir[i]) && FileNumber(dir[i].name) != "" then {FileNumber(dir[i].name)} else {}
  {
    hide Globs, FileNumber;
    assert dir[..i + 1] == dir[..i] + [dir[i]];
  }

  /** What the scan promises: a blk file by its size, an undo file by the size of the blk file of the same number. */
  ghost predicate Finalized(dir: seq<DirFile>, f: DirFile) {
    f in dir &&
    if Globs(f.name, "blk") then |f.data| >= 124 * 1024 * 1024
    else
      && Globs(f.name, "rev") && f.name != "rev.dat"
      && exists g :: g in dir && g.name == "blk" + f.name[3..] && |g.data| >= 124 * 1024 * 1024
  }

  lemma {:induction false} SelectMembers(files: seq<DirFile>, p: DirFile -> bool, f: DirFile)
    ensures f in Select(files, p) <==> f in files && p(f)
  {
    if files != [] {
      SelectMembers(files[..|files| - 1], p, f);
      assert files == files[..|files| - 1] + [files[|files| - 1]];
    }
  }

  lemma {:induction false} SelectAscending(files: seq<DirFile>, p: DirFile -> bool)
    requires Ascending(files)
    ensures Ascending(Select(files, p))
  {
    hide Less;
    if files != [] {
      var front, last := files[..|files| - 1], files[|files| - 1];
      SelectAscending(front, p);
      forall f | f in Select(front, p)
        ensures Less(f.name, last.name)
      {
        SelectMembers(front, p, f);
      }
    }
  }

  lemma NumberOf(prefix: string, mid: string)
    requires prefix == "blk" || prefix == "rev"
    ensures var name := prefix + mid + ".dat";
            Globs(name, prefix) && FileNumber(name) == mid && name[3..] == mid + ".dat"
  {
    var name := prefix + mid + ".dat";
    assert name[..3] == prefix && name[|name| - 4..] == ".dat";
  }

  lemma NameOf(name: string, prefix: string)
    requires Globs(name, prefix) && (prefix == "blk" || prefix == "rev")
    ensures name == prefix + FileNumber(name) + ".dat"
  {
  }

  /** The undo file rev<n>.dat goes with blk<n>.dat. */
  lemma SameNumber(rev: string, blk: string)
    requires Globs(rev, "rev")
    ensures Globs(blk, "blk") && FileNumber(blk) == FileNumber(rev) <==> blk == "blk" + rev[3..]
    ensures FileNumber(rev) == "" <==> rev == "rev.dat"
  {
    hide Globs, FileNumber;
    var num := FileNumber(rev);
    NameOf(rev, "rev");
    NumberOf("rev", num);
    NumberOf("blk", num);
    assert "blk" + num + ".dat" == "blk" + rev[3..];
    if Globs(blk, "blk") {
      NameOf(blk, "blk");
    }
    assert |rev| == |num| + 7;
  }

  lemma RevFinalized(dir: seq<DirFile>, f: DirFile)
    requires Globs(f.name, "rev") && f in dir
    ensures RevOf(Numbers(dir), f) <==> Finalized(dir, f)
  {
    assert !Globs(f.name, "blk") by {
      assert f.name[..3][0] == 'r';
    }
    hide Globs, FileNumber;
    forall g | g in dir
      ensures Globs(g.name, "blk") && FileNumber(g.name) == FileNumber(f.name) <==> g.name == "blk" + f.name[3..]
      ensures FileNumber(f.name) == "" <==> f.name == "rev.dat"
    {
      SameNumber(f.name, g.name);
    }
    if RevOf(Numbers(dir), f) {
      var g :| g in dir && BigBlk(g) && FileNumber(g.name) == FileNumber(f.name);
    }
  }

  /** The scan finds exactly the finalized files. */
  lemma ScanFindsFinalized(dir: seq<DirFile>, f: DirFile)
    ensures f in Scan(dir) <==> Finalized(dir, f)
  {
    SelectMembers(dir, BigBlk, f);
    SelectMembers(dir, f => RevOf(Numbers(dir), f), f);
    hide Globs, FileNumber, Numbers;
    if f in dir && Globs(f.name, "rev") {
      RevFinalized(dir, f);
    }
  }

  /** And lists them in ascending order of path, so that sorting the list by path leaves it alone. */
  lemma ScanAscending(dir: seq<DirFile>)
    requires Ascending(dir)
    ensures Ascending(Scan(dir))
  {
    var blks, revs := Blks(dir), Revs(dir, Numbers(dir));
    SelectAscending(dir, BigBlk);
    SelectAscending(dir, f => RevOf(Numbers(dir), f));
    forall f, g | f in blks && g in revs
      ensures Less(f.name, g.name)
    {
      SelectMembers(dir, BigBlk, f);
      SelectMembers(dir, f => RevOf(Numbers(dir), f), g);
      assert f.name[..3][0] == 'b' && g.name[..3][0] == 'r';
    }
    hide Less, Blks, Revs;
  }

  lemma {:induction false} LessIsStrict(a: string, b: string)
    ensures !(Less(a, b) && Less(b, a))
    decreases |a|
  {
    if a != "" && b != "" {
      LessIsStrict(a[1..], b[1..]);
    }
  }

  /** No other ascending list has the same files. */
  lemma {:induction false} AscendingUnique(s: seq<DirFile>, t: seq<DirFile>)
    requires Ascending(s) && Ascending(t) && forall f :: f in s <==> f in t
    ensures s == t
    decreases |s|
  {
    hide Less;
    if s == [] || t == [] {
      HasMember(s);
      HasMember(t);
    } else {
      FirstOf(s, t);
      forall f
        ensures f in s[1..] <==> f in t[1..]
      {
        RestOf(s, f);
        RestOf(t, f);
      }
      AscendingUnique(s[1..], t[1..]);
      assert s == [s[0]] + s[1..] && t == [t[0]] + t[1..];
    }
  }

  lemma HasMember(s: seq<DirFile>)
    ensures s == [] || exists f :: f in s
  {
    if s != [] {
      assert s[0] in s;
    }
  }

  lemma FirstOf(s: seq<DirFile>, t: seq<DirFile>)
    requires Ascending(s) && Ascending(t) && s != [] && t != [] && s[0] in t && t[0] in s
    ensures s[0] == t[0]
  {
    hide Less;
    LessIsStrict(s[0].name, t[0].name);
  }

  lemma RestOf(s: seq<DirFile>, f: DirFile)
    requires Ascending(s) && s != []
    ensures f in s[1..] <==> f in s && f != s[0]
  {
    hide Less;
    LessIsStrict(s[0].name, s[0].name);
  }

  /** So the scan is the only ascending list of the finalized files. */
  lemma ScanIsTheOnlyOne(dir: seq<DirFile>, s: seq<DirFile>)
    requires Ascending(dir)
    ensures Ascending(s) && (forall f :: f in s <==> Finalized(dir, f)) <==> s == Scan(dir)
  {
    hide Less, Finalized, Scan;
    ScanAscending(dir);
    forall f
      ensures f in Scan(dir) <==> Finalized(dir, f)
    {
      ScanFindsFinalized(dir, f);
    }
    if Ascending(s) && forall f :: f in s <==> Finalized(dir, f) {
      AscendingUnique(s, Scan(dir));
    }
  }
}
