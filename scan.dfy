/**
 * The background folder scan (`_scan_folder_worker`): walk the tree below a
 * selected folder with `os.walk`, add up sizes, files and subfolders, and
 * count files per extension; then post exactly one message.
 */
module Scan {
  import opened Wrappers
  import opened Text
  import opened PosixPath
  import opened ExtHistogram

  /**
   * What the filesystem reports for one file: `os.path.islink`, and the
   * result of `os.path.getsize` (None when it raises OSError).
   */
  datatype FileInfo = FileInfo(name: string, isLink: bool, size: Option<nat>)

  /**
   * The tree below a scanned folder. `readable` says whether listing the
   * directory succeeds; `isLink` marks a symbolic link to a directory, which
   * `os.walk` lists among `dirs` but does not enter (followlinks=False).
   * Every entry that is not a directory for `os.walk` is a `File`.
   */
  datatype Node =
    | Dir(name: string, readable: bool, isLink: bool, children: seq<Node>)
    | File(info: FileInfo)

  /** One `(root, dirs, files)` triple produced by `os.walk`. */
  datatype WalkStep = WalkStep(dirs: seq<string>, files: seq<FileInfo>)

  datatype Aggregate = Aggregate(totalSize: nat, fileCount: nat, folderCount: nat, types: Histogram)

  const Empty := Aggregate(0, 0, 0, [])

  /** The one message a scan posts to `scan_queue`. */
  datatype ScanMessage =
    | Finished(name: string, result: Aggregate)
    | Failed(name: string, error: string)

  function SubdirNames(cs: seq<Node>): (r: seq<string>)
    ensures |r| <= |cs|
  {
    if cs == [] then []
    else (if cs[0].Dir? then [cs[0].name] else []) + SubdirNames(cs[1..])
  }

  function FileInfos(cs: seq<Node>): seq<FileInfo>
  {
    if cs == [] then []
    else (if cs[0].File? then [cs[0].info] else []) + FileInfos(cs[1..])
  }

  /** Whether `os.walk` goes on into a child it listed among `dirs`. */
  predicate Descends(c: Node) { c.Dir? && !c.isLink }

  /**
   * `os.walk(top, topdown=True, onerror=None)`: one step for `top` when it
   * can be listed (the top itself is entered even when it is a link), then
   * the walks of its non-link subdirectories in listing order. A directory
   * that cannot be listed yields nothing, and no error is raised.
   */
  function Walk(top: Node): (steps: seq<WalkStep>)
    ensures steps == [] <==> !(top.Dir? && top.readable)
  {
    match top
    case File(_) => []
    case Dir(_, readable, _, cs) =>
      if readable then [WalkStep(SubdirNames(cs), FileInfos(cs))] + WalkBelow(cs) else []
  }

  function WalkBelow(cs: seq<Node>): seq<WalkStep>
  {
    if cs == [] then []
    else (if Descends(cs[0]) then Walk(cs[0]) else []) + WalkBelow(cs[1..])
  }

  /**
   * `(os.path.splitext(name)[1] or ".no_ext").lower()`; `.no_ext` is
   * already in lower case, so only a real extension is lowered.
   */
  function ExtKey(name: string): (key: string)
    ensures |key| > 0 && key[0] == '.'
  {
    var ext := Extension(name);
    if ext == "" then assert NoExt[0] == '.'; NoExt
    else
      var key := Lower(ext);
      assert key[0] == LowerChar('.');
      key
  }

  const NoExt := ".no_ext"

  /** A normalised extension: a dot, then no further dot or slash, and no upper-case letter. */
  predicate IsExtKey(e: string)
  {
    && |e| > 0 && e[0] == '.'
    && (forall i :: 0 <= i < |e| ==> !IsUpper(e[i]))
    && (forall i :: 1 <= i < |e| ==> e[i] != '.' && e[i] != '/')
  }

  lemma ExtKeyIsExtKey(name: string)
    ensures IsExtKey(ExtKey(name))
  {
    var ext := Extension(name);
    if ext == "" {
      NoExtIsExtKey();
    } else {
      var r := Lower(ext);
      assert r[0] == LowerChar(ext[0]);
      forall i | 1 <= i < |r| ensures r[i] != '.' && r[i] != '/' {
        assert r[i] == LowerChar(ext[i]);
      }
    }
  }

  lemma NoExtIsExtKey()
    ensures IsExtKey(NoExt)
  {
  }

  /**
   * Whether the file enters the totals: a link is never measured; any
   * other file only if `getsize` succeeds.
   */
  predicate Counted(f: FileInfo) { f.isLink || f.size.Some? }

  function Bytes(f: FileInfo): nat
  {
    if !f.isLink && f.size.Some? then f.size.value else 0
  }

  /** The body of the inner `for file_name in files` loop, as a value. */
  function AddFile(a: Aggregate, f: FileInfo): (r: Aggregate)
    ensures r.folderCount == a.folderCount
    ensures r.fileCount == a.fileCount + 1 <==> Counted(f)
    ensures !Counted(f) ==> r == a
  {
    if Counted(f) then
      Aggregate(a.totalSize + Bytes(f), a.fileCount + 1, a.folderCount, Bump(a.types, ExtKey(f.name)))
    else a
  }

  function AddFiles(a: Aggregate, fs: seq<FileInfo>): Aggregate
    decreases fs
  {
    if fs == [] then a else AddFiles(AddFile(a, fs[0]), fs[1..])
  }

  function AddStep(a: Aggregate, st: WalkStep): Aggregate
  {
    AddFiles(a.(folderCount := a.folderCount + |st.dirs|), st.files)
  }

  /** The accumulators after processing `steps`, starting from `a`. */
  function Run(a: Aggregate, steps: seq<WalkStep>): Aggregate
    decreases steps
  {
    if steps == [] then a else Run(AddStep(a, steps[0]), steps[1..])
  }

  function Tally(steps: seq<WalkStep>): Aggregate
  {
    Run(Empty, steps)
  }

  /**
   * What a tree adds to the accumulators, by structural recursion: bytes,
   * counted files and listed subfolders of every directory the walk enters,
   * and how many counted files have the extension key `e`.
   */
  datatype Totals = Totals(bytes: nat, files: nat, folders: nat, withExt: nat)

  const NoTotals := Totals(0, 0, 0, 0)

  function Plus(x: Totals, y: Totals): Totals
  {
    Totals(x.bytes + y.bytes, x.files + y.files, x.folders + y.folders, x.withExt + y.withExt)
  }

  function FileTotals(f: FileInfo, e: string): Totals
  {
    if Counted(f) then Totals(Bytes(f), 1, 0, if ExtKey(f.name) == e then 1 else 0) else NoTotals
  }

  function FilesTotals(fs: seq<FileInfo>, e: string): Totals
  {
    if fs == [] then NoTotals else Plus(FileTotals(fs[0], e), FilesTotals(fs[1..], e))
  }

  /** What one entered directory adds itself: its listed subdirectories and its files. */
  function DirTotals(cs: seq<Node>, e: string): Totals
  {
    Plus(Totals(0, 0, |SubdirNames(cs)|, 0), FilesTotals(FileInfos(cs), e))
  }

  function TreeTotals(top: Node, e: string): Totals
  {
    match top
    case File(_) => NoTotals
    case Dir(_, readable, _, cs) =>
      if readable then Plus(DirTotals(cs, e), BelowTotals(cs, e)) else NoTotals
  }

  function BelowTotals(cs: seq<Node>, e: string): Totals
  {
    if cs == [] then NoTotals
    else Plus(if Descends(cs[0]) then TreeTotals(cs[0], e) else NoTotals, BelowTotals(cs[1..], e))
  }

  /** The accumulators seen as totals, with the histogram's count for `e`. */
  function Measure(a: Aggregate, e: string): Totals
  {
    Totals(a.totalSize, a.fileCount, a.folderCount, CountOf(a.types, e))
  }

  lemma {:induction false} AddFilesMeasure(a: Aggregate, fs: seq<FileInfo>, e: string)
    ensures Measure(AddFiles(a, fs), e) == Plus(Measure(a, e), FilesTotals(fs, e))
    decreases fs
  {
    if fs == [] {
      PlusNone(Measure(a, e));
    } else {
      var rest := FilesTotals(fs[1..], e);
      assert FilesTotals(fs, e) == Plus(FileTotals(fs[0], e), rest);
      AddFileMeasure(a, fs[0], e);
      AddFilesMeasure(AddFile(a, fs[0]), fs[1..], e);
      PlusAssociative(Measure(a, e), FileTotals(fs[0], e), rest);
    }
  }

  lemma AddFileMeasure(a: Aggregate, f: FileInfo, e: string)
    ensures Measure(AddFile(a, f), e) == Plus(Measure(a, e), FileTotals(f, e))
  {
  }

  lemma AddStepMeasure(a: Aggregate, st: WalkStep, e: string)
    ensures Measure(AddStep(a, st), e)
         == Plus(Measure(a, e), Plus(Totals(0, 0, |st.dirs|, 0), FilesTotals(st.files, e)))
  {
    var b := a.(folderCount := a.folderCount + |st.dirs|);
    assert AddStep(a, st) == AddFiles(b, st.files);
    var mb := Measure(b, e);
    assert mb == Plus(Measure(a, e), Totals(0, 0, |st.dirs|, 0));
    AddFilesMeasure(b, st.files, e);
    PlusAssociative(Measure(a, e), Totals(0, 0, |st.dirs|, 0), FilesTotals(st.files, e));
  }

  lemma {:induction false} RunAppend(a: Aggregate, s: seq<WalkStep>, t: seq<WalkStep>)
    ensures Run(a, s + t) == Run(Run(a, s), t)
    decreases s
  {
    if s == [] {
      assert s + t == t;
    } else {
      assert (s + t)[0] == s[0] && (s + t)[1..] == s[1..] + t;
      RunAppend(AddStep(a, s[0]), s[1..], t);
    }
  }

  lemma RunCons(a: Aggregate, st: WalkStep, w: seq<WalkStep>)
    ensures Run(a, [st] + w) == Run(AddStep(a, st), w)
  {
    assert ([st] + w)[0] == st && ([st] + w)[1..] == w;
  }

  lemma {:induction false} RunWalk(a: Aggregate, top: Node, e: string)
    ensures Measure(Run(a, Walk(top)), e) == Plus(Measure(a, e), TreeTotals(top, e))
    decreases top
  {
    if top.Dir? && top.readable {
      var cs := top.children;
      var st := WalkStep(SubdirNames(cs), FileInfos(cs));
      RunCons(a, st, WalkBelow(cs));
      AddStepMeasure(a, st, e);
      RunWalkBelow(AddStep(a, st), cs, e);
    }
  }

  lemma {:induction false} RunWalkBelow(a: Aggregate, cs: seq<Node>, e: string)
    ensures Measure(Run(a, WalkBelow(cs)), e) == Plus(Measure(a, e), BelowTotals(cs, e))
    decreases cs
  {
    if cs != [] {
      var first := if Descends(cs[0]) then Walk(cs[0]) else [];
      var own := if Descends(cs[0]) then TreeTotals(cs[0], e) else NoTotals;
      assert WalkBelow(cs) == first + WalkBelow(cs[1..]);
      assert BelowTotals(cs, e) == Plus(own, BelowTotals(cs[1..], e));
      RunAppend(a, first, WalkBelow(cs[1..]));
      if Descends(cs[0]) {
        RunWalk(a, cs[0], e);
      } else {
        assert Run(a, first) == a;
        PlusNone(Measure(a, e));
      }
      RunWalkBelow(Run(a, first), cs[1..], e);
      PlusAssociative(Measure(a, e), own, BelowTotals(cs[1..], e));
    }
  }

  /**
   * The histogram is a proper dict (distinct keys), every key is a
   * normalised extension, every count is positive, and the counts add up
   * to `fileCount`.
   */
  ghost predicate WellFormed(a: Aggregate)
  {
    && DistinctKeys(a.types)
    && Positive(a.types)
    && Total(a.types) == a.fileCount
    && (forall i :: 0 <= i < |a.types| ==> IsExtKey(a.types[i].ext))
  }

  lemma AddFileWellFormed(a: Aggregate, f: FileInfo)
    requires WellFormed(a)
    ensures WellFormed(AddFile(a, f))
  {
    if Counted(f) {
      var k := ExtKey(f.name);
      var r := Bump(a.types, k);
      BumpDistinct(a.types, k);
      BumpShape(a.types, k);
      ExtKeyIsExtKey(f.name);
      forall i | 0 <= i < |r| ensures IsExtKey(r[i].ext) {
        if i < |a.types| {
          assert r[i].ext == a.types[i].ext;
        }
      }
    }
  }

  lemma {:induction false} RunWellFormed(a: Aggregate, steps: seq<WalkStep>)
    requires WellFormed(a)
    ensures WellFormed(Run(a, steps))
    decreases steps
  {
    if steps != [] {
      var st := steps[0];
      var b := a.(folderCount := a.folderCount + |st.dirs|);
      AddFilesWellFormed(b, st.files);
      RunWellFormed(AddStep(a, st), steps[1..]);
    }
  }

  lemma {:induction false} AddFilesWellFormed(a: Aggregate, fs: seq<FileInfo>)
    requires WellFormed(a)
    ensures WellFormed(AddFiles(a, fs))
    decreases fs
  {
    if fs != [] {
      AddFileWellFormed(a, fs[0]);
      AddFilesWellFormed(AddFile(a, fs[0]), fs[1..]);
    }
  }

  lemma {:induction false} AddFilesFolders(a: Aggregate, fs: seq<FileInfo>)
    ensures AddFiles(a, fs).folderCount == a.folderCount
    decreases fs
  {
    if fs != [] {
      AddFilesFolders(AddFile(a, fs[0]), fs[1..]);
    }
  }

  lemma {:induction false} AddFilesSnoc(a: Aggregate, fs: seq<FileInfo>, f: FileInfo)
    ensures AddFiles(a, fs + [f]) == AddFile(AddFiles(a, fs), f)
    decreases fs
  {
    if fs == [] {
      assert [] + [f] == [f];
    } else {
      assert (fs + [f])[1..] == fs[1..] + [f];
      AddFilesSnoc(AddFile(a, fs[0]), fs[1..], f);
    }
  }

  lemma AddFilesPrefix(a: Aggregate, fs: seq<FileInfo>, j: nat)
    requires j < |fs|
    ensures AddFiles(a, fs[..j + 1]) == AddFile(AddFiles(a, fs[..j]), fs[j])
  {
    assert fs[..j + 1] == fs[..j] + [fs[j]];
    AddFilesSnoc(a, fs[..j], fs[j]);
  }

  /** One counted file moves the accumulators as `AddFile` says. */
  lemma CountedFileStep(a: Aggregate, f: FileInfo, totalSize: nat, fileCount: nat, types: Histogram)
    requires Counted(f)
    requires totalSize == a.totalSize + Bytes(f) && fileCount == a.fileCount + 1
    requires types == Bump(a.types, ExtKey(f.name))
    ensures Aggregate(totalSize, fileCount, a.folderCount, types) == AddFile(a, f)
  {
  }

  lemma AddFilesUnfold(a: Aggregate, fs: seq<FileInfo>, j: nat)
    requires j < |fs|
    ensures AddFiles(a, fs[j..]) == AddFiles(AddFile(a, fs[j]), fs[j + 1..])
  {
    assert fs[j..][0] == fs[j] && fs[j..][1..] == fs[j + 1..];
  }

  lemma RunUnfold(a: Aggregate, w: seq<WalkStep>, i: nat)
    requires i < |w|
    ensures Run(a, w[i..]) == Run(AddStep(a, w[i]), w[i + 1..])
  {
    assert w[i..][0] == w[i] && w[i..][1..] == w[i + 1..];
  }

  /** What the tally of a walk means: the tree totals, in a well-formed aggregate. */
  lemma TallyMeaning(top: Node)
    ensures forall e :: Measure(Tally(Walk(top)), e) == TreeTotals(top, e)
    ensures WellFormed(Tally(Walk(top)))
  {
    forall e ensures Measure(Tally(Walk(top)), e) == TreeTotals(top, e) {
      RunWalk(Empty, top, e);
    }
    RunWellFormed(Empty, Walk(top));
  }

  /**
   * `_scan_folder_worker(folder_path, folder_name_display)`: runs the walk's
   * loops over the accumulators and returns the one message it posts. The
   * totals are those of the tree: the bytes of every measured non-link file,
   * the files that were counted, the subdirectories listed in every entered
   * directory (the top itself not included) and, per extension key, the
   * files carrying it; the histogram is a dict of normalised extensions whose
   * counts add up to the file count.
   */
  method ScanFolderWorker(top: Node, folderName: string) returns (msg: ScanMessage)
    ensures msg == Finished(folderName, Tally(Walk(top)))
    ensures forall e :: Measure(msg.result, e) == TreeTotals(top, e)
    ensures WellFormed(msg.result)
    ensures top.File? || !top.readable ==> msg.result == Empty
  {
    var walk := Walk(top);
    var totalSize: nat, fileCount: nat, folderCount: nat := 0, 0, 0;
    var typeCounts: Histogram := [];
    var i := 0;
    while i < |walk|
      invariant 0 <= i <= |walk|
      invariant Run(Aggregate(totalSize, fileCount, folderCount, typeCounts), walk[i..]) == Tally(walk)
    {
      var step := walk[i];
      RunUnfold(Aggregate(totalSize, fileCount, folderCount, typeCounts), walk, i);
      folderCount := folderCount + |step.dirs|;
      var counted := CountFiles(Aggregate(totalSize, fileCount, folderCount, typeCounts), step.files);
      totalSize, fileCount, typeCounts := counted.totalSize, counted.fileCount, counted.types;
      i := i + 1;
    }
    assert walk[i..] == [];
    msg := Finished(folderName, Aggregate(totalSize, fileCount, folderCount, typeCounts));
    TallyMeaning(top);
    if top.File? || !top.readable {
      NothingWalked(top);
    }
  }

  /** A file, or a directory that cannot be listed, yields no walk step and an all-zero tally. */
  lemma NothingWalked(top: Node)
    requires top.File? || !top.readable
    ensures Walk(top) == [] && Tally(Walk(top)) == Empty
  {
  }

  /**
   * The inner `for file_name in files` loop of one walk step: a link is
   * counted with 0 bytes, another file with its size when `getsize`
   * succeeds, and a file whose size cannot be read is skipped.
   */
  method CountFiles(acc: Aggregate, files: seq<FileInfo>) returns (r: Aggregate)
    ensures r == AddFiles(acc, files)
    ensures r.folderCount == acc.folderCount
  {
    var totalSize: nat, fileCount: nat, typeCounts: Histogram := acc.totalSize, acc.fileCount, acc.types;
    var j := 0;
    while j < |files|
      invariant 0 <= j <= |files|
      invariant Aggregate(totalSize, fileCount, acc.folderCount, typeCounts) == AddFiles(acc, files[..j])
    {
      var f := files[j];
      ghost var current := Aggregate(totalSize, fileCount, acc.folderCount, typeCounts);
      AddFilesPrefix(acc, files, j);
      if f.isLink || f.size.Some? {
        if !f.isLink {
          totalSize := totalSize + f.size.value;
        }
        fileCount := fileCount + 1;
        typeCounts := Bump(typeCounts, ExtKey(f.name));
        CountedFileStep(current, f, totalSize, fileCount, typeCounts);
      }
      j := j + 1;
    }
    assert files[..|files|] == files;
    r := Aggregate(totalSize, fileCount, acc.folderCount, typeCounts);
    AddFilesFolders(acc, files);
  }

  /**
   * A subfolder that is a link or cannot be listed, wherever it stands
   * among its siblings, adds one subfolder to the count and nothing else.
   */
  lemma SubdirNotEnteredCountsOnce(d: Node, cs: seq<Node>, sub: Node, ds: seq<Node>, e: string)
    requires d.Dir? && d.readable && d.children == cs + [sub] + ds
    requires sub.Dir? && (!sub.readable || sub.isLink)
    ensures TreeTotals(d, e) == Plus(Totals(0, 0, 1, 0), TreeTotals(d.(children := cs + ds), e))
  {
    ReadableTotals(d, e);
    ReadableTotals(d.(children := cs + ds), e);
    DirTotalsSplice(cs, sub, ds, e);
    BelowTotalsSplice(cs, sub, ds, e);
    SpliceOne(DirTotals(cs, e), DirTotals(ds, e), BelowTotals(cs, e), BelowTotals(ds, e), Totals(0, 0, 1, 0));
  }

  lemma DirTotalsSplice(cs: seq<Node>, sub: Node, ds: seq<Node>, e: string)
    requires sub.Dir?
    ensures DirTotals(cs + [sub] + ds, e) == Plus(Plus(DirTotals(cs, e), Totals(0, 0, 1, 0)), DirTotals(ds, e))
    ensures DirTotals(cs + ds, e) == Plus(DirTotals(cs, e), DirTotals(ds, e))
  {
    DirTotalsAppend(cs + [sub], ds, e);
    DirTotalsAppend(cs, [sub], e);
    DirTotalsAppend(cs, ds, e);
    SingleSubdirOwn(sub, e);
  }

  lemma BelowTotalsSplice(cs: seq<Node>, sub: Node, ds: seq<Node>, e: string)
    requires sub.Dir? && (!sub.readable || sub.isLink)
    ensures BelowTotals(cs + [sub] + ds, e) == Plus(Plus(BelowTotals(cs, e), NoTotals), BelowTotals(ds, e))
    ensures BelowTotals(cs + ds, e) == Plus(BelowTotals(cs, e), BelowTotals(ds, e))
  {
    BelowTotalsAppend(cs + [sub], ds, e);
    BelowTotalsAppend(cs, [sub], e);
    BelowTotalsAppend(cs, ds, e);
    BelowNotEntered(sub, e);
  }

  lemma SpliceOne(d1: Totals, d3: Totals, b1: Totals, b3: Totals, t: Totals)
    ensures Plus(Plus(Plus(d1, t), d3), Plus(Plus(b1, NoTotals), b3)) == Plus(t, Plus(Plus(d1, d3), Plus(b1, b3)))
  {
  }

  lemma {:induction false} SubdirNamesAppend(a: seq<Node>, b: seq<Node>)
    ensures SubdirNames(a + b) == SubdirNames(a) + SubdirNames(b)
    decreases a
  {
    if a != [] {
      assert (a + b)[1..] == a[1..] + b;
      SubdirNamesAppend(a[1..], b);
    } else {
      assert a + b == b;
    }
  }

  lemma {:induction false} FileInfosAppend(a: seq<Node>, b: seq<Node>)
    ensures FileInfos(a + b) == FileInfos(a) + FileInfos(b)
    decreases a
  {
    if a != [] {
      assert (a + b)[1..] == a[1..] + b;
      FileInfosAppend(a[1..], b);
    } else {
      assert a + b == b;
    }
  }

  lemma {:induction false} FilesTotalsAppend(a: seq<FileInfo>, b: seq<FileInfo>, e: string)
    ensures FilesTotals(a + b, e) == Plus(FilesTotals(a, e), FilesTotals(b, e))
    decreases a
  {
    if a != [] {
      assert (a + b)[0] == a[0] && (a + b)[1..] == a[1..] + b;
      var x := FileTotals(a[0], e);
      assert FilesTotals(a + b, e) == Plus(x, FilesTotals(a[1..] + b, e));
      FilesTotalsAppend(a[1..], b, e);
      assert FilesTotals(a, e) == Plus(x, FilesTotals(a[1..], e));
      PlusAssociative(x, FilesTotals(a[1..], e), FilesTotals(b, e));
    } else {
      assert a + b == b;
      assert FilesTotals(a, e) == NoTotals;
      NonePlus(FilesTotals(b, e));
    }
  }

  /** What directories add themselves is additive over their listing. */
  lemma DirTotalsAppend(a: seq<Node>, b: seq<Node>, e: string)
    ensures DirTotals(a + b, e) == Plus(DirTotals(a, e), DirTotals(b, e))
  {
    SubdirNamesAppend(a, b);
    FileInfosAppend(a, b);
    FilesTotalsAppend(FileInfos(a), FileInfos(b), e);
    DirTotalsParts(a + b, a, b, e);
  }

  /** A directory's own totals split as its subfolder count and its files do. */
  lemma DirTotalsParts(ab: seq<Node>, a: seq<Node>, b: seq<Node>, e: string)
    requires |SubdirNames(ab)| == |SubdirNames(a)| + |SubdirNames(b)|
    requires FilesTotals(FileInfos(ab), e) == Plus(FilesTotals(FileInfos(a), e), FilesTotals(FileInfos(b), e))
    ensures DirTotals(ab, e) == Plus(DirTotals(a, e), DirTotals(b, e))
  {
  }

  lemma {:induction false} BelowTotalsAppend(a: seq<Node>, b: seq<Node>, e: string)
    ensures BelowTotals(a + b, e) == Plus(BelowTotals(a, e), BelowTotals(b, e))
    decreases a
  {
    if a != [] {
      assert (a + b)[0] == a[0] && (a + b)[1..] == a[1..] + b;
      var x := if Descends(a[0]) then TreeTotals(a[0], e) else NoTotals;
      assert BelowTotals(a + b, e) == Plus(x, BelowTotals(a[1..] + b, e));
      BelowTotalsAppend(a[1..], b, e);
      assert BelowTotals(a, e) == Plus(x, BelowTotals(a[1..], e));
      PlusAssociative(x, BelowTotals(a[1..], e), BelowTotals(b, e));
    } else {
      assert a + b == b;
      assert BelowTotals(a, e) == NoTotals;
      NonePlus(BelowTotals(b, e));
    }
  }

  lemma ReadableTotals(d: Node, e: string)
    requires d.Dir? && d.readable
    ensures TreeTotals(d, e) == Plus(DirTotals(d.children, e), BelowTotals(d.children, e))
  {
  }

  lemma SingleSubdirOwn(sub: Node, e: string)
    requires sub.Dir?
    ensures DirTotals([sub], e) == Totals(0, 0, 1, 0)
  {
    assert [sub][1..] == [];
    assert SubdirNames([sub]) == [sub.name] && FileInfos([sub]) == [];
    assert FilesTotals([], e) == NoTotals;
    PlusNone(Totals(0, 0, 1, 0));
  }

  lemma BelowNotEntered(sub: Node, e: string)
    requires sub.Dir? && (!sub.readable || sub.isLink)
    ensures BelowTotals([sub], e) == NoTotals
  {
    BelowSingle(sub, e);
    if Descends(sub) {
      UnreadableTotals(sub, e);
    }
  }

  lemma BelowSingle(c: Node, e: string)
    ensures BelowTotals([c], e) == (if Descends(c) then TreeTotals(c, e) else NoTotals)
  {
    var own := if Descends(c) then TreeTotals(c, e) else NoTotals;
    assert [c][1..] == [];
    assert BelowTotals([], e) == NoTotals;
    assert BelowTotals([c], e) == Plus(own, NoTotals);
    PlusNone(own);
  }

  lemma PlusAssociative(x: Totals, y: Totals, z: Totals)
    ensures Plus(Plus(x, y), z) == Plus(x, Plus(y, z))
  {
  }

  lemma NonePlus(x: Totals)
    ensures Plus(NoTotals, x) == x
  {
  }

  lemma PlusNone(x: Totals)
    ensures Plus(x, NoTotals) == x
  {
  }

  lemma UnreadableTotals(d: Node, e: string)
    requires d.Dir? && !d.readable
    ensures TreeTotals(d, e) == NoTotals
  {
  }

  /**
   * A link is counted as a file of 0 bytes whatever its size; any other
   * file whose size cannot be read is not counted at all.
   */
  lemma FileCounting(f: FileInfo, e: string)
    ensures f.isLink ==> FileTotals(f, e).bytes == 0 && FileTotals(f, e).files == 1
    ensures !f.isLink && f.size.None? ==> FileTotals(f, e) == NoTotals
    ensures !f.isLink && f.size.Some? ==> FileTotals(f, e).bytes == f.size.value && FileTotals(f, e).files == 1
  {
  }

  /** A name with no dot and no slash, such as `a` or `notes`. */
  predicate PlainStem(stem: string)
  {
    |stem| > 0 && forall i :: 0 <= i < |stem| ==> stem[i] != '.' && stem[i] != '/'
  }

  /** A `stem.ext` file name is keyed by its lower-cased extension. */
  lemma ExtKeyOfStem(stem: string, ext: string)
    requires PlainStem(stem)
    requires |ext| > 0 && ext[0] == '.'
    requires forall i :: 1 <= i < |ext| ==> ext[i] != '.' && ext[i] != '/'
    ensures ExtKey(stem + ext) == Lower(ext)
  {
    ExtensionOfStem(stem, ext);
  }

  /** A file name without a dot is keyed `.no_ext`. */
  lemma ExtKeyWithoutDot(name: string)
    requires forall i :: 0 <= i < |name| ==> name[i] != '.'
    ensures ExtKey(name) == ".no_ext"
  {
    ExtensionWithoutDot(name);
  }

  lemma LowerTxt()
    ensures Lower(".txt") == ".txt" && Lower(".TXT") == ".txt"
  {
    var txt := Lower(".txt");
    assert forall i :: 0 <= i < |txt| ==> txt[i] == ".txt"[i];
    var upper := Lower(".TXT");
    assert forall i :: 0 <= i < |upper| ==> upper[i] == ".txt"[i];
  }

  lemma TxtKey(stem: string, ext: string)
    requires PlainStem(stem)
    requires ext == ".txt" || ext == ".TXT"
    ensures ExtKey(stem + ext) == ".txt"
  {
    ExtKeyOfStem(stem, ext);
    LowerTxt();
  }
}
