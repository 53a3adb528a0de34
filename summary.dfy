/**
 * What the information panel shows once a folder scan has posted its
 * message (`_check_scan_queue`): the error, or the totals followed by the
 * extensions ranked by how many files carry them. Python's `sorted` is
 * stable also with `reverse=True`, so extensions with equal counts stay in
 * the order in which the scan first met them. At most ten are listed,
 * followed by how many more there are; an empty histogram is reported as
 * "No files found in contents".
 */
module Summary {
  import opened Wrappers
  import opened ExtHistogram
  import opened StableSort
  import opened Scan

  /** How many extension lines are listed at most. */
  const Shown: nat := 10

  function CountKey(t: TypeCount): nat { t.count }

  /** The order `reverse=True` sorts counts in: a larger count comes first. */
  predicate MoreFrequent(x: nat, y: nat) { x > y }

  lemma MoreFrequentIsOrder()
    ensures StrictTotalOrder(MoreFrequent)
  {
  }

  function Min(a: nat, b: nat): nat { if a < b then a else b }

  /**
   * `sorted(type_counts.items(), key=lambda item: item[1], reverse=True)`:
   * the same entries, with counts that never increase along the list.
   */
  function Ranked(h: Histogram): (r: Histogram)
    ensures multiset(r) == multiset(h)
    ensures |r| == |h|
    ensures forall i, j :: 0 <= i < j < |r| ==> r[i].count >= r[j].count
  {
    MoreFrequentIsOrder();
    SortBySorted(h, CountKey, MoreFrequent);
    SortByPermutes(h, CountKey, MoreFrequent);
    SortBy(h, CountKey, MoreFrequent)
  }

  /** Entries with the same count keep their order in the dict. */
  lemma RankedKeepsTies(h: Histogram, n: nat)
    ensures WithKey(Ranked(h), CountKey, n) == WithKey(h, CountKey, n)
  {
    SortByStable(h, CountKey, MoreFrequent, n);
  }

  /**
   * The ranking is the only list that has counts never increasing and,
   * for every count, the entries carrying it in dict order.
   */
  lemma RankedIsUnique(h: Histogram, r: Histogram)
    requires forall i, j :: 0 <= i < j < |r| ==> r[i].count >= r[j].count
    requires forall n :: WithKey(r, CountKey, n) == WithKey(h, CountKey, n)
    ensures r == Ranked(h)
  {
    MoreFrequentIsOrder();
    StableSortUnique(h, r, CountKey, MoreFrequent);
  }

  /** One printed line `  <label>: <count>`. */
  datatype Line = Line(caption: string, count: nat)

  /** The part of the panel below the totals. */
  datatype TypeReport =
    | NoFilesFound
    | TopTypes(lines: seq<Line>, more: Option<nat>)

  /** `ext if ext else '(no ext)'`. */
  function Label(ext: string): (caption: string)
    ensures |caption| > 0
    ensures caption == "(no ext)" <==> ext == "" || ext == "(no ext)"
  {
    if ext == "" then "(no ext)" else ext
  }

  function LineOf(t: TypeCount): Line
  {
    Line(Label(t.ext), t.count)
  }

  /**
   * The ranked extensions, at most `Shown` of them, and `...and N more
   * types.` when some are left over. The report is empty exactly when
   * the histogram is, lists `min(n, 10)` lines whose counts never
   * increase, and says how many are left out exactly when there are more
   * than ten.
   */
  function Report(h: Histogram): (r: TypeReport)
    ensures r.NoFilesFound? <==> h == []
    ensures r.TopTypes? ==> |r.lines| == Min(|h|, Shown)
    ensures r.TopTypes? ==> forall i, j :: 0 <= i < j < |r.lines| ==> r.lines[i].count >= r.lines[j].count
    ensures r.TopTypes? ==> (r.more.Some? <==> |h| > Shown)
    ensures r.TopTypes? && r.more.Some? ==> r.more.value == |h| - Shown
  {
    if h == [] then NoFilesFound
    else
      var ranked := Ranked(h);
      var n := Min(|ranked|, Shown);
      TopTypes(seq(n, i requires 0 <= i < n => LineOf(ranked[i])),
               if |ranked| > Shown then Some(|ranked| - Shown) else None)
  }

  /**
   * The listing part of `_check_scan_queue`: ranks the histogram, prints the
   * top lines one by one, then the count of the rest.
   */
  method DescribeTypes(h: Histogram) returns (r: TypeReport)
    ensures r == Report(h)
  {
    if h == [] {
      return NoFilesFound;
    }
    var ranked := Ranked(h);
    var n := Min(|ranked|, Shown);
    var lines: seq<Line> := [];
    for i := 0 to n
      invariant |lines| == i
      invariant forall k :: 0 <= k < i ==> lines[k] == LineOf(ranked[k])
    {
      lines := lines + [LineOf(ranked[i])];
    }
    var more := if |ranked| > Shown then Some(|ranked| - Shown) else None;
    r := TopTypes(lines, more);
    ReportFromLines(h, lines);
  }

  /** The lines of the ranked entries, one by one, make up the report. */
  lemma ReportFromLines(h: Histogram, lines: seq<Line>)
    requires h != [] && |lines| == Min(|h|, Shown)
    requires forall k :: 0 <= k < |lines| ==> lines[k] == LineOf(Ranked(h)[k])
    ensures Report(h) == TopTypes(lines, if |h| > Shown then Some(|h| - Shown) else None)
  {
    var ranked := Ranked(h);
    assert lines == seq(|lines|, i requires 0 <= i < |lines| => LineOf(ranked[i]));
  }

  /** Every entry the report lists is an entry of the histogram, and none is listed twice. */
  lemma ReportListsEntries(h: Histogram)
    requires h != []
    ensures multiset(Ranked(h)[..Min(|h|, Shown)]) <= multiset(h)
    ensures forall i :: 0 <= i < Min(|h|, Shown) ==> Report(h).lines[i] == LineOf(Ranked(h)[i])
  {
    var ranked := Ranked(h);
    var n := Min(|h|, Shown);
    assert ranked == ranked[..n] + ranked[n..];
    assert multiset(ranked) == multiset(ranked[..n]) + multiset(ranked[n..]);
  }

  /** No extension left out of the report is more frequent than one it lists. */
  lemma ReportShowsMostFrequent(h: Histogram, i: nat, j: nat)
    requires h != [] && i < Min(|h|, Shown) && Shown <= j < |h|
    ensures Report(h).lines[i].count >= Ranked(h)[j].count
  {
    ReportListsEntries(h);
  }

  /** The panel once a scan has posted its message. */
  datatype Panel =
    | ScanError(name: string, error: string)
    | ScanSummary(name: string, totalSize: nat, files: nat, folders: nat, types: TypeReport)

  /**
   * `_check_scan_queue` for one message: an error panel exactly for a failed
   * scan, always under the scanned folder's name; for a finished scan the
   * three totals of the message and the report of its histogram, with the
   * "No files found" text exactly when no extension was counted.
   */
  function Show(msg: ScanMessage): (r: Panel)
    ensures r.ScanError? <==> msg.Failed?
    ensures r.name == msg.name
    ensures msg.Finished? ==> r.totalSize == msg.result.totalSize && r.files == msg.result.fileCount
    ensures msg.Finished? ==> (r.types.NoFilesFound? <==> msg.result.types == [])
    ensures msg.Finished? ==> r.folders == msg.result.folderCount && r.types == Report(msg.result.types)
  {
    match msg
    case Failed(name, error) => ScanError(name, error)
    case Finished(name, a) => ScanSummary(name, a.totalSize, a.fileCount, a.folderCount, Report(a.types))
  }

  /** Ranking keeps every entry, so a property of all keys survives it. */
  lemma RankedExtKeys(h: Histogram)
    requires forall i :: 0 <= i < |h| ==> IsExtKey(h[i].ext)
    ensures forall i :: 0 <= i < |Ranked(h)| ==> IsExtKey(Ranked(h)[i].ext)
  {
    var ranked := Ranked(h);
    forall i | 0 <= i < |ranked| ensures IsExtKey(ranked[i].ext) {
      assert ranked[i] in multiset(h);
      var j :| 0 <= j < |h| && h[j] == ranked[i];
    }
  }

  /**
   * For a well-formed scan result, "No files found in contents" is shown
   * exactly when the scan counted no file, and no listed extension is
   * labelled `(no ext)`: files without one are counted under `.no_ext`.
   */
  lemma ReportOfScan(a: Aggregate)
    requires WellFormed(a)
    ensures Report(a.types).NoFilesFound? <==> a.fileCount == 0
    ensures Report(a.types).TopTypes? ==>
              forall i :: 0 <= i < |Report(a.types).lines| ==>
                Report(a.types).lines[i].caption != "(no ext)" && Report(a.types).lines[i].caption[0] == '.'
  {
    PositiveTotal(a.types);
    if a.types != [] {
      var ranked := Ranked(a.types);
      var lines := Report(a.types).lines;
      ReportListsEntries(a.types);
      RankedExtKeys(a.types);
      forall i | 0 <= i < |lines| ensures lines[i].caption != "(no ext)" && lines[i].caption[0] == '.' {
        assert lines[i].caption == ranked[i].ext;
      }
    }
  }

  /**
   * The panel for a scanned tree: its totals are those of the tree, and
   * "No files found in contents" appears exactly when no file in the tree
   * was counted.
   */
  lemma PanelOfTree(top: Node, name: string, e: string)
    ensures Show(Finished(name, Tally(Walk(top)))).totalSize == TreeTotals(top, e).bytes
    ensures Show(Finished(name, Tally(Walk(top)))).files == TreeTotals(top, e).files
    ensures Show(Finished(name, Tally(Walk(top)))).folders == TreeTotals(top, e).folders
    ensures Show(Finished(name, Tally(Walk(top)))).types.NoFilesFound? <==> TreeTotals(top, e).files == 0
  {
    TallyMeaning(top);
    assert Measure(Tally(Walk(top)), e) == TreeTotals(top, e);
    ReportOfScan(Tally(Walk(top)));
  }
}
