/**
 * The file list of the explorer window (`populate_treeview`): every name
 * `os.listdir` returns is probed with `isdir` and `getsize`, the entries
 * are sorted folders first and then by lower-cased name, and each becomes
 * one row with a type label. An empty directory shows a single "(empty)"
 * row. The probes themselves are inputs: the model sees only what each
 * probe returned.
 */
module Listing {
  import opened Wrappers
  import opened Text
  import opened PosixPath
  import opened StableSort

  /**
   * What probing one listed name found: whether `isdir` said it is a
   * directory and, for a non-directory, the size `getsize` returned
   * (`None` when `getsize` raised `OSError`).
   */
  datatype Probe = Probe(name: string, isDir: bool, size: Option<nat>)

  /**
   * The tuple `(name, is_dir, size)` kept for one name; `isDir` is `None`
   * for an entry whose probe failed ("unknown").
   */
  datatype Entry = Entry(name: string, isDir: Option<bool>, size: Option<nat>)

  /** The inner `try`: a directory, a file with its size, or an unknown entry. */
  function ToEntry(p: Probe): (e: Entry)
    ensures e.name == p.name
    ensures e.isDir == Some(true) <==> p.isDir
    ensures e.isDir == None <==> !p.isDir && p.size == None
    ensures e.size.Some? <==> !p.isDir && p.size.Some?
    ensures e.size.Some? ==> e.size == p.size
  {
    if p.isDir then Entry(p.name, Some(true), None)
    else if p.size.Some? then Entry(p.name, Some(false), p.size)
    else Entry(p.name, None, None)
  }

  /** The entries in the order `listdir` returned the names. */
  function Entries(probes: seq<Probe>): (es: seq<Entry>)
    ensures |es| == |probes|
  {
    if probes == [] then [] else [ToEntry(probes[0])] + Entries(probes[1..])
  }

  lemma {:induction false} EntriesSnoc(probes: seq<Probe>, i: nat)
    requires i < |probes|
    ensures Entries(probes[..i + 1]) == Entries(probes[..i]) + [ToEntry(probes[i])]
  {
    if i > 0 {
      assert probes[..i + 1][1..] == probes[1..][..i];
      assert probes[..i][1..] == probes[1..][..i - 1];
      EntriesSnoc(probes[1..], i - 1);
    } else {
      assert probes[..1][1..] == [];
    }
  }

  lemma {:induction false} EntriesAt(probes: seq<Probe>)
    ensures forall i :: 0 <= i < |probes| ==> Entries(probes)[i] == ToEntry(probes[i])
  {
    if probes != [] {
      EntriesAt(probes[1..]);
      assert Entries(probes) == [ToEntry(probes[0])] + Entries(probes[1..]);
      forall i | 1 <= i < |probes| ensures Entries(probes)[i] == ToEntry(probes[i]) {
        assert Entries(probes)[i] == Entries(probes[1..])[i - 1];
        assert probes[1..][i - 1] == probes[i];
      }
    }
  }

  predicate IsFolder(e: Entry) { e.isDir == Some(true) }

  /**
   * The sort key `(not is_dir if is_dir is not None else True, name.lower())`:
   * `afterFolders` is false only for directories, so unknown entries sort
   * with the files.
   */
  datatype SortKey = SortKey(afterFolders: bool, lowered: string)

  function EntryKey(e: Entry): (k: SortKey)
    ensures !k.afterFolders <==> IsFolder(e)
    ensures |k.lowered| == |e.name|
  {
    SortKey(if e.isDir.Some? then !e.isDir.value else true, Lower(e.name))
  }

  /** Python's `<` on the key tuples: `False < True` first, then the names. */
  predicate KeyLt(a: SortKey, b: SortKey)
  {
    (!a.afterFolders && b.afterFolders)
    || (a.afterFolders == b.afterFolders && Below(a.lowered, b.lowered))
  }

  lemma KeyLtIsOrder()
    ensures StrictTotalOrder(KeyLt)
  {
    forall a: SortKey ensures !KeyLt(a, a) {
      BelowIrreflexive(a.lowered);
    }
    forall a: SortKey, b: SortKey, c: SortKey | KeyLt(a, b) && KeyLt(b, c) ensures KeyLt(a, c) {
      if a.afterFolders == b.afterFolders == c.afterFolders {
        BelowTransitive(a.lowered, b.lowered, c.lowered);
      }
    }
    forall a: SortKey, b: SortKey ensures a == b || KeyLt(a, b) || KeyLt(b, a) {
      BelowTotal(a.lowered, b.lowered);
    }
  }

  /** `entries.sort(key=...)`. */
  function Arrange(probes: seq<Probe>): (sorted: seq<Entry>)
    ensures |sorted| == |probes|
  {
    SortBy(Entries(probes), EntryKey, KeyLt)
  }

  /**
   * The sorted entries are the entries read, every folder comes before
   * every file or unknown entry, and within each of the two groups the
   * lower-cased names never decrease.
   */
  lemma ArrangeOrder(probes: seq<Probe>)
    ensures multiset(Arrange(probes)) == multiset(Entries(probes))
    ensures forall i, j :: 0 <= i < j < |Arrange(probes)| && IsFolder(Arrange(probes)[j]) ==> IsFolder(Arrange(probes)[i])
    ensures forall i, j :: 0 <= i < j < |Arrange(probes)| && IsFolder(Arrange(probes)[i]) == IsFolder(Arrange(probes)[j]) ==>
              !Below(Lower(Arrange(probes)[j].name), Lower(Arrange(probes)[i].name))
  {
    KeyLtIsOrder();
    SortBySorted(Entries(probes), EntryKey, KeyLt);
    SortByPermutes(Entries(probes), EntryKey, KeyLt);
  }

  /**
   * The sort is stable: entries with the same key (names equal up to case,
   * in the same group) keep the order `listdir` gave them.
   */
  lemma ArrangeKeepsTies(probes: seq<Probe>, k: SortKey)
    ensures WithKey(Arrange(probes), EntryKey, k) == WithKey(Entries(probes), EntryKey, k)
  {
    KeyLtIsOrder();
    SortByStable(Entries(probes), EntryKey, KeyLt, k);
  }

  /** Any ordering that is sorted by the key and stable is the one `Arrange` gives. */
  lemma ArrangeIsUnique(probes: seq<Probe>, r: seq<Entry>)
    requires SortedBy(r, EntryKey, KeyLt)
    requires forall k :: WithKey(r, EntryKey, k) == WithKey(Entries(probes), EntryKey, k)
    ensures r == Arrange(probes)
  {
    KeyLtIsOrder();
    StableSortUnique(Entries(probes), r, EntryKey, KeyLt);
  }

  /** The Type column: `Folder` for a folder, otherwise the extension, or `File` without one, upper-cased. */
  function TypeLabel(e: Entry): (tag: string)
    ensures tag == "Folder" <==> IsFolder(e)
    ensures !IsFolder(e) ==> |tag| > 0 && (tag[0] == '.' <==> Extension(e.name) != "")
  {
    if IsFolder(e) then "Folder"
    else
      var ext := Extension(e.name);
      var tag := Upper(if ext == "" then "File" else ext);
      assert tag[0] == UpperChar(if ext == "" then 'F' else '.');
      assert ext == "" ==> tag[1] == UpperChar('i');
      tag
  }

  /**
   * The label reads "Folder" exactly for directories; any other entry,
   * unknown ones included, gets its upper-cased extension or "FILE".
   */
  lemma TypeLabelCases(e: Entry)
    ensures TypeLabel(e) == "Folder" <==> IsFolder(e)
    ensures !IsFolder(e) && Extension(e.name) == "" ==> TypeLabel(e) == "FILE"
    ensures !IsFolder(e) && Extension(e.name) != "" ==>
              |TypeLabel(e)| == |Extension(e.name)| && TypeLabel(e)[0] == '.'
    ensures !IsFolder(e) && Extension(e.name) != "" ==>
              forall i :: 0 <= i < |TypeLabel(e)| ==> TypeLabel(e)[i] == UpperChar(Extension(e.name)[i])
    ensures !IsFolder(e) ==> forall i :: 0 <= i < |TypeLabel(e)| ==> !IsLower(TypeLabel(e)[i])
  {
    if !IsFolder(e) {
      var ext := Extension(e.name);
      if ext == "" {
        assert Upper("File") == "FILE";
      } else {
        assert TypeLabel(e)[0] == UpperChar('.');
        assert TypeLabel(e) != "Folder";
      }
    }
  }

  /** A file named `stem + ext`, with a dot-free stem, is labelled with the upper-cased `ext`. */
  lemma TypeLabelOfStem(stem: string, ext: string, isDir: Option<bool>, size: Option<nat>)
    requires isDir != Some(true)
    requires |stem| > 0 && forall i :: 0 <= i < |stem| ==> stem[i] != '.' && stem[i] != '/'
    requires |ext| > 0 && ext[0] == '.'
    requires forall i :: 1 <= i < |ext| ==> ext[i] != '.' && ext[i] != '/'
    ensures TypeLabel(Entry(stem + ext, isDir, size)) == Upper(ext)
  {
    ExtensionOfStem(stem, ext);
  }

  /** The icon drawn before a row; the "(empty)" row has none. */
  datatype Icon = FolderIcon | FileIcon | NoIcon

  /** One row of the list: name, type label, and the size (shown empty when unknown). */
  datatype Row = Row(name: string, typeLabel: string, size: Option<nat>, icon: Icon)

  const EmptyRow := Row("(empty)", "", None, NoIcon)

  function RowOf(e: Entry): Row
  {
    Row(e.name, TypeLabel(e), e.size, if IsFolder(e) then FolderIcon else FileIcon)
  }

  /** One row per entry, in the order of the entries. */
  function RowsOf(es: seq<Entry>): (rows: seq<Row>)
    ensures |rows| == |es|
  {
    if es == [] then [] else [RowOf(es[0])] + RowsOf(es[1..])
  }

  lemma RowsOfAt(es: seq<Entry>)
    ensures forall i :: 0 <= i < |es| ==> RowsOf(es)[i] == RowOf(es[i])
  {
    forall i | 0 <= i < |es| ensures RowsOf(es)[i] == RowOf(es[i]) {
      RowOfIndex(es, i);
    }
  }

  lemma {:induction false} RowOfIndex(es: seq<Entry>, i: nat)
    requires i < |es|
    ensures RowsOf(es)[i] == RowOf(es[i])
    decreases i
  {
    if i > 0 {
      RowOfIndex(es[1..], i - 1);
      assert es[1..][i - 1] == es[i];
    }
  }

  lemma {:induction false} RowsOfSnoc(es: seq<Entry>, i: nat)
    requires i < |es|
    ensures RowsOf(es[..i + 1]) == RowsOf(es[..i]) + [RowOf(es[i])]
  {
    if i > 0 {
      assert es[..i + 1][1..] == es[1..][..i];
      assert es[..i][1..] == es[1..][..i - 1];
      RowsOfSnoc(es[1..], i - 1);
    } else {
      assert es[..1][1..] == [];
    }
  }

  /**
   * The rows `populate_treeview` inserts: one per entry in sorted order,
   * or the single "(empty)" row when the directory has no entries.
   */
  function Rows(probes: seq<Probe>): (rows: seq<Row>)
    ensures probes == [] ==> rows == [EmptyRow]
    ensures probes != [] ==> |rows| == |probes|
  {
    var sorted := Arrange(probes);
    if sorted == [] then [EmptyRow] else RowsOf(sorted)
  }

  /**
   * The listing loop of `populate_treeview`: probe results are collected
   * into entries, the entries are sorted, each becomes a row, and an
   * empty list gets the "(empty)" row.
   */
  method Populate(probes: seq<Probe>) returns (rows: seq<Row>)
    ensures rows == Rows(probes)
  {
    var entries: seq<Entry> := [];
    for i := 0 to |probes|
      invariant entries == Entries(probes[..i])
    {
      EntriesSnoc(probes, i);
      entries := entries + [ToEntry(probes[i])];
    }
    assert probes[..|probes|] == probes;
    entries := SortBy(entries, EntryKey, KeyLt);
    rows := [];
    for i := 0 to |entries|
      invariant rows == RowsOf(entries[..i])
    {
      RowsOfSnoc(entries, i);
      rows := rows + [RowOf(entries[i])];
    }
    assert entries[..|entries|] == entries;
    if rows == [] {
      rows := [EmptyRow];
    }
  }

  /** Folder rows come before all other rows. */
  lemma RowsFoldersFirst(probes: seq<Probe>, i: nat, j: nat)
    requires i < j < |probes|
    ensures Rows(probes)[j].icon == FolderIcon ==> Rows(probes)[i].icon == FolderIcon
  {
    ArrangeOrder(probes);
    RowsOfAt(Arrange(probes));
    assert Rows(probes) == RowsOf(Arrange(probes));
  }

  /** A row has the folder icon exactly when its type reads "Folder". */
  lemma RowLabelMatchesIcon(probes: seq<Probe>, i: nat)
    requires i < |probes|
    ensures Rows(probes)[i].typeLabel == "Folder" <==> Rows(probes)[i].icon == FolderIcon
  {
    var sorted := Arrange(probes);
    assert Rows(probes) == RowsOf(sorted);
    RowsOfAt(sorted);
    TypeLabelCases(sorted[i]);
  }

  /** Every row of a non-empty listing shows a name that `listdir` returned. */
  lemma RowNameListed(probes: seq<Probe>, i: nat)
    requires i < |probes|
    ensures exists k :: 0 <= k < |probes| && probes[k].name == Rows(probes)[i].name
  {
    var sorted := Arrange(probes);
    var es := Entries(probes);
    ArrangeOrder(probes);
    RowsOfAt(sorted);
    assert Rows(probes)[i].name == sorted[i].name;
    assert sorted[i] in multiset(es);
    var k :| 0 <= k < |es| && es[k] == sorted[i];
    EntriesAt(probes);
    assert probes[k].name == es[k].name;
  }
}
