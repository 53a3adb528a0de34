# File Explorer Lite — a verified model of its core

File Explorer Lite (`app.py`) is a small Tkinter file browser. This project
models the parts of it that decide behaviour, independent of the GUI:

- **Navigation history** (`Navigation`): the path, the back/forward history
  with its index, the path entry text, the listing shown, and the enabled
  state of the Back/Forward/Up buttons. The application object is modelled as
  the class `Navigation.Explorer`. Its methods `NavigateTo`, `GoBack`,
  `GoForward`, `GoUp`, `UpdateNavButtons`, `Populate` and its constructor
  update the fields in place. Each method is proved equal to a pure
  transition function on `NavState` (`Navigate`, `Back`, `Forward`, `Up`,
  `Buttons`, `Populated`, `Initial`), and the properties of history and
  buttons are lemmas about those functions.
- **Directory listing** (`Listing`): how `populate_treeview` turns what it
  learns about each entry into rows. This covers the sort key "folders first,
  then by lower-cased name", the type label (`Folder`, the upper-cased
  extension, or `FILE`) and the `(empty)` row. `Listing.Populate` builds the
  rows with loops and is proved equal to `Listing.Rows`.
- **Folder scan** (`Scan`, `ExtHistogram`): `_scan_folder_worker` walks a
  folder tree with `os.walk`. It counts subfolders and files, sums file sizes,
  and keeps an insertion-ordered histogram of lower-cased extensions. The
  method `Scan.ScanFolderWorker` runs the walk with loops. It is proved to
  produce the totals of an independent recursive definition over the tree
  (`TreeTotals`).
- **Scan summary** (`Summary`): what `_check_scan_queue` shows. Extensions
  are ranked by count with Python's stable `sorted(..., reverse=True)`. The
  top ten are listed, followed by "...and N more types." when there are more,
  or "No files found in contents." when there are none.
- Support modules:
  - `Text`: ASCII `lower()` and `upper()`, and string ordering.
  - `PosixPath`: `splitext`, `dirname`, `join` and `abspath`.
  - `StableSort`: a stable sort by key, with the result proved sorted,
    stable, and the unique such permutation. This models `list.sort` and
    `sorted`.
  - `Wrappers`: `Option`.

The file system is an input to the model, not something the model does:

- The directories that exist are `Navigation.Dirs`, a map from absolute path
  to the probes of its entries.
- One entry of a listing is a `Listing.Probe`: its name, whether `isdir`
  said it is a folder, and the size `getsize` returned, if any.
- A scanned tree is a `Scan.Node`.
- The process's working directory is the `cwd` parameter.

Behaviour worth knowing, as the code has it:

- Entries whose type cannot be determined sort together with the files,
  because their key's first component is `True`.
- Extensions with equal counts keep the order in which the scan first met
  them. They are not ordered by extension.
- A file whose size cannot be read is skipped entirely: it is not counted and
  its extension is not recorded. A symbolic link to a file is counted with
  size 0.
- Scans carry no generation token, so a late result is not discarded.
- An unreadable or non-directory top folder produces a successful, all-zero
  result rather than an error.
- After a back move to a folder that no longer exists, the history index has
  already moved, but the path, the listing and the button states stay as they
  were (`BackToMissingFolder`).

## Model

| member | source | states |
|---|---|---|
| Navigation.Explorer.constructor | app.py:38-40 | The history is the single entry `cwd`, the index is 0, the listing is that of `cwd`, and Back and Forward are disabled. |
| Navigation.InitialState | app.py:38-40 | The initial state is well formed: its history holds only the working directory, both history buttons are disabled, and the listing is that directory's. |
| Navigation.Explorer.Populate | app.py:147-150 | The current path and the entry text become the absolute path. The rows shown are `Rows` of that directory's probes. History, index and buttons are unchanged. |
| Navigation.Explorer.NavigateTo | app.py:197-217 | The new state is `Navigate` of the old one. The object invariant is kept: `0 <= index < len(history)`, every path is absolute, and the rows shown are those of the listed entries. For a directory, the rows are its listing. Otherwise the rows are unchanged and only the entry text is reset to the current path. |
| Navigation.Navigate | app.py:197-217 | The index always points into the history. A navigation with `add_to_history=False` leaves the history and the index as they were. |
| Navigation.Record | app.py:206-212 | After recording, the index is on the last history entry, and that entry is the current path. |
| Navigation.Explorer.Open | app.py:199-214 | For a target that is a directory, the folder is shown and listed, recorded in history when asked, and the buttons are brought up to date. The rows are those of the listed entries. |
| Navigation.Explorer.RecordHistory | app.py:204-212 | The history becomes the entries up to the index, with the current path appended unless it is already last. The index becomes the last position. |
| Navigation.NavigateRecords | app.py:204-212 | A successful navigation that records history drops the forward entries. It appends the target exactly when the target differs from the last kept entry. The index ends on the last entry, which equals the current path, and Forward is disabled. |
| Navigation.RecordKeepsPrefix | app.py:206-212 | Recording keeps the history up to the index. It appends the current path only when that differs from the last kept entry, and it changes nothing but history and index. |
| Navigation.NavigateFails | app.py:197-217 | Navigating to a path that is not a directory changes nothing except resetting the entry text to the current path. |
| Navigation.NavigateWithoutRecording | app.py:197-214 | A navigation with `add_to_history=False` opens the folder and updates the buttons but leaves history and index untouched. |
| Navigation.NavigateValid | app.py:197-217 | Navigation preserves `0 <= index < len(history)` and keeps every path absolute. |
| Navigation.Explorer.GoBack | app.py:355-360 | The new state is `Back` of the old one. The object invariant is kept, so the rows shown are always those of the listed entries. |
| Navigation.Back | app.py:355-360 | Back never changes the history. It lowers the index by one exactly when the index was positive, and otherwise leaves it. |
| Navigation.Explorer.StepTo | app.py:356-358 | Moving the index to an entry and opening that entry without recording yields `Navigate` from the state with the new index, and keeps the object invariant. |
| Navigation.Explorer.WrapToLast | app.py:359-360 | The forced back move at index 0 yields `Back` with `force_previous=True`, and keeps the object invariant. |
| Navigation.BackValid | app.py:355-360 | A back move, forced or not, preserves the history invariant. |
| Navigation.BackStep | app.py:356-358 | When the index is positive, back decrements it by one and never changes the history. If the previous entry is a directory, it becomes the current path and the buttons agree with the new state. |
| Navigation.BackAtStart | app.py:355-360 | At index 0 an unforced back changes nothing. |
| Navigation.ForcedBackAtStart | app.py:359-360 | At index 0 a forced back opens the last history entry without moving the index or changing the history. |
| Navigation.BackToMissingFolder | app.py:356-358 | If the previous entry is no longer a directory, the index still moves back one. The path, listing and buttons stay as they were, so the entry at the index no longer matches the current path and Back can stay enabled at index 0. |
| Navigation.Explorer.GoForward | app.py:362-365 | The new state is `Forward` of the old one. The object invariant is kept, so the rows shown are always those of the listed entries. |
| Navigation.Forward | app.py:362-365 | Forward never changes the history. It raises the index by one exactly when the index was below the last entry, and otherwise leaves it. |
| Navigation.ForwardValid | app.py:362-365 | A forward move preserves the history invariant. |
| Navigation.ForwardStep | app.py:363-365 | Below the last entry, forward increments the index by one and never changes the history. If the next entry is a directory, it becomes the current path. |
| Navigation.ForwardAtEnd | app.py:362-365 | At the last entry, forward changes nothing. |
| Navigation.BackThenForward | app.py:355-365 | Back followed by forward, when both entries are directories, returns to the same index, history, path and listing. |
| Navigation.NavigateThenBack | app.py:355-358 | From the end of the history, navigating to a new folder and then going back returns to the previous folder and index. The history keeps the new folder, and Forward becomes enabled. |
| Navigation.Explorer.GoUp | app.py:350-353 | The new state is `Up` of the old one. The object invariant is kept, so the rows shown are always those of the listed entries. |
| Navigation.Up | app.py:350-353 | After going up, the current path is either unchanged or the parent of the old one. |
| Navigation.UpValid | app.py:350-353 | Going up preserves the history invariant. |
| Navigation.UpAtRoot | app.py:351-352 | At the root, whose parent is itself, going up changes nothing. |
| Navigation.UpToParent | app.py:350-353 | Elsewhere, going up opens the parent directory, the history entry at the new index is that parent, and the buttons agree with the new state. |
| Navigation.Explorer.UpdateNavButtons | app.py:371-375 | The buttons are set from the state and nothing else changes. |
| Navigation.Buttons | app.py:371-375 | Back is enabled exactly when the index is positive, Forward exactly when it is below the last entry, and Up exactly when the parent differs from the current path. Nothing but the three buttons changes. |
| Navigation.ButtonsMatchMoves | app.py:372-375 | Back is enabled exactly when back would move the index, Forward exactly when forward would, and Up exactly when the parent differs from the current path. |
| Listing.ToEntry | app.py:158-163 | The name is kept. The entry is a folder exactly when `isdir` said so. Its type is unknown exactly when `getsize` failed on a non-folder. It has a size exactly for a readable non-folder. |
| Listing.EntriesAt | app.py:154-163 | The i-th collected entry is the i-th name's entry. |
| Listing.EntryKey | app.py:181 | The first component of the key is `False` exactly for folders, so folders sort first. The second is the name lower-cased, of the same length. `KeyLtIsOrder` and `ArrangeOrder` state the order. |
| Listing.KeyLtIsOrder | app.py:181 | Comparison of the sort key tuple is a strict total order. |
| Listing.Arrange | app.py:181 | There is one sorted entry per name listed. `ArrangeOrder` states the order and the permutation. |
| Listing.ArrangeOrder | app.py:181 | The sorted entries are a permutation of the collected ones. Folders come before everything else, and within each group the lower-cased names never decrease. |
| Listing.ArrangeKeepsTies | app.py:181 | Entries with equal keys keep their listing order, because the sort is stable. |
| Listing.ArrangeIsUnique | app.py:181 | Any list that is sorted by the key and stable is exactly the sorted listing. |
| Listing.TypeLabel | app.py:185 | The label is `Folder` exactly for folders. A non-folder's label is not empty, and it starts with a dot exactly when the name has an extension. |
| Listing.TypeLabelCases | app.py:185 | The label is `Folder` exactly for folders. A non-folder without an extension gets `FILE`. Otherwise the label has the extension's length, and each of its characters is the upper-cased character of the extension at the same position, dot included. A non-folder's label contains no lower-case letter. |
| Listing.TypeLabelOfStem | app.py:185 | `name.ext` that is not a folder is labelled with `ext` upper-cased. |
| Listing.Rows | app.py:183-193 | An empty folder shows exactly the `(empty)` row. Otherwise there is one row per entry. |
| Listing.Populate | app.py:154-193 | The loops that collect, sort and insert rows produce exactly `Rows`. |
| Listing.RowsFoldersFirst | app.py:181-184 | No folder row follows a non-folder row. |
| Listing.RowLabelMatchesIcon | app.py:184-185 | A row is labelled `Folder` exactly when it has the folder icon. |
| Listing.RowNameListed | app.py:183-190 | Every row shows the name of some listed entry. |
| Listing.RowsOfAt | app.py:183-190 | The i-th row is the row for the i-th sorted entry. |
| Scan.ScanFolderWorker | app.py:261-291 | The worker posts a finished message whose totals are those of the tree: bytes, counted files, subfolders found, and, for every extension key, the number of counted files with that key. The histogram is well formed: its keys are distinct and its counts sum to the file count. An unreadable or non-directory top gives all zeros. |
| Scan.CountFiles | app.py:271-281 | The inner loop adds each file in turn and leaves the folder count alone. |
| Scan.TallyMeaning | app.py:268-281 | Running the walk gives the tree's totals for every extension, and a well-formed aggregate. |
| Scan.Walk | app.py:268-270 | `os.walk` yields no step exactly when the top is not a directory that can be listed. |
| Scan.RunWalk | app.py:268-270 | The walk of a tree adds exactly that tree's totals to whatever was accumulated before. |
| Scan.RunWalkBelow | app.py:268-270 | The walks of sibling subfolders add exactly their totals. |
| Scan.AddFilesMeasure | app.py:271-281 | Counting a list of files adds exactly those files' totals. |
| Scan.AddFile | app.py:273-278 | One file never changes the folder count. The file count grows by one exactly when the file is counted, and a file that is not counted changes nothing. |
| Scan.FileCounting | app.py:273-281 | A link is counted with 0 bytes. A file with a readable size is counted with that size. A file whose size cannot be read is not counted at all. |
| Scan.SubdirNotEnteredCountsOnce | app.py:268-270 | Wherever it stands among its siblings, a subfolder that is a link or cannot be listed adds exactly one folder to its parent's totals and nothing else. |
| Scan.UnreadableTotals | app.py:268-269 | A folder that cannot be listed contributes nothing. |
| Scan.RunWellFormed | app.py:268-281 | Accumulation keeps the histogram keys distinct and positive, and their counts sum to the file count. |
| Scan.AddFileWellFormed | app.py:273-278 | Counting one file keeps the aggregate well formed. |
| Scan.ExtKey | app.py:277 | The histogram key of a name is never empty and starts with a dot. `ExtKeyIsExtKey` and the rows after it state the rest. |
| Scan.ExtKeyIsExtKey | app.py:277 | The key `ExtKey` computes for any name starts with a dot, has no upper-case letter, and has no other dot or slash. This holds for `.no_ext` and for every lower-cased extension. |
| Scan.ExtKeyOfStem | app.py:277 | `stem.Ext` is counted under `.ext` lower-cased. |
| Scan.ExtKeyWithoutDot | app.py:277 | A name without a dot is counted under `.no_ext`. |
| Scan.TxtKey | app.py:277 | `a.txt` and `a.TXT` are counted under the same key, `.txt`. |
| ExtHistogram.Bump | app.py:278 | Incrementing one extension adds one to its count and leaves every other count alone, so the total grows by one. |
| ExtHistogram.BumpAppends | app.py:278 | A new extension is appended at the end with count 1, and only a new extension lengthens the dict. |
| ExtHistogram.BumpShape | app.py:278 | The keys keep their insertion order, and positive counts stay positive. |
| ExtHistogram.BumpDistinct | app.py:278 | The keys stay distinct. |
| ExtHistogram.PositiveTotal | app.py:305 | With positive counts, the dict is empty exactly when no file was counted. |
| Summary.Ranked | app.py:307 | The ranking is a permutation of the histogram with counts that never increase. |
| Summary.RankedKeepsTies | app.py:307 | Extensions with equal counts keep their dict order. |
| Summary.RankedIsUnique | app.py:307 | Any stable non-increasing arrangement of the histogram is the ranking. |
| Summary.Label | app.py:309 | The caption printed for an extension is never empty. It is `(no ext)` exactly for the empty extension, or for an extension already spelled `(no ext)`. |
| Summary.Report | app.py:305-313 | "No files found" appears exactly when the histogram is empty. Otherwise `min(n, 10)` lines with non-increasing counts are listed, and "...and n-10 more" appears exactly when n > 10. |
| Summary.DescribeTypes | app.py:305-313 | The loop that prints the top lines produces exactly `Report`. |
| Summary.ReportListsEntries | app.py:307-309 | The listed lines are the first entries of the ranking, each shown at most once. |
| Summary.ReportShowsMostFrequent | app.py:307-311 | No extension left out of the list has a higher count than a listed one. |
| Summary.ReportOfScan | app.py:305-313 | For a scan result, "No files found" appears exactly when no file was counted, and `(no ext)` is never printed because every key starts with a dot. |
| Summary.Show | app.py:296-313 | The panel is the error panel exactly for a failed scan, and it always carries the folder's name. For a finished scan it shows the message's total size, file count and folder count. Its types section is `Report` of the histogram, which says "No files found" exactly when the histogram is empty. |
| Summary.PanelOfTree | app.py:261-313 | The panel for a scanned tree shows that tree's totals, and says "No files found" exactly when the tree has no counted file. |
| PosixPath.Extension | app.py:277 | `splitext(name)[1]` is empty or a proper suffix of the name that starts with a dot and contains no other dot or slash. |
| PosixPath.ExtensionNeedsStem | app.py:277 | A non-empty extension always has a character other than a dot before it within the last component, so leading dots, as in `.bashrc` or `..b`, never start an extension. |
| PosixPath.ExtensionFound | app.py:277 | Conversely, a dot in the last path component with a non-dot character before it in that component gives a non-empty extension, which starts at the last dot. |
| PosixPath.DotfileHasNoExtension | app.py:277 | A leading-dot name such as `.bashrc` has no extension. |
| PosixPath.ExtensionOfStem | app.py:277 | `stem.ext` has extension `.ext`. |
| PosixPath.Dirname | app.py:351 | `dirname` is a prefix of the path. |
| PosixPath.DirnameFixedPoint | app.py:352 | A path is its own parent exactly when it consists only of slashes, which is the root. |
| PosixPath.DirnameOfAbsolute | app.py:351 | The parent of an absolute path is absolute. |
| PosixPath.Abspath | app.py:198 | An absolute path is returned unchanged, and the result is absolute. |
| StableSort.SortBy | app.py:181 | Sorting keeps the length. The lemmas below state the rest. |
| StableSort.SortByPermutes | app.py:181 | The sorted sequence is a permutation of the input. |
| StableSort.SortBySorted | app.py:181 | Under a strict total order on keys, no element of the result is followed by one with a smaller key. |
| StableSort.SortByStable | app.py:181 | For every key, the elements with that key appear in the result in their input order. |
| StableSort.StableSortUnique | app.py:307 | Any sorted sequence that keeps each key's elements in input order equals the result of the sort, so the choice of algorithm does not matter. |
| Text.Lower | app.py:181 | `lower()` keeps the length, maps each character, and leaves no upper-case letter. |
| Text.Upper | app.py:185 | `upper()` keeps the length, maps each character, and leaves no lower-case letter. |
| Text.BelowTotal | app.py:181 | String order is total. |
| Text.BelowTransitive | app.py:181 | String order is transitive. |

## Left out

- The GUI is not modelled: widgets, icons, `resource_path`, `display_info`,
  `clear_info_display`, the status bar and message boxes. The rows are kept
  as values, and an icon is a tag.
- The scan thread, the queue and the polling in `_check_scan_queue` are not
  modelled. A scan is modelled as its finished message, and the panel as a
  function of that message.
- `human_readable_size` uses floating point, so sizes stay numbers.
- The error-recovery path of `populate_treeview` when `os.listdir` fails
  (app.py:165-178) is not modelled. `Navigation.Dirs` treats every
  directory as listable. The forced back move is modelled, but its only
  caller is that recovery path.
- The `{"error": e}` message of the worker (app.py:290-291) is not modelled.
  It could only come from an exception other than `OSError` out of
  `os.walk`, and the model's file system raises none. The panel for such a
  message is modelled (`Summary.Show`).
- `os.path.abspath` is modelled as a join onto the working directory
  without `normpath`. The model does not resolve `.` or `..`, does not
  collapse repeated slashes, and does not strip trailing slashes. So `/tmp/`
  and `/tmp` are different paths in the model. `Abspath(cwd, "")` is
  `cwd + "/"` when `cwd` does not end in a slash, whereas `abspath("")` is
  the working directory itself. Because of this, the model's "differs from
  the last history entry" check (app.py:210) and its root check in `go_up`
  (app.py:351) treat such spellings of one folder as different folders.
- Handling of ASCII case only: `lower()` and `upper()` handle ASCII letters,
  not full Unicode case mapping, and names are compared code point by code
  point.
- `on_item_select` (app.py:219-259) is not part of this model. For a folder
  it starts a scan, whose worker and panel are modelled. For a file it shows
  the name, the type (the same label as the listing's Type column) and the
  size, or an error if the size cannot be read. For anything else it shows
  "Unknown or Inaccessible". That display text is GUI output.
- `on_item_double_click` and `go_path_entry` are not part of this model.
  They only call `navigate_to_path`.
- Navigation.Explorer.constructor requires the working directory to be an
  existing directory. The application does not handle the other case
  either.
