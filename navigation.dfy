/**
 * The explorer's position and history (`navigate_to_path`, `go_back`,
 * `go_forward`, `go_up`, `_update_nav_buttons_state`): the shown folder,
 * the list of visited folders with a cursor into it, the text of the path
 * entry, the entries of the shown folder and whether the back, forward and up
 * buttons are enabled.
 *
 * The filesystem is an input: `Dirs` maps every directory to what probing
 * its entries returns; `os.path.isdir(p)` is `p in dirs`. The working
 * directory `cwd`, against which `os.path.abspath` resolves relative paths,
 * is fixed for the life of the window.
 *
 * The pure functions below are the specification; `Explorer` is the object
 * that updates its fields in place, and each of its methods is proved to
 * leave exactly the state the matching function computes.
 */
module Navigation {
  import opened PosixPath
  import opened Listing

  type Dirs = map<Path, seq<Probe>>

  datatype NavState = NavState(
    current: Path,
    history: seq<Path>,
    index: int,
    text: Path,
    listed: seq<Probe>,
    back: bool,
    forward: bool,
    up: bool)

  /**
   * What every reachable state satisfies: the cursor points into a
   * non-empty history, and the shown folder and every visited folder are
   * absolute paths.
   */
  predicate ValidState(s: NavState)
  {
    && 0 <= s.index < |s.history|
    && IsAbs(s.current)
    && forall i :: 0 <= i < |s.history| ==> IsAbs(s.history[i])
  }

  /** The buttons agree with the cursor and the shown folder. */
  predicate ButtonsAgree(s: NavState)
  {
    && s.back == (s.index > 0)
    && s.forward == (s.index < |s.history| - 1)
    && s.up == (Dirname(s.current) != s.current)
  }

  /** `_update_nav_buttons_state`: only the three button flags change. */
  function Buttons(s: NavState): (r: NavState)
    ensures ButtonsAgree(r)
    ensures r.(back := s.back, forward := s.forward, up := s.up) == s
  {
    s.(back := s.index > 0,
       forward := s.index < |s.history| - 1,
       up := Dirname(s.current) != s.current)
  }

  /**
   * `populate_treeview` for a directory that can be listed: the shown
   * folder and the path entry become the absolute path, and the file list
   * is rebuilt from the directory's entries.
   */
  function Populated(s: NavState, cwd: Path, dirs: Dirs, path: Path): NavState
    requires path in dirs
  {
    s.(current := Abspath(cwd, path), text := Abspath(cwd, path), listed := dirs[path])
  }

  /**
   * The `add_to_history` block: forward history past the cursor is cut
   * off, the shown folder is appended unless it already ends the history,
   * and the cursor moves to the end.
   */
  function Record(s: NavState): (r: NavState)
    requires 0 <= s.index < |s.history|
    ensures 0 <= r.index == |r.history| - 1 && r.history[r.index] == s.current
  {
    var kept := if s.index < |s.history| - 1 then s.history[..s.index + 1] else s.history;
    var history := if kept == [] || kept[|kept| - 1] != s.current then kept + [s.current] else kept;
    s.(history := history, index := |history| - 1)
  }

  /** `navigate_to_path(new_path, add_to_history)`. */
  function Navigate(s: NavState, dirs: Dirs, cwd: Path, newPath: Path, addToHistory: bool): (r: NavState)
    requires ValidState(s)
    ensures 0 <= r.index < |r.history|
    ensures !addToHistory ==> r.history == s.history && r.index == s.index
  {
    var target := Abspath(cwd, newPath);
    if target in dirs then
      var shown := Populated(s.(current := target), cwd, dirs, target);
      Buttons(if addToHistory then Record(shown) else shown)
    else
      s.(text := s.current)
  }

  /**
   * `go_back(force_previous)`: the cursor is moved back before the
   * folder is opened; with `force_previous` at the start of the history
   * the last visited folder is opened instead.
   */
  function Back(s: NavState, dirs: Dirs, cwd: Path, force: bool): (r: NavState)
    requires ValidState(s)
    ensures r.history == s.history
    ensures r.index == if s.index > 0 then s.index - 1 else s.index
  {
    if s.index > 0 then
      Navigate(s.(index := s.index - 1), dirs, cwd, s.history[s.index - 1], false)
    else if force && s.history != [] then
      Navigate(s, dirs, cwd, s.history[|s.history| - 1], false)
    else
      s
  }

  /** `go_forward`: the cursor is moved forward before the folder is opened. */
  function Forward(s: NavState, dirs: Dirs, cwd: Path): (r: NavState)
    requires ValidState(s)
    ensures r.history == s.history
    ensures r.index == if s.index < |s.history| - 1 then s.index + 1 else s.index
  {
    if s.index < |s.history| - 1 then
      Navigate(s.(index := s.index + 1), dirs, cwd, s.history[s.index + 1], false)
    else
      s
  }

  /** `go_up`: opens the parent folder, unless the shown folder is its own parent. */
  function Up(s: NavState, dirs: Dirs, cwd: Path): (r: NavState)
    requires ValidState(s)
    ensures r.current == s.current || r.current == Dirname(s.current)
  {
    DirnameOfAbsolute(s.current);
    var parent := Dirname(s.current);
    if parent != s.current then Navigate(s, dirs, cwd, parent, true) else s
  }

  /**
   * The state `__init__` leaves: the working directory shown and the only
   * entry of the history, its listing loaded and the buttons updated.
   */
  function Initial(cwd: Path, dirs: Dirs): NavState
    requires Abspath(cwd, cwd) in dirs
  {
    var start := Abspath(cwd, cwd);
    var s := NavState(start, [start], 0, start, [], false, false, false);
    Buttons(Populated(s, cwd, dirs, start))
  }

  /** The window opens on the working directory with nothing to go back or forward to. */
  lemma InitialState(cwd: Path, dirs: Dirs)
    requires IsAbs(cwd) && cwd in dirs
    ensures ValidState(Initial(cwd, dirs)) && ButtonsAgree(Initial(cwd, dirs))
    ensures Initial(cwd, dirs).current == cwd && Initial(cwd, dirs).history == [cwd]
    ensures !Initial(cwd, dirs).back && !Initial(cwd, dirs).forward
    ensures Initial(cwd, dirs).listed == dirs[cwd]
  {
  }

  /**
   * Opening a directory with `add_to_history`: it is shown and listed, the
   * history keeps everything up to the old cursor and then gains the folder
   * unless that prefix already ends with it, and the cursor sits on the
   * last entry, which is the shown folder.
   */
  lemma NavigateRecords(s: NavState, dirs: Dirs, cwd: Path, newPath: Path)
    requires ValidState(s) && IsAbs(cwd) && Abspath(cwd, newPath) in dirs
    ensures var r := Navigate(s, dirs, cwd, newPath, true);
      var target := Abspath(cwd, newPath);
      var kept := s.history[..s.index + 1];
      && r.current == target && r.text == target && r.listed == dirs[target]
      && (r.history == kept <==> kept[|kept| - 1] == target)
      && (r.history == kept || r.history == kept + [target])
      && r.index == |r.history| - 1
      && r.history[r.index] == r.current
      && ButtonsAgree(r) && !r.forward
  {
    var target := Abspath(cwd, newPath);
    var shown := Populated(s.(current := target), cwd, dirs, target);
    assert shown.current == target && shown.history == s.history && shown.index == s.index;
    RecordKeepsPrefix(shown);
  }

  /**
   * Recording keeps the history up to the cursor, adds the shown folder
   * exactly when that prefix does not already end with it, and leaves the
   * cursor on the shown folder at the end of the history.
   */
  lemma RecordKeepsPrefix(t: NavState)
    requires 0 <= t.index < |t.history|
    ensures var r := Record(t);
      var kept := t.history[..t.index + 1];
      && (r.history == kept <==> kept[|kept| - 1] == t.current)
      && (r.history == kept || r.history == kept + [t.current])
      && r.index == |r.history| - 1
      && r.history[r.index] == t.current
      && r == t.(history := r.history, index := r.index)
  {
    var kept := t.history[..t.index + 1];
    assert t.index == |t.history| - 1 ==> kept == t.history;
    if kept[|kept| - 1] != t.current {
      assert (kept + [t.current])[|kept|] == t.current;
    }
  }

  lemma NavigateOpens(s: NavState, dirs: Dirs, cwd: Path, newPath: Path, addToHistory: bool)
    requires ValidState(s) && Abspath(cwd, newPath) in dirs
    ensures var shown := Populated(s.(current := Abspath(cwd, newPath)), cwd, dirs, Abspath(cwd, newPath));
      Navigate(s, dirs, cwd, newPath, addToHistory) == Buttons(if addToHistory then Record(shown) else shown)
  {
  }

  /** Opening a path that is not a directory changes nothing but the path entry, which shows the current folder again. */
  lemma NavigateFails(s: NavState, dirs: Dirs, cwd: Path, newPath: Path, addToHistory: bool)
    requires ValidState(s) && Abspath(cwd, newPath) !in dirs
    ensures Navigate(s, dirs, cwd, newPath, addToHistory) == s.(text := s.current)
  {
  }

  /**
   * Opening a directory without `add_to_history` (as back and forward do)
   * shows and lists it, updates the buttons, and leaves the history and
   * the cursor alone.
   */
  lemma NavigateWithoutRecording(s: NavState, dirs: Dirs, cwd: Path, path: Path)
    requires ValidState(s) && IsAbs(path) && path in dirs
    ensures var r := Navigate(s, dirs, cwd, path, false);
      && r.current == path && r.text == path && r.listed == dirs[path]
      && r.history == s.history && r.index == s.index
      && ButtonsAgree(r)
  {
  }

  /** Every operation keeps the state valid. */
  lemma NavigateValid(s: NavState, dirs: Dirs, cwd: Path, newPath: Path, addToHistory: bool)
    requires ValidState(s) && IsAbs(cwd)
    ensures ValidState(Navigate(s, dirs, cwd, newPath, addToHistory))
  {
    var target := Abspath(cwd, newPath);
    if target in dirs && addToHistory {
      var shown := Populated(s.(current := target), cwd, dirs, target);
      var r := Record(shown);
      assert shown.history == s.history && shown.index == s.index;
      forall i | 0 <= i < |r.history| ensures IsAbs(r.history[i]) {
        if i <= s.index {
          assert r.history[i] == s.history[i];
        }
      }
    }
  }

  lemma BackValid(s: NavState, dirs: Dirs, cwd: Path, force: bool)
    requires ValidState(s) && IsAbs(cwd)
    ensures ValidState(Back(s, dirs, cwd, force))
  {
    if s.index > 0 {
      NavigateValid(s.(index := s.index - 1), dirs, cwd, s.history[s.index - 1], false);
    } else if force {
      NavigateValid(s, dirs, cwd, s.history[|s.history| - 1], false);
    }
  }

  lemma ForwardValid(s: NavState, dirs: Dirs, cwd: Path)
    requires ValidState(s) && IsAbs(cwd)
    ensures ValidState(Forward(s, dirs, cwd))
  {
    if s.index < |s.history| - 1 {
      NavigateValid(s.(index := s.index + 1), dirs, cwd, s.history[s.index + 1], false);
    }
  }

  lemma UpValid(s: NavState, dirs: Dirs, cwd: Path)
    requires ValidState(s) && IsAbs(cwd)
    ensures ValidState(Up(s, dirs, cwd))
  {
    NavigateValid(s, dirs, cwd, Dirname(s.current), true);
  }

  /**
   * Back from a later entry moves the cursor one step back and never
   * changes the history; when that entry is still a directory it is
   * shown and the buttons agree with the new cursor.
   */
  lemma BackStep(s: NavState, dirs: Dirs, cwd: Path, force: bool)
    requires ValidState(s) && s.index > 0
    ensures Back(s, dirs, cwd, force).index == s.index - 1
    ensures Back(s, dirs, cwd, force).history == s.history
    ensures s.history[s.index - 1] in dirs ==>
              Back(s, dirs, cwd, force).current == s.history[s.index - 1]
              && ButtonsAgree(Back(s, dirs, cwd, force))
  {
  }

  /** Without `force_previous`, back at the start of the history does nothing. */
  lemma BackAtStart(s: NavState, dirs: Dirs, cwd: Path)
    requires ValidState(s) && s.index == 0
    ensures Back(s, dirs, cwd, false) == s
  {
  }

  /**
   * With `force_previous` at the start of the history, back opens the
   * last visited folder but leaves the cursor at 0.
   */
  lemma ForcedBackAtStart(s: NavState, dirs: Dirs, cwd: Path)
    requires ValidState(s) && s.index == 0
    ensures Back(s, dirs, cwd, true).index == 0
    ensures Back(s, dirs, cwd, true).history == s.history
    ensures s.history[|s.history| - 1] in dirs ==>
              Back(s, dirs, cwd, true).current == s.history[|s.history| - 1]
  {
  }

  /**
   * Back to a folder that is no longer a directory still moves the cursor,
   * but the shown folder, the listing and the buttons stay as they were.
   * From a state whose buttons agreed, back from entry 1 leaves the back
   * button enabled at entry 0, and when the shown folder is still a
   * directory the cursor no longer points at it.
   */
  lemma BackToMissingFolder(s: NavState, dirs: Dirs, cwd: Path, force: bool)
    requires ValidState(s) && s.index > 0 && s.history[s.index - 1] !in dirs
    ensures var r := Back(s, dirs, cwd, force);
      && r.index == s.index - 1 && r.history == s.history
      && r.current == s.current && r.listed == s.listed
      && r.back == s.back && r.forward == s.forward && r.up == s.up
      && (ButtonsAgree(s) && s.index == 1 ==> r.back && r.index == 0)
      && (s.current in dirs ==> r.history[r.index] != r.current)
  {
  }

  /**
   * Forward from an earlier entry moves the cursor one step forward and
   * never changes the history; when that entry is still a directory it
   * is shown and the buttons agree with the new cursor.
   */
  lemma ForwardStep(s: NavState, dirs: Dirs, cwd: Path)
    requires ValidState(s) && s.index < |s.history| - 1
    ensures Forward(s, dirs, cwd).index == s.index + 1
    ensures Forward(s, dirs, cwd).history == s.history
    ensures s.history[s.index + 1] in dirs ==>
              Forward(s, dirs, cwd).current == s.history[s.index + 1]
              && ButtonsAgree(Forward(s, dirs, cwd))
  {
  }

  /** Forward at the end of the history does nothing. */
  lemma ForwardAtEnd(s: NavState, dirs: Dirs, cwd: Path)
    requires ValidState(s) && s.index == |s.history| - 1
    ensures Forward(s, dirs, cwd) == s
  {
  }

  /**
   * When the buttons agree with the state, the back (forward) button is
   * enabled exactly when pressing it moves the cursor, and the up button
   * exactly when the shown folder is not the root.
   */
  lemma ButtonsMatchMoves(s: NavState, dirs: Dirs, cwd: Path)
    requires ValidState(s) && ButtonsAgree(s)
    ensures s.back <==> Back(s, dirs, cwd, false).index != s.index
    ensures s.forward <==> Forward(s, dirs, cwd).index != s.index
    ensures s.up <==> !AllSlashes(s.current)
  {
    if s.index > 0 {
      BackStep(s, dirs, cwd, false);
    }
    if s.index < |s.history| - 1 {
      ForwardStep(s, dirs, cwd);
    }
    DirnameFixedPoint(s.current);
  }

  /**
   * Back and then forward, while both folders are still directories,
   * return to the same cursor and history and show the folder the
   * cursor pointed at, with its listing.
   */
  lemma BackThenForward(s: NavState, dirs: Dirs, cwd: Path)
    requires ValidState(s) && IsAbs(cwd) && s.index > 0
    requires s.history[s.index - 1] in dirs && s.history[s.index] in dirs
    ensures var r := Forward(Back(s, dirs, cwd, false), dirs, cwd);
      && r.index == s.index && r.history == s.history
      && r.current == s.history[s.index] && r.listed == dirs[s.history[s.index]]
      && ButtonsAgree(r)
  {
    var b := Back(s, dirs, cwd, false);
    BackStep(s, dirs, cwd, false);
    BackValid(s, dirs, cwd, false);
    ForwardStep(b, dirs, cwd);
  }

  lemma BackOpensPrevious(s: NavState, dirs: Dirs, cwd: Path, force: bool)
    requires ValidState(s) && s.index > 0
    ensures Back(s, dirs, cwd, force) == Navigate(s.(index := s.index - 1), dirs, cwd, s.history[s.index - 1], false)
  {
  }

  lemma ForcedBackOpensLast(s: NavState, dirs: Dirs, cwd: Path)
    requires ValidState(s) && s.index == 0
    ensures Back(s, dirs, cwd, true) == Navigate(s, dirs, cwd, s.history[|s.history| - 1], false)
  {
  }

  lemma ForwardOpensNext(s: NavState, dirs: Dirs, cwd: Path)
    requires ValidState(s) && s.index < |s.history| - 1
    ensures Forward(s, dirs, cwd) == Navigate(s.(index := s.index + 1), dirs, cwd, s.history[s.index + 1], false)
  {
  }

  /**
   * From a folder that a navigation has just recorded, opening another
   * folder and going back shows the first folder again, with the second
   * kept ahead of the cursor (a further navigation then drops it, as
   * `NavigateRecords` states).
   */
  lemma NavigateThenBack(s: NavState, dirs: Dirs, cwd: Path, q: Path)
    requires ValidState(s) && IsAbs(cwd) && IsAbs(q) && q in dirs
    requires s.index == |s.history| - 1 && s.history[s.index] == s.current
    requires s.current in dirs && q != s.current
    ensures var r := Back(Navigate(s, dirs, cwd, q, true), dirs, cwd, false);
      && r.current == s.current && r.index == s.index
      && r.history == s.history + [q] && r.forward
  {
    var n := Navigate(s, dirs, cwd, q, true);
    NavigateRecords(s, dirs, cwd, q);
    assert s.history[..s.index + 1] == s.history;
    assert n.history == s.history + [q];
    NavigateValid(s, dirs, cwd, q, true);
    BackStep(n, dirs, cwd, false);
  }

  /** At the root (a path of slashes only) up does nothing. */
  lemma UpAtRoot(s: NavState, dirs: Dirs, cwd: Path)
    requires ValidState(s) && AllSlashes(s.current)
    ensures Up(s, dirs, cwd) == s
  {
    DirnameFixedPoint(s.current);
  }

  /**
   * Below the root, up opens the parent folder and records it like any
   * other navigation, when the parent is a directory.
   */
  lemma UpToParent(s: NavState, dirs: Dirs, cwd: Path)
    requires ValidState(s) && IsAbs(cwd) && !AllSlashes(s.current) && Dirname(s.current) in dirs
    ensures Up(s, dirs, cwd).current == Dirname(s.current)
    ensures Up(s, dirs, cwd).history[Up(s, dirs, cwd).index] == Dirname(s.current)
    ensures ButtonsAgree(Up(s, dirs, cwd))
  {
    DirnameFixedPoint(s.current);
    DirnameOfAbsolute(s.current);
    NavigateRecords(s, dirs, cwd, Dirname(s.current));
  }

  /** The explorer window's navigation state, updated in place. */
  class Explorer {
    const cwd: Path
    var currentPath: Path
    var history: seq<Path>
    var historyIndex: int
    var pathText: Path
    var rows: seq<Row>
    /** The entries `rows` was built from. */
    ghost var listed: seq<Probe>
    var backEnabled: bool
    var forwardEnabled: bool
    var upEnabled: bool

    ghost function State(): NavState
      reads this
    {
      NavState(currentPath, history, historyIndex, pathText, listed, backEnabled, forwardEnabled, upEnabled)
    }

    /** The history invariant, and the rows shown are those of the listed entries. */
    ghost predicate Valid()
      reads this
    {
      IsAbs(cwd) && ValidState(State()) && rows == Rows(listed)
    }

    /** `__init__`, from the working directory (an absolute path that can be listed). */
    constructor (cwd: Path, dirs: Dirs)
      requires IsAbs(cwd) && cwd in dirs
      ensures Valid()
      ensures this.cwd == cwd && State() == Initial(cwd, dirs)
      ensures rows == Rows(dirs[cwd])
    {
      this.cwd := cwd;
      var start := Abspath(cwd, cwd);
      currentPath := start;
      history := [start];
      historyIndex := 0;
      pathText := start;
      rows, listed := [], [];
      backEnabled, forwardEnabled, upEnabled := false, false, false;
      new;
      Populate(dirs, currentPath);
      UpdateNavButtons();
    }

    /** `populate_treeview` for a directory that can be listed. */
    method Populate(dirs: Dirs, path: Path)
      requires path in dirs
      modifies this
      ensures State() == Populated(old(State()), cwd, dirs, path)
      ensures rows == Rows(dirs[path])
    {
      currentPath := Abspath(cwd, path);
      pathText := currentPath;
      rows := Listing.Populate(dirs[path]);
      listed := dirs[path];
    }

    method UpdateNavButtons()
      modifies this
      ensures State() == Buttons(old(State()))
      ensures rows == old(rows)
    {
      backEnabled := historyIndex > 0;
      forwardEnabled := historyIndex < |history| - 1;
      upEnabled := Dirname(currentPath) != currentPath;
    }

    method NavigateTo(newPath: Path, addToHistory: bool, dirs: Dirs)
      requires Valid()
      modifies this
      ensures Valid()
      ensures State() == Navigate(old(State()), dirs, cwd, newPath, addToHistory)
      ensures Abspath(cwd, newPath) in dirs ==> rows == Rows(dirs[Abspath(cwd, newPath)])
      ensures Abspath(cwd, newPath) !in dirs ==> rows == old(rows)
    {
      ghost var s := State();
      NavigateValid(s, dirs, cwd, newPath, addToHistory);
      var target := Abspath(cwd, newPath);
      if target in dirs {
        NavigateOpens(s, dirs, cwd, newPath, addToHistory);
        Open(target, addToHistory, dirs);
      } else {
        NavigateFails(s, dirs, cwd, newPath, addToHistory);
        pathText := currentPath;
      }
    }

    /** The branch of `navigate_to_path` for a target that is a directory. */
    method Open(target: Path, addToHistory: bool, dirs: Dirs)
      requires 0 <= historyIndex < |history| && target in dirs && Abspath(cwd, target) == target
      modifies this
      ensures State() == Buttons(
        var shown := Populated(old(State()).(current := target), cwd, dirs, target);
        if addToHistory then Record(shown) else shown)
      ensures rows == Rows(listed)
    {
      ghost var s := State();
      currentPath := target;
      Populate(dirs, currentPath);
      assert State() == Populated(s.(current := target), cwd, dirs, target);
      if addToHistory {
        RecordHistory();
      }
      UpdateNavButtons();
    }

    /** The `add_to_history` block of `navigate_to_path`. */
    method RecordHistory()
      requires 0 <= historyIndex < |history|
      modifies this
      ensures State() == Record(old(State()))
      ensures rows == old(rows)
    {
      if historyIndex < |history| - 1 {
        history := history[..historyIndex + 1];
      }
      if history == [] || history[|history| - 1] != currentPath {
        history := history + [currentPath];
      }
      historyIndex := |history| - 1;
    }

    /**
     * The shared step of `go_back` and `go_forward`: the cursor is moved
     * first, then the folder under it is opened without recording.
     */
    method StepTo(i: int, dirs: Dirs)
      requires Valid() && 0 <= i < |history|
      modifies this
      ensures Valid()
      ensures State() == Navigate(old(State()).(index := i), dirs, cwd, old(history)[i], false)
    {
      historyIndex := i;
      NavigateTo(history[historyIndex], false, dirs);
    }

    /** The forced step back from the first entry, which opens the last one. */
    method WrapToLast(dirs: Dirs)
      requires Valid() && historyIndex == 0
      modifies this
      ensures Valid()
      ensures State() == Back(old(State()), dirs, cwd, true)
    {
      ForcedBackOpensLast(State(), dirs, cwd);
      NavigateTo(history[|history| - 1], false, dirs);
    }

    method GoBack(force: bool, dirs: Dirs)
      requires Valid()
      modifies this
      ensures Valid()
      ensures State() == Back(old(State()), dirs, cwd, force)
    {
      if historyIndex > 0 {
        BackOpensPrevious(State(), dirs, cwd, force);
        StepTo(historyIndex - 1, dirs);
      } else if force && history != [] {
        WrapToLast(dirs);
      } else {
        BackAtStart(State(), dirs, cwd);
      }
    }

    method GoForward(dirs: Dirs)
      requires Valid()
      modifies this
      ensures Valid()
      ensures State() == Forward(old(State()), dirs, cwd)
    {
      if historyIndex < |history| - 1 {
        ForwardOpensNext(State(), dirs, cwd);
        StepTo(historyIndex + 1, dirs);
      }
    }

    method GoUp(dirs: Dirs)
      requires Valid()
      modifies this
      ensures Valid()
      ensures State() == Up(old(State()), dirs, cwd)
    {
      var parent := Dirname(currentPath);
      if parent != currentPath {
        NavigateTo(parent, true, dirs);
      }
    }
  }
}
