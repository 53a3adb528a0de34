/**
 * The parts of Python's `posixpath` the explorer calls: `splitext` (its
 * extension half), `dirname`, `isabs`, `join` and `abspath`.
 */
module PosixPath {

  type Path = string

  /** `s.rfind(c)`: the index of the last `c`, or -1. */
  function LastIndex(s: string, c: char): (r: int)
    ensures -1 <= r < |s|
    ensures r >= 0 ==> s[r] == c
    ensures forall j :: r < j < |s| ==> s[j] != c
  {
    if s == [] then -1
    else if s[|s| - 1] == c then |s| - 1
    else LastIndex(s[..|s| - 1], c)
  }

  /** Whether `p[lo..hi]` holds a character other than a dot. */
  predicate HasNonDot(p: string, lo: int, hi: int)
    requires 0 <= lo <= hi <= |p|
    decreases hi - lo
  {
    lo < hi && (p[lo] != '.' || HasNonDot(p, lo + 1, hi))
  }

  /**
   * `os.path.splitext(p)[1]`: from the last dot of the last path component,
   * provided something other than a dot precedes that dot in the component
   * (so `.bashrc` and `..` have no extension), else the empty string.
   */
  function Extension(p: string): (ext: string)
    ensures ext == "" || (|ext| < |p| && ext == p[|p| - |ext|..] && ext[0] == '.')
    ensures forall i :: 1 <= i < |ext| ==> ext[i] != '.' && ext[i] != '/'
  {
    var sep := LastIndex(p, '/');
    var dot := LastIndex(p, '.');
    if dot > sep && HasNonDot(p, sep + 1, dot) then p[dot..] else ""
  }

  lemma {:induction false} HasNonDotAt(p: string, lo: int, hi: int, k: int)
    requires 0 <= lo <= k < hi <= |p| && p[k] != '.'
    ensures HasNonDot(p, lo, hi)
    decreases k - lo
  {
    if lo < k && p[lo] == '.' {
      HasNonDotAt(p, lo + 1, hi, k);
    }
  }

  /**
   * The converse direction: a dot in the last component with a non-dot
   * character before it (within that component) yields an extension, and
   * it runs from the last dot of the path.
   */
  lemma ExtensionFound(p: string, k: int, d: int)
    requires 0 <= k < d < |p| && p[k] != '.' && p[d] == '.'
    requires forall j :: k <= j < |p| ==> p[j] != '/'
    ensures Extension(p) != ""
    ensures Extension(p) == p[LastIndex(p, '.')..]
  {
    var sep := LastIndex(p, '/');
    var dot := LastIndex(p, '.');
    assert sep < k;
    assert d <= dot;
    HasNonDotAt(p, sep + 1, dot, k);
  }

  /** The first character other than a dot in `p[lo..hi]`. */
  lemma {:induction false} FindNonDot(p: string, lo: int, hi: int) returns (k: int)
    requires 0 <= lo <= hi <= |p| && HasNonDot(p, lo, hi)
    ensures lo <= k < hi && p[k] != '.'
    decreases hi - lo
  {
    if p[lo] != '.' {
      k := lo;
    } else {
      k := FindNonDot(p, lo + 1, hi);
    }
  }

  /**
   * Leading dots of the last component are never an extension: whenever
   * there is one, some character other than a dot precedes it within the
   * component, so `..b` and `.bashrc` have none.
   */
  lemma ExtensionNeedsStem(p: string)
    ensures Extension(p) != "" ==>
      exists k :: LastIndex(p, '/') < k < |p| - |Extension(p)| && p[k] != '.'
  {
    var sep := LastIndex(p, '/');
    var dot := LastIndex(p, '.');
    if Extension(p) != "" {
      var k := FindNonDot(p, sep + 1, dot);
      assert |p| - |Extension(p)| == dot;
    }
  }

  /** A component made only of leading dots and one more dot-free tail has no extension. */
  lemma DotfileHasNoExtension(name: string)
    requires |name| > 0 && name[0] == '.'
    requires forall i :: 1 <= i < |name| ==> name[i] != '.' && name[i] != '/'
    ensures Extension(name) == ""
  {
    assert LastIndex(name, '.') == 0;
  }

  /** A plain `stem.ext` name: its extension is `.ext`. */
  lemma ExtensionOfStem(stem: string, ext: string)
    requires |stem| > 0 && forall i :: 0 <= i < |stem| ==> stem[i] != '.' && stem[i] != '/'
    requires |ext| > 0 && ext[0] == '.'
    requires forall i :: 1 <= i < |ext| ==> ext[i] != '.' && ext[i] != '/'
    ensures Extension(stem + ext) == ext
  {
    var p := stem + ext;
    assert p[|stem|] == '.';
    assert LastIndex(p, '.') == |stem|;
    assert p[0] != '.';
    assert p[|stem|..] == ext;
  }

  /** A name without any dot has no extension. */
  lemma ExtensionWithoutDot(name: string)
    requires forall i :: 0 <= i < |name| ==> name[i] != '.'
    ensures Extension(name) == ""
  {
  }

  predicate AllSlashes(s: string)
  {
    forall i :: 0 <= i < |s| ==> s[i] == '/'
  }

  /** `s.rstrip('/')`. */
  function StripTrailingSlashes(s: string): (r: string)
    ensures |r| <= |s| && r == s[..|r|]
    ensures r == [] || r[|r| - 1] != '/'
    ensures AllSlashes(s[|r|..])
  {
    if s != [] && s[|s| - 1] == '/' then
      var r := StripTrailingSlashes(s[..|s| - 1]);
      assert s[|r|..] == s[..|s| - 1][|r|..] + ['/'];
      r
    else s
  }

  /**
   * `posixpath.dirname(p)`: everything up to the last slash, with trailing
   * slashes removed unless nothing but slashes is left.
   */
  function Dirname(p: Path): (r: Path)
    ensures |r| <= |p| && r == p[..|r|]
  {
    var head := p[..LastIndex(p, '/') + 1];
    if head != [] && !AllSlashes(head) then StripTrailingSlashes(head) else head
  }

  /** `dirname` leaves a path unchanged exactly when it is empty or only slashes (a root). */
  lemma DirnameFixedPoint(p: Path)
    ensures Dirname(p) == p <==> AllSlashes(p)
  {
    var k := LastIndex(p, '/');
    var head := p[..k + 1];
    if AllSlashes(p) {
      if p != [] { assert p[|p| - 1] == '/'; assert k == |p| - 1; assert head == p; }
    } else {
      var j :| 0 <= j < |p| && p[j] != '/';
      if k < 0 {
        assert head == [];
      } else if AllSlashes(head) {
        assert |head| == |p| ==> head == p;
      } else {
        assert head[|head| - 1] == '/';
        var r := StripTrailingSlashes(head);
        assert |r| < |head|;
      }
    }
  }

  predicate IsAbs(p: Path) { |p| > 0 && p[0] == '/' }

  /** The parent of an absolute path is absolute. */
  lemma DirnameOfAbsolute(p: Path)
    requires IsAbs(p)
    ensures IsAbs(Dirname(p))
  {
    var head := p[..LastIndex(p, '/') + 1];
    assert head[0] == '/';
  }

  /** `posixpath.join(a, b)` for two components. */
  function Join(a: Path, b: Path): (r: Path)
    ensures IsAbs(a) || IsAbs(b) ==> IsAbs(r)
  {
    if IsAbs(b) then b
    else if a == [] || a[|a| - 1] == '/' then a + b
    else a + "/" + b
  }

  /**
   * `os.path.abspath(p)` with the process's working directory `cwd`: a
   * relative path is joined onto `cwd` (the `normpath` step is not modelled).
   */
  function Abspath(cwd: Path, p: Path): (r: Path)
    ensures IsAbs(p) ==> r == p
    ensures IsAbs(cwd) ==> IsAbs(r)
  {
    if IsAbs(p) then p else Join(cwd, p)
  }
}
