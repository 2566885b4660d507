/**
 * Turning what a caller hands to `Config::add` into the ordered list of files
 * to load, and reading a file's extension off its path.
 *
 * The filesystem is a value: which paths are directories (with what
 * `glob` returns for each with the pattern `*.*`) and which paths are existing files.
 */
module Paths {
  import opened Wrappers

  /**
   * `dirs` maps each directory to its `*.*` listing, in the order glob returns it;
   * `files` holds the paths `file_exists` accepts that are not directories.
   */
  datatype FileSystem = FileSystem(dirs: map<string, seq<string>>, files: set<string>)

  /** The `$files` argument of `add`: a path, or a PHP array of such arguments, nested at will. */
  datatype Source = Path(path: string) | List(items: seq<Source>)

  /** getConfigFiles: arrays flatten depth-first, left to right. */
  function Resolve(fs: FileSystem, src: Source): (r: Result<seq<string>, Error>)
    ensures r.Failure? ==> r.error.FileNotFound? && Missing(fs, r.error.path)
    ensures r.Success? ==> forall i :: 0 <= i < |r.value| ==> Listed(fs, r.value[i])
    decreases src
  {
    match src
    case List(items) => ResolveAll(fs, items)
    case Path(p) => Expand(fs, p)
  }

  function ResolveAll(fs: FileSystem, items: seq<Source>): (r: Result<seq<string>, Error>)
    ensures r.Failure? ==> r.error.FileNotFound? && Missing(fs, r.error.path)
    ensures r.Success? ==> forall i :: 0 <= i < |r.value| ==> Listed(fs, r.value[i])
    decreases items
  {
    if items == [] then Success([])
    else
      match Resolve(fs, items[0])
      case Failure(e) => Failure(e)
      case Success(head) => Prepend(head, ResolveAll(fs, items[1..]))
  }

  /** One path: a directory becomes its listing, an existing file itself, anything else fails. */
  function Expand(fs: FileSystem, p: string): (r: Result<seq<string>, Error>)
    ensures r.Failure? <==> Missing(fs, p)
    ensures r.Failure? ==> r.error == FileNotFound(p)
    ensures p in fs.dirs ==> r == Success(fs.dirs[p])
    ensures p !in fs.dirs && p in fs.files ==> r == Success([p])
  {
    if p in fs.dirs then Success(fs.dirs[p])
    else if p !in fs.files then Failure(FileNotFound(p))
    else Success([p])
  }

  predicate Missing(fs: FileSystem, p: string) {
    p !in fs.dirs && p !in fs.files
  }

  /** A path glob listed for some directory, or an existing file. */
  ghost predicate Listed(fs: FileSystem, f: string) {
    f in fs.files || exists d :: d in fs.dirs && f in fs.dirs[d]
  }

  function Prepend(front: seq<string>, r: Result<seq<string>, Error>): Result<seq<string>, Error> {
    match r
    case Success(rest) => Success(front + rest)
    case Failure(e) => Failure(e)
  }

  // ---------------------------------------------------------------------------
  // An independent description: the leaves of the input, each expanded

  /** The paths named in the input, depth-first, left to right. */
  function Leaves(src: Source): seq<string>
    decreases src
  {
    match src
    case Path(p) => [p]
    case List(items) => LeavesAll(items)
  }

  function LeavesAll(items: seq<Source>): seq<string>
    decreases items
  {
    if items == [] then [] else Leaves(items[0]) + LeavesAll(items[1..])
  }

  /** Expanding a flat list of paths, one after the other. */
  function ExpandAll(fs: FileSystem, ps: seq<string>): Result<seq<string>, Error> {
    if ps == [] then Success([])
    else
      match Expand(fs, ps[0])
      case Failure(e) => Failure(e)
      case Success(head) => Prepend(head, ExpandAll(fs, ps[1..]))
  }

  /** Expanding a flat list fails with its first missing path. */
  lemma {:induction false} ExpandAllFirstMissing(fs: FileSystem, ps: seq<string>, i: nat)
    requires i < |ps| && Missing(fs, ps[i])
    requires forall j :: 0 <= j < i ==> !Missing(fs, ps[j])
    ensures ExpandAll(fs, ps) == Failure(FileNotFound(ps[i]))
  {
    if i > 0 {
      assert ps[1..][i - 1] == ps[i];
      assert !Missing(fs, ps[0]);
      ExpandAllFirstMissing(fs, ps[1..], i - 1);
    }
  }

  /** Expanding a flat list in which no path is missing succeeds. */
  lemma {:induction false} ExpandAllNoneMissing(fs: FileSystem, ps: seq<string>)
    requires forall i :: 0 <= i < |ps| ==> !Missing(fs, ps[i])
    ensures ExpandAll(fs, ps).Success?
  {
    if ps != [] {
      assert !Missing(fs, ps[0]);
      ExpandAllNoneMissing(fs, ps[1..]);
    }
  }

  lemma {:induction false} ExpandAllAppend(fs: FileSystem, a: seq<string>, b: seq<string>)
    ensures ExpandAll(fs, a + b) ==
            match ExpandAll(fs, a)
            case Failure(e) => Failure(e)
            case Success(x) => Prepend(x, ExpandAll(fs, b))
  {
    if a == [] {
      assert a + b == b;
      match ExpandAll(fs, b)
      case Failure(_) =>
      case Success(y) => assert [] + y == y;
    } else {
      assert (a + b)[1..] == a[1..] + b;
      assert (a + b)[0] == a[0];
      ExpandAllAppend(fs, a[1..], b);
      match Expand(fs, a[0])
      case Failure(_) =>
      case Success(h) =>
        match ExpandAll(fs, a[1..])
        case Failure(_) =>
        case Success(t) =>
          match ExpandAll(fs, b)
          case Failure(_) =>
          case Success(y) => assert h + (t + y) == (h + t) + y;
    }
  }

  /**
   * getConfigFiles is the expansion of the input's leaves: so it fails exactly
   * when a named path is neither a directory nor an existing file, with the
   * first such path, and otherwise yields each leaf's expansion, in order.
   */
  lemma {:induction false} ResolveIsLeafwise(fs: FileSystem, src: Source)
    ensures Resolve(fs, src) == ExpandAll(fs, Leaves(src))
    decreases src
  {
    match src
    case Path(p) =>
      assert [p][1..] == [];
      match Expand(fs, p) {
        case Failure(_) =>
        case Success(h) => assert h + [] == h;
      }
    case List(items) =>
      ResolveAllIsLeafwise(fs, items);
  }

  lemma {:induction false} ResolveAllIsLeafwise(fs: FileSystem, items: seq<Source>)
    ensures ResolveAll(fs, items) == ExpandAll(fs, LeavesAll(items))
    decreases items
  {
    if items != [] {
      ResolveIsLeafwise(fs, items[0]);
      ResolveAllIsLeafwise(fs, items[1..]);
      ExpandAllAppend(fs, Leaves(items[0]), LeavesAll(items[1..]));
    }
  }

  /**
   * Order is preserved: resolving a list made of two parts is resolving the first
   * part, then the second, and concatenating.
   */
  lemma ResolveConcat(fs: FileSystem, xs: seq<Source>, ys: seq<Source>)
    ensures Resolve(fs, List(xs + ys)) ==
            match Resolve(fs, List(xs))
            case Failure(e) => Failure(e)
            case Success(a) => Prepend(a, Resolve(fs, List(ys)))
  {
    ResolveAllIsLeafwise(fs, xs + ys);
    ResolveAllIsLeafwise(fs, xs);
    ResolveAllIsLeafwise(fs, ys);
    LeavesAllConcat(xs, ys);
    ExpandAllAppend(fs, LeavesAll(xs), LeavesAll(ys));
  }

  lemma {:induction false} LeavesAllConcat(xs: seq<Source>, ys: seq<Source>)
    ensures LeavesAll(xs + ys) == LeavesAll(xs) + LeavesAll(ys)
  {
    if xs == [] {
      assert xs + ys == ys;
    } else {
      assert (xs + ys)[1..] == xs[1..] + ys;
      assert (xs + ys)[0] == xs[0];
      LeavesAllConcat(xs[1..], ys);
    }
  }

  // ---------------------------------------------------------------------------
  // Extensions: pathinfo()['basename'], then the last '.'-segment of it

  /** The text after the last `c` in `s`, or all of `s` when `c` does not occur. */
  function AfterLast(s: string, c: char): (r: string)
    ensures c !in r
  {
    if s == [] then []
    else if s[|s| - 1] == c then []
    else AfterLast(s[..|s| - 1], c) + [s[|s| - 1]]
  }

  /** `AfterLast` is a suffix of `s`. */
  lemma {:induction false} AfterLastIsSuffix(s: string, c: char)
    ensures |AfterLast(s, c)| <= |s| && s == s[..|s| - |AfterLast(s, c)|] + AfterLast(s, c)
  {
    if s != [] && s[|s| - 1] != c {
      var init := s[..|s| - 1];
      AfterLastIsSuffix(init, c);
      var r := AfterLast(init, c);
      var m := |init| - |r|;
      calc {
        s;
        init + [s[|s| - 1]];
        init[..m] + r + [s[|s| - 1]];
        { assert s[..m] == init[..m]; }
        s[..m] + AfterLast(s, c);
      }
    }
  }

  /** When `c` occurs in `s`, the character just before `AfterLast` is a `c`. */
  lemma {:induction false} AfterLastFollowsC(s: string, c: char)
    requires c in s
    ensures |AfterLast(s, c)| < |s| && s[|s| - |AfterLast(s, c)| - 1] == c
  {
    if s[|s| - 1] != c {
      var init := s[..|s| - 1];
      assert c in init by {
        var i :| 0 <= i < |s| && s[i] == c;
        assert init[i] == c;
      }
      AfterLastFollowsC(init, c);
    }
  }

  /** When `c` does not occur in `s`, `AfterLast` is all of `s`. */
  lemma {:induction false} AfterLastWhole(s: string, c: char)
    requires c !in s
    ensures AfterLast(s, c) == s
  {
    if s != [] {
      var init := s[..|s| - 1];
      AfterLastWhole(init, c);
      assert s == init + [s[|s| - 1]];
    }
  }

  /** `s` without its trailing slashes. */
  function TrimSlashes(s: string): (r: string)
    ensures r <= s
    ensures r == [] || r[|r| - 1] != '/'
  {
    if s != [] && s[|s| - 1] == '/' then TrimSlashes(s[..|s| - 1]) else s
  }

  /** Only slashes were trimmed. */
  lemma {:induction false} TrimSlashesDropsOnlySlashes(s: string)
    ensures forall i :: |TrimSlashes(s)| <= i < |s| ==> s[i] == '/'
  {
    if s != [] && s[|s| - 1] == '/' {
      TrimSlashesDropsOnlySlashes(s[..|s| - 1]);
    }
  }

  /** PHP's basename: trailing slashes dropped, then the part after the last `/`. */
  function Basename(p: string): (r: string)
    ensures '/' !in r
  {
    AfterLast(TrimSlashes(p), '/')
  }

  /**
   * `array_pop(explode('.', $basename))`: the text after the last `.` of the
   * basename. A basename with no dot is its own extension; a trailing dot
   * gives the empty extension.
   */
  function Extension(p: string): (r: string)
    ensures '.' !in r
  {
    AfterLast(Basename(p), '.')
  }

  /**
   * The extension is what follows the basename's last dot (the whole basename
   * when it has none), so it never holds a `/` either.
   */
  lemma ExtensionSplit(p: string)
    ensures var b, e := Basename(p), Extension(p);
            && '/' !in e
            && ('.' in b ==> |e| < |b| && b == b[..|b| - |e| - 1] + ['.'] + e)
            && ('.' !in b ==> e == b)
  {
    var b, e := Basename(p), Extension(p);
    AfterLastIsSuffix(b, '.');
    if '.' in b {
      AfterLastFollowsC(b, '.');
      var m := |b| - |e|;
      assert b[..m] == b[..m - 1] + ['.'];
    } else {
      AfterLastWhole(b, '.');
    }
  }

  /** The text after the last `c` of `a`, `c`, `b` is `b`, when `b` holds no `c`. */
  lemma {:induction false} AfterLastOfJoin(a: string, c: char, b: string)
    requires c !in b
    ensures AfterLast(a + [c] + b, c) == b
    decreases |b|
  {
    if b != [] {
      var s, init := a + [c] + b, b[..|b| - 1];
      assert s[..|s| - 1] == a + [c] + init;
      assert b == init + [b[|b| - 1]];
      AfterLastOfJoin(a, c, init);
    }
  }

  /** A file `dir/stem.ext` has extension `ext`, whatever dots the directory holds. */
  lemma ExtensionOfJoin(dir: string, stem: string, ext: string)
    requires '/' !in stem && '/' !in ext && '.' !in ext
    ensures Extension(dir + "/" + stem + "." + ext) == ext
  {
    var name := stem + ['.'] + ext;
    var p := dir + ['/'] + name;
    assert dir + "/" + stem + "." + ext == p;
    assert p[|p| - 1] != '/';
    assert TrimSlashes(p) == p;
    AfterLastOfJoin(dir, '/', name);
    assert Basename(p) == name;
    AfterLastOfJoin(stem, '.', ext);
    assert Extension(p) == AfterLast(name, '.');
  }
}
