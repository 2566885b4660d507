/**
 * `Assada\Config`: resolve the sources, then for each file pick a parser by
 * extension, parse, cast to array, lay the result over the tree with
 * array_replace_recursive and commit it, one file at a time.
 *
 * `AddFiles` is the specification of the `add` loop; the class `Config`
 * holds the four fields of the PHP object and its methods are proved
 * against these functions.
 */
module Configurator {
  import opened Wrappers
  import opened Seqs
  import opened PhpArray
  import opened Paths
  import opened Registry

  /** A parser adapter: from its class and a file path to the document, or the adapter's error message. */
  type ParseFn = (string, string) -> Result<Value, string>

  /** A dumper adapter: from its class and the tree to the text, or the adapter's error message. */
  type DumpFn = (string, seq<Entry>) -> Result<string, string>

  /** Adapters produce PHP values, whose arrays never repeat a key. */
  ghost predicate YieldsWellFormed(parse: ParseFn) {
    forall adapter, path :: parse(adapter, path).Success? ==> Wf(parse(adapter, path).value)
  }

  /** The state the `add` loop leaves: the tree, the parser cache and the exception that stopped it, if any. */
  datatype Run = Run(data: seq<Entry>, cache: map<string, string>, failure: Option<Error>)

  /** One iteration of the `add` loop, for `file`. */
  function AddFile(policy: CachePolicy, parsers: seq<Registration>, data: seq<Entry>,
                   cache: map<string, string>, file: string, parse: ParseFn): (r: Run)
    ensures r.failure.Some? ==> r.data == data
    ensures r.failure.None? ==> Extension(file) !in cache || policy == Pinned
    ensures r.failure.None? ==> Extension(file) in r.cache
    ensures cache.Keys <= r.cache.Keys
  {
    var found := LookupParser(policy, parsers, cache, Extension(file));
    match found.0
    case Failure(e) => Run(data, found.1, Some(e))
    case Success(adapter) =>
      match parse(adapter, file)
      case Failure(msg) => Run(data, found.1, Some(AdapterFailure(adapter, msg)))
      case Success(doc) => Run(ReplaceRecursive(data, Cast(doc)), found.1, None)
  }

  /** What one pass of a loop over files does to the tree and the parser cache. */
  type Step = (seq<Entry>, map<string, string>, string) -> Run

  /**
   * A loop over files in the manner of `add`: each pass commits what it made
   * before the next file is looked at, and the first failure ends the loop.
   */
  function Fold(step: Step, data: seq<Entry>, cache: map<string, string>, files: seq<string>): Run
    decreases files
  {
    if files == [] then Run(data, cache, None)
    else
      var r := step(data, cache, files[0]);
      if r.failure.Some? then r else Fold(step, r.data, r.cache, files[1..])
  }

  /** The pass `add` makes for each file. */
  function Pass(policy: CachePolicy, parsers: seq<Registration>, parse: ParseFn): Step {
    (data, cache, file) => AddFile(policy, parsers, data, cache, file, parse)
  }

  /**
   * The `add` loop over resolved files. The cache only grows, and after a
   * loop that met no failure it holds the extension of every file.
   */
  function AddFiles(policy: CachePolicy, parsers: seq<Registration>, data: seq<Entry>,
                    cache: map<string, string>, files: seq<string>, parse: ParseFn): (r: Run)
    ensures cache.Keys <= r.cache.Keys
    ensures r.failure.None? ==> forall i :: 0 <= i < |files| ==> Extension(files[i]) in r.cache
  {
    FoldCaches(policy, parsers, data, cache, files, parse);
    Fold(Pass(policy, parsers, parse), data, cache, files)
  }

  lemma {:induction false} FoldCaches(policy: CachePolicy, parsers: seq<Registration>, data: seq<Entry>,
                                      cache: map<string, string>, files: seq<string>, parse: ParseFn)
    ensures var r := Fold(Pass(policy, parsers, parse), data, cache, files);
      && cache.Keys <= r.cache.Keys
      && (r.failure.None? ==> forall i :: 0 <= i < |files| ==> Extension(files[i]) in r.cache)
    decreases files
  {
    if files != [] {
      var pass := Pass(policy, parsers, parse);
      var step := AddFile(policy, parsers, data, cache, files[0], parse);
      assert pass(data, cache, files[0]) == step;
      if step.failure.None? {
        FoldCaches(policy, parsers, step.data, step.cache, files[1..], parse);
        var r := Fold(pass, step.data, step.cache, files[1..]);
        if r.failure.None? {
          forall i | 0 <= i < |files|
            ensures Extension(files[i]) in r.cache
          {
            if i > 0 {
              assert files[i] == files[1..][i - 1];
            }
          }
        }
      }
    }
  }

  // ---------------------------------------------------------------------------
  // Properties of the add loop

  /** Looping over `a + b` is looping over `a`, then, if nothing failed, over `b` from where `a` left off. */
  lemma {:induction false} FoldAppend(step: Step, data: seq<Entry>, cache: map<string, string>, a: seq<string>, b: seq<string>)
    ensures Fold(step, data, cache, a + b) ==
            var first := Fold(step, data, cache, a);
            if first.failure.Some? then first else Fold(step, first.data, first.cache, b)
    decreases a
  {
    if a == [] {
      assert a + b == b;
    } else {
      assert (a + b)[0] == a[0];
      assert (a + b)[1..] == a[1..] + b;
      var r := step(data, cache, a[0]);
      if r.failure.None? {
        FoldAppend(step, r.data, r.cache, a[1..], b);
      }
    }
  }

  /** The first pass, then the rest of the loop. */
  lemma FoldCons(step: Step, data: seq<Entry>, cache: map<string, string>, files: seq<string>)
    requires files != []
    ensures Fold(step, data, cache, files) ==
            var r := step(data, cache, files[0]);
            if r.failure.Some? then r else Fold(step, r.data, r.cache, files[1..])
  {
  }

  /** Pass `i` of the `add` loop, seen from the files still to go. */
  lemma AddFilesAt(policy: CachePolicy, parsers: seq<Registration>, data: seq<Entry>,
                   cache: map<string, string>, files: seq<string>, i: nat, parse: ParseFn)
    requires i < |files|
    ensures var r := AddFile(policy, parsers, data, cache, files[i], parse);
            Fold(Pass(policy, parsers, parse), data, cache, files[i..]) ==
            if r.failure.Some? then r else Fold(Pass(policy, parsers, parse), r.data, r.cache, files[i + 1..])
  {
    var pass := Pass(policy, parsers, parse);
    assert pass(data, cache, files[i]) == AddFile(policy, parsers, data, cache, files[i], parse);
    FoldCons(pass, data, cache, files[i..]);
    assert files[i..][0] == files[i] && files[i..][1..] == files[i + 1..];
  }

  /**
   * When the first `k` files went through and file `k` fails, the loop ends
   * with what that failing pass left.
   */
  lemma FoldStopsAtFailure(step: Step, data: seq<Entry>, cache: map<string, string>, files: seq<string>, k: nat)
    requires k < |files|
    requires Fold(step, data, cache, files[..k]).failure.None?
    requires var done := Fold(step, data, cache, files[..k]);
             step(done.data, done.cache, files[k]).failure.Some?
    ensures var done := Fold(step, data, cache, files[..k]);
            Fold(step, data, cache, files) == step(done.data, done.cache, files[k])
  {
    var a, b := files[..k], files[k..];
    assert files == a + b;
    FoldAppend(step, data, cache, a, b);
    assert b[0] == files[k];
  }

  /**
   * No rollback: when the first `k` files went through and file `k` fails (no
   * parser for its extension, or its adapter failed), `add` ends there with
   * that error, and the tree is the one the first `k` files made.
   */
  lemma FailureKeepsCommittedPrefix(policy: CachePolicy, parsers: seq<Registration>, data: seq<Entry>,
                                    cache: map<string, string>, files: seq<string>, parse: ParseFn, k: nat)
    requires k < |files|
    requires AddFiles(policy, parsers, data, cache, files[..k], parse).failure.None?
    requires var done := AddFiles(policy, parsers, data, cache, files[..k], parse);
             AddFile(policy, parsers, done.data, done.cache, files[k], parse).failure.Some?
    ensures var done := AddFiles(policy, parsers, data, cache, files[..k], parse);
            var run := AddFiles(policy, parsers, data, cache, files, parse);
            && run.data == done.data
            && run.failure == AddFile(policy, parsers, done.data, done.cache, files[k], parse).failure
  {
    var pass := Pass(policy, parsers, parse);
    var done := Fold(pass, data, cache, files[..k]);
    assert pass(done.data, done.cache, files[k]) == AddFile(policy, parsers, done.data, done.cache, files[k], parse);
    FoldStopsAtFailure(pass, data, cache, files, k);
  }

  /**
   * As written, a successful `add` sees each extension at most once and none
   * already cached: a second file with an extension that has been parsed
   * before hits the cache and is refused.
   */
  lemma {:induction false} AsWrittenNeedsFreshExtensions(parsers: seq<Registration>, data: seq<Entry>,
                                                         cache: map<string, string>, files: seq<string>, parse: ParseFn)
    requires AddFiles(AsWritten, parsers, data, cache, files, parse).failure.None?
    ensures forall i :: 0 <= i < |files| ==> Extension(files[i]) !in cache
    ensures forall i, j :: 0 <= i < j < |files| ==> Extension(files[i]) != Extension(files[j])
    decreases files
  {
    if files != [] {
      var step := AddFile(AsWritten, parsers, data, cache, files[0], parse);
      assert step.failure.None?;
      assert Extension(files[0]) !in cache && Extension(files[0]) in step.cache;
      var rest := files[1..];
      AsWrittenNeedsFreshExtensions(parsers, step.data, step.cache, rest, parse);
      forall i | 1 <= i < |files|
        ensures Extension(files[i]) !in step.cache
      {
        assert files[i] == rest[i - 1];
      }
      forall i, j | 0 <= i < j < |files|
        ensures Extension(files[i]) != Extension(files[j])
      {
        if i > 0 {
          assert files[i] == rest[i - 1] && files[j] == rest[j - 1];
        }
      }
    }
  }

  /** The corrected lookup: with the cache pinned, every file whose extension is known is parsed. */
  lemma {:induction false} PinnedParsesEveryKnownExtension(parsers: seq<Registration>, data: seq<Entry>,
                                                           cache: map<string, string>, files: seq<string>, parse: ParseFn)
    requires forall i :: 0 <= i < |files| ==> Extension(files[i]) in cache || FirstMatch(parsers, Extension(files[i])).Some?
    requires forall i :: 0 <= i < |files| ==> forall adapter :: parse(adapter, files[i]).Success?
    ensures AddFiles(Pinned, parsers, data, cache, files, parse).failure.None?
    decreases files
  {
    if files != [] {
      var step := AddFile(Pinned, parsers, data, cache, files[0], parse);
      assert step.failure.None?;
      forall i | 0 <= i < |files[1..]|
        ensures Extension(files[1..][i]) in step.cache || FirstMatch(parsers, Extension(files[1..][i])).Some?
      {
        assert files[1..][i] == files[i + 1];
      }
      forall i | 0 <= i < |files[1..]|
        ensures forall adapter :: parse(adapter, files[1..][i]).Success?
      {
        assert files[1..][i] == files[i + 1];
      }
      PinnedParsesEveryKnownExtension(parsers, step.data, step.cache, files[1..], parse);
    }
  }

  /** One step keeps the tree a well-formed PHP array. */
  lemma AddFileWf(policy: CachePolicy, parsers: seq<Registration>, data: seq<Entry>,
                  cache: map<string, string>, file: string, parse: ParseFn)
    requires WfEntries(data) && YieldsWellFormed(parse)
    ensures WfEntries(AddFile(policy, parsers, data, cache, file, parse).data)
  {
    var found := LookupParser(policy, parsers, cache, Extension(file));
    if found.0.Success? && parse(found.0.value, file).Success? {
      ReplaceRecursiveWf(data, Cast(parse(found.0.value, file).value));
    }
  }

  /** Every tree the loop commits is a well-formed PHP array. */
  lemma {:induction false} AddFilesWf(policy: CachePolicy, parsers: seq<Registration>, data: seq<Entry>,
                                      cache: map<string, string>, files: seq<string>, parse: ParseFn)
    requires WfEntries(data) && YieldsWellFormed(parse)
    ensures WfEntries(AddFiles(policy, parsers, data, cache, files, parse).data)
    decreases files
  {
    if files != [] {
      var step := AddFile(policy, parsers, data, cache, files[0], parse);
      AddFileWf(policy, parsers, data, cache, files[0], parse);
      if step.failure.None? {
        AddFilesWf(policy, parsers, step.data, step.cache, files[1..], parse);
      }
    }
  }

  // ---------------------------------------------------------------------------
  // The PHP object

  class Config {
    var data: seq<Entry>
    var fileParsers: seq<Registration>
    var fileDumpers: seq<Registration>
    var cachedParsers: map<string, string>

    /** Each registry is a PHP array keyed by class name, and the tree is a PHP array. */
    predicate Valid()
      reads this
    {
      UniqueAdapters(fileParsers) && UniqueAdapters(fileDumpers) && WfEntries(data)
    }

    /** `new Config()`: the built-in registries, an empty tree and an empty cache. */
    constructor ()
      ensures Valid()
      ensures data == [] && cachedParsers == map[]
      ensures fileParsers == DefaultParsers && fileDumpers == DefaultDumpers
    {
      data := [];
      fileParsers := DefaultParsers;
      fileDumpers := DefaultDumpers;
      cachedParsers := map[];
    }

    /**
     * `new Config($files)`: a fresh instance that has added `src`, or the
     * exception that escaped. `policy` picks getParser as written or corrected.
     */
    static method Load(policy: CachePolicy, src: Source, fs: FileSystem, parse: ParseFn) returns (r: Result<Config, Error>)
      requires YieldsWellFormed(parse)
      ensures match Resolve(fs, src)
        case Failure(e) => r == Failure(e)
        case Success(files) =>
          var run := AddFiles(policy, DefaultParsers, [], map[], files, parse);
          && (run.failure.Some? ==> r == Failure(run.failure.value))
          && (run.failure.None? ==> r.Success? && fresh(r.value) && r.value.Valid()
                                    && r.value.data == run.data && r.value.cachedParsers == run.cache
                                    && r.value.fileParsers == DefaultParsers && r.value.fileDumpers == DefaultDumpers)
    {
      var c := new Config();
      var failure := c.Add(policy, src, fs, parse);
      if failure.Some? {
        return Failure(failure.value);
      }
      return Success(c);
    }

    /**
     * `add($files)`: resolve everything first, so a missing path changes nothing;
     * then run the loop, committing the tree after every file. With `AsWritten`
     * parsers come from `GetParserAsWritten`, as the PHP method does, so a file
     * whose extension is already cached throws; with `Pinned` they come from the
     * corrected `GetParser`.
     */
    method Add(policy: CachePolicy, src: Source, fs: FileSystem, parse: ParseFn) returns (failure: Option<Error>)
      requires Valid() && YieldsWellFormed(parse)
      modifies this`data, this`cachedParsers
      ensures Valid()
      ensures match Resolve(fs, src)
        case Failure(e) => failure == Some(e) && data == old(data) && cachedParsers == old(cachedParsers)
        case Success(files) =>
          var run := AddFiles(policy, fileParsers, old(data), old(cachedParsers), files, parse);
          data == run.data && cachedParsers == run.cache && failure == run.failure
    {
      var resolved := GetConfigFiles(src, fs);
      if resolved.Failure? {
        return Some(resolved.error);
      }
      failure := AddAll(policy, resolved.value, parse);
    }

    /** The loop of `add`, over the resolved files. */
    method AddAll(policy: CachePolicy, files: seq<string>, parse: ParseFn) returns (failure: Option<Error>)
      requires WfEntries(data) && YieldsWellFormed(parse)
      modifies this`data, this`cachedParsers
      ensures WfEntries(data)
      ensures var run := AddFiles(policy, fileParsers, old(data), old(cachedParsers), files, parse);
              data == run.data && cachedParsers == run.cache && failure == run.failure
    {
      ghost var pass := Pass(policy, fileParsers, parse);
      var i := 0;
      while i < |files|
        invariant 0 <= i <= |files|
        invariant WfEntries(data)
        invariant Fold(pass, data, cachedParsers, files[i..]) == Fold(pass, old(data), old(cachedParsers), files)
      {
        AddFilesAt(policy, fileParsers, data, cachedParsers, files, i, parse);
        failure := LoadFile(policy, files[i], parse);
        if failure.Some? {
          return;
        }
        i := i + 1;
      }
      return None;
    }

    /**
     * One pass of the `add` loop: pick the parser for the file's extension,
     * parse, lay the document over the tree and commit it.
     */
    method LoadFile(policy: CachePolicy, file: string, parse: ParseFn) returns (failure: Option<Error>)
      requires WfEntries(data) && YieldsWellFormed(parse)
      modifies this`data, this`cachedParsers
      ensures WfEntries(data)
      ensures var step := AddFile(policy, fileParsers, old(data), old(cachedParsers), file, parse);
              data == step.data && cachedParsers == step.cache && failure == step.failure
    {
      var parser;
      if policy == AsWritten {
        parser := GetParserAsWritten(Extension(file));
      } else {
        parser := GetParser(Extension(file));
      }
      if parser.Failure? {
        return Some(parser.error);
      }
      var doc := parse(parser.value, file);
      if doc.Failure? {
        return Some(AdapterFailure(parser.value, doc.error));
      }
      ReplaceRecursiveWf(data, Cast(doc.value));
      data := ReplaceRecursive(data, Cast(doc.value));
      return None;
    }

    /** getConfigFiles: the ordered file list, or FileNotFound for the first missing path. */
    static method GetConfigFiles(src: Source, fs: FileSystem) returns (r: Result<seq<string>, Error>)
      ensures r == Resolve(fs, src)
      decreases src
    {
      match src
      case Path(p) =>
        if p in fs.dirs {
          return Success(fs.dirs[p]);
        }
        if p !in fs.files {
          return Failure(FileNotFound(p));
        }
        return Success([p]);
      case List(items) =>
        var result: seq<string> := [];
        var i := 0;
        assert items[0..] == items;
        match ResolveAll(fs, items) {
          case Failure(_) =>
          case Success(all) => assert [] + all == all;
        }
        while i < |items|
          invariant 0 <= i <= |items|
          invariant ResolveAll(fs, items) == Prepend(result, ResolveAll(fs, items[i..]))
        {
          assert items[i..][0] == items[i] && items[i..][1..] == items[i + 1..];
          var sub := GetConfigFiles(items[i], fs);
          if sub.Failure? {
            return Failure(sub.error);
          }
          match ResolveAll(fs, items[i + 1..]) {
            case Failure(_) =>
            case Success(rest) => assert result + (sub.value + rest) == (result + sub.value) + rest;
          }
          result := result + sub.value;
          i := i + 1;
        }
        assert items[i..] == [];
        assert result + [] == result;
        return Success(result);
    }

    /** getParser exactly as written: a cache hit throws; a miss scans the registry and caches the match. */
    method GetParserAsWritten(ext: string) returns (r: Result<string, Error>)
      modifies this`cachedParsers
      ensures (r, cachedParsers) == LookupParser(AsWritten, fileParsers, old(cachedParsers), ext)
    {
      var parserExists := false;
      if ext !in cachedParsers {
        var i := 0;
        while i < |fileParsers|
          invariant 0 <= i <= |fileParsers|
          invariant cachedParsers == old(cachedParsers)
          invariant forall j :: 0 <= j < i ==> ext !in fileParsers[j].extensions
        {
          if ext in fileParsers[i].extensions {
            cachedParsers := cachedParsers[ext := fileParsers[i].adapter];
            parserExists := true;
            break;
          }
          i := i + 1;
        }
      }
      if !parserExists {
        return Failure(UnsupportedExtension(ParseKind, ext));
      }
      return Success(cachedParsers[ext]);
    }

    /** getParser with the cache working: a hit returns the cached adapter; a miss scans and caches. */
    method GetParser(ext: string) returns (r: Result<string, Error>)
      modifies this`cachedParsers
      ensures (r, cachedParsers) == LookupParser(Pinned, fileParsers, old(cachedParsers), ext)
    {
      if ext in cachedParsers {
        return Success(cachedParsers[ext]);
      }
      var i := 0;
      while i < |fileParsers|
        invariant 0 <= i <= |fileParsers|
        invariant forall j :: 0 <= j < i ==> ext !in fileParsers[j].extensions
      {
        if ext in fileParsers[i].extensions {
          cachedParsers := cachedParsers[ext := fileParsers[i].adapter];
          return Success(fileParsers[i].adapter);
        }
        i := i + 1;
      }
      return Failure(UnsupportedExtension(ParseKind, ext));
    }

    /** getDumper: the first registered dumper listing `ext`, read-only. */
    function GetDumper(ext: string): (r: Result<string, Error>)
      reads this
      ensures r.Success? <==> exists i :: 0 <= i < |fileDumpers| && ext in fileDumpers[i].extensions
      ensures r.Success? ==>
        exists i :: 0 <= i < |fileDumpers| && ext in fileDumpers[i].extensions
                    && (forall j :: 0 <= j < i ==> ext !in fileDumpers[j].extensions)
                    && r.value == fileDumpers[i].adapter
      ensures r.Failure? ==> r.error == UnsupportedExtension(DumpKind, ext)
    {
      match FirstMatch(fileDumpers, ext)
      case None => Failure(UnsupportedExtension(DumpKind, ext))
      case Some(i) => Success(fileDumpers[i].adapter)
    }

    /** addDumpers: `array_merge($dumpers, $this->fileDumpers)`. */
    method AddDumpers(dumpers: seq<Registration>)
      requires Valid() && UniqueAdapters(dumpers)
      modifies this`fileDumpers
      ensures Valid()
      ensures fileDumpers == ArrayMerge(dumpers, old(fileDumpers))
    {
      ArrayMergeUnique(dumpers, fileDumpers);
      fileDumpers := ArrayMerge(dumpers, fileDumpers);
    }

    /** addParsers: `array_merge($parsers, $this->fileParsers)`; the cache is left as it is. */
    method AddParsers(parsers: seq<Registration>)
      requires Valid() && UniqueAdapters(parsers)
      modifies this`fileParsers
      ensures Valid()
      ensures fileParsers == ArrayMerge(parsers, old(fileParsers))
    {
      ArrayMergeUnique(parsers, fileParsers);
      fileParsers := ArrayMerge(parsers, fileParsers);
    }

    /** dump: the whole tree, through the dumper for `ext`. */
    method Dump(ext: string, dump: DumpFn) returns (r: Result<string, Error>)
      ensures GetDumper(ext).Failure? ==> r == Failure(UnsupportedExtension(DumpKind, ext))
      ensures GetDumper(ext).Success? ==>
        var adapter := GetDumper(ext).value;
        match dump(adapter, data)
        case Success(text) => r == Success(text)
        case Failure(msg) => r == Failure(AdapterFailure(adapter, msg))
    {
      var dumper := GetDumper(ext);
      if dumper.Failure? {
        return Failure(dumper.error);
      }
      var text := dump(dumper.value, data);
      if text.Failure? {
        return Failure(AdapterFailure(dumper.value, text.error));
      }
      return Success(text.value);
    }
  }
}
