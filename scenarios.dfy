/**
 * Concrete runs of the model: the behaviours the library documents, and the
 * ones where the code departs from them.
 */
module Scenarios {
  import opened Wrappers
  import opened PhpArray
  import opened Paths
  import opened Registry
  import opened Configurator

  function Int(i: int): Value {
    Scalar(IntAtom(i))
  }

  function Str(s: string): Value {
    Scalar(StrAtom(s))
  }

  /** A later file's scalar replaces an earlier one under the same key; other keys stay. */
  lemma LaterFileWins()
    ensures ReplaceRecursive([Entry(StrKey("a"), Int(1)), Entry(StrKey("b"), Int(2))],
                             [Entry(StrKey("b"), Int(3))])
         == [Entry(StrKey("a"), Int(1)), Entry(StrKey("b"), Int(3))]
  {
    var base := [Entry(StrKey("a"), Int(1)), Entry(StrKey("b"), Int(2))];
    var repl := [Entry(StrKey("b"), Int(3))];
    assert repl[..0] == [];
    assert IndexOf(base, StrKey("b")) == Some(1);
  }

  /** Nested tables are united key by key. */
  lemma NestedTablesUnite()
    ensures ReplaceRecursive([Entry(StrKey("db"), Arr([Entry(StrKey("host"), Str("x"))]))],
                             [Entry(StrKey("db"), Arr([Entry(StrKey("port"), Int(5432))]))])
         == [Entry(StrKey("db"), Arr([Entry(StrKey("host"), Str("x")), Entry(StrKey("port"), Int(5432))]))]
  {
    var inner := [Entry(StrKey("host"), Str("x"))];
    var innerRepl := [Entry(StrKey("port"), Int(5432))];
    assert innerRepl[..0] == [];
    assert IndexOf(inner, StrKey("port")) == None;
    assert ReplaceRecursive(inner, innerRepl) == inner + innerRepl;
    var base := [Entry(StrKey("db"), Arr(inner))];
    var repl := [Entry(StrKey("db"), Arr(innerRepl))];
    assert repl[..0] == [];
    assert IndexOf(base, StrKey("db")) == Some(0);
    assert ReplaceRecursive(base, repl) == Put(base, repl[0]);
    assert Put(base, repl[0]) == [Entry(StrKey("db"), Arr(inner + innerRepl))];
    assert inner + innerRepl == [Entry(StrKey("host"), Str("x")), Entry(StrKey("port"), Int(5432))];
  }

  /**
   * A list in a later file does not replace the earlier list: its elements
   * overwrite the earlier ones index by index and the rest survive.
   */
  lemma ListsMergeByIndex()
    ensures ReplaceRecursive([Entry(IntKey(0), Int(1)), Entry(IntKey(1), Int(2)), Entry(IntKey(2), Int(3))],
                             [Entry(IntKey(0), Int(9))])
         == [Entry(IntKey(0), Int(9)), Entry(IntKey(1), Int(2)), Entry(IntKey(2), Int(3))]
  {
    var repl := [Entry(IntKey(0), Int(9))];
    assert repl[..0] == [];
  }

  lemma ExtensionOfJsonFile()
    ensures Extension("conf/app.json") == "json"
  {
    ExtensionOfJoin("conf", "app", "json");
    assert "conf" + "/" + "app" + "." + "json" == "conf/app.json";
  }

  /** Extensions are compared exactly: an upper-case extension finds no parser. */
  lemma UpperCaseExtensionUnsupported(cache: map<string, string>)
    requires "JSON" !in cache
    ensures LookupParser(AsWritten, DefaultParsers, cache, "JSON").0 == Failure(UnsupportedExtension(ParseKind, "JSON"))
  {
  }

  /** A fresh configuration cannot dump TOML. */
  lemma TomlIsNotDumpable(c: Config)
    requires c.fileDumpers == DefaultDumpers
    ensures c.GetDumper("toml") == Failure(UnsupportedExtension(DumpKind, "toml"))
  {
  }

  /**
   * As written, a second `.json` file is refused: the first one cached the JSON
   * parser, and the cache hit leaves `$parserExists` false.
   */
  lemma SecondJsonFileRefused(parse: ParseFn)
    requires forall adapter :: parse(adapter, "conf/app.json").Success?
    ensures AddFiles(AsWritten, DefaultParsers, [], map[], ["conf/app.json", "conf/app.json"], parse).failure
            == Some(UnsupportedExtension(ParseKind, "json"))
  {
    ExtensionOfJsonFile();
    var files := ["conf/app.json", "conf/app.json"];
    var first := AddFile(AsWritten, DefaultParsers, [], map[], files[0], parse);
    assert first.failure.None? && "json" in first.cache;
    var second := AddFile(AsWritten, DefaultParsers, first.data, first.cache, files[1], parse);
    assert second.failure == Some(UnsupportedExtension(ParseKind, "json"));
    AddFilesAt(AsWritten, DefaultParsers, [], map[], files, 0, parse);
    AddFilesAt(AsWritten, DefaultParsers, first.data, first.cache, files, 1, parse);
    assert files[0..] == files;
  }

  /** With the cache pinned, the same two files load. */
  lemma SecondJsonFileLoadsWhenPinned(parse: ParseFn)
    requires forall adapter :: parse(adapter, "conf/app.json").Success?
    ensures AddFiles(Pinned, DefaultParsers, [], map[], ["conf/app.json", "conf/app.json"], parse).failure.None?
  {
    ExtensionOfJsonFile();
    var files := ["conf/app.json", "conf/app.json"];
    assert FirstMatch(DefaultParsers, "json").Some?;
    PinnedParsesEveryKnownExtension(DefaultParsers, [], map[], files, parse);
  }

  /**
   * The same through the class: adding `conf/app.json` twice to a new Config
   * throws on the second file as written, and loads both with the cache pinned.
   */
  method AddSameJsonFileTwice(parse: ParseFn) returns (asWritten: Option<Error>, pinned: Option<Error>)
    requires YieldsWellFormed(parse)
    requires forall adapter :: parse(adapter, "conf/app.json").Success?
    ensures asWritten == Some(UnsupportedExtension(ParseKind, "json"))
    ensures pinned == None
  {
    var fs := FileSystem(map[], {"conf/app.json"});
    var src := List([Path("conf/app.json"), Path("conf/app.json")]);
    var one := [Path("conf/app.json")];
    assert Expand(fs, "conf/app.json") == Success(["conf/app.json"]);
    assert Resolve(fs, Path("conf/app.json")) == Success(["conf/app.json"]);
    assert one[1..] == [] && src.items[1..] == one;
    assert ResolveAll(fs, []) == Success([]);
    assert ["conf/app.json"] + [] == ["conf/app.json"];
    assert ResolveAll(fs, one) == Success(["conf/app.json"]);
    assert src.items[0] == Path("conf/app.json");
    assert ["conf/app.json"] + ["conf/app.json"] == ["conf/app.json", "conf/app.json"];
    assert ResolveAll(fs, src.items) == Success(["conf/app.json", "conf/app.json"]);
    assert Resolve(fs, src) == Success(["conf/app.json", "conf/app.json"]);
    SecondJsonFileRefused(parse);
    SecondJsonFileLoadsWhenPinned(parse);
    var c := new Config();
    asWritten := c.Add(AsWritten, src, fs, parse);
    var d := new Config();
    pinned := d.Add(Pinned, src, fs, parse);
  }
}
