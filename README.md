# Assada Config — merge-and-dispatch engine

A Dafny model of `Assada\Config`, a PHP library that loads configuration files
of several formats and merges them into one tree.

A caller hands `add` a path, or an arbitrarily nested array of paths:

- directories expand to their `*.*` listing;
- each file's extension (the last `.`-segment of its basename) picks a parser adapter from an ordered registry;
- the parsed document is cast with `(array)` and laid over the current tree with PHP's `array_replace_recursive`;
- the tree is committed after every file.

`dump` hands the whole tree to the dumper registered for an extension.
`addParsers`/`addDumpers` extend the registries with `array_merge`.

Modules:

- `Wrappers`: `Option`, `Result` and the library's three exceptions: file not found, unsupported extension, and an adapter's own failure.
- `Seqs`: distinctness and the "keys appended by an overlay" sequence.
- `PhpArray`: PHP arrays as ordered lists of `(int|string key, value)` entries. It defines the `(array)` cast and `array_replace_recursive`, with a key-by-key reference definition (`MergedAt`) and the lemmas tying the two together.
- `Paths`: `getConfigFiles` over a filesystem value, plus `basename` and extension extraction.
- `Registry`: the parser and dumper registries, the first-match scan, `array_merge` of registries, and `getParser`'s cache lookup. The lookup comes in two policies: as written, and with the cache working.
- `Configurator`:
  - the `add` loop as a specification function (`AddFiles`, a `Fold` of one pass per file);
  - its lemmas;
  - the class `Config`, whose four fields (`data`, `fileParsers`, `fileDumpers`, `cachedParsers`) its methods update in place.
- `Scenarios`: concrete runs, covering the documented merge examples and the places where the code departs from the documentation.

Where the library's documentation and its code disagree, the model follows the code:

- Extensions are compared exactly, so `app.JSON` finds no parser (`Scenarios.UpperCaseExtensionUnsupported`).
- `array_replace_recursive` merges integer-keyed lists element by element rather than replacing them (`Scenarios.ListsMergeByIndex`).
- A file that fails part-way through `add` leaves the files before it committed; there is no rollback (`Configurator.FailureKeepsCommittedPrefix`).
- `getParser` throws on a cache hit. This is recorded under Findings. `Config.GetParserAsWritten` and `AddFiles(AsWritten, …)` model it as written. `Config.GetParser` and `AddFiles(Pinned, …)` are the corrected lookup and loop. `Config.Load`, `Add`, `AddAll` and `LoadFile` take the policy as a parameter: with `AsWritten` they behave exactly as the PHP methods do, and with `Pinned` they use the corrected lookup.

The filesystem is a value: a map from each directory to its glob listing, plus the set of existing files.
The adapters are function parameters: `parse` maps an adapter name and a path to a value or an error message, and `dump` maps an adapter name and the tree to text or an error message.

## Model

| member | source | states |
|---|---|---|
| PhpArray.Cast | src/Config.php:77 | `(array)` of a parse result: null gives `[]`, a scalar gives `[0 => scalar]`, an array is itself; a well-formed value gives well-formed entries |
| PhpArray.Put | src/Config.php:77 | laying one entry over an array keeps the key order and appends the key only when it is new |
| PhpArray.ReplaceRecursive | src/Config.php:77 | the keys of the result are the old keys in their old positions, followed by the new keys in the order the document first lists them |
| PhpArray.ReplaceRecursiveLookup | src/Config.php:77 | key by key, the merge agrees with `MergedAt`: a key only in the old tree keeps its value; a key in the document takes the new value, unless both values are arrays, which are merged recursively |
| PhpArray.ReplaceRecursiveWf | src/Config.php:77 | merging two well-formed arrays (no repeated key at any depth) gives a well-formed array |
| PhpArray.ReplaceRecursiveSelf | src/Config.php:77 | merging a well-formed array onto itself changes nothing |
| PhpArray.ReplaceRecursiveIdempotent | src/Config.php:77 | merging the same document twice gives the same tree as merging it once |
| Paths.Resolve | src/Config.php:91-113 | getConfigFiles: the only exception is FileNotFound, for a path that is neither a directory nor an existing file; every resolved path is an existing file or an entry of a directory listing |
| Paths.Expand | src/Config.php:102-112 | a directory gives its listing, else an existing file gives exactly `[path]`, else FileNotFound carrying the path |
| Paths.ResolveIsLeafwise | src/Config.php:91-113 | resolving any nested input is expanding its paths depth-first, left to right |
| Paths.ResolveConcat | src/Config.php:93-99 | resolution preserves order: resolving `xs + ys` is resolving `xs`, then `ys`, concatenated |
| Paths.ExpandAllFirstMissing | src/Config.php:106-108 | resolution fails with FileNotFound for the first path that is neither a directory nor a file |
| Paths.ExpandAllNoneMissing | src/Config.php:102-112 | resolution succeeds when every path is a directory or an existing file |
| Paths.AfterLastIsSuffix | src/Config.php:71-73 | the text after the last separator is a suffix of the input |
| Paths.AfterLastFollowsC | src/Config.php:71-73 | when the separator occurs, the character just before that suffix is the separator |
| Paths.AfterLastWhole | src/Config.php:72-73 | with no separator, the whole input is returned, as `array_pop(explode(...))` does |
| Paths.TrimSlashesDropsOnlySlashes | src/Config.php:71 | basename drops only trailing slashes |
| Paths.Basename | src/Config.php:71 | the basename holds no `/` |
| Paths.Extension | src/Config.php:71-73 | the extension holds no `.` |
| Paths.ExtensionSplit | src/Config.php:71-73 | the basename is the text before its last dot, a dot, and the extension; a basename without a dot is its own extension; the extension never holds a `/` |
| Paths.ExtensionOfJoin | src/Config.php:71-73 | a file `dir/stem.ext` has extension `ext`, whatever dots the directory holds |
| Registry.FirstMatch | src/Config.php:125-131 | the scan returns the first registration listing the extension, and fails exactly when none lists it |
| Registry.FirstMatchAt | src/Config.php:125-131 | the scan stops at the first registration that lists the extension |
| Registry.ArrayMerge | src/Config.php:162-179 | `array_merge($new, $old)`: the caller's classes come first in caller order, then the old classes the caller did not name |
| Registry.ArrayMergeRegistry | src/Config.php:162-179 | a class that was already registered keeps its old extension list; any other class gets the caller's list |
| Registry.ArrayMergeUnique | src/Config.php:162-179 | after the merge, each class is still registered once |
| Registry.ArrayMergeKeepsFront | src/Config.php:162-179 | when the caller's classes are all new, the merged registry starts with the caller's registrations |
| Registry.CallerAdaptersFirst | src/Config.php:162-179 | a new caller class that lists an extension is dispatched ahead of every built-in class |
| Registry.LookupParser | src/Config.php:121-139 | a miss that fails leaves the cache unchanged; a hit throws as written and returns the cached adapter when the cache works; a success is what the cache then holds for the extension |
| Registry.LookupParserMiss | src/Config.php:124-138 | on an uncached extension, the lookup succeeds exactly when some parser lists it, returns the first such parser, and records only that entry in the cache |
| Registry.PinnedIgnoresRegistry | src/Config.php:121-139 | with a working cache, a cached extension's parser does not depend on later registry changes |
| Configurator.AddFile | src/Config.php:71-79 | one pass: a failing file leaves the tree unchanged; a successful pass records its extension in the cache; as written, it succeeds only on an uncached extension |
| Configurator.AddFiles | src/Config.php:70-80 | the `add` loop over resolved files: the parser cache only grows, and when no file failed it holds the extension of every file |
| Configurator.FoldAppend | src/Config.php:70-80 | looping over `a + b` is looping over `a`, then, if nothing failed, over `b` from there |
| Configurator.FoldStopsAtFailure | src/Config.php:70-80 | the loop ends at the first failing file, with what that pass left |
| Configurator.FailureKeepsCommittedPrefix | src/Config.php:70-80 | when file k fails, the error is that file's and the tree is the merge of the first k files onto the old tree |
| Configurator.AsWrittenNeedsFreshExtensions | src/Config.php:123-136 | as written, a successful `add` saw pairwise distinct extensions, none of them cached before |
| Configurator.PinnedParsesEveryKnownExtension | src/Config.php:121-139 | with a working cache, `add` succeeds when every extension is cached or registered and every file parses |
| Configurator.AddFileWf | src/Config.php:77-79 | each pass commits a well-formed tree |
| Configurator.AddFilesWf | src/Config.php:68-83 | the tree stays well-formed across the whole loop |
| Configurator.Config.constructor | src/Config.php:29-44 | a new Config has the built-in parser and dumper registries, an empty tree and an empty cache |
| Configurator.Config.Load | src/Config.php:54-59 | `new Config($files)` is a fresh Config that has added the files, or the exception `add` raised; with `AsWritten` exactly as the PHP code does, with `Pinned` using the corrected lookup |
| Configurator.Config.Add | src/Config.php:68-83 | a missing path changes nothing; otherwise the new tree, cache and error are those of the loop over the resolved files, under the given lookup policy (`AsWritten` is the PHP method) |
| Configurator.Config.AddAll | src/Config.php:70-80 | the loop of `add` leaves exactly what `AddFiles` prescribes for the given policy and keeps the tree well-formed |
| Configurator.Config.LoadFile | src/Config.php:71-79 | one iteration: extension, parser (`GetParserAsWritten` or `GetParser` by policy), parse, cast, merge, commit, as `AddFile` prescribes |
| Configurator.Config.GetConfigFiles | src/Config.php:91-113 | the accumulator loop computes `Resolve` |
| Configurator.Config.GetParser | src/Config.php:121-139 | the parser lookup with a working cache: returns and updates the cache as `LookupParser(Pinned, …)` prescribes |
| Configurator.Config.GetParserAsWritten | src/Config.php:121-139 | getParser as written: returns and updates the cache as `LookupParser(AsWritten, …)` prescribes, so a cache hit throws |
| Configurator.Config.GetDumper | src/Config.php:147-155 | succeeds exactly when some registered dumper lists the extension, and then returns the first such dumper; otherwise UnsupportedExtension for that extension |
| Configurator.Config.AddDumpers | src/Config.php:162-167 | the dumper registry becomes `array_merge($dumpers, old)` and still holds each class once |
| Configurator.Config.AddParsers | src/Config.php:174-179 | the parser registry becomes `array_merge($parsers, old)` and still holds each class once; the cache is untouched |
| Configurator.Config.Dump | src/Config.php:187-192 | UnsupportedExtension when no dumper lists the extension, otherwise the chosen dumper's output for the whole tree, or its error |
| Scenarios.LaterFileWins | src/Config.php:77 | `{a:1, b:2}` then `{b:3}` gives `{a:1, b:3}` |
| Scenarios.NestedTablesUnite | src/Config.php:77 | `{db:{host}}` then `{db:{port}}` gives `{db:{host, port}}` |
| Scenarios.ListsMergeByIndex | src/Config.php:77 | `[1,2,3]` then `[9]` gives `[9,2,3]` |
| Scenarios.ExtensionOfJsonFile | src/Config.php:71-73 | `conf/app.json` has extension `json` |
| Scenarios.UpperCaseExtensionUnsupported | src/Config.php:126 | `JSON` finds no parser |
| Scenarios.TomlIsNotDumpable | src/Config.php:147-155 | a fresh Config cannot dump `toml` |
| Scenarios.SecondJsonFileRefused | src/Config.php:123-136 | as written, a second `.json` file in one Config fails with UnsupportedExtension |
| Scenarios.SecondJsonFileLoadsWhenPinned | src/Config.php:121-139 | with the cache working, the same two files load |
| Scenarios.AddSameJsonFileTwice | src/Config.php:68-83 | adding `conf/app.json` twice to a new Config throws UnsupportedExtension("json") as written, and loads both files with the cache working |

## Left out

- The format adapters (JSON, YAML, INI, PHP, XML parsers and dumpers): they are the `parse` and `dump` parameters. An adapter instance is its class name. Reflection (`new $fileParser()`) is not modelled.
- `AbstractConfig` is not part of this model. `data` is a plain field: `all()` reads it and `setData` writes it.
- The real filesystem is not modelled: `is_dir`, `file_exists` and `glob` are the `FileSystem` value. This leaves out glob's ordering and the filtering done by its `*.*` pattern, `glob` returning false, and symbolic links.
- `in_array` with loose comparison is modelled as exact string equality. PHP's numeric-string array keys and key renumbering by `array_merge` are not modelled. The registries are keyed by class-name strings, and the file lists are plain sequences.
- Floating-point scalars and `(array)` applied to objects are not modelled.
- Exception messages are left out: errors carry only their kind and the path or extension.
- Strings are sequences of characters, with no encoding and no case folding; PHP compares them byte by byte.
- Registries are lists of (class name, extensions) pairs. `addParsers` and `addDumpers` require that each class occur once in the argument, which a PHP array key guarantees by construction.

## Findings

| source | as written | input that shows it | evidently intended | confidence | as-written member | corrected member |
|---|---|---|---|---|---|---|
| src/Config.php:123-136 | `$parserExists` is set only on a cache miss, so a cache hit throws UnsupportedExtension | loading `conf/app.json` twice (or any two `.json` files) into one Config | a cache hit returns the cached parser | high; not executed | Scenarios.SecondJsonFileRefused | Configurator.Config.GetParser |
