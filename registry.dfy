/**
 * The two adapter registries of `Config` and the parser cache.
 *
 * A registry is the PHP array `[AdapterClass::class => ['ext', ...], ...]`:
 * an ordered list of registrations, one per adapter class. Lookup is a
 * first-match scan in registry order with exact string comparison of the
 * extension. An adapter instance is represented by its class name.
 */
module Registry {
  import opened Wrappers
  import opened Seqs

  datatype Registration = Registration(adapter: string, extensions: seq<string>)

  const JsonParser := "Assada\\Parser\\JsonParser"
  const YamlParser := "Assada\\Parser\\YamlParser"
  const IniParser := "Assada\\Parser\\IniParser"
  const PhpParser := "Assada\\Parser\\PhpParser"
  const XmlParser := "Assada\\Parser\\XmlParser"

  const JsonDumper := "Assada\\Dumper\\JsonDumper"
  const YamlDumper := "Assada\\Dumper\\YamlDumper"
  const IniDumper := "Assada\\Dumper\\IniDumper"
  const PhpDumper := "Assada\\Dumper\\PhpDumper"

  /** The parser registry a new Config starts with. */
  const DefaultParsers: seq<Registration> := [
    Registration(JsonParser, ["json"]),
    Registration(YamlParser, ["yml"]),
    Registration(IniParser, ["ini"]),
    Registration(PhpParser, ["php"]),
    Registration(XmlParser, ["xml"])
  ]

  /** The dumper registry a new Config starts with. */
  const DefaultDumpers: seq<Registration> := [
    Registration(JsonDumper, ["json"]),
    Registration(YamlDumper, ["yml"]),
    Registration(IniDumper, ["ini"]),
    Registration(PhpDumper, ["php"])
  ]

  function Adapters(regs: seq<Registration>): (names: seq<string>)
    ensures |names| == |regs|
    ensures forall i :: 0 <= i < |regs| ==> names[i] == regs[i].adapter
  {
    seq(|regs|, i requires 0 <= i < |regs| => regs[i].adapter)
  }

  /** A PHP array holds each class name as a key at most once. */
  predicate UniqueAdapters(regs: seq<Registration>) {
    Distinct(Adapters(regs))
  }

  /** The first registration listing `ext`: the `foreach ... in_array ... break` scan. */
  function FirstMatch(regs: seq<Registration>, ext: string): (r: Option<nat>)
    ensures r.Some? ==> r.value < |regs| && ext in regs[r.value].extensions
    ensures r.Some? ==> forall j :: 0 <= j < r.value ==> ext !in regs[j].extensions
    ensures r.None? <==> forall j :: 0 <= j < |regs| ==> ext !in regs[j].extensions
  {
    if regs == [] then None
    else if ext in regs[0].extensions then Some(0)
    else
      match FirstMatch(regs[1..], ext)
      case None =>
        assert forall j :: 1 <= j < |regs| ==> regs[j] == regs[1..][j - 1];
        None
      case Some(i) => Some(i + 1)
  }

  // ---------------------------------------------------------------------------
  // array_merge($new, $old), as addParsers and addDumpers use it

  /** Where class `a` sits in the registry. */
  function IndexOfAdapter(regs: seq<Registration>, a: string): (r: Option<nat>)
    ensures r.Some? ==> r.value < |regs| && regs[r.value].adapter == a
    ensures r.Some? ==> forall j :: 0 <= j < r.value ==> regs[j].adapter != a
    ensures r.None? <==> a !in Adapters(regs)
  {
    if regs == [] then None
    else if regs[0].adapter == a then Some(0)
    else
      assert Adapters(regs[1..]) == Adapters(regs)[1..];
      match IndexOfAdapter(regs[1..], a)
      case None => None
      case Some(i) => Some(i + 1)
  }

  /** The extension list registered for class `a`, if any. */
  function ExtensionsOf(regs: seq<Registration>, a: string): Option<seq<string>> {
    match IndexOfAdapter(regs, a)
    case None => None
    case Some(i) => Some(regs[i].extensions)
  }

  /** One step of array_merge with a string key: overwrite in place, or append. */
  function Overlay(acc: seq<Registration>, e: Registration): (r: seq<Registration>)
    ensures Adapters(r) == if e.adapter in Adapters(acc) then Adapters(acc) else Adapters(acc) + [e.adapter]
  {
    match IndexOfAdapter(acc, e.adapter)
    case None => acc + [e]
    case Some(i) => acc[i := e]
  }

  /** `array_merge($front, $back)` for string keys: `back`'s entries laid over `front`, in order. */
  function ArrayMerge(front: seq<Registration>, back: seq<Registration>): (r: seq<Registration>)
    ensures Adapters(r) == Adapters(front) + Appended(Adapters(front), Adapters(back))
  {
    if back == [] then front
    else
      var n := |back| - 1;
      assert Adapters(back[..n]) == Adapters(back)[..n];
      Overlay(ArrayMerge(front, back[..n]), back[n])
  }

  lemma IndexOfAdapterSameNames(a: seq<Registration>, b: seq<Registration>, name: string)
    requires Adapters(a) == Adapters(b)
    ensures IndexOfAdapter(a, name) == IndexOfAdapter(b, name)
  {
  }

  lemma {:induction false} IndexOfAdapterSnoc(regs: seq<Registration>, e: Registration, a: string)
    ensures IndexOfAdapter(regs + [e], a) ==
            if IndexOfAdapter(regs, a).Some? then IndexOfAdapter(regs, a)
            else if e.adapter == a then Some(|regs|) else None
  {
    if regs != [] && regs[0].adapter != a {
      assert (regs + [e])[1..] == regs[1..] + [e];
      IndexOfAdapterSnoc(regs[1..], e, a);
    }
  }

  lemma OverlayExtensions(acc: seq<Registration>, e: Registration, a: string)
    ensures ExtensionsOf(Overlay(acc, e), a) == if a == e.adapter then Some(e.extensions) else ExtensionsOf(acc, a)
  {
    match IndexOfAdapter(acc, e.adapter)
    case None =>
      IndexOfAdapterSnoc(acc, e, a);
    case Some(i) =>
      IndexOfAdapterSameNames(Overlay(acc, e), acc, a);
  }

  /**
   * What `array_merge($new, $old)` makes of the registry: the caller's classes
   * first, in the caller's order, then the old classes the caller did not
   * name; a class present in both keeps the OLD extension list, since the later
   * argument wins for string keys.
   */
  lemma {:induction false} ArrayMergeRegistry(front: seq<Registration>, back: seq<Registration>, a: string)
    requires UniqueAdapters(back)
    ensures ExtensionsOf(ArrayMerge(front, back), a) ==
            if a in Adapters(back) then ExtensionsOf(back, a) else ExtensionsOf(front, a)
  {
    if back != [] {
      var n := |back| - 1;
      var prefix, e := back[..n], back[n];
      assert back == prefix + [e];
      assert Adapters(prefix) == Adapters(back)[..n];
      assert UniqueAdapters(prefix);
      ArrayMergeRegistry(front, prefix, a);
      OverlayExtensions(ArrayMerge(front, prefix), e, a);
      IndexOfAdapterSnoc(prefix, e, a);
      assert a in Adapters(back) <==> a in Adapters(prefix) || a == e.adapter;
      if a == e.adapter {
        assert Adapters(back)[n] == a;
        assert a !in Adapters(prefix);
      }
    }
  }

  /** The merged registry still holds each class once. */
  lemma ArrayMergeUnique(front: seq<Registration>, back: seq<Registration>)
    requires UniqueAdapters(front)
    ensures UniqueAdapters(ArrayMerge(front, back))
  {
    DistinctAfterAppend(Adapters(front), Adapters(back));
  }

  /**
   * Caller-supplied classes take priority: when none of them was registered
   * before and one of them lists `ext`, dispatch picks the first such caller
   * class, ahead of every built-in one.
   */
  lemma {:induction false} CallerAdaptersFirst(added: seq<Registration>, regs: seq<Registration>, ext: string)
    requires UniqueAdapters(added)
    requires forall i :: 0 <= i < |added| ==> added[i].adapter !in Adapters(regs)
    requires FirstMatch(added, ext).Some?
    ensures var merged := ArrayMerge(added, regs);
      && FirstMatch(merged, ext).Some?
      && merged[FirstMatch(merged, ext).value] == added[FirstMatch(added, ext).value]
  {
    var merged := ArrayMerge(added, regs);
    var k := FirstMatch(added, ext).value;
    ArrayMergeKeepsFront(added, regs);
    assert forall j :: 0 <= j <= k ==> merged[j] == merged[..|added|][j];
    FirstMatchAt(merged, ext, k);
  }

  /** The scan stops at the first registration listing `ext`. */
  lemma {:induction false} FirstMatchAt(regs: seq<Registration>, ext: string, k: nat)
    requires k < |regs| && ext in regs[k].extensions
    requires forall j :: 0 <= j < k ==> ext !in regs[j].extensions
    ensures FirstMatch(regs, ext) == Some(k)
  {
    if k > 0 {
      assert ext !in regs[0].extensions;
      FirstMatchAt(regs[1..], ext, k - 1);
    }
  }

  /** With no overlap in class names, array_merge keeps the first argument as a prefix. */
  lemma {:induction false} ArrayMergeKeepsFront(front: seq<Registration>, back: seq<Registration>)
    requires forall i :: 0 <= i < |front| ==> front[i].adapter !in Adapters(back)
    ensures |ArrayMerge(front, back)| >= |front| && ArrayMerge(front, back)[..|front|] == front
  {
    if back != [] {
      var n := |back| - 1;
      assert Adapters(back[..n]) == Adapters(back)[..n];
      assert forall i :: 0 <= i < |front| ==> front[i].adapter !in Adapters(back[..n]);
      ArrayMergeKeepsFront(front, back[..n]);
      assert Adapters(back)[n] == back[n].adapter;
    }
  }

  // ---------------------------------------------------------------------------
  // getParser and its cache

  /**
   * How a cached extension is answered: `AsWritten` is the code's behaviour,
   * where a hit leaves `$parserExists` false and throws; `Pinned` returns the
   * cached adapter, as the cache is evidently meant to.
   */
  datatype CachePolicy = AsWritten | Pinned

  /** getParser: the adapter for `ext` and the cache afterwards. */
  function LookupParser(policy: CachePolicy, parsers: seq<Registration>, cache: map<string, string>, ext: string)
    : (res: (Result<string, Error>, map<string, string>))
    ensures ext in cache ==> res.1 == cache
    ensures ext in cache && policy == AsWritten ==> res.0 == Failure(UnsupportedExtension(ParseKind, ext))
    ensures ext in cache && policy == Pinned ==> res.0 == Success(cache[ext])
    ensures res.0.Success? ==> ext in res.1 && res.0.value == res.1[ext]
    ensures res.0.Failure? ==> res.0.error == UnsupportedExtension(ParseKind, ext) && res.1 == cache
    ensures cache.Keys <= res.1.Keys
  {
    if ext in cache then
      if policy == Pinned then (Success(cache[ext]), cache)
      else (Failure(UnsupportedExtension(ParseKind, ext)), cache)
    else
      match FirstMatch(parsers, ext)
      case None => (Failure(UnsupportedExtension(ParseKind, ext)), cache)
      case Some(i) => (Success(parsers[i].adapter), cache[ext := parsers[i].adapter])
  }

  /**
   * On a cache miss, under either policy, the lookup succeeds exactly when some
   * registered parser lists `ext`; it answers with the first such parser and
   * caches it for `ext`, leaving every other cache entry as it was.
   */
  lemma LookupParserMiss(policy: CachePolicy, parsers: seq<Registration>, cache: map<string, string>, ext: string)
    requires ext !in cache
    ensures var res := LookupParser(policy, parsers, cache, ext);
      && (res.0.Success? <==> exists i :: 0 <= i < |parsers| && ext in parsers[i].extensions)
      && (res.0.Success? ==>
            exists i :: 0 <= i < |parsers| && ext in parsers[i].extensions
                        && (forall j :: 0 <= j < i ==> ext !in parsers[j].extensions)
                        && res.0.value == parsers[i].adapter && res.1 == cache[ext := parsers[i].adapter])
  {
    match FirstMatch(parsers, ext)
    case None =>
    case Some(i) =>
      assert ext in parsers[i].extensions;
  }

  /**
   * With the pinned cache, once an extension has been resolved no later
   * change of the registry alters its adapter.
   */
  lemma PinnedIgnoresRegistry(before: seq<Registration>, after: seq<Registration>, cache: map<string, string>, ext: string)
    requires ext in cache
    ensures LookupParser(Pinned, before, cache, ext) == LookupParser(Pinned, after, cache, ext)
  {
  }
}
