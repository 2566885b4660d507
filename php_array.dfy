/**
 * PHP arrays as the configuration tree sees them: ordered dictionaries whose
 * keys are integers or strings, holding scalars, null or nested arrays. PHP
 * lists are arrays with integer keys, so there is only one container.
 *
 * `ReplaceRecursive` is PHP's `array_replace_recursive($base, $replacements)`
 * as `Config::add` uses it to lay a parsed document over the current tree.
 */
module PhpArray {
  import opened Wrappers
  import opened Seqs

  datatype Key = IntKey(n: int) | StrKey(s: string)

  /** A PHP scalar (floats are not modelled). */
  datatype Atom = BoolAtom(b: bool) | IntAtom(i: int) | StrAtom(s: string)

  datatype Value = Null | Scalar(atom: Atom) | Arr(entries: seq<Entry>)

  datatype Entry = Entry(key: Key, val: Value)

  function Keys(es: seq<Entry>): (ks: seq<Key>)
    ensures |ks| == |es|
    ensures forall i :: 0 <= i < |es| ==> ks[i] == es[i].key
  {
    seq(|es|, i requires 0 <= i < |es| => es[i].key)
  }

  predicate UniqueKeys(es: seq<Entry>) {
    Distinct(Keys(es))
  }

  /** Every array in the value, at every depth, has each key at most once, as PHP arrays do. */
  predicate Wf(v: Value) {
    match v
    case Arr(es) => UniqueKeys(es) && forall i :: 0 <= i < |es| ==> Wf(es[i].val)
    case _ => true
  }

  predicate WfEntries(es: seq<Entry>) {
    Wf(Arr(es))
  }

  /** The position of key `k`, the first one if it were repeated. */
  function IndexOf(es: seq<Entry>, k: Key): (r: Option<nat>)
    ensures r.Some? ==> r.value < |es| && es[r.value].key == k
    ensures r.Some? ==> forall j :: 0 <= j < r.value ==> es[j].key != k
    ensures r.None? <==> k !in Keys(es)
  {
    if es == [] then None
    else if es[0].key == k then Some(0)
    else
      assert Keys(es[1..]) == Keys(es)[1..];
      match IndexOf(es[1..], k)
      case None => None
      case Some(i) => Some(i + 1)
  }

  /** `$array[$k] ?? null`, distinguishing an absent key from a null value. */
  function Lookup(es: seq<Entry>, k: Key): (r: Option<Value>)
    ensures r.Some? <==> k in Keys(es)
  {
    match IndexOf(es, k)
    case None => None
    case Some(i) => Some(es[i].val)
  }

  /** PHP's `(array)` cast of a parser's result: null is the empty array, a scalar becomes `[0 => scalar]`. */
  function Cast(v: Value): (es: seq<Entry>)
    ensures Wf(v) ==> WfEntries(es)
    ensures v.Arr? ==> es == v.entries
    ensures v.Null? ==> es == []
    ensures v.Scalar? ==> es == [Entry(IntKey(0), v)]
  {
    match v
    case Null => []
    case Scalar(_) => [Entry(IntKey(0), v)]
    case Arr(es) => es
  }

  /**
   * One step of array_replace_recursive: lay entry `e` over `es`. An existing key
   * keeps its position; if both old and new values are arrays they are merged
   * recursively, otherwise the new value replaces the old one. A new key is appended.
   */
  function Put(es: seq<Entry>, e: Entry): (r: seq<Entry>)
    ensures Keys(r) == if e.key in Keys(es) then Keys(es) else Keys(es) + [e.key]
    decreases e
  {
    match IndexOf(es, e.key)
    case None => es + [e]
    case Some(i) =>
      if es[i].val.Arr? && e.val.Arr? then
        es[i := Entry(e.key, Arr(ReplaceRecursive(es[i].val.entries, e.val.entries)))]
      else
        es[i := e]
  }

  /**
   * `array_replace_recursive($base, $repl)`: the entries of `repl` are laid over
   * `base` one by one, in order. Keys of `base` stay where they were and keys new
   * to `base` follow them, in the order `repl` first lists them.
   */
  function ReplaceRecursive(base: seq<Entry>, repl: seq<Entry>): (r: seq<Entry>)
    ensures Keys(r) == Keys(base) + Appended(Keys(base), Keys(repl))
    decreases repl
  {
    if repl == [] then base
    else
      var n := |repl| - 1;
      assert Keys(repl[..n]) == Keys(repl)[..n];
      var acc := ReplaceRecursive(base, repl[..n]);
      Put(acc, repl[n])
  }

  /**
   * What array_replace_recursive leaves at key `k`, decided key by key: a key only
   * in `base` keeps its value, a key of `repl` takes the new value unless both the
   * old and the new values are arrays, in which case the two are merged.
   */
  function MergedAt(base: seq<Entry>, repl: seq<Entry>, k: Key): Option<Value> {
    match Lookup(repl, k)
    case None => Lookup(base, k)
    case Some(nv) =>
      match Lookup(base, k)
      case Some(ov) =>
        if ov.Arr? && nv.Arr? then Some(Arr(ReplaceRecursive(ov.entries, nv.entries))) else Some(nv)
      case None => Some(nv)
  }

  // ---------------------------------------------------------------------------
  // Positions and lookups

  lemma IndexOfSameKeys(a: seq<Entry>, b: seq<Entry>, k: Key)
    requires Keys(a) == Keys(b)
    ensures IndexOf(a, k) == IndexOf(b, k)
  {
  }

  lemma {:induction false} IndexOfSnoc(es: seq<Entry>, e: Entry, k: Key)
    ensures IndexOf(es + [e], k) ==
            if IndexOf(es, k).Some? then IndexOf(es, k)
            else if e.key == k then Some(|es|) else None
  {
    if es != [] && es[0].key != k {
      assert (es + [e])[1..] == es[1..] + [e];
      IndexOfSnoc(es[1..], e, k);
    }
  }

  /** With unique keys, the entry at position `i` is the one found by its key. */
  lemma IndexOfUnique(es: seq<Entry>, i: nat)
    requires UniqueKeys(es) && i < |es|
    ensures IndexOf(es, es[i].key) == Some(i)
  {
    assert Keys(es)[i] == es[i].key;
  }

  /** Laying one entry over `es` changes only the value at that entry's key. */
  lemma PutLookup(es: seq<Entry>, e: Entry, k: Key)
    ensures Lookup(Put(es, e), k) ==
            if k != e.key then Lookup(es, k)
            else match Lookup(es, e.key)
              case Some(ov) =>
                if ov.Arr? && e.val.Arr? then Some(Arr(ReplaceRecursive(ov.entries, e.val.entries))) else Some(e.val)
              case None => Some(e.val)
  {
    var r := Put(es, e);
    match IndexOf(es, e.key)
    case None =>
      IndexOfSnoc(es, e, k);
    case Some(i) =>
      assert Keys(r) == Keys(es);
      IndexOfSameKeys(r, es, k);
  }

  /** Two arrays with unique keys, the same key order and the same value at every key are equal. */
  lemma EntriesExt(a: seq<Entry>, b: seq<Entry>)
    requires UniqueKeys(a) && UniqueKeys(b) && Keys(a) == Keys(b)
    requires forall k :: Lookup(a, k) == Lookup(b, k)
    ensures a == b
  {
    assert |a| == |Keys(a)| == |b|;
    forall i | 0 <= i < |a| ensures a[i] == b[i] {
      assert Keys(a)[i] == Keys(b)[i];
      IndexOfUnique(a, i);
      IndexOfUnique(b, i);
      assert Lookup(a, a[i].key) == Lookup(b, a[i].key);
    }
  }

  // ---------------------------------------------------------------------------
  // The merge, key by key

  /**
   * The result holds at each key exactly what `MergedAt` describes: deep merge
   * when old and new values are both arrays (integer-keyed lists included),
   * replacement otherwise, and untouched values for keys only the base has.
   */
  lemma {:induction false} ReplaceRecursiveLookup(base: seq<Entry>, repl: seq<Entry>, k: Key)
    requires UniqueKeys(repl)
    ensures Lookup(ReplaceRecursive(base, repl), k) == MergedAt(base, repl, k)
    decreases repl
  {
    if repl != [] {
      var n := |repl| - 1;
      var front, e := repl[..n], repl[n];
      assert repl == front + [e];
      assert Keys(front) == Keys(repl)[..n];
      assert UniqueKeys(front);
      ReplaceRecursiveLookup(base, front, k);
      PutLookup(ReplaceRecursive(base, front), e, k);
      IndexOfSnoc(front, e, k);
      if k == e.key {
        assert Keys(repl)[n] == k;
        assert k !in Keys(front);
      }
    }
  }

  /** Laying a well-formed entry over well-formed entries keeps them well-formed. */
  lemma {:induction false} PutWf(es: seq<Entry>, e: Entry)
    requires WfEntries(es) && Wf(e.val)
    ensures WfEntries(Put(es, e))
    decreases e
  {
    var r := Put(es, e);
    match IndexOf(es, e.key)
    case None =>
      assert Keys(r) == Keys(es) + [e.key];
      assert forall i :: 0 <= i < |Keys(es)| ==> Keys(r)[i] != e.key;
      assert forall i :: 0 <= i < |r| ==> Wf(r[i].val) by {
        forall i | 0 <= i < |r| ensures Wf(r[i].val) {
          if i < |es| { assert r[i] == es[i]; }
        }
      }
    case Some(i) =>
      if es[i].val.Arr? && e.val.Arr? {
        assert es[i] in es;
        ReplaceRecursiveWf(es[i].val.entries, e.val.entries);
      }
  }

  lemma WfEntriesPrefix(es: seq<Entry>, n: nat)
    requires WfEntries(es) && n <= |es|
    ensures WfEntries(es[..n])
  {
    assert Keys(es[..n]) == Keys(es)[..n];
    assert forall i :: 0 <= i < n ==> es[..n][i] == es[i];
  }

  /** array_replace_recursive of two well-formed arrays is a well-formed array. */
  lemma {:induction false} ReplaceRecursiveWf(base: seq<Entry>, repl: seq<Entry>)
    requires WfEntries(base) && WfEntries(repl)
    ensures WfEntries(ReplaceRecursive(base, repl))
    decreases repl
  {
    if repl != [] {
      var n := |repl| - 1;
      var prefix := repl[..n];
      WfEntriesPrefix(repl, n);
      ReplaceRecursiveWf(base, prefix);
      assert repl[n] in repl;
      PutWf(ReplaceRecursive(base, prefix), repl[n]);
    }
  }

  /** Merging an array onto itself changes nothing. */
  lemma {:induction false} ReplaceRecursiveSelf(a: seq<Entry>)
    requires WfEntries(a)
    ensures ReplaceRecursive(a, a) == a
    decreases Arr(a)
  {
    var r := ReplaceRecursive(a, a);
    AppendedNothingNew(Keys(a), Keys(a));
    forall k ensures Lookup(r, k) == Lookup(a, k) {
      ReplaceRecursiveLookup(a, a, k);
      match IndexOf(a, k)
      case None =>
      case Some(i) =>
        assert a[i] in a;
        if a[i].val.Arr? {
          ReplaceRecursiveSelf(a[i].val.entries);
        }
    }
    ReplaceRecursiveWf(a, a);
    EntriesExt(r, a);
  }

  /**
   * Laying the same document twice is the same as laying it once: array_replace_recursive
   * is idempotent in its second argument, for well-formed arrays.
   */
  lemma {:induction false} ReplaceRecursiveIdempotent(base: seq<Entry>, repl: seq<Entry>)
    requires WfEntries(base) && WfEntries(repl)
    ensures ReplaceRecursive(ReplaceRecursive(base, repl), repl) == ReplaceRecursive(base, repl)
    decreases Arr(repl), 1
  {
    var x := ReplaceRecursive(base, repl);
    var y := ReplaceRecursive(x, repl);
    ReplaceRecursiveWf(base, repl);
    ReplaceRecursiveWf(x, repl);
    AppendedNothingNew(Keys(x), Keys(repl));
    forall k ensures Lookup(y, k) == Lookup(x, k) {
      ReplaceRecursiveIdempotentAt(base, repl, k);
    }
    EntriesExt(y, x);
  }

  /** Idempotence, key by key. */
  lemma {:induction false} ReplaceRecursiveIdempotentAt(base: seq<Entry>, repl: seq<Entry>, k: Key)
    requires WfEntries(base) && WfEntries(repl)
    ensures var x := ReplaceRecursive(base, repl);
            Lookup(ReplaceRecursive(x, repl), k) == Lookup(x, k)
    decreases Arr(repl), 0
  {
    var x := ReplaceRecursive(base, repl);
    ReplaceRecursiveLookup(x, repl, k);
    ReplaceRecursiveLookup(base, repl, k);
    match IndexOf(repl, k)
    case None =>
    case Some(j) =>
      var nv := repl[j].val;
      assert repl[j] in repl;
      if nv.Arr? {
        match Lookup(base, k)
        case Some(ov) =>
          if ov.Arr? {
            ReplaceRecursiveIdempotent(ov.entries, nv.entries);
          } else {
            ReplaceRecursiveSelf(nv.entries);
          }
        case None =>
          ReplaceRecursiveSelf(nv.entries);
      }
  }

}
