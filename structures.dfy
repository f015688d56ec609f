/**
 * The structure helpers of util/structures.py: a recursive deep merge of
 * dictionaries (dict_merge) and the coercion of a value to a list that
 * flattens dictionaries depth first (to_list).
 *
 * Python values are modelled by `Value`. A dictionary is an association
 * sequence: Python dictionaries iterate in insertion order and to_list
 * depends on that order, so the order of `entries` is part of the value.
 * A well-formed dictionary has pairwise distinct keys. Values are
 * immutable here, so the deep copies the source takes are implicit: no
 * operation of this module can change its arguments.
 */
module Structures {
  import opened Wrappers

  /** A Python value as far as these helpers can tell them apart. */
  datatype Value =
    | Scalar(id: int)                 // any value that is not a str, list or dict (numbers, booleans, None, ...)
    | Str(s: string)
    | List(items: seq<Value>)
    | Dict(entries: seq<Entry>)

  datatype Entry = Entry(key: string, val: Value)

  /** Errors the source raises instead of returning. */
  datatype MergeError =
    | NoGetMethod   // dict_merge(o, v) with a non-dict o and a non-empty dict v: `res.get` does not exist

  // ---------------------------------------------------------------------
  // Dictionaries as association sequences
  // ---------------------------------------------------------------------

  /** The keys of a dictionary, in iteration order. */
  function KeysOf(es: seq<Entry>): (ks: seq<string>)
    ensures |ks| == |es|
    ensures forall j :: 0 <= j < |es| ==> ks[j] == es[j].key
  {
    if es == [] then [] else [es[0].key] + KeysOf(es[1..])
  }

  predicate Distinct(ks: seq<string>)
  {
    forall i, j :: 0 <= i < j < |ks| ==> ks[i] != ks[j]
  }

  /** A well-formed dictionary: no key occurs twice. */
  predicate UniqueKeys(es: seq<Entry>)
  {
    Distinct(KeysOf(es))
  }

  /** Every dictionary nested anywhere in `v` has distinct keys. */
  predicate WellFormed(v: Value)
  {
    match v
    case Scalar(_) => true
    case Str(_) => true
    case List(items) => forall x :: x in items ==> WellFormed(x)
    case Dict(es) => UniqueKeys(es) && forall e :: e in es ==> WellFormed(e.val)
  }

  /** `d.get(k)`: the value stored under `k`, if any. */
  function Lookup(es: seq<Entry>, k: string): Option<Value>
  {
    if es == [] then None
    else if es[0].key == k then Some(es[0].val)
    else Lookup(es[1..], k)
  }

  /** A key has a value exactly when it is one of the dictionary's keys. */
  lemma {:induction false} LookupKeys(es: seq<Entry>, k: string)
    ensures Lookup(es, k).Some? <==> k in KeysOf(es)
  {
    if es != [] {
      LookupKeys(es[1..], k);
      assert KeysOf(es) == [es[0].key] + KeysOf(es[1..]);
    }
  }

  lemma {:induction false} LookupMember(es: seq<Entry>, k: string)
    requires Lookup(es, k).Some?
    ensures Entry(k, Lookup(es, k).value) in es
  {
    if es[0].key != k {
      LookupMember(es[1..], k);
    }
  }

  /**
   * `d[k] = x`: an existing key keeps its place and gets the new value, a new
   * key is appended at the end.
   */
  function Put(es: seq<Entry>, k: string, x: Value): (r: seq<Entry>)
    ensures Lookup(r, k) == Some(x)
    ensures KeysOf(r) == if Lookup(es, k).Some? then KeysOf(es) else KeysOf(es) + [k]
  {
    if es == [] then [Entry(k, x)]
    else
      KeysOfCons(es[0], es[1..]);
      if es[0].key == k then
        KeysOfCons(Entry(k, x), es[1..]);
        [Entry(k, x)] + es[1..]
      else
        var tail := Put(es[1..], k, x);
        KeysOfCons(es[0], tail);
        LookupCons(es[0], tail, k);
        [es[0]] + tail
  }

  lemma KeysOfCons(e: Entry, es: seq<Entry>)
    ensures KeysOf([e] + es) == [e.key] + KeysOf(es)
  {
    assert ([e] + es)[1..] == es;
  }

  lemma LookupCons(e: Entry, es: seq<Entry>, k: string)
    ensures Lookup([e] + es, k) == if e.key == k then Some(e.val) else Lookup(es, k)
  {
    assert ([e] + es)[1..] == es;
  }

  /** Storing under a key changes no other key's value. */
  lemma {:induction false} PutOther(es: seq<Entry>, k: string, x: Value, k': string)
    requires k' != k
    ensures Lookup(Put(es, k, x), k') == Lookup(es, k')
  {
    if es != [] && es[0].key != k {
      PutOther(es[1..], k, x, k');
      var r := Put(es, k, x);
      assert r[0] == es[0] && r[1..] == Put(es[1..], k, x);
    }
  }

  /** Storing under a key keeps the keys of a dictionary distinct. */
  lemma PutUnique(es: seq<Entry>, k: string, x: Value)
    requires UniqueKeys(es)
    ensures UniqueKeys(Put(es, k, x))
  {
    var r := Put(es, k, x);
    LookupKeys(es, k);
    if k !in KeysOf(es) {
      var ks := KeysOf(es);
      assert KeysOf(r) == ks + [k];
      forall i, j | 0 <= i < j < |r| ensures KeysOf(r)[i] != KeysOf(r)[j] {
        if j == |ks| {
          assert KeysOf(r)[i] == ks[i];
        }
      }
    }
  }

  lemma {:induction false} LookupInUnique(es: seq<Entry>, j: nat)
    requires UniqueKeys(es) && j < |es|
    ensures Lookup(es, es[j].key) == Some(es[j].val)
  {
    if j > 0 {
      LookupInUnique(es[1..], j - 1);
    }
  }

  /**
   * Two dictionaries with distinct keys, the same keys in the same order and
   * the same value under every key are the same dictionary.
   */
  lemma {:induction false} EntriesExt(a: seq<Entry>, b: seq<Entry>)
    requires UniqueKeys(a) && UniqueKeys(b)
    requires KeysOf(a) == KeysOf(b)
    requires forall k :: Lookup(a, k) == Lookup(b, k)
    ensures a == b
  {
    forall j | 0 <= j < |a|
      ensures a[j] == b[j]
    {
      LookupInUnique(a, j);
      LookupInUnique(b, j);
      assert Lookup(a, a[j].key) == Lookup(b, b[j].key);
    }
  }

  // ---------------------------------------------------------------------
  // dict_merge
  // ---------------------------------------------------------------------

  /**
   * The value dict_merge stores under one key of `v`: the recursive merge
   * when the current value is a non-empty dictionary (Python truthiness),
   * otherwise `v`'s value.
   */
  function Combine(current: Option<Value>, x: Value): (r: Value)
    decreases x, 3, 0
  {
    if current.Some? && current.value.Dict? && current.value.entries != []
    then MergeInto(current.value.entries, x)
    else x
  }

  /** dict_merge(o, v) for a dictionary `o` with entries `res`. */
  function MergeInto(res: seq<Entry>, v: Value): (r: Value)
    decreases v, 2, 0
  {
    if v.Dict? then Dict(MergeEntries(res, v, 0)) else v
  }

  /** The merge loop over the keys of `v` from position `i` on, starting from `res`. */
  function MergeEntries(res: seq<Entry>, v: Value, i: nat): (r: seq<Entry>)
    requires v.Dict? && i <= |v.entries|
    decreases v, 1, |v.entries| - i
  {
    if i == |v.entries| then res
    else
      var e := v.entries[i];
      assert e in v.entries;
      MergeEntries(Put(res, e.key, Combine(Lookup(res, e.key), e.val)), v, i + 1)
  }

  /** dict_merge(o, v), including the failure for a non-dict `o`. */
  function Merge(o: Value, v: Value): (r: Result<Value, MergeError>)
    ensures !v.Dict? ==> r == Ok(v)
    ensures r.Err? <==> v.Dict? && v.entries != [] && !o.Dict?
    ensures v.Dict? && v.entries == [] ==> r == Ok(o)
    ensures o.Dict? && v.Dict? ==> r.Ok? && r.value.Dict?
  {
    if !v.Dict? then Ok(v)
    else if o.Dict? then
      assert v.entries == [] ==> MergeEntries(o.entries, v, 0) == o.entries;
      Ok(MergeInto(o.entries, v))
    else if v.entries == [] then Ok(o)
    else Err(NoGetMethod)
  }

  /** The keys of `ns` that are not among `ks`, in their order. */
  function NewKeys(ks: seq<string>, ns: seq<string>): (r: seq<string>)
    ensures forall k :: k in r <==> k in ns && k !in ks
  {
    if ns == [] then []
    else (if ns[0] in ks then [] else [ns[0]]) + NewKeys(ks, ns[1..])
  }

  lemma {:induction false} NewKeysIgnores(ks: seq<string>, k: string, ns: seq<string>)
    requires k !in ns
    ensures NewKeys(ks + [k], ns) == NewKeys(ks, ns)
  {
    if ns != [] {
      NewKeysIgnores(ks, k, ns[1..]);
    }
  }

  lemma DistinctHead(ks: seq<string>, i: nat)
    requires Distinct(ks) && i < |ks|
    ensures ks[i] !in ks[i + 1..]
  {
  }

  /** One turn of the merge loop: key `i` of `v` stores `Combine` of its current value and `v`'s. */
  lemma MergeStep(res: seq<Entry>, v: Value, i: nat, c: Value)
    requires v.Dict? && i < |v.entries|
    requires c == Combine(Lookup(res, v.entries[i].key), v.entries[i].val)
    ensures MergeEntries(res, v, i) == MergeEntries(Put(res, v.entries[i].key, c), v, i + 1)
  {
  }

  /** How the keys and the keys still to add move on when key `ks[i]` is stored. */
  lemma KeysStep(K: seq<string>, K': seq<string>, ks: seq<string>, i: nat)
    requires Distinct(ks) && i < |ks|
    requires K' == if ks[i] in K then K else K + [ks[i]]
    ensures K' + NewKeys(K', ks[i + 1..]) == K + NewKeys(K, ks[i..])
  {
    var rest := ks[i + 1..];
    assert ks[i..][0] == ks[i] && ks[i..][1..] == rest;
    if ks[i] !in K {
      DistinctHead(ks, i);
      NewKeysIgnores(K, ks[i], rest);
      assert K' + NewKeys(K', rest) == K + ([ks[i]] + NewKeys(K, rest));
    }
  }

  lemma {:induction false} MergeEntriesKeysFrom(res: seq<Entry>, v: Value, i: nat)
    requires v.Dict? && UniqueKeys(v.entries) && i <= |v.entries|
    ensures KeysOf(MergeEntries(res, v, i)) == KeysOf(res) + NewKeys(KeysOf(res), KeysOf(v.entries)[i..])
    decreases |v.entries| - i
  {
    if i < |v.entries| {
      var e := v.entries[i];
      var c := Combine(Lookup(res, e.key), e.val);
      MergeStep(res, v, i, c);
      var res' := Put(res, e.key, c);
      MergeEntriesKeysFrom(res', v, i + 1);
      LookupKeys(res, e.key);
      KeysStep(KeysOf(res), KeysOf(res'), KeysOf(v.entries), i);
    }
  }

  /**
   * The keys of a merged dictionary: those of `o` in their order, followed by
   * the keys of `v` that `o` lacks, in `v`'s order.
   */
  lemma MergeKeys(o: seq<Entry>, v: Value)
    requires v.Dict? && UniqueKeys(v.entries)
    ensures MergeInto(o, v).Dict?
    ensures KeysOf(MergeInto(o, v).entries) == KeysOf(o) + NewKeys(KeysOf(o), KeysOf(v.entries))
    ensures forall k :: k in KeysOf(MergeInto(o, v).entries) <==> k in KeysOf(o) || k in KeysOf(v.entries)
  {
    MergeEntriesKeysFrom(o, v, 0);
    assert KeysOf(v.entries)[0..] == KeysOf(v.entries);
  }

  /** Some entry from position `i` on has key `k`. */
  predicate HasKeyFrom(es: seq<Entry>, i: nat, k: string)
    decreases |es| - i
  {
    i < |es| && (es[i].key == k || HasKeyFrom(es, i + 1, k))
  }

  lemma {:induction false} HasKeyFromKeys(es: seq<Entry>, i: nat, k: string)
    requires i <= |es|
    ensures HasKeyFrom(es, i, k) <==> k in KeysOf(es)[i..]
    decreases |es| - i
  {
    if i < |es| {
      HasKeyFromKeys(es, i + 1, k);
      assert KeysOf(es)[i..] == [es[i].key] + KeysOf(es)[i + 1..];
    }
  }

  lemma DistinctNotLater(es: seq<Entry>, i: nat)
    requires UniqueKeys(es) && i < |es|
    ensures !HasKeyFrom(es, i + 1, es[i].key)
  {
    HasKeyFromKeys(es, i + 1, es[i].key);
    DistinctHead(KeysOf(es), i);
  }

  lemma {:induction false} MergeEntriesLookupFrom(res: seq<Entry>, v: Value, i: nat, k: string)
    requires v.Dict? && UniqueKeys(v.entries) && i <= |v.entries|
    ensures Lookup(MergeEntries(res, v, i), k) ==
      match Lookup(v.entries, k)
      case Some(x) => if HasKeyFrom(v.entries, i, k) then Some(Combine(Lookup(res, k), x)) else Lookup(res, k)
      case None => Lookup(res, k)
    decreases |v.entries| - i
  {
    if i < |v.entries| {
      var e := v.entries[i];
      var c := Combine(Lookup(res, e.key), e.val);
      MergeStep(res, v, i, c);
      var res' := Put(res, e.key, c);
      MergeEntriesLookupFrom(res', v, i + 1, k);
      if k == e.key {
        DistinctNotLater(v.entries, i);
        LookupInUnique(v.entries, i);
      } else {
        PutOther(res, e.key, c, k);
      }
    }
  }

  /**
   * What a merged dictionary holds under each key: `o`'s value for a key
   * `v` lacks, and otherwise `Combine` of `o`'s value (if any) with `v`'s.
   */
  lemma MergeLookup(o: seq<Entry>, v: Value, k: string)
    requires v.Dict? && UniqueKeys(v.entries)
    ensures MergeInto(o, v).Dict?
    ensures Lookup(MergeInto(o, v).entries, k) ==
      match Lookup(v.entries, k)
      case Some(x) => Some(Combine(Lookup(o, k), x))
      case None => Lookup(o, k)
  {
    MergeEntriesLookupFrom(o, v, 0, k);
    HasKeyFromKeys(v.entries, 0, k);
    LookupKeys(v.entries, k);
    assert KeysOf(v.entries)[0..] == KeysOf(v.entries);
  }

  /**
   * The cases of one key of `v`: a missing, non-dict or empty current value is
   * replaced by `v`'s value; a non-empty dictionary is merged with it, which
   * for a non-dict `v` value again yields that value.
   */
  lemma CombineCases(current: Option<Value>, x: Value)
    ensures current.None? ==> Combine(current, x) == x
    ensures current.Some? && !current.value.Dict? ==> Combine(current, x) == x
    ensures current == Some(Dict([])) ==> Combine(current, x) == x
    ensures !x.Dict? ==> Combine(current, x) == x
    ensures current.Some? && current.value.Dict? && current.value.entries != [] && x.Dict? ==>
      Combine(current, x) == Dict(MergeEntries(current.value.entries, x, 0))
  {
  }

  lemma {:induction false} MergeEntriesUniqueFrom(res: seq<Entry>, v: Value, i: nat)
    requires v.Dict? && i <= |v.entries| && UniqueKeys(res)
    ensures UniqueKeys(MergeEntries(res, v, i))
    decreases |v.entries| - i
  {
    if i < |v.entries| {
      var e := v.entries[i];
      PutUnique(res, e.key, Combine(Lookup(res, e.key), e.val));
      MergeEntriesUniqueFrom(Put(res, e.key, Combine(Lookup(res, e.key), e.val)), v, i + 1);
    }
  }

  /** Merging keeps the keys of the top-level dictionary distinct. */
  lemma MergeUnique(o: Value, v: Value)
    requires o.Dict? && UniqueKeys(o.entries) && v.Dict?
    ensures Merge(o, v).Ok? && Merge(o, v).value.Dict? && UniqueKeys(Merge(o, v).value.entries)
  {
    MergeEntriesUniqueFrom(o.entries, v, 0);
  }

  /** Merging a dictionary into an empty one yields that dictionary. */
  lemma MergeIntoEmpty(v: Value)
    requires v.Dict? && UniqueKeys(v.entries)
    ensures Merge(Dict([]), v) == Ok(v)
  {
    var r := MergeInto([], v);
    MergeKeys([], v);
    assert NewKeys([], KeysOf(v.entries)) == KeysOf(v.entries) by {
      NewKeysOfNone(KeysOf(v.entries));
    }
    forall k ensures Lookup(r.entries, k) == Lookup(v.entries, k) {
      MergeLookup([], v, k);
    }
    MergeEntriesUniqueFrom([], v, 0);
    EntriesExt(r.entries, v.entries);
  }

  lemma {:induction false} NewKeysOfNone(ns: seq<string>)
    ensures NewKeys([], ns) == ns
  {
    if ns != [] {
      NewKeysOfNone(ns[1..]);
      assert ns == [ns[0]] + ns[1..];
    }
  }

  lemma {:induction false} NewKeysOfSelf(ks: seq<string>, ns: seq<string>)
    requires forall k :: k in ns ==> k in ks
    ensures NewKeys(ks, ns) == []
  {
    if ns != [] {
      NewKeysOfSelf(ks, ns[1..]);
    }
  }

  /** Merging a well-formed value with itself gives it back unchanged. */
  lemma {:induction false} MergeSelf(v: Value)
    requires WellFormed(v)
    ensures v.Dict? ==> MergeInto(v.entries, v) == v
    ensures Merge(v, v) == Ok(v)
    decreases v
  {
    if v.Dict? {
      var es := v.entries;
      var r := MergeInto(es, v);
      MergeKeys(es, v);
      NewKeysOfSelf(KeysOf(es), KeysOf(es));
      forall k ensures Lookup(r.entries, k) == Lookup(es, k) {
        MergeLookup(es, v, k);
        if Lookup(es, k).Some? {
          var x := Lookup(es, k).value;
          LookupMember(es, k);
          MergeSelf(x);
        }
      }
      MergeEntriesUniqueFrom(es, v, 0);
      EntriesExt(r.entries, es);
    }
  }

  /**
   * dict_merge as the source runs it: a copy of `o` updated key by key in a
   * loop, recursing into non-empty nested dictionaries.
   */
  method DictMerge(o: Value, v: Value) returns (r: Result<Value, MergeError>)
    ensures r == Merge(o, v)
    decreases v
  {
    if !v.Dict? {
      return Ok(v);
    }
    if !o.Dict? {
      if v.entries == [] {
        return Ok(o);
      }
      return Err(NoGetMethod);
    }
    var res := o.entries;
    var i: nat := 0;
    while i < |v.entries|
      invariant 0 <= i <= |v.entries|
      invariant MergeEntries(res, v, i) == MergeEntries(o.entries, v, 0)
    {
      var key, x := v.entries[i].key, v.entries[i].val;
      assert v.entries[i] in v.entries;
      var current := Lookup(res, key);
      var c := x;
      if current.Some? && current.value.Dict? && current.value.entries != [] {
        var sub := DictMerge(current.value, x);
        assert sub == Ok(MergeInto(current.value.entries, x));
        c := sub.value;
      }
      MergeStep(res, v, i, c);
      res := Put(res, key, c);
      i := i + 1;
    }
    return Ok(Dict(res));
  }

  // ---------------------------------------------------------------------
  // to_list
  // ---------------------------------------------------------------------

  /**
   * The list to_list builds from dictionary `d`, from its `i`-th entry on:
   * keys (when `useKeys`) or values, nested dictionaries replaced by their
   * own flattened values (the recursive call drops `useKeys`).
   */
  function Flatten(d: Value, useKeys: bool, i: nat): seq<Value>
    requires d.Dict? && i <= |d.entries|
    decreases d, |d.entries| - i
  {
    if i == |d.entries| then []
    else
      var e := d.entries[i];
      assert e in d.entries;
      (if useKeys then [Str(e.key)]
       else if e.val.Dict? then Flatten(e.val, false, 0)
       else [e.val])
      + Flatten(d, useKeys, i + 1)
  }

  /** to_list(i, use_keys); `None` where the source warns and returns None. */
  function AsList(i: Value, useKeys: bool): (r: Option<seq<Value>>)
    ensures r.None? <==> i.Scalar?
    ensures i.List? ==> r == Some(i.items)
    ensures i.Str? ==> r == Some([i])
  {
    match i
    case List(items) => Some(items)
    case Dict(_) => Some(Flatten(i, useKeys, 0))
    case Str(_) => Some([i])
    case Scalar(_) => None
  }

  lemma {:induction false} FlattenNoDictFrom(d: Value, useKeys: bool, i: nat)
    requires d.Dict? && i <= |d.entries|
    ensures forall x :: x in Flatten(d, useKeys, i) ==> !x.Dict?
    decreases d, |d.entries| - i
  {
    if i < |d.entries| {
      var e := d.entries[i];
      assert e in d.entries;
      if !useKeys && e.val.Dict? {
        FlattenNoDictFrom(e.val, false, 0);
      }
      FlattenNoDictFrom(d, useKeys, i + 1);
    }
  }

  /** No element of a flattened dictionary is itself a dictionary. */
  lemma FlattenNoDict(d: Value, useKeys: bool)
    requires d.Dict?
    ensures AsList(d, useKeys).Some?
    ensures forall x :: x in AsList(d, useKeys).value ==> !x.Dict?
  {
    FlattenNoDictFrom(d, useKeys, 0);
  }

  lemma {:induction false} FlattenKeysFrom(d: Value, i: nat)
    requires d.Dict? && i <= |d.entries|
    ensures |Flatten(d, true, i)| == |d.entries| - i
    ensures forall j :: i <= j < |d.entries| ==> Flatten(d, true, i)[j - i] == Str(d.entries[j].key)
    decreases |d.entries| - i
  {
    if i < |d.entries| {
      FlattenKeysFrom(d, i + 1);
    }
  }

  /** With `useKeys`, a dictionary becomes the list of its top-level keys, in order. */
  lemma FlattenKeys(d: Value)
    requires d.Dict?
    ensures AsList(d, true).Some?
    ensures |AsList(d, true).value| == |d.entries|
    ensures forall j :: 0 <= j < |d.entries| ==> AsList(d, true).value[j] == Str(d.entries[j].key)
  {
    FlattenKeysFrom(d, 0);
  }

  lemma {:induction false} FlattenFlatFrom(d: Value, i: nat)
    requires d.Dict? && i <= |d.entries|
    requires forall e :: e in d.entries ==> !e.val.Dict?
    ensures |Flatten(d, false, i)| == |d.entries| - i
    ensures forall j :: i <= j < |d.entries| ==> Flatten(d, false, i)[j - i] == d.entries[j].val
    decreases |d.entries| - i
  {
    if i < |d.entries| {
      assert d.entries[i] in d.entries;
      FlattenFlatFrom(d, i + 1);
    }
  }

  /** A dictionary without nested dictionaries becomes the list of its values, in order. */
  lemma FlattenFlat(d: Value)
    requires d.Dict?
    requires forall e :: e in d.entries ==> !e.val.Dict?
    ensures AsList(d, false).Some?
    ensures |AsList(d, false).value| == |d.entries|
    ensures forall j :: 0 <= j < |d.entries| ==> AsList(d, false).value[j] == d.entries[j].val
  {
    FlattenFlatFrom(d, 0);
  }

  lemma {:induction false} FlattenAppendFrom(a: seq<Entry>, b: seq<Entry>, i: nat)
    requires i <= |a|
    ensures Flatten(Dict(a + b), false, i) == Flatten(Dict(a), false, i) + Flatten(Dict(b), false, 0)
    decreases |a| - i
  {
    if i < |a| {
      assert (a + b)[i] == a[i];
      FlattenAppendFrom(a, b, i + 1);
    } else {
      FlattenShift(a, b, 0);
    }
  }

  lemma {:induction false} FlattenShift(a: seq<Entry>, b: seq<Entry>, j: nat)
    requires j <= |b|
    ensures Flatten(Dict(a + b), false, |a| + j) == Flatten(Dict(b), false, j)
    decreases |b| - j
  {
    if j < |b| {
      assert (a + b)[|a| + j] == b[j];
      FlattenShift(a, b, j + 1);
    }
  }

  /**
   * Flattening distributes over the concatenation of two dictionaries' entries:
   * the values of the first come before those of the second.
   */
  lemma FlattenAppend(a: seq<Entry>, b: seq<Entry>)
    ensures AsList(Dict(a + b), false) == Some(AsList(Dict(a), false).value + AsList(Dict(b), false).value)
  {
    FlattenAppendFrom(a, b, 0);
  }

  /**
   * to_list as the source runs it: a loop that appends each key or value and
   * splices in the recursive result for a nested dictionary.
   */
  method ToList(i: Value, useKeys: bool) returns (r: Option<seq<Value>>)
    ensures r == AsList(i, useKeys)
    decreases i
  {
    if i.List? {
      return Some(i.items);
    }
    if i.Dict? {
      var res: seq<Value> := [];
      var j: nat := 0;
      while j < |i.entries|
        invariant 0 <= j <= |i.entries|
        invariant res + Flatten(i, useKeys, j) == Flatten(i, useKeys, 0)
      {
        var e := i.entries[j];
        assert e in i.entries;
        ghost var rest := Flatten(i, useKeys, j + 1);
        var piece: seq<Value>;
        if useKeys {
          piece := [Str(e.key)];
        } else if e.val.Dict? {
          var sub := ToList(e.val, false);
          piece := sub.value;
        } else {
          piece := [e.val];
        }
        assert Flatten(i, useKeys, j) == piece + rest;
        assert (res + piece) + rest == res + (piece + rest);
        res := res + piece;
        j := j + 1;
      }
      assert Flatten(i, useKeys, j) == [];
      assert res == Flatten(i, useKeys, 0);
      return Some(res);
    }
    if i.Str? {
      return Some([i]);
    }
    return None;
  }
}
