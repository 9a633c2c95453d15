/**
 * A Dictionary<string, V> built with StringComparer.OrdinalIgnoreCase, as an association list in
 * insertion order (the order in which such a dictionary enumerates when nothing is removed).
 * A key keeps the spelling it was first inserted with.
 */
module CiMaps {
  import opened Wrappers
  import opened Strings

  datatype Entry<V> = Entry(key: string, value: V)

  type CiMap<V> = seq<Entry<V>>

  /** No two keys are equal ignoring case: what the dictionary guarantees. */
  ghost predicate UniqueKeys<V>(m: CiMap<V>) {
    forall i, j :: 0 <= i < j < |m| ==> !EqualsIgnoreCase(m[i].key, m[j].key)
  }

  function Keys<V>(m: CiMap<V>): (r: seq<string>)
    ensures |r| == |m| && forall i :: 0 <= i < |m| ==> r[i] == m[i].key
  {
    seq(|m|, i requires 0 <= i < |m| => m[i].key)
  }

  /** The position of the entry whose key equals k ignoring case. */
  function IndexOf<V>(m: CiMap<V>, k: string): (r: Option<nat>)
    ensures r.Some? ==> r.value < |m| && EqualsIgnoreCase(m[r.value].key, k)
    ensures r.Some? ==> forall i :: 0 <= i < r.value ==> !EqualsIgnoreCase(m[i].key, k)
    ensures r.None? <==> forall i :: 0 <= i < |m| ==> !EqualsIgnoreCase(m[i].key, k)
  {
    if |m| == 0 then None
    else if EqualsIgnoreCase(m[0].key, k) then Some(0)
    else
      match IndexOf(m[1..], k)
      case None =>
        assert forall i :: 1 <= i < |m| ==> m[i] == m[1..][i - 1];
        None
      case Some(j) =>
        assert forall i :: 1 <= i < j + 1 ==> m[i] == m[1..][i - 1];
        Some(j + 1)
  }

  /** TryGetValue. */
  function Get<V>(m: CiMap<V>, k: string): Option<V> {
    match IndexOf(m, k)
    case None => None
    case Some(i) => Some(m[i].value)
  }

  /** GetValueOrDefault. */
  function GetOrDefault<V>(m: CiMap<V>, k: string, default: V): V {
    match Get(m, k)
    case None => default
    case Some(v) => v
  }

  /** The indexer's setter: replaces the value of an existing key, or appends a new entry. */
  function Set<V>(m: CiMap<V>, k: string, v: V): (r: CiMap<V>)
    ensures Get(r, k) == Some(v)
    ensures forall k' :: !EqualsIgnoreCase(k, k') ==> Get(r, k') == Get(m, k')
    ensures UniqueKeys(m) ==> UniqueKeys(r)
    ensures IndexOf(m, k).None? ==> r == m + [Entry(k, v)]
    ensures IndexOf(m, k).Some? ==> Keys(r) == Keys(m)
  {
    match IndexOf(m, k)
    case Some(i) =>
      var r := m[i := Entry(m[i].key, v)];
      assert Keys(r) == Keys(m);
      forall k' ensures IndexOf(r, k') == IndexOf(m, k') {
        SameKeysSameIndex(m, r, k');
      }
      r
    case None =>
      var r := m + [Entry(k, v)];
      assert forall i :: 0 <= i < |m| ==> r[i] == m[i];
      assert EqualsIgnoreCase(r[|m|].key, k);
      forall k' | !EqualsIgnoreCase(k, k') ensures IndexOf(r, k') == IndexOf(m, k') {
        AppendIndex(m, Entry(k, v), k');
      }
      r
  }

  lemma SameKeysSameIndex<V>(m: CiMap<V>, r: CiMap<V>, k: string)
    requires Keys(m) == Keys(r)
    ensures IndexOf(r, k) == IndexOf(m, k)
  {
    assert |m| == |r| && forall i :: 0 <= i < |m| ==> m[i].key == r[i].key by {
      assert |Keys(m)| == |Keys(r)|;
      forall i | 0 <= i < |m| ensures m[i].key == r[i].key { assert Keys(m)[i] == Keys(r)[i]; }
    }
  }

  lemma AppendIndex<V>(m: CiMap<V>, e: Entry<V>, k: string)
    requires !EqualsIgnoreCase(e.key, k)
    ensures IndexOf(m + [e], k) == IndexOf(m, k)
  {
    var r := m + [e];
    assert forall i :: 0 <= i < |m| ==> r[i] == m[i];
  }

  /** Dictionary.Add: fails (ArgumentException) when the key is already present ignoring case. */
  function Add<V>(m: CiMap<V>, k: string, v: V): (r: Option<CiMap<V>>)
    ensures r.Some? <==> forall i :: 0 <= i < |m| ==> !EqualsIgnoreCase(m[i].key, k)
    ensures r.Some? ==> r.value == m + [Entry(k, v)]
  {
    if IndexOf(m, k).Some? then None else Some(m + [Entry(k, v)])
  }

  /** A successful Add is the indexer on a new key: the key now maps to v and keys stay unique. */
  lemma AddMeaning<V>(m: CiMap<V>, k: string, v: V)
    ensures Add(m, k, v).Some? <==> Get(m, k).None?
    ensures Add(m, k, v).Some? ==> Add(m, k, v).value == Set(m, k, v) && Get(Add(m, k, v).value, k) == Some(v)
    ensures Add(m, k, v).Some? && UniqueKeys(m) ==> UniqueKeys(Add(m, k, v).value)
  {
  }

  /** Lookups depend only on the upper-cased key. */
  lemma {:induction false} IndexOfIgnoresCase<V>(m: CiMap<V>, a: string, b: string)
    requires EqualsIgnoreCase(a, b)
    ensures IndexOf(m, a) == IndexOf(m, b)
    decreases |m|
  {
    if |m| > 0 {
      IndexOfIgnoresCase(m[1..], a, b);
    }
  }

  /** A lookup after appending an entry finds an earlier key first. */
  lemma GetSnoc<V>(m: CiMap<V>, e: Entry<V>, k: string)
    ensures Get(m + [e], k) ==
      if Get(m, k).Some? then Get(m, k) else if EqualsIgnoreCase(e.key, k) then Some(e.value) else None
  {
    var r := m + [e];
    assert forall i :: 0 <= i < |m| ==> r[i] == m[i];
    assert r[|m|] == e;
    if Get(m, k).None? && EqualsIgnoreCase(e.key, k) {
      assert IndexOf(r, k) == Some(|m|);
    }
  }

  /** Entries added one by one with Add, as ToDictionary and Add loops do; the first repeated key throws. */
  function AddAll<V>(es: seq<Entry<V>>): Option<CiMap<V>>
    decreases |es|
  {
    if |es| == 0 then Some([])
    else
      match AddAll(es[..|es| - 1])
      case None => None
      case Some(m) => Add(m, es[|es| - 1].key, es[|es| - 1].value)
  }

  /** Keys are unique iff those of a prefix are and the last key is new. */
  lemma UniqueKeysSnoc<V>(es: seq<Entry<V>>)
    requires |es| > 0
    ensures UniqueKeys(es) <==>
      UniqueKeys(es[..|es| - 1]) && forall i :: 0 <= i < |es| - 1 ==> !EqualsIgnoreCase(es[i].key, es[|es| - 1].key)
  {
    var n := |es| - 1;
    var p := es[..n];
    assert forall i :: 0 <= i < n ==> p[i] == es[i];
  }

  /** Adding entries one by one succeeds iff their keys are unique, and then yields them in order. */
  lemma {:induction false} AddAllMeaning<V>(es: seq<Entry<V>>)
    ensures AddAll(es) == if UniqueKeys(es) then Some(es) else None
    decreases |es|
  {
    if |es| > 0 {
      var n := |es| - 1;
      var p := es[..n];
      AddAllMeaning(p);
      UniqueKeysSnoc(es);
      assert forall i :: 0 <= i < n ==> p[i] == es[i];
      assert p + [es[n]] == es;
    }
  }

  /** Once adding the entries of a prefix fails, adding them all does. */
  lemma {:induction false} AddAllPrefixFails<V>(es: seq<Entry<V>>, k: nat)
    requires k <= |es| && AddAll(es[..k]).None?
    ensures AddAll(es).None?
    decreases |es| - k
  {
    if k < |es| {
      assert es[..k + 1][..k] == es[..k];
      AddAllPrefixFails(es, k + 1);
    } else {
      assert es[..k] == es;
    }
  }
}
