/** Python dictionaries as the views use them: entries kept in insertion order. */
module PyDict {
  import opened Wrappers

  /** The views only ever key their dicts by strings. */
  type Key = string

  /** The entries of a dict, oldest first. */
  datatype Dict<V> = Dict(entries: seq<(Key, V)>)

  /** `list(d.keys())`. */
  function Keys<V>(d: Dict<V>): (ks: seq<Key>)
    ensures |ks| == |d.entries|
    ensures forall i :: 0 <= i < |ks| ==> ks[i] == d.entries[i].0
  {
    seq(|d.entries|, i requires 0 <= i < |d.entries| => d.entries[i].0)
  }

  /** A well-formed dict holds each key once. */
  ghost predicate Valid<V>(d: Dict<V>) {
    forall i, j :: 0 <= i < j < |d.entries| ==> d.entries[i].0 != d.entries[j].0
  }

  /** The position of key `k`, the first one if there were several (see FindFirst). */
  function Find<V>(entries: seq<(Key, V)>, k: Key): Option<nat> {
    if entries == [] then None
    else if entries[0].0 == k then Some(0)
    else match Find(entries[1..], k)
      case None => None
      case Some(i) => Some(i + 1)
  }

  /** `Find` gives the first position holding the key, and None exactly when no position does. */
  lemma {:induction false} FindFirst<V>(entries: seq<(Key, V)>, k: Key)
    ensures Find(entries, k).Some? ==>
      && Find(entries, k).value < |entries|
      && entries[Find(entries, k).value].0 == k
      && forall j :: 0 <= j < Find(entries, k).value ==> entries[j].0 != k
    ensures Find(entries, k).None? <==> forall j :: 0 <= j < |entries| ==> entries[j].0 != k
  {
    if entries != [] && entries[0].0 != k {
      FindFirst(entries[1..], k);
      assert forall j :: 1 <= j < |entries| ==> entries[j] == entries[1..][j - 1];
    }
  }

  /** `d.get(k)`. */
  function Get<V>(d: Dict<V>, k: Key): Option<V> {
    match Find(d.entries, k)
    case None => None
    case Some(i) => if i < |d.entries| then Some(d.entries[i].1) else None
  }

  /**
   * `d[k] = v`: an existing key keeps its place and takes the new value,
   * a new key goes to the end.
   */
  function Set<V>(d: Dict<V>, k: Key, v: V): Dict<V> {
    match Find(d.entries, k)
    case None => Dict(d.entries + [(k, v)])
    case Some(i) => if i < |d.entries| then Dict(d.entries[i := (k, v)]) else d
  }

  /** The dictionary laws of an update: key order, the new value, the other keys untouched, keys kept distinct. */
  lemma SetLaws<V>(d: Dict<V>, k: Key, v: V)
    ensures Keys(Set(d, k, v)) == if k in Keys(d) then Keys(d) else Keys(d) + [k]
    ensures Get(Set(d, k, v), k) == Some(v)
    ensures forall k' :: k' != k ==> Get(Set(d, k, v), k') == Get(d, k')
    ensures Valid(d) ==> Valid(Set(d, k, v))
  {
    var r := Set(d, k, v);
    FindFirst(d.entries, k);
    match Find(d.entries, k)
    case None =>
      forall k' | k' != k ensures Get(r, k') == Get(d, k') {
        FindAppend(d.entries, (k, v), k');
        FindFirst(d.entries, k');
      }
      FindAppendNew(d.entries, (k, v));
    case Some(i) =>
      assert Keys(r) == Keys(d);
      assert r.entries == d.entries[i := (d.entries[i].0, v)];
      forall k' | k' != k ensures Get(r, k') == Get(d, k') {
        FindReplace(d.entries, i, v, k');
        FindFirst(d.entries, k');
      }
      FindReplace(d.entries, i, v, k);
  }

  /** An update stores nothing but the new entry and entries that were there before. */
  lemma SetEntries<V>(d: Dict<V>, k: Key, v: V)
    ensures forall e :: e in Set(d, k, v).entries ==> e == (k, v) || e in d.entries
  {
    match Find(d.entries, k)
    case None =>
    case Some(i) =>
      forall e | e in Set(d, k, v).entries ensures e == (k, v) || e in d.entries {
        var j :| 0 <= j < |Set(d, k, v).entries| && Set(d, k, v).entries[j] == e;
        if j != i {
          assert e == d.entries[j];
        }
      }
  }

  lemma {:induction false} FindAppend<V>(entries: seq<(Key, V)>, e: (Key, V), k: Key)
    requires e.0 != k
    ensures Find(entries + [e], k) == Find(entries, k)
  {
    if entries != [] {
      assert (entries + [e])[1..] == entries[1..] + [e];
      FindAppend(entries[1..], e, k);
    }
  }

  lemma {:induction false} FindAppendNew<V>(entries: seq<(Key, V)>, e: (Key, V))
    requires Find(entries, e.0).None?
    ensures Find(entries + [e], e.0) == Some(|entries|)
  {
    if entries != [] {
      assert (entries + [e])[1..] == entries[1..] + [e];
      FindAppendNew(entries[1..], e);
    }
  }

  /** Overwriting the first entry of key `entries[i].0` leaves every search where it was. */
  lemma {:induction false} FindReplace<V>(entries: seq<(Key, V)>, i: nat, v: V, k: Key)
    requires i < |entries| && Find(entries, entries[i].0) == Some(i)
    ensures Find(entries[i := (entries[i].0, v)], k) == Find(entries, k)
  {
    if i > 0 {
      if entries[0].0 != k {
        assert entries[i := (entries[i].0, v)][1..] == entries[1..][i - 1 := (entries[i].0, v)];
        FindReplace(entries[1..], i - 1, v, k);
      }
    }
  }

  /** In a well-formed dict every key gives back the value stored beside it. */
  lemma GetEntry<V>(d: Dict<V>, i: nat)
    requires Valid(d) && i < |d.entries|
    ensures Get(d, d.entries[i].0) == Some(d.entries[i].1)
  {
    FindFirst(d.entries, d.entries[i].0);
  }
}
