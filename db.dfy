/**
  The multi-index, ordered, in-memory key/value store of db.go.

  The package-level registry `indices` maps an index name to an ordered tree
  of key/value pairs. Each tree is modelled as a finite map from key bytes to
  value bytes: its keys are unique under `ByteOrder.Less`, and a
  replace-or-insert overwrites the value of an equal key. The read operations
  (Get, Count, GetRange) are functions of the registry; Put is a method of
  the `Store` object that owns the registry and updates it in place.
*/
module Db {
  import opened ByteOrder

  /** A lookup coordinate: an index name and the key bytes within it. */
  datatype Key = Key(index: string, key: seq<byte>)

  /** The stored unit, and what a range scan emits. */
  datatype KeyValuePair = KeyValuePair(key: seq<byte>, value: seq<byte>)

  datatype Error = ErrNotFound | ErrInvalidIndex | ErrIndexNotMatch

  datatype Result<T> = Ok(value: T) | Err(error: Error)

  /** One index: a finite map with unique keys; `Ascend` visits them in `Less` order. */
  type Tree = map<seq<byte>, seq<byte>>

  /** Index name to index; names are never removed. */
  type Registry = map<string, Tree>

  // ---------------------------------------------------------------------
  // Point lookup and cardinality

  /** Point lookup: an unknown index is told apart from a missing key. */
  function Get(indices: Registry, key: Key): (r: Result<seq<byte>>)
    ensures r == Err(ErrInvalidIndex) <==> key.index !in indices
    ensures r == Err(ErrNotFound) <==> key.index in indices && key.key !in indices[key.index]
    ensures r.Ok? <==> key.index in indices && key.key in indices[key.index]
    ensures r.Ok? ==> r.value == indices[key.index][key.key]
  {
    if key.index !in indices then Err(ErrInvalidIndex)
    else if key.key !in indices[key.index] then Err(ErrNotFound)
    else Ok(indices[key.index][key.key])
  }

  /** Number of distinct keys of an index. */
  function Count(indices: Registry, index: string): (r: Result<nat>)
    ensures r.Ok? <==> index in indices
    ensures r.Err? ==> r.error == ErrInvalidIndex
    ensures r.Ok? ==> r.value == |indices[index].Keys|
  {
    if index in indices then Ok(|indices[index]|) else Err(ErrInvalidIndex)
  }

  // ---------------------------------------------------------------------
  // Ordered traversal

  /** The interval of the tree's AscendRange: start inclusive, end exclusive. */
  predicate InRange(k: seq<byte>, start: seq<byte>, end: seq<byte>)
  {
    !Less(k, start) && Less(k, end)
  }

  /** Keys strictly increasing: ordered and free of duplicates. */
  predicate Ascending(s: seq<KeyValuePair>)
  {
    forall i, j :: 0 <= i < j < |s| ==> Less(s[i].key, s[j].key)
  }

  /** The entries of `t` whose keys are in `ks`, smallest key first. */
  function Ascend(t: Tree, ks: set<seq<byte>>): (r: seq<KeyValuePair>)
    requires ks <= t.Keys
    ensures Ascending(r)
    ensures |r| == |ks|
    ensures forall kv :: kv in r <==> kv.key in ks && kv.value == t[kv.key]
    decreases ks
  {
    if ks == {} then []
    else
      var m := Least(ks);
      var rest := Ascend(t, ks - {m});
      assert forall j :: 0 <= j < |rest| ==> rest[j] in rest;
      [KeyValuePair(m, t[m])] + rest
  }

  /** The keys of `t` that a scan from `start` to `end` visits. */
  function RangeKeys(t: Tree, start: seq<byte>, end: seq<byte>): set<seq<byte>>
  {
    set k | k in t.Keys && InRange(k, start, end)
  }

  /**
    Range scan. A request naming two different indices is refused before the
    index is looked up; either error means nothing is emitted. On success the
    result is the sequence the traversal sends, in the order it sends it.
  */
  function GetRange(indices: Registry, start: Key, end: Key): (r: Result<seq<KeyValuePair>>)
    ensures start.index != end.index ==> r == Err(ErrIndexNotMatch)
    ensures start.index == end.index && start.index !in indices ==> r == Err(ErrInvalidIndex)
    ensures start.index == end.index && start.index in indices ==> r.Ok?
    ensures r.Ok? ==> Ascending(r.value)
    ensures r.Ok? ==> forall kv :: kv in r.value <==>
      && kv.key in indices[start.index]
      && kv.value == indices[start.index][kv.key]
      && InRange(kv.key, start.key, end.key)
  {
    if start.index != end.index then Err(ErrIndexNotMatch)
    else if start.index !in indices then Err(ErrInvalidIndex)
    else
      var t := indices[start.index];
      Ok(Ascend(t, RangeKeys(t, start.key, end.key)))
  }

  // ---------------------------------------------------------------------
  // Writes

  /** One round of Put's loop: create the index if unseen, then replace or insert. */
  function PutOne(indices: Registry, k: Key, item: seq<byte>): (r: Registry)
    ensures r.Keys == indices.Keys + {k.index}
    ensures r[k.index].Keys == (if k.index in indices then indices[k.index].Keys else {}) + {k.key}
    ensures r[k.index][k.key] == item
    ensures forall x :: x in r[k.index] && x != k.key ==> r[k.index][x] == indices[k.index][x]
    ensures forall n :: n in indices && n != k.index ==> r[n] == indices[n]
  {
    var tree := if k.index in indices then indices[k.index] else map[];
    var kv := KeyValuePair(k.key, item);
    indices[k.index := tree[kv.key := kv.value]]
  }

  /** The registry after Put(keys, item): the coordinates are written in order. */
  function PutAll(indices: Registry, keys: seq<Key>, item: seq<byte>): Registry
    decreases |keys|
  {
    if keys == [] then indices
    else PutOne(PutAll(indices, keys[..|keys| - 1], item), keys[|keys| - 1], item)
  }

  /** The index names a list of coordinates mentions. */
  function Names(keys: seq<Key>): set<string>
  {
    set k | k in keys :: k.index
  }

  /** The key bytes a list of coordinates mentions in index `index`. */
  function KeysOf(keys: seq<Key>, index: string): set<seq<byte>>
  {
    set k | k in keys && k.index == index :: k.key
  }

  /** Key bytes stored in `index`; none when the index does not exist. */
  function StoredKeys(indices: Registry, index: string): set<seq<byte>>
  {
    if index in indices then indices[index].Keys else {}
  }

  /** The package state: the registry of every index. */
  class Store {
    var indices: Registry

    /** The registry starts empty: every index is unknown. */
    constructor ()
      ensures indices == map[]
      ensures forall k :: Get(indices, k) == Err(ErrInvalidIndex)
      ensures forall n :: Count(indices, n) == Err(ErrInvalidIndex)
    {
      indices := map[];
    }

    /** Write `item` under every coordinate of `keys`, one after the other. */
    method Put(keys: seq<Key>, item: seq<byte>)
      modifies this
      ensures indices == PutAll(old(indices), keys, item)
      ensures indices.Keys == old(indices).Keys + Names(keys)
      ensures forall n :: n in old(indices) && n !in Names(keys) ==> indices[n] == old(indices)[n]
      ensures forall k :: k in keys ==> Get(indices, k) == Ok(item)
    {
      for i := 0 to |keys|
        invariant indices == PutAll(old(indices), keys[..i], item)
      {
        var k := keys[i];
        if k.index !in indices {
          indices := indices[k.index := map[]];
        }
        var kv := KeyValuePair(k.key, item);
        indices := indices[k.index := indices[k.index][kv.key := kv.value]];
        assert keys[..i + 1][..i] == keys[..i];
      }
      assert keys[..|keys|] == keys;
      PutAllIndices(old(indices), keys, item);
      forall k | k in keys
        ensures Get(indices, k) == Ok(item)
      {
        PutThenGet(old(indices), keys, item, k);
      }
    }
  }

  // ---------------------------------------------------------------------
  // Properties of Put

  /** Put creates every named index and leaves every other index as it was. */
  lemma {:induction false} PutAllIndices(indices: Registry, keys: seq<Key>, item: seq<byte>)
    ensures PutAll(indices, keys, item).Keys == indices.Keys + Names(keys)
    ensures forall n :: n in indices && n !in Names(keys) ==> PutAll(indices, keys, item)[n] == indices[n]
    decreases |keys|
  {
    if keys != [] {
      var init := keys[..|keys| - 1];
      var last := keys[|keys| - 1];
      PutAllIndices(indices, init, item);
      assert keys == init + [last];
      NamesSnoc(init, last);
    }
  }

  lemma NamesSnoc(init: seq<Key>, last: Key)
    ensures Names(init + [last]) == Names(init) + {last.index}
  {
    assert forall k :: k in init + [last] <==> k in init || k == last;
  }

  lemma KeysOfSnoc(init: seq<Key>, last: Key, n: string)
    ensures KeysOf(init + [last], n) == KeysOf(init, n) + (if last.index == n then {last.key} else {})
  {
    assert forall k :: k in init + [last] <==> k in init || k == last;
  }

  lemma KeysOfUnnamed(keys: seq<Key>, n: string)
    requires n !in Names(keys)
    ensures KeysOf(keys, n) == {}
  {
    forall k | k in keys
      ensures k.index != n
    {
      assert k.index in Names(keys);
    }
  }

  /** The key set of every index after Put: what was stored plus what was written. */
  lemma {:induction false} PutAllKeys(indices: Registry, keys: seq<Key>, item: seq<byte>, n: string)
    ensures n in PutAll(indices, keys, item) ==>
      PutAll(indices, keys, item)[n].Keys == StoredKeys(indices, n) + KeysOf(keys, n)
    decreases |keys|
  {
    if keys == [] {
      assert KeysOf(keys, n) == {};
    } else {
      var init := keys[..|keys| - 1];
      var last := keys[|keys| - 1];
      var mid := PutAll(indices, init, item);
      PutAllKeys(indices, init, item, n);
      assert keys == init + [last];
      KeysOfSnoc(init, last, n);
      if n == last.index && n !in mid {
        PutAllIndices(indices, init, item);
        KeysOfUnnamed(init, n);
      }
    }
  }

  /**
    Get after Put, for every coordinate: a written coordinate reads back the
    written value; any other coordinate reads as before, except that a key
    absent from an index Put has just created is not found there.
  */
  lemma {:induction false} PutThenGet(indices: Registry, keys: seq<Key>, item: seq<byte>, c: Key)
    ensures Get(PutAll(indices, keys, item), c) ==
      if c in keys then Ok(item)
      else if c.index in indices || c.index !in Names(keys) then Get(indices, c)
      else Err(ErrNotFound)
    decreases |keys|
  {
    if keys != [] {
      var init := keys[..|keys| - 1];
      var last := keys[|keys| - 1];
      PutThenGet(indices, init, item, c);
      PutAllIndices(indices, init, item);
      assert keys == init + [last];
      assert c in keys <==> c in init || c == last;
      NamesSnoc(init, last);
    }
  }

  /**
    Count after Put: an index named by Put or already present holds the
    union of the keys it had and the keys written to it; any other index
    stays unknown.
  */
  lemma PutThenCount(indices: Registry, keys: seq<Key>, item: seq<byte>, n: string)
    ensures Count(PutAll(indices, keys, item), n) ==
      if n in indices || n in Names(keys) then Ok(|StoredKeys(indices, n) + KeysOf(keys, n)|)
      else Err(ErrInvalidIndex)
  {
    PutAllIndices(indices, keys, item);
    PutAllKeys(indices, keys, item, n);
  }

  /** Writing the same coordinates again replaces the values and adds no key. */
  lemma PutTwiceReplaces(indices: Registry, keys: seq<Key>, v1: seq<byte>, v2: seq<byte>)
    ensures var once := PutAll(indices, keys, v1);
      var twice := PutAll(once, keys, v2);
      && (forall k :: k in keys ==> Get(twice, k) == Ok(v2))
      && (forall k :: k !in keys ==> Get(twice, k) == Get(once, k))
      && (forall n :: Count(twice, n) == Count(once, n))
  {
    var once := PutAll(indices, keys, v1);
    var twice := PutAll(once, keys, v2);
    PutAllIndices(indices, keys, v1);
    forall k
      ensures Get(twice, k) == if k in keys then Ok(v2) else Get(once, k)
    {
      PutThenGet(once, keys, v2, k);
      if k in keys {
        assert k.index in Names(keys);
      } else if k.index !in once {
        assert k.index !in Names(keys);
      }
    }
    forall n
      ensures Count(twice, n) == Count(once, n)
    {
      PutThenCount(once, keys, v2, n);
      PutAllKeys(indices, keys, v1, n);
    }
  }

  /** Putting one coordinate whose key is already stored leaves the count alone. */
  lemma PutExistingKeepsCount(indices: Registry, k: Key, v: seq<byte>)
    requires Get(indices, k).Ok?
    ensures Count(PutAll(indices, [k], v), k.index) == Count(indices, k.index)
  {
    PutThenCount(indices, [k], v, k.index);
    assert KeysOf([k], k.index) == {k.key};
  }

  /** Putting one coordinate whose key is new adds exactly one key to its index. */
  lemma PutNewGrowsCount(indices: Registry, k: Key, v: seq<byte>)
    requires !Get(indices, k).Ok?
    ensures Count(PutAll(indices, [k], v), k.index) ==
      Ok(if Get(indices, k) == Err(ErrNotFound) then Count(indices, k.index).value + 1 else 1)
  {
    PutThenCount(indices, [k], v, k.index);
    assert KeysOf([k], k.index) == {k.key};
    assert k.index in Names([k]);
    var old_keys := StoredKeys(indices, k.index);
    assert k.key !in old_keys;
    assert |old_keys + {k.key}| == |old_keys| + 1;
  }

  // ---------------------------------------------------------------------
  // Properties of GetRange

  /**
    A scan whose interval covers every stored key emits every entry of the
    index exactly once: as many entries as Count reports.
  */
  lemma ScanCoveringAllKeys(indices: Registry, start: Key, end: Key)
    requires start.index == end.index && start.index in indices
    requires forall k :: k in indices[start.index] ==> InRange(k, start.key, end.key)
    ensures GetRange(indices, start, end).Ok?
    ensures |GetRange(indices, start, end).value| == Count(indices, start.index).value
  {
    var t := indices[start.index];
    assert RangeKeys(t, start.key, end.key) == t.Keys;
  }

  /** An end key that does not sort after the start key gives an empty scan. */
  lemma ScanEmptyUnlessStartBeforeEnd(indices: Registry, start: Key, end: Key)
    requires start.index == end.index && start.index in indices
    requires !Less(start.key, end.key)
    ensures GetRange(indices, start, end) == Ok([])
  {
    var t := indices[start.index];
    forall k | k in t
      ensures !InRange(k, start.key, end.key)
    {
      if InRange(k, start.key, end.key) {
        LessTrichotomy(k, start.key);
        if k != start.key {
          LessTransitive(start.key, k, end.key);
        }
      }
    }
    assert RangeKeys(t, start.key, end.key) == {};
  }

  /**
    The scan of the range test: from the smallest stored key to the largest
    stored key with its last byte bumped. It emits every entry of the index.
  */
  lemma ScanLeastToBumpedLargest(indices: Registry, index: string, largest: seq<byte>)
    requires index in indices && largest in indices[index]
    requires forall k :: k in indices[index] ==> !Less(largest, k)
    requires |largest| > 0 && largest[|largest| - 1] < 255
    ensures var r := GetRange(indices, Key(index, Least(indices[index].Keys)), Key(index, BumpLast(largest)));
      r.Ok? && |r.value| == Count(indices, index).value
  {
    var t := indices[index];
    var first := Least(t.Keys);
    forall k | k in t
      ensures InRange(k, first, BumpLast(largest))
    {
      BumpLastBoundsBelow(largest, k);
      if k != first {
        LessAsymmetric(first, k);
      }
    }
    ScanCoveringAllKeys(indices, Key(index, first), Key(index, BumpLast(largest)));
  }

  /**
    Two strictly ascending sequences holding the same entries are equal, so
    GetRange's contract fixes the emitted sequence completely.
  */
  lemma {:induction false} AscendingUnique(s1: seq<KeyValuePair>, s2: seq<KeyValuePair>)
    requires Ascending(s1) && Ascending(s2)
    requires forall kv :: kv in s1 <==> kv in s2
    ensures s1 == s2
    decreases |s1|
  {
    if s1 != [] {
      assert s1[0] in s2;
    }
    if s2 != [] {
      assert s2[0] in s1;
    }
    if s1 != [] {
      var i :| 0 <= i < |s1| && s1[i] == s2[0];
      var j :| 0 <= j < |s2| && s2[j] == s1[0];
      if i > 0 && j > 0 {
        LessAsymmetric(s1[0].key, s1[i].key);
      }
      assert s1[0] == s2[0];
      forall kv
        ensures kv in s1[1..] <==> kv in s2[1..]
      {
        if kv in s1[1..] {
          var p :| 1 <= p < |s1| && s1[p] == kv;
          assert kv != s2[0] && kv in s1 && kv in s2;
          var q :| 0 <= q < |s2| && s2[q] == kv;
          assert s2[1..][q - 1] == kv;
        }
        if kv in s2[1..] {
          var q :| 1 <= q < |s2| && s2[q] == kv;
          assert kv != s1[0] && kv in s2 && kv in s1;
          var p :| 0 <= p < |s1| && s1[p] == kv;
          assert s1[1..][p - 1] == kv;
        }
      }
      AscendingUnique(s1[1..], s2[1..]);
      assert s1 == [s1[0]] + s1[1..] && s2 == [s2[0]] + s2[1..];
    }
  }

  /** A value just written is emitted by any scan of its index whose interval holds its key. */
  lemma PutThenScan(indices: Registry, k: Key, item: seq<byte>, start: seq<byte>, end: seq<byte>)
    requires InRange(k.key, start, end)
    ensures var r := GetRange(PutAll(indices, [k], item), Key(k.index, start), Key(k.index, end));
      r.Ok? && KeyValuePair(k.key, item) in r.value
  {
    PutThenGet(indices, [k], item, k);
  }

  /**
    The end key a caller builds by adding one to the last byte of the largest
    key is strictly greater than every key up to that largest key.
  */
  function BumpLast(k: seq<byte>): (r: seq<byte>)
    requires |k| > 0 && k[|k| - 1] < 255
    ensures |r| == |k| && r[..|k| - 1] == k[..|k| - 1]
    ensures r[|k| - 1] == k[|k| - 1] + 1
  {
    k[..|k| - 1] + [k[|k| - 1] + 1]
  }

  lemma {:induction false} BumpLastIsAbove(k: seq<byte>)
    requires |k| > 0 && k[|k| - 1] < 255
    ensures Less(k, BumpLast(k))
    decreases |k|
  {
    var b := BumpLast(k);
    if |k| > 1 {
      assert k[0] == b[0];
      assert k[1..][..|k| - 2] == k[..|k| - 1][1..];
      BumpLastIsAbove(k[1..]);
      assert BumpLast(k[1..]) == b[1..];
    }
  }

  lemma BumpLastBoundsBelow(k: seq<byte>, x: seq<byte>)
    requires |k| > 0 && k[|k| - 1] < 255
    requires !Less(k, x)
    ensures Less(x, BumpLast(k))
  {
    BumpLastIsAbove(k);
    LessTrichotomy(k, x);
    if x != k {
      LessTransitive(x, k, BumpLast(k));
    }
  }
}
