/**
 * The separate-chaining hash table of `dataStructures/hashTable.js`.
 *
 * The table object is a class: `buckets` is a fixed-size array of
 * buckets that `_resize` and `clear` replace by a fresh one, each bucket
 * a list of key/value entries that `set` and `delete` rebuild, and
 * `count` the number of entries.  The djb2 string hash is a constant
 * function `hash` fixed when the table is made; the slot a key lands in
 * is `Math.abs(hash) % size`, as in the source.  A ghost map `contents`
 * is the abstract state: what `get` answers for every key.
 */
module HashTables {
  import opened Common

  datatype Entry<K, V> = Entry(key: K, value: V)

  /** `Math.abs(hash(key)) % size`: the bucket index of a key. */
  function Slot<K>(hash: K -> int, key: K, n: int): (i: int)
    requires n > 0
    ensures 0 <= i < n
  {
    (if hash(key) < 0 then -hash(key) else hash(key)) % n
  }

  // ---------------------------------------------------------------------
  // one bucket
  // ---------------------------------------------------------------------

  /** `bucket.findIndex(item => item.key === key)`. */
  function Position<K(==,!new), V>(bucket: seq<Entry<K, V>>, key: K): (p: int)
    ensures -1 <= p < |bucket|
    ensures p >= 0 ==> bucket[p].key == key
    ensures forall i :: 0 <= i < |bucket| && (p == -1 || i < p) ==> bucket[i].key != key
  {
    if bucket == [] then -1
    else if bucket[0].key == key then 0
    else
      var p := Position(bucket[1..], key);
      if p == -1 then -1 else p + 1
  }

  /** `bucket.find(item => item.key === key)`, then its value or `undefined`. */
  function Lookup<K(==,!new), V>(bucket: seq<Entry<K, V>>, key: K): Option<V> {
    var p := Position(bucket, key);
    if p == -1 then None else Some(bucket[p].value)
  }

  /** No key occurs twice in the bucket. */
  ghost predicate DistinctKeys<K(!new), V>(bucket: seq<Entry<K, V>>) {
    forall i, j :: 0 <= i < j < |bucket| ==> bucket[i].key != bucket[j].key
  }

  /** In a bucket without repeated keys, the entry holding `key` is the one found. */
  lemma PositionUnique<K(!new), V>(bucket: seq<Entry<K, V>>, key: K, i: int)
    requires DistinctKeys(bucket) && 0 <= i < |bucket| && bucket[i].key == key
    ensures Position(bucket, key) == i
  {
  }

  /** Pushing an entry for a missing key makes it found, and changes no other lookup. */
  lemma LookupAppend<K(!new), V>(bucket: seq<Entry<K, V>>, e: Entry<K, V>, key: K)
    requires DistinctKeys(bucket) && Position(bucket, e.key) == -1
    ensures DistinctKeys(bucket + [e])
    ensures Lookup(bucket + [e], key) == if key == e.key then Some(e.value) else Lookup(bucket, key)
  {
    var b := bucket + [e];
    if key == e.key {
      PositionUnique(b, key, |bucket|);
    } else {
      var p := Position(bucket, key);
      if p >= 0 {
        PositionUnique(b, key, p);
      } else {
        assert Position(b, key) == -1;
      }
    }
  }

  /** Overwriting the entry of a present key changes its value and no other lookup. */
  lemma LookupReplace<K(!new), V>(bucket: seq<Entry<K, V>>, p: int, e: Entry<K, V>, key: K)
    requires DistinctKeys(bucket) && 0 <= p < |bucket| && bucket[p].key == e.key
    ensures DistinctKeys(bucket[p := e])
    ensures Lookup(bucket[p := e], key) == if key == e.key then Some(e.value) else Lookup(bucket, key)
  {
    var b := bucket[p := e];
    if key == e.key {
      PositionUnique(b, key, p);
    } else {
      var q := Position(bucket, key);
      if q >= 0 {
        PositionUnique(b, key, q);
      } else {
        assert Position(b, key) == -1;
      }
    }
  }

  /** Splicing out the entry at `p` makes its key missing and changes no other lookup. */
  lemma LookupRemove<K(!new), V>(bucket: seq<Entry<K, V>>, p: int, key: K)
    requires DistinctKeys(bucket) && 0 <= p < |bucket|
    ensures DistinctKeys(bucket[..p] + bucket[p + 1..])
    ensures Lookup(bucket[..p] + bucket[p + 1..], key) ==
      if key == bucket[p].key then None else Lookup(bucket, key)
  {
    var b := bucket[..p] + bucket[p + 1..];
    assert forall i :: 0 <= i < |b| ==> b[i] == bucket[if i < p then i else i + 1];
    var q := Position(bucket, key);
    if key == bucket[p].key || q == -1 {
      assert Position(b, key) == -1;
    } else if q < p {
      PositionUnique(b, key, q);
    } else {
      PositionUnique(b, key, q - 1);
    }
  }

  // ---------------------------------------------------------------------
  // all buckets
  // ---------------------------------------------------------------------

  /** The entries of all buckets, bucket by bucket, in the order `keys()` visits them. */
  function Flatten<T>(s: seq<seq<T>>): (r: seq<T>)
    ensures s == [] ==> r == []
  {
    if s == [] then [] else Flatten(s[..|s| - 1]) + s[|s| - 1]
  }

  /** Replacing one bucket changes the entry count by the difference in its length. */
  lemma {:induction false} FlattenUpdate<T>(s: seq<seq<T>>, i: int, b: seq<T>)
    requires 0 <= i < |s|
    ensures |Flatten(s[i := b])| == |Flatten(s)| - |s[i]| + |b|
  {
    var n := |s|;
    if i < n - 1 {
      assert s[i := b][..n - 1] == s[..n - 1][i := b];
      FlattenUpdate(s[..n - 1], i, b);
    } else {
      assert s[i := b][..n - 1] == s[..n - 1];
    }
  }

  /** A prefix of the buckets holds no more entries than all of them. */
  lemma {:induction false} FlattenPrefix<T>(s: seq<seq<T>>, i: int)
    requires 0 <= i <= |s|
    ensures |Flatten(s[..i])| <= |Flatten(s)|
  {
    if i < |s| {
      var n := |s|;
      assert s[..n - 1][..i] == s[..i];
      FlattenPrefix(s[..n - 1], i);
    } else {
      assert s[..i] == s;
    }
  }

  /** Empty buckets hold no entries. */
  lemma {:induction false} FlattenEmpty<T>(s: seq<seq<T>>)
    requires forall i :: 0 <= i < |s| ==> s[i] == []
    ensures Flatten(s) == []
  {
    if s != [] {
      FlattenEmpty(s[..|s| - 1]);
    }
  }

  /** An entry is among the flattened entries exactly when some bucket holds it. */
  lemma {:induction false} FlattenMember<T>(s: seq<seq<T>>, x: T)
    ensures x in Flatten(s) <==> exists i, j :: 0 <= i < |s| && 0 <= j < |s[i]| && s[i][j] == x
  {
    if s != [] {
      var n := |s|;
      FlattenMember(s[..n - 1], x);
      if x in Flatten(s) && x !in Flatten(s[..n - 1]) {
        var j :| 0 <= j < |s[n - 1]| && s[n - 1][j] == x;
        assert s[n - 1][j] == x;
      }
      if exists i, j :: 0 <= i < n && 0 <= j < |s[i]| && s[i][j] == x {
        var i, j :| 0 <= i < n && 0 <= j < |s[i]| && s[i][j] == x;
        if i < n - 1 {
          assert s[..n - 1][i][j] == x;
        } else {
          assert s[n - 1][j] in s[n - 1];
        }
      }
    }
  }

  /** Every entry sits in the bucket its key hashes to. */
  ghost predicate Placed<K(!new), V>(bs: seq<seq<Entry<K, V>>>, hash: K -> int) {
    forall i, j :: 0 <= i < |bs| && 0 <= j < |bs[i]| ==> Slot(hash, bs[i][j].key, |bs|) == i
  }

  /** No bucket holds a key twice. */
  ghost predicate Distinct<K(!new), V>(bs: seq<seq<Entry<K, V>>>) {
    forall i :: 0 <= i < |bs| ==> DistinctKeys(bs[i])
  }

  /** Looking a key up in its bucket answers what `contents` holds for it. */
  ghost predicate Maps<K(!new), V>(bs: seq<seq<Entry<K, V>>>, hash: K -> int, contents: map<K, V>)
    requires |bs| > 0
  {
    forall k {:trigger Slot(hash, k, |bs|)} :: Lookup(bs[Slot(hash, k, |bs|)], k) == if k in contents then Some(contents[k]) else None
  }

  /** The buckets hold `contents`, with `count` entries, each key once and in its own bucket. */
  ghost predicate Table<K(!new), V>(bs: seq<seq<Entry<K, V>>>, hash: K -> int, contents: map<K, V>, count: int) {
    |bs| > 0 && Placed(bs, hash) && Distinct(bs) && Maps(bs, hash, contents) && count == |Flatten(bs)|
  }

  /** A fresh set of empty buckets holds nothing. */
  lemma EmptyTable<K(!new), V>(bs: seq<seq<Entry<K, V>>>, hash: K -> int)
    requires |bs| > 0 && forall i :: 0 <= i < |bs| ==> bs[i] == []
    ensures Table(bs, hash, map[], 0)
  {
    FlattenEmpty(bs);
  }

  /** An entry stored in the table is what `contents` holds for its key. */
  lemma StoredEntry<K(!new), V>(bs: seq<seq<Entry<K, V>>>, hash: K -> int, contents: map<K, V>, count: int, i: int, j: int)
    requires Table(bs, hash, contents, count) && 0 <= i < |bs| && 0 <= j < |bs[i]|
    ensures bs[i][j].key in contents && contents[bs[i][j].key] == bs[i][j].value
  {
    var e := bs[i][j];
    assert Slot(hash, e.key, |bs|) == i;
    PositionUnique(bs[i], e.key, j);
    assert Lookup(bs[Slot(hash, e.key, |bs|)], e.key) == Some(e.value);
  }

  /** A key in `contents` is stored, in its own bucket. */
  lemma ContentEntry<K(!new), V>(bs: seq<seq<Entry<K, V>>>, hash: K -> int, contents: map<K, V>, count: int, k: K)
    returns (j: int)
    requires Table(bs, hash, contents, count) && k in contents
    ensures var i := Slot(hash, k, |bs|); 0 <= j < |bs[i]| && bs[i][j] == Entry(k, contents[k])
  {
    var i := Slot(hash, k, |bs|);
    assert Lookup(bs[i], k) == Some(contents[k]);
    j := Position(bs[i], k);
  }

  /** `set` on a missing key: push the entry onto its bucket. */
  lemma TableAppend<K(!new), V>(bs: seq<seq<Entry<K, V>>>, hash: K -> int, contents: map<K, V>, count: int, e: Entry<K, V>)
    requires Table(bs, hash, contents, count)
    requires Position(bs[Slot(hash, e.key, |bs|)], e.key) == -1
    ensures e.key !in contents
    ensures var i := Slot(hash, e.key, |bs|);
      Table(bs[i := bs[i] + [e]], hash, contents[e.key := e.value], count + 1)
  {
    var i := Slot(hash, e.key, |bs|);
    var bs' := bs[i := bs[i] + [e]];
    assert Lookup(bs[i], e.key) == None;
    forall k ensures Lookup(bs'[Slot(hash, k, |bs'|)], k) ==
      if k in contents[e.key := e.value] then Some(contents[e.key := e.value][k]) else None
    {
      LookupAppend(bs[i], e, k);
    }
    forall m | 0 <= m < |bs'| ensures DistinctKeys(bs'[m]) {
      LookupAppend(bs[i], e, e.key);
    }
    FlattenUpdate(bs, i, bs[i] + [e]);
  }

  /** `set` on a present key: overwrite its entry in place. */
  lemma TableReplace<K(!new), V>(bs: seq<seq<Entry<K, V>>>, hash: K -> int, contents: map<K, V>, count: int, e: Entry<K, V>)
    requires Table(bs, hash, contents, count)
    requires Position(bs[Slot(hash, e.key, |bs|)], e.key) >= 0
    ensures e.key in contents
    ensures var i := Slot(hash, e.key, |bs|);
      Table(bs[i := bs[i][Position(bs[i], e.key) := e]], hash, contents[e.key := e.value], count)
  {
    var i := Slot(hash, e.key, |bs|);
    var p := Position(bs[i], e.key);
    var bs' := bs[i := bs[i][p := e]];
    assert Lookup(bs[i], e.key).Some?;
    forall k ensures Lookup(bs'[Slot(hash, k, |bs'|)], k) ==
      if k in contents[e.key := e.value] then Some(contents[e.key := e.value][k]) else None
    {
      LookupReplace(bs[i], p, e, k);
    }
    forall m | 0 <= m < |bs'| ensures DistinctKeys(bs'[m]) {
      LookupReplace(bs[i], p, e, e.key);
    }
    FlattenUpdate(bs, i, bs[i][p := e]);
  }

  /** `delete` on a present key: splice its entry out of its bucket. */
  lemma TableRemove<K(!new), V>(bs: seq<seq<Entry<K, V>>>, hash: K -> int, contents: map<K, V>, count: int, key: K,
                                i: int, p: int)
    requires Table(bs, hash, contents, count)
    requires i == Slot(hash, key, |bs|) && p == Position(bs[i], key) && p >= 0
    ensures key in contents
    ensures Table(bs[i := bs[i][..p] + bs[i][p + 1..]], hash, contents - {key}, count - 1)
  {
    var b := bs[i][..p] + bs[i][p + 1..];
    var bs' := bs[i := b];
    assert Lookup(bs[i], key).Some?;
    assert Maps(bs', hash, contents - {key}) by {
      forall k ensures Lookup(bs'[Slot(hash, k, |bs'|)], k) ==
        if k in contents - {key} then Some((contents - {key})[k]) else None
      {
        LookupRemove(bs[i], p, k);
      }
    }
    assert Distinct(bs') by {
      LookupRemove(bs[i], p, key);
    }
    assert Placed(bs', hash) by {
      SplicePlaced(bs, hash, i, p);
    }
    FlattenUpdate(bs, i, b);
  }

  /** Splicing an entry out of a bucket leaves every entry in its own bucket. */
  lemma SplicePlaced<K(!new), V>(bs: seq<seq<Entry<K, V>>>, hash: K -> int, i: int, p: int)
    requires |bs| > 0 && Placed(bs, hash) && 0 <= i < |bs| && 0 <= p < |bs[i]|
    ensures Placed(bs[i := bs[i][..p] + bs[i][p + 1..]], hash)
  {
    var bs': seq<seq<Entry<K, V>>> := bs[i := bs[i][..p] + bs[i][p + 1..]];
    forall m: int, j: int | 0 <= m < |bs'| && 0 <= j < |bs'[m]| ensures Slot(hash, bs'[m][j].key, |bs'|) == m {
      if m == i {
        assert bs'[m][j] == bs[i][if j < p then j else j + 1];
      }
    }
  }


  /** The flattened entries of a table are exactly its contents. */
  lemma TableEntries<K(!new), V>(bs: seq<seq<Entry<K, V>>>, hash: K -> int, contents: map<K, V>, count: int)
    requires Table(bs, hash, contents, count)
    ensures forall e :: e in Flatten(bs) ==> e.key in contents && contents[e.key] == e.value
    ensures forall k :: k in contents ==> Entry(k, contents[k]) in Flatten(bs)
  {
    forall e | e in Flatten(bs) ensures e.key in contents && contents[e.key] == e.value {
      FlattenMember(bs, e);
      var i, j :| 0 <= i < |bs| && 0 <= j < |bs[i]| && bs[i][j] == e;
      StoredEntry(bs, hash, contents, count, i, j);
    }
    forall k | k in contents ensures Entry(k, contents[k]) in Flatten(bs) {
      var j := ContentEntry(bs, hash, contents, count, k);
      FlattenMember(bs, Entry(k, contents[k]));
      assert bs[Slot(hash, k, |bs|)][j] == Entry(k, contents[k]);
    }
  }


  /** Two entries at different places of a table have different keys. */
  lemma KeysApart<K(!new), V>(bs: seq<seq<Entry<K, V>>>, hash: K -> int, i: int, j: int, m: int, n: int)
    requires Placed(bs, hash) && Distinct(bs)
    requires 0 <= i < |bs| && 0 <= j < |bs[i]| && 0 <= m < |bs| && 0 <= n < |bs[m]| && (i, j) != (m, n)
    ensures bs[i][j].key != bs[m][n].key
  {
    if i == m {
      assert DistinctKeys(bs[i]);
    }
  }

  /** `count / size >= loadFactor` with `loadFactor` 0.75, in whole numbers. */
  lemma LoadFactor(count: int, size: int)
    requires size > 0
    ensures (count as real) / (size as real) >= 0.75 <==> 4 * count >= 3 * size
  {
    var q := (count as real) / (size as real);
    assert q * (size as real) == count as real;
    if q >= 0.75 {
      assert q * (size as real) >= 0.75 * (size as real);
    } else {
      assert q * (size as real) < 0.75 * (size as real);
    }
  }

  /** The part of `m` on the keys in `keys`. */
  ghost function Part<K, V>(m: map<K, V>, keys: set<K>): map<K, V>
    requires keys <= m.Keys
  {
    map k | k in keys :: m[k]
  }

  /** The part of `m` on `keys` has exactly those keys. */
  lemma PartKeys<K, V>(m: map<K, V>, keys: set<K>)
    requires keys <= m.Keys
    ensures Part(m, keys).Keys == keys
  {
  }

  /** Adding one key of `m` to the part adds its entry. */
  lemma PartAdd<K, V>(m: map<K, V>, keys: set<K>, k: K)
    requires keys <= m.Keys && k in m
    ensures Part(m, keys)[k := m[k]] == Part(m, keys + {k})
  {
  }

  /**
   * Re-inserting the entries of `bs` in bucket order has reached bucket
   * `i`, entry `j`: the keys seen are those of the entries before that
   * place.
   */
  ghost predicate Progress<K(!new), V>(bs: seq<seq<Entry<K, V>>>, seen: set<K>, i: int, j: int) {
    0 <= i <= |bs| && (i < |bs| ==> 0 <= j <= |bs[i]|) && (i == |bs| ==> j == 0) &&
    forall m, n :: 0 <= m < |bs| && 0 <= n < |bs[m]| ==> (bs[m][n].key in seen <==> m < i || (m == i && n < j))
  }

  /** The next entry of a table has an unseen key and the value `contents` holds for it. */
  lemma ProgressStep<K(!new), V>(bs: seq<seq<Entry<K, V>>>, hash: K -> int, contents: map<K, V>, count: int,
                                 seen: set<K>, i: int, j: int)
    requires Table(bs, hash, contents, count) && Progress(bs, seen, i, j) && i < |bs| && j < |bs[i]|
    ensures bs[i][j].key !in seen && bs[i][j].key in contents && contents[bs[i][j].key] == bs[i][j].value
    ensures Progress(bs, seen + {bs[i][j].key}, i, j + 1)
  {
    StoredEntry(bs, hash, contents, count, i, j);
    forall m, n | 0 <= m < |bs| && 0 <= n < |bs[m]| && (m, n) != (i, j)
      ensures bs[m][n].key != bs[i][j].key
    {
      KeysApart(bs, hash, i, j, m, n);
    }
  }

  /** Finishing bucket `i` moves on to the start of bucket `i + 1`. */
  lemma ProgressNext<K(!new), V>(bs: seq<seq<Entry<K, V>>>, seen: set<K>, i: int)
    requires 0 <= i < |bs| && Progress(bs, seen, i, |bs[i]|)
    ensures Progress(bs, seen, i + 1, 0)
  {
  }

  /** Once every entry is re-inserted, the keys seen are all the keys of `contents`. */
  lemma ProgressDone<K(!new), V>(bs: seq<seq<Entry<K, V>>>, hash: K -> int, contents: map<K, V>, count: int,
                                 seen: set<K>)
    requires Table(bs, hash, contents, count) && Progress(bs, seen, |bs|, 0) && seen <= contents.Keys
    ensures Part(contents, seen) == contents
  {
    forall k | k in contents ensures k in seen {
      var n := ContentEntry(bs, hash, contents, count, k);
      assert bs[Slot(hash, k, |bs|)][n].key == k;
    }
  }

  // ---------------------------------------------------------------------
  // the table object
  // ---------------------------------------------------------------------

  class HashTable<K(==,!new), V> {
    const hash: K -> int
    var size: int
    var buckets: array<seq<Entry<K, V>>>
    var count: int
    ghost var contents: map<K, V>

    /**
     * `size` buckets hold `contents` with `count` entries; the load
     * check in `set` keeps `count` within three quarters of `size`, give
     * or take the entry added after the check.
     */
    ghost predicate Valid()
      reads this, buckets
    {
      size == buckets.Length && Table(buckets[..], hash, contents, count) && 4 * count <= 3 * size + 3
    }

    /** The load check at the head of `set`. */
    predicate Crowded()
      reads this
      requires size > 0
    {
      (count as real) / (size as real) >= 0.75
    }

    /** `new HashTable(size = 16)`: `size` empty buckets. */
    constructor(hash: K -> int, size: int := 16)
      requires size > 0
      ensures Valid() && fresh(buckets)
      ensures this.hash == hash && this.size == size && count == 0 && contents == map[]
    {
      this.hash := hash;
      this.size := size;
      buckets := new seq<Entry<K, V>>[size](_ => []);
      count := 0;
      contents := map[];
      new;
      EmptyTable(buckets[..], hash);
    }

    /**
     * `set(key, value)`: resize first when three quarters full, then
     * overwrite the entry of a present key or push a new one.
     */
    method Set(key: K, value: V)
      requires Valid()
      modifies this, buckets
      ensures Valid()
      ensures contents == old(contents)[key := value]
      ensures count == old(count) + (if key in old(contents) then 0 else 1)
      ensures if 4 * old(count) >= 3 * old(size) then size == 2 * old(size) && fresh(buckets)
        else size == old(size) && buckets == old(buckets)
      decreases if 4 * count >= 3 * size then 2 else 0, 0
    {
      LoadFactor(count, size);
      if Crowded() {
        Resize();
      }
      Put(key, value);
    }

    /** The body of `set` after the load check: overwrite or push the entry. */
    method Put(key: K, value: V)
      requires Valid() && 4 * count + 1 <= 3 * size
      modifies buckets, this
      ensures Valid() && buckets == old(buckets) && size == old(size)
      ensures contents == old(contents)[key := value]
      ensures count == old(count) + (if key in old(contents) then 0 else 1)
    {
      var index := Slot(hash, key, size);
      var bucket := buckets[index];
      var existing := Position(bucket, key);
      ghost var before := buckets[..];
      if existing >= 0 {
        TableReplace(before, hash, contents, count, Entry(key, value));
        buckets[index] := bucket[existing := Entry(key, value)];
        assert buckets[..] == before[index := bucket[existing := Entry(key, value)]];
        contents := contents[key := value];
        return;
      }
      TableAppend(before, hash, contents, count, Entry(key, value));
      buckets[index] := bucket + [Entry(key, value)];
      assert buckets[..] == before[index := bucket + [Entry(key, value)]];
      count := count + 1;
      contents := contents[key := value];
    }

    /** `get(key)`: the value stored under `key`, or `undefined`. */
    function Get(key: K): (r: Option<V>)
      requires Valid()
      reads this, buckets
      ensures r == if key in contents then Some(contents[key]) else None
    {
      Lookup(buckets[Slot(hash, key, size)], key)
    }

    /** `has(key)`: `get(key) !== undefined`. */
    function Has(key: K): (b: bool)
      requires Valid()
      reads this, buckets
      ensures b <==> key in contents
    {
      Get(key) != None
    }

    /** `delete(key)`: splice the entry out and report whether there was one. */
    method Delete(key: K) returns (removed: bool)
      requires Valid()
      modifies buckets, this
      ensures Valid() && buckets == old(buckets) && size == old(size)
      ensures removed <==> key in old(contents)
      ensures contents == old(contents) - {key}
      ensures count == old(count) - (if removed then 1 else 0)
    {
      var index := Slot(hash, key, size);
      var bucket := buckets[index];
      var itemIndex := Position(bucket, key);
      if itemIndex != -1 {
        ghost var before := buckets[..];
        TableRemove(before, hash, contents, count, key, index, itemIndex);
        buckets[index] := bucket[..itemIndex] + bucket[itemIndex + 1..];
        assert buckets[..] == before[index := bucket[..itemIndex] + bucket[itemIndex + 1..]];
        count := count - 1;
        contents := contents - {key};
        return true;
      }
      assert Lookup(buckets[..][index], key) == None;
      return false;
    }

    /** Every stored entry, bucket by bucket. */
    ghost function AllEntries(): seq<Entry<K, V>>
      reads this, buckets
    {
      Flatten(buckets[..])
    }

    /** The stored entries are `count` many and are exactly the key/value pairs of `contents`. */
    lemma EntriesAreContents()
      requires Valid()
      ensures |AllEntries()| == count
      ensures forall e :: e in AllEntries() ==> e.key in contents && contents[e.key] == e.value
      ensures forall k :: k in contents ==> Entry(k, contents[k]) in AllEntries()
    {
      TableEntries(buckets[..], hash, contents, count);
    }

    /** `keys()`: every stored key, bucket by bucket, `count` of them, each key of `contents` once. */
    method Keys() returns (result: seq<K>)
      requires Valid()
      ensures |result| == count
      ensures forall i :: 0 <= i < |result| ==> result[i] == AllEntries()[i].key
      ensures forall k :: k in result <==> k in contents
    {
      result := [];
      for i := 0 to buckets.Length
        invariant |result| == |Flatten(buckets[..i])|
        invariant forall m :: 0 <= m < |result| ==> result[m] == Flatten(buckets[..i])[m].key
      {
        var bucket := buckets[i];
        assert buckets[..i + 1][..i] == buckets[..i];
        for j := 0 to |bucket|
          invariant |result| == |Flatten(buckets[..i])| + j
          invariant forall m :: 0 <= m < |result| ==> result[m] == (Flatten(buckets[..i]) + bucket)[m].key
        {
          result := result + [bucket[j].key];
        }
      }
      assert buckets[..buckets.Length] == buckets[..];
      EntriesAreContents();
      KeysAreContents(result);
    }

    /** A listing of the stored keys holds each key of `contents`, and no other. */
    lemma KeysAreContents(result: seq<K>)
      requires Valid() && |result| == |AllEntries()|
      requires forall i :: 0 <= i < |result| ==> result[i] == AllEntries()[i].key
      ensures forall k :: k in result <==> k in contents
    {
      EntriesAreContents();
      forall k | k in result ensures k in contents {
        var m :| 0 <= m < |result| && result[m] == k;
        assert AllEntries()[m] in AllEntries();
      }
      forall k | k in contents ensures k in result {
        var e := Entry(k, contents[k]);
        assert e in AllEntries();
        var m :| 0 <= m < |AllEntries()| && AllEntries()[m] == e;
        assert result[m] == k;
      }
    }

    /** `values()`: every stored value, bucket by bucket, `count` of them. */
    method Values() returns (result: seq<V>)
      requires Valid()
      ensures |result| == count
      ensures forall i :: 0 <= i < |result| ==> result[i] == AllEntries()[i].value
      ensures forall v :: v in result <==> exists k :: k in contents && contents[k] == v
    {
      result := [];
      for i := 0 to buckets.Length
        invariant |result| == |Flatten(buckets[..i])|
        invariant forall m :: 0 <= m < |result| ==> result[m] == Flatten(buckets[..i])[m].value
      {
        var bucket := buckets[i];
        assert buckets[..i + 1][..i] == buckets[..i];
        for j := 0 to |bucket|
          invariant |result| == |Flatten(buckets[..i])| + j
          invariant forall m :: 0 <= m < |result| ==> result[m] == (Flatten(buckets[..i]) + bucket)[m].value
        {
          result := result + [bucket[j].value];
        }
      }
      assert buckets[..buckets.Length] == buckets[..];
      EntriesAreContents();
      ValuesAreContents(result);
    }

    /** A listing of the stored values holds the value of each key of `contents`, and no other. */
    lemma ValuesAreContents(result: seq<V>)
      requires Valid() && |result| == |AllEntries()|
      requires forall i :: 0 <= i < |result| ==> result[i] == AllEntries()[i].value
      ensures forall v :: v in result <==> exists k :: k in contents && contents[k] == v
    {
      EntriesAreContents();
      forall v ensures v in result <==> exists k :: k in contents && contents[k] == v {
        if v in result {
          var m :| 0 <= m < |result| && result[m] == v;
          assert AllEntries()[m] in AllEntries();
        }
        if exists k :: k in contents && contents[k] == v {
          var k :| k in contents && contents[k] == v;
          assert Entry(k, v) in AllEntries();
          var m :| 0 <= m < |AllEntries()| && AllEntries()[m] == Entry(k, v);
          assert result[m] == v;
        }
      }
    }

    /** `entries()`: every stored `[key, value]` pair, `count` of them, exactly the pairs of `contents`. */
    method Entries() returns (result: seq<(K, V)>)
      requires Valid()
      ensures |result| == count
      ensures forall i :: 0 <= i < |result| ==> result[i] == (AllEntries()[i].key, AllEntries()[i].value)
      ensures forall k, v :: (k, v) in result <==> k in contents && contents[k] == v
    {
      result := [];
      for i := 0 to buckets.Length
        invariant |result| == |Flatten(buckets[..i])|
        invariant forall m :: 0 <= m < |result| ==>
          result[m] == (Flatten(buckets[..i])[m].key, Flatten(buckets[..i])[m].value)
      {
        var bucket := buckets[i];
        assert buckets[..i + 1][..i] == buckets[..i];
        for j := 0 to |bucket|
          invariant |result| == |Flatten(buckets[..i])| + j
          invariant forall m :: 0 <= m < |result| ==>
            result[m] == ((Flatten(buckets[..i]) + bucket)[m].key, (Flatten(buckets[..i]) + bucket)[m].value)
        {
          result := result + [(bucket[j].key, bucket[j].value)];
        }
      }
      assert buckets[..buckets.Length] == buckets[..];
      EntriesAreContents();
      PairsAreContents(result);
    }

    /** A listing of the stored pairs holds exactly the pairs of `contents`. */
    lemma PairsAreContents(result: seq<(K, V)>)
      requires Valid() && |result| == |AllEntries()|
      requires forall i :: 0 <= i < |result| ==> result[i] == (AllEntries()[i].key, AllEntries()[i].value)
      ensures forall k, v :: (k, v) in result <==> k in contents && contents[k] == v
    {
      EntriesAreContents();
      forall k, v ensures (k, v) in result <==> k in contents && contents[k] == v {
        if (k, v) in result {
          var m :| 0 <= m < |result| && result[m] == (k, v);
          assert AllEntries()[m] in AllEntries();
        }
        if k in contents && contents[k] == v {
          assert Entry(k, v) in AllEntries();
          var m :| 0 <= m < |AllEntries()| && AllEntries()[m] == Entry(k, v);
          assert result[m] == (k, v);
        }
      }
    }

    /** `clear()`: fresh empty buckets of the same number, and no entries. */
    method Clear()
      requires Valid()
      modifies this
      ensures Valid() && fresh(buckets) && size == old(size)
      ensures count == 0 && contents == map[]
    {
      buckets := new seq<Entry<K, V>>[size](_ => []);
      count := 0;
      contents := map[];
      EmptyTable(buckets[..], hash);
    }

    /**
     * `_resize()`: twice as many fresh buckets, then `set` every old
     * entry again; the mapping and the count come out unchanged.
     */
    method Resize()
      requires Valid()
      modifies this
      ensures Valid() && fresh(buckets)
      ensures size == 2 * old(size) && count == old(count) && contents == old(contents)
      decreases 1, 1
    {
      var oldBuckets := buckets;
      ghost var oldB: seq<seq<Entry<K, V>>> := buckets[..];
      ghost var oldContents, oldCount, oldSize := contents, count, size;
      size := size * 2;
      buckets := new seq<Entry<K, V>>[size](_ => []);
      count := 0;
      contents := map[];
      EmptyTable(buckets[..], hash);
      ghost var seen: set<K> := {};
      assert Progress(oldB, seen, 0, 0);
      for i := 0 to oldBuckets.Length
        invariant Valid() && fresh(buckets) && size == 2 * oldSize
        invariant oldBuckets[..] == oldB
        invariant Progress(oldB, seen, i, 0)
        invariant seen <= oldContents.Keys && contents == Part(oldContents, seen)
        invariant count == |seen| == |Flatten(oldB[..i])|
      {
        seen := Reinsert(oldBuckets[i], oldB, oldContents, oldCount, oldSize, i, seen);
      }
      assert oldB[..oldBuckets.Length] == oldB;
      ProgressDone(oldB, hash, oldContents, oldCount, seen);
    }

    /**
     * The inner loop of `_resize`: `set` each entry of old bucket `i`
     * again, in order.  `seen` holds the keys re-inserted so far.
     */
    method Reinsert(bucket: seq<Entry<K, V>>, ghost oldB: seq<seq<Entry<K, V>>>, ghost oldContents: map<K, V>,
                    ghost oldCount: int, ghost oldSize: int, ghost i: int, ghost seen0: set<K>)
      returns (ghost seen: set<K>)
      requires Valid() && size == 2 * oldSize && Table(oldB, hash, oldContents, oldCount)
      requires 4 * oldCount <= 3 * oldSize + 3 && 0 <= i < |oldB| && bucket == oldB[i]
      requires Progress(oldB, seen0, i, 0)
      requires seen0 <= oldContents.Keys && contents == Part(oldContents, seen0)
      requires count == |seen0| == |Flatten(oldB[..i])|
      modifies this, buckets
      ensures Valid() && size == old(size) && buckets == old(buckets)
      ensures Progress(oldB, seen, i + 1, 0)
      ensures seen <= oldContents.Keys && contents == Part(oldContents, seen)
      ensures count == |seen| == |Flatten(oldB[..i + 1])|
      decreases 1, 0
    {
      assert oldB[..i + 1][..i] == oldB[..i];
      FlattenPrefix(oldB, i + 1);
      seen := seen0;
      for j := 0 to |bucket|
        invariant Valid() && size == 2 * oldSize && buckets == old(buckets)
        invariant Progress(oldB, seen, i, j)
        invariant seen <= oldContents.Keys && contents == Part(oldContents, seen)
        invariant count == |seen| == |Flatten(oldB[..i])| + j
      {
        var item := bucket[j];
        ProgressStep(oldB, hash, oldContents, oldCount, seen, i, j);
        PartKeys(oldContents, seen);
        assert item.key !in contents;
        AddFresh(seen, item.key);
        Set(item.key, item.value);
        PartAdd(oldContents, seen, item.key);
        seen := seen + {item.key};
      }
      ProgressNext(oldB, seen, i);
    }
  }
}
