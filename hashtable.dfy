/** A chained hash table: an array of bins, each bin a chain of (key, value) entries in
    insertion order, with a `size` counter and growth by doubling once more than three
    quarters of the bins' worth of keys are stored. */
module HashTables {
  import opened Optional

  /** `k` is the key of some entry of `chain`. */
  ghost predicate InChain<K, V>(chain: seq<(K, V)>, k: K) {
    exists i :: 0 <= i < |chain| && chain[i].0 == k
  }

  /** The bin of key `k` among `n` bins: its digest modulo `n`. */
  function Bin<K>(digest: K -> nat, k: K, n: nat): (b: nat)
    requires n >= 1
    ensures b < n
  {
    digest(k) % n
  }

  /** A subset of a finite set is no larger than it. */
  lemma SubsetCard<T>(a: set<T>, b: set<T>)
    requires a <= b
    ensures |a| <= |b|
  {
    assert b == a + (b - a);
  }

  /** Bin `b` of `n` bins: each entry's key hashes to `b` and records that key's value in
      `contents`, and no key occurs twice. */
  ghost predicate ChainOk<K, V>(chain: seq<(K, V)>, b: nat, n: nat, digest: K -> nat, contents: map<K, V>) {
    (forall i :: 0 <= i < |chain| ==>
       n > 0 && Bin(digest, chain[i].0, n) == b && chain[i].0 in contents && contents[chain[i].0] == chain[i].1) &&
    (forall i, j :: 0 <= i < j < |chain| ==> chain[i].0 != chain[j].0)
  }

  /** The bins `slots` store exactly the mapping `contents`, each key in the bin it hashes to. */
  ghost predicate Stored<K, V>(slots: seq<seq<(K, V)>>, digest: K -> nat, contents: map<K, V>) {
    |slots| >= 1 &&
    (forall b :: 0 <= b < |slots| ==> ChainOk(slots[b], b, |slots|, digest, contents)) &&
    (forall k :: k in contents ==> InChain(slots[Bin(digest, k, |slots|)], k))
  }

  /** Overwriting the value of a stored key in place. */
  lemma StoredOverwrite<K, V>(slots: seq<seq<(K, V)>>, digest: K -> nat, contents: map<K, V>,
                                  h: nat, i: nat, key: K, value: V)
    requires Stored(slots, digest, contents)
    requires h < |slots| && i < |slots[h]| && slots[h][i].0 == key
    ensures Stored(slots[h := slots[h][i := (key, value)]], digest, contents[key := value])
  {
    var s' := slots[h := slots[h][i := (key, value)]];
    var c' := contents[key := value];
    forall b | 0 <= b < |s'|
      ensures ChainOk(s'[b], b, |s'|, digest, c')
    {
      assert ChainOk(slots[b], b, |slots|, digest, contents);
    }
    forall k | k in c'
      ensures InChain(s'[Bin(digest, k, |s'|)], k)
    {
      if k != key {
        var w :| 0 <= w < |slots[Bin(digest, k, |slots|)]| && slots[Bin(digest, k, |slots|)][w].0 == k;
        assert s'[Bin(digest, k, |s'|)][w].0 == k;
      } else {
        assert ChainOk(slots[h], h, |slots|, digest, contents);
        assert s'[h][i].0 == k;
      }
    }
  }

  /** Appending a key that is not stored at the tail of its bin. */
  lemma StoredAppend<K, V>(slots: seq<seq<(K, V)>>, digest: K -> nat, contents: map<K, V>,
                               key: K, value: V)
    requires Stored(slots, digest, contents) && key !in contents
    ensures var h := Bin(digest, key, |slots|);
      Stored(slots[h := slots[h] + [(key, value)]], digest, contents[key := value])
  {
    var h := Bin(digest, key, |slots|);
    var s' := slots[h := slots[h] + [(key, value)]];
    var c' := contents[key := value];
    forall b | 0 <= b < |s'|
      ensures ChainOk(s'[b], b, |s'|, digest, c')
    {
      assert ChainOk(slots[b], b, |slots|, digest, contents);
    }
    forall k | k in c'
      ensures InChain(s'[Bin(digest, k, |s'|)], k)
    {
      if k != key {
        var w :| 0 <= w < |slots[Bin(digest, k, |slots|)]| && slots[Bin(digest, k, |slots|)][w].0 == k;
        assert s'[Bin(digest, k, |s'|)][w].0 == k;
      } else {
        assert s'[h][|slots[h]|].0 == k;
      }
    }
  }

  /** Unlinking the entry at position `i` of the key's bin. */
  lemma StoredDelete<K, V>(slots: seq<seq<(K, V)>>, digest: K -> nat, contents: map<K, V>,
                               h: nat, i: nat, key: K)
    requires Stored(slots, digest, contents)
    requires h < |slots| && i < |slots[h]| && slots[h][i].0 == key
    ensures Stored(slots[h := slots[h][..i] + slots[h][i + 1..]], digest, contents - {key})
  {
    var s' := slots[h := slots[h][..i] + slots[h][i + 1..]];
    var c' := contents - {key};
    assert ChainOk(slots[h], h, |slots|, digest, contents);
    forall b | 0 <= b < |s'|
      ensures ChainOk(s'[b], b, |s'|, digest, c')
    {
      assert ChainOk(slots[b], b, |slots|, digest, contents);
      if b == h {
        forall x | 0 <= x < |s'[h]|
          ensures s'[h][x].0 != key
        {
          if x < i {
            assert s'[h][x] == slots[h][x];
          } else {
            assert s'[h][x] == slots[h][x + 1];
          }
        }
      }
    }
    forall k | k in c'
      ensures InChain(s'[Bin(digest, k, |s'|)], k)
    {
      var b := Bin(digest, k, |slots|);
      var w :| 0 <= w < |slots[b]| && slots[b][w].0 == k;
      if b != h {
        assert s'[b][w].0 == k;
      } else if w < i {
        assert s'[b][w].0 == k;
      } else {
        assert w != i;
        assert s'[b][w - 1].0 == k;
      }
    }
  }

  /** `after` is `before` with the pair appended at the tail of bin `h` (which starts the
      chain when the bin is empty); every other bin is as it was. */
  ghost predicate Appended<K, V>(before: seq<seq<(K, V)>>, after: seq<seq<(K, V)>>, h: nat, key: K, value: V) {
    h < |before| && after == before[h := before[h] + [(key, value)]]
  }

  /** `after` is `before` with the value of the entry for `key` in bin `h` overwritten in
      place; the entry keeps its position and every other bin is as it was. */
  ghost predicate Overwritten<K, V>(before: seq<seq<(K, V)>>, after: seq<seq<(K, V)>>, h: nat, key: K, value: V) {
    h < |before| &&
    exists i :: 0 <= i < |before[h]| && before[h][i].0 == key && after == before[h := before[h][i := (key, value)]]
  }

  /** `slots` with the pair `kv` appended at the tail of the bin its key hashes to. */
  ghost function Append<K, V>(slots: seq<seq<(K, V)>>, digest: K -> nat, kv: (K, V)): (r: seq<seq<(K, V)>>)
    requires |slots| >= 1
    ensures |r| == |slots|
  {
    var h := Bin(digest, kv.0, |slots|);
    slots[h := slots[h] + [kv]]
  }

  /** `slots` after appending each pair of `entries` in turn, first to last. */
  ghost function AppendAll<K, V>(slots: seq<seq<(K, V)>>, digest: K -> nat, entries: seq<(K, V)>): (r: seq<seq<(K, V)>>)
    requires |slots| >= 1
    ensures |r| == |slots|
    decreases |entries|
  {
    if entries == [] then slots
    else Append(AppendAll(slots, digest, entries[..|entries| - 1]), digest, entries[|entries| - 1])
  }

  /** Appending one more entry after `entries`. */
  lemma AppendAllSnoc<K, V>(slots: seq<seq<(K, V)>>, digest: K -> nat, entries: seq<(K, V)>, kv: (K, V))
    requires |slots| >= 1
    ensures AppendAll(slots, digest, entries + [kv]) == Append(AppendAll(slots, digest, entries), digest, kv)
  {
    assert (entries + [kv])[..|entries|] == entries;
  }

  /** Appending one more entry of `chain` after `done`. */
  lemma AppendAllStep<K, V>(slots: seq<seq<(K, V)>>, digest: K -> nat, done: seq<(K, V)>, chain: seq<(K, V)>, j: nat)
    requires |slots| >= 1 && j < |chain|
    ensures AppendAll(slots, digest, done + chain[..j + 1]) ==
            Append(AppendAll(slots, digest, done + chain[..j]), digest, chain[j])
  {
    assert done + chain[..j + 1] == (done + chain[..j]) + [chain[j]];
    AppendAllSnoc(slots, digest, done + chain[..j], chain[j]);
  }

  /** The entries of all bins, bin by bin, each chain from head to tail. */
  ghost function Flatten<K, V>(slots: seq<seq<(K, V)>>): seq<(K, V)>
  {
    if slots == [] then [] else Flatten(slots[..|slots| - 1]) + slots[|slots| - 1]
  }

  /** Flattening one more bin. */
  lemma FlattenStep<K, V>(slots: seq<seq<(K, V)>>, b: nat)
    requires b < |slots|
    ensures Flatten(slots[..b + 1]) == Flatten(slots[..b]) + slots[b]
  {
    assert slots[..b + 1][..b] == slots[..b];
  }

  /** The bins `reHash` builds from `slots` among `n` fresh bins: every entry, taken bin by
      bin and each chain from head to tail, appended at the tail of its new bin. */
  ghost function Rehashed<K, V>(slots: seq<seq<(K, V)>>, digest: K -> nat, n: nat): seq<seq<(K, V)>>
    requires n >= 1
  {
    AppendAll(seq(n, _ => []), digest, Flatten(slots))
  }

  /** `after` is `before` with entry `i` of bin `h` unlinked: the rest of that chain keeps its
      order and every other bin is as it was. */
  ghost predicate Unlinked<K, V>(before: seq<seq<(K, V)>>, after: seq<seq<(K, V)>>, h: nat, i: nat) {
    h < |before| && i < |before[h]| && after == before[h := before[h][..i] + before[h][i + 1..]]
  }

  /** During a rehash: `contents` holds exactly the entries of `oldContents` whose old bin
      (out of `oldCap`) is below `b`, plus those of bin `b` among the entries `done`. */
  ghost predicate Reinserted<K, V>(contents: map<K, V>, oldContents: map<K, V>, digest: K -> nat,
                                   oldCap: nat, b: nat, done: seq<(K, V)>)
    requires oldCap >= 1
  {
    (forall k :: k in contents ==>
       k in oldContents && contents[k] == oldContents[k] &&
       (Bin(digest, k, oldCap) < b || (Bin(digest, k, oldCap) == b && InChain(done, k)))) &&
    (forall k :: k in oldContents && (Bin(digest, k, oldCap) < b || (Bin(digest, k, oldCap) == b && InChain(done, k))) ==>
       k in contents)
  }

  /** Reinserting the next entry of old bin `b` adds a key not yet present. */
  lemma ReinsertedStep<K, V>(contents: map<K, V>, oldContents: map<K, V>, digest: K -> nat,
                             oldCap: nat, b: nat, chain: seq<(K, V)>, j: nat)
    requires oldCap >= 1 && j < |chain| && ChainOk(chain, b, oldCap, digest, oldContents)
    requires Reinserted(contents, oldContents, digest, oldCap, b, chain[..j])
    ensures chain[j].0 !in contents
    ensures Reinserted(contents[chain[j].0 := chain[j].1], oldContents, digest, oldCap, b, chain[..j + 1])
    ensures contents[chain[j].0 := chain[j].1].Keys <= oldContents.Keys
  {
    var key := chain[j].0;
    assert !InChain(chain[..j], key) by {
      forall w | 0 <= w < j
        ensures chain[..j][w].0 != key
      {
        assert chain[..j][w] == chain[w];
      }
    }
    var c' := contents[key := chain[j].1];
    forall k | k in c'
      ensures Bin(digest, k, oldCap) < b || (Bin(digest, k, oldCap) == b && InChain(chain[..j + 1], k))
    {
      if k == key {
        assert chain[..j + 1][j].0 == k;
      } else if Bin(digest, k, oldCap) == b {
        var w :| 0 <= w < j && chain[..j][w].0 == k;
        assert chain[..j + 1][w].0 == k;
      }
    }
    forall k | k in oldContents && Bin(digest, k, oldCap) == b && InChain(chain[..j + 1], k)
      ensures k in c'
    {
      var w :| 0 <= w < j + 1 && chain[..j + 1][w].0 == k;
      if w < j {
        assert chain[..j][w].0 == k;
      }
    }
  }

  /** Once every entry of old bin `b` is reinserted, the keys of bins up to `b` are. */
  lemma ReinsertedNext<K, V>(contents: map<K, V>, oldContents: map<K, V>, digest: K -> nat,
                             slots: seq<seq<(K, V)>>, b: nat)
    requires b < |slots| && Stored(slots, digest, oldContents)
    requires Reinserted(contents, oldContents, digest, |slots|, b, slots[b])
    ensures Reinserted(contents, oldContents, digest, |slots|, b + 1, [])
  {
  }

  /** Bins that are all empty store the empty mapping. */
  lemma StoredEmpty<K, V>(slots: seq<seq<(K, V)>>, digest: K -> nat)
    requires |slots| >= 1 && forall b :: 0 <= b < |slots| ==> slots[b] == []
    ensures Stored(slots, digest, map[])
  {
  }

  /** Once every old bin is done, the rehashed mapping is the old one. */
  lemma ReinsertedAll<K, V>(contents: map<K, V>, oldContents: map<K, V>, digest: K -> nat, oldCap: nat)
    requires oldCap >= 1 && Reinserted(contents, oldContents, digest, oldCap, oldCap, [])
    ensures contents == oldContents
  {
    assert contents.Keys == oldContents.Keys;
  }

  /** Removing a key a map lacks leaves it as it is. */
  lemma RemoveAbsent<K, V>(m: map<K, V>, key: K)
    requires key !in m
    ensures m - {key} == m
  {
  }

  /** Removing a key a map holds drops its size by one. */
  lemma RemovePresent<K, V>(m: map<K, V>, key: K)
    requires key in m
    ensures |m - {key}| == |m| - 1
  {
    assert (m - {key}).Keys == m.Keys - {key};
  }

  class HashTable<K(==), V> {
    /** The SHA-1 digest of a key's text, read as a non-negative integer (computed by a
        library the model does not see). */
    const digest: K -> nat
    var capacity: nat
    /** The number of keys inserted and not removed. */
    var size: int
    var bins: array<seq<(K, V)>>
    /** The key-to-value mapping the table stores. */
    ghost var Contents: map<K, V>

    /** The bin a key belongs to under the current capacity. */
    function Hash(key: K): (h: nat)
      reads this
      requires capacity >= 1
      ensures h < capacity
    {
      Bin(digest, key, capacity)
    }

    /** The bins hold exactly Contents, each key once and in the bin it hashes to. */
    ghost predicate Placed()
      reads this, bins
    {
      capacity >= 1 && bins.Length == capacity && Stored(bins[..], digest, Contents)
    }

    /** Placed, and `size` counts the distinct keys stored. */
    ghost predicate Consistent()
      reads this, bins
    {
      Placed() && size == |Contents|
    }

    /** The object invariant: consistent, and the load factor `size / capacity` is at most 0.75. */
    ghost predicate Valid()
      reads this, bins
    {
      Consistent() && 4 * size <= 3 * capacity
    }

    /** `key` is stored as the first entry of its chain. */
    ghost predicate AtHead(key: K)
      reads this, bins
      requires Placed()
    {
      bins[Hash(key)] != [] && bins[Hash(key)][0].0 == key
    }

    constructor (digest: K -> nat, capacity: nat := 1)
      requires capacity >= 1
      ensures Valid() && fresh(bins)
      ensures this.capacity == capacity && this.digest == digest
      ensures size == 0 && Contents == map[]
      ensures forall b :: 0 <= b < bins.Length ==> bins[b] == []
    {
      this.digest := digest;
      this.capacity := capacity;
      size := 0;
      bins := new seq<(K, V)>[capacity](_ => []);
      Contents := map[];
    }

    /** Each key is stored at exactly one position of the whole table. */
    lemma KeyStoredOnce(b1: nat, i1: nat, b2: nat, i2: nat)
      requires Placed()
      requires b1 < bins.Length && i1 < |bins[b1]| && b2 < bins.Length && i2 < |bins[b2]|
      requires bins[b1][i1].0 == bins[b2][i2].0
      ensures b1 == b2 && i1 == i2
    {
      assert ChainOk(bins[..][b1], b1, capacity, digest, Contents);
      assert ChainOk(bins[..][b2], b2, capacity, digest, Contents);
    }

    /** Scans the key's chain; the stored value, or None when the key is absent. */
    method Find(key: K) returns (r: Option<V>)
      requires Placed()
      ensures r == if key in Contents then Some(Contents[key]) else None
    {
      var h := Hash(key);
      var chain := bins[h];
      var i := 0;
      while i < |chain| && chain[i].0 != key
        invariant 0 <= i <= |chain|
        invariant forall j :: 0 <= j < i ==> chain[j].0 != key
      {
        i := i + 1;
      }
      assert ChainOk(bins[..][h], h, capacity, digest, Contents);
      if i == |chain| {
        r := None;
      } else {
        r := Some(chain[i].1);
      }
    }

    /** The placement part of `insert`: overwrite the value of a key already in its chain,
        otherwise start the chain or append at its tail and count the new key. */
    method Put(key: K, value: V) returns (added: bool)
      requires Consistent()
      modifies this, bins
      ensures Consistent()
      ensures bins == old(bins) && capacity == old(capacity)
      ensures added <==> key !in old(Contents)
      ensures Contents == old(Contents)[key := value]
      ensures size == if added then old(size) + 1 else old(size)
      ensures added ==> Appended(old(bins[..]), bins[..], Hash(key), key, value)
      ensures !added ==> Overwritten(old(bins[..]), bins[..], Hash(key), key, value)
    {
      var h := Hash(key);
      ghost var slots := bins[..];
      var chain := bins[h];
      if chain == [] {
        bins[h] := [(key, value)];
        assert [(key, value)] == chain + [(key, value)];
      } else {
        var i := 0;
        while i < |chain|
          invariant 0 <= i <= |chain|
          invariant forall j :: 0 <= j < i ==> chain[j].0 != key
        {
          if chain[i].0 == key {
            bins[h] := chain[i := (key, value)];
            StoredOverwrite(slots, digest, Contents, h, i, key, value);
            assert bins[..] == slots[h := chain[i := (key, value)]];
            Contents := Contents[key := value];
            return false;
          }
          i := i + 1;
        }
        bins[h] := chain + [(key, value)];
      }
      assert !InChain(chain, key);
      StoredAppend(slots, digest, Contents, key, value);
      assert bins[..] == slots[h := chain + [(key, value)]];
      Contents := Contents[key := value];
      size := size + 1;
      return true;
    }

    /** `insert`: store the key's value; a new key may push the load factor over 0.75,
        which rehashes into twice as many bins before returning. */
    method Insert(key: K, value: V)
      requires Valid()
      modifies this, bins
      ensures Valid()
      ensures Contents == old(Contents)[key := value]
      ensures size == if key in old(Contents) then old(size) else old(size) + 1
      ensures capacity == if key !in old(Contents) && 4 * (old(size) + 1) > 3 * old(capacity)
                          then 2 * old(capacity) else old(capacity)
      ensures capacity == old(capacity) ==> bins == old(bins)
      ensures capacity == old(capacity) && key !in old(Contents) ==>
        Appended(old(bins[..]), bins[..], Hash(key), key, value)
      ensures key in old(Contents) ==> Overwritten(old(bins[..]), bins[..], Hash(key), key, value)
      ensures capacity != old(capacity) ==> fresh(bins)
      ensures capacity != old(capacity) ==>
        bins[..] == Rehashed(Append(old(bins[..]), digest, (key, value)), digest, capacity)
    {
      var added := Put(key, value);
      assert added ==> bins[..] == Append(old(bins[..]), digest, (key, value));
      if added && 4 * size > 3 * capacity {
        ReHash();
      }
    }

    /** `reHash`: move every entry into a fresh array of twice as many bins, reinserting
        them one by one in bin order and chain order. */
    method ReHash()
      requires Consistent() && 4 * size <= 3 * capacity + 4
      modifies this
      ensures Valid() && fresh(bins)
      ensures capacity == 2 * old(capacity)
      ensures Contents == old(Contents) && size == old(size)
      ensures bins[..] == Rehashed(old(bins[..]), digest, capacity)
    {
      var temp := bins;
      ghost var oldContents := Contents;
      assert Stored(temp[..], digest, oldContents);
      assert 4 * |oldContents| <= 6 * capacity by {
        if capacity == 1 {
          assert |oldContents| <= 1;
        }
      }
      bins := new seq<(K, V)>[2 * capacity](_ => []);
      size := 0;
      capacity := 2 * capacity;
      Contents := map[];
      StoredEmpty(bins[..], digest);
      assert bins[..] == seq(capacity, _ => []);
      ReinsertBins(temp, oldContents);
    }

    /** The outer loop of `reHash`: reinsert the chains of the old bins in bin order. */
    method ReinsertBins(temp: array<seq<(K, V)>>, ghost oldContents: map<K, V>)
      requires Consistent() && temp != bins && capacity == 2 * temp.Length && temp.Length >= 1
      requires Stored(temp[..], digest, oldContents) && 4 * |oldContents| <= 3 * capacity
      requires Contents == map[] && bins[..] == seq(capacity, _ => [])
      modifies this, bins
      ensures Valid() && bins == old(bins) && capacity == old(capacity) && Contents == oldContents
      ensures bins[..] == Rehashed(temp[..], digest, capacity)
    {
      ghost var slots := temp[..];
      ghost var oldCap := temp.Length;
      ghost var start := bins[..];
      for b := 0 to temp.Length
        invariant bins == old(bins) && capacity == old(capacity) && Consistent()
        invariant Reinserted(Contents, oldContents, digest, oldCap, b, [])
        invariant bins[..] == AppendAll(start, digest, Flatten(slots[..b]))
      {
        assert ChainOk(slots[b], b, oldCap, digest, oldContents);
        ReinsertChain(temp[b], b, oldCap, oldContents, start, Flatten(slots[..b]));
        ReinsertedNext(Contents, oldContents, digest, slots, b);
        FlattenStep(slots, b);
      }
      ReinsertedAll(Contents, oldContents, digest, oldCap);
      assert slots[..oldCap] == slots;
    }

    /** The inner loop of `reHash`: reinsert the entries of old bin `b` through the placement
        part of `insert`, in chain order. */
    method ReinsertChain(chain: seq<(K, V)>, ghost b: nat, ghost oldCap: nat, ghost oldContents: map<K, V>,
                         ghost start: seq<seq<(K, V)>>, ghost done: seq<(K, V)>)
      requires Consistent() && oldCap >= 1 && capacity == 2 * oldCap
      requires 4 * |oldContents| <= 3 * capacity
      requires ChainOk(chain, b, oldCap, digest, oldContents)
      requires Reinserted(Contents, oldContents, digest, oldCap, b, [])
      requires |start| >= 1 && bins[..] == AppendAll(start, digest, done)
      modifies this, bins
      ensures Consistent() && bins == old(bins) && capacity == old(capacity)
      ensures Reinserted(Contents, oldContents, digest, oldCap, b, chain)
      ensures bins[..] == AppendAll(start, digest, done + chain)
    {
      assert done + chain[..0] == done;
      for j := 0 to |chain|
        invariant Consistent() && bins == old(bins) && capacity == old(capacity)
        invariant Reinserted(Contents, oldContents, digest, oldCap, b, chain[..j])
        invariant bins[..] == AppendAll(start, digest, done + chain[..j])
      {
        ReinsertedStep(Contents, oldContents, digest, oldCap, b, chain, j);
        ghost var before := bins[..];
        var added := Put(chain[j].0, chain[j].1);
        AppendAllStep(start, digest, done, chain, j);
        // the load check of the nested `insert` cannot fire during a rehash
        SubsetCard(Contents.Keys, oldContents.Keys);
        assert 4 * size <= 3 * capacity;
      }
      assert chain[..|chain|] == chain;
    }

    /** The position of `key` in its chain, scanning from the head; |chain| when absent. */
    method Locate(key: K) returns (h: nat, i: nat)
      requires Placed()
      ensures h == Hash(key) && i <= |bins[h]|
      ensures i < |bins[h]| <==> key in Contents
      ensures i < |bins[h]| ==> bins[h][i].0 == key
    {
      h := Hash(key);
      var chain := bins[h];
      i := 0;
      while i < |chain| && chain[i].0 != key
        invariant 0 <= i <= |chain|
        invariant forall j :: 0 <= j < i ==> chain[j].0 != key
      {
        i := i + 1;
      }
      assert ChainOk(bins[..][h], h, capacity, digest, Contents);
    }

    /** `remove` with the chain head repointed when the key is the first entry of its bin. */
    method Remove(key: K)
      requires Valid()
      modifies this, bins
      ensures Valid()
      ensures bins == old(bins) && capacity == old(capacity)
      ensures Contents == old(Contents) - {key}
      ensures size == if key in old(Contents) then old(size) - 1 else old(size)
      ensures key !in old(Contents) ==> bins[..] == old(bins[..])
      ensures key in old(Contents) ==>
        exists i :: 0 <= i < |old(bins[Hash(key)])| && old(bins[Hash(key)])[i].0 == key &&
                    Unlinked(old(bins[..]), bins[..], Hash(key), i)
    {
      var h, i := Locate(key);
      var chain := bins[h];
      if i == |chain| {
        RemoveAbsent(Contents, key);
        return;
      }
      RemovePresent(Contents, key);
      StoredDelete(bins[..], digest, Contents, h, i, key);
      size := size - 1;
      Unlink(h, i);
      Contents := Contents - {key};
    }

    /** Unlinks entry `i` of bin `h`: the bin itself is repointed past its first
        entry, a later entry is skipped by its predecessor. */
    method Unlink(h: nat, i: nat)
      requires h < bins.Length && i < |bins[h]|
      modifies bins
      ensures bins[..] == old(bins[..])[h := old(bins[h])[..i] + old(bins[h])[i + 1..]]
    {
      var chain := bins[h];
      if i == 0 {
        bins[h] := chain[1..];
        assert chain[1..] == chain[..i] + chain[i + 1..];
      } else {
        bins[h] := chain[..i] + chain[i + 1..];
      }
    }

    /** `remove` as the repository has it: removing the first entry of a chain only clears a
        local variable, so the entry stays stored while `size` still drops. From then on `size`
        undercounts the keys, so the table need only be placed, not valid. */
    method RemoveAsWritten(key: K)
      requires Placed()
      modifies this, bins
      ensures Placed() && bins == old(bins) && capacity == old(capacity)
      ensures size == if key in old(Contents) then old(size) - 1 else old(size)
      ensures key !in old(Contents) ==> bins[..] == old(bins[..]) && Contents == old(Contents)
      ensures key in old(Contents) && !old(AtHead(key)) ==> Contents == old(Contents) - {key}
      ensures key in old(Contents) && !old(AtHead(key)) ==>
        exists i :: 0 < i < |old(bins[Hash(key)])| && old(bins[Hash(key)])[i].0 == key &&
                    Unlinked(old(bins[..]), bins[..], Hash(key), i)
      ensures key in old(Contents) && !old(AtHead(key)) ==> size - |Contents| == old(size - |Contents|)
      ensures old(AtHead(key)) ==> bins[..] == old(bins[..]) && Contents == old(Contents)
      ensures old(AtHead(key)) ==> size - |Contents| == old(size - |Contents|) - 1
      ensures old(Valid()) && !old(AtHead(key)) ==> Valid()
    {
      var h, i := Locate(key);
      var chain := bins[h];
      if i == |chain| {
        return;
      }
      size := size - 1;
      if i == 0 {
        return;
      }
      ghost var slots := bins[..];
      bins[h] := chain[..i] + chain[i + 1..];
      assert bins[..] == slots[h := chain[..i] + chain[i + 1..]];
      StoredDelete(slots, digest, Contents, h, i, key);
      RemovePresent(Contents, key);
      Contents := Contents - {key};
    }
  }

  /** Construction: a capacity below 1 yields no usable table (the constructor returns before
      setting any field); otherwise an empty table with that many bins. */
  method NewTable<K(==), V>(digest: K -> nat, capacity: int := 1) returns (t: HashTable?<K, V>)
    ensures t == null <==> capacity < 1
    ensures t != null ==> fresh(t) && fresh(t.bins) && t.Valid() && t.capacity == capacity &&
                          t.size == 0 && t.Contents == map[]
  {
    if capacity < 1 {
      return null;
    }
    t := new HashTable(digest, capacity);
  }

  /** The first growth of a single-bin table holding "a", when every key hashes to 0. */
  lemma GrowFromOne(digest: string -> nat)
    requires forall k :: digest(k) == 0
    ensures Rehashed(Append([[]], digest, ("a", 1)), digest, 2) == [[("a", 1)], []]
  {
    var one: seq<seq<(string, int)>> := [[("a", 1)]];
    assert Bin(digest, "a", 1) == 0 && Bin(digest, "a", 2) == 0;
    var empty: seq<(string, int)> := [];
    assert empty + [("a", 1)] == [("a", 1)];
    assert Append([empty], digest, ("a", 1)) == one;
    assert one[..0] == [];
    assert Flatten(one) == [("a", 1)];
    assert [("a", 1)][..0] == [];
  }

  /** The second growth, once "b" has joined "a" in bin 0 of two. */
  lemma GrowFromTwo(digest: string -> nat)
    requires forall k :: digest(k) == 0
    ensures Rehashed(Append([[("a", 1)], []], digest, ("b", 2)), digest, 4) == [[("a", 1), ("b", 2)], [], [], []]
  {
    var two: seq<seq<(string, int)>> := [[("a", 1), ("b", 2)], []];
    assert Bin(digest, "b", 2) == 0 && Bin(digest, "a", 4) == 0 && Bin(digest, "b", 4) == 0;
    var empty: seq<(string, int)> := [];
    assert [("a", 1)] + [("b", 2)] == [("a", 1), ("b", 2)];
    assert empty + [("a", 1)] == [("a", 1)];
    assert Append([[("a", 1)], empty], digest, ("b", 2)) == two;
    assert two[..1] == [[("a", 1), ("b", 2)]];
    assert two[..1][..0] == [];
    assert Flatten(two) == [("a", 1), ("b", 2)];
    var es: seq<(string, int)> := [("a", 1), ("b", 2)];
    assert es[..1] == [("a", 1)] && es[..1][..0] == [];
  }

  /** A table of the default single bin, every key hashing to 0, after inserting "a": the
      load check fires and "a" is the only entry of bin 0 of two. */
  method InsertFirst() returns (t: HashTable<string, int>)
    ensures fresh(t) && fresh(t.bins) && t.Valid() && (forall k :: t.digest(k) == 0)
    ensures t.capacity == 2 && t.Contents == map["a" := 1] && t.bins[..] == [[("a", 1)], []]
  {
    t := new HashTable(_ => 0);
    assert t.bins[..] == [[]];
    GrowFromOne(t.digest);
    t.Insert("a", 1);
  }

  /** The table `InsertFirst` builds, after inserting "b": the load check fires again and
      bin 0 of four holds "a" and then "b". */
  method InsertSecond(t: HashTable<string, int>)
    requires t.Valid() && (forall k :: t.digest(k) == 0)
    requires t.capacity == 2 && t.Contents == map["a" := 1] && t.bins[..] == [[("a", 1)], []]
    modifies t, t.bins
    ensures fresh(t.bins) && t.Valid() && t.capacity == 4
    ensures t.bins[0] == [("a", 1), ("b", 2)] && t.AtHead("a")
  {
    assert "b" !in t.Contents && t.size == 1;
    GrowFromTwo(t.digest);
    t.Insert("b", 2);
    assert t.bins[0] == t.bins[..][0] && t.Hash("a") == 0;
  }

  /** Rehashing keeps insertion order within a bin: with every key hashing alike, a table of
      the default single bin that receives "a" and then "b" grows twice (to two, then four
      bins) and still holds "a" at the head of its chain, "b" behind it. */
  method RehashKeepsChainOrder() returns (t: HashTable<string, int>)
    ensures t.Valid() && t.capacity == 4 && t.bins[0] == [("a", 1), ("b", 2)] && t.AtHead("a")
  {
    t := InsertFirst();
    InsertSecond(t);
  }

  /** The head-of-chain defect made visible: after removing a key that heads its chain,
      `find` still returns the key's value while `size` has dropped by one. */
  method RemovedHeadStillFound<K(==), V>(t: HashTable<K, V>, key: K) returns (r: Option<V>)
    requires t.Valid() && key in t.Contents && t.AtHead(key)
    modifies t, t.bins
    ensures r == Some(old(t.Contents[key])) && t.size == old(t.size) - 1
    ensures t.Placed() && t.bins == old(t.bins) && t.bins[..] == old(t.bins[..])
  {
    t.RemoveAsWritten(key);
    r := t.Find(key);
  }

  /** Removing a key that heads its chain twice drops `size` by two while the key stays
      stored; from a table holding that key alone, `size` ends at -1. */
  method RemovedHeadTwice<K(==), V>(t: HashTable<K, V>, key: K)
    requires t.Valid() && key in t.Contents && t.AtHead(key)
    modifies t, t.bins
    ensures t.Contents == old(t.Contents) && t.size == old(t.size) - 2
    ensures t.Placed() && t.bins == old(t.bins) && t.bins[..] == old(t.bins[..])
    ensures old(t.Contents) == map[key := old(t.Contents[key])] ==> t.size == -1
  {
    t.RemoveAsWritten(key);
    assert t.bins[t.Hash(key)] == t.bins[..][t.Hash(key)];
    t.RemoveAsWritten(key);
  }
}
