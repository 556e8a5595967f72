/** Separate chaining (chain/chain.go): an array of buckets, each a growable
    sequence of entries. New keys are appended, deletion swaps the entry with
    the bucket's last one and truncates, and resizing doubles the capacity
    and reinserts every entry. The table is proved to implement a finite map
    (`contents`) with `size == |contents|`. */
module Chain {
  import opened Common

  /** Position of the first entry of `chain` with key `key`, or -1: what the
      scans of insertNoResize, Get and Delete find. */
  function IndexOf<V>(chain: seq<Entry<V>>, key: int): (r: int)
    ensures -1 <= r < |chain|
    ensures r >= 0 ==> chain[r].key == key && forall j :: 0 <= j < r ==> chain[j].key != key
    ensures r == -1 <==> forall j :: 0 <= j < |chain| ==> chain[j].key != key
  {
    if chain == [] then -1
    else if chain[0].key == key then 0
    else
      var r := IndexOf(chain[1..], key);
      if r == -1 then -1 else r + 1
  }

  /** No key appears twice in a bucket. */
  ghost predicate UniqueKeys<V>(chain: seq<Entry<V>>)
  {
    forall i, j :: 0 <= i < j < |chain| ==> chain[i].key != chain[j].key
  }

  /** The bucket after insertNoResize: the matching entry overwritten, or the
      new pair appended. */
  function Put<V>(chain: seq<Entry<V>>, key: int, value: V): (r: seq<Entry<V>>)
    ensures |r| == |chain| + (if IndexOf(chain, key) >= 0 then 0 else 1)
    ensures forall j :: 0 <= j < |chain| && chain[j].key != key ==> r[j] == chain[j]
    ensures Entry(key, value) in r
  {
    var i := IndexOf(chain, key);
    var j := if i >= 0 then i else |chain|;
    var r := if i >= 0 then chain[i := Entry(key, value)] else chain + [Entry(key, value)];
    assert r[j] == Entry(key, value);
    r
  }

  /** The bucket after Delete: the matching entry replaced by the last one and
      the bucket truncated by one; unchanged if the key is absent. */
  function Remove<V>(chain: seq<Entry<V>>, key: int): (r: seq<Entry<V>>)
    ensures |r| == |chain| - (if IndexOf(chain, key) >= 0 then 1 else 0)
    ensures forall e :: e in r ==> e in chain
  {
    var i := IndexOf(chain, key);
    if i >= 0 then chain[i := chain[|chain| - 1]][..|chain| - 1] else chain
  }

  /** The scan of the bucket `key` hashes to finds it. */
  ghost predicate Present<V>(bs: seq<seq<Entry<V>>>, key: int)
    requires |bs| > 0
  {
    IndexOf(bs[MulHash(key, |bs|)], key) >= 0
  }

  /** The bucket array `bs` holds exactly the pairs of `m`, each in the
      bucket its key hashes to, at most once. */
  ghost predicate Represents<V>(bs: seq<seq<Entry<V>>>, m: map<int, V>)
  {
    && |bs| > 0
    && (forall b, i {:trigger Placed(bs, m, b, i)} ::
          0 <= b < |bs| && 0 <= i < |bs[b]| ==> Placed(bs, m, b, i))
    && (forall b {:trigger UniqueKeys(bs[b])} :: 0 <= b < |bs| ==> UniqueKeys(bs[b]))
    && (forall k {:trigger Present(bs, k)} :: k in m ==> Present(bs, k))
  }

  /** Entry `i` of bucket `b` sits in the bucket its key hashes to and is a
      pair of `m`. */
  ghost predicate Placed<V>(bs: seq<seq<Entry<V>>>, m: map<int, V>, b: int, i: int)
    requires 0 <= b < |bs| && 0 <= i < |bs[b]|
  {
    MulHash(bs[b][i].key, |bs|) == b && bs[b][i].key in m && m[bs[b][i].key] == bs[b][i].value
  }

  /** A key is in the map exactly when the scan of its bucket finds it, and
      the entry found carries the key's value. */
  lemma Lookup<V>(bs: seq<seq<Entry<V>>>, m: map<int, V>, key: int)
    requires Represents(bs, m)
    ensures var chain := bs[MulHash(key, |bs|)];
            && (key in m <==> IndexOf(chain, key) >= 0)
            && (IndexOf(chain, key) >= 0 ==> m[key] == chain[IndexOf(chain, key)].value)
  {
    var h := MulHash(key, |bs|);
    if key in m {
      assert Present(bs, key);
    }
    if IndexOf(bs[h], key) >= 0 {
      assert Placed(bs, m, h, IndexOf(bs[h], key));
    }
  }

  lemma PutChain<V>(chain: seq<Entry<V>>, key: int, value: V)
    requires UniqueKeys(chain)
    ensures var r := Put(chain, key, value);
            && UniqueKeys(r)
            && IndexOf(r, key) >= 0
            && (forall t :: 0 <= t < |r| ==>
                  r[t] == Entry(key, value) || (t < |chain| && r[t] == chain[t] && chain[t].key != key))
            && (forall k :: k != key && IndexOf(chain, k) >= 0 ==> IndexOf(r, k) >= 0)
  {
    var r := Put(chain, key, value);
    var i := IndexOf(chain, key);
    if i >= 0 {
      forall t | 0 <= t < |chain| && t != i ensures chain[t].key != key {
        if t > i {
          assert chain[i].key == key;
        }
      }
      assert r[i].key == key;
    } else {
      assert r[|chain|].key == key;
    }
    forall k | k != key && IndexOf(chain, k) >= 0 ensures IndexOf(r, k) >= 0 {
      var p := IndexOf(chain, k);
      assert r[p].key == k;
    }
  }

  lemma RemoveChain<V>(chain: seq<Entry<V>>, key: int)
    requires UniqueKeys(chain)
    ensures var r := Remove(chain, key);
            && UniqueKeys(r)
            && IndexOf(r, key) < 0
            && (forall t :: 0 <= t < |r| ==>
                  r[t].key != key && r[t] == chain[if t == IndexOf(chain, key) then |chain| - 1 else t])
            && (forall k :: k != key && IndexOf(chain, k) >= 0 ==> IndexOf(r, k) >= 0)
  {
    var r := Remove(chain, key);
    var i := IndexOf(chain, key);
    if i >= 0 {
      var last := |chain| - 1;
      forall t | 0 <= t < |chain| && t != i ensures chain[t].key != key {
        if t > i {
          assert chain[i].key == key;
        }
      }
      forall k | k != key && IndexOf(chain, k) >= 0 ensures IndexOf(r, k) >= 0 {
        var p := IndexOf(chain, k);
        if p == last {
          assert r[i].key == k;
        } else {
          assert r[p].key == k;
        }
      }
    }
  }

  /** Replacing bucket `h` by `r` turns a representation of `m` into one of
      `m'` when `r` holds exactly the pairs of `m'` hashing to `h` and `m'`
      agrees with `m` on every other key. */
  lemma ReplaceBucket<V>(bs: seq<seq<Entry<V>>>, m: map<int, V>, m': map<int, V>, h: int, r: seq<Entry<V>>)
    requires Represents(bs, m) && 0 <= h < |bs| && UniqueKeys(r)
    requires forall t :: 0 <= t < |r| ==>
               MulHash(r[t].key, |bs|) == h && r[t].key in m' && m'[r[t].key] == r[t].value
    requires forall k :: k in m' && MulHash(k, |bs|) == h ==> IndexOf(r, k) >= 0
    requires forall k :: MulHash(k, |bs|) != h ==> (k in m' <==> k in m) && (k in m ==> m'[k] == m[k])
    ensures Represents(bs[h := r], m')
  {
    var nb := bs[h := r];
    forall b, i | 0 <= b < |nb| && 0 <= i < |nb[b]| ensures Placed(nb, m', b, i) {
      if b != h {
        assert nb[b] == bs[b];
        assert Placed(bs, m, b, i);
      }
    }
    forall b | 0 <= b < |nb| ensures UniqueKeys(nb[b]) {
      if b != h {
        assert nb[b] == bs[b];
        assert UniqueKeys(bs[b]);
      }
    }
    forall k | k in m' ensures Present(nb, k) {
      if MulHash(k, |bs|) != h {
        assert Present(bs, k);
      }
    }
  }

  /** The bucket insertNoResize builds holds only pairs of the updated map,
      each hashing to that bucket. */
  lemma PutEntries<V>(bs: seq<seq<Entry<V>>>, m: map<int, V>, key: int, value: V)
    requires Represents(bs, m)
    ensures var h := MulHash(key, |bs|);
            var r := Put(bs[h], key, value);
            && UniqueKeys(r)
            && forall t :: 0 <= t < |r| ==>
                 MulHash(r[t].key, |bs|) == h && r[t].key in m[key := value] && m[key := value][r[t].key] == r[t].value
  {
    var h := MulHash(key, |bs|);
    var r := Put(bs[h], key, value);
    assert UniqueKeys(bs[h]);
    PutChain(bs[h], key, value);
    forall t | 0 <= t < |r| ensures MulHash(r[t].key, |bs|) == h && r[t].key in m[key := value] && m[key := value][r[t].key] == r[t].value {
      if r[t] != Entry(key, value) {
        assert Placed(bs, m, h, t);
      }
    }
  }

  /** The bucket insertNoResize builds finds every key of the updated map
      that hashes to it. */
  lemma PutKeys<V>(bs: seq<seq<Entry<V>>>, m: map<int, V>, key: int, value: V)
    requires Represents(bs, m)
    ensures var h := MulHash(key, |bs|);
            forall k :: k in m[key := value] && MulHash(k, |bs|) == h ==> IndexOf(Put(bs[h], key, value), k) >= 0
  {
    var h := MulHash(key, |bs|);
    assert UniqueKeys(bs[h]);
    PutChain(bs[h], key, value);
    forall k | k in m[key := value] && MulHash(k, |bs|) == h ensures IndexOf(Put(bs[h], key, value), k) >= 0 {
      if k != key {
        assert Present(bs, k);
      }
    }
  }

  /** insertNoResize keeps the representation: the bucket array afterwards
      represents the map with the pair added or replaced. */
  lemma PutRepresents<V>(bs: seq<seq<Entry<V>>>, m: map<int, V>, key: int, value: V)
    requires Represents(bs, m)
    ensures var h := MulHash(key, |bs|);
            && Represents(bs[h := Put(bs[h], key, value)], m[key := value])
            && |m[key := value]| == |m| + (if IndexOf(bs[h], key) >= 0 then 0 else 1)
  {
    Lookup(bs, m, key);
    var h := MulHash(key, |bs|);
    PutEntries(bs, m, key, value);
    PutKeys(bs, m, key, value);
    ReplaceBucket(bs, m, m[key := value], h, Put(bs[h], key, value));
  }

  /** The bucket Delete leaves holds only pairs of the reduced map, each
      hashing to that bucket. */
  lemma RemoveEntries<V>(bs: seq<seq<Entry<V>>>, m: map<int, V>, key: int)
    requires Represents(bs, m)
    ensures var h := MulHash(key, |bs|);
            var r := Remove(bs[h], key);
            && UniqueKeys(r)
            && forall t :: 0 <= t < |r| ==>
                 MulHash(r[t].key, |bs|) == h && r[t].key in m - {key} && (m - {key})[r[t].key] == r[t].value
  {
    var h := MulHash(key, |bs|);
    var r := Remove(bs[h], key);
    assert UniqueKeys(bs[h]);
    RemoveChain(bs[h], key);
    forall t | 0 <= t < |r| ensures MulHash(r[t].key, |bs|) == h && r[t].key in m - {key} && (m - {key})[r[t].key] == r[t].value {
      var s := if t == IndexOf(bs[h], key) then |bs[h]| - 1 else t;
      assert Placed(bs, m, h, s);
    }
  }

  /** The bucket Delete leaves still finds every other key hashing to it. */
  lemma RemoveKeys<V>(bs: seq<seq<Entry<V>>>, m: map<int, V>, key: int)
    requires Represents(bs, m)
    ensures var h := MulHash(key, |bs|);
            forall k :: k in m - {key} && MulHash(k, |bs|) == h ==> IndexOf(Remove(bs[h], key), k) >= 0
  {
    var h := MulHash(key, |bs|);
    assert UniqueKeys(bs[h]);
    RemoveChain(bs[h], key);
    forall k | k in m - {key} && MulHash(k, |bs|) == h ensures IndexOf(Remove(bs[h], key), k) >= 0 {
      assert Present(bs, k);
    }
  }

  /** Delete keeps the representation: the bucket array afterwards represents
      the map without the key. */
  lemma RemoveRepresents<V>(bs: seq<seq<Entry<V>>>, m: map<int, V>, key: int)
    requires Represents(bs, m)
    ensures var h := MulHash(key, |bs|);
            && Represents(bs[h := Remove(bs[h], key)], m - {key})
            && |m - {key}| == |m| - (if IndexOf(bs[h], key) >= 0 then 1 else 0)
  {
    Lookup(bs, m, key);
    var h := MulHash(key, |bs|);
    RemoveEntries(bs, m, key);
    RemoveKeys(bs, m, key);
    ReplaceBucket(bs, m, m - {key}, h, Remove(bs[h], key));
  }

  /** `m` after inserting the entries `es` one after the other. */
  ghost function Insertions<V>(m: map<int, V>, es: seq<Entry<V>>): map<int, V>
  {
    if es == [] then m
    else Insertions(m, es[..|es| - 1])[es[|es| - 1].key := es[|es| - 1].value]
  }

  /** What `resize` has rebuilt after reinserting old buckets `0..b-1`. */
  ghost function Migrated<V>(olds: seq<seq<Entry<V>>>, b: nat): map<int, V>
    requires b <= |olds|
  {
    if b == 0 then map[] else Insertions(Migrated(olds, b - 1), olds[b - 1])
  }

  /** Inserting entries that agree with `whole` keeps a sub-map of `whole`
      and adds exactly the keys of the entries. */
  lemma {:induction false} InsertionsAgree<V>(m: map<int, V>, es: seq<Entry<V>>, whole: map<int, V>)
    requires SubMap(m, whole)
    requires forall i :: 0 <= i < |es| ==> es[i].key in whole && whole[es[i].key] == es[i].value
    ensures SubMap(Insertions(m, es), whole)
    ensures forall k :: k in Insertions(m, es) <==> k in m || IndexOf(es, k) >= 0
  {
    if es != [] {
      var n := |es| - 1;
      InsertionsAgree(m, es[..n], whole);
      forall k ensures IndexOf(es, k) >= 0 <==> IndexOf(es[..n], k) >= 0 || es[n].key == k {
        if IndexOf(es[..n], k) >= 0 {
          assert es[IndexOf(es[..n], k)].key == k;
        }
        if IndexOf(es, k) >= 0 && IndexOf(es, k) < n {
          assert es[..n][IndexOf(es, k)].key == k;
        }
      }
    }
  }

  /** After `b` old buckets, exactly the pairs of the old map whose old
      bucket is below `b` have been reinserted. */
  lemma {:induction false} MigratedIs<V>(olds: seq<seq<Entry<V>>>, m: map<int, V>, b: nat)
    requires Represents(olds, m) && b <= |olds|
    ensures SubMap(Migrated(olds, b), m)
    ensures forall k :: k in Migrated(olds, b) <==> k in m && MulHash(k, |olds|) < b
  {
    if b > 0 {
      var c := olds[b - 1];
      MigratedIs(olds, m, b - 1);
      forall i | 0 <= i < |c| ensures c[i].key in m && m[c[i].key] == c[i].value {
        assert Placed(olds, m, b - 1, i);
      }
      InsertionsAgree(Migrated(olds, b - 1), c, m);
      forall k ensures IndexOf(c, k) >= 0 <==> k in m && MulHash(k, |olds|) == b - 1 {
        if IndexOf(c, k) >= 0 {
          assert Placed(olds, m, b - 1, IndexOf(c, k));
        }
        if k in m {
          assert Present(olds, k);
        }
      }
    }
  }

  /** Reinserting every old bucket rebuilds the old map exactly. */
  lemma MigratedAll<V>(olds: seq<seq<Entry<V>>>, m: map<int, V>)
    requires Represents(olds, m)
    ensures Migrated(olds, |olds|) == m
  {
    MigratedIs(olds, m, |olds|);
    forall k | k in m ensures k in Migrated(olds, |olds|) {
      assert MulHash(k, |olds|) < |olds|;
    }
    SubMapEqual(Migrated(olds, |olds|), m);
  }

  class ChainTable<V> {
    var buckets: array<seq<Entry<V>>>
    var size: int
    var cap: int
    /** The load factor `lfNum / lfDen` (a float64 in Go). */
    var lfNum: int
    var lfDen: int
    var probes: int
    var collisions: int

    /** The map the table represents. */
    ghost var contents: map<int, V>

    ghost predicate Valid()
      reads this`buckets, this`cap, this`lfDen, this`size, this`contents, buckets
    {
      && buckets.Length == cap
      && IsPow2(cap) && cap >= 8
      && lfDen > 0
      && Represents(buckets[..], contents)
      && size == |contents|
    }

    /** `New`: the capacity is rounded up to a power of two of at least 8,
        every bucket is empty and the load factor is 1.
        A request above 2^62, whose rounding overflows `int`, is not
        allocated. */
    constructor (initialCapacity: int)
      requires initialCapacity <= MaxPow2Int
      ensures Valid() && fresh(buckets)
      ensures cap == NextPowerOfTwo(initialCapacity) && contents == map[]
      ensures probes == 0 && collisions == 0 && lfNum == 1 && lfDen == 1
    {
      var capacity := NextPowerOfTwo(initialCapacity);
      buckets := new seq<Entry<V>>[capacity](_ => []);
      size := 0;
      cap := capacity;
      lfNum, lfDen := 1, 1;
      probes, collisions := 0, 0;
      contents := map[];
    }

    /** `Size()`: the number of pairs the table holds. */
    function Size(): (r: int)
      reads this, buckets
      requires Valid()
      ensures r == |contents|
    {
      size
    }

    /** `Capacity()`: always a power of two of at least 8. */
    function Capacity(): (r: int)
      reads this, buckets
      requires Valid()
      ensures IsPow2(r) && r >= 8 && r == buckets.Length
    {
      cap
    }

    function Probes(): int
      reads this
    {
      probes
    }

    function Collisions(): int
      reads this
    {
      collisions
    }

    method ResetProbes()
      requires Valid()
      modifies this`probes
      ensures Valid() && probes == 0
    {
      probes := 0;
    }

    method ResetCollisions()
      requires Valid()
      modifies this`collisions
      ensures Valid() && collisions == 0
    {
      collisions := 0;
    }

    /** `SetLoadFactor`: takes effect at the next Insert, never resizes now. */
    method SetLoadFactor(num: int, den: int)
      requires Valid() && den > 0
      modifies this`lfNum, this`lfDen
      ensures Valid() && lfNum == num && lfDen == den
    {
      lfNum, lfDen := num, den;
    }

    predicate NeedsResize()
      reads this
      requires cap > 0 && lfDen > 0
    {
      ShouldResize(size, cap, lfNum, lfDen)
    }

    /** The bucket scan shared by insertNoResize, Get and Delete: one probe
        per entry examined, stopping at the first entry with the key. */
    method Scan(chain: seq<Entry<V>>, key: int) returns (i: int)
      modifies this`probes
      ensures i == IndexOf(chain, key)
      ensures probes == old(probes) + (if i >= 0 then i + 1 else |chain|)
    {
      i := 0;
      while i < |chain|
        invariant 0 <= i <= |chain|
        invariant probes == old(probes) + i
        invariant forall j :: 0 <= j < i ==> chain[j].key != key
      {
        probes := probes + 1;
        if chain[i].key == key {
          return;
        }
        i := i + 1;
      }
      i := -1;
    }

    /** `insertNoResize`: overwrite in place if the key is in its bucket,
        else append it, counting a collision when the bucket was not empty. */
    method InsertNoResize(key: int, value: V)
      requires Valid()
      modifies this`size, this`probes, this`collisions, this`contents, buckets
      ensures Valid()
      ensures contents == old(contents)[key := value]
      ensures var idx := MulHash(key, cap);
              var chain := old(buckets[idx]);
              var i := IndexOf(chain, key);
              && buckets[..] == old(buckets[..])[idx := Put(chain, key, value)]
              && size == old(size) + (if i >= 0 then 0 else 1)
              && probes == old(probes) + (if i >= 0 then i + 1 else |chain|)
              && collisions == old(collisions) + (if i < 0 && |chain| > 0 then 1 else 0)
    {
      var idx := MulHash(key, cap);
      var chain := buckets[idx];
      ghost var bs := buckets[..];
      PutRepresents(bs, contents, key, value);
      var i := Scan(chain, key);
      if i >= 0 {
        buckets[idx] := chain[i := Entry(key, value)];
      } else {
        if |chain| > 0 {
          collisions := collisions + 1;
        }
        buckets[idx] := chain + [Entry(key, value)];
        size := size + 1;
      }
      contents := contents[key := value];
      assert buckets[..] == bs[idx := Put(chain, key, value)];
    }

    /** `Get`: scans the key's bucket. */
    method Get(key: int) returns (r: Option<V>)
      requires Valid()
      modifies this`probes
      ensures Valid()
      ensures r == (if key in contents then Some(contents[key]) else None)
      ensures var chain := buckets[MulHash(key, cap)];
              var i := IndexOf(chain, key);
              probes == old(probes) + (if i >= 0 then i + 1 else |chain|)
    {
      var chain := buckets[MulHash(key, cap)];
      Lookup(buckets[..], contents, key);
      var i := Scan(chain, key);
      if i >= 0 {
        return Some(chain[i].value);
      }
      return None;
    }

    /** `Delete`: swap the entry with the bucket's last one and truncate;
        an absent key costs only probes. */
    method Delete(key: int)
      requires Valid()
      modifies this`size, this`probes, this`contents, buckets
      ensures Valid()
      ensures contents == old(contents) - {key}
      ensures var idx := MulHash(key, cap);
              var chain := old(buckets[idx]);
              var i := IndexOf(chain, key);
              && buckets[..] == old(buckets[..])[idx := Remove(chain, key)]
              && size == old(size) - (if i >= 0 then 1 else 0)
              && probes == old(probes) + (if i >= 0 then i + 1 else |chain|)
    {
      var idx := MulHash(key, cap);
      var chain := buckets[idx];
      ghost var bs := buckets[..];
      RemoveRepresents(bs, contents, key);
      var i := Scan(chain, key);
      if i >= 0 {
        var last := |chain| - 1;
        assert chain[i := chain[last]][..last] == Remove(chain, key);
        buckets[idx] := chain[i := chain[last]][..last];
        size := size - 1;
      }
      assert buckets[..] == bs[idx := Remove(chain, key)];
      contents := contents - {key};
    }

    /** The inner loop of `resize`: reinserts the entries of one old bucket
        through insertNoResize. */
    method Reinsert(chain: seq<Entry<V>>)
      requires Valid()
      modifies this`size, this`probes, this`collisions, this`contents, buckets
      ensures Valid() && contents == Insertions(old(contents), chain)
      ensures probes >= old(probes)
    {
      var j := 0;
      while j < |chain|
        invariant 0 <= j <= |chain|
        invariant Valid() && contents == Insertions(old(contents), chain[..j])
        invariant probes >= old(probes)
      {
        InsertNoResize(chain[j].key, chain[j].value);
        assert chain[..j + 1][..j] == chain[..j];
        j := j + 1;
      }
      assert chain[..j] == chain;
    }

    /** The outer loop of `resize`: reinserts the old buckets in order into
        the (empty) new table. */
    method ReinsertAll(old_: array<seq<Entry<V>>>)
      requires Valid() && contents == map[] && old_ != buckets
      modifies this`size, this`probes, this`collisions, this`contents, buckets
      ensures Valid() && contents == Migrated(old_[..], old_.Length)
      ensures probes >= old(probes)
    {
      var b := 0;
      while b < old_.Length
        invariant 0 <= b <= old_.Length
        invariant Valid() && contents == Migrated(old_[..], b)
        invariant probes >= old(probes)
      {
        Reinsert(old_[b]);
        b := b + 1;
      }
    }

    /** `resize`: doubles the capacity and reinserts every entry, bucket by
        bucket, through insertNoResize; the collision count is restored. */
    method Resize()
      requires Valid()
      modifies this
      ensures Valid() && fresh(buckets)
      ensures cap == 2 * old(cap) && contents == old(contents) && size == old(size)
      ensures collisions == old(collisions) && probes >= old(probes)
      ensures lfNum == old(lfNum) && lfDen == old(lfDen)
    {
      var old_ := buckets;
      var oldCollision := collisions;
      var capacity := cap * 2;
      MigratedAll(old_[..], contents);
      DoubleIsPow2(cap);
      buckets := new seq<Entry<V>>[capacity](_ => []);
      size := 0;
      cap := capacity;
      contents := map[];
      ReinsertAll(old_);
      collisions := oldCollision;
    }

    /** `Insert`: resize first when the load factor is reached, then
        insertNoResize. */
    method Insert(key: int, value: V)
      requires Valid()
      modifies this, buckets
      ensures Valid()
      ensures contents == old(contents)[key := value]
      ensures cap == (if old(NeedsResize()) then 2 * old(cap) else old(cap))
      ensures lfNum == old(lfNum) && lfDen == old(lfDen)
      ensures buckets == old(buckets) || fresh(buckets)
    {
      if NeedsResize() {
        Resize();
      }
      InsertNoResize(key, value);
    }
  }

  /** Go's `fmt.Sprintf("val-%d", i)`. */
  function Label(i: nat): (s: string)
    ensures |s| > 4 && s[..4] == "val-"
    ensures forall j :: 4 <= j < |s| ==> '0' <= s[j] <= '9'
  {
    "val-" + Decimal(i)
  }

  function Decimal(n: nat): (s: string)
    ensures |s| > 0 && forall j :: 0 <= j < |s| ==> '0' <= s[j] <= '9'
  {
    var digit := ['0' + (n % 10) as char];
    if n < 10 then digit else Decimal(n / 10) + digit
  }

  /** What the test expects to read back for key `i` once the even keys are
      deleted. */
  function OddLabel(i: nat): Option<string>
  {
    if i % 2 == 0 then None else Some(Label(i))
  }

  /** The pairs 0 -> "val-0", ..., n-1 -> "val-(n-1)". */
  ghost function Labels(n: nat): map<int, string>
  {
    if n == 0 then map[] else Labels(n - 1)[n - 1 := Label(n - 1)]
  }

  /** `m` without its even keys below `i`. */
  ghost function Evicted(m: map<int, string>, i: nat): map<int, string>
  {
    map k | k in m && !(0 <= k < i && k % 2 == 0) :: m[k]
  }

  /** Deleting the even key `i` and stepping past the odd one after it. */
  lemma EvictedStep(m: map<int, string>, i: nat)
    requires i % 2 == 0
    ensures Evicted(m, i + 1) == Evicted(m, i) - {i}
    ensures Evicted(m, i + 2) == Evicted(m, i) - {i}
  {
  }

  lemma {:induction false} LabelsHas(n: nat, j: int)
    ensures j in Labels(n) <==> 0 <= j < n
    ensures j in Labels(n) ==> Labels(n)[j] == Label(j)
  {
    if n > 0 {
      LabelsHas(n - 1, j);
    }
  }

  lemma EvictedHas(n: nat, i: nat, j: int)
    ensures j in Evicted(Labels(n), i) <==> 0 <= j < n && (j >= i || j % 2 == 1)
    ensures j in Evicted(Labels(n), i) ==> Evicted(Labels(n), i)[j] == Label(j)
  {
    LabelsHas(n, j);
  }

  /** The reads of the test after inserting keys 0..n-1. */
  ghost function Reads(n: nat): seq<Option<string>>
  {
    if n == 0 then [] else Reads(n - 1) + [Some(Label(n - 1))]
  }

  lemma {:induction false} ReadsAt(n: nat, j: int)
    requires 0 <= j < n
    ensures |Reads(n)| == n && Reads(n)[j] == Some(Label(j))
  {
    if j < n - 1 {
      ReadsAt(n - 1, j);
    } else if n > 1 {
      ReadsAt(n - 1, 0);
    }
  }

  /** First step of TestBasicOperations of hash_table_test.go: on a
      chaining table of capacity 8, insert 0..n-1 with "val-i", reading each
      key back right after its insertion. */
  method Fill(n: nat) returns (t: ChainTable<string>, read: seq<Option<string>>)
    ensures fresh(t) && fresh(t.buckets) && t.Valid()
    ensures t.contents == Labels(n) && read == Reads(n)
  {
    t := new ChainTable<string>(8);
    read := [];
    var i := 0;
    while i < n
      invariant 0 <= i <= n && t.Valid() && fresh(t.buckets)
      invariant t.contents == Labels(i) && read == Reads(i)
    {
      read := FillNext(t, i, read);
      i := i + 1;
    }
  }

  /** One pass of Fill's loop: insert `i -> "val-i"` and read it back. */
  method FillNext(t: ChainTable<string>, i: nat, read: seq<Option<string>>) returns (read': seq<Option<string>>)
    requires t.Valid() && t.contents == Labels(i) && read == Reads(i)
    modifies t, t.buckets
    ensures t.Valid() && (t.buckets == old(t.buckets) || fresh(t.buckets))
    ensures t.contents == Labels(i + 1) && read' == Reads(i + 1)
  {
    t.Insert(i, Label(i));
    var v := t.Get(i);
    read' := read + [v];
  }

  /** Second step of TestBasicOperations: delete the even keys below `n`. */
  method DeleteEvens(t: ChainTable<string>, n: nat)
    requires t.Valid()
    modifies t, t.buckets
    ensures t.Valid() && t.buckets == old(t.buckets)
    ensures t.contents == Evicted(old(t.contents), n)
  {
    ghost var m0 := t.contents;
    var i := 0;
    while i < n
      invariant i % 2 == 0 && i <= n + 1 && t.Valid() && t.buckets == old(t.buckets)
      invariant t.contents == Evicted(m0, i)
    {
      t.Delete(i);
      EvictedStep(m0, i);
      i := i + 2;
    }
    if i == n + 1 {
      EvictedStep(m0, n - 1);
    }
  }

  /** What Get returns for the keys 0..n-1 of the map `m`. */
  ghost function Lookups(m: map<int, string>, n: nat): seq<Option<string>>
  {
    if n == 0 then [] else Lookups(m, n - 1) + [if n - 1 in m then Some(m[n - 1]) else None]
  }

  lemma {:induction false} LookupsAt(m: map<int, string>, n: nat, j: int)
    requires 0 <= j < n
    ensures |Lookups(m, n)| == n && Lookups(m, n)[j] == if j in m then Some(m[j]) else None
  {
    if j < n - 1 {
      LookupsAt(m, n - 1, j);
    } else if n > 1 {
      LookupsAt(m, n - 1, 0);
    }
  }

  /** Last step of TestBasicOperations: read the keys 0..n-1 again. */
  method ReadBack(t: ChainTable<string>, n: nat) returns (reread: seq<Option<string>>)
    requires t.Valid()
    modifies t`probes
    ensures t.Valid() && reread == Lookups(t.contents, n)
  {
    reread := [];
    var i := 0;
    while i < n
      invariant 0 <= i <= n && t.Valid() && t.contents == old(t.contents)
      invariant reread == Lookups(t.contents, i)
    {
      var v := t.Get(i);
      reread := reread + [v];
      i := i + 1;
    }
  }

  /** TestBasicOperations of hash_table_test.go (there with n = 10), for
      every n: each key reads back its label right after its insertion, and
      after the even keys are deleted only the odd ones are found. */
  method BasicScenario(n: nat) returns (read: seq<Option<string>>, reread: seq<Option<string>>)
    ensures |read| == n && forall j :: 0 <= j < n ==> read[j] == Some(Label(j))
    ensures |reread| == n && forall j :: 0 <= j < n ==> reread[j] == OddLabel(j)
  {
    var t;
    t, read := Fill(n);
    DeleteEvens(t, n);
    reread := ReadBack(t, n);
    ghost var m := t.contents;
    if n > 0 {
      ReadsAt(n, 0);
      LookupsAt(m, n, 0);
    }
    forall j | 0 <= j < n ensures read[j] == Some(Label(j)) {
      ReadsAt(n, j);
    }
    forall j | 0 <= j < n ensures reread[j] == OddLabel(j) {
      LookupsAt(m, n, j);
      EvictedHas(n, n, j);
    }
  }

  /** TestUpdateValue of hash_table_test.go: a second Insert of key 42
      replaces the value and leaves the size at 1. */
  method UpdateScenario() returns (updated: Option<string>, size: int)
    ensures updated == Some("second") && size == 1
  {
    var u := new ChainTable<string>(16);
    u.Insert(42, "first");
    u.Insert(42, "second");
    updated := u.Get(42);
    size := u.Size();
  }
}
