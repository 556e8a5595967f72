/** Facts about a slot array of an open-addressing table that do not
    depend on how the engine probes it: how many slots are occupied, which
    keys they hold, whether a key is held twice, and when the slots hold
    exactly the pairs of a map. */
module Slots {
  import opened Common

  // ---------------------------------------------------------------------
  // Occupied slots and the keys they hold

  /** The number of occupied slots below `b`. */
  function Count<V>(t: seq<Slot<V>>, b: nat): (r: nat)
    requires b <= |t|
    ensures r <= b
  {
    if b == 0 then 0 else Count(t, b - 1) + (if t[b - 1].Occupied? then 1 else 0)
  }

  lemma {:induction false} CountPut<V>(t: seq<Slot<V>>, i: nat, s: Slot<V>, b: nat)
    requires i < |t| && b <= |t|
    ensures Count(t[i := s], b) + (if i < b && t[i].Occupied? then 1 else 0)
            == Count(t, b) + (if i < b && s.Occupied? then 1 else 0)
  {
    if b > 0 {
      CountPut(t, i, s, b - 1);
    }
  }

  lemma {:induction false} CountMono<V>(t: seq<Slot<V>>, a: nat, b: nat)
    requires a <= b <= |t|
    ensures Count(t, a) <= Count(t, b)
    decreases b - a
  {
    if a < b {
      CountMono(t, a, b - 1);
    }
  }

  /** Fewer occupied slots than slots leaves a slot that is not occupied. */
  lemma {:induction false} CountFree<V>(t: seq<Slot<V>>, b: nat)
    requires b <= |t| && Count(t, b) < b
    ensures exists s :: 0 <= s < b && !t[s].Occupied?
  {
    if t[b - 1].Occupied? {
      CountFree(t, b - 1);
    }
  }

  lemma {:induction false} CountNone<V>(t: seq<Slot<V>>, b: nat)
    requires b <= |t| && forall s :: 0 <= s < |t| ==> t[s].Empty?
    ensures Count(t, b) == 0
  {
    if b > 0 {
      CountNone(t, b - 1);
    }
  }

  /** The keys of the occupied slots below `b`. */
  ghost function Keys<V>(t: seq<Slot<V>>, b: nat): set<int>
    requires b <= |t|
  {
    set p | 0 <= p < b && t[p].Occupied? :: t[p].key
  }

  lemma KeysNext<V>(t: seq<Slot<V>>, b: nat)
    requires b < |t|
    ensures Keys(t, b + 1) == Keys(t, b) + (if t[b].Occupied? then {t[b].key} else {})
  {
    forall k | k in Keys(t, b + 1) ensures k in Keys(t, b) || (t[b].Occupied? && k == t[b].key) {
      var p :| 0 <= p < b + 1 && t[p].Occupied? && t[p].key == k;
      if p < b {
        assert k in Keys(t, b);
      }
    }
  }

  /** Writing a pair into a slot adds its key and loses at most the key
      the slot held. */
  lemma KeysPut<V>(t: seq<Slot<V>>, i: nat, k: int, v: V)
    requires i < |t|
    ensures Keys(t[i := Occupied(k, v)], |t|) + (if t[i].Occupied? then {t[i].key} else {})
            == Keys(t, |t|) + {k}
    ensures k in Keys(t[i := Occupied(k, v)], |t|)
    ensures t[i].Occupied? ==> t[i].key in Keys(t, |t|)
  {
    var u := t[i := Occupied(k, v)];
    assert k in Keys(u, |t|) by {
      assert u[i].Occupied? && u[i].key == k;
    }
    forall x | x in Keys(t, |t|) ensures x in Keys(u, |t|) || (t[i].Occupied? && x == t[i].key) {
      var p :| 0 <= p < |t| && t[p].Occupied? && t[p].key == x;
      if p != i {
        assert u[p] == t[p];
      }
    }
    forall x | x in Keys(u, |t|) ensures x in Keys(t, |t|) || x == k {
      var p :| 0 <= p < |t| && u[p].Occupied? && u[p].key == x;
      if p != i {
        assert t[p] == u[p];
      }
    }
    if t[i].Occupied? {
      assert t[i].key in Keys(t, |t|);
    }
  }

  /** Emptying a slot loses at most the key it held. */
  lemma KeysClear<V>(t: seq<Slot<V>>, i: nat)
    requires i < |t|
    ensures Keys(t[i := Empty], |t|) <= Keys(t, |t|)
    ensures Keys(t, |t|) - (if t[i].Occupied? then {t[i].key} else {}) <= Keys(t[i := Empty], |t|)
  {
    var u := t[i := Empty];
    forall x | x in Keys(u, |t|) ensures x in Keys(t, |t|) {
      var p :| 0 <= p < |t| && u[p].Occupied? && u[p].key == x;
      assert t[p] == u[p];
    }
    forall x | x in Keys(t, |t|) - (if t[i].Occupied? then {t[i].key} else {}) ensures x in Keys(u, |t|) {
      var p :| 0 <= p < |t| && t[p].Occupied? && t[p].key == x;
      assert u[p] == t[p];
    }
  }

  /** Slot `s` is occupied by `key`. */
  predicate HoldsKey<V>(t: seq<Slot<V>>, s: nat, key: int)
    requires s < |t|
  {
    t[s].Occupied? && t[s].key == key
  }

  /** Slots `p` and `q` are both occupied by the same key. */
  predicate SameKey<V>(t: seq<Slot<V>>, p: nat, q: nat)
    requires p < |t| && q < |t|
  {
    t[p].Occupied? && t[q].Occupied? && t[p].key == t[q].key
  }

  /** No key is held by two slots. */
  ghost predicate Unique<V>(t: seq<Slot<V>>)
  {
    forall p, q {:trigger SameKey(t, p, q)} :: 0 <= p < |t| && 0 <= q < |t| && SameKey(t, p, q) ==> p == q
  }

  ghost predicate Agrees<V>(t: seq<Slot<V>>, m: map<int, V>, p: nat)
    requires p < |t|
  {
    t[p].Occupied? ==> t[p].key in m && m[t[p].key] == t[p].value
  }

  ghost predicate Present<V>(t: seq<Slot<V>>, k: int)
  {
    exists p :: 0 <= p < |t| && t[p].Occupied? && t[p].key == k
  }

  /** The occupied slots hold exactly the pairs of `m`. */
  ghost predicate Stores<V>(t: seq<Slot<V>>, m: map<int, V>)
  {
    && (forall p {:trigger Agrees(t, m, p)} :: 0 <= p < |t| ==> Agrees(t, m, p))
    && (forall k {:trigger Present(t, k)} :: k in m ==> Present(t, k))
  }

  // ---------------------------------------------------------------------
  // What the slots hold

  lemma {:induction false} ViewPrefix<V>(t: seq<Slot<V>>, m: map<int, V>, b: nat)
    requires b <= |t| && forall p {:trigger Agrees(t, m, p)} :: 0 <= p < |t| ==> Agrees(t, m, p)
    ensures SubMap(OccupiedMap(t[..b]), m) && OccupiedMap(t[..b]).Keys == Keys(t, b)
  {
    if b == 0 {
      assert t[..b] == [];
    } else {
      ViewPrefix(t, m, b - 1);
      assert t[..b][..b - 1] == t[..b - 1];
      KeysNext(t, b - 1);
      assert Agrees(t, m, b - 1);
    }
  }

  /** A table representing `m` holds the pairs of `m` and no others, so
      reinserting its occupied slots in order rebuilds `m`. */
  lemma StoresView<V>(t: seq<Slot<V>>, m: map<int, V>)
    requires Stores(t, m)
    ensures OccupiedMap(t) == m
  {
    ViewPrefix(t, m, |t|);
    assert t[..|t|] == t;
    forall k | k in m ensures k in OccupiedMap(t) {
      assert Present(t, k);
      var p :| 0 <= p < |t| && t[p].Occupied? && t[p].key == k;
      assert k in Keys(t, |t|);
    }
    SubMapEqual(OccupiedMap(t), m);
  }

  lemma {:induction false} CountKeys<V>(t: seq<Slot<V>>, b: nat)
    requires Unique(t) && b <= |t|
    ensures Count(t, b) == |Keys(t, b)|
  {
    if b == 0 {
      assert Keys(t, b) == {};
    } else {
      CountKeys(t, b - 1);
      KeysNext(t, b - 1);
      if t[b - 1].Occupied? {
        forall p | 0 <= p < b - 1 && t[p].Occupied? ensures t[p].key != t[b - 1].key {
          assert SameKey(t, p, b - 1) ==> p == b - 1;
        }
      }
    }
  }

  /** With no key twice, the occupied slots count the keys of the map the
      table represents: `size` is the map's size. */
  lemma SizeIsCount<V>(t: seq<Slot<V>>, m: map<int, V>)
    requires Unique(t) && Stores(t, m)
    ensures Count(t, |t|) == |m|
  {
    CountKeys(t, |t|);
    forall k | k in Keys(t, |t|) ensures k in m {
      var p :| 0 <= p < |t| && t[p].Occupied? && t[p].key == k;
      assert Agrees(t, m, p);
    }
    forall k | k in m ensures k in Keys(t, |t|) {
      assert Present(t, k);
    }
    assert Keys(t, |t|) == m.Keys;
  }

  /** `SizeIsCount` for a table that may have stopped holding its map. */
  lemma ExactSize<V>(t: seq<Slot<V>>, m: map<int, V>, exact: bool)
    requires exact ==> Unique(t) && Stores(t, m)
    ensures exact ==> Count(t, |t|) == |m|
  {
    if exact {
      SizeIsCount(t, m);
    }
  }

  // ---------------------------------------------------------------------
  // Writes that keep the slots holding a map

  /** Writing a pair for a key no slot holds into a slot that holds
      nothing keeps the keys distinct and adds the pair to the map. */
  lemma PutStores<V>(t: seq<Slot<V>>, m: map<int, V>, key: int, value: V, s: nat)
    requires s < |t| && !t[s].Occupied? && Unique(t) && Stores(t, m) && !Present(t, key)
    ensures var u := t[s := Occupied(key, value)];
            Unique(u) && Stores(u, m[key := value])
  {
    var u := t[s := Occupied(key, value)];
    var m' := m[key := value];
    forall p, q | 0 <= p < |u| && 0 <= q < |u| ensures SameKey(u, p, q) ==> p == q {
      assert SameKey(t, p, q) ==> p == q;
      assert !(t[p].Occupied? && t[p].key == key) && !(t[q].Occupied? && t[q].key == key);
    }
    forall p | 0 <= p < |u| ensures Agrees(u, m', p) {
      assert Agrees(t, m, p);
      assert !(t[p].Occupied? && t[p].key == key);
    }
    forall x | x in m' ensures Present(u, x) {
      if x != key {
        assert Present(t, x);
        var p :| 0 <= p < |t| && t[p].Occupied? && t[p].key == x;
        assert u[p] == t[p];
      } else {
        assert u[s].Occupied? && u[s].key == x;
      }
    }
  }

  /** Writing a new value over the one slot that holds `key` keeps the keys
      distinct and maps `key` to the new value. */
  lemma RewriteStores<V>(t: seq<Slot<V>>, m: map<int, V>, key: int, value: V, s: nat)
    requires s < |t| && t[s].Occupied? && t[s].key == key && Unique(t) && Stores(t, m)
    ensures var u := t[s := Occupied(key, value)];
            Unique(u) && Stores(u, m[key := value])
  {
    var u := t[s := Occupied(key, value)];
    var m' := m[key := value];
    forall p, q | 0 <= p < |u| && 0 <= q < |u| ensures SameKey(u, p, q) ==> p == q {
      assert SameKey(t, p, q) ==> p == q;
    }
    forall p | 0 <= p < |u| ensures Agrees(u, m', p) {
      assert Agrees(t, m, p);
      assert SameKey(t, p, s) ==> p == s;
    }
    forall x | x in m' ensures Present(u, x) {
      if x != key {
        assert Present(t, x);
        var p :| 0 <= p < |t| && t[p].Occupied? && t[p].key == x;
        assert u[p] == t[p];
      } else {
        assert u[s].Occupied? && u[s].key == x;
      }
    }
  }

  /** Emptying the one slot that holds `key` removes exactly that key. */
  lemma ClearStores<V>(t: seq<Slot<V>>, m: map<int, V>, key: int, s: nat)
    requires s < |t| && Unique(t) && Stores(t, m) && t[s].Occupied? && t[s].key == key
    ensures Unique(t[s := Empty]) && Stores(t[s := Empty], m - {key})
  {
    var u := t[s := Empty];
    var m' := m - {key};
    forall p, q | 0 <= p < |u| && 0 <= q < |u| ensures SameKey(u, p, q) ==> p == q {
      assert SameKey(t, p, q) ==> p == q;
    }
    forall p | 0 <= p < |u| ensures Agrees(u, m', p) {
      assert Agrees(t, m, p);
      assert SameKey(t, p, s) ==> p == s;
    }
    forall x | x in m' ensures Present(u, x) {
      assert Present(t, x);
      var p :| 0 <= p < |t| && t[p].Occupied? && t[p].key == x;
      assert u[p] == t[p];
    }
  }

  // ---------------------------------------------------------------------
  // Which pairs survive a rewrite of the slots

  /** Every pair that `u` holds is a pair of `t`. */
  ghost predicate DrawnFrom<V>(u: seq<Slot<V>>, t: seq<Slot<V>>)
  {
    forall j :: 0 <= j < |u| && u[j].Occupied? ==> u[j] in t
  }

  /** Slot `i` holds the only pair `t` has for its key (copies of the same
      pair aside). */
  ghost predicate Lone<V>(t: seq<Slot<V>>, i: nat)
    requires i < |t|
  {
    t[i].Occupied? && forall j :: 0 <= j < |t| && t[j].Occupied? && t[j].key == t[i].key ==> t[j] == t[i]
  }

  /** Every pair that `t` holds alone, for a key outside `ks`, is still
      held by `u`. */
  ghost predicate KeepsLone<V>(t: seq<Slot<V>>, u: seq<Slot<V>>, ks: set<int>)
  {
    forall i {:trigger Lone(t, i)} :: 0 <= i < |t| && Lone(t, i) && t[i].key !in ks ==> t[i] in u
  }

  /** An insertion of `key -> value` turned `t` into `u`: every pair of `u`
      is a pair of `t` or the inserted one, and every pair `t` held alone
      for another key is still held. */
  ghost predicate InsertKeeps<V>(t: seq<Slot<V>>, u: seq<Slot<V>>, key: int, value: V)
  {
    DrawnFrom(u, t + [Occupied(key, value)]) && KeepsLone(t, u, {key})
  }

  /** A rebuild turned `t` into `u`: every pair of `u` is a pair of `t`, and
      every pair `t` held alone is still held. */
  ghost predicate RebuildKeeps<V>(t: seq<Slot<V>>, u: seq<Slot<V>>)
  {
    DrawnFrom(u, t) && KeepsLone(t, u, {})
  }

  /** On a table where no key is held twice, every pair is held alone. */
  lemma UniqueLone<V>(t: seq<Slot<V>>, i: nat)
    requires i < |t| && Unique(t) && t[i].Occupied?
    ensures Lone(t, i)
  {
    forall j | 0 <= j < |t| && t[j].Occupied? && t[j].key == t[i].key ensures t[j] == t[i] {
      assert SameKey(t, i, j);
    }
  }

  /** Every pair of `t` is held by `u`. */
  ghost predicate KeepsAll<V>(t: seq<Slot<V>>, u: seq<Slot<V>>)
  {
    forall i :: 0 <= i < |t| && t[i].Occupied? ==> t[i] in u
  }

  /** A rebuild of a table where no key is held twice keeps every pair. */
  lemma RebuildKeepsAll<V>(t: seq<Slot<V>>, u: seq<Slot<V>>)
    requires RebuildKeeps(t, u)
    ensures Unique(t) ==> KeepsAll(t, u)
  {
    if Unique(t) {
      forall i | 0 <= i < |t| && t[i].Occupied? ensures t[i] in u {
        UniqueLone(t, i);
      }
    }
  }

  /** Writing `key -> value` into a free slot or over the key's own slot is
      an insertion in the sense of `InsertKeeps`. */
  lemma WriteKeeps<V>(t: seq<Slot<V>>, i: nat, key: int, value: V)
    requires i < |t| && (t[i].Occupied? ==> t[i].key == key)
    ensures InsertKeeps(t, t[i := Occupied(key, value)], key, value)
  {
    var p := Occupied(key, value);
    var u := t[i := p];
    forall j | 0 <= j < |u| && u[j].Occupied? ensures u[j] in t + [p] {
      if j == i {
        assert (t + [p])[|t|] == p;
      } else {
        assert (t + [p])[j] == t[j];
      }
    }
    forall k | 0 <= k < |t| && Lone(t, k) && t[k].key !in {key} ensures t[k] in u {
      assert u[k] == t[k];
    }
  }

  /** A rebuild followed by an insertion is an insertion. */
  lemma {:induction false} RebuildThenInsert<V>(t0: seq<Slot<V>>, t1: seq<Slot<V>>, t2: seq<Slot<V>>, key: int, value: V)
    requires RebuildKeeps(t0, t1) && InsertKeeps(t1, t2, key, value)
    ensures InsertKeeps(t0, t2, key, value)
  {
    var p := Occupied(key, value);
    forall j | 0 <= j < |t2| && t2[j].Occupied? ensures t2[j] in t0 + [p] {
      assert t2[j] in t1 + [p];
      if t2[j] != p {
        var k :| 0 <= k < |t1| && t1[k] == t2[j];
        assert t1[k] in t0;
      }
    }
    forall i | 0 <= i < |t0| && Lone(t0, i) && t0[i].key !in {key} ensures t0[i] in t2 {
      assert t0[i] in t1;
      var k :| 0 <= k < |t1| && t1[k] == t0[i];
      forall j | 0 <= j < |t1| && t1[j].Occupied? && t1[j].key == t1[k].key ensures t1[j] == t1[k] {
        var l :| 0 <= l < |t0| && t0[l] == t1[j];
      }
      assert Lone(t1, k);
    }
  }

  /** One step of reinserting the slots of `t` in order: with slot `b`
      inserted, the pairs drawn so far still come from `t`, and the pairs `t`
      holds alone up to `b` are all held. */
  lemma {:induction false} ReinsertStep<V>(t: seq<Slot<V>>, b: nat, cur: seq<Slot<V>>, u: seq<Slot<V>>)
    requires b < |t| && t[b].Occupied?
    requires DrawnFrom(cur, t[..b]) && forall i :: 0 <= i < b && Lone(t, i) ==> t[i] in cur
    requires InsertKeeps(cur, u, t[b].key, t[b].value) && t[b] in u
    ensures DrawnFrom(u, t[..b + 1]) && forall i :: 0 <= i < b + 1 && Lone(t, i) ==> t[i] in u
  {
    var p := Occupied(t[b].key, t[b].value);
    assert p == t[b];
    forall j | 0 <= j < |u| && u[j].Occupied? ensures u[j] in t[..b + 1] {
      assert u[j] in cur + [p];
      if u[j] == p {
        assert t[..b + 1][b] == p;
      } else {
        var k :| 0 <= k < |cur| && cur[k] == u[j];
        var l :| 0 <= l < b && t[..b][l] == cur[k];
        assert t[..b + 1][l] == u[j];
      }
    }
    forall i | 0 <= i < b + 1 && Lone(t, i) ensures t[i] in u {
      if i < b && t[i].key != t[b].key {
        var k :| 0 <= k < |cur| && cur[k] == t[i];
        forall j | 0 <= j < |cur| && cur[j].Occupied? && cur[j].key == cur[k].key ensures cur[j] == cur[k] {
          var l :| 0 <= l < b && t[..b][l] == cur[j];
          assert t[l] == cur[j];
        }
        assert Lone(cur, k);
      } else if i < b {
        assert t[b] == t[i];
      }
    }
  }

  /** Reinserting a slot that is not in use keeps the pairs drawn from the
      prefix. */
  lemma DrawnFromLonger<V>(u: seq<Slot<V>>, t: seq<Slot<V>>, b: nat)
    requires b < |t| && DrawnFrom(u, t[..b])
    ensures DrawnFrom(u, t[..b + 1])
  {
    forall j | 0 <= j < |u| && u[j].Occupied? ensures u[j] in t[..b + 1] {
      var l :| 0 <= l < b && t[..b][l] == u[j];
      assert t[..b + 1][l] == u[j];
    }
  }
}
