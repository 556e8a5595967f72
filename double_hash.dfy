/** Double hashing (double_hash/double_hash.go): open addressing over one
    slot array. Probe `i` of a key visits `(hash1 + i * hash2) & (cap - 1)`
    for `i < cap`; Get and Delete stop at the first empty slot, Delete leaves
    a tombstone, and insertNoResize writes into the first tombstone of the
    walk once the walk reaches an empty slot. The table is proved to
    represent a finite map (`contents`) as long as no insertion fails; a
    failing resize drops entries, and the contracts say so. */
module DoubleHash {
  import opened Common

  /** `hash2`: `1 + (uint64(key) & (cap - 1))`, a step that is never zero
      and at most `cap`. */
  function Hash2(key: int, cap: nat): (r: nat)
    requires cap > 0
    ensures 1 <= r <= cap
  {
    AndAtMost(U64(key), cap - 1);
    1 + And(U64(key), cap - 1)
  }

  /** `h1 + i * h2`, spelled as repeated addition (see OffsetIs). */
  function Offset(h1: nat, h2: nat, i: nat): nat
  {
    if i == 0 then h1 else Offset(h1, h2, i - 1) + h2
  }

  lemma {:induction false} OffsetIs(h1: nat, h2: nat, i: nat)
    ensures Offset(h1, h2, i) == h1 + i * h2
  {
    if i > 0 {
      OffsetIs(h1, h2, i - 1);
    }
  }

  /** Probe `i` from `h1` with step `h2`: `(h1 + i * h2) & (cap - 1)`. */
  function Probe(h1: nat, h2: nat, i: nat, cap: nat): (r: nat)
    requires cap > 0
    ensures r < cap
  {
    AndAtMost(Offset(h1, h2, i), cap - 1);
    And(Offset(h1, h2, i), cap - 1)
  }

  /** The slot probe `i` of `key` visits in a table of `cap` slots. */
  function Pos(key: int, cap: nat, i: nat): nat
    requires cap > 0
  {
    Probe(MulHash(key, cap), Hash2(key, cap), i, cap)
  }

  /** The walks of Get, Delete and insertNoResize end at an empty slot or at
      the key itself, and pass over tombstones and other keys. */
  predicate Stops<V>(s: Slot<V>, key: int)
  {
    s.Empty? || (s.Occupied? && s.key == key)
  }

  /** The step, from step `i` on, at which the walk for `key` stops; `|tbl|`
      (that is, `cap`) when every probe passes. */
  function Search<V>(tbl: seq<Slot<V>>, key: int, i: nat): (r: nat)
    requires |tbl| > 0 && i <= |tbl|
    ensures i <= r <= |tbl|
    ensures r < |tbl| ==> Stops(tbl[Pos(key, |tbl|, r)], key)
    decreases |tbl| - i
  {
    if i == |tbl| then |tbl|
    else if Stops(tbl[Pos(key, |tbl|, i)], key) then i
    else Search(tbl, key, i + 1)
  }

  /** The first step below `j` whose slot is a tombstone, or `j`: Go's
      `firstTombstone` after `j` probes. */
  function FirstTomb<V>(tbl: seq<Slot<V>>, key: int, j: nat): (r: nat)
    requires |tbl| > 0
    ensures r <= j
  {
    if j == 0 then 0
    else
      var t := FirstTomb(tbl, key, j - 1);
      if t < j - 1 then t
      else if tbl[Pos(key, |tbl|, j - 1)].Tombstone? then j - 1
      else j
  }

  lemma {:induction false} FirstTombIs<V>(tbl: seq<Slot<V>>, key: int, j: nat)
    requires |tbl| > 0
    ensures var t := FirstTomb(tbl, key, j);
            && (t < j ==> tbl[Pos(key, |tbl|, t)].Tombstone?)
            && forall i :: 0 <= i < t ==> !tbl[Pos(key, |tbl|, i)].Tombstone?
  {
    if j > 0 {
      FirstTombIs(tbl, key, j - 1);
    }
  }

  /** The slot where the walk for `key` stops, or -1 when it runs out. */
  function Home<V>(tbl: seq<Slot<V>>, key: int): (r: int)
    requires |tbl| > 0
    ensures -1 <= r < |tbl|
  {
    var j := Search(tbl, key, 0);
    if j < |tbl| then Pos(key, |tbl|, j) else -1
  }

  /** The slot insertNoResize writes once its walk stops: the key's own slot,
      else the first tombstone passed, else the empty slot reached. */
  function Target<V>(tbl: seq<Slot<V>>, key: int): (r: nat)
    requires |tbl| > 0 && Search(tbl, key, 0) < |tbl|
    ensures r < |tbl|
  {
    var j := Search(tbl, key, 0);
    if tbl[Pos(key, |tbl|, j)].Occupied? then Pos(key, |tbl|, j)
    else Pos(key, |tbl|, FirstTomb(tbl, key, j))
  }

  /** The first probe of `key` meets another key: the one collision
      insertNoResize may count. */
  predicate Collides<V>(tbl: seq<Slot<V>>, key: int)
    requires |tbl| > 0
  {
    var s := tbl[Pos(key, |tbl|, 0)];
    s.Occupied? && s.key != key
  }

  /** Slot `s` is empty or a tombstone, or holds a pair of `m` whose walk
      stops right there. */
  ghost predicate Holds<V>(tbl: seq<Slot<V>>, m: map<int, V>, s: int)
    requires 0 <= s < |tbl|
  {
    tbl[s].Occupied? ==> tbl[s].key in m && Home(tbl, tbl[s].key) == s
  }

  /** The walk for `k` stops at a slot holding `k` with its value in `m`. */
  ghost predicate Found<V>(tbl: seq<Slot<V>>, m: map<int, V>, k: int)
    requires |tbl| > 0 && k in m
  {
    Home(tbl, k) >= 0 && tbl[Home(tbl, k)] == Occupied(k, m[k])
  }

  /** The slots hold exactly the pairs of `m`, each where its walk stops. */
  ghost predicate Represents<V>(tbl: seq<Slot<V>>, m: map<int, V>)
  {
    && |tbl| > 0
    && (forall s {:trigger Holds(tbl, m, s)} :: 0 <= s < |tbl| ==> Holds(tbl, m, s))
    && (forall k {:trigger Found(tbl, m, k)} :: k in m ==> Found(tbl, m, k))
  }

  /** The walk finds the key exactly when it is in the map, with its value. */
  lemma Lookup<V>(tbl: seq<Slot<V>>, m: map<int, V>, key: int)
    requires Represents(tbl, m)
    ensures var j := Search(tbl, key, 0);
            && (key in m <==> j < |tbl| && tbl[Pos(key, |tbl|, j)].Occupied?)
            && (key in m ==> tbl[Pos(key, |tbl|, j)].value == m[key])
  {
    var j := Search(tbl, key, 0);
    if key in m {
      assert Found(tbl, m, key);
    }
    if j < |tbl| && tbl[Pos(key, |tbl|, j)].Occupied? {
      assert Holds(tbl, m, Pos(key, |tbl|, j));
    }
  }

  /** Changing slot `s` to `c` leaves a walk as it was when the slot plays
      the same part in it (stop or pass), or when an empty slot that the
      walk never reaches, because it finds its key first, starts to be
      passed over. */
  lemma {:induction false} SearchSame<V>(tbl: seq<Slot<V>>, key: int, s: int, c: Slot<V>, i: nat)
    requires |tbl| > 0 && 0 <= s < |tbl| && i <= |tbl|
    requires Stops(c, key) == Stops(tbl[s], key)
             || (tbl[s] == Empty && Search(tbl, key, i) < |tbl|
                 && tbl[Pos(key, |tbl|, Search(tbl, key, i))].Occupied?)
    ensures Search(tbl[s := c], key, i) == Search(tbl, key, i)
    decreases |tbl| - i
  {
    if i < |tbl| && !Stops(tbl[Pos(key, |tbl|, i)], key) {
      SearchSame(tbl, key, s, c, i + 1);
    }
  }

  /** Writing `key` into the first tombstone of its walk, or into the empty
      slot that ends the walk, makes the walk stop there. */
  lemma {:induction false} SearchNew<V>(tbl: seq<Slot<V>>, key: int, v: V, i: nat, t: nat)
    requires |tbl| > 0 && i <= t < |tbl| && t <= Search(tbl, key, i)
    requires tbl[Pos(key, |tbl|, t)].Tombstone? || tbl[Pos(key, |tbl|, t)].Empty?
    requires forall x :: i <= x < t ==> !tbl[Pos(key, |tbl|, x)].Tombstone?
    ensures Search(tbl[Pos(key, |tbl|, t) := Occupied(key, v)], key, i) == t
    decreases t - i
  {
    if i < t {
      SearchNew(tbl, key, v, i + 1, t);
    }
  }

  /** insertNoResize's write leaves the walk of every other key of the map
      where it was. */
  lemma InsertKeepsHome<V>(tbl: seq<Slot<V>>, m: map<int, V>, key: int, v: V, k: int)
    requires Represents(tbl, m) && Search(tbl, key, 0) < |tbl|
    requires k in m && k != key
    ensures var t := tbl[Target(tbl, key) := Occupied(key, v)];
            && Search(t, k, 0) == Search(tbl, k, 0)
            && Home(tbl, k) >= 0 && Home(t, k) == Home(tbl, k)
            && t[Home(tbl, k)] == tbl[Home(tbl, k)]
  {
    var j := Search(tbl, key, 0);
    var q := Target(tbl, key);
    assert Found(tbl, m, k);
    if !tbl[Pos(key, |tbl|, j)].Occupied? {
      FirstTombIs(tbl, key, j);
    }
    SearchSame(tbl, k, q, Occupied(key, v), 0);
  }

  /** After insertNoResize's write, the walk for the key stops at the slot
      written. */
  lemma InsertHome<V>(tbl: seq<Slot<V>>, key: int, v: V)
    requires |tbl| > 0 && Search(tbl, key, 0) < |tbl|
    ensures Home(tbl[Target(tbl, key) := Occupied(key, v)], key) == Target(tbl, key)
  {
    var j := Search(tbl, key, 0);
    var q := Target(tbl, key);
    if tbl[Pos(key, |tbl|, j)].Occupied? {
      SearchSame(tbl, key, q, Occupied(key, v), 0);
    } else {
      FirstTombIs(tbl, key, j);
      SearchNew(tbl, key, v, 0, FirstTomb(tbl, key, j));
    }
  }

  /** insertNoResize keeps the representation: after its write the slots
      represent the map with the pair added or replaced. */
  lemma InsertRepresents<V>(tbl: seq<Slot<V>>, m: map<int, V>, key: int, v: V)
    requires Represents(tbl, m) && Search(tbl, key, 0) < |tbl|
    ensures Represents(tbl[Target(tbl, key) := Occupied(key, v)], m[key := v])
    ensures var j := Search(tbl, key, 0);
            |m[key := v]| == |m| + (if tbl[Pos(key, |tbl|, j)].Occupied? then 0 else 1)
  {
    Lookup(tbl, m, key);
    var q := Target(tbl, key);
    var t := tbl[q := Occupied(key, v)];
    var m' := m[key := v];
    InsertHome(tbl, key, v);
    forall s | 0 <= s < |t| ensures Holds(t, m', s) {
      if s != q && t[s].Occupied? {
        assert Holds(tbl, m, s);
        InsertKeepsHome(tbl, m, key, v, t[s].key);
      }
    }
    forall k | k in m' ensures Found(t, m', k) {
      if k != key {
        assert Found(tbl, m, k);
        InsertKeepsHome(tbl, m, key, v, k);
      }
    }
  }

  /** Delete keeps the representation: turning the key's slot into a
      tombstone represents the map without the key. */
  lemma DeleteRepresents<V>(tbl: seq<Slot<V>>, m: map<int, V>, key: int)
    requires Represents(tbl, m) && key in m
    ensures Home(tbl, key) >= 0 && Represents(tbl[Home(tbl, key) := Tombstone], m - {key})
    ensures |m - {key}| == |m| - 1
  {
    assert Found(tbl, m, key);
    var q := Home(tbl, key);
    var t := tbl[q := Tombstone];
    var m' := m - {key};
    forall k | k in m ensures k != key ==> Search(t, k, 0) == Search(tbl, k, 0) {
      if k != key {
        SearchSame(tbl, k, q, Tombstone, 0);
      }
    }
    forall s | 0 <= s < |t| ensures Holds(t, m', s) {
      if s != q && t[s].Occupied? {
        assert Holds(tbl, m, s);
        assert Found(tbl, m, t[s].key);
      }
    }
    forall k | k in m' ensures Found(t, m', k) {
      assert Found(tbl, m, k);
    }
  }

  /** The occupied slots below `b` hold exactly the pairs of the map whose
      walk stops below `b`. */
  lemma {:induction false} OccupiedMapIs<V>(tbl: seq<Slot<V>>, m: map<int, V>, b: nat)
    requires Represents(tbl, m) && b <= |tbl|
    ensures SubMap(OccupiedMap(tbl[..b]), m)
    ensures forall k :: k in OccupiedMap(tbl[..b]) <==> k in m && 0 <= Home(tbl, k) < b
  {
    if b > 0 {
      OccupiedMapIs(tbl, m, b - 1);
      assert tbl[..b][..b - 1] == tbl[..b - 1];
      assert Holds(tbl, m, b - 1);
      if tbl[b - 1].Occupied? {
        assert Found(tbl, m, tbl[b - 1].key);
      }
      forall k | k in m && Home(tbl, k) == b - 1 ensures k in OccupiedMap(tbl[..b]) {
        assert Found(tbl, m, k);
      }
    }
  }

  /** The occupied slots hold exactly the map. */
  lemma OccupiedMapAll<V>(tbl: seq<Slot<V>>, m: map<int, V>)
    requires Represents(tbl, m)
    ensures OccupiedMap(tbl) == m
  {
    OccupiedMapIs(tbl, m, |tbl|);
    assert tbl[..|tbl|] == tbl;
    forall k | k in m ensures k in OccupiedMap(tbl) {
      assert Found(tbl, m, k);
    }
    SubMapEqual(OccupiedMap(tbl), m);
  }

  /** When the low bits of `key` are all ones, `hash2` equals `cap` and every
      probe of the key lands on its first slot. */
  lemma StuckProbe(key: int, cap: nat, i: nat)
    requires IsPow2(cap) && U64(key) % cap == cap - 1
    ensures Hash2(key, cap) == cap && Pos(key, cap, i) == MulHash(key, cap)
  {
    MaskIsMod(U64(key), cap);
    var h1 := MulHash(key, cap);
    OffsetIs(h1, cap, i);
    MaskIsMod(h1 + i * cap, cap);
    DivModUnique(h1 + i * cap, cap, i, h1);
  }

  /** Such a key's walk fails as soon as its one slot holds another key,
      however empty the rest of the table is: insertNoResize then returns
      false although the table has room. */
  lemma {:induction false} StuckWalkFails<V>(tbl: seq<Slot<V>>, key: int, i: nat)
    requires IsPow2(|tbl|) && U64(key) % |tbl| == |tbl| - 1 && i <= |tbl|
    requires Collides(tbl, key)
    ensures Search(tbl, key, i) == |tbl|
    decreases |tbl| - i
  {
    StuckProbe(key, |tbl|, 0);
    if i < |tbl| {
      StuckProbe(key, |tbl|, i);
      StuckWalkFails(tbl, key, i + 1);
    }
  }

  class DoubleHashTable<V> {
    var table: array<Slot<V>>
    var size: int
    var cap: int
    /** The load factor `lfNum / lfDen` (a float64 in Go). */
    var lfNum: int
    var lfDen: int
    var probes: int
    var collisions: int

    /** The map the table represents. */
    ghost var contents: map<int, V>

    ghost predicate Valid()
      reads this`table, this`cap, this`lfDen, this`size, this`contents, table
    {
      && table.Length == cap
      && IsPow2(cap) && cap >= 8
      && lfDen > 0
      && Represents(table[..], contents)
      && size == |contents|
    }

    /** `New`: a power-of-two capacity of at least 8, all slots empty, load
        factor 0.7.
        A request above 2^62, whose rounding overflows `int`, is not
        allocated. */
    constructor (initialCapacity: int)
      requires initialCapacity <= MaxPow2Int
      ensures Valid() && fresh(table)
      ensures cap == NextPowerOfTwo(initialCapacity) && contents == map[]
      ensures probes == 0 && collisions == 0 && lfNum == 7 && lfDen == 10
    {
      var capacity := NextPowerOfTwo(initialCapacity);
      table := new Slot<V>[capacity](_ => Empty);
      size := 0;
      cap := capacity;
      lfNum, lfDen := 7, 10;
      probes, collisions := 0, 0;
      contents := map[];
    }

    /** `Size()`: the number of occupied slots, which is the map's size. */
    function Size(): (r: int)
      reads this, table
      requires Valid()
      ensures r == |contents|
    {
      size
    }

    function Capacity(): (r: int)
      reads this, table
      requires Valid()
      ensures IsPow2(r) && r >= 8 && r == table.Length
    {
      cap
    }

    function Probes(): int
      reads this
    {
      probes
    }

    function Collisions(): int
      reads this
    {
      collisions
    }

    method ResetProbes()
      requires Valid()
      modifies this`probes
      ensures Valid() && probes == 0
    {
      probes := 0;
    }

    method ResetCollisions()
      requires Valid()
      modifies this`collisions
      ensures Valid() && collisions == 0
    {
      collisions := 0;
    }

    method SetLoadFactor(num: int, den: int)
      requires Valid() && den > 0
      modifies this`lfNum, this`lfDen
      ensures Valid() && lfNum == num && lfDen == den
    {
      lfNum, lfDen := num, den;
    }

    predicate NeedsResize()
      reads this
      requires cap > 0 && lfDen > 0
    {
      ShouldResize(size, cap, lfNum, lfDen)
    }

    /** The write of insertNoResize once its walk has stopped: the pair goes
        into `target`, and a new key raises `size`. */
    method Place(key: int, value: V, target: int, isNew: bool)
      requires Valid() && Search(table[..], key, 0) < cap && target == Target(table[..], key)
      requires isNew == !table[Pos(key, cap, Search(table[..], key, 0))].Occupied?
      modifies this`size, this`contents, table
      ensures Valid()
      ensures table[..] == old(table[..])[target := Occupied(key, value)]
      ensures contents == old(contents)[key := value]
      ensures size == old(size) + (if isNew then 1 else 0)
    {
      InsertRepresents(table[..], contents, key, value);
      table[target] := Occupied(key, value);
      if isNew {
        size := size + 1;
      }
      contents := contents[key := value];
    }

    /** The probe loop of insertNoResize up to the step where it stops (at
        an empty slot or at the key, or after `cap` probes): one probe per
        step, the one collision it may count, and the first tombstone seen. */
    method Walk(key: int, withCollision: bool) returns (i: int, firstTombstone: int)
      requires Valid()
      modifies this`probes, this`collisions
      ensures i == Search(table[..], key, 0)
      ensures var tbl := table[..];
              var t := FirstTomb(tbl, key, i);
              && firstTombstone == (if t < i then Pos(key, cap, t) else -1)
              && probes == old(probes) + (if i < cap then i + 1 else cap)
              && collisions == old(collisions) + (if withCollision && Collides(tbl, key) then 1 else 0)
    {
      var h1 := MulHash(key, cap);
      var h2 := Hash2(key, cap);
      firstTombstone := -1;
      i := 0;
      while i < cap
        invariant 0 <= i <= cap
        invariant probes == old(probes) + i
        invariant collisions == old(collisions) + (if i > 0 && withCollision && Collides(table[..], key) then 1 else 0)
        invariant Search(table[..], key, i) == Search(table[..], key, 0)
        invariant var t := FirstTomb(table[..], key, i);
                  firstTombstone == if t < i then Pos(key, cap, t) else -1
      {
        probes := probes + 1;
        var idx := Probe(h1, h2, i, cap);
        var slot := table[idx];
        if i == 0 && slot.Occupied? && slot.key != key && withCollision {
          collisions := collisions + 1;
        }
        if slot.Empty? || (slot.Occupied? && slot.key == key) {
          return;
        }
        if slot.Tombstone? && firstTombstone == -1 {
          firstTombstone := idx;
        }
        i := i + 1;
      }
    }

    /** `insertNoResize`: walk at most `cap` probes; overwrite the key where
        it is found, or at the first empty slot write the pair into the first
        tombstone passed (else that empty slot); return false when every
        probe passes, changing no slot even if a tombstone was seen. */
    method InsertNoResize(key: int, value: V, withCollision: bool) returns (ok: bool)
      requires Valid()
      modifies this`size, this`probes, this`collisions, this`contents, table
      ensures Valid()
      ensures var tbl := old(table[..]);
              var j := Search(tbl, key, 0);
              && (ok <==> j < cap)
              && table[..] == (if ok then tbl[Target(tbl, key) := Occupied(key, value)] else tbl)
              && contents == (if ok then old(contents)[key := value] else old(contents))
              && size == old(size) + (if ok && !tbl[Pos(key, cap, j)].Occupied? then 1 else 0)
              && probes == old(probes) + (if ok then j + 1 else cap)
              && collisions == old(collisions) + (if withCollision && Collides(tbl, key) then 1 else 0)
    {
      var i, firstTombstone := Walk(key, withCollision);
      if i == cap {
        return false;
      }
      var idx := Probe(MulHash(key, cap), Hash2(key, cap), i, cap);
      if table[idx].Empty? {
        var target := if firstTombstone != -1 then firstTombstone else idx;
        Place(key, value, target, true);
      } else {
        Place(key, value, idx, false);
      }
      return true;
    }

    /** `Get`: walk until the key or an empty slot, passing tombstones. */
    method Get(key: int) returns (r: Option<V>)
      requires Valid()
      modifies this`probes
      ensures r == if key in contents then Some(contents[key]) else None
      ensures var j := Search(table[..], key, 0);
              probes == old(probes) + (if j < cap then j + 1 else cap)
    {
      Lookup(table[..], contents, key);
      var h1 := MulHash(key, cap);
      var h2 := Hash2(key, cap);
      var i := 0;
      while i < cap
        invariant 0 <= i <= cap && probes == old(probes) + i
        invariant Search(table[..], key, i) == Search(table[..], key, 0)
      {
        probes := probes + 1;
        var idx := Probe(h1, h2, i, cap);
        var slot := table[idx];
        if slot.Empty? {
          break;
        }
        if slot.Occupied? && slot.key == key {
          return Some(slot.value);
        }
        i := i + 1;
      }
      return None;
    }

    /** The write of Delete once its walk has found the key at `idx`. */
    method Bury(key: int, idx: int)
      requires Valid() && key in contents && idx == Home(table[..], key) && 0 <= idx < table.Length
      modifies this`size, this`contents, table
      ensures Valid()
      ensures table[..] == old(table[..])[idx := Tombstone]
      ensures contents == old(contents) - {key} && size == old(size) - 1
    {
      DeleteRepresents(table[..], contents, key);
      table[idx] := Tombstone;
      size := size - 1;
      contents := contents - {key};
    }

    /** `Delete`: walk like Get; a found key's slot becomes a tombstone. */
    method Delete(key: int)
      requires Valid()
      modifies this`size, this`probes, this`contents, table
      ensures Valid() && contents == old(contents) - {key}
      ensures var tbl := old(table[..]);
              var j := Search(tbl, key, 0);
              var hit := j < cap && tbl[Pos(key, cap, j)].Occupied?;
              && table[..] == (if hit then tbl[Pos(key, cap, j) := Tombstone] else tbl)
              && size == old(size) - (if hit then 1 else 0)
              && probes == old(probes) + (if j < cap then j + 1 else cap)
    {
      ghost var tbl := table[..];
      Lookup(tbl, contents, key);
      var h1 := MulHash(key, cap);
      var h2 := Hash2(key, cap);
      var i := 0;
      while i < cap
        invariant 0 <= i <= cap && table[..] == tbl
        invariant size == old(size) && contents == old(contents)
        invariant probes == old(probes) + i
        invariant Search(tbl, key, i) == Search(tbl, key, 0)
      {
        probes := probes + 1;
        var idx := Probe(h1, h2, i, cap);
        var slot := table[idx];
        if slot.Empty? {
          assert contents - {key} == contents;
          return;
        }
        if slot.Occupied? && slot.key == key {
          Bury(key, idx);
          return;
        }
        i := i + 1;
      }
      assert contents - {key} == contents;
    }

    /** The loop of `resize`: reinsert the occupied old slots in order with
        `withCollision = false`, giving up at the first failure. */
    method ReinsertAll(old_: array<Slot<V>>) returns (ok: bool)
      requires Valid() && contents == map[] && old_ != table
      modifies this`size, this`probes, this`collisions, this`contents, table
      ensures Valid() && collisions == old(collisions)
      ensures ok ==> contents == OccupiedMap(old_[..])
      ensures exists b :: 0 <= b <= old_.Length && contents == OccupiedMap(old_[..b])
    {
      var b := 0;
      while b < old_.Length
        invariant 0 <= b <= old_.Length
        invariant Valid() && collisions == old(collisions)
        invariant contents == OccupiedMap(old_[..b])
      {
        var e := old_[b];
        assert old_[..b + 1][..b] == old_[..b];
        if e.Occupied? {
          ok := InsertNoResize(e.key, e.value, false);
          if !ok {
            assert contents == OccupiedMap(old_[..b]);
            return false;
          }
        }
        b := b + 1;
      }
      assert old_[..b] == old_[..];
      return true;
    }

    /** `resize`: double the capacity and reinsert; on failure the entries
        not yet reinserted are lost. */
    method Resize() returns (ok: bool)
      requires Valid()
      modifies this
      ensures Valid() && fresh(table)
      ensures cap == 2 * old(cap) && collisions == old(collisions)
      ensures lfNum == old(lfNum) && lfDen == old(lfDen)
      ensures SubMap(contents, old(contents))
      ensures ok ==> contents == old(contents)
    {
      var old_ := table;
      OccupiedMapAll(old_[..], contents);
      ghost var m := contents;
      var capacity := cap * 2;
      DoubleIsPow2(cap);
      table := new Slot<V>[capacity](_ => Empty);
      size := 0;
      cap := capacity;
      contents := map[];
      ok := ReinsertAll(old_);
      ghost var b :| 0 <= b <= old_.Length && contents == OccupiedMap(old_[..b]);
      OccupiedMapIs(old_[..], m, b);
      assert old_[..][..b] == old_[..b];
    }

    /** `Insert`: resize first when the load factor is reached, then
        insertNoResize; when that fails, resize and try once more. A failing
        resize loses entries, and a second failure drops the key. */
    method Insert(key: int, value: V)
      requires Valid()
      modifies this, table
      ensures Valid() && (table == old(table) || fresh(table))
      ensures lfNum == old(lfNum) && lfDen == old(lfDen)
      ensures cap == old(cap) || cap == 2 * old(cap) || cap == 4 * old(cap)
      ensures old(NeedsResize()) ==> cap >= 2 * old(cap)
      ensures SubMap(contents, old(contents)[key := value]) || SubMap(contents, old(contents))
      ensures old(!NeedsResize() && Search(table[..], key, 0) < cap) ==>
                contents == old(contents)[key := value] && cap == old(cap)
    {
      ghost var m0 := contents;
      if NeedsResize() {
        var _ := Resize();
      }
      ghost var m1 := contents;
      var ok := InsertNoResize(key, value, true);
      if !ok {
        ok := Resize();
        SubMapTrans(contents, m1, m0);
        if !ok {
          return;
        }
        ghost var m2 := contents;
        ok := InsertNoResize(key, value, false);
        if !ok {
          return;
        }
        SubMapPut(m2, m0, key, value);
      } else {
        SubMapPut(m1, m0, key, value);
      }
    }
  }
}
