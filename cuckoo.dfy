/** The cuckoo engine (`cuckoo.go`): two arrays of equal length, each key
    with one candidate slot in each, chosen by a salted 32-bit multiplicative
    hash. An insertion that finds its slot in the first array taken kicks the
    resident over to its slot in the other array, back and forth, at most
    500 times; when that fails the engine rebuilds both arrays under fresh
    salts (at most 5 times in a row), and otherwise quadruples them. */
module Cuckoo {
  import opened Common
  import opened Slots

  /** `maxKicks` and `maxRehashes`, fixed by `New`. */
  const MaxKicks: nat := 500
  const MaxRehashes: nat := 5

  /** A table size the engine chooses: a power of two, at least 8. */
  type TableSize = n: nat | 8 <= n && IsPow2(n) witness 8

  /** The denominator of a load factor kept as a fraction. */
  type Positive = n: nat | n > 0 witness 1

  /** How many rehashes in a row have failed: never more than `maxRehashes`. */
  type Attempts = n: nat | n <= MaxRehashes

  // ---------------------------------------------------------------------
  // Hashing

  /** A `uint64` value. */
  type Word = w: nat | w < Two64

  /** Bitwise exclusive or of two naturals, bit by bit from the least
      significant. */
  function Xor(a: nat, b: nat): nat
  {
    if a == 0 then b
    else if b == 0 then a
    else 2 * Xor(a / 2, b / 2) + (a % 2 + b % 2) % 2
  }

  /** Go's `splitmix` finaliser in wrapping 64-bit arithmetic: each `>> k`
      is a division by 2^k and each product is reduced modulo 2^64. */
  function SplitMix(x: nat): (w: nat)
    ensures w < Two64
  {
    var a := (x + 0x9e3779b97f4a7c15) % Two64;
    var b := Xor(a, a / 0x4000_0000) * 0xbf58476d1ce4e5b9 % Two64;
    var c := Xor(b, b / 0x800_0000) * 0x94d049bb133111eb % Two64;
    Two64IsPow2();
    XorBelow(c, c / 0x8000_0000, Two64);
    Xor(c, c / 0x8000_0000)
  }

  /** The exclusive or of two words of `p` bits, for a power of two `p`,
      is a word of `p` bits. */
  lemma {:induction false} XorBelow(a: nat, b: nat, p: nat)
    requires IsPow2(p) && a < p && b < p
    ensures Xor(a, b) < p
  {
    if a != 0 && b != 0 {
      XorBelow(a / 2, b / 2, p / 2);
    }
  }

  /** `uint64(key) * salt`, wrapping: the word `hash1` and `hash2` mask. */
  function MulWord(key: int, salt: Word): (w: nat)
    ensures w < Two64
  {
    U64(key) * salt % Two64
  }

  /** `splitmix(uint64(key) ^ salt)`: the word rehash masks. */
  function MixWord(key: int, salt: Word): (w: nat)
    ensures w < Two64
  {
    SplitMix(Xor(U64(key), salt))
  }

  /** `uint32(n - 1)`: the index mask of arrays of length `n`; it truncates
      to 32 bits like Go's conversion. */
  function Mask(n: nat): (m: nat)
    requires n >= 1
    ensures m < n
  {
    (n - 1) % Two32
  }

  /** How slots are chosen: the multiplicative words of `hash1`/`hash2` or
      the splitmix words of rehash, the two salts, and the mask. */
  datatype Scheme = Scheme(mixed: bool, salt1: Word, salt2: Word, mask: nat)

  /** The slot of `key` in array `side` (0 for `table1`): the word truncated
      to `uint32` and masked, so never beyond the mask. */
  function Index(sc: Scheme, side: nat, key: int): (i: nat)
    ensures i <= sc.mask
  {
    var salt := if side == 0 then sc.salt1 else sc.salt2;
    var w := if sc.mixed then MixWord(key, salt) else MulWord(key, salt);
    AndAtMost(w % Two32, sc.mask);
    And(w % Two32, sc.mask)
  }

  /** The two arrays have the same positive length and the mask stays
      inside them. */
  predicate Fits<V>(t1: seq<Slot<V>>, t2: seq<Slot<V>>, sc: Scheme)
  {
    0 < |t1| == |t2| && sc.mask < |t1|
  }

  /** `x * s` and `(x % m) * s` agree modulo `m`. */
  lemma ModMulLeft(x: nat, s: nat, m: nat)
    requires m > 0
    ensures (x * s) % m == ((x % m) * s) % m
  {
    var q, r := x / m, x % m;
    var a, b := (r * s) / m, (r * s) % m;
    assert x * s == (q * s + a) * m + b by {
      assert x == q * m + r;
      assert x * s == (q * s) * m + r * s;
      assert r * s == a * m + b;
    }
    DivModUnique(x * s, m, q * s + a, b);
  }

  /** Keys that agree in their low 32 bits get the same multiplicative slot
      in both arrays, whatever the salts and the mask: the `uint32`
      truncation keeps only the low 32 bits of the product, and those depend
      only on the low 32 bits of the key. */
  lemma SameLowBits(a: int, b: int, sc: Scheme, side: nat)
    requires !sc.mixed && U64(a) % Two32 == U64(b) % Two32
    ensures Index(sc, side, a) == Index(sc, side, b)
  {
    var s: nat := if side == 0 then sc.salt1 else sc.salt2;
    ModCoarse(U64(a) * s, Two64, Two32);
    ModCoarse(U64(b) * s, Two64, Two32);
    ModMulLeft(U64(a), s, Two32);
    ModMulLeft(U64(b), s, Two32);
  }

  /** Adding a multiple of 2^32 to a key leaves its low 32 bits alone. */
  lemma LowBitsShift(a: int, k: nat)
    ensures U64(a + k * Two32) % Two32 == U64(a) % Two32
  {
    ModCoarse(a + k * Two32, Two64, Two32);
    ModCoarse(a, Two64, Two32);
    DivModUnique(a + k * Two32, Two32, a / Two32 + k, a % Two32);
  }

  // ---------------------------------------------------------------------
  // Where keys sit

  /** Slot `i` of array `side` holds nothing or a key whose slot in that
      array is `i`. */
  predicate AtHome<V>(t: seq<Slot<V>>, sc: Scheme, side: nat, i: nat)
    requires i < |t|
  {
    t[i].Occupied? ==> Index(sc, side, t[i].key) == i
  }

  /** Every key sits in one of its two candidate slots. */
  ghost predicate Homed<V>(t1: seq<Slot<V>>, t2: seq<Slot<V>>, sc: Scheme)
  {
    && (forall i {:trigger AtHome(t1, sc, 0, i)} :: 0 <= i < |t1| ==> AtHome(t1, sc, 0, i))
    && (forall i {:trigger AtHome(t2, sc, 1, i)} :: 0 <= i < |t2| ==> AtHome(t2, sc, 1, i))
  }

  /** `Get`'s answer: the first of the key's two slots that holds it. */
  function Lookup<V>(t1: seq<Slot<V>>, t2: seq<Slot<V>>, sc: Scheme, key: int): (r: Option<V>)
    requires Fits(t1, t2, sc)
    ensures r.Some? ==> Occupied(key, r.value) in t1 || Occupied(key, r.value) in t2
    ensures r.None? <==> !HoldsKey(t1, Index(sc, 0, key), key) && !HoldsKey(t2, Index(sc, 1, key), key)
  {
    var i := Index(sc, 0, key);
    if HoldsKey(t1, i, key) then Some(t1[i].value)
    else
      var j := Index(sc, 1, key);
      if HoldsKey(t2, j, key) then Some(t2[j].value) else None
  }

  /** The two arrays of a table. */
  datatype Tables<V> = Tables(t1: seq<Slot<V>>, t2: seq<Slot<V>>)

  /** `Delete`'s write: the first of the key's two slots that holds it is
      emptied. */
  function Remove<V>(t1: seq<Slot<V>>, t2: seq<Slot<V>>, sc: Scheme, key: int): (r: Tables<V>)
    requires Fits(t1, t2, sc)
    ensures |r.t1| == |t1| && |r.t2| == |t2|
    ensures forall i :: 0 <= i < |t1| ==> r.t1[i] == t1[i] || (r.t1[i] == Empty && HoldsKey(t1, i, key))
    ensures forall i :: 0 <= i < |t2| ==> r.t2[i] == t2[i] || (r.t2[i] == Empty && HoldsKey(t2, i, key))
    ensures !HoldsKey(r.t1, Index(sc, 0, key), key)
    ensures HoldsKey(t1, Index(sc, 0, key), key) || !HoldsKey(r.t2, Index(sc, 1, key), key)
  {
    var i := Index(sc, 0, key);
    if HoldsKey(t1, i, key) then Tables(t1[i := Empty], t2)
    else
      var j := Index(sc, 1, key);
      if HoldsKey(t2, j, key) then Tables(t1, t2[j := Empty]) else Tables(t1, t2)
  }

  /** The collision `insertOnce` counts before its first kick: the key's
      slot in `table1` holds another key, and so does its slot in
      `table2`. */
  predicate Collides<V>(t1: seq<Slot<V>>, t2: seq<Slot<V>>, sc: Scheme, key: int)
    requires Fits(t1, t2, sc)
  {
    var i, j := Index(sc, 0, key), Index(sc, 1, key);
    t1[i].Occupied? && t1[i].key != key && t2[j].Occupied? && t2[j].key != key
  }

  /** The key is held in its `table2` slot but not in its `table1` slot:
      `insertOnce` looks only at `table1` first, so it does not see it. */
  predicate StaleTwin<V>(t1: seq<Slot<V>>, t2: seq<Slot<V>>, sc: Scheme, key: int)
    requires Fits(t1, t2, sc)
  {
    HoldsKey(t2, Index(sc, 1, key), key) && !HoldsKey(t1, Index(sc, 0, key), key)
  }

  /** Under `Homed`, a key that neither of its slots holds is held nowhere. */
  lemma HomedAbsent<V>(t1: seq<Slot<V>>, t2: seq<Slot<V>>, sc: Scheme, key: int)
    requires Fits(t1, t2, sc) && Homed(t1, t2, sc)
    requires !HoldsKey(t1, Index(sc, 0, key), key) && !HoldsKey(t2, Index(sc, 1, key), key)
    ensures !Present(t1 + t2, key)
  {
    var t := t1 + t2;
    forall p | 0 <= p < |t| ensures !(t[p].Occupied? && t[p].key == key) {
      if p < |t1| {
        assert t[p] == t1[p] && AtHome(t1, sc, 0, p);
      } else {
        assert t[p] == t2[p - |t1|] && AtHome(t2, sc, 1, p - |t1|);
      }
    }
  }

  /** On a table whose keys sit in their slots, no key twice, holding `m`,
      `Get` answers `m`. */
  lemma LookupExact<V>(t1: seq<Slot<V>>, t2: seq<Slot<V>>, sc: Scheme, m: map<int, V>, key: int)
    requires Fits(t1, t2, sc) && Homed(t1, t2, sc) && Unique(t1 + t2) && Stores(t1 + t2, m)
    ensures Lookup(t1, t2, sc, key) == if key in m then Some(m[key]) else None
  {
    var t := t1 + t2;
    var i, j := Index(sc, 0, key), Index(sc, 1, key);
    if HoldsKey(t1, i, key) {
      assert t[i] == t1[i] && Agrees(t, m, i);
    } else if HoldsKey(t2, j, key) {
      assert t[|t1| + j] == t2[j] && Agrees(t, m, |t1| + j);
    } else {
      HomedAbsent(t1, t2, sc, key);
    }
  }

  /** `Delete` keeps keys in their slots and takes exactly `key` out of
      the map. */
  lemma RemoveExact<V>(t1: seq<Slot<V>>, t2: seq<Slot<V>>, sc: Scheme, m: map<int, V>, key: int)
    requires Fits(t1, t2, sc) && Homed(t1, t2, sc) && Unique(t1 + t2) && Stores(t1 + t2, m)
    ensures var r := Remove(t1, t2, sc, key);
            && Homed(r.t1, r.t2, sc) && Unique(r.t1 + r.t2) && Stores(r.t1 + r.t2, m - {key})
            && (Lookup(t1, t2, sc, key).Some? <==> key in m)
  {
    var t := t1 + t2;
    var i, j := Index(sc, 0, key), Index(sc, 1, key);
    LookupExact(t1, t2, sc, m, key);
    var r := Remove(t1, t2, sc, key);
    if HoldsKey(t1, i, key) {
      assert r.t1 + r.t2 == t[i := Empty];
      ClearStores(t, m, key, i);
      assert forall p | 0 <= p < |r.t1| :: AtHome(t1, sc, 0, p) ==> AtHome(r.t1, sc, 0, p);
    } else if HoldsKey(t2, j, key) {
      assert r.t1 + r.t2 == t[|t1| + j := Empty];
      ClearStores(t, m, key, |t1| + j);
      assert forall p | 0 <= p < |r.t2| :: AtHome(t2, sc, 1, p) ==> AtHome(r.t2, sc, 1, p);
    } else {
      HomedAbsent(t1, t2, sc, key);
      assert m - {key} == m;
    }
  }

  // ---------------------------------------------------------------------
  // The kick loop

  /** How the kick loop ends: the carried pair found an empty slot, found a
      slot with its own key and overwrote it, or ran out of kicks and is
      lost. */
  datatype Landing<V> = Placed | Overwrote | Dropped(lost: Entry<V>)

  /** The arrays after the kick loop, how it ended, and the number of kicks
      (each one a probe). */
  datatype Kicked<V> = Kicked(t1: seq<Slot<V>>, t2: seq<Slot<V>>, landing: Landing<V>, steps: nat)

  /** The kick loop of `insertOnce` and of rehash, from kick number `kick`
      with the pair `(key, value)` carried towards array `side`. */
  function KickRun<V>(t1: seq<Slot<V>>, t2: seq<Slot<V>>, sc: Scheme, key: int, value: V, side: nat, kick: nat): (r: Kicked<V>)
    requires Fits(t1, t2, sc) && side < 2 && kick <= MaxKicks
    ensures |r.t1| == |t1| && |r.t2| == |t2|
    ensures r.steps <= MaxKicks - kick
    ensures kick < MaxKicks ==> r.steps >= 1
    ensures r.landing.Dropped? ==> r.steps == MaxKicks - kick
    decreases |t1| + MaxKicks - kick
  {
    if kick == MaxKicks then Kicked(t1, t2, Dropped(Entry(key, value)), 0)
    else if side == 0 then
      var i := Index(sc, 0, key);
      if !t1[i].Occupied? then Kicked(t1[i := Occupied(key, value)], t2, Placed, 1)
      else if t1[i].key == key then Kicked(t1[i := Occupied(key, value)], t2, Overwrote, 1)
      else
        var r := KickRun(t1[i := Occupied(key, value)], t2, sc, t1[i].key, t1[i].value, 1, kick + 1);
        r.(steps := r.steps + 1)
    else
      var j := Index(sc, 1, key);
      if !t2[j].Occupied? then Kicked(t1, t2[j := Occupied(key, value)], Placed, 1)
      else if t2[j].key == key then Kicked(t1, t2[j := Occupied(key, value)], Overwrote, 1)
      else
        var r := KickRun(t1, t2[j := Occupied(key, value)], sc, t2[j].key, t2[j].value, 0, kick + 1);
        r.(steps := r.steps + 1)
  }

  /** A write of a key into its own slot keeps every key in its slots. */
  lemma HomedPut<V>(t1: seq<Slot<V>>, t2: seq<Slot<V>>, sc: Scheme, side: nat, key: int, value: V)
    requires Fits(t1, t2, sc) && Homed(t1, t2, sc)
    ensures side == 0 ==> Homed(t1[Index(sc, 0, key) := Occupied(key, value)], t2, sc)
    ensures side != 0 ==> Homed(t1, t2[Index(sc, 1, key) := Occupied(key, value)], sc)
  {
    var i, j := Index(sc, 0, key), Index(sc, 1, key);
    var u1, u2 := t1[i := Occupied(key, value)], t2[j := Occupied(key, value)];
    forall p | 0 <= p < |u1| ensures AtHome(u1, sc, 0, p) {
      assert AtHome(t1, sc, 0, p);
    }
    forall p | 0 <= p < |u2| ensures AtHome(u2, sc, 1, p) {
      assert AtHome(t2, sc, 1, p);
    }
  }

  /** The kick loop only ever writes a key into its own slot. */
  lemma {:induction false} KickHomed<V>(t1: seq<Slot<V>>, t2: seq<Slot<V>>, sc: Scheme, key: int, value: V, side: nat, kick: nat)
    requires Fits(t1, t2, sc) && side < 2 && kick <= MaxKicks && Homed(t1, t2, sc)
    ensures var r := KickRun(t1, t2, sc, key, value, side, kick);
            Homed(r.t1, r.t2, sc)
    decreases MaxKicks - kick
  {
    if kick < MaxKicks {
      HomedPut(t1, t2, sc, side, key, value);
      if side == 0 {
        var i := Index(sc, 0, key);
        if t1[i].Occupied? && t1[i].key != key {
          KickHomed(t1[i := Occupied(key, value)], t2, sc, t1[i].key, t1[i].value, 1, kick + 1);
        }
      } else {
        var j := Index(sc, 1, key);
        if t2[j].Occupied? && t2[j].key != key {
          KickHomed(t1, t2[j := Occupied(key, value)], sc, t2[j].key, t2[j].value, 0, kick + 1);
        }
      }
    }
  }

  /** Kicking a resident out for the carried pair: the carried key takes
      the slot and the resident becomes the carried pair, the slots holding
      the map but for the newly carried key. */
  lemma SwapStores<V>(t: seq<Slot<V>>, m: map<int, V>, key: int, value: V, s: nat)
    requires s < |t| && t[s].Occupied? && Unique(t) && !Present(t, key) && Stores(t, m - {key})
    requires key in m && m[key] == value
    ensures var u, e := t[s := Occupied(key, value)], t[s];
            && e.key != key && e.key in m && m[e.key] == e.value
            && Unique(u) && !Present(u, e.key) && Stores(u, m - {e.key})
  {
    var u, e := t[s := Occupied(key, value)], t[s];
    var m' := m - {e.key};
    assert Agrees(t, m - {key}, s);
    forall p, q | 0 <= p < |u| && 0 <= q < |u| ensures SameKey(u, p, q) ==> p == q {
      assert SameKey(t, p, q) ==> p == q;
      assert !(t[p].Occupied? && t[p].key == key) && !(t[q].Occupied? && t[q].key == key);
    }
    forall p | 0 <= p < |u| ensures !(u[p].Occupied? && u[p].key == e.key) {
      assert SameKey(t, p, s) ==> p == s;
    }
    forall p | 0 <= p < |u| ensures Agrees(u, m', p) {
      assert Agrees(t, m - {key}, p);
      assert SameKey(t, p, s) ==> p == s;
    }
    forall x | x in m' ensures Present(u, x) {
      if x != key {
        assert Present(t, x);
        var p :| 0 <= p < |t| && t[p].Occupied? && t[p].key == x;
        assert u[p] == t[p];
      } else {
        assert u[s].Occupied? && u[s].key == x;
      }
    }
  }

  /** One kick step on the joined arrays: writing the carried pair of `m`,
      whose key no slot holds, into slot `s` of array `side` keeps keys
      distinct; the slots then hold `m` if the slot was free, and otherwise
      hold `m` but for the resident, whose key is now held nowhere. */
  lemma StepStores<V>(t1: seq<Slot<V>>, t2: seq<Slot<V>>, m: map<int, V>, key: int, value: V, side: nat, s: nat)
    requires side < 2 && s < (if side == 0 then |t1| else |t2|)
    requires Unique(t1 + t2) && !Present(t1 + t2, key) && Stores(t1 + t2, m - {key})
    requires key in m && m[key] == value
    ensures var w := if side == 0 then t1[s] else t2[s];
            var u1 := if side == 0 then t1[s := Occupied(key, value)] else t1;
            var u2 := if side == 0 then t2 else t2[s := Occupied(key, value)];
            && Unique(u1 + u2)
            && (!w.Occupied? ==> Stores(u1 + u2, m))
            && (w.Occupied? ==> && w.key != key && w.key in m && m[w.key] == w.value
                                && !Present(u1 + u2, w.key) && Stores(u1 + u2, m - {w.key}))
  {
    var t := t1 + t2;
    var p := if side == 0 then s else |t1| + s;
    var u := t[p := Occupied(key, value)];
    if side == 0 {
      assert t[p] == t1[s] && u == t1[s := Occupied(key, value)] + t2;
    } else {
      assert t[p] == t2[s] && u == t1 + t2[s := Occupied(key, value)];
    }
    if !t[p].Occupied? {
      PutStores(t, m - {key}, key, value, p);
      assert (m - {key})[key := value] == m;
    } else {
      SwapStores(t, m, key, value, p);
    }
  }

  /** The kick loop, carrying a pair of `m` whose key no slot holds while
      the slots hold the rest of `m`, never overwrites: it places the pair
      and the slots hold `m`, or it drops one pair of `m` and the slots hold
      the rest. */
  lemma {:induction false} KickFresh<V>(t1: seq<Slot<V>>, t2: seq<Slot<V>>, sc: Scheme, m: map<int, V>,
                                        key: int, value: V, side: nat, kick: nat)
    requires Fits(t1, t2, sc) && side < 2 && kick <= MaxKicks
    requires Unique(t1 + t2) && !Present(t1 + t2, key) && Stores(t1 + t2, m - {key})
    requires key in m && m[key] == value
    ensures var r := KickRun(t1, t2, sc, key, value, side, kick);
            && Unique(r.t1 + r.t2) && !r.landing.Overwrote?
            && (r.landing.Placed? ==> Stores(r.t1 + r.t2, m))
            && (r.landing.Dropped? ==> var e := r.landing.lost;
                  e.key in m && m[e.key] == e.value && Stores(r.t1 + r.t2, m - {e.key}))
    decreases MaxKicks - kick
  {
    if kick < MaxKicks {
      var s := Index(sc, side, key);
      StepStores(t1, t2, m, key, value, side, s);
      if side == 0 && t1[s].Occupied? {
        KickFresh(t1[s := Occupied(key, value)], t2, sc, m, t1[s].key, t1[s].value, 1, kick + 1);
      } else if side == 1 && t2[s].Occupied? {
        KickFresh(t1, t2[s := Occupied(key, value)], sc, m, t2[s].key, t2[s].value, 0, kick + 1);
      }
    }
  }

  /** A table that tracks the map `m` exactly: every key sits in one of
      its two slots, no key is held twice, the slots hold `m`, and `size`
      counts its keys. */
  ghost predicate Exact<V>(t1: seq<Slot<V>>, t2: seq<Slot<V>>, sc: Scheme, m: map<int, V>, size: int)
  {
    && Fits(t1, t2, sc) && Homed(t1, t2, sc)
    && Unique(t1 + t2) && Stores(t1 + t2, m) && size == |m|
  }

  /** `insertOnce` on an exact table: unless a pair is dropped or the key
      was held only in its `table2` slot, the table is exact for
      `m[key := value]`, with one more occupied slot exactly when the key is
      new. */
  lemma InsertExact<V>(t1: seq<Slot<V>>, t2: seq<Slot<V>>, sc: Scheme, m: map<int, V>, size: int, key: int, value: V)
    requires Exact(t1, t2, sc, m, size) && !StaleTwin(t1, t2, sc, key)
    ensures var r := KickRun(t1, t2, sc, key, value, 0, 0);
            !r.landing.Dropped? ==> Exact(r.t1, r.t2, sc, m[key := value], size + if r.landing.Placed? then 1 else 0)
  {
    KickHomed(t1, t2, sc, key, value, 0, 0);
    var t := t1 + t2;
    var i := Index(sc, 0, key);
    if HoldsKey(t1, i, key) {
      assert t[i] == t1[i] && Agrees(t, m, i);
      assert t1[i := Occupied(key, value)] + t2 == t[i := Occupied(key, value)];
      RewriteStores(t, m, key, value, i);
    } else {
      HomedAbsent(t1, t2, sc, key);
      assert key !in m;
      assert m[key := value] - {key} == m;
      KickFresh(t1, t2, sc, m[key := value], key, value, 0, 0);
    }
  }

  // ---------------------------------------------------------------------
  // Rebuilding: rehash and resizeDouble

  /** A rebuild's arrays, how many pairs were dropped and how many landed in
      an empty slot, and the kicks spent. */
  datatype Rebuilt<V> = Rebuilt(t1: seq<Slot<V>>, t2: seq<Slot<V>>, drops: nat, placed: nat, steps: nat)

  /** Running the kick loop for each pair of `es` in turn. rehash stops at
      the first drop (`stop`); resizeDouble's `insertOnce` loop goes on. */
  function Refill<V>(t1: seq<Slot<V>>, t2: seq<Slot<V>>, sc: Scheme, es: seq<Entry<V>>, stop: bool): (r: Rebuilt<V>)
    requires Fits(t1, t2, sc)
    ensures |r.t1| == |t1| && |r.t2| == |t2|
    ensures r.placed <= |es| && r.drops <= |es|
    ensures stop ==> r.drops <= 1
    ensures r.steps <= 500 * |es|  // MaxKicks per pair
    decreases |es|
  {
    if es == [] then Rebuilt(t1, t2, 0, 0, 0)
    else
      var k := KickRun(t1, t2, sc, es[0].key, es[0].value, 0, 0);
      if stop && k.landing.Dropped? then Rebuilt(k.t1, k.t2, 1, 0, k.steps)
      else
        var r := Refill(k.t1, k.t2, sc, es[1..], stop);
        Rebuilt(r.t1, r.t2, r.drops + (if k.landing.Dropped? then 1 else 0),
                r.placed + (if k.landing.Placed? then 1 else 0), r.steps + k.steps)
  }

  /** A rebuild, like every kick, keeps keys in their slots. */
  lemma {:induction false} RefillHomed<V>(t1: seq<Slot<V>>, t2: seq<Slot<V>>, sc: Scheme, es: seq<Entry<V>>, stop: bool)
    requires Fits(t1, t2, sc) && Homed(t1, t2, sc)
    ensures var r := Refill(t1, t2, sc, es, stop);
            Homed(r.t1, r.t2, sc)
    decreases |es|
  {
    if es != [] {
      var k := KickRun(t1, t2, sc, es[0].key, es[0].value, 0, 0);
      KickHomed(t1, t2, sc, es[0].key, es[0].value, 0, 0);
      if !(stop && k.landing.Dropped?) {
        RefillHomed(k.t1, k.t2, sc, es[1..], stop);
      }
    }
  }

  /** `n` slots holding nothing. */
  function Blank<V>(n: nat): (r: seq<Slot<V>>)
    ensures |r| == n && forall i :: 0 <= i < n ==> r[i] == Empty
  {
    seq(n, _ => Empty)
  }

  /** Empty arrays hold the empty map under any scheme. */
  lemma BlankExact<V>(n: nat, sc: Scheme)
    requires n > sc.mask
    ensures var t := Blank<V>(n);
            Homed(t, t, sc) && Unique(t + t) && Stores(t + t, map[])
  {
    var t := Blank<V>(n);
    assert forall p | 0 <= p < |t + t| :: (t + t)[p] == Empty;
  }

  /** The pairs of the occupied slots, in index order: what the collection
      loops of `Insert` and `resizeDouble` gather from one array. */
  function Live<V>(t: seq<Slot<V>>): (r: seq<Entry<V>>)
    ensures |r| <= |t|
  {
    if t == [] then []
    else
      Live(t[..|t| - 1]) +
      match t[|t| - 1]
      case Occupied(k, v) => [Entry(k, v)]
      case _ => []
  }

  /** Gathering from two arrays in turn is gathering from their join. */
  lemma {:induction false} LiveJoin<V>(a: seq<Slot<V>>, b: seq<Slot<V>>)
    ensures Live(a + b) == Live(a) + Live(b)
    decreases |b|
  {
    if b != [] {
      var c := b[..|b| - 1];
      assert (a + b)[..|a + b| - 1] == a + c;
      LiveJoin(a, c);
    } else {
      assert a + b == a;
    }
  }

  /** Every gathered pair is the pair of an occupied slot. */
  lemma {:induction false} LiveFrom<V>(t: seq<Slot<V>>, n: nat)
    requires n < |Live(t)|
    ensures exists p :: 0 <= p < |t| && t[p] == Occupied(Live(t)[n].key, Live(t)[n].value)
  {
    var c := t[..|t| - 1];
    if n < |Live(c)| {
      LiveFrom(c, n);
      var p :| 0 <= p < |c| && c[p] == Occupied(Live(c)[n].key, Live(c)[n].value);
      assert t[p] == c[p];
    } else {
      assert t[|t| - 1] == Occupied(Live(t)[n].key, Live(t)[n].value);
    }
  }

  /** No two pairs of `es` share a key. */
  ghost predicate Apart<V>(es: seq<Entry<V>>)
  {
    forall a, b :: 0 <= a < b < |es| ==> es[a].key != es[b].key
  }

  /** Slots with distinct keys gather pairs with distinct keys. */
  lemma {:induction false} LiveApart<V>(t: seq<Slot<V>>)
    requires Unique(t)
    ensures Apart(Live(t))
  {
    if t != [] {
      var c := t[..|t| - 1];
      assert Unique(c) by {
        forall p, q | 0 <= p < |c| && 0 <= q < |c| && SameKey(c, p, q) ensures p == q {
          assert SameKey(t, p, q);
        }
      }
      LiveApart(c);
      if t[|t| - 1].Occupied? {
        var l := Live(t);
        forall a, b | 0 <= a < b < |l| ensures l[a].key != l[b].key {
          if b == |l| - 1 {
            LiveFrom(c, a);
            var p :| 0 <= p < |c| && c[p] == Occupied(Live(c)[a].key, Live(c)[a].value);
            assert SameKey(t, p, |t| - 1) ==> p == |t| - 1;
          }
        }
      }
    }
  }

  /** `m` with the pairs of `es` written in order, a later pair winning. */
  ghost function Extend<V>(m: map<int, V>, es: seq<Entry<V>>): map<int, V>
    decreases |es|
  {
    if es == [] then m else Extend(m[es[0].key := es[0].value], es[1..])
  }

  lemma {:induction false} ExtendSnoc<V>(m: map<int, V>, es: seq<Entry<V>>, e: Entry<V>)
    ensures Extend(m, es + [e]) == Extend(m, es)[e.key := e.value]
    decreases |es|
  {
    if es == [] {
      assert Extend(m, [e]) == Extend(m[e.key := e.value], []);
    } else {
      assert (es + [e])[1..] == es[1..] + [e];
      ExtendSnoc(m[es[0].key := es[0].value], es[1..], e);
    }
  }

  /** Writing the gathered pairs into the empty map gives the map the slots
      describe. */
  lemma {:induction false} LiveMap<V>(t: seq<Slot<V>>)
    ensures Extend(map[], Live(t)) == OccupiedMap(t)
  {
    if t != [] {
      var c := t[..|t| - 1];
      LiveMap(c);
      if t[|t| - 1].Occupied? {
        ExtendSnoc(map[], Live(c), Entry(t[|t| - 1].key, t[|t| - 1].value));
      } else {
        assert Live(t) == Live(c);
      }
    }
  }

  /** The keys `Extend` adds are those of `es`. */
  lemma {:induction false} ExtendKeys<V>(m: map<int, V>, es: seq<Entry<V>>, k: int)
    ensures k in Extend(m, es) <==> k in m || exists n :: 0 <= n < |es| && es[n].key == k
    decreases |es|
  {
    if es != [] {
      ExtendKeys(m[es[0].key := es[0].value], es[1..], k);
      if exists n :: 0 <= n < |es| && es[n].key == k {
        var n :| 0 <= n < |es| && es[n].key == k;
        if n > 0 {
          assert es[1..][n - 1].key == k;
        }
      }
      if exists n :: 0 <= n < |es[1..]| && es[1..][n].key == k {
        var n :| 0 <= n < |es[1..]| && es[1..][n].key == k;
        assert es[n + 1].key == k;
      }
    }
  }

  /** With distinct keys new to `m`, the `i`-th key is not among those
      written before it. */
  lemma ExtendFresh<V>(m: map<int, V>, es: seq<Entry<V>>, i: nat)
    requires i < |es| && Apart(es) && forall n :: 0 <= n < |es| ==> es[n].key !in m
    ensures es[i].key !in Extend(m, es[..i])
  {
    ExtendKeys(m, es[..i], es[i].key);
    forall n | 0 <= n < |es[..i]| ensures es[..i][n].key != es[i].key {
      assert es[..i][n] == es[n];
    }
  }

  /** A key the slots do not hold in their map cannot be held only in its
      `table2` slot. */
  lemma NotStale<V>(t1: seq<Slot<V>>, t2: seq<Slot<V>>, sc: Scheme, m: map<int, V>, key: int)
    requires Fits(t1, t2, sc) && Stores(t1 + t2, m) && key !in m
    ensures !StaleTwin(t1, t2, sc, key)
  {
    var j := Index(sc, 1, key);
    assert (t1 + t2)[|t1| + j] == t2[j] && Agrees(t1 + t2, m, |t1| + j);
  }

  /** Gathering both arrays of a table holding `m` with no key twice gives
      pairs with distinct keys that, written in order, make `m` again. */
  lemma CollectExact<V>(t1: seq<Slot<V>>, t2: seq<Slot<V>>, m: map<int, V>)
    requires Unique(t1 + t2) && Stores(t1 + t2, m)
    ensures var es := Live(t1) + Live(t2);
            Apart(es) && Extend(map[], es) == m
  {
    var t := t1 + t2;
    LiveJoin(t1, t2);
    LiveApart(t);
    LiveMap(t);
    StoresView(t, m);
  }

  // ---------------------------------------------------------------------
  // What the engine does with keys that share their slots

  /** `key` has slot `i` in `table1` and slot `j` in `table2`. */
  predicate Shares(sc: Scheme, key: int, i: nat, j: nat)
  {
    Index(sc, 0, key) == i && Index(sc, 1, key) == j
  }

  /** The `n mod 3`-th of three values. */
  function Third<T>(x: T, y: T, z: T, n: nat): T
  {
    if n % 3 == 0 then x else if n % 3 == 1 then y else z
  }

  /** Three keys with the same two slots, two of them seated there: the
      kick loop cycles the three pairs through the two slots until its
      kicks run out, and drops whichever pair it carries then, which
      neither slot holds. */
  lemma {:induction false} Crowd<V>(t1: seq<Slot<V>>, t2: seq<Slot<V>>, sc: Scheme, i: nat, j: nat,
                                    p: Entry<V>, q: Entry<V>, c: Entry<V>, side: nat, kick: nat)
    requires Fits(t1, t2, sc) && side < 2 && kick <= MaxKicks && i < |t1| && j < |t2|
    requires p.key != q.key && q.key != c.key && p.key != c.key
    requires Shares(sc, p.key, i, j) && Shares(sc, q.key, i, j) && Shares(sc, c.key, i, j)
    requires t1[i] == Occupied(p.key, p.value) && t2[j] == Occupied(q.key, q.value)
    ensures var r := KickRun(t1, t2, sc, c.key, c.value, side, kick);
            && r.landing == Dropped(if side == 0 then Third(c, p, q, MaxKicks - kick) else Third(c, q, p, MaxKicks - kick))
            && !HoldsKey(r.t1, i, r.landing.lost.key) && !HoldsKey(r.t2, j, r.landing.lost.key)
    decreases MaxKicks - kick
  {
    if kick < MaxKicks {
      if side == 0 {
        Crowd(t1[i := Occupied(c.key, c.value)], t2, sc, i, j, c, q, p, 1, kick + 1);
      } else {
        Crowd(t1, t2[j := Occupied(c.key, c.value)], sc, i, j, p, c, q, 0, kick + 1);
      }
    }
  }

  /** Into empty arrays, under any salts, insert `a` and then `b`, a key
      with the same low 32 bits: `b` takes `a`'s slot in `table1` and
      kicks `a` over to `table2`. */
  lemma TwoKeys<V>(n: nat, sc: Scheme, a: int, va: V, b: int, vb: V)
    requires !sc.mixed && sc.mask < n && a != b && U64(a) % Two32 == U64(b) % Two32
    ensures var i, j := Index(sc, 0, a), Index(sc, 1, a);
            var r1 := KickRun(Blank(n), Blank(n), sc, a, va, 0, 0);
            var r2 := KickRun(r1.t1, r1.t2, sc, b, vb, 0, 0);
            && r1.landing.Placed? && r2.landing.Placed? && Shares(sc, b, i, j)
            && r2.t1 == Blank(n)[i := Occupied(b, vb)] && r2.t2 == Blank(n)[j := Occupied(a, va)]
  {
    SameLowBits(a, b, sc, 0);
    SameLowBits(a, b, sc, 1);
    var i := Index(sc, 0, a);
    var r1 := KickRun(Blank<V>(n), Blank(n), sc, a, va, 0, 0);
    assert r1.t1 == Blank(n)[i := Occupied(a, va)];
    var u1 := Blank<V>(n)[i := Occupied(b, vb)];
    var r := KickRun(u1, Blank(n), sc, a, va, 1, 1);
    assert r.landing.Placed?;
  }

  /** Insert `a`, insert `a + 2^32`, then insert `a` again with a new value:
      the second key is kicked out of `a`'s `table1` slot, kicks `a`'s old
      pair out of `table2`, and that pair overwrites the new one. `Get(a)`
      then answers the old value although the last Insert succeeded. */
  lemma LostUpdate<V>(n: nat, sc: Scheme, a: int, va: V, vb: V, v: V)
    requires !sc.mixed && sc.mask < n
    ensures var b := a + Two32;
            var r1 := KickRun(Blank(n), Blank(n), sc, a, va, 0, 0);
            var r2 := KickRun(r1.t1, r1.t2, sc, b, vb, 0, 0);
            var r3 := KickRun(r2.t1, r2.t2, sc, a, v, 0, 0);
            && r1.landing.Placed? && r2.landing.Placed? && r3.landing.Overwrote?
            && Lookup(r3.t1, r3.t2, sc, a) == Some(va)
  {
    var b := a + Two32;
    LowBitsShift(a, 1);
    TwoKeys(n, sc, a, va, b, vb);
    var i, j := Index(sc, 0, a), Index(sc, 1, a);
    var t1, t2 := Blank<V>(n)[i := Occupied(b, vb)], Blank<V>(n)[j := Occupied(a, va)];
    var s1 := t1[i := Occupied(a, v)];
    var s2 := t2[j := Occupied(b, vb)];
    var r := KickRun(s1, s2, sc, a, va, 0, 2);
    assert r.t1 == s1[i := Occupied(a, va)] && r.landing.Overwrote?;
    assert KickRun(s1, t2, sc, b, vb, 1, 1) == r.(steps := r.steps + 1);
  }

  /** Insert `a` and `a + 2^32`, delete `a + 2^32`, then insert `a` again:
      `table1` now holds `a` with the new value and `table2` still holds its
      old pair, so after deleting `a`, `Get(a)` answers the old value. */
  lemma DeleteRevives<V>(n: nat, sc: Scheme, a: int, va: V, vb: V, v: V)
    requires !sc.mixed && sc.mask < n
    ensures var b := a + Two32;
            var r1 := KickRun(Blank(n), Blank(n), sc, a, va, 0, 0);
            var r2 := KickRun(r1.t1, r1.t2, sc, b, vb, 0, 0);
            var d1 := Remove(r2.t1, r2.t2, sc, b);
            var r3 := KickRun(d1.t1, d1.t2, sc, a, v, 0, 0);
            var d2 := Remove(r3.t1, r3.t2, sc, a);
            && Lookup(r3.t1, r3.t2, sc, a) == Some(v)
            && Lookup(d2.t1, d2.t2, sc, a) == Some(va)
  {
    var b := a + Two32;
    LowBitsShift(a, 1);
    TwoKeys(n, sc, a, va, b, vb);
    var i := Index(sc, 0, a);
    assert Blank<V>(n)[i := Occupied(b, vb)][i := Empty] == Blank(n);
    assert Blank<V>(n)[i := Occupied(a, v)][i := Empty] == Blank(n);
  }

  /** Insert `a`, `a + 2^32` and `a + 2 * 2^32`: the three keys cycle
      through their two slots, and after 500 kicks the third insertion gives
      up carrying `a`'s pair, which is lost from the table. */
  lemma ThirdKeyLosesFirst<V>(n: nat, sc: Scheme, a: int, va: V, vb: V, vc: V)
    requires !sc.mixed && sc.mask < n
    ensures var b, c := a + Two32, a + 2 * Two32;
            var r1 := KickRun(Blank(n), Blank(n), sc, a, va, 0, 0);
            var r2 := KickRun(r1.t1, r1.t2, sc, b, vb, 0, 0);
            var r3 := KickRun(r2.t1, r2.t2, sc, c, vc, 0, 0);
            && r3.landing == Dropped(Entry(a, va))
            && Lookup(r3.t1, r3.t2, sc, a) == None
  {
    var b, c := a + Two32, a + 2 * Two32;
    LowBitsShift(a, 1);
    LowBitsShift(a, 2);
    TwoKeys(n, sc, a, va, b, vb);
    SameLowBits(a, c, sc, 0);
    SameLowBits(a, c, sc, 1);
    var i, j := Index(sc, 0, a), Index(sc, 1, a);
    var t1, t2 := Blank<V>(n)[i := Occupied(b, vb)], Blank<V>(n)[j := Occupied(a, va)];
    Crowd(t1, t2, sc, i, j, Entry(b, vb), Entry(a, va), Entry(c, vc), 0, 0);
  }

  /** Rehash places pairs by splitmix but `Get` looks where the
      multiplicative hash points. Under two salts equal to 1, the key
      `0x61c8864680b583ea` (xor 1 is `2^64` minus splitmix's additive
      constant, so its splitmix word is 0) goes to slot 0 of `table1` when
      eight-slot arrays are rebuilt, while `Get` looks at slot 2 of
      both arrays, and misses it. */
  lemma RehashMisses<V>(v: V)
    ensures var key := 0x61c8864680b583ea;
            var r := Refill(Blank(8), Blank(8), Scheme(true, 1, 1, 7), [Entry(key, v)], true);
            && r.drops == 0 && r.placed == 1 && r.t1[0] == Occupied(key, v)
            && Lookup(r.t1, r.t2, Scheme(false, 1, 1, 7), key) == None
  {
    var key := 0x61c8864680b583ea;
    var mix := Scheme(true, 1, 1, 7);
    var mul := Scheme(false, 1, 1, 7);
    MixedSlot();
    MultipliedSlots();
    var k := KickRun(Blank<V>(8), Blank(8), mix, key, v, 0, 0);
    assert k.t1 == Blank<V>(8)[0 := Occupied(key, v)] && k.t2 == Blank(8);
    assert [Entry(key, v)][1..] == [];
  }

  /** The splitmix slot of `RehashMisses`'s key in `table1`. */
  lemma MixedSlot()
    ensures Index(Scheme(true, 1, 1, 7), 0, 0x61c8864680b583ea) == 0
  {
    var key := 0x61c8864680b583ea;
    assert Xor(key, 1) == 2 * Xor(key / 2, 0) + 1;
    assert SplitMix(Xor(U64(key), 1)) == 0;
  }

  /** The multiplicative slots of `RehashMisses`'s key. */
  lemma MultipliedSlots()
    ensures Index(Scheme(false, 1, 1, 7), 0, 0x61c8864680b583ea) == 2
    ensures Index(Scheme(false, 1, 1, 7), 1, 0x61c8864680b583ea) == 2
  {
    var key := 0x61c8864680b583ea;
    assert U64(key) == key;
    assert MulWord(key, 1) % Two32 == 0x80b583ea;
    assert And(0x80b583ea, 7) == 2;
  }

  /** The slots per array that `New` asks for,
      `int(float64(initialCapacity) / (2 * 0.5)) + 1`, a capacity below 1
      counting as 8. */
  function PerTable(initialCapacity: int): (n: int)
    ensures n > initialCapacity && n >= 2
  {
    (if initialCapacity < 1 then 8 else initialCapacity) + 1
  }

  /** `New` gives each array a power of two of at least 8 slots, more than
      the capacity asked for, and 16 when the capacity asked for is below
      1. */
  lemma NewSizing(initialCapacity: int)
    requires PerTable(initialCapacity) <= MaxPow2Int
    ensures var n := NextPowerOfTwo(PerTable(initialCapacity));
            && IsPow2(n) && n >= 8
            && (initialCapacity >= 1 ==> n > initialCapacity)
            && (initialCapacity < 1 ==> n == 16)
  {
    var n := NextPowerOfTwo(PerTable(initialCapacity));
    if initialCapacity < 1 {
      assert IsPow2(16);
      Pow2Above(n, 16);
      Pow2Above(16, n);
    }
  }

  // ---------------------------------------------------------------------
  // The engine

  /** The kick loop shared by `insertOnce` and rehash, on the arrays in
      place: one probe per kick, and, before the first kick, the collision
      test of `insertOnce`. */
  method Kick<V>(t1: array<Slot<V>>, t2: array<Slot<V>>, sc: Scheme, key: int, value: V, withCollision: bool)
    returns (landing: Landing<V>, steps: nat, collided: bool)
    requires t1 != t2 && Fits(t1[..], t2[..], sc)
    modifies t1, t2
    ensures var r := KickRun(old(t1[..]), old(t2[..]), sc, key, value, 0, 0);
            t1[..] == r.t1 && t2[..] == r.t2 && landing == r.landing && steps == r.steps
    ensures collided == (withCollision && Collides(old(t1[..]), old(t2[..]), sc, key))
  {
    ghost var goal := KickRun(t1[..], t2[..], sc, key, value, 0, 0);
    ghost var c := withCollision && Collides(t1[..], t2[..], sc, key);
    var curKey, curVal, side, kick := key, value, 0, 0;
    steps, collided := 0, false;
    while kick < MaxKicks
      invariant kick <= MaxKicks && side < 2 && Fits(t1[..], t2[..], sc)
      invariant var r := KickRun(t1[..], t2[..], sc, curKey, curVal, side, kick);
                r.t1 == goal.t1 && r.t2 == goal.t2 && r.landing == goal.landing && steps + r.steps == goal.steps
      invariant kick == 0 ==> side == 0 && curKey == key && t1[..] == old(t1[..]) && t2[..] == old(t2[..]) && !collided
      invariant kick > 0 ==> collided == c
    {
      if side == 0 {
        var i := Index(sc, 0, curKey);
        if !t1[i].Occupied? || t1[i].key == curKey {
          landing := if t1[i].Occupied? then Overwrote else Placed;
          t1[i] := Occupied(curKey, curVal);
          steps := steps + 1;
          return;
        }
        if kick == 0 {
          var j := Index(sc, 1, curKey);
          collided := t2[j].Occupied? && t2[j].key != curKey && withCollision;
        }
        var e := t1[i];
        t1[i] := Occupied(curKey, curVal);
        curKey, curVal := e.key, e.value;
      } else {
        var j := Index(sc, 1, curKey);
        if !t2[j].Occupied? || t2[j].key == curKey {
          landing := if t2[j].Occupied? then Overwrote else Placed;
          t2[j] := Occupied(curKey, curVal);
          steps := steps + 1;
          return;
        }
        var e := t2[j];
        t2[j] := Occupied(curKey, curVal);
        curKey, curVal := e.key, e.value;
      }
      side, kick, steps := 1 - side, kick + 1, steps + 1;
    }
    landing := Dropped(Entry(curKey, curVal));
  }

  /** The rebuild of `rehash`: two fresh arrays of `n` empty slots, then the
      kick loop for each pair in turn, stopping at the first pair dropped,
      the kicks counted. */
  method Rebuild<V>(n: nat, sc: Scheme, all: seq<Entry<V>>)
    returns (t1: array<Slot<V>>, t2: array<Slot<V>>, ok: bool, looked: nat)
    requires 0 < n && sc.mask < n
    ensures fresh(t1) && fresh(t2) && t1 != t2 && t1.Length == n && t2.Length == n
    ensures var r := Refill(Blank(n), Blank(n), sc, all, true);
            t1[..] == r.t1 && t2[..] == r.t2 && ok == (r.drops == 0) && looked == r.steps
  {
    t1 := new Slot<V>[n](_ => Empty);
    t2 := new Slot<V>[n](_ => Empty);
    assert t1[..] == Blank(n) && t2[..] == Blank(n);
    ghost var goal := Refill(t1[..], t2[..], sc, all, true);
    var i := 0;
    ok, looked := true, 0;
    while i < |all| && ok
      invariant 0 <= i <= |all| && Fits(t1[..], t2[..], sc)
      invariant ok ==> var r := Refill(t1[..], t2[..], sc, all[i..], true);
                       r.t1 == goal.t1 && r.t2 == goal.t2 && r.drops == goal.drops && looked + r.steps == goal.steps
      invariant !ok ==> t1[..] == goal.t1 && t2[..] == goal.t2 && goal.drops == 1 && looked == goal.steps
    {
      assert all[i..][0] == all[i] && all[i..][1..] == all[i + 1..];
      var landing, steps, _ := Kick(t1, t2, sc, all[i].key, all[i].value, false);
      looked := looked + steps;
      ok := !landing.Dropped?;
      i := i + 1;
    }
  }

  class CuckooTable<V> {
    var table1: array<Slot<V>>
    var table2: array<Slot<V>>
    /** `capMask`: `uint32(len(table1) - 1)`. */
    var capMask: nat
    var size: int
    /** The capacity `New` chose; `resizeDouble` never updates it. */
    var cap: TableSize
    var probes: int
    var collisions: int
    /** The load factor `lfNum / lfDen` (a float64 in Go). */
    var lfNum: int
    var lfDen: Positive
    var rehashCount: Attempts
    var salt1: Word
    var salt2: Word
    /** The random source: `rng(n)` is the `n`-th word its `Uint64` yields. */
    const rng: nat -> Word
    /** How many words have been drawn from `rng`. */
    var drawn: nat

    /** The map that the calls made so far describe. */
    ghost var contents: map<int, V>
    /** Every key sits in one of its two slots under the multiplicative
        hash, no key is held twice, the slots hold exactly `contents` and
        `size` counts it: true from `New`, kept by `Get` and `Delete`, lost
        by a dropped pair, by an insertion of a key held only in its `table2`
        slot (StaleTwin) and by a successful rehash. */
    ghost var exact: bool

    ghost predicate Valid()
      reads this`table1, this`table2, this`capMask, this`cap
      reads this`salt1, this`salt2, this`size, this`contents, this`exact, table1, table2
    {
      && table1 != table2 && table1.Length == table2.Length
      && IsPow2(table1.Length) && 8 <= table1.Length <= MaxInt
      && capMask == Mask(table1.Length)
      && cap <= table1.Length
      && (exact ==> Exact(table1[..], table2[..], Hashing(), contents, size))
    }

    /** `hash1` and `hash2`: the multiplicative scheme under the current
        salts and mask. */
    function Hashing(): Scheme
      reads this`salt1, this`salt2, this`capMask
    {
      Scheme(false, salt1, salt2, capMask)
    }

    /** `New`: two arrays of `NextPowerOfTwo(PerTable(initialCapacity))`
        empty slots, load factor 1/2, and two salts drawn from `source`. An
        array beyond `int` is not allocated. */
    constructor (initialCapacity: int, source: nat -> Word)
      requires PerTable(initialCapacity) <= MaxPow2Int
      ensures Valid() && fresh(table1) && fresh(table2) && exact && contents == map[]
      ensures cap == NextPowerOfTwo(PerTable(initialCapacity)) && table1.Length == cap
      ensures size == 0 && probes == 0 && collisions == 0 && lfNum == 1 && lfDen == 2 && rehashCount == 0
      ensures rng == source && salt1 == source(0) && salt2 == source(1) && drawn == 2
    {
      var capacity := NextPowerOfTwo(PerTable(initialCapacity));
      table1 := new Slot<V>[capacity](_ => Empty);
      table2 := new Slot<V>[capacity](_ => Empty);
      capMask := Mask(capacity);
      size, cap := 0, capacity;
      probes, collisions := 0, 0;
      lfNum, lfDen := 1, 2;
      rehashCount := 0;
      rng := source;
      salt1, salt2 := source(0), source(1);
      drawn := 2;
      contents := map[];
      exact := true;
      new;
      BlankExact<V>(capacity, Hashing());
      assert table1[..] == Blank(capacity) && table2[..] == Blank(capacity);
    }

    /** `Size()`: the map's size while the table is exact. */
    function Size(): (r: int)
      reads this, table1, table2
      requires Valid()
      ensures exact ==> r == |contents|
    {
      size
    }

    /** `Capacity()`: the capacity `New` chose, which stays behind the
        arrays once `resizeDouble` has grown them. */
    function Capacity(): (r: int)
      reads this, table1, table2
      requires Valid()
      ensures IsPow2(r) && 8 <= r <= table1.Length
    {
      cap
    }

    function Probes(): int
      reads this
    {
      probes
    }

    function Collisions(): int
      reads this
    {
      collisions
    }

    method ResetProbes()
      requires Valid()
      modifies this`probes
      ensures Valid() && probes == 0
    {
      probes := 0;
    }

    method ResetCollisions()
      requires Valid()
      modifies this`collisions
      ensures Valid() && collisions == 0
    {
      collisions := 0;
    }

    method SetLoadFactor(num: int, den: int)
      requires Valid() && den > 0
      modifies this`lfNum, this`lfDen
      ensures Valid() && lfNum == num && lfDen == den
    {
      lfNum, lfDen := num, den;
    }

    /** `Get`: one probe in `table1`, a second in `table2` when the first
        misses; the map's answer while the table is exact. */
    method Get(key: int) returns (r: Option<V>)
      requires Valid()
      modifies this`probes
      ensures Valid()
      ensures r == Lookup(table1[..], table2[..], Hashing(), key)
      ensures exact ==> r == if key in contents then Some(contents[key]) else None
      ensures probes == old(probes) + (if HoldsKey(table1[..], Index(Hashing(), 0, key), key) then 1 else 2)
    {
      var i := Index(Hashing(), 0, key);
      probes := probes + 1;
      if table1[i].Occupied? && table1[i].key == key {
        r := Some(table1[i].value);
      } else {
        var j := Index(Hashing(), 1, key);
        probes := probes + 1;
        r := if table2[j].Occupied? && table2[j].key == key then Some(table2[j].value) else None;
      }
      if exact {
        LookupExact(table1[..], table2[..], Hashing(), contents, key);
      }
    }

    /** `Delete`: empties the first of the key's two slots that holds it and
        counts one less; the key leaves the map. */
    method Delete(key: int)
      requires Valid()
      modifies this`probes, this`size, this`contents, table1, table2
      ensures Valid() && contents == old(contents) - {key} && exact == old(exact)
      ensures var r := Remove(old(table1[..]), old(table2[..]), Hashing(), key);
              table1[..] == r.t1 && table2[..] == r.t2
      ensures var found := Lookup(old(table1[..]), old(table2[..]), Hashing(), key).Some?;
              size == old(size) - (if found then 1 else 0)
      ensures probes == old(probes) + (if HoldsKey(old(table1[..]), Index(Hashing(), 0, key), key) then 1 else 2)
    {
      if exact {
        RemoveExact(table1[..], table2[..], Hashing(), contents, key);
      }
      var i := Index(Hashing(), 0, key);
      probes := probes + 1;
      if table1[i].Occupied? && table1[i].key == key {
        table1[i] := Empty;
        size := size - 1;
      } else {
        var j := Index(Hashing(), 1, key);
        probes := probes + 1;
        if table2[j].Occupied? && table2[j].key == key {
          table2[j] := Empty;
          size := size - 1;
        }
      }
      contents := contents - {key};
    }

    /** `insertOnce`: the kick loop on the table's own arrays under `hash1`
        and `hash2`. The key is in the map afterwards even when a pair is
        dropped; the table stays exact when nothing is dropped and the key
        was not held only in its `table2` slot. */
    method InsertOnce(key: int, value: V, withCollision: bool) returns (ok: bool)
      requires Valid()
      modifies this`probes, this`size, this`collisions, this`contents, this`exact, table1, table2
      ensures Valid()
      ensures var r := KickRun(old(table1[..]), old(table2[..]), old(Hashing()), key, value, 0, 0);
              && table1[..] == r.t1 && table2[..] == r.t2 && ok == !r.landing.Dropped?
              && probes == old(probes) + r.steps
              && size == old(size) + (if r.landing.Placed? then 1 else 0)
      ensures collisions == old(collisions) + (if withCollision && Collides(old(table1[..]), old(table2[..]), old(Hashing()), key) then 1 else 0)
      ensures contents == old(contents)[key := value]
      ensures exact == (old(exact) && ok && !StaleTwin(old(table1[..]), old(table2[..]), old(Hashing()), key))
    {
      var sc := Hashing();
      ghost var t1, t2 := table1[..], table2[..];
      ghost var r := KickRun(t1, t2, sc, key, value, 0, 0);
      ghost var stays := exact && !StaleTwin(t1, t2, sc, key);
      if stays {
        InsertExact(t1, t2, sc, contents, size, key, value);
      }
      var landing, steps, collided := Kick(table1, table2, sc, key, value, withCollision);
      assert table1[..] == r.t1 && table2[..] == r.t2 && landing == r.landing && steps == r.steps;
      ok := !landing.Dropped?;
      probes, collisions, size, contents, exact :=
        probes + steps, collisions + (if collided then 1 else 0), size + (if landing.Placed? then 1 else 0),
        contents[key := value], stays && ok;
      assert table1[..] == r.t1 && table2[..] == r.t2 && sc == Hashing();
    }

    /** The collection loops of `Insert` and `resizeDouble`: the pairs of
        the occupied slots of `table1`, then of `table2`. */
    method Collect() returns (all: seq<Entry<V>>)
      requires Valid()
      ensures all == Live(table1[..]) + Live(table2[..])
    {
      all := [];
      var i := 0;
      while i < table1.Length
        invariant 0 <= i <= table1.Length && all == Live(table1[..i])
      {
        assert table1[..i + 1][..i] == table1[..i];
        if table1[i].Occupied? {
          all := all + [Entry(table1[i].key, table1[i].value)];
        }
        i := i + 1;
      }
      assert table1[..table1.Length] == table1[..];
      ghost var first := all;
      i := 0;
      while i < table2.Length
        invariant 0 <= i <= table2.Length && all == first + Live(table2[..i])
      {
        assert table2[..i + 1][..i] == table2[..i];
        if table2[i].Occupied? {
          all := all + [Entry(table2[i].key, table2[i].value)];
        }
        i := i + 1;
      }
      assert table2[..table2.Length] == table2[..];
    }

    /** `rehash`: draws two salts and rebuilds `all` into fresh arrays of
        the same length with the splitmix kick loop. On success it adopts
        the arrays and salts and sets the size to `len(all)`; on a drop it
        keeps the old arrays, salts and size. Either way the kicks count as
        probes. */
    method Rehash(all: seq<Entry<V>>) returns (ok: bool)
      requires Valid()
      modifies this`table1, this`table2, this`salt1, this`salt2, this`size, this`probes, this`drawn, this`exact
      ensures Valid() && contents == old(contents) && (exact ==> old(exact))
      ensures drawn == old(drawn) + 2 && table1.Length == old(table1.Length)
      ensures var n := old(table1.Length);
              var sc := Scheme(true, rng(old(drawn)), rng(old(drawn) + 1), Mask(n));
              var r := Refill(Blank(n), Blank(n), sc, all, true);
              && ok == (r.drops == 0) && probes == old(probes) + r.steps
              && (ok ==> && fresh(table1) && fresh(table2) && table1[..] == r.t1 && table2[..] == r.t2
                         && salt1 == sc.salt1 && salt2 == sc.salt2 && size == |all| && !exact)
              && (!ok ==> && table1 == old(table1) && table2 == old(table2) && salt1 == old(salt1)
                          && salt2 == old(salt2) && size == old(size) && exact == old(exact))
    {
      var newSalt1, newSalt2 := rng(drawn), rng(drawn + 1);
      var sc := Scheme(true, newSalt1, newSalt2, Mask(table1.Length));
      var t1, t2, looked;
      t1, t2, ok, looked := Rebuild(table1.Length, sc, all);
      drawn, probes := drawn + 2, probes + looked;
      if ok {
        Adopt(t1, t2, newSalt1, newSalt2, |all|);
      }
    }

    /** The success branch of `rehash`: the rebuilt arrays and their salts
        replace the old ones and the size becomes the number of pairs
        placed. */
    method Adopt(t1: array<Slot<V>>, t2: array<Slot<V>>, s1: Word, s2: Word, n: nat)
      requires Valid() && t1 != t2 && t1.Length == table1.Length && t2.Length == table1.Length
      modifies this`table1, this`table2, this`salt1, this`salt2, this`size, this`exact
      ensures Valid() && table1 == t1 && table2 == t2 && salt1 == s1 && salt2 == s2 && size == n && !exact
    {
      table1, table2, salt1, salt2, size, exact := t1, t2, s1, s2, n, false;
    }

    /** The allocation step of `resizeDouble`: arrays four times as long,
        empty, with the mask to match. */
    method Regrow()
      requires Valid() && table1.Length <= MaxInt / 4
      modifies this`table1, this`table2, this`capMask, this`size, this`contents, this`exact
      ensures Valid() && fresh(table1) && fresh(table2) && table1.Length == 4 * old(table1.Length)
      ensures table1[..] == Blank(table1.Length) && table2[..] == Blank(table2.Length)
      ensures size == 0 && contents == map[] && exact
    {
      var n := 4 * table1.Length;
      DoubleIsPow2(table1.Length);
      DoubleIsPow2(2 * table1.Length);
      table1 := new Slot<V>[n](_ => Empty);
      table2 := new Slot<V>[n](_ => Empty);
      capMask := Mask(n);
      size := 0;
      contents := map[];
      exact := true;
      assert table1[..] == Blank(n) && table2[..] == Blank(n);
      BlankExact<V>(n, Hashing());
    }

    /** The reinsertion loop of `resizeDouble`: `insertOnce(e, false)` for
        each pair in turn, a dropped pair being ignored. Pairs with distinct
        keys new to an exact table keep it exact and extend its map, unless
        one is dropped. */
    method ReinsertAll(es: seq<Entry<V>>)
      requires Valid()
      modifies this`probes, this`size, this`collisions, this`contents, this`exact, table1, table2
      ensures Valid() && (exact ==> old(exact)) && collisions == old(collisions)
      ensures var r := Refill(old(table1[..]), old(table2[..]), old(Hashing()), es, false);
              && table1[..] == r.t1 && table2[..] == r.t2
              && size == old(size) + r.placed && probes == old(probes) + r.steps
              && (old(exact) && Apart(es) && (forall n :: 0 <= n < |es| ==> es[n].key !in old(contents)) ==>
                    exact == (r.drops == 0) && contents == Extend(old(contents), es))
    {
      var sc := Hashing();
      ghost var goal := Refill(table1[..], table2[..], sc, es, false);
      ghost var m0, fine := contents, exact && Apart(es) && (forall n :: 0 <= n < |es| ==> es[n].key !in contents);
      ghost var dropped := 0;
      var i := 0;
      while i < |es|
        invariant 0 <= i <= |es| && Valid() && Hashing() == sc
        invariant (exact ==> old(exact)) && collisions == old(collisions)
        invariant Reinserting(es, i, sc, goal, old(size), old(probes), m0, fine, dropped)
      {
        dropped := ReinsertNext(es, i, sc, goal, old(size), old(probes), m0, fine, dropped);
        i := i + 1;
      }
      assert es[..i] == es;
    }

    /** Where the reinsertion loop stands after `i` of the pairs `es`:
        reinserting the rest from the current arrays ends in `goal`, the
        counters have gone `goal`'s way so far, and a table that was `fine`
        to extend holds `m0` extended by the first `i` pairs. */
    ghost predicate Reinserting(es: seq<Entry<V>>, i: nat, sc: Scheme, goal: Rebuilt<V>, size0: int, probes0: int,
                                m0: map<int, V>, fine: bool, dropped: nat)
      reads this`table1, this`table2, this`size, this`probes, this`contents, this`exact, table1, table2
    {
      && i <= |es| && Fits(table1[..], table2[..], sc)
      && var r := Refill(table1[..], table2[..], sc, es[i..], false);
      && r.t1 == goal.t1 && r.t2 == goal.t2
      && size + r.placed == size0 + goal.placed && probes + r.steps == probes0 + goal.steps
      && dropped + r.drops == goal.drops
      && (fine ==> exact == (dropped == 0) && contents == Extend(m0, es[..i]))
    }

    /** One pass of the reinsertion loop: `insertOnce(es[i], false)`,
        counting a drop. */
    method ReinsertNext(es: seq<Entry<V>>, i: nat, ghost sc: Scheme, ghost goal: Rebuilt<V>, ghost size0: int,
                        ghost probes0: int, ghost m0: map<int, V>, ghost fine: bool, ghost dropped: nat)
      returns (ghost dropped': nat)
      requires i < |es| && Valid() && Hashing() == sc
      requires fine ==> Apart(es) && forall n :: 0 <= n < |es| ==> es[n].key !in m0
      requires Reinserting(es, i, sc, goal, size0, probes0, m0, fine, dropped)
      modifies this`probes, this`size, this`collisions, this`contents, this`exact, table1, table2
      ensures Valid() && (exact ==> old(exact)) && collisions == old(collisions)
      ensures Reinserting(es, i + 1, sc, goal, size0, probes0, m0, fine, dropped')
    {
      assert es[i..][0] == es[i] && es[i..][1..] == es[i + 1..];
      if fine && exact {
        ExtendFresh(m0, es, i);
        NotStale(table1[..], table2[..], sc, contents, es[i].key);
      }
      var ok := InsertOnce(es[i].key, es[i].value, false);
      dropped' := if ok then dropped else dropped + 1;
      ExtendSnoc(m0, es[..i], es[i]);
      assert es[..i + 1] == es[..i] + [es[i]];
    }

    /** The end of `resizeDouble`: the map is the one the table held before
        the reinsertion, and the table is exact if it was and the
        reinsertion kept it so. */
    method Settle(ghost m: map<int, V>, ghost keep: bool)
      requires Valid() && (keep && exact ==> contents == m)
      modifies this`contents, this`exact
      ensures Valid() && contents == m && exact == (keep && old(exact))
    {
      contents, exact := m, keep && exact;
    }

    /** `resizeDouble`: the pairs of both arrays reinserted with `insertOnce`
        into arrays four times as long, under the same salts. `cap` is not
        updated. Quadrupling beyond `int` is Go's allocation panic. An exact
        table stays exact, with the same map, unless a pair is dropped. */
    method ResizeDouble() returns (o: Outcome)
      requires Valid()
      modifies this`table1, this`table2, this`capMask, this`size, this`probes, this`collisions, this`contents, this`exact
      ensures Valid() && contents == old(contents) && (exact ==> old(exact))
      ensures collisions == old(collisions)
      ensures o == Panicked <==> old(table1.Length) > MaxInt / 4
      ensures o == Panicked ==> table1 == old(table1) && table2 == old(table2) && size == old(size)
                                && probes == old(probes) && exact == old(exact)
      ensures o == Returned ==>
                var n := 4 * old(table1.Length);
                var es := Live(old(table1[..])) + Live(old(table2[..]));
                var r := Refill(Blank(n), Blank(n), Scheme(false, old(salt1), old(salt2), Mask(n)), es, false);
                && fresh(table1) && fresh(table2) && table1.Length == n
                && table1[..] == r.t1 && table2[..] == r.t2 && size == r.placed && probes == old(probes) + r.steps
                && exact == (old(exact) && r.drops == 0)
    {
      if table1.Length > MaxInt / 4 {
        return Panicked;
      }
      o := Returned;
      var es := Collect();
      ghost var m0, e0 := contents, exact;
      if e0 {
        CollectExact(table1[..], table2[..], m0);
      }
      Relocate(es, m0, e0);
    }

    /** The second half of `resizeDouble`: arrays four times as long, the
        pairs `es` reinserted into them. When `keep` says that `es` has
        distinct keys and writes `m` in order, the map is `m` and the table
        is exact unless a pair was dropped. */
    method Relocate(es: seq<Entry<V>>, ghost m: map<int, V>, ghost keep: bool)
      requires Valid() && table1.Length <= MaxInt / 4
      requires keep ==> Apart(es) && Extend(map[], es) == m
      modifies this`table1, this`table2, this`capMask, this`size, this`probes, this`collisions, this`contents, this`exact
      ensures Valid() && contents == m && collisions == old(collisions)
      ensures var n := 4 * old(table1.Length);
              var r := Refill(Blank(n), Blank(n), Scheme(false, salt1, salt2, Mask(n)), es, false);
              && fresh(table1) && fresh(table2) && table1.Length == n
              && table1[..] == r.t1 && table2[..] == r.t2 && size == r.placed && probes == old(probes) + r.steps
              && exact == (keep && r.drops == 0)
    {
      Regrow();
      ghost var n, sc := table1.Length, Hashing();
      ghost var r := Refill(Blank(n), Blank(n), sc, es, false);
      ReinsertAll(es);
      assert table1[..] == r.t1 && table2[..] == r.t2 && size == r.placed;
      Settle(m, keep);
    }

    /** `Insert`. When the arrays are not crowded and the first
        `insertOnce` drops nothing, the call is that `insertOnce`, counting
        a collision; otherwise rehashes and quadruplings follow until an
        attempt succeeds. The key is in the map afterwards. */
    method Insert(key: int, value: V) returns (o: Outcome)
      requires Valid()
      modifies this, table1, table2
      ensures Valid() && (exact ==> old(exact))
      ensures o == Returned ==> contents == old(contents)[key := value] && rehashCount == 0
      ensures o == Panicked ==> table1.Length > MaxInt / 4 && (contents == old(contents) || contents == old(contents)[key := value])
      ensures lfNum == old(lfNum) && lfDen == old(lfDen) && cap == old(cap)
      ensures var t1, t2, sc := old(table1[..]), old(table2[..]), old(Hashing());
              var r := KickRun(t1, t2, sc, key, value, 0, 0);
              !old(Crowded()) && !r.landing.Dropped? ==>
                && o == Returned && table1[..] == r.t1 && table2[..] == r.t2
                && probes == old(probes) + r.steps
                && size == old(size) + (if r.landing.Placed? then 1 else 0)
                && collisions == old(collisions) + (if Collides(t1, t2, sc, key) then 1 else 0)
                && exact == (old(exact) && !StaleTwin(t1, t2, sc, key))
    {
      ghost var m := contents[key := value];
      if Crowded() {
        o := Grow();
        if o == Panicked {
          return;
        }
      }
      var ok := InsertOnce(key, value, true);
      assert contents == m;
      if ok {
        rehashCount := 0;
        return Returned;
      }
      o := Recover(key, value);
      assert contents == m;
    }

    /** The rest of `Insert`'s loop once an `insertOnce` has dropped a pair
        (the key itself is in the map by then): rounds of `Attempt` until one
        ends the call. */
    method Recover(key: int, value: V) returns (o: Outcome)
      requires Valid() && key in contents && contents[key] == value
      modifies this, table1, table2
      ensures Valid() && contents == old(contents) && (exact ==> old(exact))
      ensures lfNum == old(lfNum) && lfDen == old(lfDen) && cap == old(cap)
      ensures o == Returned ==> rehashCount == 0
      ensures o == Panicked ==> table1.Length > MaxInt / 4
    {
      while true
        invariant Valid() && contents == old(contents) && (exact ==> old(exact))
        invariant lfNum == old(lfNum) && lfDen == old(lfDen) && cap == old(cap)
        invariant (table1 == old(table1) || fresh(table1)) && (table2 == old(table2) || fresh(table2))
        decreases MaxInt - table1.Length, MaxRehashes - rehashCount
      {
        var done;
        done, o := Attempt(key, value);
        if done {
          return;
        }
      }
    }

    /** One round of `Insert`'s loop after a dropped pair: a rehash while
        fewer than `maxRehashes` have failed in a row (the call ends when it
        succeeds), else a quadrupling; then the crowding test and another
        `insertOnce`. Unless the call ends (`done`), the arrays have grown or
        one more rehash has failed. */
    method Attempt(key: int, value: V) returns (done: bool, o: Outcome)
      requires Valid() && key in contents && contents[key] == value
      modifies this, table1, table2
      ensures Valid() && contents == old(contents) && (exact ==> old(exact))
      ensures lfNum == old(lfNum) && lfDen == old(lfDen) && cap == old(cap)
      ensures (table1 == old(table1) || fresh(table1)) && (table2 == old(table2) || fresh(table2))
      ensures done && o == Returned ==> rehashCount == 0
      ensures o == Panicked ==> done && table1.Length > MaxInt / 4
      ensures !done ==> old(table1.Length) < table1.Length
                        || (table1.Length == old(table1.Length) && old(rehashCount) < rehashCount)
    {
      o, done := Returned, false;
      if rehashCount < MaxRehashes {
        var ok := TryRehash(key, value);
        if ok {
          return true, Returned;
        }
      } else {
        o := Grow();
        if o == Panicked {
          return true, Panicked;
        }
      }
      done, o := Again(key, value);
    }

    /** The head of a later round of `Insert`'s loop: quadruple a crowded
        table, then `insertOnce` without counting a collision, the rehash
        count reset when nothing is dropped. The key is already in the map. */
    method Again(key: int, value: V) returns (done: bool, o: Outcome)
      requires Valid() && key in contents && contents[key] == value
      modifies this, table1, table2
      ensures Valid() && contents == old(contents) && (exact ==> old(exact))
      ensures lfNum == old(lfNum) && lfDen == old(lfDen) && cap == old(cap)
      ensures (table1 == old(table1) || fresh(table1)) && (table2 == old(table2) || fresh(table2))
      ensures done && o == Returned ==> rehashCount == 0
      ensures o == Panicked ==> done && table1.Length > MaxInt / 4
      ensures !done ==> old(table1.Length) < table1.Length
                        || (table1.Length == old(table1.Length) && old(rehashCount) == rehashCount)
    {
      o, done := Returned, false;
      if Crowded() {
        o := Grow();
        if o == Panicked {
          return true, Panicked;
        }
      }
      ghost var m := contents;
      var ok := InsertOnce(key, value, false);
      assert contents == m;
      if ok {
        rehashCount := 0;
        return true, Returned;
      }
    }

    /** A rehash of `Insert`'s loop: one more attempt counted, the pairs of
        both arrays and the new pair rebuilt under fresh salts, the count
        reset when it succeeds. */
    method TryRehash(key: int, value: V) returns (ok: bool)
      requires Valid() && rehashCount < MaxRehashes
      modifies this`table1, this`table2, this`salt1, this`salt2, this`size, this`probes, this`drawn, this`exact
      modifies this`rehashCount
      ensures Valid() && contents == old(contents) && (exact ==> old(exact))
      ensures table1.Length == old(table1.Length)
      ensures (table1 == old(table1) || fresh(table1)) && (table2 == old(table2) || fresh(table2))
      ensures rehashCount == if ok then 0 else old(rehashCount) + 1
    {
      rehashCount := rehashCount + 1;
      var all := Collect();
      ok := Rehash(all + [Entry(key, value)]);
      if ok {
        rehashCount := 0;
      }
    }

    /** `resizeDouble` as `Insert` calls it, the rehash count reset after. */
    method Grow() returns (o: Outcome)
      requires Valid()
      modifies this
      ensures Valid() && contents == old(contents) && (exact ==> old(exact))
      ensures lfNum == old(lfNum) && lfDen == old(lfDen) && cap == old(cap)
      ensures o == Panicked <==> old(table1.Length) > MaxInt / 4
      ensures o == Panicked ==> table1 == old(table1) && table2 == old(table2) && rehashCount == old(rehashCount)
      ensures o == Returned ==> fresh(table1) && fresh(table2) && table1.Length == 4 * old(table1.Length) && rehashCount == 0
    {
      o := ResizeDouble();
      if o == Returned {
        rehashCount := 0;
      }
    }

    /** `Insert`'s test `float64(size+1) > loadFactor*float64(2*len(table1))`. */
    predicate Crowded()
      reads this
      ensures !Crowded() && lfNum <= lfDen ==> size < 2 * table1.Length
    {
      (size + 1) * lfDen > lfNum * (2 * table1.Length)
    }
  }
}
