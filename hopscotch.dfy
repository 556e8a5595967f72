/** The hopscotch engine (`hopscotch.go`): every home slot keeps a 32-bit
    hop word whose bit `d` says that slot `home + d` (wrapped to the
    capacity) holds a key of that home. Lookups walk the set bits of the
    home's word, lowest first; Insert searches up to 256 slots for a free
    one and, when it is 64 or more slots away, tries to move it closer.

    Two things about the source as written shape this model. The hop words
    are `uint32`, so `1 << d` is zero for `d >= 32`: a key placed 32 to 63
    slots from its home gets no hop bit and no later lookup finds it
    (HiddenPlacement); the model tracks this by clearing `exact`. And the
    move step can only pick a hop bit that points at the free slot itself,
    which never exists while the hop bits are sound, so a free slot 64 or
    more slots away always ends in a resize (NoCandidate). Resizing doubles
    `cap`; when doubling would overflow Go's `int` the engine panics, which
    the methods report as the outcome `Panicked`. */
module Hopscotch {
  import opened Common
  import opened Slots

  const NeighbourhoodSize: nat := 64
  const MaxDistance: nat := 256
  /** The width of a hop word (`uint32`). */
  const WordBits: nat := 32

  // ---------------------------------------------------------------------
  // Powers of two for the word widths

  /** 2^32 and 2^64 as powers of `Pow2`. */
  lemma Widths()
    ensures Pow2(32) == Two32 && Pow2(64) == Two64 && IsPow2(Two64)
  {
    assert Pow2(4) == 16;
    Pow2Sum(4, 4);
    assert Pow2(8) == 0x100;
    Pow2Sum(8, 8);
    assert Pow2(16) == 0x1_0000;
    Pow2Sum(16, 16);
    assert Pow2(32) == 0x1_0000_0000;
    Pow2Sum(32, 32);
    assert Pow2(64) == 0x1_0000_0000_0000_0000;
    Pow2IsPow2(64);
  }

  // ---------------------------------------------------------------------
  // Hop words as naturals, bit by bit

  /** Bit `d` of `w` is set. */
  predicate Bit(w: nat, d: nat)
  {
    if d == 0 then w % 2 == 1 else Bit(w / 2, d - 1)
  }

  lemma {:induction false} BitZero(d: nat)
    ensures !Bit(0, d)
  {
    if d > 0 {
      BitZero(d - 1);
    }
  }

  lemma ZeroHasNoBits()
    ensures forall d: nat :: !Bit(0, d)
  {
    forall d: nat ensures !Bit(0, d) {
      BitZero(d);
    }
  }

  /** `bits.TrailingZeros32(w)` for a non-zero word: the lowest set bit. */
  function TrailingZeros(w: nat): (r: nat)
    requires w > 0
    ensures Bit(w, r)
    ensures forall d: nat :: d < r ==> !Bit(w, d)
  {
    if w % 2 == 1 then 0 else 1 + TrailingZeros(w / 2)
  }

  /** Go's `1 << d` typed as `uint32`: zero once `d` reaches the width. */
  function Shl1(d: nat): (r: nat)
    ensures IsPow2(r) <==> d < WordBits
  {
    if d < WordBits then
      Pow2IsPow2(d);
      Pow2(d)
    else 0
  }

  /** Bitwise OR (`|`). */
  function Or(a: nat, b: nat): nat
  {
    if a == 0 then b
    else if b == 0 then a
    else 2 * Or(a / 2, b / 2) + (if a % 2 == 1 || b % 2 == 1 then 1 else 0)
  }

  /** Bitwise AND NOT (`&^`). */
  function AndNot(a: nat, b: nat): nat
  {
    if a == 0 then 0
    else if b == 0 then a
    else 2 * AndNot(a / 2, b / 2) + (if a % 2 == 1 && b % 2 == 0 then 1 else 0)
  }

  lemma {:induction false} BitAnd(a: nat, b: nat, d: nat)
    ensures Bit(And(a, b), d) <==> Bit(a, d) && Bit(b, d)
  {
    if a == 0 || b == 0 {
      BitZero(d);
    } else if d > 0 {
      BitAnd(a / 2, b / 2, d - 1);
    }
  }

  lemma {:induction false} BitOr(a: nat, b: nat, d: nat)
    ensures Bit(Or(a, b), d) <==> Bit(a, d) || Bit(b, d)
  {
    if a == 0 || b == 0 {
      BitZero(d);
    } else if d > 0 {
      BitOr(a / 2, b / 2, d - 1);
    }
  }

  lemma {:induction false} BitAndNot(a: nat, b: nat, d: nat)
    ensures Bit(AndNot(a, b), d) <==> Bit(a, d) && !Bit(b, d)
  {
    if a == 0 || b == 0 {
      BitZero(d);
    } else if d > 0 {
      BitAndNot(a / 2, b / 2, d - 1);
    }
  }

  lemma {:induction false} BitPow2(j: nat, d: nat)
    ensures Bit(Pow2(j), d) <==> d == j
  {
    if j == 0 {
      if d > 0 {
        BitZero(d - 1);
      }
    } else if d > 0 {
      BitPow2(j - 1, d - 1);
    }
  }

  /** `1 << j` as a `uint32` has bit `j` alone, or no bit when `j >= 32`. */
  lemma BitShl1(j: nat, d: nat)
    ensures Bit(Shl1(j), d) <==> j < WordBits && d == j
  {
    if j < WordBits {
      BitPow2(j, d);
    } else {
      BitZero(d);
    }
  }

  /** Go's test `w & (1 << j) != 0` reads bit `j`, and never a bit at or
      above 32. */
  lemma AndShl1(w: nat, j: nat)
    ensures And(w, Shl1(j)) != 0 <==> j < WordBits && Bit(w, j)
  {
    var a := And(w, Shl1(j));
    BitAnd(w, Shl1(j), j);
    BitShl1(j, j);
    BitZero(j);
    if a != 0 {
      var z := TrailingZeros(a);
      BitAnd(w, Shl1(j), z);
      BitShl1(j, z);
    }
  }

  /** Subtracting one flips the trailing zeros and the lowest set bit. */
  lemma {:induction false} DecBits(w: nat, d: nat)
    requires w > 0
    ensures Bit(w - 1, d) <==> d < TrailingZeros(w) || (d > TrailingZeros(w) && Bit(w, d))
  {
    if w % 2 == 0 && d > 0 {
      assert (w - 1) / 2 == w / 2 - 1;
      DecBits(w / 2, d - 1);
    }
  }

  /** `w & (w - 1)` clears the lowest set bit of `w` and keeps the rest. */
  lemma ClearLowest(w: nat)
    requires w > 0
    ensures And(w, w - 1) < w
    ensures forall d: nat :: Bit(And(w, w - 1), d) <==> Bit(w, d) && d != TrailingZeros(w)
  {
    AndAtMost(w, w - 1);
    forall d: nat ensures Bit(And(w, w - 1), d) <==> Bit(w, d) && d != TrailingZeros(w) {
      BitAnd(w, w - 1, d);
      DecBits(w, d);
    }
  }

  /** A word with no bit at or above `k` is below 2^k. */
  lemma {:induction false} Fits(w: nat, k: nat)
    requires forall d: nat :: k <= d ==> !Bit(w, d)
    ensures w < Pow2(k)
    decreases w
  {
    if w > 0 {
      var z := TrailingZeros(w);
      assert z < k;
      forall d: nat | k - 1 <= d ensures !Bit(w / 2, d) {
        assert Bit(w, d + 1) == Bit(w / 2, d);
      }
      Fits(w / 2, k - 1);
    }
  }

  // ---------------------------------------------------------------------
  // Positions: Go's `x & (cap - 1)` on an `int`

  /** A capacity the engine can allocate: a power of two that is a
      non-negative `int`. */
  ghost predicate Sized(n: nat)
  {
    IsPow2(n) && n <= MaxInt
  }

  /** `x & (n - 1)` for a signed 64-bit `x`: the mask applies to the two's
      complement bits. */
  function Wrap(x: int, n: nat): (r: nat)
    requires n > 0
    ensures r < n
  {
    AndAtMost(U64(x), n - 1);
    And(U64(x), n - 1)
  }

  /** `(base + d) & (cap - 1)`: the slot `d` steps after `base`. */
  function Cell(base: int, d: int, n: nat): (r: nat)
    requires n > 0
    ensures r < n
  {
    Wrap(base + d, n)
  }

  lemma {:induction false} Pow2Divides(p: nat, q: nat)
    requires IsPow2(p) && IsPow2(q) && p <= q
    ensures q % p == 0
    decreases p
  {
    if p == 1 {
      DivModUnique(q, 1, q, 0);
    } else {
      Pow2Divides(p / 2, q / 2);
      var k := (q / 2) / (p / 2);
      assert q / 2 == k * (p / 2);
      assert q == k * p;
      DivModUnique(q, p, k, 0);
    }
  }


  lemma ModAdd(a: int, j: int, n: nat)
    requires n > 0
    ensures (a % n + j) % n == (a + j) % n
  {
    var q, r := a / n, a % n;
    var q2, r2 := (r + j) / n, (r + j) % n;
    assert a + j == q * n + q2 * n + r2;
    assert a + j == (q + q2) * n + r2;
    DivModUnique(a + j, n, q + q2, r2);
  }

  /** For a power-of-two capacity the mask is the (non-negative) remainder,
      also for negative `x`. */
  lemma WrapIsMod(x: int, n: nat)
    requires Sized(n)
    ensures Wrap(x, n) == x % n
  {
    DividesTwo64(n);
    MaskIsMod(U64(x), n);
    ModCoarse(x, Two64, n);
  }

  /** A table size divides 2^64. */
  lemma DividesTwo64(n: nat)
    requires Sized(n)
    ensures Two64 % n == 0
  {
    Widths();
    Pow2Divides(n, Two64);
  }

  lemma WrapSmall(x: int, n: nat)
    requires Sized(n) && 0 <= x < n
    ensures Wrap(x, n) == x
  {
    WrapIsMod(x, n);
    DivModUnique(x, n, 0, x);
  }

  lemma WrapAdd(a: int, j: int, n: nat)
    requires Sized(n)
    ensures Wrap(Wrap(a, n) + j, n) == Wrap(a + j, n)
  {
    WrapIsMod(a, n);
    WrapIsMod(a % n + j, n);
    WrapIsMod(a + j, n);
    ModAdd(a, j, n);
  }

  lemma ModPeriod(x: int, n: nat)
    requires n > 0
    ensures (x + n) % n == x % n
  {
    DivModUnique(x + n, n, x / n + 1, x % n);
  }

  lemma WrapPeriod(x: int, n: nat)
    requires Sized(n)
    ensures Wrap(x + n, n) == Wrap(x, n)
  {
    WrapIsMod(x, n);
    WrapIsMod(x + n, n);
    ModPeriod(x, n);
  }

  /** Going back from `s` to `h` and forward again lands on `s`. */
  lemma WrapBack(h: int, s: nat, n: nat)
    requires Sized(n) && s < n
    ensures Wrap(h + Wrap(s - h, n), n) == s
  {
    WrapAdd(s - h, h, n);
    WrapSmall(s, n);
  }

  /** The offset of slot `h + d` from `h` is `d`. */
  lemma WrapOffset(h: int, d: nat, n: nat)
    requires Sized(n) && d < n
    ensures Wrap(Cell(h, d, n) - h, n) == d
  {
    WrapAdd(h + d, -h, n);
    WrapSmall(d, n);
  }

  /** Distinct offsets below the capacity name distinct slots. */
  lemma WrapInjective(h: int, d1: nat, d2: nat, n: nat)
    requires Sized(n) && d1 < n && d2 < n
    ensures Cell(h, d1, n) == Cell(h, d2, n) ==> d1 == d2
  {
    WrapOffset(h, d1, n);
    WrapOffset(h, d2, n);
  }

  // ---------------------------------------------------------------------
  // The table's slots and hop words

  /** Bit `d` of home `b`'s word may be set: slot `b + d` holds a key
      whose home is `b`. */
  predicate Flags<V>(t: seq<Slot<V>>, b: nat, d: nat)
  {
    && 0 < |t| && d < |t|
    && var s := Cell(b, d, |t|);
    && t[s].Occupied? && MulHash(t[s].key, |t|) == b
  }

  /** Every set hop bit points at a slot holding a key of that home. */
  ghost predicate HopSound<V>(t: seq<Slot<V>>, hops: seq<nat>)
  {
    && |hops| == |t|
    && forall b, d {:trigger Bit(hops[b], d)} :: 0 <= b < |hops| && Bit(hops[b], d) ==> Flags(t, b, d)
  }

  /** Every hop word fits in a `uint32`: no bit at or above 32. */
  ghost predicate Narrow(hops: seq<nat>)
  {
    forall b, d {:trigger Bit(hops[b], d)} :: 0 <= b < |hops| && WordBits <= d ==> !Bit(hops[b], d)
  }

  /** An occupied slot is flagged in its home's word. */
  predicate Seen<V>(t: seq<Slot<V>>, hops: seq<nat>, s: nat)
    requires s < |t| == |hops|
  {
    t[s].Occupied? ==>
      var h := MulHash(t[s].key, |t|);
      Bit(hops[h], Wrap(s - h, |t|))
  }

  /** Every occupied slot can be reached from its home's word. */
  ghost predicate Visible<V>(t: seq<Slot<V>>, hops: seq<nat>)
  {
    && 0 < |t| == |hops|
    && forall s {:trigger Seen(t, hops, s)} :: 0 <= s < |t| ==> Seen(t, hops, s)
  }

  /** The hop words are `uint32` values. */
  lemma WordsFit(hops: seq<nat>)
    requires Narrow(hops)
    ensures forall b :: 0 <= b < |hops| ==> hops[b] < Two32
  {
    Widths();
    forall b | 0 <= b < |hops| ensures hops[b] < Two32 {
      Fits(hops[b], WordBits);
    }
  }

  /** The slot a visible occupied slot is reached through. */
  lemma SeenAt<V>(t: seq<Slot<V>>, hops: seq<nat>, p: nat)
    requires Sized(|t|) && Visible(t, hops) && p < |t|
    ensures t[p].Occupied? ==>
              var h := MulHash(t[p].key, |t|);
              var d := Wrap(p - h, |t|);
              Bit(hops[h], d) && Cell(h, d, |t|) == p
  {
    assert Seen(t, hops, p);
    if t[p].Occupied? {
      WrapBack(MulHash(t[p].key, |t|), p, |t|);
    }
  }

  // ---------------------------------------------------------------------
  // The walks of the engine

  datatype Scanned = Scanned(at: Option<nat>, probes: nat)

  /** The hop-word walk of Get, Delete and Insert: visit the set bits of
      `w` from the lowest, one probe each, and stop at the slot holding
      `key`; `at` is the offset found. */
  function Scan<V>(t: seq<Slot<V>>, base: nat, key: int, w: nat): (r: Scanned)
    requires 0 < |t|
    ensures r.at.Some? ==> Bit(w, r.at.value) && HoldsKey(t, Cell(base, r.at.value, |t|), key)
    ensures r.at.None? ==> forall d: nat :: Bit(w, d) ==> !HoldsKey(t, Cell(base, d, |t|), key)
    decreases w
  {
    if w == 0 then
      ZeroHasNoBits();
      Scanned(None, 0)
    else
      var off := TrailingZeros(w);
      if HoldsKey(t, Cell(base, off, |t|), key) then
        Scanned(Some(off), 1)
      else
        ClearLowest(w);
        var r := Scan(t, base, key, And(w, w - 1));
        Scanned(r.at, r.probes + 1)
  }

  /** The free-slot search of Insert: the first offset from `dist` on,
      below 256, whose slot is not in use, or 256 when there is none. */
  function FreeFrom<V>(t: seq<Slot<V>>, base: nat, dist: nat): (r: nat)
    requires 0 < |t| && dist <= MaxDistance
    ensures dist <= r <= MaxDistance
    ensures r < MaxDistance ==> !t[Cell(base, r, |t|)].Occupied?
    decreases |t| + MaxDistance - dist
  {
    if dist == MaxDistance then MaxDistance
    else if !t[Cell(base, dist, |t|)].Occupied? then dist
    else FreeFrom(t, base, dist + 1)
  }

  /** Every slot the search passes over is in use. */
  lemma {:induction false} FreeFromTaken<V>(t: seq<Slot<V>>, base: nat, dist: nat, d: nat)
    requires 0 < |t| && dist <= MaxDistance && dist <= d < FreeFrom(t, base, dist)
    ensures t[Cell(base, d, |t|)].Occupied?
    decreases MaxDistance - dist
  {
    if d > dist {
      assert FreeFrom(t, base, dist) == FreeFrom(t, base, dist + 1);
      FreeFromTaken(t, base, dist + 1, d);
    }
  }

  /** The probes the free-slot search counts: one per slot looked at. */
  function FreeProbes(dist: nat): nat
  {
    if dist < MaxDistance then dist + 1 else MaxDistance
  }

  /** A free slot found by the search is less than the capacity past
      where it started: slots repeat every `cap` steps. */
  lemma FreeWithin<V>(t: seq<Slot<V>>, base: nat, dist: nat)
    requires Sized(|t|) && dist <= MaxDistance
    ensures FreeFrom(t, base, dist) < MaxDistance ==> FreeFrom(t, base, dist) < dist + |t|
  {
    var r := FreeFrom(t, base, dist);
    if r < MaxDistance && r >= dist + |t| {
      var e := r - |t|;
      WrapPeriod(base + e, |t|);
      assert Cell(base, e, |t|) == Cell(base, r, |t|);
      FreeFromTaken(t, base, dist, e);
    }
  }

  /** The move step of Insert finds no hop bit to move while the hop bits
      are sound: the bit it tests for each `j` would point at the free slot
      itself, which holds nothing. */
  lemma NoCandidate<V>(t: seq<Slot<V>>, hops: seq<nat>, free: nat)
    requires Sized(|t|) && HopSound(t, hops) && free < |t| && !t[free].Occupied?
    ensures forall j :: 0 < j < NeighbourhoodSize ==> And(hops[Wrap(free - j, |t|)], Shl1(j)) == 0
  {
    forall j | 0 < j < NeighbourhoodSize ensures And(hops[Wrap(free - j, |t|)], Shl1(j)) == 0 {
      var idx := Wrap(free - j, |t|);
      AndShl1(hops[idx], j);
      WrapAdd(free - j, j, |t|);
      WrapSmall(free, |t|);
    }
  }

  /** What Insert does once any resize for the load factor is done. */
  datatype Plan = Overwrite(offset: nat) | Place(dist: nat) | Grow

  ghost function PlanOf<V>(t: seq<Slot<V>>, hops: seq<nat>, key: int): (r: Plan)
    requires 0 < |t| == |hops|
    ensures var h := MulHash(key, |t|);
            r.Overwrite? ==> Bit(hops[h], r.offset) && HoldsKey(t, Cell(h, r.offset, |t|), key)
    ensures var h := MulHash(key, |t|);
            !r.Overwrite? ==> forall d: nat :: Bit(hops[h], d) ==> !HoldsKey(t, Cell(h, d, |t|), key)
    ensures var h := MulHash(key, |t|);
            r.Place? ==> r.dist < NeighbourhoodSize && !t[Cell(h, r.dist, |t|)].Occupied?
  {
    var h := MulHash(key, |t|);
    var s := Scan(t, h, key, hops[h]);
    if s.at.Some? then Overwrite(s.at.value)
    else
      var d := FreeFrom(t, h, 0);
      if d < NeighbourhoodSize then Place(d) else Grow
  }

  /** The slots once Insert has carried out its plan: the value replaced
      where the walk found the key, or the pair written into the free slot. */
  ghost function SlotsAfter<V>(t: seq<Slot<V>>, hops: seq<nat>, key: int, value: V): seq<Slot<V>>
    requires 0 < |t| == |hops|
  {
    var h := MulHash(key, |t|);
    match PlanOf(t, hops, key)
    case Overwrite(off) => t[Cell(h, off, |t|) := Occupied(key, value)]
    case Place(d) => t[Cell(h, d, |t|) := Occupied(key, value)]
    case Grow => t
  }

  /** The hop words once Insert has carried out its plan: `1 << d` or-ed
      into the home's word after a placement `d` slots from home. */
  ghost function HopsAfter<V>(t: seq<Slot<V>>, hops: seq<nat>, key: int): seq<nat>
    requires 0 < |t| == |hops|
  {
    var h := MulHash(key, |t|);
    match PlanOf(t, hops, key)
    case Place(d) => hops[h := Or(hops[h], Shl1(d))]
    case _ => hops
  }

  // ---------------------------------------------------------------------
  // What the walks find

  /** On an exact table the hop-word walk from the key's home finds the key
      exactly when the map holds it, at a slot holding the map's value. */
  lemma Lookup<V>(t: seq<Slot<V>>, hops: seq<nat>, m: map<int, V>, key: int)
    requires Sized(|t|) && Visible(t, hops) && Stores(t, m)
    ensures var h := MulHash(key, |t|);
            var s := Scan(t, h, key, hops[h]);
            && (s.at.Some? <==> key in m)
            && (s.at.Some? ==> t[Cell(h, s.at.value, |t|)].value == m[key])
  {
    var h := MulHash(key, |t|);
    var s := Scan(t, h, key, hops[h]);
    if s.at.Some? {
      assert Agrees(t, m, Cell(h, s.at.value, |t|));
    }
    if key in m {
      assert Present(t, key);
      var p :| 0 <= p < |t| && t[p].Occupied? && t[p].key == key;
      SeenAt(t, hops, p);
    }
  }

  /** A walk that finds nothing on a table whose slots are all visible
      means no slot holds the key. */
  lemma Absent<V>(t: seq<Slot<V>>, hops: seq<nat>, key: int)
    requires Sized(|t|) && Visible(t, hops)
    requires var h := MulHash(key, |t|); Scan(t, h, key, hops[h]).at.None?
    ensures !Present(t, key)
  {
    forall p | 0 <= p < |t| ensures !(t[p].Occupied? && t[p].key == key) {
      SeenAt(t, hops, p);
    }
  }

  /** The walk reads only the slots its word flags. */
  lemma {:induction false} ScanAgree<V>(t: seq<Slot<V>>, u: seq<Slot<V>>, base: nat, key: int, w: nat)
    requires 0 < |t| == |u|
    requires forall d: nat :: Bit(w, d) ==> t[Cell(base, d, |t|)] == u[Cell(base, d, |t|)]
    ensures Scan(u, base, key, w) == Scan(t, base, key, w)
    decreases w
  {
    if w > 0 {
      ClearLowest(w);
      ScanAgree(t, u, base, key, And(w, w - 1));
    }
  }

  // ---------------------------------------------------------------------
  // The writes of Insert and Delete

  /** Overwriting the value of a slot that holds `key` keeps the hop bits
      sound, the count and the keys. */
  lemma RefreshSound<V>(t: seq<Slot<V>>, hops: seq<nat>, key: int, value: V, s: nat)
    requires HopSound(t, hops) && s < |t| && HoldsKey(t, s, key)
    ensures var u := t[s := Occupied(key, value)];
            && HopSound(u, hops)
            && Count(u, |u|) == Count(t, |t|) && Keys(u, |u|) == Keys(t, |t|)
  {
    var u := t[s := Occupied(key, value)];
    CountPut(t, s, Occupied(key, value), |t|);
    KeysPut(t, s, key, value);
    forall b, d | 0 <= b < |hops| && Bit(hops[b], d) ensures Flags(u, b, d) {
      assert Flags(t, b, d);
    }
  }

  /** ... and an exact table stays exact, now mapping `key` to `value`. */
  lemma RefreshExact<V>(t: seq<Slot<V>>, hops: seq<nat>, m: map<int, V>, key: int, value: V, s: nat)
    requires Visible(t, hops) && Unique(t) && Stores(t, m) && s < |t| && HoldsKey(t, s, key)
    ensures var u := t[s := Occupied(key, value)];
            Visible(u, hops) && Unique(u) && Stores(u, m[key := value])
  {
    var u := t[s := Occupied(key, value)];
    forall p | 0 <= p < |u| ensures Seen(u, hops, p) {
      assert Seen(t, hops, p);
    }
    RewriteStores(t, m, key, value, s);
  }

  /** Or-ing `1 << d` into a word keeps it a `uint32` and adds bit `d`
      when `d` fits the word. */
  lemma OrShl1(hops: seq<nat>, h: nat, d: nat)
    requires Narrow(hops) && h < |hops|
    ensures var g := hops[h := Or(hops[h], Shl1(d))];
            && Narrow(g)
            && forall e: nat :: Bit(g[h], e) <==> Bit(hops[h], e) || (d < WordBits && e == d)
  {
    var g := hops[h := Or(hops[h], Shl1(d))];
    forall e: nat ensures Bit(g[h], e) <==> Bit(hops[h], e) || (d < WordBits && e == d) {
      BitOr(hops[h], Shl1(d), e);
      BitShl1(d, e);
    }
  }

  /** Placing `key` in a free slot `d` steps from its home and or-ing
      `1 << d` into the home's word keeps the hop bits sound and the words
      `uint32`, and adds one occupied slot and the key. */
  lemma PutSound<V>(t: seq<Slot<V>>, hops: seq<nat>, key: int, value: V, d: nat)
    requires Sized(|t|) && HopSound(t, hops) && Narrow(hops)
    requires d < |t| && !t[Cell(MulHash(key, |t|), d, |t|)].Occupied?
    ensures var h := MulHash(key, |t|);
            var s := Cell(h, d, |t|);
            var u := t[s := Occupied(key, value)];
            var g := hops[h := Or(hops[h], Shl1(d))];
            && HopSound(u, g) && Narrow(g)
            && Count(u, |u|) == Count(t, |t|) + 1 && Keys(u, |u|) == Keys(t, |t|) + {key}
  {
    var h := MulHash(key, |t|);
    var s := Cell(h, d, |t|);
    var u := t[s := Occupied(key, value)];
    var g := hops[h := Or(hops[h], Shl1(d))];
    CountPut(t, s, Occupied(key, value), |t|);
    KeysPut(t, s, key, value);
    OrShl1(hops, h, d);
    forall b, e | 0 <= b < |g| && Bit(g[b], e) ensures Flags(u, b, e) {
      if b == h && !Bit(hops[h], e) {
        assert e == d;
      } else {
        assert Bit(hops[b], e);
        assert Flags(t, b, e);
      }
    }
  }

  /** A slot holding a key whose home word has the slot's offset set is seen. */
  lemma SeenBy<V>(u: seq<Slot<V>>, g: seq<nat>, s: nat, h: nat, d: nat)
    requires s < |u| == |g| && u[s].Occupied?
    requires h == MulHash(u[s].key, |u|) && Wrap(s - h, |u|) == d && Bit(g[h], d)
    ensures Seen(u, g, s)
  {
  }

  /** The slot just written is flagged in its home's word. */
  lemma PutSeenNew<V>(t: seq<Slot<V>>, hops: seq<nat>, key: int, value: V, d: nat, h: nat)
    requires Sized(|t|) && d < WordBits && d < |t| && |hops| == |t| && h < |t|
    requires h == MulHash(key, |t|)
    ensures var s := Cell(h, d, |t|);
            var u := t[s := Occupied(key, value)];
            var g := hops[h := Or(hops[h], Shl1(d))];
            Seen(u, g, s)
  {
    var s := Cell(h, d, |t|);
    var u := t[s := Occupied(key, value)];
    var g := hops[h := Or(hops[h], Shl1(d))];
    WrapOffset(h, d, |t|);
    BitShl1(d, d);
    BitOr(hops[h], Shl1(d), d);
    assert Bit(g[h], d);
    assert u[s].key == key && |u| == |t|;
    SeenBy(u, g, s, h, d);
  }

  /** Or-ing a bit into a word keeps every other slot flagged. */
  lemma PutSeenOld<V>(t: seq<Slot<V>>, hops: seq<nat>, h: nat, x: nat, u: seq<Slot<V>>, p: nat)
    requires 0 < |t| == |hops| == |u| && h < |t| && p < |t| && u[p] == t[p]
    requires Seen(t, hops, p)
    ensures Seen(u, hops[h := Or(hops[h], x)], p)
  {
    if u[p].Occupied? {
      BitOr(hops[h], x, Wrap(p - MulHash(u[p].key, |t|), |t|));
    }
  }

  /** ... and when the offset fits the word, every slot visible before
      is visible after, and so is the new one. */
  lemma PutVisible<V>(t: seq<Slot<V>>, hops: seq<nat>, key: int, value: V, d: nat)
    requires Sized(|t|) && d < WordBits && d < |t| && Visible(t, hops)
    ensures var h := MulHash(key, |t|);
            var u := t[Cell(h, d, |t|) := Occupied(key, value)];
            var g := hops[h := Or(hops[h], Shl1(d))];
            Visible(u, g)
  {
    var h := MulHash(key, |t|);
    var s := Cell(h, d, |t|);
    var u := t[s := Occupied(key, value)];
    var g := hops[h := Or(hops[h], Shl1(d))];
    PutSeenNew(t, hops, key, value, d, h);
    forall p | 0 <= p < |u| ensures Seen(u, g, p) {
      if p != s {
        assert Seen(t, hops, p);
        PutSeenOld(t, hops, h, Shl1(d), u, p);
      }
    }
  }


  /** A key placed 32 to 63 slots from its home gets no hop bit, since
      `1 << d` is zero in a `uint32`: its home's word is unchanged, and the
      walk that Get and Delete run from its home does not find it, though
      the slot holds it. */
  lemma HiddenPlacement<V>(t: seq<Slot<V>>, hops: seq<nat>, key: int, value: V, d: nat)
    requires Sized(|t|) && HopSound(t, hops) && WordBits <= d < |t|
    requires var h := MulHash(key, |t|);
             !t[Cell(h, d, |t|)].Occupied? && Scan(t, h, key, hops[h]).at.None?
    ensures var h := MulHash(key, |t|);
            var s := Cell(h, d, |t|);
            var u := t[s := Occupied(key, value)];
            var g := hops[h := Or(hops[h], Shl1(d))];
            && g == hops
            && HoldsKey(u, s, key)
            && Scan(u, h, key, g[h]).at.None?
  {
    var h := MulHash(key, |t|);
    var s := Cell(h, d, |t|);
    var u := t[s := Occupied(key, value)];
    assert Or(hops[h], Shl1(d)) == hops[h];
    forall e: nat | Bit(hops[h], e) ensures t[Cell(h, e, |t|)] == u[Cell(h, e, |t|)] {
      assert Flags(t, h, e);
    }
    ScanAgree(t, u, h, key, hops[h]);
  }

  /** Emptying the slot that holds `key` at offset `off` from its home and
      clearing bit `off` of the home's word keeps the hop bits sound and
      the words `uint32`, and removes one occupied slot and at most the
      key. */
  lemma ClearSound<V>(t: seq<Slot<V>>, hops: seq<nat>, key: int, off: nat)
    requires Sized(|t|) && HopSound(t, hops) && Narrow(hops)
    requires var h := MulHash(key, |t|);
             Bit(hops[h], off) && HoldsKey(t, Cell(h, off, |t|), key)
    ensures var h := MulHash(key, |t|);
            var s := Cell(h, off, |t|);
            var u := t[s := Empty];
            var g := hops[h := AndNot(hops[h], Shl1(off))];
            && HopSound(u, g) && Narrow(g)
            && Count(u, |u|) == Count(t, |t|) - 1
            && Keys(u, |u|) <= Keys(t, |t|) && Keys(t, |t|) - {key} <= Keys(u, |u|)
  {
    var h := MulHash(key, |t|);
    var s := Cell(h, off, |t|);
    var u := t[s := Empty];
    var g := hops[h := AndNot(hops[h], Shl1(off))];
    CountPut(t, s, Empty, |t|);
    KeysClear(t, s);
    assert Flags(t, h, off);
    forall b, e | 0 <= b < |g| && Bit(g[b], e) ensures Flags(u, b, e) {
      if b == h {
        BitAndNot(hops[h], Shl1(off), e);
        BitShl1(off, e);
        WrapInjective(h, e, off, |t|);
      }
      assert Flags(t, b, e);
    }
    forall b, e | 0 <= b < |g| && WordBits <= e ensures !Bit(g[b], e) {
      if b == h {
        BitAndNot(hops[h], Shl1(off), e);
      }
    }
  }

  /** ... and an exact table stays exact without the key. */
  lemma ClearExact<V>(t: seq<Slot<V>>, hops: seq<nat>, m: map<int, V>, key: int, off: nat)
    requires Sized(|t|) && Visible(t, hops) && Unique(t) && Stores(t, m)
    requires var h := MulHash(key, |t|); HoldsKey(t, Cell(h, off, |t|), key)
    ensures var h := MulHash(key, |t|);
            var u := t[Cell(h, off, |t|) := Empty];
            var g := hops[h := AndNot(hops[h], Shl1(off))];
            Visible(u, g) && Unique(u) && Stores(u, m - {key})
  {
    var h := MulHash(key, |t|);
    var u := t[Cell(h, off, |t|) := Empty];
    var g := hops[h := AndNot(hops[h], Shl1(off))];
    forall p | 0 <= p < |u| ensures Seen(u, g, p) {
      ClearSeen(t, hops, h, off, p);
    }
    ClearStores(t, m, key, Cell(h, off, |t|));
  }

  /** Clearing slot `Cell(h, off)` and its bit in `h`'s word leaves every
      other slot seen. */
  lemma ClearSeen<V>(t: seq<Slot<V>>, hops: seq<nat>, h: nat, off: nat, p: nat)
    requires Sized(|t|) && Visible(t, hops) && h < |t| && p < |t|
    ensures var u := t[Cell(h, off, |t|) := Empty];
            var g := hops[h := AndNot(hops[h], Shl1(off))];
            Seen(u, g, p)
  {
    var s := Cell(h, off, |t|);
    var u := t[s := Empty];
    var g := hops[h := AndNot(hops[h], Shl1(off))];
    SeenAt(t, hops, p);
    if u[p].Occupied? {
      var hp := MulHash(u[p].key, |t|);
      var e := Wrap(p - hp, |t|);
      assert u[p] == t[p];
      BitAndNot(hops[h], Shl1(off), e);
      BitShl1(off, e);
      SeenBy(u, g, p, hp, e);
    }
  }

  /** On an exact table, once Insert has replaced the key's value or placed
      it fewer than 32 slots from home, the walk Get runs finds the key with
      the value inserted. */
  lemma InsertThenLookup<V>(t: seq<Slot<V>>, hops: seq<nat>, m: map<int, V>, key: int, value: V)
    requires Sized(|t|) && |hops| == |t| && Visible(t, hops) && Unique(t) && Stores(t, m)
    requires var p := PlanOf(t, hops, key); p.Overwrite? || (p.Place? && p.dist < WordBits)
    ensures var u, g := SlotsAfter(t, hops, key, value), HopsAfter(t, hops, key);
            var h := MulHash(key, |t|);
            var s := Scan(u, h, key, g[h]);
            s.at.Some? && u[Cell(h, s.at.value, |t|)].value == value
  {
    match PlanOf(t, hops, key)
    case Overwrite(off) =>
      OverwriteThenLookup(t, hops, m, key, value, off);
    case Place(d) =>
      PlaceThenLookup(t, hops, m, key, value, d);
  }

  /** `InsertThenLookup` when Insert replaces a value. */
  lemma OverwriteThenLookup<V>(t: seq<Slot<V>>, hops: seq<nat>, m: map<int, V>, key: int, value: V, off: nat)
    requires Sized(|t|) && |hops| == |t| && Visible(t, hops) && Unique(t) && Stores(t, m)
    requires PlanOf(t, hops, key) == Overwrite(off)
    ensures var u, g := SlotsAfter(t, hops, key, value), HopsAfter(t, hops, key);
            var h := MulHash(key, |t|);
            var s := Scan(u, h, key, g[h]);
            s.at.Some? && u[Cell(h, s.at.value, |t|)].value == value
  {
    var h := MulHash(key, |t|);
    assert SlotsAfter(t, hops, key, value) == t[Cell(h, off, |t|) := Occupied(key, value)];
    assert HopsAfter(t, hops, key) == hops;
    assert HoldsKey(t, Cell(h, off, |t|), key);
    RefreshLookup(t, hops, m, key, value, h, Cell(h, off, |t|));
  }

  /** `InsertThenLookup` when Insert places the pair fewer than 32 slots
      from home. */
  lemma PlaceThenLookup<V>(t: seq<Slot<V>>, hops: seq<nat>, m: map<int, V>, key: int, value: V, d: nat)
    requires Sized(|t|) && |hops| == |t| && Visible(t, hops) && Unique(t) && Stores(t, m)
    requires PlanOf(t, hops, key) == Place(d) && d < WordBits
    ensures var u, g := SlotsAfter(t, hops, key, value), HopsAfter(t, hops, key);
            var h := MulHash(key, |t|);
            var s := Scan(u, h, key, g[h]);
            s.at.Some? && u[Cell(h, s.at.value, |t|)].value == value
  {
    var h := MulHash(key, |t|);
    assert SlotsAfter(t, hops, key, value) == t[Cell(h, d, |t|) := Occupied(key, value)];
    assert HopsAfter(t, hops, key) == hops[h := Or(hops[h], Shl1(d))];
    FreeWithin(t, h, 0);
    Absent(t, hops, key);
    PlaceLookup(t, hops, m, key, value, h, d);
  }

  /** Replacing the value of the slot holding `key` is seen by the walk. */
  lemma RefreshLookup<V>(t: seq<Slot<V>>, hops: seq<nat>, m: map<int, V>, key: int, value: V, h: nat, s: nat)
    requires Sized(|t|) && Visible(t, hops) && Unique(t) && Stores(t, m)
    requires h == MulHash(key, |t|) && s < |t| && HoldsKey(t, s, key)
    ensures var u := t[s := Occupied(key, value)];
            var r := Scan(u, h, key, hops[h]);
            r.at.Some? && u[Cell(h, r.at.value, |t|)].value == value
  {
    RefreshExact(t, hops, m, key, value, s);
    Lookup(t[s := Occupied(key, value)], hops, m[key := value], key);
  }

  /** A placement fewer than 32 slots from home is seen by the walk. */
  lemma PlaceLookup<V>(t: seq<Slot<V>>, hops: seq<nat>, m: map<int, V>, key: int, value: V, h: nat, d: nat)
    requires Sized(|t|) && Visible(t, hops) && Unique(t) && Stores(t, m) && !Present(t, key)
    requires h == MulHash(key, |t|) && d < WordBits && d < |t| && !t[Cell(h, d, |t|)].Occupied?
    ensures var u := t[Cell(h, d, |t|) := Occupied(key, value)];
            var g := hops[h := Or(hops[h], Shl1(d))];
            var r := Scan(u, h, key, g[h]);
            r.at.Some? && u[Cell(h, r.at.value, |t|)].value == value
  {
    var u := t[Cell(h, d, |t|) := Occupied(key, value)];
    var g := hops[h := Or(hops[h], Shl1(d))];
    PutVisible(t, hops, key, value, d);
    PutStores(t, m, key, value, Cell(h, d, |t|));
    Lookup(u, g, m[key := value], key);
  }

  /** On an exact table, once Delete has emptied the slot its walk found
      and cleared that bit, the walk finds the key no more. */
  lemma DeleteThenLookup<V>(t: seq<Slot<V>>, hops: seq<nat>, m: map<int, V>, key: int)
    requires Sized(|t|) && |hops| == |t| && Visible(t, hops) && Unique(t) && Stores(t, m)
    requires var h := MulHash(key, |t|); Scan(t, h, key, hops[h]).at.Some?
    ensures var h := MulHash(key, |t|);
            var off := Scan(t, h, key, hops[h]).at.value;
            var u := t[Cell(h, off, |t|) := Empty];
            var g := hops[h := AndNot(hops[h], Shl1(off))];
            Scan(u, h, key, g[h]).at.None?
  {
    var h := MulHash(key, |t|);
    var off := Scan(t, h, key, hops[h]).at.value;
    ClearExact(t, hops, m, key, off);
    Lookup(t[Cell(h, off, |t|) := Empty], hops[h := AndNot(hops[h], Shl1(off))], m - {key}, key);
  }

  /** A fresh table: all slots empty and all words zero. */
  lemma Blank<V>(t: seq<Slot<V>>, hops: seq<nat>)
    requires 0 < |t| == |hops|
    requires forall s :: 0 <= s < |t| ==> t[s].Empty?
    requires forall b :: 0 <= b < |hops| ==> hops[b] == 0
    ensures HopSound(t, hops) && Narrow(hops) && Visible(t, hops) && Unique(t) && Stores(t, map[])
    ensures Count(t, |t|) == 0 && Keys(t, |t|) == {}
  {
    ZeroHasNoBits();
    CountNone(t, |t|);
  }


  // ---------------------------------------------------------------------
  // The table

  class HopscotchTable<V> {
    var buckets: array<Slot<V>>
    /** One `uint32` hop word per home slot. */
    var hopInfo: array<nat>
    var size: int
    var cap: int
    /** The load factor `lfNum / lfDen` (a float64 in Go). */
    var lfNum: int
    var lfDen: int
    var probes: int
    var collisions: int
    /** Latch: count the next collision only once per rehash. */
    var withCollision: bool

    /** The map that the calls made so far describe. */
    ghost var contents: map<int, V>
    /** Every occupied slot is reachable through its home's word, no key is
        held twice, and the slots hold exactly `contents`: true from `New`,
        kept by every operation except a placement 32 or more slots from
        home (HiddenPlacement) and a resize that meets one. */
    ghost var exact: bool

    ghost predicate Valid()
      reads this`buckets, this`hopInfo, this`cap, this`lfDen, this`size, this`contents, this`exact
      reads buckets, hopInfo
    {
      && buckets.Length == cap && hopInfo.Length == cap
      && Sized(cap) && cap >= 8
      && lfDen > 0
      && size == Count(buckets[..], cap)
      && Narrow(hopInfo[..]) && HopSound(buckets[..], hopInfo[..])
      && (exact ==> Visible(buckets[..], hopInfo[..]) && Unique(buckets[..]) && Stores(buckets[..], contents))
    }

    /** `New`: a power-of-two capacity of at least 8, all slots empty and
        all words zero, load factor 1. A capacity beyond `int` is not
        allocated. */
    constructor (initialCapacity: int)
      requires initialCapacity <= MaxPow2Int
      ensures Valid() && fresh(buckets) && fresh(hopInfo) && exact && contents == map[]
      ensures cap == NextPowerOfTwo(initialCapacity) && size == 0
      ensures probes == 0 && collisions == 0 && lfNum == 1 && lfDen == 1 && withCollision
    {
      var capacity := NextPowerOfTwo(initialCapacity);
      buckets := new Slot<V>[capacity](_ => Empty);
      hopInfo := new nat[capacity](_ => 0);
      size := 0;
      cap := capacity;
      lfNum, lfDen := 1, 1;
      probes, collisions := 0, 0;
      withCollision := true;
      contents := map[];
      exact := true;
      new;
      Blank(buckets[..], hopInfo[..]);
    }

    /** `Size()`: the number of occupied slots, which is the size of the
        map while the table is exact. */
    function Size(): (r: int)
      reads this, buckets, hopInfo
      requires Valid()
      ensures r == Count(buckets[..], cap)
      ensures exact ==> r == |contents|
    {
      ExactSize(buckets[..], contents, exact);
      size
    }

    function Capacity(): (r: int)
      reads this, buckets, hopInfo
      requires Valid()
      ensures IsPow2(r) && r >= 8 && r == buckets.Length
    {
      cap
    }

    function Probes(): int
      reads this
    {
      probes
    }

    function Collisions(): int
      reads this
    {
      collisions
    }

    method ResetProbes()
      requires Valid()
      modifies this`probes
      ensures Valid() && probes == 0
    {
      probes := 0;
    }

    method ResetCollisions()
      requires Valid()
      modifies this`collisions
      ensures Valid() && collisions == 0
    {
      collisions := 0;
    }

    method SetLoadFactor(num: int, den: int)
      requires Valid() && den > 0
      modifies this`lfNum, this`lfDen
      ensures Valid() && lfNum == num && lfDen == den
    {
      lfNum, lfDen := num, den;
    }

    predicate NeedsResize()
      reads this
      requires cap > 0 && lfDen > 0
    {
      ShouldResize(size, cap, lfNum, lfDen)
    }

    /** The hop-word loop shared by Insert, Get and Delete: one probe per
        set bit visited, lowest bit first, until the slot holding `key`.
        The probes are counted in `visited` and added to `probes` by the
        caller. */
    method Find(key: int, base: nat) returns (at: Option<nat>, visited: nat)
      requires buckets.Length == cap && hopInfo.Length == cap && cap > 0 && base < cap
      ensures var s := Scan(buckets[..], base, key, hopInfo[base]);
              at == s.at && visited == s.probes
    {
      var hop := hopInfo[base];
      ghost var goal := Scan(buckets[..], base, key, hop);
      visited := 0;
      while hop != 0
        invariant var s := Scan(buckets[..], base, key, hop);
                  s.at == goal.at && visited + s.probes == goal.probes
        decreases hop
      {
        var offset := TrailingZeros(hop);
        var idx := Cell(base, offset, cap);
        visited := visited + 1;
        if buckets[idx].Occupied? && buckets[idx].key == key {
          return Some(offset), visited;
        }
        ClearLowest(hop);
        hop := And(hop, hop - 1);
      }
      return None, visited;
    }

    /** The free-slot loop of Insert: one probe per slot, at most 256,
        counted in `looked`. */
    method SeekFree(base: nat) returns (dist: nat, looked: nat)
      requires buckets.Length == cap && cap > 0 && base < cap
      ensures dist == FreeFrom(buckets[..], base, 0) && looked == FreeProbes(dist)
    {
      dist, looked := 0, 0;
      while dist < MaxDistance
        invariant dist <= MaxDistance && FreeFrom(buckets[..], base, dist) == FreeFrom(buckets[..], base, 0)
        invariant looked == dist
      {
        var idx := Cell(base, dist, cap);
        looked := looked + 1;
        if !buckets[idx].Occupied? {
          return;
        }
        dist := dist + 1;
      }
    }

    /** The search of the move step, from `hopDist = 63` down to 1: the
        first `hopDist` whose bit is set in the word `hopDist` slots before
        `free`, or 0 when there is none. */
    method Candidate(free: nat) returns (hopDist: nat)
      requires hopInfo.Length == cap && cap > 0 && free < cap
      ensures hopDist < NeighbourhoodSize
      ensures hopDist > 0 ==> And(hopInfo[Wrap(free - hopDist, cap)], Shl1(hopDist)) != 0
      ensures forall j :: hopDist < j < NeighbourhoodSize ==> And(hopInfo[Wrap(free - j, cap)], Shl1(j)) == 0
    {
      hopDist := NeighbourhoodSize - 1;
      while hopDist > 0
        invariant hopDist < NeighbourhoodSize
        invariant forall j :: hopDist < j < NeighbourhoodSize ==> And(hopInfo[Wrap(free - j, cap)], Shl1(j)) == 0
      {
        var idx := Wrap(free - hopDist, cap);
        if And(hopInfo[idx], Shl1(hopDist)) != 0 {
          return;
        }
        hopDist := hopDist - 1;
      }
    }

    /** Insert's write when the walk found `key` at offset `off`: only the
        value changes. */
    method Refresh(key: int, value: V, off: nat)
      requires Valid() && HoldsKey(buckets[..], Cell(MulHash(key, cap), off, cap), key)
      modifies this`contents, buckets
      ensures Valid()
      ensures buckets[..] == old(buckets[..])[Cell(MulHash(key, cap), off, cap) := Occupied(key, value)]
      ensures contents == old(contents)[key := value]
      ensures Keys(buckets[..], cap) == old(Keys(buckets[..], cap))
      ensures InsertKeeps(old(buckets[..]), buckets[..], key, value)
    {
      var idx := Cell(MulHash(key, cap), off, cap);
      ghost var t := buckets[..];
      WriteKeeps(t, idx, key, value);
      RefreshSound(t, hopInfo[..], key, value, idx);
      if exact {
        RefreshExact(t, hopInfo[..], contents, key, value, idx);
      }
      buckets[idx] := buckets[idx].(value := value);
      assert buckets[..] == t[idx := Occupied(key, value)];
      contents := contents[key := value];
    }

    /** Insert's write into the free slot `dist` steps from home, with
        `1 << dist` or-ed into the home's word. */
    method Put(key: int, value: V, dist: nat)
      requires Valid() && dist < cap
      requires !buckets[Cell(MulHash(key, cap), dist, cap)].Occupied?
      requires exact && dist < WordBits ==> !Present(buckets[..], key)
      modifies this`size, this`contents, this`exact, buckets, hopInfo
      ensures Valid()
      ensures var h := MulHash(key, cap);
              var t, hops := old(buckets[..]), old(hopInfo[..]);
              && buckets[..] == t[Cell(h, dist, cap) := Occupied(key, value)]
              && hopInfo[..] == hops[h := Or(hops[h], Shl1(dist))]
      ensures size == old(size) + 1 && contents == old(contents)[key := value]
      ensures exact == (old(exact) && dist < WordBits)
      ensures Keys(buckets[..], cap) == old(Keys(buckets[..], cap)) + {key}
      ensures InsertKeeps(old(buckets[..]), buckets[..], key, value)
    {
      var h := MulHash(key, cap);
      var idx := Cell(h, dist, cap);
      ghost var t, hops := buckets[..], hopInfo[..];
      WriteKeeps(t, idx, key, value);
      PutSound(t, hops, key, value, dist);
      if exact && dist < WordBits {
        PutVisible(t, hops, key, value, dist);
        PutStores(t, contents, key, value, idx);
      }
      buckets[idx] := Occupied(key, value);
      hopInfo[h] := Or(hopInfo[h], Shl1(dist));
      assert buckets[..] == t[idx := Occupied(key, value)];
      assert hopInfo[..] == hops[h := Or(hops[h], Shl1(dist))];
      size := size + 1;
      contents := contents[key := value];
      exact := exact && dist < WordBits;
    }

    /** Delete's write when the walk found `key` at offset `off`: the slot
        is no longer in use and bit `off` of the home's word is cleared. */
    method Clear(key: int, off: nat)
      requires Valid()
      requires var h := MulHash(key, cap);
               Bit(hopInfo[h], off) && HoldsKey(buckets[..], Cell(h, off, cap), key)
      modifies this`size, this`contents, buckets, hopInfo
      ensures Valid()
      ensures var h := MulHash(key, cap);
              var t, hops := old(buckets[..]), old(hopInfo[..]);
              && buckets[..] == t[Cell(h, off, cap) := Empty]
              && hopInfo[..] == hops[h := AndNot(hops[h], Shl1(off))]
      ensures size == old(size) - 1 && contents == old(contents) - {key}
      ensures Keys(buckets[..], cap) <= old(Keys(buckets[..], cap))
      ensures old(Keys(buckets[..], cap)) - {key} <= Keys(buckets[..], cap)
    {
      var h := MulHash(key, cap);
      var idx := Cell(h, off, cap);
      ghost var t, hops := buckets[..], hopInfo[..];
      ClearSound(t, hops, key, off);
      if exact {
        ClearExact(t, hops, contents, key, off);
      }
      buckets[idx] := Empty;
      hopInfo[h] := AndNot(hopInfo[h], Shl1(off));
      assert buckets[..] == t[idx := Empty];
      assert hopInfo[..] == hops[h := AndNot(hops[h], Shl1(off))];
      size := size - 1;
      contents := contents - {key};
    }

    /** `Get`: walk the home's word; the value of the slot found, if any. */
    method Get(key: int) returns (r: Option<V>)
      requires Valid()
      modifies this`probes
      ensures var h := MulHash(key, cap);
              var s := Scan(buckets[..], h, key, hopInfo[h]);
              && r == (if s.at.Some? then Some(buckets[Cell(h, s.at.value, cap)].value) else None)
              && probes == old(probes) + s.probes
      ensures r.Some? ==> Occupied(key, r.value) in buckets[..]
      ensures exact ==> r == (if key in contents then Some(contents[key]) else None)
    {
      var h := MulHash(key, cap);
      if exact {
        Lookup(buckets[..], hopInfo[..], contents, key);
      }
      var at, visited := Find(key, h);
      probes := probes + visited;
      if at.Some? {
        var idx := Cell(h, at.value, cap);
        r := Some(buckets[idx].value);
        assert buckets[..][idx] == Occupied(key, r.value);
      } else {
        r := None;
      }
    }

    /** `Delete`: walk the home's word; a found slot is emptied and its bit
        cleared. (Go's guard against an empty bucket array never fires: the
        capacity is at least 8.) */
    method Delete(key: int)
      requires Valid()
      modifies this`probes, this`size, this`contents, buckets, hopInfo
      ensures Valid() && contents == old(contents) - {key} && exact == old(exact)
      ensures var h := MulHash(key, cap);
              var t, hops := old(buckets[..]), old(hopInfo[..]);
              var s := Scan(t, h, key, hops[h]);
              probes == old(probes) + s.probes
      ensures var h := MulHash(key, cap);
              var t, hops := old(buckets[..]), old(hopInfo[..]);
              var s := Scan(t, h, key, hops[h]);
              s.at.Some? ==>
                && buckets[..] == t[Cell(h, s.at.value, cap) := Empty]
                && hopInfo[..] == hops[h := AndNot(hops[h], Shl1(s.at.value))]
                && size == old(size) - 1
      ensures var h := MulHash(key, cap);
              var s := Scan(old(buckets[..]), h, key, old(hopInfo[h]));
              s.at.None? ==>
                buckets[..] == old(buckets[..]) && hopInfo[..] == old(hopInfo[..]) && size == old(size)
      ensures Keys(buckets[..], cap) <= old(Keys(buckets[..], cap))
      ensures old(Keys(buckets[..], cap)) - {key} <= Keys(buckets[..], cap)
    {
      var h := MulHash(key, cap);
      if exact {
        Lookup(buckets[..], hopInfo[..], contents, key);
      }
      var at, visited := Find(key, h);
      probes := probes + visited;
      if at.Some? {
        Clear(key, at.value);
      } else {
        assert exact ==> contents - {key} == contents;
        contents := contents - {key};
      }
    }
  
    /** Insert once any resize for the load factor is done: walk the home's
        word for the key and replace its value, or else place it as new. */
    method InsertHere(key: int, value: V) returns (o: Outcome)
      requires Valid()
      modifies this, buckets, hopInfo
      decreases MaxInt - cap, 4
      ensures Valid() && lfNum == old(lfNum) && lfDen == old(lfDen) && cap >= old(cap)
      ensures (buckets == old(buckets) || fresh(buckets)) && (hopInfo == old(hopInfo) || fresh(hopInfo))
      ensures contents == old(contents)[key := value] && (exact ==> old(exact))
      ensures o == Returned ==> Occupied(key, value) in buckets[..]
      ensures o == Returned ==> Keys(buckets[..], cap) == old(Keys(buckets[..], cap)) + {key}
      ensures o == Returned ==> InsertKeeps(old(buckets[..]), buckets[..], key, value)
      ensures o == Panicked ==> cap > MaxInt / 2
      ensures var t, hops := old(buckets[..]), old(hopInfo[..]);
              var plan := PlanOf(t, hops, key);
              !plan.Grow? ==>
                && o == Returned && cap == old(cap) && buckets == old(buckets) && hopInfo == old(hopInfo)
                && buckets[..] == SlotsAfter(t, hops, key, value) && hopInfo[..] == HopsAfter(t, hops, key)
                && size == old(size) + (if plan.Place? then 1 else 0)
                && exact == (old(exact) && (plan.Place? ==> plan.dist < WordBits))
      ensures var t, hops := old(buckets[..]), old(hopInfo[..]);
              var h := MulHash(key, old(cap));
              PlanOf(t, hops, key).Overwrite? ==>
                && probes == old(probes) + 1 + Scan(t, h, key, hops[h]).probes
                && collisions == old(collisions) && withCollision == old(withCollision)
      ensures var t, hops := old(buckets[..]), old(hopInfo[..]);
              var h := MulHash(key, old(cap));
              var plan := PlanOf(t, hops, key);
              var hit := old(withCollision) && t[h].Occupied?;
              plan.Place? ==>
                && probes == old(probes) + 1 + Scan(t, h, key, hops[h]).probes + FreeProbes(plan.dist)
                && collisions == old(collisions) + (if hit then 1 else 0)
                && withCollision == (old(withCollision) && !hit)
      ensures PlanOf(old(buckets[..]), old(hopInfo[..]), key).Grow? && o == Returned ==>
                cap > old(cap) && withCollision
    {
      var h := MulHash(key, cap);
      ghost var t, hops := buckets[..], hopInfo[..];
      var at, visited := Find(key, h);
      probes := probes + 1 + visited;
      if at.Some? {
        assert PlanOf(t, hops, key) == Overwrite(at.value);
        assert SlotsAfter(t, hops, key, value) == t[Cell(h, at.value, cap) := Occupied(key, value)];
        assert HopsAfter(t, hops, key) == hops;
        Refresh(key, value, at.value);
        assert key in Keys(t, cap) by {
          assert t[Cell(h, at.value, cap)].key == key;
        }
        return Returned;
      }
      if exact {
        Absent(t, hops, key);
      }
      o := InsertNew(key, value, h);
    }

    /** Insert of a key the walk did not find: count a collision if home is
        taken (once per latch), take the first free slot of the 256 from
        home, and grow when there is none or it is 64 or more slots away. */
    method InsertNew(key: int, value: V, h: nat) returns (o: Outcome)
      requires Valid() && h == MulHash(key, cap) && (exact ==> !Present(buckets[..], key))
      modifies this, buckets, hopInfo
      decreases MaxInt - cap, 3
      ensures Valid() && lfNum == old(lfNum) && lfDen == old(lfDen) && cap >= old(cap)
      ensures (buckets == old(buckets) || fresh(buckets)) && (hopInfo == old(hopInfo) || fresh(hopInfo))
      ensures contents == old(contents)[key := value] && (exact ==> old(exact))
      ensures o == Returned ==> Occupied(key, value) in buckets[..]
      ensures o == Returned ==> Keys(buckets[..], cap) == old(Keys(buckets[..], cap)) + {key}
      ensures o == Returned ==> InsertKeeps(old(buckets[..]), buckets[..], key, value)
      ensures o == Panicked ==> cap > MaxInt / 2
      ensures var t, hops := old(buckets[..]), old(hopInfo[..]);
              var d := FreeFrom(t, h, 0);
              d < NeighbourhoodSize ==>
                && o == Returned && cap == old(cap) && buckets == old(buckets) && hopInfo == old(hopInfo)
                && buckets[..] == t[Cell(h, d, cap) := Occupied(key, value)]
                && hopInfo[..] == hops[h := Or(hops[h], Shl1(d))]
                && size == old(size) + 1 && exact == (old(exact) && d < WordBits)
      ensures var t := old(buckets[..]);
              var d := FreeFrom(t, h, 0);
              var hit := old(withCollision) && t[h].Occupied?;
              d < NeighbourhoodSize ==>
                && probes == old(probes) + FreeProbes(d)
                && collisions == old(collisions) + (if hit then 1 else 0)
                && withCollision == (old(withCollision) && !hit)
      ensures FreeFrom(old(buckets[..]), h, 0) >= NeighbourhoodSize && o == Returned ==>
                cap > old(cap) && withCollision
    {
      var dist, looked := SeekFree(h);
      // The latch: a taken home counts one collision, then no more until
      // a resize path rearms it.
      var hit := buckets[h].Occupied? && withCollision;
      probes, collisions := probes + looked, collisions + (if hit then 1 else 0);
      withCollision := withCollision && !hit;
      o := Settle(key, value, h, dist);
    }

    /** The rest of InsertNew once the free-slot search has ended `dist`
        slots from home: grow when it found nothing or found it too far to
        move closer, else place the pair there. */
    method Settle(key: int, value: V, h: nat, dist: nat) returns (o: Outcome)
      requires Valid() && h == MulHash(key, cap) && (exact ==> !Present(buckets[..], key))
      requires dist == FreeFrom(buckets[..], h, 0)
      modifies this, buckets, hopInfo
      decreases MaxInt - cap, 2
      ensures Valid() && lfNum == old(lfNum) && lfDen == old(lfDen) && cap >= old(cap)
      ensures (buckets == old(buckets) || fresh(buckets)) && (hopInfo == old(hopInfo) || fresh(hopInfo))
      ensures contents == old(contents)[key := value] && (exact ==> old(exact))
      ensures o == Returned ==> Occupied(key, value) in buckets[..]
      ensures o == Returned ==> Keys(buckets[..], cap) == old(Keys(buckets[..], cap)) + {key}
      ensures o == Returned ==> InsertKeeps(old(buckets[..]), buckets[..], key, value)
      ensures o == Panicked ==> cap > MaxInt / 2
      ensures var t, hops := old(buckets[..]), old(hopInfo[..]);
              dist < NeighbourhoodSize ==>
                && o == Returned && cap == old(cap) && buckets == old(buckets) && hopInfo == old(hopInfo)
                && buckets[..] == t[Cell(h, dist, cap) := Occupied(key, value)]
                && hopInfo[..] == hops[h := Or(hops[h], Shl1(dist))]
                && size == old(size) + 1 && exact == (old(exact) && dist < WordBits)
                && probes == old(probes) && collisions == old(collisions) && withCollision == old(withCollision)
      ensures dist >= NeighbourhoodSize && o == Returned ==> cap > old(cap) && withCollision
    {
      ghost var t, hops := buckets[..], hopInfo[..];
      if dist == MaxDistance {
        o := Retry(key, value);
        return;
      }
      FreeWithin(t, h, 0);
      var free := Cell(h, dist, cap);
      if dist >= NeighbourhoodSize {
        // The move step looks for a word `hopDist` slots before `free` with
        // bit `hopDist` set; that bit would flag `free` itself, which is
        // free, so the search always ends with no candidate.
        var hopDist := Candidate(free);
        NoCandidate(t, hops, free);
        assert hopInfo[Wrap(free - hopDist, cap)] == hops[Wrap(free - hopDist, cap)];
        assert hopDist == 0;
        o := Retry(key, value);
        return;
      }
      Put(key, value, dist);
      assert buckets[..][free] == Occupied(key, value);
      return Returned;
    }

    /** Insert's fallback: resize, insert again, and rearm the collision
        latch. */
    method Retry(key: int, value: V) returns (o: Outcome)
      requires Valid()
      modifies this
      decreases MaxInt - cap, 1
      ensures Valid() && lfNum == old(lfNum) && lfDen == old(lfDen) && cap >= old(cap)
      ensures (buckets == old(buckets) || fresh(buckets)) && (hopInfo == old(hopInfo) || fresh(hopInfo))
      ensures contents == old(contents)[key := value] && (exact ==> old(exact))
      ensures o == Returned ==> Occupied(key, value) in buckets[..]
      ensures o == Returned ==> Keys(buckets[..], cap) == old(Keys(buckets[..], cap)) + {key}
      ensures o == Returned ==> InsertKeeps(old(buckets[..]), buckets[..], key, value)
      ensures o == Panicked ==> cap > MaxInt / 2
      ensures o == Returned ==> cap > old(cap) && withCollision
    {
      ghost var t0 := buckets[..];
      o := Resize();
      if o == Panicked {
        contents := contents[key := value];
        exact := false;
        return;
      }
      ghost var t1 := buckets[..];
      o := Insert(key, value);
      if o == Returned {
        RebuildThenInsert(t0, t1, buckets[..], key, value);
        withCollision := true;
      }
    }

    /** `Insert`: resize first when the load factor is reached. */
    method Insert(key: int, value: V) returns (o: Outcome)
      requires Valid()
      modifies this, buckets, hopInfo
      decreases MaxInt - cap, 5
      ensures Valid() && lfNum == old(lfNum) && lfDen == old(lfDen) && cap >= old(cap)
      ensures (buckets == old(buckets) || fresh(buckets)) && (hopInfo == old(hopInfo) || fresh(hopInfo))
      ensures contents == old(contents)[key := value] && (exact ==> old(exact))
      ensures o == Returned ==> Occupied(key, value) in buckets[..]
      ensures o == Returned ==> Keys(buckets[..], cap) == old(Keys(buckets[..], cap)) + {key}
      ensures o == Returned ==> InsertKeeps(old(buckets[..]), buckets[..], key, value)
      ensures o == Panicked ==> cap > MaxInt / 2
      ensures var t, hops := old(buckets[..]), old(hopInfo[..]);
              var plan := PlanOf(t, hops, key);
              !old(NeedsResize()) && !plan.Grow? ==>
                && o == Returned && cap == old(cap) && buckets == old(buckets) && hopInfo == old(hopInfo)
                && buckets[..] == SlotsAfter(t, hops, key, value) && hopInfo[..] == HopsAfter(t, hops, key)
                && size == old(size) + (if plan.Place? then 1 else 0)
                && exact == (old(exact) && (plan.Place? ==> plan.dist < WordBits))
      ensures var t, hops := old(buckets[..]), old(hopInfo[..]);
              var h := MulHash(key, old(cap));
              !old(NeedsResize()) && PlanOf(t, hops, key).Overwrite? ==>
                && probes == old(probes) + 1 + Scan(t, h, key, hops[h]).probes
                && collisions == old(collisions) && withCollision == old(withCollision)
      ensures var t, hops := old(buckets[..]), old(hopInfo[..]);
              var h := MulHash(key, old(cap));
              var plan := PlanOf(t, hops, key);
              var hit := old(withCollision) && t[h].Occupied?;
              !old(NeedsResize()) && plan.Place? ==>
                && probes == old(probes) + 1 + Scan(t, h, key, hops[h]).probes + FreeProbes(plan.dist)
                && collisions == old(collisions) + (if hit then 1 else 0)
                && withCollision == (old(withCollision) && !hit)
    {
      ghost var t0 := buckets[..];
      if NeedsResize() {
        o := Resize();
        if o == Panicked {
          contents := contents[key := value];
          exact := false;
          return;
        }
      } else {
        assert RebuildKeeps(t0, t0);
      }
      ghost var t1 := buckets[..];
      o := InsertHere(key, value);
      if o == Returned {
        RebuildThenInsert(t0, t1, buckets[..], key, value);
      }
    }

    /** `resize`: double the capacity, reinsert every slot in use in order,
        and restore the collision count. Doubling past `int` panics. */
    method Resize() returns (o: Outcome)
      requires Valid()
      modifies this
      decreases MaxInt - cap, 0
      ensures Valid() && lfNum == old(lfNum) && lfDen == old(lfDen) && cap >= old(cap)
      ensures (buckets == old(buckets) || fresh(buckets)) && (hopInfo == old(hopInfo) || fresh(hopInfo))
      ensures contents == old(contents) && (exact ==> old(exact))
      ensures o == Panicked ==> cap > MaxInt / 2
      ensures o == Returned ==> cap >= 2 * old(cap) && collisions == old(collisions)
      ensures o == Returned ==> Keys(buckets[..], cap) == old(Keys(buckets[..], cap))
      ensures o == Returned ==> RebuildKeeps(old(buckets[..]), buckets[..])
      ensures o == Returned && Unique(old(buckets[..])) ==> KeepsAll(old(buckets[..]), buckets[..])
    {
      if cap > MaxInt / 2 {
        return Panicked;
      }
      ghost var m0, e0 := contents, exact;
      var oldCollision := collisions;
      var old_ := Regrow();
      o := ReinsertAll(old_);
      assert old_[..] == old(buckets[..]);
      if o == Panicked {
        contents, exact := m0, false;
        return;
      }
      RebuildKeepsAll(old_[..], buckets[..]);
      if e0 && exact {
        StoresView(old_[..], m0);
      }
      collisions, contents, exact := oldCollision, m0, e0 && exact;
    }

    /** The start of `resize`: fresh, empty arrays of twice the capacity. */
    method Regrow() returns (old_: array<Slot<V>>)
      requires Valid() && cap <= MaxInt / 2
      modifies this
      ensures Valid() && old_ == old(buckets) && fresh(buckets) && fresh(hopInfo) && cap == 2 * old(cap)
      ensures lfNum == old(lfNum) && lfDen == old(lfDen) && collisions == old(collisions)
      ensures contents == map[] && Keys(buckets[..], cap) == {} && DrawnFrom(buckets[..], [])
    {
      old_ := buckets;
      var capacity := cap * 2;
      DoubleIsPow2(cap);
      var b := new Slot<V>[capacity](_ => Empty);
      var w := new nat[capacity](_ => 0);
      Blank(b[..], w[..]);
      buckets, hopInfo, size, cap, contents, exact := b, w, 0, capacity, map[], true;
    }

    /** The loop of `resize`: insert the pair of every slot of `old_` in use,
        in slot order, into this table. */
    method ReinsertAll(old_: array<Slot<V>>) returns (o: Outcome)
      requires Valid() && old_ != buckets && contents == map[] && Keys(buckets[..], cap) == {}
      requires DrawnFrom(buckets[..], [])
      modifies this, buckets, hopInfo
      decreases MaxInt - cap, 7
      ensures Valid() && lfNum == old(lfNum) && lfDen == old(lfDen) && cap >= old(cap)
      ensures (buckets == old(buckets) || fresh(buckets)) && (hopInfo == old(hopInfo) || fresh(hopInfo))
      ensures exact ==> old(exact)
      ensures o == Panicked ==> cap > MaxInt / 2
      ensures o == Returned ==> contents == OccupiedMap(old_[..]) && Keys(buckets[..], cap) == Keys(old_[..], old_.Length)
      ensures o == Returned ==> RebuildKeeps(old_[..], buckets[..])
    {
      var b := 0;
      o := Returned;
      assert old_[..0] == [];
      while b < old_.Length
        invariant 0 <= b <= old_.Length && old_ != buckets && o == Returned
        invariant Valid() && lfNum == old(lfNum) && lfDen == old(lfDen) && cap >= old(cap)
        invariant (buckets == old(buckets) || fresh(buckets)) && (hopInfo == old(hopInfo) || fresh(hopInfo))
        invariant exact ==> old(exact)
        invariant Rebuilt(old_, b)
      {
        o := ReinsertNext(old_, b);
        if o == Panicked {
          return;
        }
        b := b + 1;
      }
      assert old_[..b] == old_[..];
    }

    /** Where `resize`'s loop stands once the slots of `old_` below `b` are
        reinserted: the map and the keys of that prefix, every pair drawn
        from it, and every pair `old_` holds alone in it still held. */
    ghost predicate Rebuilt(old_: array<Slot<V>>, b: nat)
      reads this, buckets, old_
    {
      && b <= old_.Length
      && contents == OccupiedMap(old_[..b]) && Keys(buckets[..], buckets.Length) == Keys(old_[..], b)
      && DrawnFrom(buckets[..], old_[..b])
      && forall i :: 0 <= i < b && Lone(old_[..], i) ==> old_[i] in buckets[..]
    }

    /** One pass of `resize`'s loop: insert the pair of slot `b` of `old_`,
        if it is in use. */
    method ReinsertNext(old_: array<Slot<V>>, b: nat) returns (o: Outcome)
      requires Valid() && old_ != buckets && b < old_.Length && Rebuilt(old_, b)
      modifies this, buckets, hopInfo
      decreases MaxInt - cap, 6
      ensures Valid() && lfNum == old(lfNum) && lfDen == old(lfDen) && cap >= old(cap)
      ensures (buckets == old(buckets) || fresh(buckets)) && (hopInfo == old(hopInfo) || fresh(hopInfo))
      ensures exact ==> old(exact)
      ensures o == Panicked ==> cap > MaxInt / 2
      ensures o == Returned ==> old_ != buckets && Rebuilt(old_, b + 1)
    {
      ghost var t := old_[..];
      KeysNext(t, b);
      assert t[..b + 1][..b] == t[..b];
      o := Returned;
      if old_[b].Occupied? {
        ghost var cur := buckets[..];
        o := Insert(old_[b].key, old_[b].value);
        if o == Panicked {
          return;
        }
        ReinsertStep(t, b, cur, buckets[..]);
      } else {
        DrawnFromLonger(buckets[..], t, b);
      }
    }
  }
}
