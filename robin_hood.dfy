/** Robin hood hashing (robin_hood/robin_hood.go): linear probing over one
    slot array. Insert carries an entry forward from the key's home slot and
    swaps it with any resident that sits closer to its own home than the
    carried entry does, until it reaches an empty slot, a tombstone or the
    key itself; Get and Delete stop early at a resident closer to home than
    the distance walked. Each walk is modelled by a pure function on the
    slot sequence (Settle, Seek) that the methods are proved against.
    Without tombstones the table keeps the robin hood order (Ordered) and
    represents a map; Insert writes into the first tombstone it meets
    without looking further, which can leave a key twice, and the lemmas at
    the end of the module show the stale value that then comes back. */
module RobinHood {
  import opened Common
  import opened Slots

  /** Go's `(idx + 1) & (cap - 1)`: the next slot, wrapping around. */
  function Step(idx: nat, cap: nat): (r: nat)
    requires cap > 0
    ensures r < cap
  {
    AndAtMost(idx + 1, cap - 1);
    And(idx + 1, cap - 1)
  }

  /** Go's `(idx - home) & (cap - 1)`: how far `idx` lies past `home`. The
      difference may be negative; its two's-complement AND with the mask
      keeps the low bits, which adding `cap` leaves as they are, so the
      mask is taken of the natural number `idx + cap - home`. */
  function Displacement(idx: nat, home: nat, cap: nat): (r: nat)
    requires idx < cap && home < cap
    ensures r < cap
  {
    AndAtMost(idx + cap - home, cap - 1);
    And(idx + cap - home, cap - 1)
  }

  /** The slot `j` steps past `h`, wrapping around the end of the table. */
  function Ahead(h: nat, j: nat, n: nat): (r: nat)
    requires h < n && j <= n
    ensures r < n
  {
    if h + j < n then h + j else h + j - n
  }

  /** The next slot is one further, or the first after the last. */
  lemma StepNext(idx: nat, n: nat)
    requires IsPow2(n) && idx < n
    ensures Step(idx, n) == if idx + 1 < n then idx + 1 else 0
  {
    MaskIsMod(idx + 1, n);
    if idx + 1 < n {
      DivModUnique(idx + 1, n, 0, idx + 1);
    } else {
      DivModUnique(idx + 1, n, 1, 0);
    }
  }

  lemma DisplacementIs(idx: nat, home: nat, n: nat)
    requires IsPow2(n) && idx < n && home < n
    ensures Displacement(idx, home, n) == if idx >= home then idx - home else idx + n - home
  {
    MaskIsMod(idx + n - home, n);
    if idx >= home {
      DivModUnique(idx + n - home, n, 1, idx - home);
    } else {
      DivModUnique(idx + n - home, n, 0, idx + n - home);
    }
  }

  /** One step from `j` steps past `h` is `j + 1` steps past it. */
  lemma AheadStep(h: nat, j: nat, n: nat)
    requires IsPow2(n) && h < n && j < n
    ensures Step(Ahead(h, j, n), n) == Ahead(h, j + 1, n)
  {
    StepNext(Ahead(h, j, n), n);
  }

  /** `d` steps from the next slot are `d + 1` steps from this one. */
  lemma AheadShift(idx: nat, d: nat, n: nat)
    requires IsPow2(n) && idx < n && d < n
    ensures Ahead(Step(idx, n), d, n) == Ahead(idx, d + 1, n)
  {
    StepNext(idx, n);
  }

  /** The slot `j < n` steps past `h` lies `j` past `h`. */
  lemma AheadDisplacement(h: nat, j: nat, n: nat)
    requires IsPow2(n) && h < n && j < n
    ensures Displacement(Ahead(h, j, n), h, n) == j
  {
    DisplacementIs(Ahead(h, j, n), h, n);
  }

  /** Walking a slot's displacement from `h` lands on the slot. */
  lemma DisplacementAhead(s: nat, h: nat, n: nat)
    requires IsPow2(n) && s < n && h < n
    ensures Ahead(h, Displacement(s, h, n), n) == s
  {
    DisplacementIs(s, h, n);
  }

  // ---------------------------------------------------------------------
  // Runs of slots

  /** The slots a walk passes without stopping: occupied slots for the
      Insert walk, tombstones for the second lap of the Delete walk. */
  predicate Passes<V>(s: Slot<V>, tombs: bool)
  {
    if tombs then s.Tombstone? else s.Occupied?
  }

  /** The first `d' >= d` such that the slot `d'` past `idx` does not pass,
      or `|t|` when all of them pass. */
  function Run<V>(t: seq<Slot<V>>, idx: nat, tombs: bool, d: nat): (r: nat)
    requires idx < |t| && d <= |t|
    ensures d <= r <= |t|
    decreases |t| - d
  {
    if d == |t| then |t|
    else if !Passes(t[Ahead(idx, d, |t|)], tombs) then d
    else Run(t, idx, tombs, d + 1)
  }

  /** How many passing slots lie ahead of `idx` before one that stops the
      walk; `|t|` when there is none. */
  function Gap<V>(t: seq<Slot<V>>, idx: nat, tombs: bool): (r: nat)
    requires idx < |t|
    ensures r <= |t|
  {
    Run(t, idx, tombs, 0)
  }

  lemma {:induction false} RunStep<V>(t: seq<Slot<V>>, idx: nat, tombs: bool, d: nat)
    requires IsPow2(|t|) && idx < |t| && d < |t| && Run(t, idx, tombs, d + 1) < |t|
    ensures Run(t, Step(idx, |t|), tombs, d) == Run(t, idx, tombs, d + 1) - 1
    decreases |t| - d
  {
    AheadShift(idx, d, |t|);
    if Passes(t[Ahead(idx, d + 1, |t|)], tombs) {
      RunStep(t, idx, tombs, d + 1);
    }
  }

  /** Passing one slot brings the stopping slot one step closer. */
  lemma GapStep<V>(t: seq<Slot<V>>, idx: nat, tombs: bool)
    requires IsPow2(|t|) && idx < |t| && Passes(t[idx], tombs) && Gap(t, idx, tombs) < |t|
    ensures Gap(t, Step(idx, |t|), tombs) == Gap(t, idx, tombs) - 1
  {
    RunStep(t, idx, tombs, 0);
  }

  lemma {:induction false} RunUpdate<V>(t: seq<Slot<V>>, i: nat, s: Slot<V>, idx: nat, tombs: bool, d: nat)
    requires idx < |t| && i < |t| && d <= |t| && Passes(t[i], tombs) == Passes(s, tombs)
    ensures Run(t[i := s], idx, tombs, d) == Run(t, idx, tombs, d)
    decreases |t| - d
  {
    if d < |t| {
      RunUpdate(t, i, s, idx, tombs, d + 1);
    }
  }

  /** Replacing a slot by one that passes alike keeps every gap. */
  lemma GapUpdate<V>(t: seq<Slot<V>>, i: nat, s: Slot<V>, idx: nat, tombs: bool)
    requires idx < |t| && i < |t| && Passes(t[i], tombs) == Passes(s, tombs)
    ensures Gap(t[i := s], idx, tombs) == Gap(t, idx, tombs)
  {
    RunUpdate(t, i, s, idx, tombs, 0);
  }

  lemma {:induction false} RunBound<V>(t: seq<Slot<V>>, idx: nat, tombs: bool, d: nat, o: nat)
    requires idx < |t| && d <= o < |t| && !Passes(t[Ahead(idx, o, |t|)], tombs)
    ensures Run(t, idx, tombs, d) <= o
    decreases o - d
  {
    if d < o && Passes(t[Ahead(idx, d, |t|)], tombs) {
      RunBound(t, idx, tombs, d + 1, o);
    }
  }

  /** One slot that stops the walk bounds the gap from anywhere. */
  lemma GapFree<V>(t: seq<Slot<V>>, s: nat, idx: nat, tombs: bool)
    requires IsPow2(|t|) && s < |t| && idx < |t| && !Passes(t[s], tombs)
    ensures Gap(t, idx, tombs) < |t|
  {
    DisplacementAhead(s, idx, |t|);
    RunBound(t, idx, tombs, 0, Displacement(s, idx, |t|));
  }

  /** Some slot is not a tombstone: the Delete walk then ends. */
  ghost predicate Live<V>(t: seq<Slot<V>>)
  {
    exists s :: 0 <= s < |t| && !t[s].Tombstone?
  }

  lemma LiveGap<V>(t: seq<Slot<V>>, idx: nat)
    requires IsPow2(|t|) && idx < |t| && Live(t)
    ensures Gap(t, idx, true) < |t|
  {
    var s :| 0 <= s < |t| && !t[s].Tombstone?;
    GapFree(t, s, idx, true);
  }

  // ---------------------------------------------------------------------
  // The Insert walk

  /** Where the Insert walk ends: the table it leaves, the probes it made
      and whether it filled a slot that was not occupied. */
  datatype Landing<V> = Landing(table: seq<Slot<V>>, probes: nat, grew: bool)

  /** The loop of `Insert` from slot `idx`, carrying `key`/`value` at
      distance `dist` from the carried key's home: an empty slot or a
      tombstone takes the carried pair; a slot holding the carried key gets
      its value; a resident closer to its home than `dist` is swapped out
      and carried on at its own distance; the walk then steps on. */
  function Settle<V>(t: seq<Slot<V>>, key: int, value: V, idx: nat, dist: nat): (r: Landing<V>)
    requires IsPow2(|t|) && idx < |t| && Gap(t, idx, false) < |t|
    ensures |r.table| == |t| && r.probes >= 1
    decreases Gap(t, idx, false)
  {
    match t[idx]
    case Occupied(k, v) =>
      if k == key then Landing(t[idx := Occupied(k, value)], 1, false)
      else
        GapStep(t, idx, false);
        GapUpdate(t, idx, Occupied(key, value), Step(idx, |t|), false);
        var e := Displacement(idx, MulHash(k, |t|), |t|);
        var r := if e < dist then Settle(t[idx := Occupied(key, value)], k, v, Step(idx, |t|), e + 1)
                 else Settle(t, key, value, Step(idx, |t|), dist + 1);
        r.(probes := r.probes + 1)
    case _ => Landing(t[idx := Occupied(key, value)], 1, true)
  }

  /** The home slot of `key` holds another key: the one collision an
      Insert counts (a walk that goes on always passes its home slot
      first). */
  predicate Collides<V>(t: seq<Slot<V>>, key: int)
    requires |t| > 0
  {
    var s := t[MulHash(key, |t|)];
    s.Occupied? && s.key != key
  }

  /** An Insert walk makes at most one probe more than the occupied slots
      ahead of it: with a free slot somewhere, at most `cap` probes. */
  lemma {:induction false} SettleProbes<V>(t: seq<Slot<V>>, key: int, value: V, idx: nat, dist: nat)
    requires IsPow2(|t|) && idx < |t| && Gap(t, idx, false) < |t|
    ensures Settle(t, key, value, idx, dist).probes <= Gap(t, idx, false) + 1 <= |t|
    decreases Gap(t, idx, false)
  {
    if t[idx].Occupied? && t[idx].key != key {
      GapStep(t, idx, false);
      var k := t[idx].key;
      var e := Displacement(idx, MulHash(k, |t|), |t|);
      if e < dist {
        GapUpdate(t, idx, Occupied(key, value), Step(idx, |t|), false);
        SettleProbes(t[idx := Occupied(key, value)], k, t[idx].value, Step(idx, |t|), e + 1);
      } else {
        SettleProbes(t, key, value, Step(idx, |t|), dist + 1);
      }
    }
  }

  /** The Insert walk adds the key to the table's keys and loses none: the
      carried key changes on a swap, but the keys of the table together
      with the carried one stay the same. */
  lemma {:induction false} SettleKeys<V>(t: seq<Slot<V>>, key: int, value: V, idx: nat, dist: nat)
    requires IsPow2(|t|) && idx < |t| && Gap(t, idx, false) < |t|
    ensures Keys(Settle(t, key, value, idx, dist).table, |t|) == Keys(t, |t|) + {key}
    decreases Gap(t, idx, false)
  {
    if !t[idx].Occupied? || t[idx].key == key {
      KeysPut(t, idx, key, value);
    } else {
      var k := t[idx].key;
      GapStep(t, idx, false);
      var e := Displacement(idx, MulHash(k, |t|), |t|);
      if e < dist {
        KeysPut(t, idx, key, value);
        GapUpdate(t, idx, Occupied(key, value), Step(idx, |t|), false);
        SettleKeys(t[idx := Occupied(key, value)], k, t[idx].value, Step(idx, |t|), e + 1);
      } else {
        SettleKeys(t, key, value, Step(idx, |t|), dist + 1);
      }
    }
  }

  /** The Insert walk fills one more slot exactly when it ends at a slot
      that was not occupied. */
  lemma {:induction false} SettleCount<V>(t: seq<Slot<V>>, key: int, value: V, idx: nat, dist: nat)
    requires IsPow2(|t|) && idx < |t| && Gap(t, idx, false) < |t|
    ensures var r := Settle(t, key, value, idx, dist);
            Count(r.table, |t|) == Count(t, |t|) + (if r.grew then 1 else 0)
    decreases Gap(t, idx, false)
  {
    CountPut(t, idx, Occupied(key, value), |t|);
    if t[idx].Occupied? {
      var k := t[idx].key;
      if k == key {
        CountPut(t, idx, Occupied(k, value), |t|);
      } else {
        GapStep(t, idx, false);
        var e := Displacement(idx, MulHash(k, |t|), |t|);
        if e < dist {
          GapUpdate(t, idx, Occupied(key, value), Step(idx, |t|), false);
          SettleCount(t[idx := Occupied(key, value)], k, t[idx].value, Step(idx, |t|), e + 1);
        } else {
          SettleCount(t, key, value, Step(idx, |t|), dist + 1);
        }
      }
    }
  }

  // ---------------------------------------------------------------------
  // The Get and Delete walk

  /** Where a Get or Delete walk ends: the slot holding the key, or -1, and
      the probes made. */
  datatype Seen = Seen(at: int, probes: nat)

  /** The loop of `Get` (`bounded`) and of `Delete` from slot `idx` at
      distance `dist`: stop at an empty slot, at the key, or at a resident
      closer to its home than `dist`; pass tombstones and farther
      residents; Get also gives up once `dist` exceeds `cap`. Delete has no
      such bound; it ends because past `cap` steps every resident is closer
      to home than `dist`, so only an all-tombstone table keeps it going. */
  function Seek<V>(t: seq<Slot<V>>, key: int, idx: nat, dist: nat, bounded: bool): (r: Seen)
    requires IsPow2(|t|) && idx < |t| && (bounded || Live(t))
    ensures r.at >= 0 ==> r.at < |t| && t[r.at].Occupied? && t[r.at].key == key
    ensures r.probes >= 1
    decreases if dist <= |t| then |t| + 1 - dist else 0, if bounded then 0 else Gap(t, idx, true)
  {
    var s := t[idx];
    if s.Empty? then Seen(-1, 1)
    else if s.Occupied? && s.key == key then Seen(idx, 1)
    else if s.Occupied? && Displacement(idx, MulHash(s.key, |t|), |t|) < dist then Seen(-1, 1)
    else if bounded && dist + 1 > |t| then Seen(-1, 1)
    else
      SeekGap(t, idx, bounded);
      var r := Seek(t, key, Step(idx, |t|), dist + 1, bounded);
      Seen(r.at, r.probes + 1)
  }

  /** The Delete walk's second measure: the tombstones ahead, one fewer
      after passing one. */
  lemma SeekGap<V>(t: seq<Slot<V>>, idx: nat, bounded: bool)
    requires IsPow2(|t|) && idx < |t| && (bounded || Live(t))
    ensures !bounded ==> Gap(t, idx, true) < |t|
    ensures !bounded && t[idx].Tombstone? ==> Gap(t, Step(idx, |t|), true) == Gap(t, idx, true) - 1
  {
    if !bounded {
      LiveGap(t, idx);
      if t[idx].Tombstone? {
        GapStep(t, idx, true);
      }
    }
  }

  /** Get makes at most `cap + 1` probes. */
  lemma {:induction false} SeekBound<V>(t: seq<Slot<V>>, key: int, idx: nat, dist: nat)
    requires IsPow2(|t|) && idx < |t| && dist <= |t|
    ensures Seek(t, key, idx, dist, true).probes <= |t| + 1 - dist
    decreases |t| - dist
  {
    var s := t[idx];
    if !s.Empty? && !(s.Occupied? && s.key == key)
       && !(s.Occupied? && Displacement(idx, MulHash(s.key, |t|), |t|) < dist) && dist + 1 <= |t| {
      SeekBound(t, key, Step(idx, |t|), dist + 1);
    }
  }

  lemma {:induction false} RunStops<V>(t: seq<Slot<V>>, idx: nat, tombs: bool, d: nat)
    requires idx < |t| && d <= |t| && Run(t, idx, tombs, d) < |t|
    ensures !Passes(t[Ahead(idx, Run(t, idx, tombs, d), |t|)], tombs)
    decreases |t| - d
  {
    if d < |t| && Passes(t[Ahead(idx, d, |t|)], tombs) {
      RunStops(t, idx, tombs, d + 1);
    }
  }

  // ---------------------------------------------------------------------
  // The robin hood order

  /** How far the occupied slot `p` lies past its key's home. */
  function Disp<V>(t: seq<Slot<V>>, p: nat): nat
    requires p < |t| && t[p].Occupied?
  {
    Displacement(p, MulHash(t[p].key, |t|), |t|)
  }

  /** A walk `j` steps from its home goes on past slot `s`: a tombstone, or
      a resident at least `j` past its own home. */
  predicate Passable<V>(t: seq<Slot<V>>, s: nat, j: nat)
    requires s < |t|
  {
    t[s].Tombstone? || (t[s].Occupied? && Disp(t, s) >= j)
  }

  /** The first `d` slots from `h` are each passable at their step. */
  ghost predicate Path<V>(t: seq<Slot<V>>, h: nat, d: nat)
    requires h < |t| && d <= |t|
  {
    forall j {:trigger Passable(t, Ahead(h, j, |t|), j)} :: 0 <= j < d ==> Passable(t, Ahead(h, j, |t|), j)
  }

  /** The walk from the home of the key in slot `p` passes every slot
      before `p`. */
  ghost predicate Reaches<V>(t: seq<Slot<V>>, p: nat)
    requires p < |t|
  {
    t[p].Occupied? ==> Path(t, MulHash(t[p].key, |t|), Disp(t, p))
  }

  /** The robin hood order: no key twice, and every key reachable from its
      home past residents that are at least as far from theirs. */
  ghost predicate Ordered<V>(t: seq<Slot<V>>)
  {
    && IsPow2(|t|)
    && Unique(t)
    && forall p {:trigger Reaches(t, p)} :: 0 <= p < |t| ==> Reaches(t, p)
  }

  predicate NoTombs<V>(t: seq<Slot<V>>)
  {
    forall s :: 0 <= s < |t| ==> !t[s].Tombstone?
  }

  lemma PathPut<V>(t: seq<Slot<V>>, i: nat, c: Slot<V>, h: nat, d: nat)
    requires i < |t| && h < |t| && d <= |t| && Path(t, h, d)
    requires forall j {:trigger Passable(t, i, j)} :: Passable(t, i, j) ==> Passable(t[i := c], i, j)
    ensures Path(t[i := c], h, d)
  {
    var u := t[i := c];
    forall j | 0 <= j < d ensures Passable(u, Ahead(h, j, |u|), j) {
      var s := Ahead(h, j, |t|);
      assert Passable(t, s, j);
      if s != i {
        assert u[s] == t[s];
      }
    }
  }

  lemma PathExtend<V>(t: seq<Slot<V>>, h: nat, d: nat)
    requires h < |t| && d < |t| && Path(t, h, d) && Passable(t, Ahead(h, d, |t|), d)
    ensures Path(t, h, d + 1)
  {
  }

  /** Writing `c` into slot `i` keeps the order when the slot stays at least
      as passable, `c` sits at the end of a passable path from its home,
      and no other slot holds its key. */
  lemma OrderedPut<V>(t: seq<Slot<V>>, i: nat, c: Slot<V>)
    requires Ordered(t) && i < |t|
    requires forall j {:trigger Passable(t, i, j)} :: Passable(t, i, j) ==> Passable(t[i := c], i, j)
    requires c.Occupied? ==> Path(t, MulHash(c.key, |t|), Disp(t[i := c], i))
    requires c.Occupied? ==>
               forall p {:trigger t[p]} :: 0 <= p < |t| && p != i && t[p].Occupied? ==> t[p].key != c.key
    ensures Ordered(t[i := c])
  {
    var u := t[i := c];
    forall p | 0 <= p < |u| ensures Reaches(u, p) {
      if u[p].Occupied? {
        if p == i {
          PathPut(t, i, c, MulHash(c.key, |t|), Disp(u, i));
        } else {
          assert Reaches(t, p);
          PathPut(t, i, c, MulHash(t[p].key, |t|), Disp(t, p));
        }
      }
    }
    forall p, q | 0 <= p < |u| && 0 <= q < |u| && SameKey(u, p, q) ensures p == q {
      if p != i && q != i {
        assert SameKey(t, p, q);
      }
    }
  }

  // ---------------------------------------------------------------------
  // Insert keeps the order on a table without tombstones

  /** The state of an Insert walk on an ordered table without tombstones
      that represents `m`: it carries `k` at `idx`, `dist` steps past the
      key's home, along a passable path, and any slot already holding `k`
      lies at least that far ahead. */
  ghost predicate Carrying<V>(t: seq<Slot<V>>, m: map<int, V>, k: int, idx: nat, dist: nat)
  {
    && Ordered(t) && NoTombs(t) && Stores(t, m)
    && idx < |t| && dist < |t| && Gap(t, idx, false) < |t|
    && Displacement(idx, MulHash(k, |t|), |t|) == dist
    && Path(t, MulHash(k, |t|), dist)
    && forall p {:trigger t[p]} :: 0 <= p < |t| && t[p].Occupied? && t[p].key == k ==> Disp(t, p) >= dist
  }

  /** A slot holding the carried key is the current slot, or the current
      slot is a resident at least `dist` from its home. */
  lemma CarriedAhead<V>(t: seq<Slot<V>>, m: map<int, V>, k: int, idx: nat, dist: nat, p: nat)
    requires Carrying(t, m, k, idx, dist) && p < |t| && t[p].Occupied? && t[p].key == k
    ensures p == idx || (t[idx].Occupied? && Disp(t, idx) >= dist)
  {
    var n, h := |t|, MulHash(k, |t|);
    DisplacementAhead(idx, h, n);
    DisplacementAhead(p, h, n);
    assert Reaches(t, p);
    if Disp(t, p) > dist {
      assert Passable(t, Ahead(h, dist, n), dist);
    }
  }

  /** The walk ends in an empty slot: the carried key was not in the map,
      and writing it there keeps the order. */
  lemma FillFree<V>(t: seq<Slot<V>>, m: map<int, V>, k: int, v: V, idx: nat, dist: nat)
    requires Carrying(t, m, k, idx, dist) && !t[idx].Occupied?
    ensures k !in m
    ensures var u := t[idx := Occupied(k, v)];
            Ordered(u) && NoTombs(u) && Stores(u, m[k := v])
  {
    if k in m {
      assert Present(t, k);
      var p :| 0 <= p < |t| && t[p].Occupied? && t[p].key == k;
      CarriedAhead(t, m, k, idx, dist, p);
      assert false;
    }
    var u := t[idx := Occupied(k, v)];
    forall p | 0 <= p < |t| && p != idx && t[p].Occupied? ensures t[p].key != k {
      assert Agrees(t, m, p);
    }
    OrderedPut(t, idx, Occupied(k, v));
    var m' := m[k := v];
    forall p | 0 <= p < |u| ensures Agrees(u, m', p) {
      assert Agrees(t, m, p);
    }
    forall x | x in m' ensures Present(u, x) {
      if x == k {
        assert u[idx].key == k;
      } else {
        assert Present(t, x);
        var p :| 0 <= p < |t| && t[p].Occupied? && t[p].key == x;
        assert u[p] == t[p];
      }
    }
  }

  /** The walk reaches the carried key: its value is replaced in place. */
  lemma Refill<V>(t: seq<Slot<V>>, m: map<int, V>, k: int, v: V, idx: nat, dist: nat)
    requires Carrying(t, m, k, idx, dist) && t[idx].Occupied? && t[idx].key == k
    ensures k in m
    ensures var u := t[idx := Occupied(k, v)];
            Ordered(u) && NoTombs(u) && Stores(u, m[k := v])
  {
    var u := t[idx := Occupied(k, v)];
    assert Agrees(t, m, idx) && Reaches(t, idx);
    forall p | 0 <= p < |t| && p != idx && t[p].Occupied? ensures t[p].key != k {
      assert SameKey(t, p, idx) ==> p == idx;
    }
    OrderedPut(t, idx, Occupied(k, v));
    var m' := m[k := v];
    forall p | 0 <= p < |u| ensures Agrees(u, m', p) {
      assert Agrees(t, m, p);
    }
    forall x | x in m' ensures Present(u, x) {
      assert Present(t, x);
      var p :| 0 <= p < |t| && t[p].Occupied? && t[p].key == x;
      assert u[p].Occupied? && u[p].key == x;
    }
  }

  /** Some slot on the carried key's path stops the Insert walk, so
      passing an occupied slot leaves the distance below `cap`. */
  lemma RoomAhead<V>(t: seq<Slot<V>>, m: map<int, V>, k: int, idx: nat, dist: nat)
    requires Carrying(t, m, k, idx, dist) && t[idx].Occupied?
    ensures dist + 1 < |t|
  {
    var n, h := |t|, MulHash(k, |t|);
    DisplacementAhead(idx, h, n);
    forall j | 0 <= j <= dist ensures t[Ahead(h, j, n)].Occupied? {
      if j < dist {
        assert Passable(t, Ahead(h, j, n), j);
      }
    }
    RunStops(t, idx, false, 0);
    var s := Ahead(idx, Gap(t, idx, false), n);
    DisplacementAhead(s, h, n);
  }

  /** The walk passes a resident at least as far from its home: it goes on
      carrying the same key one step further. */
  lemma PassOn<V>(t: seq<Slot<V>>, m: map<int, V>, k: int, idx: nat, dist: nat)
    requires Carrying(t, m, k, idx, dist) && t[idx].Occupied? && t[idx].key != k
    requires Disp(t, idx) >= dist
    ensures Carrying(t, m, k, Step(idx, |t|), dist + 1)
  {
    var n, h := |t|, MulHash(k, |t|);
    RoomAhead(t, m, k, idx, dist);
    DisplacementAhead(idx, h, n);
    AheadStep(h, dist, n);
    AheadDisplacement(h, dist + 1, n);
    PathExtend(t, h, dist);
    GapStep(t, idx, false);
    forall p | 0 <= p < n && t[p].Occupied? && t[p].key == k ensures Disp(t, p) >= dist + 1 {
      DisplacementAhead(p, h, n);
    }
  }

  /** The walk meets a resident closer to its home than `dist`: the carried
      pair takes its slot and the resident is carried on. */
  lemma SwapOut<V>(t: seq<Slot<V>>, m: map<int, V>, k: int, v: V, idx: nat, dist: nat)
    requires Carrying(t, m, k, idx, dist) && t[idx].Occupied? && t[idx].key != k
    requires Disp(t, idx) < dist
    ensures k !in m && t[idx].key in m
    ensures var u := t[idx := Occupied(k, v)];
            var r := t[idx].key;
            && Carrying(u, m[k := v] - {r}, r, Step(idx, |t|), Disp(t, idx) + 1)
            && (m[k := v] - {r})[r := t[idx].value] == m[k := v]
  {
    var n, h := |t|, MulHash(k, |t|);
    var r, w, e := t[idx].key, t[idx].value, Disp(t, idx);
    var hr := MulHash(r, n);
    if k in m {
      assert Present(t, k);
      var p :| 0 <= p < |t| && t[p].Occupied? && t[p].key == k;
      CarriedAhead(t, m, k, idx, dist, p);
      assert false;
    }
    var u := t[idx := Occupied(k, v)];
    var m' := m[k := v] - {r};
    assert Agrees(t, m, idx) && Reaches(t, idx);
    forall p | 0 <= p < n && p != idx && t[p].Occupied? ensures t[p].key != k && t[p].key != r {
      assert Agrees(t, m, p);
      assert SameKey(t, p, idx) ==> p == idx;
    }
    OrderedPut(t, idx, Occupied(k, v));
    forall p | 0 <= p < n ensures Agrees(u, m', p) {
      assert Agrees(t, m, p);
    }
    forall x | x in m' ensures Present(u, x) {
      if x == k {
        assert u[idx].key == k;
      } else {
        assert Present(t, x);
        var p :| 0 <= p < n && t[p].Occupied? && t[p].key == x;
        assert u[p] == t[p];
      }
    }
    assert m'[r := w] == m[k := v];
    GapUpdate(t, idx, Occupied(k, v), Step(idx, n), false);
    GapStep(t, idx, false);
    DisplacementAhead(idx, hr, n);
    AheadStep(hr, e, n);
    AheadDisplacement(hr, e + 1, n);
    PathPut(t, idx, Occupied(k, v), hr, e);
    PathExtend(u, hr, e);
  }

  /** On an ordered table without tombstones that represents `m`, the
      Insert walk leaves an ordered table without tombstones that
      represents `m` with the pair put in, and fills a slot exactly when
      the key was new. */
  lemma {:induction false} SettleOrdered<V>(t: seq<Slot<V>>, m: map<int, V>, k: int, v: V, idx: nat, dist: nat)
    requires Carrying(t, m, k, idx, dist)
    ensures var r := Settle(t, k, v, idx, dist);
            && Ordered(r.table) && NoTombs(r.table) && Stores(r.table, m[k := v])
            && (r.grew <==> k !in m)
    decreases Gap(t, idx, false)
  {
    if !t[idx].Occupied? {
      FillFree(t, m, k, v, idx, dist);
    } else if t[idx].key == k {
      Refill(t, m, k, v, idx, dist);
    } else {
      GapStep(t, idx, false);
      if Disp(t, idx) < dist {
        SwapOut(t, m, k, v, idx, dist);
        GapUpdate(t, idx, Occupied(k, v), Step(idx, |t|), false);
        SettleOrdered(t[idx := Occupied(k, v)], m[k := v] - {t[idx].key}, t[idx].key, t[idx].value,
                      Step(idx, |t|), Disp(t, idx) + 1);
      } else {
        PassOn(t, m, k, idx, dist);
        SettleOrdered(t, m, k, v, Step(idx, |t|), dist + 1);
      }
    }
  }

  // ---------------------------------------------------------------------
  // Get and Delete on an ordered table

  /** On an ordered table the walk for the key in slot `p`, started `j`
      steps past the key's home with `j` at most the slot's displacement,
      ends at `p`: every slot before it lets the walk pass. */
  lemma {:induction false} SeekFinds<V>(t: seq<Slot<V>>, p: nat, j: nat, bounded: bool)
    requires Ordered(t) && p < |t| && t[p].Occupied? && j <= Disp(t, p)
    ensures Live(t)
    ensures var h := MulHash(t[p].key, |t|);
            Ahead(h, j, |t|) < |t| && Seek(t, t[p].key, Ahead(h, j, |t|), j, bounded).at == p
    decreases Disp(t, p) - j
  {
    var n, key := |t|, t[p].key;
    var h := MulHash(key, n);
    var s := Ahead(h, j, n);
    assert !t[p].Tombstone?;
    assert Reaches(t, p);
    DisplacementAhead(p, h, n);
    AheadDisplacement(h, j, n);
    if j < Disp(t, p) {
      assert Passable(t, s, j);
      assert SameKey(t, s, p) ==> s == p;
      AheadStep(h, j, n);
      SeekFinds(t, p, j + 1, bounded);
    }
  }

  /** On an ordered table representing `m`, Get and Delete find the key
      exactly when `m` holds it, in a slot holding its value. */
  lemma Lookup<V>(t: seq<Slot<V>>, m: map<int, V>, key: int, bounded: bool)
    requires Ordered(t) && Stores(t, m) && (bounded || Live(t))
    ensures var r := Seek(t, key, MulHash(key, |t|), 0, bounded);
            && (r.at >= 0 <==> key in m)
            && (r.at >= 0 ==> t[r.at].value == m[key])
  {
    var n, h := |t|, MulHash(key, |t|);
    var r := Seek(t, key, h, 0, bounded);
    if r.at >= 0 {
      assert Agrees(t, m, r.at);
    }
    if key in m {
      assert Present(t, key);
      var p :| 0 <= p < n && t[p].Occupied? && t[p].key == key;
      SeekFinds(t, p, 0, bounded);
      }
  }

  /** Delete keeps the order, and the table then represents `m` without
      the key. */
  lemma DeleteOrdered<V>(t: seq<Slot<V>>, m: map<int, V>, key: int)
    requires Ordered(t) && Stores(t, m) && Live(t)
    ensures var r := Seek(t, key, MulHash(key, |t|), 0, false);
            var u := if r.at >= 0 then t[r.at := Tombstone] else t;
            Ordered(u) && Stores(u, m - {key})
  {
    var r := Seek(t, key, MulHash(key, |t|), 0, false);
    Lookup(t, m, key, false);
    var m' := m - {key};
    if r.at >= 0 {
      var u := t[r.at := Tombstone];
      OrderedPut(t, r.at, Tombstone);
      forall p | 0 <= p < |u| ensures Agrees(u, m', p) {
        assert Agrees(t, m, p);
        assert SameKey(t, p, r.at) ==> p == r.at;
      }
      forall x | x in m' ensures Present(u, x) {
        assert Present(t, x);
        var p :| 0 <= p < |t| && t[p].Occupied? && t[p].key == x;
        assert u[p] == t[p];
      }
    } else {
      assert m' == m;
    }
  }

  // ---------------------------------------------------------------------
  // Tombstones

  /** Insert takes the first tombstone on its way without looking further:
      with a tombstone at the key's home and the key one slot on, the key
      ends up twice. */
  lemma TombstoneDuplicates<V>(t: seq<Slot<V>>, k: int, v: V, w: V)
    requires IsPow2(|t|) && |t| >= 8
    requires var h := MulHash(k, |t|);
             t[h].Tombstone? && t[Step(h, |t|)] == Occupied(k, w)
    ensures var h := MulHash(k, |t|);
            && Gap(t, h, false) == 0
            && var u := Settle(t, k, v, h, 0).table;
            && u == t[h := Occupied(k, v)] && !Unique(u)
  {
    var n, h := |t|, MulHash(k, |t|);
    assert Gap(t, h, false) == 0;
    var u := t[h := Occupied(k, v)];
    assert Settle(t, k, v, h, 0).table == u;
    StepNext(h, n);
    assert SameKey(u, h, Step(h, n));
  }

  /** Delete then buries the copy written by that Insert only: the table
      is back to what it was before the Insert, and Get finds the key with
      its old value. */
  lemma StaleAfterDelete<V>(t: seq<Slot<V>>, k: int, v: V, w: V)
    requires IsPow2(|t|) && |t| >= 8
    requires var h := MulHash(k, |t|);
             t[h].Tombstone? && t[Step(h, |t|)] == Occupied(k, w)
    ensures var h := MulHash(k, |t|);
            var u := t[h := Occupied(k, v)];
            && Live(u) && Seek(u, k, h, 0, false).at == h
            && u[h := Tombstone] == t
            && Seek(t, k, h, 0, true) == Seen(Step(h, |t|), 2)
  {
    var n, h := |t|, MulHash(k, |t|);
    var s := Step(h, n);
    var u := t[h := Occupied(k, v)];
    StepNext(h, n);
    assert !u[h].Tombstone?;
    assert Seek(u, k, h, 0, false).at == h;
    assert u[h := Tombstone] == t;
    assert Seek(t, k, s, 1, true) == Seen(s, 1);
  }

  /** Insert writes a new key into a tombstone that another key's walk
      used to pass: the new resident sits closer to its home than that walk
      has come, so Get stops there and misses the key behind it. */
  lemma LostBehindTombstone<V>(t: seq<Slot<V>>, x: int, y: int, z: int, v: V)
    requires IsPow2(|t|) && |t| >= 8
    requires var h := MulHash(x, |t|);
             && MulHash(z, |t|) == h && MulHash(y, |t|) == Step(h, |t|)
             && t[h].Occupied? && t[h].key == z && z != x
             && t[Step(h, |t|)].Tombstone?
             && t[Ahead(h, 2, |t|)].Occupied? && t[Ahead(h, 2, |t|)].key == x
    ensures var h := MulHash(x, |t|);
            && Gap(t, Step(h, |t|), false) == 0
            && var u := Settle(t, y, v, Step(h, |t|), 0).table;
            && Seek(t, x, h, 0, true).at == Ahead(h, 2, |t|)
            && u == t[Step(h, |t|) := Occupied(y, v)]
            && u[Ahead(h, 2, |t|)] == t[Ahead(h, 2, |t|)]
            && Seek(u, x, h, 0, true).at == -1
  {
    var n, h := |t|, MulHash(x, |t|);
    var s, a := Step(h, n), Ahead(h, 2, n);
    AheadStep(h, 0, n);
    AheadStep(h, 1, n);
    AheadDisplacement(h, 0, n);
    AheadDisplacement(h, 1, n);
    AheadDisplacement(h, 2, n);
    AheadDisplacement(s, 0, n);
    assert s != h && a != s;
    assert Gap(t, s, false) == 0;
    var u := t[s := Occupied(y, v)];
    assert Settle(t, y, v, s, 0).table == u;
    assert Seek(t, x, a, 2, true).at == a;
    assert Seek(t, x, s, 1, true).at == a;
    assert Seek(u, x, s, 1, true).at == -1;
  }

  // ---------------------------------------------------------------------
  // Facts the table methods start from

  /** One step of the Insert walk past a resident closer to its home than
      `dist`: the carried pair takes the slot and the resident is carried
      on from the next slot at its own distance, one probe later. */
  lemma SettleSwap<V>(t: seq<Slot<V>>, key: int, value: V, idx: nat, dist: nat)
    requires IsPow2(|t|) && idx < |t| && Gap(t, idx, false) < |t|
    requires t[idx].Occupied? && t[idx].key != key
    requires Displacement(idx, MulHash(t[idx].key, |t|), |t|) < dist
    ensures var u := t[idx := Occupied(key, value)];
            && Gap(u, Step(idx, |t|), false) < Gap(t, idx, false)
            && var r := Settle(u, t[idx].key, t[idx].value, Step(idx, |t|),
                               Displacement(idx, MulHash(t[idx].key, |t|), |t|) + 1);
            var l := Settle(t, key, value, idx, dist);
            l.table == r.table && l.grew == r.grew && l.probes == r.probes + 1
  {
    GapStep(t, idx, false);
    GapUpdate(t, idx, Occupied(key, value), Step(idx, |t|), false);
  }

  /** One step of the Insert walk past a resident at least `dist` from its
      home: the same pair is carried on from the next slot. */
  lemma SettleOn<V>(t: seq<Slot<V>>, key: int, value: V, idx: nat, dist: nat)
    requires IsPow2(|t|) && idx < |t| && Gap(t, idx, false) < |t|
    requires t[idx].Occupied? && t[idx].key != key
    requires Displacement(idx, MulHash(t[idx].key, |t|), |t|) >= dist
    ensures Gap(t, Step(idx, |t|), false) < Gap(t, idx, false)
    ensures var r := Settle(t, key, value, Step(idx, |t|), dist + 1);
            var l := Settle(t, key, value, idx, dist);
            l.table == r.table && l.grew == r.grew && l.probes == r.probes + 1
  {
    GapStep(t, idx, false);
  }

  /** A table with fewer occupied slots than slots leaves every Insert walk
      a free slot to end in. */
  lemma RoomGap<V>(t: seq<Slot<V>>, idx: nat)
    requires IsPow2(|t|) && idx < |t| && Count(t, |t|) < |t|
    ensures Gap(t, idx, false) < |t|
  {
    CountFree(t, |t|);
    var s :| 0 <= s < |t| && !t[s].Occupied?;
    GapFree(t, s, idx, false);
  }

  /** An empty table is ordered and represents the empty map. */
  lemma Blank<V>(t: seq<Slot<V>>)
    requires IsPow2(|t|) && forall s :: 0 <= s < |t| ==> t[s].Empty?
    ensures Ordered(t) && NoTombs(t) && Stores(t, map[]) && Count(t, |t|) == 0
  {
    CountNone(t, |t|);
  }

  /** The Insert walk starts at the key's home, carrying it at distance 0. */
  lemma StartCarrying<V>(t: seq<Slot<V>>, m: map<int, V>, k: int)
    requires Ordered(t) && NoTombs(t) && Stores(t, m) && Gap(t, MulHash(k, |t|), false) < |t|
    ensures Carrying(t, m, k, MulHash(k, |t|), 0)
  {
    var n, h := |t|, MulHash(k, |t|);
    AheadDisplacement(h, 0, n);
    assert Displacement(h, h, n) == 0;
    assert Path(t, h, 0);
  }

  // ---------------------------------------------------------------------
  // The table

  class RobinHoodTable<V> {
    var table: array<Slot<V>>
    var size: int
    var cap: int
    /** The load factor `lfNum / lfDen` (a float64 in Go). */
    var lfNum: int
    var lfDen: int
    var probes: int
    var collisions: int

    /** The map that the calls made so far describe. */
    ghost var contents: map<int, V>
    /** The table is ordered and represents `contents`: true from `New`,
        kept by Delete and Resize, and by Insert on a table without
        tombstones; Insert into a table with tombstones may break it. */
    ghost var exact: bool

    ghost predicate Valid()
      reads this`table, this`cap, this`lfDen, this`size, this`contents, this`exact, table
    {
      && table.Length == cap
      && IsPow2(cap) && cap >= 8
      && lfDen > 0
      && size == Count(table[..], cap)
      && (exact ==> Ordered(table[..]) && Stores(table[..], contents))
    }

    /** `New`: a power-of-two capacity of at least 8, all slots empty, load
        factor 0.7.
        A request above 2^62, whose rounding overflows `int`, is not
        allocated. */
    constructor (initialCapacity: int)
      requires initialCapacity <= MaxPow2Int
      ensures Valid() && fresh(table) && exact
      ensures cap == NextPowerOfTwo(initialCapacity) && contents == map[] && NoTombs(table[..])
      ensures probes == 0 && collisions == 0 && lfNum == 7 && lfDen == 10
    {
      var capacity := NextPowerOfTwo(initialCapacity);
      table := new Slot<V>[capacity](_ => Empty);
      size := 0;
      cap := capacity;
      lfNum, lfDen := 7, 10;
      probes, collisions := 0, 0;
      contents := map[];
      exact := true;
      new;
      Blank(table[..]);
    }

    /** `Size()`: the number of occupied slots, which is the size of the
        map while the table is exact. */
    function Size(): (r: int)
      reads this, table
      requires Valid()
      ensures r == Count(table[..], cap)
      ensures exact ==> r == |contents|
    {
      ExactSize(table[..], contents, exact);
      size
    }

    function Capacity(): (r: int)
      reads this, table
      requires Valid()
      ensures IsPow2(r) && r >= 8 && r == table.Length
    {
      cap
    }

    function Probes(): int
      reads this
    {
      probes
    }

    function Collisions(): int
      reads this
    {
      collisions
    }

    method ResetProbes()
      requires Valid()
      modifies this`probes
      ensures Valid() && probes == 0
    {
      probes := 0;
    }

    method ResetCollisions()
      requires Valid()
      modifies this`collisions
      ensures Valid() && collisions == 0
    {
      collisions := 0;
    }

    method SetLoadFactor(num: int, den: int)
      requires Valid() && den > 0
      modifies this`lfNum, this`lfDen
      ensures Valid() && lfNum == num && lfDen == den
    {
      lfNum, lfDen := num, den;
    }

    predicate NeedsResize()
      reads this
      requires cap > 0 && lfDen > 0
    {
      ShouldResize(size, cap, lfNum, lfDen)
    }

    /** The end of one pass of the Insert loop at an occupied slot holding
        another key: swap when the resident is closer to its home than
        `dist`, and go one step further. */
    method Carry(k: int, v: V, idx: nat, dist: nat) returns (k': int, v': V, dist': nat)
      requires table.Length == cap && IsPow2(cap) && idx < cap && Gap(table[..], idx, false) < cap
      requires table[idx].Occupied? && table[idx].key != k
      modifies table
      ensures dist' > 0 && Gap(table[..], Step(idx, cap), false) < Gap(old(table[..]), idx, false)
      ensures var r := Settle(table[..], k', v', Step(idx, cap), dist');
              var l := Settle(old(table[..]), k, v, idx, dist);
              l.table == r.table && l.grew == r.grew && l.probes == r.probes + 1
    {
      var b := table[idx];
      var e := Displacement(idx, MulHash(b.key, cap), cap);
      ghost var t0 := table[..];
      if e < dist {
        SettleSwap(t0, k, v, idx, dist);
        table[idx] := Occupied(k, v);
        assert table[..] == t0[idx := Occupied(k, v)];
        k', v', dist' := b.key, b.value, e + 1;
      } else {
        SettleOn(t0, k, v, idx, dist);
        k', v', dist' := k, v, dist + 1;
      }
    }

    /** The loop of `Insert` once any resize is done: one probe per slot,
        stop at a free slot or at the key, count one collision the first
        time an occupied slot is passed, swap with a resident closer to its
        home than the carried pair, and step on. */
    method Place(key: int, value: V)
      requires table.Length == cap && IsPow2(cap)
      requires Gap(table[..], MulHash(key, cap), false) < cap
      modifies this`size, this`probes, this`collisions, table
      ensures var r := Settle(old(table[..]), key, value, MulHash(key, cap), 0);
              && table[..] == r.table
              && size == old(size) + (if r.grew then 1 else 0)
              && probes == old(probes) + r.probes
              && collisions == old(collisions) + (if Collides(old(table[..]), key) then 1 else 0)
    {
      ghost var tbl := table[..];
      var idx: nat := MulHash(key, cap);
      ghost var goal := Settle(tbl, key, value, idx, 0);
      var dist: nat := 0;
      var k, v := key, value;
      var counted := false;
      while true
        invariant idx < cap && Gap(table[..], idx, false) < cap
        invariant var r := Settle(table[..], k, v, idx, dist);
                  && r.table == goal.table && r.grew == goal.grew
                  && probes - old(probes) + r.probes == goal.probes
        invariant size == old(size)
        invariant dist == 0 ==> idx == MulHash(key, cap) && table[..] == tbl && k == key && !counted
        invariant dist > 0 ==> counted && Collides(tbl, key)
        invariant collisions == old(collisions) + (if counted then 1 else 0)
        decreases Gap(table[..], idx, false)
      {
        probes := probes + 1;
        var b := table[idx];
        if !b.Occupied? {
          table[idx] := Occupied(k, v);
          size := size + 1;
          return;
        }
        if b.key == k {
          table[idx] := Occupied(k, v);
          return;
        }
        if !counted {
          collisions := collisions + 1;
          counted := true;
        }
        k, v, dist := Carry(k, v, idx, dist);
        idx := Step(idx, cap);
      }
    }

    /** `Get`: walk from the key's home; stop at an empty slot, at the key,
        at a resident closer to its home than the distance walked, or once
        the distance exceeds `cap`. */
    method Get(key: int) returns (r: Option<V>)
      requires Valid()
      modifies this`probes
      ensures var s := Seek(table[..], key, MulHash(key, cap), 0, true);
              && r == (if s.at >= 0 then Some(table[s.at].value) else None)
              && probes == old(probes) + s.probes
      ensures exact ==> r == (if key in contents then Some(contents[key]) else None)
    {
      var idx: nat := MulHash(key, cap);
      ghost var goal := Seek(table[..], key, idx, 0, true);
      if exact {
        Lookup(table[..], contents, key, true);
      }
      var dist: nat := 0;
      while true
        invariant idx < cap && dist <= cap
        invariant var s := Seek(table[..], key, idx, dist, true);
                  s.at == goal.at && probes - old(probes) + s.probes == goal.probes
        decreases cap - dist
      {
        probes := probes + 1;
        var b := table[idx];
        if b.Empty? {
          return None;
        }
        if b.Occupied? {
          if b.key == key {
            return Some(b.value);
          }
          if Displacement(idx, MulHash(b.key, cap), cap) < dist {
            return None;
          }
        }
        dist := dist + 1;
        idx := Step(idx, cap);
        if dist > cap {
          return None;
        }
      }
    }

    /** The write of Delete once its walk has found the key at `idx`. */
    method Bury(key: int, idx: int)
      requires Valid() && 0 <= idx < cap && table[idx].Occupied? && table[idx].key == key
      requires exact ==> Ordered(table[..][idx := Tombstone]) && Stores(table[..][idx := Tombstone], contents - {key})
      modifies this`size, this`contents, table
      ensures Valid()
      ensures table[..] == old(table[..])[idx := Tombstone]
      ensures contents == old(contents) - {key} && size == old(size) - 1
    {
      CountPut(table[..], idx, Tombstone, cap);
      table[idx] := Tombstone;
      size := size - 1;
      contents := contents - {key};
    }

    /** `Delete`: walk like Get but with no bound on the distance; a found
        key's slot becomes a tombstone. The walk ends only on a table with
        a slot that is not a tombstone. */
    method Delete(key: int)
      requires Valid() && Live(table[..])
      modifies this`size, this`probes, this`contents, table
      ensures Valid() && contents == old(contents) - {key}
      ensures var tbl := old(table[..]);
              var s := Seek(tbl, key, MulHash(key, cap), 0, false);
              && table[..] == (if s.at >= 0 then tbl[s.at := Tombstone] else tbl)
              && size == old(size) - (if s.at >= 0 then 1 else 0)
              && probes == old(probes) + s.probes
    {
      ghost var tbl := table[..];
      var idx: nat := MulHash(key, cap);
      ghost var goal := Seek(tbl, key, idx, 0, false);
      if exact {
        DeleteOrdered(tbl, contents, key);
      }
      var dist: nat := 0;
      while true
        invariant idx < cap && table[..] == tbl && size == old(size) && contents == old(contents)
        invariant var s := Seek(tbl, key, idx, dist, false);
                  s.at == goal.at && probes - old(probes) + s.probes == goal.probes
        decreases if dist <= cap then cap + 1 - dist else 0, Gap(tbl, idx, true)
      {
        probes := probes + 1;
        var b := table[idx];
        if b.Empty? {
          contents := contents - {key};
          return;
        }
        if b.Occupied? {
          if b.key == key {
            Bury(key, idx);
            return;
          }
          if Displacement(idx, MulHash(b.key, cap), cap) < dist {
            contents := contents - {key};
            return;
          }
        }
        SeekGap(tbl, idx, false);
        dist := dist + 1;
        idx := Step(idx, cap);
      }
    }

    /** The loop of `resize`: reinsert the occupied slots of `old_` in
        order through Insert. */
    method ReinsertAll(old_: array<Slot<V>>)
      requires Valid() && exact && NoTombs(table[..]) && contents == map[] && size == 0
      requires old_ != table && Count(old_[..], old_.Length) < cap
      modifies this, table
      ensures Valid() && exact && NoTombs(table[..]) && contents == OccupiedMap(old_[..])
      ensures table == old(table) || fresh(table)
      ensures cap >= old(cap) && size <= Count(old_[..], old_.Length)
      ensures lfNum == old(lfNum) && lfDen == old(lfDen)
      decreases Count(old_[..], old_.Length), 1
    {
      var b := 0;
      while b < old_.Length
        invariant 0 <= b <= old_.Length
        invariant Valid() && exact && NoTombs(table[..]) && contents == OccupiedMap(old_[..b])
        invariant table == old(table) || fresh(table)
        invariant cap >= old(cap) && size <= Count(old_[..], b)
        invariant lfNum == old(lfNum) && lfDen == old(lfDen)
      {
        var e := old_[b];
        assert old_[..b + 1][..b] == old_[..b];
        if e.Occupied? {
          CountMono(old_[..], b + 1, old_.Length);
          Insert(e.key, e.value);
        }
        b := b + 1;
      }
      assert old_[..b] == old_[..];
    }

    /** `resize`: double the capacity, reinsert, then restore the collision
        counter. The new table has no tombstones, is ordered and represents
        the old slots' pairs, a later slot winning. */
    method Resize()
      requires Valid()
      modifies this
      ensures Valid() && fresh(table)
      ensures Ordered(table[..]) && NoTombs(table[..]) && Stores(table[..], OccupiedMap(old(table[..])))
      ensures cap >= 2 * old(cap) && size <= old(size)
      ensures contents == old(contents) && exact == old(exact)
      ensures collisions == old(collisions) && lfNum == old(lfNum) && lfDen == old(lfDen)
      decreases size, 2
    {
      var old_ := table;
      var oldCollisions := collisions;
      ghost var m0, e0 := contents, exact;
      if exact {
        StoresView(old_[..], contents);
      }
      var capacity := cap * 2;
      DoubleIsPow2(cap);
      table := new Slot<V>[capacity](_ => Empty);
      size := 0;
      cap := capacity;
      contents, exact := map[], true;
      Blank(table[..]);
      ReinsertAll(old_);
      collisions := oldCollisions;
      contents, exact := m0, e0;
    }

    /** `Insert`: resize first when the load factor is reached, then run
        the insert walk. Go's loop never ends on a full table, which only a
        load factor above 1 allows: such a call is excluded. */
    method Insert(key: int, value: V)
      requires Valid() && (NeedsResize() || size < cap)
      modifies this, table
      ensures Valid() && (table == old(table) || fresh(table))
      ensures size <= old(size) + 1 && cap >= old(cap)
      ensures lfNum == old(lfNum) && lfDen == old(lfDen)
      ensures contents == old(contents)[key := value]
      ensures exact == (old(exact) && (old(NeedsResize()) || old(NoTombs(table[..]))))
      ensures exact ==> NoTombs(table[..])
      ensures !old(NeedsResize()) ==>
                && cap == old(cap) && table == old(table)
                && Gap(old(table[..]), MulHash(key, cap), false) < cap
                && var r := Settle(old(table[..]), key, value, MulHash(key, cap), 0);
                && table[..] == r.table
                && size == old(size) + (if r.grew then 1 else 0)
                && probes == old(probes) + r.probes
                && collisions == old(collisions) + (if Collides(old(table[..]), key) then 1 else 0)
      decreases size, 3
    {
      ghost var clean := NeedsResize() || NoTombs(table[..]);
      if NeedsResize() {
        Resize();
      }
      ghost var tbl := table[..];
      var h := MulHash(key, cap);
      RoomGap(tbl, h);
      SettleCount(tbl, key, value, h, 0);
      ghost var keep := exact && clean;
      if keep {
        StartCarrying(tbl, contents, key);
        SettleOrdered(tbl, contents, key, value, h, 0);
      }
      Place(key, value);
      contents := contents[key := value];
      exact := keep;
    }
  }
}
