/** Definitions shared by the five hash-table engines: the value types of
    their slots, the integer and bit arithmetic they rely on (powers of two,
    Go's `bits.Len`, bitwise AND, `nextPowerOfTwo`), the multiplicative hash
    and the load-factor test. */
module Common {

  /** Go's `(value any, found bool)` result: `None` is `(nil, false)`. */
  datatype Option<T> = None | Some(value: T)

  /** A key/value pair (the `entry` struct of the Go engines). */
  datatype Entry<V> = Entry(key: int, value: V)

  /** A slot of an open-addressing table with a tri-state tag: Go's
      `state`/`flag` field with values 0 (empty), 1 (occupied), 2 (tombstone).
      A tombstone's stale key and value are never read by the engines, so
      they are not kept. */
  datatype Slot<V> = Empty | Occupied(key: int, value: V) | Tombstone

  /** The odd multiplicative constant `hashConst` of every engine but cuckoo. */
  const HashConst: nat := 0xbf58476d1ce4e5b9

  /** 2^64 and 2^32: the moduli of Go's `uint64` and `uint32` arithmetic. */
  const Two64: nat := 0x1_0000_0000_0000_0000
  const Two32: nat := 0x1_0000_0000

  /** The largest value of Go's 64-bit `int`. */
  const MaxInt: nat := 0x7fff_ffff_ffff_ffff

  /** The largest power of two a 64-bit `int` holds, 2^62: `1 << 63` wraps
      to a negative `int`. */
  const MaxPow2Int: nat := 0x4000_0000_0000_0000

  function Pow2(k: nat): (r: nat)
    ensures r >= 1
  {
    if k == 0 then 1 else 2 * Pow2(k - 1)
  }

  /** `n` is a power of two. */
  predicate IsPow2(n: int)
    decreases if n > 0 then n else 0
  {
    n == 1 || (n > 1 && n % 2 == 0 && IsPow2(n / 2))
  }

  lemma {:induction false} Pow2IsPow2(k: nat)
    ensures IsPow2(Pow2(k))
  {
    if k > 0 {
      Pow2IsPow2(k - 1);
      assert Pow2(k) / 2 == Pow2(k - 1);
    }
  }

  /** The exponent law `2^(a+b) = 2^a * 2^b`. */
  lemma {:induction false} Pow2Sum(a: nat, b: nat)
    ensures Pow2(a + b) == Pow2(a) * Pow2(b)
  {
    if a > 0 {
      Pow2Sum(a - 1, b);
    }
  }

  /** Doubling keeps a power of two a power of two. */
  lemma DoubleIsPow2(n: int)
    requires IsPow2(n)
    ensures IsPow2(2 * n)
  {
    assert (2 * n) / 2 == n;
  }

  /** Go's `bits.Len(uint(n))`: the number of bits needed to write `n`. */
  function BitLen(n: nat): (r: nat)
    ensures n < Pow2(r)
    ensures n > 0 ==> r >= 1 && Pow2(r - 1) <= n
  {
    if n == 0 then 0 else 1 + BitLen(n / 2)
  }

  /** Bitwise AND of two naturals, bit by bit from the least significant. */
  function And(a: nat, b: nat): nat
  {
    if a == 0 || b == 0 then 0
    else 2 * And(a / 2, b / 2) + (if a % 2 == 1 && b % 2 == 1 then 1 else 0)
  }

  /** Masking never yields more than the mask. */
  lemma {:induction false} AndAtMost(a: nat, b: nat)
    ensures And(a, b) <= b
  {
    if a != 0 && b != 0 {
      AndAtMost(a / 2, b / 2);
    }
  }

  lemma {:induction false} AndSelf(a: nat)
    ensures And(a, a) == a
  {
    if a > 0 {
      AndSelf(a / 2);
    }
  }

  /** Masking with `cap - 1` keeps the low bits: `x & (cap - 1) == x % cap`
      for a power-of-two `cap`. */
  lemma {:induction false} MaskIsMod(x: nat, cap: nat)
    requires IsPow2(cap)
    ensures And(x, cap - 1) == x % cap
  {
    if x == 0 {
      DivModUnique(0, cap, 0, 0);
    } else if cap == 1 {
      DivModUnique(x, 1, x, 0);
    } else {
      var p := cap / 2;
      assert cap == 2 * p && IsPow2(p);
      AndOddMask(x, p);
      MaskIsMod(x / 2, p);
      ModDouble(x, p);
      calc {
        And(x, cap - 1);
        2 * And(x / 2, p - 1) + x % 2;
        2 * ((x / 2) % p) + x % 2;
        x % (2 * p);
      }
    }
  }

  /** One step of masking with the odd mask `2 * p - 1`. */
  lemma AndOddMask(x: nat, p: nat)
    requires x > 0 && p >= 1
    ensures And(x, 2 * p - 1) == 2 * And(x / 2, p - 1) + x % 2
  {
    DivModUnique(2 * p - 1, 2, p - 1, 1);
  }

  lemma ModDouble(x: nat, p: nat)
    requires p >= 1
    ensures x % (2 * p) == 2 * ((x / 2) % p) + x % 2
  {
    var q := (x / 2) / p;
    var r := (x / 2) % p;
    assert x / 2 == q * p + r;
    assert x == 2 * (x / 2) + x % 2;
    assert x == q * (2 * p) + (2 * r + x % 2);
    DivModUnique(x, 2 * p, q, 2 * r + x % 2);
  }

  /** Quotient and remainder are determined by `x == q * d + r, 0 <= r < d`. */
  lemma DivModUnique(x: int, d: int, q: int, r: int)
    requires d > 0 && 0 <= r < d && x == q * d + r
    ensures x / d == q && x % d == r
  {
    var q0, r0 := x / d, x % d;
    assert (q - q0) * d == r0 - r;
    MulSmall(q - q0, d);
  }

  /** Reducing modulo a multiple of `n` first does not change the
      remainder modulo `n`. */
  lemma ModCoarse(x: int, m: nat, n: nat)
    requires n > 0 && m > 0 && m % n == 0
    ensures (x % m) % n == x % n
  {
    var k := m / n;
    assert m == k * n;
    var q, r := x / m, x % m;
    var j, s := r / n, r % n;
    assert x == q * m + r;
    assert q * m == (q * k) * n;
    assert x == (q * k + j) * n + s;
    DivModUnique(x, n, q * k + j, s);
  }

  lemma MulSmall(k: int, d: int)
    requires d > 0 && -d < k * d < d
    ensures k == 0
  {
    if k > 0 {
      MulAtLeast(k, d);
    } else if k < 0 {
      MulAtLeast(-k, d);
    }
  }

  lemma MulAtLeast(k: int, d: int)
    requires k >= 1 && d >= 0
    ensures k * d >= d
  {
    assert k * d == (k - 1) * d + d;
  }

  /** Go's power-of-two test `n & (n - 1) == 0` decides `IsPow2` for positive `n`. */
  lemma {:induction false} PowerOfTwoTest(n: nat)
    requires n >= 1
    ensures And(n, n - 1) == 0 <==> IsPow2(n)
  {
    if n == 1 {
    } else if n % 2 == 0 {
      var m := n / 2;
      assert (n - 1) / 2 == m - 1 && (n - 1) % 2 == 1;
      assert And(n, n - 1) == 2 * And(m, m - 1);
      PowerOfTwoTest(m);
    } else {
      var m := n / 2;
      assert (n - 1) / 2 == m && (n - 1) % 2 == 0;
      assert And(n, n - 1) == 2 * And(m, m);
      AndSelf(m);
    }
  }

  /** Powers of two are ordered by doubling: a power of two above half of
      another is at least that other. */
  lemma {:induction false} Pow2Above(p: nat, q: nat)
    requires IsPow2(p) && IsPow2(q) && 2 * p > q
    ensures p >= q
  {
    if q != 1 {
      assert q >= 2;
      assert p >= 2;
      Pow2Above(p / 2, q / 2);
    }
  }

  /** `nextPowerOfTwo` as every engine writes it: 8 below 8, `n` itself when
      it is a power of two, else `1 << bits.Len(n)`. Above 2^62 that shift
      is `1 << 63`, which wraps to a negative `int`, so `n` is bounded by
      the largest power of two an `int` holds. */
  function NextPowerOfTwo(n: int): (r: nat)
    requires n <= MaxPow2Int
    ensures IsPow2(r) && r >= 8 && r >= n && r <= MaxPow2Int
    ensures n < 8 ==> r == 8
    ensures n >= 8 && IsPow2(n) ==> r == n
    ensures n >= 8 ==> r < 2 * n
  {
    if n < 8 then
      Pow2IsPow2(3);
      8
    else if And(n, n - 1) == 0 then
      PowerOfTwoTest(n);
      n
    else
      PowerOfTwoTest(n);
      var k := BitLen(n);
      Pow2IsPow2(k);
      Pow2IsPow2(k - 1);
      assert Pow2(k - 1) != n;
      MaxPow2IntIsPow2();
      Pow2Above(MaxPow2Int, Pow2(k));
      Pow2(k)
  }

  /** 2^64 is a power of two. */
  lemma Two64IsPow2()
    ensures IsPow2(Two64)
  {
    MaxPow2IntIsPow2();
    DoubleIsPow2(MaxPow2Int);
    DoubleIsPow2(2 * MaxPow2Int);
  }

  lemma Pow2Of16()
    ensures Pow2(16) == 0x1_0000 && Pow2(14) == 0x4000
  {
    assert Pow2(4) == 16 && Pow2(6) == 64;
    Pow2Sum(4, 4);
    Pow2Sum(8, 6);
    Pow2Sum(8, 8);
  }

  lemma Pow2Of62()
    ensures Pow2(62) == MaxPow2Int
  {
    Pow2Of16();
    Pow2Sum(16, 14);
    Pow2Sum(16, 16);
    Pow2Sum(32, 30);
  }

  lemma MaxPow2IntIsPow2()
    ensures IsPow2(MaxPow2Int)
  {
    Pow2Of62();
    Pow2IsPow2(62);
  }

  /** `NextPowerOfTwo(n)` is the least power of two that is at least both
      `n` and 8. */
  lemma NextPowerOfTwoLeast(n: int, p: nat)
    requires n <= MaxPow2Int && IsPow2(p) && p >= n && p >= 8
    ensures NextPowerOfTwo(n) <= p
  {
    var r := NextPowerOfTwo(n);
    if n >= 8 {
      Pow2Above(p, r);
    } else {
      Pow2Above(p, 8);
    }
  }

  /** Go's conversion `uint64(x)` of a signed 64-bit `int`: two's complement. */
  function U64(x: int): (r: nat)
    ensures r < Two64
  {
    x % Two64
  }

  /** `uint64(key) * hashConst`: a wrapping 64-bit multiplication. */
  function HashWord(key: int): (w: nat)
    ensures w < Two64
  {
    U64(key) * HashConst % Two64
  }

  /** `int((uint64(key) * hashConst) & uint64(cap - 1))`: the hash word masked
      to the table's capacity. */
  function MulHash(key: int, cap: nat): (r: nat)
    requires cap > 0
    ensures r < cap
  {
    AndAtMost(HashWord(key), cap - 1);
    And(HashWord(key), cap - 1)
  }

  /** `shouldResize`: `float64(size)/float64(cap) >= loadFactor`, with the
      load factor kept as the exact fraction `num / den`. */
  predicate ShouldResize(size: int, cap: int, num: int, den: int)
    requires cap > 0 && den > 0
    ensures num <= den && size >= cap ==> ShouldResize(size, cap, num, den)
  {
    size * den >= num * cap
  }

  /** With a load factor of at most 1, a table that does not need resizing
      has a slot to spare. */
  lemma NoResizeLeavesRoom(size: int, cap: int, num: int, den: int)
    requires cap > 0 && den > 0 && num <= den
    requires !ShouldResize(size, cap, num, den)
    ensures size < cap
  {
    assert size * den < num * cap <= den * cap;
    assert (cap - size) * den > 0;
  }

  /** How a call that may grow the table ends: normally, or in the panic Go
      raises when the grown capacity no longer fits an `int`. */
  datatype Outcome = Returned | Panicked

  /** Every pair of `a` is a pair of `b`. */
  ghost predicate SubMap<V>(a: map<int, V>, b: map<int, V>)
  {
    forall k :: k in a ==> k in b && a[k] == b[k]
  }

  lemma SubMapEqual<V>(a: map<int, V>, b: map<int, V>)
    requires SubMap(a, b) && forall k :: k in b ==> k in a
    ensures a == b
  {
    forall k ensures k in a <==> k in b {
      if k in a {
        assert k in b;
      }
    }
    assert forall k :: k in a ==> a[k] == b[k];
  }

  lemma SubMapTrans<V>(a: map<int, V>, b: map<int, V>, c: map<int, V>)
    requires SubMap(a, b) && SubMap(b, c)
    ensures SubMap(a, c)
  {
  }

  lemma SubMapPut<V>(a: map<int, V>, b: map<int, V>, k: int, v: V)
    requires SubMap(a, b)
    ensures SubMap(a[k := v], b[k := v])
  {
  }

  /** The pairs held by the occupied slots of `s`, a later slot winning
      over an earlier one with the same key: what reinserting the slots in
      order into an empty table stores. */
  ghost function OccupiedMap<V>(s: seq<Slot<V>>): map<int, V>
  {
    if s == [] then map[]
    else
      var rest := OccupiedMap(s[..|s| - 1]);
      match s[|s| - 1]
      case Occupied(k, v) => rest[k := v]
      case _ => rest
  }
}
