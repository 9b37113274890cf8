/**
 Byte-addressed memory and little-endian numbers, with the shifts and the
 bitwise or that the access code assembles them with.
 */
module Bytes {
  type Byte = b: nat | b < 256
  type Address = nat

  type Memory = map<Address, Byte>

  function At(m: Memory, a: Address): Byte {
    if a in m then m[a] else 0
  }

  function Pow2(n: nat): (p: nat)
    ensures p > 0
  {
    if n == 0 then 1 else 2 * Pow2(n - 1)
  }

  /** `2` to the number of bits in `n` bytes. */
  function Pow256(n: nat): (p: nat)
    ensures p > 0
  {
    if n == 0 then 1 else 256 * Pow256(n - 1)
  }

  lemma {:induction false} Pow2Add(a: nat, b: nat)
    ensures Pow2(a + b) == Pow2(a) * Pow2(b)
  {
    if a > 0 {
      Pow2Add(a - 1, b);
    }
  }

  lemma {:induction false} Pow256Add(a: nat, b: nat)
    ensures Pow256(a + b) == Pow256(a) * Pow256(b)
  {
    if a > 0 {
      Pow256Add(a - 1, b);
    }
  }

  lemma {:induction false} Pow256IsPow2(n: nat)
    ensures Pow256(n) == Pow2(8 * n)
  {
    if n > 0 {
      Pow256IsPow2(n - 1);
      Pow2Add(8, 8 * (n - 1));
      assert Pow2(8) == 256;
    }
  }

  function Shl(v: nat, bits: nat): nat {
    v * Pow2(bits)
  }

  function Shr(v: nat, bits: nat): nat
    decreases bits
  {
    if bits == 0 then v else Shr(v / 2, bits - 1)
  }

  /** Keeps the low `bits` bits. */
  function Truncate(v: nat, bits: nat): nat {
    v % Pow2(bits)
  }

  /** Bitwise or. */
  function Or(a: nat, b: nat): nat {
    if a == 0 then b
    else (if a % 2 == 1 || b % 2 == 1 then 1 else 0) + 2 * Or(a / 2, b / 2)
  }

  lemma {:induction false} OrZero(a: nat)
    ensures Or(a, 0) == a && Or(0, a) == a
  {
    if a > 0 {
      OrZero(a / 2);
    }
  }

  /** Or of numbers without common bits is their sum. */
  lemma {:induction false} DisjointOr(low: nat, high: nat, bits: nat)
    requires low < Pow2(bits)
    ensures Or(low, Shl(high, bits)) == low + Shl(high, bits)
  {
    if bits > 0 && low > 0 {
      DisjointOr(low / 2, high, bits - 1);
      ShlStep(high, bits);
      OrEven(low, Shl(high, bits - 1));
    }
  }

  lemma ShlStep(v: nat, bits: nat)
    requires bits > 0
    ensures Shl(v, bits) == 2 * Shl(v, bits - 1)
  {
    assert v * (2 * Pow2(bits - 1)) == 2 * (v * Pow2(bits - 1));
  }

  lemma OrEven(low: nat, half: nat)
    requires low > 0
    ensures Or(low, 2 * half) == low % 2 + 2 * Or(low / 2, half)
  {
    assert (2 * half) % 2 == 0 && (2 * half) / 2 == half;
  }

  lemma {:induction false} OrCommutes(a: nat, b: nat)
    ensures Or(a, b) == Or(b, a)
  {
    if a == 0 || b == 0 {
      OrZero(a);
      OrZero(b);
    } else {
      OrCommutes(a / 2, b / 2);
    }
  }

  // ---------------------------------------------------------------------
  // Little-endian numbers

  /** The `n`-byte little-endian number at `a`. */
  function LoadLe(m: Memory, a: Address, n: nat): (v: nat)
    ensures v < Pow256(n)
    decreases n
  {
    if n == 0 then 0 else At(m, a) + 256 * LoadLe(m, a + 1, n - 1)
  }

  /** Writes the low `n` bytes of `v` at `a`. */
  function StoreLe(m: Memory, a: Address, n: nat, v: nat): Memory
    decreases n
  {
    if n == 0 then m else StoreLe(m[a := v % 256], a + 1, n - 1, v / 256)
  }

  /** Byte `i` of `v`. */
  function ByteOf(v: nat, i: nat): Byte
    decreases i
  {
    if i == 0 then v % 256 else ByteOf(v / 256, i - 1)
  }

  /** A store changes exactly the bytes of its range, to the bytes of the value. */
  lemma {:induction false} StoreLeAt(m: Memory, a: Address, n: nat, v: nat, x: Address)
    ensures At(StoreLe(m, a, n, v), x) == if a <= x < a + n then ByteOf(v, x - a) else At(m, x)
    decreases n
  {
    if n > 0 {
      StoreLeAt(m[a := v % 256], a + 1, n - 1, v / 256, x);
    }
  }

  /** Loading what was stored gives the value back. */
  lemma {:induction false} StoreThenLoad(m: Memory, a: Address, n: nat, v: nat)
    ensures LoadLe(StoreLe(m, a, n, v), a, n) == v % Pow256(n)
    decreases n
  {
    if n > 0 {
      var rest := m[a := v % 256];
      StoreThenLoad(rest, a + 1, n - 1, v / 256);
      StoreLeAt(rest, a + 1, n - 1, v / 256, a);
      SplitMod(v, Pow256(n - 1));
    }
  }

  lemma SplitMod(v: nat, p: nat)
    requires p > 0
    ensures v % (256 * p) == v % 256 + 256 * (v / 256 % p)
  {
    var q, r := v / 256, v % 256;
    var s, t := q / p, q % p;
    assert v == 256 * (p * s + t) + r;
    assert v == (256 * p) * s + (256 * t + r);
    assert 256 * t + r < 256 * p;
    ModUnique(v, 256 * p, s, 256 * t + r);
  }

  lemma Commute(a: nat, b: nat)
    ensures a * b == b * a
  {
  }

  lemma ModUnique(v: nat, d: nat, q: nat, r: nat)
    requires d > 0 && v == d * q + r && r < d
    ensures v % d == r && v / d == q
  {
    var q0 := v / d;
    assert v == d * q0 + v % d;
    Multiples(d, q, q0);
    Multiples(d, q0, q);
  }

  lemma {:induction false} Multiples(d: nat, a: nat, b: nat)
    ensures a < b ==> d * a + d <= d * b
  {
    if a + 1 < b {
      Multiples(d, a, b - 1);
      assert d * b == d * (b - 1) + d;
    } else if a + 1 == b {
      assert d * b == d * a + d;
    }
  }

  /** A load is the load of its first bytes with the rest above them. */
  lemma {:induction false} LoadLeSplit(m: Memory, a: Address, n: nat, k: nat)
    requires k <= n
    ensures LoadLe(m, a, n) == LoadLe(m, a, k) + Pow256(k) * LoadLe(m, a + k, n - k)
    decreases k
  {
    if k > 0 {
      LoadLeSplit(m, a + 1, n - 1, k - 1);
      Distribute(LoadLe(m, a + 1, k - 1), Pow256(k - 1), LoadLe(m, a + k, n - k));
      assert a + 1 + (k - 1) == a + k;
    }
  }

  lemma Distribute(low: nat, p: nat, high: nat)
    ensures 256 * (low + p * high) == 256 * low + (256 * p) * high
  {
    assert (256 * p) * high == 256 * (p * high);
  }

  /** `v` without its low `k` bytes. */
  function Rest(v: nat, k: nat): nat
    decreases k
  {
    if k == 0 then v else Rest(v / 256, k - 1)
  }

  lemma {:induction false} RestIsQuotient(v: nat, k: nat)
    ensures Rest(v, k) == v / Pow256(k)
    decreases k
  {
    if k > 0 {
      RestIsQuotient(v / 256, k - 1);
      DivDiv(v, Pow256(k - 1));
    }
  }

  /** Shifting by whole bytes drops whole bytes. */
  lemma {:induction false} ShrBytes(v: nat, n: nat)
    ensures Shr(v, 8 * n) == Rest(v, n)
    decreases n
  {
    if n > 0 {
      ShrByte(v, 8 * (n - 1));
      ShrBytes(v / 256, n - 1);
    }
  }

  lemma ShrByte(v: nat, bits: nat)
    ensures Shr(v, bits + 8) == Shr(v / 256, bits)
  {
    ShrTwo(v, bits + 6);
    ShrTwo(v / 4, bits + 4);
    ShrTwo(v / 16, bits + 2);
    ShrTwo(v / 64, bits);
    assert v / 4 / 4 == v / 16 && v / 16 / 4 == v / 64 && v / 64 / 4 == v / 256;
  }

  lemma ShrTwo(v: nat, bits: nat)
    ensures Shr(v, bits + 2) == Shr(v / 4, bits)
  {
  }

  /** A store is a store of the low bytes followed by a store of the rest. */
  lemma {:induction false} StoreLeConcat(m: Memory, a: Address, k: nat, n: nat, v: nat)
    ensures StoreLe(m, a, k + n, v) == StoreLe(StoreLe(m, a, k, v), a + k, n, Rest(v, k))
    decreases k
  {
    if k > 0 {
      StoreLeConcat(m[a := v % 256], a + 1, k - 1, n, v / 256);
      assert a + 1 + (k - 1) == a + k && k + n - 1 == (k - 1) + n;
    }
  }

  lemma DivDiv(v: nat, p: nat)
    requires p > 0
    ensures v / 256 / p == v / (256 * p)
  {
    var q, r := v / 256, v % 256;
    var s, t := q / p, q % p;
    assert v == (256 * p) * s + (256 * t + r);
    assert 256 * t + r < 256 * p;
    ModUnique(v, 256 * p, s, 256 * t + r);
  }

  // ---------------------------------------------------------------------
  // The order of writes to different bytes does not matter

  lemma {:induction false} WriteThenStore(m: Memory, x: Address, b: Byte, a: Address, n: nat, v: nat)
    requires x < a || a + n <= x
    ensures StoreLe(m[x := b], a, n, v) == StoreLe(m, a, n, v)[x := b]
    decreases n
  {
    if n > 0 {
      assert m[x := b][a := v % 256] == m[a := v % 256][x := b];
      WriteThenStore(m[a := v % 256], x, b, a + 1, n - 1, v / 256);
    }
  }

  /** One more byte below what was stored already. */
  lemma StoreDown(m: Memory, a: Address, n: nat, v: nat)
    ensures StoreLe(m, a, n + 1, v) == StoreLe(m, a + 1, n, v / 256)[a := v % 256]
  {
    WriteThenStore(m, a, v % 256, a + 1, n, v / 256);
  }

  lemma {:induction false} StoresCommute(m: Memory, a: Address, k: nat, v: nat, b: Address, n: nat, w: nat)
    requires a + k <= b || b + n <= a
    ensures StoreLe(StoreLe(m, a, k, v), b, n, w) == StoreLe(StoreLe(m, b, n, w), a, k, v)
    decreases k
  {
    if k > 0 {
      StoresCommute(m[a := v % 256], a + 1, k - 1, v / 256, b, n, w);
      WriteThenStore(m, a, v % 256, b, n, w);
    }
  }

  lemma {:induction false} RestNext(v: nat, j: nat)
    ensures Rest(v, j) % 256 == ByteOf(v, j) && Rest(v, j) / 256 == Rest(v, j + 1)
    decreases j
  {
    if j > 0 {
      RestNext(v / 256, j - 1);
    }
  }
}
