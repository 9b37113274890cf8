/**
 Scalar accesses at unaligned addresses: each is done as a few aligned accesses
 whose parts are shifted and or-ed together.
 */
module UnalignedAccess {
  import opened Bytes

  function Sum(widths: seq<nat>): nat {
    if widths == [] then 0 else widths[0] + Sum(widths[1..])
  }

  /** The widths, in address order, of the accesses that make up a `total`-byte access. */
  function Parts(total: nat, remainder: nat): seq<nat> {
    match total
    case 8 =>
      (match remainder
       case 0 => [8]
       case 4 => [4, 4]
       case 2 => [2, 4, 2]
       case 6 => [2, 4, 2]
       case 1 => [1, 2, 4, 1]
       case 5 => [1, 2, 4, 1]
       case _ => [1, 4, 2, 1])
    case 4 =>
      (match remainder
       case 0 => [4]
       case 2 => [2, 2]
       case _ => [1, 2, 1])
    case 2 => if remainder == 0 then [2] else [1, 1]
    case _ => [1]
  }

  predicate IsWidth(n: nat) {
    n == 1 || n == 2 || n == 4 || n == 8
  }

  /** Every part is naturally aligned. */
  predicate Aligned(a: Address, widths: seq<nat>)
    decreases |widths|
  {
    widths == [] || (widths[0] > 0 && a % widths[0] == 0 && Aligned(a + widths[0], widths[1..]))
  }

  lemma Push(a: Address, w: nat, rest: seq<nat>)
    requires w > 0 && a % w == 0 && Aligned(a + w, rest)
    ensures Aligned(a, [w] + rest) && Sum([w] + rest) == w + Sum(rest)
  {
    assert ([w] + rest)[1..] == rest;
  }

  lemma One(a: Address, w: nat)
    requires w > 0 && a % w == 0
    ensures Aligned(a, [w]) && Sum([w]) == w
  {
  }

  lemma Two(a: Address, v: nat, w: nat)
    requires v > 0 && a % v == 0 && w > 0 && (a + v) % w == 0
    ensures Aligned(a, [v, w]) && Sum([v, w]) == v + w
  {
    One(a + v, w);
    Push(a, v, [w]);
    assert [v] + [w] == [v, w];
  }

  lemma Three(a: Address, u: nat, v: nat, w: nat)
    requires u > 0 && a % u == 0 && v > 0 && (a + u) % v == 0 && w > 0 && (a + u + v) % w == 0
    ensures Aligned(a, [u, v, w]) && Sum([u, v, w]) == u + v + w
  {
    Two(a + u, v, w);
    Push(a, u, [v, w]);
    assert [u] + [v, w] == [u, v, w];
  }

  lemma Four(a: Address, u: nat, v: nat)
    requires u > 0 && (a + 1) % u == 0 && v > 0 && (a + 1 + u) % v == 0
    ensures Aligned(a, [1, u, v, 1]) && Sum([1, u, v, 1]) == 2 + u + v
  {
    Three(a + 1, u, v, 1);
    Push(a, 1, [u, v, 1]);
    assert [1] + [u, v, 1] == [1, u, v, 1];
  }

  /** The table covers every remainder with naturally aligned parts that add up. */
  lemma PartsFit(a: Address, total: nat)
    requires IsWidth(total)
    ensures Sum(Parts(total, a % total)) == total
    ensures Aligned(a, Parts(total, a % total))
    ensures forall w :: w in Parts(total, a % total) ==> IsWidth(w)
  {
    var r := a % total;
    if r == 0 || total == 1 {
      One(a, total);
    } else if total == 2 {
      Two(a, 1, 1);
    } else if total == 4 {
      if r == 2 { Two(a, 2, 2); } else { Three(a, 1, 2, 1); }
    } else {
      PartsFitEight(a);
    }
  }

  lemma MultipleOf2(a: nat, k: nat)
    requires a == 2 * k
    ensures a % 2 == 0
  {
  }

  lemma MultipleOf4(a: nat, k: nat)
    requires a == 4 * k
    ensures a % 4 == 0
  {
  }

  lemma PartsFitEight(a: Address)
    requires a % 8 != 0
    ensures Sum(Parts(8, a % 8)) == 8 && Aligned(a, Parts(8, a % 8))
  {
    var q, r := a / 8, a % 8;
    assert a == 8 * q + r;
    if r == 4 {
      MultipleOf4(a, 2 * q + 1);
      MultipleOf4(a + 4, 2 * q + 2);
      Two(a, 4, 4);
    } else if r == 2 || r == 6 {
      var h := if r == 2 then 1 else 3;
      MultipleOf2(a, 4 * q + h);
      MultipleOf4(a + 2, 2 * q + (h + 1) / 2);
      MultipleOf2(a + 6, 4 * q + h + 3);
      Three(a, 2, 4, 2);
    } else if r == 1 || r == 5 {
      var h := if r == 1 then 1 else 3;
      MultipleOf2(a + 1, 4 * q + h);
      MultipleOf4(a + 3, 2 * q + (h + 1) / 2);
      Four(a, 2, 4);
    } else {
      var h := if r == 3 then 1 else 2;
      MultipleOf4(a + 1, 2 * q + h);
      MultipleOf2(a + 5, 4 * q + 2 * h + 2);
      Four(a, 4, 2);
    }
  }

  /** `w` is the widest access that is aligned at `a` and takes no more than `left` bytes. */
  ghost predicate IsWidest(a: Address, left: nat, w: nat) {
    && IsWidth(w) && a % w == 0 && w <= left
    && forall v: nat {:trigger IsWidth(v)} :: IsWidth(v) && a % v == 0 && v <= left ==> v <= w
  }

  ghost predicate AllWidest(a: Address, left: nat, widths: seq<nat>)
    decreases |widths|
  {
    if widths == [] then left == 0
    else IsWidest(a, left, widths[0]) && AllWidest(a + widths[0], left - widths[0], widths[1..])
  }

  /** The widest access depends on the last three bits of the address only. */
  lemma WidestAt(a: Address, left: nat, w: nat)
    requires IsWidth(w) && w <= left <= 8 && a % 8 % w == 0
    requires forall v: nat {:trigger IsWidth(v)} :: IsWidth(v) && a % 8 % v == 0 && v <= left ==> v <= w
    ensures IsWidest(a, left, w)
  {
    forall v: nat {:trigger IsWidth(v)} | IsWidth(v) ensures a % 8 % v == a % v {
      LowBits(a, v);
    }
    assert IsWidth(w);
  }

  lemma LowBits(a: Address, v: nat)
    requires IsWidth(v)
    ensures a % 8 % v == a % v
  {
    var q, r := a / 8, a % 8;
    if v == 4 {
      ModUnique(a, 4, 2 * q + r / 4, r % 4);
    } else if v == 2 {
      ModUnique(a, 2, 4 * q + r / 2, r % 2);
    }
  }

  /** No fewer accesses would do: each part is the widest one that its place allows. */
  lemma PartsAreWidest(a: Address, total: nat)
    requires IsWidth(total)
    ensures AllWidest(a, total, Parts(total, a % total))
  {
    LowBits(a, total);
    TableIsWidest(a % 8, total);
    WidestFrom(a, total, Parts(total, a % total));
  }

  lemma NextWidth(r: nat, w: nat, v: nat)
    requires r < 8 && IsWidth(w) && IsWidth(v) && w < v && r % v == 0
    ensures w < 8 && 2 * w <= v && r % (2 * w) == 0
  {
    if v == 8 {
      assert r == 0;
    } else if v == 4 {
      assert r == 0 || r == 4;
    }
  }

  lemma TablePush(r: nat, left: nat, w: nat, rest: seq<nat>)
    requires IsWidth(w) && w <= left && r % w == 0 && (2 * w > left || r % (2 * w) != 0 || w == 8)
    requires r < 8 && WidestByTable((r + w) % 8, left - w, rest)
    ensures WidestByTable(r, left, [w] + rest)
  {
    forall v: nat {:trigger IsWidth(v)} | IsWidth(v) && r % v == 0 && v <= left ensures v <= w {
      if v > w {
        NextWidth(r, w, v);
        assert false;
      }
    }
    assert ([w] + rest)[1..] == rest;
  }

  lemma TableIsWidest(r: nat, total: nat)
    requires r < 8 && IsWidth(total)
    ensures WidestByTable(r, total, Parts(total, r % total))
  {
    TableEnd(r, total);
    if r % total != 0 {
      if total == 2 {
        TableTwo(r, 1, 1);
      } else if total == 4 {
        TableFour(r);
      } else {
        TableEight(r);
      }
    }
  }

  lemma TableFour(r: nat)
    requires r < 8 && r % 4 != 0
    ensures WidestByTable(r, 4, Parts(4, r % 4))
  {
    if r == 2 || r == 6 {
      TableTwo(r, 2, 2);
    } else {
      TableTwo((r + 1) % 8, 2, 1);
      TablePush(r, 4, 1, [2, 1]);
      assert [1] + [2, 1] == [1, 2, 1];
    }
  }

  lemma TableEnd(r: nat, w: nat)
    requires r < 8 && IsWidth(w)
    ensures r % w == 0 ==> WidestByTable(r, w, [w])
  {
    if r % w == 0 {
      TablePush(r, w, w, []);
      assert [w] + [] == [w];
    }
  }

  lemma TableTwo(r: nat, v: nat, w: nat)
    requires r < 8 && IsWidth(v) && IsWidth(w) && r % v == 0 && (r + v) % 8 % w == 0
    requires (2 * v > v + w || r % (2 * v) != 0)
    ensures WidestByTable(r, v + w, [v, w])
  {
    TableEnd((r + v) % 8, w);
    TablePush(r, v + w, v, [w]);
    assert [v] + [w] == [v, w];
  }

  lemma TableEight(r: nat)
    requires 0 < r < 8
    ensures WidestByTable(r, 8, Parts(8, r))
  {
    if r == 4 {
      TableTwo(4, 4, 4);
    } else if r == 2 || r == 6 {
      TableTwo((r + 2) % 8, 4, 2);
      TablePush(r, 8, 2, [4, 2]);
      assert [2] + [4, 2] == [2, 4, 2];
    } else if r == 1 || r == 5 {
      TableFourParts(r, 2, 4);
    } else {
      TableFourParts(r, 4, 2);
    }
  }

  lemma TableFourParts(r: nat, u: nat, v: nat)
    requires r < 8 && r % 2 == 1 && ((u == 2 && v == 4 && r % 4 == 1) || (u == 4 && v == 2 && r % 4 == 3))
    ensures WidestByTable(r, 8, [1, u, v, 1])
  {
    TableTwo((r + 1 + u) % 8, v, 1);
    assert (r + 1 + u) % 8 == ((r + 1) % 8 + u) % 8;
    TablePush((r + 1) % 8, 7, u, [v, 1]);
    TablePush(r, 8, 1, [u, v, 1]);
    assert [u] + [v, 1] == [u, v, 1] && [1] + [u, v, 1] == [1, u, v, 1];
  }

  lemma NextBits(a: Address, w: nat)
    ensures (a + w) % 8 == (a % 8 + w) % 8
  {
    assert a == 8 * (a / 8) + a % 8;
  }

  /** A list of parts is checked part by part. */
  lemma {:induction false} WidestFrom(a: Address, left: nat, widths: seq<nat>)
    requires left <= 8 && WidestByTable(a % 8, left, widths)
    ensures AllWidest(a, left, widths)
    decreases |widths|
  {
    if widths != [] {
      WidestAt(a, left, widths[0]);
      NextBits(a, widths[0]);
      WidestFrom(a + widths[0], left - widths[0], widths[1..]);
    }
  }

  /** The same on the last three bits of the address. */
  ghost predicate WidestByTable(r: nat, left: nat, widths: seq<nat>)
    decreases |widths|
  {
    if widths == [] then left == 0
    else
      && IsWidth(widths[0]) && widths[0] <= left && r % widths[0] == 0
      && (forall v: nat {:trigger IsWidth(v)} :: IsWidth(v) && r % v == 0 && v <= left ==> v <= widths[0])
      && WidestByTable((r + widths[0]) % 8, left - widths[0], widths[1..])
  }

  /** Or-s the loads of the parts onto `acc`, each shifted to its offset. */
  function Combine(m: Memory, a: Address, widths: seq<nat>, offset: nat, acc: nat): nat
    decreases |widths|
  {
    if widths == [] then acc
    else
      var limb := LoadLe(m, a + offset, widths[0]);
      Combine(m, a, widths[1..], offset + widths[0], Or(acc, Shl(limb, 8 * offset)))
  }

  /** Any decomposition into parts loads the same number. */
  lemma {:induction false} CombineIsLoad(m: Memory, a: Address, widths: seq<nat>, offset: nat, acc: nat)
    requires acc == LoadLe(m, a, offset)
    ensures Combine(m, a, widths, offset, acc) == LoadLe(m, a, offset + Sum(widths))
    decreases |widths|
  {
    if widths != [] {
      var w := widths[0];
      var limb := LoadLe(m, a + offset, w);
      Pow256IsPow2(offset);
      DisjointOr(acc, limb, 8 * offset);
      LoadLeSplit(m, a, offset + w, offset);
      assert Or(acc, Shl(limb, 8 * offset)) == LoadLe(m, a, offset + w) by {
        Commute(limb, Pow256(offset));
      }
      CombineIsLoad(m, a, widths[1..], offset + w, Or(acc, Shl(limb, 8 * offset)));
    }
  }

  function LoadUnaligned(m: Memory, a: Address, total: nat): nat
    requires total > 0
  {
    Combine(m, a, Parts(total, a % total), 0, 0)
  }

  lemma LoadUnalignedIsLoad(m: Memory, a: Address, total: nat)
    requires IsWidth(total)
    ensures LoadUnaligned(m, a, total) == LoadLe(m, a, total)
  {
    PartsFit(a, total);
    CombineIsLoad(m, a, Parts(total, a % total), 0, 0);
  }

  /** The next part of a store, taken from the shifted value. */
  lemma NextPart(m: Memory, a: Address, offset: nat, width: nat, value: nat)
    ensures StoreLe(StoreLe(m, a, offset, value), a + offset, width, Shr(value, 8 * offset))
         == StoreLe(m, a, offset + width, value)
  {
    ShrBytes(value, offset);
    StoreLeConcat(m, a, offset, width, value);
  }

  /** Host memory, and the dirty flags of its pages. */
  class Ram {
    var bytes: Memory
    var dirty: set<nat>

    constructor ()
      ensures bytes == map[] && dirty == {}
    {
      bytes, dirty := map[], {};
    }

    /** One aligned access of `width` bytes. */
    method StoreAligned(a: Address, width: nat, value: nat)
      requires IsWidth(width) && a % width == 0
      modifies this`bytes
      ensures bytes == StoreLe(old(bytes), a, width, value)
    {
      bytes := StoreLe(bytes, a, width, value);
    }

    /** Stores each part of the value with its own aligned access, for any list of widths. */
    method StoreParts(a: Address, parts: seq<nat>, value: nat)
      requires Aligned(a, parts) && forall w :: w in parts ==> IsWidth(w)
      modifies this`bytes
      ensures bytes == StoreLe(old(bytes), a, Sum(parts), value)
    {
      var offset: nat := 0;
      var i: nat := 0;
      while i < |parts|
        invariant i <= |parts| && offset + Sum(parts[i..]) == Sum(parts)
        invariant Aligned(a + offset, parts[i..])
        invariant bytes == StoreLe(old(bytes), a, offset, value)
      {
        NextPart(old(bytes), a, offset, parts[i], value);
        assert parts[i..][0] == parts[i] && parts[i..][1..] == parts[i + 1..];
        assert parts[i] in parts;
        StoreAligned(a + offset, parts[i], Shr(value, 8 * offset));
        offset := offset + parts[i];
        i := i + 1;
      }
      assert parts[i..] == [];
    }

    method StoreUnaligned(a: Address, total: nat, value: nat)
      requires IsWidth(total)
      modifies this`bytes
      ensures bytes == StoreLe(old(bytes), a, total, value)
    {
      PartsFit(a, total);
      StoreParts(a, Parts(total, a % total), value);
    }
  }

  /** Splitting a value over any list of widths and combining the parts again gives the value back. */
  lemma SplitThenCombine(m: Memory, a: Address, widths: seq<nat>, value: nat)
    ensures Combine(StoreLe(m, a, Sum(widths), value), a, widths, 0, 0) == value % Pow256(Sum(widths))
  {
    CombineIsLoad(StoreLe(m, a, Sum(widths), value), a, widths, 0, 0);
    StoreThenLoad(m, a, Sum(widths), value);
  }
}
