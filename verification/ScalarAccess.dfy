/**
 Guest loads and stores of 1, 2, 4 or 8 bytes at any address.  An access that
 crosses a page boundary loads two aligned words and shifts them together, or
 stores byte by byte from the last byte down.
 */
module ScalarAccess {
  import opened Wrappers
  import opened Results
  import opened Bytes
  import opened Paging
  import opened UnalignedAccess

  /** The pages of an access; `overflow` is the number of bytes in the second one. */
  datatype SmallAccess = SmallAccess(base: Page, offset: nat, second: Page, overflow: nat)

  function PageBase(n: nat): Address {
    n * PAGE_SIZE
  }

  /** Looks up the one or two pages of the access; an error carries the fault address. */
  function Resolve(pages: Pages, a: Address, n: nat): (r: Result<SmallAccess, Address>)
    requires a < ADDRESS_LIMIT && IsWidth(n)
    ensures r.Ok? ==> r.value.overflow < n && r.value.offset < PAGE_SIZE
  {
    var page, offset := a / PAGE_SIZE, a % PAGE_SIZE;
    if page !in pages then Err(PageBase(page))
    else if offset + n <= PAGE_SIZE then Ok(SmallAccess(pages[page], offset, pages[page], 0))
    else if page + 1 >= PAGE_LIMIT then Err(ADDRESS_LIMIT - 1)
    else if page + 1 !in pages then Err(PageBase(page + 1))
    else Ok(SmallAccess(pages[page], offset, pages[page + 1], offset + n - PAGE_SIZE))
  }

  function CheckAllowed(x: SmallAccess, a: Address, need: Need): Option<Address> {
    if !Allows(x.base.flags, need) then Some(a)
    else if x.overflow > 0 && !Allows(x.second.flags, need) then Some(PageBase(a / PAGE_SIZE + 1))
    else None
  }

  /** The fault the access reports, if any. */
  function Fault(pages: Pages, a: Address, n: nat, need: Need): Option<Address>
    requires a < ADDRESS_LIMIT && IsWidth(n)
  {
    match Resolve(pages, a, n)
    case Err(at) => Some(at)
    case Ok(x) => CheckAllowed(x, a, need)
  }

  lemma InRange(a: Address, n: nat, x: Address)
    requires IsWidth(n) && a <= x < a + n
    ensures if a % PAGE_SIZE + (x - a) < PAGE_SIZE
            then x / PAGE_SIZE == a / PAGE_SIZE && x % PAGE_SIZE == a % PAGE_SIZE + (x - a)
            else x / PAGE_SIZE == a / PAGE_SIZE + 1 && x % PAGE_SIZE == a % PAGE_SIZE + (x - a) - PAGE_SIZE
  {
  }

  /** The access goes through exactly when every byte of it is mapped, allowed and below the address limit. */
  lemma FaultIsExact(pages: Pages, a: Address, n: nat, need: Need)
    requires a < ADDRESS_LIMIT && IsWidth(n)
    ensures Fault(pages, a, n, need).None? <==> RangeAccessible(pages, a, n, need)
  {
    if Fault(pages, a, n, need).None? {
      forall x: Address {:trigger Accessible(pages, x, need)} | a <= x < a + n ensures Accessible(pages, x, need) {
        InRange(a, n, x);
      }
    } else {
      var second := PageBase(a / PAGE_SIZE + 1);
      assert Accessible(pages, a, need) ==> second < a + n && !Accessible(pages, second, need);
    }
  }

  /**
   The reported address: the base of an unmapped page, the last address when there
   is no second page, and otherwise the first address that is not allowed.  Both
   pages are looked up before permissions are checked.
   */
  lemma FaultAddress(pages: Pages, a: Address, n: nat, need: Need)
    requires a < ADDRESS_LIMIT && IsWidth(n) && Fault(pages, a, n, need).Some?
    ensures var at, crosses, second := Fault(pages, a, n, need).value, a % PAGE_SIZE + n > PAGE_SIZE, a + n - 1;
      if !IsMapped(pages, a) then at == a - a % PAGE_SIZE
      else if crosses && a + n > ADDRESS_LIMIT then at == ADDRESS_LIMIT - 1
      else if crosses && !IsMapped(pages, second) then at == second - second % PAGE_SIZE
      else if !Accessible(pages, a, need) then at == a
      else crosses && at == second - second % PAGE_SIZE && !Accessible(pages, at, need)
    ensures var at := Fault(pages, a, n, need).value;
      !Accessible(pages, at, need) || (at == ADDRESS_LIMIT - 1 && a + n > ADDRESS_LIMIT)
  {
    InRange(a, n, a + n - 1);
  }

  lemma Mapped(pages: Pages, a: Address, n: nat)
    requires a < ADDRESS_LIMIT && IsWidth(n) && Resolve(pages, a, n).Ok?
    ensures RangeMapped(pages, a, n)
  {
  }

  // ---------------------------------------------------------------------
  // Loads

  /** The end of one page and the start of the next, shifted together. */
  function CrossingLoad(m: Memory, x: SmallAccess, n: nat): nat
    requires x.overflow < n <= PAGE_SIZE
  {
    var hi := LoadLe(m, HostAddress(x.second, 0), n);
    var lo := LoadLe(m, HostAddress(x.base, PAGE_SIZE - n), n);
    var bits := 8 * x.overflow;
    Or(Truncate(Shl(hi, 8 * n - bits), 8 * n), Shr(lo, bits))
  }

  /** Bytes that lie next to each other in one frame. */
  lemma {:induction false} VLoadInPage(pages: Pages, m: Memory, a: Address, n: nat)
    requires RangeMapped(pages, a, n) && a % PAGE_SIZE + n <= PAGE_SIZE && IsMapped(pages, a)
    ensures VLoad(pages, m, a, n) == LoadLe(m, Translate(pages, a), n)
    decreases n
  {
    if n > 1 {
      NextByte(a);
      VLoadInPage(pages, m, a + 1, n - 1);
    }
  }

  lemma NextByte(a: Address)
    requires a % PAGE_SIZE + 1 < PAGE_SIZE
    ensures (a + 1) / PAGE_SIZE == a / PAGE_SIZE && (a + 1) % PAGE_SIZE == a % PAGE_SIZE + 1
  {
  }

  lemma {:induction false} VLoadSplit(pages: Pages, m: Memory, a: Address, n: nat, k: nat)
    requires RangeMapped(pages, a, n) && k <= n
    ensures VLoad(pages, m, a, n) == VLoad(pages, m, a, k) + Pow256(k) * VLoad(pages, m, a + k, n - k)
    decreases k
  {
    if k > 0 {
      VLoadSplit(pages, m, a + 1, n - 1, k - 1);
      assert a + 1 + (k - 1) == a + k;
      Distribute(VLoad(pages, m, a + 1, k - 1), Pow256(k - 1), VLoad(pages, m, a + k, n - k));
    }
  }

  lemma ShrLow(low: nat, p: nat, high: nat)
    requires low < p
    ensures (low + p * high) / p == high && (low + p * high) % p == low
  {
    ModUnique(low + p * high, p, high, low);
  }

  lemma ShiftedProduct(low: nat, high: nat, p: nat, q: nat)
    requires low < p && q > 0
    ensures p * q > 0 && (low + p * high) * q % (p * q) == low * q
  {
    Expand(low, p, high, q);
    Multiples(q, low, p);
    Commute(q, low);
    Commute(q, p);
    ModUnique((low + p * high) * q, p * q, high, low * q);
  }

  lemma Expand(low: nat, p: nat, high: nat, q: nat)
    ensures (low + p * high) * q == (p * q) * high + low * q
  {
    assert (p * high) * q == (p * q) * high;
  }

  /** Shifting a word up drops its high bytes. */
  lemma ShiftedUp(low: nat, high: nat, k: nat, n: nat)
    requires k <= n && low < Pow256(k)
    ensures Truncate(Shl(low + Pow256(k) * high, 8 * (n - k)), 8 * n) == low * Pow256(n - k)
  {
    Pow256IsPow2(n - k);
    Pow256IsPow2(n);
    Pow256Add(k, n - k);
    ShiftedProduct(low, high, Pow256(k), Pow256(n - k));
  }

  /** Shifting a word down by whole bytes leaves the word that starts that many bytes later. */
  lemma DropLow(m: Memory, start: Address, n: nat, k: nat)
    requires k <= n
    ensures Shr(LoadLe(m, start, n), 8 * k) == LoadLe(m, start + k, n - k)
  {
    LoadLeSplit(m, start, n, k);
    ShrBytes(LoadLe(m, start, n), k);
    RestIsQuotient(LoadLe(m, start, n), k);
    ShrLow(LoadLe(m, start, k), Pow256(k), LoadLe(m, start + k, n - k));
  }

  /** Shifting a word up until `k` bytes are left keeps the low ones. */
  lemma KeepLow(m: Memory, start: Address, n: nat, k: nat)
    requires k <= n
    ensures Truncate(Shl(LoadLe(m, start, n), 8 * (n - k)), 8 * n) == LoadLe(m, start, k) * Pow256(n - k)
  {
    LoadLeSplit(m, start, n, k);
    ShiftedUp(LoadLe(m, start, k), LoadLe(m, start + k, n - k), k, n);
  }

  lemma OrParts(low: nat, high: nat, k: nat)
    requires low < Pow256(k)
    ensures Or(high * Pow256(k), low) == low + Pow256(k) * high
  {
    Pow256IsPow2(k);
    DisjointOr(low, high, 8 * k);
    OrCommutes(low, Shl(high, 8 * k));
    Commute(high, Pow256(k));
  }

  /** The access crosses into the second page. */
  predicate Crossing(a: Address, n: nat, x: SmallAccess) {
    x.offset == a % PAGE_SIZE && 0 < x.overflow < n <= PAGE_SIZE && x.offset + n == PAGE_SIZE + x.overflow
  }

  /** The virtual bytes of a crossing access lie at the end of one frame and the start of the other. */
  lemma VLoadCrossing(pages: Pages, m: Memory, a: Address, n: nat, x: SmallAccess)
    requires RangeMapped(pages, a, n) && Crossing(a, n, x)
    requires IsMapped(pages, a) && pages[a / PAGE_SIZE] == x.base
    requires a / PAGE_SIZE + 1 in pages && pages[a / PAGE_SIZE + 1] == x.second
    ensures VLoad(pages, m, a, n) == LoadLe(m, HostAddress(x.base, x.offset), n - x.overflow)
                                     + Pow256(n - x.overflow) * LoadLe(m, HostAddress(x.second, 0), x.overflow)
  {
    var k := n - x.overflow;
    NextPage(a);
    assert IsMapped(pages, a + k);
    VLoadSplit(pages, m, a, n, k);
    VLoadInPage(pages, m, a, k);
    VLoadInPage(pages, m, a + k, x.overflow);
  }

  lemma NextPage(a: Address)
    ensures var next := a + (PAGE_SIZE - a % PAGE_SIZE);
      next % PAGE_SIZE == 0 && next / PAGE_SIZE == a / PAGE_SIZE + 1
  {
  }

  lemma OrWords(m: Memory, a: Address, n: nat, x: SmallAccess)
    requires Crossing(a, n, x)
    ensures CrossingLoad(m, x, n) == LoadLe(m, HostAddress(x.base, x.offset), n - x.overflow)
                                     + Pow256(n - x.overflow) * LoadLe(m, HostAddress(x.second, 0), x.overflow)
  {
    DropLow(m, HostAddress(x.base, PAGE_SIZE - n), n, x.overflow);
    assert HostAddress(x.base, PAGE_SIZE - n) + x.overflow == HostAddress(x.base, x.offset);
    KeepLow(m, HostAddress(x.second, 0), n, x.overflow);
    assert 8 * n - 8 * x.overflow == 8 * (n - x.overflow);
    OrParts(LoadLe(m, HostAddress(x.base, x.offset), n - x.overflow), LoadLe(m, HostAddress(x.second, 0), x.overflow),
            n - x.overflow);
  }

  /** The two shifted words are the bytes of the access. */
  lemma CrossingLoadIsLoad(pages: Pages, m: Memory, a: Address, n: nat, x: SmallAccess)
    requires a < ADDRESS_LIMIT && IsWidth(n) && Resolve(pages, a, n) == Ok(x) && x.overflow > 0
    requires RangeMapped(pages, a, n)
    ensures CrossingLoad(m, x, n) == VLoad(pages, m, a, n)
  {
    VLoadCrossing(pages, m, a, n, x);
    OrWords(m, a, n, x);
  }

  /** What a load returns: the little-endian bytes of the range, or the fault. */
  method LoadScalar(ram: Ram, pages: Pages, a: Address, n: nat) returns (result: Result<nat, Address>)
    requires a < ADDRESS_LIMIT && IsWidth(n)
    ensures result.Err? ==> Fault(pages, a, n, Read) == Some(result.error)
    ensures result.Ok? ==> Fault(pages, a, n, Read).None? && RangeMapped(pages, a, n)
                           && result.value == VLoad(pages, ram.bytes, a, n)
  {
    var resolved := Resolve(pages, a, n);
    if resolved.Err? {
      return Err(resolved.error);
    }
    var x := resolved.value;
    Mapped(pages, a, n);
    if x.overflow == 0 {
      if !Allows(x.base.flags, Read) {
        return Err(a);
      }
      LoadUnalignedIsLoad(ram.bytes, HostAddress(x.base, x.offset), n);
      VLoadInPage(pages, ram.bytes, a, n);
      return Ok(LoadUnaligned(ram.bytes, HostAddress(x.base, x.offset), n));
    }
    var fault := CheckAllowed(x, a, Read);
    if fault.Some? {
      return Err(fault.value);
    }
    CrossingLoadIsLoad(pages, ram.bytes, a, n, x);
    return Ok(CrossingLoad(ram.bytes, x, n));
  }

  // ---------------------------------------------------------------------
  // Stores

  lemma {:induction false} VStoreInPage(pages: Pages, m: Memory, a: Address, n: nat, v: nat)
    requires RangeMapped(pages, a, n) && a % PAGE_SIZE + n <= PAGE_SIZE && IsMapped(pages, a)
    ensures VStore(pages, m, a, n, v) == StoreLe(m, Translate(pages, a), n, v)
    decreases n
  {
    if n > 1 {
      NextByte(a);
      VStoreInPage(pages, m[Translate(pages, a) := v % 256], a + 1, n - 1, v / 256);
    }
  }

  lemma {:induction false} VStoreSplit(pages: Pages, m: Memory, a: Address, n: nat, k: nat, v: nat)
    requires RangeMapped(pages, a, n) && k <= n
    ensures VStore(pages, m, a, n, v) == VStore(pages, VStore(pages, m, a, k, v), a + k, n - k, Rest(v, k))
    decreases k
  {
    if k > 0 {
      assert IsMapped(pages, a);
      VStoreSplit(pages, m[Translate(pages, a) := v % 256], a + 1, n - 1, k - 1, v / 256);
      assert a + 1 + (k - 1) == a + k;
    }
  }

  /** A crossing store writes the end of one frame and the start of the other. */
  lemma VStoreCrossing(pages: Pages, m: Memory, a: Address, n: nat, x: SmallAccess, v: nat)
    requires RangeMapped(pages, a, n) && Crossing(a, n, x) && x.overflow <= x.offset
    requires IsMapped(pages, a) && pages[a / PAGE_SIZE] == x.base
    requires a / PAGE_SIZE + 1 in pages && pages[a / PAGE_SIZE + 1] == x.second
    ensures VStore(pages, m, a, n, v)
            == StoreLe(StoreLe(m, HostAddress(x.second, 0), x.overflow, Rest(v, n - x.overflow)),
                       HostAddress(x.base, x.offset), n - x.overflow, v)
  {
    var k := n - x.overflow;
    NextPage(a);
    assert IsMapped(pages, a + k);
    VStoreSplit(pages, m, a, n, k, v);
    VStoreInPage(pages, m, a, k, v);
    VStoreInPage(pages, StoreLe(m, HostAddress(x.base, x.offset), k, v), a + k, x.overflow, Rest(v, k));
    PartsCommute(m, x, k, v, Rest(v, k));
  }

  /** The end of one frame and the start of another never overlap, not even in the same frame. */
  lemma PartsCommute(m: Memory, x: SmallAccess, k: nat, v: nat, w: nat)
    requires x.offset + k == PAGE_SIZE && x.overflow <= x.offset
    ensures StoreLe(StoreLe(m, HostAddress(x.base, x.offset), k, v), HostAddress(x.second, 0), x.overflow, w)
         == StoreLe(StoreLe(m, HostAddress(x.second, 0), x.overflow, w), HostAddress(x.base, x.offset), k, v)
  {
    StoresCommute(m, HostAddress(x.base, x.offset), k, v, HostAddress(x.second, 0), x.overflow, w);
  }

  /** The dirty cells of the pages that the range touches. */
  function Dirtied(pages: Pages, a: Address, n: nat): set<nat> {
    set x: Address | a <= x < a + n && IsMapped(pages, x) && MustDirty(pages[x / PAGE_SIZE].flags)
      :: pages[x / PAGE_SIZE].cell
  }

  /** Stores dirty exactly the pages they touch that are executable or backed by a shared object. */
  lemma DirtiedIff(pages: Pages, a: Address, n: nat, cell: nat)
    ensures cell in Dirtied(pages, a, n) <==>
      exists x: Address :: a <= x < a + n && IsMapped(pages, x) && pages[x / PAGE_SIZE].cell == cell
        && (pages[x / PAGE_SIZE].flags.prot.execute || pages[x / PAGE_SIZE].flags.objBacked)
  {
  }

  lemma DirtiedPages(pages: Pages, a: Address, n: nat, x: SmallAccess)
    requires a < ADDRESS_LIMIT && IsWidth(n) && Resolve(pages, a, n) == Ok(x)
    ensures Dirtied(pages, a, n) == DirtyCell(x.base) + (if x.overflow > 0 then DirtyCell(x.second) else {})
  {
    var second := a + (PAGE_SIZE - x.offset);
    NextPage(a);
    forall c ensures c in Dirtied(pages, a, n)
      <==> c in DirtyCell(x.base) + (if x.overflow > 0 then DirtyCell(x.second) else {})
    {
      if c in Dirtied(pages, a, n) {
        var y: Address :| a <= y < a + n && IsMapped(pages, y) && MustDirty(pages[y / PAGE_SIZE].flags)
                          && pages[y / PAGE_SIZE].cell == c;
        InRange(a, n, y);
      }
      if c in DirtyCell(x.base) {
        assert IsMapped(pages, a);
      }
      if x.overflow > 0 && c in DirtyCell(x.second) {
        assert IsMapped(pages, second);
      }
    }
  }

  function DirtyCell(p: Page): set<nat> {
    if MustDirty(p.flags) then {p.cell} else {}
  }

  method SetDirty(ram: Ram, page: Page)
    modifies ram`dirty
    ensures ram.dirty == old(ram.dirty) + DirtyCell(page)
  {
    if MustDirty(page.flags) {
      ram.dirty := ram.dirty + {page.cell};
    }
  }

  /** Writes the bytes of the value from the last one down, first into the second page. */
  method StoreCrossing(ram: Ram, x: SmallAccess, n: nat, value: nat)
    requires 0 < x.overflow < n && x.offset + n == PAGE_SIZE + x.overflow
    modifies ram`bytes
    ensures ram.bytes == StoreLe(StoreLe(old(ram.bytes), HostAddress(x.second, 0), x.overflow,
                                         Rest(value, n - x.overflow)),
                                 HostAddress(x.base, x.offset), n - x.overflow, value)
  {
    var k := n - x.overflow;
    var active := HostAddress(x.second, 0) + x.overflow;
    var i := n;
    while i > k
      invariant k <= i <= n && active == HostAddress(x.second, 0) + (i - k)
      invariant ram.bytes == StoreLe(old(ram.bytes), active, n - i, Rest(value, i))
    {
      active := active - 1;
      i := i - 1;
      RestNext(value, i);
      StoreDown(old(ram.bytes), active, n - i - 1, Rest(value, i));
      ram.StoreAligned(active, 1, ByteOf(value, i));
    }
    ghost var second := ram.bytes;
    active := HostAddress(x.base, PAGE_SIZE);
    while i > 0
      invariant 0 <= i <= k && active == HostAddress(x.base, PAGE_SIZE) - (k - i)
      invariant ram.bytes == StoreLe(second, active, k - i, Rest(value, i))
    {
      active := active - 1;
      i := i - 1;
      RestNext(value, i);
      StoreDown(second, active, k - i - 1, Rest(value, i));
      ram.StoreAligned(active, 1, ByteOf(value, i));
    }
  }

  /** Stores the value byte by byte as far as anyone can tell; a fault changes nothing. */
  method StoreScalar(ram: Ram, pages: Pages, a: Address, n: nat, value: nat) returns (fault: Option<Address>)
    requires a < ADDRESS_LIMIT && IsWidth(n)
    modifies ram
    ensures fault == Fault(pages, a, n, Write)
    ensures fault.Some? ==> ram.bytes == old(ram.bytes) && ram.dirty == old(ram.dirty)
    ensures fault.None? ==> RangeMapped(pages, a, n) && ram.bytes == VStore(pages, old(ram.bytes), a, n, value)
    ensures fault.None? ==> ram.dirty == old(ram.dirty) + Dirtied(pages, a, n)
  {
    var resolved := Resolve(pages, a, n);
    if resolved.Err? {
      return Some(resolved.error);
    }
    var x := resolved.value;
    fault := CheckAllowed(x, a, Write);
    if fault.Some? {
      return;
    }
    Mapped(pages, a, n);
    DirtiedPages(pages, a, n, x);
    if x.overflow == 0 {
      VStoreInPage(pages, ram.bytes, a, n, value);
      ram.StoreUnaligned(HostAddress(x.base, x.offset), n, value);
      SetDirty(ram, x.base);
    } else {
      VStoreCrossing(pages, ram.bytes, a, n, x, value);
      StoreCrossing(ram, x, n, value);
      SetDirty(ram, x.base);
      SetDirty(ram, x.second);
    }
  }

  // ---------------------------------------------------------------------
  // What the byte-wise accesses promise

  /** Some byte of the range lives at host address `h`. */
  ghost predicate Hits(pages: Pages, a: Address, n: nat, h: Address) {
    exists x: Address {:trigger IsMapped(pages, x)} :: a <= x < a + n && IsMapped(pages, x) && Translate(pages, x) == h
  }

  /** No byte outside the range changes. */
  lemma {:induction false} VStoreFrame(pages: Pages, m: Memory, a: Address, n: nat, v: nat, h: Address)
    requires RangeMapped(pages, a, n) && !Hits(pages, a, n, h)
    ensures At(VStore(pages, m, a, n, v), h) == At(m, h)
    decreases n
  {
    if n > 0 {
      assert IsMapped(pages, a);
      forall x: Address {:trigger IsMapped(pages, x)} | a + 1 <= x < a + n && IsMapped(pages, x)
        ensures Translate(pages, x) != h
      {
      }
      VStoreFrame(pages, m[Translate(pages, a) := v % 256], a + 1, n - 1, v / 256, h);
    }
  }

  lemma OnlyOnce(pages: Pages, a: Address, n: nat)
    requires IsMapped(pages, a) && 0 < n <= PAGE_SIZE
    ensures !Hits(pages, a + 1, n - 1, Translate(pages, a))
  {
  }

  /** Loading a stored value gives it back, even if two pages of the range share a frame. */
  lemma {:induction false} VStoreThenVLoad(pages: Pages, m: Memory, a: Address, n: nat, v: nat)
    requires RangeMapped(pages, a, n) && n <= PAGE_SIZE
    ensures VLoad(pages, VStore(pages, m, a, n, v), a, n) == v % Pow256(n)
    decreases n
  {
    if n > 0 {
      assert IsMapped(pages, a);
      var first := m[Translate(pages, a) := v % 256];
      OnlyOnce(pages, a, n);
      VStoreThenVLoad(pages, first, a + 1, n - 1, v / 256);
      VStoreFrame(pages, first, a + 1, n - 1, v / 256, Translate(pages, a));
      SplitMod(v, Pow256(n - 1));
    }
  }
}
