/**
 Pages of the guest address space: page numbers, permission flags, and what the
 page table resolves a page number to.
 */
module Paging {
  import opened Bytes

  const PAGE_SIZE: nat := 4096
  const ADDRESS_LIMIT: nat := 0x1_0000_0000_0000_0000
  const PAGE_LIMIT: nat := 0x10_0000_0000_0000

  datatype MemProt = MemProt(read: bool, write: bool, execute: bool)

  datatype MemFlags = MemFlags(prot: MemProt, objBacked: bool, cow: bool)

  /** A resolved page: its host frame, its flags, and the cell that holds its dirty flags. */
  datatype Page = Page(frame: nat, flags: MemFlags, cell: nat)

  /** What `get_page` answers for each mapped page number. */
  type Pages = map<nat, Page>

  predicate MustDirty(f: MemFlags) {
    f.prot.execute || f.objBacked
  }

  /** Whether the flags hold the one permission that `need` asks for. */
  datatype Need = Read | Write | Execute

  predicate Allows(f: MemFlags, need: Need) {
    match need
    case Read => f.prot.read
    case Write => f.prot.write
    case Execute => f.prot.execute
  }

  function HostAddress(p: Page, offset: nat): Address {
    p.frame * PAGE_SIZE + offset
  }

  /** The byte at `a` is mapped and may be accessed. */
  predicate Accessible(pages: Pages, a: Address, need: Need) {
    a < ADDRESS_LIMIT && a / PAGE_SIZE in pages && Allows(pages[a / PAGE_SIZE].flags, need)
  }

  /** Where the byte at guest address `a` lives. */
  function Translate(pages: Pages, a: Address): Address
    requires IsMapped(pages, a)
  {
    HostAddress(pages[a / PAGE_SIZE], a % PAGE_SIZE)
  }

  ghost predicate RangeAccessible(pages: Pages, a: Address, n: nat, need: Need) {
    forall x: Address {:trigger Accessible(pages, x, need)} :: a <= x < a + n ==> Accessible(pages, x, need)
  }

  predicate IsMapped(pages: Pages, a: Address) {
    a / PAGE_SIZE in pages
  }

  ghost predicate RangeMapped(pages: Pages, a: Address, n: nat) {
    forall x: Address {:trigger IsMapped(pages, x)} :: a <= x < a + n ==> IsMapped(pages, x)
  }

  // ---------------------------------------------------------------------
  // The reference: byte-wise access to virtual memory

  /** The `n`-byte little-endian number at guest address `a`, byte by byte. */
  function VLoad(pages: Pages, m: Memory, a: Address, n: nat): nat
    requires RangeMapped(pages, a, n)
    decreases n
  {
    if n == 0 then 0
    else
      assert IsMapped(pages, a);
      At(m, Translate(pages, a)) + 256 * VLoad(pages, m, a + 1, n - 1)
  }

  /** Stores the low `n` bytes of `v` at guest address `a`, byte by byte in ascending order. */
  function VStore(pages: Pages, m: Memory, a: Address, n: nat, v: nat): Memory
    requires RangeMapped(pages, a, n)
    decreases n
  {
    if n == 0 then m
    else
      assert IsMapped(pages, a);
      VStore(pages, m[Translate(pages, a) := v % 256], a + 1, n - 1, v / 256)
  }
}
