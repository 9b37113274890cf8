/**
 Guest memory accesses in compiled code: an inline path that trusts the
 translation cache, and the host call it falls back to.  Both mean the same.
 */
module InlineAccess {
  import opened Wrappers
  import opened Results
  import opened Bytes
  import opened Paging
  import opened UnalignedAccess
  import opened ScalarAccess
  import opened PageTables
  import opened TlbCoherence

  datatype Access = Load | Store(value: nat)

  /** What the compiled access leaves behind; a trap carries the width in its halt reason. */
  datatype Outcome = Loaded(value: nat) | Stored | Trap(width: nat)

  /** The fault recorded in the execution context. */
  datatype FaultRecord = FaultRecord(vaddr: Address, store: bool, pending: bool)

  class ExecContext {
    var fault: FaultRecord

    constructor ()
      ensures fault == FaultRecord(0, false, false)
    {
      fault := FaultRecord(0, false, false);
    }
  }

  function NeedOf(access: Access): Need {
    if access.Load? then Read else Write
  }

  /** Every page the table resolves. */
  ghost function Resolved(table: Table, slots: Slots): Pages {
    map page | page in table && AsPage(table[page], slots).Some? :: AsPage(table[page], slots).value
  }

  /** What an access to virtual memory means, whichever path it takes. */
  ghost predicate Means(pages: Pages, a: Address, n: nat, access: Access, bytes0: Memory, dirty0: set<nat>,
                        fault0: FaultRecord, out: Outcome, bytes: Memory, dirty: set<nat>, fault: FaultRecord)
    requires a < ADDRESS_LIMIT && IsWidth(n)
  {
    match Fault(pages, a, n, NeedOf(access))
    case Some(at) =>
      out == Trap(n) && fault == FaultRecord(at, access.Store?, true) && bytes == bytes0 && dirty == dirty0
    case None =>
      && fault == fault0 && RangeMapped(pages, a, n)
      && match access
         case Load => out == Loaded(VLoad(pages, bytes0, a, n)) && bytes == bytes0 && dirty == dirty0
         case Store(value) =>
           out == Stored && bytes == VStore(pages, bytes0, a, n, value) && dirty == dirty0 + Dirtied(pages, a, n)
  }

  /** A load goes through exactly when all its bytes may be read, a store when they may all be written. */
  lemma MeaningNeeds(pages: Pages, a: Address, n: nat, access: Access, bytes0: Memory, dirty0: set<nat>,
                     fault0: FaultRecord, out: Outcome, bytes: Memory, dirty: set<nat>, fault: FaultRecord)
    requires a < ADDRESS_LIMIT && IsWidth(n)
    requires Means(pages, a, n, access, bytes0, dirty0, fault0, out, bytes, dirty, fault)
    ensures access.Load? ==> (out.Loaded? <==> RangeAccessible(pages, a, n, Read)) && !out.Stored?
    ensures access.Store? ==> (out.Stored? <==> RangeAccessible(pages, a, n, Write)) && !out.Loaded?
  {
    FaultIsExact(pages, a, n, NeedOf(access));
  }

  /** A mapped byte may be read, written or executed exactly as its page is protected, and lies in its backing page. */
  lemma MappedByte(table: Table, slots: Slots, a: Address, b: Backing)
    requires a < ADDRESS_LIMIT && a / PAGE_SIZE in table
    requires match table[a / PAGE_SIZE].source
      case Shared(page) => page == b
      case Private(page, _) => page == b
      case Object(slot, _) => slot in slots && slots[slot] == b
    ensures var pages, p := Resolved(table, slots), table[a / PAGE_SIZE].protections;
      && (Accessible(pages, a, Read) <==> p.read) && (Accessible(pages, a, Write) <==> p.write)
      && (Accessible(pages, a, Execute) <==> p.execute)
      && IsMapped(pages, a) && Translate(pages, a) == b.frame * PAGE_SIZE + a % PAGE_SIZE
  {
  }

  /** The entries agree with the table of this address space. */
  ghost predicate Trusted(entries: seq<TlbEntry>, mmu: Mmu, slots: Slots) {
    && |entries| == TLB_SIZE
    && forall i {:trigger entries[i]} :: 0 <= i < |entries| && entries[i].ident == Some(mmu.ident) ==>
         entries[i].translation.Some? && entries[i].page < PAGE_LIMIT
         && GetPage(mmu.table, slots, entries[i].page) == entries[i].translation
  }

  /** In a coherent world every cache may be trusted. */
  lemma CoherentIsTrusted(w: World, t: nat, m: nat)
    requires Coherent(w) && t in w.tlbs && m in w.mmus
    ensures Trusted(w.tlbs[t], w.mmus[m], w.slots)
  {
  }

  /** So at every moment of every run, compiled code may trust any cache for any address space. */
  lemma RunsAreTrusted(worlds: seq<World>, ops: seq<Op>, i: nat, t: nat, m: nat)
    requires IsRun(worlds, ops) && i < |worlds| && t in worlds[i].tlbs && m in worlds[i].mmus
    ensures Trusted(worlds[i].tlbs[t], worlds[i].mmus[m], worlds[i].slots)
  {
    RunsAreCoherent(worlds, ops, i);
    CoherentIsTrusted(worlds[i], t, m);
  }

  // ---------------------------------------------------------------------
  // The host call

  /** The two maps agree on page `p`. */
  predicate AgreeOn(a: Pages, b: Pages, p: nat) {
    (p in a <==> p in b) && (p in a ==> a[p] == b[p])
  }

  lemma {:induction false} SameLoad(a: Pages, b: Pages, m: Memory, x: Address, n: nat)
    requires RangeMapped(a, x, n) && RangeMapped(b, x, n)
    requires forall y: Address :: x <= y < x + n ==> AgreeOn(a, b, y / PAGE_SIZE)
    ensures VLoad(a, m, x, n) == VLoad(b, m, x, n)
    decreases n
  {
    if n > 0 {
      assert IsMapped(a, x) && IsMapped(b, x) && AgreeOn(a, b, x / PAGE_SIZE);
      SameLoad(a, b, m, x + 1, n - 1);
    }
  }

  lemma {:induction false} SameStore(a: Pages, b: Pages, m: Memory, x: Address, n: nat, v: nat)
    requires RangeMapped(a, x, n) && RangeMapped(b, x, n)
    requires forall y: Address :: x <= y < x + n ==> AgreeOn(a, b, y / PAGE_SIZE)
    ensures VStore(a, m, x, n, v) == VStore(b, m, x, n, v)
    decreases n
  {
    if n > 0 {
      assert IsMapped(a, x) && IsMapped(b, x) && AgreeOn(a, b, x / PAGE_SIZE);
      SameStore(a, b, m[Translate(a, x) := v % 256], x + 1, n - 1, v / 256);
    }
  }

  predicate Crosses(a: Address, n: nat) {
    a % PAGE_SIZE + n > PAGE_SIZE
  }

  /** An access only depends on the one or two pages it looks up. */
  lemma LocalFault(found: Pages, pages: Pages, a: Address, n: nat, need: Need)
    requires a < ADDRESS_LIMIT && IsWidth(n) && AgreeOn(found, pages, a / PAGE_SIZE)
    requires a / PAGE_SIZE in pages && Crosses(a, n) && a / PAGE_SIZE + 1 < PAGE_LIMIT ==>
      AgreeOn(found, pages, a / PAGE_SIZE + 1)
    ensures ScalarAccess.Resolve(found, a, n) == ScalarAccess.Resolve(pages, a, n)
    ensures Fault(found, a, n, need) == Fault(pages, a, n, need)
  {
  }

  lemma RangeAgrees(found: Pages, pages: Pages, a: Address, n: nat)
    requires a < ADDRESS_LIMIT && IsWidth(n) && AgreeOn(found, pages, a / PAGE_SIZE)
    requires Crosses(a, n) ==> AgreeOn(found, pages, a / PAGE_SIZE + 1)
    ensures forall y: Address :: a <= y < a + n ==> AgreeOn(found, pages, y / PAGE_SIZE)
  {
  }

  lemma SameDirtied(found: Pages, pages: Pages, a: Address, n: nat)
    requires forall y: Address :: a <= y < a + n ==> AgreeOn(found, pages, y / PAGE_SIZE)
    ensures Dirtied(found, a, n) == Dirtied(pages, a, n)
  {
    forall c ensures c in Dirtied(found, a, n) <==> c in Dirtied(pages, a, n) {
      if c in Dirtied(found, a, n) {
        var y: Address :| a <= y < a + n && IsMapped(found, y) && MustDirty(found[y / PAGE_SIZE].flags)
                          && found[y / PAGE_SIZE].cell == c;
        assert AgreeOn(found, pages, y / PAGE_SIZE) && IsMapped(pages, y);
      }
      if c in Dirtied(pages, a, n) {
        var y: Address :| a <= y < a + n && IsMapped(pages, y) && MustDirty(pages[y / PAGE_SIZE].flags)
                          && pages[y / PAGE_SIZE].cell == c;
        assert AgreeOn(found, pages, y / PAGE_SIZE) && IsMapped(found, y);
      }
    }
  }

  /** The meaning of an access carries over from the pages found to the whole table. */
  lemma LocalMeaning(found: Pages, pages: Pages, a: Address, n: nat, access: Access, bytes0: Memory,
                     dirty0: set<nat>, fault0: FaultRecord, out: Outcome, bytes: Memory, dirty: set<nat>,
                     fault: FaultRecord)
    requires a < ADDRESS_LIMIT && IsWidth(n) && AgreeOn(found, pages, a / PAGE_SIZE)
    requires a / PAGE_SIZE in pages && Crosses(a, n) && a / PAGE_SIZE + 1 < PAGE_LIMIT ==>
      AgreeOn(found, pages, a / PAGE_SIZE + 1)
    requires Means(found, a, n, access, bytes0, dirty0, fault0, out, bytes, dirty, fault)
    ensures Means(pages, a, n, access, bytes0, dirty0, fault0, out, bytes, dirty, fault)
  {
    LocalFault(found, pages, a, n, NeedOf(access));
    if Fault(pages, a, n, NeedOf(access)).None? {
      ScalarAccess.Mapped(pages, a, n);
      RangeAgrees(found, pages, a, n);
      SameDirtied(found, pages, a, n);
      match access
      case Load => SameLoad(found, pages, bytes0, a, n);
      case Store(value) => SameStore(found, pages, bytes0, a, n, value);
    }
  }

  /** A lookup through a trusted cache answers what the table answers, and the cache stays trusted. */
  method LookupPage(tlb: Tlb, mmu: IoMMU, slots: Slots, page: nat) returns (result: Option<Page>)
    requires tlb.Valid() && page < PAGE_LIMIT && Trusted(tlb.entries[..], mmu.View(), slots)
    modifies tlb.entries
    ensures Trusted(tlb.entries[..], mmu.View(), slots)
    ensures result == GetPage(mmu.pages.table, slots, page)
  {
    ghost var before := tlb.entries[..];
    assert before[page % TLB_SIZE] == tlb.entries[page % TLB_SIZE];
    result := tlb.Lookup(page, mmu, slots);
  }

  /** The host function: resolves the pages through the cache and accesses memory, or records the fault. */
  method HostAccess(tlb: Tlb, mmu: IoMMU, slots: Slots, ram: Ram, context: ExecContext, a: Address, n: nat,
                    access: Access)
    returns (out: Outcome)
    requires tlb.Valid() && a < ADDRESS_LIMIT && IsWidth(n) && Trusted(tlb.entries[..], mmu.View(), slots)
    modifies tlb.entries, ram, context
    ensures Trusted(tlb.entries[..], mmu.View(), slots)
    ensures Means(Resolved(mmu.pages.table, slots), a, n, access, old(ram.bytes), old(ram.dirty),
                  old(context.fault), out, ram.bytes, ram.dirty, context.fault)
  {
    ghost var pages := Resolved(mmu.pages.table, slots);
    var page := a / PAGE_SIZE;
    var found: Pages := map[];
    var base := LookupPage(tlb, mmu, slots, page);
    if base.Some? {
      found := found[page := base.value];
      if Crosses(a, n) && page + 1 < PAGE_LIMIT {
        var second := LookupPage(tlb, mmu, slots, page + 1);
        if second.Some? {
          found := found[page + 1 := second.value];
        }
      }
    }
    out := AccessPages(found, ram, context, a, n, access);
    LocalMeaning(found, pages, a, n, access, old(ram.bytes), old(ram.dirty), old(context.fault), out, ram.bytes,
                 ram.dirty, context.fault);
  }

  method AccessPages(found: Pages, ram: Ram, context: ExecContext, a: Address, n: nat, access: Access)
    returns (out: Outcome)
    requires a < ADDRESS_LIMIT && IsWidth(n)
    modifies ram, context
    ensures Means(found, a, n, access, old(ram.bytes), old(ram.dirty), old(context.fault), out, ram.bytes, ram.dirty,
                  context.fault)
  {
    match access
    case Load =>
      var result := LoadScalar(ram, found, a, n);
      if result.Err? {
        context.fault := FaultRecord(result.error, false, true);
        return Trap(n);
      }
      return Loaded(result.value);
    case Store(value) =>
      var fault := StoreScalar(ram, found, a, n, value);
      if fault.Some? {
        context.fault := FaultRecord(fault.value, true, true);
        return Trap(n);
      }
      return Stored;
  }

  // ---------------------------------------------------------------------
  // The inline path

  /** The arithmetic shift right that the compiled code derives the page number with. */
  function SignExtendedShift(a: Address): nat
    requires a < ADDRESS_LIMIT
  {
    if a < ADDRESS_LIMIT / 2 then a / PAGE_SIZE else a / PAGE_SIZE + (ADDRESS_LIMIT - PAGE_LIMIT)
  }

  /** The shifted value selects the right entry, and can match a page number only by being the right one. */
  lemma ShiftCanOnlyMiss(a: Address, page: nat)
    requires a < ADDRESS_LIMIT && page < PAGE_LIMIT
    ensures SignExtendedShift(a) % TLB_SIZE == a / PAGE_SIZE % TLB_SIZE
    ensures SignExtendedShift(a) == page <==> a < ADDRESS_LIMIT / 2 && page == a / PAGE_SIZE
  {
    assert (ADDRESS_LIMIT - PAGE_LIMIT) % TLB_SIZE == 0;
  }

  /** A naturally aligned access lies within its page. */
  lemma AlignedStaysInPage(a: Address, n: nat)
    requires IsWidth(n) && a % n == 0
    ensures !Crosses(a, n) && (a % PAGE_SIZE) % n == 0
  {
  }

  function OnePageFault(page: Page, a: Address, need: Need): Option<Address> {
    if Allows(page.flags, need) then None else Some(a)
  }

  /** The meaning of an access that stays in one page. */
  lemma OnePageMeaning(pages: Pages, m: Memory, a: Address, n: nat)
    requires a < ADDRESS_LIMIT && IsWidth(n) && IsMapped(pages, a) && !Crosses(a, n)
    ensures RangeMapped(pages, a, n)
    ensures VLoad(pages, m, a, n) == LoadLe(m, Translate(pages, a), n)
    ensures forall v: nat :: VStore(pages, m, a, n, v) == StoreLe(m, Translate(pages, a), n, v)
    ensures forall need :: Fault(pages, a, n, need) == OnePageFault(pages[a / PAGE_SIZE], a, need)
    ensures Dirtied(pages, a, n) == DirtyCell(pages[a / PAGE_SIZE])
  {
    ScalarAccess.Mapped(pages, a, n);
    VLoadInPage(pages, m, a, n);
    forall v: nat ensures VStore(pages, m, a, n, v) == StoreLe(m, Translate(pages, a), n, v) {
      VStoreInPage(pages, m, a, n, v);
    }
    DirtiedPages(pages, a, n, ScalarAccess.Resolve(pages, a, n).value);
  }

  /** The compiled access: the inline path when the cache entry matches, otherwise the host call. */
  method VmAccess(tlb: Tlb, mmu: IoMMU, slots: Slots, ram: Ram, context: ExecContext, a: Address, n: nat,
                  access: Access)
    returns (out: Outcome)
    requires tlb.Valid() && a < ADDRESS_LIMIT && IsWidth(n) && Trusted(tlb.entries[..], mmu.View(), slots)
    modifies tlb.entries, ram, context
    ensures Trusted(tlb.entries[..], mmu.View(), slots)
    ensures Means(Resolved(mmu.pages.table, slots), a, n, access, old(ram.bytes), old(ram.dirty),
                  old(context.fault), out, ram.bytes, ram.dirty, context.fault)
  {
    ghost var pages := Resolved(mmu.pages.table, slots);
    var pageNumber := SignExtendedShift(a);
    var entry := tlb.entries[pageNumber % TLB_SIZE];
    assert entry == tlb.entries[..][pageNumber % TLB_SIZE];
    if entry.ident != Some(mmu.identifier) || entry.page != pageNumber || (n != 1 && a % n != 0) {
      out := HostAccess(tlb, mmu, slots, ram, context, a, n, access);
      return;
    }
    ShiftCanOnlyMiss(a, entry.page);
    AlignedStaysInPage(a, n);
    out := AccessHit(ram, context, entry.translation.value, a, n, access, pages);
  }

  /** An aligned access to the page of the matching entry. */
  method AccessHit(ram: Ram, context: ExecContext, page: Page, a: Address, n: nat, access: Access, ghost pages: Pages)
    returns (out: Outcome)
    requires a < ADDRESS_LIMIT && IsWidth(n) && IsMapped(pages, a) && pages[a / PAGE_SIZE] == page
    requires !Crosses(a, n) && (a % PAGE_SIZE) % n == 0
    modifies ram, context
    ensures Means(pages, a, n, access, old(ram.bytes), old(ram.dirty), old(context.fault), out, ram.bytes, ram.dirty,
                  context.fault)
  {
    OnePageMeaning(pages, ram.bytes, a, n);
    assert Fault(pages, a, n, NeedOf(access)) == OnePageFault(page, a, NeedOf(access));
    if !Allows(page.flags, NeedOf(access)) {
      context.fault := FaultRecord(a, access.Store?, true);
      return Trap(n);
    }
    var host := HostAddress(page, a % PAGE_SIZE);
    FrameAligned(page, a, n);
    match access
    case Load =>
      return Loaded(LoadLe(ram.bytes, host, n));
    case Store(value) =>
      ram.StoreAligned(host, n, value);
      if MustDirty(page.flags) {
        ram.dirty := ram.dirty + {page.cell};
      }
      return Stored;
  }

  lemma FrameAligned(page: Page, a: Address, n: nat)
    requires IsWidth(n) && (a % PAGE_SIZE) % n == 0
    ensures HostAddress(page, a % PAGE_SIZE) % n == 0
  {
  }

  /** The meaning leaves no choice, so the two paths agree in every observable. */
  lemma MeaningIsUnique(pages: Pages, a: Address, n: nat, access: Access, bytes0: Memory, dirty0: set<nat>,
                        fault0: FaultRecord, out1: Outcome, bytes1: Memory, dirty1: set<nat>, fault1: FaultRecord,
                        out2: Outcome, bytes2: Memory, dirty2: set<nat>, fault2: FaultRecord)
    requires a < ADDRESS_LIMIT && IsWidth(n)
    requires Means(pages, a, n, access, bytes0, dirty0, fault0, out1, bytes1, dirty1, fault1)
    requires Means(pages, a, n, access, bytes0, dirty0, fault0, out2, bytes2, dirty2, fault2)
    ensures out1 == out2 && bytes1 == bytes2 && dirty1 == dirty2 && fault1 == fault2
  {
  }
}
