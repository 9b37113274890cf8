/**
 The page table of an address space and the operations that change it.  Every
 change that can alter a translation gives the address space a new identifier.
 */
module PageTables {
  import opened Wrappers
  import opened Results
  import opened Bytes
  import opened Paging

  /** A host page: its frame and the cell that holds its dirty flags. */
  datatype Backing = Backing(frame: nat, cell: nat)

  datatype PageSource =
    | Shared(page: Backing)
    | Private(page: Backing, writeProtected: bool)
    | Object(slot: nat, shared: bool)

  datatype PageEntry = PageEntry(source: PageSource, protections: MemProt)

  type Table = map<nat, PageEntry>

  /** The object slots whose page has been faulted in. */
  type Slots = map<nat, Backing>

  type Ident = nat

  function Union(a: MemProt, b: MemProt): MemProt {
    MemProt(a.read || b.read, a.write || b.write, a.execute || b.execute)
  }

  function Resolve(b: Backing, flags: MemFlags, protections: MemProt): Page {
    Page(b.frame, flags.(prot := Union(flags.prot, protections)), b.cell)
  }

  /** The page an entry stands for, unless it is an object page that was never faulted in. */
  function AsPage(e: PageEntry, slots: Slots): Option<Page> {
    match e.source
    case Shared(page) => Some(Resolve(page, MemFlags(e.protections, false, false), e.protections))
    case Private(page, writeProtected) =>
      var flags :=
        if writeProtected then MemFlags(e.protections.(write := false), false, true)
        else MemFlags(e.protections, false, false);
      Some(Resolve(page, flags, e.protections))
    case Object(slot, shared) =>
      if slot !in slots then None
      else Some(Resolve(slots[slot], MemFlags(e.protections, shared, false), e.protections))
  }

  function GetPage(table: Table, slots: Slots, page: nat): Option<Page> {
    if page in table then AsPage(table[page], slots) else None
  }

  /** The flags of a resolved page: the write permission of a copy-on-write page is masked and then or-ed back. */
  lemma ResolvedFlags(e: PageEntry, slots: Slots)
    requires AsPage(e, slots).Some?
    ensures var flags := AsPage(e, slots).value.flags;
      && flags.prot == e.protections
      && (flags.cow <==> e.source.Private? && e.source.writeProtected)
      && (flags.objBacked <==> e.source.Object? && e.source.shared)
  {
  }

  /** A resolved page lies where its source says; only an object page that was never faulted in has no place. */
  lemma ResolvedPlace(e: PageEntry, slots: Slots)
    ensures AsPage(e, slots).None? <==> e.source.Object? && e.source.slot !in slots
    ensures e.source.Shared? ==> LiesAt(AsPage(e, slots), e.source.page)
    ensures e.source.Private? ==> LiesAt(AsPage(e, slots), e.source.page)
    ensures e.source.Object? && e.source.slot in slots ==> LiesAt(AsPage(e, slots), slots[e.source.slot])
  {
  }

  /** The page has the frame and the dirty cell of `b`. */
  predicate LiesAt(page: Option<Page>, b: Backing) {
    page.Some? && page.value.frame == b.frame && page.value.cell == b.cell
  }

  /** Both tables translate every page alike, whatever objects are faulted in later. */
  ghost predicate SameTranslation(a: Table, b: Table) {
    forall page: nat, slots: Slots {:trigger GetPage(a, slots, page)} {:trigger GetPage(b, slots, page)} ::
      GetPage(a, slots, page) == GetPage(b, slots, page)
  }

  /** A page-aligned range of pages. */
  datatype Range = Range(first: nat, count: nat)

  predicate InRange(r: Range, page: nat) {
    r.first <= page < r.first + r.count
  }

  function PagesOf(r: Range): (pages: set<nat>)
    ensures forall page :: page in pages <==> InRange(r, page)
    decreases r.count
  {
    if r.count == 0 then {} else PagesOf(Range(r.first, r.count - 1)) + {r.first + r.count - 1}
  }

  /** `table` with every page of the range mapped to its source. */
  ghost function Mapped(table: Table, r: Range, protections: MemProt, sources: seq<PageSource>): Table
    requires |sources| == r.count
  {
    table + map page | page in PagesOf(r) :: PageEntry(sources[page - r.first], protections)
  }

  ghost function Unmapped(table: Table, r: Range): Table {
    map page | page in table && !InRange(r, page) :: table[page]
  }

  ghost function Protected(table: Table, r: Range, protections: MemProt): Table {
    map page | page in table ::
      if InRange(r, page) then table[page].(protections := protections) else table[page]
  }

  ghost function UnCowed(table: Table, copies: map<nat, Backing>): Table {
    map page | page in table :: UnCow(table[page], page, copies)
  }

  lemma MappedNext(table: Table, r: Range, protections: MemProt, sources: seq<PageSource>, page: nat)
    requires |sources| == r.count && InRange(r, page)
    ensures var done := page - r.first;
      Mapped(table, Range(r.first, done + 1), protections, sources[..done + 1])
      == Mapped(table, Range(r.first, done), protections, sources[..done])
           [page := PageEntry(sources[done], protections)]
  {
  }

  /** After mapping, the pages of the range resolve to what was passed in for them, and all others as before. */
  lemma MappedPages(table: Table, r: Range, protections: MemProt, sources: seq<PageSource>, slots: Slots, page: nat)
    requires |sources| == r.count
    ensures var now := GetPage(Mapped(table, r, protections, sources), slots, page);
      if InRange(r, page) then now == AsPage(PageEntry(sources[page - r.first], protections), slots)
      else now == GetPage(table, slots, page)
  {
  }

  /** After unmapping, the pages of the range do not resolve, and all others do as before. */
  lemma UnmappedPages(table: Table, r: Range, slots: Slots, page: nat)
    ensures GetPage(Unmapped(table, r), slots, page) == if InRange(r, page) then None else GetPage(table, slots, page)
  {
  }

  /** A change of protections changes nothing else about a page, and only about the pages of the range. */
  lemma ProtectedPages(table: Table, r: Range, protections: MemProt, slots: Slots, page: nat)
    ensures var was, now := GetPage(table, slots, page), GetPage(Protected(table, r, protections), slots, page);
      if InRange(r, page) && was.Some? then
        now == Some(was.value.(flags := was.value.flags.(prot := protections)))
      else now == was
  {
  }

  /** Copying moves exactly the copy-on-write pages to their copies, keeping their protections. */
  lemma UnCowedPages(table: Table, copies: map<nat, Backing>, slots: Slots, page: nat)
    requires forall p :: p in table && IsCow(table[p]) ==> p in copies
    ensures var was, now := GetPage(table, slots, page), GetPage(UnCowed(table, copies), slots, page);
      if was.Some? && was.value.flags.cow then
        LiesAt(now, copies[page]) && now.value.flags == was.value.flags.(cow := false)
      else now == was
  {
  }

  function PageRange(base: Address, size: nat): Range {
    Range(base / PAGE_SIZE, size / PAGE_SIZE)
  }

  /** The pages from `base` on, or the fault address when the arguments do not name whole pages. */
  function GetPages(base: Address, size: nat): (r: Result<Option<Range>, Address>)
    requires base < ADDRESS_LIMIT && size < ADDRESS_LIMIT
    ensures r.Ok? && r.value.Some? ==>
      r.value.value.count > 0 && r.value.value.first + r.value.value.count <= PAGE_LIMIT
  {
    if base % PAGE_SIZE != 0 || size % PAGE_SIZE != 0 then Err(base)
    else if base + size >= ADDRESS_LIMIT && (base + size) % ADDRESS_LIMIT != 0 then Err(ADDRESS_LIMIT - 1)
    else if size / PAGE_SIZE == 0 then Ok(None)
    else Ok(Some(PageRange(base, size)))
  }

  /** The named pages are those of the byte range, and the last page of the address space can be named. */
  lemma GetPagesIsExact(base: Address, size: nat)
    requires base < ADDRESS_LIMIT && size < ADDRESS_LIMIT
    ensures GetPages(base, size).Ok? <==>
      base % PAGE_SIZE == 0 && size % PAGE_SIZE == 0 && base + size <= ADDRESS_LIMIT
    ensures GetPages(base, size).Err? ==>
      var misaligned := base % PAGE_SIZE != 0 || size % PAGE_SIZE != 0;
      GetPages(base, size).error == if misaligned then base else ADDRESS_LIMIT - 1
    ensures GetPages(base, size).Ok? ==>
      GetPages(base, size).value == if size > 0 then Some(PageRange(base, size)) else None
    ensures GetPages(base, size).Ok? && size > 0 ==>
      forall a: Address {:trigger a / PAGE_SIZE} ::
        base <= a < base + size <==> InRange(PageRange(base, size), a / PAGE_SIZE)
  {
    if base + size >= ADDRESS_LIMIT && (base + size) % ADDRESS_LIMIT == 0 {
      assert base + size < 2 * ADDRESS_LIMIT;
    }
    if GetPages(base, size).Ok? && size > 0 {
      assert size >= PAGE_SIZE;
    }
  }

  /** `at` is the base of the lowest page of the range that is mapped. */
  ghost predicate FirstMapped(table: Table, r: Range, at: Address) {
    exists page: nat ::
      InRange(r, page) && page in table && at == page * PAGE_SIZE && forall p :: r.first <= p < page ==> p !in table
  }

  /** `at` is the base of the lowest page of the range that is not mapped. */
  ghost predicate FirstUnmapped(table: Table, r: Range, at: Address) {
    exists page: nat ::
      InRange(r, page) && page !in table && at == page * PAGE_SIZE && forall p :: r.first <= p < page ==> p in table
  }

  class PageTable {
    var table: Table

    constructor ()
      ensures table == map[]
    {
      table := map[];
    }

    /** Maps every page of the range, or nothing when one of them is mapped already. */
    method Map(r: Range, protections: MemProt, sources: seq<PageSource>) returns (fault: Option<Address>)
      requires |sources| == r.count
      modifies this
      ensures fault.None? <==> forall page :: InRange(r, page) ==> page !in old(table)
      ensures fault.Some? ==> table == old(table)
      ensures fault.Some? ==> FirstMapped(table, r, fault.value)
      ensures fault.None? ==> table == Mapped(old(table), r, protections, sources)
    {
      for page := r.first to r.first + r.count
        invariant forall p :: r.first <= p < page ==> p !in table
      {
        if page in table {
          return Some(page * PAGE_SIZE);
        }
      }
      ghost var was := table;
      for page := r.first to r.first + r.count
        invariant table == Mapped(was, Range(r.first, page - r.first), protections, sources[..page - r.first])
      {
        MappedNext(was, r, protections, sources, page);
        table := table[page := PageEntry(sources[page - r.first], protections)];
      }
      assert sources[..r.count] == sources;
      return None;
    }

    /** Removes the pages of the range; pages that are not mapped are skipped. */
    method Unmap(r: Range) returns (modified: bool)
      modifies this
      ensures table == Unmapped(old(table), r)
      ensures modified <==> exists page :: InRange(r, page) && page in old(table)
    {
      modified := false;
      for page := r.first to r.first + r.count
        invariant table == map p | p in old(table) && !(r.first <= p < page) :: old(table)[p]
        invariant modified <==> exists p :: r.first <= p < page && p in old(table)
      {
        if page in table {
          table := table - {page};
          modified := true;
        }
      }
    }

    /** Sets the protections of every page of the range, or of none when one is not mapped. */
    method Protect(r: Range, protections: MemProt) returns (fault: Option<Address>, modified: bool)
      modifies this
      ensures fault.None? <==> forall page: nat :: InRange(r, page) ==> page in old(table)
      ensures fault.Some? ==> table == old(table) && !modified && FirstUnmapped(table, r, fault.value)
      ensures fault.None? ==> table == Protected(old(table), r, protections)
      ensures fault.None? ==>
        (modified <==> exists page :: InRange(r, page) && old(table)[page].protections != protections)
    {
      modified := false;
      for page := r.first to r.first + r.count
        invariant forall p: nat :: r.first <= p < page ==> p in table
      {
        if page !in table {
          return Some(page * PAGE_SIZE), false;
        }
      }
      for page := r.first to r.first + r.count
        invariant table == map p | p in old(table) ::
          if r.first <= p < page then old(table)[p].(protections := protections) else old(table)[p]
        invariant modified <==> exists p :: r.first <= p < page && old(table)[p].protections != protections
      {
        assert page in table;
        modified := modified || table[page].protections != protections;
        table := table[page := table[page].(protections := protections)];
      }
      return None, modified;
    }

    /** Gives every copy-on-write page its own copy; `copies` says where each one ends up. */
    method UnCowAll(copies: map<nat, Backing>) returns (modified: bool)
      requires forall page :: page in table && IsCow(table[page]) ==> page in copies
      modifies this
      ensures table == UnCowed(old(table), copies)
      ensures modified <==> exists page :: page in old(table) && IsCow(old(table)[page])
    {
      modified := false;
      var rest := table.Keys;
      while rest != {}
        invariant rest <= old(table).Keys
        invariant table == map page | page in old(table) ::
          if page in rest then old(table)[page] else UnCow(old(table)[page], page, copies)
        invariant modified <==> exists page :: page in old(table) && page !in rest && IsCow(old(table)[page])
        decreases rest
      {
        var page :| page in rest;
        if IsCow(table[page]) {
          modified := true;
        }
        table := table[page := UnCow(table[page], page, copies)];
        rest := rest - {page};
      }
    }
  }

  predicate IsCow(e: PageEntry) {
    e.source.Private? && e.source.writeProtected
  }

  function UnCow(e: PageEntry, page: nat, copies: map<nat, Backing>): PageEntry {
    if IsCow(e) && page in copies then e.(source := Private(copies[page], false)) else e
  }

  /** An address space as a value. */
  datatype Mmu = Mmu(ident: Ident, table: Table)

  /** Either the identifier is new, or every translation is as before. */
  ghost predicate SafeChange(before: Mmu, after: Mmu, unique: Ident) {
    after.ident == unique || (after.ident == before.ident && SameTranslation(before.table, after.table))
  }

  class IoMMU {
    var identifier: Ident
    const pages: PageTable

    ghost function View(): Mmu
      reads this, pages
    {
      Mmu(identifier, pages.table)
    }

    /** `unique` is an identifier that nothing refers to. */
    constructor (unique: Ident)
      ensures fresh(pages) && View() == Mmu(unique, map[])
    {
      identifier := unique;
      pages := new PageTable();
    }

    /** Maps the range, unless it is malformed or a page of it is mapped already. */
    method Map(base: Address, size: nat, protections: MemProt, sources: seq<PageSource>, unique: Ident)
      returns (fault: Option<Address>)
      requires base < ADDRESS_LIMIT && size < ADDRESS_LIMIT && |sources| == size / PAGE_SIZE
      modifies this, pages
      ensures SafeChange(old(View()), View(), unique)
      ensures fault.None? <==>
        (GetPages(base, size).Ok?
         && forall page: nat :: InRange(PageRange(base, size), page) ==> page !in old(pages.table))
      ensures GetPages(base, size).Err? ==> fault == Some(GetPages(base, size).error)
      ensures GetPages(base, size).Ok? && fault.Some? ==>
        FirstMapped(old(pages.table), PageRange(base, size), fault.value)
      ensures fault.Some? ==> View() == old(View())
      ensures fault.None? ==> pages.table == Mapped(old(pages.table), PageRange(base, size), protections, sources)
      ensures fault.None? ==> identifier == if size > 0 then unique else old(identifier)
    {
      var range := GetPages(base, size);
      if range.Err? {
        return Some(range.error);
      }
      if range.value.None? {
        return None;
      }
      fault := pages.Map(range.value.value, protections, sources);
      if fault.None? {
        identifier := unique;
      }
    }

    /** Unmaps the range, unless it is malformed. */
    method Unmap(base: Address, size: nat, unique: Ident) returns (fault: Option<Address>)
      requires base < ADDRESS_LIMIT && size < ADDRESS_LIMIT
      modifies this, pages
      ensures SafeChange(old(View()), View(), unique)
      ensures fault == if GetPages(base, size).Ok? then None else Some(GetPages(base, size).error)
      ensures fault.Some? ==> View() == old(View())
      ensures fault.None? ==> pages.table == Unmapped(old(pages.table), PageRange(base, size))
      ensures fault.None? ==>
        (if exists page :: InRange(PageRange(base, size), page) && page in old(pages.table) then identifier == unique
         else identifier == old(identifier))
    {
      var range := GetPages(base, size);
      if range.Err? {
        return Some(range.error);
      }
      if range.value.None? {
        return None;
      }
      var modified := pages.Unmap(range.value.value);
      if modified {
        identifier := unique;
      } else {
        assert pages.table == old(pages.table);
      }
      return None;
    }

    /** Sets the protections of the range, unless it is malformed or a page of it is not mapped. */
    method Protect(base: Address, size: nat, protections: MemProt, unique: Ident) returns (fault: Option<Address>)
      requires base < ADDRESS_LIMIT && size < ADDRESS_LIMIT
      modifies this, pages
      ensures SafeChange(old(View()), View(), unique)
      ensures fault.None? <==>
        (GetPages(base, size).Ok?
         && forall page: nat :: InRange(PageRange(base, size), page) ==> page in old(pages.table))
      ensures GetPages(base, size).Err? ==> fault == Some(GetPages(base, size).error)
      ensures GetPages(base, size).Ok? && fault.Some? ==>
        FirstUnmapped(old(pages.table), PageRange(base, size), fault.value)
      ensures fault.Some? ==> View() == old(View())
      ensures fault.None? ==> pages.table == Protected(old(pages.table), PageRange(base, size), protections)
      ensures fault.None? ==>
        (if exists page :: InRange(PageRange(base, size), page) && old(pages.table)[page].protections != protections
         then identifier == unique else identifier == old(identifier))
    {
      var range := GetPages(base, size);
      if range.Err? {
        return Some(range.error);
      }
      if range.value.None? {
        return None;
      }
      var modified;
      fault, modified := pages.Protect(range.value.value, protections);
      if modified {
        identifier := unique;
      } else {
        assert pages.table == old(pages.table);
      }
    }

    method CopyAllCowPages(copies: map<nat, Backing>, unique: Ident)
      requires forall page :: page in pages.table && IsCow(pages.table[page]) ==> page in copies
      modifies this, pages
      ensures SafeChange(old(View()), View(), unique)
      ensures pages.table == UnCowed(old(pages.table), copies)
      ensures forall page :: page in pages.table ==> !IsCow(pages.table[page])
    {
      var modified := pages.UnCowAll(copies);
      if modified {
        identifier := unique;
      } else {
        assert pages.table == old(pages.table);
      }
    }
  }
}
