/**
 The translation cache and why it may be trusted: an entry keeps the identifier
 it was filled under alive, so the identifier cannot come back for a changed table.
 */
module TlbCoherence {
  import opened Wrappers
  import opened Paging
  import opened PageTables

  const TLB_SIZE: nat := 1024

  /** `ident` is the reference the entry holds; an empty entry holds none. */
  datatype TlbEntry = TlbEntry(ident: Option<Ident>, page: nat, translation: Option<Page>)

  const EMPTY_ENTRY := TlbEntry(None, 0, None)

  predicate IsHit(e: TlbEntry, ident: Ident, page: nat) {
    e.ident == Some(ident) && e.page == page
  }

  /** What a lookup answers, given what the table would answer. */
  function Answer(entries: seq<TlbEntry>, ident: Ident, page: nat, fallback: Option<Page>): Option<Page>
    requires |entries| == TLB_SIZE
  {
    var e := entries[page % TLB_SIZE];
    if IsHit(e, ident, page) then e.translation else fallback
  }

  /** The entries after a lookup: a miss that resolves replaces its entry. */
  function AfterLookup(entries: seq<TlbEntry>, ident: Ident, page: nat, fallback: Option<Page>): seq<TlbEntry>
    requires |entries| == TLB_SIZE
  {
    var e := entries[page % TLB_SIZE];
    if IsHit(e, ident, page) || fallback.None? then entries
    else entries[page % TLB_SIZE := TlbEntry(Some(ident), page, fallback)]
  }

  /** A page that resolves is found in the cache from then on, and no other slot is touched. */
  lemma LookupFills(entries: seq<TlbEntry>, ident: Ident, page: nat, fallback: Option<Page>, later: Option<Page>)
    requires |entries| == TLB_SIZE && Answer(entries, ident, page, fallback).Some?
    ensures Answer(AfterLookup(entries, ident, page, fallback), ident, page, later)
      == Answer(entries, ident, page, fallback)
    ensures forall i :: 0 <= i < TLB_SIZE && i != page % TLB_SIZE ==>
      AfterLookup(entries, ident, page, fallback)[i] == entries[i]
  {
  }

  class Tlb {
    const entries: array<TlbEntry>

    ghost predicate Valid()
      reads this
    {
      entries.Length == TLB_SIZE
    }

    constructor ()
      ensures Valid() && fresh(entries) && entries[..] == seq(TLB_SIZE, _ => EMPTY_ENTRY)
    {
      entries := new TlbEntry[TLB_SIZE](_ => EMPTY_ENTRY);
    }

    /** Resolves a page, asking the page table on a miss. */
    method Lookup(page: nat, mmu: IoMMU, slots: Slots) returns (result: Option<Page>)
      requires Valid()
      modifies entries
      ensures var fallback := GetPage(mmu.pages.table, slots, page);
        && result == Answer(old(entries[..]), mmu.identifier, page, fallback)
        && entries[..] == AfterLookup(old(entries[..]), mmu.identifier, page, fallback)
    {
      var index := page % TLB_SIZE;
      if entries[index].ident != Some(mmu.identifier) || entries[index].page != page {
        var fallback := GetPage(mmu.pages.table, slots, page);
        if fallback.None? {
          return None;
        }
        UpdateEntry(index, mmu.identifier, page, fallback.value);
        return fallback;
      }
      return entries[index].translation;
    }

    method UpdateEntry(index: nat, ident: Ident, page: nat, translation: Page)
      requires Valid() && index < TLB_SIZE
      modifies entries
      ensures entries[..] == old(entries[..])[index := TlbEntry(Some(ident), page, Some(translation))]
    {
      var held := entries[index].ident;
      if held != Some(ident) {
        held := Some(ident);
      }
      entries[index] := TlbEntry(held, page, Some(translation));
    }
  }

  // ---------------------------------------------------------------------
  // Any number of address spaces and caches

  /** All live address spaces and caches, by name, and the faulted-in objects. */
  datatype World = World(mmus: map<nat, Mmu>, tlbs: map<nat, seq<TlbEntry>>, slots: Slots)

  /** The identifier is referenced by an address space or a cache entry, so the allocator cannot hand it out. */
  ghost predicate Held(w: World, id: Ident) {
    || (exists m {:trigger w.mmus[m]} :: m in w.mmus && w.mmus[m].ident == id)
    || (exists t, i {:trigger w.tlbs[t][i]} :: t in w.tlbs && 0 <= i < |w.tlbs[t]| && w.tlbs[t][i].ident == Some(id))
  }

  datatype Op =
    | NewMmu(m: nat, unique: Ident)
    | DropMmu(m: nat)
    | NewTlb(t: nat)
    | DropTlb(t: nat)
    | Change(m: nat, next: Mmu, unique: Ident)
    | FaultIn(slot: nat, backing: Backing)
    | Lookup(t: nat, m: nat, page: nat)

  /** One operation.  `Change` stands for any operation of `IoMMU`; identifiers come from the allocator. */
  ghost predicate Step(w: World, op: Op, n: World) {
    match op
    case NewMmu(m, unique) =>
      m !in w.mmus && !Held(w, unique) && n == w.(mmus := w.mmus[m := Mmu(unique, map[])])
    case DropMmu(m) => n == w.(mmus := w.mmus - {m})
    case NewTlb(t) => t !in w.tlbs && n == w.(tlbs := w.tlbs[t := seq(TLB_SIZE, _ => EMPTY_ENTRY)])
    case DropTlb(t) => n == w.(tlbs := w.tlbs - {t})
    case Change(m, next, unique) =>
      && m in w.mmus && !Held(w, unique) && SafeChange(w.mmus[m], next, unique)
      && n == w.(mmus := w.mmus[m := next])
    case FaultIn(slot, backing) => slot !in w.slots && n == w.(slots := w.slots[slot := backing])
    case Lookup(t, m, page) =>
      && t in w.tlbs && m in w.mmus && |w.tlbs[t]| == TLB_SIZE && page < PAGE_LIMIT
      && n == w.(tlbs := w.tlbs[t := AfterLookup(w.tlbs[t], w.mmus[m].ident, page,
                                                 GetPage(w.mmus[m].table, w.slots, page))])
  }

  /** An entry holds a page number, and agrees with every address space that still has its identifier. */
  ghost predicate EntryOk(w: World, e: TlbEntry) {
    && e.page < PAGE_LIMIT
    && (e.ident.Some? ==> e.translation.Some? && EntryAgrees(w, e))
  }

  ghost predicate EntryAgrees(w: World, e: TlbEntry)
    requires e.ident.Some?
  {
    forall m {:trigger w.mmus[m]} :: m in w.mmus && w.mmus[m].ident == e.ident.value ==>
      GetPage(w.mmus[m].table, w.slots, e.page) == e.translation
  }

  ghost predicate Coherent(w: World) {
    && (forall m, k {:trigger w.mmus[m], w.mmus[k]} ::
          m in w.mmus && k in w.mmus && m != k ==> w.mmus[m].ident != w.mmus[k].ident)
    && (forall t {:trigger w.tlbs[t]} :: t in w.tlbs ==> |w.tlbs[t]| == TLB_SIZE)
    && (forall t, i {:trigger w.tlbs[t][i]} :: t in w.tlbs && 0 <= i < |w.tlbs[t]| ==> EntryOk(w, w.tlbs[t][i]))
  }

  /** A lookup answers exactly what the page table answers. */
  lemma LookupIsExact(w: World, t: nat, m: nat, page: nat)
    requires Coherent(w) && t in w.tlbs && m in w.mmus
    ensures Answer(w.tlbs[t], w.mmus[m].ident, page, GetPage(w.mmus[m].table, w.slots, page))
            == GetPage(w.mmus[m].table, w.slots, page)
  {
    assert EntryOk(w, w.tlbs[t][page % TLB_SIZE]);
  }

  lemma ChangeKeepsCoherent(w: World, m: nat, next: Mmu, unique: Ident)
    requires Coherent(w) && m in w.mmus && !Held(w, unique) && SafeChange(w.mmus[m], next, unique)
    ensures Coherent(w.(mmus := w.mmus[m := next]))
  {
    var n := w.(mmus := w.mmus[m := next]);
    forall t, i {:trigger n.tlbs[t][i]} | t in n.tlbs && 0 <= i < |n.tlbs[t]| ensures EntryOk(n, n.tlbs[t][i]) {
      var e := w.tlbs[t][i];
      assert EntryOk(w, e);
      if e.ident == Some(next.ident) {
        assert next.ident != unique;
        assert w.mmus[m].ident == next.ident;
        assert GetPage(next.table, w.slots, e.page) == GetPage(w.mmus[m].table, w.slots, e.page);
      }
    }
    forall a, b {:trigger n.mmus[a], n.mmus[b]} | a in n.mmus && b in n.mmus && a != b
      ensures n.mmus[a].ident != n.mmus[b].ident
    {
      assert w.mmus[a].ident != w.mmus[b].ident;
    }
  }

  lemma LookupKeepsCoherent(w: World, t: nat, m: nat, page: nat)
    requires Coherent(w) && t in w.tlbs && m in w.mmus && page < PAGE_LIMIT
    ensures Coherent(w.(tlbs := w.tlbs[t := AfterLookup(w.tlbs[t], w.mmus[m].ident, page,
                                                        GetPage(w.mmus[m].table, w.slots, page))]))
  {
    var fallback := GetPage(w.mmus[m].table, w.slots, page);
    var n := w.(tlbs := w.tlbs[t := AfterLookup(w.tlbs[t], w.mmus[m].ident, page, fallback)]);
    forall u, i {:trigger n.tlbs[u][i]} | u in n.tlbs && 0 <= i < |n.tlbs[u]| ensures EntryOk(n, n.tlbs[u][i]) {
      assert EntryOk(w, w.tlbs[u][i]);
    }
  }

  /** Entries that were there stay right when nothing they depend on loses anything. */
  lemma OthersKeepCoherent(w: World, op: Op, n: World)
    requires Coherent(w) && Step(w, op, n) && !op.Change? && !op.Lookup?
    ensures Coherent(n)
  {
    forall t, i {:trigger n.tlbs[t][i]} | t in n.tlbs && 0 <= i < |n.tlbs[t]| ensures EntryOk(n, n.tlbs[t][i]) {
      if t in w.tlbs {
        assert EntryOk(w, w.tlbs[t][i]);
      }
    }
  }

  /** Every operation keeps every cache coherent. */
  lemma StepKeepsCoherent(w: World, op: Op, n: World)
    requires Coherent(w) && Step(w, op, n)
    ensures Coherent(n)
  {
    if op.Change? {
      ChangeKeepsCoherent(w, op.m, op.next, op.unique);
    } else if op.Lookup? {
      LookupKeepsCoherent(w, op.t, op.m, op.page);
    } else {
      OthersKeepCoherent(w, op, n);
    }
  }

  ghost predicate IsRun(worlds: seq<World>, ops: seq<Op>) {
    && |worlds| == |ops| + 1 && worlds[0] == World(map[], map[], map[])
    && forall i {:trigger ops[i]} :: 0 <= i < |ops| ==> Step(worlds[i], ops[i], worlds[i + 1])
  }

  /** Over every sequence of operations, every lookup returns what the page table returns at that moment. */
  lemma {:induction false} RunsAreCoherent(worlds: seq<World>, ops: seq<Op>, i: nat)
    requires IsRun(worlds, ops) && i < |worlds|
    ensures Coherent(worlds[i])
    ensures i < |ops| && ops[i].Lookup? ==>
      var w, op := worlds[i], ops[i];
      var table := GetPage(w.mmus[op.m].table, w.slots, op.page);
      Answer(w.tlbs[op.t], w.mmus[op.m].ident, op.page, table) == table
  {
    if i > 0 {
      RunsAreCoherent(worlds, ops, i - 1);
      StepKeepsCoherent(worlds[i - 1], ops[i - 1], worlds[i]);
    }
    if i < |ops| && ops[i].Lookup? {
      LookupIsExact(worlds[i], ops[i].t, ops[i].m, ops[i].page);
    }
  }

  /**
   The reference held by the entry is needed.  Were an identifier that only cache
   entries refer to handed out again, a lookup could return a page the table no
   longer has.
   */
  lemma UnheldReferenceGoesStale(page: Page, other: Ident)
    ensures exists w: World, n: World ::
      && Coherent(w) && 0 in w.mmus && 0 in w.tlbs
      && (forall m :: m in w.mmus ==> w.mmus[m].ident != other)
      && n == w.(mmus := w.mmus[0 := Mmu(other, map[])]) && |n.tlbs[0]| == TLB_SIZE
      && GetPage(n.mmus[0].table, n.slots, 0) == None
      && Answer(n.tlbs[0], n.mmus[0].ident, 0, None) == Some(page)
  {
    var entries := seq(TLB_SIZE, _ => EMPTY_ENTRY)[0 := TlbEntry(Some(other), 0, Some(page))];
    var w := World(map[0 := Mmu(other + 1, map[])], map[0 := entries], map[]);
    var n := w.(mmus := w.mmus[0 := Mmu(other, map[])]);
    assert Coherent(w);
    assert Answer(n.tlbs[0], n.mmus[0].ident, 0, None) == Some(page);
  }

  /** With a unique identifier the change is safe exactly because no entry can match it. */
  lemma ReusedIdentifier(w: World, m: nat, next: Mmu)
    requires Coherent(w) && m in w.mmus && forall k :: k in w.mmus ==> w.mmus[k].ident != next.ident
    ensures Coherent(w.(mmus := w.mmus[m := next])) <==>
      forall t, i {:trigger w.tlbs[t][i]} ::
        t in w.tlbs && 0 <= i < |w.tlbs[t]| && w.tlbs[t][i].ident == Some(next.ident) ==>
          GetPage(next.table, w.slots, w.tlbs[t][i].page) == w.tlbs[t][i].translation
  {
    var n := w.(mmus := w.mmus[m := next]);
    if Coherent(n) {
      forall t, i {:trigger w.tlbs[t][i]} |
        t in w.tlbs && 0 <= i < |w.tlbs[t]| && w.tlbs[t][i].ident == Some(next.ident)
        ensures GetPage(next.table, w.slots, w.tlbs[t][i].page) == w.tlbs[t][i].translation
      {
        assert EntryOk(n, n.tlbs[t][i]);
        assert n.mmus[m] == next;
      }
    }
    if forall t, i {:trigger w.tlbs[t][i]} ::
         t in w.tlbs && 0 <= i < |w.tlbs[t]| && w.tlbs[t][i].ident == Some(next.ident) ==>
           GetPage(next.table, w.slots, w.tlbs[t][i].page) == w.tlbs[t][i].translation
    {
      forall t, i {:trigger n.tlbs[t][i]} | t in n.tlbs && 0 <= i < |n.tlbs[t]| ensures EntryOk(n, n.tlbs[t][i]) {
        assert EntryOk(w, w.tlbs[t][i]);
      }
    }
  }
}
