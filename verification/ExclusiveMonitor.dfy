/**
 The exclusive monitor behind LDXR and STXR: hashed buckets with a version that
 every passing exclusive store bumps.  The hash is arbitrary, so any two
 addresses may share a bucket.
 */
module ExclusiveMonitors {
  import opened Wrappers

  const BUCKET_COUNT: nat := 257
  const VERSION_LIMIT: nat := 0x1_0000_0000_0000_0000_0000_0000_0000_0000

  type HostPointer = nat
  type Cpu = nat

  /** A loaded value with its access width in bytes. */
  datatype Value = Value(width: nat, bits: nat)

  datatype Slot = Slot(ptr: Option<HostPointer>, version: nat)

  /** `address` is where the reservation was taken; the running program does not keep it. */
  datatype Reservation = Reservation(version: nat, value: Value, address: HostPointer)

  /** The bucket check of an exclusive store. */
  predicate Intact(slot: Slot, ptr: HostPointer, version: nat) {
    slot.ptr == Some(ptr) && slot.version == version
  }

  class ExclusiveMonitor {
    const index: HostPointer -> nat
    const reservations: array<Slot>

    ghost predicate Valid()
      reads this
    {
      reservations.Length == BUCKET_COUNT && forall p: HostPointer :: index(p) < BUCKET_COUNT
    }

    constructor (index: HostPointer -> nat)
      requires forall p: HostPointer :: index(p) < BUCKET_COUNT
      ensures Valid() && this.index == index && fresh(reservations)
      ensures reservations[..] == seq(BUCKET_COUNT, _ => Slot(None, 0))
    {
      this.index := index;
      reservations := new Slot[BUCKET_COUNT](_ => Slot(None, 0));
    }

    /** Reserves `ptr` and returns the version of its bucket. */
    method Ldrex(ptr: HostPointer) returns (version: nat)
      requires Valid()
      modifies reservations
      ensures version == old(reservations[index(ptr)]).version
      ensures reservations[..] == old(reservations[..])[index(ptr) := Slot(Some(ptr), version)]
    {
      var slot := reservations[index(ptr)];
      reservations[index(ptr)] := Slot(Some(ptr), slot.version);
      return slot.version;
    }

    /** Whether the reservation is intact; if it is, the bucket moves on to its next version. */
    method Strex(ptr: HostPointer, version: nat) returns (passed: bool)
      requires Valid() && version + 1 < VERSION_LIMIT
      modifies reservations
      ensures passed <==> Intact(old(reservations[index(ptr)]), ptr, version)
      ensures reservations[..] ==
        if passed then old(reservations[..])[index(ptr) := Slot(Some(ptr), version + 1)] else old(reservations[..])
    {
      var slot := reservations[index(ptr)];
      if slot.ptr != Some(ptr) || slot.version != version {
        return false;
      }
      reservations[index(ptr)] := Slot(slot.ptr, slot.version + 1);
      return true;
    }
  }

  // ---------------------------------------------------------------------
  // Any number of CPUs

  /** The buckets, guest memory by host address, and the reservation each CPU carries. */
  datatype System = System(slots: seq<Slot>, memory: map<HostPointer, nat>, held: map<Cpu, Reservation>)

  datatype Event =
    | Ldrex(cpu: Cpu, address: HostPointer, width: nat)
    | Strex(cpu: Cpu, address: HostPointer, value: Value)
    | Clrex(cpu: Cpu)
    | PlainStore(address: HostPointer, bits: nat)

  function WordAt(s: System, address: HostPointer): nat {
    if address in s.memory then s.memory[address] else 0
  }

  function SlotOf(s: System, index: HostPointer -> nat, address: HostPointer): Slot {
    if index(address) < |s.slots| then s.slots[index(address)] else Slot(None, 0)
  }

  /** The store has a reservation of its width whose bucket is intact. */
  predicate Passes(s: System, index: HostPointer -> nat, e: Event) {
    && e.Strex? && e.cpu in s.held && s.held[e.cpu].value.width == e.value.width
    && Intact(SlotOf(s, index, e.address), e.address, s.held[e.cpu].version)
  }

  /** The store also finds the value it loaded, and writes. */
  predicate Stores(s: System, index: HostPointer -> nat, e: Event) {
    Passes(s, index, e) && WordAt(s, e.address) == s.held[e.cpu].value.bits
  }

  /** One event.  Each is one critical section of its bucket. */
  function Apply(s: System, index: HostPointer -> nat, e: Event): System {
    match e
    case Ldrex(cpu, address, width) =>
      var i, slot := index(address), SlotOf(s, index, address);
      if i >= |s.slots| then s
      else
        System(s.slots[i := Slot(Some(address), slot.version)], s.memory,
               s.held[cpu := Reservation(slot.version, Value(width, WordAt(s, address)), address)])
    case Strex(cpu, address, value) =>
      var left := s.(held := s.held - {cpu});
      if !Passes(s, index, e) then left
      else
        var i, slot := index(address), SlotOf(s, index, address);
        var bumped := if i < |s.slots| then left.(slots := s.slots[i := Slot(slot.ptr, slot.version + 1)]) else left;
        if Stores(s, index, e) then bumped.(memory := s.memory[address := value.bits]) else bumped
    case Clrex(cpu) => s.(held := s.held - {cpu})
    case PlainStore(address, bits) => s.(memory := s.memory[address := bits])
  }

  const START := System(seq(BUCKET_COUNT, _ => Slot(None, 0)), map[], map[])

  ghost predicate IsRun(index: HostPointer -> nat, states: seq<System>, events: seq<Event>) {
    && (forall p: HostPointer :: index(p) < BUCKET_COUNT)
    && |states| == |events| + 1 && states[0] == START
    && forall i {:trigger events[i]} :: 0 <= i < |events| ==> states[i + 1] == Apply(states[i], index, events[i])
  }

  lemma {:induction false} AllSlots(index: HostPointer -> nat, states: seq<System>, events: seq<Event>, i: nat)
    requires IsRun(index, states, events) && i < |states|
    ensures |states[i].slots| == BUCKET_COUNT
  {
    if i > 0 {
      AllSlots(index, states, events, i - 1);
      assert states[i] == Apply(states[i - 1], index, events[i - 1]);
    }
  }

  /** The version of a bucket goes up by one when an exclusive store passes it, and otherwise stays. */
  lemma VersionStep(index: HostPointer -> nat, states: seq<System>, events: seq<Event>, i: nat, a: HostPointer)
    requires IsRun(index, states, events) && i < |events|
    ensures SlotOf(states[i + 1], index, a).version
      == SlotOf(states[i], index, a).version
         + (if Passes(states[i], index, events[i]) && index(events[i].address) == index(a) then 1 else 0)
  {
    AllSlots(index, states, events, i);
    assert states[i + 1] == Apply(states[i], index, events[i]);
  }

  lemma {:induction false} VersionsGrow(index: HostPointer -> nat, states: seq<System>, events: seq<Event>, i: nat,
                                        j: nat, a: HostPointer)
    requires IsRun(index, states, events) && i <= j < |states|
    ensures SlotOf(states[i], index, a).version <= SlotOf(states[j], index, a).version
    decreases j
  {
    if i < j {
      VersionsGrow(index, states, events, i, j - 1, a);
      VersionStep(index, states, events, j - 1, a);
    }
  }

  /** At most one exclusive store passes per bucket version. */
  lemma OnePassPerVersion(index: HostPointer -> nat, states: seq<System>, events: seq<Event>, i: nat, j: nat)
    requires IsRun(index, states, events) && i < j < |events|
    requires Passes(states[i], index, events[i]) && Passes(states[j], index, events[j])
    requires index(events[i].address) == index(events[j].address)
    ensures SlotOf(states[i], index, events[i].address).version < SlotOf(states[j], index, events[j].address).version
  {
    VersionStep(index, states, events, i, events[j].address);
    VersionsGrow(index, states, events, i + 1, j, events[j].address);
  }

  /** `cpu` does nothing exclusive between `i` and `j`. */
  ghost predicate Quiet(events: seq<Event>, cpu: Cpu, i: nat, j: nat) {
    forall k {:trigger events[k]} :: i < k < j && k < |events| ==> events[k].PlainStore? || events[k].cpu != cpu
  }

  /** The reservation taken at `i` is still the CPU's own at `j`. */
  lemma {:induction false} KeepsReservation(index: HostPointer -> nat, states: seq<System>, events: seq<Event>, i: nat,
                                            j: nat, cpu: Cpu)
    requires IsRun(index, states, events) && i < j < |states|
    requires events[i].Ldrex? && events[i].cpu == cpu && Quiet(events, cpu, i, j)
    ensures cpu in states[j].held && states[j].held[cpu]
      == Reservation(SlotOf(states[i], index, events[i].address).version,
                     Value(events[i].width, WordAt(states[i], events[i].address)), events[i].address)
    decreases j
  {
    AllSlots(index, states, events, j - 1);
    assert states[j] == Apply(states[j - 1], index, events[j - 1]);
    if i < j - 1 {
      KeepsReservation(index, states, events, i, j - 1, cpu);
      assert events[j - 1].PlainStore? || events[j - 1].cpu != cpu;
    }
  }

  /** No exclusive store passed the bucket of `address` between `i` and `j`. */
  ghost predicate NonePassed(index: HostPointer -> nat, states: seq<System>, events: seq<Event>, i: nat, j: nat,
                             address: HostPointer)
    requires j <= |states| && j <= |events|
  {
    forall k {:trigger events[k]} :: i < k < j && Passes(states[k], index, events[k]) ==>
      index(events[k].address) != index(address)
  }

  /**
   Between an exclusive load and the successful exclusive store to the same
   address, no other exclusive store to that address passed, and memory holds the
   value that was loaded.
   */
  lemma ExclusivePairIsAtomic(index: HostPointer -> nat, states: seq<System>, events: seq<Event>, i: nat, j: nat)
    requires IsRun(index, states, events) && i < j < |events|
    requires events[i].Ldrex? && events[j].Strex? && events[i].cpu == events[j].cpu
    requires Quiet(events, events[i].cpu, i, j) && events[i].address == events[j].address
    requires Stores(states[j], index, events[j])
    ensures NonePassed(index, states, events, i, j, events[j].address)
    ensures WordAt(states[j], events[j].address) == WordAt(states[i], events[i].address)
  {
    var a := events[j].address;
    KeepsReservation(index, states, events, i, j, events[i].cpu);
    forall k {:trigger events[k]} | i < k < j && Passes(states[k], index, events[k])
      ensures index(events[k].address) != index(a)
    {
      if index(events[k].address) == index(a) {
        VersionsGrow(index, states, events, i, k, a);
        VersionStep(index, states, events, k, a);
        VersionsGrow(index, states, events, k + 1, j, a);
      }
    }
  }

  /** Every plain store to `address` between `i` and `j` writes `bits`. */
  ghost predicate OnlyStored(events: seq<Event>, i: nat, j: nat, address: HostPointer, bits: nat) {
    forall k {:trigger events[k]} :: i < k < j && k < |events| ==>
      (events[k].PlainStore? && events[k].address == address ==> events[k].bits == bits)
  }

  /** Memory at `address` only changes by plain stores to it and by exclusive stores that pass its bucket. */
  lemma {:induction false} MemoryUnchanged(index: HostPointer -> nat, states: seq<System>, events: seq<Event>, i: nat,
                                           j: nat, n: nat, address: HostPointer)
    requires IsRun(index, states, events) && i < j <= n < |states| && events[i].Ldrex?
    requires NonePassed(index, states, events, i, n, address)
    requires OnlyStored(events, i, n, address, WordAt(states[i], address))
    ensures WordAt(states[j], address) == WordAt(states[i], address)
    decreases j
  {
    assert states[j] == Apply(states[j - 1], index, events[j - 1]);
    if i < j - 1 {
      MemoryUnchanged(index, states, events, i, j - 1, n, address);
    }
  }

  ghost predicate Unchanged(states: seq<System>, i: nat, j: nat, address: HostPointer)
    requires i < |states| && j < |states|
  {
    forall k {:trigger states[k]} :: i < k <= j ==> WordAt(states[k], address) == WordAt(states[i], address)
  }

  /**
   Around a successful pair the address kept its value throughout exactly when
   every plain store to it in between wrote the value that was loaded.
   */
  lemma UnchangedIff(index: HostPointer -> nat, states: seq<System>, events: seq<Event>, i: nat, j: nat)
    requires IsRun(index, states, events) && i < j < |events|
    requires events[i].Ldrex? && events[j].Strex? && events[i].cpu == events[j].cpu
    requires Quiet(events, events[i].cpu, i, j) && events[i].address == events[j].address
    requires Stores(states[j], index, events[j])
    ensures Unchanged(states, i, j, events[j].address)
      <==> OnlyStored(events, i, j, events[j].address, WordAt(states[i], events[j].address))
  {
    var a := events[j].address;
    ExclusivePairIsAtomic(index, states, events, i, j);
    if OnlyStored(events, i, j, a, WordAt(states[i], a)) {
      forall k {:trigger states[k]} | i < k <= j ensures WordAt(states[k], a) == WordAt(states[i], a) {
        MemoryUnchanged(index, states, events, i, k, j, a);
      }
    }
    if Unchanged(states, i, j, a) {
      forall k {:trigger events[k]} | i < k < j && events[k].PlainStore? && events[k].address == a
        ensures events[k].bits == WordAt(states[i], a)
      {
        assert states[k + 1] == Apply(states[k], index, events[k]);
      }
    }
  }

  // ---------------------------------------------------------------------
  // What memory holds

  /** What an event writes to `a`, if anything. */
  function WrittenBy(s: System, index: HostPointer -> nat, e: Event, a: HostPointer): Option<nat> {
    match e
    case PlainStore(address, bits) => if address == a then Some(bits) else None
    case Strex(_, address, value) => if address == a && Stores(s, index, e) then Some(value.bits) else None
    case _ => None
  }

  /** The value of the latest write to `a` before step `n`; memory starts out zero. */
  ghost function LastWritten(index: HostPointer -> nat, states: seq<System>, events: seq<Event>, n: nat,
                             a: HostPointer): nat
    requires n <= |states| && n <= |events|
  {
    if n == 0 then 0
    else
      var written := WrittenBy(states[n - 1], index, events[n - 1], a);
      if written.Some? then written.value else LastWritten(index, states, events, n - 1, a)
  }

  /** Memory holds what was written last: by a plain store, or by an exclusive store that succeeded. */
  lemma {:induction false} MemoryIsHistory(index: HostPointer -> nat, states: seq<System>, events: seq<Event>, n: nat,
                                           a: HostPointer)
    requires IsRun(index, states, events) && n <= |events|
    ensures WordAt(states[n], a) == LastWritten(index, states, events, n, a)
    decreases n
  {
    if n > 0 {
      MemoryIsHistory(index, states, events, n - 1, a);
      AllSlots(index, states, events, n - 1);
      assert states[n] == Apply(states[n - 1], index, events[n - 1]);
    }
  }

  /** The exclusive load at `i` is the latest exclusive event of its CPU before `n`. */
  ghost predicate OpenLoad(events: seq<Event>, i: nat, n: nat, cpu: Cpu) {
    i < n && i < |events| && events[i].Ldrex? && events[i].cpu == cpu && Quiet(events, cpu, i, n)
  }

  ghost predicate HasOpenLoad(events: seq<Event>, n: nat, cpu: Cpu) {
    exists i: nat :: OpenLoad(events, i, n, cpu)
  }

  lemma OpenLoadStep(events: seq<Event>, n: nat, cpu: Cpu)
    requires n < |events|
    ensures HasOpenLoad(events, n + 1, cpu) <==>
      if events[n].PlainStore? || events[n].cpu != cpu then HasOpenLoad(events, n, cpu) else events[n].Ldrex?
  {
    if events[n].PlainStore? || events[n].cpu != cpu {
      if HasOpenLoad(events, n, cpu) {
        var i: nat :| OpenLoad(events, i, n, cpu);
        assert OpenLoad(events, i, n + 1, cpu);
      }
      if HasOpenLoad(events, n + 1, cpu) {
        var i: nat :| OpenLoad(events, i, n + 1, cpu);
        assert OpenLoad(events, i, n, cpu);
      }
    } else if events[n].Ldrex? {
      assert OpenLoad(events, n, n + 1, cpu);
    }
  }

  /** A CPU holds a reservation exactly when its latest exclusive event is an exclusive load. */
  lemma {:induction false} HeldIff(index: HostPointer -> nat, states: seq<System>, events: seq<Event>, n: nat, cpu: Cpu)
    requires IsRun(index, states, events) && n <= |events|
    ensures cpu in states[n].held <==> HasOpenLoad(events, n, cpu)
    decreases n
  {
    if n > 0 {
      HeldIff(index, states, events, n - 1, cpu);
      AllSlots(index, states, events, n - 1);
      assert states[n] == Apply(states[n - 1], index, events[n - 1]);
      OpenLoadStep(events, n - 1, cpu);
    }
  }

  /** An exclusive store that succeeds belongs to an exclusive load: one load, one store. */
  lemma StoresOnlyInPairs(index: HostPointer -> nat, states: seq<System>, events: seq<Event>, j: nat)
    requires IsRun(index, states, events) && j < |events| && Stores(states[j], index, events[j])
    ensures exists i: nat :: IsPair(index, states, events, i, j)
  {
    HeldIff(index, states, events, j, events[j].cpu);
    var i: nat :| OpenLoad(events, i, j, events[j].cpu);
    assert IsPair(index, states, events, i, j);
  }

  // ---------------------------------------------------------------------
  // Exactly when an exclusive store succeeds

  /** How many exclusive stores have passed the bucket of `a` before step `n`. */
  ghost function Passed(index: HostPointer -> nat, states: seq<System>, events: seq<Event>, n: nat, a: HostPointer): nat
    requires n <= |states| && n <= |events|
  {
    if n == 0 then 0
    else
      Passed(index, states, events, n - 1, a)
      + (if Passes(states[n - 1], index, events[n - 1]) && index(events[n - 1].address) == index(a) then 1 else 0)
  }

  /** The address of the latest exclusive load in the bucket of `a` before step `n`. */
  function LastLoad(index: HostPointer -> nat, events: seq<Event>, n: nat, a: HostPointer): Option<HostPointer>
    requires n <= |events|
  {
    if n == 0 then None
    else if events[n - 1].Ldrex? && index(events[n - 1].address) == index(a) then Some(events[n - 1].address)
    else LastLoad(index, events, n - 1, a)
  }

  /** A bucket holds the address loaded last, and its version counts the stores that passed. */
  lemma {:induction false} SlotIsHistory(index: HostPointer -> nat, states: seq<System>, events: seq<Event>, n: nat,
                                         a: HostPointer)
    requires IsRun(index, states, events) && n <= |events|
    ensures SlotOf(states[n], index, a) == Slot(LastLoad(index, events, n, a), Passed(index, states, events, n, a))
    decreases n
  {
    if n > 0 {
      SlotIsHistory(index, states, events, n - 1, a);
      AllSlots(index, states, events, n - 1);
      assert states[n] == Apply(states[n - 1], index, events[n - 1]);
    }
  }

  /** An exclusive load and a later exclusive store of one CPU, with no other exclusive access of it in between. */
  ghost predicate IsPair(index: HostPointer -> nat, states: seq<System>, events: seq<Event>, i: nat, j: nat) {
    && IsRun(index, states, events) && i < j < |events|
    && events[i].Ldrex? && events[j].Strex? && events[i].cpu == events[j].cpu
    && Quiet(events, events[i].cpu, i, j)
  }

  /** For any two addresses the store succeeds exactly when its own bucket is at the version of the loaded one. */
  lemma SucceedsIff(index: HostPointer -> nat, states: seq<System>, events: seq<Event>, i: nat, j: nat)
    requires IsPair(index, states, events, i, j)
    ensures var a, b := events[i].address, events[j].address;
      Stores(states[j], index, events[j]) <==>
        && events[i].width == events[j].value.width
        && Intact(SlotOf(states[j], index, b), b, SlotOf(states[i], index, a).version)
        && WordAt(states[j], b) == WordAt(states[i], a)
  {
    KeepsReservation(index, states, events, i, j, events[i].cpu);
  }

  /**
   The same in terms of the history: as many stores have passed the bucket of the
   store as had passed the bucket of the load when it loaded, the latest load in
   the bucket of the store was of its address, and memory holds the loaded value.
   */
  lemma SucceedsByHistoryIff(index: HostPointer -> nat, states: seq<System>, events: seq<Event>, i: nat, j: nat)
    requires IsPair(index, states, events, i, j)
    ensures var a, b := events[i].address, events[j].address;
      Stores(states[j], index, events[j]) <==>
        && events[i].width == events[j].value.width
        && Passed(index, states, events, j, b) == Passed(index, states, events, i, a)
        && LastLoad(index, events, j, b) == Some(b)
        && WordAt(states[j], b) == WordAt(states[i], a)
  {
    SucceedsIff(index, states, events, i, j);
    SlotIsHistory(index, states, events, i, events[i].address);
    SlotIsHistory(index, states, events, j, events[j].address);
  }

  /** With no pass in between the version has not moved, and the other way round. */
  lemma {:induction false} SameVersionIff(index: HostPointer -> nat, states: seq<System>, events: seq<Event>, i: nat,
                                          j: nat, a: HostPointer)
    requires IsRun(index, states, events) && i < j <= |events| && events[i].Ldrex?
    ensures SlotOf(states[j], index, a).version == SlotOf(states[i], index, a).version
      <==> NonePassed(index, states, events, i, j, a)
    decreases j
  {
    VersionStep(index, states, events, j - 1, a);
    if j > i + 1 {
      SameVersionIff(index, states, events, i, j - 1, a);
      VersionsGrow(index, states, events, i, j - 1, a);
    }
  }

  /**
   For two addresses in one bucket, the same address included: nobody passed the
   bucket in between, the latest load in it was of the store's address, and memory
   holds the loaded value.
   */
  lemma SucceedsInBucketIff(index: HostPointer -> nat, states: seq<System>, events: seq<Event>, i: nat, j: nat)
    requires IsPair(index, states, events, i, j) && index(events[i].address) == index(events[j].address)
    ensures var a, b := events[i].address, events[j].address;
      Stores(states[j], index, events[j]) <==>
        && events[i].width == events[j].value.width
        && NonePassed(index, states, events, i, j, b)
        && LastLoad(index, events, j, b) == Some(b)
        && WordAt(states[j], b) == WordAt(states[i], a)
  {
    SucceedsIff(index, states, events, i, j);
    SlotIsHistory(index, states, events, j, events[j].address);
    SameVersionIff(index, states, events, i, j, events[j].address);
  }

  // ---------------------------------------------------------------------
  // What the monitor does not promise

  /** A plain store that writes back the loaded value goes unnoticed. */
  lemma PlainStoresGoUnnoticed(index: HostPointer -> nat)
    requires forall p: HostPointer :: index(p) < BUCKET_COUNT
    ensures exists states: seq<System>, events: seq<Event> ::
      && IsRun(index, states, events) && |events| == 4
      && events[0].Ldrex? && events[1].PlainStore? && events[2].PlainStore? && events[3].Strex?
      && events[0].address == events[1].address == events[2].address == events[3].address
      && WordAt(states[2], events[0].address) != WordAt(states[0], events[0].address)
      && Stores(states[3], index, events[3])
  {
    var events := [Ldrex(0, 0, 8), PlainStore(0, 1), PlainStore(0, 0), Strex(0, 0, Value(8, 5))];
    var s0 := START;
    var s1 := Apply(s0, index, events[0]);
    var s2 := Apply(s1, index, events[1]);
    var s3 := Apply(s2, index, events[2]);
    var s4 := Apply(s3, index, events[3]);
    var states := [s0, s1, s2, s3, s4];
    assert IsRun(index, states, events);
    assert Stores(s3, index, events[3]);
  }

  /** The check does not know where the reservation was taken: a store elsewhere can pass. */
  lemma OtherAddressCanPass(index: HostPointer -> nat)
    requires forall p: HostPointer :: index(p) < BUCKET_COUNT
    ensures exists states: seq<System>, events: seq<Event> ::
      && IsRun(index, states, events) && |events| == 3
      && events[0].Ldrex? && events[0].cpu == 0 && events[0].address == 0
      && events[2].Strex? && events[2].cpu == 0 && events[2].address != 0
      && Stores(states[2], index, events[2])
  {
    var events := [Ldrex(0, 0, 8), Ldrex(1, 64, 8), Strex(0, 64, Value(8, 5))];
    var s0 := START;
    var s1 := Apply(s0, index, events[0]);
    var s2 := Apply(s1, index, events[1]);
    var s3 := Apply(s2, index, events[2]);
    var states := [s0, s1, s2, s3];
    assert IsRun(index, states, events);
    assert Stores(s2, index, events[2]);
  }
}
