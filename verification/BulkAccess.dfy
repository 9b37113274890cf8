/**
 Bulk copies between guest memory and a host buffer: page by page, and within a
 page as a byte prefix, aligned 8-byte chunks, and a byte tail.
 */
module BulkAccess {
  import opened Wrappers
  import opened Bytes
  import opened Paging
  import opened UnalignedAccess
  import opened ScalarAccess

  const CHUNK_SIZE: nat := 8

  /** The `n` bytes at host address `a`. */
  function BytesAt(m: Memory, a: Address, n: nat): (s: seq<Byte>)
    ensures |s| == n && forall i :: 0 <= i < n ==> s[i] == At(m, a + i)
  {
    seq<Byte>(n, (i: nat) => At(m, a + i))
  }

  /** Writes the bytes of `s` at host address `a`, in ascending order. */
  function WriteBytes(m: Memory, a: Address, s: seq<Byte>): Memory {
    if s == [] then m else WriteBytes(m, a, s[..|s| - 1])[a + |s| - 1 := s[|s| - 1]]
  }

  /** The `n` bytes at guest address `a`. */
  function VBytes(pages: Pages, m: Memory, a: Address, n: nat): (s: seq<Byte>)
    requires RangeMapped(pages, a, n)
    ensures |s| == n
    ensures forall i :: 0 <= i < n ==> IsMapped(pages, a + i) && s[i] == At(m, Translate(pages, a + i))
  {
    seq<Byte>(n, (i: nat) requires i < n => assert IsMapped(pages, a + i); At(m, Translate(pages, a + i)))
  }

  /** Writes the bytes of `s` at guest address `a`, one at a time in ascending order. */
  function VWriteBytes(pages: Pages, m: Memory, a: Address, s: seq<Byte>): Memory
    requires RangeMapped(pages, a, |s|)
  {
    if s == [] then m
    else
      var last := a + |s| - 1;
      assert IsMapped(pages, last);
      VWriteBytes(pages, m, a, s[..|s| - 1])[Translate(pages, last) := s[|s| - 1]]
  }

  lemma {:induction false} WriteBytesConcat(m: Memory, a: Address, s: seq<Byte>, t: seq<Byte>)
    ensures WriteBytes(m, a, s + t) == WriteBytes(WriteBytes(m, a, s), a + |s|, t)
  {
    if t == [] {
      assert s + t == s;
    } else {
      assert (s + t)[..|s + t| - 1] == s + t[..|t| - 1];
      WriteBytesConcat(m, a, s, t[..|t| - 1]);
    }
  }

  /** Pages lie contiguously in their frame, so a stretch of one page is one host write. */
  lemma {:induction false} VWriteInPage(pages: Pages, m: Memory, a: Address, s: seq<Byte>, t: seq<Byte>)
    requires RangeMapped(pages, a, |s + t|) && IsMapped(pages, a + |s|)
    requires (a + |s|) % PAGE_SIZE + |t| <= PAGE_SIZE
    ensures RangeMapped(pages, a, |s|)
    ensures VWriteBytes(pages, m, a, s + t)
            == WriteBytes(VWriteBytes(pages, m, a, s), Translate(pages, a + |s|), t)
  {
    if t == [] {
      assert s + t == s;
    } else {
      var init := t[..|t| - 1];
      assert (s + t)[..|s + t| - 1] == s + init;
      VWriteInPage(pages, m, a, s, init);
      SamePage(a + |s|, |t| - 1);
    }
  }

  lemma SamePage(a: Address, i: nat)
    requires a % PAGE_SIZE + i < PAGE_SIZE
    ensures (a + i) / PAGE_SIZE == a / PAGE_SIZE && (a + i) % PAGE_SIZE == a % PAGE_SIZE + i
  {
  }

  lemma VBytesInPage(pages: Pages, m: Memory, a: Address, n: nat, count: nat)
    requires RangeMapped(pages, a, n + count) && IsMapped(pages, a + n) && (a + n) % PAGE_SIZE + count <= PAGE_SIZE
    ensures RangeMapped(pages, a, n)
    ensures VBytes(pages, m, a, n + count) == VBytes(pages, m, a, n) + BytesAt(m, Translate(pages, a + n), count)
  {
  }

  // ---------------------------------------------------------------------
  // Chunks

  /** The little-endian number with the given bytes. */
  function FromBytes(s: seq<Byte>): nat {
    if s == [] then 0 else s[0] + 256 * FromBytes(s[1..])
  }

  lemma {:induction false} LoadedBytes(m: Memory, a: Address, n: nat, i: nat)
    requires i < n
    ensures ByteOf(LoadLe(m, a, n), i) == At(m, a + i)
    decreases n
  {
    var rest := LoadLe(m, a + 1, n - 1);
    assert (At(m, a) + 256 * rest) % 256 == At(m, a) && (At(m, a) + 256 * rest) / 256 == rest;
    if i > 0 {
      LoadedBytes(m, a + 1, n - 1, i - 1);
      assert a + 1 + (i - 1) == a + i;
    }
  }

  lemma {:induction false} StoreFromBytes(m: Memory, a: Address, s: seq<Byte>)
    ensures StoreLe(m, a, |s|, FromBytes(s)) == WriteBytes(m, a, s)
    decreases |s|
  {
    if s != [] {
      var v := FromBytes(s);
      assert v % 256 == s[0] && v / 256 == FromBytes(s[1..]);
      StoreFromBytes(m[a := s[0]], a + 1, s[1..]);
      assert s == [s[0]] + s[1..];
      assert WriteBytes(m, a, [s[0]]) == m[a := s[0]] by {
        assert [s[0]][..0] == [];
      }
      WriteBytesConcat(m, a, [s[0]], s[1..]);
    }
  }

  /** The guest accesses made so far cover the bytes from `a` to `end` once each, chunks aligned. */
  ghost predicate Covers(trace: seq<(Address, nat)>, a: Address, end: Address) {
    if trace == [] then a == end
    else
      var (at, width) := trace[|trace| - 1];
      && at + width == end && at >= a
      && (width == 1 || (width == CHUNK_SIZE && at % CHUNK_SIZE == 0))
      && Covers(trace[..|trace| - 1], a, at)
  }

  lemma CoversMore(trace: seq<(Address, nat)>, a: Address, end: Address, width: nat)
    requires Covers(trace, a, end) && end >= a && (width == 1 || (width == CHUNK_SIZE && end % CHUNK_SIZE == 0))
    ensures Covers(trace + [(end, width)], a, end + width)
  {
    assert (trace + [(end, width)])[..|trace|] == trace;
  }

  /** The copied part of the buffer, `i` bytes from position `start` on. */
  ghost function Part(buffer: seq<Byte>, start: nat, i: nat): seq<Byte>
    requires start + i <= |buffer|
  {
    buffer[start..start + i]
  }

  /** What the copy has done after `i` bytes. */
  ghost predicate Copied(toHost: bool, bytes0: Memory, buffer0: seq<Byte>, vm: Address, start: nat, i: nat,
                         bytes: Memory, buffer: seq<Byte>)
  {
    && |buffer| == |buffer0| && start + i <= |buffer|
    && if toHost then bytes == bytes0 && Part(buffer, start, i) == BytesAt(bytes0, vm, i)
                      && buffer[..start] == buffer0[..start] && buffer[start + i..] == buffer0[start + i..]
       else buffer == buffer0 && bytes == WriteBytes(bytes0, vm, Part(buffer0, start, i))
  }

  lemma HostCopied(bytes: Memory, buffer0: seq<Byte>, vm: Address, start: nat, i: nat, buffer: seq<Byte>, n: nat,
                   next: seq<Byte>)
    requires Copied(true, bytes, buffer0, vm, start, i, bytes, buffer) && start + i + n <= |buffer| == |next|
    requires forall j :: 0 <= j < |next| ==>
      next[j] == if start + i <= j < start + i + n then At(bytes, vm + (j - start)) else buffer[j]
    ensures Copied(true, bytes, buffer0, vm, start, i + n, bytes, next)
  {
    var copied := Part(next, start, i + n);
    forall j | 0 <= j < i + n ensures copied[j] == At(bytes, vm + j) {
      if j < i {
        assert Part(buffer, start, i)[j] == BytesAt(bytes, vm, i)[j];
        assert next[start + j] == buffer[start + j];
      }
    }
    assert Part(next, start, i + n) == BytesAt(bytes, vm, i + n);
    assert next[..start] == buffer[..start];
    assert next[start + i + n..] == buffer[start + i..][n..] == buffer0[start + i..][n..];
  }

  lemma VmCopied(bytes0: Memory, buffer: seq<Byte>, vm: Address, start: nat, i: nat, bytes: Memory, n: nat,
                 next: Memory)
    requires Copied(false, bytes0, buffer, vm, start, i, bytes, buffer) && start + i + n <= |buffer|
    requires next == WriteBytes(bytes, vm + i, Part(buffer, start + i, n))
    ensures Copied(false, bytes0, buffer, vm, start, i + n, next, buffer)
  {
    assert Part(buffer, start, i + n) == Part(buffer, start, i) + Part(buffer, start + i, n);
    WriteBytesConcat(bytes0, vm, Part(buffer, start, i), Part(buffer, start + i, n));
  }

  lemma ChunkCopied(bytes0: Memory, buffer: seq<Byte>, vm: Address, start: nat, i: nat, bytes: Memory, next: Memory)
    requires Copied(false, bytes0, buffer, vm, start, i, bytes, buffer) && start + i + CHUNK_SIZE <= |buffer|
    requires next == StoreLe(bytes, vm + i, CHUNK_SIZE, FromBytes(buffer[start + i..start + i + CHUNK_SIZE]))
    ensures Copied(false, bytes0, buffer, vm, start, i + CHUNK_SIZE, next, buffer)
  {
    StoreFromBytes(bytes, vm + i, buffer[start + i..start + i + CHUNK_SIZE]);
    VmCopied(bytes0, buffer, vm, start, i, bytes, CHUNK_SIZE, next);
  }

  /** One byte. */
  method CopyByte(ram: Ram, buffer: array<Byte>, toHost: bool, vm: Address, start: nat, i: nat,
                  ghost bytes0: Memory, ghost buffer0: seq<Byte>)
    requires start + i < buffer.Length && Copied(toHost, bytes0, buffer0, vm, start, i, ram.bytes, buffer[..])
    modifies ram`bytes, buffer
    ensures Copied(toHost, bytes0, buffer0, vm, start, i + 1, ram.bytes, buffer[..])
  {
    ghost var was := buffer[..];
    if toHost {
      buffer[start + i] := At(ram.bytes, vm + i);
      HostCopied(ram.bytes, buffer0, vm, start, i, was, 1, buffer[..]);
    } else {
      ghost var before := ram.bytes;
      ram.StoreAligned(vm + i, 1, buffer[start + i]);
      StoreFromBytes(before, vm + i, [buffer[start + i]]);
      assert Part(was, start + i, 1) == [buffer[start + i]];
      VmCopied(bytes0, was, vm, start, i, before, 1, ram.bytes);
    }
  }

  /** One aligned chunk. */
  method CopyChunk(ram: Ram, buffer: array<Byte>, toHost: bool, vm: Address, start: nat, i: nat,
                   ghost bytes0: Memory, ghost buffer0: seq<Byte>)
    requires start + i + CHUNK_SIZE <= buffer.Length && (vm + i) % CHUNK_SIZE == 0
    requires Copied(toHost, bytes0, buffer0, vm, start, i, ram.bytes, buffer[..])
    modifies ram`bytes, buffer
    ensures Copied(toHost, bytes0, buffer0, vm, start, i + CHUNK_SIZE, ram.bytes, buffer[..])
  {
    ghost var was, before := buffer[..], ram.bytes;
    if toHost {
      WriteChunk(buffer, start + i, LoadLe(ram.bytes, vm + i, CHUNK_SIZE), ram.bytes, vm + i);
      HostCopied(ram.bytes, buffer0, vm, start, i, was, CHUNK_SIZE, buffer[..]);
    } else {
      ram.StoreAligned(vm + i, CHUNK_SIZE, FromBytes(buffer[start + i..start + i + CHUNK_SIZE]));
      ChunkCopied(bytes0, was, vm, start, i, before, ram.bytes);
    }
  }

  /** Writes the bytes of a loaded chunk into the buffer. */
  method WriteChunk(buffer: array<Byte>, at: nat, chunk: nat, ghost m: Memory, ghost a: Address)
    requires at + CHUNK_SIZE <= buffer.Length && chunk == LoadLe(m, a, CHUNK_SIZE)
    modifies buffer
    ensures forall x :: 0 <= x < buffer.Length ==>
      buffer[x] == if at <= x < at + CHUNK_SIZE then At(m, a + (x - at)) else old(buffer[x])
  {
    for j := 0 to CHUNK_SIZE
      invariant forall x :: 0 <= x < buffer.Length ==>
        buffer[x] == if at <= x < at + j then At(m, a + (x - at)) else old(buffer[x])
    {
      LoadedBytes(m, a, CHUNK_SIZE, j);
      buffer[at + j] := ByteOf(chunk, j);
    }
  }

  /** Bytes `from` to `to`, one at a time. */
  method CopyBytes(ram: Ram, buffer: array<Byte>, toHost: bool, vm: Address, start: nat, from: nat, to: nat,
                   ghost bytes0: Memory, ghost buffer0: seq<Byte>, ghost before: seq<(Address, nat)>)
    returns (ghost trace: seq<(Address, nat)>)
    requires from <= to && start + to <= buffer.Length && Covers(before, vm, vm + from)
    requires Copied(toHost, bytes0, buffer0, vm, start, from, ram.bytes, buffer[..])
    modifies ram`bytes, buffer
    ensures Copied(toHost, bytes0, buffer0, vm, start, to, ram.bytes, buffer[..])
    ensures Covers(trace, vm, vm + to) && |trace| == |before| + (to - from)
  {
    trace := before;
    for i := from to to
      invariant Covers(trace, vm, vm + i) && |trace| == |before| + (i - from)
      invariant Copied(toHost, bytes0, buffer0, vm, start, i, ram.bytes, buffer[..])
    {
      CopyByte(ram, buffer, toHost, vm, start, i, bytes0, buffer0);
      CoversMore(trace, vm, vm + i, 1);
      trace := trace + [(vm + i, 1)];
    }
  }

  method CopyChunks(ram: Ram, buffer: array<Byte>, toHost: bool, vm: Address, start: nat, from: nat, chunks: nat,
                    ghost bytes0: Memory, ghost buffer0: seq<Byte>, ghost before: seq<(Address, nat)>)
    returns (ghost trace: seq<(Address, nat)>)
    requires start + from + chunks * CHUNK_SIZE <= buffer.Length && Covers(before, vm, vm + from)
    requires chunks > 0 ==> (vm + from) % CHUNK_SIZE == 0
    requires Copied(toHost, bytes0, buffer0, vm, start, from, ram.bytes, buffer[..])
    modifies ram`bytes, buffer
    ensures Copied(toHost, bytes0, buffer0, vm, start, from + chunks * CHUNK_SIZE, ram.bytes, buffer[..])
    ensures Covers(trace, vm, vm + from + chunks * CHUNK_SIZE) && |trace| == |before| + chunks
  {
    trace := before;
    ghost var c := 0;
    var i := from;
    while i < from + chunks * CHUNK_SIZE
      invariant 0 <= c <= chunks && i == from + c * CHUNK_SIZE
      invariant Covers(trace, vm, vm + i) && |trace| == |before| + c
      invariant Copied(toHost, bytes0, buffer0, vm, start, i, ram.bytes, buffer[..])
    {
      CopyChunk(ram, buffer, toHost, vm, start, i, bytes0, buffer0);
      CoversMore(trace, vm, vm + i, CHUNK_SIZE);
      trace := trace + [(vm + i, CHUNK_SIZE)];
      i := i + CHUNK_SIZE;
      c := c + 1;
    }
  }

  /** Copies exactly `count` bytes, touching each guest byte once and every chunk aligned. */
  method BulkByteChunkCopy(ram: Ram, buffer: array<Byte>, toHost: bool, vm: Address, start: nat, count: nat)
    returns (ghost trace: seq<(Address, nat)>)
    requires start + count <= buffer.Length
    modifies ram`bytes, buffer
    ensures Copied(toHost, old(ram.bytes), old(buffer[..]), vm, start, count, ram.bytes, buffer[..])
    ensures Covers(trace, vm, vm + count) && |trace| <= count / CHUNK_SIZE + 2 * (CHUNK_SIZE - 1)
  {
    ghost var bytes0, buffer0 := ram.bytes, buffer[..];
    var toAligned := (CHUNK_SIZE - vm % CHUNK_SIZE) % CHUNK_SIZE;
    var prefix := if toAligned <= count then toAligned else count;
    var chunks := (count - prefix) / CHUNK_SIZE;
    StartCopy(toHost, bytes0, buffer0, vm, start);
    trace := CopyBytes(ram, buffer, toHost, vm, start, 0, prefix, bytes0, buffer0, []);
    trace := CopyChunks(ram, buffer, toHost, vm, start, prefix, chunks, bytes0, buffer0, trace);
    trace := CopyBytes(ram, buffer, toHost, vm, start, prefix + chunks * CHUNK_SIZE, count, bytes0, buffer0, trace);
  }

  lemma StartCopy(toHost: bool, bytes0: Memory, buffer0: seq<Byte>, vm: Address, start: nat)
    requires start <= |buffer0|
    ensures Copied(toHost, bytes0, buffer0, vm, start, 0, bytes0, buffer0)
  {
    assert Part(buffer0, start, 0) == [];
  }

  // ---------------------------------------------------------------------
  // Whole accesses

  /** What a bulk access demands of every page. */
  datatype Demand = Demand(need: Option<Need>, noCow: bool)

  predicate PageAllows(p: Page, d: Demand) {
    !(d.noCow && p.flags.cow) && (d.need.Some? ==> Allows(p.flags, d.need.value))
  }

  predicate PageOk(pages: Pages, d: Demand, page: nat) {
    page in pages && PageAllows(pages[page], d)
  }

  predicate PagesOk(pages: Pages, d: Demand, first: nat, last: nat) {
    forall p {:trigger PageOk(pages, d, p)} :: first <= p <= last ==> PageOk(pages, d, p)
  }

  /** `at` is the start of the highest page between `first` and `last` that fails. */
  ghost predicate HighestFailing(pages: Pages, d: Demand, first: nat, last: nat, at: Address) {
    exists p: nat ::
      first <= p <= last && at == PageBase(p) && !PageOk(pages, d, p) && PagesOk(pages, d, p + 1, last)
  }

  /** Checks the pages from the last one down; the error is the base of the highest page that fails. */
  method Verify(pages: Pages, d: Demand, first: nat, last: nat) returns (fault: Option<Address>)
    requires first <= last
    ensures fault.None? <==> PagesOk(pages, d, first, last)
    ensures fault.Some? ==> HighestFailing(pages, d, first, last, fault.value)
  {
    var page := last + 1;
    while page > first
      invariant first <= page <= last + 1 && PagesOk(pages, d, page, last)
    {
      page := page - 1;
      if page !in pages {
        assert !PageOk(pages, d, page);
        return Some(PageBase(page));
      }
      if !PageAllows(pages[page], d) {
        assert !PageOk(pages, d, page);
        return Some(PageBase(page));
      }
    }
    return None;
  }

  lemma OkIsMapped(pages: Pages, d: Demand, a: Address, n: nat)
    requires n > 0 && PagesOk(pages, d, a / PAGE_SIZE, (a + n - 1) / PAGE_SIZE)
    ensures RangeMapped(pages, a, n)
  {
    forall x: Address {:trigger IsMapped(pages, x)} | a <= x < a + n ensures IsMapped(pages, x) {
      PageBetween(a, x, a + n - 1);
      assert PageOk(pages, d, x / PAGE_SIZE);
    }
  }

  lemma PageBetween(a: Address, x: Address, b: Address)
    requires a <= x <= b
    ensures a / PAGE_SIZE <= x / PAGE_SIZE <= b / PAGE_SIZE
  {
  }

  /** Every byte of the range may be accessed; the pages say the same as the bytes. */
  lemma PagesOkIsBytesOk(pages: Pages, d: Demand, a: Address, n: nat)
    requires n > 0
    ensures PagesOk(pages, d, a / PAGE_SIZE, (a + n - 1) / PAGE_SIZE)
      <==> forall x: Address :: a <= x < a + n ==> PageOk(pages, d, x / PAGE_SIZE)
  {
    if PagesOk(pages, d, a / PAGE_SIZE, (a + n - 1) / PAGE_SIZE) {
      forall x: Address | a <= x < a + n ensures PageOk(pages, d, x / PAGE_SIZE) {
        PageBetween(a, x, a + n - 1);
      }
    }
    if forall x: Address :: a <= x < a + n ==> PageOk(pages, d, x / PAGE_SIZE) {
      forall p {:trigger PageOk(pages, d, p)} | a / PAGE_SIZE <= p <= (a + n - 1) / PAGE_SIZE
        ensures PageOk(pages, d, p)
      {
        var x := if p == a / PAGE_SIZE then a else p * PAGE_SIZE;
        assert a <= x < a + n && x / PAGE_SIZE == p;
      }
    }
  }

  /** How many bytes of the access lie below page `page`. */
  function BytesBelow(a: Address, n: nat, page: nat): nat {
    if page * PAGE_SIZE <= a then 0 else if page * PAGE_SIZE >= a + n then n else page * PAGE_SIZE - a
  }

  /** The access after the pages below `page` are done: memory, buffer and dirty flags. */
  ghost predicate AccessedTo(pages: Pages, toHost: bool, a: Address, n: nat, done: nat, bytes0: Memory,
                             buffer0: seq<Byte>, dirty0: set<nat>, bytes: Memory, buffer: seq<Byte>, dirty: set<nat>)
    requires RangeMapped(pages, a, n)
  {
    && |buffer| == |buffer0| == n && done <= n && RangeMapped(pages, a, done)
    && if toHost then bytes == bytes0 && dirty == dirty0
                      && buffer == VBytes(pages, bytes0, a, done) + buffer0[done..]
       else buffer == buffer0 && bytes == VWriteBytes(pages, bytes0, a, buffer0[..done])
            && dirty == dirty0 + Dirtied(pages, a, done)
  }

  function PageStart(a: Address, page: nat): nat {
    if page == a / PAGE_SIZE then a % PAGE_SIZE else 0
  }

  function PageEnd(a: Address, n: nat, page: nat): nat
    requires n > 0
  {
    if page == (a + n - 1) / PAGE_SIZE then (a + n - 1) % PAGE_SIZE + 1 else PAGE_SIZE
  }

  /** The part of page `page` that the access touches. */
  lemma PagePart(a: Address, n: nat, page: nat)
    requires n > 0 && a / PAGE_SIZE <= page <= (a + n - 1) / PAGE_SIZE
    ensures var start, end, below := PageStart(a, page), PageEnd(a, n, page), BytesBelow(a, n, page);
      && start < end <= PAGE_SIZE
      && below == (page - a / PAGE_SIZE) * PAGE_SIZE + start - a % PAGE_SIZE
      && BytesBelow(a, n, page + 1) == below + (end - start) <= n
      && (a + below) / PAGE_SIZE == page && (a + below) % PAGE_SIZE == start
  {
  }

  lemma DirtiedMore(pages: Pages, a: Address, done: nat, count: nat)
    requires count > 0 && IsMapped(pages, a + done) && (a + done) % PAGE_SIZE + count <= PAGE_SIZE
    ensures Dirtied(pages, a, done + count) == Dirtied(pages, a, done) + DirtyCell(pages[(a + done) / PAGE_SIZE])
  {
  }

  lemma LoadedMore(pages: Pages, a: Address, n: nat, done: nat, count: nat, bytes0: Memory, buffer0: seq<Byte>,
                   dirty0: set<nat>, bytes: Memory, buffer: seq<Byte>, dirty: set<nat>, bytes1: Memory,
                   buffer1: seq<Byte>)
    requires RangeMapped(pages, a, n) && 0 < count && done + count <= n
    requires AccessedTo(pages, true, a, n, done, bytes0, buffer0, dirty0, bytes, buffer, dirty)
    requires IsMapped(pages, a + done) && (a + done) % PAGE_SIZE + count <= PAGE_SIZE
    requires Copied(true, bytes, buffer, Translate(pages, a + done), done, count, bytes1, buffer1)
    ensures AccessedTo(pages, true, a, n, done + count, bytes0, buffer0, dirty0, bytes1, buffer1, dirty)
  {
    VBytesInPage(pages, bytes0, a, done, count);
    var head := VBytes(pages, bytes0, a, done);
    assert buffer1[..done + count] == buffer1[..done] + Part(buffer1, done, count);
    assert buffer[..done] == head;
    assert buffer[done + count..] == buffer0[done + count..];
  }

  lemma StoredMore(pages: Pages, a: Address, n: nat, done: nat, count: nat, bytes0: Memory, buffer0: seq<Byte>,
                   dirty0: set<nat>, bytes: Memory, buffer: seq<Byte>, dirty: set<nat>, bytes1: Memory,
                   buffer1: seq<Byte>)
    requires RangeMapped(pages, a, n) && 0 < count && done + count <= n
    requires AccessedTo(pages, false, a, n, done, bytes0, buffer0, dirty0, bytes, buffer, dirty)
    requires IsMapped(pages, a + done) && (a + done) % PAGE_SIZE + count <= PAGE_SIZE
    requires Copied(false, bytes, buffer, Translate(pages, a + done), done, count, bytes1, buffer1)
    ensures AccessedTo(pages, false, a, n, done + count, bytes0, buffer0, dirty0, bytes1, buffer1,
                       dirty + DirtyCell(pages[(a + done) / PAGE_SIZE]))
  {
    assert buffer0[..done] + Part(buffer0, done, count) == buffer0[..done + count];
    VWriteInPage(pages, bytes0, a, buffer0[..done], Part(buffer0, done, count));
    DirtiedMore(pages, a, done, count);
  }

  /** Copying the next stretch of one page carries the access on. */
  lemma AccessedMore(pages: Pages, toHost: bool, a: Address, n: nat, done: nat, count: nat, bytes0: Memory,
                     buffer0: seq<Byte>, dirty0: set<nat>, bytes: Memory, buffer: seq<Byte>, dirty: set<nat>,
                     bytes1: Memory, buffer1: seq<Byte>)
    requires RangeMapped(pages, a, n) && 0 < count && done + count <= n
    requires AccessedTo(pages, toHost, a, n, done, bytes0, buffer0, dirty0, bytes, buffer, dirty)
    requires IsMapped(pages, a + done) && (a + done) % PAGE_SIZE + count <= PAGE_SIZE
    requires Copied(toHost, bytes, buffer, Translate(pages, a + done), done, count, bytes1, buffer1)
    ensures AccessedTo(pages, toHost, a, n, done + count, bytes0, buffer0, dirty0, bytes1, buffer1,
                       if toHost then dirty else dirty + DirtyCell(pages[(a + done) / PAGE_SIZE]))
  {
    if toHost {
      LoadedMore(pages, a, n, done, count, bytes0, buffer0, dirty0, bytes, buffer, dirty, bytes1, buffer1);
    } else {
      StoredMore(pages, a, n, done, count, bytes0, buffer0, dirty0, bytes, buffer, dirty, bytes1, buffer1);
    }
  }

  /** Copies the part of one page; a store marks the page afterwards. */
  method AccessPage(ram: Ram, pages: Pages, buffer: array<Byte>, toHost: bool, a: Address, page: nat,
                    ghost bytes0: Memory, ghost buffer0: seq<Byte>, ghost dirty0: set<nat>)
    requires buffer.Length > 0 && RangeMapped(pages, a, buffer.Length)
    requires a / PAGE_SIZE <= page <= (a + buffer.Length - 1) / PAGE_SIZE
    requires AccessedTo(pages, toHost, a, buffer.Length, BytesBelow(a, buffer.Length, page), bytes0, buffer0, dirty0,
                        ram.bytes, buffer[..], ram.dirty)
    modifies ram, buffer
    ensures AccessedTo(pages, toHost, a, buffer.Length, BytesBelow(a, buffer.Length, page + 1), bytes0, buffer0,
                       dirty0, ram.bytes, buffer[..], ram.dirty)
  {
    PagePart(a, buffer.Length, page);
    var pageStart, pageEnd := PageStart(a, page), PageEnd(a, buffer.Length, page);
    var at := (page - a / PAGE_SIZE) * PAGE_SIZE + pageStart - a % PAGE_SIZE;
    AccessStretch(ram, pages, buffer, toHost, a, page, pageStart, at, pageEnd - pageStart, bytes0, buffer0, dirty0);
  }

  method AccessStretch(ram: Ram, pages: Pages, buffer: array<Byte>, toHost: bool, a: Address, page: nat,
                       offset: nat, at: nat, count: nat, ghost bytes0: Memory, ghost buffer0: seq<Byte>,
                       ghost dirty0: set<nat>)
    requires 0 < count && at + count <= buffer.Length && RangeMapped(pages, a, buffer.Length)
    requires (a + at) / PAGE_SIZE == page && (a + at) % PAGE_SIZE == offset && offset + count <= PAGE_SIZE
    requires AccessedTo(pages, toHost, a, buffer.Length, at, bytes0, buffer0, dirty0, ram.bytes, buffer[..], ram.dirty)
    modifies ram, buffer
    ensures AccessedTo(pages, toHost, a, buffer.Length, at + count, bytes0, buffer0, dirty0, ram.bytes, buffer[..],
                       ram.dirty)
  {
    assert IsMapped(pages, a + at);
    ghost var bytes, before := ram.bytes, buffer[..];
    var _ := BulkByteChunkCopy(ram, buffer, toHost, HostAddress(pages[page], offset), at, count);
    AccessedMore(pages, toHost, a, buffer.Length, at, count, bytes0, buffer0, dirty0, bytes, before, ram.dirty,
                 ram.bytes, buffer[..]);
    if !toHost {
      SetDirty(ram, pages[page]);
    }
  }

  /**
   A bulk load or store.  It either copies the whole range as byte-wise accesses
   in ascending order would, or changes nothing and reports the highest page that
   fails (the last address when the range wraps around).
   */
  method MemAccess(ram: Ram, pages: Pages, d: Demand, a: Address, buffer: array<Byte>, toHost: bool)
    returns (fault: Option<Address>)
    requires a < ADDRESS_LIMIT
    modifies ram, buffer
    ensures fault.None? <==>
      buffer.Length == 0
      || (a + buffer.Length <= ADDRESS_LIMIT
          && PagesOk(pages, d, a / PAGE_SIZE, (a + buffer.Length - 1) / PAGE_SIZE))
    ensures fault.Some? ==>
      ram.bytes == old(ram.bytes) && ram.dirty == old(ram.dirty) && buffer[..] == old(buffer[..])
    ensures fault.Some? && a + buffer.Length > ADDRESS_LIMIT ==> fault == Some(ADDRESS_LIMIT - 1)
    ensures fault.Some? && a + buffer.Length <= ADDRESS_LIMIT ==>
      HighestFailing(pages, d, a / PAGE_SIZE, (a + buffer.Length - 1) / PAGE_SIZE, fault.value)
    ensures fault.None? ==> RangeMapped(pages, a, buffer.Length)
    ensures fault.None? && toHost ==> ram.bytes == old(ram.bytes) && ram.dirty == old(ram.dirty)
    ensures fault.None? && toHost ==> buffer[..] == VBytes(pages, old(ram.bytes), a, buffer.Length)
    ensures fault.None? && !toHost ==> buffer[..] == old(buffer[..])
    ensures fault.None? && !toHost ==> ram.bytes == VWriteBytes(pages, old(ram.bytes), a, old(buffer[..]))
    ensures fault.None? && !toHost ==> ram.dirty == old(ram.dirty) + Dirtied(pages, a, buffer.Length)
  {
    var n := buffer.Length;
    ghost var bytes0, buffer0, dirty0 := ram.bytes, buffer[..], ram.dirty;
    if n == 0 {
      assert buffer[..] == [] && Dirtied(pages, a, 0) == {};
      return None;
    }
    if a + n > ADDRESS_LIMIT {
      return Some(ADDRESS_LIMIT - 1);
    }
    var first, last := a / PAGE_SIZE, (a + n - 1) / PAGE_SIZE;
    fault := Verify(pages, d, first, last);
    if fault.Some? {
      return;
    }
    OkIsMapped(pages, d, a, n);
    StartAccess(pages, toHost, a, n, bytes0, buffer0, dirty0);
    for page := first to last + 1
      invariant AccessedTo(pages, toHost, a, n, BytesBelow(a, n, page), bytes0, buffer0, dirty0, ram.bytes, buffer[..],
                           ram.dirty)
    {
      AccessPage(ram, pages, buffer, toHost, a, page, bytes0, buffer0, dirty0);
    }
    assert BytesBelow(a, n, last + 1) == n;
    assert buffer0[..n] == buffer0 && buffer0[n..] == [];
  }

  /** Every byte of the range lies in a page that meets the demand. */
  ghost predicate BytesOk(pages: Pages, d: Demand, a: Address, n: nat) {
    a + n <= ADDRESS_LIMIT && forall x: Address :: a <= x < a + n ==> PageOk(pages, d, x / PAGE_SIZE)
  }

  /** The address reported for a range that fails: the last one of all if it wraps, else its highest failing page. */
  ghost predicate FaultsAt(pages: Pages, d: Demand, a: Address, n: nat, at: Address)
    requires n > 0
  {
    if a + n > ADDRESS_LIMIT then at == ADDRESS_LIMIT - 1
    else HighestFailing(pages, d, a / PAGE_SIZE, (a + n - 1) / PAGE_SIZE, at)
  }

  /** A bulk store, with or without a required permission: it never writes to a copy-on-write page. */
  method StoreBulk(ram: Ram, pages: Pages, a: Address, buffer: array<Byte>, required: Option<Need>)
    returns (fault: Option<Address>)
    requires a < ADDRESS_LIMIT
    modifies ram, buffer
    ensures fault.None? <==> buffer.Length == 0 || BytesOk(pages, Demand(required, true), a, buffer.Length)
    ensures fault.Some? ==> FaultsAt(pages, Demand(required, true), a, buffer.Length, fault.value)
    ensures fault.None? ==> RangeMapped(pages, a, buffer.Length)
    ensures fault.None? ==> ram.bytes == VWriteBytes(pages, old(ram.bytes), a, old(buffer[..]))
    ensures fault.None? ==> ram.dirty == old(ram.dirty) + Dirtied(pages, a, buffer.Length)
    ensures fault.None? ==> NoneIsCow(pages, a, buffer.Length)
    ensures fault.Some? ==> ram.bytes == old(ram.bytes) && ram.dirty == old(ram.dirty)
    ensures buffer[..] == old(buffer[..])
  {
    if buffer.Length > 0 {
      PagesOkIsBytesOk(pages, Demand(required, true), a, buffer.Length);
    }
    fault := MemAccess(ram, pages, Demand(required, true), a, buffer, false);
    if fault.None? {
      forall x: Address | a <= x < a + buffer.Length
        ensures x / PAGE_SIZE in pages && !pages[x / PAGE_SIZE].flags.cow
      {
        assert PageOk(pages, Demand(required, true), x / PAGE_SIZE);
      }
    }
  }

  /** No byte of the range lies in a copy-on-write page. */
  ghost predicate NoneIsCow(pages: Pages, a: Address, n: nat) {
    forall x: Address :: a <= x < a + n ==> x / PAGE_SIZE in pages && !pages[x / PAGE_SIZE].flags.cow
  }

  /** A bulk load, with or without a required permission; copy-on-write pages may be read. */
  method LoadBulk(ram: Ram, pages: Pages, a: Address, buffer: array<Byte>, required: Option<Need>)
    returns (fault: Option<Address>)
    requires a < ADDRESS_LIMIT
    modifies ram, buffer
    ensures fault.None? <==> buffer.Length == 0 || BytesOk(pages, Demand(required, false), a, buffer.Length)
    ensures fault.Some? ==> FaultsAt(pages, Demand(required, false), a, buffer.Length, fault.value)
    ensures fault.None? ==> RangeMapped(pages, a, buffer.Length)
    ensures fault.None? ==> buffer[..] == VBytes(pages, old(ram.bytes), a, buffer.Length)
    ensures fault.Some? ==> buffer[..] == old(buffer[..])
    ensures ram.bytes == old(ram.bytes) && ram.dirty == old(ram.dirty)
  {
    if buffer.Length > 0 {
      PagesOkIsBytesOk(pages, Demand(required, false), a, buffer.Length);
    }
    fault := MemAccess(ram, pages, Demand(required, false), a, buffer, true);
  }

  lemma StartAccess(pages: Pages, toHost: bool, a: Address, n: nat, bytes0: Memory, buffer0: seq<Byte>,
                    dirty0: set<nat>)
    requires RangeMapped(pages, a, n) && |buffer0| == n
    ensures BytesBelow(a, n, a / PAGE_SIZE) == 0
    ensures AccessedTo(pages, toHost, a, n, 0, bytes0, buffer0, dirty0, bytes0, buffer0, dirty0)
  {
  }
}
