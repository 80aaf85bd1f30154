/** Virtual to physical translation of utils/QDMAController.cpp: mapV2P on the host, the TLB entries
    that writeTLB hands to the device, and the 2 MiB aggregation of 64 KiB GPU pages. */
module Translation {
  import opened Words
  import opened Allocator

  // page_table: the virtual base and the physical address of every page.
  datatype PageTable = PageTable(vaddr: nat, pages: seq<nat>)

  const HUGE: int := 0x20_0000

  const GPU_PAGE: int := 0x1_0000

  predicate IsPageSize(ps: int) {
    ps == HUGE || ps == GPU_PAGE
  }

  predicate ValidTable(t: PageTable, ps: int) {
    && IsPageSize(ps)
    && t.vaddr + |t.pages| * ps <= TWO64
    && forall i :: 0 <= i < |t.pages| ==> t.pages[i] < TWO64
  }

  predicate InPool(t: PageTable, ps: int, ptr: nat) {
    t.vaddr <= ptr < t.vaddr + |t.pages| * ps
  }

  lemma PageIndex(off: nat, ps: int, n: nat)
    requires IsPageSize(ps) && off < n * ps
    ensures 0 <= off / ps < n && 0 <= off % ps < ps && off == (off / ps) * ps + off % ps
  {
    if ps == HUGE { assert off < n * HUGE; } else { assert off < n * GPU_PAGE; }
  }

  // Two addresses on the same page or on pages that are at least one page apart.
  lemma PageUnique(off: nat, ps: int, i: nat)
    requires IsPageSize(ps)
    ensures i * ps <= off < i * ps + ps <==> i == off / ps
  {
    if ps == HUGE { assert i * ps == i * HUGE; } else { assert i * ps == i * GPU_PAGE; }
  }

  /** mapV2P; `offset & (page_size - 1)` is the remainder, the page size being a power of two. */
  function MapV2P(t: PageTable, ps: int, ptr: nat): nat
    requires ValidTable(t, ps) && InPool(t, ps, ptr)
  {
    var off := ptr - t.vaddr;
    PageIndex(off, ps, |t.pages|);
    (t.pages[off / ps] + off % ps) % TWO64
  }

  datatype TlbEntry = TlbEntry(index: nat, size: nat, va: nat, pa: nat)

  predicate Maps(e: TlbEntry, ptr: nat) {
    e.va <= ptr < e.va + e.size
  }

  // What the device makes of an address through one entry.
  function Translate(e: TlbEntry, ptr: nat): nat
    requires Maps(e, ptr)
  {
    (e.pa + (ptr - e.va)) % TWO64
  }

  function Entry(t: PageTable, ps: int, i: nat): TlbEntry
    requires IsPageSize(ps) && i < |t.pages|
  {
    TlbEntry(i, ps, t.vaddr + i * ps, t.pages[i])
  }

  /** CPUMemCtl::writeTLB and the plain branch of GPUMemCtl::writeTLB: one entry per page, in order. */
  method WriteTlb(t: PageTable, ps: int) returns (entries: seq<TlbEntry>)
    requires ValidTable(t, ps)
    ensures |entries| == |t.pages|
    ensures forall i :: 0 <= i < |entries| ==> entries[i] == Entry(t, ps, i)
    ensures forall i :: 0 <= i < |entries| ==>
      entries[i].index == i && entries[i].size == ps && entries[i].va == t.vaddr + i * ps && entries[i].pa == t.pages[i]
  {
    entries := [];
    var i := 0;
    while i < |t.pages|
      invariant 0 <= i <= |t.pages| && |entries| == i
      invariant forall j :: 0 <= j < i ==> entries[j] == Entry(t, ps, j)
    {
      entries := entries + [TlbEntry(i, ps, t.vaddr + i * ps, t.pages[i])];
      i := i + 1;
    }
  }

  /** For every pointer in the pool exactly one entry maps it, and it translates to what mapV2P says. */
  lemma TlbAgrees(t: PageTable, ps: int, ptr: nat, i: nat)
    requires ValidTable(t, ps) && InPool(t, ps, ptr) && i < |t.pages|
    ensures Maps(Entry(t, ps, i), ptr) <==> i == (ptr - t.vaddr) / ps
    ensures 0 <= (ptr - t.vaddr) / ps < |t.pages|
    ensures Maps(Entry(t, ps, i), ptr) ==> Translate(Entry(t, ps, i), ptr) == MapV2P(t, ps, ptr)
  {
    var off := ptr - t.vaddr;
    PageIndex(off, ps, |t.pages|);
    PageUnique(off, ps, i);
  }

  // ----- the registers -----

  datatype RegWrite = RegWrite(reg: nat, value: nat)

  // What the device takes over when register 13 goes up.
  datatype Loaded = Loaded(first: bool, va: nat, pa: nat)

  type Registers = map<nat, nat>

  function Reg(regs: Registers, i: nat): nat {
    if i in regs then regs[i] else 0
  }

  function Latched(regs: Registers): Loaded {
    Loaded(Reg(regs, 12) == 1, Reg(regs, 8) + Reg(regs, 9) * TWO32, Reg(regs, 10) + Reg(regs, 11) * TWO32)
  }

  /** The entries a device loads from a sequence of register writes. */
  function Replay(log: seq<RegWrite>, regs: Registers): seq<Loaded> {
    if log == [] then []
    else
      var w := log[0];
      var rest := Replay(log[1..], regs[w.reg := w.value]);
      if w.reg == 13 && w.value == 1 && Reg(regs, 13) == 0 then [Latched(regs)] + rest else rest
  }

  // The writes of the callback; the casts to uint32_t truncate.
  function EntryWrites(e: TlbEntry): seq<RegWrite> {
    [RegWrite(8, e.va % TWO32), RegWrite(9, (e.va / TWO32) % TWO32),
     RegWrite(10, e.pa % TWO32), RegWrite(11, (e.pa / TWO32) % TWO32),
     RegWrite(12, if e.index == 0 then 1 else 0), RegWrite(13, 1), RegWrite(13, 0)]
  }

  function AllWrites(entries: seq<TlbEntry>): seq<RegWrite> {
    if entries == [] then [] else EntryWrites(entries[0]) + AllWrites(entries[1..])
  }

  lemma ReplayStep(w: RegWrite, log: seq<RegWrite>, regs: Registers)
    ensures Replay([w] + log, regs)
         == (if w.reg == 13 && w.value == 1 && Reg(regs, 13) == 0 then [Latched(regs)] else [])
            + Replay(log, regs[w.reg := w.value])
  {
    assert ([w] + log)[1..] == log;
  }

  lemma ReplayPlain(w: RegWrite, log: seq<RegWrite>, regs: Registers)
    requires w.reg != 13 || w.value == 0
    ensures Replay([w] + log, regs) == Replay(log, regs[w.reg := w.value])
  {
    ReplayStep(w, log, regs);
  }

  lemma Halves(v: nat)
    requires v < TWO64
    ensures v % TWO32 + ((v / TWO32) % TWO32) * TWO32 == v
  {
    assert v / TWO32 < TWO32;
  }

  lemma ReplayEntry(e: TlbEntry, log: seq<RegWrite>, regs: Registers) returns (after: Registers)
    requires e.va < TWO64 && e.pa < TWO64 && Reg(regs, 13) == 0
    ensures Reg(after, 13) == 0
    ensures Replay(EntryWrites(e) + log, regs) == [Loaded(e.index == 0, e.va, e.pa)] + Replay(log, after)
  {
    hide Replay;
    var w := EntryWrites(e);
    var r1 := regs[8 := w[0].value];
    var r2 := r1[9 := w[1].value];
    var r3 := r2[10 := w[2].value];
    var r4 := r3[11 := w[3].value];
    var r5 := r4[12 := w[4].value];
    var r6 := r5[13 := 1];
    after := r6[13 := 0];
    var l6 := [w[6]] + log;
    var l5 := [w[5]] + l6;
    var l4 := [w[4]] + l5;
    var l3 := [w[3]] + l4;
    var l2 := [w[2]] + l3;
    var l1 := [w[1]] + l2;
    assert w + log == [w[0]] + l1;
    ReplayPlain(w[0], l1, regs);
    ReplayPlain(w[1], l2, r1);
    ReplayPlain(w[2], l3, r2);
    ReplayPlain(w[3], l4, r3);
    ReplayPlain(w[4], l5, r4);
    ReplayStep(w[5], l6, r5);
    ReplayPlain(w[6], log, r6);
    Halves(e.va);
    Halves(e.pa);
    assert Latched(r5) == Loaded(e.index == 0, e.va, e.pa);
  }

  lemma ReplayNothing(regs: Registers)
    ensures AllWrites([]) == [] && Replay([], regs) == []
  {
  }

  lemma PageBelow(ps: int, i: nat, n: nat)
    requires IsPageSize(ps) && i < n
    ensures i * ps + ps <= n * ps
  {
    if ps == HUGE { assert i * HUGE + HUGE <= n * HUGE; } else { assert i * GPU_PAGE + GPU_PAGE <= n * GPU_PAGE; }
  }

  /** The device ends up with the page table: every page in order, both addresses whole, and the flag of
      register 12 on the first page only. */
  lemma {:induction false} ReplayAll(t: PageTable, ps: int, entries: seq<TlbEntry>, i: nat, regs: Registers)
    requires ValidTable(t, ps) && |entries| == |t.pages| && i <= |entries| && Reg(regs, 13) == 0
    requires forall k :: 0 <= k < |entries| ==> entries[k] == Entry(t, ps, k)
    ensures var r := Replay(AllWrites(entries[i..]), regs);
      && |r| == |t.pages| - i
      && forall k :: 0 <= k < |r| ==> r[k] == Loaded(i + k == 0, t.vaddr + (i + k) * ps, t.pages[i + k])
    decreases |entries| - i
  {
    hide Replay, EntryWrites;
    if i < |entries| {
      var e := entries[i];
      assert e == Entry(t, ps, i);
      PageBelow(ps, i, |t.pages|);
      assert entries[i..][1..] == entries[i + 1..];
      var after := ReplayEntry(e, AllWrites(entries[i + 1..]), regs);
      ReplayAll(t, ps, entries, i + 1, after);
    } else {
      ReplayNothing(regs);
    }
  }

  lemma WritesFrom(entries: seq<TlbEntry>, i: nat)
    requires i < |entries|
    ensures AllWrites(entries[i..]) == EntryWrites(entries[i]) + AllWrites(entries[i + 1..])
  {
    hide EntryWrites;
    assert entries[i..][1..] == entries[i + 1..];
  }

  /** CPUMemCtl::legacyWriteTLB. */
  method LegacyWriteTlb(t: PageTable, ps: int) returns (log: seq<RegWrite>)
    requires ValidTable(t, ps)
    ensures var r := Replay(log, map[]);
      && |r| == |t.pages|
      && forall k :: 0 <= k < |r| ==> r[k] == Loaded(k == 0, t.vaddr + k * ps, t.pages[k])
  {
    hide EntryWrites, Replay, AllWrites, ValidTable;
    var entries := WriteTlb(t, ps);
    log := [];
    var i := 0;
    assert entries[0..] == entries && [] + AllWrites(entries) == AllWrites(entries);
    while i < |entries|
      invariant 0 <= i <= |entries| && log + AllWrites(entries[i..]) == AllWrites(entries)
    {
      WritesFrom(entries, i);
      var w := EntryWrites(entries[i]);
      assert (log + w) + AllWrites(entries[i + 1..]) == log + (w + AllWrites(entries[i + 1..]));
      log := log + w;
      i := i + 1;
    }
    ReplayNothing(map[]);
    assert entries[i..] == [] && log + [] == log;
    ReplayAll(t, ps, entries, 0, map[]);
  }

  // ----- no physical byte is shared -----

  predicate PhysicallyDisjoint(t: PageTable, ps: int) {
    && (forall i :: 0 <= i < |t.pages| ==> t.pages[i] + ps <= TWO64)
    && forall i, j :: 0 <= i < j < |t.pages| ==> t.pages[i] + ps <= t.pages[j] || t.pages[j] + ps <= t.pages[i]
  }

  lemma NoWrap(x: nat)
    requires x < TWO64
    ensures x % TWO64 == x
  {
  }

  lemma MapV2PValue(t: PageTable, ps: int, x: nat)
    requires ValidTable(t, ps) && PhysicallyDisjoint(t, ps) && InPool(t, ps, x)
    ensures var off := x - t.vaddr;
      && 0 <= off / ps < |t.pages| && 0 <= off % ps < ps && off == (off / ps) * ps + off % ps
      && MapV2P(t, ps, x) == t.pages[off / ps] + off % ps
  {
    PageIndex(x - t.vaddr, ps, |t.pages|);
    NoWrap(t.pages[(x - t.vaddr) / ps] + (x - t.vaddr) % ps);
  }

  lemma PagesApart(pages: seq<nat>, ps: int, i: nat, r: int, j: nat, s: int)
    requires i < |pages| && j < |pages| && 0 <= r < ps && 0 <= s < ps && (i, r) != (j, s)
    requires forall k, l :: 0 <= k < l < |pages| ==> pages[k] + ps <= pages[l] || pages[l] + ps <= pages[k]
    ensures pages[i] + r != pages[j] + s
  {
    if i < j {
      assert pages[i] + ps <= pages[j] || pages[j] + ps <= pages[i];
    } else if j < i {
      assert pages[j] + ps <= pages[i] || pages[i] + ps <= pages[j];
    }
  }

  lemma MapV2PInjective(t: PageTable, ps: int, x: nat, y: nat)
    requires ValidTable(t, ps) && PhysicallyDisjoint(t, ps) && InPool(t, ps, x) && InPool(t, ps, y) && x != y
    ensures MapV2P(t, ps, x) != MapV2P(t, ps, y)
  {
    hide MapV2P, ValidTable, InPool, IsPageSize;
    MapV2PValue(t, ps, x);
    MapV2PValue(t, ps, y);
    PagesApart(t.pages, ps, (x - t.vaddr) / ps, (x - t.vaddr) % ps, (y - t.vaddr) / ps, (y - t.vaddr) % ps);
  }

  /** Bytes of different live allocations never share a physical byte. */
  lemma LiveAllocationsApart(t: PageTable, ps: int, st: Chunks, p: nat, q: nat, x: nat, y: nat)
    requires ValidTable(t, ps) && PhysicallyDisjoint(t, ps)
    requires Inv(Pool(t.vaddr, |t.pages| * ps), st)
    requires p != q && Covers(st.used, p, x) && Covers(st.used, q, y)
    ensures InPool(t, ps, x) && InPool(t, ps, y) && MapV2P(t, ps, x) != MapV2P(t, ps, y)
  {
    hide MapV2P, ValidTable, PhysicallyDisjoint;
    MapV2PInjective(t, ps, x, y);
  }

  // ----- aggregation -----

  // parray[i * 32 + j] - parray[i * 32 + j - 1] == 65536, in 64 bits.
  predicate Follows(t: PageTable, i: nat, j: nat)
    requires 0 < j < 32 && 32 * i + 32 <= |t.pages|
  {
    (t.pages[32 * i + j] - t.pages[32 * i + j - 1]) % TWO64 == GPU_PAGE
  }

  predicate Contiguous(t: PageTable, i: nat)
    requires 32 * i + 32 <= |t.pages|
  {
    forall j :: 1 <= j < 32 ==> Follows(t, i, j)
  }

  function Aggregated(t: PageTable, i: nat): TlbEntry
    requires 32 * i < |t.pages|
  {
    TlbEntry(i, HUGE, t.vaddr + i * HUGE, t.pages[32 * i])
  }

  /** GPUMemCtl::writeTLB with aggregation; a failed contiguity check ends the process. */
  method WriteTlbAggregated(t: PageTable) returns (ok: bool, entries: seq<TlbEntry>)
    requires ValidTable(t, GPU_PAGE)
    ensures ok <==> forall i :: 0 <= i < |t.pages| / 32 ==> Contiguous(t, i)
    ensures ok ==> |entries| == |t.pages| / 32
    ensures ok ==> forall i :: 0 <= i < |entries| ==> entries[i] == Aggregated(t, i)
    ensures ok ==> forall i :: 0 <= i < |entries| ==>
      && entries[i].index == i && entries[i].size == 0x20_0000
      && entries[i].va == t.vaddr + i * 0x20_0000 && entries[i].pa == t.pages[32 * i]
  {
    entries := [];
    var i := 0;
    while i < |t.pages| / 32
      invariant 0 <= i <= |t.pages| / 32 && |entries| == i
      invariant forall k :: 0 <= k < i ==> Contiguous(t, k) && entries[k] == Aggregated(t, k)
    {
      var j := 1;
      while j < 32
        invariant 1 <= j <= 32
        invariant forall k :: 1 <= k < j ==> Follows(t, i, k)
      {
        if (t.pages[32 * i + j] - t.pages[32 * i + j - 1]) % TWO64 != GPU_PAGE {
          assert !Follows(t, i, j);
          assert !Contiguous(t, i);
          return false, [];
        }
        j := j + 1;
      }
      entries := entries + [TlbEntry(i, HUGE, t.vaddr + i * HUGE, t.pages[32 * i])];
      i := i + 1;
    }
    return true, entries;
  }

  lemma {:induction false} ContiguousPages(t: PageTable, i: nat, j: nat)
    requires ValidTable(t, GPU_PAGE) && 32 * i + 32 <= |t.pages| && Contiguous(t, i) && j < 32
    ensures t.pages[32 * i + j] == (t.pages[32 * i] + j * GPU_PAGE) % TWO64
  {
    if j > 0 {
      ContiguousPages(t, i, j - 1);
      assert Follows(t, i, j);
    }
  }

  lemma WrapAdds(a: nat, b: nat)
    ensures (a % TWO64 + b) % TWO64 == (a + b) % TWO64
  {
    var q := a / TWO64;
    assert a + b == (a % TWO64 + b) + q * TWO64;
  }

  /** When the contiguity checks pass, each 2 MiB entry agrees with the 64 KiB mapV2P on every pointer
      it maps; together the entries map the first 32 * (n / 32) pages, so all of them exactly when n is
      a multiple of 32. */
  lemma AggregationAgrees(t: PageTable, ptr: nat, i: nat)
    requires ValidTable(t, GPU_PAGE) && InPool(t, GPU_PAGE, ptr)
    requires i < |t.pages| / 32 && Contiguous(t, i)
    ensures Maps(Aggregated(t, i), ptr) <==> i == (ptr - t.vaddr) / HUGE
    ensures Maps(Aggregated(t, i), ptr) ==> Translate(Aggregated(t, i), ptr) == MapV2P(t, GPU_PAGE, ptr)
  {
    var off := ptr - t.vaddr;
    if i == off / HUGE {
      var k := off / GPU_PAGE;
      var j := k - 32 * i;
      assert 0 <= j < 32;
      ContiguousPages(t, i, j);
      assert off - i * HUGE == j * GPU_PAGE + off % GPU_PAGE;
      WrapAdds(t.pages[32 * i] + j * GPU_PAGE, off % GPU_PAGE);
    }
  }

  lemma AggregationCovers(t: PageTable, ptr: nat)
    requires ValidTable(t, GPU_PAGE) && InPool(t, GPU_PAGE, ptr)
    ensures (exists i :: 0 <= i < |t.pages| / 32 && Maps(Aggregated(t, i), ptr))
       <==> (ptr - t.vaddr) / GPU_PAGE < 32 * (|t.pages| / 32)
  {
    var off := ptr - t.vaddr;
    var i := off / HUGE;
    assert off / GPU_PAGE < 32 * (|t.pages| / 32) <==> i < |t.pages| / 32;
    if i < |t.pages| / 32 {
      assert Maps(Aggregated(t, i), ptr);
    }
  }
}
