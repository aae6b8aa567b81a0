/** The physical frame allocator, kernel/mm/pmm.c. */
module Pmm {
  import opened Words
  import opened Bitmaps
  import opened Machine

  const PAGE_SIZE: nat := 4096
  const ONE_GIB: nat := 0x4000_0000
  const KERNEL_VMA: nat := 0xFFFF_FFFF_8000_0000

  const TAG_END: nat := 0
  const TAG_MODULE: nat := 3
  const TAG_MMAP: nat := 6
  const MEMORY_AVAILABLE: nat := 1

  function AddrToIdx(a: nat): nat { a / PAGE_SIZE }

  function IdxToAddr(i: nat): nat { i * PAGE_SIZE }

  // ----- frames and byte ranges -----

  /** Frame i lies wholly inside [start, start + length). */
  predicate Inside(i: nat, start: int, length: int) {
    start <= 4096 * i && 4096 * i + 4096 <= start + length
  }

  /** Frame i shares a byte with [start, start + length). */
  predicate Touches(i: nat, start: int, length: int) {
    4096 * i < start + length && start < 4096 * i + 4096
  }

  // ----- the Multiboot2 boot information -----

  datatype MmapEntry = MmapEntry(addr: nat, len: nat, kind: nat)

  /** A tag: its header, and the payload of the two kinds the allocator reads. */
  datatype Tag = Tag(kind: nat, size: nat, modStart: nat, modEnd: nat, entries: seq<MmapEntry>)

  /** What the boot loader hands over. The linker symbols are virtual addresses; tags are found
      by the address at which they start. */
  datatype BootInfo = BootInfo(mb2Addr: nat, mb2Size: nat, tags: map<nat, Tag>, kernelStart: nat, kernelEnd: nat)
  {
    function KernelPhys(): int { kernelStart - KERNEL_VMA }

    function KernelLength(): int { kernelEnd - kernelStart }

    function Mb2End(): nat { mb2Addr + mb2Size }

    /** The tags, in the order in which they are walked. */
    ghost function TagList(): seq<Tag>
      requires TagsOk(tags, mb2Addr + 8, Mb2End())
    {
      TagsFrom(tags, mb2Addr + 8, Mb2End())
    }

    /** The boot loader's side of the contract: terminated tags of at least eight bytes inside the
        structure, a non-empty kernel image at or above 1 MiB, and no address that overflows. */
    ghost predicate WellFormed() {
      && 8 < mb2Size < U32 && Mb2End() < U32
      && TagsOk(tags, mb2Addr + 8, Mb2End())
      && KERNEL_VMA + 0x10_0000 <= kernelStart < kernelEnd < U64 - PAGE_SIZE
      && forall t | t in TagList() :: TagWellFormed(t)
    }
  }

  ghost predicate TagWellFormed(t: Tag) {
    && t.modStart <= t.modEnd < U32
    && forall e | e in t.entries :: e.addr + e.len < U64 - PAGE_SIZE
  }

  /** The next tag starts at the next multiple of eight; the rounding is 32-bit arithmetic. */
  function Mb2Next(a: nat, t: Tag): nat {
    a + And((t.size + 7) % U32, 0xFFFF_FFF8)
  }

  lemma Mb2NextRoundsUp(a: nat, t: Tag)
    requires t.size + 7 < U32
    ensures Mb2Next(a, t) == a + (t.size + 7) / 8 * 8
  {
    hide *;
    var y := t.size + 7;
    assert Mb2Next(a, t) == a + And(y, 0xFFFF_FFF8) by { NextUnfolds(a, t); }
    assert And(y, 0xFFFF_FFF8) == y / 8 * 8 by { ClearLowThree(y); }
  }

  lemma NextUnfolds(a: nat, t: Tag)
    requires t.size + 7 < U32
    ensures Mb2Next(a, t) == a + And(t.size + 7, 0xFFFF_FFF8)
  {
  }

  lemma ClearLowThree(y: nat)
    requires y < U32
    ensures And(y, 0xFFFF_FFF8) == y / 8 * 8
  {
    hide And;
    OnesSmall();
    ShlSmall(Ones(29));
    AndField(y, 3, 29);
    ShrSmall(y);
    LowAll(y / 8, 29);
    ShlSmall(y / 8);
  }

  /** The tags from address a on are well formed and end, with an END tag, before `end`. */
  ghost predicate TagsOk(tags: map<nat, Tag>, a: nat, end: nat)
    decreases end - a
  {
    && a < end && a in tags
    && (tags[a].kind == TAG_END ||
        (8 <= tags[a].size && tags[a].size + 7 < U32 &&
         a < Mb2Next(a, tags[a]) && TagsOk(tags, Mb2Next(a, tags[a]), end)))
  }

  ghost function TagsFrom(tags: map<nat, Tag>, a: nat, end: nat): seq<Tag>
    requires TagsOk(tags, a, end)
    decreases end - a
  {
    if tags[a].kind == TAG_END then [] else [tags[a]] + TagsFrom(tags, Mb2Next(a, tags[a]), end)
  }

  // ----- what init_pmm should compute -----

  /** Some region of the entries that is available, type 1, holds the whole of frame i. */
  ghost predicate Available(es: seq<MmapEntry>, i: nat) {
    exists e :: e in es && e.kind == 1 && Inside(i, e.addr, e.len)
  }

  /** The memory maps are the tags of type 6. */
  ghost predicate AvailableIn(ts: seq<Tag>, i: nat) {
    exists t :: t in ts && t.kind == 6 && Available(t.entries, i)
  }

  /** Some loaded module, a tag of type 3, shares a byte with frame i. */
  ghost predicate InModule(ts: seq<Tag>, i: nat) {
    exists t :: t in ts && t.kind == 3 && Touches(i, t.modStart, t.modEnd - t.modStart)
  }

  /** The end of every available region is at most `top`. */
  ghost predicate TopOf(ts: seq<Tag>, top: nat) {
    forall t, e :: t in ts && t.kind == TAG_MMAP && e in t.entries && e.kind == MEMORY_AVAILABLE ==>
      e.addr + e.len <= top
  }

  /** Some available region ends exactly at `top`. */
  ghost predicate Reaches(ts: seq<Tag>, top: nat) {
    exists t, e :: t in ts && t.kind == TAG_MMAP && e in t.entries && e.kind == MEMORY_AVAILABLE && e.addr + e.len == top
  }

  /** `top` is the highest end of an available region, or 0 when there is none. */
  ghost predicate IsTop(ts: seq<Tag>, top: nat) {
    TopOf(ts, top) && (top == 0 || Reaches(ts, top)) && top < U64 - PAGE_SIZE
  }

  /** No loaded module ends above `high`. */
  ghost predicate AboveModules(ts: seq<Tag>, high: nat) {
    forall t :: t in ts && t.kind == TAG_MODULE ==> t.modEnd <= high
  }

  /** `high` is where the last of kernel image, boot information and modules ends. */
  ghost predicate IsHighest(info: BootInfo, high: nat)
    requires info.WellFormed()
  {
    HighestOf(info, info.TagList(), high)
  }

  ghost predicate HighestOf(info: BootInfo, ts: seq<Tag>, high: nat) {
    && info.kernelEnd - KERNEL_VMA <= high < U64 - PAGE_SIZE && info.Mb2End() <= high
    && AboveModules(ts, high)
    && (high == info.kernelEnd - KERNEL_VMA || high == info.Mb2End() ||
        exists t :: t in ts && t.kind == TAG_MODULE && high == t.modEnd)
  }

  /** Where the bitmap would end: the first page boundary above all boot data, and its size on. */
  ghost predicate BitmapEndsAt(info: BootInfo, end: nat)
    requires info.WellFormed()
  {
    exists high: nat, top: nat :: IsHighest(info, high) && IsTop(info.TagList(), top) &&
      end == AlignUp(high, PAGE_SIZE) + BitmapBytes(top / 4096)
  }

  /** The highest ends are determined, and so is where the bitmap would end. */
  lemma OneEnd(info: BootInfo, high: nat, top: nat)
    requires info.WellFormed() && IsHighest(info, high) && IsTop(info.TagList(), top)
    ensures forall end: nat :: BitmapEndsAt(info, end) <==> end == AlignUp(high, PAGE_SIZE) + BitmapBytes(top / 4096)
  {
    hide AlignUp, BitmapBytes, TagsOk, TagsFrom;
    forall h: nat | IsHighest(info, h) ensures h == high { }
    forall t: nat | IsTop(info.TagList(), t) ensures t == top { OneTop(info.TagList(), t, top); }
  }

  lemma OneTop(ts: seq<Tag>, t: nat, top: nat)
    requires IsTop(ts, t) && IsTop(ts, top)
    ensures t == top
  {
  }

  lemma HighestMore(info: BootInfo, ts: seq<Tag>, t: Tag, high: nat)
    requires HighestOf(info, ts, high) && TagWellFormed(t)
    ensures HighestOf(info, ts + [t], if t.kind == TAG_MODULE && t.modEnd > high then t.modEnd else high)
  {
    assert forall u :: u in ts + [t] <==> u in ts || u == t;
  }

  lemma TopSkip(ts: seq<Tag>, t: Tag, top: nat)
    requires IsTop(ts, top) && t.kind != TAG_MMAP
    ensures IsTop(ts + [t], top)
  {
    assert forall u :: u in ts + [t] <==> u in ts || u == t;
  }

  /** One step of a walk over the tags. */
  lemma WalkStep(info: BootInfo, done: seq<Tag>, a: nat)
    requires info.WellFormed() && TagsOk(info.tags, a, info.Mb2End()) && info.tags[a].kind != TAG_END
    requires info.TagList() == done + TagsFrom(info.tags, a, info.Mb2End())
    ensures TagWellFormed(info.tags[a]) && info.tags[a] in info.TagList()
    ensures TagsOk(info.tags, Mb2Next(a, info.tags[a]), info.Mb2End()) && a < Mb2Next(a, info.tags[a])
    ensures info.TagList() == done + [info.tags[a]] + TagsFrom(info.tags, Mb2Next(a, info.tags[a]), info.Mb2End())
  {
    hide Mb2Next;
    var t := info.tags[a];
    assert t in TagsFrom(info.tags, a, info.Mb2End());
  }

  /** Frame i is one that the boot sequence must not hand out. */
  ghost predicate Reserved(info: BootInfo, bitmap: nat, bytes: nat, i: nat)
    requires info.WellFormed()
  {
    || Touches(i, 0, 0x10_0000)
    || Touches(i, info.KernelPhys(), info.KernelLength())
    || Touches(i, info.mb2Addr, info.mb2Size)
    || InModule(info.TagList(), i)
    || Touches(i, bitmap, bytes)
  }

  /** The bitmap has a bit for every page and for every byte up to its own end, so that no bit
      operation of init_pmm leaves it. */
  ghost predicate Covered(high: nat, top: nat)
    requires high < U64 - PAGE_SIZE && top < U64 - PAGE_SIZE
  {
    var bytes := BitmapBytes(top / 4096);
    && top / 4096 <= 8 * bytes
    && AlignUp(high, PAGE_SIZE) + bytes <= 4096 * (8 * bytes)
    && 0x10_0000 <= 4096 * (8 * bytes)
  }

  /** The size init_pmm gives the bitmap: one bit a page, rounded up to whole pages. */
  function BitmapBytes(maxPages: nat): nat
    requires maxPages / 8 < U64
  {
    AlignUp(maxPages / 8, PAGE_SIZE)
  }

  lemma BitmapBytesIs(maxPages: nat)
    requires maxPages / 8 + 4095 < U64
    ensures BitmapBytes(maxPages) == (maxPages / 8 + 4095) / 4096 * 4096
    ensures BitmapBytes(maxPages) % 4096 == 0 && maxPages / 8 <= BitmapBytes(maxPages) < maxPages / 8 + 4096
  {
    hide AlignUp;
    AlignUpPage(maxPages / 8);
  }

  /** `max_pages / 8` is rounded down first, so the bitmap has a bit for every page exactly when
      the page count does not exceed a multiple of 32768 by one to seven. */
  lemma BitmapCoverage(maxPages: nat)
    requires maxPages / 8 + 4095 < U64
    ensures maxPages <= 8 * BitmapBytes(maxPages) <==> !(1 <= maxPages % 32768 <= 7)
  {
    hide *;
    BitmapBytesIs(maxPages);
  }

  /** With 32769 pages (128 MiB and one page) the last page has no bit. */
  lemma BitmapTooShort()
    ensures BitmapBytes(32769) == 4096 && 8 * BitmapBytes(32769) == 32768
  {
    BitmapBytesIs(32769);
  }

  // ----- free frames -----

  /** The frames below n not in use. */
  ghost function FreeIn(n: nat, used: set<nat>): set<nat> {
    set i: nat | i < n && i !in used
  }

  lemma NoneFree(n: nat, used: set<nat>)
    ensures |FreeIn(n, used)| == 0 <==> forall i: nat :: i < n ==> i in used
  {
    if i: nat :| i < n && i !in used {
      assert i in FreeIn(n, used);
    }
  }

  /** Taking a free frame leaves one fewer. */
  lemma OneFewer(n: nat, used: set<nat>, f: nat)
    requires f < n && f !in used
    ensures |FreeIn(n, used + {f})| == |FreeIn(n, used)| - 1
  {
    assert FreeIn(n, used + {f}) == FreeIn(n, used) - {f};
  }

  // ----- the allocator -----

  class FrameAllocator {
    const bmp: array<byte>   // the bytes of the bitmap
    const bmpPhys: nat       // where they start
    const totalMem: nat

    constructor (bmpPhys: nat, totalMem: nat, size: nat)
      ensures fresh(bmp) && bmp.Length == size
      ensures this.bmpPhys == bmpPhys && this.totalMem == totalMem
    {
      this.bmp := new byte[size];
      this.bmpPhys := bmpPhys;
      this.totalMem := totalMem;
    }

    function MaxPages(): nat { AddrToIdx(totalMem) }

    ghost predicate Valid() {
      MaxPages() <= 8 * bmp.Length
    }

    /** The frames whose bit is set. */
    ghost function Used(): set<nat>
      reads bmp
    {
      Bits(bmp[..])
    }

    /** No frame is left to hand out. */
    ghost predicate AllUsed()
      reads bmp
    {
      forall i: nat :: i < MaxPages() ==> i in Used()
    }

    /** How many frames are left. */
    ghost function FreeCount(): nat
      reads bmp
    {
      |FreeIn(MaxPages(), Used())|
    }

    method BitmapSet(i: nat)
      requires i < 8 * bmp.Length
      modifies bmp
      ensures Used() == old(Used()) + {i}
    {
      SetAt(bmp[..], i);
      bmp[i / 8] := ByteSet(bmp[i / 8], i % 8);
      assert bmp[..] == old(bmp[..])[i / 8 := bmp[i / 8]];
    }

    method BitmapClear(i: nat)
      requires i < 8 * bmp.Length
      modifies bmp
      ensures Used() == old(Used()) - {i}
    {
      ClearAt(bmp[..], i);
      bmp[i / 8] := ByteClear(bmp[i / 8], i % 8);
      assert bmp[..] == old(bmp[..])[i / 8 := bmp[i / 8]];
    }

    method BitmapTest(i: nat) returns (b: bool)
      requires i < 8 * bmp.Length
      ensures b == (i in Used())
    {
      b := ByteTest(bmp[i / 8], i % 8);
    }

    /** Rounds outwards: every frame the region touches becomes used. */
    method MarkUsedRegion(start: nat, length: nat)
      requires start + length + 4095 < U64
      requires start + length <= 4096 * (8 * bmp.Length)
      modifies bmp
      ensures forall i: nat | i < 8 * bmp.Length :: i in Used() <==> i in old(Used()) || Touches(i, start, length)
    {
      hide Bits, AlignDown, AlignUp;
      AlignDownPage(start);
      AlignUpPage(start + length);
      var startIdx := AddrToIdx(AlignDown(start, PAGE_SIZE));
      var endIdx := AddrToIdx(AlignUp(start + length, PAGE_SIZE));
      var i := startIdx;
      while i < endIdx
        invariant startIdx <= i && (i <= endIdx || i == startIdx)
        invariant forall k: nat :: k in Used() <==> k in old(Used()) || startIdx <= k < i
      {
        BitmapSet(i);
        i := i + 1;
      }
    }

    /** Rounds inwards: exactly the frames wholly inside the region become free. */
    method MarkFreeRegion(start: nat, length: nat)
      requires start + length + 4095 < U64
      requires start + length < 4096 * (8 * bmp.Length) + 4096
      modifies bmp
      ensures forall i: nat | i < 8 * bmp.Length :: i in Used() <==> i in old(Used()) && !Inside(i, start, length)
    {
      hide Bits, AlignDown, AlignUp;
      AlignUpPage(start);
      AlignDownPage(start + length);
      var startIdx := AddrToIdx(AlignUp(start, PAGE_SIZE));
      var endIdx := AddrToIdx(AlignDown(start + length, PAGE_SIZE));
      var i := startIdx;
      while i < endIdx
        invariant startIdx <= i && (i <= endIdx || i == startIdx)
        invariant forall k: nat :: k in Used() <==> k in old(Used()) && !(startIdx <= k < i)
      {
        BitmapClear(i);
        i := i + 1;
      }
    }

    /** pmm_alloc_page: the lowest free frame, or a halt when there is none. */
    method AllocPage() returns (r: Halting<nat>)
      requires Valid()
      modifies bmp
      ensures r.Halted? ==> r.reason == OutOfFrames && AllUsed() && Used() == old(Used())
      ensures r.Halted? <==> old(AllUsed())
      ensures r.Halted? <==> old(FreeCount()) == 0
      ensures r.Returned? ==> FreeCount() == old(FreeCount()) - 1
      ensures r.Returned? ==>
        var f := r.value / 4096;
        && r.value == 4096 * f && f < MaxPages() && f !in old(Used())
        && (forall i: nat :: i < f ==> i in old(Used()))
        && Used() == old(Used()) + {f}
    {
      hide Bits, FreeIn;
      var maxPages := AddrToIdx(totalMem);
      NoneFree(MaxPages(), Used());
      var i := 0;
      while i < maxPages
        invariant 0 <= i <= maxPages
        invariant bmp[..] == old(bmp[..])
        invariant forall k: nat :: k < i ==> k in Used()
      {
        var taken := BitmapTest(i);
        if !taken {
          assert i !in old(Used());
          OneFewer(MaxPages(), Used(), i);
          BitmapSet(i);
          return Returned(IdxToAddr(i));
        }
        i := i + 1;
      }
      return Halted(OutOfFrames);
    }

    /** pmm_free_page: frees a used, page-aligned frame, and halts on any other. */
    method FreePage(addr: nat) returns (r: Halting<()>)
      requires addr / 4096 < 8 * bmp.Length
      modifies bmp
      ensures r.Returned? <==> addr % 4096 == 0 && addr / 4096 in old(Used())
      ensures r.Returned? ==> Used() == old(Used()) - {addr / 4096}
      ensures r.Halted? ==> Used() == old(Used()) && r.reason == if addr % 4096 != 0 then UnalignedFree else DoubleFree
    {
      if addr % PAGE_SIZE != 0 {
        return Halted(UnalignedFree);
      }
      var idx := AddrToIdx(addr);
      var used := BitmapTest(idx);
      if !used {
        return Halted(DoubleFree);
      }
      BitmapClear(idx);
      return Returned(());
    }
  }

  // ----- boot -----

  /** The first pass over the tags: the end of everything the boot loader placed, and the end of
      the highest available region. */
  method GetBitmapLocation(info: BootInfo) returns (r: Halting<(nat, nat)>)
    requires info.WellFormed()
    ensures r.Halted? <==> info.mb2Addr >= ONE_GIB
    ensures r.Halted? ==> r.reason == BootDataTooHigh
    ensures r.Returned? ==> IsHighest(info, r.value.0) && IsTop(info.TagList(), r.value.1)
  {
    hide Mb2Next;
    var high: nat := info.kernelEnd - KERNEL_VMA;
    var top: nat := 0;
    if info.mb2Addr >= ONE_GIB {
      return Halted(BootDataTooHigh);
    }
    if info.Mb2End() > high {
      high := info.Mb2End();
    }
    var tag := info.mb2Addr + 8;
    ghost var end := info.Mb2End();
    ghost var done: seq<Tag> := [];
    while info.tags[tag].kind != TAG_END
      invariant TagsOk(info.tags, tag, end)
      invariant info.TagList() == done + TagsFrom(info.tags, tag, end)
      invariant HighestOf(info, done, high) && IsTop(done, top)
      decreases end - tag
    {
      var t := info.tags[tag];
      WalkStep(info, done, tag);
      HighestMore(info, done, t, high);
      if t.kind == TAG_MODULE {
        high := if t.modEnd > high then t.modEnd else high;
      }
      if t.kind == TAG_MMAP {
        top := RaiseTop(done, t, top);
      } else {
        TopSkip(done, t, top);
      }
      done := done + [t];
      tag := Mb2Next(tag, t);
    }
    return Returned((high, top));
  }

  /** The memory-map case of the first pass. */
  method RaiseTop(ghost done: seq<Tag>, t: Tag, top0: nat) returns (top: nat)
    requires t.kind == TAG_MMAP && TagWellFormed(t)
    requires IsTop(done, top0)
    ensures IsTop(done + [t], top)
  {
    top := top0;
    for k := 0 to |t.entries|
      invariant top0 <= top < U64 - PAGE_SIZE
      invariant forall j | 0 <= j < k :: t.entries[j].kind == MEMORY_AVAILABLE ==> t.entries[j].addr + t.entries[j].len <= top
      invariant top == top0 || Reaches([t], top)
    {
      var regionEnd := t.entries[k].addr + t.entries[k].len;
      if regionEnd > top && t.entries[k].kind == MEMORY_AVAILABLE {
        top := regionEnd;
      }
    }
    assert forall u :: u in done + [t] <==> u in done || u == t;
  }

  /** Second pass: free the pages of every available region. */
  method FreeAvailable(p: FrameAllocator, info: BootInfo)
    requires info.WellFormed() && TopOf(info.TagList(), p.totalMem) && p.Valid()
    requires forall i: nat | i < 8 * p.bmp.Length :: i in p.Used()
    modifies p.bmp
    ensures forall i: nat | i < 8 * p.bmp.Length :: i in p.Used() <==> !AvailableIn(info.TagList(), i)
  {
    hide Mb2Next, Bits;
    var tag := info.mb2Addr + 8;
    ghost var end := info.Mb2End();
    ghost var done: seq<Tag> := [];
    while info.tags[tag].kind != TAG_END
      invariant TagsOk(info.tags, tag, end)
      invariant info.TagList() == done + TagsFrom(info.tags, tag, end)
      invariant forall i: nat | i < 8 * p.bmp.Length :: i in p.Used() <==> !AvailableIn(done, i)
      decreases end - tag
    {
      var t := info.tags[tag];
      WalkStep(info, done, tag);
      if t.kind == TAG_MMAP {
        FreeEntries(p, t, done);
      }
      AvailableInMore(done, t);
      done := done + [t];
      tag := Mb2Next(tag, t);
    }
  }

  lemma AvailableInMore(ts: seq<Tag>, t: Tag)
    ensures forall i: nat :: AvailableIn(ts + [t], i) <==> AvailableIn(ts, i) || (t.kind == TAG_MMAP && Available(t.entries, i))
  {
    assert forall u :: u in ts + [t] <==> u in ts || u == t;
  }

  method FreeEntries(p: FrameAllocator, t: Tag, ghost done: seq<Tag>)
    requires t.kind == TAG_MMAP && TagWellFormed(t) && TopOf([t], p.totalMem) && p.Valid()
    modifies p.bmp
    ensures forall i: nat | i < 8 * p.bmp.Length :: i in p.Used() <==> i in old(p.Used()) && !Available(t.entries, i)
  {
    hide Bits;
    for k := 0 to |t.entries|
      invariant forall i: nat | i < 8 * p.bmp.Length :: i in p.Used() <==> i in old(p.Used()) && !Available(t.entries[..k], i)
    {
      var e := t.entries[k];
      assert t in [t] && e in t.entries;
      if e.kind == MEMORY_AVAILABLE {
        p.MarkFreeRegion(e.addr, e.len);
      }
      assert forall u :: u in t.entries[..k + 1] <==> u in t.entries[..k] || u == e;
    }
    assert t.entries[..|t.entries|] == t.entries;
  }

  lemma InModuleMore(ts: seq<Tag>, t: Tag)
    ensures forall i: nat :: InModule(ts + [t], i) <==> InModule(ts, i) || (t.kind == TAG_MODULE && Touches(i, t.modStart, t.modEnd - t.modStart))
  {
    assert forall u :: u in ts + [t] <==> u in ts || u == t;
  }

  /** Last pass: take every loaded module out again. */
  method ReserveModules(p: FrameAllocator, info: BootInfo)
    requires info.WellFormed()
    requires forall t | t in info.TagList() && t.kind == TAG_MODULE :: t.modEnd <= 4096 * (8 * p.bmp.Length)
    modifies p.bmp
    ensures forall i: nat | i < 8 * p.bmp.Length :: i in p.Used() <==> i in old(p.Used()) || InModule(info.TagList(), i)
  {
    hide Mb2Next, Bits;
    var tag := info.mb2Addr + 8;
    ghost var end := info.Mb2End();
    ghost var done: seq<Tag> := [];
    while info.tags[tag].kind != TAG_END
      invariant TagsOk(info.tags, tag, end)
      invariant info.TagList() == done + TagsFrom(info.tags, tag, end)
      invariant forall i: nat | i < 8 * p.bmp.Length :: i in p.Used() <==> i in old(p.Used()) || InModule(done, i)
      decreases end - tag
    {
      var t := info.tags[tag];
      WalkStep(info, done, tag);
      if t.kind == TAG_MODULE {
        p.MarkUsedRegion(t.modStart, t.modEnd - t.modStart);
      }
      InModuleMore(done, t);
      done := done + [t];
      tag := Mb2Next(tag, t);
    }
  }

  /** init_pmm: after boot a frame is free exactly when an available region holds all of it and
      none of the boot structures, the bitmap included, shares a byte with it. */
  method InitPmm(info: BootInfo) returns (r: Halting<FrameAllocator>)
    requires info.WellFormed()
    requires forall high: nat, top: nat :: IsHighest(info, high) && IsTop(info.TagList(), top) ==> Covered(high, top)
    ensures r.Returned? ==>
      var p := r.value;
      && fresh(p) && fresh(p.bmp) && p.Valid() && p.bmp.Length > 0 && IsTop(info.TagList(), p.totalMem)
      && p.bmp.Length == BitmapBytes(p.MaxPages()) && BitmapEndsAt(info, p.bmpPhys + p.bmp.Length)
      && (forall i: nat | i < 8 * p.bmp.Length ::
            i !in p.Used() <==> AvailableIn(info.TagList(), i) && !Reserved(info, p.bmpPhys, p.bmp.Length, i))
      // padding bits stay used
      && (forall i: nat | p.MaxPages() <= i < 8 * p.bmp.Length :: i in p.Used())
      // placement: the bitmap is page-aligned, below 1 GiB, and above everything the boot loader placed
      && p.bmpPhys % 4096 == 0 && p.bmpPhys + p.bmp.Length <= 0x4000_0000
      && info.Mb2End() <= p.bmpPhys && info.kernelEnd - KERNEL_VMA <= p.bmpPhys && AboveModules(info.TagList(), p.bmpPhys)
    ensures r == Halted(BootDataTooHigh) <==> info.mb2Addr >= 0x4000_0000
    ensures r == Halted(BitmapTooHigh) <==> info.mb2Addr < ONE_GIB && exists end: nat :: BitmapEndsAt(info, end) && end > ONE_GIB
    ensures r.Halted? ==> r.reason in {BootDataTooHigh, BitmapTooHigh}
  {
    hide Bits, AlignUp, Mb2Next, BitmapEndsAt, BitmapBytes;
    var loc := GetBitmapLocation(info);
    if loc.Halted? {
      return Halted(loc.reason);
    }
    var (high, top) := loc.value;
    AlignUpPage(high);
    OneEnd(info, high, top);
    var bmpPhys := AlignUp(high, PAGE_SIZE);
    var size := BitmapBytes(AddrToIdx(top));
    assert BitmapEndsAt(info, bmpPhys + size);
    if bmpPhys + size > ONE_GIB {
      return Halted(BitmapTooHigh);
    }
    var p := new FrameAllocator(bmpPhys, top, size);
    for i := 0 to size
      invariant forall k | 0 <= k < i :: p.bmp[k] == 0xFF
    {
      p.bmp[i] := 0xFF;
    }
    AllOnes(p.bmp[..]);
    FreeAvailable(p, info);
    p.MarkUsedRegion(0, 0x10_0000);
    p.MarkUsedRegion(info.kernelStart - KERNEL_VMA, info.kernelEnd - info.kernelStart);
    p.MarkUsedRegion(info.mb2Addr, info.mb2Size);
    ReserveModules(p, info);
    p.MarkUsedRegion(bmpPhys, size);
    PaddingUnavailable(info.TagList(), top);
    return Returned(p);
  }

  /** No available region holds the whole of a frame beyond the last page. */
  lemma PaddingUnavailable(ts: seq<Tag>, top: nat)
    requires TopOf(ts, top)
    ensures forall i: nat | top / 4096 <= i :: !AvailableIn(ts, i)
  {
  }
}
