/** The boot sequence of kernel_stage1 as far as memory goes, kernel/kernel.c:22-37. */
module Boot {
  import opened Words
  import opened Machine
  import opened PageTable
  import opened Demand
  import opened Paging
  import opened BootMap
  import opened Vmm
  import Bitmaps
  import Pmm

  /** The frames that init_pmm leaves in use. */
  ghost predicate BootUsed(info: Pmm.BootInfo, pmm: Pmm.FrameAllocator, i: nat)
    requires info.WellFormed()
  {
    i < 8 * pmm.bmp.Length &&
    !(Pmm.AvailableIn(info.TagList(), i) && !Pmm.Reserved(info, pmm.bmpPhys, pmm.bmp.Length, i))
  }

  ghost function BootFrames(info: Pmm.BootInfo, pmm: Pmm.FrameAllocator): set<nat>
    requires info.WellFormed()
  {
    set i: nat | i < 8 * pmm.bmp.Length && BootUsed(info, pmm, i)
  }

  /** The frames it leaves free. */
  ghost function FreeAtBoot(info: Pmm.BootInfo, pmm: Pmm.FrameAllocator): nat
    requires info.WellFormed()
  {
    |Pmm.FreeIn(pmm.MaxPages(), BootFrames(info, pmm))|
  }

  /** The size and the place of the frame allocator are those the boot information calls for. */
  ghost predicate BuiltFor(info: Pmm.BootInfo, pmm: Pmm.FrameAllocator)
    requires info.WellFormed()
  {
    && Pmm.IsTop(info.TagList(), pmm.totalMem) && pmm.MaxPages() / 8 < U64
    && pmm.bmp.Length == Pmm.BitmapBytes(pmm.MaxPages()) && Pmm.BitmapEndsAt(info, pmm.bmpPhys + pmm.bmp.Length)
  }

  /** The pages mapped in boot: the kernel image and the direct map, the heap's bitmap, the stack. */
  ghost function MappedAtBoot(secs: seq<Section>, pages: nat): set<nat>
    requires forall sh | sh in secs :: SectionOk(sh)
  {
    BootPages(secs, pages) + PageRange(BitmapPage(0), BITMAP_PAGES) + PageRange(StackPage(1), STACK_PAGES)
  }

  /** The frames that boot takes: for the top table, for the pages of the bitmap and of the stack,
      and for the tables on the way to all pages mapped. */
  ghost function BootNeeds(secs: seq<Section>, pages: nat): nat
    requires forall sh | sh in secs :: SectionOk(sh)
  {
    1 + BITMAP_PAGES + STACK_PAGES + |PagePaths(MappedAtBoot(secs, pages))|
  }

  /** What the three steps of boot take, one after the other. */
  lemma BootTakes(secs: seq<Section>, pages: nat)
    requires forall sh | sh in secs :: SectionOk(sh)
    ensures var boot, bitmap, stack := BootPages(secs, pages), PageRange(BitmapPage(0), BITMAP_PAGES), PageRange(StackPage(1), STACK_PAGES);
      && var keys := {Root} + PagePaths(boot);
      && PagePaths(boot + bitmap) == PagePaths(boot) + PagePaths(bitmap)
      && PagePaths(boot + bitmap + stack) == PagePaths(boot + bitmap) + PagePaths(stack)
      && BootNeeds(secs, pages) ==
         1 + |PagePaths(boot)| + Needs(keys, BitmapPage(0), BITMAP_PAGES) + Needs(keys + PagePaths(bitmap), StackPage(1), STACK_PAGES)
  {
    hide BootPages, PagePaths, PageRange, Cost;
    var boot, bitmap, stack := BootPages(secs, pages), PageRange(BitmapPage(0), BITMAP_PAGES), PageRange(StackPage(1), STACK_PAGES);
    PathsUnion(boot, bitmap);
    PathsUnion(boot + bitmap, stack);
    CostFromRoot(boot);
    CostFromRoot(boot + bitmap + stack);
    CostSplit({Root}, boot, bitmap);
    CostSplit({Root}, boot + bitmap, stack);
    assert {Root} + PagePaths(boot + bitmap) == {Root} + PagePaths(boot) + PagePaths(bitmap);
  }

  /** The managed ranges lie between the direct map and the kernel image. */
  lemma ManagedUnmapped(secs: seq<Section>, pages: nat, vp: nat)
    requires Managed(vp) && 4096 * pages <= VMM_BITMAP_VIRT_START - NEW_HDDM
    requires forall sh | sh in secs :: SectionOk(sh)
    ensures vp < PAGES && BootEntry(secs, pages, vp) == None
  {
    hide SectionOk, KernelEntry, LeafWord;
    KernelFrames(secs, vp);
  }

  /** When and why boot halts: boot data at or above 1 GiB, a bitmap that would end above it, or
      fewer free frames in the allocator built than boot takes, all of them used up. */
  ghost predicate BootHalts(info: Pmm.BootInfo, secs: seq<Section>, pmm: Pmm.FrameAllocator?, reason: Panic)
    requires info.WellFormed() && forall sh | sh in secs :: SectionOk(sh)
    reads if pmm == null then {} else {pmm, pmm.bmp}
  {
    match reason
    case BootDataTooHigh => info.mb2Addr >= Pmm.ONE_GIB
    case BitmapTooHigh => info.mb2Addr < Pmm.ONE_GIB && BitmapTooLong(info)
    case OutOfFrames =>
      && info.mb2Addr < Pmm.ONE_GIB && !BitmapTooLong(info)
      && pmm != null && BuiltFor(info, pmm) && FreeAtBoot(info, pmm) < BootNeeds(secs, pmm.MaxPages()) && pmm.AllUsed()
    case _ => false
  }

  ghost predicate BitmapTooLong(info: Pmm.BootInfo)
    requires info.WellFormed()
  {
    exists end: nat :: Pmm.BitmapEndsAt(info, end) && end > Pmm.ONE_GIB
  }

  /** init_pmm, init_paging, vmm_init and vmm_setup_stack in turn: they establish the invariant of
      the allocator, with an empty heap, a guarded stack, exactly init_pmm's frames reserved, the
      boot map everywhere outside the managed ranges, and no table but those the pages mapped call
      for; they halt exactly when they must. */
  method KernelStage1(info: Pmm.BootInfo, ram: array<word>, secs: seq<Section>)
    returns (r: Halting<RangeAllocator>, ghost pmm: Pmm.FrameAllocator?)
    requires info.WellFormed() && forall sh | sh in secs :: SectionOk(sh)
    requires forall high: nat, top: nat :: Pmm.IsHighest(info, high) && Pmm.IsTop(info.TagList(), top) ==> Pmm.Covered(high, top)
    requires forall top: nat :: Pmm.IsTop(info.TagList(), top) ==>
      top <= VMM_BITMAP_VIRT_START - NEW_HDDM && 512 * (top / 4096) <= ram.Length
    modifies ram
    ensures r.Halted? ==> BootHalts(info, secs, pmm, r.reason)
    ensures r.Returned? ==>
      && info.mb2Addr < Pmm.ONE_GIB && !BitmapTooLong(info) && pmm != null && BuiltFor(info, pmm)
      && FreeAtBoot(info, pmm) >= BootNeeds(secs, pmm.MaxPages())
    ensures r.Returned? ==>
      var a := r.value;
      && a.space.pmm == pmm && fresh(pmm) && fresh(pmm.bmp)
      && fresh(a.Footprint() - {ram}) && a.space.ram == ram
      && a.Ready() && a.Owned() == {} && a.last == 0 && a.reserved == BootFrames(info, pmm)
      && a.space.tree.Keys == {Root} + PagePaths(MappedAtBoot(secs, pmm.MaxPages()))
      && Untouched(old(ram[..]), ram[..], a.space.Tables())
      && a.space.pmm.FreeCount() == FreeAtBoot(info, pmm) - BootNeeds(secs, pmm.MaxPages())
      && (forall vp :: vp in a.backing <==> BitmapPage(0) <= vp < BitmapPage(BITMAP_PAGES) || StackPage(1) <= vp <= StackPage(STACK_PAGES))
      && (forall vp: nat :: vp < PAGES && !Managed(vp) ==> a.outside(vp) == BootEntry(secs, pmm.MaxPages(), vp))
  {
    hide Pmm.Covered, Pmm.IsTop, Pmm.IsHighest, Pmm.AvailableIn, Pmm.Reserved, Pmm.BootInfo.WellFormed, Pmm.BootInfo.TagList;
    hide AddressSpace.Valid, AddressSpace.Lookup, AddressSpace.Tables, Bitmaps.Bits, BootEntry, SectionOk;
    hide RangeAllocator.Core, RangeAllocator.BitsAgree, RangeAllocator.AllButOne, Pmm.FrameAllocator.AllUsed, Pmm.BitmapEndsAt, Pmm.BitmapBytes;
    hide Pmm.FrameAllocator.FreeCount, Pmm.FreeIn, Needs, BootPages, PagePaths, PageRange, BootNeeds, BootFrames, Untouched, RangeAllocator.ClaimedSince, RangeAllocator.ShortSince;
    var p := Pmm.InitPmm(info);
    if p.Halted? { return Halted(p.reason), null; }
    var frames := p.value;
    pmm := frames;
    UsedAfterInit(info, frames);
    BootTakes(secs, frames.MaxPages());
    var s := InitPaging(frames, ram, secs);
    if s.Halted? { return Halted(s.reason), frames; }
    var space := s.value;
    forall vp: nat | Managed(vp) ensures space.Lookup(vp) == None {
      ManagedUnmapped(secs, frames.MaxPages(), vp);
    }
    ghost var m0, t0 := ram[..], space.Tables();
    var v := VmmInit(space);
    if v.Halted? { return Halted(v.reason), frames; }
    var a := v.value;
    ghost var m1, t1 := ram[..], space.Tables();
    UntouchedBoth(old(ram[..]), m0, m1, t0, t1);
    ghost var tree1, free1 := space.tree, frames.FreeCount();
    var top := a.SetupStack();
    if top.Halted? { return Halted(top.reason), frames; }
    a.ClaimedMeans(tree1, free1, StackPage(1), STACK_PAGES);
    UntouchedBoth(old(ram[..]), m1, ram[..], t1, space.Tables());
    return Returned(a), frames;
  }

  lemma UsedAfterInit(info: Pmm.BootInfo, pmm: Pmm.FrameAllocator)
    requires info.WellFormed() && pmm.bmp.Length > 0
    requires forall i: nat | i < 8 * pmm.bmp.Length ::
      i !in pmm.Used() <==> Pmm.AvailableIn(info.TagList(), i) && !Pmm.Reserved(info, pmm.bmpPhys, pmm.bmp.Length, i)
    ensures pmm.Used() == BootFrames(info, pmm) && 0 in pmm.Used() && pmm.FreeCount() == FreeAtBoot(info, pmm)
  {
    hide Pmm.AvailableIn, Pmm.InModule, Pmm.BootInfo.WellFormed, Pmm.BootInfo.TagList;
    assert Pmm.Reserved(info, pmm.bmpPhys, pmm.bmp.Length, 0);
  }
}
