/** Building the kernel's first address space: init_paging, kernel/mm/paging.c:147-211. */
module BootMap {
  import opened Words
  import opened Machine
  import opened PageTable
  import opened Paging
  import opened Demand
  import Pmm

  const NEW_HDDM: nat := 0xFFFF_8000_0000_0000
  const SHF_WRITE: nat := 1
  const SHF_ALLOC: nat := 2
  const SHF_EXECINSTR: nat := 4
  const HHDM_FLAGS: word := 0x8000_0000_0000_0003

  /** An ELF section header, as far as paging reads it. */
  datatype Section = Section(addr: nat, size: nat, flags: nat)

  predicate HasFlag(sh: Section, flag: nat) { And(sh.flags, flag) != 0 }

  /** Sections that occupy memory lie in the kernel's top 2 GiB, and the loop's last step does not wrap. */
  predicate SectionOk(sh: Section) {
    HasFlag(sh, SHF_ALLOC) ==> Pmm.KERNEL_VMA <= sh.addr && sh.addr + sh.size <= U64 - 4096
  }

  /** PAGE_PRESENT, with PAGE_WRITE for writable and PAGE_NX for non-executable sections. */
  function FlagsOf(sh: Section): (flags: word)
    ensures IsPresent(flags) && FrameOf(flags) == 0
    ensures flags == 1 + (if HasFlag(sh, SHF_WRITE) then 2 else 0) + (if HasFlag(sh, SHF_EXECINSTR) then 0 else PAGE_NX)
  {
    OrFlag(PAGE_PRESENT, PAGE_WRITE);
    var f := if HasFlag(sh, SHF_WRITE) then Or(PAGE_PRESENT, PAGE_WRITE) else PAGE_PRESENT;
    OrFlag(f, PAGE_NX);
    NoExecute(f);
    if HasFlag(sh, SHF_EXECINSTR) then f else Or(f, PAGE_NX)
  }

  /** PAGE_NX is bit 63. */
  lemma NoExecute(f: nat)
    requires f < 4
    ensures Or(f, PAGE_NX) == f + PAGE_NX
  {
    assert Shl(1, 8) == 0x100;
    assert Shl(1, 16) == 0x1_0000;
    assert Shl(1, 24) == 0x100_0000;
    assert Shl(1, 32) == 0x1_0000_0000;
    assert Shl(1, 40) == 0x100_0000_0000;
    assert Shl(1, 48) == 0x1_0000_0000_0000;
    assert Shl(1, 56) == 0x100_0000_0000_0000;
    assert Shl(1, 63) == PAGE_NX;
    AndAbove(f, 63);
    OrDisjoint(f, PAGE_NX);
  }

  // ----- the map that boot should build -----

  /** The canonical address of a virtual page of the upper half. */
  function Base(vp: nat): nat { 0xFFFF_0000_0000_0000 + 4096 * vp }

  /** The page shares a byte with the section (or strictly contains an empty one). */
  predicate Covers(sh: Section, vp: nat) {
    HasFlag(sh, SHF_ALLOC) && sh.addr < Base(vp) + 4096 && Base(vp) < sh.addr + sh.size
  }

  /** The entry that section sh gives page vp. */
  function SectionEntry(sh: Section, vp: nat): word
    requires Pmm.KERNEL_VMA <= Base(vp) < U64
  {
    LeafWord(Base(vp) - Pmm.KERNEL_VMA, FlagsOf(sh))
  }

  /** The entry of a page of the kernel image: that of the first section in the table covering it. */
  ghost function KernelEntry(secs: seq<Section>, vp: nat): Option<word>
    requires vp < PAGES && forall sh | sh in secs :: SectionOk(sh)
  {
    if secs == [] then None
    else
      var n := |secs| - 1;
      match KernelEntry(secs[..n], vp)
      case Some(e) => Some(e)
      case None => if Covers(secs[n], vp) then CoveredPage(secs[n], vp); Some(SectionEntry(secs[n], vp)) else None
  }

  lemma CoveredPage(sh: Section, vp: nat)
    requires SectionOk(sh) && vp < PAGES && Covers(sh, vp)
    ensures Pmm.KERNEL_VMA <= Base(vp) < U64
  {
  }

  /** The first covering section decides the entry; without one the page is unmapped. */
  lemma {:induction false} FirstSectionWins(secs: seq<Section>, vp: nat, i: nat)
    requires vp < PAGES && forall sh | sh in secs :: SectionOk(sh)
    requires i <= |secs| && forall j: nat | j < i :: !Covers(secs[j], vp)
    ensures i == |secs| ==> KernelEntry(secs, vp) == None
    ensures i < |secs| && Covers(secs[i], vp) ==> Pmm.KERNEL_VMA <= Base(vp) < U64 && KernelEntry(secs, vp) == Some(SectionEntry(secs[i], vp))
    decreases |secs|
  {
    hide SectionEntry, Covers, SectionOk;
    if secs != [] {
      var n := |secs| - 1;
      if i <= n {
        FirstSectionWins(secs[..n], vp, i);
        if Covers(secs[i], vp) { CoveredPage(secs[i], vp); }
      } else {
        FirstSectionWins(secs[..n], vp, n);
      }
    }
  }

  /** The flag bits of a section: writable, in memory, executable. */
  lemma SectionBits(sh: Section)
    ensures HasFlag(sh, SHF_WRITE) <==> sh.flags % 2 == 1
    ensures HasFlag(sh, SHF_ALLOC) <==> sh.flags / 2 % 2 == 1
    ensures HasFlag(sh, SHF_EXECINSTR) <==> sh.flags / 4 % 2 == 1
  {
    hide And;
    var x := sh.flags;
    AndZero(x / 8);
    AndStep(x / 4, 1);
    AndStep(x / 4, 0);
    AndStep(x / 2, 2);
    AndStep(x / 2, 1);
    AndStep(x / 2, 0);
    AndStep(x, 4);
    AndStep(x, 2);
    AndStep(x, 1);
    AndZero(x / 4);
    AndZero(x / 2);
  }

  /** What the first covering section makes of a page: its own address less the kernel offset,
      present, writable if the section is, and not executable unless the section is. */
  lemma KernelEntryIs(secs: seq<Section>, vp: nat, i: nat)
    requires vp < PAGES && forall sh | sh in secs :: SectionOk(sh)
    requires i < |secs| && Covers(secs[i], vp) && forall j: nat | j < i :: !Covers(secs[j], vp)
    ensures var e := KernelEntry(secs, vp);
      && e.Some? && e.value % 4096 == 1 + 2 * (secs[i].flags % 2)
      && e.value / 4096 % 0x100_0000_0000 == vp - 0xF_FFF8_0000
      && e.value / 0x10_0000_0000_0000 == if secs[i].flags / 4 % 2 == 1 then 0 else 0x800
  {
    hide KernelEntry, SectionOk, Covers, LeafWord, FlagsOf, HasFlag;
    CoveredPage(secs[i], vp);
    FirstSectionWins(secs, vp, i);
    SectionBits(secs[i]);
    KernelPage(vp);
    EntryParts(vp - 0xF_FFF8_0000, 1 + 2 * (secs[i].flags % 2), if secs[i].flags / 4 % 2 == 1 then 0 else 0x800);
  }

  lemma KernelPage(vp: nat)
    requires vp < PAGES && Pmm.KERNEL_VMA <= Base(vp)
    ensures Base(vp) - Pmm.KERNEL_VMA == 4096 * (vp - 0xF_FFF8_0000) && 0 <= vp - 0xF_FFF8_0000
    ensures FrameOf(Base(vp) - Pmm.KERNEL_VMA) == vp - 0xF_FFF8_0000
  {
  }

  lemma EntryParts(f: nat, low: nat, high: nat)
    requires f < 0x100_0000_0000 && low < 4096
    ensures var e := 4096 * f + low + 0x10_0000_0000_0000 * high;
      e % 4096 == low && e / 4096 % 0x100_0000_0000 == f && e / 0x10_0000_0000_0000 == high
  {
    var e := 4096 * f + low + 0x10_0000_0000_0000 * high;
    assert e == 4096 * (f + 0x100_0000_0000 * high) + low;
    assert e / 4096 == f + 0x100_0000_0000 * high;
  }

  /** The whole map after init_paging: all of physical memory from NEW_HDDM on, and the kernel image. */
  ghost function BootEntry(secs: seq<Section>, pages: nat, vp: nat): Option<word>
    requires vp < PAGES && forall sh | sh in secs :: SectionOk(sh)
  {
    if 0x8_0000_0000 <= vp < 0x8_0000_0000 + pages
    then Some(LeafWord(4096 * (vp - 0x8_0000_0000), HHDM_FLAGS))
    else KernelEntry(secs, vp)
  }

  /** A page of the direct map is writable and not executable. */
  lemma DirectEntryIs(secs: seq<Section>, pages: nat, vp: nat)
    requires vp < PAGES && forall sh | sh in secs :: SectionOk(sh)
    requires 0x8_0000_0000 <= vp < 0x8_0000_0000 + pages
    ensures BootEntry(secs, pages, vp) == Some(4096 * (vp - 0x8_0000_0000) + 0x8000_0000_0000_0003)
  {
    hide KernelEntry, LeafWord;
  }

  /** Every kernel page is mapped to its own address less Pmm.KERNEL_VMA. */
  lemma {:induction false} KernelFrames(secs: seq<Section>, vp: nat)
    requires vp < PAGES && forall sh | sh in secs :: SectionOk(sh)
    ensures KernelEntry(secs, vp).Some? ==>
      Pmm.KERNEL_VMA <= Base(vp) < U64 && IsPresent(KernelEntry(secs, vp).value) &&
      FrameOf(KernelEntry(secs, vp).value) == FrameOf(Base(vp) - Pmm.KERNEL_VMA)
    decreases |secs|
  {
    hide SectionOk, Covers;
    if secs != [] {
      var n := |secs| - 1;
      KernelFrames(secs[..n], vp);
      if Covers(secs[n], vp) { CoveredPage(secs[n], vp); }
    }
  }

  lemma BasePage(vp: nat)
    requires 0x8_0000_0000 <= vp < PAGES
    ensures Base(vp) < U64 && Vpn(Base(vp)) == vp
  {
    assert Base(vp) / 4096 == 0xF_FFF0_0000_0000 + vp;
  }

  const DIRECT: nat := 0x8_0000_0000   // the first page of the direct map

  /** The pages of a section, and of the kernel image. */

  ghost function SectionPages(sh: Section): set<nat> {
    set vp: nat | vp < PAGES && Covers(sh, vp)
  }

  ghost function KernelPages(secs: seq<Section>): set<nat>
    requires forall sh | sh in secs :: SectionOk(sh)
  {
    set vp: nat | vp < PAGES && KernelEntry(secs, vp).Some?
  }

  /** All pages mapped at boot. */
  ghost function BootPages(secs: seq<Section>, pages: nat): set<nat>
    requires forall sh | sh in secs :: SectionOk(sh)
  {
    set vp: nat | vp < PAGES && BootEntry(secs, pages, vp).Some?
  }

  lemma KernelPagesMore(secs: seq<Section>, k: nat)
    requires k < |secs| && forall sh | sh in secs :: SectionOk(sh)
    ensures KernelPages(secs[..k + 1]) == KernelPages(secs[..k]) + SectionPages(secs[k])
  {
    hide Covers, SectionOk;
    assert secs[..k + 1][..k] == secs[..k];
  }

  lemma NoKernelPages(secs: seq<Section>)
    requires forall sh | sh in secs :: SectionOk(sh)
    ensures KernelPages(secs[..0]) == {}
  {
  }

  lemma {:induction false} KernelPagesGrow(secs: seq<Section>, i: nat)
    requires i <= |secs| && forall sh | sh in secs :: SectionOk(sh)
    ensures KernelPages(secs[..i]) <= KernelPages(secs)
    decreases |secs| - i
  {
    hide KernelEntry, SectionOk, SectionPages;
    if i == |secs| {
      assert secs[..i] == secs;
    } else {
      KernelPagesMore(secs, i);
      KernelPagesGrow(secs, i + 1);
    }
  }

  lemma NoSectionPages(sh: Section)
    requires !HasFlag(sh, SHF_ALLOC)
    ensures SectionPages(sh) == {}
  {
  }

  lemma BootPagesAre(secs: seq<Section>, pages: nat)
    requires 4096 * pages <= Pmm.KERNEL_VMA - NEW_HDDM && forall sh | sh in secs :: SectionOk(sh)
    ensures BootPages(secs, pages) == KernelPages(secs) + PageRange(DIRECT, pages)
  {
    hide KernelEntry, SectionOk, LeafWord;
  }

  // ----- building it -----

  /** The pages of one section, the last i of the table being those already mapped. */
  method MapSection(s: AddressSpace, secs: seq<Section>, k: nat) returns (r: Halting<()>)
    requires s.Valid() && k < |secs| && forall sh | sh in secs :: SectionOk(sh)
    requires HasFlag(secs[k], SHF_ALLOC)
    requires forall vp: nat | vp < PAGES :: s.Lookup(vp) == KernelEntry(secs[..k], vp)
    modifies s`tree, s.ram, s.pmm.bmp
    ensures r.Halted? <==> old(s.pmm.FreeCount()) < Cost(old(s.tree.Keys), SectionPages(secs[k]))
    ensures r.Halted? ==> r.reason == OutOfFrames && s.pmm.AllUsed()
    ensures s.Valid() && s.TablesAdded()
    ensures r.Returned? ==> s.Charged(SectionPages(secs[k]))
    ensures r.Returned? ==> forall vp: nat | vp < PAGES :: s.Lookup(vp) == KernelEntry(secs[..k + 1], vp)
  {
    hide AddressSpace.Valid, AddressSpace.Lookup, AddressSpace.Tables, Pmm.FrameAllocator.Used, Pmm.FrameAllocator.AllUsed;
    hide AlignDown, LeafWord, KernelEntry, Vpn, MapResult, PdptPath, PdPath, PtPath, Partly, FlagsOf;
    hide Pmm.FrameAllocator.FreeCount, Cost, PagePaths, Missing, PathSet, PagesBelow, SectionPages;
    var sh := secs[k];
    assert SectionOk(sh);
    AlignDownPage(sh.addr);
    var end := sh.addr + sh.size;
    var v := AlignDown(sh.addr, 4096);
    PartlyStart(secs, k, v);
    s.TablesAreUsed();
    ghost var all, done := SectionPages(sh), PagesBelow(sh, v);
    NonePagesBelow(sh, v);
    NoPages(s.tree.Keys);
    while v < end
      invariant Pmm.KERNEL_VMA <= v < U64 && v % 4096 == 0 && sh.addr < v + 4096
      invariant s.Valid() && s.TablesAdded()
      invariant forall vp: nat | vp < PAGES :: s.Lookup(vp) == Partly(secs, k, vp, v)
      invariant done == PagesBelow(sh, v) && s.Charged(done)
      decreases U64 - v
    {
      ghost var vp := (v - 0xFFFF_0000_0000_0000) / 4096;
      assert Base(vp) == v;
      BasePage(vp);
      PartlyStep(secs, k, vp);
      NextPageBelow(sh, vp, v);
      CostOneMore(old(s.tree.Keys), done, vp);
      var res := s.MapPage(v, v - Pmm.KERNEL_VMA, FlagsOf(sh));
      if res.Halted? {
        Shortfall(old(s.tree.Keys), old(s.pmm.FreeCount()), done, vp, all);
        return Halted(res.reason);
      }
      done := done + {vp};
      if res.value != 0 { return Halted(MappingFailed); }
      v := v + 4096;
    }
    PartlyDone(secs, k, v);
    AllPagesBelow(sh, v);
    return Returned(());
  }

  /** The pages of a section below address v. */
  ghost function PagesBelow(sh: Section, v: nat): set<nat> {
    set vp: nat | vp < PAGES && Covers(sh, vp) && Base(vp) < v
  }

  lemma NonePagesBelow(sh: Section, v: nat)
    requires v <= sh.addr && v % 4096 == 0
    ensures PagesBelow(sh, v) == {}
  {
    assert forall vp: nat :: Base(vp) % 4096 == 0;
  }

  lemma NextPageBelow(sh: Section, vp: nat, v: nat)
    requires vp < PAGES && Covers(sh, vp) && Base(vp) == v
    ensures PagesBelow(sh, v + 4096) == PagesBelow(sh, v) + {vp} <= SectionPages(sh)
  {
  }

  lemma AllPagesBelow(sh: Section, v: nat)
    requires sh.addr + sh.size <= v
    ensures PagesBelow(sh, v) == SectionPages(sh)
  {
  }

  /** The map while section k is being entered, up to address v. */
  ghost function Partly(secs: seq<Section>, k: nat, vp: nat, v: nat): Option<word>
    requires k < |secs| && vp < PAGES && forall sh | sh in secs :: SectionOk(sh)
  {
    match KernelEntry(secs[..k], vp)
    case Some(e) => Some(e)
    case None => if Covers(secs[k], vp) && Base(vp) < v then CoveredPage(secs[k], vp); Some(SectionEntry(secs[k], vp)) else None
  }

  lemma PartlyStart(secs: seq<Section>, k: nat, v: nat)
    requires k < |secs| && forall sh | sh in secs :: SectionOk(sh)
    requires v <= secs[k].addr && v % 4096 == 0
    ensures forall vp: nat | vp < PAGES :: Partly(secs, k, vp, v) == KernelEntry(secs[..k], vp)
  {
    hide KernelEntry, SectionEntry, SectionOk;
    assert forall vp: nat :: Base(vp) % 4096 == 0;
  }

  /** Mapping one more page of the section cannot fail: if the page is mapped already, it is to the same frame. */
  lemma PartlyStep(secs: seq<Section>, k: nat, vp: nat)
    requires k < |secs| && vp < PAGES && forall sh | sh in secs :: SectionOk(sh)
    requires Covers(secs[k], vp)
    ensures Pmm.KERNEL_VMA <= Base(vp) < U64
    ensures var before := Partly(secs, k, vp, Base(vp));
      && MapResult(before, Base(vp) - Pmm.KERNEL_VMA) == 0
      && Partly(secs, k, vp, Base(vp) + 4096) == if before == None then Leaf(SectionEntry(secs[k], vp)) else before
    ensures forall vq: nat | vq < PAGES && vq != vp :: Partly(secs, k, vq, Base(vp) + 4096) == Partly(secs, k, vq, Base(vp))
  {
    hide KernelEntry, SectionOk;
    CoveredPage(secs[k], vp);
    KernelFrames(secs[..k], vp);
  }

  lemma PartlyDone(secs: seq<Section>, k: nat, v: nat)
    requires k < |secs| && forall sh | sh in secs :: SectionOk(sh)
    requires secs[k].addr + secs[k].size <= v && HasFlag(secs[k], SHF_ALLOC)
    ensures forall vp: nat | vp < PAGES :: Partly(secs, k, vp, v) == KernelEntry(secs[..k + 1], vp)
  {
    hide SectionEntry, SectionOk;
    assert secs[..k + 1][..k] == secs[..k];
  }

  /** The section loop of map_kernel_elf_sections. */
  method MapKernelElfSections(s: AddressSpace, secs: seq<Section>) returns (r: Halting<()>)
    requires s.Valid() && forall sh | sh in secs :: SectionOk(sh)
    requires forall vp: nat | vp < PAGES :: s.Lookup(vp) == None
    modifies s`tree, s.ram, s.pmm.bmp
    ensures r.Halted? <==> old(s.pmm.FreeCount()) < Cost(old(s.tree.Keys), KernelPages(secs))
    ensures r.Halted? ==> r.reason == OutOfFrames && s.pmm.AllUsed()
    ensures s.Valid() && s.TablesAdded()
    ensures r.Returned? ==> s.Charged(KernelPages(secs))
    ensures r.Returned? ==> forall vp: nat | vp < PAGES :: s.Lookup(vp) == KernelEntry(secs, vp)
  {
    hide AddressSpace.Valid, AddressSpace.Lookup, AddressSpace.Tables, Pmm.FrameAllocator.Used, Pmm.FrameAllocator.AllUsed;
    hide SectionEntry, SectionOk, HasFlag, Cost, PagePaths, SectionPages, KernelPages, Pmm.FrameAllocator.FreeCount;
    s.TablesAreUsed();
    ghost var keys := s.tree.Keys;
    NoKernelPages(secs);
    NoPages(keys);
    for i := 0 to |secs|
      invariant s.Valid() && s.TablesAdded() && s.Charged(KernelPages(secs[..i]))
      invariant forall vp: nat | vp < PAGES :: s.Lookup(vp) == KernelEntry(secs[..i], vp)
    {
      assert secs[..i + 1][..i] == secs[..i];
      KernelPagesMore(secs, i);
      CostSplit(keys, KernelPages(secs[..i]), SectionPages(secs[i]));
      PathsUnion(KernelPages(secs[..i]), SectionPages(secs[i]));
      if HasFlag(secs[i], SHF_ALLOC) {
        var res := MapSection(s, secs, i);
        if res.Halted? {
          KernelPagesGrow(secs, i + 1);
          CostMonotone(keys, KernelPages(secs[..i + 1]), KernelPages(secs));
          return res;
        }
      } else {
        NoSectionPages(secs[i]);
        NoPages(s.tree.Keys);
      }
    }
    assert secs[..|secs|] == secs;
    return Returned(());
  }

  /** The direct map of all of physical memory. */
  method MapPhysicalMemory(s: AddressSpace, secs: seq<Section>) returns (r: Halting<()>)
    requires s.Valid() && s.pmm.totalMem <= Pmm.KERNEL_VMA - NEW_HDDM && forall sh | sh in secs :: SectionOk(sh)
    requires forall vp: nat | vp < PAGES :: s.Lookup(vp) == KernelEntry(secs, vp)
    modifies s`tree, s.ram, s.pmm.bmp
    ensures r.Halted? <==> old(s.pmm.FreeCount()) < Cost(old(s.tree.Keys), PageRange(DIRECT, s.pmm.MaxPages()))
    ensures r.Halted? ==> r.reason == OutOfFrames && s.pmm.AllUsed()
    ensures s.Valid() && s.TablesAdded()
    ensures r.Returned? ==> s.Charged(PageRange(DIRECT, s.pmm.MaxPages()))
    ensures r.Returned? ==> forall vp: nat | vp < PAGES :: s.Lookup(vp) == BootEntry(secs, s.pmm.MaxPages(), vp)
  {
    hide AddressSpace.Valid, AddressSpace.Lookup, AddressSpace.Tables, Pmm.FrameAllocator.Used, Pmm.FrameAllocator.AllUsed;
    hide AlignDown, LeafWord, KernelEntry, SectionOk, Vpn, MapResult, PdptPath, PdPath, PtPath, BootEntry;
    hide Pmm.FrameAllocator.MaxPages, Or, And, AddrOf, FrameOf, Leaf, Cost, PagePaths, Missing, PathSet, PageRange, Pmm.FrameAllocator.FreeCount;
    DirectStart(secs);
    DirectTotal(s.pmm);
    var total := AlignDown(s.pmm.totalMem, 4096);
    s.TablesAreUsed();
    var i := 0;
    ghost var n, pages := 0, s.pmm.MaxPages();
    RangeMore(DIRECT, 0);
    NoPages(s.tree.Keys);
    while i < total
      invariant i == 4096 * n && n <= pages
      invariant s.Valid() && s.TablesAdded() && s.Charged(PageRange(DIRECT, n))
      invariant forall vp: nat | vp < PAGES :: s.Lookup(vp) == BootEntry(secs, n, vp)
    {
      DirectStep(secs, n);
      ghost var vp := 0x8_0000_0000 + n;
      RangeMore(DIRECT, n);
      RangeWithin(DIRECT, n + 1, pages);
      CostOneMore(old(s.tree.Keys), PageRange(DIRECT, n), vp);
      var res := s.MapPage(NEW_HDDM + i, i, HHDM_FLAGS);
      if res.Halted? {
        Shortfall(old(s.tree.Keys), old(s.pmm.FreeCount()), PageRange(DIRECT, n), vp, PageRange(DIRECT, pages));
        return Halted(res.reason);
      }
      if res.value != 0 { return Halted(MappingFailed); }
      i := i + 4096;
      n := n + 1;
    }
    return Returned(());
  }

  /** The direct map stays below the kernel image, so each of its pages is still free when it is mapped. */
  lemma DirectStep(secs: seq<Section>, i: nat)
    requires 4096 * i + 4096 <= Pmm.KERNEL_VMA - NEW_HDDM && forall sh | sh in secs :: SectionOk(sh)
    ensures var vp := 0x8_0000_0000 + i;
      && vp < PAGES && Vpn(NEW_HDDM + 4096 * i) == vp
      && BootEntry(secs, i, vp) == None && MapResult(None, 4096 * i) == 0
      && BootEntry(secs, i + 1, vp) == Leaf(LeafWord(4096 * i, HHDM_FLAGS))
      && forall vq: nat | vq < PAGES && vq != vp :: BootEntry(secs, i + 1, vq) == BootEntry(secs, i, vq)
  {
    hide KernelEntry, SectionOk, LeafWord, Vpn, Or, And;
    var vp := 0x8_0000_0000 + i;
    assert 4096 * vp == NEW_HDDM - 0xFFFF_0000_0000_0000 + 4096 * i;
    assert Base(vp) == NEW_HDDM + 4096 * i && Base(vp) < Pmm.KERNEL_VMA;
    BasePage(vp);
    assert KernelEntry(secs, vp) == None by { KernelFrames(secs, vp); }
    assert BootEntry(secs, i + 1, vp) == Some(LeafWord(4096 * i, HHDM_FLAGS));
    DirectFlags(4096 * i);
    forall vq: nat | vq < PAGES && vq != vp ensures BootEntry(secs, i + 1, vq) == BootEntry(secs, i, vq) {
      assert (0x8_0000_0000 <= vq < vp + 1) == (0x8_0000_0000 <= vq < vp);
    }
  }

  lemma DirectTotal(pmm: Pmm.FrameAllocator)
    requires pmm.totalMem <= Pmm.KERNEL_VMA - NEW_HDDM
    ensures AlignDown(pmm.totalMem, 4096) == 4096 * pmm.MaxPages() <= Pmm.KERNEL_VMA - NEW_HDDM
  {
    hide AlignDown;
    AlignDownPage(pmm.totalMem);
  }

  lemma DirectStart(secs: seq<Section>)
    requires forall sh | sh in secs :: SectionOk(sh)
    ensures forall vp: nat | vp < PAGES :: BootEntry(secs, 0, vp) == KernelEntry(secs, vp)
  {
    hide KernelEntry, SectionOk;
  }

  lemma DirectFlags(phys: word)
    ensures Leaf(LeafWord(phys, HHDM_FLAGS)) == Some(LeafWord(phys, HHDM_FLAGS))
  {
    hide Or, And;
  }

  /** init_paging: the resulting address space translates exactly the pages of the direct map and of
      the kernel image, takes only fresh table frames, and neither mapping panic is reached. */
  method InitPaging(pmm: Pmm.FrameAllocator, ram: array<word>, secs: seq<Section>) returns (r: Halting<AddressSpace>)
    requires pmm.Valid() && pmm.MaxPages() <= 0x100_0000_0000 && 512 * pmm.MaxPages() <= ram.Length
    requires (pmm.bmp as object) != ram && 0 in pmm.Used()
    requires pmm.totalMem <= Pmm.KERNEL_VMA - NEW_HDDM && forall sh | sh in secs :: SectionOk(sh)
    modifies ram, pmm.bmp
    ensures r.Halted? <==> old(pmm.FreeCount()) < 1 + |PagePaths(BootPages(secs, pmm.MaxPages()))|
    ensures r.Halted? ==> r.reason == OutOfFrames && pmm.AllUsed()
    ensures r.Returned? ==>
      && r.value.tree.Keys == {Root} + PagePaths(BootPages(secs, pmm.MaxPages()))
      && pmm.FreeCount() == old(pmm.FreeCount()) - 1 - |PagePaths(BootPages(secs, pmm.MaxPages()))|
    ensures r.Returned? ==>
      var s := r.value;
      && fresh(s) && s.pmm == pmm && s.ram == ram && s.Valid()
      && pmm.Used() == old(pmm.Used()) + s.Tables() && s.Tables() !! old(pmm.Used())
      && Untouched(old(ram[..]), ram[..], s.Tables())
      && forall vp: nat | vp < PAGES :: s.Lookup(vp) == BootEntry(secs, pmm.MaxPages(), vp)
  {
    hide AddressSpace.Valid, AddressSpace.Lookup, AddressSpace.Tables, Pmm.FrameAllocator.Used, Pmm.FrameAllocator.AllUsed;
    hide SectionOk, BootEntry, KernelEntry, KernelPages, PageRange, BootPages, PagePaths, Cost, Pmm.FrameAllocator.FreeCount;
    ghost var kernel, direct := KernelPages(secs), PageRange(DIRECT, pmm.MaxPages());
    DirectTotal(pmm);
    BootPagesAre(secs, pmm.MaxPages());
    PathsUnion(kernel, direct);
    CostSplit({Root}, kernel, direct);
    CostFromRoot(kernel + direct);
    var p := pmm.AllocPage();
    if p.Halted? { return Halted(p.reason); }
    ghost var f := p.value / 4096;
    ghost var m := ram[..];
    Paging.ZeroFrame(ram, p.value, f);
    var s := new AddressSpace(pmm, ram, p.value, f);
    TwoTouched(m, ram[..], f, 0, f, s.Tables());
    var k := MapKernelElfSections(s, secs);
    if k.Halted? { return Halted(k.reason); }
    var d := MapPhysicalMemory(s, secs);
    if d.Halted? { return Halted(d.reason); }
    return Returned(s);
  }
}
