/** The kernel's virtual range allocator, kernel/mm/vmm.c: a next-fit bitmap of heap pages, kept in
    agreement with the page tables and the frame allocator. */
module Vmm {
  import opened Words
  import opened Machine
  import opened PageTable
  import opened Bitmaps
  import opened Demand
  import opened Paging
  import Pmm

  const VMM_BITMAP_VIRT_START: nat := 0xFFFF_BF00_0000_0000
  const KERNEL_HEAP_START: nat := 0xFFFF_C000_0000_0000
  const KERNEL_HEAP_SIZE: nat := 0x20_0000_0000
  const KERNEL_STACK_RANGE_START: nat := 0xFFFF_D000_0000_0000
  const KERNEL_STACK_SIZE: nat := 0x40_0000
  const KERNEL_STACK_GUARD: nat := 4096
  const KERNEL_HEAP_BITMAP_SIZE: nat := 0x40_0000

  const HEAP_END: nat := 0xFFFF_C020_0000_0000   // KERNEL_HEAP_START + KERNEL_HEAP_SIZE

  const TOTAL: nat := 0x200_0000   // pages of the heap
  const STACK_PAGES: nat := 1024
  const BITMAP_PAGES: nat := 1024

  // ----- the pages the allocator manages -----

  function BitmapPage(i: nat): nat { 0xB_F000_0000 + i }
  function HeapPage(i: nat): nat { 0xC_0000_0000 + i }

  /** Page 0 of the stack range is the guard page; pages 1 to 1024 are the stack. */
  function StackPage(i: nat): nat { 0xD_0000_0000 + i }

  /** The pages of the bitmap, of the heap and one on either side, and of the stack and its guard. */
  predicate Managed(vp: nat) {
    || BitmapPage(0) <= vp < BitmapPage(BITMAP_PAGES)
    || HeapPage(0) - 1 <= vp <= HeapPage(TOTAL)
    || StackPage(0) <= vp <= StackPage(STACK_PAGES)
  }

  /** The managed pages that stay unmapped: on either side of the heap, and below the stack. */
  predicate Guard(vp: nat) {
    vp == HeapPage(0) - 1 || vp == HeapPage(TOTAL) || vp == StackPage(0)
  }

  lemma ManagedPages()
    ensures forall vp: nat :: Managed(vp) ==> vp < PAGES
  {
  }

  /** Where the managed ranges lie. */
  lemma PageNumbers(i: nat)
    requires i <= TOTAL
    ensures KERNEL_HEAP_START + 4096 * i < U64 && Vpn(KERNEL_HEAP_START + 4096 * i) == HeapPage(i)
    ensures VMM_BITMAP_VIRT_START + 4096 * i < U64 && Vpn(VMM_BITMAP_VIRT_START + 4096 * i) == BitmapPage(i)
    ensures KERNEL_STACK_RANGE_START + 4096 * i < U64 && Vpn(KERNEL_STACK_RANGE_START + 4096 * i) == StackPage(i)
  {
    assert (KERNEL_HEAP_START + 4096 * i) / 4096 == 0xF_FFFC_0000_0000 + i;
    assert (VMM_BITMAP_VIRT_START + 4096 * i) / 4096 == 0xF_FFFB_F000_0000 + i;
    assert (KERNEL_STACK_RANGE_START + 4096 * i) / 4096 == 0xF_FFFD_0000_0000 + i;
  }

  // ----- next fit -----

  predicate FreeRun(b: set<nat>, s: nat, n: nat) {
    forall k: nat :: s <= k < s + n ==> k !in b
  }

  /** No run of n free pages lies wholly inside [lo, hi). */
  ghost predicate NoRun(b: set<nat>, n: nat, lo: nat, hi: nat) {
    forall t: nat :: lo <= t && t + n <= hi ==> !FreeRun(b, t, n)
  }

  /** s starts the lowest run of n free pages wholly inside [lo, hi). */
  ghost predicate LowestRun(b: set<nat>, n: nat, lo: nat, hi: nat, s: nat) {
    && lo <= s && s + n <= hi && FreeRun(b, s, n)
    && forall t: nat :: lo <= t < s ==> !FreeRun(b, t, n)
  }

  /** The run next fit takes: the lowest in [last, TOTAL), else the lowest in [0, last). */
  ghost predicate NextFit(b: set<nat>, n: nat, last: nat, s: nat) {
    LowestRun(b, n, last, TOTAL, s) || (NoRun(b, n, last, TOTAL) && LowestRun(b, n, 0, last, s))
  }

  ghost predicate Exhausted(b: set<nat>, n: nat, last: nat) {
    n == 0 || (NoRun(b, n, last, TOTAL) && NoRun(b, n, 0, last))
  }

  /** A longer prefix of the window, one page at a time. */
  lemma NoRunGrows(b: set<nat>, n: nat, lo: nat, i: nat, found: nat)
    requires n > 0 && NoRun(b, n, lo, i) && lo <= i && found <= i - lo
    requires found < i - lo ==> i - found - 1 in b
    requires i !in b ==> found + 1 < n
    ensures NoRun(b, n, lo, i + 1)
  {
    forall t: nat | lo <= t && t + n <= i + 1 ensures !FreeRun(b, t, n) {
      if t + n == i + 1 && n > 0 {
        if i in b {
          assert t <= i < t + n;
        } else {
          assert t <= i - found - 1 < t + n;
        }
      }
    }
  }

  // ----- the books -----

  /** All that matters of the allocator's state: the heap pages in use, where next fit goes on, the
      frames in use, the page tables, the frames behind the managed pages, and the words of memory. */
  datatype Books = Books(owned: set<nat>, last: nat, used: set<nat>, tree: map<Path, nat>, backing: map<nat, nat>, memory: seq<word>)

  /** The virtual pages of the heap pages in use. */
  ghost function HeldPages(owned: set<nat>): set<nat> {
    set i | i in owned :: HeapPage(i)
  }

  predicate InHeap(vp: nat) { HeapPage(0) <= vp < HeapPage(TOTAL) }

  /** The frames in use are the reserved ones, the tables and those behind the pages, each for one
      purpose only, and just the heap pages in use are backed. */
  ghost predicate Balanced(b: Books, reserved: set<nat>) {
    && b.used == reserved + b.tree.Values + b.backing.Values
    && reserved !! b.tree.Values && reserved !! b.backing.Values && b.tree.Values !! b.backing.Values
    && (forall vp, vq :: vp in b.backing && vq in b.backing && b.backing[vp] == b.backing[vq] ==> vp == vq)
    && (forall vp: nat :: InHeap(vp) ==> (vp in b.backing <==> vp - HeapPage(0) in b.owned))
  }

  /** The run that next fit takes calls for more frames, tables included, than there are. */
  ghost predicate Scarce(b: Books, frames: nat, n: nat) {
    exists s: nat :: NextFit(b.owned, n, b.last, s) && |Pmm.FreeIn(frames, b.used)| < Needs(b.tree.Keys, HeapPage(s), n)
  }

  /** No run of n pages is to be had. */
  ghost predicate Short(b: Books, frames: nat, n: nat) { Exhausted(b.owned, n, b.last) || Scarce(b, frames, n) }

  /** Why. */
  ghost function Shortage(b: Books, n: nat): (p: Panic)
    ensures p in {HeapExhausted, OutOfFrames}
  {
    if Exhausted(b.owned, n, b.last) then HeapExhausted else OutOfFrames
  }

  /** Next fit took the n heap pages from s on. */
  ghost predicate Grown(b: Books, c: Books, s: nat, n: nat) {
    NextFit(b.owned, n, b.last, s) && c.last == s + n <= TOTAL && Backed(b, c, s, n)
  }

  /** Each of the n heap pages from s on is now backed by a frame not in use before, exactly the
      tables on their way were made, nothing that was there has moved, and nothing but tables was
      written. */
  ghost predicate Backed(b: Books, c: Books, s: nat, n: nat) {
    && Untouched(b.memory, c.memory, c.tree.Values)
    && (forall i: nat :: i in c.owned <==> i in b.owned || s <= i < s + n)
    && c.tree.Keys == b.tree.Keys + PagePaths(PageRange(HeapPage(s), n))
    && (forall q :: q in b.tree ==> q in c.tree && c.tree[q] == b.tree[q])
    && (forall vp: nat :: vp in c.backing <==> vp in b.backing || HeapPage(s) <= vp < HeapPage(s + n))
    && (forall vp :: vp in b.backing ==> c.backing[vp] == b.backing[vp])
    && (forall i: nat :: s <= i < s + n ==> c.backing[HeapPage(i)] !in b.used)
  }

  /** The n heap pages from s on were given up; the tables stay, and nothing else was written. */
  ghost predicate Dropped(b: Books, c: Books, s: nat, n: nat) {
    && Untouched(b.memory, c.memory, c.tree.Values)
    && c.last == b.last && c.tree == b.tree
    && (forall i: nat :: i in c.owned <==> i in b.owned && !(s <= i < s + n))
    && (forall vp: nat :: vp in c.backing <==> vp in b.backing && !(HeapPage(s) <= vp < HeapPage(s + n)))
    && (forall vp :: vp in c.backing ==> c.backing[vp] == b.backing[vp])
  }

  /** Next fit took n pages that were given up again: all is as before but for the tables on their
      way and the place where next fit goes on. */
  ghost predicate Visited(b: Books, c: Books, n: nat) {
    exists s: nat :: NextFit(b.owned, n, b.last, s) && Passed(b, c, s, n)
  }

  ghost predicate Passed(b: Books, c: Books, s: nat, n: nat) {
    && Untouched(b.memory, c.memory, c.tree.Values)
    && c.owned == b.owned && c.backing == b.backing && c.last == s + n
    && c.tree.Keys == b.tree.Keys + PagePaths(PageRange(HeapPage(s), n))
    && (forall q :: q in b.tree ==> q in c.tree && c.tree[q] == b.tree[q])
  }

  /** At most the n heap pages from s on were backed, and at most tables on their way made. */
  ghost predicate OnlyFor(b: Books, c: Books, s: nat, n: nat) {
    && Untouched(b.memory, c.memory, c.tree.Values)
    && c.tree.Keys <= b.tree.Keys + PagePaths(PageRange(HeapPage(s), n))
    && forall vp :: vp in c.backing ==> vp in b.backing || HeapPage(s) <= vp < HeapPage(s + n)
  }

  /** Memory went to nothing but the run next fit chose. */
  ghost predicate Stranded(b: Books, c: Books, n: nat) {
    exists s: nat :: NextFit(b.owned, n, b.last, s) && OnlyFor(b, c, s, n)
  }

  /** From b to c tables were made exactly on the way to the pages held after, none was moved, pages
      mapped before and after kept their frames, outside the heap no page came or went, nothing but
      tables was written, and next fit goes on where it did or after a run it may take. */
  ghost predicate Steady(b: Books, c: Books) {
    && Untouched(b.memory, c.memory, c.tree.Values)
    && c.tree.Keys == b.tree.Keys + PagePaths(HeldPages(c.owned))
    && (forall q :: q in b.tree ==> q in c.tree && c.tree[q] == b.tree[q])
    && (forall vp :: vp in b.backing && vp in c.backing ==> c.backing[vp] == b.backing[vp])
    && (forall vp :: !InHeap(vp) ==> (vp in c.backing <==> vp in b.backing))
    && (c.last == b.last || EndsRun(b, c.last))
  }

  /** A run that next fit may take ends at e. */
  ghost predicate EndsRun(b: Books, e: nat) {
    exists s: nat, n: nat :: NextFit(b.owned, n, b.last, s) && e == s + n
  }

  /** All tables on the way to the heap pages in use exist. */
  ghost predicate Reached(b: Books) { PagePaths(HeldPages(b.owned)) <= b.tree.Keys }

  lemma ForgetLast(b: Books, c: Books, s: nat, n: nat)
    requires Backed(b, c, s, n)
    ensures forall last: nat :: Backed(b, c.(last := last), s, n)
  {
    hide PagePaths, PageRange;
  }

  lemma GrownRun(b: Books, c: Books, s: nat, n: nat)
    requires Grown(b, c, s, n)
    ensures s + n <= TOTAL && Backed(b, c, s, n)
    ensures forall i: nat :: s <= i < s + n ==> i !in b.owned
    ensures forall i: nat :: i in c.owned <==> i in b.owned || s <= i < s + n
  {
    hide PagePaths, PageRange;
  }

  /** Taking pages and giving them up. */
  lemma GrownDropped(b: Books, c: Books, d: Books, s: nat, n: nat)
    requires Grown(b, c, s, n) && Dropped(c, d, s, n)
    requires forall vp: nat :: HeapPage(s) <= vp < HeapPage(s + n) ==> vp !in b.backing
    ensures Visited(b, d, n) && d.owned == b.owned && d.backing == b.backing && d.tree == c.tree
  {
    hide PagePaths, PageRange, NextFit;
    GrownRun(b, c, s, n);
    assert Passed(b, d, s, n);
  }

  lemma HeldGrow(b: Books, c: Books, s: nat, n: nat)
    requires Grown(b, c, s, n)
    ensures HeldPages(c.owned) == HeldPages(b.owned) + PageRange(HeapPage(s), n)
  {
    hide NextFit, PagePaths;
    forall vp | vp in PageRange(HeapPage(s), n) ensures vp in HeldPages(c.owned) {
      var i: nat := vp - HeapPage(0);
      assert i in c.owned && vp == HeapPage(i);
    }
  }

  lemma SameSteady(b: Books)
    requires Reached(b)
    ensures Steady(b, b)
  {
  }

  lemma GrownSteady(b: Books, c: Books, s: nat, n: nat)
    requires Reached(b) && Grown(b, c, s, n)
    ensures Reached(c) && Steady(b, c)
  {
    HeldGrow(b, c, s, n);
    assert EndsRun(b, c.last);
    hide NextFit, PagePaths, PageRange, HeldPages;
    PathsUnion(HeldPages(b.owned), PageRange(HeapPage(s), n));
  }

  /** Pages in use at the start, given up at the end. */
  lemma DroppedSteady(b: Books, c: Books, d: Books, s: nat, n: nat)
    requires Reached(b) && Steady(b, c) && Dropped(c, d, s, n)
    requires s + n <= TOTAL && forall i: nat :: s <= i < s + n ==> i in b.owned
    ensures Reached(d) && Steady(b, d)
  {
    hide EndsRun;
  }

  class RangeAllocator {
    const space: AddressSpace
    const bitmap: array<byte>
    var last: nat
    ghost const reserved: set<nat>                // frames in use before the first address space was built
    ghost const outside: nat -> Option<word>      // the map of the pages that are not managed
    ghost var backing: map<nat, nat>              // the frame behind each managed page that is mapped

    ghost function Footprint(): set<object> {
      {this, bitmap, space, space.ram, space.pmm.bmp}
    }

    /** The heap pages in use, by index. */
    ghost function Owned(): set<nat>
      reads bitmap
    {
      Bits(bitmap[..])
    }

    ghost function Now(): Books
      reads this, bitmap, space, space.ram, space.pmm.bmp
    {
      Books(Owned(), last, space.pmm.Used(), space.tree, backing, space.ram[..])
    }

    /** A managed page is mapped exactly when it is backed, to the frame that backs it, present and
        writable. */
    ghost predicate Mapped()
      reads `backing, space, space.ram
    {
      forall vp: nat :: Managed(vp) ==>
        match space.Lookup(vp)
        case None => vp !in backing
        case Some(e) => vp in backing && FrameOf(e) == backing[vp] && e == 4096 * backing[vp] + 3
    }

    /** The frames in use are the disjoint union of the reserved ones, the page tables and the
        frames of the managed pages, and no two managed pages share a frame. */
    ghost predicate Partitioned()
      reads `backing, space, space.pmm.bmp
    {
      && space.pmm.Used() == reserved + space.Tables() + backing.Values
      && reserved !! space.Tables() && reserved !! backing.Values && space.Tables() !! backing.Values
      && (forall vp, vq :: vp in backing && vq in backing && backing[vp] == backing[vq] ==> vp == vq)
    }

    /** What holds between the single steps: everything but the bitmap. */
    ghost predicate Core()
      reads `backing, space, space.ram, space.pmm.bmp
    {
      && space.Valid() && (bitmap as object) !in {space.ram, space.pmm.bmp as object}
      && bitmap.Length == KERNEL_HEAP_BITMAP_SIZE && 0 in reserved
      && Mapped() && Partitioned()
      && (forall vp :: vp in backing ==> Managed(vp) && !Guard(vp))
      && Framed()
    }

    /** No page that is not managed ever changes its translation. */
    ghost predicate Framed()
      reads space, space.ram
    {
      forall vp: nat :: vp < PAGES && !Managed(vp) ==> space.Lookup(vp) == outside(vp)
    }

    /** All used frames but f are reserved, hold a table or back a managed page. */
    ghost predicate AllButOne(f: nat)
      reads `backing, space, space.pmm.bmp
    {
      space.pmm.Used() <= reserved + space.Tables() + backing.Values + {f}
    }

    /** Memory has run out: every frame is in use, and, but for at most one just taken, each is
        reserved, holds a table or backs a managed page; the pages stand as they should. */
    ghost predicate Spent()
      reads `backing, space, space.ram, space.pmm.bmp
    {
      space.pmm.AllUsed() && (exists f: nat :: AllButOne(f)) && Mapped() && Framed()
    }

    /** Bit i of the bitmap is set exactly when heap page i is mapped. */
    ghost predicate BitsAgree()
      reads `backing, bitmap
    {
      forall i: nat :: i < TOTAL ==> (i in Owned() <==> HeapPage(i) in backing)
    }

    ghost predicate Valid()
      reads this, bitmap, space, space.ram, space.pmm.bmp
    {
      Core() && BitsAgree() && last <= TOTAL
    }

    constructor (space: AddressSpace)
      requires space.Valid() && 0 in space.pmm.Used() - space.Tables()
      requires forall vp: nat :: Managed(vp) ==> space.Lookup(vp) == None
      ensures Core() && fresh(bitmap) && this.space == space && last == 0
      ensures backing == map[] && reserved == space.pmm.Used() - space.Tables()
      ensures forall vp: nat :: outside(vp) == space.Lookup(vp)
    {
      hide Managed, Pmm.FrameAllocator.AllUsed, Pmm.FrameAllocator.Used;
      this.space := space;
      bitmap := new byte[0x40_0000];
      last := 0;
      reserved := space.pmm.Used() - space.Tables();
      ghost var m, top := space.ram[..], space.kernelPml4 / 4096;
      outside := (vp: nat) => Walk(m, top, vp);
      backing := map[];
      new;
      space.TablesAreUsed();
    }

    /** n pages from lo on were mapped since there were these tables and so many free frames: exactly
        the tables on the way to the pages were made, tables stay where they are, and each page and
        each table took a free frame. */
    ghost predicate ClaimedSince(tree0: map<Path, nat>, free0: nat, lo: nat, n: nat)
      reads space, space.pmm.bmp
    {
      && space.tree.Keys == tree0.Keys + PagePaths(PageRange(lo, n))
      && (forall q :: q in tree0 ==> q in space.tree && space.tree[q] == tree0[q])
      && space.pmm.FreeCount() == free0 - Needs(tree0.Keys, lo, n)
    }

    twostate predicate Claimed(lo: nat, n: nat)
      reads space, space.pmm.bmp
    {
      ClaimedSince(old(space.tree), old(space.pmm.FreeCount()), lo, n)
    }

    /** The frames were too few for n pages from lo on, and at most tables on the way to them were made. */
    ghost predicate ShortSince(tree0: map<Path, nat>, free0: nat, lo: nat, n: nat)
      reads space
    {
      free0 < Needs(tree0.Keys, lo, n) && space.tree.Keys <= tree0.Keys + PagePaths(PageRange(lo, n))
    }

    lemma NothingClaimed(lo: nat)
      ensures ClaimedSince(space.tree, space.pmm.FreeCount(), lo, 0)
    {
      hide PageRange, PagePaths, Needs;
      NeedsNone(space.tree.Keys, lo);
    }

    /** Tables were only added, and nothing but tables was written. */
    twostate predicate OnlyTables()
      reads space, space.ram
    {
      Untouched(old(space.ram[..]), space.ram[..], space.Tables()) && old(space.Tables()) <= space.Tables()
    }

    /** pmm_alloc_page and kmap for one managed page; the panics of the callers other than
        running out of frames are not reached. */
    method MapFresh(virt: word, ghost vp: nat) returns (r: Halting<int>)
      requires Core() && Vpn(virt) == vp && Managed(vp) && vp !in backing && !Guard(vp)
      modifies this`backing, space, space.ram, space.pmm.bmp
      ensures r.Halted? <==> old(space.pmm.FreeCount()) < 1 + Missing(old(space.tree.Keys), vp)
      ensures r.Halted? ==> r.reason == OutOfFrames && Spent() && backing == old(backing)
      ensures r.Halted? ==> space.tree.Keys <= old(space.tree.Keys) + PathSet(vp)
      ensures r.Returned? ==> space.tree.Keys == old(space.tree.Keys) + PathSet(vp)
      ensures r.Returned? ==> space.pmm.FreeCount() == old(space.pmm.FreeCount()) - 1 - Missing(old(space.tree.Keys), vp)
      ensures forall q :: q in old(space.tree) ==> q in space.tree && space.tree[q] == old(space.tree[q])
      ensures OnlyTables()
      ensures r.Returned? ==> r.value == 0 && Core() && vp in backing && backing == old(backing)[vp := backing[vp]]
      ensures r.Returned? ==> space.pmm.Used() == old(space.pmm.Used()) + {backing[vp]} + space.Tables()
      ensures r.Returned? ==> backing[vp] !in old(space.pmm.Used()) && old(space.Tables()) <= space.Tables()
      ensures r.Returned? ==> forall vq: nat :: vq < PAGES && vq != vp ==> space.Lookup(vq) == old(space.Lookup(vq))
    {
      hide AddressSpace.Valid, AddressSpace.Lookup, AddressSpace.Tables, Pmm.FrameAllocator.AllUsed, Pmm.FrameAllocator.Used;
      hide Vpn, LeafWord, ReadWrite, PdptPath, PdPath, PtPath, FrameOf, Missing, PathSet, Pmm.FrameAllocator.FreeCount, Managed, Guard;
      ManagedPages();
      UnbackedUnmapped(vp);
      var p := space.AllocFrame();
      if p.Halted? {
        assert AllButOne(0);
        return Halted(p.reason);
      }
      ghost var f, used1, tables1 := p.value / 4096, space.pmm.Used(), space.Tables();
      FreshLeaf(f);
      r := space.MapPage(virt, p.value, ReadWrite());
      if r.Halted? {
        assert AllButOne(f);
        return;
      }
      AddValue(backing, vp, f);
      UnionGrows(reserved, tables1, space.Tables(), backing.Values, f, used1, space.pmm.Used());
      backing := backing[vp := f];
    }

    /** The same for page n of a run of `total` pages. */
    method MapNext(virt: word, ghost tree0: map<Path, nat>, ghost free0: nat, ghost lo: nat, ghost n: nat, ghost total: nat) returns (r: Halting<int>)
      requires Core() && Vpn(virt) == lo + n && Managed(lo + n) && lo + n !in backing && !Guard(lo + n)
      requires n < total && ClaimedSince(tree0, free0, lo, n)
      modifies this`backing, space, space.ram, space.pmm.bmp
      ensures r.Halted? ==> r.reason == OutOfFrames && Spent() && backing == old(backing) && ShortSince(tree0, free0, lo, total)
      ensures r.Returned? ==> r.value == 0 && Core() && ClaimedSince(tree0, free0, lo, n + 1)
      ensures r.Returned? ==> lo + n in backing && backing == old(backing)[lo + n := backing[lo + n]]
      ensures r.Returned? ==> backing[lo + n] !in old(space.pmm.Used())
      ensures OnlyTables()
      ensures r.Returned? ==> old(space.Tables()) <= space.Tables() && old(space.pmm.Used()) <= space.pmm.Used()
      ensures r.Returned? ==> forall vq: nat :: vq < PAGES && vq != lo + n ==> space.Lookup(vq) == old(space.Lookup(vq))
    {
      hide Core, Spent, AddressSpace.Lookup, AddressSpace.Tables, Pmm.FrameAllocator.Used, Pmm.FrameAllocator.FreeCount;
      hide Vpn, Managed, Guard, Needs, PagePaths, PageRange, Missing, PathSet;
      NeedsMore(tree0.Keys, lo, n);
      NeedsGrow(tree0.Keys, lo, n + 1, total);
      r := MapFresh(virt, lo + n);
    }

    lemma UnbackedUnmapped(vp: nat)
      requires Core() && Managed(vp) && vp !in backing
      ensures space.Lookup(vp) == None
    {
      hide AddressSpace.Valid, AddressSpace.Lookup, Partitioned, Managed;
    }

    method BitmapSet(i: nat)
      requires i < 8 * bitmap.Length
      modifies bitmap
      ensures Owned() == old(Owned()) + {i}
    {
      hide And, Shr, ByteSet;
      ShiftAndMask(i);
      SetAt(bitmap[..], i);
      bitmap[Shr(i, 3)] := ByteSet(bitmap[Shr(i, 3)], And(i, 7));
      assert bitmap[..] == old(bitmap[..])[i / 8 := bitmap[i / 8]];
    }

    method BitmapClear(i: nat)
      requires i < 8 * bitmap.Length
      modifies bitmap
      ensures Owned() == old(Owned()) - {i}
    {
      hide And, Shr, ByteClear;
      ShiftAndMask(i);
      ClearAt(bitmap[..], i);
      bitmap[Shr(i, 3)] := ByteClear(bitmap[Shr(i, 3)], And(i, 7));
      assert bitmap[..] == old(bitmap[..])[i / 8 := bitmap[i / 8]];
    }

    method BitmapTest(i: nat) returns (b: bool)
      requires i < 8 * bitmap.Length
      ensures b == (i in Owned())
    {
      hide And, Shr, ByteTest;
      ShiftAndMask(i);
      b := ByteTest(bitmap[Shr(i, 3)], And(i, 7));
    }

    /** The two passes of vmm_alloc_pages over the bitmap. */
    method FindRun(n: nat) returns (r: Option<nat>)
      requires bitmap.Length == KERNEL_HEAP_BITMAP_SIZE && last <= TOTAL
      ensures r == None <==> Exhausted(Owned(), n, last)
      ensures r.Some? ==> n >= 1 && NextFit(Owned(), n, last, r.value)
    {
      hide Bits, FreeRun;
      ghost var b := Owned();
      var found, start := 0, 0;
      var pass := 0;
      while pass < 2
        invariant pass <= 2
        invariant pass == 0 ==> found == 0
        invariant pass >= 1 && n > 0 ==> NoRun(b, n, last, TOTAL)
        invariant pass == 2 && n > 0 ==> NoRun(b, n, 0, last)
      {
        var begin := if pass == 0 then last else 0;
        var end := if pass == 0 then TOTAL else last;
        if pass == 1 { found := 0; }
        EmptyWindow(b, n, begin);
        var i := begin;
        while i < end
          invariant begin <= i <= end
          invariant found <= i - begin && (n > 0 ==> found < n)
          invariant found > 0 ==> start == i - found
          invariant FreeRun(b, i - found, found)
          invariant found < i - begin ==> i - found - 1 in b
          invariant n > 0 ==> NoRun(b, n, begin, i)
        {
          var taken := BitmapTest(i);
          if !taken {
            if found == 0 { start := i; }
            RunGrows(b, i, found);
            found := found + 1;
            if found == n {
              LowestFound(b, n, begin, i, start);
              return Some(start);
            }
            if n > 0 { NoRunGrows(b, n, begin, i, found - 1); }
          } else {
            if n > 0 { NoRunGrows(b, n, begin, i, found); }
            EmptyRun(b, i + 1);
            found := 0;
          }
          i := i + 1;
        }
        pass := pass + 1;
      }
      return None;
    }

    /** vmm_alloc_pages: takes the run next fit chooses, backs each page with a fresh frame, and
        halts exactly when there is no such run, or when frames run out. */
    method AllocPages(n: nat) returns (r: Halting<nat>)
      requires Valid()
      modifies Footprint()
      ensures r == Halted(HeapExhausted) <==> Exhausted(old(Owned()), n, old(last))
      ensures r == Halted(HeapExhausted) ==> Valid() && Now() == old(Now())
      ensures r == Halted(OutOfFrames) <==> Scarce(old(Now()), space.pmm.MaxPages(), n)
      ensures r == Halted(OutOfFrames) ==> Spent() && Stranded(old(Now()), Now(), n)
      ensures r.Halted? ==> r.reason in {HeapExhausted, OutOfFrames}
      ensures r.Returned? ==>
        var s := (r.value - KERNEL_HEAP_START) / 4096;
        && n >= 1 && 0 <= s && r.value == KERNEL_HEAP_START + 4096 * s
        && Grown(old(Now()), Now(), s, n) && Took(s, n) && Valid()
        && (old(StackReady()) ==> StackReady())
    {
      hide Core, BitsAgree, Bits, NextFit, Exhausted, Needs, PagePaths, PageRange, Scarce, Spent, Pmm.FrameAllocator.FreeCount;
      hide AddressSpace.Lookup, AddressSpace.Tables, Pmm.FrameAllocator.Used, FreeRun, Backed, StackReady, ClaimedSince;
      Sizes();
      var run := FindRun(n);
      if run == None {
        NotScarce(n);
        return Halted(HeapExhausted);
      }
      var start := run.value;
      RunFits(Owned(), n, last, start);
      ScarceAt(n, start);
      var c := ClaimRun(start, n);
      TablesAre();
      if c.Halted? { return Halted(c.reason); }
      ForgetLast(old(Now()), Now(), start, n);
      last := start + n;
      return Returned(KERNEL_HEAP_START + start * 4096);
    }

    /** Each of the pages s to s + n - 1 of the heap and each table on their way took one free frame,
        and no other page has changed its translation. */
    twostate predicate Took(s: nat, n: nat)
      reads this, bitmap, space, space.ram, space.pmm.bmp
    {
      && Claimed(HeapPage(s), n) && old(space.Tables()) <= space.Tables()
      && (forall vq: nat :: vq < PAGES && !(HeapPage(s) <= vq < HeapPage(s + n)) ==> space.Lookup(vq) == old(space.Lookup(vq)))
    }

    /** All tables on the way to the heap pages in use exist. */
    lemma HeldReached()
      requires Valid()
      ensures Reached(Now())
    {
      hide AddressSpace.Valid, AddressSpace.Lookup, PdptPath, PdPath, PtPath, Partitioned, Bits;
      OwnedInRange();
      forall i | i in Owned() ensures PathSet(HeapPage(i)) <= space.tree.Keys {
        assert Managed(HeapPage(i)) && space.Lookup(HeapPage(i)).Some?;
        OnTheWay(HeapPage(i));
      }
    }

    lemma OnTheWay(vp: nat)
      requires space.Valid() && space.Lookup(vp).Some?
      ensures PathSet(vp) <= space.tree.Keys
    {
      LeafDecides(space.ram[..], space.kernelPml4 / 4096, space.tree, vp);
    }

    lemma NotScarce(n: nat)
      requires Exhausted(Owned(), n, last)
      ensures !Scarce(Now(), space.pmm.MaxPages(), n)
    {
      hide Exhausted, NextFit, Needs, Owned;
      NoFit(Owned(), n, last);
      if n == 0 {
        forall s: nat ensures Needs(space.tree.Keys, HeapPage(s), 0) == 0 { NeedsNone(space.tree.Keys, HeapPage(s)); }
      }
    }

    lemma ScarceAt(n: nat, s: nat)
      requires NextFit(Owned(), n, last, s)
      ensures Scarce(Now(), space.pmm.MaxPages(), n) <==> space.pmm.FreeCount() < Needs(space.tree.Keys, HeapPage(s), n)
    {
      hide NextFit, Needs, Owned;
      forall t: nat | NextFit(Owned(), n, last, t) ensures t == s { OneFit(Owned(), n, last, t, s); }
    }

    lemma TablesAre()
      ensures space.Tables() == space.tree.Values
    {
    }

    lemma Sizes()
      requires Core()
      ensures bitmap.Length == KERNEL_HEAP_BITMAP_SIZE && space.Valid()
      ensures (bitmap as object) != space.ram && (bitmap as object) != space.pmm.bmp && (space.pmm.bmp as object) != space.ram
    {
    }

    /** The inner loop of vmm_alloc_pages: map and mark the pages of a free run. */
    method ClaimRun(start: nat, n: nat) returns (r: Halting<()>)
      requires Valid() && start + n <= TOTAL && FreeRun(Owned(), start, n)
      modifies bitmap, this`backing, space, space.ram, space.pmm.bmp
      ensures r.Halted? <==> old(space.pmm.FreeCount()) < Needs(old(space.tree.Keys), HeapPage(start), n)
      ensures r.Halted? ==> r.reason == OutOfFrames && Spent() && ShortSince(old(space.tree), old(space.pmm.FreeCount()), HeapPage(start), n)
      ensures r.Returned? ==> Claimed(HeapPage(start), n) && (old(StackReady()) ==> StackReady())
      ensures r.Halted? ==> forall vp :: vp in backing ==> vp in old(backing) || HeapPage(start) <= vp < HeapPage(start + n)
      ensures OnlyTables()
      ensures r.Returned? ==>
        && Valid()
        && Backed(old(Now()), Now(), start, n)
        && (forall vq: nat :: vq < PAGES && !(HeapPage(start) <= vq < HeapPage(start + n)) ==> space.Lookup(vq) == old(space.Lookup(vq)))
    {
      hide Core, BitsAgree, Owned, AddressSpace.Lookup, AddressSpace.Tables, Pmm.FrameAllocator.AllUsed, Pmm.FrameAllocator.Used;
      hide ClaimedSince, ShortSince, Spent, Pmm.FrameAllocator.FreeCount, PagePaths, PageRange, Needs, Untouched;
      UntouchedNone(space.ram[..], space.Tables());
      ghost var tree0, free0 := space.tree, space.pmm.FreeCount();
      NothingClaimed(HeapPage(start));
      var j := 0;
      while j < n
        invariant j <= n
        invariant Core() && BitsAgree() && ClaimedSince(tree0, free0, HeapPage(start), j)
        invariant OnlyTables() && old(space.pmm.Used()) <= space.pmm.Used()
        invariant forall i: nat :: i in Owned() <==> i in old(Owned()) || start <= i < start + j
        invariant forall vp: nat :: vp in backing <==> vp in old(backing) || HeapPage(start) <= vp < HeapPage(start + j)
        invariant forall vp :: vp in old(backing) ==> backing[vp] == old(backing[vp])
        invariant forall i: nat :: start <= i < start + j ==> backing[HeapPage(i)] !in old(space.pmm.Used())
        invariant forall vq: nat :: vq < PAGES && !(HeapPage(start) <= vq < HeapPage(start + j)) ==> space.Lookup(vq) == old(space.Lookup(vq))
      {
        var idx := start + j;
        ghost var m, tables := space.ram[..], space.Tables();
        var c := ClaimPage(idx, tree0, free0, start, n);
        UntouchedBoth(old(space.ram[..]), m, space.ram[..], tables, space.Tables());
        if c.Halted? {
          ShortOnes(tree0, free0, HeapPage(start), n);
          return c;
        }
        j := j + 1;
      }
      EnoughFor(tree0, free0, HeapPage(start), n);
      ClaimedMeans(tree0, free0, HeapPage(start), n);
      TablesAre();
      return Returned(());
    }

    /** One round of that loop. */
    method ClaimPage(idx: nat, ghost tree0: map<Path, nat>, ghost free0: nat, ghost start: nat, ghost n: nat) returns (r: Halting<()>)
      requires Core() && BitsAgree() && idx < TOTAL && idx !in Owned()
      requires start <= idx < start + n && ClaimedSince(tree0, free0, HeapPage(start), idx - start)
      modifies bitmap, this`backing, space, space.ram, space.pmm.bmp
      ensures r.Halted? ==> r.reason == OutOfFrames && Spent() && backing == old(backing) && ShortSince(tree0, free0, HeapPage(start), n)
      ensures r.Returned? ==> ClaimedSince(tree0, free0, HeapPage(start), idx - start + 1)
      ensures OnlyTables()
      ensures r.Returned? ==>
        && Core() && BitsAgree() && Owned() == old(Owned()) + {idx}
        && HeapPage(idx) in backing && backing == old(backing)[HeapPage(idx) := backing[HeapPage(idx)]]
        && old(space.Tables()) <= space.Tables() && old(space.pmm.Used()) <= space.pmm.Used()
        && HeapPage(idx) !in old(backing) && backing[HeapPage(idx)] !in old(space.pmm.Used())
        && (forall vq: nat :: vq < PAGES && vq != HeapPage(idx) ==> space.Lookup(vq) == old(space.Lookup(vq)))
    {
      hide Core, Bits, AddressSpace.Lookup, AddressSpace.Tables, Pmm.FrameAllocator.AllUsed, Pmm.FrameAllocator.Used;
      hide Vpn, ClaimedSince, ShortSince, Spent, Untouched;
      Sizes();
      PageNumbers(idx);
      assert HeapPage(start) + (idx - start) == HeapPage(idx);
      var m := MapNext(KERNEL_HEAP_START + idx * 4096, tree0, free0, HeapPage(start), idx - start, n);
      if m.Halted? { return Halted(m.reason); }
      if m.value != 0 { return Halted(MappingFailed); }
      BitmapSet(idx);
      return Returned(());
    }

    lemma ShortOnes(tree0: map<Path, nat>, free0: nat, lo: nat, n: nat)
      requires ShortSince(tree0, free0, lo, n)
      ensures free0 < Needs(tree0.Keys, lo, n) && space.tree.Keys <= tree0.Keys + PagePaths(PageRange(lo, n))
    {
      hide Needs, PagePaths, PageRange;
    }

    lemma EnoughFor(tree0: map<Path, nat>, free0: nat, lo: nat, n: nat)
      requires ClaimedSince(tree0, free0, lo, n)
      ensures free0 >= Needs(tree0.Keys, lo, n)
    {
      hide Needs, PagePaths, PageRange, Pmm.FrameAllocator.FreeCount;
    }

    /** One page of vmm_free_pages: kvirt_to_phys, then kunmap and pmm_free_page if it is mapped. */
    method UnmapManaged(virt: word, ghost vp: nat) returns (r: Halting<()>)
      requires Core() && Vpn(virt) == vp && Managed(vp)
      modifies this`backing, space.ram, space.pmm.bmp
      ensures r.Returned? <==> vp in old(backing)
      ensures r.Halted? ==> r.reason == NeverMapped
      ensures r.Returned? ==> Core() && backing == old(backing) - {vp}
      ensures r.Returned? ==> space.pmm.Used() == old(space.pmm.Used()) - {old(backing)[vp]} && OnlyTables()
      ensures r.Returned? ==> forall vq: nat :: vq < PAGES && vq != vp ==> space.Lookup(vq) == old(space.Lookup(vq))
    {
      hide AddressSpace.Valid, AddressSpace.Lookup, AddressSpace.Tables, Pmm.FrameAllocator.AllUsed, Pmm.FrameAllocator.Used, Vpn, FrameOf, Managed;
      hide Mapped, Framed, Untouched;
      BackedPage(vp);
      var p := space.VirtToPhys(virt);
      if p == 0 {
        return Halted(NeverMapped);
      }
      ghost var was, f := backing, backing[vp];
      DropMapping(virt, vp);
      r := space.FreeFrame(p, f);
      RemoveValue(was, vp);
      UnionShrinks(reserved, space.Tables(), was.Values, f);
    }

    /** Its kunmap: exactly that page loses its translation. */
    method DropMapping(virt: word, ghost vp: nat)
      requires Core() && Vpn(virt) == vp && Managed(vp) && vp in backing
      modifies this`backing, space.ram
      ensures space.Valid() && Mapped() && Framed() && OnlyTables() && backing == old(backing) - {vp}
      ensures forall vq: nat :: vq < PAGES && vq != vp ==> space.Lookup(vq) == old(space.Lookup(vq))
    {
      hide AddressSpace.Valid, AddressSpace.Lookup, AddressSpace.Tables, Pmm.FrameAllocator.AllUsed, Pmm.FrameAllocator.Used, Vpn, FrameOf, Managed, Partitioned, Untouched;
      ManagedPages();
      var rc := space.UnmapPage(virt);
      backing := backing - {vp};
    }

    lemma BackedPage(vp: nat)
      requires Core() && Managed(vp)
      ensures vp in backing <==> space.Lookup(vp).Some?
      ensures vp in backing ==>
        && FrameOf(space.Lookup(vp).value) == backing[vp] && backing[vp] != 0
        && backing[vp] in space.pmm.Used() && backing[vp] !in space.Tables()
    {
      hide AddressSpace.Valid, AddressSpace.Lookup, AddressSpace.Tables, Pmm.FrameAllocator.AllUsed, Pmm.FrameAllocator.Used, FrameOf, Managed;
    }

    /** One round of vmm_free_pages. */
    method ReleasePage(addr: word, idx: nat) returns (r: Halting<()>)
      requires Core() && BitsAgree() && idx <= TOTAL && Vpn(addr) == HeapPage(idx)
      modifies this`backing, bitmap, space.ram, space.pmm.bmp
      ensures r.Returned? <==> idx in old(Owned())
      ensures r.Halted? ==> r.reason == NeverMapped
      ensures r.Returned? ==>
        && Core() && BitsAgree() && Owned() == old(Owned()) - {idx}
        && backing == old(backing) - {HeapPage(idx)} && OnlyTables()
        && (forall vq: nat :: vq < PAGES && vq != HeapPage(idx) ==> space.Lookup(vq) == old(space.Lookup(vq)))
    {
      hide Core, Bits, AddressSpace.Lookup, AddressSpace.Tables, Pmm.FrameAllocator.AllUsed, Pmm.FrameAllocator.Used, Vpn;
      Sizes();
      OwnedInRange();
      var u := UnmapManaged(addr, HeapPage(idx));
      if u.Halted? { return u; }
      BitmapClear(idx);
      return Returned(());
    }

    /** vmm_free_pages: refuses what its bounds check refuses, frees a run of mapped pages, and halts
        at the first page of the range that is not mapped. */
    method FreePages(v: word, n: word) returns (r: Halting<int>)
      requires Valid() && (Accepts(v, n) ==> v <= HEAP_END)
      modifies this`backing, bitmap, space.ram, space.pmm.bmp
      ensures var s := (v - KERNEL_HEAP_START) / 4096;
        && (r == Returned(-1) <==> !Accepts(v, n))
        && (!Accepts(v, n) ==> Valid() && backing == old(backing) && Owned() == old(Owned()))
        && (Accepts(v, n) ==> (r == Returned(0) <==> forall i: nat :: s <= i < s + n ==> i in old(Owned())))
        && (r.Halted? ==> r.reason == NeverMapped)
        && (r == Returned(0) ==>
             && Valid() && s >= 0 && Dropped(old(Now()), Now(), s, n)
             && (forall vq: nat :: vq < PAGES && !(HeapPage(s) <= vq < HeapPage(s + n)) ==> space.Lookup(vq) == old(space.Lookup(vq)))
             && (old(StackReady()) ==> StackReady()))
    {
      hide Core, BitsAgree, Bits, AddressSpace.Lookup, AddressSpace.Tables, Pmm.FrameAllocator.AllUsed, Pmm.FrameAllocator.Used, Vpn, Untouched;
      if v < KERNEL_HEAP_START || (v + n * 4096 % U64) % U64 > KERNEL_HEAP_START + KERNEL_HEAP_SIZE {
        return Returned(-1);
      }
      var start := (v - KERNEL_HEAP_START) / 4096;
      OwnedInRange();
      UntouchedNone(space.ram[..], space.Tables());
      for i := 0 to n
        invariant start + i <= TOTAL
        invariant Core() && BitsAgree() && OnlyTables()
        invariant forall k: nat :: start <= k < start + i ==> k in old(Owned())
        invariant forall k: nat :: k in Owned() <==> k in old(Owned()) && !(start <= k < start + i)
        invariant forall vp :: vp in backing <==> vp in old(backing) && !(HeapPage(start) <= vp < HeapPage(start + i))
        invariant forall vp :: vp in backing ==> backing[vp] == old(backing[vp])
        invariant forall vq: nat :: vq < PAGES && !(HeapPage(start) <= vq < HeapPage(start + i)) ==> space.Lookup(vq) == old(space.Lookup(vq))
      {
        var addr := v + i * 4096;
        HeapPageOf(v, start, i);
        ghost var m, tables := space.ram[..], space.Tables();
        var u := ReleasePage(addr, start + i);
        if u.Halted? { return Halted(u.reason); }
        UntouchedBoth(old(space.ram[..]), m, space.ram[..], tables, space.Tables());
      }
      TablesAre();
      return Returned(0);
    }

    /** Allocating a run and freeing it again restores the heap and every translation; the frames
        then in use are those from before and the page tables created on the way. */
    method AllocThenFree(n: nat) returns (r: Halting<int>)
      requires Valid()
      modifies Footprint()
      ensures r == Halted(HeapExhausted) <==> Exhausted(old(Owned()), n, old(last))
      ensures r == Halted(OutOfFrames) <==> Scarce(old(Now()), space.pmm.MaxPages(), n)
      ensures r.Halted? ==> r.reason == HeapExhausted || (r.reason == OutOfFrames && Spent())
      ensures r.Returned? ==>
        && r.value == 0 && Valid() && Visited(old(Now()), Now(), n) && Owned() == old(Owned()) && backing == old(backing)
        && space.pmm.Used() == old(space.pmm.Used()) + space.Tables()
        && forall vq: nat :: vq < PAGES ==> space.Lookup(vq) == old(space.Lookup(vq))
    {
      hide Core, BitsAgree, Bits, AddressSpace.Lookup, AddressSpace.Tables, Pmm.FrameAllocator.AllUsed, Pmm.FrameAllocator.Used, NextFit, Exhausted, Managed;
      hide Accepts, Spent, StackReady, Guard, Scarce, Claimed, Stranded, Backed, Dropped, Grown, Visited;
      UsedFrames();
      UnmappedPages();
      OwnedInRange();
      ghost var was := Now();
      var a := AllocPages(n);
      if a.Halted? { return Halted(a.reason); }
      ghost var s, taken := (a.value - KERNEL_HEAP_START) / 4096, Now();
      GrownRun(was, taken, s, n);
      RunAccepted(s, n);
      r := FreePages(a.value, n);
      GrownDropped(was, taken, Now(), s, n);
      UsedFrames();
      UnmappedPages();
    }

    /** The pages of the heap that are not in use, as virtual pages. */
    lemma UnmappedPages()
      requires Valid()
      ensures forall vp: nat :: HeapPage(0) <= vp < HeapPage(TOTAL) && vp - HeapPage(0) !in Owned() ==> vp !in backing && space.Lookup(vp) == None
    {
      hide Core, BitsAgree, Owned, AddressSpace.Lookup;
      HeapUnmapped();
      forall vp: nat | HeapPage(0) <= vp < HeapPage(TOTAL) && vp - HeapPage(0) !in Owned() ensures vp !in backing && space.Lookup(vp) == None {
        assert vp == HeapPage(vp - HeapPage(0));
      }
    }

    lemma BooksBalanced()
      requires Valid()
      ensures Balanced(Now(), reserved)
    {
      hide AddressSpace.Valid, Mapped, Framed, BitsAgree, Owned, InHeap, Managed, Guard, Pmm.FrameAllocator.Used;
      HeapBacked();
    }

    lemma HeapBacked()
      requires BitsAgree()
      ensures forall vp: nat :: InHeap(vp) ==> (vp in backing <==> vp - HeapPage(0) in Owned())
    {
      hide Owned;
      forall vp: nat | InHeap(vp) ensures vp in backing <==> vp - HeapPage(0) in Owned() {
        assert vp == HeapPage(vp - HeapPage(0));
      }
    }

    lemma UsedFrames()
      requires Core()
      ensures space.pmm.Used() == reserved + space.Tables() + backing.Values
    {
    }

    /** The stack of the kernel: 1024 pages above an unmapped guard page. */
    ghost predicate StackReady()
      reads `backing
    {
      forall i: nat :: 1 <= i <= STACK_PAGES ==> StackPage(i) in backing
    }

    /** What holds from the end of kernel_stage1 on. */
    ghost predicate Ready()
      reads this, bitmap, space, space.ram, space.pmm.bmp
    {
      Valid() && StackReady()
    }

    /** In every such state the guard page is unmapped, and all pages of the stack are mapped, to
        distinct frames in use. */
    lemma StackIsGuarded()
      requires Ready()
      ensures space.Lookup(StackPage(0)) == None
      ensures forall i: nat :: 1 <= i <= STACK_PAGES ==>
        space.Lookup(StackPage(i)).Some? && FrameOf(space.Lookup(StackPage(i)).value) in space.pmm.Used() - {0}
      ensures forall i: nat, j: nat :: 1 <= i < j <= STACK_PAGES ==>
        space.Lookup(StackPage(i)).Some? && space.Lookup(StackPage(j)).Some? &&
        FrameOf(space.Lookup(StackPage(i)).value) != FrameOf(space.Lookup(StackPage(j)).value)
    {
      hide AddressSpace.Valid, AddressSpace.Lookup, AddressSpace.Tables, Pmm.FrameAllocator.AllUsed, Pmm.FrameAllocator.Used, Bits, FrameOf;
      assert Managed(StackPage(0));
      forall i: nat | 1 <= i <= STACK_PAGES
        ensures space.Lookup(StackPage(i)).Some? && FrameOf(space.Lookup(StackPage(i)).value) == backing[StackPage(i)]
      {
        assert Managed(StackPage(i));
      }
    }

    lemma ClaimedMeans(tree0: map<Path, nat>, free0: nat, lo: nat, n: nat)
      requires ClaimedSince(tree0, free0, lo, n)
      ensures space.tree.Keys == tree0.Keys + PagePaths(PageRange(lo, n)) && forall q :: q in tree0 ==> q in space.tree && space.tree[q] == tree0[q]
      ensures space.pmm.FreeCount() == free0 - Needs(tree0.Keys, lo, n)
    {
      hide Needs, PagePaths, PageRange, Pmm.FrameAllocator.FreeCount;
    }

    /** The first loop of vmm_init. */
    method BackBitmap(ghost tree0: map<Path, nat>, ghost free0: nat) returns (r: Halting<()>)
      requires Core() && backing == map[] && ClaimedSince(tree0, free0, BitmapPage(0), 0)
      modifies this`backing, space, space.ram, space.pmm.bmp
      ensures r.Halted? ==> r.reason == OutOfFrames && Spent() && ShortSince(tree0, free0, BitmapPage(0), BITMAP_PAGES)
      ensures r.Returned? ==>
        && Core() && ClaimedSince(tree0, free0, BitmapPage(0), BITMAP_PAGES) && OnlyTables()
        && (forall vp :: vp in backing <==> BitmapPage(0) <= vp < BitmapPage(BITMAP_PAGES))
        && (forall vq: nat :: vq < PAGES && !(BitmapPage(0) <= vq < BitmapPage(BITMAP_PAGES)) ==> space.Lookup(vq) == old(space.Lookup(vq)))
    {
      hide Core, Bits, AddressSpace.Lookup, AddressSpace.Tables, Pmm.FrameAllocator.AllUsed, Pmm.FrameAllocator.Used;
      hide ClaimedSince, ShortSince, Spent, Pmm.FrameAllocator.FreeCount, Needs, PageRange, PagePaths, Vpn, Untouched;
      UntouchedNone(space.ram[..], space.Tables());
      var pages := (KERNEL_HEAP_BITMAP_SIZE + 4096 - 1) / 4096;
      for i := 0 to pages
        invariant Core() && ClaimedSince(tree0, free0, BitmapPage(0), i) && OnlyTables()
        invariant forall vp :: vp in backing <==> BitmapPage(0) <= vp < BitmapPage(i)
        invariant forall vq: nat :: vq < PAGES && !(BitmapPage(0) <= vq < BitmapPage(i)) ==> space.Lookup(vq) == old(space.Lookup(vq))
      {
        PageNumbers(i);
        assert BitmapPage(0) + i == BitmapPage(i);
        ghost var m, tables := space.ram[..], space.Tables();
        var c := MapNext(VMM_BITMAP_VIRT_START + i * 4096, tree0, free0, BitmapPage(0), i, BITMAP_PAGES);
        if c.Halted? { return Halted(c.reason); }
        UntouchedBoth(old(space.ram[..]), m, space.ram[..], tables, space.Tables());
      }
      return Returned(());
    }

    /** vmm_setup_stack. */
    method SetupStack() returns (r: Halting<nat>)
      requires Valid() && forall i: nat :: i <= STACK_PAGES ==> StackPage(i) !in backing
      modifies this`backing, space, space.ram, space.pmm.bmp
      ensures r.Halted? <==> old(space.pmm.FreeCount()) < Needs(old(space.tree.Keys), StackPage(1), STACK_PAGES)
      ensures r.Halted? ==> r.reason == OutOfFrames && Spent() && ShortSince(old(space.tree), old(space.pmm.FreeCount()), StackPage(1), STACK_PAGES)
      ensures r.Returned? ==> Claimed(StackPage(1), STACK_PAGES) && OnlyTables()
      ensures r.Halted? ==> forall vp :: vp in backing ==> vp in old(backing) || StackPage(1) <= vp <= StackPage(STACK_PAGES)
      ensures r.Returned? ==>
        && Valid() && StackReady() && r.value == KERNEL_STACK_RANGE_START + KERNEL_STACK_GUARD + KERNEL_STACK_SIZE
        && (forall vp :: vp in backing <==> vp in old(backing) || StackPage(1) <= vp <= StackPage(STACK_PAGES))
        && (forall vp :: vp in old(backing) ==> backing[vp] == old(backing[vp]))
        && (forall vq: nat :: vq < PAGES && !(StackPage(1) <= vq <= StackPage(STACK_PAGES)) ==> space.Lookup(vq) == old(space.Lookup(vq)))
    {
      hide Core, BitsAgree, Bits, AddressSpace.Lookup, AddressSpace.Tables, Pmm.FrameAllocator.AllUsed, Pmm.FrameAllocator.Used;
      hide ClaimedSince, ShortSince, Spent, Pmm.FrameAllocator.FreeCount, Needs, PageRange, PagePaths;
      ghost var tree0, free0 := space.tree, space.pmm.FreeCount();
      var base := KERNEL_STACK_RANGE_START + KERNEL_STACK_GUARD;
      var m := MapStack(base, tree0, free0);
      if m.Halted? {
        ShortOnes(tree0, free0, StackPage(1), STACK_PAGES);
        return Halted(m.reason);
      }
      EnoughFor(tree0, free0, StackPage(1), STACK_PAGES);
      return Returned(base + KERNEL_STACK_SIZE);
    }

    /** Its loop. */
    method MapStack(base: nat, ghost tree0: map<Path, nat>, ghost free0: nat) returns (r: Halting<()>)
      requires base == KERNEL_STACK_RANGE_START + KERNEL_STACK_GUARD && tree0 == space.tree && free0 == space.pmm.FreeCount()
      requires forall i: nat :: i <= STACK_PAGES ==> StackPage(i) !in backing
      requires Core() && BitsAgree()
      modifies this`backing, space, space.ram, space.pmm.bmp
      ensures r.Halted? ==> r.reason == OutOfFrames && Spent() && ShortSince(tree0, free0, StackPage(1), STACK_PAGES)
      ensures r.Halted? ==> forall vp :: vp in backing ==> vp in old(backing) || StackPage(1) <= vp <= StackPage(STACK_PAGES)
      ensures r.Returned? ==>
        && Core() && BitsAgree() && ClaimedSince(tree0, free0, StackPage(1), STACK_PAGES) && OnlyTables()
        && (forall vp :: vp in backing <==> vp in old(backing) || StackPage(1) <= vp <= StackPage(STACK_PAGES))
        && (forall vp :: vp in old(backing) ==> backing[vp] == old(backing[vp]))
        && (forall vq: nat :: vq < PAGES && !(StackPage(1) <= vq <= StackPage(STACK_PAGES)) ==> space.Lookup(vq) == old(space.Lookup(vq)))
    {
      hide Core, BitsAgree, Bits, AddressSpace.Lookup, AddressSpace.Tables, Pmm.FrameAllocator.AllUsed, Pmm.FrameAllocator.Used;
      hide ClaimedSince, ShortSince, Spent, Pmm.FrameAllocator.FreeCount, Needs, PageRange, PagePaths, Untouched;
      UntouchedNone(space.ram[..], space.Tables());
      NothingClaimed(StackPage(1));
      var i := 0;
      ghost var n: nat := 0;
      while i < KERNEL_STACK_SIZE
        invariant i == 4096 * n && n <= STACK_PAGES
        invariant Core() && BitsAgree() && ClaimedSince(tree0, free0, StackPage(1), n) && OnlyTables()
        invariant forall vp :: vp in backing <==> vp in old(backing) || StackPage(1) <= vp < StackPage(1 + n)
        invariant forall vp :: vp in old(backing) ==> backing[vp] == old(backing[vp])
        invariant forall vq: nat :: vq < PAGES && !(StackPage(1) <= vq < StackPage(1 + n)) ==> space.Lookup(vq) == old(space.Lookup(vq))
      {
        assert StackPage(1 + n) !in old(backing);
        ghost var m, tables := space.ram[..], space.Tables();
        r := ClaimStackPage(base + i, 1 + n, tree0, free0);
        if r.Halted? { return; }
        UntouchedBoth(old(space.ram[..]), m, space.ram[..], tables, space.Tables());
        i := i + 4096;
        n := n + 1;
      }
      return Returned(());
    }

    /** One round of its loop. */
    method ClaimStackPage(virt: word, ghost i: nat, ghost tree0: map<Path, nat>, ghost free0: nat) returns (r: Halting<()>)
      requires 1 <= i <= STACK_PAGES && virt == KERNEL_STACK_RANGE_START + 4096 * i && StackPage(i) !in backing
      requires ClaimedSince(tree0, free0, StackPage(1), i - 1)
      requires Core() && BitsAgree()
      modifies this`backing, space, space.ram, space.pmm.bmp
      ensures r.Halted? ==> r.reason == OutOfFrames && Spent() && backing == old(backing) && ShortSince(tree0, free0, StackPage(1), STACK_PAGES)
      ensures r.Returned? ==> ClaimedSince(tree0, free0, StackPage(1), i)
      ensures OnlyTables()
      ensures r.Returned? ==>
        && Core() && BitsAgree()
        && StackPage(i) in backing && backing == old(backing)[StackPage(i) := backing[StackPage(i)]]
        && (forall vq: nat :: vq < PAGES && vq != StackPage(i) ==> space.Lookup(vq) == old(space.Lookup(vq)))
    {
      hide Core, Bits, AddressSpace.Lookup, AddressSpace.Tables, Pmm.FrameAllocator.AllUsed, Pmm.FrameAllocator.Used;
      hide Vpn, ClaimedSince, ShortSince, Spent, Untouched;
      Sizes();
      PageNumbers(i);
      assert StackPage(1) + (i - 1) == StackPage(i);
      var m := MapNext(virt, tree0, free0, StackPage(1), i - 1, STACK_PAGES);
      if m.Halted? { return Halted(m.reason); }
      if m.value != 0 { return Halted(MappingFailed); }
      return Returned(());
    }

    /** A heap page whose bit is clear is unmapped. */
    lemma HeapUnmapped()
      requires Valid()
      ensures forall i: nat :: i < TOTAL && i !in Owned() ==> HeapPage(i) !in backing && space.Lookup(HeapPage(i)) == None
    {
      hide AddressSpace.Valid, AddressSpace.Lookup, Bits, Partitioned;
      assert forall i: nat :: i < TOTAL ==> Managed(HeapPage(i));
    }

    /** Where byte a of a mapped page lies in physical memory. */
    ghost function PhysicalOf(a: word): nat
      requires space.Lookup(Vpn(a)).Some?
      reads space, space.ram
    {
      4096 * FrameOf(space.Lookup(Vpn(a)).value) + a % 4096
    }

    /** An address in the heap's range, or up to a page below, is mapped exactly when its page is in
        use; then it is writable, and its frame is in use and neither reserved nor a table. */
    lemma HeapByte(a: nat)
      requires Valid() && KERNEL_HEAP_START - 4096 <= a < HEAP_END
      ensures a < U64
      ensures space.Lookup(Vpn(a)).Some? <==> a >= KERNEL_HEAP_START && (a - KERNEL_HEAP_START) / 4096 in Owned()
      ensures space.Lookup(Vpn(a)).Some? ==>
        var f := FrameOf(space.Lookup(Vpn(a)).value);
        && space.Lookup(Vpn(a)) == Some(4096 * f + 3) && f != 0 && f in space.pmm.Used() && f !in reserved && f !in space.Tables()
    {
      hide AddressSpace.Valid, AddressSpace.Lookup, AddressSpace.Tables, Pmm.FrameAllocator.AllUsed, Pmm.FrameAllocator.Used, Bits, FrameOf, Vpn;
      BytePage(a);
      assert Managed(Vpn(a));
      if a >= KERNEL_HEAP_START {
        assert Vpn(a) in backing <==> (a - KERNEL_HEAP_START) / 4096 in Owned();
      }
    }

    /** Different mapped addresses of the heap are different bytes of memory. */
    lemma HeapBytesApart(a: nat, b: nat)
      requires Valid() && KERNEL_HEAP_START <= a < HEAP_END && KERNEL_HEAP_START <= b < HEAP_END && a != b
      requires space.Lookup(Vpn(a)).Some? && space.Lookup(Vpn(b)).Some?
      ensures PhysicalOf(a) != PhysicalOf(b)
    {
      hide AddressSpace.Valid, AddressSpace.Lookup, AddressSpace.Tables, Pmm.FrameAllocator.AllUsed, Pmm.FrameAllocator.Used, Bits, FrameOf, Vpn;
      hide Managed, Mapped, BitsAgree, HeapPage;
      HeapPageManaged(a);
      HeapPageManaged(b);
      BackedPage(Vpn(a));
      BackedPage(Vpn(b));
      if Vpn(a) == Vpn(b) { SamePage(a, b); }
      ApartInFrames(FrameOf(space.Lookup(Vpn(a)).value), a % 4096, FrameOf(space.Lookup(Vpn(b)).value), b % 4096);
    }

    /** No page of the heap that is not in use is backed. */
    lemma FreePagesUnbacked()
      requires Valid()
      ensures forall vp: nat :: HeapPage(0) <= vp < HeapPage(TOTAL) && vp - HeapPage(0) !in Now().owned ==> vp !in Now().backing
    {
      hide Core, Owned;
      UnmappedPages();
    }

    lemma OwnedInRange()
      requires Core()
      ensures (forall i: nat :: i in Owned() ==> i < TOTAL) && HeapPage(TOTAL) !in backing
    {
    }
  }

  /** vmm_init: back the bitmap's own pages, then clear every byte of it. */
  method VmmInit(space: AddressSpace) returns (r: Halting<RangeAllocator>)
    requires space.Valid() && 0 in space.pmm.Used() - space.Tables()
    requires forall vp: nat :: Managed(vp) ==> space.Lookup(vp) == None
    modifies space, space.ram, space.pmm.bmp
    ensures r.Halted? <==> old(space.pmm.FreeCount()) < Needs(old(space.tree.Keys), BitmapPage(0), BITMAP_PAGES)
    ensures r.Halted? ==> r.reason == OutOfFrames && space.pmm.AllUsed()
    ensures space.tree.Keys <= old(space.tree.Keys) + PagePaths(PageRange(BitmapPage(0), BITMAP_PAGES))
    ensures r.Returned? ==>
      && space.tree.Keys == old(space.tree.Keys) + PagePaths(PageRange(BitmapPage(0), BITMAP_PAGES))
      && space.pmm.FreeCount() == old(space.pmm.FreeCount()) - Needs(old(space.tree.Keys), BitmapPage(0), BITMAP_PAGES)
      && Untouched(old(space.ram[..]), space.ram[..], space.Tables()) && old(space.Tables()) <= space.Tables()
      && forall vp: nat :: r.value.outside(vp) == old(space.Lookup(vp))
    ensures r.Returned? ==>
      var a := r.value;
      && fresh(a) && fresh(a.bitmap) && a.space == space && a.Valid() && a.Owned() == {} && a.last == 0
      && a.reserved == old(space.pmm.Used() - space.Tables())
      && (forall vp :: vp in a.backing <==> BitmapPage(0) <= vp < BitmapPage(BITMAP_PAGES))
      && (forall vq: nat :: vq < PAGES && !(BitmapPage(0) <= vq < BitmapPage(BITMAP_PAGES)) ==> space.Lookup(vq) == old(space.Lookup(vq)))
  {
    hide RangeAllocator.Core, Bits, AddressSpace.Lookup, AddressSpace.Tables, AddressSpace.Valid, Pmm.FrameAllocator.AllUsed, Pmm.FrameAllocator.Used;
    hide RangeAllocator.ClaimedSince, RangeAllocator.ShortSince, RangeAllocator.AllButOne, Pmm.FrameAllocator.FreeCount, Needs, PageRange, PagePaths;
    ghost var tree0, free0 := space.tree, space.pmm.FreeCount();
    var a := new RangeAllocator(space);
    a.Sizes();
    a.NothingClaimed(BitmapPage(0));
    var m := a.BackBitmap(tree0, free0);
    if m.Halted? {
      a.ShortOnes(tree0, free0, BitmapPage(0), BITMAP_PAGES);
      return Halted(m.reason);
    }
    a.EnoughFor(tree0, free0, BitmapPage(0), BITMAP_PAGES);
    a.ClaimedMeans(tree0, free0, BitmapPage(0), BITMAP_PAGES);
    for i := 0 to KERNEL_HEAP_BITMAP_SIZE
      modifies a.bitmap
      invariant forall k: nat | k < i :: a.bitmap[k] == 0
    {
      a.bitmap[i] := 0;
    }
    AllZeros(a.bitmap[..]);
    return Returned(a);
  }

  /** The bounds check of vmm_free_pages, in 64-bit arithmetic. */
  predicate Accepts(v: word, n: word) {
    KERNEL_HEAP_START <= v && (v + n * 4096 % U64) % U64 <= HEAP_END
  }

  /** The check accepts exactly the ranges inside the heap, unless the end of the range wraps to an
      address not above the heap. */
  lemma AcceptsExact(v: word, n: word)
    ensures (Accepts(v, n) <==> KERNEL_HEAP_START <= v && v + n * 4096 <= HEAP_END) <==>
            (v < KERNEL_HEAP_START || v + n * 4096 < U64 || (v + n * 4096) % U64 > HEAP_END)
  {
    assert (v + n * 4096 % U64) % U64 == (v + n * 4096) % U64;
  }

  lemma RunAccepted(s: nat, n: nat)
    requires s + n <= TOTAL
    ensures n < U64 && Accepts(KERNEL_HEAP_START + 4096 * s, n)
  {
  }

  /** A range that starts at the first stack page and wraps is accepted. */
  lemma BoundsCheckFooled()
    ensures Accepts(0xFFFF_D000_0000_1000, 0xF_FFFF_01FF_FFFF)
    ensures KERNEL_STACK_RANGE_START + KERNEL_STACK_GUARD == 0xFFFF_D000_0000_1000 > HEAP_END
  {
  }

  /** The pages of a range that starts anywhere inside page `start`, up to the one after the heap. */
  lemma HeapPageOf(v: nat, start: nat, i: nat)
    requires KERNEL_HEAP_START <= v && start == (v - KERNEL_HEAP_START) / 4096 && start + i <= TOTAL
    ensures v + i * 4096 < U64 && Vpn(v + i * 4096) == HeapPage(start + i)
  {
    assert (v + i * 4096) / 4096 == 0xF_FFFC_0000_0000 + start + i;
  }

  /** The page of a heap address, and of one up to a page below the heap. */
  lemma BytePage(a: nat)
    requires KERNEL_HEAP_START - 4096 <= a < HEAP_END
    ensures a < U64
    ensures a >= KERNEL_HEAP_START ==> (a - KERNEL_HEAP_START) / 4096 < TOTAL && Vpn(a) == HeapPage((a - KERNEL_HEAP_START) / 4096)
    ensures a < KERNEL_HEAP_START ==> Vpn(a) == HeapPage(0) - 1
  {
    if a >= KERNEL_HEAP_START {
      var i := (a - KERNEL_HEAP_START) / 4096;
      PageNumber(a, i, (a - KERNEL_HEAP_START) % 4096);
    } else {
      PageNumber(a, -1, a - (KERNEL_HEAP_START - 4096));
    }
  }

  lemma HeapPageManaged(a: nat)
    requires KERNEL_HEAP_START <= a < HEAP_END
    ensures a < U64 && Managed(Vpn(a))
  {
    hide Vpn;
    BytePage(a);
  }

  /** Two addresses of one page that differ, differ in their offsets. */
  lemma SamePage(a: nat, b: nat)
    requires KERNEL_HEAP_START <= a < HEAP_END && KERNEL_HEAP_START <= b < HEAP_END
    requires a < U64 && b < U64 && Vpn(a) == Vpn(b) && a != b
    ensures a % 4096 != b % 4096
  {
    hide Vpn;
    BytePage(a);
    BytePage(b);
    Offset(a - KERNEL_HEAP_START);
    Offset(b - KERNEL_HEAP_START);
  }

  lemma Offset(x: nat)
    ensures x == x / 4096 * 4096 + (KERNEL_HEAP_START + x) % 4096
  {
  }

  lemma ApartInFrames(f: nat, x: nat, g: nat, y: nat)
    requires x < 4096 && y < 4096 && (f != g || x != y)
    ensures 4096 * f + x != 4096 * g + y
  {
  }

  lemma PageNumber(a: nat, i: int, r: nat)
    requires a == KERNEL_HEAP_START + 4096 * i + r && r < 4096 && -1 <= i < TOTAL
    ensures a < U64 && Vpn(a) == HeapPage(0) + i
  {
    Quotient(a, 0xF_FFFC_0000_0000 + i, r);
    Residue(0xF_FFFC_0000_0000 + i, 0xC_0000_0000 + i);
  }

  lemma Quotient(a: nat, q: nat, r: nat)
    requires a == 4096 * q + r && r < 4096
    ensures a / 4096 == q
  {
  }

  lemma Residue(q: nat, r: nat)
    requires q == 0xF_FFF0_0000_0000 + r && r < 0x10_0000_0000
    ensures q % 0x10_0000_0000 == r
  {
    assert q == 0x10_0000_0000 * 0xFFFF + r;
  }

  /** Dropping a key of an injective map drops exactly its value. */
  lemma RemoveValue(m: map<nat, nat>, k: nat)
    requires k in m && forall i, j :: i in m && j in m && m[i] == m[j] ==> i == j
    ensures (m - {k}).Values == m.Values - {m[k]}
  {
    var m' := m - {k};
    forall u | u in m.Values - {m[k]} ensures u in m'.Values {
      var i :| i in m && m[i] == u;
      assert m'[i] == u;
    }
  }

  lemma RunFits(b: set<nat>, n: nat, last: nat, s: nat)
    requires NextFit(b, n, last, s) && last <= TOTAL
    ensures s + n <= TOTAL && FreeRun(b, s, n)
  {
  }

  /** The bookkeeping of one new backed page: f was free, and the tables may have grown by frames
      free after f was taken. */
  lemma UnionGrows(reserved: set<nat>, tables: set<nat>, tables': set<nat>, frames: set<nat>, f: nat, used1: set<nat>, used2: set<nat>)
    requires used1 == reserved + tables + frames + {f} && f !in reserved + tables + frames
    requires reserved !! tables && reserved !! frames && tables !! frames
    requires used2 == used1 + tables' && tables <= tables' && (tables' - tables) !! used1
    ensures used2 == reserved + tables' + (frames + {f})
    ensures reserved !! tables' && reserved !! (frames + {f}) && tables' !! (frames + {f})
  {
  }

  lemma UnionShrinks(reserved: set<nat>, tables: set<nat>, frames: set<nat>, f: nat)
    requires f in frames && reserved !! frames && tables !! frames
    ensures reserved + tables + frames - {f} == reserved + tables + (frames - {f})
    ensures reserved !! (frames - {f}) && tables !! (frames - {f})
  {
  }

  lemma FreshLeaf(f: nat)
    requires f < 0x100_0000_0000
    ensures 4096 * f < U64
    ensures Leaf(LeafWord(4096 * f, ReadWrite())).Some? && FrameOf(Leaf(LeafWord(4096 * f, ReadWrite())).value) == f
    ensures LeafWord(4096 * f, ReadWrite()) == 4096 * f + 3
  {
    hide ReadWrite, LeafWord;
    FrameOfPage(f);
  }

  /** PAGE_PRESENT | PAGE_WRITE. */
  function ReadWrite(): (flags: word)
    ensures IsPresent(flags) && FrameOf(flags) == 0 && flags == 3
  {
    OrFlag(PAGE_PRESENT, PAGE_WRITE);
    Or(PAGE_PRESENT, PAGE_WRITE)
  }

  lemma EmptyWindow(b: set<nat>, n: nat, lo: nat)
    ensures n > 0 ==> NoRun(b, n, lo, lo)
    ensures FreeRun(b, lo, 0)
  {
  }

  lemma EmptyRun(b: set<nat>, s: nat)
    ensures FreeRun(b, s, 0)
  {
  }

  lemma RunGrows(b: set<nat>, i: nat, found: nat)
    requires found <= i && FreeRun(b, i - found, found) && i !in b
    ensures FreeRun(b, i - found, found + 1)
  {
  }

  /** Next fit takes one run. */
  lemma OneFit(b: set<nat>, n: nat, last: nat, s: nat, t: nat)
    requires NextFit(b, n, last, s) && NextFit(b, n, last, t)
    ensures s == t
  {
    hide FreeRun;
  }

  lemma NoFit(b: set<nat>, n: nat, last: nat)
    ensures Exhausted(b, n, last) && n > 0 ==> forall s: nat :: !NextFit(b, n, last, s)
  {
    hide FreeRun;
  }

  /** The first run completed is the lowest one of the window. */
  lemma LowestFound(b: set<nat>, n: nat, lo: nat, i: nat, s: nat)
    requires NoRun(b, n, lo, i) && lo <= s && s + n == i + 1 && FreeRun(b, s, n)
    ensures forall hi: nat | i < hi :: LowestRun(b, n, lo, hi, s)
    ensures forall hi: nat | i < hi :: !NoRun(b, n, lo, hi)
  {
  }
}
