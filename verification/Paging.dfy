/** Mapping and unmapping pages in the kernel's address space, kernel/mm/paging.c. */
module Paging {
  import opened Words
  import opened Machine
  import opened PageTable
  import opened Demand
  import Bitmaps
  import Pmm

  const PAGES: nat := 0x10_0000_0000   // virtual pages: 2^36

  /** Physical memory as the kernel addresses it: an array of 64-bit words, the word at physical
      address a being word a / 8. */
  class AddressSpace {
    const pmm: Pmm.FrameAllocator
    const ram: array<word>
    var kernelPml4: nat
    ghost var tree: map<Path, nat>

    ghost predicate Valid()
      reads this, ram, pmm.bmp
    {
      && pmm.Valid() && pmm.MaxPages() <= 0x100_0000_0000 && 512 * pmm.MaxPages() <= ram.Length
      && (pmm.bmp as object) != ram
      && 0 in pmm.Used()
      && kernelPml4 % 4096 == 0 && TreeOk(ram[..], kernelPml4 / 4096, tree)
      && Tables() <= pmm.Used()
    }

    /** The frames that hold page tables. */
    ghost function Tables(): set<nat>
      reads this
    {
      tree.Values
    }

    /** What the processor finds for a virtual page. */
    ghost function Lookup(vp: nat): Option<word>
      reads this, ram
    {
      Walk(ram[..], kernelPml4 / 4096, vp)
    }

    constructor (pmm: Pmm.FrameAllocator, ram: array<word>, root: nat, ghost f: nat)
      requires root == 4096 * f && pmm.Valid() && pmm.MaxPages() <= 0x100_0000_0000 && 512 * pmm.MaxPages() <= ram.Length
      requires (pmm.bmp as object) != ram && 0 in pmm.Used() && f in pmm.Used()
      requires 0 < f < pmm.MaxPages()
      requires forall k: nat | 512 * f <= k < 512 * f + 512 :: ram[k] == 0
      ensures Valid() && this.pmm == pmm && this.ram == ram && kernelPml4 == root && Tables() == {f} && tree.Keys == {Root}
      ensures forall vp: nat :: Lookup(vp) == None
    {
      this.pmm := pmm;
      this.ram := ram;
      kernelPml4 := root;
      tree := map[Root := f];
      new;
      hide Walk, TreeOk, Pmm.FrameAllocator.Valid, Pmm.FrameAllocator.MaxPages, Pmm.FrameAllocator.Used;
      FrameStart(f);
      RootAlone(ram[..], f);
    }

    /** The frames in use are those from before and the tables; new tables took unused frames, and
        nothing was written elsewhere. */
    twostate predicate TablesAdded()
      reads this, ram, pmm.bmp
    {
      && Untouched(old(ram[..]), ram[..], Tables())
      && pmm.Used() == old(pmm.Used()) + Tables()
      && old(Tables()) <= Tables() && (Tables() - old(Tables())) !! old(pmm.Used())
    }

    /** Exactly the tables on the way to these pages were made, each from a free frame. */
    twostate predicate Charged(pages: set<nat>)
      reads this, pmm.bmp
    {
      && tree.Keys == old(tree.Keys) + PagePaths(pages)
      && pmm.FreeCount() == old(pmm.FreeCount()) - Cost(old(tree.Keys), pages)
    }

    /** The table an upper entry points to, created empty when there is none. */
    method GetNextTable(ghost p: Path, table: nat, index: nat) returns (r: Halting<nat>)
      requires Valid() && p in tree && Depth(p) < 3 && index < 512 && table == 4096 * tree[p]
      modifies this`tree, ram, pmm.bmp
      ensures r.Halted? <==> Sub(p, index) !in old(tree) && old(pmm.FreeCount()) == 0
      ensures r.Halted? ==> r.reason == OutOfFrames && pmm.AllUsed() && tree == old(tree)
      ensures r.Returned? ==> tree.Keys == old(tree.Keys) + {Sub(p, index)} && r.value == 4096 * tree[Sub(p, index)]
      ensures r.Returned? ==> pmm.FreeCount() == old(pmm.FreeCount()) - if Sub(p, index) in old(tree) then 0 else 1
      ensures Valid() && TablesAdded()
      ensures forall q :: q in old(tree) ==> q in tree && tree[q] == old(tree[q])
      ensures forall vp: nat :: Lookup(vp) == old(Lookup(vp))
    {
      hide Valid, Lookup, Pmm.FrameAllocator.Used, Pmm.FrameAllocator.AllUsed, Pmm.FrameAllocator.FreeCount, TestPresent, AddrOf;
      LinkHere(p, index);
      TablesAreUsed();
      if TestPresent(ram[table / 8 + index]) {
        return Returned(AddrOf(ram[table / 8 + index]));
      }
      var a := AllocFrame();
      if a.Halted? {
        return Halted(OutOfFrames);
      }
      LinkTable(p, table, index, a.value, a.value / 4096);
      return Returned(a.value);
    }

    /** The second half of get_next_table: empty the new frame f and point the entry at it. */
    method LinkTable(ghost p: Path, table: nat, index: nat, newPhys: nat, ghost f: nat)
      requires Valid() && p in tree && Depth(p) < 3 && index < 512 && table == 4096 * tree[p] && Sub(p, index) !in tree
      requires newPhys == 4096 * f && 0 < f < pmm.MaxPages() && f in pmm.Used() && f !in Tables()
      modifies this`tree, ram
      ensures Valid() && tree == old(tree)[Sub(p, index) := f]
      ensures Tables() == old(Tables()) + {f} && Untouched(old(ram[..]), ram[..], Tables())
      ensures forall vp: nat :: Lookup(vp) == old(Lookup(vp))
    {
      hide Walk, Links, Bitmaps.Bits, I1, I2, I3, I4, Entry, Untouched;
      ghost var m := ram[..];
      assert tree[p] != f;
      WriteTable(ram, table, index, newPhys, tree[p], f);
      NewTableKeepsWalks(m, ram[..], kernelPml4 / 4096, tree, p, index, f);
      AddValue(tree, Sub(p, index), f);
      TwoTouched(m, ram[..], tree[p], index, f, Tables() + {f});
      tree := tree[Sub(p, index) := f];
    }

    /** The table an upper entry points to, or 0. */
    method GetTableIfPresent(ghost p: Path, table: nat, index: nat) returns (r: nat)
      requires Valid() && p in tree && Depth(p) < 3 && index < 512 && table == 4096 * tree[p]
      ensures r == if Sub(p, index) in tree then 4096 * tree[Sub(p, index)] else 0
      ensures r != 0 <==> Sub(p, index) in tree
    {
      hide Valid, TestPresent, AddrOf;
      LinkHere(p, index);
      if TestPresent(ram[table / 8 + index]) {
        return AddrOf(ram[table / 8 + index]);
      }
      return 0;
    }

    /** What an entry of an upper table says. */
    lemma LinkHere(p: Path, index: nat)
      requires Valid() && p in tree && Depth(p) < 3 && index < 512
      ensures 4096 * tree[p] / 8 + index < ram.Length
      ensures TestPresent(ram[4096 * tree[p] / 8 + index]) <==> Sub(p, index) in tree
      ensures Sub(p, index) in tree ==> tree[Sub(p, index)] > 0 && AddrOf(ram[4096 * tree[p] / 8 + index]) == 4096 * tree[Sub(p, index)]
    {
      hide Pmm.FrameAllocator.Used, IsPresent, FrameOf;
      assert LinkOk(ram[..], tree, p, index);
      assert Entry(ram[..], tree[p], index) == ram[512 * tree[p] + index];
    }

    /** map_page. The result is 0, or -2 when the page is mapped to another frame. */
    method MapPage(virt: word, phys: word, flags: word) returns (r: Halting<int>)
      requires Valid()
      modifies this`tree, ram, pmm.bmp
      ensures r.Halted? <==> old(pmm.FreeCount()) < Missing(old(tree.Keys), Vpn(virt))
      ensures r.Halted? ==> r.reason == OutOfFrames && pmm.AllUsed() && Lookup(Vpn(virt)) == old(Lookup(Vpn(virt)))
      ensures r.Halted? ==> tree.Keys <= old(tree.Keys) + PathSet(Vpn(virt))
      ensures r.Returned? ==>
        && tree.Keys == old(tree.Keys) + PathSet(Vpn(virt))
        && pmm.FreeCount() == old(pmm.FreeCount()) - Missing(old(tree.Keys), Vpn(virt))
        && r.value == MapResult(old(Lookup(Vpn(virt))), phys)
        && Lookup(Vpn(virt)) == if old(Lookup(Vpn(virt))) == None then Leaf(LeafWord(phys, flags)) else old(Lookup(Vpn(virt)))
      ensures Valid() && TablesAdded()
      ensures forall q :: q in old(tree) ==> q in tree && tree[q] == old(tree[q])
      ensures forall vq: nat :: vq < PAGES && vq != Vpn(virt) ==> Lookup(vq) == old(Lookup(vq))
    {
      hide Valid, Walk, I1, PdptPath, PdPath, Tables, Pmm.FrameAllocator.Used, Pmm.FrameAllocator.FreeCount, Missing, MapResult, LeafWord, PtIdx;
      IndicesAre(virt);
      var pt := ReachTable(virt);
      if pt.Halted? { return Halted(pt.reason); }
      var rc := SetEntry(Vpn(virt), pt.value, PtIdx(virt), phys, flags);
      return Returned(rc);
    }

    /** The three get_next_table steps of map_page. */
    method ReachTable(virt: word) returns (r: Halting<nat>)
      requires Valid()
      modifies this`tree, ram, pmm.bmp
      ensures r.Halted? <==> old(pmm.FreeCount()) < Missing(old(tree.Keys), Vpn(virt))
      ensures r.Halted? ==> r.reason == OutOfFrames && pmm.AllUsed()
      ensures r.Halted? ==> tree.Keys <= old(tree.Keys) + PathSet(Vpn(virt))
      ensures r.Returned? ==>
        && tree.Keys == old(tree.Keys) + PathSet(Vpn(virt))
        && pmm.FreeCount() == old(pmm.FreeCount()) - Missing(old(tree.Keys), Vpn(virt))
        && r.value == 4096 * tree[PtPath(Vpn(virt))]
      ensures Valid() && TablesAdded()
      ensures forall q :: q in old(tree) ==> q in tree && tree[q] == old(tree[q])
      ensures forall vq: nat :: Lookup(vq) == old(Lookup(vq))
    {
      hide Valid, Walk, Depth, I1, I2, I3, I4, Pml4Idx, PdptIdx, PdIdx, PtIdx, LeafWord;
      hide Tables, Pmm.FrameAllocator.Used, Pmm.FrameAllocator.FreeCount, Lookup;
      ghost var vp := Vpn(virt);
      IndicesAre(virt);
      IndexRange(vp);
      PathsDiffer(vp);
      LookupInTree(vp);
      var t3 := GetNextTable(Root, kernelPml4, Pml4Idx(virt));
      if t3.Halted? { return Halted(t3.reason); }
      var t2 := GetNextTable(PdptPath(vp), t3.value, PdptIdx(virt));
      if t2.Halted? { return Halted(t2.reason); }
      var t1 := GetNextTable(PdPath(vp), t2.value, PdIdx(virt));
      if t1.Halted? { return Halted(t1.reason); }
      return Returned(t1.value);
    }

    /** The last step of map_page: look at the entry of the last table, and fill it if it is free. */
    method SetEntry(ghost vp: nat, pt: nat, index: nat, phys: word, flags: word) returns (rc: int)
      requires Valid() && vp < PAGES && PtPath(vp) in tree && pt == 4096 * tree[PtPath(vp)] && index == I1(vp)
      modifies ram
      ensures Valid()
      ensures forall vq: nat :: vq < PAGES && vq != vp ==> Lookup(vq) == old(Lookup(vq))
      ensures rc == MapResult(old(Lookup(vp)), phys) && Untouched(old(ram[..]), ram[..], Tables())
      ensures Lookup(vp) == if old(Lookup(vp)) == None then Leaf(LeafWord(phys, flags)) else old(Lookup(vp))
    {
      hide Walk, I1, LeafWord, Untouched;
      ghost var m := ram[..];
      UntouchedNone(m, Tables());
      ghost var top := kernelPml4 / 4096;
      IndexRange(vp);
      WalkIsLookup(m, top, tree, vp);
      var currentEntry := ram[pt / 8 + index];
      assert currentEntry == Entry(m, tree[PtPath(vp)], I1(vp));
      if TestPresent(currentEntry) {
        if AddrOf(currentEntry) == AddrOf(phys) {
          return 0;
        }
        return -2;
      }
      WriteLeaf(m, top, tree, vp, LeafWord(phys, flags));
      ram[pt / 8 + index] := LeafWord(phys, flags);
      assert ram[..] == m[512 * tree[PtPath(vp)] + I1(vp) := LeafWord(phys, flags)];
      TwoTouched(m, ram[..], tree[PtPath(vp)], I1(vp), tree[PtPath(vp)], Tables());
      return 0;
    }

    /** unmap_page: removes exactly one translation, or returns -1 when there is none. */
    method UnmapPage(virt: word) returns (rc: int)
      requires Valid()
      modifies ram
      ensures Valid()
      ensures forall vq: nat :: vq < PAGES && vq != Vpn(virt) ==> Lookup(vq) == old(Lookup(vq))
      ensures Lookup(Vpn(virt)) == None
      ensures rc == if old(Lookup(Vpn(virt))) == None then -1 else 0
      ensures Untouched(old(ram[..]), ram[..], Tables())
    {
      hide Valid, Walk, Depth, I1, I2, I3, I4, Pml4Idx, PdptIdx, PdIdx, PtIdx, LeafWord;
      ghost var vp := Vpn(virt);
      IndicesAre(virt);
      IndexRange(vp);
      LookupInTree(vp);
      var pdpt := GetTableIfPresent(Root, kernelPml4, Pml4Idx(virt));
      if pdpt == 0 { return -1; }
      var pd := GetTableIfPresent(PdptPath(vp), pdpt, PdptIdx(virt));
      if pd == 0 { return -1; }
      var pt := GetTableIfPresent(PdPath(vp), pd, PdIdx(virt));
      if pt == 0 { return -1; }
      rc := ClearEntry(vp, pt, PtIdx(virt));
    }

    method ClearEntry(ghost vp: nat, pt: nat, index: nat) returns (rc: int)
      requires Valid() && vp < PAGES && PtPath(vp) in tree && pt == 4096 * tree[PtPath(vp)] && index == I1(vp)
      modifies ram
      ensures Valid()
      ensures forall vq: nat :: vq < PAGES && vq != vp ==> Lookup(vq) == old(Lookup(vq))
      ensures Lookup(vp) == None
      ensures rc == if old(Lookup(vp)) == None then -1 else 0
      ensures Untouched(old(ram[..]), ram[..], Tables())
    {
      hide Walk, I1, Untouched;
      ghost var m := ram[..];
      UntouchedNone(m, Tables());
      ghost var top := kernelPml4 / 4096;
      IndexRange(vp);
      WalkIsLookup(m, top, tree, vp);
      assert ram[pt / 8 + index] == Entry(m, tree[PtPath(vp)], I1(vp));
      if !TestPresent(ram[pt / 8 + index]) {
        return -1;
      }
      WriteLeaf(m, top, tree, vp, 0);
      ram[pt / 8 + index] := 0;
      assert ram[..] == m[512 * tree[PtPath(vp)] + I1(vp) := 0];
      TwoTouched(m, ram[..], tree[PtPath(vp)], I1(vp), tree[PtPath(vp)], Tables());
      return 0;
    }

    /** virt_to_phys: the frame address of a mapped page, and 0 for an unmapped one. */
    method VirtToPhys(virt: word) returns (a: nat)
      requires Valid()
      ensures a == match Lookup(Vpn(virt)) case None => 0 case Some(e) => 4096 * FrameOf(e)
    {
      hide Valid, Walk, Depth, I1, I2, I3, I4, Pml4Idx, PdptIdx, PdIdx, PtIdx, LeafWord;
      ghost var vp := Vpn(virt);
      IndicesAre(virt);
      IndexRange(vp);
      LookupInTree(vp);
      var pdpt := GetTableIfPresent(Root, kernelPml4, Pml4Idx(virt));
      if pdpt == 0 { return 0; }
      var pd := GetTableIfPresent(PdptPath(vp), pdpt, PdptIdx(virt));
      if pd == 0 { return 0; }
      var pt := GetTableIfPresent(PdPath(vp), pd, PdIdx(virt));
      if pt == 0 { return 0; }
      a := ReadEntry(vp, pt, PtIdx(virt));
    }

    method ReadEntry(ghost vp: nat, pt: nat, index: nat) returns (a: nat)
      requires Valid() && PtPath(vp) in tree && pt == 4096 * tree[PtPath(vp)] && index == I1(vp)
      ensures a == match Lookup(vp) case None => 0 case Some(e) => 4096 * FrameOf(e)
    {
      hide Walk, I1;
      IndexRange(vp);
      WalkIsLookup(ram[..], kernelPml4 / 4096, tree, vp);
      assert ram[pt / 8 + index] == Entry(ram[..], tree[PtPath(vp)], I1(vp));
      if !TestPresent(ram[pt / 8 + index]) {
        return 0;
      }
      return AddrOf(ram[pt / 8 + index]);
    }

    /** pmm_alloc_page, as seen by the holder of an address space. */
    method AllocFrame() returns (r: Halting<nat>)
      requires Valid()
      modifies pmm.bmp
      ensures r.Halted? ==> r.reason == OutOfFrames && pmm.AllUsed() && pmm.Used() == old(pmm.Used())
      ensures r.Halted? <==> old(pmm.AllUsed())
      ensures r.Halted? <==> old(pmm.FreeCount()) == 0
      ensures r.Returned? ==> pmm.FreeCount() == old(pmm.FreeCount()) - 1
      ensures r.Returned? ==>
        var f := r.value / 4096;
        && r.value == 4096 * f && 0 < f < pmm.MaxPages() <= 0x100_0000_0000 && f !in old(pmm.Used())
        && pmm.Used() == old(pmm.Used()) + {f}
      ensures Valid() && Tables() == old(Tables())
      ensures forall vp: nat :: Lookup(vp) == old(Lookup(vp))
    {
      hide TreeOk, Walk, Pmm.FrameAllocator.Used;
      r := pmm.AllocPage();
    }

    /** pmm_free_page of a frame in use that holds no table: never one of its panics. */
    method FreeFrame(addr: nat, ghost f: nat) returns (r: Halting<()>)
      requires Valid() && addr == 4096 * f && f != 0 && f in pmm.Used() && f !in Tables()
      modifies pmm.bmp
      ensures r.Returned? && pmm.Used() == old(pmm.Used()) - {f} && Valid() && Tables() == old(Tables())
      ensures forall vp: nat :: Lookup(vp) == old(Lookup(vp))
    {
      hide TreeOk, Walk;
      assert addr / 4096 == f;
      r := pmm.FreePage(addr);
    }

    lemma TablesAreUsed()
      requires Valid()
      ensures Tables() <= pmm.Used()
    {
    }

    /** A page whose last table is missing, or whose path is cut earlier, is unmapped. */
    lemma LookupInTree(vp: nat)
      requires Valid()
      ensures Root in tree && 4096 * tree[Root] == kernelPml4
      ensures PtPath(vp) !in tree ==> Lookup(vp) == None
      ensures PtPath(vp) in tree ==> PdPath(vp) in tree
      ensures PdPath(vp) in tree ==> PdptPath(vp) in tree
    {
      hide Walk, I1, I2, I3, I4;
      WalkIsLookup(ram[..], kernelPml4 / 4096, tree, vp);
    }

    /** Mapping an unmapped page and unmapping it again leaves every translation as it was. */
    method MapThenUnmap(virt: word, phys: word, flags: word) returns (r: Halting<int>)
      requires Valid() && Lookup(Vpn(virt)) == None
      modifies this`tree, ram, pmm.bmp
      ensures r.Halted? <==> old(pmm.FreeCount()) < Missing(old(tree.Keys), Vpn(virt))
      ensures r.Halted? ==> r.reason == OutOfFrames && pmm.AllUsed()
      ensures r.Returned? ==> r.value == if IsPresent(flags) then 0 else -1
      ensures Untouched(old(ram[..]), ram[..], Tables())
      ensures Valid() && forall vq: nat :: vq < PAGES ==> Lookup(vq) == old(Lookup(vq))
    {
      hide Valid, Walk, Depth, I1, I2, I3, I4, Pml4Idx, PdptIdx, PdIdx, PtIdx, LeafWord;
      r := MapPage(virt, phys, flags);
      if r.Halted? { return; }
      var rc := UnmapPage(virt);
      r := Returned(rc);
    }
  }

  /** map_page's result, from what the page was mapped to before. */
  function MapResult(before: Option<word>, phys: word): (r: int)
    ensures r == 0 <==> before == None || FrameOf(before.value) == FrameOf(phys)
    ensures r != 0 ==> r == -2
  {
    match before
    case None => 0
    case Some(e) => if FrameOf(e) == FrameOf(phys) then 0 else -2
  }

  /** Zero the frame f at newPhys, then point entry `index` of the table in frame t to it. */
  method WriteTable(ram: array<word>, table: nat, index: nat, newPhys: nat, ghost t: nat, ghost f: nat)
    requires table == 4096 * t && newPhys == 4096 * f && t != f && index < 512 && f < 0x100_0000_0000
    requires 512 * t + 512 <= ram.Length && 512 * f + 512 <= ram.Length
    modifies ram
    ensures var m, m' := old(ram[..]), ram[..];
      && (forall k: nat | 512 * f <= k < 512 * f + 512 :: m'[k] == 0)
      && (forall k: nat | k < |m| && k != 512 * t + index && !(512 * f <= k < 512 * f + 512) :: m'[k] == m[k])
      && Next(m', t, index) == Some(f) && Entry(m', t, index) == newPhys + 7
  {
    hide IsPresent, FrameOf;
    ZeroFrame(ram, newPhys, f);
    var e := TableWord(newPhys);
    assert IsPresent(e) && FrameOf(e) == f by { FrameOfPage(f); }
    ram[table / 8 + index] := e;
    assert Entry(ram[..], t, index) == e;
  }

  lemma FrameStart(f: nat)
    ensures 4096 * f % 4096 == 0 && 4096 * f / 4096 == f
  {
  }

  lemma FrameOfPage(f: nat)
    requires f < 0x100_0000_0000
    ensures 4096 * f < U64 && FrameOf(4096 * f) == f
  {
  }

  /** The zeroing loop for a new table. */
  method ZeroFrame(ram: array<word>, phys: nat, ghost f: nat)
    requires phys == 4096 * f && 512 * f + 512 <= ram.Length
    modifies ram
    ensures forall k: nat | 512 * f <= k < 512 * f + 512 :: ram[k] == 0
    ensures forall k: nat | k < ram.Length && !(512 * f <= k < 512 * f + 512) :: ram[k] == old(ram[k])
  {
    var first := phys / 8;
    assert first == 512 * f;
    for i := 0 to 512
      invariant forall k: nat | 512 * f <= k < 512 * f + i :: ram[k] == 0
      invariant forall k: nat | k < ram.Length && !(512 * f <= k < 512 * f + 512) :: ram[k] == old(ram[k])
    {
      ram[first + i] := 0;
    }
  }

  lemma AddValue<K, V>(m: map<K, V>, k: K, v: V)
    requires k !in m
    ensures m[k := v].Values == m.Values + {v}
  {
    var m' := m[k := v];
    assert m'[k] == v;
    forall u | u in m.Values ensures u in m'.Values {
      var j :| j in m && m[j] == u;
      assert m'[j] == u;
    }
  }
}
