/** The kernel heap, kernel/mm/kheap.c, on top of the virtual range allocator. */
module KHeap {
  import opened Words
  import opened Machine
  import opened HeapLayout
  import opened HeapLinks
  import opened HeapSteps
  import opened BestBet
  import opened Outcomes
  import opened Vmm
  import Bitmaps
  import P = PageTable

  /** The globals of kheap.c. Headers are found by address; the bytes of the heap are `mem`. */
  class Heap {
    const vmm: RangeAllocator
    var memRoot: nat
    var bestBet: nat
    var heldTotal: nat
    var inuseTotal: nat
    var warnings: nat
    var errors: nat
    var majors: map<nat, Major>
    var minors: map<nat, Minor>
    var mem: map<nat, byte>
    ghost var chain: seq<Chunk>

    /** Headers, totals and alignment bytes describe the chain. */
    ghost predicate Inv()
      reads `majors, `minors, `mem, `memRoot, `bestBet, `heldTotal, `inuseTotal, `chain
    {
      && Rep(majors, minors, chain) && memRoot == BaseAt(chain, 0)
      && (bestBet == 0 || IsRun(chain, bestBet))
      && heldTotal == Held(chain) && inuseTotal == InUse(chain)
      && AlignOk(mem, chain)
    }

    lemma InvParts()
      requires Inv()
      ensures Rep(majors, minors, chain) && ChainOk(chain) && AlignOk(mem, chain)
    {
    }

    /** Both lists are doubly linked, and every block names its run. */
    lemma ListsAreLinked(i: nat, k: nat)
      requires Inv() && Listed(chain, i, k)
      ensures chain[i].base in majors && chain[i].blocks[k].addr in minors
      ensures var m := minors[chain[i].blocks[k].addr];
        && m.block == chain[i].base
        && (m.next != 0 ==> m.next in minors && minors[m.next].prev == chain[i].blocks[k].addr)
        && (m.prev != 0 ==> m.prev in minors && minors[m.prev].next == chain[i].blocks[k].addr)
        && (m.prev == 0 <==> majors[chain[i].base].first == chain[i].blocks[k].addr)
      ensures var m := majors[chain[i].base];
        && (m.next != 0 ==> m.next in majors && majors[m.next].prev == chain[i].base)
        && (m.prev != 0 ==> m.prev in majors && majors[m.prev].next == chain[i].base)
        && (m.prev == 0 <==> memRoot == chain[i].base)
    {
      hide AlignOk, Held, InUse, Chunk.Usage;
      HeadersOf(majors, minors, chain, i);
      MinorLinksInverse(minors, chain[i], k);
      Ascending(chain[i], 0, k);
      forall j | 0 <= j < |chain| ensures chain[j].base != 0 { RunOk(chain, j); }
      MajorLinksInverse(majors, chain, i);
      BasesDiffer(chain, 0, i);
    }

    /** The books balance: a run's `usage` is its header and its blocks with theirs, what is not used
        is exactly its gaps, and the two running totals are those of the listed runs. */
    lemma BooksBalance(i: nat)
      requires Inv() && i < |chain|
      ensures chain[i].base in majors
      ensures var m := majors[chain[i].base];
        && m.size == 4096 * m.pages && m.usage == MAJOR + Taken(chain[i].blocks)
        && m.size - m.usage == GapSum(chain[i], |chain[i].blocks| + 1)
      ensures heldTotal == Held(chain) && inuseTotal == InUse(chain)
    {
      hide AlignOk, Held, InUse, Taken, GapSum;
      HeadersOf(majors, minors, chain, i);
      FreeIsGaps(chain[i]);
    }

    /** What holds between calls. */
    ghost predicate Valid()
      reads this, vmm.Footprint()
    {
      Inv() && NonEmpty(chain) && vmm.Ready() && PagesAgree(chain, vmm.Owned())
    }

    /** The frames the machine has. */
    ghost function Frames(): nat { vmm.space.pmm.MaxPages() }

    /** The runs, the best bet, and the books below. */
    ghost function Standing(): State
      reads this, vmm.Footprint()
    {
      State(chain, bestBet, vmm.Now())
    }

    /** How the kernel stands when it halts for want of pages for `size` bytes, the range allocator
        having stood at b. */
    ghost predicate GaveUp(b: Books, reason: Panic, size: nat)
      reads vmm.Footprint()
    {
      && reason == Shortage(b, PagesFor(size))
      && (reason == HeapExhausted ==> vmm.Ready() && vmm.Now() == b)
      && (reason == OutOfFrames ==> vmm.Spent() && Stranded(b, vmm.Now(), PagesFor(size)))
    }

    lemma ValidParts()
      requires Valid()
      ensures ChainOk(chain) && AlignOk(mem, chain) && NonEmpty(chain) && Inv()
    {
      hide Rep, AlignOk, RangeAllocator.Ready, PagesAgree, NonEmpty, Held, InUse, IsRun;
      InvParts();
    }

    /** What the books say between calls. */
    lemma BooksHere()
      requires Valid()
      ensures Reached(vmm.Now()) && Steady(vmm.Now(), vmm.Now()) && PagesAgree(chain, vmm.Now().owned)
      ensures forall vp: nat :: HeapPage(0) <= vp < HeapPage(TOTAL) && vp - HeapPage(0) !in vmm.Now().owned ==> vp !in vmm.Now().backing
    {
      hide Inv, NonEmpty, PagesAgree, RangeAllocator.Valid, RangeAllocator.Owned, Reached, Steady;
      vmm.HeldReached();
      SameSteady(vmm.Now());
      vmm.FreePagesUnbacked();
    }

    /** A halt for want of a run of pages leaves all as it was. */
    lemma GaveUpValid(b: Books, reason: Panic, size: nat)
      requires GaveUp(b, reason, size) && NonEmpty(chain) && PagesAgree(chain, b.owned)
      requires Inv()
      ensures reason == HeapExhausted ==> Valid()
    {
      hide Inv, NonEmpty, PagesAgree, RangeAllocator.Ready, RangeAllocator.Owned, Stranded, Shortage, RangeAllocator.Spent;
    }

    constructor (vmm: RangeAllocator)
      requires vmm.Ready() && vmm.Owned() == {}
      ensures Valid() && this.vmm == vmm && chain == []
    {
      hide RangeAllocator.Ready, Bitmaps.Bits;
      this.vmm := vmm;
      memRoot, bestBet, heldTotal, inuseTotal, warnings, errors := 0, 0, 0, 0, 0, 0;
      majors, minors, mem, chain := map[], map[], map[], [];
    }

    // ----- header fields -----

    function MinorField(a: nat): Minor
      reads this`minors
    {
      if a in minors then minors[a] else Minor(0, 0, 0, 0, 0, 0)
    }

    method SetNext(a: nat, v: nat)
      modifies this`minors
      ensures minors == old(minors)[a := old(MinorField(a)).(next := v)]
    {
      minors := minors[a := MinorField(a).(next := v)];
    }

    method SetPrev(a: nat, v: nat)
      modifies this`minors
      ensures minors == old(minors)[a := old(MinorField(a)).(prev := v)]
    {
      minors := minors[a := MinorField(a).(prev := v)];
    }

    /** The ALIGN macro: moves the pointer up to a multiple of 16 past the alignment byte, and
        records the move in that byte. */
    method Align(p: nat) returns (q: nat)
      modifies this`mem
      ensures q == AlignPtr(p) && mem == old(mem)[q - ALIGN_INFO := q - p]
      ensures q % 16 == 0 && p + 16 <= q < p + 32
    {
      hide And;
      q := p + ALIGN_INFO;
      LowNibble(q);
      var diff := And(q, ALIGNMENT - 1);
      if diff != 0 {
        diff := ALIGNMENT - diff;
        q := q + diff;
      }
      mem := mem[q - ALIGN_INFO := diff + ALIGN_INFO];
    }

    /** The bytes of newly mapped pages are whatever their frames held. */
    method NewBytes(base: nat, n: nat)
      modifies this`mem
      ensures forall a: nat :: !(base <= a < base + n) ==> ByteOf(mem, a) == ByteOf(old(mem), a)
    {
      var junk: map<nat, byte> := *;
      mem := (map a: nat | a in mem && !(base <= a < base + n) :: mem[a]) + (map a: nat | a in junk && base <= a < base + n :: junk[a]);
    }

    /** allocate_new_page: a run of whole pages, at least sixteen, apart from every run listed. */
    method AllocateNewPage(size: nat) returns (r: Halting<nat>)
      requires ChainOk(chain) && vmm.Ready() && PagesAgree(chain, vmm.Owned())
      requires size + MAJOR + MINOR + 4095 < U32
      modifies this`majors, this`heldTotal, this`mem, vmm.Footprint()
      ensures r.Halted? <==> Short(old(vmm.Now()), Frames(), PagesFor(size))
      ensures r.Halted? ==> GaveUp(old(vmm.Now()), r.reason, size) && majors == old(majors) && heldTotal == old(heldTotal) && mem == old(mem)
      ensures r.Returned? ==> SameIn(chain, old(mem), mem)
      ensures r.Returned? ==> Extended(old(vmm.Now()), vmm.Now(), Frames(), r.value, size)
      ensures r.Returned? ==>
        var c := Chunk(r.value, PagesFor(size), []);
        && c.Ok() && c.FitsAt(0, size) && (forall i :: 0 <= i < |chain| ==> Apart(chain[i], c))
        && vmm.Ready() && PagesAgree(chain + [c], vmm.Owned())
        && majors == old(majors)[c.base := Major(0, 0, c.pages, c.Size(), MAJOR, 0)]
        && heldTotal == old(heldTotal) + c.Size()
      // of the fewest pages, but at least sixteen, that hold the block and both headers
      ensures r.Returned? ==>
        && r.value in majors
        && var n := majors[r.value].pages;
           n >= 16 && 4096 * n >= size + 80 && (n == 16 || 4096 * (n - 1) < size + 80) && heldTotal == old(heldTotal) + 4096 * n
    {
      hide RangeAllocator.Valid, RangeAllocator.StackReady, RangeAllocator.Owned, RangeAllocator.Spent, NextFit, Exhausted, PagesFor, ChainOk, Resident;
      hide Grown, Scarce, Stranded, RangeAllocator.Took, Backed, PagesAgree, Apart, SameIn;
      NewMajorHolds(size);
      NewMajorPages(size);
      PagesPositive(size);
      var st := PagesFor(size);
      var a := vmm.AllocPages(st);
      if a.Halted? { return Halted(a.reason); }
      var maj := a.value;
      NewBytes(maj, 4096 * st);
      majors := majors[maj := Major(0, 0, st, MajorBytes(st), MAJOR, 0)];
      heldTotal := heldTotal + MajorBytes(st);
      ghost var s := (maj - KERNEL_HEAP_START) / 4096;
      GrownRun(old(vmm.Now()), vmm.Now(), s, st);
      FreshRun(chain, old(vmm.Owned()), vmm.Owned(), s, st);
      OldBytes(chain, old(mem), mem, Chunk(maj, st, []));
      return Returned(maj);
    }

    /** `maj->next = allocate_new_page(size); maj->next->prev = maj;` at the end of the list. */
    method GrowChain(maj: nat, size: nat) returns (r: Halting<nat>)
      requires Inv() && vmm.Ready() && PagesAgree(chain, vmm.Owned())
      requires chain != [] && maj == chain[|chain| - 1].base && size + MAJOR + MINOR + 4095 < U32
      modifies this`majors, this`heldTotal, this`mem, this`chain, vmm.Footprint()
      ensures r.Halted? <==> Short(old(vmm.Now()), Frames(), PagesFor(size))
      ensures r.Halted? ==> GaveUp(old(vmm.Now()), r.reason, size) && Inv() && chain == old(chain) && mem == old(mem)
      ensures r.Returned? ==> SameIn(old(chain), old(mem), mem) && Extended(old(vmm.Now()), vmm.Now(), Frames(), r.value, size)
      ensures r.Returned? ==>
        var c := Chunk(r.value, PagesFor(size), []);
        chain == old(chain) + [c] && c.FitsAt(0, size) && Inv() && vmm.Ready() && PagesAgree(chain, vmm.Owned())
    {
      hide RangeAllocator.Ready, RangeAllocator.Owned, GaveUp, Short, Extended, PagesFor, PagesAgree, AlignOk, Rep, SameIn;
      hide ChainOk, MajorsOk, MagicOk, AllMinorsOk, Held, InUse, IsRun, Chunk.Ok, Apart;
      RepIs(majors, minors, chain);
      var a := AllocateNewPage(size);
      if a.Halted? { return a; }
      AlignSame(chain, old(mem), mem);
      var nw := a.value;
      ghost var c := Chunk(nw, PagesFor(size), []);
      AppendKeeps(old(majors), minors, mem, chain, c);
      majors := majors[maj := majors[maj].(next := nw)];
      majors := majors[nw := majors[nw].(prev := maj)];
      assert majors == LinkLast(old(majors), chain, c);
      chain := chain + [c];
      return Returned(nw);
    }

    // ----- placing a block -----

    /** Block b now fills gap k of run i, its client holds pointer p, and of the bytes only b's own
        alignment byte was written. */
    twostate predicate Placed(i: nat, k: nat, size: nat, reqSize: nat, p: nat)
      reads this`chain, this`mem
    {
      && i < |old(chain)| && k <= |old(chain)[i].blocks|
      && var b := Block(old(chain)[i].GapStart(k), size, reqSize);
         && chain == old(chain)[i := old(chain)[i].Insert(k, b)]
         && p == Ptr(b) && mem == WithAlign(old(mem), b)
    }

    /** CASE 2: the first block of a new run. */
    method PlaceOnly(maj: nat, size: nat, reqSize: nat, ghost i: nat) returns (p: nat)
      requires i < |chain| && chain[i].base == maj && chain[i].blocks == []
      requires chain[i].FitsAt(0, size) && reqSize + ALIGNMENT + ALIGN_INFO <= size
      requires Inv()
      modifies this`majors, this`minors, this`mem, this`inuseTotal, this`chain
      ensures Placed(i, 0, size, reqSize, p) && Inv()
    {
      hide Rep, AlignOk, Chunk.Ok, Chunk.Usage, AlignPtr, IsRun, Held, InUse;
      ghost var b := Block(chain[i].Start(), size, reqSize);
      ghost var c := chain[i];
      PlaceKeeps(majors, minors, mem, chain, i, 0, b);
      var first := maj + MAJOR;
      majors := majors[maj := majors[maj].(first := first)];
      minors := minors[first := Minor(0, 0, maj, LIBALLOC_MAGIC, size, reqSize)];
      majors := majors[maj := majors[maj].(usage := majors[maj].usage + size + MINOR)];
      inuseTotal := inuseTotal + size;
      p := Align(first + MINOR);
      assert minors == LinkIn(old(minors), c, 0, b);
      assert majors == UseMajor(old(majors), c.Insert(0, b));
      chain := chain[i := c.Insert(0, b)];
    }

    /** The links and fields that CASE 3 writes. */
    method FillFront(maj: nat, first: nat, front: nat, size: nat, reqSize: nat)
      requires first in minors && first != front
      modifies this`minors
      ensures minors == old(minors)[first := old(minors)[first].(prev := front)][front := Minor(0, first, maj, LIBALLOC_MAGIC, size, reqSize)]
    {
      SetPrev(first, front);
      SetNext(front, first);
      minors := minors[front := minors[front].(magic := LIBALLOC_MAGIC, prev := 0, block := maj, size := size, reqSize := reqSize)];
    }

    /** CASE 3: there is room before the first block. */
    method PlaceFront(maj: nat, size: nat, reqSize: nat, ghost i: nat) returns (p: nat)
      requires i < |chain| && chain[i].base == maj && chain[i].blocks != []
      requires chain[i].FitsAt(0, size) && reqSize + ALIGNMENT + ALIGN_INFO <= size
      requires Inv()
      modifies this`majors, this`minors, this`mem, this`inuseTotal, this`chain
      ensures Placed(i, 0, size, reqSize, p) && Inv()
    {
      hide Rep, AlignOk, Chunk.Ok, Chunk.Usage, AlignPtr, IsRun, Held, InUse;
      ghost var b := Block(chain[i].Start(), size, reqSize);
      ghost var c := chain[i];
      PlaceKeeps(majors, minors, mem, chain, i, 0, b);
      var first := majors[maj].first;
      var front := maj + MAJOR;
      FillFront(maj, first, front, size, reqSize);
      majors := majors[maj := majors[maj].(first := front)];
      majors := majors[maj := majors[maj].(usage := majors[maj].usage + size + MINOR)];
      inuseTotal := inuseTotal + size;
      p := Align(front + MINOR);
      assert minors == LinkIn(old(minors), c, 0, b);
      assert majors == UseMajor(old(majors), c.Insert(0, b));
      chain := chain[i := c.Insert(0, b)];
    }

    /** The links and fields that CASE 4.1 writes. */
    method FillBack(maj: nat, min: nat, last: nat, size: nat, reqSize: nat)
      requires min in minors && min != last
      modifies this`minors
      ensures minors == old(minors)[min := old(minors)[min].(next := last)][last := Minor(min, 0, maj, LIBALLOC_MAGIC, size, reqSize)]
    {
      SetNext(min, last);
      SetPrev(last, min);
      minors := minors[last := minors[last].(next := 0, magic := LIBALLOC_MAGIC, block := maj, size := size, reqSize := reqSize)];
    }

    /** CASE 4.1: there is room after the last block. */
    method PlaceBack(maj: nat, min: nat, size: nat, reqSize: nat, ghost i: nat) returns (p: nat)
      requires i < |chain| && chain[i].base == maj && chain[i].blocks != []
      requires min == chain[i].blocks[|chain[i].blocks| - 1].addr
      requires chain[i].FitsAt(|chain[i].blocks|, size) && reqSize + ALIGNMENT + ALIGN_INFO <= size
      requires Inv()
      modifies this`majors, this`minors, this`mem, this`inuseTotal, this`chain
      ensures Placed(i, |old(chain)[i].blocks|, size, reqSize, p) && Inv()
    {
      hide Rep, AlignOk, Chunk.Ok, Chunk.Usage, AlignPtr, IsRun, Held, InUse;
      ghost var c, n := chain[i], |chain[i].blocks|;
      ghost var b := Block(c.GapStart(n), size, reqSize);
      PlaceKeeps(majors, minors, mem, chain, i, n, b);
      var last := min + MINOR + minors[min].size;
      FillBack(maj, min, last, size, reqSize);
      majors := majors[maj := majors[maj].(usage := majors[maj].usage + size + MINOR)];
      inuseTotal := inuseTotal + size;
      p := Align(last + MINOR);
      assert minors == LinkIn(old(minors), c, n, b);
      assert majors == UseMajor(old(majors), c.Insert(n, b));
      chain := chain[i := c.Insert(n, b)];
    }

    /** CASE 4.2: there is room between a block and the next. */
    method PlaceBetween(maj: nat, min: nat, size: nat, reqSize: nat, ghost i: nat, ghost k: nat) returns (p: nat)
      requires i < |chain| && chain[i].base == maj && 1 <= k < |chain[i].blocks|
      requires min == chain[i].blocks[k - 1].addr
      requires chain[i].FitsAt(k, size) && reqSize + ALIGNMENT + ALIGN_INFO <= size
      requires Inv()
      modifies this`majors, this`minors, this`mem, this`inuseTotal, this`chain
      ensures Placed(i, k, size, reqSize, p) && Inv()
    {
      hide Rep, AlignOk, Chunk.Ok, Chunk.Usage, AlignPtr, IsRun, Held, InUse;
      ghost var c := chain[i];
      ghost var b := Block(c.GapStart(k), size, reqSize);
      PlaceKeeps(majors, minors, mem, chain, i, k, b);
      var newMin, next := min + MINOR + minors[min].size, minors[min].next;
      minors := minors[newMin := Minor(min, next, maj, LIBALLOC_MAGIC, size, reqSize)];
      SetPrev(next, newMin);
      SetNext(min, newMin);
      ReverseUpdates(old(minors), newMin, Minor(min, next, maj, LIBALLOC_MAGIC, size, reqSize),
                     next, old(minors)[next].(prev := newMin), min, old(minors)[min].(next := newMin));
      majors := majors[maj := majors[maj].(usage := majors[maj].usage + size + MINOR)];
      inuseTotal := inuseTotal + size;
      p := Align(newMin + MINOR);
      assert minors == LinkIn(old(minors), c, k, b);
      assert majors == UseMajor(old(majors), c.Insert(k, b));
      chain := chain[i := c.Insert(k, b)];
    }

    /** CASE 3 and CASE 4: the lowest gap of a run in use that holds the block, if any does. */
    method SqueezeIn(maj: nat, size: nat, reqSize: nat, ghost i: nat) returns (p: nat, ghost k: nat)
      requires i < |chain| && chain[i].base == maj && chain[i].blocks != []
      requires reqSize + ALIGNMENT + ALIGN_INFO <= size
      requires Inv()
      modifies this`majors, this`minors, this`mem, this`inuseTotal, this`chain
      ensures (p == 0 <==> old(chain)[i].Full(size))
      ensures p == 0 ==> unchanged(this)
      ensures p != 0 ==> old(chain)[i].LowestFit(k, size) && Placed(i, k, size, reqSize, p)
      ensures Inv()
    {
      hide Inv, Rep, WithAlign, Ptr, Chunk.Ok, Chunk.Usage, Chunk.LowestFit, Chunk.Full, Chunk.Insert, MinorsOk, MinorAt;
      ghost var c := chain[i];
      assert Rep(majors, minors, chain) by { InvParts(); }
      HeadersOf(majors, minors, chain, i);
      k := 0;
      var diff := majors[maj].first - maj - MAJOR;
      if diff >= size + MINOR {
        LowestHere(c, 0, size);
        p := PlaceFront(maj, size, reqSize, i);
        PtrPositive(Block(c.Start(), size, reqSize));
        return;
      }
      var min := majors[maj].first;
      while min != 0
        invariant unchanged(this)
        invariant k <= |c.blocks| && min == AddrAt(c.blocks, k)
        invariant forall j: nat | j <= k && j <= |c.blocks| :: !c.FitsAt(j, size)
        decreases |c.blocks| - k
      {
        MinorHere(minors, c, k);
        k := k + 1;
        if minors[min].next == 0 {
          diff := maj + majors[maj].size - min - MINOR - minors[min].size;
          if diff >= size + MINOR {
            LowestHere(c, k, size);
            p := PlaceBack(maj, min, size, reqSize, i);
            PtrPositive(Block(c.GapStart(k), size, reqSize));
            return;
          }
        }
        if minors[min].next != 0 {
          diff := minors[min].next - min - MINOR - minors[min].size;
          if diff >= size + MINOR {
            LowestHere(c, k, size);
            p := PlaceBetween(maj, min, size, reqSize, i, k);
            PtrPositive(Block(c.GapStart(k), size, reqSize));
            return;
          }
        }
        min := minors[min].next;
      }
      FullHere(c, size);
      p := 0;
    }

    /** CASE 2, CASE 3 and CASE 4 on one run: the block goes into the lowest gap that holds it. */
    method TryRun(maj: nat, size: nat, reqSize: nat, ghost i: nat) returns (p: nat, ghost k: nat)
      requires i < |chain| && chain[i].base == maj && (chain[i].blocks == [] ==> chain[i].FitsAt(0, size))
      requires reqSize + ALIGNMENT + ALIGN_INFO <= size
      requires Inv()
      modifies this`majors, this`minors, this`mem, this`inuseTotal, this`chain
      ensures p == 0 <==> old(chain)[i].Full(size)
      ensures p == 0 ==> unchanged(this)
      ensures p != 0 ==> old(chain)[i].LowestFit(k, size) && Placed(i, k, size, reqSize, p)
      ensures Inv()
    {
      hide Inv, WithAlign, Ptr, Chunk.Full, Chunk.FitsAt, Chunk.Insert;
      RunHere(i);
      if majors[maj].first == 0 {
        k := 0;
        LowestHere(chain[i], 0, size);
        ghost var b := Block(chain[i].GapStart(0), size, reqSize);
        p := PlaceOnly(maj, size, reqSize, i);
        PtrPositive(b);
        return;
      }
      p, k := SqueezeIn(maj, size, reqSize, i);
    }

    /** Remembers a run with more free memory than the best bet. */
    method LookAt(maj: nat, diff: int, bestSize: int, ghost chain0: seq<Chunk>, ghost bet: nat, ghost size: nat, ghost s: nat, ghost pos: nat,
                  ghost startedBet: bool, ghost restarted: bool, ghost made: bool)
      returns (bestSize': int)
      requires pos < |chain| && chain[pos].base == maj && diff == Free(chain[pos])
      requires Progress(chain0, chain, s, pos, startedBet, restarted, made, size, bet)
      requires BetAtHead(chain0, chain, bet, bestBet, bestSize, size, s, pos, restarted, made)
      requires Inv()
      modifies this`bestBet
      ensures BetLooked(chain0, chain, bet, bestBet, bestSize', size, s, pos, restarted, made)
      ensures Inv()
    {
      hide Rep, AlignOk, ChainOk, Progress, BetAtHead, BetLooked, Free, Held, InUse;
      InvParts();
      BetLooks(chain0, chain, bet, bestBet, bestSize, size, s, pos, startedBet, restarted, made);
      bestSize' := bestSize;
      if bestSize < diff {
        bestBet := maj;
        bestSize' := diff;
      }
    }

    /** `l_memRoot = allocate_new_page(size)` when the heap holds nothing. */
    method FirstRun(size: nat) returns (r: Halting<nat>)
      requires Inv() && vmm.Ready() && PagesAgree(chain, vmm.Owned()) && chain == [] && size + MAJOR + MINOR + 4095 < U32
      modifies this`majors, this`heldTotal, this`memRoot, this`mem, this`chain, vmm.Footprint()
      ensures r.Halted? <==> Short(old(vmm.Now()), Frames(), PagesFor(size))
      ensures r.Halted? ==> GaveUp(old(vmm.Now()), r.reason, size) && Inv() && chain == old(chain) && mem == old(mem)
      ensures r.Returned? ==> Extended(old(vmm.Now()), vmm.Now(), Frames(), r.value, size)
      ensures r.Returned? ==>
        var c := Chunk(r.value, PagesFor(size), []);
        chain == [c] && c.FitsAt(0, size) && Inv() && vmm.Ready() && PagesAgree(chain, vmm.Owned())
    {
      hide RangeAllocator.Ready, RangeAllocator.Owned, GaveUp, Short, Extended, PagesFor, PagesAgree, AlignOk, Rep, SameIn;
      hide ChainOk, MajorsOk, MagicOk, AllMinorsOk, Held, InUse, IsRun, Chunk.Ok, Apart;
      InvParts();
      var a := AllocateNewPage(size);
      if a.Halted? { return a; }
      AlignSame(chain, old(mem), mem);
      ghost var c := Chunk(a.value, PagesFor(size), []);
      AppendKeeps(old(majors), minors, mem, chain, c);
      assert majors == LinkLast(old(majors), chain, c);
      memRoot := a.value;
      assert [] + [c] == [c];
      chain := [c];
      return Returned(a.value);
    }

    /** Where the search starts: at the best bet if it has room to spare, else at the root. */
    method StartPoint(size: nat) returns (maj: nat, startedBet: bool, bestSize: int, ghost s: nat)
      requires Inv() && chain != []
      ensures s < |chain| && maj == chain[s].base && (startedBet ==> maj == bestBet != 0) && (!startedBet ==> s == 0)
      ensures StartsAt(chain, bestBet, size, s) && bestSize == BetFree(chain, bestBet)
    {
      hide BetFree;
      hide Rep, AlignOk, Held, InUse, ChainOk, Chunk.Usage;
      InvParts();
      RootIsFirst();
      maj, startedBet, bestSize, s := memRoot, false, 0, 0;
      if bestBet != 0 {
        ghost var j: nat :| j < |chain| && chain[j].base == bestBet;
        HeadersOf(majors, minors, chain, j);
        bestSize := majors[bestBet].size - majors[bestBet].usage;
        OneBet(chain, bestBet, size, j);
        BetFreeAt(chain, j);
        if bestSize > size + MINOR {
          maj, startedBet, s := bestBet, true, j;
        }
      } else {
        NoBet(chain, size);
        NoBetFree(chain);
      }
    }

    /** kmalloc: the search of the runs, from the best bet once round, with a new run only when no
        gap anywhere is large enough. Ghost results say where the block went: gap k of run i, the
        search having started at run s, or the only gap of a fresh run, on the pages next fit chose.
        It halts exactly when no gap is large enough and there are no pages for a new run. */
    method Kmalloc(reqSize: nat) returns (r: Halting<nat>, ghost i: nat, ghost k: nat, ghost s: nat)
      requires Valid() && Servable(reqSize)
      modifies this`majors, this`minors, this`mem, this`inuseTotal, this`heldTotal, this`memRoot, this`bestBet, this`chain, vmm.Footprint()
      ensures r.Halted? <==> Starved(old(chain), old(vmm.Now()), Frames(), PaddedSize(reqSize))
      ensures r.Halted? ==> GaveUp(old(vmm.Now()), r.reason, PaddedSize(reqSize)) && Inv() && chain == old(chain) && mem == old(mem)
      ensures r == Halted(HeapExhausted) ==> Valid()
      ensures r.Returned? ==> Served(old(chain), chain, old(bestBet), reqSize, s, i, k)
      ensures r.Returned? ==> r.value == Ptr(chain[i].blocks[k]) && Wrote(old(chain), old(mem), mem, chain[i].blocks[k])
      ensures r.Returned? ==> Supplied(old(chain), old(vmm.Now()), vmm.Now(), Frames(), chain[i].base, PaddedSize(reqSize))
      ensures r.Returned? ==> Steady(old(vmm.Now()), vmm.Now())
      ensures r.Returned? ==> BetAfter(old(chain), chain[i].base, old(bestBet), bestBet, PaddedSize(reqSize), s, i)
      ensures r.Returned? ==> Valid()
    {
      hide BetAfter, BetAtHead, BetSoFar, BetFree, Free, LooksAtNew;
      hide Short, Extended, Steady, Reached, RangeAllocator.Now, GaveUp, TakenSoFar, Supplied, Starved;
      hide Inv, Rep, RangeAllocator.Ready, RangeAllocator.Owned, PagesAgree, WithAlign, Ptr, PagesFor, NonEmpty, SameIn, Wrote, StartsAt;
      hide Served, Progress, AllFull, IsRun, Chunk.Full, Chunk.LowestFit, Chunk.Insert, Chunk.Ok, Chunk.Usage;
      hide Chunk.FitsAt, Chunk.Gap, Chunk.GapStart, Chunk.Size, Chunk.Start, ChainOk, AlignOk, Resident, ByteOf, Exhausted;
      var size := reqSize + ALIGNMENT + ALIGN_INFO;
      var made := false;
      ghost var chain0, bet, restarted, b := chain, bestBet, false, vmm.Now();
      BooksHere();
      BetKnown();
      RootIsFirst();
      if memRoot == 0 {
        NothingFits(b, Frames(), size);
        StartsEmpty(bet, size);
        var f := FirstRun(size);
        if f.Halted? {
          GaveUpValid(b, f.reason, size);
          return f, 0, 0, 0;
        }
        made := true;
      }
      FirstTakenSoFar(chain0, made, b, size);
      var maj, startedBet, bestSize;
      maj, startedBet, bestSize, s := StartPoint(size);
      ghost var pos: nat := s;
      SameBytes(chain0, old(mem), mem);
      ProgressStart(chain0, chain, s, startedBet, made, size, bet);
      BetStart(chain0, chain, bet, bestSize, size, s, made);
      while true
        invariant Inv() && vmm.Ready() && PagesAgree(chain, vmm.Owned())
        invariant SameIn(chain0, old(mem), mem) && (!made ==> mem == old(mem))
        invariant pos < |chain| && maj == chain[pos].base && Progress(chain0, chain, s, pos, startedBet, restarted, made, size, bet)
        invariant BetAtHead(chain0, chain, bet, bestBet, bestSize, size, s, pos, restarted, made)
        invariant TakenSoFar(chain0, chain, made, b, vmm.Now(), Frames(), size)
        decreases if startedBet then 1 else 0, if made then 0 else 1, |chain| - pos
      {
        RunHere(pos);
        var diff := majors[maj].size - majors[maj].usage;
        bestSize := LookAt(maj, diff, bestSize, chain0, bet, size, s, pos, startedBet, restarted, made);
        // CASE 1: not enough space in this run
        if diff < size + MINOR {
          SkipMissesNothing(chain[pos], size);
          var n;
          n, startedBet, made, pos, restarted := NextRun(maj, startedBet, size, bestSize, chain0, s, pos, restarted, made, bet, b);
          if n.Halted? {
            GaveUpValid(b, n.reason, size);
            return n, 0, 0, 0;
          }
          maj := n.value;
          if !made { continue; }
        }
        // CASE 2 to CASE 4: a gap in this run
        var p;
        p, k := FillRun(maj, size, reqSize, chain0, old(mem), s, pos, startedBet, restarted, made, bet, b);
        if p != 0 { return Returned(p), pos, k, s; }
        // CASE 5: nothing here
        var n;
        n, startedBet, made, pos, restarted := NextRun(maj, startedBet, size, bestSize, chain0, s, pos, restarted, made, bet, b);
        if n.Halted? {
          GaveUpValid(b, n.reason, size);
          return n, 0, 0, 0;
        }
        maj := n.value;
      }
    }

    /** CASE 2 to CASE 4 in the run that the search has reached. */
    method FillRun(maj: nat, size: nat, reqSize: nat, ghost chain0: seq<Chunk>, ghost mem0: map<nat, byte>, ghost s: nat, ghost pos: nat,
                   ghost startedBet: bool, ghost restarted: bool, ghost made: bool, ghost bet: nat, ghost b: Books)
      returns (p: nat, ghost k: nat)
      requires size == PaddedSize(reqSize) && NonEmpty(chain0) && Reached(b) && SameIn(chain0, mem0, mem)
      requires BetSoFar(chain0, chain, bet, bestBet, size, s, pos, restarted, made)
      requires pos < |chain| && chain[pos].base == maj && Progress(chain0, chain, s, pos, startedBet, restarted, made, size, bet)
      requires TakenSoFar(chain0, chain, made, b, vmm.Now(), Frames(), size) && PagesAgree(chain, vmm.Owned())
      requires Inv()
      modifies this`majors, this`minors, this`mem, this`inuseTotal, this`chain
      ensures p == 0 <==> old(chain)[pos].Full(size)
      ensures p == 0 ==> unchanged(this) && !made
      ensures p != 0 ==>
        && Served(chain0, chain, bet, reqSize, s, pos, k) && p == Ptr(chain[pos].blocks[k]) && Wrote(chain0, mem0, mem, chain[pos].blocks[k])
        && Supplied(chain0, b, vmm.Now(), Frames(), chain[pos].base, size) && Steady(b, vmm.Now()) && !Starved(chain0, b, Frames(), size)
        && BetAfter(chain0, chain[pos].base, bet, bestBet, size, s, pos) && NonEmpty(chain) && PagesAgree(chain, vmm.Owned())
      ensures Inv()
    {
      hide BetAfter, BetSoFar;
      hide Short, Extended, Steady, Reached, RangeAllocator.Now, RangeAllocator.Owned, TakenSoFar, Supplied, Starved, PagesAgree, NonEmpty, SameIn, Wrote;
      hide Inv, WithAlign, Ptr, Progress, AllFull, Chunk.Full, Chunk.LowestFit, Chunk.FitsAt, Chunk.Insert, Chunk.Gap, StartsAt;
      ProgressRoom(chain0, chain, s, pos, startedBet, restarted, made, size, bet);
      ghost var before, mem1 := chain, mem;
      p, k := TryRun(maj, size, reqSize, pos);
      if p != 0 {
        ProgressServed(chain0, before, s, pos, startedBet, restarted, made, size, bet, reqSize, k, vmm.Owned());
        WroteAfter(chain0, mem0, mem1, Block(before[pos].GapStart(k), size, reqSize));
        TakenSupplied(chain0, before, s, pos, startedBet, restarted, made, size, bet, b, vmm.Now(), Frames());
        BetServes(chain0, before, bet, bestBet, size, s, pos, startedBet, restarted, made);
      }
    }

    /** The best bet is NULL or a listed run. */
    lemma BetKnown()
      requires Inv()
      ensures bestBet == 0 || IsRun(chain, bestBet)
    {
      hide Rep, AlignOk, IsRun, Held, InUse;
    }

    lemma FirstTakenSoFar(chain0: seq<Chunk>, made: bool, b: Books, size: nat)
      requires if made then chain0 == [] && |chain| == 1 && Extended(b, vmm.Now(), Frames(), chain[0].base, size) else vmm.Now() == b
      ensures TakenSoFar(chain0, chain, made, b, vmm.Now(), Frames(), size)
    {
      hide Extended, RangeAllocator.Now;
    }

    /** The end of CASE 1 and CASE 5, after a run that cannot take the block: on to the next run, or
        once back to the root if the search began at the best bet, or to a new run. */
    method NextRun(maj: nat, startedBet: bool, size: nat, ghost bestSize: int, ghost chain0: seq<Chunk>, ghost s: nat, ghost pos: nat,
                   ghost restarted: bool, ghost grown: bool, ghost bet: nat, ghost b: Books)
      returns (r: Halting<nat>, startedBet': bool, made: bool, ghost pos': nat, ghost restarted': bool)
      requires size + MAJOR + MINOR + 4095 < U32
      requires pos < |chain| && Progress(chain0, chain, s, pos, startedBet, restarted, grown, size, bet) && chain[pos].base == maj && chain[pos].Full(size)
      requires TakenSoFar(chain0, chain, grown, b, vmm.Now(), Frames(), size)
      requires BetLooked(chain0, chain, bet, bestBet, bestSize, size, s, pos, restarted, grown)
      requires vmm.Ready() && PagesAgree(chain, vmm.Owned()) && Inv()
      modifies this`majors, this`heldTotal, this`mem, this`chain, vmm.Footprint()
      ensures r.Halted? ==> !grown && Starved(chain0, b, Frames(), size) && GaveUp(b, r.reason, size)
      ensures r.Halted? ==> Inv() && chain == chain0 && mem == old(mem)
      ensures r.Returned? ==> SameIn(chain0, old(mem), mem) && (!made ==> mem == old(mem))
      ensures r.Returned? ==> pos' < |chain| && r.value == chain[pos'].base && !grown
      ensures r.Returned? ==> Progress(chain0, chain, s, pos', startedBet', restarted', made, size, bet)
      ensures r.Returned? ==> TakenSoFar(chain0, chain, made, b, vmm.Now(), Frames(), size)
      ensures r.Returned? && !made ==> chain == old(chain)
      ensures r.Returned? && (made ==> Free(old(chain)[pos]) >= size + MINOR) ==> BetAtHead(chain0, chain, bet, bestBet, bestSize, size, s, pos', restarted', made)
      ensures r.Returned? && made && Free(old(chain)[pos]) < size + MINOR ==> BetSoFar(chain0, chain, bet, bestBet, size, s, pos', restarted', made)
      ensures r.Returned? && !made ==> (startedBet && !startedBet') || (startedBet == startedBet' && pos' == pos + 1)
      ensures r.Returned? && made ==> startedBet == startedBet' == false
      ensures r.Returned? ==> vmm.Ready() && PagesAgree(chain, vmm.Owned()) && Inv()
    {
      hide Inv, Rep, RangeAllocator.Ready, RangeAllocator.Owned, GaveUp, Short, Extended, PagesAgree, PagesFor, NonEmpty, SameIn;
      SameBytes(chain0, mem, mem);
      hide Progress, AllFull, IsRun, Chunk.Full, Chunk.Ok, Chunk.Usage, Chunk.FitsAt, Chunk.Gap, Chunk.Size;
      startedBet', made, pos', restarted' := startedBet, false, pos, restarted;
      hide BetAtHead, BetLooked, BetSoFar, Free;
      ProgressFull(chain0, chain, s, pos, startedBet, restarted, grown, size, bet);
      BetMoves(chain0, chain, bet, bestBet, bestSize, size, s, pos, restarted);
      RunHere(pos);
      if majors[maj].next != 0 {
        pos' := pos + 1;
        return Returned(majors[maj].next), startedBet', made, pos', restarted';
      }
      if startedBet {
        RootIsFirst();
        return Returned(memRoot), false, false, 0, true;
      }
      r := AddRun(maj, size, bestSize, s, pos, restarted, bet, b);
      if r.Returned? { made, pos' := true, pos + 1; }
    }

    /** A new run, now that every old one has turned out to be full. */
    method AddRun(maj: nat, size: nat, ghost bestSize: int, ghost s: nat, ghost pos: nat, ghost restarted: bool, ghost bet: nat, ghost b: Books)
      returns (r: Halting<nat>)
      requires size + MAJOR + MINOR + 4095 < U32 && pos + 1 == |chain| && chain[pos].base == maj
      requires AllFull(chain, size) && StartsAt(chain, bet, size, s) && (restarted || s == 0) && b == vmm.Now()
      requires BetLooked(chain, chain, bet, bestBet, bestSize, size, s, pos, restarted, false)
      requires vmm.Ready() && PagesAgree(chain, vmm.Owned()) && Inv()
      modifies this`majors, this`heldTotal, this`mem, this`chain, vmm.Footprint()
      ensures r.Halted? ==> Starved(old(chain), b, Frames(), size) && GaveUp(b, r.reason, size)
      ensures r.Halted? ==> Inv() && chain == old(chain) && mem == old(mem)
      ensures r.Returned? ==> pos + 1 < |chain| && r.value == chain[pos + 1].base && SameIn(old(chain), old(mem), mem)
      ensures r.Returned? ==> Progress(old(chain), chain, s, pos + 1, false, restarted, true, size, bet)
      ensures r.Returned? ==> TakenSoFar(old(chain), chain, true, b, vmm.Now(), Frames(), size)
      ensures r.Returned? ==>
        if Free(old(chain)[pos]) >= size + MINOR then BetAtHead(old(chain), chain, bet, bestBet, bestSize, size, s, pos + 1, restarted, true)
        else BetSoFar(old(chain), chain, bet, bestBet, size, s, pos + 1, restarted, true)
      ensures r.Returned? ==> vmm.Ready() && PagesAgree(chain, vmm.Owned()) && Inv()
    {
      hide Inv, Rep, RangeAllocator.Ready, RangeAllocator.Owned, GaveUp, Short, Extended, PagesAgree, PagesFor, SameIn, StartsAt, AlignOk, ChainOk;
      hide BetAtHead, BetLooked, BetSoFar, Free, Progress, AllFull, IsRun, Chunk.Full, Chunk.FitsAt;
      ghost var chain0 := chain;
      BetKnown();
      r := GrowChain(maj, size);
      if r.Returned? {
        ProgressGrow(chain0, chain, s, size, bet);
        InvParts();
        BetGrows(chain0, Chunk(r.value, PagesFor(size), []), bet, bestBet, bestSize, size, s, pos, restarted);
      }
    }

    // ----- kfree -----

    // Live headers are records; all other memory, headers of freed blocks included, is bytes.

    /** The magic word read at a. */
    function MagicAt(a: int): nat
      reads this`minors, this`mem
    {
      if a in minors && minors[a].magic == LIBALLOC_MAGIC then LIBALLOC_MAGIC else MagicWord(mem, a)
    }

    /** The processor reaches an address of the heap exactly when a run holds it. */
    method Accessible(a: nat) returns (ok: bool)
      requires ChainOk(chain) && vmm.Ready() && PagesAgree(chain, vmm.Owned()) && KERNEL_HEAP_START - 4096 <= a < HEAP_END
      ensures ok <==> Resident(chain, a)
    {
      hide RangeAllocator.Owned, ChainOk, PagesAgree, Resident;
      vmm.HeapByte(a);
      ResidentPages(chain, vmm.Owned(), a);
      vmm.Sizes();
      var f := vmm.space.VirtToPhys(a);
      ok := f != 0;
    }

    /** Every byte of a run is backed by memory of its own: its page is mapped and writable, to a
        frame in use that is neither reserved nor a table. */
    lemma BackedByMemory(a: nat)
      requires Resident(chain, a)
      requires Valid()
      ensures a < U64 && vmm.space.Lookup(P.Vpn(a)).Some?
      ensures var f := P.FrameOf(vmm.space.Lookup(P.Vpn(a)).value);
        && vmm.space.Lookup(P.Vpn(a)) == P.Some(4096 * f + 3)
        && f in vmm.space.pmm.Used() && f !in vmm.reserved && f !in vmm.space.Tables()
    {
      hide Inv, RangeAllocator.Owned, RangeAllocator.StackReady, RangeAllocator.Valid, PagesAgree, Resident, ChainOk, AlignOk, NonEmpty, P.Vpn, P.FrameOf;
      ValidParts();
      ResidentPages(chain, vmm.Owned(), a);
      InHeapRange(a);
      vmm.HeapByte(a);
    }

    /** No two bytes of the runs are the same byte of memory. */
    lemma NoAliasing(a: nat, b: nat)
      requires Resident(chain, a) && Resident(chain, b) && a != b
      requires Valid()
      ensures a < U64 && b < U64 && vmm.space.Lookup(P.Vpn(a)).Some? && vmm.space.Lookup(P.Vpn(b)).Some?
      ensures vmm.PhysicalOf(a) != vmm.PhysicalOf(b)
    {
      hide Inv, RangeAllocator.Owned, RangeAllocator.StackReady, RangeAllocator.Valid, PagesAgree, Resident, ChainOk, AlignOk, NonEmpty, P.Vpn, P.FrameOf;
      BackedByMemory(a);
      BackedByMemory(b);
      InHeapRange(a);
      InHeapRange(b);
      vmm.HeapBytesApart(a, b);
    }

    lemma InHeapRange(a: nat)
      requires Resident(chain, a)
      requires Valid()
      ensures KERNEL_HEAP_START <= a < HEAP_END
    {
      hide Inv, RangeAllocator.Ready, InSomeRun, NonEmpty;
    }

    /** UNALIGN, and the read of the magic word of the header it leads to. */
    method FindMagic(p: nat) returns (r: Halting<int>)
      requires KERNEL_HEAP_START <= p < HEAP_END
      requires Valid()
      ensures r.Halted? <==> Faults(chain, mem, p)
      ensures r.Halted? ==> r.reason == PageFault
      ensures r.Returned? ==> r.value == Unalign(mem, p) - MINOR == p - 40 - (if ByteOf(mem, p - 16) < 32 then ByteOf(mem, p - 16) else 0)
    {
      hide Inv, Resident, ByteOf, RangeAllocator.Ready, RangeAllocator.Owned, PagesAgree, NonEmpty, ChainOk, AlignOk;
      ValidParts();
      var info := Accessible(p - ALIGN_INFO);
      if !info { return Halted(PageFault); }
      var min := Unalign(mem, p) - MINOR;
      var low := Accessible(min + 24);
      var high := Accessible(min + 27);
      if !low || !high { return Halted(PageFault); }
      return Returned(min);
    }

    /** `min->magic = LIBALLOC_DEAD`, after which the header's bytes are like any others. */
    method Retire(min: nat, ghost i: nat, ghost k: nat, ghost dead: Minor)
      requires Listed(chain, i, k) && chain[i].blocks[k].addr == min && dead == DeadMinor(chain[i], k)
      requires Inv()
      modifies this`mem
      ensures mem == Dump(old(mem), min, dead) && LoadWord(mem, min + 24) == 0xDEAD_DEAD
      ensures Inv()
    {
      hide Rep, AlignOk, IsRun, Held, InUse, MinorAt, Dump, HeaderOnly, ChainOk, IsLive, InPayload, ByteOf, Ptr, MagicWord;
      InvParts();
      HeaderHereIs(i, k);
      var m := minors[min].(magic := LIBALLOC_DEAD);
      RetireKeeps(mem, chain, i, k, m);
      DumpMagic(mem, min, m);
      mem := Dump(mem, min, m);
    }

    lemma HeaderHereIs(i: nat, k: nat)
      requires Inv() && Listed(chain, i, k)
      ensures chain[i].blocks[k].addr in minors && minors[chain[i].blocks[k].addr] == MinorAt(chain[i], k)
    {
      hide AlignOk, Held, InUse;
      HeadersOf(majors, minors, chain, i);
    }

    /** The unlinking half of kfree. */
    method UnlinkBlock(min: nat, ghost i: nat, ghost k: nat)
      requires Listed(chain, i, k) && chain[i].blocks[k].addr == min
      requires Inv()
      modifies this`majors, this`minors, this`inuseTotal, this`chain
      ensures chain == old(chain)[i := old(chain)[i].Remove(k)]
      ensures Inv()
    {
      hide Rep, AlignOk, MinorsOk, Chunk.Ok, Chunk.Usage, Ptr, IsRun, Held, InUse, BaseAt;
      ghost var c := chain[i];
      UnlinkKeeps(majors, minors, mem, chain, i, k);
      var m := minors[min];
      var maj := m.block;
      inuseTotal := inuseTotal - m.size;
      majors := majors[maj := majors[maj].(usage := majors[maj].usage - (m.size + MINOR))];
      minors := minors[min := m.(magic := LIBALLOC_DEAD)];
      if m.next != 0 { SetPrev(m.next, m.prev); }
      if m.prev != 0 { SetNext(m.prev, m.next); }
      if m.prev == 0 { majors := majors[maj := majors[maj].(first := m.next)]; }
      assert minors == Unlink(old(minors), c, k);
      assert majors == UseMajor(old(majors), c.Remove(k));
      chain := chain[i := c.Remove(k)];
    }

    /** An empty run leaves the list, and the root and the best bet with it. */
    method UnlinkRunAt(maj: nat, ghost i: nat)
      requires i < |chain| && chain[i].base == maj && chain[i].blocks == []
      requires Inv()
      modifies this`majors, this`memRoot, this`bestBet, this`heldTotal, this`chain
      ensures chain == old(chain)[..i] + old(chain)[i + 1..] && bestBet == if old(bestBet) == maj then 0 else old(bestBet)
      ensures Inv()
    {
      hide Rep, AlignOk, IsRun, Held, InUse, Chunk.Ok, Chunk.Usage, ChainOk;
      ghost var rest := chain[..i] + chain[i + 1..];
      ReleaseKeeps(majors, minors, mem, chain, i);
      var m := majors[maj];
      if memRoot == maj { memRoot := m.next; }
      if bestBet == maj { bestBet := 0; }
      if m.prev != 0 { majors := majors[m.prev := majors[m.prev].(next := m.next)]; }
      if m.next != 0 { majors := majors[m.next := majors[m.next].(prev := m.prev)]; }
      heldTotal := heldTotal - m.size;
      assert majors == UnlinkRun(old(majors), chain, i);
      chain := rest;
    }

    /** The end of kfree for a run that has become empty: out of the list, and its pages back. */
    method ReleaseRun(maj: nat, ghost i: nat) returns (r: Halting<int>)
      requires i < |chain| && chain[i].base == maj && chain[i].blocks == []
      requires vmm.Ready() && PagesAgree(chain, vmm.Owned())
      requires Inv()
      modifies this`majors, this`memRoot, this`bestBet, this`heldTotal, this`chain, vmm.Footprint()
      ensures r == Returned(0)
      ensures chain == old(chain)[..i] + old(chain)[i + 1..] && bestBet == if old(bestBet) == maj then 0 else old(bestBet)
      ensures vmm.Ready() && PagesAgree(chain, vmm.Owned())
      ensures forall p: nat :: p in vmm.Owned() <==> p in old(vmm.Owned()) && !RunHas(old(chain)[i], p)
      ensures maj >= KERNEL_HEAP_START && Dropped(old(vmm.Now()), vmm.Now(), (maj - KERNEL_HEAP_START) / 4096, old(chain)[i].pages)
      ensures Inv()
    {
      hide Inv, RangeAllocator.Valid, RangeAllocator.StackReady, RangeAllocator.Owned, PagesAgree, Chunk.Ok, ChainOk;
      hide RunHas, Rep;
      ghost var chain0, owned := chain, vmm.Owned();
      PagesHere(i);
      RunPages(chain, owned, i);
      var pages := majors[maj].pages;
      UnlinkRunAt(maj, i);
      r := vmm.FreePages(maj, pages);
      DropPages(chain0, owned, vmm.Owned(), i);
    }

    lemma PagesHere(i: nat)
      requires Inv() && i < |chain|
      ensures ChainOk(chain) && chain[i].base % 4096 == 0 && chain[i].pages < U32
      ensures chain[i].base in majors && majors[chain[i].base].pages == chain[i].pages
    {
      hide AlignOk, Held, InUse;
      HeadersOf(majors, minors, chain, i);
    }

    /** The end of kfree for a run still in use: it becomes the best bet if there is one and, as
        signed 32-bit numbers, it has less free. */
    method RetargetBet(maj: nat)
      requires IsRun(chain, maj)
      requires Inv()
      modifies this`bestBet
      ensures bestBet == if old(bestBet) != 0 && ToInt32(BetFree(chain, maj)) > ToInt32(BetFree(chain, old(bestBet))) then maj else old(bestBet)
      ensures Inv()
    {
      hide Rep, AlignOk, IsRun, Held, InUse, ToInt32, BetFree, Free;
      if bestBet != 0 {
        RunKnown(bestBet);
        RunKnown(maj);
        var bestSize := ToInt32(majors[bestBet].size - majors[bestBet].usage);
        var majSize := ToInt32(majors[maj].size - majors[maj].usage);
        if majSize > bestSize { bestBet := maj; }
      }
    }

    lemma RunKnown(a: nat)
      requires Inv() && IsRun(chain, a)
      ensures a in majors && a != 0 && majors[a].size - majors[a].usage == BetFree(chain, a)
    {
      hide AlignOk, Held, InUse, BetFree, Chunk.Usage;
      var i: nat :| i < |chain| && chain[i].base == a;
      HeadersOf(majors, minors, chain, i);
      BetFreeAt(chain, i);
    }

    /** Block k of run i is freed: it leaves its run, its header becomes plain bytes, and if it was the
        last one there, the run leaves the list and exactly its pages go back. */
    twostate predicate Freed(i: nat, k: nat)
      reads this, vmm.Footprint()
    {
      && Listed(old(chain), i, k) && chain == Without(old(chain), i, k)
      && mem == Dump(old(mem), old(chain)[i].blocks[k].addr, DeadMinor(old(chain)[i], k))
      && (forall p: nat :: p in vmm.Owned() <==> p in old(vmm.Owned()) && !(|old(chain)[i].blocks| == 1 && RunHas(old(chain)[i], p)))
      && Relieved(old(vmm.Now()), vmm.Now(), old(chain)[i])
      && BetFreed(old(chain), chain, old(bestBet), bestBet, i)
      && warnings == old(warnings) && errors == old(errors)
    }

    /** kfree. NULL only counts a warning. A pointer whose alignment byte or magic word lies in no run
        faults; any other from which UNALIGN reaches no live header only counts an error. Otherwise
        exactly that block is freed. */
    method Kfree(ptr: nat) returns (r: Halting<()>, ghost i: nat, ghost k: nat)
      requires ptr == 0 || Plain(chain, mem, ptr)
      requires Valid()
      modifies this`majors, this`minors, this`mem, this`memRoot, this`bestBet, this`inuseTotal, this`heldTotal, this`warnings, this`errors, this`chain, vmm.Footprint()
      ensures r.Halted? <==> ptr != 0 && Faults(old(chain), old(mem), ptr)
      ensures r.Halted? ==> r.reason == PageFault && Ignored(0, 0)
      ensures ptr == 0 ==> Ignored(1, 0)
      ensures r.Returned? && ptr != 0 && !LiveAt(old(chain), Unalign(old(mem), ptr) - MINOR) ==> Ignored(0, 1)
      ensures r.Returned? && ptr != 0 && LiveAt(old(chain), Unalign(old(mem), ptr) - MINOR) ==>
        Freed(i, k) && old(chain)[i].blocks[k].addr == Unalign(old(mem), ptr) - MINOR
      ensures Steady(old(vmm.Now()), vmm.Now())
      ensures Valid()
    {
      hide RangeAllocator.Now, Steady, Reached, Relieved;
      hide Inv, Rep, Unalign, RangeAllocator.Ready, RangeAllocator.Owned, PagesAgree, NonEmpty, RunHas, Chunk.Remove, Faults, Plain, MinorAt, Dump, MagicWord, ByteOf;
      i, k := 0, 0;
      BooksHere();
      if ptr == 0 {
        warnings := warnings + 1;
        return Returned(()), 0, 0;
      }
      PlainInHeap(chain, mem, ptr);
      var m := FindMagic(ptr);
      if m.Halted? { return Halted(m.reason), 0, 0; }
      var min := m.value;
      LiveIffMagic(min);
      if MagicAt(min) != LIBALLOC_MAGIC {
        errors := errors + 1;
        return Returned(()), 0, 0;
      }
      i, k := FreeAt(min);
      return Returned(()), i, k;
    }

    /** kfree from a live header on. */
    method FreeAt(min: nat) returns (ghost i: nat, ghost k: nat)
      requires LiveAt(chain, min)
      requires Valid()
      modifies this`majors, this`minors, this`mem, this`memRoot, this`bestBet, this`inuseTotal, this`heldTotal, this`chain, vmm.Footprint()
      ensures Freed(i, k) && old(chain)[i].blocks[k].addr == min
      ensures Steady(old(vmm.Now()), vmm.Now())
      ensures Valid()
    {
      hide RangeAllocator.Now, Steady, Reached, Dropped, Relieved, BetFree, Free, ToInt32, BetFreed;
      hide Inv, Rep, RangeAllocator.Ready, RangeAllocator.Owned, PagesAgree, NonEmpty, RunHas, Chunk.Remove, DeadMinor, Dump;
      i, k := FindHeader(chain, min);
      ghost var chain0, b := chain, vmm.Now();
      BooksHere();
      PagesHere(i);
      OwnerHere(i, k);
      var maj := minors[min].block;
      Retire(min, i, k, DeadMinor(chain[i], k));
      UnlinkBlock(min, i, k);
      RemoveKeepsPages(chain0, i, k, vmm.Owned());
      Settle(maj, i);
      BetSettled(chain0, i, k, old(bestBet), bestBet);
      WithoutNonEmpty(chain0, i, k);
      RelievedHere(b, vmm.Now(), chain0, i, k);
    }

    /** The end of kfree: the run goes if it has become empty. */
    method Settle(maj: nat, ghost i: nat)
      requires i < |chain| && chain[i].base == maj
      requires vmm.Ready() && PagesAgree(chain, vmm.Owned())
      requires Inv()
      modifies this`majors, this`memRoot, this`bestBet, this`heldTotal, this`chain, vmm.Footprint()
      ensures chain == if old(chain)[i].blocks == [] then old(chain)[..i] + old(chain)[i + 1..] else old(chain)
      ensures if old(chain)[i].blocks == []
              then maj >= KERNEL_HEAP_START && Dropped(old(vmm.Now()), vmm.Now(), (maj - KERNEL_HEAP_START) / 4096, old(chain)[i].pages)
              else vmm.Now() == old(vmm.Now())
      ensures forall p: nat :: p in vmm.Owned() <==> p in old(vmm.Owned()) && !(old(chain)[i].blocks == [] && RunHas(old(chain)[i], p))
      ensures bestBet == if old(chain)[i].blocks == [] then (if old(bestBet) == maj then 0 else old(bestBet))
                         else if old(bestBet) != 0 && ToInt32(Free(chain[i])) > ToInt32(BetFree(chain, old(bestBet))) then maj else old(bestBet)
      ensures vmm.Ready() && PagesAgree(chain, vmm.Owned())
      ensures Inv()
    {
      hide RangeAllocator.Now, Dropped, BetFree, Free, ToInt32;
      hide Inv, Rep, RangeAllocator.Ready, RangeAllocator.Owned, PagesAgree, RunHas, AlignOk, ChainOk;
      RunHere(i);
      InvParts();
      BetFreeAt(chain, i);
      if majors[maj].first == 0 {
        var released := ReleaseRun(maj, i);
      } else {
        RetargetBet(maj);
      }
    }

    lemma LiveIffMagic(a: int)
      requires Inv() && (LiveAt(chain, a) || MagicWord(mem, a) != LIBALLOC_MAGIC)
      ensures MagicAt(a) == LIBALLOC_MAGIC == 0xC001_C0DE <==> LiveAt(chain, a)
      ensures MagicAt(a) == LIBALLOC_MAGIC ==> a in minors
    {
      hide AlignOk, Held, InUse, ChainOk, MajorsOk;
      if LiveAt(chain, a) {
        var i: nat, k: nat :| Listed(chain, i, k) && chain[i].blocks[k].addr == a;
        assert MinorsOk(minors, chain[i]);
        assert minors[chain[i].blocks[k].addr] == MinorAt(chain[i], k);
      }
    }

    lemma OwnerHere(i: nat, k: nat)
      requires Inv() && Listed(chain, i, k)
      ensures chain[i].blocks[k].addr in minors && minors[chain[i].blocks[k].addr].block == chain[i].base
    {
      hide AlignOk, Held, InUse;
      HeadersOf(majors, minors, chain, i);
    }

    /** Nothing but the two counters changed, and those by the given amounts. */
    twostate predicate Ignored(w: nat, e: nat)
      reads this, vmm.Footprint()
    {
      && warnings == old(warnings) + w && errors == old(errors) + e
      && chain == old(chain) && majors == old(majors) && minors == old(minors) && mem == old(mem)
      && memRoot == old(memRoot) && bestBet == old(bestBet) && vmm.Now() == old(vmm.Now())
    }

    // ----- bytes -----

    /** liballoc_memcpy: word by word, then byte by byte; a copy of the byte sequence. */
    method Memcpy(dst: nat, src: nat, n: nat)
      requires dst + n <= src || src + n <= dst
      modifies this`mem
      ensures forall a: nat :: dst <= a < dst + n ==> ByteOf(mem, a) == ByteOf(old(mem), a - dst + src)
      ensures forall a: nat :: !(dst <= a < dst + n) ==> ByteOf(mem, a) == ByteOf(old(mem), a)
    {
      hide LoadWord, StoreWord, ByteOf;
      var d, s, left := dst, src, n;
      while left >= 4
        invariant 0 <= left <= n && d == dst + (n - left) && s == src + (n - left)
        invariant forall a: nat :: dst <= a < d ==> ByteOf(mem, a) == ByteOf(old(mem), a - dst + src)
        invariant forall a: nat :: !(dst <= a < d) ==> ByteOf(mem, a) == ByteOf(old(mem), a)
      {
        WordCopy(mem, d, s);
        mem := StoreWord(mem, d, LoadWord(mem, s));
        d, s, left := d + 4, s + 4, left - 4;
      }
      while left > 0
        invariant 0 <= left <= n && d == dst + (n - left) && s == src + (n - left)
        invariant forall a: nat :: dst <= a < d ==> ByteOf(mem, a) == ByteOf(old(mem), a - dst + src)
        invariant forall a: nat :: !(dst <= a < d) ==> ByteOf(mem, a) == ByteOf(old(mem), a)
      {
        ghost var m := mem;
        StoreByte(mem, d, ByteOf(mem, s));
        mem := mem[d := ByteOf(mem, s)];
        assert forall a: nat :: dst <= a <= d ==> ByteOf(mem, a) == if a == d then ByteOf(m, s) else ByteOf(m, a);
        d, s, left := d + 1, s + 1, left - 1;
      }
      assert d == dst + n;
    }

    /** liballoc_memset with zero. */
    method MemsetZero(s: nat, n: nat)
      modifies this`mem
      ensures forall a: nat :: s <= a < s + n ==> ByteOf(mem, a) == 0
      ensures forall a: nat :: !(s <= a < s + n) ==> ByteOf(mem, a) == ByteOf(old(mem), a)
    {
      for i := 0 to n
        invariant forall a: nat :: s <= a < s + i ==> ByteOf(mem, a) == 0
        invariant forall a: nat :: !(s <= a < s + i) ==> ByteOf(mem, a) == ByteOf(old(mem), a)
      {
        ghost var m := mem;
        mem := mem[s + i := 0];
        assert forall a: nat :: s <= a <= s + i ==> ByteOf(mem, a) == if a == s + i then 0 else ByteOf(m, a);
      }
    }

    /** A client stores a byte inside its own block; the heap stays valid. */
    method ClientStore(a: nat, v: byte, ghost i: nat, ghost k: nat)
      requires Listed(chain, i, k) && InPayload(chain[i].blocks[k], a)
      requires Valid()
      modifies this`mem
      ensures mem == old(mem)[a := v]
      ensures Valid()
    {
      hide Rep, AlignOk, RangeAllocator.Ready, PagesAgree, NonEmpty, Held, InUse, IsRun;
      InvParts();
      PayloadStore(mem, mem[a := v], chain, i, k);
      mem := mem[a := v];
    }

    /** kfree of what kmalloc returned undoes it: the same runs with the same blocks in the same
        places, the same pages held on the same frames, no new table but on the way to the pages of a
        new run, and no byte of a run changed but the block's header and its one alignment byte. */
    method MallocThenFree(reqSize: nat) returns (r: Halting<()>, ghost b: Block)
      requires Servable(reqSize)
      requires Valid()
      modifies this, vmm.Footprint()
      ensures r.Halted? <==> Starved(old(chain), old(vmm.Now()), Frames(), PaddedSize(reqSize))
      ensures r.Halted? ==> GaveUp(old(vmm.Now()), r.reason, PaddedSize(reqSize)) && chain == old(chain) && mem == old(mem)
      ensures r.Returned? ==> chain == old(chain) && errors == old(errors) && warnings == old(warnings)
      ensures r.Returned? ==>
        if AllFull(old(chain), PaddedSize(reqSize)) then Visited(old(vmm.Now()), vmm.Now(), PagesFor(PaddedSize(reqSize)))
        else vmm.Now() == old(vmm.Now())
      ensures r.Returned? ==> Moved(old(Standing()), Standing(), Frames(), reqSize, b, b)
      ensures r.Returned? ==> forall a: nat :: Resident(chain, a) && a != AlignByteOf(b) && !(b.addr <= a < b.Body()) ==>
        ByteOf(mem, a) == ByteOf(old(mem), a)
      ensures r.Returned? ==> Valid()
    {
      hide RangeAllocator.Now, Steady, Starved, GaveUp, Supplied, Relieved, Visited, PagesFor, BetAfter, BetFreed, Allotted, Vacated, Moved;
      hide Inv, Rep, Unalign, RangeAllocator.Ready, RangeAllocator.Owned, NonEmpty, PagesAgree, Served, LiveAt, AlignOk, Without, ChainOk;
      hide Resident, IsLive, Plain, Faults, Ptr, MinorAt, Dump, ByteOf, MagicWord, AllFull;
      b := Block(0, 0, 0);
      ghost var chain0, books0 := chain, vmm.Now();
      BooksHere();
      var p, i, k, s := Kmalloc(reqSize);
      if p.Halted? { return Halted(p.reason), b; }
      ghost var chain1, mem1, books1 := chain, mem, vmm.Now();
      ValidParts();
      ServedListed(chain0, chain1, old(bestBet), reqSize, s, i, k);
      b := chain[i].blocks[k];
      ghost var now1 := Standing();
      AllottedAt(old(Standing()), now1, Frames(), reqSize, s, i, k);
      ListedLive(chain, i, k);
      OwnPointer(mem, chain, vmm.Owned(), b);
      PtrPositive(b);
      var f, i', k' := Kfree(p.value);
      SameBlock(chain1, i, k, i', k');
      DumpEffect(mem1, b, DeadMinor(chain1[i], k));
      ServedUndone(chain0, chain1, old(bestBet), reqSize, s, i, k);
      VacatedAt(now1, Standing(), i, k);
      MovedVia(old(Standing()), now1, Standing(), Frames(), reqSize, b, b);
      SuppliedRelieved(chain0, chain1, old(bestBet), reqSize, s, i, k, books0, books1, vmm.Now(), Frames());
      return Returned(()), b;
    }

    /** Freeing a block twice in a row: the second time only counts an error if the block's run held
        another block, and faults if it did not. */
    method DoubleFree(p: nat, ghost b: Block) returns (r: Halting<()>, ghost i: nat, ghost k: nat)
      requires IsLive(chain, b) && p == Ptr(b)
      requires Valid()
      modifies this, vmm.Footprint()
      ensures Listed(old(chain), i, k) && old(chain)[i].blocks[k] == b && chain == Without(old(chain), i, k)
      ensures r.Returned? <==> |old(chain)[i].blocks| > 1
      ensures r.Returned? ==> errors == old(errors) + 1
      ensures r.Halted? ==> r.reason == PageFault && errors == old(errors)
      ensures Relieved(old(vmm.Now()), vmm.Now(), old(chain)[i]) && Vacated(old(Standing()), Standing(), b)
      ensures Valid()
    {
      hide RangeAllocator.Now, Steady, Relieved, BetFreed, Vacated;
      hide Inv, Rep, Unalign, RangeAllocator.Ready, RangeAllocator.Owned, NonEmpty, PagesAgree, LiveAt, AlignOk, Without, ChainOk;
      hide Resident, IsLive, Plain, Faults, Ptr, MinorAt, Dump, ByteOf, MagicWord;
      ghost var chain0, mem0, owned0 := chain, mem, vmm.Owned();
      ValidParts();
      OwnPointer(mem, chain, owned0, b);
      PtrPositive(b);
      i, k := FindBlock(chain, b);
      var first, j, l := Kfree(p);
      SameBlock(chain0, i, k, j, l);
      DumpEffect(mem0, b, DeadMinor(chain0[i], k));
      VacatedAt(old(Standing()), Standing(), i, k);
      SecondFree(mem0, mem, chain0, owned0, i, k);
      var second, _, _ := Kfree(p);
      r := second;
    }

    /** krealloc. Block b0 is the one p points to, b1 what becomes of it: the same block asked for
        less, or a new one that begins with a copy of all that was asked for before. */
    method Krealloc(p: nat, size: nat) returns (r: Halting<nat>, ghost b0: Block, ghost b1: Block)
      requires Servable(size) && (p == 0 || Plain(chain, mem, p))
      requires forall b: Block :: IsLive(chain, b) && b.Body() == Unalign(mem, p) ==> p == Ptr(b)
      requires Valid()
      modifies this, vmm.Footprint()
      // the pointer is followed as in kfree
      ensures r.Halted? && r.reason == PageFault <==> p != 0 && Faults(old(chain), old(mem), p)
      ensures r.Halted? && r.reason == PageFault ==> Ignored(0, 0)
      // otherwise only a new or a growing block can halt, and only for want of memory
      ensures r.Halted? && r.reason != PageFault ==>
        && size != 0 && Starved(old(chain), old(vmm.Now()), Frames(), PaddedSize(size)) && GaveUp(old(vmm.Now()), r.reason, PaddedSize(size))
        && Inv() && chain == old(chain) && mem == old(mem)
        && (p != 0 ==> IsLive(chain, b0) && p == Ptr(b0) && b0.req < size)
      ensures r == Halted(HeapExhausted) ==> Valid()
      ensures r.Returned? ==> Steady(old(vmm.Now()), vmm.Now())
      // nothing to reallocate
      ensures r.Returned? && size != 0 && p != 0 && !LiveAt(old(chain), Unalign(old(mem), p) - MINOR) ==>
        r.value == 0 && Ignored(0, 1)
      // a size of zero frees
      ensures r.Returned? && size == 0 ==> r.value == 0
      ensures r.Returned? && size == 0 && p == 0 ==> Ignored(1, 0)
      ensures r.Returned? && size == 0 && p != 0 && !LiveAt(old(chain), Unalign(old(mem), p) - MINOR) ==> Ignored(0, 1)
      ensures r.Returned? && size == 0 && p != 0 && LiveAt(old(chain), Unalign(old(mem), p) - MINOR) ==> 
        p == Ptr(b0) && Gone(b0) && Vacated(old(Standing()), Standing(), b0) && HeaderOnly(old(mem), mem, b0) && Uncounted()
      // NULL allocates
      ensures r.Returned? && size != 0 && p == 0 ==>
        && r.value == Ptr(b1) && b1.req == size && Wrote(old(chain), old(mem), mem, b1) && !IsLive(old(chain), b1)
        && Allotted(old(Standing()), Standing(), Frames(), size, b1) && Uncounted()
        && !Starved(old(chain), old(vmm.Now()), Frames(), PaddedSize(size))
        && forall d: Block :: IsLive(chain, d) <==> IsLive(old(chain), d) || d == b1
      // otherwise the block shrinks in place or moves
      ensures r.Returned? && size != 0 && p != 0 && LiveAt(old(chain), Unalign(old(mem), p) - MINOR) ==>
        && p == Ptr(b0) && r.value == Ptr(b1) && b1.req == size && Resized(b0, b1) && Uncounted()
        && (b0.req >= size ==> Trimmed(old(Standing()), Standing(), b0, size))
        && (b0.req < size ==>
              && Moved(old(Standing()), Standing(), Frames(), size, b0, b1) && SparedBoth(old(chain), old(mem), mem, b0, b1)
              && !Starved(old(chain), old(vmm.Now()), Frames(), PaddedSize(size)))
      ensures r.Returned? ==> Valid()
    {
      hide RangeAllocator.Now, Steady, Reached, Starved, Supplied, Stranded, Shortage, BetAfter, Allotted, Vacated, Moved, Trimmed, HeaderOnly, SparedBoth;
      hide Inv, Rep, WithAlign, Wrote, Unalign, RangeAllocator.Ready, RangeAllocator.Owned, RangeAllocator.Spent, Exhausted, PagesAgree, NonEmpty, Served, AlignOk, Without, ChainOk;
      hide InPayload, Plain, Faults, AllFull, MagicWord, ByteOf, Copied, OthersKeep, Replaced, IsLive;
      b0, b1 := Block(0, 0, 0), Block(0, 0, 0);
      ValidParts();
      BooksHere();
      if size == 0 {
        r, b0 := FreeBlock(p);
        return;
      }
      if p == 0 {
        ghost var i, k, s;
        r, i, k, s := Kmalloc(size);
        if r.Returned? {
          ValidParts();
          ServedListed(old(chain), chain, old(bestBet), size, s, i, k);
          ServedLive(old(chain), chain, old(bestBet), size, s, i, k);
          b1 := chain[i].blocks[k];
          AllottedAt(old(Standing()), Standing(), Frames(), size, s, i, k);
        }
        return;
      }
      PlainInHeap(chain, mem, p);
      var m := FindMagic(p);
      if m.Halted? { return Halted(m.reason), b0, b1; }
      var min := m.value;
      LiveIffMagic(min);
      if MagicAt(min) != LIBALLOC_MAGIC {
        errors := errors + 1;
        return Returned(0), b0, b1;
      }
      r, b0, b1 := Resize(p, min, size);
    }

    /** No warning and no error was counted. */
    twostate predicate Uncounted()
      reads this
    {
      warnings == old(warnings) && errors == old(errors)
    }

    /** Block b0 is gone from the live ones, and no other payload has changed. */
    twostate predicate Gone(b0: Block)
      reads `chain, `mem
    {
      && IsLive(old(chain), b0) && OthersKeep(old(chain), old(mem), mem, b0)
      && forall d: Block :: IsLive(chain, d) <==> IsLive(old(chain), d) && d != b0
    }

    /** Block b1 is b0 asked for less, with no byte changed, or a new block that begins with a copy of
        b0; no other payload has changed. */
    twostate predicate Resized(b0: Block, b1: Block)
      reads `chain, `mem
    {
      && IsLive(old(chain), b0)
      && (b1.req <= b0.req ==> b1 == b0.(req := b1.req) && mem == old(mem))
      && (b1.req > b0.req ==> !IsLive(old(chain), b1))
      && Replaced(old(chain), chain, b0, b1)
      && Copied(old(mem), mem, b0, b1)
      && OthersKeep(old(chain), old(mem), mem, b0)
    }

    /** kfree, with what becomes of the live blocks. */
    method FreeBlock(p: nat) returns (r: Halting<nat>, ghost b0: Block)
      requires p == 0 || Plain(chain, mem, p)
      requires forall b: Block :: IsLive(chain, b) && b.Body() == Unalign(mem, p) ==> p == Ptr(b)
      requires Valid()
      modifies this, vmm.Footprint()
      ensures r.Halted? <==> p != 0 && Faults(old(chain), old(mem), p)
      ensures r.Halted? ==> r.reason == PageFault && Ignored(0, 0)
      ensures r.Returned? ==> r.value == 0
      ensures p == 0 ==> Ignored(1, 0)
      ensures r.Returned? && p != 0 && !LiveAt(old(chain), Unalign(old(mem), p) - MINOR) ==> Ignored(0, 1)
      ensures r.Returned? && p != 0 && LiveAt(old(chain), Unalign(old(mem), p) - MINOR) ==>
        p == Ptr(b0) && Gone(b0) && Vacated(old(Standing()), Standing(), b0) && HeaderOnly(old(mem), mem, b0) && Uncounted()
      ensures Steady(old(vmm.Now()), vmm.Now())
      ensures Valid()
    {
      hide RangeAllocator.Now, Steady, Relieved, BetFreed, Vacated, HeaderOnly;
      hide Inv, Rep, Unalign, RangeAllocator.Ready, RangeAllocator.Owned, PagesAgree, NonEmpty, AlignOk, Without, ChainOk;
      hide Plain, Faults, LiveAt, IsLive, InPayload, OthersKeep, ByteOf, Ptr, MinorAt, Dump;
      b0 := Block(0, 0, 0);
      ghost var chain0, mem0 := chain, mem;
      ValidParts();
      var f, i, k := Kfree(p);
      if f.Halted? { return Halted(f.reason), b0; }
      if p != 0 && LiveAt(chain0, Unalign(mem0, p) - MINOR) {
        b0 := chain0[i].blocks[k];
        FreedIsGone(chain0, mem0, mem, i, k, DeadMinor(chain0[i], k));
        DumpEffect(mem0, b0, DeadMinor(chain0[i], k));
        VacatedAt(old(Standing()), Standing(), i, k);
      }
      return Returned(0), b0;
    }

    /** krealloc from a live header on: shrink in place or move. */
    method Resize(p: nat, min: nat, size: nat) returns (r: Halting<nat>, ghost b0: Block, ghost b1: Block)
      requires Servable(size) && LiveAt(chain, min) && min == Unalign(mem, p) - MINOR
      requires forall b: Block :: IsLive(chain, b) && b.Body() == Unalign(mem, p) ==> p == Ptr(b)
      requires Valid()
      modifies this, vmm.Footprint()
      ensures r.Halted? <==> b0.req < size && Starved(old(chain), old(vmm.Now()), Frames(), PaddedSize(size))
      ensures r.Halted? ==> GaveUp(old(vmm.Now()), r.reason, PaddedSize(size)) && Inv() && chain == old(chain) && mem == old(mem)
      ensures IsLive(old(chain), b0) && p == Ptr(b0)
      ensures r == Halted(HeapExhausted) ==> Valid()
      ensures r.Returned? ==> r.value == Ptr(b1) && b1.req == size && Resized(b0, b1) && Uncounted()
      ensures r.Returned? && b0.req >= size ==> Trimmed(old(Standing()), Standing(), b0, size)
      ensures r.Returned? && b0.req < size ==> Moved(old(Standing()), Standing(), Frames(), size, b0, b1) && SparedBoth(old(chain), old(mem), mem, b0, b1)
      ensures r.Returned? ==> Steady(old(vmm.Now()), vmm.Now())
      ensures r.Returned? ==> Valid()
    {
      hide RangeAllocator.Now, Steady, Reached, Starved, GaveUp, Trimmed, Moved, SparedBoth;
      hide Inv, Rep, WithAlign, Unalign, RangeAllocator.Ready, RangeAllocator.Owned, PagesAgree, NonEmpty, AlignOk, ChainOk, InPayload, AllFull;
      ghost var i, k := FindHeader(chain, min);
      b0 := chain[i].blocks[k];
      assert IsLive(chain, b0);
      SizesHere(i, k);
      BooksHere();
      var realSize := minors[min].reqSize;
      if realSize >= size {
        b1 := b0.(req := size);
        ShrinkInPlace(min, size, i, k);
        TrimmedAt(old(Standing()), Standing(), i, k, size);
        return Returned(p), b0, b1;
      }
      r, b1 := MoveBlock(p, size, realSize, i, k);
    }

    lemma SizesHere(i: nat, k: nat)
      requires Inv() && Listed(chain, i, k)
      ensures chain[i].blocks[k].addr in minors && minors[chain[i].blocks[k].addr].reqSize == chain[i].blocks[k].req
    {
      hide AlignOk, Held, InUse;
      HeadersOf(majors, minors, chain, i);
    }

    /** `min->req_size = size`. */
    method ShrinkInPlace(min: nat, size: nat, ghost i: nat, ghost k: nat)
      requires Listed(chain, i, k) && chain[i].blocks[k].addr == min && size <= chain[i].blocks[k].req
      requires Valid()
      modifies this`minors, this`chain
      ensures chain == old(chain)[i := Shrunk(old(chain)[i], k, size)]
      ensures Replaced(old(chain), chain, old(chain)[i].blocks[k], old(chain)[i].blocks[k].(req := size))
      ensures Valid()
    {
      hide Rep, RangeAllocator.Ready, RangeAllocator.Owned, PagesAgree, AlignOk, Held, InUse, IsRun, NonEmpty;
      SizesHere(i, k);
      ShrinkKeeps(majors, minors, mem, chain, i, k, size);
      SameRunsSamePages(chain, chain[i := Shrunk(chain[i], k, size)], vmm.Owned());
      minors := minors[min := minors[min].(reqSize := size)];
      chain := chain[i := Shrunk(chain[i], k, size)];
    }

    /** The moving half of krealloc: kmalloc, memcpy, kfree. */
    method MoveBlock(p: nat, size: nat, realSize: nat, ghost i: nat, ghost k: nat) returns (r: Halting<nat>, ghost b1: Block)
      requires Servable(size) && Listed(chain, i, k) && p == Ptr(chain[i].blocks[k]) && realSize == chain[i].blocks[k].req < size
      requires Valid()
      modifies this, vmm.Footprint()
      ensures r.Halted? <==> Starved(old(chain), old(vmm.Now()), Frames(), PaddedSize(size))
      ensures r.Halted? ==> GaveUp(old(vmm.Now()), r.reason, PaddedSize(size)) && Inv() && chain == old(chain) && mem == old(mem)
      ensures r == Halted(HeapExhausted) ==> Valid()
      ensures r.Returned? ==> r.value == Ptr(b1) && b1.req == size && Resized(old(chain)[i].blocks[k], b1) && Uncounted()
      ensures r.Returned? ==> Moved(old(Standing()), Standing(), Frames(), size, old(chain)[i].blocks[k], b1)
      ensures r.Returned? ==> SparedBoth(old(chain), old(mem), mem, old(chain)[i].blocks[k], b1)
      ensures r.Returned? ==> Steady(old(vmm.Now()), vmm.Now())
      ensures r.Returned? ==> Valid()
    {
      hide RangeAllocator.Now, Steady, Reached, Starved, GaveUp, Supplied, Relieved, BetAfter, BetFreed, Allotted, Vacated, Moved, Spared, SparedBoth, HeaderOnly;
      hide Inv, Rep, WithAlign, Wrote, Unalign, RangeAllocator.Ready, RangeAllocator.Owned, PagesAgree, NonEmpty, Served, AlignOk, Without, ChainOk, Ptr, InPayload;
      hide Plain, Faults, LiveAt, ByteOf, MinorAt, Dump, AllFull, IsLive, OthersKeep, Copied;
      ghost var chain0, mem0, b0 := chain, mem, chain[i].blocks[k];
      ghost var books0, owned0 := vmm.Now(), vmm.Owned();
      ListedLive(chain0, i, k);
      ValidParts();
      BooksHere();
      b1 := b0;
      ghost var s, j, l;
      r, j, l, s := Kmalloc(size);
      if r.Halted? { return; }
      ValidParts();
      ServedListed(chain0, chain, old(bestBet), size, s, j, l);
      ServedLive(chain0, chain, old(bestBet), size, s, j, l);
      b1 := chain[j].blocks[l];
      ghost var chain1, mem1, now1 := chain, mem, Standing();
      AllottedAt(old(Standing()), now1, Frames(), size, s, j, l);
      PayloadsApart(chain1, b0, b1);
      CopyInto(r.value, p, realSize, j, l);
      ValidParts();
      MoveKeeps(chain0, chain1, mem0, mem1, mem, b0, b1);
      ghost var mem2, books1 := mem, vmm.Now();
      SparedNew(chain0, mem0, mem1, mem2, b1, realSize);
      OwnPointer(mem, chain1, vmm.Owned(), b0);
      ghost var i1, k1 := FindBlock(chain1, b0);
      OldRun(chain0, chain1, old(bestBet), size, s, j, l, i1, k1);
      PagesHere(i1);
      var f, i2, k2 := Kfree(p);
      SameBlock(chain1, i1, k1, i2, k2);
      FreedIsGone(chain1, mem2, mem, i1, k1, DeadMinor(chain1[i1], k1));
      MovedAndFreed(chain0, chain1, mem0, mem2, mem, b0, b1);
      RelievedSteady(books0, books1, vmm.Now(), chain0, i1, chain1[i1]);
      DumpEffect(mem2, b0, DeadMinor(chain1[i1], k1));
      SparedMoved(chain0, mem0, mem2, mem, b0, b1);
      VacatedAt(now1, Standing(), i1, k1);
      MovedVia(old(Standing()), now1, Standing(), Frames(), size, b0, b1);
    }

    /** The copy into a block just obtained. */
    method CopyInto(dst: nat, src: nat, n: nat, ghost i: nat, ghost k: nat)
      requires Listed(chain, i, k) && dst == Ptr(chain[i].blocks[k]) && n <= chain[i].blocks[k].req
      requires dst + n <= src || src + n <= dst
      requires Valid()
      modifies this`mem
      ensures forall a: nat :: dst <= a < dst + n ==> ByteOf(mem, a) == ByteOf(old(mem), a - dst + src)
      ensures forall a: nat :: !(dst <= a < dst + n) ==> ByteOf(mem, a) == ByteOf(old(mem), a)
      ensures Valid()
    {
      hide Rep, AlignOk, RangeAllocator.Ready, RangeAllocator.Owned, PagesAgree, NonEmpty, Held, InUse, IsRun, Ptr, ByteOf;
      InvParts();
      Memcpy(dst, src, n);
      PayloadStore(old(mem), mem, chain, i, k);
    }

    /** kcalloc: the product is truncated to an int; the block of that many bytes is all zero, and no
        other live payload changes. */
    method Kcalloc(nobj: nat, size: nat) returns (r: Halting<nat>, ghost b: Block)
      requires CallocSize(nobj, size) >= 0
      requires Valid()
      modifies this, vmm.Footprint()
      ensures r.Halted? <==> Starved(old(chain), old(vmm.Now()), Frames(), PaddedSize(CallocSize(nobj, size)))
      ensures r.Halted? ==> GaveUp(old(vmm.Now()), r.reason, PaddedSize(CallocSize(nobj, size))) && Inv() && chain == old(chain) && mem == old(mem)
      ensures r == Halted(HeapExhausted) ==> Valid()
      ensures r.Returned? ==> Steady(old(vmm.Now()), vmm.Now())
      ensures r.Returned? ==>
        && r.value == Ptr(b) && b.req == CallocSize(nobj, size) && !IsLive(old(chain), b)
        && (forall d: Block :: IsLive(chain, d) <==> IsLive(old(chain), d) || d == b)
        && (forall a: nat :: InPayload(b, a) ==> ByteOf(mem, a) == 0)
        && (forall d: Block, a: nat :: IsLive(old(chain), d) && InPayload(d, a) ==> ByteOf(mem, a) == ByteOf(old(mem), a))
      ensures r.Returned? ==> Allotted(old(Standing()), Standing(), Frames(), CallocSize(nobj, size), b) && Spared(old(chain), old(mem), mem, b)
      ensures Uncounted()
      ensures r.Returned? ==> Valid()
    {
      hide RangeAllocator.Now, Steady, Starved, GaveUp, Supplied, BetAfter, Allotted, Spared;
      hide Inv, Rep, WithAlign, Wrote, RangeAllocator.Ready, RangeAllocator.Owned, AllFull, PagesAgree, NonEmpty, Served, AlignOk, ChainOk, Ptr, CallocSize, ByteOf;
      ghost var chain0, mem0 := chain, mem;
      ValidParts();
      b := Block(0, 0, 0);
      CallocRange(nobj, size);
      var realSize := CallocSize(nobj, size);
      ghost var s, i, k;
      r, i, k, s := Kmalloc(realSize);
      if r.Halted? { return; }
      ValidParts();
      ServedListed(chain0, chain, old(bestBet), realSize, s, i, k);
      ServedLive(chain0, chain, old(bestBet), realSize, s, i, k);
      b := chain[i].blocks[k];
      AllottedAt(old(Standing()), Standing(), Frames(), realSize, s, i, k);
      ghost var mem1 := mem;
      ZeroInto(r.value, realSize, i, k);
      ZeroKeeps(chain0, chain, mem0, mem1, mem, b);
      SparedNew(chain0, mem0, mem1, mem, b, realSize);
    }

    method ZeroInto(dst: nat, n: nat, ghost i: nat, ghost k: nat)
      requires Listed(chain, i, k) && dst == Ptr(chain[i].blocks[k]) && n <= chain[i].blocks[k].req
      requires Valid()
      modifies this`mem
      ensures forall a: nat :: dst <= a < dst + n ==> ByteOf(mem, a) == 0
      ensures forall a: nat :: !(dst <= a < dst + n) ==> ByteOf(mem, a) == ByteOf(old(mem), a)
      ensures Valid()
    {
      hide Rep, AlignOk, RangeAllocator.Ready, RangeAllocator.Owned, PagesAgree, NonEmpty, Held, InUse, IsRun, Ptr, ByteOf;
      InvParts();
      MemsetZero(dst, n);
      PayloadStore(old(mem), mem, chain, i, k);
    }

    lemma RootIsFirst()
      requires Inv()
      ensures memRoot == 0 <==> chain == []
      ensures chain != [] ==> memRoot == chain[0].base
      ensures chain == [] ==> bestBet == 0
    {
      if chain != [] { RunOk(chain, 0); }
    }

    /** What the header of run i says. */
    lemma RunHere(i: nat)
      requires Inv() && i < |chain|
      ensures chain[i].base in majors && chain[i].Ok() && IsRun(chain, chain[i].base)
      ensures var m := majors[chain[i].base];
        && m.size - m.usage == chain[i].Size() - chain[i].Usage() == Free(chain[i])
        && (m.next == 0 <==> i == |chain| - 1) && (m.next != 0 ==> m.next == chain[i + 1].base)
        && (m.first == 0 <==> chain[i].blocks == [])
      ensures forall size: nat :: chain[i].blocks == [] && chain[i].FitsAt(0, size) ==> chain[i].Size() - chain[i].Usage() >= size + MINOR
    {
      hide AlignOk, Held, InUse;
      HeadersOf(majors, minors, chain, i);
      if i + 1 < |chain| { RunOk(chain, i + 1); }
    }
  }
}
