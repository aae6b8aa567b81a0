/** What the single steps of the kernel heap, kernel/mm/kheap.c, compute and keep, stated on values:
    sizes and alignment, the search for a gap, and the effect on headers, totals, bytes and pages
    of placing, unlinking, adding and releasing. */
module HeapSteps {
  import opened Words
  import opened HeapLayout
  import opened HeapLinks
  import opened Vmm

  const PAGE_COUNT: nat := 16   // l_pageCount

  // ----- sizes -----

  /** The pages allocate_new_page asks for; `st` is an unsigned int and wraps. */
  function PagesFor(size: nat): nat {
    var st := ((size + MAJOR) % U32 + MINOR) % U32;
    var pages := if st % 4096 == 0 then st / 4096 else st / 4096 + 1;
    if pages < PAGE_COUNT then PAGE_COUNT else pages
  }

  /** The `size` field of a new major, an unsigned int too. */
  function MajorBytes(pages: nat): nat { pages * 4096 % U32 }

  /** A new major has room for the block it is made for, with both headers, exactly when the size
      stays a page away from wrapping the 32-bit fields. */
  lemma NewMajorHolds(size: nat)
    ensures MajorBytes(PagesFor(size)) >= size + MAJOR + MINOR <==> size + MAJOR + MINOR + 4095 < U32
    ensures size + MAJOR + MINOR + 4095 < U32 ==> MajorBytes(PagesFor(size)) == 4096 * PagesFor(size)
  {
  }

  /** A new run has the fewest pages, but at least sixteen, that hold `size` bytes and both headers. */
  lemma NewMajorPages(size: nat)
    requires size + 4175 < U32
    ensures PagesFor(size) >= 16 && 4096 * PagesFor(size) >= size + 80
    ensures PagesFor(size) == 16 || 4096 * (PagesFor(size) - 1) < size + 80
  {
  }

  /** A request 81 bytes short of 4 GiB gets a major whose size field is 0; 80 bytes short, one of
      sixteen pages. */
  lemma NewMajorTooSmall()
    ensures MajorBytes(PagesFor(U32 - 81)) == 0 && MajorBytes(PagesFor(U32 - 80)) == 0x1_0000
  {
  }

  /** A request too large for the run made for it fits no other run either. */
  lemma NoRunHolds(c: Chunk, size: nat)
    requires c.Ok() && size + MAJOR + MINOR + 4095 >= U32
    ensures c.Full(size)
  {
    forall k: nat | k <= |c.blocks| ensures !c.FitsAt(k, size) {
      GapOrder(c, k);
    }
  }

  /** The size kmalloc works with. */
  function PaddedSize(reqSize: nat): nat { reqSize + ALIGNMENT + ALIGN_INFO }

  predicate Servable(reqSize: nat) { PaddedSize(reqSize) + MAJOR + MINOR + 4095 < U32 }

  // ----- alignment -----

  function ByteOf(mem: map<nat, byte>, a: int): byte {
    if a in mem then mem[a] else 0
  }

  lemma LowNibble(x: nat)
    ensures And(x, 15) == x % 16
  {
    hide *;
    OnesSmall();
    AndOnes(x, 4);
    Low4(x);
  }

  /** The bytes once b's alignment byte is written: the distance from b's body to its pointer. */
  function WithAlign(mem: map<nat, byte>, b: Block): map<nat, byte> {
    AlignShift(b.Body());
    mem[AlignByteOf(b) := Ptr(b) - b.Body()]
  }

  /** The UNALIGN macro. A byte of 0x80 or more is a negative char, which fails the test as well. */
  function Unalign(mem: map<nat, byte>, p: int): int {
    var diff := ByteOf(mem, p - ALIGN_INFO);
    if diff < ALIGNMENT + ALIGN_INFO then p - diff else p
  }

  /** Every block's alignment byte holds the distance from its body to its pointer. */
  ghost predicate AlignOk(mem: map<nat, byte>, chain: seq<Chunk>) {
    forall i: nat, k: nat :: Listed(chain, i, k) ==>
      ByteOf(mem, AlignByteOf(chain[i].blocks[k])) == Ptr(chain[i].blocks[k]) - chain[i].blocks[k].Body()
  }

  /** UNALIGN inverts ALIGN: from a client's pointer it finds the body of the client's block. */
  lemma UnalignInverts(mem: map<nat, byte>, chain: seq<Chunk>, i: nat, k: nat)
    requires AlignOk(mem, chain) && Listed(chain, i, k)
    ensures Unalign(mem, Ptr(chain[i].blocks[k])) == chain[i].blocks[k].Body()
  {
    AlignShift(chain[i].blocks[k].Body());
  }

  // ----- the bytes behind addresses -----

  predicate Spans(c: Chunk, a: int) { c.base <= a < c.Limit() }

  /** Byte a lies in a listed run. */
  ghost predicate Resident(chain: seq<Chunk>, a: int) {
    exists i: nat :: i < |chain| && Spans(chain[i], a)
  }

  /** Byte a lies in the header of run c or of one of its blocks. */
  ghost predicate HeaderByte(c: Chunk, a: int) {
    c.base <= a < c.Start() || exists k: nat :: k < |c.blocks| && c.blocks[k].addr <= a < c.blocks[k].Body()
  }

  ghost predicate InHeader(chain: seq<Chunk>, a: int) {
    exists i: nat :: i < |chain| && HeaderByte(chain[i], a)
  }

  /** No byte of a run has changed. */
  ghost predicate SameIn(chain: seq<Chunk>, mem: map<nat, byte>, mem': map<nat, byte>) {
    forall a: nat :: Resident(chain, a) ==> ByteOf(mem', a) == ByteOf(mem, a)
  }

  /** No byte of a run has changed but b's alignment byte. */
  ghost predicate Wrote(chain: seq<Chunk>, mem: map<nat, byte>, mem': map<nat, byte>, b: Block) {
    forall a: nat :: Resident(chain, a) && a != AlignByteOf(b) ==> ByteOf(mem', a) == ByteOf(mem, a)
  }

  /** No byte has changed outside the header of b. */
  ghost predicate HeaderOnly(mem: map<nat, byte>, mem': map<nat, byte>, b: Block) {
    forall a: nat :: !(b.addr <= a < b.Body()) ==> ByteOf(mem', a) == ByteOf(mem, a)
  }

  /** The magic word of what is taken for a header at a. */
  function MagicWord(mem: map<nat, byte>, a: int): nat { LoadWord(mem, a + 24) }

  /** UNALIGN and the magic test read the alignment byte and the four bytes of a magic word; they
      fault exactly when one of those lies in no run. */
  ghost predicate Faults(chain: seq<Chunk>, mem: map<nat, byte>, p: nat) {
    || !Resident(chain, p - ALIGN_INFO)
    || !Resident(chain, Unalign(mem, p) - MINOR + 24) || !Resident(chain, Unalign(mem, p) - MINOR + 27)
  }

  /** A pointer into the heap that is not mistaken for a block: its alignment byte lies in no header,
      and unless it leads to a live block, the bytes read as a magic word lie in no header either and
      do not happen to be the live magic. */
  ghost predicate Plain(chain: seq<Chunk>, mem: map<nat, byte>, p: nat) {
    var min := Unalign(mem, p) - MINOR;
    && KERNEL_HEAP_START <= p < HEAP_END && !InHeader(chain, p - ALIGN_INFO)
    && (LiveAt(chain, min) ||
        (MagicWord(mem, min) != LIBALLOC_MAGIC && forall a: int :: min + 24 <= a < min + 28 ==> !InHeader(chain, a)))
  }

  /** Every byte of the body of a block is in a run and in no header. */
  lemma BodyByte(chain: seq<Chunk>, i: nat, k: nat, a: int)
    requires ChainOk(chain) && Listed(chain, i, k) && chain[i].blocks[k].Body() <= a < chain[i].blocks[k].End()
    ensures Resident(chain, a) && !InHeader(chain, a)
  {
    hide ChainOk;
    RunOk(chain, i);
    assert Spans(chain[i], a);
    forall j: nat | j < |chain| ensures !HeaderByte(chain[j], a) {
      if j != i { RunsApart(chain, i, j); }
      forall l: nat | l < |chain[j].blocks| ensures !(chain[j].blocks[l].addr <= a < chain[j].blocks[l].Body()) {
        if (j, l) != (i, k) { BlocksApart(chain, i, k, j, l); }
      }
    }
  }

  lemma RunsApart(chain: seq<Chunk>, i: nat, j: nat)
    requires ChainOk(chain) && i < |chain| && j < |chain| && i != j
    ensures Apart(chain[i], chain[j])
  {
  }

  lemma PayloadResident(chain: seq<Chunk>, b: Block, a: nat)
    requires ChainOk(chain) && IsLive(chain, b) && InPayload(b, a)
    ensures Resident(chain, a)
  {
    hide ChainOk, Resident, InHeader, Ptr;
    var i, k := FindBlock(chain, b);
    BlockSlack(chain, i, k);
    BlockLayout(b);
    BodyByte(chain, i, k, a);
  }

  /** Alignment bytes lie in the runs, so they stay as long as the runs' bytes do. */
  lemma AlignSame(chain: seq<Chunk>, mem: map<nat, byte>, mem': map<nat, byte>)
    requires ChainOk(chain) && AlignOk(mem, chain) && SameIn(chain, mem, mem')
    ensures AlignOk(mem', chain)
  {
    hide ChainOk, Ptr, ByteOf, Resident;
    forall i: nat, k: nat | Listed(chain, i, k)
      ensures ByteOf(mem', AlignByteOf(chain[i].blocks[k])) == Ptr(chain[i].blocks[k]) - chain[i].blocks[k].Body()
    {
      BlockSlack(chain, i, k);
      BlockLayout(chain[i].blocks[k]);
      BodyByte(chain, i, k, AlignByteOf(chain[i].blocks[k]));
    }
  }

  lemma SameBytes(chain: seq<Chunk>, mem: map<nat, byte>, mem': map<nat, byte>)
    requires mem == mem' || chain == []
    ensures SameIn(chain, mem, mem')
  {
  }

  /** Bytes outside a run apart from all others are all those of the others. */
  lemma OldBytes(chain: seq<Chunk>, mem: map<nat, byte>, mem': map<nat, byte>, c: Chunk)
    requires forall i :: 0 <= i < |chain| ==> Apart(chain[i], c)
    requires forall a: nat :: !(c.base <= a < c.Limit()) ==> ByteOf(mem', a) == ByteOf(mem, a)
    ensures SameIn(chain, mem, mem')
  {
    hide ByteOf;
  }

  lemma WroteAfter(chain: seq<Chunk>, mem: map<nat, byte>, mem1: map<nat, byte>, b: Block)
    requires SameIn(chain, mem, mem1)
    ensures Wrote(chain, mem, WithAlign(mem1, b), b)
  {
    hide Resident, Ptr;
    AlignShift(b.Body());
    assert AlignByteOf(b) >= 0 by { hide AlignPtr; AlignByteNat(b); }
  }

  lemma AlignByteNat(b: Block)
    ensures AlignByteOf(b) >= b.Body()
  {
    AlignShift(b.Body());
  }

  /** Writing over the header of a block that is being freed disturbs no alignment byte and no live
      payload. */
  lemma HeaderKeeps(chain: seq<Chunk>, mem: map<nat, byte>, mem': map<nat, byte>, i: nat, k: nat)
    requires ChainOk(chain) && AlignOk(mem, chain) && Listed(chain, i, k) && HeaderOnly(mem, mem', chain[i].blocks[k])
    ensures AlignOk(mem', chain)
    ensures forall d: Block, a: nat :: IsLive(chain, d) && InPayload(d, a) ==> ByteOf(mem', a) == ByteOf(mem, a)
  {
    hide ChainOk, Ptr, ByteOf, IsLive, InPayload;
    forall j: nat, l: nat | Listed(chain, j, l)
      ensures ByteOf(mem', AlignByteOf(chain[j].blocks[l])) == Ptr(chain[j].blocks[l]) - chain[j].blocks[l].Body()
    {
      BlockSlack(chain, j, l);
      BlockLayout(chain[j].blocks[l]);
      if (j, l) != (i, k) { BlocksApart(chain, i, k, j, l); }
    }
    forall d: Block, a: nat | IsLive(chain, d) && InPayload(d, a) ensures ByteOf(mem', a) == ByteOf(mem, a) {
      var j, l := FindBlock(chain, d);
      Isolation(chain, j, l, i, k, a);
    }
  }

  // ----- the pages of the runs -----

  predicate RunHas(c: Chunk, p: nat) { c.base <= KERNEL_HEAP_START + 4096 * p < c.Limit() }

  ghost predicate InSomeRun(chain: seq<Chunk>, p: nat) {
    exists i: nat :: i < |chain| && RunHas(chain[i], p)
  }

  /** The heap holds exactly the pages of its runs. */
  ghost predicate PagesAgree(chain: seq<Chunk>, owned: set<nat>) {
    && (forall p: nat :: p in owned <==> InSomeRun(chain, p))
    && (forall i :: 0 <= i < |chain| ==> KERNEL_HEAP_START <= chain[i].base && chain[i].Limit() <= KERNEL_HEAP_START + KERNEL_HEAP_SIZE)
  }

  /** A byte lies in a run exactly when its page is held. */
  lemma ResidentPages(chain: seq<Chunk>, owned: set<nat>, a: nat)
    requires ChainOk(chain) && PagesAgree(chain, owned)
    ensures Resident(chain, a) <==> a >= KERNEL_HEAP_START && (a - KERNEL_HEAP_START) / 4096 in owned
  {
    hide ChainOk;
    forall i: nat | i < |chain| ensures Spans(chain[i], a) <==> a >= KERNEL_HEAP_START && RunHas(chain[i], (a - KERNEL_HEAP_START) / 4096) {
      RunOk(chain, i);
      SpansPage(chain[i], a);
    }
    if a >= KERNEL_HEAP_START {
      assert (a - KERNEL_HEAP_START) / 4096 in owned <==> InSomeRun(chain, (a - KERNEL_HEAP_START) / 4096);
    }
  }

  lemma SpansPage(c: Chunk, a: nat)
    requires c.Ok() && KERNEL_HEAP_START <= c.base
    ensures Spans(c, a) <==> a >= KERNEL_HEAP_START && RunHas(c, (a - KERNEL_HEAP_START) / 4096)
  {
  }

  ghost predicate NonEmpty(chain: seq<Chunk>) {
    forall i :: 0 <= i < |chain| ==> chain[i].blocks != []
  }

  ghost predicate IsRun(chain: seq<Chunk>, a: nat) {
    exists i: nat :: i < |chain| && chain[i].base == a
  }

  // ----- the heap -----

  /** Run j is the best bet and has room to spare. */
  predicate BetAt(chain: seq<Chunk>, j: nat, bet: nat, size: nat) {
    j < |chain| && chain[j].base == bet && chain[j].Size() - chain[j].Usage() > size + MINOR
  }

  /** The search starts at the best bet exactly when that has room to spare, else at the root. */
  ghost predicate StartsAt(chain: seq<Chunk>, bet: nat, size: nat, s: nat) {
    if exists j: nat :: BetAt(chain, j, bet, size) then BetAt(chain, s, bet, size) else s == 0
  }

  /** How far the search has come: from run s on, with the one restart at the root; or, when every
      old run was found full, at the run made for the request. */
  ghost predicate Progress(chain0: seq<Chunk>, chain: seq<Chunk>, s: nat, pos: nat, startedBet: bool, restarted: bool, grown: bool, size: nat, bet: nat) {
    && pos < |chain| && StartsAt(chain0, bet, size, s) && !(startedBet && restarted)
    && if grown
       then AllFull(chain0, size) && pos == |chain0| && !startedBet && chain[pos].FitsAt(0, size) &&
            chain == chain0 + [Chunk(chain[pos].base, PagesFor(size), [])]
       else && chain == chain0 && s < |chain0|
            && (startedBet ==> s <= pos && forall j :: s <= j < pos ==> chain[j].Full(size))
            && (!startedBet && !restarted ==> s == 0)
            && (!startedBet ==> forall j :: 0 <= j < pos ==> chain[j].Full(size))
            && (restarted ==> forall j :: s <= j < |chain| ==> chain[j].Full(size))
  }

  /** Only run j can be the best bet. */
  lemma OneBet(chain: seq<Chunk>, bet: nat, size: nat, j: nat)
    requires ChainOk(chain) && j < |chain| && chain[j].base == bet
    ensures forall s: nat :: BetAt(chain, s, bet, size) ==> s == j
    ensures BetAt(chain, j, bet, size) <==> chain[j].Size() - chain[j].Usage() > size + MINOR
  {
    hide ChainOk, Chunk.Usage;
    forall s: nat | BetAt(chain, s, bet, size) ensures s == j { BasesDiffer(chain, s, j); }
  }

  lemma NoBet(chain: seq<Chunk>, size: nat)
    requires ChainOk(chain)
    ensures StartsAt(chain, 0, size, 0)
  {
    hide ChainOk;
    forall j: nat | j < |chain| ensures chain[j].base != 0 { RunOk(chain, j); }
  }

  lemma StartsEmpty(bet: nat, size: nat)
    ensures StartsAt([], bet, size, 0)
  {
  }

  lemma NothingFits(b: Books, frames: nat, size: nat)
    ensures AllFull([], size) && (Starved([], b, frames, size) <==> Short(b, frames, PagesFor(size)))
  {
    hide Short;
  }

  lemma ProgressStart(chain0: seq<Chunk>, chain: seq<Chunk>, s: nat, startedBet: bool, grown: bool, size: nat, bet: nat)
    requires s < |chain| && StartsAt(chain0, bet, size, s) && (!startedBet ==> s == 0)
    requires if grown then chain0 == [] && !startedBet && chain == [Chunk(chain[0].base, PagesFor(size), [])] && chain[0].FitsAt(0, size)
             else chain == chain0
    ensures Progress(chain0, chain, s, s, startedBet, false, grown, size, bet)
  {
    hide Chunk.Full, Chunk.FitsAt, PagesFor, StartsAt;
  }

  /** A full run: the search goes on to the next, restarts, or has seen everything. */
  lemma ProgressFull(chain0: seq<Chunk>, chain: seq<Chunk>, s: nat, pos: nat, startedBet: bool, restarted: bool, grown: bool, size: nat, bet: nat)
    requires Progress(chain0, chain, s, pos, startedBet, restarted, grown, size, bet) && chain[pos].Full(size)
    ensures !grown && chain == chain0
    ensures pos + 1 < |chain| ==> Progress(chain0, chain, s, pos + 1, startedBet, restarted, grown, size, bet)
    ensures pos + 1 == |chain| && startedBet ==> !restarted && Progress(chain0, chain, s, 0, false, true, grown, size, bet)
    ensures pos + 1 == |chain| && !startedBet ==> AllFull(chain0, size) && StartsAt(chain0, bet, size, s) && (restarted || s == 0)
  {
    assert chain[pos].Full(size) ==> !chain[pos].FitsAt(0, size);
    hide Chunk.Full, Chunk.FitsAt, PagesFor, StartsAt;
  }

  lemma ProgressGrow(chain0: seq<Chunk>, chain: seq<Chunk>, s: nat, size: nat, bet: nat)
    requires AllFull(chain0, size) && StartsAt(chain0, bet, size, s) && |chain| == |chain0| + 1
    requires chain == chain0 + [Chunk(chain[|chain0|].base, PagesFor(size), [])] && chain[|chain0|].FitsAt(0, size)
    ensures forall restarted: bool :: Progress(chain0, chain, s, |chain0|, false, restarted, true, size, bet)
  {
    hide AllFull, Chunk.FitsAt, PagesFor, StartsAt;
  }

  /** Only a run made for the request is empty, and it has room. */
  lemma ProgressRoom(chain0: seq<Chunk>, chain: seq<Chunk>, s: nat, pos: nat, startedBet: bool, restarted: bool, grown: bool, size: nat, bet: nat)
    requires Progress(chain0, chain, s, pos, startedBet, restarted, grown, size, bet) && NonEmpty(chain0)
    ensures chain[pos].blocks == [] <==> grown
    ensures grown ==> AllFull(chain0, size) && pos == |chain0| && chain[pos].FitsAt(0, size) && !chain[pos].Full(size)
  {
    assert chain[pos].Full(size) ==> !chain[pos].FitsAt(0, size);
    hide AllFull, Chunk.Full, Chunk.FitsAt, PagesFor, StartsAt;
  }

  /** Placing a block in the run reached serves the request. */
  lemma ProgressServed(chain0: seq<Chunk>, chain: seq<Chunk>, s: nat, pos: nat, startedBet: bool, restarted: bool, grown: bool, size: nat, bet: nat, reqSize: nat, k: nat, owned: set<nat>)
    requires Progress(chain0, chain, s, pos, startedBet, restarted, grown, size, bet) && chain[pos].LowestFit(k, size)
    requires NonEmpty(chain0) && size == PaddedSize(reqSize) && PagesAgree(chain, owned)
    ensures !grown ==> !AllFull(chain0, size)
    ensures var b := Block(chain[pos].GapStart(k), size, reqSize);
      var chain' := chain[pos := chain[pos].Insert(k, b)];
      && Served(chain0, chain', bet, reqSize, s, pos, k) && NonEmpty(chain') && PagesAgree(chain', owned)
      && chain'[pos].blocks[k] == b && chain'[pos].base == chain[pos].base
  {
    ProgressRoom(chain0, chain, s, pos, startedBet, restarted, grown, size, bet);
    assert !chain[pos].Full(size);
    var b := Block(chain[pos].GapStart(k), size, reqSize);
    var chain' := chain[pos := chain[pos].Insert(k, b)];
    hide PagesFor, PagesAgree, Chunk.Full, Chunk.FitsAt, StartsAt;
    InsertKeepsPages(chain, pos, k, b, owned);
    if grown {
      assert chain'[pos].blocks == [b];
      assert chain'[..pos] == chain0;
    }
  }

  /** The outcome of a served request: the block is in gap k of run i, size and all; the runs are as
      before, or one run made for it longer, the latter exactly when no gap anywhere was large
      enough. Among the old runs i is the first that could take it, going round from s, where the
      search starts. */
  ghost predicate Served(chain: seq<Chunk>, chain': seq<Chunk>, bet: nat, reqSize: nat, s: nat, i: nat, k: nat) {
    var size := PaddedSize(reqSize);
    && i < |chain'| && k < |chain'[i].blocks| && chain'[i].blocks[k].size == size && chain'[i].blocks[k].req == reqSize
    && if AllFull(chain, size)
       then i == |chain| && k == 0 && |chain'| == |chain| + 1 &&
            chain' == chain + [Chunk(chain'[i].base, PagesFor(size), [Block(chain'[i].Start(), size, reqSize)])]
       else Chosen(chain, s, i, size) && StartsAt(chain, bet, size, s) && chain[i].LowestFit(k, size) &&
            chain' == chain[i := chain[i].Insert(k, Block(chain[i].GapStart(k), size, reqSize))]
  }

  // ----- the pages behind the runs -----

  /** No run has a gap for `size` bytes, and there are no pages for a new one. */
  ghost predicate Starved(chain: seq<Chunk>, b: Books, frames: nat, size: nat) {
    AllFull(chain, size) && Short(b, frames, PagesFor(size))
  }

  /** Next fit took the pages of the run at maj, made for `size` bytes. */
  ghost predicate Extended(b: Books, c: Books, frames: nat, maj: nat, size: nat) {
    && maj >= KERNEL_HEAP_START && maj % 4096 == 0 && !Short(b, frames, PagesFor(size))
    && Grown(b, c, (maj - KERNEL_HEAP_START) / 4096, PagesFor(size))
  }

  /** What a served request takes: the pages of a new run, made at maj, if no gap was large enough. */
  ghost predicate Supplied(chain: seq<Chunk>, b: Books, c: Books, frames: nat, maj: nat, size: nat) {
    if AllFull(chain, size) then Extended(b, c, frames, maj, size) else c == b
  }

  /** What the search has taken so far: nothing, or the pages of a run put last. */
  ghost predicate TakenSoFar(chain0: seq<Chunk>, chain: seq<Chunk>, made: bool, b: Books, c: Books, frames: nat, size: nat) {
    if made then |chain0| < |chain| && Extended(b, c, frames, chain[|chain0|].base, size) else c == b
  }

  /** What the freeing of a block of run d gives back: the run's pages, if it held no other block. */
  ghost predicate Relieved(b: Books, c: Books, d: Chunk) {
    if |d.blocks| == 1 then d.base >= KERNEL_HEAP_START && Dropped(b, c, (d.base - KERNEL_HEAP_START) / 4096, d.pages) else c == b
  }

  lemma SuppliedSteady(chain: seq<Chunk>, b: Books, c: Books, frames: nat, maj: nat, size: nat)
    requires Reached(b) && Supplied(chain, b, c, frames, maj, size)
    ensures Reached(c) && Steady(b, c) && !Starved(chain, b, frames, size)
  {
    hide AllFull, Short, Grown, Steady, Reached, PagesFor;
    if AllFull(chain, size) {
      GrownSteady(b, c, (maj - KERNEL_HEAP_START) / 4096, PagesFor(size));
    } else {
      SameSteady(b);
    }
  }

  /** The search ends with a block in run pos. */
  lemma TakenSupplied(chain0: seq<Chunk>, chain: seq<Chunk>, s: nat, pos: nat, startedBet: bool, restarted: bool, made: bool, size: nat, bet: nat, b: Books, c: Books, frames: nat)
    requires Progress(chain0, chain, s, pos, startedBet, restarted, made, size, bet) && NonEmpty(chain0) && (!made ==> !AllFull(chain0, size))
    requires Reached(b) && TakenSoFar(chain0, chain, made, b, c, frames, size)
    ensures Supplied(chain0, b, c, frames, chain[pos].base, size) && Steady(b, c) && !Starved(chain0, b, frames, size)
  {
    hide AllFull, Extended, StartsAt, Short, Steady, Reached, NonEmpty, Starved, Chunk.Full, Chunk.FitsAt;
    ProgressRoom(chain0, chain, s, pos, startedBet, restarted, made, size, bet);
    SuppliedSteady(chain0, b, c, frames, chain[pos].base, size);
  }

  /** Freeing a block of a run that was there from the start. */
  lemma RelievedSteady(b: Books, c: Books, c': Books, chain: seq<Chunk>, i: nat, d: Chunk)
    requires Reached(b) && Steady(b, c) && Relieved(c, c', d)
    requires i < |chain| && d.base == chain[i].base && d.pages == chain[i].pages
    requires PagesAgree(chain, b.owned) && chain[i].base % 4096 == 0
    ensures Reached(c') && Steady(b, c')
  {
    hide Dropped, PagesAgree, RunHas;
    RunPages(chain, b.owned, i);
    if |d.blocks| == 1 {
      DroppedSteady(b, c, c', (d.base - KERNEL_HEAP_START) / 4096, d.pages);
    }
  }

  /** The end of kfree, for block k of run i. */
  lemma RelievedHere(b: Books, c: Books, chain: seq<Chunk>, i: nat, k: nat)
    requires Listed(chain, i, k) && PagesAgree(chain, b.owned) && chain[i].base % 4096 == 0 && Reached(b)
    requires if chain[i].Remove(k).blocks == []
             then chain[i].base >= KERNEL_HEAP_START && Dropped(b, c, (chain[i].base - KERNEL_HEAP_START) / 4096, chain[i].pages)
             else c == b
    ensures Relieved(b, c, chain[i]) && Reached(c) && Steady(b, c)
  {
    hide Dropped, PagesAgree, Steady, Reached;
    SameSteady(b);
    RelievedSteady(b, b, c, chain, i, chain[i]);
  }

  /** Serving a request and freeing its block again. */
  lemma SuppliedRelieved(chain: seq<Chunk>, chain': seq<Chunk>, bet: nat, reqSize: nat, s: nat, i: nat, k: nat, b: Books, c: Books, d: Books, frames: nat)
    requires Served(chain, chain', bet, reqSize, s, i, k) && NonEmpty(chain) && i < |chain'|
    requires Supplied(chain, b, c, frames, chain'[i].base, PaddedSize(reqSize)) && Relieved(c, d, chain'[i])
    requires forall vp: nat :: HeapPage(0) <= vp < HeapPage(TOTAL) && vp - HeapPage(0) !in b.owned ==> vp !in b.backing
    ensures if AllFull(chain, PaddedSize(reqSize)) then Visited(b, d, PagesFor(PaddedSize(reqSize))) else d == b
  {
    hide AllFull, Short, Grown, Dropped, Visited, PagesFor, StartsAt, Chunk.LowestFit, Chunk.Full;
    if AllFull(chain, PaddedSize(reqSize)) {
      var p, n := (chain'[i].base - KERNEL_HEAP_START) / 4096, PagesFor(PaddedSize(reqSize));
      GrownRun(b, c, p, n);
      GrownDropped(b, c, d, p, n);
    }
  }

  /** A block that was live before a request was served lies in a run that was there before. */
  lemma OldRun(chain: seq<Chunk>, chain': seq<Chunk>, bet: nat, reqSize: nat, s: nat, i: nat, k: nat, j: nat, l: nat)
    requires Served(chain, chain', bet, reqSize, s, i, k) && ChainOk(chain') && NonEmpty(chain)
    requires Listed(chain', j, l) && IsLive(chain, chain'[j].blocks[l])
    ensures j < |chain| && chain'[j].base == chain[j].base && chain'[j].pages == chain[j].pages
  {
    hide ChainOk, AllFull, PagesFor, IsLive, Chunk.LowestFit, Chunk.Full;
    ServedLive(chain, chain', bet, reqSize, s, i, k);
  }

  /** Placing a block takes no page and leaves no run empty. */
  lemma InsertKeepsPages(chain: seq<Chunk>, i: nat, k: nat, b: Block, owned: set<nat>)
    requires i < |chain| && k <= |chain[i].blocks| && PagesAgree(chain, owned)
    ensures PagesAgree(chain[i := chain[i].Insert(k, b)], owned)
    ensures NonEmpty(chain) ==> NonEmpty(chain[i := chain[i].Insert(k, b)])
    ensures |chain[i].Insert(k, b).blocks| == |chain[i].blocks| + 1 && chain[i].Insert(k, b).blocks[k] == b
  {
    SameRunsSamePages(chain, chain[i := chain[i].Insert(k, b)], owned);
  }

  lemma SameRunsSamePages(chain: seq<Chunk>, chain': seq<Chunk>, owned: set<nat>)
    requires PagesAgree(chain, owned) && |chain| == |chain'|
    requires forall i :: 0 <= i < |chain| ==> chain'[i].base == chain[i].base && chain'[i].pages == chain[i].pages
    ensures PagesAgree(chain', owned)
  {
    forall p: nat ensures InSomeRun(chain, p) <==> InSomeRun(chain', p) {
      if InSomeRun(chain, p) {
        var i: nat :| i < |chain| && RunHas(chain[i], p);
        assert RunHas(chain'[i], p);
      }
      if InSomeRun(chain', p) {
        var i: nat :| i < |chain'| && RunHas(chain'[i], p);
        assert RunHas(chain[i], p);
      }
    }
  }

  ghost predicate AllFull(chain: seq<Chunk>, size: nat) {
    forall j :: 0 <= j < |chain| ==> chain[j].Full(size)
  }

  /** Run i is the first with a fitting gap, going round from run s. */
  ghost predicate Chosen(chain: seq<Chunk>, s: nat, i: nat, size: nat) {
    && s < |chain| && i < |chain| && !chain[i].Full(size)
    && (if s <= i then forall j :: s <= j < i ==> chain[j].Full(size)
        else (forall j :: s <= j < |chain| ==> chain[j].Full(size)) && (forall j :: 0 <= j < i ==> chain[j].Full(size)))
  }

  /** Updates at three different keys commute. */
  lemma ReverseUpdates<V>(m: map<nat, V>, a: nat, x: V, b: nat, y: V, c: nat, z: V)
    requires a != b && b != c && a != c
    ensures m[a := x][b := y][c := z] == m[c := z][b := y][a := x]
  {
  }

  lemma LowestHere(c: Chunk, k: nat, size: nat)
    requires k <= |c.blocks| && c.FitsAt(k, size) && forall j: nat | j < k :: !c.FitsAt(j, size)
    ensures c.LowestFit(k, size) && !c.Full(size)
  {
  }

  lemma FullHere(c: Chunk, size: nat)
    requires forall j: nat | j <= |c.blocks| :: !c.FitsAt(j, size)
    ensures c.Full(size)
  {
  }

  lemma MinorHere(minors: map<nat, Minor>, c: Chunk, k: nat)
    requires MinorsOk(minors, c) && c.Ok() && k < |c.blocks|
    ensures c.blocks[k].addr in minors
    ensures var m := minors[c.blocks[k].addr];
      && m.next == AddrAt(c.blocks, k + 1) && (m.next == 0 <==> k + 1 == |c.blocks|)
      && m.size == c.blocks[k].size
  {
  }

  lemma PtrPositive(b: Block)
    ensures Ptr(b) > 0
  {
    AlignShift(b.Body());
  }

  /** The headers of one run, and that its addresses are not NULL. */
  lemma HeadersOf(majors: map<nat, Major>, minors: map<nat, Minor>, chain: seq<Chunk>, i: nat)
    requires Rep(majors, minors, chain) && i < |chain|
    ensures chain[i].Ok() && chain[i].base in majors && majors[chain[i].base] == MajorAt(chain, i)
    ensures MinorsOk(minors, chain[i])
    ensures forall k :: 0 <= k < |chain[i].blocks| ==> chain[i].blocks[k].addr != 0
  {
    RunOk(chain, i);
  }

  /** A major's header after its run has become c. */
  function UseMajor(majors: map<nat, Major>, c: Chunk): map<nat, Major>
    requires c.base in majors
  {
    majors[c.base := majors[c.base].(usage := c.Usage(), first := AddrAt(c.blocks, 0))]
  }

  lemma AppendKeeps(majors: map<nat, Major>, minors: map<nat, Minor>, mem: map<nat, byte>, chain: seq<Chunk>, c: Chunk)
    requires Rep(majors, minors, chain) && AlignOk(mem, chain) && c.Ok() && c.blocks == []
    requires forall i :: 0 <= i < |chain| ==> Apart(chain[i], c)
    ensures chain != [] ==> chain[|chain| - 1].base in majors && chain[|chain| - 1].base != c.base
    ensures Rep(LinkLast(majors, chain, c), minors, chain + [c]) && AlignOk(mem, chain + [c])
    ensures Held(chain + [c]) == Held(chain) + c.Size() && InUse(chain + [c]) == InUse(chain)
    ensures forall a: nat :: IsRun(chain, a) ==> IsRun(chain + [c], a)
  {
    hide *;
    RepIs(majors, minors, chain);
    RepAppend(majors, minors, chain, c);
    AppendAlign(mem, chain, c);
    AppendTotals(chain, c);
    AppendRuns(chain, c);
    AppendBase(chain, c);
  }

  lemma AppendBase(chain: seq<Chunk>, c: Chunk)
    requires ChainOk(chain) && c.Ok() && forall i :: 0 <= i < |chain| ==> Apart(chain[i], c)
    ensures chain != [] ==> chain[|chain| - 1].base != c.base
  {
    if chain != [] { RunOk(chain, |chain| - 1); }
  }

  lemma AppendTotals(chain: seq<Chunk>, c: Chunk)
    requires c.blocks == []
    ensures Held(chain + [c]) == Held(chain) + c.Size() && InUse(chain + [c]) == InUse(chain)
  {
    assert Bodies(c.blocks) == 0;
    hide Bodies;
    var chain', n := chain + [c], |chain|;
    assert chain'[..n] == chain && chain'[n] == c;
  }

  lemma AppendRuns(chain: seq<Chunk>, c: Chunk)
    ensures forall a: nat :: IsRun(chain, a) ==> IsRun(chain + [c], a)
  {
    var chain' := chain + [c];
    forall a: nat | IsRun(chain, a) ensures IsRun(chain', a) {
      var i: nat :| i < |chain| && chain[i].base == a;
      assert chain'[i].base == a;
    }
  }

  lemma AppendAlign(mem: map<nat, byte>, chain: seq<Chunk>, c: Chunk)
    requires AlignOk(mem, chain) && c.blocks == []
    ensures AlignOk(mem, chain + [c])
  {
    hide Ptr, ByteOf;
    var chain' := chain + [c];
    forall i: nat, k: nat | Listed(chain', i, k)
      ensures ByteOf(mem, AlignByteOf(chain'[i].blocks[k])) == Ptr(chain'[i].blocks[k]) - chain'[i].blocks[k].Body()
    {
      assert Listed(chain, i, k) && chain'[i] == chain[i];
    }
  }

  /** What placing block b in gap k of run i keeps. */
  lemma PlaceKeeps(majors: map<nat, Major>, minors: map<nat, Minor>, mem: map<nat, byte>, chain: seq<Chunk>, i: nat, k: nat, b: Block)
    requires Rep(majors, minors, chain) && AlignOk(mem, chain) && i < |chain| && k <= |chain[i].blocks|
    requires chain[i].FitsAt(k, b.size) && b.addr == chain[i].GapStart(k) && b.req + ALIGNMENT + ALIGN_INFO <= b.size
    ensures chain[i].base in majors && majors[chain[i].base] == MajorAt(chain, i)
    ensures k > 0 ==> chain[i].blocks[k - 1].addr in minors && minors[chain[i].blocks[k - 1].addr] == MinorAt(chain[i], k - 1)
    ensures k < |chain[i].blocks| ==> chain[i].blocks[k].addr in minors && minors[chain[i].blocks[k].addr] == MinorAt(chain[i], k)
    ensures k > 0 ==> chain[i].blocks[k - 1].addr != b.addr
    ensures k < |chain[i].blocks| ==> chain[i].blocks[k].addr != b.addr
    ensures k > 0 && k < |chain[i].blocks| ==> chain[i].blocks[k - 1].addr != chain[i].blocks[k].addr
    ensures var c' := chain[i].Insert(k, b);
      && c'.Usage() == chain[i].Usage() + b.size + MINOR
      && Rep(UseMajor(majors, c'), LinkIn(minors, chain[i], k, b), chain[i := c'])
      && AlignOk(WithAlign(mem, b), chain[i := c'])
      && Held(chain[i := c']) == Held(chain) && InUse(chain[i := c']) == InUse(chain) + b.size
      && BaseAt(chain[i := c'], 0) == BaseAt(chain, 0)
      && forall a: nat :: IsRun(chain, a) ==> IsRun(chain[i := c'], a)
  {
    hide *;
    PlaceFits(majors, minors, chain, i, k, b);
    PlaceNeighbours(majors, minors, chain, i, k, b);
    PlaceRep(majors, minors, chain, i, k, b);
    PlaceAlign(mem, chain, i, k, b);
    PlaceTotals(chain, i, k, b);
  }

  /** Inserting keeps the run well formed and its neighbours apart from b. */
  lemma PlaceFits(majors: map<nat, Major>, minors: map<nat, Minor>, chain: seq<Chunk>, i: nat, k: nat, b: Block)
    requires Rep(majors, minors, chain) && i < |chain| && k <= |chain[i].blocks|
    requires chain[i].FitsAt(k, b.size) && b.addr == chain[i].GapStart(k) && b.req + ALIGNMENT + ALIGN_INFO <= b.size
    ensures ChainOk(chain) && chain[i].Ok() && chain[i].Insert(k, b).Ok() && ChainOk(chain[i := chain[i].Insert(k, b)])
  {
    hide MajorsOk, AllMinorsOk, MagicOk, Chunk.Ok;
    RunOk(chain, i);
    InsertOk(chain[i], k, b.size, b.req);
    ChainUpdate(chain, i, chain[i].Insert(k, b));
  }

  lemma PlaceNeighbours(majors: map<nat, Major>, minors: map<nat, Minor>, chain: seq<Chunk>, i: nat, k: nat, b: Block)
    requires Rep(majors, minors, chain) && i < |chain| && k <= |chain[i].blocks| && chain[i].Insert(k, b).Ok()
    ensures chain[i].base in majors && majors[chain[i].base] == MajorAt(chain, i)
    ensures k > 0 ==> chain[i].blocks[k - 1].addr in minors && minors[chain[i].blocks[k - 1].addr] == MinorAt(chain[i], k - 1)
    ensures k < |chain[i].blocks| ==> chain[i].blocks[k].addr in minors && minors[chain[i].blocks[k].addr] == MinorAt(chain[i], k)
    ensures k > 0 ==> chain[i].blocks[k - 1].addr != b.addr
    ensures k < |chain[i].blocks| ==> chain[i].blocks[k].addr != b.addr
    ensures k > 0 && k < |chain[i].blocks| ==> chain[i].blocks[k - 1].addr != chain[i].blocks[k].addr
  {
    hide ChainOk, MagicOk, MajorAt, MinorAt, Chunk.Ok;
    var c' := chain[i].Insert(k, b);
    assert MinorsOk(minors, chain[i]);
    if k > 0 { Ascending(c', k - 1, k); }
    if k < |chain[i].blocks| { Ascending(c', k, k + 1); }
    if k > 0 && k < |chain[i].blocks| { Ascending(c', k - 1, k + 1); }
  }

  lemma PlaceRep(majors: map<nat, Major>, minors: map<nat, Minor>, chain: seq<Chunk>, i: nat, k: nat, b: Block)
    requires Rep(majors, minors, chain) && i < |chain| && k <= |chain[i].blocks| && chain[i].Insert(k, b).Ok()
    ensures chain[i].base in majors
    ensures k > 0 ==> chain[i].blocks[k - 1].addr in minors
    ensures k < |chain[i].blocks| ==> chain[i].blocks[k].addr in minors
    ensures Rep(UseMajor(majors, chain[i].Insert(k, b)), LinkIn(minors, chain[i], k, b), chain[i := chain[i].Insert(k, b)])
  {
    hide Rep, LinkIn, Chunk.Ok;
    RepInsert(majors, minors, chain, i, k, b);
  }

  /** The new alignment byte is inside b, so no other block's alignment byte changes. */
  lemma PlaceAlign(mem: map<nat, byte>, chain: seq<Chunk>, i: nat, k: nat, b: Block)
    requires AlignOk(mem, chain) && i < |chain| && k <= |chain[i].blocks| && ChainOk(chain[i := chain[i].Insert(k, b)])
    requires b.req + ALIGNMENT + ALIGN_INFO <= b.size
    ensures AlignOk(WithAlign(mem, b), chain[i := chain[i].Insert(k, b)])
  {
    hide ChainOk, Ptr, ByteOf;
    var chain' := chain[i := chain[i].Insert(k, b)];
    var mem' := WithAlign(mem, b);
    forall j: nat, l: nat | Listed(chain', j, l)
      ensures ByteOf(mem', AlignByteOf(chain'[j].blocks[l])) == Ptr(chain'[j].blocks[l]) - chain'[j].blocks[l].Body()
    {
      PlaceAlignAt(mem, chain, i, k, b, j, l);
    }
  }

  lemma PlaceAlignAt(mem: map<nat, byte>, chain: seq<Chunk>, i: nat, k: nat, b: Block, j: nat, l: nat)
    requires AlignOk(mem, chain) && i < |chain| && k <= |chain[i].blocks| && ChainOk(chain[i := chain[i].Insert(k, b)])
    requires b.req + ALIGNMENT + ALIGN_INFO <= b.size
    requires Listed(chain[i := chain[i].Insert(k, b)], j, l)
    ensures var d := chain[i := chain[i].Insert(k, b)][j].blocks[l];
      ByteOf(WithAlign(mem, b), AlignByteOf(d)) == Ptr(d) - d.Body()
  {
    hide ChainOk, AlignPtr;
    var chain' := chain[i := chain[i].Insert(k, b)];
    var d := chain'[j].blocks[l];
    BlockLayout(b);
    assert Listed(chain', i, k) && chain'[i].blocks[k] == b;
    if (j, l) != (i, k) {
      var l0 := if j == i && l > k then l - 1 else l;
      assert Listed(chain, j, l0) && chain[j].blocks[l0] == d;
      BlocksApart(chain', j, l, i, k);
      BlockSlack(chain', j, l);
      BlockLayout(d);
    }
  }

  lemma BlockSlack(chain: seq<Chunk>, i: nat, k: nat)
    requires ChainOk(chain) && Listed(chain, i, k)
    ensures chain[i].blocks[k].req + ALIGNMENT + ALIGN_INFO <= chain[i].blocks[k].size
  {
    RunOk(chain, i);
  }

  lemma PlaceTotals(chain: seq<Chunk>, i: nat, k: nat, b: Block)
    requires i < |chain| && k <= |chain[i].blocks|
    ensures var c' := chain[i].Insert(k, b);
      && c'.Usage() == chain[i].Usage() + b.size + MINOR
      && Held(chain[i := c']) == Held(chain) && InUse(chain[i := c']) == InUse(chain) + b.size
      && BaseAt(chain[i := c'], 0) == BaseAt(chain, 0)
      && forall a: nat :: IsRun(chain, a) ==> IsRun(chain[i := c'], a)
  {
    var c' := chain[i].Insert(k, b);
    assert c'.Usage() == chain[i].Usage() + b.size + MINOR && Bodies(c'.blocks) == Bodies(chain[i].blocks) + b.size by {
      hide Taken, Bodies;
      TakenInsert(chain[i].blocks, k, b);
    }
    assert Held(chain[i := c']) == Held(chain) && InUse(chain[i := c']) == InUse(chain) + b.size by {
      hide Held, InUse, Bodies;
      TotalsUpdate(chain, i, c');
    }
    hide Held, InUse, Taken, Bodies;
    RunsSame(chain, i, c');
  }

  /** What unlinking block k of run i keeps. */
  lemma UnlinkKeeps(majors: map<nat, Major>, minors: map<nat, Minor>, mem: map<nat, byte>, chain: seq<Chunk>, i: nat, k: nat)
    requires Rep(majors, minors, chain) && AlignOk(mem, chain) && Listed(chain, i, k)
    ensures chain[i].base in majors && majors[chain[i].base] == MajorAt(chain, i)
    ensures MinorsOk(minors, chain[i]) && chain[i].blocks[k].addr in minors
    ensures var m := minors[chain[i].blocks[k].addr];
      && m == MinorAt(chain[i], k)
      && (m.next != 0 <==> k + 1 < |chain[i].blocks|) && (m.prev != 0 <==> k > 0)
      && (m.next != 0 ==> m.next in minors && m.next != chain[i].blocks[k].addr && m.next != m.prev)
      && (m.prev != 0 ==> m.prev in minors && m.prev != chain[i].blocks[k].addr)
    ensures var c' := chain[i].Remove(k);
      && c'.Usage() + chain[i].blocks[k].size + MINOR == chain[i].Usage()
      && Rep(UseMajor(majors, c'), Unlink(minors, chain[i], k), chain[i := c'])
      && AlignOk(mem, chain[i := c'])
      && Held(chain[i := c']) == Held(chain) && InUse(chain[i := c']) + chain[i].blocks[k].size == InUse(chain)
      && BaseAt(chain[i := c'], 0) == BaseAt(chain, 0)
      && forall a: nat :: IsRun(chain, a) ==> IsRun(chain[i := c'], a)
  {
    hide Rep, MinorsOk, MinorAt, MajorAt, Chunk.Ok, AlignOk, Chunk.Usage, Held, InUse, Unlink, IsRun, AddrAt, BaseAt;
    HeadersOf(majors, minors, chain, i);
    UnlinkNeighbours(minors, chain[i], k);
    RepRemove(majors, minors, chain, i, k);
    UnlinkAlign(mem, chain, i, k);
    UnlinkTotals(chain, i, k);
    RunsSame(chain, i, chain[i].Remove(k));
  }

  lemma UnlinkNeighbours(minors: map<nat, Minor>, c: Chunk, k: nat)
    requires MinorsOk(minors, c) && c.Ok() && k < |c.blocks|
    requires forall j :: 0 <= j < |c.blocks| ==> c.blocks[j].addr != 0
    ensures c.blocks[k].addr in minors
    ensures var m := minors[c.blocks[k].addr];
      && m == MinorAt(c, k)
      && (m.next != 0 <==> k + 1 < |c.blocks|) && (m.prev != 0 <==> k > 0)
      && (m.next != 0 ==> m.next in minors && m.next != c.blocks[k].addr && m.next != m.prev)
      && (m.prev != 0 ==> m.prev in minors && m.prev != c.blocks[k].addr)
  {
    if k + 1 < |c.blocks| {
      Ascending(c, k, k + 1);
      if k > 0 { Ascending(c, k - 1, k + 1); }
    }
    if k > 0 { Ascending(c, k - 1, k); }
    hide Chunk.Ok;
  }

  lemma UnlinkAlign(mem: map<nat, byte>, chain: seq<Chunk>, i: nat, k: nat)
    requires AlignOk(mem, chain) && Listed(chain, i, k)
    ensures AlignOk(mem, chain[i := chain[i].Remove(k)])
  {
    hide Ptr, ByteOf;
    var chain' := chain[i := chain[i].Remove(k)];
    forall j: nat, l: nat | Listed(chain', j, l)
      ensures ByteOf(mem, AlignByteOf(chain'[j].blocks[l])) == Ptr(chain'[j].blocks[l]) - chain'[j].blocks[l].Body()
    {
      var l0 := if j == i && l >= k then l + 1 else l;
      assert Listed(chain, j, l0) && chain[j].blocks[l0] == chain'[j].blocks[l];
    }
  }

  lemma UnlinkTotals(chain: seq<Chunk>, i: nat, k: nat)
    requires Listed(chain, i, k)
    ensures var c' := chain[i].Remove(k);
      && c'.Usage() + chain[i].blocks[k].size + MINOR == chain[i].Usage()
      && Held(chain[i := c']) == Held(chain) && InUse(chain[i := c']) + chain[i].blocks[k].size == InUse(chain)
      && BaseAt(chain[i := c'], 0) == BaseAt(chain, 0)
  {
    hide Held, InUse, Taken, Bodies;
    TakenRemove(chain[i].blocks, k);
    TotalsUpdate(chain, i, chain[i].Remove(k));
  }

  /** What taking the empty run i out of the list keeps. */
  lemma ReleaseKeeps(majors: map<nat, Major>, minors: map<nat, Minor>, mem: map<nat, byte>, chain: seq<Chunk>, i: nat)
    requires Rep(majors, minors, chain) && AlignOk(mem, chain) && i < |chain| && chain[i].blocks == []
    ensures ChainOk(chain) && chain[i].base % 4096 == 0
    ensures chain[i].base in majors && majors[chain[i].base] == MajorAt(chain, i)
    ensures var m := majors[chain[i].base];
      && (m.prev != 0 <==> i > 0) && (m.prev != 0 ==> m.prev in majors)
      && (m.next != 0 <==> i + 1 < |chain|) && (m.next != 0 ==> m.next in majors && m.next != m.prev)
    ensures BaseAt(chain, 0) == chain[i].base <==> i == 0
    ensures var rest := chain[..i] + chain[i + 1..];
      && Rep(UnlinkRun(majors, chain, i), minors, rest) && AlignOk(mem, rest)
      && Held(rest) == Held(chain) - chain[i].Size() && InUse(rest) == InUse(chain)
      && (i > 0 ==> BaseAt(rest, 0) == BaseAt(chain, 0)) && (i == 0 ==> BaseAt(rest, 0) == BaseAt(chain, 1))
      && forall a: nat :: IsRun(chain, a) && a != chain[i].base ==> IsRun(rest, a)
  {
    hide Rep, AlignOk, BaseAt, Held, InUse, UnlinkRun, Chunk.Ok, Chunk.Usage, IsRun, ChainOk, MajorsOk, MagicOk, AllMinorsOk, MinorsOk;
    DropBase(chain, i, 0);
    HeadersOf(majors, minors, chain, i);
    RepIs(majors, minors, chain);
    RunNeighbours(majors, chain, i);
    RunOkBase(chain, i);
    RepDrop(majors, minors, chain, i);
    TotalsRemove(chain, i);
    DropAlign(mem, chain, i);
    DropRuns(chain, i);
  }

  lemma DropRuns(chain: seq<Chunk>, i: nat)
    requires i < |chain|
    ensures forall a: nat :: IsRun(chain, a) && a != chain[i].base ==> IsRun(chain[..i] + chain[i + 1..], a)
  {
    forall a: nat | IsRun(chain, a) && a != chain[i].base ensures IsRun(chain[..i] + chain[i + 1..], a) {
      var j: nat :| j < |chain| && chain[j].base == a;
      assert (chain[..i] + chain[i + 1..])[if j < i then j else j - 1].base == a;
    }
  }

  lemma RunNeighbours(majors: map<nat, Major>, chain: seq<Chunk>, i: nat)
    requires ChainOk(chain) && MajorsOk(majors, chain) && i < |chain|
    ensures var prev, next := BaseAt(chain, i - 1), BaseAt(chain, i + 1);
      && (prev != 0 <==> i > 0) && (prev != 0 ==> prev in majors)
      && (next != 0 <==> i + 1 < |chain|) && (next != 0 ==> next in majors && next != prev)
    ensures BaseAt(chain, 0) == chain[i].base <==> i == 0
  {
    hide ChainOk, MajorAt;
    if i > 0 { RunOkBase(chain, i - 1); }
    if i + 1 < |chain| { RunOkBase(chain, i + 1); }
    if i > 0 && i + 1 < |chain| { BasesDiffer(chain, i - 1, i + 1); }
    BasesDiffer(chain, 0, i);
  }

  lemma RunOkBase(chain: seq<Chunk>, i: nat)
    requires ChainOk(chain) && i < |chain|
    ensures chain[i].base > 0 && chain[i].base % 4096 == 0
  {
    RunOk(chain, i);
  }

  lemma DropAlign(mem: map<nat, byte>, chain: seq<Chunk>, i: nat)
    requires AlignOk(mem, chain) && i < |chain|
    ensures AlignOk(mem, chain[..i] + chain[i + 1..])
  {
    hide Ptr, ByteOf;
    var rest := chain[..i] + chain[i + 1..];
    forall j: nat, k: nat | Listed(rest, j, k)
      ensures ByteOf(mem, AlignByteOf(rest[j].blocks[k])) == Ptr(rest[j].blocks[k]) - rest[j].blocks[k].Body()
    {
      var j0 := Shifted(i, j);
      assert rest[j] == chain[j0] && Listed(chain, j0, k);
    }
  }

  /** Run i occupies whole pages of the heap, all of them held. */
  lemma RunPages(chain: seq<Chunk>, owned: set<nat>, i: nat)
    requires PagesAgree(chain, owned) && i < |chain| && chain[i].base % 4096 == 0
    ensures KERNEL_HEAP_START <= chain[i].base && chain[i].Limit() <= KERNEL_HEAP_START + KERNEL_HEAP_SIZE
    ensures var s := (chain[i].base - KERNEL_HEAP_START) / 4096;
      && chain[i].base == KERNEL_HEAP_START + 4096 * s
      && (forall p: nat :: s <= p < s + chain[i].pages <==> RunHas(chain[i], p))
      && (forall p: nat :: s <= p < s + chain[i].pages ==> p in owned)
  {
    forall p: nat | RunHas(chain[i], p) ensures p in owned {
      assert InSomeRun(chain, p);
    }
  }

  lemma DropPages(chain: seq<Chunk>, owned: set<nat>, owned': set<nat>, i: nat)
    requires ChainOk(chain) && PagesAgree(chain, owned) && i < |chain|
    requires forall p: nat :: p in owned' <==> p in owned && !RunHas(chain[i], p)
    ensures PagesAgree(chain[..i] + chain[i + 1..], owned')
  {
    hide ChainOk, RunHas, InSomeRun, Chunk.Limit;
    var rest := chain[..i] + chain[i + 1..];
    forall p: nat ensures p in owned' <==> InSomeRun(rest, p) {
      DropPage(chain, i, p);
    }
    forall j | 0 <= j < |rest| ensures rest[j] == chain[Shifted(i, j)] { }
  }

  lemma DropPage(chain: seq<Chunk>, i: nat, p: nat)
    requires ChainOk(chain) && i < |chain|
    ensures InSomeRun(chain[..i] + chain[i + 1..], p) <==> InSomeRun(chain, p) && !RunHas(chain[i], p)
  {
    hide ChainOk, RunHas;
    var rest := chain[..i] + chain[i + 1..];
    if InSomeRun(rest, p) {
      var j: nat :| j < |rest| && RunHas(rest[j], p);
      assert rest[j] == chain[Shifted(i, j)];
      OneRunEach(chain, Shifted(i, j), i, p);
    }
    if InSomeRun(chain, p) && !RunHas(chain[i], p) {
      var j: nat :| j < |chain| && RunHas(chain[j], p);
      assert rest[if j < i then j else j - 1] == chain[j];
    }
  }

  /** A page belongs to at most one run. */
  lemma OneRunEach(chain: seq<Chunk>, i: nat, j: nat, p: nat)
    requires ChainOk(chain) && i < |chain| && j < |chain| && i != j && RunHas(chain[i], p)
    ensures !RunHas(chain[j], p)
  {
    assert Apart(chain[i], chain[j]);
  }

  function ToInt32(x: int): int {
    var w := x % U32;
    if w < 0x8000_0000 then w else w - U32
  }

  /** The conversion to int keeps the low 32 bits. */
  lemma Int32Is(x: int)
    ensures -0x8000_0000 <= ToInt32(x) < 0x8000_0000 && (x - ToInt32(x)) % 0x1_0000_0000 == 0
  {
  }

  /** A live header starts at a. */
  ghost predicate LiveAt(chain: seq<Chunk>, a: int) {
    a >= 0 && IsHeader(chain, a)
  }

  /** The chain without block k of run i, and without the run if that was its only block. */
  function Without(chain: seq<Chunk>, i: nat, k: nat): seq<Chunk>
    requires Listed(chain, i, k)
  {
    if |chain[i].blocks| == 1 then chain[..i] + chain[i + 1..] else chain[i := chain[i].Remove(k)]
  }

  lemma FindHeader(chain: seq<Chunk>, a: int) returns (i: nat, k: nat)
    requires LiveAt(chain, a)
    ensures Listed(chain, i, k) && chain[i].blocks[k].addr == a
  {
    i, k :| Listed(chain, i, k) && chain[i].blocks[k].addr == a;
  }

  lemma RemoveKeepsPages(chain: seq<Chunk>, i: nat, k: nat, owned: set<nat>)
    requires Listed(chain, i, k) && PagesAgree(chain, owned)
    ensures var chain' := chain[i := chain[i].Remove(k)];
      && PagesAgree(chain', owned) && chain'[i].base == chain[i].base && chain'[i].pages == chain[i].pages
      && (forall p: nat :: RunHas(chain'[i], p) <==> RunHas(chain[i], p))
      && (chain'[i].blocks == [] <==> |chain[i].blocks| == 1)
      && chain'[..i] + chain'[i + 1..] == chain[..i] + chain[i + 1..]
  {
    SameRunsSamePages(chain, chain[i := chain[i].Remove(k)], owned);
  }

  lemma WithoutNonEmpty(chain: seq<Chunk>, i: nat, k: nat)
    requires Listed(chain, i, k) && NonEmpty(chain)
    ensures NonEmpty(Without(chain, i, k))
  {
  }

  // ----- undoing kmalloc -----

  lemma ServedListed(chain: seq<Chunk>, chain': seq<Chunk>, bet: nat, reqSize: nat, s: nat, i: nat, k: nat)
    requires Served(chain, chain', bet, reqSize, s, i, k)
    ensures Listed(chain', i, k) && chain'[i].blocks[k].size == PaddedSize(reqSize) == reqSize + 32 && chain'[i].blocks[k].req == reqSize
  {
    hide AllFull, Chosen, PagesFor;
  }

  lemma LiveHere(chain: seq<Chunk>, i: nat, k: nat)
    requires Listed(chain, i, k)
    ensures LiveAt(chain, chain[i].blocks[k].addr)
  {
  }

  /** No two listed blocks have the same address. */
  lemma SameBlock(chain: seq<Chunk>, i: nat, k: nat, j: nat, l: nat)
    requires ChainOk(chain) && Listed(chain, i, k) && Listed(chain, j, l) && chain[i].blocks[k].addr == chain[j].blocks[l].addr
    ensures i == j && k == l
  {
    hide ChainOk;
    if (i, k) != (j, l) { BlocksApart(chain, i, k, j, l); }
  }

  lemma ServedUndone(chain: seq<Chunk>, chain': seq<Chunk>, bet: nat, reqSize: nat, s: nat, i: nat, k: nat)
    requires Served(chain, chain', bet, reqSize, s, i, k) && NonEmpty(chain)
    ensures Listed(chain', i, k) && Without(chain', i, k) == chain
  {
    hide AllFull, PagesFor;
    if AllFull(chain, PaddedSize(reqSize)) {
      assert |chain'[i].blocks| == 1;
      assert chain'[..i] + chain'[i + 1..] == chain;
    } else {
      var b := Block(chain[i].GapStart(k), PaddedSize(reqSize), reqSize);
      RemoveInsert(chain[i], k, b);
      assert |chain'[i].blocks| == |chain[i].blocks| + 1;
      assert chain'[i := chain[i]] == chain;
    }
  }

  // ----- live blocks -----

  ghost predicate IsLive(chain: seq<Chunk>, b: Block) {
    exists i: nat, k: nat :: Listed(chain, i, k) && chain[i].blocks[k] == b
  }

  /** Block b1 takes the place of block b0 among the live blocks. */
  ghost predicate Replaced(chain: seq<Chunk>, chain': seq<Chunk>, b0: Block, b1: Block) {
    forall d: Block :: IsLive(chain', d) <==> (IsLive(chain, d) && d != b0) || d == b1
  }

  /** Block b1 begins with what the client had in b0. */
  ghost predicate Copied(mem: map<nat, byte>, mem': map<nat, byte>, b0: Block, b1: Block) {
    forall a: nat :: Ptr(b1) <= a && a < Ptr(b1) + b0.req && a < Ptr(b1) + b1.req ==>
      ByteOf(mem', a) == ByteOf(mem, a - Ptr(b1) + Ptr(b0))
  }

  /** No byte of any live payload but b0's has changed. */
  ghost predicate OthersKeep(chain: seq<Chunk>, mem: map<nat, byte>, mem': map<nat, byte>, b0: Block) {
    forall d: Block, a: nat :: IsLive(chain, d) && d != b0 && InPayload(d, a) ==> ByteOf(mem', a) == ByteOf(mem, a)
  }

  /** Freeing takes one block from the live ones. */
  lemma WithoutLive(chain: seq<Chunk>, i: nat, k: nat)
    requires ChainOk(chain) && Listed(chain, i, k)
    ensures forall d: Block :: IsLive(Without(chain, i, k), d) <==> IsLive(chain, d) && d != chain[i].blocks[k]
    ensures IsLive(chain, chain[i].blocks[k])
  {
    hide ChainOk, Without;
    forall d: Block ensures IsLive(Without(chain, i, k), d) <==> IsLive(chain, d) && d != chain[i].blocks[k] {
      if IsLive(Without(chain, i, k), d) { StillLive(chain, i, k, d); }
      if IsLive(chain, d) && d != chain[i].blocks[k] { StaysLive(chain, i, k, d); }
    }
  }

  lemma StillLive(chain: seq<Chunk>, i: nat, k: nat, d: Block)
    requires ChainOk(chain) && Listed(chain, i, k) && IsLive(Without(chain, i, k), d)
    ensures IsLive(chain, d) && d != chain[i].blocks[k]
  {
    hide ChainOk, Without, IsLive;
    var j, l := FindBlock(Without(chain, i, k), d);
    var j0, l0 := WasAt(chain, i, k, j, l);
    ListedLive(chain, j0, l0);
    if d == chain[i].blocks[k] { SameBlock(chain, i, k, j0, l0); }
  }

  /** Where a block that is left was before. */
  lemma WasAt(chain: seq<Chunk>, i: nat, k: nat, j: nat, l: nat) returns (j0: nat, l0: nat)
    requires Listed(chain, i, k) && Listed(Without(chain, i, k), j, l)
    ensures Listed(chain, j0, l0) && chain[j0].blocks[l0] == Without(chain, i, k)[j].blocks[l] && (j0 != i || l0 != k)
  {
    j0 := if |chain[i].blocks| == 1 then Shifted(i, j) else j;
    l0 := if |chain[i].blocks| > 1 && j == i && l >= k then l + 1 else l;
  }

  lemma StaysLive(chain: seq<Chunk>, i: nat, k: nat, d: Block)
    requires Listed(chain, i, k) && IsLive(chain, d) && d != chain[i].blocks[k]
    ensures IsLive(Without(chain, i, k), d)
  {
    hide Without, IsLive;
    var j, l := FindBlock(chain, d);
    var j0, l0 := IsNowAt(chain, i, k, j, l);
    ListedLive(Without(chain, i, k), j0, l0);
  }

  /** Where another block is afterwards. */
  lemma IsNowAt(chain: seq<Chunk>, i: nat, k: nat, j: nat, l: nat) returns (j0: nat, l0: nat)
    requires Listed(chain, i, k) && Listed(chain, j, l) && chain[j].blocks[l] != chain[i].blocks[k]
    ensures Listed(Without(chain, i, k), j0, l0) && Without(chain, i, k)[j0].blocks[l0] == chain[j].blocks[l]
  {
    j0 := if |chain[i].blocks| == 1 && j > i then j - 1 else j;
    l0 := if |chain[i].blocks| > 1 && j == i && l > k then l - 1 else l;
  }

  /** A served request adds one block to the live ones. */
  lemma ServedLive(chain: seq<Chunk>, chain': seq<Chunk>, bet: nat, reqSize: nat, s: nat, i: nat, k: nat)
    requires Served(chain, chain', bet, reqSize, s, i, k) && ChainOk(chain') && NonEmpty(chain)
    ensures Listed(chain', i, k)
    ensures forall d: Block :: IsLive(chain', d) <==> IsLive(chain, d) || d == chain'[i].blocks[k]
    ensures !IsLive(chain, chain'[i].blocks[k])
  {
    hide ChainOk, Served, Without;
    ServedListed(chain, chain', bet, reqSize, s, i, k);
    ServedUndone(chain, chain', bet, reqSize, s, i, k);
    WithoutLive(chain', i, k);
  }

  lemma ListedLive(chain: seq<Chunk>, i: nat, k: nat)
    requires Listed(chain, i, k)
    ensures IsLive(chain, chain[i].blocks[k])
  {
  }

  /** The header of block k once it is marked dead. */
  function DeadMinor(c: Chunk, k: nat): (m: Minor)
    requires k < |c.blocks|
    ensures m.magic < U32
  {
    MinorAt(c, k).(magic := LIBALLOC_DEAD)
  }

  lemma PlainInHeap(chain: seq<Chunk>, mem: map<nat, byte>, p: nat)
    requires Plain(chain, mem, p)
    ensures KERNEL_HEAP_START <= p < HEAP_END
    ensures LiveAt(chain, Unalign(mem, p) - MINOR) || MagicWord(mem, Unalign(mem, p) - MINOR) != LIBALLOC_MAGIC
  {
    hide InHeader, Unalign, LiveAt, MagicWord;
  }

  /** Freeing a block and making its header plain bytes keeps every other live payload. */
  lemma FreedIsGone(chain: seq<Chunk>, mem: map<nat, byte>, mem': map<nat, byte>, i: nat, k: nat, m: Minor)
    requires ChainOk(chain) && AlignOk(mem, chain) && Listed(chain, i, k) && m.magic < U32
    requires mem' == Dump(mem, chain[i].blocks[k].addr, m)
    ensures IsLive(chain, chain[i].blocks[k]) && OthersKeep(chain, mem, mem', chain[i].blocks[k])
    ensures forall d: Block, a: nat :: IsLive(chain, d) && InPayload(d, a) ==> ByteOf(mem', a) == ByteOf(mem, a)
    ensures forall d: Block :: IsLive(Without(chain, i, k), d) <==> IsLive(chain, d) && d != chain[i].blocks[k]
  {
    hide ChainOk, AlignOk, IsLive, InPayload, ByteOf, Dump, Without, MagicWord, HeaderOnly;
    DumpEffect(mem, chain[i].blocks[k], m);
    HeaderKeeps(chain, mem, mem', i, k);
    WithoutLive(chain, i, k);
  }

  lemma RetireKeeps(mem: map<nat, byte>, chain: seq<Chunk>, i: nat, k: nat, m: Minor)
    requires ChainOk(chain) && AlignOk(mem, chain) && Listed(chain, i, k) && m.magic < U32
    ensures AlignOk(Dump(mem, chain[i].blocks[k].addr, m), chain)
  {
    hide ChainOk, AlignOk, IsLive, InPayload, ByteOf, Dump, MagicWord, HeaderOnly;
    DumpEffect(mem, chain[i].blocks[k], m);
    HeaderKeeps(chain, mem, Dump(mem, chain[i].blocks[k].addr, m), i, k);
  }

  /** A block copied and then freed: what held after the copy still holds. */
  lemma MovedAndFreed(chain: seq<Chunk>, chain1: seq<Chunk>, mem: map<nat, byte>, mem2: map<nat, byte>, mem3: map<nat, byte>, b0: Block, b1: Block)
    requires forall d: Block :: IsLive(chain1, d) <==> IsLive(chain, d) || d == b1
    requires forall d: Block, a: nat :: IsLive(chain1, d) && InPayload(d, a) ==> ByteOf(mem3, a) == ByteOf(mem2, a)
    requires Copied(mem, mem2, b0, b1) && OthersKeep(chain, mem, mem2, b0)
    ensures Copied(mem, mem3, b0, b1) && OthersKeep(chain, mem, mem3, b0)
  {
    hide IsLive, ByteOf, Ptr;
    forall a: nat | Ptr(b1) <= a && a < Ptr(b1) + b0.req && a < Ptr(b1) + b1.req
      ensures ByteOf(mem3, a) == ByteOf(mem, a - Ptr(b1) + Ptr(b0))
    {
      assert IsLive(chain1, b1) && InPayload(b1, a);
    }
  }

  lemma OneAddress(chain: seq<Chunk>, b: Block, d: Block)
    requires ChainOk(chain) && IsLive(chain, b) && IsLive(chain, d) && b.addr == d.addr
    ensures b == d
  {
    hide ChainOk;
    var i, k := FindBlock(chain, b);
    var j, l := FindBlock(chain, d);
    SameBlock(chain, i, k, j, l);
  }

  /** Live blocks have different pointers, even when nothing was asked for. */
  lemma OnePointer(chain: seq<Chunk>, b: Block, d: Block)
    requires ChainOk(chain) && IsLive(chain, b) && IsLive(chain, d) && Ptr(b) == Ptr(d)
    ensures b == d
  {
    hide ChainOk, Ptr;
    if b != d {
      var i, k := FindBlock(chain, b);
      var j, l := FindBlock(chain, d);
      BlocksApart(chain, i, k, j, l);
      BlockSlack(chain, i, k);
      BlockSlack(chain, j, l);
      BlockLayout(b);
      BlockLayout(d);
    }
  }

  /** A client's own pointer leads to its block, and to no other, without a fault. */
  lemma OwnPointer(mem: map<nat, byte>, chain: seq<Chunk>, owned: set<nat>, b: Block)
    requires ChainOk(chain) && AlignOk(mem, chain) && PagesAgree(chain, owned) && IsLive(chain, b)
    ensures Plain(chain, mem, Ptr(b)) && !Faults(chain, mem, Ptr(b))
    ensures Unalign(mem, Ptr(b)) - MINOR == b.addr && LiveAt(chain, b.addr)
    ensures forall d: Block :: IsLive(chain, d) && d.Body() == Unalign(mem, Ptr(b)) ==> d == b
  {
    hide ChainOk, AlignOk, PagesAgree, Unalign, Ptr, LiveAt, Resident, InHeader, IsLive, MagicWord;
    var i, k := FindBlock(chain, b);
    UnalignInverts(mem, chain, i, k);
    LiveHere(chain, i, k);
    BlockSlack(chain, i, k);
    BlockLayout(b);
    BodyByte(chain, i, k, AlignByteOf(b));
    HeaderResident(chain, i, k, b.addr + 24);
    HeaderResident(chain, i, k, b.addr + 27);
    BlockInHeap(chain, owned, i, k);
    forall d: Block | IsLive(chain, d) && d.Body() == b.Body() ensures d == b {
      OneAddress(chain, b, d);
    }
  }

  lemma HeaderResident(chain: seq<Chunk>, i: nat, k: nat, a: int)
    requires ChainOk(chain) && Listed(chain, i, k) && chain[i].blocks[k].addr <= a < chain[i].blocks[k].End()
    ensures Resident(chain, a)
  {
    RunOk(chain, i);
    assert Spans(chain[i], a);
  }

  lemma BlockInHeap(chain: seq<Chunk>, owned: set<nat>, i: nat, k: nat)
    requires ChainOk(chain) && PagesAgree(chain, owned) && Listed(chain, i, k)
    ensures KERNEL_HEAP_START < chain[i].blocks[k].addr && chain[i].blocks[k].End() <= HEAP_END
  {
    hide InSomeRun;
    RunOk(chain, i);
  }

  /** Once block k of run i is freed, its bytes lie in no header, and in a run only if that held
      another block. */
  lemma FreedByte(chain: seq<Chunk>, i: nat, k: nat, a: int)
    requires ChainOk(chain) && Listed(chain, i, k) && chain[i].blocks[k].addr <= a < chain[i].blocks[k].End()
    ensures !InHeader(Without(chain, i, k), a)
    ensures Resident(Without(chain, i, k), a) <==> |chain[i].blocks| > 1
  {
    hide ChainOk;
    var rest, b := Without(chain, i, k), chain[i].blocks[k];
    RunOk(chain, i);
    if |chain[i].blocks| > 1 {
      assert Spans(rest[i], a);
    } else {
      forall j: nat | j < |rest| ensures !Spans(rest[j], a) { RunsApart(chain, i, Shifted(i, j)); }
    }
    forall j: nat | j < |rest| ensures !HeaderByte(rest[j], a) {
      var j0 := if |chain[i].blocks| == 1 then Shifted(i, j) else j;
      if j0 == i { HeadersLeft(chain, i, k, a); } else { HeadersElsewhere(chain, i, k, a, j0); }
    }
  }

  /** No header of another run ... */
  lemma HeadersElsewhere(chain: seq<Chunk>, i: nat, k: nat, a: int, j: nat)
    requires ChainOk(chain) && Listed(chain, i, k) && chain[i].blocks[k].addr <= a < chain[i].blocks[k].End()
    requires j < |chain| && j != i
    ensures !HeaderByte(chain[j], a)
  {
    hide ChainOk;
    RunOk(chain, i);
    RunOk(chain, j);
    RunsApart(chain, i, j);
    forall l: nat | l < |chain[j].blocks| ensures !(chain[j].blocks[l].addr <= a < chain[j].blocks[l].Body()) {
      BlocksApart(chain, i, k, j, l);
    }
  }

  /** ... and none left in its own. */
  lemma HeadersLeft(chain: seq<Chunk>, i: nat, k: nat, a: int)
    requires ChainOk(chain) && Listed(chain, i, k) && chain[i].blocks[k].addr <= a < chain[i].blocks[k].End()
    requires |chain[i].blocks| > 1
    ensures !HeaderByte(chain[i].Remove(k), a)
  {
    hide ChainOk;
    var c := chain[i].Remove(k);
    RunOk(chain, i);
    forall l: nat | l < |c.blocks| ensures !(c.blocks[l].addr <= a < c.blocks[l].Body()) {
      var l0 := if l >= k then l + 1 else l;
      assert c.blocks[l] == chain[i].blocks[l0];
      BlocksApart(chain, i, k, i, l0);
    }
  }

  /** A second free of the same pointer, right after the first, is taken for a bad pointer if the run
      held another block, and otherwise faults. */
  lemma SecondFree(mem: map<nat, byte>, mem': map<nat, byte>, chain: seq<Chunk>, owned: set<nat>, i: nat, k: nat)
    requires ChainOk(chain) && AlignOk(mem, chain) && PagesAgree(chain, owned) && Listed(chain, i, k)
    requires HeaderOnly(mem, mem', chain[i].blocks[k]) && MagicWord(mem', chain[i].blocks[k].addr) == LIBALLOC_DEAD
    ensures var p, rest := Ptr(chain[i].blocks[k]), Without(chain, i, k);
      && Plain(rest, mem', p) && (Faults(rest, mem', p) <==> |chain[i].blocks| == 1)
      && !LiveAt(rest, Unalign(mem', p) - MINOR)
  {
    hide ChainOk, AlignOk, PagesAgree, Ptr, LiveAt, Resident, InHeader, IsLive, MagicWord, Without, ByteOf;
    var b, rest := chain[i].blocks[k], Without(chain, i, k);
    UnalignInverts(mem, chain, i, k);
    BlockSlack(chain, i, k);
    BlockLayout(b);
    assert Unalign(mem', Ptr(b)) == b.Body();
    FreedByte(chain, i, k, AlignByteOf(b));
    FreedByte(chain, i, k, b.addr + 24);
    FreedByte(chain, i, k, b.addr + 27);
    forall a: int | b.addr + 24 <= a < b.addr + 28 ensures !InHeader(rest, a) { FreedByte(chain, i, k, a); }
    BlockInHeap(chain, owned, i, k);
    if LiveAt(rest, b.addr) { StillThere(chain, i, k); }
  }

  lemma StillThere(chain: seq<Chunk>, i: nat, k: nat)
    requires ChainOk(chain) && Listed(chain, i, k)
    ensures !LiveAt(Without(chain, i, k), chain[i].blocks[k].addr)
  {
    hide ChainOk, Without;
    var rest, b := Without(chain, i, k), chain[i].blocks[k];
    if LiveAt(rest, b.addr) {
      var j, l := FindHeader(rest, b.addr);
      var d := rest[j].blocks[l];
      assert IsLive(rest, d);
      WithoutLive(chain, i, k);
      OneAddress(chain, b, d);
    }
  }

  lemma FindBlock(chain: seq<Chunk>, b: Block) returns (i: nat, k: nat)
    requires IsLive(chain, b)
    ensures Listed(chain, i, k) && chain[i].blocks[k] == b
  {
    i, k :| Listed(chain, i, k) && chain[i].blocks[k] == b;
  }

  /** The payloads of two live blocks lie apart, and neither holds the other's alignment byte. */
  lemma PayloadsApart(chain: seq<Chunk>, b: Block, d: Block)
    requires ChainOk(chain) && IsLive(chain, b) && IsLive(chain, d) && b != d
    ensures Ptr(b) + b.req <= Ptr(d) || Ptr(d) + d.req <= Ptr(b)
    ensures !InPayload(b, AlignByteOf(d)) && !InPayload(d, AlignByteOf(b))
  {
    hide ChainOk, AlignPtr;
    var i, k := FindBlock(chain, b);
    var j, l := FindBlock(chain, d);
    BlocksApart(chain, i, k, j, l);
    BlockSlack(chain, i, k);
    BlockSlack(chain, j, l);
    BlockLayout(b);
    BlockLayout(d);
  }

  /** kmalloc of b1, then bytes written only inside b1's payload: every other payload keeps its bytes. */
  lemma PayloadsKeep(chain: seq<Chunk>, chain': seq<Chunk>, mem: map<nat, byte>, mem1: map<nat, byte>, mem2: map<nat, byte>, b1: Block)
    requires ChainOk(chain) && ChainOk(chain') && IsLive(chain', b1) && !IsLive(chain, b1)
    requires forall d: Block :: IsLive(chain', d) <==> IsLive(chain, d) || d == b1
    requires Wrote(chain, mem, mem1, b1)
    requires forall a: nat :: !InPayload(b1, a) ==> ByteOf(mem2, a) == ByteOf(mem1, a)
    ensures forall d: Block, a: nat :: IsLive(chain, d) && InPayload(d, a) ==> ByteOf(mem1, a) == ByteOf(mem, a) == ByteOf(mem2, a)
  {
    hide ChainOk, Ptr, IsLive, Resident, ByteOf;
    forall d: Block, a: nat | IsLive(chain, d) && InPayload(d, a) ensures ByteOf(mem1, a) == ByteOf(mem, a) == ByteOf(mem2, a) {
      PayloadsApart(chain', d, b1);
      PayloadResident(chain, d, a);
    }
  }

  lemma MoveKeeps(chain: seq<Chunk>, chain': seq<Chunk>, mem: map<nat, byte>, mem1: map<nat, byte>, mem2: map<nat, byte>, b0: Block, b1: Block)
    requires ChainOk(chain) && ChainOk(chain') && IsLive(chain', b1) && IsLive(chain, b0) && !IsLive(chain, b1) && b0.req < b1.req
    requires forall d: Block :: IsLive(chain', d) <==> IsLive(chain, d) || d == b1
    requires Wrote(chain, mem, mem1, b1)
    requires forall a: nat :: Ptr(b1) <= a < Ptr(b1) + b0.req ==> ByteOf(mem2, a) == ByteOf(mem1, a - Ptr(b1) + Ptr(b0))
    requires forall a: nat :: !(Ptr(b1) <= a < Ptr(b1) + b0.req) ==> ByteOf(mem2, a) == ByteOf(mem1, a)
    ensures Copied(mem, mem2, b0, b1) && OthersKeep(chain, mem, mem2, b0)
  {
    hide ChainOk, Ptr, IsLive, ByteOf, Wrote;
    PayloadsKeep(chain, chain', mem, mem1, mem2, b1);
    forall a: nat | Ptr(b1) <= a && a < Ptr(b1) + b0.req && a < Ptr(b1) + b1.req
      ensures ByteOf(mem2, a) == ByteOf(mem, a - Ptr(b1) + Ptr(b0))
    {
      var src: nat := a - Ptr(b1) + Ptr(b0);
      assert InPayload(b0, src);
    }
  }

  lemma ZeroKeeps(chain: seq<Chunk>, chain': seq<Chunk>, mem: map<nat, byte>, mem1: map<nat, byte>, mem2: map<nat, byte>, b: Block)
    requires ChainOk(chain) && ChainOk(chain') && IsLive(chain', b) && !IsLive(chain, b)
    requires forall d: Block :: IsLive(chain', d) <==> IsLive(chain, d) || d == b
    requires Wrote(chain, mem, mem1, b)
    requires forall a: nat :: !(Ptr(b) <= a < Ptr(b) + b.req) ==> ByteOf(mem2, a) == ByteOf(mem1, a)
    ensures forall d: Block, a: nat :: IsLive(chain, d) && InPayload(d, a) ==> ByteOf(mem2, a) == ByteOf(mem, a)
  {
    hide ChainOk, Ptr, IsLive, ByteOf, Wrote;
    PayloadsKeep(chain, chain', mem, mem1, mem2, b);
  }

  /** kcalloc's `int real_size = nobj * size`. */
  function CallocSize(nobj: nat, size: nat): int {
    ToInt32(nobj * size % U64)
  }

  /** The int is the product exactly when the product is below 2^31. */
  lemma CallocSizeExact(nobj: nat, size: nat)
    ensures CallocSize(nobj, size) == nobj * size <==> nobj * size < 0x8000_0000
  {
    var n := nobj * size;
    assert n < 0x8000_0000 ==> n % U64 == n && n % U32 == n;
  }

  /** Otherwise it is the int with the same low 32 bits. */
  lemma CallocSizeWraps(nobj: nat, size: nat)
    ensures -0x8000_0000 <= CallocSize(nobj, size) < 0x8000_0000
    ensures (nobj * size - CallocSize(nobj, size)) % 0x1_0000_0000 == 0
  {
    hide ToInt32;
    var n := nobj * size;
    Int32Is(n % U64);
    LowBitsKept(n, CallocSize(nobj, size));
  }

  lemma LowBitsKept(n: nat, c: int)
    requires (n % U64 - c) % U32 == 0
    ensures (n - c) % U32 == 0
  {
    var q := n / U64;
    assert n == U32 * (U32 * q) + n % U64;
  }

  /** Two requests for 2^31 bytes each are asked for together as none. */
  lemma CallocTruncates()
    ensures CallocSize(2, 0x8000_0000) == 0
  {
  }

  lemma CallocRange(nobj: nat, size: nat)
    requires CallocSize(nobj, size) >= 0
    ensures Servable(CallocSize(nobj, size))
  {
  }

  function Shrunk(c: Chunk, k: nat, size: nat): Chunk
    requires k < |c.blocks|
  {
    Chunk(c.base, c.pages, c.blocks[k := c.blocks[k].(req := size)])
  }

  /** What asking for less in place keeps. */
  lemma ShrinkKeeps(majors: map<nat, Major>, minors: map<nat, Minor>, mem: map<nat, byte>, chain: seq<Chunk>, i: nat, k: nat, size: nat)
    requires Rep(majors, minors, chain) && AlignOk(mem, chain) && Listed(chain, i, k) && size <= chain[i].blocks[k].req
    ensures chain[i].blocks[k].addr in minors
    ensures var a := chain[i].blocks[k].addr;
      var chain' := chain[i := Shrunk(chain[i], k, size)];
      && Rep(majors, minors[a := minors[a].(reqSize := size)], chain') && AlignOk(mem, chain')
      && Held(chain') == Held(chain) && InUse(chain') == InUse(chain) && BaseAt(chain', 0) == BaseAt(chain, 0)
      && (forall r: nat :: IsRun(chain, r) ==> IsRun(chain', r))
      && (NonEmpty(chain) ==> NonEmpty(chain'))
      && Replaced(chain, chain', chain[i].blocks[k], chain[i].blocks[k].(req := size))
  {
    hide Rep, AlignOk, Held, InUse, IsRun, Replaced, NonEmpty, MinorsOk, Chunk.Ok;
    HeadersOf(majors, minors, chain, i);
    RepIs(majors, minors, chain);
    ShrinkRep(majors, minors, chain, i, k, size);
    ShrinkAlign(mem, chain, i, k, size);
    ShrinkTotals(chain[i].blocks, k, size);
    TotalsUpdate(chain, i, Shrunk(chain[i], k, size));
    RunsSame(chain, i, Shrunk(chain[i], k, size));
    ShrinkLive(chain, i, k, size);
  }

  lemma ShrinkRep(majors: map<nat, Major>, minors: map<nat, Minor>, chain: seq<Chunk>, i: nat, k: nat, size: nat)
    requires Rep(majors, minors, chain) && Listed(chain, i, k) && size <= chain[i].blocks[k].req
    ensures chain[i].blocks[k].addr in minors
    ensures var a := chain[i].blocks[k].addr;
      Rep(majors, minors[a := minors[a].(reqSize := size)], chain[i := Shrunk(chain[i], k, size)])
  {
    hide Rep, ChainOk, MinorsOk, OnlyInside, Chunk.Ok, Chunk.Usage;
    var c, c' := chain[i], Shrunk(chain[i], k, size);
    var a := c.blocks[k].addr;
    RepIs(majors, minors, chain);
    HeadersOf(majors, minors, chain, i);
    ShrinkMinors(minors, c, k, size);
    var minors' := minors[a := minors[a].(reqSize := size)];
    forall r | r in minors' && minors'[r].magic == LIBALLOC_MAGIC && c.base <= r < c.Limit()
      ensures exists l: nat :: l < |c'.blocks| && c'.blocks[l].addr == r
    {
      hide MinorsOk, Chunk.Ok;
      assert r in minors && minors[r].magic == LIBALLOC_MAGIC;
      var l := HeaderHere(chain, i, r);
      assert c'.blocks[l].addr == r;
    }
    ShrinkTotals(c.blocks, k, size);
    assert c'.Usage() == c.Usage() by { UsageIs(c); UsageIs(c'); }
    RepUpdate(majors, minors, chain, i, c', majors[c'.base := majors[c'.base].(usage := c'.Usage(), first := AddrAt(c'.blocks, 0))], minors');
    assert majors[c'.base := majors[c'.base].(usage := c'.Usage(), first := AddrAt(c'.blocks, 0))] == majors;
  }

  lemma UsageIs(c: Chunk)
    ensures c.Usage() == MAJOR + Taken(c.blocks)
  {
  }

  lemma ShrunkAddr(c: Chunk, k: nat, size: nat)
    requires k < |c.blocks|
    ensures forall x: int :: AddrAt(Shrunk(c, k, size).blocks, x) == AddrAt(c.blocks, x)
  {
  }

  lemma ShrinkMinors(minors: map<nat, Minor>, c: Chunk, k: nat, size: nat)
    requires c.Ok() && MinorsOk(minors, c) && k < |c.blocks| && size <= c.blocks[k].req
    ensures c.blocks[k].addr in minors && Shrunk(c, k, size).Ok()
    ensures var a := c.blocks[k].addr;
      var minors' := minors[a := minors[a].(reqSize := size)];
      MinorsOk(minors', Shrunk(c, k, size)) && OnlyInside(minors, minors', c)
  {
    hide Chunk.Ok, AddrAt;
    ShrunkOk(c, k, size);
    InBounds(c, k);
    ShrunkAddr(c, k, size);
    var c' := Shrunk(c, k, size);
    var a := c.blocks[k].addr;
    var minors' := minors[a := minors[a].(reqSize := size)];
    forall j | 0 <= j < |c'.blocks| ensures c'.blocks[j].addr in minors' && minors'[c'.blocks[j].addr] == MinorAt(c', j) {
      Ascending(c, j, k);
      assert minors[c.blocks[j].addr] == MinorAt(c, j);
    }
  }

  lemma ShrunkOk(c: Chunk, k: nat, size: nat)
    requires c.Ok() && k < |c.blocks| && size <= c.blocks[k].req
    ensures Shrunk(c, k, size).Ok()
  {
  }

  lemma ShrinkAlign(mem: map<nat, byte>, chain: seq<Chunk>, i: nat, k: nat, size: nat)
    requires AlignOk(mem, chain) && Listed(chain, i, k)
    ensures AlignOk(mem, chain[i := Shrunk(chain[i], k, size)])
  {
    hide ByteOf, AlignPtr;
    var chain' := chain[i := Shrunk(chain[i], k, size)];
    forall j: nat, l: nat | Listed(chain', j, l)
      ensures ByteOf(mem, AlignByteOf(chain'[j].blocks[l])) == Ptr(chain'[j].blocks[l]) - chain'[j].blocks[l].Body()
    {
      assert Listed(chain, j, l) && chain'[j].blocks[l].addr == chain[j].blocks[l].addr;
    }
  }

  lemma {:induction false} ShrinkTotals(bs: seq<Block>, k: nat, size: nat)
    requires k < |bs|
    ensures Taken(bs[k := bs[k].(req := size)]) == Taken(bs) && Bodies(bs[k := bs[k].(req := size)]) == Bodies(bs)
    decreases |bs|
  {
    var n := |bs| - 1;
    var bs' := bs[k := bs[k].(req := size)];
    if k < n {
      ShrinkTotals(bs[..n], k, size);
      assert bs'[..n] == bs[..n][k := bs[k].(req := size)];
    } else {
      assert bs'[..n] == bs[..n];
    }
  }

  lemma ShrinkLive(chain: seq<Chunk>, i: nat, k: nat, size: nat)
    requires ChainOk(chain) && Listed(chain, i, k)
    ensures var chain' := chain[i := Shrunk(chain[i], k, size)];
      && Replaced(chain, chain', chain[i].blocks[k], chain[i].blocks[k].(req := size))
      && (NonEmpty(chain) ==> NonEmpty(chain'))
  {
    hide ChainOk;
    var chain', b := chain[i := Shrunk(chain[i], k, size)], chain[i].blocks[k];
    forall d: Block ensures IsLive(chain', d) <==> (IsLive(chain, d) && d != b) || d == b.(req := size) {
      if IsLive(chain', d) {
        var j: nat, l: nat :| Listed(chain', j, l) && chain'[j].blocks[l] == d;
        if (j, l) != (i, k) {
          assert Listed(chain, j, l) && chain[j].blocks[l] == d;
          if d == b { SameBlock(chain, i, k, j, l); }
        }
      }
      if IsLive(chain, d) && d != b {
        var j: nat, l: nat :| Listed(chain, j, l) && chain[j].blocks[l] == d;
        assert Listed(chain', j, l) && chain'[j].blocks[l] == d;
      }
      assert Listed(chain', i, k) && chain'[i].blocks[k] == b.(req := size);
    }
  }

  // ----- bytes and words -----

  /** A little-endian unsigned int. */
  function LoadWord(mem: map<nat, byte>, a: int): nat {
    ByteOf(mem, a) + 0x100 * ByteOf(mem, a + 1) + 0x1_0000 * ByteOf(mem, a + 2) + 0x100_0000 * ByteOf(mem, a + 3)
  }

  function StoreWord(mem: map<nat, byte>, a: nat, w: nat): map<nat, byte> {
    mem[a := w % 0x100][a + 1 := w / 0x100 % 0x100][a + 2 := w / 0x1_0000 % 0x100][a + 3 := w / 0x100_0000 % 0x100]
  }

  function StoreLong(mem: map<nat, byte>, a: nat, w: nat): map<nat, byte> {
    StoreWord(StoreWord(mem, a, w % U32), a + 4, w / U32)
  }

  /** Storing the word loaded elsewhere copies its four bytes. */
  lemma WordCopy(mem: map<nat, byte>, d: nat, s: nat)
    ensures var m := StoreWord(mem, d, LoadWord(mem, s));
      && (forall a: nat :: d <= a < d + 4 ==> ByteOf(m, a) == ByteOf(mem, a - d + s))
      && (forall a: nat :: !(d <= a < d + 4) ==> ByteOf(m, a) == ByteOf(mem, a))
  {
    var w := LoadWord(mem, s);
    LoadWordIs(mem, s);
    WordBytes(ByteOf(mem, s), ByteOf(mem, s + 1), ByteOf(mem, s + 2), ByteOf(mem, s + 3));
    hide LoadWord;
    StoreWordIs(mem, d, w);
  }

  lemma LoadWordIs(mem: map<nat, byte>, a: nat)
    ensures LoadWord(mem, a) == ByteOf(mem, a) + 0x100 * ByteOf(mem, a + 1) + 0x1_0000 * ByteOf(mem, a + 2) + 0x100_0000 * ByteOf(mem, a + 3)
  {
  }

  lemma StoreWordIs(mem: map<nat, byte>, a: nat, w: nat)
    ensures var m := StoreWord(mem, a, w);
      && ByteOf(m, a) == w % 0x100 && ByteOf(m, a + 1) == w / 0x100 % 0x100
      && ByteOf(m, a + 2) == w / 0x1_0000 % 0x100 && ByteOf(m, a + 3) == w / 0x100_0000 % 0x100
      && (forall x: nat :: !(a <= x < a + 4) ==> ByteOf(m, x) == ByteOf(mem, x))
  {
  }

  lemma WordBytes(b0: byte, b1: byte, b2: byte, b3: byte)
    ensures var w := b0 + 0x100 * b1 + 0x1_0000 * b2 + 0x100_0000 * b3;
      w % 0x100 == b0 && w / 0x100 % 0x100 == b1 && w / 0x1_0000 % 0x100 == b2 && w / 0x100_0000 % 0x100 == b3
  {
    var x2 := b2 + 0x100 * b3;
    var x1 := b1 + 0x100 * x2;
    var w := b0 + 0x100 * x1;
    LowByte(b0, x1);
    LowByte(b1, x2);
    LowByte(b2, b3);
    LowByte(b3, 0);
    TwoBytes(w);
  }

  lemma LowByte(b: byte, x: nat)
    ensures (b + 0x100 * x) % 0x100 == b && (b + 0x100 * x) / 0x100 == x
  {
  }

  lemma TwoBytes(w: nat)
    ensures w / 0x1_0000 == w / 0x100 / 0x100 && w / 0x100_0000 == w / 0x100 / 0x100 / 0x100
  {
  }

  /** A stored word is loaded again. */
  lemma StoreLoad(mem: map<nat, byte>, a: nat, w: nat)
    requires w < U32
    ensures LoadWord(StoreWord(mem, a, w), a) == w
  {
    StoreWordIs(mem, a, w);
    LoadWordIs(StoreWord(mem, a, w), a);
    hide StoreWord, LoadWord, ByteOf;
    TwoBytes(w);
  }

  /** The bytes of a header that stops being one. */
  function Dump(mem: map<nat, byte>, a: nat, m: Minor): map<nat, byte> {
    var links := StoreLong(StoreLong(StoreLong(mem, a, m.prev), a + 8, m.next), a + 16, m.block);
    StoreWord(StoreWord(StoreWord(links, a + 28, m.size), a + 32, m.reqSize), a + 24, m.magic)
  }

  lemma DumpEffect(mem: map<nat, byte>, b: Block, m: Minor)
    requires m.magic < U32
    ensures HeaderOnly(mem, Dump(mem, b.addr, m), b) && MagicWord(Dump(mem, b.addr, m), b.addr) == m.magic
  {
    hide StoreWord, LoadWord, ByteOf;
    var a := b.addr;
    StoreLongOutside(mem, a, m.prev);
    var m1 := StoreLong(mem, a, m.prev);
    StoreLongOutside(m1, a + 8, m.next);
    var m2 := StoreLong(m1, a + 8, m.next);
    StoreLongOutside(m2, a + 16, m.block);
    var m3 := StoreLong(m2, a + 16, m.block);
    StoreWordIs(m3, a + 28, m.size);
    var m4 := StoreWord(m3, a + 28, m.size);
    StoreWordIs(m4, a + 32, m.reqSize);
    var m5 := StoreWord(m4, a + 32, m.reqSize);
    StoreWordIs(m5, a + 24, m.magic);
    StoreLoad(m5, a + 24, m.magic);
  }

  lemma DumpMagic(mem: map<nat, byte>, a: nat, m: Minor)
    requires m.magic < U32
    ensures LoadWord(Dump(mem, a, m), a + 24) == m.magic
  {
    hide StoreWord, LoadWord, StoreLong;
    var links := StoreLong(StoreLong(StoreLong(mem, a, m.prev), a + 8, m.next), a + 16, m.block);
    StoreLoad(StoreWord(StoreWord(links, a + 28, m.size), a + 32, m.reqSize), a + 24, m.magic);
  }

  /** The other fields of the header are in those bytes as well. */
  lemma DumpFields(mem: map<nat, byte>, a: nat, m: Minor)
    requires m.size < U32 && m.reqSize < U32 && m.magic < U32
    ensures LoadWord(Dump(mem, a, m), a + 28) == m.size && LoadWord(Dump(mem, a, m), a + 32) == m.reqSize
  {
    hide StoreWord, LoadWord, StoreLong, ByteOf;
    var m3 := StoreLong(StoreLong(StoreLong(mem, a, m.prev), a + 8, m.next), a + 16, m.block);
    var m4 := StoreWord(m3, a + 28, m.size);
    var m5 := StoreWord(m4, a + 32, m.reqSize);
    var m6 := StoreWord(m5, a + 24, m.magic);
    StoreWordIs(m5, a + 24, m.magic);
    StoreWordIs(m4, a + 32, m.reqSize);
    StoreLoad(m3, a + 28, m.size);
    StoreLoad(m4, a + 32, m.reqSize);
    LoadSame(m4, m5, a + 28);
    LoadSame(m5, m6, a + 28);
    LoadSame(m5, m6, a + 32);
  }

  lemma LoadSame(mem: map<nat, byte>, mem': map<nat, byte>, a: nat)
    requires forall x: nat :: a <= x < a + 4 ==> ByteOf(mem', x) == ByteOf(mem, x)
    ensures LoadWord(mem', a) == LoadWord(mem, a)
  {
    hide ByteOf;
  }

  lemma StoreLongOutside(mem: map<nat, byte>, a: nat, w: nat)
    ensures forall x: nat :: !(a <= x < a + 8) ==> ByteOf(StoreLong(mem, a, w), x) == ByteOf(mem, x)
  {
    hide StoreWord, ByteOf;
    StoreWordIs(mem, a, w % U32);
    StoreWordIs(StoreWord(mem, a, w % U32), a + 4, w / U32);
  }

  lemma StoreByte(mem: map<nat, byte>, d: nat, v: byte)
    ensures ByteOf(mem[d := v], d) == v && forall a: nat :: a != d ==> ByteOf(mem[d := v], a) == ByteOf(mem, a)
  {
  }

  /** Writing inside one block's payload disturbs no alignment byte. */
  lemma PayloadStore(mem: map<nat, byte>, mem': map<nat, byte>, chain: seq<Chunk>, i: nat, k: nat)
    requires AlignOk(mem, chain) && ChainOk(chain) && Listed(chain, i, k)
    requires forall a: nat :: !InPayload(chain[i].blocks[k], a) ==> ByteOf(mem', a) == ByteOf(mem, a)
    ensures AlignOk(mem', chain)
  {
    hide ChainOk, Ptr, ByteOf, InPayload;
    forall j: nat, l: nat | Listed(chain, j, l)
      ensures ByteOf(mem', AlignByteOf(chain[j].blocks[l])) == Ptr(chain[j].blocks[l]) - chain[j].blocks[l].Body()
    {
      AlignByteOutside(chain, i, k, j, l);
    }
  }

  lemma AlignByteOutside(chain: seq<Chunk>, i: nat, k: nat, j: nat, l: nat)
    requires ChainOk(chain) && Listed(chain, i, k) && Listed(chain, j, l)
    ensures AlignByteOf(chain[j].blocks[l]) >= 0 && !InPayload(chain[i].blocks[k], AlignByteOf(chain[j].blocks[l]))
  {
    hide ChainOk, Ptr;
    BlockSlack(chain, j, l);
    BlockLayout(chain[j].blocks[l]);
    var a := AlignByteOf(chain[j].blocks[l]);
    if InPayload(chain[i].blocks[k], a) { Isolation(chain, i, k, j, l, a); }
  }

  lemma RunsSame(chain: seq<Chunk>, i: nat, c': Chunk)
    requires i < |chain| && c'.base == chain[i].base
    ensures forall a: nat :: IsRun(chain, a) ==> IsRun(chain[i := c'], a)
  {
    forall a: nat | IsRun(chain, a) ensures IsRun(chain[i := c'], a) {
      var j: nat :| j < |chain| && chain[j].base == a;
      assert chain[i := c'][j].base == a;
    }
  }

  lemma PagesPositive(size: nat)
    ensures PagesFor(size) >= 16
  {
  }

  /** A run of pages none of which was held lies apart from every run, and extends the pages held. */
  lemma FreshRun(chain: seq<Chunk>, owned: set<nat>, owned': set<nat>, s: nat, n: nat)
    requires ChainOk(chain) && PagesAgree(chain, owned) && n >= 1 && s + n <= TOTAL
    requires forall p: nat :: s <= p < s + n ==> p !in owned
    requires forall p: nat :: p in owned' <==> p in owned || s <= p < s + n
    ensures var c := Chunk(KERNEL_HEAP_START + 4096 * s, n, []);
      PagesAgree(chain + [c], owned') && forall i :: 0 <= i < |chain| ==> Apart(chain[i], c)
  {
    hide ChainOk, Chunk.Ok;
    var c := Chunk(KERNEL_HEAP_START + 4096 * s, n, []);
    var chain' := chain + [c];
    forall i | 0 <= i < |chain| ensures Apart(chain[i], c) {
      RunApart(chain, owned, i, s, n);
    }
    forall p: nat ensures p in owned' <==> InSomeRun(chain', p) {
      assert RunHas(c, p) <==> s <= p < s + n;
      if InSomeRun(chain, p) {
        var i: nat :| i < |chain| && RunHas(chain[i], p);
        assert RunHas(chain'[i], p);
      }
      if InSomeRun(chain', p) {
        var i: nat :| i < |chain'| && RunHas(chain'[i], p);
        assert i < |chain| ==> RunHas(chain[i], p);
      }
      assert chain'[|chain|] == c;
    }
  }

  lemma RunApart(chain: seq<Chunk>, owned: set<nat>, i: nat, s: nat, n: nat)
    requires ChainOk(chain) && PagesAgree(chain, owned) && n >= 1 && i < |chain|
    requires forall p: nat :: s <= p < s + n ==> p !in owned
    ensures Apart(chain[i], Chunk(KERNEL_HEAP_START + 4096 * s, n, []))
  {
    RunOk(chain, i);
    var d := chain[i];
    var c := Chunk(KERNEL_HEAP_START + 4096 * s, n, []);
    if !Apart(d, c) {
      var q := if c.base <= d.base then (d.base - KERNEL_HEAP_START) / 4096 else s;
      assert RunHas(d, q) && s <= q < s + n;
      assert InSomeRun(chain, q);
    }
  }
}
