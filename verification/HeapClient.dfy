/** What the callers of the kernel heap see, over any run: each block they hold behaves like a
    private array of bytes, and what they give back is given back to the last page. */
module HeapClient {
  import opened Words
  import opened Machine
  import opened HeapLayout
  import opened HeapSteps
  import opened Vmm
  import opened KHeap
  import opened BestBet
  import opened Outcomes
  import BootMap
  import Boot
  import Pmm
  import opened Demand
  import P = PageTable
  import Paging

  // ----- the ideal heap -----

  /** What callers ask for; h names the block among those they hold. */
  datatype Request =
    | Malloc(h: nat, size: nat)
    | Calloc(h: nat, count: nat, size: nat)
    | Realloc(h: nat, size: nat)
    | Free(h: nat)
    | Store(h: nat, offset: nat, value: byte)

  /** A byte of a block: not yet determined, or of a known value. */
  datatype Cell = Any | Known(value: byte)

  /** The blocks held, each an array of its own. */
  type Ideal = map<nat, seq<Cell>>

  function Fresh(n: nat): (s: seq<Cell>)
    ensures |s| == n
  {
    seq(n, _ => Any)
  }

  function Zeroed(n: nat): (s: seq<Cell>)
    ensures |s| == n
  {
    seq(n, _ => Known(0))
  }

  /** The first n cells, or all of them and new ones. */
  function Resized(s: seq<Cell>, n: nat): (t: seq<Cell>)
    ensures |t| == n
  {
    if n <= |s| then s[..n] else s + Fresh(n - |s|)
  }

  /** What a correct caller may ask. */
  predicate Legal(ideal: Ideal, q: Request) {
    match q
    case Malloc(h, size) => h !in ideal && Servable(size)
    case Calloc(h, count, size) => h !in ideal && count * size < 0x8000_0000
    case Realloc(h, size) => h in ideal && Servable(size)
    case Free(h) => h in ideal
    case Store(h, offset, value) => h in ideal && offset < |ideal[h]|
  }

  /** What it should do. */
  function After(ideal: Ideal, q: Request): Ideal
    requires Legal(ideal, q)
  {
    match q
    case Malloc(h, size) => ideal[h := Fresh(size)]
    case Calloc(h, count, size) => ideal[h := Zeroed(count * size)]
    case Realloc(h, size) => if size == 0 then ideal - {h} else ideal[h := Resized(ideal[h], size)]
    case Free(h) => ideal - {h}
    case Store(h, offset, value) => ideal[h := ideal[h][offset := Known(value)]]
  }

  /** The request takes new memory. */
  predicate Asks(ideal: Ideal, q: Request) {
    match q
    case Malloc(h, size) => true
    case Calloc(h, count, size) => true
    case Realloc(h, size) => h in ideal && size > |ideal[h]|
    case Free(h) => false
    case Store(h, offset, value) => false
  }

  /** The bytes it asks for. */
  function AskedSize(q: Request): nat {
    match q
    case Malloc(h, size) => size
    case Calloc(h, count, size) => count * size
    case Realloc(h, size) => size
    case Free(h) => 0
    case Store(h, offset, value) => 0
  }

  ghost predicate LegalRun(ideal: Ideal, qs: seq<Request>)
    decreases |qs|, 0
  {
    qs != [] ==> LegalRun(ideal, qs[..|qs| - 1]) && Legal(AfterRun(ideal, qs[..|qs| - 1]), qs[|qs| - 1])
  }

  ghost function AfterRun(ideal: Ideal, qs: seq<Request>): Ideal
    requires LegalRun(ideal, qs)
    decreases |qs|, 1
  {
    if qs == [] then ideal else After(AfterRun(ideal, qs[..|qs| - 1]), qs[|qs| - 1])
  }

  // ----- agreement with the heap -----

  /** Handle h's block is live, of the size asked for, and found by its pointer. */
  ghost predicate Owns(chain: seq<Chunk>, ideal: Ideal, ptrs: map<nat, nat>, blocks: map<nat, Block>, h: nat)
    requires h in ideal && h in ptrs && h in blocks
  {
    IsLive(chain, blocks[h]) && ptrs[h] == Ptr(blocks[h]) && blocks[h].req == |ideal[h]|
  }

  /** Every known cell of handle h is in memory. */
  ghost predicate Holds(mem: map<nat, byte>, cells: seq<Cell>, b: Block)
    requires b.req == |cells|
  {
    forall a: nat :: InPayload(b, a) && cells[a - Ptr(b)].Known? ==> ByteOf(mem, a) == cells[a - Ptr(b)].value
  }

  /** Every live block is held. */
  ghost predicate AllHeld(chain: seq<Chunk>, blocks: map<nat, Block>) {
    forall b: Block :: IsLive(chain, b) ==> exists h :: h in blocks && blocks[h] == b
  }

  ghost predicate Injective(blocks: map<nat, Block>) {
    forall h, g :: h in blocks && g in blocks && blocks[h] == blocks[g] ==> h == g
  }

  /** The live blocks are exactly those held, one for each handle, and hold what they should. */
  ghost predicate Agrees(chain: seq<Chunk>, mem: map<nat, byte>, ideal: Ideal, ptrs: map<nat, nat>, blocks: map<nat, Block>) {
    && ideal.Keys == ptrs.Keys == blocks.Keys
    && (forall h :: h in ideal ==> Owns(chain, ideal, ptrs, blocks, h))
    && (forall h :: h in ideal ==> Holds(mem, ideal[h], blocks[h]))
    && AllHeld(chain, blocks) && Injective(blocks)
  }

  lemma AgreesNew(chain: seq<Chunk>, chain': seq<Chunk>, mem: map<nat, byte>, mem': map<nat, byte>,
                  ideal: Ideal, ptrs: map<nat, nat>, blocks: map<nat, Block>, h: nat, cells: seq<Cell>, b: Block)
    requires Agrees(chain, mem, ideal, ptrs, blocks) && h !in ideal && b.req == |cells|
    requires !IsLive(chain, b) && forall d: Block :: IsLive(chain', d) <==> IsLive(chain, d) || d == b
    requires forall d: Block, a: nat :: IsLive(chain, d) && InPayload(d, a) ==> ByteOf(mem', a) == ByteOf(mem, a)
    requires Holds(mem', cells, b)
    ensures Agrees(chain', mem', ideal[h := cells], ptrs[h := Ptr(b)], blocks[h := b])
  {
    hide IsLive, Ptr, Holds, AllHeld, Injective, InPayload, ByteOf;
    var ideal', ptrs', blocks' := ideal[h := cells], ptrs[h := Ptr(b)], blocks[h := b];
    BlockAdded(chain, chain', blocks, h, b);
    forall g | g in ideal' ensures Owns(chain', ideal', ptrs', blocks', g) && Holds(mem', ideal'[g], blocks'[g]) {
      if g != h {
        assert Owns(chain, ideal, ptrs, blocks, g);
        StillHolds(chain, mem, mem', ideal[g], blocks[g]);
      }
    }
  }

  lemma StillHolds(chain: seq<Chunk>, mem: map<nat, byte>, mem': map<nat, byte>, cells: seq<Cell>, d: Block)
    requires d.req == |cells| && Holds(mem, cells, d) && IsLive(chain, d)
    requires forall e: Block, a: nat :: IsLive(chain, e) && InPayload(e, a) ==> ByteOf(mem', a) == ByteOf(mem, a)
    ensures Holds(mem', cells, d)
  {
    hide IsLive, ByteOf, Ptr;
  }

  lemma BlockAdded(chain: seq<Chunk>, chain': seq<Chunk>, blocks: map<nat, Block>, h: nat, b: Block)
    requires AllHeld(chain, blocks) && Injective(blocks) && h !in blocks && forall g :: g in blocks ==> IsLive(chain, blocks[g])
    requires !IsLive(chain, b) && forall d: Block :: IsLive(chain', d) <==> IsLive(chain, d) || d == b
    ensures AllHeld(chain', blocks[h := b]) && Injective(blocks[h := b])
  {
    hide IsLive;
    var blocks' := blocks[h := b];
    forall d: Block | IsLive(chain', d) ensures exists g :: g in blocks' && blocks'[g] == d {
      if d == b {
        assert blocks'[h] == b;
      } else {
        var g :| g in blocks && blocks[g] == d;
        assert blocks'[g] == d;
      }
    }
  }

  lemma AgreesFreed(chain: seq<Chunk>, chain': seq<Chunk>, mem: map<nat, byte>, mem': map<nat, byte>,
                    ideal: Ideal, ptrs: map<nat, nat>, blocks: map<nat, Block>, h: nat)
    requires Agrees(chain, mem, ideal, ptrs, blocks) && h in ideal && OthersKeep(chain, mem, mem', blocks[h])
    requires forall d: Block :: IsLive(chain', d) <==> IsLive(chain, d) && d != blocks[h]
    ensures Agrees(chain', mem', ideal - {h}, ptrs - {h}, blocks - {h})
  {
    hide IsLive, InPayload, ByteOf, Ptr, OthersKeep, Holds;
    var ideal', ptrs', blocks' := ideal - {h}, ptrs - {h}, blocks - {h};
    forall g | g in ideal' ensures Owns(chain', ideal', ptrs', blocks', g) && Holds(mem', ideal'[g], blocks'[g]) {
      assert Owns(chain, ideal, ptrs, blocks, g) && Holds(mem, ideal[g], blocks[g]);
      OtherHolds(chain, mem, mem', blocks[h], ideal[g], blocks[g]);
    }
    forall d: Block | IsLive(chain', d) ensures exists g :: g in blocks' && blocks'[g] == d {
      var g :| g in blocks && blocks[g] == d;
      assert blocks'[g] == d;
    }
  }

  /** Block b1 takes the place of handle h's block b0, and begins with a copy of it. */
  lemma AgreesResized(chain: seq<Chunk>, chain': seq<Chunk>, mem: map<nat, byte>, mem': map<nat, byte>,
                      ideal: Ideal, ptrs: map<nat, nat>, blocks: map<nat, Block>, h: nat, b1: Block)
    requires Agrees(chain, mem, ideal, ptrs, blocks) && h in ideal
    requires Replaced(chain, chain', blocks[h], b1) && (b1 == blocks[h] || !IsLive(chain, b1))
    requires Copied(mem, mem', blocks[h], b1) && OthersKeep(chain, mem, mem', blocks[h])
    ensures Agrees(chain', mem', ideal[h := Resized(ideal[h], b1.req)], ptrs[h := Ptr(b1)], blocks[h := b1])
  {
    hide IsLive, Ptr, Holds, Copied, OthersKeep, Resized, AllHeld, Injective, Replaced;
    var b0, cells := blocks[h], Resized(ideal[h], b1.req);
    var ideal', ptrs', blocks' := ideal[h := cells], ptrs[h := Ptr(b1)], blocks[h := b1];
    assert Owns(chain, ideal, ptrs, blocks, h);
    CopyHolds(mem, mem', ideal[h], b0, b1);
    BlockReplaced(chain, chain', blocks, h, b1);
    forall g | g in ideal' && g != h ensures Owns(chain', ideal', ptrs', blocks', g) && Holds(mem', ideal'[g], blocks'[g]) {
      assert Owns(chain, ideal, ptrs, blocks, g);
      OtherHolds(chain, mem, mem', b0, ideal[g], blocks[g]);
    }
  }

  lemma BlockReplaced(chain: seq<Chunk>, chain': seq<Chunk>, blocks: map<nat, Block>, h: nat, b1: Block)
    requires AllHeld(chain, blocks) && Injective(blocks) && h in blocks && forall g :: g in blocks ==> IsLive(chain, blocks[g])
    requires Replaced(chain, chain', blocks[h], b1) && (b1 == blocks[h] || !IsLive(chain, b1))
    ensures AllHeld(chain', blocks[h := b1]) && Injective(blocks[h := b1])
    ensures forall g :: g in blocks ==> IsLive(chain', blocks[h := b1][g]) && (g != h ==> blocks[g] != blocks[h])
  {
    hide IsLive;
    var blocks' := blocks[h := b1];
    forall d: Block | IsLive(chain', d) ensures exists g :: g in blocks' && blocks'[g] == d {
      if d == b1 {
        assert blocks'[h] == b1;
      } else {
        var g :| g in blocks && blocks[g] == d;
        assert blocks'[g] == d;
      }
    }
  }

  lemma OtherHolds(chain: seq<Chunk>, mem: map<nat, byte>, mem': map<nat, byte>, b0: Block, cells: seq<Cell>, d: Block)
    requires d.req == |cells| && Holds(mem, cells, d) && IsLive(chain, d) && d != b0 && OthersKeep(chain, mem, mem', b0)
    ensures Holds(mem', cells, d)
  {
    hide IsLive, ByteOf, Ptr;
  }

  lemma CopyHolds(mem: map<nat, byte>, mem': map<nat, byte>, cells: seq<Cell>, b0: Block, b1: Block)
    requires b0.req == |cells| && Holds(mem, cells, b0) && Copied(mem, mem', b0, b1)
    ensures Holds(mem', Resized(cells, b1.req), b1)
  {
    hide ByteOf, Ptr;
    var cells' := Resized(cells, b1.req);
    forall a: nat | InPayload(b1, a) && cells'[a - Ptr(b1)].Known? ensures ByteOf(mem', a) == cells'[a - Ptr(b1)].value {
      var a0: nat := a - Ptr(b1) + Ptr(b0);
      assert InPayload(b0, a0) && cells[a0 - Ptr(b0)] == cells'[a - Ptr(b1)];
    }
  }

  lemma AgreesStored(chain: seq<Chunk>, mem: map<nat, byte>, ideal: Ideal, ptrs: map<nat, nat>, blocks: map<nat, Block>,
                     h: nat, offset: nat, v: byte)
    requires Agrees(chain, mem, ideal, ptrs, blocks) && ChainOk(chain) && h in ideal && offset < |ideal[h]|
    ensures Agrees(chain, mem[ptrs[h] + offset := v], ideal[h := ideal[h][offset := Known(v)]], ptrs, blocks)
  {
    hide IsLive, ChainOk, Ptr;
    var b, cells, mem' := blocks[h], ideal[h][offset := Known(v)], mem[ptrs[h] + offset := v];
    assert Owns(chain, ideal, ptrs, blocks, h) && Holds(mem, ideal[h], b);
    assert InPayload(b, ptrs[h] + offset);
    assert Holds(mem', cells, b);
    var ideal' := ideal[h := cells];
    forall g | g in ideal' && g != h ensures Owns(chain, ideal', ptrs, blocks, g) && Holds(mem', ideal'[g], blocks[g]) {
      assert Owns(chain, ideal, ptrs, blocks, g) && Holds(mem, ideal[g], blocks[g]);
      PayloadsApart(chain, b, blocks[g]);
    }
    assert Owns(chain, ideal', ptrs, blocks, h);
  }

  // ----- traces -----

  /** The state of the heap and the layers below between two requests, but for the bytes: the runs,
      the block of each handle, and the books of the range allocator. */
  datatype Moment = Moment(state: State, blocks: map<nat, Block>)

  /** Each handle has a block of its own, of the size asked for, and no other block is live. */
  ghost predicate Fits(chain: seq<Chunk>, ideal: Ideal, blocks: map<nat, Block>) {
    && ideal.Keys == blocks.Keys && AllHeld(chain, blocks) && Injective(blocks)
    && forall h :: h in ideal ==> IsLive(chain, blocks[h]) && blocks[h].req == |ideal[h]|
  }

  /** The runs are in order and hold just the blocks of the callers, the heap holds the pages of its
      runs and no others, and the frames in use are accounted for. */
  ghost predicate Sound(t: Moment, ideal: Ideal, reserved: set<nat>) {
    && ChainOk(t.state.chain) && NonEmpty(t.state.chain) && Fits(t.state.chain, ideal, t.blocks)
    && PagesAgree(t.state.chain, t.state.books.owned) && Balanced(t.state.books, reserved)
  }

  /** The request asks for new memory, and there is none. */
  ghost predicate Refused(t: Moment, frames: nat, ideal: Ideal, q: Request) {
    Asks(ideal, q) && Starved(t.state.chain, t.state.books, frames, PaddedSize(AskedSize(q)))
  }

  /** What serving a request makes of the heap: the block is allotted, trimmed, moved or given up as
      prescribed, and the other callers keep theirs. */
  ghost predicate Effected(t: Moment, u: Moment, frames: nat, q: Request) {
    && u.blocks - {q.h} == t.blocks - {q.h}
    && match q
       case Malloc(h, size) => h in u.blocks && Allotted(t.state, u.state, frames, size, u.blocks[h])
       case Calloc(h, count, size) => h in u.blocks && Allotted(t.state, u.state, frames, count * size, u.blocks[h])
       case Realloc(h, size) => h in t.blocks && Reallotted(t, u, frames, h, size)
       case Free(h) => h in t.blocks && Vacated(t.state, u.state, t.blocks[h])
       case Store(h, offset, value) => u == t
  }

  ghost predicate Reallotted(t: Moment, u: Moment, frames: nat, h: nat, size: nat)
    requires h in t.blocks
  {
    if size == 0 then Vacated(t.state, u.state, t.blocks[h])
    else if h !in u.blocks then false
    else if size <= t.blocks[h].req then Trimmed(t.state, u.state, t.blocks[h], size) && u.blocks[h] == t.blocks[h].(req := size)
    else Moved(t.state, u.state, frames, size, t.blocks[h], u.blocks[h])
  }

  /** Served as on the ideal heap, request k takes a sound state to a sound state, in which the
      layers below have changed only as the pages taken or given up call for; where blocks go is
      prescribed. */
  ghost predicate Step(trace: seq<Moment>, ideal: Ideal, qs: seq<Request>, reserved: set<nat>, frames: nat, k: nat)
    requires k < |qs| && k + 1 < |trace|
  {
    && LegalRun(ideal, qs[..k]) && LegalRun(ideal, qs[..k + 1])
    && !Refused(trace[k], frames, AfterRun(ideal, qs[..k]), qs[k])
    && Effected(trace[k], trace[k + 1], frames, qs[k])
    && Steady(trace[k].state.books, trace[k + 1].state.books) && Sound(trace[k + 1], AfterRun(ideal, qs[..k + 1]), reserved)
  }

  /** The trace of the first n requests. */
  ghost predicate Traced(trace: seq<Moment>, ideal: Ideal, qs: seq<Request>, reserved: set<nat>, frames: nat, n: nat)
    requires LegalRun(ideal, qs) && n <= |qs|
  {
    && |trace| == n + 1 && Sound(trace[0], ideal, reserved)
    && forall k: nat :: k < n ==> Step(trace, ideal, qs, reserved, frames, k)
  }

  lemma NoTrace(t: Moment, ideal: Ideal, qs: seq<Request>, reserved: set<nat>, frames: nat)
    requires LegalRun(ideal, qs) && Sound(t, ideal, reserved)
    ensures Traced([t], ideal, qs, reserved, frames, 0)
  {
  }

  lemma TraceGrows(trace: seq<Moment>, t: Moment, ideal: Ideal, qs: seq<Request>, reserved: set<nat>, frames: nat, n: nat)
    requires LegalRun(ideal, qs) && n < |qs| && Traced(trace, ideal, qs, reserved, frames, n)
    requires LegalRun(ideal, qs[..n]) && LegalRun(ideal, qs[..n + 1])
    requires !Refused(trace[n], frames, AfterRun(ideal, qs[..n]), qs[n])
    requires Effected(trace[n], t, frames, qs[n])
    requires Steady(trace[n].state.books, t.state.books) && Sound(t, AfterRun(ideal, qs[..n + 1]), reserved)
    ensures Traced(trace + [t], ideal, qs, reserved, frames, n + 1)
  {
    hide Effected, Refused, Steady, Sound, LegalRun, AfterRun;
    forall k: nat | k < n + 1 ensures Step(trace + [t], ideal, qs, reserved, frames, k) {
      if k < n { assert Step(trace, ideal, qs, reserved, frames, k); }
    }
  }

  // ----- callers on the kernel heap -----

  /** The callers of the heap, with the pointer they have for each handle. */
  class Client {
    const heap: Heap
    var ptrs: map<nat, nat>
    ghost var ideal: Ideal
    ghost var blocks: map<nat, Block>

    ghost predicate Valid()
      reads this, heap, heap.vmm.Footprint()
    {
      heap.Valid() && Agrees(heap.chain, heap.mem, ideal, ptrs, blocks) && this !in heap.vmm.Footprint() && heap !in heap.vmm.Footprint()
    }

    constructor (heap: Heap)
      requires heap.Valid() && heap.chain == [] && heap !in heap.vmm.Footprint()
      ensures Valid() && this.heap == heap && ideal == map[] && blocks == map[]
    {
      this.heap := heap;
      ptrs, ideal, blocks := map[], map[], map[];
    }

    /** The heap and what its callers hold stand as they did, and the kernel halts for want of pages
        for a block of `size` bytes, the range allocator having stood at b. */
    ghost predicate Stuck(b: Books, reason: Panic, size: nat)
      reads this, heap, heap.vmm.Footprint()
    {
      heap.Inv() && Agrees(heap.chain, heap.mem, ideal, ptrs, blocks) && heap.GaveUp(b, reason, PaddedSize(size))
    }

    /** What matters of the state between two requests. */
    ghost function Now(): Moment
      reads this, heap, heap.vmm.Footprint()
    {
      Moment(heap.Standing(), blocks)
    }

    /** One request. It is served as the ideal heap serves it, unless it asks for new memory and
        there is none: exactly then the kernel halts. */
    method Serve(q: Request) returns (r: Halting<()>)
      requires Legal(ideal, q)
      requires Valid()
      modifies this, heap, heap.vmm.Footprint()
      ensures r.Halted? <==> Refused(old(Now()), heap.Frames(), old(ideal), q)
      ensures r.Halted? ==> ideal == old(ideal) && heap.chain == old(heap.chain) && Stuck(old(heap.vmm.Now()), r.reason, AskedSize(q))
      ensures r == Halted(HeapExhausted) ==> Valid()
      ensures r.Returned? ==> ideal == After(old(ideal), q) && Steady(old(heap.vmm.Now()), heap.vmm.Now())
      ensures r.Returned? ==> Effected(old(Now()), Now(), heap.Frames(), q)
      ensures r.Returned? ==> Valid()
    {
      hide Heap.Valid, Heap.Inv, Heap.GaveUp, Starved, Steady, RangeAllocator.Now, Agrees, Servable, Allotted, Vacated, Reallotted;
      r := Returned(());
      match q
      case Malloc(h, size) => r := ServeMalloc(h, size);
      case Calloc(h, count, size) => r := ServeCalloc(h, count, size, count * size);
      case Realloc(h, size) => r := ServeRealloc(h, size);
      case Free(h) => ServeFree(h);
      case Store(h, offset, value) => ServeStore(h, offset, value);
    }

    method ServeMalloc(h: nat, size: nat) returns (r: Halting<()>)
      requires h !in ideal && Servable(size)
      requires Valid()
      modifies this, heap, heap.vmm.Footprint()
      ensures r.Halted? <==> Starved(old(heap.chain), old(heap.vmm.Now()), heap.Frames(), PaddedSize(size))
      ensures r.Halted? ==> ideal == old(ideal) && heap.chain == old(heap.chain) && Stuck(old(heap.vmm.Now()), r.reason, size)
      ensures r == Halted(HeapExhausted) ==> Valid()
      ensures r.Returned? ==> ideal == old(ideal)[h := Fresh(size)] && Steady(old(heap.vmm.Now()), heap.vmm.Now())
      ensures r.Returned? ==> h in blocks && blocks == old(blocks)[h := blocks[h]] && Allotted(old(heap.Standing()), heap.Standing(), heap.Frames(), size, blocks[h])
      ensures r.Returned? ==> Valid()
    {
      hide RangeAllocator.Now, Steady, Starved, Supplied;
      hide Heap.Valid, Heap.Inv, Heap.GaveUp, RangeAllocator.Owned, Served, Agrees, IsLive, ChainOk, NonEmpty, AlignOk, Wrote, Ptr, ByteOf, Holds, InPayload;
      ghost var chain, mem := heap.chain, heap.mem;
      heap.ValidParts();
      var p, i, k, s := heap.Kmalloc(size);
      if p.Halted? { return Halted(p.reason); }
      heap.ValidParts();
      ServedListed(chain, heap.chain, old(heap.bestBet), size, s, i, k);
      ServedLive(chain, heap.chain, old(heap.bestBet), size, s, i, k);
      ghost var b := heap.chain[i].blocks[k];
      AllottedAt(old(heap.Standing()), heap.Standing(), heap.Frames(), size, s, i, k);
      PayloadsKeep(chain, heap.chain, mem, heap.mem, heap.mem, b);
      FreshHolds(heap.mem, size, b);
      AgreesNew(chain, heap.chain, mem, heap.mem, ideal, ptrs, blocks, h, Fresh(size), b);
      ptrs, ideal, blocks := ptrs[h := p.value], ideal[h := Fresh(size)], blocks[h := b];
      return Returned(());
    }

    method ServeCalloc(h: nat, count: nat, size: nat, ghost n: nat) returns (r: Halting<()>)
      requires h !in ideal && n == count * size < 0x8000_0000
      requires Valid()
      modifies this, heap, heap.vmm.Footprint()
      ensures r.Halted? <==> Starved(old(heap.chain), old(heap.vmm.Now()), heap.Frames(), PaddedSize(n))
      ensures r.Halted? ==> ideal == old(ideal) && heap.chain == old(heap.chain) && Stuck(old(heap.vmm.Now()), r.reason, n)
      ensures r == Halted(HeapExhausted) ==> Valid()
      ensures r.Returned? ==> ideal == old(ideal)[h := Zeroed(n)] && Steady(old(heap.vmm.Now()), heap.vmm.Now())
      ensures r.Returned? ==> h in blocks && blocks == old(blocks)[h := blocks[h]] && Allotted(old(heap.Standing()), heap.Standing(), heap.Frames(), n, blocks[h])
      ensures r.Returned? ==> Valid()
    {
      hide RangeAllocator.Now, Steady, Starved, Supplied;
      hide Heap.Valid, Heap.Inv, Heap.GaveUp, RangeAllocator.Owned, Agrees, IsLive, Ptr, CallocSize, ByteOf, Allotted, Spared;
      CallocSizeExact(count, size);
      ghost var chain, mem := heap.chain, heap.mem;
      var p;
      ghost var b;
      p, b := heap.Kcalloc(count, size);
      if p.Halted? { return Halted(p.reason); }
      AgreesNew(chain, heap.chain, mem, heap.mem, ideal, ptrs, blocks, h, Zeroed(n), b);
      ptrs, ideal, blocks := ptrs[h := p.value], ideal[h := Zeroed(n)], blocks[h := b];
      return Returned(());
    }

    method ServeFree(h: nat)
      requires h in ideal
      requires Valid()
      modifies this, heap, heap.vmm.Footprint()
      ensures ideal == old(ideal) - {h} && Steady(old(heap.vmm.Now()), heap.vmm.Now()) && Valid()
      ensures h in old(blocks) && blocks == old(blocks) - {h} && Vacated(old(heap.Standing()), heap.Standing(), old(blocks)[h])
    {
      hide RangeAllocator.Now, Steady, Relieved, BetFreed, Vacated;
      hide Heap.Valid, Heap.Inv, RangeAllocator.Owned, Agrees, IsLive, ChainOk, AlignOk, NonEmpty, Ptr, Unalign, LiveAt, Without, Holds, RunHas;
      hide Plain, Faults, ByteOf, InPayload, OthersKeep, Dump, DeadMinor;
      ghost var chain, mem := heap.chain, heap.mem;
      heap.ValidParts();
      Mine(h);
      MyPointer(h);
      ghost var b := blocks[h];
      var f;
      ghost var i, k;
      f, i, k := heap.Kfree(ptrs[h]);
      ListedLive(chain, i, k);
      OneAddress(chain, b, chain[i].blocks[k]);
      VacatedAt(old(heap.Standing()), heap.Standing(), i, k);
      FreedIsGone(chain, mem, heap.mem, i, k, DeadMinor(chain[i], k));
      AgreesFreed(chain, heap.chain, mem, heap.mem, ideal, ptrs, blocks, h);
      ptrs, ideal, blocks := ptrs - {h}, ideal - {h}, blocks - {h};
    }

    method ServeRealloc(h: nat, size: nat) returns (r: Halting<()>)
      requires h in ideal && Servable(size)
      requires Valid()
      modifies this, heap, heap.vmm.Footprint()
      ensures r.Halted? <==> size > |old(ideal)[h]| && Starved(old(heap.chain), old(heap.vmm.Now()), heap.Frames(), PaddedSize(size))
      ensures r.Halted? ==> ideal == old(ideal) && heap.chain == old(heap.chain) && Stuck(old(heap.vmm.Now()), r.reason, size)
      ensures r == Halted(HeapExhausted) ==> Valid()
      ensures r.Returned? ==> Steady(old(heap.vmm.Now()), heap.vmm.Now())
      ensures r.Returned? ==> h in old(blocks) && blocks - {h} == old(blocks) - {h} && Reallotted(old(Now()), Now(), heap.Frames(), h, size)
      ensures r.Returned? ==> ideal == if size == 0 then old(ideal) - {h} else old(ideal)[h := Resized(old(ideal)[h], size)]
      ensures r.Returned? ==> Valid()
    {
      hide RangeAllocator.Now, Steady, Starved, Supplied;
      hide Heap.Valid, Heap.Inv, Heap.GaveUp, RangeAllocator.Owned, Agrees, IsLive, ChainOk, AlignOk, NonEmpty, Ptr, Unalign, LiveAt, Holds, Copied, OthersKeep, Replaced;
      hide Plain, Faults, Wrote, Servable, Heap.Ignored, Heap.Uncounted, Allotted, Moved, Trimmed, Vacated, SparedBoth, HeaderOnly;
      ghost var chain, mem := heap.chain, heap.mem;
      heap.ValidParts();
      Mine(h);
      MyPointer(h);
      ghost var b := blocks[h];
      var p;
      ghost var b0, b1;
      p, b0, b1 := heap.Krealloc(ptrs[h], size);
      OnePointer(chain, b, b0);
      if p.Halted? { return Halted(p.reason); }
      if size == 0 {
        AgreesFreed(chain, heap.chain, mem, heap.mem, ideal, ptrs, blocks, h);
        ptrs, ideal, blocks := ptrs - {h}, ideal - {h}, blocks - {h};
      } else {
        ShrunkIsNew(chain, b, b1);
        AgreesResized(chain, heap.chain, mem, heap.mem, ideal, ptrs, blocks, h, b1);
        ptrs, ideal, blocks := ptrs[h := p.value], ideal[h := Resized(ideal[h], size)], blocks[h := b1];
      }
      return Returned(());
    }

    method ServeStore(h: nat, offset: nat, value: byte)
      requires h in ideal && offset < |ideal[h]|
      requires Valid()
      modifies this, heap
      ensures ideal == old(ideal)[h := old(ideal)[h][offset := Known(value)]] && Steady(old(heap.vmm.Now()), heap.vmm.Now()) && Valid()
      ensures Now() == old(Now())
    {
      hide RangeAllocator.Now, Steady, Reached;
      hide Heap.Valid, Heap.Inv, RangeAllocator.Owned, Agrees, IsLive, ChainOk, AlignOk, NonEmpty, Ptr, Holds, InPayload;
      heap.ValidParts();
      Mine(h);
      heap.BooksHere();
      ghost var i, k := FindBlock(heap.chain, blocks[h]);
      AgreesStored(heap.chain, heap.mem, ideal, ptrs, blocks, h, offset, value);
      heap.ClientStore(ptrs[h] + offset, value, i, k);
      ideal := ideal[h := ideal[h][offset := Known(value)]];
    }

    /** What its pointer leads to. */
    lemma MyPointer(h: nat)
      requires Valid() && h in ideal
      ensures h in ptrs && h in blocks && ptrs[h] > 0 && Plain(heap.chain, heap.mem, ptrs[h]) && !Faults(heap.chain, heap.mem, ptrs[h])
      ensures Unalign(heap.mem, ptrs[h]) - MINOR == blocks[h].addr && LiveAt(heap.chain, blocks[h].addr)
      ensures forall d: Block :: IsLive(heap.chain, d) && d.Body() == Unalign(heap.mem, ptrs[h]) ==> d == blocks[h]
    {
      hide Heap.Inv, RangeAllocator.Ready, RangeAllocator.Owned, PagesAgree, Agrees, IsLive, ChainOk, AlignOk, NonEmpty, Ptr, Unalign, LiveAt, Holds, Plain, Faults, InPayload;
      heap.ValidParts();
      Mine(h);
      OwnPointer(heap.mem, heap.chain, heap.vmm.Owned(), blocks[h]);
      PtrPositive(blocks[h]);
    }

    lemma Mine(h: nat)
      requires Valid() && h in ideal
      ensures h in ptrs && h in blocks && IsLive(heap.chain, blocks[h]) && ptrs[h] == Ptr(blocks[h]) && blocks[h].req == |ideal[h]|
      ensures Holds(heap.mem, ideal[h], blocks[h])
      ensures forall a: nat :: ptrs[h] <= a < ptrs[h] + |ideal[h]| ==> InPayload(blocks[h], a)
    {
      hide Heap.Valid, IsLive, Ptr, Holds, AllHeld, Injective;
      assert Owns(heap.chain, ideal, ptrs, blocks, h);
    }

    /** Any run of requests ends as it does on the ideal heap, or stops at the first request that is
        refused, having come that far as on the ideal heap. Every step on the way is in the trace. */
    method Run(qs: seq<Request>) returns (r: Halting<()>, n: nat, ghost trace: seq<Moment>)
      requires LegalRun(ideal, qs)
      requires Valid()
      modifies this, heap, heap.vmm.Footprint()
      ensures n <= |qs| && Traced(trace, old(ideal), qs, heap.vmm.reserved, heap.Frames(), n) && trace[0] == old(Now())
      ensures LegalRun(old(ideal), qs[..n]) && ideal == AfterRun(old(ideal), qs[..n])
      ensures r.Halted? <==> n < |qs|
      ensures r.Halted? ==> Refused(trace[n], heap.Frames(), ideal, qs[n])
      ensures r.Halted? ==> heap.chain == trace[n].state.chain && Stuck(trace[n].state.books, r.reason, AskedSize(qs[n]))
      ensures r == Halted(HeapExhausted) ==> Valid()
      ensures r.Returned? ==> trace[n] == Now() && Valid()
      ensures heap.vmm.Framed()
    {
      hide Heap.Valid, Agrees, Stuck, Sound, Traced, Steady, Refused, RangeAllocator.Now;
      n := 0;
      trace := [Now()];
      NowSound();
      NoTrace(Now(), ideal, qs, heap.vmm.reserved, heap.Frames());
      while n < |qs|
        invariant n <= |qs| && LegalRun(old(ideal), qs[..n]) && ideal == AfterRun(old(ideal), qs[..n])
        invariant Traced(trace, old(ideal), qs, heap.vmm.reserved, heap.Frames(), n)
        invariant |trace| == n + 1 && trace[0] == old(Now()) && trace[n] == Now()
        invariant Valid()
      {
        LegalPrefix(old(ideal), qs, n + 1);
        assert qs[..n + 1][..n] == qs[..n];
        r := Serve(qs[n]);
        if r.Halted? {
          StuckFramed(trace[n].state.books, r.reason, AskedSize(qs[n]));
          return;
        }
        NowSound();
        TraceGrows(trace, Now(), old(ideal), qs, heap.vmm.reserved, heap.Frames(), n);
        trace := trace + [Now()];
        n := n + 1;
      }
      assert qs[..|qs|] == qs;
      ValidFramed();
      r := Returned(());
    }

    /** Even then no page outside the managed ranges has changed its translation. */
    lemma StuckFramed(b: Books, reason: Panic, size: nat)
      requires Stuck(b, reason, size)
      ensures heap.vmm.Framed()
    {
      hide Heap.Inv, Agrees, RangeAllocator.Framed, RangeAllocator.Mapped, RangeAllocator.Partitioned, RangeAllocator.Now, Stranded;
    }

    lemma ValidFramed()
      requires Valid()
      ensures heap.vmm.Framed()
    {
      hide Heap.Inv, Agrees, RangeAllocator.Framed, RangeAllocator.Mapped, RangeAllocator.Partitioned, PagesAgree, NonEmpty;
    }

    lemma NowSound()
      requires Valid()
      ensures Sound(Now(), ideal, heap.vmm.reserved)
    {
      hide Heap.Inv, RangeAllocator.Owned, RangeAllocator.Valid, Balanced, IsLive, ChainOk, AlignOk, NonEmpty, PagesAgree, Injective, AllHeld, Holds, Ptr;
      heap.ValidParts();
      heap.vmm.BooksBalanced();
      forall h | h in ideal ensures IsLive(heap.chain, blocks[h]) && blocks[h].req == |ideal[h]| { Mine(h); }
    }

    /** What a caller may rely on between requests: 16-byte aligned pointers to blocks that share no
        byte, in which the values stored are found. */
    lemma BlocksAreArrays(h: nat, g: nat)
      requires Valid() && h in ideal && g in ideal
      ensures h in ptrs && ptrs[h] % 16 == 0 && ptrs[h] > 0
      ensures forall o: nat :: o < |ideal[h]| && ideal[h][o].Known? ==> ByteOf(heap.mem, ptrs[h] + o) == ideal[h][o].value
      ensures h != g ==> g in ptrs && ptrs[h] != ptrs[g] && (ptrs[h] + |ideal[h]| <= ptrs[g] || ptrs[g] + |ideal[g]| <= ptrs[h])
    {
      hide Heap.Valid, Agrees, AlignOk, NonEmpty, IsLive, ChainOk, AlignPtr, ByteOf;
      heap.ValidParts();
      Mine(h);
      Mine(g);
      OneBlockEach(h, g);
      AlignShift(blocks[h].Body());
      forall o: nat | o < |ideal[h]| && ideal[h][o].Known? ensures ByteOf(heap.mem, ptrs[h] + o) == ideal[h][o].value {
        assert InPayload(blocks[h], ptrs[h] + o);
      }
      if h != g {
        PayloadsApart(heap.chain, blocks[h], blocks[g]);
        if ptrs[h] == ptrs[g] { OnePointer(heap.chain, blocks[h], blocks[g]); }
      }
    }

    /** Nothing is lost: once every block has been given back, the heap holds no run and no page,
        and its totals are zero. */
    lemma AllGivenBack()
      requires Valid() && ideal == map[]
      ensures heap.chain == [] && heap.vmm.Owned() == {} && heap.memRoot == 0 && heap.bestBet == 0
      ensures heap.heldTotal == 0 && heap.inuseTotal == 0
    {
      hide RangeAllocator.Ready, RangeAllocator.Owned, AlignOk, Chunk.Ok;
      NoBlocksNoRuns(heap.chain);
      assert forall p: nat :: !InSomeRun(heap.chain, p);
    }

    lemma OneBlockEach(h: nat, g: nat)
      requires Valid() && h in ideal && g in ideal
      ensures h in blocks && g in blocks && (blocks[h] == blocks[g] ==> h == g)
    {
      hide Heap.Valid, IsLive, Ptr, Holds, AllHeld;
    }
  }

  lemma NoBlocksNoRuns(chain: seq<Chunk>)
    requires NonEmpty(chain) && AllHeld(chain, map[])
    ensures chain == []
  {
    if chain != [] { ListedLive(chain, 0, 0); }
  }

  lemma FreshHolds(mem: map<nat, byte>, n: nat, b: Block)
    requires b.req == n
    ensures Holds(mem, Fresh(n), b)
  {
    hide Ptr, ByteOf;
  }

  lemma ShrunkIsNew(chain: seq<Chunk>, b: Block, b1: Block)
    requires ChainOk(chain) && IsLive(chain, b) && (b1 == b.(req := b1.req) || !IsLive(chain, b1))
    ensures b1 == b || !IsLive(chain, b1)
  {
    hide ChainOk, IsLive;
    if IsLive(chain, b1) { OneAddress(chain, b, b1); }
  }

  lemma {:induction false} LegalPrefix(ideal: Ideal, qs: seq<Request>, n: nat)
    requires LegalRun(ideal, qs) && n <= |qs|
    ensures LegalRun(ideal, qs[..n])
    decreases |qs|
  {
    if n < |qs| {
      LegalPrefix(ideal, qs[..|qs| - 1], n);
      assert qs[..|qs| - 1][..n] == qs[..n];
    } else {
      assert qs[..n] == qs;
    }
  }

  /** The heap is empty, mapped are just the pages that boot maps, and of the memory found at power-on
      nothing but tables was written. */
  ghost predicate AfterBoot(t: Moment, secs: seq<BootMap.Section>, pages: nat, memory: seq<word>)
    requires forall sh | sh in secs :: BootMap.SectionOk(sh)
  {
    && P.Untouched(memory, t.state.books.memory, t.state.books.tree.Values)
    && t.state.chain == [] && t.blocks == map[] && t.state.books.owned == {} && t.state.books.last == 0
    && t.state.books.tree.Keys == {P.Root} + PagePaths(Boot.MappedAtBoot(secs, pages))
    && (forall vp :: vp in t.state.books.backing <==>
         BitmapPage(0) <= vp < BitmapPage(BITMAP_PAGES) || StackPage(1) <= vp <= StackPage(STACK_PAGES))
  }

  /** Boot found the frames it needs, just those that init_pmm marked are reserved, and the first n
      requests went as on the ideal heap, by the steps of the trace, while every page outside the
      managed ranges kept the translation it got in boot. */
  ghost predicate Reaches(info: Pmm.BootInfo, secs: seq<BootMap.Section>, qs: seq<Request>, pmm: Pmm.FrameAllocator, c: Client, n: nat, trace: seq<Moment>, memory: seq<word>)
    requires info.WellFormed() && LegalRun(map[], qs) && forall sh | sh in secs :: BootMap.SectionOk(sh)
    reads c, c.heap, c.heap.vmm.Footprint()
  {
    && Boot.BuiltFor(info, pmm) && Boot.FreeAtBoot(info, pmm) >= Boot.BootNeeds(secs, pmm.MaxPages())
    && c.heap.vmm.space.pmm == pmm && c.heap.vmm.reserved == Boot.BootFrames(info, pmm)
    && n <= |qs| && LegalRun(map[], qs[..n]) && c.ideal == AfterRun(map[], qs[..n])
    && Traced(trace, map[], qs, c.heap.vmm.reserved, pmm.MaxPages(), n) && AfterBoot(trace[0], secs, pmm.MaxPages(), memory)
    && forall vp: nat :: vp < Paging.PAGES && !Managed(vp) ==> c.heap.vmm.space.Lookup(vp) == BootMap.BootEntry(secs, pmm.MaxPages(), vp)
  }

  /** When and why a run from power-on stops: in boot, or at the first request for new memory when
      there is none. */
  ghost predicate Stopped(info: Pmm.BootInfo, secs: seq<BootMap.Section>, qs: seq<Request>, reason: Panic,
                          pmm: Pmm.FrameAllocator?, c: Client?, n: nat, trace: seq<Moment>, memory: seq<word>)
    requires info.WellFormed() && LegalRun(map[], qs) && forall sh | sh in secs :: BootMap.SectionOk(sh)
    reads if pmm == null then {} else {pmm, pmm.bmp}, if c == null then {} else {c, c.heap} + c.heap.vmm.Footprint()
  {
    if c == null then Boot.BootHalts(info, secs, pmm, reason)
    else
      && pmm != null && Reaches(info, secs, qs, pmm, c, n, trace, memory) && n < |qs| && Refused(trace[n], pmm.MaxPages(), c.ideal, qs[n])
      && c.heap.chain == trace[n].state.chain && c.Stuck(trace[n].state.books, reason, AskedSize(qs[n]))
  }

  lemma AtStart(c: Client, secs: seq<BootMap.Section>, pages: nat, memory: seq<word>)
    requires forall sh | sh in secs :: BootMap.SectionOk(sh)
    requires c.heap.chain == [] && c.blocks == map[] && c.heap.vmm.Owned() == {} && c.heap.vmm.last == 0
    requires c.heap.vmm.space.tree.Keys == {P.Root} + PagePaths(Boot.MappedAtBoot(secs, pages))
    requires forall vp :: vp in c.heap.vmm.backing <==>
      BitmapPage(0) <= vp < BitmapPage(BITMAP_PAGES) || StackPage(1) <= vp <= StackPage(STACK_PAGES)
    requires P.Untouched(memory, c.heap.vmm.space.ram[..], c.heap.vmm.space.Tables())
    ensures AfterBoot(c.Now(), secs, pages, memory)
  {
    hide P.Untouched, PagePaths, Boot.MappedAtBoot, BootMap.SectionOk;
  }

  lemma StillBooted(c: Client, secs: seq<BootMap.Section>, pages: nat)
    requires forall sh | sh in secs :: BootMap.SectionOk(sh)
    requires c.heap.vmm.Framed() && forall vp: nat :: vp < Paging.PAGES && !Managed(vp) ==> c.heap.vmm.outside(vp) == BootMap.BootEntry(secs, pages, vp)
    ensures forall vp: nat :: vp < Paging.PAGES && !Managed(vp) ==> c.heap.vmm.space.Lookup(vp) == BootMap.BootEntry(secs, pages, vp)
  {
    hide Managed, BootMap.BootEntry, BootMap.SectionOk, Paging.AddressSpace.Lookup;
  }

  /** From power-on: boot, an empty heap, then any run of requests. The run ends as on the ideal
      heap, in a state in which all layers agree and the stack is guarded, or it stops for one of the
      reasons given. */
  method KernelRun(info: Pmm.BootInfo, ram: array<word>, secs: seq<BootMap.Section>, qs: seq<Request>)
    returns (r: Halting<Client>, ghost pmm: Pmm.FrameAllocator?, ghost c: Client?, n: nat, ghost trace: seq<Moment>)
    requires info.WellFormed() && forall sh | sh in secs :: BootMap.SectionOk(sh)
    requires forall high: nat, top: nat :: Pmm.IsHighest(info, high) && Pmm.IsTop(info.TagList(), top) ==> Pmm.Covered(high, top)
    requires forall top: nat :: Pmm.IsTop(info.TagList(), top) ==>
      top <= VMM_BITMAP_VIRT_START - BootMap.NEW_HDDM && 512 * (top / 4096) <= ram.Length
    requires LegalRun(map[], qs)
    modifies ram
    ensures r.Halted? ==> Stopped(info, secs, qs, r.reason, pmm, c, n, trace, old(ram[..]))
    ensures r.Returned? ==>
      && info.mb2Addr < Pmm.ONE_GIB && !Boot.BitmapTooLong(info)
      && pmm != null && n == |qs| && Reaches(info, secs, qs, pmm, r.value, n, trace, old(ram[..])) && trace[n] == r.value.Now()
      && r.value.Valid() && r.value.ideal == AfterRun(map[], qs)
  {
    hide Pmm.Covered, Pmm.IsTop, Pmm.IsHighest, Pmm.BootInfo.WellFormed, Pmm.BootInfo.TagList, BootMap.SectionOk, Boot.BitmapTooLong;
    hide RangeAllocator.Ready, RangeAllocator.Owned, Heap.Valid, Agrees, Boot.BootUsed, Boot.BootHalts, Client.Stuck;
    hide Boot.BuiltFor, Boot.FreeAtBoot, Boot.BootNeeds, Boot.BootFrames, Boot.MappedAtBoot, BootMap.BootEntry, PagePaths, Managed, Paging.AddressSpace.Lookup;
    hide RangeAllocator.Framed, RangeAllocator.Now, AfterBoot, P.Untouched, Refused, Traced, LegalRun, AfterRun;
    c, n, trace := null, 0, [];
    var v;
    v, pmm := Boot.KernelStage1(info, ram, secs);
    if v.Halted? { return Halted(v.reason), pmm, c, n, trace; }
    var heap := new Heap(v.value);
    var client := new Client(heap);
    c := client;
    AtStart(client, secs, pmm.MaxPages(), old(ram[..]));
    var done;
    done, n, trace := client.Run(qs);
    StillBooted(client, secs, pmm.MaxPages());
    if done.Halted? { return Halted(done.reason), pmm, c, n, trace; }
    assert qs[..|qs|] == qs;
    return Returned(client), pmm, c, n, trace;
  }
}
