/** The layout of the kernel heap, kernel/mm/kheap.c, apart from the pointers that record it: page
    runs ("majors"), the blocks ("minors") placed in them, the gaps between, and the alignment of
    the pointers handed out. */
module HeapLayout {
  import opened Words

  const MAJOR: nat := 40        // sizeof(struct liballoc_major)
  const MINOR: nat := 40        // sizeof(struct liballoc_minor)
  const ALIGNMENT: nat := 16
  const ALIGN_INFO: nat := 16

  /** A block: the address of its header, the bytes that follow it, and the bytes asked for. */
  datatype Block = Block(addr: nat, size: nat, req: nat) {
    function Body(): nat { addr + MINOR }
    function End(): nat { addr + MINOR + size }
  }

  /** A run of pages, with its blocks in address order. */
  datatype Chunk = Chunk(base: nat, pages: nat, blocks: seq<Block>) {
    function Size(): nat { 4096 * pages }
    function Start(): nat { base + MAJOR }
    function Limit(): nat { base + Size() }

    /** Gap k lies before block k; the last gap reaches to the end of the run. */
    function GapStart(k: nat): nat
      requires k <= |blocks|
    {
      if k == 0 then Start() else blocks[k - 1].End()
    }

    function GapEnd(k: nat): nat
      requires k <= |blocks|
    {
      if k == |blocks| then Limit() else blocks[k].addr
    }

    function Gap(k: nat): int
      requires k <= |blocks|
    {
      GapEnd(k) - GapStart(k)
    }

    /** A block of `size` bytes and its header fit into gap k. */
    predicate FitsAt(k: nat, size: nat)
      requires k <= |blocks|
    {
      Gap(k) >= size + MINOR
    }

    ghost predicate Full(size: nat) {
      forall k: nat | k <= |blocks| :: !FitsAt(k, size)
    }

    /** Gap k is the lowest one that fits. */
    ghost predicate LowestFit(k: nat, size: nat) {
      k <= |blocks| && FitsAt(k, size) && forall j: nat | j < k :: !FitsAt(j, size)
    }

    function Insert(k: nat, b: Block): Chunk
      requires k <= |blocks|
    {
      Chunk(base, pages, blocks[..k] + [b] + blocks[k..])
    }

    function Remove(k: nat): Chunk
      requires k < |blocks|
    {
      Chunk(base, pages, blocks[..k] + blocks[k + 1..])
    }

    /** What the header's `usage` field should hold. */
    function Usage(): nat { MAJOR + Taken(blocks) }

    /** The blocks are strictly address-ordered, non-overlapping and inside [base + 40, limit), and
        each is large enough for what was asked, its alignment slack included. */
    ghost predicate Ok() {
      && 1 <= pages && Size() < U32 && 0 < base && base % 4096 == 0
      && (forall k :: 0 <= k < |blocks| ==> Start() <= blocks[k].addr && blocks[k].End() <= Limit())
      && (forall j, k :: 0 <= j < k < |blocks| ==> blocks[j].End() <= blocks[k].addr)
      && (forall k :: 0 <= k < |blocks| ==> blocks[k].req + ALIGNMENT + ALIGN_INFO <= blocks[k].size)
    }
  }

  /** Bytes taken by blocks, headers included. */
  function Taken(bs: seq<Block>): nat {
    if bs == [] then 0 else Taken(bs[..|bs| - 1]) + bs[|bs| - 1].size + MINOR
  }

  /** Bytes in the bodies of blocks. */
  function Bodies(bs: seq<Block>): nat {
    if bs == [] then 0 else Bodies(bs[..|bs| - 1]) + bs[|bs| - 1].size
  }

  lemma {:induction false} TakenInsert(bs: seq<Block>, k: nat, b: Block)
    requires k <= |bs|
    ensures Taken(bs[..k] + [b] + bs[k..]) == Taken(bs) + b.size + MINOR
    ensures Bodies(bs[..k] + [b] + bs[k..]) == Bodies(bs) + b.size
    decreases |bs|
  {
    var n := |bs|;
    var s := bs[..k] + [b] + bs[k..];
    if k == n {
      assert s[..n] == bs;
    } else {
      TakenInsert(bs[..n - 1], k, b);
      assert s[..n] == bs[..n - 1][..k] + [b] + bs[..n - 1][k..];
    }
  }

  lemma TakenRemove(bs: seq<Block>, k: nat)
    requires k < |bs|
    ensures Taken(bs[..k] + bs[k + 1..]) + bs[k].size + MINOR == Taken(bs)
    ensures Bodies(bs[..k] + bs[k + 1..]) + bs[k].size == Bodies(bs)
  {
    hide Taken, Bodies;
    var s := bs[..k] + bs[k + 1..];
    TakenInsert(s, k, bs[k]);
    assert s[..k] == bs[..k] && s[k..] == bs[k + 1..];
    assert s[..k] + [bs[k]] + s[k..] == bs;
  }

  // ----- gaps -----

  /** The sum of the first n gaps. */
  function GapSum(c: Chunk, n: nat): int
    requires n <= |c.blocks| + 1
  {
    if n == 0 then 0 else GapSum(c, n - 1) + c.Gap(n - 1)
  }

  lemma {:induction false} GapsBefore(c: Chunk, n: nat)
    requires n <= |c.blocks|
    ensures GapSum(c, n) + Taken(c.blocks[..n]) == c.GapStart(n) - c.Start()
    decreases n
  {
    if n > 0 {
      GapsBefore(c, n - 1);
      assert c.blocks[..n][..n - 1] == c.blocks[..n - 1];
    }
  }

  /** `size - usage` is exactly the sum of all gaps. */
  lemma FreeIsGaps(c: Chunk)
    ensures c.Size() - c.Usage() == GapSum(c, |c.blocks| + 1)
  {
    GapsBefore(c, |c.blocks|);
    assert c.blocks[..|c.blocks|] == c.blocks;
  }

  lemma GapNonNegative(c: Chunk, k: nat)
    requires c.Ok() && k <= |c.blocks|
    ensures c.Gap(k) >= 0
  {
  }

  lemma {:induction false} GapInSum(c: Chunk, k: nat, n: nat)
    requires c.Ok() && k < n <= |c.blocks| + 1
    ensures 0 <= c.Gap(k) <= GapSum(c, n)
    decreases n
  {
    hide Chunk.Ok, Chunk.Gap;
    GapNonNegative(c, n - 1);
    if k < n - 1 {
      GapInSum(c, k, n - 1);
    } else {
      GapSumNonNegative(c, n - 1);
    }
  }

  lemma {:induction false} GapSumNonNegative(c: Chunk, n: nat)
    requires c.Ok() && n <= |c.blocks| + 1
    ensures GapSum(c, n) >= 0
    decreases n
  {
    hide Chunk.Ok, Chunk.Gap;
    if n > 0 {
      GapSumNonNegative(c, n - 1);
      GapNonNegative(c, n - 1);
    }
  }

  /** A run whose free bytes do not suffice has no fitting gap: skipping it misses nothing. */
  lemma SkipMissesNothing(c: Chunk, size: nat)
    requires c.Ok() && c.Size() - c.Usage() < size + MINOR
    ensures c.Full(size)
  {
    FreeIsGaps(c);
    forall k: nat | k <= |c.blocks| ensures !c.FitsAt(k, size) {
      GapInSum(c, k, |c.blocks| + 1);
    }
  }

  // ----- placing and removing a block -----

  /** A block at the start of a gap keeps the run in order exactly when it fits there. */
  lemma InsertExact(c: Chunk, k: nat, size: nat, req: nat)
    requires c.Ok() && k <= |c.blocks| && req + ALIGNMENT + ALIGN_INFO <= size
    ensures c.FitsAt(k, size) <==> c.Insert(k, Block(c.GapStart(k), size, req)).Ok()
  {
    hide Chunk.Ok;
    if c.FitsAt(k, size) { InsertOk(c, k, size, req); } else { InsertNotOk(c, k, Block(c.GapStart(k), size, req)); }
  }

  lemma InsertNotOk(c: Chunk, k: nat, b: Block)
    requires c.Ok() && k <= |c.blocks| && b.addr == c.GapStart(k) && !c.FitsAt(k, b.size)
    ensures !c.Insert(k, b).Ok()
  {
    var bs := c.Insert(k, b).blocks;
    assert bs[k] == b;
    if k < |c.blocks| { assert bs[k + 1] == c.blocks[k]; }
  }

  lemma InsertOk(c: Chunk, k: nat, size: nat, req: nat)
    requires c.Ok() && k <= |c.blocks| && c.FitsAt(k, size) && req + ALIGNMENT + ALIGN_INFO <= size
    ensures c.Insert(k, Block(c.GapStart(k), size, req)).Ok()
  {
    var b := Block(c.GapStart(k), size, req);
    var bs := c.Insert(k, b).blocks;
    GapOrder(c, k);
    forall i | 0 <= i < |bs| ensures c.Start() <= bs[i].addr && bs[i].End() <= c.Limit() && bs[i].req + 32 <= bs[i].size {
      if i != k { assert bs[i] == c.blocks[if i < k then i else i - 1]; }
    }
    forall i, j | 0 <= i < j < |bs| ensures bs[i].End() <= bs[j].addr {
      InsertOrder(c, k, b, i, j);
    }
  }

  lemma InsertOrder(c: Chunk, k: nat, b: Block, i: nat, j: nat)
    requires c.Ok() && k <= |c.blocks| && b.addr == c.GapStart(k) && b.End() <= c.GapEnd(k) && i < j < |c.Insert(k, b).blocks|
    ensures c.Insert(k, b).blocks[i].End() <= c.Insert(k, b).blocks[j].addr
  {
    var bs := c.Insert(k, b).blocks;
    GapOrder(c, k);
    hide Chunk.GapStart, Chunk.GapEnd, Chunk.Limit, Chunk.Start;
    if i != k { assert bs[i] == c.blocks[if i < k then i else i - 1]; }
    if j != k { assert bs[j] == c.blocks[if j < k then j else j - 1]; }
  }

  /** Gap k lies after every earlier block and before every later one. */
  lemma GapOrder(c: Chunk, k: nat)
    requires c.Ok() && k <= |c.blocks|
    ensures c.Start() <= c.GapStart(k) && c.GapEnd(k) <= c.Limit()
    ensures forall j :: 0 <= j < k ==> c.blocks[j].End() <= c.GapStart(k)
    ensures forall j :: k <= j < |c.blocks| ==> c.GapEnd(k) <= c.blocks[j].addr
  {
  }

  lemma RemoveOk(c: Chunk, k: nat)
    requires c.Ok() && k < |c.blocks|
    ensures c.Remove(k).Ok()
  {
    var bs := c.Remove(k).blocks;
    forall i, j | 0 <= i < j < |bs| ensures bs[i].End() <= bs[j].addr {
      var i' := if i < k then i else i + 1;
      var j' := if j < k then j else j + 1;
    }
  }

  lemma RemoveInsert(c: Chunk, k: nat, b: Block)
    requires k <= |c.blocks|
    ensures c.Insert(k, b).blocks[k] == b && c.Insert(k, b).Remove(k) == c
  {
    var bs := c.Insert(k, b).blocks;
    assert bs[..k] + bs[k + 1..] == c.blocks;
  }

  // ----- the whole heap -----

  ghost predicate ChainOk(chain: seq<Chunk>) {
    && (forall i :: 0 <= i < |chain| ==> chain[i].Ok())
    && (forall i, j :: 0 <= i < |chain| && 0 <= j < |chain| && i != j ==> Apart(chain[i], chain[j]))
  }

  predicate Apart(c: Chunk, d: Chunk) {
    c.Limit() <= d.base || d.Limit() <= c.base
  }

  function Held(chain: seq<Chunk>): nat {
    if chain == [] then 0 else Held(chain[..|chain| - 1]) + chain[|chain| - 1].Size()
  }

  function InUse(chain: seq<Chunk>): nat {
    if chain == [] then 0 else InUse(chain[..|chain| - 1]) + Bodies(chain[|chain| - 1].blocks)
  }

  lemma {:induction false} TotalsUpdate(chain: seq<Chunk>, i: nat, c: Chunk)
    requires i < |chain|
    ensures Held(chain[i := c]) == Held(chain) - chain[i].Size() + c.Size()
    ensures InUse(chain[i := c]) == InUse(chain) - Bodies(chain[i].blocks) + Bodies(c.blocks)
    decreases |chain|
  {
    var n := |chain| - 1;
    if i == n {
      assert chain[i := c][..n] == chain[..n];
    } else {
      TotalsUpdate(chain[..n], i, c);
      assert chain[i := c][..n] == chain[..n][i := c];
    }
  }

  lemma {:induction false} TotalsRemove(chain: seq<Chunk>, i: nat)
    requires i < |chain|
    ensures Held(chain[..i] + chain[i + 1..]) == Held(chain) - chain[i].Size()
    ensures InUse(chain[..i] + chain[i + 1..]) == InUse(chain) - Bodies(chain[i].blocks)
    decreases |chain|
  {
    var n := |chain| - 1;
    var s := chain[..i] + chain[i + 1..];
    if i == n {
      assert s == chain[..n];
    } else {
      TotalsRemove(chain[..n], i);
      assert s[..n - 1] == chain[..n][..i] + chain[..n][i + 1..];
    }
  }

  // ----- alignment -----

  /** The pointer ALIGN computes from the start of a block's body. */
  function AlignPtr(p: nat): nat {
    var q := p + ALIGN_INFO;
    if q % 16 == 0 then q else q + 16 - q % 16
  }

  /** The pointer a client holds for block b. */
  function Ptr(b: Block): nat { AlignPtr(b.Body()) }

  lemma AlignShift(p: nat)
    ensures p + 16 <= AlignPtr(p) <= p + 31 && AlignPtr(p) % 16 == 0
  {
  }

  /** Byte a belongs to the client of block b. */
  predicate InPayload(b: Block, a: nat) { Ptr(b) <= a < Ptr(b) + b.req }

  /** The byte in which ALIGN records its shift. */
  function AlignByteOf(b: Block): nat { Ptr(b) - ALIGN_INFO }

  /** Inside its own block, the header comes first, then the alignment byte, then the payload,
      which starts at the first multiple of 16 that leaves 16 bytes for that byte, and ends before
      the block does. */
  lemma BlockLayout(b: Block)
    requires b.req + ALIGNMENT + ALIGN_INFO <= b.size
    ensures Ptr(b) % 16 == 0 && b.addr + 56 <= Ptr(b) < b.addr + 72 && AlignByteOf(b) == Ptr(b) - 16
    ensures b.addr + MINOR <= AlignByteOf(b) < Ptr(b) && Ptr(b) + b.req < b.End()
  {
    AlignShift(b.Body());
  }

  /** The i-th major's k-th block is listed. */
  predicate Listed(chain: seq<Chunk>, i: nat, k: nat) { i < |chain| && k < |chain[i].blocks| }

  /** Two different listed blocks occupy disjoint ranges of addresses. */
  lemma BlocksApart(chain: seq<Chunk>, i: nat, k: nat, j: nat, l: nat)
    requires ChainOk(chain) && Listed(chain, i, k) && Listed(chain, j, l) && (i, k) != (j, l)
    ensures var b, d := chain[i].blocks[k], chain[j].blocks[l];
      b.End() <= d.addr || d.End() <= b.addr
  {
    if i != j {
      assert Apart(chain[i], chain[j]);
    }
  }

  /** Isolation: the payload of a live block shares no byte with any header of a major, any header
      of a minor, any alignment byte, or any other live payload. */
  lemma Isolation(chain: seq<Chunk>, i: nat, k: nat, j: nat, l: nat, a: nat)
    requires ChainOk(chain) && Listed(chain, i, k) && j < |chain|
    requires InPayload(chain[i].blocks[k], a)
    ensures Ptr(chain[i].blocks[k]) % 16 == 0
    ensures !(chain[j].base <= a < chain[j].Start())
    ensures l < |chain[j].blocks| ==>
      var d := chain[j].blocks[l];
      !(d.addr <= a < d.addr + MINOR) && a != AlignByteOf(d) && ((i, k) != (j, l) ==> !InPayload(d, a))
  {
    hide AlignPtr;
    BlockLayout(chain[i].blocks[k]);
    if i != j { assert Apart(chain[i], chain[j]); }
    if l < |chain[j].blocks| {
      BlockLayout(chain[j].blocks[l]);
      if (i, k) != (j, l) { BlocksApart(chain, i, k, j, l); }
    }
  }
}
