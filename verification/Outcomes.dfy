/** What a request makes of the heap as a whole: its runs and blocks, the best bet, and the pages,
    frames and tables below. */
module Outcomes {
  import opened Words
  import opened HeapLayout
  import opened HeapSteps
  import opened BestBet
  import opened Vmm

  datatype State = State(chain: seq<Chunk>, bet: nat, books: Books)

  /** A request for reqSize bytes got block b: in the lowest fitting gap of the first run with one,
      going round from where the best bet has the search start, or in a new run on the pages that
      next fit prescribes; the best bet is what the search left. */
  ghost predicate Allotted(t: State, u: State, frames: nat, reqSize: nat, b: Block) {
    exists s: nat, i: nat, k: nat :: Placement(t, u, frames, reqSize, s, i, k) && b == u.chain[i].blocks[k]
  }

  /** The same, in gap k of run i, the search having started at run s. */
  ghost predicate Placement(t: State, u: State, frames: nat, reqSize: nat, s: nat, i: nat, k: nat) {
    && Served(t.chain, u.chain, t.bet, reqSize, s, i, k)
    && Supplied(t.chain, t.books, u.books, frames, u.chain[i].base, PaddedSize(reqSize))
    && BetAfter(t.chain, u.chain[i].base, t.bet, u.bet, PaddedSize(reqSize), s, i)
  }

  /** Block b was freed, and its run with its pages if it held no other. */
  ghost predicate Vacated(t: State, u: State, b: Block) {
    exists i: nat, k: nat :: Removal(t, u, i, k) && b == t.chain[i].blocks[k]
  }

  ghost predicate Removal(t: State, u: State, i: nat, k: nat) {
    && Listed(t.chain, i, k) && u.chain == Without(t.chain, i, k)
    && BetFreed(t.chain, u.chain, t.bet, u.bet, i) && Relieved(t.books, u.books, t.chain[i])
  }

  /** Block b0 was moved: block b1 was allotted as for any other request, and then b0 was freed. */
  ghost predicate Moved(t: State, u: State, frames: nat, reqSize: nat, b0: Block, b1: Block) {
    exists m: State :: Allotted(t, m, frames, reqSize, b1) && Vacated(m, u, b0)
  }

  /** Block b is asked for `size` bytes, in its place, and nothing else has changed. */
  ghost predicate Trimmed(t: State, u: State, b: Block, size: nat) {
    && u.bet == t.bet && u.books == t.books
    && exists i: nat, k: nat :: Listed(t.chain, i, k) && b == t.chain[i].blocks[k] && u.chain == t.chain[i := Shrunk(t.chain[i], k, size)]
  }

  /** The only bytes changed in the old runs lie in b's payload or hold its alignment. */
  ghost predicate Spared(chain: seq<Chunk>, mem: map<nat, byte>, mem': map<nat, byte>, b: Block) {
    forall a: nat :: Resident(chain, a) && !InPayload(b, a) && a != AlignByteOf(b) ==> ByteOf(mem', a) == ByteOf(mem, a)
  }

  /** Or in the header of b0. */
  ghost predicate SparedBoth(chain: seq<Chunk>, mem: map<nat, byte>, mem': map<nat, byte>, b0: Block, b1: Block) {
    forall a: nat :: Resident(chain, a) && !InPayload(b1, a) && a != AlignByteOf(b1) && !(b0.addr <= a < b0.Body()) ==>
      ByteOf(mem', a) == ByteOf(mem, a)
  }

  lemma AllottedAt(t: State, u: State, frames: nat, reqSize: nat, s: nat, i: nat, k: nat)
    requires Placement(t, u, frames, reqSize, s, i, k)
    ensures Listed(u.chain, i, k) && Allotted(t, u, frames, reqSize, u.chain[i].blocks[k])
  {
    hide Supplied, BetAfter, Served;
    ServedListed(t.chain, u.chain, t.bet, reqSize, s, i, k);
  }

  lemma VacatedAt(t: State, u: State, i: nat, k: nat)
    requires Removal(t, u, i, k)
    ensures Listed(t.chain, i, k) && Vacated(t, u, t.chain[i].blocks[k])
  {
    hide Relieved, BetFreed, Without;
  }

  lemma MovedVia(t: State, m: State, u: State, frames: nat, reqSize: nat, b0: Block, b1: Block)
    requires Allotted(t, m, frames, reqSize, b1) && Vacated(m, u, b0)
    ensures Moved(t, u, frames, reqSize, b0, b1)
  {
    hide Allotted, Vacated;
  }

  lemma TrimmedAt(t: State, u: State, i: nat, k: nat, size: nat)
    requires Listed(t.chain, i, k) && u == t.(chain := t.chain[i := Shrunk(t.chain[i], k, size)])
    ensures Trimmed(t, u, t.chain[i].blocks[k], size)
  {
  }

  lemma SparedNew(chain: seq<Chunk>, mem: map<nat, byte>, mem1: map<nat, byte>, mem2: map<nat, byte>, b: Block, n: nat)
    requires Wrote(chain, mem, mem1, b) && n <= b.req
    requires forall a: nat :: !(Ptr(b) <= a < Ptr(b) + n) ==> ByteOf(mem2, a) == ByteOf(mem1, a)
    ensures Spared(chain, mem, mem2, b)
  {
    hide ByteOf, Resident, Ptr;
  }

  lemma SparedMoved(chain: seq<Chunk>, mem: map<nat, byte>, mem1: map<nat, byte>, mem2: map<nat, byte>, b0: Block, b1: Block)
    requires Spared(chain, mem, mem1, b1) && HeaderOnly(mem1, mem2, b0)
    ensures SparedBoth(chain, mem, mem2, b0, b1)
  {
    hide ByteOf, Resident, InPayload;
  }
}
