/** The headers of the kernel heap, kernel/mm/kheap.c:80-103, as records found by address, and what
    it means for them to describe a heap layout. */
module HeapLinks {
  import opened HeapLayout

  const LIBALLOC_MAGIC: nat := 0xC001_C0DE
  const LIBALLOC_DEAD: nat := 0xDEAD_DEAD

  /** struct liballoc_major; links are addresses, 0 being NULL. */
  datatype Major = Major(prev: nat, next: nat, pages: nat, size: nat, usage: nat, first: nat)

  /** struct liballoc_minor. */
  datatype Minor = Minor(prev: nat, next: nat, block: nat, magic: nat, size: nat, reqSize: nat)

  function AddrAt(bs: seq<Block>, k: int): nat { if 0 <= k < |bs| then bs[k].addr else 0 }

  function BaseAt(chain: seq<Chunk>, i: int): nat { if 0 <= i < |chain| then chain[i].base else 0 }

  /** The header that block k of run c should have: its neighbours in the run are its links. */
  function MinorAt(c: Chunk, k: nat): Minor
    requires k < |c.blocks|
  {
    Minor(AddrAt(c.blocks, k - 1), AddrAt(c.blocks, k + 1), c.base, LIBALLOC_MAGIC, c.blocks[k].size, c.blocks[k].req)
  }

  /** The header that run i should have. */
  function MajorAt(chain: seq<Chunk>, i: nat): Major
    requires i < |chain|
  {
    Major(BaseAt(chain, i - 1), BaseAt(chain, i + 1), chain[i].pages, chain[i].Size(), chain[i].Usage(), AddrAt(chain[i].blocks, 0))
  }

  ghost predicate MinorsOk(minors: map<nat, Minor>, c: Chunk) {
    forall k :: 0 <= k < |c.blocks| ==> c.blocks[k].addr in minors && minors[c.blocks[k].addr] == MinorAt(c, k)
  }

  ghost predicate MajorsOk(majors: map<nat, Major>, chain: seq<Chunk>) {
    forall i :: 0 <= i < |chain| ==> chain[i].base in majors && majors[chain[i].base] == MajorAt(chain, i)
  }

  ghost predicate IsHeader(chain: seq<Chunk>, a: nat) {
    exists i: nat, k: nat :: Listed(chain, i, k) && chain[i].blocks[k].addr == a
  }

  /** A header carries the live magic only if it is that of a listed block. */
  ghost predicate MagicOk(minors: map<nat, Minor>, chain: seq<Chunk>) {
    forall a :: a in minors && minors[a].magic == LIBALLOC_MAGIC ==> IsHeader(chain, a)
  }

  /** The headers describe the chain. */
  ghost predicate Rep(majors: map<nat, Major>, minors: map<nat, Minor>, chain: seq<Chunk>) {
    && ChainOk(chain) && MajorsOk(majors, chain) && MagicOk(minors, chain)
    && AllMinorsOk(minors, chain)
  }

  ghost predicate AllMinorsOk(minors: map<nat, Minor>, chain: seq<Chunk>) {
    forall i :: 0 <= i < |chain| ==> MinorsOk(minors, chain[i])
  }

  // ----- both lists are doubly linked -----

  /** Following `next` and then `prev` comes back, and `block` names the owner. */
  lemma MinorLinksInverse(minors: map<nat, Minor>, c: Chunk, k: nat)
    requires MinorsOk(minors, c) && c.Ok() && k < |c.blocks|
    ensures c.blocks[k].addr in minors
    ensures var m := minors[c.blocks[k].addr];
      && m.block == c.base
      && (m.next != 0 ==> m.next in minors && minors[m.next].prev == c.blocks[k].addr)
      && (m.prev != 0 ==> m.prev in minors && minors[m.prev].next == c.blocks[k].addr)
      && (m.next == 0 <==> k == |c.blocks| - 1) && (m.prev == 0 <==> k == 0)
  {
    if k + 1 < |c.blocks| { assert minors[c.blocks[k + 1].addr] == MinorAt(c, k + 1); }
    if k > 0 { assert minors[c.blocks[k - 1].addr] == MinorAt(c, k - 1); }
  }

  lemma MajorLinksInverse(majors: map<nat, Major>, chain: seq<Chunk>, i: nat)
    requires MajorsOk(majors, chain) && i < |chain| && forall j :: 0 <= j < |chain| ==> chain[j].base != 0
    ensures chain[i].base in majors
    ensures var m := majors[chain[i].base];
      && (m.next != 0 ==> m.next in majors && majors[m.next].prev == chain[i].base)
      && (m.prev != 0 ==> m.prev in majors && majors[m.prev].next == chain[i].base)
      && (m.next == 0 <==> i == |chain| - 1) && (m.prev == 0 <==> i == 0)
  {
    hide Chunk.Usage;
    if i + 1 < |chain| { assert majors[chain[i + 1].base] == MajorAt(chain, i + 1); }
    if i > 0 { assert majors[chain[i - 1].base] == MajorAt(chain, i - 1); }
  }

  // ----- linking a block in -----

  /** The minors after block b is linked in before block k of run c. */
  function LinkIn(minors: map<nat, Minor>, c: Chunk, k: nat, b: Block): map<nat, Minor>
    requires k <= |c.blocks|
    requires k > 0 ==> c.blocks[k - 1].addr in minors
    requires k < |c.blocks| ==> c.blocks[k].addr in minors
  {
    var before := if k > 0 then minors[c.blocks[k - 1].addr := minors[c.blocks[k - 1].addr].(next := b.addr)] else minors;
    var after := if k < |c.blocks| then before[c.blocks[k].addr := minors[c.blocks[k].addr].(prev := b.addr)] else before;
    after[b.addr := Minor(AddrAt(c.blocks, k - 1), AddrAt(c.blocks, k), c.base, LIBALLOC_MAGIC, b.size, b.req)]
  }

  lemma LinkInOk(minors: map<nat, Minor>, c: Chunk, k: nat, b: Block)
    requires MinorsOk(minors, c) && k <= |c.blocks| && c.Insert(k, b).Ok()
    ensures MinorsOk(LinkIn(minors, c, k, b), c.Insert(k, b))
  {
    var c' := c.Insert(k, b);
    var m' := LinkIn(minors, c, k, b);
    forall j | 0 <= j < |c'.blocks| ensures c'.blocks[j].addr in m' && m'[c'.blocks[j].addr] == MinorAt(c', j) {
      hide *;
      LinkInAt(minors, c, k, b, j);
    }
  }

  lemma InsertAddr(c: Chunk, k: nat, b: Block, x: int)
    requires k <= |c.blocks|
    ensures AddrAt(c.Insert(k, b).blocks, x) == if x == k then b.addr else AddrAt(c.blocks, if x < k then x else x - 1)
  {
  }

  lemma LinkInAt(minors: map<nat, Minor>, c: Chunk, k: nat, b: Block, j: nat)
    requires MinorsOk(minors, c) && k <= |c.blocks| && c.Insert(k, b).Ok() && j <= |c.blocks|
    ensures var c' := c.Insert(k, b);
      var m' := LinkIn(minors, c, k, b);
      c'.blocks[j].addr in m' && m'[c'.blocks[j].addr] == MinorAt(c', j)
  {
    hide Chunk.Ok, AddrAt;
    var c' := c.Insert(k, b);
    var a := c'.blocks[j].addr;
    InsertAddr(c, k, b, j - 1);
    InsertAddr(c, k, b, j + 1);
    Ascending(c', j, k);
    if k > 0 { Ascending(c', j, k - 1); }
    if k < |c.blocks| { Ascending(c', j, k + 1); }
    if j != k {
      var j0 := if j < k then j else j - 1;
      assert c'.blocks[j] == c.blocks[j0];
      assert minors[a] == MinorAt(c, j0);
    }
  }

  lemma Ascending(c: Chunk, j: nat, k: nat)
    requires c.Ok() && j < |c.blocks| && k < |c.blocks|
    ensures c.blocks[j].addr == c.blocks[k].addr <==> j == k
  {
  }

  // ----- unlinking a block -----

  /** The minors after block k of run c is unlinked and marked dead. */
  function Unlink(minors: map<nat, Minor>, c: Chunk, k: nat): map<nat, Minor>
    requires k < |c.blocks| && c.blocks[k].addr in minors
    requires k > 0 ==> c.blocks[k - 1].addr in minors
    requires k + 1 < |c.blocks| ==> c.blocks[k + 1].addr in minors
  {
    var dead := minors[c.blocks[k].addr := minors[c.blocks[k].addr].(magic := LIBALLOC_DEAD)];
    var after := if k + 1 < |c.blocks| then dead[c.blocks[k + 1].addr := minors[c.blocks[k + 1].addr].(prev := AddrAt(c.blocks, k - 1))] else dead;
    if k > 0 then after[c.blocks[k - 1].addr := minors[c.blocks[k - 1].addr].(next := AddrAt(c.blocks, k + 1))] else after
  }

  lemma UnlinkOk(minors: map<nat, Minor>, c: Chunk, k: nat)
    requires MinorsOk(minors, c) && k < |c.blocks| && c.Ok()
    ensures MinorsOk(Unlink(minors, c, k), c.Remove(k))
    ensures Unlink(minors, c, k)[c.blocks[k].addr].magic == LIBALLOC_DEAD
  {
    var c' := c.Remove(k);
    var m' := Unlink(minors, c, k);
    if k > 0 { Ascending(c, k, k - 1); }
    if k + 1 < |c.blocks| { Ascending(c, k, k + 1); }
    forall j | 0 <= j < |c'.blocks| ensures c'.blocks[j].addr in m' && m'[c'.blocks[j].addr] == MinorAt(c', j) {
      hide *;
      UnlinkAt(minors, c, k, j);
    }
  }

  lemma RemoveAddr(c: Chunk, k: nat, x: int)
    requires k < |c.blocks|
    ensures AddrAt(c.Remove(k).blocks, x) == AddrAt(c.blocks, if x < k then x else x + 1)
  {
  }

  lemma UnlinkAt(minors: map<nat, Minor>, c: Chunk, k: nat, j: nat)
    requires MinorsOk(minors, c) && k < |c.blocks| && c.Ok() && j < |c.blocks| - 1
    ensures var c' := c.Remove(k);
      var m' := Unlink(minors, c, k);
      c'.blocks[j].addr in m' && m'[c'.blocks[j].addr] == MinorAt(c', j)
  {
    hide Chunk.Ok, AddrAt;
    var j0 := if j < k then j else j + 1;
    assert c.Remove(k).blocks[j] == c.blocks[j0];
    RemoveAddr(c, k, j - 1);
    RemoveAddr(c, k, j + 1);
    Ascending(c, j0, k);
    if k > 0 { Ascending(c, j0, k - 1); }
    if k + 1 < |c.blocks| { Ascending(c, j0, k + 1); }
    assert minors[c.blocks[j0].addr] == MinorAt(c, j0);
  }

  // ----- the other runs -----

  /** m' differs from m only at addresses inside run c. */
  ghost predicate OnlyInside(m: map<nat, Minor>, m': map<nat, Minor>, c: Chunk) {
    forall a :: !(c.base <= a < c.Limit()) ==> (a in m <==> a in m') && (a in m ==> m'[a] == m[a])
  }

  lemma OtherRunsSame(m: map<nat, Minor>, m': map<nat, Minor>, c: Chunk, d: Chunk)
    requires MinorsOk(m, d) && OnlyInside(m, m', c) && Apart(c, d) && d.Ok()
    ensures MinorsOk(m', d)
  {
    forall k | 0 <= k < |d.blocks| ensures d.blocks[k].addr in m' && m'[d.blocks[k].addr] == MinorAt(d, k) {
      assert d.Start() <= d.blocks[k].addr && d.blocks[k].End() <= d.Limit();
    }
  }

  /** Replacing one run by another version of itself. */
  lemma RepUpdate(majors: map<nat, Major>, minors: map<nat, Minor>, chain: seq<Chunk>, i: nat, c': Chunk,
                  majors': map<nat, Major>, minors': map<nat, Minor>)
    requires Rep(majors, minors, chain) && i < |chain|
    requires c'.Ok() && c'.base == chain[i].base && c'.pages == chain[i].pages
    requires MinorsOk(minors', c') && OnlyInside(minors, minors', chain[i])
    requires majors' == majors[c'.base := majors[c'.base].(usage := c'.Usage(), first := AddrAt(c'.blocks, 0))]
    requires forall a :: a in minors' && minors'[a].magic == LIBALLOC_MAGIC && chain[i].base <= a < chain[i].Limit() ==>
      exists k: nat :: k < |c'.blocks| && c'.blocks[k].addr == a
    ensures Rep(majors', minors', chain[i := c'])
  {
    hide MajorsOk, AllMinorsOk, MinorsOk, MagicOk, ChainOk, OnlyInside, Chunk.Ok;
    ChainUpdate(chain, i, c');
    MinorsUpdate(minors, chain, i, c', minors');
    MajorsUpdate(majors, chain, i, c');
    MagicUpdate(minors, chain, i, c', minors');
  }

  lemma ChainUpdate(chain: seq<Chunk>, i: nat, c': Chunk)
    requires ChainOk(chain) && i < |chain| && c'.Ok() && c'.base == chain[i].base && c'.pages == chain[i].pages
    ensures ChainOk(chain[i := c'])
  {
    hide Chunk.Ok;
  }

  lemma MinorsUpdate(minors: map<nat, Minor>, chain: seq<Chunk>, i: nat, c': Chunk, minors': map<nat, Minor>)
    requires ChainOk(chain) && AllMinorsOk(minors, chain) && i < |chain|
    requires MinorsOk(minors', c') && OnlyInside(minors, minors', chain[i])
    ensures AllMinorsOk(minors', chain[i := c'])
  {
    hide MinorsOk, OnlyInside, Chunk.Ok;
    var chain' := chain[i := c'];
    forall j | 0 <= j < |chain'| ensures MinorsOk(minors', chain'[j]) {
      if j != i { OtherRunsSame(minors, minors', chain[i], chain[j]); }
    }
  }

  lemma MajorsUpdate(majors: map<nat, Major>, chain: seq<Chunk>, i: nat, c': Chunk)
    requires MajorsOk(majors, chain) && ChainOk(chain) && i < |chain| && c'.base == chain[i].base && c'.pages == chain[i].pages
    ensures MajorsOk(majors[c'.base := majors[c'.base].(usage := c'.Usage(), first := AddrAt(c'.blocks, 0))], chain[i := c'])
  {
    hide ChainOk, Chunk.Usage;
    var chain' := chain[i := c'];
    var majors' := majors[c'.base := majors[c'.base].(usage := c'.Usage(), first := AddrAt(c'.blocks, 0))];
    forall j | 0 <= j < |chain'| ensures chain'[j].base in majors' && majors'[chain'[j].base] == MajorAt(chain', j) {
      BasesDiffer(chain, i, j);
      assert majors[chain[j].base] == MajorAt(chain, j);
    }
  }

  lemma MagicUpdate(minors: map<nat, Minor>, chain: seq<Chunk>, i: nat, c': Chunk, minors': map<nat, Minor>)
    requires ChainOk(chain) && MagicOk(minors, chain) && i < |chain| && OnlyInside(minors, minors', chain[i])
    requires forall a :: a in minors' && minors'[a].magic == LIBALLOC_MAGIC && chain[i].base <= a < chain[i].Limit() ==>
      exists k: nat :: k < |c'.blocks| && c'.blocks[k].addr == a
    ensures MagicOk(minors', chain[i := c'])
  {
    hide ChainOk;
    var chain' := chain[i := c'];
    forall a | a in minors' && minors'[a].magic == LIBALLOC_MAGIC ensures IsHeader(chain', a) {
      if chain[i].base <= a < chain[i].Limit() {
        var k: nat :| k < |c'.blocks| && c'.blocks[k].addr == a;
        assert Listed(chain', i, k);
      } else {
        HeaderElsewhere(chain, i, c', a);
      }
    }
  }

  lemma BasesDiffer(chain: seq<Chunk>, i: nat, j: nat)
    requires ChainOk(chain) && i < |chain| && j < |chain|
    ensures chain[i].base == chain[j].base <==> i == j
  {
    if i != j { assert Apart(chain[i], chain[j]); }
  }

  lemma HeaderElsewhere(chain: seq<Chunk>, i: nat, c': Chunk, a: nat)
    requires ChainOk(chain) && i < |chain| && IsHeader(chain, a) && !(chain[i].base <= a < chain[i].Limit())
    ensures IsHeader(chain[i := c'], a)
  {
    var j: nat, k: nat :| Listed(chain, j, k) && chain[j].blocks[k].addr == a;
    assert chain[j].Start() <= chain[j].blocks[k].addr && chain[j].blocks[k].End() <= chain[j].Limit();
    assert Listed(chain[i := c'], j, k);
  }

  // ----- a whole step -----

  /** Linking block b into gap k of run i. */
  lemma RepInsert(majors: map<nat, Major>, minors: map<nat, Minor>, chain: seq<Chunk>, i: nat, k: nat, b: Block)
    requires Rep(majors, minors, chain) && i < |chain| && k <= |chain[i].blocks| && chain[i].Insert(k, b).Ok()
    ensures k > 0 ==> chain[i].blocks[k - 1].addr in minors
    ensures k < |chain[i].blocks| ==> chain[i].blocks[k].addr in minors
    ensures chain[i].base in majors
    ensures var c' := chain[i].Insert(k, b);
      Rep(majors[c'.base := majors[c'.base].(usage := c'.Usage(), first := AddrAt(c'.blocks, 0))],
          LinkIn(minors, chain[i], k, b), chain[i := c'])
  {
    hide ChainOk, MagicOk, Chunk.Usage;
    var c, c' := chain[i], chain[i].Insert(k, b);
    assert MinorsOk(minors, c);
    var minors' := LinkIn(minors, c, k, b);
    LinkInOk(minors, c, k, b);
    LinkInInside(minors, c, k, b);
    forall a | a in minors' && minors'[a].magic == LIBALLOC_MAGIC && c.base <= a < c.Limit()
      ensures exists l: nat :: l < |c'.blocks| && c'.blocks[l].addr == a
    {
      hide LinkIn;
      LinkInMagic(minors, chain, i, k, b, a);
    }
    RepUpdate(majors, minors, chain, i, c', majors[c'.base := majors[c'.base].(usage := c'.Usage(), first := AddrAt(c'.blocks, 0))], minors');
  }

  lemma LinkInInside(minors: map<nat, Minor>, c: Chunk, k: nat, b: Block)
    requires MinorsOk(minors, c) && k <= |c.blocks| && c.Insert(k, b).Ok()
    ensures OnlyInside(minors, LinkIn(minors, c, k, b), c)
  {
    var c' := c.Insert(k, b);
    InBounds(c', k);
    if k > 0 { InBounds(c', k - 1); }
    if k < |c.blocks| { InBounds(c', k + 1); }
  }

  lemma InBounds(c: Chunk, k: nat)
    requires c.Ok() && k < |c.blocks|
    ensures c.base < c.blocks[k].addr < c.Limit()
  {
  }

  /** A live header inside run i is that of one of its blocks. */
  lemma HeaderHere(chain: seq<Chunk>, i: nat, a: nat) returns (k: nat)
    requires ChainOk(chain) && i < |chain| && IsHeader(chain, a) && chain[i].base <= a < chain[i].Limit()
    ensures k < |chain[i].blocks| && chain[i].blocks[k].addr == a
  {
    var j: nat, l: nat :| Listed(chain, j, l) && chain[j].blocks[l].addr == a;
    InBounds(chain[j], l);
    k := l;
  }

  lemma LinkInMagic(minors: map<nat, Minor>, chain: seq<Chunk>, i: nat, k: nat, b: Block, a: nat)
    requires ChainOk(chain) && MagicOk(minors, chain) && i < |chain| && k <= |chain[i].blocks| && MinorsOk(minors, chain[i])
    requires a in LinkIn(minors, chain[i], k, b) && LinkIn(minors, chain[i], k, b)[a].magic == LIBALLOC_MAGIC
    requires chain[i].base <= a < chain[i].Limit()
    ensures exists l: nat :: l < |chain[i].Insert(k, b).blocks| && chain[i].Insert(k, b).blocks[l].addr == a
  {
    hide ChainOk, MinorAt;
    var bs, bs' := chain[i].blocks, chain[i].Insert(k, b).blocks;
    if a == b.addr {
      assert bs'[k].addr == a;
    } else {
      assert a in minors && minors[a].magic == LIBALLOC_MAGIC;
      var l := HeaderHere(chain, i, a);
      assert bs'[if l < k then l else l + 1].addr == a;
    }
  }

  /** Unlinking block k of run i, which keeps others. */
  lemma RepRemove(majors: map<nat, Major>, minors: map<nat, Minor>, chain: seq<Chunk>, i: nat, k: nat)
    requires Rep(majors, minors, chain) && Listed(chain, i, k)
    ensures MinorsOk(minors, chain[i]) && chain[i].base in majors
    ensures var c' := chain[i].Remove(k);
      Rep(majors[c'.base := majors[c'.base].(usage := c'.Usage(), first := AddrAt(c'.blocks, 0))],
          Unlink(minors, chain[i], k), chain[i := c'])
  {
    hide MagicOk, ChainOk, Chunk.Ok, Chunk.Usage, Unlink, OnlyInside;
    var c, c' := chain[i], chain[i].Remove(k);
    RunOk(chain, i);
    assert MinorsOk(minors, c);
    RemoveOk(c, k);
    var minors' := Unlink(minors, c, k);
    UnlinkOk(minors, c, k);
    UnlinkInside(minors, c, k);
    forall a | a in minors' && minors'[a].magic == LIBALLOC_MAGIC && c.base <= a < c.Limit()
      ensures exists l: nat :: l < |c'.blocks| && c'.blocks[l].addr == a
    {
      hide Unlink;
      UnlinkMagic(minors, chain, i, k, a);
    }
    RepUpdate(majors, minors, chain, i, c', majors[c'.base := majors[c'.base].(usage := c'.Usage(), first := AddrAt(c'.blocks, 0))], minors');
  }

  lemma RunOk(chain: seq<Chunk>, i: nat)
    requires ChainOk(chain) && i < |chain|
    ensures chain[i].Ok()
  {
    hide Chunk.Ok;
  }

  lemma UnlinkInside(minors: map<nat, Minor>, c: Chunk, k: nat)
    requires MinorsOk(minors, c) && k < |c.blocks| && c.Ok()
    ensures OnlyInside(minors, Unlink(minors, c, k), c)
  {
    hide Chunk.Ok, MinorAt, Unlink;
    InBounds(c, k);
    if k > 0 { InBounds(c, k - 1); }
    if k + 1 < |c.blocks| { InBounds(c, k + 1); }
    UnlinkOnly(minors, c, k);
  }

  /** Unlink changes no header but the block's own and its neighbours'. */
  lemma UnlinkOnly(minors: map<nat, Minor>, c: Chunk, k: nat)
    requires MinorsOk(minors, c) && k < |c.blocks|
    ensures forall a :: a in Unlink(minors, c, k) <==> a in minors
    ensures forall a ::
      (a in minors && a != c.blocks[k].addr && (k > 0 ==> a != c.blocks[k - 1].addr) &&
       (k + 1 < |c.blocks| ==> a != c.blocks[k + 1].addr)) ==> Unlink(minors, c, k)[a] == minors[a]
    ensures forall a :: a in minors && a != c.blocks[k].addr ==> Unlink(minors, c, k)[a].magic == minors[a].magic
  {
    hide MinorAt;
  }

  lemma UnlinkMagic(minors: map<nat, Minor>, chain: seq<Chunk>, i: nat, k: nat, a: nat)
    requires ChainOk(chain) && MagicOk(minors, chain) && Listed(chain, i, k) && MinorsOk(minors, chain[i])
    requires a in Unlink(minors, chain[i], k) && Unlink(minors, chain[i], k)[a].magic == LIBALLOC_MAGIC
    requires chain[i].base <= a < chain[i].Limit()
    ensures exists l: nat :: l < |chain[i].Remove(k).blocks| && chain[i].Remove(k).blocks[l].addr == a
  {
    hide Unlink, MinorsOk, ChainOk, Chunk.Ok;
    var c, bs' := chain[i], chain[i].Remove(k).blocks;
    RunOk(chain, i);
    UnlinkOk(minors, c, k);
    UnlinkOnly(minors, c, k);
    var l := HeaderHere(chain, i, a);
    assert bs'[if l < k then l else l - 1].addr == a;
  }

  /** Hanging a new, empty run at the end of the list. */
  function LinkLast(majors: map<nat, Major>, chain: seq<Chunk>, c: Chunk): map<nat, Major>
    requires chain != [] ==> chain[|chain| - 1].base in majors
  {
    var linked := if chain == [] then majors
                  else majors[chain[|chain| - 1].base := majors[chain[|chain| - 1].base].(next := c.base)];
    linked[c.base := Major(BaseAt(chain, |chain| - 1), 0, c.pages, c.Size(), MAJOR, 0)]
  }

  lemma RepAppend(majors: map<nat, Major>, minors: map<nat, Minor>, chain: seq<Chunk>, c: Chunk)
    requires Rep(majors, minors, chain) && c.Ok() && c.blocks == []
    requires forall i :: 0 <= i < |chain| ==> Apart(chain[i], c)
    ensures chain != [] ==> chain[|chain| - 1].base in majors
    ensures Rep(LinkLast(majors, chain, c), minors, chain + [c])
  {
    hide Chunk.Ok, Chunk.Usage, MinorsOk;
    var chain', n := chain + [c], |chain|;
    var majors' := LinkLast(majors, chain, c);
    assert ChainOk(chain') by {
      hide MajorsOk, MagicOk, AllMinorsOk;
    }
    forall j | 0 <= j < |chain'| ensures chain'[j].base in majors' && majors'[chain'[j].base] == MajorAt(chain', j) {
      hide MagicOk, AllMinorsOk, ChainOk;
      AppendMajorAt(majors, chain, c, j);
    }
    forall a | a in minors && minors[a].magic == LIBALLOC_MAGIC ensures IsHeader(chain', a) {
      hide ChainOk, MajorsOk, AllMinorsOk;
      var i: nat, k: nat :| Listed(chain, i, k) && chain[i].blocks[k].addr == a;
      assert Listed(chain', i, k) && chain'[i] == chain[i];
    }
    assert MinorsOk(minors, c) by { EmptyRunOk(minors, c); }
  }

  lemma EmptyRunOk(minors: map<nat, Minor>, c: Chunk)
    requires c.blocks == []
    ensures MinorsOk(minors, c) && c.Usage() == MAJOR
  {
  }

  lemma AppendMajorAt(majors: map<nat, Major>, chain: seq<Chunk>, c: Chunk, j: nat)
    requires ChainOk(chain + [c]) && MajorsOk(majors, chain) && c.blocks == [] && j <= |chain|
    requires chain != [] ==> chain[|chain| - 1].base in majors
    ensures var chain' := chain + [c];
      var majors' := LinkLast(majors, chain, c);
      chain'[j].base in majors' && majors'[chain'[j].base] == MajorAt(chain', j)
  {
    hide ChainOk, Chunk.Usage;
    var chain', n := chain + [c], |chain|;
    EmptyRunOk(map[], c);
    assert chain'[n] == c;
    BasesDiffer(chain', j, n);
    if n > 0 {
      assert chain'[n - 1] == chain[n - 1];
      BasesDiffer(chain', j, n - 1);
    }
    if j < n {
      assert chain'[j] == chain[j];
      assert majors[chain[j].base] == MajorAt(chain, j);
    }
  }

  /** Taking an empty run out of the list. */
  function UnlinkRun(majors: map<nat, Major>, chain: seq<Chunk>, i: nat): map<nat, Major>
    requires i < |chain|
    requires i > 0 ==> chain[i - 1].base in majors
    requires i + 1 < |chain| ==> chain[i + 1].base in majors
  {
    var before := if i > 0 then majors[chain[i - 1].base := majors[chain[i - 1].base].(next := BaseAt(chain, i + 1))] else majors;
    if i + 1 < |chain| then before[chain[i + 1].base := majors[chain[i + 1].base].(prev := BaseAt(chain, i - 1))] else before
  }

  lemma RepDrop(majors: map<nat, Major>, minors: map<nat, Minor>, chain: seq<Chunk>, i: nat)
    requires Rep(majors, minors, chain) && i < |chain| && chain[i].blocks == []
    ensures i > 0 ==> chain[i - 1].base in majors
    ensures i + 1 < |chain| ==> chain[i + 1].base in majors
    ensures Rep(UnlinkRun(majors, chain, i), minors, chain[..i] + chain[i + 1..])
  {
    hide *;
    RepIs(majors, minors, chain);
    RunInList(majors, chain, i);
    DropChain(chain, i);
    DropMajors(majors, chain, i);
    DropMinors(minors, chain, i);
    DropMagic(minors, chain, i);
    RepIs(UnlinkRun(majors, chain, i), minors, chain[..i] + chain[i + 1..]);
  }

  lemma RepIs(majors: map<nat, Major>, minors: map<nat, Minor>, chain: seq<Chunk>)
    ensures Rep(majors, minors, chain) <==>
      ChainOk(chain) && MajorsOk(majors, chain) && MagicOk(minors, chain) && AllMinorsOk(minors, chain)
  {
  }

  lemma RunInList(majors: map<nat, Major>, chain: seq<Chunk>, i: nat)
    requires MajorsOk(majors, chain) && i < |chain|
    ensures i > 0 ==> chain[i - 1].base in majors
    ensures i + 1 < |chain| ==> chain[i + 1].base in majors
  {
  }

  lemma DropChain(chain: seq<Chunk>, i: nat)
    requires ChainOk(chain) && i < |chain|
    ensures ChainOk(chain[..i] + chain[i + 1..])
  {
    hide Chunk.Ok, Apart;
    var chain' := chain[..i] + chain[i + 1..];
    forall j | 0 <= j < |chain'| ensures chain'[j] == chain[Shifted(i, j)] { }
  }

  lemma DropMajors(majors: map<nat, Major>, chain: seq<Chunk>, i: nat)
    requires ChainOk(chain) && MajorsOk(majors, chain) && i < |chain|
    requires i > 0 ==> chain[i - 1].base in majors
    requires i + 1 < |chain| ==> chain[i + 1].base in majors
    ensures MajorsOk(UnlinkRun(majors, chain, i), chain[..i] + chain[i + 1..])
  {
    hide ChainOk, UnlinkRun, MajorAt;
    var chain' := chain[..i] + chain[i + 1..];
    var majors' := UnlinkRun(majors, chain, i);
    forall j | 0 <= j < |chain'| ensures chain'[j].base in majors' && majors'[chain'[j].base] == MajorAt(chain', j) {
      DropMajorAt(majors, chain, i, j);
    }
  }

  lemma DropMinors(minors: map<nat, Minor>, chain: seq<Chunk>, i: nat)
    requires AllMinorsOk(minors, chain) && i < |chain|
    ensures AllMinorsOk(minors, chain[..i] + chain[i + 1..])
  {
    hide MinorsOk;
  }

  lemma DropMagic(minors: map<nat, Minor>, chain: seq<Chunk>, i: nat)
    requires MagicOk(minors, chain) && i < |chain| && chain[i].blocks == []
    ensures MagicOk(minors, chain[..i] + chain[i + 1..])
  {
    var chain' := chain[..i] + chain[i + 1..];
    forall a | a in minors && minors[a].magic == LIBALLOC_MAGIC ensures IsHeader(chain', a) {
      var j: nat, k: nat :| Listed(chain, j, k) && chain[j].blocks[k].addr == a;
      var j' := if j < i then j else j - 1;
      assert chain'[j'] == chain[j];
      assert Listed(chain', j', k);
    }
  }

  /** Where position j of the shortened list was before. */
  function Shifted(i: nat, j: nat): nat { if j < i then j else j + 1 }

  lemma DropMajorAt(majors: map<nat, Major>, chain: seq<Chunk>, i: nat, j: nat)
    requires ChainOk(chain) && MajorsOk(majors, chain) && i < |chain| && j < |chain| - 1
    requires i > 0 ==> chain[i - 1].base in majors
    requires i + 1 < |chain| ==> chain[i + 1].base in majors
    ensures var chain' := chain[..i] + chain[i + 1..];
      var majors' := UnlinkRun(majors, chain, i);
      chain'[j].base in majors' && majors'[chain'[j].base] == MajorAt(chain', j)
  {
    hide ChainOk, Chunk.Usage, BaseAt;
    var chain', j0 := chain[..i] + chain[i + 1..], Shifted(i, j);
    assert chain'[j] == chain[j0];
    DropBase(chain, i, j - 1);
    DropBase(chain, i, j + 1);
    if i > 0 { BasesDiffer(chain, j0, i - 1); }
    if i + 1 < |chain| { BasesDiffer(chain, j0, i + 1); }
    assert majors[chain[j0].base] == MajorAt(chain, j0);
  }

  lemma DropBase(chain: seq<Chunk>, i: nat, x: int)
    requires i < |chain|
    ensures BaseAt(chain[..i] + chain[i + 1..], x) == BaseAt(chain, if x < i then x else x + 1)
  {
  }
}
