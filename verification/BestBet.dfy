/** l_bestBet of kernel/mm/kheap.c: which run it names after kmalloc and after kfree, and when that is
    the run with the most free bytes. */
module BestBet {
  import opened Words
  import opened HeapLayout
  import opened HeapSteps
  import opened HeapLinks

  /** The bytes of a run that its header counts as free. */
  function Free(c: Chunk): int { c.Size() - c.Usage() }

  /** The free bytes of the run named; none if there is no such run. */
  ghost function BetFree(chain: seq<Chunk>, bet: nat): int {
    if IsRun(chain, bet) then
      var j: nat :| j < |chain| && chain[j].base == bet;
      Free(chain[j])
    else 0
  }

  /** The best bet is the run with the most free bytes. */
  ghost predicate Largest(chain: seq<Chunk>, bet: nat) {
    IsRun(chain, bet) && forall j: nat :: j < |chain| ==> Free(chain[j]) <= BetFree(chain, bet)
  }

  /** The runs that a search has looked at: from s up to e, or once round, from s to the end and from
      the root up to e. */
  predicate Seen(s: nat, e: nat, round: bool, j: nat) { if round then s <= j || j < e else s <= j < e }

  /** bet is still bet0, or a run seen that has more free bytes; no run seen has more than bet. */
  ghost predicate Ranks(chain: seq<Chunk>, bet0: nat, bet: nat, s: nat, e: nat, round: bool) {
    && (forall j: nat :: j < |chain| && Seen(s, e, round, j) ==> Free(chain[j]) <= BetFree(chain, bet))
    && (bet == bet0 || (BetFree(chain, bet0) < BetFree(chain, bet) && exists j: nat :: j < |chain| && Seen(s, e, round, j) && chain[j].base == bet))
  }

  lemma BetFreeAt(chain: seq<Chunk>, j: nat)
    requires ChainOk(chain) && j < |chain|
    ensures BetFree(chain, chain[j].base) == Free(chain[j]) && IsRun(chain, chain[j].base) && chain[j].base != 0
  {
    hide ChainOk, Free;
    RunOk(chain, j);
    assert IsRun(chain, chain[j].base);
    forall i: nat | i < |chain| && chain[i].base == chain[j].base ensures i == j { BasesDiffer(chain, i, j); }
  }

  lemma LargestAt(chain: seq<Chunk>, j: nat)
    requires ChainOk(chain) && j < |chain|
    ensures Largest(chain, chain[j].base) <==> forall m: nat :: m < |chain| ==> Free(chain[m]) <= Free(chain[j])
  {
    hide ChainOk, Free, BetFree;
    BetFreeAt(chain, j);
  }

  lemma NoBetFree(chain: seq<Chunk>)
    requires ChainOk(chain)
    ensures !IsRun(chain, 0) && BetFree(chain, 0) == 0
  {
    hide ChainOk;
    forall j: nat | j < |chain| ensures chain[j].base != 0 { RunOk(chain, j); }
  }

  // ----- kmalloc's search -----

  lemma RanksNone(chain: seq<Chunk>, bet: nat, s: nat)
    ensures Ranks(chain, bet, bet, s, s, false)
  {
    hide BetFree, Free;
  }

  /** One more run is looked at. */
  lemma RanksStep(chain: seq<Chunk>, bet0: nat, bet: nat, s: nat, e: nat, round: bool)
    requires ChainOk(chain) && e < |chain| && Ranks(chain, bet0, bet, s, e, round) && (round || s <= e)
    ensures var bet' := if BetFree(chain, bet) < Free(chain[e]) then chain[e].base else bet;
      && Ranks(chain, bet0, bet', s, e + 1, round)
      && BetFree(chain, bet') == if BetFree(chain, bet) < Free(chain[e]) then Free(chain[e]) else BetFree(chain, bet)
  {
    hide BetFree, Free, ChainOk;
    BetFreeAt(chain, e);
    assert Seen(s, e + 1, round, e);
  }

  /** Back to the root. */
  lemma RanksRound(chain: seq<Chunk>, bet0: nat, bet: nat, s: nat)
    requires Ranks(chain, bet0, bet, s, |chain|, false)
    ensures Ranks(chain, bet0, bet, s, 0, true)
  {
    hide BetFree, Free;
    if bet != bet0 {
      var j: nat :| j < |chain| && Seen(s, |chain|, false, j) && chain[j].base == bet;
      assert Seen(s, 0, true, j);
    }
  }

  /** All runs have been looked at. */
  lemma RanksAll(chain: seq<Chunk>, bet0: nat, bet: nat, s: nat, round: bool)
    requires Ranks(chain, bet0, bet, s, |chain|, round) && (round || s == 0)
    ensures Ranks(chain, bet0, bet, 0, |chain|, false)
  {
    hide BetFree, Free;
    assert forall j: nat :: j < |chain| ==> Seen(s, |chain|, round, j) && Seen(0, |chain|, false, j);
  }

  /** A run not looked at joins the list. */
  lemma RanksGrow(chain: seq<Chunk>, c: Chunk, bet0: nat, bet: nat, s: nat, round: bool)
    requires ChainOk(chain + [c]) && Ranks(chain, bet0, bet, s, |chain|, round) && (round || s == 0)
    requires (bet == 0 || IsRun(chain, bet)) && (bet0 == 0 || IsRun(chain, bet0))
    ensures Ranks(chain + [c], bet0, bet, 0, |chain|, false) && BetFree(chain + [c], bet) == BetFree(chain, bet)
  {
    hide BetFree, Free, ChainOk;
    RanksAll(chain, bet0, bet, s, round);
    SameBetFree(chain, c, bet);
    SameBetFree(chain, c, bet0);
    var chain' := chain + [c];
    if bet != bet0 {
      var j: nat :| j < |chain| && Seen(0, |chain|, false, j) && chain[j].base == bet;
      assert chain'[j].base == bet;
    }
  }

  lemma SameBetFree(chain: seq<Chunk>, c: Chunk, bet: nat)
    requires ChainOk(chain + [c]) && (bet == 0 || IsRun(chain, bet))
    ensures BetFree(chain + [c], bet) == BetFree(chain, bet)
  {
    hide BetFree, Free, ChainOk;
    var chain' := chain + [c];
    ChainPrefix(chain, c);
    if bet == 0 {
      NoBetFree(chain);
      NoBetFree(chain');
    } else {
      var j: nat :| j < |chain| && chain[j].base == bet;
      BetFreeAt(chain, j);
      assert chain'[j] == chain[j];
      BetFreeAt(chain', j);
    }
  }

  lemma ChainPrefix(chain: seq<Chunk>, c: Chunk)
    requires ChainOk(chain + [c])
    ensures ChainOk(chain)
  {
    hide Chunk.Ok, Apart;
    var chain' := chain + [c];
    assert forall i :: 0 <= i < |chain| ==> chain'[i] == chain[i];
  }

  /** The new run is looked at as well, unless the last old one was dismissed at a glance. */
  predicate LooksAtNew(chain: seq<Chunk>, size: nat) {
    chain == [] || Free(chain[|chain| - 1]) >= size + MINOR
  }

  /** The best bet once a request has been served from run i, or from a new run at maj. */
  ghost predicate BetAfter(chain: seq<Chunk>, maj: nat, bet0: nat, bet: nat, size: nat, s: nat, i: nat) {
    if !AllFull(chain, size) then Ranks(chain, bet0, bet, s, i + 1, i < s)
    else if LooksAtNew(chain, size) then Ranks(chain + [Chunk(maj, PagesFor(size), [])], bet0, bet, 0, |chain| + 1, false)
    else Ranks(chain, bet0, bet, 0, |chain|, false)
  }

  /** The same when a gap is about to be taken in run pos. */
  ghost predicate BetSoFar(chain0: seq<Chunk>, chain: seq<Chunk>, bet0: nat, bet: nat, size: nat, s: nat, pos: nat, round: bool, made: bool) {
    if !made then Ranks(chain, bet0, bet, s, pos + 1, round)
    else if LooksAtNew(chain0, size) then Ranks(chain, bet0, bet, 0, pos + 1, false)
    else Ranks(chain0, bet0, bet, 0, |chain0|, false)
  }

  /** At the head of the search's loop, before run pos is looked at. */
  ghost predicate BetAtHead(chain0: seq<Chunk>, chain: seq<Chunk>, bet0: nat, bet: nat, best: int, size: nat, s: nat, pos: nat, round: bool, made: bool) {
    && best == BetFree(chain, bet) && (bet0 == 0 || IsRun(chain0, bet0))
    && if made then LooksAtNew(chain0, size) && Ranks(chain, bet0, bet, 0, pos, false) else Ranks(chain, bet0, bet, s, pos, round)
  }

  /** Run pos has been looked at. */
  ghost predicate BetLooked(chain0: seq<Chunk>, chain: seq<Chunk>, bet0: nat, bet: nat, best: int, size: nat, s: nat, pos: nat, round: bool, made: bool) {
    && best == BetFree(chain, bet) && (bet0 == 0 || IsRun(chain0, bet0))
    && BetSoFar(chain0, chain, bet0, bet, size, s, pos, round, made) && (made ==> LooksAtNew(chain0, size))
  }

  lemma BetStart(chain0: seq<Chunk>, chain: seq<Chunk>, bet: nat, best: int, size: nat, s: nat, made: bool)
    requires best == BetFree(chain, bet) && (bet == 0 || IsRun(chain0, bet)) && (made ==> chain0 == [] && s == 0)
    ensures BetAtHead(chain0, chain, bet, bet, best, size, s, s, false, made)
  {
    hide BetFree, Ranks;
    RanksNone(chain, bet, s);
  }

  lemma BetLooks(chain0: seq<Chunk>, chain: seq<Chunk>, bet0: nat, bet: nat, best: int, size: nat, s: nat, pos: nat, startedBet: bool, round: bool, made: bool)
    requires ChainOk(chain) && BetAtHead(chain0, chain, bet0, bet, best, size, s, pos, round, made)
    requires Progress(chain0, chain, s, pos, startedBet, round, made, size, bet0)
    ensures var more := best < Free(chain[pos]);
      BetLooked(chain0, chain, bet0, if more then chain[pos].base else bet, if more then Free(chain[pos]) else best, size, s, pos, round, made)
  {
    hide ChainOk, BetFree, Free, Ranks, StartsAt, AllFull, LooksAtNew, Chunk.Full, Chunk.FitsAt;
    if made { RanksStep(chain, bet0, bet, 0, pos, false); } else { RanksStep(chain, bet0, bet, s, pos, round); }
  }

  /** On to the next run, or back to the root. */
  lemma BetMoves(chain0: seq<Chunk>, chain: seq<Chunk>, bet0: nat, bet: nat, best: int, size: nat, s: nat, pos: nat, round: bool)
    requires BetLooked(chain0, chain, bet0, bet, best, size, s, pos, round, false)
    ensures BetAtHead(chain0, chain, bet0, bet, best, size, s, pos + 1, round, false)
    ensures pos + 1 == |chain| && !round ==> BetAtHead(chain0, chain, bet0, bet, best, size, s, 0, true, false)
  {
    hide BetFree, Ranks;
    if pos + 1 == |chain| && !round { RanksRound(chain, bet0, bet, s); }
  }

  /** A run has been added after the last one. */
  lemma BetGrows(chain0: seq<Chunk>, c: Chunk, bet0: nat, bet: nat, best: int, size: nat, s: nat, pos: nat, round: bool)
    requires ChainOk(chain0 + [c]) && BetLooked(chain0, chain0, bet0, bet, best, size, s, pos, round, false)
    requires pos + 1 == |chain0| && (round || s == 0) && (bet == 0 || IsRun(chain0, bet))
    ensures if LooksAtNew(chain0, size) then BetAtHead(chain0, chain0 + [c], bet0, bet, best, size, s, pos + 1, round, true)
            else BetSoFar(chain0, chain0 + [c], bet0, bet, size, s, pos + 1, round, true)
  {
    hide ChainOk, BetFree, Ranks, LooksAtNew;
    RanksAll(chain0, bet0, bet, s, round);
    RanksGrow(chain0, c, bet0, bet, s, round);
  }

  lemma BetServes(chain0: seq<Chunk>, chain: seq<Chunk>, bet0: nat, bet: nat, size: nat, s: nat, pos: nat, startedBet: bool, round: bool, made: bool)
    requires Progress(chain0, chain, s, pos, startedBet, round, made, size, bet0) && BetSoFar(chain0, chain, bet0, bet, size, s, pos, round, made)
    requires !chain[pos].Full(size) && (!made ==> !AllFull(chain0, size))
    ensures BetAfter(chain0, chain[pos].base, bet0, bet, size, s, pos)
  {
    hide StartsAt, AllFull, Ranks, LooksAtNew, Chunk.Full, Chunk.FitsAt, PagesFor;
  }

  /** Where the block goes decides whether the best bet still is the run with the most free bytes. */
  ghost predicate StaysLargest(chain: seq<Chunk>, bet: nat, size: nat, i: nat) {
    if !AllFull(chain, size) then
      i < |chain| && chain[i].base == bet ==> forall j: nat :: j < |chain| && j != i ==> Free(chain[j]) <= Free(chain[i]) - size - MINOR
    else
      var f := 4096 * PagesFor(size) - MAJOR;
      if LooksAtNew(chain, size) && f > BetFree(chain, bet) then BetFree(chain, bet) <= f - size - MINOR
      else f - size - MINOR <= BetFree(chain, bet)
  }

  /** kmalloc does not keep the best bet the largest; it does exactly then. */
  lemma BetServed(chain: seq<Chunk>, chain': seq<Chunk>, bet0: nat, bet: nat, reqSize: nat, s: nat, i: nat, k: nat)
    requires ChainOk(chain) && ChainOk(chain') && Served(chain, chain', bet0, reqSize, s, i, k) && Largest(chain, bet0)
    requires BetAfter(chain, chain'[i].base, bet0, bet, PaddedSize(reqSize), s, i)
    ensures Largest(chain', bet) <==> StaysLargest(chain, bet0, PaddedSize(reqSize), i)
  {
    hide ChainOk, BetFree, Free, StartsAt, PagesFor;
    if AllFull(chain, PaddedSize(reqSize)) {
      BetGrown(chain, chain', bet0, bet, reqSize, chain'[i].base);
    } else {
      BetPlaced(chain, chain', bet0, bet, reqSize, s, i, k);
    }
  }

  /** In an old run. */
  lemma BetPlaced(chain: seq<Chunk>, chain': seq<Chunk>, bet0: nat, bet: nat, reqSize: nat, s: nat, i: nat, k: nat)
    requires ChainOk(chain) && ChainOk(chain') && Largest(chain, bet0) && i < |chain| && k <= |chain[i].blocks|
    requires chain' == chain[i := chain[i].Insert(k, Block(chain[i].GapStart(k), PaddedSize(reqSize), reqSize))]
    requires Ranks(chain, bet0, bet, s, i + 1, i < s)
    ensures bet == bet0
    ensures Largest(chain', bet) <==> (chain[i].base == bet0 ==> forall j: nat :: j < |chain| && j != i ==> Free(chain[j]) <= Free(chain[i]) - PaddedSize(reqSize) - MINOR)
  {
    hide ChainOk, BetFree, Free, Chunk.Insert;
    var b := Block(chain[i].GapStart(k), PaddedSize(reqSize), reqSize);
    InsertFree(chain[i], k, b);
    if bet != bet0 {
      var j: nat :| j < |chain| && chain[j].base == bet;
      BetFreeAt(chain, j);
    }
    var j: nat :| j < |chain| && chain[j].base == bet0;
    LargestAt(chain, j);
    assert chain'[j].base == bet0;
    LargestAt(chain', j);
    BasesDiffer(chain, i, j);
    if i == j {
      assert forall m: nat :: m < |chain| && m != i ==> chain'[m] == chain[m];
    }
  }

  lemma InsertFree(c: Chunk, k: nat, b: Block)
    requires k <= |c.blocks|
    ensures Free(c.Insert(k, b)) == Free(c) - b.size - MINOR && c.Insert(k, b).base == c.base
  {
    hide Taken;
    TakenInsert(c.blocks, k, b);
  }

  /** In a new one. */
  lemma BetGrown(chain: seq<Chunk>, chain': seq<Chunk>, bet0: nat, bet: nat, reqSize: nat, maj: nat)
    requires ChainOk(chain) && ChainOk(chain') && Largest(chain, bet0)
    requires var size := PaddedSize(reqSize);
      var c := Chunk(maj, PagesFor(size), []);
      && chain' == chain + [Chunk(maj, PagesFor(size), [Block(c.Start(), size, reqSize)])]
      && if LooksAtNew(chain, size) then Ranks(chain + [c], bet0, bet, 0, |chain| + 1, false) else Ranks(chain, bet0, bet, 0, |chain|, false)
    ensures var size := PaddedSize(reqSize);
      var f := 4096 * PagesFor(size) - MAJOR;
      Largest(chain', bet) <==> if LooksAtNew(chain, size) && f > BetFree(chain, bet0) then BetFree(chain, bet0) <= f - size - MINOR
                                else f - size - MINOR <= BetFree(chain, bet0)
  {
    hide ChainOk, BetFree, Free, PagesFor, LooksAtNew;
    var size, n := PaddedSize(reqSize), |chain|;
    var c, f := Chunk(maj, PagesFor(size), []), 4096 * PagesFor(size) - MAJOR;
    RunMade(chain, c, chain'[n].blocks[0]);
    var j: nat :| j < n && chain[j].base == bet0;
    LargestAt(chain, j);
    BetFreeAt(chain, j);
    LargestAt(chain', j);
    LargestAt(chain', n);
    if LooksAtNew(chain, size) {
      var grown := chain + [c];
      assert grown[j] == chain[j] && grown[n] == c && Seen(0, n + 1, false, n);
      BetFreeAt(grown, j);
      BetFreeAt(grown, n);
      if bet != bet0 {
        var m: nat :| m < n + 1 && grown[m].base == bet;
        BetFreeAt(grown, m);
      }
    } else if bet != bet0 {
      var m: nat :| m < n && chain[m].base == bet;
      BetFreeAt(chain, m);
    }
  }

  /** The new run before and after its first block. */
  lemma RunMade(chain: seq<Chunk>, c: Chunk, b: Block)
    requires c.blocks == [] && ChainOk(chain + [Chunk(c.base, c.pages, [b])])
    ensures ChainOk(chain + [c]) && Free(c) == 4096 * c.pages - MAJOR && Free(Chunk(c.base, c.pages, [b])) == Free(c) - b.size - MINOR
  {
    InsertFree(c, 0, b);
    assert c.Insert(0, b) == Chunk(c.base, c.pages, [b]);
    var chain' := chain + [Chunk(c.base, c.pages, [b])];
    assert forall i :: 0 <= i < |chain| ==> chain'[i] == chain[i];
    assert chain'[|chain|].Ok();
    forall i | 0 <= i < |chain| ensures Apart(chain[i], c) && Apart(c, chain[i]) {
      assert Apart(chain'[i], chain'[|chain|]);
    }
  }

  /** Two runs, of which the first has slightly more free bytes ... */
  function TwoRuns(): seq<Chunk> {
    [Chunk(0x1_0000, 16, [Block(0x1_0028, 100, 0)]), Chunk(0x2_0000, 16, [Block(0x2_0028, 200, 0)])]
  }

  /** ... until it takes a block of 40000 bytes. */
  lemma BetOutgrown()
    ensures var chain, size := TwoRuns(), PaddedSize(40000);
      && ChainOk(chain) && Largest(chain, 0x1_0000)
      && StartsAt(chain, 0x1_0000, size, 0) && Chosen(chain, 0, 0, size) && chain[0].LowestFit(1, size)
      && !StaysLargest(chain, 0x1_0000, size, 0)
  {
    var chain, size := TwoRuns(), PaddedSize(40000);
    TwoFree();
    TwoOk();
    hide ChainOk, Free, BetFree, Chunk.Usage;
    LargestAt(chain, 0);
    BetFreeAt(chain, 0);
    assert BetAt(chain, 0, 0x1_0000, size) && chain[0].FitsAt(1, size) && !chain[0].FitsAt(0, size);
  }

  lemma TwoOk()
    ensures ChainOk(TwoRuns())
  {
    var chain := TwoRuns();
    assert chain[0].Ok() && chain[1].Ok() && Apart(chain[0], chain[1]) && Apart(chain[1], chain[0]);
  }

  lemma TwoFree()
    ensures Free(TwoRuns()[0]) == 65356 && Free(TwoRuns()[1]) == 65256
  {
    assert Taken([Block(0x1_0028, 100, 0)]) == 140 && Taken([Block(0x2_0028, 200, 0)]) == 240;
  }

  // ----- kfree -----

  /** The best bet once a block of run i has been freed: NULL if it named a run now gone, and the run
      freed from if that seems to have more free bytes. The comparison is of 32-bit signed numbers. */
  ghost predicate BetFreed(chain: seq<Chunk>, chain': seq<Chunk>, bet0: nat, bet: nat, i: nat) {
    && i < |chain|
    && if |chain[i].blocks| == 1 then bet == (if bet0 == chain[i].base then 0 else bet0)
       else i < |chain'| && bet == if bet0 != 0 && ToInt32(Free(chain'[i])) > ToInt32(BetFree(chain', bet0)) then chain[i].base else bet0
  }

  lemma BetSettled(chain: seq<Chunk>, i: nat, k: nat, bet0: nat, bet: nat)
    requires Listed(chain, i, k)
    requires var chain1 := chain[i := chain[i].Remove(k)];
      bet == if chain1[i].blocks == [] then (if bet0 == chain[i].base then 0 else bet0)
             else if bet0 != 0 && ToInt32(Free(chain1[i])) > ToInt32(BetFree(chain1, bet0)) then chain[i].base else bet0
    ensures BetFreed(chain, Without(chain, i, k), bet0, bet, i)
  {
    hide BetFree, Free, ToInt32;
  }

  /** kfree keeps the best bet the largest exactly when its run is not the one that goes, and the
      comparison comes out as that of the numbers themselves. */
  lemma BetKept(chain: seq<Chunk>, chain': seq<Chunk>, bet0: nat, bet: nat, i: nat, k: nat)
    requires ChainOk(chain) && ChainOk(chain') && Listed(chain, i, k) && chain' == Without(chain, i, k) && Largest(chain, bet0)
    requires BetFreed(chain, chain', bet0, bet, i)
    ensures Largest(chain', bet) <==>
      if |chain[i].blocks| == 1 then chain[i].base != bet0
      else var f, g := Free(chain'[i]), BetFree(chain', bet0); f == g || (ToInt32(f) > ToInt32(g) <==> f > g)
  {
    hide ChainOk, BetFree, Free, ToInt32, Chunk.Remove;
    var j: nat :| j < |chain| && chain[j].base == bet0;
    LargestAt(chain, j);
    BasesDiffer(chain, i, j);
    if |chain[i].blocks| == 1 {
      BetWithout(chain, chain', i, j);
    } else {
      RemoveFree(chain[i], k);
      assert chain'[j].base == bet0;
      BetFreeAt(chain', j);
      LargestAt(chain', j);
      LargestAt(chain', i);
    }
  }

  lemma RemoveFree(c: Chunk, k: nat)
    requires k < |c.blocks|
    ensures Free(c.Remove(k)) == Free(c) + c.blocks[k].size + MINOR && c.Remove(k).base == c.base
  {
    hide Taken;
    TakenRemove(c.blocks, k);
  }

  /** Run i is gone. */
  lemma BetWithout(chain: seq<Chunk>, chain': seq<Chunk>, i: nat, j: nat)
    requires ChainOk(chain) && ChainOk(chain') && i < |chain| && j < |chain| && chain' == chain[..i] + chain[i + 1..]
    requires Largest(chain, chain[j].base)
    ensures !Largest(chain', 0) && (i != j ==> Largest(chain', chain[j].base))
  {
    hide ChainOk, BetFree, Free;
    NoBetFree(chain');
    LargestAt(chain, j);
    if i != j {
      var j' := if j < i then j else j - 1;
      assert chain'[j'] == chain[j];
      LargestAt(chain', j');
      forall m: nat | m < |chain'| ensures Free(chain'[m]) <= Free(chain[j]) {
        assert chain'[m] == chain[Shifted(i, m)];
      }
    }
  }
}
