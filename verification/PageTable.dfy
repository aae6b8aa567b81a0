/** Four-level page tables as they lie in physical memory: the walk the processor performs, and
    the tree of tables behind it. Index macros and masks are those of
    kernel/include/kernel/mm/paging.h. */
module PageTable {
  import opened Words

  const PAGE_PRESENT: word := 1
  const PAGE_WRITE: word := 2
  const PAGE_USER: word := 4
  const PAGE_NX: word := 0x8000_0000_0000_0000
  const PAGE_ADDR_MASK: word := 0x000F_FFFF_FFFF_F000

  datatype Option<+T> = None | Some(value: T)

  // ----- indices -----

  function Pml4Idx(v: word): nat { And(Shr(v, 39), 0x1FF) }
  function PdptIdx(v: word): nat { And(Shr(v, 30), 0x1FF) }
  function PdIdx(v: word): nat { And(Shr(v, 21), 0x1FF) }
  function PtIdx(v: word): nat { And(Shr(v, 12), 0x1FF) }

  /** The virtual page number: bits 12 to 47 of an address. */
  function Vpn(v: word): nat { v / 4096 % 0x10_0000_0000 }

  function I4(vp: nat): nat { vp / 0x800_0000 % 512 }
  function I3(vp: nat): nat { vp / 0x4_0000 % 512 }
  function I2(vp: nat): nat { vp / 512 % 512 }
  function I1(vp: nat): nat { vp % 512 }

  lemma NineBits(x: nat)
    ensures And(x, 0x1FF) == x % 512
  {
    hide *;
    OnesSmall();
    AndOnes(x, 9);
    Low9(x);
  }

  lemma ShiftsAre(v: word)
    ensures Shr(v, 12) == v / 4096 && Shr(v, 21) == v / 0x20_0000
    ensures Shr(v, 30) == v / 0x4000_0000 && Shr(v, 39) == v / 0x80_0000_0000
  {
    hide *;
    ShrSmall(v);
    ShrSmall(v / 4096);
    ShrSum(v, 12, 9);
    ShrSmall(v / 0x20_0000);
    ShrSum(v, 21, 9);
    ShrSmall(v / 0x4000_0000);
    ShrSum(v, 30, 9);
  }

  /** The four index macros cut the virtual page number into four nine-bit digits. */
  lemma IndicesAre(v: word)
    ensures Pml4Idx(v) == v / 0x80_0000_0000 % 512 && PdptIdx(v) == v / 0x4000_0000 % 512
    ensures PdIdx(v) == v / 0x20_0000 % 512 && PtIdx(v) == v / 0x1000 % 512
    ensures Pml4Idx(v) == I4(Vpn(v)) && PdptIdx(v) == I3(Vpn(v)) && PdIdx(v) == I2(Vpn(v)) && PtIdx(v) == I1(Vpn(v))
  {
    hide And, Shr, I4, I3, I2, I1, Vpn;
    ShiftsAre(v);
    NineBits(Shr(v, 12));
    NineBits(Shr(v, 21));
    NineBits(Shr(v, 30));
    NineBits(Shr(v, 39));
    DigitsOfPage(v / 4096);
    assert v / 0x20_0000 == v / 4096 / 512;
    assert v / 0x4000_0000 == v / 4096 / 0x4_0000;
    assert v / 0x80_0000_0000 == v / 4096 / 0x800_0000;
    VpnIs(v);
  }

  lemma VpnIs(v: word)
    ensures Vpn(v) == v / 4096 % 0x10_0000_0000
  {
  }

  /** Reducing to 36 bits does not change the digits. */
  lemma DigitsOfPage(x: nat)
    ensures var vp := x % 0x10_0000_0000;
      I1(vp) == x % 512 && I2(vp) == x / 512 % 512 && I3(vp) == x / 0x4_0000 % 512 && I4(vp) == x / 0x800_0000 % 512
  {
    Digits27(x);
    Digits18(x / 512);
    Digits9(x / 512 / 512);
    var vp := x % 0x10_0000_0000;
    assert vp / 0x4_0000 == vp / 512 / 512 && x / 0x4_0000 == x / 512 / 512;
    assert vp / 0x800_0000 == vp / 512 / 512 / 512 && x / 0x800_0000 == x / 512 / 512 / 512;
  }

  lemma Digits27(x: nat)
    ensures x % 0x10_0000_0000 / 512 == x / 512 % 0x800_0000 && x % 0x10_0000_0000 % 512 == x % 512
  {
  }

  lemma Digits18(x: nat)
    ensures x % 0x800_0000 / 512 == x / 512 % 0x4_0000 && x % 0x800_0000 % 512 == x % 512
  {
    var q, r := x / 0x800_0000, x % 0x800_0000;
    assert x == 512 * (0x4_0000 * q) + r;
    assert x / 512 == 0x4_0000 * q + r / 512;
  }

  lemma Digits9(x: nat)
    ensures x % 0x4_0000 / 512 == x / 512 % 512 && x % 0x4_0000 % 512 == x % 512
  {
  }

  /** The digits determine the page. */
  lemma DigitsDetermine(vp: nat, vq: nat)
    requires vp < 0x10_0000_0000 && vq < 0x10_0000_0000
    requires I4(vp) == I4(vq) && I3(vp) == I3(vq) && I2(vp) == I2(vq) && I1(vp) == I1(vq)
    ensures vp == vq
  {
    DigitsCompose(vp);
    DigitsCompose(vq);
  }

  lemma DigitsCompose(vp: nat)
    requires vp < 0x10_0000_0000
    ensures vp == ((I4(vp) * 512 + I3(vp)) * 512 + I2(vp)) * 512 + I1(vp)
  {
    var a := vp / 512;
    assert vp == 512 * a + I1(vp);
    var b := a / 512;
    assert b == vp / 0x4_0000 && a == 512 * b + I2(vp);
    var c := b / 512;
    assert c == vp / 0x800_0000 && b == 512 * c + I3(vp);
    assert c < 512 && I4(vp) == c;
  }

  // ----- entries -----

  predicate IsPresent(e: word) { e % 2 == 1 }

  /** The frame an entry points to. */
  function FrameOf(e: word): nat { e / 4096 % 0x100_0000_0000 }

  /** `e & PAGE_PRESENT`, used as a truth value. */
  predicate TestPresent(e: word)
    ensures TestPresent(e) == IsPresent(e)
  {
    AndStep(e, 1);
    AndZero(e / 2);
    And(e, PAGE_PRESENT) != 0
  }

  /** `e & PAGE_ADDR_MASK`. */
  function AddrOf(e: word): (a: word)
    ensures a == 4096 * FrameOf(e)
  {
    AddrMask(e);
    And(e, PAGE_ADDR_MASK)
  }

  lemma AddrMask(x: word)
    ensures And(x, PAGE_ADDR_MASK) == 4096 * FrameOf(x)
  {
    hide And, Shl, Shr, Low, Ones;
    OnesSmall();
    ShlSmall(Ones(40));
    AndField(x, 12, 40);
    ShrSmall(x);
    Low40(x / 4096);
    ShlSmall(x / 4096 % 0x100_0000_0000);
  }

  /** `(phys & PAGE_ADDR_MASK) | flags`. */
  function LeafWord(phys: word, flags: word): (e: word)
    ensures IsPresent(e) == IsPresent(flags)
    ensures FrameOf(flags) == 0 ==> FrameOf(e) == FrameOf(phys) && e == 4096 * FrameOf(phys) + flags
  {
    LeafBits(phys, flags);
    LeafSum(phys, flags);
    Or(And(phys, PAGE_ADDR_MASK), flags)
  }

  lemma WordOr(a: word, b: word)
    ensures Or(a, b) < U64
  {
    hide Or, Ones;
    OnesSmall();
    OrBelow(a, b, 64);
  }

  lemma LeafBits(phys: word, flags: word)
    ensures var e := Or(And(phys, PAGE_ADDR_MASK), flags);
      && e < U64 && IsPresent(e) == IsPresent(flags)
      && 4096 * FrameOf(e) == Or(4096 * FrameOf(phys), 4096 * FrameOf(flags))
      && (FrameOf(flags) == 0 ==> FrameOf(e) == FrameOf(phys))
  {
    hide And, Or;
    AddrMask(phys);
    var a := 4096 * FrameOf(phys);
    WordOr(a, flags);
    OrPresent(a, flags);
    OrFrame(a, flags);
    assert FrameOf(a) == FrameOf(phys);
    OrZero(a);
  }

  /** With flags outside the address field, an entry is the sum of address and flags. */
  lemma LeafSum(phys: word, flags: word)
    ensures FrameOf(flags) == 0 ==> Or(And(phys, PAGE_ADDR_MASK), flags) == 4096 * FrameOf(phys) + flags
  {
    hide And, Or, FrameOf;
    AddrMask(phys);
    AddrMask(flags);
    if FrameOf(flags) == 0 {
      AndMasked(phys, PAGE_ADDR_MASK, flags);
      OrDisjoint(And(phys, PAGE_ADDR_MASK), flags);
    }
  }

  /** The entry points to the frame asked for exactly when the flags bring in no address bit of
      their own. */
  lemma LeafFrameExact(phys: word, flags: word)
    ensures FrameOf(LeafWord(phys, flags)) == FrameOf(phys) <==> Or(AddrOf(phys), AddrOf(flags)) == AddrOf(phys)
  {
    hide And, Or;
    LeafBits(phys, flags);
  }

  /** Flags with an address bit send the page to another frame. */
  lemma LeafFrameMoved()
    ensures FrameOf(LeafWord(0, 0x1003)) == 1 && FrameOf(0) == 0
  {
  }

  lemma OrPresent(x: word, y: word)
    requires Or(x, y) < U64
    ensures IsPresent(Or(x, y)) == (IsPresent(x) || IsPresent(y))
  {
    hide Or;
    BitOfOr(x, y, 0);
    assert forall w: word :: Bit(w, 0) == IsPresent(w);
  }

  /** `|` joins the frame fields. */
  lemma OrFrame(x: word, y: word)
    requires Or(x, y) < U64
    ensures 4096 * FrameOf(Or(x, y)) == Or(4096 * FrameOf(x), 4096 * FrameOf(y))
  {
    hide And, Or, FrameOf;
    AndOverOr(x, y, PAGE_ADDR_MASK);
    AddrMask(x);
    AddrMask(y);
    AddrMask(Or(x, y));
  }

  /** `new_phys | PAGE_PRESENT | PAGE_WRITE | PAGE_USER`. */
  function TableWord(newPhys: word): (e: word)
    requires newPhys % 4096 == 0
    ensures IsPresent(e) && FrameOf(e) == FrameOf(newPhys) && e == newPhys + 7
  {
    TableBits(newPhys);
    Or(Or(Or(newPhys, PAGE_PRESENT), PAGE_WRITE), PAGE_USER)
  }

  lemma OrFlag(x: word, flag: word)
    requires FrameOf(flag) == 0
    ensures Or(x, flag) < U64 && FrameOf(Or(x, flag)) == FrameOf(x)
    ensures IsPresent(Or(x, flag)) == (IsPresent(x) || IsPresent(flag))
  {
    hide And, Or;
    WordOr(x, flag);
    OrPresent(x, flag);
    OrFrame(x, flag);
    OrZero(4096 * FrameOf(x));
  }

  /** The flags of a table's entry: present, writable and open to users. */
  lemma LowThreeBits(k: nat)
    ensures Or(Or(Or(8 * k, 1), 2), 4) == 8 * k + 7
  {
    hide Or;
    OrEven(4 * k, 0);
    OrOdd(4 * k, 1);
    OrEven(2 * k, 0);
    OrOdd(4 * k + 1, 2);
    OrOdd(2 * k, 1);
    OrEven(k, 0);
    OrZero(4 * k);
    OrZero(2 * k);
    OrZero(k);
  }

  lemma OrEven(a: nat, b: nat)
    ensures Or(2 * a, 2 * b + 1) == 2 * Or(a, b) + 1
  {
    if a == 0 { assert Or(0, b) == b; }
  }

  lemma OrOdd(a: nat, b: nat)
    ensures Or(2 * a + 1, 2 * b) == 2 * Or(a, b) + 1
  {
    assert (2 * a + 1) / 2 == a;
  }

  lemma TableBits(x: word)
    requires x % 4096 == 0
    ensures Or(Or(Or(x, 1), 2), 4) == x + 7 < U64
    ensures IsPresent(x + 7) && FrameOf(x + 7) == FrameOf(x)
  {
    hide Or;
    LowThreeBits(x / 8);
    assert 8 * (x / 8) == x;
  }

  // ----- the walk -----

  /** Entry i of the table in frame f; frame f is words 512 f to 512 f + 511 of memory. */
  function Entry(m: seq<word>, f: nat, i: nat): word {
    if 512 * f + i < |m| then m[512 * f + i] else 0
  }

  /** No word outside these frames has changed. */
  ghost predicate Untouched(m: seq<word>, m': seq<word>, frames: set<nat>) {
    |m'| == |m| && forall f: nat, i: nat :: f !in frames && i < 512 ==> Entry(m', f, i) == Entry(m, f, i)
  }

  lemma UntouchedNone(m: seq<word>, frames: set<nat>)
    ensures Untouched(m, m, frames)
  {
  }

  lemma UntouchedBoth(m: seq<word>, m': seq<word>, m'': seq<word>, frames: set<nat>, frames': set<nat>)
    requires Untouched(m, m', frames) && Untouched(m', m'', frames') && frames <= frames'
    ensures Untouched(m, m'', frames')
  {
    hide Entry;
  }

  /** One word of frame t, and frame f, may have changed. */
  lemma TwoTouched(m: seq<word>, m': seq<word>, t: nat, index: nat, f: nat, frames: set<nat>)
    requires |m'| == |m| && index < 512 && t in frames && f in frames
    requires forall k: nat | k < |m| && k != 512 * t + index && !(512 * f <= k < 512 * f + 512) :: m'[k] == m[k]
    ensures Untouched(m, m', frames)
  {
    forall g: nat, i: nat | g !in frames && i < 512 ensures Entry(m', g, i) == Entry(m, g, i) {
      WordApart(g, i, t, index);
      WordApart(g, i, f, 0);
    }
  }

  /** Words of different frames are different words. */
  lemma WordApart(g: nat, i: nat, f: nat, j: nat)
    requires g != f && i < 512 && j < 512
    ensures 512 * g + i != 512 * f + j && !(512 * f <= 512 * g + i < 512 * f + 512)
  {
  }

  function Next(m: seq<word>, f: nat, i: nat): Option<nat> {
    if IsPresent(Entry(m, f, i)) then Some(FrameOf(Entry(m, f, i))) else None
  }

  function Leaf(e: word): Option<word> {
    if IsPresent(e) then Some(e) else None
  }

  /** What the processor finds for a virtual page, starting from the top table. It reads memory
      only; the entry found holds both the frame and the flags. */
  function Walk(m: seq<word>, top: nat, vp: nat): Option<word> {
    match Next(m, top, I4(vp))
    case None => None
    case Some(pdpt) =>
      match Next(m, pdpt, I3(vp))
      case None => None
      case Some(pd) =>
        match Next(m, pd, I2(vp))
        case None => None
        case Some(pt) => Leaf(Entry(m, pt, I1(vp)))
  }

  /** Two memories translate every page alike. */
  ghost predicate SameWalks(m: seq<word>, m': seq<word>, top: nat) {
    forall vp: nat :: Walk(m', top, vp) == Walk(m, top, vp)
  }

  /** m' translates every page as m does, except `vp`. */
  ghost predicate SameWalksBut(m: seq<word>, m': seq<word>, top: nat, vp: nat) {
    forall vq: nat :: vq < 0x10_0000_0000 && vq != vp ==> Walk(m', top, vq) == Walk(m, top, vq)
  }

  // ----- the tree of tables -----

  /** The indices that lead from the top table to a table. */
  datatype Path = Root | Sub(up: Path, idx: nat)

  function Depth(p: Path): nat {
    match p case Root => 0 case Sub(up, _) => 1 + Depth(up)
  }

  function PdptPath(vp: nat): Path { Sub(Root, I4(vp)) }
  function PdPath(vp: nat): Path { Sub(PdptPath(vp), I3(vp)) }
  function PtPath(vp: nat): Path { Sub(PdPath(vp), I2(vp)) }

  /** `tree` gives, for every index path that leads to a table, the frame that holds it. Distinct
      paths have distinct frames, no table lies in frame 0, and a table's parent is a table. */
  ghost predicate TreeShape(words: nat, top: nat, tree: map<Path, nat>) {
    && Root in tree && tree[Root] == top
    && (forall p :: p in tree ==> Depth(p) <= 3 && 0 < tree[p] < 0x100_0000_0000 && 512 * tree[p] + 512 <= words)
    && (forall p, q :: p in tree && q in tree && tree[p] == tree[q] ==> p == q)
    && (forall p, i :: Sub(p, i) in tree ==> p in tree && i < 512)
  }

  /** The present entries of the upper tables are exactly the links of the tree, each with the flags
      present, writable and open to users. */
  ghost predicate Links(m: seq<word>, tree: map<Path, nat>) {
    forall p, i: nat :: p in tree && Depth(p) < 3 && i < 512 ==> LinkOk(m, tree, p, i)
  }

  ghost predicate LinkOk(m: seq<word>, tree: map<Path, nat>, p: Path, i: nat)
    requires p in tree
  {
    && Next(m, tree[p], i) == (if Sub(p, i) in tree then Some(tree[Sub(p, i)]) else None)
    && (Sub(p, i) in tree ==> Entry(m, tree[p], i) == 4096 * tree[Sub(p, i)] + 7)
  }

  ghost predicate TreeOk(m: seq<word>, top: nat, tree: map<Path, nat>) {
    TreeShape(|m|, top, tree) && Links(m, tree)
  }

  /** Under the tree, the walk is a look-up of the last table and its entry. */
  lemma WalkIsLookup(m: seq<word>, top: nat, tree: map<Path, nat>, vp: nat)
    requires TreeOk(m, top, tree)
    ensures Walk(m, top, vp) == if PtPath(vp) in tree then Leaf(Entry(m, tree[PtPath(vp)], I1(vp))) else None
  {
    hide I4, I3, I2, I1, Entry;
    IndexRange(vp);
    assert LinkOk(m, tree, Root, I4(vp));
    if PdptPath(vp) in tree {
      assert LinkOk(m, tree, PdptPath(vp), I3(vp));
      if PdPath(vp) in tree {
        assert LinkOk(m, tree, PdPath(vp), I2(vp));
      }
    }
  }

  /** Every table on the way to a mapped page is entered as writable and open to users, so the
      page's own entry alone decides what is allowed. */
  lemma LeafDecides(m: seq<word>, top: nat, tree: map<Path, nat>, vp: nat)
    requires TreeOk(m, top, tree) && Walk(m, top, vp).Some?
    ensures PdptPath(vp) in tree && PdPath(vp) in tree && PtPath(vp) in tree
    ensures Entry(m, top, I4(vp)) % 8 == 7
    ensures Entry(m, tree[PdptPath(vp)], I3(vp)) % 8 == 7
    ensures Entry(m, tree[PdPath(vp)], I2(vp)) % 8 == 7
  {
    hide I4, I3, I2, I1, Entry, Walk, IsPresent, FrameOf, LinkOk;
    IndexRange(vp);
    WalkIsLookup(m, top, tree, vp);
    EntryFlags(m, tree, Root, I4(vp));
    EntryFlags(m, tree, PdptPath(vp), I3(vp));
    EntryFlags(m, tree, PdPath(vp), I2(vp));
  }

  lemma EntryFlags(m: seq<word>, tree: map<Path, nat>, p: Path, i: nat)
    requires p in tree && Sub(p, i) in tree && LinkOk(m, tree, p, i)
    ensures Entry(m, tree[p], i) % 8 == 7
  {
    hide Entry, Next;
    SevenModEight(tree[Sub(p, i)]);
  }

  lemma SevenModEight(f: nat)
    ensures (4096 * f + 7) % 8 == 7
  {
  }

  lemma IndexRange(vp: nat)
    ensures I4(vp) < 512 && I3(vp) < 512 && I2(vp) < 512 && I1(vp) < 512
    ensures Depth(Root) == 0 && Depth(PdptPath(vp)) == 1 && Depth(PdPath(vp)) == 2 && Depth(PtPath(vp)) == 3
  {
    assert Depth(Root) == 0;
    assert Depth(PdptPath(vp)) == 1;
    assert Depth(PdPath(vp)) == 2;
  }

  /** An empty top table is a tree by itself and translates nothing. */
  lemma RootAlone(m: seq<word>, f: nat)
    requires 0 < f < 0x100_0000_0000 && 512 * f + 512 <= |m|
    requires forall k: nat | 512 * f <= k < 512 * f + 512 :: m[k] == 0
    ensures TreeOk(m, f, map[Root := f])
    ensures forall vp: nat :: Walk(m, f, vp) == None
  {
    hide Walk, FrameOf, I1, I2, I3, I4;
    var tree := map[Root := f];
    forall i: nat | i < 512 ensures LinkOk(m, tree, Root, i) {
      assert Entry(m, f, i) == m[512 * f + i];
    }
    forall vp: nat ensures Walk(m, f, vp) == None {
      WalkIsLookup(m, f, tree, vp);
    }
  }

  /** Hanging an empty table, in a frame that is no table yet, at a free entry of an upper table
      keeps the tree and every translation. */
  lemma NewTableKeepsWalks(m: seq<word>, m': seq<word>, top: nat, tree: map<Path, nat>, p: Path, i: nat, f: nat)
    requires TreeOk(m, top, tree) && p in tree && Depth(p) < 3 && i < 512 && Sub(p, i) !in tree
    requires 0 < f < 0x100_0000_0000 && 512 * f + 512 <= |m| == |m'| && f !in tree.Values
    requires forall k: nat | 512 * f <= k < 512 * f + 512 :: m'[k] == 0
    requires forall k: nat | k < |m| && k != 512 * tree[p] + i && !(512 * f <= k < 512 * f + 512) :: m'[k] == m[k]
    requires Next(m', tree[p], i) == Some(f) && Entry(m', tree[p], i) == 4096 * f + 7
    ensures TreeOk(m', top, tree[Sub(p, i) := f])
    ensures SameWalks(m, m', top)
  {
    var tree' := tree[Sub(p, i) := f];
    NewTableTree(m, m', top, tree, p, i, f);
    forall vp: nat ensures Walk(m', top, vp) == Walk(m, top, vp) {
      hide *;
      NewTableWalk(m, m', top, tree, p, i, f, vp);
    }
  }

  lemma NewTableWalk(m: seq<word>, m': seq<word>, top: nat, tree: map<Path, nat>, p: Path, i: nat, f: nat, vp: nat)
    requires TreeOk(m, top, tree) && TreeOk(m', top, tree[Sub(p, i) := f])
    requires p in tree && Depth(p) < 3 && i < 512 && Sub(p, i) !in tree
    requires 512 * f + 512 <= |m| == |m'| && f !in tree.Values
    requires forall k: nat | 512 * f <= k < 512 * f + 512 :: m'[k] == 0
    requires forall k: nat | k < |m| && k != 512 * tree[p] + i && !(512 * f <= k < 512 * f + 512) :: m'[k] == m[k]
    ensures Walk(m', top, vp) == Walk(m, top, vp)
  {
    hide Walk, TreeOk, I4, I3, I2, I1;
    IndexRange(vp);
    var tree' := tree[Sub(p, i) := f];
    var pt := PtPath(vp);
    WalkIsLookup(m, top, tree, vp);
    WalkIsLookup(m', top, tree', vp);
    if pt in tree {
      NewTableEntries(m, m', top, tree, p, i, f, pt, I1(vp));
    } else if pt in tree' {
      assert Entry(m', f, I1(vp)) == m'[512 * f + I1(vp)] == 0;
    }
  }

  /** Entries of existing tables, other than the one linked, are unchanged. */
  lemma NewTableEntries(m: seq<word>, m': seq<word>, top: nat, tree: map<Path, nat>, p: Path, i: nat, f: nat, q: Path, j: nat)
    requires TreeOk(m, top, tree) && p in tree && i < 512
    requires 512 * f + 512 <= |m| == |m'| && f !in tree.Values
    requires forall k: nat | k < |m| && k != 512 * tree[p] + i && !(512 * f <= k < 512 * f + 512) :: m'[k] == m[k]
    requires q in tree && j < 512 && (q != p || j != i)
    ensures Entry(m', tree[q], j) == Entry(m, tree[q], j)
  {
    assert tree[q] != f;
    assert tree[q] == tree[p] ==> q == p;
    var k := 512 * tree[q] + j;
    assert k != 512 * tree[p] + i && !(512 * f <= k < 512 * f + 512);
  }

  lemma NewTableTree(m: seq<word>, m': seq<word>, top: nat, tree: map<Path, nat>, p: Path, i: nat, f: nat)
    requires TreeOk(m, top, tree) && p in tree && Depth(p) < 3 && i < 512 && Sub(p, i) !in tree
    requires 0 < f < 0x100_0000_0000 && 512 * f + 512 <= |m| == |m'| && f !in tree.Values
    requires forall k: nat | 512 * f <= k < 512 * f + 512 :: m'[k] == 0
    requires forall k: nat | k < |m| && k != 512 * tree[p] + i && !(512 * f <= k < 512 * f + 512) :: m'[k] == m[k]
    requires Next(m', tree[p], i) == Some(f) && Entry(m', tree[p], i) == 4096 * f + 7
    ensures TreeOk(m', top, tree[Sub(p, i) := f])
  {
    var tree' := tree[Sub(p, i) := f];
    assert TreeShape(|m|, top, tree') by {
      NewTableShape(|m|, top, tree, p, i, f);
    }
    forall q, j: nat | q in tree' && Depth(q) < 3 && j < 512 ensures LinkOk(m', tree', q, j) {
      NewTableLink(m, m', top, tree, p, i, f, q, j);
    }
  }

  lemma NewTableShape(words: nat, top: nat, tree: map<Path, nat>, p: Path, i: nat, f: nat)
    requires TreeShape(words, top, tree) && p in tree && Depth(p) < 3 && i < 512 && Sub(p, i) !in tree
    requires 0 < f < 0x100_0000_0000 && 512 * f + 512 <= words && f !in tree.Values
    ensures TreeShape(words, top, tree[Sub(p, i) := f])
  {
  }

  lemma NewTableLink(m: seq<word>, m': seq<word>, top: nat, tree: map<Path, nat>, p: Path, i: nat, f: nat, q: Path, j: nat)
    requires TreeOk(m, top, tree) && p in tree && i < 512 && Sub(p, i) !in tree
    requires 512 * f + 512 <= |m| == |m'| && f !in tree.Values
    requires forall k: nat | 512 * f <= k < 512 * f + 512 :: m'[k] == 0
    requires forall k: nat | k < |m| && k != 512 * tree[p] + i && !(512 * f <= k < 512 * f + 512) :: m'[k] == m[k]
    requires Next(m', tree[p], i) == Some(f) && Entry(m', tree[p], i) == 4096 * f + 7
    requires (q in tree || q == Sub(p, i)) && Depth(q) < 3 && j < 512
    ensures LinkOk(m', tree[Sub(p, i) := f], q, j)
  {
    if q == Sub(p, i) {
      assert Sub(q, j) !in tree && Sub(q, j) != q;
      assert Entry(m', f, j) == m'[512 * f + j] == 0;
    } else if q != p || j != i {
      assert Sub(q, j) != Sub(p, i);
      NewTableEntries(m, m', top, tree, p, i, f, q, j);
      assert LinkOk(m, tree, q, j);
    }
  }

  /** Writing one entry of a last-level table keeps the tree and changes one translation. */
  lemma WriteLeaf(m: seq<word>, top: nat, tree: map<Path, nat>, vp: nat, e: word)
    requires TreeOk(m, top, tree) && vp < 0x10_0000_0000 && PtPath(vp) in tree
    ensures 512 * tree[PtPath(vp)] + I1(vp) < |m|
    ensures var m' := m[512 * tree[PtPath(vp)] + I1(vp) := e];
      TreeOk(m', top, tree) && SameWalksBut(m, m', top, vp) && Walk(m', top, vp) == Leaf(e)
  {
    IndexRange(vp);
    var pt := PtPath(vp);
    var k := 512 * tree[pt] + I1(vp);
    var m' := m[k := e];
    forall q, j: nat | q in tree && j < 512 && (q != pt || j != I1(vp))
      ensures Entry(m', tree[q], j) == Entry(m, tree[q], j)
    {
      assert tree[q] == tree[pt] ==> q == pt;
    }
    forall q, j: nat | q in tree && Depth(q) < 3 && j < 512 ensures LinkOk(m', tree, q, j) {
      assert LinkOk(m, tree, q, j);
    }
    WalkIsLookup(m', top, tree, vp);
    forall vq: nat | vq < 0x10_0000_0000 && vq != vp ensures Walk(m', top, vq) == Walk(m, top, vq) {
      IndexRange(vq);
      if PtPath(vq) == pt && I1(vq) == I1(vp) { DigitsDetermine(vp, vq); }
      WalkIsLookup(m, top, tree, vq);
      WalkIsLookup(m', top, tree, vq);
    }
  }
}
