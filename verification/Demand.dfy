/** How many page tables a set of pages calls for. */
module Demand {
  import opened PageTable

  /** The tables below the top one on the way to a page. */
  function PathSet(vp: nat): set<Path> { {PdptPath(vp), PdPath(vp), PtPath(vp)} }

  /** The tables below the top one on the way to any of the pages. */
  ghost function PagePaths(pages: set<nat>): set<Path> {
    set vp, p | vp in pages && p in PathSet(vp) :: p
  }

  /** The tables still missing on the way to the pages. */
  ghost function Cost(keys: set<Path>, pages: set<nat>): nat { |PagePaths(pages) - keys| }

  /** The same for one page: up to three. */
  function Missing(keys: set<Path>, vp: nat): nat {
    (if PdptPath(vp) in keys then 0 else 1) + (if PdPath(vp) in keys then 0 else 1) + (if PtPath(vp) in keys then 0 else 1)
  }

  lemma PathsUnion(a: set<nat>, b: set<nat>)
    ensures PagePaths(a + b) == PagePaths(a) + PagePaths(b)
  {
  }

  lemma PathsOfOne(vp: nat)
    ensures PagePaths({vp}) == PathSet(vp)
  {
  }

  lemma SplitCard<T>(x: set<T>, y: set<T>, k: set<T>)
    ensures |(x + y) - k| == |x - k| + |y - (k + x)|
  {
    assert (x + y) - k == (x - k) + (y - (k + x));
  }

  /** What two sets of pages call for, one after the other. */
  lemma CostSplit(keys: set<Path>, a: set<nat>, b: set<nat>)
    ensures Cost(keys, a + b) == Cost(keys, a) + Cost(keys + PagePaths(a), b)
  {
    PathsUnion(a, b);
    SplitCard(PagePaths(a), PagePaths(b), keys);
  }

  lemma CostMonotone(keys: set<Path>, a: set<nat>, b: set<nat>)
    requires a <= b
    ensures Cost(keys, a) <= Cost(keys, b)
  {
    assert b == a + b;
    CostSplit(keys, a, b);
  }

  lemma OneMoreCard<T>(x: T, a: set<T>, k: set<T>)
    requires x !in a
    ensures |({x} + a) - k| == (if x in k then 0 else 1) + |a - k|
  {
    assert ({x} + a) - k == (if x in k then {} else {x}) + (a - k);
  }

  lemma OneCard<T>(x: T, k: set<T>)
    ensures |{x} - k| == if x in k then 0 else 1
  {
    assert {x} - k == if x in k then {} else {x};
  }

  lemma TwoCard<T>(x: T, y: T, k: set<T>)
    requires x != y
    ensures |{x, y} - k| == (if x in k then 0 else 1) + (if y in k then 0 else 1)
  {
    OneMoreCard(x, {y}, k);
    assert {x} + {y} == {x, y};
    OneCard(y, k);
  }

  lemma ThreeCard<T>(x: T, y: T, z: T, k: set<T>)
    requires x != y && y != z && x != z
    ensures |{x, y, z} - k| == (if x in k then 0 else 1) + (if y in k then 0 else 1) + (if z in k then 0 else 1)
  {
    OneMoreCard(x, {y, z}, k);
    assert {x} + {y, z} == {x, y, z};
    TwoCard(y, z, k);
  }

  lemma CostOfOne(keys: set<Path>, vp: nat)
    ensures Cost(keys, {vp}) == Missing(keys, vp)
  {
    hide PdptPath, PdPath, PtPath, PagePaths;
    PathsOfOne(vp);
    PathsDiffer(vp);
    ThreeCard(PdptPath(vp), PdPath(vp), PtPath(vp), keys);
  }

  lemma PathsDiffer(vp: nat)
    ensures PdptPath(vp) != PdPath(vp) && PdPath(vp) != PtPath(vp) && PdptPath(vp) != PtPath(vp)
  {
    IndexRange(vp);
  }

  /** One more page. */
  lemma CostOneMore(keys: set<Path>, done: set<nat>, vp: nat)
    ensures Cost(keys, done + {vp}) == Cost(keys, done) + Missing(keys + PagePaths(done), vp)
    ensures PagePaths(done + {vp}) == PagePaths(done) + PathSet(vp)
  {
    CostSplit(keys, done, {vp});
    CostOfOne(keys + PagePaths(done), vp);
    PathsUnion(done, {vp});
    PathsOfOne(vp);
  }

  /** Too few frames for one page are too few for all. */
  lemma Shortfall(keys: set<Path>, free: int, done: set<nat>, vp: nat, all: set<nat>)
    requires done + {vp} <= all && free - Cost(keys, done) < Missing(keys + PagePaths(done), vp)
    ensures free < Cost(keys, all)
  {
    hide Cost, Missing;
    CostOneMore(keys, done, vp);
    CostMonotone(keys, done + {vp}, all);
  }

  // ----- runs of pages -----

  predicate InRange(vp: nat, lo: nat, n: nat) { lo <= vp < lo + n }

  /** The n pages from lo on. */
  ghost function PageRange(lo: nat, n: nat): set<nat> {
    set vp: nat | vp < lo + n && InRange(vp, lo, n)
  }

  /** The frames it takes to map n pages from lo on, tables included. */
  ghost function Needs(keys: set<Path>, lo: nat, n: nat): nat { n + Cost(keys, PageRange(lo, n)) }

  lemma RangeMore(lo: nat, n: nat)
    ensures PageRange(lo, 0) == {}
    ensures PageRange(lo, n + 1) == PageRange(lo, n) + {lo + n}
  {
  }

  lemma RangeWithin(lo: nat, n: nat, m: nat)
    requires n <= m
    ensures PageRange(lo, n) <= PageRange(lo, m)
  {
  }

  lemma NeedsNone(keys: set<Path>, lo: nat)
    ensures PagePaths(PageRange(lo, 0)) == {} && Needs(keys, lo, 0) == 0
  {
    RangeMore(lo, 0);
    NoPages(keys);
  }

  /** One more page. */
  lemma NeedsMore(keys: set<Path>, lo: nat, n: nat)
    ensures PagePaths(PageRange(lo, n + 1)) == PagePaths(PageRange(lo, n)) + PathSet(lo + n)
    ensures Needs(keys, lo, n + 1) == Needs(keys, lo, n) + 1 + Missing(keys + PagePaths(PageRange(lo, n)), lo + n)
  {
    hide PageRange, PagePaths, Cost, Missing, PathSet;
    RangeMore(lo, n);
    CostOneMore(keys, PageRange(lo, n), lo + n);
  }

  lemma NeedsGrow(keys: set<Path>, lo: nat, n: nat, m: nat)
    requires n <= m
    ensures Needs(keys, lo, n) <= Needs(keys, lo, m)
    ensures PagePaths(PageRange(lo, n)) <= PagePaths(PageRange(lo, m))
  {
    hide PageRange, Cost;
    RangeWithin(lo, n, m);
    CostMonotone(keys, PageRange(lo, n), PageRange(lo, m));
  }

  lemma CostFromRoot(pages: set<nat>)
    ensures Cost({Root}, pages) == |PagePaths(pages)|
  {
    assert PagePaths(pages) - {Root} == PagePaths(pages);
  }

  lemma NoPages(keys: set<Path>)
    ensures PagePaths({}) == {} && Cost(keys, {}) == 0
  {
    assert PagePaths({}) - keys == {};
  }
}
