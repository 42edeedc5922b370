/** What it means for a free extent to exist, and what the group-by-group search of
    src/fs/retrofs/fsmap.c:481-632 can see of it. */
module Search {
  import opened Powers
  import opened ByteBits
  import opened Bitset
  import opened FreeSpace
  import opened MapScan

  /** The sectors [a, b) are all free. */
  predicate FreeSectors(l0: seq<Sector>, a: nat, b: nat)
    requires b <= G * |l0|
  {
    forall s: nat :: a <= s < b ==> !Used(l0, s)
  }

  /** A plain scan of the map would accept the extent of `need` sectors at a. */
  predicate FreeExtent(total: nat, l0: seq<Sector>, need: nat, a: nat)
    requires |l0| == Groups(total)
  {
    a + need <= total && FreeSectors(l0, a, a + need)
  }

  /** A small request is only ever placed inside one group. */
  predicate InGroupExtent(total: nat, l0: seq<Sector>, need: nat, a: nat)
    requires |l0| == Groups(total)
  {
    FreeExtent(total, l0, need, a) && a % G + need <= G
  }

  // ---- One group ----

  /** Bits of a group's map sector and sectors of the volume. */
  lemma GroupSectors(total: nat, l0: seq<Sector>, g: nat, lo: nat, hi: nat)
    requires |l0| == Groups(total) && g < Groups(total) && lo <= hi <= GroupSize(total, g)
    ensures FreeBits(l0[g], lo, hi) <==> FreeSectors(l0, g * G + lo, g * G + hi)
  {
    if FreeBits(l0[g], lo, hi) {
      forall s: nat | g * G + lo <= s < g * G + hi ensures !Used(l0, s) {
        SectorSplit(s, g);
        assert !Bit(l0[g], s % G);
      }
    }
    if FreeSectors(l0, g * G + lo, g * G + hi) {
      forall i: nat | lo <= i < hi ensures !Bit(l0[g], i) {
        SectorSplit(g * G + i, g);
        assert !Used(l0, g * G + i);
      }
    }
  }

  lemma SectorSplit(s: nat, g: nat)
    requires g * G <= s < g * G + G
    ensures s / G == g && s % G == s - g * G
  {
  }

  lemma RunIsExtent(total: nat, l0: seq<Sector>, need: nat, g: nat, i: nat)
    requires |l0| == Groups(total) && g < Groups(total) && i < G && need > 0
    ensures InGroupExtent(total, l0, need, g * G + i) <==> RunAt(l0[g], GroupSize(total, g), need, i)
  {
    SectorSplit(g * G + i, g);
    if i + need <= GroupSize(total, g) {
      GroupSectors(total, l0, g, i, i + need);
    }
  }

  lemma FreeGroup(total: nat, l0: seq<Sector>, g: nat)
    requires |l0| == Groups(total) && g < Groups(total)
    ensures FreeIn(total, l0, g) == GroupSize(total, g) <==> FreeSectors(l0, g * G, EndOf(total, g))
  {
    CountFull(l0[g], 0, GroupSize(total, g), false);
    GroupSectors(total, l0, g, 0, GroupSize(total, g));
    assert FreeBits(l0[g], 0, GroupSize(total, g)) <==>
           forall i: nat | 0 <= i < GroupSize(total, g) :: Bit(l0[g], i) == false;
  }

  // ---- The ends of a group ----

  /** The last `tf` sectors of a group are free exactly when the true tail is that long. */
  lemma TailPart(total: nat, l0: seq<Sector>, g: nat, tf: nat)
    requires |l0| == Groups(total) && g < Groups(total) && tf <= GroupSize(total, g)
    ensures FreeSectors(l0, EndOf(total, g) - tf, EndOf(total, g)) <==> tf <= Tail(l0[g], GroupSize(total, g))
  {
    var n := GroupSize(total, g);
    GroupSectors(total, l0, g, n - tf, n);
    var t := Tail(l0[g], n);
    if t < tf { assert Bit(l0[g], n - 1 - t); }
  }

  lemma HeadPart(total: nat, l0: seq<Sector>, g: nat, p: nat)
    requires |l0| == Groups(total) && g < Groups(total) && p <= GroupSize(total, g)
    ensures FreeSectors(l0, g * G, g * G + p) <==> p <= Head(l0[g], GroupSize(total, g))
  {
    var n := GroupSize(total, g);
    GroupSectors(total, l0, g, 0, p);
    var h := Head(l0[g], n);
    if h < p { assert Bit(l0[g], h); }
  }

  // ---- The search for a small extent, as a function of what it sees ----

  /** The search stops at group g: no flag makes it skip the group, and the group is flagged as
      wholly free and large enough, or its map sector has a long enough run. */
  predicate SmallHit(total: nat, l0: seq<Sector>, c: Caches, need: nat, g: nat)
    requires Shaped(total, l0, c) && g < Groups(total) && need > 0
  {
    SuperOf(total, g);
    && Bit(c.l2NotFull, g / S) && Bit(c.l1NotFull, g)
    && if Bit(c.l1AllFree, g) then need <= GroupSize(total, g)
       else FirstRun(l0[g], GroupSize(total, g), need, 0) < GroupSize(total, g)
  }

  /** What it then returns: the start of the group if it trusts the flag. */
  function SmallStart(total: nat, l0: seq<Sector>, c: Caches, need: nat, g: nat): (a: nat)
    requires Shaped(total, l0, c) && g < Groups(total) && need > 0
  {
    g * G + if Bit(c.l1AllFree, g) then 0 else FirstRun(l0[g], GroupSize(total, g), need, 0)
  }

  /** The first group from g on where it stops, or the number of groups if there is none. */
  function FirstSmallHit(total: nat, l0: seq<Sector>, c: Caches, need: nat, g: nat): (h: nat)
    requires Shaped(total, l0, c) && g <= Groups(total) && need > 0
    ensures g <= h <= Groups(total) && (h < Groups(total) ==> SmallHit(total, l0, c, need, h))
    ensures forall x: nat :: g <= x < h ==> !SmallHit(total, l0, c, need, x)
    decreases Groups(total) - g
  {
    if g == Groups(total) || SmallHit(total, l0, c, need, g) then g else FirstSmallHit(total, l0, c, need, g + 1)
  }

  /** With any summaries, what it returns lies in the group, and is free exactly when the flag, if
      it trusted it, was right about the first `need` sectors. */
  lemma SmallFreeIff(total: nat, l0: seq<Sector>, c: Caches, need: nat, g: nat)
    requires Shaped(total, l0, c) && g < Groups(total) && need > 0 && SmallHit(total, l0, c, need, g)
    ensures var a := SmallStart(total, l0, c, need, g);
      && a / G == g && a + need <= EndOf(total, g)
      && (FreeExtent(total, l0, need, a) <==> (Bit(c.l1AllFree, g) ==> need <= Head(l0[g], GroupSize(total, g))))
  {
    var a := SmallStart(total, l0, c, need, g);
    SectorSplit(a, g);
    if Bit(c.l1AllFree, g) {
      HeadPart(total, l0, g, need);
    } else {
      RunIsExtent(total, l0, need, g, a - g * G);
    }
  }

  /** In sync, the flags and the scan settle whether the map sector has a run. */
  lemma SmallHitIffRun(total: nat, l0: seq<Sector>, c: Caches, need: nat, g: nat)
    requires Coherent(total, l0, c) && g < Groups(total) && need > 0
    ensures var n := GroupSize(total, g);
      && (SmallHit(total, l0, c, need, g) <==> exists i: nat :: RunAt(l0[g], n, need, i))
      && (SmallHit(total, l0, c, need, g) ==>
            SmallStart(total, l0, c, need, g) == g * G + FirstRun(l0[g], n, need, 0))
  {
    SuperOf(total, g);
    assert L1Right(total, l0, c, g) && L2Right(total, l0, c, g / S);
    var n := GroupSize(total, g);
    CountFull(l0[g], 0, n, false);
    CountNone(l0[g], 0, n, false);
    if FreeIn(total, l0, g) > 0 {
      assert AnyFree(total, l0, g / S);
    }
    if i: nat :| RunAt(l0[g], n, need, i) {
      assert !Bit(l0[g], i);
    }
    if SmallHit(total, l0, c, need, g) && Bit(c.l1AllFree, g) {
      assert RunAt(l0[g], n, need, 0);
    }
  }

  /** In sync, the flags lead to every group that has an in-group extent and to no other. */
  lemma SmallHitIff(total: nat, l0: seq<Sector>, c: Caches, need: nat, g: nat)
    requires Coherent(total, l0, c) && g < Groups(total) && need > 0
    ensures SmallHit(total, l0, c, need, g) <==>
            exists a: nat :: a / G == g && InGroupExtent(total, l0, need, a)
    ensures SmallHit(total, l0, c, need, g) ==>
      var b := SmallStart(total, l0, c, need, g);
      InGroupExtent(total, l0, need, b) && forall a: nat :: a / G == g && a < b ==> !InGroupExtent(total, l0, need, a)
  {
    SmallHitIffRun(total, l0, c, need, g);
    var n := GroupSize(total, g);
    forall a: nat | a / G == g ensures InGroupExtent(total, l0, need, a) <==> RunAt(l0[g], n, need, a % G) {
      RunIsExtent(total, l0, need, g, a % G);
    }
    if SmallHit(total, l0, c, need, g) {
      var i := FirstRun(l0[g], n, need, 0);
      assert RunAt(l0[g], n, need, i);
      var b := g * G + i;
      SectorSplit(b, g);
      assert b / G == g && InGroupExtent(total, l0, need, b);
    }
    if a: nat :| a / G == g && InGroupExtent(total, l0, need, a) {
      assert RunAt(l0[g], n, need, a % G);
    }
  }

  /** So in sync the search finds the first in-group extent of the volume, and nothing exactly when
      there is none. */
  lemma SmallSearchInSync(total: nat, l0: seq<Sector>, c: Caches, need: nat)
    requires Coherent(total, l0, c) && need > 0
    ensures var h := FirstSmallHit(total, l0, c, need, 0);
      if h == Groups(total) then forall a: nat :: !InGroupExtent(total, l0, need, a)
      else
        var b := SmallStart(total, l0, c, need, h);
        InGroupExtent(total, l0, need, b) && forall a: nat :: a < b ==> !InGroupExtent(total, l0, need, a)
  {
    var h := FirstSmallHit(total, l0, c, need, 0);
    forall a: nat | a / G < h ensures !InGroupExtent(total, l0, need, a) {
      SmallHitIff(total, l0, c, need, a / G);
    }
    if h < Groups(total) {
      SmallHitIff(total, l0, c, need, h);
      SmallFreeIff(total, l0, c, need, h);
    }
  }

  // ---- When a small extent exists at all ----

  /** The free tail of a group and the free head of the next hold `need` sectors together. */
  predicate AcrossBorder(total: nat, l0: seq<Sector>, need: nat, g: nat)
    requires |l0| == Groups(total)
  {
    g + 1 < Groups(total) && need <= Tail(l0[g], GroupSize(total, g)) + Head(l0[g + 1], GroupSize(total, g + 1))
  }

  lemma AcrossIsExtent(total: nat, l0: seq<Sector>, need: nat, g: nat)
    requires |l0| == Groups(total) && need <= G && AcrossBorder(total, l0, need, g)
    ensures exists a: nat :: FreeExtent(total, l0, need, a)
  {
    var t := Min(need, Tail(l0[g], GroupSize(total, g)));
    var a, m := EndOf(total, g) - t, EndOf(total, g);
    assert m == (g + 1) * G;
    TailPart(total, l0, g, t);
    HeadPart(total, l0, g + 1, need - t);
    forall s: nat | a <= s < a + need ensures !Used(l0, s) {
      assert s < m || s < m + (need - t);
    }
    assert FreeExtent(total, l0, need, a);
  }

  lemma ExtentIsInGroupOrAcross(total: nat, l0: seq<Sector>, need: nat, a: nat)
    requires |l0| == Groups(total) && 0 < need <= G && FreeExtent(total, l0, need, a)
    ensures InGroupExtent(total, l0, need, a) || AcrossBorder(total, l0, need, a / G)
  {
    var g := a / G;
    if a % G + need > G {
      var m := (g + 1) * G;
      assert EndOf(total, g) == m < a + need && g + 1 < Groups(total);
      assert FreeSectors(l0, a, m) && FreeSectors(l0, m, a + need);
      TailPart(total, l0, g, m - a);
      HeadPart(total, l0, g + 1, a + need - m);
    }
  }

  // ---- Conservation ----

  /** How much of [a, b) lies below n. */
  function PartBelow(a: nat, b: nat, n: nat): (r: nat)
    requires a <= b
  {
    if n <= a then 0 else if n <= b then n - a else b - a
  }

  lemma {:induction false} UsageBelow(total: nat, l1: seq<Sector>, l0: seq<Sector>, a: nat, b: nat, n: nat)
    requires |l0| == Groups(total) && a <= b <= total && n <= total
    requires MapMarked(total, l1, l0, a, b, true) && FreeSectors(l0, a, b)
    ensures UsedSectors(total, l1, n) == UsedSectors(total, l0, n) + PartBelow(a, b, n)
    decreases n
  {
    if n > 0 {
      UsageBelow(total, l1, l0, a, b, n - 1);
      assert a <= n - 1 < b ==> !Used(l0, n - 1);
    }
  }

  /** Marking a free extent used adds exactly its length to the usage, and freeing it again restores
      every bit of the map. */
  lemma AllocationConserves(total: nat, l2: seq<Sector>, l1: seq<Sector>, l0: seq<Sector>, need: nat, a: nat)
    requires |l0| == Groups(total) && FreeExtent(total, l0, need, a)
    requires MapMarked(total, l1, l0, a, a + need, true) && MapMarked(total, l2, l1, a, a + need, false)
    ensures UsedSectors(total, l1, total) == UsedSectors(total, l0, total) + need
    ensures forall s: nat :: s < total ==> Used(l2, s) == Used(l0, s)
  {
    UsageBelow(total, l1, l0, a, a + need, total);
  }
}
