/** The free-space map of RetroFS: the on-disk bitmap L0 and the in-memory summaries L1 and L2
    (include/retrofs.h:138-167, src/fs/retrofs/fsmap.c). */
module FreeSpace {
  import opened Powers
  import opened ByteBits
  import opened Bitset

  const G: nat := 4096  // sectors per L1 group, RFS_L1_GROUP_SECTORS
  const S: nat := 1024  // L1 groups per L2 super-group, RFS_L2_GROUPS_PER_SUPER
  const SECTOR_SIZE: nat := 512

  type Sector = s: seq<Byte> | |s| == SECTOR_SIZE witness seq(SECTOR_SIZE, i => ZERO)

  /** One map sector per group. */
  function Groups(total: nat): (r: nat)
  {
    (total + G - 1) / G
  }

  function Supers(total: nat): (r: nat)
  {
    (Groups(total) + S - 1) / S
  }

  /** `rfs_group_size`: the last group holds what is left over. */
  function GroupSize(total: nat, g: nat): (n: nat)
    requires g < Groups(total)
    ensures 0 < n <= G && g * G + n <= total
    ensures g + 1 < Groups(total) ==> n == G
    ensures g + 1 == Groups(total) ==> g * G + n == total
  {
    if g * G + G <= total then G else total - g * G
  }

  /** One past the last sector of a group. */
  function EndOf(total: nat, g: nat): (e: nat)
    requires g < Groups(total)
    ensures g * G < e <= total
  {
    g * G + GroupSize(total, g)
  }

  /** One past the last group of a super-group. */
  function SuperEnd(total: nat, sg: nat): (r: nat)
  {
    Min(sg * S + S, Groups(total))
  }

  /** A bit of the map is 1 when its sector is used. */
  predicate Used(l0: seq<Sector>, s: nat)
    requires s / G < |l0|
  {
    Bit(l0[s / G], s % G)
  }

  /** The number of free sectors in a group. */
  function FreeIn(total: nat, l0: seq<Sector>, g: nat): (n: nat)
    requires g < Groups(total) == |l0|
    ensures n <= GroupSize(total, g)
  {
    Count(l0[g], 0, GroupSize(total, g), false)
  }

  // ---- The summaries ----

  datatype Caches = Caches(
    freeCount: seq<nat>,
    l1NotFull: seq<Byte>, l1AllFree: seq<Byte>,
    l2NotFull: seq<Byte>, l2AllFree: seq<Byte>)

  predicate Shaped(total: nat, l0: seq<Sector>, c: Caches)
  {
    && |l0| == Groups(total) == |c.freeCount|
    && Groups(total) <= 8 * |c.l1NotFull| && Groups(total) <= 8 * |c.l1AllFree|
    && Supers(total) <= 8 * |c.l2NotFull| && Supers(total) <= 8 * |c.l2AllFree|
  }

  predicate CountsFit(total: nat, counts: seq<nat>)
    requires |counts| == Groups(total)
  {
    forall g: nat :: g < Groups(total) ==> counts[g] <= GroupSize(total, g)
  }

  /** The L1 entries of group g are what a rebuild from the map would give. */
  predicate L1Right(total: nat, l0: seq<Sector>, c: Caches, g: nat)
    requires Shaped(total, l0, c) && g < Groups(total)
  {
    && c.freeCount[g] == FreeIn(total, l0, g)
    && Bit(c.l1NotFull, g) == (FreeIn(total, l0, g) > 0)
    && Bit(c.l1AllFree, g) == (FreeIn(total, l0, g) == GroupSize(total, g))
  }

  predicate AnyFree(total: nat, l0: seq<Sector>, sg: nat)
    requires |l0| == Groups(total)
  {
    exists g: nat :: sg * S <= g < SuperEnd(total, sg) && FreeIn(total, l0, g) > 0
  }

  predicate WhollyFree(total: nat, l0: seq<Sector>, sg: nat)
    requires |l0| == Groups(total)
  {
    forall g: nat :: sg * S <= g < SuperEnd(total, sg) ==> FreeIn(total, l0, g) == GroupSize(total, g)
  }

  predicate L2Right(total: nat, l0: seq<Sector>, c: Caches, sg: nat)
    requires Shaped(total, l0, c) && sg < Supers(total)
  {
    && Bit(c.l2NotFull, sg) == AnyFree(total, l0, sg)
    && Bit(c.l2AllFree, sg) == WhollyFree(total, l0, sg)
  }

  predicate L1Coherent(total: nat, l0: seq<Sector>, c: Caches)
  {
    Shaped(total, l0, c) && forall g: nat :: g < Groups(total) ==> L1Right(total, l0, c, g)
  }

  /** The summaries equal those rebuilt from the map. */
  predicate Coherent(total: nat, l0: seq<Sector>, c: Caches)
  {
    L1Coherent(total, l0, c) && forall sg: nat :: sg < Supers(total) ==> L2Right(total, l0, c, sg)
  }

  // ---- Updating one group ----

  /** The L1 writes for a group that now has n free sectors. */
  function WithL1(total: nat, c: Caches, g: nat, n: nat): (r: Caches)
    requires g < Groups(total) == |c.freeCount|
    requires Groups(total) <= 8 * |c.l1NotFull| && Groups(total) <= 8 * |c.l1AllFree|
  {
    c.(freeCount := c.freeCount[g := n],
       l1NotFull := Put(c.l1NotFull, g, n > 0),
       l1AllFree := Put(c.l1AllFree, g, n == GroupSize(total, g)))
  }

  lemma L1Updated(total: nat, l0: seq<Sector>, c: Caches, g: nat, sector: Sector, n: nat)
    requires L1Coherent(total, l0, c) && g < Groups(total)
    requires n == FreeIn(total, l0[g := sector], g)
    ensures L1Coherent(total, l0[g := sector], WithL1(total, c, g, n))
  {
    var l0', c' := l0[g := sector], WithL1(total, c, g, n);
    forall h: nat | h < Groups(total) ensures L1Right(total, l0', c', h) {
      PutBit(c.l1NotFull, g, n > 0, h);
      PutBit(c.l1AllFree, g, n == GroupSize(total, g), h);
      assert L1Right(total, l0, c, h);
    }
  }

  /** The L2 writes for a super-group. */
  function WithL2(total: nat, c: Caches, sg: nat, any: bool, all: bool): (r: Caches)
    requires sg < 8 * |c.l2NotFull| && sg < 8 * |c.l2AllFree|
  {
    c.(l2NotFull := Put(c.l2NotFull, sg, any), l2AllFree := Put(c.l2AllFree, sg, all))
  }

  /** What rfs_update_l2_for_group reads off the L1 entries. */
  predicate AnyCounted(total: nat, c: Caches, sg: nat)
    requires |c.freeCount| == Groups(total)
  {
    exists g: nat :: sg * S <= g < SuperEnd(total, sg) && c.freeCount[g] > 0
  }

  predicate AllFlagged(total: nat, c: Caches, sg: nat)
    requires Groups(total) <= 8 * |c.l1AllFree|
  {
    forall g: nat :: sg * S <= g < SuperEnd(total, sg) ==> Bit(c.l1AllFree, g)
  }

  lemma L1Speaks(total: nat, l0: seq<Sector>, c: Caches, sg: nat)
    requires L1Coherent(total, l0, c)
    ensures AnyCounted(total, c, sg) == AnyFree(total, l0, sg)
    ensures AllFlagged(total, c, sg) == WhollyFree(total, l0, sg)
  {
    if AllFlagged(total, c, sg) {
      forall g: nat | sg * S <= g < SuperEnd(total, sg) ensures FreeIn(total, l0, g) == GroupSize(total, g) {
        assert L1Right(total, l0, c, g) && Bit(c.l1AllFree, g);
      }
    }
    if WhollyFree(total, l0, sg) {
      forall g: nat | sg * S <= g < SuperEnd(total, sg) ensures Bit(c.l1AllFree, g) {
        assert L1Right(total, l0, c, g) && FreeIn(total, l0, g) == GroupSize(total, g);
      }
    }
    if AnyCounted(total, c, sg) {
      var g: nat :| sg * S <= g < SuperEnd(total, sg) && c.freeCount[g] > 0;
      assert L1Right(total, l0, c, g);
      assert FreeIn(total, l0, g) > 0;
    }
    if AnyFree(total, l0, sg) {
      var g: nat :| sg * S <= g < SuperEnd(total, sg) && FreeIn(total, l0, g) > 0;
      assert L1Right(total, l0, c, g);
      assert c.freeCount[g] > 0;
    }
  }

  /** A group belongs to one super-group only, so the others keep their meaning. */
  lemma OtherSupers(total: nat, l0: seq<Sector>, g: nat, sector: Sector, sg: nat)
    requires |l0| == Groups(total) && g < Groups(total) && sg != g / S
    ensures AnyFree(total, l0[g := sector], sg) == AnyFree(total, l0, sg)
    ensures WhollyFree(total, l0[g := sector], sg) == WhollyFree(total, l0, sg)
  {
    var l0' := l0[g := sector];
    forall h: nat | sg * S <= h < SuperEnd(total, sg)
      ensures FreeIn(total, l0', h) == FreeIn(total, l0, h)
    {
      assert h / S == sg;
    }
    if AnyFree(total, l0, sg) {
      var h: nat :| sg * S <= h < SuperEnd(total, sg) && FreeIn(total, l0, h) > 0;
      assert FreeIn(total, l0', h) > 0;
    }
  }

  lemma SuperOf(total: nat, g: nat)
    requires g < Groups(total)
    ensures g / S < Supers(total) && g / S * S <= g < SuperEnd(total, g / S)
  {
  }

  /** All writes for one group: L1 first, then the L2 refresh of its super-group. */
  function Updated(total: nat, c: Caches, g: nat, n: nat): (r: Caches)
    requires g < Groups(total) == |c.freeCount|
    requires Groups(total) <= 8 * |c.l1NotFull| && Groups(total) <= 8 * |c.l1AllFree|
    requires Supers(total) <= 8 * |c.l2NotFull| && Supers(total) <= 8 * |c.l2AllFree|
  {
    SuperOf(total, g);
    var c1 := WithL1(total, c, g, n);
    WithL2(total, c1, g / S, AnyCounted(total, c1, g / S), AllFlagged(total, c1, g / S))
  }

  /** After the L0 write and those writes, everything is coherent again. */
  lemma GroupUpdated(total: nat, l0: seq<Sector>, c: Caches, g: nat, sector: Sector, n: nat)
    requires Coherent(total, l0, c) && g < Groups(total) && n == FreeIn(total, l0[g := sector], g)
    ensures Coherent(total, l0[g := sector], Updated(total, c, g, n))
  {
    SuperOf(total, g);
    var l0', c1, c2 := l0[g := sector], WithL1(total, c, g, n), Updated(total, c, g, n);
    L1Updated(total, l0, c, g, sector, n);
    L1Speaks(total, l0', c1, g / S);
    L1Same(total, l0', c1, c2);
    forall sg: nat | sg < Supers(total) ensures L2Right(total, l0', c2, sg) {
      L2Updated(total, l0, c, c1, c2, g, sector, sg);
    }
  }

  /** The L2 writes leave L1 alone. */
  lemma L1Same(total: nat, l0: seq<Sector>, c: Caches, d: Caches)
    requires L1Coherent(total, l0, c) && Shaped(total, l0, d)
    requires d.freeCount == c.freeCount && d.l1NotFull == c.l1NotFull && d.l1AllFree == c.l1AllFree
    ensures L1Coherent(total, l0, d)
  {
    forall h: nat | h < Groups(total) ensures L1Right(total, l0, d, h) {
      assert L1Right(total, l0, c, h);
    }
  }

  lemma L2Updated(total: nat, l0: seq<Sector>, c: Caches, c1: Caches, c2: Caches, g: nat, sector: Sector, sg: nat)
    requires Coherent(total, l0, c) && g < Groups(total) && sg < Supers(total) && g / S < Supers(total)
    requires Shaped(total, l0, c1) && c1.l2NotFull == c.l2NotFull && c1.l2AllFree == c.l2AllFree
    requires var l1 := l0[g := sector];
      c2 == WithL2(total, c1, g / S, AnyFree(total, l1, g / S), WhollyFree(total, l1, g / S))
    ensures L2Right(total, l0[g := sector], c2, sg)
  {
    var l0' := l0[g := sector];
    PutBit(c.l2NotFull, g / S, AnyFree(total, l0', g / S), sg);
    PutBit(c.l2AllFree, g / S, WhollyFree(total, l0', g / S), sg);
    assert L2Right(total, l0, c, sg);
    if sg != g / S {
      OtherSupers(total, l0, g, sector, sg);
    }
  }

  // ---- Marking sectors ----

  /** `new` is the map `was` with the sectors [a, b) marked. */
  ghost predicate MapMarked(total: nat, new': seq<Sector>, was: seq<Sector>, a: nat, b: nat, used: bool)
  {
    && |new'| == |was| == Groups(total)
    && forall s: nat :: s < total ==> Used(new', s) == if a <= s < b then used else Used(was, s)
  }

  lemma MarkedInTurn(total: nat, l2: seq<Sector>, l1: seq<Sector>, l0: seq<Sector>, a: nat, b: nat, c: nat, used: bool)
    requires a <= b <= c
    requires MapMarked(total, l1, l0, a, b, used) && MapMarked(total, l2, l1, b, c, used)
    ensures MapMarked(total, l2, l0, a, c, used)
  {
  }

  /** The bits of one sector that belong to the volume are filled in [lo, hi). */
  ghost predicate SectorMarked(size: nat, new': Sector, was: Sector, lo: nat, hi: nat, used: bool)
    requires size <= G
  {
    forall i: nat :: i < size ==> Bit(new', i) == if lo <= i < hi then used else Bit(was, i)
  }

  lemma MarkedInGroup(total: nat, l0: seq<Sector>, g: nat, sector: Sector, lo: nat, hi: nat, used: bool)
    requires |l0| == Groups(total) && g < Groups(total) && lo <= hi <= GroupSize(total, g)
    requires SectorMarked(GroupSize(total, g), sector, l0[g], lo, hi, used)
    ensures MapMarked(total, l0[g := sector], l0, g * G + lo, g * G + hi, used)
  {
    var l0' := l0[g := sector];
    forall s: nat | s < total
      ensures Used(l0', s) == if g * G + lo <= s < g * G + hi then used else Used(l0, s)
    {
      assert s == s / G * G + s % G;
      if s / G == g {
        assert s % G < GroupSize(total, g);
        assert Bit(sector, s % G) == if lo <= s % G < hi then used else Bit(l0[g], s % G);
      }
    }
  }

  /** Filling a range changes the free count by the number of transitions. */
  lemma FreeAfterFill(bs: Sector, cs: Sector, size: nat, lo: nat, hi: nat, used: bool)
    requires lo <= hi <= size <= G && SectorMarked(size, cs, bs, lo, hi, used)
    ensures var t := Count(bs, lo, hi, !used);
      Count(cs, 0, size, false) == if used then Count(bs, 0, size, false) - t else Count(bs, 0, size, false) + t
  {
    CountSplit(bs, 0, lo, size, false);
    CountSplit(bs, lo, hi, size, false);
    CountSplit(cs, 0, lo, size, false);
    CountSplit(cs, lo, hi, size, false);
    CountSame(bs, cs, 0, lo, false);
    CountSame(bs, cs, hi, size, false);
    CountComplement(bs, lo, hi);
    CountFull(cs, lo, hi, false);
    CountNone(cs, lo, hi, false);
  }

  /** A group whose bits were all written alike is wholly free or full. */
  lemma FilledSectorCount(total: nat, l0: seq<Sector>, g: nat, used: bool)
    requires |l0| == Groups(total) && g < Groups(total)
    requires l0[g] == seq(SECTOR_SIZE, i => if used then ONES else ZERO)
    ensures FreeIn(total, l0, g) == if used then 0 else GroupSize(total, g)
  {
    CountFull(l0[g], 0, GroupSize(total, g), false);
    CountNone(l0[g], 0, GroupSize(total, g), false);
  }

  // ---- Usage ----

  /** The number of used sectors among the first n. */
  function UsedSectors(total: nat, l0: seq<Sector>, n: nat): (r: nat)
    requires |l0| == Groups(total) && n <= total
  {
    if n == 0 then 0 else UsedSectors(total, l0, n - 1) + One(Used(l0, n - 1))
  }

  lemma {:induction false} GroupUsage(total: nat, l0: seq<Sector>, g: nat, n: nat)
    requires |l0| == Groups(total) && g < Groups(total) && n <= GroupSize(total, g)
    ensures UsedSectors(total, l0, g * G + n) + Count(l0[g], 0, n, false) == UsedSectors(total, l0, g * G) + n
    decreases n
  {
    if n > 0 {
      GroupUsage(total, l0, g, n - 1);
      assert (g * G + n - 1) / G == g && (g * G + n - 1) % G == n - 1;
    }
  }

  // ---- Deriving the bitsets from the counters ----

  predicate L1Derived(total: nat, c: Caches, g: nat)
    requires g < Groups(total) == |c.freeCount|
    requires Groups(total) <= 8 * |c.l1NotFull| && Groups(total) <= 8 * |c.l1AllFree|
  {
    && Bit(c.l1NotFull, g) == (c.freeCount[g] > 0)
    && Bit(c.l1AllFree, g) == (c.freeCount[g] == GroupSize(total, g))
  }

  predicate L2Derived(total: nat, c: Caches, sg: nat)
    requires |c.freeCount| == Groups(total) && Groups(total) <= 8 * |c.l1AllFree|
    requires sg < Supers(total) && Supers(total) <= 8 * |c.l2NotFull| && Supers(total) <= 8 * |c.l2AllFree|
  {
    Bit(c.l2NotFull, sg) == AnyCounted(total, c, sg) && Bit(c.l2AllFree, sg) == AllFlagged(total, c, sg)
  }

  /** The bitsets say what the counters say. */
  predicate Derived(total: nat, l0: seq<Sector>, c: Caches)
  {
    && Shaped(total, l0, c)
    && (forall g: nat :: g < Groups(total) ==> L1Derived(total, c, g))
    && (forall sg: nat :: sg < Supers(total) ==> L2Derived(total, c, sg))
  }

  /** Summaries whose bitsets follow the counters are right exactly when the counters are. */
  lemma DerivedCoherentIffCounts(total: nat, l0: seq<Sector>, c: Caches)
    requires Derived(total, l0, c)
    ensures Coherent(total, l0, c) <==> forall g: nat :: g < Groups(total) ==> c.freeCount[g] == FreeIn(total, l0, g)
  {
    if forall g: nat :: g < Groups(total) ==> c.freeCount[g] == FreeIn(total, l0, g) {
      forall g: nat | g < Groups(total) ensures L1Right(total, l0, c, g) {
        assert L1Derived(total, c, g);
      }
      forall sg: nat | sg < Supers(total) ensures L2Right(total, l0, c, sg) {
        assert L2Derived(total, c, sg);
        L1Speaks(total, l0, c, sg);
      }
    }
    if Coherent(total, l0, c) {
      forall g: nat | g < Groups(total) ensures c.freeCount[g] == FreeIn(total, l0, g) {
        assert L1Right(total, l0, c, g);
      }
    }
  }

  // ---- What a mark keeps, whatever the summaries say ----

  /** The bitsets go on following the counters. */
  lemma DerivedUpdated(total: nat, l0: seq<Sector>, c: Caches, g: nat, sector: Sector, n: nat)
    requires Derived(total, l0, c) && g < Groups(total)
    ensures Derived(total, l0[g := sector], Updated(total, c, g, n))
  {
    SuperOf(total, g);
    var c1, c2 := WithL1(total, c, g, n), Updated(total, c, g, n);
    forall h: nat | h < Groups(total) ensures L1Derived(total, c2, h) {
      PutBit(c.l1NotFull, g, n > 0, h);
      PutBit(c.l1AllFree, g, n == GroupSize(total, g), h);
      assert L1Derived(total, c, h);
    }
    forall sg: nat | sg < Supers(total) ensures L2Derived(total, c2, sg) {
      PutBit(c.l2NotFull, g / S, AnyCounted(total, c1, g / S), sg);
      PutBit(c.l2AllFree, g / S, AllFlagged(total, c1, g / S), sg);
      assert L2Derived(total, c, sg);
      if sg != g / S {
        OtherSupersSay(total, c, g, n, sg);
      }
    }
  }

  /** Another super-group reads the same off its L1 entries as before. */
  lemma OtherSupersSay(total: nat, c: Caches, g: nat, n: nat, sg: nat)
    requires g < Groups(total) == |c.freeCount| && sg != g / S
    requires Groups(total) <= 8 * |c.l1NotFull| && Groups(total) <= 8 * |c.l1AllFree|
    ensures AnyCounted(total, WithL1(total, c, g, n), sg) == AnyCounted(total, c, sg)
    ensures AllFlagged(total, WithL1(total, c, g, n), sg) == AllFlagged(total, c, sg)
  {
    var c1 := WithL1(total, c, g, n);
    forall h: nat | sg * S <= h < SuperEnd(total, sg)
      ensures c1.freeCount[h] == c.freeCount[h] && Bit(c1.l1AllFree, h) == Bit(c.l1AllFree, h)
    {
      assert h / S == sg;
      PutBit(c.l1AllFree, g, n == GroupSize(total, g), h);
    }
    if AnyCounted(total, c, sg) {
      var h: nat :| sg * S <= h < SuperEnd(total, sg) && c.freeCount[h] > 0;
      assert c1.freeCount[h] > 0;
    }
  }

  /** A group whose L1 entries are right keeps them right; the updated group's are right if its new
      counter is. */
  lemma L1RightUpdated(total: nat, l0: seq<Sector>, c: Caches, g: nat, sector: Sector, n: nat, h: nat)
    requires Shaped(total, l0, c) && g < Groups(total) && h < Groups(total)
    ensures if h == g then L1Right(total, l0[g := sector], Updated(total, c, g, n), h) <==>
                           n == FreeIn(total, l0[g := sector], g)
            else L1Right(total, l0[g := sector], Updated(total, c, g, n), h) <==> L1Right(total, l0, c, h)
  {
    SuperOf(total, g);
    PutBit(c.l1NotFull, g, n > 0, h);
    PutBit(c.l1AllFree, g, n == GroupSize(total, g), h);
  }

  /** The second state of map and summaries is as good as the first: the bitsets follow the counters
      if they did, every group whose entries were right still has right entries, and all summaries
      are right if all were. */
  ghost predicate Tracks(total: nat, l0: seq<Sector>, c: Caches, l1: seq<Sector>, d: Caches)
  {
    && Shaped(total, l0, c) && Shaped(total, l1, d)
    && (Derived(total, l0, c) ==> Derived(total, l1, d))
    && (forall h: nat :: h < Groups(total) && L1Right(total, l0, c, h) ==> L1Right(total, l1, d, h))
    && (Coherent(total, l0, c) ==> Coherent(total, l1, d))
  }

  lemma TracksInTurn(total: nat, l0: seq<Sector>, c: Caches, l1: seq<Sector>, d: Caches, l2: seq<Sector>, e: Caches)
    requires Tracks(total, l0, c, l1, d) && Tracks(total, l1, d, l2, e)
    ensures Tracks(total, l0, c, l2, e)
  {
  }

  /** One group's writes track, if a right counter stays right. */
  lemma UpdateTracks(total: nat, l0: seq<Sector>, c: Caches, g: nat, sector: Sector, n: nat)
    requires Shaped(total, l0, c) && g < Groups(total)
    requires c.freeCount[g] == FreeIn(total, l0, g) ==> n == FreeIn(total, l0[g := sector], g)
    ensures Tracks(total, l0, c, l0[g := sector], Updated(total, c, g, n))
  {
    SuperOf(total, g);
    if Derived(total, l0, c) {
      DerivedUpdated(total, l0, c, g, sector, n);
    }
    forall h: nat | h < Groups(total) && L1Right(total, l0, c, h)
      ensures L1Right(total, l0[g := sector], Updated(total, c, g, n), h)
    {
      L1RightUpdated(total, l0, c, g, sector, n, h);
    }
    if Coherent(total, l0, c) {
      assert L1Right(total, l0, c, g);
      GroupUpdated(total, l0, c, g, sector, n);
    }
  }

  /** By how much a counter is off. */
  function Off(fc: nat, free: nat): (n: nat)
  {
    if fc <= free then free - fc else fc - free
  }

  /** A counter that is adjusted by the sectors that changed gets no further off than it was: one that
      equals the free count of its group goes on doing so. */
  lemma AdjustedGetsNoFurtherOff(was: Sector, sector: Sector, size: nat, lo: nat, hi: nat, used: bool, fc: nat)
    requires lo <= hi <= size <= G && SectorMarked(size, sector, was, lo, hi, used) && fc <= size
    ensures var n := Adjusted(fc, Count(was, lo, hi, !used), size, used);
      Off(n, Count(sector, 0, size, false)) <= Off(fc, Count(was, 0, size, false))
  {
    FreeAfterFill(was, sector, size, lo, hi, used);
  }

  /** The counter of a group after `transitions` of its sectors changed. */
  function Adjusted(fc: nat, transitions: nat, size: nat, used: bool): (n: nat)
    requires fc <= size
    ensures n <= size
    ensures used ==> n + transitions == fc || (n == 0 && fc < transitions)
    ensures !used ==> n == fc + transitions || (n == size && size < fc + transitions)
  {
    if used then if fc >= transitions then fc - transitions else 0
    else fc + Min(transitions, size - fc)
  }
}
