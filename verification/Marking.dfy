/** What marking a stretch of sectors does to the map and to its summaries, piece by piece
    (src/fs/retrofs/fsmap.c:243-323). */
module Marking {
  import opened Powers
  import opened ByteBits
  import opened Bitset
  import opened FreeSpace

  /** From (l0, c) to (l1, d) exactly the sectors [a, b) were marked: the summaries track the map,
      the entries of every group inside [a, b) are right, whatever they were, and the counters of
      the groups outside are untouched. */
  ghost predicate IsMarked(total: nat, l0: seq<Sector>, c: Caches, l1: seq<Sector>, d: Caches,
                           a: nat, b: nat, used: bool)
  {
    && Tracks(total, l0, c, l1, d) && MapMarked(total, l1, l0, a, b, used)
    && RightWithin(total, l1, d, a, b) && SameOutside(total, c, d, a, b)
  }

  ghost predicate RightWithin(total: nat, l0: seq<Sector>, c: Caches, a: nat, b: nat)
    requires Shaped(total, l0, c)
  {
    forall h: nat :: h < Groups(total) && a <= h * G && EndOf(total, h) <= b ==> L1Right(total, l0, c, h)
  }

  ghost predicate SameOutside(total: nat, c: Caches, d: Caches, a: nat, b: nat)
    requires |c.freeCount| == |d.freeCount| == Groups(total)
  {
    forall h: nat :: h < Groups(total) && (EndOf(total, h) <= a || b <= h * G) ==> d.freeCount[h] == c.freeCount[h]
  }

  lemma NothingMarked(total: nat, l0: seq<Sector>, c: Caches, a: nat, used: bool)
    requires Shaped(total, l0, c)
    ensures IsMarked(total, l0, c, l0, c, a, a, used)
  {
  }

  predicate OnBorder(m: nat)
  {
    m % G == 0
  }

  /** Two marks in a row make one, if the second begins with a group. */
  lemma MarkedOn(total: nat, l0: seq<Sector>, c: Caches, l1: seq<Sector>, d: Caches, l2: seq<Sector>, e: Caches,
                 a: nat, m: nat, b: nat, used: bool)
    requires a <= m <= b && (a == m || OnBorder(m))
    requires IsMarked(total, l0, c, l1, d, a, m, used) && IsMarked(total, l1, d, l2, e, m, b, used)
    ensures IsMarked(total, l0, c, l2, e, a, b, used)
  {
    MarkedInTurn(total, l2, l1, l0, a, m, b, used);
    forall h: nat | h < Groups(total) && a <= h * G && EndOf(total, h) <= b ensures L1Right(total, l2, e, h) {
      GroupSplit(total, h, a, m);
      if EndOf(total, h) <= m {
        assert L1Right(total, l1, d, h);
      }
    }
    forall h: nat | h < Groups(total) && (EndOf(total, h) <= a || b <= h * G)
      ensures e.freeCount[h] == c.freeCount[h]
    {
      assert d.freeCount[h] == c.freeCount[h];
    }
  }

  /** A group border does not lie inside a group. */
  lemma GroupSplit(total: nat, h: nat, a: nat, m: nat)
    requires h < Groups(total) && a <= h * G && (a == m || OnBorder(m))
    ensures EndOf(total, h) <= m || m <= h * G
  {
    if h * G < m {
      assert m / G >= h + 1;
    }
  }

  /** The sector that the whole-group path writes. */
  function Filled(used: bool): (sector: Sector)
  {
    seq(SECTOR_SIZE, i => if used then ONES else ZERO)
  }

  /** The summaries after the whole-group path: the counter is set without looking. */
  function WholeUpdated(total: nat, c: Caches, g: nat, used: bool): (d: Caches)
    requires g < Groups(total) == |c.freeCount|
    requires Groups(total) <= 8 * |c.l1NotFull| && Groups(total) <= 8 * |c.l1AllFree|
    requires Supers(total) <= 8 * |c.l2NotFull| && Supers(total) <= 8 * |c.l2AllFree|
  {
    Updated(total, c, g, if used then 0 else GroupSize(total, g))
  }

  /** That path makes the entries of the group right, whatever they were. */
  lemma WholeMarked(total: nat, l0: seq<Sector>, c: Caches, l1: seq<Sector>, d: Caches, g: nat, used: bool,
                    a: nat, b: nat)
    requires Shaped(total, l0, c) && g < Groups(total) && a == g * G && b == EndOf(total, g)
    requires l1 == l0[g := Filled(used)] && d == WholeUpdated(total, c, g, used)
    ensures IsMarked(total, l0, c, l1, d, a, b, used)
  {
    var n := if used then 0 else GroupSize(total, g);
    FilledSectorMarked(GroupSize(total, g), l0[g], used);
    MarkedInGroup(total, l0, g, Filled(used), 0, GroupSize(total, g), used);
    FilledSectorCount(total, l1, g, used);
    UpdateTracks(total, l0, c, g, Filled(used), n);
    L1RightUpdated(total, l0, c, g, Filled(used), n, g);
    OneGroupWithin(total, g);
  }

  lemma FilledSectorMarked(size: nat, was: Sector, used: bool)
    requires size <= G
    ensures SectorMarked(size, Filled(used), was, 0, size, used)
  {
  }

  lemma OneGroupWithin(total: nat, g: nat)
    requires g < Groups(total)
    ensures forall h: nat :: h < Groups(total) && g * G <= h * G && EndOf(total, h) <= EndOf(total, g) ==> h == g
  {
  }

  /** The partial path: the counter moves by the number of sectors that changed. */
  lemma PartOfGroupMarked(total: nat, l0: seq<Sector>, c: Caches, g: nat, sector: Sector, lo: nat, hi: nat, used: bool)
    requires Shaped(total, l0, c) && g < Groups(total) && c.freeCount[g] <= GroupSize(total, g)
    requires lo <= hi <= GroupSize(total, g) && hi - lo < GroupSize(total, g)
    requires SectorMarked(GroupSize(total, g), sector, l0[g], lo, hi, used)
    ensures var n := Adjusted(c.freeCount[g], Count(l0[g], lo, hi, !used), GroupSize(total, g), used);
      IsMarked(total, l0, c, l0[g := sector], Updated(total, c, g, n), g * G + lo, g * G + hi, used)
  {
    var n := Adjusted(c.freeCount[g], Count(l0[g], lo, hi, !used), GroupSize(total, g), used);
    MarkedInGroup(total, l0, g, sector, lo, hi, used);
    AdjustedGetsNoFurtherOff(l0[g], sector, GroupSize(total, g), lo, hi, used, c.freeCount[g]);
    UpdateTracks(total, l0, c, g, sector, n);
    NoGroupWithin(total, g, lo, hi);
  }

  lemma NoGroupWithin(total: nat, g: nat, lo: nat, hi: nat)
    requires g < Groups(total) && lo <= hi <= GroupSize(total, g) && hi - lo < GroupSize(total, g)
    ensures forall h: nat :: h < Groups(total) && g * G + lo <= h * G ==> EndOf(total, h) > g * G + hi
  {
    forall h: nat | h < Groups(total) && g * G + lo <= h * G ensures EndOf(total, h) > g * G + hi {
      if h == g {
        assert lo == 0;
      } else {
        assert h > g;
      }
    }
  }

  /** If no sector changes its state nothing is written. */
  lemma NoTransitions(total: nat, l0: seq<Sector>, c: Caches, g: nat, lo: nat, hi: nat, used: bool)
    requires Shaped(total, l0, c) && g < Groups(total) && lo <= hi <= GroupSize(total, g)
    requires hi - lo < GroupSize(total, g) && Count(l0[g], lo, hi, !used) == 0
    ensures IsMarked(total, l0, c, l0, c, g * G + lo, g * G + hi, used)
  {
    CountNone(l0[g], lo, hi, !used);
    assert SectorMarked(GroupSize(total, g), l0[g], l0[g], lo, hi, used);
    MarkedInGroup(total, l0, g, l0[g], lo, hi, used);
    assert l0[g := l0[g]] == l0;
    NoGroupWithin(total, g, lo, hi);
  }

  /** The summaries after the partial path. */
  function PartUpdated(total: nat, c: Caches, g: nat, t: nat, used: bool): (d: Caches)
    requires g < Groups(total) == |c.freeCount| && c.freeCount[g] <= GroupSize(total, g)
    requires Groups(total) <= 8 * |c.l1NotFull| && Groups(total) <= 8 * |c.l1AllFree|
    requires Supers(total) <= 8 * |c.l2NotFull| && Supers(total) <= 8 * |c.l2AllFree|
  {
    if t == 0 then c else Updated(total, c, g, Adjusted(c.freeCount[g], t, GroupSize(total, g), used))
  }

  /** What the partial path writes: nothing if no sector changes its state. */
  ghost predicate PartWritten(total: nat, l0: seq<Sector>, c: Caches, l1: seq<Sector>, d: Caches,
                              g: nat, lo: nat, hi: nat, used: bool)
  {
    && Shaped(total, l0, c) && g < Groups(total) == |l1| && lo <= hi <= GroupSize(total, g)
    && c.freeCount[g] <= GroupSize(total, g)
    && SectorMarked(GroupSize(total, g), l1[g], l0[g], lo, hi, used)
    && var t := Count(l0[g], lo, hi, !used);
       && l1 == (if t == 0 then l0 else l0[g := l1[g]])
       && d == PartUpdated(total, c, g, t, used)
  }

  lemma PartMarked(total: nat, l0: seq<Sector>, c: Caches, l1: seq<Sector>, d: Caches, g: nat, lo: nat, hi: nat,
                   used: bool, a: nat, b: nat)
    requires PartWritten(total, l0, c, l1, d, g, lo, hi, used) && hi - lo < GroupSize(total, g)
    requires a == g * G + lo && b == g * G + hi
    ensures IsMarked(total, l0, c, l1, d, a, b, used)
  {
    if Count(l0[g], lo, hi, !used) == 0 {
      NoTransitions(total, l0, c, g, lo, hi, used);
    } else {
      PartOfGroupMarked(total, l0, c, g, l1[g], lo, hi, used);
    }
  }

  /** The byte loop on a copy of the map sector. */
  method FillSector(was: Sector, size: nat, lo: nat, hi: nat, used: bool) returns (sector: Sector, transitions: nat)
    requires lo <= hi <= size <= G
    ensures SectorMarked(size, sector, was, lo, hi, used)
    ensures transitions == Count(was, lo, hi, !used)
  {
    var buf := new Byte[SECTOR_SIZE](i requires 0 <= i < SECTOR_SIZE => was[i]);
    assert buf[..] == was;
    transitions := FillRange(buf, lo, hi, used);
    sector := buf[..];
  }

  /** The counter that the partial path writes. */
  method AdjustCounter(fc: nat, transitions: nat, size: nat, used: bool) returns (n: nat)
    requires fc <= size
    ensures used ==> n + transitions == fc || (n == 0 && fc < transitions)
    ensures !used ==> n == fc + transitions || (n == size && size < fc + transitions)
    ensures n == Adjusted(fc, transitions, size, used)
  {
    n := fc;
    if used {
      n := if n >= transitions then n - transitions else 0;
    } else {
      var room := size - n;
      n := n + Min(transitions, room);
    }
  }
}
