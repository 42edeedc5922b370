/** The mounted volume of RetroFS and its operations on the free-space map
    (src/fs/retrofs/fsmap.c, src/fs/retrofs/helpers.c). */
module Volumes {
  import opened Powers
  import opened ByteBits
  import opened Bitset
  import opened FreeSpace
  import opened MapScan
  import opened Marking
  import opened Search
  import opened LargeSearch
  import opened Finding
  import opened BuildTally
  import opened BuildCounts
  import opened Devices

  const TWO64: nat := 0x1_0000_0000_0000_0000

  /** The length that rfs_mark_extent works with; the sum is taken in 64 bits. */
  function ClampedLength(total: nat, start: nat, length: nat): (n: int)
  {
    if (start + length) % TWO64 > total then total - start else length
  }

  /** The clamp keeps the extent inside the volume exactly when the sum does not wrap around. */
  lemma ClampHoldsIffNoWrap(total: nat, start: nat, length: nat)
    requires start < total < TWO64 && length < TWO64
    ensures start + ClampedLength(total, start, length) <= total <==> start + length < TWO64
    ensures start + length < TWO64 ==> ClampedLength(total, start, length) == Min(length, total - start)
  {
    assert start + length >= TWO64 ==> (start + length) % TWO64 == start + length - TWO64;
  }

  /** How many sectors one turn of the loop in rfs_mark_extent takes. */
  function Take(total: nat, pos: nat, rem: nat): (n: int)
  {
    var gStart := pos / G * G;
    var gEnd := if gStart + G <= total then gStart + G else total;
    if rem < gEnd - pos then rem else gEnd - pos
  }

  /** At the end of the volume a turn takes nothing and the loop does not get on. */
  lemma TakesNothingIffAtEnd(total: nat, pos: nat, rem: nat)
    requires pos <= total && rem > 0
    ensures 0 <= Take(total, pos, rem) <= Min(rem, total - pos)
    ensures Take(total, pos, rem) == 0 <==> pos == total
  {
  }

  /** The part of the extent [pos, pos + rem) that lies in one group: `take` bits from `lo` on. */
  method PieceOf(total: nat, pos: nat, rem: nat) returns (g: nat, lo: nat, take: nat, whole: bool)
    requires 0 < rem && pos < total
    ensures g < Groups(total) && pos == g * G + lo && lo + take <= GroupSize(total, g)
    ensures 0 < take <= rem
    ensures take < rem ==> pos + take == total || OnBorder(pos + take)
    ensures if whole then lo == 0 && take == GroupSize(total, g) else take < GroupSize(total, g)
  {
    g := pos / G;
    var gStart := g * G;
    var gEnd := if gStart + G <= total then gStart + G else total;
    var gSize := gEnd - gStart;
    var inGroup := gEnd - pos;
    TakesNothingIffAtEnd(total, pos, rem);
    take := if rem < inGroup then rem else inGroup;
    assert take == Take(total, pos, rem);
    lo := pos - gStart;
    whole := take == gSize;
  }

  /** The first sector of the map, which `rfs_format` puts at the end of the volume. */
  function MapStart(total: nat): (s: nat)
    ensures s + Groups(total) == total
  {
    total - Groups(total)
  }

  /** How rfs_mark_extent ends: it succeeds; it refuses its arguments; a transfer fails; a transfer is
      refused because it lies outside the volume; or it does not end. */
  datatype MarkResult = Marked | Refused | DeviceError | OutsideVolume | NeverReturns

  /** Used and free sectors of the first g groups add up. */
  ghost predicate UsageBefore(total: nat, l0: seq<Sector>, g: nat, free: nat)
    requires |l0| == Groups(total)
  {
    free + UsedSectors(total, l0, Min(g * G, total)) == Min(g * G, total)
  }

  lemma GroupEnd(total: nat, g: nat)
    requires g < Groups(total)
    ensures g * G <= total && Min((g + 1) * G, total) == g * G + GroupSize(total, g)
  {
  }

  lemma UsageNext(total: nat, l0: seq<Sector>, g: nat, free: nat)
    requires |l0| == Groups(total) && g < Groups(total) && UsageBefore(total, l0, g, free)
    ensures UsageBefore(total, l0, g + 1, free + FreeIn(total, l0, g))
  {
    GroupEnd(total, g);
    GroupUsage(total, l0, g, GroupSize(total, g));
  }

  /** All used and free sectors add up. */
  lemma {:induction false} UsageIsRest(total: nat, l0: seq<Sector>, g: nat)
    requires |l0| == Groups(total) && g <= Groups(total)
    ensures UsageBefore(total, l0, g, Sum(FreeCounts(total, l0), g))
    decreases g
  {
    if g > 0 {
      UsageIsRest(total, l0, g - 1);
      UsageNext(total, l0, g - 1, Sum(FreeCounts(total, l0), g - 1));
    }
  }

  lemma CountsInSync(total: nat, l0: seq<Sector>, c: Caches)
    requires Coherent(total, l0, c)
    ensures c.freeCount == FreeCounts(total, l0)
  {
    forall g: nat | g < Groups(total) ensures c.freeCount[g] == FreeCounts(total, l0)[g] {
      assert L1Right(total, l0, c, g);
    }
  }

  lemma FreeTotal(total: nat, l0: seq<Sector>)
    requires |l0| == Groups(total)
    ensures Sum(FreeCounts(total, l0), Groups(total)) + UsedSectors(total, l0, total) == total
  {
    UsageIsRest(total, l0, Groups(total));
  }

  /** What the counters together say about the usage. */
  lemma UsageFacts(total: nat, l0: seq<Sector>, c: Caches)
    requires |l0| == Groups(total) == |c.freeCount|
    ensures Coherent(total, l0, c) ==> Sum(c.freeCount, Groups(total)) + UsedSectors(total, l0, total) == total
    ensures c.freeCount == BuiltCounts(total, l0) ==>
      Sum(c.freeCount, Groups(total)) + UsedSectors(total, l0, total) <= total
  {
    FreeTotal(total, l0);
    BuiltNeverClaimsMore(total, l0);
    if Coherent(total, l0, c) {
      CountsInSync(total, l0, c);
    }
  }

  datatype Mark = Mark(start: nat, length: nat, used: bool)

  /** The state of sector s after the marks, of which the i-th reached `dones[i]` sectors. */
  predicate UsedAfter(marks: seq<Mark>, dones: seq<nat>, s: nat, was: bool)
    requires |dones| == |marks|
  {
    if marks == [] then was
    else
      var n := |marks| - 1;
      if marks[n].start <= s < marks[n].start + dones[n] then marks[n].used
      else UsedAfter(marks[..n], dones[..n], s, was)
  }

  /** Every sector of l1 is as the last of the marks that reached it left it, starting from l0. */
  ghost predicate AsMarked(total: nat, l0: seq<Sector>, l1: seq<Sector>, marks: seq<Mark>, dones: seq<nat>)
    requires |l0| == |l1| == Groups(total) && |dones| == |marks|
  {
    forall s: nat :: s < total ==> Used(l1, s) == UsedAfter(marks, dones, s, Used(l0, s))
  }

  /** Every mark ended as its own arguments say. */
  ghost predicate AllClamped(total: nat, marks: seq<Mark>, rs: seq<MarkResult>, dones: seq<nat>)
  {
    && |rs| == |dones| == |marks|
    && forall i: nat :: i < |rs| ==> IsClamped(total, marks[i], rs[i], dones[i])
  }

  /** Refused exactly for bad arguments; marked to its own end or that of the volume, unless the sum
      wraps or the device fails. */
  predicate IsClamped(total: nat, mark: Mark, r: MarkResult, done: nat)
  {
    && (r.Refused? <==> mark.length == 0 || mark.start >= total || MapStart(total) == 0)
    && (r.Refused? ==> done == 0)
    && (r.Marked? ==> mark.start + mark.length < TWO64 && done == Min(mark.length, total - mark.start))
    && (r.OutsideVolume? || r.NeverReturns? ==> WrapsTo(total, mark, r) && done == total - mark.start)
  }

  predicate WrapsTo(total: nat, mark: Mark, r: MarkResult)
  {
    mark.start + mark.length >= TWO64 && r == if total % G == 0 then OutsideVolume else NeverReturns
  }

  lemma OneMoreClamped(total: nat, marks: seq<Mark>, rs: seq<MarkResult>, dones: seq<nat>,
                       mark: Mark, r: MarkResult, done: nat)
    requires AllClamped(total, marks, rs, dones) && IsClamped(total, mark, r, done)
    ensures AllClamped(total, marks + [mark], rs + [r], dones + [done])
  {
  }

  ghost predicate NoneFailed(rs: seq<MarkResult>)
  {
    forall i: nat :: i < |rs| ==> !rs[i].DeviceError?
  }

  lemma OneMoreResult(rs: seq<MarkResult>, r: MarkResult)
    ensures NoneFailed(rs + [r]) <==> NoneFailed(rs) && !r.DeviceError?
  {
    assert (rs + [r])[|rs|] == r;
    if NoneFailed(rs + [r]) {
      forall i: nat | i < |rs| ensures !rs[i].DeviceError? {
        assert (rs + [r])[i] == rs[i];
      }
    }
  }

  lemma OneMoreMark(total: nat, l0: seq<Sector>, l1: seq<Sector>, l2: seq<Sector>, marks: seq<Mark>, dones: seq<nat>,
                    mark: Mark, done: nat)
    requires |l0| == |l1| == Groups(total) && |dones| == |marks| && AsMarked(total, l0, l1, marks, dones)
    requires MapMarked(total, l2, l1, mark.start, mark.start + done, mark.used)
    ensures AsMarked(total, l0, l2, marks + [mark], dones + [done])
  {
    assert (marks + [mark])[..|marks|] == marks && (dones + [done])[..|dones|] == dones;
  }

  /** What the answer of a search says, collected. */
  lemma FindFacts(total: nat, l0: seq<Sector>, c: Caches, need: nat, r: FindResult)
    requires Shaped(total, l0, c) && need > 0 && (r.IoError? || r == Answer(total, l0, c, need))
    ensures r.Found? ==> r.start + need <= total
    ensures r.Found? ==> (FreeExtent(total, l0, need, r.start) <==> AnswerTrusted(total, l0, c, need))
    ensures Coherent(total, l0, c) && need <= G && r.Found? ==>
      InGroupExtent(total, l0, need, r.start) && forall a: nat :: a < r.start ==> !InGroupExtent(total, l0, need, a)
    ensures Coherent(total, l0, c) && need <= G && r.NoSpace? ==> forall a: nat :: !InGroupExtent(total, l0, need, a)
    ensures Coherent(total, l0, c) && need > G && !r.IoError? ==> r == LargeAnswer(total, TrueSight(total, l0), need)
    ensures Coherent(total, l0, c) && need > G && r.Found? ==>
      var g := StopGroup(total, l0, need);
      g < Groups(total) && (FreeExtent(total, l0, need, r.start) <==> HonestTail(l0[g], GroupSize(total, g)))
  {
    if r.Found? {
      AnswerFreeIff(total, l0, c, need);
    }
    if Coherent(total, l0, c) {
      TrustedInSync(total, l0, c, need);
      if need <= G {
        SmallAnswerInSync(total, l0, c, need);
      } else {
        LargeAnswerInSync(total, l0, c, need);
      }
    }
  }

  class Volume {
    const total: nat            // total_sectors
    const dev: Device
    var l0: seq<Sector>         // the map sectors on the device
    var built: bool             // the summaries have been allocated
    var freeCount: seq<nat>
    var l1NotFull: seq<Byte>
    var l1AllFree: seq<Byte>
    var l2NotFull: seq<Byte>
    var l2AllFree: seq<Byte>

    ghost function Summaries(): (r: Caches)
      reads this
    {
      Caches(freeCount, l1NotFull, l1AllFree, l2NotFull, l2AllFree)
    }

    ghost predicate Valid()
      reads this
    {
      && total < TWO64 && |l0| == Groups(total)
      && (built ==> Shaped(total, l0, Summaries()) && CountsFit(total, freeCount))
    }

    /** The summaries equal those rebuilt from the map. */
    ghost predicate InSync()
      reads this
    {
      Coherent(total, l0, Summaries())
    }

    constructor (total: nat, l0: seq<Sector>)
      requires total < TWO64 && |l0| == Groups(total)
      ensures Valid() && !built && this.total == total && this.l0 == l0 && fresh(dev)
    {
      this.total := total;
      dev := new Device();
      this.l0 := l0;
      built := false;
      freeCount, l1NotFull, l1AllFree, l2NotFull, l2AllFree := [], [], [], [], [];
    }

    // ---- The device ----

    /** `rfs_read_device` for a map sector, which lies inside the volume. */
    method ReadMapSector(g: nat) returns (ok: bool, sector: Sector)
      requires Valid() && g < Groups(total)
      modifies dev
      ensures dev.faults == old(dev.faults) + if ok then 0 else 1
      ensures ok ==> sector == l0[g]
    {
      sector := l0[g];
      if MapStart(total) + g + 1 > total {
        assert false;  // the map ends the volume
      }
      ok := dev.Transfer();
    }

    /** `rfs_write_device` for map sector g: refused outside the volume, which is beyond the last
        group; otherwise it happens or fails without effect. */
    method WriteMapSector(g: nat, sector: Sector) returns (ok: bool)
      requires Valid()
      modifies this`l0, dev
      ensures ok ==> g < Groups(total)
      ensures dev.faults == old(dev.faults) + if ok || g >= Groups(total) then 0 else 1
      ensures l0 == if ok then old(l0)[g := sector] else old(l0)
    {
      if MapStart(total) + g + 1 > total {
        return false;
      }
      ok := dev.Transfer();
      if ok {
        l0 := l0[g := sector];
      }
    }

    // ---- Building the summaries ----

    /** `rfs_build_level_caches`.  The bitsets always follow the counters, but the counters, and
        with them all summaries, match the map exactly when no word with a free sector is booked
        past its own group. */
    method BuildLevelCaches() returns (ok: bool)
      requires Valid()
      modifies this`built, this`freeCount, this`l1NotFull, this`l1AllFree, this`l2NotFull, this`l2AllFree, dev
      ensures Valid() && built == ok
      ensures ok <==> dev.faults == old(dev.faults)
      ensures ok ==> IsBuilt(total, l0, Summaries())
    {
      var c;
      ok, c := BuildCaches(dev, total, l0);
      Publish(ok, c);
    }

    method Publish(ok: bool, c: Caches)
      modifies this`built, this`freeCount, this`l1NotFull, this`l1AllFree, this`l2NotFull, this`l2AllFree
      ensures built == ok && Summaries() == c
    {
      built, freeCount := ok, c.freeCount;
      l1NotFull, l1AllFree, l2NotFull, l2AllFree := c.l1NotFull, c.l1AllFree, c.l2NotFull, c.l2AllFree;
    }

    // ---- Marking ----

    /** `rfs_update_l2_for_group`. */
    method UpdateL2(g: nat)
      requires Valid() && built && g < Groups(total)
      modifies this`l2NotFull, this`l2AllFree
      ensures g / S < Supers(total)
      ensures Summaries() == var c := old(Summaries());
                WithL2(total, c, g / S, AnyCounted(total, c, g / S), AllFlagged(total, c, g / S))
    {
      SuperOf(total, g);
      var sg := g / S;
      var g0, g1 := sg * S, SuperEnd(total, sg);
      var anyFree, allFree := false, true;
      var gg := g0;
      while gg < g1
        invariant g0 <= gg <= g1
        invariant anyFree <==> exists h: nat :: g0 <= h < gg && freeCount[h] > 0
        invariant allFree <==> forall h: nat :: g0 <= h < gg ==> Bit(l1AllFree, h)
      {
        if freeCount[gg] > 0 {
          anyFree := true;
        }
        if !Bit(l1AllFree, gg) {
          allFree := false;
        }
        gg := gg + 1;
      }
      l2NotFull := Put(l2NotFull, sg, anyFree);
      l2AllFree := Put(l2AllFree, sg, allFree);
    }

    /** The L1 writes that follow a change of group g, then the L2 refresh. */
    method UpdateSummaries(g: nat, n: nat)
      requires Valid() && built && g < Groups(total) && n <= GroupSize(total, g)
      modifies this`freeCount, this`l1NotFull, this`l1AllFree, this`l2NotFull, this`l2AllFree
      ensures Valid() && Summaries() == Updated(total, old(Summaries()), g, n)
    {
      freeCount := freeCount[g := n];
      l1NotFull := Put(l1NotFull, g, n > 0);
      l1AllFree := Put(l1AllFree, g, n == GroupSize(total, g));
      UpdateL2(g);
    }

    /** The whole-group fast path: write all ones or all zeros without reading. */
    method MarkWholeGroup(g: nat, used: bool) returns (ok: bool)
      requires Valid() && built && g < Groups(total)
      modifies this, dev
      ensures dev.faults == old(dev.faults) + if ok then 0 else 1
      ensures Valid() && built
      ensures ok ==> l0 == old(l0)[g := Filled(used)] && Summaries() == WholeUpdated(total, old(Summaries()), g, used)
      ensures !ok ==> l0 == old(l0) && Summaries() == old(Summaries())
    {
      var sector: Sector := seq(SECTOR_SIZE, i => if used then ONES else ZERO);
      ok := WriteMapSector(g, sector);
      if ok {
        UpdateSummaries(g, if used then 0 else GroupSize(total, g));
      }
    }

    /** The partial-group path: read, modify the bits [lo, hi), write back if anything changed.  The
        counter moves by the number of sectors that changed, within the bounds of the group. */
    method MarkPartOfGroup(g: nat, lo: nat, hi: nat, used: bool) returns (ok: bool)
      requires Valid() && built && g < Groups(total) && lo <= hi <= GroupSize(total, g)
      modifies this, dev
      ensures dev.faults == old(dev.faults) + if ok then 0 else 1
      ensures Valid() && built
      ensures ok ==> PartWritten(total, old(l0), old(Summaries()), l0, Summaries(), g, lo, hi, used)
      ensures !ok ==> l0 == old(l0) && Summaries() == old(Summaries())
    {
      var was;
      ok, was := ReadMapSector(g);
      if !ok {
        return;
      }
      var sector, transitions := FillSector(was, GroupSize(total, g), lo, hi, used);
      if transitions > 0 {
        ok := WriteMapSector(g, sector);
        if !ok {
          return;
        }
        var fc := AdjustCounter(freeCount[g], transitions, GroupSize(total, g), used);
        UpdateSummaries(g, fc);
      } else {
        CountNone(was, lo, hi, !used);
      }
    }

    /** The marking of one piece, by either path. */
    method MarkPiece(g: nat, lo: nat, take: nat, whole: bool, used: bool, ghost a: nat, ghost b: nat) returns (ok: bool)
      requires Valid() && built && g < Groups(total) && lo + take <= GroupSize(total, g)
      requires if whole then lo == 0 && take == GroupSize(total, g) else take < GroupSize(total, g)
      requires a == g * G + lo && b == a + take
      modifies this, dev
      ensures dev.faults == old(dev.faults) + if ok then 0 else 1
      ensures Valid() && built
      ensures ok ==> IsMarked(total, old(l0), old(Summaries()), l0, Summaries(), a, b, used)
      ensures !ok ==> l0 == old(l0) && Summaries() == old(Summaries())
    {
      if whole {
        ok := MarkWholeGroup(g, used);
        if ok {
          WholeMarked(total, old(l0), old(Summaries()), l0, Summaries(), g, used, a, b);
        }
      } else {
        var hi := lo + take;
        ok := MarkPartOfGroup(g, lo, hi, used);
        if ok {
          PartMarked(total, old(l0), old(Summaries()), l0, Summaries(), g, lo, hi, used, a, b);
        }
      }
    }

    /** A turn of the loop inside the volume carries the mark on. */
    method MarkTurn(pos: nat, rem: nat, used: bool, ghost start: nat, ghost l: seq<Sector>, ghost c: Caches)
      returns (ok: bool, take: nat)
      requires Valid() && built && 0 < rem && start <= pos < total && (pos == start || OnBorder(pos))
      requires IsMarked(total, l, c, l0, Summaries(), start, pos, used)
      modifies this, dev
      ensures dev.faults == old(dev.faults) + if ok then 0 else 1
      ensures Valid() && built && 0 < take <= rem && pos + take <= total
      ensures take < rem ==> pos + take == total || OnBorder(pos + take)
      ensures IsMarked(total, l, c, l0, Summaries(), start, if ok then pos + take else pos, used)
    {
      ghost var l', c' := l0, Summaries();
      var g, lo, whole;
      g, lo, take, whole := PieceOf(total, pos, rem);
      var next := pos + take;
      ok := MarkPiece(g, lo, take, whole, used, pos, next);
      if ok {
        MarkedOn(total, l, c, l', c', l0, Summaries(), start, pos, next, used);
      }
    }

    /** A turn of the loop at the end of the volume, which takes no sector.  If the size of the volume
        is a multiple of the group size, the turn takes the fast path for a group of no sectors and
        its write is refused.  Otherwise it reads the last map sector and changes nothing; unless a
        read fails, the next turn is the same. */
    method TurnAtEnd(used: bool) returns (r: MarkResult)
      requires Valid() && built && 0 < total
      modifies this`l0, dev
      ensures dev.faults == old(dev.faults) + if r.DeviceError? then 1 else 0
      ensures l0 == old(l0)
      ensures r.DeviceError? || r == if total % G == 0 then OutsideVolume else NeverReturns
      ensures r.DeviceError? ==> total % G != 0
    {
      var g := total / G;
      if total % G == 0 {
        var ok := WriteMapSector(g, Filled(used));
        return OutsideVolume;
      }
      var ok, was := ReadMapSector(g);
      return if ok then NeverReturns else DeviceError;
    }

    /** The loop of rfs_mark_extent. */
    method MarkLoop(start: nat, len: nat, used: bool) returns (r: MarkResult, ghost done: nat)
      requires Valid() && built && start < total
      modifies this, dev
      ensures dev.faults >= old(dev.faults) && (r.DeviceError? <==> dev.faults > old(dev.faults))
      ensures Valid() && built
      ensures start + done <= total && done <= len
      ensures r.Marked? || r.DeviceError? || r == if total % G == 0 then OutsideVolume else NeverReturns
      ensures r.Marked? ==> done == len
      ensures r.OutsideVolume? || r.NeverReturns? ==> done == total - start < len
      ensures IsMarked(total, old(l0), old(Summaries()), l0, Summaries(), start, start + done, used)
    {
      ghost var l, c := l0, Summaries();
      NothingMarked(total, l, c, start, used);
      done := 0;
      var pos, rem := start, len;
      while rem > 0
        invariant Valid() && built
        invariant done <= len && pos == start + done <= total && rem == len - done
        invariant pos == start || pos == total || rem == 0 || OnBorder(pos)
        invariant IsMarked(total, l, c, l0, Summaries(), start, pos, used)
        invariant dev.faults == old(dev.faults)
        decreases total - pos, rem
      {
        if pos == total {
          r := TurnAtEnd(used);
          return;
        }
        var ok, take := MarkTurn(pos, rem, used, start, l, c);
        if !ok {
          return DeviceError, done;
        }
        done := done + take;
        pos, rem := pos + take, rem - take;
      }
      r := Marked;
    }

    /** `rfs_mark_extent`.  Whatever the device does, exactly the first `done` sectors of the extent
        are marked and the summaries track the map; `done` is the extent clamped to the volume on
        success, and there is a device error exactly when a transfer failed.  If start + length does
        not fit 64 bits the extent is not clamped: unless a transfer fails the code marks the volume
        to its end, and then it fails on a volume of a whole number of groups and does not return on
        any other. */
    method MarkExtent(start: nat, length: nat, used: bool) returns (r: MarkResult, ghost done: nat)
      requires Valid() && start < TWO64 && length < TWO64
      modifies this, dev
      ensures dev.faults >= old(dev.faults) && (r.DeviceError? <==> dev.faults > old(dev.faults))
      ensures Valid() && built == old(built)
      ensures r.Refused? <==> length == 0 || start >= total || !built || MapStart(total) == 0
      ensures r.Refused? ==> done == 0 && l0 == old(l0) && Summaries() == old(Summaries())
      ensures !r.Refused? ==> start + done <= total
      ensures !r.Refused? && start + length < TWO64 ==> r.Marked? || r.DeviceError?
      ensures !r.Refused? && start + length >= TWO64 ==>
        r.DeviceError? || r == if total % G == 0 then OutsideVolume else NeverReturns
      ensures r.Marked? ==> done == Min(length, total - start)
      ensures r.OutsideVolume? || r.NeverReturns? ==> done == total - start
      ensures built ==> IsMarked(total, old(l0), old(Summaries()), l0, Summaries(), start, start + done, used)
    {
      if length == 0 || MapStart(total) == 0 || !built || start >= total {
        if built {
          NothingMarked(total, l0, Summaries(), start, used);
        }
        return Refused, 0;
      }
      var len := length;
      if (start + length) % TWO64 > total {
        len := total - start;
      }
      ClampHoldsIffNoWrap(total, start, length);
      r, done := MarkLoop(start, len, used);
    }

    // ---- Searching ----

    /** One group of the search for a small extent. */
    method FindInGroup(g: nat, need: nat) returns (r: FindResult)
      requires Valid() && built && g < Groups(total) && 0 < need <= G
      requires g / S < Supers(total) && Bit(l2NotFull, g / S)
      modifies dev
      ensures dev.faults == old(dev.faults) + if r.IoError? then 1 else 0
      ensures !r.IoError? ==> var c := Summaries();
        r == if SmallHit(total, l0, c, need, g) then Found(SmallStart(total, l0, c, need, g)) else NoSpace
    {
      if !Bit(l1NotFull, g) {
        return NoSpace;
      }
      var gs := GroupSize(total, g);
      if Bit(l1AllFree, g) {
        if need <= gs {
          return Found(g * G);
        }
        return NoSpace;
      }
      var ok, buf := ReadMapSector(g);
      if !ok {
        return IoError;
      }
      var found, local := FindRunFrom(buf, gs, 0, need);
      if found {
        return Found(g * G + local);
      }
      return NoSpace;
    }

    /** Case A: the request fits in one group. */
    method FindSmall(need: nat) returns (r: FindResult)
      requires Valid() && built && 0 < need <= G
      modifies dev
      ensures dev.faults == old(dev.faults) + if r.IoError? then 1 else 0
      ensures !r.IoError? ==> r == SmallAnswer(total, l0, Summaries(), need)
    {
      ghost var c := Summaries();
      var sg := 0;
      while sg < Supers(total)
        invariant sg <= Supers(total) && dev.faults == old(dev.faults)
        invariant forall x: nat :: x < Min(sg * S, Groups(total)) ==> !SmallHit(total, l0, c, need, x)
      {
        if Bit(l2NotFull, sg) {
          var g := sg * S;
          while g < SuperEnd(total, sg)
            invariant sg * S <= g <= SuperEnd(total, sg) && dev.faults == old(dev.faults)
            invariant forall x: nat :: x < g ==> !SmallHit(total, l0, c, need, x)
          {
            assert g / S == sg;
            r := FindInGroup(g, need);
            if !r.NoSpace? {
              return;
            }
            g := g + 1;
          }
        } else {
          forall x: nat | sg * S <= x < SuperEnd(total, sg) ensures !SmallHit(total, l0, c, need, x) {
            assert x / S == sg;
          }
        }
        sg := sg + 1;
      }
      return NoSpace;
    }

    /** The free tail of group g as the search sees it: from the flags when they settle it, otherwise
        by reading the map. */
    method TailOf(g: nat) returns (ok: bool, tail: nat)
      requires Valid() && built && g < Groups(total)
      modifies dev
      ensures dev.faults == old(dev.faults) + if ok then 0 else 1
      ensures ok ==> tail == FlaggedTail(total, l0, Summaries(), g)
      ensures ok && Bit(l1AllFree, g) ==> tail == GroupSize(total, g)
      ensures ok && !Bit(l1AllFree, g) ==>
        tail == if Bit(l1NotFull, g) then SeenTail(l0[g], GroupSize(total, g)) else 0
    {
      var gs := GroupSize(total, g);
      if Bit(l1AllFree, g) {
        return true, gs;
      }
      if Bit(l1NotFull, g) {
        var read, buf := ReadMapSector(g);
        if !read {
          return false, 0;
        }
        tail := SuffixFree(buf, gs);
        return true, tail;
      }
      return true, 0;
    }

    /** The free head of the group that ends a chain, likewise. */
    method HeadOf(g: nat) returns (ok: bool, head: nat)
      requires Valid() && built && g < Groups(total)
      modifies dev
      ensures dev.faults == old(dev.faults) + if ok then 0 else 1
      ensures ok ==> head == FlaggedHead(total, l0, Summaries(), g)
      ensures ok && Bit(l1AllFree, g) ==> head == GroupSize(total, g)
      ensures ok && !Bit(l1AllFree, g) ==>
        head == if Bit(l1NotFull, g) then Head(l0[g], GroupSize(total, g)) else 0
    {
      var gs := GroupSize(total, g);
      if Bit(l1AllFree, g) {
        return true, gs;
      }
      if Bit(l1NotFull, g) {
        var read, buf := ReadMapSector(g);
        if !read {
          return false, 0;
        }
        head := PrefixFree(buf, gs);
        return true, head;
      }
      return true, 0;
    }

    /** Follow groups flagged as wholly free as long as more sectors are needed. */
    method FollowChain(g: nat, tail: nat, need: nat, ghost v: Sight) returns (gg: nat, collected: nat)
      requires Valid() && built && g < Groups(total) && SeenAs(total, l0, Summaries(), v)
      ensures (gg, collected) == Follow(total, v, need, g + 1, tail)
    {
      gg, collected := g + 1, tail;
      while collected < need && gg < Groups(total) && Bit(l1AllFree, gg)
        invariant gg <= Groups(total)
        invariant Follow(total, v, need, gg, collected) == Follow(total, v, need, g + 1, tail)
        decreases Groups(total) - gg
      {
        collected := collected + GroupSize(total, gg);
        gg := gg + 1;
      }
    }

    /** One starting group of the search for a large extent. */
    method FindFromGroup(g: nat, need: nat, ghost v: Sight) returns (r: FindResult)
      requires Valid() && built && g < Groups(total) && G < need && SeenAs(total, l0, Summaries(), v)
      modifies dev
      ensures dev.faults == old(dev.faults) + if r.IoError? then 1 else 0
      ensures !r.IoError? ==> r == if Reach(total, v, need, g, false) then Found(StartIn(total, v, g)) else NoSpace
    {
      var ok, tail := TailOf(g);
      if !ok {
        return IoError;
      }
      if tail == 0 {
        return NoSpace;
      }
      var start := g * G + (GroupSize(total, g) - tail);
      var gg, collected := FollowChain(g, tail, need, v);
      if collected >= need {
        return Found(start);
      }
      if need % G > 0 && gg < Groups(total) {
        var head;
        ok, head := HeadOf(gg);
        if !ok {
          return IoError;
        }
        if collected + head >= need {
          return Found(start);
        }
      }
      return NoSpace;
    }

    /** The groups of one super-group. */
    method FindInSuper(sg: nat, need: nat, ghost v: Sight) returns (r: FindResult, ghost g: nat)
      requires Valid() && built && sg < Supers(total) && G < need && SeenAs(total, l0, Summaries(), v)
      modifies dev
      ensures dev.faults == old(dev.faults) + if r.IoError? then 1 else 0
      ensures sg * S <= g <= SuperEnd(total, sg)
      ensures !r.IoError? ==> forall x: nat :: sg * S <= x < g ==> !Hit(total, v, need, x)
      ensures r.NoSpace? ==> g == SuperEnd(total, sg)
      ensures !r.IoError? && !r.NoSpace? ==>
        g < SuperEnd(total, sg) && Hit(total, v, need, g) && r == Found(StartIn(total, v, g))
    {
      OpenSuper(total, l0, Summaries(), v, sg);
      if !Bit(l2NotFull, sg) {
        return NoSpace, SuperEnd(total, sg);
      }
      var h := sg * S;
      while h < SuperEnd(total, sg)
        invariant sg * S <= h <= SuperEnd(total, sg) && dev.faults == old(dev.faults)
        invariant forall x: nat :: sg * S <= x < h ==> !Hit(total, v, need, x)
      {
        r := FindFromGroup(h, need, v);
        if !r.NoSpace? {
          return r, h;
        }
        h := h + 1;
      }
      return NoSpace, h;
    }

    /** Case B: the request spans groups. */
    method FindLarge(need: nat, ghost v: Sight) returns (r: FindResult)
      requires Valid() && built && G < need && SeenAs(total, l0, Summaries(), v)
      modifies dev
      ensures dev.faults == old(dev.faults) + if r.IoError? then 1 else 0
      ensures !r.IoError? ==> r == LargeAnswer(total, v, need)
    {
      var sg := 0;
      while sg < Supers(total)
        invariant sg <= Supers(total) && dev.faults == old(dev.faults)
        invariant forall x: nat :: x < Min(sg * S, Groups(total)) ==> !Hit(total, v, need, x)
      {
        ghost var g;
        r, g := FindInSuper(sg, need, v);
        if !r.NoSpace? {
          if r.Found? {
            FirstHitIs(total, v, need, g);
          }
          return;
        }
        sg := sg + 1;
      }
      FirstHitIs(total, v, need, Groups(total));
      return NoSpace;
    }

    /** `rfs_find_free_extent`: unless a read fails, the answer that the map and the summaries
        determine.  With any summaries an extent that is found is free exactly when the flags it
        relies on are right.  In sync, a small request gets the first extent inside a group, and no
        space exactly when there is none; a large one is answered from the group where the search
        stops, and is free exactly when the tail of that group is honest. */
    method FindFreeExtent(need: nat) returns (r: FindResult)
      requires Valid() && built
      modifies dev
      ensures dev.faults == old(dev.faults) + if r.IoError? then 1 else 0
      ensures r.IoError? ==> 0 < need <= total
      ensures !r.IoError? ==> r == Answer(total, l0, Summaries(), need)
      ensures r.Found? ==> r.start + need <= total
      ensures r.Found? ==> (FreeExtent(total, l0, need, r.start) <==> AnswerTrusted(total, l0, Summaries(), need))
      ensures InSync() && 0 < need <= G && r.Found? ==>
        InGroupExtent(total, l0, need, r.start) && forall a: nat :: a < r.start ==> !InGroupExtent(total, l0, need, a)
      ensures InSync() && 0 < need <= G && r.NoSpace? ==> forall a: nat :: !InGroupExtent(total, l0, need, a)
      ensures InSync() && need > G && !r.IoError? ==> r == LargeAnswer(total, TrueSight(total, l0), need)
      ensures InSync() && need > G && r.Found? ==>
        var g := StopGroup(total, l0, need);
        g < Groups(total) && (FreeExtent(total, l0, need, r.start) <==> HonestTail(l0[g], GroupSize(total, g)))
    {
      if need == 0 {
        return InvalidArg;
      }
      if need > total {
        r := NoSpace;
      } else if need <= G {
        r := FindSmall(need);
      } else {
        SightSeenAs(total, l0, Summaries());
        r := FindLarge(need, SightOf(total, l0, Summaries()));
      }
      FindFacts(total, l0, Summaries(), need, r);
    }

    // ---- Allocating ----

    /** The allocation that creating a file or a directory starts with: find an extent, then mark it
        used.  From any built state: exactly the extent is marked and the summaries track the map;
        the extent was free exactly when the flags that the search relied on were right, and then the
        usage grows by its length. */
    method Allocate(need: nat) returns (r: FindResult, ghost start: nat, ghost done: nat)
      requires Valid() && built
      modifies this, dev
      ensures Valid() && built
      ensures IsMarked(total, old(l0), old(Summaries()), l0, Summaries(), start, start + done, true)
      ensures dev.faults >= old(dev.faults)
      ensures var a := Answer(total, old(l0), old(Summaries()), need);
        r == if dev.faults > old(dev.faults) || (a.Found? && MapStart(total) == 0) then IoError else a
      ensures r.Found? ==> r.start == start && done == need && start + need <= total && need > 0
      ensures r.NoSpace? || r.InvalidArg? ==> done == 0
      ensures r.Found? ==>
        (FreeExtent(total, old(l0), need, r.start) <==> AnswerTrusted(total, old(l0), old(Summaries()), need))
      ensures r.Found? && AnswerTrusted(total, old(l0), old(Summaries()), need) ==>
        UsedSectors(total, l0, total) == UsedSectors(total, old(l0), total) + need
    {
      ghost var was := l0;
      start, done := 0, 0;
      NothingMarked(total, l0, Summaries(), 0, true);
      r := FindFreeExtent(need);
      if !r.Found? {
        return;
      }
      start := r.start;
      var m;
      m, done := MarkExtent(r.start, need, true);
      if !m.Marked? {
        r := IoError;
      } else if FreeExtent(total, was, need, start) {
        UsageBelow(total, l0, was, start, start + need, total);
      }
    }

    // ---- Runs of marks ----

    method MarkOne(mark: Mark) returns (r: MarkResult, ghost done: nat)
      requires Valid() && built && mark.start < TWO64 && mark.length < TWO64
      modifies this, dev
      ensures dev.faults >= old(dev.faults) && (r.DeviceError? <==> dev.faults > old(dev.faults))
      ensures Valid() && built && Tracks(total, old(l0), old(Summaries()), l0, Summaries())
      ensures IsClamped(total, mark, r, done)
      ensures MapMarked(total, l0, old(l0), mark.start, mark.start + done, mark.used)
    {
      r, done := MarkExtent(mark.start, mark.length, mark.used);
    }

    /** Any sequence of marks, some of which may fail half-way: the summaries track the map
        throughout, and every sector is as the last mark that reached it left it.  A mark that does
        not return is the last. */
    method MarkAll(marks: seq<Mark>) returns (rs: seq<MarkResult>, ghost dones: seq<nat>)
      requires Valid() && built
      requires forall i: nat :: i < |marks| ==> marks[i].start < TWO64 && marks[i].length < TWO64
      modifies this, dev
      ensures dev.faults == old(dev.faults) <==> NoneFailed(rs)
      ensures Valid() && built && Tracks(total, old(l0), old(Summaries()), l0, Summaries())
      ensures |rs| == |dones| <= |marks|
      ensures |rs| < |marks| ==> rs != [] && rs[|rs| - 1].NeverReturns?
      ensures AllClamped(total, marks[..|rs|], rs, dones)
      ensures AsMarked(total, old(l0), l0, marks[..|rs|], dones)
    {
      ghost var l, c := l0, Summaries();
      rs, dones := [], [];
      for i := 0 to |marks|
        invariant Valid() && built && Tracks(total, l, c, l0, Summaries())
        invariant dev.faults >= old(dev.faults)
        invariant |rs| == |dones| == i
        invariant dev.faults == old(dev.faults) <==> NoneFailed(rs)
        invariant AllClamped(total, marks[..i], rs, dones)
        invariant AsMarked(total, l, l0, marks[..i], dones)
      {
        ghost var done, was, before := 0, l0, Summaries();
        var r;
        r, done := MarkOne(marks[i]);
        TracksInTurn(total, l, c, was, before, l0, Summaries());
        OneMoreMark(total, l, was, l0, marks[..i], dones, marks[i], done);
        OneMoreResult(rs, r);
        OneMoreClamped(total, marks[..i], rs, dones, marks[i], r, done);
        assert marks[..i] + [marks[i]] == marks[..i + 1];
        rs, dones := rs + [r], dones + [done];
        if r.NeverReturns? {
          return;
        }
      }
    }

    // ---- Usage ----

    /** `rfs_get_used_bytes`: the sectors that no counter calls free; with the summaries in sync,
        the exact number of used bytes, and after a build, even one that spilled, never less.  The
        defensive clamp never acts. */
    method UsedBytes() returns (bytes: nat)
      requires Valid() && built
      ensures Sum(freeCount, Groups(total)) <= total
      ensures bytes == (total - Sum(freeCount, Groups(total))) * SECTOR_SIZE
      ensures InSync() ==> bytes == UsedSectors(total, l0, total) * SECTOR_SIZE
      ensures freeCount == BuiltCounts(total, l0) ==> bytes >= UsedSectors(total, l0, total) * SECTOR_SIZE
    {
      var freeSecs := 0;
      var g := 0;
      while g < Groups(total)
        invariant g <= Groups(total) && freeSecs == Sum(freeCount, g) <= Min(g * G, total)
      {
        GroupEnd(total, g);
        freeSecs := freeSecs + freeCount[g];
        g := g + 1;
      }
      if freeSecs > total {
        freeSecs := total;
      }
      bytes := (total - freeSecs) * SECTOR_SIZE;
      UsageFacts(total, l0, Summaries());
    }
  }
}
