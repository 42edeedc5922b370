/** What rfs_find_free_extent answers, as a function of the map and the summaries, and when that
    answer is right (src/fs/retrofs/fsmap.c:481-632). */
module Finding {
  import opened ByteBits
  import opened Bitset
  import opened FreeSpace
  import opened Marking
  import opened MapScan
  import opened Search
  import opened LargeSearch
  import opened BuildTally

  datatype FindResult = Found(start: nat) | NoSpace | IoError | InvalidArg

  function SmallAnswer(total: nat, l0: seq<Sector>, c: Caches, need: nat): (r: FindResult)
    requires Shaped(total, l0, c) && need > 0
  {
    var g := FirstSmallHit(total, l0, c, need, 0);
    if g == Groups(total) then NoSpace else Found(SmallStart(total, l0, c, need, g))
  }

  function LargeAnswer(total: nat, v: Sight, need: nat): (r: FindResult)
    requires SightOk(total, v)
  {
    var g := FirstHit(total, v, need, 0);
    if g == Groups(total) then NoSpace else Found(StartIn(total, v, g))
  }

  /** The answer if no read fails. */
  function Answer(total: nat, l0: seq<Sector>, c: Caches, need: nat): (r: FindResult)
    requires Shaped(total, l0, c)
  {
    if need == 0 then InvalidArg
    else if need > total then NoSpace
    else if need <= G then SmallAnswer(total, l0, c, need)
    else LargeAnswer(total, SightOf(total, l0, c), need)
  }

  /** The flags that the answer relies on are right as far as it relies on them: for a small request
      the flag of the group, about the first `need` sectors; for a large one the flag or the
      scanned tail of the group where it starts, and the flags of the groups it runs through. */
  predicate AnswerTrusted(total: nat, l0: seq<Sector>, c: Caches, need: nat)
    requires Shaped(total, l0, c) && need > 0
  {
    if need <= G then
      var g := FirstSmallHit(total, l0, c, need, 0);
      g < Groups(total) && Bit(c.l1AllFree, g) ==> need <= Head(l0[g], GroupSize(total, g))
    else
      var v := SightOf(total, l0, c);
      var g := FirstHit(total, v, need, 0);
      g < Groups(total) ==> TailTrusted(total, l0, c, g) && FlagsTrusted(total, l0, c, g, StartIn(total, v, g) + need)
  }

  /** The groups after g that are flagged as wholly free are free up to b. */
  predicate FlagsTrusted(total: nat, l0: seq<Sector>, c: Caches, g: nat, b: nat)
    requires Shaped(total, l0, c)
  {
    forall h: nat :: g < h < Groups(total) && Bit(c.l1AllFree, h) ==> PartFree(total, l0, h, b)
  }

  /** With any summaries, an extent that is found lies in the volume, and is free exactly when the
      flags it relies on are right. */
  lemma AnswerFreeIff(total: nat, l0: seq<Sector>, c: Caches, need: nat)
    requires Shaped(total, l0, c) && Answer(total, l0, c, need).Found?
    ensures var a := Answer(total, l0, c, need).start;
      a + need <= total && (FreeExtent(total, l0, need, a) <==> AnswerTrusted(total, l0, c, need))
  {
    if need <= G {
      SmallFreeIff(total, l0, c, need, FirstSmallHit(total, l0, c, need, 0));
    } else {
      var v := SightOf(total, l0, c);
      var g := FirstHit(total, v, need, 0);
      ReachFits(total, v, need, g, false);
      FoundFreeIff(total, l0, c, need, g);
    }
  }

  /** In sync the flags are right, and all that can be wrong is a tail the scan misjudges: the answer
      is to be trusted exactly when the request fits a group, or the group where the search stops
      has an honest tail. */
  lemma TrustedInSync(total: nat, l0: seq<Sector>, c: Caches, need: nat)
    requires Coherent(total, l0, c) && need > 0
    ensures AnswerTrusted(total, l0, c, need) <==>
      || need <= G
      || var g := StopGroup(total, l0, need); g < Groups(total) ==> HonestTail(l0[g], GroupSize(total, g))
  {
    if need <= G {
      var g := FirstSmallHit(total, l0, c, need, 0);
      if g < Groups(total) {
        assert L1Right(total, l0, c, g);
        NothingNoticed(l0[g], GroupSize(total, g));
      }
    } else {
      SightInSync(total, l0, c);
      var g := StopGroup(total, l0, need);
      if g < Groups(total) {
        FoundFreeIff(total, l0, c, need, g);
        FoundFreeIffHonest(total, l0, need, g);
      }
    }
  }

  /** In sync a large request is answered from the map alone, also when it exceeds the volume. */
  lemma LargeAnswerInSync(total: nat, l0: seq<Sector>, c: Caches, need: nat)
    requires Coherent(total, l0, c) && need > G
    ensures Answer(total, l0, c, need) == LargeAnswer(total, TrueSight(total, l0), need)
  {
    SightInSync(total, l0, c);
    if need > total {
      var v := TrueSight(total, l0);
      var g := FirstHit(total, v, need, 0);
      assert g < Groups(total) ==> StartIn(total, v, g) + need <= total by {
        if g < Groups(total) {
          ReachFits(total, v, need, g, false);
        }
      }
    }
  }

  /** In sync a small request gets the first extent inside a group, and no space exactly when there
      is none. */
  lemma SmallAnswerInSync(total: nat, l0: seq<Sector>, c: Caches, need: nat)
    requires Coherent(total, l0, c) && 0 < need <= G
    ensures match Answer(total, l0, c, need)
      case Found(b) =>
        InGroupExtent(total, l0, need, b) && forall a: nat :: a < b ==> !InGroupExtent(total, l0, need, a)
      case _ => Answer(total, l0, c, need) == NoSpace && forall a: nat :: !InGroupExtent(total, l0, need, a)
  {
    SmallSearchInSync(total, l0, c, need);
  }

  // ---- The map as the flags present it ----

  /** Group g as a small search takes it: full if either level flags it so, free if it is flagged
      as wholly free, and otherwise as the map has it. */
  function PresentedGroup(total: nat, l0: seq<Sector>, c: Caches, g: nat): (r: Sector)
    requires Shaped(total, l0, c) && g < Groups(total)
  {
    SuperOf(total, g);
    if !Bit(c.l2NotFull, g / S) || !Bit(c.l1NotFull, g) then Filled(true)
    else if Bit(c.l1AllFree, g) then Filled(false)
    else l0[g]
  }

  function Presented(total: nat, l0: seq<Sector>, c: Caches): (r: seq<Sector>)
    requires Shaped(total, l0, c)
  {
    seq(Groups(total), g requires 0 <= g < Groups(total) => PresentedGroup(total, l0, c, g))
  }

  lemma RunInFilled(used: bool, n: nat, need: nat)
    requires 0 < need && n <= G
    ensures used ==> forall i: nat :: !RunAt(Filled(used), n, need, i)
    ensures !used && need <= n ==> RunAt(Filled(used), n, need, 0)
    ensures !used && n < need ==> forall i: nat :: !RunAt(Filled(used), n, need, i)
  {
    assert forall i: nat :: i < n ==> Bit(Filled(used), i) == used;
    forall i: nat | used && i < n ensures !RunAt(Filled(used), n, need, i) {
      assert Bit(Filled(used), i);
    }
  }

  /** The search stops in a group exactly when the presented group has a run, at its first one. */
  lemma HitIsPresentedRun(total: nat, l0: seq<Sector>, c: Caches, need: nat, g: nat)
    requires Shaped(total, l0, c) && g < Groups(total) && need > 0
    ensures var buf, n := PresentedGroup(total, l0, c, g), GroupSize(total, g);
      && (SmallHit(total, l0, c, need, g) <==> exists i: nat :: RunAt(buf, n, need, i))
      && (SmallHit(total, l0, c, need, g) ==>
            SmallStart(total, l0, c, need, g) == g * G + FirstRun(buf, n, need, 0))
  {
    SuperOf(total, g);
    RunInFilled(true, GroupSize(total, g), need);
    RunInFilled(false, GroupSize(total, g), need);
  }

  /** Before the hit of a group, and in a group without one, the presented map has no extent. */
  lemma PresentedInGroup(total: nat, l0: seq<Sector>, c: Caches, p: seq<Sector>, need: nat, a: nat)
    requires Shaped(total, l0, c) && p == Presented(total, l0, c) && need > 0 && a < total
    ensures var g := a / G;
      InGroupExtent(total, p, need, a) ==> SmallHit(total, l0, c, need, g) && SmallStart(total, l0, c, need, g) <= a
  {
    var g := a / G;
    RunIsExtent(total, p, need, g, a % G);
    HitIsPresentedRun(total, l0, c, need, g);
  }

  lemma HitInPresented(total: nat, l0: seq<Sector>, c: Caches, p: seq<Sector>, need: nat, g: nat)
    requires Shaped(total, l0, c) && p == Presented(total, l0, c) && need > 0
    requires g < Groups(total) && SmallHit(total, l0, c, need, g)
    ensures InGroupExtent(total, p, need, SmallStart(total, l0, c, need, g))
  {
    HitIsPresentedRun(total, l0, c, need, g);
    RunIsExtent(total, p, need, g, FirstRun(p[g], GroupSize(total, g), need, 0));
  }

  /** With any summaries, a small request gets the first in-group extent of the presented map, and no
      space exactly when that has none. */
  lemma SmallAnswerPresented(total: nat, l0: seq<Sector>, c: Caches, need: nat)
    requires Shaped(total, l0, c) && 0 < need <= G
    ensures var p, r := Presented(total, l0, c), Answer(total, l0, c, need);
      match r
      case Found(b) =>
        InGroupExtent(total, p, need, b) && forall a: nat :: a < b ==> !InGroupExtent(total, p, need, a)
      case _ => r == NoSpace && forall a: nat :: !InGroupExtent(total, p, need, a)
  {
    var p := Presented(total, l0, c);
    var h := FirstSmallHit(total, l0, c, need, 0);
    var b := if h < Groups(total) then SmallStart(total, l0, c, need, h) else total;
    if h < Groups(total) {
      SmallFreeIff(total, l0, c, need, h);
      HitInPresented(total, l0, c, p, need, h);
    }
    forall a: nat | a < b ensures !InGroupExtent(total, p, need, a) {
      PresentedInGroup(total, l0, c, p, need, a);
    }
  }

  // ---- When a small search agrees with a plain scan ----

  ghost predicate SomeInGroup(total: nat, l0: seq<Sector>, need: nat)
    requires |l0| == Groups(total)
  {
    exists a: nat :: InGroupExtent(total, l0, need, a)
  }

  /** In sync, a small search finds an extent whenever a plain scan does exactly when some group has a
      long enough run or no group border has one across it. */
  lemma SmallAgreesIff(total: nat, l0: seq<Sector>, c: Caches, need: nat)
    requires Coherent(total, l0, c) && 0 < need <= G
    ensures (Answer(total, l0, c, need).Found? <==> SomeExtent(total, l0, need)) <==>
      SomeInGroup(total, l0, need) || forall g: nat :: !AcrossBorder(total, l0, need, g)
  {
    SmallAnswerInSync(total, l0, c, need);
    if SomeInGroup(total, l0, need) {
      var a: nat :| InGroupExtent(total, l0, need, a);
      assert FreeExtent(total, l0, need, a);
    } else if SomeExtent(total, l0, need) {
      var a: nat :| FreeExtent(total, l0, need, a);
      ExtentIsInGroupOrAcross(total, l0, need, a);
    } else if g: nat :| AcrossBorder(total, l0, need, g) {
      AcrossIsExtent(total, l0, need, g);
    }
  }

  /** So it always agrees for a single sector, and whenever a free stretch of 2 * need - 1 sectors
      exists, since a border leaves `need` of them on one side. */
  lemma SmallAgreesWithRoom(total: nat, l0: seq<Sector>, c: Caches, need: nat)
    requires Coherent(total, l0, c) && 0 < need <= G && SomeExtent(total, l0, 2 * need - 1)
    ensures Answer(total, l0, c, need).Found?
  {
    var a: nat :| FreeExtent(total, l0, 2 * need - 1, a);
    SmallAnswerInSync(total, l0, c, need);
    OneSideHasRoom(total, l0, need, a);
  }

  lemma OneSideHasRoom(total: nat, l0: seq<Sector>, need: nat, a: nat)
    requires |l0| == Groups(total) && 0 < need <= G && FreeExtent(total, l0, 2 * need - 1, a)
    ensures SomeInGroup(total, l0, need)
  {
    var m := (a / G + 1) * G;
    if a % G + need <= G {
      assert InGroupExtent(total, l0, need, a);
    } else {
      SectorSplit(m, a / G + 1);
      assert FreeSectors(l0, m, m + need);
      assert InGroupExtent(total, l0, need, m);
    }
  }

  /** Only the two sectors on either side of the border between two groups are free. */
  predicate OnlyBorderFree(l0: seq<Sector>)
    requires |l0| == 2
  {
    forall s: nat :: s < 2 * G ==> (Used(l0, s) <==> s != G - 1 && s != G)
  }

  lemma BorderFreeVolume() returns (l0: seq<Sector>)
    ensures |l0| == 2 && OnlyBorderFree(l0)
  {
    var left: Sector := seq(SECTOR_SIZE, i => if i == 511 then ONES[7 := false] else ONES);
    var right: Sector := seq(SECTOR_SIZE, i => if i == 0 then ONES[0 := false] else ONES);
    l0 := [left, right];
    forall s: nat | s < 2 * G ensures Used(l0, s) <==> s != G - 1 && s != G {
      if s < G {
        assert l0[s / G] == left;
      } else {
        assert l0[s / G] == right;
      }
    }
  }

  /** On such a volume the map has room for two sectors, but a search with summaries in sync reports
      no space. */
  lemma SmallSearchMisses(total: nat) returns (l0: seq<Sector>)
    requires total == 2 * G
    ensures |l0| == Groups(total) && FreeExtent(total, l0, 2, G - 1)
    ensures forall c: Caches :: Coherent(total, l0, c) ==> Answer(total, l0, c, 2) == NoSpace
  {
    l0 := BorderFreeVolume();
    forall a: nat ensures !InGroupExtent(total, l0, 2, a) {
      if a + 2 <= total && a % G + 2 <= G {
        assert Used(l0, a) || Used(l0, a + 1);
      }
    }
    forall c: Caches | Coherent(total, l0, c) ensures Answer(total, l0, c, 2) == NoSpace {
      SmallAnswerInSync(total, l0, c, 2);
    }
  }

  // ---- A used sector handed out after a build ----

  /** The summaries of a volume of two groups, the second of them used but with a full counter. */
  lemma FullCounterMisleads(total: nat, l0: seq<Sector>, c: Caches)
    requires Groups(total) == 2 && Derived(total, l0, c)
    requires c.freeCount[0] == 0 && c.freeCount[1] == GroupSize(total, 1)
    ensures Answer(total, l0, c, 1) == Found(G)
  {
    assert L1Derived(total, c, 0) && L1Derived(total, c, 1) && L2Derived(total, c, 0);
    assert AnyCounted(total, c, 0);
    assert !SmallHit(total, l0, c, 1, 0) && SmallHit(total, l0, c, 1, 1);
  }

  /** A build, a mark and a search: on a volume of 4160 sectors whose first group is free and whose
      second is used, building the summaries, marking the first group used and asking for one
      sector hands out the used sector 4096. */
  lemma BuildMarkFindHandsOutUsed(total: nat, l0: seq<Sector>, c: Caches)
    requires total == 4160 && |l0| == Groups(total) && FreeIn(total, l0, 0) == G && FreeIn(total, l0, 1) == 0
    requires Derived(total, l0, c) && c.freeCount == BuiltCounts(total, l0)
    ensures var l1, d := l0[0 := Filled(true)], WholeUpdated(total, c, 0, true);
      Shaped(total, l1, d) && Answer(total, l1, d, 1) == Found(G) && Used(l1, G)
  {
    var l1, d := l0[0 := Filled(true)], WholeUpdated(total, c, 0, true);
    UsedGroupLooksFree(total, l0);
    DerivedUpdated(total, l0, c, 0, Filled(true), 0);
    FullCounterMisleads(total, l1, d);
    CountNone(l1[1], 0, GroupSize(total, 1), false);
    assert Bit(l1[1], 0);
  }
}
