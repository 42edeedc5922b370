/** The search for an extent of more than one group (src/fs/retrofs/fsmap.c:545-631): what it sees,
    where it stops, and when that is right. */
module LargeSearch {
  import opened Powers
  import opened ByteBits
  import opened Bitset
  import opened FreeSpace
  import opened MapScan
  import opened Search

  /** A large request that is a multiple of the group size is only placed so that it ends at the
      end of a group; any other is placed anywhere. */
  predicate LargeExtent(total: nat, l0: seq<Sector>, need: nat, a: nat)
    requires |l0| == Groups(total)
  {
    FreeExtent(total, l0, need, a) && (need % G != 0 || (a + need) % G == 0 || a + need == total)
  }

  // ---- The search for a large extent, as a function of what it sees ----

  /** What the search learns about every group: whether it looks at it at all, its free tail,
      whether it takes it for wholly free, and its free head. */
  datatype Sight = Sight(open: seq<bool>, tails: seq<nat>, whole: seq<bool>, heads: seq<nat>)

  predicate SightOk(total: nat, v: Sight)
  {
    && |v.open| == |v.tails| == |v.whole| == |v.heads| == Groups(total)
    && (forall g: nat :: g < Groups(total) ==> v.tails[g] <= GroupSize(total, g))
    && (forall g: nat :: g < Groups(total) ==> v.heads[g] <= GroupSize(total, g))
  }

  /** Where the chain of wholly free groups from gg on ends, and how many sectors it has. */
  function Follow(total: nat, v: Sight, need: nat, gg: nat, collected: nat): (r: (nat, nat))
    requires SightOk(total, v) && gg <= Groups(total)
    ensures gg <= r.0 <= Groups(total)
    decreases Groups(total) - gg
  {
    if collected < need && gg < Groups(total) && v.whole[gg]
    then Follow(total, v, need, gg + 1, collected + GroupSize(total, gg))
    else (gg, collected)
  }

  /** The chain from group g is long enough.  The code lets it end in the head of the next group
      only if `need` is not a multiple of the group size; `anyEnd` drops that condition. */
  predicate Reach(total: nat, v: Sight, need: nat, g: nat, anyEnd: bool)
    requires SightOk(total, v) && g < Groups(total)
  {
    && v.tails[g] > 0
    && var (gg, collected) := Follow(total, v, need, g + 1, v.tails[g]);
       || collected >= need
       || ((anyEnd || need % G > 0) && gg < Groups(total) && collected + v.heads[gg] >= need)
  }

  /** The group where the search stops. */
  predicate Hit(total: nat, v: Sight, need: nat, g: nat)
    requires SightOk(total, v) && g < Groups(total)
  {
    v.open[g] && Reach(total, v, need, g, false)
  }

  /** The first hit from g on, or the number of groups if there is none. */
  function FirstHit(total: nat, v: Sight, need: nat, g: nat): (h: nat)
    requires SightOk(total, v) && g <= Groups(total)
    ensures g <= h <= Groups(total) && (h < Groups(total) ==> Hit(total, v, need, h))
    ensures forall x: nat :: g <= x < h ==> !Hit(total, v, need, x)
    decreases Groups(total) - g
  {
    if g == Groups(total) || Hit(total, v, need, g) then g else FirstHit(total, v, need, g + 1)
  }

  lemma FirstHitIs(total: nat, v: Sight, need: nat, g: nat)
    requires SightOk(total, v) && g <= Groups(total) && (g < Groups(total) ==> Hit(total, v, need, g))
    requires forall x: nat :: x < g ==> !Hit(total, v, need, x)
    ensures FirstHit(total, v, need, 0) == g
  {
  }

  function StartIn(total: nat, v: Sight, g: nat): (a: nat)
    requires SightOk(total, v) && g < Groups(total)
  {
    EndOf(total, g) - v.tails[g]
  }

  /** The chain consists of groups taken for wholly free, and its length adds up. */
  lemma {:induction false} FollowAddsUp(total: nat, v: Sight, need: nat, gg: nat, collected: nat)
    requires SightOk(total, v) && 0 < gg <= Groups(total)
    ensures var (hh, sum) := Follow(total, v, need, gg, collected);
      && sum == collected + EndOf(total, hh - 1) - EndOf(total, gg - 1)
      && (forall h: nat :: gg <= h < hh ==> v.whole[h])
      && (sum < need && hh < Groups(total) ==> !v.whole[hh])
      && (hh > gg ==> sum - GroupSize(total, hh - 1) < need)
    decreases Groups(total) - gg
  {
    if collected < need && gg < Groups(total) && v.whole[gg] {
      assert EndOf(total, gg - 1) == gg * G;
      FollowAddsUp(total, v, need, gg + 1, collected + GroupSize(total, gg));
    }
  }

  /** From the seen tail of g, over the groups before gg, all taken for wholly free, and if the code
      allows it on into the head of gg, there are `need` sectors. */
  predicate Stretch(total: nat, v: Sight, need: nat, g: nat, gg: nat)
    requires SightOk(total, v) && g < Groups(total)
  {
    && g < gg <= Groups(total) && (forall h: nat :: g < h < gg ==> v.whole[h])
    && var room := EndOf(total, gg - 1) - StartIn(total, v, g);
       room >= need || (need % G != 0 && gg < Groups(total) && room + v.heads[gg] >= need)
  }

  lemma EndsInOrder(total: nat, gg: nat, hh: nat)
    requires 0 < gg <= hh <= Groups(total)
    ensures EndOf(total, gg - 1) <= EndOf(total, hh - 1)
    ensures gg < hh ==> EndOf(total, gg - 1) + GroupSize(total, gg) <= EndOf(total, hh - 1)
  {
  }

  /** Whatever the search sees: following the chain settles whether there is such a stretch. */
  lemma ReachIff(total: nat, v: Sight, need: nat, g: nat)
    requires SightOk(total, v) && g < Groups(total)
    ensures Reach(total, v, need, g, false) <==> v.tails[g] > 0 && exists gg: nat :: Stretch(total, v, need, g, gg)
  {
    FollowAddsUp(total, v, need, g + 1, v.tails[g]);
    var (hh, sum) := Follow(total, v, need, g + 1, v.tails[g]);
    if Reach(total, v, need, g, false) {
      assert Stretch(total, v, need, g, hh);
    }
    if gg: nat :| Stretch(total, v, need, g, gg) {
      if sum < need {
        assert gg <= hh;
        EndsInOrder(total, gg, hh);
      }
    }
  }

  /** An extent that the search places lies inside the volume. */
  lemma ReachFits(total: nat, v: Sight, need: nat, g: nat, anyEnd: bool)
    requires SightOk(total, v) && g < Groups(total) && Reach(total, v, need, g, anyEnd)
    ensures StartIn(total, v, g) / G == g && StartIn(total, v, g) + need <= total
  {
    FollowAddsUp(total, v, need, g + 1, v.tails[g]);
    SectorSplit(StartIn(total, v, g), g);
  }

  // ---- When an extent is free, group by group ----

  /** The part of the extent that ends before b and lies in group h is free. */
  predicate PartFree(total: nat, l0: seq<Sector>, h: nat, b: nat)
    requires |l0| == Groups(total)
  {
    h < Groups(total) && h * G < b ==> Min(b - h * G, GroupSize(total, h)) <= Head(l0[h], GroupSize(total, h))
  }

  lemma PartOfExtent(total: nat, l0: seq<Sector>, h: nat, b: nat)
    requires |l0| == Groups(total) && h < Groups(total) && h * G < b
    ensures PartFree(total, l0, h, b) <==> FreeSectors(l0, h * G, h * G + Min(b - h * G, GroupSize(total, h)))
  {
    HeadPart(total, l0, h, Min(b - h * G, GroupSize(total, h)));
  }

  /** An extent from a in group g to b beyond it is free exactly when its part in g is and so is its
      part in every later group. */
  lemma FreeByGroups(total: nat, l0: seq<Sector>, g: nat, a: nat, b: nat)
    requires |l0| == Groups(total) && g < Groups(total) && g * G <= a <= EndOf(total, g) <= b <= total
    ensures FreeSectors(l0, a, b) <==>
      FreeSectors(l0, a, EndOf(total, g)) && forall h: nat :: g < h ==> PartFree(total, l0, h, b)
  {
    if FreeSectors(l0, a, b) {
      forall h: nat | g < h ensures PartFree(total, l0, h, b) {
        if h < Groups(total) && h * G < b {
          assert EndOf(total, g) <= h * G;
          PartOfExtent(total, l0, h, b);
        }
      }
    }
    if FreeSectors(l0, a, EndOf(total, g)) && forall h: nat :: g < h ==> PartFree(total, l0, h, b) {
      forall s: nat | a <= s < b ensures !Used(l0, s) {
        if s >= EndOf(total, g) {
          assert PartFree(total, l0, s / G, b);
          PartOfExtent(total, l0, s / G, b);
        }
      }
    }
  }

  /** Where a group is not taken for wholly free, no more is taken for its head than is free. */
  predicate ReadsHeads(total: nat, l0: seq<Sector>, v: Sight)
    requires |l0| == Groups(total) && SightOk(total, v)
  {
    forall h: nat :: h < Groups(total) && !v.whole[h] ==> v.heads[h] <= Head(l0[h], GroupSize(total, h))
  }

  /** What the extent takes of a group that is not taken for wholly free was read from the map. */
  lemma ReadPartIsFree(total: nat, l0: seq<Sector>, v: Sight, need: nat, g: nat, anyEnd: bool, h: nat)
    requires |l0| == Groups(total) && SightOk(total, v) && ReadsHeads(total, l0, v)
    requires g < h < Groups(total) && Reach(total, v, need, g, anyEnd) && !v.whole[h]
    ensures PartFree(total, l0, h, StartIn(total, v, g) + need)
  {
    FollowAddsUp(total, v, need, g + 1, v.tails[g]);
    var (gg, collected) := Follow(total, v, need, g + 1, v.tails[g]);
    var b := StartIn(total, v, g) + need;
    assert h >= gg;
    if h * G < b {
      assert EndOf(total, gg - 1) == gg * G;
      assert h == gg && b <= gg * G + v.heads[gg];
    }
  }

  /** The extent that the search places from group g is free exactly when the tail of g is as free
      as it looked and so is every group taken for wholly free, as far as the extent reaches into
      it. */
  lemma PlacedFreeIff(total: nat, l0: seq<Sector>, v: Sight, need: nat, g: nat, anyEnd: bool)
    requires |l0| == Groups(total) && SightOk(total, v) && ReadsHeads(total, l0, v)
    requires g < Groups(total) && G < need && Reach(total, v, need, g, anyEnd)
    ensures FreeExtent(total, l0, need, StartIn(total, v, g)) <==>
      && v.tails[g] <= Tail(l0[g], GroupSize(total, g))
      && WholesFree(total, l0, v, g, StartIn(total, v, g) + need)
  {
    var a := StartIn(total, v, g);
    var b := a + need;
    ReachFits(total, v, need, g, anyEnd);
    TailPart(total, l0, g, v.tails[g]);
    FreeByGroups(total, l0, g, a, b);
    if WholesFree(total, l0, v, g, b) {
      forall h: nat | g < h ensures PartFree(total, l0, h, b) {
        if h < Groups(total) && !v.whole[h] {
          ReadPartIsFree(total, l0, v, need, g, anyEnd, h);
        }
      }
    }
  }

  /** Every group after g that is taken for wholly free is free up to b. */
  predicate WholesFree(total: nat, l0: seq<Sector>, v: Sight, g: nat, b: nat)
    requires |l0| == Groups(total) && SightOk(total, v)
  {
    forall h: nat :: g < h < Groups(total) && v.whole[h] ==> PartFree(total, l0, h, b)
  }

  // ---- What the search sees ----

  /** With any summaries: the flags where it trusts them, and the map where it reads it. */
  function SightOf(total: nat, l0: seq<Sector>, c: Caches): (v: Sight)
    requires Shaped(total, l0, c)
    ensures SightOk(total, v)
  {
    var n := Groups(total);
    Sight(
      seq(n, g requires 0 <= g < n => FlaggedOpen(total, l0, c, g)),
      seq(n, g requires 0 <= g < n => FlaggedTail(total, l0, c, g)),
      seq(n, g requires 0 <= g < n => Bit(c.l1AllFree, g)),
      seq(n, g requires 0 <= g < n => FlaggedHead(total, l0, c, g)))
  }

  predicate FlaggedOpen(total: nat, l0: seq<Sector>, c: Caches, g: nat)
    requires Shaped(total, l0, c) && g < Groups(total)
  {
    SuperOf(total, g);
    Bit(c.l2NotFull, g / S)
  }

  /** The same, group by group. */
  ghost predicate SeenAs(total: nat, l0: seq<Sector>, c: Caches, v: Sight)
  {
    && Shaped(total, l0, c) && SightOk(total, v)
    && (forall g: nat :: g < Groups(total) && g / S < Supers(total) ==> v.open[g] == Bit(c.l2NotFull, g / S))
    && (forall g: nat :: g < Groups(total) ==> v.tails[g] == FlaggedTail(total, l0, c, g))
    && (forall g: nat :: g < Groups(total) ==> v.whole[g] == Bit(c.l1AllFree, g))
    && (forall g: nat :: g < Groups(total) ==> v.heads[g] == FlaggedHead(total, l0, c, g))
  }

  lemma SightSeenAs(total: nat, l0: seq<Sector>, c: Caches)
    requires Shaped(total, l0, c)
    ensures SeenAs(total, l0, c, SightOf(total, l0, c))
  {
  }

  /** The groups of a super-group are looked at exactly when it is flagged. */
  lemma OpenSuper(total: nat, l0: seq<Sector>, c: Caches, v: Sight, sg: nat)
    requires SeenAs(total, l0, c, v) && sg < Supers(total)
    ensures sg * S <= SuperEnd(total, sg)
    ensures forall x: nat :: sg * S <= x < SuperEnd(total, sg) ==> v.open[x] == Bit(c.l2NotFull, sg)
  {
    forall x: nat | sg * S <= x < SuperEnd(total, sg) ensures v.open[x] == Bit(c.l2NotFull, sg) {
      assert x / S == sg;
    }
  }

  function FlaggedTail(total: nat, l0: seq<Sector>, c: Caches, g: nat): (t: nat)
    requires Shaped(total, l0, c) && g < Groups(total)
    ensures t <= GroupSize(total, g)
  {
    if Bit(c.l1AllFree, g) then GroupSize(total, g)
    else if Bit(c.l1NotFull, g) then SeenTail(l0[g], GroupSize(total, g))
    else 0
  }

  function FlaggedHead(total: nat, l0: seq<Sector>, c: Caches, g: nat): (p: nat)
    requires Shaped(total, l0, c) && g < Groups(total)
    ensures p <= GroupSize(total, g)
  {
    if Bit(c.l1AllFree, g) then GroupSize(total, g)
    else if Bit(c.l1NotFull, g) then Head(l0[g], GroupSize(total, g))
    else 0
  }

  /** With summaries in sync, in terms of the map alone. */
  function TrueSight(total: nat, l0: seq<Sector>): (v: Sight)
    requires |l0| == Groups(total)
    ensures SightOk(total, v)
  {
    var n := Groups(total);
    Sight(
      seq(n, g requires 0 <= g < n => AnyFree(total, l0, g / S)),
      seq(n, g requires 0 <= g < n => SeenTail(l0[g], GroupSize(total, g))),
      seq(n, g requires 0 <= g < n => FreeIn(total, l0, g) == GroupSize(total, g)),
      seq(n, g requires 0 <= g < n => Head(l0[g], GroupSize(total, g))))
  }

  lemma {:induction false} NothingNoticed(buf: Sector, n: nat)
    requires n <= G
    ensures Count(buf, 0, n, false) == n ==> SeenTail(buf, n) == n && Head(buf, n) == n
    ensures 0 < n && Count(buf, 0, n, false) == 0 ==> SeenTail(buf, n) == 0 && Head(buf, n) == 0
  {
    CountFull(buf, 0, n, false);
    CountNone(buf, 0, n, false);
    if 0 < n && Count(buf, 0, n, false) == 0 {
      assert Noticed(buf, n, n - 1);
      assert Bit(buf, 0);
    }
  }

  lemma SightInSync(total: nat, l0: seq<Sector>, c: Caches)
    requires Coherent(total, l0, c)
    ensures SightOf(total, l0, c) == TrueSight(total, l0)
  {
    var v, w := SightOf(total, l0, c), TrueSight(total, l0);
    forall g: nat | g < Groups(total)
      ensures v.open[g] == w.open[g] && v.tails[g] == w.tails[g] && v.whole[g] == w.whole[g] && v.heads[g] == w.heads[g]
    {
      SuperOf(total, g);
      assert L1Right(total, l0, c, g) && L2Right(total, l0, c, g / S);
      NothingNoticed(l0[g], GroupSize(total, g));
    }
    assert v.open == w.open && v.tails == w.tails && v.whole == w.whole && v.heads == w.heads;
  }

  // ---- When the extent found is free ----

  /** The tail that the search takes for free is free: the flag is right if it trusts the flag,
      and the tail honest if it scans the map. */
  predicate TailTrusted(total: nat, l0: seq<Sector>, c: Caches, g: nat)
    requires Shaped(total, l0, c) && g < Groups(total)
  {
    if Bit(c.l1AllFree, g) then FreeIn(total, l0, g) == GroupSize(total, g)
    else Bit(c.l1NotFull, g) ==> HonestTail(l0[g], GroupSize(total, g))
  }

  lemma TrustedTailIsFree(total: nat, l0: seq<Sector>, c: Caches, g: nat)
    requires Shaped(total, l0, c) && g < Groups(total)
    ensures var t := FlaggedTail(total, l0, c, g);
      FreeSectors(l0, EndOf(total, g) - t, EndOf(total, g)) <==> TailTrusted(total, l0, c, g)
  {
    TailPart(total, l0, g, FlaggedTail(total, l0, c, g));
    SeenTailIffHonest(l0[g], GroupSize(total, g));
    FreeGroup(total, l0, g);
  }

  /** The extent that the search places from group g, with any summaries, is free exactly when the
      tail of g is trusted rightly and so is every flag of a wholly free group, as far as the
      extent reaches into that group. */
  lemma FoundFreeIff(total: nat, l0: seq<Sector>, c: Caches, need: nat, g: nat)
    requires Shaped(total, l0, c) && g < Groups(total) && G < need
    requires Reach(total, SightOf(total, l0, c), need, g, false)
    ensures var a := StartIn(total, SightOf(total, l0, c), g);
      FreeExtent(total, l0, need, a) <==>
      && TailTrusted(total, l0, c, g)
      && forall h: nat :: g < h < Groups(total) && Bit(c.l1AllFree, h) ==> PartFree(total, l0, h, a + need)
  {
    var v := SightOf(total, l0, c);
    PlacedFreeIff(total, l0, v, need, g, false);
    TrustedTailIsFree(total, l0, c, g);
    TailPart(total, l0, g, v.tails[g]);
    assert forall h: nat :: h < Groups(total) ==> v.whole[h] == Bit(c.l1AllFree, h);
  }

  /** With the summaries in sync it is free exactly when the tail of g is honest. */
  lemma FoundFreeIffHonest(total: nat, l0: seq<Sector>, need: nat, g: nat)
    requires |l0| == Groups(total) && g < Groups(total) && G < need
    requires Reach(total, TrueSight(total, l0), need, g, false)
    ensures FreeExtent(total, l0, need, StartIn(total, TrueSight(total, l0), g)) <==>
            HonestTail(l0[g], GroupSize(total, g))
  {
    var v := TrueSight(total, l0);
    PlacedFreeIff(total, l0, v, need, g, false);
    SeenTailIffHonest(l0[g], GroupSize(total, g));
    WholesAreFree(total, l0, v, g, StartIn(total, v, g) + need);
  }

  lemma WholesAreFree(total: nat, l0: seq<Sector>, v: Sight, g: nat, b: nat)
    requires |l0| == Groups(total) && SightOk(total, v) && v.whole == TrueSight(total, l0).whole
    ensures WholesFree(total, l0, v, g, b)
  {
    forall h: nat | g < h < Groups(total) && v.whole[h] ensures PartFree(total, l0, h, b) {
      assert FreeIn(total, l0, h) == GroupSize(total, h);
      NothingNoticed(l0[h], GroupSize(total, h));
    }
  }

  // ---- When the search should find something ----

  /** The sight of a search that notices every used sector. */
  function HonestSight(total: nat, l0: seq<Sector>): (v: Sight)
    requires |l0| == Groups(total)
    ensures SightOk(total, v)
  {
    var n := Groups(total);
    TrueSight(total, l0).(tails := seq(n, g requires 0 <= g < n => Tail(l0[g], GroupSize(total, g))))
  }

  /** A sight that overlooks nothing free. */
  predicate SeesAllFree(total: nat, l0: seq<Sector>, v: Sight)
    requires |l0| == Groups(total) && SightOk(total, v)
  {
    && v.whole == TrueSight(total, l0).whole && v.heads == TrueSight(total, l0).heads
    && forall g: nat :: g < Groups(total) ==> Tail(l0[g], GroupSize(total, g)) <= v.tails[g]
  }

  /** The chain of a group whose seen tail covers a ends where it should. */
  lemma ChainFrom(total: nat, v: Sight, need: nat, g: nat, a: nat)
    requires SightOk(total, v) && g < Groups(total) && StartIn(total, v, g) <= a < EndOf(total, g)
    requires G < need && a + need <= total
    ensures v.tails[g] > 0
    ensures var (gg, collected) := Follow(total, v, need, g + 1, v.tails[g]);
      && g < gg <= Groups(total)
      && (collected < need ==> a <= EndOf(total, gg - 1) < a + need)
      && need <= collected + (a + need - EndOf(total, gg - 1))
      && (collected < need && gg < Groups(total) ==> !v.whole[gg])
  {
    FollowAddsUp(total, v, need, g + 1, v.tails[g]);
  }

  /** A free extent that begins in g is reached from g, if the chain may end anywhere; one that is
      not a multiple of the group size, or ends with a group or the volume, is reached in any
      case. */
  lemma ExtentIsReached(total: nat, l0: seq<Sector>, v: Sight, need: nat, g: nat, a: nat)
    requires |l0| == Groups(total) && SightOk(total, v) && SeesAllFree(total, l0, v)
    requires G < need && FreeExtent(total, l0, need, a) && a / G == g
    ensures g < Groups(total) && Reach(total, v, need, g, true)
    ensures LargeExtent(total, l0, need, a) ==> Reach(total, v, need, g, false)
  {
    TailCovers(total, l0, v, need, g, a);
    ChainFrom(total, v, need, g, a);
    var (gg, collected) := Follow(total, v, need, g + 1, v.tails[g]);
    if collected < need {
      if gg < Groups(total) {
        SeenRightly(total, l0, v, gg);
      }
      ShortChain(total, l0, need, a, gg, collected);
    }
  }

  lemma SeenRightly(total: nat, l0: seq<Sector>, v: Sight, h: nat)
    requires |l0| == Groups(total) && SightOk(total, v) && SeesAllFree(total, l0, v) && h < Groups(total)
    ensures v.whole[h] <==> FreeIn(total, l0, h) == GroupSize(total, h)
    ensures v.heads[h] == Head(l0[h], GroupSize(total, h))
  {
  }

  /** A chain that is too short for a free extent ends before the group in which the extent ends. */
  lemma ShortChain(total: nat, l0: seq<Sector>, need: nat, a: nat, gg: nat, collected: nat)
    requires |l0| == Groups(total) && FreeExtent(total, l0, need, a)
    requires 0 < gg <= Groups(total) && a <= EndOf(total, gg - 1) < a + need
    requires need <= collected + (a + need - EndOf(total, gg - 1))
    requires gg < Groups(total) ==> FreeIn(total, l0, gg) != GroupSize(total, gg)
    ensures gg < Groups(total) && need <= collected + Head(l0[gg], GroupSize(total, gg))
    ensures LargeExtent(total, l0, need, a) ==> need % G > 0
  {
    EndsInside(total, l0, gg, a + need);
  }

  lemma TailCovers(total: nat, l0: seq<Sector>, v: Sight, need: nat, g: nat, a: nat)
    requires |l0| == Groups(total) && SightOk(total, v) && SeesAllFree(total, l0, v)
    requires G < need && FreeExtent(total, l0, need, a) && a / G == g
    ensures g < Groups(total) && StartIn(total, v, g) <= a < EndOf(total, g)
  {
    var end := EndOf(total, g);
    assert FreeSectors(l0, a, end);
    TailPart(total, l0, g, end - a);
  }

  /** A free stretch that begins at or before group gg, which is not wholly free, and ends beyond
      its start ends inside it. */
  lemma EndsInside(total: nat, l0: seq<Sector>, gg: nat, e: nat)
    requires |l0| == Groups(total) && 0 < gg <= Groups(total) && EndOf(total, gg - 1) < e <= total
    requires FreeSectors(l0, EndOf(total, gg - 1), e)
    requires gg < Groups(total) ==> FreeIn(total, l0, gg) != GroupSize(total, gg)
    ensures gg < Groups(total) && EndOf(total, gg - 1) == gg * G && e < EndOf(total, gg) && e % G != 0
    ensures e - gg * G <= Head(l0[gg], GroupSize(total, gg))
  {
    assert gg < Groups(total) && EndOf(total, gg - 1) == gg * G;
    FreeGroup(total, l0, gg);
    SectorSplit(e, gg);
    HeadPart(total, l0, gg, e - gg * G);
  }

  ghost predicate SomeExtent(total: nat, l0: seq<Sector>, need: nat)
    requires |l0| == Groups(total)
  {
    exists a: nat :: FreeExtent(total, l0, need, a)
  }

  ghost predicate SomeLargeExtent(total: nat, l0: seq<Sector>, need: nat)
    requires |l0| == Groups(total)
  {
    exists a: nat :: LargeExtent(total, l0, need, a)
  }

  predicate SomeReach(total: nat, v: Sight, need: nat, anyEnd: bool)
    requires SightOk(total, v)
  {
    exists g: nat :: g < Groups(total) && Reach(total, v, need, g, anyEnd)
  }

  /** A plain scan of the map would find an extent exactly when a chain that notices every used
      sector and may end anywhere is long enough. */
  lemma ExtentIffHonestReach(total: nat, l0: seq<Sector>, need: nat)
    requires |l0| == Groups(total) && G < need
    ensures SomeExtent(total, l0, need) <==> SomeReach(total, HonestSight(total, l0), need, true)
  {
    var v := HonestSight(total, l0);
    if SomeExtent(total, l0, need) {
      var a: nat :| FreeExtent(total, l0, need, a);
      ExtentIsReached(total, l0, v, need, a / G, a);
    }
    if SomeReach(total, v, need, true) {
      var g: nat :| g < Groups(total) && Reach(total, v, need, g, true);
      PlacedFreeIff(total, l0, v, need, g, true);
      WholesAreFree(total, l0, v, g, StartIn(total, v, g) + need);
    }
  }

  /** In sync, the search looks at every group with a free sector. */
  lemma LooksWhereFree(total: nat, l0: seq<Sector>, need: nat, g: nat)
    requires |l0| == Groups(total) && g < Groups(total)
    ensures Hit(total, TrueSight(total, l0), need, g) <==> Reach(total, TrueSight(total, l0), need, g, false)
  {
    SuperOf(total, g);
    NothingNoticed(l0[g], GroupSize(total, g));
    if SeenTail(l0[g], GroupSize(total, g)) > 0 {
      assert FreeIn(total, l0, g) > 0;
      assert AnyFree(total, l0, g / S);
    }
  }

  /** The group where the search stops, in terms of the map alone. */
  function StopGroup(total: nat, l0: seq<Sector>, need: nat): (g: nat)
    requires |l0| == Groups(total)
    ensures g <= Groups(total)
  {
    FirstHit(total, TrueSight(total, l0), need, 0)
  }

  lemma TrueSightSeesAllFree(total: nat, l0: seq<Sector>)
    requires |l0| == Groups(total)
    ensures SeesAllFree(total, l0, TrueSight(total, l0))
  {
    forall g: nat | g < Groups(total)
      ensures Tail(l0[g], GroupSize(total, g)) <= TrueSight(total, l0).tails[g]
    {
      SeenTailIffHonest(l0[g], GroupSize(total, g));
    }
  }

  /** A large extent is never overlooked. */
  lemma LargeIsFound(total: nat, l0: seq<Sector>, need: nat)
    requires |l0| == Groups(total) && G < need && SomeLargeExtent(total, l0, need)
    ensures StopGroup(total, l0, need) < Groups(total)
  {
    var a: nat :| LargeExtent(total, l0, need, a);
    TrueSightSeesAllFree(total, l0);
    ExtentIsReached(total, l0, TrueSight(total, l0), need, a / G, a);
    LooksWhereFree(total, l0, need, a / G);
  }

  /** And when the search stops at a group with an honest tail there is one. */
  lemma FoundIsLarge(total: nat, l0: seq<Sector>, need: nat)
    requires |l0| == Groups(total) && G < need
    requires var g := StopGroup(total, l0, need); g < Groups(total) && HonestTail(l0[g], GroupSize(total, g))
    ensures SomeLargeExtent(total, l0, need)
  {
    ReachIsLarge(total, l0, TrueSight(total, l0), need, StopGroup(total, l0, need));
  }

  lemma ReachIsLarge(total: nat, l0: seq<Sector>, v: Sight, need: nat, g: nat)
    requires |l0| == Groups(total) && G < need && g < Groups(total) && v == TrueSight(total, l0)
    requires Reach(total, v, need, g, false) && HonestTail(l0[g], GroupSize(total, g))
    ensures SomeLargeExtent(total, l0, need)
  {
    if need % G != 0 {
      FoundFreeIffHonest(total, l0, need, g);
      assert LargeExtent(total, l0, need, StartIn(total, v, g));
    } else {
      MultipleNeedsWholes(total, v, need, g);
      ChainReaches(total, v, need, g);
      WholeChainIsLarge(total, l0, v, need, g, Follow(total, v, need, g + 1, v.tails[g]).0);
    }
  }

  lemma MultipleNeedsWholes(total: nat, v: Sight, need: nat, g: nat)
    requires SightOk(total, v) && g < Groups(total) && Reach(total, v, need, g, false) && need % G == 0
    ensures Follow(total, v, need, g + 1, v.tails[g]).1 >= need
  {
  }

  lemma WholeChainIsLarge(total: nat, l0: seq<Sector>, v: Sight, need: nat, g: nat, gg: nat)
    requires |l0| == Groups(total) && g < gg <= Groups(total) && v == TrueSight(total, l0)
    requires HonestTail(l0[g], GroupSize(total, g)) && StartIn(total, v, g) + need <= EndOf(total, gg - 1)
    requires forall h: nat :: g + 1 <= h < gg ==> v.whole[h]
    ensures SomeLargeExtent(total, l0, need)
  {
    HonestStart(total, l0, v, g);
    WholesInChain(total, l0, v, g, gg);
    FreeChainIsLarge(total, l0, need, g, StartIn(total, v, g), gg);
  }

  lemma FreeChainIsLarge(total: nat, l0: seq<Sector>, need: nat, g: nat, a: nat, gg: nat)
    requires |l0| == Groups(total) && g < gg <= Groups(total) && a <= EndOf(total, g)
    requires FreeSectors(l0, a, EndOf(total, g)) && a + need <= EndOf(total, gg - 1)
    requires forall h: nat :: g < h < gg ==> FreeIn(total, l0, h) == GroupSize(total, h)
    ensures SomeLargeExtent(total, l0, need)
  {
    ChainIsFree(total, l0, g, a, gg);
    EndIsLarge(total, l0, need, a, gg - 1);
  }

  lemma ChainReaches(total: nat, v: Sight, need: nat, g: nat)
    requires SightOk(total, v) && g < Groups(total) && Follow(total, v, need, g + 1, v.tails[g]).1 >= need
    ensures var gg := Follow(total, v, need, g + 1, v.tails[g]).0;
      && StartIn(total, v, g) + need <= EndOf(total, gg - 1)
      && forall h: nat :: g + 1 <= h < gg ==> v.whole[h]
  {
    FollowAddsUp(total, v, need, g + 1, v.tails[g]);
  }

  lemma HonestStart(total: nat, l0: seq<Sector>, v: Sight, g: nat)
    requires |l0| == Groups(total) && g < Groups(total) && v == TrueSight(total, l0)
    requires HonestTail(l0[g], GroupSize(total, g))
    ensures FreeSectors(l0, StartIn(total, v, g), EndOf(total, g))
  {
    SeenTailIffHonest(l0[g], GroupSize(total, g));
    TailPart(total, l0, g, v.tails[g]);
  }

  /** A free tail followed by wholly free groups is free up to the end. */
  lemma {:induction false} ChainIsFree(total: nat, l0: seq<Sector>, g: nat, a: nat, gg: nat)
    requires |l0| == Groups(total) && g < gg <= Groups(total) && a <= EndOf(total, g)
    requires FreeSectors(l0, a, EndOf(total, g))
    requires forall h: nat :: g < h < gg ==> FreeIn(total, l0, h) == GroupSize(total, h)
    ensures a <= EndOf(total, gg - 1) && FreeSectors(l0, a, EndOf(total, gg - 1))
    decreases gg
  {
    if g + 1 < gg {
      ChainIsFree(total, l0, g, a, gg - 1);
      FreeGroup(total, l0, gg - 1);
      assert EndOf(total, gg - 2) == (gg - 1) * G;
    }
  }

  /** A free stretch up to the end of a group holds a large extent, if it is long enough. */
  lemma EndIsLarge(total: nat, l0: seq<Sector>, need: nat, a: nat, h: nat)
    requires |l0| == Groups(total) && h < Groups(total) && a + need <= EndOf(total, h)
    requires FreeSectors(l0, a, EndOf(total, h))
    ensures SomeLargeExtent(total, l0, need)
  {
    var b := EndOf(total, h) - need;
    assert FreeSectors(l0, b, b + need);
    assert b + need == total || (h + 1 < Groups(total) && b + need == (h + 1) * G);
    assert LargeExtent(total, l0, need, b);
  }

  lemma WholesInChain(total: nat, l0: seq<Sector>, v: Sight, g: nat, gg: nat)
    requires |l0| == Groups(total) && v == TrueSight(total, l0) && gg <= Groups(total)
    requires forall h: nat :: g + 1 <= h < gg ==> v.whole[h]
    ensures forall h: nat :: g < h < gg ==> FreeIn(total, l0, h) == GroupSize(total, h)
  {
    forall h: nat | g < h < gg ensures FreeIn(total, l0, h) == GroupSize(total, h) {
      assert v.whole[h];
    }
  }

  /** The answer of the search agrees with a plain scan: what it returns is free, and it reports no
      space only if there is no extent. */
  ghost predicate AgreesWithScan(total: nat, l0: seq<Sector>, need: nat)
    requires |l0| == Groups(total)
  {
    var g := StopGroup(total, l0, need);
    if g < Groups(total) then FreeExtent(total, l0, need, StartIn(total, TrueSight(total, l0), g))
    else !SomeExtent(total, l0, need)
  }

  /** It agrees exactly when the group where it stops, if it stops, has an honest tail and, for a
      request of a multiple of the group size, no honest chain that may end anywhere would have been
      long enough if it stops nowhere. */
  lemma AgreesIff(total: nat, l0: seq<Sector>, need: nat)
    requires |l0| == Groups(total) && G < need
    ensures var g := StopGroup(total, l0, need);
      AgreesWithScan(total, l0, need) <==>
      if g < Groups(total) then HonestTail(l0[g], GroupSize(total, g))
      else need % G == 0 ==> !SomeReach(total, HonestSight(total, l0), need, true)
  {
    var g := StopGroup(total, l0, need);
    if g < Groups(total) {
      FoundFreeIffHonest(total, l0, need, g);
    } else if need % G != 0 {
      OddIsLarge(total, l0, need);
      if SomeLargeExtent(total, l0, need) {
        LargeIsFound(total, l0, need);
      }
    }
    ExtentIffHonestReach(total, l0, need);
  }

  /** An extent that is not a multiple of the group size is a large one wherever it ends. */
  lemma OddIsLarge(total: nat, l0: seq<Sector>, need: nat)
    requires |l0| == Groups(total) && need % G != 0
    ensures SomeExtent(total, l0, need) ==> SomeLargeExtent(total, l0, need)
  {
    if a: nat :| FreeExtent(total, l0, need, a) {
      assert LargeExtent(total, l0, need, a);
    }
  }

  /** So with honest tails and a request that is not a multiple of the group size it always agrees;
      with honest tails it reports no space exactly when there is no large extent. */
  lemma HonestSearchAgrees(total: nat, l0: seq<Sector>, need: nat)
    requires |l0| == Groups(total) && G < need
    requires forall g: nat :: g < Groups(total) ==> HonestTail(l0[g], GroupSize(total, g))
    ensures StopGroup(total, l0, need) == Groups(total) <==> !SomeLargeExtent(total, l0, need)
    ensures need % G != 0 ==> AgreesWithScan(total, l0, need)
  {
    var g := StopGroup(total, l0, need);
    if g < Groups(total) {
      FoundIsLarge(total, l0, need);
      FoundFreeIffHonest(total, l0, need, g);
    } else if SomeLargeExtent(total, l0, need) {
      LargeIsFound(total, l0, need);
    }
    if need % G != 0 {
      OddIsLarge(total, l0, need);
    }
  }

  // ---- Volumes on which it does not agree ----

  /** A chain of two groups. */
  lemma TwoGroupChain(total: nat, v: Sight, need: nat)
    requires SightOk(total, v) && Groups(total) == 2 && need == total
    requires v.tails[0] == GroupSize(total, 0) && v.whole[1]
    ensures Reach(total, v, need, 0, false)
  {
    var t := v.tails[0];
    assert Follow(total, v, need, 2, t + GroupSize(total, 1)) == (2, t + GroupSize(total, 1));
    assert t + GroupSize(total, 1) >= need;
  }

  /** The first group has one used byte that the scan does not notice, the second is free: a request
      for both groups is answered with sector 0, over the used sectors 4080 to 4087. */
  lemma UsedSectorsHandedOut(l0: seq<Sector>, total: nat)
    requires total == 2 * G && |l0| == Groups(total) && l0[0] == OneUsedByte() && FreeIn(total, l0, 1) == G
    ensures StopGroup(total, l0, total) == 0
    ensures StartIn(total, TrueSight(total, l0), 0) == 0
    ensures forall s: nat :: 4080 <= s < 4088 ==> Used(l0, s)
  {
    DishonestTailExists();
    TwoGroupChain(total, TrueSight(total, l0), total);
    LooksWhereFree(total, l0, total, 0);
    forall s: nat | 4080 <= s < 4088 ensures Used(l0, s) {
      assert s / G == 0 && s % G == s && s / 8 == 510;
      assert l0[0][510] == ONES && ONES[s % 8];
    }
  }

  /** Two groups' worth of free sectors from the middle of the first group to the middle of the
      third. */
  predicate MiddleFree(l0: seq<Sector>)
    requires |l0| == 3
  {
    forall s: nat :: s < 3 * G ==> (Used(l0, s) <==> s < 2048 || 2048 + 2 * G <= s)
  }

  lemma MiddleBits(l0: seq<Sector>, i: nat)
    requires |l0| == 3 && MiddleFree(l0) && i < G
    ensures Bit(l0[0], i) <==> i < 2048
    ensures !Bit(l0[1], i)
    ensures Bit(l0[2], i) <==> 2048 <= i
  {
    assert Used(l0, i) <==> i < 2048;
    assert !Used(l0, G + i) by { SectorSplit(G + i, 1); }
    assert Used(l0, 2 * G + i) <==> 2048 <= i by { SectorSplit(2 * G + i, 2); }
    SectorSplit(i, 0);
    SectorSplit(G + i, 1);
    SectorSplit(2 * G + i, 2);
  }

  /** What the search sees of such a volume. */
  lemma MiddleSight(l0: seq<Sector>, total: nat)
    requires total == 3 * G && |l0| == Groups(total) == 3 && MiddleFree(l0)
    ensures var v := TrueSight(total, l0);
      && v.tails[0] == 2048 && v.tails[1] == G && v.tails[2] == 0
      && !v.whole[0] && v.whole[1] && !v.whole[2]
  {
    forall i: nat | i < G
      ensures (Bit(l0[0], i) <==> i < 2048) && !Bit(l0[1], i) && (Bit(l0[2], i) <==> 2048 <= i)
    {
      MiddleBits(l0, i);
    }
    CountFull(l0[0], 0, G, false);
    CountFull(l0[1], 0, G, false);
    CountFull(l0[2], 0, G, false);
    NothingNoticed(l0[1], G);
    assert Noticed(l0[2], G, G - 1);
    HalfTail(l0[0]);
  }

  lemma HalfTail(buf: Sector)
    requires forall i: nat :: i < G ==> (Bit(buf, i) <==> i < 2048)
    ensures SeenTail(buf, G) == 2048
  {
    ZeroByte(buf, 254);
    assert Bit(buf, 2032) && Bit(buf, 2047);
    assert Noticed(buf, G, 2047);
    assert forall i: nat :: 2048 <= i < G ==> !Noticed(buf, G, i);
  }

  lemma MiddleNoReach(total: nat, v: Sight, need: nat, g: nat)
    requires total == 3 * G && need == 2 * G && SightOk(total, v) && g < 3 == Groups(total)
    requires v.tails[0] == 2048 && v.tails[1] == G && v.tails[2] == 0
    requires v.whole[1] && !v.whole[2]
    ensures !Reach(total, v, need, g, false)
  {
    assert Follow(total, v, need, 2, 2048 + G) == (2, 2048 + G);
    assert Follow(total, v, need, 1, 2048) == (2, 2048 + G);
    assert Follow(total, v, need, 2, G) == (2, G);
  }

  lemma MiddleFreeVolume() returns (l0: seq<Sector>)
    ensures |l0| == 3 && MiddleFree(l0)
  {
    l0 := [seq(SECTOR_SIZE, i => if i < 256 then ONES else ZERO), seq(SECTOR_SIZE, i => ZERO),
           seq(SECTOR_SIZE, i => if i < 256 then ZERO else ONES)];
    forall s: nat | s < 3 * G ensures Used(l0, s) <==> s < 2048 || 2048 + 2 * G <= s {
      var b := s % G / 8;
      if s < G {
        assert l0[s / G][b] == if b < 256 then ONES else ZERO;
      } else if s < 2 * G {
        assert l0[s / G][b] == ZERO;
      } else {
        assert l0[s / G][b] == if b < 256 then ZERO else ONES;
      }
    }
  }

  /** A request for a multiple of the group size never finishes inside a group, so the search
      reports no space for the 8192 free sectors from 2048 on. */
  lemma LargeSearchMisses(total: nat, need: nat) returns (l0: seq<Sector>)
    requires total == 3 * G && need == 2 * G
    ensures |l0| == Groups(total) && FreeExtent(total, l0, need, 2048)
    ensures StopGroup(total, l0, need) == Groups(total)
  {
    l0 := MiddleFreeVolume();
    MiddleSight(l0, total);
    var v := TrueSight(total, l0);
    forall g: nat | g < 3 ensures !Hit(total, v, need, g) {
      MiddleNoReach(total, v, need, g);
    }
    FirstHitIs(total, v, need, 3);
  }
}
