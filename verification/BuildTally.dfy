/** The counting loop of rfs_build_level_caches (src/fs/retrofs/fsmap.c:716-852).

    The loop reads the map in chunks of 16 sectors and in 64-bit words, and keeps the position of
    the current word in `pos`.  That position is advanced twice for every word with a free bit:
    once by the loop that distributes the word's bits and once more by the loop header.  So the
    free sectors of a word are booked to the group that lies as many words further on as there
    were words with free bits before it in the same chunk. */
module BuildTally {
  import opened Powers
  import opened ByteBits
  import opened Bitset
  import opened FreeSpace

  const WORDS_PER_CHUNK: nat := 1024

  // ---- The counters as a function of the free count of every word ----

  /** How many of the words [w0, w) have a free sector. */
  function FreeWords(f: seq<nat>, w0: nat, w: nat): (k: nat)
    requires w <= |f|
    ensures k <= w
  {
    if w <= w0 then 0 else FreeWords(f, w0, w - 1) + One(f[w - 1] > 0)
  }

  /** The first word of the chunk that holds word w. */
  function ChunkStart(w: nat): (w0: nat)
    ensures w0 <= w
  {
    w - w % WORDS_PER_CHUNK
  }

  /** How many words before w in its chunk have a free sector. */
  function FreeWordsBefore(f: seq<nat>, w: nat): (k: nat)
    requires w <= |f|
    ensures k <= w
  {
    FreeWords(f, ChunkStart(w), w)
  }

  /** The group to which the free sectors of word w are booked; 64 words make a group. */
  function BookedTo(f: seq<nat>, w: nat): (g: nat)
    requires w <= |f|
    ensures w / 64 <= g
  {
    (w + FreeWordsBefore(f, w)) / 64
  }

  /** Add n to the counter of group g, but not beyond the size of the group. */
  function Book(sizes: seq<nat>, t: seq<nat>, g: nat, n: nat): (r: seq<nat>)
    requires |t| == |sizes|
    ensures |r| == |t|
  {
    if n == 0 || g >= |t| then t else t[g := Min(t[g] + n, sizes[g])]
  }

  /** The counters after the first w words. */
  function Tally(sizes: seq<nat>, f: seq<nat>, w: nat): (t: seq<nat>)
    requires w <= |f|
    ensures |t| == |sizes|
  {
    if w == 0 then seq(|sizes|, g => 0)
    else Book(sizes, Tally(sizes, f, w - 1), BookedTo(f, w - 1), f[w - 1])
  }

  /** Word w, if it has a free sector, is booked to its own group. */
  predicate StaysHome(f: seq<nat>, w: nat)
    requires w < |f|
  {
    f[w] > 0 ==> w % 64 + FreeWordsBefore(f, w) < 64
  }

  predicate NoSpill(f: seq<nat>)
  {
    forall w: nat :: w < |f| ==> StaysHome(f, w)
  }

  lemma HomeGroup(f: seq<nat>, w: nat)
    requires w <= |f|
    ensures BookedTo(f, w) == w / 64 <==> w % 64 + FreeWordsBefore(f, w) < 64
  {
  }

  /** The free sectors of group g in the first w words. */
  function InGroup(f: seq<nat>, w: nat, g: nat): (n: nat)
    requires w <= |f|
  {
    if w == 0 then 0 else InGroup(f, w - 1, g) + if (w - 1) / 64 == g then f[w - 1] else 0
  }

  lemma {:induction false} InGroupMono(f: seq<nat>, w: nat, v: nat, g: nat)
    requires w <= v <= |f|
    ensures InGroup(f, w, g) <= InGroup(f, v, g)
  {
    if w < v {
      InGroupMono(f, w, v - 1, g);
    }
  }

  /** The true counts of the first n groups. */
  function GroupCounts(f: seq<nat>, n: nat): (c: seq<nat>)
    ensures |c| == n
    ensures forall g: nat :: g < n ==> c[g] == InGroup(f, |f|, g)
  {
    seq(n, g requires 0 <= g => InGroup(f, |f|, g))
  }

  /** Every group's words fit the group. */
  ghost predicate Fits(sizes: seq<nat>, f: seq<nat>)
  {
    && |f| <= 64 * |sizes|
    && forall g: nat :: g < |sizes| ==> InGroup(f, |f|, g) <= sizes[g]
  }

  lemma {:induction false} TallyFits(sizes: seq<nat>, f: seq<nat>, w: nat)
    requires w <= |f|
    ensures forall g: nat :: g < |sizes| ==> Tally(sizes, f, w)[g] <= sizes[g]
  {
    if w > 0 {
      TallyFits(sizes, f, w - 1);
    }
  }

  // ---- What every counter ends up with ----

  /** The free sectors of the first w words that are booked to group g. */
  function BookedSum(f: seq<nat>, w: nat, g: nat): (n: nat)
    requires w <= |f|
  {
    if w == 0 then 0 else BookedSum(f, w - 1, g) + if BookedTo(f, w - 1) == g then f[w - 1] else 0
  }

  /** Whether or not words spill, a counter is the sum of what is booked to its group, capped once at
      the size of the group. */
  lemma {:induction false} TallyIsCappedSum(sizes: seq<nat>, f: seq<nat>, w: nat, g: nat)
    requires w <= |f| && g < |sizes|
    ensures Tally(sizes, f, w)[g] == Min(sizes[g], BookedSum(f, w, g))
    decreases w
  {
    if w > 0 {
      TallyIsCappedSum(sizes, f, w - 1, g);
    }
  }

  /** The words with a free sector in [a, w). */
  ghost function FreeWordSet(f: seq<nat>, a: nat, w: nat): (s: set<nat>)
    requires w <= |f|
  {
    set v: nat | a <= v < w && f[v] > 0
  }

  lemma {:induction false} FreeWordsIsSize(f: seq<nat>, a: nat, w: nat)
    requires w <= |f|
    ensures FreeWords(f, a, w) == |FreeWordSet(f, a, w)|
    decreases w
  {
    if w <= a {
      assert FreeWordSet(f, a, w) == {};
    } else {
      FreeWordsIsSize(f, a, w - 1);
      if f[w - 1] > 0 {
        assert FreeWordSet(f, a, w) == FreeWordSet(f, a, w - 1) + {w - 1};
      } else {
        assert FreeWordSet(f, a, w) == FreeWordSet(f, a, w - 1);
      }
    }
  }

  /** A word is booked as many words further on as words before it, in its chunk of 1024, have a free
      sector; so the first word of a chunk is booked to its own group. */
  lemma BookedToDrifts(f: seq<nat>, w: nat)
    requires w < |f|
    ensures BookedTo(f, w) == (w + |FreeWordSet(f, w - w % 1024, w)|) / 64
    ensures w % 1024 == 0 ==> BookedTo(f, w) == w / 64
  {
    FreeWordsIsSize(f, w - w % 1024, w);
    if w % 1024 == 0 {
      assert FreeWordSet(f, w, w) == {};
    }
  }

  // ---- Without a spill the counters are right ----

  lemma {:induction false} TallyAtHome(sizes: seq<nat>, f: seq<nat>, w: nat, g: nat)
    requires w <= |f| && g < |sizes| && Fits(sizes, f) && NoSpill(f)
    ensures Tally(sizes, f, w)[g] == InGroup(f, w, g)
    decreases w
  {
    if w > 0 {
      TallyAtHome(sizes, f, w - 1, g);
      assert StaysHome(f, w - 1);
      HomeGroup(f, w - 1);
      InGroupMono(f, w, |f|, g);
    }
  }

  // ---- With a spill they are not ----

  /** The sum of the first g counters. */
  function Sum(t: seq<nat>, g: nat): (r: nat)
    requires g <= |t|
  {
    if g == 0 then 0 else Sum(t, g - 1) + t[g - 1]
  }

  lemma {:induction false} SumUpdate(t: seq<nat>, h: nat, x: nat, g: nat)
    requires h < |t| && g <= |t|
    ensures Sum(t[h := x], g) == Sum(t, g) + if h < g then x - t[h] else 0
  {
    if g > 0 {
      SumUpdate(t, h, x, g - 1);
    }
  }

  lemma {:induction false} SumOfZeros(t: seq<nat>, g: nat)
    requires g <= |t| && forall h: nat :: h < |t| ==> t[h] == 0
    ensures Sum(t, g) == 0
  {
    if g > 0 {
      SumOfZeros(t, g - 1);
    }
  }

  /** The free sectors of the first g groups in the first w words. */
  function InGroups(f: seq<nat>, w: nat, g: nat): (n: nat)
    requires w <= |f|
  {
    if w == 0 then 0 else InGroups(f, w - 1, g) + if (w - 1) / 64 < g then f[w - 1] else 0
  }

  /** Those of them that were booked to group g or beyond. */
  function Spilled(f: seq<nat>, w: nat, g: nat): (n: nat)
    requires w <= |f|
  {
    if w == 0 then 0
    else Spilled(f, w - 1, g) + if (w - 1) / 64 < g <= BookedTo(f, w - 1) then f[w - 1] else 0
  }

  /** Free sectors are booked upward or lost, never downward. */
  lemma {:induction false} TallyFallsShort(sizes: seq<nat>, f: seq<nat>, w: nat, g: nat)
    requires w <= |f| && g <= |sizes|
    ensures Sum(Tally(sizes, f, w), g) + Spilled(f, w, g) <= InGroups(f, w, g)
    decreases w
  {
    if w == 0 {
      SumOfZeros(Tally(sizes, f, 0), g);
    } else {
      TallyFallsShort(sizes, f, w - 1, g);
      var t, b, n := Tally(sizes, f, w - 1), BookedTo(f, w - 1), f[w - 1];
      if n > 0 && b < |sizes| {
        SumUpdate(t, b, Min(t[b] + n, sizes[b]), g);
      }
    }
  }

  lemma {:induction false} InGroupsSplit(f: seq<nat>, w: nat, g: nat)
    requires w <= |f|
    ensures InGroups(f, w, 0) == 0
    ensures InGroups(f, w, g + 1) == InGroups(f, w, g) + InGroup(f, w, g)
    decreases w
  {
    if w > 0 {
      InGroupsSplit(f, w - 1, g);
    }
  }

  /** If the counters are right, so are their sums. */
  lemma {:induction false} RightSums(f: seq<nat>, t: seq<nat>, g: nat)
    requires g <= |t| && forall h: nat :: h < |t| ==> t[h] == InGroup(f, |f|, h)
    ensures Sum(t, g) == InGroups(f, |f|, g)
    decreases g
  {
    InGroupsSplit(f, |f|, if g == 0 then 0 else g - 1);
    if g > 0 {
      RightSums(f, t, g - 1);
    }
  }

  lemma {:induction false} SpillCounts(f: seq<nat>, w: nat, v: nat, g: nat)
    requires v < w <= |f| && v / 64 < g <= BookedTo(f, v)
    ensures Spilled(f, w, g) >= f[v]
    decreases w
  {
    if v < w - 1 {
      SpillCounts(f, w - 1, v, g);
    }
  }

  lemma RightOnlyAtHome(sizes: seq<nat>, f: seq<nat>, w: nat)
    requires w < |f| <= 64 * |sizes| && Tally(sizes, f, |f|) == GroupCounts(f, |sizes|)
    ensures StaysHome(f, w)
  {
    var g := w / 64 + 1;
    RightSums(f, Tally(sizes, f, |f|), g);
    TallyFallsShort(sizes, f, |f|, g);
    HomeGroup(f, w);
    if BookedTo(f, w) >= g {
      SpillCounts(f, |f|, w, g);
    }
  }

  /** The counters that the loop leaves behind equal the true counts of the groups exactly when no
      word with a free sector is booked past its own group. */
  lemma TallyRightIffNoSpill(sizes: seq<nat>, f: seq<nat>)
    requires Fits(sizes, f)
    ensures Tally(sizes, f, |f|) == GroupCounts(f, |sizes|) <==> NoSpill(f)
  {
    if NoSpill(f) {
      forall g: nat | g < |sizes| ensures Tally(sizes, f, |f|)[g] == GroupCounts(f, |sizes|)[g] {
        TallyAtHome(sizes, f, |f|, g);
      }
    }
    if Tally(sizes, f, |f|) == GroupCounts(f, |sizes|) {
      forall w: nat | w < |f| ensures StaysHome(f, w) {
        RightOnlyAtHome(sizes, f, w);
      }
    }
  }

  /** Two neighbouring words at the end of a group that both have a free sector are enough to
      spoil the counters. */
  lemma LastWordsSpill(f: seq<nat>, w: nat)
    requires 0 < w < |f| && w % 64 == 63 && f[w - 1] > 0 && f[w] > 0
    ensures !NoSpill(f)
  {
    assert !StaysHome(f, w);
  }

  // ---- The words of a map ----

  function Words(total: nat): (r: nat)
  {
    (total + 63) / 64
  }

  lemma WordInVolume(total: nat, w: nat)
    requires w < Words(total)
    ensures w / 64 < Groups(total) && 64 * (w % 64) < GroupSize(total, w / 64)
  {
  }

  /** Word w covers these bits of its map sector; the last word may be cut short. */
  function WordEnd(total: nat, w: nat): (e: nat)
    requires w < Words(total)
    ensures 64 * (w % 64) < e <= G
  {
    WordInVolume(total, w);
    Min(64 * (w % 64) + 64, GroupSize(total, w / 64))
  }

  function FreeInWord(total: nat, l0: seq<Sector>, w: nat): (n: nat)
    requires |l0| == Groups(total) && w < Words(total)
  {
    WordInVolume(total, w);
    Count(l0[w / 64], 64 * (w % 64), WordEnd(total, w), false)
  }

  function WordCounts(total: nat, l0: seq<Sector>): (f: seq<nat>)
    requires |l0| == Groups(total)
    ensures |f| == Words(total)
  {
    seq(Words(total), w requires 0 <= w < Words(total) => FreeInWord(total, l0, w))
  }

  function GroupSizes(total: nat): (z: seq<nat>)
    ensures |z| == Groups(total)
  {
    seq(Groups(total), g requires 0 <= g < Groups(total) => GroupSize(total, g))
  }

  /** How many bits of group g the first w words cover. */
  function Covered(total: nat, w: nat, g: nat): (r: nat)
    requires g < Groups(total)
  {
    if w <= 64 * g then 0 else Min(64 * (w - 64 * g), GroupSize(total, g))
  }

  lemma {:induction false} InGroupIsCount(total: nat, l0: seq<Sector>, f: seq<nat>, w: nat, g: nat)
    requires |l0| == Groups(total) && f == WordCounts(total, l0) && w <= |f| && g < Groups(total)
    ensures InGroup(f, w, g) == Count(l0[g], 0, Covered(total, w, g), false)
    decreases w
  {
    if w > 0 {
      var v := w - 1;
      InGroupIsCount(total, l0, f, v, g);
      if v / 64 == g {
        OwnWord(total, l0, f, v, g);
      } else {
        CoveredElsewhere(total, v, g);
      }
    }
  }

  lemma OwnWord(total: nat, l0: seq<Sector>, f: seq<nat>, w: nat, g: nat)
    requires |l0| == Groups(total) && f == WordCounts(total, l0) && w < |f| && w / 64 == g < Groups(total)
    requires InGroup(f, w, g) == Count(l0[g], 0, Covered(total, w, g), false)
    ensures InGroup(f, w + 1, g) == Count(l0[g], 0, Covered(total, w + 1, g), false)
  {
    CoveredStep(total, l0, w, g);
    assert f[w] == FreeInWord(total, l0, w);
  }

  /** A word of another group covers nothing of this one. */
  lemma CoveredElsewhere(total: nat, w: nat, g: nat)
    requires w < Words(total) && g < Groups(total) && w / 64 != g
    ensures Covered(total, w + 1, g) == Covered(total, w, g)
  {
    if w / 64 > g {
      assert w >= 64 * g + 64;
    }
  }

  lemma CoveredStep(total: nat, l0: seq<Sector>, w: nat, g: nat)
    requires |l0| == Groups(total) && w < Words(total) && g == w / 64 < Groups(total)
    ensures Covered(total, w, g) <= Covered(total, w + 1, g)
    ensures Count(l0[g], 0, Covered(total, w + 1, g), false) ==
            Count(l0[g], 0, Covered(total, w, g), false) + FreeInWord(total, l0, w)
  {
    WordInVolume(total, w);
    assert w == 64 * g + w % 64;
    CountSplit(l0[g], 0, Covered(total, w, g), Covered(total, w + 1, g), false);
  }

  /** The free counts that the summaries are meant to hold. */
  function FreeCounts(total: nat, l0: seq<Sector>): (c: seq<nat>)
    requires |l0| == Groups(total)
    ensures |c| == Groups(total)
    ensures forall g: nat :: g < Groups(total) ==> c[g] == FreeIn(total, l0, g)
  {
    seq(Groups(total), g requires 0 <= g < Groups(total) => FreeIn(total, l0, g))
  }

  /** Adding up the words of a group gives its free count. */
  lemma WordsMakeGroups(total: nat, l0: seq<Sector>)
    requires |l0| == Groups(total)
    ensures GroupCounts(WordCounts(total, l0), Groups(total)) == FreeCounts(total, l0)
    ensures Fits(GroupSizes(total), WordCounts(total, l0))
  {
    forall g: nat | g < Groups(total)
      ensures InGroup(WordCounts(total, l0), Words(total), g) == FreeIn(total, l0, g)
    {
      InGroupIsCount(total, l0, WordCounts(total, l0), Words(total), g);
    }
  }

  /** The counters after the whole map. */
  function BuiltCounts(total: nat, l0: seq<Sector>): (t: seq<nat>)
    requires |l0| == Groups(total)
    ensures |t| == Groups(total)
  {
    Tally(GroupSizes(total), WordCounts(total, l0), Words(total))
  }

  /** What the builder leaves in the counter of a group, on every map. */
  lemma BuiltIsCappedSum(total: nat, l0: seq<Sector>, g: nat)
    requires |l0| == Groups(total) && g < Groups(total)
    ensures BuiltCounts(total, l0)[g] == Min(GroupSize(total, g), BookedSum(WordCounts(total, l0), Words(total), g))
  {
    TallyIsCappedSum(GroupSizes(total), WordCounts(total, l0), Words(total), g);
  }

  /** The builder's counters are the free counts of the groups exactly when no word spills. */
  lemma BuiltRightIffNoSpill(total: nat, l0: seq<Sector>)
    requires |l0| == Groups(total)
    ensures BuiltCounts(total, l0) == FreeCounts(total, l0) <==> NoSpill(WordCounts(total, l0))
  {
    WordsMakeGroups(total, l0);
    TallyRightIffNoSpill(GroupSizes(total), WordCounts(total, l0));
  }

  /** Wrong or right, the counters together never claim more free sectors than there are. */
  lemma BuiltNeverClaimsMore(total: nat, l0: seq<Sector>)
    requires |l0| == Groups(total)
    ensures Sum(BuiltCounts(total, l0), Groups(total)) <= Sum(FreeCounts(total, l0), Groups(total))
  {
    var f, n := WordCounts(total, l0), Groups(total);
    WordsMakeGroups(total, l0);
    TallyFallsShort(GroupSizes(total), f, |f|, n);
    RightSums(f, GroupCounts(f, n), n);
  }

  /** So every volume with a wholly free group of full size is miscounted; a freshly formatted
      one, whose map is all zero, is among them. */
  lemma WhollyFreeGroupSpills(total: nat, l0: seq<Sector>, g: nat)
    requires |l0| == Groups(total) && g < Groups(total) && GroupSize(total, g) == G
    requires FreeIn(total, l0, g) == G
    ensures !NoSpill(WordCounts(total, l0))
  {
    CountFull(l0[g], 0, G, false);
    CountFull(l0[g], 64 * 62, 64 * 63, false);
    CountFull(l0[g], 64 * 63, G, false);
    LastWordsSpill(WordCounts(total, l0), 64 * g + 63);
  }

  // ---- Where the loop stands ----

  /** The number of set bits of a word. */
  function CountTrue(flags: seq<bool>): (n: nat)
  {
    if flags == [] then 0 else CountTrue(flags[..|flags| - 1]) + One(flags[|flags| - 1])
  }

  lemma {:induction false} CountTrueZero(flags: seq<bool>)
    ensures CountTrue(flags) > 0 <==> true in flags
  {
    if flags != [] {
      CountTrueZero(flags[..|flags| - 1]);
      assert flags == flags[..|flags| - 1] + [flags[|flags| - 1]];
    }
  }

  /** n bits of a map sector from lo on, inverted so that a set bit means a free sector. */
  function FreeFlags(sector: Sector, lo: nat, n: nat): (flags: seq<bool>)
    requires lo + n <= G
    ensures |flags| == n
  {
    seq(n, j requires 0 <= j < n => !Bit(sector, lo + j))
  }

  lemma {:induction false} FreeFlagsCount(sector: Sector, lo: nat, n: nat)
    requires lo + n <= G
    ensures CountTrue(FreeFlags(sector, lo, n)) == Count(sector, lo, lo + n, false)
    decreases n
  {
    if n > 0 {
      FreeFlagsCount(sector, lo, n - 1);
      assert FreeFlags(sector, lo, n)[..n - 1] == FreeFlags(sector, lo, n - 1);
    }
  }

  /** The position at word w of the chunk that starts at w0, in words: one further for every
      earlier word of the chunk with a free sector, until it runs off the end of the volume. */
  ghost predicate StandsAt(f: seq<nat>, groups: nat, w0: nat, w: nat, p: nat)
    requires w <= |f|
  {
    var q := w + FreeWords(f, w0, w);
    p == q || (p >= 64 * groups && q >= 64 * groups)
  }

  lemma StandsAtNext(f: seq<nat>, groups: nat, w0: nat, w: nat, p: nat)
    requires w0 <= w < |f| && StandsAt(f, groups, w0, w, p)
    ensures StandsAt(f, groups, w0, w + 1, if f[w] > 0 && p / 64 < groups then p + 2 else p + 1)
  {
  }

  /** Booking at the position is booking as `Tally` says. */
  lemma BookAtPosition(sizes: seq<nat>, f: seq<nat>, w0: nat, w: nat, p: nat)
    requires w < |f| && w0 == ChunkStart(w) && StandsAt(f, |sizes|, w0, w, p)
    ensures Book(sizes, Tally(sizes, f, w), p / 64, f[w]) == Tally(sizes, f, w + 1)
  {
  }

  // ---- A used group that looks free ----

  lemma {:induction false} AllFreeSoFar(f: seq<nat>, w: nat)
    requires w <= |f| && forall v: nat :: v < w ==> f[v] > 0
    ensures FreeWords(f, 0, w) == w
  {
    if w > 0 {
      AllFreeSoFar(f, w - 1);
    }
  }

  /** A counter that has reached the size of its group stays there. */
  lemma {:induction false} StaysCapped(sizes: seq<nat>, f: seq<nat>, w: nat, v: nat, g: nat)
    requires w <= v <= |f| && g < |sizes| && Tally(sizes, f, w)[g] == sizes[g]
    ensures Tally(sizes, f, v)[g] == sizes[g]
    decreases v
  {
    if w < v {
      StaysCapped(sizes, f, w, v - 1, g);
    }
  }

  /** On a volume of 4160 sectors whose first group is wholly free, the second group, of 64
      sectors, ends up with a full counter even when every one of its sectors is used. */
  lemma UsedGroupLooksFree(total: nat, l0: seq<Sector>)
    requires total == 4160 && |l0| == Groups(total) && FreeIn(total, l0, 0) == G && FreeIn(total, l0, 1) == 0
    ensures BuiltCounts(total, l0)[1] == GroupSize(total, 1)
  {
    var f, sizes := WordCounts(total, l0), GroupSizes(total);
    CountFull(l0[0], 0, G, false);
    forall v: nat | v < 64 ensures f[v] == 64 {
      CountFull(l0[0], 64 * v, 64 * v + 64, false);
    }
    AllFreeSoFar(f, 32);
    assert BookedTo(f, 32) == 1;
    assert Tally(sizes, f, 33)[1] == sizes[1];
    StaysCapped(sizes, f, 33, |f|, 1);
  }
}
