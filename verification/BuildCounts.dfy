/** The loops of rfs_build_level_caches that count the free sectors
    (src/fs/retrofs/fsmap.c:716-852), against `BuildTally.Tally`. */
module BuildCounts {
  import opened Powers
  import opened ByteBits
  import opened Bitset
  import opened FreeSpace
  import opened BuildTally
  import opened Devices

  /** Distribute the free bits of one word over the groups from position `at` on.  The position is
      a multiple of 64, so a word never crosses a group border. */
  method AddWord(sizes: seq<nat>, counts: seq<nat>, flags: seq<bool>, at: nat) returns (r: seq<nat>, pos: nat)
    requires |counts| == |sizes| && 0 < |flags| <= 64 && at % 64 == 0
    requires forall g: nat :: g < |sizes| ==> counts[g] <= sizes[g]
    ensures |r| == |counts|
    ensures forall g: nat :: g < |r| ==>
      r[g] == if g == at / G then Min(sizes[g], counts[g] + CountTrue(flags)) else counts[g]
    ensures r == Book(sizes, counts, at / G, CountTrue(flags))
    ensures pos == if true in flags && at / G < |sizes| then at + |flags| else at
  {
    CountTrueZero(flags);
    r, pos := counts, at;
    var word, remaining := flags, |flags|;
    while true in word && remaining != 0
      invariant remaining == |word|
      invariant remaining != 0 ==> word == flags && pos == at && r == counts
      invariant remaining == 0 ==> pos == at + |flags| && true in flags && at / G < |sizes|
      invariant remaining == 0 ==> r == Book(sizes, counts, at / G, CountTrue(flags))
      decreases remaining
    {
      var g := pos / G;
      if g >= |sizes| {
        break;
      }
      var inGroup := (g + 1) * G - pos;
      var take := Min(remaining, inGroup);
      assert take == remaining;
      var seg := word[..take];
      assert seg == flags;
      if true in seg {
        var add := CountTrue(seg);
        var fc := r[g];
        if fc < sizes[g] {
          var room := sizes[g] - fc;
          r := r[g := fc + Min(add, room)];
        }
        assert r == Book(sizes, counts, at / G, CountTrue(flags));
      }
      word := word[take..];
      pos := pos + take;
      remaining := remaining - take;
    }
  }

  /** The counters and the position, in words, before word w of the chunk that starts at w0. */
  ghost predicate Before(sizes: seq<nat>, f: seq<nat>, w0: nat, w: nat, counts: seq<nat>, p: nat)
  {
    w0 <= w <= |f| && counts == Tally(sizes, f, w) && StandsAt(f, |sizes|, w0, w, p)
  }

  lemma BeforeStart(sizes: seq<nat>, f: seq<nat>, w0: nat)
    requires w0 <= |f|
    ensures Before(sizes, f, w0, w0, Tally(sizes, f, w0), w0)
  {
  }

  /** Where the loop stands after word w of n bits: the header adds one more word. */
  function NextPosition(groups: nat, free: nat, p: nat): (q: nat)
  {
    if free > 0 && p / 64 < groups then p + 2 else p + 1
  }

  lemma BeforeNext(sizes: seq<nat>, f: seq<nat>, w0: nat, w: nat, counts: seq<nat>, p: nat, r: seq<nat>, next: nat)
    requires w < |f| && w0 == ChunkStart(w) && Before(sizes, f, w0, w, counts, p)
    requires next == w + 1 && r == Book(sizes, counts, p / 64, f[w])
    ensures Before(sizes, f, w0, next, r, NextPosition(|sizes|, f[w], p))
  {
    BookAtPosition(sizes, f, w0, w, p);
    StandsAtNext(f, |sizes|, w0, w, p);
  }

  /** One word: its flags, met at bit position 64 * p. */
  method CountWord(sizes: seq<nat>, counts: seq<nat>, flags: seq<bool>, at: nat, ghost p: nat)
    returns (r: seq<nat>, pos: nat)
    requires |counts| == |sizes| && 0 < |flags| <= 64 && at == 64 * p
    requires forall g: nat :: g < |sizes| ==> counts[g] <= sizes[g]
    ensures r == Book(sizes, counts, p / 64, CountTrue(flags))
    ensures pos == if CountTrue(flags) > 0 && p / 64 < |sizes| then at + |flags| else at
  {
    assert at / G == p / 64;
    CountTrueZero(flags);
    r, pos := counts, at;
    if true in flags {
      r, pos := AddWord(sizes, counts, flags, at);
    }
  }

  /** The flags of the word count its free sectors. */
  lemma WordFlags(total: nat, l0: seq<Sector>, w: nat, n: nat)
    requires |l0| == Groups(total) && w < Words(total) && w / 64 < Groups(total)
    requires 64 * (w % 64) + n <= G && WordEnd(total, w) == 64 * (w % 64) + n
    ensures CountTrue(FreeFlags(l0[w / 64], 64 * (w % 64), n)) == WordCounts(total, l0)[w]
  {
    FreeFlagsCount(l0[w / 64], 64 * (w % 64), n);
  }

  lemma FullWord(total: nat, w: nat)
    requires 64 * w + 64 <= total
    ensures w < Words(total) && w / 64 < Groups(total) && WordEnd(total, w) == 64 * (w % 64) + 64
  {
    WordInVolume(total, w);
  }

  lemma TailWord(total: nat, w: nat, n: nat)
    requires 64 * w + n == total && 0 < n < 64
    ensures w < Words(total) && w / 64 < Groups(total) && WordEnd(total, w) == 64 * (w % 64) + n
  {
    WordInVolume(total, w);
  }

  lemma InChunk(chunk: nat, w0: nat, w: nat)
    requires w0 == WORDS_PER_CHUNK * chunk && w0 <= w < w0 + WORDS_PER_CHUNK
    ensures ChunkStart(w) == w0
  {
  }

  /** The word w, of which n bits belong to the volume, met at bit position 64 * p. */
  method CountMapWord(total: nat, l0: seq<Sector>, sizes: seq<nat>, counts: seq<nat>, w: nat, n: nat, at: nat,
                      ghost p: nat, ghost free: nat)
    returns (r: seq<nat>, pos: nat)
    requires |l0| == Groups(total) && w < Words(total) && w / 64 < Groups(total) && 0 < n <= 64
    requires WordEnd(total, w) == 64 * (w % 64) + n && free == WordCounts(total, l0)[w] && at == 64 * p
    requires |counts| == |sizes| && forall g: nat :: g < |sizes| ==> counts[g] <= sizes[g]
    ensures r == Book(sizes, counts, p / 64, free)
    ensures pos == if free > 0 && p / 64 < |sizes| then at + n else at
  {
    WordFlags(total, l0, w, n);
    r, pos := CountWord(sizes, counts, FreeFlags(l0[w / 64], 64 * (w % 64), n), at, p);
  }

  /** A full word w, met at bit position 64 * p; the loop header then adds another 64. */
  method CountFullWord(total: nat, l0: seq<Sector>, sizes: seq<nat>, counts: seq<nat>, w: nat, at: nat,
                       ghost chunk: nat, ghost w0: nat, ghost p: nat, ghost f: seq<nat>)
    returns (r: seq<nat>, pos: nat, next: nat, ghost q: nat)
    requires |l0| == Groups(total) && f == WordCounts(total, l0) && 64 * w + 64 <= total
    requires w0 == WORDS_PER_CHUNK * chunk && w0 <= w < w0 + WORDS_PER_CHUNK
    requires Before(sizes, f, w0, w, counts, p) && at == 64 * p
    ensures next == w + 1 && Before(sizes, f, w0, next, r, q) && pos == 64 * q
  {
    InChunk(chunk, w0, w);
    FullWord(total, w);
    TallyFits(sizes, f, w);
    ghost var free := f[w];
    r, pos := CountMapWord(total, l0, sizes, counts, w, 64, at, p, free);
    next := w + 1;
    BeforeNext(sizes, f, w0, w, counts, p, r, next);
    q := NextPosition(|sizes|, free, p);
    pos := pos + 64;
  }

  /** The full words [w0, w1) of a chunk that starts with word w0. */
  method CountFullWords(total: nat, l0: seq<Sector>, sizes: seq<nat>, counts: seq<nat>, w0: nat, w1: nat,
                        ghost chunk: nat, ghost f: seq<nat>)
    returns (r: seq<nat>, pos: nat, ghost p: nat)
    requires |l0| == Groups(total) && f == WordCounts(total, l0)
    requires w0 == WORDS_PER_CHUNK * chunk && w0 <= w1 <= w0 + WORDS_PER_CHUNK && 64 * w1 <= total
    requires w0 <= |f| && counts == Tally(sizes, f, w0)
    ensures Before(sizes, f, w0, w1, r, p) && pos == 64 * p
  {
    BeforeStart(sizes, f, w0);
    r, pos, p := counts, 64 * w0, w0;
    var w := w0;
    while w < w1
      invariant w0 <= w <= w1 && pos == 64 * p && Before(sizes, f, w0, w, r, p)
    {
      r, pos, w, p := CountFullWord(total, l0, sizes, r, w, pos, chunk, w0, p, f);
    }
  }

  /** The tail word w of n < 64 bits that ends the map. */
  method CountTailWord(total: nat, l0: seq<Sector>, sizes: seq<nat>, counts: seq<nat>, w: nat, n: nat, at: nat,
                       ghost w0: nat, ghost p: nat, ghost v: nat, ghost f: seq<nat>)
    returns (r: seq<nat>)
    requires |l0| == Groups(total) && f == WordCounts(total, l0) && 64 * w + n == total && 0 < n < 64
    requires w0 == ChunkStart(w) && Before(sizes, f, w0, w, counts, p) && at == 64 * p
    requires v == w + 1
    ensures v <= |f| && r == Tally(sizes, f, v)
  {
    TailWord(total, w, n);
    TallyFits(sizes, f, w);
    var pos;
    r, pos := CountMapWord(total, l0, sizes, counts, w, n, at, p, f[w]);
    BeforeNext(sizes, f, w0, w, counts, p, r, v);
  }

  /** One chunk: its full words [w0, w1) and a tail of n bits, which only the last chunk has. */
  method CountChunk(total: nat, l0: seq<Sector>, sizes: seq<nat>, counts: seq<nat>, w0: nat, w1: nat, n: nat,
                    ghost chunk: nat, ghost v: nat, ghost f: seq<nat>)
    returns (r: seq<nat>)
    requires |l0| == Groups(total) && f == WordCounts(total, l0)
    requires w0 == WORDS_PER_CHUNK * chunk && w0 <= w1 <= w0 + WORDS_PER_CHUNK && 64 * w1 <= total
    requires n != 0 ==> w1 < w0 + WORDS_PER_CHUNK && n < 64 && 64 * w1 + n == total
    requires v == w1 + One(n != 0)
    requires w0 <= |f| && counts == Tally(sizes, f, w0)
    ensures v <= |f| && r == Tally(sizes, f, v)
  {
    var pos;
    ghost var p;
    r, pos, p := CountFullWords(total, l0, sizes, counts, w0, w1, chunk, f);
    if n != 0 {
      InChunk(chunk, w0, w1);
      r := CountTailWord(total, l0, sizes, r, w1, n, pos, w0, p, v, f);
    }
  }

  /** The loop over the chunks has read `sectorOff` map sectors, which are w words and end at bit
      `bitCursor`. */
  ghost predicate Reached(total: nat, chunk: nat, sectorOff: nat, bitCursor: nat, w: nat)
  {
    && sectorOff <= Groups(total)
    && bitCursor == Min(G * sectorOff, total)
    && (sectorOff < Groups(total) ==> sectorOff == 16 * chunk)
    && w == Min(64 * sectorOff, Words(total))
  }

  lemma ReachedStart(total: nat)
    ensures Reached(total, 0, 0, 0, 0)
  {
  }

  /** The last sector has been read: no word is missing. */
  lemma ReachedEnd(total: nat, chunk: nat, sectorOff: nat, bitCursor: nat, w: nat)
    requires Reached(total, chunk, sectorOff, bitCursor, w) && (sectorOff >= Groups(total) || bitCursor >= total)
    ensures w == Words(total)
  {
  }

  /** The word arithmetic of the chunk read next. */
  lemma ChunkWords(total: nat, chunk: nat, sectorOff: nat, bitCursor: nat, w0: nat)
    requires Reached(total, chunk, sectorOff, bitCursor, w0) && sectorOff < Groups(total)
    ensures bitCursor == 64 * w0 < total && w0 == WORDS_PER_CHUNK * chunk
  {
  }

  lemma NextChunk(total: nat, chunk: nat, sectorOff: nat, bitCursor: nat, w0: nat,
                  sectors: nat, bits: nat, w1: nat, n: nat)
    requires Reached(total, chunk, sectorOff, bitCursor, w0) && sectorOff < Groups(total)
    requires sectors == Min(Groups(total) - sectorOff, 16) && bits == Min(8 * (512 * sectors), total - bitCursor)
    requires w1 == w0 + bits / 64 && n == bits % 64
    ensures w0 <= w1 <= w0 + WORDS_PER_CHUNK && 64 * w1 <= total
    ensures n != 0 ==> w1 < w0 + WORDS_PER_CHUNK && n < 64 && 64 * w1 + n == total
    ensures Reached(total, chunk + 1, sectorOff + sectors, bitCursor + bits, w1 + One(n != 0))
  {
    ChunkWords(total, chunk, sectorOff, bitCursor, w0);
  }

  /** The chunk read next: its full words [w0, w1), its tail of n bits, and where the one after it
      starts. */
  method ChunkBounds(total: nat, sectorOff: nat, bitCursor: nat, ghost chunk: nat, ghost w: nat)
    returns (w0: nat, w1: nat, n: nat, nextOff: nat, nextCursor: nat, ghost v: nat)
    requires Reached(total, chunk, sectorOff, bitCursor, w) && sectorOff < Groups(total)
    ensures nextOff > sectorOff && v == w1 + One(n != 0) && w0 == w == WORDS_PER_CHUNK * chunk
    ensures w0 <= w1 <= w0 + WORDS_PER_CHUNK && 64 * w1 <= total
    ensures n != 0 ==> w1 < w0 + WORDS_PER_CHUNK && n < 64 && 64 * w1 + n == total
    ensures Reached(total, chunk + 1, nextOff, nextCursor, v)
  {
    ChunkWords(total, chunk, sectorOff, bitCursor, w);
    var sectors := Min(Groups(total) - sectorOff, 16);
    var bits := Min(8 * (512 * sectors), total - bitCursor);
    w0 := bitCursor / 64;
    w1, n := w0 + bits / 64, bits % 64;
    NextChunk(total, chunk, sectorOff, bitCursor, w, sectors, bits, w1, n);
    nextOff, nextCursor, v := sectorOff + sectors, bitCursor + bits, w1 + One(n != 0);
  }

  /** One turn of the loop over the chunks. */
  method CountNextChunk(total: nat, l0: seq<Sector>, sizes: seq<nat>, counts: seq<nat>, sectorOff: nat, bitCursor: nat,
                        ghost chunk: nat, ghost w: nat, ghost f: seq<nat>)
    returns (r: seq<nat>, nextOff: nat, nextCursor: nat, ghost v: nat)
    requires |l0| == Groups(total) && f == WordCounts(total, l0)
    requires Reached(total, chunk, sectorOff, bitCursor, w) && sectorOff < Groups(total)
    requires w <= |f| && counts == Tally(sizes, f, w)
    ensures nextOff > sectorOff && Reached(total, chunk + 1, nextOff, nextCursor, v)
    ensures v <= |f| && r == Tally(sizes, f, v)
  {
    var w0, w1, n;
    w0, w1, n, nextOff, nextCursor, v := ChunkBounds(total, sectorOff, bitCursor, chunk, w);
    r := CountChunk(total, l0, sizes, counts, w0, w1, n, chunk, v, f);
  }

  /** The loop over the chunks; it fails exactly when a read of the device does. */
  method CountChunks(dev: Device, total: nat, l0: seq<Sector>, sizes: seq<nat>, zeros: seq<nat>, ghost f: seq<nat>)
    returns (ok: bool, counts: seq<nat>)
    requires |l0| == Groups(total) && f == WordCounts(total, l0) && zeros == Tally(sizes, f, 0)
    modifies dev
    ensures ok <==> dev.faults == old(dev.faults)
    ensures dev.faults >= old(dev.faults)
    ensures ok ==> counts == Tally(sizes, f, |f|)
  {
    counts := zeros;
    var bitCursor: nat, sectorOff: nat := 0, 0;
    ghost var chunk: nat, w: nat := 0, 0;
    ok := true;
    ReachedStart(total);
    while sectorOff < |l0| && bitCursor < total
      invariant Reached(total, chunk, sectorOff, bitCursor, w)
      invariant w <= |f| && counts == Tally(sizes, f, w)
      invariant ok && dev.faults == old(dev.faults)
      decreases |l0| - sectorOff
    {
      ok := dev.Transfer();
      if !ok {
        return;
      }
      counts, sectorOff, bitCursor, w := CountNextChunk(total, l0, sizes, counts, sectorOff, bitCursor, chunk, w, f);
      chunk := chunk + 1;
    }
    ReachedEnd(total, chunk, sectorOff, bitCursor, w);
  }

  /** Every counter is the sum of the words booked to its group, capped at the size of the group. */
  ghost predicate CountsAre(total: nat, l0: seq<Sector>, counts: seq<nat>)
    requires |l0| == Groups(total)
  {
    && |counts| == Groups(total)
    && forall g: nat :: g < Groups(total) ==>
      counts[g] == Min(GroupSize(total, g), BookedSum(WordCounts(total, l0), Words(total), g))
  }

  lemma BuiltAreCappedSums(total: nat, l0: seq<Sector>)
    requires |l0| == Groups(total)
    ensures CountsAre(total, l0, BuiltCounts(total, l0))
  {
    forall g: nat | g < Groups(total)
      ensures BuiltCounts(total, l0)[g] ==
              Min(GroupSize(total, g), BookedSum(WordCounts(total, l0), Words(total), g))
    {
      BuiltIsCappedSum(total, l0, g);
    }
  }

  /** The whole map. */
  method CountMap(dev: Device, total: nat, l0: seq<Sector>) returns (ok: bool, counts: seq<nat>)
    requires |l0| == Groups(total)
    modifies dev
    ensures ok <==> dev.faults == old(dev.faults)
    ensures dev.faults >= old(dev.faults)
    ensures ok ==> counts == BuiltCounts(total, l0)
    ensures ok ==> CountsAre(total, l0, counts)
  {
    BuiltAreCappedSums(total, l0);
    ok, counts := CountChunks(dev, total, l0, GroupSizes(total), seq(Groups(total), g => 0), WordCounts(total, l0));
  }

  // ---- The bitsets that follow from the counters (src/fs/retrofs/fsmap.c:854-888) ----

  /** The first g bits say which counters are positive. */
  ghost predicate SaysNotFull(bs: seq<Byte>, counts: seq<nat>, g: nat)
  {
    g <= |counts| && g <= 8 * |bs| && forall h: nat :: h < g ==> Bit(bs, h) == (counts[h] > 0)
  }

  /** The first g bits say which counters are full. */
  ghost predicate SaysAllFree(total: nat, bs: seq<Byte>, counts: seq<nat>, g: nat)
  {
    && g <= |counts| == Groups(total) && g <= 8 * |bs|
    && forall h: nat :: h < g ==> Bit(bs, h) == (counts[h] == GroupSize(total, h))
  }

  lemma SaysOneMore(total: nat, notFull: seq<Byte>, allFree: seq<Byte>, counts: seq<nat>, g: nat)
    requires SaysNotFull(notFull, counts, g) && SaysAllFree(total, allFree, counts, g)
    requires g < |counts| && g < 8 * |notFull| && g < 8 * |allFree|
    ensures SaysNotFull(Put(notFull, g, counts[g] > 0), counts, g + 1)
    ensures SaysAllFree(total, Put(allFree, g, counts[g] == GroupSize(total, g)), counts, g + 1)
  {
    PutSeenFrom(notFull, g, counts[g] > 0);
    PutSeenFrom(allFree, g, counts[g] == GroupSize(total, g));
  }

  lemma BitsetHolds(nbits: nat)
    requires nbits + 7 < 0x1_0000_0000_0000_0000
    ensures nbits <= 8 * BitsetBytes(nbits)
  {
  }

  method DeriveL1(total: nat, counts: seq<nat>) returns (notFull: seq<Byte>, allFree: seq<Byte>)
    requires total < 0x1_0000_0000_0000_0000 && |counts| == Groups(total)
    ensures |notFull| == |allFree| == BitsetBytes(Groups(total)) && Groups(total) <= 8 * |notFull|
    ensures forall g: nat :: g < Groups(total) ==> Bit(notFull, g) == (counts[g] > 0)
    ensures forall g: nat :: g < Groups(total) ==> Bit(allFree, g) == (counts[g] == GroupSize(total, g))
  {
    var n, bytes := |counts|, BitsetBytes(Groups(total));
    BitsetHolds(n);
    notFull, allFree := seq(bytes, i => ZERO), seq(bytes, i => ZERO);
    var g := 0;
    while g < n
      invariant |notFull| == |allFree| == bytes
      invariant SaysNotFull(notFull, counts, g) && SaysAllFree(total, allFree, counts, g)
      decreases n - g
    {
      var fc, size := counts[g], GroupSize(total, g);
      SaysOneMore(total, notFull, allFree, counts, g);
      notFull, allFree := Put(notFull, g, fc > 0), Put(allFree, g, fc == size);
      g := g + 1;
    }
  }

  lemma PutSeenFrom(bs: seq<Byte>, idx: nat, val: bool)
    requires idx < 8 * |bs|
    ensures Bit(Put(bs, idx, val), idx) == val
    ensures forall j: nat :: j < 8 * |bs| && j != idx ==> Bit(Put(bs, idx, val), j) == Bit(bs, j)
  {
    forall j: nat | j < 8 * |bs| ensures Bit(Put(bs, idx, val), j) == if j == idx then val else Bit(bs, j) {
      PutBit(bs, idx, val, j);
    }
  }

  /** Some child of super-group sg has its bit set. */
  ghost predicate AnySet(total: nat, bs: seq<Byte>, sg: nat)
    requires Groups(total) <= 8 * |bs|
  {
    exists g: nat :: sg * S <= g < SuperEnd(total, sg) && Bit(bs, g)
  }

  /** Every child of super-group sg has its bit set. */
  ghost predicate AllSet(total: nat, bs: seq<Byte>, sg: nat)
    requires Groups(total) <= 8 * |bs|
  {
    forall g: nat :: sg * S <= g < SuperEnd(total, sg) ==> Bit(bs, g)
  }

  /** What the children of super-group sg say together. */
  method FoldSuper(total: nat, notFull: seq<Byte>, allFree: seq<Byte>, sg: nat) returns (any: bool, all: bool)
    requires Groups(total) <= 8 * |notFull| && Groups(total) <= 8 * |allFree|
    ensures any <==> AnySet(total, notFull, sg)
    ensures all <==> AllSet(total, allFree, sg)
  {
    any, all := false, true;
    var g := sg * S;
    while g < SuperEnd(total, sg)
      invariant sg * S <= g && (g <= SuperEnd(total, sg) || g == sg * S)
      invariant any <==> exists h: nat :: sg * S <= h < g && Bit(notFull, h)
      invariant all <==> forall h: nat :: sg * S <= h < g ==> Bit(allFree, h)
    {
      if Bit(notFull, g) {
        any := true;
      }
      if !Bit(allFree, g) {
        all := false;
      }
      g := g + 1;
    }
  }

  /** The first n bits of the L2 bitsets say what the L1 bitsets say about the super-groups. */
  ghost predicate SupersSay(total: nat, notFull: seq<Byte>, allFree: seq<Byte>, superNotFull: seq<Byte>,
                            superAllFree: seq<Byte>, n: nat)
    requires Groups(total) <= 8 * |notFull| && Groups(total) <= 8 * |allFree|
  {
    && n <= 8 * |superNotFull| && n <= 8 * |superAllFree|
    && (forall sg: nat :: sg < n ==> Bit(superNotFull, sg) == AnySet(total, notFull, sg))
    && (forall sg: nat :: sg < n ==> Bit(superAllFree, sg) == AllSet(total, allFree, sg))
  }

  lemma SupersSayOneMore(total: nat, notFull: seq<Byte>, allFree: seq<Byte>, superNotFull: seq<Byte>,
                         superAllFree: seq<Byte>, n: nat, any: bool, all: bool)
    requires Groups(total) <= 8 * |notFull| && Groups(total) <= 8 * |allFree|
    requires SupersSay(total, notFull, allFree, superNotFull, superAllFree, n)
    requires n < 8 * |superNotFull| && n < 8 * |superAllFree|
    requires any == AnySet(total, notFull, n) && all == AllSet(total, allFree, n)
    ensures SupersSay(total, notFull, allFree, Put(superNotFull, n, any), Put(superAllFree, n, all), n + 1)
  {
    PutSeenFrom(superNotFull, n, any);
    PutSeenFrom(superAllFree, n, all);
  }

  /** The L1 bitsets that `DeriveL1` returns determine the L2 bitsets. */
  method DeriveL2(total: nat, notFull: seq<Byte>, allFree: seq<Byte>)
    returns (superNotFull: seq<Byte>, superAllFree: seq<Byte>)
    requires total < 0x1_0000_0000_0000_0000
    requires Groups(total) <= 8 * |notFull| && Groups(total) <= 8 * |allFree|
    ensures |superNotFull| == |superAllFree| == BitsetBytes(Supers(total))
    ensures SupersSay(total, notFull, allFree, superNotFull, superAllFree, Supers(total))
  {
    var n := Supers(total);
    BitsetHolds(n);
    superNotFull := seq(BitsetBytes(n), i => ZERO);
    superAllFree := superNotFull;
    var sg := 0;
    while sg < n
      invariant sg <= n && |superNotFull| == |superAllFree| == BitsetBytes(n)
      invariant SupersSay(total, notFull, allFree, superNotFull, superAllFree, sg)
      decreases n - sg
    {
      var any, all := FoldSuper(total, notFull, allFree, sg);
      SupersSayOneMore(total, notFull, allFree, superNotFull, superAllFree, sg, any, all);
      superNotFull, superAllFree := Put(superNotFull, sg, any), Put(superAllFree, sg, all);
      sg := sg + 1;
    }
  }

  /** All four bitsets. */
  method DeriveBitsets(total: nat, l0: seq<Sector>, counts: seq<nat>) returns (c: Caches)
    requires total < 0x1_0000_0000_0000_0000 && |l0| == |counts| == Groups(total)
    ensures c.freeCount == counts && Derived(total, l0, c)
  {
    var notFull, allFree := DeriveL1(total, counts);
    var superNotFull, superAllFree := DeriveL2(total, notFull, allFree);
    c := Caches(counts, notFull, allFree, superNotFull, superAllFree);
    forall sg: nat | sg < Supers(total) ensures L2Derived(total, c, sg) {
      assert AnySet(total, notFull, sg) <==> AnyCounted(total, c, sg);
    }
  }

  lemma BuiltCountsFit(total: nat, l0: seq<Sector>)
    requires |l0| == Groups(total)
    ensures CountsFit(total, BuiltCounts(total, l0))
  {
    TallyFits(GroupSizes(total), WordCounts(total, l0), Words(total));
  }

  /** The builder's summaries are right exactly when its counters did not spill. */
  lemma BuiltCoherentIffNoSpill(total: nat, l0: seq<Sector>, c: Caches)
    requires Derived(total, l0, c) && c.freeCount == BuiltCounts(total, l0)
    ensures Coherent(total, l0, c) <==> NoSpill(WordCounts(total, l0))
  {
    DerivedCoherentIffCounts(total, l0, c);
    BuiltRightIffNoSpill(total, l0);
    assert c.freeCount == FreeCounts(total, l0) <==>
           forall g: nat :: g < Groups(total) ==> c.freeCount[g] == FreeIn(total, l0, g);
  }

  /** What a build leaves: the counters of the loop, bitsets that follow them, and all of it right
      exactly when no word with a free sector was booked past its own group. */
  ghost predicate IsBuilt(total: nat, l0: seq<Sector>, c: Caches)
  {
    && |l0| == Groups(total) && c.freeCount == BuiltCounts(total, l0) && CountsAre(total, l0, c.freeCount)
    && Derived(total, l0, c) && CountsFit(total, c.freeCount)
    && (Coherent(total, l0, c) <==> NoSpill(WordCounts(total, l0)))
  }

  /** The whole build, before the summaries are published. */
  method BuildCaches(dev: Device, total: nat, l0: seq<Sector>) returns (ok: bool, c: Caches)
    requires total < 0x1_0000_0000_0000_0000 && |l0| == Groups(total)
    modifies dev
    ensures ok <==> dev.faults == old(dev.faults)
    ensures dev.faults >= old(dev.faults)
    ensures ok ==> IsBuilt(total, l0, c) && Shaped(total, l0, c) && CountsFit(total, c.freeCount)
    ensures !ok ==> c == Caches([], [], [], [], [])
  {
    var counts;
    ok, counts := CountMap(dev, total, l0);
    if !ok {
      c := Caches([], [], [], [], []);
      return;
    }
    c := DeriveBitsets(total, l0, counts);
    BuiltCountsFit(total, l0);
    BuiltCoherentIffNoSpill(total, l0, c);
  }
}
