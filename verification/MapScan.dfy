/** Scanning one sector of the map (src/fs/retrofs/fsmap.c:381-479). */
module MapScan {
  import opened ByteBits
  import opened Bitset
  import opened FreeSpace

  /** The first n bits of the buffer in [lo, hi) are free. */
  predicate FreeBits(buf: Sector, lo: nat, hi: nat)
    requires hi <= G
  {
    forall i: nat :: lo <= i < hi ==> !Bit(buf, i)
  }

  /** The length of the free run at the start of the first n bits. */
  ghost predicate IsHead(buf: Sector, n: nat, p: nat)
    requires n <= G
  {
    p <= n && FreeBits(buf, 0, p) && (p < n ==> Bit(buf, p))
  }

  /** The length of the free run at the end of the first n bits. */
  ghost predicate IsTail(buf: Sector, n: nat, t: nat)
    requires n <= G
  {
    t <= n && FreeBits(buf, n - t, n) && (t < n ==> Bit(buf, n - 1 - t))
  }

  function Tail(buf: Sector, n: nat): (t: nat)
    requires n <= G
    ensures IsTail(buf, n, t)
  {
    if n == 0 || Bit(buf, n - 1) then 0 else 1 + Tail(buf, n - 1)
  }

  function Head(buf: Sector, n: nat): (p: nat)
    requires n <= G
    ensures IsHead(buf, n, p)
  {
    if n == 0 then 0
    else if Head(buf, n - 1) < n - 1 || Bit(buf, n - 1) then Head(buf, n - 1)
    else n
  }

  /** On reaching a byte boundary the suffix scan looks one byte too far down, and counts the byte
      in between without looking at it.  So it notices a used bit only in the last byte of the
      group, in the first, or above a byte that is not all free. */
  predicate Noticed(buf: Sector, n: nat, i: nat)
    requires i < n <= G
  {
    Bit(buf, i) && (i / 8 == (n - 1) / 8 || i / 8 == 0 || buf[i / 8 - 1] != ZERO)
  }

  /** The number of bits below m, counted downward, up to the first one noticed. */
  function UnnoticedBelow(buf: Sector, n: nat, m: nat): (s: nat)
    requires m <= n <= G
    ensures s <= m && (s < m ==> Noticed(buf, n, m - 1 - s))
    ensures forall i: nat :: m - s <= i < m ==> !Noticed(buf, n, i)
  {
    if m == 0 || Noticed(buf, n, m - 1) then 0 else 1 + UnnoticedBelow(buf, n, m - 1)
  }

  /** The free tail that the scan sees. */
  function SeenTail(buf: Sector, n: nat): (s: nat)
    requires n <= G
    ensures s <= n && (s < n ==> Noticed(buf, n, n - 1 - s))
    ensures forall i: nat :: n - s <= i < n ==> !Noticed(buf, n, i)
  {
    UnnoticedBelow(buf, n, n)
  }

  /** The last used bit, if there is one, is noticed. */
  predicate HonestTail(buf: Sector, n: nat)
    requires n <= G
  {
    var t := Tail(buf, n);
    t == n ||
    var b := (n - 1 - t) / 8;
    b == (n - 1) / 8 || b == 0 || buf[b - 1] != ZERO
  }

  lemma HonestIffNoticed(buf: Sector, n: nat)
    requires n <= G && Tail(buf, n) < n
    ensures HonestTail(buf, n) <==> Noticed(buf, n, n - 1 - Tail(buf, n))
  {
  }

  /** The seen tail is never shorter than the free tail, and equal to it exactly when honest. */
  lemma SeenTailIffHonest(buf: Sector, n: nat)
    requires n <= G
    ensures Tail(buf, n) <= SeenTail(buf, n) <= n
    ensures SeenTail(buf, n) == Tail(buf, n) <==> HonestTail(buf, n)
  {
    var t, s := Tail(buf, n), SeenTail(buf, n);
    assert s < n ==> Bit(buf, n - 1 - s);
    if t < n {
      HonestIffNoticed(buf, n);
    }
  }

  /** A byte shifted right j times. */
  function Shifted(x: Byte, j: nat): (r: Byte)
  {
    seq(8, i requires 0 <= i < 8 => i + j < 8 && x[i + j])
  }

  function ShiftRight(x: Byte): (r: Byte)
  {
    Shifted(x, 1)
  }

  /** A byte of the buffer is zero exactly when its eight bits are free. */
  lemma ZeroByte(buf: Sector, k: nat)
    requires k < SECTOR_SIZE
    ensures buf[k] == ZERO <==> FreeBits(buf, 8 * k, 8 * k + 8)
  {
    assert forall j: nat :: j < 8 ==> Bit(buf, 8 * k + j) == buf[k][j] && ZERO[j] == false;
    if FreeBits(buf, 8 * k, 8 * k + 8) {
      forall j: nat | j < 8 ensures buf[k][j] == false {
        assert !Bit(buf, 8 * k + j);
      }
      assert buf[k] == ZERO;
    }
    if buf[k] == ZERO {
      forall i: nat | 8 * k <= i < 8 * k + 8 ensures !Bit(buf, i) {
        assert i / 8 == k;
        assert ZERO[i % 8] == false;
      }
    }
  }

  /** The prefix half of rfs_group_prefix_suffix_free. */
  method PrefixFree(buf: Sector, n: nat) returns (p: nat)
    requires n <= G
    ensures p == Head(buf, n)
  {
    p := 0;
    var b := 0;
    while b + 8 <= n
      invariant b == p <= n && b % 8 == 0 && FreeBits(buf, 0, b)
    {
      var byte := buf[b / 8];
      ZeroByte(buf, b / 8);
      if byte == ZERO {
        p, b := p + 8, b + 8;
      } else {
        p := PrefixInByte(buf, n, b);
        b := p;
        break;
      }
    }
    while b < n
      invariant b == p <= n && FreeBits(buf, 0, b)
    {
      if !Bit(buf, b) {
        p, b := p + 1, b + 1;
      } else {
        break;
      }
    }
    HeadUnique(buf, n, p, Head(buf, n));
  }

  /** The bit loop on the first byte that is not zero. */
  method PrefixInByte(buf: Sector, n: nat, b0: nat) returns (b: nat)
    requires n <= G && b0 % 8 == 0 && b0 + 8 <= n && FreeBits(buf, 0, b0) && buf[b0 / 8] != ZERO
    ensures b0 <= b < n && FreeBits(buf, 0, b) && Bit(buf, b)
  {
    ghost var byte := buf[b0 / 8];
    ghost var w := SomeOne(byte);
    var x := buf[b0 / 8];
    b := b0;
    assert x == Shifted(byte, 0);
    while b < n && !x[0]
      invariant b0 <= b <= b0 + w && FreeBits(buf, 0, b)
      invariant x == Shifted(byte, b - b0)
      decreases n - b
    {
      assert x[0] == byte[b - b0] == Bit(buf, b);
      x := ShiftRight(x);
      b := b + 1;
    }
    assert x[0] == byte[b - b0] == Bit(buf, b);
  }

  lemma SomeOne(x: Byte) returns (w: nat)
    requires x != ZERO
    ensures w < 8 && x[w]
  {
    w :| w < 8 && x[w] != ZERO[w];
  }

  lemma HeadUnique(buf: Sector, n: nat, p: nat, q: nat)
    requires n <= G && IsHead(buf, n, p) && IsHead(buf, n, q)
    ensures p == q
  {
  }

  // ---- The suffix scan ----

  /** The scan has passed the bits above b, and would notice any used bit in the rest of the byte
      where it stands. */
  ghost predicate ScanAt(buf: Sector, n: nat, b: int)
    requires n <= G
  {
    && -1 <= b < n
    && (forall i: nat :: b < i < n ==> !Noticed(buf, n, i))
    && (b >= 0 ==> b / 8 == (n - 1) / 8 || b / 8 == 0 || buf[b / 8 - 1] != ZERO || buf[b / 8] == ZERO)
  }

  lemma ScanEnds(buf: Sector, n: nat, b: int)
    requires n <= G && ScanAt(buf, n, b) && (b >= 0 ==> Bit(buf, b))
    ensures n - 1 - b == SeenTail(buf, n)
  {
    if b >= 0 {
      ZeroByte(buf, b / 8);
      assert Noticed(buf, n, b);
    }
  }

  /** The suffix half of rfs_group_prefix_suffix_free. */
  method SuffixFree(buf: Sector, n: nat) returns (s: nat)
    requires n <= G
    ensures s == SeenTail(buf, n)
  {
    s := 0;
    var b: int := n - 1;
    while b >= 0
      invariant s == n - 1 - b && ScanAt(buf, n, b)
      decreases b
    {
      if Bit(buf, b) {
        break;
      }
      s := s + 1;
      b := b - 1;
      if (b + 1) % 8 == 0 && b >= 0 {
        var skipped := SkipZeroBytes(buf, b);
        ScanSkip(buf, n, b, skipped);
        s := s + 8 * skipped;
        b := b - 8 * skipped;
      }
    }
    ScanEnds(buf, n, b);
  }

  /** The inner loop: how many bytes, counted from one below the byte of b, are zero. */
  method SkipZeroBytes(buf: Sector, b: nat) returns (skipped: nat)
    requires b < G && (b + 1) % 8 == 0
    ensures skipped <= b / 8
    ensures forall i: nat :: b / 8 - skipped <= i < b / 8 ==> buf[i] == ZERO
    ensures skipped < b / 8 ==> buf[b / 8 - skipped - 1] != ZERO
  {
    skipped := 0;
    var byteIdx: int := b / 8 - 1;
    while byteIdx >= 0 && buf[byteIdx] == ZERO
      invariant byteIdx == b / 8 - 1 - skipped >= -1
      invariant forall i: nat :: byteIdx < i < b / 8 ==> buf[i] == ZERO
    {
      skipped := skipped + 1;
      byteIdx := byteIdx - 1;
    }
  }

  /** A skip from a byte boundary lands where the scan may stand. */
  lemma ScanSkip(buf: Sector, n: nat, b: nat, skipped: nat)
    requires n <= G && b + 1 < n && (b + 1) % 8 == 0 && skipped <= b / 8
    requires forall i: nat :: b < i < n ==> !Noticed(buf, n, i)
    requires forall i: nat :: b / 8 - skipped <= i < b / 8 ==> buf[i] == ZERO
    requires skipped < b / 8 ==> buf[b / 8 - skipped - 1] != ZERO
    ensures ScanAt(buf, n, b - 8 * skipped)
  {
    var q := b / 8;
    assert b == 8 * q + 7;
    forall i: nat | b - 8 * skipped < i <= b ensures !Noticed(buf, n, i) {
      var k := i / 8;
      if k < q {
        ZeroByte(buf, k);
        assert !Bit(buf, i);
      } else {
        assert buf[q - 1] == ZERO;
      }
    }
  }

  // ---- The run search ----

  /** A run of `need` free bits starts at a, within the first n bits. */
  predicate RunAt(buf: Sector, n: nat, need: nat, a: nat)
    requires n <= G
  {
    a + need <= n && FreeBits(buf, a, a + need)
  }

  /** The first run at or after `from`, or n if there is none. */
  function FirstRun(buf: Sector, n: nat, need: nat, from: nat): (a: nat)
    requires from <= n <= G && need > 0
    ensures from <= a <= n && (a < n ==> RunAt(buf, n, need, a))
    ensures forall x: nat :: from <= x < a ==> !RunAt(buf, n, need, x)
    decreases n - from
  {
    if from == n || RunAt(buf, n, need, from) then from else FirstRun(buf, n, need, from + 1)
  }

  /** `rfs_group_find_run_from`: the first run of `need` free bits at or after `offset`; the
      source returns UINT64_MAX when there is none. */
  method FindRunFrom(buf: Sector, n: nat, offset: nat, need: nat) returns (found: bool, at: nat)
    requires n <= G
    ensures need == 0 ==> found && at == offset
    ensures need > 0 && found ==> offset <= at && RunAt(buf, n, need, at)
    ensures need > 0 && found ==> forall a: nat :: offset <= a < at ==> !RunAt(buf, n, need, a)
    ensures need > 0 && !found ==> forall a: nat :: offset <= a ==> !RunAt(buf, n, need, a)
  {
    var run, runStart := 0, offset;
    if need == 0 {
      return true, offset;
    }
    if offset >= n {
      return false, 0;
    }
    var b := offset;
    while b < n
      invariant offset <= b <= n && run < need && run <= b - offset
      invariant FreeBits(buf, b - run, b) && (run > 0 ==> runStart == b - run)
      invariant forall a: nat :: offset <= a < b - run ==> !RunAt(buf, n, need, a)
    {
      if !Bit(buf, b) {
        if run == 0 {
          runStart := b;
        }
        run := run + 1;
        if run >= need {
          return true, runStart;
        }
      } else {
        run := 0;
      }
      b := b + 1;
    }
    return false, 0;
  }

  // ---- A tail the code gets wrong ----

  /** Bits 4080..4087 are used and everything else is free. */
  function OneUsedByte(): (buf: Sector)
  {
    seq(SECTOR_SIZE, i => if i == 510 then ONES else ZERO)
  }

  /** The free tail has eight bits, but the scan does not notice the used byte and sees a wholly
      free sector. */
  lemma DishonestTailExists()
    ensures Tail(OneUsedByte(), G) == 8 && SeenTail(OneUsedByte(), G) == G && !HonestTail(OneUsedByte(), G)
  {
    var buf := OneUsedByte();
    assert Bit(buf, 4087);
    forall i: nat | i < G ensures Bit(buf, i) <==> i / 8 == 510 {
    }
    TailUnique(buf, G, Tail(buf, G), 8);
    assert buf[509] == ZERO;
    forall i: nat | i < G ensures !Noticed(buf, G, i) {
    }
  }

  lemma TailUnique(buf: Sector, n: nat, t: nat, s: nat)
    requires n <= G && IsTail(buf, n, t) && IsTail(buf, n, s)
    ensures t == s
  {
  }
}
