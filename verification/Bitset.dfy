/** The bitsets of include/retrofs.h:180-209 and the bit-level view of a map sector.

    A byte is modelled by its eight bits, lowest first.  The module `ByteBits` justifies that: it
    proves that the C operators on 8-bit words used by the source, taken here as Dafny's bv8
    operators, are the pointwise operations on those bits. */
module ByteBits {

  type Byte = b: seq<bool> | |b| == 8 witness [false, false, false, false, false, false, false, false]

  const ZERO: Byte := [false, false, false, false, false, false, false, false]
  const ONES: Byte := [true, true, true, true, true, true, true, true]

  function Or(a: Byte, b: Byte): (r: Byte) { seq(8, j requires 0 <= j < 8 => a[j] || b[j]) }
  function And(a: Byte, b: Byte): (r: Byte) { seq(8, j requires 0 <= j < 8 => a[j] && b[j]) }
  function Not(a: Byte): (r: Byte) { seq(8, j requires 0 <= j < 8 => !a[j]) }

  /** `((1u << span) - 1u) << off`: ones in [off, off + span). */
  function RangeMask(off: nat, span: nat): (r: Byte)
    requires off + span <= 8
  {
    seq(8, j requires 0 <= j < 8 => off <= j < off + span)
  }

  // ---- The same operations on machine bytes ----

  /** Bit j of a machine byte. */
  predicate BitAt(w: bv8, j: nat)
    requires j < 8
  {
    w & OneHot(j) != 0
  }

  function OneHot(j: nat): (r: bv8)
    requires j < 8
  {
    (1 as bv8) << j
  }

  function BitsOf(w: bv8): (r: Byte)
  {
    seq(8, j requires 0 <= j < 8 => BitAt(w, j))
  }

  lemma OneHots()
    ensures OneHot(0) == 1 && OneHot(1) == 2 && OneHot(2) == 4 && OneHot(3) == 8
    ensures OneHot(4) == 16 && OneHot(5) == 32 && OneHot(6) == 64 && OneHot(7) == 128
  {
  }

  /** `|` acts on each bit separately. */
  lemma OrPointwise(a: bv8, b: bv8, j: nat)
    requires j < 8
    ensures BitAt(a | b, j) == Or(BitsOf(a), BitsOf(b))[j]
  {
    OrMasked(a, b, OneHot(j));
  }

  lemma OrMasked(a: bv8, b: bv8, m: bv8)
    ensures (a | b) & m != 0 <==> a & m != 0 || b & m != 0
  {
  }

  /** `~` acts on each bit separately. */
  lemma NotPointwise(a: bv8, j: nat)
    requires j < 8
    ensures BitAt(!a, j) == Not(BitsOf(a))[j]
  {
    OneHots();
  }

  /** `&` acts on each bit separately. */
  lemma AndPointwise(a: bv8, b: bv8, j: nat)
    requires j < 8
    ensures BitAt(a & b, j) == And(BitsOf(a), BitsOf(b))[j]
  {
    OneHots();
  }

  lemma RangeMaskPointwise(off: nat, span: nat, j: nat)
    requires off + span <= 8 && j < 8
    ensures BitAt((((1 as bv8) << span) - 1) << off, j) == RangeMask(off, span)[j]
  {
    OneHots();
  }

  /** `byte == 0x00` is the test for the byte `ZERO`. */
  lemma ZeroTest(w: bv8)
    ensures w == 0 <==> BitsOf(w) == ZERO
  {
    OneHots();
    if BitsOf(w) == ZERO {
      assert forall j: nat :: j < 8 ==> BitAt(w, j) == BitsOf(w)[j];
      assert !BitAt(w, 0) && !BitAt(w, 1) && !BitAt(w, 2) && !BitAt(w, 3);
      assert !BitAt(w, 4) && !BitAt(w, 5) && !BitAt(w, 6) && !BitAt(w, 7);
    }
  }
}

module Bitset {
  import opened ByteBits

  /** The mask `1u << i`. */
  function Mask(i: nat): (r: Byte)
    requires i < 8
  {
    RangeMask(i, 1)
  }

  // ---- Bits of a byte sequence ----

  predicate Bit(bs: seq<Byte>, i: nat)
    requires i < 8 * |bs|
  {
    bs[i / 8][i % 8]
  }

  /** The bitset after one call of bitset_set. */
  function Put(bs: seq<Byte>, idx: nat, val: bool): (r: seq<Byte>)
    requires idx < 8 * |bs|
    ensures |r| == |bs|
  {
    var b := bs[idx / 8];
    bs[idx / 8 := if val then Or(b, Mask(idx % 8)) else And(b, Not(Mask(idx % 8)))]
  }

  /** A write is seen at its own index and nowhere else, not even within the same byte. */
  lemma PutBit(bs: seq<Byte>, idx: nat, val: bool, j: nat)
    requires idx < 8 * |bs| && j < 8 * |bs|
    ensures Bit(Put(bs, idx, val), j) == if j == idx then val else Bit(bs, j)
  {
  }

  /** `bitset_bytes`: the sum is taken in 64 bits. */
  function BitsetBytes(nbits: nat): (n: nat)
  {
    (nbits + 7) % 0x1_0000_0000_0000_0000 / 8
  }

  /** Every index below nbits is in bounds, and no byte is wasted, exactly when nbits + 7 does not
      wrap around. */
  lemma BitsetBytesFit(nbits: nat)
    requires nbits < 0x1_0000_0000_0000_0000
    ensures nbits + 7 < 0x1_0000_0000_0000_0000 <==>
            (forall idx: nat | idx < nbits :: idx / 8 < BitsetBytes(nbits)) && 8 * BitsetBytes(nbits) < nbits + 8
  {
    if nbits + 7 >= 0x1_0000_0000_0000_0000 {
      assert (nbits - 1) / 8 >= BitsetBytes(nbits);
    }
  }

  method BitsetSet(bs: array<Byte>, idx: nat, val: bool)
    requires idx < 8 * bs.Length
    modifies bs
    ensures bs[..] == Put(old(bs[..]), idx, val)
  {
    var byte := idx / 8;
    var mask := Mask(idx % 8);
    if val {
      bs[byte] := Or(bs[byte], mask);
    } else {
      bs[byte] := And(bs[byte], Not(mask));
    }
  }

  method BitsetGet(bs: array<Byte>, idx: nat) returns (r: bool)
    requires idx < 8 * bs.Length
    ensures r == Bit(bs[..], idx)
  {
    var byte := idx / 8;
    var mask := Mask(idx % 8);
    r := And(bs[byte], mask) != ZERO;
    assert And(bs[byte], mask)[idx % 8] == bs[byte][idx % 8];
    assert ZERO[idx % 8] == false;
  }

  // ---- Runs of writes ----

  datatype Write = Write(idx: nat, val: bool)

  predicate InBounds(ws: seq<Write>, nbits: nat)
  {
    forall k: nat | k < |ws| :: ws[k].idx < nbits
  }

  /** The bitset after a run of bitset_set calls. */
  function Replay(bs: seq<Byte>, ws: seq<Write>): (r: seq<Byte>)
    requires InBounds(ws, 8 * |bs|)
    ensures |r| == |bs|
  {
    if ws == [] then bs
    else
      var last := ws[|ws| - 1];
      Put(Replay(bs, ws[..|ws| - 1]), last.idx, last.val)
  }

  /** The plain map from indices to booleans after the same writes. */
  function Overwrite(m: map<nat, bool>, ws: seq<Write>): (r: map<nat, bool>)
  {
    if ws == [] then m
    else
      var last := ws[|ws| - 1];
      Overwrite(m, ws[..|ws| - 1])[last.idx := last.val]
  }

  /** After any run of writes, each index holds the last value written to it, or its original
      value if none was. */
  lemma {:induction false} BitsetRefinesMap(bs: seq<Byte>, ws: seq<Write>, j: nat)
    requires InBounds(ws, 8 * |bs|) && j < 8 * |bs|
    ensures Bit(Replay(bs, ws), j) ==
            var m := Overwrite(map[], ws); if j in m then m[j] else Bit(bs, j)
  {
    if ws != [] {
      var init, last := ws[..|ws| - 1], ws[|ws| - 1];
      BitsetRefinesMap(bs, init, j);
      PutBit(Replay(bs, init), last.idx, last.val, j);
    }
  }

  // ---- Masked ranges within one byte, as rfs_mark_extent writes them ----

  function One(b: bool): (r: nat)
  {
    if b then 1 else 0
  }

  /** `__builtin_popcount` of a byte. */
  function PopCount(b: Byte): (n: nat)
  {
    Count([b], 0, 8, true)
  }

  /** The number of bits in [lo, hi) that equal v. */
  function Count(bs: seq<Byte>, lo: nat, hi: nat, v: bool): (n: nat)
    requires lo <= hi <= 8 * |bs|
    ensures n <= hi - lo
  {
    if lo == hi then 0 else Count(bs, lo, hi - 1, v) + One(Bit(bs, hi - 1) == v)
  }

  lemma {:induction false} CountSplit(bs: seq<Byte>, lo: nat, mid: nat, hi: nat, v: bool)
    requires lo <= mid <= hi <= 8 * |bs|
    ensures Count(bs, lo, hi, v) == Count(bs, lo, mid, v) + Count(bs, mid, hi, v)
  {
    if mid < hi {
      CountSplit(bs, lo, mid, hi - 1, v);
    }
  }

  /** Counting depends only on the bits in the range. */
  lemma {:induction false} CountSame(bs: seq<Byte>, cs: seq<Byte>, lo: nat, hi: nat, v: bool)
    requires lo <= hi <= 8 * |bs| && |cs| == |bs|
    requires forall i: nat | lo <= i < hi :: Bit(bs, i) == Bit(cs, i)
    ensures Count(bs, lo, hi, v) == Count(cs, lo, hi, v)
  {
    if lo < hi {
      CountSame(bs, cs, lo, hi - 1, v);
    }
  }

  lemma {:induction false} CountComplement(bs: seq<Byte>, lo: nat, hi: nat)
    requires lo <= hi <= 8 * |bs|
    ensures Count(bs, lo, hi, true) + Count(bs, lo, hi, false) == hi - lo
  {
    if lo < hi {
      CountComplement(bs, lo, hi - 1);
    }
  }

  lemma {:induction false} CountFull(bs: seq<Byte>, lo: nat, hi: nat, v: bool)
    requires lo <= hi <= 8 * |bs|
    ensures Count(bs, lo, hi, v) == hi - lo <==> forall i: nat | lo <= i < hi :: Bit(bs, i) == v
  {
    if lo < hi {
      CountFull(bs, lo, hi - 1, v);
    }
  }

  lemma {:induction false} CountNone(bs: seq<Byte>, lo: nat, hi: nat, v: bool)
    requires lo <= hi <= 8 * |bs|
    ensures Count(bs, lo, hi, v) == 0 <==> forall i: nat | lo <= i < hi :: Bit(bs, i) != v
  {
    if lo < hi {
      CountNone(bs, lo, hi - 1, v);
    }
  }

  /** The changed bits of a masked write: `(~before) & mask` or `before & mask`. */
  function Delta(before: Byte, mask: Byte, used: bool): (r: Byte)
  {
    if used then And(Not(before), mask) else And(before, mask)
  }

  /** The changed bits are the bits of the range that differ from the value written. */
  lemma PopCountDelta(bs: seq<Byte>, at: nat, span: nat, used: bool)
    requires at < 8 * |bs| && at % 8 + span <= 8
    ensures PopCount(Delta(bs[at / 8], RangeMask(at % 8, span), used)) == Count(bs, at, at + span, !used)
  {
    var off := at % 8;
    var d := Delta(bs[at / 8], RangeMask(off, span), used);
    CountSplit([d], 0, off, 8, true);
    CountSplit([d], off, off + span, 8, true);
    CountNone([d], 0, off, true);
    CountNone([d], off + span, 8, true);
    CountByte(bs, at, span, d, used);
  }

  lemma {:induction false} CountByte(bs: seq<Byte>, at: nat, span: nat, d: Byte, used: bool)
    requires at < 8 * |bs| && at % 8 + span <= 8
    requires forall j: nat | at % 8 <= j < at % 8 + span :: d[j] == (bs[at / 8][j] != used)
    ensures Count([d], at % 8, at % 8 + span, true) == Count(bs, at, at + span, !used)
    decreases span
  {
    if span > 0 {
      CountByte(bs, at, span - 1, d, used);
      assert (at + span - 1) / 8 == at / 8 && (at + span - 1) % 8 == at % 8 + span - 1;
    }
  }

  /** `cs` is `bs` with the bits in [lo, hi) set to v. */
  ghost predicate IsFilled(cs: seq<Byte>, bs: seq<Byte>, lo: nat, hi: nat, v: bool)
    requires hi <= 8 * |bs|
  {
    |cs| == |bs| && forall i: nat | i < 8 * |bs| :: Bit(cs, i) == if lo <= i < hi then v else Bit(bs, i)
  }

  lemma DivModStep(at: nat, i: nat)
    requires at <= i < at + 8 - at % 8
    ensures i / 8 == at / 8
  {
  }

  function Written(before: Byte, mask: Byte, used: bool): (r: Byte)
  {
    if used then Or(before, mask) else And(before, Not(mask))
  }

  lemma WrittenBit(before: Byte, off: nat, span: nat, used: bool, j: nat)
    requires off + span <= 8 && j < 8
    ensures Written(before, RangeMask(off, span), used)[j] == if off <= j < off + span then used else before[j]
  {
  }

  /** The buffer after one masked write, and the number of bits that the write changes. */
  function StepBuffer(cs: seq<Byte>, at: nat, span: nat, used: bool): (ds: seq<Byte>)
    requires at < 8 * |cs| && at % 8 + span <= 8
    ensures |ds| == |cs|
  {
    cs[at / 8 := Written(cs[at / 8], RangeMask(at % 8, span), used)]
  }

  function StepChanges(cs: seq<Byte>, at: nat, span: nat, used: bool): (r: nat)
    requires at < 8 * |cs| && at % 8 + span <= 8
  {
    PopCount(Delta(cs[at / 8], RangeMask(at % 8, span), used))
  }

  lemma StepBit(cs: seq<Byte>, at: nat, span: nat, used: bool, i: nat)
    requires at < 8 * |cs| && at % 8 + span <= 8 && i < 8 * |cs|
    ensures Bit(StepBuffer(cs, at, span, used), i) == if at <= i < at + span then used else Bit(cs, i)
  {
    if at <= i < at + span {
      DivModStep(at, i);
    }
    WrittenBit(cs[at / 8], at % 8, span, used, i % 8);
    assert i / 8 == at / 8 ==> i - at == i % 8 - at % 8;
  }

  /** One step of the byte loop extends the filled range by `span` bits. */
  lemma FillStep(bs: seq<Byte>, cs: seq<Byte>, lo: nat, at: nat, span: nat, used: bool, next: nat)
    requires lo <= at < 8 * |bs| && at % 8 + span <= 8 && next == at + span
    requires IsFilled(cs, bs, lo, at, used)
    ensures next <= 8 * |bs| && IsFilled(StepBuffer(cs, at, span, used), bs, lo, next, used)
    ensures Count(bs, lo, at, !used) + StepChanges(cs, at, span, used) == Count(bs, lo, next, !used)
  {
    StepFills(bs, cs, lo, at, span, used, next);
    StepChangesCount(bs, cs, at, span, used, next);
    CountSplit(bs, lo, at, next, !used);
  }

  lemma StepFills(bs: seq<Byte>, cs: seq<Byte>, lo: nat, at: nat, span: nat, used: bool, next: nat)
    requires lo <= at < 8 * |bs| && at % 8 + span <= 8 && next == at + span
    requires IsFilled(cs, bs, lo, at, used)
    ensures next <= 8 * |bs| && IsFilled(StepBuffer(cs, at, span, used), bs, lo, next, used)
    ensures forall i: nat | at <= i < next :: Bit(cs, i) == Bit(bs, i)
  {
    var ds := StepBuffer(cs, at, span, used);
    forall i: nat | i < 8 * |bs|
      ensures Bit(ds, i) == if lo <= i < next then used else Bit(bs, i)
    {
      StepBit(cs, at, span, used, i);
      assert Bit(cs, i) == if lo <= i < at then used else Bit(bs, i);
    }
  }

  lemma StepChangesCount(bs: seq<Byte>, cs: seq<Byte>, at: nat, span: nat, used: bool, next: nat)
    requires at < 8 * |bs| && at % 8 + span <= 8 && |cs| == |bs| && next == at + span <= 8 * |bs|
    requires forall i: nat | at <= i < next :: Bit(cs, i) == Bit(bs, i)
    ensures StepChanges(cs, at, span, used) == Count(bs, at, next, !used)
  {
    PopCountDelta(cs, at, span, used);
    CountSame(cs, bs, at, next, !used);
  }

  method FillByte(buf: array<Byte>, at: nat, span: nat, used: bool) returns (changed: nat)
    requires at < 8 * buf.Length && at % 8 + span <= 8
    modifies buf
    ensures buf[..] == StepBuffer(old(buf[..]), at, span, used)
    ensures changed == StepChanges(old(buf[..]), at, span, used)
  {
    var mask := RangeMask(at % 8, span);
    var before := buf[at / 8];
    buf[at / 8] := Written(before, mask, used);
    changed := PopCount(Delta(before, mask, used));
  }

  /** The byte loop of src/fs/retrofs/fsmap.c:276-295: set or clear the bits [lo, hi) of a sector
      buffer and count those that changed. */
  method FillRange(buf: array<Byte>, lo: nat, hi: nat, used: bool) returns (transitions: nat)
    requires lo <= hi <= 8 * buf.Length
    modifies buf
    ensures IsFilled(buf[..], old(buf[..]), lo, hi, used)
    ensures transitions == Count(old(buf[..]), lo, hi, !used)
  {
    transitions := 0;
    var b := lo;
    ghost var bs := buf[..];
    while b < hi
      invariant lo <= b <= hi
      invariant IsFilled(buf[..], bs, lo, b, used)
      invariant transitions == Count(bs, lo, b, !used)
    {
      var span := if 8 - b % 8 <= hi - b then 8 - b % 8 else hi - b;
      var next := b + span;
      FillStep(bs, buf[..], lo, b, span, used, next);
      var changed := FillByte(buf, b, span, used);
      transitions := transitions + changed;
      b := next;
    }
  }
}
