/** Bytes as eight bits, most significant first, and byte sequences as bit strings. */
module ByteBits {
  import opened BitString

  type byte = bv8

  /** 1 << q */
  function Mask(q: nat): byte
    requires q < 8
  {
    if q == 0 then 0x01 else if q == 1 then 0x02 else if q == 2 then 0x04 else if q == 3 then 0x08
    else if q == 4 then 0x10 else if q == 5 then 0x20 else if q == 6 then 0x40 else 0x80
  }

  lemma MaskIsShift(q: nat)
    requires q < 8
    ensures Mask(q) == (1 as byte) << q
  {}

  /** Bit q of a byte; bit 7 is the first one in a stream. */
  predicate BitOf(b: byte, q: nat)
    requires q < 8
  {
    b & Mask(q) != 0
  }

  lemma BitIsShift(b: byte, q: nat)
    requires q < 8
    ensures BitOf(b, q) <==> (b >> q) & 1 == 1
  {}

  /** b & ~(1 << q) */
  function ClearBit(b: byte, q: nat): byte
    requires q < 8
  {
    b & !Mask(q)
  }

  /** b | v << q */
  function OrBit(b: byte, q: nat, v: bool): byte
    requires q < 8
  {
    b | if v then Mask(q) else 0
  }

  function PutBit(b: byte, q: nat, v: bool): byte
    requires q < 8
  {
    OrBit(ClearBit(b, q), q, v)
  }

  lemma PutBitBits(b: byte, q: nat, v: bool, j: nat)
    requires q < 8 && j < 8
    ensures BitOf(PutBit(b, q, v), j) == if j == q then v else BitOf(b, j)
  {}

  /** A fresh byte that holds only its first bit. */
  function FirstBit(v: bool): byte {
    if v then 0x80 else 0
  }

  /** The bits of a buffer in stream order. */
  function BitsOf(a: seq<byte>): (s: Bits)
    ensures |s| == 8 * |a|
    ensures forall i {:trigger s[i]} :: 0 <= i < |s| ==> s[i] == BitOf(a[i / 8], 7 - i % 8)
  {
    seq(8 * |a|, i requires 0 <= i < 8 * |a| => BitOf(a[i / 8], 7 - i % 8))
  }

  /** Byte i of a buffer is eight bits of the stream, the most significant first. */
  lemma ByteInStream(a: seq<byte>, i: nat)
    requires i < |a|
    ensures var s, b := BitsOf(a), a[i];
      && s[8 * i] == (b & 0x80 != 0) && s[8 * i + 1] == (b & 0x40 != 0)
      && s[8 * i + 2] == (b & 0x20 != 0) && s[8 * i + 3] == (b & 0x10 != 0)
      && s[8 * i + 4] == (b & 0x08 != 0) && s[8 * i + 5] == (b & 0x04 != 0)
      && s[8 * i + 6] == (b & 0x02 != 0) && s[8 * i + 7] == (b & 0x01 != 0)
  {
    hide BitsOf, Mask;
    Masks();
    BitInStream(a, i, 0);
    BitInStream(a, i, 1);
    BitInStream(a, i, 2);
    BitInStream(a, i, 3);
    BitInStream(a, i, 4);
    BitInStream(a, i, 5);
    BitInStream(a, i, 6);
    BitInStream(a, i, 7);
  }

  lemma Masks()
    ensures Mask(7) == 0x80 && Mask(6) == 0x40 && Mask(5) == 0x20 && Mask(4) == 0x10
    ensures Mask(3) == 0x08 && Mask(2) == 0x04 && Mask(1) == 0x02 && Mask(0) == 0x01
  {}

  lemma BitInStream(a: seq<byte>, i: nat, j: nat)
    requires i < |a| && j < 8
    ensures 8 * i + j < |BitsOf(a)| && BitsOf(a)[8 * i + j] == (a[i] & Mask(7 - j) != 0)
  {
    hide Mask;
    assert (8 * i + j) / 8 == i && (8 * i + j) % 8 == j;
  }

  function CeilBytes(off: nat): nat {
    (off + 7) / 8
  }

  /** The bits of the last partial byte beyond off are zero. */
  predicate TailZero(a: seq<byte>, off: nat)
    requires off <= 8 * |a|
  {
    forall i {:trigger BitsOf(a)[i]} :: off <= i < 8 * CeilBytes(off) ==> !BitsOf(a)[i]
  }

  lemma AlignedTailZero(a: seq<byte>, off: nat)
    requires off <= 8 * |a| && off % 8 == 0
    ensures TailZero(a, off)
  {}

  /** Changing one bit of one byte changes one bit of the stream. */
  lemma PutBitStream(a: seq<byte>, off: nat, v: bool)
    requires off < 8 * |a|
    ensures BitsOf(a[off / 8 := PutBit(a[off / 8], 7 - off % 8, v)]) == BitsOf(a)[off := v]
  {
    hide BitOf, PutBit;
    var a' := a[off / 8 := PutBit(a[off / 8], 7 - off % 8, v)];
    var x, y := BitsOf(a'), BitsOf(a)[off := v];
    forall i {:trigger x[i]} | 0 <= i < |x|
      ensures x[i] == y[i]
    {
      if i / 8 == off / 8 {
        PutBitBits(a[off / 8], 7 - off % 8, v, 7 - i % 8);
      }
    }
  }

  /** Storing a fresh byte clears the seven bits after its first. */
  lemma FirstBitStream(a: seq<byte>, off: nat, v: bool)
    requires off < 8 * |a| && off % 8 == 0
    ensures var s := BitsOf(a[off / 8 := FirstBit(v)]);
      && s[..off] == BitsOf(a)[..off] && s[off] == v
      && (forall i {:trigger s[i]} :: off < i < off + 8 ==> !s[i])
  {}

  /**
   What writing a word at off does to a buffer: the bits before stay, the word
   follows, the rest of its last byte stays zero and later bytes are untouched.
   */
  ghost predicate Appended(a: seq<byte>, off: nat, a': seq<byte>, off': nat, word: Bits) {
    && |a| == |a'| && off' == off + |word| <= 8 * |a|
    && BitsOf(a')[..off'] == BitsOf(a)[..off] + word
    && (TailZero(a, off) ==> TailZero(a', off'))
    && (forall j :: CeilBytes(off') <= j < |a| ==> a'[j] == a[j])
  }

  lemma AppendedNothing(a: seq<byte>, off: nat)
    requires off <= 8 * |a|
    ensures Appended(a, off, a, off, [])
  {}

  lemma AppendedMore(a: seq<byte>, off: nat, b: seq<byte>, off': nat, w: Bits, c: seq<byte>, off'': nat, w': Bits)
    requires Appended(a, off, b, off', w) && Appended(b, off', c, off'', w')
    ensures Appended(a, off, c, off'', w + w')
  {
    hide BitsOf;
    assert BitsOf(a)[..off] + (w + w') == (BitsOf(a)[..off] + w) + w';
  }

  /** The step of avm_wb_write_bit. */
  function StoreBit(a: seq<byte>, off: nat, v: bool): seq<byte>
    requires off < 8 * |a|
  {
    if off % 8 == 0 then a[off / 8 := FirstBit(v)]
    else a[off / 8 := PutBit(a[off / 8], 7 - off % 8, v)]
  }

  lemma StoreBitAppends(a: seq<byte>, off: nat, v: bool)
    requires off < 8 * |a|
    ensures Appended(a, off, StoreBit(a, off, v), off + 1, [v])
  {
    hide BitOf, FirstBit, PutBit;
    var a' := StoreBit(a, off, v);
    if off % 8 == 0 {
      FirstBitStream(a, off, v);
      assert BitsOf(a')[..off + 1] == BitsOf(a)[..off] + [v];
    } else {
      PutBitStream(a, off, v);
      assert BitsOf(a')[..off + 1] == BitsOf(a)[..off] + [v];
    }
  }
}
