/** avm_dsp/bitwriter_buffer.c: the header writers over a byte buffer. */
module BitWriterBuffer {
  import opened MachineInts
  import opened Powers
  import opened BitString
  import opened ByteBits
  import opened Recenter
  import opened Quniform
  import opened Subexp
  import opened Vlc

  /** Offsets are computed in an int. */
  const MAX_BITS: nat := 0x7FFF_FFFF

  class BitWriteBuffer {
    const buffer: array<byte>
    var bitOffset: nat

    ghost predicate Valid()
      reads this
    {
      bitOffset <= 8 * buffer.Length <= MAX_BITS
    }

    /** n more bits fit. */
    ghost predicate Room(n: nat)
      reads this
    {
      bitOffset + n <= 8 * buffer.Length <= MAX_BITS
    }

    /** The bit string written so far. */
    ghost function Written(): Bits
      reads this, buffer
      requires Valid()
    {
      BitsOf(buffer[..])[..bitOffset]
    }

    constructor (buffer: array<byte>)
      requires 8 * buffer.Length <= MAX_BITS
      ensures this.buffer == buffer && bitOffset == 0 && Valid() && Written() == []
      ensures TailZero(buffer[..], bitOffset)
    {
      this.buffer := buffer;
      bitOffset := 0;
    }

    /** The least number of bytes that hold the written bits. */
    method BytesWritten() returns (n: nat)
      ensures bitOffset <= 8 * n < bitOffset + 8
    {
      n := bitOffset / 8 + if bitOffset % 8 > 0 then 1 else 0;
    }

    /** Clears and sets bit q of byte p. */
    method PutBitAt(p: nat, q: nat, bit: bool)
      requires p < buffer.Length && q < 8
      modifies buffer
      ensures buffer[..] == old(buffer[..])[p := PutBit(old(buffer[p]), q, bit)]
    {
      hide ClearBit, OrBit;
      buffer[p] := ClearBit(buffer[p], q);
      buffer[p] := OrBit(buffer[p], q, bit);
    }

    method WriteBit(bit: bool)
      requires Room(1)
      modifies this, buffer
      ensures Appended(old(buffer[..]), old(bitOffset), buffer[..], bitOffset, [bit])
    {
      hide PutBit, FirstBit, Appended;
      var p := bitOffset / 8;
      var q := 7 - bitOffset % 8;
      StoreBitAppends(buffer[..], bitOffset, bit);
      if q == 7 {
        buffer[p] := FirstBit(bit);
      } else {
        PutBitAt(p, q, bit);
      }
      bitOffset := bitOffset + 1;
    }

    /** Overwriting changes one bit of the stream and no other. */
    method OverwriteBit(bit: bool)
      requires Room(1)
      modifies this, buffer
      ensures bitOffset == old(bitOffset) + 1
      ensures BitsOf(buffer[..]) == BitsOf(old(buffer[..]))[old(bitOffset) := bit]
    {
      hide PutBit;
      PutBitStream(buffer[..], bitOffset, bit);
      PutBitAt(bitOffset / 8, 7 - bitOffset % 8, bit);
      bitOffset := bitOffset + 1;
    }

    method WriteLiteral(data: int, bits: nat)
      requires bits <= 31 && Room(bits)
      modifies this, buffer
      ensures Appended(old(buffer[..]), old(bitOffset), buffer[..], bitOffset, Literal(data, bits))
    {
      WriteUnsignedLiteral(data, bits);
    }

    method WriteUnsignedLiteral(data: int, bits: nat)
      requires bits <= 32 && Room(bits)
      modifies this, buffer
      ensures Appended(old(buffer[..]), old(bitOffset), buffer[..], bitOffset, Literal(data, bits))
    {
      hide Appended, Literal, Pow2;
      ghost var a, off := buffer[..], bitOffset;
      var left := bits;
      AppendedNothing(a, off);
      LiteralNothing(data / Pow2(left));
      while left > 0
        invariant 0 <= left <= bits && Room(left)
        invariant Appended(a, off, buffer[..], bitOffset, Literal(data / Pow2(left), bits - left))
      {
        left := left - 1;
        ghost var b, mid := buffer[..], bitOffset;
        var bit := data / Pow2(left) % 2 == 1;
        WriteBit(bit);
        AppendedMore(a, off, b, mid, Literal(data / Pow2(left + 1), bits - left - 1), buffer[..], bitOffset, [bit]);
        NextBit(data, left, bits - left - 1);
        assert Room(left) by { AppendedSize(b, mid, buffer[..], bitOffset, [bit]); }
      }
      ShiftNothing(data);
    }

    /** Overwriting a literal changes only the bits it covers. */
    method OverwriteLiteral(data: int, bits: nat)
      requires Room(bits)
      modifies this, buffer
      ensures bitOffset == old(bitOffset) + bits
      ensures Overwritten(BitsOf(old(buffer[..])), old(bitOffset), BitsOf(buffer[..]), Literal(data, bits))
    {
      hide Literal, Pow2, BitsOf, Overwritten;
      ghost var s, off := BitsOf(buffer[..]), bitOffset;
      var left := bits;
      LiteralNothing(data / Pow2(left));
      OverwrittenNothing(s, off);
      while left > 0
        invariant 0 <= left <= bits && Room(left) && bitOffset == off + (bits - left)
        invariant Overwritten(s, off, BitsOf(buffer[..]), Literal(data / Pow2(left), bits - left))
      {
        left := left - 1;
        ghost var t, head := BitsOf(buffer[..]), Literal(data / Pow2(left + 1), bits - left - 1);
        var bit := data / Pow2(left) % 2 == 1;
        OverwriteBit(bit);
        NextBit(data, left, bits - left - 1);
        OverwrittenMore(s, off, t, head, bit);
      }
      ShiftNothing(data);
    }

    method WriteInvSignedLiteral(data: int, bits: nat)
      requires bits <= 30 && Room(bits + 1)
      modifies this, buffer
      ensures Appended(old(buffer[..]), old(bitOffset), buffer[..], bitOffset, InvSignedBits(bits, data))
    {
      WriteLiteral(data, bits + 1);
    }

    method WriteUvlc(v: nat)
      requires v < UINT32_MAX && Room(|UvlcBits(v)|)
      modifies this, buffer
      ensures Appended(old(buffer[..]), old(bitOffset), buffer[..], bitOffset, UvlcBits(v))
    {
      hide Appended, Literal, Pow2, Msb;
      ghost var a, off := buffer[..], bitOffset;
      Pow2Constants();
      MsbBound(v + 1, 32);
      var leadingZeroes := Msb(v + 1);
      WriteLiteral(0, leadingZeroes);
      ghost var b, mid := buffer[..], bitOffset;
      AppendedSize(a, off, b, mid, Literal(0, leadingZeroes));
      WriteUnsignedLiteral(v + 1, leadingZeroes + 1);
      AppendedMore(a, off, b, mid, Literal(0, leadingZeroes),
                   buffer[..], bitOffset, Literal(v + 1, leadingZeroes + 1));
    }

    method WriteSvlc(v: int)
      requires SvlcRange(v) && Room(|SvlcBits(v)|)
      modifies this, buffer
      ensures Appended(old(buffer[..]), old(bitOffset), buffer[..], bitOffset, SvlcBits(v))
    {
      if v <= 0 {
        var absVal := -v;
        WriteUvlc(2 * absVal);
      } else {
        WriteUvlc(2 * v - 1);
      }
    }

    method WriteQuniform(n: nat, v: nat)
      requires n < UINT16_LIMIT && (n > 1 ==> v < n) && Room(|QuniformBits(n, v)|)
      modifies this, buffer
      ensures Appended(old(buffer[..]), old(bitOffset), buffer[..], bitOffset, QuniformBits(n, v))
    {
      hide Appended, Literal, Pow2, Msb;
      ghost var a, off := buffer[..], bitOffset;
      if n <= 1 {
        AppendedNothing(a, off);
        return;
      }
      Pow2Constants();
      MsbBound(n, 16);
      var l := Msb(n) + 1;
      var m := Pow2(l) - n;
      if v < m {
        WriteLiteral(v, l - 1);
      } else {
        WriteLiteral(m + (v - m) / 2, l - 1);
        ghost var b, mid := buffer[..], bitOffset;
        AppendedSize(a, off, b, mid, Literal(m + (v - m) / 2, l - 1));
        WriteBit((v - m) % 2 == 1);
        AppendedMore(a, off, b, mid, Literal(m + (v - m) / 2, l - 1), buffer[..], bitOffset, [(v - m) % 2 == 1]);
      }
    }

    method WriteRefQuniform(n: nat, r: nat, v: nat)
      requires v < n < UINT16_LIMIT && r < n && Room(|RefQuniformBits(n, r, v)|)
      modifies this, buffer
      ensures Appended(old(buffer[..]), old(bitOffset), buffer[..], bitOffset, RefQuniformBits(n, r, v))
    {
      hide Appended, QuniformBits;
      ghost var a, off := buffer[..], bitOffset;
      var unequal := v != r;
      WriteBit(unequal);
      if unequal {
        ghost var b, mid := buffer[..], bitOffset;
        AppendedSize(a, off, b, mid, [true]);
        var v' := v - if v > r then 1 else 0;
        WriteQuniform(n - 1, v');
        AppendedMore(a, off, b, mid, [true], buffer[..], bitOffset, QuniformBits(n - 1, v'));
      }
    }

    method WriteSubexpfin(n: nat, k: nat, v: nat)
      requires v < n < UINT16_LIMIT && k <= MAX_K && Room(|SubexpBits(n, k, v)|)
      modifies this, buffer
      ensures Appended(old(buffer[..]), old(bitOffset), buffer[..], bitOffset, SubexpBits(n, k, v))
    {
      hide Appended, QuniformBits, Literal, Pow2, SubexpFrom;
      ghost var start, off := buffer[..], bitOffset;
      ghost var word := [];
      var i, mk := 0, 0;
      AppendedNothing(start, off);
      while true
        invariant mk <= v && AtLevel(k, i, mk) && Room(|SubexpFrom(n, k, i, mk, v)|)
        invariant Appended(start, off, buffer[..], bitOffset, word)
        invariant word + SubexpFrom(n, k, i, mk, v) == SubexpBits(n, k, v)
        decreases n - mk
      {
        var b := if i != 0 then k + i - 1 else k;
        var a := Pow2(b);
        LevelFitsInt(n, k, i, mk);
        WordStep(n, k, i, mk, v);
        ghost var before, mid := buffer[..], bitOffset;
        if n <= mk + 3 * a {
          WriteQuniform(n - mk, v - mk);
          AppendedMore(start, off, before, mid, word, buffer[..], bitOffset, QuniformBits(n - mk, v - mk));
          return;
        }
        var t := v >= mk + a;
        WriteBit(t);
        AppendedSize(before, mid, buffer[..], bitOffset, [t]);
        AppendedMore(start, off, before, mid, word, buffer[..], bitOffset, [t]);
        Regroup(word, [t], SubexpFrom(n, k, i, mk, v)[1..]);
        word := word + [t];
        if t {
          NextLevel(k, i, mk);
          i := i + 1;
          mk := mk + a;
        } else {
          LevelBitsFit(n, k, i, mk);
          before, mid := buffer[..], bitOffset;
          WriteLiteral(v - mk, b);
          AppendedMore(start, off, before, mid, word, buffer[..], bitOffset, Literal(v - mk, b));
          assert word + Literal(v - mk, b) == SubexpBits(n, k, v);
          return;
        }
      }
    }

    method WriteRefSubexpfin(n: nat, k: nat, ref: nat, v: nat)
      requires v < n < UINT16_LIMIT && ref < n && k <= MAX_K && Room(|RefSubexpBits(n, k, ref, v)|)
      modifies this, buffer
      ensures Appended(old(buffer[..]), old(bitOffset), buffer[..], bitOffset, RefSubexpBits(n, k, ref, v))
    {
      RecenterBijection(n, ref, v);
      WriteSubexpfin(n, k, RecenterFiniteNonneg(n, ref, v));
    }

    method WriteSignedRefSubexpfin(n: nat, k: nat, ref: int, v: int)
      requires SignedRange(n, ref) && SignedRange(n, v) && k <= MAX_K
      requires Room(|SignedRefSubexpBits(n, k, ref, v)|)
      modifies this, buffer
      ensures Appended(old(buffer[..]), old(bitOffset), buffer[..], bitOffset, SignedRefSubexpBits(n, k, ref, v))
    {
      hide RefSubexpBits;
      var offset := ToUint16(n - 1);
      var scaledN := ToUint16(2 * n - 1);
      WriteRefSubexpfin(scaledN, k, ToUint16(ref + offset), ToUint16(v + offset));
    }

    method WriteUleb(value: nat)
      requires value <= UINT32_MAX && bitOffset % 8 == 0 && Room(|UlebBits(value)|)
      modifies this, buffer
      ensures Appended(old(buffer[..]), old(bitOffset), buffer[..], bitOffset, UlebBits(value))
    {
      hide Appended, Literal;
      ghost var start, off := buffer[..], bitOffset;
      ghost var word := [];
      AppendedNothing(start, off);
      var encVal := value;
      var lebSize := UlebSize(encVal);
      for i := 0 to lebSize
        invariant Appended(start, off, buffer[..], bitOffset, word)
        invariant i < lebSize ==> lebSize - i == UlebSize(encVal) && Room(|UlebBits(encVal)|)
        invariant word + (if i < lebSize then UlebBits(encVal) else []) == UlebBits(value)
      {
        var encodedByte := encVal % 128;
        ghost var rest := if encVal < 128 then [] else UlebBits(encVal / 128);
        encVal := encVal / 128;
        if encVal != 0 {
          encodedByte := encodedByte + 128;
        }
        ghost var before, mid := buffer[..], bitOffset;
        WriteLiteral(encodedByte, 8);
        AppendedSize(before, mid, buffer[..], bitOffset, Literal(encodedByte, 8));
        AppendedMore(start, off, before, mid, word, buffer[..], bitOffset, Literal(encodedByte, 8));
        Regroup(word, Literal(encodedByte, 8), rest);
        word := word + Literal(encodedByte, 8);
      }
      assert word + [] == word;
    }

    method WriteRiceGolomb(data: nat, k: nat)
      requires RiceRange(k, data) && Room(|RiceBits(k, data)|)
      modifies this, buffer
      ensures Appended(old(buffer[..]), old(bitOffset), buffer[..], bitOffset, RiceBits(k, data))
    {
      hide Appended, Literal, Pow2;
      ghost var start, off := buffer[..], bitOffset;
      AppendedNothing(start, off);
      RiceLength(k, data);
      assert Run(true, 0) == [];
      var quotient := Shr(data, k);
      var remainder := data % Pow2(k);
      for i := 0 to quotient
        invariant Appended(start, off, buffer[..], bitOffset, Run(true, i))
        invariant Room(quotient - i + 1 + k)
      {
        ghost var before, mid := buffer[..], bitOffset;
        WriteBit(true);
        AppendedSize(before, mid, buffer[..], bitOffset, [true]);
        AppendedMore(start, off, before, mid, Run(true, i), buffer[..], bitOffset, [true]);
        assert Run(true, i) + [true] == Run(true, i + 1);
      }
      ghost var before, mid := buffer[..], bitOffset;
      WriteBit(false);
      AppendedSize(before, mid, buffer[..], bitOffset, [false]);
      AppendedMore(start, off, before, mid, Run(true, quotient), buffer[..], bitOffset, [false]);
      before, mid := buffer[..], bitOffset;
      WriteUnsignedLiteral(remainder, k);
      AppendedMore(start, off, before, mid, Run(true, quotient) + [false],
                   buffer[..], bitOffset, Literal(remainder, k));
    }
  }

  // ---- Counting without writing ----

  method CountPrimitiveQuniform(n: nat, v: nat) returns (bits: nat)
    requires n < UINT16_LIMIT && (n > 1 ==> v < n)
    ensures bits == |QuniformBits(n, v)| && (n <= 1 ==> bits == 0)
  {
    bits := 0;
    if n <= 1 {
      return;
    }
    var l := Msb(n) + 1;
    var m := Pow2(l) - n;
    if v < m {
      bits := bits + l - 1;
    } else {
      bits := bits + l;
    }
  }

  /** The separate count loop agrees with the writer's loop. */
  method CountPrimitiveSubexpfin(n: nat, k: nat, v: nat) returns (bits: nat)
    requires n < UINT16_LIMIT && k <= MAX_K && (n > 1 ==> v < n)
    ensures bits == if n <= 1 then 0 else |SubexpBits(n, k, v)|
  {
    hide QuniformBits, Literal, Pow2;
    bits := 0;
    var i, mk := 0, 0;
    while true
      invariant mk <= v && AtLevel(k, i, mk)
      invariant n <= 1 ==> bits == i == mk == 0
      invariant n > 1 ==> bits + |SubexpFrom(n, k, i, mk, v)| == |SubexpBits(n, k, v)|
      decreases n - mk
    {
      var b := if i != 0 then k + i - 1 else k;
      var a := Pow2(b);
      if n > 1 {
        LevelFitsInt(n, k, i, mk);
      }
      if n <= mk + 3 * a {
        var q := CountPrimitiveQuniform(n - mk, v - mk);
        bits := bits + q;
        return;
      }
      bits := bits + 1;
      if v >= mk + a {
        NextLevel(k, i, mk);
        i := i + 1;
        mk := mk + a;
      } else {
        bits := bits + b;
        return;
      }
    }
  }

  /**
   References and values are int16_t of which only the upper bounds are asserted; the
   conversions to uint16_t are made. What the code demands is that the recentered
   value is below n where that is asserted.
   */
  method CountPrimitiveRefSubexpfin(n: nat, k: nat, ref: int, v: int) returns (bits: nat)
    requires n < UINT16_LIMIT && k <= MAX_K && -0x8000 <= ref < n && -0x8000 <= v < n
    requires n > 1 ==> RecenterFiniteNonneg(n, ToUint16(ref), ToUint16(v)) < n
    ensures bits == if n <= 1 then 0 else |SubexpBits(n, k, RecenterFiniteNonneg(n, ToUint16(ref), ToUint16(v)))|
    ensures ref >= 0 && v >= 0 ==> bits == |RefSubexpBits(n, k, ref, v)|
  {
    if ref >= 0 && v >= 0 {
      RecenterBijection(n, ref, v);
    }
    bits := CountPrimitiveSubexpfin(n, k, RecenterFiniteNonneg(n, ToUint16(ref), ToUint16(v)));
  }

  /** Values in the range need no more. */
  lemma RecenteredInRange(n: nat, ref: nat, v: nat)
    requires ref < n < UINT16_LIMIT && v < n
    ensures RecenterFiniteNonneg(n, ToUint16(ref), ToUint16(v)) < n
  {
    RecenterBijection(n, ref, v);
  }

  /** A literal of the level's width is one WriteLiteral accepts. */
  lemma LevelBitsFit(n: nat, k: nat, i: nat, mk: nat)
    requires mk < n < UINT16_LIMIT && k <= MAX_K && AtLevel(k, i, mk)
    ensures LevelBits(k, i) <= 31
  {
    LevelFitsInt(n, k, i, mk);
  }

  /** s' is s with the word w in place of the bits from off on. */
  ghost predicate Overwritten(s: Bits, off: nat, s': Bits, w: Bits) {
    off + |w| <= |s| && s' == s[..off] + w + s[off + |w|..]
  }

  lemma OverwrittenNothing(s: Bits, off: nat)
    requires off <= |s|
    ensures Overwritten(s, off, s, [])
  {}

  lemma OverwrittenMore(s: Bits, off: nat, t: Bits, w: Bits, bit: bool)
    requires Overwritten(s, off, t, w) && off + |w| < |s|
    ensures |t| == |s| && Overwritten(s, off, t[off + |w| := bit], w + [bit])
  {}

  lemma AppendedSize(a: seq<byte>, off: nat, a': seq<byte>, off': nat, word: Bits)
    requires Appended(a, off, a', off', word)
    ensures off' == off + |word| <= 8 * |a'| == 8 * |a|
  {}
}
