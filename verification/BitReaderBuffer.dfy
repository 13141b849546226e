/** avm_dsp/bitreader_buffer.c: the header readers over a byte buffer. */
module BitReaderBuffer {
  import opened MachineInts
  import opened Powers
  import opened BitString
  import opened Parsing
  import opened ByteBits
  import opened Recenter
  import opened Quniform
  import opened Subexp
  import opened Vlc

  class BitReadBuffer {
    const buffer: array<byte>
    var bitOffset: nat
    /** The calls of the error handler, oldest first; the handler returns. */
    var errors: seq<ReadError>

    ghost predicate Valid()
      reads this
    {
      bitOffset <= 8 * buffer.Length <= UINT32_MAX
    }

    ghost function Bits(): Bits
      reads buffer
    {
      BitsOf(buffer[..])
    }

    constructor (buffer: array<byte>)
      requires 8 * buffer.Length <= UINT32_MAX
      ensures this.buffer == buffer && bitOffset == 0 && errors == [] && Valid()
    {
      this.buffer := buffer;
      bitOffset, errors := 0, [];
    }

    /** The least number of bytes that hold the bits read. */
    method BytesRead() returns (n: nat)
      ensures bitOffset <= 8 * n < bitOffset + 8
    {
      n := (bitOffset + 7) / 8;
    }

    method ReadBit() returns (bit: bool)
      requires Valid()
      modifies this
      ensures Valid() && bit == Peek(Bits(), old(bitOffset))
      ensures Advanced(Bits(), old(bitOffset), old(errors), bitOffset, errors, 1, [])
    {
      hide BitOf;
      var p := bitOffset / 8;
      var q := 7 - bitOffset % 8;
      if p < buffer.Length {
        bit := BitOf(buffer[p], q);
        assert bit == Bits()[bitOffset];
        bitOffset := bitOffset + 1;
      } else {
        errors := errors + [TruncatedPacket];
        bit := false;
      }
    }

    method ReadLiteral(bits: nat) returns (value: nat)
      requires Valid() && bits <= 31
      modifies this
      ensures Valid() && value == Value(Window(Bits(), old(bitOffset), bits)) < Pow2(bits)
      ensures Advanced(Bits(), old(bitOffset), old(errors), bitOffset, errors, bits, [])
    {
      value := ReadUnsignedLiteral(bits);
    }

    method ReadUnsignedLiteral(bits: nat) returns (value: nat)
      requires Valid() && bits <= 32
      modifies this
      ensures Valid() && value == Value(Window(Bits(), old(bitOffset), bits)) < Pow2(bits)
      ensures Advanced(Bits(), old(bitOffset), old(errors), bitOffset, errors, bits, [])
    {
      hide Advanced, BitsOf, Pow2, Value, Peek;
      ghost var off, errs := bitOffset, errors;
      AdvancedNothing(Bits(), off, errs);
      value := 0;
      var left := bits;
      ghost var w := Window(Bits(), off, 0);
      NoBits(w);
      while left > 0
        invariant 0 <= left <= bits && Valid()
        invariant w == Window(Bits(), off, bits - left)
        invariant value == Value(w) * Pow2(left)
        invariant Advanced(Bits(), off, errs, bitOffset, errors, bits - left, [])
      {
        left := left - 1;
        ghost var mid, errs' := bitOffset, errors;
        AdvancedPosition(Bits(), off, errs, mid, errs', bits - left - 1, []);
        var bit := ReadBit();
        value := value + if bit then Pow2(left) else 0;
        AdvancedMore(Bits(), off, errs, mid, errs', bits - left - 1, bitOffset, errors, 1, []);
        PeekClamp(Bits(), off + (bits - left - 1));
        WindowSnoc(Bits(), off, bits - left - 1);
        ValueSnoc(w, bit, left);
        w := w + [bit];
      }
      LastBit(value, w);
      ValueBound(w);
    }

    /** The literal is moved to the top of 32 bits and shifted back with its sign. */
    method ReadInvSignedLiteral(bits: nat) returns (value: int)
      requires Valid() && bits <= 30
      modifies this
      ensures Valid() && value == ParseInvSigned(Bits(), old(bitOffset), bits).value
      ensures Advanced(Bits(), old(bitOffset), old(errors), bitOffset, errors, bits + 1, [])
    {
      hide Advanced, BitsOf, Pow2, Value, Window;
      var nbits := 32 - bits - 1;
      var literal := ReadLiteral(bits + 1);
      var shifted := literal * Pow2(nbits) % 0x1_0000_0000;
      var signed := if shifted >= 0x8000_0000 then shifted - 0x1_0000_0000 else shifted;
      value := signed / Pow2(nbits);
      ShiftBack(bits, literal);
    }

    method ReadUvlc() returns (value: nat)
      requires Valid()
      modifies this
      ensures Valid() && value == ParseUvlc(Bits(), old(bitOffset)).value <= UINT32_MAX
      ensures Advanced(Bits(), old(bitOffset), old(errors), bitOffset, errors,
                       ParseUvlc(Bits(), old(bitOffset)).used, ParseUvlc(Bits(), old(bitOffset)).faults)
    {
      hide Advanced, BitsOf, Pow2, Value, Peek, Window, RunLength, ParseRice, Shl;
      ghost var s, off, errs := Bits(), bitOffset, errors;
      UvlcErrorIff(s, off);
      AdvancedNothing(s, off, errs);
      var leadingZeros := 0;
      ghost var used := 0;
      while leadingZeros < 32
        invariant leadingZeros == used <= 32 && Valid()
        invariant Advanced(s, off, errs, bitOffset, errors, used, [])
        invariant RunLength(s, off, false, 32)
               == leadingZeros + RunLength(s, off + leadingZeros, false, 32 - leadingZeros)
      {
        ghost var mid, errs' := bitOffset, errors;
        AdvancedPosition(s, off, errs, mid, errs', used, []);
        PeekClamp(s, off + used);
        RunStep(s, off + used, false, 32 - leadingZeros);
        var bit := ReadBit();
        AdvancedMore(s, off, errs, mid, errs', used, bitOffset, errors, 1, []);
        used := used + 1;
        if bit {
          break;
        }
        leadingZeros := leadingZeros + 1;
      }
      RunStep(s, off + leadingZeros, false, 32 - leadingZeros);
      if leadingZeros == 32 {
        AdvancedFault(s, off, errs, bitOffset, errors, 32, VlcTooLong);
        errors := errors + [VlcTooLong];
        return UINT32_MAX;
      }
      var base := Pow2(leadingZeros) - 1;
      ghost var mid, errs' := bitOffset, errors;
      AdvancedPosition(s, off, errs, mid, errs', used, []);
      WindowClamp(s, off + used, leadingZeros);
      var literal := ReadLiteral(leadingZeros);
      AdvancedMore(s, off, errs, mid, errs', used, bitOffset, errors, leadingZeros, []);
      value := base + literal;
    }

    method ReadSvlc() returns (value: int)
      requires Valid()
      modifies this
      ensures Valid() && value == ParseSvlc(Bits(), old(bitOffset)).value
      ensures Advanced(Bits(), old(bitOffset), old(errors), bitOffset, errors,
                       ParseSvlc(Bits(), old(bitOffset)).used, ParseSvlc(Bits(), old(bitOffset)).faults)
    {
      hide Advanced, BitsOf, ParseUvlc;
      var u := ReadUvlc();
      if u == UINT32_MAX {
        return INT32_MIN;
      }
      var ceilHalf: int := (u + 1) / 2;
      value := if u % 2 == 1 then ceilHalf else -ceilHalf;
    }

    method ReadQuniform(n: nat) returns (value: nat)
      requires Valid() && n < UINT16_LIMIT
      modifies this
      ensures Valid() && value == ParseQuniform(Bits(), old(bitOffset), n).value
      ensures n > 0 ==> value < n
      ensures Advanced(Bits(), old(bitOffset), old(errors), bitOffset, errors,
                       ParseQuniform(Bits(), old(bitOffset), n).used, [])
    {
      hide Advanced, BitsOf, Pow2, Value, Peek, Window, Msb, QuniformBits;
      ghost var s, off, errs := Bits(), bitOffset, errors;
      if n > 0 {
        QuniformComplete(s, off, n);
      }
      if n <= 1 {
        AdvancedNothing(s, off, errs);
        return 0;
      }
      Pow2Constants();
      MsbBound(n, 16);
      var l := Msb(n) + 1;
      var m := Pow2(l) - n;
      var v := ReadLiteral(l - 1);
      if v < m {
        return v;
      }
      ghost var mid, errs' := bitOffset, errors;
      AdvancedPosition(s, off, errs, mid, errs', l - 1, []);
      PeekClamp(s, off + (l - 1));
      var bit := ReadBit();
      AdvancedMore(s, off, errs, mid, errs', l - 1, bitOffset, errors, 1, []);
      value := 2 * v - m + BitValue(bit);
    }

    method ReadRefQuniform(n: nat, r: nat) returns (value: nat)
      requires Valid() && r < n < UINT16_LIMIT
      modifies this
      ensures Valid() && value == ParseRefQuniform(Bits(), old(bitOffset), n, r).value
      ensures Advanced(Bits(), old(bitOffset), old(errors), bitOffset, errors,
                       ParseRefQuniform(Bits(), old(bitOffset), n, r).used, [])
    {
      hide Advanced, BitsOf, Peek, ParseQuniform;
      ghost var s, off, errs := Bits(), bitOffset, errors;
      var unequal := ReadBit();
      if !unequal {
        return r;
      }
      ghost var mid, errs' := bitOffset, errors;
      AdvancedPosition(s, off, errs, mid, errs', 1, []);
      QuniformClamp(s, off + 1, n - 1);
      var v := ReadQuniform(n - 1);
      AdvancedMore(s, off, errs, mid, errs', 1, bitOffset, errors, ParseQuniform(s, off + 1, n - 1).used, []);
      value := v + if v >= r then 1 else 0;
    }

    /** Ends on any input, also one that runs out, with a value below n. */
    method ReadSubexpfin(n: nat, k: nat) returns (value: nat)
      requires Valid() && 0 < n < UINT16_LIMIT && k <= MAX_K
      modifies this
      ensures Valid() && value == ParseSubexp(Bits(), old(bitOffset), n, k).value < n
      ensures Advanced(Bits(), old(bitOffset), old(errors), bitOffset, errors,
                       ParseSubexp(Bits(), old(bitOffset), n, k).used, [])
    {
      hide Advanced, BitsOf, Peek, ParseQuniform, Pow2, Value, Window, ParseSubexpFrom, SubexpFrom, Msb;
      ghost var s, off, errs := Bits(), bitOffset, errors;
      SubexpComplete(s, off, n, k);
      AdvancedNothing(s, off, errs);
      ghost var whole := ParseSubexp(s, off, n, k);
      ghost var used := 0;
      var i, mk := 0, 0;
      while true
        invariant mk < n && AtLevel(k, i, mk) && Valid()
        invariant Advanced(s, off, errs, bitOffset, errors, used, [])
        invariant whole.value == ParseSubexpFrom(s, off + used, n, k, i, mk).value
        invariant whole.used == used + ParseSubexpFrom(s, off + used, n, k, i, mk).used
        decreases n - mk
      {
        var b := if i != 0 then k + i - 1 else k;
        var a := Pow2(b);
        LevelFitsInt(n, k, i, mk);
        SubexpReadStep(s, off + used, n, k, i, mk);
        ghost var mid, errs' := bitOffset, errors;
        AdvancedPosition(s, off, errs, mid, errs', used, []);
        if n <= mk + 3 * a {
          QuniformClamp(s, off + used, n - mk);
          var v := ReadQuniform(n - mk);
          AdvancedMore(s, off, errs, mid, errs', used, bitOffset, errors,
                       ParseQuniform(s, off + used, n - mk).used, []);
          return v + mk;
        }
        PeekClamp(s, off + used);
        var flag := ReadBit();
        AdvancedMore(s, off, errs, mid, errs', used, bitOffset, errors, 1, []);
        used := used + 1;
        if !flag {
          mid, errs' := bitOffset, errors;
          AdvancedPosition(s, off, errs, mid, errs', used, []);
          WindowClamp(s, off + used, b);
          var v := ReadLiteral(b);
          AdvancedMore(s, off, errs, mid, errs', used, bitOffset, errors, b, []);
          return v + mk;
        }
        NextLevel(k, i, mk);
        i := i + 1;
        mk := mk + a;
      }
    }

    method ReadRefSubexpfin(n: nat, k: nat, ref: nat) returns (value: nat)
      requires Valid() && ref < n < UINT16_LIMIT && k <= MAX_K
      modifies this
      ensures Valid() && value == ParseRefSubexp(Bits(), old(bitOffset), n, k, ref).value < n
      ensures Advanced(Bits(), old(bitOffset), old(errors), bitOffset, errors,
                       ParseRefSubexp(Bits(), old(bitOffset), n, k, ref).used, [])
    {
      hide Advanced, BitsOf, ParseSubexp;
      var v := ReadSubexpfin(n, k);
      RecenterBijection(n, ref, v);
      value := InvRecenterFiniteNonneg(n, ref, v);
    }

    method ReadSignedRefSubexpfin(n: nat, k: nat, ref: int) returns (value: int)
      requires Valid() && SignedRange(n, ref) && k <= MAX_K
      modifies this
      ensures Valid() && value == ParseSignedRefSubexp(Bits(), old(bitOffset), n, k, ref).value
      ensures SignedRange(n, value)
      ensures Advanced(Bits(), old(bitOffset), old(errors), bitOffset, errors,
                       ParseSignedRefSubexp(Bits(), old(bitOffset), n, k, ref).used, [])
    {
      hide Advanced, BitsOf, ParseRefSubexp;
      var offset := ToUint16(n - 1);
      var scaledN := ToUint16(2 * n - 1);
      var v: int := ReadRefSubexpfin(scaledN, k, ToUint16(ref + offset));
      value := v - offset;
    }

    method ReadUleb() returns (value: nat)
      requires Valid()
      modifies this
      ensures Valid() && value == ParseUleb(Bits(), old(bitOffset)).value <= UINT32_MAX
      ensures Advanced(Bits(), old(bitOffset), old(errors), bitOffset, errors,
                       ParseUleb(Bits(), old(bitOffset)).used, ParseUleb(Bits(), old(bitOffset)).faults)
    {
      hide Advanced, BitsOf, Pow2, Value, Window, NextAcc, ParseUlebFrom;
      ghost var s, off, errs := Bits(), bitOffset, errors;
      AdvancedNothing(s, off, errs);
      if bitOffset % 8 != 0 {
        AdvancedFault(s, off, errs, bitOffset, errors, 0, UlebNotAligned);
        errors := errors + [UlebNotAligned];
        return 0;
      }
      ghost var whole := ParseUlebFrom(s, off, 0, 0);
      value := 0;
      for i := 0 to MAX_ULEB_BYTES
        invariant Valid()
        invariant Advanced(s, off, errs, bitOffset, errors, 8 * i, [])
        invariant var rest := ParseUlebFrom(s, off + 8 * i, i, value);
          whole == rest.(used := 8 * i + rest.used)
      {
        ghost var mid, errs' := bitOffset, errors;
        AdvancedPosition(s, off, errs, mid, errs', 8 * i, []);
        WindowClamp(s, off + 8 * i, 8);
        UlebReadStep(s, off + 8 * i, i, value);
        var byte := ReadLiteral(8);
        AdvancedMore(s, off, errs, mid, errs', 8 * i, bitOffset, errors, 8, []);
        value := NextAcc(value, byte, i);
        if byte < 128 {
          if value > UINT32_MAX {
            AdvancedFault(s, off, errs, bitOffset, errors, 8 * i + 8, UlebTooLarge);
            errors := errors + [UlebTooLarge];
            return 0;
          }
          return;
        }
        assert off + 8 * i + 8 == off + 8 * (i + 1);
      }
      UlebReadStep(s, off + 8 * MAX_ULEB_BYTES, MAX_ULEB_BYTES, value);
      AdvancedFault(s, off, errs, bitOffset, errors, 8 * MAX_ULEB_BYTES, UlebTooLong);
      errors := errors + [UlebTooLong];
      return 0;
    }

    method ReadRiceGolomb(k: nat) returns (value: nat)
      requires Valid() && k <= MAX_RICE_K
      modifies this
      ensures Valid() && value == ParseRice(Bits(), old(bitOffset), k).value <= UINT32_MAX
      ensures Advanced(Bits(), old(bitOffset), old(errors), bitOffset, errors,
                       ParseRice(Bits(), old(bitOffset), k).used, ParseRice(Bits(), old(bitOffset), k).faults)
    {
      hide Advanced, BitsOf, Pow2, Value, Peek, Window, RunLength;
      ghost var s, off, errs := Bits(), bitOffset, errors;
      AdvancedNothing(s, off, errs);
      var quotient := 0;
      ghost var used := 0;
      while quotient < MAX_QUOTIENT
        invariant quotient == used <= MAX_QUOTIENT && Valid()
        invariant Advanced(s, off, errs, bitOffset, errors, used, [])
        invariant RunLength(s, off, true, MAX_QUOTIENT)
               == quotient + RunLength(s, off + quotient, true, MAX_QUOTIENT - quotient)
      {
        ghost var mid, errs' := bitOffset, errors;
        AdvancedPosition(s, off, errs, mid, errs', used, []);
        PeekClamp(s, off + used);
        RunStep(s, off + used, true, MAX_QUOTIENT - quotient);
        var bit := ReadBit();
        AdvancedMore(s, off, errs, mid, errs', used, bitOffset, errors, 1, []);
        used := used + 1;
        if !bit {
          break;
        }
        quotient := quotient + 1;
      }
      RunStep(s, off + quotient, true, MAX_QUOTIENT - quotient);
      RiceIs(s, off, k, quotient);
      if quotient == MAX_QUOTIENT {
        AdvancedFault(s, off, errs, bitOffset, errors, MAX_QUOTIENT, RiceTooLong);
        errors := errors + [RiceTooLong];
        return UINT32_MAX;
      }
      ghost var mid, errs' := bitOffset, errors;
      AdvancedPosition(s, off, errs, mid, errs', used, []);
      WindowClamp(s, off + used, k);
      var remainder := ReadUnsignedLiteral(k);
      AdvancedMore(s, off, errs, mid, errs', used, bitOffset, errors, k, []);
      value := Shl(quotient, k) + remainder;
    }
  }

  lemma RiceIs(s: Bits, pos: nat, k: nat, quotient: nat)
    requires RunLength(s, pos, true, MAX_QUOTIENT) == quotient
    ensures ParseRice(s, pos, k)
      == if quotient == MAX_QUOTIENT then Parsed(UINT32_MAX, MAX_QUOTIENT, [RiceTooLong])
         else Clean(Shl(quotient, k) + Value(Window(s, pos + quotient + 1, k)), quotient + 1 + k)
    ensures k <= MAX_RICE_K && quotient < MAX_QUOTIENT ==>
      0 <= Shl(quotient, k) + Value(Window(s, pos + quotient + 1, k)) <= UINT32_MAX
  {
    hide Pow2, Value, Window, RunLength;
    ValueBound(Window(s, pos + quotient + 1, k));
    if k <= MAX_RICE_K && quotient < MAX_QUOTIENT {
      RiceFits(quotient, k, Value(Window(s, pos + quotient + 1, k)));
    }
  }

  lemma RunStep(s: Bits, pos: nat, b: bool, limit: nat)
    ensures RunLength(s, pos, b, limit)
         == if limit == 0 || Peek(s, pos) != b then 0 else 1 + RunLength(s, pos + 1, b, limit - 1)
  {}

  lemma UlebReadStep(s: Bits, pos: nat, i: nat, acc: nat)
    requires i <= MAX_ULEB_BYTES
    ensures Pow2(8) == 256
    ensures i == MAX_ULEB_BYTES ==> ParseUlebFrom(s, pos, i, acc) == Parsed(0, 0, [UlebTooLong])
    ensures i < MAX_ULEB_BYTES ==>
      var byte := Value(Window(s, pos, 8));
      var acc' := NextAcc(acc, byte, i);
      ParseUlebFrom(s, pos, i, acc) ==
        if byte < 128 then
          if acc' > UINT32_MAX then Parsed(0, 8, [UlebTooLarge]) else Clean(acc', 8)
        else
          var p := ParseUlebFrom(s, pos + 8, i + 1, acc');
          p.(used := 8 + p.used)
  {}

  lemma SubexpReadStep(s: Bits, pos: nat, n: nat, k: nat, i: nat, mk: nat)
    requires mk < n
    ensures var b := LevelBits(k, i);
      var p := ParseSubexpFrom(s, pos, n, k, i, mk);
      if LastLevel(n, k, i, mk) then
        var q := ParseQuniform(s, pos, n - mk);
        p.value == q.value + mk && p.used == q.used
      else if !Peek(s, pos) then
        p.value == Value(Window(s, pos + 1, b)) + mk && p.used == 1 + b
      else
        var q := ParseSubexpFrom(s, pos + 1, n, k, i + 1, mk + Pow2(b));
        p.value == q.value && p.used == 1 + q.used
  {}

  /** Moving bits + 1 bits to the top of a 32-bit word and back extends their sign. */
  lemma ShiftBack(bits: nat, u: nat)
    requires bits <= 30 && u < Pow2(bits + 1)
    ensures var shifted := u * Pow2(31 - bits) % 0x1_0000_0000;
      && (if shifted >= 0x8000_0000 then shifted - 0x1_0000_0000 else shifted) / Pow2(31 - bits)
           == SignExtend(bits, u)
  {
    hide Pow2;
    Pow2Constants();
    Pow2Add(bits, 31 - bits);
    Pow2Add(bits + 1, 31 - bits);
    TopOfWord(u, Pow2(bits), Pow2(bits + 1), Pow2(31 - bits));
  }

  lemma TopOfWord(u: nat, half: nat, full: nat, p: nat)
    requires p > 0 && u < full && half * p == 0x8000_0000 && full * p == 0x1_0000_0000
    ensures var shifted := u * p % 0x1_0000_0000;
      (if shifted >= 0x8000_0000 then shifted - 0x1_0000_0000 else shifted) / p
        == if u < half then u else u - full
  {
    MulMonoStrict(u, full, p);
    assert u * p % 0x1_0000_0000 == u * p;
    MulCancel(half, u, p);
    var v: int := if u < half then u else u - full;
    MinusProduct(u, full, p);
    DivUnique(v * p, p, v, 0);
  }

  lemma NoBits(w: Bits)
    requires w == []
    ensures Value(w) == 0
  {}

  lemma ValueSnoc(w: Bits, bit: bool, left: nat)
    ensures Value(w + [bit]) * Pow2(left) == Value(w) * Pow2(left + 1) + if bit then Pow2(left) else 0
  {
    hide Pow2;
    assert (w + [bit])[..|w|] == w;
    Twice(left);
    TwiceProduct(Value(w), Pow2(left));
  }

  lemma LastBit(value: nat, w: Bits)
    requires value == Value(w) * Pow2(0)
    ensures value == Value(w)
  {}

  lemma AdvancedPosition(s: Bits, off: nat, errs: seq<ReadError>, off': nat, errs': seq<ReadError>, used: nat,
                         faults: seq<ReadError>)
    requires Advanced(s, off, errs, off', errs', used, faults)
    ensures off' == Clamp(s, off + used)
  {}
}
