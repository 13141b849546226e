/**
 Symbols, literals and binary codes over the range coder: avm_dsp/bitwriter.h,
 avm_dsp/bitreader.h, avm_dsp/binary_codes_writer.c and binary_codes_reader.c.
 */
module SymbolCoding {
  import opened Powers
  import opened BitString
  import opened Recenter
  import opened Quniform
  import opened Subexp
  import opened Cdf
  import opened RangeInterval
  import opened RangeEncoder
  import opened RangeDecoder
  import BitWriterBuffer

  // ---- The 4-part code ----

  /** nsymb_bits for which every symbol and part offset is an int. */
  predicate PartSize(nb: nat) {
    3 <= nb <= 31
  }

  /** nsymb_bits for which 1 << nsymb_bits is still a uint16_t, as recentering takes it. */
  predicate RefPartSize(nb: nat) {
    3 <= nb <= 15
  }

  /** Parts 0 to 3 cover 1/8, 1/8, 1/4 and 1/2 of the alphabet. */
  function PartBits(part: nat, nb: nat): nat
    requires part < 4 && PartSize(nb)
  {
    if part == 0 || part == 1 then nb - 3 else if part == 2 then nb - 2 else nb - 1
  }

  function PartOffset(part: nat, nb: nat): nat
    requires part < 4 && PartSize(nb)
  {
    if part == 0 then 0 else if part == 1 then Pow2(nb - 3) else if part == 2 then Pow2(nb - 2) else Pow2(nb - 1)
  }

  /** symb_to_part */
  function PartOf(symb: nat, nb: nat): (part: nat)
    requires PartSize(nb)
    ensures part < 4
  {
    if symb < PartOffset(1, nb) then 0
    else if symb < PartOffset(2, nb) then 1
    else if symb < PartOffset(3, nb) then 2
    else 3
  }

  /** A symbol is its part and an offset of the part's width, in one way. */
  lemma PartsPartition(symb: nat, part: nat, nb: nat)
    requires PartSize(nb) && symb < Pow2(nb) && part < 4
    ensures part == PartOf(symb, nb)
      <==> PartOffset(part, nb) <= symb < PartOffset(part, nb) + Pow2(PartBits(part, nb))
  {}

  /** With an eighth of the alphabet as the unit, the parts start at 0, 1, 2 and 4 and have the sizes 1, 1, 2 and 4. */
  lemma PartsInNumbers(nb: nat)
    requires PartSize(nb)
    ensures var w := Pow2(nb - 3);
      && Pow2(nb) == 8 * w
      && PartOffset(0, nb) == 0 && PartOffset(1, nb) == w && PartOffset(2, nb) == 2 * w && PartOffset(3, nb) == 4 * w
      && Pow2(PartBits(0, nb)) == Pow2(PartBits(1, nb)) == w
      && Pow2(PartBits(2, nb)) == 2 * w && Pow2(PartBits(3, nb)) == 4 * w
  {
    hide Pow2;
    Twice(nb - 3);
    Twice(nb - 2);
    Twice(nb - 1);
  }

  /** Every offset of a part's width gives a symbol of the alphabet. */
  lemma PartInAlphabet(part: nat, x: nat, nb: nat)
    requires PartSize(nb) && part < 4 && x < Pow2(PartBits(part, nb))
    ensures PartOffset(part, nb) + x < Pow2(nb) && PartOf(PartOffset(part, nb) + x, nb) == part
  {
    hide Pow2;
    Twice(nb - 3);
    Twice(nb - 2);
    Twice(nb - 1);
  }

  /** avm_count_4part: the cost of the part and the raw bits of the offset. */
  function Count4Part(symb: nat, cost: seq<int>, nb: nat, scaleShift: nat): int
    requires PartSize(nb) && |cost| == 4
  {
    cost[PartOf(symb, nb)] + Shl(PartBits(PartOf(symb, nb), nb), scaleShift)
  }

  /** The interval after a 4-part coded symbol. */
  function Part4Step(iv: Interval, icdf: seq<nat>, symb: nat, nb: nat): Interval
    requires ValidInterval(iv) && ValidCdf(icdf, 4) && PartSize(nb)
  {
    var part := PartOf(symb, nb);
    BypassSteps(SymbolStep(iv, icdf, part, 4), Literal(symb - PartOffset(part, nb), PartBits(part, nb)))
  }

  /** The count charges the writer's own steps: the part at its cost and each bit the coder moves on after it. */
  lemma Count4PartIsCost(iv: Interval, icdf: seq<nat>, symb: nat, cost: seq<int>, nb: nat, scaleShift: nat)
    requires ValidInterval(iv) && ValidCdf(icdf, 4) && PartSize(nb) && |cost| == 4
    ensures var part := PartOf(symb, nb);
      && Part4Step(iv, icdf, symb, nb).shift >= SymbolStep(iv, icdf, part, 4).shift
      && Count4Part(symb, cost, nb, scaleShift)
         == cost[part] + Shl(Part4Step(iv, icdf, symb, nb).shift - SymbolStep(iv, icdf, part, 4).shift, scaleShift)
  {
    hide SymbolStep, BypassSteps, Literal, PartOf, PartOffset, ValidCdf, Shl;
    var part := PartOf(symb, nb);
    BypassAtOnce(SymbolStep(iv, icdf, part, 4), Literal(symb - PartOffset(part, nb), PartBits(part, nb)));
  }

  // ---- Chunks ----

  /** Coding the top n bits and then the rest is coding the literal. */
  lemma ChunkSteps(iv: Interval, data: nat, n: nat, rest: nat)
    requires data < Pow2(n + rest)
    ensures Shr(data, rest) < Pow2(n) && data % Pow2(rest) < Pow2(rest)
    ensures BypassSteps(BypassSteps(iv, Literal(Shr(data, rest), n)), Literal(data % Pow2(rest), rest))
         == BypassSteps(iv, Literal(data, n + rest))
  {
    hide Pow2, Literal, BypassSteps;
    ShrBound(data, rest, n);
    LiteralSplit(data, n, rest);
    LowLiteral(data, rest);
    ShrIsDiv(data, rest);
    BypassConcat(iv, Literal(Shr(data, rest), n), Literal(data, rest));
  }

  lemma ShrIsDiv(v: nat, k: nat)
    ensures Shr(v, k) == v / Pow2(k)
  {}

  class SymbolWriter {
    const enc: RangeEncoder
    var allowUpdateCdf: bool
    var frameSymbolCount: nat

    ghost predicate Valid()
      reads this, enc, enc.precarry
    {
      enc.Valid()
    }

    constructor (allowUpdateCdf: bool)
      ensures Valid() && enc.View() == START && this.allowUpdateCdf == allowUpdateCdf && frameSymbolCount == 0
      ensures fresh(enc) && fresh(enc.precarry)
    {
      enc := new RangeEncoder(62025);
      this.allowUpdateCdf := allowUpdateCdf;
      frameSymbolCount := 0;
    }

    method WriteBit(bit: bool)
      requires Valid()
      modifies enc, enc.precarry
      ensures Valid() && enc.View() == BypassSteps(old(enc.View()), [bit])
      ensures enc.precarry == old(enc.precarry) || fresh(enc.precarry)
    {
      hide ValidInterval, BypassSteps;
      BitLiteral(bit);
      enc.EncodeLiteralBypass(if bit then 1 else 0, 1);
    }

    /** Chunks of up to eight bits, most significant first. */
    method WriteLiteral(value: nat, count: nat)
      requires Valid() && count <= 31 && value < Pow2(count)
      modifies this`frameSymbolCount, enc, enc.precarry
      ensures Valid() && enc.View() == BypassSteps(old(enc.View()), Literal(value, count))
      ensures enc.precarry == old(enc.precarry) || fresh(enc.precarry)
      ensures frameSymbolCount == old(frameSymbolCount) + count
    {
      hide ValidInterval, BypassSteps, Pow2, Literal;
      frameSymbolCount := frameSymbolCount + count;
      var data: nat, bits: nat := value, count;
      while bits > 0
        invariant bits <= count && data < Pow2(bits) && Valid()
        invariant enc.precarry == old(enc.precarry) || fresh(enc.precarry)
        invariant BypassSteps(enc.View(), Literal(data, bits))
               == BypassSteps(old(enc.View()), Literal(value, count))
        invariant frameSymbolCount == old(frameSymbolCount) + count
      {
        var n := if bits >= 8 then 8 else bits;
        ChunkSteps(enc.View(), data, n, bits - n);
        enc.EncodeLiteralBypass(Shr(data, bits - n), n);
        bits := bits - n;
        data := data % Pow2(bits);
      }
      NoLiteral(enc.View(), data, bits);
    }

    method WriteSymbol(symb: nat, cdf: array<nat>, nsyms: nat)
      requires Valid() && cdf != enc.precarry && ValidCdf(cdf[..], nsyms) && symb < nsyms
      modifies this`frameSymbolCount, enc, enc.precarry, cdf
      ensures Valid() && enc.View() == SymbolStep(old(enc.View()), old(cdf[..]), symb, nsyms)
      ensures cdf[..] == if allowUpdateCdf then UpdatedCdf(old(cdf[..]), symb, nsyms) else old(cdf[..])
      ensures ValidCdf(cdf[..], nsyms) && cdf != enc.precarry
      ensures enc.precarry == old(enc.precarry) || fresh(enc.precarry)
      ensures frameSymbolCount == old(frameSymbolCount) + 1
    {
      hide ValidInterval, SymbolStep, UpdatedCdf, ValidCdf;
      frameSymbolCount := frameSymbolCount + 1;
      enc.EncodeCdf(symb, cdf[..], nsyms);
      if allowUpdateCdf {
        UpdateCdf(cdf, symb, nsyms);
      }
    }

    method Write4Part(symb: nat, cdf: array<nat>, nb: nat)
      requires Valid() && cdf != enc.precarry && ValidCdf(cdf[..], 4) && PartSize(nb) && symb < Pow2(nb)
      modifies this`frameSymbolCount, enc, enc.precarry, cdf
      ensures Valid() && enc.View() == Part4Step(old(enc.View()), old(cdf[..]), symb, nb)
      ensures cdf[..] == if allowUpdateCdf then UpdatedCdf(old(cdf[..]), PartOf(symb, nb), 4) else old(cdf[..])
      ensures ValidCdf(cdf[..], 4) && cdf != enc.precarry
      ensures enc.precarry == old(enc.precarry) || fresh(enc.precarry)
    {
      hide ValidInterval, SymbolStep, UpdatedCdf, ValidCdf, BypassSteps, Pow2, PartOffset, PartBits, Literal;
      var part;
      if symb < PartOffset(1, nb) {
        part := 0;
      } else if symb < PartOffset(2, nb) {
        part := 1;
      } else if symb < PartOffset(3, nb) {
        part := 2;
      } else {
        part := 3;
      }
      PartsPartition(symb, part, nb);
      PartBitsSmall(part, nb);
      WriteSymbol(part, cdf, 4);
      WriteLiteral(symb - PartOffset(part, nb), PartBits(part, nb));
    }

    method Write4PartWithRef(ref: nat, symb: nat, cdf: array<nat>, nb: nat)
      requires Valid() && cdf != enc.precarry && ValidCdf(cdf[..], 4)
      requires RefPartSize(nb) && ref < Pow2(nb) && symb < Pow2(nb)
      modifies this`frameSymbolCount, enc, enc.precarry, cdf
      ensures Valid()
      ensures var r := RecenterFiniteNonneg(Pow2(nb), ref, symb);
        && enc.View() == Part4Step(old(enc.View()), old(cdf[..]), r, nb)
        && cdf[..] == if allowUpdateCdf then UpdatedCdf(old(cdf[..]), PartOf(r, nb), 4) else old(cdf[..])
      ensures ValidCdf(cdf[..], 4) && cdf != enc.precarry
      ensures enc.precarry == old(enc.precarry) || fresh(enc.precarry)
    {
      hide ValidInterval, SymbolStep, UpdatedCdf, ValidCdf, BypassSteps, Pow2, PartOf, Part4Step;
      AlphabetSize(nb);
      RecenterBijection(Pow2(nb), ref, symb);
      Write4Part(RecenterFiniteNonneg(Pow2(nb), ref, symb), cdf, nb);
    }

    method WriteQuniform(n: nat, v: nat)
      requires Valid() && n < UINT16_LIMIT && (n > 1 ==> v < n)
      modifies this`frameSymbolCount, enc, enc.precarry
      ensures Valid() && enc.View() == BypassSteps(old(enc.View()), QuniformBits(n, v))
      ensures enc.precarry == old(enc.precarry) || fresh(enc.precarry)
    {
      hide ValidInterval, BypassSteps, Literal, Pow2, Msb, QuniformBits;
      if n <= 1 {
        NoQuniform(enc.View(), n, v);
        return;
      }
      Pow2Constants();
      MsbBound(n, 16);
      var l := Msb(n) + 1;
      var m: nat := Pow2(l) - n;
      if v < m {
        ShortWord(n, v);
        WriteLiteral(v, l - 1);
      } else {
        ghost var iv := enc.View();
        var x, b := LongWordOf(n, v);
        LongWord(n, x, b);
        assert x == m + (v - m) / 2 && b == ((v - m) % 2 == 1);
        BypassConcat(iv, Literal(x, l - 1), [b]);
        WriteLiteral(m + (v - m) / 2, l - 1);
        WriteBit((v - m) % 2 == 1);
      }
    }

    method WriteSubexpfin(n: nat, k: nat, v: nat)
      requires Valid() && v < n < UINT16_LIMIT && k <= MAX_K
      modifies this`frameSymbolCount, enc, enc.precarry
      ensures Valid() && enc.View() == BypassSteps(old(enc.View()), SubexpBits(n, k, v))
      ensures enc.precarry == old(enc.precarry) || fresh(enc.precarry)
    {
      hide ValidInterval, BypassSteps, Literal, Pow2, QuniformBits, SubexpFrom;
      ghost var iv := enc.View();
      ghost var word: Bits := [];
      NoBypass(iv, word);
      var i, mk := 0, 0;
      while true
        invariant mk <= v && AtLevel(k, i, mk) && Valid()
        invariant enc.precarry == old(enc.precarry) || fresh(enc.precarry)
        invariant enc.View() == BypassSteps(iv, word)
        invariant word + SubexpFrom(n, k, i, mk, v) == SubexpBits(n, k, v)
        decreases n - mk
      {
        var b := if i != 0 then k + i - 1 else k;
        var a := Pow2(b);
        LevelFitsInt(n, k, i, mk);
        WordStep(n, k, i, mk, v);
        if n <= mk + 3 * a {
          BypassConcat(iv, word, QuniformBits(n - mk, v - mk));
          WriteQuniform(n - mk, v - mk);
          return;
        }
        var t := v >= mk + a;
        BypassConcat(iv, word, [t]);
        WriteBit(t);
        Regroup(word, [t], SubexpFrom(n, k, i, mk, v)[1..]);
        word := word + [t];
        if t {
          NextLevel(k, i, mk);
          i := i + 1;
          mk := mk + a;
        } else {
          BypassConcat(iv, word, Literal(v - mk, b));
          WriteLiteral(v - mk, b);
          assert word + Literal(v - mk, b) == SubexpBits(n, k, v);
          return;
        }
      }
    }

    method WriteRefSubexpfin(n: nat, k: nat, ref: nat, v: nat)
      requires Valid() && v < n < UINT16_LIMIT && ref < n && k <= MAX_K
      modifies this`frameSymbolCount, enc, enc.precarry
      ensures Valid() && enc.View() == BypassSteps(old(enc.View()), RefSubexpBits(n, k, ref, v))
      ensures enc.precarry == old(enc.precarry) || fresh(enc.precarry)
    {
      hide ValidInterval, BypassSteps, SubexpBits;
      RecenterBijection(n, ref, v);
      WriteSubexpfin(n, k, RecenterFiniteNonneg(n, ref, v));
    }

    /** ref and v are shifted into [0, 2n - 1) as int16_t values; a wrap is undone by the conversion to uint16_t. */
    method WriteSignedRefSubexpfin(n: nat, k: nat, ref: int, v: int)
      requires Valid() && SignedRange(n, ref) && SignedRange(n, v) && k <= MAX_K
      modifies this`frameSymbolCount, enc, enc.precarry
      ensures Valid() && enc.View() == BypassSteps(old(enc.View()), SignedRefSubexpBits(n, k, ref, v))
      ensures enc.precarry == old(enc.precarry) || fresh(enc.precarry)
    {
      hide ValidInterval, BypassSteps, RefSubexpBits;
      var ref' := ToInt16(ref + (n - 1));
      var v' := ToInt16(v + (n - 1));
      var scaledN := ToUint16(2 * n - 1);
      Int16Unwraps(ref + (n - 1));
      Int16Unwraps(v + (n - 1));
      WriteRefSubexpfin(scaledN, k, ToUint16(ref'), ToUint16(v'));
    }
  }

  /** The count of the signed code, on the same shifted int16_t values as its writer. */
  method CountSignedRefSubexpfin(n: nat, k: nat, ref: int, v: int) returns (count: nat)
    requires SignedRange(n, ref) && SignedRange(n, v) && k <= MAX_K
    ensures count == |SignedRefSubexpBits(n, k, ref, v)|
  {
    hide RefSubexpBits;
    Int16Unwraps(ref + (n - 1));
    Int16Unwraps(v + (n - 1));
    count := BitWriterBuffer.CountPrimitiveRefSubexpfin(ToUint16(2 * n - 1), k, ToUint16(ToInt16(ref + (n - 1))),
                                                        ToUint16(ToInt16(v + (n - 1))));
  }

  // ---- Reading ----

  class SymbolReader {
    const dec: RangeDecoder
    var allowUpdateCdf: bool

    ghost predicate Valid()
      reads this, dec, dec.buf
    {
      dec.Valid()
    }

    /** avm_reader_init */
    constructor (buffer: array<Octet>, allowUpdateCdf: bool)
      ensures Valid() && fresh(dec) && dec.buf == buffer && dec.iv == START
      ensures this.allowUpdateCdf == allowUpdateCdf
    {
      dec := new RangeDecoder(buffer);
      this.allowUpdateCdf := allowUpdateCdf;
    }

    method ReadBit() returns (bit: bool)
      requires Valid()
      modifies dec
      ensures Valid() && dec.iv == BypassSteps(old(dec.iv), [bit])
    {
      hide BypassSteps;
      var ret := dec.DecodeLiteralBypass(1);
      bit := ret == 1;
      BitLiteral(bit);
    }

    /** The literal whose interval the code lies in. */
    method ReadLiteral(bits: nat) returns (literal: nat)
      requires Valid() && bits <= 31
      modifies dec
      ensures Valid() && literal < Pow2(bits) && dec.iv == BypassSteps(old(dec.iv), Literal(literal, bits))
    {
      hide BypassSteps, Literal, Value, Pow2;
      literal := 0;
      var left: nat := bits;
      ghost var iv := dec.iv;
      NoChunk(iv);
      while left > 0
        invariant left <= bits && Valid() && literal < Pow2(bits - left)
        invariant dec.iv == BypassSteps(iv, Literal(literal, bits - left))
      {
        var n := if left >= 8 then 8 else left;
        ghost var high := literal;
        literal := Shl(literal, n);
        var chunk := dec.DecodeLiteralBypass(n);
        literal := literal + chunk;
        JoinChunk(iv, high, bits - left, chunk, n);
        left := left - n;
      }
    }

    /** The symbol whose part the code lies in; the table adapts as the writer's. */
    method ReadSymbol(cdf: array<nat>, nsyms: nat) returns (ret: nat)
      requires Valid() && ValidCdf(cdf[..], nsyms)
      modifies dec, cdf
      ensures Valid() && ret < nsyms && dec.iv == SymbolStep(old(dec.iv), old(cdf[..]), ret, nsyms)
      ensures cdf[..] == if allowUpdateCdf then UpdatedCdf(old(cdf[..]), ret, nsyms) else old(cdf[..])
      ensures ValidCdf(cdf[..], nsyms)
    {
      hide SymbolStep, UpdatedCdf, ValidCdf;
      ret := dec.DecodeCdf(cdf[..], nsyms);
      if allowUpdateCdf {
        UpdateCdf(cdf, ret, nsyms);
      }
    }

    method Read4Part(cdf: array<nat>, nb: nat) returns (symb: nat)
      requires Valid() && ValidCdf(cdf[..], 4) && PartSize(nb)
      modifies dec, cdf
      ensures Valid() && symb < Pow2(nb) && dec.iv == Part4Step(old(dec.iv), old(cdf[..]), symb, nb)
      ensures cdf[..] == if allowUpdateCdf then UpdatedCdf(old(cdf[..]), PartOf(symb, nb), 4) else old(cdf[..])
      ensures ValidCdf(cdf[..], 4)
    {
      hide SymbolStep, UpdatedCdf, ValidCdf, BypassSteps, Pow2, PartOffset, PartBits, Literal, PartOf;
      var part := ReadSymbol(cdf, 4);
      PartBitsSmall(part, nb);
      var literal := ReadLiteral(PartBits(part, nb));
      PartInAlphabet(part, literal, nb);
      symb := literal + PartOffset(part, nb);
    }

    method Read4PartWithRef(ref: nat, cdf: array<nat>, nb: nat) returns (symb: nat)
      requires Valid() && ValidCdf(cdf[..], 4) && RefPartSize(nb) && ref < Pow2(nb)
      modifies dec, cdf
      ensures Valid() && symb < Pow2(nb)
      ensures var r := RecenterFiniteNonneg(Pow2(nb), ref, symb);
        && dec.iv == Part4Step(old(dec.iv), old(cdf[..]), r, nb)
        && cdf[..] == if allowUpdateCdf then UpdatedCdf(old(cdf[..]), PartOf(r, nb), 4) else old(cdf[..])
      ensures ValidCdf(cdf[..], 4)
    {
      hide SymbolStep, UpdatedCdf, ValidCdf, Pow2, PartOf, Part4Step;
      var r := Read4Part(cdf, nb);
      AlphabetSize(nb);
      RecenterBijection(Pow2(nb), ref, r);
      symb := InvRecenterFiniteNonneg(Pow2(nb), ref, r);
    }

    method ReadQuniform(n: nat) returns (v: nat)
      requires Valid() && n < UINT16_LIMIT
      modifies dec
      ensures Valid() && (n > 0 ==> v < n) && dec.iv == BypassSteps(old(dec.iv), QuniformBits(n, v))
    {
      hide BypassSteps, Literal, Pow2, Msb, QuniformBits;
      if n <= 1 {
        NoQuniform(dec.iv, n, 0);
        return 0;
      }
      Pow2Constants();
      MsbBound(n, 16);
      var l := Msb(n) + 1;
      var m: nat := Pow2(l) - n;
      ghost var iv := dec.iv;
      var x := ReadLiteral(l - 1);
      if x < m {
        ShortWord(n, x);
        return x;
      }
      var bit := ReadBit();
      LongWord(n, x, bit);
      BypassConcat(iv, Literal(x, l - 1), [bit]);
      v := 2 * x - m + BitValue(bit);
    }

    method ReadSubexpfin(n: nat, k: nat) returns (v: nat)
      requires Valid() && 0 < n < UINT16_LIMIT && k <= MAX_K
      modifies dec
      ensures Valid() && v < n && dec.iv == BypassSteps(old(dec.iv), SubexpBits(n, k, v))
    {
      hide BypassSteps, Literal, Pow2, QuniformBits, SubexpFrom, SubexpBits, WordsFrom;
      ghost var iv := dec.iv;
      ghost var word: Bits := [];
      NoBypass(iv, word);
      AllWords(n, k, word);
      var i, mk := 0, 0;
      while true
        invariant mk < n && AtLevel(k, i, mk) && Valid() && dec.iv == BypassSteps(iv, word)
        invariant WordsFrom(n, k, i, mk, word)
        decreases n - mk
      {
        var b := if i != 0 then k + i - 1 else k;
        var a := Pow2(b);
        LevelFitsInt(n, k, i, mk);
        if n <= mk + 3 * a {
          var q := ReadQuniform(n - mk);
          v := q + mk;
          EndsQuniform(iv, n, k, i, mk, word, q);
          return;
        }
        var flag := ReadBit();
        if !flag {
          var x := ReadLiteral(b);
          v := x + mk;
          EndsLiteral(iv, n, k, i, mk, word, x);
          return;
        }
        BypassConcat(iv, word, [true]);
        NextLevel(k, i, mk);
        NextLevelWords(n, k, i, mk, word);
        word := word + [true];
        i := i + 1;
        mk := mk + a;
      }
    }

    method ReadRefSubexpfin(n: nat, k: nat, ref: nat) returns (v: nat)
      requires Valid() && ref < n < UINT16_LIMIT && k <= MAX_K
      modifies dec
      ensures Valid() && v < n && dec.iv == BypassSteps(old(dec.iv), RefSubexpBits(n, k, ref, v))
    {
      hide BypassSteps, SubexpBits;
      var x := ReadSubexpfin(n, k);
      RecenterBijection(n, ref, x);
      v := InvRecenterFiniteNonneg(n, ref, x);
    }
  }

  /** The words of all values from mk on start with the bits read so far. */
  ghost predicate WordsFrom(n: nat, k: nat, i: nat, mk: nat, word: Bits) {
    forall x {:trigger SubexpBits(n, k, x)} :: mk <= x < n ==>
      SubexpBits(n, k, x) == word + SubexpFrom(n, k, i, mk, x)
  }

  lemma AllWords(n: nat, k: nat, word: Bits)
    requires word == []
    ensures WordsFrom(n, k, 0, 0, word)
  {}

  lemma WordOfLevel(n: nat, k: nat, i: nat, mk: nat, word: Bits, v: nat)
    requires mk <= v < n && WordsFrom(n, k, i, mk, word)
    ensures LastLevel(n, k, i, mk) ==> SubexpBits(n, k, v) == word + QuniformBits(n - mk, v - mk)
    ensures !LastLevel(n, k, i, mk) && v < mk + Pow2(LevelBits(k, i)) ==>
      SubexpBits(n, k, v) == word + ([false] + Literal(v - mk, LevelBits(k, i)))
  {}

  /** A quasi-uniform code ends the word at the last level. */
  lemma EndsQuniform(iv: Interval, n: nat, k: nat, i: nat, mk: nat, word: Bits, q: nat)
    requires mk + q < n && LastLevel(n, k, i, mk) && WordsFrom(n, k, i, mk, word)
    ensures BypassSteps(BypassSteps(iv, word), QuniformBits(n - mk, q)) == BypassSteps(iv, SubexpBits(n, k, q + mk))
  {
    hide BypassSteps, QuniformBits, SubexpBits, WordsFrom, LastLevel;
    BypassConcat(iv, word, QuniformBits(n - mk, q));
    WordOfLevel(n, k, i, mk, word, q + mk);
  }

  /** A clear flag and a literal end it at the others. */
  lemma EndsLiteral(iv: Interval, n: nat, k: nat, i: nat, mk: nat, word: Bits, x: nat)
    requires mk + x < n && !LastLevel(n, k, i, mk) && WordsFrom(n, k, i, mk, word) && x < Pow2(LevelBits(k, i))
    ensures BypassSteps(BypassSteps(BypassSteps(iv, word), [false]), Literal(x, LevelBits(k, i)))
         == BypassSteps(iv, SubexpBits(n, k, x + mk))
  {
    hide BypassSteps, Literal, Pow2, SubexpBits, WordsFrom, LastLevel, LevelBits;
    var l := Literal(x, LevelBits(k, i));
    BypassConcat(iv, word, [false]);
    BypassConcat(iv, word + [false], l);
    WordOfLevel(n, k, i, mk, word, x + mk);
    Regroup(word, [false], l);
  }

  /** The words of the values left after a level's flag. */
  lemma NextLevelWords(n: nat, k: nat, i: nat, mk: nat, word: Bits)
    requires mk < n && !LastLevel(n, k, i, mk) && WordsFrom(n, k, i, mk, word)
    ensures WordsFrom(n, k, i + 1, mk + Pow2(LevelBits(k, i)), word + [true])
  {}

  lemma NoChunk(iv: Interval)
    ensures BypassSteps(iv, Literal(0, 0)) == iv && Pow2(0) == 1
  {}

  /** A chunk read below a literal makes a longer literal. */
  lemma JoinChunk(iv: Interval, high: nat, j: nat, chunk: nat, n: nat)
    requires high < Pow2(j) && chunk < Pow2(n)
    ensures Shl(high, n) + chunk < Pow2(j + n)
    ensures BypassSteps(BypassSteps(iv, Literal(high, j)), Literal(chunk, n))
         == BypassSteps(iv, Literal(Shl(high, n) + chunk, j + n))
  {
    hide BypassSteps, Literal, Value, Pow2;
    var v := Shl(high, n) + chunk;
    Pow2Add(j, n);
    MulMono(high + 1, Pow2(j), Pow2(n));
    Distribute(high, 1, Pow2(n));
    DivUnique(v, Pow2(n), high, chunk);
    LiteralSplit(v, j, n);
    LowLiteral(v, n);
    BypassConcat(iv, Literal(high, j), Literal(chunk, n));
  }

  /** Through int16_t and on to uint16_t every uint16_t value comes back. */
  lemma Int16Unwraps(x: int)
    requires 0 <= x < UINT16_LIMIT
    ensures ToUint16(ToInt16(x)) == x
  {}

  /** Conversion of an int to int16_t. */
  function ToInt16(x: int): (r: int)
    ensures -32768 <= r < 32768
  {
    if -0x8000 <= x < 0x8000 then x else (x + 0x8000) % 0x1_0000 - 0x8000
  }

  lemma PartBitsSmall(part: nat, nb: nat)
    requires PartSize(nb) && part < 4
    ensures PartBits(part, nb) <= 31
  {}

  lemma AlphabetSize(nb: nat)
    requires RefPartSize(nb)
    ensures Pow2(nb) < UINT16_LIMIT
  {
    Pow2Constants();
    Pow2Mono(nb, 15);
  }

  lemma NoQuniform(iv: Interval, n: nat, v: nat)
    requires n <= 1
    ensures BypassSteps(iv, QuniformBits(n, v)) == iv
  {}

  lemma NoBypass(iv: Interval, word: Bits)
    requires word == []
    ensures BypassSteps(iv, word) == iv
  {}

  lemma BitLiteral(bit: bool)
    ensures Literal(if bit then 1 else 0, 1) == [bit]
    ensures Pow2(1) == 2
  {}

  lemma NoLiteral(iv: Interval, data: nat, bits: nat)
    requires bits == 0
    ensures BypassSteps(iv, Literal(data, bits)) == iv
  {}
}
