/**
 Variable-length codes of header values: uvlc and svlc (section 4.10.3 of the
 AV1 specification), LEB128 (section 4.10.5), Rice-Golomb and signed literals
 (section 4.10.6).
 */
module Vlc {
  import opened MachineInts
  import opened Powers
  import opened BitString
  import opened Parsing

  const INT32_MIN: int := -0x8000_0000
  const INT32_MAX: int := 0x7FFF_FFFF

  // ---- Runs of one bit ----

  function Run(b: bool, n: nat): Bits {
    seq(n, _ => b)
  }

  /** How often b repeats from pos on, counted up to a limit. */
  function RunLength(s: Bits, pos: nat, b: bool, limit: nat): (z: nat)
    ensures z <= limit
    decreases limit
  {
    if limit == 0 || Peek(s, pos) != b then 0 else 1 + RunLength(s, pos + 1, b, limit - 1)
  }

  /** The count is z exactly when the buffer shows z times b and then the other bit. */
  lemma {:induction false} RunLengthIs(s: Bits, pos: nat, b: bool, limit: nat, z: nat)
    requires z < limit
    ensures RunLength(s, pos, b, limit) == z <==> Shows(s, pos, Run(b, z) + [!b])
    decreases z
  {
    if z == 0 {
      assert Run(b, 0) + [!b] == [!b];
      ShowsBit(s, pos, !b);
    } else {
      assert Run(b, z) + [!b] == [b] + (Run(b, z - 1) + [!b]);
      ShowsFlag(s, pos, b, Run(b, z - 1) + [!b]);
      RunLengthIs(s, pos + 1, b, limit - 1, z - 1);
    }
  }

  /** The count reaches the limit exactly when the buffer shows nothing else. */
  lemma {:induction false} RunLengthFull(s: Bits, pos: nat, b: bool, limit: nat)
    ensures RunLength(s, pos, b, limit) == limit <==> Shows(s, pos, Run(b, limit))
    decreases limit
  {
    if limit == 0 {
      assert Window(s, pos, 0) == Run(b, 0);
    } else {
      assert Run(b, limit) == [b] + Run(b, limit - 1);
      ShowsFlag(s, pos, b, Run(b, limit - 1));
      RunLengthFull(s, pos + 1, b, limit - 1);
    }
  }

  lemma {:induction false} ZeroLiteral(n: nat)
    ensures Literal(0, n) == Run(false, n)
    decreases n
  {
    if n != 0 {
      ZeroLiteral(n - 1);
    }
  }

  // ---- uvlc ----

  /** floor(log2(v + 1)) zeros, then v + 1 itself. */
  function UvlcBits(v: nat): Bits {
    Literal(0, Msb(v + 1)) + Literal(v + 1, Msb(v + 1) + 1)
  }

  function ParseUvlc(s: Bits, pos: nat): Parsed {
    var z := RunLength(s, pos, false, 32);
    if z == 32 then Parsed(UINT32_MAX, 32, [VlcTooLong])
    else Clean(Pow2(z) - 1 + Value(Window(s, pos + (z + 1), z)), (z + 1) + z)
  }

  /** The word of a value v with v + 1 = 2^z + low. */
  lemma UvlcShape(z: nat, low: nat)
    requires low < Pow2(z)
    ensures UvlcBits(Pow2(z) - 1 + low) == (Run(false, z) + [true]) + Literal(low, z)
  {
    hide Literal, Value, Pow2, Msb;
    Twice(z);
    MsbUnique(Pow2(z) - 1 + low + 1, z);
    ZeroLiteral(z);
    OneAndLow(z, low);
  }

  lemma OneAndLow(z: nat, low: nat)
    requires low < Pow2(z)
    ensures Literal(Pow2(z) + low, z + 1) == [true] + Literal(low, z)
  {
    hide Literal, Value, Pow2;
    var w := Pow2(z) + low;
    LiteralSplit(w, 1, z);
    DivUnique(w, Pow2(z), 1, low);
    OneBit();
    LowLiteral(w, z);
    assert 1 + z == z + 1;
  }

  lemma OneBit()
    ensures Literal(1, 1) == [true]
  {}

  /** Every value is 2^z - 1 plus something below 2^z. */
  lemma UvlcSplit(v: nat) returns (z: nat, low: nat)
    requires v < UINT32_MAX
    ensures z < 32 && low < Pow2(z) && v == Pow2(z) - 1 + low
  {
    z, low := Msb(v + 1), v + 1 - Pow2(Msb(v + 1));
    Pow2Constants();
    MsbBound(v + 1, 32);
  }

  lemma UvlcRoundTrip(s: Bits, pos: nat, v: nat)
    requires v < UINT32_MAX
    requires Shows(s, pos, UvlcBits(v))
    ensures ParseUvlc(s, pos) == Clean(v, |UvlcBits(v)|)
  {
    hide Literal, Value, Pow2, Msb, RunLength, UvlcBits;
    var z, low := UvlcSplit(v);
    UvlcShape(z, low);
    ShowsSplit(s, pos, Run(false, z) + [true], Literal(low, z));
    RunLengthIs(s, pos, false, 32, z);
    LiteralInRange(low, z);
  }

  /** Whatever is accepted is below UINT32_MAX and is written with exactly the bits used. */
  lemma UvlcCanonical(s: Bits, pos: nat)
    requires ParseUvlc(s, pos).faults == []
    ensures var p := ParseUvlc(s, pos);
      0 <= p.value < UINT32_MAX && UvlcBits(p.value) == Window(s, pos, p.used)
  {
    hide Literal, Value, Pow2, Msb, RunLength, UvlcBits;
    var z := RunLength(s, pos, false, 32);
    var w := Window(s, pos + (z + 1), z);
    ValueBound(w);
    Pow2Constants();
    Pow2Mono(z, 31);
    UvlcShape(z, Value(w));
    LiteralOfValue(w);
    RunLengthIs(s, pos, false, 32, z);
    WindowSplit(s, pos, z + 1, z);
  }

  /** The reader gives up exactly on 32 zeros, and only then returns UINT32_MAX. */
  lemma UvlcErrorIff(s: Bits, pos: nat)
    ensures ParseUvlc(s, pos).faults != [] <==> Shows(s, pos, Run(false, 32))
    ensures ParseUvlc(s, pos).value == UINT32_MAX <==> ParseUvlc(s, pos).faults != []
    ensures 0 <= ParseUvlc(s, pos).value <= UINT32_MAX
  {
    RunLengthFull(s, pos, false, 32);
    if ParseUvlc(s, pos).faults == [] {
      UvlcCanonical(s, pos);
    }
  }

  // ---- svlc ----

  predicate SvlcRange(v: int) {
    INT32_MIN < v <= INT32_MAX
  }

  /** 0, 1, -1, 2, -2, ... */
  function SvlcIndex(v: int): nat {
    if v <= 0 then 2 * -v else 2 * v - 1
  }

  function SvlcBits(v: int): Bits {
    UvlcBits(SvlcIndex(v))
  }

  /** An odd index is the positive value, an even one the negative. */
  function SvlcValue(u: int): int {
    if u == UINT32_MAX then INT32_MIN
    else if u % 2 == 1 then (u + 1) / 2 else -((u + 1) / 2)
  }

  function ParseSvlc(s: Bits, pos: nat): Parsed {
    var p := ParseUvlc(s, pos);
    p.(value := SvlcValue(p.value))
  }

  lemma SvlcRoundTrip(s: Bits, pos: nat, v: int)
    requires SvlcRange(v)
    requires Shows(s, pos, SvlcBits(v))
    ensures ParseSvlc(s, pos) == Clean(v, |SvlcBits(v)|)
    ensures -v <= INT32_MAX && SvlcIndex(v) < UINT32_MAX
  {
    hide UvlcBits, ParseUvlc;
    UvlcRoundTrip(s, pos, SvlcIndex(v));
  }

  lemma SvlcCanonical(s: Bits, pos: nat)
    requires ParseSvlc(s, pos).faults == []
    ensures var p := ParseSvlc(s, pos);
      SvlcRange(p.value) && SvlcBits(p.value) == Window(s, pos, p.used)
    ensures var u := ParseUvlc(s, pos).value; 0 <= u < u + 1 <= UINT32_MAX && (u + 1) / 2 <= INT32_MAX
  {
    hide UvlcBits, ParseUvlc;
    UvlcCanonical(s, pos);
  }

  // ---- LEB128 ----

  const MAX_ULEB_BYTES: nat := 8

  /** Seven bits a byte, least significant first; the top bit says more follow. */
  function UlebBits(v: nat): Bits {
    if v < 128 then Literal(v, 8) else Literal(v % 128 + 128, 8) + UlebBits(v / 128)
  }

  /** avm_uleb_size_in_bytes */
  function UlebSize(v: nat): (n: nat)
    ensures n >= 1 && |UlebBits(v)| == 8 * n
  {
    if v < 128 then 1 else 1 + UlebSize(v / 128)
  }

  function ByteAt(s: Bits, pos: nat): (byte: nat)
    ensures byte < 256
  {
    ValueBound(Window(s, pos, 8));
    Pow2Constants();
    Value(Window(s, pos, 8))
  }

  /** The value after byte i is or-ed in above the i bytes before it. */
  function NextAcc(acc: nat, byte: nat, i: nat): nat {
    acc + byte % 128 * Pow2(7 * i)
  }

  /** The loop of avm_rb_read_uleb from byte i on, acc being the value so far. */
  function ParseUlebFrom(s: Bits, pos: nat, i: nat, acc: nat): Parsed
    requires i <= MAX_ULEB_BYTES
    decreases MAX_ULEB_BYTES - i
  {
    if i == MAX_ULEB_BYTES then Parsed(0, 0, [UlebTooLong])
    else
      var acc' := NextAcc(acc, ByteAt(s, pos), i);
      if ByteAt(s, pos) < 128 then
        if acc' > UINT32_MAX then Parsed(0, 8, [UlebTooLarge]) else Clean(acc', 8)
      else
        var p := ParseUlebFrom(s, pos + 8, i + 1, acc');
        p.(used := 8 + p.used)
  }

  function ParseUleb(s: Bits, pos: nat): Parsed {
    if pos % 8 != 0 then Parsed(0, 0, [UlebNotAligned]) else ParseUlebFrom(s, pos, 0, 0)
  }

  lemma ByteLiteral(s: Bits, pos: nat, byte: nat)
    requires byte < 256
    ensures Shows(s, pos, Literal(byte, 8)) <==> ByteAt(s, pos) == byte
  {
    hide Literal, Value, Pow2;
    Pow2Constants();
    LiteralInRange(byte, 8);
    if ByteAt(s, pos) == byte {
      ValueInjective(Literal(byte, 8), Window(s, pos, 8));
    }
  }

  lemma {:induction false} UlebFromRoundTrip(s: Bits, pos: nat, i: nat, acc: nat, v: nat)
    requires i + UlebSize(v) <= MAX_ULEB_BYTES
    requires 0 <= acc + v * Pow2(7 * i) <= UINT32_MAX
    requires Shows(s, pos, UlebBits(v))
    ensures ParseUlebFrom(s, pos, i, acc) == Clean(acc + v * Pow2(7 * i), |UlebBits(v)|)
    decreases v
  {
    hide Literal, Value, Pow2, ByteAt, NextAcc;
    if v < 128 {
      ByteLiteral(s, pos, v);
      NextAccStep(acc, v, 0, i);
    } else {
      var byte := v % 128 + 128;
      assert byte % 128 == v % 128;
      ShowsSplit(s, pos, Literal(byte, 8), UlebBits(v / 128));
      ByteLiteral(s, pos, byte);
      NextAccStep(acc, byte, v / 128, i);
      UlebFromRoundTrip(s, pos + 8, i + 1, NextAcc(acc, byte, i), v / 128);
    }
  }

  lemma NextAccStep(acc: nat, byte: nat, high: nat, i: nat)
    ensures NextAcc(acc, byte, i) + high * Pow2(7 * (i + 1)) == acc + (byte % 128 + 128 * high) * Pow2(7 * i)
    ensures byte < 128 ==> NextAcc(acc, byte, i) == acc + byte * Pow2(7 * i)
  {
    hide Pow2;
    Pow2Add(7 * i, 7);
    Pow2Constants();
    assert 7 * (i + 1) == 7 * i + 7;
    SplitProduct(byte % 128, high, Pow2(7 * i));
  }

  lemma SplitProduct(low: int, high: int, p: int)
    ensures (low + 128 * high) * p == low * p + high * (p * 128)
  {}

  /** A 32-bit number takes at most five bytes. */
  lemma UlebSizeBound(v: nat)
    requires v <= UINT32_MAX
    ensures UlebSize(v) <= 5
  {
    var a := v / 128;
    var b := a / 128;
    var c := b / 128;
    var d := c / 128;
    assert d < 128;
    assert UlebSize(d) == 1;
    assert UlebSize(c) <= 2;
    assert UlebSize(b) <= 3;
    assert UlebSize(a) <= 4;
  }

  lemma UlebRoundTrip(s: Bits, pos: nat, v: nat)
    requires v <= UINT32_MAX && pos % 8 == 0
    requires Shows(s, pos, UlebBits(v))
    ensures ParseUleb(s, pos) == Clean(v, |UlebBits(v)|)
  {
    hide UlebBits, ParseUlebFrom;
    UlebSizeBound(v);
    Pow2Constants();
    UlebFromRoundTrip(s, pos, 0, 0, v);
  }

  /**
   Accepted bytes write some d; they are the bytes the writer would choose
   exactly when there is one byte or the last byte is not zero.
   */
  lemma {:induction false} UlebFromCanonical(s: Bits, pos: nat, i: nat, acc: nat) returns (d: nat)
    requires i <= MAX_ULEB_BYTES && ParseUlebFrom(s, pos, i, acc).faults == []
    ensures var p := ParseUlebFrom(s, pos, i, acc);
      && p.used >= 8
      && p.value == acc + d * Pow2(7 * i) <= UINT32_MAX
      && (ByteAt(s, pos + p.used - 8) != 0 ==> d > 0)
      && (p.used == 8 ==> d == ByteAt(s, pos))
      && (UlebBits(d) == Window(s, pos, p.used) <==> p.used == 8 || ByteAt(s, pos + p.used - 8) != 0)
    decreases MAX_ULEB_BYTES - i
  {
    hide Literal, Value, Pow2, ByteAt, NextAcc, UlebBits;
    var byte := ByteAt(s, pos);
    if byte < 128 {
      d := byte;
      OneByte(s, pos);
      NextAccStep(acc, byte, 0, i);
    } else {
      var acc' := NextAcc(acc, byte, i);
      var d' := UlebFromCanonical(s, pos + 8, i + 1, acc');
      d := byte % 128 + 128 * d';
      NextAccStep(acc, byte, d', i);
      UlebStep(s, pos, byte, d', ParseUlebFrom(s, pos + 8, i + 1, acc').used);
    }
  }

  lemma OneByte(s: Bits, pos: nat)
    requires ByteAt(s, pos) < 128
    ensures UlebBits(ByteAt(s, pos)) == Window(s, pos, 8)
  {
    hide Literal;
    ByteLiteral(s, pos, ByteAt(s, pos));
  }

  lemma UlebStep(s: Bits, pos: nat, byte: nat, d: nat, used: nat)
    requires byte == ByteAt(s, pos) && byte >= 128 && used >= 8
    ensures UlebBits(byte % 128 + 128 * d) == Window(s, pos, 8 + used)
      <==> d > 0 && UlebBits(d) == Window(s, pos + 8, used)
  {
    hide Literal, Value, Pow2, ByteAt;
    var v := byte % 128 + 128 * d;
    WindowSplit(s, pos, 8, used);
    if d > 0 {
      assert v % 128 + 128 == byte && v / 128 == d;
      ByteLiteral(s, pos, byte);
      var x, y := UlebBits(d), Window(s, pos + 8, used);
      assert UlebBits(v) == Literal(byte, 8) + x;
      assert Window(s, pos, 8 + used) == Literal(byte, 8) + y;
      if Literal(byte, 8) + x == Literal(byte, 8) + y {
        assert x == (Literal(byte, 8) + x)[8..] == (Literal(byte, 8) + y)[8..] == y;
      }
    } else {
      assert |UlebBits(v)| == 8;
    }
  }

  lemma UlebCanonicalIff(s: Bits, pos: nat)
    requires ParseUleb(s, pos).faults == []
    ensures var p := ParseUleb(s, pos);
      && 0 <= p.value <= UINT32_MAX && p.used >= 8
      && (UlebBits(p.value) == Window(s, pos, p.used) <==> p.used == 8 || ByteAt(s, pos + p.used - 8) != 0)
  {
    hide UlebBits, ByteAt, ParseUlebFrom;
    Pow2Constants();
    var d := UlebFromCanonical(s, pos, 0, 0);
  }

  /** Two bytes 0x80 0x00 also read as zero, which is written as one byte. */
  lemma UlebNotCanonical(s: Bits)
    requires s == Literal(0x80, 8) + Literal(0, 8)
    ensures ParseUleb(s, 0) == Clean(0, 16) && UlebBits(0) != s
  {
    hide Literal, Value, Pow2, ByteAt, NextAcc;
    assert Shows(s, 0, s);
    ShowsSplit(s, 0, Literal(0x80, 8), Literal(0, 8));
    ByteLiteral(s, 0, 0x80);
    ByteLiteral(s, 8, 0);
    NextAccStep(0, 0x80, 0, 0);
    NextAccStep(0, 0, 0, 1);
    assert ParseUlebFrom(s, 8, 1, 0) == Clean(0, 8);
  }

  // ---- Rice-Golomb ----

  const MAX_RICE_K: nat := 26
  const MAX_QUOTIENT: nat := 32

  predicate RiceRange(k: nat, v: int) {
    k <= MAX_RICE_K && 0 <= v && Shr(v, k) < MAX_QUOTIENT
  }

  /** The quotient in unary, the remainder in k bits. */
  function RiceBits(k: nat, v: nat): Bits {
    (Run(true, Shr(v, k)) + [false]) + Literal(v % Pow2(k), k)
  }

  lemma RiceLength(k: nat, v: nat)
    ensures |RiceBits(k, v)| == Shr(v, k) + 1 + k
  {}

  function ParseRice(s: Bits, pos: nat, k: nat): Parsed {
    var q := RunLength(s, pos, true, MAX_QUOTIENT);
    if q == MAX_QUOTIENT then Parsed(UINT32_MAX, MAX_QUOTIENT, [RiceTooLong])
    else Clean(q * Pow2(k) + Value(Window(s, pos + (q + 1), k)), (q + 1) + k)
  }

  lemma RiceRoundTrip(s: Bits, pos: nat, k: nat, v: nat)
    requires RiceRange(k, v)
    requires Shows(s, pos, RiceBits(k, v))
    ensures ParseRice(s, pos, k) == Clean(v, |RiceBits(k, v)|)
  {
    hide Literal, Value, Pow2, RunLength;
    var q := Shr(v, k);
    ShowsSplit(s, pos, Run(true, q) + [false], Literal(v % Pow2(k), k));
    RunLengthIs(s, pos, true, MAX_QUOTIENT, q);
    LiteralInRange(v % Pow2(k), k);
    assert q * Pow2(k) == Pow2(k) * q;
  }

  /** Accepted values are below 2^31, in the writer's range and written with the bits used. */
  lemma RiceCanonical(s: Bits, pos: nat, k: nat)
    requires k <= MAX_RICE_K && ParseRice(s, pos, k).faults == []
    ensures var p := ParseRice(s, pos, k);
      && RiceRange(k, p.value) && p.value < 0x8000_0000
      && RiceBits(k, p.value) == Window(s, pos, p.used)
  {
    hide Literal, Value, Pow2, RunLength;
    var q := RunLength(s, pos, true, MAX_QUOTIENT);
    var w := Window(s, pos + (q + 1), k);
    ValueBound(w);
    LiteralOfValue(w);
    DivUnique(q * Pow2(k) + Value(w), Pow2(k), q, Value(w));
    RiceFits(q, k, Value(w));
    RunLengthIs(s, pos, true, MAX_QUOTIENT, q);
    WindowSplit(s, pos, q + 1, k);
  }

  lemma RiceFits(q: nat, k: nat, r: nat)
    requires q < MAX_QUOTIENT && k <= MAX_RICE_K && r < Pow2(k)
    ensures q * Pow2(k) + r < 0x8000_0000
  {
    hide Pow2;
    Pow2Constants();
    Pow2Mono(k, MAX_RICE_K);
    MulMono(q, 31, Pow2(k));
  }

  // ---- Signed literals ----

  predicate InvSignedRange(bits: nat, v: int) {
    bits <= 30 && -(Pow2(bits) as int) <= v < Pow2(bits)
  }

  function InvSignedBits(bits: nat, v: int): Bits {
    Literal(v, bits + 1)
  }

  function SignExtend(bits: nat, u: nat): int {
    if u < Pow2(bits) then u else u - Pow2(bits + 1)
  }

  function ParseInvSigned(s: Bits, pos: nat, bits: nat): Parsed {
    Clean(SignExtend(bits, Value(Window(s, pos, bits + 1))), bits + 1)
  }

  lemma InvSignedRoundTrip(s: Bits, pos: nat, bits: nat, v: int)
    requires InvSignedRange(bits, v)
    requires Shows(s, pos, InvSignedBits(bits, v))
    ensures ParseInvSigned(s, pos, bits) == Clean(v, bits + 1)
  {
    hide Literal, Value, Pow2;
    Twice(bits);
    ValueOfLiteral(v, bits + 1);
    if v >= 0 {
      DivUnique(v, Pow2(bits + 1), 0, v);
    } else {
      DivUnique(v, Pow2(bits + 1), -1, v + Pow2(bits + 1));
    }
  }

  lemma InvSignedCanonical(s: Bits, pos: nat, bits: nat)
    requires bits <= 30
    ensures var p := ParseInvSigned(s, pos, bits);
      InvSignedRange(bits, p.value) && InvSignedBits(bits, p.value) == Window(s, pos, p.used)
  {
    hide Literal, Value, Pow2;
    var w := Window(s, pos, bits + 1);
    ValueBound(w);
    Twice(bits);
    var v := SignExtend(bits, Value(w));
    ValueOfLiteral(v, bits + 1);
    DivUnique(v, Pow2(bits + 1), if v >= 0 then 0 else -1, Value(w));
    ValueInjective(Literal(v, bits + 1), w);
  }

  // ---- The words in numbers ----

  /** A positive value comes before its negative, and 0 first of all. */
  lemma SvlcWords(v: nat)
    requires v > 0
    ensures SvlcBits(0) == UvlcBits(0) && SvlcBits(v) == UvlcBits(2 * v - 1) && SvlcBits(-(v as int)) == UvlcBits(2 * v)
  {
    hide UvlcBits;
  }

  /** q ones, a zero and the low k bits. */
  lemma RiceShape(k: nat, q: nat, low: nat)
    requires low < Pow2(k)
    ensures RiceBits(k, q * Pow2(k) + low) == (Run(true, q) + [false]) + Literal(low, k)
  {
    hide Literal, Pow2;
    DivUnique(q * Pow2(k) + low, Pow2(k), q, low);
  }

  /** A sign bit, set for negative values, and the low bits of the two's complement. */
  lemma InvSignedShape(bits: nat, v: int)
    requires InvSignedRange(bits, v)
    ensures InvSignedBits(bits, v)
      == if v >= 0 then [false] + Literal(v, bits) else [true] + Literal(v + Pow2(bits), bits)
  {
    hide Literal, Value, Pow2;
    var p, w := Pow2(bits), InvSignedBits(bits, v);
    Twice(bits);
    LiteralSplit(v, 1, bits);
    assert 1 + bits == bits + 1;
    SignBit(if v >= 0 then 0 else -1);
    ValueOfLiteral(v, bits);
    if v >= 0 {
      DivUnique(v, p, 0, v);
    } else {
      DivUnique(v, p, -1, v + p);
      LiteralInRange(v + p, bits);
      ValueInjective(Literal(v, bits), Literal(v + p, bits));
    }
  }

  lemma SignBit(v: int)
    requires v == 0 || v == -1
    ensures Literal(v, 1) == [v == -1]
  {}

  /** Rice-Golomb is refused exactly after 32 ones. */
  lemma RiceErrorIff(s: Bits, pos: nat, k: nat)
    ensures ParseRice(s, pos, k).faults != [] <==> Window(s, pos, 32) == Run(true, 32)
    ensures ParseRice(s, pos, k).faults != [] ==> ParseRice(s, pos, k) == Parsed(0xFFFF_FFFF, 32, [RiceTooLong])
  {
    hide Value, Pow2;
    RunLengthFull(s, pos, true, 32);
  }

  /** LEB128 is refused after eight bytes that all announce more. */
  lemma UlebTooLongAt(s: Bits, pos: nat)
    requires pos % 8 == 0 && forall i :: 0 <= i < 8 ==> ByteAt(s, pos + 8 * i) >= 128
    ensures ParseUleb(s, pos) == Parsed(0, 64, [UlebTooLong])
  {
    UlebGoesOn(s, pos, pos, 0, 0);
  }

  lemma {:induction false} UlebGoesOn(s: Bits, start: nat, pos: nat, i: nat, acc: nat)
    requires i <= 8 && pos == start + 8 * i && forall j :: 0 <= j < 8 ==> ByteAt(s, start + 8 * j) >= 128
    ensures ParseUlebFrom(s, pos, i, acc) == Parsed(0, 64 - 8 * i, [UlebTooLong])
    decreases 8 - i
  {
    hide ByteAt, NextAcc;
    if i < 8 {
      assert ByteAt(s, start + 8 * i) >= 128;
      UlebGoesOn(s, start, pos + 8, i + 1, NextAcc(acc, ByteAt(s, pos), i));
    }
  }
}
