/**
 Open bitstream units in bytes (av2/common/obu_util.c, avm/src/avm_integer.c): a
 LEB128 size field, a header of one or two bytes and a payload.
 */
module ObuHeaders {
  import opened MachineInts
  import opened Powers
  import opened BitString
  import opened RangeEncoder
  import Vlc

  const MAX_SIZE_BYTES: nat := 8
  const GLOBAL_XLAYER: nat := 31
  const OBU_MSDO: nat := 20

  datatype Header = Header(size: nat, extended: bool, kind: nat, tlayer: nat, mlayer: nat, xlayer: nat)

  datatype Parsed = Bad | Parsed(header: Header, payloadSize: nat, bytesRead: nat)

  /**
   A unit in memory: its size field, which may be any LEB128 form of its size, padded
   ones included, its header and as much of its payload as is there. At the end of the
   data the last bytes of the header may lie outside of it. If there is no payload,
   next is the byte that memory has after the header.
   */
  datatype Obu = Obu(sizeField: seq<Octet>, header: Header, payload: seq<Octet>, outside: nat, next: Octet)

  // ---- LEB128 size fields ----

  /** Seven bits a byte, lowest first. */
  function FieldValue(s: seq<Octet>): nat {
    if s == [] then 0 else s[0] % 128 + 128 * FieldValue(s[1..])
  }

  /** Up to eight bytes, of which only the last is below 128. */
  predicate SizeField(s: seq<Octet>) {
    && 1 <= |s| <= MAX_SIZE_BYTES && s[|s| - 1] < 128
    && forall i :: 0 <= i < |s| - 1 ==> s[i] >= 128
  }

  /** The length of the size field at the start of s when its first i bytes continue it; 0 if there is none. */
  function FieldLength(s: seq<Octet>, i: nat): (n: nat)
    requires i <= |s| && i <= MAX_SIZE_BYTES
    ensures n <= |s| && n <= MAX_SIZE_BYTES
    decreases |s| - i
  {
    if i == MAX_SIZE_BYTES || i == |s| then 0
    else if s[i] < 128 then i + 1
    else FieldLength(s, i + 1)
  }

  lemma {:induction false} FieldLengthIff(s: seq<Octet>, i: nat, n: nat)
    requires i <= |s| && i <= MAX_SIZE_BYTES && forall j :: 0 <= j < i ==> s[j] >= 128
    ensures n > 0 ==> (FieldLength(s, i) == n <==> n <= |s| && SizeField(s[..n]))
    decreases |s| - i
  {
    assert 0 < n <= |s| ==> s[..n][n - 1] == s[n - 1];
    assert i + 1 < n <= |s| ==> s[..n][i] == s[i];
    if i < MAX_SIZE_BYTES && i < |s| && s[i] >= 128 {
      FieldLengthIff(s, i + 1, n);
    }
  }

  lemma {:induction false} AllContinue(s: seq<Octet>, i: nat, n: nat)
    requires i <= n <= |s| && n <= MAX_SIZE_BYTES && forall j :: 0 <= j < n ==> s[j] >= 128
    ensures FieldLength(s, i) == FieldLength(s, n)
    decreases n - i
  {
    if i < n {
      AllContinue(s, i + 1, n);
    }
  }

  lemma ContinueTo(s: seq<Octet>, n: nat)
    requires n <= |s| && n <= MAX_SIZE_BYTES && forall j :: 0 <= j < n ==> s[j] >= 128
    ensures FieldLength(s, 0) == FieldLength(s, n)
    ensures n == MAX_SIZE_BYTES || n == |s| ==> FieldLength(s, 0) == 0
  {
    AllContinue(s, 0, n);
  }

  lemma EightContinue(s: seq<Octet>)
    requires |s| >= MAX_SIZE_BYTES && forall j :: 0 <= j < MAX_SIZE_BYTES ==> s[j] >= 128
    ensures FieldLength(s, 0) == 0
  {
    hide FieldLength;
    ContinueTo(s, MAX_SIZE_BYTES);
  }

  /** A size field is found whatever follows it. */
  lemma FieldFound(field: seq<Octet>, rest: seq<Octet>)
    requires SizeField(field)
    ensures FieldLength(field + rest, 0) == |field| && (field + rest)[..|field|] == field
  {
    hide FieldLength;
    assert (field + rest)[..|field|] == field;
    FieldLengthIff(field + rest, 0, |field|);
  }

  lemma {:induction false} FieldValueSnoc(s: seq<Octet>, b: Octet)
    ensures FieldValue(s + [b]) == FieldValue(s) + b % 128 * Pow2(7 * |s|)
  {
    if s == [] {
      assert [b][1..] == [];
      assert FieldValue([b]) == b % 128;
    } else {
      FieldValueSnoc(s[1..], b);
      assert (s + [b])[1..] == s[1..] + [b];
      Pow2Add(7, 7 * |s[1..]|);
      Pow2Constants();
      TimesProduct(b % 128, Pow2(7 * |s[1..]|));
    }
  }

  lemma TimesProduct(x: nat, p: nat)
    ensures 128 * (x * p) == x * (128 * p)
  {}

  lemma {:induction false} FieldValueBound(s: seq<Octet>)
    ensures FieldValue(s) < Pow2(7 * |s|)
  {
    if s == [] {
    } else {
      FieldValueBound(s[1..]);
      Pow2Add(7, 7 * |s[1..]|);
      Pow2Constants();
    }
  }

  // ---- Units ----

  function HeaderBytes(h: Header): (b: seq<Octet>)
    requires ValidHeader(h)
    ensures |b| == h.size
  {
    [(if h.extended then 128 else 0) + 4 * h.kind + h.tlayer] + (if h.extended then [32 * h.mlayer + h.xlayer] else [])
  }

  /** A header without its second byte stands for layer 0, or the global layer for MSDO. */
  predicate ValidHeader(h: Header) {
    && h.size == (if h.extended then 2 else 1)
    && h.kind < 32 && h.tlayer < 4 && h.mlayer < 8 && h.xlayer < 32
    && (!h.extended ==> h.mlayer == 0 && h.xlayer == if h.kind == OBU_MSDO then GLOBAL_XLAYER else 0)
  }

  /** A unit whose size field and header are in memory; its payload may end early. */
  predicate Headed(o: Obu) {
    && ValidHeader(o.header) && SizeField(o.sizeField)
    && o.header.size + |o.payload| <= FieldValue(o.sizeField) <= UINT32_MAX
    && o.outside < HeaderLength(o) && (o.outside > 0 ==> o.payload == [])
  }

  /** The bytes of size field and header. */
  function HeaderLength(o: Obu): nat {
    |o.sizeField| + o.header.size
  }

  /** The size of the payload that the size field announces. */
  function Announced(o: Obu): int {
    FieldValue(o.sizeField) - o.header.size
  }

  predicate WellFormed(o: Obu) {
    Headed(o) && |o.payload| == Announced(o) && o.outside == 0
  }

  function MemoryBytes(o: Obu): (b: seq<Octet>)
    requires Headed(o)
    ensures |b| == HeaderLength(o) + |o.payload|
  {
    o.sizeField + HeaderBytes(o.header) + o.payload
  }

  /** Those inside the data. */
  function Bytes(o: Obu): (b: seq<Octet>)
    requires Headed(o)
    ensures |b| == HeaderLength(o) + |o.payload| - o.outside > 0
  {
    MemoryBytes(o)[..HeaderLength(o) + |o.payload| - o.outside]
  }

  function HeaderOf(b0: Octet, b1: Octet): (h: Header)
    ensures ValidHeader(h)
  {
    var kind := b0 / 4 % 32;
    if b0 >= 128 then Header(2, true, kind, b0 % 4, b1 / 32, b1 % 32)
    else Header(1, false, kind, b0 % 4, 0, if kind == OBU_MSDO then GLOBAL_XLAYER else 0)
  }

  /** avm_read_obu_header_and_size on the bytes available. */
  function ParseObu(s: seq<Octet>): Parsed {
    var n := FieldLength(s, 0);
    if n == 0 || FieldValue(s[..n]) > UINT32_MAX || n == |s| then Bad
    else if s[n] >= 128 && n + 1 == |s| then Bad
    else
      var h := HeaderOf(s[n], if s[n] >= 128 then s[n + 1] else 0);
      if FieldValue(s[..n]) < h.size then Bad
      else Parsed(h, FieldValue(s[..n]) - h.size, n + h.size)
  }

  /** Reading a unit's header gives its fields, whatever follows. */
  lemma HeaderRoundTrip(o: Obu, rest: seq<Octet>)
    requires Headed(o)
    ensures ParseObu(MemoryBytes(o) + rest) == Parsed(o.header, Announced(o), HeaderLength(o))
  {
    hide FieldValue, FieldLength, SizeField, HeaderOf;
    var s, n := MemoryBytes(o) + rest, |o.sizeField|;
    assert s[..n] == o.sizeField;
    FieldNotEmpty(o.sizeField);
    FieldLengthIff(s, 0, n);
    assert s[n] == HeaderBytes(o.header)[0];
    if o.header.extended {
      assert s[n + 1] == HeaderBytes(o.header)[1];
    }
    HeaderOfBytes(o.header);
  }

  lemma FieldNotEmpty(s: seq<Octet>)
    requires SizeField(s)
    ensures |s| > 0
  {}

  lemma HeaderOfBytes(h: Header)
    requires ValidHeader(h)
    ensures HeaderOf(HeaderBytes(h)[0], if h.extended then HeaderBytes(h)[1] else 0) == h
    ensures HeaderBytes(h)[0] >= 128 <==> h.extended
  {}

  lemma BytesOfHeader(b0: Octet, b1: Octet)
    ensures HeaderBytes(HeaderOf(b0, b1)) == if b0 >= 128 then [b0, b1] else [b0]
  {}

  /**
   The unit at the start of bytes whose header was accepted, with what the first of
   them, those inside the data, hold of it.
   */
  function ObuAt(s: seq<Octet>, inside: nat, next: Octet): Obu
    requires ParseObu(s).Parsed? && ParseObu(s).bytesRead <= |s| && inside <= |s|
  {
    var p := ParseObu(s);
    var field := s[..p.bytesRead - p.header.size];
    if inside < p.bytesRead then Obu(field, p.header, [], p.bytesRead - inside, next)
    else Obu(field, p.header, s[p.bytesRead..Least(inside, p.bytesRead + p.payloadSize)], 0, next)
  }

  function Least(a: nat, b: nat): (m: nat)
    ensures m <= a && m <= b && (m == a || m == b)
  {
    if a <= b then a else b
  }

  /** Whatever is accepted is a unit as written: its bytes are exactly the bytes consumed, or all there are. */
  lemma HeaderComplete(s: seq<Octet>, inside: nat, next: Octet)
    requires ParseObu(s).Parsed? && 0 < inside <= |s|
    ensures var p := ParseObu(s);
      && p.bytesRead <= |s|
      && var o := ObuAt(s, inside, next);
         && Headed(o) && Announced(o) == p.payloadSize && HeaderLength(o) == p.bytesRead
         && Bytes(o) == s[..Least(inside, p.bytesRead + p.payloadSize)]
         && |MemoryBytes(o)| <= |s| && MemoryBytes(o) == s[..|MemoryBytes(o)|]
         && (WellFormed(o) <==> p.bytesRead + p.payloadSize <= inside)
  {
    hide ParseObu, FieldValue, SizeField, HeaderBytes;
    HeaderFound(s);
    var p := ParseObu(s);
    assert s[..p.bytesRead] == s[..p.bytesRead - p.header.size] + s[p.bytesRead - p.header.size..p.bytesRead];
  }

  /** Size field and header of an accepted unit. */
  lemma HeaderFound(s: seq<Octet>)
    requires ParseObu(s).Parsed?
    ensures var p := ParseObu(s);
      && ValidHeader(p.header) && p.header.size < p.bytesRead <= |s|
      && var n := p.bytesRead - p.header.size;
         && SizeField(s[..n]) && FieldValue(s[..n]) == p.header.size + p.payloadSize <= UINT32_MAX
         && s[n..p.bytesRead] == HeaderBytes(p.header)
  {
    hide FieldValue, FieldLength, SizeField, HeaderOf, HeaderBytes;
    var n := FieldLength(s, 0);
    FieldLengthIff(s, 0, n);
    BytesOfHeader(s[n], if s[n] >= 128 then s[n + 1] else 0);
  }

  // ---- Headers in bytes ----

  lemma OneByteField(b: Octet, rest: seq<Octet>)
    requires b < 128
    ensures SizeField([b]) && FieldValue([b]) == b
    ensures FieldLength([b] + rest, 0) == 1 && ([b] + rest)[..1] == [b]
  {
    assert [b][1..] == [];
    FieldFound([b], rest);
  }

  /** Five bits of type and two of temporal layer behind a zero bit. */
  lemma ShortHeader(size: Octet, kind: nat, t: nat)
    requires 1 <= size < 128 && kind < 32 && t < 4
    ensures ParseObu([size, 4 * kind + t])
      == Parsed(Header(1, false, kind, t, 0, if kind == 20 then 31 else 0), size - 1, 2)
  {
    hide FieldLength, FieldValue;
    OneByteField(size, [4 * kind + t]);
    assert [size] + [4 * kind + t] == [size, 4 * kind + t];
  }

  /** Behind a one bit there are three bits of embedded and five of extended layer too. */
  lemma LongHeader(size: Octet, kind: nat, t: nat, m: nat, x: nat)
    requires 1 <= size < 128 && kind < 32 && t < 4 && m < 8 && x < 32
    ensures ParseObu([size, 128 + 4 * kind + t, 32 * m + x])
      == if size == 1 then Bad else Parsed(Header(2, true, kind, t, m, x), size - 2, 3)
  {
    hide FieldLength, FieldValue;
    OneByteField(size, [128 + 4 * kind + t, 32 * m + x]);
    assert [size] + [128 + 4 * kind + t, 32 * m + x] == [size, 128 + 4 * kind + t, 32 * m + x];
  }

  /** A size field has at most eight bytes: here of the value 0. */
  lemma LongestField(head: seq<Octet>, b: Octet)
    requires |head| <= 8 && (forall i :: 0 <= i < |head| ==> head[i] == 128) && b == 0
    ensures ParseObu(head + [b, 8, 0]).Bad?
    ensures FieldLength(head + [b], 0) == if |head| < 8 then |head| + 1 else 0
  {
    hide FieldValue;
    if |head| < 8 {
      ZeroField(head, b);
      FieldFound(head + [b], []);
      assert head + [b] + [] == head + [b];
      FieldFound(head + [b], [8, 0]);
      assert head + [b] + [8, 0] == head + [b, 8, 0];
    } else {
      EightContinue(head + [b]);
      EightContinue(head + [b, 8, 0]);
    }
  }

  lemma {:induction false} ZeroField(head: seq<Octet>, b: Octet)
    requires |head| < 8 && (forall i :: 0 <= i < |head| ==> head[i] == 128) && b == 0
    ensures SizeField(head + [b]) && FieldValue(head + [b]) == 0
    decreases |head|
  {
    hide FieldValue, SizeField;
    if head == [] {
      OnlyByte(b);
      assert [] + [b] == [b] && [b][1..] == [];
    } else {
      ZeroField(head[1..], b);
      assert (head + [b])[1..] == head[1..] + [b];
      NextSevenBits(head + [b]);
    }
  }

  lemma OnlyByte(b: Octet)
    requires b == 0
    ensures SizeField([b]) && FieldValue([b]) == 0
  {}

  lemma NextSevenBits(s: seq<Octet>)
    requires s != [] && s[0] == 128 && SizeField(s[1..]) && |s| <= MAX_SIZE_BYTES && FieldValue(s[1..]) == 0
    ensures SizeField(s) && FieldValue(s) == 0
  {
    forall i | 0 <= i < |s| - 1
      ensures s[i] >= 128
    {
      assert i > 0 ==> s[i] == s[1..][i - 1];
    }
  }

  /** Five bytes hold the largest size of 32 bits, and the next larger one, which is refused. */
  lemma LargestSize(field: seq<Octet>)
    ensures field == [255, 255, 255, 255, 15] ==>
      ParseObu(field + [8]) == Parsed(Header(1, false, 2, 0, 0, 0), 4294967294, 6)
    ensures field == [128, 128, 128, 128, 16] ==> ParseObu(field + [8]) == Bad
  {
    hide FieldLength, FieldValue;
    if field == [255, 255, 255, 255, 15] || field == [128, 128, 128, 128, 16] {
      FiveBytes(field);
      FieldFound(field, [8]);
      assert (field + [8])[5] == 8;
    }
  }

  function Digit(b: Octet): nat {
    b % 128
  }

  lemma FiveBytes(s: seq<Octet>)
    requires |s| == 5
    ensures FieldValue(s)
      == Digit(s[0]) + 128 * Digit(s[1]) + 16384 * Digit(s[2]) + 2097152 * Digit(s[3]) + 268435456 * Digit(s[4])
  {
    hide FieldValue, Digit;
    FieldStep(s);
    FieldStep(s[1..]);
    FieldStep(s[1..][1..]);
    FieldStep(s[1..][1..][1..]);
    FieldStep(s[1..][1..][1..][1..]);
    assert s[1..][1..][1..][1..][1..] == [];
    NoField();
  }

  lemma NoField()
    ensures FieldValue([]) == 0
  {}

  lemma FieldStep(s: seq<Octet>)
    requires s != []
    ensures FieldValue(s) == Digit(s[0]) + 128 * FieldValue(s[1..])
  {}

  /** More bytes do not change an accepted header. */
  lemma ParseMonotone(s: seq<Octet>, more: seq<Octet>)
    requires ParseObu(s).Parsed?
    ensures ParseObu(s + more) == ParseObu(s)
  {
    hide FieldValue, FieldLength, SizeField, HeaderOf;
    var n := FieldLength(s, 0);
    FieldLengthIff(s, 0, n);
    assert (s + more)[..n] == s[..n];
    FieldLengthIff(s + more, 0, n);
  }

  /** Nor do fewer, if they still have all of it. */
  lemma ParseLocal(s: seq<Octet>, more: seq<Octet>)
    requires ParseObu(s + more).Parsed? && ParseObu(s + more).bytesRead <= |s|
    ensures ParseObu(s) == ParseObu(s + more)
  {
    hide FieldValue, FieldLength, SizeField;
    var n := FieldLength(s + more, 0);
    FieldLengthIff(s + more, 0, n);
    assert (s + more)[..n] == s[..n];
    FieldLengthIff(s, 0, n);
  }

  /** A header that goes on behind the bytes is not accepted. */
  lemma CutHeaderIsBad(o: Obu)
    requires Headed(o) && o.outside > 0
    ensures ParseObu(Bytes(o)) == Bad
  {
    hide ParseObu, Headed;
    var s := Bytes(o);
    assert MemoryBytes(o) == s + MemoryBytes(o)[|s|..];
    HeaderRoundTrip(o, []);
    assert MemoryBytes(o) + [] == MemoryBytes(o);
    if ParseObu(s).Parsed? {
      ParseMonotone(s, MemoryBytes(o)[|s|..]);
      HeaderFound(s);
      NothingBehind(o);
    }
  }

  lemma NothingBehind(o: Obu)
    requires Headed(o) && o.outside > 0
    ensures |Bytes(o)| < HeaderLength(o)
  {}

  // ---- The reader ----

  /** The bytes that may be read at pos. */
  function Available(data: seq<Octet>, pos: nat, available: nat): seq<Octet>
    requires pos <= |data|
  {
    if pos + available <= |data| then data[pos..pos + available] else data[pos..]
  }

  /** The bytes decide whether there is a header and which: it, or what is wrong with it, lies within them. */
  predicate Decided(s: seq<Octet>) {
    var n := FieldLength(s, 0);
    if n == 0 then |s| >= MAX_SIZE_BYTES
    else FieldValue(s[..n]) > UINT32_MAX || (n < |s| && (s[n] < 128 || n + 1 < |s|))
  }

  /** What is decided stays so when more bytes follow. */
  lemma DecidedStays(s: seq<Octet>, more: seq<Octet>)
    requires Decided(s)
    ensures ParseObu(s + more) == ParseObu(s) && Decided(s + more)
  {
    hide FieldValue, FieldLength, SizeField, HeaderOf;
    var n := FieldLength(s, 0);
    if n == 0 {
      NoFieldInEight(s, more);
    } else {
      FieldLengthIff(s, 0, n);
      assert (s + more)[..n] == s[..n];
      FieldLengthIff(s + more, 0, n);
    }
  }

  lemma {:induction false} FieldOrContinue(s: seq<Octet>, i: nat)
    requires i <= MAX_SIZE_BYTES <= |s| && FieldLength(s, i) == 0
    ensures forall j :: i <= j < MAX_SIZE_BYTES ==> s[j] >= 128
    decreases MAX_SIZE_BYTES - i
  {
    if i < MAX_SIZE_BYTES {
      FieldOrContinue(s, i + 1);
    }
  }

  lemma NoFieldInEight(s: seq<Octet>, more: seq<Octet>)
    requires FieldLength(s, 0) == 0 && |s| >= MAX_SIZE_BYTES
    ensures FieldLength(s + more, 0) == 0
  {
    FieldOrContinue(s, 0);
    EightContinue(s + more);
  }

  lemma AcceptedIsDecided(s: seq<Octet>)
    requires ParseObu(s).Parsed?
    ensures Decided(s)
  {}

  /**
   Reading never leaves the memory: all available bytes are there, or those that are
   decide. Callers pass more available bytes than remain and rely on this.
   */
  predicate ReadsInside(data: seq<Octet>, pos: nat, available: nat) {
    && pos <= |data|
    && (pos + available <= |data| || Decided(data[pos..]))
  }

  /** The same for a size field alone. */
  predicate FieldInside(data: seq<Octet>, pos: nat, available: nat) {
    && pos <= |data|
    && (pos + available <= |data| || pos + MAX_SIZE_BYTES <= |data| || FieldLength(data[pos..], 0) > 0)
  }

  /** avm_uleb_decode: value and length of the size field, if there is one within 32 bits. */
  method UlebDecode(data: array<Octet>, pos: nat, available: nat) returns (ok: bool, value: nat, length: nat)
    requires FieldInside(data[..], pos, available)
    ensures var s := Available(data[..], pos, available);
      && length == FieldLength(s, 0) <= |s|
      && ok == (length > 0 && FieldValue(s[..length]) <= UINT32_MAX)
      && (length > 0 ==> value == FieldValue(s[..length]))
  {
    hide FieldValue, Pow2;
    ghost var s := Available(data[..], pos, available);
    value := 0;
    NoBytes(s);
    for i := 0 to MAX_SIZE_BYTES
      invariant i <= |s| && FieldLength(s, 0) == FieldLength(s, i)
      invariant value == FieldValue(s[..i]) && forall j :: 0 <= j < i ==> s[j] >= 128
    {
      if i >= available {
        return false, value, 0;
      }
      ByteIsThere(data[..], pos, available, i);
      assert data[pos + i] == s[i];
      assert s[..i + 1] == s[..i] + [s[i]];
      FieldValueSnoc(s[..i], s[i]);
      value := value + data[pos + i] % 128 * Pow2(7 * i);
      if data[pos + i] / 128 == 0 {
        return value <= UINT32_MAX, value, i + 1;
      }
    }
    return false, value, 0;
  }

  lemma NoBytes(s: seq<Octet>)
    ensures FieldValue(s[..0]) == 0
  {}

  lemma ByteIsThere(data: seq<Octet>, pos: nat, available: nat, i: nat)
    requires FieldInside(data, pos, available) && i < available && i < MAX_SIZE_BYTES
    requires var s := Available(data, pos, available); i <= |s| && forall j :: 0 <= j < i ==> s[j] >= 128
    ensures i < |Available(data, pos, available)|
  {
    hide FieldValue;
    var s := Available(data, pos, available);
    if i == |s| {
      ContinueTo(s, i);
    }
  }

  /** avm_read_obu_header_and_size */
  method ReadHeaderAndSize(data: array<Octet>, pos: nat, available: nat) returns (p: Parsed)
    requires ReadsInside(data[..], pos, available)
    ensures p == ParseObu(Available(data[..], pos, available))
  {
    hide FieldValue, FieldLength;
    var ok, obuSize, n := UlebDecode(data, pos, available);
    if !ok {
      return Bad;
    }
    if available - n < 1 {
      return Bad;
    }
    var b0 := data[pos + n];
    var extended, kind, tlayer := b0 / 128 == 1, b0 / 4 % 32, b0 % 4;
    var h;
    if extended {
      if available - n == 1 {
        return Bad;
      }
      var b1 := data[pos + n + 1];
      h := Header(2, extended, kind, tlayer, b1 / 32, b1 % 32);
    } else {
      h := Header(1, extended, kind, tlayer, 0, if kind == OBU_MSDO then GLOBAL_XLAYER else 0);
    }
    if obuSize < h.size {
      return Bad;
    }
    return Parsed(h, obuSize - h.size, n + h.size);
  }

  // ---- Writing size fields ----

  /** The shortest size field of a value. */
  function UlebBytes(v: nat): (s: seq<Octet>)
    ensures |s| > 0
  {
    if v < 128 then [v] else [v % 128 + 128] + UlebBytes(v / 128)
  }

  /** The bits of bytes, most significant first. */
  function OctetBits(s: seq<Octet>): Bits {
    if s == [] then [] else Literal(s[0], 8) + OctetBits(s[1..])
  }

  /** The bit writer's LEB128 word is these bytes. */
  lemma {:induction false} UlebBitsAreBytes(v: nat)
    ensures Vlc.UlebBits(v) == OctetBits(UlebBytes(v)) && Vlc.UlebSize(v) == |UlebBytes(v)|
  {
    hide Literal;
    var s := UlebBytes(v);
    if v < 128 {
      assert s[1..] == [];
    } else {
      UlebBitsAreBytes(v / 128);
      assert s[1..] == UlebBytes(v / 128);
    }
  }

  lemma {:induction false} UlebBytesShape(v: nat, n: nat)
    requires 1 <= n && v < Pow2(7 * n)
    ensures |UlebBytes(v)| <= n && FieldValue(UlebBytes(v)) == v
    ensures UlebBytes(v)[|UlebBytes(v)| - 1] < 128
    ensures forall i :: 0 <= i < |UlebBytes(v)| - 1 ==> UlebBytes(v)[i] >= 128
    decreases n
  {
    hide Pow2;
    var s := UlebBytes(v);
    if v < 128 {
      assert s[1..] == [];
    } else {
      OneByteLess(v, n);
      UlebBytesShape(v / 128, n - 1);
      assert s[1..] == UlebBytes(v / 128);
      assert forall i :: 1 <= i < |s| ==> s[i] == s[1..][i - 1];
    }
  }

  lemma OneByteLess(v: nat, n: nat)
    requires 1 <= n && 128 <= v < Pow2(7 * n)
    ensures n >= 2 && v / 128 < Pow2(7 * (n - 1))
  {
    Pow2Constants();
    Pow2Add(7, 7 * (n - 1));
    SmallerQuotient(v, Pow2(7 * (n - 1)));
  }

  lemma SmallerQuotient(v: nat, p: nat)
    requires v < 128 * p
    ensures v / 128 < p
  {}

  /** Any 32-bit value comes back from its size field of at most five bytes. */
  lemma UlebRoundTrip(v: nat)
    requires v <= UINT32_MAX
    ensures SizeField(UlebBytes(v)) && FieldValue(UlebBytes(v)) == v && |UlebBytes(v)| <= 5
  {
    hide Pow2;
    Pow2Constants();
    Pow2Add(16, 16);
    Pow2Mono(32, 35);
    UlebBytesShape(v, 5);
  }

  /** Byte i has the seven bits from 7 * i on, and its top bit says whether it is not the last. */
  lemma {:induction false} UlebDigit(v: nat, i: nat)
    ensures i < |UlebBytes(v)| <==> i == 0 || v / Pow2(7 * i) > 0
    ensures i < |UlebBytes(v)| ==>
      UlebBytes(v)[i] == v / Pow2(7 * i) % 128 + if i + 1 < |UlebBytes(v)| then 128 else 0
    decreases v
  {
    hide Pow2;
    if i == 0 {
      Pow2Constants();
      assert v / 1 == v;
    } else {
      Pow2Add(7, 7 * (i - 1));
      Pow2Constants();
      DivDiv(v, 128, Pow2(7 * (i - 1)));
      if v >= 128 {
        UlebDigit(v / 128, i - 1);
      } else {
        SmallQuotient(v, 128, Pow2(7 * (i - 1)));
      }
    }
  }

  lemma SmallQuotient(v: nat, d: nat, p: nat)
    requires v < d && p > 0
    ensures d * p > 0 && v / (d * p) == 0
  {
    MulMono(1, p, d);
  }

  /** avm_uleb_size_in_bytes */
  method UlebSizeInBytes(value: nat) returns (size: nat)
    ensures size == |UlebBytes(value)|
  {
    var v: nat := value / 128;
    size := 1;
    while v != 0
      invariant |UlebBytes(value)| == if v == 0 then size else size + |UlebBytes(v)|
      decreases v
    {
      size := size + 1;
      v := v / 128;
    }
  }

  /** s with the bytes from at on replaced by x. */
  function Put(s: seq<Octet>, at: nat, x: seq<Octet>): (t: seq<Octet>)
    requires at + |x| <= |s|
    ensures |t| == |s|
  {
    s[..at] + x + s[at + |x|..]
  }

  /** The lowest seven bits, and a signal if more bytes follow. */
  function LebByte(v: nat): Octet {
    v % 128 + if v / 128 != 0 then 128 else 0
  }

  /** avm_uleb_encode: refuses values beyond 32 bits, writes the others. */
  method UlebEncode(value: nat, available: nat, coded: array<Octet>, at: nat) returns (ok: bool, size: nat)
    requires value <= UINT32_MAX && |UlebBytes(value)| <= available ==> at + |UlebBytes(value)| <= coded.Length
    modifies coded
    ensures ok == (value <= UINT32_MAX && |UlebBytes(value)| <= available)
    ensures if ok then size == |UlebBytes(value)| && coded[..] == Put(old(coded[..]), at, UlebBytes(value))
      else coded[..] == old(coded[..])
  {
    var lebSize := UlebSizeInBytes(value);
    if value > UINT32_MAX || lebSize > available {
      return false, 0;
    }
    hide UlebBytes, FieldValue, SizeField, LebByte, Put;
    var v: nat := value;
    ghost var s := UlebBytes(value);
    ghost var was := coded[..];
    PutNothing(was, at, s[..0]);
    for i := 0 to lebSize
      invariant s[i..] == if i < lebSize then UlebBytes(v) else []
      invariant coded[..] == Put(was, at, s[..i])
    {
      UlebStep(s, i, v);
      PutMore(was, at, s[..i], s[i]);
      ghost var now := coded[..];
      coded[at + i] := LebByte(v);
      assert coded[..] == now[at + i := s[i]];
      v := v / 128;
    }
    assert s[..lebSize] == s;
    return true, lebSize;
  }

  lemma PutNothing(s: seq<Octet>, at: nat, x: seq<Octet>)
    requires at <= |s| && x == []
    ensures Put(s, at, x) == s
  {}

  lemma PutMore(s: seq<Octet>, at: nat, x: seq<Octet>, b: Octet)
    requires at + |x| < |s|
    ensures Put(s, at, x)[at + |x| := b] == Put(s, at, x + [b])
  {}

  /** One byte of a size field, and what is left of it. */
  lemma UlebStep(s: seq<Octet>, i: nat, v: nat)
    requires i < |s| && s[i..] == UlebBytes(v)
    ensures s[i] == LebByte(v) && s[..i + 1] == s[..i] + [s[i]]
    ensures s[i + 1..] == if i + 1 < |s| then UlebBytes(v / 128) else []
  {
    hide UlebBytes, LebByte;
    UlebByte(v);
    assert s[i..][0] == s[i] && s[i..][1..] == s[i + 1..];
    assert |s[i + 1..]| == |s| - (i + 1);
  }

  lemma UlebByte(v: nat)
    ensures UlebBytes(v)[0] == LebByte(v)
    ensures UlebBytes(v)[1..] == if v / 128 != 0 then UlebBytes(v / 128) else []
  {}
}
