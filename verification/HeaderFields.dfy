/** Whole headers: lists of descriptors with values, written and read back in order. */
module HeaderFields {
  import opened MachineInts
  import opened Powers
  import opened BitString
  import opened Parsing
  import opened ByteBits
  import opened Recenter
  import opened Quniform
  import opened Subexp
  import opened Vlc
  import opened BitWriterBuffer
  import opened BitReaderBuffer

  datatype Descriptor =
    | Fixed(bits: nat)
    | Unsigned(bits: nat)
    | InvSigned(bits: nat)
    | Uvlc
    | Svlc
    | QuasiUniform(n: nat)
    | RefQuasiUniform(n: nat, r: nat)
    | RefSubexpfin(n: nat, k: nat, ref: nat)
    | SignedRefSubexpfin(n: nat, k: nat, signedRef: int)
    | Uleb
    | Rice(k: nat)

  datatype Field = Field(desc: Descriptor, value: int)

  /** The parameters the source asserts or needs for its integer types. */
  predicate Legal(d: Descriptor) {
    match d
    case Fixed(bits) => bits <= 31
    case Unsigned(bits) => bits <= 32
    case InvSigned(bits) => bits <= 30
    case Uvlc => true
    case Svlc => true
    case QuasiUniform(n) => 0 < n < UINT16_LIMIT
    case RefQuasiUniform(n, r) => r < n < UINT16_LIMIT
    case RefSubexpfin(n, k, ref) => ref < n < UINT16_LIMIT && k <= MAX_K
    case SignedRefSubexpfin(n, k, ref) => SignedRange(n, ref) && k <= MAX_K
    case Uleb => true
    case Rice(k) => k <= MAX_RICE_K
  }

  predicate InRange(d: Descriptor, v: int) {
    Legal(d) &&
    match d
    case Fixed(bits) => 0 <= v < Pow2(bits)
    case Unsigned(bits) => 0 <= v < Pow2(bits)
    case InvSigned(bits) => InvSignedRange(bits, v)
    case Uvlc => 0 <= v < UINT32_MAX
    case Svlc => SvlcRange(v)
    case QuasiUniform(n) => 0 <= v < n
    case RefQuasiUniform(n, r) => 0 <= v < n
    case RefSubexpfin(n, k, ref) => 0 <= v < n
    case SignedRefSubexpfin(n, k, ref) => SignedRange(n, v)
    case Uleb => 0 <= v <= UINT32_MAX
    case Rice(k) => RiceRange(k, v)
  }

  function Encode(d: Descriptor, v: int): Bits
    requires InRange(d, v)
  {
    match d
    case Fixed(bits) => Literal(v, bits)
    case Unsigned(bits) => Literal(v, bits)
    case InvSigned(bits) => InvSignedBits(bits, v)
    case Uvlc => UvlcBits(v)
    case Svlc => SvlcBits(v)
    case QuasiUniform(n) => QuniformBits(n, v)
    case RefQuasiUniform(n, r) => RefQuniformBits(n, r, v)
    case RefSubexpfin(n, k, ref) => RefSubexpBits(n, k, ref, v)
    case SignedRefSubexpfin(n, k, ref) => SignedRefSubexpBits(n, k, ref, v)
    case Uleb => UlebBits(v)
    case Rice(k) => RiceBits(k, v)
  }

  function Parse(d: Descriptor, s: Bits, pos: nat): Parsed
    requires Legal(d)
  {
    match d
    case Fixed(bits) => Clean(Value(Window(s, pos, bits)), bits)
    case Unsigned(bits) => Clean(Value(Window(s, pos, bits)), bits)
    case InvSigned(bits) => ParseInvSigned(s, pos, bits)
    case Uvlc => ParseUvlc(s, pos)
    case Svlc => ParseSvlc(s, pos)
    case QuasiUniform(n) => ParseQuniform(s, pos, n)
    case RefQuasiUniform(n, r) => ParseRefQuniform(s, pos, n, r)
    case RefSubexpfin(n, k, ref) => ParseRefSubexp(s, pos, n, k, ref)
    case SignedRefSubexpfin(n, k, ref) => ParseSignedRefSubexp(s, pos, n, k, ref)
    case Uleb => ParseUleb(s, pos)
    case Rice(k) => ParseRice(s, pos, k)
  }

  /** Every reader undoes its writer, wherever the word sits. */
  lemma FieldRoundTrip(d: Descriptor, v: int, s: Bits, pos: nat)
    requires InRange(d, v) && Shows(s, pos, Encode(d, v))
    requires d.Uleb? ==> pos % 8 == 0
    ensures Parse(d, s, pos) == Clean(v, |Encode(d, v)|)
  {
    match d
    case Fixed(bits) => LiteralInRange(v, bits);
    case Unsigned(bits) => LiteralInRange(v, bits);
    case InvSigned(bits) => InvSignedRoundTrip(s, pos, bits, v);
    case Uvlc => UvlcRoundTrip(s, pos, v);
    case Svlc => SvlcRoundTrip(s, pos, v);
    case QuasiUniform(n) => QuniformRoundTrip(s, pos, n, v);
    case RefQuasiUniform(n, r) => RefQuniformRoundTrip(s, pos, n, r, v);
    case RefSubexpfin(n, k, ref) => RefSubexpRoundTrip(s, pos, n, k, ref, v);
    case SignedRefSubexpfin(n, k, ref) => SignedRefSubexpRoundTrip(s, pos, n, k, ref, v);
    case Uleb => UlebRoundTrip(s, pos, v);
    case Rice(k) => RiceRoundTrip(s, pos, k, v);
  }

  // ---- Lists ----

  predicate AllInRange(fields: seq<Field>) {
    forall i :: 0 <= i < |fields| ==> InRange(fields[i].desc, fields[i].value)
  }

  function EncodeAll(fields: seq<Field>): Bits
    requires AllInRange(fields)
  {
    if fields == [] then []
    else Encode(fields[0].desc, fields[0].value) + EncodeAll(fields[1..])
  }

  /** Every LEB128 field starts on a byte boundary. */
  predicate Aligned(fields: seq<Field>, pos: nat)
    requires AllInRange(fields)
  {
    fields != [] ==>
      && (fields[0].desc.Uleb? ==> pos % 8 == 0)
      && Aligned(fields[1..], pos + |Encode(fields[0].desc, fields[0].value)|)
  }

  predicate AllLegal(descs: seq<Descriptor>) {
    forall i :: 0 <= i < |descs| ==> Legal(descs[i])
  }

  /** The values read in order, the bits used and the faults. */
  function ParseAll(descs: seq<Descriptor>, s: Bits, pos: nat): (seq<int>, nat, seq<ReadError>)
    requires AllLegal(descs)
  {
    if descs == [] then ([], 0, [])
    else
      var p := Parse(descs[0], s, pos);
      var (values, used, faults) := ParseAll(descs[1..], s, pos + p.used);
      ([p.value] + values, p.used + used, p.faults + faults)
  }

  function Descriptors(fields: seq<Field>): seq<Descriptor> {
    seq(|fields|, i requires 0 <= i < |fields| => fields[i].desc)
  }

  function Values(fields: seq<Field>): seq<int> {
    seq(|fields|, i requires 0 <= i < |fields| => fields[i].value)
  }

  /** A whole header read with the writer's descriptors gives back its values and ends where the writer ended. */
  lemma {:induction false} HeaderRoundTrip(fields: seq<Field>, s: Bits, pos: nat)
    requires AllInRange(fields) && Aligned(fields, pos)
    requires Shows(s, pos, EncodeAll(fields))
    ensures AllLegal(Descriptors(fields))
    ensures ParseAll(Descriptors(fields), s, pos) == (Values(fields), |EncodeAll(fields)|, [])
    decreases |fields|
  {
    hide Encode, Parse, InRange, Legal, Window;
    InRangeIsLegal(fields);
    var descs := Descriptors(fields);
    if fields != [] {
      var f, rest := fields[0], fields[1..];
      var word := Encode(f.desc, f.value);
      ShowsSplit(s, pos, word, EncodeAll(rest));
      FieldRoundTrip(f.desc, f.value, s, pos);
      HeaderRoundTrip(rest, s, pos + |word|);
      assert descs[0] == f.desc && descs[1..] == Descriptors(rest);
      assert Values(fields) == [f.value] + Values(rest);
      assert ParseAll(descs[1..], s, pos + |word|) == (Values(rest), |EncodeAll(rest)|, []);
      assert ParseAll(descs, s, pos).0 == Values(fields);
      assert ParseAll(descs, s, pos).1 == |EncodeAll(fields)|;
      assert ParseAll(descs, s, pos).2 == [];
    } else {
      assert Values(fields) == [];
    }
  }

  lemma InRangeIsLegal(fields: seq<Field>)
    requires AllInRange(fields)
    ensures AllLegal(Descriptors(fields))
  {}

  // ---- The same on the heap ----

  method WriteField(wb: BitWriteBuffer, d: Descriptor, v: int)
    requires InRange(d, v) && wb.Room(|Encode(d, v)|)
    requires d.Uleb? ==> wb.bitOffset % 8 == 0
    modifies wb, wb.buffer
    ensures Appended(old(wb.buffer[..]), old(wb.bitOffset), wb.buffer[..], wb.bitOffset, Encode(d, v))
  {
    hide Appended, Literal, QuniformBits, RefQuniformBits, RefSubexpBits, SignedRefSubexpBits, UlebBits, RiceBits;
    hide UvlcBits, SvlcBits, InvSignedBits;
    match d
    case Fixed(bits) => wb.WriteLiteral(v, bits);
    case Unsigned(bits) => wb.WriteUnsignedLiteral(v, bits);
    case InvSigned(bits) => InvSignedLength(bits, v); wb.WriteInvSignedLiteral(v, bits);
    case Uvlc => wb.WriteUvlc(v);
    case Svlc => wb.WriteSvlc(v);
    case QuasiUniform(n) => wb.WriteQuniform(n, v);
    case RefQuasiUniform(n, r) => wb.WriteRefQuniform(n, r, v);
    case RefSubexpfin(n, k, ref) => wb.WriteRefSubexpfin(n, k, ref, v);
    case SignedRefSubexpfin(n, k, ref) => wb.WriteSignedRefSubexpfin(n, k, ref, v);
    case Uleb => wb.WriteUleb(v);
    case Rice(k) => wb.WriteRiceGolomb(v, k);
  }

  lemma InvSignedLength(bits: nat, v: int)
    ensures |InvSignedBits(bits, v)| == bits + 1
  {}

  method ReadField(rb: BitReadBuffer, d: Descriptor) returns (v: int)
    requires rb.Valid() && Legal(d)
    modifies rb
    ensures rb.Valid() && v == Parse(d, rb.Bits(), old(rb.bitOffset)).value
    ensures Advanced(rb.Bits(), old(rb.bitOffset), old(rb.errors), rb.bitOffset, rb.errors,
                     Parse(d, rb.Bits(), old(rb.bitOffset)).used, Parse(d, rb.Bits(), old(rb.bitOffset)).faults)
  {
    hide Advanced, BitsOf, ParseQuniform, ParseRefQuniform, ParseRefSubexp, ParseSignedRefSubexp, ParseUleb, ParseRice;
    hide ParseUvlc, ParseSvlc, Window, Value;
    match d
    case Fixed(bits) => v := rb.ReadLiteral(bits);
    case Unsigned(bits) => v := rb.ReadUnsignedLiteral(bits);
    case InvSigned(bits) => v := rb.ReadInvSignedLiteral(bits);
    case Uvlc => v := rb.ReadUvlc();
    case Svlc => v := rb.ReadSvlc();
    case QuasiUniform(n) => v := rb.ReadQuniform(n);
    case RefQuasiUniform(n, r) => v := rb.ReadRefQuniform(n, r);
    case RefSubexpfin(n, k, ref) => v := rb.ReadRefSubexpfin(n, k, ref);
    case SignedRefSubexpfin(n, k, ref) => v := rb.ReadSignedRefSubexpfin(n, k, ref);
    case Uleb => v := rb.ReadUleb();
    case Rice(k) => v := rb.ReadRiceGolomb(k);
  }

  method WriteHeader(wb: BitWriteBuffer, fields: seq<Field>)
    requires AllInRange(fields) && Aligned(fields, wb.bitOffset) && wb.Room(|EncodeAll(fields)|)
    modifies wb, wb.buffer
    ensures Appended(old(wb.buffer[..]), old(wb.bitOffset), wb.buffer[..], wb.bitOffset, EncodeAll(fields))
  {
    hide Appended, Encode, InRange;
    ghost var start, off := wb.buffer[..], wb.bitOffset;
    ghost var word := [];
    AppendedNothing(start, off);
    assert fields[0..] == fields;
    for i := 0 to |fields|
      invariant AllInRange(fields[i..]) && Aligned(fields[i..], wb.bitOffset)
      invariant wb.Room(|EncodeAll(fields[i..])|)
      invariant Appended(start, off, wb.buffer[..], wb.bitOffset, word)
      invariant word + EncodeAll(fields[i..]) == EncodeAll(fields)
    {
      ghost var before, mid := wb.buffer[..], wb.bitOffset;
      ghost var piece := Encode(fields[i].desc, fields[i].value);
      assert fields[i..][1..] == fields[i + 1..];
      assert fields[i..][0] == fields[i];
      WriteField(wb, fields[i].desc, fields[i].value);
      AppendedSize(before, mid, wb.buffer[..], wb.bitOffset, piece);
      AppendedMore(start, off, before, mid, word, wb.buffer[..], wb.bitOffset, piece);
      Regroup(word, piece, EncodeAll(fields[i + 1..]));
      word := word + piece;
    }
    assert word + [] == word;
  }

  /** Reading at a place where a header was written returns its values, reports nothing and stops behind it. */
  method ReadHeader(rb: BitReadBuffer, descs: seq<Descriptor>, ghost fields: seq<Field>) returns (values: seq<int>)
    requires rb.Valid() && AllInRange(fields) && descs == Descriptors(fields) && Aligned(fields, rb.bitOffset)
    requires Shows(rb.Bits(), rb.bitOffset, EncodeAll(fields))
    requires rb.bitOffset + |EncodeAll(fields)| <= |rb.Bits()|
    modifies rb
    ensures rb.Valid() && values == Values(fields)
    ensures rb.bitOffset == old(rb.bitOffset) + |EncodeAll(fields)| && rb.errors == old(rb.errors)
  {
    hide Advanced, Encode, InRange, Parse, Window, BitsOf, Legal;
    values := [];
    ghost var s, errs, end := rb.Bits(), rb.errors, rb.bitOffset + |EncodeAll(fields)|;
    InRangeIsLegal(fields);
    assert fields[0..] == fields;
    for i := 0 to |descs|
      invariant rb.Valid() && rb.errors == errs && values == Values(fields[..i])
      invariant AllInRange(fields[i..]) && Aligned(fields[i..], rb.bitOffset)
      invariant Shows(s, rb.bitOffset, EncodeAll(fields[i..]))
      invariant rb.bitOffset + |EncodeAll(fields[i..])| == end
    {
      ghost var f, pos := fields[i], rb.bitOffset;
      assert fields[i..][1..] == fields[i + 1..];
      assert fields[i..][0] == f;
      ShowsSplit(s, pos, Encode(f.desc, f.value), EncodeAll(fields[i + 1..]));
      assert InRange(f.desc, f.value);
      FieldRoundTrip(f.desc, f.value, s, pos);
      assert Legal(descs[i]);
      var v := ReadField(rb, descs[i]);
      AdvancedBounds(s, pos, errs, rb.bitOffset, rb.errors, |Encode(f.desc, f.value)|, []);
      values := values + [v];
      assert Values(fields[..i + 1]) == Values(fields[..i]) + [f.value];
    }
    assert fields[..|descs|] == fields;
  }

  /** What was appended at off is shown at off. */
  lemma AppendedShows(a: seq<byte>, off: nat, a': seq<byte>, off': nat, word: Bits)
    requires off <= 8 * |a| && Appended(a, off, a', off', word)
    ensures Shows(BitsOf(a'), off, word)
  {
    WindowInside(BitsOf(a'), off, |word|);
    assert BitsOf(a')[off..off'] == BitsOf(a')[..off'][off..];
    assert (BitsOf(a)[..off] + word)[off..] == word;
  }

  /** Write a header at the start of a buffer, whatever it held, and read it back. */
  method WriteThenRead(buffer: array<byte>, fields: seq<Field>) returns (values: seq<int>)
    requires AllInRange(fields) && Aligned(fields, 0)
    requires |EncodeAll(fields)| <= 8 * buffer.Length <= MAX_BITS
    modifies buffer
    ensures values == Values(fields)
    ensures BitsOf(buffer[..])[..|EncodeAll(fields)|] == EncodeAll(fields)
  {
    hide Appended, BitsOf, EncodeAll, Aligned, InRange, Window;
    var wb := new BitWriteBuffer(buffer);
    ghost var start := buffer[..];
    WriteHeader(wb, fields);
    AppendedSize(start, 0, buffer[..], wb.bitOffset, EncodeAll(fields));
    AppendedShows(start, 0, buffer[..], wb.bitOffset, EncodeAll(fields));
    WindowInside(BitsOf(buffer[..]), 0, |EncodeAll(fields)|);
    var rb := new BitReadBuffer(buffer);
    values := ReadHeader(rb, Descriptors(fields), fields);
  }
}
