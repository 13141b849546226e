/**
 From header-first to size-first units in place (av2/encoder/encoder.c,
 av2_convert_sect5obus_to_annexb): a unit written as header, size of its payload
 and payload becomes the size of header and payload, header and payload.
 */
module AnnexB {
  import opened MachineInts
  import opened Powers
  import opened RangeEncoder
  import opened ObuHeaders
  import opened FrameUnits

  /** A header-first unit; its size field counts the payload only and may be padded. The payload may end early. */
  predicate HeaderFirst(o: Obu) {
    && ValidHeader(o.header) && SizeField(o.sizeField) && |o.payload| <= FieldValue(o.sizeField)
    && o.header.size + FieldValue(o.sizeField) <= UINT32_MAX
  }

  /** The payload bytes that are announced but not there. */
  function Missing(o: Obu): (n: nat)
    requires HeaderFirst(o)
  {
    FieldValue(o.sizeField) - |o.payload|
  }

  function HeaderFirstBytes(o: Obu): (b: seq<Octet>)
    requires HeaderFirst(o)
    ensures |b| == o.header.size + |o.sizeField| + |o.payload|
  {
    HeaderBytes(o.header) + o.sizeField + o.payload
  }

  /** Only the last unit may end early. */
  predicate HeaderFirstStream(obus: seq<Obu>) {
    forall i :: 0 <= i < |obus| ==> HeaderFirst(obus[i]) && (i < |obus| - 1 ==> Missing(obus[i]) == 0)
  }

  function MissingAtEnd(obus: seq<Obu>): (n: nat)
    requires HeaderFirstStream(obus)
  {
    if obus == [] then 0 else Missing(obus[|obus| - 1])
  }

  function InputBytes(obus: seq<Obu>): seq<Octet>
    requires HeaderFirstStream(obus)
  {
    if obus == [] then [] else HeaderFirstBytes(obus[0]) + InputBytes(obus[1..])
  }

  /** The same unit with the shortest size field that counts the header too. */
  function Converted(o: Obu): (c: Obu)
    requires HeaderFirst(o)
    ensures Headed(c) && c.header == o.header && c.payload == o.payload && Announced(c) == FieldValue(o.sizeField)
    ensures c.outside == 0
  {
    UlebRoundTrip(o.header.size + FieldValue(o.sizeField));
    Obu(UlebBytes(o.header.size + FieldValue(o.sizeField)), o.header, o.payload, 0, o.next)
  }

  /** A unit of less than 127 bytes of payload in bytes: the size goes in front of the header and counts it. */
  lemma ShortUnitConverts(kind: nat, t: nat, x: nat, payload: seq<Octet>, next: Octet)
    requires kind < 32 && t < 4 && x == (if kind == 20 then 31 else 0) && |payload| < 127
    ensures var o := Obu([|payload|], Header(1, false, kind, t, 0, x), payload, 0, next);
      && HeaderFirst(o) && HeaderFirstBytes(o) == [4 * kind + t, |payload|] + payload
      && Bytes(Converted(o)) == [|payload| + 1, 4 * kind + t] + payload
  {
    hide FieldValue, SizeField;
    OneByteField(|payload|, []);
    OneByteField(|payload| + 1, []);
  }

  /** With two bytes of header it counts both. */
  lemma LongUnitConverts(kind: nat, t: nat, m: nat, x: nat, payload: seq<Octet>, next: Octet)
    requires kind < 32 && t < 4 && m < 8 && x < 32 && |payload| < 126
    ensures var o := Obu([|payload|], Header(2, true, kind, t, m, x), payload, 0, next);
      && HeaderFirst(o) && HeaderFirstBytes(o) == [128 + 4 * kind + t, 32 * m + x, |payload|] + payload
      && Bytes(Converted(o)) == [|payload| + 2, 128 + 4 * kind + t, 32 * m + x] + payload
  {
    hide FieldValue, SizeField;
    OneByteField(|payload|, []);
    OneByteField(|payload| + 2, []);
  }

  function OutputBytes(obus: seq<Obu>): seq<Octet>
    requires HeaderFirstStream(obus)
  {
    if obus == [] then [] else Bytes(Converted(obus[0])) + OutputBytes(obus[1..])
  }

  function ConvertedAll(obus: seq<Obu>): (c: seq<Obu>)
    requires HeaderFirstStream(obus)
    ensures |c| == |obus|
  {
    seq(|obus|, i requires 0 <= i < |obus| => Converted(obus[i]))
  }

  /** The output is what the decoder's splitter takes in: the same units in the same order. */
  lemma {:induction false} OutputIsStream(obus: seq<Obu>)
    requires HeaderFirstStream(obus) && Stream(ConvertedAll(obus))
    ensures OutputBytes(obus) == StreamBytes(ConvertedAll(obus))
  {
    hide Headed, Bytes, Converted, HeaderFirst;
    if obus != [] {
      var all := ConvertedAll(obus);
      assert all[1..] == ConvertedAll(obus[1..]);
      assert forall i :: 0 <= i < |all| - 1 ==> all[1..][i] == all[i + 1];
      OutputIsStream(obus[1..]);
    }
  }

  /** A size field longer than eight bytes after h bytes of header. */
  predicate EndlessField(t: seq<Octet>, h: nat) {
    |t| >= h + MAX_SIZE_BYTES && forall i :: h <= i < h + MAX_SIZE_BYTES ==> t[i] >= 128
  }

  /** A size that does not fit 32 bits, or does not with the header's added. */
  predicate LargeField(t: seq<Octet>, h: nat) {
    && |t| >= h && FieldLength(t[h..], 0) > 0
    && h + FieldValue(t[h..][..FieldLength(t[h..], 0)]) > UINT32_MAX
  }

  /** What follows the units, if anything, is a header whose size field cannot be converted. */
  predicate BadTail(t: seq<Octet>) {
    && t != []
    && (EndlessField(t, HeaderSize(t[0])) || LargeField(t, HeaderSize(t[0])))
  }

  /** Nothing, or what cannot be converted, after the last unit. */
  predicate MayFollow(obus: seq<Obu>, tail: seq<Octet>)
    requires HeaderFirstStream(obus)
  {
    (tail == [] || BadTail(tail)) && (MissingAtEnd(obus) > 0 ==> tail == [])
  }

  function HeaderSize(b: Octet): (h: nat)
    ensures h == 1 || h == 2
  {
    if b >= 128 then 2 else 1
  }

  /** A header or size field that goes on behind the bytes. */
  predicate HeaderCut(t: seq<Octet>) {
    t != [] && var h := HeaderSize(t[0]); |t| < h || (FieldLength(t[h..], 0) == 0 && |t| < h + 8)
  }

  /**
   Bytes start with a unit, perhaps cut short in its payload,
   unless they cannot be converted or the header is cut.
   */
  lemma TailCases(t: seq<Octet>) returns (o: Obu)
    requires t != [] && !BadTail(t) && !HeaderCut(t)
    ensures HeaderFirst(o)
    ensures var n := |HeaderFirstBytes(o)|; n <= |t| && t[..n] == HeaderFirstBytes(o) && (Missing(o) > 0 ==> n == |t|)
  {
    hide FieldValue, SizeField, FieldLength, HeaderBytes;
    var h := HeaderSize(t[0]);
    var w := t[h..];
    var n := FieldLength(w, 0);
    if n == 0 {
      NoFieldIsEndless(t, h);
    }
    FieldLengthIff(w, 0, n);
    var v := FieldValue(w[..n]);
    var header := HeaderOf(t[0], if h == 2 then t[1] else 0);
    var end := Least(|t|, h + n + v);
    BytesOfHeader(t[0], if h == 2 then t[1] else 0);
    o := Obu(w[..n], header, t[h + n..end], 0, 0);
    assert HeaderBytes(header) == t[..h];
    assert t[..end] == t[..h] + w[..n] + t[h + n..end];
  }

  lemma NoFieldIsEndless(t: seq<Octet>, h: nat)
    requires h + 8 <= |t| && FieldLength(t[h..], 0) == 0
    ensures EndlessField(t, h)
  {
    FieldOrContinue(t[h..], 0);
    assert forall i :: h <= i < h + 8 ==> t[i] == t[h..][i - h];
  }

  /** Room for every state on the way, as sizes may grow by the header's. */
  ghost predicate Room(capacity: nat, at: nat, obus: seq<Obu>, tail: seq<Octet>)
    requires HeaderFirstStream(obus)
    decreases |obus|
  {
    at + |InputBytes(obus)| + |tail| <= capacity
    && (obus != [] ==>
          var next := at + |Bytes(Converted(obus[0]))|;
          Room(capacity, next, obus[1..], tail))
  }

  /** memmove: overlapping or not */
  method MemMove(buf: array<Octet>, dst: nat, src: nat, n: nat)
    requires dst + n <= buf.Length && src + n <= buf.Length
    modifies buf
    ensures buf[..] == Put(old(buf[..]), dst, old(buf[..])[src..src + n])
  {
    forall i | 0 <= i < n {
      buf[dst + i] := buf[src + i];
    }
  }

  /** The next unit, or the tail that cannot be converted. */
  ghost predicate NextIs(data: seq<Octet>, ptr: nat, remaining: nat, o: Obu, rest: seq<Octet>, bad: bool) {
    && ptr + remaining <= |data|
    && (bad ==> BadTail(data[ptr..ptr + remaining]))
    && (!bad ==> HeaderFirst(o) && (Missing(o) > 0 ==> rest == [])
                 && data[ptr..ptr + remaining] == HeaderFirstBytes(o) + rest
                 && ptr + |Bytes(Converted(o))| + |rest| <= |data|)
  }

  lemma SliceOfSlice(s: seq<Octet>, p: nat, q: nat, i: nat, j: nat)
    requires p <= q <= |s| && i <= j <= q - p
    ensures s[p..q][i..j] == s[p + i..p + j]
  {
    var t := s[p..q];
    forall k | 0 <= k < j - i
      ensures t[i..j][k] == s[p + i..p + j][k]
    {
      assert t[i + k] == s[p + (i + k)];
    }
  }

  lemma Cut(a: seq<Octet>, b: seq<Octet>, c: seq<Octet>)
    ensures (a + b + c)[..|a|] == a && (a + b + c)[|a|..|a| + |b|] == b && (a + b + c)[|a| + |b|..] == c
  {}

  lemma ThreeParts(data: seq<Octet>, p: nat, end: nat, a: seq<Octet>, b: seq<Octet>, c: seq<Octet>)
    requires p <= end <= |data| && data[p..end] == a + b + c
    ensures p + |a| + |b| + |c| == end && data[p..p + |a|] == a
    ensures data[p + |a|..p + |a| + |b|] == b && data[p + |a| + |b|..end] == c
  {
    assert |data[p..end]| == end - p;
    Cut(a, b, c);
    SliceOfSlice(data, p, end, 0, |a|);
    SliceOfSlice(data, p, end, |a|, |a| + |b|);
    SliceOfSlice(data, p, end, |a| + |b|, end - p);
  }

  lemma Associate(a: seq<Octet>, b: seq<Octet>, c: seq<Octet>, d: seq<Octet>)
    ensures a + b + c + d == a + b + (c + d)
  {}

  /** Where memory goes on with a size field, the reader finds it. */
  lemma FieldAt(data: seq<Octet>, pos: nat, available: nat, field: seq<Octet>)
    requires SizeField(field) && pos + |field| <= |data| && data[pos..pos + |field|] == field && |field| <= available
    ensures FieldInside(data, pos, available)
    ensures var w := Available(data, pos, available); FieldLength(w, 0) == |field| && w[..|field|] == field
  {
    hide FieldLength, SizeField;
    FieldNotEmpty(field);
    var n := |field|;
    var w := Available(data, pos, available);
    assert w[..n] == field;
    assert w == field + w[n..];
    FieldFound(field, w[n..]);
    assert data[pos..] == field + data[pos + n..];
    FieldFound(field, data[pos + n..]);
  }

  /** What the round finds at a unit. */
  lemma UnitFound(data: seq<Octet>, ptr: nat, remaining: nat, o: Obu, rest: seq<Octet>)
    requires NextIs(data, ptr, remaining, o, rest, false)
    ensures 0 < remaining && HeaderSize(data[ptr]) == o.header.size
      && data[ptr..ptr + o.header.size] == HeaderBytes(o.header)
    ensures o.header.size + |o.sizeField| <= remaining && FieldInside(data, ptr + o.header.size, remaining)
    ensures var w := Available(data, ptr + o.header.size, remaining);
      FieldLength(w, 0) == |o.sizeField| && w[..|o.sizeField|] == o.sizeField
    ensures data[ptr + o.header.size + |o.sizeField|..ptr + remaining] == o.payload + rest
    ensures |o.sizeField| > 0
  {
    FieldNotEmpty(o.sizeField);
    hide FieldLength, SizeField, FieldValue, HeaderBytes, Available, FieldInside;
    HeaderOfBytes(o.header);
    var hb, h := HeaderBytes(o.header), o.header.size;
    Associate(hb, o.sizeField, o.payload, rest);
    ThreeParts(data, ptr, ptr + remaining, hb, o.sizeField, o.payload + rest);
    assert data[ptr] == data[ptr..ptr + h][0];
    FieldAt(data, ptr + h, remaining, o.sizeField);
  }

  /** What the round finds at a tail: no size, or one that is too large. */
  ghost predicate NoUsableField(data: seq<Octet>, pos: nat, remaining: nat, h: nat) {
    && FieldInside(data, pos, remaining)
    && var w := Available(data, pos, remaining);
       var n := FieldLength(w, 0);
       n == 0 || (h + FieldValue(w[..n]) > UINT32_MAX && h + n <= remaining)
  }

  lemma EndlessFound(data: seq<Octet>, ptr: nat, remaining: nat, h: nat)
    requires ptr + remaining <= |data| && EndlessField(data[ptr..ptr + remaining], h)
    ensures NoUsableField(data, ptr + h, remaining, h)
  {
    hide FieldLength, FieldValue;
    var w := Available(data, ptr + h, remaining);
    assert forall i :: 0 <= i < MAX_SIZE_BYTES ==> w[i] == data[ptr..ptr + remaining][h + i];
    EightContinue(w);
  }

  lemma LargeFound(data: seq<Octet>, ptr: nat, remaining: nat, h: nat)
    requires ptr + remaining <= |data| && LargeField(data[ptr..ptr + remaining], h)
    ensures NoUsableField(data, ptr + h, remaining, h)
  {
    hide FieldLength, FieldValue, SizeField, FieldInside;
    var t := data[ptr..ptr + remaining][h..];
    assert t == data[ptr + h..ptr + remaining];
    var n := FieldLength(t, 0);
    FieldLengthIff(t, 0, n);
    SliceOfSlice(data, ptr + h, ptr + remaining, 0, n);
    assert t[..n] == t[0..n];
    FieldAt(data, ptr + h, remaining, t[..n]);
  }

  lemma PutBefore(s: seq<Octet>, at: nat, x: seq<Octet>, p: nat)
    requires p <= at && at + |x| <= |s|
    ensures Put(s, at, x)[..p] == s[..p]
  {}

  /** The size, the header and what was moved out of their way, next to one another. */
  lemma Rewritten(was: seq<Octet>, a: seq<Octet>, b: seq<Octet>, t: seq<Octet>, ptr: nat, p1: nat, p2: nat, end: nat,
                  size: seq<Octet>, saved: seq<Octet>, moved: seq<Octet>)
    requires p1 == ptr + |size| && p2 == p1 + |saved| && end == p2 + |moved| && end <= |was|
    requires a == Put(was, p2, moved) && b == Put(a, ptr, size) && t == Put(b, p1, saved)
    ensures t[..ptr] == was[..ptr] && t[ptr..end] == size + saved + moved
  {
    hide Put;
    PutThere(was, p2, moved);
    PutThere(a, ptr, size);
    PutThere(b, p1, saved);
    PutKeeps(b, p1, saved, 0, ptr);
    PutKeeps(b, p1, saved, ptr, p1);
    PutKeeps(b, p1, saved, p2, end);
    PutKeeps(a, ptr, size, 0, ptr);
    PutKeeps(a, ptr, size, p2, end);
    PutKeeps(was, p2, moved, 0, ptr);
    assert t[..ptr] == t[0..ptr] && was[..ptr] == was[0..ptr];
    assert t[ptr..end] == t[ptr..p1] + t[p1..p2] + t[p2..end];
  }

  lemma PutThere(s: seq<Octet>, at: nat, x: seq<Octet>)
    requires at + |x| <= |s|
    ensures Put(s, at, x)[at..at + |x|] == x
  {}

  lemma PutKeeps(s: seq<Octet>, at: nat, x: seq<Octet>, i: nat, j: nat)
    requires at + |x| <= |s| && i <= j <= |s| && (j <= at || at + |x| <= i)
    ensures Put(s, at, x)[i..j] == s[i..j]
  {}

  /** What the rewritten part of memory reads. */
  function Shifted(was: seq<Octet>, ptr: nat, remaining: nat, headerSize: nat, lengthSize: nat,
                   payloadSize: nat): (t: seq<Octet>)
    requires ptr + remaining <= |was| && headerSize + lengthSize <= remaining
    ensures |t| == |UlebBytes(headerSize + payloadSize)| + remaining - lengthSize
  {
    UlebBytes(headerSize + payloadSize) + was[ptr..ptr + headerSize]
    + was[ptr + headerSize + lengthSize..ptr + remaining]
  }

  /** Make room for the size, write it and put the header after it. */
  method Rewrite(buffer: array<Octet>, ptr: nat, remaining: nat, headerSize: nat, lengthSize: nat, payloadSize: nat)
    returns (ok: bool, obuLength: nat)
    requires headerSize <= 2 && ptr + remaining <= buffer.Length && headerSize + lengthSize <= remaining
    requires ptr + |UlebBytes(headerSize + payloadSize)| + remaining - lengthSize <= buffer.Length
    modifies buffer
    ensures ok == (headerSize + payloadSize <= UINT32_MAX) && buffer[..][..ptr] == old(buffer[..])[..ptr]
    ensures obuLength == |UlebBytes(headerSize + payloadSize)|
    ensures ok ==>
      var t := Shifted(old(buffer[..]), ptr, remaining, headerSize, lengthSize, payloadSize);
      buffer[..][ptr..ptr + |t|] == t
  {
    hide UlebBytes, Put;
    ghost var size := UlebBytes(headerSize + payloadSize);
    ghost var was := buffer[..];
    var saved := buffer[ptr..ptr + headerSize];
    SliceOfArray(buffer, ptr, ptr + headerSize);
    obuLength := UlebSizeInBytes(headerSize + payloadSize);
    var p1, p2, n: nat := ptr + obuLength, ptr + obuLength + headerSize, remaining - headerSize - lengthSize;
    ghost var tail := was[ptr + headerSize + lengthSize..ptr + remaining];
    MemMove(buffer, p2, ptr + headerSize + lengthSize, n);
    ghost var moved := buffer[..];
    assert moved == Put(was, p2, tail);
    PutBefore(was, p2, tail, ptr);
    SizeIsShort(headerSize + payloadSize);
    var coded;
    ok, coded := UlebEncode(headerSize + payloadSize, 8, buffer, ptr);
    if !ok {
      return;
    }
    ghost var sized := buffer[..];
    PutSaved(buffer, p1, saved);
    Rewritten(was, moved, sized, buffer[..], ptr, p1, p2, p2 + n, size, saved, tail);
  }

  lemma SizeIsShort(v: nat)
    ensures v <= UINT32_MAX ==> |UlebBytes(v)| <= 8
  {
    if v <= UINT32_MAX {
      UlebRoundTrip(v);
    }
  }

  lemma SliceOfArray(a: array<Octet>, i: nat, j: nat)
    requires i <= j <= a.Length
    ensures a[i..j] == a[..][i..j] && a[..j] == a[..][..j]
  {}

  /** memmove from a saved copy */
  method PutSaved(buffer: array<Octet>, at: nat, saved: seq<Octet>)
    requires at + |saved| <= buffer.Length
    modifies buffer
    ensures buffer[..] == Put(old(buffer[..]), at, saved)
  {
    forall i | 0 <= i < |saved| {
      buffer[at + i] := saved[i];
    }
  }

  lemma TailFound(data: seq<Octet>, ptr: nat, remaining: nat)
    requires ptr + remaining <= |data| && BadTail(data[ptr..ptr + remaining])
    ensures remaining > 0 && NoUsableField(data, ptr + HeaderSize(data[ptr]), remaining, HeaderSize(data[ptr]))
  {
    hide EndlessField, LargeField, NoUsableField;
    var t := data[ptr..ptr + remaining];
    if EndlessField(t, HeaderSize(t[0])) {
      EndlessFound(data, ptr, remaining, HeaderSize(t[0]));
    } else {
      LargeFound(data, ptr, remaining, HeaderSize(t[0]));
    }
  }

  /** A size that only the header's bytes push past 32 bits takes no more bytes than it had. */
  lemma LargeIsLong(field: seq<Octet>, h: nat)
    requires h <= 2 && FieldValue(field) <= UINT32_MAX && h + FieldValue(field) > UINT32_MAX
    ensures |UlebBytes(h + FieldValue(field))| <= |field|
  {
    hide Pow2, UlebBytes, FieldValue;
    FieldValueBound(field);
    Pow2Constants();
    Pow2Add(14, 14);
    if |field| < 5 {
      Pow2Mono(7 * |field|, 28);
    }
    Pow2Add(16, 16);
    Pow2Add(32, 3);
    UlebBytesShape(h + FieldValue(field), 5);
  }

  /** At a unit, that is the converted unit and what follows it. */
  lemma ShiftedIs(data: seq<Octet>, ptr: nat, remaining: nat, o: Obu, rest: seq<Octet>)
    requires NextIs(data, ptr, remaining, o, rest, false) && o.header.size + |o.sizeField| <= remaining
    ensures Shifted(data, ptr, remaining, o.header.size, |o.sizeField|, FieldValue(o.sizeField))
      == Bytes(Converted(o)) + rest
  {
    hide SizeField, FieldValue, HeaderBytes, FieldLength, FieldInside, Available, BadTail;
    var size := UlebBytes(o.header.size + FieldValue(o.sizeField));
    UnitFound(data, ptr, remaining, o, rest);
    Associate(size, HeaderBytes(o.header), o.payload, rest);
  }

  /** The size field the round reads, and what it makes of it. */
  lemma RoundFacts(data: seq<Octet>, ptr: nat, remaining: nat, o: Obu, rest: seq<Octet>, bad: bool)
    requires NextIs(data, ptr, remaining, o, rest, bad)
    ensures 0 < remaining && ptr + remaining <= |data|
    ensures var h := HeaderSize(data[ptr]);
      && FieldInside(data, ptr + h, remaining) && ptr + h <= |data|
      && var w := Available(data, ptr + h, remaining);
         var n := FieldLength(w, 0);
         var v := FieldValue(w[..n]);
         && (n == 0 || v > UINT32_MAX ==> bad)
         && (n > 0 && v <= UINT32_MAX ==>
               && h + n <= remaining && bad == (h + v > UINT32_MAX)
               && ptr + |UlebBytes(h + v)| + remaining - n <= |data|
               && (!bad ==>
                     && h + n + v == |HeaderFirstBytes(o)| + Missing(o)
                     && |UlebBytes(h + v)| + h + v == |Bytes(Converted(o))| + Missing(o)
                     && ptr + |Bytes(Converted(o))| + |rest| <= |data|
                     && Shifted(data, ptr, remaining, h, n, v) == Bytes(Converted(o)) + rest))
  {
    hide FieldLength, FieldValue, SizeField, Available, HeaderBytes, UlebBytes, BadTail, Shifted;
    if bad {
      TailFound(data, ptr, remaining);
      var h := HeaderSize(data[ptr]);
      var w := Available(data, ptr + h, remaining);
      var n := FieldLength(w, 0);
      if n > 0 && FieldValue(w[..n]) <= UINT32_MAX {
        LargeIsLong(w[..n], h);
      }
    } else {
      UnitFound(data, ptr, remaining, o, rest);
      ShiftedIs(data, ptr, remaining, o, rest);
    }
  }

  /** One round of the conversion. */
  method ConvertNext(buffer: array<Octet>, ptr: nat, remaining: nat, ghost o: Obu, ghost rest: seq<Octet>,
                     ghost bad: bool)
    returns (ok: bool, read: nat, written: nat)
    requires NextIs(buffer[..], ptr, remaining, o, rest, bad)
    modifies buffer
    ensures ok == !bad && buffer[..][..ptr] == old(buffer[..])[..ptr]
    ensures ok ==>
      && read == |HeaderFirstBytes(o)| + Missing(o) && written == |Bytes(Converted(o))| + Missing(o)
      && var end := ptr + |Bytes(Converted(o))| + |rest|;
         end <= buffer.Length && buffer[..][ptr..end] == Bytes(Converted(o)) + rest
  {
    hide NextIs, HeaderFirst, HeaderFirstBytes, Bytes, Converted, FieldLength, FieldValue, FieldInside, Available,
         UlebBytes, Shifted;
    RoundFacts(buffer[..], ptr, remaining, o, rest, bad);
    var headerSize := if buffer[ptr] / 128 % 2 == 1 then 2 else 1;
    assert headerSize == HeaderSize(buffer[ptr]);
    var payloadSize, lengthSize;
    ok, payloadSize, lengthSize := UlebDecode(buffer, ptr + headerSize, remaining);
    if !ok {
      return false, 0, 0;
    }
    var obuLength;
    ok, obuLength := Rewrite(buffer, ptr, remaining, headerSize, lengthSize, payloadSize);
    read, written := headerSize + lengthSize + payloadSize, obuLength + headerSize + payloadSize;
  }

  const NO_UNIT := Obu([], Header(1, false, 0, 0, 0, 0), [], 0, 0)

  /** The first of the units left, in memory, or the tail after the last. */
  lemma NextFound(data: seq<Octet>, ptr: nat, remaining: nat, todo: seq<Obu>, tail: seq<Octet>)
    requires HeaderFirstStream(todo) && ptr + remaining <= |data| && Room(|data|, ptr, todo, tail)
    requires data[ptr..ptr + remaining] == InputBytes(todo) + tail && MayFollow(todo, tail)
    ensures ptr + remaining <= |data|
    ensures todo == [] && remaining > 0 ==> tail != [] && NextIs(data, ptr, remaining, NO_UNIT, [], true)
    ensures todo != [] ==>
      && HeaderFirst(todo[0]) && HeaderFirstStream(todo[1..]) && MayFollow(todo[1..], tail)
      && MissingAtEnd(todo) == Missing(todo[0]) + MissingAtEnd(todo[1..])
      && (Missing(todo[0]) > 0 ==> todo[1..] == [] && tail == [] && remaining == |HeaderFirstBytes(todo[0])|)
      && NextIs(data, ptr, remaining, todo[0], InputBytes(todo[1..]) + tail, false)
      && Room(|data|, ptr + |Bytes(Converted(todo[0]))|, todo[1..], tail)
      && OutputBytes(todo) == Bytes(Converted(todo[0])) + OutputBytes(todo[1..])
      && |InputBytes(todo)| == |HeaderFirstBytes(todo[0])| + |InputBytes(todo[1..])|
    ensures remaining == 0 ==> todo == [] && tail == [] && OutputBytes(todo) == []
    ensures remaining == |InputBytes(todo)| + |tail|
  {
    hide HeaderFirst, HeaderFirstBytes, BadTail, Bytes, Converted, Missing;
    assert |data[ptr..ptr + remaining]| == remaining;
    assert todo == [] ==> InputBytes(todo) + tail == tail;
    if todo != [] {
      assert HeaderFirst(todo[0]);
      assert HeaderFirstBytes(todo[0]) + InputBytes(todo[1..]) + tail
          == HeaderFirstBytes(todo[0]) + (InputBytes(todo[1..]) + tail);
      BytesNeeded(todo[0]);
      assert todo[1..] == [] ==> InputBytes(todo[1..]) + [] == [];
      assert Room(|data|, ptr + |Bytes(Converted(todo[0]))|, todo[1..], tail);
    }
  }

  lemma BytesNeeded(o: Obu)
    requires HeaderFirst(o)
    ensures |HeaderFirstBytes(o)| > 0
  {}

  lemma PrefixGrows(data: seq<Octet>, ptr: nat, x: seq<Octet>, rest: seq<Octet>, prefix: seq<Octet>)
    requires ptr + |x| + |rest| <= |data| && data[..ptr] == prefix && data[ptr..ptr + |x| + |rest|] == x + rest
    ensures data[..ptr + |x|] == prefix + x
    ensures data[ptr + |x|..ptr + |x| + |rest|] == rest
  {}

  lemma Appended(a: seq<Octet>, b: seq<Octet>, c: seq<Octet>)
    ensures a + b + c == a + (b + c)
  {}

  /** Memory in the middle of the conversion: what came before, the output so far and the units to do. */
  ghost predicate ConvertingTo(data: seq<Octet>, before: seq<Octet>, obus: seq<Obu>, tail: seq<Octet>,
                               todo: seq<Obu>, out: seq<Octet>, ptr: nat, remaining: nat)
  {
    && HeaderFirstStream(obus) && HeaderFirstStream(todo) && MayFollow(todo, tail)
    && ptr == |before| + |out| && ptr + remaining <= |data| && Room(|data|, ptr, todo, tail)
    && out + OutputBytes(todo) == OutputBytes(obus)
    && data[..ptr] == before + out && data[ptr..ptr + remaining] == InputBytes(todo) + tail
  }

  /**
   The same by the loop's variables, which after a payload that ends early have gone
   on by the missing bytes.
   */
  ghost predicate Converting(data: seq<Octet>, before: seq<Octet>, obus: seq<Obu>, tail: seq<Octet>,
                             todo: seq<Obu>, out: seq<Octet>, missing: nat, ptr: nat, remaining: int)
  {
    && HeaderFirstStream(todo) && missing <= ptr && remaining + missing >= 0
    && ConvertingTo(data, before, obus, tail, todo, out, ptr - missing, remaining + missing)
    && (missing > 0 ==> todo == [] && remaining + missing == 0) && MissingAtEnd(obus) == missing + MissingAtEnd(todo)
  }

  lemma ConvertingStep(was: seq<Octet>, now: seq<Octet>, before: seq<Octet>, obus: seq<Obu>, tail: seq<Octet>,
                       todo: seq<Obu>, out: seq<Octet>, missing: nat, ptr: nat, remaining: nat)
    requires Converting(was, before, obus, tail, todo, out, missing, ptr, remaining) && todo != []
    requires HeaderFirst(todo[0]) && HeaderFirstStream(todo[1..])
    requires |now| == |was| && now[..ptr] == was[..ptr]
    requires var unit, rest := Bytes(Converted(todo[0])), InputBytes(todo[1..]) + tail;
      ptr + |unit| + |rest| <= |now| && now[ptr..ptr + |unit| + |rest|] == unit + rest
    ensures var unit, next := Bytes(Converted(todo[0])), Missing(todo[0]);
      Converting(now, before, obus, tail, todo[1..], out + unit, next, ptr + |unit| + next,
                 remaining - |HeaderFirstBytes(todo[0])| - next)
  {
    hide HeaderFirst, HeaderFirstBytes, HeaderFirstStream, MayFollow, Bytes, Converted, NextIs, Room, InputBytes,
         OutputBytes, Missing, MissingAtEnd;
    NextFound(was, ptr, remaining, todo, tail);
    var unit, rest := Bytes(Converted(todo[0])), InputBytes(todo[1..]) + tail;
    PrefixGrows(now, ptr, unit, rest, before + out);
    Appended(before, out, unit);
    Appended(out, unit, OutputBytes(todo[1..]));
  }

  /**
   av2_convert_sect5obus_to_annexb: the units of a frame, converted where they are.
   Nothing before the frame changes; a tail that cannot be converted is reported, but
   a last payload that ends early is not: the size is what it would be with all of it.
   */
  method ConvertToAnnexB(buffer: array<Octet>, at: nat, frameSize: nat, ghost obus: seq<Obu>, ghost tail: seq<Octet>)
    returns (ok: bool, outputSize: nat)
    requires HeaderFirstStream(obus) && at + frameSize <= buffer.Length
    requires buffer[..][at..at + frameSize] == InputBytes(obus) + tail && MayFollow(obus, tail)
    requires Room(buffer.Length, at, obus, tail)
    modifies buffer
    ensures ok == (tail == []) && buffer[..][..at] == old(buffer[..])[..at]
    ensures ok ==>
      && outputSize == |OutputBytes(obus)| + MissingAtEnd(obus) && at + |OutputBytes(obus)| <= buffer.Length
      && buffer[..][at..at + |OutputBytes(obus)|] == OutputBytes(obus)
  {
    hide Converting, HeaderFirst, HeaderFirstBytes, HeaderFirstStream, MayFollow, Bytes, Converted, NextIs, Room,
         InputBytes, OutputBytes, Missing, MissingAtEnd;
    ghost var before := buffer[..][..at];
    ghost var todo := obus;
    ghost var out: seq<Octet> := [];
    ConversionStarts(buffer[..], at, frameSize, obus, tail);
    var total: nat, remaining: int, ptr: nat := 0, frameSize, at;
    outputSize := 0;
    ghost var missing: nat := 0;
    while total < frameSize
      invariant total + remaining == frameSize && ptr == at + outputSize
      invariant Converting(buffer[..], before, obus, tail, todo, out, missing, ptr, remaining)
    {
      ghost var o, rest, bad := RoundIs(buffer[..], before, obus, tail, todo, out, missing, ptr, remaining);
      ghost var was := buffer[..];
      var read, written;
      ok, read, written := ConvertNext(buffer, ptr, remaining, o, rest, bad);
      if !ok {
        assert buffer[..][..at] == buffer[..][..ptr][..at];
        return false, outputSize;
      }
      ConvertingStep(was, buffer[..], before, obus, tail, todo, out, missing, ptr, remaining);
      missing := Missing(o);
      out := out + Bytes(Converted(o));
      todo := todo[1..];
      total := total + read;
      remaining := remaining - read;
      ptr := ptr + written;
      outputSize := outputSize + written;
    }
    ConversionEnds(buffer[..], before, obus, tail, todo, out, missing, ptr, remaining);
    ok := true;
  }

  lemma ConversionStarts(data: seq<Octet>, at: nat, frameSize: nat, obus: seq<Obu>, tail: seq<Octet>)
    requires HeaderFirstStream(obus) && at + frameSize <= |data| && Room(|data|, at, obus, tail)
    requires data[at..at + frameSize] == InputBytes(obus) + tail && MayFollow(obus, tail)
    ensures Converting(data, data[..at], obus, tail, obus, [], 0, at, frameSize)
  {}

  /** What the next round is about. */
  lemma RoundIs(data: seq<Octet>, before: seq<Octet>, obus: seq<Obu>, tail: seq<Octet>, todo: seq<Obu>, out: seq<Octet>,
                missing: nat, ptr: nat, remaining: nat)
    returns (o: Obu, rest: seq<Octet>, bad: bool)
    requires Converting(data, before, obus, tail, todo, out, missing, ptr, remaining) && remaining > 0
    ensures NextIs(data, ptr, remaining, o, rest, bad) && data[..|before|] == before && |before| <= ptr <= |data|
    ensures bad ==> tail != []
    ensures !bad ==> todo != [] && HeaderFirst(todo[0]) && HeaderFirstStream(todo[1..])
                     && o == todo[0] && rest == InputBytes(todo[1..]) + tail
    ensures bad ==> todo == []
  {
    hide HeaderFirst, HeaderFirstBytes, HeaderFirstStream, MayFollow, Bytes, Converted, NextIs, Room, InputBytes,
         OutputBytes, Missing, MissingAtEnd;
    NextFound(data, ptr, remaining, todo, tail);
    bad := todo == [];
    o := if bad then NO_UNIT else todo[0];
    rest := if bad then [] else InputBytes(todo[1..]) + tail;
    Cut(before, out, []);
    assert data[..ptr][..|before|] == data[..|before|];
  }

  lemma ConversionEnds(data: seq<Octet>, before: seq<Octet>, obus: seq<Obu>, tail: seq<Octet>, todo: seq<Obu>,
                       out: seq<Octet>, missing: nat, ptr: nat, remaining: int)
    requires Converting(data, before, obus, tail, todo, out, missing, ptr, remaining) && remaining <= 0
    ensures HeaderFirstStream(obus) && missing == MissingAtEnd(obus) && ptr - |before| == |OutputBytes(obus)| + missing
    ensures var end := |before| + |OutputBytes(obus)|;
      tail == [] && end <= |data| && data[|before|..end] == OutputBytes(obus) && data[..|before|] == before
  {
    hide HeaderFirst, BadTail, HeaderFirstBytes, Bytes, Converted;
    NextFound(data, ptr - missing, remaining + missing, todo, tail);
  }

  // ---- Room for units with the shortest size fields ----

  predicate Shortest(o: Obu) {
    HeaderFirst(o) && Missing(o) == 0 && o.sizeField == UlebBytes(|o.payload|)
  }

  lemma {:induction false} UlebGrows(a: nat, b: nat)
    requires a <= b
    ensures |UlebBytes(a)| <= |UlebBytes(b)|
    decreases b
  {
    if a >= 128 {
      UlebGrows(a / 128, b / 128);
    }
  }

  /** Such units only grow, so the result's size is all that has to fit. */
  lemma {:induction false} RoomIff(capacity: nat, at: nat, obus: seq<Obu>, tail: seq<Octet>)
    requires HeaderFirstStream(obus) && forall i :: 0 <= i < |obus| ==> Shortest(obus[i])
    ensures Room(capacity, at, obus, tail) <==> at + |OutputBytes(obus)| + |tail| <= capacity
    ensures |InputBytes(obus)| <= |OutputBytes(obus)|
    decreases |obus|
  {
    hide HeaderFirst, UlebBytes, HeaderFirstBytes, Bytes;
    if obus != [] {
      var o := obus[0];
      assert Shortest(o);
      UlebGrows(|o.payload|, o.header.size + |o.payload|);
      RoomIff(capacity, at + |Bytes(Converted(o))|, obus[1..], tail);
    }
  }
}
