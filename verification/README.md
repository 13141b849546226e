# Verified models of the AV2 codec's bit-level and stream-level core

Dafny models of the parts of the AV2 reference codec on which encoder and
decoder must agree to the bit, with proofs of what each part promises. Each
model keeps the branches, constants, error cases and integer widths of its
source; code that changes buffers or fields in place is a class or a method
over arrays, proved against a specification function, and the specification
function is what the theorems are about.

## What is modelled

* **Header codes** (`Powers`, `BitString`, `Parsing`, `Recenter`, `Quniform`,
  `Subexp`, `Kraft`, `Vlc`, `ByteBits`, `BitWriterBuffer`, `BitReaderBuffer`,
  `HeaderFields`): literals, uvlc, svlc, LEB128, Rice-Golomb, the quasi-uniform
  and the finite subexponential code with their references, written into and
  read from a byte array at a bit offset. Each code is a function from values
  to bit strings and a grammar from bit strings to values; round trip and
  canonicity are proved between the two, and each method is proved to be one
  of them. Where code and documentation disagree, the model follows the code.
* **Range coder** (`Cdf`, `RangeInterval`, `RangeEncoder`, `RangeDecoder`,
  `SymbolCoding`, `CodingRun`, `CodingSession`): the adaptive tables, the
  encoder with its carry propagation, the decoder with its 64-bit window, and
  the symbol, 4-part and binary codes on top. The specification is an interval
  of numbers: the encoder's state is exactly an interval, its bytes name a
  point of it, and the decoder finds the one symbol whose part that point is
  in. The theorem over whole runs is `CodingRun.RunUnique`, and on the heap
  `CodingSession.WriteThenRead`.
* **DSP kernels** (`Hadamard`, `HadamardSums`, `VectorVariance`,
  `ScaledConvolve`): the 8x8, 16x16 and 32x32 Hadamard transforms against sums
  over memory with Walsh signs, the variance of projection vectors against
  Cauchy-Schwarz, and the two-pass scaled convolution against a double sum per
  pixel.
* **Streams** (`ObuHeaders`, `FrameUnits`, `AnnexB`, `PacketAssembly`,
  `PacketSession`): the size-first units of the bitstream in bytes, the decoder's
  splitting into frame units and its dropping of leading frames, the encoder's
  in-place conversion from header-first units and its packing of hidden frames.
  The two ends meet in `PacketAssembly.Deliver` and, over any number of calls, in
  `PacketSession.Session`: the decoder takes out of the packets, frame by frame,
  what the encoder put into them.
* `MachineInts` holds the integer widths that several models share.

What a specification function computes is stated a second time in plain numbers
wherever the theorems alone would leave it open: type numbers, bytes, divisors,
rounding, the order of equally near values, the place of an entry in memory.

## Findings

* The comment at avm_dsp/avm_convolve.c:96-106 derives 135 scratch rows; the
  code needs at most 134 (`ScaledConvolve.MostRows`).
* The quasi-uniform reader with a reference returns 1 for n = 1 and a set flag
  (`Quniform.RefQuniformEscapes`, exact condition in `RefQuniformInRange`). Both
  callers, av2/decoder/decodeframe.c:6872 and 6995, pass a constant above 1, so
  this is not reached there.
* LEB128 readers accept padded words (`Vlc.UlebNotCanonical`, exact condition
  in `UlebCanonicalIff`).
* A subexponential parameter above 29 overflows an int (`Subexp.LargerKOverflows`).
  The callers pass 3, 4 or a coefficient's width minus 3
  (av2/decoder/decodeframe.c:2775 and 2865), so this is not reached there.
* A table whose first entry is 32768 leaves its first symbol no part of the
  smallest range (`Cdf.FirstPartIff`).
* The comment at avm_dsp/entenc.c:326-327 says that the symbols are decoded
  whatever bits follow the encoder's; they need not be
  (`RangeEncoder.ContinuationEscapes`, `EncodeEscaping`, exact condition in
  `ContinuationIff` and `Done`). Followed by zeros, as the decoder reads past the
  end, they always are.
* The reset flag of a frame unit also sees the unit after it, against the
  comment at av2/av2_dx_iface.c:1056-1057 (`FrameUnits.ResetSeenTooEarly`,
  exact condition in `ResetSeenIff`).
* The header reader accepts unit types 26 to 31, and the scan then writes past a
  row of its table: type 30 at layers (0, 0) sets CLK of embedded layer 1
  (`FrameUnits.ReservedKindHits`, `ReservedKindIsRead`).
* For a last frame unit without picture data the table is read at layers -1
  (`FrameUnits.NoPictureData`). `FrameUnits.StaysInTableIff` is the exact
  condition for neither to happen.
* The scan does not compare a unit's size with the data that is left: a last unit
  that is cut short counts as whole (`FrameUnits.CutShort`). It reads headers with
  the size of the data from the frame unit's start, so one that goes on behind the
  data is read from there (av2/av2_dx_iface.c:614, `FrameUnits.HeaderBehindData`),
  and whether it is depends on the frame unit before (`DelimiterBehindData`).
* The encoder's conversion reports a size with the missing bytes of a last unit cut
  short in it: the size is that of the bytes written exactly when
  `AnnexB.MissingAtEnd` is 0 (`AnnexB.ConvertToAnnexB`).
* The packing loop subtracts the index size unsigned, so it goes on when fewer
  bytes than the index are left (`PacketAssembly.SizeLeftWraps`, exact condition
  in `GoesOnIff`).
* The 16x16 Hadamard transform is not invertible on its integer inputs
  (`Hadamard.SixteenNotInjective`, exact condition in `SixteenCollideIff`), and the
  32x32 transform loses more (`ThirtyTwoOfImpulse`, exact condition in
  `ThirtyTwoCollideIff`).
* The 32-bit variance is exact beyond the range its comment gives, but not
  everywhere (`VectorVariance.WrappingHarms`, exact condition in
  `WrappingHarmlessIff`).

## Model

| member | source | states |
|---|---|---|
| Recenter.RecenterBijection | avm_dsp/recenter.h:21-60 | Recentering around r and its inverse are inverse bijections of [0, n), in both orders, within 16 bits |
| Recenter.RecenterOrdersByDistance | avm_dsp/recenter.h:40-60 | A value nearer to the reference gets a smaller index, and the reference itself index 0 |
| Recenter.RecenterRank | avm_dsp/recenter.h:21-60 | The index of a value is the number of values of [0, n) nearer to the reference, and one more exactly if its mirror image is another value of [0, n) and comes first: the lower of the two for 2r <= n, the upper one otherwise |
| Recenter.Uint16Wraps | avm_dsp/recenter.h:21-60 | The conversion to uint16_t keeps numbers below 65536 and drops multiples of it |
| Quniform.QuniformRoundTrip | avm_dsp/bitreader_buffer.c:88-95 | The quasi-uniform reader returns any v < n and exactly the bits of its word, wherever the word sits |
| Quniform.QuniformComplete | avm_dsp/bitreader_buffer.c:88-95 | On any bits, truncated or not, the reader returns a value below n whose word is exactly the bits it used |
| Quniform.QuniformLengthMonotone | avm_dsp/bitwriter_buffer.c:133-145 | Word lengths never fall as v grows and differ by at most one |
| Quniform.RefQuniformRoundTrip | avm_dsp/bitreader_buffer.c:97-106 | The quasi-uniform code with a reference reads back any v < n for any reference r < n |
| Quniform.RefQuniformWords | avm_dsp/bitwriter_buffer.c:120-131 | The reference is the one bit 0; any other value is 1 and its quasi-uniform word among the others |
| Quniform.RefQuniformInRange | avm_dsp/bitreader_buffer.c:97-106 | What its reader returns is below n exactly when n >= 2 or the flag is clear; the bits used are then the word of that value |
| Quniform.RefQuniformEscapes | avm_dsp/bitreader_buffer.c:97-106 | For n = 1 and a set flag the reader returns 1, which is not below n |
| Kraft.QuniformKraft | avm_dsp/bitwriter_buffer.c:100-118 | The weights 2^-length of the words of all v < n add up to exactly 1: no word is wasted |
| Subexp.SubexpRoundTrip | avm_dsp/bitreader_buffer.c:108-131 | The finite subexponential reader returns any v < n and exactly the bits of its word |
| Subexp.SubexpComplete | avm_dsp/bitreader_buffer.c:108-131 | On any bits, truncated or not, it returns a value below n whose word is exactly the bits it used |
| Subexp.SubexpPrefixFree | avm_dsp/bitwriter_buffer.c:147-169 | No word is a prefix of another |
| Subexp.SubexpWord | avm_dsp/bitwriter_buffer.c:147-169 | Word of a value on level i, in powers of two: i ones, then a zero and the place on the level if more than three times the level is left, otherwise the quasi-uniform word among all that is left |
| Subexp.RefSubexpWord | avm_dsp/bitwriter_buffer.c:196-202 | With a reference it is the word of the place of the value in the order of distance, ties as in recentering |
| Subexp.SignedRefSubexpWord | avm_dsp/bitwriter_buffer.c:204-212 | For signed values it is the word among 2n - 1 values of both, counted from the smallest |
| Subexp.MiddleReference | avm_dsp/bitwriter_buffer.c:196-202 | For n = 8, k = 4 and the reference 4 the value 5 has the word 010 |
| Subexp.SubexpLengthMonotone | avm_dsp/bitwriter_buffer.c:147-194 | Word lengths never fall as v grows, across levels and for every k |
| Subexp.LevelFitsInt | avm_dsp/bitwriter_buffer.c:147-169 | For k <= 29 every level the loop reaches shifts by at most max(k, 15) and mk + 3a fits an int |
| Subexp.LargerKOverflows | avm_dsp/bitwriter_buffer.c:147-169 | For every k > 29 the first level already overflows an int, so the bound on k is exact |
| Kraft.SubexpKraft | avm_dsp/bitwriter_buffer.c:147-169 | The weights of the words of all v < n add up to exactly 1, for every n and k |
| Subexp.RefSubexpRoundTrip | avm_dsp/bitreader_buffer.c:133-139 | With a reference, the reader returns any v < n |
| Subexp.RefSubexpComplete | avm_dsp/bitreader_buffer.c:133-139 | With a reference, any bits give a value below n whose word they are |
| Subexp.RefSubexpNearerIsShorter | avm_dsp/bitwriter_buffer.c:196-202 | A value nearer to the reference never has a longer word |
| Subexp.SignedRefSubexpRoundTrip | avm_dsp/bitreader_buffer.c:141-148 | For every n in [1, 32768] and every reference and value in [-(n-1), n-1] the signed reader undoes the signed writer |
| Subexp.SignedRefSubexpComplete | avm_dsp/bitreader_buffer.c:141-148 | Any bits give a value in [-(n-1), n-1] whose word they are; nothing leaves 16 bits |
| Vlc.UvlcRoundTrip | avm_dsp/bitreader_buffer.c:65-79 | uvlc returns every value except UINT32_MAX |
| Vlc.UvlcShape | avm_dsp/bitwriter_buffer.c:81-87 | The value 2^z - 1 + low, with low below 2^z, is z zeros, a one and z bits of low |
| Vlc.SvlcWords | avm_dsp/bitwriter_buffer.c:89-98 | A positive v has the uvlc word of 2v - 1, its negative that of 2v and 0 that of 0 |
| Vlc.RiceShape | avm_dsp/bitwriter_buffer.c:239-252 | The value q 2^k + low is q ones, a zero and k bits of low |
| Vlc.InvSignedShape | avm_dsp/bitwriter_buffer.c:76-79 | A sign bit, set for negative values, and the low bits of the two's complement |
| Vlc.UvlcCanonical | avm_dsp/bitreader_buffer.c:65-79 | Whatever uvlc accepts is written with exactly the bits used |
| Vlc.UvlcErrorIff | avm_dsp/bitreader_buffer.c:65-79 | The reader reports an error exactly on 32 zeros, and exactly then returns UINT32_MAX |
| Vlc.SvlcRoundTrip | avm_dsp/bitreader_buffer.c:81-86 | svlc returns every value except INT32_MIN, without 32-bit overflow |
| Vlc.SvlcCanonical | avm_dsp/bitreader_buffer.c:81-86 | Whatever svlc accepts is written with exactly the bits used |
| Vlc.UlebRoundTrip | avm_dsp/bitreader_buffer.c:152-180 | At a byte boundary LEB128 returns every 32-bit value |
| Vlc.UlebCanonicalIff | avm_dsp/bitreader_buffer.c:152-180 | An accepted LEB128 word is the one the writer emits exactly when it is one byte long or its last byte is not zero |
| Vlc.UlebNotCanonical | avm_dsp/bitreader_buffer.c:152-180 | The padded word 80 00 is accepted as 0, which the writer would not emit |
| Vlc.RiceRoundTrip | avm_dsp/bitreader_buffer.c:182-206 | Rice-Golomb returns every value whose quotient the reader can count |
| Vlc.RiceCanonical | avm_dsp/bitreader_buffer.c:182-206 | Whatever Rice-Golomb accepts is written with exactly the bits used and fits an int |
| Vlc.RiceErrorIff | avm_dsp/bitreader_buffer.c:182-206 | Rice-Golomb is refused exactly after 32 ones |
| Vlc.UlebTooLongAt | avm_dsp/bitreader_buffer.c:152-180 | LEB128 is refused after eight bytes that all announce more |
| Vlc.InvSignedRoundTrip | avm_dsp/bitreader_buffer.c:59-63 | Sign-extended literals return every value of their two's-complement range |
| Vlc.InvSignedCanonical | avm_dsp/bitreader_buffer.c:59-63 | Any bits + 1 bits are the literal of the value they read as |
| Parsing.AdvancedBounds | avm_dsp/bitreader_buffer.c:25-40 | On any input a read never moves the offset back or past the end; it reports truncation exactly when it asked for more bits than are left |
| ByteBits.MaskIsShift | avm_dsp/bitwriter_buffer.c:32-54 | The mask of bit q is 1 shifted by q |
| ByteBits.BitIsShift | avm_dsp/bitreader_buffer.c:25-40 | Testing the mask is shifting down and taking the lowest bit |
| ByteBits.ByteInStream | avm_dsp/bitwriter_buffer.c:32-44 | Byte i of a buffer is bits 8i to 8i + 7 of the stream, from 0x80 down to 0x01 |
| BitString.LiteralBit | avm_dsp/bitwriter_buffer.c:56-60 | Bit i of a literal of n bits is bit n - 1 - i of the number: the most significant comes first |
| ByteBits.PutBitStream | avm_dsp/bitwriter_buffer.c:46-54 | Clearing and setting one bit of one byte changes that bit of the stream and no other |
| ByteBits.StoreBitAppends | avm_dsp/bitwriter_buffer.c:32-44 | Storing a bit, with the fresh byte at a byte boundary, appends it and clears the rest of its byte whatever the buffer held |
| ByteBits.AlignedTailZero | avm_dsp/bitwriter_buffer.c:36-38 | At a byte boundary the invariant about spare bits asks nothing of the buffer |
| BitWriterBuffer.BitWriteBuffer.BytesWritten | avm_dsp/bitwriter_buffer.c:28-30 | The fewest bytes that hold the bits written |
| BitReaderBuffer.BitReadBuffer.BytesRead | avm_dsp/bitreader_buffer.c:21-23 | The fewest bytes that hold the bits read |
| BitWriterBuffer.BitWriteBuffer.WriteBit | avm_dsp/bitwriter_buffer.c:32-44 | Appends one bit: bits below the offset stay, spare bits of the last byte stay zero, later bytes are untouched |
| BitWriterBuffer.BitWriteBuffer.OverwriteBit | avm_dsp/bitwriter_buffer.c:46-54 | Changes the bit at the offset and no other |
| BitWriterBuffer.BitWriteBuffer.WriteLiteral | avm_dsp/bitwriter_buffer.c:56-60 | Appends the bits of the literal, most significant first |
| BitWriterBuffer.BitWriteBuffer.WriteUnsignedLiteral | avm_dsp/bitwriter_buffer.c:62-67 | Appends the bits of an unsigned literal of up to 32 bits |
| BitWriterBuffer.BitWriteBuffer.OverwriteLiteral | avm_dsp/bitwriter_buffer.c:69-74 | Replaces exactly the bits it covers |
| BitWriterBuffer.BitWriteBuffer.WriteInvSignedLiteral | avm_dsp/bitwriter_buffer.c:76-79 | Appends the two's-complement word of bits + 1 bits |
| BitWriterBuffer.BitWriteBuffer.WriteUvlc | avm_dsp/bitwriter_buffer.c:81-87 | Appends the uvlc word |
| BitWriterBuffer.BitWriteBuffer.WriteSvlc | avm_dsp/bitwriter_buffer.c:89-98 | Appends the svlc word |
| BitWriterBuffer.BitWriteBuffer.WriteQuniform | avm_dsp/bitwriter_buffer.c:100-118 | Appends the quasi-uniform word |
| BitWriterBuffer.BitWriteBuffer.WriteRefQuniform | avm_dsp/bitwriter_buffer.c:120-131 | Appends the quasi-uniform word with a reference |
| BitWriterBuffer.BitWriteBuffer.WriteSubexpfin | avm_dsp/bitwriter_buffer.c:147-169 | The loop over levels appends exactly the subexponential word |
| BitWriterBuffer.BitWriteBuffer.WriteRefSubexpfin | avm_dsp/bitwriter_buffer.c:196-202 | Appends the subexponential word of the recentered value |
| BitWriterBuffer.BitWriteBuffer.WriteSignedRefSubexpfin | avm_dsp/bitwriter_buffer.c:204-212 | Appends the word of the shifted value, for n up to 32768 |
| BitWriterBuffer.BitWriteBuffer.WriteUleb | avm_dsp/bitwriter_buffer.c:223-233 | Appends the LEB128 word |
| BitWriterBuffer.BitWriteBuffer.WriteRiceGolomb | avm_dsp/bitwriter_buffer.c:239-252 | Appends the Rice-Golomb word |
| BitWriterBuffer.CountPrimitiveSubexpfin | avm_dsp/bitwriter_buffer.c:171-194 | The separate count loop returns the number of bits of the written word |
| BitWriterBuffer.CountPrimitiveRefSubexpfin | avm_dsp/bitwriter_buffer.c:214-219 | The number of bits of the word of the recentered value, also for negative references and values, wherever that is below n as the loop asserts; 0 for n of at most 1 |
| BitWriterBuffer.RecenteredInRange | avm_dsp/bitwriter_buffer.c:214-219 | For references and values in [0, n) it always is |
| BitReaderBuffer.BitReadBuffer.ReadBit | avm_dsp/bitreader_buffer.c:25-40 | Returns the bit at the offset, or reports truncation and returns 0 without moving |
| BitReaderBuffer.BitReadBuffer.ReadLiteral | avm_dsp/bitreader_buffer.c:42-47 | Returns the next bits as a number, missing ones as zero |
| BitReaderBuffer.BitReadBuffer.ReadUnsignedLiteral | avm_dsp/bitreader_buffer.c:49-57 | The same up to 32 bits |
| BitReaderBuffer.BitReadBuffer.ReadInvSignedLiteral | avm_dsp/bitreader_buffer.c:59-63 | The shifts left and right give the sign-extended value |
| BitReaderBuffer.BitReadBuffer.ReadUvlc | avm_dsp/bitreader_buffer.c:65-79 | Returns what the uvlc grammar gives, with its error |
| BitReaderBuffer.BitReadBuffer.ReadSvlc | avm_dsp/bitreader_buffer.c:81-86 | Returns what the svlc grammar gives, with its error |
| BitReaderBuffer.BitReadBuffer.ReadQuniform | avm_dsp/bitreader_buffer.c:88-95 | Returns what the quasi-uniform grammar gives |
| BitReaderBuffer.BitReadBuffer.ReadRefQuniform | avm_dsp/bitreader_buffer.c:97-106 | Returns what the grammar with a reference gives |
| BitReaderBuffer.BitReadBuffer.ReadSubexpfin | avm_dsp/bitreader_buffer.c:108-131 | The loop over levels terminates and returns what the subexponential grammar gives |
| BitReaderBuffer.BitReadBuffer.ReadRefSubexpfin | avm_dsp/bitreader_buffer.c:133-139 | The same with a reference |
| BitReaderBuffer.BitReadBuffer.ReadSignedRefSubexpfin | avm_dsp/bitreader_buffer.c:141-148 | The same for signed values |
| BitReaderBuffer.BitReadBuffer.ReadUleb | avm_dsp/bitreader_buffer.c:152-180 | Returns what the LEB128 grammar gives, with its three errors |
| BitReaderBuffer.BitReadBuffer.ReadRiceGolomb | avm_dsp/bitreader_buffer.c:182-206 | Returns what the Rice-Golomb grammar gives, with its error |
| HeaderFields.FieldRoundTrip | avm_dsp/bitreader_buffer.c:25-206 | For each of eleven descriptors the reader undoes the writer, wherever the word sits |
| HeaderFields.HeaderRoundTrip | avm_dsp/bitreader_buffer.c:25-206 | A list of fields read with its descriptors gives back every value and ends at the writer's offset, without faults |
| HeaderFields.WriteThenRead | avm_dsp/bitreader_buffer.c:25-206 | On the heap: fields written into any buffer and read back from it are the same values |
| Cdf.PartsInOrder | avm_dsp/prob.h:290-297 | At every range each symbol of a table gets a non-empty part, the parts lie in order, are multiples of 8 and end at 0 |
| Cdf.FirstPartIff | avm_dsp/prob.h:290-297 | A first entry leaves the first symbol a part of every range exactly when it is below 32768 |
| Cdf.ProbIncIs | avm_dsp/entcode.c:15-31 | Entry n of the row for N symbols is 16 (N - 1 - n) / N, rounded down |
| Cdf.LowerInNumbers | avm_dsp/prob.h:290-297 | Where a symbol's part ends, as one expression of range, entry, symbol and number of symbols |
| Cdf.LowerNearShare | avm_dsp/prob.h:290-297 | That is the entry's share of the range to within 517 below and 240 above |
| Cdf.UpdateKeepsValid | avm_dsp/prob.h:265-287 | Adapting a table to any symbol leaves a table the coder can use |
| Cdf.UpdateFavoursSymbol | avm_dsp/prob.h:265-287 | Adapting never lowers the share of the coded symbol and never raises another's |
| Cdf.AdaptsBy | avm_dsp/prob.h:265-287 | Entries below the coded symbol go up towards 32768, the others down towards 0, by their distance divided by 4 or 8 (more than 3 symbols), times 1, 2 or 4 (count below 16, below 32, or 32), times 4, 2, 1 or 8 by the base-5 digit of the parameter index; the count goes up to 32 |
| Cdf.DefaultPace | avm_dsp/prob.h:271-274 | At parameters 0 the divisor is 16 or 32, twice that from a count of 16 on and twice again at 32 |
| Cdf.PaceNeverGrows | avm_dsp/prob.h:271-274 | At parameters 0 an entry never moves further at a larger count |
| Cdf.FreshTableAdapts | avm_dsp/prob.h:265-287 | The table [16384, 0, 0, 0] of two symbols becomes [15360, 0, 1, 0] after symbol 0 and [17408, 0, 1, 0] after symbol 1 |
| Cdf.UpdateCdf | avm_dsp/prob.h:265-287 | The loops update the array in place to exactly the adapted table |
| RangeInterval.SymbolKeepsValid | avm_dsp/entenc.c:163-190 | Coding a symbol and normalizing gives a range in [2^15, 2^16) again |
| RangeInterval.SymbolInterval | avm_dsp/entenc.c:163-190 | The interval of a symbol in numbers: its part counted from the top of the range, scaled by the power of two that brings it to at least 32768 |
| RangeInterval.SymbolNested | avm_dsp/entenc.c:163-190 | A code in a symbol's interval is in the interval before it |
| RangeInterval.SymbolUnique | avm_dsp/entdec.c:192-221 | A code lies in the interval of at most one symbol |
| RangeInterval.BypassAtOnce | avm_dsp/entenc.c:223-239 | Coding a chunk of bypass bits at once is coding them one by one |
| RangeInterval.BypassAgree | avm_dsp/entdec.c:124-147 | A code determines the bypass bits it was narrowed by |
| RangeEncoder.RangeEncoder.Normalize | avm_dsp/entenc.c:57-115 | Renormalizing moves bytes to the buffer and leaves the coder at exactly the narrowed interval, carries included |
| RangeEncoder.RangeEncoder.EncodeCdf | avm_dsp/entenc.c:163-256 | Moves the coder to exactly the symbol's subinterval |
| RangeEncoder.RangeEncoder.EncodeLiteralBypass | avm_dsp/entenc.c:223-239 | Moves the coder to exactly the chunk's subinterval, for up to 8 bits |
| RangeEncoder.RangeEncoder.Done | avm_dsp/entenc.c:304-391 | A byte for each eight bits used, rounded up: the bytes after carry propagation, continued with zeros, name a point inside the final interval; however they are continued they do exactly when the end chosen plus the weight of the unwritten bits is at most low + rng |
| RangeEncoder.ContinuationIff | avm_dsp/entenc.c:326-352 | A code names points of an interval whatever follows it exactly when the next code of its length is at most the end of the interval |
| RangeEncoder.Base256OfTwo | avm_dsp/entenc.c:339-352 | Of two bytes the first is the more significant |
| RangeEncoder.EndOfLeast | avm_dsp/entenc.c:328-336 | The end chosen is the least number from low on that is an odd multiple of 2^14 |
| RangeEncoder.ContinuationEscapes | avm_dsp/entenc.c:326-352 | The code 129 is in the interval (2088960, 32896, 22), but followed by 255 it is not |
| RangeEncoder.EncodeEscaping | avm_dsp/entenc.c:304-391 | The encoder itself, given one symbol and six bypass bits, writes bytes for that interval that do not name a point of it under every continuation |
| RangeEncoder.RangeEncoder.Tell | avm_dsp/entenc.c:402-406 | The bits used are the interval's shift minus 14 |
| RangeDecoder.RangeDecoder.constructor | avm_dsp/entdec.c:75-85 | From any bytes the decoder starts at the encoder's interval with the code inside it |
| RangeDecoder.RangeDecoder.Refill | avm_dsp/entdec.h:93-130 | Feeding bytes, or ones past the end, keeps the window equal to the code relative to the interval |
| RangeDecoder.RangeDecoder.DecodeCdf | avm_dsp/entdec.c:192-221 | On any bytes finds the one symbol whose interval the code lies in and moves to exactly that interval |
| RangeDecoder.RangeDecoder.DecodeLiteralBypass | avm_dsp/entdec.c:124-147 | On any bytes finds the one chunk whose interval the code lies in and moves there |
| RangeDecoder.RangeDecoder.Tell | avm_dsp/entdec.c:229-235 | Reports the same number of bits as the encoder at the same interval |
| RangeDecoder.WindowFits | avm_dsp/entdec.c:192-221 | The asserted bound holds on every input: the window's top is below the range and it fits 64 bits |
| SymbolCoding.PartsPartition | avm_dsp/bitwriter.h:138-150 | A symbol lies in exactly one of the four parts, the one the comparisons choose |
| SymbolCoding.PartsInNumbers | avm_dsp/bitwriter.h:138-150 | In eighths of the alphabet the parts start at 0, 1, 2 and 4 and have the sizes 1, 1, 2 and 4 |
| SymbolCoding.Count4PartIsCost | avm_dsp/bitwriter.h:181-196 | The count is the cost of the part plus one raw bit's cost for every bit that the writer's interval moves on after the part's symbol |
| SymbolCoding.PartInAlphabet | avm_dsp/bitreader.h:454-463 | Every part and offset the reader can see is a symbol of the alphabet in that part |
| SymbolCoding.ChunkSteps | avm_dsp/bitwriter.h:100-112 | Coding the top bits and then the rest is coding the literal |
| SymbolCoding.JoinChunk | avm_dsp/bitreader.h:263-286 | A chunk read below a literal is the longer literal |
| SymbolCoding.SymbolWriter.WriteLiteral | avm_dsp/bitwriter.h:100-112 | The 8-bit chunks move the coder as the literal's bits do |
| SymbolCoding.SymbolWriter.WriteSymbol | avm_dsp/bitwriter.h:123-128 | Codes the symbol and adapts the table only if updates are allowed |
| SymbolCoding.SymbolWriter.Write4Part | avm_dsp/bitwriter.h:152-172 | Codes the part adaptively and the offset raw |
| SymbolCoding.SymbolWriter.Write4PartWithRef | avm_dsp/bitwriter.h:174-179 | The same for the symbol recentered around the reference |
| SymbolCoding.SymbolWriter.WriteQuniform | avm_dsp/binary_codes_writer.c:42-52 | Emits the same bits as the buffer version for all n and v |
| SymbolCoding.SymbolWriter.WriteSubexpfin | avm_dsp/binary_codes_writer.c:62-84 | Emits the same bits as the buffer version for all n, k and v |
| SymbolCoding.SymbolWriter.WriteRefSubexpfin | avm_dsp/binary_codes_writer.c:114-117 | Emits the same bits as the buffer version with a reference |
| SymbolCoding.SymbolWriter.WriteSignedRefSubexpfin | avm_dsp/binary_codes_writer.c:119-126 | Emits the same bits as the signed buffer version, although the int16_t sums wrap |
| SymbolCoding.CountSignedRefSubexpfin | avm_dsp/binary_codes_writer.c:133-139 | The count is the number of bits of the signed word |
| SymbolCoding.Int16Unwraps | avm_dsp/binary_codes_writer.c:119-126 | A value that wraps as int16_t comes back as uint16_t |
| SymbolCoding.SymbolReader.ReadLiteral | avm_dsp/bitreader.h:263-286 | Returns the literal whose interval the code lies in |
| SymbolCoding.SymbolReader.ReadSymbol | avm_dsp/bitreader.h:367-373 | Returns the symbol the code lies in and adapts the table as the writer does |
| SymbolCoding.SymbolReader.Read4Part | avm_dsp/bitreader.h:454-463 | Returns the 4-part symbol the code lies in |
| SymbolCoding.SymbolReader.Read4PartWithRef | avm_dsp/bitreader.h:467-472 | Returns the symbol before recentering |
| SymbolCoding.SymbolReader.ReadQuniform | avm_dsp/binary_codes_reader.c:17-24 | Returns the value whose word the code continues with |
| SymbolCoding.SymbolReader.ReadSubexpfin | avm_dsp/binary_codes_reader.c:28-51 | Returns the value whose subexponential word the code continues with |
| SymbolCoding.SymbolReader.ReadRefSubexpfin | avm_dsp/binary_codes_reader.c:53-57 | The same with a reference |
| CodingRun.CodeUnique | avm_dsp/bitreader.h:367-373 | Asked for the same thing at the same state, a code yields one value, for every kind of request |
| CodingRun.RunUnique | avm_dsp/bitreader.h:367-373 | Over any run from equal tables, whatever is read from the coded point is what was coded, so tables and intervals agree after every step |
| CodingSession.WriteItem | avm_dsp/bitwriter.h:100-179 | On the heap each write is one step of the run and changes only its context's table |
| CodingSession.ReadItem | avm_dsp/bitreader.h:263-472 | On the heap each read is one step of the run |
| CodingSession.WriteBytes | avm_dsp/entenc.c:304-391 | The bytes of a whole run name a point of the run's interval |
| CodingSession.ReadBytes | avm_dsp/entdec.c:75-221 | From any bytes a run of requests yields legal values whose interval the bytes lie in |
| CodingSession.WriteThenRead | avm_dsp/bitreader.h:263-472 | Bytes of any run, read back with the same requests, equal tables and the same update flag, give the coded values and leave equal tables |
| Hadamard.Butterflies | avm_dsp/avg.c:52-81 | The butterfly sums are the inner products with the eight Walsh functions |
| Hadamard.CoefficientIsDoubleSum | avm_dsp/avg.c:118-141 | Each 8x8 coefficient is the sum of the 64 entries, each with the sign that is the product of two Walsh functions |
| Hadamard.EnergyConserved | avm_dsp/avg.c:118-141 | The squared 8x8 coefficients add up to 64 times the squared inputs |
| Hadamard.TransformInverts | avm_dsp/avg.c:118-141 | The inputs, times 64, are recovered from the 8x8 coefficients |
| Hadamard.TransformInjective | avm_dsp/avg.c:118-141 | Two blocks have the same 8x8 coefficients exactly when they are the same |
| Hadamard.TransformParity | avm_dsp/avg.c:118-141 | All 64 coefficients of a block are even or odd as its sum is |
| Hadamard.TransformBounded | avm_dsp/avg.c:83-141 | Inputs within 4095 give intermediates within 32760 and coefficients within 262080 |
| Hadamard.Butterfly16 | avm_dsp/avg.c:52-81 | In 16-bit variables throughout, the first pass yields the line's spectrum |
| Hadamard.Butterfly32 | avm_dsp/avg.c:85-114 | In 32-bit variables, the second pass yields the spectrum of any 16-bit line |
| Hadamard.Hadamard8x8 | avm_dsp/avg.c:118-141 | The two passes over strided memory write exactly the block's coefficients and change nothing else |
| Hadamard.Hadamard16x16 | avm_dsp/avg.c:144-174 | Four 8x8 transforms and the in-place last stage write exactly the combined coefficients, nothing overflowing 32 bits |
| Hadamard.Hadamard32x32 | avm_dsp/avg.c:176-206 | Four 16x16 transforms and the in-place last stage, likewise |
| Hadamard.Coefficients16Bounded | avm_dsp/avg.c:144-174 | 16x16 coefficients stay within 524160 despite the flooring shift |
| Hadamard.Coefficients32Bounded | avm_dsp/avg.c:176-206 | 32x32 coefficients stay within 524160 despite the flooring shift |
| Hadamard.MixedNearExact | avm_dsp/avg.c:155-171 | Flooring moves an output of the last stage at most one step per sum away from the exact one |
| Hadamard.HalvingLosesOneBit | avm_dsp/avg.c:155-171 | Two inputs of the 16x16 last stage give the same outputs exactly when they agree up to the lowest bit of the left quarters' coefficients |
| Hadamard.SixteenCollideIff | avm_dsp/avg.c:144-174 | Two 16x16 blocks have the same coefficients exactly when they are the same after the parity of the upper half's sum is taken from entry (0, 0) and that of the lower half's from entry (8, 0) |
| Hadamard.SixteenNotInjective | avm_dsp/avg.c:144-174 | A residual of 1 in the first place of a 16x16 block has the all-zero coefficients of no residual |
| HadamardSums.EightInMemory | avm_dsp/avg.c:118-141 | Coefficient 8k + m is the sum over rows r and columns c of the entry at off + r stride + c, with the signs of Walsh function k at r and m at c |
| HadamardSums.SixteenInMemory | avm_dsp/avg.c:144-174 | Twice coefficient 64q + 8k + m is that sum over 16 rows and columns, the halves of rows and columns told apart by q, to within 2 below and 1 above |
| HadamardSums.ThirtyTwoInMemory | avm_dsp/avg.c:176-206 | Eight times coefficient 256w + 64q + 8k + m is that sum over 32 rows and columns, the halves told apart by w and the quarters by q, to within 20 below and 12 above |
| Hadamard.SixteenOfImpulse | avm_dsp/avg.c:144-174 | A 16x16 block that is x in its first place and 0 elsewhere has the coefficient x / 2, rounded down, everywhere |
| Hadamard.ThirtyTwoCollideIff | avm_dsp/avg.c:176-206 | Two 32x32 blocks have the same coefficients exactly when, coefficient by coefficient, the sums and differences of their upper and of their lower two 16x16 quarters agree but for the lowest two bits |
| Hadamard.QuarteringLosesThreeBits | avm_dsp/avg.c:187-203 | Such a pair of coefficients agrees with exactly eight pairs |
| Hadamard.ThirtyTwoOfImpulse | avm_dsp/avg.c:176-206 | A 32x32 block that is x in its first place and 0 elsewhere has the coefficient x / 8, rounded down, everywhere, so those from 0 to 7 collide |
| VectorVariance.VectorVar | avm_dsp/avg.c:228-244 | In wrapping 32-bit arithmetic the loop returns the sums of the formula modulo 2^32 |
| VectorVariance.LegalWidths | avm_dsp/avg.c:227 | The widths allowed are those of bwl from 2 to 5 |
| VectorVariance.WidthIs | avm_dsp/avg.c:229-230 | The width is 4 times 2^bwl |
| VectorVariance.CauchySchwarz | avm_dsp/avg.c:234-238 | The squared sum is at most the length times the sum of squares, with equality exactly for equal differences |
| VectorVariance.VarianceProperties | avm_dsp/avg.c:228-244 | The formula's variance is never negative, at least the exact one and less than one above it, and zero exactly when all differences are equal |
| VectorVariance.ReturnedProperties | avm_dsp/avg.c:228-244 | So is the int returned, where the squared sum's bits above the 32nd are a multiple of the width |
| VectorVariance.WrappingHarms | avm_dsp/avg.c:240-243 | Sixteen differences of 4096 have variance 0, and 268435456 is returned |
| VectorVariance.WrappingHarmlessIff | avm_dsp/avg.c:240-243 | A variance that fits an int is returned unchanged exactly when the squared sum's bits above the 32nd are a multiple of the width, as they are when the squared sum fits 32 bits |
| ScaledConvolve.ScratchSuffices | avm_dsp/avm_convolve.c:107-114 | Under the asserted limits and 0 <= y0_q4 <= 15 at most 134 scratch rows are used and every filter window lies in them |
| ScaledConvolve.MostRows | avm_dsp/avm_convolve.c:96-106 | 134 rows are reached, so one of the 135 is never used |
| ScaledConvolve.EnoughRowsIff | avm_dsp/avm_convolve.c:107-118 | For vertical steps of either sign the rows filtered hold every window exactly when the first line is not above the source and the last not above the first |
| ScaledConvolve.HorzScalarProduct | avm_dsp/avm_convolve.c:41-46 | The eight products add up without int overflow for 12-bit pixels |
| ScaledConvolve.VertScalarProduct | avm_dsp/avm_convolve.c:33-39 | The same down a column |
| ScaledConvolve.FilteredRounds | avm_dsp/avm_convolve.c:48-85 | A filtered pixel is the number from 0 to 255, 1023 or 4095 nearest to a 128th of the sum of products, the upper one of two |
| ScaledConvolve.HalfRoundsUp | avm_dsp/avm_convolve.c:48-65 | A pixel of 1 under two taps of 64 gives 1 |
| ScaledConvolve.ConvolveHoriz | avm_dsp/avm_convolve.c:48-65 | The stepping loops write exactly the clipped rounded horizontal sums and nothing else |
| ScaledConvolve.ConvolveVert | avm_dsp/avm_convolve.c:67-85 | The stepping loops write exactly the clipped rounded vertical sums and nothing else |
| ScaledConvolve.Convolve8 | avm_dsp/avm_convolve.c:87-121 | The destination shows the two-pass image, whatever the scratch buffer held; nothing else changes, also when source and destination overlap |
| ScaledConvolve.ConvolvedPixel | avm_dsp/avm_convolve.c:87-121 | Per pixel and without a scratch buffer: the clipped vertical sum of clipped horizontal sums, from samples that are all there |
| ScaledConvolve.ConvolvedInNumbers | avm_dsp/avm_convolve.c:87-121 | In numbers: pixel (y, x) is the nearest to a 128th of the sum down eight values, each the nearest to a 128th of the sum of eight samples, from three rows and columns before the position in sixteenths, floored, with the taps its remainder chooses |
| ScaledConvolve.ConstantStays | avm_dsp/avm_convolve.c:87-121 | Under kernels whose taps add up to 128 an image of one value stays as it is |
| ScaledConvolve.UnscaledCopies | avm_dsp/avm_convolve.c:87-121 | With unit steps at whole positions and a kernel of one tap of 128 the source is copied |
| ObuHeaders.HeaderRoundTrip | av2/common/obu_util.c:37-96 | Reading a written header gives its fields and sizes, for every form of the size field, whatever follows, be it less than the payload announced |
| ObuHeaders.ShortHeader | av2/common/obu_util.c:37-66 | The bytes size, 4 kind + t are a header of one byte, of layer 0, or 31 for type 20 |
| ObuHeaders.LongHeader | av2/common/obu_util.c:37-66 | The bytes size, 128 + 4 kind + t, 32 m + x are a header of two bytes, or none if the size is 1 |
| ObuHeaders.LongestField | avm/src/avm_integer.c:32-58 | After up to seven bytes of 128 a zero ends a size field, after eight there is none |
| ObuHeaders.LargestSize | av2/common/obu_util.c:22-35 | 255, 255, 255, 255, 15 is the largest size accepted, and 128, 128, 128, 128, 16 is refused |
| ObuHeaders.HeaderComplete | av2/common/obu_util.c:68-96 | Whatever is accepted is a written unit: its bytes are exactly those consumed, or all there are if its payload ends early |
| ObuHeaders.ParseMonotone | av2/common/obu_util.c:68-96 | More bytes behind an accepted header do not change it |
| ObuHeaders.DecidedStays | av2/common/obu_util.c:68-96 | Where the bytes show what is wrong with a header, more bytes behind them do not change that either |
| ObuHeaders.CutHeaderIsBad | av2/common/obu_util.c:68-96 | The bytes of a unit up to somewhere inside its header are not accepted |
| ObuHeaders.UlebDecode | avm/src/avm_integer.c:32-58 | Returns the value and length of the size field at the position, or fails exactly if there is none within 8 bytes or 32 bits |
| ObuHeaders.ReadHeaderAndSize | av2/common/obu_util.c:68-96 | On any bytes the reader computes the parse, error cases included |
| ObuHeaders.UlebRoundTrip | avm/src/avm_integer.c:60-79 | Every 32-bit value has a size field of at most five bytes that reads back as it |
| ObuHeaders.UlebDigit | avm/src/avm_integer.c:60-79 | Byte i of a size field is the seven bits from 7i on, with 128 added unless it is the last, which has the highest bits |
| ObuHeaders.UlebBitsAreBytes | avm_dsp/bitwriter_buffer.c:223-233 | The bit writer's LEB128 word is the bits of these bytes, in number too |
| ObuHeaders.UlebSizeInBytes | avm/src/avm_integer.c:24-30 | The loop counts the bytes of the shortest size field |
| ObuHeaders.UlebEncode | avm/src/avm_integer.c:60-79 | Writes the shortest size field in place, or refuses exactly values beyond 32 bits or the space given |
| FrameUnits.FrameUnitUnique | av2/av2_dx_iface.c:589-701 | There is one way to take a frame unit off a stream |
| FrameUnits.UnitLengthIs | av2/av2_dx_iface.c:611-700 | What the scan takes is a frame unit: after picture data only units that may follow it, and it ends only where one may not |
| FrameUnits.PictureTypes | av2/common/obu_util.h:42-55 | A unit is picture data exactly for types 4 to 7, 10 to 14, 19 and 21, in a single unit exactly for 11 to 14 and 19 |
| FrameUnits.FollowingTypes | av2/av2_dx_iface.c:618-688 | What may follow picture data: type 25, types 4 to 7, 10 and 21 with the top bit of the next byte clear, types 8 and 9 with payload and that bit set |
| FrameUnits.TwoFrames | av2/av2_dx_iface.c:618-636 | Any two units that start a frame, by these types and that bit, are two frame units |
| FrameUnits.OneFrame | av2/av2_dx_iface.c:618-636 | A unit of the other kind after one that starts a frame stays with it |
| FrameUnits.SplitJoins | av2/av2_dx_iface.c:1028-1037 | Splitting loses and reorders nothing; frame units are non-empty and closed, and all but the last have picture data |
| FrameUnits.OneFrameEach | av2/av2_dx_iface.c:627-632 | A frame unit holds at most one start of a frame, and no picture data before it |
| FrameUnits.SplitAgain | av2/av2_dx_iface.c:589-701 | A frame unit split again is one frame unit |
| FrameUnits.SplitInParts | av2/av2_dx_iface.c:1028-1037 | A stream cut before a unit that cannot follow picture data splits into the frame units of its parts, if the last one of the first part has picture data |
| FrameUnits.LayersOfFirstVcl | av2/av2_dx_iface.c:636-641 | The layers reported are those of the first picture data, and none are exactly when there is none |
| FrameUnits.ResettingTypes | av2/av2_dx_iface.c:643-648 | The types that raise the reset flag: 1, 16, 17, 18 and 20, and 8 and 9 in layer 31 |
| FrameUnits.ResetSeenIff | av2/av2_dx_iface.c:645-655 | The reset flag differs from what the frame unit alone gives exactly when the unit after it is the first one that resets |
| FrameUnits.ResetSeenTooEarly | av2/av2_dx_iface.c:645-655 | It does: for a tile group followed by a sequence header the first frame unit reports a reset |
| FrameUnits.HeldIffReadable | av2/av2_dx_iface.c:611-700 | Memory is a sequence of units, the last one perhaps cut short in its payload or its header, or followed by bytes that do not parse, exactly when the scans, going from header to header, never look outside memory |
| FrameUnits.UnitDecoder.CheckFrameUnitData | av2/av2_dx_iface.c:589-701 | The scan over bytes returns the size of exactly one frame unit, all of the data if its last unit is cut short, be it in its header, or 0 if none ends before bytes that do not parse; count, presence table, layers and reset flag describe that frame unit |
| FrameUnits.UnitDecoder.Decode | av2/av2_dx_iface.c:1028-1143 | Where table accesses stay inside the table, exactly the kept frame units are decoded, in order, the last with the bytes it has, and the random access flag ends as specified; an error is returned exactly for bytes that do not parse and for a header behind the data that does not belong to the frame unit before it |
| FrameUnits.CutShort | av2/av2_dx_iface.c:611-700 | The bytes 5, 28, 128, a tile group with one of the four bytes it announces, are held as one unit and found as a whole frame unit |
| FrameUnits.TwoPictures | av2/av2_dx_iface.c:589-701 | For any two picture types x and y the bytes 2, 4x, 128, 2, 4y, 128 are two frame units of three bytes, the first with layers 0 |
| FrameUnits.HeaderBehindData | av2/av2_dx_iface.c:613-617 | Of the bytes 2, 28, 128, 1, 100 the first four are the data: the padding header 100 behind them is read and its unit taken, although the 1 on its own does not parse |
| FrameUnits.DelimiterBehindData | av2/av2_dx_iface.c:613-617 | With 8, a delimiter, there instead, the tile group is found and an error follows |
| FrameUnits.StaysInTableIff | av2/av2_dx_iface.c:691-693 | All accesses to the table stay inside it exactly when every type is below 26 and the last frame unit, if found whole, has picture data |
| FrameUnits.LookedUpTypes | av2/av2_dx_iface.c:1039-1045 | What is looked up in numbers: type 1 at layers (0, 0), type 3 at temporal layer 0, types 4, 5, 6, 11 and 13 at the layers of the picture data |
| FrameUnits.ReservedKindHits | av2/av2_dx_iface.c:691-693 | A unit of type 26 to 31 sets the entry of type 0 to 5 of the next layer, or, at the last layers, memory behind the table |
| FrameUnits.ReservedKindIsRead | av2/common/obu_util.c:68-96 | The bytes 1, 120 are accepted as type 30, whose entry at layers (0, 0) is the CLK entry of embedded layer 1 |
| FrameUnits.NoPictureData | av2/av2_dx_iface.c:1041-1045 | A lone temporal delimiter is a frame unit without layers, for which the table is read 230 entries before its start |
| FrameUnits.AccessLasts | av2/av2_dx_iface.c:1095-1106 | Random access lasts exactly while no frame unit was decoded that carries a CLK or has no key frame |
| FrameUnits.LeadingTypes | av2/av2_dx_iface.c:1041-1045 | In the layers of its picture data a frame unit is leading by types 6, 11 and 13, a key frame by 4 and 5, a CLK by 4 |
| FrameUnits.AccessTypes | av2/av2_dx_iface.c:1095-1106 | After random access a frame unit of one unit is dropped exactly for types 6, 11 and 13, and random access lasts exactly for these and 5 |
| FrameUnits.DropsExactlyLeading | av2/av2_dx_iface.c:1095-1106 | The frame units dropped are exactly the leading ones before the first decoded one that carries a CLK or has no key frame; without random access none are |
| FrameUnits.CompleteIs | av2/av2_dx_iface.c:1036-1038 | Before bytes that do not parse, all frame units but the last are still found |
| AnnexB.OutputIsStream | av2/encoder/encoder.c:5507-5560 | The converted units are the same headers and payloads in the same order, as a stream the decoder can split |
| AnnexB.ShortUnitConverts | av2/encoder/encoder.c:5515-5554 | The bytes 4 kind + t, n and n bytes of payload become n + 1, 4 kind + t and the payload |
| AnnexB.LongUnitConverts | av2/encoder/encoder.c:5515-5554 | With two bytes of header n + 2 comes in front of them |
| AnnexB.TailCases | av2/encoder/encoder.c:5515-5554 | Any bytes start with a unit, perhaps cut short in its payload, unless they are a tail that cannot be converted or end inside a header or size field |
| AnnexB.Rewrite | av2/encoder/encoder.c:5531-5545 | Moving the rest, writing the size and putting the header back leave size, header and the rest next to one another, also when they overlap |
| AnnexB.ConvertNext | av2/encoder/encoder.c:5515-5554 | One round converts one unit, or fails exactly on a size that cannot be read or written |
| AnnexB.ConvertToAnnexB | av2/encoder/encoder.c:5507-5560 | In place and with nothing before the frame changed, header-first units become size-first ones; an error is returned exactly for a tail that cannot be converted, and a last payload cut short is converted as if it were all there |
| AnnexB.RoomIff | av2/encoder/encoder.c:5525-5545 | For units with the shortest size fields every state on the way fits exactly when the result does |
| PacketAssembly.DelimiterLegal | av2/av2_cx_iface.c:3292-3307 | The delimiter bytes 8, 0 are a unit that converts to 1, 8 |
| PacketAssembly.UnitsInOrder | av2/av2_cx_iface.c:3284-3321 | A frame is packed as its own units, behind the bytes 1, 8 exactly if delimiters are signalled and it is of layer 0 and output, at once or later |
| PacketAssembly.ShownAlone | av2/av2_cx_iface.c:3270-3283 | One frame alone ends a packet exactly if it is output at once and has units or is a hidden overlay, which makes the packet null |
| PacketAssembly.IndexInNumbers | av2/av2_cx_iface.c:3320-3325 | The index size is 0 at first, 4 times the frames pending plus 2 after the first frame with units, and 4 more after each other |
| PacketAssembly.CodeFrame | av2/av2_cx_iface.c:3291-3315 | A frame's bytes, with a delimiter in front where signalled, end up size-first behind untouched pending bytes |
| PacketAssembly.PacketAssembler.Take | av2/av2_cx_iface.c:3284-3321 | Appends the frame's units to the pending ones; the write offset is the pending size before and after |
| PacketAssembly.PacketAssembler.Gather | av2/av2_cx_iface.c:3256-3393 | Takes exactly the frames up to the first at which the loop stops, and reports the last of them |
| PacketAssembly.GoesOnIff | av2/av2_cx_iface.c:3256-3276 | The loop takes one more frame exactly when none was shown, there is one, and either half the buffer and the index are left or less than the index is |
| PacketAssembly.SizeLeftWraps | av2/av2_cx_iface.c:3256-3257 | After a hidden frame of 8191 bytes in a buffer of 8192 the loop takes another frame |
| PacketAssembly.PacketAssembler.Send | av2/av2_cx_iface.c:3394-3424 | The packet is exactly the pending bytes, after which nothing is pending |
| PacketAssembly.PacketAssembler.Encode | av2/av2_cx_iface.c:3189-3424 | Per call at most one packet, ending with a shown frame; over any calls, packets followed by pending bytes are the coded frames in order, and the pending bytes are at the start of the buffer |
| PacketAssembly.SplitIsFrames | av2/av2_dx_iface.c:1028-1037 | Frames that are closed, have picture data and do not start with a unit that may follow picture data are split into exactly those frames, empty ones left out, wherever they are packed |
| PacketAssembly.DecodePacket | av2/av2_dx_iface.c:1028-1143 | From a packet the decoder takes the kept frame units of its units and accepts it |
| PacketAssembly.Deliver | av2/av2_cx_iface.c:3189-3424 | One encoder call and the decoder on its packet: what is decoded is exactly the kept ones of the pending frames and the frames of the call, in order, frame by frame, and nothing is decoded or lost when no frame is shown |
| PacketAssembly.NothingDropped | av2/av2_dx_iface.c:1095-1106 | Without random access the decoder keeps every frame unit |
| PacketSession.KeptConcat | av2/av2_dx_iface.c:1095-1106 | What is kept of frame units that come in parts is what is kept of all of them |
| PacketSession.Session | av2/av2_cx_iface.c:3189-3424 | Over any calls: the frame units decoded are exactly the kept ones of the frames sent, in order, and the frames sent, followed by those pending, are those pending at first followed by the frames taken |

## Left out

- BitReaderBuffer.BitReadBuffer.ReadBit: the error handler is assumed to record the error and return; one that jumps away would leave the read earlier.
- SymbolCoding.CountSignedRefSubexpfin: the other counts of avm_dsp/binary_codes_writer.c run the loops of the buffer counts and are not repeated; the symmetric code and its count are easy members.
- RangeEncoder.RangeEncoder.EncodeLiteralBypass: 16 bits at once are excluded at cnt = -1, where the shift made when normalizing is 1 << 31, which is not an int; boolean and unary bypass coding, fractional bit counts and patching of the first bits are not part of this model.
- RangeEncoder.RangeEncoder.Done: growing the output buffer always succeeds; its failure flag is not modelled.
- Cdf.UpdateCdf: the table of adaptation parameters is a formula that agrees with all of its rows.
- SymbolCoding.SymbolWriter.Write4PartWithRef: alphabets of at most 2^15 symbols, so that the size is a uint16_t for recentering.
- VectorVariance.VectorVar: differences beyond 46340, whose square overflows an int, are excluded.
- ScaledConvolve.Convolve8: the filter table is passed directly instead of being found by masking an address; pixels have at most 12 bits; destination rows do not overlap (strides of either sign are modelled).
- FrameUnits.UnitDecoder.CheckFrameUnitData: data for which the scan looks outside memory is excluded, as `HeldIffReadable` says, and so are scanned units of type 26 to 31, whose write leaves the row of the table; the byte after a metadata header is taken to be in memory even where the scan does not look at it.
- FrameUnits.UnitDecoder.Decode: table accesses stay inside the table, for which `StaysInTableIff` is the exact condition; the decoding step succeeds, takes the whole frame unit and does not set the random access flag; the order hint parsing, first-unit decisions and last-unit records around it are not modelled.
- AnnexB.ConvertToAnnexB: the buffer has room for every state on the way, which the code does not check; a last header or size field that goes on behind the frame is excluded, as the code then subtracts below zero.
- PacketAssembly.PacketAssembler.Encode: the compressor's frames are parameters; each frame that the loop takes fits the buffer, which the code leaves to the compressor, and the buffer is not replaced while data is pending. Lookahead stage, timestamps, packet flags and statistics are not modelled.
- Threads, setjmp, allocation failure, debug queues, accounting and data collection are environment or do not affect the properties above.
- The gcd and ratio reduction, satd, block averages, blends and copies would only add easy members.
