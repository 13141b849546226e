/**
 Packet assembly (av2/av2_cx_iface.c, encoder_encode): hidden frames wait in the
 compressed-data buffer and leave it in one packet with the next visible frame.
 */
module PacketAssembly {
  import opened RangeEncoder
  import opened ObuHeaders
  import opened FrameUnits
  import opened AnnexB

  /** What the compressor delivers for one frame: its units and the flags that packet assembly looks at. */
  datatype Frame = Frame(obus: seq<Obu>, immediate: bool, implicit: bool, mlayer: nat, overlay: bool)

  datatype Packet = Packet(isNull: bool, data: seq<Octet>, visFrameSize: nat)

  const MAG_SIZE: nat := 4

  /** A temporal delimiter as written in front of a frame. */
  const DELIMITER := Obu([0], Header(1, false, TEMPORAL_DELIMITER, 0, 0, 0), [], 0, 0)

  /** Units a compressor writes. */
  predicate LegalUnits(obus: seq<Obu>) {
    forall i :: 0 <= i < |obus| ==>
      && Shortest(obus[i]) && obus[i].header.kind < NUM_OBU_TYPES
      && (IsVcl(obus[i].header.kind) ==> obus[i].payload != [])
  }

  /** Without frames written for hidden overlays, an overlay is empty. */
  predicate LegalFrame(f: Frame, addSef: bool) {
    LegalUnits(f.obus) && (f.overlay && !addSef ==> f.obus == [])
  }

  /** The units written for a frame, a temporal delimiter first where one is signalled. */
  function Written(f: Frame, signalTd: bool): seq<Obu> {
    if f.obus == [] then []
    else if signalTd && f.mlayer == 0 && (f.immediate || f.implicit) then [DELIMITER] + f.obus
    else f.obus
  }

  lemma LegalConverts(obus: seq<Obu>)
    requires LegalUnits(obus)
    ensures HeaderFirstStream(obus) && Stream(ConvertedAll(obus))
    ensures OutputBytes(obus) == StreamBytes(ConvertedAll(obus)) && MissingAtEnd(obus) == 0
  {
    hide Headed, Converted, OutputBytes, StreamBytes;
    assert forall i :: 0 <= i < |obus| ==> Shortest(obus[i]);
    forall i | 0 <= i < |obus|
      ensures HeaderFirst(obus[i])
    {
      assert Shortest(obus[i]);
    }
    forall i | 0 <= i < |obus|
      ensures Headed(ConvertedAll(obus)[i])
    {
      assert WellFormed(Converted(obus[i]));
    }
    OutputIsStream(obus);
  }

  lemma DelimiterLegal()
    ensures Shortest(DELIMITER) && HeaderFirstBytes(DELIMITER) == [8, 0]
    ensures ConvertedAll([DELIMITER]) == [Obu([1], DELIMITER.header, [], 0, 0)]
  {}

  lemma WrittenLegal(f: Frame, signalTd: bool, addSef: bool)
    requires LegalFrame(f, addSef)
    ensures LegalUnits(Written(f, signalTd))
  {}

  /** The converted units of a frame. */
  function UnitsOf(f: Frame, signalTd: bool): (units: seq<Obu>)
    requires LegalUnits(f.obus)
  {
    WrittenLegal(f, signalTd, true);
    LegalConverts(Written(f, signalTd));
    ConvertedAll(Written(f, signalTd))
  }

  /**
   A frame's packed units are its own behind a delimiter where one is signalled: for a frame that is output,
   in layer 0.
   */
  lemma UnitsInOrder(f: Frame, signalTd: bool, i: nat)
    requires LegalUnits(f.obus) && i < |f.obus|
    ensures var n := if signalTd && f.mlayer == 0 && (f.immediate || f.implicit) then 1 else 0;
      var units := UnitsOf(f, signalTd);
      && |units| == n + |f.obus|
      && units[n + i].header == f.obus[i].header && units[n + i].payload == f.obus[i].payload
      && (n == 1 ==> Headed(units[0]) && Bytes(units[0]) == [1, 8])
  {
    hide LegalUnits, Headed, Converted, Bytes;
    var written := Written(f, signalTd);
    WrittenLegal(f, signalTd, true);
    LegalConverts(written);
    if signalTd && f.mlayer == 0 && (f.immediate || f.implicit) {
      assert written == [DELIMITER] + f.obus;
      assert written[1 + i] == f.obus[i];
      DelimiterPacked();
    }
  }

  lemma DelimiterPacked()
    ensures HeaderFirst(DELIMITER) && Headed(Converted(DELIMITER)) && Bytes(Converted(DELIMITER)) == [1, 8]
  {
    hide FieldValue, SizeField;
    DelimiterLegal();
    OneByteField(0, []);
    OneByteField(1, []);
  }

  predicate LegalFrames(frames: seq<Frame>, addSef: bool) {
    forall i :: 0 <= i < |frames| ==> LegalFrame(frames[i], addSef)
  }

  /** The converted units of frames in order. */
  function AllUnits(frames: seq<Frame>, signalTd: bool, addSef: bool): seq<Obu>
    requires LegalFrames(frames, addSef)
  {
    if frames == [] then []
    else AllUnits(frames[..|frames| - 1], signalTd, addSef) + UnitsOf(frames[|frames| - 1], signalTd)
  }

  lemma {:induction false} AllUnitsAreStream(frames: seq<Frame>, signalTd: bool, addSef: bool)
    requires LegalFrames(frames, addSef)
    ensures Stream(AllUnits(frames, signalTd, addSef))
  {
    hide LegalFrame, Headed;
    if frames != [] {
      var n := |frames| - 1;
      AllUnitsAreStream(frames[..n], signalTd, addSef);
      UnitsAreStream(frames[n], signalTd, addSef);
    }
  }

  lemma UnitsAreStream(f: Frame, signalTd: bool, addSef: bool)
    requires LegalFrame(f, addSef)
    ensures Stream(UnitsOf(f, signalTd))
  {}

  // ---- One frame into the buffer ----

  /** A frame's bytes at off: as delivered, a delimiter in front if signalled, then size-first. */
  method CodeFrame(buf: array<Octet>, off: nat, f: Frame, signalTd: bool) returns (frameSize: nat)
    requires LegalUnits(f.obus) && f.obus != []
    requires Stream(UnitsOf(f, signalTd)) && off + |StreamBytes(UnitsOf(f, signalTd))| <= buf.Length
    modifies buf
    ensures buf[..][..off] == old(buf[..])[..off]
    ensures frameSize == |StreamBytes(UnitsOf(f, signalTd))|
    ensures buf[..][off..off + frameSize] == StreamBytes(UnitsOf(f, signalTd))
  {
    hide LegalUnits, Stream, StreamBytes, InputBytes, OutputBytes, Put, ConvertedAll, Room, HeaderFirstStream,
         MayFollow, MissingAtEnd;
    ghost var written := Written(f, signalTd);
    WrittenLegal(f, signalTd, true);
    LegalConverts(written);
    LegalConverts(f.obus);
    FrameFits(buf.Length, off, f, signalTd);
    ghost var was := buf[..];
    var raw := InputBytes(f.obus);
    frameSize := |raw|;
    PutSaved(buf, off, raw);
    PutReads(was, off, raw);
    if signalTd && f.mlayer == 0 && (f.immediate || f.implicit) {
      DelimiterBytes(f.obus);
      PutDelimiter(buf, off, frameSize);
      frameSize := frameSize + 2;
    }
    ghost var placed := buf[..];
    var ok;
    ok, frameSize := ConvertToAnnexB(buf, off, frameSize, written, []);
  }

  /** Move a frame and write a delimiter in front of it. */
  method PutDelimiter(buf: array<Octet>, off: nat, frameSize: nat)
    requires off + 2 + frameSize <= buf.Length
    modifies buf
    ensures buf[..][..off] == old(buf[..])[..off]
    ensures buf[..][off..off + 2 + frameSize] == [8, 0] + old(buf[..])[off..off + frameSize]
  {
    hide Put;
    ghost var raw := buf[..][off..off + frameSize];
    ghost var delivered := buf[..];
    MemMove(buf, off + 2, off, frameSize);
    PutReads(delivered, off + 2, raw);
    ghost var moved := buf[..];
    buf[off] := 8;
    UlebOfZero();
    var ok, n := UlebEncode(0, 8, buf, off + 1);
    DelimiterPut(moved, buf[..], off, raw);
  }

  lemma UlebOfZero()
    ensures UlebBytes(0) == [0]
  {}

  lemma PutReads(s: seq<Octet>, at: nat, x: seq<Octet>)
    requires at + |x| <= |s|
    ensures Put(s, at, x)[at..at + |x|] == x && Put(s, at, x)[..at] == s[..at]
  {}

  lemma DelimiterPut(moved: seq<Octet>, now: seq<Octet>, off: nat, raw: seq<Octet>)
    requires off + 2 + |raw| <= |moved| && moved[off + 2..off + 2 + |raw|] == raw
    requires now == Put(moved[off := 8], off + 1, [0])
    ensures now[off..off + 2 + |raw|] == [8, 0] + raw && now[..off] == moved[..off]
  {}

  lemma DelimiterBytes(obus: seq<Obu>)
    requires LegalUnits(obus)
    ensures HeaderFirstStream([DELIMITER] + obus) && HeaderFirstStream(obus)
    ensures InputBytes([DELIMITER] + obus) == [8, 0] + InputBytes(obus)
  {}

  lemma FrameFits(capacity: nat, off: nat, f: Frame, signalTd: bool)
    requires LegalUnits(f.obus) && Stream(UnitsOf(f, signalTd)) && off + |StreamBytes(UnitsOf(f, signalTd))| <= capacity
    ensures HeaderFirstStream(f.obus) && HeaderFirstStream(Written(f, signalTd))
    ensures Room(capacity, off, Written(f, signalTd), []) && off + |InputBytes(Written(f, signalTd))| <= capacity
    ensures off + |InputBytes(f.obus)| <= capacity
    ensures MissingAtEnd(Written(f, signalTd)) == 0 && MayFollow(Written(f, signalTd), [])
  {
    hide Room;
    WrittenLegal(f, signalTd, true);
    LegalConverts(Written(f, signalTd));
    RoomIff(capacity, off, Written(f, signalTd), []);
    LegalConverts(f.obus);
    DelimiterBytes(f.obus);
  }

  // ---- Which frames make a packet ----

  /** A hidden overlay was seen among the frames of this call up to i. */
  predicate NullAt(frames: seq<Frame>, i: nat, addSef: bool) {
    !addSef && exists j :: 0 <= j <= i && j < |frames| && frames[j].overlay
  }

  /** Frame i ends a packet: it is output at once and is not empty, unless as a null packet. */
  predicate ShownAt(frames: seq<Frame>, i: nat, addSef: bool)
    requires i < |frames|
  {
    frames[i].immediate && (NullAt(frames, i, addSef) || frames[i].obus != [])
  }

  /** The units of the first k frames. */
  function UpTo(frames: seq<Frame>, k: nat, signalTd: bool, addSef: bool): seq<Obu>
    requires LegalFrames(frames, addSef) && k <= |frames|
  {
    assert forall i :: 0 <= i < k ==> frames[..k][i] == frames[i];
    AllUnits(frames[..k], signalTd, addSef)
  }

  /** What one more frame adds. */
  lemma UpToMore(frames: seq<Frame>, k: nat, signalTd: bool, addSef: bool)
    requires LegalFrames(frames, addSef) && k < |frames|
    ensures LegalFrame(frames[k], addSef)
    ensures UpTo(frames, k + 1, signalTd, addSef) == UpTo(frames, k, signalTd, addSef) + UnitsOf(frames[k], signalTd)
    ensures Stream(UpTo(frames, k, signalTd, addSef)) && Stream(UpTo(frames, k + 1, signalTd, addSef))
    ensures Stream(UnitsOf(frames[k], signalTd))
    ensures StreamBytes(UpTo(frames, k + 1, signalTd, addSef))
         == StreamBytes(UpTo(frames, k, signalTd, addSef)) + StreamBytes(UnitsOf(frames[k], signalTd))
    ensures frames[k].obus == [] ==> UnitsOf(frames[k], signalTd) == []
    ensures frames[k].obus != [] ==> |StreamBytes(UnitsOf(frames[k], signalTd))| > 0
  {
    hide LegalUnits, Stream, StreamBytes;
    var more := frames[..k + 1];
    assert more[..k] == frames[..k];
    assert forall i :: 0 <= i < k + 1 ==> more[i] == frames[i];
    AllUnitsAreStream(more, signalTd, addSef);
    AllUnitsAreStream(more[..k], signalTd, addSef);
    UnitsAreStream(frames[k], signalTd, addSef);
    StreamConcat(UpTo(frames, k, signalTd, addSef), UnitsOf(frames[k], signalTd));
    if frames[k].obus != [] {
      BytesPositive(UnitsOf(frames[k], signalTd));
    }
  }

  /**
   One frame alone: it ends a packet if it is output at once and has units, or is a hidden overlay,
   which makes a null packet.
   */
  lemma ShownAlone(f: Frame, addSef: bool)
    ensures ShownAt([f], 0, addSef) <==> f.immediate && (f.obus != [] || (f.overlay && !addSef))
    ensures NullAt([f], 0, addSef) <==> f.overlay && !addSef
  {
    assert [f][0] == f;
  }

  /** What a call starts with: the buffer, what is pending in it and the frames that the compressor has. */
  datatype Call = Call(length: nat, pendingSize: nat, pendingFrames: nat, frames: seq<Frame>, signalTd: bool,
                       addSef: bool)

  /** The pending size after k frames. */
  function SizeAt(c: Call, k: nat): (size: nat)
    requires LegalFrames(c.frames, c.addSef) && k <= |c.frames|
  {
    UpToIsStream(c.frames, k, c.signalTd, c.addSef);
    c.pendingSize + |StreamBytes(UpTo(c.frames, k, c.signalTd, c.addSef))|
  }

  lemma UpToIsStream(frames: seq<Frame>, k: nat, signalTd: bool, addSef: bool)
    requires LegalFrames(frames, addSef) && k <= |frames|
    ensures Stream(UpTo(frames, k, signalTd, addSef))
  {
    hide LegalFrame, Stream;
    AllUnitsAreStream(frames[..k], signalTd, addSef);
  }

  function NotEmpty(frames: seq<Frame>, k: nat): (n: nat)
    requires k <= |frames|
  {
    if k == 0 then 0 else NotEmpty(frames, k - 1) + if frames[k - 1].obus == [] then 0 else 1
  }

  /** The size of an index of the pending frames, as the loop knows it after k frames. */
  function IndexAt(c: Call, k: nat): nat
    requires k <= |c.frames|
  {
    var n := NotEmpty(c.frames, k);
    if n == 0 then 0 else MAG_SIZE * (c.pendingFrames + n - 1) + 2
  }

  /** Two bytes, and four for each pending frame but one; nothing before the call has a frame with units. */
  lemma IndexInNumbers(c: Call, k: nat)
    requires k < |c.frames|
    ensures IndexAt(c, 0) == 0
    ensures c.frames[k].obus == [] ==> IndexAt(c, k + 1) == IndexAt(c, k)
    ensures c.frames[k].obus != [] ==>
      IndexAt(c, k + 1) == if IndexAt(c, k) == 0 then 4 * c.pendingFrames + 2 else IndexAt(c, k) + 4
  {}

  /** What is left of the buffer, as an unsigned number of 64 bits. */
  function SizeLeft(length: nat, size: nat, index: nat): int {
    if size + index <= length then length - size - index else length - size - index + 0x1_0000_0000_0000_0000
  }

  /** The loop takes one more frame after k. */
  ghost predicate GoesOn(c: Call, k: nat)
    requires LegalFrames(c.frames, c.addSef) && k <= |c.frames|
  {
    && SizeLeft(c.length, SizeAt(c, k), IndexAt(c, k)) >= c.length / 2
    && !(k > 0 && ShownAt(c.frames, k - 1, c.addSef)) && k < |c.frames|
  }

  /** Frame k is taken, and so are those before it. */
  ghost predicate Taken(c: Call, k: nat)
    requires LegalFrames(c.frames, c.addSef) && k <= |c.frames|
  {
    forall j :: 0 <= j <= k ==> GoesOn(c, j)
  }

  /** The frames that are taken fit the buffer. */
  ghost predicate Space(c: Call)
    requires LegalFrames(c.frames, c.addSef)
  {
    forall k :: 0 <= k < |c.frames| && Taken(c, k) ==> SizeAt(c, k + 1) <= c.length
  }

  /** How many frames the loop has taken when it stops, k of them already. */
  ghost function TakenCount(c: Call, k: nat): (n: nat)
    requires LegalFrames(c.frames, c.addSef) && k <= |c.frames|
    ensures k <= n <= |c.frames|
    decreases |c.frames| - k
  {
    if GoesOn(c, k) then TakenCount(c, k + 1) else k
  }

  lemma {:induction false} TakenCountIs(c: Call, k: nat, n: nat)
    requires LegalFrames(c.frames, c.addSef) && k <= n <= |c.frames| && !GoesOn(c, n)
    requires forall j :: k <= j < n ==> GoesOn(c, j)
    ensures TakenCount(c, k) == n
    decreases n - k
  {
    hide GoesOn, LegalFrame;
    if k < n {
      TakenCountIs(c, k + 1, n);
    }
  }

  /** Too much is pending for another frame. */
  predicate Refuses(c: Call) {
    c.pendingSize != 0 && c.length - c.pendingSize < c.length / 2
  }

  /** The frames that a call takes. */
  ghost function TakenBy(c: Call): seq<Frame>
    requires LegalFrames(c.frames, c.addSef)
  {
    if Refuses(c) then [] else c.frames[..TakenCount(c, 0)]
  }

  /** The call gives a packet. */
  ghost predicate Shows(c: Call)
    requires LegalFrames(c.frames, c.addSef)
  {
    !Refuses(c) && var n := TakenCount(c, 0); n > 0 && ShownAt(c.frames, n - 1, c.addSef)
  }

  /** What the next call starts with. */
  ghost function NextCall(c: Call, frames: seq<Frame>): Call
    requires LegalFrames(c.frames, c.addSef)
  {
    var n := TakenCount(c, 0);
    if Refuses(c) then c.(frames := frames)
    else if Shows(c) then c.(frames := frames, pendingSize := 0, pendingFrames := 0)
    else c.(frames := frames, pendingSize := SizeAt(c, n), pendingFrames := c.pendingFrames + NotEmpty(c.frames, n))
  }

  /** The loop's test of the size left does not stop it when less than the index is left. */
  lemma GoesOnIff(c: Call, k: nat)
    requires LegalFrames(c.frames, c.addSef) && k <= |c.frames| && SizeAt(c, k) <= c.length
    requires c.length < 0x8000_0000_0000_0000 && IndexAt(c, k) < 0x8000_0000_0000_0000
    ensures GoesOn(c, k) <==>
      && (k > 0 ==> !ShownAt(c.frames, k - 1, c.addSef)) && k < |c.frames|
      && (var left := c.length - SizeAt(c, k); left >= IndexAt(c, k) + c.length / 2 || left < IndexAt(c, k))
  {
    hide SizeAt, IndexAt, ShownAt;
  }

  /** A hidden frame of one unit. */
  function Hidden(payload: seq<Octet>): Frame {
    Frame([Obu(UlebBytes(|payload|), Header(1, false, REGULAR_TILE_GROUP, 0, 0, 0), payload, 0, 0)],
          false, false, 0, false)
  }

  lemma HiddenIs(payload: seq<Octet>, signalTd: bool, addSef: bool)
    requires |payload| == 8188
    ensures var f := Hidden(payload);
      LegalFrame(f, addSef) && Stream(UnitsOf(f, signalTd)) && |StreamBytes(UnitsOf(f, signalTd))| == 8191
  {
    hide UlebBytes, SizeField, FieldValue;
    UlebRoundTrip(8188);
    UlebRoundTrip(8189);
    TwoBytes(8189);
    var f := Hidden(payload);
    UnitsAreStream(f, signalTd, addSef);
    OneUnit(UnitsOf(f, signalTd)[0]);
    assert UnitsOf(f, signalTd) == [UnitsOf(f, signalTd)[0]];
  }

  lemma TwoBytes(v: nat)
    requires 128 <= v < 128 * 128
    ensures |UlebBytes(v)| == 2
  {}

  /** It does not: after a hidden frame of 8191 bytes, one byte of 8192 is left, and another frame is taken. */
  lemma SizeLeftWraps(payload: seq<Octet>, g: Frame, signalTd: bool, addSef: bool)
    requires |payload| == 8188 && LegalFrame(g, addSef)
    ensures var c := Call(8192, 0, 0, [Hidden(payload), g], signalTd, addSef);
      LegalFrames(c.frames, addSef) && GoesOn(c, 0) && GoesOn(c, 1) && SizeAt(c, 1) == 8191 && IndexAt(c, 1) == 2
    ensures SizeLeft(8192, 8191, 2) == 0xFFFF_FFFF_FFFF_FFFF
  {
    hide LegalUnits, StreamBytes, UnitsOf;
    var c := Call(8192, 0, 0, [Hidden(payload), g], signalTd, addSef);
    HiddenIs(payload, signalTd, addSef);
    NoFrames(c, [], []);
    UpToMore(c.frames, 0, signalTd, addSef);
  }

  lemma UnitsBytes(f: Frame, signalTd: bool, addSef: bool)
    requires LegalFrame(f, addSef)
    ensures Stream(UnitsOf(f, signalTd))
    ensures if f.obus == [] then UnitsOf(f, signalTd) == [] && StreamBytes(UnitsOf(f, signalTd)) == []
      else |StreamBytes(UnitsOf(f, signalTd))| > 0
  {}

  /** The pending bytes with a frame's bytes behind them. */
  lemma PendingMore(before: seq<Octet>, now: seq<Octet>, size: nat, held: seq<Obu>, units: seq<Obu>)
    requires Stream(held) && Stream(units) && size == |StreamBytes(held)| && |now| == |before|
    requires size + |StreamBytes(units)| <= |now| && before[..size] == StreamBytes(held) == now[..size]
    requires now[size..size + |StreamBytes(units)|] == StreamBytes(units)
    ensures Stream(held + units) && StreamBytes(held + units) == StreamBytes(held) + StreamBytes(units)
    ensures now[..size + |StreamBytes(units)|] == StreamBytes(held + units)
  {
    hide StreamBytes, Headed;
    StreamConcat(held, units);
  }

  lemma PendingMoreUnits(sent: seq<Obu>, held: seq<Obu>, units: seq<Obu>)
    ensures sent + held + units == sent + (held + units)
  {}

  class PacketAssembler {
    const cxData: array<Octet>
    const signalTd: bool
    const addSef: bool

    /** Offset of the pending data in the buffer, -1 if there is none. */
    var pendingData: int
    var pendingSize: nat
    var pendingFrames: nat

    /** The packets of the last call. */
    var packets: seq<Packet>

    /** All units coded so far, those sent in packets, those pending, and all packets' bytes. */
    ghost var coded: seq<Obu>
    ghost var sent: seq<Obu>
    ghost var held: seq<Obu>
    ghost var sentBytes: seq<Octet>

    /**
     Nothing is lost, duplicated or reordered: what was sent and what is pending is
     what was coded, and the pending bytes are at the start of the buffer.
     */
    ghost predicate Valid()
      reads this, cxData
    {
      && coded == sent + held && Stream(sent) && Stream(held)
      && sentBytes == StreamBytes(sent)
      && pendingSize == |StreamBytes(held)| <= cxData.Length && cxData[..][..pendingSize] == StreamBytes(held)
      && pendingData == (if pendingSize == 0 then -1 else 0)
    }

    constructor (size: nat, signalTd: bool, addSef: bool)
      ensures Valid() && coded == [] && sentBytes == [] && held == [] && pendingFrames == 0
      ensures cxData.Length == size && this.signalTd == signalTd && this.addSef == addSef && fresh(cxData)
    {
      cxData := new Octet[size];
      this.signalTd := signalTd;
      this.addSef := addSef;
      pendingData := -1;
      pendingSize := 0;
      pendingFrames := 0;
      packets := [];
      coded := [];
      sent := [];
      held := [];
      sentBytes := [];
    }

    /** A frame that the compressor delivered goes behind the pending ones. */
    method Take(f: Frame) returns (frameSize: nat)
      requires Valid() && LegalFrame(f, addSef) && Stream(UnitsOf(f, signalTd))
      requires pendingSize + |StreamBytes(UnitsOf(f, signalTd))| <= cxData.Length
      modifies this`pendingData, this`pendingSize, this`pendingFrames, this`coded, this`held, cxData
      ensures Valid() && frameSize == |StreamBytes(UnitsOf(f, signalTd))|
      ensures coded == old(coded) + UnitsOf(f, signalTd) && held == old(held) + UnitsOf(f, signalTd)
      ensures pendingFrames == old(pendingFrames) + (if f.obus == [] then 0 else 1)
      ensures pendingSize == old(pendingSize) + frameSize
    {
      hide LegalUnits, Stream, StreamBytes, UnitsOf;
      ghost var units := UnitsOf(f, signalTd);
      UnitsBytes(f, signalTd, addSef);
      if f.obus == [] {
        assert held + units == held && coded + units == coded;
        return 0;
      }
      ghost var before := cxData[..];
      frameSize := CodeFrame(cxData, pendingSize, f, signalTd);
      if pendingData == -1 {
        pendingData := pendingSize;
      }
      PendingMore(before, cxData[..], pendingSize, held, units);
      PendingMoreUnits(sent, held, units);
      pendingFrames := pendingFrames + 1;
      pendingSize := pendingSize + frameSize;
      coded := coded + units;
      held := held + units;
    }

    /** What a call starts with. */
    ghost function CallWith(frames: seq<Frame>): (c: Call)
      reads this
      ensures c.frames == frames && c.addSef == addSef
    {
      Call(cxData.Length, pendingSize, pendingFrames, frames, signalTd, addSef)
    }

    /** Frames are taken until one is shown, the compressor has no more or less than half of the buffer is left. */
    method Gather(frames: seq<Frame>) returns (consumed: nat, visible: bool, isNull: bool, frameSize: nat)
      requires Valid() && LegalFrames(frames, addSef) && Space(CallWith(frames))
      modifies this`pendingData, this`pendingSize, this`pendingFrames, this`coded, this`held, cxData
      ensures Valid() && consumed <= |frames|
      ensures forall k :: 0 <= k < consumed ==> GoesOn(old(CallWith(frames)), k)
      ensures !GoesOn(old(CallWith(frames)), consumed)
      ensures held == old(held) + UpTo(frames, consumed, signalTd, addSef)
      ensures coded == old(coded) + UpTo(frames, consumed, signalTd, addSef)
      ensures pendingFrames == old(pendingFrames) + NotEmpty(frames, consumed)
      ensures pendingSize == SizeAt(old(CallWith(frames)), consumed)
      ensures visible == (consumed > 0 && ShownAt(frames, consumed - 1, addSef))
      ensures isNull == (consumed > 0 && NullAt(frames, consumed - 1, addSef))
      ensures consumed > 0 ==> Stream(UnitsOf(frames[consumed - 1], signalTd))
                               && frameSize == |StreamBytes(UnitsOf(frames[consumed - 1], signalTd))|
    {
      hide LegalUnits, Stream, StreamBytes, UnitsOf, NullAt, UpTo, AllUnits, SizeAt, Space;
      ghost var heldBefore, codedBefore, c := held, coded, CallWith(frames);
      NoFrames(c, held, coded);
      var index := 0;
      consumed, visible, isNull, frameSize := 0, false, false, 0;
      while SizeLeft(cxData.Length, pendingSize, index) >= cxData.Length / 2 && !visible && consumed < |frames|
        invariant Valid() && consumed <= |frames|
        invariant held == heldBefore + UpTo(frames, consumed, signalTd, addSef)
        invariant coded == codedBefore + UpTo(frames, consumed, signalTd, addSef)
        invariant isNull == (consumed > 0 && NullAt(frames, consumed - 1, addSef))
        invariant visible == (consumed > 0 && ShownAt(frames, consumed - 1, addSef))
        invariant forall k :: 0 <= k < consumed ==> GoesOn(c, k)
        invariant consumed > 0 ==> Stream(UnitsOf(frames[consumed - 1], signalTd))
                                   && frameSize == |StreamBytes(UnitsOf(frames[consumed - 1], signalTd))|
        invariant index == IndexAt(c, consumed) && pendingSize == SizeAt(c, consumed)
        invariant pendingFrames == c.pendingFrames + NotEmpty(frames, consumed)
        decreases |frames| - consumed
      {
        var f := frames[consumed];
        NextFits(c, consumed);
        UpToMore(frames, consumed, signalTd, addSef);
        PendingMoreUnits(heldBefore, UpTo(frames, consumed, signalTd, addSef), UnitsOf(f, signalTd));
        PendingMoreUnits(codedBefore, UpTo(frames, consumed, signalTd, addSef), UnitsOf(f, signalTd));
        visible := f.immediate;
        if f.overlay {
          isNull := !addSef;
        }
        NullStep(frames, consumed, addSef);
        if !isNull && f.obus == [] {
          visible := false;
        }
        frameSize := Take(f);
        if f.obus != [] {
          index := MAG_SIZE * (pendingFrames - 1) + 2;
        }
        consumed := consumed + 1;
      }
    }

    /** What is pending becomes a packet. */
    method Send(isNull: bool, frameSize: nat)
      requires Valid()
      modifies this
      ensures Valid() && held == [] && coded == old(coded) && pendingFrames == 0
      ensures Stream(old(held)) && packets == [Packet(isNull, StreamBytes(old(held)), frameSize)]
      ensures sentBytes == old(sentBytes) + packets[0].data
    {
      hide Stream, StreamBytes;
      var data := if pendingData == -1 then [] else cxData[pendingData..pendingData + pendingSize];
      packets := [Packet(isNull, data, frameSize)];
      SendMore(sent, held);
      sent := sent + held;
      sentBytes := sentBytes + data;
      held := [];
      pendingData := -1;
      pendingSize := 0;
      pendingFrames := 0;
    }

    /** The part of encoder_encode from the pending frames on; frames are what the compressor has for this call. */
    method Encode(frames: seq<Frame>) returns (ok: bool, consumed: nat)
      requires Valid() && LegalFrames(frames, addSef) && Space(CallWith(frames))
      modifies this, cxData
      ensures Valid() && consumed <= |frames|
      ensures ok == (old(pendingSize) == 0 || cxData.Length - old(pendingSize) >= cxData.Length / 2)
      ensures !ok ==> coded == old(coded) && held == old(held) && pendingFrames == old(pendingFrames) && packets == []
      ensures ok ==>
        && (forall k :: 0 <= k < consumed ==> GoesOn(old(CallWith(frames)), k))
        && !GoesOn(old(CallWith(frames)), consumed)
        && coded == old(coded) + UpTo(frames, consumed, signalTd, addSef)
      ensures ok && consumed > 0 && ShownAt(frames, consumed - 1, addSef) ==>
        && held == [] && pendingFrames == 0
        && Stream(old(held) + UpTo(frames, consumed, signalTd, addSef))
        && Stream(UnitsOf(frames[consumed - 1], signalTd))
        && packets == [Packet(NullAt(frames, consumed - 1, addSef),
                              StreamBytes(old(held) + UpTo(frames, consumed, signalTd, addSef)),
                              |StreamBytes(UnitsOf(frames[consumed - 1], signalTd))|)]
      ensures ok && !(consumed > 0 && ShownAt(frames, consumed - 1, addSef)) ==>
        && packets == [] && held == old(held) + UpTo(frames, consumed, signalTd, addSef)
        && pendingFrames == old(pendingFrames) + NotEmpty(frames, consumed)
        && pendingSize == SizeAt(old(CallWith(frames)), consumed)
      ensures sentBytes == old(sentBytes) + if packets == [] then [] else packets[0].data
    {
      hide LegalUnits, Stream, StreamBytes, UnitsOf, NullAt, UpTo, AllUnits, ShownAt, Space, GoesOn, SizeAt;
      packets := [];
      if pendingData != -1 {
        MemMove(cxData, 0, pendingData, pendingSize);
        pendingData := 0;
        if cxData.Length - pendingSize < cxData.Length / 2 {
          return false, 0;
        }
      }
      var visible, isNull, frameSize;
      consumed, visible, isNull, frameSize := Gather(frames);
      if visible {
        Send(isNull, frameSize);
      }
      ok := true;
    }
  }

  lemma NoFrames(c: Call, held: seq<Obu>, coded: seq<Obu>)
    requires LegalFrames(c.frames, c.addSef)
    ensures var none := UpTo(c.frames, 0, c.signalTd, c.addSef); held + none == held && coded + none == coded
    ensures SizeAt(c, 0) == c.pendingSize && IndexAt(c, 0) == 0
  {
    UpToIsStream(c.frames, 0, c.signalTd, c.addSef);
  }

  lemma NullStep(frames: seq<Frame>, i: nat, addSef: bool)
    requires i < |frames|
    ensures NullAt(frames, i, addSef)
      <==> if frames[i].overlay then !addSef else i > 0 && NullAt(frames, i - 1, addSef)
  {}

  lemma SendMore(sent: seq<Obu>, held: seq<Obu>)
    requires Stream(sent) && Stream(held)
    ensures Stream(sent + held) && StreamBytes(sent + held) == StreamBytes(sent) + StreamBytes(held)
    ensures sent + held + [] == sent + held && Stream([]) && StreamBytes([]) == []
  {
    hide Headed;
    StreamConcat(sent, held);
  }

  lemma NextFits(c: Call, k: nat)
    requires LegalFrames(c.frames, c.addSef) && Space(c) && k < |c.frames| && Taken(c, k)
    ensures LegalFrame(c.frames[k], c.addSef) && Stream(UnitsOf(c.frames[k], c.signalTd))
    ensures SizeAt(c, k + 1) == SizeAt(c, k) + |StreamBytes(UnitsOf(c.frames[k], c.signalTd))| <= c.length
  {
    hide LegalUnits, Stream, StreamBytes, GoesOn, UpTo;
    UpToMore(c.frames, k, c.signalTd, c.addSef);
  }

  // ---- From the compressor's frames to the decoder's frame units ----

  /** Units as they are packed: whole, of known types, and with payload if they are picture data. */
  predicate Packable(obus: seq<Obu>) {
    KnownKinds(obus) && forall i :: 0 <= i < |obus| ==> WellFormed(obus[i]) && (Vcl(obus[i]) ==> obus[i].payload != [])
  }

  /** A frame unit that is told apart from whatever is before and after it. */
  predicate Separate(unit: seq<Obu>) {
    unit != [] && Closed(unit) && HasVcl(unit) && !Follows(unit[0])
  }

  predicate SeparateFrames(frames: seq<Frame>, signalTd: bool, addSef: bool)
    requires LegalFrames(frames, addSef)
  {
    forall i :: 0 <= i < |frames| && frames[i].obus != [] ==> Separate(UnitsOf(frames[i], signalTd))
  }

  /** The frames that are not empty, as frame units. */
  function FrameUnitsOf(frames: seq<Frame>, signalTd: bool, addSef: bool): seq<seq<Obu>>
    requires LegalFrames(frames, addSef)
  {
    if frames == [] then []
    else
      var n := |frames| - 1;
      FrameUnitsOf(frames[..n], signalTd, addSef)
      + if frames[n].obus == [] then [] else [UnitsOf(frames[n], signalTd)]
  }

  /** Units behind which a new frame unit can start. */
  predicate Ended(obus: seq<Obu>) {
    obus == [] || (Split(obus) != [] && HasVcl(Split(obus)[|Split(obus)| - 1]))
  }

  /** Frames packed behind one another are split into those frames. */
  lemma {:induction false} SplitIsFrames(held: seq<Obu>, frames: seq<Frame>, signalTd: bool, addSef: bool)
    requires LegalFrames(frames, addSef) && SeparateFrames(frames, signalTd, addSef) && Ended(held)
    ensures var all := held + AllUnits(frames, signalTd, addSef);
      Split(all) == Split(held) + FrameUnitsOf(frames, signalTd, addSef) && Ended(all)
    decreases |frames|
  {
    hide LegalUnits, Split, HasVcl, Separate, UnitsOf, Ended;
    if frames == [] {
      assert held + [] == held;
    } else {
      var n := |frames| - 1;
      var f := frames[n];
      SplitIsFrames(held, frames[..n], signalTd, addSef);
      var before := held + AllUnits(frames[..n], signalTd, addSef);
      var units := UnitsOf(f, signalTd);
      assert held + AllUnits(frames, signalTd, addSef) == before + units;
      if f.obus == [] {
        UnitsBytes(f, signalTd, addSef);
        assert before + units == before;
      } else {
        OneFrameMore(before, units);
      }
    }
  }

  lemma OneFrameMore(before: seq<Obu>, unit: seq<Obu>)
    requires Ended(before) && Separate(unit)
    ensures Split(before + unit) == Split(before) + [unit] && Ended(before + unit)
  {
    hide Split, Closed, HasVcl, Follows;
    NothingToSplit();
    SplitAgain(unit);
    SplitInParts(before, unit);
  }

  lemma UnitsArePackable(f: Frame, signalTd: bool, addSef: bool)
    requires LegalFrame(f, addSef)
    ensures Packable(UnitsOf(f, signalTd))
  {
    hide Headed;
    var written := Written(f, signalTd);
    WrittenLegal(f, signalTd, addSef);
    LegalConverts(written);
    forall i | 0 <= i < |written|
      ensures WellFormed(UnitsOf(f, signalTd)[i]) && UnitsOf(f, signalTd)[i].header == written[i].header
      ensures UnitsOf(f, signalTd)[i].payload == written[i].payload
    {
      assert WellFormed(Converted(written[i]));
    }
  }

  lemma {:induction false} FramesArePackable(frames: seq<Frame>, signalTd: bool, addSef: bool)
    requires LegalFrames(frames, addSef)
    ensures Packable(AllUnits(frames, signalTd, addSef))
  {
    hide LegalFrame, WellFormed, Vcl, UnitsOf;
    if frames != [] {
      var n := |frames| - 1;
      FramesArePackable(frames[..n], signalTd, addSef);
      UnitsArePackable(frames[n], signalTd, addSef);
    }
  }

  /** A packet is memory that the decoder accepts and stays inside its table for. */
  lemma PacketIsReadable(packet: seq<Octet>, units: seq<Obu>)
    requires Packable(units) && Ended(units) && Stream(units) && packet == StreamBytes(units)
    ensures Holds(packet, 0, |packet|, units, Fine) && StaysInTable(units, false)
  {
    hide HoldsUnits, Split, HasVcl, WellFormed, Headed, StreamBytes, EndsWith;
    StaysInTableIff(units, false);
    PackedAreHeld(packet, units);
    PackedEndFine(packet, units);
  }

  lemma PackedEndFine(packet: seq<Octet>, units: seq<Obu>)
    requires Packable(units) && Stream(units) && |packet| == |StreamBytes(units)|
    ensures EndsWith(packet, 0, |packet|, units, Fine)
  {
    hide WellFormed, Headed, StreamBytes, HeaderLength, LastUnit;
    NoPicture();
    if units != [] {
      LastIsWhole(units);
    }
  }

  lemma PackedAreHeld(packet: seq<Octet>, units: seq<Obu>)
    requires Packable(units) && Stream(units) && packet == StreamBytes(units)
    ensures HoldsUnits(packet, 0, |packet|, units, false)
  {
    hide StreamBytes, WellFormed, Headed, FirstBytes, InPlace;
    assert packet[0..|packet|] == packet;
    forall i | 0 <= i < |units|
      ensures InPlace(packet, |FirstBytes(units, i)|, units[i])
    {
      PackedInPlace(packet, units, i);
    }
  }

  lemma PackedInPlace(packet: seq<Octet>, units: seq<Obu>, i: nat)
    requires Packable(units) && Stream(units) && packet == StreamBytes(units) && i < |units|
    ensures InPlace(packet, |FirstBytes(units, i)|, units[i])
  {
    hide StreamBytes, FieldValue, Stream, HeaderBytes, SizeField;
    StreamAt(units, i);
    var before, o := StreamBytes(units[..i]), units[i];
    assert WellFormed(o) && Bytes(o) == MemoryBytes(o);
    PartInMemory(packet, 0, before, Bytes(o), StreamBytes(units[i + 1..]));
  }

  /** The last header of whole units is read by the scan of its frame unit. */
  lemma LastIsWhole(units: seq<Obu>)
    requires Stream(units) && units != [] && WellFormed(units[|units| - 1])
    ensures var unit := LastUnit(units);
      unit != [] && Stream(unit) && HeaderLength(unit[|unit| - 1]) <= |StreamBytes(unit)|
  {
    hide Headed, StreamBytes, LastUnit;
    LastUnitBound(units);
    var unit := LastUnit(units);
    var n := |unit| - 1;
    StreamAt(unit, n);
    assert unit[..n + 1] == unit;
    AnnouncesAll(unit[n]);
  }

  /** What the decoder makes of a packet. */
  method DecodePacket(packet: seq<Octet>, decoder: UnitDecoder, ghost units: seq<Obu>) returns (ok: bool)
    requires decoder.present.Length0 == 4 && decoder.present.Length1 == 8 && decoder.present.Length2 == NUM_OBU_TYPES
    requires Packable(units) && Ended(units) && Stream(units) && packet == StreamBytes(units)
    modifies decoder, decoder.present
    ensures ok && decoder.decoded == old(decoder.decoded) + UnitBytes(Kept(old(decoder.randomAccessed), Split(units)))
    ensures decoder.randomAccessed == AccessAtEnd(old(decoder.randomAccessed), Split(units))
  {
    hide Packable, Holds, StaysInTable, StreamBytes, Stream, Kept, Split, UnitBytes;
    var data := new Octet[|packet|](i requires 0 <= i < |packet| => packet[i]);
    assert data[..] == packet;
    PacketIsReadable(packet, units);
    CompleteIs(units, false);
    ok := decoder.Decode(data, 0, |packet|, units, Fine);
  }

  /**
   One call of the encoder and, if it gives a packet, one of the decoder: the decoder
   takes exactly the pending frames and those of the call, in order, frame by frame.
   */
  method Deliver(assembler: PacketAssembler, decoder: UnitDecoder, frames: seq<Frame>) returns (accepted: bool)
    requires assembler.Valid() && LegalFrames(frames, assembler.addSef) && Space(assembler.CallWith(frames))
    requires SeparateFrames(frames, assembler.signalTd, assembler.addSef)
    requires Packable(assembler.held) && Ended(assembler.held)
    requires decoder.present.Length0 == 4 && decoder.present.Length1 == 8 && decoder.present.Length2 == NUM_OBU_TYPES
    modifies assembler, assembler.cxData, decoder, decoder.present
    ensures assembler.Valid() && Packable(assembler.held) && Ended(assembler.held) && accepted
    ensures assembler.CallWith([]) == NextCall(old(assembler.CallWith(frames)), [])
    ensures var c := old(assembler.CallWith(frames));
      && LegalFrames(TakenBy(c), assembler.addSef)
      && var now := FrameUnitsOf(TakenBy(c), assembler.signalTd, assembler.addSef);
         var all, access := Split(old(assembler.held)) + now, old(decoder.randomAccessed);
         if Shows(c) then
           && assembler.held == []
           && decoder.decoded == old(decoder.decoded) + UnitBytes(Kept(access, all))
           && decoder.randomAccessed == AccessAtEnd(access, all)
         else
           && Split(assembler.held) == all
           && decoder.decoded == old(decoder.decoded) && decoder.randomAccessed == access
  {
    hide LegalFrame, Packable, Stream, StreamBytes, Split, Kept, UnitBytes, HasVcl, UnitsOf, AllUnits, FrameUnitsOf,
         Space, Separate, AccessAtEnd, SizeAt, GoesOn, TakenCount;
    accepted := true;
    ghost var held, c := assembler.held, assembler.CallWith(frames);
    var ok, consumed := assembler.Encode(frames);
    if ok {
      TakenCountIs(c, 0, consumed);
      ghost var taken := frames[..consumed];
      ghost var units := held + AllUnits(taken, assembler.signalTd, assembler.addSef);
      SplitIsFrames(held, taken, assembler.signalTd, assembler.addSef);
      FramesArePackable(taken, assembler.signalTd, assembler.addSef);
      PackableMore(held, AllUnits(taken, assembler.signalTd, assembler.addSef));
      if assembler.packets != [] {
        NothingPending();
        accepted := DecodePacket(assembler.packets[0].data, decoder, units);
      }
    } else {
      NothingTaken(Split(held), assembler.signalTd, assembler.addSef);
    }
  }

  lemma NothingTaken(units: seq<seq<Obu>>, signalTd: bool, addSef: bool)
    ensures units + FrameUnitsOf([], signalTd, addSef) == units
  {}

  lemma PackableMore(a: seq<Obu>, b: seq<Obu>)
    requires Packable(a) && Packable(b)
    ensures Packable(a + b)
  {
    hide WellFormed, Vcl;
  }

  lemma NothingPending()
    ensures Packable([]) && Ended([]) && Stream([]) && StreamBytes([]) == []
  {}

  /** Without random access the decoder drops nothing. */
  lemma {:induction false} NothingDropped(units: seq<seq<Obu>>)
    ensures Kept(false, units) == units && !AccessAtEnd(false, units)
  {
    hide IsLeading, HasKey, Carries;
    if units != [] {
      NothingDropped(units[1..]);
    }
  }
}
