/**
 Frame units (av2/av2_dx_iface.c): how the decoder splits its input into frame
 units and which of them it drops after random access.
 */
module FrameUnits {
  import opened RangeEncoder
  import opened ObuHeaders

  const NUM_OBU_TYPES: nat := 26

  const SEQUENCE_HEADER: nat := 1
  const TEMPORAL_DELIMITER: nat := 2
  const MULTI_FRAME_HEADER: nat := 3
  const CLK: nat := 4
  const OLK: nat := 5
  const LEADING_TILE_GROUP: nat := 6
  const REGULAR_TILE_GROUP: nat := 7
  const METADATA_SHORT: nat := 8
  const METADATA_GROUP: nat := 9
  const SWITCH: nat := 10
  const LEADING_SEF: nat := 11
  const REGULAR_SEF: nat := 12
  const LEADING_TIP: nat := 13
  const REGULAR_TIP: nat := 14
  const LAYER_CONFIGURATION_RECORD: nat := 16
  const ATLAS_SEGMENT: nat := 17
  const OPERATING_POINT_SET: nat := 18
  const BRIDGE_FRAME: nat := 19
  const RAS_FRAME: nat := 21
  const PADDING: nat := 25

  const MAX_NUM_TLAYERS: nat := 4
  const MAX_NUM_MLAYERS: nat := 8

  // ---- Kinds of units (av2/common/obu_util.h) ----

  predicate IsSingleTileVcl(kind: nat) {
    kind == REGULAR_SEF || kind == LEADING_SEF || kind == REGULAR_TIP || kind == LEADING_TIP || kind == BRIDGE_FRAME
  }

  predicate IsMultiTileVcl(kind: nat) {
    || kind == REGULAR_TILE_GROUP || kind == LEADING_TILE_GROUP || kind == SWITCH
    || kind == RAS_FRAME || kind == CLK || kind == OLK
  }

  predicate IsVcl(kind: nat) {
    IsSingleTileVcl(kind) || IsMultiTileVcl(kind)
  }

  predicate IsTuHead(kind: nat, xlayer: nat) {
    || kind == SEQUENCE_HEADER || kind == TEMPORAL_DELIMITER || kind == LAYER_CONFIGURATION_RECORD
    || kind == ATLAS_SEGMENT || kind == OPERATING_POINT_SET
    || (kind == METADATA_SHORT && xlayer == GLOBAL_XLAYER)
    || (kind == METADATA_GROUP && xlayer == GLOBAL_XLAYER)
    || kind == OBU_MSDO
  }

  // ---- Streams ----

  predicate Stream(obus: seq<Obu>) {
    forall i :: 0 <= i < |obus| ==> Headed(obus[i])
  }

  function StreamBytes(obus: seq<Obu>): seq<Octet>
    requires Stream(obus)
  {
    if obus == [] then [] else Bytes(obus[0]) + StreamBytes(obus[1..])
  }

  /** The bytes of the first n units. */
  function FirstBytes(obus: seq<Obu>, n: nat): seq<Octet>
    requires Stream(obus) && n <= |obus|
  {
    assert forall i :: 0 <= i < n ==> obus[..n][i] == obus[i];
    StreamBytes(obus[..n])
  }

  predicate Vcl(o: Obu) {
    IsVcl(o.header.kind)
  }

  predicate Metadata(o: Obu) {
    o.header.kind == METADATA_SHORT || o.header.kind == METADATA_GROUP
  }

  /** The byte after the header, be it the payload's or what follows in memory. */
  function ByteAfterHeader(o: Obu): Octet {
    if o.payload == [] then o.next else o.payload[0]
  }

  /** The scan looks at that byte, whether or not there is any payload of picture data. */
  predicate Looks(o: Obu) {
    Vcl(o) || (Metadata(o) && Announced(o) > 0)
  }

  /** The first of a frame's units with picture data. */
  predicate FirstVcl(o: Obu)
  {
    Vcl(o) && (IsSingleTileVcl(o.header.kind) || ByteAfterHeader(o) >= 128)
  }

  predicate SuffixMetadata(o: Obu) {
    Metadata(o) && Announced(o) > 0 && ByteAfterHeader(o) >= 128
  }

  /** What may come after picture data in the same frame unit. */
  predicate Follows(o: Obu) {
    if Vcl(o) then !FirstVcl(o) else o.header.kind == PADDING || SuffixMetadata(o)
  }

  predicate HasVcl(obus: seq<Obu>) {
    exists i :: 0 <= i < |obus| && Vcl(obus[i])
  }

  /** After its first picture data, only units that may follow. */
  predicate Closed(unit: seq<Obu>) {
    forall i, j :: 0 <= i < j < |unit| && Vcl(unit[i]) ==> Follows(unit[j])
  }

  /** The first n units are a frame unit: closed, and not extensible. */
  predicate IsFrameUnit(obus: seq<Obu>, n: nat) {
    && 0 < n <= |obus| && Closed(obus[..n])
    && (n < |obus| ==> HasVcl(obus[..n]) && !Follows(obus[n]))
  }

  /** There is one way to take a frame unit off a stream. */
  lemma FrameUnitUnique(obus: seq<Obu>, m: nat, n: nat)
    requires IsFrameUnit(obus, m) && IsFrameUnit(obus, n)
    ensures m == n
  {}

  /** The length of the frame unit at the start of obus, i units of which have been taken. */
  function UnitLength(obus: seq<Obu>, i: nat, vclSeen: bool): (n: nat)
    requires i <= |obus|
    ensures i <= n <= |obus|
    decreases |obus| - i
  {
    if i == |obus| || (vclSeen && !Follows(obus[i])) then i
    else UnitLength(obus, i + 1, vclSeen || Vcl(obus[i]))
  }

  lemma {:induction false} UnitLengthIs(obus: seq<Obu>, i: nat, vclSeen: bool)
    requires i <= |obus| && obus != [] && Closed(obus[..i]) && vclSeen == HasVcl(obus[..i])
    ensures IsFrameUnit(obus, UnitLength(obus, i, vclSeen))
    decreases |obus| - i
  {
    hide Vcl, Follows;
    if i == |obus| {
      assert obus[..i] == obus;
    } else if vclSeen && !Follows(obus[i]) {
      var k :| 0 <= k < i && Vcl(obus[..i][k]);
    } else {
      var more := obus[..i + 1];
      assert more[..i] == obus[..i] && more[i] == obus[i];
      if vclSeen {
        var k :| 0 <= k < i && Vcl(obus[..i][k]);
        assert Vcl(more[k]);
      }
      forall a, b | 0 <= a < b < i + 1 && Vcl(more[a])
        ensures Follows(more[b])
      {
        assert Vcl(obus[..i][a]);
        if b < i {
          assert Follows(obus[..i][b]);
        }
      }
      assert HasVcl(more) <==> vclSeen || Vcl(obus[i]) by {
        if HasVcl(more) {
          var k :| 0 <= k < i + 1 && Vcl(more[k]);
          if k < i {
            assert Vcl(obus[..i][k]);
          }
        }
      }
      UnitLengthIs(obus, i + 1, vclSeen || Vcl(obus[i]));
    }
  }

  lemma UnitTaken(obus: seq<Obu>)
    requires obus != []
    ensures IsFrameUnit(obus, UnitLength(obus, 0, false))
  {
    UnitLengthIs(obus, 0, false);
  }

  /** A stream as its frame units. */
  function Split(obus: seq<Obu>): (units: seq<seq<Obu>>)
    decreases |obus|
  {
    if obus == [] then []
    else
      UnitTaken(obus);
      var n := UnitLength(obus, 0, false);
      [obus[..n]] + Split(obus[n..])
  }

  function Joined(units: seq<seq<Obu>>): seq<Obu> {
    if units == [] then [] else units[0] + Joined(units[1..])
  }

  /** Splitting loses and reorders nothing, and every frame unit is closed; all but the last have picture data. */
  lemma {:induction false} SplitJoins(obus: seq<Obu>)
    ensures Joined(Split(obus)) == obus
    ensures forall i :: 0 <= i < |Split(obus)| ==> Split(obus)[i] != [] && Closed(Split(obus)[i])
    ensures forall i :: 0 <= i < |Split(obus)| - 1 ==> HasVcl(Split(obus)[i])
    decreases |obus|
  {
    hide Vcl, Follows, UnitLength, Closed, HasVcl;
    if obus != [] {
      var n := UnitLength(obus, 0, false);
      UnitTaken(obus);
      SplitJoins(obus[n..]);
      assert obus[..n] + obus[n..] == obus;
      assert Split(obus) == [obus[..n]] + Split(obus[n..]);
      if n == |obus| {
        assert obus[n..] == [];
      }
    }
  }

  /** A frame unit holds at most one start of a frame, and no picture data before it. */
  lemma OneFrameEach(unit: seq<Obu>, i: nat, j: nat)
    requires Closed(unit) && i < |unit| && j < |unit| && FirstVcl(unit[i]) && Vcl(unit[j])
    ensures i <= j
    ensures FirstVcl(unit[j]) ==> i == j
  {}

  /** A frame unit split again is one frame unit. */
  lemma SplitAgain(unit: seq<Obu>)
    requires unit != [] && Closed(unit)
    ensures Split(unit) == [unit]
  {
    UnitTaken(unit);
    assert unit[..|unit|] == unit;
    FrameUnitUnique(unit, |unit|, UnitLength(unit, 0, false));
    assert unit[|unit|..] == [];
  }

  /** Where a stream is cut before a unit that cannot follow picture data, the parts can be split on their own. */
  lemma {:induction false} SplitInParts(a: seq<Obu>, b: seq<Obu>)
    requires b != [] && !Follows(b[0])
    requires a != [] ==> HasVcl(Split(a)[|Split(a)| - 1])
    ensures Split(a + b) == Split(a) + Split(b)
    decreases |a|
  {
    hide Vcl, Follows, UnitLength, Split;
    NothingToSplit();
    if a == [] {
      assert a + b == b;
    } else {
      SplitRest(a + b, UnitLength(a + b, 0, false));
      UnitTaken(a);
      UnitTaken(a + b);
      var n := UnitLength(a, 0, false);
      assert (a + b)[..n] == a[..n];
      if n == |a| {
        SplitRest(a, n);
        assert a[n..] == [];
        assert Split(a) == [a[..n]];
        assert (a + b)[n] == b[0];
      } else {
        assert (a + b)[n] == a[n];
      }
      FrameUnitUnique(a + b, n, UnitLength(a + b, 0, false));
      assert (a + b)[n..] == a[n..] + b;
      SplitRest(a, n);
      SplitInParts(a[n..], b);
    }
  }

  lemma NothingToSplit()
    ensures Split([]) == []
  {}

  lemma SplitRest(a: seq<Obu>, n: nat)
    requires a != [] && n == UnitLength(a, 0, false)
    ensures 0 < n <= |a| && Split(a) == [a[..n]] + Split(a[n..])
    ensures a[n..] != [] ==> Split(a)[|Split(a)| - 1] == Split(a[n..])[|Split(a[n..])| - 1]
  {}

  // ---- Types in numbers ----

  /** Types 4 to 7, 10 to 14, 19 and 21 are picture data; 11 to 14 and 19 in a single unit. */
  lemma PictureTypes(o: Obu)
    ensures Vcl(o) <==> o.header.kind in {4, 5, 6, 7, 10, 11, 12, 13, 14, 19, 21}
    ensures IsSingleTileVcl(o.header.kind) <==> o.header.kind in {11, 12, 13, 14, 19}
  {}

  /** A unit that starts a frame, by its type and the byte after its header. */
  predicate StartsFrame(o: Obu) {
    o.header.kind in {11, 12, 13, 14, 19} || (o.header.kind in {4, 5, 6, 7, 10, 21} && ByteAfterHeader(o) >= 128)
  }

  /** What goes on with a frame unit after picture data, by type and that byte. */
  lemma FollowingTypes(o: Obu)
    ensures Follows(o) <==>
      || o.header.kind == 25
      || (o.header.kind in {4, 5, 6, 7, 10, 21} && ByteAfterHeader(o) < 128)
      || (o.header.kind in {8, 9} && Announced(o) > 0 && ByteAfterHeader(o) >= 128)
    ensures StartsFrame(o) ==> Vcl(o) && !Follows(o)
  {}

  /** Two units that start a frame, whatever their types, are two frame units. */
  lemma TwoFrames(a: Obu, b: Obu)
    requires StartsFrame(a) && StartsFrame(b)
    ensures Split([a, b]) == [[a], [b]]
  {
    hide Vcl, Follows, Split, StartsFrame;
    FollowingTypes(a);
    FollowingTypes(b);
    SplitAgain([a]);
    SplitAgain([b]);
    assert HasVcl([a]) by {
      assert Vcl([a][0]);
    }
    SplitInParts([a], [b]);
    assert [a] + [b] == [a, b];
  }

  /** The rest of a frame's picture data stays with its start. */
  lemma OneFrame(a: Obu, b: Obu)
    requires StartsFrame(a) && b.header.kind in {4, 5, 6, 7, 10, 21} && ByteAfterHeader(b) < 128
    ensures Split([a, b]) == [[a, b]]
  {
    hide Vcl, Follows, Split, StartsFrame;
    FollowingTypes(b);
    SplitAgain([a, b]);
  }

  // ---- What the scan reports about a frame unit ----

  datatype Layers = Layers(x: int, m: int, t: int)

  const NO_LAYERS := Layers(-1, -1, -1)

  function LayersOf(obus: seq<Obu>): Layers {
    if obus == [] then NO_LAYERS
    else
      var before, last := LayersOf(obus[..|obus| - 1]), obus[|obus| - 1];
      if before == NO_LAYERS && Vcl(last) then Layers(last.header.xlayer, last.header.mlayer, last.header.tlayer)
      else before
  }

  /** The layers of a frame unit are those of its first picture data. */
  lemma {:induction false} LayersOfFirstVcl(obus: seq<Obu>)
    requires Stream(obus)
    ensures LayersOf(obus) == NO_LAYERS <==> LayersOf(obus).m == -1
    ensures LayersOf(obus) == NO_LAYERS <==> !HasVcl(obus)
    ensures forall j {:trigger obus[j]} :: 0 <= j < |obus| && Vcl(obus[j]) && !HasVcl(obus[..j]) ==>
      LayersOf(obus) == Layers(obus[j].header.xlayer, obus[j].header.mlayer, obus[j].header.tlayer)
  {
    hide Vcl, Headed;
    if obus != [] {
      var n := |obus| - 1;
      var before := obus[..n];
      LayersOfFirstVcl(before);
      LayersInRange(obus[n]);
      assert HasVcl(obus) <==> HasVcl(before) || Vcl(obus[n]) by {
        if HasVcl(before) {
          var k :| 0 <= k < n && Vcl(before[k]);
          assert Vcl(obus[k]);
        }
        if HasVcl(obus) {
          var k :| 0 <= k < |obus| && Vcl(obus[k]);
          if k < n {
            assert Vcl(before[k]);
          }
        }
      }
      forall j | 0 <= j < |obus| && Vcl(obus[j]) && !HasVcl(obus[..j])
        ensures LayersOf(obus) == Layers(obus[j].header.xlayer, obus[j].header.mlayer, obus[j].header.tlayer)
      {
        if j < n {
          assert before[j] == obus[j] && before[..j] == obus[..j];
        } else {
          assert obus[..j] == before;
        }
      }
    }
  }

  lemma LayersInRange(o: Obu)
    requires Headed(o)
    ensures o.header.mlayer < 8 && o.header.tlayer < 4 && o.header.kind < 32
  {}

  predicate Contains(obus: seq<Obu>, t: nat, m: nat, kind: nat) {
    exists i :: 0 <= i < |obus| && obus[i].header.tlayer == t && obus[i].header.mlayer == m
                && obus[i].header.kind == kind
  }

  /** A unit that opens a temporal unit, the delimiter itself not counted. */
  predicate ResetsLast(o: Obu) {
    !Vcl(o) && IsTuHead(o.header.kind, o.header.xlayer) && o.header.kind != TEMPORAL_DELIMITER
  }

  /**
   The flag is raised before the end of the frame unit is noticed, so it also
   answers for the unit after the n units of the frame unit.
   */
  predicate ResetSeen(obus: seq<Obu>, n: nat) {
    exists i :: 0 <= i <= n && i < |obus| && ResetsLast(obus[i])
  }

  /** The types that raise it. */
  lemma ResettingTypes(o: Obu)
    ensures ResetsLast(o) <==>
      o.header.kind in {1, 16, 17, 18, 20} || (o.header.kind in {8, 9} && o.header.xlayer == 31)
  {}

  /** The flag differs from what the frame unit alone would give exactly when the next unit is the first such unit. */
  lemma ResetSeenIff(obus: seq<Obu>, n: nat)
    requires IsFrameUnit(obus, n)
    ensures ResetSeen(obus, n) != ResetSeen(obus[..n], n)
      <==> n < |obus| && ResetsLast(obus[n]) && forall i :: 0 <= i < n ==> !ResetsLast(obus[i])
  {}

  /** It does: a tile group and the sequence header after it. */
  lemma ResetSeenTooEarly(frame: Obu, header: Obu)
    requires frame.header.kind == REGULAR_TILE_GROUP && header.header.kind == SEQUENCE_HEADER
    ensures Split([frame, header])[0] == [frame]
    ensures ResetSeen([frame, header], 1) && !ResetSeen([frame], 1)
  {
    var obus := [frame, header];
    UnitTaken(obus);
    assert Vcl(obus[..1][0]) && !Follows(obus[1]);
    assert IsFrameUnit(obus, 1);
    FrameUnitUnique(obus, 1, UnitLength(obus, 0, false));
    assert ResetsLast(obus[1]);
  }

  // ---- Streams in memory ----

  lemma {:induction false} StreamConcat(a: seq<Obu>, b: seq<Obu>)
    requires Stream(a + b)
    ensures Stream(a) && Stream(b) && StreamBytes(a + b) == StreamBytes(a) + StreamBytes(b)
  {
    hide Headed, Bytes;
    assert forall i :: 0 <= i < |a| ==> a[i] == (a + b)[i];
    assert forall i :: 0 <= i < |b| ==> b[i] == (a + b)[|a| + i];
    if a == [] {
      assert a + b == b;
    } else {
      assert (a + b)[1..] == a[1..] + b;
      StreamConcat(a[1..], b);
    }
  }

  lemma StreamAt(obus: seq<Obu>, i: nat)
    requires Stream(obus) && i < |obus|
    ensures Stream(obus[..i]) && Stream(obus[..i + 1]) && Stream(obus[i + 1..]) && Headed(obus[i])
    ensures StreamBytes(obus[..i + 1]) == StreamBytes(obus[..i]) + Bytes(obus[i])
    ensures StreamBytes(obus) == StreamBytes(obus[..i]) + Bytes(obus[i]) + StreamBytes(obus[i + 1..])
  {
    hide Headed, Bytes, Stream, StreamBytes;
    var before, o, after := obus[..i], obus[i], obus[i + 1..];
    assert obus[..i + 1] == before + [o];
    assert obus == (before + [o]) + after;
    StreamConcat(before + [o], after);
    StreamConcat(before, [o]);
    OneUnit(o);
  }

  lemma OneUnit(o: Obu)
    requires Stream([o])
    ensures Headed(o) && StreamBytes([o]) == Bytes(o)
  {
    assert [o][0] == o && [o][1..] == [];
  }

  lemma PartInMemory(data: seq<Octet>, start: nat, before: seq<Octet>, x: seq<Octet>, after: seq<Octet>)
    requires start + |before + x + after| <= |data| && data[start..start + |before + x + after|] == before + x + after
    ensures data[start + |before|..start + |before| + |x|] == x
  {
    var all := before + x + after;
    var part := data[start..start + |all|];
    forall k | 0 <= k < |x|
      ensures data[start + |before|..start + |before| + |x|][k] == x[k]
    {
      assert part[|before| + k] == data[start + (|before| + k)];
    }
  }

  /**
   At pos memory has all of a unit that is there, also what of its header lies outside
   the data, and the byte after the header if the scan looks at it.
   */
  predicate InPlace(data: seq<Octet>, pos: nat, o: Obu) {
    && Headed(o)
    && var end := pos + |MemoryBytes(o)|;
       && end <= |data| && data[pos..end] == MemoryBytes(o)
       && (Looks(o) && o.payload == [] ==> end < |data| && data[end] == o.next)
  }

  predicate BadAt(data: seq<Octet>, pos: nat, available: nat) {
    ReadsInside(data, pos, available) && ParseObu(Available(data, pos, available)) == Bad
  }

  /** From start on, size bytes of memory are the units obus, and more after them if bad. */
  predicate HoldsUnits(data: seq<Octet>, start: nat, size: nat, obus: seq<Obu>, bad: bool) {
    && Stream(obus) && start + size <= |data| && |StreamBytes(obus)| <= size
    && data[start..start + |StreamBytes(obus)|] == StreamBytes(obus)
    && (forall i :: 0 <= i < |obus| && (bad || i < |obus| - 1) ==> WellFormed(obus[i]))
    && (forall i :: 0 <= i < |obus| ==> InPlace(data, start + |FirstBytes(obus, i)|, obus[i]))
    && (bad <==> |StreamBytes(obus)| < size)
  }

  /**
   How data ends: with its last unit, with bytes that do not parse, or with a unit whose
   header goes on behind the data, so that the scan of the frame unit before reads and
   rejects it, but not the scan that starts with it.
   */
  datatype End = Fine | BadBytes | Lost(o: Obu)

  function Seen(obus: seq<Obu>, end: End): seq<Obu> {
    if end.Lost? then obus + [end.o] else obus
  }

  /** The last frame unit of a stream. */
  function LastUnit(obus: seq<Obu>): (unit: seq<Obu>)
    ensures |unit| <= |obus| && unit == obus[|obus| - |unit|..]
    decreases |obus|
  {
    if obus == [] then []
    else
      UnitTaken(obus);
      var n := UnitLength(obus, 0, false);
      if n == |obus| then obus else LastUnit(obus[n..])
  }

  /**
   At pos, left bytes before its end, the data ends so behind a last frame unit. The
   scan of that unit may read as many bytes at a header as there are from its start on.
   */
  predicate EndsSo(data: seq<Octet>, pos: nat, left: nat, unit: seq<Obu>, end: End)
    requires Stream(unit)
  {
    var readable := |StreamBytes(unit)| + left;
    match end
    case Fine => unit != [] ==> HeaderLength(unit[|unit| - 1]) <= readable
    case BadBytes => BadAt(data, pos, readable)
    case Lost(o) => o.outside > 0 && !Follows(o) && HasVcl(unit) && HeaderLength(o) <= readable
  }

  predicate EndsWith(data: seq<Octet>, start: nat, size: nat, obus: seq<Obu>, end: End)
    requires Stream(obus) && |StreamBytes(obus)| <= size
  {
    EndsSo(data, start + |StreamBytes(obus)|, size - |StreamBytes(obus)|, LastUnit(obus), end)
  }

  /** From start on, size bytes of memory hold the units obus, of which the last may be cut short, and end so. */
  predicate Holds(data: seq<Octet>, start: nat, size: nat, obus: seq<Obu>, end: End) {
    && HoldsUnits(data, start, size, Seen(obus, end), end.BadBytes?)
    && Stream(obus) && |StreamBytes(obus)| <= size && EndsWith(data, start, size, obus, end)
  }

  lemma HoldsStream(data: seq<Octet>, start: nat, size: nat, obus: seq<Obu>, end: End)
    requires Holds(data, start, size, obus, end)
    ensures Stream(Seen(obus, end)) && FirstBytes(obus, 0) == [] && start + size <= |data|
    ensures Stream(obus) && |StreamBytes(obus)| <= size
    ensures data[start..start + |StreamBytes(obus)|] == StreamBytes(obus)
    ensures if end.Fine? then |StreamBytes(obus)| == size else |StreamBytes(obus)| < size
  {
    hide Headed, Bytes, EndsWith, InPlace, WellFormed, StreamBytes;
    NoFirstBytes(obus);
    var all := StreamBytes(Seen(obus, end));
    if end.Lost? {
      StreamConcat(obus, [end.o]);
      OneUnit(end.o);
      assert all[..|StreamBytes(obus)|] == StreamBytes(obus);
      SliceOfPrefix(data, start, all, |StreamBytes(obus)|);
    }
  }

  lemma NoFirstBytes(obus: seq<Obu>)
    requires Stream(obus)
    ensures FirstBytes(obus, 0) == []
  {}

  lemma SliceOfPrefix(data: seq<Octet>, start: nat, all: seq<Octet>, n: nat)
    requires start + |all| <= |data| && data[start..start + |all|] == all && n <= |all|
    ensures data[start..start + n] == all[..n]
  {}

  lemma SeenPrefix(obus: seq<Obu>, end: End, i: nat)
    requires Stream(Seen(obus, end)) && i <= |obus|
    ensures Stream(obus) && FirstBytes(Seen(obus, end), i) == FirstBytes(obus, i) && Seen(obus, end)[..i] == obus[..i]
  {
    hide Headed;
    var seen := Seen(obus, end);
    assert forall k :: 0 <= k < |obus| ==> obus[k] == seen[k];
    assert seen[..i] == obus[..i];
  }

  lemma {:induction false} LastUnitIs(obus: seq<Obu>)
    requires obus != []
    ensures Split(obus) != [] && LastUnit(obus) == Split(obus)[|Split(obus)| - 1]
    decreases |obus|
  {
    hide UnitLength;
    UnitTaken(obus);
    var n := UnitLength(obus, 0, false);
    if n == |obus| {
      assert obus[..n] == obus && obus[n..] == [];
    } else {
      LastUnitIs(obus[n..]);
    }
  }

  lemma LastUnitBound(obus: seq<Obu>)
    requires Stream(obus)
    ensures Stream(LastUnit(obus)) && |StreamBytes(LastUnit(obus))| <= |StreamBytes(obus)|
    ensures obus != [] ==> LastUnit(obus) != [] && LastUnit(obus)[|LastUnit(obus)| - 1] == obus[|obus| - 1]
  {
    hide Headed, StreamBytes, LastUnit;
    var k := |obus| - |LastUnit(obus)|;
    assert obus == obus[..k] + obus[k..];
    StreamConcat(obus[..k], obus[k..]);
    LastUnitNotEmpty(obus);
  }

  lemma {:induction false} LastUnitNotEmpty(obus: seq<Obu>)
    ensures obus != [] ==> LastUnit(obus) != []
    decreases |obus|
  {
    hide UnitLength;
    if obus != [] {
      UnitTaken(obus);
      var n := UnitLength(obus, 0, false);
      if n < |obus| {
        LastUnitNotEmpty(obus[n..]);
      }
    }
  }

  /** A unit that ends a scan without being part of it does not change what is scanned. */
  lemma {:induction false} LostIsNotTaken(obus: seq<Obu>, o: Obu)
    requires HasVcl(LastUnit(obus)) && !Follows(o)
    ensures UnitLength(obus + [o], 0, false) == UnitLength(obus, 0, false) <= |obus|
  {
    hide Follows, UnitLength, HasVcl, LastUnit, IsFrameUnit;
    var n := UnitLength(obus, 0, false);
    NoPicture();
    UnitTaken(obus);
    UnitTaken(obus + [o]);
    if n == |obus| {
      WholeUnit(obus);
    }
    StillFrameUnit(obus, o, n);
    FrameUnitUnique(obus + [o], n, UnitLength(obus + [o], 0, false));
  }

  lemma StillFrameUnit(obus: seq<Obu>, o: Obu, n: nat)
    requires IsFrameUnit(obus, n) && (n == |obus| ==> HasVcl(obus) && !Follows(o))
    ensures IsFrameUnit(obus + [o], n)
  {
    hide Follows, HasVcl, Closed;
    assert (obus + [o])[..n] == obus[..n];
    if n == |obus| {
      assert obus[..n] == obus;
    }
  }

  lemma NoPicture()
    ensures LastUnit([]) == [] && !HasVcl([])
  {}

  /** What the reader finds where a unit is in place. */
  lemma UnitInMemory(data: seq<Octet>, pos: nat, size: nat, o: Obu)
    requires InPlace(data, pos, o) && HeaderLength(o) <= size
    ensures ReadsInside(data, pos, size)
    ensures ParseObu(Available(data, pos, size)) == Parsed(o.header, Announced(o), HeaderLength(o))
    ensures Looks(o) ==> pos + HeaderLength(o) < |data| && data[pos + HeaderLength(o)] == ByteAfterHeader(o)
  {
    hide Headed, ParseObu, Announced, Decided, MemoryBytes;
    PayloadOf(o);
    var n := |MemoryBytes(o)|;
    HeaderRoundTrip(o, data[pos + n..]);
    var all, window := data[pos..], Available(data, pos, size);
    assert all == MemoryBytes(o) + data[pos + n..];
    AcceptedIsDecided(all);
    assert all == window + all[|window|..];
    ParseLocal(window, all[|window|..]);
    if o.payload != [] {
      assert data[pos..pos + n][HeaderLength(o)] == MemoryBytes(o)[HeaderLength(o)..][0];
    }
  }

  lemma SizeFieldThere(o: Obu)
    requires Headed(o)
    ensures |o.sizeField| > 0 && o.header.size <= 2 && Announced(o) >= 0
  {}

  lemma PayloadOf(o: Obu)
    requires Headed(o)
    ensures MemoryBytes(o)[HeaderLength(o)..] == o.payload
  {}

  /** The units after the first n. */
  lemma HoldsUnitsRest(data: seq<Octet>, start: nat, size: nat, obus: seq<Obu>, bad: bool, n: nat)
    requires HoldsUnits(data, start, size, obus, bad) && n <= |obus|
    ensures Stream(obus[..n]) && |StreamBytes(obus[..n])| <= size
    ensures HoldsUnits(data, start + |StreamBytes(obus[..n])|, size - |StreamBytes(obus[..n])|, obus[n..], bad)
    ensures data[start..start + |StreamBytes(obus[..n])|] == StreamBytes(obus[..n])
  {
    hide Headed, WellFormed, ParseObu, Stream, StreamBytes, InPlace, FirstBytes;
    var first, rest := obus[..n], obus[n..];
    assert obus == first + rest;
    StreamConcat(first, rest);
    var all, at := StreamBytes(obus), |StreamBytes(first)|;
    assert all == [] + StreamBytes(first) + StreamBytes(rest) == StreamBytes(first) + StreamBytes(rest) + [];
    PartInMemory(data, start, [], StreamBytes(first), StreamBytes(rest));
    PartInMemory(data, start, StreamBytes(first), StreamBytes(rest), []);
    forall i | 0 <= i < |rest|
      ensures InPlace(data, start + at + |FirstBytes(rest, i)|, rest[i])
    {
      FirstBytesOfRest(obus, n, i);
      assert InPlace(data, start + |FirstBytes(obus, n + i)|, obus[n + i]);
    }
  }

  lemma FirstBytesOfRest(obus: seq<Obu>, n: nat, i: nat)
    requires Stream(obus) && n + i <= |obus|
    ensures Stream(obus[..n]) && Stream(obus[n..])
    ensures |FirstBytes(obus, n + i)| == |StreamBytes(obus[..n])| + |FirstBytes(obus[n..], i)|
  {
    hide Headed, StreamBytes;
    assert obus[..n + i] == obus[..n] + obus[n..][..i];
    StreamConcat(obus[..n], obus[n..][..i]);
  }

  /** The end of the data after all of a frame unit is taken. */
  function Later(end: End, allTaken: bool): End {
    if end.Lost? && allTaken then BadBytes else end
  }

  /** The rest of the memory after the first frame unit. */
  lemma HoldsRest(data: seq<Octet>, start: nat, size: nat, obus: seq<Obu>, end: End, n: nat)
    requires Holds(data, start, size, obus, end) && obus != []
    requires n == UnitLength(obus, 0, false) && (n == |obus| ==> !end.BadBytes?)
    ensures n <= |obus| && Stream(obus) && |FirstBytes(obus, n)| <= size
    ensures data[start..start + |FirstBytes(obus, n)|] == FirstBytes(obus, n)
    ensures Holds(data, start + |FirstBytes(obus, n)|, size - |FirstBytes(obus, n)|, obus[n..], Later(end, n == |obus|))
  {
    hide HoldsUnits, StreamBytes, Headed, UnitLength, EndsWith;
    HoldsStream(data, start, size, obus, end);
    SeenPrefix(obus, end, n);
    HoldsUnitsRest(data, start, size, Seen(obus, end), end.BadBytes?, n);
    assert Seen(obus, end)[n..] == Seen(obus[n..], end);
    if n < |obus| {
      SomeTaken(data, start, size, obus, end, n);
    } else {
      assert obus[..n] == obus && obus[n..] == [];
      var at := |StreamBytes(obus)|;
      if end.Lost? {
        assert Seen([], end) == [end.o];
        LostIsOutside(data, start, size, obus, end);
        NothingThenBad(data, start + at, size - at, end.o);
      } else {
        NothingThenFine(data, start + at, size - at);
      }
    }
  }

  lemma SomeTaken(data: seq<Octet>, start: nat, size: nat, obus: seq<Obu>, end: End, n: nat)
    requires Stream(obus) && |StreamBytes(obus)| <= size && EndsWith(data, start, size, obus, end)
    requires n == UnitLength(obus, 0, false) < |obus|
    ensures Stream(obus[..n]) && Stream(obus[n..])
    ensures var at := |StreamBytes(obus[..n])|;
      |StreamBytes(obus[n..])| + at == |StreamBytes(obus)| && EndsWith(data, start + at, size - at, obus[n..], end)
  {
    hide StreamBytes, Headed, UnitLength, EndsSo, LastUnit;
    assert obus == obus[..n] + obus[n..];
    StreamConcat(obus[..n], obus[n..]);
    LastUnitLater(obus, n);
  }

  lemma LastUnitLater(obus: seq<Obu>, n: nat)
    requires n == UnitLength(obus, 0, false) < |obus|
    ensures LastUnit(obus) == LastUnit(obus[n..])
  {}

  lemma NothingThenFine(data: seq<Octet>, pos: nat, size: nat)
    requires HoldsUnits(data, pos, size, [], false)
    ensures Holds(data, pos, size, [], Fine)
  {
    hide EndsWith, HoldsUnits;
    NoBytesNoUnits([]);
    FineBehindNothing(data, pos, size);
  }

  lemma NothingThenBad(data: seq<Octet>, pos: nat, size: nat, o: Obu)
    requires HoldsUnits(data, pos, size, [o], false) && o.outside > 0
    ensures Holds(data, pos, size, [], BadBytes)
  {
    hide EndsWith, HoldsUnits;
    LostIsBad(data, pos, size, o);
    HoldsUnitsAre(data, pos, size, [o], false);
    NothingIsHeld(data, pos, size);
    BadBehindNothing(data, pos, size);
  }

  lemma LostIsOutside(data: seq<Octet>, start: nat, size: nat, obus: seq<Obu>, end: End)
    requires Stream(obus) && |StreamBytes(obus)| <= size && end.Lost? && EndsWith(data, start, size, obus, end)
    ensures end.o.outside > 0
  {}

  lemma FineBehindNothing(data: seq<Octet>, pos: nat, size: nat)
    requires Stream([]) && |StreamBytes([])| <= size
    ensures EndsWith(data, pos, size, [], Fine)
  {}

  /** Where a scan starts with a header that goes on behind the data, it does not parse. */
  lemma LostIsBad(data: seq<Octet>, pos: nat, size: nat, o: Obu)
    requires HoldsUnits(data, pos, size, [o], false) && o.outside > 0
    ensures size > 0 && BadAt(data, pos, size)
  {
    hide Headed, MemoryBytes, ParseObu, Decided, InPlace, FirstBytes;
    OneUnit(o);
    CutHeaderIsBad(o);
    assert Available(data, pos, size) == Bytes(o);
  }

  lemma NothingIsHeld(data: seq<Octet>, pos: nat, size: nat)
    requires pos + size <= |data|
    ensures HoldsUnits(data, pos, size, [], size > 0) && StreamBytes([]) == [] && LastUnit([]) == []
  {}

  /** What the scan finds after i units. */
  lemma NextInMemory(data: seq<Octet>, start: nat, size: nat, obus: seq<Obu>, end: End, i: nat)
    requires Holds(data, start, size, obus, end) && i <= |Seen(obus, end)|
    ensures Stream(Seen(obus, end))
    ensures var seen := Seen(obus, end);
      var pos := start + |FirstBytes(seen, i)|;
      && pos <= start + size && (i == |seen| && !end.BadBytes? <==> pos == start + size)
      && (i == |seen| && end.BadBytes? && UnitLength(seen, 0, false) == i ==> BadAt(data, pos, size))
      && (i < |seen| ==>
            var o := seen[i];
            var payloadAt := pos + HeaderLength(o);
            && Headed(o) && ReadsInside(data, pos, size)
            && ParseObu(Available(data, pos, size)) == Parsed(o.header, Announced(o), HeaderLength(o))
            && (Looks(o) ==> payloadAt < |data| && data[payloadAt] == ByteAfterHeader(o))
            && if WellFormed(o) then payloadAt + Announced(o) == start + |FirstBytes(seen, i + 1)|
               else i + 1 == |seen| && !end.BadBytes? && payloadAt + Announced(o) > start + size)
  {
    hide Headed, ParseObu, ReadsInside, Available, UnitLength, StreamBytes, WellFormed, BadAt, HoldsUnits, FirstBytes,
         LastUnit, HeaderLength, Announced, Looks, ByteAfterHeader;
    var seen := Seen(obus, end);
    HoldsUnitsAre(data, start, size, seen, end.BadBytes?);
    AllFirstBytes(seen);
    if i < |seen| {
      HeaderIsRead(data, start, size, obus, end, i);
      SeenInMemory(data, start, size, seen, end.BadBytes?, i);
    } else if end.BadBytes? && UnitLength(seen, 0, false) == i {
      WholeUnit(obus);
    }
  }

  lemma AllFirstBytes(obus: seq<Obu>)
    requires Stream(obus)
    ensures FirstBytes(obus, |obus|) == StreamBytes(obus)
  {
    hide Headed, StreamBytes;
    assert obus[..|obus|] == obus;
  }

  /** What the reader finds at unit i. */
  lemma SeenInMemory(data: seq<Octet>, start: nat, size: nat, seen: seq<Obu>, bad: bool, i: nat)
    requires HoldsUnits(data, start, size, seen, bad) && i < |seen| && HeaderLength(seen[i]) <= size
    ensures var o, pos := seen[i], start + |FirstBytes(seen, i)|;
      var payloadAt := pos + HeaderLength(o);
      && Headed(o) && ReadsInside(data, pos, size) && pos < start + size
      && ParseObu(Available(data, pos, size)) == Parsed(o.header, Announced(o), HeaderLength(o))
      && (Looks(o) ==> payloadAt < |data| && data[payloadAt] == ByteAfterHeader(o))
      && if WellFormed(o) then payloadAt + Announced(o) == start + |FirstBytes(seen, i + 1)|
         else i + 1 == |seen| && !bad && payloadAt + Announced(o) > start + size
  {
    hide Headed, ParseObu, ReadsInside, Available, StreamBytes, WellFormed, Announced, Looks, ByteAfterHeader,
         HeaderLength, InPlace, Bytes;
    var o := seen[i];
    StreamAt(seen, i);
    AnnouncesAll(o);
    assert InPlace(data, start + |FirstBytes(seen, i)|, o);
    UnitInMemory(data, start + |FirstBytes(seen, i)|, size, o);
    if i + 1 == |seen| {
      assert seen[..i + 1] == seen;
    }
  }

  lemma WholeUnit(obus: seq<Obu>)
    requires UnitLength(obus, 0, false) == |obus|
    ensures LastUnit(obus) == obus
  {}

  /** The scan may read as many bytes as the header has. */
  lemma HeaderIsRead(data: seq<Octet>, start: nat, size: nat, obus: seq<Obu>, end: End, i: nat)
    requires Holds(data, start, size, obus, end) && i < |Seen(obus, end)|
    ensures HeaderLength(Seen(obus, end)[i]) <= size
  {
    hide Headed, StreamBytes, MemoryBytes, HeaderLength, LastUnit, BadAt, Follows, HasVcl;
    var seen := Seen(obus, end);
    StreamAt(seen, i);
    AnnouncesAll(seen[i]);
    LastUnitBound(obus);
    HoldsStream(data, start, size, obus, end);
  }

  lemma AnnouncesAll(o: Obu)
    requires Headed(o)
    ensures Announced(o) >= |o.payload| && Announced(o) >= 0
    ensures |Bytes(o)| == HeaderLength(o) + |o.payload| - o.outside
    ensures if WellFormed(o) then |Bytes(o)| == HeaderLength(o) + Announced(o) >= HeaderLength(o)
      else HeaderLength(o) + Announced(o) > |Bytes(o)|
    ensures WellFormed(o) ==> o.outside == 0
  {}

  // ---- Which memory is held by units ----

  predicate LooksAtPayload(kind: nat, payloadSize: nat) {
    IsVcl(kind) || ((kind == METADATA_SHORT || kind == METADATA_GROUP) && payloadSize > 0)
  }

  /** What the scan makes of a header and the byte at payloadAt. */
  predicate FollowsAt(data: seq<Octet>, payloadAt: nat, p: Parsed)
    requires p.Parsed?
  {
    var b: nat := if payloadAt < |data| then data[payloadAt] else 0;
    if IsVcl(p.header.kind) then !IsSingleTileVcl(p.header.kind) && b < 128
    else p.header.kind == PADDING || (LooksAtPayload(p.header.kind, p.payloadSize) && b >= 128)
  }

  /**
   The scans find all that they look at in memory: at pos is one that started at from,
   and vclSeen says whether it has come across picture data.
   */
  predicate Readable(data: seq<Octet>, from: nat, pos: nat, end: nat, vclSeen: bool)
    requires from <= pos
    decreases end - pos, vclSeen
  {
    pos < end ==>
      && ReadsInside(data, pos, end - from)
      && var p := ParseObu(Available(data, pos, end - from));
         p.Parsed? ==>
           var payloadAt := pos + p.bytesRead;
           && p.bytesRead > 0
           && (LooksAtPayload(p.header.kind, p.payloadSize) ==> payloadAt < |data|)
           && if vclSeen && !FollowsAt(data, payloadAt, p) then Readable(data, pos, pos, end, false)
              else payloadAt + p.payloadSize <= end ==>
                Readable(data, from, payloadAt + p.payloadSize, end, vclSeen || IsVcl(p.header.kind))
  }

  lemma FollowsIs(data: seq<Octet>, payloadAt: nat, o: Obu)
    requires Headed(o) && (Looks(o) ==> payloadAt < |data| && data[payloadAt] == ByteAfterHeader(o))
    ensures Announced(o) >= 0 && (IsVcl(o.header.kind) <==> Vcl(o))
    ensures LooksAtPayload(o.header.kind, Announced(o)) <==> Looks(o)
    ensures FollowsAt(data, payloadAt, Parsed(o.header, Announced(o), HeaderLength(o))) <==> Follows(o)
  {}

  /** Where units hold the memory, it is readable: here from the ith unit of a frame unit on. */
  lemma {:induction false} HeldIsReadable(data: seq<Octet>, start: nat, size: nat, obus: seq<Obu>, end: End, i: nat)
    requires Holds(data, start, size, obus, end) && i <= |Seen(obus, end)|
    requires var seen := Seen(obus, end); UnitLength(seen, 0, false) == UnitLength(seen, i, HasVcl(seen[..i]))
    ensures var seen := Seen(obus, end);
      Stream(seen) && Readable(data, start, start + |FirstBytes(seen, i)|, start + size, HasVcl(seen[..i]))
    decreases size, |Seen(obus, end)| - i
  {
    hide Headed, WellFormed, ParseObu, Announced, ReadsInside, Available, FirstBytes, Holds, Follows, Vcl, Looks,
         HasVcl, HeaderLength, ByteAfterHeader, Readable, BadAt;
    var seen := Seen(obus, end);
    NextInMemory(data, start, size, obus, end, i);
    if i == |seen| {
      NothingToRead(data, start, start + |FirstBytes(seen, i)|, start + size, HasVcl(seen[..i]));
    } else {
      var o, pos := seen[i], start + |FirstBytes(seen, i)|;
      if HasVcl(seen[..i]) && !Follows(o) {
        NextFrameIsHeld(data, start, size, obus, end, i);
        StartsHere(obus[i..], Later(end, i == |obus|));
        HeldIsReadable(data, pos, size - |FirstBytes(seen, i)|, obus[i..], Later(end, i == |obus|), 0);
      } else if WellFormed(o) {
        assert seen[..i + 1] == seen[..i] + [o];
        HasVclMore(seen[..i], o);
        HeldIsReadable(data, start, size, obus, end, i + 1);
      }
      ReadableStep(data, start, pos, start + size, HasVcl(seen[..i]), o);
    }
  }

  lemma NothingToRead(data: seq<Octet>, from: nat, pos: nat, end: nat, vclSeen: bool)
    requires from <= pos <= end && (pos == end || BadAt(data, pos, end - from))
    ensures Readable(data, from, pos, end, vclSeen)
  {
    hide ParseObu, ReadsInside, Available;
  }

  /** Readable at a unit if it is where the scan goes on. */
  lemma ReadableStep(data: seq<Octet>, from: nat, pos: nat, end: nat, vclSeen: bool, o: Obu)
    requires Headed(o) && from <= pos < end && ReadsInside(data, pos, end - from)
    requires ParseObu(Available(data, pos, end - from)) == Parsed(o.header, Announced(o), HeaderLength(o))
    requires var payloadAt := pos + HeaderLength(o);
      && (Looks(o) ==> payloadAt < |data| && data[payloadAt] == ByteAfterHeader(o))
      && if vclSeen && !Follows(o) then Readable(data, pos, pos, end, false)
         else payloadAt + Announced(o) <= end ==>
           Announced(o) >= 0 && Readable(data, from, payloadAt + Announced(o), end, vclSeen || Vcl(o))
    ensures Readable(data, from, pos, end, vclSeen)
  {
    hide Headed, ParseObu, Announced, ReadsInside, Available, Follows, Vcl, Looks, FollowsAt, LooksAtPayload,
         ByteAfterHeader;
    SizeFieldThere(o);
    FollowsIs(data, pos + HeaderLength(o), o);
  }

  lemma StartsHere(obus: seq<Obu>, end: End)
    requires Stream(Seen(obus, end))
    ensures FirstBytes(Seen(obus, end), 0) == [] && !HasVcl(Seen(obus, end)[..0])
    ensures UnitLength(Seen(obus, end), 0, HasVcl(Seen(obus, end)[..0])) == UnitLength(Seen(obus, end), 0, false)
  {
    hide UnitLength;
  }

  /** Where a scan ends at a unit, the next one starts with what is held from there on. */
  lemma NextFrameIsHeld(data: seq<Octet>, start: nat, size: nat, obus: seq<Obu>, end: End, i: nat)
    requires Holds(data, start, size, obus, end) && i < |Seen(obus, end)|
    requires var seen := Seen(obus, end);
      && UnitLength(seen, 0, false) == UnitLength(seen, i, HasVcl(seen[..i]))
      && HasVcl(seen[..i]) && !Follows(seen[i])
    ensures i <= |obus| && Stream(Seen(obus, end)) && 0 < |FirstBytes(Seen(obus, end), i)| <= size
    ensures var at := |FirstBytes(Seen(obus, end), i)|;
      Holds(data, start + at, size - at, obus[i..], Later(end, i == |obus|))
    ensures Stream(Seen(obus[i..], Later(end, i == |obus|)))
  {
    hide Headed, Follows, Vcl, HoldsUnits, EndsWith, StreamBytes, LastUnit;
    var seen := Seen(obus, end);
    HoldsStream(data, start, size, obus, end);
    UnitEndsAt(seen, i);
    if end.Lost? {
      EndOfLost(data, start, size, obus, end);
      LostIsNotTaken(obus, end.o);
    }
    SeenPrefix(obus, end, i);
    HoldsRest(data, start, size, obus, end, i);
    HoldsStream(data, start + |FirstBytes(seen, i)|, size - |FirstBytes(seen, i)|, obus[i..], Later(end, i == |obus|));
    BytesPositive(seen[..i]);
  }

  lemma EndOfLost(data: seq<Octet>, start: nat, size: nat, obus: seq<Obu>, end: End)
    requires Holds(data, start, size, obus, end) && end.Lost?
    ensures HasVcl(LastUnit(obus)) && !Follows(end.o)
  {}

  lemma UnitEndsAt(obus: seq<Obu>, i: nat)
    requires i < |obus| && HasVcl(obus[..i]) && !Follows(obus[i])
    requires UnitLength(obus, 0, false) == UnitLength(obus, i, true)
    ensures UnitLength(obus, 0, false) == i > 0
  {
    hide Follows, Vcl;
  }

  /** A scan that has taken all of acc since from. */
  predicate Scanning(data: seq<Octet>, from: nat, pos: nat, acc: seq<Obu>) {
    && from <= pos && HoldsUnits(data, from, pos - from, acc, false)
    && (forall i :: 0 <= i < |acc| ==> WellFormed(acc[i])) && UnitLength(acc, 0, false) == |acc|
  }

  /** Readable memory is held by units, here behind those of a scan in progress. */
  lemma {:induction false} ReadableIsHeld(data: seq<Octet>, from: nat, pos: nat, end: nat, acc: seq<Obu>)
    returns (obus: seq<Obu>, e: End)
    requires from <= pos <= end <= |data| && Scanning(data, from, pos, acc)
      && Readable(data, from, pos, end, HasVcl(acc))
    ensures Holds(data, from, end - from, obus, e)
    decreases end - pos, HasVcl(acc)
  {
    hide Headed, WellFormed, ParseObu, Announced, ReadsInside, Available, Holds, Follows, HasVcl, Scanning, FollowsAt,
         LooksAtPayload, HeaderLength, UnitLength;
    var available := end - from;
    if pos == end {
      obus, e := acc, Fine;
      ScanEndsFine(data, from, pos, acc);
    } else if ParseObu(Available(data, pos, available)).Bad? {
      obus, e := acc, BadBytes;
      ScanEndsBad(data, from, pos, end, acc);
    } else {
      var p := ParseObu(Available(data, pos, available));
      var o := ObuInData(data, pos, end, available);
      if HasVcl(acc) && !Follows(o) {
        NewScan(data, pos);
        var rest, after := ReadableIsHeld(data, pos, pos, end, []);
        if rest == [] {
          obus, e := acc, Lost(o);
          ScanEndsLost(data, from, pos, end, acc, o, rest, after);
        } else {
          obus, e := acc + rest, after;
          ScanGoesOn(data, from, pos, end, acc, o, rest, after);
        }
      } else {
        TakeOneMore(data, from, pos, acc, o);
        if WellFormed(o) {
          obus, e := ReadableIsHeld(data, from, pos + |Bytes(o)|, end, acc + [o]);
        } else {
          obus, e := acc + [o], Fine;
        }
      }
    }
  }

  lemma NewScan(data: seq<Octet>, pos: nat)
    requires pos <= |data|
    ensures Scanning(data, pos, pos, []) && !HasVcl([])
  {}

  lemma ScanEndsFine(data: seq<Octet>, from: nat, pos: nat, acc: seq<Obu>)
    requires Scanning(data, from, pos, acc)
    ensures Holds(data, from, pos - from, acc, Fine)
  {
    hide Headed, InPlace, StreamBytes, Bytes, UnitLength;
    WholeUnit(acc);
    if acc != [] {
      var n := |acc| - 1;
      StreamAt(acc, n);
      assert acc[..n + 1] == acc;
      AnnouncesAll(acc[n]);
    }
  }

  lemma ScanEndsBad(data: seq<Octet>, from: nat, pos: nat, end: nat, acc: seq<Obu>)
    requires Scanning(data, from, pos, acc) && pos < end <= |data| && BadAt(data, pos, end - from)
    ensures Holds(data, from, end - from, acc, BadBytes)
  {
    hide Headed, InPlace, BadAt, UnitLength, WellFormed;
    WholeUnit(acc);
  }

  /** The unit whose header is found at pos. */
  lemma {:induction false} ObuInData(data: seq<Octet>, pos: nat, end: nat, available: nat) returns (o: Obu)
    requires pos < end <= |data| && end - pos <= available
    requires var p := ParseObu(Available(data, pos, available));
      p.Parsed? && (LooksAtPayload(p.header.kind, p.payloadSize) ==> pos + p.bytesRead < |data|)
    ensures Headed(o) && InPlace(data, pos, o) && pos + |Bytes(o)| <= end
    ensures data[pos..pos + |Bytes(o)|] == Bytes(o) && HeaderLength(o) <= available
    ensures var p := ParseObu(Available(data, pos, available));
      && p == Parsed(o.header, Announced(o), HeaderLength(o)) && (IsVcl(p.header.kind) <==> Vcl(o))
      && (FollowsAt(data, pos + p.bytesRead, p) <==> Follows(o))
      && if WellFormed(o) then pos + |Bytes(o)| == pos + p.bytesRead + p.payloadSize
         else pos + |Bytes(o)| == end < pos + p.bytesRead + p.payloadSize
  {
    hide ParseObu, Headed, WellFormed, Announced, Bytes, MemoryBytes, FollowsAt, Follows, InPlace, Looks,
         LooksAtPayload, HeaderLength, ObuAt, Available, Vcl;
    var all := Available(data, pos, available);
    var p := ParseObu(all);
    AvailableSize(data, pos, available);
    HeaderFound(all);
    var payloadAt := pos + p.bytesRead;
    var next: Octet := if payloadAt < |data| then data[payloadAt] else 0;
    HeaderComplete(all, end - pos, next);
    o := ObuAt(all, end - pos, next);
    HeaderOfUnit(all, end - pos, next);
    AnnouncesAll(o);
    PrefixOfAvailable(data, pos, available, |MemoryBytes(o)|);
    PrefixOfAvailable(data, pos, available, |Bytes(o)|);
    PlacedWith(data, pos, o, next);
    FollowsIs(data, payloadAt, o);
  }

  lemma AvailableSize(data: seq<Octet>, pos: nat, available: nat)
    requires pos <= |data|
    ensures |Available(data, pos, available)| == if pos + available <= |data| then available else |data| - pos
  {}

  lemma PrefixOfAvailable(data: seq<Octet>, pos: nat, available: nat, n: nat)
    requires pos <= |data| && n <= |Available(data, pos, available)|
    ensures pos + n <= |data| && data[pos..pos + n] == Available(data, pos, available)[..n]
  {}

  lemma PlacedWith(data: seq<Octet>, pos: nat, o: Obu, next: Octet)
    requires Headed(o) && pos + |MemoryBytes(o)| <= |data| && data[pos..pos + |MemoryBytes(o)|] == MemoryBytes(o)
    requires o.next == next && (Looks(o) ==> pos + HeaderLength(o) < |data|)
    requires pos + HeaderLength(o) < |data| ==> next == data[pos + HeaderLength(o)]
    ensures InPlace(data, pos, o) && (Looks(o) ==> data[pos + HeaderLength(o)] == ByteAfterHeader(o))
  {
    hide Headed, MemoryBytes, Looks, HeaderLength;
    PayloadOf(o);
    if o.payload != [] {
      assert data[pos..pos + |MemoryBytes(o)|][HeaderLength(o)] == MemoryBytes(o)[HeaderLength(o)..][0];
    }
  }

  lemma HeaderOfUnit(s: seq<Octet>, inside: nat, next: Octet)
    requires ParseObu(s).Parsed? && ParseObu(s).bytesRead <= |s| && inside <= |s|
    ensures var o, p := ObuAt(s, inside, next), ParseObu(s);
      && o.header == p.header && o.next == next
      && (Announced(o) == p.payloadSize ==> (Looks(o) <==> LooksAtPayload(p.header.kind, p.payloadSize)))
  {
    hide ParseObu;
  }

  /** Units behind units. */
  lemma HoldsUnitsJoin(data: seq<Octet>, start: nat, size: nat, a: seq<Obu>, rest: nat, b: seq<Obu>, bad: bool)
    requires HoldsUnits(data, start, size, a, false) && HoldsUnits(data, start + size, rest, b, bad)
    requires forall i :: 0 <= i < |a| ==> WellFormed(a[i])
    ensures HoldsUnits(data, start, size + rest, a + b, bad)
    ensures |StreamBytes(a + b)| == |StreamBytes(a)| + |StreamBytes(b)|
  {
    hide Headed, Bytes, WellFormed, InPlace, FirstBytes, StreamBytes;
    var all := a + b;
    assert Stream(all);
    StreamConcat(a, b);
    SliceOfTwo(data, start, StreamBytes(a), StreamBytes(b));
    forall i | 0 <= i < |all|
      ensures InPlace(data, start + |FirstBytes(all, i)|, all[i])
    {
      if i < |a| {
        FirstBytesOfFirst(a, b, i);
        assert InPlace(data, start + |FirstBytes(a, i)|, a[i]);
      } else {
        FirstBytesOfRest(all, |a|, i - |a|);
        assert all[..|a|] == a && all[|a|..] == b;
        assert InPlace(data, start + size + |FirstBytes(b, i - |a|)|, b[i - |a|]);
      }
    }
  }

  lemma FirstBytesOfFirst(a: seq<Obu>, b: seq<Obu>, i: nat)
    requires Stream(a + b) && i <= |a|
    ensures Stream(a) && FirstBytes(a + b, i) == FirstBytes(a, i)
  {
    hide Headed;
    assert forall k :: 0 <= k < |a| ==> a[k] == (a + b)[k];
    assert (a + b)[..i] == a[..i];
  }

  lemma SliceOfTwo(data: seq<Octet>, start: nat, a: seq<Octet>, b: seq<Octet>)
    requires start + |a| + |b| <= |data| && data[start..start + |a|] == a
    requires data[start + |a|..start + |a| + |b|] == b
    ensures data[start..start + |a + b|] == a + b
  {}

  lemma HoldsOne(data: seq<Octet>, pos: nat, o: Obu)
    requires InPlace(data, pos, o) && pos + |Bytes(o)| <= |data| && data[pos..pos + |Bytes(o)|] == Bytes(o)
    ensures HoldsUnits(data, pos, |Bytes(o)|, [o], false)
  {
    hide Headed, Bytes, MemoryBytes, WellFormed;
    OneUnit(o);
  }

  /** The scan takes one more unit, the last one if not all of it is there. */
  lemma TakeOneMore(data: seq<Octet>, from: nat, pos: nat, acc: seq<Obu>, o: Obu)
    requires Scanning(data, from, pos, acc) && (HasVcl(acc) ==> Follows(o))
    requires Headed(o) && InPlace(data, pos, o)
    requires pos + |Bytes(o)| <= |data| && data[pos..pos + |Bytes(o)|] == Bytes(o)
    requires HeaderLength(o) <= pos + |Bytes(o)| - from
    ensures HasVcl(acc + [o]) <==> HasVcl(acc) || Vcl(o)
    ensures if WellFormed(o) then Scanning(data, from, pos + |Bytes(o)|, acc + [o])
      else Holds(data, from, pos + |Bytes(o)| - from, acc + [o], Fine)
  {
    hide Headed, WellFormed, Follows, Vcl, HasVcl, InPlace, HeaderLength, UnitLength, HoldsUnits, StreamBytes, Bytes,
         Holds;
    HoldsOne(data, pos, o);
    HoldsUnitsJoin(data, from, pos - from, acc, |Bytes(o)|, [o], false);
    HasVclMore(acc, o);
    TakesOneMore(acc, o);
    if !WellFormed(o) {
      EndsFine(data, from, pos + |Bytes(o)| - from, acc + [o]);
    }
  }

  lemma EndsFine(data: seq<Octet>, start: nat, size: nat, obus: seq<Obu>)
    requires HoldsUnits(data, start, size, obus, false) && UnitLength(obus, 0, false) == |obus| > 0
    requires HeaderLength(obus[|obus| - 1]) <= size
    ensures Holds(data, start, size, obus, Fine)
  {
    hide Headed, WellFormed, InPlace, HeaderLength, UnitLength, HoldsUnits, StreamBytes, Follows, HasVcl, BadAt;
    WholeUnit(obus);
    BytesOfWhole(data, start, size, obus);
    HoldsUnitsAre(data, start, size, obus, false);
  }

  lemma BytesOfWhole(data: seq<Octet>, start: nat, size: nat, obus: seq<Obu>)
    requires HoldsUnits(data, start, size, obus, false)
    ensures |StreamBytes(obus)| == size
  {}

  lemma TakesOneMore(acc: seq<Obu>, o: Obu)
    requires UnitLength(acc, 0, false) == |acc| && (HasVcl(acc) ==> Follows(o))
    ensures UnitLength(acc + [o], 0, false) == |acc| + 1
  {
    hide Follows, Vcl, UnitLength;
    var all := acc + [o];
    if acc != [] {
      UnitTaken(acc);
      assert acc[..|acc|] == acc;
    }
    forall a, b | 0 <= a < b < |all| && Vcl(all[a])
      ensures Follows(all[b])
    {
      assert Vcl(acc[a]);
    }
    assert all[..|all|] == all;
    UnitTaken(all);
    FrameUnitUnique(all, |all|, UnitLength(all, 0, false));
  }

  /** The scan of acc ends at a header that goes on behind the data, and the next one finds nothing. */
  lemma ScanEndsLost(data: seq<Octet>, from: nat, pos: nat, end: nat, acc: seq<Obu>, o: Obu, rest: seq<Obu>,
                     e: End)
    requires Scanning(data, from, pos, acc) && HasVcl(acc) && !Follows(o) && pos < end <= |data|
    requires Headed(o) && InPlace(data, pos, o) && pos + |Bytes(o)| <= end && data[pos..pos + |Bytes(o)|] == Bytes(o)
    requires HeaderLength(o) <= end - from && (WellFormed(o) || pos + |Bytes(o)| == end)
    requires rest == [] && Holds(data, pos, end - pos, rest, e)
    ensures Holds(data, from, end - from, acc, Lost(o))
  {
    hide Headed, WellFormed, Follows, Vcl, HasVcl, InPlace, HeaderLength, UnitLength, HoldsUnits, StreamBytes, Bytes,
         Holds, EndsWith, LastUnit, BadAt;
    NothingButBad(data, pos, end - pos, rest, e);
    OutsideIfBad(data, pos, end - pos, o);
    HoldsOne(data, pos, o);
    HoldsUnitsJoin(data, from, pos - from, acc, |Bytes(o)|, [o], false);
    WholeUnit(acc);
    BytesOfWhole(data, from, pos - from, acc);
    HoldsUnitsAre(data, from, pos - from, acc, false);
    IsLost(data, from, end - from, acc, o);
  }

  lemma IsLost(data: seq<Octet>, start: nat, size: nat, acc: seq<Obu>, o: Obu)
    requires Stream(acc) && Headed(o) && HoldsUnits(data, start, |StreamBytes(acc)| + |Bytes(o)|, acc + [o], false)
    requires |StreamBytes(acc)| + |Bytes(o)| <= size && LastUnit(acc) == acc && HasVcl(acc)
    requires !Follows(o) && o.outside > 0 && |StreamBytes(acc)| + |Bytes(o)| == size && |StreamBytes(acc)| < size
    requires HeaderLength(o) <= size
    ensures Holds(data, start, size, acc, Lost(o))
  {
    hide Headed, WellFormed, Follows, Vcl, HasVcl, InPlace, HeaderLength, UnitLength, HoldsUnits, StreamBytes, Bytes;
  }

  lemma HoldsUnitsAre(data: seq<Octet>, start: nat, size: nat, obus: seq<Obu>, bad: bool)
    requires HoldsUnits(data, start, size, obus, bad)
    ensures Stream(obus) && |StreamBytes(obus)| <= size && start + size <= |data|
    ensures data[start..start + |StreamBytes(obus)|] == StreamBytes(obus) && (bad <==> |StreamBytes(obus)| < size)
    ensures forall i :: 0 <= i < |obus| && (bad || i < |obus| - 1) ==> WellFormed(obus[i])
  {}

  lemma NothingButBad(data: seq<Octet>, pos: nat, size: nat, rest: seq<Obu>, e: End)
    requires rest == [] && Holds(data, pos, size, rest, e) && size > 0
    ensures BadAt(data, pos, size)
  {
    hide BadAt, EndsWith, HoldsUnits, Headed, HasVcl, LastUnit, StreamBytes;
    NoPicture();
    NoBytesNoUnits(rest);
    HoldsStream(data, pos, size, rest, e);
    NotLost(data, pos, size, rest, e);
    BadBehindNothing(data, pos, size);
  }

  lemma BadBehindNothing(data: seq<Octet>, pos: nat, size: nat)
    requires Stream([]) && |StreamBytes([])| <= size
    ensures EndsWith(data, pos, size, [], BadBytes) <==> BadAt(data, pos, size)
  {
    hide BadAt;
  }

  lemma OutsideIfBad(data: seq<Octet>, pos: nat, size: nat, o: Obu)
    requires BadAt(data, pos, size) && InPlace(data, pos, o) && |Bytes(o)| <= size
    ensures o.outside > 0 && !WellFormed(o)
  {
    hide ParseObu, Headed, Available, ReadsInside, MemoryBytes;
    AnnouncesAll(o);
    if HeaderLength(o) <= size {
      UnitInMemory(data, pos, size, o);
    }
  }

  /** The scan of acc ends where what is held goes on. */
  lemma ScanGoesOn(data: seq<Octet>, from: nat, pos: nat, end: nat, acc: seq<Obu>, o: Obu, rest: seq<Obu>, e: End)
    requires Scanning(data, from, pos, acc) && HasVcl(acc) && !Follows(o) && pos < end <= |data|
    requires Holds(data, pos, end - pos, rest, e) && rest != []
    requires Headed(o) && InPlace(data, pos, o) && HeaderLength(o) <= end - from
    ensures Holds(data, from, end - from, acc + rest, e)
  {
    hide Headed, WellFormed, Follows, Vcl, HasVcl, InPlace, HeaderLength, UnitLength, HoldsUnits, StreamBytes, Bytes,
         EndsWith;
    SameUnit(data, from, pos, end, o, rest, e);
    HoldsUnitsJoin(data, from, pos - from, acc, end - pos, Seen(rest, e), e.BadBytes?);
    assert acc + Seen(rest, e) == Seen(acc + rest, e);
    HoldsStream(data, pos, end - pos, rest, e);
    BytesOfWhole(data, from, pos - from, acc);
    HoldsUnitsAre(data, from, pos - from, acc, false);
    StreamOfBoth(acc, rest);
    EndsWithMore(data, from, pos, end, acc, rest, e);
  }

  lemma StreamOfBoth(a: seq<Obu>, b: seq<Obu>)
    requires Stream(a) && Stream(b)
    ensures Stream(a + b) && |StreamBytes(a + b)| == |StreamBytes(a)| + |StreamBytes(b)|
  {
    hide Headed;
    StreamConcat(a, b);
  }

  /** Both scans read the same header. */
  lemma SameUnit(data: seq<Octet>, from: nat, pos: nat, end: nat, o: Obu, rest: seq<Obu>, e: End)
    requires from <= pos < end <= |data| && Holds(data, pos, end - pos, rest, e) && rest != []
    requires Headed(o) && InPlace(data, pos, o) && HeaderLength(o) <= end - from
    ensures Follows(rest[0]) == Follows(o)
  {
    hide Headed, WellFormed, Follows, ParseObu, ReadsInside, Holds, Announced, MemoryBytes, Looks, ByteAfterHeader,
         FollowsAt, UnitLength, HeaderLength, InPlace, Available;
    FirstInMemory(data, pos, end - pos, rest, e);
    UnitInMemory(data, pos, end - from, o);
    SameParse(data, pos, end - pos, end - from);
    FollowsIs(data, pos + HeaderLength(o), o);
    FollowsIs(data, pos + HeaderLength(rest[0]), rest[0]);
  }

  /** An accepted header stays what it is when more bytes may be read. */
  lemma SameParse(data: seq<Octet>, pos: nat, few: nat, more: nat)
    requires pos <= |data| && few <= more && ParseObu(Available(data, pos, few)).Parsed?
    ensures ParseObu(Available(data, pos, more)) == ParseObu(Available(data, pos, few))
  {
    hide ParseObu;
    var s, t := Available(data, pos, few), Available(data, pos, more);
    assert t == s + t[|s|..];
    ParseMonotone(s, t[|s|..]);
  }

  lemma FirstInMemory(data: seq<Octet>, pos: nat, size: nat, rest: seq<Obu>, e: End)
    requires Holds(data, pos, size, rest, e) && rest != []
    ensures pos <= |data| && Headed(rest[0])
    ensures ParseObu(Available(data, pos, size)) == Parsed(rest[0].header, Announced(rest[0]), HeaderLength(rest[0]))
    ensures var at := pos + HeaderLength(rest[0]);
      Looks(rest[0]) ==> at < |data| && data[at] == ByteAfterHeader(rest[0])
  {
    hide Headed, WellFormed, ParseObu, ReadsInside, Holds, Announced, Looks, ByteAfterHeader, UnitLength, HeaderLength;
    HoldsStream(data, pos, size, rest, e);
    SeenPrefix(rest, e, 0);
    NextInMemory(data, pos, size, rest, e, 0);
  }

  lemma EndsWithMore(data: seq<Octet>, from: nat, pos: nat, end: nat, acc: seq<Obu>, rest: seq<Obu>, e: End)
    requires UnitLength(acc, 0, false) == |acc| && HasVcl(acc) && rest != [] && !Follows(rest[0])
    requires Stream(acc) && Stream(rest) && Stream(acc + rest) && from <= pos <= end && pos - from == |StreamBytes(acc)|
    requires |StreamBytes(rest)| <= end - pos && |StreamBytes(acc + rest)| == |StreamBytes(acc)| + |StreamBytes(rest)|
    requires EndsWith(data, pos, end - pos, rest, e)
    ensures EndsWith(data, from, end - from, acc + rest, e)
  {
    hide Headed, Follows, HasVcl, UnitLength, StreamBytes, EndsSo, LastUnit;
    LastUnitBehind(acc, rest);
  }

  lemma LastUnitBehind(acc: seq<Obu>, rest: seq<Obu>)
    requires UnitLength(acc, 0, false) == |acc| && HasVcl(acc) && rest != [] && !Follows(rest[0])
    ensures LastUnit(acc + rest) == LastUnit(rest)
  {
    hide Follows, HasVcl, UnitLength, Closed, LastUnit;
    var all, n := acc + rest, |acc|;
    NoPicture();
    UnitTaken(acc);
    assert acc[..n] == acc && all[..n] == acc && all[n..] == rest;
    UnitTaken(all);
    assert IsFrameUnit(all, n);
    FrameUnitUnique(all, n, UnitLength(all, 0, false));
    LastUnitLater(all, n);
  }

  /** Units hold the memory exactly if it is readable. */
  lemma HeldIffReadable(data: seq<Octet>, start: nat, size: nat)
    requires start + size <= |data|
    ensures Readable(data, start, start, start + size, false)
      <==> exists obus, end :: Holds(data, start, size, obus, end)
  {
    hide Readable, Holds, HasVcl, Scanning, UnitLength;
    if Readable(data, start, start, start + size, false) {
      NewScan(data, start);
      var obus, end := ReadableIsHeld(data, start, start, start + size, []);
    }
    forall obus, end | Holds(data, start, size, obus, end)
      ensures Readable(data, start, start, start + size, false)
    {
      HoldsStream(data, start, size, obus, end);
      StartsHere(obus, end);
      HeldIsReadable(data, start, size, obus, end, 0);
    }
  }

  // ---- The scan ----

  /** The table shows the units' types by their own layers. */
  ghost predicate TableShows(present: array3<bool>, obus: seq<Obu>)
    reads present
  {
    && present.Length0 == 4 && present.Length1 == 8 && present.Length2 == NUM_OBU_TYPES
    && forall t, m, kind :: 0 <= t < 4 && 0 <= m < 8 && 0 <= kind < NUM_OBU_TYPES ==>
      present[t, m, kind] == Contains(obus, t, m, kind)
  }

  lemma ContainsMore(obus: seq<Obu>, o: Obu, t: nat, m: nat, kind: nat)
    ensures Contains(obus + [o], t, m, kind)
      <==> Contains(obus, t, m, kind) || (o.header.tlayer == t && o.header.mlayer == m && o.header.kind == kind)
  {
    var more := obus + [o];
    if Contains(obus, t, m, kind) {
      var i :| 0 <= i < |obus| && obus[i].header.tlayer == t && obus[i].header.mlayer == m
               && obus[i].header.kind == kind;
      assert more[i] == obus[i];
    }
    assert more[|obus|] == o;
  }

  predicate ResetBefore(obus: seq<Obu>, i: nat) {
    exists j :: 0 <= j < i && j < |obus| && ResetsLast(obus[j])
  }

  /** The scan's variables after i units, none of which ended the frame unit. */
  predicate Scanned(obus: seq<Obu>, i: nat, vclSeen: bool, layers: Layers, reset: bool) {
    && i <= |obus| && vclSeen == HasVcl(obus[..i]) && layers == LayersOf(obus[..i]) && reset == ResetBefore(obus, i)
    && (layers == NO_LAYERS <==> layers.m == -1)
    && UnitLength(obus, 0, false) == UnitLength(obus, i, vclSeen)
  }

  lemma ScanStart(obus: seq<Obu>)
    ensures Scanned(obus, 0, false, NO_LAYERS, false)
  {}

  lemma ScanStep(obus: seq<Obu>, i: nat, vclSeen: bool, layers: Layers, reset: bool)
    requires Scanned(obus, i, vclSeen, layers, reset) && i < |obus| && (vclSeen ==> Follows(obus[i]))
    ensures i < UnitLength(obus, 0, false)
    ensures var h := obus[i].header;
      Scanned(obus, i + 1, vclSeen || Vcl(obus[i]),
              if layers.m == -1 && Vcl(obus[i]) then Layers(h.xlayer, h.mlayer, h.tlayer) else layers,
              reset || ResetsLast(obus[i]))
  {
    hide Vcl, Follows, ResetsLast, HasVcl, LayersOf, ResetBefore;
    assert obus[..i + 1] == obus[..i] + [obus[i]];
    HasVclMore(obus[..i], obus[i]);
    ResetMore(obus, i);
  }

  lemma ResetMore(obus: seq<Obu>, i: nat)
    requires i < |obus|
    ensures ResetBefore(obus, i + 1) <==> ResetBefore(obus, i) || ResetsLast(obus[i])
  {}

  lemma HasVclMore(before: seq<Obu>, o: Obu)
    ensures HasVcl(before + [o]) <==> HasVcl(before) || Vcl(o)
    ensures LayersOf(before + [o])
         == if LayersOf(before) == NO_LAYERS && Vcl(o) then Layers(o.header.xlayer, o.header.mlayer, o.header.tlayer)
            else LayersOf(before)
  {
    hide Vcl;
    var more := before + [o];
    assert more[..|before|] == before;
    assert forall k :: 0 <= k < |before| ==> more[k] == before[k];
    assert more[|before|] == o;
  }

  lemma ScanStop(obus: seq<Obu>, i: nat, vclSeen: bool, layers: Layers, reset: bool)
    requires Scanned(obus, i, vclSeen, layers, reset) && (i < |obus| ==> vclSeen && !Follows(obus[i]))
    ensures UnitLength(obus, 0, false) == i && layers == LayersOf(obus[..i])
    ensures ResetSeen(obus, i) == (reset || (i < |obus| && ResetsLast(obus[i])))
  {
    hide Vcl, Follows, ResetsLast;
  }

  /** After all units that are seen, only the scan's end is left. */
  lemma ScanAtEnd(obus: seq<Obu>, i: nat, vclSeen: bool, layers: Layers, reset: bool)
    requires Scanned(obus, i, vclSeen, layers, reset) && i == |obus|
    ensures UnitLength(obus, 0, false) == i
  {}

  // ---- The table of a frame unit's types ----

  /** A place in the table: temporal layer, embedded layer, type. */
  datatype Cell = Cell(t: int, m: int, kind: int)

  predicate InTable(c: Cell) {
    0 <= c.t < MAX_NUM_TLAYERS && 0 <= c.m < MAX_NUM_MLAYERS && 0 <= c.kind < NUM_OBU_TYPES
  }

  /** Where in memory a cell is, counted in cells from the first. */
  function CellIndex(c: Cell): int {
    (c.t * MAX_NUM_MLAYERS + c.m) * NUM_OBU_TYPES + c.kind
  }

  /** The cell that the scan sets at a unit. */
  function CellOf(o: Obu): Cell {
    Cell(o.header.tlayer, o.header.mlayer, o.header.kind)
  }

  /** The cells that are looked up for a frame unit after the scan. */
  function LookedUp(unit: seq<Obu>): set<Cell> {
    var l := LayersOf(unit);
    {Cell(0, 0, SEQUENCE_HEADER), Cell(0, l.m, MULTI_FRAME_HEADER), Cell(l.t, l.m, CLK), Cell(l.t, l.m, OLK),
     Cell(l.t, l.m, LEADING_TILE_GROUP), Cell(l.t, l.m, LEADING_SEF), Cell(l.t, l.m, LEADING_TIP)}
  }

  /**
   The types looked up: 1 at layers 0, 3 at the embedded layer and temporal layer 0,
   the others at the unit's layers.
   */
  lemma LookedUpTypes(unit: seq<Obu>, c: Cell)
    ensures c in LookedUp(unit) <==>
      || (c.t == 0 && c.m == 0 && c.kind == 1)
      || (c.t == 0 && c.m == LayersOf(unit).m && c.kind == 3)
      || (c.t == LayersOf(unit).t && c.m == LayersOf(unit).m && c.kind in {4, 5, 6, 11, 13})
  {
    hide LayersOf;
  }

  predicate KnownKinds(obus: seq<Obu>) {
    forall i :: 0 <= i < |obus| ==> obus[i].header.kind < NUM_OBU_TYPES
  }

  /** The scans of the frame units stay in the table, as do the looks at it for those found whole. */
  predicate StaysInTable(obus: seq<Obu>, bad: bool) {
    && (forall i, j :: 0 <= i < |Split(obus)| && 0 <= j < |Split(obus)[i]| ==> InTable(CellOf(Split(obus)[i][j])))
    && (forall i, c :: 0 <= i < |Complete(obus, bad)| && c in LookedUp(Complete(obus, bad)[i]) ==> InTable(c))
  }

  /** They do exactly if all types are known and the last frame unit, if found whole, has picture data. */
  lemma StaysInTableIff(obus: seq<Obu>, bad: bool)
    requires Stream(obus)
    ensures StaysInTable(obus, bad)
      <==> KnownKinds(obus) && (obus == [] || bad || HasVcl(Split(obus)[|Split(obus)| - 1]))
  {
    hide Headed, Vcl, Follows, Split, Complete, LookedUp, LayersOf, HasVcl, Closed;
    var units, whole := Split(obus), Complete(obus, bad);
    SplitJoins(obus);
    CompleteIs(obus, bad);
    assert obus == [] <==> units == [] by {
      assert obus == [] ==> Split(obus) == [] by {
        NothingToSplit();
      }
      assert units == [] ==> Joined(units) == [];
    }
    KindsOfParts(units);
    forall i | 0 <= i < |whole|
      ensures (forall c :: c in LookedUp(whole[i]) ==> InTable(c)) <==> HasVcl(whole[i])
    {
      assert whole[i] == units[i];
      PartOfStream(units, i);
      LookedUpIff(whole[i]);
    }
    forall i, j | 0 <= i < |units| && 0 <= j < |units[i]|
      ensures InTable(CellOf(units[i][j])) <==> units[i][j].header.kind < NUM_OBU_TYPES
    {
      PartOfStream(units, i);
      LayersInRange(units[i][j]);
    }
    if obus != [] && !bad {
      assert HasVcl(units[|units| - 1]) ==> forall i :: 0 <= i < |whole| ==> HasVcl(whole[i]);
    }
  }

  lemma {:induction false} KindsOfParts(units: seq<seq<Obu>>)
    ensures KnownKinds(Joined(units))
      <==> forall i, j :: 0 <= i < |units| && 0 <= j < |units[i]| ==> units[i][j].header.kind < NUM_OBU_TYPES
  {
    if units != [] {
      KindsOfParts(units[1..]);
      var first, rest := units[0], Joined(units[1..]);
      assert Joined(units) == first + rest;
      assert forall i :: 0 <= i < |rest| ==> rest[i] == (first + rest)[|first| + i];
      assert forall i :: 0 <= i < |first| ==> first[i] == (first + rest)[i];
      assert forall i :: 1 <= i < |units| ==> units[i] == units[1..][i - 1];
    }
  }

  lemma {:induction false} PartOfStream(units: seq<seq<Obu>>, i: nat)
    requires i < |units| && Stream(Joined(units))
    ensures Stream(units[i])
  {
    hide Headed;
    StreamConcat(units[0], Joined(units[1..]));
    if i > 0 {
      PartOfStream(units[1..], i - 1);
    }
  }

  lemma LookedUpIff(unit: seq<Obu>)
    requires Stream(unit)
    ensures (forall c :: c in LookedUp(unit) ==> InTable(c)) <==> HasVcl(unit)
  {
    hide Headed, HasVcl, LayersOf, Vcl;
    LayersAreIndices(unit);
    LayersOfFirstVcl(unit);
    assert Cell(LayersOf(unit).t, LayersOf(unit).m, CLK) in LookedUp(unit);
  }

  /**
   The header reader accepts the six types behind the known ones. Such a unit sets
   a cell of the next layers, or of what follows the table in memory.
   */
  lemma ReservedKindHits(o: Obu)
    requires Headed(o) && o.header.kind >= NUM_OBU_TYPES
    ensures var t, m, kind := o.header.tlayer, o.header.mlayer, o.header.kind - NUM_OBU_TYPES;
      var hit := if m < 7 then Cell(t, m + 1, kind) else Cell(t + 1, 0, kind);
      && !InTable(CellOf(o)) && CellIndex(CellOf(o)) == CellIndex(hit)
      && (InTable(hit) <==> !(t == 3 && m == 7))
  {}

  /** It does: two bytes that make a frame unit of embedded layer 1 look like a key frame. */
  lemma ReservedKindIsRead()
    ensures ParseObu([1, 120]) == Parsed(Header(1, false, 30, 0, 0, 0), 0, 2)
    ensures CellIndex(Cell(0, 0, 30)) == CellIndex(Cell(0, 1, CLK))
  {
    assert FieldLength([1, 120], 0) == 1;
    assert [1, 120][..1] == [1];
    assert FieldValue([1][1..]) == 0;
  }

  /** A last frame unit without picture data, such as a lone delimiter, is looked up before the table. */
  lemma NoPictureData(o: Obu)
    requires Headed(o) && o.header.kind == TEMPORAL_DELIMITER
    ensures Complete([o], false) == [[o]] && LayersOf([o]) == Layers(-1, -1, -1)
    ensures Cell(-1, -1, CLK) in LookedUp([o]) && CellIndex(Cell(-1, -1, CLK)) == -230
    ensures !StaysInTable([o], false)
  {
    assert Closed([o]) && !HasVcl([o]);
    SplitAgain([o]);
    CompleteIs([o], false);
    StaysInTableIff([o], false);
    LayersOfFirstVcl([o]);
  }

  // ---- Dropping leading frames ----

  /** The frame unit has a unit of this kind in the layers of its picture data. */
  predicate Carries(unit: seq<Obu>, kind: nat) {
    var l := LayersOf(unit);
    l.t >= 0 && l.m >= 0 && Contains(unit, l.t, l.m, kind)
  }

  predicate HasKey(unit: seq<Obu>) {
    Carries(unit, CLK) || Carries(unit, OLK)
  }

  predicate IsLeading(unit: seq<Obu>) {
    Carries(unit, LEADING_TILE_GROUP) || Carries(unit, LEADING_SEF) || Carries(unit, LEADING_TIP)
  }

  /** The random access flag after a frame unit. */
  predicate AccessAfter(access: bool, unit: seq<Obu>) {
    if access && IsLeading(unit) then access
    else access && HasKey(unit) && !Carries(unit, CLK)
  }

  /** The types that make a frame unit leading or a key frame: those of its units in the layers of its picture data. */
  lemma LeadingTypes(unit: seq<Obu>)
    requires Stream(unit) && HasVcl(unit)
    ensures IsLeading(unit) <==> HasType(unit, {6, 11, 13})
    ensures HasKey(unit) <==> HasType(unit, {4, 5})
    ensures Carries(unit, CLK) <==> HasType(unit, {4})
  {
    hide Headed, Vcl, LayersOf, HasVcl;
    LayersAreIndices(unit);
    LayersOfFirstVcl(unit);
  }

  predicate HasType(unit: seq<Obu>, kinds: set<nat>) {
    exists i :: 0 <= i < |unit| && unit[i].header.kind in kinds
      && unit[i].header.tlayer == LayersOf(unit).t && unit[i].header.mlayer == LayersOf(unit).m
  }

  /** For a frame unit of one unit: what random access makes of it, by type. */
  lemma AccessTypes(o: Obu)
    requires Headed(o) && Vcl(o)
    ensures Kept(true, [[o]]) == if o.header.kind in {6, 11, 13} then [] else [[o]]
    ensures AccessAfter(true, [o]) <==> o.header.kind in {5, 6, 11, 13}
  {
    hide Headed, Vcl, IsLeading, HasKey, Carries;
    assert HasVcl([o]) by {
      assert Vcl([o][0]);
    }
    assert [o][..0] == [];
    LayersOfFirstVcl([o]);
    LeadingTypes([o]);
    assert LayersOf([o]) == Layers([o][0].header.xlayer, [o][0].header.mlayer, [o][0].header.tlayer);
    OneType(o, {6, 11, 13});
    OneType(o, {4, 5});
    OneType(o, {4});
    assert [[o]][1..] == [];
  }

  lemma OneType(o: Obu, kinds: set<nat>)
    requires LayersOf([o]).t == o.header.tlayer && LayersOf([o]).m == o.header.mlayer
    ensures HasType([o], kinds) <==> o.header.kind in kinds
  {
    assert [o][0] == o;
  }

  function Kept(access: bool, units: seq<seq<Obu>>): seq<seq<Obu>> {
    if units == [] then []
    else (if access && IsLeading(units[0]) then [] else [units[0]]) + Kept(AccessAfter(access, units[0]), units[1..])
  }

  function AccessAtEnd(access: bool, units: seq<seq<Obu>>): bool {
    if units == [] then access else AccessAtEnd(AccessAfter(access, units[0]), units[1..])
  }

  /** A frame unit that is decoded after random access and ends it: it carries a CLK or has no key frame. */
  predicate EndsAccess(unit: seq<Obu>) {
    !IsLeading(unit) && (Carries(unit, CLK) || !HasKey(unit))
  }

  predicate EndsWithin(units: seq<seq<Obu>>, n: nat) {
    exists j :: 0 <= j < n && j < |units| && EndsAccess(units[j])
  }

  lemma {:induction false} AccessLasts(access: bool, units: seq<seq<Obu>>)
    ensures AccessAtEnd(access, units) <==> access && !EndsWithin(units, |units|)
  {
    hide IsLeading, HasKey, Carries;
    if units != [] {
      AccessLasts(AccessAfter(access, units[0]), units[1..]);
      assert EndsWithin(units, |units|) <==> EndsAccess(units[0]) || EndsWithin(units[1..], |units| - 1) by {
        if EndsWithin(units, |units|) {
          var j :| 0 <= j < |units| && EndsAccess(units[j]);
          assert j > 0 ==> EndsAccess(units[1..][j - 1]);
        }
        if EndsWithin(units[1..], |units| - 1) {
          var j :| 0 <= j < |units| - 1 && EndsAccess(units[1..][j]);
          assert EndsAccess(units[j + 1]);
        }
      }
    }
  }

  lemma {:induction false} KeptSnoc(access: bool, units: seq<seq<Obu>>, unit: seq<Obu>)
    ensures Kept(access, units + [unit])
         == Kept(access, units) + if AccessAtEnd(access, units) && IsLeading(unit) then [] else [unit]
    decreases |units|
  {
    hide IsLeading, AccessAfter;
    if units == [] {
      assert units + [unit] == [unit];
      assert [unit][1..] == [];
    } else {
      assert (units + [unit])[1..] == units[1..] + [unit];
      KeptSnoc(AccessAfter(access, units[0]), units[1..], unit);
    }
  }

  /**
   After random access exactly the leading frame units before the first one that
   ends it are dropped; without it, or after that, none.
   */
  lemma {:induction false} DropsExactlyLeading(access: bool, units: seq<seq<Obu>>, n: nat)
    requires n < |units|
    ensures Kept(access, units[..n + 1])
         == Kept(access, units[..n]) + if access && IsLeading(units[n]) && !EndsWithin(units, n) then [] else [units[n]]
  {
    hide IsLeading, EndsAccess, Kept;
    assert units[..n + 1] == units[..n] + [units[n]];
    KeptSnoc(access, units[..n], units[n]);
    AccessLasts(access, units[..n]);
    assert EndsWithin(units, n) <==> EndsWithin(units[..n], n) by {
      if EndsWithin(units, n) {
        var j :| 0 <= j < n && j < |units| && EndsAccess(units[j]);
        assert EndsAccess(units[..n][j]);
      }
    }
  }

  /** The frame units that are found whole: the last one is not, if what comes after it cannot be parsed. */
  function Complete(obus: seq<Obu>, bad: bool): (units: seq<seq<Obu>>)
    decreases |obus|
  {
    if obus == [] then []
    else
      UnitTaken(obus);
      var n := UnitLength(obus, 0, false);
      if n == |obus| && bad then [] else [obus[..n]] + Complete(obus[n..], bad)
  }

  lemma {:induction false} CompleteIs(obus: seq<Obu>, bad: bool)
    ensures Complete(obus, bad) == if bad && obus != [] then Split(obus)[..|Split(obus)| - 1] else Split(obus)
    decreases |obus|
  {
    hide UnitLength;
    if obus != [] {
      var n := UnitLength(obus, 0, false);
      UnitTaken(obus);
      CompleteIs(obus[n..], bad);
      if n == |obus| {
        assert obus[n..] == [];
      }
    }
  }

  function UnitBytes(units: seq<seq<Obu>>): seq<seq<Octet>> {
    seq(|units|, i requires 0 <= i < |units| => if Stream(units[i]) then StreamBytes(units[i]) else [])
  }

  lemma BytesPositive(obus: seq<Obu>)
    requires Stream(obus) && obus != []
    ensures |StreamBytes(obus)| > 0
  {}

  lemma NoBytesNoUnits(rest: seq<Obu>)
    ensures rest == [] ==> StreamBytes(rest) == []
  {}

  /** The frame unit at the start of the remaining memory, if it is found whole, and what remains after it. */
  lemma NextUnit(data: seq<Octet>, start: nat, size: nat, rest: seq<Obu>, end: End)
    requires Holds(data, start, size, rest, end) && size > 0
    ensures start + size <= |data| && Stream(rest)
    ensures var n, bad := UnitLength(rest, 0, false), end.BadBytes?;
      if n == |rest| && bad then Complete(rest, bad) == []
      else
        && rest != [] && n <= |rest| && Complete(rest, bad) == [rest[..n]] + Complete(rest[n..], bad)
        && Complete(rest[n..], bad) == Complete(rest[n..], Later(end, n == |rest|).BadBytes?)
        && 0 < |FirstBytes(rest, n)| <= size && data[start..start + |FirstBytes(rest, n)|] == FirstBytes(rest, n)
        && Holds(data, start + |FirstBytes(rest, n)|, size - |FirstBytes(rest, n)|, rest[n..], Later(end, n == |rest|))
        && UnitBytes([rest[..n]]) == [FirstBytes(rest, n)]
        && (HasVcl(rest[..n]) ==> 0 <= LayersOf(rest[..n]).m < 8 && 0 <= LayersOf(rest[..n]).t < 4)
  {
    hide Headed, Bytes, HasVcl, LayersOf, Holds, StreamBytes, UnitLength, LastUnit, Stream, Complete;
    var n := UnitLength(rest, 0, false);
    HoldsStream(data, start, size, rest, end);
    NoBytesNoUnits(rest);
    CompleteStep(rest, end.BadBytes?, n);
    if rest == [] {
      NoPicture();
      NotLost(data, start, size, rest, end);
    } else if !(n == |rest| && end.BadBytes?) {
      UnitTaken(rest);
      HoldsRest(data, start, size, rest, end, n);
      UnitIsBytes(rest, n);
    }
  }

  lemma CompleteStep(rest: seq<Obu>, bad: bool, n: nat)
    requires n == UnitLength(rest, 0, false)
    ensures if rest == [] || (n == |rest| && bad) then Complete(rest, bad) == []
      else Complete(rest, bad) == [rest[..n]] + Complete(rest[n..], bad)
    ensures n == |rest| ==> Complete(rest[n..], false) == Complete(rest[n..], true)
  {
    hide UnitLength;
  }

  lemma UnitIsBytes(rest: seq<Obu>, n: nat)
    requires Stream(rest) && 0 < n <= |rest|
    ensures Stream(rest[..n]) && |FirstBytes(rest, n)| > 0 && UnitBytes([rest[..n]]) == [FirstBytes(rest, n)]
    ensures HasVcl(rest[..n]) ==> 0 <= LayersOf(rest[..n]).m < 8 && 0 <= LayersOf(rest[..n]).t < 4
  {
    hide Headed, Bytes, HasVcl, LayersOf;
    BytesPositive(rest[..n]);
    LayersAreIndices(rest[..n]);
  }

  lemma NotLost(data: seq<Octet>, start: nat, size: nat, obus: seq<Obu>, end: End)
    requires Holds(data, start, size, obus, end) && !HasVcl(LastUnit(obus))
    ensures !end.Lost?
  {}

  /** Memory without bytes holds no units. */
  lemma NothingLeft(data: seq<Octet>, start: nat, rest: seq<Obu>, end: End)
    requires Holds(data, start, 0, rest, end)
    ensures rest == [] && end.Fine?
  {
    hide EndsWith, InPlace, Headed;
    HoldsStream(data, start, 0, rest, end);
  }

  lemma {:induction false} LayersAreIndices(unit: seq<Obu>)
    requires Stream(unit)
    ensures HasVcl(unit) ==> 0 <= LayersOf(unit).m < 8 && 0 <= LayersOf(unit).t < 4
    ensures LayersOf(unit) == NO_LAYERS || (0 <= LayersOf(unit).m < 8 && 0 <= LayersOf(unit).t < 4)
  {
    hide WellFormed, Vcl;
    LayersOfFirstVcl(unit);
    if unit != [] {
      LayersAreIndices(unit[..|unit| - 1]);
      LayersInRange(unit[|unit| - 1]);
    }
  }

  lemma UnitBytesConcat(a: seq<seq<Obu>>, b: seq<seq<Obu>>)
    ensures UnitBytes(a + b) == UnitBytes(a) + UnitBytes(b)
  {}

  // ---- Data that is cut short ----

  /** A tile group of which the first byte is there, and all that is announced or more. */
  function TileGroup(announced: Octet): Obu
    requires 1 < announced < 128
  {
    Obu([announced], Header(1, false, REGULAR_TILE_GROUP, 0, 0, 0), [128], 0, 0)
  }

  /** A unit without payload whose header byte is outside the data. */
  function Outside(kind: nat): Obu {
    Obu([1], Header(1, false, kind, 0, 0, 0), [], 1, 0)
  }

  lemma TileGroupIs(o: Obu, announced: Octet)
    requires 1 < announced < 128 && o == TileGroup(announced)
    ensures Headed(o) && (WellFormed(o) <==> announced == 2) && Vcl(o) && HeaderLength(o) == 2
    ensures MemoryBytes(o) == Bytes(o) == [announced, 28, 128]
  {
    hide FieldValue, SizeField;
    OneByteField(announced, []);
  }

  lemma OutsideIs(o: Obu, kind: nat)
    requires kind < 32 && kind != OBU_MSDO && o == Outside(kind)
    ensures Headed(o) && HeaderLength(o) == 2 && MemoryBytes(o) == [1, 4 * kind] && Bytes(o) == [1]
  {
    hide FieldValue, SizeField;
    OneByteField(1, []);
  }

  /** A closed frame unit on its own. */
  lemma OneFrameUnit(unit: seq<Obu>)
    requires unit != [] && Closed(unit)
    ensures LastUnit(unit) == unit && Complete(unit, false) == [unit]
  {
    hide Closed, LastUnit;
    SplitAgain(unit);
    LastUnitIs(unit);
    CompleteIs(unit, false);
  }

  lemma OneIsClosed(o: Obu)
    ensures Closed([o]) && (Vcl(o) ==> HasVcl([o]))
  {
    hide Vcl, Follows;
    assert [o][0] == o;
  }

  lemma DelimiterIsFirst(o: Obu)
    requires o.header.kind == TEMPORAL_DELIMITER
    ensures !Follows(o) && !Vcl(o)
  {}

  /** A tile group that announces four bytes of payload, of which one is there, is a whole frame unit to the scan. */
  lemma CutShort(data: seq<Octet>, o: Obu)
    requires data == [5, 28, 128] && o == TileGroup(5)
    ensures Holds(data, 0, 3, [o], Fine) && !WellFormed(o) && Complete([o], false) == [[o]]
  {
    hide WellFormed, MemoryBytes, Bytes, Headed, HoldsUnits, LastUnit, Complete, Closed, Looks, StreamBytes;
    TileGroupIs(o, 5);
    assert data[0..3] == data;
    HoldsOne(data, 0, o);
    OneUnit(o);
    OneIsClosed(o);
    OneFrameUnit([o]);
  }

  /** A picture data unit of one byte that starts a frame, of any type. */
  function Picture(kind: nat): Obu {
    Obu([2], Header(1, false, kind, 0, 0, 0), [128], 0, 0)
  }

  lemma PictureIs(o: Obu, kind: nat)
    requires kind in {4, 5, 6, 7, 10, 11, 12, 13, 14, 19, 21} && o == Picture(kind)
    ensures WellFormed(o) && HeaderLength(o) == 2 && MemoryBytes(o) == Bytes(o) == [2, 4 * kind, 128] && StartsFrame(o)
  {
    hide FieldValue, SizeField;
    OneByteField(2, []);
  }

  /** Six bytes with two such units are two frame units, whatever the types. */
  lemma TwoPictures(data: seq<Octet>, x: nat, y: nat, a: Obu, b: Obu)
    requires x in {4, 5, 6, 7, 10, 11, 12, 13, 14, 19, 21} && y in {4, 5, 6, 7, 10, 11, 12, 13, 14, 19, 21}
    requires data == [2, 4 * x, 128, 2, 4 * y, 128] && a == Picture(x) && b == Picture(y)
    ensures Holds(data, 0, 6, [a, b], Fine) && Complete([a, b], false) == [[a], [b]]
    ensures Stream([a]) && |StreamBytes([a])| == 3 && LayersOf([a]) == Layers(0, 0, 0)
  {
    hide WellFormed, MemoryBytes, Bytes, Headed, HoldsUnits, StreamBytes, LastUnit, Complete, Split, StartsFrame, Vcl,
         HeaderLength, Looks, EndsWith, LayersOf;
    PictureIs(a, x);
    PictureIs(b, y);
    HeadedOf(a);
    HeadedOf(b);
    var first, second := [2, 4 * x, 128], [2, 4 * y, 128];
    assert data == first + second;
    assert data[0..3] == first && data[3..6] == second;
    HoldsOne(data, 0, a);
    HoldsOne(data, 3, b);
    OneUnit(a);
    OneUnit(b);
    HoldsUnitsJoin(data, 0, 3, [a], 3, [b], false);
    assert [a] + [b] == [a, b];
    TwoFrames(a, b);
    CompleteIs([a, b], false);
    EndsFineAfter(data, a, b);
    FollowingTypes(a);
    LayersOfOne(a);
  }

  lemma HeadedOf(o: Obu)
    requires WellFormed(o)
    ensures Headed(o)
  {}

  lemma LayersOfOne(o: Obu)
    requires Vcl(o)
    ensures LayersOf([o]) == Layers(o.header.xlayer, o.header.mlayer, o.header.tlayer)
  {
    hide Vcl;
    assert [o][..0] == [];
  }

  lemma EndsFineAfter(data: seq<Octet>, a: Obu, b: Obu)
    requires Headed(a) && Headed(b) && Split([a, b]) == [[a], [b]] && HeaderLength(b) <= |Bytes(b)|
    requires Stream([a, b]) && |StreamBytes([a, b])| == 6
    ensures EndsWith(data, 0, 6, [a, b], Fine)
  {
    hide Headed, StreamBytes, Bytes, Split, HeaderLength, LastUnit;
    LastUnitIs([a, b]);
    OneUnit(b);
  }

  /** Two units, of which the second has its header byte behind the four bytes of data. */
  lemma TwoUnits(data: seq<Octet>, kind: nat, a: Obu, b: Obu)
    requires kind < 32 && kind != OBU_MSDO && !IsVcl(kind) && kind != METADATA_SHORT && kind != METADATA_GROUP
    requires data == [2, 28, 128, 1, 4 * kind] && a == TileGroup(2) && b == Outside(kind)
    ensures HoldsUnits(data, 0, 4, [a, b], false) && Stream([a]) && Stream([a, b])
    ensures |StreamBytes([a])| == 3 && |StreamBytes([a, b])| == 4 && Vcl(a) && HeaderLength(b) == 2
  {
    hide WellFormed, MemoryBytes, Bytes, Headed, HoldsUnits, IsVcl, StreamBytes;
    TileGroupIs(a, 2);
    OutsideIs(b, kind);
    assert data[0..3] == [2, 28, 128] && data[3..5] == [1, 4 * kind] && data[3..4] == [1];
    HoldsOne(data, 0, a);
    HoldsOne(data, 3, b);
    OneUnit(a);
    OneUnit(b);
    HoldsUnitsJoin(data, 0, 3, [a], 1, [b], false);
    assert [a] + [b] == [a, b];
  }

  /** Padding whose header byte is behind the data is read from there and taken. */
  lemma HeaderBehindData(data: seq<Octet>, a: Obu, b: Obu)
    requires data == [2, 28, 128, 1, 100] && a == TileGroup(2) && b == Outside(PADDING)
    ensures Holds(data, 0, 4, [a, b], Fine) && Complete([a, b], false) == [[a, b]]
    ensures ParseObu(data[3..4]) == Bad
  {
    hide HoldsUnits, StreamBytes, Headed, LastUnit, Complete, HeaderLength;
    TwoUnits(data, PADDING, a, b);
    OneFrameUnit([a, b]);
    assert data[3..4] == [1];
  }

  /** A delimiter there ends the frame unit, and the next scan reports an error. */
  lemma DelimiterBehindData(data: seq<Octet>, a: Obu, b: Obu)
    requires data == [2, 28, 128, 1, 8] && a == TileGroup(2) && b == Outside(TEMPORAL_DELIMITER)
    ensures Holds(data, 0, 4, [a], Lost(b)) && Complete([a], false) == [[a]]
  {
    hide HoldsUnits, StreamBytes, Headed, LastUnit, Complete, HeaderLength, Closed, Vcl, HasVcl, Follows;
    TwoUnits(data, TEMPORAL_DELIMITER, a, b);
    assert [a] + [b] == [a, b];
    OneIsClosed(a);
    OneFrameUnit([a]);
    DelimiterIsFirst(b);
  }

  /** The decoder's view of a frame unit, the random access flag and the frame units decoded so far. */
  class UnitDecoder {
    const present: array3<bool>
    var numObus: nat
    var randomAccessed: bool
    var decoded: seq<seq<Octet>>

    constructor (randomAccessed: bool)
      ensures TableShows(present, []) && fresh(present)
      ensures this.randomAccessed == randomAccessed && decoded == []
    {
      present := new bool[4, 8, NUM_OBU_TYPES]((t, m, kind) => false);
      numObus := 0;
      this.randomAccessed := randomAccessed;
      decoded := [];
    }

    method Clear()
      requires present.Length0 == 4 && present.Length1 == 8 && present.Length2 == NUM_OBU_TYPES
      modifies this`numObus, present
      ensures TableShows(present, []) && numObus == 0
    {
      for t := 0 to 4
        invariant forall i, j, k :: 0 <= i < t && 0 <= j < 8 && 0 <= k < NUM_OBU_TYPES ==> !present[i, j, k]
      {
        for m := 0 to 8
          invariant forall i, j, k :: 0 <= i < t && 0 <= j < 8 && 0 <= k < NUM_OBU_TYPES ==> !present[i, j, k]
          invariant forall j, k :: 0 <= j < m && 0 <= k < NUM_OBU_TYPES ==> !present[t, j, k]
        {
          for kind := 0 to NUM_OBU_TYPES
            invariant forall i, j, k :: 0 <= i < t && 0 <= j < 8 && 0 <= k < NUM_OBU_TYPES ==> !present[i, j, k]
            invariant forall j, k :: 0 <= j < m && 0 <= k < NUM_OBU_TYPES ==> !present[t, j, k]
            invariant forall k :: 0 <= k < kind ==> !present[t, m, k]
          {
            present[t, m, kind] := false;
          }
        }
      }
      numObus := 0;
    }

    /** Record the presence of a unit by its own layers. */
    method Record(h: Header, ghost obus: seq<Obu>, ghost o: Obu)
      requires TableShows(present, obus) && o.header == h && ValidHeader(h) && h.kind < NUM_OBU_TYPES
      modifies this`numObus, present
      ensures TableShows(present, obus + [o]) && numObus == old(numObus) + 1
    {
      hide Contains;
      numObus := numObus + 1;
      present[h.tlayer, h.mlayer, h.kind] := true;
      forall t: nat, m: nat, kind: nat
        ensures Contains(obus + [o], t, m, kind)
          <==> Contains(obus, t, m, kind) || (h.tlayer == t && h.mlayer == m && h.kind == kind)
      {
        ContainsMore(obus, o, t, m, kind);
      }
    }

    /** check_frame_unit_data */
    method CheckFrameUnitData(data: array<Octet>, start: nat, size: nat, ghost obus: seq<Obu>, ghost end: End)
      returns (unitSize: nat, layers: Layers, resetLast: bool)
      requires present.Length0 == 4 && present.Length1 == 8 && present.Length2 == NUM_OBU_TYPES
      requires Holds(data[..], start, size, obus, end) && KnownKinds(obus[..UnitLength(obus, 0, false)])
      modifies this`numObus, present
      ensures var n := UnitLength(obus, 0, false);
        && unitSize == (if n == |obus| && end.BadBytes? then 0 else |FirstBytes(obus, n)|)
        && numObus == n && TableShows(present, obus[..n])
        && layers == LayersOf(obus[..n]) && resetLast == ResetSeen(Seen(obus, end), n)
    {
      hide Headed, WellFormed, Bytes, ParseObu, StreamBytes, UnitLength, ResetSeen, LayersOf, HasVcl, Contains,
           TableShows, Scanned, Follows, Vcl, ResetsLast, Available, ReadsInside, Announced, ByteAfterHeader, Looks,
           Holds, HeaderLength, Seen;
      Clear();
      var pos, first, vclFound := start, true, false;
      layers, resetLast := NO_LAYERS, false;
      ghost var i: nat := 0;
      ghost var seen := Seen(obus, end);
      ScanStart(seen);
      HoldsStream(data[..], start, size, obus, end);
      TakenAreUnits(data[..], start, size, obus, end);
      while pos < start + size
        invariant i <= |seen| && vclFound == !first
        invariant pos == start + |FirstBytes(seen, i)| || (i == |seen| && !end.BadBytes? && pos > start + size)
        invariant Scanned(seen, i, vclFound, layers, resetLast)
        invariant numObus == i && TableShows(present, seen[..i])
      {
        NextInMemory(data[..], start, size, obus, end, i);
        if i == |seen| {
          ScanAtEnd(seen, i, vclFound, layers, resetLast);
        }
        var p := ReadHeaderAndSize(data, pos, size);
        if p.Bad? {
          ScanStop(seen, i, vclFound, layers, resetLast);
          return 0, layers, resetLast;
        }
        ghost var o := seen[i];
        IsVclOf(seen, i);
        var h, payloadAt := p.header, pos + p.bytesRead;
        var isVcl := IsSingleTileVcl(h.kind) || IsMultiTileVcl(h.kind);
        if isVcl {
          var firstByte := data[payloadAt];
          var isFirstTile := if IsSingleTileVcl(h.kind) then true else firstByte / 128 == 1;
          PictureUnit(o, isFirstTile, firstByte);
          if isFirstTile && !first {
            ScanStop(seen, i, vclFound, layers, resetLast);
            return pos - start, layers, resetLast;
          }
          ScanStep(seen, i, vclFound, layers, resetLast);
          first := false;
          vclFound := true;
          if layers.m == -1 {
            layers := Layers(h.xlayer, h.mlayer, h.tlayer);
          }
        } else {
          var isTuHead := IsTuHead(h.kind, h.xlayer) && h.kind != TEMPORAL_DELIMITER;
          ghost var reset := resetLast;
          OtherUnit(o, isTuHead);
          resetLast := resetLast || isTuHead;
          var isSuffixOrPadding := false;
          if h.kind == TEMPORAL_DELIMITER && vclFound {
            ScanStop(seen, i, vclFound, layers, reset);
            return pos - start, layers, resetLast;
          }
          if !first {
            if h.kind == PADDING {
              isSuffixOrPadding := true;
            }
            if (h.kind == METADATA_SHORT || h.kind == METADATA_GROUP) && p.payloadSize > 0 {
              var firstPayloadByte := data[payloadAt];
              if firstPayloadByte / 128 == 1 {
                isSuffixOrPadding := true;
              }
            }
            if !isSuffixOrPadding {
              ScanStop(seen, i, vclFound, layers, reset);
              return pos - start, layers, resetLast;
            }
          }
          ScanStep(seen, i, vclFound, layers, reset);
        }
        assert seen[..UnitLength(seen, 0, false)][i] == o;
        Record(h, seen[..i], o);
        assert seen[..i + 1] == seen[..i] + [o];
        pos := pos + p.bytesRead + p.payloadSize;
        i := i + 1;
      }
      NextInMemory(data[..], start, size, obus, end, i);
      ScanStop(seen, i, vclFound, layers, resetLast);
      return size, layers, resetLast;
    }

    /** decoder_decode, with a decoding step that succeeds, takes the whole frame unit and leaves the flag alone. */
    method Decode(data: array<Octet>, start: nat, size: nat, ghost obus: seq<Obu>, ghost end: End) returns (ok: bool)
      requires present.Length0 == 4 && present.Length1 == 8 && present.Length2 == NUM_OBU_TYPES
      requires Holds(data[..], start, size, obus, end) && StaysInTable(obus, end.BadBytes?)
      modifies this, present
      ensures ok == end.Fine?
      ensures decoded == old(decoded) + UnitBytes(Kept(old(randomAccessed), Complete(obus, end.BadBytes?)))
      ensures randomAccessed == AccessAtEnd(old(randomAccessed), Complete(obus, end.BadBytes?))
    {
      hide Holds, UnitLength, ResetSeen, LayersOf, HasVcl, TableShows, Complete, Kept, UnitBytes, AccessAtEnd,
           IsLeading, HasKey, Carries, StaysInTable, KnownKinds, FirstBytes, StreamBytes, Stream;
      HoldsStream(data[..], start, size, obus, end);
      StaysInTableMeans(obus, end.BadBytes?);
      var dataStart, dataEnd := start, start + size;
      ghost var rest, left := obus, end;
      while dataStart < dataEnd
        invariant dataStart <= dataEnd && left.Fine? == end.Fine?
          && Holds(data[..], dataStart, dataEnd - dataStart, rest, left)
        invariant KnownKinds(rest) && AllHaveVcl(Complete(rest, left.BadBytes?))
        invariant decoded + UnitBytes(Kept(randomAccessed, Complete(rest, left.BadBytes?)))
               == old(decoded) + UnitBytes(Kept(old(randomAccessed), Complete(obus, end.BadBytes?)))
        invariant AccessAtEnd(randomAccessed, Complete(rest, left.BadBytes?))
          == AccessAtEnd(old(randomAccessed), Complete(obus, end.BadBytes?))
      {
        NextUnit(data[..], dataStart, dataEnd - dataStart, rest, left);
        ghost var n := UnitLength(rest, 0, false);
        KindsOfRest(rest, n);
        var unitSize, layers, resetLast := CheckFrameUnitData(data, dataStart, dataEnd - dataStart, rest, left);
        if unitSize == 0 {
          NoUnits(randomAccessed, rest, left.BadBytes?);
          return false;
        }
        ghost var unit, later, access := rest[..n], Complete(rest[n..], left.BadBytes?), randomAccessed;
        assert Complete(rest, left.BadBytes?)[0] == unit && Complete(rest, left.BadBytes?)[1..] == later;
        KeptCons(access, unit, later);
        rest, left := rest[n..], Later(left, n == |rest|);
        var t, m := layers.t, layers.m;
        var hasKey := present[t, m, CLK] || present[t, m, OLK];
        var hasLeading := present[t, m, LEADING_TILE_GROUP] || present[t, m, LEADING_SEF] || present[t, m, LEADING_TIP];
        FlagsOf(present, unit, layers);
        if randomAccessed && hasLeading {
          dataStart := dataStart + unitSize;
          continue;
        } else if (randomAccessed && !hasKey) || present[t, m, CLK] {
          randomAccessed := false;
        }
        decoded := decoded + [data[dataStart..dataStart + unitSize]];
        dataStart := dataStart + unitSize;
        numObus := 0;
      }
      NothingLeft(data[..], dataStart, rest, left);
      NoUnits(randomAccessed, rest, left.BadBytes?);
      ok := true;
    }
  }

  lemma KindsOfRest(rest: seq<Obu>, n: nat)
    requires KnownKinds(rest) && n <= |rest|
    ensures KnownKinds(rest[..n]) && KnownKinds(rest[n..])
  {}

  /** What the scan takes are units of the data. */
  lemma TakenAreUnits(data: seq<Octet>, start: nat, size: nat, obus: seq<Obu>, end: End)
    requires Holds(data, start, size, obus, end)
    ensures var n, seen := UnitLength(obus, 0, false), Seen(obus, end);
      && n == UnitLength(seen, 0, false) && n <= |obus| && Stream(seen) && Stream(obus)
      && obus[..n] == seen[..n] && FirstBytes(obus, n) == FirstBytes(seen, n) && (end.BadBytes? ==> seen == obus)
  {
    hide UnitLength, HoldsUnits, HasVcl, Follows, LastUnit, Headed, FirstBytes;
    HoldsStream(data, start, size, obus, end);
    if end.Lost? {
      LostIsNotTaken(obus, end.o);
    }
    SeenPrefix(obus, end, UnitLength(obus, 0, false));
  }

  lemma NoUnits(access: bool, rest: seq<Obu>, bad: bool)
    ensures Kept(access, []) == [] && UnitBytes([]) == [] && AccessAtEnd(access, []) == access
    ensures rest == [] ==> Complete(rest, bad) == []
  {}

  lemma KeptCons(access: bool, unit: seq<Obu>, later: seq<seq<Obu>>)
    ensures AccessAtEnd(access, [unit] + later) == AccessAtEnd(AccessAfter(access, unit), later)
    ensures UnitBytes(Kept(access, [unit] + later))
         == (if access && IsLeading(unit) then [] else UnitBytes([unit]))
            + UnitBytes(Kept(AccessAfter(access, unit), later))
  {
    hide IsLeading, AccessAfter, UnitBytes;
    assert ([unit] + later)[1..] == later;
    assert access && IsLeading(unit) ==> Kept(access, [unit] + later) == Kept(AccessAfter(access, unit), later);
    UnitBytesConcat([unit], Kept(AccessAfter(access, unit), later));
  }

  /** The table gives the frame unit's flags. */
  lemma FlagsOf(present: array3<bool>, unit: seq<Obu>, layers: Layers)
    requires TableShows(present, unit) && layers == LayersOf(unit) && 0 <= layers.t < 4 && 0 <= layers.m < 8
    ensures Carries(unit, CLK) == present[layers.t, layers.m, CLK]
    ensures HasKey(unit) == (present[layers.t, layers.m, CLK] || present[layers.t, layers.m, OLK])
    ensures IsLeading(unit)
      == (|| present[layers.t, layers.m, LEADING_TILE_GROUP] || present[layers.t, layers.m, LEADING_SEF]
          || present[layers.t, layers.m, LEADING_TIP])
  {}

  predicate AllHaveVcl(units: seq<seq<Obu>>) {
    forall i :: 0 <= i < |units| ==> HasVcl(units[i])
  }

  lemma StaysInTableMeans(obus: seq<Obu>, bad: bool)
    requires Stream(obus) && StaysInTable(obus, bad)
    ensures KnownKinds(obus) && AllHaveVcl(Complete(obus, bad))
  {
    hide Headed, Vcl, Follows, Split, Complete, HasVcl, Closed, StaysInTable;
    StaysInTableIff(obus, bad);
    SplitJoins(obus);
    CompleteIs(obus, bad);
    NothingToSplit();
  }

  lemma IsVclOf(obus: seq<Obu>, i: nat)
    requires Stream(obus) && i < |obus|
    ensures Headed(obus[i]) && ValidHeader(obus[i].header)
    ensures Vcl(obus[i]) ==> Looks(obus[i])
    ensures Vcl(obus[i]) <==> IsSingleTileVcl(obus[i].header.kind) || IsMultiTileVcl(obus[i].header.kind)
  {}

  /** The decisions of the scan about picture data. */
  lemma PictureUnit(o: Obu, isFirstTile: bool, b: Octet)
    requires Vcl(o) && b == ByteAfterHeader(o)
    requires isFirstTile == if IsSingleTileVcl(o.header.kind) then true else b / 128 == 1
    ensures Follows(o) == !isFirstTile && !ResetsLast(o)
  {}

  /** The decisions of the scan about other units. */
  lemma OtherUnit(o: Obu, isTuHead: bool)
    requires !Vcl(o) && isTuHead == (IsTuHead(o.header.kind, o.header.xlayer) && o.header.kind != TEMPORAL_DELIMITER)
    ensures Follows(o) == (o.header.kind == PADDING || SuffixMetadata(o)) && ResetsLast(o) == isTuHead
    ensures SuffixMetadata(o) == (Metadata(o) && Announced(o) > 0 && ByteAfterHeader(o) >= 128)
    ensures Metadata(o) && Announced(o) > 0 ==> Looks(o)
  {}
}
