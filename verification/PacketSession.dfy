/**
 Encoder and decoder over any number of calls: what the decoder takes out of the
 packets is what the compressor's frames put into them.
 */
module PacketSession {
  import opened RangeEncoder
  import opened ObuHeaders
  import opened FrameUnits
  import opened PacketAssembly

  predicate LegalCalls(calls: seq<seq<Frame>>, addSef: bool) {
    forall i :: 0 <= i < |calls| ==> LegalFrames(calls[i], addSef)
  }

  /** Call by call, the frames taken fit the buffer and are frame units of their own. */
  ghost predicate Fits(c: Call, calls: seq<seq<Frame>>)
    requires LegalCalls(calls, c.addSef)
    decreases calls
  {
    calls != [] ==>
      var now := c.(frames := calls[0]);
      Space(now) && SeparateFrames(calls[0], c.signalTd, c.addSef) && Fits(NextCall(now, []), calls[1..])
  }

  /** The frames taken by all calls. */
  ghost function Taken(c: Call, calls: seq<seq<Frame>>): (frames: seq<Frame>)
    requires LegalCalls(calls, c.addSef)
    ensures LegalFrames(frames, c.addSef)
    decreases calls
  {
    if calls == [] then []
    else
      var now := c.(frames := calls[0]);
      TakenBy(now) + Taken(NextCall(now, []), calls[1..])
  }

  lemma {:induction false} KeptConcat(access: bool, a: seq<seq<Obu>>, b: seq<seq<Obu>>)
    ensures Kept(access, a + b) == Kept(access, a) + Kept(AccessAtEnd(access, a), b)
    ensures AccessAtEnd(access, a + b) == AccessAtEnd(AccessAtEnd(access, a), b)
    decreases a
  {
    hide IsLeading, AccessAfter, Kept, AccessAtEnd;
    if a == [] {
      assert a + b == b;
      KeptNothing(access);
    } else {
      assert (a + b)[1..] == a[1..] + b;
      KeptFirst(access, a);
      KeptFirst(access, a + b);
      KeptConcat(AccessAfter(access, a[0]), a[1..], b);
    }
  }

  lemma KeptNothing(access: bool)
    ensures Kept(access, []) == [] && AccessAtEnd(access, []) == access
  {}

  lemma KeptFirst(access: bool, units: seq<seq<Obu>>)
    requires units != []
    ensures var first, after := units[0], AccessAfter(access, units[0]);
      && Kept(access, units) == (if access && IsLeading(first) then [] else [first]) + Kept(after, units[1..])
      && AccessAtEnd(access, units) == AccessAtEnd(after, units[1..])
  {}

  lemma {:induction false} FrameUnitsConcat(a: seq<Frame>, b: seq<Frame>, signalTd: bool, addSef: bool)
    requires LegalFrames(a, addSef) && LegalFrames(b, addSef)
    ensures LegalFrames(a + b, addSef)
    ensures FrameUnitsOf(a + b, signalTd, addSef)
      == FrameUnitsOf(a, signalTd, addSef) + FrameUnitsOf(b, signalTd, addSef)
    decreases |b|
  {
    hide LegalUnits, UnitsOf;
    if b == [] {
      assert a + b == a;
    } else {
      var n := |b| - 1;
      assert (a + b)[..|a + b| - 1] == a + b[..n] && (a + b)[|a + b| - 1] == b[n];
      FrameUnitsConcat(a, b[..n], signalTd, addSef);
    }
  }

  /** Where a session is: what was pending at first and what was taken is what is sent and what is pending. */
  ghost predicate Delivered(first: seq<seq<Obu>>, taken: seq<seq<Obu>>, sent: seq<seq<Obu>>, pending: seq<seq<Obu>>,
                            decoded0: seq<seq<Octet>>, access0: bool, decoded: seq<seq<Octet>>, access: bool)
  {
    && sent + pending == first + taken
    && decoded == decoded0 + UnitBytes(Kept(access0, sent)) && access == AccessAtEnd(access0, sent)
  }

  lemma DeliveredNothing(first: seq<seq<Obu>>, decoded: seq<seq<Octet>>, access: bool, signalTd: bool, addSef: bool)
    ensures LegalFrames([], addSef)
    ensures Delivered(first, FrameUnitsOf([], signalTd, addSef), [], first, decoded, access, decoded, access)
  {}

  /** One more call. */
  lemma DeliveredMore(first: seq<seq<Obu>>, taken: seq<seq<Obu>>, sent: seq<seq<Obu>>, pending: seq<seq<Obu>>,
                      decoded0: seq<seq<Octet>>, access0: bool, decoded: seq<seq<Octet>>, access: bool,
                      now: seq<seq<Obu>>)
    requires Delivered(first, taken, sent, pending, decoded0, access0, decoded, access)
    ensures Delivered(first, taken + now, sent, pending + now, decoded0, access0, decoded, access)
    ensures Delivered(first, taken + now, sent + (pending + now), [], decoded0, access0,
                      decoded + UnitBytes(Kept(access, pending + now)), AccessAtEnd(access, pending + now))
  {
    hide Kept, UnitBytes, AccessAtEnd;
    var all := pending + now;
    KeptConcat(access0, sent, all);
    UnitBytesConcat(Kept(access0, sent), Kept(access, all));
    assert sent + (pending + now) == (sent + pending) + now == first + (taken + now);
    assert (sent + all) + [] == sent + all;
  }

  /** The calls still to come. */
  ghost predicate Remaining(c0: Call, calls: seq<seq<Frame>>, taken: seq<Frame>, c: Call, i: nat) {
    && c.addSef == c0.addSef && c.signalTd == c0.signalTd && i <= |calls| && LegalCalls(calls, c0.addSef)
    && LegalFrames(taken, c0.addSef) && LegalCalls(calls[i..], c0.addSef) && Fits(c, calls[i..])
    && Taken(c0, calls) == taken + Taken(c, calls[i..])
  }

  lemma RemainingStart(c: Call, calls: seq<seq<Frame>>)
    requires LegalCalls(calls, c.addSef) && Fits(c, calls)
    ensures Remaining(c, calls, [], c, 0)
  {
    hide LegalFrame, Fits, Taken;
    assert calls[0..] == calls;
    assert [] + Taken(c, calls) == Taken(c, calls);
  }

  lemma RemainingStep(c0: Call, calls: seq<seq<Frame>>, taken: seq<Frame>, c: Call, i: nat)
    requires Remaining(c0, calls, taken, c, i) && i < |calls|
    ensures var now := c.(frames := calls[i]);
      && LegalFrames(calls[i], c0.addSef) && Space(now) && SeparateFrames(calls[i], c0.signalTd, c0.addSef)
      && LegalFrames(TakenBy(now), c0.addSef)
      && Remaining(c0, calls, taken + TakenBy(now), NextCall(now, []), i + 1)
  {
    hide LegalFrames, SeparateFrames, TakenBy, Space;
    assert calls[i..][0] == calls[i] && calls[i..][1..] == calls[i + 1..];
    var now := c.(frames := calls[i]);
    NextIsAlike(now);
    assert taken + (TakenBy(now) + Taken(NextCall(now, []), calls[i + 1..]))
        == (taken + TakenBy(now)) + Taken(NextCall(now, []), calls[i + 1..]);
    LegalMore(taken, TakenBy(now), c0.addSef);
  }

  lemma NextIsAlike(c: Call)
    requires LegalFrames(c.frames, c.addSef)
    ensures LegalFrames(TakenBy(c), c.addSef)
    ensures NextCall(c, []).addSef == c.addSef && NextCall(c, []).signalTd == c.signalTd
  {}

  lemma LegalMore(a: seq<Frame>, b: seq<Frame>, addSef: bool)
    requires LegalFrames(a, addSef) && LegalFrames(b, addSef)
    ensures LegalFrames(a + b, addSef)
  {}

  lemma RemainingNone(c0: Call, calls: seq<seq<Frame>>, taken: seq<Frame>, c: Call, i: nat)
    requires Remaining(c0, calls, taken, c, i) && i == |calls|
    ensures Taken(c0, calls) == taken
  {
    assert calls[i..] == [];
  }

  /**
   Over any calls: the frame units sent, followed by those pending, are those pending at
   first followed by the frames taken, and the decoder decodes exactly the kept ones of
   those sent, in order.
   */
  method Session(assembler: PacketAssembler, decoder: UnitDecoder, calls: seq<seq<Frame>>)
    returns (accepted: bool, ghost sent: seq<seq<Obu>>)
    requires assembler.Valid() && Packable(assembler.held) && Ended(assembler.held)
    requires LegalCalls(calls, assembler.addSef) && Fits(assembler.CallWith([]), calls)
    requires decoder.present.Length0 == 4 && decoder.present.Length1 == 8 && decoder.present.Length2 == NUM_OBU_TYPES
    modifies assembler, assembler.cxData, decoder, decoder.present
    ensures assembler.Valid() && Packable(assembler.held) && Ended(assembler.held) && accepted
    ensures var taken := Taken(old(assembler.CallWith([])), calls);
      sent + Split(assembler.held)
        == Split(old(assembler.held)) + FrameUnitsOf(taken, assembler.signalTd, assembler.addSef)
    ensures decoder.decoded == old(decoder.decoded) + UnitBytes(Kept(old(decoder.randomAccessed), sent))
    ensures decoder.randomAccessed == AccessAtEnd(old(decoder.randomAccessed), sent)
  {
    hide Packable, Split, Kept, UnitBytes, FrameUnitsOf, AccessAtEnd, Ended, Space, NextCall, TakenBy, Shows,
         LegalFrames, SeparateFrames, LegalCalls, Fits, Taken, Remaining, Delivered;
    accepted, sent := true, [];
    ghost var c0, taken := assembler.CallWith([]), [];
    ghost var first, signalTd, addSef := Split(assembler.held), assembler.signalTd, assembler.addSef;
    RemainingStart(c0, calls);
    DeliveredNothing(first, decoder.decoded, decoder.randomAccessed, signalTd, addSef);
    for i := 0 to |calls|
      invariant assembler.Valid() && Packable(assembler.held) && Ended(assembler.held) && accepted
      invariant Remaining(c0, calls, taken, assembler.CallWith([]), i) && LegalFrames(taken, addSef)
      invariant Delivered(first, FrameUnitsOf(taken, signalTd, addSef), sent, Split(assembler.held),
                          old(decoder.decoded), old(decoder.randomAccessed), decoder.decoded, decoder.randomAccessed)
    {
      ghost var c, pending := assembler.CallWith(calls[i]), Split(assembler.held);
      RemainingStep(c0, calls, taken, assembler.CallWith([]), i);
      ghost var now := FrameUnitsOf(TakenBy(c), signalTd, addSef);
      DeliveredMore(first, FrameUnitsOf(taken, signalTd, addSef), sent, pending, old(decoder.decoded),
                    old(decoder.randomAccessed), decoder.decoded, decoder.randomAccessed, now);
      FrameUnitsConcat(taken, TakenBy(c), signalTd, addSef);
      accepted := Deliver(assembler, decoder, calls[i]);
      taken := taken + TakenBy(c);
      if Shows(c) {
        NothingToSplit();
        sent := sent + (pending + now);
      }
    }
    RemainingNone(c0, calls, taken, assembler.CallWith([]), |calls|);
    DeliveredIs(first, FrameUnitsOf(taken, signalTd, addSef), sent, Split(assembler.held), old(decoder.decoded),
                old(decoder.randomAccessed), decoder.decoded, decoder.randomAccessed);
  }

  lemma DeliveredIs(first: seq<seq<Obu>>, taken: seq<seq<Obu>>, sent: seq<seq<Obu>>, pending: seq<seq<Obu>>,
                    decoded0: seq<seq<Octet>>, access0: bool, decoded: seq<seq<Octet>>, access: bool)
    requires Delivered(first, taken, sent, pending, decoded0, access0, decoded, access)
    ensures sent + pending == first + taken
    ensures decoded == decoded0 + UnitBytes(Kept(access0, sent)) && access == AccessAtEnd(access0, sent)
  {}
}
