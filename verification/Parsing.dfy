/** What a read of a code word returns, on any buffer. */
module Parsing {
  import opened BitString

  /** The reports a reader makes to its error handler. */
  datatype ReadError =
    | TruncatedPacket
    | VlcTooLong
    | RiceTooLong
    | UlebNotAligned
    | UlebTooLarge
    | UlebTooLong

  /**
   value: what is returned; used: the bits asked for, whether or not the buffer
   still had them; faults: the reports beyond those of truncation.
   */
  datatype Parsed = Parsed(value: int, used: nat, faults: seq<ReadError>)

  function Clean(value: int, used: nat): Parsed {
    Parsed(value, used, [])
  }

  /** The buffer shows the word at pos (bits past the end read as zero). */
  predicate Shows(s: Bits, pos: nat, word: Bits) {
    Window(s, pos, |word|) == word
  }

  lemma ShowsSplit(s: Bits, pos: nat, u: Bits, w: Bits)
    ensures Shows(s, pos, u + w) <==> Shows(s, pos, u) && Shows(s, pos + |u|, w)
  {
    WindowSplit(s, pos, |u|, |w|);
    var x, y := Window(s, pos, |u|), Window(s, pos + |u|, |w|);
    assert Window(s, pos, |u + w|) == x + y;
    if x + y == u + w {
      assert x == (x + y)[..|u|] == (u + w)[..|u|] == u;
      assert y == (x + y)[|u|..] == (u + w)[|u|..] == w;
    }
  }

  lemma ShowsBit(s: Bits, pos: nat, b: bool)
    ensures Shows(s, pos, [b]) <==> Peek(s, pos) == b
  {
    assert Window(s, pos, 1)[0] == Peek(s, pos + 0);
  }

  /** A flag bit followed by a word. */
  lemma ShowsFlag(s: Bits, pos: nat, b: bool, w: Bits)
    ensures Shows(s, pos, [b] + w) <==> Peek(s, pos) == b && Shows(s, pos + 1, w)
  {
    ShowsSplit(s, pos, [b], w);
    ShowsBit(s, pos, b);
  }

  // ---- The position of a reader that cannot pass the end ----

  function Clamp(s: Bits, pos: nat): nat {
    if pos < |s| then pos else |s|
  }

  function Truncations(n: nat): seq<ReadError> {
    seq(n, _ => TruncatedPacket)
  }

  /** Asking for used bits at off moves to the next bit or the end; each missing bit is reported. */
  ghost predicate Advanced(s: Bits, off: nat, errs: seq<ReadError>, off': nat, errs': seq<ReadError>, used: nat,
                           faults: seq<ReadError>)
  {
    && off' == Clamp(s, off + used)
    && errs' == errs + Truncations(off + used - off') + faults
  }

  lemma AdvancedNothing(s: Bits, off: nat, errs: seq<ReadError>)
    requires off <= |s|
    ensures Advanced(s, off, errs, off, errs, 0, [])
  {}

  lemma AdvancedMore(s: Bits, off: nat, errs: seq<ReadError>, off': nat, errs': seq<ReadError>, used: nat,
                     off'': nat, errs'': seq<ReadError>, used': nat, faults: seq<ReadError>)
    requires off <= |s|
    requires Advanced(s, off, errs, off', errs', used, [])
    requires Advanced(s, off', errs', off'', errs'', used', faults)
    ensures Advanced(s, off, errs, off'', errs'', used + used', faults)
  {}

  /** A fault reported after the bits were read. */
  lemma AdvancedFault(s: Bits, off: nat, errs: seq<ReadError>, off': nat, errs': seq<ReadError>, used: nat,
                      e: ReadError)
    requires Advanced(s, off, errs, off', errs', used, [])
    ensures Advanced(s, off, errs, off', errs' + [e], used, [e])
  {}

  lemma PeekClamp(s: Bits, pos: nat)
    ensures Peek(s, Clamp(s, pos)) == Peek(s, pos)
  {}

  lemma WindowClamp(s: Bits, pos: nat, n: nat)
    ensures Window(s, Clamp(s, pos), n) == Window(s, pos, n)
  {}

  /** No read moves back or past the end, and reports are only added; a clean read that had its bits adds none. */
  lemma AdvancedBounds(s: Bits, off: nat, errs: seq<ReadError>, off': nat, errs': seq<ReadError>, used: nat,
                       faults: seq<ReadError>)
    requires off <= |s| && Advanced(s, off, errs, off', errs', used, faults)
    ensures off <= off' <= |s| && errs <= errs'
    ensures off + used <= |s| ==> off' == off + used && errs' == errs + faults
    ensures off + used > |s| ==> off' == |s| && TruncatedPacket in errs'[|errs|..]
    ensures TruncatedPacket !in faults ==> (TruncatedPacket in errs'[|errs|..] <==> off + used > |s|)
  {
    if off + used > |s| {
      assert errs'[|errs|] == Truncations(off + used - off')[0];
    }
  }
}
