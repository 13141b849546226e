/** Runs on the heap: the writer and the reader classes, with one array of numbers for each context. */
module CodingSession {
  import opened Powers
  import opened BitString
  import opened Recenter
  import opened Quniform
  import opened Subexp
  import opened Cdf
  import opened RangeInterval
  import opened RangeEncoder
  import opened RangeDecoder
  import opened SymbolCoding
  import opened CodingRun

  predicate Distinct(arrays: seq<array<nat>>) {
    forall i, j :: 0 <= i < j < |arrays| ==> arrays[i] != arrays[j]
  }

  /** The tables the arrays hold now. */
  ghost function Contents(arrays: seq<array<nat>>, sizes: seq<nat>): (tables: seq<Table>)
    reads arrays
    requires |arrays| == |sizes|
    ensures |tables| == |arrays|
  {
    seq(|arrays|, i requires 0 <= i < |arrays| reads arrays => Table(arrays[i][..], sizes[i]))
  }

  ghost function WriterState(w: SymbolWriter, arrays: seq<array<nat>>, sizes: seq<nat>): Coder
    reads w, w.enc, w.enc.precarry, arrays
    requires |arrays| == |sizes| && w.Valid()
  {
    Coder(w.enc.View(), Contents(arrays, sizes))
  }

  ghost function ReaderState(r: SymbolReader, arrays: seq<array<nat>>, sizes: seq<nat>): Coder
    reads r, r.dec, arrays
    requires |arrays| == |sizes|
  {
    Coder(r.dec.iv, Contents(arrays, sizes))
  }

  ghost predicate WriterReady(w: SymbolWriter, arrays: seq<array<nat>>, sizes: seq<nat>)
    reads w, w.enc, w.enc.precarry, arrays
  {
    && |arrays| == |sizes| && Distinct(arrays) && w.enc.precarry !in arrays
    && w.Valid() && ValidCoder(WriterState(w, arrays, sizes))
  }

  ghost predicate ReaderReady(r: SymbolReader, arrays: seq<array<nat>>, sizes: seq<nat>)
    reads r, r.dec, r.dec.buf, arrays
  {
    && |arrays| == |sizes| && Distinct(arrays)
    && r.Valid() && ValidCoder(ReaderState(r, arrays, sizes))
  }

  /** Where one array changed, one table did. */
  lemma OneTable(before: seq<Table>, after: seq<Table>, ctx: nat)
    requires |after| == |before| && ctx < |before|
    requires forall i :: 0 <= i < |before| && i != ctx ==> after[i] == before[i]
    ensures after == before[ctx := after[ctx]]
  {}

  /** Values coded as raw bits leave every table alone. */
  method WriteRawItem(w: SymbolWriter, arrays: seq<array<nat>>, sizes: seq<nat>, item: Item)
    requires WriterReady(w, arrays, sizes) && Legal(item, Contents(arrays, sizes))
    requires item.req.Raw? || item.req.Quasi? || item.req.RefSub?
    modifies w`frameSymbolCount, w.enc, w.enc.precarry
    ensures WriterReady(w, arrays, sizes)
    ensures WriterState(w, arrays, sizes) == Code(old(WriterState(w, arrays, sizes)), item, w.allowUpdateCdf)
    ensures w.enc.precarry == old(w.enc.precarry) || fresh(w.enc.precarry)
  {
    hide ValidInterval, SymbolStep, Part4Step, BypassSteps, UpdatedCdf, ValidCdf, Literal, QuniformBits, RefSubexpBits;
    hide Pow2, RecenterFiniteNonneg, PartOf;
    ghost var before := WriterState(w, arrays, sizes);
    CodeKeepsValid(before, item, w.allowUpdateCdf);
    match item.req {
    case Raw(bits) =>
      w.WriteLiteral(item.value, bits);
    case Quasi(n) =>
      w.WriteQuniform(n, item.value);
    case RefSub(n, k, r) =>
      w.WriteRefSubexpfin(n, k, r, item.value);
    }
    assert Contents(arrays, sizes) == before.tables;
  }

  method WriteItem(w: SymbolWriter, arrays: seq<array<nat>>, sizes: seq<nat>, item: Item)
    requires WriterReady(w, arrays, sizes) && Legal(item, Contents(arrays, sizes))
    modifies w`frameSymbolCount, w.enc, w.enc.precarry, arrays
    ensures WriterReady(w, arrays, sizes)
    ensures WriterState(w, arrays, sizes) == Code(old(WriterState(w, arrays, sizes)), item, w.allowUpdateCdf)
    ensures w.enc.precarry == old(w.enc.precarry) || fresh(w.enc.precarry)
  {
    hide ValidInterval, SymbolStep, Part4Step, BypassSteps, UpdatedCdf, ValidCdf, Literal, QuniformBits, RefSubexpBits;
    hide Pow2, RecenterFiniteNonneg, PartOf;
    if item.req.Raw? || item.req.Quasi? || item.req.RefSub? {
      WriteRawItem(w, arrays, sizes, item);
      return;
    }
    ghost var before := WriterState(w, arrays, sizes);
    CodeKeepsValid(before, item, w.allowUpdateCdf);
    var ctx := item.req.ctx;
    assert ValidTable(before.tables[ctx]);
    match item.req {
    case Symbol(_) =>
      w.WriteSymbol(item.value, arrays[ctx], sizes[ctx]);
    case FourPart(_, nb) =>
      w.Write4Part(item.value, arrays[ctx], nb);
    case FourPartRef(_, nb, ref) =>
      w.Write4PartWithRef(ref, item.value, arrays[ctx], nb);
    }
    OneTable(before.tables, Contents(arrays, sizes), ctx);
  }

  method ReadItem(r: SymbolReader, arrays: seq<array<nat>>, sizes: seq<nat>, req: Request) returns (item: Item)
    requires ReaderReady(r, arrays, sizes) && LegalRequest(req, Contents(arrays, sizes))
    modifies r.dec, arrays
    ensures item.req == req && Legal(item, old(Contents(arrays, sizes)))
    ensures ReaderReady(r, arrays, sizes)
    ensures ReaderState(r, arrays, sizes) == Code(old(ReaderState(r, arrays, sizes)), item, r.allowUpdateCdf)
  {
    hide ValidInterval, SymbolStep, Part4Step, BypassSteps, UpdatedCdf, ValidCdf, Literal, QuniformBits, RefSubexpBits;
    hide Pow2, RecenterFiniteNonneg, PartOf;
    ghost var before := ReaderState(r, arrays, sizes);
    match req
    case Symbol(ctx) =>
      assert ValidTable(before.tables[ctx]);
      var v := r.ReadSymbol(arrays[ctx], sizes[ctx]);
      item := Item(req, v);
      OneTable(before.tables, Contents(arrays, sizes), ctx);
      assert ReaderState(r, arrays, sizes) == Code(before, item, r.allowUpdateCdf);
      CodeKeepsValid(before, item, r.allowUpdateCdf);
    case FourPart(ctx, nb) =>
      assert ValidTable(before.tables[ctx]);
      var v := r.Read4Part(arrays[ctx], nb);
      item := Item(req, v);
      OneTable(before.tables, Contents(arrays, sizes), ctx);
      assert ReaderState(r, arrays, sizes) == Code(before, item, r.allowUpdateCdf);
      CodeKeepsValid(before, item, r.allowUpdateCdf);
    case FourPartRef(ctx, nb, ref) =>
      assert ValidTable(before.tables[ctx]);
      var v := r.Read4PartWithRef(ref, arrays[ctx], nb);
      item := Item(req, v);
      OneTable(before.tables, Contents(arrays, sizes), ctx);
      assert ReaderState(r, arrays, sizes) == Code(before, item, r.allowUpdateCdf);
      CodeKeepsValid(before, item, r.allowUpdateCdf);
    case Raw(bits) =>
      var v := r.ReadLiteral(bits);
      item := Item(req, v);
      assert Contents(arrays, sizes) == before.tables;
      CodeKeepsValid(before, item, r.allowUpdateCdf);
    case Quasi(n) =>
      var v := r.ReadQuniform(n);
      item := Item(req, v);
      assert Contents(arrays, sizes) == before.tables;
      CodeKeepsValid(before, item, r.allowUpdateCdf);
    case RefSub(n, k, ref) =>
      var v := r.ReadRefSubexpfin(n, k, ref);
      item := Item(req, v);
      assert Contents(arrays, sizes) == before.tables;
      CodeKeepsValid(before, item, r.allowUpdateCdf);
  }

  method WriteRun(w: SymbolWriter, arrays: seq<array<nat>>, sizes: seq<nat>, items: seq<Item>)
    requires WriterReady(w, arrays, sizes) && LegalRun(items, Contents(arrays, sizes))
    modifies w`frameSymbolCount, w.enc, w.enc.precarry, arrays
    ensures WriterReady(w, arrays, sizes)
    ensures WriterState(w, arrays, sizes) == Run(old(WriterState(w, arrays, sizes)), items, w.allowUpdateCdf)
    ensures w.enc.precarry == old(w.enc.precarry) || fresh(w.enc.precarry)
  {
    hide ValidInterval, Legal, Code, Run, ValidTable;
    ghost var start := WriterState(w, arrays, sizes);
    NoItems(start, items[..0], w.allowUpdateCdf);
    for i := 0 to |items|
      invariant WriterReady(w, arrays, sizes) && LegalRun(items[..i], start.tables)
      invariant WriterState(w, arrays, sizes) == Run(start, items[..i], w.allowUpdateCdf)
      invariant w.enc.precarry == old(w.enc.precarry) || fresh(w.enc.precarry)
    {
      assert items[..i + 1] == items[..i] + [items[i]];
      RunSnoc(start, items[..i], items[i], w.allowUpdateCdf);
      WriteItem(w, arrays, sizes, items[i]);
    }
    assert items[..|items|] == items;
  }

  lemma NoItems(c: Coder, items: seq<Item>, update: bool)
    requires ValidCoder(c) && items == []
    ensures LegalRun(items, c.tables) && Run(c, items, update) == c
  {}

  method ReadRun(r: SymbolReader, arrays: seq<array<nat>>, sizes: seq<nat>, reqs: seq<Request>)
    returns (items: seq<Item>)
    requires ReaderReady(r, arrays, sizes)
    requires forall i :: 0 <= i < |reqs| ==> LegalRequest(reqs[i], Contents(arrays, sizes))
    modifies r.dec, arrays
    ensures |items| == |reqs| && forall i :: 0 <= i < |items| ==> items[i].req == reqs[i]
    ensures LegalRun(items, old(Contents(arrays, sizes)))
    ensures ReaderReady(r, arrays, sizes)
    ensures ReaderState(r, arrays, sizes) == Run(old(ReaderState(r, arrays, sizes)), items, r.allowUpdateCdf)
  {
    hide ValidInterval, Legal, Code, Run, ValidTable, LegalRequest;
    ghost var start := ReaderState(r, arrays, sizes);
    items := [];
    NoItems(start, items, r.allowUpdateCdf);
    for i := 0 to |reqs|
      invariant |items| == i && forall j :: 0 <= j < i ==> items[j].req == reqs[j]
      invariant ReaderReady(r, arrays, sizes) && LegalRun(items, start.tables)
      invariant ReaderState(r, arrays, sizes) == Run(start, items, r.allowUpdateCdf)
      invariant SameShape(Contents(arrays, sizes), start.tables)
    {
      ShapeKeepsRequest(reqs[i], start.tables, Contents(arrays, sizes));
      ghost var before := ReaderState(r, arrays, sizes);
      var item := ReadItem(r, arrays, sizes, reqs[i]);
      ShapeKeepsItem(item, before.tables, start.tables);
      RunSnoc(start, items, item, r.allowUpdateCdf);
      CodeKeepsValid(before, item, r.allowUpdateCdf);
      items := items + [item];
    }
  }

  lemma ShapeKeepsRequest(req: Request, a: seq<Table>, b: seq<Table>)
    requires SameShape(a, b) && LegalRequest(req, a)
    ensures LegalRequest(req, b)
  {}

  lemma ShapeKeepsItem(item: Item, a: seq<Table>, b: seq<Table>)
    requires SameShape(a, b) && Legal(item, a)
    ensures Legal(item, b)
  {}

  function Requests(items: seq<Item>): seq<Request> {
    seq(|items|, i requires 0 <= i < |items| => items[i].req)
  }

  ghost predicate TablesReady(arrays: seq<array<nat>>, sizes: seq<nat>)
    reads arrays
  {
    && |arrays| == |sizes| && Distinct(arrays)
    && forall i :: 0 <= i < |sizes| ==> ValidTable(Contents(arrays, sizes)[i])
  }

  /** A whole run written to fresh bytes: the bytes name a point of the run's interval. */
  method WriteBytes(items: seq<Item>, arrays: seq<array<nat>>, sizes: seq<nat>, update: bool)
    returns (bytes: array<Octet>)
    requires TablesReady(arrays, sizes) && LegalRun(items, Contents(arrays, sizes))
    modifies arrays
    ensures fresh(bytes) && ValidCoder(Coder(START, old(Contents(arrays, sizes))))
    ensures var end := Run(Coder(START, old(Contents(arrays, sizes))), items, update);
      Inside(Base256(bytes[..]), 8 * bytes.Length, end.iv) && Contents(arrays, sizes) == end.tables
  {
    hide ValidInterval, Legal, Code, Run, ValidTable, Inside, Base256;
    StartIsValid();
    var w := new SymbolWriter(update);
    assert WriterState(w, arrays, sizes) == Coder(START, old(Contents(arrays, sizes)));
    WriteRun(w, arrays, sizes, items);
    ghost var coded := Contents(arrays, sizes);
    bytes := w.enc.Done();
    assert Contents(arrays, sizes) == coded;
  }

  /** A run read from any bytes: the bytes name a point of the interval of what was read. */
  method ReadBytes(bytes: array<Octet>, reqs: seq<Request>, arrays: seq<array<nat>>, sizes: seq<nat>, update: bool)
    returns (items: seq<Item>)
    requires TablesReady(arrays, sizes)
    requires forall i :: 0 <= i < |reqs| ==> LegalRequest(reqs[i], Contents(arrays, sizes))
    modifies arrays
    ensures |items| == |reqs| && forall i :: 0 <= i < |items| ==> items[i].req == reqs[i]
    ensures ValidCoder(Coder(START, old(Contents(arrays, sizes)))) && LegalRun(items, old(Contents(arrays, sizes)))
    ensures bytes[..] == old(bytes[..])
    ensures var end := Run(Coder(START, old(Contents(arrays, sizes))), items, update);
      Inside(Base256(bytes[..]), 8 * bytes.Length, end.iv) && Contents(arrays, sizes) == end.tables
  {
    hide ValidInterval, Legal, Code, Run, ValidTable, LegalRequest, Inside, Base256;
    StartIsValid();
    var r := new SymbolReader(bytes, update);
    assert ReaderState(r, arrays, sizes) == Coder(START, old(Contents(arrays, sizes)));
    items := ReadRun(r, arrays, sizes, reqs);
  }

  /**
   The entropy coder loses nothing: the bytes of any run, read back with the same
   requests from equal tables and with the same update flag, give the values that
   were coded and leave the reader's tables equal to the writer's.
   */
  method WriteThenRead(items: seq<Item>, encArrays: seq<array<nat>>, decArrays: seq<array<nat>>, sizes: seq<nat>,
                       update: bool)
    returns (bytes: array<Octet>, read: seq<Item>)
    requires TablesReady(encArrays, sizes) && TablesReady(decArrays, sizes)
    requires forall i, j :: 0 <= i < |encArrays| && 0 <= j < |decArrays| ==> encArrays[i] != decArrays[j]
    requires Contents(encArrays, sizes) == Contents(decArrays, sizes)
    requires LegalRun(items, Contents(encArrays, sizes))
    modifies encArrays, decArrays
    ensures read == items
    ensures Contents(encArrays, sizes) == Contents(decArrays, sizes)
  {
    hide ValidInterval, Legal, Code, Run, ValidTable, ValidCoder, LegalRequest, Inside, Base256;
    ghost var tables := Contents(encArrays, sizes);
    bytes := WriteBytes(items, encArrays, sizes, update);
    assert Contents(decArrays, sizes) == tables;
    ghost var coded := Contents(encArrays, sizes);
    LegalRequests(items, tables);
    read := ReadBytes(bytes, Requests(items), decArrays, sizes, update);
    assert Contents(encArrays, sizes) == coded;
    RunUnique(Base256(bytes[..]), 8 * bytes.Length, Coder(START, tables), items, read, update);
  }

  lemma LegalRequests(items: seq<Item>, tables: seq<Table>)
    requires LegalRun(items, tables)
    ensures forall i :: 0 <= i < |Requests(items)| ==> LegalRequest(Requests(items)[i], tables)
  {}
}
