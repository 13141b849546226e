/**
 Whole runs: any sequence of adaptive symbols, 4-part codes and bypass-coded
 values over many contexts, coded by the writer and read back by the reader.
 */
module CodingRun {
  import opened Powers
  import opened BitString
  import opened Parsing
  import opened Recenter
  import opened Quniform
  import opened Subexp
  import opened Cdf
  import opened RangeInterval
  import opened SymbolCoding

  /** What a reader is asked for. */
  datatype Request =
    | Symbol(ctx: nat)
    | FourPart(ctx: nat, nb: nat)
    | FourPartRef(ctx: nat, nb: nat, ref: nat)
    | Raw(bits: nat)
    | Quasi(n: nat)
    | RefSub(n: nat, k: nat, r: nat)

  datatype Item = Item(req: Request, value: nat)

  datatype Table = Table(icdf: seq<nat>, nsyms: nat)

  /** Everything encoder and decoder must agree on. */
  datatype Coder = Coder(iv: Interval, tables: seq<Table>)

  predicate ValidTable(t: Table) {
    ValidCdf(t.icdf, t.nsyms)
  }

  ghost predicate ValidCoder(c: Coder) {
    ValidInterval(c.iv) && forall i :: 0 <= i < |c.tables| ==> ValidTable(c.tables[i])
  }

  predicate LegalRequest(req: Request, tables: seq<Table>) {
    match req
    case Symbol(ctx) => ctx < |tables|
    case FourPart(ctx, nb) => ctx < |tables| && tables[ctx].nsyms == 4 && PartSize(nb)
    case FourPartRef(ctx, nb, ref) => ctx < |tables| && tables[ctx].nsyms == 4 && RefPartSize(nb) && ref < Pow2(nb)
    case Raw(bits) => bits <= 31
    case Quasi(n) => 0 < n < UINT16_LIMIT
    case RefSub(n, k, r) => r < n < UINT16_LIMIT && k <= MAX_K
  }

  predicate Legal(item: Item, tables: seq<Table>) {
    LegalRequest(item.req, tables) &&
    match item.req
    case Symbol(ctx) => item.value < tables[ctx].nsyms
    case FourPart(ctx, nb) => item.value < Pow2(nb)
    case FourPartRef(ctx, nb, ref) => item.value < Pow2(nb)
    case Raw(bits) => item.value < Pow2(bits)
    case Quasi(n) => item.value < n
    case RefSub(n, k, r) => item.value < n
  }

  /** Legality only looks at the sizes of the tables, which no step changes. */
  predicate SameShape(a: seq<Table>, b: seq<Table>) {
    |a| == |b| && forall i :: 0 <= i < |a| ==> a[i].nsyms == b[i].nsyms
  }

  predicate LegalRun(items: seq<Item>, tables: seq<Table>) {
    forall i :: 0 <= i < |items| ==> Legal(items[i], tables)
  }

  function Adapt(tables: seq<Table>, ctx: nat, symb: nat, update: bool): seq<Table>
    requires ctx < |tables| && ValidTable(tables[ctx])
  {
    if update then
      tables[ctx := Table(UpdatedCdf(tables[ctx].icdf, symb, tables[ctx].nsyms), tables[ctx].nsyms)]
    else tables
  }

  function FourPartCode(c: Coder, ctx: nat, nb: nat, symb: nat, update: bool): Coder
    requires ValidCoder(c) && ctx < |c.tables| && c.tables[ctx].nsyms == 4 && PartSize(nb)
  {
    assert ValidTable(c.tables[ctx]);
    Coder(Part4Step(c.iv, c.tables[ctx].icdf, symb, nb), Adapt(c.tables, ctx, PartOf(symb, nb), update))
  }

  /** Coding one item: the interval narrows, the table of its context adapts. */
  function Code(c: Coder, item: Item, update: bool): Coder
    requires ValidCoder(c) && Legal(item, c.tables)
  {
    match item.req
    case Symbol(ctx) =>
      assert ValidTable(c.tables[ctx]);
      Coder(SymbolStep(c.iv, c.tables[ctx].icdf, item.value, c.tables[ctx].nsyms),
            Adapt(c.tables, ctx, item.value, update))
    case FourPart(ctx, nb) => FourPartCode(c, ctx, nb, item.value, update)
    case FourPartRef(ctx, nb, ref) =>
      FourPartCode(c, ctx, nb, RecenterFiniteNonneg(Pow2(nb), ref, item.value), update)
    case Raw(bits) => Coder(BypassSteps(c.iv, Literal(item.value, bits)), c.tables)
    case Quasi(n) => Coder(BypassSteps(c.iv, QuniformBits(n, item.value)), c.tables)
    case RefSub(n, k, r) => Coder(BypassSteps(c.iv, RefSubexpBits(n, k, r, item.value)), c.tables)
  }

  lemma AdaptKeepsValid(tables: seq<Table>, ctx: nat, symb: nat, update: bool)
    requires ctx < |tables| && symb < tables[ctx].nsyms
    requires forall i :: 0 <= i < |tables| ==> ValidTable(tables[i])
    ensures SameShape(Adapt(tables, ctx, symb, update), tables)
    ensures forall i :: 0 <= i < |tables| ==> ValidTable(Adapt(tables, ctx, symb, update)[i])
  {
    hide ValidCdf, UpdatedCdf;
    assert ValidTable(tables[ctx]);
    UpdateKeepsValid(tables[ctx].icdf, symb, tables[ctx].nsyms);
  }

  lemma Part4KeepsValid(iv: Interval, icdf: seq<nat>, symb: nat, nb: nat)
    requires ValidInterval(iv) && ValidCdf(icdf, 4) && PartSize(nb)
    ensures ValidInterval(Part4Step(iv, icdf, symb, nb))
  {
    hide ValidCdf, SymbolStep, BypassSteps, Literal, ValidInterval;
    var part := PartOf(symb, nb);
    SymbolKeepsValid(iv, icdf, part, 4);
    BypassKeepsValid(SymbolStep(iv, icdf, part, 4), Literal(symb - PartOffset(part, nb), PartBits(part, nb)));
  }

  lemma CodeKeepsValid(c: Coder, item: Item, update: bool)
    requires ValidCoder(c) && Legal(item, c.tables)
    ensures ValidCoder(Code(c, item, update)) && SameShape(Code(c, item, update).tables, c.tables)
  {
    hide ValidCdf, SymbolStep, Part4Step, BypassSteps, Literal, ValidInterval, Adapt, PartOf, QuniformBits,
         RefSubexpBits;
    match item.req
    case Symbol(ctx) =>
      assert ValidTable(c.tables[ctx]);
      SymbolKeepsValid(c.iv, c.tables[ctx].icdf, item.value, c.tables[ctx].nsyms);
      AdaptKeepsValid(c.tables, ctx, item.value, update);
    case FourPart(ctx, nb) =>
      assert ValidTable(c.tables[ctx]);
      Part4KeepsValid(c.iv, c.tables[ctx].icdf, item.value, nb);
      AdaptKeepsValid(c.tables, ctx, PartOf(item.value, nb), update);
    case FourPartRef(ctx, nb, ref) =>
      assert ValidTable(c.tables[ctx]);
      Part4KeepsValid(c.iv, c.tables[ctx].icdf, RecenterFiniteNonneg(Pow2(nb), ref, item.value), nb);
      AdaptKeepsValid(c.tables, ctx, PartOf(RecenterFiniteNonneg(Pow2(nb), ref, item.value), nb), update);
    case Raw(bits) => BypassKeepsValid(c.iv, Literal(item.value, bits));
    case Quasi(n) => BypassKeepsValid(c.iv, QuniformBits(n, item.value));
    case RefSub(n, k, r) => BypassKeepsValid(c.iv, RefSubexpBits(n, k, r, item.value));
  }

  lemma ShapeKeepsLegal(items: seq<Item>, a: seq<Table>, b: seq<Table>)
    requires SameShape(a, b) && LegalRun(items, a)
    ensures LegalRun(items, b)
  {}

  /** A whole run. */
  function Run(c: Coder, items: seq<Item>, update: bool): (r: Coder)
    requires ValidCoder(c) && LegalRun(items, c.tables)
    decreases |items|
  {
    if items == [] then c
    else
      assert Legal(items[0], c.tables);
      var next := Code(c, items[0], update);
      CodeKeepsValid(c, items[0], update);
      ShapeKeepsLegal(items[1..], c.tables, next.tables);
      Run(next, items[1..], update)
  }

  // ---- A code determines the run ----

  lemma Part4Nested(x: nat, n: nat, iv: Interval, icdf: seq<nat>, symb: nat, nb: nat)
    requires ValidInterval(iv) && ValidCdf(icdf, 4) && PartSize(nb)
    requires Inside(x, n, Part4Step(iv, icdf, symb, nb))
    ensures Inside(x, n, SymbolStep(iv, icdf, PartOf(symb, nb), 4)) && Inside(x, n, iv)
  {
    hide ValidCdf, SymbolStep, BypassSteps, Literal, ValidInterval, Inside, PartOf, PartOffset;
    var part := PartOf(symb, nb);
    BypassNested(x, n, SymbolStep(iv, icdf, part, 4), Literal(symb - PartOffset(part, nb), PartBits(part, nb)));
    SymbolNested(x, n, iv, icdf, part, 4);
  }

  lemma Part4Unique(x: nat, n: nat, iv: Interval, icdf: seq<nat>, a: nat, b: nat, nb: nat)
    requires ValidInterval(iv) && ValidCdf(icdf, 4) && PartSize(nb) && a < Pow2(nb) && b < Pow2(nb)
    requires Inside(x, n, Part4Step(iv, icdf, a, nb)) && Inside(x, n, Part4Step(iv, icdf, b, nb))
    ensures a == b
  {
    hide ValidCdf, SymbolStep, BypassSteps, Literal, ValidInterval, Inside, PartOf, PartOffset, PartBits, Pow2;
    Part4Nested(x, n, iv, icdf, a, nb);
    Part4Nested(x, n, iv, icdf, b, nb);
    var part := PartOf(a, nb);
    SymbolUnique(x, n, iv, icdf, part, PartOf(b, nb), 4);
    PartsPartition(a, part, nb);
    PartsPartition(b, part, nb);
    var off, bits := PartOffset(part, nb), PartBits(part, nb);
    LiteralUnique(x, n, SymbolStep(iv, icdf, part, 4), a - off, b - off, bits);
  }

  lemma LiteralUnique(x: nat, n: nat, iv: Interval, a: nat, b: nat, bits: nat)
    requires a < Pow2(bits) && b < Pow2(bits)
    requires Inside(x, n, BypassSteps(iv, Literal(a, bits))) && Inside(x, n, BypassSteps(iv, Literal(b, bits)))
    ensures a == b
  {
    hide BypassSteps, Literal, Inside, Pow2, Value;
    BypassAgree(x, n, iv, Literal(a, bits), Literal(b, bits));
    assert Literal(b, bits)[..bits] == Literal(b, bits);
    LiteralInRange(a, bits);
    LiteralInRange(b, bits);
  }

  /** Of two words a code lies in, the longer one shows both. */
  lemma BypassShows(x: nat, n: nat, iv: Interval, u: Bits, w: Bits)
    requires Inside(x, n, BypassSteps(iv, u)) && Inside(x, n, BypassSteps(iv, w))
    ensures var s := if |u| <= |w| then w else u; Shows(s, 0, u) && Shows(s, 0, w)
  {
    hide BypassSteps, Inside;
    var s := if |u| <= |w| then w else u;
    if |u| <= |w| {
      BypassAgree(x, n, iv, u, w);
    } else {
      BypassAgree(x, n, iv, w, u);
    }
    WindowInside(s, 0, |u|);
    WindowInside(s, 0, |w|);
    assert s[0..|s|] == s;
  }

  lemma QuasiUnique(x: nat, bits: nat, iv: Interval, n: nat, a: nat, b: nat)
    requires a < n && b < n
    requires Inside(x, bits, BypassSteps(iv, QuniformBits(n, a)))
      && Inside(x, bits, BypassSteps(iv, QuniformBits(n, b)))
    ensures a == b
  {
    hide BypassSteps, Inside, QuniformBits, ParseQuniform, Window;
    var u, w := QuniformBits(n, a), QuniformBits(n, b);
    BypassShows(x, bits, iv, u, w);
    var s := if |u| <= |w| then w else u;
    QuniformRoundTrip(s, 0, n, a);
    QuniformRoundTrip(s, 0, n, b);
  }

  lemma RefSubUnique(x: nat, bits: nat, iv: Interval, n: nat, k: nat, r: nat, a: nat, b: nat)
    requires a < n && b < n && r < n < UINT16_LIMIT
    requires Inside(x, bits, BypassSteps(iv, RefSubexpBits(n, k, r, a)))
    requires Inside(x, bits, BypassSteps(iv, RefSubexpBits(n, k, r, b)))
    ensures a == b
  {
    hide BypassSteps, Inside, RefSubexpBits, ParseRefSubexp, Window;
    var u, w := RefSubexpBits(n, k, r, a), RefSubexpBits(n, k, r, b);
    BypassShows(x, bits, iv, u, w);
    var s := if |u| <= |w| then w else u;
    RefSubexpRoundTrip(s, 0, n, k, r, a);
    RefSubexpRoundTrip(s, 0, n, k, r, b);
  }

  lemma CodeNested(x: nat, n: nat, c: Coder, item: Item, update: bool)
    requires ValidCoder(c) && Legal(item, c.tables) && Inside(x, n, Code(c, item, update).iv)
    ensures Inside(x, n, c.iv)
  {
    hide ValidCdf, SymbolStep, Part4Step, BypassSteps, Literal, ValidInterval, Inside, Adapt, QuniformBits,
         RefSubexpBits;
    match item.req
    case Symbol(ctx) =>
      assert ValidTable(c.tables[ctx]);
      SymbolNested(x, n, c.iv, c.tables[ctx].icdf, item.value, c.tables[ctx].nsyms);
    case FourPart(ctx, nb) =>
      assert ValidTable(c.tables[ctx]);
      Part4Nested(x, n, c.iv, c.tables[ctx].icdf, item.value, nb);
    case FourPartRef(ctx, nb, ref) =>
      assert ValidTable(c.tables[ctx]);
      Part4Nested(x, n, c.iv, c.tables[ctx].icdf, RecenterFiniteNonneg(Pow2(nb), ref, item.value), nb);
    case Raw(bits) => BypassNested(x, n, c.iv, Literal(item.value, bits));
    case Quasi(m) => BypassNested(x, n, c.iv, QuniformBits(m, item.value));
    case RefSub(m, k, r) => BypassNested(x, n, c.iv, RefSubexpBits(m, k, r, item.value));
  }

  /** Asked for the same thing, a code yields one value. */
  lemma CodeUnique(x: nat, n: nat, c: Coder, a: Item, b: Item, update: bool)
    requires ValidCoder(c) && Legal(a, c.tables) && Legal(b, c.tables) && a.req == b.req
    requires Inside(x, n, Code(c, a, update).iv) && Inside(x, n, Code(c, b, update).iv)
    ensures a == b
  {
    hide ValidCdf, SymbolStep, Part4Step, BypassSteps, Literal, ValidInterval, Inside, Adapt, QuniformBits,
         RefSubexpBits;
    match a.req
    case Symbol(ctx) =>
      assert ValidTable(c.tables[ctx]);
      SymbolUnique(x, n, c.iv, c.tables[ctx].icdf, a.value, b.value, c.tables[ctx].nsyms);
    case FourPart(ctx, nb) =>
      assert ValidTable(c.tables[ctx]);
      Part4Unique(x, n, c.iv, c.tables[ctx].icdf, a.value, b.value, nb);
    case FourPartRef(ctx, nb, ref) =>
      assert ValidTable(c.tables[ctx]);
      AlphabetSize(nb);
      RecenterBijection(Pow2(nb), ref, a.value);
      RecenterBijection(Pow2(nb), ref, b.value);
      Part4Unique(x, n, c.iv, c.tables[ctx].icdf, RecenterFiniteNonneg(Pow2(nb), ref, a.value),
                  RecenterFiniteNonneg(Pow2(nb), ref, b.value), nb);
    case Raw(bits) => LiteralUnique(x, n, c.iv, a.value, b.value, bits);
    case Quasi(m) => QuasiUnique(x, n, c.iv, m, a.value, b.value);
    case RefSub(m, k, r) => RefSubUnique(x, n, c.iv, m, k, r, a.value, b.value);
  }

  lemma {:induction false} RunNested(x: nat, n: nat, c: Coder, items: seq<Item>, update: bool)
    requires ValidCoder(c) && LegalRun(items, c.tables) && Inside(x, n, Run(c, items, update).iv)
    ensures Inside(x, n, c.iv)
    decreases |items|
  {
    hide Legal, Code, Inside, ValidInterval, ValidTable;
    if items != [] {
      var next := FirstStep(c, items, update);
      RunNested(x, n, next, items[1..], update);
      CodeNested(x, n, c, items[0], update);
    }
  }

  /** The first step of a run leads to a coder that can take the rest. */
  lemma FirstStep(c: Coder, items: seq<Item>, update: bool) returns (next: Coder)
    requires ValidCoder(c) && LegalRun(items, c.tables) && items != []
    ensures Legal(items[0], c.tables) && next == Code(c, items[0], update)
    ensures ValidCoder(next) && SameShape(next.tables, c.tables) && LegalRun(items[1..], next.tables)
    ensures Run(c, items, update) == Run(next, items[1..], update)
  {
    hide Legal, Code, ValidInterval, ValidTable;
    next := Code(c, items[0], update);
    CodeKeepsValid(c, items[0], update);
    ShapeKeepsLegal(items[1..], c.tables, next.tables);
  }

  /**
   Synchrony: whatever was asked for in the same order from the same code and the
   same tables is what was coded, so both sides also have the same tables and the
   same interval after every step.
   */
  lemma {:induction false} RunUnique(x: nat, n: nat, c: Coder, coded: seq<Item>, read: seq<Item>, update: bool)
    requires ValidCoder(c) && LegalRun(coded, c.tables) && LegalRun(read, c.tables)
    requires |coded| == |read| && forall i :: 0 <= i < |coded| ==> coded[i].req == read[i].req
    requires Inside(x, n, Run(c, coded, update).iv) && Inside(x, n, Run(c, read, update).iv)
    ensures coded == read
    decreases |coded|
  {
    hide Legal, Code, Inside, ValidInterval, ValidTable, Run;
    if coded != [] {
      var a := FirstStep(c, coded, update);
      var b := FirstStep(c, read, update);
      RunNested(x, n, a, coded[1..], update);
      RunNested(x, n, b, read[1..], update);
      CodeUnique(x, n, c, coded[0], read[0], update);
      RunUnique(x, n, a, coded[1..], read[1..], update);
    }
  }

  lemma {:induction false} RunSnoc(c: Coder, items: seq<Item>, item: Item, update: bool)
    requires ValidCoder(c) && LegalRun(items + [item], c.tables)
    ensures LegalRun(items, c.tables) && ValidCoder(Run(c, items, update))
    ensures SameShape(Run(c, items, update).tables, c.tables) && Legal(item, Run(c, items, update).tables)
    ensures Run(c, items + [item], update) == Code(Run(c, items, update), item, update)
    decreases |items|
  {
    hide Legal, Code, ValidInterval, ValidTable;
    var all := items + [item];
    assert forall i :: 0 <= i < |items| ==> items[i] == all[i];
    var next := FirstStep(c, all, update);
    if items == [] {
      assert all == [item];
      assert all[1..] == [];
    } else {
      assert all[1..] == items[1..] + [item];
      var same := FirstStep(c, items, update);
      RunSnoc(next, items[1..], item, update);
    }
  }
}
