/// The header of a Cortex graph binary (cortex/cortex.go `readHeader`), as a reference
/// parser over a byte string and a reference encoder.
///
/// Layout, all integers little-endian:
///   "CORTEX"; version, k, words per k-mer, colour count (uint32 each);
///   then column by column over the colours: mean read length (uint32), total
///   sequence length (uint64), name (uint32 length then that many bytes), error rate
///   (16 bytes);
///   then colour by colour: four flag bytes, two uint32 thresholds, cleaning-graph
///   name (uint32 length then bytes);
///   and "CORTEX" again.
///
/// `ParseHeader` reads that layout and stops at the first problem: bytes running out
/// (`Truncated`), a sentinel that is not "CORTEX" (`NotCortex`), or a name length above
/// 10000 (`NameTooLong`).  Names keep their bytes in order with the zero bytes removed;
/// a flag is true exactly when its byte is 1.  `EncodeHeader` writes a header back in
/// the same layout and `ParseEncodedHeader` proves that parsing reads it back.
module CortexFormat {
  import opened GoInts
  import opened ByteReader
  import opened Columns

  /** The sentinel "CORTEX" at both ends of the header. */
  const CortexMagic: seq<u8> := [0x43, 0x4F, 0x52, 0x54, 0x45, 0x58]

  /** A longer name length is taken as a sign of a corrupt file. */
  const MaxNameLength: nat := 10000

  type ErrorRate = s: seq<u8> | |s| == 16 witness [0, 0, 0, 0, 0, 0, 0, 0, 0, 0, 0, 0, 0, 0, 0, 0]

  datatype Colour = Colour(
    name: seq<u8>,
    meanReadLength: u32,
    totalSequenceLength: u64,
    errorRate: ErrorRate,
    topClippingPerformed: bool,
    lowCovSupernodesRemoved: bool,
    lowCovKmersRemoved: bool,
    wasCleanedAgainstGraph: bool,
    lowCovSupernodesThreshold: u32,
    lowCovKmersThreshold: u32,
    nameOfCleaningGraph: seq<u8>)

  /** The cleaning record stored colour by colour after the columns. */
  datatype Cleaning = Cleaning(
    topClipping: bool,
    supernodesRemoved: bool,
    kmersRemoved: bool,
    cleanedAgainstGraph: bool,
    supernodesThreshold: u32,
    kmersThreshold: u32,
    graphName: seq<u8>)

  datatype Top = Top(version: u32, kmerSize: u32, wordsPerKmer: u32, colourCount: u32)

  datatype Header = Header(
    version: u32,
    kmerSize: u32,
    wordsPerKmer: u32,
    colourCount: u32,
    colours: seq<Colour>)

  // ---------------------------------------------------------------------------
  // Cells

  function MagicAt(data: seq<u8>, pos: nat): Parsed<seq<u8>>
  {
    match BytesAt(data, pos, 6)
    case None => Fail(Truncated)
    case Some(b) => if b == CortexMagic then Done(b, pos + 6) else Fail(NotCortex)
  }

  function TopCell(data: seq<u8>, pos: nat): Parsed<Top>
  {
    match BytesAt(data, pos, 16)
    case None => Fail(Truncated)
    case Some(b) =>
      Done(Top(U32Of(b[0..4]), U32Of(b[4..8]), U32Of(b[8..12]), U32Of(b[12..16])), pos + 16)
  }

  function U32Cell(data: seq<u8>, pos: nat): Parsed<u32>
  {
    match U32At(data, pos)
    case None => Fail(Truncated)
    case Some(v) => Done(v, pos + 4)
  }

  function U64Cell(data: seq<u8>, pos: nat): Parsed<u64>
  {
    match U64At(data, pos)
    case None => Fail(Truncated)
    case Some(v) => Done(v, pos + 8)
  }

  function RateCell(data: seq<u8>, pos: nat): Parsed<ErrorRate>
  {
    match BytesAt(data, pos, 16)
    case None => Fail(Truncated)
    case Some(b) => var rate: ErrorRate := b; Done(rate, pos + 16)
  }

  /** The bytes of `s` other than 0, in order. */
  function NoZeros(s: seq<u8>): seq<u8>
  {
    if |s| == 0 then []
    else NoZeros(s[..|s| - 1]) + (if s[|s| - 1] > 0 then [s[|s| - 1]] else [])
  }

  /** A length-prefixed name. */
  function NameCell(data: seq<u8>, pos: nat): Parsed<seq<u8>>
  {
    match U32At(data, pos)
    case None => Fail(Truncated)
    case Some(n) =>
      if n > MaxNameLength then Fail(NameTooLong)
      else
        match BytesAt(data, pos + 4, n)
        case None => Fail(Truncated)
        case Some(b) => Done(NoZeros(b), pos + 4 + n)
  }

  function CleaningCell(data: seq<u8>, pos: nat): Parsed<Cleaning>
  {
    match BytesAt(data, pos, 12)
    case None => Fail(Truncated)
    case Some(b) =>
      match NameCell(data, pos + 12)
      case Fail(e) => Fail(e)
      case Done(name, next) =>
        Done(Cleaning(b[0] == 1, b[1] == 1, b[2] == 1, b[3] == 1, U32Of(b[4..8]), U32Of(b[8..12]), name), next)
  }

  // ---------------------------------------------------------------------------
  // Colours, column by column

  const Blank: Colour :=
    Colour([], 0, 0, [0, 0, 0, 0, 0, 0, 0, 0, 0, 0, 0, 0, 0, 0, 0, 0], false, false, false, false, 0, 0, [])

  function Blanks(n: nat): (cs: seq<Colour>)
    ensures |cs| == n
  {
    seq(n, _ => Blank)
  }

  function SetMean(c: Colour, v: u32): Colour { c.(meanReadLength := v) }
  function SetTotal(c: Colour, v: u64): Colour { c.(totalSequenceLength := v) }
  function SetName(c: Colour, v: seq<u8>): Colour { c.(name := v) }
  function SetRate(c: Colour, v: ErrorRate): Colour { c.(errorRate := v) }

  function SetCleaning(c: Colour, r: Cleaning): Colour
  {
    c.(topClippingPerformed := r.topClipping,
       lowCovSupernodesRemoved := r.supernodesRemoved,
       lowCovKmersRemoved := r.kmersRemoved,
       wasCleanedAgainstGraph := r.cleanedAgainstGraph,
       lowCovSupernodesThreshold := r.supernodesThreshold,
       lowCovKmersThreshold := r.kmersThreshold,
       nameOfCleaningGraph := r.graphName)
  }

  function Assemble(n: nat, ms: seq<u32>, ts: seq<u64>, ns: seq<seq<u8>>, rs: seq<ErrorRate>, rows: seq<Cleaning>): (cs: seq<Colour>)
    requires |ms| == |ts| == |ns| == |rs| == |rows| == n
    ensures |cs| == n
  {
    Apply(Apply(Apply(Apply(Apply(Blanks(n), ms, SetMean), ts, SetTotal), ns, SetName), rs, SetRate), rows, SetCleaning)
  }

  /** Colour `j` takes field `j` of every column. */
  lemma AssembleAt(n: nat, ms: seq<u32>, ts: seq<u64>, ns: seq<seq<u8>>, rs: seq<ErrorRate>, rows: seq<Cleaning>, j: nat)
    requires |ms| == |ts| == |ns| == |rs| == |rows| == n && j < n
    ensures Assemble(n, ms, ts, ns, rs, rows)[j]
         == Colour(ns[j], ms[j], ts[j], rs[j], rows[j].topClipping, rows[j].supernodesRemoved,
                   rows[j].kmersRemoved, rows[j].cleanedAgainstGraph, rows[j].supernodesThreshold,
                   rows[j].kmersThreshold, rows[j].graphName)
  {
    var c1 := Apply(Blanks(n), ms, SetMean);
    var c2 := Apply(c1, ts, SetTotal);
    var c3 := Apply(c2, ns, SetName);
    var c4 := Apply(c3, rs, SetRate);
    assert c1[j] == Blank.(meanReadLength := ms[j]);
    assert c2[j] == c1[j].(totalSequenceLength := ts[j]);
    assert c3[j] == c2[j].(name := ns[j]);
    assert c4[j] == c3[j].(errorRate := rs[j]);
    assert Assemble(n, ms, ts, ns, rs, rows)[j] == SetCleaning(c4[j], rows[j]);
  }

  // ---------------------------------------------------------------------------
  // The header

  function ParseHeader(data: seq<u8>, pos: nat): Parsed<Header>
  {
    match MagicAt(data, pos)
    case Fail(e) => Fail(e)
    case Done(_, p1) =>
      match TopCell(data, p1)
      case Fail(e) => Fail(e)
      case Done(top, p2) => ParseColours(data, p2, top)
  }

  function ParseColours(data: seq<u8>, pos: nat, top: Top): Parsed<Header>
  {
    var n := top.colourCount;
    match Column(U32Cell, data, pos, n)
    case Fail(e) => Fail(e)
    case Done(ms, p3) =>
      match Column(U64Cell, data, p3, n)
      case Fail(e) => Fail(e)
      case Done(ts, p4) =>
        match Column(NameCell, data, p4, n)
        case Fail(e) => Fail(e)
        case Done(ns, p5) => ParseRows(data, p5, top, ms, ts, ns)
  }

  function ParseRows(data: seq<u8>, pos: nat, top: Top, ms: seq<u32>, ts: seq<u64>, ns: seq<seq<u8>>): Parsed<Header>
    requires |ms| == |ts| == |ns| == top.colourCount
  {
    var n := top.colourCount;
    match Column(RateCell, data, pos, n)
    case Fail(e) => Fail(e)
    case Done(rs, p6) =>
      match Column(CleaningCell, data, p6, n)
      case Fail(e) => Fail(e)
      case Done(rows, p7) =>
        match MagicAt(data, p7)
        case Fail(e) => Fail(e)
        case Done(_, p8) =>
          Done(Header(top.version, top.kmerSize, top.wordsPerKmer, n, Assemble(n, ms, ts, ns, rs, rows)), p8)
  }

  // ---------------------------------------------------------------------------
  // What a parsed header satisfies

  /** The sentinel is read iff the next six bytes are "CORTEX". */
  lemma MagicAtIff(data: seq<u8>, pos: nat)
    ensures MagicAt(data, pos).Done? <==> pos + 6 <= |data| && data[pos..pos + 6] == CortexMagic
    ensures MagicAt(data, pos).Done? ==> MagicAt(data, pos).next == pos + 6
    ensures MagicAt(data, pos) == Fail(Truncated) <==> pos + 6 > |data|
  {
  }

  lemma {:induction false} NoZerosMembers(s: seq<u8>)
    ensures |NoZeros(s)| <= |s|
    ensures forall x :: x in NoZeros(s) <==> x in s && x != 0
  {
    if |s| > 0 {
      var init := s[..|s| - 1];
      NoZerosMembers(init);
      assert s == init + [s[|s| - 1]];
    }
  }

  lemma {:induction false} NoZerosKeeps(s: seq<u8>)
    requires 0 !in s
    ensures NoZeros(s) == s
  {
    if |s| > 0 {
      var init := s[..|s| - 1];
      assert s == init + [s[|s| - 1]];
      NoZerosKeeps(init);
    }
  }

  /** A name of at most 10000 bytes without a zero byte. */
  predicate NameOk(s: seq<u8>)
  {
    0 !in s && |s| <= MaxNameLength
  }

  /** A parsed name is the declared byte run without its zero bytes; a declared length
    * above 10000 fails before any name byte is looked at. */
  lemma NameCellSpec(data: seq<u8>, pos: nat)
    ensures NameCell(data, pos).Done? ==>
      && pos + 4 <= |data|
      && var n := U32Of(data[pos..pos + 4]);
      && n <= MaxNameLength
      && NameCell(data, pos).next == pos + 4 + n <= |data|
      && NameCell(data, pos).value == NoZeros(data[pos + 4..pos + 4 + n])
      && NameOk(NameCell(data, pos).value)
    ensures NameCell(data, pos) == Fail(NameTooLong)
        <==> pos + 4 <= |data| && U32Of(data[pos..pos + 4]) > MaxNameLength
  {
    if NameCell(data, pos).Done? {
      var n := U32Of(data[pos..pos + 4]);
      NoZerosMembers(data[pos + 4..pos + 4 + n]);
    }
  }

  /** The cleaning record never fails on its flag bytes: each flag is just whether the
    * byte is 1. */
  lemma CleaningCellSpec(data: seq<u8>, pos: nat)
    ensures CleaningCell(data, pos).Done?
        <==> pos + 12 <= |data| && NameCell(data, pos + 12).Done?
    ensures CleaningCell(data, pos).Done? ==>
      var r := CleaningCell(data, pos).value;
      && r.topClipping == (data[pos] == 1)
      && r.supernodesRemoved == (data[pos + 1] == 1)
      && r.kmersRemoved == (data[pos + 2] == 1)
      && r.cleanedAgainstGraph == (data[pos + 3] == 1)
      && r.supernodesThreshold == U32Of(data[pos + 4..pos + 8])
      && r.kmersThreshold == U32Of(data[pos + 8..pos + 12])
      && r.graphName == NameCell(data, pos + 12).value
  {
    if pos + 12 <= |data| {
      var b := data[pos..pos + 12];
      SubRange(data, pos, b, 4, 8);
      SubRange(data, pos, b, 8, 12);
    }
  }

  /** No cell reads from the end of the data. */
  lemma CellsAtEnd(data: seq<u8>)
    ensures U32Cell(data, |data|) == Fail(Truncated) && U64Cell(data, |data|) == Fail(Truncated)
    ensures NameCell(data, |data|) == Fail(Truncated) && RateCell(data, |data|) == Fail(Truncated)
    ensures CleaningCell(data, |data|) == Fail(Truncated)
  {
  }

  /** With no bytes left the colours cannot be read. */
  lemma RowsAtEnd(data: seq<u8>, top: Top, ms: seq<u32>, ts: seq<u64>, ns: seq<seq<u8>>)
    requires |ms| == |ts| == |ns| == top.colourCount
    ensures ParseRows(data, |data|, top, ms, ts, ns) == Fail(Truncated)
  {
    ColumnAtEnd(RateCell, data, top.colourCount);
    ColumnAtEnd(CleaningCell, data, top.colourCount);
  }

  lemma ColoursAtEnd(data: seq<u8>, top: Top)
    ensures ParseColours(data, |data|, top) == Fail(Truncated)
  {
    var n := top.colourCount;
    ColumnAtEnd(U32Cell, data, n);
    ColumnAtEnd(U64Cell, data, n);
    ColumnAtEnd(NameCell, data, n);
    if n == 0 {
      RowsAtEnd(data, top, [], [], []);
    }
  }

  /** The fixed-size block after the sentinel is four uint32 reads. */
  lemma TopCellSpec(data: seq<u8>, pos: nat)
    ensures TopCell(data, pos).Done? <==> pos + 16 <= |data|
    ensures TopCell(data, pos).Done? ==>
      && TopCell(data, pos).next == pos + 16
      && Some(TopCell(data, pos).value.version) == U32At(data, pos)
      && Some(TopCell(data, pos).value.kmerSize) == U32At(data, pos + 4)
      && Some(TopCell(data, pos).value.wordsPerKmer) == U32At(data, pos + 8)
      && Some(TopCell(data, pos).value.colourCount) == U32At(data, pos + 12)
  {
    if pos + 16 <= |data| {
      var b := data[pos..pos + 16];
      SubRange(data, pos, b, 0, 4);
      SubRange(data, pos, b, 4, 8);
      SubRange(data, pos, b, 8, 12);
      SubRange(data, pos, b, 12, 16);
    }
  }

  lemma {:induction false} NameColumnOk(data: seq<u8>, pos: nat, n: nat)
    ensures Column(NameCell, data, pos, n).Done? ==>
      forall j :: 0 <= j < n ==> NameOk(Column(NameCell, data, pos, n).value[j])
  {
    if n > 0 && Column(NameCell, data, pos, n).Done? {
      NameColumnOk(data, pos, n - 1);
      NameCellSpec(data, Column(NameCell, data, pos, n - 1).next);
    }
  }

  lemma {:induction false} CleaningColumnOk(data: seq<u8>, pos: nat, n: nat)
    ensures Column(CleaningCell, data, pos, n).Done? ==>
      forall j :: 0 <= j < n ==> NameOk(Column(CleaningCell, data, pos, n).value[j].graphName)
  {
    if n > 0 && Column(CleaningCell, data, pos, n).Done? {
      CleaningColumnOk(data, pos, n - 1);
      var p := Column(CleaningCell, data, pos, n - 1).next;
      CleaningCellSpec(data, p);
      NameCellSpec(data, p + 12);
    }
  }

  /** A header that parses has one colour per counted colour, every name without zero
    * bytes and at most 10000 bytes long, and "CORTEX" at both ends. */
  lemma ParsedHeaderShape(data: seq<u8>, pos: nat)
    ensures ParseHeader(data, pos).Done? ==>
      var h := ParseHeader(data, pos).value;
      var next := ParseHeader(data, pos).next;
      && ValidHeader(h)
      && 6 <= next && data[pos..pos + 6] == CortexMagic && data[next - 6..next] == CortexMagic
  {
    if ParseHeader(data, pos).Done? {
      var top := TopCell(data, pos + 6).value;
      var n := top.colourCount;
      var p2 := pos + 22;
      var ms := Column(U32Cell, data, p2, n);
      var ts := Column(U64Cell, data, ms.next, n);
      var ns := Column(NameCell, data, ts.next, n);
      var rs := Column(RateCell, data, ns.next, n);
      var rows := Column(CleaningCell, data, rs.next, n);
      NameColumnOk(data, ts.next, n);
      CleaningColumnOk(data, rs.next, n);
      MagicAtIff(data, pos);
      MagicAtIff(data, rows.next);
      assert ParseHeader(data, pos).next == rows.next + 6;
      forall j | 0 <= j < n
        ensures NameOk(ParseHeader(data, pos).value.colours[j].name)
        ensures NameOk(ParseHeader(data, pos).value.colours[j].nameOfCleaningGraph)
      {
        AssembleAt(n, ms.value, ts.value, ns.value, rs.value, rows.value, j);
      }
    }
  }

  /** Without "CORTEX" at the start there is no header, whatever follows. */
  lemma NoHeaderWithoutMagic(data: seq<u8>, pos: nat)
    requires pos + 6 > |data| || data[pos..pos + 6] != CortexMagic
    ensures ParseHeader(data, pos) == Fail(NotCortex) || ParseHeader(data, pos) == Fail(Truncated)
  {
  }

  // ---------------------------------------------------------------------------
  // The reference encoder and the round trip

  function EncodeU32(v: u32): seq<u8> { LeBytes(v, 4) }
  function EncodeU64(v: u64): seq<u8> { LeBytes(v, 8) }
  function EncodeRate(r: ErrorRate): seq<u8> { r }
  function EncodeName(s: seq<u8>): seq<u8> { LeBytes(|s|, 4) + s }
  function FlagByte(b: bool): u8 { if b then 1 else 0 }

  function EncodeCleaning(r: Cleaning): seq<u8>
  {
    FixedPart(r) + EncodeName(r.graphName)
  }

  function EncodeColumn<T>(enc: T -> seq<u8>, vs: seq<T>): seq<u8>
  {
    if |vs| == 0 then [] else EncodeColumn(enc, vs[..|vs| - 1]) + enc(vs[|vs| - 1])
  }

  function RowOf(c: Colour): Cleaning
  {
    Cleaning(c.topClippingPerformed, c.lowCovSupernodesRemoved, c.lowCovKmersRemoved, c.wasCleanedAgainstGraph,
             c.lowCovSupernodesThreshold, c.lowCovKmersThreshold, c.nameOfCleaningGraph)
  }

  function Means(cs: seq<Colour>): (r: seq<u32>)
    ensures |r| == |cs|
  {
    seq(|cs|, j requires 0 <= j < |cs| => cs[j].meanReadLength)
  }

  function Totals(cs: seq<Colour>): (r: seq<u64>)
    ensures |r| == |cs|
  {
    seq(|cs|, j requires 0 <= j < |cs| => cs[j].totalSequenceLength)
  }

  function Names(cs: seq<Colour>): (r: seq<seq<u8>>)
    ensures |r| == |cs|
  {
    seq(|cs|, j requires 0 <= j < |cs| => cs[j].name)
  }

  function Rates(cs: seq<Colour>): (r: seq<ErrorRate>)
    ensures |r| == |cs|
  {
    seq(|cs|, j requires 0 <= j < |cs| => cs[j].errorRate)
  }

  function Rows(cs: seq<Colour>): (r: seq<Cleaning>)
    ensures |r| == |cs|
  {
    seq(|cs|, j requires 0 <= j < |cs| => RowOf(cs[j]))
  }


  /** Every name of every colour can be written with a length the parser accepts. */
  predicate NamesFit(cs: seq<Colour>)
  {
    forall j :: 0 <= j < |cs| ==> NameOk(cs[j].name) && NameOk(cs[j].nameOfCleaningGraph)
  }

  predicate ValidHeader(h: Header)
  {
    |h.colours| == h.colourCount && NamesFit(h.colours)
  }

  function EncodeColours(cs: seq<Colour>): seq<u8>
  {
    EncodeColumn(EncodeU32, Means(cs)) + EncodeColumn(EncodeU64, Totals(cs)) + EncodeColumn(EncodeName, Names(cs))
    + EncodeColumn(EncodeRate, Rates(cs)) + EncodeColumn(EncodeCleaning, Rows(cs))
  }

  function EncodeTop(h: Header): seq<u8>
  {
    LeBytes(h.version, 4) + LeBytes(h.kmerSize, 4) + LeBytes(h.wordsPerKmer, 4) + LeBytes(h.colourCount, 4)
  }

  function EncodeHeader(h: Header): seq<u8>
  {
    CortexMagic + EncodeTop(h) + EncodeColours(h.colours) + CortexMagic
  }

  /** Every value of `vs`, wherever its encoding lies in `data`, is what `cell` reads there. */
  ghost predicate ReadsBack<T>(cell: (seq<u8>, nat) -> Parsed<T>, enc: T -> seq<u8>, data: seq<u8>, vs: seq<T>)
  {
    forall j, q: nat :: 0 <= j < |vs| && q + |enc(vs[j])| <= |data| && data[q..q + |enc(vs[j])|] == enc(vs[j])
      ==> cell(data, q) == Done(vs[j], q + |enc(vs[j])|)
  }

  /** If every cell encoded in a column reads back, the column reads back. */
  lemma {:induction false} ColumnEncoded<T>(cell: (seq<u8>, nat) -> Parsed<T>, enc: T -> seq<u8>, data: seq<u8>, pos: nat, vs: seq<T>, n: nat, end: nat)
    requires n == |vs| && end == pos + |EncodeColumn(enc, vs)| <= |data|
    requires data[pos..end] == EncodeColumn(enc, vs)
    requires ReadsBack(cell, enc, data, vs)
    ensures Column(cell, data, pos, n) == Done(vs, end)
    decreases n
  {
    if n > 0 {
      var init := vs[..n - 1];
      var q := pos + |EncodeColumn(enc, init)|;
      ColumnEncodedLast(cell, enc, data, pos, vs, q, end);
      ColumnEncoded(cell, enc, data, pos, init, n - 1, q);
      ColumnSnoc(cell, data, pos, n, init, q, vs[n - 1], end);
      assert vs == init + [vs[n - 1]];
    }
  }

  /** The encoded column splits into the column without its last value and that value. */
  lemma ColumnEncodedLast<T>(cell: (seq<u8>, nat) -> Parsed<T>, enc: T -> seq<u8>, data: seq<u8>, pos: nat, vs: seq<T>, q: nat, end: nat)
    requires |vs| > 0 && end == pos + |EncodeColumn(enc, vs)| <= |data|
    requires data[pos..end] == EncodeColumn(enc, vs)
    requires ReadsBack(cell, enc, data, vs)
    requires q == pos + |EncodeColumn(enc, vs[..|vs| - 1])|
    ensures q <= end && data[pos..q] == EncodeColumn(enc, vs[..|vs| - 1])
    ensures ReadsBack(cell, enc, data, vs[..|vs| - 1])
    ensures cell(data, q) == Done(vs[|vs| - 1], end)
  {
    var e, last := EncodeColumn(enc, vs[..|vs| - 1]), vs[|vs| - 1];
    Pieces(data, pos, e, enc(last));
    ReadsBackInit(cell, enc, data, vs);
    ReadsBackAt(cell, enc, data, vs, |vs| - 1, q);
  }

  lemma ReadsBackInit<T>(cell: (seq<u8>, nat) -> Parsed<T>, enc: T -> seq<u8>, data: seq<u8>, vs: seq<T>)
    requires |vs| > 0 && ReadsBack(cell, enc, data, vs)
    ensures ReadsBack(cell, enc, data, vs[..|vs| - 1])
  {
    var init := vs[..|vs| - 1];
    forall j, q: nat | 0 <= j < |init| && q + |enc(init[j])| <= |data| && data[q..q + |enc(init[j])|] == enc(init[j])
      ensures cell(data, q) == Done(init[j], q + |enc(init[j])|)
    {
      ReadsBackAt(cell, enc, data, vs, j, q);
    }
  }

  lemma ReadsBackAt<T>(cell: (seq<u8>, nat) -> Parsed<T>, enc: T -> seq<u8>, data: seq<u8>, vs: seq<T>, j: nat, q: nat)
    requires ReadsBack(cell, enc, data, vs) && j < |vs|
    requires q + |enc(vs[j])| <= |data| && data[q..q + |enc(vs[j])|] == enc(vs[j])
    ensures cell(data, q) == Done(vs[j], q + |enc(vs[j])|)
  {
  }

  /** A run `e` found at `pos` has its own pieces at the matching offsets. */
  lemma SubRange(data: seq<u8>, pos: nat, e: seq<u8>, i: nat, j: nat)
    requires pos + |e| <= |data| && data[pos..pos + |e|] == e && i <= j <= |e|
    ensures data[pos + i..pos + j] == e[i..j]
  {
    forall k | 0 <= k < j - i
      ensures data[pos + i..pos + j][k] == e[i..j][k]
    {
      assert data[pos + i..pos + j][k] == data[pos..pos + |e|][i + k];
    }
  }

  /** The two halves of a concatenation found at `pos`. */
  lemma Pieces(data: seq<u8>, pos: nat, x: seq<u8>, y: seq<u8>)
    requires pos + |x| + |y| <= |data| && data[pos..pos + |x| + |y|] == x + y
    ensures data[pos..pos + |x|] == x && data[pos + |x|..pos + |x| + |y|] == y
  {
    assert (x + y)[0..|x|] == x && (x + y)[|x|..|x| + |y|] == y;
    SubRange(data, pos, x + y, 0, |x|);
    SubRange(data, pos, x + y, |x|, |x| + |y|);
  }

  lemma NameEncoded(data: seq<u8>, q: nat, s: seq<u8>)
    requires NameOk(s) && q + |EncodeName(s)| <= |data| && data[q..q + |EncodeName(s)|] == EncodeName(s)
    ensures NameCell(data, q) == Done(s, q + |EncodeName(s)|)
  {
    Pieces(data, q, LeBytes(|s|, 4), s);
    U32AtEncoded(data, q, |s|);
    NoZerosKeeps(s);
  }

  lemma CleaningEncoded(data: seq<u8>, q: nat, r: Cleaning)
    requires NameOk(r.graphName)
    requires q + |EncodeCleaning(r)| <= |data| && data[q..q + |EncodeCleaning(r)|] == EncodeCleaning(r)
    ensures CleaningCell(data, q) == Done(r, q + |EncodeCleaning(r)|)
  {
    var e := EncodeCleaning(r);
    var fixed := FixedPart(r);
    assert e == fixed + EncodeName(r.graphName);
    Pieces(data, q, fixed, EncodeName(r.graphName));
    FixedPartRead(data[q..q + 12], r);
    NameEncoded(data, q + 12, r.graphName);
  }

  /** The twelve bytes of a cleaning row before the graph name. */
  function FixedPart(r: Cleaning): (b: seq<u8>)
    ensures |b| == 12
  {
    [FlagByte(r.topClipping), FlagByte(r.supernodesRemoved), FlagByte(r.kmersRemoved), FlagByte(r.cleanedAgainstGraph)]
    + LeBytes(r.supernodesThreshold, 4) + LeBytes(r.kmersThreshold, 4)
  }

  lemma FixedPartRead(b: seq<u8>, r: Cleaning)
    requires b == FixedPart(r)
    ensures b[0] == 1 <==> r.topClipping
    ensures b[1] == 1 <==> r.supernodesRemoved
    ensures b[2] == 1 <==> r.kmersRemoved
    ensures b[3] == 1 <==> r.cleanedAgainstGraph
    ensures U32Of(b[4..8]) == r.supernodesThreshold && U32Of(b[8..12]) == r.kmersThreshold
  {
    assert b[4..8] == LeBytes(r.supernodesThreshold, 4);
    assert b[8..12] == LeBytes(r.kmersThreshold, 4);
    U32RoundTrip(r.supernodesThreshold, b[4..8]);
    U32RoundTrip(r.kmersThreshold, b[8..12]);
  }

  lemma TopEncoded(data: seq<u8>, q: nat, h: Header)
    requires q + 16 <= |data|
    requires data[q..q + 16] == EncodeTop(h)
    ensures TopCell(data, q) == Done(Top(h.version, h.kmerSize, h.wordsPerKmer, h.colourCount), q + 16)
  {
    var v, k, w, c := LeBytes(h.version, 4), LeBytes(h.kmerSize, 4), LeBytes(h.wordsPerKmer, 4), LeBytes(h.colourCount, 4);
    Pieces(data, q, v + k + w, c);
    Pieces(data, q, v + k, w);
    Pieces(data, q, v, k);
    var b := data[q..q + 16];
    SubRange(data, q, b, 0, 4);
    SubRange(data, q, b, 4, 8);
    SubRange(data, q, b, 8, 12);
    SubRange(data, q, b, 12, 16);
    U32RoundTrip(h.version, b[0..4]);
    U32RoundTrip(h.kmerSize, b[4..8]);
    U32RoundTrip(h.wordsPerKmer, b[8..12]);
    U32RoundTrip(h.colourCount, b[12..16]);
  }

  lemma AssembleColumns(cs: seq<Colour>)
    ensures Assemble(|cs|, Means(cs), Totals(cs), Names(cs), Rates(cs), Rows(cs)) == cs
  {
    forall j | 0 <= j < |cs|
      ensures Assemble(|cs|, Means(cs), Totals(cs), Names(cs), Rates(cs), Rows(cs))[j] == cs[j]
    {
      AssembleAt(|cs|, Means(cs), Totals(cs), Names(cs), Rates(cs), Rows(cs), j);
    }
  }

  // Each kind of cell reads back every value encoded for it.

  lemma U32sReadBack(data: seq<u8>, vs: seq<u32>)
    ensures ReadsBack(U32Cell, EncodeU32, data, vs)
  {
    forall j, p: nat | 0 <= j < |vs| && p + |EncodeU32(vs[j])| <= |data| && data[p..p + |EncodeU32(vs[j])|] == EncodeU32(vs[j])
      ensures U32Cell(data, p) == Done(vs[j], p + |EncodeU32(vs[j])|)
    {
      U32AtEncoded(data, p, vs[j]);
    }
  }

  lemma U64sReadBack(data: seq<u8>, vs: seq<u64>)
    ensures ReadsBack(U64Cell, EncodeU64, data, vs)
  {
    forall j, p: nat | 0 <= j < |vs| && p + |EncodeU64(vs[j])| <= |data| && data[p..p + |EncodeU64(vs[j])|] == EncodeU64(vs[j])
      ensures U64Cell(data, p) == Done(vs[j], p + |EncodeU64(vs[j])|)
    {
      U64AtEncoded(data, p, vs[j]);
    }
  }

  lemma NamesReadBack(data: seq<u8>, vs: seq<seq<u8>>)
    requires forall j :: 0 <= j < |vs| ==> NameOk(vs[j])
    ensures ReadsBack(NameCell, EncodeName, data, vs)
  {
    forall j, p: nat | 0 <= j < |vs| && p + |EncodeName(vs[j])| <= |data| && data[p..p + |EncodeName(vs[j])|] == EncodeName(vs[j])
      ensures NameCell(data, p) == Done(vs[j], p + |EncodeName(vs[j])|)
    {
      NameEncoded(data, p, vs[j]);
    }
  }

  lemma RatesReadBack(data: seq<u8>, vs: seq<ErrorRate>)
    ensures ReadsBack(RateCell, EncodeRate, data, vs)
  {
    forall j, p: nat | 0 <= j < |vs| && p + |EncodeRate(vs[j])| <= |data| && data[p..p + |EncodeRate(vs[j])|] == EncodeRate(vs[j])
      ensures RateCell(data, p) == Done(vs[j], p + |EncodeRate(vs[j])|)
    {
      RateEncoded(data, p, vs[j]);
    }
  }

  lemma RateEncoded(data: seq<u8>, p: nat, v: ErrorRate)
    requires p + 16 <= |data| && data[p..p + 16] == v
    ensures RateCell(data, p) == Done(v, p + 16)
  {
  }

  lemma RowsReadBack(data: seq<u8>, vs: seq<Cleaning>)
    requires forall j :: 0 <= j < |vs| ==> NameOk(vs[j].graphName)
    ensures ReadsBack(CleaningCell, EncodeCleaning, data, vs)
  {
    forall j, p: nat | 0 <= j < |vs| && p + |EncodeCleaning(vs[j])| <= |data| && data[p..p + |EncodeCleaning(vs[j])|] == EncodeCleaning(vs[j])
      ensures CleaningCell(data, p) == Done(vs[j], p + |EncodeCleaning(vs[j])|)
    {
      CleaningEncoded(data, p, vs[j]);
    }
  }

  /** The names of colours whose names fit, column by column. */
  lemma NamesFitColumns(cs: seq<Colour>)
    requires NamesFit(cs)
    ensures forall j :: 0 <= j < |cs| ==> NameOk(Names(cs)[j])
    ensures forall j :: 0 <= j < |cs| ==> NameOk(Rows(cs)[j].graphName)
  {
  }

  /** Where each column of encoded colours lies. */
  lemma ColoursLayout(data: seq<u8>, pos: nat, cs: seq<Colour>) returns (a1: nat, a2: nat, a3: nat, a4: nat, p7: nat)
    requires pos + |EncodeColours(cs)| <= |data|
    requires data[pos..pos + |EncodeColours(cs)|] == EncodeColours(cs)
    ensures a1 == pos + |EncodeColumn(EncodeU32, Means(cs))|
    ensures a2 == a1 + |EncodeColumn(EncodeU64, Totals(cs))|
    ensures a3 == a2 + |EncodeColumn(EncodeName, Names(cs))|
    ensures a4 == a3 + |EncodeColumn(EncodeRate, Rates(cs))|
    ensures p7 == a4 + |EncodeColumn(EncodeCleaning, Rows(cs))| == pos + |EncodeColours(cs)|
    ensures data[pos..a1] == EncodeColumn(EncodeU32, Means(cs))
    ensures data[a1..a2] == EncodeColumn(EncodeU64, Totals(cs))
    ensures data[a2..a3] == EncodeColumn(EncodeName, Names(cs))
    ensures data[a3..a4] == EncodeColumn(EncodeRate, Rates(cs))
    ensures data[a4..p7] == EncodeColumn(EncodeCleaning, Rows(cs))
  {
    a1, a2, a3, a4, p7 := FivePieces(data, pos, EncodeColumn(EncodeU32, Means(cs)), EncodeColumn(EncodeU64, Totals(cs)),
      EncodeColumn(EncodeName, Names(cs)), EncodeColumn(EncodeRate, Rates(cs)), EncodeColumn(EncodeCleaning, Rows(cs)));
  }

  lemma FivePieces(data: seq<u8>, pos: nat, e1: seq<u8>, e2: seq<u8>, e3: seq<u8>, e4: seq<u8>, e5: seq<u8>)
    returns (a1: nat, a2: nat, a3: nat, a4: nat, p7: nat)
    requires pos + |e1 + e2 + e3 + e4 + e5| <= |data|
    requires data[pos..pos + |e1 + e2 + e3 + e4 + e5|] == e1 + e2 + e3 + e4 + e5
    ensures a1 == pos + |e1| && a2 == a1 + |e2| && a3 == a2 + |e3| && a4 == a3 + |e4|
    ensures p7 == a4 + |e5| == pos + |e1 + e2 + e3 + e4 + e5|
    ensures data[pos..a1] == e1 && data[a1..a2] == e2 && data[a2..a3] == e3 && data[a3..a4] == e4 && data[a4..p7] == e5
  {
    Pieces(data, pos, e1 + e2 + e3 + e4, e5);
    Pieces(data, pos, e1 + e2 + e3, e4);
    Pieces(data, pos, e1 + e2, e3);
    Pieces(data, pos, e1, e2);
    a1 := pos + |e1|;
    a2 := a1 + |e2|;
    a3 := a2 + |e3|;
    a4 := a3 + |e4|;
    p7 := a4 + |e5|;
  }

  /** The colours and the closing sentinel read back into the header they came from. */
  lemma ColoursRead(data: seq<u8>, pos: nat, t: Top, cs: seq<Colour>)
    requires |cs| == t.colourCount
    requires NamesFit(cs)
    requires pos + |EncodeColours(cs)| + 6 <= |data|
    requires data[pos..pos + |EncodeColours(cs)|] == EncodeColours(cs)
    requires data[pos + |EncodeColours(cs)|..pos + |EncodeColours(cs)| + 6] == CortexMagic
    ensures ParseColours(data, pos, t)
         == Done(Header(t.version, t.kmerSize, t.wordsPerKmer, t.colourCount, cs), pos + |EncodeColours(cs)| + 6)
  {
    var a1, a2, a3, a4, p7 := ColoursLayout(data, pos, cs);
    ColoursFromPieces(data, pos, t, cs, a1, a2, a3, a4, p7);
  }

  /** The colours read back from their five columns laid out one after the other. */
  lemma ColoursFromPieces(data: seq<u8>, pos: nat, t: Top, cs: seq<Colour>, a1: nat, a2: nat, a3: nat, a4: nat, p7: nat)
    requires |cs| == t.colourCount
    requires NamesFit(cs)
    requires a1 == pos + |EncodeColumn(EncodeU32, Means(cs))|
    requires a2 == a1 + |EncodeColumn(EncodeU64, Totals(cs))|
    requires a3 == a2 + |EncodeColumn(EncodeName, Names(cs))|
    requires a4 == a3 + |EncodeColumn(EncodeRate, Rates(cs))|
    requires p7 == a4 + |EncodeColumn(EncodeCleaning, Rows(cs))|
    requires p7 + 6 <= |data|
    requires data[pos..a1] == EncodeColumn(EncodeU32, Means(cs))
    requires data[a1..a2] == EncodeColumn(EncodeU64, Totals(cs))
    requires data[a2..a3] == EncodeColumn(EncodeName, Names(cs))
    requires data[a3..a4] == EncodeColumn(EncodeRate, Rates(cs))
    requires data[a4..p7] == EncodeColumn(EncodeCleaning, Rows(cs))
    requires data[p7..p7 + 6] == CortexMagic
    ensures ParseColours(data, pos, t) == Done(Header(t.version, t.kmerSize, t.wordsPerKmer, t.colourCount, cs), p7 + 6)
  {
    HeadRead(data, pos, cs, a1, a2, a3);
    TailRead(data, t, cs, a3, a4, p7);
    ColoursAssembled(data, pos, t, cs, a1, a2, a3, p7);
  }

  lemma ColoursAssembled(data: seq<u8>, pos: nat, t: Top, cs: seq<Colour>, a1: nat, a2: nat, a3: nat, p7: nat)
    requires |cs| == t.colourCount
    requires Column(U32Cell, data, pos, |cs|) == Done(Means(cs), a1)
    requires Column(U64Cell, data, a1, |cs|) == Done(Totals(cs), a2)
    requires Column(NameCell, data, a2, |cs|) == Done(Names(cs), a3)
    requires ParseRows(data, a3, t, Means(cs), Totals(cs), Names(cs))
          == Done(Header(t.version, t.kmerSize, t.wordsPerKmer, t.colourCount, cs), p7 + 6)
    ensures ParseColours(data, pos, t) == Done(Header(t.version, t.kmerSize, t.wordsPerKmer, t.colourCount, cs), p7 + 6)
  {
  }

  /** The first three columns read back. */
  lemma HeadRead(data: seq<u8>, pos: nat, cs: seq<Colour>, a1: nat, a2: nat, a3: nat)
    requires NamesFit(cs)
    requires a1 == pos + |EncodeColumn(EncodeU32, Means(cs))|
    requires a2 == a1 + |EncodeColumn(EncodeU64, Totals(cs))|
    requires a3 == a2 + |EncodeColumn(EncodeName, Names(cs))| <= |data|
    requires data[pos..a1] == EncodeColumn(EncodeU32, Means(cs))
    requires data[a1..a2] == EncodeColumn(EncodeU64, Totals(cs))
    requires data[a2..a3] == EncodeColumn(EncodeName, Names(cs))
    ensures Column(U32Cell, data, pos, |cs|) == Done(Means(cs), a1)
    ensures Column(U64Cell, data, a1, |cs|) == Done(Totals(cs), a2)
    ensures Column(NameCell, data, a2, |cs|) == Done(Names(cs), a3)
  {
    U32sReadBack(data, Means(cs));
    ColumnEncoded(U32Cell, EncodeU32, data, pos, Means(cs), |cs|, a1);
    U64sReadBack(data, Totals(cs));
    ColumnEncoded(U64Cell, EncodeU64, data, a1, Totals(cs), |cs|, a2);
    NamesFitColumns(cs);
    NamesReadBack(data, Names(cs));
    ColumnEncoded(NameCell, EncodeName, data, a2, Names(cs), |cs|, a3);
  }

  /** The last two columns and the closing sentinel read back. */
  lemma TailRead(data: seq<u8>, t: Top, cs: seq<Colour>, a3: nat, a4: nat, p7: nat)
    requires |cs| == t.colourCount
    requires NamesFit(cs)
    requires a4 == a3 + |EncodeColumn(EncodeRate, Rates(cs))|
    requires p7 == a4 + |EncodeColumn(EncodeCleaning, Rows(cs))|
    requires p7 + 6 <= |data|
    requires data[a3..a4] == EncodeColumn(EncodeRate, Rates(cs))
    requires data[a4..p7] == EncodeColumn(EncodeCleaning, Rows(cs))
    requires data[p7..p7 + 6] == CortexMagic
    ensures ParseRows(data, a3, t, Means(cs), Totals(cs), Names(cs))
         == Done(Header(t.version, t.kmerSize, t.wordsPerKmer, t.colourCount, cs), p7 + 6)
  {
    RatesReadBack(data, Rates(cs));
    ColumnEncoded(RateCell, EncodeRate, data, a3, Rates(cs), |cs|, a4);
    RowsTail(data, t, cs, a3, a4, p7);
  }

  lemma RowsTail(data: seq<u8>, t: Top, cs: seq<Colour>, a3: nat, a4: nat, p7: nat)
    requires |cs| == t.colourCount
    requires NamesFit(cs)
    requires Column(RateCell, data, a3, |cs|) == Done(Rates(cs), a4)
    requires p7 == a4 + |EncodeColumn(EncodeCleaning, Rows(cs))|
    requires p7 + 6 <= |data|
    requires data[a4..p7] == EncodeColumn(EncodeCleaning, Rows(cs))
    requires data[p7..p7 + 6] == CortexMagic
    ensures ParseRows(data, a3, t, Means(cs), Totals(cs), Names(cs))
         == Done(Header(t.version, t.kmerSize, t.wordsPerKmer, t.colourCount, cs), p7 + 6)
  {
    NamesFitColumns(cs);
    RowsReadBack(data, Rows(cs));
    ColumnEncoded(CleaningCell, EncodeCleaning, data, a4, Rows(cs), |cs|, p7);
    RowsAssemble(data, a3, t, cs, a4, p7);
  }

  lemma RowsAssemble(data: seq<u8>, pos: nat, t: Top, cs: seq<Colour>, p6: nat, p7: nat)
    requires |cs| == t.colourCount
    requires Column(RateCell, data, pos, |cs|) == Done(Rates(cs), p6)
    requires Column(CleaningCell, data, p6, |cs|) == Done(Rows(cs), p7)
    requires p7 + 6 <= |data| && data[p7..p7 + 6] == CortexMagic
    ensures ParseRows(data, pos, t, Means(cs), Totals(cs), Names(cs))
         == Done(Header(t.version, t.kmerSize, t.wordsPerKmer, t.colourCount, cs), p7 + 6)
  {
    AssembleColumns(cs);
  }

  /** Where the sentinels, the fixed block and the colours of an encoded header lie. */
  lemma HeaderPieces(data: seq<u8>, pos: nat, h: Header)
    requires pos + |EncodeHeader(h)| <= |data| && data[pos..pos + |EncodeHeader(h)|] == EncodeHeader(h)
    ensures |EncodeHeader(h)| == 22 + |EncodeColours(h.colours)| + 6
    ensures data[pos..pos + 6] == CortexMagic
    ensures data[pos + 6..pos + 22] == EncodeTop(h)
    ensures data[pos + 22..pos + 22 + |EncodeColours(h.colours)|] == EncodeColours(h.colours)
    ensures data[pos + 22 + |EncodeColours(h.colours)|..pos + 22 + |EncodeColours(h.colours)| + 6] == CortexMagic
  {
    var top := EncodeTop(h);
    var body := EncodeColours(h.colours);
    Pieces(data, pos, CortexMagic + top + body, CortexMagic);
    Pieces(data, pos, CortexMagic + top, body);
    Pieces(data, pos, CortexMagic, top);
  }

  /** Parsing reads an encoded header back, whatever bytes surround it. */
  lemma ParseEncodedHeader(data: seq<u8>, pos: nat, h: Header)
    requires ValidHeader(h)
    requires pos + |EncodeHeader(h)| <= |data| && data[pos..pos + |EncodeHeader(h)|] == EncodeHeader(h)
    ensures ParseHeader(data, pos) == Done(h, pos + |EncodeHeader(h)|)
  {
    HeaderPieces(data, pos, h);
    var p2 := pos + 22;
    var p7 := p2 + |EncodeColours(h.colours)|;
    var t := Top(h.version, h.kmerSize, h.wordsPerKmer, h.colourCount);
    MagicAtIff(data, pos);
    TopEncoded(data, pos + 6, h);
    assert TopCell(data, pos + 6) == Done(t, p2);
    ColoursRead(data, p2, t, h.colours);
    assert ParseColours(data, p2, t) == Done(h, p7 + 6);
  }
}
