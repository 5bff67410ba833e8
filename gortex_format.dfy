/// The header as the older reader in gortex.go (`ReadHeader`) reads it, as a reference
/// parser over a byte string.
///
/// The byte layout is the one of cortex/cortex.go, but this reader checks far less:
///   - the leading six bytes are only stored (`magicChars`) and the trailing six are
///     read and ignored, so neither sentinel is checked and a header lacking the
///     trailing one still reads;
///   - names are kept verbatim, zero bytes included, at their declared length, with no
///     cap on that length;
///   - the 16 error-rate bytes of each colour are skipped;
///   - a flag byte other than 0 or 1 panics (`FlagNotBinary`);
///   - the cleaning-graph name is read into a buffer as long as the LAST colour name:
///     a longer declared length panics (`IndexOutOfRange`), a shorter one leaves the
///     rest of the buffer zero.
/// `ParseHeader` stops with `Truncated` where the bytes run out; the reader itself then
/// goes on with the values it had and returns a header (see `GortexReader`).
module GortexFormat {
  import opened GoInts
  import opened ByteReader
  import opened Columns
  import CortexFormat

  /** The fixed block at the start: six magic bytes and four uint32 fields. */
  datatype HeaderTop = HeaderTop(
    magicChars: seq<u8>,
    versionNumber: u32,
    kmerSize: u32,
    wordsPerKmer: u32,
    colourCount: u32)

  datatype ColourMetaData = ColourMetaData(
    meanReadLength: u32,
    totalSequenceLength: u64,
    name: seq<u8>,
    topClipping: bool,
    removeLowCovSupernodes: bool,
    removeLowCovKmers: bool,
    cleanedAgainstGraph: bool,
    removeLowCovSupernodesThreshold: u32,
    removeLowCovKmersThreshold: u32,
    cleaningGraphName: seq<u8>)

  datatype CortexHeader = CortexHeader(top: HeaderTop, colours: seq<ColourMetaData>)

  /** The four flag bytes of a cleaning record. */
  datatype Flags = Flags(
    topClipping: bool,
    removeLowCovSupernodes: bool,
    removeLowCovKmers: bool,
    cleanedAgainstGraph: bool)

  /** The record read colour by colour after the columns. */
  datatype Cleaning = Cleaning(flags: Flags, supernodesThreshold: u32, kmersThreshold: u32, graphName: seq<u8>)

  /** Size of the fixed block. */
  const TopSize: nat := 22

  const BlankTop: HeaderTop := HeaderTop([0, 0, 0, 0, 0, 0], 0, 0, 0, 0)

  const Blank: ColourMetaData := ColourMetaData(0, 0, [], false, false, false, false, 0, 0, [])

  function Zeros(n: nat): (z: seq<u8>)
    ensures |z| == n && forall i :: 0 <= i < n ==> z[i] == 0
  {
    seq(n, _ => 0)
  }

  // ---------------------------------------------------------------------------
  // Cells

  function TopCell(data: seq<u8>, pos: nat): Parsed<HeaderTop>
  {
    match BytesAt(data, pos, TopSize)
    case None => Fail(Truncated)
    case Some(b) =>
      Done(HeaderTop(b[0..6], U32Of(b[6..10]), U32Of(b[10..14]), U32Of(b[14..18]), U32Of(b[18..22])), pos + TopSize)
  }

  /** A length-prefixed name, kept verbatim. */
  function NameCell(data: seq<u8>, pos: nat): Parsed<seq<u8>>
  {
    match U32At(data, pos)
    case None => Fail(Truncated)
    case Some(n) =>
      match BytesAt(data, pos + 4, n)
      case None => Fail(Truncated)
      case Some(b) => Done(b, pos + 4 + n)
  }

  /** Flag number `flag` (0 to 3) of a cleaning record: 1 is true, 0 is false, anything
    * else panics. */
  function FlagCell(data: seq<u8>, pos: nat, flag: nat): Parsed<bool>
  {
    if pos >= |data| then Fail(Truncated)
    else if data[pos] == 1 then Done(true, pos + 1)
    else if data[pos] == 0 then Done(false, pos + 1)
    else Fail(FlagNotBinary(flag))
  }

  /** The four flags, each checked as it is read. */
  function FlagsCell(data: seq<u8>, pos: nat): Parsed<Flags>
  {
    match FlagCell(data, pos, 0)
    case Fail(e) => Fail(e)
    case Done(f0, _) =>
      match FlagCell(data, pos + 1, 1)
      case Fail(e) => Fail(e)
      case Done(f1, _) =>
        match FlagCell(data, pos + 2, 2)
        case Fail(e) => Fail(e)
        case Done(f2, _) =>
          match FlagCell(data, pos + 3, 3)
          case Fail(e) => Fail(e)
          case Done(f3, _) => Done(Flags(f0, f1, f2, f3), pos + 4)
  }

  /** The cleaning-graph name, read into a buffer of `bufferLength` bytes: a declared
    * length above the buffer's panics before any of its bytes is read. */
  function GraphNameCell(data: seq<u8>, pos: nat, bufferLength: nat): (r: Parsed<seq<u8>>)
    ensures r.Done? ==> |r.value| == bufferLength
  {
    match U32At(data, pos)
    case None => Fail(Truncated)
    case Some(m) =>
      if m > bufferLength then Fail(IndexOutOfRange)
      else
        match BytesAt(data, pos + 4, m)
        case None => Fail(Truncated)
        case Some(b) => Done(b + Zeros(bufferLength - m), pos + 4 + m)
  }

  /** A cleaning record; `bufferLength` is the length of the last colour name. */
  function RowCell(data: seq<u8>, pos: nat, bufferLength: nat): Parsed<Cleaning>
  {
    match FlagsCell(data, pos)
    case Fail(e) => Fail(e)
    case Done(flags, _) =>
      match BytesAt(data, pos + 4, 8)
      case None => Fail(Truncated)
      case Some(b) =>
        match GraphNameCell(data, pos + 12, bufferLength)
        case Fail(e) => Fail(e)
        case Done(name, next) => Done(Cleaning(flags, U32Of(b[0..4]), U32Of(b[4..8]), name), next)
  }

  /** The cell of the cleaning records, with the buffer length fixed. */
  function RowCellOf(bufferLength: nat): (seq<u8>, nat) -> Parsed<Cleaning>
  {
    (data: seq<u8>, pos: nat) => RowCell(data, pos, bufferLength)
  }

  /** What the name-length variable holds after the names column: the length of the
    * last name, or its initial 0 when there are no colours. */
  function LastLength(ns: seq<seq<u8>>): nat
  {
    if |ns| == 0 then 0 else |ns[|ns| - 1]|
  }

  // ---------------------------------------------------------------------------
  // Assembly

  function SetMean(c: ColourMetaData, v: u32): ColourMetaData { c.(meanReadLength := v) }
  function SetTotal(c: ColourMetaData, v: u64): ColourMetaData { c.(totalSequenceLength := v) }
  function SetName(c: ColourMetaData, v: seq<u8>): ColourMetaData { c.(name := v) }
  function SetCleaning(c: ColourMetaData, r: Cleaning): ColourMetaData
  {
    c.(topClipping := r.flags.topClipping,
       removeLowCovSupernodes := r.flags.removeLowCovSupernodes,
       removeLowCovKmers := r.flags.removeLowCovKmers,
       cleanedAgainstGraph := r.flags.cleanedAgainstGraph,
       removeLowCovSupernodesThreshold := r.supernodesThreshold,
       removeLowCovKmersThreshold := r.kmersThreshold,
       cleaningGraphName := r.graphName)
  }

  function Blanks(n: nat): (cs: seq<ColourMetaData>)
    ensures |cs| == n
  {
    seq(n, _ => Blank)
  }

  function Assemble(n: nat, ms: seq<u32>, ts: seq<u64>, ns: seq<seq<u8>>, rows: seq<Cleaning>): (cs: seq<ColourMetaData>)
    requires |ms| == |ts| == |ns| == |rows| == n
    ensures |cs| == n
  {
    Apply(Apply(Apply(Apply(Blanks(n), ms, SetMean), ts, SetTotal), ns, SetName), rows, SetCleaning)
  }

  // ---------------------------------------------------------------------------
  // The header

  function ParseHeader(data: seq<u8>, pos: nat): Parsed<CortexHeader>
  {
    match TopCell(data, pos)
    case Fail(e) => Fail(e)
    case Done(top, p1) => ParseColours(data, p1, top)
  }

  function ParseColours(data: seq<u8>, pos: nat, top: HeaderTop): Parsed<CortexHeader>
  {
    var n := top.colourCount;
    match Column(CortexFormat.U32Cell, data, pos, n)
    case Fail(e) => Fail(e)
    case Done(ms, p2) =>
      match Column(CortexFormat.U64Cell, data, p2, n)
      case Fail(e) => Fail(e)
      case Done(ts, p3) =>
        match Column(NameCell, data, p3, n)
        case Fail(e) => Fail(e)
        case Done(ns, p4) => ParseRows(data, p4, top, ms, ts, ns)
  }

  function ParseRows(data: seq<u8>, pos: nat, top: HeaderTop, ms: seq<u32>, ts: seq<u64>, ns: seq<seq<u8>>): Parsed<CortexHeader>
    requires |ms| == |ts| == |ns| == top.colourCount
  {
    var n := top.colourCount;
    match Column(CortexFormat.RateCell, data, pos, n)
    case Fail(e) => Fail(e)
    case Done(_, p5) =>
      match Column(RowCellOf(LastLength(ns)), data, p5, n)
      case Fail(e) => Fail(e)
      case Done(rows, p6) =>
        // the trailing six bytes are read, and whether they were there does not matter
        Done(CortexHeader(top, Assemble(n, ms, ts, ns, rows)), if p6 + 6 <= |data| then p6 + 6 else |data|)
  }

  // ---------------------------------------------------------------------------
  // Facts about the parser

  /** Colour `j` takes field `j` of every column. */
  lemma AssembleAt(n: nat, ms: seq<u32>, ts: seq<u64>, ns: seq<seq<u8>>, rows: seq<Cleaning>, j: nat)
    requires |ms| == |ts| == |ns| == |rows| == n && j < n
    ensures Assemble(n, ms, ts, ns, rows)[j]
         == ColourMetaData(ms[j], ts[j], ns[j], rows[j].flags.topClipping, rows[j].flags.removeLowCovSupernodes,
                           rows[j].flags.removeLowCovKmers, rows[j].flags.cleanedAgainstGraph,
                           rows[j].supernodesThreshold, rows[j].kmersThreshold, rows[j].graphName)
  {
    var c1 := Apply(Blanks(n), ms, SetMean);
    var c2 := Apply(c1, ts, SetTotal);
    var c3 := Apply(c2, ns, SetName);
    assert c1[j] == Blank.(meanReadLength := ms[j]);
    assert c2[j] == c1[j].(totalSequenceLength := ts[j]);
    assert c3[j] == c2[j].(name := ns[j]);
    assert Assemble(n, ms, ts, ns, rows)[j] == SetCleaning(c3[j], rows[j]);
  }

  /** No cell reads from the end of the data. */
  lemma CellsAtEnd(data: seq<u8>)
    ensures CortexFormat.U32Cell(data, |data|) == Fail(Truncated)
    ensures CortexFormat.U64Cell(data, |data|) == Fail(Truncated)
    ensures CortexFormat.RateCell(data, |data|) == Fail(Truncated)
    ensures NameCell(data, |data|) == Fail(Truncated)
  {
  }

  lemma RowCellAtEnd(data: seq<u8>, bufferLength: nat)
    ensures RowCellOf(bufferLength)(data, |data|) == Fail(Truncated)
  {
  }

  /** With no bytes left a header with colours cannot be read. */
  lemma RowsAtEnd(data: seq<u8>, top: HeaderTop, ms: seq<u32>, ts: seq<u64>, ns: seq<seq<u8>>)
    requires |ms| == |ts| == |ns| == top.colourCount > 0
    ensures ParseRows(data, |data|, top, ms, ts, ns) == Fail(Truncated)
  {
    ColumnAtEnd(CortexFormat.RateCell, data, top.colourCount);
  }

  /** Every cleaning-graph name of a column has the buffer's length. */
  lemma {:induction false} GraphNameLengths(data: seq<u8>, pos: nat, n: nat, bufferLength: nat)
    ensures Column(RowCellOf(bufferLength), data, pos, n).Done? ==>
      forall j :: 0 <= j < n ==> |Column(RowCellOf(bufferLength), data, pos, n).value[j].graphName| == bufferLength
  {
    if n > 0 && Column(RowCellOf(bufferLength), data, pos, n).Done? {
      GraphNameLengths(data, pos, n - 1, bufferLength);
    }
  }

  /** A header that reads has one colour per counted colour, keeps the leading six
    * bytes, whatever they are, as its magic characters, and every cleaning-graph name
    * in it is exactly as long as the last colour name. */
  lemma ParsedHeaderShape(data: seq<u8>, pos: nat)
    ensures ParseHeader(data, pos).Done? ==>
      var h := ParseHeader(data, pos).value;
      && |h.colours| == h.top.colourCount
      && pos + TopSize <= |data| && h.top.magicChars == data[pos..pos + 6]
      && forall j :: 0 <= j < |h.colours| ==> |h.colours[j].cleaningGraphName| == |h.colours[|h.colours| - 1].name|
  {
    if ParseHeader(data, pos).Done? {
      var h := ParseHeader(data, pos).value;
      var top := h.top;
      var n := top.colourCount;
      var ms := Column(CortexFormat.U32Cell, data, pos + TopSize, n);
      var ts := Column(CortexFormat.U64Cell, data, ms.next, n);
      var ns := Column(NameCell, data, ts.next, n);
      var rs := Column(CortexFormat.RateCell, data, ns.next, n);
      var rows := Column(RowCellOf(LastLength(ns.value)), data, rs.next, n);
      assert top.magicChars == data[pos..pos + TopSize][0..6];
      GraphNameLengths(data, rs.next, n, LastLength(ns.value));
      forall j | 0 <= j < n
        ensures |h.colours[j].cleaningGraphName| == |h.colours[n - 1].name|
      {
        AssembleAt(n, ms.value, ts.value, ns.value, rows.value, j);
        AssembleAt(n, ms.value, ts.value, ns.value, rows.value, n - 1);
      }
    }
  }

  /** The ways reading can stop: the bytes ran out, flag number 0 to 3 of some record
    * was neither 0 nor 1, or a cleaning-graph name did not fit its buffer. */
  predicate Expected(e: Failure)
  {
    e == Truncated || e == IndexOutOfRange || (e.FlagNotBinary? && e.flag < 4)
  }

  lemma RowCellFailures(data: seq<u8>, bufferLength: nat)
    ensures forall p: nat :: RowCellOf(bufferLength)(data, p).Fail? ==> Expected(RowCellOf(bufferLength)(data, p).failure)
  {
  }

  /** The sentinels, the name lengths and the trailer are never checked: a header only
    * fails to read for one of the `Expected` reasons. */
  lemma HeaderFailures(data: seq<u8>, pos: nat)
    ensures ParseHeader(data, pos).Fail? ==> Expected(ParseHeader(data, pos).failure)
  {
    match TopCell(data, pos)
    case Fail(_) =>
    case Done(top, p1) =>
      var n := top.colourCount;
      ColumnFailures(CortexFormat.U32Cell, data, p1, n, Expected);
      var ms := Column(CortexFormat.U32Cell, data, p1, n);
      if ms.Done? {
        ColumnFailures(CortexFormat.U64Cell, data, ms.next, n, Expected);
        var ts := Column(CortexFormat.U64Cell, data, ms.next, n);
        if ts.Done? {
          ColumnFailures(NameCell, data, ts.next, n, Expected);
          var ns := Column(NameCell, data, ts.next, n);
          if ns.Done? {
            ColumnFailures(CortexFormat.RateCell, data, ns.next, n, Expected);
            var rs := Column(CortexFormat.RateCell, data, ns.next, n);
            if rs.Done? {
              RowCellFailures(data, LastLength(ns.value));
              ColumnFailures(RowCellOf(LastLength(ns.value)), data, rs.next, n, Expected);
            }
          }
        }
      }
  }

  // ---------------------------------------------------------------------------
  // The leading six bytes are not checked

  /** Two inputs of one length that agree from `from` on. */
  predicate SameFrom(data: seq<u8>, data': seq<u8>, from: nat)
  {
    |data| == |data'| && forall i :: from <= i < |data| ==> data[i] == data'[i]
  }

  lemma BytesAgree(data: seq<u8>, data': seq<u8>, from: nat, p: nat, k: nat)
    requires SameFrom(data, data', from) && from <= p
    ensures BytesAt(data, p, k) == BytesAt(data', p, k)
  {
    if p + k <= |data| {
      assert data[p..p + k] == data'[p..p + k];
    }
  }

  lemma CellsAgreeAt(data: seq<u8>, data': seq<u8>, from: nat, p: nat)
    requires SameFrom(data, data', from) && from <= p
    ensures CortexFormat.U32Cell(data, p) == CortexFormat.U32Cell(data', p)
    ensures CortexFormat.U64Cell(data, p) == CortexFormat.U64Cell(data', p)
    ensures CortexFormat.RateCell(data, p) == CortexFormat.RateCell(data', p)
    ensures NameCell(data, p) == NameCell(data', p)
  {
    BytesAgree(data, data', from, p, 4);
    BytesAgree(data, data', from, p, 8);
    BytesAgree(data, data', from, p, 16);
    if U32At(data, p).Some? {
      BytesAgree(data, data', from, p + 4, U32At(data, p).value);
    }
  }

  lemma RowCellAgreesAt(data: seq<u8>, data': seq<u8>, from: nat, p: nat, bufferLength: nat)
    requires SameFrom(data, data', from) && from <= p
    ensures RowCell(data, p, bufferLength) == RowCell(data', p, bufferLength)
  {
    BytesAgree(data, data', from, p + 4, 8);
    BytesAgree(data, data', from, p + 12, 4);
    if U32At(data, p + 12).Some? {
      BytesAgree(data, data', from, p + 16, U32At(data, p + 12).value);
    }
  }

  /** Every cell reads the same from both inputs. */
  lemma CellsAgree(data: seq<u8>, data': seq<u8>, from: nat, bufferLength: nat)
    requires SameFrom(data, data', from)
    ensures forall p: nat :: from <= p ==> CortexFormat.U32Cell(data, p) == CortexFormat.U32Cell(data', p)
    ensures forall p: nat :: from <= p ==> CortexFormat.U64Cell(data, p) == CortexFormat.U64Cell(data', p)
    ensures forall p: nat :: from <= p ==> CortexFormat.RateCell(data, p) == CortexFormat.RateCell(data', p)
    ensures forall p: nat :: from <= p ==> NameCell(data, p) == NameCell(data', p)
    ensures forall p: nat :: from <= p ==> RowCellOf(bufferLength)(data, p) == RowCellOf(bufferLength)(data', p)
  {
    forall p: nat | from <= p
      ensures CortexFormat.U32Cell(data, p) == CortexFormat.U32Cell(data', p)
      ensures CortexFormat.U64Cell(data, p) == CortexFormat.U64Cell(data', p)
      ensures CortexFormat.RateCell(data, p) == CortexFormat.RateCell(data', p)
      ensures NameCell(data, p) == NameCell(data', p)
      ensures RowCellOf(bufferLength)(data, p) == RowCellOf(bufferLength)(data', p)
    {
      CellsAgreeAt(data, data', from, p);
      RowCellAgreesAt(data, data', from, p, bufferLength);
    }
  }

  /** No cell moves backwards. */
  lemma CellsForward(data: seq<u8>, bufferLength: nat)
    ensures forall p: nat :: CortexFormat.U32Cell(data, p).Done? ==> p <= CortexFormat.U32Cell(data, p).next
    ensures forall p: nat :: CortexFormat.U64Cell(data, p).Done? ==> p <= CortexFormat.U64Cell(data, p).next
    ensures forall p: nat :: CortexFormat.RateCell(data, p).Done? ==> p <= CortexFormat.RateCell(data, p).next
    ensures forall p: nat :: NameCell(data, p).Done? ==> p <= NameCell(data, p).next
    ensures forall p: nat :: RowCellOf(bufferLength)(data, p).Done? ==> p <= RowCellOf(bufferLength)(data, p).next
  {
  }

  /** Past the fixed block both inputs read the same colours; a header's top only
    * travels along. */
  lemma RowsAgree(data: seq<u8>, data': seq<u8>, from: nat, pos: nat, top: HeaderTop, top': HeaderTop,
                  ms: seq<u32>, ts: seq<u64>, ns: seq<seq<u8>>)
    requires SameFrom(data, data', from) && from <= pos
    requires top'.colourCount == top.colourCount == |ms| == |ts| == |ns|
    ensures ParseRows(data', pos, top', ms, ts, ns) ==
      match ParseRows(data, pos, top, ms, ts, ns)
      case Done(h, next) => Done(h.(top := top'), next)
      case Fail(e) => Fail(e)
  {
    var n := top.colourCount;
    CellsAgree(data, data', from, LastLength(ns));
    CellsForward(data, LastLength(ns));
    ColumnsAgree(CortexFormat.RateCell, data, data', from, pos, n);
    var rs := Column(CortexFormat.RateCell, data, pos, n);
    if rs.Done? {
      ColumnsAgree(RowCellOf(LastLength(ns)), data, data', from, rs.next, n);
    }
  }

  lemma ColoursAgree(data: seq<u8>, data': seq<u8>, from: nat, pos: nat, top: HeaderTop, top': HeaderTop)
    requires SameFrom(data, data', from) && from <= pos
    requires top'.colourCount == top.colourCount
    ensures ParseColours(data', pos, top') ==
      match ParseColours(data, pos, top)
      case Done(h, next) => Done(h.(top := top'), next)
      case Fail(e) => Fail(e)
  {
    var n := top.colourCount;
    CellsAgree(data, data', from, 0);
    CellsForward(data, 0);
    ColumnsAgree(CortexFormat.U32Cell, data, data', from, pos, n);
    var ms := Column(CortexFormat.U32Cell, data, pos, n);
    if ms.Done? {
      ColumnsAgree(CortexFormat.U64Cell, data, data', from, ms.next, n);
      var ts := Column(CortexFormat.U64Cell, data, ms.next, n);
      if ts.Done? {
        ColumnsAgree(NameCell, data, data', from, ts.next, n);
        var ns := Column(NameCell, data, ts.next, n);
        if ns.Done? {
          RowsAgree(data, data', from, ns.next, top, top', ms.value, ts.value, ns.value);
        }
      }
    }
  }

  /** The fixed block keeps the leading six bytes as they are. */
  lemma TopAgrees(data: seq<u8>, data': seq<u8>, pos: nat)
    requires pos + 6 <= |data| && SameFrom(data, data', pos + 6)
    ensures TopCell(data', pos) ==
      match TopCell(data, pos)
      case Done(t, next) => Done(t.(magicChars := data'[pos..pos + 6]), next)
      case Fail(e) => Fail(e)
  {
    if pos + TopSize <= |data| {
      var b, b' := data[pos..pos + TopSize], data'[pos..pos + TopSize];
      assert b'[0..6] == data'[pos..pos + 6];
      assert forall i :: 6 <= i < TopSize ==> b[i] == b'[i];
      assert b[6..10] == b'[6..10] && b[10..14] == b'[10..14];
      assert b[14..18] == b'[14..18] && b[18..22] == b'[18..22];
    }
  }

  /** Unlike cortex/cortex.go, this reader accepts any six leading bytes: two inputs
    * that differ only there read alike, each header keeping its own six bytes. */
  lemma AnyMagic(data: seq<u8>, data': seq<u8>, pos: nat)
    requires pos + 6 <= |data| && SameFrom(data, data', pos + 6)
    ensures ParseHeader(data', pos) ==
      match ParseHeader(data, pos)
      case Done(h, next) => Done(h.(top := h.top.(magicChars := data'[pos..pos + 6])), next)
      case Fail(e) => Fail(e)
  {
    TopAgrees(data, data', pos);
    if pos + TopSize <= |data| {
      var top := TopCell(data, pos).value;
      ColoursAgree(data, data', pos + 6, pos + TopSize, top, top.(magicChars := data'[pos..pos + 6]));
    }
  }

  // ---------------------------------------------------------------------------
  // The cleaning-graph name buffer (gortex.go:145-151)
  //
  // The buffer for the cleaning-graph name is made as long as the last colour name,
  // not as long as the cleaning-graph name that was just read.  `RowCellFixed` reads
  // the name at its own length.

  /** A cleaning record as a file stores it: the graph name after its own length. */
  function EncodeRow(r: Cleaning): (e: seq<u8>)
    requires |r.graphName| < TwoTo32
    ensures |e| == 16 + |r.graphName|
  {
    [CortexFormat.FlagByte(r.flags.topClipping), CortexFormat.FlagByte(r.flags.removeLowCovSupernodes),
     CortexFormat.FlagByte(r.flags.removeLowCovKmers), CortexFormat.FlagByte(r.flags.cleanedAgainstGraph)]
    + LeBytes(r.supernodesThreshold, 4) + LeBytes(r.kmersThreshold, 4) + LeBytes(|r.graphName|, 4) + r.graphName
  }

  /** The cleaning record with its graph name read at the declared length. */
  function RowCellFixed(data: seq<u8>, pos: nat): Parsed<Cleaning>
  {
    match FlagsCell(data, pos)
    case Fail(e) => Fail(e)
    case Done(flags, _) =>
      match BytesAt(data, pos + 4, 8)
      case None => Fail(Truncated)
      case Some(b) =>
        match NameCell(data, pos + 12)
        case Fail(e) => Fail(e)
        case Done(name, next) => Done(Cleaning(flags, U32Of(b[0..4]), U32Of(b[4..8]), name), next)
  }

  /** How an encoded record lies in the bytes. */
  lemma RowBytes(r: Cleaning, rest: seq<u8>)
    requires |r.graphName| < TwoTo32
    ensures var d := EncodeRow(r) + rest;
      && FlagsCell(d, 0) == Done(r.flags, 4)
      && BytesAt(d, 4, 8).Some? && U32Of(BytesAt(d, 4, 8).value[0..4]) == r.supernodesThreshold
      && U32Of(BytesAt(d, 4, 8).value[4..8]) == r.kmersThreshold
      && U32At(d, 12) == Some(|r.graphName|)
      && BytesAt(d, 16, |r.graphName|) == Some(r.graphName)
  {
    var d := EncodeRow(r) + rest;
    var g := r.graphName;
    var e2, e3 := LeBytes(r.supernodesThreshold, 4), LeBytes(r.kmersThreshold, 4);
    assert forall i :: 0 <= i < 4 ==> d[4 + i] == e2[i] && d[8 + i] == e3[i];
    assert d[4..12][0..4] == d[4..8] == e2;
    assert d[4..12][4..8] == d[8..12] == e3;
    assert d[12..16] == LeBytes(|g|, 4);
    assert d[16..16 + |g|] == g;
    U32RoundTrip(r.supernodesThreshold, d[4..8]);
    U32RoundTrip(r.kmersThreshold, d[8..12]);
    Pow256Widths();
    U32AtEncoded(d, 12, |g|);
  }

  /** As written: a record whose graph name is longer than the last colour name
    * panics, and a shorter one comes back padded with zero bytes to that length. */
  lemma RowAsWritten(r: Cleaning, rest: seq<u8>, bufferLength: nat)
    requires |r.graphName| < TwoTo32
    ensures RowCell(EncodeRow(r) + rest, 0, bufferLength) ==
      if |r.graphName| > bufferLength then Fail(IndexOutOfRange)
      else Done(r.(graphName := r.graphName + Zeros(bufferLength - |r.graphName|)), |EncodeRow(r)|)
  {
    RowBytes(r, rest);
  }

  /** Corrected: every encoded record reads back as it was, whatever the colour names. */
  lemma RowFixedRoundTrip(r: Cleaning, rest: seq<u8>)
    requires |r.graphName| < TwoTo32
    ensures RowCellFixed(EncodeRow(r) + rest, 0) == Done(r, |EncodeRow(r)|)
  {
    RowBytes(r, rest);
  }

  /** Where the declared graph-name length is the buffer's, the code as written reads
    * what the corrected reader reads. */
  lemma RowFixedAgrees(data: seq<u8>, pos: nat, bufferLength: nat)
    requires U32At(data, pos + 12) == Some(bufferLength)
    ensures RowCell(data, pos, bufferLength) == RowCellFixed(data, pos)
  {
    var m := bufferLength;
    if BytesAt(data, pos + 16, m).Some? {
      assert data[pos + 16..pos + 16 + m] + Zeros(0) == data[pos + 16..pos + 16 + m];
    }
  }
}
