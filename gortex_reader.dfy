/// `ReadHeader` (gortex.go): the header read step by step from a `Reader`, proved
/// against `GortexFormat.ParseHeader`.
///
/// The reads follow the Go code one by one.  Nothing is checked but the flag bytes and
/// the size of the cleaning-graph name buffer, and those two checks panic; a panic is
/// modelled as the outcome `Panicked`.  When the data runs out every read leaves its
/// target as it was, the loops go on reading nothing, and a header is returned all the
/// same: the flag variables still hold 0 or 1 from the last record (or their initial
/// 0), and the fresh cleaning-graph name length is 0, so no check can fail after that.
module GortexReader {
  import opened GoInts
  import opened ByteReader
  import opened Columns
  import CortexFormat
  import opened GortexFormat

  /** What `ReadHeader` does: return a header, or panic. */
  datatype Outcome = Returned(header: CortexHeader) | Panicked(reason: Failure)

  /** A rate record changes no field: the error rates are read and dropped. */
  function Skip(c: ColourMetaData, rate: CortexFormat.ErrorRate): ColourMetaData { c }

  /** The fixed block, one `binary.Read` of the 22-byte struct: a short read leaves it zero. */
  method ReadTop(r: Reader) returns (top: HeaderTop)
    requires r.Valid()
    modifies r
    ensures r.Valid()
    ensures match TopCell(r.data, old(r.pos))
      case Done(t, next) => top == t && r.pos == next
      case Fail(_) => top == BlankTop && r.pos == |r.data|
  {
    var b, ok := r.ReadBytes(TopSize, Zeros(TopSize));
    if ok {
      top := HeaderTop(b[0..6], U32Of(b[6..10]), U32Of(b[10..14]), U32Of(b[14..18]), U32Of(b[18..22]));
    } else {
      top := BlankTop;
    }
  }

  method ReadMeanReadLengths(r: Reader, cs: seq<ColourMetaData>) returns (cs': seq<ColourMetaData>)
    requires r.Valid()
    modifies r
    ensures r.Valid() && |cs'| == |cs|
    ensures Tracks(Column(CortexFormat.U32Cell, r.data, old(r.pos), |cs|), r.pos, |r.data|, cs', cs, SetMean)
  {
    ghost var data := r.data;
    ghost var p0 := r.pos;
    CellsAtEnd(data);
    cs' := cs;
    var i := 0;
    while i < |cs|
      invariant i <= |cs| == |cs'|
      invariant r.Valid()
      invariant Tracks(Column(CortexFormat.U32Cell, data, p0, i), r.pos, |data|, cs', cs, SetMean)
    {
      ghost var pos := r.pos;
      ghost var before := cs';
      var v, ok := r.ReadU32(cs'[i].meanReadLength);
      cs' := cs'[i := cs'[i].(meanReadLength := v)];
      TracksStep(CortexFormat.U32Cell, data, p0, i, cs, SetMean, pos, before, r.pos, cs');
      i := i + 1;
    }
  }

  method ReadTotalSequenceLengths(r: Reader, cs: seq<ColourMetaData>) returns (cs': seq<ColourMetaData>)
    requires r.Valid()
    modifies r
    ensures r.Valid() && |cs'| == |cs|
    ensures Tracks(Column(CortexFormat.U64Cell, r.data, old(r.pos), |cs|), r.pos, |r.data|, cs', cs, SetTotal)
  {
    ghost var data := r.data;
    ghost var p0 := r.pos;
    CellsAtEnd(data);
    cs' := cs;
    var i := 0;
    while i < |cs|
      invariant i <= |cs| == |cs'|
      invariant r.Valid()
      invariant Tracks(Column(CortexFormat.U64Cell, data, p0, i), r.pos, |data|, cs', cs, SetTotal)
    {
      ghost var pos := r.pos;
      ghost var before := cs';
      var v, ok := r.ReadU64(cs'[i].totalSequenceLength);
      cs' := cs'[i := cs'[i].(totalSequenceLength := v)];
      TracksStep(CortexFormat.U64Cell, data, p0, i, cs, SetTotal, pos, before, r.pos, cs');
      i := i + 1;
    }
  }

  /** One name: its length, then that many single-byte reads into a fresh buffer.  The
    * length and the byte are the variables the Go loop keeps from one colour to the
    * next: a short read leaves them as they were. */
  method ReadName(r: Reader, priorLength: u32, priorChar: u8) returns (nameLength: u32, singleChar: u8, name: seq<u8>)
    requires r.Valid()
    modifies r
    ensures r.Valid()
    ensures match NameCell(r.data, old(r.pos))
      case Done(w, next) => name == w && nameLength == |w| && r.pos == next
      case Fail(e) => e == Truncated && r.pos == |r.data|
  {
    ghost var data := r.data;
    ghost var start := r.pos + 4;
    var ok;
    nameLength, ok := r.ReadU32(priorLength);
    var b := new u8[nameLength](_ => 0);
    singleChar := priorChar;
    var j: nat := 0;
    while j < nameLength
      invariant j <= nameLength
      invariant r.Valid()
      invariant !ok ==> r.pos == |data|
      invariant ok && start + j <= |data| ==> r.pos == start + j && b[..j] == data[start..start + j]
      invariant ok && start + j > |data| ==> r.pos == |data|
    {
      var read;
      singleChar, read := r.ReadU8(singleChar);
      b[j] := singleChar;
      if ok && start + j + 1 <= |data| {
        assert b[..j + 1] == b[..j] + [b[j]];
        assert data[start..start + j + 1] == data[start..start + j] + [data[start + j]];
      }
      j := j + 1;
    }
    name := b[..];
    assert ok && start + j <= |data| ==> name == b[..j];
  }

  /** Every colour's name; the length variable ends up holding the last one's. */
  method ReadNames(r: Reader, cs: seq<ColourMetaData>) returns (nameLength: u32, cs': seq<ColourMetaData>)
    requires r.Valid()
    modifies r
    ensures r.Valid() && |cs'| == |cs|
    ensures Tracks(Column(NameCell, r.data, old(r.pos), |cs|), r.pos, |r.data|, cs', cs, SetName)
    ensures Column(NameCell, r.data, old(r.pos), |cs|).Done? ==>
      nameLength == LastLength(Column(NameCell, r.data, old(r.pos), |cs|).value)
  {
    ghost var data := r.data;
    ghost var p0 := r.pos;
    CellsAtEnd(data);
    cs' := cs;
    nameLength := 0;
    var singleChar: u8 := 0;
    var i := 0;
    while i < |cs|
      invariant i <= |cs| == |cs'|
      invariant r.Valid()
      invariant Tracks(Column(NameCell, data, p0, i), r.pos, |data|, cs', cs, SetName)
      invariant Column(NameCell, data, p0, i).Done? ==> nameLength == LastLength(Column(NameCell, data, p0, i).value)
    {
      ghost var pos := r.pos;
      ghost var before := cs';
      var name;
      nameLength, singleChar, name := ReadName(r, nameLength, singleChar);
      cs' := cs'[i := cs'[i].(name := name)];
      TracksStep(NameCell, data, p0, i, cs, SetName, pos, before, r.pos, cs');
      i := i + 1;
    }
  }

  /** The error rates: two 8-byte reads per colour into one variable, then dropped. */
  method SkipErrorRates(r: Reader, cs: seq<ColourMetaData>)
    requires r.Valid()
    modifies r
    ensures r.Valid()
    ensures Tracks(Column(CortexFormat.RateCell, r.data, old(r.pos), |cs|), r.pos, |r.data|, cs, cs, Skip)
  {
    ghost var data := r.data;
    ghost var p0 := r.pos;
    CellsAtEnd(data);
    var errorRate: seq<u8> := Zeros(8);
    var i := 0;
    while i < |cs|
      invariant i <= |cs|
      invariant r.Valid() && |errorRate| == 8
      invariant Tracks(Column(CortexFormat.RateCell, data, p0, i), r.pos, |data|, cs, cs, Skip)
    {
      ghost var pos := r.pos;
      var ok;
      errorRate, ok := r.ReadBytes(8, errorRate);
      errorRate, ok := r.ReadBytes(8, errorRate);
      assert cs[i := cs[i]] == cs;
      TracksStep(CortexFormat.RateCell, data, p0, i, cs, Skip, pos, cs, r.pos, cs);
      i := i + 1;
    }
  }

  /** One flag byte into its variable; a byte other than 0 or 1 panics. */
  method ReadFlag(r: Reader, prior: u8, k: nat) returns (b: u8, flag: bool, bad: bool)
    requires r.Valid() && prior <= 1
    modifies r
    ensures r.Valid()
    ensures match FlagCell(r.data, old(r.pos), k)
      case Done(v, next) => !bad && b <= 1 && flag == v && r.pos == next
      case Fail(e) => if e == Truncated then !bad && b == prior && r.pos == |r.data| else bad
  {
    var ok;
    b, ok := r.ReadU8(prior);
    bad := false;
    if b == 1 {
      flag := true;
    } else if b == 0 {
      flag := false;
    } else {
      flag, bad := false, true;
    }
  }

  /** The four flags of a cleaning record. */
  method ReadFlags(r: Reader, b0: u8, b1: u8, b2: u8, b3: u8)
      returns (b0': u8, b1': u8, b2': u8, b3': u8, flags: Flags, panic: Option<Failure>)
    requires r.Valid() && b0 <= 1 && b1 <= 1 && b2 <= 1 && b3 <= 1
    modifies r
    ensures r.Valid()
    ensures panic == None ==> b0' <= 1 && b1' <= 1 && b2' <= 1 && b3' <= 1
    ensures match FlagsCell(r.data, old(r.pos))
      case Done(f, next) => panic == None && flags == f && r.pos == next
      case Fail(e) => if e == Truncated then panic == None && r.pos == |r.data| else panic == Some(e)
  {
    var f0, f1, f2, f3, bad;
    b0', f0, bad := ReadFlag(r, b0, 0);
    if bad {
      return b0', b1, b2, b3, Flags(false, false, false, false), Some(FlagNotBinary(0));
    }
    b1', f1, bad := ReadFlag(r, b1, 1);
    if bad {
      return b0', b1', b2, b3, Flags(false, false, false, false), Some(FlagNotBinary(1));
    }
    b2', f2, bad := ReadFlag(r, b2, 2);
    if bad {
      return b0', b1', b2', b3, Flags(false, false, false, false), Some(FlagNotBinary(2));
    }
    b3', f3, bad := ReadFlag(r, b3, 3);
    if bad {
      return b0', b1', b2', b3', Flags(false, false, false, false), Some(FlagNotBinary(3));
    }
    flags, panic := Flags(f0, f1, f2, f3), None;
  }

  /** The cleaning-graph name: its length into a fresh variable, then that many bytes
    * into a buffer as long as the last colour name; indexing past the buffer panics. */
  method ReadGraphName(r: Reader, bufferLength: u32) returns (name: seq<u8>, overflow: bool)
    requires r.Valid()
    modifies r
    ensures r.Valid()
    ensures overflow <==> GraphNameCell(r.data, old(r.pos), bufferLength) == Fail(IndexOutOfRange)
    ensures !overflow ==> match GraphNameCell(r.data, old(r.pos), bufferLength)
      case Done(w, next) => name == w && r.pos == next
      case Fail(e) => e == Truncated && r.pos == |r.data|
  {
    ghost var data := r.data;
    ghost var start := r.pos + 4;
    var cleaningGraphNameLength, ok := r.ReadU32(0);
    var b := new u8[bufferLength](_ => 0);
    overflow := false;
    var i: nat := 0;
    while i < cleaningGraphNameLength
      invariant i <= cleaningGraphNameLength && i <= bufferLength
      invariant r.Valid()
      invariant !ok ==> cleaningGraphNameLength == 0 && r.pos == |data|
      invariant ok && start + i <= |data| ==> r.pos == start + i && b[..i] == data[start..start + i]
      invariant ok && start + i > |data| ==> r.pos == |data|
      invariant forall p :: i <= p < bufferLength ==> b[p] == 0
    {
      if i >= bufferLength {
        name, overflow := [], true;
        return;
      }
      var v, read := r.ReadU8(b[i]);
      b[i] := v;
      if ok && start + i + 1 <= |data| {
        assert b[..i + 1] == b[..i] + [b[i]];
        assert data[start..start + i + 1] == data[start..start + i] + [data[start + i]];
      }
      i := i + 1;
    }
    name := b[..];
    if ok && start + i <= |data| {
      assert name == b[..i] + Zeros(bufferLength - i);
    }
  }

  /** What reading one cleaning record leaves: the record set into `colour` and the
    * position after it, the position at the end when the data ran out, or a panic. */
  ghost predicate RowOutcome(cell: Parsed<Cleaning>, colour: ColourMetaData, pos: nat, end: nat,
                             c: ColourMetaData, panic: Option<Failure>)
  {
    match cell
    case Done(row, next) => panic == None && pos == next && c == SetCleaning(colour, row)
    case Fail(e) => if e == Truncated then panic == None && pos == end else panic == Some(e)
  }

  /** One colour's cleaning record into a copy of its metadata.  The flag bytes are the
    * variables the Go loop keeps from one colour to the next. */
  method ReadRow(r: Reader, colour: ColourMetaData, b0: u8, b1: u8, b2: u8, b3: u8, bufferLength: u32)
      returns (b0': u8, b1': u8, b2': u8, b3': u8, c: ColourMetaData, panic: Option<Failure>)
    requires r.Valid() && b0 <= 1 && b1 <= 1 && b2 <= 1 && b3 <= 1
    modifies r
    ensures r.Valid()
    ensures panic == None ==> b0' <= 1 && b1' <= 1 && b2' <= 1 && b3' <= 1
    ensures RowOutcome(RowCellOf(bufferLength)(r.data, old(r.pos)), colour, r.pos, |r.data|, c, panic)
  {
    ghost var data := r.data;
    ghost var p := r.pos;
    var flags;
    b0', b1', b2', b3', flags, panic := ReadFlags(r, b0, b1, b2, b3);
    c := colour;
    if panic.Some? {
      FlagsStop(data, p, bufferLength, panic.value);
      return;
    }
    ghost var q0 := r.pos;
    c := c.(topClipping := flags.topClipping, removeLowCovSupernodes := flags.removeLowCovSupernodes,
            removeLowCovKmers := flags.removeLowCovKmers, cleanedAgainstGraph := flags.cleanedAgainstGraph);
    var t1, t2, ok1, ok2;
    t1, ok1 := r.ReadU32(c.removeLowCovSupernodesThreshold);
    c := c.(removeLowCovSupernodesThreshold := t1);
    ghost var q1 := r.pos;
    t2, ok2 := r.ReadU32(c.removeLowCovKmersThreshold);
    c := c.(removeLowCovKmersThreshold := t2);
    ghost var q2 := r.pos;
    var name, overflow := ReadGraphName(r, bufferLength);
    RowRead(data, p, bufferLength, flags, q0, t1, ok1, q1, t2, ok2, q2, name, overflow, r.pos);
    if overflow {
      panic := Some(IndexOutOfRange);
      return;
    }
    c := c.(cleaningGraphName := name);
    assert c == SetCleaning(colour, Cleaning(flags, t1, t2, name));
  }

  /** A bad flag byte ends the cleaning record with that panic. */
  lemma FlagsStop(data: seq<u8>, p: nat, bufferLength: nat, e: Failure)
    requires FlagsCell(data, p) == Fail(e)
    ensures RowCellOf(bufferLength)(data, p) == Fail(e)
  {
  }

  /** The two thresholds, each read from where the previous read left the stream:
    * both values of the record's 8 threshold bytes, or the stream at its end. */
  lemma ThresholdsRead(data: seq<u8>, p: nat, q0: nat, t1: u32, ok1: bool, q1: nat, t2: u32, ok2: bool, q2: nat)
    requires q0 == p + 4 || q0 == |data|
    requires q0 <= |data|
    requires U32At(data, q0) == (if ok1 then Some(t1) else None)
    requires q1 == if ok1 then q0 + 4 else |data|
    requires U32At(data, q1) == (if ok2 then Some(t2) else None)
    requires q2 == if ok2 then q1 + 4 else |data|
    ensures q2 <= |data|
    ensures q0 == p + 4 ==> match BytesAt(data, p + 4, 8)
      case None => q2 == |data|
      case Some(b) => q2 == p + 12 && t1 == U32Of(b[0..4]) && t2 == U32Of(b[4..8])
    ensures q0 == |data| ==> q2 == |data|
  {
    if q0 == p + 4 && p + 12 <= |data| {
      assert data[p + 4..p + 12][0..4] == data[p + 4..p + 8];
      assert data[p + 4..p + 12][4..8] == data[p + 8..p + 12];
    }
  }

  /** A cleaning record after its flags: what `ReadRow` leaves is the record's outcome. */
  lemma RowRead(data: seq<u8>, p: nat, bufferLength: nat, flags: Flags, q0: nat,
                t1: u32, ok1: bool, q1: nat, t2: u32, ok2: bool, q2: nat,
                name: seq<u8>, overflow: bool, pos: nat)
    requires p <= |data|
    requires match FlagsCell(data, p)
      case Done(f, next) => flags == f && q0 == next
      case Fail(e) => e == Truncated && q0 == |data|
    requires U32At(data, q0) == (if ok1 then Some(t1) else None)
    requires q1 == if ok1 then q0 + 4 else |data|
    requires U32At(data, q1) == (if ok2 then Some(t2) else None)
    requires q2 == if ok2 then q1 + 4 else |data|
    requires overflow <==> GraphNameCell(data, q2, bufferLength) == Fail(IndexOutOfRange)
    requires !overflow ==> match GraphNameCell(data, q2, bufferLength)
      case Done(w, next) => name == w && pos == next
      case Fail(e) => e == Truncated && pos == |data|
    ensures overflow ==> RowCellOf(bufferLength)(data, p) == Fail(IndexOutOfRange)
    ensures !overflow ==> match RowCellOf(bufferLength)(data, p)
      case Done(row, next) => row == Cleaning(flags, t1, t2, name) && pos == next
      case Fail(e) => e == Truncated && pos == |data|
  {
    assert FlagsCell(data, p).Done? ==> q0 == p + 4;
    ThresholdsRead(data, p, q0, t1, ok1, q1, t2, ok2, q2);
  }

  /** Every colour's cleaning record; stops at the first panic. */
  method ReadRows(r: Reader, cs: seq<ColourMetaData>, bufferLength: u32) returns (cs': seq<ColourMetaData>, panic: Option<Failure>)
    requires r.Valid()
    modifies r
    ensures r.Valid() && |cs'| == |cs|
    ensures panic.Some? ==>
      panic.value != Truncated && Column(RowCellOf(bufferLength), r.data, old(r.pos), |cs|) == Fail(panic.value)
    ensures panic == None ==>
      Tracks(Column(RowCellOf(bufferLength), r.data, old(r.pos), |cs|), r.pos, |r.data|, cs', cs, SetCleaning)
  {
    ghost var data := r.data;
    ghost var p0 := r.pos;
    cs' := cs;
    panic := None;
    var topClipping, removeLowCovSupernodes, removeLowCovKmers, cleanedAgainstGraph: u8 := 0, 0, 0, 0;
    var i := 0;
    while i < |cs|
      invariant i <= |cs| == |cs'|
      invariant r.Valid() && panic == None
      invariant topClipping <= 1 && removeLowCovSupernodes <= 1 && removeLowCovKmers <= 1 && cleanedAgainstGraph <= 1
      invariant Tracks(Column(RowCellOf(bufferLength), data, p0, i), r.pos, |data|, cs', cs, SetCleaning)
    {
      ghost var pos := r.pos;
      ghost var before := cs';
      var colour;
      topClipping, removeLowCovSupernodes, removeLowCovKmers, cleanedAgainstGraph, colour, panic :=
        ReadRow(r, cs'[i], topClipping, removeLowCovSupernodes, removeLowCovKmers, cleanedAgainstGraph, bufferLength);
      RowAdvance(data, p0, i, bufferLength, cs, before, pos, r.pos, colour, panic);
      if panic.Some? {
        return;
      }
      cs' := cs'[i := colour];
      i := i + 1;
    }
  }

  /** One cleaning record read by `ReadRow`: the loop moves on, or the column fails. */
  lemma RowAdvance(data: seq<u8>, p0: nat, i: nat, bufferLength: u32, cs: seq<ColourMetaData>,
                   before: seq<ColourMetaData>, pos: nat, pos': nat, c: ColourMetaData, panic: Option<Failure>)
    requires i < |cs| == |before|
    requires Tracks(Column(RowCellOf(bufferLength), data, p0, i), pos, |data|, before, cs, SetCleaning)
    requires RowOutcome(RowCellOf(bufferLength)(data, pos), before[i], pos', |data|, c, panic)
    ensures panic.Some? ==>
      panic.value != Truncated && Column(RowCellOf(bufferLength), data, p0, |cs|) == Fail(panic.value)
    ensures panic == None ==>
      Tracks(Column(RowCellOf(bufferLength), data, p0, i + 1), pos', |data|, before[i := c], cs, SetCleaning)
  {
    RowCellAtEnd(data, bufferLength);
    if panic.Some? {
      AdvanceOrStop(RowCellOf(bufferLength), data, p0, i, |cs|, cs, SetCleaning, pos, before, pos', before,
                    true, panic.value);
    } else {
      AdvanceOrStop(RowCellOf(bufferLength), data, p0, i, |cs|, cs, SetCleaning, pos, before, pos', before[i := c],
                    false, IndexOutOfRange);
    }
  }

  /** After the first three columns: the values they read (any values once the data
    * has run out), on which the rest of the header depends. */
  lemma HeadDone(data: seq<u8>, top: HeaderTop, p1: nat, p2: nat, p3: nat, p4: nat, nameLength: nat,
                 c1: seq<ColourMetaData>, c2: seq<ColourMetaData>, c3: seq<ColourMetaData>)
      returns (ms: seq<u32>, ts: seq<u64>, ns: seq<seq<u8>>)
    requires Tracks(Column(CortexFormat.U32Cell, data, p1, top.colourCount), p2, |data|, c1, Blanks(top.colourCount), SetMean)
    requires Tracks(Column(CortexFormat.U64Cell, data, p2, top.colourCount), p3, |data|, c2, c1, SetTotal)
    requires Tracks(Column(NameCell, data, p3, top.colourCount), p4, |data|, c3, c2, SetName)
    requires Column(NameCell, data, p3, top.colourCount).Done? ==>
      nameLength == LastLength(Column(NameCell, data, p3, top.colourCount).value)
    ensures |ms| == |ts| == |ns| == top.colourCount
    ensures p4 < |data| ==>
      && c3 == Apply(Apply(Apply(Blanks(top.colourCount), ms, SetMean), ts, SetTotal), ns, SetName)
      && nameLength == LastLength(ns)
    ensures ParseColours(data, p1, top) == ParseRows(data, p4, top, ms, ts, ns)
  {
    var n := top.colourCount;
    CellsAtEnd(data);
    ColumnAtEnd(CortexFormat.U64Cell, data, n);
    ColumnAtEnd(NameCell, data, n);
    var r1, r2, r3 := Column(CortexFormat.U32Cell, data, p1, n), Column(CortexFormat.U64Cell, data, p2, n), Column(NameCell, data, p3, n);
    if r1.Done? && r2.Done? && r3.Done? {
      ms, ts, ns := r1.value, r2.value, r3.value;
    } else {
      ms, ts, ns := seq(n, _ => 0), seq(n, _ => 0), seq(n, _ => []);
      RowsAtEnd(data, top, ms, ts, ns);
    }
  }

  /** A panic among the cleaning records is the outcome of the whole header. */
  lemma RowsStop(data: seq<u8>, top: HeaderTop, ms: seq<u32>, ts: seq<u64>, ns: seq<seq<u8>>,
                 p4: nat, p5: nat, bufferLength: nat, c3: seq<ColourMetaData>, e: Failure)
    requires |ms| == |ts| == |ns| == top.colourCount && p4 <= |data| && e != Truncated
    requires p4 < |data| ==> bufferLength == LastLength(ns)
    requires Tracks(Column(CortexFormat.RateCell, data, p4, top.colourCount), p5, |data|, c3, c3, Skip)
    requires Column(RowCellOf(bufferLength), data, p5, top.colourCount) == Fail(e)
    ensures ParseRows(data, p4, top, ms, ts, ns) == Fail(e)
  {
    var n := top.colourCount;
    CellsAtEnd(data);
    RowCellAtEnd(data, bufferLength);
    ColumnAtEnd(CortexFormat.RateCell, data, n);
    ColumnAtEnd(RowCellOf(bufferLength), data, n);
  }

  /** After the last two columns the colours are the header's. */
  lemma RowsDone(data: seq<u8>, top: HeaderTop, ms: seq<u32>, ts: seq<u64>, ns: seq<seq<u8>>,
                 p4: nat, p5: nat, p6: nat, bufferLength: nat, c3: seq<ColourMetaData>, c5: seq<ColourMetaData>)
    requires |ms| == |ts| == |ns| == |c3| == top.colourCount && p4 <= |data|
    requires p4 < |data| ==>
      && c3 == Apply(Apply(Apply(Blanks(top.colourCount), ms, SetMean), ts, SetTotal), ns, SetName)
      && bufferLength == LastLength(ns)
    requires Tracks(Column(CortexFormat.RateCell, data, p4, top.colourCount), p5, |data|, c3, c3, Skip)
    requires Tracks(Column(RowCellOf(bufferLength), data, p5, top.colourCount), p6, |data|, c5, c3, SetCleaning)
    ensures match ParseRows(data, p4, top, ms, ts, ns)
      case Done(h, next) => h == CortexHeader(top, c5) && next == if p6 + 6 <= |data| then p6 + 6 else |data|
      case Fail(e) => e == Truncated && p6 == |data|
  {
    var n := top.colourCount;
    CellsAtEnd(data);
    RowCellAtEnd(data, bufferLength);
    ColumnAtEnd(CortexFormat.RateCell, data, n);
    ColumnAtEnd(RowCellOf(bufferLength), data, n);
    var r4 := Column(CortexFormat.RateCell, data, p4, n);
    if r4.Done? {
      var r5 := Column(RowCellOf(bufferLength), data, p5, n);
      if n == 0 {
        assert c5 == [] == Assemble(n, ms, ts, ns, []);
      } else if r5.Done? {
        assert c5 == Assemble(n, ms, ts, ns, r5.value);
      }
    }
  }

  /** `ReadHeader`: the header from the current position, or the panic.  When the
    * reference parser reads a header the method returns exactly that header and the
    * stream is just past it; when it stops at a bad flag byte or an oversized
    * cleaning-graph name the method panics with that reason; when the bytes run out
    * it still returns a header, with the stream at its end. */
  method ReadHeader(r: Reader) returns (outcome: Outcome)
    requires r.Valid()
    modifies r
    ensures r.Valid()
    ensures match ParseHeader(r.data, old(r.pos))
      case Done(h, next) => outcome == Returned(h) && r.pos == next
      case Fail(e) => if e == Truncated then outcome.Returned? && r.pos == |r.data| else outcome == Panicked(e)
    ensures TopCell(r.data, old(r.pos)).Fail? ==> outcome == Returned(CortexHeader(BlankTop, []))
    ensures outcome.Returned? ==> |outcome.header.colours| == outcome.header.top.colourCount
  {
    ghost var data := r.data;
    var top := ReadTop(r);
    ghost var p1 := r.pos;
    var colours := Blanks(top.colourCount);
    var c1 := ReadMeanReadLengths(r, colours);
    ghost var p2 := r.pos;
    var c2 := ReadTotalSequenceLengths(r, c1);
    ghost var p3 := r.pos;
    var nameLength, c3 := ReadNames(r, c2);
    ghost var p4 := r.pos;
    ghost var ms, ts, ns := HeadDone(data, top, p1, p2, p3, p4, nameLength, c1, c2, c3);
    SkipErrorRates(r, c3);
    ghost var p5 := r.pos;
    var c5, panic := ReadRows(r, c3, nameLength);
    if panic.Some? {
      RowsStop(data, top, ms, ts, ns, p4, p5, nameLength, c3, panic.value);
      return Panicked(panic.value);
    }
    ghost var p6 := r.pos;
    RowsDone(data, top, ms, ts, ns, p4, p5, p6, nameLength, c3, c5);
    var c, ok := r.ReadBytes(6, Zeros(6));
    outcome := Returned(CortexHeader(top, c5));
  }
}
