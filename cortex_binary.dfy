/// `CortexVarBinary.readHeader` (cortex/cortex.go): the header read step by step from
/// a `Reader`, into the fields of the binary.
///
/// The reads follow the Go code one by one, including what it does when the data runs
/// out: every read then leaves its target as it was and the stream at its end, the
/// loops go on reading nothing, and the error only shows at the closing "CORTEX"
/// sentinel.  `ReadHeader` is proved against `ParseHeader`: when the reference parser
/// reads a header the fields hold exactly that header and the stream is just past it;
/// when it stops at a name length above 10000 the method reports that error; otherwise
/// it reports a missing sentinel.
module CortexBinary {
  import opened GoInts
  import opened ByteReader
  import opened CortexFormat
  import opened Columns
  import CortexKmer
  import TwoBitWords

  /** The two errors `readHeader` returns. */
  datatype HeaderError =
    | BadMagic      // "Cortex file does not have correct format."
    | BadNameLength // "Cortex file does not have the correct format."

  function ErrorOf(f: Failure): (e: HeaderError)
    ensures e == BadNameLength <==> f == NameTooLong
  {
    if f == NameTooLong then BadNameLength else BadMagic
  }

  /** A name length above 10000 among the names is the error of the whole header. */
  lemma HeadStops(data: seq<u8>, top: Top, p2: nat, p3: nat, p4: nat, c1: seq<Colour>, c2: seq<Colour>)
    requires Tracks(Column(U32Cell, data, p2, top.colourCount), p3, |data|, c1, Blanks(top.colourCount), SetMean)
    requires Tracks(Column(U64Cell, data, p3, top.colourCount), p4, |data|, c2, c1, SetTotal)
    requires Column(NameCell, data, p4, top.colourCount) == Fail(NameTooLong)
    ensures ParseColours(data, p2, top) == Fail(NameTooLong)
  {
    CellsAtEnd(data);
    ColumnAtEnd(U64Cell, data, top.colourCount);
    ColumnAtEnd(NameCell, data, top.colourCount);
  }

  /** After the first three columns: the values they read (any values once the data
    * has run out), on which the rest of the header depends. */
  lemma HeadDone(data: seq<u8>, top: Top, p2: nat, p3: nat, p4: nat, p5: nat, c1: seq<Colour>, c2: seq<Colour>, c3: seq<Colour>)
      returns (ms: seq<u32>, ts: seq<u64>, ns: seq<seq<u8>>)
    requires Tracks(Column(U32Cell, data, p2, top.colourCount), p3, |data|, c1, Blanks(top.colourCount), SetMean)
    requires Tracks(Column(U64Cell, data, p3, top.colourCount), p4, |data|, c2, c1, SetTotal)
    requires Tracks(Column(NameCell, data, p4, top.colourCount), p5, |data|, c3, c2, SetName)
    ensures |ms| == |ts| == |ns| == top.colourCount
    ensures p5 < |data| ==> c3 == Apply(Apply(Apply(Blanks(top.colourCount), ms, SetMean), ts, SetTotal), ns, SetName)
    ensures ParseColours(data, p2, top) == ParseRows(data, p5, top, ms, ts, ns)
  {
    var n := top.colourCount;
    CellsAtEnd(data);
    ColumnAtEnd(U64Cell, data, n);
    ColumnAtEnd(NameCell, data, n);
    var r1, r2, r3 := Column(U32Cell, data, p2, n), Column(U64Cell, data, p3, n), Column(NameCell, data, p4, n);
    if r1.Done? && r2.Done? && r3.Done? {
      ms, ts, ns := r1.value, r2.value, r3.value;
    } else {
      ms, ts, ns := seq(n, _ => 0), seq(n, _ => 0), seq(n, _ => []);
      RowsAtEnd(data, top, ms, ts, ns);
    }
  }

  /** A name length above 10000 among the cleaning records is the error of the whole header. */
  lemma RowsStop(data: seq<u8>, top: Top, ms: seq<u32>, ts: seq<u64>, ns: seq<seq<u8>>, p5: nat, p6: nat, c3: seq<Colour>, c4: seq<Colour>)
    requires |ms| == |ts| == |ns| == top.colourCount
    requires Tracks(Column(RateCell, data, p5, top.colourCount), p6, |data|, c4, c3, SetRate)
    requires Column(CleaningCell, data, p6, top.colourCount) == Fail(NameTooLong)
    ensures ParseRows(data, p5, top, ms, ts, ns) == Fail(NameTooLong)
  {
    CellsAtEnd(data);
    ColumnAtEnd(CleaningCell, data, top.colourCount);
  }

  /** After the last two columns only the closing sentinel decides the outcome; the
    * colours are the header's. */
  lemma RowsDone(data: seq<u8>, top: Top, ms: seq<u32>, ts: seq<u64>, ns: seq<seq<u8>>,
                 p5: nat, p6: nat, p7: nat, c3: seq<Colour>, c4: seq<Colour>, c5: seq<Colour>)
    requires |ms| == |ts| == |ns| == |c3| == top.colourCount && p5 <= |data|
    requires p5 < |data| ==> c3 == Apply(Apply(Apply(Blanks(top.colourCount), ms, SetMean), ts, SetTotal), ns, SetName)
    requires Tracks(Column(RateCell, data, p5, top.colourCount), p6, |data|, c4, c3, SetRate)
    requires Tracks(Column(CleaningCell, data, p6, top.colourCount), p7, |data|, c5, c4, SetCleaning)
    ensures ParseRows(data, p5, top, ms, ts, ns) ==
      match MagicAt(data, p7)
      case Fail(e) => Fail(e)
      case Done(_, p8) => Done(Header(top.version, top.kmerSize, top.wordsPerKmer, top.colourCount, c5), p8)
  {
    var n := top.colourCount;
    CellsAtEnd(data);
    ColumnAtEnd(RateCell, data, n);
    ColumnAtEnd(CleaningCell, data, n);
    MagicAtIff(data, |data|);
    var r4, r5 := Column(RateCell, data, p5, n), Column(CleaningCell, data, p6, n);
    if r4.Done? && r5.Done? && MagicAt(data, p7).Done? {
      if n == 0 {
        assert c5 == [] == Assemble(n, ms, ts, ns, r4.value, r5.value);
      } else {
        assert c5 == Assemble(n, ms, ts, ns, r4.value, r5.value);
      }
    }
  }

  class CortexVarBinary {
    const reader: Reader
    var version: u32
    var kmerSize: u32
    var wordsPerKmer: u32
    var colourCount: u32
    var colours: seq<Colour>

    constructor (reader: Reader)
      ensures this.reader == reader
      ensures version == 0 && kmerSize == 0 && wordsPerKmer == 0 && colourCount == 0 && colours == []
    {
      this.reader := reader;
      version, kmerSize, wordsPerKmer, colourCount := 0, 0, 0, 0;
      colours := [];
    }

    /** Six bytes compared with "CORTEX"; a short read compares zeros. */
    method HasMagicString() returns (found: bool)
      requires reader.Valid()
      modifies reader
      ensures reader.Valid()
      ensures found <==> old(reader.pos) + 6 <= |reader.data| && reader.data[old(reader.pos)..old(reader.pos) + 6] == CortexMagic
      ensures found <==> MagicAt(reader.data, old(reader.pos)).Done?
      ensures reader.pos == if old(reader.pos) + 6 <= |reader.data| then old(reader.pos) + 6 else |reader.data|
    {
      var magic, ok := reader.ReadBytes(6, [0, 0, 0, 0, 0, 0]);
      found := magic == CortexMagic;
      MagicAtIff(reader.data, old(reader.pos));
    }

    /** A length-prefixed name, its zero bytes dropped.  `priorLength` is what the
      * length variable held before: a short read leaves it there. */
    method ReadName(priorLength: u32) returns (nameLength: u32, name: seq<u8>, tooLong: bool)
      requires reader.Valid() && priorLength <= MaxNameLength
      modifies reader
      ensures reader.Valid()
      ensures !tooLong ==> nameLength <= MaxNameLength
      ensures tooLong <==> NameCell(reader.data, old(reader.pos)) == Fail(NameTooLong)
      ensures tooLong ==> reader.pos == old(reader.pos) + 4
      ensures !tooLong ==> match NameCell(reader.data, old(reader.pos))
        case Done(w, next) => name == w && reader.pos == next
        case Fail(e) => e == Truncated && reader.pos == |reader.data|
    {
      ghost var data := reader.data;
      ghost var start := reader.pos + 4;
      var ok;
      nameLength, ok := reader.ReadU32(priorLength);
      if nameLength > MaxNameLength {
        return nameLength, [], true;
      }
      tooLong := false;
      var b: seq<u8> := [];
      var c: u8 := 0;
      var j: nat := 0;
      while j < nameLength
        invariant j <= nameLength
        invariant reader.Valid()
        invariant !ok ==> reader.pos == |data|
        invariant ok && start + j <= |data| ==> reader.pos == start + j && b == NoZeros(data[start..start + j])
        invariant ok && start + j > |data| ==> reader.pos == |data|
      {
        var read;
        c, read := reader.ReadU8(c);
        if c > 0 {
          b := b + [c];
        }
        if ok && start + j + 1 <= |data| {
          assert data[start..start + j + 1][..j] == data[start..start + j];
        }
        j := j + 1;
      }
      name := b;
    }

    method ReadMeanReadLengths()
      requires reader.Valid()
      modifies reader, this`colours
      ensures reader.Valid() && |colours| == |old(colours)|
      ensures Tracks(Column(U32Cell, reader.data, old(reader.pos), |colours|), reader.pos, |reader.data|, colours, old(colours), SetMean)
    {
      ghost var data := reader.data;
      ghost var p0 := reader.pos;
      ghost var c0 := colours;
      CellsAtEnd(data);
      var i := 0;
      while i < |colours|
        invariant i <= |colours| == |c0|
        invariant reader.Valid()
        invariant Tracks(Column(U32Cell, data, p0, i), reader.pos, |data|, colours, c0, SetMean)
      {
        ghost var pos := reader.pos;
        ghost var cs := colours;
        var v, ok := reader.ReadU32(colours[i].meanReadLength);
        colours := colours[i := colours[i].(meanReadLength := v)];
        TracksStep(U32Cell, data, p0, i, c0, SetMean, pos, cs, reader.pos, colours);
        i := i + 1;
      }
    }

    method ReadTotalSequenceLengths()
      requires reader.Valid()
      modifies reader, this`colours
      ensures reader.Valid() && |colours| == |old(colours)|
      ensures Tracks(Column(U64Cell, reader.data, old(reader.pos), |colours|), reader.pos, |reader.data|, colours, old(colours), SetTotal)
    {
      ghost var data := reader.data;
      ghost var p0 := reader.pos;
      ghost var c0 := colours;
      CellsAtEnd(data);
      var i := 0;
      while i < |colours|
        invariant i <= |colours| == |c0|
        invariant reader.Valid()
        invariant Tracks(Column(U64Cell, data, p0, i), reader.pos, |data|, colours, c0, SetTotal)
      {
        ghost var pos := reader.pos;
        ghost var cs := colours;
        var v, ok := reader.ReadU64(colours[i].totalSequenceLength);
        colours := colours[i := colours[i].(totalSequenceLength := v)];
        TracksStep(U64Cell, data, p0, i, c0, SetTotal, pos, cs, reader.pos, colours);
        i := i + 1;
      }
    }

    /** Every colour's name; stops at the first length above 10000. */
    method ReadNames() returns (tooLong: bool)
      requires reader.Valid()
      modifies reader, this`colours
      ensures reader.Valid() && |colours| == |old(colours)|
      ensures tooLong <==> Column(NameCell, reader.data, old(reader.pos), |colours|) == Fail(NameTooLong)
      ensures !tooLong ==>
        Tracks(Column(NameCell, reader.data, old(reader.pos), |colours|), reader.pos, |reader.data|, colours, old(colours), SetName)
    {
      ghost var data := reader.data;
      ghost var p0 := reader.pos;
      ghost var c0 := colours;
      CellsAtEnd(data);
      var i := 0;
      tooLong := false;
      while i < |colours|
        invariant i <= |colours| == |c0|
        invariant reader.Valid() && !tooLong
        invariant Tracks(Column(NameCell, data, p0, i), reader.pos, |data|, colours, c0, SetName)
      {
        ghost var pos := reader.pos;
        ghost var cs := colours;
        var nameLength, name;
        nameLength, name, tooLong := ReadName(0);
        AdvanceOrStop(NameCell, data, p0, i, |colours|, c0, SetName, pos, cs, reader.pos, cs[i := cs[i].(name := name)], tooLong, NameTooLong);
        if tooLong {
          return;
        }
        colours := colours[i := colours[i].(name := name)];
        i := i + 1;
      }
    }

    method ReadErrorRates()
      requires reader.Valid()
      modifies reader, this`colours
      ensures reader.Valid() && |colours| == |old(colours)|
      ensures Tracks(Column(RateCell, reader.data, old(reader.pos), |colours|), reader.pos, |reader.data|, colours, old(colours), SetRate)
    {
      ghost var data := reader.data;
      ghost var p0 := reader.pos;
      ghost var c0 := colours;
      CellsAtEnd(data);
      var i := 0;
      while i < |colours|
        invariant i <= |colours| == |c0|
        invariant reader.Valid()
        invariant Tracks(Column(RateCell, data, p0, i), reader.pos, |data|, colours, c0, SetRate)
      {
        ghost var pos := reader.pos;
        ghost var cs := colours;
        var v, ok := reader.ReadBytes(16, colours[i].errorRate);
        var rate: ErrorRate := v;
        colours := colours[i := colours[i].(errorRate := rate)];
        TracksStep(RateCell, data, p0, i, c0, SetRate, pos, cs, reader.pos, colours);
        i := i + 1;
      }
    }

    /** The four flag bytes and two thresholds of a cleaning record, into a copy of a
      * colour.  `priorByte` is what the flag variable held before. */
    method ReadCleaningFields(colour: Colour, priorByte: u8) returns (tmpByte: u8, c: Colour)
      requires reader.Valid()
      modifies reader
      ensures reader.Valid()
      ensures old(reader.pos) + 12 <= |reader.data| ==>
        var p := old(reader.pos);
        && reader.pos == p + 12
        && c == colour.(topClippingPerformed := reader.data[p] == 1,
                        lowCovSupernodesRemoved := reader.data[p + 1] == 1,
                        lowCovKmersRemoved := reader.data[p + 2] == 1,
                        wasCleanedAgainstGraph := reader.data[p + 3] == 1,
                        lowCovSupernodesThreshold := U32Of(reader.data[p + 4..p + 8]),
                        lowCovKmersThreshold := U32Of(reader.data[p + 8..p + 12]))
      ensures old(reader.pos) + 12 > |reader.data| ==> reader.pos == |reader.data|
    {
      c := colour;
      var ok;
      tmpByte, ok := reader.ReadU8(priorByte);
      c := c.(topClippingPerformed := tmpByte == 1);
      tmpByte, ok := reader.ReadU8(tmpByte);
      c := c.(lowCovSupernodesRemoved := tmpByte == 1);
      tmpByte, ok := reader.ReadU8(tmpByte);
      c := c.(lowCovKmersRemoved := tmpByte == 1);
      tmpByte, ok := reader.ReadU8(tmpByte);
      c := c.(wasCleanedAgainstGraph := tmpByte == 1);
      var threshold;
      threshold, ok := reader.ReadU32(c.lowCovSupernodesThreshold);
      c := c.(lowCovSupernodesThreshold := threshold);
      threshold, ok := reader.ReadU32(c.lowCovKmersThreshold);
      c := c.(lowCovKmersThreshold := threshold);
    }

    /** One colour's cleaning record.  The flag byte and the name length are the
      * variables the Go loop keeps from one colour to the next. */
    method ReadCleaning(i: nat, priorByte: u8, priorLength: u32) returns (tmpByte: u8, nameLength: u32, tooLong: bool)
      requires reader.Valid() && i < |colours| && priorLength <= MaxNameLength
      modifies reader, this`colours
      ensures reader.Valid() && |colours| == |old(colours)|
      ensures !tooLong ==> nameLength <= MaxNameLength
      ensures tooLong <==> CleaningCell(reader.data, old(reader.pos)) == Fail(NameTooLong)
      ensures !tooLong ==> match CleaningCell(reader.data, old(reader.pos))
        case Done(row, next) => reader.pos == next && colours == old(colours)[i := SetCleaning(old(colours)[i], row)]
        case Fail(e) => e == Truncated && reader.pos == |reader.data|
    {
      ghost var data := reader.data;
      ghost var p := reader.pos;
      CleaningCellSpec(data, p);
      var colour := colours[i];
      tmpByte, colour := ReadCleaningFields(colour, priorByte);
      var name;
      nameLength, name, tooLong := ReadName(priorLength);
      if tooLong {
        return;
      }
      colour := colour.(nameOfCleaningGraph := name);
      colours := colours[i := colour];
    }

    /** Every colour's cleaning record; stops at the first name length above 10000. */
    method ReadCleanings() returns (tooLong: bool)
      requires reader.Valid()
      modifies reader, this`colours
      ensures reader.Valid() && |colours| == |old(colours)|
      ensures tooLong <==> Column(CleaningCell, reader.data, old(reader.pos), |colours|) == Fail(NameTooLong)
      ensures !tooLong ==>
        Tracks(Column(CleaningCell, reader.data, old(reader.pos), |colours|), reader.pos, |reader.data|, colours, old(colours), SetCleaning)
    {
      ghost var data := reader.data;
      ghost var p0 := reader.pos;
      ghost var c0 := colours;
      CellsAtEnd(data);
      var tmpByte: u8 := 0;
      var nameLength: u32 := 0;
      var i := 0;
      tooLong := false;
      while i < |colours|
        invariant i <= |colours| == |c0|
        invariant reader.Valid() && !tooLong && nameLength <= MaxNameLength
        invariant Tracks(Column(CleaningCell, data, p0, i), reader.pos, |data|, colours, c0, SetCleaning)
      {
        ghost var pos := reader.pos;
        ghost var cs := colours;
        tmpByte, nameLength, tooLong := ReadCleaning(i, tmpByte, nameLength);
        AdvanceOrStop(CleaningCell, data, p0, i, |colours|, c0, SetCleaning, pos, cs, reader.pos, colours, tooLong, NameTooLong);
        if tooLong {
          return;
        }
        i := i + 1;
      }
    }

    /** `readHeader`: the header from the current position, or the error Go returns. */
    method ReadHeader() returns (err: Option<HeaderError>)
      requires reader.Valid()
      modifies reader, this`version, this`kmerSize, this`wordsPerKmer, this`colourCount, this`colours
      ensures reader.Valid()
      ensures match ParseHeader(reader.data, old(reader.pos))
        case Done(h, next) =>
          && err == None && reader.pos == next
          && version == h.version && kmerSize == h.kmerSize && wordsPerKmer == h.wordsPerKmer
          && colourCount == h.colourCount && colours == h.colours
        case Fail(e) => err == Some(ErrorOf(e))
    {
      ghost var data := reader.data;
      ghost var p0 := reader.pos;
      var found := HasMagicString();
      if !found {
        return Some(BadMagic);
      }
      ghost var p1 := reader.pos;
      ReadTop();
      colours := Blanks(colourCount);
      ghost var top := Top(version, kmerSize, wordsPerKmer, colourCount);
      if TopCell(data, p1).Fail? {
        ColoursAtEnd(data, top);
      }
      assert ParseHeader(data, p0) == ParseColours(data, reader.pos, top);
      err := ReadColours();
    }

    /** The four uint32 fields after the sentinel; a short read leaves a field as it was. */
    method ReadTop()
      requires reader.Valid()
      modifies reader, this`version, this`kmerSize, this`wordsPerKmer, this`colourCount
      ensures reader.Valid()
      ensures match TopCell(reader.data, old(reader.pos))
        case Done(top, next) =>
          && reader.pos == next
          && top == Top(version, kmerSize, wordsPerKmer, colourCount)
        case Fail(_) => reader.pos == |reader.data|
    {
      TopCellSpec(reader.data, reader.pos);
      var ok;
      version, ok := reader.ReadU32(version);
      kmerSize, ok := reader.ReadU32(kmerSize);
      wordsPerKmer, ok := reader.ReadU32(wordsPerKmer);
      colourCount, ok := reader.ReadU32(colourCount);
    }

    /** The colour columns and records and the closing sentinel. */
    method ReadColours() returns (err: Option<HeaderError>)
      requires reader.Valid() && colours == Blanks(colourCount)
      modifies reader, this`colours
      ensures reader.Valid()
      ensures match ParseColours(reader.data, old(reader.pos), Top(version, kmerSize, wordsPerKmer, colourCount))
        case Done(h, next) => err == None && reader.pos == next && colours == h.colours
        case Fail(e) => err == Some(ErrorOf(e))
    {
      ghost var data := reader.data;
      ghost var top := Top(version, kmerSize, wordsPerKmer, colourCount);
      ghost var p2 := reader.pos;
      ReadMeanReadLengths();
      ghost var p3, c1 := reader.pos, colours;
      ReadTotalSequenceLengths();
      ghost var p4, c2 := reader.pos, colours;
      var tooLong := ReadNames();
      if tooLong {
        HeadStops(data, top, p2, p3, p4, c1, c2);
        return Some(BadNameLength);
      }
      ghost var ms, ts, ns := HeadDone(data, top, p2, p3, p4, reader.pos, c1, c2, colours);
      err := ReadRows(ms, ts, ns);
    }

    /** The error rates, the cleaning records and the closing sentinel.  Unless the
      * data has run out, the colours hold the first three columns. */
    method ReadRows(ghost ms: seq<u32>, ghost ts: seq<u64>, ghost ns: seq<seq<u8>>) returns (err: Option<HeaderError>)
      requires reader.Valid() && |ms| == |ts| == |ns| == |colours| == colourCount
      requires reader.pos < |reader.data| ==>
        colours == Apply(Apply(Apply(Blanks(colourCount), ms, SetMean), ts, SetTotal), ns, SetName)
      modifies reader, this`colours
      ensures reader.Valid()
      ensures match ParseRows(reader.data, old(reader.pos), Top(version, kmerSize, wordsPerKmer, colourCount), ms, ts, ns)
        case Done(h, next) => err == None && reader.pos == next && colours == h.colours
        case Fail(e) => err == Some(ErrorOf(e))
    {
      ghost var data := reader.data;
      ghost var top := Top(version, kmerSize, wordsPerKmer, colourCount);
      ghost var p5, c3 := reader.pos, colours;
      ReadErrorRates();
      ghost var p6, c4 := reader.pos, colours;
      var tooLong := ReadCleanings();
      if tooLong {
        RowsStop(data, top, ms, ts, ns, p5, p6, c3, c4);
        return Some(BadNameLength);
      }
      RowsDone(data, top, ms, ts, ns, p5, p6, reader.pos, c3, c4, colours);
      MagicAtIff(data, reader.pos);
      var found := HasMagicString();
      if !found {
        return Some(BadMagic);
      }
      return None;
    }

    /** `KmerNucleotides`: a k-mer's bases at this file's k-mer size. */
    method KmerNucleotides(kmer: CortexKmer.Kmer) returns (nucs: seq<char>)
      requires CortexKmer.CanDecode(kmer, kmerSize)
      ensures |nucs| == kmerSize
      ensures nucs == TwoBitWords.Decode(kmer.binaryKmer, kmerSize)
    {
      nucs := CortexKmer.Nucleotides(kmer, kmerSize);
    }

    /** `KmerNucleotidesReverse`: the same bases, last first. */
    method KmerNucleotidesReverse(kmer: CortexKmer.Kmer) returns (nucs: seq<char>)
      requires CortexKmer.CanDecode(kmer, kmerSize)
      ensures |nucs| == kmerSize
      ensures nucs == CortexKmer.Reverse(TwoBitWords.Decode(kmer.binaryKmer, kmerSize))
    {
      nucs := CortexKmer.ReverseNucleotides(kmer, kmerSize);
    }
  }
}
