/// The neighbours of a k-mer in the de Bruijn graph (cortex/cortex.go `LeftKmers` and
/// `RightKmers`).
///
/// A left neighbour is the k-mer with one base put in front and the last base dropped;
/// a right neighbour drops the first base and appends one.  Which bases to use comes
/// from the union of the colours' edge bytes: bits 4..7 are the incoming edges A, C, G,
/// T and bits 0..3 the outgoing edges T, G, C, A.  In the packed layout the first base
/// is the highest one, so a left neighbour is a shift right by one base with the new
/// base written at base k-1, and a right neighbour is a shift left by one base, with
/// the top word masked to k bases and the new base written at base 0.
///
/// The source computes the position of base k-1 as `k%32 - 1` in uint32 arithmetic and
/// the top-word mask as `1<<((k%32)*2) - 1`.  Both are right only when k is not a
/// multiple of 32; `LeftNeighbour`/`RightNeighbour` follow the source and
/// `LeftNeighbourFixed`/`RightNeighbourFixed` use `(k-1) % 32` instead.
module CortexNeighbours {
  import opened GoInts
  import opened TwoBitWords
  import opened CortexKmer

  /** `0xC000000000000000`: the top base of a word. */
  const TopField: u64 := 0xC000_0000_0000_0000

  // ---------------------------------------------------------------------------
  // Which bases: the set edge bits, in the order the source visits them

  /** The entries of `bases` whose bit `first + i` is set in `all`, in order. */
  function Chosen(all: nat, first: nat, bases: seq<nat>): (r: seq<nat>)
    ensures |r| <= |bases|
  {
    if |bases| == 0 then []
    else
      Chosen(all, first, bases[..|bases| - 1])
      + (if Bit(all, first + |bases| - 1) == 1 then [bases[|bases| - 1]] else [])
  }

  /** Incoming edges: bits 4..7 are A, C, G, T. */
  function LeftBases(all: u8): seq<nat>
  {
    Chosen(all, 4, [0, 1, 2, 3])
  }

  /** Outgoing edges: bits 0..3 are T, G, C, A. */
  function RightBases(all: u8): seq<nat>
  {
    Chosen(all, 0, [3, 2, 1, 0])
  }

  lemma {:induction false} ChosenMembers(all: nat, first: nat, bases: seq<nat>, x: nat)
    ensures x in Chosen(all, first, bases)
        <==> exists i :: 0 <= i < |bases| && bases[i] == x && Bit(all, first + i) == 1
  {
    if |bases| > 0 {
      var init := bases[..|bases| - 1];
      ChosenMembers(all, first, init, x);
      if exists i :: 0 <= i < |bases| && bases[i] == x && Bit(all, first + i) == 1 {
        var i :| 0 <= i < |bases| && bases[i] == x && Bit(all, first + i) == 1;
        if i < |bases| - 1 {
          assert init[i] == x;
        }
      }
      if exists i :: 0 <= i < |init| && init[i] == x && Bit(all, first + i) == 1 {
        var i :| 0 <= i < |init| && init[i] == x && Bit(all, first + i) == 1;
        assert bases[i] == x;
      }
    }
  }

  predicate Increasing(s: seq<nat>)
  {
    forall p, q :: 0 <= p < q < |s| ==> s[p] < s[q]
  }

  predicate Decreasing(s: seq<nat>)
  {
    forall p, q :: 0 <= p < q < |s| ==> s[p] > s[q]
  }

  lemma {:induction false} ChosenFrom(all: nat, first: nat, bases: seq<nat>, p: nat)
    requires p < |Chosen(all, first, bases)|
    ensures exists i :: 0 <= i < |bases| && Chosen(all, first, bases)[p] == bases[i]
  {
    var r := Chosen(all, first, bases);
    ChosenMembers(all, first, bases, r[p]);
  }

  lemma {:induction false} ChosenIncreasing(all: nat, first: nat, bases: seq<nat>)
    requires Increasing(bases)
    ensures Increasing(Chosen(all, first, bases))
  {
    if |bases| > 0 {
      var init := bases[..|bases| - 1];
      ChosenIncreasing(all, first, init);
      var r := Chosen(all, first, bases);
      forall p | 0 <= p < |Chosen(all, first, init)|
        ensures Chosen(all, first, init)[p] < bases[|bases| - 1]
      {
        ChosenFrom(all, first, init, p);
      }
    }
  }

  lemma {:induction false} ChosenDecreasing(all: nat, first: nat, bases: seq<nat>)
    requires Decreasing(bases)
    ensures Decreasing(Chosen(all, first, bases))
  {
    if |bases| > 0 {
      var init := bases[..|bases| - 1];
      ChosenDecreasing(all, first, init);
      forall p | 0 <= p < |Chosen(all, first, init)|
        ensures Chosen(all, first, init)[p] > bases[|bases| - 1]
      {
        ChosenFrom(all, first, init, p);
      }
    }
  }

  /** One left neighbour per set bit 4..7, in the order A, C, G, T. */
  lemma LeftBasesAre(all: u8)
    ensures forall b: nat :: b in LeftBases(all) <==> b < 4 && Bit(all, 4 + b) == 1
    ensures Increasing(LeftBases(all))
  {
    forall b: nat
      ensures b in LeftBases(all) <==> b < 4 && Bit(all, 4 + b) == 1
    {
      ChosenMembers(all, 4, [0, 1, 2, 3], b);
      if b < 4 {
        assert [0, 1, 2, 3][b] == b;
      }
    }
    ChosenIncreasing(all, 4, [0, 1, 2, 3]);
  }

  lemma NoLeftBase(all: u8, b: nat)
    requires LeftBases(all) == [] && b < 4
    ensures Bit(all, 4 + b) == 0
  {
    LeftBasesAre(all);
    assert b !in LeftBases(all);
  }

  /** One right neighbour per set bit 0..3, in the order T, G, C, A. */
  lemma RightBasesAre(all: u8)
    ensures forall b: nat :: b in RightBases(all) <==> b < 4 && Bit(all, 3 - b) == 1
    ensures Decreasing(RightBases(all))
  {
    forall b: nat
      ensures b in RightBases(all) <==> b < 4 && Bit(all, 3 - b) == 1
    {
      ChosenMembers(all, 0, [3, 2, 1, 0], b);
      if b < 4 {
        assert [3, 2, 1, 0][3 - b] == b;
      }
    }
    ChosenDecreasing(all, 0, [3, 2, 1, 0]);
  }

  lemma ChosenBases(all: nat, first: nat, bases: seq<nat>)
    requires AllCodes(bases)
    ensures AllCodes(Chosen(all, first, bases))
  {
    forall p | 0 <= p < |Chosen(all, first, bases)|
      ensures Chosen(all, first, bases)[p] < 4
    {
      ChosenFrom(all, first, bases, p);
    }
  }

  /** One more base considered: it is chosen iff its bit is set. */
  lemma ChosenStep(all: nat, first: nat, bases: seq<nat>, n: nat)
    requires n < |bases|
    ensures Chosen(all, first, bases[..n + 1])
         == Chosen(all, first, bases[..n]) + (if Bit(all, first + n) == 1 then [bases[n]] else [])
  {
    assert bases[..n + 1][..n] == bases[..n];
  }

  // ---------------------------------------------------------------------------
  // Word arithmetic shared by both directions

  /** Word `at` with the code `b` ORed in after a shift by `s` bits. */
  function Placed(words: seq<u64>, at: nat, b: u64, s: nat): (r: seq<u64>)
    requires at < |words|
    ensures |r| == |words|
  {
    OrWord(words[at], Shl64(b, s));
    words[at := Or(words[at], Shl64(b, s))]
  }

  /** The k-mers with the given bases placed into the same shifted words. */
  function WithBases(words: seq<u64>, at: nat, s: nat, bases: seq<nat>): (r: seq<Kmer>)
    requires at < |words| && AllCodes(bases)
    ensures |r| == |bases|
  {
    seq(|bases|, n requires 0 <= n < |bases| =>
      Kmer(None, Placed(words, at, bases[n], s), [], []))
  }

  lemma WithBasesGrows(words: seq<u64>, at: nat, s: nat, bases: seq<nat>, b: nat)
    requires at < |words| && AllCodes(bases) && b < 4
    ensures AllCodes(bases + [b])
    ensures WithBases(words, at, s, bases + [b])
         == WithBases(words, at, s, bases) + [Kmer(None, Placed(words, at, b, s), [], [])]
  {
  }

  /** Placing a code at field `m` of word `at` ORs it into exactly that base. */
  lemma BaseAtPlaced(words: seq<u64>, at: nat, b: u64, m: nat, i: nat)
    requires at < |words| && b < 4 && m < 32 && i / 32 < |words|
    ensures BaseAt(Placed(words, at, b, 2 * m), i)
         == if i / 32 == at && i % 32 == m then Or(BaseAt(words, i), b) else BaseAt(words, i)
  {
    if i / 32 == at {
      ShlPlaced(b, m);
      FieldOfOr(words[at], Shl64(b, 2 * m), i % 32);
      FieldOfPlaced(b, m, i % 32);
    }
  }

  /** A shift count of 64 or more places nothing. */
  lemma PlacedNothing(words: seq<u64>, at: nat, b: u64, s: nat)
    requires at < |words| && s >= 64
    ensures Placed(words, at, b, s) == words
  {
  }

  /** The edge loop shared by `LeftKmers` and `RightKmers`: for each base whose edge
    * bit is set, a copy of the shifted words with that base ORed into word `at`,
    * shifted by `s` bits, wrapped as a fresh k-mer with no coverage and no edges. */
  method AddEdgeBases(shifted: seq<u64>, at: nat, s: nat, allEdges: u8, first: nat, baseBytes: seq<nat>)
    returns (kmers: seq<Kmer>)
    requires at < |shifted| && AllCodes(baseBytes)
    ensures AllCodes(Chosen(allEdges, first, baseBytes))
    ensures kmers == WithBases(shifted, at, s, Chosen(allEdges, first, baseBytes))
  {
    kmers := [];
    var n := 0;
    while n < |baseBytes|
      invariant 0 <= n <= |baseBytes|
      invariant AllCodes(Chosen(allEdges, first, baseBytes[..n]))
      invariant kmers == WithBases(shifted, at, s, Chosen(allEdges, first, baseBytes[..n]))
    {
      ChosenStep(allEdges, first, baseBytes, n);
      if Bit(allEdges, first + n) == 1 {
        var bits: u64 := baseBytes[n];
        var newWords := shifted;
        OrWord(shifted[at], Shl64(bits, s));
        newWords := newWords[at := Or(shifted[at], Shl64(bits, s))];
        WithBasesGrows(shifted, at, s, Chosen(allEdges, first, baseBytes[..n]), bits);
        kmers := kmers + [Kmer(None, newWords, [], [])];
      }
      n := n + 1;
    }
    assert baseBytes[..n] == baseBytes;
  }

  // ---------------------------------------------------------------------------
  // Left neighbours

  /** Word `w` shifted right by one base, the low base of word `w+1` carried into its top. */
  function ShiftedRightWord(words: seq<u64>, w: nat): u64
    requires w < |words|
  {
    var carry: u64 := if w + 1 < |words| then AndBound(words[w + 1], 3); And(words[w + 1], 3) else 0;
    OrWord(Shr(words[w], 2), Shl64(carry, 62));
    Or(Shr(words[w], 2), Shl64(carry, 62))
  }

  function ShiftedRight(words: seq<u64>): (r: seq<u64>)
    ensures |r| == |words|
  {
    seq(|words|, w requires 0 <= w < |words| => ShiftedRightWord(words, w))
  }

  /** One word shifted right by one base with the base `c` carried into its top field. */
  lemma FieldOfRightShiftedWord(x: u64, c: u64, j: nat)
    requires c < 4 && j < 32
    ensures Field(Or(Shr(x, 2), Shl64(c, 62)), j) == if j == 31 then c else Field(x, j + 1)
  {
    FieldOfOr(Shr(x, 2), Shl64(c, 62), j);
    ShrTwo(x);
    FieldQuarter(x, j);
    ShlPlaced(c, 31);
    FieldOfPlaced(c, 31, j);
    FieldOfWordAbove(x, 32);
    OrSmall(Field(x, j + 1));
    OrSmall(c);
  }

  /** Shifting right by one base moves every base down by one; the top base becomes A. */
  lemma BaseAtShiftedRight(words: seq<u64>, i: nat)
    requires i / 32 < |words|
    ensures BaseAt(ShiftedRight(words), i)
         == if i + 1 < 32 * |words| then BaseAt(words, i + 1) else 0
  {
    FieldOfShiftedRight(words, i / 32, i % 32);
    NextPosition(i);
  }

  /** Field `j` of shifted word `w`: the field above it, or the bottom field of the next word. */
  lemma FieldOfShiftedRight(words: seq<u64>, w: nat, j: nat)
    requires w < |words| && j < 32
    ensures Field(ShiftedRight(words)[w], j)
         == if j < 31 then Field(words[w], j + 1) else if w + 1 < |words| then Field(words[w + 1], 0) else 0
  {
    var carry: u64 := if w + 1 < |words| then AndBound(words[w + 1], 3); And(words[w + 1], 3) else 0;
    assert ShiftedRight(words)[w] == Or(Shr(words[w], 2), Shl64(carry, 62));
    if w + 1 < |words| {
      AndThree(words[w + 1]);
    }
    FieldOfRightShiftedWord(words[w], carry, j);
  }

  /** Word and field of the base after base `i`. */
  lemma NextPosition(i: nat)
    ensures i % 32 < 31 ==> (i + 1) / 32 == i / 32 && (i + 1) % 32 == i % 32 + 1
    ensures i % 32 == 31 ==> (i + 1) / 32 == i / 32 + 1 && (i + 1) % 32 == 0
  {
  }

  /** Go's `(k%32-1)*2` in uint32 arithmetic. */
  function LeftShift(k: u32): nat
  {
    DoubleU32(SubU32(k % 32, 1))
  }

  /** The corrected shift: base k-1 sits at field `(k-1) % 32` of the top word. */
  function LeftShiftFixed(k: u32): nat
    requires k >= 1
  {
    2 * ((k - 1) % 32)
  }

  /** The words of the left neighbour with base `b`, as the source computes them. */
  function LeftNeighbour(words: seq<u64>, k: u32, b: nat): (r: seq<u64>)
    requires |words| > 0 && b < 4
    ensures |r| == |words|
  {
    Placed(ShiftedRight(words), |words| - 1, b, LeftShift(k))
  }

  function LeftNeighbourFixed(words: seq<u64>, k: u32, b: nat): (r: seq<u64>)
    requires |words| > 0 && b < 4 && k >= 1
    ensures |r| == |words|
  {
    Placed(ShiftedRight(words), |words| - 1, b, LeftShiftFixed(k))
  }

  /** What `LeftKmers` returns: one fresh k-mer per incoming edge, no coverage, no edges. */
  function LeftKmersOf(words: seq<u64>, k: u32, all: u8): seq<Kmer>
    requires |words| > 0 || LeftBases(all) == []
  {
    if |words| == 0 then []
    else
      ChosenBases(all, 4, [0, 1, 2, 3]);
      WithBases(ShiftedRight(words), |words| - 1, LeftShift(k), LeftBases(all))
  }

  /** The first loop of `LeftKmers`: every word shifted right by one base, walking from
    * the top word down and carrying each word's low base into the word below. */
  method ShiftRightWords(words: seq<u64>) returns (shifted: seq<u64>)
    ensures shifted == ShiftedRight(words)
  {
    var wordCount := |words|;
    var out := new u64[wordCount];
    var mem: u64 := 0;
    var i := 0;
    while i < wordCount
      invariant 0 <= i <= wordCount
      invariant forall w :: wordCount - i <= w < wordCount ==> out[w] == ShiftedRightWord(words, w)
      invariant mem == if i == 0 then 0 else And(words[wordCount - i], 3)
    {
      var bitString := words[wordCount - i - 1];
      OrWord(Shr(bitString, 2), Shl64(mem, 62));
      out[wordCount - i - 1] := Or(Shr(bitString, 2), Shl64(mem, 62));
      AndBound(bitString, 3);
      mem := And(bitString, 3);
      i := i + 1;
    }
    shifted := out[..];
  }

  /** `LeftKmers(k)`: Go panics on the index `wordCount-1` when there are no words and
    * some incoming edge is set, so that is excluded. */
  method LeftKmers(kmer: Kmer, k: u32) returns (incoming: seq<Kmer>)
    requires |kmer.binaryKmer| > 0 || LeftBases(EdgeUnion(kmer.colouredEdges)) == []
    ensures incoming == LeftKmersOf(kmer.binaryKmer, k, EdgeUnion(kmer.colouredEdges))
  {
    var words := kmer.binaryKmer;
    var wordCount := |words|;
    var shifted := ShiftRightWords(words);
    var allEdges := AllEdges(kmer);
    var baseBytes: seq<nat> := [0, 1, 2, 3];
    if wordCount == 0 {
      // No words: the precondition leaves bits 4..7 of the edges clear, so the edge
      // loop never reaches `words[wordCount-1]` and adds nothing.
      return [];
    }
    incoming := AddEdgeBases(shifted, wordCount - 1, DoubleU32(SubU32(k % 32, 1)), allEdges, 4, baseBytes);
  }

  /** Where the source puts the new base: the corrected position unless k is a
    * multiple of 32, where the shift count wraps and nothing is placed. */
  lemma LeftShiftAsWritten(k: u32)
    ensures k % 32 != 0 ==> LeftShift(k) == LeftShiftFixed(k)
    ensures k % 32 == 0 ==> LeftShift(k) >= 64
  {
  }

  lemma LeftNeighbourAsWritten(words: seq<u64>, k: u32, b: nat)
    requires |words| > 0 && b < 4
    ensures k % 32 != 0 ==> LeftNeighbour(words, k, b) == LeftNeighbourFixed(words, k, b)
    ensures k % 32 == 0 ==> LeftNeighbour(words, k, b) == ShiftedRight(words)
  {
    LeftShiftAsWritten(k);
    if k % 32 == 0 {
      PlacedNothing(ShiftedRight(words), |words| - 1, b, LeftShift(k));
    }
  }

  lemma TopWordOf(words: seq<u64>, k: nat)
    requires WellFormed(words, k) && k >= 1
    ensures |words| > 0 && (k - 1) / 32 == |words| - 1
    ensures forall i: nat :: k <= i < 32 * |words| ==> i / 32 == |words| - 1
  {
  }

  lemma BaseAtLeftNeighbourFixed(words: seq<u64>, k: u32, b: nat, i: nat)
    requires WellFormed(words, k) && k >= 1 && b < 4 && i < 32 * |words|
    ensures |words| > 0
    ensures BaseAt(LeftNeighbourFixed(words, k, b), i)
         == if i == k - 1 then b else if i < k - 1 then BaseAt(words, i + 1) else 0
  {
    TopWordOf(words, k);
    var sh := ShiftedRight(words);
    BaseAtPlaced(sh, |words| - 1, b, (k - 1) % 32, i);
    BaseAtShiftedRight(words, i);
    if i == k - 1 {
      if k < 32 * |words| {
        assert BaseAt(words, k) == 0;
      }
      OrSmall(b);
    } else if i >= k {
      assert i / 32 == |words| - 1;
      if i + 1 < 32 * |words| {
        assert BaseAt(words, i + 1) == 0;
      }
    }
  }

  /** The corrected left neighbour of a well-formed k-mer is the base followed by the
    * first k-1 letters, for every k >= 1, and is well-formed again. */
  lemma LeftNeighbourFixedDecodes(words: seq<u64>, k: u32, b: nat)
    requires WellFormed(words, k) && k >= 1 && b < 4
    ensures |words| > 0
    ensures WellFormed(LeftNeighbourFixed(words, k, b), k)
    ensures Decode(LeftNeighbourFixed(words, k, b), k) == [Letter(b)] + Decode(words, k)[..k - 1]
  {
    TopWordOf(words, k);
    var nb := LeftNeighbourFixed(words, k, b);
    forall i: nat | k <= i < 32 * |nb|
      ensures BaseAt(nb, i) == 0
    {
      BaseAtLeftNeighbourFixed(words, k, b, i);
    }
    forall p | 0 <= p < k
      ensures Decode(nb, k)[p] == ([Letter(b)] + Decode(words, k)[..k - 1])[p]
    {
      BaseAtLeftNeighbourFixed(words, k, b, k - 1 - p);
    }
  }

  /** The source's left neighbours are right whenever k is not a multiple of 32. */
  lemma LeftNeighbourDecodes(words: seq<u64>, k: u32, b: nat)
    requires WellFormed(words, k) && k % 32 != 0 && b < 4
    ensures |words| > 0
    ensures WellFormed(LeftNeighbour(words, k, b), k)
    ensures Decode(LeftNeighbour(words, k, b), k) == [Letter(b)] + Decode(words, k)[..k - 1]
  {
    LeftNeighbourFixedDecodes(words, k, b);
    LeftNeighbourAsWritten(words, k, b);
  }

  /** When k is a multiple of 32 the source drops the new base: every left neighbour
    * starts with A, whatever base the edge names. */
  lemma LeftNeighbourDropsBase(words: seq<u64>, k: u32, b: nat)
    requires WellFormed(words, k) && k >= 1 && k % 32 == 0 && b < 4
    ensures |words| > 0
    ensures Decode(LeftNeighbour(words, k, b), k)[0] == 'A'
    ensures b != 0 ==> Decode(LeftNeighbour(words, k, b), k)[0] != Letter(b)
  {
    TopWordOf(words, k);
    LeftNeighbourAsWritten(words, k, b);
    BaseAtShiftedRight(words, k - 1);
    assert Decode(LeftNeighbour(words, k, b), k)[0] == Letter(BaseAt(ShiftedRight(words), k - 1));
    assert Letter(0) == 'A' && Letter(1) == 'C' && Letter(2) == 'G' && Letter(3) == 'T';
  }

  // ---------------------------------------------------------------------------
  // Right neighbours

  /** Word `w` shifted left by one base, the top base of word `w-1` carried into its bottom. */
  function ShiftedLeftWord(words: seq<u64>, w: nat): u64
    requires w < |words|
  {
    var mem: u64 := if w > 0 then AndBound(words[w - 1], TopField); And(words[w - 1], TopField) else 0;
    OrWord(Shl64(words[w], 2), Shr(mem, 62));
    Or(Shl64(words[w], 2), Shr(mem, 62))
  }

  function ShiftedLeft(words: seq<u64>): (r: seq<u64>)
    ensures |r| == |words|
  {
    seq(|words|, w requires 0 <= w < |words| => ShiftedLeftWord(words, w))
  }

  /** One word shifted left by one base with the top base of `y` carried into field 0. */
  lemma FieldOfLeftShiftedWord(x: u64, y: u64, j: nat)
    requires j < 32
    ensures Field(Or(Shl64(x, 2), Shr(And(y, TopField), 62)), j)
         == if j == 0 then Field(y, 31) else Field(x, j - 1)
  {
    FieldOfOr(Shl64(x, 2), Shr(And(y, TopField), 62), j);
    FieldOfShlTwo(x, j);
    Pow4Constants();
    MaskedField(y, 31);
    FieldOfPlaced(Field(y, 31), 0, j);
    OrSmall(Field(y, 31));
    if j > 0 {
      OrSmall(Field(x, j - 1));
    }
  }

  /** Shifting left by one base moves every base up by one; base 0 becomes A. */
  lemma BaseAtShiftedLeft(words: seq<u64>, i: nat)
    requires i / 32 < |words|
    ensures BaseAt(ShiftedLeft(words), i) == if i == 0 then 0 else BaseAt(words, i - 1)
  {
    var w, j := i / 32, i % 32;
    if w > 0 {
      AndBound(words[w - 1], TopField);
      assert ShiftedLeft(words)[w] == Or(Shl64(words[w], 2), Shr(And(words[w - 1], TopField), 62));
      FieldOfLeftShiftedWord(words[w], words[w - 1], j);
      if j == 0 {
        assert (i - 1) / 32 == w - 1 && (i - 1) % 32 == 31;
      }
    } else {
      ShrOfZero(62);
      assert ShiftedLeft(words)[w] == Or(Shl64(words[w], 2), 0);
      FieldOfOr(Shl64(words[w], 2), 0, j);
      FieldOfShlTwo(words[w], j);
      FieldOfZero(j);
      OrSmall(Field(Shl64(words[w], 2), j));
    }
    if j > 0 {
      assert (i - 1) / 32 == w && (i - 1) % 32 == j - 1;
    }
  }

  /** The top word ANDed with `mask`. */
  function MaskedTop(words: seq<u64>, mask: u64): (r: seq<u64>)
    requires |words| > 0
    ensures |r| == |words|
  {
    AndBound(words[|words| - 1], mask);
    words[|words| - 1 := And(words[|words| - 1], mask)]
  }

  /** Go's `1<<((k%32)*2) - 1` in uint64 arithmetic. */
  function RightMask(k: u32): u64
  {
    SubU64(Shl64(1, (k % 32) * 2), 1)
  }

  /** The corrected mask: keep the `(k-1)%32 + 1` bases of the top word. */
  function RightMaskFixed(k: u32): u64
    requires k >= 1
  {
    SubU64(Shl64(1, 2 * ((k - 1) % 32 + 1)), 1)
  }

  lemma RightMaskIs(m: nat)
    requires m <= 32
    ensures SubU64(Shl64(1, 2 * m), 1) == Pow4(m) - 1
  {
    Pow4Constants();
    if m < 32 {
      ShlPlaced(1, m);
    }
  }

  /** A mask of `m` bases keeps the bases of the top word below `m` and clears the rest. */
  lemma BaseAtMaskedTop(words: seq<u64>, m: nat, i: nat)
    requires |words| > 0 && m <= 32 && i / 32 < |words|
    ensures BaseAt(MaskedTop(words, SubU64(Shl64(1, 2 * m), 1)), i)
         == if i / 32 == |words| - 1 && i % 32 >= m then 0 else BaseAt(words, i)
  {
    RightMaskIs(m);
    if i / 32 == |words| - 1 {
      FieldOfLowMask(words[|words| - 1], m, i % 32);
    }
  }

  /** The words of the right neighbour with base `b`, as the source computes them. */
  function RightNeighbour(words: seq<u64>, k: u32, b: nat): (r: seq<u64>)
    requires |words| > 0 && b < 4
    ensures |r| == |words|
  {
    Placed(MaskedTop(ShiftedLeft(words), RightMask(k)), 0, b, 0)
  }

  function RightNeighbourFixed(words: seq<u64>, k: u32, b: nat): (r: seq<u64>)
    requires |words| > 0 && b < 4 && k >= 1
    ensures |r| == |words|
  {
    Placed(MaskedTop(ShiftedLeft(words), RightMaskFixed(k)), 0, b, 0)
  }

  /** What `RightKmers` returns: one fresh k-mer per outgoing edge, no coverage, no edges. */
  function RightKmersOf(words: seq<u64>, k: u32, all: u8): seq<Kmer>
    requires |words| > 0
  {
    ChosenBases(all, 0, [3, 2, 1, 0]);
    WithBases(MaskedTop(ShiftedLeft(words), RightMask(k)), 0, 0, RightBases(all))
  }

  /** The first loop of `RightKmers`: every word shifted left by one base, walking from
    * word 0 up and carrying each word's top base into the word above. */
  method ShiftLeftWords(words: seq<u64>) returns (shifted: seq<u64>)
    ensures shifted == ShiftedLeft(words)
  {
    var wordCount := |words|;
    var out := new u64[wordCount];
    var mem: u64 := 0;
    var i := 0;
    while i < wordCount
      invariant 0 <= i <= wordCount
      invariant forall w :: 0 <= w < i ==> out[w] == ShiftedLeftWord(words, w)
      invariant mem == if i == 0 then 0 else And(words[i - 1], TopField)
    {
      var bitString := words[i];
      OrWord(Shl64(bitString, 2), Shr(mem, 62));
      out[i] := Or(Shl64(bitString, 2), Shr(mem, 62));
      AndBound(bitString, TopField);
      mem := And(bitString, TopField);
      i := i + 1;
    }
    shifted := out[..];
  }

  /** `RightKmers(k)`: Go masks word `wordCount-1` unconditionally, which panics when
    * there are no words, so at least one word is required. */
  method RightKmers(kmer: Kmer, k: u32) returns (outgoing: seq<Kmer>)
    requires |kmer.binaryKmer| > 0
    ensures outgoing == RightKmersOf(kmer.binaryKmer, k, EdgeUnion(kmer.colouredEdges))
  {
    var words := kmer.binaryKmer;
    var wordCount := |words|;
    var shifted := ShiftLeftWords(words);
    AndBound(shifted[wordCount - 1], SubU64(Shl64(1, (k % 32) * 2), 1));
    shifted := shifted[wordCount - 1 := And(shifted[wordCount - 1], SubU64(Shl64(1, (k % 32) * 2), 1))];
    assert shifted == MaskedTop(ShiftedLeft(words), RightMask(k));

    var allEdges := AllEdges(kmer);
    var baseBytes: seq<nat> := [3, 2, 1, 0];
    outgoing := AddEdgeBases(shifted, 0, 0, allEdges, 0, baseBytes);
  }

  lemma RightMaskAsWritten(k: u32)
    ensures k % 32 != 0 ==> RightMask(k) == RightMaskFixed(k)
    ensures k % 32 == 0 ==> RightMask(k) == 0
  {
    if k % 32 != 0 {
      assert (k % 32) * 2 == 2 * ((k - 1) % 32 + 1);
    } else {
      RightMaskIs(0);
    }
  }

  lemma BaseAtRightNeighbourFixed(words: seq<u64>, k: u32, b: nat, i: nat)
    requires WellFormed(words, k) && k >= 1 && b < 4 && i < 32 * |words|
    ensures |words| > 0
    ensures BaseAt(RightNeighbourFixed(words, k, b), i)
         == if i == 0 then b else if i < k then BaseAt(words, i - 1) else 0
  {
    TopWordOf(words, k);
    var m := (k - 1) % 32 + 1;
    var masked := MaskedTop(ShiftedLeft(words), RightMaskFixed(k));
    BaseAtPlaced(masked, 0, b, 0, i);
    assert Shl64(b, 0) == Shl64(b, 2 * 0);
    BaseAtMaskedTop(ShiftedLeft(words), m, i);
    BaseAtShiftedLeft(words, i);
    if i == 0 {
      OrSmall(b);
    } else if i >= k {
      assert i / 32 == |words| - 1 && i % 32 >= m;
    } else if i / 32 == |words| - 1 {
      assert i % 32 < m;
    }
  }

  /** The corrected right neighbour of a well-formed k-mer is the last k-1 letters
    * followed by the base, for every k >= 1, and is well-formed again. */
  lemma RightNeighbourFixedDecodes(words: seq<u64>, k: u32, b: nat)
    requires WellFormed(words, k) && k >= 1 && b < 4
    ensures |words| > 0
    ensures WellFormed(RightNeighbourFixed(words, k, b), k)
    ensures Decode(RightNeighbourFixed(words, k, b), k) == Decode(words, k)[1..] + [Letter(b)]
  {
    TopWordOf(words, k);
    var nb := RightNeighbourFixed(words, k, b);
    forall i: nat | k <= i < 32 * |nb|
      ensures BaseAt(nb, i) == 0
    {
      BaseAtRightNeighbourFixed(words, k, b, i);
    }
    forall p | 0 <= p < k
      ensures Decode(nb, k)[p] == (Decode(words, k)[1..] + [Letter(b)])[p]
    {
      BaseAtRightNeighbourFixed(words, k, b, k - 1 - p);
    }
  }

  /** The source's right neighbours are right whenever k is not a multiple of 32. */
  lemma RightNeighbourDecodes(words: seq<u64>, k: u32, b: nat)
    requires WellFormed(words, k) && k % 32 != 0 && b < 4
    ensures |words| > 0
    ensures WellFormed(RightNeighbour(words, k, b), k)
    ensures Decode(RightNeighbour(words, k, b), k) == Decode(words, k)[1..] + [Letter(b)]
  {
    RightNeighbourFixedDecodes(words, k, b);
    RightMaskAsWritten(k);
  }

  /** When k is a multiple of 32 the source's mask is 0 and clears the whole top word:
    * only base 0, the new base, can survive there. */
  lemma RightNeighbourClearsTopWord(words: seq<u64>, k: u32, b: nat, i: nat)
    requires |words| > 0 && k % 32 == 0 && b < 4
    requires i / 32 == |words| - 1 && i != 0
    ensures BaseAt(RightNeighbour(words, k, b), i) == 0
  {
    RightMaskAsWritten(k);
    var masked := MaskedTop(ShiftedLeft(words), RightMask(k));
    BaseAtPlaced(masked, 0, b, 0, i);
    assert Shl64(b, 0) == Shl64(b, 2 * 0);
    BaseAtMaskedTop(ShiftedLeft(words), 0, i);
    RightMaskIs(0);
  }

  /** A concrete case: k = 32, all bases T.  The right neighbour with base A should be
    * 31 T's then A; the source's words decode to A at the first letter instead. */
  lemma RightNeighbourLosesBases()
    ensures WellFormed([TwoTo64 - 1], 32)
    ensures Decode([TwoTo64 - 1], 32)[1] == 'T'
    ensures Decode(RightNeighbour([TwoTo64 - 1], 32, 0), 32)[0] == 'A'
  {
    var words: seq<u64> := [TwoTo64 - 1];
    Pow4Constants();
    FieldOfOnes(32, 30);
    assert Decode(words, 32)[1] == Letter(BaseAt(words, 30));
    RightNeighbourClearsTopWord(words, 32, 0, 31);
    assert Decode(RightNeighbour(words, 32, 0), 32)[0] == Letter(BaseAt(RightNeighbour(words, 32, 0), 31));
  }
}
