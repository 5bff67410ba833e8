/// The k-mer record of a Cortex binary and its decoding to text (cortex/cortex.go).
///
/// A `Kmer` carries two unrelated representations: `bits`, a big integer that only
/// `NewKmerFromSequence` sets (None stands for a nil `*big.Int`), and `binaryKmer`,
/// the packed words that decoding and the neighbour functions use.
module CortexKmer {
  import opened GoInts
  import opened TwoBitWords

  datatype Kmer = Kmer(
    bits: Option<nat>,
    binaryKmer: seq<u64>,
    coverages: seq<u32>,
    colouredEdges: seq<u8>)

  /** Go's `kmer.BinaryKmer[wordIndex]` must exist for every base of the k-mer. */
  predicate CanDecode(kmer: Kmer, k: nat)
  {
    Covers(kmer.binaryKmer, k)
  }

  /** The two-bit code read the way the decoding loops read it:
    * `(3 << 2j) & w >> (j*2)` is field `j` of `w`. */
  lemma MaskedCode(w: u64, j: nat)
    requires j < 32
    ensures Shr(And(Shl64(3, 2 * j), w), j * 2) == Field(w, j)
  {
    ShlPlaced(3, j);
    MaskedField(w, j);
  }

  /** `nucleotides(k)`: the k letters of the k-mer, base k-1 first. */
  method Nucleotides(kmer: Kmer, k: u32) returns (nucs: seq<char>)
    requires CanDecode(kmer, k)
    ensures |nucs| == k
    ensures nucs == Decode(kmer.binaryKmer, k)
  {
    var out := new char[k];
    var i: int := k;
    while i > 0
      invariant 0 <= i <= k
      invariant forall p :: 0 <= p < k - i ==> out[p] == Decode(kmer.binaryKmer, k)[p]
    {
      var j := (i - 1) % 32;
      var wordIndex := (i - 1) / 32;
      var mask := Shl64(3, 2 * j);
      var code := Shr(And(mask, kmer.binaryKmer[wordIndex]), j * 2);
      MaskedCode(kmer.binaryKmer[wordIndex], j);
      assert code == BaseAt(kmer.binaryKmer, i - 1);
      assert Decode(kmer.binaryKmer, k)[k - i] == Letter(code);
      if code == 0 {
        out[k - i] := 'A';
      } else if code == 1 {
        out[k - i] := 'C';
      } else if code == 2 {
        out[k - i] := 'G';
      } else if code == 3 {
        out[k - i] := 'T';
      }
      i := i - 1;
    }
    nucs := out[..];
  }

  function Reverse(s: seq<char>): (r: seq<char>)
    ensures |r| == |s|
  {
    seq(|s|, p requires 0 <= p < |s| => s[|s| - 1 - p])
  }

  /** Letter `p` of the reversed text is base `p`: the 3'-most base comes first. */
  lemma ReversedDecode(words: seq<u64>, k: nat, p: nat)
    requires Covers(words, k) && p < k
    ensures Reverse(Decode(words, k))[p] == Letter(BaseAt(words, p))
  {
  }

  /** `reverse_nucleotides(k)`: the same letters, last base first. */
  method ReverseNucleotides(kmer: Kmer, k: u32) returns (nucs: seq<char>)
    requires CanDecode(kmer, k)
    ensures |nucs| == k
    ensures nucs == Reverse(Decode(kmer.binaryKmer, k))
  {
    var out := new char[k];
    var i: int := k;
    while i > 0
      invariant 0 <= i <= k
      invariant forall p :: i <= p < k ==> out[p] == Letter(BaseAt(kmer.binaryKmer, p))
    {
      var j := (i - 1) % 32;
      var wordIndex := (i - 1) / 32;
      var mask := Shl64(3, 2 * j);
      var code := Shr(And(mask, kmer.binaryKmer[wordIndex]), j * 2);
      MaskedCode(kmer.binaryKmer[wordIndex], j);
      assert code == BaseAt(kmer.binaryKmer, i - 1);
      if code == 0 {
        out[i - 1] := 'A';
      } else if code == 1 {
        out[i - 1] := 'C';
      } else if code == 2 {
        out[i - 1] := 'G';
      } else if code == 3 {
        out[i - 1] := 'T';
      }
      i := i - 1;
    }
    nucs := out[..];
    forall p | 0 <= p < k
      ensures nucs[p] == Reverse(Decode(kmer.binaryKmer, k))[p]
    {
      ReversedDecode(kmer.binaryKmer, k, p);
    }
  }

  /** Decoding the reference encoding of a text gives the text, in both directions. */
  lemma NucleotidesOfEncoded(s: seq<char>)
    requires AllBases(s)
    ensures Covers(Encode(s), |s|)
    ensures Decode(Encode(s), |s|) == s
    ensures Reverse(Decode(Encode(s), |s|)) == Reverse(s)
  {
    DecodeEncode(s);
  }

  // ---------------------------------------------------------------------------
  // Edges

  /** The OR of all colours' edge bytes; 0 when there are none. */
  function EdgeUnion(es: seq<u8>): (all: u8)
  {
    if |es| == 0 then 0
    else
      OrByte(EdgeUnion(es[..|es| - 1]), es[|es| - 1]);
      Or(EdgeUnion(es[..|es| - 1]), es[|es| - 1])
  }

  /** A bit is set in the union iff it is set in some colour's edge byte. */
  lemma {:induction false} BitOfEdgeUnion(es: seq<u8>, n: nat)
    ensures Bit(EdgeUnion(es), n) == 1 <==> exists c :: 0 <= c < |es| && Bit(es[c], n) == 1
  {
    if |es| == 0 {
      ShrOfZero(n);
    } else {
      var init := es[..|es| - 1];
      BitOfEdgeUnion(init, n);
      BitOfOr(EdgeUnion(init), es[|es| - 1], n);
      if exists c :: 0 <= c < |es| && Bit(es[c], n) == 1 {
        var c :| 0 <= c < |es| && Bit(es[c], n) == 1;
        if c < |es| - 1 {
          assert init[c] == es[c];
        }
      }
      if exists c :: 0 <= c < |init| && Bit(init[c], n) == 1 {
        var c :| 0 <= c < |init| && Bit(init[c], n) == 1;
        assert es[c] == init[c];
      }
    }
  }

  /** `allEdges`: OR together the edge bytes of every colour. */
  method AllEdges(kmer: Kmer) returns (all: u8)
    ensures all == EdgeUnion(kmer.colouredEdges)
  {
    all := 0;
    var i := 0;
    while i < |kmer.colouredEdges|
      invariant 0 <= i <= |kmer.colouredEdges|
      invariant all == EdgeUnion(kmer.colouredEdges[..i])
    {
      var edges := kmer.colouredEdges[i];
      assert kmer.colouredEdges[..i + 1][..i] == kmer.colouredEdges[..i];
      OrByte(all, edges);
      all := Or(all, edges);
      i := i + 1;
    }
    assert kmer.colouredEdges[..i] == kmer.colouredEdges;
  }
}
