/// The Cortex packed k-mer layout: two bits per base, 32 bases per uint64 word,
/// A/C/G/T as 0/1/2/3.  Base number `i` of a k-mer is field `i % 32` of word `i / 32`,
/// and base 0 is the LAST letter of the k-mer (the 3'-most one), so the first letter
/// of a k-mer of length k is base k-1.
///
/// `Decode` reads a k-mer back as text and `Encode` is an independent reference
/// encoder (pack 32 bases per word, least significant first).  The two are proved
/// inverse to each other on well-formed words: k bases, no bits above the k-th base.
module TwoBitWords {
  import opened GoInts

  predicate IsBase(c: char)
  {
    c == 'A' || c == 'C' || c == 'G' || c == 'T'
  }

  /** The letter of a two-bit code: 0/1/2/3 are A/C/G/T. */
  function Letter(b: nat): (c: char)
    requires b < 4
    ensures IsBase(c)
  {
    if b == 0 then 'A' else if b == 1 then 'C' else if b == 2 then 'G' else 'T'
  }

  function Code(c: char): (b: nat)
    requires IsBase(c)
    ensures b < 4 && Letter(b) == c
  {
    if c == 'A' then 0 else if c == 'C' then 1 else if c == 'G' then 2 else 3
  }

  lemma CodeOfLetter(b: nat)
    requires b < 4
    ensures Code(Letter(b)) == b
  {
  }

  /** Base number `i`: field `i % 32` of word `i / 32`. */
  function BaseAt(words: seq<u64>, i: nat): (r: nat)
    requires i / 32 < |words|
    ensures r < 4
  {
    Field(words[i / 32], i % 32)
  }

  /** The words hold at least `k` bases. */
  predicate Covers(words: seq<u64>, k: nat)
  {
    k == 0 || (k - 1) / 32 < |words|
  }

  /** The k-mer as text, first letter first: letter `p` is base `k-1-p`. */
  function Decode(words: seq<u64>, k: nat): seq<char>
    requires Covers(words, k)
  {
    seq(k, p requires 0 <= p < k => Letter(BaseAt(words, k - 1 - p)))
  }

  /** Exactly the words a k-mer of length `k` needs, and nothing set past base k-1. */
  predicate WellFormed(words: seq<u64>, k: nat)
  {
    && |words| == (k + 31) / 32
    && forall i: nat :: k <= i < 32 * |words| ==> BaseAt(words, i) == 0
  }

  lemma WellFormedCovers(words: seq<u64>, k: nat)
    requires WellFormed(words, k)
    ensures Covers(words, k)
  {
  }

  // ---------------------------------------------------------------------------
  // Reference encoder

  predicate AllBases(s: seq<char>)
  {
    forall p :: 0 <= p < |s| ==> IsBase(s[p])
  }

  predicate AllCodes(b: seq<nat>)
  {
    forall i :: 0 <= i < |b| ==> b[i] < 4
  }

  /** The codes of a k-mer, base 0 (its last letter) first. */
  function Codes(s: seq<char>): (b: seq<nat>)
    requires AllBases(s)
    ensures |b| == |s| && AllCodes(b)
    ensures forall i :: 0 <= i < |s| ==> b[i] == Code(s[|s| - 1 - i])
  {
    seq(|s|, i requires 0 <= i < |s| => Code(s[|s| - 1 - i]))
  }

  /** At most 32 codes as one word, the first code in the low bits. */
  function WordOf(b: seq<nat>): (w: nat)
    requires AllCodes(b)
    ensures w < Pow4(|b|)
  {
    if |b| == 0 then 0 else b[0] + 4 * WordOf(b[1..])
  }

  lemma {:induction false} FieldOfWordOf(b: seq<nat>, j: nat)
    requires AllCodes(b)
    ensures Field(WordOf(b), j) == if j < |b| then b[j] else 0
  {
    if |b| == 0 {
      FieldOfZero(j);
    } else {
      FieldOfPush(WordOf(b[1..]), b[0], j);
      if j > 0 {
        FieldOfWordOf(b[1..], j - 1);
      }
    }
  }

  function Word(b: seq<nat>): (w: u64)
    requires AllCodes(b) && |b| <= 32
  {
    Pow4Monotone(|b|, 32);
    Pow4Constants();
    WordOf(b)
  }

  /** Codes packed 32 to a word. */
  function Pack(b: seq<nat>): (words: seq<u64>)
    requires AllCodes(b)
    ensures |words| == (|b| + 31) / 32
    decreases |b|
  {
    if |b| == 0 then []
    else if |b| <= 32 then [Word(b)]
    else [Word(b[..32])] + Pack(b[32..])
  }

  lemma {:induction false} BaseAtPack(b: seq<nat>, i: nat)
    requires AllCodes(b) && i < 32 * |Pack(b)|
    ensures BaseAt(Pack(b), i) == if i < |b| then b[i] else 0
    decreases |b|
  {
    if |b| <= 32 {
      FieldOfWordOf(b, i);
    } else if i < 32 {
      FieldOfWordOf(b[..32], i);
    } else {
      BaseAtPack(b[32..], i - 32);
      assert Pack(b)[i / 32] == Pack(b[32..])[(i - 32) / 32];
    }
  }

  /** The reference encoder: a text of A/C/G/T as packed words. */
  function Encode(s: seq<char>): (words: seq<u64>)
    requires AllBases(s)
  {
    Pack(Codes(s))
  }

  /** Base `i` of an encoded text is the code of its letter `|s|-1-i`. */
  lemma BaseAtEncode(s: seq<char>, i: nat)
    requires AllBases(s) && i < |s|
    ensures i / 32 < |Encode(s)|
    ensures BaseAt(Encode(s), i) == Code(s[|s| - 1 - i])
  {
    BaseAtPack(Codes(s), i);
  }

  /** The encoder produces well-formed words. */
  lemma EncodeWellFormed(s: seq<char>)
    requires AllBases(s)
    ensures WellFormed(Encode(s), |s|)
  {
    forall i: nat | |s| <= i < 32 * |Encode(s)|
      ensures BaseAt(Encode(s), i) == 0
    {
      BaseAtPack(Codes(s), i);
    }
  }

  /** Decoding an encoded text gives the text back. */
  lemma DecodeEncode(s: seq<char>)
    requires AllBases(s)
    ensures Covers(Encode(s), |s|)
    ensures Decode(Encode(s), |s|) == s
  {
    EncodeWellFormed(s);
    forall p | 0 <= p < |s|
      ensures Decode(Encode(s), |s|)[p] == s[p]
    {
      BaseAtEncode(s, |s| - 1 - p);
    }
  }

  lemma DecodedBases(words: seq<u64>, k: nat)
    requires Covers(words, k)
    ensures AllBases(Decode(words, k))
  {
    var s := Decode(words, k);
    forall p | 0 <= p < |s|
      ensures IsBase(s[p])
    {
      assert s[p] == Letter(BaseAt(words, k - 1 - p));
    }
  }

  lemma EncodeDecodeField(words: seq<u64>, k: nat, w: nat, j: nat)
    requires WellFormed(words, k) && w < |words| && j < 32
    ensures AllBases(Decode(words, k))
    ensures |Encode(Decode(words, k))| == |words|
    ensures Field(Encode(Decode(words, k))[w], j) == Field(words[w], j)
  {
    var s := Decode(words, k);
    DecodedBases(words, k);
    var i := 32 * w + j;
    assert i / 32 == w && i % 32 == j;
    BaseAtPack(Codes(s), i);
    assert BaseAt(Encode(s), i) == Field(Encode(s)[w], j);
    assert BaseAt(words, i) == Field(words[w], j);
    if i < k {
      assert Codes(s)[i] == Code(s[k - 1 - i]);
      assert s[k - 1 - i] == Letter(BaseAt(words, i));
      CodeOfLetter(BaseAt(words, i));
    } else {
      assert BaseAt(words, i) == 0;
    }
  }

  /** Encoding the decoded text of well-formed words gives the same words back. */
  lemma EncodeDecode(words: seq<u64>, k: nat)
    requires WellFormed(words, k)
    ensures AllBases(Decode(words, k))
    ensures Encode(Decode(words, k)) == words
  {
    var s := Decode(words, k);
    DecodedBases(words, k);
    var e := Encode(s);
    assert |e| == |words|;
    forall w | 0 <= w < |words|
      ensures e[w] == words[w]
    {
      forall j: nat
        ensures Field(e[w], j) == Field(words[w], j)
      {
        if j < 32 {
          EncodeDecodeField(words, k, w, j);
        } else {
          FieldOfWordAbove(e[w], j);
          FieldOfWordAbove(words[w], j);
        }
      }
      FieldsDetermine(e[w], words[w]);
    }
  }
}
