/// `simpleKmer.nucs` (gortex.go): the letters of a k-mer record whose bases are packed
/// into a single uint64, the first letter in the highest bit pair used.
///
/// The loop walks a two-bit mask down the word.  For k up to 32 the result is the
/// multi-word decoding of cortex/cortex.go applied to that one word; for k above 32 the
/// Go shift `3 << (2k-2)` is 0, so the mask never selects anything and every letter
/// comes out as A.
module SimpleKmer {
  import opened GoInts
  import opened TwoBitWords

  /** The mask of base `m`: `3 << 2m`. */
  lemma MaskOf(m: nat)
    requires m < 32
    ensures Shl64(3, 2 * m) == 3 * Pow4(m)
  {
    ShlPlaced(3, m);
  }

  /** Moving the mask down one base. */
  lemma MaskDown(m: nat)
    requires m > 0
    ensures Shr(3 * Pow4(m), 2) == 3 * Pow4(m - 1)
  {
    ShrTwo(3 * Pow4(m));
    PlacedStep(3, m);
  }

  /** The letter `nucs` is meant to put at `i`: letter i of the decoding for k up to 32,
    * A above that. */
  ghost function Expected(binaryKmer: u64, k: nat, i: nat): char
    requires i < k
  {
    if k <= 32 then Decode([binaryKmer], k)[i] else 'A'
  }

  /** `nucs(k)`: k letters; letter i is base k-1-i of the word. */
  method Nucs(binaryKmer: u64, k: u32) returns (nucs: seq<char>)
    ensures |nucs| == k
    ensures k <= 32 ==> nucs == Decode([binaryKmer], k)
    ensures k > 32 ==> forall i :: 0 <= i < k ==> nucs[i] == 'A'
  {
    var out := new char[k](_ => 0 as char);
    var mask: nat := Shl64(3, SubU64(2 * k, 2));
    if 0 < k <= 32 {
      MaskOf(k - 1);
    }
    var i: nat := 0;
    while i < k
      invariant i <= k
      invariant k <= 32 && i < k ==> mask == 3 * Pow4(k - 1 - i)
      invariant k > 32 ==> mask == 0
      invariant forall p :: 0 <= p < i ==> out[p] == Expected(binaryKmer, k, p)
    {
      var code := Shr(And(mask, binaryKmer), (k - 1 - i) * 2);
      NucsStep(binaryKmer, k, i, mask);
      if code == 0 {
        out[i] := 'A';
      } else if code == 1 {
        out[i] := 'C';
      } else if code == 2 {
        out[i] := 'G';
      } else if code == 3 {
        out[i] := 'T';
      }
      mask := Shr(mask, 2);
      i := i + 1;
    }
    nucs := out[..];
    NucsResult(binaryKmer, k, nucs);
  }

  /** One turn of the loop: the masked code spells the expected letter, and the mask
    * moves down one base. */
  lemma NucsStep(binaryKmer: u64, k: nat, i: nat, mask: nat)
    requires i < k
    requires k <= 32 ==> mask == 3 * Pow4(k - 1 - i)
    requires k > 32 ==> mask == 0
    ensures var code := Shr(And(mask, binaryKmer), (k - 1 - i) * 2);
      code < 4 && Letter(code) == Expected(binaryKmer, k, i)
    ensures k <= 32 && i + 1 < k ==> Shr(mask, 2) == 3 * Pow4(k - 1 - (i + 1))
    ensures k > 32 ==> Shr(mask, 2) == 0
  {
    if k <= 32 {
      MaskedField(binaryKmer, k - 1 - i);
      assert 2 * (k - 1 - i) == (k - 1 - i) * 2;
      assert Field(binaryKmer, k - 1 - i) == BaseAt([binaryKmer], k - 1 - i);
      if i + 1 < k {
        MaskDown(k - 1 - i);
      }
    } else {
      assert And(0, binaryKmer) == 0;
      ShrOfZero((k - 1 - i) * 2);
      ShrOfZero(2);
    }
  }

  lemma NucsResult(binaryKmer: u64, k: nat, nucs: seq<char>)
    requires |nucs| == k && forall p :: 0 <= p < k ==> nucs[p] == Expected(binaryKmer, k, p)
    ensures k <= 32 ==> nucs == Decode([binaryKmer], k)
    ensures k > 32 ==> forall i :: 0 <= i < k ==> nucs[i] == 'A'
  {
  }

  /** For a k-mer of at most 32 bases the single-word decoding reads back the text the
    * reference encoder packed into that word. */
  lemma NucsOfEncoded(s: seq<char>)
    requires AllBases(s) && 0 < |s| <= 32
    ensures |Encode(s)| == 1
    ensures Decode([Encode(s)[0]], |s|) == s
  {
    DecodeEncode(s);
    assert [Encode(s)[0]] == Encode(s);
  }
}
