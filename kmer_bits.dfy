/// The big-integer form of a Cortex k-mer (cortex/cortex.go `NewKmerFromSequence` and
/// `Cmp`).
///
/// `NewKmerFromSequence` packs four bases to a byte, the first base of each group in the
/// two highest bits, C/G/T as 1/2/3 and every other character as 0, always appends the
/// byte under construction (a zero byte when the length is a multiple of four), and
/// reads the bytes as a big-endian integer.  The value is therefore the sequence read as
/// a base-4 number, first base most significant (`SpanValue`), followed by 1 to 4 zero
/// digits of padding (`Padding`).  `Cmp` compares two such integers the other way round.
module KmerBits {
  import opened GoInts
  import opened TwoBitWords
  import opened CortexKmer

  /** The two-bit code the packer gives a character: C/G/T are 1/2/3, anything else 0. */
  function SeqCode(c: char): (b: nat)
    ensures b < 4
    ensures IsBase(c) ==> b == Code(c)
  {
    if c == 'C' then 1 else if c == 'G' then 2 else if c == 'T' then 3 else 0
  }

  /** The characters `s[a..n]` as a base-4 number, `s[a]` most significant. */
  function SpanValue(s: seq<char>, a: nat, n: nat): (v: nat)
    requires a <= n <= |s|
    ensures v < Pow4(n - a)
    decreases n
  {
    if n == a then 0 else 4 * SpanValue(s, a, n - 1) + SeqCode(s[n - 1])
  }

  /** The zero digits after the last base: up to the end of its byte, or a whole byte. */
  function Padding(n: nat): (p: nat)
    ensures 1 <= p <= 4 && (n + p) % 4 == 0
  {
    4 * (n / 4 + 1) - n
  }

  /** `g` followed by `n` zero digits, that is `g * 4^n`. */
  function Shifted(g: nat, n: nat): nat
  {
    if n == 0 then g else 4 * Shifted(g, n - 1)
  }

  lemma {:induction false} ShiftedIs(g: nat, n: nat)
    ensures Shifted(g, n) == g * Pow4(n)
  {
    if n > 0 {
      ShiftedIs(g, n - 1);
      PlacedStep(g, n);
    }
  }

  lemma {:induction false} ShiftedAdd(x: nat, y: nat, n: nat)
    ensures Shifted(x + y, n) == Shifted(x, n) + Shifted(y, n)
  {
    if n > 0 {
      ShiftedAdd(x, y, n - 1);
    }
  }

  lemma {:induction false} ShiftedTwice(x: nat, a: nat, b: nat)
    ensures Shifted(Shifted(x, a), b) == Shifted(x, a + b)
  {
    if b > 0 {
      ShiftedTwice(x, a, b - 1);
    }
  }

  lemma ShiftedByte(x: nat)
    ensures Shifted(x, 4) == 256 * x
  {
    assert Shifted(x, 1) == 4 * x;
    assert Shifted(x, 2) == 16 * x;
    assert Shifted(x, 3) == 64 * x;
  }

  /** A smaller value stays smaller, by at least `4^k`, once both are shifted. */
  lemma {:induction false} ShiftedGap(a: nat, b: nat, k: nat)
    requires a < b
    ensures Shifted(a, k) + Pow4(k) <= Shifted(b, k)
  {
    if k > 0 {
      ShiftedGap(a, b, k - 1);
    }
  }

  lemma {:induction false} ShiftedBelow(v: nat, m: nat, k: nat, e: nat)
    requires v < Pow4(m) && e == m + k
    ensures Shifted(v, k) < Pow4(e)
  {
    if k > 0 {
      ShiftedBelow(v, m, k - 1, e - 1);
    }
  }

  /** The value `NewKmerFromSequence` gives `s`. */
  function SequenceBits(s: seq<char>): nat
  {
    Shifted(SpanValue(s, 0, |s|), Padding(|s|))
  }

  /** Go's big-endian `big.Int.SetBytes`. */
  function BigEndian(bytes: seq<u8>): nat
  {
    if |bytes| == 0 then 0 else 256 * BigEndian(bytes[..|bytes| - 1]) + bytes[|bytes| - 1]
  }

  // ---------------------------------------------------------------------------
  // Digits

  /** Digit `d` of `s[..n]` is the code of the character `d` places before `n`. */
  lemma {:induction false} FieldOfSpan(s: seq<char>, n: nat, d: nat)
    requires n <= |s|
    ensures Field(SpanValue(s, 0, n), d) == if d < n then SeqCode(s[n - 1 - d]) else 0
  {
    if n == 0 {
      FieldOfZero(d);
    } else {
      FieldOfPush(SpanValue(s, 0, n - 1), SeqCode(s[n - 1]), d);
      if d > 0 {
        FieldOfSpan(s, n - 1, d - 1);
      }
    }
  }

  /** The layout of the value: `Padding` zero digits, then the codes, the last character
    * lowest and the first highest. */
  lemma FieldOfSequenceBits(s: seq<char>, n: nat)
    ensures var pad := Padding(|s|);
      Field(SequenceBits(s), n) ==
        if pad <= n < pad + |s| then SeqCode(s[|s| - 1 - (n - pad)]) else 0
  {
    var pad := Padding(|s|);
    FieldOfShifted(SpanValue(s, 0, |s|), pad, n);
    if n >= pad {
      FieldOfSpan(s, |s|, n - pad);
    }
  }

  /** Appending `k` zero digits moves every digit up by `k`. */
  lemma {:induction false} FieldOfShifted(g: nat, k: nat, n: nat)
    ensures Field(Shifted(g, k), n) == if n < k then 0 else Field(g, n - k)
  {
    if k > 0 {
      FieldOfPush(Shifted(g, k - 1), 0, n);
      if n > 0 {
        FieldOfShifted(g, k - 1, n - 1);
      }
    }
  }

  /** Byte `p/4` of the `|s|/4 + 1` bytes holds character `p` in its pair `p%4` counted
    * from the top, so the first character of each group sits in the two highest bits;
    * the value fits those bytes, and the last byte is zero when the length is a multiple
    * of four. */
  lemma ByteLayout(s: seq<char>)
    ensures SequenceBits(s) < Pow4(4 * (|s| / 4 + 1))
    ensures forall p | 0 <= p < |s| ::
      Field(SequenceBits(s), 4 * (|s| / 4 - p / 4) + 3 - p % 4) == SeqCode(s[p])
    ensures |s| % 4 == 0 ==> forall t: nat | t < 4 :: Field(SequenceBits(s), t) == 0
  {
    ValueFits(s);
    forall p | 0 <= p < |s|
      ensures Field(SequenceBits(s), 4 * (|s| / 4 - p / 4) + 3 - p % 4) == SeqCode(s[p])
    {
      ByteDigit(s, p);
    }
    forall t: nat | t < 4 && |s| % 4 == 0
      ensures Field(SequenceBits(s), t) == 0
    {
      PaddingDigit(s, t);
    }
  }

  lemma PaddedLength(n: nat)
    ensures n + Padding(n) == 4 * (n / 4 + 1)
    ensures n % 4 == 0 ==> Padding(n) == 4
  {
  }

  lemma PaddingDigit(s: seq<char>, t: nat)
    requires t < 4 && |s| % 4 == 0
    ensures Field(SequenceBits(s), t) == 0
  {
    PaddedLength(|s|);
    FieldOfSequenceBits(s, t);
  }

  lemma ValueFits(s: seq<char>)
    ensures SequenceBits(s) < Pow4(4 * (|s| / 4 + 1))
  {
    PaddedLength(|s|);
    ShiftedBelow(SpanValue(s, 0, |s|), |s|, Padding(|s|), 4 * (|s| / 4 + 1));
  }

  lemma ByteDigit(s: seq<char>, p: nat)
    requires p < |s|
    ensures Field(SequenceBits(s), 4 * (|s| / 4 - p / 4) + 3 - p % 4) == SeqCode(s[p])
  {
    var n, q, r := |s|, |s| / 4, |s| % 4;
    assert n == 4 * q + r && Padding(n) == 4 - r;
    var d := 4 * (q - p / 4) + 3 - p % 4;
    assert p == 4 * (p / 4) + p % 4;
    assert Padding(n) <= d < Padding(n) + n && n - 1 - (d - Padding(n)) == p;
    FieldOfSequenceBits(s, d);
  }

  lemma MulBelow(v: nat, b: nat, p: nat)
    requires v < b && p > 0
    ensures v * p < b * p
  {
  }

  /** Sequences whose characters have the same codes pack to the same value. */
  lemma {:induction false} SameCodes(s: seq<char>, t: seq<char>, n: nat)
    requires n <= |s| == |t|
    requires forall p :: 0 <= p < n ==> SeqCode(s[p]) == SeqCode(t[p])
    ensures SpanValue(s, 0, n) == SpanValue(t, 0, n)
    decreases n
  {
    if n > 0 {
      SameCodes(s, t, n - 1);
    }
  }

  /** Any character other than C, G and T, lower-case letters included, packs like A:
    * putting it at any position gives the value that an A there gives. */
  lemma OthersPackAsA(s: seq<char>, i: nat, c: char)
    requires i < |s| && c != 'C' && c != 'G' && c != 'T'
    ensures SeqCode(c) == 0
    ensures SequenceBits(s[i := c]) == SequenceBits(s[i := 'A'])
  {
    SameCodes(s[i := c], s[i := 'A'], |s|);
  }

  // ---------------------------------------------------------------------------
  // Order

  /** Splitting `s[a..n]` at `b`. */
  lemma {:induction false} SpanSplit(s: seq<char>, a: nat, b: nat, n: nat)
    requires a <= b <= n <= |s|
    ensures SpanValue(s, a, n) == Shifted(SpanValue(s, a, b), n - b) + SpanValue(s, b, n)
    decreases n
  {
    if n > b {
      SpanSplit(s, a, b, n - 1);
    }
  }

  /** `s` comes before `t` (same length): they first differ at `p`, where `s` has the
    * smaller code. */
  predicate BeforeAt(s: seq<char>, t: seq<char>, p: nat)
    requires |s| == |t|
  {
    p < |s| && s[..p] == t[..p] && SeqCode(s[p]) < SeqCode(t[p])
  }

  lemma SamePrefix(s: seq<char>, t: seq<char>, p: nat)
    requires p <= |s| == |t| && s[..p] == t[..p]
    ensures SpanValue(s, 0, p) == SpanValue(t, 0, p)
  {
    if p > 0 {
      assert s[..p - 1] == t[..p - 1] by {
        assert s[..p - 1] == s[..p][..p - 1];
        assert t[..p - 1] == t[..p][..p - 1];
      }
      SamePrefix(s, t, p - 1);
      assert s[p - 1] == s[..p][p - 1] == t[..p][p - 1] == t[p - 1];
    }
  }

  /** A span starting with a smaller code is smaller, whatever follows. */
  lemma SpanBefore(s: seq<char>, t: seq<char>, p: nat)
    requires p < |s| == |t| && SeqCode(s[p]) < SeqCode(t[p])
    ensures SpanValue(s, p, |s|) < SpanValue(t, p, |t|)
  {
    var n := |s|;
    SpanSplit(s, p, p + 1, n);
    SpanSplit(t, p, p + 1, n);
    assert SpanValue(s, p, p + 1) == SeqCode(s[p]);
    assert SpanValue(t, p, p + 1) == SeqCode(t[p]);
    ShiftedGap(SeqCode(s[p]), SeqCode(t[p]), n - (p + 1));
  }

  lemma {:induction false} MulLess(a: nat, b: nat, q: nat)
    requires a < b
    ensures a * q + q <= b * q
    decreases b
  {
    if b > a + 1 {
      MulLess(a, b - 1, q);
    }
  }

  /** The value orders same-length sequences by their codes, first character first. */
  lemma SequenceBitsOrder(s: seq<char>, t: seq<char>, p: nat)
    requires |s| == |t| && BeforeAt(s, t, p)
    ensures SequenceBits(s) < SequenceBits(t)
  {
    var n := |s|;
    SpanSplit(s, 0, p, n);
    SpanSplit(t, 0, p, n);
    SamePrefix(s, t, p);
    SpanBefore(s, t, p);
    ShiftedGap(SpanValue(s, 0, n), SpanValue(t, 0, n), Padding(n));
  }

  /** Over A/C/G/T, two sequences of one length have the same value only if they are
    * the same. */
  lemma SequenceBitsInjective(s: seq<char>, t: seq<char>)
    requires |s| == |t| && AllBases(s) && AllBases(t)
    ensures SequenceBits(s) == SequenceBits(t) <==> s == t
  {
    if SequenceBits(s) == SequenceBits(t) {
      var pad := Padding(|s|);
      forall p | 0 <= p < |s|
        ensures s[p] == t[p]
      {
        var n := pad + (|s| - 1 - p);
        FieldOfSequenceBits(s, n);
        FieldOfSequenceBits(t, n);
      }
    }
  }

  // ---------------------------------------------------------------------------
  // The k-mer

  /** The k-mer `NewKmerFromSequence` returns: only its integer is set. */
  function SequenceKmer(s: seq<char>): Kmer
  {
    Kmer(Some(SequenceBits(s)), [], [], [])
  }

  /** `NewKmerFromSequence`: pack the characters four to a byte into a buffer and read
    * the buffer as a big-endian integer. */
  method NewKmerFromSequence(s: seq<char>) returns (kmer: Kmer)
    ensures kmer == SequenceKmer(s)
  {
    var tmpByte: u8 := 0;
    var b: seq<u8> := [];
    var i := 0;
    ghost var q, r := 0, 0;
    while i < |s|
      invariant i == 4 * q + r && r < 4 && i <= |s|
      invariant BigEndian(b) == SpanValue(s, 0, 4 * q)
      invariant tmpByte == Shifted(SpanValue(s, 4 * q, i), 4 - r)
    {
      PackStep(s, i, q, r, b, tmpByte);
      var v := s[i];
      tmpByte := PackBase(tmpByte, v, i);
      if i % 4 == 3 {
        b := b + [tmpByte];
        tmpByte := 0;
        q, r := q + 1, 0;
      } else {
        r := r + 1;
      }
      i := i + 1;
    }
    PackLast(s, q, r, b, tmpByte);
    b := b + [tmpByte];
    kmer := Kmer(Some(BigEndian(b)), [], [], []);
  }

  /** `c << (6 - 2m)` on a byte places code `c` at pair `m` from the top. */
  lemma ShlByte(c: nat, m: nat)
    requires c < 4 && m < 4
    ensures Shl8(c, 6 - m * 2) == c * Pow4(3 - m) < TwoTo8
  {
    if m == 0 {
      assert Pow2(6) == 64 == Pow4(3);
    } else if m == 1 {
      assert Pow2(4) == 16 == Pow4(2);
    } else if m == 2 {
      assert Pow2(2) == 4 == Pow4(1);
    } else {
      assert Pow2(0) == 1 == Pow4(0);
    }
  }

  /** One turn of the packing loop keeps its invariant: the byte under construction
    * takes the next code, and a completed byte extends the value of the bytes before. */
  lemma PackStep(s: seq<char>, i: nat, q: nat, r: nat, b: seq<u8>, tmp: u8)
    requires i == 4 * q + r && r < 4 && i < |s|
    requires BigEndian(b) == SpanValue(s, 0, 4 * q)
    requires tmp == Shifted(SpanValue(s, 4 * q, i), 4 - r)
    ensures i % 4 == r
    ensures var t := Or(tmp, Shl8(SeqCode(s[i]), 6 - i % 4 * 2));
      && t < TwoTo8
      && (r == 3 ==> BigEndian(b + [t]) == SpanValue(s, 0, 4 * (q + 1))
                     && 0 == Shifted(SpanValue(s, 4 * (q + 1), i + 1), 4 - 0))
      && (r < 3 ==> t == Shifted(SpanValue(s, 4 * q, i + 1), 4 - (r + 1)))
  {
    DivModUnique(i, 4, q, r);
    PackInto(s, i, q, r, b, tmp, 6 - i % 4 * 2);
  }

  /** `PackStep` with the shift of the new code given as `6 - 2 * r`. */
  lemma PackInto(s: seq<char>, i: nat, q: nat, r: nat, b: seq<u8>, tmp: u8, shift: nat)
    requires i == 4 * q + r && r < 4 && i < |s| && shift == 6 - r * 2
    requires BigEndian(b) == SpanValue(s, 0, 4 * q)
    requires tmp == Shifted(SpanValue(s, 4 * q, i), 4 - r)
    ensures var t := Or(tmp, Shl8(SeqCode(s[i]), shift));
      && t < TwoTo8
      && (r == 3 ==> BigEndian(b + [t]) == SpanValue(s, 0, 4 * (q + 1))
                     && 0 == Shifted(SpanValue(s, 4 * (q + 1), i + 1), 4 - 0))
      && (r < 3 ==> t == Shifted(SpanValue(s, 4 * q, i + 1), 4 - (r + 1)))
  {
    var g := SpanValue(s, 4 * q, i);
    PackCode(tmp, g, SeqCode(s[i]), r, shift);
    var t := Or(tmp, Shl8(SeqCode(s[i]), shift));
    if r == 3 {
      PackByte(s, q, b, t);
      assert SpanValue(s, 4 * (q + 1), i + 1) == 0;
      assert Shifted(0, 4) == 0;
    }
  }

  /** The switch in the packing loop: C, G and T OR their code into the byte under
    * construction at pair `i % 4` counted from the top; any other character leaves it. */
  method PackBase(tmpByte: u8, v: char, i: nat) returns (t: u8)
    ensures t == Or(tmpByte, Shl8(SeqCode(v), 6 - i % 4 * 2))
  {
    t := tmpByte;
    if v == 'C' {
      var newBits := Shl8(1, 6 - i % 4 * 2);
      OrByte(t, newBits);
      t := Or(t, newBits);
    } else if v == 'G' {
      var newBits := Shl8(2, 6 - i % 4 * 2);
      OrByte(t, newBits);
      t := Or(t, newBits);
    } else if v == 'T' {
      var newBits := Shl8(3, 6 - i % 4 * 2);
      OrByte(t, newBits);
      t := Or(t, newBits);
    } else {
      OrZeroShift(tmpByte, 6 - i % 4 * 2);
    }
  }

  lemma OrZeroShift(t: u8, n: nat)
    ensures Or(t, Shl8(0, n)) == t
  {
    OrSmall(t);
  }

  /** ORing code `c` into the byte under construction at pair `m` (counted from the top)
    * appends the code to the group's value. */
  lemma PackCode(tmp: u8, g: nat, c: nat, m: nat, shift: nat)
    requires m < 4 && c < 4 && g < Pow4(m) && tmp == Shifted(g, 4 - m) && shift == 6 - m * 2
    ensures Or(tmp, Shl8(c, shift)) == Shifted(4 * g + c, 3 - m) < TwoTo8
    ensures tmp == Shifted(4 * g + 0, 3 - m)
  {
    ShiftedIs(g, 4 - m);
    ShiftedIs(4 * g + c, 3 - m);
    ShiftedIs(4 * g, 3 - m);
    var q := Pow4(3 - m);
    ShlByte(c, m);
    assert Pow4(4 - m) == 4 * q;
    MulLess(c, 4, q);
    OrAdd(c * q, g, 4 - m);
    Spread(g, c, q);
    PackBound(g, c, m);
  }

  lemma Spread(g: int, c: int, q: int)
    ensures c * q + (4 * q) * g == (4 * g + c) * q
    ensures g * (4 * q) == (4 * g + 0) * q
  {
  }

  lemma PackBound(g: nat, c: nat, m: nat)
    requires m < 4 && c < 4 && g < Pow4(m)
    ensures (4 * g + c) * Pow4(3 - m) < TwoTo8
  {
    var q := Pow4(3 - m);
    assert 4 * g + c < Pow4(m + 1);
    MulBelow(4 * g + c, Pow4(m + 1), q);
    Pow4Add(m + 1, 3 - m);
    assert Pow4(4) == 256;
  }

  /** A complete byte extends the value of the bytes before it by its four codes. */
  lemma PackByte(s: seq<char>, q: nat, b: seq<u8>, t: u8)
    requires 4 * q + 4 <= |s|
    requires BigEndian(b) == SpanValue(s, 0, 4 * q)
    requires t == SpanValue(s, 4 * q, 4 * q + 4)
    ensures BigEndian(b + [t]) == SpanValue(s, 0, 4 * (q + 1))
  {
    BigEndianPush(b, t);
    SpanByte(s, q);
  }

  lemma BigEndianPush(b: seq<u8>, t: u8)
    ensures BigEndian(b + [t]) == 256 * BigEndian(b) + t
  {
    assert (b + [t])[..|b|] == b;
  }

  lemma SpanByte(s: seq<char>, q: nat)
    requires 4 * q + 4 <= |s|
    ensures SpanValue(s, 0, 4 * (q + 1)) == 256 * SpanValue(s, 0, 4 * q) + SpanValue(s, 4 * q, 4 * q + 4)
  {
    SpanSplit(s, 0, 4 * q, 4 * q + 4);
    ShiftedByte(SpanValue(s, 0, 4 * q));
  }

  /** The last byte, complete or not, ends the value with `Padding` zero digits. */
  lemma PackLast(s: seq<char>, q: nat, r: nat, b: seq<u8>, t: u8)
    requires |s| == 4 * q + r && r < 4
    requires BigEndian(b) == SpanValue(s, 0, 4 * q)
    requires t == Shifted(SpanValue(s, 4 * q, |s|), 4 - r)
    ensures BigEndian(b + [t]) == SequenceBits(s)
  {
    var n := |s|;
    var head, lo := SpanValue(s, 0, 4 * q), SpanValue(s, 4 * q, n);
    assert (b + [t])[..|b|] == b;
    DivModUnique(n, 4, q, r);
    assert Padding(n) == 4 - r;
    SpanSplit(s, 0, 4 * q, n);
    ShiftedAdd(Shifted(head, r), lo, 4 - r);
    ShiftedTwice(head, r, 4 - r);
    ShiftedByte(head);
  }

  // ---------------------------------------------------------------------------
  // Comparison

  /** `kmer.Cmp(other)`: `big.Int.Cmp` of `other`'s integer against `kmer`'s, so -1, 0
    * or 1 as `other` is below, equal to or above `kmer`.  A nil integer panics in Go,
    * so both must be set. */
  function Cmp(kmer: Kmer, other: Kmer): (r: int)
    requires kmer.bits.Some? && other.bits.Some?
    ensures -1 <= r <= 1
  {
    var x, y := other.bits.value, kmer.bits.value;
    if x < y then -1 else if x == y then 0 else 1
  }

  /** Swapping the operands negates the result. */
  lemma CmpSwap(a: Kmer, b: Kmer)
    requires a.bits.Some? && b.bits.Some?
    ensures Cmp(a, b) == -Cmp(b, a)
    ensures Cmp(a, b) == 0 <==> a.bits == b.bits
  {
  }

  /** On packed sequences of one length, `Cmp(s, t)` is 1 when `s` comes first, -1 when
    * `t` does, and (over A/C/G/T) 0 exactly when they are the same sequence. */
  lemma CmpSequences(s: seq<char>, t: seq<char>)
    requires |s| == |t|
    ensures forall p :: BeforeAt(s, t, p) ==> Cmp(SequenceKmer(s), SequenceKmer(t)) == 1
    ensures forall p :: BeforeAt(t, s, p) ==> Cmp(SequenceKmer(s), SequenceKmer(t)) == -1
    ensures AllBases(s) && AllBases(t) ==>
      (Cmp(SequenceKmer(s), SequenceKmer(t)) == 0 <==> s == t)
  {
    forall p | BeforeAt(s, t, p)
      ensures Cmp(SequenceKmer(s), SequenceKmer(t)) == 1
    {
      SequenceBitsOrder(s, t, p);
    }
    forall p | BeforeAt(t, s, p)
      ensures Cmp(SequenceKmer(s), SequenceKmer(t)) == -1
    {
      SequenceBitsOrder(t, s, p);
    }
    if AllBases(s) && AllBases(t) {
      SequenceBitsInjective(s, t);
    }
  }
}
