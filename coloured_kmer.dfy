/// The big-integer k-mer of the coloured-k-mer package (colouredKmer/kmer.go).
///
/// A k-mer is a `big.Int`, modelled here as a natural number.  A text of a/c/g/t is
/// read as a base-4 number with its LAST letter least significant (`LettersValue`),
/// and the integer's little-endian 64-bit words (`big.Word`) hold 32 letters each.
/// `Spelled(v, k)` is the k low base-4 digits of `v` written back as letters.  The
/// encoder and the decoder are methods with loops, proved against these functions.
module ColouredKmer {
  import opened GoInts

  /** `alphabet.DNA.IndexOf`: a/c/g/t are 0..3, every other letter -1. */
  function IndexOf(c: char): (r: int)
    ensures -1 <= r < 4
  {
    if c == 'a' then 0 else if c == 'c' then 1 else if c == 'g' then 2 else if c == 't' then 3 else -1
  }

  predicate IsDna(c: char)
  {
    c == 'a' || c == 'c' || c == 'g' || c == 't'
  }

  predicate AllDna(s: seq<char>)
  {
    forall p :: 0 <= p < |s| ==> IsDna(s[p])
  }

  /** `alphabet.DNA.Letter`: the letter of an index. */
  function LetterOf(b: nat): (c: char)
    requires b < 4
    ensures IsDna(c) && IndexOf(c) == b
  {
    if b == 0 then 'a' else if b == 1 then 'c' else if b == 2 then 'g' else 't'
  }

  /** A text of a/c/g/t as a base-4 number, its last letter least significant. */
  function LettersValue(s: seq<char>): (v: nat)
    requires AllDna(s)
    ensures v < Pow4(|s|)
  {
    if |s| == 0 then 0 else 4 * LettersValue(s[..|s| - 1]) + IndexOf(s[|s| - 1])
  }

  /** The `k` low base-4 digits of `v` as letters, the most significant first. */
  function Spelled(v: nat, k: nat): (r: seq<char>)
    ensures |r| == k
  {
    seq(k, p requires 0 <= p < k => LetterOf(Field(v, k - 1 - p)))
  }

  lemma SpelledDna(v: nat, k: nat)
    ensures AllDna(Spelled(v, k))
  {
    var r := Spelled(v, k);
    forall p | 0 <= p < k
      ensures IsDna(r[p])
    {
      SpelledAt(v, k, k - 1 - p);
    }
  }

  // ---------------------------------------------------------------------------
  // big.Int as words

  /** `big.Int.SetBits`: the value of little-endian 64-bit words. */
  function WordsValue(ws: seq<u64>): nat
  {
    if |ws| == 0 then 0 else ws[0] + TwoTo64 * WordsValue(ws[1..])
  }

  /** `big.Int.Bits`: the shortest little-endian words of a value, none at all for 0. */
  function Bits(v: nat): (ws: seq<u64>)
    ensures WordsValue(ws) == v
    ensures |ws| > 0 ==> ws[|ws| - 1] != 0
    decreases v
  {
    if v == 0 then []
    else
      var ws := [v % TwoTo64] + Bits(v / TwoTo64);
      assert ws[1..] == Bits(v / TwoTo64);
      ws
  }

  /** Base `i` of a value is field `i % 32` of word `i / 32`, and 0 past the last word. */
  lemma {:induction false} FieldOfWords(ws: seq<u64>, i: nat)
    ensures Field(WordsValue(ws), i) == if i / 32 < |ws| then Field(ws[i / 32], i % 32) else 0
  {
    if |ws| == 0 {
      FieldOfZero(i);
    } else {
      var hi := WordsValue(ws[1..]);
      WordBase();
      assert WordsValue(ws) == ws[0] + Pow4(32) * hi;
      FieldOfSplit(ws[0], hi, 32, i);
      var q, m := i / 32, i % 32;
      if i >= 32 {
        DivModUnique(i - 32, 32, q - 1, m);
        FieldOfWords(ws[1..], i - 32);
        assert Field(WordsValue(ws), i) == Field(hi, i - 32);
        if q < |ws| {
          assert ws[1..][q - 1] == ws[q];
          assert Field(hi, i - 32) == Field(ws[q], m);
        } else {
          assert Field(hi, i - 32) == 0;
        }
      } else {
        DivModUnique(i, 32, 0, i);
        assert Field(WordsValue(ws), i) == Field(ws[0], i);
      }
    }
  }

  lemma WordBase()
    ensures Pow4(32) == TwoTo64
  {
    Pow4Constants();
  }

  lemma {:induction false} ZeroWords(ws: seq<u64>)
    requires forall w :: 0 <= w < |ws| ==> ws[w] == 0
    ensures WordsValue(ws) == 0
  {
    if |ws| > 0 {
      ZeroWords(ws[1..]);
    }
  }

  /** `t*a + t*b == t*c + t*d` whenever `a + b == c + d`. */
  lemma ScaleSum(t: int, a: int, b: int, c: int, d: int)
    requires a + b == c + d
    ensures t * a + t * b == t * c + t * d
  {
    assert t * a + t * b == t * (a + b);
    assert t * c + t * d == t * (c + d);
  }

  lemma Regroup(y: int, t: int, p: int)
    ensures y * (t * p) == t * (y * p)
  {
  }

  /** Replacing word `w` changes the value by the difference, placed at base 32w. */
  lemma {:induction false} WordsValueUpdate(ws: seq<u64>, w: nat, x: u64)
    requires w < |ws|
    ensures WordsValue(ws[w := x]) + ws[w] * Pow4(32 * w) == WordsValue(ws) + x * Pow4(32 * w)
  {
    if w > 0 {
      var ws' := ws[w := x];
      var tail, tail' := ws[1..], ws'[1..];
      assert tail' == tail[w - 1 := x];
      assert ws'[0] == ws[0] && tail[w - 1] == ws[w];
      var a, b := WordsValue(tail'), WordsValue(tail);
      assert WordsValue(ws') == ws[0] + TwoTo64 * a;
      assert WordsValue(ws) == ws[0] + TwoTo64 * b;
      var p := Pow4(32 * (w - 1));
      WordsValueUpdate(tail, w - 1, x);
      assert a + ws[w] * p == b + x * p;
      ScaleSum(TwoTo64, a, ws[w] * p, b, x * p);
      Pow4Constants();
      Pow4Add(32, 32 * (w - 1));
      assert Pow4(32 * w) == TwoTo64 * p;
      Regroup(ws[w], TwoTo64, p);
      Regroup(x, TwoTo64, p);
    }
  }

  // ---------------------------------------------------------------------------
  // The letters of a value

  /** Digit `n` of a text's value is the index of its letter `n` places from the end. */
  lemma {:induction false} FieldOfLetters(s: seq<char>, n: nat)
    requires AllDna(s)
    ensures Field(LettersValue(s), n) == if n < |s| then IndexOf(s[|s| - 1 - n]) else 0
  {
    if |s| == 0 {
      FieldOfZero(n);
    } else {
      var t := s[..|s| - 1];
      FieldOfPush(LettersValue(t), IndexOf(s[|s| - 1]), n);
      if n > 0 {
        FieldOfLetters(t, n - 1);
      }
    }
  }

  /** A letter put in front of a text adds its index at the text's length. */
  lemma {:induction false} LettersValueFront(c: char, t: seq<char>)
    requires IsDna(c) && AllDna(t)
    ensures AllDna([c] + t)
    ensures LettersValue([c] + t) == IndexOf(c) * Pow4(|t|) + LettersValue(t)
  {
    var s := [c] + t;
    assert forall p :: 0 <= p < |s| ==> s[p] == if p == 0 then c else t[p - 1];
    if |t| > 0 {
      var init := t[..|t| - 1];
      assert s[..|s| - 1] == [c] + init;
      LettersValueFront(c, init);
      PlacedStep(IndexOf(c), |t|);
    }
  }

  lemma SpelledAt(v: nat, k: nat, n: nat)
    requires n < k
    ensures Spelled(v, k)[k - 1 - n] == LetterOf(Field(v, n))
  {
  }

  lemma LetterOfIndex(c: char)
    requires IsDna(c)
    ensures LetterOf(IndexOf(c)) == c
  {
  }

  /** Spelling the value of a text gives the text back. */
  lemma SpelledLetters(s: seq<char>)
    requires AllDna(s)
    ensures Spelled(LettersValue(s), |s|) == s
  {
    var v, r := LettersValue(s), Spelled(LettersValue(s), |s|);
    forall p | 0 <= p < |s|
      ensures r[p] == s[p]
    {
      var n := |s| - 1 - p;
      FieldOfLetters(s, n);
      SpelledAt(v, |s|, n);
      LetterOfIndex(s[p]);
    }
  }

  /** And the value of the spelling of a value below 4^k is that value. */
  lemma LettersSpelled(v: nat, k: nat)
    requires v < Pow4(k)
    ensures AllDna(Spelled(v, k)) && LettersValue(Spelled(v, k)) == v
  {
    SpelledDna(v, k);
    var r := Spelled(v, k);
    forall n: nat
      ensures Field(LettersValue(r), n) == Field(v, n)
    {
      FieldOfLetters(r, n);
      if n < k {
        SpelledAt(v, k, n);
      } else {
        FieldAbove(v, k, n);
      }
    }
    FieldsDetermine(LettersValue(r), v);
  }

  /** Two texts of one length with the same value are the same text. */
  lemma LettersValueInjective(s: seq<char>, t: seq<char>)
    requires AllDna(s) && AllDna(t) && |s| == |t|
    ensures LettersValue(s) == LettersValue(t) <==> s == t
  {
    if LettersValue(s) == LettersValue(t) {
      SpelledLetters(s);
      SpelledLetters(t);
    }
  }

  // ---------------------------------------------------------------------------
  // The encoder

  /** What the encoder comes to: the value; a letter outside a/c/g/t at `position`,
    * counted from the end starting at 1, returned with the value 0; or a write past the
    * end of the word buffer, which panics in Go. */
  datatype Encoding = Encoded(value: nat) | NotDna(value: nat, position: nat) | IndexPanic

  /** The last `n` letters of `s` are all a/c/g/t. */
  predicate DnaSuffix(s: seq<char>, n: nat)
  {
    n <= |s| && forall p :: |s| - n <= p < |s| ==> IsDna(s[p])
  }

  /** The letter `i` places from the end is the first one, from the end, outside a/c/g/t. */
  predicate FirstBadFromEnd(s: seq<char>, i: nat)
  {
    DnaSuffix(s, i) && i < |s| && !IsDna(s[|s| - 1 - i])
  }

  /** The value of the last `n` letters of `s`, built the way the encoder builds it:
    * letter `n-1` from the end goes in at 4^(n-1). */
  function SuffixValue(s: seq<char>, n: nat): nat
    requires DnaSuffix(s, n)
  {
    if n == 0 then 0 else IndexOf(s[|s| - n]) * Pow4(n - 1) + SuffixValue(s, n - 1)
  }

  /** It is the value of that suffix as a text. */
  lemma {:induction false} SuffixValueIs(s: seq<char>, n: nat)
    requires DnaSuffix(s, n)
    ensures AllDna(s[|s| - n..]) && SuffixValue(s, n) == LettersValue(s[|s| - n..])
  {
    SuffixDna(s, n);
    if n > 0 {
      SuffixValueIs(s, n - 1);
      assert s[|s| - n..] == [s[|s| - n]] + s[|s| - (n - 1)..];
      LettersValueFront(s[|s| - n], s[|s| - (n - 1)..]);
    }
  }

  lemma SuffixDna(s: seq<char>, n: nat)
    requires n <= |s|
    ensures DnaSuffix(s, n) <==> AllDna(s[|s| - n..])
  {
    var t := s[|s| - n..];
    assert forall p :: 0 <= p < n ==> t[p] == s[|s| - n + p];
  }

  /** The words hold letters 0..i-1 from the end and nothing from letter `i` on. */
  predicate Filled(ws: seq<u64>, i: nat)
  {
    && (i / 32 < |ws| ==> ws[i / 32] < Pow4(i % 32))
    && forall w :: i / 32 < w < |ws| ==> ws[w] == 0
  }

  /** ORing code `c` into word `i / 32` at field `i % 32`, above every field set so far,
    * adds it to the word, which stays a word. */
  lemma PlaceLetter(lo: u64, m: nat, c: nat)
    requires c < 4 && m < 32 && lo < Pow4(m)
    ensures lo + Pow4(m) * c < Pow4(m + 1) <= TwoTo64
    ensures Or(lo, Shl64(c, 2 * m)) == lo + Pow4(m) * c
  {
    assert Pow4(m + 1) == 4 * Pow4(m);
    SumBelow(lo, Pow4(m), c);
    Pow4Word(m + 1);
    ShlPlaced(c, m);
    OrAdd(lo, c, m);
  }

  lemma Pow4Word(n: nat)
    requires n <= 32
    ensures Pow4(n) <= TwoTo64
  {
    Pow4Monotone(n, 32);
    Pow4Constants();
  }

  /** After the letter `i` is placed, the words hold letters 0..i. */
  lemma PlacedFilled(ws: seq<u64>, i: nat, x: u64)
    requires i / 32 < |ws| && Filled(ws, i) && x < Pow4(i % 32 + 1)
    ensures Filled(ws[i / 32 := x], i + 1)
  {
    var w, m := i / 32, i % 32;
    if m + 1 < 32 {
      assert (i + 1) / 32 == w && (i + 1) % 32 == m + 1;
    } else {
      assert (i + 1) / 32 == w + 1 && (i + 1) % 32 == 0;
      assert Pow4(0) == 1;
    }
  }

  lemma PlacedValue(ws: seq<u64>, i: nat, c: nat, x: u64)
    requires i / 32 < |ws| && x == ws[i / 32] + Pow4(i % 32) * c
    ensures WordsValue(ws[i / 32 := x]) == WordsValue(ws) + c * Pow4(i)
  {
    var w, m := i / 32, i % 32;
    var lo, q := ws[w], Pow4(m);
    var p := Pow4(32 * w);
    Pow4Add(32 * w, m);
    assert 32 * w + m == i;
    var placed := Pow4(i);
    assert placed == p * q;
    var before, after := WordsValue(ws), WordsValue(ws[w := x]);
    WordsValueUpdate(ws, w, x);
    Combine(after, before, lo, q, c, p, placed, x);
  }

  lemma SumBelow(lo: int, q: int, c: int)
    requires 0 <= lo < q && 0 <= c < 4
    ensures lo + q * c < 4 * q
  {
  }

  lemma Combine(after: int, before: int, lo: int, q: int, c: int, p: int, placed: int, x: int)
    requires placed == p * q && x == lo + q * c && after + lo * p == before + x * p
    ensures after == before + c * placed
  {
    assert x * p == lo * p + c * (p * q);
  }

  /** The outcome of encoding `s` into a buffer of `bufferLength` words. */
  predicate Describes(outcome: Encoding, s: seq<char>, bufferLength: nat)
  {
    && (outcome.Encoded? <==> AllDna(s) && |s| <= 32 * bufferLength)
    && (outcome.Encoded? ==> AllDna(s) && outcome.value == LettersValue(s))
    && (outcome.NotDna? ==>
          && outcome.value == 0
          && 1 <= outcome.position <= 32 * bufferLength + 1
          && FirstBadFromEnd(s, outcome.position - 1))
    && (outcome.IndexPanic? <==> DnaSuffix(s, 32 * bufferLength + 1))
  }

  lemma StopsAtLetter(s: seq<char>, bufferLength: nat, i: nat)
    requires i < |s| && i <= 32 * bufferLength
    requires DnaSuffix(s, i) && !IsDna(s[|s| - 1 - i])
    ensures Describes(NotDna(0, i + 1), s, bufferLength)
  {
  }

  lemma StopsAtBufferEnd(s: seq<char>, bufferLength: nat, i: nat)
    requires i < |s| && i == 32 * bufferLength
    requires DnaSuffix(s, i) && IsDna(s[|s| - 1 - i])
    ensures Describes(IndexPanic, s, bufferLength)
  {
  }

  lemma EncodesAll(s: seq<char>, bufferLength: nat, value: nat)
    requires |s| <= 32 * bufferLength && DnaSuffix(s, |s|) && value == SuffixValue(s, |s|)
    ensures Describes(Encoded(value), s, bufferLength)
  {
    SuffixValueIs(s, |s|);
    assert s[|s| - |s|..] == s;
  }

  /** The loop of `lettersToBigInt`: letter `i` from the end goes to word `i / 32`,
    * field `i % 32`, and the words are read as one value with `SetBits`. */
  method PackFromEnd(s: seq<char>, bufferLength: nat) returns (outcome: Encoding)
    ensures Describes(outcome, s, bufferLength)
  {
    var words := new u64[bufferLength](_ => 0);
    var i := 0;
    ZeroWords(words[..]);
    assert Pow4(0) == 1;
    while i < |s|
      invariant 0 <= i <= |s| && i <= 32 * bufferLength
      invariant DnaSuffix(s, i)
      invariant WordsValue(words[..]) == SuffixValue(s, i)
      invariant Filled(words[..], i)
    {
      var index := IndexOf(s[|s| - i - 1]);
      if index < 0 {
        StopsAtLetter(s, bufferLength, i);
        return NotDna(0, i + 1);
      }
      var wordIndex := i / 32;
      var shiftDist := (i - wordIndex * 32) * 2;
      if wordIndex >= words.Length {
        StopsAtBufferEnd(s, bufferLength, i);
        return IndexPanic;
      }
      assert shiftDist == 2 * (i % 32);
      OrInto(words, wordIndex, shiftDist, i, index);
      i := i + 1;
    }
    outcome := Encoded(WordsValue(words[..]));
    EncodesAll(s, bufferLength, outcome.value);
  }

  /** `words[wordIndex] |= big.Word(index << shiftDist)` for letter `i` from the end.
    * `index << shiftDist` is taken on a Go int and converted to a big.Word: the same
    * 64 bits as the unsigned shift. */
  method OrInto(words: array<u64>, wordIndex: nat, shiftDist: nat, ghost i: nat, index: nat)
    requires wordIndex == i / 32 && shiftDist == 2 * (i % 32)
    requires index < 4 && wordIndex < words.Length && Filled(words[..], i)
    modifies words
    ensures words[..] == old(words[..])[wordIndex := words[wordIndex]]
    ensures WordsValue(words[..]) == old(WordsValue(words[..])) + index * Pow4(i)
    ensures Filled(words[..], i + 1)
  {
    PlaceLetter(words[wordIndex], i % 32, index);
    ghost var before := words[..];
    words[wordIndex] := Or(words[wordIndex], Shl64(index, shiftDist));
    assert words[..] == before[wordIndex := words[wordIndex]];
    PlacedValue(before, i, index, words[wordIndex]);
    PlacedFilled(before, i, words[wordIndex]);
  }

  /** `lettersToBigInt` as written: a buffer of `len/33 + 1` words. */
  method LettersToBigInt(s: seq<char>) returns (outcome: Encoding)
    ensures Describes(outcome, s, |s| / 33 + 1)
  {
    outcome := PackFromEnd(s, |s| / 33 + 1);
  }

  /** The buffer of `len/33 + 1` words is one word short for 65 letters: the write of the
    * first letter at index 64 goes past it. */
  lemma BufferTooShort()
    ensures var s := seq(65, _ => 'a'); AllDna(s) && DnaSuffix(s, 32 * (|s| / 33 + 1) + 1)
  {
  }

  /** Exactly when the source's buffer is too short for a text of a/c/g/t: when its
    * `len/33 + 1` words hold fewer than `len` letters.  That first happens at 65 letters
    * and recurs in bands (97-98, 129-131, ...), while 66 to 96 letters fit. */
  lemma WhenBufferTooShort(s: seq<char>, outcome: Encoding)
    requires AllDna(s) && Describes(outcome, s, |s| / 33 + 1)
    ensures outcome.IndexPanic? <==> |s| > 32 * (|s| / 33 + 1)
    ensures |s| <= 96 ==> (outcome.IndexPanic? <==> |s| == 65)
  {
  }

  /** `lettersToBigInt` with a buffer of `len/32 + 1` words, enough for every letter. */
  method LettersToBigIntFixed(s: seq<char>) returns (outcome: Encoding)
    ensures Describes(outcome, s, |s| / 32 + 1)
    ensures outcome.Encoded? <==> AllDna(s)
    ensures !outcome.IndexPanic?
  {
    outcome := PackFromEnd(s, |s| / 32 + 1);
  }

  /** `stringToBigInt`: the value, or the error position with the value 0. */
  method StringToBigInt(s: seq<char>) returns (value: nat, err: Option<nat>)
    ensures err.None? <==> AllDna(s)
    ensures err.None? ==> AllDna(s) && value == LettersValue(s)
    ensures err.Some? ==> value == 0 && err.value >= 1 && FirstBadFromEnd(s, err.value - 1)
  {
    var outcome := LettersToBigIntFixed(s);
    if outcome.Encoded? {
      value, err := outcome.value, None;
    } else {
      value, err := outcome.value, Some(outcome.position);
    }
  }

  /** The coloured k-mer: a big integer (None for a nil `*big.Int`), coverages and edges. */
  datatype Kmer = Kmer(bigInt: Option<nat>, coverages: seq<u32>, edges: seq<u8>)

  /** `NewKmerFromString`: on an error the k-mer's integer is left unset. */
  method NewKmerFromString(s: seq<char>) returns (kmer: Kmer, err: Option<nat>)
    ensures kmer.coverages == [] && kmer.edges == []
    ensures err.None? <==> AllDna(s)
    ensures err.None? ==> AllDna(s) && kmer.bigInt == Some(LettersValue(s))
    ensures err.Some? ==> kmer.bigInt == None && err.value >= 1 && FirstBadFromEnd(s, err.value - 1)
  {
    var bits, e := StringToBigInt(s);
    if e.Some? {
      return Kmer(None, [], []), e;
    }
    kmer, err := Kmer(Some(bits), [], []), None;
  }

  // ---------------------------------------------------------------------------
  // The decoder

  /** `kmer.Letters(k)` as written: letter `k-1-i` is field `i % 32` of word `i / 32` of
    * the normalised words `Bits()`, which must reach letter k-1. */
  method Letters(kmer: Kmer, k: nat) returns (out: seq<char>)
    requires kmer.bigInt.Some?
    requires k == 0 || (k - 1) / 32 < |Bits(kmer.bigInt.value)|
    ensures out == Spelled(kmer.bigInt.value, k)
  {
    var v := kmer.bigInt.value;
    var bits := Bits(v);
    var letters := new char[k];
    for i := 0 to k
      invariant forall q :: 0 <= q < i ==> letters[k - 1 - q] == LetterOf(Field(v, q))
    {
      var wordIndex := i / 32;
      var shiftDist := (i - wordIndex * 32) * 2;
      var bitPair := And(Shr(bits[wordIndex], shiftDist), 3);
      AndThree(Shr(bits[wordIndex], shiftDist));
      FieldOfWords(bits, i);
      letters[k - i - 1] := LetterOf(bitPair);
    }
    out := letters[..];
  }

  /** "a" encodes to 0, whose normalised words are empty, so `Letters(1)` indexes past them. */
  lemma LettersOfZeroPanics()
    ensures AllDna("a") && LettersValue("a") == 0
    ensures Bits(LettersValue("a")) == [] && !((1 - 1) / 32 < |Bits(LettersValue("a"))|)
  {
  }

  /** `kmer.Letters(k)` reading words past the normalised ones as 0. */
  method LettersFixed(kmer: Kmer, k: nat) returns (out: seq<char>)
    requires kmer.bigInt.Some?
    ensures out == Spelled(kmer.bigInt.value, k)
  {
    var v := kmer.bigInt.value;
    var bits := Bits(v);
    var letters := new char[k];
    for i := 0 to k
      invariant forall q :: 0 <= q < i ==> letters[k - 1 - q] == LetterOf(Field(v, q))
    {
      var wordIndex := i / 32;
      var shiftDist := (i - wordIndex * 32) * 2;
      var word := if wordIndex < |bits| then bits[wordIndex] else 0;
      var bitPair := And(Shr(word, shiftDist), 3);
      AndThree(Shr(word, shiftDist));
      FieldOfWords(bits, i);
      if wordIndex >= |bits| {
        ShrOfZero(shiftDist);
      }
      letters[k - i - 1] := LetterOf(bitPair);
    }
    out := letters[..];
  }

  /** The package's own example: "acgt" is 27 and spells back, "acgtx" is refused at
    * its last letter. */
  lemma AcgtExample()
    ensures AllDna("acgt") && LettersValue("acgt") == 27
    ensures Spelled(27, 4) == "acgt"
    ensures !AllDna("acgtx") && FirstBadFromEnd("acgtx", 0)
  {
    assert "acgt"[..3] == "acg" && "acg"[..2] == "ac" && "ac"[..1] == "a" && "a"[..0] == "";
    SpelledLetters("acgt");
    assert !IsDna("acgtx"[4]);
  }
}
