# gortex core in Dafny

This project models the parts of the Go repository gortex that read the Cortex de Bruijn graph binary format. It then proves what that code promises. There are three pieces.

- **Header readers.**
  - `CortexVarBinary.readHeader` (cortex/cortex.go) is modelled as the class `CortexBinary.CortexVarBinary` over a byte stream `ByteReader.Reader`.
  - The older `ReadHeader` (gortex.go) is modelled as the method `GortexReader.ReadHeader`.
  - Each is proved against a reference parser built from cells: `CortexFormat.ParseHeader` and `GortexFormat.ParseHeader`.
  - Go's `binary.Read` ignores short reads. The model follows that exactly: the target keeps its value, the stream moves to its end, and the loops go on.
  - For cortex.go, the reference parser also has an encoder. Parsing an encoded header gives it back.
- **Packed k-mers.**
  - Layout: 2 bits per base, 32 bases per `uint64`, and base 0 (the last letter) in the low bits of word 0.
  - `nucleotides`, `reverse_nucleotides` and `allEdges` are modelled in `CortexKmer`. `LeftKmers` and `RightKmers` are in `CortexNeighbours`. `simpleKmer.nucs` is in `SimpleKmer`.
  - All of these are proved against `TwoBitWords.Decode` and a reference encoder `TwoBitWords.Encode`, whose round trips are proved.
- **Big-integer k-mers.**
  - `lettersToBigInt`, `stringToBigInt`, `NewKmerFromString` and `Letters` (colouredKmer/kmer.go) are modelled in `ColouredKmer`.
  - `NewKmerFromSequence` and `Cmp` (cortex/cortex.go) are modelled in `KmerBits`.
  - A `big.Int` is a `nat`; `big.Word` is 64 bits.

Go's integer semantics are written out in `GoInts`:
- uint32 and uint64 subtraction and doubling wrap around.
- `x << n` and `x >> n` give 0 once `n` reaches the width.
- `Field(w, j)` is the two-bit field `w >> 2j & 3`.

`u8`, `u32` and `u64` are subset types of `nat`.

## Model

| member | source | states |
|---|---|---|
| ByteReader.Reader.ReadBytes | cortex/cortex.go:38-40 | `binary.Read` of n bytes: the next n bytes and the position after them, or, when fewer remain, the prior value unchanged and the position at the end of the data |
| ByteReader.Reader.ReadU8 | cortex/cortex.go:38-40 | `binary.Read` of one byte, as both readers use it for name bytes and flag bytes: the next byte and the position after it, or the prior value and the position at the end |
| ByteReader.Reader.ReadU32 | cortex/cortex.go:38-40 | a little-endian uint32 read: the value of the 4 bytes and the position 4 on, or the prior value and the position at the end |
| ByteReader.Reader.ReadU64 | cortex/cortex.go:38-40 | the same for 8 bytes |
| ByteReader.U32RoundTrip | cortex/cortex.go:38-40 | the 4 little-endian bytes of a uint32 decode back to it, and every 4 bytes are the encoding of what they decode to |
| ByteReader.U64RoundTrip | cortex/cortex.go:38-40 | the same for 8 bytes |
| ByteReader.LeValueOfBytes | cortex/cortex.go:38-40 | decoding the n-byte little-endian encoding of a value below 256^n gives the value |
| ByteReader.LeBytesOfValue | cortex/cortex.go:38-40 | encoding the value of a byte run at its length gives the run |
| CortexFormat.MagicAtIff | cortex/cortex.go:132-141 | the sentinel reads iff the next six bytes are "CORTEX"; it then moves 6 bytes; it is truncated iff fewer than 6 remain |
| CortexFormat.TopCellSpec | cortex/cortex.go:47-50 | the fixed block reads iff 16 bytes remain; its fields are the four little-endian uint32 at offsets 0, 4, 8 and 12 |
| CortexFormat.NameCellSpec | cortex/cortex.go:61-84 | a declared length above 10000 fails exactly when the 4 length bytes are there and exceed 10000; a read name is the declared byte run with zero bytes dropped, at most 10000 bytes long and with no zero byte |
| CortexFormat.NoZerosMembers | cortex/cortex.go:75-81 | dropping zero bytes never lengthens a name and keeps exactly its non-zero bytes |
| CortexFormat.CleaningCellSpec | cortex/cortex.go:94-123 | a cleaning record never fails on a flag byte: it reads iff 12 bytes and a name remain; each flag is true iff its byte is exactly 1; the thresholds are the little-endian uint32 at offsets 4 and 8 |
| CortexFormat.AssembleAt | cortex/cortex.go:51-123 | colour j of the header takes entry j of every column and every cleaning record |
| CortexFormat.ParsedHeaderShape | cortex/cortex.go:42-130 | a header that parses has exactly ColourCount colours, every name and cleaning-graph name has no zero byte and at most 10000 bytes, and "CORTEX" is at both ends |
| CortexFormat.NoHeaderWithoutMagic | cortex/cortex.go:43-45 | without "CORTEX" at the start there is no header: the result is the sentinel error or a truncation |
| CortexFormat.ParseEncodedHeader | cortex/cortex.go:42-130 | the parser reads an encoded valid header back exactly, ending just past it, whatever bytes surround it |
| CortexFormat.ColoursRead | cortex/cortex.go:51-127 | the five encoded columns and the closing sentinel read back into the colours they came from |
| CortexFormat.NameEncoded | cortex/cortex.go:61-84 | a length-prefixed name without zero bytes, of at most 10000 bytes, reads back as itself |
| CortexFormat.CleaningEncoded | cortex/cortex.go:94-123 | an encoded cleaning record reads back as itself |
| CortexFormat.ColumnEncoded | cortex/cortex.go:53-90 | a column of encoded values, each reading back where it lies, reads back as the whole column |
| CortexBinary.ErrorOf | cortex/cortex.go:43-45 | the reason a header fails maps to the name-length error iff it was a name above 10000; every other failure, truncation included, is the sentinel error |
| CortexBinary.CortexVarBinary.HasMagicString | cortex/cortex.go:132-141 | true iff six bytes remain and they are "CORTEX", the same as the reference sentinel cell; the stream moves 6 bytes or to its end |
| CortexBinary.CortexVarBinary.ReadTop | cortex/cortex.go:47-50 | the four fields are the reference fixed block and the stream is past it; a short read leaves the stream at the end |
| CortexBinary.CortexVarBinary.ReadMeanReadLengths | cortex/cortex.go:53-55 | each colour's mean read length is set from the reference column and nothing else changes; or the stream ends |
| CortexBinary.CortexVarBinary.ReadTotalSequenceLengths | cortex/cortex.go:57-59 | the same for the total sequence lengths |
| CortexBinary.CortexVarBinary.ReadName | cortex/cortex.go:63-83 | it fails iff the reference name cell fails on a length above 10000, and then stops right after the 4 length bytes, before any name byte; otherwise it returns the reference name and the position after it, or the stream is at its end |
| CortexBinary.CortexVarBinary.ReadNames | cortex/cortex.go:61-84 | it stops iff the reference names column has a length above 10000; otherwise the colours' names are that column's |
| CortexBinary.CortexVarBinary.ReadErrorRates | cortex/cortex.go:88-90 | each colour's 16-byte error rate is set from the reference column |
| CortexBinary.CortexVarBinary.ReadCleaningFields | cortex/cortex.go:95-105 | with 12 bytes left, each flag is whether its byte is exactly 1 and the thresholds are the little-endian values; otherwise the stream ends |
| CortexBinary.CortexVarBinary.ReadCleaning | cortex/cortex.go:94-122 | it fails iff the reference record fails on a name above 10000; otherwise colour i alone takes the record and the stream is past it, or the stream is at its end |
| CortexBinary.CortexVarBinary.ReadCleanings | cortex/cortex.go:92-123 | it stops iff the reference records column has a name above 10000; otherwise the colours take that column's records |
| CortexBinary.CortexVarBinary.ReadRows | cortex/cortex.go:88-127 | from the error rates to the closing sentinel, the fields are the reference parser's colours or its error |
| CortexBinary.CortexVarBinary.ReadColours | cortex/cortex.go:51-127 | from the columns to the closing sentinel, the fields are the reference parser's colours or its error |
| CortexBinary.CortexVarBinary.ReadHeader | cortex/cortex.go:42-130 | when the reference parser reads a header, no error, every field equal to it and the stream just past it; otherwise the error of the reason it stopped |
| CortexBinary.CortexVarBinary.KmerNucleotides | cortex/cortex.go:143-146 | exactly KmerSize letters, the k-mer's reference decoding at the file's k-mer size: letter p is base KmerSize-1-p read as A/C/G/T |
| CortexBinary.CortexVarBinary.KmerNucleotidesReverse | cortex/cortex.go:148-151 | exactly KmerSize letters, the reverse of that decoding |
| TwoBitWords.Code | cortex/cortex.go:206-215 | the code of a base letter is below 4 and its letter is that letter again |
| TwoBitWords.CodeOfLetter | cortex/cortex.go:206-215 | the code of the letter of a code is that code: 0/1/2/3 and A/C/G/T correspond one to one |
| TwoBitWords.BaseAtPack | cortex/cortex.go:200-218 | base i of codes packed 32 to a word is code i, and 0 past the last |
| TwoBitWords.BaseAtEncode | cortex/cortex.go:200-218 | base i of an encoded text is the code of the letter i places from its end |
| TwoBitWords.EncodeWellFormed | cortex/cortex.go:200-218 | the encoding of k letters has exactly the words k bases need and nothing above base k-1 |
| TwoBitWords.DecodeEncode | cortex/cortex.go:200-218 | decoding the encoding of a text of A/C/G/T gives the text |
| TwoBitWords.EncodeDecode | cortex/cortex.go:200-218 | encoding the decoded text of well-formed words gives the same words |
| TwoBitWords.DecodedBases | cortex/cortex.go:206-215 | every decoded letter is A, C, G or T |
| CortexKmer.MaskedCode | cortex/cortex.go:203-206 | `uint64(3 << 2j) & w >> (j*2)` is the two-bit field j of w |
| CortexKmer.Nucleotides | cortex/cortex.go:200-218 | exactly k letters, the reference decoding: letter p is base k-1-p, field (k-1-p)%32 of word (k-1-p)/32, with 0/1/2/3 as A/C/G/T |
| CortexKmer.ReverseNucleotides | cortex/cortex.go:220-238 | exactly k letters, the character-reverse of `nucleotides(k)` |
| CortexKmer.ReversedDecode | cortex/cortex.go:220-238 | letter p of the reversed decoding is base p |
| CortexKmer.NucleotidesOfEncoded | cortex/cortex.go:200-238 | decoding an encoded text gives the text, and its reverse the reversed text |
| CortexKmer.AllEdges | cortex/cortex.go:240-246 | the OR of every colour's edge byte, 0 when there are none |
| CortexKmer.BitOfEdgeUnion | cortex/cortex.go:240-246 | a bit is set in the union iff some colour's edge byte has it |
| CortexNeighbours.LeftBasesAre | cortex/cortex.go:261-270 | a base is among the left bases iff bit 4+base of the edges is set; they come in the order A, C, G, T |
| CortexNeighbours.NoLeftBase | cortex/cortex.go:269-270 | with no left base, bits 4..7 are all clear |
| CortexNeighbours.RightBasesAre | cortex/cortex.go:297-307 | a base is among the right bases iff bit 3-base is set; they come in the order T, G, C, A |
| CortexNeighbours.AddEdgeBases | cortex/cortex.go:268-276 | one k-mer per chosen base, in order, each a fresh copy of the shifted words with the base ORed into word `at` by the given shift, with no bits, coverages or edges |
| CortexNeighbours.ShiftRightWords | cortex/cortex.go:249-258 | the loop from the top word down with the carry `mem` gives every word shifted right 2 bits with the low base of the word above in its top bits |
| CortexNeighbours.BaseAtShiftedRight | cortex/cortex.go:252-258 | after the right shift, base i is the old base i+1, and the top base is A |
| CortexNeighbours.BaseAtPlaced | cortex/cortex.go:273 | ORing a code into field m of a word changes exactly that base |
| CortexNeighbours.PlacedNothing | cortex/cortex.go:273 | a shift of 64 or more places nothing |
| CortexNeighbours.LeftKmers | cortex/cortex.go:248-278 | the k-mers are the right-shifted words with each incoming base ORed in at `(k%32-1)*2` in uint32 arithmetic, one per set bit 4..7 in the order A, C, G, T; the input is a value and stays unchanged |
| CortexNeighbours.LeftShiftAsWritten | cortex/cortex.go:273 | the shift is 2·((k-1)%32) unless k%32 is 0, when it wraps to 64 or more |
| CortexNeighbours.LeftNeighbourAsWritten | cortex/cortex.go:273 | the left neighbour equals the corrected one when k%32 is not 0, and is only the shifted words otherwise |
| CortexNeighbours.BaseAtLeftNeighbourFixed | cortex/cortex.go:252-273 | in the corrected left neighbour, base k-1 is the new base, base i below it is the old base i+1, and the rest is 0 |
| CortexNeighbours.LeftNeighbourFixedDecodes | cortex/cortex.go:248-278 | the corrected left neighbour is well-formed and decodes to the new letter followed by the first k-1 letters, for every k ≥ 1 |
| CortexNeighbours.LeftNeighbourDecodes | cortex/cortex.go:248-278 | the source's left neighbour decodes to the new letter followed by the first k-1 letters whenever k%32 is not 0 |
| CortexNeighbours.LeftNeighbourDropsBase | cortex/cortex.go:273 | when k%32 is 0, every left neighbour starts with A whatever base the edge names |
| CortexNeighbours.ShiftLeftWords | cortex/cortex.go:281-290 | the loop from word 0 up with the carry `mem` gives every word shifted left 2 bits with the top base of the word below in its low bits |
| CortexNeighbours.BaseAtShiftedLeft | cortex/cortex.go:284-290 | after the left shift, base i is the old base i-1, and base 0 is A |
| CortexNeighbours.RightMaskIs | cortex/cortex.go:294 | `1<<(2m) - 1` in uint64 is 4^m - 1 for m up to 32 |
| CortexNeighbours.BaseAtMaskedTop | cortex/cortex.go:294 | the mask of m bases keeps the bases of the top word below m and clears the rest, leaving the other words alone |
| CortexNeighbours.RightKmers | cortex/cortex.go:280-316 | the k-mers are the left-shifted words with the top word masked by `1<<((k%32)*2) - 1` and each outgoing base ORed into word 0, one per set bit 0..3 in the order T, G, C, A; the input is a value and stays unchanged |
| CortexNeighbours.RightMaskAsWritten | cortex/cortex.go:294 | the mask is the corrected one unless k%32 is 0, when it is 0 |
| CortexNeighbours.BaseAtRightNeighbourFixed | cortex/cortex.go:284-310 | in the corrected right neighbour, base 0 is the new base, base i below k is the old base i-1, and the rest is 0 |
| CortexNeighbours.RightNeighbourFixedDecodes | cortex/cortex.go:280-316 | the corrected right neighbour is well-formed and decodes to the last k-1 letters followed by the new letter, for every k ≥ 1 |
| CortexNeighbours.RightNeighbourDecodes | cortex/cortex.go:280-316 | the source's right neighbour decodes to the last k-1 letters followed by the new letter whenever k%32 is not 0 |
| CortexNeighbours.RightNeighbourClearsTopWord | cortex/cortex.go:294 | when k%32 is 0, every base of the top word except base 0 is cleared |
| CortexNeighbours.RightNeighbourLosesBases | cortex/cortex.go:294 | k = 32 and 32 T's: the right neighbour with base A decodes with A as its first letter, where a T belongs |
| KmerBits.SeqCode | cortex/cortex.go:171-181 | the code of a character is below 4, and for A/C/G/T it is the code of that base |
| KmerBits.PackBase | cortex/cortex.go:171-181 | the switch ORs the character's code into the byte at pair i%4 from the top; any other character leaves the byte as it was |
| KmerBits.NewKmerFromSequence | cortex/cortex.go:166-190 | the k-mer's integer is the big-endian value of the packed bytes: the characters as base-4 digits, the first most significant, followed by Padding(n) zero digits; it has no words, coverages or edges |
| KmerBits.FieldOfSequenceBits | cortex/cortex.go:166-190 | digit n of the value is the code of character n - Padding places from the end inside the run of characters, and 0 outside it |
| KmerBits.ByteLayout | cortex/cortex.go:170-187 | character p sits in byte p/4 at pair p%4 from the top; the value fits |n|/4+1 bytes; and the last byte is zero when the length is a multiple of 4 |
| KmerBits.OthersPackAsA | cortex/cortex.go:171-181 | any character other than C, G and T, lower-case a/c/g/t and N included, has code 0 and, at any position of any sequence, gives the value an A there gives |
| KmerBits.SequenceBitsOrder | cortex/cortex.go:166-190 | of two sequences of one length, the one with the smaller code where they first differ has the smaller value |
| KmerBits.SequenceBitsInjective | cortex/cortex.go:166-190 | over A/C/G/T, two sequences of one length have the same value iff they are equal |
| KmerBits.Cmp | cortex/cortex.go:192-194 | the result is -1, 0 or 1 |
| KmerBits.CmpSwap | cortex/cortex.go:192-194 | swapping the operands negates the result, which is 0 iff the integers are equal |
| KmerBits.CmpSequences | cortex/cortex.go:192-194 | the order is reversed: packed `s` compared with `t` is 1 when `s` comes first and -1 when `t` does, and over A/C/G/T it is 0 iff they are equal |
| SimpleKmer.MaskOf | gortex.go:47 | `3 << 2m` is 3·4^m |
| SimpleKmer.NucsStep | gortex.go:48-59 | each turn of the loop reads a code below 4 whose letter is the decoding's letter i, and the mask moves down one base |
| SimpleKmer.Nucs | gortex.go:45-62 | exactly k letters: for k ≤ 32 the reference decoding of the one word, letter i from bits 2(k-1-i); for k above 32 all A's, because the mask `3 << 2(k-1)` has shifted out of the word |
| SimpleKmer.NucsOfEncoded | gortex.go:45-62 | for at most 32 bases, the single-word decoding reads back the text the reference encoder packed |
| GortexFormat.GraphNameCell | gortex.go:145-151 | a read cleaning-graph name is exactly the buffer's length |
| GortexFormat.AssembleAt | gortex.go:68-152 | colour j takes entry j of every column and cleaning record |
| GortexFormat.ParsedHeaderShape | gortex.go:64-159 | a header that reads has exactly ColourCount colours, keeps the leading six bytes as its magic characters, and every cleaning-graph name is as long as the last colour name |
| GortexFormat.GraphNameLengths | gortex.go:145-151 | every cleaning-graph name in a column of records that reads is exactly the buffer's length |
| GortexFormat.RowCellFailures | gortex.go:101-151 | a cleaning record only fails by truncation, by a flag byte other than 0 or 1, or by a name too long for the buffer |
| GortexFormat.HeaderFailures | gortex.go:64-159 | a header only fails for those reasons: no sentinel, name length or trailer is checked |
| GortexFormat.TopAgrees | gortex.go:66 | the fixed block stores the leading six bytes as they are and does not look at them |
| GortexFormat.RowsAgree | gortex.go:90-152 | past the fixed block, two inputs that agree read the same colours |
| GortexFormat.AnyMagic | gortex.go:64-159 | two inputs that differ only in their first six bytes read alike, each header keeping its own six bytes |
| GortexFormat.RowAsWritten | gortex.go:145-151 | an encoded record whose graph name is longer than the last colour name panics with an index out of range; a shorter one reads back padded with zero bytes to that length |
| GortexFormat.RowFixedRoundTrip | gortex.go:145-151 | with the buffer sized by the declared length, every encoded record reads back as it was |
| GortexFormat.RowFixedAgrees | gortex.go:145-151 | where the declared length equals the buffer's, the code as written reads what the corrected reader reads |
| GortexReader.ReadTop | gortex.go:66 | the fixed block as the reference parser reads it, or a blank top with the stream at its end |
| GortexReader.ReadMeanReadLengths | gortex.go:70-72 | each colour's mean read length is set from the reference column; or the stream ends |
| GortexReader.ReadTotalSequenceLengths | gortex.go:74-76 | the same for the total sequence lengths |
| GortexReader.ReadName | gortex.go:81-87 | the name of the declared length, zero bytes included, and the new length variable; or the stream ends |
| GortexReader.ReadNames | gortex.go:78-88 | the colours' names are the reference column's, and the length variable holds the last name's length |
| GortexReader.SkipErrorRates | gortex.go:90-95 | 16 bytes per colour are consumed and the colours are unchanged |
| GortexReader.ReadFlag | gortex.go:103-111 | byte 1 is true and 0 is false; any other byte panics; a short read keeps the previous byte |
| GortexReader.ReadFlags | gortex.go:103-141 | the four flags as the reference cell reads them, or the panic of the first flag byte that is neither 0 nor 1 |
| GortexReader.ReadGraphName | gortex.go:145-151 | it panics iff the reference name cell overflows the buffer; otherwise it returns that name padded to the buffer, or the stream ends |
| GortexReader.RowRead | gortex.go:143-151 | after the flags, the two thresholds and the graph name read in turn give the reference record, or its truncation or overflow |
| GortexReader.ReadRow | gortex.go:102-152 | one colour's record: the reference record set into the colour and the position after it, or the panic, or the stream at its end |
| GortexReader.ReadRows | gortex.go:97-153 | the colours take the reference records column, or it returns the first panic, which is the column's failure |
| GortexReader.ReadHeader | gortex.go:64-159 | when the reference parser reads a header, that header with the stream just past it; its panic when it stops at a flag or an oversized graph name; otherwise a header with one colour per counted colour and the stream at its end |
| ColouredKmer.LetterOf | colouredKmer/kmer.go:38 | the letter of an index is a DNA letter whose index is that index |
| ColouredKmer.LettersValue | colouredKmer/kmer.go:45-59 | the value of n letters is below 4^n |
| ColouredKmer.Bits | colouredKmer/kmer.go:32 | the words of a value have that value, and the top word is not zero |
| ColouredKmer.FieldOfWords | colouredKmer/kmer.go:35-37 | base i of a value is field i%32 of its word i/32, and 0 past its last word |
| ColouredKmer.FieldOfLetters | colouredKmer/kmer.go:48-56 | digit n of a text's value is the index of its letter n places from the end |
| ColouredKmer.SuffixValueIs | colouredKmer/kmer.go:48-58 | the value the loop builds from the last n letters is the value of that suffix as a text |
| ColouredKmer.PlacedValue | colouredKmer/kmer.go:55-56 | putting code c into field i%32 of word i/32, on top of what that word holds, adds c·4^i to the words' value |
| ColouredKmer.OrInto | colouredKmer/kmer.go:53-56 | `words[wordIndex] \|= index << shiftDist` changes only that word, adds index·4^i to the value, and the words hold letters 0..i |
| ColouredKmer.PackFromEnd | colouredKmer/kmer.go:46-58 | for a buffer of any size: the value of the text iff every letter is a/c/g/t and fits; else the error at the first bad letter from the end with value 0, or an index panic iff more letters from the end are DNA than the buffer holds |
| ColouredKmer.LettersToBigInt | colouredKmer/kmer.go:45-59 | the same outcome with the source's buffer of len/33+1 words |
| ColouredKmer.BufferTooShort | colouredKmer/kmer.go:47 | 65 a's, the shortest text that overflows: all 65 are DNA, more than the 2 words of len/33+1 hold, so the source's loop writes past its buffer |
| ColouredKmer.WhenBufferTooShort | colouredKmer/kmer.go:47-57 | for a text of a/c/g/t the source's buffer overflows iff its len/33+1 words hold fewer than len letters; up to 96 letters that is only at 65 |
| ColouredKmer.LettersToBigIntFixed | colouredKmer/kmer.go:45-59 | with len/32+1 words it never panics and encodes iff every letter is a/c/g/t |
| ColouredKmer.StringToBigInt | colouredKmer/kmer.go:61-63 | no error iff every letter is a/c/g/t, and then the text's value; otherwise value 0 and the position of the first bad letter from the end |
| ColouredKmer.NewKmerFromString | colouredKmer/kmer.go:20-28 | the k-mer's integer is the text's value iff there is no error; on an error the integer is left unset; no coverages or edges |
| ColouredKmer.Letters | colouredKmer/kmer.go:30-41 | exactly k letters, letter k-1-i from field i%32 of word i/32 of `Bits()`, which must reach letter k-1 |
| ColouredKmer.LettersOfZeroPanics | colouredKmer/kmer.go:32-37 | "a" encodes to 0, whose `Bits()` is empty, so `Letters(1)` indexes past it |
| ColouredKmer.LettersFixed | colouredKmer/kmer.go:30-41 | reading words past `Bits()` as 0, the k letters spell the value for every k |
| ColouredKmer.SpelledLetters | colouredKmer/kmer.go:30-59 | spelling the value of a DNA text at its length gives the text back |
| ColouredKmer.LettersSpelled | colouredKmer/kmer.go:30-59 | the spelling of a value below 4^k is DNA, and its value is that value |
| ColouredKmer.LettersValueInjective | colouredKmer/kmer.go:45-59 | two DNA texts of one length have the same value iff they are equal |
| ColouredKmer.AcgtExample | colouredKmer/kmer_test.go:22-46 | "acgt" is 27 and spells back to "acgt"; "acgtx" is refused at its last letter |

## Left out

- Opening files is left out: `Open`, `os.Open`, `bufio`, `Seek` and `Close` (cortex/cortex.go:326-352), and `main` and `CortexHeader.String` (gortex.go:161-182). The stream is a byte sequence handed to `ByteReader.Reader`.
- `Kmer.Nucleotides` (cortex/cortex.go:196-198) returns a constant and is not modelled.
- The error rates of gortex.go are read into a `float64` and dropped. The model consumes their 16 bytes without interpreting them. cortex.go stores them as 16 opaque bytes.
- `math/big` is a value: `Kmer.bits` is `Option<nat>` and `Bits()` is the shortest little-endian word sequence. `SetBytes` is the big-endian value of the bytes.
- The biogo `alphabet.DNA` is the fixed table a/c/g/t → 0..3, everything else → -1, and back. The library's case handling is not part of this model.
- `NewKmerFromSequence` ranges over the runes of a Go string, with `i` the byte index. The model takes a sequence of characters and uses their positions, which is the same for ASCII input only.
- CortexKmer.Nucleotides: requires every word index it reads to exist. Go panics on a shorter `BinaryKmer`, and that panic is not modelled.
- CortexNeighbours.LeftKmers: requires a word when some incoming edge is set. Go panics at index -1 there, and that panic is not modelled.
- CortexNeighbours.RightKmers: requires at least one word. Go masks word `wordCount-1` unconditionally and panics there; that panic is not modelled.
- ColouredKmer.Letters: requires `Bits()` to reach letter k-1. Go panics otherwise (see Findings), and the model does not capture that panic. It also requires the integer to be set; Go's nil `*big.Int` is not modelled.
- KmerBits.Cmp: requires both integers to be set, since a nil integer panics in Go.
- SimpleKmer.Nucs: `k` is a uint32. Go's `uint` is 64-bit, and larger `k` is not modelled.
- ColouredKmer.StringToBigInt: built on the corrected buffer `LettersToBigIntFixed`. With the source's buffer, a text of a/c/g/t panics instead whenever len/33+1 words hold fewer than len letters: at 65, 97-98, 129-131, ... letters (Findings).
- ColouredKmer.NewKmerFromString: built on `StringToBigInt` above, for the same reason.
- After an error, the cortex.go reader's fields are unspecified. The same holds after a short read in gortex.go: the header that `GortexReader.ReadHeader` then returns is pinned down only in having one colour per counted colour (a blank header when the fixed block is short). The Go code leaves whatever the short reads left behind.

## Findings

| source | as written | input that shows it | evidently intended | confidence | as-written member | corrected member |
|---|---|---|---|---|---|---|
| cortex/cortex.go:273 | `bits<<((k%32-1)*2)` in uint32 arithmetic; when k%32 is 0 the shift wraps to over 64 and places nothing | k = 32, a k-mer with an incoming C edge: the neighbour starts with A | shift 2·((k-1)%32), which places the base at letter 0 for every k | not executed | CortexNeighbours.LeftNeighbourDropsBase | CortexNeighbours.LeftNeighbourFixedDecodes |
| cortex/cortex.go:294 | mask `1<<((k%32)*2) - 1` is 0 when k%32 is 0 and clears the whole top word | k = 32, 32 T's, outgoing edge A: the neighbour decodes with A first instead of 31 T's then A | keep the (k-1)%32+1 bases of the top word | not executed | CortexNeighbours.RightNeighbourLosesBases | CortexNeighbours.RightNeighbourFixedDecodes |
| gortex.go:147 | the cleaning-graph name buffer is sized by the last colour name's length, not by the declared cleaning-graph name length | a graph name longer than the last colour name panics; a shorter one comes back padded with zeros | `make([]byte, cleaningGraphNameLength)` | not executed | GortexFormat.RowAsWritten | GortexFormat.RowFixedRoundTrip |
| colouredKmer/kmer.go:47 | `len(seq)/33+1` words hold 32·(len/33+1) letters, fewer than len at 65, 97-98, 129-131, ... letters (exactly when len > 32·(len/33+1)) | 65 a's: letter 64 goes to word 2 of a 2-word buffer | `len(seq)/32+1` words | not executed | ColouredKmer.BufferTooShort | ColouredKmer.LettersToBigIntFixed |
| colouredKmer/kmer.go:32-37 | `Letters` indexes `Bits()`, which drops leading zero words, so a k-mer whose first letters are a's has fewer words than k needs | "a" encodes to 0, `Bits()` is empty, and `Letters(1)` indexes word 0 | read missing words as 0 | not executed | ColouredKmer.LettersOfZeroPanics | ColouredKmer.LettersFixed |

The methods `LeftKmers`, `RightKmers`, `LettersToBigInt`, `Letters` and `GortexReader.ReadHeader` model the code as written. The corrected definitions carry the intended properties. `StringToBigInt` and `NewKmerFromString` are built on the corrected encoder.
