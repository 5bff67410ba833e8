/// A little-endian byte stream read the way Go's `binary.Read` reads it.
///
/// `binary.Read` fills a fixed-size value from `io.ReadFull`: when enough bytes remain
/// it decodes them little-endian and moves past them; when they do not, it consumes
/// what is left, reports an error and leaves the target value as it was.  `Reader`
/// models that stream with the whole input as `data` and a cursor `pos`; every read
/// takes the target's current value (`prior`) and returns it unchanged on a short read,
/// together with the `ok` flag that stands for the error Go returns.
///
/// `U32At`, `U64At` and `BytesAt` are the same reads as pure functions on a position,
/// which the header formats are specified with.
module ByteReader {
  import opened GoInts

  function Pow256(n: nat): (r: nat)
    ensures r >= 1
  {
    if n == 0 then 1 else 256 * Pow256(n - 1)
  }

  /** The little-endian value of a byte run: the first byte is the least significant. */
  function LeValue(b: seq<u8>): (r: nat)
    ensures r < Pow256(|b|)
  {
    if |b| == 0 then 0 else b[0] + 256 * LeValue(b[1..])
  }

  /** The `n`-byte little-endian encoding of `x`, the reference encoder. */
  function LeBytes(x: nat, n: nat): (b: seq<u8>)
    ensures |b| == n
  {
    if n == 0 then [] else [x % 256] + LeBytes(x / 256, n - 1)
  }

  lemma {:induction false} LeValueOfBytes(x: nat, n: nat)
    requires x < Pow256(n)
    ensures LeValue(LeBytes(x, n)) == x
  {
    if n > 0 {
      LeValueOfBytes(x / 256, n - 1);
      assert LeBytes(x, n)[1..] == LeBytes(x / 256, n - 1);
    }
  }

  lemma {:induction false} LeBytesOfValue(b: seq<u8>)
    ensures LeBytes(LeValue(b), |b|) == b
  {
    if |b| > 0 {
      var t := LeValue(b[1..]);
      assert (b[0] + 256 * t) % 256 == b[0] && (b[0] + 256 * t) / 256 == t;
      LeBytesOfValue(b[1..]);
    }
  }

  lemma Pow256Widths()
    ensures Pow256(4) == TwoTo32 && Pow256(8) == TwoTo64
  {
  }

  function U32Of(b: seq<u8>): (v: u32)
    requires |b| == 4
  {
    Pow256Widths();
    LeValue(b)
  }

  function U64Of(b: seq<u8>): (v: u64)
    requires |b| == 8
  {
    Pow256Widths();
    LeValue(b)
  }

  /** The four little-endian bytes of a uint32 decode back to it, and conversely. */
  lemma U32RoundTrip(x: u32, b: seq<u8>)
    requires |b| == 4
    ensures |LeBytes(x, 4)| == 4 && U32Of(LeBytes(x, 4)) == x
    ensures LeBytes(U32Of(b), 4) == b
  {
    Pow256Widths();
    LeValueOfBytes(x, 4);
    LeBytesOfValue(b);
  }

  lemma U64RoundTrip(x: u64, b: seq<u8>)
    requires |b| == 8
    ensures |LeBytes(x, 8)| == 8 && U64Of(LeBytes(x, 8)) == x
    ensures LeBytes(U64Of(b), 8) == b
  {
    Pow256Widths();
    LeValueOfBytes(x, 8);
    LeBytesOfValue(b);
  }

  // ---------------------------------------------------------------------------
  // Reads as functions of a position

  /** The `n` bytes at `pos`, or None when fewer remain. */
  function BytesAt(data: seq<u8>, pos: nat, n: nat): (r: Option<seq<u8>>)
    ensures r.Some? <==> pos + n <= |data|
    ensures r.Some? ==> |r.value| == n
  {
    if pos + n <= |data| then Some(data[pos..pos + n]) else None
  }

  function U32At(data: seq<u8>, pos: nat): Option<u32>
  {
    match BytesAt(data, pos, 4)
    case None => None
    case Some(b) => Some(U32Of(b))
  }

  function U64At(data: seq<u8>, pos: nat): Option<u64>
  {
    match BytesAt(data, pos, 8)
    case None => None
    case Some(b) => Some(U64Of(b))
  }

  /** A value encoded at `pos` reads back, whatever surrounds it. */
  lemma U32AtEncoded(data: seq<u8>, pos: nat, x: u32)
    requires pos + 4 <= |data| && data[pos..pos + 4] == LeBytes(x, 4)
    ensures U32At(data, pos) == Some(x)
  {
    U32RoundTrip(x, data[pos..pos + 4]);
  }

  lemma U64AtEncoded(data: seq<u8>, pos: nat, x: u64)
    requires pos + 8 <= |data| && data[pos..pos + 8] == LeBytes(x, 8)
    ensures U64At(data, pos) == Some(x)
  {
    U64RoundTrip(x, data[pos..pos + 8]);
  }

  // ---------------------------------------------------------------------------
  // The stream

  class Reader {
    const data: seq<u8>
    var pos: nat

    ghost predicate Valid()
      reads this
    {
      pos <= |data|
    }

    constructor (data: seq<u8>)
      ensures this.data == data && pos == 0 && Valid()
    {
      this.data := data;
      pos := 0;
    }

    /** `binary.Read` into an `n`-byte array. */
    method ReadBytes(n: nat, prior: seq<u8>) returns (v: seq<u8>, ok: bool)
      requires Valid() && |prior| == n
      modifies this
      ensures Valid()
      ensures ok <==> old(pos) + n <= |data|
      ensures ok ==> v == data[old(pos)..old(pos) + n] && pos == old(pos) + n
      ensures !ok ==> v == prior && pos == |data|
      ensures BytesAt(data, old(pos), n) == if ok then Some(v) else None
    {
      if pos + n <= |data| {
        v, ok := data[pos..pos + n], true;
        pos := pos + n;
      } else {
        v, ok := prior, false;
        pos := |data|;
      }
    }

    /** `binary.Read` into a byte. */
    method ReadU8(prior: u8) returns (v: u8, ok: bool)
      requires Valid()
      modifies this
      ensures Valid()
      ensures ok <==> old(pos) + 1 <= |data|
      ensures ok ==> v == data[old(pos)] && pos == old(pos) + 1
      ensures !ok ==> v == prior && pos == |data|
    {
      if pos + 1 <= |data| {
        v, ok := data[pos], true;
        pos := pos + 1;
      } else {
        v, ok := prior, false;
        pos := |data|;
      }
    }

    /** `binary.Read` into a uint32, little-endian. */
    method ReadU32(prior: u32) returns (v: u32, ok: bool)
      requires Valid()
      modifies this
      ensures Valid()
      ensures U32At(data, old(pos)) == if ok then Some(v) else None
      ensures ok ==> pos == old(pos) + 4
      ensures !ok ==> v == prior && pos == |data|
    {
      var b;
      b, ok := ReadBytes(4, [0, 0, 0, 0]);
      v := if ok then U32Of(b) else prior;
    }

    /** `binary.Read` into a uint64, little-endian. */
    method ReadU64(prior: u64) returns (v: u64, ok: bool)
      requires Valid()
      modifies this
      ensures Valid()
      ensures U64At(data, old(pos)) == if ok then Some(v) else None
      ensures ok ==> pos == old(pos) + 8
      ensures !ok ==> v == prior && pos == |data|
    {
      var b;
      b, ok := ReadBytes(8, [0, 0, 0, 0, 0, 0, 0, 0]);
      v := if ok then U64Of(b) else prior;
    }
  }
}
