/** Bytes, the errors the unpacker raises, and the reading semantics of a
    seekable byte stream (a file opened in binary mode). */
module Bytes {

  type byte = b: int | 0 <= b < 256

  /** The exceptions raised while unpacking, one per distinct failure. */
  datatype Error =
    | ShortHeader          // the entry count could not be read
    | ShortRecord          // a directory record is shorter than 80 bytes
    | Truncated            // NISLZSS: a token byte read at end of stream
    | SizeMismatch         // NISLZSS: header compressed size disagrees with the entry
    | OutOfBounds          // a write or window read outside the output buffer
    | EofAtLiteralLength   // LZ4: no token byte
    | EofAtLengthRead      // LZ4: end of stream inside a length extension
    | NotLiteralData       // LZ4: fewer literal bytes than announced
    | MatchLengthAtEof     // LZ4: last block announces a match
    | PrematureEof         // LZ4: only one offset byte
    | ZeroOffset           // LZ4: match offset 0
    | NegativeSeek         // the probe seeks before the start of the file
    | ZstdFailure          // the external zstd decompressor failed
    | NonAsciiName         // an entry name that does not decode as ASCII

  datatype Result<+T> = Ok(value: T) | Err(error: Error)

  datatype Option<+T> = None | Some(value: T)

  function Min(a: int, b: int): int { if a <= b then a else b }

  function Max(a: int, b: int): int { if a >= b then a else b }

  /** A zero-filled buffer, as `bytearray(n)` creates it. */
  function Zeros(n: nat): (z: seq<byte>)
    ensures |z| == n && forall i :: 0 <= i < n ==> z[i] == 0
  {
    seq(n, _ => 0)
  }

  /** The number of values `n` bytes can hold, `256` to the power `n`. */
  function Radix(n: nat): (r: nat)
    ensures r > 0
  {
    if n == 0 then 1 else 256 * Radix(n - 1)
  }

  /** `int.from_bytes(s, byteorder="little")`: any length, including a short
      read. The value stays below `256` to the power of the number of bytes. */
  function LittleEndian(s: seq<byte>): (r: nat)
    ensures r < Radix(|s|)
  {
    if |s| == 0 then 0 else s[0] + 256 * LittleEndian(s[1..])
  }

  /** `read(n)` at position `pos`: at most `n` bytes, fewer at end of stream,
      none at all when the position is at or past the end. The position then
      advances by the number of bytes returned. */
  function Read(data: seq<byte>, pos: nat, n: nat): (r: seq<byte>)
    ensures |r| <= n
    ensures pos + |r| <= |data| || r == []
    ensures r == data[Min(pos, |data|)..Min(pos, |data|) + |r|]
    ensures |r| == n || pos + |r| >= |data|
  {
    if pos >= |data| then [] else data[pos..Min(pos + n, |data|)]
  }

  /** Bytes appended after the end of a read do not change it. */
  lemma ReadExtend(data: seq<byte>, extra: seq<byte>, pos: nat, n: nat)
    requires pos + n <= |data|
    ensures Read(data + extra, pos, n) == Read(data, pos, n)
  {
    assert (data + extra)[pos..pos + n] == data[pos..pos + n];
  }

  /** The four little-endian bytes of an unsigned 32-bit value. */
  function U32Bytes(v: nat): (r: seq<byte>)
    requires v < 0x1_0000_0000
    ensures |r| == 4
  {
    [v % 256, (v / 256) % 256, (v / 65536) % 256, v / 16777216]
  }

  /** Reading back the four bytes of a 32-bit value gives the value. */
  lemma {:induction false} U32RoundTrip(v: nat)
    requires v < 0x1_0000_0000
    ensures LittleEndian(U32Bytes(v)) == v
  {
    var r := U32Bytes(v);
    var a := v / 256;
    var b := a / 256;
    var c := b / 256;
    ByteQuotient(v, 65536, b, 256 * (a % 256) + v % 256);
    ByteQuotient(v, 16777216, c, 65536 * (b % 256) + 256 * (a % 256) + v % 256);
    assert r == [v % 256, a % 256, b % 256, c];
    assert r[1..][1..][1..][1..] == [];
    assert LittleEndian(r[1..][1..][1..]) == c;
    assert LittleEndian(r[1..][1..]) == b;
    assert LittleEndian(r[1..]) == a;
  }

  /** Division by a power of 256 recovers the quotient of a decomposition. */
  lemma ByteQuotient(v: nat, d: nat, q: nat, rest: nat)
    requires d == 65536 || d == 16777216
    requires v == d * q + rest && rest < d
    ensures v / d == q
  {
  }
}
