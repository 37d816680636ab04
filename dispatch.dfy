/** Codec selection for one directory entry (the `if`/`elif` chain of
    `unpack_pkg`): the payload start, the flag precedence, the probe that
    tells NISLZSS from the LZ4 variant when only flag 1 is set, and the
    decoder run. */
module Dispatch {
  import opened Bytes
  import opened Directory
  import Lz4
  import Nislzss

  /** The external zstd decompressor, given the compressed bytes and the
      maximum output size; `None` when the module is not installed. The
      decompressor answers `None` when it fails. */
  type Zstd = Option<(seq<byte>, nat) -> Option<seq<byte>>>

  /** The decoder the flags select, in the order the source tests them. */
  datatype Codec = Lz4Codec | ZstdCodec | ProbeCodec | RawCodec

  function SelectCodec(e: Entry): (c: Codec)
    ensures c == Lz4Codec <==> HasFlag(e, ForceLz4)
    ensures c == ZstdCodec <==> !HasFlag(e, ForceLz4) && (HasFlag(e, ZstdOrShared) || HasFlag(e, ZstdAlt))
    ensures c == ProbeCodec
        <==> HasFlag(e, HasLzPayload) && !HasFlag(e, ForceLz4) && !HasFlag(e, ZstdOrShared) && !HasFlag(e, ZstdAlt)
    ensures e.flags == 0 || e.flags == HasCrcPrefix ==> c == RawCodec
  {
    if HasFlag(e, ForceLz4) then Lz4Codec
    else if HasFlag(e, ZstdOrShared) || HasFlag(e, ZstdAlt) then ZstdCodec
    else if HasFlag(e, HasLzPayload) then ProbeCodec
    else RawCodec
  }

  /** The payload begins at the entry's offset, after the 4-byte checksum
      when flag 2 is set. */
  function PayloadStart(e: Entry): (pos: nat)
    ensures pos - e.offset == (if HasFlag(e, HasCrcPrefix) then 4 else 0)
  {
    if HasFlag(e, HasCrcPrefix) then e.offset + 4 else e.offset
  }

  /** The probe at the payload start `pos`: skip 4 bytes, read the 32-bit
      compressed size of a NISLZSS header, seek back 8. The entry is LZ4
      unless that size passes the NISLZSS header test; entries shorter than
      8 bytes are LZ4 without reading anything. The result is the verdict
      and the cursor after the seek back. */
  function Probe(data: seq<byte>, pos: nat, e: Entry): (r: Result<(bool, nat)>)
    ensures e.compressedSize < 8 ==> r == Ok((true, pos))
    ensures pos + 8 <= |data| ==> r.Ok? && r.value.1 == pos
    ensures r.Err? ==> r.error == NegativeSeek
  {
    if e.compressedSize < 8 then Ok((true, pos))
    else
      var field := Read(data, pos + 4, 4);
      var cms := LittleEndian(field);
      if pos + 4 + |field| < 8 then Err(NegativeSeek)
      else Ok((!Nislzss.HeaderSizesAgree(e.uncompressedSize, e.compressedSize, cms), pos + 4 + |field| - 8))
  }

  function Present(r: Result<seq<byte>>): Result<Option<seq<byte>>>
  {
    match r
    case Ok(out) => Ok(Some(out))
    case Err(x) => Err(x)
  }

  /** `uncompress_zstd`: the compressed bytes at the payload start, handed
      to the decompressor with the decompressed size as the output limit. */
  function DecodeZstd(data: seq<byte>, pos: nat, e: Entry, zstd: Zstd): (r: Result<Option<seq<byte>>>)
    ensures r == Ok(None) <==> zstd.None?
  {
    if zstd.None? then Ok(None)
    else match zstd.value(Read(data, pos, e.compressedSize), e.uncompressedSize)
      case None => Err(ZstdFailure)
      case Some(out) => Ok(Some(out))
  }

  /** Flag 1 alone: the probe, then the decoder it picks, run from the
      cursor the probe leaves. */
  function DecodeProbed(data: seq<byte>, pos: nat, e: Entry): (r: Result<seq<byte>>)
    ensures e.compressedSize < 8 ==> r == Lz4.Decode(data, pos, e.uncompressedSize, e.compressedSize)
    ensures e.compressedSize >= 8 && pos + 8 <= |data| ==>
      r == if Nislzss.HeaderSizesAgree(e.uncompressedSize, e.compressedSize, LittleEndian(data[pos + 4..pos + 8]))
           then Nislzss.Decode(data, pos, e.uncompressedSize, e.compressedSize)
           else Lz4.Decode(data, pos, e.uncompressedSize, e.compressedSize)
  {
    match Probe(data, pos, e)
    case Err(x) => Err(x)
    case Ok((isLz4, start)) =>
      if isLz4 then Lz4.Decode(data, start, e.uncompressedSize, e.compressedSize)
      else Nislzss.Decode(data, start, e.uncompressedSize, e.compressedSize)
  }

  /** The output of one entry that is not a placeholder; `Ok(None)` when
      the zstd module is missing and the entry is only reported. */
  function DecodeEntry(data: seq<byte>, e: Entry, zstd: Zstd): (r: Result<Option<seq<byte>>>)
    ensures r == Ok(None) <==> SelectCodec(e) == ZstdCodec && zstd.None?
    ensures SelectCodec(e) == Lz4Codec && r.Ok? ==> |r.value.value| == e.uncompressedSize
    ensures SelectCodec(e) == Lz4Codec ==>
              r == Present(Lz4.Decode(data, PayloadStart(e), e.uncompressedSize, e.compressedSize))
    ensures SelectCodec(e) == ProbeCodec ==> r == Present(DecodeProbed(data, PayloadStart(e), e))
    ensures SelectCodec(e) == ZstdCodec ==> r == DecodeZstd(data, PayloadStart(e), e, zstd)
  {
    var pos := PayloadStart(e);
    match SelectCodec(e)
    case Lz4Codec => Present(Lz4.Decode(data, pos, e.uncompressedSize, e.compressedSize))
    case ZstdCodec => DecodeZstd(data, pos, e, zstd)
    case ProbeCodec => Present(DecodeProbed(data, pos, e))
    case RawCodec => Ok(Some(Read(data, pos, e.uncompressedSize)))
  }

  /** The zstd branch as the source runs it. */
  method ExtractZstd(data: seq<byte>, pos: nat, e: Entry, zstd: Zstd) returns (r: Result<Option<seq<byte>>>)
    ensures r == DecodeZstd(data, pos, e, zstd)
  {
    if zstd.None? {
      return Ok(None);
    }
    var out := zstd.value(Read(data, pos, e.compressedSize), e.uncompressedSize);
    if out.None? {
      return Err(ZstdFailure);
    }
    return Ok(Some(out.value));
  }

  /** The flag-1 branch as the source runs it: the seeks of the probe on
      the cursor, then the decoder it picks. */
  method ExtractProbed(data: seq<byte>, pos0: nat, e: Entry) returns (r: Result<seq<byte>>)
    ensures r == DecodeProbed(data, pos0, e)
  {
    hide Lz4.Decode, Nislzss.Decode;
    var pos := pos0;
    var isLz4 := true;
    if e.compressedSize >= 8 {
      pos := pos + 4;
      var field := Read(data, pos, 4);
      pos := pos + |field|;
      var cms := LittleEndian(field);
      if pos < 8 {
        return Err(NegativeSeek);
      }
      pos := pos - 8;
      isLz4 := !Nislzss.HeaderSizesAgree(e.uncompressedSize, e.compressedSize, cms);
    }
    if isLz4 {
      r := Lz4.Uncompress(data, pos, e.uncompressedSize, e.compressedSize);
    } else {
      r := Nislzss.Uncompress(data, pos, e.uncompressedSize, e.compressedSize);
    }
  }

  /** The body of the extraction loop for one entry, from the seek to the
      payload to the decoded bytes. */
  method ExtractEntry(data: seq<byte>, e: Entry, zstd: Zstd) returns (r: Result<Option<seq<byte>>>)
    ensures r == DecodeEntry(data, e, zstd)
  {
    hide Lz4.Decode, DecodeZstd, DecodeProbed;
    var pos := e.offset;
    if HasFlag(e, HasCrcPrefix) {
      pos := pos + 4;
    }
    if HasFlag(e, ForceLz4) {
      var out := Lz4.Uncompress(data, pos, e.uncompressedSize, e.compressedSize);
      return Present(out);
    } else if HasFlag(e, ZstdOrShared) || HasFlag(e, ZstdAlt) {
      r := ExtractZstd(data, pos, e, zstd);
    } else if HasFlag(e, HasLzPayload) {
      var out := ExtractProbed(data, pos, e);
      return Present(out);
    } else {
      return Ok(Some(Read(data, pos, e.uncompressedSize)));
    }
  }

  /** The probe and the NISLZSS decoder read the same header word: when
      the payload holds at least 8 bytes, the probe picks NISLZSS exactly
      when that decoder accepts the header, so an entry the probe sends to
      NISLZSS never fails with a size mismatch and one it sends to LZ4
      would have. */
  lemma ProbeAgreesWithNislzss(data: seq<byte>, pos: nat, e: Entry)
    requires e.compressedSize >= 8 && pos + 8 <= |data|
    ensures Probe(data, pos, e).value.0
        <==> Nislzss.Decode(data, pos, e.uncompressedSize, e.compressedSize) == Err(SizeMismatch)
  {
    assert Read(data, pos + 4, 4) == Read(data, pos + Min(4, |data| - pos), 4);
    Nislzss.SizeMismatchIffHeaderRejected(data, pos, e.uncompressedSize, e.compressedSize);
  }

  /** An entry with none of the codec flags is copied: the output is the
      `uncompressedSize` bytes at the payload start. */
  lemma RawEntryIsSlice(data: seq<byte>, e: Entry, zstd: Zstd)
    requires !HasFlag(e, ForceLz4) && !HasFlag(e, ZstdOrShared) && !HasFlag(e, ZstdAlt) && !HasFlag(e, HasLzPayload)
    requires PayloadStart(e) + e.uncompressedSize <= |data|
    ensures DecodeEntry(data, e, zstd) == Ok(Some(data[PayloadStart(e)..PayloadStart(e) + e.uncompressedSize]))
  {
  }

  // Solver scaffolding for FlagPrecedence: division and remainder by the
  // flag masks, one fact at a time.

  lemma Quarter(f: nat, q: nat, r: nat)
    requires f == 4 * q + r && r < 4
    ensures f / 4 == q
  {
  }

  lemma Eighth(f: nat, q: nat, r: nat)
    requires f == 8 * q + r && r < 8
    ensures f / 8 == q
  {
  }

  lemma Sixteenth(f: nat, q: nat, r: nat)
    requires f == 16 * q + r && r < 16
    ensures f / 16 == q
  {
  }

  lemma Parity(f: nat, h: nat, b: nat)
    requires f == 2 * h + b && b < 2
    ensures f % 2 == b
  {
  }

  /** The five low bits of `f = 32 * q + r` are those of `r`; for `r` 1
      or 3, bit 0 is set and bits 2, 3 and 4 are clear. */
  lemma LowBits(f: nat, q: nat, r: nat)
    requires f == 32 * q + r && (r == 1 || r == 3)
    ensures f % 2 == 1 && (f / 4) % 2 == 0 && (f / 8) % 2 == 0 && (f / 16) % 2 == 0
  {
    Parity(f, 16 * q + r / 2, 1);
    Quarter(f, 8 * q, r);
    Parity(8 * q, 4 * q, 0);
    Eighth(f, 4 * q, r);
    Parity(4 * q, 2 * q, 0);
    Sixteenth(f, 2 * q, r);
    Parity(2 * q, q, 0);
  }

  /** Flag 4 wins over every other flag, and the zstd flags over flag 1;
      flag 1 with no other codec flag (flag 2 aside) sends the entry to the
      probe. */
  lemma FlagPrecedence(e: Entry)
    ensures HasFlag(e, ForceLz4) ==> SelectCodec(e) == Lz4Codec
    ensures !HasFlag(e, ForceLz4) && HasFlag(e, ZstdOrShared) ==> SelectCodec(e) == ZstdCodec
    ensures !HasFlag(e, ForceLz4) && HasFlag(e, HasLzPayload) && HasFlag(e, ZstdAlt) ==> SelectCodec(e) == ZstdCodec
    ensures e.flags % 32 == 1 || e.flags % 32 == 3 ==> SelectCodec(e) == ProbeCodec
  {
    if e.flags % 32 == 1 || e.flags % 32 == 3 {
      LowBits(e.flags, e.flags / 32, e.flags % 32);
    }
  }

  /** An entry with flag 4 whose payload is an LZ4 encoding decodes to the
      bytes the encoding expands to, zero-filled up to the entry's
      uncompressed size, whatever its other flags say. */
  lemma ForcedLz4Entry(data: seq<byte>, e: Entry, zstd: Zstd, seqs: seq<Lz4.Sequence>, last: seq<byte>)
    requires HasFlag(e, ForceLz4)
    requires Lz4.Valid(seqs, []) && |Lz4.Expand(seqs, last, [])| <= e.uncompressedSize
    requires e.compressedSize == |Lz4.Encode(seqs, last, [])|
    requires PayloadStart(e) + e.compressedSize <= |data|
    requires data[PayloadStart(e)..PayloadStart(e) + e.compressedSize] == Lz4.Encode(seqs, last, [])
    ensures DecodeEntry(data, e, zstd)
         == Ok(Some(Lz4.Expand(seqs, last, []) + Zeros(e.uncompressedSize - |Lz4.Expand(seqs, last, [])|)))
  {
    hide Lz4.Decode, Nislzss.Decode;
    FlagPrecedence(e);
    Lz4.DecodeEncoded(data, PayloadStart(e), seqs, last, e.uncompressedSize);
  }

  /** An entry with flag 1 and no other codec flag whose payload is a
      NISLZSS stream with a matching header passes the probe as NISLZSS and
      decodes to the bytes the tokens expand to, zero-filled up to the
      entry's uncompressed size. */
  lemma ProbedNislzssEntry(prefix: seq<byte>, e: Entry, zstd: Zstd, esc: byte, toks: seq<Nislzss.Token>, extra: seq<byte>)
    requires e.flags % 32 == 1 || e.flags % 32 == 3
    requires |prefix| == PayloadStart(e)
    requires Nislzss.Valid(esc, toks, [])
    requires |Nislzss.Expand(esc, toks, [])| <= e.uncompressedSize < 0x1_0000_0000
    requires e.compressedSize == 12 + |Nislzss.Encode(esc, toks, [])| < 0x1_0000_0000
    ensures var data := prefix + Nislzss.Payload(e.uncompressedSize, esc, Nislzss.Encode(esc, toks, [])) + extra;
      DecodeEntry(data, e, zstd)
        == Ok(Some(Nislzss.Expand(esc, toks, []) + Zeros(e.uncompressedSize - |Nislzss.Expand(esc, toks, [])|)))
  {
    hide Lz4.Decode, Nislzss.Decode;
    var body := Nislzss.Encode(esc, toks, []);
    var data := prefix + Nislzss.Payload(e.uncompressedSize, esc, body) + extra;
    var pos := PayloadStart(e);
    FlagPrecedence(e);
    Nislzss.RoundTrip(prefix, esc, toks, e.uncompressedSize, extra);
    assert |Nislzss.Payload(e.uncompressedSize, esc, body)| >= 12;
    ProbeAgreesWithNislzss(data, pos, e);
    assert DecodeProbed(data, pos, e) == Nislzss.Decode(data, pos, e.uncompressedSize, e.compressedSize);
  }
}
