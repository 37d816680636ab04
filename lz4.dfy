/** The LZ4-style block decoder (`uncompress_lz4`): a sequence of blocks,
    each a token byte whose high nibble is a literal length and low nibble a
    match length, the literals, a two-byte little-endian offset and the
    match. Decoding stops at the first block with no offset after it, or
    once the cursor passes the entry's compressed size. */
module Lz4 {
  import opened Bytes
  import opened Window

  /** The shortest match the format encodes; the token stores the rest. */
  const MinMatch: nat := 4

  /** The extension bytes of a length whose nibble is 15: each byte is
      added to the length, and every byte but the last is 255. The
      extension fails when the stream ends first. */
  function ExtendLength(data: seq<byte>, pos: nat, acc: nat): (r: Result<(nat, nat)>)
    ensures r.Ok? ==>
      && pos < r.value.1 <= |data|
      && data[r.value.1 - 1] != 255
      && (forall i :: pos <= i < r.value.1 - 1 ==> data[i] == 255)
      && r.value.0 == acc + 255 * (r.value.1 - 1 - pos) + data[r.value.1 - 1]
    ensures r.Err? ==> r.error == EofAtLengthRead && forall i :: pos <= i < |data| ==> data[i] == 255
    decreases |data| - pos
  {
    if pos >= |data| then Err(EofAtLengthRead)
    else if data[pos] != 255 then Ok((acc + data[pos], pos + 1))
    else ExtendLength(data, pos + 1, acc + 255)
  }

  /** `get_length`: a nibble below 15 is the length itself; 15 starts an
      extension. The result is the length and the cursor after it. */
  function GetLength(data: seq<byte>, pos: nat, nibble: nat): (r: Result<(nat, nat)>)
    ensures nibble != 15 ==> r == Ok((nibble, pos))
    ensures nibble == 15 && r.Ok? ==> pos < r.value.1 && 15 <= r.value.0
    ensures r.Ok? ==> pos <= r.value.1 && nibble <= r.value.0
    ensures r.Err? ==> nibble == 15 && r.error == EofAtLengthRead
  {
    if nibble != 15 then Ok((nibble, pos)) else ExtendLength(data, pos, 15)
  }

  /** The slice assignment `dst[num4:num4 + n] = literals`: it writes in
      place when the literals fit and would grow the buffer otherwise, which
      is a failure here. */
  function WriteLiterals(out: seq<byte>, w: nat, lits: seq<byte>): (r: Option<seq<byte>>)
    ensures r.Some? ==> |r.value| == |out|
    ensures r.None? <==> |lits| > 0 && w + |lits| > |out|
  {
    if |lits| == 0 then Some(out)
    else if w + |lits| > |out| then None
    else Some(out[..w] + lits + out[w + |lits|..])
  }

  /** What one pass of the loop leaves: the state for the next block, or
      the buffer after the last block. */
  datatype Step = Continue(s: State) | Done(out: seq<byte>)

  /** The first half of a block: the token, the literal length, the
      literals written at the write index. The result is the token and the
      state with the cursor at the offset. */
  function DecodeLiterals(data: seq<byte>, s: State): (r: Result<(byte, State)>)
    ensures r.Ok? ==> s.pos < r.value.1.pos && |r.value.1.out| == |s.out|
    ensures s.pos >= |data| ==> r == Err(EofAtLiteralLength)
    ensures s.pos < |data| ==>
            var g := GetLength(data, s.pos + 1, data[s.pos] / 16);
            g.Ok? && g.value.1 + g.value.0 > |data| ==> r == Err(NotLiteralData)
  {
    if s.pos >= |data| then Err(EofAtLiteralLength)
    else
      var token := data[s.pos];
      match GetLength(data, s.pos + 1, token / 16)
      case Err(e) => Err(e)
      case Ok((lit, litStart)) =>
        var lits := Read(data, litStart, lit);
        if |lits| != lit then Err(NotLiteralData)
        else match WriteLiterals(s.out, s.w, lits)
        case None => Err(OutOfBounds)
        case Some(out) => Ok((token, State(litStart + lit, out, s.w + lit)))
  }

  /** The second half: the offset, the match length and the copy. A block
      with no offset after it, or whose offset ends past `fin`, is the last
      one, and then its token must announce no match. */
  function DecodeMatch(data: seq<byte>, fin: int, token: byte, s: State): (r: Result<Step>)
    ensures r.Ok? && r.value.Continue? ==> s.pos < r.value.s.pos && |r.value.s.out| == |s.out|
    ensures r.Ok? && r.value.Done? ==> r.value.out == s.out && token % 16 == 0
    ensures r.Ok? && r.value.Done? ==> Read(data, s.pos, 2) == [] || s.pos + |Read(data, s.pos, 2)| > fin
    ensures Read(data, s.pos, 2) == [] || s.pos + |Read(data, s.pos, 2)| > fin ==>
      r == (if token % 16 == 0 then Ok(Done(s.out)) else Err(MatchLengthAtEof))
    ensures s.pos + 1 == |data| && s.pos + 1 <= fin ==> r == Err(PrematureEof)
    ensures s.pos + 2 <= |data| && s.pos + 2 <= fin && data[s.pos] == 0 && data[s.pos + 1] == 0 ==> r == Err(ZeroOffset)
  {
    var off := Read(data, s.pos, 2);
    if off == [] || s.pos + |off| > fin then
      if token % 16 != 0 then Err(MatchLengthAtEof) else Ok(Done(s.out))
    else if |off| != 2 then Err(PrematureEof)
    else
      var d: nat := off[0] as nat + 256 * (off[1] as nat);
      if d == 0 then Err(ZeroOffset)
      else match GetLength(data, s.pos + 2, token % 16)
      case Err(e) => Err(e)
      case Ok((ml, next)) =>
        match Match(s.out, s.w, d, ml + MinMatch)
        case None => Err(OutOfBounds)
        case Some(out) => Ok(Continue(State(next, out, s.w + ml + MinMatch)))
  }

  /** One pass of the loop `while src.tell() <= fin`. */
  function DecodeBlock(data: seq<byte>, fin: int, s: State): (r: Result<Step>)
    ensures r.Ok? && r.value.Continue? ==> s.pos < r.value.s.pos && |r.value.s.out| == |s.out|
    ensures r.Ok? && r.value.Done? ==> |r.value.out| == |s.out|
  {
    match DecodeLiterals(data, s)
    case Err(e) => Err(e)
    case Ok((token, s')) => DecodeMatch(data, fin, token, s')
  }

  /** The decoding loop from state `s` on. */
  function DecodeFrom(data: seq<byte>, fin: int, s: State): (r: Result<seq<byte>>)
    ensures r.Ok? ==> |r.value| == |s.out|
    decreases fin - s.pos
  {
    if s.pos > fin then Ok(s.out)
    else match DecodeBlock(data, fin, s)
      case Err(e) => Err(e)
      case Ok(Done(out)) => Ok(out)
      case Ok(Continue(s')) => DecodeFrom(data, fin, s')
  }

  /** `uncompress_lz4(src, decompressed_size, compressed_size)` with the
      stream at `start`: a zero-filled buffer of the decompressed size, and
      the loop bounded by `start + compressed_size`. */
  function Decode(data: seq<byte>, start: nat, decompressedSize: nat, compressedSize: nat): (r: Result<seq<byte>>)
    ensures r.Ok? ==> |r.value| == decompressedSize
  {
    DecodeFrom(data, start + compressedSize, State(start, Zeros(decompressedSize), 0))
  }

  /** `get_length` as the source runs it, reading one byte at a time. */
  method ReadLength(data: seq<byte>, pos0: nat, nibble: nat) returns (err: Option<Error>, len: nat, pos: nat)
    ensures GetLength(data, pos0, nibble) == if err.Some? then Err(err.value) else Ok((len, pos))
  {
    len, pos := nibble, pos0;
    if nibble != 15 {
      return None, len, pos;
    }
    while true
      invariant ExtendLength(data, pos, len) == ExtendLength(data, pos0, 15)
      decreases |data| - pos
    {
      if pos >= |data| {
        return Some(EofAtLengthRead), len, pos;
      }
      var part := data[pos];
      pos := pos + 1;
      len := len + part;
      if part != 255 {
        return None, len, pos;
      }
    }
  }

  /** The literal copy on the buffer. */
  method WriteLiteralsInPlace(cd: array<byte>, w: nat, lits: seq<byte>) returns (ok: bool)
    modifies cd
    ensures ok == WriteLiterals(old(cd[..]), w, lits).Some?
    ensures ok ==> cd[..] == WriteLiterals(old(cd[..]), w, lits).value
  {
    if |lits| == 0 {
      return true;
    }
    if w + |lits| > cd.Length {
      return false;
    }
    forall k | 0 <= k < |lits| {
      cd[w + k] := lits[k];
    }
    assert cd[..] == old(cd[..])[..w] + lits + old(cd[..])[w + |lits|..];
    return true;
  }

  /** The first half of the loop body on the buffer. */
  method LiteralsInPlace(data: seq<byte>, cd: array<byte>, pos0: nat, w0: nat)
    returns (err: Option<Error>, token: byte, pos: nat, w: nat)
    modifies cd
    ensures DecodeLiterals(data, State(pos0, old(cd[..]), w0))
         == if err.Some? then Err(err.value) else Ok((token, State(pos, cd[..], w)))
  {
    hide GetLength, ExtendLength, WriteLiterals;
    pos, w, token := pos0, w0, 0;
    if pos >= |data| {
      return Some(EofAtLiteralLength), token, pos, w;
    }
    token := data[pos];
    pos := pos + 1;
    var lit;
    err, lit, pos := ReadLength(data, pos, token / 16);
    if err.Some? {
      return;
    }
    var lits := Read(data, pos, lit);
    pos := pos + |lits|;
    if |lits| != lit {
      return Some(NotLiteralData), token, pos, w;
    }
    var ok := WriteLiteralsInPlace(cd, w, lits);
    if !ok {
      return Some(OutOfBounds), token, pos, w;
    }
    w := w + lit;
  }

  /** The second half of the loop body on the buffer. */
  method MatchInPlace(data: seq<byte>, fin: int, token: byte, cd: array<byte>, pos0: nat, w0: nat)
    returns (err: Option<Error>, done: bool, pos: nat, w: nat)
    modifies cd
    ensures DecodeMatch(data, fin, token, State(pos0, old(cd[..]), w0))
         == if err.Some? then Err(err.value)
            else if done then Ok(Done(cd[..]))
            else Ok(Continue(State(pos, cd[..], w)))
  {
    hide GetLength, ExtendLength, Match;
    pos, w, done := pos0, w0, false;
    var off := Read(data, pos, 2);
    pos := pos + |off|;
    if off == [] || pos > fin {
      if token % 16 != 0 {
        return Some(MatchLengthAtEof), done, pos, w;
      }
      return None, true, pos, w;
    }
    if |off| != 2 {
      return Some(PrematureEof), done, pos, w;
    }
    var d: nat := off[0] as nat + 256 * (off[1] as nat);
    if d == 0 {
      return Some(ZeroOffset), done, pos, w;
    }
    var ml;
    err, ml, pos := ReadLength(data, pos, token % 16);
    if err.Some? {
      return;
    }
    ml := ml + MinMatch;
    var ok := CopyMatch(cd, w, d, ml);
    if !ok {
      return Some(OutOfBounds), done, pos, w;
    }
    w := w + ml;
  }

  /** The decoder as the source runs it, on a preallocated buffer. */
  method Uncompress(data: seq<byte>, start: nat, decompressedSize: nat, compressedSize: nat)
    returns (r: Result<seq<byte>>)
    ensures r == Decode(data, start, decompressedSize, compressedSize)
  {
    hide DecodeLiterals, DecodeMatch;
    var cd := new byte[decompressedSize](_ => 0);
    assert cd[..] == Zeros(decompressedSize);
    var pos := start;
    var w: nat := 0;
    var fin := start + compressedSize;
    while pos <= fin
      invariant DecodeFrom(data, fin, State(pos, cd[..], w)) == Decode(data, start, decompressedSize, compressedSize)
      decreases fin - pos
    {
      var err, token, done;
      err, token, pos, w := LiteralsInPlace(data, cd, pos, w);
      if err.Some? {
        return Err(err.value);
      }
      err, done, pos, w := MatchInPlace(data, fin, token, cd, pos, w);
      if err.Some? {
        return Err(err.value);
      }
      if done {
        return Ok(cd[..]);
      }
    }
    return Ok(cd[..]);
  }

  // ---------------------------------------------------------------------
  // What a block stream means, and an encoder for it.

  /** The extension bytes of a length: 255 while at least 255 is left,
      then the remainder. */
  function ExtensionBytes(n: nat): (r: seq<byte>)
    ensures |r| >= 1
    decreases n
  {
    if n < 255 then [n] else [255] + ExtensionBytes(n - 255)
  }

  /** The token nibble of a length, and the extension bytes that follow
      the token for it. */
  function LengthNibble(n: nat): (r: nat)
    ensures r < 16
  {
    if n < 15 then n else 15
  }

  function LengthBytes(n: nat): seq<byte>
  {
    if n < 15 then [] else ExtensionBytes(n - 15)
  }

  /** Reading the extension bytes of `n` adds `n` and stops right after them. */
  lemma {:induction false} ExtensionRoundTrip(data: seq<byte>, pos: nat, n: nat, k: nat, acc: nat)
    requires k == |ExtensionBytes(n)| && pos + k <= |data|
    requires data[pos..pos + k] == ExtensionBytes(n)
    ensures ExtendLength(data, pos, acc) == Ok((acc + n, pos + k))
    decreases n
  {
    assert data[pos] == ExtensionBytes(n)[0];
    if n >= 255 {
      var k' := k - 1;
      assert data[pos + 1..pos + 1 + k'] == ExtensionBytes(n - 255) by {
        assert data[pos + 1..pos + 1 + k'] == data[pos..pos + k][1..];
      }
      ExtensionRoundTrip(data, pos + 1, n - 255, k', acc + 255);
    }
  }

  /** `get_length` reads back any length written as a nibble and its
      extension bytes. */
  lemma LengthRoundTrip(data: seq<byte>, pos: nat, n: nat, k: nat)
    requires k == |LengthBytes(n)| && pos + k <= |data|
    requires data[pos..pos + k] == LengthBytes(n)
    ensures GetLength(data, pos, LengthNibble(n)) == Ok((n, pos + k))
  {
    if n >= 15 {
      ExtensionRoundTrip(data, pos, n - 15, k, 15);
    }
  }

  /** A block of the format: literals, then a match of `matchLength` bytes
      starting `distance` bytes behind the write index. */
  datatype Sequence = Sequence(literals: seq<byte>, distance: nat, matchLength: nat)

  /** A block the encoder can write and whose match stays inside the output
      produced before it: a two-byte nonzero offset, a match of at least
      four bytes. */
  predicate ValidSequence(sq: Sequence, p: seq<byte>)
  {
    1 <= sq.distance <= |p| + |sq.literals| && sq.distance < 0x1_0000 && sq.matchLength >= MinMatch
  }

  /** The output after a block: its literals, then the repeated bytes. */
  function ApplySequence(sq: Sequence, p: seq<byte>): (r: seq<byte>)
    requires ValidSequence(sq, p)
    ensures |r| == |p| + |sq.literals| + sq.matchLength
  {
    Repeat(p + sq.literals, sq.distance, sq.matchLength)
  }

  ghost predicate Valid(seqs: seq<Sequence>, p: seq<byte>)
    decreases |seqs|
  {
    seqs == [] || (ValidSequence(seqs[0], p) && Valid(seqs[1..], ApplySequence(seqs[0], p)))
  }

  /** The plain LZ77 meaning of a block list ending in a literal run. */
  ghost function Expand(seqs: seq<Sequence>, last: seq<byte>, p: seq<byte>): (r: seq<byte>)
    requires Valid(seqs, p)
    ensures |r| >= |p| + |last|
    decreases |seqs|
  {
    if seqs == [] then p + last else Expand(seqs[1..], last, ApplySequence(seqs[0], p))
  }

  function TokenByte(literalLength: nat, matchLength: nat): byte
  {
    16 * LengthNibble(literalLength) + LengthNibble(matchLength)
  }

  /** The bytes of a block: token, literal length extension, literals,
      little-endian offset, match length extension. */
  function EncodeSequence(sq: Sequence): seq<byte>
    requires sq.distance < 0x1_0000 && sq.matchLength >= MinMatch
  {
    var l := |sq.literals|;
    var m := sq.matchLength - MinMatch;
    [TokenByte(l, m)] + (LengthBytes(l) + sq.literals) + [sq.distance % 256, sq.distance / 256] + LengthBytes(m)
  }

  /** The last block: literals only, and a match nibble of 0. */
  function EncodeLast(lits: seq<byte>): (r: seq<byte>)
    ensures |r| >= 1
  {
    [TokenByte(|lits|, 0)] + LengthBytes(|lits|) + lits
  }

  ghost function Encode(seqs: seq<Sequence>, last: seq<byte>, p: seq<byte>): (r: seq<byte>)
    requires Valid(seqs, p)
    ensures |r| >= 1
    decreases |seqs|
  {
    if seqs == [] then EncodeLast(last)
    else EncodeSequence(seqs[0]) + Encode(seqs[1..], last, ApplySequence(seqs[0], p))
  }

  /** Decoding the leading `n` bytes of an encoded block. */
  lemma SubSlice(data: seq<byte>, pos: nat, n: nat, enc: seq<byte>, i: nat, j: nat)
    requires pos + n <= |data| && data[pos..pos + n] == enc && i <= j <= n
    ensures data[pos + i..pos + j] == enc[i..j]
  {
    var s := data[pos..pos + n];
    assert forall k :: 0 <= k < j - i ==> data[pos + i..pos + j][k] == s[i..j][k];
  }

  /** `read(n)` of bytes that are all there returns them. */
  lemma ReadAt(data: seq<byte>, pos: nat, n: nat, s: seq<byte>)
    requires pos + n <= |data| && data[pos..pos + n] == s
    ensures Read(data, pos, n) == s
  {
  }

  /** The literal half of a block, from what its parts read. */
  lemma LiteralsStep(data: seq<byte>, s: State, token: byte, lit: nat, litStart: nat, lits: seq<byte>, out: seq<byte>)
    requires s.pos < |data| && data[s.pos] == token
    requires GetLength(data, s.pos + 1, token / 16) == Ok((lit, litStart))
    requires Read(data, litStart, lit) == lits && |lits| == lit
    requires WriteLiterals(s.out, s.w, lits) == Some(out)
    ensures DecodeLiterals(data, s) == Ok((token, State(litStart + lit, out, s.w + lit)))
  {
    hide GetLength, Read, WriteLiterals;
  }

  /** The literal half of an encoded block: the literals land at the write
      index, the cursor stops at `pos + 1 + |LengthBytes| + |literals|`. */
  lemma DecodeLiteralsOf(data: seq<byte>, pos: nat, lits: seq<byte>, m: nat, p: seq<byte>, z: seq<byte>, c: nat)
    requires |lits| <= |z| && m < 16
    requires c == pos + 1 + |LengthBytes(|lits|)| + |lits| <= |data|
    requires data[pos] == 16 * LengthNibble(|lits|) + m
    requires data[pos + 1..c] == LengthBytes(|lits|) + lits
    ensures DecodeLiterals(data, State(pos, p + z, |p|))
         == Ok((data[pos], State(c, (p + lits) + z[|lits|..], |p| + |lits|)))
  {
    hide DecodeLiterals, GetLength, ExtendLength, Read, WriteLiterals;
    var l := |lits|;
    var lb := LengthBytes(l);
    var b := pos + 1 + |lb|;
    SplitSlice(data, pos + 1, c, lb, lits);
    LengthRoundTrip(data, pos + 1, l, |lb|);
    TokenNibbles(LengthNibble(l), m);
    ReadAt(data, b, l, lits);
    WriteLiteralsAt(p, z, lits);
    LiteralsStep(data, State(pos, p + z, |p|), data[pos], l, b, lits, (p + lits) + z[l..]);
  }

  lemma WriteLiteralsAt(p: seq<byte>, z: seq<byte>, lits: seq<byte>)
    requires |lits| <= |z|
    ensures WriteLiterals(p + z, |p|, lits) == Some((p + lits) + z[|lits|..])
  {
    var l := |lits|;
    if l > 0 {
      assert (p + z)[..|p|] + lits + (p + z)[|p| + l..] == (p + lits) + z[l..];
    } else {
      assert (p + lits) + z[l..] == p + z;
    }
  }

  /** The four parts of an encoded block, found at their offsets. */
  lemma SplitFour(data: seq<byte>, pos: nat, a: seq<byte>, b: seq<byte>, c: seq<byte>, d: seq<byte>, i: nat, j: nat, k: nat, end: nat)
    requires i == pos + |a| && j == i + |b| && k == j + |c| && end == k + |d| <= |data|
    requires data[pos..end] == a + b + c + d
    ensures data[pos..i] == a && data[i..j] == b && data[j..k] == c && data[k..end] == d
  {
    SplitSlice(data, pos, end, a + b + c, d);
    SplitSlice(data, pos, k, a + b, c);
    SplitSlice(data, pos, j, a, b);
  }

  /** The match half of an encoded block: offset, match length extension,
      and the copy. */
  lemma DecodeMatchOf(data: seq<byte>, fin: int, token: byte, st: State, d: nat, m: nat, ml: nat, next: nat, out: seq<byte>)
    requires 1 <= d < 0x1_0000 && st.pos + 2 <= fin
    requires st.pos + 2 + |LengthBytes(m)| == next <= |data|
    requires data[st.pos..st.pos + 2] == [d % 256, d / 256]
    requires token % 16 == LengthNibble(m)
    requires data[st.pos + 2..next] == LengthBytes(m)
    requires ml == m + MinMatch && Match(st.out, st.w, d, ml) == Some(out)
    ensures DecodeMatch(data, fin, token, st) == Ok(Continue(State(next, out, st.w + ml)))
  {
    hide GetLength, ExtendLength, Match;
    var off := Read(data, st.pos, 2);
    ReadAt(data, st.pos, 2, [d % 256, d / 256]);
    assert off[0] as nat + 256 * (off[1] as nat) == d;
    LengthRoundTrip(data, st.pos + 2, m, |LengthBytes(m)|);
  }

  lemma TokenNibbles(hi: nat, lo: nat)
    requires hi < 16 && lo < 16
    ensures (16 * hi + lo) / 16 == hi && (16 * hi + lo) % 16 == lo
  {
  }

  /** A match written right after the literals repeats the output so far. */
  lemma MatchAfterLiterals(p: seq<byte>, sq: Sequence, z: seq<byte>, out: seq<byte>, w: nat, k: nat)
    requires ValidSequence(sq, p) && k == |sq.literals| + sq.matchLength <= |z|
    requires out == (p + sq.literals) + z[|sq.literals|..] && w == |p| + |sq.literals|
    ensures Match(out, w, sq.distance, sq.matchLength) == Some(ApplySequence(sq, p) + z[k..])
  {
    var lits, d, ml := sq.literals, sq.distance, sq.matchLength;
    var l := |lits|;
    MatchIsBytewise((p + lits) + z[l..], |p + lits|, d, ml);
    CopyIsRepeat(p + lits, z[l..], d, ml);
    DropDrop(z, l, ml, l + ml);
  }

  /** A block is its literal half followed by its match half. */
  lemma BlockOfHalves(data: seq<byte>, fin: int, s: State, token: byte, st: State, r: Result<Step>)
    requires DecodeLiterals(data, s) == Ok((token, st)) && DecodeMatch(data, fin, token, st) == r
    ensures DecodeBlock(data, fin, s) == r
  {
  }

  /** The loop goes on from the state a block that is not the last leaves. */
  lemma FromContinue(data: seq<byte>, fin: int, s: State, s': State)
    requires s.pos <= fin && DecodeBlock(data, fin, s) == Ok(Continue(s'))
    ensures DecodeFrom(data, fin, s) == DecodeFrom(data, fin, s')
  {
  }

  /** The token byte at the head of an encoded block. */
  lemma TokenAt(data: seq<byte>, pos: nat, l: nat, m: nat)
    requires pos < |data| && data[pos..pos + 1] == [TokenByte(l, m)]
    ensures data[pos] == 16 * LengthNibble(l) + LengthNibble(m)
  {
    assert data[pos] == data[pos..pos + 1][0];
  }

  /** The match half of an encoded block, read after its literals: from
      the state `st` the literals leave to the state `st'` after the match. */
  lemma MatchHalfOf(data: seq<byte>, fin: int, token: byte, sq: Sequence, p: seq<byte>, z: seq<byte>,
                    c: nat, next: nat, st: State, st': State)
    requires ValidSequence(sq, p) && |sq.literals| + sq.matchLength <= |z|
    requires c + 2 + |LengthBytes(sq.matchLength - MinMatch)| == next <= |data| && next <= fin
    requires data[c..c + 2] == [sq.distance % 256, sq.distance / 256]
    requires data[c + 2..next] == LengthBytes(sq.matchLength - MinMatch)
    requires token % 16 == LengthNibble(sq.matchLength - MinMatch)
    requires st == State(c, (p + sq.literals) + z[|sq.literals|..], |p| + |sq.literals|)
    requires st' == State(next, ApplySequence(sq, p) + z[|sq.literals| + sq.matchLength..],
                          |p| + |sq.literals| + sq.matchLength)
    ensures DecodeMatch(data, fin, token, st) == Ok(Continue(st'))
  {
    var l, ml := |sq.literals|, sq.matchLength;
    MatchAfterLiterals(p, sq, z, st.out, st.w, l + ml);
    DecodeMatchOf(data, fin, token, st, sq.distance, ml - MinMatch, ml, next, st'.out);
  }

  /** A block whose four parts lie at their offsets decodes to it. */
  lemma DecodeBlockParts(data: seq<byte>, fin: int, pos: nat, sq: Sequence, p: seq<byte>, z: seq<byte>, c: nat, next: nat)
    requires ValidSequence(sq, p) && |sq.literals| + sq.matchLength <= |z|
    requires c == pos + 1 + |LengthBytes(|sq.literals|)| + |sq.literals|
    requires c + 2 + |LengthBytes(sq.matchLength - MinMatch)| == next <= |data| && next <= fin
    requires data[pos] == 16 * LengthNibble(|sq.literals|) + LengthNibble(sq.matchLength - MinMatch)
    requires data[pos + 1..c] == LengthBytes(|sq.literals|) + sq.literals
    requires data[c..c + 2] == [sq.distance % 256, sq.distance / 256]
    requires data[c + 2..next] == LengthBytes(sq.matchLength - MinMatch)
    ensures DecodeBlock(data, fin, State(pos, p + z, |p|))
         == Ok(Continue(State(next, ApplySequence(sq, p) + z[|sq.literals| + sq.matchLength..],
                              |p| + |sq.literals| + sq.matchLength)))
  {
    hide DecodeBlock, DecodeLiterals, DecodeMatch;
    var lits := sq.literals;
    var l := |lits|;
    var m := sq.matchLength - MinMatch;
    var ml := sq.matchLength;
    var st := State(c, (p + lits) + z[l..], |p| + l);
    var st' := State(next, ApplySequence(sq, p) + z[l + ml..], |p| + l + ml);
    TokenNibbles(LengthNibble(l), LengthNibble(m));
    DecodeLiteralsOf(data, pos, lits, LengthNibble(m), p, z, c);
    MatchHalfOf(data, fin, data[pos], sq, p, z, c, next, st, st');
    BlockOfHalves(data, fin, State(pos, p + z, |p|), data[pos], st, Ok(Continue(st')));
  }

  /** Decoding the bytes of a block that is not the last applies it. */
  lemma DecodeOneSequence(data: seq<byte>, fin: int, pos: nat, sq: Sequence, p: seq<byte>, z: seq<byte>, n: nat)
    requires ValidSequence(sq, p)
    requires n == |EncodeSequence(sq)| && pos + n <= fin && pos + n <= |data|
    requires data[pos..pos + n] == EncodeSequence(sq)
    requires |sq.literals| + sq.matchLength <= |z|
    ensures DecodeBlock(data, fin, State(pos, p + z, |p|))
         == Ok(Continue(State(pos + n, ApplySequence(sq, p) + z[|sq.literals| + sq.matchLength..],
                              |p| + |sq.literals| + sq.matchLength)))
  {
    hide DecodeBlock;
    var l := |sq.literals|;
    var m := sq.matchLength - MinMatch;
    var tok, lits, offs, mb := [TokenByte(l, m)], LengthBytes(l) + sq.literals, [sq.distance % 256, sq.distance / 256], LengthBytes(m);
    var c := pos + 1 + |lits|;
    SplitFour(data, pos, tok, lits, offs, mb, pos + 1, c, c + 2, pos + n);
    TokenAt(data, pos, l, m);
    DecodeBlockParts(data, fin, pos, sq, p, z, c, pos + n);
  }

  /** Decoding the last block ends the loop with its literals written. */
  lemma DecodeLastBlock(data: seq<byte>, fin: int, pos: nat, lits: seq<byte>, p: seq<byte>, z: seq<byte>, n: nat)
    requires n == |EncodeLast(lits)| && pos + n == fin <= |data|
    requires data[pos..fin] == EncodeLast(lits)
    requires |lits| <= |z|
    ensures DecodeFrom(data, fin, State(pos, p + z, |p|)) == Ok((p + lits) + z[|lits|..])
  {
    hide DecodeMatch;
    var enc := EncodeLast(lits);
    SubSlice(data, pos, n, enc, 0, 1);
    SubSlice(data, pos, n, enc, 1, n);
    assert enc[1..n] == LengthBytes(|lits|) + lits;
    assert data[pos] == data[pos..pos + 1][0] == enc[0] == 16 * LengthNibble(|lits|) + 0;
    DecodeLiteralsOf(data, pos, lits, 0, p, z, fin);
    var out := (p + lits) + z[|lits|..];
    var st := State(fin, out, |p| + |lits|);
    assert data[pos] % 16 == 0;
    assert DecodeMatch(data, fin, data[pos], st) == Ok(Done(out));
    assert DecodeBlock(data, fin, State(pos, p + z, |p|)) == Ok(Done(out));
  }

  /** The loop over a block that is not the last goes on with it applied. */
  lemma DecodeSequenceThen(data: seq<byte>, fin: int, pos: nat, sq: Sequence, p: seq<byte>, z: seq<byte>, n: nat,
                           s: State, s': State, r: Result<seq<byte>>)
    requires ValidSequence(sq, p)
    requires n == |EncodeSequence(sq)| && pos + n <= fin && pos + n <= |data|
    requires data[pos..pos + n] == EncodeSequence(sq)
    requires |sq.literals| + sq.matchLength <= |z|
    requires s' == State(pos + n, ApplySequence(sq, p) + z[|sq.literals| + sq.matchLength..],
                         |p| + |sq.literals| + sq.matchLength)
    requires s == State(pos, p + z, |p|) && DecodeFrom(data, fin, s') == r
    ensures DecodeFrom(data, fin, s) == r
  {
    hide DecodeFrom, DecodeBlock;
    DecodeOneSequence(data, fin, pos, sq, p, z, n);
    FromContinue(data, fin, s, s');
  }

  /** The buffer holding `p` then `z` once the list is expanded into it,
      block by block: each block consumes the front of `z`. */
  ghost function Fill(seqs: seq<Sequence>, last: seq<byte>, p: seq<byte>, z: seq<byte>): (r: seq<byte>)
    requires Valid(seqs, p) && |Expand(seqs, last, p)| <= |p| + |z|
    decreases |seqs|
  {
    if seqs == [] then (p + last) + z[|last|..]
    else
      var p' := ApplySequence(seqs[0], p);
      assert |Expand(seqs[1..], last, p')| >= |p'|;
      Fill(seqs[1..], last, p', z[|seqs[0].literals| + seqs[0].matchLength..])
  }

  /** The filled buffer is the expansion followed by the unused rest of `z`. */
  lemma {:induction false} FillIsExpand(seqs: seq<Sequence>, last: seq<byte>, p: seq<byte>, z: seq<byte>)
    requires Valid(seqs, p) && |Expand(seqs, last, p)| <= |p| + |z|
    ensures Fill(seqs, last, p, z) == Expand(seqs, last, p) + z[|Expand(seqs, last, p)| - |p|..]
    decreases |seqs|
  {
    if seqs != [] {
      var p' := ApplySequence(seqs[0], p);
      var a := |seqs[0].literals| + seqs[0].matchLength;
      var e := Expand(seqs[1..], last, p');
      assert |e| >= |p'| && Expand(seqs, last, p) == e;
      FillIsExpand(seqs[1..], last, p', z[a..]);
      DropDrop(z, a, |e| - |p'|, |e| - |p|);
    }
  }

  /** Filling with a list is filling with its tail after the first block. */
  lemma FillStep(seqs: seq<Sequence>, last: seq<byte>, p: seq<byte>, z: seq<byte>, p': seq<byte>, z': seq<byte>)
    requires Valid(seqs, p) && |Expand(seqs, last, p)| <= |p| + |z| && seqs != []
    requires p' == ApplySequence(seqs[0], p) && |seqs[0].literals| + seqs[0].matchLength <= |z|
    requires z' == z[|seqs[0].literals| + seqs[0].matchLength..]
    requires Valid(seqs[1..], p') && |Expand(seqs[1..], last, p')| <= |p'| + |z'|
    ensures Fill(seqs, last, p, z) == Fill(seqs[1..], last, p', z')
  {
  }

  /** A list with no block but the last fills the buffer with its literals. */
  lemma DecodeLastOnly(data: seq<byte>, fin: int, pos: nat, last: seq<byte>, p: seq<byte>, z: seq<byte>, s: State)
    requires pos + |Encode([], last, p)| == fin <= |data|
    requires data[pos..fin] == Encode([], last, p)
    requires |Expand([], last, p)| <= |p| + |z|
    requires s == State(pos, p + z, |p|)
    ensures DecodeFrom(data, fin, s) == Ok(Fill([], last, p, z))
  {
    DecodeLastBlock(data, fin, pos, last, p, z, fin - pos);
  }

  /** Where the first block of a list and the rest of the list lie in the
      stream, and what the rest asks of the buffer. */
  lemma FirstSequenceAt(data: seq<byte>, fin: int, pos: nat, seqs: seq<Sequence>, last: seq<byte>, p: seq<byte>, z: seq<byte>)
    requires Valid(seqs, p) && seqs != []
    requires pos + |Encode(seqs, last, p)| == fin <= |data|
    requires data[pos..fin] == Encode(seqs, last, p)
    requires |Expand(seqs, last, p)| <= |p| + |z|
    ensures var sq := seqs[0]; var p' := ApplySequence(sq, p); var n := |EncodeSequence(sq)|;
      && Valid(seqs[1..], p') && pos + n <= fin
      && data[pos..pos + n] == EncodeSequence(sq)
      && pos + n + |Encode(seqs[1..], last, p')| == fin
      && data[pos + n..fin] == Encode(seqs[1..], last, p')
      && |sq.literals| + sq.matchLength <= |z|
      && |Expand(seqs[1..], last, p')| <= |p'| + |z[|sq.literals| + sq.matchLength..]|
  {
    var sq := seqs[0];
    var p' := ApplySequence(sq, p);
    var enc := EncodeSequence(sq);
    var rest := Encode(seqs[1..], last, p');
    assert Encode(seqs, last, p) == enc + rest;
    SplitSlice(data, pos, fin, enc, rest);
    assert |Expand(seqs[1..], last, p')| >= |p'| && Expand(seqs, last, p) == Expand(seqs[1..], last, p');
  }

  /** Decoding the encoding of a block list, from the state `s` whose
      buffer holds `p` then `z`, expands the list into the buffer. */
  lemma {:induction false} DecodeSequences(data: seq<byte>, fin: int, pos: nat, seqs: seq<Sequence>, last: seq<byte>,
                                           p: seq<byte>, z: seq<byte>, s: State)
    requires Valid(seqs, p)
    requires pos + |Encode(seqs, last, p)| == fin <= |data|
    requires data[pos..fin] == Encode(seqs, last, p)
    requires |Expand(seqs, last, p)| <= |p| + |z|
    requires s == State(pos, p + z, |p|)
    ensures DecodeFrom(data, fin, s) == Ok(Fill(seqs, last, p, z))
    decreases |seqs|
  {
    hide DecodeFrom, DecodeBlock;
    if seqs == [] {
      DecodeLastOnly(data, fin, pos, last, p, z, s);
    } else {
      FirstSequenceAt(data, fin, pos, seqs, last, p, z);
      var sq := seqs[0];
      var p' := ApplySequence(sq, p);
      var n := |EncodeSequence(sq)|;
      var z' := z[|sq.literals| + sq.matchLength..];
      var s' := State(pos + n, p' + z', |p'|);
      DecodeSequences(data, fin, pos + n, seqs[1..], last, p', z', s');
      FillStep(seqs, last, p, z, p', z');
      DecodeSequenceThen(data, fin, pos, sq, p, z, n, s, s', Ok(Fill(seqs[1..], last, p', z')));
    }
  }

  /** Filling a zeroed buffer leaves zeros after the expansion. */
  lemma FillZeros(seqs: seq<Sequence>, last: seq<byte>, size: nat)
    requires Valid(seqs, []) && |Expand(seqs, last, [])| <= size
    ensures Fill(seqs, last, [], Zeros(size)) == Expand(seqs, last, []) + Zeros(size - |Expand(seqs, last, [])|)
  {
    FillIsExpand(seqs, last, [], Zeros(size));
    var n := |Expand(seqs, last, [])|;
    assert Zeros(size)[n..] == Zeros(size - n);
  }

  /** A stream written by the encoder, found at `start`, decodes to the
      meaning of its blocks, zero-padded to the declared size. */
  lemma DecodeEncoded(data: seq<byte>, start: nat, seqs: seq<Sequence>, last: seq<byte>, size: nat)
    requires Valid(seqs, []) && |Expand(seqs, last, [])| <= size
    requires start + |Encode(seqs, last, [])| <= |data|
    requires data[start..start + |Encode(seqs, last, [])|] == Encode(seqs, last, [])
    ensures Decode(data, start, size, |Encode(seqs, last, [])|)
         == Ok(Expand(seqs, last, []) + Zeros(size - |Expand(seqs, last, [])|))
  {
    hide DecodeFrom;
    var empty: seq<byte> := [];
    assert State(start, Zeros(size), 0) == State(start, empty + Zeros(size), |empty|);
    DecodeSequences(data, start + |Encode(seqs, last, [])|, start, seqs, last, [], Zeros(size), State(start, Zeros(size), 0));
    FillZeros(seqs, last, size);
    assert DecodeFrom(data, start + |Encode(seqs, last, [])|, State(start, Zeros(size), 0)) == Ok(Expand(seqs, last, []) + Zeros(size - |Expand(seqs, last, [])|));
  }

  /** So the stream decodes the same wherever it lies in the archive and
      whatever follows it. */
  lemma RoundTrip(prefix: seq<byte>, seqs: seq<Sequence>, last: seq<byte>, size: nat, extra: seq<byte>)
    requires Valid(seqs, []) && |Expand(seqs, last, [])| <= size
    ensures Decode(prefix + Encode(seqs, last, []) + extra, |prefix|, size, |Encode(seqs, last, [])|)
         == Ok(Expand(seqs, last, []) + Zeros(size - |Expand(seqs, last, [])|))
  {
    var body := Encode(seqs, last, []);
    var data := prefix + body + extra;
    assert data[|prefix|..|prefix| + |body|] == body;
    DecodeEncoded(data, |prefix|, seqs, last, size);
  }

  /** Four literals and a match of four at offset 4 decode to the literals
      twice. */
  lemma Abcd()
    ensures Decode([64, 65, 66, 67, 68, 4, 0, 0], 0, 8, 8) == Ok([65, 66, 67, 68, 65, 66, 67, 68])
  {
    hide Decode, DecodeFrom;
    var abcd: seq<byte> := [65, 66, 67, 68];
    var seqs := [Sequence(abcd, 4, 4)];
    var empty: seq<byte> := [];
    var stream: seq<byte> := [64, 65, 66, 67, 68, 4, 0, 0];
    RepeatNoOverlap(abcd, 4, 4);
    assert abcd[0..4] == abcd;
    assert ApplySequence(seqs[0], empty) == abcd + abcd;
    assert seqs[1..] == [];
    assert Valid(seqs, empty);
    assert Expand(seqs, empty, empty) == abcd + abcd;
    assert Encode(seqs, empty, empty) == stream;
    RoundTrip(empty, seqs, empty, 8, empty);
    assert empty + stream + empty == stream;
    assert Decode(stream, 0, 8, 8) == Ok(abcd + abcd + Zeros(0));
    var eight: seq<byte> := [65, 66, 67, 68, 65, 66, 67, 68];
    assert |Zeros(0)| == 0;
    assert abcd + abcd + Zeros(0) == abcd + abcd;
    assert abcd + abcd == eight;
  }

  /** A stream whose last block still announces a match is rejected. */
  lemma MatchAtEndIsAnError()
    ensures Decode([1], 0, 4, 1) == Err(MatchLengthAtEof)
  {
  }
}
