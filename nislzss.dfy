/** The NISLZSS decoder (`uncompress_nislzss`): a 12-byte header of three
    little-endian 32-bit words (decompressed size, compressed size, escape
    value) followed by a token stream expanded into a zero-filled buffer. */
module Nislzss {
  import opened Bytes
  import opened Window

  /** The header test of the source: the compressed size in the stream must
      equal the entry's, or be 4 less than it, or be the one historical
      triple the source accepts as it is. */
  predicate HeaderSizesAgree(decompressedSize: nat, compressedSize: nat, cms: nat)
    ensures HeaderSizesAgree(decompressedSize, compressedSize, cms) && cms > compressedSize
        ==> decompressedSize == 451019 && compressedSize == 176128 && cms == 176796
  {
    || cms == compressedSize
    || compressedSize - cms == 4
    || (decompressedSize == 451019 && compressedSize == 176128 && cms == 176796)
  }

  /** Write one literal byte at the write index; a write past the end of the
      buffer is an index error. */
  function PutByte(s: State, b: byte, next: nat): (r: Result<State>)
    ensures r.Err? <==> s.w >= |s.out|
    ensures r.Ok? ==> && r.value.pos == next && r.value.w == s.w + 1 && |r.value.out| == |s.out|
                      && r.value.out[s.w] == b
                      && forall i :: 0 <= i < |s.out| && i != s.w ==> r.value.out[i] == s.out[i]
  {
    if s.w < |s.out| then Ok(State(next, s.out[s.w := b], s.w + 1)) else Err(OutOfBounds)
  }

  /** One pass of the decoding loop: a literal byte, an escaped escape, or
      escape + distance + length. A distance byte at or above the escape value
      is decremented, so that the escape itself stays free. */
  function DecodeToken(data: seq<byte>, esc: nat, s: State): (r: Result<State>)
    ensures r.Ok? ==> s.pos < r.value.pos <= s.pos + 3 && |r.value.out| == |s.out|
    ensures r == Err(Truncated) <==>
              s.pos >= |data| ||
              (data[s.pos] == esc && (s.pos + 1 >= |data| || (data[s.pos + 1] != esc && s.pos + 2 >= |data|)))
  {
    if s.pos >= |data| then Err(Truncated)
    else if data[s.pos] != esc then PutByte(s, data[s.pos], s.pos + 1)
    else if s.pos + 1 >= |data| then Err(Truncated)
    else if data[s.pos + 1] == esc then PutByte(s, data[s.pos + 1], s.pos + 2)
    else
      var b2 := data[s.pos + 1];
      var d := if b2 >= esc then b2 - 1 else b2;
      if s.pos + 2 >= |data| then Err(Truncated)
      else
        var len := data[s.pos + 2];
        match Match(s.out, s.w, d, len)
        case None => Err(OutOfBounds)
        case Some(out) => Ok(State(s.pos + 3, out, s.w + len))
  }

  /** The decoding loop `while src.tell() <= fin`, from state `s` on. */
  function DecodeFrom(data: seq<byte>, esc: nat, fin: int, s: State): (r: Result<seq<byte>>)
    ensures r.Ok? ==> |r.value| == |s.out|
    decreases fin - s.pos
  {
    if s.pos > fin then Ok(s.out)
    else match DecodeToken(data, esc, s)
      case Err(e) => Err(e)
      case Ok(s') => DecodeFrom(data, esc, fin, s')
  }

  /** The header fields read at `start`, with the cursor after each. */
  datatype Header = Header(size: nat, cms: nat, esc: nat, bodyStart: nat)

  function ReadHeader(data: seq<byte>, start: nat): (h: Header)
    ensures start <= h.bodyStart <= start + 12
  {
    var f0 := Read(data, start, 4);
    var f1 := Read(data, start + |f0|, 4);
    var f2 := Read(data, start + |f0| + |f1|, 4);
    Header(LittleEndian(f0), LittleEndian(f1), LittleEndian(f2), start + |f0| + |f1| + |f2|)
  }

  /** `uncompress_nislzss(src, decompressed_size, compressed_size)` with the
      stream positioned at `start`. The buffer holds the larger of the two
      decompressed sizes; decoding stops once the cursor passes the body
      start plus the header's compressed size minus 13. */
  function Decode(data: seq<byte>, start: nat, decompressedSize: nat, compressedSize: nat): (r: Result<seq<byte>>)
    ensures r.Ok? ==> |r.value| == Max(ReadHeader(data, start).size, decompressedSize)
    ensures !HeaderSizesAgree(decompressedSize, compressedSize, ReadHeader(data, start).cms) ==> r == Err(SizeMismatch)
  {
    var h := ReadHeader(data, start);
    if !HeaderSizesAgree(decompressedSize, compressedSize, h.cms) then Err(SizeMismatch)
    else
      DecodeFrom(data, h.esc, h.bodyStart + h.cms - 13, State(h.bodyStart, Zeros(Max(h.size, decompressedSize)), 0))
  }

  /** The token loop fails only on a short stream or a write outside the
      buffer. */
  lemma {:induction false} DecodeFromErrors(data: seq<byte>, esc: nat, fin: int, s: State)
    ensures DecodeFrom(data, esc, fin, s).Err? ==>
      DecodeFrom(data, esc, fin, s).error == Truncated || DecodeFrom(data, esc, fin, s).error == OutOfBounds
    decreases fin - s.pos
  {
    if s.pos <= fin && DecodeToken(data, esc, s).Ok? {
      DecodeFromErrors(data, esc, fin, DecodeToken(data, esc, s).value);
    }
  }

  /** So the decoder reports a size mismatch exactly when the header test
      rejects the compressed size. */
  lemma SizeMismatchIffHeaderRejected(data: seq<byte>, start: nat, decompressedSize: nat, compressedSize: nat)
    ensures Decode(data, start, decompressedSize, compressedSize) == Err(SizeMismatch)
        <==> !HeaderSizesAgree(decompressedSize, compressedSize, ReadHeader(data, start).cms)
  {
    var h := ReadHeader(data, start);
    DecodeFromErrors(data, h.esc, h.bodyStart + h.cms - 13, State(h.bodyStart, Zeros(Max(h.size, decompressedSize)), 0));
  }

  /** The decoder as the source runs it: a cursor over the stream and a
      preallocated buffer filled in place through a write index. */
  method Uncompress(data: seq<byte>, start: nat, decompressedSize: nat, compressedSize: nat)
    returns (r: Result<seq<byte>>)
    ensures r == Decode(data, start, decompressedSize, compressedSize)
  {
    hide DecodeToken, Decode, DecodeFrom, Read, LittleEndian;
    ghost var h := ReadHeader(data, start);
    var pos := start;
    var field := Read(data, pos, 4);
    pos := pos + |field|;
    var des := LittleEndian(field);
    assert des == h.size;
    if des != decompressedSize {
      des := if des > decompressedSize then des else decompressedSize;
    }
    field := Read(data, pos, 4);
    pos := pos + |field|;
    var cms := LittleEndian(field);
    assert cms == h.cms;
    if !HeaderSizesAgree(decompressedSize, compressedSize, cms) {
      return Err(SizeMismatch);
    }
    field := Read(data, pos, 4);
    pos := pos + |field|;
    var esc := LittleEndian(field);
    assert esc == h.esc && pos == h.bodyStart;
    var fin := pos + cms - 13;
    var cd := new byte[des](_ => 0);
    var w: nat := 0;
    assert cd[..] == Zeros(Max(h.size, decompressedSize));
    DecodeAfterHeader(data, start, decompressedSize, compressedSize, h, fin, cd.Length);

    while pos <= fin
      invariant cd.Length == des
      invariant DecodeFrom(data, esc, fin, State(pos, cd[..], w)) == Decode(data, start, decompressedSize, compressedSize)
      decreases fin - pos
    {
      ghost var s := State(pos, cd[..], w);
      var err;
      err, pos, w := DecodeTokenInPlace(data, esc, cd, pos, w);
      if err.Some? {
        FromTokenError(data, esc, fin, s);
        return Err(err.value);
      }
      FromToken(data, esc, fin, s, State(pos, cd[..], w));
    }
    FromEnd(data, esc, fin, State(pos, cd[..], w));
    return Ok(cd[..]);
  }

  /** One pass of the loop body on the buffer, with the cursor and write
      index it leaves. */
  method DecodeTokenInPlace(data: seq<byte>, esc: nat, cd: array<byte>, pos0: nat, w0: nat)
    returns (err: Option<Error>, pos: nat, w: nat)
    modifies cd
    ensures DecodeToken(data, esc, State(pos0, old(cd[..]), w0))
         == if err.Some? then Err(err.value) else Ok(State(pos, cd[..], w))
  {
    pos, w := pos0, w0;
    if pos >= |data| {
      return Some(Truncated), pos, w;
    }
    var b := data[pos];
    pos := pos + 1;
    if b == esc {
      if pos >= |data| {
        return Some(Truncated), pos, w;
      }
      var b2 := data[pos];
      pos := pos + 1;
      if b2 != esc {
        if b2 >= esc {
          b2 := b2 - 1;
        }
        if pos >= |data| {
          return Some(Truncated), pos, w;
        }
        var b3 := data[pos];
        pos := pos + 1;
        var ok := CopyMatch(cd, w, b2, b3);
        if !ok {
          return Some(OutOfBounds), pos, w;
        }
        w := w + b3;
      } else {
        if w >= cd.Length {
          return Some(OutOfBounds), pos, w;
        }
        cd[w] := b2;
        w := w + 1;
      }
    } else {
      if w >= cd.Length {
        return Some(OutOfBounds), pos, w;
      }
      cd[w] := b;
      w := w + 1;
    }
    err := None;
  }

  /** The header does not depend on what follows its 12 bytes. */
  lemma HeaderExtend(data: seq<byte>, extra: seq<byte>, start: nat)
    requires start + 12 <= |data|
    ensures ReadHeader(data + extra, start) == ReadHeader(data, start)
  {
    ReadExtend(data, extra, start, 4);
    ReadExtend(data, extra, start + 4, 4);
    ReadExtend(data, extra, start + 8, 4);
  }

  /** Bytes past the last token the loop can start are never read: decoding
      depends only on the stream up to the body start plus the header's
      compressed size, plus the two bytes a final back-reference may need. */
  lemma DecodeIgnoresTrailingBytes(data: seq<byte>, extra: seq<byte>, start: nat, decompressedSize: nat, compressedSize: nat)
    requires start + 12 <= |data|
    requires start + ReadHeader(data, start).cms + 2 <= |data|
    ensures Decode(data + extra, start, decompressedSize, compressedSize) == Decode(data, start, decompressedSize, compressedSize)
  {
    hide DecodeFrom, DecodeToken, ReadHeader;
    HeaderExtend(data, extra, start);
    var h := ReadHeader(data, start);
    DecodeFromIgnoresTrailingBytes(data, extra, h.esc, h.bodyStart + h.cms - 13,
      State(h.bodyStart, Zeros(Max(h.size, decompressedSize)), 0));
  }

  /** A token does not depend on the bytes after its three. */
  lemma TokenExtend(data: seq<byte>, extra: seq<byte>, esc: nat, s: State)
    requires s.pos + 3 <= |data|
    ensures DecodeToken(data + extra, esc, s) == DecodeToken(data, esc, s)
  {
    assert (data + extra)[s.pos] == data[s.pos];
    assert (data + extra)[s.pos + 1] == data[s.pos + 1];
    assert (data + extra)[s.pos + 2] == data[s.pos + 2];
  }

  lemma {:induction false} DecodeFromIgnoresTrailingBytes(data: seq<byte>, extra: seq<byte>, esc: nat, fin: int, s: State)
    requires fin + 3 <= |data|
    ensures DecodeFrom(data + extra, esc, fin, s) == DecodeFrom(data, esc, fin, s)
    decreases fin - s.pos
  {
    hide DecodeToken;
    if s.pos <= fin {
      TokenExtend(data, extra, esc, s);
      if DecodeToken(data, esc, s).Ok? {
        DecodeFromIgnoresTrailingBytes(data, extra, esc, fin, DecodeToken(data, esc, s).value);
      }
    }
  }

  /** With a wide escape value, one pass of the loop copies one byte. */
  lemma WideEscapeStep(data: seq<byte>, esc: nat, fin: int, pos: nat, p: seq<byte>, z: seq<byte>)
    requires esc > 255 && pos <= fin && pos < |data| && 0 < |z|
    ensures DecodeFrom(data, esc, fin, State(pos, p + z, |p|))
         == DecodeFrom(data, esc, fin, State(pos + 1, (p + [data[pos]]) + z[1..], |p| + 1))
  {
    assert (p + z)[|p| := data[pos]] == (p + [data[pos]]) + z[1..];
  }

  /** The escape value is a 32-bit word; when it exceeds 255 no byte can
      match it and the body is copied literally into the buffer. */
  lemma {:induction false} WideEscapeCopiesBody(data: seq<byte>, esc: nat, fin: int, pos: nat, n: nat, p: seq<byte>, z: seq<byte>)
    requires esc > 255
    requires pos + n == fin + 1 <= |data| && n <= |z|
    ensures DecodeFrom(data, esc, fin, State(pos, p + z, |p|)) == Ok(p + data[pos..pos + n] + z[n..])
    decreases n
  {
    if n == 0 {
      assert data[pos..pos + n] == [] && z[n..] == z;
      assert p + data[pos..pos + n] + z[n..] == p + z;
    } else {
      hide DecodeFrom, DecodeToken, PutByte;
      var b := data[pos];
      WideEscapeStep(data, esc, fin, pos, p, z);
      var m := n - 1;
      WideEscapeCopiesBody(data, esc, fin, pos + 1, m, p + [b], z[1..]);
      DropDrop(z, 1, m, n);
      assert (p + [b]) + data[pos + 1..pos + 1 + m] == p + data[pos..pos + n];
    }
  }

  // ---------------------------------------------------------------------
  // What a token stream means, and an encoder for it.

  /** A token of the format: one literal byte, or a back-reference of
      `length` bytes starting `distance` bytes behind the write index. */
  datatype Token = Literal(b: byte) | Copy(distance: nat, length: nat)

  /** A token that can be written with escape value `esc` and, if a
      back-reference, stays inside the output `p` produced before it. */
  ghost predicate ValidToken(esc: byte, t: Token, p: seq<byte>)
  {
    t.Copy? ==> 1 <= t.distance <= |p| && t.length < 256 && (t.distance < esc || t.distance + 1 < 256)
  }

  ghost predicate Valid(esc: byte, toks: seq<Token>, p: seq<byte>)
    decreases |toks|
  {
    toks == [] || (ValidToken(esc, toks[0], p) && Valid(esc, toks[1..], Apply(toks[0], p)))
  }

  function Apply(t: Token, p: seq<byte>): (r: seq<byte>)
    requires t.Copy? ==> 1 <= t.distance <= |p|
    ensures |r| >= |p|
  {
    match t
    case Literal(b) => p + [b]
    case Copy(d, l) => Repeat(p, d, l)
  }

  /** The plain LZ77 meaning of a token list appended to `p`. */
  ghost function Expand(esc: byte, toks: seq<Token>, p: seq<byte>): (r: seq<byte>)
    requires Valid(esc, toks, p)
    ensures |r| >= |p|
    decreases |toks|
  {
    if toks == [] then p else Expand(esc, toks[1..], Apply(toks[0], p))
  }

  /** The bytes of one token: a literal equal to the escape is doubled; a
      distance at or above the escape is written one higher. */
  function EncodeToken(esc: byte, t: Token): seq<byte>
    requires t.Copy? ==> t.length < 256 && (t.distance < esc || t.distance + 1 < 256)
  {
    match t
    case Literal(b) => if b == esc then [esc, esc] else [b]
    case Copy(d, l) => [esc, if d < esc then d else d + 1, l]
  }

  ghost function Encode(esc: byte, toks: seq<Token>, p: seq<byte>): seq<byte>
    requires Valid(esc, toks, p)
    decreases |toks|
  {
    if toks == [] then [] else EncodeToken(esc, toks[0]) + Encode(esc, toks[1..], Apply(toks[0], p))
  }

  /** A byte other than the escape is written as it is. */
  lemma LiteralToken(data: seq<byte>, esc: byte, pos: nat, b: byte, p: seq<byte>, z: seq<byte>)
    requires pos < |data| && data[pos] == b != esc && 1 <= |z|
    ensures DecodeToken(data, esc, State(pos, p + z, |p|)) == Ok(State(pos + 1, (p + [b]) + z[1..], |p| + 1))
  {
    hide Match;
    assert (p + z)[|p| := b] == (p + [b]) + z[1..];
  }

  /** The escape written twice is the escape byte itself. */
  lemma EscapedToken(data: seq<byte>, esc: byte, pos: nat, p: seq<byte>, z: seq<byte>)
    requires pos + 1 < |data| && data[pos] == esc && data[pos + 1] == esc && 1 <= |z|
    ensures DecodeToken(data, esc, State(pos, p + z, |p|)) == Ok(State(pos + 2, (p + [esc]) + z[1..], |p| + 1))
  {
    hide Match;
    assert (p + z)[|p| := esc] == (p + [esc]) + z[1..];
  }

  /** The escape, a distance byte and a length byte make a back-reference. */
  lemma CopyToken(data: seq<byte>, esc: byte, pos: nat, d: nat, l: nat, p: seq<byte>, z: seq<byte>)
    requires 1 <= d <= |p| && l < 256 && (d < esc || d + 1 < 256) && l <= |z|
    requires pos + 2 < |data| && data[pos] == esc
    requires data[pos + 1] == (if d < esc then d else d + 1) && data[pos + 2] == l
    ensures DecodeToken(data, esc, State(pos, p + z, |p|)) == Ok(State(pos + 3, Repeat(p, d, l) + z[l..], |p| + l))
  {
    hide CopyBytewise, CopyBlock, PutByte;
    MatchIsBytewise(p + z, |p|, d, l);
    CopyIsRepeat(p, z, d, l);
  }

  /** The bytes of a token, one by one. */
  lemma TokenBytes(data: seq<byte>, pos: nat, enc: seq<byte>)
    requires pos + |enc| <= |data| && data[pos..pos + |enc|] == enc
    ensures forall i :: 0 <= i < |enc| ==> data[pos + i] == enc[i]
  {
    forall i | 0 <= i < |enc|
      ensures data[pos + i] == enc[i]
    {
      assert data[pos + i] == data[pos..pos + |enc|][i];
    }
  }

  /** Decoding the bytes of a literal token writes it. */
  lemma DecodeLiteralToken(data: seq<byte>, esc: byte, pos: nat, b: byte, p: seq<byte>, z: seq<byte>)
    requires pos + |EncodeToken(esc, Literal(b))| <= |data| && 1 <= |z|
    requires data[pos..pos + |EncodeToken(esc, Literal(b))|] == EncodeToken(esc, Literal(b))
    ensures DecodeToken(data, esc, State(pos, p + z, |p|))
         == Ok(State(pos + |EncodeToken(esc, Literal(b))|, (p + [b]) + z[1..], |p| + 1))
  {
    hide DecodeToken;
    TokenBytes(data, pos, EncodeToken(esc, Literal(b)));
    if b == esc {
      EscapedToken(data, esc, pos, p, z);
    } else {
      LiteralToken(data, esc, pos, b, p, z);
    }
  }

  /** Decoding the bytes of a back-reference token repeats the output. */
  lemma DecodeCopyToken(data: seq<byte>, esc: byte, pos: nat, d: nat, l: nat, p: seq<byte>, z: seq<byte>)
    requires 1 <= d <= |p| && l < 256 && (d < esc || d + 1 < 256) && l <= |z|
    requires pos + 3 <= |data| && data[pos..pos + 3] == EncodeToken(esc, Copy(d, l))
    ensures DecodeToken(data, esc, State(pos, p + z, |p|)) == Ok(State(pos + 3, Repeat(p, d, l) + z[l..], |p| + l))
  {
    hide DecodeToken, Match, Repeat;
    var b1: byte := if d < esc then d else d + 1;
    var enc := data[pos..pos + 3];
    assert enc == [esc, b1, l];
    assert data[pos] == enc[0] && data[pos + 1] == enc[1] && data[pos + 2] == enc[2];
    CopyToken(data, esc, pos, d, l, p, z);
  }

  /** Decoding the bytes of one token applies it. */
  lemma DecodeOneToken(data: seq<byte>, esc: byte, pos: nat, t: Token, p: seq<byte>, z: seq<byte>)
    requires t.Copy? ==> 1 <= t.distance <= |p| && t.length < 256 && (t.distance < esc || t.distance + 1 < 256)
    requires pos + |EncodeToken(esc, t)| <= |data| && data[pos..pos + |EncodeToken(esc, t)|] == EncodeToken(esc, t)
    requires |Apply(t, p)| <= |p| + |z|
    ensures DecodeToken(data, esc, State(pos, p + z, |p|))
         == Ok(State(pos + |EncodeToken(esc, t)|, Apply(t, p) + z[|Apply(t, p)| - |p|..], |Apply(t, p)|))
  {
    hide DecodeToken;
    match t
    case Literal(b) =>
      DecodeLiteralToken(data, esc, pos, b, p, z);
    case Copy(d, l) =>
      DecodeCopyToken(data, esc, pos, d, l, p, z);
  }

  /** The loop goes on from the state a token leaves. */
  lemma FromToken(data: seq<byte>, esc: nat, fin: int, s: State, s': State)
    requires s.pos <= fin && DecodeToken(data, esc, s) == Ok(s')
    ensures DecodeFrom(data, esc, fin, s) == DecodeFrom(data, esc, fin, s')
  {
    hide DecodeToken;
  }

  /** A token that fails ends the loop with its error. */
  lemma FromTokenError(data: seq<byte>, esc: nat, fin: int, s: State)
    requires s.pos <= fin && DecodeToken(data, esc, s).Err?
    ensures DecodeFrom(data, esc, fin, s) == Err(DecodeToken(data, esc, s).error)
  {
    hide DecodeToken;
  }

  /** Past `fin` the loop stops and the buffer is the result. */
  lemma FromEnd(data: seq<byte>, esc: nat, fin: int, s: State)
    requires s.pos > fin
    ensures DecodeFrom(data, esc, fin, s) == Ok(s.out)
  {
  }

  /** Where the first token of a list and the rest of the list lie in the
      stream, and what the rest asks of the buffer. */
  lemma FirstTokenAt(data: seq<byte>, esc: byte, fin: int, pos: nat, toks: seq<Token>, p: seq<byte>, z: seq<byte>)
    requires toks != [] && Valid(esc, toks, p)
    requires pos + |Encode(esc, toks, p)| == fin + 1 <= |data|
    requires data[pos..fin + 1] == Encode(esc, toks, p)
    requires |Expand(esc, toks, p)| <= |p| + |z|
    ensures ValidToken(esc, toks[0], p)
    ensures var p' := Apply(toks[0], p); var n := |EncodeToken(esc, toks[0])|;
      && Valid(esc, toks[1..], p')
      && Expand(esc, toks, p) == Expand(esc, toks[1..], p')
      && |p'| <= |Expand(esc, toks, p)|
      && pos + n <= fin + 1
      && data[pos..pos + n] == EncodeToken(esc, toks[0])
      && pos + n + |Encode(esc, toks[1..], p')| == fin + 1
      && data[pos + n..fin + 1] == Encode(esc, toks[1..], p')
  {
    hide DecodeFrom, DecodeToken, PutByte, Apply, EncodeToken;
    var t := toks[0];
    var enc := EncodeToken(esc, t);
    var p' := Apply(t, p);
    var rest := Encode(esc, toks[1..], p');
    assert Encode(esc, toks, p) == enc + rest;
    assert |Expand(esc, toks[1..], p')| >= |p'|;
    SplitSlice(data, pos, fin + 1, enc, rest);
  }

  /** The first token of a list: its bytes lead the encoding, and decoding
      them moves the state on to the rest of the list. */
  lemma DecodeFirstToken(data: seq<byte>, esc: byte, fin: int, pos: nat, toks: seq<Token>, p: seq<byte>, z: seq<byte>)
    requires toks != [] && Valid(esc, toks, p)
    requires pos + |Encode(esc, toks, p)| == fin + 1 <= |data|
    requires data[pos..fin + 1] == Encode(esc, toks, p)
    requires |Expand(esc, toks, p)| <= |p| + |z|
    ensures ValidToken(esc, toks[0], p)
    ensures var p' := Apply(toks[0], p);
      && Valid(esc, toks[1..], p')
      && Expand(esc, toks, p) == Expand(esc, toks[1..], p')
      && |p'| <= |Expand(esc, toks, p)|
      && var next := pos + |EncodeToken(esc, toks[0])|;
      && next + |Encode(esc, toks[1..], p')| == fin + 1
      && data[next..fin + 1] == Encode(esc, toks[1..], p')
      && DecodeFrom(data, esc, fin, State(pos, p + z, |p|))
         == DecodeFrom(data, esc, fin, State(next, p' + z[|p'| - |p|..], |p'|))
  {
    hide DecodeFrom, DecodeToken, Valid, Expand, Encode, Apply, EncodeToken;
    FirstTokenAt(data, esc, fin, pos, toks, p, z);
    var t := toks[0];
    var p' := Apply(t, p);
    var next := pos + |EncodeToken(esc, t)|;
    DecodeOneToken(data, esc, pos, t, p, z);
    FromToken(data, esc, fin, State(pos, p + z, |p|), State(next, p' + z[|p'| - |p|..], |p'|));
  }

  /** The empty token list leaves the buffer as it is. */
  lemma DecodeNoTokens(data: seq<byte>, esc: byte, fin: int, pos: nat, p: seq<byte>, z: seq<byte>)
    requires pos == fin + 1
    ensures DecodeFrom(data, esc, fin, State(pos, p + z, |p|)) == Ok(p + z[0..])
  {
    assert z[0..] == z;
  }

  /** The empty token list is valid, expands to nothing and has no bytes. */
  lemma NoTokens(esc: byte, p: seq<byte>)
    ensures Valid(esc, [], p) && Expand(esc, [], p) == p && Encode(esc, [], p) == []
  {
  }

  /** Decoding the encoding of a token list, followed by anything, expands
      it into the buffer. */
  lemma {:induction false} DecodeTokens(data: seq<byte>, esc: byte, fin: int, pos: nat, toks: seq<Token>, p: seq<byte>, z: seq<byte>)
    requires Valid(esc, toks, p)
    requires pos + |Encode(esc, toks, p)| == fin + 1 <= |data|
    requires data[pos..fin + 1] == Encode(esc, toks, p)
    requires |Expand(esc, toks, p)| <= |p| + |z|
    ensures DecodeFrom(data, esc, fin, State(pos, p + z, |p|))
         == Ok(Expand(esc, toks, p) + z[|Expand(esc, toks, p)| - |p|..])
    decreases |toks|
  {
    hide DecodeFrom, DecodeToken, PutByte, Valid, Expand, Encode, Apply, EncodeToken;
    if toks == [] {
      NoTokens(esc, p);
      DecodeNoTokens(data, esc, fin, pos, p, z);
    } else {
      DecodeFirstToken(data, esc, fin, pos, toks, p, z);
      var p' := Apply(toks[0], p);
      var e := Expand(esc, toks[1..], p');
      var next := pos + |EncodeToken(esc, toks[0])|;
      var z' := z[|p'| - |p|..];
      DecodeTokens(data, esc, fin, next, toks[1..], p', z');
      DecodeThen(data, esc, fin, pos, next, p, p', e, z);
    }
  }

  /** The loop from the state one token leaves, composed with that token. */
  lemma DecodeThen(data: seq<byte>, esc: byte, fin: int, pos: nat, next: nat, p: seq<byte>, p': seq<byte>,
                   e: seq<byte>, z: seq<byte>)
    requires |p| <= |p'| <= |e| <= |p| + |z|
    requires DecodeFrom(data, esc, fin, State(pos, p + z, |p|))
          == DecodeFrom(data, esc, fin, State(next, p' + z[|p'| - |p|..], |p'|))
    requires DecodeFrom(data, esc, fin, State(next, p' + z[|p'| - |p|..], |p'|))
          == Ok(e + z[|p'| - |p|..][|e| - |p'|..])
    ensures DecodeFrom(data, esc, fin, State(pos, p + z, |p|)) == Ok(e + z[|e| - |p|..])
  {
    hide DecodeFrom;
    DropDrop(z, |p'| - |p|, |e| - |p'|, |e| - |p|);
  }

  /** An entry payload as the encoder writes it: the 12-byte header
      (decompressed size, compressed size counting the header, escape value)
      and the token bytes. */
  function Payload(size: nat, esc: byte, body: seq<byte>): seq<byte>
    requires size < 0x1_0000_0000 && 12 + |body| < 0x1_0000_0000
  {
    U32Bytes(size) + U32Bytes(12 + |body|) + U32Bytes(esc) + body
  }

  /** The header the encoder writes reads back as written. */
  lemma PayloadHeader(prefix: seq<byte>, size: nat, esc: byte, body: seq<byte>, extra: seq<byte>)
    requires size < 0x1_0000_0000 && 12 + |body| < 0x1_0000_0000
    ensures var data := prefix + Payload(size, esc, body) + extra;
      && ReadHeader(data, |prefix|) == Header(size, 12 + |body|, esc, |prefix| + 12)
      && data[|prefix| + 12..|prefix| + 12 + |body|] == body
  {
    hide LittleEndian, U32Bytes, Radix;
    var data := prefix + Payload(size, esc, body) + extra;
    var start := |prefix|;
    var cms := 12 + |body|;
    assert Read(data, start, 4) == U32Bytes(size);
    assert Read(data, start + 4, 4) == U32Bytes(cms);
    assert Read(data, start + 8, 4) == U32Bytes(esc);
    U32RoundTrip(size);
    U32RoundTrip(cms);
    U32RoundTrip(esc);
  }

  /** Once the header is read and accepted, decoding is the loop. */
  lemma DecodeAfterHeader(data: seq<byte>, start: nat, decompressedSize: nat, compressedSize: nat, h: Header, fin: int, n: nat)
    requires ReadHeader(data, start) == h
    requires HeaderSizesAgree(decompressedSize, compressedSize, h.cms)
    requires fin == h.bodyStart + h.cms - 13 && n == Max(h.size, decompressedSize)
    ensures Decode(data, start, decompressedSize, compressedSize) == DecodeFrom(data, h.esc, fin, State(h.bodyStart, Zeros(n), 0))
  {
    hide DecodeFrom, DecodeToken, ReadHeader, Zeros;
  }

  /** A stream written by the encoder, after its 12-byte header, decodes to
      the meaning of its tokens, zero-padded to the declared size, wherever
      the entry lies in the archive and whatever follows it. */
  lemma RoundTrip(prefix: seq<byte>, esc: byte, toks: seq<Token>, size: nat, extra: seq<byte>)
    requires Valid(esc, toks, [])
    requires |Expand(esc, toks, [])| <= size < 0x1_0000_0000
    requires 12 + |Encode(esc, toks, [])| < 0x1_0000_0000
    ensures Decode(prefix + Payload(size, esc, Encode(esc, toks, [])) + extra, |prefix|, size, 12 + |Encode(esc, toks, [])|)
         == Ok(Expand(esc, toks, []) + Zeros(size - |Expand(esc, toks, [])|))
  {
    hide Decode, DecodeFrom, DecodeToken, ReadHeader;
    var body := Encode(esc, toks, []);
    var data := prefix + Payload(size, esc, body) + extra;
    var start := |prefix|;
    var cms := 12 + |body|;
    var fin := start + 11 + |body|;
    PayloadHeader(prefix, size, esc, body, extra);
    DecodeAfterHeader(data, start, size, cms, Header(size, cms, esc, start + 12), fin, size);
    assert [] + Zeros(size) == Zeros(size);
    DecodeTokens(data, esc, fin, start + 12, toks, [], Zeros(size));
    var e := Expand(esc, toks, []);
    var n := |e|;
    assert Zeros(size)[n..] == Zeros(size - n);
  }

  /** The two tokens of a run of eight: their validity, expansion and
      encoding. */
  lemma RunTokens()
    ensures Valid(255, [Literal(65), Copy(1, 7)], [])
    ensures Expand(255, [Literal(65), Copy(1, 7)], []) == seq(8, _ => 65)
    ensures Encode(255, [Literal(65), Copy(1, 7)], []) == [65, 255, 1, 7]
  {
    var toks := [Literal(65), Copy(1, 7)];
    var eight: seq<byte> := seq(8, _ => 65);
    RepeatDistanceOne([65], 7);
    assert Repeat([65], 1, 7) == eight;
    assert Valid(255, toks[1..], [65]) by {
      assert toks[1..][1..] == [];
    }
    assert Valid(255, toks, []);
    assert Expand(255, toks, []) == eight by {
      assert Expand(255, toks, []) == Expand(255, toks[1..], [65]);
      assert toks[1..][1..] == [];
      assert Expand(255, toks[1..], [65]) == Expand(255, [], eight);
    }
    assert Encode(255, toks, []) == [65, 255, 1, 7] by {
      assert toks[1..][1..] == [];
      assert Encode(255, toks[1..], [65]) == [255, 1, 7];
    }
  }

  /** A one-byte seed followed by a distance-1 back-reference of length 7
      decodes to eight copies of the seed. */
  lemma RunOfEight()
    ensures Decode(Payload(8, 255, [65, 255, 1, 7]), 0, 8, 16) == Ok(seq(8, _ => 65))
  {
    hide Decode, DecodeFrom, DecodeToken, ReadHeader, Valid, Expand, Encode, Payload;
    var toks := [Literal(65), Copy(1, 7)];
    var eight: seq<byte> := seq(8, _ => 65);
    RunTokens();
    RoundTrip([], 255, toks, 8, []);
    assert [] + Payload(8, 255, [65, 255, 1, 7]) + [] == Payload(8, 255, [65, 255, 1, 7]);
    assert eight + Zeros(0) == eight;
  }
}
