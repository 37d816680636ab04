/** The sliding-window back-reference that both decoders share: copy `len`
    bytes that lie `d` bytes behind the write index `w` of a preallocated
    output buffer. When `d < len` the source copies one byte at a time, so a
    copy may read bytes it has itself just written (a run-length repeat);
    otherwise it copies one slice. */
module Window {
  import opened Bytes

  /** Decoder state: read cursor, output buffer, write index. */
  datatype State = State(pos: nat, out: seq<byte>, w: nat)

  /** The byte-by-byte loop: `len` times `out[w] = out[w - d]; w += 1`.
      A negative window index (Python would wrap around) or a write past the
      end of the buffer is a failure. */
  function CopyBytewise(out: seq<byte>, w: nat, d: nat, len: nat): (r: Option<seq<byte>>)
    ensures r.Some? ==> |r.value| == |out|
    decreases len
  {
    if len == 0 then Some(out)
    else if w < d || w >= |out| then None
    else CopyBytewise(out[w := out[w - d]], w + 1, d, len - 1)
  }

  /** The slice assignment `out[w:w+len] = out[w-d:w-d+len]`: the right-hand
      side is taken before anything is written. A slice that would grow the
      buffer or start at a negative index is a failure. */
  function CopyBlock(out: seq<byte>, w: nat, d: nat, len: nat): (r: Option<seq<byte>>)
    ensures r.Some? ==> |r.value| == |out|
  {
    if len == 0 then Some(out)
    else if w < d || w + len > |out| then None
    else Some(out[..w] + out[w - d..w - d + len] + out[w + len..])
  }

  /** The copy a decoder performs for a back-reference. */
  function Match(out: seq<byte>, w: nat, d: nat, len: nat): (r: Option<seq<byte>>)
    ensures r.Some? ==> |r.value| == |out|
  {
    if d < len then CopyBytewise(out, w, d, len) else CopyBlock(out, w, d, len)
  }

  /** When the distance is at least the length the two copies cannot
      overlap, so the slice copy the source uses then is the byte-by-byte
      copy, failures included. */
  lemma {:induction false} BlockIsBytewise(out: seq<byte>, w: nat, d: nat, len: nat)
    requires d >= len
    ensures CopyBlock(out, w, d, len) == CopyBytewise(out, w, d, len)
    decreases len
  {
    if len > 0 && d <= w && w < |out| {
      var out' := out[w := out[w - d]];
      BlockIsBytewise(out', w + 1, d, len - 1);
      if len == 1 {
        assert out[..w] + out[w - d..w - d + 1] + out[w + 1..] == out';
      } else if w + len <= |out| {
        assert out'[w + 1 - d..w + 1 - d + (len - 1)] == out[w + 1 - d..w - d + len];
        assert out'[..w + 1] == out[..w] + [out[w - d]];
        assert out[w - d..w - d + len] == [out[w - d]] + out[w + 1 - d..w - d + len];
        assert out'[w + len..] == out[w + len..];
        calc {
          out'[..w + 1] + out'[w + 1 - d..w + 1 - d + (len - 1)] + out'[w + len..];
          out[..w] + [out[w - d]] + out[w + 1 - d..w - d + len] + out[w + len..];
          out[..w] + out[w - d..w - d + len] + out[w + len..];
        }
      }
    }
  }

  /** So a back-reference always behaves as the byte-by-byte copy. */
  lemma MatchIsBytewise(out: seq<byte>, w: nat, d: nat, len: nat)
    ensures Match(out, w, d, len) == CopyBytewise(out, w, d, len)
  {
    if d >= len { BlockIsBytewise(out, w, d, len); }
  }

  /** A successful byte-by-byte copy changes only `out[w..w+len]`, and each
      byte it writes equals the byte `d` positions before it in the result:
      with distance 1 every copied byte repeats the previous one. It fails
      exactly when the window starts before the buffer or the copy runs past
      its end. */
  lemma {:induction false} BytewiseEffect(out: seq<byte>, w: nat, d: nat, len: nat)
    ensures CopyBytewise(out, w, d, len).Some? <==> len == 0 || (d <= w && w + len <= |out|)
    ensures CopyBytewise(out, w, d, len).Some? && len > 0 ==>
      var r := CopyBytewise(out, w, d, len).value;
      && r[..w] == out[..w] && r[w + len..] == out[w + len..]
      && forall k :: w <= k < w + len ==> r[k] == r[k - d]
    decreases len
  {
    if len > 0 && d <= w && w < |out| {
      var out' := out[w := out[w - d]];
      BytewiseEffect(out', w + 1, d, len - 1);
      if CopyBytewise(out, w, d, len).Some? {
        var r := CopyBytewise(out, w, d, len).value;
        assert r[..w + 1] == out'[..w + 1];
        assert r[w] == out'[w];
        assert r[..w] == out[..w] by { assert r[..w] == r[..w + 1][..w]; }
        if d > 0 {
          assert r[w - d] == out[w - d] by { assert r[w - d] == r[..w][w - d]; }
        }
      }
    }
  }

  /** The copy the decoders run, on the array the source fills in place:
      the byte-by-byte loop when the window overlaps the bytes being
      written, a simultaneous slice assignment otherwise. */
  method CopyMatch(out: array<byte>, w: nat, d: nat, len: nat) returns (ok: bool)
    modifies out
    ensures ok == Match(old(out[..]), w, d, len).Some?
    ensures ok ==> out[..] == Match(old(out[..]), w, d, len).value
  {
    if d < len {
      var i := 0;
      while i < len
        invariant 0 <= i <= len
        invariant CopyBytewise(out[..], w + i, d, len - i) == CopyBytewise(old(out[..]), w, d, len)
      {
        if w + i < d || w + i >= out.Length {
          return false;
        }
        out[w + i] := out[w + i - d];
        i := i + 1;
      }
      return true;
    } else {
      if len == 0 {
        return true;
      }
      if w < d || w + len > out.Length {
        return false;
      }
      forall k | w <= k < w + len {
        out[k] := out[k - d];
      }
      assert out[..] == old(out[..])[..w] + old(out[..])[w - d..w - d + len] + old(out[..])[w + len..];
      return true;
    }
  }

  // ---------------------------------------------------------------------
  // What a back-reference means on the output produced so far.

  /** The output a back-reference appends to `p`: `length` bytes, each the
      byte `distance` places before it. */
  function Repeat(p: seq<byte>, distance: nat, length: nat): (r: seq<byte>)
    requires 1 <= distance <= |p|
    ensures |r| == |p| + length
    decreases length
  {
    if length == 0 then p else Repeat(p + [p[|p| - distance]], distance, length - 1)
  }

  /** A byte-by-byte copy into a buffer holding `p` then anything produces
      the repeat of `p`, the rest of the buffer left as it was. */
  lemma {:induction false} CopyIsRepeat(p: seq<byte>, z: seq<byte>, d: nat, l: nat)
    requires 1 <= d <= |p| && l <= |z|
    ensures CopyBytewise(p + z, |p|, d, l) == Some(Repeat(p, d, l) + z[l..])
    decreases l
  {
    if l > 0 {
      assert (p + z)[|p| := p[|p| - d]] == (p + [p[|p| - d]]) + z[1..];
      CopyIsRepeat(p + [p[|p| - d]], z[1..], d, l - 1);
      assert z[1..][l - 1..] == z[l..];
    }
  }

  /** A back-reference at distance 1 repeats the last byte. */
  lemma {:induction false} RepeatDistanceOne(p: seq<byte>, l: nat)
    requires |p| >= 1
    ensures Repeat(p, 1, l) == p + seq(l, _ => p[|p| - 1])
    decreases l
  {
    if l > 0 {
      var x := p[|p| - 1];
      RepeatDistanceOne(p + [x], l - 1);
      assert (p + [x]) + seq(l - 1, _ => x) == p + seq(l, _ => x);
    }
  }

  /** A back-reference no longer than its distance copies a slice of the
      output produced before it. */
  lemma {:induction false} RepeatNoOverlap(p: seq<byte>, d: nat, l: nat)
    requires 1 <= d <= |p| && l <= d
    ensures Repeat(p, d, l) == p + p[|p| - d..|p| - d + l]
    decreases l
  {
    var a := |p| - d;
    if l == 0 {
      assert p[a..a] == [];
    } else {
      var q := p + [p[a]];
      RepeatNoOverlap(q, d, l - 1);
      var b, c := a + 1, a + l;
      assert q[b..c] == p[b..c];
      assert p[a..c] == [p[a]] + p[b..c];
      assert p + p[a..c] == q + q[b..c];
    }
  }

  /** Helpers for splitting and dropping sequence slices. */
  lemma SplitSlice(data: seq<byte>, lo: nat, hi: nat, a: seq<byte>, b: seq<byte>)
    requires lo <= hi <= |data| && data[lo..hi] == a + b
    ensures data[lo..lo + |a|] == a && data[lo + |a|..hi] == b
  {
    assert data[lo..lo + |a|] == data[lo..hi][..|a|];
    assert data[lo + |a|..hi] == data[lo..hi][|a|..];
  }

  lemma DropDrop(z: seq<byte>, a: nat, b: nat, c: nat)
    requires c == a + b <= |z|
    ensures z[a..][b..] == z[c..]
  {
  }
}
