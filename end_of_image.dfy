/** Detection of the JPEG end-of-image marker 0xFF 0xD9 (ITU-T T.81,
    Annex B.1.1.3) in a stream read byte by byte, with a one-byte lookback
    that carries the previous byte across chunk boundaries. */
module EndOfImage {
  import opened Wire

  const MarkerPrefix: Byte := 0xFF
  const EoiCode: Byte := 0xD9

  /** The byte at index i of d completes an end-of-image marker, where prev
      is the byte that was read just before d[0]. */
  predicate EoiAt(prev: Byte, d: seq<Byte>, i: int)
  {
    0 <= i < |d| && d[i] == EoiCode && (if i == 0 then prev else d[i - 1]) == MarkerPrefix
  }

  /** The lookback byte after reading d: its final byte, or prev if d is empty. */
  function Lookback(prev: Byte, d: seq<Byte>): Byte
  {
    if d == [] then prev else d[|d| - 1]
  }

  /** The first index of d at which a marker completes, scanning byte by
      byte while carrying the previous byte. */
  function FirstEoi(prev: Byte, d: seq<Byte>): (r: Option<nat>)
    ensures r.Some? ==> r.value < |d|
    decreases |d|
  {
    if d == [] then None
    else if prev == MarkerPrefix && d[0] == EoiCode then Some(0)
    else
      match FirstEoi(d[0], d[1..])
      case Some(i) => Some(i + 1)
      case None => None
  }

  /** The scan finds the first index at which a marker completes, and finds
      nothing exactly when no index of d completes one. */
  lemma {:induction false} FirstEoiIsFirst(prev: Byte, d: seq<Byte>)
    ensures FirstEoi(prev, d).Some? ==> EoiAt(prev, d, FirstEoi(prev, d).value)
    ensures FirstEoi(prev, d).Some? ==> forall j :: 0 <= j < FirstEoi(prev, d).value ==> !EoiAt(prev, d, j)
    ensures FirstEoi(prev, d).None? <==> forall j :: 0 <= j < |d| ==> !EoiAt(prev, d, j)
    decreases |d|
  {
    if d == [] {
    } else if prev == MarkerPrefix && d[0] == EoiCode {
      assert EoiAt(prev, d, 0);
    } else {
      var r := FirstEoi(d[0], d[1..]);
      FirstEoiIsFirst(d[0], d[1..]);
      assert FirstEoi(prev, d) == if r.Some? then Some(r.value + 1) else None;
      assert !EoiAt(prev, d, 0);
      forall j | 1 <= j < |d|
        ensures EoiAt(prev, d, j) <==> EoiAt(d[0], d[1..], j - 1)
      {
      }
      if r.Some? {
        assert EoiAt(prev, d, r.value + 1);
        forall j | 0 <= j < r.value + 1
          ensures !EoiAt(prev, d, j)
        {
          if j > 0 { assert !EoiAt(d[0], d[1..], j - 1); }
        }
      } else {
        forall j | 0 <= j < |d|
          ensures !EoiAt(prev, d, j)
        {
          if j > 0 { assert !EoiAt(d[0], d[1..], j - 1); }
        }
      }
    }
  }

  /** The marker search over two consecutive chunks, the second starting
      with the lookback the first left behind, finds the same marker as a
      search over their concatenation: a marker split across the boundary
      is found at the first byte of the second chunk. */
  lemma {:induction false} EoiAcrossChunks(prev: Byte, a: seq<Byte>, b: seq<Byte>)
    ensures FirstEoi(prev, a + b) ==
      match FirstEoi(prev, a)
      case Some(i) => Some(i)
      case None =>
        match FirstEoi(Lookback(prev, a), b)
        case Some(i) => Some(|a| + i)
        case None => None
    decreases |a|
  {
    if a == [] {
      assert a + b == b;
    } else {
      assert (a + b)[0] == a[0];
      assert (a + b)[1..] == a[1..] + b;
      if !(prev == MarkerPrefix && a[0] == EoiCode) {
        EoiAcrossChunks(a[0], a[1..], b);
        assert Lookback(a[0], a[1..]) == Lookback(prev, a);
      }
    }
  }

  /** The lookback is never reset: a transfer whose first byte is 0xD9 ends at
      once when the byte read before it, possibly in an earlier picture, was
      0xFF, and not otherwise. */
  lemma StaleLookback(prev: Byte, d: seq<Byte>)
    requires |d| > 0 && d[0] == EoiCode
    ensures FirstEoi(prev, d) == Some(0) <==> prev == MarkerPrefix
  {
  }

  /** The first `size` bytes of d, or all of d when it is shorter: the part
      of the stream a chunk read of `size` bytes can see. */
  function Take(d: seq<Byte>, size: nat): (w: seq<Byte>)
    ensures |w| <= size && w <= d
    ensures |w| == size || w == d
  {
    if size <= |d| then d[..size] else d
  }

  /** Reading one more byte: with no marker among the first i bytes, the
      first i + 1 bytes hold a marker exactly when the lookback is 0xFF and
      the new byte is 0xD9. */
  lemma ScanStep(prev: Byte, d: seq<Byte>, i: nat)
    requires i < |d| && FirstEoi(prev, d[..i]).None?
    ensures FirstEoi(prev, d[..i + 1]) ==
      if Lookback(prev, d[..i]) == MarkerPrefix && d[i] == EoiCode then Some(i) else None
  {
    assert d[..i + 1] == d[..i] + [d[i]];
    EoiAcrossChunks(prev, d[..i], [d[i]]);
    assert FirstEoi(d[i], []) == None;
  }

  /** A marker that the first i + 1 bytes of d end with, at index i < size,
      is the marker the whole chunk stops at. */
  lemma ChunkStopsAt(prev: Byte, d: seq<Byte>, size: nat, i: nat)
    requires i < size && i < |d| && FirstEoi(prev, d[..i + 1]) == Some(i)
    ensures FirstEoi(prev, Take(d, size)) == Some(i)
  {
    var w := Take(d, size);
    assert w == d[..i + 1] + w[i + 1..];
    EoiAcrossChunks(prev, d[..i + 1], w[i + 1..]);
  }

  /** The stream holds a marker within the first `size` bytes, or at least
      `size + extra` bytes. */
  predicate ChunkReadable(prev: Byte, d: seq<Byte>, size: nat, extra: nat)
  {
    FirstEoi(prev, Take(d, size)).Some? || |d| >= size + extra
  }

  /** While no marker has been seen among the first i < size bytes of a
      readable chunk, byte i has been sent. */
  lemma ChunkByteAvailable(prev: Byte, d: seq<Byte>, size: nat, extra: nat, i: nat)
    requires ChunkReadable(prev, d, size, extra) && i < size && i <= |d|
    requires FirstEoi(prev, d[..i]).None?
    ensures i < |d|
  {
    assert d[..|d|] == d;
  }

  /** A readable chunk without a marker in its first `size` bytes has all of
      them and `extra` more, and the chunk search finds nothing. */
  lemma ChunkComplete(prev: Byte, d: seq<Byte>, size: nat, extra: nat)
    requires ChunkReadable(prev, d, size, extra) && size <= |d|
    requires FirstEoi(prev, d[..size]).None?
    ensures |d| >= size + extra && FirstEoi(prev, Take(d, size)).None?
  {
  }
}
