/** The LSY201 driver: a serial JPEG camera spoken to through one byte
    stream. The stream is two sequences, the bytes the module has sent that
    are still to be read (`input`) and the bytes written to it so far
    (`output`); a ghost `trace` records every byte sent and received in the
    order it happened. */
module Camera {
  import opened Wire
  import opened EndOfImage
  import opened BootLog

  datatype Event = Sent(b: Byte) | Received(b: Byte)

  /** The trace of writing the bytes of s. */
  function Sends(s: seq<Byte>): (r: seq<Event>)
    ensures |r| == |s|
  {
    if s == [] then [] else Sends(s[..|s| - 1]) + [Sent(s[|s| - 1])]
  }

  /** The trace of reading the bytes of s. */
  function Receives(s: seq<Byte>): (r: seq<Event>)
    ensures |r| == |s|
  {
    if s == [] then [] else Receives(s[..|s| - 1]) + [Received(s[|s| - 1])]
  }

  lemma {:induction false} SendsConcat(a: seq<Byte>, b: seq<Byte>)
    ensures Sends(a + b) == Sends(a) + Sends(b)
    decreases |b|
  {
    if b != [] {
      assert (a + b)[..|a + b| - 1] == a + b[..|b| - 1];
      SendsConcat(a, b[..|b| - 1]);
    } else {
      assert a + b == a;
    }
  }

  lemma {:induction false} ReceivesConcat(a: seq<Byte>, b: seq<Byte>)
    ensures Receives(a + b) == Receives(a) + Receives(b)
    decreases |b|
  {
    if b != [] {
      assert (a + b)[..|a + b| - 1] == a + b[..|b| - 1];
      ReceivesConcat(a, b[..|b| - 1]);
    } else {
      assert a + b == a;
    }
  }

  lemma Associative<T>(a: seq<T>, b: seq<T>, c: seq<T>)
    ensures a + b + c == a + (b + c)
  {
  }

  /** Reading s[..a] and then a further n bytes reads s[..a + n]. */
  lemma ReceivesSplit(s: seq<Byte>, a: nat, n: nat)
    requires a + n <= |s|
    ensures Receives(s[..a]) + Receives(s[a..][..n]) == Receives(s[..a + n])
  {
    assert s[..a] + s[a..][..n] == s[..a + n];
    ReceivesConcat(s[..a], s[a..][..n]);
  }

  /** A trace t followed by the reads of s[..a] and of the next n bytes is t
      followed by the read of s[..a + n]. */
  lemma ReceivesAfter(t: seq<Event>, s: seq<Byte>, a: nat, n: nat)
    requires a + n <= |s|
    ensures t + Receives(s[..a]) + Receives(s[a..][..n]) == t + Receives(s[..a + n])
  {
    ReceivesSplit(s, a, n);
    Associative(t, Receives(s[..a]), Receives(s[a..][..n]));
  }

  /** Reading one more byte of s. */
  lemma ReceivesStep(s: seq<Byte>, i: nat)
    requires i < |s|
    ensures Receives(s[..i + 1]) == Receives(s[..i]) + [Received(s[i])]
  {
    assert s[..i + 1][..i] == s[..i];
  }

  /** The module has sent enough for a chunk read of `size` bytes to complete:
      the 5-byte acknowledgement, then either the data up to an end-of-image
      marker within the chunk, or the whole chunk and the closing
      acknowledgement. */
  predicate ChunkInputSuffices(prev: Byte, s: seq<Byte>, size: nat)
  {
    |s| >= |RxReadJpegFileContent| &&
    ChunkReadable(prev, s[|RxReadJpegFileContent|..], size, |RxReadJpegFileContent|)
  }

  /** What one chunk read does with the bytes the module sends: whether the
      transfer goes on, the data bytes stored in the caller's buffer, how many
      bytes are read from the stream in all, and the lookback byte left for
      the next chunk. */
  datatype ChunkOutcome = ChunkOutcome(more: bool, data: seq<Byte>, consumed: nat, lookback: Byte)

  /** The chunk read as a function of the lookback byte `prev`, the bytes
      the module sends (acknowledgement first) and the requested size. */
  function ChunkExchange(prev: Byte, s: seq<Byte>, size: nat): ChunkOutcome
    requires ChunkInputSuffices(prev, s, size)
  {
    var d := s[|RxReadJpegFileContent|..];
    match FirstEoi(prev, Take(d, size))
    case Some(i) =>
      ChunkOutcome(false, d[..i + 1], |RxReadJpegFileContent| + i + 1, MarkerPrefix)
    case None =>
      ChunkOutcome(true, d[..size], |RxReadJpegFileContent| + size + |RxReadJpegFileContent|,
                   Lookback(prev, d[..size]))
  }

  /** The data of a chunk read is the prefix of what follows the
      acknowledgement; the read consumes the acknowledgement, the data and,
      when the transfer goes on, the closing acknowledgement. */
  lemma ExchangeLayout(prev: Byte, s: seq<Byte>, size: nat)
    requires ChunkInputSuffices(prev, s, size)
    ensures var o := ChunkExchange(prev, s, size);
      && |o.data| <= size && |RxReadJpegFileContent| + |o.data| <= |s|
      && o.data == s[|RxReadJpegFileContent|..][..|o.data|]
      && (o.more ==> |o.data| == size)
      && o.consumed == |RxReadJpegFileContent| + |o.data| + (if o.more then |RxReadJpegFileContent| else 0)
      && o.consumed <= |s|
  {
  }

  /** What a chunk read means on the bytes d after the acknowledgement: the
      transfer goes on exactly when no byte among the first `size` completes
      an end-of-image marker. It then delivers those `size` bytes, also reads
      the closing acknowledgement and keeps the last byte (or the old one when
      `size` is 0) as lookback. Otherwise it delivers the bytes up to and
      including the first marker's 0xD9, reads nothing after it and keeps
      0xFF as lookback. */
  lemma ExchangeMeaning(prev: Byte, s: seq<Byte>, size: nat)
    requires ChunkInputSuffices(prev, s, size)
    ensures var d := s[|RxReadJpegFileContent|..]; var o := ChunkExchange(prev, s, size);
      && (o.more <==> forall j :: 0 <= j < size && j < |d| ==> !EoiAt(prev, d, j))
      && (o.more ==> o.data == d[..size] && o.consumed == |RxReadJpegFileContent| + size + |RxReadJpegFileContent|
                     && o.lookback == Lookback(prev, d[..size]))
      && (!o.more ==> 0 < |o.data| <= size && o.data == d[..|o.data|] && EoiAt(prev, d, |o.data| - 1)
                      && (forall j :: 0 <= j < |o.data| - 1 ==> !EoiAt(prev, d, j))
                      && o.consumed == |RxReadJpegFileContent| + |o.data| && o.lookback == MarkerPrefix)
  {
    var d := s[|RxReadJpegFileContent|..];
    var w := Take(d, size);
    FirstEoiIsFirst(prev, w);
    assert forall j :: 0 <= j < |w| ==> (EoiAt(prev, w, j) <==> EoiAt(prev, d, j));
  }

  /** Storing byte i of d over the old buffer contents b0. */
  lemma StoreData(d: seq<Byte>, b0: seq<Byte>, i: nat)
    requires i < |d| && i < |b0|
    ensures (d[..i] + b0[i..])[i := d[i]] == d[..i + 1] + b0[i + 1..]
  {
  }

  /** A marker completed by byte i of a chunk ends the chunk read there. */
  lemma ExchangeStops(prev: Byte, s: seq<Byte>, d: seq<Byte>, size: nat, i: nat)
    requires ChunkInputSuffices(prev, s, size) && d == s[|RxReadJpegFileContent|..]
    requires i < size && i < |d| && FirstEoi(prev, d[..i + 1]) == Some(i)
    ensures ChunkExchange(prev, s, size) == ChunkOutcome(false, d[..i + 1], |RxReadJpegFileContent| + i + 1, MarkerPrefix)
  {
    ChunkStopsAt(prev, d, size, i);
  }

  /** A chunk of `size` bytes without a marker completes the chunk read. */
  lemma ExchangeCompletes(prev: Byte, s: seq<Byte>, d: seq<Byte>, size: nat)
    requires ChunkInputSuffices(prev, s, size) && d == s[|RxReadJpegFileContent|..]
    requires size <= |d| && FirstEoi(prev, d[..size]).None?
    ensures |d| >= size + |RxReadJpegFileContent|
    ensures ChunkExchange(prev, s, size) ==
      ChunkOutcome(true, d[..size], |RxReadJpegFileContent| + size + |RxReadJpegFileContent|, Lookback(prev, d[..size]))
  {
    ChunkComplete(prev, d, size, |RxReadJpegFileContent|);
  }

  class Lsy201 {
    /** Bytes the module has sent that the driver has not read yet. */
    var input: seq<Byte>
    /** Bytes the driver has written to the module. */
    var output: seq<Byte>
    /** The lookback byte of the chunk reader; it lives as long as the driver. */
    var last: Byte
    /** Every byte written and read, in order. */
    ghost var trace: seq<Event>

    /** A driver attached to a stream on which the module will send `stream`.
        The lookback byte starts at 0x00. */
    constructor (stream: seq<Byte>)
      ensures input == stream && output == [] && last == 0x00 && trace == []
    {
      input := stream;
      output := [];
      last := 0x00;
      trace := [];
    }

    /** Writes a frame byte by byte. */
    method Tx(bytes: seq<Byte>)
      modifies this`output, this`trace
      ensures output == old(output) + bytes
      ensures trace == old(trace) + Sends(bytes)
    {
      var k := 0;
      while k < |bytes|
        invariant 0 <= k <= |bytes|
        invariant output == old(output) + bytes[..k]
        invariant trace == old(trace) + Sends(bytes[..k])
      {
        SendsConcat(bytes[..k], [bytes[k]]);
        assert bytes[..k + 1] == bytes[..k] + [bytes[k]];
        output := output + [bytes[k]];
        trace := trace + [Sent(bytes[k])];
        k := k + 1;
      }
      assert bytes[..k] == bytes;
    }

    /** Reads one byte as soon as the module has sent it. */
    method ReadByte() returns (b: Byte)
      requires |input| > 0
      modifies this`input, this`trace
      ensures b == old(input)[0] && input == old(input)[1..]
      ensures trace == old(trace) + [Received(b)]
    {
      b := input[0];
      input := input[1..];
      trace := trace + [Received(b)];
    }

    /** Reads as many bytes as the template has and compares each with the
        template byte at its position. The comparisons are only observations
        (the driver logs them); they are returned and never acted upon. */
    method Rx(template: seq<Byte>) returns (matched: seq<bool>)
      requires |input| >= |template|
      modifies this`input, this`trace
      ensures input == old(input)[|template|..]
      ensures trace == old(trace) + Receives(old(input)[..|template|])
      ensures |matched| == |template|
      ensures forall i :: 0 <= i < |template| ==> (matched[i] <==> old(input)[i] == template[i])
    {
      matched := [];
      var k := 0;
      while k < |template|
        invariant 0 <= k <= |template|
        invariant input == old(input)[k..]
        invariant trace == old(trace) + Receives(old(input)[..k])
        invariant |matched| == k
        invariant forall i :: 0 <= i < k ==> (matched[i] <==> old(input)[i] == template[i])
      {
        var b := ReadByte();
        ReceivesStep(old(input), k);
        Associative(old(trace), Receives(old(input)[..k]), [Received(b)]);
        matched := matched + [b == template[k]];
        k := k + 1;
      }
    }

    /** Drains the bytes that have already arrived. `pending` is how many of
        the module's bytes are waiting when the drain starts. */
    method DiscardAllInput(pending: nat)
      requires pending <= |input|
      modifies this`input, this`trace
      ensures input == old(input)[pending..]
      ensures trace == old(trace) + Receives(old(input)[..pending])
    {
      ghost var s := input;
      var k := 0;
      while k < pending
        invariant 0 <= k <= pending
        invariant input == s[k..]
        invariant trace == old(trace) + Receives(s[..k])
      {
        ReceivesStep(s, k);
        Associative(old(trace), Receives(s[..k]), [Received(input[0])]);
        trace := trace + [Received(input[0])];
        input := input[1..];
        k := k + 1;
      }
    }

    /** The boot handshake: drain stale input, send the reset frame, read its
        acknowledgement, then read the boot log up to its terminator line. */
    method Reset(pending: nat)
      requires pending + |RxReset| <= |input|
      requires BootLogEnd(input[pending + |RxReset|..]).Some?
      modifies this`input, this`output, this`trace
      ensures output == old(output) + TxReset
      ensures input == old(input)[pending + |RxReset| + BootLogEnd(old(input)[pending + |RxReset|..]).value..]
      ensures trace == old(trace) + Receives(old(input)[..pending]) + Sends(TxReset)
        + Receives(old(input)[pending..][..|RxReset| + BootLogEnd(old(input)[pending + |RxReset|..]).value])
    {
      DiscardAllInput(pending);
      Tx(TxReset);
      ghost var u := input;
      ghost var t1 := trace;
      var acknowledged := Rx(RxReset);
      ghost var s := input;
      assert s == old(input)[pending + |RxReset|..];
      ghost var n := BootLogEnd(s).value;
      ReadBootLog();
      ReceivesAfter(t1, u, |RxReset|, n);
    }

    /** Reads the boot log line by line into a zero-filled 25-byte buffer,
        until `strcmp` finds the line "Init end\r\n" in it; the buffer is
        cleared after every other line. */
    method ReadBootLog()
      requires BootLogEnd(input).Some?
      modifies this`input, this`trace
      ensures input == old(input)[BootLogEnd(old(input)).value..]
      ensures trace == old(trace) + Receives(old(input)[..BootLogEnd(old(input)).value])
    {
      ghost var s := input;
      ghost var n := BootLogEnd(s).value;
      var buf := new Byte[LineCapacity](_ => 0);
      var p := 0;
      ghost var start := 0;
      while true
        modifies this`input, this`trace, buf
        invariant start + p <= |s| && input == s[start + p..]
        invariant p <= LineCapacity && LF !in s[start..start + p]
        invariant buf[..] == s[start..start + p] + Zeros(LineCapacity - p)
        invariant ScanLog(s, start, start + p) == Some(n)
        invariant trace == old(trace) + Receives(s[..start + p])
        decreases |input|
      {
        ghost var i := start + p;
        ScanFits(s, start, i);
        var b := ReadLineByte(buf, p, s, start, old(trace));
        if b == LF {
          LineInBuffer(buf[..], s, start, i);
          if CString(buf[..]) == InitEnd {
            break;
          }
          Clear(buf);
          start := i + 1;
          p := 0;
          assert buf[..] == s[start..start + p] + Zeros(LineCapacity - p);
        } else {
          LineGoesOn(s, start, i);
          p := p + 1;
        }
      }
    }

    /** `*p = read_byte()` for byte p of the line that starts at `start` in
        the boot log s, after the reads recorded in t. */
    method ReadLineByte(buf: array<Byte>, p: nat, ghost s: seq<Byte>, ghost start: nat, ghost t: seq<Event>)
      returns (b: Byte)
      requires buf.Length == LineCapacity && p < LineCapacity && start + p < |s|
      requires input == s[start + p..] && trace == t + Receives(s[..start + p])
      requires buf[..] == s[start..start + p] + Zeros(LineCapacity - p)
      modifies this`input, this`trace, buf
      ensures b == s[start + p] && input == s[start + p + 1..]
      ensures trace == t + Receives(s[..start + p + 1])
      ensures buf[..] == s[start..start + p + 1] + Zeros(LineCapacity - (p + 1))
    {
      b := ReadByte();
      ReceivesStep(s, start + p);
      Associative(t, Receives(s[..start + p]), [Received(b)]);
      buf[p] := b;
      StoreByte(s, start, p);
    }

    /** `memset(buf, 0, sizeof(buf))`. */
    static method Clear(buf: array<Byte>)
      modifies buf
      ensures buf[..] == Zeros(buf.Length)
    {
      forall j | 0 <= j < buf.Length {
        buf[j] := 0;
      }
    }

    /** Asks the module to capture a still image. */
    method TakePicture()
      requires |input| >= |RxTakePicture|
      modifies this`input, this`output, this`trace
      ensures output == old(output) + TxTakePicture
      ensures input == old(input)[|RxTakePicture|..]
      ensures trace == old(trace) + Sends(TxTakePicture) + Receives(old(input)[..|RxTakePicture|])
    {
      Tx(TxTakePicture);
      var acknowledged := Rx(RxTakePicture);
    }

    /** Asks the module for the length of the captured JPEG data: the
        acknowledgement, then the length as two big-endian bytes. */
    method ReadJpegFileSize() returns (size: U16)
      requires |input| >= |RxReadJpegFileSize| + 2
      modifies this`input, this`output, this`trace
      ensures size == U16Of(old(input)[7], old(input)[8])
      ensures output == old(output) + TxReadJpegFileSize
      ensures input == old(input)[|RxReadJpegFileSize| + 2..]
      ensures trace == old(trace) + Sends(TxReadJpegFileSize) + Receives(old(input)[..|RxReadJpegFileSize| + 2])
    {
      Tx(TxReadJpegFileSize);
      ghost var t := trace;
      var acknowledged := Rx(RxReadJpegFileSize);
      var hi := ReadByte();
      var lo := ReadByte();
      size := U16Of(hi, lo);
      ReceivesConcat(old(input)[..7], [hi, lo]);
      assert old(input)[..7] + [hi, lo] == old(input)[..9];
      assert Receives([hi, lo]) == [Received(hi), Received(lo)];
    }

    /** Releases the module from capture mode. */
    method StopTakingPictures()
      requires |input| >= |RxStopTakingPictures|
      modifies this`input, this`output, this`trace
      ensures output == old(output) + TxStopTakingPictures
      ensures input == old(input)[|RxStopTakingPictures|..]
      ensures trace == old(trace) + Sends(TxStopTakingPictures) + Receives(old(input)[..|RxStopTakingPictures|])
    {
      Tx(TxStopTakingPictures);
      var acknowledged := Rx(RxStopTakingPictures);
    }

    /** Reads `size` bytes of the image from `offset` into buf. Returns false
        as soon as a byte read completes the end-of-image marker 0xFF 0xD9,
        whose first byte may be the last byte of an earlier chunk; the rest of
        the chunk and the closing acknowledgement are then left unread.
        Otherwise reads the closing acknowledgement and returns true. */
    method ReadJpegFileContent(buf: array<Byte>, offset: U16, size: U16) returns (more: bool)
      requires size <= buf.Length
      requires ChunkInputSuffices(last, input, size)
      modifies this`input, this`output, this`trace, this`last, buf
      ensures output == old(output) + TxReadJpegFileContent + ChunkParams(offset, size)
      ensures more == ChunkExchange(old(last), old(input), size).more
      ensures input == old(input)[ChunkExchange(old(last), old(input), size).consumed..]
      ensures last == ChunkExchange(old(last), old(input), size).lookback
      ensures buf[..] == ChunkExchange(old(last), old(input), size).data + old(buf[..])[|ChunkExchange(old(last), old(input), size).data|..]
      ensures trace == old(trace) + Sends(TxReadJpegFileContent + ChunkParams(offset, size))
                         + Receives(old(input)[..ChunkExchange(old(last), old(input), size).consumed])
    {
      SendChunkRequest(offset, size);
      more := ReceiveChunk(buf, size);
    }

    /** Sends the chunk-read command followed by its parameter block. */
    method SendChunkRequest(offset: U16, size: U16)
      modifies this`output, this`trace
      ensures output == old(output) + TxReadJpegFileContent + ChunkParams(offset, size)
      ensures trace == old(trace) + Sends(TxReadJpegFileContent + ChunkParams(offset, size))
    {
      ghost var t0 := trace;
      Tx(TxReadJpegFileContent);
      var params := ChunkParams(offset, size);
      Tx(params);
      SendsConcat(TxReadJpegFileContent, params);
      Associative(t0, Sends(TxReadJpegFileContent), Sends(params));
    }

    /** The response to a chunk read: the acknowledgement, the data and, when
        no marker ended the data, the closing acknowledgement. */
    method ReceiveChunk(buf: array<Byte>, size: U16) returns (more: bool)
      requires size <= buf.Length
      requires ChunkInputSuffices(last, input, size)
      modifies this`input, this`trace, this`last, buf
      ensures more == ChunkExchange(old(last), old(input), size).more
      ensures input == old(input)[ChunkExchange(old(last), old(input), size).consumed..]
      ensures last == ChunkExchange(old(last), old(input), size).lookback
      ensures buf[..] == ChunkExchange(old(last), old(input), size).data + old(buf[..])[|ChunkExchange(old(last), old(input), size).data|..]
      ensures trace == old(trace) + Receives(old(input)[..ChunkExchange(old(last), old(input), size).consumed])
    {
      ghost var s := input;
      ghost var prev := last;
      ghost var b0 := buf[..];
      ghost var t1 := trace;
      var acknowledged := Rx(RxReadJpegFileContent);
      assert last == prev && buf[..] == b0;
      ghost var o := ChunkExchange(prev, s, size);
      ExchangeLayout(prev, s, size);
      more := ReadChunkData(buf, size, s, o);
      ReceivesAfter(t1, s, |RxReadJpegFileContent|, |o.data|);
      if more {
        ReadClosingAck(s, |RxReadJpegFileContent| + |o.data|, t1);
      }
    }

    /** Reads the acknowledgement that closes a complete chunk, the n-th
        byte onwards of the response s, after the reads recorded in t. */
    method ReadClosingAck(ghost s: seq<Byte>, ghost n: nat, ghost t: seq<Event>)
      requires n + |RxReadJpegFileContent| <= |s|
      requires input == s[n..] && trace == t + Receives(s[..n])
      modifies this`input, this`trace
      ensures input == s[n + |RxReadJpegFileContent|..]
      ensures trace == t + Receives(s[..n + |RxReadJpegFileContent|])
    {
      var closing := Rx(RxReadJpegFileContent);
      ReceivesAfter(t, s, n, |RxReadJpegFileContent|);
    }

    /** `*buf++ = read_byte()` for byte i of the data d, over the old buffer
        contents b0, after the reads recorded in t. */
    method ReadDataByte(buf: array<Byte>, i: nat, ghost d: seq<Byte>, ghost b0: seq<Byte>, ghost t: seq<Event>) returns (b: Byte)
      requires i < buf.Length && i < |d| && |b0| == buf.Length
      requires input == d[i..] && buf[..] == d[..i] + b0[i..] && trace == t + Receives(d[..i])
      modifies this`input, this`trace, buf
      ensures b == d[i] && input == d[i + 1..]
      ensures buf[..] == d[..i + 1] + b0[i + 1..]
      ensures trace == t + Receives(d[..i + 1])
    {
      b := ReadByte();
      ReceivesStep(d, i);
      Associative(t, Receives(d[..i]), [Received(b)]);
      buf[i] := b;
      StoreData(d, b0, i);
    }

    /** The data loop of a chunk read, on the bytes that follow the
        acknowledgement s[..5]: stores each byte read in buf and stops at the
        byte that completes an end-of-image marker, or after `size` bytes. */
    method ReadChunkData(buf: array<Byte>, size: U16, ghost s: seq<Byte>, ghost o: ChunkOutcome) returns (more: bool)
      requires size <= buf.Length
      requires ChunkInputSuffices(last, s, size) && input == s[|RxReadJpegFileContent|..]
      requires o == ChunkExchange(last, s, size)
      modifies this`input, this`trace, this`last, buf
      ensures more == o.more && last == o.lookback
      ensures input == old(input)[|o.data|..]
      ensures buf[..] == o.data + old(buf[..])[|o.data|..]
      ensures trace == old(trace) + Receives(o.data)
    {
      ghost var prev := last;
      ghost var d := input;
      ghost var b0 := buf[..];
      var i := 0;
      while i < size
        invariant 0 <= i <= size && i <= |d|
        invariant input == d[i..]
        invariant buf[..] == d[..i] + b0[i..]
        invariant FirstEoi(prev, d[..i]).None?
        invariant last == Lookback(prev, d[..i])
        invariant trace == old(trace) + Receives(d[..i])
      {
        ChunkByteAvailable(prev, d, size, |RxReadJpegFileContent|, i);
        ScanStep(prev, d, i);
        var b := ReadDataByte(buf, i, d, b0, old(trace));
        if last == MarkerPrefix && b == EoiCode {
          ExchangeStops(prev, s, d, size, i);
          more := false;
          return;
        }
        last := b;
        i := i + 1;
      }
      ExchangeCompletes(prev, s, d, size);
      more := true;
    }
  }
}
