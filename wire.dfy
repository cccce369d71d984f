/** Bytes on the serial line, the fixed command frames of the LSY201 camera,
    and the big-endian 16-bit fields used by the size query and the chunk
    read. */
module Wire {

  /** One octet on the serial line (`uint8_t`). */
  type Byte = x: int | 0 <= x < 0x100

  /** An unsigned 16-bit value (`uint16_t`). */
  type U16 = x: int | 0 <= x < 0x1_0000

  datatype Option<T> = None | Some(value: T)

  const LF: Byte := 0x0A
  const CR: Byte := 0x0D

  // Request frames and the acknowledgement templates the module answers with.
  const TxReset: seq<Byte> := [0x56, 0x00, 0x26, 0x00]
  const RxReset: seq<Byte> := [0x76, 0x00, 0x26, 0x00]

  const TxTakePicture: seq<Byte> := [0x56, 0x00, 0x36, 0x01, 0x00]
  const RxTakePicture: seq<Byte> := [0x76, 0x00, 0x36, 0x00, 0x00]

  const TxReadJpegFileSize: seq<Byte> := [0x56, 0x00, 0x34, 0x01, 0x00]
  const RxReadJpegFileSize: seq<Byte> := [0x76, 0x00, 0x34, 0x00, 0x04, 0x00, 0x00]

  const TxReadJpegFileContent: seq<Byte> := [0x56, 0x00, 0x32, 0x0C, 0x00, 0x0A, 0x00, 0x00]
  const RxReadJpegFileContent: seq<Byte> := [0x76, 0x00, 0x32, 0x00, 0x00]

  const TxStopTakingPictures: seq<Byte> := [0x56, 0x00, 0x36, 0x01, 0x03]
  const RxStopTakingPictures: seq<Byte> := [0x76, 0x00, 0x36, 0x00, 0x00]

  /** A request frame begins with 0x56 0x00 followed by its command byte;
      the acknowledgement the module answers with begins with 0x76 0x00,
      echoes the command byte and has 0x00 as its fourth byte. */
  predicate Answers(tx: seq<Byte>, rx: seq<Byte>)
  {
    |tx| >= 4 && |rx| >= 4 && tx[0] == 0x56 && rx[0] == 0x76
    && tx[1] == 0x00 && rx[1] == 0x00 && rx[2] == tx[2] && rx[3] == 0x00
  }

  /** Every acknowledgement template answers its request frame, and the
      frames have the lengths the driver sends and reads. */
  lemma FrameLayout()
    ensures Answers(TxReset, RxReset) && |TxReset| == 4 && |RxReset| == 4
    ensures Answers(TxTakePicture, RxTakePicture) && |TxTakePicture| == 5 && |RxTakePicture| == 5
    ensures Answers(TxReadJpegFileSize, RxReadJpegFileSize)
      && |TxReadJpegFileSize| == 5 && |RxReadJpegFileSize| == 7
    ensures Answers(TxReadJpegFileContent, RxReadJpegFileContent)
      && |TxReadJpegFileContent| == 8 && |RxReadJpegFileContent| == 5
    ensures Answers(TxStopTakingPictures, RxStopTakingPictures)
      && |TxStopTakingPictures| == 5 && |RxStopTakingPictures| == 5
  {
  }

  /** `(v & 0xFF00) >> 8` on a 16-bit unsigned value: the number of whole
      multiples of 256 in v. */
  function HighByte(v: U16): (r: Byte)
    ensures r * 0x100 <= v < r * 0x100 + 0x100
  {
    v / 0x100
  }

  /** `v & 0x00FF` on a 16-bit unsigned value: the byte that differs from v
      by a multiple of 256. */
  function LowByte(v: U16): (r: Byte)
    ensures (v - r) % 0x100 == 0
  {
    v % 0x100
  }

  /** `((uint16_t) hi << 8) | lo`: the big-endian value of two received bytes.
      Splitting the result again gives back both bytes. */
  function U16Of(hi: Byte, lo: Byte): (v: U16)
    ensures HighByte(v) == hi && LowByte(v) == lo
  {
    hi * 0x100 + lo
  }

  /** Every 16-bit value is the big-endian composition of its two bytes, so
      the encoding of the chunk parameters loses nothing. */
  lemma SplitThenJoin(v: U16)
    ensures U16Of(HighByte(v), LowByte(v)) == v
  {
  }

  /** The 8-byte parameter block that follows the chunk-read command. */
  function ChunkParams(offset: U16, size: U16): (p: seq<Byte>)
    ensures |p| == 8
  {
    [HighByte(offset), LowByte(offset), 0x00, 0x00, HighByte(size), LowByte(size), 0x00, 0x0A]
  }

  /** The parameter block carries the big-endian offset, two zero bytes, the
      big-endian length and the fixed transfer-interval bytes 0x00 0x0A;
      decoding bytes 0-1 and 4-5 gives back the offset and the length. */
  lemma ChunkParamsLayout(offset: U16, size: U16)
    ensures var p := ChunkParams(offset, size);
      && U16Of(p[0], p[1]) == offset && U16Of(p[4], p[5]) == size
      && p[2] == 0x00 && p[3] == 0x00 && p[6] == 0x00 && p[7] == 0x0A
  {
    SplitThenJoin(offset);
    SplitThenJoin(size);
  }

  /** Two different requests never share a parameter block. */
  lemma ChunkParamsInjective(o1: U16, s1: U16, o2: U16, s2: U16)
    requires ChunkParams(o1, s1) == ChunkParams(o2, s2)
    ensures o1 == o2 && s1 == s2
  {
    ChunkParamsLayout(o1, s1);
    ChunkParamsLayout(o2, s2);
  }
}
