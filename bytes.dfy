/** Value types shared by the compiler and the interpreters: signed 8-bit tape
    cells (a C `char`, signed on the reference platform), unsigned bytes of the
    compiled instruction stream, and the 16-bit two's-complement jump field
    that follows every bracket in that stream (little-endian, as a `short`
    is laid out on the reference platform). */
module Bytes {

  /** One tape cell: a signed `char`. */
  type Cell = c: int | -128 <= c < 128

  /** One byte of the compiled instruction stream. */
  type Byte = b: int | 0 <= b < 256

  /** A C `short`. */
  type Short = v: int | -32768 <= v < 32768

  /** Number of cells on the tape (BF_ARRAY_SIZE). */
  const TapeSize: int := 32768

  /** Conversion of an `int` to a signed `char`: the value congruent to `x`
      modulo 256 in -128..127. This is the wrap-around of `++`/`--` on a cell
      and of the `(char)` casts in the source. */
  function ToCell(x: int): (c: Cell)
    ensures (x - c) % 256 == 0
    ensures -128 <= x < 128 ==> c == x
  {
    (x + 128) % 256 - 128
  }

  /** The unsigned byte a cell holds (`(unsigned char)` of a `char`). */
  function ByteOf(c: Cell): (b: Byte)
    ensures ToCell(b) == c
    ensures c >= 0 ==> b == c
  {
    if c < 0 then c + 256 else c
  }

  /** Incrementing a cell wraps exactly at the top of the signed range. */
  lemma IncrementWraps(c: Cell)
    ensures ToCell(c + 1) == if c == 127 then -128 else c + 1
    ensures ToCell(c - 1) == if c == -128 then 127 else c - 1
  {
  }

  /** Little-endian two's-complement layout of a `short`: low byte first. */
  function EncodeShort(v: Short): (r: seq<Byte>)
    ensures |r| == 2
  {
    var u := if v < 0 then v + 65536 else v;
    [u % 256, u / 256]
  }

  /** The `short` stored in the two bytes `lo`, `hi`. */
  function DecodeShort(lo: Byte, hi: Byte): Short
  {
    var u := lo + 256 * hi;
    if u >= 32768 then u - 65536 else u
  }

  /** Decoding what was encoded gives the value back. */
  lemma DecodeEncode(v: Short)
    ensures DecodeShort(EncodeShort(v)[0], EncodeShort(v)[1]) == v
  {
  }

  /** Every pair of bytes is the encoding of exactly one `short`. */
  lemma EncodeDecode(lo: Byte, hi: Byte)
    ensures EncodeShort(DecodeShort(lo, hi)) == [lo, hi]
  {
  }

  /** The `short` stored at `code[p]`, `code[p+1]` (the read `*(short*)&code[p]`). */
  function FieldAt(code: seq<Byte>, p: int): Short
    requires 0 <= p && p + 1 < |code|
  {
    DecodeShort(code[p], code[p + 1])
  }

  /** The buffer after the store `*(short*)&out[p] = v`. */
  function StoreShort(out: seq<Byte>, p: int, v: Short): (r: seq<Byte>)
    requires 0 <= p && p + 1 < |out|
    ensures |r| == |out|
    ensures FieldAt(r, p) == v
    ensures forall q :: 0 <= q < |out| && q != p && q != p + 1 ==> r[q] == out[q]
  {
    DecodeEncode(v);
    out[p := EncodeShort(v)[0]][p + 1 := EncodeShort(v)[1]]
  }

  /** A tape of `n` zero cells. */
  function ZeroCells(n: nat): (r: seq<Cell>)
    ensures |r| == n && forall a :: 0 <= a < n ==> r[a] == 0
  {
    seq(n, _ => 0)
  }
}
