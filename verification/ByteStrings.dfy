/** Byte buffers and the little-endian encodings the coinbase and the block header are built from. */
module ByteStrings {
  type Byte = x: int | 0 <= x < 256

  type Bytes = seq<Byte>

  function Repeat(b: Byte, n: nat): (r: Bytes)
    ensures |r| == n
  {
    seq(n, k => b)
  }

  /** The lowest n bytes of v, least significant first. */
  function LittleEndian(v: nat, n: nat): (r: Bytes)
    ensures |r| == n
    decreases n
  {
    if n == 0 then [] else [v % 256] + LittleEndian(v / 256, n - 1)
  }

  function FromLittleEndian(b: Bytes): nat {
    if |b| == 0 then 0 else b[0] + 256 * FromLittleEndian(b[1..])
  }

  function Power256(n: nat): (p: nat)
    ensures p > 0
  {
    if n == 0 then 1 else 256 * Power256(n - 1)
  }

  lemma {:induction false} LittleEndianRoundTrip(v: nat, n: nat)
    requires v < Power256(n)
    ensures FromLittleEndian(LittleEndian(v, n)) == v
    decreases n
  {
    if n != 0 {
      LittleEndianRoundTrip(v / 256, n - 1);
      assert LittleEndian(v, n)[1..] == LittleEndian(v / 256, n - 1);
    }
  }

  /** Bitcoin's variable-length integer. */
  function VarInt(n: nat): (r: Bytes)
    ensures |r| >= 1
  {
    if n < 0xFD then [n]
    else if n <= 0xFFFF then [0xFD] + LittleEndian(n, 2)
    else if n <= 0xFFFF_FFFF then [0xFE] + LittleEndian(n, 4)
    else [0xFF] + LittleEndian(n, 8)
  }

  function VarSlice(b: Bytes): Bytes {
    VarInt(|b|) + b
  }
}
