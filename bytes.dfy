/** Bytes of WebAssembly linear memory and the little-endian unsigned
    integers that the host reads out of them. */
module Bytes {

  /** One byte of linear memory. */
  type byte = b: int | 0 <= b < 0x100

  /** An unsigned 32-bit integer: what `DataView.getUint32` yields. */
  type u32 = x: int | 0 <= x < 0x1_0000_0000

  /** 256 to the power `k`: one more than the largest value `k` bytes hold. */
  function Pow256(k: nat): (p: nat)
    ensures p > 0
  {
    if k == 0 then 1 else 0x100 * Pow256(k - 1)
  }

  /** The unsigned value of `bytes` read least significant byte first. */
  function FromLittleEndian(bytes: seq<byte>): (n: nat)
    ensures n < Pow256(|bytes|)
  {
    if bytes == [] then 0 else bytes[0] + 0x100 * FromLittleEndian(bytes[1..])
  }

  /** The `width` bytes that hold `n`, least significant byte first: the
      layout the module writes and `FromLittleEndian` inverts. */
  function ToLittleEndian(n: nat, width: nat): (bytes: seq<byte>)
    requires n < Pow256(width)
    ensures |bytes| == width
    ensures FromLittleEndian(bytes) == n
  {
    if width == 0 then []
    else
      assert n / 0x100 < Pow256(width - 1);
      [n % 0x100] + ToLittleEndian(n / 0x100, width - 1)
  }

  /** Reading is injective: the bytes are the only encoding of their value. */
  lemma {:induction false} ToFromLittleEndian(bytes: seq<byte>)
    ensures ToLittleEndian(FromLittleEndian(bytes), |bytes|) == bytes
  {
    if bytes != [] {
      var rest := FromLittleEndian(bytes[1..]);
      ToFromLittleEndian(bytes[1..]);
      var n := bytes[0] + 0x100 * rest;
      assert n % 0x100 == bytes[0] && n / 0x100 == rest;
    }
  }

  /** The value of four bytes `b0 b1 b2 b3` read least significant first. */
  function LittleEndian32(b0: int, b1: int, b2: int, b3: int): int
  {
    b0 + 0x100 * b1 + 0x1_0000 * b2 + 0x100_0000 * b3
  }

  /** Four bytes read little-endian, written out term by term. */
  lemma FromLittleEndian4(bytes: seq<byte>)
    requires |bytes| == 4
    ensures FromLittleEndian(bytes) == LittleEndian32(bytes[0], bytes[1], bytes[2], bytes[3])
    ensures FromLittleEndian(bytes) < 0x1_0000_0000
  {
    assert bytes[1..][1..] == bytes[2..];
    assert bytes[2..][1..] == bytes[3..];
    assert bytes[3..][1..] == [];
    assert FromLittleEndian(bytes[3..]) == bytes[3];
    assert FromLittleEndian(bytes[2..]) == LittleEndian32(bytes[2], bytes[3], 0, 0);
    assert FromLittleEndian(bytes[1..]) == bytes[1] + 0x100 * FromLittleEndian(bytes[2..]);
    assert Pow256(4) == 0x1_0000_0000;
  }
}
