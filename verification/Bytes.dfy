/** Bytes, and numbers in bytes with the low byte first. */
module Bytes {

  type Byte = b: int | 0 <= b < 256

  function Exp256(k: nat): (e: nat)
    ensures e > 0
  {
    if k == 0 then 1 else 256 * Exp256(k - 1)
  }

  const U32Size := 0x1_0000_0000

  /** The low `width` bytes of n. */
  function LittleEndian(n: nat, width: nat): (b: seq<Byte>)
    ensures |b| == width
  {
    if width == 0 then [] else [n % 256] + LittleEndian(n / 256, width - 1)
  }

  function FromLittle(b: seq<Byte>): (n: nat)
  {
    if b == [] then 0 else b[0] as int + 256 * FromLittle(b[1..])
  }

  lemma FromFour(b: seq<Byte>)
    requires |b| == 4
    ensures FromLittle(b) == b[0] as int + 0x100 * b[1] as int + 0x1_0000 * b[2] as int + 0x100_0000 * b[3] as int
  {
    assert FromLittle(b[1..][1..][1..]) == b[3] as int;
    assert FromLittle(b[1..][1..]) == b[2] as int + 256 * FromLittle(b[1..][1..][1..]);
    assert FromLittle(b[1..]) == b[1] as int + 256 * FromLittle(b[1..][1..]);
  }

  lemma {:induction false} ReadBack(n: nat, width: nat)
    requires n < Exp256(width)
    ensures FromLittle(LittleEndian(n, width)) == n
  {
    if width > 0 {
      ReadBack(n / 256, width - 1);
      assert LittleEndian(n, width)[1..] == LittleEndian(n / 256, width - 1);
    }
  }

  lemma {:induction false} FromLittleBound(b: seq<Byte>)
    ensures FromLittle(b) < Exp256(|b|)
  {
    if b != [] {
      FromLittleBound(b[1..]);
    }
  }

  function Zeros(n: nat): (z: seq<Byte>)
    ensures |z| == n
  {
    seq(n, i => 0)
  }

  /** A uint32_t as it is stored on the little-endian host. */
  function LE32(n: nat): (b: seq<Byte>)
    ensures |b| == 4
    ensures n < U32Size ==> FromLittle(b) == n
  {
    assert Exp256(4) == U32Size by { assert Exp256(1) == 256 && Exp256(2) == 65536; }
    if n < U32Size then ReadBack(n, 4);
      LittleEndian(n, 4)
    else LittleEndian(n, 4)
  }

  /** Exactly the numbers of 32 bits are read back. */
  lemma LE32Back(n: nat)
    ensures FromLittle(LE32(n)) == n <==> n < U32Size
  {
    FromLittleBound(LE32(n));
    assert Exp256(4) == U32Size by { assert Exp256(1) == 256 && Exp256(2) == 65536; }
  }
}
