/**
 The reflected CRC-32 of the saved-neighbour file (section 8 of RFC 1952).

 The register update is a bijection on 32-bit states, and it is linear in the
 data, so four consecutive bytes can be read off the change they make.
 */
module Crc32 {
  import opened Bytes

  const POLYNOMIAL: u32 := 0xEDB8_8320
  const INITIAL: u32 := 0xFFFF_FFFF

  /** Exclusive or of two register values. */
  function Xor32(a: u32, b: u32): u32 {
    XorBound32(a, b);
    Xor(a, b)
  }

  lemma XorBound32(a: u32, b: u32)
    ensures Xor(a, b) < 0x1_0000_0000
  {
    Pow2Of32();
    XorBound(a, b, 32);
  }

  /** One turn of the inner bit loop. */
  function ShiftStep(crc: u32): u32 {
    Xor32(crc / 2, if crc % 2 == 1 then POLYNOMIAL else 0)
  }

  function ShiftSteps(crc: u32, n: nat): u32 {
    if n == 0 then crc else ShiftStep(ShiftSteps(crc, n - 1))
  }

  function CrcByte(crc: u32, b: byte): u32 {
    ShiftSteps(Xor32(crc, b), 8)
  }

  /** The register after absorbing `data`, first byte first. */
  function CrcUpdate(crc: u32, data: seq<byte>): u32 {
    if data == [] then crc
    else CrcByte(CrcUpdate(crc, data[..|data| - 1]), data[|data| - 1])
  }

  /** The finished checksum of a block. */
  function Crc(data: seq<byte>): u32 {
    Xor32(CrcUpdate(INITIAL, data), INITIAL)
  }

  method UpdateCrc(crc0: u32, data: seq<byte>) returns (crc: u32)
    ensures crc == CrcUpdate(crc0, data)
  {
    crc := crc0;
    for i := 0 to |data|
      invariant crc == CrcUpdate(crc0, data[..i])
    {
      ghost var start := crc;
      crc := Xor32(crc, data[i]);
      for bit := 0 to 8
        invariant crc == ShiftSteps(Xor32(start, data[i]), bit)
      {
        crc := Xor32(crc / 2, if crc % 2 == 1 then POLYNOMIAL else 0);
      }
      assert data[..i + 1][..i] == data[..i];
    }
    assert data[..|data|] == data;
  }

  lemma CrcUpdateNothing(crc: u32)
    ensures CrcUpdate(crc, []) == crc
  {
  }

  /** Absorbing in pieces gives the register of absorbing the whole. */
  lemma {:induction false} CrcUpdateConcat(crc: u32, a: seq<byte>, b: seq<byte>)
    ensures CrcUpdate(crc, a + b) == CrcUpdate(CrcUpdate(crc, a), b)
    decreases |b|
  {
    if b == [] {
      assert a + b == a;
    } else {
      var n := |b| - 1;
      assert (a + b)[..|a + b| - 1] == a + b[..n];
      CrcUpdateConcat(crc, a, b[..n]);
    }
  }

  // ---- The register update is a bijection ----

  lemma ShiftStepInjective(x: u32, y: u32)
    requires ShiftStep(x) == ShiftStep(y)
    ensures x == y
  {
    Pow2Of32();
    XorZero(x / 2);
    XorZero(y / 2);
    if x % 2 == y % 2 {
      XorCancel(x / 2, y / 2, if x % 2 == 1 then POLYNOMIAL else 0);
    } else if x % 2 == 1 {
      XorTopBit(x / 2, POLYNOMIAL, 31);
    } else {
      XorTopBit(y / 2, POLYNOMIAL, 31);
    }
  }

  lemma {:induction false} ShiftStepsInjective(x: u32, y: u32, n: nat)
    requires ShiftSteps(x, n) == ShiftSteps(y, n)
    ensures x == y
  {
    if n > 0 {
      ShiftStepInjective(ShiftSteps(x, n - 1), ShiftSteps(y, n - 1));
      ShiftStepsInjective(x, y, n - 1);
    }
  }

  /** Equal data take different register values to different register values. */
  lemma {:induction false} CrcUpdateInjective(x: u32, y: u32, data: seq<byte>)
    requires CrcUpdate(x, data) == CrcUpdate(y, data)
    ensures x == y
    decreases |data|
  {
    if data != [] {
      var n := |data| - 1;
      var x', y' := CrcUpdate(x, data[..n]), CrcUpdate(y, data[..n]);
      ShiftStepsInjective(Xor32(x', data[n]), Xor32(y', data[n]), 8);
      XorCancel(x', y', data[n]);
      CrcUpdateInjective(x, y, data[..n]);
    }
  }

  // ---- Linearity in the data ----

  /** A change above the bit being shifted out passes straight through a step. */
  lemma ShiftStepLinear(x: u32, c: nat)
    requires 2 * c < 0x1_0000_0000
    ensures ShiftStep(Xor32(x, 2 * c)) == Xor32(ShiftStep(x), c)
  {
    var p: u32 := if x % 2 == 1 then POLYNOMIAL else 0;
    var y := Xor32(x, 2 * c);
    XorStep(x, 2 * c);
    assert y / 2 == Xor32(x / 2, c) && y % 2 == x % 2;
    assert ShiftStep(y) == Xor(Xor(x / 2, c), p);
    XorAssociative(x / 2, c, p);
    XorCommutative(c, p);
    XorAssociative(x / 2, p, c);
  }

  lemma {:induction false} ShiftStepsLinear(x: u32, c: nat, n: nat)
    requires Shl(c, n) < 0x1_0000_0000
    ensures c < 0x1_0000_0000
    ensures ShiftSteps(Xor32(x, Shl(c, n)), n) == Xor32(ShiftSteps(x, n), c)
    decreases n
  {
    if n > 0 {
      ShlStep(c, n - 1);
      ShiftStepsLinear(x, 2 * c, n - 1);
      ShiftStepLinear(ShiftSteps(x, n - 1), c);
    }
  }

  lemma {:induction false} ShlStep(c: nat, n: nat)
    ensures Shl(2 * c, n) == Shl(c, n + 1)
  {
    if n > 0 {
      ShlStep(c, n - 1);
    }
  }

  lemma ShlByte(c: nat)
    ensures Shl(c, 8) == 0x100 * c
  {
    assert Shl(c, 1) == 2 * c;
    assert Shl(c, 3) == 8 * c;
    assert Shl(c, 5) == 32 * c;
    assert Shl(c, 7) == 128 * c;
  }

  lemma {:induction false} ShiftStepsAdd(x: u32, m: nat, n: nat)
    ensures ShiftSteps(ShiftSteps(x, m), n) == ShiftSteps(x, m + n)
  {
    if n > 0 {
      ShiftStepsAdd(x, m, n - 1);
    }
  }

  /** The little-endian value of a short run of bytes. */
  function LeValue(w: seq<byte>): (v: nat)
    ensures v < Pow2(8 * |w|)
  {
    if w == [] then 0 else
      assert 8 * |w| == 8 * |w[1..]| + 8;
      Pow2Times256(8 * |w[1..]|);
      w[0] + 0x100 * LeValue(w[1..])
  }

  lemma Pow2Times256(k: nat)
    ensures Pow2(k + 8) == 0x100 * Pow2(k)
  {
    assert Pow2(k + 2) == 4 * Pow2(k);
    assert Pow2(k + 4) == 16 * Pow2(k);
    assert Pow2(k + 6) == 64 * Pow2(k);
  }

  lemma {:induction false} Pow2Grows(j: nat, k: nat)
    requires j <= k
    ensures Pow2(j) <= Pow2(k)
  {
    if j < k {
      Pow2Grows(j, k - 1);
    }
  }

  lemma LeValueBound(w: seq<byte>)
    requires |w| <= 4
    ensures LeValue(w) < 0x1_0000_0000
  {
    Pow2Of32();
    Pow2Grows(8 * |w|, 32);
  }

  /** One byte taken off the front of a run that entered in one exclusive or. */
  lemma AbsorbByte(crc: u32, b: byte, v: nat)
    requires b + 0x100 * v < 0x1_0000_0000
    ensures ShiftSteps(Xor32(crc, b + 0x100 * v), 8) == Xor32(CrcByte(crc, b), v)
  {
    ShlByte(v);
    assert b < Pow2(8) by {
      assert Pow2(8) == 0x100;
    }
    XorDisjoint(b, v, 8);
    XorAssociative(crc, b, 0x100 * v);
    ShiftStepsLinear(Xor32(crc, b), v, 8);
  }

  /** Up to four bytes enter the register as one exclusive or. */
  lemma {:induction false} Absorb(crc: u32, w: seq<byte>)
    requires |w| <= 4
    ensures LeValue(w) < 0x1_0000_0000
    ensures CrcUpdate(crc, w) == ShiftSteps(Xor32(crc, LeValue(w)), 8 * |w|)
    decreases |w|
  {
    LeValueBound(w);
    if w == [] {
      XorZero(crc);
    } else {
      var b, rest := w[0], w[1..];
      var v: nat := LeValue(rest);
      assert LeValue(w) == b + 0x100 * v;
      CrcUpdateHead(crc, w);
      Absorb(CrcByte(crc, b), rest);
      AbsorbByte(crc, b, v);
      ShiftStepsAdd(Xor32(crc, LeValue(w)), 8, 8 * |rest|);
    }
  }

  lemma CrcUpdateHead(crc: u32, w: seq<byte>)
    requires w != []
    ensures CrcUpdate(crc, w) == CrcUpdate(CrcByte(crc, w[0]), w[1..])
  {
    assert w == w[..1] + w[1..];
    CrcUpdateConcat(crc, w[..1], w[1..]);
    assert w[..1][..0] == [];
  }

  lemma LowByte(b: byte, v: nat)
    ensures (b + 0x100 * v) % 0x100 == b && (b + 0x100 * v) / 0x100 == v
  {
  }

  lemma {:induction false} LeValueInjective(a: seq<byte>, b: seq<byte>)
    requires |a| == |b| && LeValue(a) == LeValue(b)
    ensures a == b
  {
    if a != [] {
      LowByte(a[0], LeValue(a[1..]));
      LowByte(b[0], LeValue(b[1..]));
      LeValueInjective(a[1..], b[1..]);
      assert a == [a[0]] + a[1..] && b == [b[0]] + b[1..];
    }
  }

  /** Two blocks that differ only inside a window of at most four bytes have different checksums. */
  lemma BurstDetected(pre: seq<byte>, a: seq<byte>, b: seq<byte>, post: seq<byte>)
    requires |a| == |b| <= 4 && a != b
    ensures Crc(pre + a + post) != Crc(pre + b + post)
  {
    if Crc(pre + a + post) == Crc(pre + b + post) {
      XorCancel(CrcUpdate(INITIAL, pre + a + post), CrcUpdate(INITIAL, pre + b + post), INITIAL);
      CrcUpdateConcat(INITIAL, pre + a, post);
      CrcUpdateConcat(INITIAL, pre + b, post);
      CrcUpdateInjective(CrcUpdate(INITIAL, pre + a), CrcUpdate(INITIAL, pre + b), post);
      CrcUpdateConcat(INITIAL, pre, a);
      CrcUpdateConcat(INITIAL, pre, b);
      var crc := CrcUpdate(INITIAL, pre);
      Absorb(crc, a);
      Absorb(crc, b);
      ShiftStepsInjective(Xor32(crc, LeValue(a)), Xor32(crc, LeValue(b)), 8 * |a|);
      XorCommutative(crc, LeValue(a));
      XorCommutative(crc, LeValue(b));
      XorCancel(LeValue(a), LeValue(b), crc);
      LeValueInjective(a, b);
    }
  }
}
