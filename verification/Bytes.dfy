/**
 Bytes, the unsigned integer widths of the firmware, bitwise operators, and
 C strings held in fixed-size character arrays.
 */
module Bytes {

  type byte = n: int | 0 <= n < 0x100
  type u16 = n: int | 0 <= n < 0x1_0000
  type u32 = n: int | 0 <= n < 0x1_0000_0000

  /** A block of zero bytes, as `memset(p, 0, n)` leaves it. */
  function Zeros(n: nat): (s: seq<byte>)
    ensures |s| == n
    ensures forall i :: 0 <= i < n ==> s[i] == 0
  {
    seq(n, _ => 0)
  }

  // ---- Integers stored in memory ----

  function Le16(n: u16): (r: seq<byte>)
    ensures |r| == 2
  {
    [n % 0x100, n / 0x100]
  }

  function Le32(n: u32): (r: seq<byte>)
    ensures |r| == 4
  {
    [n % 0x100, n / 0x100 % 0x100, n / 0x100 / 0x100 % 0x100, n / 0x100 / 0x100 / 0x100]
  }

  function Be16(n: u16): (r: seq<byte>)
    ensures |r| == 2
  {
    [n / 0x100, n % 0x100]
  }

  function Be32(n: u32): (r: seq<byte>)
    ensures |r| == 4
  {
    [n / 0x100_0000, n / 0x1_0000 % 0x100, n / 0x100 % 0x100, n % 0x100]
  }

  function ReadLe16(s: seq<byte>): u16
    requires |s| >= 2
  {
    s[0] as int + 0x100 * s[1] as int
  }

  function ReadLe32(s: seq<byte>): u32
    requires |s| >= 4
  {
    s[0] as int + 0x100 * (s[1] as int + 0x100 * (s[2] as int + 0x100 * s[3] as int))
  }

  function ReadBe16(s: seq<byte>): u16
    requires |s| >= 2
  {
    0x100 * s[0] as int + s[1] as int
  }

  function ReadBe32(s: seq<byte>): u32
    requires |s| >= 4
  {
    0x100_0000 * s[0] as int + 0x1_0000 * s[1] as int + 0x100 * s[2] as int + s[3] as int
  }

  lemma ReadLe16OfLe16(n: u16)
    ensures ReadLe16(Le16(n)) == n
  {
  }

  lemma Le16OfReadLe16(s: seq<byte>)
    requires |s| == 2
    ensures Le16(ReadLe16(s)) == s
  {
  }

  lemma ReadBe16OfBe16(n: u16)
    ensures ReadBe16(Be16(n)) == n
    ensures forall rest: seq<byte> :: ReadBe16(Be16(n) + rest) == n
  {
  }

  lemma Be16OfReadBe16(s: seq<byte>)
    requires |s| == 2
    ensures Be16(ReadBe16(s)) == s
  {
  }

  lemma ReadBe32OfBe32(n: u32)
    ensures ReadBe32(Be32(n)) == n
  {
    var a: nat := n / 0x100;
    var b := a / 0x100;
    assert n / 0x1_0000 == b && n / 0x100_0000 == b / 0x100;
  }

  lemma Be32OfReadBe32(s: seq<byte>)
    requires |s| == 4
    ensures Be32(ReadBe32(s)) == s
  {
    var n: nat := ReadBe32(s);
    assert n / 0x100 == 0x1_0000 * s[0] as int + 0x100 * s[1] as int + s[2] as int;
    assert n / 0x1_0000 == 0x100 * s[0] as int + s[1] as int;
  }

  lemma ReadLe32OfLe32(n: u32)
    ensures ReadLe32(Le32(n)) == n
  {
  }

  lemma Le32OfReadLe32(s: seq<byte>)
    requires |s| == 4
    ensures Le32(ReadLe32(s)) == s
  {
    var n: nat := ReadLe32(s);
    assert n % 0x100 == s[0] && n / 0x100 == s[1] as int + 0x100 * (s[2] as int + 0x100 * s[3] as int);
    assert n / 0x100 % 0x100 == s[1] && n / 0x100 / 0x100 == s[2] as int + 0x100 * s[3] as int;
  }

  // ---- Bitwise operators ----

  /** Exclusive or of two unsigned integers of any width. */
  function Xor(a: nat, b: nat): nat
    decreases a + b
  {
    if a + b == 0 then 0 else 2 * Xor(a / 2, b / 2) + (if a % 2 == b % 2 then 0 else 1)
  }

  /** Bit k of n. */
  predicate Bit(n: nat, k: nat) {
    if k == 0 then n % 2 == 1 else Bit(n / 2, k - 1)
  }

  /** Bitwise and of two unsigned integers of any width. */
  function And(a: nat, b: nat): nat
    decreases a
  {
    if a == 0 then 0 else 2 * And(a / 2, b / 2) + (if a % 2 == 1 && b % 2 == 1 then 1 else 0)
  }

  /** The bits of a that are clear in b: `a & ~b`. */
  function AndNot(a: nat, b: nat): nat
    decreases a
  {
    if a == 0 then 0 else 2 * AndNot(a / 2, b / 2) + (if a % 2 == 1 && b % 2 == 0 then 1 else 0)
  }

  function Pow2(k: nat): nat {
    if k == 0 then 1 else 2 * Pow2(k - 1)
  }

  lemma {:induction false} XorBound(a: nat, b: nat, k: nat)
    requires a < Pow2(k) && b < Pow2(k)
    ensures Xor(a, b) < Pow2(k)
  {
    if k > 0 {
      XorBound(a / 2, b / 2, k - 1);
    }
  }

  lemma Pow2Of32()
    ensures Pow2(31) == 0x8000_0000 && Pow2(32) == 0x1_0000_0000
  {
    assert Pow2(8) == 0x100;
    assert Pow2(16) == 0x1_0000;
    assert Pow2(24) == 0x100_0000;
  }

  lemma {:induction false} XorZero(a: nat)
    ensures Xor(a, 0) == a && Xor(0, a) == a
  {
    if a > 0 {
      XorZero(a / 2);
    }
  }

  lemma {:induction false} XorSelf(a: nat)
    ensures Xor(a, a) == 0
  {
    if a > 0 {
      XorSelf(a / 2);
    }
  }

  /** The two recursive equations of Xor, without the special case for zero. */
  lemma XorStep(a: nat, b: nat)
    ensures Xor(a, b) / 2 == Xor(a / 2, b / 2)
    ensures Xor(a, b) % 2 == if a % 2 == b % 2 then 0 else 1
  {
  }

  lemma {:induction false} XorAssociative(a: nat, b: nat, c: nat)
    ensures Xor(Xor(a, b), c) == Xor(a, Xor(b, c))
    decreases a + b + c
  {
    if a + b + c > 0 {
      XorStep(a, b);
      XorStep(b, c);
      var l, r := Xor(a, b), Xor(b, c);
      XorStep(l, c);
      XorStep(a, r);
      XorAssociative(a / 2, b / 2, c / 2);
      assert Xor(l, c) / 2 == Xor(a, r) / 2;
      assert Xor(l, c) % 2 == Xor(a, r) % 2;
    }
  }

  lemma XorCancel(a: nat, b: nat, c: nat)
    requires Xor(a, c) == Xor(b, c)
    ensures a == b
  {
    XorAssociative(a, c, c);
    XorAssociative(b, c, c);
    XorSelf(c);
    XorZero(a);
    XorZero(b);
  }

  lemma {:induction false} XorCommutative(a: nat, b: nat)
    ensures Xor(a, b) == Xor(b, a)
    decreases a + b
  {
    if a + b > 0 {
      XorCommutative(a / 2, b / 2);
    }
  }

  lemma XorEven(a: nat, h: nat)
    ensures Xor(a, 2 * h) == 2 * Xor(a / 2, h) + a % 2
  {
    XorStep(a, 2 * h);
  }

  /** `n << k`. */
  function Shl(n: nat, k: nat): nat {
    if k == 0 then n else 2 * Shl(n, k - 1)
  }

  /** Xor of numbers that share no bit position is their sum. */
  lemma {:induction false} XorDisjoint(a: nat, b: nat, k: nat)
    requires a < Pow2(k)
    ensures Xor(a, Shl(b, k)) == a + Shl(b, k)
  {
    if k == 0 {
      XorZero(b);
    } else {
      XorDisjoint(a / 2, b, k - 1);
      XorEven(a, Shl(b, k - 1));
    }
  }

  /** A top bit that only one operand has survives the exclusive or. */
  lemma {:induction false} XorTopBit(a: nat, b: nat, k: nat)
    requires a < Pow2(k) <= b < Pow2(k + 1)
    ensures Xor(a, b) >= Pow2(k)
  {
    if k == 0 {
      assert a == 0 && b == 1;
    } else {
      XorTopBit(a / 2, b / 2, k - 1);
    }
  }

  // ---- Flag words ----

  /** The integer whose bit i is bs[i]. */
  function FromBits(bs: seq<bool>): (n: nat)
    ensures n < Pow2(|bs|)
  {
    if bs == [] then 0 else (if bs[0] then 1 else 0) + 2 * FromBits(bs[1..])
  }

  lemma {:induction false} BitOfFromBits(bs: seq<bool>, k: nat)
    ensures Bit(FromBits(bs), k) == (k < |bs| && bs[k])
  {
    if bs == [] {
      BitOfZero(k);
    } else if k > 0 {
      BitOfFromBits(bs[1..], k - 1);
    }
  }

  lemma {:induction false} BitOfZero(k: nat)
    ensures !Bit(0, k)
  {
    if k > 0 {
      BitOfZero(k - 1);
    }
  }

  /** A flag word is determined by its bits. */
  lemma {:induction false} BitsDetermine(a: nat, b: nat, width: nat)
    requires a < Pow2(width) && b < Pow2(width)
    requires forall k :: 0 <= k < width ==> Bit(a, k) == Bit(b, k)
    ensures a == b
  {
    if width > 0 {
      assert Bit(a, 0) == Bit(b, 0);
      forall k | 0 <= k < width - 1
        ensures Bit(a / 2, k) == Bit(b / 2, k)
      {
        assert Bit(a, k + 1) == Bit(b, k + 1);
      }
      BitsDetermine(a / 2, b / 2, width - 1);
    }
  }

  // ---- C strings ----

  /** `strlen`, stopping at the end of the array. */
  function CLen(s: seq<byte>): (n: nat)
    ensures n <= |s|
    ensures n < |s| ==> s[n] == 0
    ensures forall i :: 0 <= i < n ==> s[i] != 0
  {
    if s == [] || s[0] == 0 then 0 else
      var n := CLen(s[1..]);
      assert forall i :: 0 < i < n + 1 ==> s[i] == s[1..][i - 1];
      n + 1
  }

  /** The text a character array holds. */
  function Text(s: seq<byte>): seq<byte> {
    s[..CLen(s)]
  }

  /** A character array is a C string when a NUL occurs inside it. */
  predicate Terminated(s: seq<byte>) {
    CLen(s) < |s|
  }

  /** A character array of `size` bytes, zero-filled, holding `text`. */
  function CharArray(text: seq<byte>, size: nat): (s: seq<byte>)
    requires |text| <= size
    ensures |s| == size
  {
    text + Zeros(size - |text|)
  }

  predicate NulFree(text: seq<byte>) {
    forall i :: 0 <= i < |text| ==> text[i] != 0
  }

  lemma TextOfCharArray(text: seq<byte>, size: nat)
    requires |text| < size && NulFree(text)
    ensures Terminated(CharArray(text, size))
    ensures CLen(CharArray(text, size)) == |text|
    ensures Text(CharArray(text, size)) == text
  {
    var a := CharArray(text, size);
    assert a[|text|] == 0;
    assert forall i :: 0 <= i < |text| ==> a[i] == text[i] && a[i] != 0;
    assert a[..|text|] == text;
  }

  // ---- Sequences ----

  /** Equal from the start means equal in every part. */
  lemma PrefixAgrees<T>(a: seq<T>, b: seq<T>, end: nat, lo: nat, hi: nat)
    requires lo <= hi <= end <= |a| && end <= |b| && a[..end] == b[..end]
    ensures a[lo..hi] == b[lo..hi] && a[..hi] == b[..hi]
  {
    assert forall i :: 0 <= i < end ==> a[i] == a[..end][i] == b[..end][i];
  }

  /** Equal to the end likewise. */
  lemma SuffixAgrees<T>(a: seq<T>, b: seq<T>, start: nat, lo: nat, hi: nat)
    requires start <= lo <= hi <= |a| == |b| && a[start..] == b[start..]
    ensures a[lo..hi] == b[lo..hi] && a[lo..] == b[lo..]
  {
    assert forall i :: start <= i < |a| ==> a[i] == a[start..][i - start] && b[i] == b[start..][i - start];
  }

  /** A part of the middle of three. */
  lemma Middle<T>(a: seq<T>, b: seq<T>, c: seq<T>, lo: nat, hi: nat)
    requires lo <= hi <= |b|
    ensures (a + b + c)[|a| + lo..|a| + hi] == b[lo..hi]
    ensures forall k :: 0 <= k < |b| ==> (a + b + c)[|a| + k] == b[k]
  {
    var s := a + b + c;
    assert forall k :: 0 <= k < |b| ==> s[|a| + k] == b[k];
    assert s[|a| + lo..|a| + hi] == b[lo..hi];
  }

  lemma JoinSlices<T>(s: seq<T>, i: nat, j: nat, k: nat)
    requires i <= j <= k <= |s|
    ensures s[i..j] + s[j..k] == s[i..k]
  {
  }

  lemma SliceOfSlice<T>(s: seq<T>, offset: nat, end: nat, lo: nat, hi: nat)
    requires lo <= hi && offset + hi <= end <= |s|
    ensures s[offset..][lo..hi] == s[offset..end][lo..hi] == s[offset + lo..offset + hi]
  {
    var a, b, c := s[offset..][lo..hi], s[offset..end][lo..hi], s[offset + lo..offset + hi];
    assert a == c;
    assert forall k :: 0 <= k < hi - lo ==> b[k] == s[offset..end][lo + k];
    assert b == c;
  }

  lemma ConcatAssociative<T>(a: seq<T>, b: seq<T>, c: seq<T>)
    ensures (a + b) + c == a + (b + c)
  {
  }
}
