/**
 The Internet checksum (RFC 1071) as the firmware computes it in two ways, the
 headers it is stored in, and the CDP check of it.
 */
module Checksum {
  import opened Bytes

  // ---- Ones' complement sums ----

  /** Sum of the big-endian words; an odd last byte is padded with zero. */
  function WordSum(d: seq<byte>): nat {
    if d == [] then 0 else if |d| == 1 then 256 * d[0] as int else ReadBe16(d) + WordSum(d[2..])
  }

  /** The 16-bit ones' complement value of a sum: zero only for zero. */
  function Rep(n: nat): (r: nat)
    ensures r < 0x1_0000
  {
    if n == 0 then 0 else (n - 1) % 0xFFFF + 1
  }

  function InternetChecksum(d: seq<byte>): u16 {
    0xFFFF - Rep(WordSum(d))
  }

  /** A receiver's check: the block sums to all ones. */
  predicate Resums(d: seq<byte>) {
    Rep(WordSum(d)) == 0xFFFF
  }

  lemma {:induction false} WordSumConcat(a: seq<byte>, b: seq<byte>)
    requires |a| % 2 == 0
    ensures WordSum(a + b) == WordSum(a) + WordSum(b)
  {
    if a == [] {
      assert a + b == b;
    } else {
      assert (a + b)[2..] == a[2..] + b;
      WordSumConcat(a[2..], b);
    }
  }

  lemma {:induction false} WordSumBound(d: seq<byte>)
    ensures WordSum(d) <= 0xFFFF * ((|d| + 1) / 2)
  {
    if |d| > 1 {
      WordSumBound(d[2..]);
    }
  }

  lemma WordSumOne(d: seq<byte>)
    ensures |d| == 2 ==> WordSum(d) == ReadBe16(d)
  {
    if |d| == 2 {
      assert d[2..] == [];
    }
  }

  /** One word more. */
  lemma WordSumStep(d: seq<byte>, i: nat)
    requires i % 2 == 0 && i + 2 <= |d|
    ensures WordSum(d[..i + 2]) == WordSum(d[..i]) + (256 * d[i] as int + d[i + 1] as int)
  {
    assert d[..i + 2] == d[..i] + d[i..i + 2];
    WordSumConcat(d[..i], d[i..i + 2]);
    WordSumOne(d[i..i + 2]);
  }

  /** An odd last byte. */
  lemma WordSumLast(d: seq<byte>)
    requires |d| % 2 == 1
    ensures WordSum(d) == WordSum(d[..|d| - 1]) + 256 * d[|d| - 1] as int
  {
    assert d == d[..|d| - 1] + [d[|d| - 1]];
    WordSumConcat(d[..|d| - 1], [d[|d| - 1]]);
  }

  lemma RepSmall(n: nat)
    requires n <= 0xFFFF
    ensures Rep(n) == n
  {
  }

  lemma RepShift(n: nat, k: nat)
    requires n > 0
    ensures Rep(n + 0xFFFF * k) == Rep(n)
  {
    var m := n - 1;
    assert n + 0xFFFF * k - 1 == m + 0xFFFF * k;
    assert (m + 0xFFFF * k) % 0xFFFF == m % 0xFFFF;
  }

  /** Adding the carry back keeps the ones' complement value. */
  lemma RepFold(n: nat)
    ensures Rep(n % 0x1_0000 + n / 0x1_0000) == Rep(n)
  {
    var q, r := n / 0x1_0000, n % 0x1_0000;
    assert n == (q + r) + 0xFFFF * q;
    if q + r > 0 {
      RepShift(q + r, q);
    }
  }

  lemma RepAdd(a: nat, b: nat)
    ensures Rep(Rep(a) + b) == Rep(a + b)
  {
    if a > 0 {
      var q := (a - 1) / 0xFFFF;
      assert a == Rep(a) + 0xFFFF * q;
      RepShift(Rep(a) + b, q);
    }
  }

  /** The value is all ones exactly for the positive multiples of 65535. */
  lemma RepFull(n: nat)
    ensures Rep(n) == 0xFFFF <==> n > 0 && n % 0xFFFF == 0
  {
    if n > 0 {
      var q, r := (n - 1) / 0xFFFF, (n - 1) % 0xFFFF;
      assert n == 0xFFFF * q + (r + 1);
      if r + 1 == 0xFFFF {
        assert n == 0xFFFF * (q + 1);
        assert (0xFFFF * (q + 1)) % 0xFFFF == 0;
      } else {
        assert (0xFFFF * q + (r + 1)) % 0xFFFF == r + 1;
      }
    }
  }

  // ---- The two checksum functions ----

  /** Fold the carries of a 32-bit sum until none is left. */
  method FoldCarries(start: u32) returns (sum: u32)
    ensures sum == Rep(start)
  {
    sum := start;
    while sum / 0x1_0000 != 0
      invariant Rep(sum) == Rep(start)
      decreases sum
    {
      RepFold(sum);
      sum := sum % 0x1_0000 + sum / 0x1_0000;
    }
    RepSmall(sum);
  }

  /** Sum first, fold at the end; no 32-bit overflow for any 16-bit length. */
  method CalculateChecksum(data: seq<byte>) returns (checksum: u16)
    requires |data| <= 0xFFFF
    ensures checksum == InternetChecksum(data)
  {
    assert WordSum(data[..0]) == 0;
    hide WordSum, Rep;
    var sum: u32 := 0;
    var i := 0;
    while i < |data| - 1
      invariant i % 2 == 0 && i <= |data| && sum == WordSum(data[..i])
    {
      WordSumStep(data, i);
      WordSumBound(data[..i + 2]);
      sum := sum + (256 * data[i] as int + data[i + 1] as int);
      i := i + 2;
    }
    if |data| % 2 == 1 {
      assert i == |data| - 1;
      WordSumLast(data);
      WordSumBound(data);
      sum := sum + 256 * data[|data| - 1] as int;
    } else {
      assert data[..i] == data;
    }
    sum := FoldCarries(sum);
    checksum := 0xFFFF - sum;
  }

  /** Add the carry back after every word. */
  method CalculateChecksumIpv4(data: seq<byte>, words: nat) returns (checksum: u16)
    requires 2 * words <= |data|
    ensures checksum == InternetChecksum(data[..2 * words])
  {
    assert WordSum(data[..0]) == 0;
    RepSmall(0);
    hide WordSum, Rep;
    var sum: u32 := 0;
    for i := 0 to words
      invariant sum <= 0xFFFF && sum == Rep(WordSum(data[..2 * i]))
    {
      WordSumStep(data, 2 * i);
      CarryStep(WordSum(data[..2 * i]), 256 * data[2 * i] as int + data[2 * i + 1] as int, sum);
      sum := sum + (256 * data[2 * i] as int + data[2 * i + 1] as int);
      if sum / 0x1_0000 % 2 == 1 {
        sum := sum % 0x1_0000 + 1;
      }
    }
    checksum := 0xFFFF - sum;
  }

  /** One word added to the ones' complement value of a sum, and its carry added back. */
  lemma CarryStep(total: nat, word: nat, sum: nat)
    requires sum == Rep(total) <= 0xFFFF && word <= 0xFFFF
    ensures var s := sum + word;
      var next := if s / 0x1_0000 % 2 == 1 then s % 0x1_0000 + 1 else s;
      next <= 0xFFFF && next == Rep(total + word)
  {
    hide Rep;
    RepAdd(total, word);
    RepFold(sum + word);
    var s := sum + word;
    assert s < 0x2_0000;
    RepSmall(s % 0x1_0000 + s / 0x1_0000);
  }

  /** On an even-length buffer the two agree, whatever the bytes. */
  method ChecksumsAgree(data: seq<byte>) returns (a: u16, b: u16)
    requires |data| <= 0xFFFF && |data| % 2 == 0
    ensures a == b == InternetChecksum(data)
  {
    a := CalculateChecksum(data);
    b := CalculateChecksumIpv4(data, |data| / 2);
    assert data[..2 * (|data| / 2)] == data;
  }

  // ---- A checksum stored in the block it covers ----

  /** The block with the two bytes behind `pre` replaced. */
  function WithField(pre: seq<byte>, field: u16, post: seq<byte>): seq<byte> {
    pre + (Be16(field) + post)
  }

  lemma WithFieldSum(pre: seq<byte>, field: u16, post: seq<byte>)
    requires |pre| % 2 == 0
    ensures WordSum(WithField(pre, field, post)) == WordSum(pre) + field + WordSum(post)
  {
    WordSumConcat(pre, Be16(field) + post);
    WordSumConcat(Be16(field), post);
    WordSumOne(Be16(field));
    assert ReadBe16(Be16(field)) == field;
  }

  /** Storing the checksum of the block with a blank field makes the block sum to all ones. */
  lemma ChecksumFills(pre: seq<byte>, post: seq<byte>)
    requires |pre| % 2 == 0
    ensures Resums(WithField(pre, InternetChecksum(WithField(pre, 0, post)), post))
  {
    var blank := WithField(pre, 0, post);
    var total, c := WordSum(blank), InternetChecksum(blank);
    WithFieldSum(pre, 0, post);
    WithFieldSum(pre, c, post);
    RepAdd(total, c);
    assert Rep(total) + c == 0xFFFF;
    RepSmall(0xFFFF);
  }

  /** No other field value does, except that all zeros and all ones stand for the same number. */
  lemma ChecksumUnique(pre: seq<byte>, field: u16, post: seq<byte>)
    requires |pre| % 2 == 0 && Resums(WithField(pre, field, post))
    ensures var c := InternetChecksum(WithField(pre, 0, post)); field == c || (c == 0 && field == 0xFFFF)
  {
    hide WordSum, WithField, Rep;
    WithFieldSum(pre, 0, post);
    WithFieldSum(pre, field, post);
    FieldUnique(WordSum(WithField(pre, 0, post)), field);
  }

  lemma FieldUnique(total: nat, field: u16)
    requires Rep(total + field) == 0xFFFF
    ensures field as int == 0xFFFF - Rep(total) || (Rep(total) == 0xFFFF && field == 0xFFFF)
  {
    hide Rep;
    RepAdd(total, field);
    RepFull(Rep(total) + field);
    var n := Rep(total) + field;
    assert n < 3 * 0xFFFF && n % 0xFFFF == 0 && n > 0;
  }

  // ---- The CDP check ----

  /** The PDU is summed with its checksum in place; a lone last byte is the high half of a word. */
  method CdpChecksumIsValid(data: seq<byte>) returns (valid: bool)
    requires |data| <= 0xFFFF
    ensures valid <==> WordSum(data) > 0 && WordSum(data) % 0xFFFF == 0
  {
    var sum: u32 := 0;
    var position, length := 0, |data|;
    while length >= 2
      invariant position % 2 == 0 && 0 <= length && position + length == |data|
      invariant sum == WordSum(data[..position])
    {
      WordSumStep(data, position);
      WordSumBound(data[..position + 2]);
      sum := sum + (256 * data[position] as int + data[position + 1] as int);
      position, length := position + 2, length - 2;
    }
    if length == 1 {
      WordSumLast(data);
      WordSumBound(data);
      sum := sum + 256 * data[position] as int;
    } else {
      assert data[..position] == data;
    }
    RepFull(sum);
    sum := FoldCarries(sum);
    valid := sum == 0xFFFF;
  }
}
