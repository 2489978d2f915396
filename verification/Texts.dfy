/**
 Text the firmware formats or copies into character arrays: bounded copies that
 leave the rest of the array alone, printable filtering, hexadecimal MAC addresses
 and dotted IPv4 addresses.
 */
module Texts {
  import opened Bytes

  // ---- Writing into an array ----

  /** The array after text and a NUL are stored at its start; what lies behind stays. */
  function TextInto(dst: seq<byte>, text: seq<byte>): (r: seq<byte>)
    requires |text| < |dst|
    ensures |r| == |dst|
  {
    text + [0] + dst[|text| + 1..]
  }

  function Cut(text: seq<byte>, size: nat): (r: seq<byte>)
    ensures |r| <= size
  {
    if |text| <= size then text else text[..size]
  }

  /** A bounded copy: one byte is kept for the NUL. */
  function CopyInto(dst: seq<byte>, src: seq<byte>): (r: seq<byte>)
    requires dst != []
    ensures |r| == |dst|
  {
    TextInto(dst, Cut(src, |dst| - 1))
  }

  /** What was stored is what the array reads as, up to a NUL inside it. */
  lemma TextIntoReads(dst: seq<byte>, text: seq<byte>)
    requires |text| < |dst|
    ensures Terminated(TextInto(dst, text))
    ensures Text(TextInto(dst, text)) == Text(text)
    ensures NulFree(text) ==> Text(TextInto(dst, text)) == text
  {
    var a, k := TextInto(dst, text), CLen(text);
    assert a[|text|] == 0;
    CLenIs(a, k);
    assert a[..k] == text[..k];
    if NulFree(text) {
      assert k == |text| && text[..k] == text;
    }
  }

  lemma {:induction false} CLenIs(s: seq<byte>, k: nat)
    requires k <= |s| && (k < |s| ==> s[k] == 0) && forall i :: 0 <= i < k ==> s[i] != 0
    ensures CLen(s) == k
  {
    if k > 0 {
      CLenIs(s[1..], k - 1);
    }
  }

  lemma CutNulFree(text: seq<byte>, size: nat)
    requires NulFree(text)
    ensures NulFree(Cut(text, size))
  {
  }

  /** A C string copied into a zeroed array, leaving room for the NUL. */
  function Stored(src: seq<byte>, size: nat): (r: seq<byte>)
    requires size > 0
    ensures |r| == size
  {
    CharArray(Cut(Text(src), size - 1), size)
  }

  /** The array holds the text as far as it fits, closed by a NUL. */
  lemma StoredReads(src: seq<byte>, size: nat)
    requires size > 0
    ensures Terminated(Stored(src, size)) && Text(Stored(src, size)) == Cut(Text(src), size - 1)
  {
    TextOfCharArray(Cut(Text(src), size - 1), size);
  }

  // ---- Printable text ----

  function PrintableByte(b: byte): byte {
    if 0x20 <= b <= 0x7E then b else 0x20
  }

  function Printable(text: seq<byte>): (r: seq<byte>)
    ensures |r| == |text| && NulFree(r)
  {
    seq(|text|, i requires 0 <= i < |text| => PrintableByte(text[i]))
  }

  /** Length without the spaces at the end. */
  function TrimmedLength(text: seq<byte>): (n: nat)
    ensures n <= |text|
  {
    if text == [] || text[|text| - 1] != 0x20 then |text| else TrimmedLength(text[..|text| - 1])
  }

  /** The text a protocol field is shown as: cut to the array, made printable, spaces at the end dropped. */
  function Shown(src: seq<byte>, size: nat): (r: seq<byte>)
    requires size > 0
    ensures |r| < size && NulFree(r)
  {
    var p := Printable(Cut(src, size - 1));
    p[..TrimmedLength(p)]
  }

  /** The trimmed text ends in no space, and what was dropped was all spaces. */
  lemma {:induction false} TrimmedExact(text: seq<byte>)
    ensures var n := TrimmedLength(text);
      && (n > 0 ==> text[n - 1] != 0x20)
      && (forall i :: n <= i < |text| ==> text[i] == 0x20)
  {
    if text != [] && text[|text| - 1] == 0x20 {
      TrimmedExact(text[..|text| - 1]);
      var n := TrimmedLength(text[..|text| - 1]);
      assert n > 0 ==> text[n - 1] == text[..|text| - 1][n - 1];
      assert forall i :: n <= i < |text| - 1 ==> text[i] == text[..|text| - 1][i];
    }
  }

  /** What is shown: a text that fits, as far as it goes; other bytes as spaces, and no space at the end. */
  lemma ShownExact(src: seq<byte>, size: nat)
    requires size > 0
    ensures var r, n := Shown(src, size), if |src| < size then |src| else size - 1;
      && |r| <= n && (r != [] ==> r[|r| - 1] != 0x20)
      && (forall i :: 0 <= i < |r| ==> r[i] == if 0x20 <= src[i] <= 0x7E then src[i] else 0x20)
      && (forall i :: |r| <= i < n ==> !(0x21 <= src[i] <= 0x7E))
  {
    var p := Printable(Cut(src, size - 1));
    TrimmedExact(p);
    assert forall i :: 0 <= i < |p| ==> p[i] == PrintableByte(src[i]);
  }

  /** The array after a field is shown in it; spaces that were dropped stay behind the NUL. */
  function ShownInto(dst: seq<byte>, src: seq<byte>): (r: seq<byte>)
    requires dst != []
    ensures |r| == |dst|
  {
    var p := Printable(Cut(src, |dst| - 1));
    (p + dst[|p|..])[TrimmedLength(p) := 0]
  }

  lemma ShownIntoReads(dst: seq<byte>, src: seq<byte>)
    requires dst != []
    ensures Terminated(ShownInto(dst, src)) && Text(ShownInto(dst, src)) == Shown(src, |dst|)
  {
    var p := Printable(Cut(src, |dst| - 1));
    var r, n := ShownInto(dst, src), TrimmedLength(p);
    assert forall k :: 0 <= k < n ==> r[k] == p[k];
    CLenIs(r, n);
    assert r[..n] == p[..n];
  }

  /** Copy with filtering, then trim backwards and close with a NUL. */
  method CopyPrintable(src: seq<byte>, dst: seq<byte>) returns (r: seq<byte>)
    requires dst != []
    ensures r == ShownInto(dst, src)
  {
    var copyLength := |src|;
    if copyLength >= |dst| {
      copyLength := |dst| - 1;
    }
    r := dst;
    ghost var p := Printable(Cut(src, |dst| - 1));
    for index := 0 to copyLength
      invariant |r| == |dst|
      invariant forall k :: 0 <= k < |dst| ==> r[k] == if k < index then p[k] else dst[k]
    {
      r := r[index := PrintableByte(src[index])];
    }
    assert p[..copyLength] == p && r == p + dst[|p|..];
    while copyLength > 0 && r[copyLength - 1] == 0x20
      invariant copyLength <= |p| && TrimmedLength(p) == TrimmedLength(p[..copyLength])
    {
      assert p[..copyLength][..copyLength - 1] == p[..copyLength - 1];
      copyLength := copyLength - 1;
    }
    assert copyLength == TrimmedLength(p);
    r := r[copyLength := 0];
  }

  // ---- MAC addresses ----

  function HexDigit(v: nat): (d: byte)
    requires v < 16
    ensures d == [48, 49, 50, 51, 52, 53, 54, 55, 56, 57, 65, 66, 67, 68, 69, 70][v]
  {
    if v < 10 then 48 + v else 55 + v
  }

  function HexValue(c: byte): nat {
    if 48 <= c < 58 then c - 48 else if 65 <= c < 71 then c - 55 else 0
  }

  function Hex(b: byte): seq<byte> {
    [HexDigit(b / 16), HexDigit(b % 16)]
  }

  function HexTriple(a: byte, b: byte, c: byte): (t: seq<byte>)
    ensures |t| == 8
  {
    Hex(a) + [58] + Hex(b) + [58] + Hex(c)
  }

  /** `"%02X:%02X:%02X:%02X:%02X:%02X"` */
  function MacText(mac: seq<byte>): (t: seq<byte>)
    requires |mac| == 6
    ensures |t| == 17
  {
    HexTriple(mac[0], mac[1], mac[2]) + [58] + HexTriple(mac[3], mac[4], mac[5])
  }

  function MacOfText(t: seq<byte>): seq<byte>
    requires |t| == 17
  {
    [16 * HexValue(t[0]) + HexValue(t[1]), 16 * HexValue(t[3]) + HexValue(t[4]), 16 * HexValue(t[6]) + HexValue(t[7]),
     16 * HexValue(t[9]) + HexValue(t[10]), 16 * HexValue(t[12]) + HexValue(t[13]),
     16 * HexValue(t[15]) + HexValue(t[16])]
  }

  lemma HexReads(b: byte)
    ensures HexDigit(b / 16) != 0 && HexDigit(b % 16) != 0
    ensures 16 * HexValue(HexDigit(b / 16)) + HexValue(HexDigit(b % 16)) == b
  {
  }

  /** The text determines the address. */
  lemma MacTextReads(mac: seq<byte>)
    requires |mac| == 6
    ensures NulFree(MacText(mac)) && MacOfText(MacText(mac)) == mac
    ensures var t := MacText(mac); t[2] == t[5] == t[8] == t[11] == t[14] == 0x3A
  {
    hide HexTriple, HexValue;
    var t := MacText(mac);
    var front, back := HexTriple(mac[0], mac[1], mac[2]), HexTriple(mac[3], mac[4], mac[5]);
    assert forall i :: 0 <= i < 8 ==> t[i] == front[i] && t[9 + i] == back[i];
    assert t[2] == front[2] && t[5] == front[5] && t[8] == 0x3A && t[11] == back[2] && t[14] == back[5];
    TripleReads(mac[0], mac[1], mac[2]);
    TripleReads(mac[3], mac[4], mac[5]);
  }

  lemma TripleReads(a: byte, b: byte, c: byte)
    ensures var t := HexTriple(a, b, c);
      && NulFree(t) && t[2] == 0x3A == t[5]
      && 16 * HexValue(t[0]) + HexValue(t[1]) == a
      && 16 * HexValue(t[3]) + HexValue(t[4]) == b
      && 16 * HexValue(t[6]) + HexValue(t[7]) == c
  {
    hide HexDigit, HexValue;
    HexReads(a);
    HexReads(b);
    HexReads(c);
  }

  // ---- IPv4 addresses ----

  /** `"%u"` */
  function Decimal(b: byte): (t: seq<byte>)
    ensures 1 <= |t| <= 3
    ensures forall i :: 0 <= i < |t| ==> 48 <= t[i] <= 57
  {
    if b < 10 then [48 + b]
    else if b < 100 then [48 + b / 10, 48 + b % 10]
    else [48 + b / 100, 48 + b / 10 % 10, 48 + b % 10]
  }

  /** `"%u.%u.%u.%u"` */
  function IpText(ip: seq<byte>): (t: seq<byte>)
    requires |ip| == 4
    ensures |t| <= 15
  {
    Decimal(ip[0]) + [46] + Decimal(ip[1]) + [46] + Decimal(ip[2]) + [46] + Decimal(ip[3])
  }

  /** Value of the digits at the front, and the rest behind the first other character. */
  function ReadNumber(t: seq<byte>, sum: nat): (nat, seq<byte>)
    decreases |t|
  {
    if t == [] then (sum, [])
    else if 48 <= t[0] <= 57 then ReadNumber(t[1..], 10 * sum + (t[0] - 48) as nat)
    else (sum, t[1..])
  }

  lemma ReadDecimal(b: byte, rest: seq<byte>)
    requires rest == [] || rest[0] == 46
    ensures ReadNumber(Decimal(b) + rest, 0) == (b as nat, if rest == [] then [] else rest[1..])
  {
    var t, d := Decimal(b) + rest, Decimal(b);
    if b < 10 {
      assert t[1..] == rest;
    } else if b < 100 {
      assert t[1..][0] == d[1] && t[1..][1..] == rest;
      assert ReadNumber(t, 0) == ReadNumber(t[1..], b / 10);
      assert ReadNumber(t[1..], b / 10) == ReadNumber(rest, b as nat);
    } else {
      assert t[1..][0] == d[1] && t[1..][1..][0] == d[2] && t[1..][1..][1..] == rest;
      assert ReadNumber(t, 0) == ReadNumber(t[1..], b / 100);
      assert ReadNumber(t[1..], b / 100) == ReadNumber(t[1..][1..], b / 10);
      assert ReadNumber(t[1..][1..], b / 10) == ReadNumber(rest, b as nat);
    }
  }

  lemma ReadDotted(b: byte, rest: seq<byte>)
    ensures ReadNumber(Decimal(b) + ([46] + rest), 0) == (b as nat, rest)
  {
    hide ReadNumber;
    assert ([46] + rest)[1..] == rest;
    ReadDecimal(b, [46] + rest);
  }

  function IpOfText(t: seq<byte>): seq<nat> {
    var (a, r1) := ReadNumber(t, 0);
    var (b, r2) := ReadNumber(r1, 0);
    var (c, r3) := ReadNumber(r2, 0);
    var (d, r4) := ReadNumber(r3, 0);
    [a, b, c, d]
  }

  /** The text determines the address. */
  lemma IpTextReads(ip: seq<byte>)
    requires |ip| == 4
    ensures NulFree(IpText(ip)) && IpOfText(IpText(ip)) == ip
  {
    hide ReadNumber, Decimal;
    var d := Decimal(ip[3]);
    var c := Decimal(ip[2]) + ([46] + d);
    var b := Decimal(ip[1]) + ([46] + c);
    assert IpText(ip) == Decimal(ip[0]) + ([46] + b);
    assert d == d + [];
    ReadDecimal(ip[3], []);
    ReadDotted(ip[2], d);
    ReadDotted(ip[1], c);
    ReadDotted(ip[0], b);
  }
}
