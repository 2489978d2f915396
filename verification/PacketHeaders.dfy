/**
 The IPv4, ICMP and TCP header builders. Each fills a caller's buffer in place, and
 every header it builds sums, with what its checksum covers, to all ones.
 */
module PacketHeaders {
  import opened Bytes
  import opened Checksum

  /** Store bytes at an offset. */
  method Put(buffer: array<byte>, at: nat, data: seq<byte>)
    requires at + |data| <= buffer.Length
    modifies buffer
    ensures buffer[at..at + |data|] == data
    ensures forall k :: 0 <= k < |data| ==> buffer[at + k] == data[k]
    ensures forall i :: 0 <= i < buffer.Length && !(at <= i < at + |data|) ==> buffer[i] == old(buffer[i])
    ensures buffer[..at] == old(buffer[..at]) && buffer[at + |data|..] == old(buffer[at + |data|..])
  {
    for i := 0 to |data|
      invariant forall k :: 0 <= k < i ==> buffer[at + k] == data[k]
      invariant forall k :: 0 <= k < buffer.Length && !(at <= k < at + i) ==> buffer[k] == old(buffer[k])
    {
      buffer[at + i] := data[i];
    }
  }

  /** Store bytes behind those already stored from `base` on. */
  method PutAfter(buffer: array<byte>, at: nat, data: seq<byte>, ghost base: nat, ghost before: seq<byte>)
    requires base <= at && at + |data| <= buffer.Length && buffer[base..at] == before
    modifies buffer
    ensures buffer[base..at + |data|] == before + data
    ensures buffer[..at] == old(buffer[..at]) && buffer[at + |data|..] == old(buffer[at + |data|..])
  {
    ghost var was := buffer[..];
    Put(buffer, at, data);
    PrefixAgrees(buffer[..], was, at, base, at);
    JoinSlices(buffer[..], base, at, at + |data|);
  }

  // ---- IPv4 ----

  /** The header's bytes around the checksum field. */
  function Ipv4Front(length: u16, id: u16, flags: u16, ttl: byte, protocol: byte): (s: seq<byte>)
    ensures |s| == 10
  {
    [0x45, 0] + Be16(length) + Be16(id) + Be16(flags) + [ttl, protocol]
  }

  /** A header whose checksum field holds the checksum of the header with a blank field. */
  function Ipv4Header(protocol: byte, dataLength: u16, src: seq<byte>, dst: seq<byte>, id: u16, flags: u16,
                      ttl: byte): (h: seq<byte>)
    requires |src| == 4 && |dst| == 4
    ensures |h| == 20
  {
    var front := Ipv4Front((20 + dataLength) % 0x1_0000, id, flags, ttl, protocol);
    WithField(front, InternetChecksum(WithField(front, 0, src + dst)), src + dst)
  }

  /** Where the fields of the header lie (section 3.1 of RFC 791). */
  lemma Ipv4Fields(protocol: byte, dataLength: u16, src: seq<byte>, dst: seq<byte>, id: u16, flags: u16, ttl: byte)
    requires |src| == 4 && |dst| == 4
    ensures var h := Ipv4Header(protocol, dataLength, src, dst, id, flags, ttl);
      && h[0] == 0x45 && h[1] == 0 && h[2..4] == Be16((20 + dataLength) % 0x1_0000) && h[4..6] == Be16(id)
      && h[6..8] == Be16(flags) && h[8] == ttl && h[9] == protocol && h[12..16] == src && h[16..20] == dst
  {
    hide InternetChecksum;
    var h, front := Ipv4Header(protocol, dataLength, src, dst, id, flags, ttl),
      Ipv4Front((20 + dataLength) % 0x1_0000, id, flags, ttl, protocol);
    assert h[..10] == front;
    assert front[2..4] == Be16((20 + dataLength) % 0x1_0000) && front[4..6] == Be16(id) && front[6..8] == Be16(flags);
    SliceOfSlice(h, 0, 10, 2, 4);
    SliceOfSlice(h, 0, 10, 4, 6);
    SliceOfSlice(h, 0, 10, 6, 8);
    assert h[0] == front[0] && h[1] == front[1] && h[8] == front[8] && h[9] == front[9];
  }

  lemma Ipv4HeaderResums(protocol: byte, dataLength: u16, src: seq<byte>, dst: seq<byte>, id: u16, flags: u16,
                         ttl: byte)
    requires |src| == 4 && |dst| == 4
    ensures Resums(Ipv4Header(protocol, dataLength, src, dst, id, flags, ttl))
  {
    ChecksumFills(Ipv4Front((20 + dataLength) % 0x1_0000, id, flags, ttl, protocol), src + dst);
  }

  method SetIpv4Header(buffer: array<byte>, at: nat, protocol: byte, dataLength: u16, src: seq<byte>, dst: seq<byte>,
                       id: u16, flags: u16, ttl: byte)
    requires at + 20 <= buffer.Length && |src| == 4 && |dst| == 4
    modifies buffer
    ensures buffer[at..at + 20] == Ipv4Header(protocol, dataLength, src, dst, id, flags, ttl)
    ensures Resums(buffer[at..at + 20])
    ensures forall i :: 0 <= i < buffer.Length && !(at <= i < at + 20) ==> buffer[i] == old(buffer[i])
  {
    hide InternetChecksum, Resums;
    var front := Ipv4Front((20 + dataLength) % 0x1_0000, id, flags, ttl, protocol);
    Put(buffer, at, Zeros(20));
    assert buffer[at + 10] == Zeros(20)[10] && buffer[at + 11] == Zeros(20)[11];
    Put(buffer, at, front);
    Put(buffer, at + 16, dst);
    label Addressed:
    Put(buffer, at + 12, src);
    assert buffer[at..at + 10] == front && buffer[at + 10..at + 12] == [0, 0];
    assert buffer[at + 16..at + 20] == old@Addressed(buffer[at + 16..at + 20]);
    Assembled(buffer[..], at, front, [0, 0], src, dst);
    var checksum := CalculateChecksumIpv4(buffer[at..at + 20], 10);
    assert buffer[at..at + 20][..20] == buffer[at..at + 20];
    label Summed:
    Put(buffer, at + 10, [checksum / 0x100, checksum % 0x100]);
    assert buffer[at..at + 10] == old@Summed(buffer[at..at + 10]);
    assert buffer[at + 12..at + 16] == old@Summed(buffer[at + 12..at + 16]);
    assert buffer[at + 16..at + 20] == old@Summed(buffer[at + 16..at + 20]);
    Assembled(buffer[..], at, front, Be16(checksum), src, dst);
    Ipv4HeaderResums(protocol, dataLength, src, dst, id, flags, ttl);
  }

  lemma Assembled(b: seq<byte>, at: nat, front: seq<byte>, field: seq<byte>, src: seq<byte>, dst: seq<byte>)
    requires |front| == 10 && |field| == 2 && |src| == 4 && |dst| == 4 && at + 20 <= |b|
    requires b[at..at + 10] == front && b[at + 10..at + 12] == field && b[at + 12..at + 16] == src &&
      b[at + 16..at + 20] == dst
    ensures b[at..at + 20] == front + (field + (src + dst))
  {
    assert b[at..at + 20] == b[at..at + 10] + (b[at + 10..at + 12] + (b[at + 12..at + 16] + b[at + 16..at + 20]));
  }

  // ---- UDP ----

  function UdpHeader(source: u16, destination: u16, length: u16): (h: seq<byte>)
    ensures |h| == 8
  {
    Be16(source) + Be16(destination) + Be16(length) + [0, 0]
  }

  lemma UdpFields(source: u16, destination: u16, length: u16)
    ensures var h := UdpHeader(source, destination, length);
      h[0..2] == Be16(source) && h[2..4] == Be16(destination) && h[4..6] == Be16(length) && h[6] == 0 == h[7]
  {
  }

  // ---- Ethernet ----

  function EthernetHeader(destination: seq<byte>, source: seq<byte>, kind: u16): (h: seq<byte>)
    requires |destination| == 6 && |source| == 6
    ensures |h| == 14
  {
    destination + source + Be16(kind)
  }

  // ---- ICMP ----

  /** The checksum of header and data with the checksum field blank, over a temporary copy. */
  method IcmpCalculateChecksum(header: array<byte>, data: seq<byte>) returns (checksum: u16)
    requires header.Length >= 8 && |data| <= 0xFFFF - 8
    ensures checksum == InternetChecksum(WithField(header[..2], 0, header[4..8] + data))
  {
    var temp := header[..2] + [0, 0] + header[4..8] + data;
    assert temp == WithField(header[..2], 0, header[4..8] + data);
    checksum := CalculateChecksum(temp);
  }

  method SetIcmpHeader(buffer: array<byte>, kind: byte, code: byte, identifier: u16, sequence: u16, data: seq<byte>)
    requires buffer.Length >= 8 && |data| <= 0xFFFF - 8
    modifies buffer
    ensures Resums(buffer[..8] + data)
    ensures buffer[..2] == [kind, code] && buffer[4..8] == Be16(identifier) + Be16(sequence)
    ensures buffer[8..] == old(buffer[8..])
  {
    Put(buffer, 0, Zeros(8));
    buffer[0], buffer[1] := kind, code;
    Put(buffer, 4, Be16(identifier));
    Put(buffer, 6, Be16(sequence));
    assert buffer[..2] == [kind, code] && buffer[4..8] == Be16(identifier) + Be16(sequence);
    ghost var front, rest := buffer[..2], buffer[4..8];
    var checksum := IcmpCalculateChecksum(buffer, data);
    ChecksumFills(front, rest + data);
    Put(buffer, 2, [checksum / 0x100, checksum % 0x100]);
    assert buffer[..2] == front && buffer[2..4] == Be16(checksum) && buffer[4..8] == rest;
    assert buffer[..8] + data == WithField(front, checksum, rest + data);
  }

  // ---- TCP ----

  const TCP_OPTIONS := 50
  const TCP_SYN: u16 := 2
  const TCP_FIN: u16 := 1
  const TCP_ACK: u16 := 16

  /** The header up to the checksum field. */
  function TcpFront(source: u16, target: u16, sequence: u32, ack: u32, offsetAndFlags: u16, window: u16): (s: seq<byte>)
    ensures |s| == 16
  {
    Be16(source) + Be16(target) + Be32(sequence) + Be32(ack) + Be16(offsetAndFlags) + Be16(window)
  }

  /** Where the fields lie (section 3.1 of RFC 9293); the data offset counts words, in the four highest bits. */
  lemma TcpFields(source: u16, target: u16, sequence: u32, ack: u32, words: nat, flags: nat, window: u16)
    requires words < 16 && flags < 0x1000
    ensures var h := TcpFront(source, target, sequence, ack, 0x1000 * words + flags, window);
      && h[0..2] == Be16(source) && h[2..4] == Be16(target) && h[4..8] == Be32(sequence) && h[8..12] == Be32(ack)
      && h[12..14] == Be16(0x1000 * words + flags) && h[14..16] == Be16(window)
      && h[12] as nat / 16 == words && (flags < 0x100 ==> h[13] == flags)
  {
    var a, b, c, d := Be16(source), Be16(target), Be32(sequence), Be32(ack);
    var e, f := Be16(0x1000 * words + flags), Be16(window);
    SixParts(a, b, c, d, e, f);
    assert TcpFront(source, target, sequence, ack, 0x1000 * words + flags, window) == a + b + c + d + e + f;
    assert (0x1000 * words + flags) / 0x100 == 16 * words + flags / 0x100;
  }

  lemma SixParts(a: seq<byte>, b: seq<byte>, c: seq<byte>, d: seq<byte>, e: seq<byte>, f: seq<byte>)
    requires |a| == 2 && |b| == 2 && |c| == 4 && |d| == 4 && |e| == 2 && |f| == 2
    ensures var h := a + b + c + d + e + f;
      && h[0..2] == a && h[2..4] == b && h[4..8] == c && h[8..12] == d && h[12..14] == e && h[14..16] == f
      && h[12] == e[0] && h[13] == e[1]
  {
  }

  /** Fill the fixed 20 bytes, for a header without options; flags are below the data offset's bits. */
  method CreateTcpHeader(header: array<byte>, source: u16, target: u16, sequence: u32, ack: u32,
                         flags: u16, window: u16, urgent: u16)
    requires header.Length >= 20 && flags < 0x1000
    modifies header
    ensures header[..16] == TcpFront(source, target, sequence, ack, 0x5000 + flags, window)
    ensures header[16..18] == [0, 0] && header[18..20] == Be16(urgent)
    ensures header[20..] == old(header[20..])
  {
    hide Be16, Be32;
    ghost var was := header[..];
    var front := Be16(source) + Be16(target) + Be32(sequence) + Be32(ack);
    assert header[0..0] == [] && [] + front == front;
    PutAfter(header, 0, front, 0, []);
    ghost var first := header[..];
    PutAfter(header, 12, Be16(0x5000 + flags), 0, front);
    ghost var second := header[..];
    PutAfter(header, 14, Be16(window), 0, front + Be16(0x5000 + flags));
    ghost var fixed := header[..];
    assert fixed[0..16] == fixed[..16];
    Put(header, 16, [0, 0]);
    ghost var blank := header[..];
    Put(header, 18, Be16(urgent));
    PrefixAgrees(header[..], blank, 18, 16, 18);
    PrefixAgrees(header[..], blank, 18, 0, 16);
    SuffixAgrees(first, was, 12, 20, |was|);
    SuffixAgrees(second, first, 14, 20, |was|);
    SuffixAgrees(fixed, second, 16, 20, |was|);
    SuffixAgrees(blank, fixed, 18, 20, |was|);
  }

  function PseudoHeader(src: seq<byte>, dst: seq<byte>, length: u16): (p: seq<byte>)
    requires |src| == 4 && |dst| == 4
    ensures |p| == 12
  {
    src + dst + [0, 6] + Be16(length)
  }

  /** Checksum over the pseudo header and the header with its options, stored in the header. */
  method CalculateChecksumTcp(optionsSize: nat, src: seq<byte>, dst: seq<byte>, header: array<byte>)
    requires optionsSize <= TCP_OPTIONS && header.Length == 20 + TCP_OPTIONS
    requires |src| == 4 && |dst| == 4 && header[16..18] == [0, 0]
    modifies header
    ensures header[..16] == old(header[..16]) && header[18..] == old(header[18..])
    ensures var n := 20 + optionsSize;
      Resums(PseudoHeader(src, dst, n) + header[..n]) <==> optionsSize % 2 == 0 || header[n - 1] == 0
  {
    hide Resums, InternetChecksum;
    var n := 20 + optionsSize;
    var even := n / 2 * 2;
    ghost var pseudo := PseudoHeader(src, dst, n);
    var covered := src + dst + [0, 6, n / 0x100, n % 0x100] + header[..n];
    ghost var front, rest := pseudo + header[..16], header[18..even];
    Covered(covered, pseudo, header[..16], [0, 0], rest, header[..n], even);
    var checksum := CalculateChecksumIpv4(covered, (12 + n) / 2);
    ChecksumFills(front, rest);
    Put(header, 16, [checksum / 0x100, checksum % 0x100]);
    SuffixAgrees(header[..], old(header[..]), 18, 18, even);
    Covered(pseudo + header[..n], pseudo, header[..16], Be16(checksum), rest, header[..n], even);
    ghost var whole := pseudo + header[..n];
    if n % 2 == 1 {
      assert whole == whole[..12 + even] + [header[n - 1]];
      OddTail(whole[..12 + even], header[n - 1]);
    } else {
      assert whole == whole[..12 + even];
    }
  }

  /** The even part of what the checksum covers, around the checksum field. */
  lemma Covered(covered: seq<byte>, pseudo: seq<byte>, front: seq<byte>, field: seq<byte>, rest: seq<byte>,
                header: seq<byte>, even: nat)
    requires |pseudo| == 12 && |front| == 16 && |field| == 2 && 18 <= even <= |header|
    requires covered == pseudo + header
    requires header[..16] == front && header[16..18] == field && header[18..even] == rest
    ensures covered[..12 + even] == (pseudo + front) + (field + rest)
  {
    assert header[..even] == header[..16] + (header[16..18] + header[18..even]);
    assert covered[..12 + even] == pseudo + header[..even];
  }

  /** A byte behind a block that sums to all ones spoils it unless it is zero. */
  lemma OddTail(d: seq<byte>, b: byte)
    requires |d| % 2 == 0 && Resums(d)
    ensures Resums(d + [b]) <==> b == 0
  {
    WordSumConcat(d, [b]);
    RepAdd(WordSum(d), 256 * b as int);
    RepFull(0xFFFF + 256 * b as int);
  }

  /** One option byte that is not zero: the header that comes out does not sum to all ones. */
  method OddOptionSpoils(src: seq<byte>, dst: seq<byte>, option: byte) returns (header: array<byte>)
    requires |src| == 4 && |dst| == 4 && option != 0
    ensures header.Length == 20 + TCP_OPTIONS && header[20] == option
    ensures !Resums(PseudoHeader(src, dst, 21) + header[..21])
  {
    hide Resums;
    header := new byte[20 + TCP_OPTIONS](_ => 0);
    header[20] := option;
    ghost var tail := header[18..];
    CalculateChecksumTcp(1, src, dst, header);
    assert header[20] == header[18..][2] == tail[2];
  }

  /** The options of a SYN: maximum segment size, two NOPs, SACK permitted, two NOPs, and the timestamp. */
  function SynOptions(tick: u32): (o: seq<byte>)
    ensures |o| == 20
  {
    [2, 4, 5, 0xB4, 1, 1, 4, 2] + [1, 1, 8, 10] + Be32(tick) + Be32(0)
  }

  /** The options are written through a running index. */
  method SetSynOptions(header: array<byte>, tick: u32) returns (idx: nat)
    requires header.Length == 20 + TCP_OPTIONS
    modifies header
    ensures idx == 20 && header[20..40] == SynOptions(tick)
    ensures header[..20] == old(header[..20]) && header[40..] == old(header[40..])
  {
    hide Be32;
    ghost var was := header[..];
    idx := 0;
    assert header[20..20] == [];
    PutAfter(header, 20 + idx, [2, 4, 5, 0xB4, 1, 1, 4, 2], 20, []);
    idx := idx + 8;
    ghost var first := header[..];
    PutAfter(header, 20 + idx, [1, 1, 8, 10], 20, [2, 4, 5, 0xB4, 1, 1, 4, 2]);
    idx := idx + 4;
    ghost var second := header[..];
    PutAfter(header, 20 + idx, Be32(tick), 20, [2, 4, 5, 0xB4, 1, 1, 4, 2] + [1, 1, 8, 10]);
    idx := idx + 4;
    ghost var third := header[..];
    PutAfter(header, 20 + idx, Be32(0), 20, [2, 4, 5, 0xB4, 1, 1, 4, 2] + [1, 1, 8, 10] + Be32(tick));
    idx := idx + 4;
    Untouched(was, first, 20, 28);
    Untouched(first, second, 28, 32);
    Untouched(second, third, 32, 36);
    Untouched(third, header[..], 36, 40);
  }

  /** What a store between the options' ends leaves alone. */
  lemma Untouched(a: seq<byte>, b: seq<byte>, at: nat, end: nat)
    requires |a| == |b| >= 40 && 20 <= at <= end <= 40 && a[..at] == b[..at] && a[end..] == b[end..]
    ensures a[..20] == b[..20] && a[40..] == b[40..]
  {
    PrefixAgrees(a, b, at, 0, 20);
    SuffixAgrees(a, b, end, 40, |a|);
  }

  /** Replace the data offset, keep the flags. */
  method SetDataOffset(header: array<byte>, words: nat, ghost front: seq<byte>, ghost window: seq<byte>,
                       ghost flags: u16)
    requires header.Length >= 20 && words < 16 && flags < 0x1000 && |front| == 12 && |window| == 2
    requires header[..16] == front + Be16(0x5000 + flags) + window
    modifies header
    ensures header[..16] == front + Be16(0x1000 * words + flags) + window
    ensures header[16..] == old(header[16..])
  {
    ghost var was := header[..];
    Pieces(was, front, Be16(0x5000 + flags), window);
    var offsetAndFlags := ReadBe16(header[12..14]) % 0x1000 + 0x1000 * words;
    ReadBe16OfBe16(0x5000 + flags);
    hide Be16, ReadBe16;
    Put(header, 12, Be16(offsetAndFlags));
    SuffixAgrees(header[..], was, 14, 14, 16);
    SuffixAgrees(header[..], was, 14, 16, |was|);
    JoinSlices(header[..], 0, 12, 14);
    JoinSlices(header[..], 0, 14, 16);
    assert header[..][0..12] == header[..12] && header[..][0..16] == header[..16];
  }

  lemma Pieces(s: seq<byte>, front: seq<byte>, offset: seq<byte>, window: seq<byte>)
    requires |s| >= 16 && |front| == 12 && |offset| == 2 && |window| == 2 && s[..16] == front + offset + window
    ensures s[..12] == front && s[12..14] == offset && s[14..16] == window
  {
    var t := front + offset + window;
    assert t[..12] == front && t[12..14] == offset && t[14..16] == window;
    assert s[..16][..12] == s[..12] && s[..16][12..14] == s[12..14] && s[..16][14..16] == s[14..16];
  }

  method SetTcpHeaderSyn(buffer: array<byte>, src: seq<byte>, dst: seq<byte>, source: u16, target: u16,
                         sequence: u32, ack: u32, window: u16, urgent: u16, tick: u32)
    returns (length: nat)
    requires |src| == 4 && |dst| == 4 && buffer.Length >= 40
    modifies buffer
    ensures length == 40 && Resums(PseudoHeader(src, dst, 40) + buffer[..40])
    ensures buffer[..16] == TcpFront(source, target, sequence, ack, 0xA002, window)
    ensures buffer[18..20] == Be16(urgent) && buffer[20..40] == SynOptions(tick)
    ensures buffer[40..] == old(buffer[40..])
  {
    hide Resums, SynOptions, PseudoHeader, Be16, Be32;
    var header := new byte[20 + TCP_OPTIONS](_ => 0);
    CreateTcpHeader(header, source, target, sequence, ack, TCP_SYN, window, urgent);
    ghost var fixed := header[..];
    ghost var front := Be16(source) + Be16(target) + Be32(sequence) + Be32(ack);
    var idx := SetSynOptions(header, tick);
    ghost var filled := header[..];
    PrefixAgrees(filled, fixed, 20, 16, 18);
    PrefixAgrees(filled, fixed, 20, 18, 20);
    PrefixAgrees(filled, fixed, 20, 0, 16);
    SetDataOffset(header, (20 + idx) / 4, front, Be16(window), TCP_SYN);
    ghost var sized := header[..];
    SuffixAgrees(sized, filled, 16, 16, 18);
    SuffixAgrees(sized, filled, 16, 18, 20);
    SuffixAgrees(sized, filled, 16, 20, 40);
    CalculateChecksumTcp(idx, src, dst, header);
    ghost var summed := header[..];
    SuffixAgrees(summed, sized, 18, 18, 20);
    SuffixAgrees(summed, sized, 18, 20, 40);
    length := 20 + idx;
    StoreHeader(buffer, header, length);
    PrefixAgrees(buffer[..], summed, 40, 20, 40);
  }

  /** The finished header goes to the caller's buffer. */
  method StoreHeader(buffer: array<byte>, header: array<byte>, length: nat)
    requires 20 <= length <= header.Length && length <= buffer.Length && buffer != header
    modifies buffer
    ensures buffer[..length] == header[..length] && buffer[length..] == old(buffer[length..])
    ensures buffer[..16] == header[..16] && buffer[18..20] == header[18..20]
  {
    Put(buffer, 0, header[..length]);
    assert buffer[..][0..length] == buffer[..length];
    PrefixAgrees(buffer[..], header[..], length, 18, 20);
    PrefixAgrees(buffer[..], header[..], length, 0, 16);
  }

  /** FIN and ACK differ only in the flag; there are no options. */
  method SetTcpHeaderPlain(buffer: array<byte>, src: seq<byte>, dst: seq<byte>, source: u16, target: u16,
                           sequence: u32, ack: u32, flags: u16, window: u16, urgent: u16)
    returns (length: nat)
    requires |src| == 4 && |dst| == 4 && buffer.Length >= 20 && flags in {1, 16}
    modifies buffer
    ensures length == 20 && Resums(PseudoHeader(src, dst, 20) + buffer[..20])
    ensures buffer[..16] == TcpFront(source, target, sequence, ack, 0x5000 + flags, window)
    ensures buffer[18..20] == Be16(urgent)
    ensures buffer[20..] == old(buffer[20..])
  {
    hide Resums, PseudoHeader, Be16, Be32;
    var header := new byte[20 + TCP_OPTIONS](_ => 0);
    CreateTcpHeader(header, source, target, sequence, ack, flags, window, urgent);
    ghost var fixed := header[..];
    CalculateChecksumTcp(0, src, dst, header);
    SuffixAgrees(header[..], fixed, 18, 18, 20);
    length := 20;
    StoreHeader(buffer, header, length);
  }
}
