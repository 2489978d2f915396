/**
 DHCP messages: the option area as a list, the validating parser, the option walk, and
 the DISCOVER and REQUEST builders with the frames around them.
 */
module Dhcp {
  import opened Bytes
  import opened Checksum
  import opened Neighbors
  import opened PacketHeaders

  const PAD: byte := 0
  const END: byte := 0xFF
  const FIXED := 240

  // ---- The option area ----

  datatype Field = Padding | Option(code: byte, data: seq<byte>)

  predicate FieldOk(f: Field) {
    f.Option? ==> f.code != PAD && f.code != END && |f.data| < 0x100
  }

  predicate AllOk(fs: seq<Field>) {
    forall k :: 0 <= k < |fs| ==> FieldOk(fs[k])
  }

  function EncodeField(f: Field): seq<byte>
    requires FieldOk(f)
  {
    match f
    case Padding => [PAD]
    case Option(code, data) => [code, |data|] + data
  }

  function EncodeFields(fs: seq<Field>): seq<byte>
    requires AllOk(fs)
  {
    if fs == [] then [] else EncodeField(fs[0]) + EncodeFields(fs[1..])
  }

  /** The first option with the code. */
  function FirstOf(fs: seq<Field>, code: byte): Option<seq<byte>> {
    if fs == [] then None
    else if fs[0].Option? && fs[0].code == code then Some(fs[0].data)
    else FirstOf(fs[1..], code)
  }

  /** Whether a walk over the options reaches END. */
  predicate OptionsValid(options: seq<byte>)
    decreases |options|
  {
    if options == [] then false
    else if options[0] == PAD then OptionsValid(options[1..])
    else if options[0] == END then true
    else |options| >= 2 && 2 + options[1] as int <= |options| && OptionsValid(options[2 + options[1]..])
  }

  /** What the option walk finds. */
  function Lookup(options: seq<byte>, code: byte): Option<seq<byte>>
    decreases |options|
  {
    if options == [] then None
    else if options[0] == PAD then Lookup(options[1..], code)
    else if options[0] == END || |options| < 2 || 2 + options[1] as int > |options| then None
    else if options[0] == code then Some(options[2..2 + options[1]])
    else Lookup(options[2 + options[1]..], code)
  }

  lemma FieldFirst(f: Field, rest: seq<byte>)
    requires FieldOk(f)
    ensures OptionsValid(EncodeField(f) + rest) == OptionsValid(rest)
    ensures forall code :: Lookup(EncodeField(f) + rest, code) == (
                             if f.Option? && f.code == code then Some(f.data) else Lookup(rest, code))
  {
    var all := EncodeField(f) + rest;
    if f.Option? {
      assert all[0] == f.code && all[1] == |f.data| && all[2..2 + |f.data|] == f.data && all[2 + |f.data|..] == rest;
    } else {
      assert all[0] == PAD && all[1..] == rest;
    }
  }

  /** A list closed by END is valid, and a lookup in it finds exactly the first option with the code. */
  lemma {:induction false} EncodedLookup(fs: seq<Field>, after: seq<byte>, code: byte)
    requires AllOk(fs)
    ensures OptionsValid(EncodeFields(fs) + ([END] + after))
    ensures Lookup(EncodeFields(fs) + ([END] + after), code) == FirstOf(fs, code)
  {
    hide EncodeField;
    var tail := [END] + after;
    if fs == [] {
      assert EncodeFields(fs) + tail == tail;
    } else {
      FieldFirst(fs[0], EncodeFields(fs[1..]) + tail);
      ConcatAssociative(EncodeField(fs[0]), EncodeFields(fs[1..]), tail);
      EncodedLookup(fs[1..], after, code);
    }
  }

  /** Only such areas are valid: each is a list, END, and whatever follows. */
  lemma {:induction false} ValidIsEncoded(options: seq<byte>) returns (fs: seq<Field>, after: seq<byte>)
    requires OptionsValid(options)
    ensures AllOk(fs) && options == EncodeFields(fs) + ([END] + after)
    decreases |options|
  {
    hide EncodeField;
    if options[0] == END {
      fs, after := [], options[1..];
      assert options == EncodeFields(fs) + ([END] + after);
    } else {
      var f, rest := FirstField(options);
      var more;
      more, after := ValidIsEncoded(rest);
      fs := [f] + more;
      assert fs[1..] == more;
      ConcatAssociative(EncodeField(f), EncodeFields(more), [END] + after);
    }
  }

  lemma FirstField(options: seq<byte>) returns (f: Field, rest: seq<byte>)
    requires OptionsValid(options) && options[0] != END
    ensures FieldOk(f) && options == EncodeField(f) + rest && OptionsValid(rest) && |rest| < |options|
  {
    if options[0] == PAD {
      f, rest := Padding, options[1..];
    } else {
      f, rest := Option(options[0], options[2..2 + options[1]]), options[2 + options[1]..];
      assert options == [options[0], options[1]] + options[2..2 + options[1]] + rest;
    }
  }

  /** On every valid area the walk returns the first occurrence before END, wherever END is. */
  lemma LookupExact(options: seq<byte>, code: byte)
    requires OptionsValid(options)
    ensures exists fs, after ::
      AllOk(fs) && options == EncodeFields(fs) + ([END] + after) && Lookup(options, code) == FirstOf(fs, code)
  {
    var fs, after := ValidIsEncoded(options);
    EncodedLookup(fs, after, code);
  }

  lemma ValidStep(options: seq<byte>, pos: nat)
    requires pos < |options|
    ensures OptionsValid(options[pos..]) ==
      if options[pos] == PAD then OptionsValid(options[pos + 1..])
      else if options[pos] == END then true
      else
        && pos + 2 <= |options| && pos + 2 + options[pos + 1] as int <= |options|
        && OptionsValid(options[pos + 2 + options[pos + 1]..])
  {
    var d := options[pos..];
    assert d[1..] == options[pos + 1..];
    if |d| >= 2 && 2 + d[1] as int <= |d| {
      assert d[2 + d[1]..] == options[pos + 2 + options[pos + 1]..];
    }
  }

  method OptionsAreValid(options: seq<byte>) returns (valid: bool)
    ensures valid == OptionsValid(options)
  {
    hide OptionsValid;
    var pos := 0;
    assert options[0..] == options;
    while pos < |options|
      invariant pos <= |options| && OptionsValid(options) == OptionsValid(options[pos..])
      decreases |options| - pos
    {
      ValidStep(options, pos);
      var code := options[pos];
      pos := pos + 1;
      if code != PAD {
        if code == END {
          return true;
        }
        if pos >= |options| {
          return false;
        }
        var length := options[pos] as nat;
        pos := pos + 1;
        if length > |options| - pos {
          return false;
        }
        pos := pos + length;
      }
    }
    NothingValid();
    assert options[pos..] == [];
    return false;
  }

  lemma NothingValid()
    ensures !OptionsValid([])
    ensures forall code :: Lookup([], code) == None
  {
  }

  lemma LookupStep(options: seq<byte>, pos: nat, code: byte)
    requires pos < |options|
    ensures Lookup(options[pos..], code) ==
      if options[pos] == PAD then Lookup(options[pos + 1..], code)
      else if options[pos] == END || pos + 2 > |options| || pos + 2 + options[pos + 1] as int > |options| then None
      else if options[pos] == code then Some(options[pos + 2..pos + 2 + options[pos + 1]])
      else Lookup(options[pos + 2 + options[pos + 1]..], code)
  {
    var d := options[pos..];
    assert d[1..] == options[pos + 1..];
    if |d| >= 2 && 2 + d[1] as int <= |d| {
      assert d[2..2 + d[1]] == options[pos + 2..pos + 2 + options[pos + 1]];
      assert d[2 + d[1]..] == options[pos + 2 + options[pos + 1]..];
    }
  }

  method GetOption(options: seq<byte>, code: byte) returns (r: Option<seq<byte>>)
    ensures r == Lookup(options, code)
  {
    hide Lookup;
    var pos := 0;
    assert options[0..] == options;
    while pos < |options|
      invariant pos <= |options| && Lookup(options, code) == Lookup(options[pos..], code)
      decreases |options| - pos
    {
      LookupStep(options, pos, code);
      var here := options[pos];
      pos := pos + 1;
      if here != PAD {
        if here == END || pos >= |options| {
          return None;
        }
        var length := options[pos] as nat;
        pos := pos + 1;
        if length > |options| - pos {
          return None;
        }
        if here == code {
          return Some(options[pos..pos + length]);
        }
        pos := pos + length;
      }
    }
    NothingValid();
    assert options[pos..] == [];
    return None;
  }

  // ---- The parser ----

  /** A message found in a frame: its bytes, which end with the UDP payload. */
  datatype View = View(data: seq<byte>) {
    predicate Valid() {
      |data| >= FIXED
    }

    function Options(): seq<byte>
      requires Valid()
    {
      data[FIXED..]
    }
  }

  /** IPv4 over Ethernet with a UDP payload between the DHCP ports. */
  function UdpPayload(frame: seq<byte>): Option<seq<byte>> {
    if |frame| < 34 || frame[12] != 8 || frame[13] != 0 || frame[14] / 16 != 4 then None
    else
      var header := 4 * (frame[14] as nat % 16);
      if header < 20 || |frame| < 14 + header + 8 || frame[23] != 0x11 then None
      else
        var total := ReadBe16(frame[16..18]) as nat;
        if total < header + 8 + FIXED || total > |frame| - 14 then None
        else
          var udp := 14 + header;
          var source, destination := ReadBe16(frame[udp..udp + 2]), ReadBe16(frame[udp + 2..udp + 4]);
          var length := ReadBe16(frame[udp + 4..udp + 6]) as nat;
          if !((source == 67 && destination == 68) || (source == 68 && destination == 67)) then None
          else if length < 8 + FIXED || length > total - header || length > |frame| - udp then None
          else Some(frame[udp + 8..udp + length])
  }

  /** What surrounds a payload: addresses, an IPv4 header with any options, the direction, the UDP checksum, padding. */
  datatype Wire = Wire(head: seq<byte>, ip: seq<byte>, fromServer: bool, sum: seq<byte>, rest: seq<byte>)

  /** A UDP header of eight bytes between ports 67 and 68. */
  function Udp(w: Wire, length: u16): (u: seq<byte>)
    requires |w.sum| == 2
    ensures |u| == 8
  {
    (if w.fromServer then [0, 67, 0, 68] else [0, 68, 0, 67]) + Be16(length) + w.sum
  }

  /** The header is IPv4 with protocol 17, and the lengths fit into one another. */
  predicate WireOk(w: Wire, data: seq<byte>) {
    && |w.head| == 12 && |w.sum| == 2 && 240 <= |data| < 0x1_0000 - 8
    && 20 <= |w.ip| <= 60 && |w.ip| % 4 == 0 && w.ip[0] as int == 0x40 + |w.ip| / 4 && w.ip[9] == 17
    && |w.ip| + 8 + |data| <= ReadBe16(w.ip[2..4]) as int <= |w.ip| + 8 + |data| + |w.rest|
  }

  function OnWire(w: Wire, data: seq<byte>): seq<byte>
    requires WireOk(w, data)
  {
    w.head + [8, 0] + w.ip + Udp(w, 8 + |data|) + data + w.rest
  }

  lemma WireParts(w: Wire, data: seq<byte>)
    requires WireOk(w, data)
    ensures var f, n := OnWire(w, data), 14 + |w.ip|;
      && |f| == n + 8 + |data| + |w.rest| && f[..12] == w.head && f[12] == 8 && f[13] == 0
      && f[14] == w.ip[0] && f[23] == w.ip[9] && f[16..18] == w.ip[2..4]
      && f[n..n + 2] == (if w.fromServer then [0, 67] else [0, 68])
      && f[n + 2..n + 4] == (if w.fromServer then [0, 68] else [0, 67])
      && f[n + 4..n + 6] == Be16(8 + |data|) && f[n + 8..n + 8 + |data|] == data
  {
    hide Be16, ReadBe16, Udp;
    var f, n, u := OnWire(w, data), 14 + |w.ip|, Udp(w, 8 + |data|);
    Sections(w.head, [8, 0], w.ip, u, data, w.rest);
    UdpParts(w, 8 + |data|);
    SliceOfSlice(f, 12, 14, 0, 1);
    assert f[12] == f[12..14][0] && f[13] == f[12..14][1] && f[14] == f[14..n][0] && f[23] == f[14..n][9];
    SliceOfSlice(f, 14, n, 2, 4);
    SliceOfSlice(f, n, n + 8, 0, 2);
    SliceOfSlice(f, n, n + 8, 2, 4);
    SliceOfSlice(f, n, n + 8, 4, 6);
  }

  lemma Sections(a: seq<byte>, b: seq<byte>, c: seq<byte>, d: seq<byte>, e: seq<byte>, rest: seq<byte>)
    ensures var f := a + b + c + d + e + rest;
      var i, j, k, l := |a| + |b|, |a| + |b| + |c|, |a| + |b| + |c| + |d|, |a| + |b| + |c| + |d| + |e|;
      f[..|a|] == a && f[|a|..i] == b && f[i..j] == c && f[j..k] == d && f[k..l] == e
  {
    SectionEnds(a + b + c + d, e, rest);
    SectionEnds(a + b + c, d, e + rest);
    SectionEnds(a + b, c, d + (e + rest));
    SectionEnds(a, b, c + (d + (e + rest)));
    ConcatAssociative(a + b + c + d, e, rest);
    ConcatAssociative(a + b + c, d, e + rest);
    ConcatAssociative(a + b, c, d + (e + rest));
    ConcatAssociative(a, b, c + (d + (e + rest)));
  }

  lemma SectionEnds(front: seq<byte>, middle: seq<byte>, back: seq<byte>)
    ensures var f := front + (middle + back);
      f == front + middle + back && f[..|front|] == front && f[|front|..|front| + |middle|] == middle
  {
  }

  lemma UdpParts(w: Wire, length: u16)
    requires |w.sum| == 2
    ensures var u := Udp(w, length);
      && u[0..2] == (if w.fromServer then [0, 67] else [0, 68])
      && u[2..4] == (if w.fromServer then [0, 68] else [0, 67])
      && u[4..6] == Be16(length)
  {
    hide Be16;
  }

  /** A payload on the wire is found, in either direction, behind any IPv4 options and before any padding. */
  lemma WireFound(w: Wire, data: seq<byte>)
    requires WireOk(w, data)
    ensures UdpPayload(OnWire(w, data)) == Some(data)
  {
    hide OnWire;
    WireParts(w, data);
    ReadBe16OfBe16(8 + |data|);
    PortsRead();
    assert w.ip[0] as int / 16 == 4 && w.ip[0] as int % 16 == |w.ip| / 4;
  }

  lemma PortsRead()
    ensures ReadBe16([0, 67]) == 67 && ReadBe16([0, 68]) == 68 && Be16(67) == [0, 67] && Be16(68) == [0, 68]
  {
  }

  /** And nothing else is: whatever the parser takes for a payload lies in such surroundings. */
  lemma WireOnly(frame: seq<byte>) returns (w: Wire)
    requires UdpPayload(frame).Some?
    ensures WireOk(w, UdpPayload(frame).value) && frame == OnWire(w, UdpPayload(frame).value)
  {
    hide Be16, OnWire;
    var data := UdpPayload(frame).value;
    var n := 14 + 4 * (frame[14] as nat % 16);
    var end := n + 8 + |data|;
    w := Wire(frame[..12], frame[14..n], ReadBe16(frame[n..n + 2]) == 67, frame[n + 6..n + 8], frame[end..]);
    SliceOfSlice(frame, 14, n, 2, 4);
    assert frame[14..n][0] == frame[14] && frame[14..n][9] == frame[23];
    Be16OfReadBe16(frame[n..n + 2]);
    Be16OfReadBe16(frame[n + 2..n + 4]);
    Be16OfReadBe16(frame[n + 4..n + 6]);
    PortsRead();
    assert WireOk(w, data);
    WireAgain(frame, w, data, n, end);
  }

  lemma WireAgain(frame: seq<byte>, w: Wire, data: seq<byte>, n: nat, end: nat)
    requires 14 <= n && n + 8 <= end <= |frame| && WireOk(w, data) && data == frame[n + 8..end]
    requires w.head == frame[..12] && frame[12] == 8 && frame[13] == 0 && w.ip == frame[14..n] && w.rest == frame[end..]
    requires frame[n..n + 2] == (if w.fromServer then [0, 67] else [0, 68])
    requires frame[n + 2..n + 4] == (if w.fromServer then [0, 68] else [0, 67])
    requires frame[n + 4..n + 6] == Be16(8 + |data|) && w.sum == frame[n + 6..n + 8]
    ensures frame == OnWire(w, data)
  {
    UdpAgain(w, 8 + |data|, frame[n..n + 2], frame[n + 2..n + 4]);
    hide Be16, WireOk, ReadBe16, Udp;
    hide OnWire;
    Rebuilt(frame, n, end);
    assert frame[12..14] == [8, 0];
    var udp := frame[n..n + 2] + frame[n + 2..n + 4] + frame[n + 4..n + 6] + frame[n + 6..n + 8];
    WireIs(frame, w, data, frame[..12], frame[12..14], frame[14..n], udp, frame[n + 8..end], frame[end..]);
  }

  lemma WireIs(frame: seq<byte>, w: Wire, data: seq<byte>, a: seq<byte>, b: seq<byte>, c: seq<byte>, d: seq<byte>,
               e: seq<byte>, f: seq<byte>)
    requires WireOk(w, data) && frame == a + b + c + d + e + f
    requires a == w.head && b == [8, 0] && c == w.ip && d == Udp(w, 8 + |data|) && e == data && f == w.rest
    ensures frame == OnWire(w, data)
  {
    hide Udp, ReadBe16;
  }

  lemma UdpAgain(w: Wire, length: u16, from: seq<byte>, to: seq<byte>)
    requires |w.sum| == 2
    requires from == (if w.fromServer then [0, 67] else [0, 68]) && to == (if w.fromServer then [0, 68] else [0, 67])
    ensures Udp(w, length) == from + to + Be16(length) + w.sum
  {
    hide Be16;
    assert from + to == if w.fromServer then [0, 67, 0, 68] else [0, 68, 0, 67];
  }

  lemma Rebuilt(frame: seq<byte>, n: nat, end: nat)
    requires 14 <= n && n + 8 <= end <= |frame|
    ensures frame == frame[..12] + frame[12..14] + frame[14..n]
                     + (frame[n..n + 2] + frame[n + 2..n + 4] + frame[n + 4..n + 6] + frame[n + 6..n + 8])
                     + frame[n + 8..end] + frame[end..]
  {
    JoinSlices(frame, n, n + 2, n + 4);
    JoinSlices(frame, n, n + 4, n + 6);
    JoinSlices(frame, n, n + 6, n + 8);
    assert frame[..12] == frame[0..12] && frame[end..] == frame[end..|frame|] && frame == frame[0..|frame|];
    JoinSlices(frame, 0, 12, 14);
    JoinSlices(frame, 0, 14, n);
    JoinSlices(frame, 0, n, n + 8);
    JoinSlices(frame, 0, n + 8, end);
    JoinSlices(frame, 0, end, |frame|);
  }

  function ParseMessage(frame: seq<byte>): (r: Option<View>)
    ensures r.Some? ==> r.value.Valid() && OptionsValid(r.value.Options())
  {
    match UdpPayload(frame)
    case None => None
    case Some(data) =>
      if |data| < FIXED || data[236..240] != [0x63, 0x82, 0x53, 0x63] || !OptionsValid(data[FIXED..]) then None
      else Some(View(data))
  }

  /** The operation byte and a one-byte message type. */
  predicate IsType(v: View, operation: byte, kind: byte) {
    v.Valid() && v.data[0] == operation && Lookup(v.Options(), 53) == Some([kind])
  }

  // ---- Builders ----

  const DISCOVER: byte := 1
  const OFFER: byte := 2
  const REQUEST: byte := 3
  const ACK: byte := 5

  /** The fixed part of a client's message. */
  function FixedPart(mac: MacAddress, xid: u32): (s: seq<byte>)
    ensures |s| == FIXED
  {
    [1, 1, 6, 0] + Be32(xid) + Zeros(20) + mac + Zeros(202) + [0x63, 0x82, 0x53, 0x63]
  }

  type HostName = s: seq<byte> | |s| == 8 ghost witness Zeros(8)

  function DiscoverFields(mac: MacAddress, host: HostName): seq<Field> {
    [Option(53, [DISCOVER]), Option(61, [1] + mac), Option(12, host), Option(55, [1, 3, 6])]
  }

  function RequestFields(mac: MacAddress, host: HostName, client: seq<byte>, server: seq<byte>): seq<Field> {
    [Option(53, [REQUEST]), Option(61, [1] + mac), Option(12, host), Option(50, client), Option(54, server),
     Option(55, [1, 3, 6])]
  }

  function MessageOf(mac: MacAddress, xid: u32, fields: seq<Field>): seq<byte>
    requires AllOk(fields)
  {
    FixedPart(mac, xid) + (EncodeFields(fields) + [END])
  }

  /** The options of a DISCOVER and of a REQUEST, byte for byte (sections 3 to 9 of RFC 2132). */
  lemma OptionBytes(mac: MacAddress, host: HostName, client: seq<byte>, server: seq<byte>)
    requires |client| == 4 && |server| == 4
    ensures AllOk(DiscoverFields(mac, host)) && AllOk(RequestFields(mac, host, client, server))
    ensures EncodeFields(DiscoverFields(mac, host)) + [END] ==
      [53, 1, 1, 61, 7, 1] + mac + [12, 8] + host + [55, 3, 1, 3, 6] + [255]
    ensures EncodeFields(RequestFields(mac, host, client, server)) + [END] ==
      [53, 1, 3, 61, 7, 1] + mac + [12, 8] + host + [50, 4] + client + [54, 4] + server + [55, 3, 1, 3, 6] + [255]
  {
    DiscoverBytes(mac, host);
    RequestBytes(mac, host, client, server);
  }

  lemma DiscoverBytes(mac: MacAddress, host: HostName)
    ensures AllOk(DiscoverFields(mac, host))
    ensures EncodeFields(DiscoverFields(mac, host)) + [END] ==
      [53, 1, 1, 61, 7, 1] + mac + [12, 8] + host + [55, 3, 1, 3, 6] + [255]
  {
    hide EncodeFields;
    EncodeFour(Option(53, [DISCOVER]), Option(61, [1] + mac), Option(12, host), Option(55, [1, 3, 6]));
    assert EncodeField(Option(53, [DISCOVER])) + EncodeField(Option(61, [1] + mac)) == [53, 1, 1, 61, 7, 1] + mac;
    assert EncodeField(Option(12, host)) == [12, 8] + host && EncodeField(Option(55, [1, 3, 6])) == [55, 3, 1, 3, 6];
    ConcatAssociative([53, 1, 1, 61, 7, 1] + mac, [12, 8], host);
  }

  lemma RequestBytes(mac: MacAddress, host: HostName, client: seq<byte>, server: seq<byte>)
    requires |client| == 4 && |server| == 4
    ensures AllOk(RequestFields(mac, host, client, server))
    ensures EncodeFields(RequestFields(mac, host, client, server)) + [END] ==
      [53, 1, 3, 61, 7, 1] + mac + [12, 8] + host + [50, 4] + client + [54, 4] + server + [55, 3, 1, 3, 6] + [255]
  {
    hide EncodeFields;
    var four := [Option(53, [REQUEST]), Option(61, [1] + mac), Option(12, host), Option(50, client)];
    var two := [Option(54, server), Option(55, [1, 3, 6])];
    assert RequestFields(mac, host, client, server) == four + two;
    EncodeConcat(four, two);
    EncodeFour(Option(53, [REQUEST]), Option(61, [1] + mac), Option(12, host), Option(50, client));
    EncodeTwo(Option(54, server), Option(55, [1, 3, 6]));
    var start := [53, 1, 3, 61, 7, 1] + mac;
    assert EncodeField(Option(53, [REQUEST])) + EncodeField(Option(61, [1] + mac)) == start;
    assert EncodeField(Option(12, host)) == [12, 8] + host && EncodeField(Option(50, client)) == [50, 4] + client;
    assert EncodeField(Option(54, server)) == [54, 4] + server;
    assert EncodeField(Option(55, [1, 3, 6])) == [55, 3, 1, 3, 6];
    ConcatAssociative(start, [12, 8], host);
    ConcatAssociative(start + [12, 8] + host, [50, 4], client);
    var most := start + [12, 8] + host + [50, 4] + client;
    ConcatAssociative(most, [54, 4] + server, [55, 3, 1, 3, 6]);
    ConcatAssociative(most, [54, 4], server);
  }

  lemma EncodeTwo(a: Field, b: Field)
    requires FieldOk(a) && FieldOk(b)
    ensures EncodeFields([a, b]) == EncodeField(a) + EncodeField(b)
  {
    hide EncodeField;
    assert [a, b][1..] == [b] && [b][1..] == [];
    assert EncodeFields([b]) == EncodeField(b) + [];
  }

  lemma EncodeFour(a: Field, b: Field, c: Field, d: Field)
    requires FieldOk(a) && FieldOk(b) && FieldOk(c) && FieldOk(d)
    ensures EncodeFields([a, b, c, d]) == EncodeField(a) + EncodeField(b) + EncodeField(c) + EncodeField(d)
  {
    hide EncodeField;
    assert [a, b, c, d] == [a, b] + [c, d];
    EncodeConcat([a, b], [c, d]);
    EncodeTwo(a, b);
    EncodeTwo(c, d);
  }

  lemma {:induction false} EncodeConcat(a: seq<Field>, b: seq<Field>)
    requires AllOk(a) && AllOk(b)
    ensures EncodeFields(a + b) == EncodeFields(a) + EncodeFields(b)
  {
    hide EncodeField;
    if a == [] {
      assert a + b == b;
    } else {
      assert (a + b)[1..] == a[1..] + b;
      EncodeConcat(a[1..], b);
    }
  }

  function FrameOf(mac: MacAddress, message: seq<byte>): seq<byte>
    requires |message| < 0x1_0000 - 28
  {
    EthernetHeader([0xFF, 0xFF, 0xFF, 0xFF, 0xFF, 0xFF], mac, 0x0800) +
    Ipv4Header(0x11, |message| + 8, [0, 0, 0, 0], [0xFF, 0xFF, 0xFF, 0xFF], 0, 0x4000, 128) +
    (UdpHeader(68, 67, |message| + 8) + message)
  }

  // ---- Built frames come back ----

  /** A message that is well formed by itself is found again in the frame built around it. */
  lemma FrameParses(mac: MacAddress, message: seq<byte>)
    requires FIXED < |message| < 0x1_0000 - 28 && message[236..240] == [0x63, 0x82, 0x53, 0x63]
    requires OptionsValid(message[FIXED..])
    ensures ParseMessage(FrameOf(mac, message)) == Some(View(message))
  {
    hide OptionsValid;
    FramePayload(mac, message);
  }

  lemma FramePayload(mac: MacAddress, message: seq<byte>)
    requires FIXED < |message| < 0x1_0000 - 28
    ensures UdpPayload(FrameOf(mac, message)) == Some(message)
  {
    hide FrameOf;
    FramePieces(mac, message);
    var n := |message| + 8;
    ReadBe16OfBe16(68);
    ReadBe16OfBe16(67);
    ReadBe16OfBe16(n);
    ReadBe16OfBe16(20 + n);
  }

  lemma FramePieces(mac: MacAddress, message: seq<byte>)
    requires FIXED < |message| < 0x1_0000 - 28
    ensures var f, n := FrameOf(mac, message), |message| + 8;
      && |f| == 34 + n && f[12] == 8 && f[13] == 0 && f[14] == 0x45 && f[23] == 0x11
      && f[16..18] == Be16(20 + n) && f[34..36] == Be16(68) && f[36..38] == Be16(67) && f[38..40] == Be16(n)
      && f[42..34 + n] == message
  {
    hide Ipv4Header, UdpHeader, EthernetHeader, Be16;
    var n := |message| + 8;
    EthernetFields(mac);
    Ipv4Fields(n);
    UdpFields(n);
    FrameParts(
      EthernetHeader([0xFF, 0xFF, 0xFF, 0xFF, 0xFF, 0xFF], mac, 0x0800),
      Ipv4Header(0x11, n, [0, 0, 0, 0], [0xFF, 0xFF, 0xFF, 0xFF], 0, 0x4000, 128),
      UdpHeader(68, 67, n), message);
  }

  /** A broadcast from no address to every address: Ethernet, IPv4 and UDP headers byte for byte, but for checksums. */
  lemma FrameHeaders(mac: MacAddress, message: seq<byte>)
    requires |message| < 0x1_0000 - 28
    ensures var f, n := FrameOf(mac, message), |message|;
      && |f| == 42 + n && f[..6] == [0xFF, 0xFF, 0xFF, 0xFF, 0xFF, 0xFF] && f[6..12] == mac && f[12..14] == [8, 0]
      && f[14..16] == [0x45, 0] && f[16..18] == Be16(28 + n) && f[18..22] == [0, 0, 0x40, 0] && f[22..24] == [128, 17]
      && f[26..34] == [0, 0, 0, 0, 0xFF, 0xFF, 0xFF, 0xFF]
      && f[34..38] == [0, 68, 0, 67] && f[38..40] == Be16(8 + n) && f[40..42] == [0, 0] && f[42..] == message
      && Resums(f[14..34])
  {
    hide InternetChecksum, Resums, Ipv4Header, UdpHeader;
    var f, n := FrameOf(mac, message), |message| + 8;
    var ip := Ipv4Header(0x11, n, [0, 0, 0, 0], [0xFF, 0xFF, 0xFF, 0xFF], 0, 0x4000, 128);
    Ipv4Bytes(n);
    UdpBytes(n);
    Ipv4HeaderResums(0x11, n, [0, 0, 0, 0], [0xFF, 0xFF, 0xFF, 0xFF], 0, 0x4000, 128);
    assert f[14..34] == ip;
    SliceOfSlice(f, 14, 34, 0, 2);
    SliceOfSlice(f, 14, 34, 2, 4);
    SliceOfSlice(f, 14, 34, 4, 8);
    SliceOfSlice(f, 14, 34, 8, 10);
    SliceOfSlice(f, 14, 34, 12, 20);
    assert f[34..42] == UdpHeader(68, 67, n);
    SliceOfSlice(f, 34, 42, 0, 4);
    SliceOfSlice(f, 34, 42, 4, 6);
    SliceOfSlice(f, 34, 42, 6, 8);
  }

  lemma Ipv4Bytes(n: nat)
    requires n < 0x1_0000 - 20
    ensures var ip := Ipv4Header(0x11, n, [0, 0, 0, 0], [0xFF, 0xFF, 0xFF, 0xFF], 0, 0x4000, 128);
      && ip[0..2] == [0x45, 0] && ip[2..4] == Be16(20 + n) && ip[4..8] == [0, 0, 0x40, 0] && ip[8..10] == [128, 17]
      && ip[12..20] == [0, 0, 0, 0, 0xFF, 0xFF, 0xFF, 0xFF]
  {
    hide Ipv4Header, Be16;
    FlagWords();
    PacketHeaders.Ipv4Fields(0x11, n, [0, 0, 0, 0], [0xFF, 0xFF, 0xFF, 0xFF], 0, 0x4000, 128);
    var ip := Ipv4Header(0x11, n, [0, 0, 0, 0], [0xFF, 0xFF, 0xFF, 0xFF], 0, 0x4000, 128);
    JoinSlices(ip, 4, 6, 8);
    JoinSlices(ip, 12, 16, 20);
  }

  lemma FlagWords()
    ensures Be16(0) == [0, 0] && Be16(0x4000) == [0x40, 0]
  {
  }

  lemma UdpBytes(n: u16)
    ensures var udp := UdpHeader(68, 67, n);
      udp[0..4] == [0, 68, 0, 67] && udp[4..6] == Be16(n) && udp[6..8] == [0, 0]
  {
  }

  lemma FrameParts(eth: seq<byte>, ip: seq<byte>, udp: seq<byte>, message: seq<byte>)
    requires |eth| == 14 && |ip| == 20 && |udp| == 8
    ensures var f := eth + ip + (udp + message);
      && f[12] == eth[12] && f[13] == eth[13] && f[14] == ip[0] && f[23] == ip[9] && f[16..18] == ip[2..4]
      && f[34..36] == udp[0..2] && f[36..38] == udp[2..4] && f[38..40] == udp[4..6] && f[42..42 + |message|] == message
  {
    var f, rest := eth + ip + (udp + message), udp + message;
    assert forall k :: 0 <= k < 14 ==> f[k] == eth[k];
    Middle(eth, ip, rest, 2, 4);
    assert f[34..] == rest;
    SliceOfSlice(f, 34, |f|, 0, 2);
    SliceOfSlice(f, 34, |f|, 2, 4);
    SliceOfSlice(f, 34, |f|, 4, 6);
    SliceOfSlice(f, 34, |f|, 8, 8 + |message|);
    PrefixAgrees(rest, udp, 8, 0, 2);
    PrefixAgrees(rest, udp, 8, 2, 4);
    PrefixAgrees(rest, udp, 8, 4, 6);
    assert rest[8..8 + |message|] == message;
  }

  lemma EthernetFields(mac: MacAddress)
    ensures var eth := EthernetHeader([0xFF, 0xFF, 0xFF, 0xFF, 0xFF, 0xFF], mac, 0x0800); eth[12] == 8 && eth[13] == 0
  {
  }

  lemma Ipv4Fields(n: nat)
    requires n < 0x1_0000 - 20
    ensures var ip := Ipv4Header(0x11, n, [0, 0, 0, 0], [0xFF, 0xFF, 0xFF, 0xFF], 0, 0x4000, 128);
      ip[0] == 0x45 && ip[9] == 0x11 && ip[2..4] == Be16(20 + n)
  {
    hide InternetChecksum;
  }

  lemma UdpFields(n: u16)
    ensures var udp := UdpHeader(68, 67, n); udp[0..2] == Be16(68) && udp[2..4] == Be16(67) && udp[4..6] == Be16(n)
  {
  }

  lemma MessageShape(mac: MacAddress, xid: u32, fields: seq<Field>)
    requires AllOk(fields)
    ensures var m := MessageOf(mac, xid, fields);
      && |m| > FIXED && m[FIXED..] == EncodeFields(fields) + [END]
      && m[..4] == [1, 1, 6, 0] && m[4..8] == Be32(xid) && m[8..28] == Zeros(20) && m[28..34] == mac
      && m[34..236] == Zeros(202) && m[236..240] == [0x63, 0x82, 0x53, 0x63]
  {
    hide EncodeFields;
    var m, f := MessageOf(mac, xid, fields), FixedPart(mac, xid);
    assert m[..FIXED] == f;
    assert f[..4] == [1, 1, 6, 0] && f[4..8] == Be32(xid) && f[8..28] == Zeros(20);
    assert f[28..34] == mac && f[34..236] == Zeros(202) && f[236..240] == [0x63, 0x82, 0x53, 0x63];
    assert m[..4] == m[..FIXED][..4] && m[4..8] == m[..FIXED][4..8] && m[8..28] == m[..FIXED][8..28];
    assert m[28..34] == m[..FIXED][28..34] && m[34..236] == m[..FIXED][34..236] && m[236..240] == m[..FIXED][236..240];
  }

  /** Every frame built from a list of fields is accepted, and every lookup in it is a lookup in the list. */
  lemma BuiltFrame(mac: MacAddress, xid: u32, fields: seq<Field>, code: byte)
    requires AllOk(fields) && |EncodeFields(fields)| < 0x1000
    ensures var v := ParseMessage(FrameOf(mac, MessageOf(mac, xid, fields)));
      && v == Some(View(MessageOf(mac, xid, fields)))
      && Lookup(v.value.Options(), code) == FirstOf(fields, code)
      && v.value.data[0] == 1 && v.value.data[4..8] == Be32(xid) && v.value.data[28..34] == mac
  {
    hide EncodeFields, FirstOf, Lookup, OptionsValid, FixedPart;
    MessageShape(mac, xid, fields);
    assert EncodeFields(fields) + ([END] + []) == EncodeFields(fields) + [END];
    EncodedLookup(fields, [], code);
    FrameParses(mac, MessageOf(mac, xid, fields));
  }

  lemma FirstSkips(f: Field, rest: seq<Field>, code: byte)
    ensures FirstOf([f] + rest, code) == if f.Option? && f.code == code then Some(f.data) else FirstOf(rest, code)
  {
    assert ([f] + rest)[1..] == rest;
  }

  lemma {:induction false} FieldsSize(fs: seq<Field>)
    requires AllOk(fs)
    ensures |EncodeFields(fs)| <= 257 * |fs|
  {
    if fs != [] {
      FieldsSize(fs[1..]);
    }
  }

  /** A DISCOVER is accepted as one, and carries exactly what was put in. */
  lemma DiscoverComesBack(mac: MacAddress, xid: u32, host: HostName)
    ensures AllOk(DiscoverFields(mac, host)) && |EncodeFields(DiscoverFields(mac, host))| < 0x1000
    ensures var v := ParseMessage(FrameOf(mac, MessageOf(mac, xid, DiscoverFields(mac, host))));
      && v.Some? && IsType(v.value, 1, DISCOVER) && !IsType(v.value, 1, REQUEST)
      && v.value.data[4..8] == Be32(xid) && v.value.data[28..34] == mac
      && Lookup(v.value.Options(), 61) == Some([1] + mac) && Lookup(v.value.Options(), 12) == Some(host)
      && Lookup(v.value.Options(), 55) == Some([1, 3, 6])
      && Lookup(v.value.Options(), 50) == None && Lookup(v.value.Options(), 54) == None
  {
    hide Lookup, EncodeFields, FirstOf, MessageOf;
    var fs := DiscoverFields(mac, host);
    FieldsSize(fs);
    DiscoverFirsts(mac, host);
    BuiltFrame(mac, xid, fs, 53);
    BuiltFrame(mac, xid, fs, 61);
    BuiltFrame(mac, xid, fs, 12);
    BuiltFrame(mac, xid, fs, 55);
    BuiltFrame(mac, xid, fs, 50);
    BuiltFrame(mac, xid, fs, 54);
  }

  lemma DiscoverFirsts(mac: MacAddress, host: HostName)
    ensures var fs := DiscoverFields(mac, host);
      && FirstOf(fs, 53) == Some([DISCOVER]) && FirstOf(fs, 61) == Some([1] + mac) && FirstOf(fs, 12) == Some(host)
      && FirstOf(fs, 55) == Some([1, 3, 6]) && FirstOf(fs, 50) == None && FirstOf(fs, 54) == None
  {
    hide FirstOf;
    var fs := DiscoverFields(mac, host);
    var last := [fs[3]] + [];
    var l2 := [fs[2]] + last;
    var l1 := [fs[1]] + l2;
    assert fs == [fs[0]] + l1;
    FirstSkips(fs[0], l1, 53);
    FirstSkips(fs[0], l1, 61);
    FirstSkips(fs[1], l2, 61);
    FirstThrough(fs[0], fs[1], l2, 12);
    FirstSkips(fs[2], last, 12);
    FirstThrough(fs[0], fs[1], l2, 55);
    FirstThrough(fs[2], fs[3], [], 55);
    FirstSkips(fs[2], last, 55);
    FirstSkips(fs[3], [], 55);
    FirstThrough(fs[0], fs[1], l2, 50);
    FirstThrough(fs[2], fs[3], [], 50);
    FirstThrough(fs[0], fs[1], l2, 54);
    FirstThrough(fs[2], fs[3], [], 54);
    NothingFirst();
  }

  lemma NothingFirst()
    ensures forall code :: FirstOf([], code) == None
  {
  }

  /** A REQUEST likewise, with the address asked for and the server chosen. */
  lemma RequestComesBack(mac: MacAddress, xid: u32, host: HostName, client: seq<byte>, server: seq<byte>)
    requires |client| == 4 && |server| == 4
    ensures var fs := RequestFields(mac, host, client, server); AllOk(fs) && |EncodeFields(fs)| < 0x1000
    ensures var v := ParseMessage(FrameOf(mac, MessageOf(mac, xid, RequestFields(mac, host, client, server))));
      && v.Some? && IsType(v.value, 1, REQUEST) && !IsType(v.value, 1, DISCOVER)
      && v.value.data[4..8] == Be32(xid) && v.value.data[28..34] == mac
      && Lookup(v.value.Options(), 61) == Some([1] + mac) && Lookup(v.value.Options(), 12) == Some(host)
      && Lookup(v.value.Options(), 50) == Some(client) && Lookup(v.value.Options(), 54) == Some(server)
      && Lookup(v.value.Options(), 55) == Some([1, 3, 6])
  {
    hide Lookup, EncodeFields, FirstOf, MessageOf;
    var fs := RequestFields(mac, host, client, server);
    FieldsSize(fs);
    RequestFirsts(mac, host, client, server);
    BuiltFrame(mac, xid, fs, 53);
    BuiltFrame(mac, xid, fs, 61);
    BuiltFrame(mac, xid, fs, 12);
    BuiltFrame(mac, xid, fs, 50);
    BuiltFrame(mac, xid, fs, 54);
    BuiltFrame(mac, xid, fs, 55);
  }

  lemma RequestFirsts(mac: MacAddress, host: HostName, client: seq<byte>, server: seq<byte>)
    ensures var fs := RequestFields(mac, host, client, server);
      && FirstOf(fs, 53) == Some([REQUEST]) && FirstOf(fs, 61) == Some([1] + mac) && FirstOf(fs, 12) == Some(host)
      && FirstOf(fs, 50) == Some(client) && FirstOf(fs, 54) == Some(server) && FirstOf(fs, 55) == Some([1, 3, 6])
  {
    hide FirstOf;
    var fs := RequestFields(mac, host, client, server);
    var last := [fs[5]] + [];
    var l4 := [fs[4]] + last;
    var l3 := [fs[3]] + l4;
    var l2 := [fs[2]] + l3;
    var l1 := [fs[1]] + l2;
    assert fs == [fs[0]] + l1;
    FirstSkips(fs[0], l1, 53);
    FirstSkips(fs[0], l1, 61);
    FirstSkips(fs[1], l2, 61);
    FirstThrough(fs[0], fs[1], l2, 12);
    FirstSkips(fs[2], l3, 12);
    FirstThrough(fs[0], fs[1], l2, 50);
    FirstThrough(fs[2], fs[3], l4, 50);
    FirstSkips(fs[3], l4, 50);
    FirstSkips(fs[2], l3, 50);
    FirstThrough(fs[0], fs[1], l2, 54);
    FirstThrough(fs[2], fs[3], l4, 54);
    FirstSkips(fs[4], last, 54);
    FirstThrough(fs[0], fs[1], l2, 55);
    FirstThrough(fs[2], fs[3], l4, 55);
    FirstSkips(fs[4], last, 55);
    FirstSkips(fs[5], [], 55);
  }

  lemma FirstThrough(f: Field, g: Field, rest: seq<Field>, code: byte)
    ensures f.Option? && f.code != code && g.Option? && g.code != code ==>
      FirstOf([f] + ([g] + rest), code) == FirstOf(rest, code)
  {
    FirstSkips(f, [g] + rest, code);
    FirstSkips(g, rest, code);
  }

  // ---- Building in place ----

  /** The fixed part over a zeroed message of 1240 bytes. */
  method PutFixed(buffer: array<byte>, at: nat, mac: MacAddress, xid: u32)
    requires at + 1240 <= buffer.Length
    modifies buffer
    ensures buffer[at..at + FIXED] == FixedPart(mac, xid)
    ensures forall i :: 0 <= i < at ==> buffer[i] == old(buffer[i])
  {
    Put(buffer, at, Zeros(1240));
    ghost var zeros := Zeros(1240);
    assert forall j {:trigger buffer[j]} :: at <= j < at + 1240 ==> buffer[j] == zeros[j - at] == 0 by {
      assert buffer[at..at + 1240] == zeros;
      assert forall j {:trigger buffer[j]} :: at <= j < at + 1240 ==> buffer[j] == buffer[at..at + 1240][j - at];
    }
    Put(buffer, at, [1, 1, 6]);
    Put(buffer, at + 4, Be32(xid));
    Put(buffer, at + 28, mac);
    Put(buffer, at + 236, [0x63, 0x82, 0x53, 0x63]);
    assert forall j {:trigger buffer[j]} :: at + 8 <= j < at + 28 || at + 34 <= j < at + 236 ==> buffer[j] == 0;
    assert buffer[at + 3] == 0;
    assert buffer[at..at + 4] == [1, 1, 6, 0] && buffer[at + 8..at + 28] == Zeros(20) &&
      buffer[at + 34..at + 236] == Zeros(202);
    assert buffer[at + 4..at + 8] == Be32(xid) && buffer[at + 28..at + 34] == mac;
    FixedAt(buffer[..], at, mac, xid);
  }

  lemma FixedAt(b: seq<byte>, at: nat, mac: MacAddress, xid: u32)
    requires at + FIXED <= |b|
    requires b[at..at + 4] == [1, 1, 6, 0] && b[at + 4..at + 8] == Be32(xid) && b[at + 8..at + 28] == Zeros(20)
    requires b[at + 28..at + 34] == mac && b[at + 34..at + 236] == Zeros(202)
    requires b[at + 236..at + 240] == [0x63, 0x82, 0x53, 0x63]
    ensures b[at..at + FIXED] == FixedPart(mac, xid)
  {
    hide Be32, Zeros;
    JoinSlices(b, at, at + 4, at + 8);
    JoinSlices(b, at, at + 8, at + 28);
    JoinSlices(b, at, at + 28, at + 34);
    JoinSlices(b, at, at + 34, at + 236);
    JoinSlices(b, at, at + 236, at + 240);
  }

  /** One option behind those already written. */
  method PutOption(buffer: array<byte>, base: nat, size: nat, code: byte, data: seq<byte>, ghost fields: seq<Field>)
    returns (next: nat, ghost more: seq<Field>)
    requires FieldOk(Option(code, data)) && AllOk(fields) && base + size + 2 + |data| <= buffer.Length
    requires buffer[base..base + size] == EncodeFields(fields)
    modifies buffer
    ensures next == size + 2 + |data| && more == fields + [Option(code, data)] && AllOk(more)
    ensures buffer[base..base + next] == EncodeFields(more)
    ensures forall i :: 0 <= i < base + size ==> buffer[i] == old(buffer[i])
  {
    hide EncodeFields;
    ghost var written := buffer[base..base + size];
    Put(buffer, base + size, [code, |data|] + data);
    next := size + 2 + |data|;
    more := fields + [Option(code, data)];
    EncodeSnoc(fields, Option(code, data));
    assert buffer[base..base + size] == written;
    assert buffer[base..base + next] == buffer[base..base + size] + buffer[base + size..base + next];
  }

  lemma {:induction false} EncodeSnoc(fs: seq<Field>, f: Field)
    requires AllOk(fs) && FieldOk(f)
    ensures EncodeFields(fs + [f]) == EncodeFields(fs) + EncodeField(f)
  {
    hide EncodeField;
    if fs == [] {
      assert fs + [f] == [f] && [f][1..] == [];
    } else {
      assert (fs + [f])[1..] == fs[1..] + [f];
      EncodeSnoc(fs[1..], f);
      ConcatAssociative(EncodeField(fs[0]), EncodeFields(fs[1..]), EncodeField(f));
    }
  }

  /** The options both messages start with. */
  method PutCommon(buffer: array<byte>, base: nat, kind: byte, mac: MacAddress, host: HostName)
    returns (size: nat, ghost fields: seq<Field>)
    requires base + 100 <= buffer.Length
    modifies buffer
    ensures size == 22 && fields == [Option(53, [kind]), Option(61, [1] + mac), Option(12, host)] && AllOk(fields)
    ensures buffer[base..base + size] == EncodeFields(fields)
    ensures forall i :: 0 <= i < base ==> buffer[i] == old(buffer[i])
  {
    size, fields := 0, [];
    size, fields := PutOption(buffer, base, size, 53, [kind], fields);
    size, fields := PutOption(buffer, base, size, 61, [1] + mac, fields);
    size, fields := PutOption(buffer, base, size, 12, host, fields);
  }

  /** The request list and END. */
  method PutClosing(buffer: array<byte>, base: nat, size: nat, ghost fields: seq<Field>) returns (next: nat)
    requires AllOk(fields) && base + size + 6 <= buffer.Length && buffer[base..base + size] == EncodeFields(fields)
    modifies buffer
    ensures AllOk(fields + [Option(55, [1, 3, 6])]) && next == size + 6
    ensures buffer[base..base + next] == EncodeFields(fields + [Option(55, [1, 3, 6])]) + [END]
    ensures forall i :: 0 <= i < base ==> buffer[i] == old(buffer[i])
  {
    ghost var more;
    next, more := PutOption(buffer, base, size, 55, [1, 3, 6], fields);
    ghost var listed := buffer[base..base + next];
    buffer[base + next] := END;
    next := next + 1;
    assert buffer[base..base + next] == listed + [END];
  }

  method PutDiscover(buffer: array<byte>, at: nat, mac: MacAddress, xid: u32, host: HostName) returns (length: nat)
    requires at + 1240 <= buffer.Length
    modifies buffer
    ensures AllOk(DiscoverFields(mac, host)) && at + length <= buffer.Length
    ensures buffer[at..at + length] == MessageOf(mac, xid, DiscoverFields(mac, host))
    ensures forall i :: 0 <= i < at ==> buffer[i] == old(buffer[i])
  {
    hide EncodeFields, FixedPart;
    PutFixed(buffer, at, mac, xid);
    ghost var fixed := buffer[at..at + FIXED];
    var size, fields := PutCommon(buffer, at + FIXED, DISCOVER, mac, host);
    size := PutClosing(buffer, at + FIXED, size, fields);
    length := FIXED + size;
    assert buffer[at..at + FIXED] == fixed;
    assert buffer[at..at + length] == buffer[at..at + FIXED] + buffer[at + FIXED..at + FIXED + size];
    assert DiscoverFields(mac, host) == fields + [Option(55, [1, 3, 6])];
  }

  method PutRequest(buffer: array<byte>, at: nat, mac: MacAddress, xid: u32, client: seq<byte>, server: seq<byte>,
                    host: HostName)
    returns (length: nat)
    requires at + 1240 <= buffer.Length && |client| == 4 && |server| == 4
    modifies buffer
    ensures AllOk(RequestFields(mac, host, client, server)) && at + length <= buffer.Length
    ensures buffer[at..at + length] == MessageOf(mac, xid, RequestFields(mac, host, client, server))
    ensures forall i :: 0 <= i < at ==> buffer[i] == old(buffer[i])
  {
    hide EncodeFields, FixedPart;
    PutFixed(buffer, at, mac, xid);
    ghost var fixed := buffer[at..at + FIXED];
    var size, fields := PutCommon(buffer, at + FIXED, REQUEST, mac, host);
    size, fields := PutOption(buffer, at + FIXED, size, 50, client, fields);
    size, fields := PutOption(buffer, at + FIXED, size, 54, server, fields);
    size := PutClosing(buffer, at + FIXED, size, fields);
    length := FIXED + size;
    assert buffer[at..at + FIXED] == fixed;
    assert buffer[at..at + length] == buffer[at..at + FIXED] + buffer[at + FIXED..at + FIXED + size];
    assert RequestFields(mac, host, client, server) == fields + [Option(55, [1, 3, 6])];
  }

  /** The headers in front of a message that is already in the buffer. */
  method PutHeaders(buffer: array<byte>, mac: MacAddress, length: nat, ghost message: seq<byte>) returns (total: nat)
    requires 42 + length <= buffer.Length && length == |message| < 0x1_0000 - 28 && buffer[42..42 + length] == message
    modifies buffer
    ensures total == 42 + length && total <= buffer.Length && buffer[..total] == FrameOf(mac, message)
  {
    hide InternetChecksum, Ipv4Header;
    Put(buffer, 0, [0xFF, 0xFF, 0xFF, 0xFF, 0xFF, 0xFF] + mac + [8, 0]);
    ghost var ethernet := buffer[0..14];
    SetIpv4Header(buffer, 14, 0x11, length + 8, [0, 0, 0, 0], [0xFF, 0xFF, 0xFF, 0xFF], 0, 0x4000, 128);
    ghost var ip := buffer[14..34];
    Put(buffer, 34, Be16(68) + Be16(67) + Be16(length + 8) + [0, 0]);
    total := 42 + length;
    assert buffer[0..14] == ethernet && buffer[14..34] == ip && buffer[42..total] == message;
    assert buffer[..total] == buffer[0..14] + buffer[14..34] + (buffer[34..42] + buffer[42..total]);
  }

  method SetDiscoverFrame(buffer: array<byte>, mac: MacAddress, xid: u32, host: HostName) returns (length: nat)
    requires buffer.Length == 1518
    modifies buffer
    ensures AllOk(DiscoverFields(mac, host)) && length <= buffer.Length
    ensures |MessageOf(mac, xid, DiscoverFields(mac, host))| < 0x1_0000 - 28
    ensures buffer[..length] == FrameOf(mac, MessageOf(mac, xid, DiscoverFields(mac, host)))
  {
    hide MessageOf, FrameOf;
    length := PutDiscover(buffer, 42, mac, xid, host);
    length := PutHeaders(buffer, mac, length, MessageOf(mac, xid, DiscoverFields(mac, host)));
  }

  method SetRequestFrame(buffer: array<byte>, mac: MacAddress, xid: u32, client: seq<byte>, server: seq<byte>,
                         host: HostName)
    returns (length: nat)
    requires buffer.Length == 1518 && |client| == 4 && |server| == 4
    modifies buffer
    ensures AllOk(RequestFields(mac, host, client, server)) && length <= buffer.Length
    ensures |MessageOf(mac, xid, RequestFields(mac, host, client, server))| < 0x1_0000 - 28
    ensures buffer[..length] == FrameOf(mac, MessageOf(mac, xid, RequestFields(mac, host, client, server)))
  {
    hide MessageOf, FrameOf;
    length := PutRequest(buffer, 42, mac, xid, client, server, host);
    length := PutHeaders(buffer, mac, length, MessageOf(mac, xid, RequestFields(mac, host, client, server)));
  }
}
