/**
 One run of the DHCP client: discover, wait, request, wait, until an acknowledgement,
 a cancel, a lost link or a timeout. The environment's part of every loop turn is an
 argument, so that a claim about the method is a claim about every run.
 */
module Dora {
  import opened Bytes
  import opened Neighbors
  import opened Dhcp

  // ---- What the client reads in a frame ----

  datatype Offer = Offer(serverMac: MacAddress, client: seq<byte>, server: seq<byte>)

  datatype Lease = Lease(ip: seq<byte>, mask: seq<byte>, router: seq<byte>, dns: seq<byte>, server: seq<byte>)

  predicate HasXid(v: View, xid: u32)
    requires v.Valid()
  {
    ReadBe32(v.data[4..8]) == xid
  }

  /** An OFFER of this run, with a four-byte server identifier. */
  function OfferIn(frame: seq<byte>, xid: u32): (r: Option<Offer>)
    ensures r.Some? ==> |r.value.client| == 4 && |r.value.server| == 4
  {
    match ParseMessage(frame)
    case None => None
    case Some(v) =>
      if !IsType(v, 2, OFFER) || !HasXid(v, xid) then None
      else
        match Lookup(v.Options(), 54)
        case None => None
        case Some(server) =>
          if |server| != 4 then None else Some(Offer(frame[6..12], v.data[16..20], server))
  }

  predicate AddressList(data: seq<byte>) {
    |data| >= 4 && |data| % 4 == 0
  }

  /** An acknowledgement of this run with everything the lease needs. */
  function LeaseIn(frame: seq<byte>, xid: u32): (r: Option<Lease>)
    ensures r.Some? ==> |r.value.ip| == 4 && |r.value.mask| == 4 && |r.value.router| == 4
  {
    match ParseMessage(frame)
    case None => None
    case Some(v) =>
      if !IsType(v, 2, ACK) || !HasXid(v, xid) then None
      else
        var mask, router := Lookup(v.Options(), 1), Lookup(v.Options(), 3);
        var dns, server := Lookup(v.Options(), 6), Lookup(v.Options(), 54);
        if mask.None? || |mask.value| != 4 || router.None? || !AddressList(router.value) then None
        else if dns.Some? && !AddressList(dns.value) then None
        else if server.None? || |server.value| != 4 then None
        else
          var resolver := if dns.Some? then dns.value[..4] else Zeros(4);
          Some(Lease(v.data[16..20], mask.value, router.value[..4], resolver, server.value))
  }

  // ---- Runs ----

  /** What the environment does in one turn of the loop: link, cancel flag, clock, received bytes. */
  datatype Turn = Turn(linkUp: bool, cancelled: bool, expired: bool, received: seq<byte>)

  datatype Phase = Init | Requesting | Waiting | Done

  /** What the client did, as far as it can be seen on the wire. */
  datatype Event =
    | SentDiscover(frame: seq<byte>)
    | SentRequest(frame: seq<byte>)
    | AcceptedOffer(frame: seq<byte>)
    | AcceptedAck(frame: seq<byte>)

  function RequestFor(mac: MacAddress, xid: u32, host: HostName, offer: Offer): seq<byte>
    requires |offer.client| == 4 && |offer.server| == 4
  {
    RequestComesBack(mac, xid, host, offer.client, offer.server);
    FrameOf(mac, MessageOf(mac, xid, RequestFields(mac, host, offer.client, offer.server)))
  }

  function DiscoverFor(mac: MacAddress, xid: u32, host: HostName): seq<byte> {
    DiscoverComesBack(mac, xid, host);
    FrameOf(mac, MessageOf(mac, xid, DiscoverFields(mac, host)))
  }

  /** One event of a run is in order, given the events before it. */
  predicate EventOk(before: seq<Event>, e: Event, mac: MacAddress, xid: u32, host: HostName) {
    match e
    case SentDiscover(frame) => before == [] && frame == DiscoverFor(mac, xid, host)
    case SentRequest(frame) =>
      && before != [] && before[|before| - 1].AcceptedOffer?
      && var offer := OfferIn(before[|before| - 1].frame, xid);
      offer.Some? && frame == RequestFor(mac, xid, host, offer.value)
    case AcceptedOffer(frame) => before != [] && OfferIn(frame, xid).Some?
    case AcceptedAck(frame) => before != [] && LeaseIn(frame, xid).Some?
  }

  ghost predicate TraceOk(events: seq<Event>, mac: MacAddress, xid: u32, host: HostName) {
    forall k :: 0 <= k < |events| ==> EventOk(events[..k], events[k], mac, xid, host)
  }

  lemma TraceSnoc(events: seq<Event>, e: Event, mac: MacAddress, xid: u32, host: HostName)
    requires TraceOk(events, mac, xid, host) && EventOk(events, e, mac, xid, host)
    ensures TraceOk(events + [e], mac, xid, host)
  {
    hide EventOk;
    var all := events + [e];
    forall k | 0 <= k < |all|
      ensures EventOk(all[..k], all[k], mac, xid, host)
    {
      assert k < |events| ==> all[..k] == events[..k];
      assert k == |events| ==> all[..k] == events;
    }
  }

  /** At most one DISCOVER, and it comes first. */
  lemma OneDiscover(events: seq<Event>, mac: MacAddress, xid: u32, host: HostName, i: nat)
    requires TraceOk(events, mac, xid, host) && i < |events| && events[i].SentDiscover?
    ensures i == 0
  {
    assert EventOk(events[..i], events[i], mac, xid, host);
  }

  /** The most recent accepted OFFER. */
  function LastOffer(events: seq<Event>, xid: u32): Option<Offer> {
    if events == [] then None
    else if events[|events| - 1].AcceptedOffer? then OfferIn(events[|events| - 1].frame, xid)
    else LastOffer(events[..|events| - 1], xid)
  }

  lemma LastOfferSnoc(events: seq<Event>, e: Event, xid: u32)
    ensures LastOffer(events + [e], xid) == if e.AcceptedOffer? then OfferIn(e.frame, xid) else LastOffer(events, xid)
  {
    assert (events + [e])[..|events|] == events;
  }

  /** The server MAC in use: that of the most recent OFFER, or what was there before the run. */
  function ServerMacAfter(events: seq<Event>, xid: u32, before: MacAddress): MacAddress {
    if LastOffer(events, xid).Some? then LastOffer(events, xid).value.serverMac else before
  }

  /** Every REQUEST goes to the server, and asks for the address, of the most recent accepted OFFER. */
  lemma RequestFollowsOffer(events: seq<Event>, mac: MacAddress, xid: u32, host: HostName, i: nat)
    requires TraceOk(events, mac, xid, host) && i < |events| && events[i].SentRequest?
    ensures var offer := LastOffer(events[..i], xid);
      && offer.Some?
      && var v := ParseMessage(events[i].frame);
      && v.Some? && IsType(v.value, 1, REQUEST) && HasXid(v.value, xid)
      && Lookup(v.value.Options(), 50) == Some(offer.value.client)
      && Lookup(v.value.Options(), 54) == Some(offer.value.server)
  {
    hide OfferIn, RequestFor, Lookup, ParseMessage, LeaseIn, DiscoverFor;
    assert EventOk(events[..i], events[i], mac, xid, host);
    RequestReads(mac, xid, host, OfferIn(events[..i][i - 1].frame, xid).value);
  }

  lemma RequestReads(mac: MacAddress, xid: u32, host: HostName, offer: Offer)
    requires |offer.client| == 4 && |offer.server| == 4
    ensures var v := ParseMessage(RequestFor(mac, xid, host, offer));
      && v.Some? && IsType(v.value, 1, REQUEST) && HasXid(v.value, xid)
      && Lookup(v.value.Options(), 50) == Some(offer.client)
      && Lookup(v.value.Options(), 54) == Some(offer.server)
  {
    hide Lookup, FrameOf, MessageOf, ParseMessage, RequestFields, AllOk, EncodeFields, Be32, ReadBe32;
    RequestComesBack(mac, xid, host, offer.client, offer.server);
    ReadBe32OfBe32(xid);
  }

  // ---- What a server's replies are read as ----

  /** A reply with the transaction's number, the address given, and options. */
  function Reply(xid: u32, ip: seq<byte>, fields: seq<Field>): (m: seq<byte>)
    requires |ip| == 4 && AllOk(fields)
    ensures |m| > 240
  {
    [2, 1, 6, 0] + Be32(xid) + Zeros(8) + ip + Zeros(216) + [0x63, 0x82, 0x53, 0x63] + (EncodeFields(fields) + [255])
  }

  lemma ReplyParts(xid: u32, ip: seq<byte>, fields: seq<Field>)
    requires |ip| == 4 && AllOk(fields)
    ensures var m := Reply(xid, ip, fields);
      && |m| > FIXED && m[0] == 2 && m[4..8] == Be32(xid) && m[16..20] == ip
      && m[236..240] == [0x63, 0x82, 0x53, 0x63] && m[FIXED..] == EncodeFields(fields) + [END]
  {
    hide Be32, EncodeFields;
  }

  /** A reply is found on the wire whatever surrounds it, and its options are those of the list. */
  lemma ReplyReads(w: Wire, xid: u32, ip: seq<byte>, fields: seq<Field>)
    requires |ip| == 4 && AllOk(fields) && WireOk(w, Reply(xid, ip, fields))
    ensures var m := Reply(xid, ip, fields);
      && |m| >= FIXED && ParseMessage(OnWire(w, m)) == Some(View(m))
      && |OnWire(w, m)| >= 12 && OnWire(w, m)[..12] == w.head
      && m[0] == 2 && ReadBe32(m[4..8]) == xid && m[16..20] == ip
      && forall code :: Lookup(m[FIXED..], code) == FirstOf(fields, code)
  {
    hide EncodeFields, Lookup, OptionsValid, UdpPayload, OnWire, Reply, Be32, ReadBe32;
    var m := Reply(xid, ip, fields);
    ReplyParts(xid, ip, fields);
    WireFound(w, m);
    WireParts(w, m);
    ReadBe32OfBe32(xid);
    assert [END] + [] == [END];
    EncodedLookup(fields, [], 0);
    forall code
      ensures Lookup(m[FIXED..], code) == FirstOf(fields, code)
    {
      EncodedLookup(fields, [], code);
    }
  }

  /** A reply of message type 2 with a server identifier is an OFFER; the server's MAC is the frame's source. */
  lemma OfferReads(w: Wire, xid: u32, ip: seq<byte>, fields: seq<Field>)
    requires |ip| == 4 && AllOk(fields) && WireOk(w, Reply(xid, ip, fields))
    requires FirstOf(fields, 53) == Some([2])
    requires FirstOf(fields, 54).Some? && |FirstOf(fields, 54).value| == 4
    ensures OfferIn(OnWire(w, Reply(xid, ip, fields)), xid) == Some(Offer(w.head[6..12], ip, FirstOf(fields, 54).value))
  {
    hide EncodeFields, Lookup, OptionsValid, OnWire, ParseMessage, Reply, FirstOf, ReadBe32;
    ReplyReads(w, xid, ip, fields);
    var f := OnWire(w, Reply(xid, ip, fields));
    assert w.head[..12] == w.head;
    PrefixAgrees(f, w.head, 12, 6, 12);
  }

  /** The resolver a list of options names, or none. */
  function Resolver(dns: Option<seq<byte>>): seq<byte>
    requires dns.Some? ==> |dns.value| >= 4
  {
    if dns.Some? then dns.value[..4] else Zeros(4)
  }

  /** A reply of message type 5 with mask, routers and server identifier is a lease; of the routers the first counts. */
  lemma LeaseReads(w: Wire, xid: u32, ip: seq<byte>, fields: seq<Field>, mask: seq<byte>, routers: seq<byte>,
                   server: seq<byte>)
    requires |ip| == 4 && AllOk(fields) && WireOk(w, Reply(xid, ip, fields))
    requires FirstOf(fields, 53) == Some([5])
    requires FirstOf(fields, 1) == Some(mask) && |mask| == 4 && FirstOf(fields, 54) == Some(server) && |server| == 4
    requires FirstOf(fields, 3) == Some(routers) && |routers| >= 4 && |routers| % 4 == 0
    requires var dns := FirstOf(fields, 6); dns.Some? ==> |dns.value| >= 4 && |dns.value| % 4 == 0
    ensures var frame := OnWire(w, Reply(xid, ip, fields));
      && LeaseIn(frame, xid) == Some(Lease(ip, mask, routers[..4], Resolver(FirstOf(fields, 6)), server))
      && OfferIn(frame, xid) == None
  {
    hide EncodeFields, Lookup, OptionsValid, OnWire, ParseMessage, Reply, FirstOf, ReadBe32;
    ReplyReads(w, xid, ip, fields);
  }

  /** A server's message of this run: operation 2, the transaction, the cookie, and options with a message type. */
  predicate ReplyOf(data: seq<byte>, xid: u32, kind: byte, fields: seq<Field>, after: seq<byte>) {
    && |data| >= 240 && AllOk(fields) && data[0] == 2 && data[4..8] == Be32(xid)
    && data[236..240] == [0x63, 0x82, 0x53, 0x63] && data[240..] == EncodeFields(fields) + ([255] + after)
    && FirstOf(fields, 53) == Some([kind])
  }

  predicate FourBytes(o: Option<seq<byte>>) {
    o.Some? && |o.value| == 4
  }

  /** One address or more. */
  predicate Addresses(o: Option<seq<byte>>) {
    o.Some? && |o.value| >= 4 && |o.value| % 4 == 0
  }

  /** The frame carries such a message, and its options make it an OFFER. */
  predicate OfferFrame(frame: seq<byte>, xid: u32, w: Wire, data: seq<byte>, fields: seq<Field>, after: seq<byte>) {
    && WireOk(w, data) && frame == OnWire(w, data) && ReplyOf(data, xid, 2, fields, after)
    && FourBytes(FirstOf(fields, 54))
  }

  /** Or an acknowledgement with a lease: mask, routers, server, and resolvers if there are any. */
  predicate LeaseFrame(frame: seq<byte>, xid: u32, w: Wire, data: seq<byte>, fields: seq<Field>, after: seq<byte>) {
    && WireOk(w, data) && frame == OnWire(w, data) && ReplyOf(data, xid, 5, fields, after)
    && FourBytes(FirstOf(fields, 1)) && Addresses(FirstOf(fields, 3)) && FourBytes(FirstOf(fields, 54))
    && (FirstOf(fields, 6).Some? ==> Addresses(FirstOf(fields, 6)))
  }

  /** The message in a frame, with its options as a list. */
  lemma MessageFound(w: Wire, data: seq<byte>, xid: u32, kind: byte, fields: seq<Field>, after: seq<byte>)
    requires WireOk(w, data) && ReplyOf(data, xid, kind, fields, after)
    ensures ParseMessage(OnWire(w, data)) == Some(View(data))
    ensures forall code :: Lookup(data[240..], code) == FirstOf(fields, code)
    ensures ReadBe32(data[4..8]) == xid
    ensures |OnWire(w, data)| >= 12 && OnWire(w, data)[6..12] == w.head[6..12]
  {
    hide EncodeFields, Lookup, OptionsValid, UdpPayload, OnWire, FirstOf, Be32, ReadBe32;
    WireFound(w, data);
    WireParts(w, data);
    ReadBe32OfBe32(xid);
    EncodedLookup(fields, after, 0);
    forall code
      ensures Lookup(data[240..], code) == FirstOf(fields, code)
    {
      EncodedLookup(fields, after, code);
    }
    assert w.head[..12] == w.head;
    PrefixAgrees(OnWire(w, data), w.head, 12, 6, 12);
  }

  /** Any message that is accepted at all lies in its frame so. */
  lemma MessageSplit(frame: seq<byte>, xid: u32, kind: byte)
    returns (w: Wire, data: seq<byte>, fields: seq<Field>, after: seq<byte>)
    requires ParseMessage(frame).Some?
    requires var v := ParseMessage(frame).value; IsType(v, 2, kind) && HasXid(v, xid)
    ensures WireOk(w, data) && frame == OnWire(w, data) && ReplyOf(data, xid, kind, fields, after)
  {
    hide EncodeFields, Lookup, OptionsValid, UdpPayload, OnWire, WireOk, FirstOf, Be32, ReadBe32;
    w := WireOnly(frame);
    data := ParseMessage(frame).value.data;
    fields, after := ValidIsEncoded(data[FIXED..]);
    EncodedLookup(fields, after, 53);
    Be32OfReadBe32(data[4..8]);
  }

  /** A frame is accepted as an OFFER exactly when it is one of this transaction, and the values are those in it. */
  lemma OfferExact(frame: seq<byte>, xid: u32, o: Offer)
    ensures OfferIn(frame, xid) == Some(o) <==>
      exists w, data, fields, after :: OfferFrame(frame, xid, w, data, fields, after) &&
        o == Offer(w.head[6..12], data[16..20], FirstOf(fields, 54).value)
  {
    hide EncodeFields, Lookup, OptionsValid, UdpPayload, OnWire, FirstOf, Be32, ReadBe32;
    if OfferIn(frame, xid).Some? {
      var w, data, fields, after := MessageSplit(frame, xid, 2);
      MessageFound(w, data, xid, 2, fields, after);
      assert OfferFrame(frame, xid, w, data, fields, after);
    }
    forall w, data, fields, after | OfferFrame(frame, xid, w, data, fields, after)
      ensures OfferIn(frame, xid) == Some(Offer(w.head[6..12], data[16..20], FirstOf(fields, 54).value))
    {
      MessageFound(w, data, xid, 2, fields, after);
    }
  }

  /** A frame brings a lease exactly when it is an acknowledgement of this transaction with what a lease needs. */
  lemma LeaseExact(frame: seq<byte>, xid: u32, l: Lease)
    ensures LeaseIn(frame, xid) == Some(l) <==>
      exists w, data, fields, after :: LeaseFrame(frame, xid, w, data, fields, after) &&
        l == Lease(data[16..20], FirstOf(fields, 1).value, FirstOf(fields, 3).value[..4],
                   Resolver(FirstOf(fields, 6)), FirstOf(fields, 54).value)
  {
    hide EncodeFields, Lookup, OptionsValid, UdpPayload, OnWire, WireOk, FirstOf, Be32, ReadBe32;
    if LeaseIn(frame, xid).Some? {
      var w, data, fields, after := MessageSplit(frame, xid, 5);
      MessageFound(w, data, xid, 5, fields, after);
      assert LeaseFrame(frame, xid, w, data, fields, after);
    }
    forall w, data, fields, after | LeaseFrame(frame, xid, w, data, fields, after)
      ensures LeaseIn(frame, xid) == Some(
        Lease(data[16..20], FirstOf(fields, 1).value, FirstOf(fields, 3).value[..4], Resolver(FirstOf(fields, 6)),
              FirstOf(fields, 54).value))
    {
      MessageFound(w, data, xid, 5, fields, after);
    }
  }

  /**
   A run in which the lease comes without any OFFER: the client takes it, and the server's
   MAC it reports is whatever was there before the run.
   */
  lemma AckWithoutOffer(mac: MacAddress, xid: u32, host: HostName, w: Wire, ip: seq<byte>, mask: seq<byte>,
                        router: seq<byte>, server: seq<byte>)
    requires |ip| == |mask| == |router| == |server| == 4
    requires WireOk(w, Reply(xid, ip, AckFields(mask, router, server)))
    ensures var frame := OnWire(w, Reply(xid, ip, AckFields(mask, router, server)));
      var turns := [Turn(true, false, false, []), Turn(true, false, false, frame)];
      var events := TalkOf(turns, Fresh, mac, xid, host);
      && LeaseIn(frame, xid) == Some(Lease(ip, mask, router, Zeros(4), server))
      && events == [SentDiscover(DiscoverFor(mac, xid, host)), AcceptedAck(frame)]
      && forall before: MacAddress :: ServerMacAfter(events, xid, before) == before
  {
    hide FirstOf, OnWire, Reply, LeaseIn, OfferIn, DiscoverFor;
    var fields := AckFields(mask, router, server);
    AckFirsts(mask, router, server);
    LeaseReads(w, xid, ip, fields, mask, router, server);
    assert router[..4] == router;
    var frame := OnWire(w, Reply(xid, ip, fields));
    TalkOfTwo(frame, mac, xid, host);
    AckTrace(mac, xid, host, frame);
  }

  /** What a server must send at least: message type, mask, router and server identifier. */
  function AckFields(mask: seq<byte>, router: seq<byte>, server: seq<byte>): (fs: seq<Field>)
    requires |mask| == |router| == |server| == 4
    ensures AllOk(fs)
  {
    [Option(53, [5]), Option(1, mask), Option(3, router), Option(54, server)]
  }

  lemma TalkOfTwo(frame: seq<byte>, mac: MacAddress, xid: u32, host: HostName)
    requires OfferIn(frame, xid).None? && LeaseIn(frame, xid).Some?
    ensures TalkOf([Turn(true, false, false, []), Turn(true, false, false, frame)], Fresh, mac, xid, host) ==
      [SentDiscover(DiscoverFor(mac, xid, host)), AcceptedAck(frame)]
  {
    hide OfferIn, LeaseIn, DiscoverFor;
    var a, b := Turn(true, false, false, []), Turn(true, false, false, frame);
    assert [a, b][1..] == [b];
    assert TalkOf([b], Hearing, mac, xid, host) == [AcceptedAck(frame)];
  }

  /** The whole exchange, when the link stays up and the server's two replies are heard in their turns. */
  lemma ExchangeSucceeds(mac: MacAddress, xid: u32, host: HostName, offered: seq<byte>, leased: seq<byte>)
    requires OfferIn(offered, xid).Some?
    requires OfferIn(leased, xid).None? && LeaseIn(leased, xid).Some?
    ensures var turns := [Turn(true, false, false, []), Turn(true, false, false, offered),
                          Turn(true, false, false, []), Turn(true, false, false, leased)];
      TalkOf(turns, Fresh, mac, xid, host) ==
      [SentDiscover(DiscoverFor(mac, xid, host)), AcceptedOffer(offered),
       SentRequest(RequestFor(mac, xid, host, OfferIn(offered, xid).value)), AcceptedAck(leased)]
  {
    hide OfferIn, LeaseIn, DiscoverFor, RequestFor;
    var a, b, c := Turn(true, false, false, []), Turn(true, false, false, offered), Turn(true, false, false, leased);
    assert [a, b, a, c][1..] == [b, a, c] && [b, a, c][1..] == [a, c] && [a, c][1..] == [c];
    var offer := OfferIn(offered, xid).value;
    assert TalkOf([c], Hearing, mac, xid, host) == [AcceptedAck(leased)];
    assert TalkOf([a, c], Asking(offer), mac, xid, host) ==
      [SentRequest(RequestFor(mac, xid, host, offer))] + [AcceptedAck(leased)];
  }

  lemma AckTrace(mac: MacAddress, xid: u32, host: HostName, frame: seq<byte>)
    requires LeaseIn(frame, xid).Some?
    ensures var events := [SentDiscover(DiscoverFor(mac, xid, host)), AcceptedAck(frame)];
      && TraceOk(events, mac, xid, host)
      && forall before: MacAddress :: ServerMacAfter(events, xid, before) == before
  {
    hide LeaseIn, OfferIn, DiscoverFor, RequestFor;
    var first := SentDiscover(DiscoverFor(mac, xid, host));
    NoEvents(mac, xid, host);
    EventFollows([], first, mac, xid, host);
    EventFollows([] + [first], AcceptedAck(frame), mac, xid, host);
    assert [] + [first] + [AcceptedAck(frame)] == [first, AcceptedAck(frame)];
  }

  lemma AckFirsts(mask: seq<byte>, router: seq<byte>, server: seq<byte>)
    requires |mask| == |router| == |server| == 4
    ensures var fs := AckFields(mask, router, server);
      && AllOk(fs) && |fs| == 4
      && FirstOf(fs, 53) == Some([5]) && FirstOf(fs, 1) == Some(mask) && FirstOf(fs, 3) == Some(router)
      && FirstOf(fs, 6) == None && FirstOf(fs, 54) == Some(server)
  {
    var last := [Option(54, server)];
    FirstAt(Option(54, server), []);
    FirstAt(Option(3, router), last);
    FirstAt(Option(1, mask), [Option(3, router)] + last);
    FirstAt(Option(53, [5]), [Option(1, mask)] + ([Option(3, router)] + last));
    NothingFirst();
    assert AckFields(mask, router, server) == [Option(53, [5])] + ([Option(1, mask)] + ([Option(3, router)] + last));
    assert last == last + [] && [Option(54, server)] + [] == last;
  }

  lemma FirstAt(f: Field, rest: seq<Field>)
    ensures forall code ::
      FirstOf([f] + rest, code) == if f.Option? && f.code == code then Some(f.data) else FirstOf(rest, code)
  {
    forall code
      ensures FirstOf([f] + rest, code) == if f.Option? && f.code == code then Some(f.data) else FirstOf(rest, code)
    {
      FirstSkips(f, rest, code);
    }
  }

  lemma NoEvents(mac: MacAddress, xid: u32, host: HostName)
    ensures TraceOk([], mac, xid, host) && LastOffer([], xid) == None
  {
  }

  /** One more event in order. */
  lemma EventFollows(events: seq<Event>, e: Event, mac: MacAddress, xid: u32, host: HostName)
    requires TraceOk(events, mac, xid, host)
    requires EventOk(events, e, mac, xid, host)
    ensures TraceOk(events + [e], mac, xid, host)
    ensures LastOffer(events + [e], xid) == if e.AcceptedOffer? then OfferIn(e.frame, xid) else LastOffer(events, xid)
  {
    hide OfferIn, LeaseIn, RequestFor, DiscoverFor;
    TraceSnoc(events, e, mac, xid, host);
    LastOfferSnoc(events, e, xid);
  }

  lemma DiscoverSent(frame: seq<byte>, mac: MacAddress, xid: u32, host: HostName)
    requires AllOk(DiscoverFields(mac, host)) && |MessageOf(mac, xid, DiscoverFields(mac, host))| < 0x1_0000 - 28
    requires frame == FrameOf(mac, MessageOf(mac, xid, DiscoverFields(mac, host)))
    ensures EventOk([], SentDiscover(frame), mac, xid, host)
  {
  }

  lemma ReceivedInOrder(events: seq<Event>, frame: seq<byte>, mac: MacAddress, xid: u32, host: HostName)
    requires events != []
    ensures OfferIn(frame, xid).Some? ==> EventOk(events, AcceptedOffer(frame), mac, xid, host)
    ensures LeaseIn(frame, xid).Some? ==> EventOk(events, AcceptedAck(frame), mac, xid, host)
  {
  }

  lemma RequestSent(events: seq<Event>, frame: seq<byte>, mac: MacAddress, xid: u32, host: HostName)
    requires events != [] && events[|events| - 1].AcceptedOffer? && OfferIn(events[|events| - 1].frame, xid).Some?
    requires var o := OfferIn(events[|events| - 1].frame, xid).value;
      && AllOk(RequestFields(mac, host, o.client, o.server))
      && |MessageOf(mac, xid, RequestFields(mac, host, o.client, o.server))| < 0x1_0000 - 28
      && frame == FrameOf(mac, MessageOf(mac, xid, RequestFields(mac, host, o.client, o.server)))
    ensures EventOk(events, SentRequest(frame), mac, xid, host)
  {
  }

  // ---- What the turns lead to ----

  /** Where the client stands: nothing sent, an OFFER to answer, or listening. */
  datatype Stage = Fresh | Asking(offer: Offer) | Hearing

  predicate StageOk(stage: Stage) {
    stage.Asking? ==> |stage.offer.client| == 4 && |stage.offer.server| == 4
  }

  /** The loop goes through the turn. */
  predicate Live(turn: Turn) {
    turn.linkUp && !turn.cancelled && !turn.expired
  }

  /** What happens in one live turn. */
  function Said(turn: Turn, stage: Stage, mac: MacAddress, xid: u32, host: HostName): seq<Event>
    requires StageOk(stage)
  {
    match stage
    case Fresh => [SentDiscover(DiscoverFor(mac, xid, host))]
    case Asking(offer) => [SentRequest(RequestFor(mac, xid, host, offer))]
    case Hearing =>
      if OfferIn(turn.received, xid).Some? then [AcceptedOffer(turn.received)]
      else if LeaseIn(turn.received, xid).Some? then [AcceptedAck(turn.received)]
      else []
  }

  predicate BringsLease(turn: Turn, stage: Stage, xid: u32) {
    stage.Hearing? && OfferIn(turn.received, xid).None? && LeaseIn(turn.received, xid).Some?
  }

  /** The stage behind a live turn that did not bring the lease. */
  function NextStage(turn: Turn, stage: Stage, xid: u32): (next: Stage)
    ensures StageOk(next)
  {
    if stage.Hearing? && OfferIn(turn.received, xid).Some? then Asking(OfferIn(turn.received, xid).value) else Hearing
  }

  /** The events of the turns, up to the first that is not live or brings the lease. */
  function TalkOf(turns: seq<Turn>, stage: Stage, mac: MacAddress, xid: u32, host: HostName): seq<Event>
    requires StageOk(stage)
  {
    if turns == [] || !Live(turns[0]) then []
    else if BringsLease(turns[0], stage, xid) then Said(turns[0], stage, mac, xid, host)
    else Said(turns[0], stage, mac, xid, host) + TalkOf(turns[1..], NextStage(turns[0], stage, xid), mac, xid, host)
  }

  /** The events end with an accepted lease. */
  predicate Leased(events: seq<Event>) {
    events != [] && events[|events| - 1].AcceptedAck?
  }

  /** A first live turn sends the DISCOVER. */
  lemma DiscoverIsSent(turns: seq<Turn>, mac: MacAddress, xid: u32, host: HostName)
    requires turns != [] && Live(turns[0])
    ensures var talk := TalkOf(turns, Fresh, mac, xid, host);
      talk != [] && talk[0] == SentDiscover(DiscoverFor(mac, xid, host))
  {
    hide OfferIn, LeaseIn, DiscoverFor;
  }

  /**
   Every accepted OFFER is answered by its REQUEST, unless the turn behind it is not live
   or there is none.
   */
  lemma {:induction false} OfferIsAnswered(turns: seq<Turn>, stage: Stage, mac: MacAddress, xid: u32, host: HostName,
                                           k: nat)
    requires StageOk(stage) && k < |TalkOf(turns, stage, mac, xid, host)|
    requires TalkOf(turns, stage, mac, xid, host)[k].AcceptedOffer?
    ensures var talk := TalkOf(turns, stage, mac, xid, host);
      var offer := OfferIn(talk[k].frame, xid);
      && offer.Some?
      && (k + 1 < |talk| ==> talk[k + 1] == SentRequest(RequestFor(mac, xid, host, offer.value)))
      && (k + 1 == |talk| ==> exists j: nat :: StopsAt(turns, j) && j > 0 && turns[j - 1].received == talk[k].frame)
    decreases |turns|
  {
    hide OfferIn, LeaseIn, DiscoverFor, RequestFor;
    var rest, next := turns[1..], NextStage(turns[0], stage, xid);
    var talk, said := TalkOf(turns, stage, mac, xid, host), Said(turns[0], stage, mac, xid, host);
    if k >= |said| {
      OfferIsAnswered(rest, next, mac, xid, host, k - |said|);
      if k + 1 == |talk| {
        var j: nat :| StopsAt(rest, j) && j > 0 && rest[j - 1].received == talk[k].frame;
        StopsLater(turns, j);
        assert turns[j].received == rest[j - 1].received;
        assert StopsAt(turns, j + 1) && turns[j + 1 - 1].received == talk[k].frame;
      }
    } else if rest == [] || !Live(rest[0]) {
      assert StopsAt(turns, 1) && turns[1 - 1].received == talk[k].frame;
    }
  }

  /** The turns are live up to turn j, where they are used up or not live. */
  predicate StopsAt(turns: seq<Turn>, j: nat) {
    && j <= |turns| && (forall i :: 0 <= i < j ==> Live(turns[i]))
    && (j == |turns| || !Live(turns[j]))
  }

  lemma StopsLater(turns: seq<Turn>, j: nat)
    requires turns != [] && Live(turns[0]) && StopsAt(turns[1..], j)
    ensures StopsAt(turns, j + 1)
  {
    assert forall i :: 1 <= i < |turns| ==> turns[i] == turns[1..][i - 1];
  }

  /**
   Turn j is spent listening, when `first` says so of turn 0: every turn is, but the first of a
   run, which sends the DISCOVER, and those behind an OFFER, which send the REQUEST.
   */
  predicate Hears(turns: seq<Turn>, xid: u32, first: bool, j: nat)
    requires j < |turns|
    decreases j
  {
    if j == 0 then first else !(Hears(turns, xid, first, j - 1) && OfferIn(turns[j - 1].received, xid).Some?)
  }

  lemma {:induction false} HearsLater(turns: seq<Turn>, xid: u32, first: bool, j: nat)
    requires 0 < j < |turns|
    ensures Hears(turns, xid, first, j) ==
      Hears(turns[1..], xid, !(first && OfferIn(turns[0].received, xid).Some?), j - 1)
    decreases j
  {
    hide OfferIn;
    if j > 1 {
      HearsLater(turns, xid, first, j - 1);
    }
  }

  /** Turn j brings the lease: everything is live up to there, it is heard, and it is no OFFER. */
  predicate LeaseAt(turns: seq<Turn>, xid: u32, first: bool, j: nat) {
    && j < |turns| && (forall i :: 0 <= i <= j ==> Live(turns[i])) && Hears(turns, xid, first, j)
    && OfferIn(turns[j].received, xid).None? && LeaseIn(turns[j].received, xid).Some?
  }

  predicate GetsLease(turns: seq<Turn>, xid: u32, first: bool) {
    exists j :: 0 <= j < |turns| && LeaseAt(turns, xid, first, j)
  }

  /** The run ends with a lease exactly when some turn brings one. */
  lemma {:induction false} LeasedExact(turns: seq<Turn>, stage: Stage, mac: MacAddress, xid: u32, host: HostName)
    requires StageOk(stage)
    ensures Leased(TalkOf(turns, stage, mac, xid, host)) <==> GetsLease(turns, xid, stage.Hearing?)
    decreases |turns|
  {
    hide OfferIn, LeaseIn, DiscoverFor, RequestFor, Hears;
    if turns != [] && Live(turns[0]) {
      var rest, next := turns[1..], NextStage(turns[0], stage, xid);
      HearsFirst(turns, xid, stage.Hearing?);
      if BringsLease(turns[0], stage, xid) {
        assert LeaseAt(turns, xid, stage.Hearing?, 0);
      } else {
        LeasedExact(rest, next, mac, xid, host);
        TalkGoesOn(turns, stage, mac, xid, host);
        if j: nat :| LeaseAt(rest, xid, next.Hearing?, j) {
          LeaseLater(turns, xid, stage.Hearing?, next.Hearing?, j);
        }
        if j: nat :| LeaseAt(turns, xid, stage.Hearing?, j) {
          LeaseLater(turns, xid, stage.Hearing?, next.Hearing?, j - 1);
        }
      }
    }
  }

  lemma HearsFirst(turns: seq<Turn>, xid: u32, first: bool)
    requires turns != []
    ensures Hears(turns, xid, first, 0) == first
  {
  }

  lemma TalkGoesOn(turns: seq<Turn>, stage: Stage, mac: MacAddress, xid: u32, host: HostName)
    requires StageOk(stage) && turns != [] && Live(turns[0])
    requires !BringsLease(turns[0], stage, xid)
    ensures Leased(TalkOf(turns, stage, mac, xid, host)) ==
      Leased(TalkOf(turns[1..], NextStage(turns[0], stage, xid), mac, xid, host))
  {
    hide OfferIn, LeaseIn, DiscoverFor, RequestFor;
  }

  lemma LeaseLater(turns: seq<Turn>, xid: u32, first: bool, next: bool, j: nat)
    requires turns != [] && Live(turns[0]) && next == !(first && OfferIn(turns[0].received, xid).Some?)
    ensures LeaseAt(turns, xid, first, j + 1) <==> LeaseAt(turns[1..], xid, next, j)
  {
    hide OfferIn, LeaseIn, Hears;
    var rest := turns[1..];
    assert forall i :: 1 <= i < |turns| ==> turns[i] == rest[i - 1];
    assert forall i :: 0 <= i < |rest| ==> rest[i] == turns[i + 1];
    if j + 1 < |turns| {
      HearsLater(turns, xid, first, j + 1);
    }
  }

  /** One turn of the loop, in terms of the turns that are left. */
  lemma TalkStep(turns: seq<Turn>, k: nat, stage: Stage, mac: MacAddress, xid: u32, host: HostName)
    requires StageOk(stage) && k < |turns|
    ensures var talk, said := TalkOf(turns[k..], stage, mac, xid, host), Said(turns[k], stage, mac, xid, host);
      talk ==
      if !Live(turns[k]) then []
      else if BringsLease(turns[k], stage, xid) then said
      else said + TalkOf(turns[k + 1..], NextStage(turns[k], stage, xid), mac, xid, host)
  {
    hide Said, BringsLease, NextStage, Live;
    assert turns[k..][1..] == turns[k + 1..];
  }

  /** The same step behind what was said before. */
  lemma TalkGrows(turns: seq<Turn>, k: nat, stage: Stage, mac: MacAddress, xid: u32, host: HostName,
                  was: seq<Event>, talk: seq<Event>)
    requires StageOk(stage) && k < |turns| && talk == was + TalkOf(turns[k..], stage, mac, xid, host)
    ensures var now := was + Said(turns[k], stage, mac, xid, host);
      talk ==
      if !Live(turns[k]) then was
      else if BringsLease(turns[k], stage, xid) then now
      else now + TalkOf(turns[k + 1..], NextStage(turns[k], stage, xid), mac, xid, host)
  {
    hide Said, BringsLease, NextStage, Live, TalkOf;
    TalkStep(turns, k, stage, mac, xid, host);
    assert was + [] == was;
    if Live(turns[k]) && !BringsLease(turns[k], stage, xid) {
      ConcatAssociative(was, Said(turns[k], stage, mac, xid, host),
                        TalkOf(turns[k + 1..], NextStage(turns[k], stage, xid), mac, xid, host));
    }
  }

  lemma LiveMeans(turn: Turn)
    ensures Live(turn) == (turn.linkUp && !turn.cancelled && !turn.expired)
  {
  }

  lemma TalkNothing(turns: seq<Turn>, mac: MacAddress, xid: u32, host: HostName)
    ensures turns[0..] == turns && turns[|turns|..] == []
    ensures forall stage :: StageOk(stage) ==> TalkOf([], stage, mac, xid, host) == []
  {
  }

  /** The server MAC follows the last OFFER from one moment to a later one. */
  predicate ServerMacKept(was: seq<Event>, macWas: MacAddress, now: seq<Event>, macNow: MacAddress, xid: u32) {
    || (LastOffer(now, xid) == LastOffer(was, xid) && macNow == macWas)
    || (LastOffer(now, xid).Some? && macNow == LastOffer(now, xid).value.serverMac)
  }

  lemma MacUnchanged(events: seq<Event>, mac: MacAddress, xid: u32)
    ensures ServerMacKept(events, mac, events, mac, xid)
  {
  }

  lemma MacChain(a: seq<Event>, macA: MacAddress, b: seq<Event>, macB: MacAddress, c: seq<Event>, macC: MacAddress,
                 xid: u32)
    requires ServerMacKept(a, macA, b, macB, xid) && ServerMacKept(b, macB, c, macC, xid)
    ensures ServerMacKept(a, macA, c, macC, xid)
  {
  }

  lemma MacAfter(events: seq<Event>, before: MacAddress, now: MacAddress, xid: u32)
    requires ServerMacKept([], before, events, now, xid)
    ensures now == ServerMacAfter(events, xid, before)
  {
  }

  lemma NothingHeard(xid: u32)
    ensures OfferIn([], xid).None? && LeaseIn([], xid).None?
  {
  }

  class Client {
    var mac: MacAddress
    var xid: u32
    var ipClient: seq<byte>
    var ipServer: seq<byte>
    var serverMac: MacAddress
    var myIp: seq<byte>
    var subnetMask: seq<byte>
    var gateway: seq<byte>
    var dnsServer: seq<byte>
    var dhcpServerIp: seq<byte>
    var broadcastEnabled: bool
    ghost var events: seq<Event>

    ghost predicate Valid()
      reads this
    {
      |ipClient| == 4 && |ipServer| == 4 && |myIp| == 4 && |subnetMask| == 4 && |gateway| == 4
    }

    constructor (mac: MacAddress, broadcast: bool)
      ensures Valid() && this.mac == mac && broadcastEnabled == broadcast && events == []
    {
      this.mac, xid := mac, 0;
      ipClient, ipServer, myIp, subnetMask := Zeros(4), Zeros(4), Zeros(4), Zeros(4);
      gateway, dnsServer, dhcpServerIp := Zeros(4), Zeros(4), Zeros(4);
      serverMac := [0, 0, 0, 0, 0, 0];
      broadcastEnabled := broadcast;
      events := [];
    }

    /** Remember an OFFER: the server's MAC, the address and the server identifier. */
    method DeconstructOffer(frame: seq<byte>) returns (ok: bool)
      requires Valid()
      modifies this`ipClient, this`ipServer, this`serverMac
      ensures Valid() && ok == OfferIn(frame, xid).Some?
      ensures ok ==> var offer := OfferIn(frame, xid).value;
        ipClient == offer.client && ipServer == offer.server && serverMac == offer.serverMac
      ensures !ok ==> ipClient == old(ipClient) && ipServer == old(ipServer) && serverMac == old(serverMac)
    {
      hide Lookup;
      var v := ParseMessage(frame);
      if v.None? {
        return false;
      }
      var kind := GetOption(v.value.Options(), 53);
      if v.value.data[0] != 2 || kind != Some([OFFER]) || ReadBe32(v.value.data[4..8]) != xid {
        return false;
      }
      var server := GetOption(v.value.Options(), 54);
      if server.None? || |server.value| != 4 {
        return false;
      }
      serverMac, ipClient, ipServer := frame[6..12], v.value.data[16..20], server.value;
      return true;
    }

    /** Take over a lease, all of it or nothing. */
    method DeconstructAck(frame: seq<byte>) returns (ok: bool)
      requires Valid()
      modifies this`myIp, this`subnetMask, this`gateway, this`dnsServer, this`dhcpServerIp
      ensures Valid() && ok == LeaseIn(frame, xid).Some?
      ensures ok ==> Lease(myIp, subnetMask, gateway, dnsServer, dhcpServerIp) == LeaseIn(frame, xid).value
      ensures !ok ==> myIp == old(myIp) && subnetMask == old(subnetMask) && gateway == old(gateway)
    {
      hide Lookup, ParseMessage, OptionsValid, ReadBe32;
      var v := ParseMessage(frame);
      if v.None? {
        return false;
      }
      var kind := GetOption(v.value.Options(), 53);
      if v.value.data[0] != 2 || kind != Some([ACK]) || ReadBe32(v.value.data[4..8]) != xid {
        return false;
      }
      var mask := GetOption(v.value.Options(), 1);
      if mask.None? || |mask.value| != 4 {
        return false;
      }
      var router := GetOption(v.value.Options(), 3);
      if router.None? || |router.value| < 4 || |router.value| % 4 != 0 {
        return false;
      }
      var dns := GetOption(v.value.Options(), 6);
      if dns.Some? && (|dns.value| < 4 || |dns.value| % 4 != 0) {
        return false;
      }
      var server := GetOption(v.value.Options(), 54);
      if server.None? || |server.value| != 4 {
        return false;
      }
      myIp, subnetMask, gateway := v.value.data[16..20], mask.value, router.value[..4];
      dnsServer := if dns.Some? then dns.value[..4] else Zeros(4);
      dhcpServerIp := server.value;
      return true;
    }

    method SendDiscover(txBuffer: array<byte>, host: HostName)
      requires Valid() && txBuffer.Length == 1518 && events == []
      requires TraceOk(events, mac, xid, host)
      modifies this`events, txBuffer
      ensures events == [SentDiscover(DiscoverFor(mac, xid, host))]
      ensures TraceOk(events, mac, xid, host)
      ensures LastOffer(events, xid) == old(LastOffer(events, xid))
    {
      hide EventOk, TraceOk, LastOffer, FrameOf, MessageOf;
      var length := SetDiscoverFrame(txBuffer, mac, xid, host);
      ghost var sent := SentDiscover(txBuffer[..length]);
      DiscoverSent(txBuffer[..length], mac, xid, host);
      EventFollows(events, sent, mac, xid, host);
      events := events + [sent];
    }

    /** A REQUEST for what the last event, an accepted OFFER, offered. */
    method SendRequest(txBuffer: array<byte>, host: HostName)
      requires Valid() && txBuffer.Length == 1518
      requires TraceOk(events, mac, xid, host)
      requires events != [] && events[|events| - 1].AcceptedOffer?
      requires OfferIn(events[|events| - 1].frame, xid).Some?
      requires OfferIn(events[|events| - 1].frame, xid).value.client == ipClient
      requires OfferIn(events[|events| - 1].frame, xid).value.server == ipServer
      modifies this`events, txBuffer
      ensures var offer := OfferIn(old(events)[|old(events)| - 1].frame, xid).value;
        events == old(events) + [SentRequest(RequestFor(mac, xid, host, offer))]
      ensures TraceOk(events, mac, xid, host)
      ensures LastOffer(events, xid) == old(LastOffer(events, xid))
    {
      hide OfferIn, EventOk, TraceOk, LastOffer, FrameOf, MessageOf;
      var length := SetRequestFrame(txBuffer, mac, xid, ipClient, ipServer, host);
      ghost var sent := SentRequest(txBuffer[..length]);
      RequestSent(events, txBuffer[..length], mac, xid, host);
      EventFollows(events, sent, mac, xid, host);
      events := events + [sent];
    }

    /** A frame while waiting: an OFFER is tried first, then an acknowledgement. */
    method Listen(frame: seq<byte>, host: HostName) returns (next: Phase)
      requires Valid() && events != [] && TraceOk(events, mac, xid, host)
      modifies this
      ensures Valid() && mac == old(mac) && xid == old(xid) && broadcastEnabled == old(broadcastEnabled)
      ensures TraceOk(events, mac, xid, host)
      ensures next ==
        if OfferIn(frame, xid).Some? then Requesting else if LeaseIn(frame, xid).Some? then Done else Waiting
      ensures next == Requesting ==> events == old(events) + [AcceptedOffer(frame)]
      ensures next == Requesting ==>
        OfferIn(frame, xid) == LastOffer(events, xid) == Some(Offer(serverMac, ipClient, ipServer))
      ensures next == Done ==> events == old(events) + [AcceptedAck(frame)]
      ensures next == Done ==> LeaseIn(frame, xid) == Some(Lease(myIp, subnetMask, gateway, dnsServer, dhcpServerIp))
      ensures next == Waiting ==> events == old(events)
      ensures next != Requesting ==>
        serverMac == old(serverMac) && LastOffer(events, xid) == old(LastOffer(events, xid))
      ensures next != Done ==> myIp == old(myIp) && subnetMask == old(subnetMask) && gateway == old(gateway)
    {
      hide LeaseIn, OfferIn, EventOk, TraceOk, LastOffer;
      next := Waiting;
      ReceivedInOrder(events, frame, mac, xid, host);
      var offered := DeconstructOffer(frame);
      if offered {
        EventFollows(events, AcceptedOffer(frame), mac, xid, host);
        events := events + [AcceptedOffer(frame)];
        next := Requesting;
      } else {
        var acknowledged := DeconstructAck(frame);
        if acknowledged {
          EventFollows(events, AcceptedAck(frame), mac, xid, host);
          events := events + [AcceptedAck(frame)];
          next := Done;
        }
      }
    }

    /** The loop's state variable and what it stands for. */
    ghost predicate At(state: Phase, stage: Stage)
      reads this
    {
      && StageOk(stage)
      && match state
        case Init => stage == Fresh && events == []
        case Requesting =>
          && stage.Asking? && events != [] && events[|events| - 1].AcceptedOffer?
          && OfferIn(events[|events| - 1].frame, xid) == Some(stage.offer)
          && stage.offer.client == ipClient && stage.offer.server == ipServer
        case Waiting => stage == Hearing && events != [] && !Leased(events)
        case Done =>
          && Leased(events)
          && LeaseIn(events[|events| - 1].frame, xid) == Some(Lease(myIp, subnetMask, gateway, dnsServer, dhcpServerIp))
    }

    lemma AtInit()
      requires events == []
      ensures At(Init, Fresh)
    {
    }

    lemma AtMeans(state: Phase, stage: Stage)
      requires At(state, stage)
      ensures StageOk(stage) && (state == Done <==> Leased(events))
      ensures state == Done ==>
        LeaseIn(events[|events| - 1].frame, xid) == Some(Lease(myIp, subnetMask, gateway, dnsServer, dhcpServerIp))
    {
      hide LeaseIn, OfferIn;
    }

    /** One turn of the loop. */
    method TakeTurn(turn: Turn, host: HostName, txBuffer: array<byte>, state: Phase, ghost stage: Stage)
      returns (next: Phase)
      requires Valid() && txBuffer.Length == 1518 && At(state, stage) && state != Done
      requires TraceOk(events, mac, xid, host)
      modifies this, txBuffer
      ensures Valid() && mac == old(mac) && xid == old(xid) && broadcastEnabled == old(broadcastEnabled)
      ensures TraceOk(events, mac, xid, host)
      ensures events == old(events) + Said(turn, stage, mac, xid, host)
      ensures if BringsLease(turn, stage, xid) then At(Done, stage) && next == Done
              else At(next, NextStage(turn, stage, xid)) && next != Done
      ensures ServerMacKept(old(events), old(serverMac), events, serverMac, xid)
      ensures next != Done ==> myIp == old(myIp) && subnetMask == old(subnetMask) && gateway == old(gateway)
    {
      hide LeaseIn, OfferIn, EventOk, TraceOk, LastOffer, RequestFor, DiscoverFor;
      NothingHeard(xid);
      match state {
        case Init =>
          SendDiscover(txBuffer, host);
          next := Waiting;
        case Requesting =>
          SendRequest(txBuffer, host);
          next := Waiting;
        case Waiting =>
          next := Waiting;
          if turn.received != [] {
            next := Listen(turn.received, host);
          }
      }
    }

    /** The loop over the turns, with the broadcast filter open. */
    method Exchange(turns: seq<Turn>, host: HostName, txBuffer: array<byte>) returns (ret: bool)
      requires Valid() && txBuffer.Length == 1518 && events == [] && broadcastEnabled
      modifies this, txBuffer
      ensures Valid() && mac == old(mac) && xid == old(xid) && broadcastEnabled
      ensures events == TalkOf(turns, Fresh, mac, xid, host) && ret == Leased(events)
      ensures TraceOk(events, mac, xid, host)
      ensures ServerMacKept([], old(serverMac), events, serverMac, xid)
      ensures !ret ==> myIp == old(myIp) && subnetMask == old(subnetMask) && gateway == old(gateway)
      ensures ret ==>
        LeaseIn(events[|events| - 1].frame, xid) == Some(Lease(myIp, subnetMask, gateway, dnsServer, dhcpServerIp))
    {
      hide LeaseIn, OfferIn, EventOk, TraceOk, LastOffer, RequestFor, DiscoverFor, TalkOf, Said, BringsLease;
      hide NextStage, ServerMacKept, Client.At, Live, Leased;
      ghost var stage := Fresh;
      ghost var talk := TalkOf(turns, Fresh, mac, xid, host);
      TalkNothing(turns, mac, xid, host);
      NoEvents(mac, xid, host);
      MacUnchanged([], serverMac, xid);
      AtInit();
      var state := Init;
      var k := 0;
      ret := false;
      while !ret && k < |turns| && turns[k].linkUp
        invariant k <= |turns| && Valid() && (ret <==> state == Done)
        invariant mac == old(mac) && xid == old(xid) && broadcastEnabled == old(broadcastEnabled)
        invariant TraceOk(events, mac, xid, host) && At(state, stage) && StageOk(stage)
        invariant talk == if ret then events else events + TalkOf(turns[k..], stage, mac, xid, host)
        invariant !ret ==> myIp == old(myIp) && subnetMask == old(subnetMask) && gateway == old(gateway)
        invariant ServerMacKept([], old(serverMac), events, serverMac, xid)
        decreases |turns| - k
      {
        TalkGrows(turns, k, stage, mac, xid, host, events, talk);
        LiveMeans(turns[k]);
        if turns[k].cancelled || turns[k].expired {
          break;
        }
        ghost var was, macWas := events, serverMac;
        state := TakeTurn(turns[k], host, txBuffer, state, stage);
        MacChain([], old(serverMac), was, macWas, events, serverMac, xid);
        if state == Done {
          ret := true;
        } else {
          stage := NextStage(turns[k], stage, xid);
        }
        k := k + 1;
      }
      if !ret {
        if k < |turns| {
          TalkGrows(turns, k, stage, mac, xid, host, events, talk);
          LiveMeans(turns[k]);
        }
        assert events + [] == events;
      }
      AtMeans(state, stage);
    }

    /**
     The whole exchange. The turns are the environment's; when they are used up the link
     counts as down. The caller's three addresses go in and come out.
     */
    method ProcessDora(turns: seq<Turn>, random: u32, host: HostName, txBuffer: array<byte>,
                       staticIp: seq<byte>, routerIp: seq<byte>, routerMac: MacAddress)
      returns (ret: bool, staticIpNow: seq<byte>, routerIpNow: seq<byte>, routerMacNow: MacAddress)
      requires Valid() && txBuffer.Length == 1518
      modifies this, txBuffer
      ensures Valid() && mac == old(mac) && xid == random
      ensures broadcastEnabled == old(broadcastEnabled)
      ensures events == TalkOf(turns, Fresh, mac, random, host) && ret == Leased(events)
      ensures ret <==> GetsLease(turns, random, false)
      ensures TraceOk(events, mac, xid, host)
      ensures forall i :: 0 <= i < |events| && events[i].SentDiscover? ==> i == 0
      ensures !ret ==> staticIpNow == staticIp && routerIpNow == routerIp && routerMacNow == routerMac
      ensures !ret ==> myIp == old(myIp) && subnetMask == old(subnetMask) && gateway == old(gateway)
      ensures ret ==> events != [] && events[|events| - 1].AcceptedAck?
      ensures ret ==> var lease := LeaseIn(events[|events| - 1].frame, random);
        && lease.Some? && staticIpNow == lease.value.ip
        && routerIpNow == lease.value.router && subnetMask == lease.value.mask
      ensures ret ==> routerMacNow == ServerMacAfter(events, random, old(serverMac))
    {
      hide LeaseIn, OfferIn, EventOk, TraceOk, LastOffer, RequestFor, DiscoverFor, TalkOf, GetsLease;
      hide ServerMacKept, ServerMacAfter;
      LeasedExact(turns, Fresh, mac, random, host);
      staticIpNow, routerIpNow, routerMacNow := staticIp, routerIp, routerMac;
      xid := random;
      events := [];
      var broadcastWasEnabled := broadcastEnabled;
      broadcastEnabled := true;
      ret := Exchange(turns, host, txBuffer);
      MacAfter(events, old(serverMac), serverMac, random);
      forall i | 0 <= i < |events| && events[i].SentDiscover?
        ensures i == 0
      {
        OneDiscover(events, mac, xid, host, i);
      }
      broadcastEnabled := broadcastWasEnabled;
      if ret {
        staticIpNow, routerIpNow, routerMacNow := myIp, gateway, serverMac;
      }
    }
  }
}
