/**
 The receive ring of the ENC28J60 and the driver's reading of it. Frames arrive between
 any two SPI transfers; together, chip and driver are a first-in first-out queue.
 */
module RxRing {
  import opened Bytes
  import opened Texts

  const RING: nat := 0x0C00  // addresses 0x0000 to 0x0BFF
  const RX_STOP: nat := 0x0BFF

  // ---- Packets in the ring ----

  /** A stored frame: its bytes, the four checksum bytes, the status word, and the byte that makes the length even. */
  datatype Packet = Packet(frame: seq<byte>, crc: seq<byte>, status: u16, pad: seq<byte>)

  predicate PacketOk(p: Packet) {
    |p.crc| == 4 && |p.frame| + 4 < 0x1_0000 && |p.pad| == |p.frame| % 2
  }

  /** Bytes a packet takes: the next pointer, the length, the status, and the data. */
  function Size(p: Packet): nat {
    6 + |p.frame| + |p.crc| + |p.pad|
  }

  function Total(ps: seq<Packet>): nat {
    if ps == [] then 0 else Size(ps[0]) + Total(ps[1..])
  }

  function Wrap(a: nat): nat {
    a % RING
  }

  /** What the chip stores for a packet that starts at an address. */
  function Image(p: Packet, start: nat): (image: seq<byte>)
    requires PacketOk(p)
    ensures |image| == Size(p)
  {
    Le16(Wrap(start + Size(p))) + Le16(|p.frame| + 4) + Le16(p.status) + p.frame + p.crc + p.pad
  }

  predicate AllOk(ps: seq<Packet>) {
    forall k :: 0 <= k < |ps| ==> PacketOk(ps[k])
  }

  function Images(ps: seq<Packet>, start: nat): (image: seq<byte>)
    requires AllOk(ps)
    ensures |image| == Total(ps)
  {
    if ps == [] then [] else Image(ps[0], start) + Images(ps[1..], Wrap(start + Size(ps[0])))
  }

  /** Bytes of the ring from a start, going round. */
  function Window(mem: seq<byte>, start: nat, length: nat): (w: seq<byte>)
    requires |mem| == RING
    ensures |w| == length
  {
    seq(length, k requires 0 <= k < length => mem[Wrap(start + k)])
  }

  /** Free bytes the chip computes from its write pointer and ERXRDPT. */
  function Free(readPointer: nat, writePointer: nat): (free: int)
    requires readPointer < RING && writePointer < RING
    ensures 0 <= free < RING
  {
    if writePointer > readPointer then RX_STOP - (writePointer - readPointer)
    else if writePointer == readPointer then RX_STOP
    else readPointer - writePointer - 1
  }

  lemma WrapBound(a: nat)
    ensures Wrap(a) < RING
  {
  }

  lemma WrapAdd(a: nat, b: nat)
    ensures Wrap(Wrap(a) + b) == Wrap(a + b)
  {
    var q := a / RING;
    assert a == RING * q + Wrap(a);
    assert (Wrap(a) + b + RING * q) % RING == (Wrap(a) + b) % RING;
  }

  lemma WindowShift(mem: seq<byte>, start: nat, skip: nat, length: nat)
    requires |mem| == RING
    ensures Window(mem, Wrap(start + skip), length) == Window(mem, start, skip + length)[skip..]
  {
    var a, b := Window(mem, Wrap(start + skip), length), Window(mem, start, skip + length)[skip..];
    forall k | 0 <= k < length
      ensures a[k] == b[k]
    {
      WrapAdd(start + skip, k);
    }
  }

  lemma {:induction false} ImagesSnoc(ps: seq<Packet>, p: Packet, start: nat)
    requires AllOk(ps) && PacketOk(p)
    ensures Total(ps + [p]) == Total(ps) + Size(p)
    ensures Images(ps + [p], start) == Images(ps, start) + Image(p, Wrap(start + Total(ps)))
  {
    hide Image, Wrap, Size;
    if ps == [] {
      assert ps + [p] == [p] && [p][1..] == [];
      ImageWraps(p, start);
    } else {
      assert (ps + [p])[1..] == ps[1..] + [p];
      var next := Wrap(start + Size(ps[0]));
      ImagesSnoc(ps[1..], p, next);
      WrapAdd(start + Size(ps[0]), Total(ps[1..]));
      ConcatAssociative(Image(ps[0], start), Images(ps[1..], next), Image(p, Wrap(start + Total(ps))));
    }
  }

  lemma ImageWraps(p: Packet, start: nat)
    requires PacketOk(p)
    ensures Image(p, Wrap(start)) == Image(p, start)
  {
    WrapAdd(start, Size(p));
  }

  // ---- The chip ----

  class Chip {
    var mem: seq<byte>
    var writePointer: nat   // ERXWRPT
    var rxReadPointer: nat  // ERXRDPT
    var readPointer: nat    // ERDPT
    var packetCount: nat    // EPKTCNT
    ghost var start: nat            // where the packets still to be read begin
    ghost var stored: seq<Packet>   // those packets
    ghost var accepted: seq<Packet> // every packet stored since the start

    /** The stored packets lie in order from `start` to the write pointer, out of the chip's reach. */
    ghost predicate Valid()
      reads this
    {
      && |mem| == RING && writePointer < RING && rxReadPointer < RING && readPointer < RING && start < RING
      && AllOk(stored) && packetCount <= 255
      && Window(mem, start, Total(stored)) == Images(stored, start)
      && writePointer == Wrap(start + Total(stored))
      && Free(rxReadPointer, writePointer) + Total(stored) < RING
    }

    /** Bytes the chip can still fill, and those of the packets it holds. */
    ghost function Usable(): int
      requires Valid()
      reads this
    {
      Free(rxReadPointer, writePointer) + Total(stored)
    }

    /** The state a start leaves: an empty ring with every pointer at its first address. */
    constructor ()
      ensures Valid() && stored == [] && accepted == [] && packetCount == 0 && start == 0 && Usable() == 3071
    {
      mem := Zeros(RING);
      writePointer, rxReadPointer, readPointer, packetCount, start := 0, 0, 0, 0, 0;
      stored, accepted := [], [];
    }

    /**
     A frame comes in: stored behind the others if there is room and the counter allows,
     else dropped. `ahead` packets may have been read by the driver but not counted off.
     */
    method Arrive(p: Packet, ghost ahead: nat)
      requires Valid() && PacketOk(p) && packetCount == |stored| + ahead
      modifies this`mem, this`writePointer, this`packetCount, this`stored, this`accepted
      ensures Valid() && packetCount == |stored| + ahead
      ensures var taken := Size(p) <= Free(old(rxReadPointer), old(writePointer)) && old(packetCount) < 255;
        && stored == (if taken then old(stored) + [p] else old(stored))
        && accepted == (if taken then old(accepted) + [p] else old(accepted))
      ensures Usable() == old(Usable())
    {
      hide Image, Images, Total, Window, Overlaid, Wrap;
      if Size(p) > Free(rxReadPointer, writePointer) || packetCount >= 255 {
        return;
      }
      var image := Image(p, writePointer);
      ghost var before, total, was := mem, Total(stored), writePointer;
      mem := Overlaid(mem, writePointer, image);
      writePointer := Wrap(writePointer + Size(p));
      packetCount := packetCount + 1;
      WrapBound(was + Size(p));
      KeptBeside(before, start, total, image);
      ImagesSnoc(stored, p, start);
      WrapAdd(start + total, Size(p));
      FreeAfter(rxReadPointer, was, Size(p));
      stored := stored + [p];
      accepted := accepted + [p];
    }

    /** Any number of frames, of any contents, between two transfers of the driver. */
    method Traffic(ghost ahead: nat)
      requires Valid() && packetCount == |stored| + ahead
      modifies this`mem, this`writePointer, this`packetCount, this`stored, this`accepted
      ensures Valid() && packetCount == |stored| + ahead
      ensures old(stored) <= stored && old(accepted) <= accepted
      ensures old(stored) != [] ==> stored[0] == old(stored)[0]
      ensures accepted == old(accepted) + stored[|old(stored)|..]
      ensures Usable() == old(Usable())
    {
      var n: nat :| true;
      for i := 0 to n
        invariant Valid() && packetCount == |stored| + ahead
        invariant |old(stored)| <= |stored| && stored[..|old(stored)|] == old(stored)
        invariant accepted == old(accepted) + stored[|old(stored)|..] && Usable() == old(Usable())
      {
        var p: Packet := *;
        if |p.crc| == 4 && |p.frame| + 4 < 0x1_0000 && |p.pad| == |p.frame| % 2 {
          ghost var s, a := stored, accepted;
          Arrive(p, ahead);
          assert stored == s + [p] ==> stored[|old(stored)|..] == s[|old(stored)|..] + [p];
        }
      }
    }
  }

  /** Memory with bytes written from an address on, going round. */
  function Overlaid(mem: seq<byte>, at: nat, data: seq<byte>): (r: seq<byte>)
    requires |mem| == RING && at < RING && |data| < RING
    ensures |r| == RING
  {
    seq(RING, a requires 0 <= a < RING =>
      var k := Wrap(a + RING - at);
      if k < |data| then data[k] else mem[a])
  }

  lemma OverlaidAt(mem: seq<byte>, at: nat, data: seq<byte>, k: nat)
    requires |mem| == RING && at < RING && |data| < RING && k < RING
    ensures Overlaid(mem, at, data)[Wrap(at + k)] == if k < |data| then data[k] else mem[Wrap(at + k)]
  {
    assert Wrap(Wrap(at + k) + RING - at) == k;
  }

  lemma WrapRound(a: nat)
    ensures Wrap(a + RING) == Wrap(a)
  {
  }

  /** Bytes written behind the packets leave the packets alone. */
  lemma KeptBeside(mem: seq<byte>, start: nat, total: nat, data: seq<byte>)
    requires |mem| == RING && start < RING && total + |data| < RING
    ensures var at := Wrap(start + total);
      Window(Overlaid(mem, at, data), start, total + |data|) == Window(mem, start, total) + data
  {
    hide Overlaid, Wrap;
    WrapBound(start + total);
    var at := Wrap(start + total);
    var r := Overlaid(mem, at, data);
    var w, expected := Window(r, start, total + |data|), Window(mem, start, total) + data;
    forall k | 0 <= k < total + |data|
      ensures w[k] == expected[k]
    {
      if k >= total {
        WrapAdd(start + total, k - total);
        OverlaidAt(mem, at, data, k - total);
      } else {
        WrapAdd(start + total, RING + k - total);
        WrapRound(start + k);
        OverlaidAt(mem, at, data, RING + k - total);
      }
    }
  }

  lemma FreeAfter(readPointer: nat, writePointer: nat, size: nat)
    requires readPointer < RING && writePointer < RING && size <= Free(readPointer, writePointer)
    ensures Free(readPointer, Wrap(writePointer + size)) == Free(readPointer, writePointer) - size
  {
    if writePointer + size < RING {
      assert Wrap(writePointer + size) == writePointer + size;
    } else {
      assert Wrap(writePointer + size) == writePointer + size - RING;
    }
  }

  // ---- The driver ----

  /** The bytes of one packet at the front of the window. */
  lemma FirstPacket(mem: seq<byte>, start: nat, ps: seq<Packet>)
    requires |mem| == RING && AllOk(ps) && ps != [] && Window(mem, start, Total(ps)) == Images(ps, start)
    ensures var p, w := ps[0], Window(mem, start, 6 + |ps[0].frame|);
      && w[0..2] == Le16(Wrap(start + Size(p))) && w[2..4] == Le16(|p.frame| + 4) && w[4..6] == Le16(p.status)
      && w[6..] == p.frame
    ensures var next := Wrap(start + Size(ps[0]));
      Total(ps) == Size(ps[0]) + Total(ps[1..]) && Window(mem, next, Total(ps[1..])) == Images(ps[1..], next)
  {
    hide Wrap, Image;
    var p := ps[0];
    var image, all := Image(p, start), Window(mem, start, Total(ps));
    ImageParts(p, start);
    assert all[..Size(p)] == image;
    assert Window(mem, start, 6 + |p.frame|) == all[..6 + |p.frame|] == image[..6 + |p.frame|];
    WindowShift(mem, start, Size(p), Total(ps[1..]));
    assert all[Size(p)..] == Images(ps[1..], Wrap(start + Size(p)));
  }

  lemma ImageParts(p: Packet, start: nat)
    requires PacketOk(p)
    ensures var w := Image(p, start)[..6 + |p.frame|];
      && w[0..2] == Le16(Wrap(start + Size(p))) && w[2..4] == Le16(|p.frame| + 4) && w[4..6] == Le16(p.status)
      && w[6..] == p.frame
  {
    var a, b, c := Le16(Wrap(start + Size(p))), Le16(|p.frame| + 4), Le16(p.status);
    assert Image(p, start)[..6 + |p.frame|] == a + b + c + p.frame;
    var w := a + b + c + p.frame;
    assert w[0..2] == a && w[2..4] == b && w[4..6] == c && w[6..] == p.frame;
  }

  lemma WindowPart(mem: seq<byte>, start: nat, length: nat, part: nat)
    requires |mem| == RING && part <= length
    ensures Window(mem, start, part) == Window(mem, start, length)[..part]
  {
  }

  /** Packets take even numbers of bytes, so that the ring is never filled up to its last byte. */
  lemma {:induction false} TotalEven(ps: seq<Packet>)
    requires AllOk(ps)
    ensures Total(ps) % 2 == 0
  {
    if ps != [] {
      TotalEven(ps[1..]);
    }
  }

  /** With the packets from `next` on released up to, the chip sees all but two bytes of the rest as free. */
  lemma FreeReleased(next: nat, total: nat)
    requires next < RING && total < RING - 1
    ensures Free(if next == 0 then RX_STOP else next - 1, Wrap(next + total)) + total == RING - 2
  {
  }

  class Driver {
    const chip: Chip
    var rxNext: nat
    var unreleased: bool
    ghost var delivered: seq<Packet>

    /**
     Everything the chip accepted has been delivered or is still stored, in order; and all of
     the ring but two bytes is usable, apart from the packet delivered last until it is released.
     */
    ghost predicate Valid()
      reads this, chip
    {
      && chip.Valid() && rxNext == chip.start && chip.packetCount == |chip.stored|
      && chip.accepted == delivered + chip.stored
      && (unreleased ==> delivered != [])
      && chip.Usable() + (if unreleased then Size(delivered[|delivered| - 1]) else 0) >= 3070
    }

    constructor ()
      ensures Valid() && fresh(chip) && delivered == [] && chip.stored == [] && !unreleased
    {
      chip := new Chip();
      rxNext, unreleased := 0, false;
      delivered := [];
    }

    /** Hand the bytes of the last delivered packet back to the chip, and no others. */
    method Release()
      requires Valid()
      modifies this`unreleased, chip`rxReadPointer
      ensures Valid() && !unreleased
      ensures Free(chip.rxReadPointer, chip.writePointer) + Total(chip.stored) >= 3070
    {
      if unreleased {
        hide Images, Window, Total;
        TotalBound(chip.rxReadPointer, chip.writePointer, Total(chip.stored));
        TotalEven(chip.stored);
        FreeReleased(rxNext, Total(chip.stored));
        chip.rxReadPointer := if rxNext == 0 then RX_STOP else rxNext - 1;
        unreleased := false;
      }
    }

    /** Read from the buffer at ERDPT, which moves on and goes round. */
    method ReadBuffer(length: nat) returns (data: seq<byte>)
      requires chip.Valid()
      modifies chip`readPointer
      ensures chip.Valid() && data == Window(chip.mem, old(chip.readPointer), length)
      ensures chip.Usable() == old(chip.Usable())
      ensures chip.readPointer == Wrap(old(chip.readPointer) + length)
    {
      data := Window(chip.mem, chip.readPointer, length);
      chip.readPointer := Wrap(chip.readPointer + length);
    }

    /**
     One call: the oldest stored packet, cut to the caller's size, or nothing. Frames may
     arrive before and after every transfer.
     */
    method ReceivePacket(buffer: array<byte>, size: nat) returns (length: nat)
      requires Valid() && 0 < size <= buffer.Length && size < 0x1_0000
      modifies this, chip, buffer
      ensures Valid() && length < size
      ensures old(delivered) <= delivered && old(chip.accepted) <= chip.accepted
      ensures |delivered| <= |old(delivered)| + 1
      ensures delivered == old(delivered) ==> length == 0 && buffer[..] == old(buffer[..])
      ensures delivered != old(delivered) ==>
        var p := delivered[|delivered| - 1];
        && buffer[..length] == (if p.status / 0x80 % 2 == 1 then Cut(p.frame, size - 1) else []) && buffer[length] == 0
      ensures old(chip.stored) != [] ==> delivered == old(delivered) + [old(chip.stored)[0]]
      ensures delivered == old(delivered) ==> chip.stored == [] && !unreleased
    {
      hide Image, Images, Total, Window, Wrap, Free, Size, Cut;
      length := 0;
      chip.Traffic(0);
      Release();
      chip.Traffic(0);
      if chip.packetCount > 0 {
        length := Deliver(buffer, size);
      }
    }

    /**
     After a call that found nothing, whatever went before, a frame that fits the ring at all is
     accepted when it comes next, and the next call delivers it.
     */
    method NextIsDelivered(p: Packet, buffer: array<byte>, size: nat) returns (length: nat)
      requires Valid() && chip.stored == [] && !unreleased
      requires PacketOk(p) && Size(p) <= 3070
      requires 0 < size <= buffer.Length && size < 0x1_0000
      modifies this, chip, buffer
      ensures Valid() && delivered == old(delivered) + [p] && length < size
      ensures buffer[..length] == if p.status / 0x80 % 2 == 1 then Cut(p.frame, size - 1) else []
    {
      hide Image, Images, Window, Wrap, Free, Size;
      chip.Arrive(p, 0);
      length := ReceivePacket(buffer, size);
    }

    /** The part of a call that reads a packet. */
    method Deliver(buffer: array<byte>, size: nat) returns (length: nat)
      requires Valid() && 0 < size <= buffer.Length && size < 0x1_0000 && chip.stored != [] && !unreleased
      modifies this, chip, buffer
      ensures Valid() && length < size && old(chip.accepted) <= chip.accepted
      ensures delivered == old(delivered) + [old(chip.stored)[0]]
      ensures var p := old(chip.stored)[0];
        buffer[..length] == (if p.status / 0x80 % 2 == 1 then Cut(p.frame, size - 1) else []) && buffer[length] == 0
    {
      hide Image, Images, Total, Window, Wrap, Free;
      ghost var p, first := chip.stored[0], chip.start;
      var next, available, status := FetchHeader();
      rxNext := next;
      length := if available > size - 1 then size - 1 else available;
      if status / 0x80 % 2 == 0 {
        length := 0;
      } else {
        FetchData(buffer, length);
        assert p.frame[..length] == Cut(p.frame, size - 1);
      }
      ghost var filled := buffer[..length];
      buffer[length] := 0;
      assert buffer[..length] == filled;
      unreleased := true;
      chip.Traffic(0);
      CountOff(first, p);
    }

    /** The header of the oldest packet, through the buffer read pointer. */
    method FetchHeader() returns (next: nat, available: nat, status: u16)
      requires Valid() && chip.stored != []
      modifies chip
      ensures Valid() && chip.readPointer == Wrap(chip.start + 6) && chip.start == old(chip.start)
      ensures chip.Usable() == old(chip.Usable())
      ensures old(chip.stored) <= chip.stored && chip.stored[0] == old(chip.stored)[0] &&
        old(chip.accepted) <= chip.accepted
      ensures var p := old(chip.stored)[0];
        next == Wrap(chip.start + Size(p)) && available == |p.frame| && status == p.status
    {
      hide Image, Images, Total, Window, Wrap, Free, Size;
      ghost var p, first := chip.stored[0], chip.start;
      chip.readPointer := rxNext;
      chip.Traffic(0);
      FirstPacket(chip.mem, first, chip.stored);
      WindowPart(chip.mem, first, 6 + |p.frame|, 6);
      HeaderParts(Window(chip.mem, first, 6 + |p.frame|));
      var header := ReadBuffer(6);
      HeaderReads(header, first, p);
      next, available, status := ReadLe16(header[..2]), ReadLe16(header[2..4]) as int - 4, ReadLe16(header[4..6]);
      chip.Traffic(0);
    }

    /** The next bytes of the packet whose header was read, into the caller's buffer. */
    method FetchData(buffer: array<byte>, length: nat)
      requires chip.Valid() && chip.stored != [] && length <= |chip.stored[0].frame| && length < buffer.Length
      requires chip.readPointer == Wrap(chip.start + 6)
      modifies chip`readPointer, buffer
      ensures chip.Valid() && buffer[..length] == chip.stored[0].frame[..length]
      ensures chip.Usable() == old(chip.Usable())
    {
      hide Image, Images, Total, Wrap;
      FirstPacket(chip.mem, chip.start, chip.stored);
      DataWindow(chip.mem, chip.start, chip.stored[0], length);
      var data := ReadBuffer(length);
      for k := 0 to length
        invariant forall j :: 0 <= j < k ==> buffer[j] == data[j]
        modifies buffer
      {
        buffer[k] := data[k];
      }
      assert buffer[..length] == data;
    }

    /** PKTDEC: the packet is the driver's now; its bytes stay reserved until the release. */
    method CountOff(ghost first: nat, ghost p: Packet)
      requires chip.Valid() && chip.stored != [] && chip.stored[0] == p && chip.start == first
      requires chip.packetCount == |chip.stored| && rxNext == Wrap(first + Size(p)) &&
        chip.accepted == delivered + chip.stored
      requires unreleased && chip.Usable() >= 3070
      modifies chip`packetCount, chip`start, chip`stored, this`delivered
      ensures Valid() && delivered == old(delivered) + [p] && chip.stored == old(chip.stored)[1..]
    {
      hide Image, Images, Window;
      FirstPacket(chip.mem, first, chip.stored);
      WrapAdd(first + Size(p), Total(chip.stored[1..]));
      chip.packetCount := chip.packetCount - 1;
      chip.start := rxNext;
      delivered := delivered + [p];
      chip.stored := chip.stored[1..];
    }
  }

  lemma TotalBound(readPointer: nat, writePointer: nat, total: nat)
    requires readPointer < RING && writePointer < RING && Free(readPointer, writePointer) + total < RING
    ensures total < RING
  {
  }

  lemma HeaderParts(w: seq<byte>)
    requires |w| >= 6
    ensures w[..6][0..2] == w[0..2] && w[..6][2..4] == w[2..4] && w[..6][4..6] == w[4..6]
  {
  }

  /** The three words of a packet's header. */
  lemma HeaderReads(header: seq<byte>, start: nat, p: Packet)
    requires |header| == 6 && PacketOk(p)
    requires header[0..2] == Le16(Wrap(start + Size(p))) && header[2..4] == Le16(|p.frame| + 4) &&
      header[4..6] == Le16(p.status)
    ensures ReadLe16(header[..2]) == Wrap(start + Size(p)) && ReadLe16(header[2..4]) as int - 4 == |p.frame|
    ensures ReadLe16(header[4..6]) == p.status
  {
    ReadLe16OfLe16(Wrap(start + Size(p)));
    ReadLe16OfLe16(|p.frame| + 4);
    ReadLe16OfLe16(p.status);
    assert header[..2] == header[0..2];
  }

  lemma DataWindow(mem: seq<byte>, start: nat, p: Packet, length: nat)
    requires |mem| == RING && length <= |p.frame| && Window(mem, start, 6 + |p.frame|)[6..] == p.frame
    ensures Window(mem, Wrap(start + 6), length) == p.frame[..length]
  {
    WindowShift(mem, start, 6, length);
    WindowPart(mem, start, 6 + |p.frame|, 6 + length);
    assert Window(mem, start, 6 + |p.frame|)[..6 + length][6..] == Window(mem, start, 6 + |p.frame|)[6..][..length];
  }
}
