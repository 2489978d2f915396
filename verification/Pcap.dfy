/**
 Capture files: what the writer stores, the scan that indexes it, and the read of one
 packet through the index.
 */
module Pcap {
  import opened Bytes
  import opened Neighbors
  import opened Texts

  const FILE_HEADER := 24
  const RECORD_HEADER := 16
  const MAGIC: u32 := 0xA1B2_C3D4

  // ---- The file ----

  datatype Frame = Frame(seconds: u32, microseconds: u32, data: seq<byte>)

  /** Every frame's length fits its header field. */
  predicate Storable(fs: seq<Frame>) {
    forall k :: 0 <= k < |fs| ==> |fs[k].data| < 0x1_0000_0000
  }

  function HeaderBytes(): (h: seq<byte>)
    ensures |h| == FILE_HEADER
  {
    Le32(MAGIC) + Le16(2) + Le16(4) + Le32(0) + Le32(0) + Le32(65535) + Le32(1)
  }

  /** The global header, byte by byte: magic, version 2.4, no zone, snap length 65535, Ethernet. */
  lemma HeaderLayout()
    ensures HeaderBytes() == [0xD4, 0xC3, 0xB2, 0xA1, 2, 0, 4, 0] + Zeros(8) + [0xFF, 0xFF, 0, 0, 1, 0, 0, 0]
  {
  }

  function RecordBytes(f: Frame): (r: seq<byte>)
    requires |f.data| < 0x1_0000_0000
    ensures |r| == RECORD_HEADER + |f.data|
  {
    Le32(f.seconds) + Le32(f.microseconds) + Le32(|f.data|) + Le32(|f.data|) + f.data
  }

  function RecordsBytes(fs: seq<Frame>): seq<byte>
    requires Storable(fs)
  {
    if fs == [] then [] else RecordsBytes(fs[..|fs| - 1]) + RecordBytes(fs[|fs| - 1])
  }

  function FileBytes(fs: seq<Frame>): seq<byte>
    requires Storable(fs)
  {
    HeaderBytes() + RecordsBytes(fs)
  }

  /** Where record i begins. */
  function Offset(fs: seq<Frame>, i: nat): nat
    requires i <= |fs|
  {
    if i == 0 then 24 else Offset(fs, i - 1) + 16 + |fs[i - 1].data|
  }

  lemma {:induction false} OffsetPrefix(fs: seq<Frame>, n: nat, i: nat)
    requires i <= n <= |fs|
    ensures Offset(fs[..n], i) == Offset(fs, i)
  {
    if i > 0 {
      OffsetPrefix(fs, n, i - 1);
    }
  }

  /** Each record lies at its offset, and the file ends behind the last. */
  lemma {:induction false} RecordLies(fs: seq<Frame>, i: nat)
    requires Storable(fs)
    ensures |FileBytes(fs)| == Offset(fs, |fs|)
    ensures i < |fs| ==>
      Offset(fs, i + 1) <= |FileBytes(fs)| && FileBytes(fs)[Offset(fs, i)..Offset(fs, i + 1)] == RecordBytes(fs[i])
  {
    hide HeaderBytes, RecordBytes;
    if fs != [] {
      var n := |fs| - 1;
      RecordLies(fs[..n], i);
      OffsetPrefix(fs, n, n);
      ConcatAssociative(HeaderBytes(), RecordsBytes(fs[..n]), RecordBytes(fs[n]));
      var before := FileBytes(fs[..n]);
      assert FileBytes(fs) == before + RecordBytes(fs[n]);
      if i < n {
        OffsetPrefix(fs, n, i);
        OffsetPrefix(fs, n, i + 1);
        assert FileBytes(fs)[Offset(fs, i)..Offset(fs, i + 1)] == before[Offset(fs, i)..Offset(fs, i + 1)];
      }
    }
  }

  class Capture {
    var content: seq<byte>
    ghost var frames: seq<Frame>

    ghost predicate Valid()
      reads this
    {
      Storable(frames) && content == FileBytes(frames)
    }

    /** A new file holds the global header. */
    constructor ()
      ensures Valid() && frames == []
    {
      content := HeaderBytes();
      frames := [];
      new;
      assert content == HeaderBytes() + [];
    }

    method AddPacket(packet: seq<byte>, seconds: u32, microseconds: u32)
      requires Valid() && |packet| < 0x1_0000_0000
      modifies this
      ensures Valid() && frames == old(frames) + [Frame(seconds, microseconds, packet)]
    {
      hide HeaderBytes, RecordBytes;
      var header := Le32(seconds) + Le32(microseconds) + Le32(|packet|) + Le32(|packet|);
      ghost var f := Frame(seconds, microseconds, packet);
      assert (frames + [f])[..|frames|] == frames;
      ConcatAssociative(HeaderBytes(), RecordsBytes(frames), RecordBytes(f));
      RecordPieces(f);
      ConcatAssociative(content, header, packet);
      content := content + header;
      content := content + packet;
      frames := frames + [f];
    }
  }

  lemma RecordPieces(f: Frame)
    requires |f.data| < 0x1_0000_0000
    ensures RecordBytes(f) == (Le32(f.seconds) + Le32(f.microseconds) + Le32(|f.data|) + Le32(|f.data|)) + f.data
    ensures RecordBytes(f)[0..4] == Le32(f.seconds) && RecordBytes(f)[4..8] == Le32(f.microseconds)
    ensures RecordBytes(f)[8..12] == Le32(|f.data|) && RecordBytes(f)[12..16] == Le32(|f.data|)
    ensures RecordBytes(f)[16..] == f.data
  {
  }

  // ---- The scan ----

  /** The length field of the record under the cursor. */
  function LengthAt(c: seq<byte>, cursor: nat): u32
    requires cursor + RECORD_HEADER <= |c|
  {
    ReadLe32(c[cursor + 12..cursor + 16])
  }

  /** The seek behind a record: its offset has 32 bits. */
  function Behind(cursor: nat, length: u32): nat {
    (cursor + RECORD_HEADER + length) % 0x1_0000_0000
  }

  /** The bytes the pass counts for one record, in 32 bits. */
  function Advance(length: u32): nat {
    (RECORD_HEADER + length) % 0x1_0000_0000
  }

  predicate Goes(c: seq<byte>, cursor: nat) {
    && cursor + RECORD_HEADER <= |c|
    && LengthAt(c, cursor) > 0
    && Behind(cursor, LengthAt(c, cursor)) < |c|
    && Advance(LengthAt(c, cursor)) > 0
  }

  /** The positions noted from a record on; the file cursor has 32 bits, the position has more. */
  function ScanFrom(c: seq<byte>, cursor: nat, position: nat, left: nat): seq<nat>
    decreases left
  {
    if left == 0 then []
    else if !Goes(c, cursor) then [position]
    else
      var length := LengthAt(c, cursor);
      [position] + ScanFrom(c, Behind(cursor, length), position + Advance(length), left - 1)
  }

  function ScanOf(c: seq<byte>, limit: nat): seq<nat> {
    if |c| < FILE_HEADER || ReadLe32(c[..4]) != MAGIC then [] else ScanFrom(c, FILE_HEADER, FILE_HEADER, limit)
  }

  /** One pass over the record headers, noting where each record starts. */
  method Scan(c: seq<byte>, positions: array<nat>) returns (counter: nat)
    modifies positions
    ensures counter <= positions.Length && positions[..counter] == ScanOf(c, positions.Length)
    ensures forall k :: counter <= k < positions.Length ==> positions[k] == old(positions[k])
  {
    counter := 0;
    if |c| < FILE_HEADER || ReadLe32(c[..4]) != MAGIC {
      return;
    }
    hide ScanFrom, ReadLe32, LengthAt, Behind, Advance, Goes;
    var cursor: nat, position: nat, bytesRead: nat := FILE_HEADER, 0, FILE_HEADER;
    ghost var all := ScanFrom(c, FILE_HEADER, FILE_HEADER, positions.Length);
    var more := true;
    while more
      invariant counter <= positions.Length
      invariant more ==>
        all == positions[..counter] + ScanFrom(c, cursor, position + bytesRead, positions.Length - counter)
      invariant !more ==> all == positions[..counter]
      invariant forall k :: counter <= k < positions.Length ==> positions[k] == old(positions[k])
      decreases more, positions.Length - counter
    {
      position := position + bytesRead;
      GoesMeans(c, cursor);
      ScanStep(c, cursor, position, positions.Length - counter, positions[..counter], all);
      if counter >= positions.Length {
        more := false;
      } else {
        ghost var noted := positions[..counter];
        positions[counter] := position;
        counter := counter + 1;
        assert positions[..counter] == noted + [position];
        if cursor + RECORD_HEADER > |c| {
          more := false;
        } else {
          var length := LengthAt(c, cursor);
          if length == 0 {
            more := false;
          } else {
            cursor := Behind(cursor, length);
            bytesRead := Advance(length);
            more := cursor < |c| && bytesRead > 0;
          }
        }
      }
    }
  }

  lemma GoesMeans(c: seq<byte>, cursor: nat)
    ensures Goes(c, cursor) <==>
      cursor + RECORD_HEADER <= |c| && LengthAt(c, cursor) > 0 && Behind(cursor, LengthAt(c, cursor)) < |c| &&
      Advance(LengthAt(c, cursor)) > 0
  {
  }

  lemma ScanStep(c: seq<byte>, cursor: nat, position: nat, left: nat, noted: seq<nat>, all: seq<nat>)
    requires all == noted + ScanFrom(c, cursor, position, left)
    ensures left == 0 ==> all == noted
    ensures left > 0 && !Goes(c, cursor) ==> all == noted + [position]
    ensures left > 0 && Goes(c, cursor) ==>
      all == noted + [position] +
        ScanFrom(c, Behind(cursor, LengthAt(c, cursor)), position + Advance(LengthAt(c, cursor)), left - 1)
  {
    hide Goes, Behind, Advance, LengthAt;
  }

  /** Read through a position, which has 32 bits here: the record's data, cut to the caller's buffer. */
  function PacketAt(c: seq<byte>, position: u32, capacity: nat): Option<seq<byte>> {
    if position + RECORD_HEADER > |c| then None
    else
      var stored := ReadLe32(c[position + 8..position + 12]) as nat;
      var wanted := if stored > capacity then capacity else stored;
      var start := position + RECORD_HEADER;
      if start + wanted > |c| then None else Some(c[start..start + wanted])
  }

  // ---- Index and file agree ----

  /** How many records the scan notes: it stops behind the first empty frame, and notes one for an empty capture. */
  function Noted(fs: seq<Frame>): nat {
    if fs == [] || |fs| == 1 || fs[0].data == [] then 1 else 1 + Noted(fs[1..])
  }

  lemma {:induction false} NotedAll(fs: seq<Frame>)
    requires fs != [] && forall k :: 0 <= k < |fs| ==> fs[k].data != []
    ensures Noted(fs) == |fs|
  {
    if |fs| > 1 {
      NotedAll(fs[1..]);
    }
  }

  lemma HeaderReads()
    ensures ReadLe32(HeaderBytes()[..4]) == MAGIC
  {
    assert HeaderBytes()[..4] == Le32(MAGIC);
    ReadLe32OfLe32(MAGIC);
  }

  /** The header fields of a written record, read in the file. */
  lemma RecordReads(fs: seq<Frame>, i: nat)
    requires Storable(fs) && i < |fs|
    ensures var c, at := FileBytes(fs), Offset(fs, i);
      && at + 16 + |fs[i].data| == Offset(fs, i + 1) <= |c|
      && ReadLe32(c[at + 8..at + 12]) as int == |fs[i].data| && ReadLe32(c[at + 12..at + 16]) as int == |fs[i].data|
      && c[at + 16..Offset(fs, i + 1)] == fs[i].data
  {
    hide FileBytes, RecordBytes;
    RecordLies(fs, i);
    RecordPieces(fs[i]);
    RecordSlices(FileBytes(fs), Offset(fs, i), Offset(fs, i + 1), RecordBytes(fs[i]));
    ReadLe32OfLe32(|fs[i].data|);
  }

  lemma RecordSlices(c: seq<byte>, at: nat, end: nat, r: seq<byte>)
    requires at + 16 <= end <= |c| && c[at..end] == r
    ensures c[at + 8..at + 12] == r[8..12] && c[at + 12..at + 16] == r[12..16] && c[at + 16..end] == r[16..]
  {
    assert forall k :: 0 <= k < |r| ==> r[k] == c[at + k];
  }

  /** One step of the scan over written records. */
  lemma GoesWritten(fs: seq<Frame>, i: nat)
    requires Storable(fs) && |FileBytes(fs)| < 0x1_0000_0000 && i < |fs|
    ensures var c, at := FileBytes(fs), Offset(fs, i);
      && (Goes(c, at) <==> fs[i].data != [] && i + 1 < |fs|)
      && (Goes(c, at) ==>
            Behind(at, LengthAt(c, at)) == at + Advance(LengthAt(c, at)) == Offset(fs, i + 1))
  {
    hide FileBytes, ReadLe32, RecordBytes;
    RecordReads(fs, i);
    FileEnds(fs, i);
    assert Offset(fs, i + 1) == Offset(fs, i) + 16 + |fs[i].data|;
  }

  /** Behind a record there is another, or the file ends. */
  lemma FileEnds(fs: seq<Frame>, i: nat)
    requires Storable(fs) && i < |fs|
    ensures i + 1 < |fs| ==> Offset(fs, i + 1) + 16 <= |FileBytes(fs)|
    ensures i + 1 == |fs| ==> Offset(fs, i + 1) == |FileBytes(fs)|
  {
    hide FileBytes, RecordBytes, ReadLe32;
    RecordLies(fs, i);
    if i + 1 < |fs| {
      RecordLies(fs, i + 1);
    }
  }

  lemma {:induction false} ScanFromRecord(fs: seq<Frame>, i: nat, left: nat)
    requires Storable(fs) && |FileBytes(fs)| < 0x1_0000_0000 && i < |fs|
    ensures var ps := ScanFrom(FileBytes(fs), Offset(fs, i), Offset(fs, i), left);
      && |ps| == (if left <= Noted(fs[i..]) then left else Noted(fs[i..])) <= |fs| - i
      && forall k :: 0 <= k < |ps| ==> ps[k] == Offset(fs, i + k)
    decreases |fs| - i
  {
    hide FileBytes, Offset, Goes, Behind, Advance, LengthAt;
    GoesWritten(fs, i);
    assert fs[i..][0] == fs[i] && fs[i..][1..] == fs[i + 1..];
    NotedExact(fs[i..]);
    if left > 0 && i + 1 < |fs| && fs[i].data != [] {
      ScanFromRecord(fs, i + 1, left - 1);
      var ps := ScanFrom(FileBytes(fs), Offset(fs, i), Offset(fs, i), left);
      var rest := ScanFrom(FileBytes(fs), Offset(fs, i + 1), Offset(fs, i + 1), left - 1);
      assert ps == [Offset(fs, i)] + rest;
      forall k | 0 <= k < |ps|
        ensures ps[k] == Offset(fs, i + k)
      {
        if k > 0 {
          assert ps[k] == rest[k - 1] == Offset(fs, i + 1 + (k - 1));
        }
      }
    }
  }

  /**
   After n frames, none empty and n at least one, the scan notes the first records up to
   the limit; position i is where record i lies.
   */
  lemma ScanWritten(fs: seq<Frame>, limit: nat)
    requires Storable(fs) && |FileBytes(fs)| < 0x1_0000_0000
    requires fs != [] && forall k :: 0 <= k < |fs| ==> fs[k].data != []
    ensures var ps := ScanOf(FileBytes(fs), limit);
      && |ps| == (if limit <= |fs| then limit else |fs|)
      && forall k :: 0 <= k < |ps| ==> ps[k] == Offset(fs, k)
  {
    NotedAll(fs);
    ScanExact(fs, limit);
    assert fs[0..] == fs;
  }

  /** The general count: an empty capture has one position, and nothing behind an empty frame is found. */
  lemma ScanExact(fs: seq<Frame>, limit: nat)
    requires Storable(fs) && |FileBytes(fs)| < 0x1_0000_0000
    ensures var ps := ScanOf(FileBytes(fs), limit);
      && |ps| == (if limit <= Noted(fs) then limit else Noted(fs))
      && forall k :: 0 <= k < |ps| ==> k <= |fs| && ps[k] == Offset(fs, k)
  {
    hide HeaderBytes;
    HeaderReads();
    assert FileBytes(fs)[..4] == HeaderBytes()[..4];
    if fs != [] {
      ScanFromRecord(fs, 0, limit);
      assert fs[0..] == fs;
    }
  }

  /**
   The scan returns the number of frames, up to the limit, exactly when there is a frame
   and none but the last is empty.
   */
  lemma {:induction false} NotedExact(fs: seq<Frame>)
    ensures Noted(fs) == |fs| <==> fs != [] && forall k :: 0 <= k < |fs| - 1 ==> fs[k].data != []
    ensures fs != [] ==> Noted(fs) <= |fs|
  {
    if |fs| > 1 {
      NotedExact(fs[1..]);
      if fs[0].data != [] {
        assert (forall k :: 0 <= k < |fs| - 1 ==> fs[k].data != []) <==>
          (forall k :: 0 <= k < |fs[1..]| - 1 ==> fs[1..][k].data != []) by {
          assert forall k :: 0 <= k < |fs[1..]| ==> fs[1..][k] == fs[k + 1];
          assert forall k :: 1 <= k < |fs| ==> fs[k] == fs[1..][k - 1];
        }
      }
    }
  }

  /** Reading at a noted position yields the frame, cut to the buffer. */
  lemma PacketWritten(fs: seq<Frame>, i: nat, capacity: nat)
    requires Storable(fs) && i < |fs| && Offset(fs, i) < 0x1_0000_0000
    ensures PacketAt(FileBytes(fs), Offset(fs, i), capacity) == Some(Cut(fs[i].data, capacity))
  {
    hide FileBytes, RecordBytes, Offset;
    RecordReads(fs, i);
    PacketOf(FileBytes(fs), Offset(fs, i), fs[i].data, capacity);
  }

  lemma PacketOf(c: seq<byte>, at: u32, data: seq<byte>, capacity: nat)
    requires at + 16 + |data| <= |c| && c[at + 16..at + 16 + |data|] == data
    requires ReadLe32(c[at + 8..at + 12]) as int == |data|
    ensures PacketAt(c, at, capacity) == Some(Cut(data, capacity))
  {
    hide ReadLe32;
    var wanted := if |data| > capacity then capacity else |data|;
    var x, y := c[at + 16..at + 16 + wanted], Cut(data, capacity);
    assert |x| == |y|;
    forall k | 0 <= k < wanted
      ensures x[k] == y[k]
    {
      assert data[k] == c[at + 16..at + 16 + |data|][k];
    }
    assert x == y;
  }
}
