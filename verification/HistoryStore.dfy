/**
 The saved-neighbour index and the file it was loaded from: loading, reading one record
 through an entry, and the queries on the index. Any storage call may fail.
 */
module HistoryStore {
  import opened Bytes
  import opened Crc32
  import opened Neighbors
  import opened HistoryPayload
  import opened HistoryCodec
  import HistoryFile
  import opened HistoryMerge
  import opened Storage

  type Record = HistoryFile.Record
  type Key = HistoryFile.Key
  type Loaded = HistoryFile.Loaded

  // ---- The index ----

  datatype Status = IsReady | IsMissing | IsInvalid

  /** Where a record is in the file, and what it must still say when it is read. */
  datatype Entry = Entry(offset: nat, payloadLength: u16, flags: u16, mac: MacAddress, protocol: Protocol)

  function EntryFor(r: Record, offset: nat): Entry
    requires |r.payload| <= PAYLOAD_MAX
  {
    Entry(offset, |r.payload|, r.flags, r.mac, r.protocol)
  }

  /** The index of a file that holds the records. */
  function EntriesOf(rs: seq<Record>): (entries: seq<Entry>)
    requires HistoryFile.PayloadsFit(rs)
    ensures |entries| == |rs|
  {
    if rs == [] then []
    else
      var n := |rs| - 1;
      EntriesOf(rs[..n]) + [EntryFor(rs[n], 20 + |HistoryFile.Body(rs[..n])|)]
  }

  lemma {:induction false} EntryAt(rs: seq<Record>, i: nat)
    requires HistoryFile.PayloadsFit(rs) && i < |rs|
    ensures EntriesOf(rs)[i] == EntryFor(rs[i], 20 + |HistoryFile.Body(rs[..i])|)
  {
    hide HistoryFile.Body;
    var n := |rs| - 1;
    if i < n {
      EntryAt(rs[..n], i);
      assert rs[..n][..i] == rs[..i];
    }
  }

  predicate EntryMatches(e: Entry, mac: MacAddress, p: Protocol) {
    e.protocol == p && e.mac == mac
  }

  /** The entry at i is the one a search for the key finds. */
  predicate FirstEntry(entries: seq<Entry>, i: nat, mac: MacAddress, p: Protocol)
    requires i < |entries|
  {
    EntryMatches(entries[i], mac, p) && forall k :: 0 <= k < i ==> !EntryMatches(entries[k], mac, p)
  }

  predicate HasEntry(entries: seq<Entry>, mac: MacAddress, p: Protocol) {
    exists i :: 0 <= i < |entries| && EntryMatches(entries[i], mac, p)
  }

  lemma EntryPresent(entries: seq<Entry>, mac: MacAddress, p: Protocol, i: nat)
    requires i < |entries| && EntryMatches(entries[i], mac, p)
    ensures HasEntry(entries, mac, p)
  {
  }

  lemma HasEntryKeys(rs: seq<Record>, mac: MacAddress, p: Protocol)
    requires HistoryFile.PayloadsFit(rs)
    ensures HasEntry(EntriesOf(rs), mac, p) <==> HistoryFile.Key(mac, p) in KeySet(rs)
  {
    hide EntriesOf, HistoryFile.Body;
    forall i | 0 <= i < |rs|
      ensures EntryMatches(EntriesOf(rs)[i], mac, p) <==> HistoryFile.KeyOf(rs[i]) == HistoryFile.Key(mac, p)
    {
      EntryAt(rs, i);
    }
    if HistoryFile.Key(mac, p) in KeySet(rs) {
      var i :| 0 <= i < |rs| && HistoryFile.KeyOf(rs[i]) == HistoryFile.Key(mac, p);
      assert EntryMatches(EntriesOf(rs)[i], mac, p);
    }
  }

  /** What holds of every index that a load leaves. */
  predicate IndexOk(entries: seq<Entry>) {
    && |entries| <= HistoryFile.MAX_RECORDS
    && forall i, j :: 0 <= i < j < |entries| ==> !EntryMatches(entries[j], entries[i].mac, entries[i].protocol)
  }

  lemma IndexOfOk(rs: seq<Record>)
    requires HistoryFile.FileValid(rs)
    ensures IndexOk(EntriesOf(rs))
  {
    hide HistoryFile.RecordValid, EntriesOf;
    forall i, j | 0 <= i < j < |rs|
      ensures !EntryMatches(EntriesOf(rs)[j], EntriesOf(rs)[i].mac, EntriesOf(rs)[i].protocol)
    {
      EntryAt(rs, i);
      EntryAt(rs, j);
      assert HistoryFile.KeyOf(rs[i]) != HistoryFile.KeyOf(rs[j]);
    }
  }

  // ---- Reading one record ----

  predicate HeaderAgrees(h: seq<byte>, e: Entry)
    requires |h| == 16
  {
    && h[0] == HistoryFile.RECORD_VERSION && h[1] == HistoryFile.ProtocolCode(e.protocol)
    && ReadLe16(h[2..4]) == e.flags && ReadLe16(h[4..6]) == e.payloadLength && h[6..12] == e.mac
    && e.payloadLength <= PAYLOAD_MAX
  }

  /** The neighbour stored where the entry points, if the file still agrees with the entry. */
  function RecordAt(file: seq<byte>, e: Entry): Option<Neighbor> {
    if e.offset + 16 > |file| then None
    else
      var h, start := file[e.offset..e.offset + 16], e.offset + 16;
      if !HeaderAgrees(h, e) || start + e.payloadLength > |file| then None
      else
        var payload := file[start..start + e.payloadLength];
        if Crc(payload) != ReadLe32(h[12..16]) then None else Decode(e.protocol, e.flags, payload, e.mac)
  }

  lemma ParsePieces(file: seq<byte>, offset: nat)
    requires offset + 16 <= |file|
    ensures var h, rest := file[offset..offset + 16], file[offset..];
      && rest[0] == h[0] && rest[1] == h[1] && rest[2..4] == h[2..4] && rest[4..6] == h[4..6]
      && rest[6..12] == h[6..12] && rest[12..16] == h[12..16]
  {
    SliceOfSlice(file, offset, offset + 16, 2, 4);
    SliceOfSlice(file, offset, offset + 16, 4, 6);
    SliceOfSlice(file, offset, offset + 16, 6, 12);
    SliceOfSlice(file, offset, offset + 16, 12, 16);
  }

  lemma PayloadPieces(file: seq<byte>, offset: nat, length: nat)
    requires offset + 16 + length <= |file|
    ensures var rest := file[offset..];
      && rest[16..16 + length] == file[offset + 16..offset + 16 + length]
      && rest[16 + length..] == file[offset + 16 + length..]
  {
  }

  lemma ProtocolCodes(code: byte, p: Protocol)
    ensures HistoryFile.ProtocolFor(code) == Some(p) <==> code == HistoryFile.ProtocolCode(p)
  {
  }

  /** Reading through an entry is parsing at its offset. */
  lemma RecordAtParse(file: seq<byte>, e: Entry)
    requires e.offset + 16 + e.payloadLength <= |file| && FlagsValid(e.protocol, e.flags)
    requires HeaderAgrees(file[e.offset..e.offset + 16], e)
    ensures var rest, end := file[e.offset..], e.offset + 16 + e.payloadLength;
      HistoryFile.ParseRecord(rest) == match RecordAt(file, e)
        case None => None
        case Some(_) => Some((HistoryFile.Record(e.protocol, e.flags, e.mac, file[e.offset + 16..end]), file[end..]))
  {
    hide Decode, FlagsValid, Crc, CLen;
    ParsePieces(file, e.offset);
    PayloadPieces(file, e.offset, e.payloadLength);
    ProtocolCodes(file[e.offset + 1], e.protocol);
  }

  /** The index of a file leads to its records. */
  lemma RecordAtIndexed(rs: seq<Record>, i: nat)
    requires HistoryFile.FileValid(rs) && i < |rs|
    ensures RecordAt(HistoryFile.FileBytes(rs), EntriesOf(rs)[i]) == Some(Restored(rs[i]))
  {
    hide HistoryFile.RecordValid, HistoryFile.KeysDistinct, Decode, EntriesOf, RecordAt, Restored;
    hide HistoryFile.FileBytes, HistoryFile.Body;
    var file, before := HistoryFile.FileBytes(rs), HistoryFile.Body(rs[..i]);
    EntryAt(rs, i);
    BodyAt(rs, i);
    RecordInFile(rs, i, rs[i], before, HistoryFile.Body(rs[i + 1..]));
  }

  /** The neighbour an entry leads to in whatever the history path holds. */
  function StoredAt(file: Option<seq<byte>>, e: Entry): Option<Neighbor> {
    match file
    case None => None
    case Some(content) => RecordAt(content, e)
  }

  lemma {:induction false} BodyAt(rs: seq<Record>, i: nat)
    requires HistoryFile.PayloadsFit(rs) && i < |rs|
    ensures HistoryFile.Body(rs) ==
      HistoryFile.Body(rs[..i]) + (HistoryFile.RecordBytes(rs[i]) + HistoryFile.Body(rs[i + 1..]))
  {
    if i > 0 {
      BodyAt(rs[1..], i - 1);
      assert rs[1..][..i - 1] == rs[..i][1..] && rs[1..][i - 1] == rs[i] && rs[1..][i..] == rs[i + 1..];
      ConcatAssociative(HistoryFile.RecordBytes(rs[0]), HistoryFile.Body(rs[..i][1..]),
                        HistoryFile.RecordBytes(rs[i]) + HistoryFile.Body(rs[i + 1..]));
    }
  }

  lemma TailAt(file: seq<byte>, body: seq<byte>, before: seq<byte>, tail: seq<byte>)
    requires |file| >= 20 && file[20..] == body && body == before + tail
    ensures 20 + |before| <= |file| && file[20 + |before|..] == tail
  {
    assert file[20 + |before|..] == file[20..][|before|..];
  }

  lemma RecordAtTail(file: seq<byte>, offset: nat, r: Record, after: seq<byte>)
    requires offset <= |file| && HistoryFile.RecordValid(r) && file[offset..] == HistoryFile.RecordBytes(r) + after
    ensures RecordAt(file, EntryFor(r, offset)) == Some(Restored(r))
  {
    hide Decode, FlagsValid, HistoryFile.ParseRecord, Crc, HistoryFile.RecordBytes;
    HistoryFile.RecordHeaderFields(r, after);
    HistoryFile.ParseWrittenRecord(r, after);
    ReadLe16OfLe16(r.flags);
    ReadLe16OfLe16(|r.payload|);
    ParsePieces(file, offset);
    PayloadPieces(file, offset, |r.payload|);
    RecordAtParse(file, EntryFor(r, offset));
  }

  lemma RecordInFile(rs: seq<Record>, i: nat, r: Record, before: seq<byte>, after: seq<byte>)
    requires HistoryFile.PayloadsFit(rs) && |rs| <= HistoryFile.MAX_RECORDS && HistoryFile.RecordValid(r)
    requires HistoryFile.Body(rs) == before + (HistoryFile.RecordBytes(r) + after)
    ensures RecordAt(HistoryFile.FileBytes(rs), EntryFor(r, 20 + |before|)) == Some(Restored(r))
  {
    hide Decode, FlagsValid, HistoryFile.FileBytes, HistoryFile.Body, HistoryFile.RecordBytes, RecordAt;
    HistoryFile.FileFields(rs);
    TailAt(HistoryFile.FileBytes(rs), HistoryFile.Body(rs), before, HistoryFile.RecordBytes(r) + after);
    RecordAtTail(HistoryFile.FileBytes(rs), 20 + |before|, r, after);
  }

  method CrcOf(data: seq<byte>) returns (crc: u32)
    ensures crc == Crc(data)
  {
    crc := UpdateCrc(INITIAL, data);
    crc := Xor32(crc, INITIAL);
  }

  method RecordRead(file: File, e: Entry) returns (r: Option<Neighbor>)
    requires file.open.Some? && file.open.value in file.store.disk
    modifies file`position, file.store`faulted
    ensures r.Some? ==> r == RecordAt(file.Content(), e)
    ensures r.None? ==> RecordAt(file.Content(), e).None? || file.store.faulted
    ensures old(file.store.faulted) ==> file.store.faulted
  {
    hide Decode, Crc;
    var ok := file.Seek(e.offset);
    if !ok {
      return None;
    }
    var header := file.Read(16);
    if |header| != 16 {
      return None;
    }
    var payloadLength := ReadLe16(header[4..6]);
    if header[0] != HistoryFile.RECORD_VERSION || header[1] != HistoryFile.ProtocolCode(e.protocol) ||
      ReadLe16(header[2..4]) != e.flags || payloadLength != e.payloadLength ||
      header[6..12] != e.mac || payloadLength > PAYLOAD_MAX
    {
      return None;
    }
    var payload := file.Read(payloadLength);
    if |payload| != payloadLength {
      return None;
    }
    assert payload == file.Content()[e.offset + 16..e.offset + 16 + payloadLength];
    var crc := CrcOf(payload);
    if crc != ReadLe32(header[12..16]) {
      return None;
    }
    r := DecodePayload(e.protocol, e.flags, payload, e.mac);
  }

  // ---- Loading ----

  /** What the loop over the records knows after the records in rs. */
  predicate LoadedSoFar(c: seq<byte>, count: nat, entries: seq<Entry>, offset: nat, rs: seq<Record>) {
    && HistoryFile.AllValid(rs) && HistoryFile.KeysDistinct(rs) && |rs| <= count
    && entries == EntriesOf(rs)
    && 20 <= offset <= |c| && offset == 20 + |HistoryFile.Body(rs)|
    && c[20..] == HistoryFile.Body(rs) + c[offset..]
    && (HistoryFile.ParseBody(c[offset..], count - |rs|, KeySet(rs)).None? ==>
      HistoryFile.ParseBody(c[20..], count, {}).None?)
  }

  lemma LoadedNothing(c: seq<byte>, count: nat)
    requires |c| >= 20
    ensures LoadedSoFar(c, count, [], 20, [])
  {
    hide HistoryFile.RecordValid, HistoryFile.ParseBody;
    EmptyKeySet();
  }

  lemma EntriesSnoc(rs: seq<Record>, r: Record)
    requires HistoryFile.PayloadsFit(rs) && |r.payload| <= PAYLOAD_MAX
    ensures EntriesOf(rs + [r]) == EntriesOf(rs) + [EntryFor(r, 20 + |HistoryFile.Body(rs)|)]
  {
    hide HistoryFile.Body, EntryFor;
    assert (rs + [r])[..|rs|] == rs;
  }

  lemma ParseBodyNone(body: seq<byte>, n: nat, known: set<Key>, r: Record, rest: seq<byte>)
    requires n > 0 && HistoryFile.ParseRecord(body) == Some((r, rest)) && HistoryFile.KeyOf(r) !in known
    ensures HistoryFile.ParseBody(rest, n - 1, known + {HistoryFile.KeyOf(r)}).None? ==>
      HistoryFile.ParseBody(body, n, known).None?
  {
    hide HistoryFile.ParseRecord;
  }

  /** One more record accepted. */
  lemma LoadedOneMore(c: seq<byte>, count: nat, entries: seq<Entry>, offset: nat, rs: seq<Record>, r: Record, end: nat)
    requires LoadedSoFar(c, count, entries, offset, rs) && |rs| < count
    requires end <= |c| && HistoryFile.ParseRecord(c[offset..]) == Some((r, c[end..]))
    requires !HasEntry(entries, r.mac, r.protocol)
    ensures |r.payload| <= PAYLOAD_MAX && LoadedSoFar(c, count, entries + [EntryFor(r, offset)], end, rs + [r])
  {
    hide HistoryFile.RecordValid, HistoryFile.ParseRecord, HistoryFile.KeysDistinct, HasEntry, KeySet, EntriesOf;
    hide HistoryFile.Body, HistoryFile.ParseBody, HistoryFile.AllValid;
    HistoryFile.ParsedRecordWritten(c[offset..]);
    RecordFits(r);
    PayloadsOf(rs);
    HasEntryKeys(rs, r.mac, r.protocol);
    SnocDistinct(rs, r);
    HistoryFile.AllValidSnoc(rs, r);
    EntriesSnoc(rs, r);
    KeySetSnoc(rs, r);
    HistoryFile.BodySnoc(rs, r);
    ConcatAssociative(HistoryFile.Body(rs), HistoryFile.RecordBytes(r), c[end..]);
    LengthsAgree(c, offset, end, HistoryFile.RecordBytes(r));
    ParseBodyNone(c[offset..], count - |rs|, KeySet(rs), r, c[end..]);
  }

  lemma RecordFits(r: Record)
    requires HistoryFile.RecordValid(r)
    ensures |r.payload| <= PAYLOAD_MAX
  {
  }

  lemma PayloadsOf(rs: seq<Record>)
    requires HistoryFile.AllValid(rs)
    ensures HistoryFile.PayloadsFit(rs)
  {
  }

  lemma LengthsAgree(c: seq<byte>, offset: nat, end: nat, head: seq<byte>)
    requires offset <= |c| && end <= |c| && c[offset..] == head + c[end..]
    ensures end == offset + |head|
  {
    assert |c[offset..]| == |head| + |c[end..]|;
  }

  /** The whole body accepted is a loaded file; anything left over is not. */
  lemma LoadedAll(c: seq<byte>, entries: seq<Entry>, offset: nat, rs: seq<Record>)
    requires HistoryFile.HeaderOk(c) && HistoryFile.BodyCrcOk(c) && LoadedSoFar(c, c[6], entries, offset, rs) &&
      |rs| == c[6]
    ensures offset == |c| ==> HistoryFile.Load(Some(c)) == HistoryFile.Ready(rs)
    ensures offset != |c| ==> HistoryFile.ParseBody(c[20..], c[6], {}).None?
    ensures HistoryFile.FileValid(rs)
  {
    hide HistoryFile.RecordValid, HistoryFile.KeysDistinct, EntriesOf, HistoryFile.Load;
    if offset == |c| {
      assert c[offset..] == [] && c[20..] == HistoryFile.Body(rs);
      HistoryFile.CheckedHeader(c, rs);
      HistoryFile.LoadWritten(rs);
    }
  }

  lemma LoadRefused(c: seq<byte>)
    requires HistoryFile.HeaderOk(c) && HistoryFile.BodyCrcOk(c) && HistoryFile.ParseBody(c[20..], c[6], {}).None?
    ensures HistoryFile.Load(Some(c)) == HistoryFile.Invalid
  {
  }

  lemma LoadedBounds(c: seq<byte>, count: nat, entries: seq<Entry>, offset: nat, rs: seq<Record>)
    requires LoadedSoFar(c, count, entries, offset, rs)
    ensures 20 <= offset <= |c| && |rs| == |entries|
    ensures HistoryFile.AllValid(rs) && HistoryFile.KeysDistinct(rs) && entries == EntriesOf(rs)
  {
  }

  lemma LoadRejected(c: seq<byte>, count: nat, entries: seq<Entry>, offset: nat, rs: seq<Record>)
    requires LoadedSoFar(c, count, entries, offset, rs) && |rs| < count
    requires var parsed := HistoryFile.ParseRecord(c[offset..]);
      parsed.None? || HasEntry(entries, parsed.value.0.mac, parsed.value.0.protocol)
    ensures HistoryFile.ParseBody(c[20..], count, {}).None?
  {
    hide HistoryFile.ParseRecord, HistoryFile.RecordValid, HistoryFile.KeysDistinct, HistoryFile.Body, HasEntry;
    var parsed := HistoryFile.ParseRecord(c[offset..]);
    if parsed.Some? {
      HasEntryKeys(rs, parsed.value.0.mac, parsed.value.0.protocol);
    }
  }

  lemma HeaderFacts(c: seq<byte>)
    ensures HistoryFile.HeaderOk(c) ==> |c| == 20 + ReadLe32(c[8..12])
    ensures !HistoryFile.HeaderOk(c) ==> HistoryFile.Load(Some(c)) == HistoryFile.Invalid
    ensures HistoryFile.HeaderOk(c) && !HistoryFile.BodyCrcOk(c) ==> HistoryFile.Load(Some(c)) == HistoryFile.Invalid
  {
  }

  lemma BodyCrcFacts(c: seq<byte>)
    requires |c| >= 20
    ensures HistoryFile.BodyCrcOk(c) <==> Crc(c[20..]) == ReadLe32(c[12..16])
  {
  }

  /** The keys of the entries the filter asks for, in index order. */
  function KeysFor(entries: seq<Entry>, filter: Filter): seq<Key> {
    if entries == [] then []
    else
      var n := |entries| - 1;
      KeysFor(entries[..n], filter) +
      if FilterMatches(filter, entries[n].protocol) then [HistoryFile.Key(entries[n].mac, entries[n].protocol)] else []
  }

  lemma {:induction false} KeysForPrefix(entries: seq<Entry>, filter: Filter, i: nat)
    requires i <= |entries|
    ensures KeysFor(entries[..i], filter) <= KeysFor(entries, filter)
  {
    var n := |entries| - 1;
    if i < |entries| {
      KeysForPrefix(entries[..n], filter, i);
      assert entries[..n][..i] == entries[..i];
    } else {
      assert entries[..i] == entries;
    }
  }

  /** An index of a valid file lists its keys in file order. */
  lemma {:induction false} KeysForIndexed(rs: seq<Record>, i: nat)
    requires HistoryFile.PayloadsFit(rs) && i < |rs|
    ensures |KeysFor(EntriesOf(rs), All)| == |rs| && KeysFor(EntriesOf(rs), All)[i] == HistoryFile.KeyOf(rs[i])
  {
    hide HistoryFile.Body;
    var n := |rs| - 1;
    if n > 0 {
      KeysForIndexed(rs[..n], if i < n then i else 0);
    }
    assert EntriesOf(rs)[..n] == EntriesOf(rs[..n]);
  }

  lemma EntryFound(rs: seq<Record>, mac: MacAddress, p: Protocol, i: nat)
    requires HistoryFile.FileValid(rs) && i < |rs| && EntryMatches(EntriesOf(rs)[i], mac, p)
    ensures var k := HistoryFile.Key(mac, p);
      k in Contents(rs) && RecordAt(HistoryFile.FileBytes(rs), EntriesOf(rs)[i]) == Some(Contents(rs)[k])
  {
    hide HistoryFile.RecordValid, HistoryFile.KeysDistinct, HistoryFile.FileBytes, RecordAt, Restored, EntriesOf;
    hide Contents;
    EntryAt(rs, i);
    RecordAtIndexed(rs, i);
    ContentsAt(rs, i);
  }

  lemma EntryMissing(rs: seq<Record>, mac: MacAddress, p: Protocol)
    requires HistoryFile.FileValid(rs)
    requires forall k :: 0 <= k < |rs| ==> !EntryMatches(EntriesOf(rs)[k], mac, p)
    ensures HistoryFile.Key(mac, p) !in Contents(rs)
  {
    hide HistoryFile.RecordValid, HistoryFile.KeysDistinct, EntriesOf;
    HasEntryKeys(rs, mac, p);
  }

  class PassiveHistory {
    var entries: seq<Entry>
    var scratch: Neighbor
    var status: Status

    /** An index that a load has left, for the file of that time. */
    predicate Valid()
      reads this
    {
      IndexOk(entries) && (status != IsReady ==> entries == [])
    }

    constructor ()
      ensures Valid() && entries == []
    {
      entries := [];
      scratch := EMPTY;
      status := IsReady;
    }

    /** The index in memory says what loading said. */
    ghost predicate Reflects(loaded: Loaded)
      reads this
    {
      match loaded
      case Missing => status == IsMissing && entries == []
      case Invalid => status == IsInvalid && entries == []
      case Ready(rs) => status == IsReady && HistoryFile.FileValid(rs) && entries == EntriesOf(rs)
    }

    method KeyExists(mac: MacAddress, p: Protocol) returns (found: bool)
      ensures found == HasEntry(entries, mac, p)
    {
      for i := 0 to |entries|
        invariant forall k :: 0 <= k < i ==> !EntryMatches(entries[k], mac, p)
      {
        if entries[i].protocol == p && entries[i].mac == mac {
          assert EntryMatches(entries[i], mac, p);
          return true;
        }
      }
      return false;
    }

    method CheckHeader(file: File) returns (valid: bool, count: byte, bodySize: u32, bodyCrc: u32)
      requires file.open.Some? && file.open.value in file.store.disk && file.position == 0
      modifies file`position, file.store`faulted
      ensures valid ==> HistoryFile.HeaderOk(file.Content()) && file.position == 20
      ensures valid ==> count == file.Content()[6]
      ensures valid ==> bodySize == ReadLe32(file.Content()[8..12]) && bodyCrc == ReadLe32(file.Content()[12..16])
      ensures !valid ==> !HistoryFile.HeaderOk(file.Content()) || file.store.faulted
      ensures old(file.store.faulted) ==> file.store.faulted
    {
      hide Crc;
      count, bodySize, bodyCrc := 0, 0, 0;
      var fileSize := file.Size();
      valid := HistoryFile.HEADER_SIZE <= fileSize <= HistoryFile.FILE_MAX;
      if !valid {
        return;
      }
      var header := file.Read(20);
      if |header| != 20 {
        return false, count, bodySize, bodyCrc;
      }
      ghost var c := file.Content();
      assert header == c[0..20];
      SliceOfSlice(c, 0, 20, 8, 12);
      SliceOfSlice(c, 0, 20, 12, 16);
      SliceOfSlice(c, 0, 20, 16, 20);
      SliceOfSlice(c, 0, 20, 0, 4);
      SliceOfSlice(c, 0, 20, 0, 16);
      assert header[..4] == header[0..4] && header[..16] == header[0..16] && c[..4] == c[0..4] && c[..16] == c[0..16];
      count, bodySize, bodyCrc := header[6], ReadLe32(header[8..12]), ReadLe32(header[12..16]);
      var crc := CrcOf(header[..16]);
      if header[..4] != HistoryFile.MAGIC || header[4] != HistoryFile.FORMAT_VERSION ||
        header[5] != HistoryFile.HEADER_SIZE || header[7] != 0 ||
        count > HistoryFile.MAX_RECORDS || bodySize > HistoryFile.BODY_MAX ||
        fileSize != HistoryFile.HEADER_SIZE + bodySize || crc != ReadLe32(header[16..20])
      {
        valid := false;
      }
    }

    /** The body is read in chunks of 128 bytes. */
    method CheckBody(file: File, bodySize: u32, bodyCrc: u32) returns (valid: bool)
      requires file.open.Some? && file.open.value in file.store.disk && file.position == 20
      requires |file.Content()| == 20 + bodySize
      modifies file`position, file.store`faulted
      ensures valid ==> Crc(file.Content()[20..]) == bodyCrc
      ensures !valid ==> Crc(file.Content()[20..]) != bodyCrc || file.store.faulted
      ensures old(file.store.faulted) ==> file.store.faulted
    {
      hide CrcUpdate;
      ghost var c := file.Content();
      var crc := INITIAL;
      CrcUpdateNothing(INITIAL);
      var remaining: nat := bodySize;
      assert c[20..20] == [];
      while remaining > 0
        invariant remaining <= bodySize && file.position == 20 + bodySize - remaining
        invariant crc == CrcUpdate(INITIAL, c[20..file.position])
        invariant old(file.store.faulted) ==> file.store.faulted
      {
        var amount := if remaining < 128 then remaining else 128;
        ghost var start := file.position;
        var chunk := file.Read(amount);
        if |chunk| != amount {
          return false;
        }
        crc := UpdateCrc(crc, chunk);
        CrcUpdateConcat(INITIAL, c[20..start], chunk);
        assert c[20..start] + chunk == c[20..file.position];
        remaining := remaining - amount;
      }
      assert c[20..file.position] == c[20..];
      valid := Xor32(crc, INITIAL) == bodyCrc;
    }

    /** Check the record at the offset: its header, its key, and a full read of it. */
    method CheckRecord(file: File, offset: nat, bodySize: u32) returns (r: Option<Entry>)
      requires file.open.Some? && file.open.value in file.store.disk
      requires |file.Content()| == 20 + bodySize && 20 <= offset <= 20 + bodySize
      modifies this`scratch, file`position, file.store`faulted
      ensures r.Some? ==>
        var parsed, end := HistoryFile.ParseRecord(file.Content()[offset..]), offset + 16 + r.value.payloadLength;
        && end <= |file.Content()| && parsed.Some? && parsed.value.1 == file.Content()[end..]
        && |parsed.value.0.payload| <= PAYLOAD_MAX && r.value == EntryFor(parsed.value.0, offset)
        && !HasEntry(entries, r.value.mac, r.value.protocol)
      ensures r.None? && !file.store.faulted ==>
        var parsed := HistoryFile.ParseRecord(file.Content()[offset..]);
        parsed.None? || HasEntry(entries, parsed.value.0.mac, parsed.value.0.protocol)
      ensures old(file.store.faulted) ==> file.store.faulted
    {
      hide Decode, Crc, HasEntry, FlagsValid;
      ghost var c := file.Content();
      if bodySize - (offset - 20) < 16 {
        return None;
      }
      var ok := file.Seek(offset);
      if !ok {
        return None;
      }
      var header := file.Read(16);
      if |header| != 16 {
        return None;
      }
      assert header == c[offset..offset + 16];
      ParsePieces(c, offset);
      var protocol := HistoryFile.ProtocolFor(header[1]);
      var flags, payloadLength := ReadLe16(header[2..4]), ReadLe16(header[4..6]);
      if header[0] != HistoryFile.RECORD_VERSION || protocol.None? || !FlagsValid(protocol.value, flags) ||
        payloadLength > PAYLOAD_MAX || payloadLength > bodySize - (offset - 20) - 16
      {
        return None;
      }
      var entry := Entry(offset, payloadLength, flags, header[6..12], protocol.value);
      ProtocolCodes(header[1], protocol.value);
      RecordAtParse(c, entry);
      var known := KeyExists(entry.mac, entry.protocol);
      if known {
        return None;
      }
      var read := RecordRead(file, entry);
      if read.None? {
        return None;
      }
      scratch := read.value;
      return Some(entry);
    }

    method LoadRecords(file: File, count: byte, bodySize: u32) returns (valid: bool, ghost rs: seq<Record>)
      requires file.open.Some? && file.open.value in file.store.disk
      requires HistoryFile.HeaderOk(file.Content()) && HistoryFile.BodyCrcOk(file.Content())
      requires count == file.Content()[6] && |file.Content()| == 20 + bodySize && entries == []
      modifies this`entries, this`scratch, file`position, file.store`faulted
      ensures valid ==> HistoryFile.Load(Some(file.Content())) == HistoryFile.Ready(rs)
      ensures valid ==> HistoryFile.FileValid(rs) && entries == EntriesOf(rs)
      ensures !valid ==> HistoryFile.Load(Some(file.Content())) == HistoryFile.Invalid || file.store.faulted
      ensures old(file.store.faulted) ==> file.store.faulted
    {
      hide HistoryFile.HeaderOk, HistoryFile.BodyCrcOk, HistoryFile.Load, HistoryFile.ParseBody;
      hide HistoryFile.ParseRecord;
      hide HistoryFile.FileValid, HasEntry, LoadedSoFar, EntriesOf;
      ghost var c := file.Content();
      var offset := 20;
      rs := [];
      LoadedNothing(c, count);
      for i := 0 to count
        invariant |rs| == |entries| == i && 20 <= offset <= |c| && LoadedSoFar(c, count, entries, offset, rs)
        invariant old(file.store.faulted) ==> file.store.faulted
      {
        var entry := CheckRecord(file, offset, bodySize);
        if entry.None? {
          if !file.store.faulted {
            LoadRejected(c, count, entries, offset, rs);
            LoadRefused(c);
          }
          return false, rs;
        }
        ghost var r, end := HistoryFile.ParseRecord(c[offset..]).value.0, offset + 16 + entry.value.payloadLength;
        assert HistoryFile.ParseRecord(c[offset..]).value == (r, c[end..]);
        LoadedOneMore(c, count, entries, offset, rs, r, end);
        LoadedBounds(c, count, entries + [entry.value], end, rs + [r]);
        entries := entries + [entry.value];
        offset := offset + 16 + entry.value.payloadLength;
        rs := rs + [r];
      }
      LoadedAll(c, entries, offset, rs);
      LoadedBounds(c, count, entries, offset, rs);
      valid := |entries| == count && offset == 20 + bodySize;
      if !valid {
        LoadRefused(c);
      }
    }

    method Load(store: Store) returns (ghost loaded: Loaded)
      modifies this, store`faulted
      ensures Reflects(loaded) && Valid()
      ensures loaded == HistoryFile.Load(store.History()) || (!loaded.Ready? && store.faulted)
      ensures old(store.faulted) ==> store.faulted
    {
      hide HistoryFile.HeaderOk, HistoryFile.BodyCrcOk, HistoryFile.FileValid, HistoryFile.ParseBody, EntriesOf;
      hide EntryMatches, Crc;
      entries, status := [], IsInvalid;
      var file := new File(store);
      var ok := file.OpenExisting(HistoryPath);
      if !ok {
        file.Close();
        status := IsMissing;
        return HistoryFile.Missing;
      }
      ghost var c := file.Content();
      loaded := HistoryFile.Invalid;
      var valid, count, bodySize, bodyCrc := CheckHeader(file);
      HeaderFacts(c);
      if valid {
        valid := CheckBody(file, bodySize, bodyCrc);
        BodyCrcFacts(c);
      }
      if valid {
        ghost var rs;
        valid, rs := LoadRecords(file, count, bodySize);
        if valid {
          loaded := HistoryFile.Ready(rs);
        }
      }
      file.Close();
      if valid {
        status := IsReady;
        IndexOfOk(loaded.records);
      } else {
        entries := [];
        scratch := EMPTY;
      }
    }

    method Count(filter: Filter) returns (count: nat)
      ensures count == if status == IsInvalid then 0 else |KeysFor(entries, filter)|
    {
      count := 0;
      if status == IsInvalid {
        return;
      }
      for i := 0 to |entries|
        invariant count == |KeysFor(entries[..i], filter)|
      {
        if FilterMatches(filter, entries[i].protocol) {
          count := count + 1;
        }
        assert entries[..i + 1][..i] == entries[..i];
      }
      assert entries[..|entries|] == entries;
    }

    method GetKey(filter: Filter, position: nat) returns (r: Option<Key>)
      ensures var keys := KeysFor(entries, filter);
        r == if status != IsInvalid && position < |keys| then Some(keys[position]) else None
    {
      if status == IsInvalid {
        return None;
      }
      var current := 0;
      ghost var keys := KeysFor(entries, filter);
      assert entries[..0] == [];
      for i := 0 to |entries|
        invariant current == |KeysFor(entries[..i], filter)| <= position
      {
        var candidate := entries[i].protocol;
        assert entries[..i + 1][..i] == entries[..i];
        if FilterMatches(filter, candidate) {
          if current == position {
            KeysForPrefix(entries, filter, i + 1);
            return Some(HistoryFile.Key(entries[i].mac, candidate));
          }
          current := current + 1;
        }
      }
      assert entries[..|entries|] == entries;
      return None;
    }

    /** Read one saved neighbour again; the index may be older than the file. */
    method DecodeKey(store: Store, mac: MacAddress, p: Protocol) returns (r: Option<Neighbor>)
      modifies this`scratch, store`faulted
      ensures forall rs: seq<Record> ::
        Reflects(HistoryFile.Ready(rs)) && store.History() == Some(HistoryFile.FileBytes(rs)) ==>
          var k := HistoryFile.Key(mac, p);
          && (r.Some? ==> k in Contents(rs) && r.value == Contents(rs)[k])
          && (r.None? ==> k !in Contents(rs) || store.faulted)
      ensures status != IsReady || !HasEntry(entries, mac, p) ==> r == None
      ensures status == IsReady ==>
        forall i :: 0 <= i < |entries| && FirstEntry(entries, i, mac, p) ==>
          r == StoredAt(store.History(), entries[i]) || (r == None && store.faulted)
      ensures old(store.faulted) ==> store.faulted
    {
      hide HistoryFile.RecordValid, HistoryFile.KeysDistinct, HistoryFile.FileBytes, Decode, RecordAt, EntriesOf;
      hide Restored, Contents, HasEntry;
      if status != IsReady {
        return None;
      }
      var i := 0;
      while i < |entries| && !(entries[i].protocol == p && entries[i].mac == mac)
        invariant i <= |entries| && forall k :: 0 <= k < i ==> !EntryMatches(entries[k], mac, p)
      {
        i := i + 1;
      }
      if i == |entries| {
        forall rs: seq<Record> | Reflects(HistoryFile.Ready(rs)) && store.History() == Some(HistoryFile.FileBytes(rs))
          ensures HistoryFile.Key(mac, p) !in Contents(rs)
        {
          EntryMissing(rs, mac, p);
        }
        return None;
      }
      EntryPresent(entries, mac, p, i);
      var file := new File(store);
      var ok := file.OpenExisting(HistoryPath);
      if ok {
        r := RecordRead(file, entries[i]);
        if r.Some? {
          scratch := r.value;
        }
        forall rs: seq<Record> | Reflects(HistoryFile.Ready(rs)) && store.History() == Some(HistoryFile.FileBytes(rs))
          ensures var k := HistoryFile.Key(mac, p);
            k in Contents(rs) && RecordAt(file.Content(), entries[i]) == Some(Contents(rs)[k])
        {
          EntryFound(rs, mac, p, i);
        }
      } else {
        r := None;
      }
      file.Close();
    }
  }
}
