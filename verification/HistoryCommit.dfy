/**
 Writing a new saved-neighbour file: the records go to a temporary file, which
 replaces the history file in one rename. Merge and clear are built on it.
 */
module HistoryCommit {
  import opened Bytes
  import opened Crc32
  import opened Neighbors
  import opened NeighborDb
  import opened HistoryPayload
  import opened HistoryCodec
  import opened HistoryFile
  import opened HistoryMerge
  import opened Storage
  import opened HistoryStore

  lemma AppendedAtEnd(content: seq<byte>, data: seq<byte>)
    ensures Overwritten(content, |content|, data) == content + data
  {
  }

  lemma OnlyHistory(disk: Disk)
    requires HistoryPath in disk && TempPath !in disk
    ensures disk == map[HistoryPath := disk[HistoryPath]]
  {
    forall p | p in disk
      ensures p == HistoryPath
    {
      match p
      case HistoryPath =>
      case TempPath =>
    }
  }

  lemma HeaderOverwritten(header: seq<byte>, body: seq<byte>)
    requires |header| == 20
    ensures Overwritten(Zeros(20) + body, 0, header) == header + body
  {
  }

  lemma CrcInPieces(body: seq<byte>, header: seq<byte>, payload: seq<byte>)
    ensures CrcUpdate(CrcUpdate(CrcUpdate(INITIAL, body), header), payload) ==
      CrcUpdate(INITIAL, body + (header + payload))
  {
    CrcUpdateConcat(INITIAL, body, header);
    CrcUpdateConcat(INITIAL, body + header, payload);
    ConcatAssociative(body, header, payload);
  }

  /** One more record at the end of the temporary file. */
  lemma RecordAppended(rs: seq<Record>, r: Record, header: seq<byte>)
    requires PayloadsFit(rs) && |r.payload| <= PAYLOAD_MAX && header == RecordHeader(r)
    ensures PayloadsFit(rs + [r])
    ensures Zeros(20) + Body(rs) + header + r.payload == Zeros(20) + Body(rs + [r])
    ensures |Body(rs + [r])| == |Body(rs)| + 16 + |r.payload|
    ensures CrcUpdate(CrcUpdate(CrcUpdate(INITIAL, Body(rs)), header), r.payload) == CrcUpdate(INITIAL, Body(rs + [r]))
  {
    hide CrcUpdate, Crc;
    BodySnoc(rs, r);
    ConcatAssociative(Zeros(20), Body(rs), header + r.payload);
    ConcatAssociative(Zeros(20) + Body(rs), header, r.payload);
    CrcInPieces(Body(rs), header, r.payload);
  }

  method EncodeRecord(p: Protocol, n: Neighbor) returns (ok: bool, header: seq<byte>, payload: seq<byte>)
    ensures ok == StringsTerminated(p, n)
    ensures ok ==> |RecordOf(p, n).payload| <= PAYLOAD_MAX
    ensures ok ==> header == RecordHeader(RecordOf(p, n)) && payload == RecordOf(p, n).payload
  {
    hide StringsTerminated, FlagsOf, ItemsOf, EncodeItems, Crc;
    header := [];
    var flags;
    ok, payload, flags := EncodePayload(p, n);
    if ok {
      PayloadFits(p, n);
      var crc := CrcOf(payload);
      header := [RECORD_VERSION, ProtocolCode(p)] + Le16(flags) + Le16(|payload|) + n.mac + Le32(crc);
    }
  }

  /** The disk holds the complete file of the records and nothing else. */
  predicate Saves(disk: Disk, rs: seq<Record>) {
    PayloadsFit(rs) && |rs| <= MAX_RECORDS && disk == map[HistoryPath := FileBytes(rs)]
  }

  class HistoryWriter {
    var file: File?
    var bodyCrc: u32
    var bodySize: u32
    var count: byte
    var ok: bool
    ghost var records: seq<Record>

    /** The temporary file holds a blank header and the records; the running totals agree. */
    ghost predicate Writing(store: Store)
      reads this, file, store
    {
      && file != null && file.store == store && ok && file.Reading(TempPath)
      && PayloadsFit(records) && |records| == count <= MAX_RECORDS
      && store.disk[TempPath] == Zeros(20) + Body(records)
      && file.position == |store.disk[TempPath]|
      && bodyCrc == CrcUpdate(INITIAL, Body(records)) && bodySize == |Body(records)|
    }

    constructor ()
      ensures file == null && records == []
    {
      file := null;
      bodyCrc, bodySize, count, ok := INITIAL, 0, 0, false;
      records := [];
    }

    method Begin(store: Store) returns (r: bool)
      requires store.Watched()
      modifies this, store
      ensures file != null && fresh(file) && file.store == store
      ensures r ==> Writing(store) && records == []
      ensures !r ==> store.faulted
      ensures old(store.faulted) ==> store.faulted
      ensures store.History() == old(store.History()) && store.seen == old(store.seen)
    {
      hide CrcUpdate;
      file := new File(store);
      bodyCrc, bodySize, count := INITIAL, 0, 0;
      records := [];
      CrcUpdateNothing(INITIAL);
      ok := file.CreateAlways(TempPath);
      if ok {
        AppendedAtEnd([], Zeros(20));
        var written := file.Write(Zeros(20));
        assert Zeros(20)[..20] == Zeros(20);
        ok := written == 20;
      }
      r := ok;
    }

    /** Append bytes to the temporary file. */
    method Append(store: Store, data: seq<byte>) returns (r: bool)
      requires file != null && file.store == store && file.Reading(TempPath)
      requires file.position == |file.Content()| && store.Watched()
      modifies file, store
      ensures file.Reading(TempPath) && store.disk.Keys == old(store.disk).Keys
      ensures r ==> file.Content() == old(file.Content()) + data && file.position == |file.Content()|
      ensures !r ==> store.faulted
      ensures old(store.faulted) ==> store.faulted
      ensures store.History() == old(store.History()) && store.seen == old(store.seen)
    {
      AppendedAtEnd(file.Content(), data);
      var written := file.Write(data);
      assert data[..|data|] == data;
      r := written == |data|;
    }

    method AppendBoth(store: Store, header: seq<byte>, payload: seq<byte>) returns (r: bool)
      requires file != null && file.store == store && file.Reading(TempPath)
      requires file.position == |file.Content()| && store.Watched()
      modifies file, store
      ensures file.Reading(TempPath)
      ensures r ==> file.Content() == old(file.Content()) + header + payload && file.position == |file.Content()|
      ensures !r ==> store.faulted
      ensures old(store.faulted) ==> store.faulted
      ensures store.History() == old(store.History()) && store.seen == old(store.seen)
    {
      r := Append(store, header);
      if r {
        r := Append(store, payload);
      }
    }

    /** Ready for more records, or stopped by a storage failure. */
    ghost predicate Usable(store: Store)
      reads this, file, store
    {
      file != null && file.store == store && if ok then Writing(store) else store.faulted
    }

    method Add(store: Store, p: Protocol, n: Neighbor) returns (r: bool)
      requires Usable(store) && store.Watched()
      modifies this, file, store
      ensures file == old(file) && Usable(store)
      ensures r ==> ok && StringsTerminated(p, n) && records == old(records) + [RecordOf(p, n)]
      ensures !r && ok ==> records == old(records) && (old(count) >= MAX_RECORDS || !StringsTerminated(p, n))
      ensures ok ==> old(ok)
      ensures old(store.faulted) ==> store.faulted
      ensures store.History() == old(store.History()) && store.seen == old(store.seen)
    {
      hide CrcUpdate, StringsTerminated, RecordOf, Body, RecordHeader, Crc, Zeros;
      if !ok || count >= MAX_RECORDS {
        return false;
      }
      var encoded, header, payload := EncodeRecord(p, n);
      if !encoded {
        return false;
      }
      ghost var record := RecordOf(p, n);
      RecordAppended(records, record, header);
      ok := AppendBoth(store, header, payload);
      if ok {
        bodyCrc := UpdateCrc(bodyCrc, header);
        bodyCrc := UpdateCrc(bodyCrc, payload);
        bodySize := bodySize + 16 + |payload|;
        count := count + 1;
        records := records + [record];
      }
      r := ok;
    }

    /** Write the header over the blank one and put the file in place of the history. */
    method Finish(store: Store) returns (r: bool)
      requires Writing(store) && store.Watched()
      modifies this, file, store
      ensures file == null
      ensures r ==> Saves(store.disk, old(records))
      ensures !r ==> store.History() == old(store.History()) && store.faulted
      ensures old(store.faulted) ==> store.faulted
      ensures store.seen == old(store.seen) + {store.History()}
    {
      hide CrcUpdate;
      var fields := MAGIC + [FORMAT_VERSION, HEADER_SIZE, count, 0] + Le32(bodySize) + Le32(Xor32(bodyCrc, INITIAL));
      var crc := CrcOf(fields);
      var header := fields + Le32(crc);
      assert header == FileHeader(count, bodySize, Crc(Body(records)));
      HeaderOverwritten(header, Body(records));
      r := file.Seek(0);
      if r {
        var written := file.Write(header);
        assert header[..20] == header;
        r := written == 20;
      }
      if r {
        assert store.disk[TempPath] == FileBytes(records);
        r := file.Sync();
      }
      file.Close();
      file := null;
      if r {
        r := store.Rename(TempPath, HistoryPath);
        if r {
          OnlyHistory(store.disk);
        }
      }
      if !r {
        store.Remove(TempPath);
      }
    }

    method Abort(store: Store)
      requires store.Watched()
      modifies this, file, store
      ensures file == null
      ensures store.History() == old(store.History()) && store.seen == old(store.seen)
      ensures old(store.faulted) ==> store.faulted
    {
      if file != null {
        file.Close();
        file := null;
      }
      store.Remove(TempPath);
    }
  }

  // ---- Merge ----

  /** The records a load found. */
  function SavedOf(loaded: Loaded): (rs: seq<Record>)
    requires loaded.Ready? ==> FileValid(loaded.records)
    ensures FileValid(rs) && AllValid(rs)
  {
    if loaded.Ready? then loaded.records else []
  }

  /** The open source file, when there are records to copy from it. */
  ghost predicate SourceReady(source: File?, store: Store, rs: seq<Record>)
    requires PayloadsFit(rs) && |rs| <= MAX_RECORDS
    reads source, store
  {
    source != null && source.store == store && source.Reading(HistoryPath) && store.History() == Some(FileBytes(rs))
  }

  lemma UpdatedSnoc(t: seq<Neighbor>, filter: Filter, rs: seq<Record>, i: nat)
    requires AllValid(rs) && i < |rs|
    ensures UpdatedAll(t, filter, rs[..i + 1]) == UpdatedAll(t, filter, rs[..i]) + [Updated(t, filter, rs[i])]
  {
    hide RecordValid, Updated;
    assert rs[..i + 1][..i] == rs[..i];
  }

  lemma LiveTerminated(t: seq<Neighbor>, filter: Filter, k: Key)
    requires TableTerminated(t) && FindLive(t, filter, k).Some?
    ensures StringsTerminated(k.protocol, FindLive(t, filter, k).value)
  {
    assert SlotTerminated(FindLive(t, filter, k).value);
  }

  lemma RestoredTerminated(r: Record)
    requires RecordValid(r)
    ensures StringsTerminated(r.protocol, Restored(r))
  {
    RestoredStorable(r);
  }

  method FindLiveEntry(db: Database, filter: Filter, mac: MacAddress, p: Protocol) returns (live: Option<Neighbor>)
    requires db.Valid()
    ensures live == FindLive(db.Table(), filter, Key(mac, p))
  {
    if !FilterMatches(filter, p) {
      return None;
    }
    var slot := db.FindBySource(mac, SourceBit(p));
    if slot.None? {
      return None;
    }
    return Some(db.neighbors[slot.value]);
  }

  /** Write the old records, each from its live entry if there is one. */
  method CopyUpdated(writer: HistoryWriter, history: PassiveHistory, source: File?, store: Store,
                     db: Database, filter: Filter, ghost rs: seq<Record>)
    returns (ok: bool)
    requires FileValid(rs) && history.entries == EntriesOf(rs)
    requires rs != [] ==> SourceReady(source, store, rs)
    requires writer.Writing(store) && writer.records == [] && writer.file != source && store.Watched() && db.Valid()
    modifies writer, writer.file, store, source, history`scratch
    ensures writer.file == old(writer.file) && history.entries == old(history.entries)
    ensures ok ==> writer.Writing(store) && writer.records == UpdatedAll(db.Table(), filter, rs)
    ensures !ok ==> store.faulted || !TableTerminated(db.Table())
    ensures old(store.faulted) ==> store.faulted
    ensures store.History() == old(store.History()) && store.seen == old(store.seen)
  {
    hide RecordValid, KeysDistinct, Updated, RecordAt, Restored, RecordOf, EntriesOf, FileBytes, FindLive;
    hide StringsTerminated, TableTerminated, CrcUpdate, Body, UpdatedAll;
    ghost var t := db.Table();
    ok := true;
    var i := 0;
    UpdatedNothing(t, filter);
    while ok && i < |history.entries|
      invariant i <= |rs| && writer.file == old(writer.file) && history.entries == old(history.entries)
      invariant rs != [] ==> SourceReady(source, store, rs)
      invariant ok ==> writer.Writing(store) && writer.records == UpdatedAll(t, filter, rs[..i])
      invariant !ok ==> store.faulted || !TableTerminated(t)
      invariant old(store.faulted) ==> store.faulted
      invariant store.History() == old(store.History()) && store.seen == old(store.seen)
      decreases ok, |rs| - i
    {
      EntryAt(rs, i);
      RecordAtIndexed(rs, i);
      UpdatedSnoc(t, filter, rs, i);
      UpdatedCases(t, filter, rs[i]);
      var entry := history.entries[i];
      var live := FindLiveEntry(db, filter, entry.mac, entry.protocol);
      if live.None? {
        live := RecordRead(source, entry);
        ok := live.Some?;
        if ok {
          history.scratch := live.value;
          RestoredTerminated(rs[i]);
        }
      } else if TableTerminated(t) {
        LiveTerminated(t, filter, KeyOf(rs[i]));
      }
      if ok {
        ok := writer.Add(store, entry.protocol, live.value);
      }
      i := i + 1;
    }
    assert rs[..|rs|] == rs;
  }

  lemma UpdatedNothing(t: seq<Neighbor>, filter: Filter)
    ensures UpdatedAll(t, filter, []) == []
  {
  }

  lemma UpdatedCases(t: seq<Neighbor>, filter: Filter, r: Record)
    requires RecordValid(r)
    ensures var live := FindLive(t, filter, KeyOf(r));
      Updated(t, filter, r) == RecordOf(r.protocol, if live.Some? then live.value else Restored(r))
  {
  }

  lemma CutTwice(a: seq<Record>, b: seq<Record>, c: seq<Record>)
    ensures Cut(Cut(a + b) + c) == Cut(a + (b + c))
  {
  }

  /** The new record, if there is one, is written while there is room. */
  lemma CutShort(rs: seq<Record>, n: Neighbor, filter: Filter, known: set<Key>, p: Protocol)
    requires |rs| <= MAX_RECORDS
    ensures var wanted := Offers(n, filter, Key(n.mac, p)) && Key(n.mac, p) !in known && StringsTerminated(p, n);
      Cut(rs + NewFor(n, filter, known, p)) == if wanted && |rs| < MAX_RECORDS then rs + [RecordOf(p, n)] else rs
  {
    hide StringsTerminated, RecordOf;
    assert rs + [] == rs;
    assert (rs + [RecordOf(p, n)])[..|rs|] == rs;
  }

  /** One protocol of one live entry; a failure here can be forgotten by a later protocol. */
  method AddNewFor(writer: HistoryWriter, history: PassiveHistory, store: Store,
                   n: Neighbor, p: Protocol, filter: Filter, before: bool, ghost rs: seq<Record>)
    returns (ok: bool)
    requires PayloadsFit(rs) && history.entries == EntriesOf(rs)
    requires writer.Usable(store) && store.Watched() && (before ==> writer.ok)
    modifies writer, writer.file, store
    ensures writer.file == old(writer.file) && writer.Usable(store)
    ensures writer.ok ==>
      old(writer.ok) && writer.records == Cut(old(writer.records) + NewFor(n, filter, KeySet(rs), p))
    ensures ok ==> writer.ok
    ensures before && !ok ==> store.faulted || (HasSource(n, SourceBit(p)) && !StringsTerminated(p, n))
    ensures old(store.faulted) ==> store.faulted
    ensures store.History() == old(store.History()) && store.seen == old(store.seen)
  {
    hide RecordOf, StringsTerminated, EntriesOf, HasEntry, KeySet, CrcUpdate, Body;
    ok := before;
    HasEntryKeys(rs, n.mac, p);
    var known := history.KeyExists(n.mac, p);
    if writer.ok {
      CutShort(writer.records, n, filter, KeySet(rs), p);
    }
    if HasSource(n, SourceBit(p)) && FilterMatches(filter, p) && !known {
      if writer.count < MAX_RECORDS {
        ok := writer.Add(store, p, n);
      }
    }
  }

  lemma SlotTerminatedFor(n: Neighbor, p: Protocol)
    ensures SlotTerminated(n) && HasSource(n, SourceBit(p)) ==> StringsTerminated(p, n)
  {
  }

  method AddNewOf(writer: HistoryWriter, history: PassiveHistory, store: Store,
                  n: Neighbor, filter: Filter, ghost rs: seq<Record>)
    returns (ok: bool)
    requires PayloadsFit(rs) && history.entries == EntriesOf(rs)
    requires writer.Usable(store) && writer.ok && store.Watched()
    modifies writer, writer.file, store
    ensures writer.file == old(writer.file) && writer.Usable(store)
    ensures writer.ok ==> writer.records == Cut(old(writer.records) + NewOf(n, filter, KeySet(rs)))
    ensures ok ==> writer.ok
    ensures !ok ==> store.faulted || !SlotTerminated(n)
    ensures old(store.faulted) ==> store.faulted
    ensures store.History() == old(store.History()) && store.seen == old(store.seen)
  {
    hide StringsTerminated, EntriesOf, KeySet, NewFor, Cut;
    ghost var a, known := writer.records, KeySet(rs);
    CutTwice(a, NewFor(n, filter, known, Lldp), NewFor(n, filter, known, Cdp));
    CutTwice(a, NewFor(n, filter, known, Lldp) + NewFor(n, filter, known, Cdp), NewFor(n, filter, known, Eapol));
    SlotTerminatedFor(n, Lldp);
    SlotTerminatedFor(n, Cdp);
    SlotTerminatedFor(n, Eapol);
    ok := AddNewFor(writer, history, store, n, Lldp, filter, true, rs);
    ok := AddNewFor(writer, history, store, n, Cdp, filter, ok, rs);
    ok := AddNewFor(writer, history, store, n, Eapol, filter, ok, rs);
  }

  lemma NewAllStep(t: seq<Neighbor>, slots: seq<nat>, filter: Filter, known: set<Key>, done: seq<Record>, i: nat)
    requires i < |slots| && forall k :: 0 <= k < |slots| ==> slots[k] < |t|
    requires NewAll(t, slots, filter, known) == done + NewAll(t, slots[i..], filter, known)
    ensures NewAll(t, slots, filter, known) ==
      done + NewOf(t[slots[i]], filter, known) + NewAll(t, slots[i + 1..], filter, known)
  {
    hide NewOf;
    assert slots[i..][1..] == slots[i + 1..];
    ConcatAssociative(done, NewOf(t[slots[i]], filter, known), NewAll(t, slots[i + 1..], filter, known));
  }

  /** Write the live entries whose keys the old file did not have. */
  method AddNew(writer: HistoryWriter, history: PassiveHistory, store: Store,
                db: Database, filter: Filter, ghost rs: seq<Record>)
    returns (ok: bool)
    requires PayloadsFit(rs) && history.entries == EntriesOf(rs) && db.Valid()
    requires writer.Usable(store) && writer.ok && store.Watched()
    modifies writer, writer.file, store
    ensures writer.file == old(writer.file) && writer.Usable(store)
    ensures ok ==> writer.ok
    ensures ok ==>
      writer.records == Cut(old(writer.records) + NewAll(db.Table(), LiveSlots(db.Table()), filter, KeySet(rs)))
    ensures !ok ==> store.faulted || !TableTerminated(db.Table())
    ensures old(store.faulted) ==> store.faulted
    ensures store.History() == old(store.History()) && store.seen == old(store.seen)
  {
    hide StringsTerminated, EntriesOf, KeySet, NewOf, Cut, SlotTerminated, CrcUpdate, Body, NewAll, LiveSlots, Selected;
    ghost var t := db.Table();
    SlotsAreLive(t);
    NoMoreNew(t, filter, KeySet(rs));
    ghost var start, slots, known := writer.records, LiveSlots(t), KeySet(rs);
    ghost var all := NewAll(t, slots, filter, known);
    ghost var done: seq<Record> := [];
    var liveCount := db.CountSelected(Everyone);
    ok := true;
    var i := 0;
    CutAll(start, MAX_RECORDS);
    while ok && i < liveCount
      invariant i <= liveCount == |slots| && writer.file == old(writer.file) && writer.Usable(store)
      invariant all == done + NewAll(t, slots[i..], filter, known)
      invariant ok ==> writer.ok && writer.records == Cut(start + done)
      invariant !ok ==> store.faulted || !TableTerminated(t)
      invariant old(store.faulted) ==> store.faulted
      invariant store.History() == old(store.History()) && store.seen == old(store.seen)
      decreases ok, liveCount - i
    {
      var slot := db.GetSelected(Everyone, i);
      if slot.Some? {
        ghost var n := t[slots[i]];
        NewAllStep(t, slots, filter, known, done, i);
        CutTwice(start, done, NewOf(n, filter, known));
        ok := AddNewOf(writer, history, store, db.neighbors[slot.value], filter, rs);
        done := done + NewOf(n, filter, known);
      }
      i := i + 1;
    }
    if ok {
      assert slots[i..] == [] && done == all;
    }
  }

  lemma SlotsAreLive(t: seq<Neighbor>)
    ensures LiveSlots(t) == SlotsFrom(t, Everyone, 0)
  {
  }

  lemma NoMoreNew(t: seq<Neighbor>, filter: Filter, known: set<Key>)
    ensures NewAll(t, [], filter, known) == []
  {
  }

  lemma CutAll(rs: seq<Record>, n: nat)
    requires n == MAX_RECORDS
    ensures |rs| <= n ==> Cut(rs + []) == rs
  {
    assert rs + [] == rs;
  }

  lemma LoadedFile(file: Option<seq<byte>>)
    ensures Load(file).Ready? ==> FileValid(Load(file).records) && file == Some(FileBytes(Load(file).records))
  {
    if Load(file).Ready? {
      LoadedIsWritten(file.value);
    }
  }

  lemma EmptySaved()
    ensures FileValid([]) && EntriesOf([]) == []
  {
    hide RecordValid;
  }

  /** Copy the old records and add the new ones, with the old file open meanwhile. */
  method CopyAll(writer: HistoryWriter, history: PassiveHistory, store: Store,
                 db: Database, filter: Filter, ghost rs: seq<Record>)
    returns (ok: bool)
    requires db.Valid() && store.Watched()
    requires FileValid(rs) && history.entries == EntriesOf(rs)
    requires rs != [] ==> history.status == IsReady && store.History() == Some(FileBytes(rs))
    requires writer.Writing(store) && writer.records == []
    modifies writer, writer.file, store, history`scratch
    ensures writer.file == old(writer.file)
    ensures ok ==> writer.Writing(store) && writer.records == Merged(rs, db.Table(), filter)
    ensures !ok ==> store.faulted || !TableTerminated(db.Table())
    ensures old(store.faulted) ==> store.faulted
    ensures store.History() == old(store.History()) && store.seen == old(store.seen)
  {
    hide RecordValid, KeysDistinct, EntriesOf, FileBytes, UpdatedAll, NewAll, Cut, Body, CrcUpdate, TableTerminated;
    var source: File? := null;
    var haveExisting := history.status == IsReady;
    if haveExisting {
      source := new File(store);
      haveExisting := source.OpenExisting(HistoryPath);
    }
    ok := |history.entries| == 0 || haveExisting;
    if ok {
      ok := CopyUpdated(writer, history, source, store, db, filter, rs);
    }
    if ok {
      ok := AddNew(writer, history, store, db, filter, rs);
    }
    if source != null {
      source.Close();
    }
  }

  /** The writing half of a merge, after the load. */
  method WriteMerged(store: Store, db: Database, filter: Filter, history: PassiveHistory, ghost rs: seq<Record>)
    returns (merged: bool)
    requires db.Valid() && store.Watched()
    requires FileValid(rs) && history.entries == EntriesOf(rs)
    requires rs != [] ==> history.status == IsReady && store.History() == Some(FileBytes(rs))
    modifies store, history`scratch
    ensures merged ==> Saves(store.disk, Merged(rs, db.Table(), filter))
    ensures !merged ==> store.History() == old(store.History())
    ensures !merged ==> store.faulted || !TableTerminated(db.Table())
    ensures old(store.faulted) ==> store.faulted
    ensures store.seen == old(store.seen) + {store.History()}
  {
    hide RecordValid, KeysDistinct, EntriesOf, Load, FileBytes, UpdatedAll, NewAll, Cut, Body, CrcUpdate;
    hide TableTerminated;
    var writer := new HistoryWriter();
    merged := writer.Begin(store);
    if !merged {
      writer.Abort(store);
      return;
    }
    merged := CopyAll(writer, history, store, db, filter, rs);
    if merged {
      merged := writer.Finish(store);
    }
    if !merged && writer.file != null {
      writer.Abort(store);
    }
  }

  /**
   Merge the live table into the saved history. The result reports success and,
   as a ghost, what loading the old file came to.
   */
  method MergeLive(store: Store, db: Database, filter: Filter) returns (merged: bool, ghost loaded: Loaded)
    requires db.Valid()
    modifies store
    ensures loaded == Load(old(store.History())) || (!loaded.Ready? && store.faulted)
    ensures loaded.Ready? ==> FileValid(loaded.records)
    ensures merged ==> filter != Other && Saves(store.disk, Merged(SavedOf(loaded), db.Table(), filter))
    ensures merged && TableDistinct(db.Table()) && TableStorable(db.Table()) ==>
      Load(store.History()) == Ready(Merged(SavedOf(loaded), db.Table(), filter))
    ensures !merged ==> store.History() == old(store.History())
    ensures !merged ==> filter == Other || store.faulted || !TableTerminated(db.Table())
    ensures store.seen <= {old(store.History()), store.History()}
  {
    hide RecordValid, KeysDistinct, EntriesOf, Load, FileBytes, Merged, TableTerminated, TableDistinct, TableStorable;
    store.Watch();
    loaded := Missing;
    if filter == Other {
      loaded := Load(store.History());
      LoadedFile(store.History());
      return false, loaded;
    }
    var history := new PassiveHistory();
    loaded := history.Load(store);
    ghost var rs := SavedOf(loaded);
    LoadedFile(store.History());
    EmptySaved();
    merged := WriteMerged(store, db, filter, history, rs);
    if TableDistinct(db.Table()) && TableStorable(db.Table()) {
      MergedReloads(rs, db.Table(), filter);
    }
  }

  // ---- Clear ----

  function BytesOf(file: Option<seq<byte>>): seq<byte> {
    if file.Some? then file.value else []
  }

  /** The records a clear copies: every entry the filter leaves alone, read again from the file. */
  function ReadRemaining(entries: seq<Entry>, file: seq<byte>, filter: Filter): (r: Option<seq<Record>>)
    ensures r.Some? ==> |r.value| <= |entries|
  {
    if entries == [] then Some([])
    else
      var n := |entries| - 1;
      match ReadRemaining(entries[..n], file, filter)
      case None => None
      case Some(kept) =>
        if FilterMatches(filter, entries[n].protocol) then Some(kept)
        else
          match RecordAt(file, entries[n])
          case None => None
          case Some(saved) => Some(kept + [RecordOf(entries[n].protocol, saved)])
  }

  lemma ReadRemainingStep(entries: seq<Entry>, file: seq<byte>, filter: Filter, i: nat)
    requires i < |entries| && ReadRemaining(entries[..i], file, filter).Some?
    ensures ReadRemaining(entries[..i + 1], file, filter) ==
      var kept := ReadRemaining(entries[..i], file, filter).value;
      if FilterMatches(filter, entries[i].protocol) then Some(kept)
      else
        match RecordAt(file, entries[i])
        case None => None
        case Some(saved) => Some(kept + [RecordOf(entries[i].protocol, saved)])
  {
    hide RecordAt, RecordOf, FilterMatches;
    assert entries[..i + 1][..i] == entries[..i];
  }

  lemma {:induction false} ReadRemainingStops(entries: seq<Entry>, file: seq<byte>, filter: Filter, i: nat)
    requires i <= |entries| && ReadRemaining(entries[..i], file, filter).None?
    ensures ReadRemaining(entries, file, filter).None?
  {
    hide RecordAt, RecordOf, FilterMatches;
    if i == |entries| {
      assert entries[..i] == entries;
    } else {
      var n := |entries| - 1;
      assert entries[..n][..i] == entries[..i];
      ReadRemainingStops(entries[..n], file, filter, i);
    }
  }

  /** With an index that is up to date, that is the records of the protocols left alone. */
  lemma {:induction false} ReadRemainingFresh(rs: seq<Record>, filter: Filter, i: nat)
    requires FileValid(rs) && i <= |rs|
    ensures ReadRemaining(EntriesOf(rs)[..i], FileBytes(rs), filter) == Some(Remaining(rs[..i], filter))
  {
    hide RecordValid, KeysDistinct, EntriesOf, FileBytes, RecordAt, Restored, RecordOf, FilterMatches, Remaining;
    hide ReadRemaining;
    if i == 0 {
      NothingRemains(filter);
      ReadRemainingNothing(FileBytes(rs), filter);
      assert EntriesOf(rs)[..0] == [] && rs[..0] == [];
    } else {
      ReadRemainingFresh(rs, filter, i - 1);
      ReadRemainingStep(EntriesOf(rs), FileBytes(rs), filter, i - 1);
      RecordAtIndexed(rs, i - 1);
      EntryAt(rs, i - 1);
      RemainingSnoc(rs, filter, i - 1);
    }
  }

  lemma RemainingSnoc(rs: seq<Record>, filter: Filter, i: nat)
    requires AllValid(rs) && i < |rs|
    ensures Remaining(rs[..i + 1], filter) ==
      if FilterMatches(filter, rs[i].protocol) then Remaining(rs[..i], filter)
      else Remaining(rs[..i], filter) + [Rewritten(rs[i])]
  {
    hide RecordValid, FilterMatches, Rewritten;
    assert rs[..i + 1][..i] == rs[..i];
  }

  lemma RecordAtStorable(file: seq<byte>, e: Entry)
    requires RecordAt(file, e).Some?
    ensures StringsTerminated(e.protocol, RecordAt(file, e).value)
  {
    hide Decode, Crc;
    var start := e.offset + 16;
    DecodedStorable(e.protocol, e.flags, file[start..start + e.payloadLength], e.mac);
  }

  method CopyRemaining(writer: HistoryWriter, history: PassiveHistory, source: File?, store: Store, filter: Filter)
    returns (ok: bool)
    requires |history.entries| <= MAX_RECORDS
    requires history.entries != [] ==> source != null && source.store == store && source.Reading(HistoryPath)
    requires writer.Writing(store) && writer.records == [] && writer.file != source && store.Watched()
    modifies writer, writer.file, store, source, history`scratch
    ensures writer.file == old(writer.file) && writer.Usable(store)
    ensures var file := BytesOf(store.History());
      var kept := ReadRemaining(history.entries, file, filter);
      && (ok ==> writer.ok && Some(writer.records) == kept)
      && (!ok ==> kept.None? || store.faulted)
    ensures old(store.faulted) ==> store.faulted
    ensures store.History() == old(store.History()) && store.seen == old(store.seen)
  {
    hide RecordAt, RecordOf, StringsTerminated, CrcUpdate, Body, ReadRemaining;
    ghost var entries, file := history.entries, BytesOf(store.History());
    ok := true;
    var i := 0;
    ReadRemainingNothing(file, filter);
    assert entries[..0] == [];
    while ok && i < |history.entries|
      invariant i <= |entries| && writer.file == old(writer.file) && writer.Usable(store)
      invariant entries != [] ==> source != null && source.store == store && source.Reading(HistoryPath)
      invariant ok ==> writer.ok && ReadRemaining(entries[..i], file, filter) == Some(writer.records)
      invariant !ok ==> ReadRemaining(entries, file, filter).None? || store.faulted
      invariant old(store.faulted) ==> store.faulted
      invariant store.History() == old(store.History()) && store.seen == old(store.seen)
      decreases ok, |entries| - i
    {
      var entry := history.entries[i];
      ReadRemainingStep(entries, file, filter, i);
      if !FilterMatches(filter, entry.protocol) {
        var saved := RecordRead(source, entry);
        ok := saved.Some?;
        if ok {
          history.scratch := saved.value;
          RecordAtStorable(file, entry);
          ok := writer.Add(store, entry.protocol, saved.value);
        } else if RecordAt(file, entry).None? {
          ReadRemainingStops(entries, file, filter, i + 1);
        }
      }
      i := i + 1;
    }
    assert ok ==> entries[..i] == entries;
  }

  lemma ReadRemainingNothing(file: seq<byte>, filter: Filter)
    ensures ReadRemaining([], file, filter) == Some([])
  {
  }

  method CopyAllRemaining(writer: HistoryWriter, history: PassiveHistory, store: Store, filter: Filter)
    returns (ok: bool)
    requires |history.entries| <= MAX_RECORDS && (history.status != IsReady ==> history.entries == [])
    requires writer.Writing(store) && writer.records == [] && store.Watched()
    modifies writer, writer.file, store, history`scratch
    ensures writer.file == old(writer.file) && writer.Usable(store)
    ensures var file := BytesOf(store.History());
      var kept := ReadRemaining(history.entries, file, filter);
      && (ok ==> writer.ok && Some(writer.records) == kept)
      && (!ok ==> kept.None? || store.faulted || (history.entries != [] && store.History().None?))
    ensures old(store.faulted) ==> store.faulted
    ensures store.History() == old(store.History()) && store.seen == old(store.seen)
  {
    hide ReadRemaining, CrcUpdate, Body;
    var source: File? := null;
    var haveExisting := history.status == IsReady;
    if haveExisting {
      source := new File(store);
      haveExisting := source.OpenExisting(HistoryPath);
    }
    ok := |history.entries| == 0 || haveExisting;
    if ok {
      ok := CopyRemaining(writer, history, source, store, filter);
    }
    if source != null {
      source.Close();
    }
  }

  predicate ClearRefused(status: Status, filter: Filter) {
    filter == Other || (status == IsInvalid && filter != All)
  }

  /**
   What a clear copies is a list that a file can hold, whatever the file has become since
   the index was loaded.
   */
  lemma {:induction false} ReadRemainingValid(entries: seq<Entry>, file: seq<byte>, filter: Filter)
    requires IndexOk(entries) && ReadRemaining(entries, file, filter).Some?
    ensures var kept := ReadRemaining(entries, file, filter).value;
      && FileValid(kept) && RecordsNulFree(kept)
      && forall k :: k in KeySet(kept) ==> HasEntry(entries, k.mac, k.protocol)
  {
    hide RecordAt, RecordOf, FilterMatches, RecordValid, KeysDistinct, AllValid, KeySet, StringsNulFree, RecordsNulFree;
    if entries == [] {
      NothingSaved();
    } else {
      var n := |entries| - 1;
      var before, e := entries[..n], entries[n];
      IndexFront(entries);
      ReadRemainingStep(entries, file, filter, n);
      assert entries[..n + 1] == entries;
      ReadRemainingValid(before, file, filter);
      if !FilterMatches(filter, e.protocol) {
        var kept := ReadRemaining(before, file, filter).value;
        var r := RecordOf(e.protocol, RecordAt(file, e).value);
        ReadRecordValid(file, e);
        KeySetSnoc(kept, r);
        SnocDistinct(kept, r);
        AllValidSnoc(kept, r);
        NulFreeSnoc(kept, r);
      }
    }
  }

  lemma ReadRecordValid(file: seq<byte>, e: Entry)
    requires RecordAt(file, e).Some?
    ensures var r := RecordOf(e.protocol, RecordAt(file, e).value);
      && RecordValid(r) && KeyOf(r) == Key(e.mac, e.protocol) && StringsNulFree(r.protocol, r.flags, r.payload)
  {
    hide Decode, Crc, Storable, RecordValid, StringsNulFree, FlagsOf, EncodeItems, ItemsOf, StringsTerminated;
    var start := e.offset + 16;
    var n := RecordAt(file, e).value;
    DecodedStorable(e.protocol, e.flags, file[start..start + e.payloadLength], e.mac);
    StorableValid(e.protocol, n);
    StorableTerminated(e.protocol, n);
    WrittenNulFree(e.protocol, n);
  }

  lemma NulFreeSnoc(rs: seq<Record>, r: Record)
    requires RecordsNulFree(rs) && StringsNulFree(r.protocol, r.flags, r.payload)
    ensures RecordsNulFree(rs + [r])
  {
    hide StringsNulFree;
  }

  lemma IndexFront(entries: seq<Entry>)
    requires IndexOk(entries) && entries != []
    ensures var n := |entries| - 1;
      && IndexOk(entries[..n])
      && !HasEntry(entries[..n], entries[n].mac, entries[n].protocol)
      && forall mac, p :: HasEntry(entries, mac, p) <==>
        HasEntry(entries[..n], mac, p) || EntryMatches(entries[n], mac, p)
  {
    var n := |entries| - 1;
    forall mac, p | HasEntry(entries, mac, p)
      ensures HasEntry(entries[..n], mac, p) || EntryMatches(entries[n], mac, p)
    {
      var i :| 0 <= i < |entries| && EntryMatches(entries[i], mac, p);
      assert i < n ==> EntryMatches(entries[..n][i], mac, p);
    }
    forall mac, p | HasEntry(entries[..n], mac, p)
      ensures HasEntry(entries, mac, p)
    {
      var i :| 0 <= i < n && EntryMatches(entries[..n][i], mac, p);
      assert EntryMatches(entries[i], mac, p);
    }
  }

  /**
   Rewrite the history without the filtered protocols; the given index need not be up to
   date. A file that replaces the old one is complete and loads.
   */
  method Clear(history: PassiveHistory, store: Store, filter: Filter) returns (done: bool)
    requires history.Valid()
    modifies history, store
    ensures history.Valid()
    ensures var file := BytesOf(old(store.History()));
      var kept := ReadRemaining(old(history.entries), file, filter);
      && (done ==> !ClearRefused(old(history.status), filter) && kept.Some? && FileValid(kept.value))
      && (done ==> Saves(store.disk, kept.value) && Load(store.History()) == Ready(kept.value))
      && (!done ==> ClearRefused(old(history.status), filter) || kept.None? || store.faulted
                    || (old(history.entries) != [] && old(store.History()).None?))
    ensures !done ==> store.History() == old(store.History()) && history.entries == old(history.entries)
    ensures done && !store.faulted ==> history.Reflects(Load(store.History()))
    ensures old(store.faulted) ==> store.faulted
    ensures store.seen <= {old(store.History()), store.History()}
  {
    hide RecordAt, ReadRemaining, FileBytes, Load, CrcUpdate, Body;
    store.Watch();
    if ClearRefused(history.status, filter) {
      return false;
    }
    var writer := new HistoryWriter();
    done := writer.Begin(store);
    if !done {
      writer.Abort(store);
      return;
    }
    done := CopyAllRemaining(writer, history, store, filter);
    if done {
      done := writer.Finish(store);
    }
    if !done && writer.file != null {
      writer.Abort(store);
    }
    if done {
      ReadRemainingValid(history.entries, BytesOf(old(store.History())), filter);
      LoadWritten(ReadRemaining(history.entries, BytesOf(old(store.History())), filter).value);
      ghost var loaded := history.Load(store);
    }
  }

  /**
   Load, then clear with the fresh index: of the records that were loaded, exactly those
   the filter leaves alone remain. After a storage fault that is no record at all.
   */
  method ClearStorage(store: Store, filter: Filter) returns (done: bool, ghost loaded: Loaded)
    modifies store
    ensures loaded == Load(old(store.History())) || (!loaded.Ready? && store.faulted)
    ensures loaded.Ready? ==> FileValid(loaded.records)
    ensures done ==>
      var m := Remaining(SavedOf(loaded), filter);
      && filter != Other && (loaded != Invalid || filter == All)
      && Saves(store.disk, m)
      && Load(store.History()) == Ready(m)
    ensures !done ==> store.History() == old(store.History())
    ensures !done ==> filter == Other || (loaded == Invalid && filter != All) || store.faulted
    ensures store.seen <= {old(store.History()), store.History()}
  {
    hide RecordValid, KeysDistinct, EntriesOf, Load, FileBytes, Remaining, ReadRemaining, RecordAt;
    var history := new PassiveHistory();
    loaded := history.Load(store);
    ghost var rs := SavedOf(loaded);
    LoadedFile(store.History());
    EmptySaved();
    FreshRemaining(rs, store.History(), filter);
    done := Clear(history, store, filter);
  }

  /**
   A clear through an index from before more records were added copies what remains of the
   earlier ones. That is right exactly when the filter takes every key that was added.
   */
  lemma OlderIndexCopies(rs: seq<Record>, added: seq<Record>, filter: Filter)
    requires FileValid(rs) && FileValid(rs + added)
    ensures IndexOk(EntriesOf(rs))
    ensures ReadRemaining(EntriesOf(rs), FileBytes(rs + added), filter) == Some(Remaining(rs, filter))
    ensures FileValid(Remaining(rs, filter))
    ensures Contents(Remaining(rs, filter)) == Without(Kept(rs + added), filter) <==>
      forall k :: k in KeySet(rs + added) && !FilterMatches(filter, k.protocol) ==> k in KeySet(rs)
  {
    hide RecordValid, KeysDistinct, EntriesOf, FileBytes, RecordAt, FilterMatches;
    hide ReadRemaining, Remaining, Contents, Kept, KeySet;
    ClearedEarlierExact(rs, added, filter);
    IndexOfOk(rs);
    EntriesPrefix(rs, added);
    ReadRemainingFresh(rs + added, filter, |rs|);
    assert (rs + added)[..|rs|] == rs;
  }

  lemma {:induction false} EntriesPrefix(rs: seq<Record>, added: seq<Record>)
    requires PayloadsFit(rs) && PayloadsFit(rs + added)
    ensures |rs| <= |EntriesOf(rs + added)| && EntriesOf(rs + added)[..|rs|] == EntriesOf(rs)
    decreases |added|
  {
    if added == [] {
      assert rs + added == rs;
    } else {
      var n := |added| - 1;
      assert (rs + added)[..|rs + added| - 1] == rs + added[..n];
      EntriesPrefix(rs, added[..n]);
    }
  }

  /** What a clear copies through the index of the file that is there. */
  lemma FreshRemaining(rs: seq<Record>, file: Option<seq<byte>>, filter: Filter)
    requires FileValid(rs) && (rs != [] ==> file == Some(FileBytes(rs)))
    ensures ReadRemaining(EntriesOf(rs), BytesOf(file), filter) == Some(Remaining(rs, filter))
    ensures FileValid(Remaining(rs, filter)) &&
      Load(Some(FileBytes(Remaining(rs, filter)))) == Ready(Remaining(rs, filter))
  {
    hide RecordValid, KeysDistinct, EntriesOf, Load, FileBytes, RecordAt;
    RemainingExact(rs, filter);
    LoadWritten(Remaining(rs, filter));
    if rs == [] {
      EmptySaved();
    } else {
      ReadRemainingFresh(rs, filter, |rs|);
      assert rs[..|rs|] == rs && EntriesOf(rs)[..|rs|] == EntriesOf(rs);
    }
  }
}
