/**
 Whole runs of the operations that rewrite the saved history: merges, clears with a
 fresh index and clears through an older one, on a store that may fail at any call.
 Whatever the history path held at first, after any such run it holds a file that loads.
 */
module HistoryRuns {
  import opened Bytes
  import opened Neighbors
  import opened NeighborDb
  import opened HistoryPayload
  import opened HistoryFile
  import opened HistoryMerge
  import opened Storage
  import opened HistoryStore
  import opened HistoryCommit
  import LiveTable

  /**
   An operation that succeeds. `unread` says that its load of the old file failed on
   storage, so that it went on as if nothing had been saved.
   */
  datatype Operation =
    | Merge(table: seq<Neighbor>, filter: Filter, unread: bool)
    | ClearFresh(filter: Filter, unread: bool)
    | ClearThrough(entries: seq<Entry>, filter: Filter)

  /** The saved records the operation starts from. */
  function Source(file: Option<seq<byte>>, unread: bool): (rs: seq<Record>)
    ensures FileValid(rs)
  {
    LoadedFile(file);
    EmptySaved();
    if unread then [] else SavedOf(Load(file))
  }

  predicate Possible(file: Option<seq<byte>>, op: Operation) {
    op.filter != Other &&
    match op
    case Merge(table, _, _) => TableDistinct(table) && TableStorable(table)
    case ClearFresh(filter, unread) => unread || Load(file) != Invalid || filter == All
    case ClearThrough(entries, filter) => IndexOk(entries) && ReadRemaining(entries, BytesOf(file), filter).Some?
  }

  /** The records in the file that the operation leaves. */
  function Written(file: Option<seq<byte>>, op: Operation): seq<Record>
    requires Possible(file, op)
  {
    match op
    case Merge(table, filter, unread) => Merged(Source(file, unread), table, filter)
    case ClearFresh(filter, unread) => Remaining(Source(file, unread), filter)
    case ClearThrough(entries, filter) => ReadRemaining(entries, BytesOf(file), filter).value
  }

  /** Every single operation leaves a complete file without NULs in its strings, from whatever was there. */
  lemma WrittenReloads(file: Option<seq<byte>>, op: Operation)
    requires Possible(file, op)
    ensures FileValid(Written(file, op)) && RecordsNulFree(Written(file, op))
    ensures Load(Some(FileBytes(Written(file, op)))) == Ready(Written(file, op))
  {
    hide Load, FileBytes, FileValid, RecordsNulFree, Merged, Remaining, ReadRemaining, TableDistinct, TableStorable;
    hide IndexOk, Source;
    match op {
      case Merge(table, filter, unread) =>
        MergedReloads(Source(file, unread), table, filter);
        MergedNulFree(Source(file, unread), table, filter);
      case ClearFresh(filter, unread) =>
        ClearedContents(Source(file, unread), filter);
      case ClearThrough(entries, filter) =>
        ReadRemainingValid(entries, BytesOf(file), filter);
    }
    LoadWritten(Written(file, op));
  }

  /** The history path after an operation. */
  function FileAfter(file: Option<seq<byte>>, op: Operation): Option<seq<byte>>
    requires Possible(file, op)
  {
    WrittenReloads(file, op);
    Some(FileBytes(Written(file, op)))
  }

  predicate CanRun(file: Option<seq<byte>>, ops: seq<Operation>)
    decreases |ops|
  {
    ops != [] ==> Possible(file, ops[0]) && CanRun(FileAfter(file, ops[0]), ops[1..])
  }

  function RunOf(file: Option<seq<byte>>, ops: seq<Operation>): Option<seq<byte>>
    requires CanRun(file, ops)
    decreases |ops|
  {
    if ops == [] then file else RunOf(FileAfter(file, ops[0]), ops[1..])
  }

  /**
   After any run of at least one operation the file loads, to NUL-free records, whatever
   the history path held before: nothing, a valid file or garbage.
   */
  lemma {:induction false} RunReloads(file: Option<seq<byte>>, ops: seq<Operation>)
    requires CanRun(file, ops) && ops != []
    ensures var after := RunOf(file, ops);
      && after.Some? && Load(after).Ready?
      && FileValid(Load(after).records) && RecordsNulFree(Load(after).records)
      && after == Some(FileBytes(Load(after).records))
    decreases |ops|
  {
    hide Load, FileBytes, FileValid, RecordsNulFree, Possible, Written;
    WrittenReloads(file, ops[0]);
    if |ops| > 1 {
      RunReloads(FileAfter(file, ops[0]), ops[1..]);
    }
  }

  // ---- The methods take these steps ----

  /** A merge that succeeds is a step; it is an unread one only after a storage fault. */
  method MergeStep(store: Store, db: Database, filter: Filter) returns (merged: bool, ghost op: Operation)
    requires db.Valid() && TableDistinct(db.Table()) && TableStorable(db.Table())
    modifies store
    ensures op.Merge? && op.table == db.Table() && op.filter == filter && (op.unread ==> store.faulted)
    ensures merged ==> Possible(old(store.History()), op) && store.History() == FileAfter(old(store.History()), op)
    ensures !merged ==> store.History() == old(store.History())
  {
    hide Load, FileBytes, FileValid, Merged, TableDistinct, TableStorable;
    ghost var loaded;
    merged, loaded := MergeLive(store, db, filter);
    op := Merge(db.Table(), filter, loaded != Load(old(store.History())));
  }

  /** A clear with a fresh index likewise. */
  method ClearFreshStep(store: Store, filter: Filter) returns (done: bool, ghost op: Operation)
    modifies store
    ensures op.ClearFresh? && op.filter == filter && (op.unread ==> store.faulted)
    ensures done ==> Possible(old(store.History()), op) && store.History() == FileAfter(old(store.History()), op)
    ensures !done ==> store.History() == old(store.History())
  {
    hide Load, FileBytes, FileValid, Remaining;
    ghost var loaded;
    done, loaded := ClearStorage(store, filter);
    op := ClearFresh(filter, loaded != Load(old(store.History())));
  }

  /** A clear with whatever index is in memory. */
  method ClearThroughStep(history: PassiveHistory, store: Store, filter: Filter)
    returns (done: bool, ghost op: Operation)
    requires history.Valid()
    modifies history, store
    ensures history.Valid() && op == ClearThrough(old(history.entries), filter)
    ensures done ==> Possible(old(store.History()), op) && store.History() == FileAfter(old(store.History()), op)
    ensures !done ==> store.History() == old(store.History())
  {
    hide Load, FileBytes, FileValid, ReadRemaining, IndexOk;
    op := ClearThrough(history.entries, filter);
    done := Clear(history, store, filter);
  }

  // ---- From the wire to the file ----

  /** What can happen to the table and the file: something on the wire, or an operation that succeeds. */
  datatype Act =
    | OnWire(event: LiveTable.Event)
    | SaveTable(filter: Filter, unread: bool)
    | ClearSaved(filter: Filter, unread: bool)
    | ClearIndexed(entries: seq<Entry>, filter: Filter)

  /** A merge of whatever table the wire has led to can always be followed by the rest of a run. */
  lemma ReachablePossible(file: Option<seq<byte>>, events: seq<LiveTable.Event>, filter: Filter, unread: bool)
    requires filter != Other
    ensures Possible(file, Merge(LiveTable.After(events), filter, unread))
  {
    hide LiveTable.TableOk, TableDistinct, TableStorable, TableTerminated;
    LiveTable.ReachableOk(events);
    LiveTable.TableOkStorable(LiveTable.After(events));
  }

  /** The operation an act is, with the table that the events so far have led to. */
  function OperationOf(events: seq<LiveTable.Event>, act: Act): Operation
    requires !act.OnWire?
  {
    match act
    case SaveTable(filter, unread) => Merge(LiveTable.After(events), filter, unread)
    case ClearSaved(filter, unread) => ClearFresh(filter, unread)
    case ClearIndexed(entries, filter) => ClearThrough(entries, filter)
  }

  /** Merges need a legal filter only; clears must be possible on the file that is there. */
  predicate CanLive(events: seq<LiveTable.Event>, file: Option<seq<byte>>, acts: seq<Act>)
    decreases |acts|
  {
    acts != [] ==>
      if acts[0].OnWire? then CanLive(events + [acts[0].event], file, acts[1..])
      else
        && (if acts[0].SaveTable? then acts[0].filter != Other else Possible(file, OperationOf(events, acts[0])))
        && CanLive(events, FileThen(events, file, acts[0]), acts[1..])
  }

  /** The history path after an act. */
  function FileThen(events: seq<LiveTable.Event>, file: Option<seq<byte>>, act: Act): Option<seq<byte>>
    requires !act.OnWire?
    requires if act.SaveTable? then act.filter != Other else Possible(file, OperationOf(events, act))
  {
    if act.SaveTable? then
      ReachablePossible(file, events, act.filter, act.unread);
      FileAfter(file, OperationOf(events, act))
    else FileAfter(file, OperationOf(events, act))
  }

  function LivedFile(events: seq<LiveTable.Event>, file: Option<seq<byte>>, acts: seq<Act>): Option<seq<byte>>
    requires CanLive(events, file, acts)
    decreases |acts|
  {
    if acts == [] then file
    else if acts[0].OnWire? then LivedFile(events + [acts[0].event], file, acts[1..])
    else LivedFile(events, FileThen(events, file, acts[0]), acts[1..])
  }

  /** The file can be loaded, to records without NULs, and is the image of them. */
  predicate Sound(file: Option<seq<byte>>) {
    && Load(file).Ready? && FileValid(Load(file).records) && RecordsNulFree(Load(file).records)
    && file == Some(FileBytes(Load(file).records))
  }

  /**
   The whole way: however frames, table clears, merges and clears follow one another, and
   whatever the path held at first, once an operation has succeeded the file loads.
   */
  lemma {:induction false} LivedFileLoads(events: seq<LiveTable.Event>, file: Option<seq<byte>>, acts: seq<Act>)
    requires CanLive(events, file, acts)
    requires Sound(file) || exists k :: 0 <= k < |acts| && !acts[k].OnWire?
    ensures Sound(LivedFile(events, file, acts))
    decreases |acts|
  {
    hide Sound, Possible, FileThen;
    if acts != [] {
      assert forall k :: 1 <= k < |acts| ==> acts[k] == acts[1..][k - 1];
      if acts[0].OnWire? {
        LivedFileLoads(events + [acts[0].event], file, acts[1..]);
      } else {
        ThenSound(events, file, acts[0]);
        LivedFileLoads(events, FileThen(events, file, acts[0]), acts[1..]);
      }
    }
  }

  lemma ThenSound(events: seq<LiveTable.Event>, file: Option<seq<byte>>, act: Act)
    requires !act.OnWire?
    requires if act.SaveTable? then act.filter != Other else Possible(file, OperationOf(events, act))
    ensures Sound(FileThen(events, file, act))
  {
    hide Load, FileBytes, FileValid, RecordsNulFree, Possible, Written;
    if act.SaveTable? {
      ReachablePossible(file, events, act.filter, act.unread);
    }
    WrittenReloads(file, OperationOf(events, act));
  }

  // ---- What an operation that did not read the file can lose ----

  /**
   One saved EAPOL neighbour and an empty table: a merge that can read the file keeps
   the neighbour, one whose load failed on storage succeeds and forgets it.
   */
  lemma FailedLoadForgets() returns (rs: seq<Record>)
    ensures FileValid(rs) && |rs| == 1 && Load(Some(FileBytes(rs))) == Ready(rs)
    ensures var file, read, unread := Some(FileBytes(rs)), Merge([], All, false), Merge([], All, true);
      && Possible(file, read) && FileAfter(file, read) == file
      && Possible(file, unread) && Load(FileAfter(file, unread)) == Ready([])
  {
    hide RecordValid, StringsNulFree, FileBytes, Load, Merged;
    rs := SavedEapol();
    LoadWritten([]);
    assert rs == [rs[0]];
    MergedWithNothing(rs[0]);
  }

  /** A clear of CDP alone, whose load failed on storage, succeeds and forgets a saved EAPOL neighbour. */
  lemma FailedClearForgets() returns (rs: seq<Record>)
    ensures FileValid(rs) && |rs| == 1 && rs[0].protocol == Eapol && Load(Some(FileBytes(rs))) == Ready(rs)
    ensures var file, read, unread := Some(FileBytes(rs)), ClearFresh(Only(Cdp), false), ClearFresh(Only(Cdp), true);
      && Possible(file, read) && FileAfter(file, read) == file
      && Possible(file, unread) && Load(FileAfter(file, unread)) == Ready([])
  {
    hide RecordValid, StringsNulFree, FileBytes, Load, FlagsOf, EncodeItems, ItemsOf;
    rs := SavedEapol();
    LoadWritten([]);
    assert rs[..0] == [] && [] + [rs[0]] == rs;
    assert Remaining([], Only(Cdp)) == [];
    assert Remaining(rs, Only(Cdp)) == [] + [Rewritten(rs[0])];
  }

  /** A file with one EAPOL neighbour, as this code writes it. */
  lemma SavedEapol() returns (rs: seq<Record>)
    ensures FileValid(rs) && |rs| == 1 && rs[0].protocol == Eapol && Rewritten(rs[0]) == rs[0]
    ensures Load(Some(FileBytes(rs))) == Ready(rs)
  {
    hide RecordValid, StringsNulFree, FileBytes, Load, FlagsOf, EncodeItems, ItemsOf;
    var n := EMPTY;
    assert CLen(n.name) == 0;
    StorableValid(Eapol, n);
    WrittenNulFree(Eapol, n);
    rs := [RecordOf(Eapol, n)];
    LoadWritten(rs);
    KeptExactly(rs[0]);
  }

  lemma MergedWithNothing(r: Record)
    requires RecordValid(r) && Rewritten(r) == r
    ensures AllValid([r]) && Merged([r], [], All) == [r] && Merged([], [], All) == []
  {
    hide RecordValid, Rewritten;
    AllValidSnoc([], r);
    assert [] + [r] == [r];
    assert LiveSlots([]) == [];
    assert [r][..0] == [];
    assert UpdatedAll([], All, [r]) == [] + [Updated([], All, r)];
    assert FindLive([], All, KeyOf(r)) == None;
  }
}
