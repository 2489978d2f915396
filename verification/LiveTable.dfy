/**
 The live table over whole runs: frames of the three protocols and clears, in any
 order. Every table so reached has the properties the saved history depends on.
 */
module LiveTable {
  import opened Bytes
  import opened Neighbors
  import opened NeighborDb
  import HistoryFile
  import opened HistoryPayload
  import opened HistoryMerge
  import opened Texts
  import L = Lldp
  import C = Cdp
  import E = Eapol

  type Table = seq<Neighbor>

  // ---- One source bit ----

  lemma SourceBits(p: Protocol, mask: nat)
    ensures And(SourceBit(p), mask) == 0 || And(SourceBit(p), mask) == SourceBit(p)
    ensures AndNot(SourceBit(p), mask) == if And(SourceBit(p), mask) == 0 then SourceBit(p) else 0
  {
    assert And(0, mask / 2) == 0 && And(0, mask / 2 / 2) == 0 && And(0, mask / 2 / 2 / 2) == 0;
    assert AndNot(0, mask / 2) == 0 && AndNot(0, mask / 2 / 2) == 0 && AndNot(0, mask / 2 / 2 / 2) == 0;
    assert And(1, mask / 2) == mask / 2 % 2 && And(1, mask / 2 / 2) == mask / 2 / 2 % 2;
    assert AndNot(1, mask / 2) == 1 - mask / 2 % 2 && AndNot(1, mask / 2 / 2) == 1 - mask / 2 / 2 % 2;
    assert And(2, mask / 2) == 2 * And(1, mask / 2 / 2) && AndNot(2, mask / 2) == 2 * AndNot(1, mask / 2 / 2);
  }

  lemma SourceBitsDiffer(p: Protocol, q: Protocol)
    ensures And(SourceBit(p), SourceBit(q)) != 0 <==> p == q
  {
    assert And(2, 1) == 2 * And(1, 0) && And(4, 1) == 2 * And(2, 0) && And(2, 0) == 2 * And(1, 0);
    assert And(1, 2) == 2 * And(0, 1) && And(1, 4) == 2 * And(0, 2);
    assert And(4, 2) == 2 * And(2, 1) && And(2, 4) == 2 * And(1, 2);
    assert And(2, 2) == 2 * And(1, 1) && And(4, 4) == 2 * And(2, 2);
  }

  // ---- What a reachable table looks like ----

  /** An entry has exactly one source bit and could be stored for that protocol. */
  predicate SlotOk(n: Neighbor) {
    if n.occupied then exists p: Protocol :: n.sources == SourceBit(p) && Storable(p, n) else n == EMPTY
  }

  predicate TableOk(t: Table) {
    && |t| == MAX_ENTRIES
    && (forall i :: 0 <= i < |t| ==> SlotOk(t[i]))
    && TableDistinct(t)
  }

  function ProtocolOf(n: Neighbor): (p: Protocol)
    requires n.occupied && SlotOk(n)
    ensures n.sources == SourceBit(p) && Storable(p, n)
  {
    if n.sources == 1 then Lldp else if n.sources == 2 then Cdp else Eapol
  }

  lemma OkSources(n: Neighbor, q: Protocol)
    requires n.occupied && SlotOk(n)
    ensures HasSource(n, SourceBit(q)) <==> n.sources == SourceBit(q)
    ensures HasSource(n, SourceBit(q)) ==> Storable(q, n)
  {
    var p := ProtocolOf(n);
    SourceBitsDiffer(p, q);
  }

  /** Everything a merge asks of the table. */
  lemma TableOkStorable(t: Table)
    requires TableOk(t)
    ensures TableDistinct(t) && TableStorable(t) && TableTerminated(t)
  {
    hide Storable;
    forall i | 0 <= i < |t| && t[i].occupied
      ensures SlotStorable(t[i]) && SlotTerminated(t[i])
    {
      assert SlotOk(t[i]);
      forall q: Protocol | HasSource(t[i], SourceBit(q))
        ensures Storable(q, t[i]) && StringsTerminated(q, t[i])
      {
        OkSources(t[i], q);
        StorableTerminated(q, t[i]);
      }
    }
  }

  lemma StorableTerminated(q: Protocol, n: Neighbor)
    requires Storable(q, n)
    ensures StringsTerminated(q, n)
  {
  }

  // ---- One observation ----

  /** A fresh entry for the protocol. */
  predicate Fresh(p: Protocol, n: Neighbor) {
    n.occupied && n.sources == SourceBit(p) && Storable(p, n)
  }

  /** The table after an observed neighbour: its entry replaced, or a free slot taken, or no change when full. */
  function Observe(t: Table, n: Neighbor): (r: Table)
    ensures |r| == |t|
  {
    match Added(t, n)
    case Some(r) => r
    case None => t
  }

  lemma ReplaceKeepsOk(t: Table, i: nat, n: Neighbor, p: Protocol)
    requires TableOk(t) && i < |t| && Fresh(p, n)
    requires forall k :: 0 <= k < |t| && k != i && t[k].occupied && t[k].mac == n.mac ==> !HasSource(t[k], SourceBit(p))
    ensures TableOk(t[i := n])
  {
    hide Storable;
    var r := t[i := n];
    assert SlotOk(n);
    forall a, b, q: Protocol | 0 <= a < b < |r| && LiveAs(r[a], q) && LiveAs(r[b], q)
      ensures r[a].mac != r[b].mac
    {
      assert SlotOk(r[a]) && SlotOk(r[b]);
      OkSources(n, q);
      if a != i && b != i {
        assert LiveAs(t[a], q) && LiveAs(t[b], q);
      } else {
        SourceBitsDiffer(p, q);
      }
    }
  }

  /** Observing keeps the table well formed. */
  lemma ObserveKeepsOk(t: Table, n: Neighbor, p: Protocol)
    requires TableOk(t) && Fresh(p, n)
    ensures TableOk(Observe(t, n))
  {
    hide Storable;
    assert Occupied(n) == n;
    var found := FindFrom(t, n.mac, n.sources, 0);
    if found.Some? {
      var i := found.value;
      forall k | 0 <= k < |t| && k != i && t[k].occupied && t[k].mac == n.mac
        ensures !HasSource(t[k], SourceBit(p))
      {
        assert LiveAs(t[i], p);
        if k < i {
          assert !Matches(t[k], n.mac, n.sources);
        } else {
          assert HasSource(t[k], SourceBit(p)) ==> LiveAs(t[k], p);
        }
      }
      ReplaceKeepsOk(t, i, n, p);
    } else {
      var free := FreeFrom(t, 0);
      if free.Some? {
        assert forall k :: 0 <= k < |t| ==> !Matches(t[k], n.mac, n.sources);
        ReplaceKeepsOk(t, free.value, n, p);
      }
    }
  }

  // ---- Clears ----

  function Cleared(t: Table, mask: byte): (r: Table)
    ensures |r| == |t|
  {
    seq(|t|, i requires 0 <= i < |t| => ClearedSlot(t[i], mask))
  }

  /** A clear empties exactly the entries of the masked sources. */
  lemma ClearedExact(n: Neighbor, mask: byte)
    requires SlotOk(n)
    ensures ClearedSlot(n, mask) == if n.occupied && HasSource(n, mask) then EMPTY else n
  {
    hide Storable;
    if n.occupied {
      SourceBits(ProtocolOf(n), mask);
    }
  }

  lemma ClearKeepsOk(t: Table, mask: byte)
    requires TableOk(t)
    ensures TableOk(Cleared(t, mask))
  {
    hide Storable;
    var r := Cleared(t, mask);
    forall i | 0 <= i < |t|
      ensures r[i] == t[i] || r[i] == EMPTY
    {
      assert SlotOk(t[i]);
      ClearedExact(t[i], mask);
    }
    assert forall i, q: Protocol :: 0 <= i < |r| && LiveAs(r[i], q) ==> r[i] == t[i] && LiveAs(t[i], q);
  }

  // ---- What the three parsers fill ----

  lemma LldpFresh(info: L.Info)
    requires L.FillNeighbor(info).Some?
    ensures Fresh(Lldp, L.FillNeighbor(info).value)
  {
    hide Stored;
    StoredReads(info.systemName, 64);
    StoredReads(info.portId, 64);
    StoredReads(info.managementAddress, 48);
    StoredReads(info.chassisId, 64);
    StoredReads(info.systemDescription, 128);
    StoredReads(info.vlanName, 64);
    E.BlankText(64);
  }

  lemma CdpFresh(info: C.Info)
    requires C.FillNeighbor(info).Some?
    ensures Fresh(Cdp, C.FillNeighbor(info).value)
  {
    hide Stored, C.Description;
    StoredReads(info.deviceId, 64);
    StoredReads(info.portId, 64);
    StoredReads(info.managementAddress, 48);
    var platform, software := Texts.Cut(Text(info.platform), 63), Texts.Cut(Text(info.softwareVersion), 127);
    CutNulFree(Text(info.platform), 63);
    CutNulFree(Text(info.softwareVersion), 127);
    TextNulFree(info.platform);
    TextNulFree(info.softwareVersion);
    TextOfCharArray(C.Description(platform, software), 128);
  }

  lemma EapolFresh(info: E.Info)
    requires E.FillNeighbor(info).Some? && Terminated(info.identity)
    ensures Fresh(Eapol, E.FillNeighbor(info).value)
  {
    E.BlankText(64);
    E.NameOfIdentity(info.identity);
    assert Zeros(64)[0] == 0 && Zeros(48)[0] == 0 && Zeros(128)[0] == 0;
  }

  // ---- Frames ----

  /** The entry a frame of the protocol yields, if it is accepted. */
  function Observed(p: Protocol, frame: seq<byte>): Option<Neighbor> {
    match p
    case Lldp =>
      if |frame| < 14 || ReadBe16(frame[12..14]) != 0x88CC then None
      else (match L.ParseFrame(frame) case None => None case Some(info) => L.FillNeighbor(info))
    case Cdp => (match C.ParseCdp(frame) case None => None case Some(info) => C.FillNeighbor(info))
    case Eapol => (match E.ParseEapol(frame) case None => None case Some(info) => E.FillNeighbor(info))
  }

  lemma EapolIdentityTerminated(frame: seq<byte>)
    requires E.ParseEapol(frame).Some?
    ensures Terminated(E.ParseEapol(frame).value.identity)
  {
    hide ShownInto;
    E.BlankText(64);
    var body := frame[18..18 + ReadBe16(frame[16..18]) as nat];
    if |body| >= 4 && 5 <= ReadBe16(body[2..4]) as int <= |body| {
      ShownIntoReads(Zeros(64), body[5..ReadBe16(body[2..4])]);
    }
  }

  lemma ObservedFresh(p: Protocol, frame: seq<byte>)
    requires Observed(p, frame).Some?
    ensures Fresh(p, Observed(p, frame).value)
  {
    hide Storable, L.FillNeighbor, C.FillNeighbor, E.FillNeighbor, L.ParseFrame, C.ParseCdp, E.ParseEapol;
    match p {
      case Lldp => LldpFresh(L.ParseFrame(frame).value);
      case Cdp => CdpFresh(C.ParseCdp(frame).value);
      case Eapol =>
        EapolIdentityTerminated(frame);
        EapolFresh(E.ParseEapol(frame).value);
    }
  }

  /** A blank identity does not erase the name the entry already has. */
  function Carried(t: Table, n: Neighbor): Neighbor {
    match FindFrom(t, n.mac, SourceBit(Eapol), 0)
    case Some(i) => if n.name[0] == 0 && t[i].name[0] != 0 then n.(name := t[i].name[63 := 0]) else n
    case None => n
  }

  lemma CarriedFresh(t: Table, n: Neighbor)
    requires TableOk(t) && Fresh(Eapol, n)
    ensures Fresh(Eapol, Carried(t, n)) && Carried(t, n).mac == n.mac
    ensures var found := FindFrom(t, n.mac, SourceBit(Eapol), 0);
      Text(Carried(t, n).name) == if found.Some? && Text(n.name) == [] then Text(t[found.value].name) else Text(n.name)
  {
    hide FindFrom, HasSource, TableDistinct, Text, Terminated;
    E.NameOfIdentity(n.name);
    var found := FindFrom(t, n.mac, SourceBit(Eapol), 0);
    if found.Some? {
      assert SlotOk(t[found.value]);
      OkSources(t[found.value], Eapol);
      E.NameOfIdentity(t[found.value].name);
    }
  }

  /** The entry that is put in the table for an accepted frame. */
  function Entered(t: Table, p: Protocol, n: Neighbor): Neighbor {
    if p == Eapol then Carried(t, n) else n
  }

  function Processed(t: Table, p: Protocol, frame: seq<byte>): Table {
    match Observed(p, frame)
    case None => t
    case Some(n) => Observe(t, Entered(t, p, n))
  }

  lemma EnteredFresh(t: Table, p: Protocol, frame: seq<byte>)
    requires TableOk(t) && Observed(p, frame).Some?
    ensures Fresh(p, Entered(t, p, Observed(p, frame).value))
  {
    hide Storable, Observed;
    ObservedFresh(p, frame);
    if p == Eapol {
      CarriedFresh(t, Observed(p, frame).value);
    }
  }

  lemma ProcessedKeepsOk(t: Table, p: Protocol, frame: seq<byte>)
    requires TableOk(t)
    ensures TableOk(Processed(t, p, frame))
  {
    hide Observed, Entered, Storable;
    if Observed(p, frame).Some? {
      EnteredFresh(t, p, frame);
      ObserveKeepsOk(t, Entered(t, p, Observed(p, frame).value), p);
    }
  }

  // ---- Runs ----

  datatype Event = Frame(protocol: Protocol, bytes: seq<byte>) | Clear(mask: byte)

  function Step(t: Table, e: Event): Table {
    match e
    case Frame(p, bytes) => Processed(t, p, bytes)
    case Clear(mask) => Cleared(t, mask)
  }

  /** The table as it is allocated. */
  function BlankTable(): Table {
    seq(MAX_ENTRIES, _ => EMPTY)
  }

  function After(events: seq<Event>): Table {
    if events == [] then BlankTable() else Step(After(events[..|events| - 1]), events[|events| - 1])
  }

  /** Every table reached by frames and clears is well formed. */
  lemma {:induction false} ReachableOk(events: seq<Event>)
    ensures TableOk(After(events))
  {
    hide Processed, Cleared, SlotOk;
    if events == [] {
      BlankSlotOk();
      assert forall i, p: Protocol :: 0 <= i < |BlankTable()| ==> !LiveAs(BlankTable()[i], p);
    } else {
      var before := After(events[..|events| - 1]);
      ReachableOk(events[..|events| - 1]);
      match events[|events| - 1]
      case Frame(p, bytes) => ProcessedKeepsOk(before, p, bytes);
      case Clear(mask) => ClearKeepsOk(before, mask);
    }
  }

  lemma BlankSlotOk()
    ensures SlotOk(EMPTY)
  {
  }

  /** An entry is live under one key only, so there are no more live keys than entries. */
  lemma {:induction false} LiveKeysBound(t: Table, filter: Filter)
    requires forall i :: 0 <= i < |t| ==> SlotOk(t[i])
    ensures |LiveKeys(t, filter)| <= |t|
  {
    hide SlotOk, LiveKeys, Offers;
    if t == [] {
      NoLiveKeys(filter);
    } else {
      var n := |t| - 1;
      LiveKeysBound(t[..n], filter);
      var last := LastLiveKeys(t, filter);
      FewMore(LiveKeys(t, filter), LiveKeys(t[..n], filter), last);
    }
  }

  lemma NoLiveKeys(filter: Filter)
    ensures LiveKeys([], filter) == {}
  {
  }

  lemma LastLiveKeys(t: Table, filter: Filter) returns (k: HistoryFile.Key)
    requires t != [] && SlotOk(t[|t| - 1])
    ensures LiveKeys(t, filter) <= LiveKeys(t[..|t| - 1], filter) + {k}
  {
    hide SlotOk;
    var n := |t| - 1;
    k := HistoryFile.Key(t[n].mac, if t[n].occupied then ProtocolOf(t[n]) else Lldp);
    forall l | l in LiveKeys(t, filter)
      ensures l in LiveKeys(t[..n], filter) + {k}
    {
      var i, p :| 0 <= i < |t| && t[i].occupied && Offers(t[i], filter, HistoryFile.Key(t[i].mac, p)) &&
        l == HistoryFile.Key(t[i].mac, p);
      if i == n {
        OkSources(t[n], p);
      } else {
        assert t[..n][i] == t[i];
      }
    }
  }

  lemma FewMore<T>(a: set<T>, b: set<T>, x: T)
    requires a <= b + {x}
    ensures |a| <= |b| + 1
  {
    assert a - {x} <= b;
    SubsetSize(a - {x}, b);
    if x in a {
      assert a == (a - {x}) + {x};
    } else {
      assert a == a - {x};
    }
  }

  lemma {:induction false} SubsetSize<T>(a: set<T>, b: set<T>)
    requires a <= b
    ensures |a| <= |b|
  {
    if x :| x in a {
      SubsetSize(a - {x}, b - {x});
    }
  }

  /**
   So whatever was seen on the wire, a merge of it into any saved history leaves a file
   that loads, and its contents are the saved neighbours overridden by the live ones.
   */
  lemma ReachableMerge(events: seq<Event>, rs: seq<HistoryFile.Record>, filter: Filter)
    requires HistoryFile.FileValid(rs)
    ensures var m, full := Merged(rs, After(events), filter), Override(rs, After(events), filter);
      && HistoryFile.FileValid(m) && HistoryFile.Load(Some(HistoryFile.FileBytes(m))) == HistoryFile.Ready(m)
      && KeySet(rs) <= KeySet(m) <= full.Keys
      && (forall k :: k in Contents(m) ==> Contents(m)[k] == full[k])
      && |m| == (if |full| <= 32 then |full| else 32)
      && (|full| <= 32 ==> Contents(m) == full)
  {
    hide TableOk, TableDistinct, TableStorable, TableTerminated, HistoryFile.FileValid, Merged, Override, KeySet;
    hide Contents;
    ReachableOk(events);
    TableOkStorable(After(events));
    MergedReloads(rs, After(events), filter);
    MergedIsOverride(rs, After(events), filter);
  }

  /**
   What a merge of it leaves when the load of the saved history failed on storage: the
   live entries alone, which is the right contents exactly when every saved key is live.
   */
  lemma ReachableFailedLoad(events: seq<Event>, rs: seq<HistoryFile.Record>, filter: Filter)
    requires HistoryFile.FileValid(rs)
    ensures var m := Merged([], After(events), filter);
      && HistoryFile.FileValid(m) && Contents(m) == LiveMap(After(events), filter)
      && (Contents(m) == Override(rs, After(events), filter) <==> KeySet(rs) <= LiveKeys(After(events), filter))
  {
    hide TableDistinct, TableStorable, TableTerminated, HistoryFile.FileValid, SlotOk, Merged, Override, KeySet;
    hide Contents, LiveKeys, LiveMap;
    ReachableOk(events);
    TableOkStorable(After(events));
    LiveKeysBound(After(events), filter);
    FailedLoadExact(rs, After(events), filter);
  }

  // ---- EAPOL names ----

  /** The last identity that was not blank. */
  function LastNonBlank(ids: seq<seq<byte>>): seq<byte> {
    if ids == [] then []
    else if ids[|ids| - 1] != [] then ids[|ids| - 1]
    else LastNonBlank(ids[..|ids| - 1])
  }

  type Identities = map<MacAddress, seq<seq<byte>>>

  /** Per address with an EAPOL entry, the identities of its frames since the entry was created. */
  function Heard(t: Table, ids: Identities, e: Event): Identities {
    match e
    case Frame(p, bytes) =>
      if p != Eapol || Observed(p, bytes).None? then ids
      else
        var n := Observed(p, bytes).value;
        if Added(t, Carried(t, n)).None? then ids
        else ids[n.mac := (if n.mac in ids then ids[n.mac] else []) + [E.IdentityOf(bytes)]]
    case Clear(mask) => if And(SourceBit(Eapol), mask) != 0 then map[] else ids
  }

  function HeardDuring(events: seq<Event>): Identities {
    if events == [] then map[]
    else
      var before := events[..|events| - 1];
      Heard(After(before), HeardDuring(before), events[|events| - 1])
  }

  predicate HasEapolEntry(t: Table, mac: MacAddress) {
    exists i :: 0 <= i < |t| && LiveAs(t[i], Eapol) && t[i].mac == mac
  }

  predicate NamesOk(t: Table, ids: Identities) {
    && (forall i :: 0 <= i < |t| && LiveAs(t[i], Eapol) ==>
      t[i].mac in ids && Text(t[i].name) == LastNonBlank(ids[t[i].mac]))
    && (forall mac :: mac in ids ==> HasEapolEntry(t, mac))
  }

  lemma EapolObservation(frame: seq<byte>)
    requires Observed(Eapol, frame).Some?
    ensures Text(Observed(Eapol, frame).value.name) == E.IdentityOf(frame)
  {
    hide E.ParseEapol, E.FillNeighbor, E.IdentityOf;
    E.FilledName(frame);
  }

  lemma LastNonBlankSnoc(ids: seq<seq<byte>>, id: seq<byte>)
    ensures LastNonBlank(ids + [id]) == if id != [] then id else LastNonBlank(ids)
  {
    assert (ids + [id])[..|ids|] == ids;
  }

  /** One slot rewritten with a fresh EAPOL entry for its address. */
  lemma NameWritten(t: Table, ids: Identities, i: nat, n: Neighbor, list: seq<seq<byte>>)
    requires TableOk(t) && NamesOk(t, ids) && i < |t| && LiveAs(n, Eapol) && Text(n.name) == LastNonBlank(list)
    requires !t[i].occupied || t[i].mac == n.mac
    requires forall k :: 0 <= k < |t| && k != i && LiveAs(t[k], Eapol) ==> t[k].mac != n.mac
    ensures NamesOk(t[i := n], ids[n.mac := list])
  {
    hide TableOk, LastNonBlank;
    var r, now := t[i := n], ids[n.mac := list];
    forall mac | mac in now
      ensures HasEapolEntry(r, mac)
    {
      if mac == n.mac {
        assert LiveAs(r[i], Eapol) && r[i].mac == mac;
      } else {
        var k :| 0 <= k < |t| && LiveAs(t[k], Eapol) && t[k].mac == mac;
        assert k != i && LiveAs(r[k], Eapol) && r[k].mac == mac;
      }
    }
  }

  lemma EapolFrameKeepsNames(t: Table, ids: Identities, bytes: seq<byte>)
    requires TableOk(t) && NamesOk(t, ids) && Observed(Eapol, bytes).Some?
    ensures NamesOk(Processed(t, Eapol, bytes), Heard(t, ids, Frame(Eapol, bytes)))
  {
    hide Observed, Storable, LastNonBlank, E.IdentityOf, Carried;
    var n := Observed(Eapol, bytes).value;
    var m, id := Carried(t, n), E.IdentityOf(bytes);
    ObservedFresh(Eapol, bytes);
    CarriedFresh(t, n);
    EapolObservation(bytes);
    assert Occupied(m) == m && LiveAs(m, Eapol) by { SourceBitsDiffer(Eapol, Eapol); }
    var known := if n.mac in ids then ids[n.mac] else [];
    LastNonBlankSnoc(known, id);
    var found := FindFrom(t, m.mac, m.sources, 0);
    if found.Some? {
      var i := found.value;
      assert LiveAs(t[i], Eapol);
      forall k | 0 <= k < |t| && k != i && LiveAs(t[k], Eapol)
        ensures t[k].mac != n.mac
      {
        assert k < i || i < k;
      }
      NameWritten(t, ids, i, m, known + [id]);
    } else {
      forall k | 0 <= k < |t| && LiveAs(t[k], Eapol)
        ensures t[k].mac != n.mac
      {
        assert !Matches(t[k], m.mac, m.sources);
      }
      assert n.mac !in ids;
      NothingHeard();
      var free := FreeFrom(t, 0);
      if free.Some? {
        NameWritten(t, ids, free.value, m, known + [id]);
      }
    }
  }

  lemma NothingHeard()
    ensures LastNonBlank([]) == []
  {
  }

  /** Observing writes one slot at most: the entry found, or a free one. */
  lemma ObserveSlot(t: Table, n: Neighbor, k: nat)
    requires k < |t| && n.occupied
    ensures Observe(t, n)[k] == t[k] || (Observe(t, n)[k] == n && (!t[k].occupied || HasSource(t[k], n.sources)))
  {
    assert Occupied(n) == n;
  }

  /** An entry of another protocol takes the slot of that protocol's entry, or a free one. */
  lemma OtherFrameKeepsNames(t: Table, ids: Identities, n: Neighbor, p: Protocol)
    requires TableOk(t) && NamesOk(t, ids) && Fresh(p, n) && p != Eapol
    ensures NamesOk(Observe(t, n), ids)
  {
    hide Storable, LastNonBlank, Observe, TableDistinct;
    var r := Observe(t, n);
    SourceBitsDiffer(p, Eapol);
    forall k | 0 <= k < |t|
      ensures LiveAs(r[k], Eapol) <==> LiveAs(t[k], Eapol)
      ensures LiveAs(t[k], Eapol) ==> r[k] == t[k]
    {
      ObserveSlot(t, n, k);
      assert SlotOk(t[k]);
      if LiveAs(t[k], Eapol) {
        OkSources(t[k], p);
        OkSources(t[k], Eapol);
      }
    }
    forall mac | mac in ids
      ensures HasEapolEntry(r, mac)
    {
      var k :| 0 <= k < |t| && LiveAs(t[k], Eapol) && t[k].mac == mac;
      assert LiveAs(r[k], Eapol) && r[k].mac == mac;
    }
  }

  lemma ClearKeepsNames(t: Table, ids: Identities, mask: byte)
    requires TableOk(t) && NamesOk(t, ids)
    ensures NamesOk(Cleared(t, mask), Heard(t, ids, Clear(mask)))
  {
    hide Storable, LastNonBlank;
    var r := Cleared(t, mask);
    SourceBits(Eapol, mask);
    forall k | 0 <= k < |t|
      ensures LiveAs(r[k], Eapol) <==> LiveAs(t[k], Eapol) && And(SourceBit(Eapol), mask) == 0
      ensures LiveAs(r[k], Eapol) ==> r[k] == t[k]
    {
      assert SlotOk(t[k]);
      ClearedExact(t[k], mask);
      if LiveAs(t[k], Eapol) {
        OkSources(t[k], Eapol);
      }
    }
    forall mac | mac in Heard(t, ids, Clear(mask))
      ensures HasEapolEntry(r, mac)
    {
      var k :| 0 <= k < |t| && LiveAs(t[k], Eapol) && t[k].mac == mac;
      assert LiveAs(r[k], Eapol) && r[k].mac == mac;
    }
  }

  /**
   In every run, an EAPOL entry's name is the last identity that was not blank among
   the frames from its address since the entry was created.
   */
  lemma {:induction false} NamesAreLastIdentities(events: seq<Event>)
    ensures NamesOk(After(events), HeardDuring(events))
  {
    hide NamesOk, TableOk, Observed, Entered, Cleared, Fresh;
    if events == [] {
      NoNames();
    } else {
      var earlier, e := events[..|events| - 1], events[|events| - 1];
      var t, ids := After(earlier), HeardDuring(earlier);
      ReachableOk(earlier);
      NamesAreLastIdentities(earlier);
      match e {
        case Frame(p, bytes) =>
          if Observed(p, bytes).Some? {
            if p == Eapol {
              EapolFrameKeepsNames(t, ids, bytes);
            } else {
              EnteredFresh(t, p, bytes);
              OtherFrameKeepsNames(t, ids, Entered(t, p, Observed(p, bytes).value), p);
            }
          }
        case Clear(mask) =>
          ClearKeepsNames(t, ids, mask);
      }
    }
  }

  lemma NoNames()
    ensures NamesOk(BlankTable(), map[])
  {
  }

  // ---- The handlers in memory ----

  method ObserveFrame(p: Protocol, frame: seq<byte>) returns (n: Option<Neighbor>)
    ensures n == Observed(p, frame)
  {
    hide L.FillNeighbor, C.FillNeighbor, E.FillNeighbor, E.ParseEapol;
    match p {
      case Lldp =>
        if |frame| < 14 || ReadBe16(frame[12..14]) != 0x88CC {
          return None;
        }
        var info := L.Parse(frame);
        n := if info.None? then None else L.FillNeighbor(info.value);
      case Cdp =>
        var info := C.Parse(frame);
        n := if info.None? then None else C.FillNeighbor(info.value);
      case Eapol =>
        var info := E.ParseEapol(frame);
        n := if info.None? then None else E.FillNeighbor(info.value);
    }
  }

  /** Look the address up, carry the name over, update or add. */
  method Enter(db: Database, p: Protocol, n: Neighbor) returns (ok: bool)
    requires db.Valid() && db.neighbors != null && n.occupied && n.sources == SourceBit(p)
    modifies db.neighbors
    ensures ok == Added(old(db.Table()), Entered(old(db.Table()), p, n)).Some?
    ensures db.Table() == Observe(old(db.Table()), Entered(old(db.Table()), p, n))
  {
    hide FindFrom, FreeFrom, HasSource;
    var existing := db.FindBySource(n.mac, SourceBit(p));
    var m := n;
    if existing.Some? {
      if p == Eapol && n.name[0] == 0 && db.neighbors[existing.value].name[0] != 0 {
        m := n.(name := db.neighbors[existing.value].name[63 := 0]);
      }
      assert m == Entered(db.Table(), p, n) && m.mac == n.mac && m.sources == n.sources;
      ok := db.Update(m);
    } else {
      ok := db.Add(n);
    }
  }

  /** A protocol's frame handler. */
  method ProcessFrame(db: Database, p: Protocol, frame: seq<byte>) returns (ok: bool)
    requires db.Valid()
    modifies db.neighbors
    ensures db.neighbors == null ==> !ok
    ensures db.neighbors != null ==> db.Table() == Processed(old(db.Table()), p, frame)
    ensures db.neighbors != null && Observed(p, frame).Some? ==>
      ok == Added(old(db.Table()), Entered(old(db.Table()), p, Observed(p, frame).value)).Some?
  {
    hide Observed, Storable, Entered, Observe;
    var observed := ObserveFrame(p, frame);
    if observed.None? || db.neighbors == null {
      return false;
    }
    ObservedFresh(p, frame);
    ok := Enter(db, p, observed.value);
  }
}
