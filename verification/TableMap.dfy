/**
 The live table as a bounded map: per address and protocol the latest neighbour seen
 since it was last cleared, for at most 32 of them. The slots keep exactly that map.
 */
module TableMap {
  import opened Bytes
  import opened Neighbors
  import opened NeighborDb
  import opened HistoryPayload
  import opened HistoryFile
  import opened HistoryMerge
  import opened LiveTable

  type Entries = map<Key, Neighbor>

  /** What an earlier entry leaves to a new one: the name of an EAPOL entry that came without one. */
  function Renewed(m: Entries, k: Key, n: Neighbor): Neighbor {
    if k.protocol == Eapol && k in m && n.name[0] == 0 && m[k].name[0] != 0 then n.(name := m[k].name[63 := 0]) else n
  }

  /** A frame sets its key, unless that key is new and there are 32 already; a clear drops the masked protocols. */
  function Noted(m: Entries, e: Event): Entries {
    match e
    case Frame(p, bytes) =>
      (match Observed(p, bytes)
       case None => m
       case Some(n) =>
         var k := Key(n.mac, p);
         if k in m || |m| < 32 then m[k := Renewed(m, k, n)] else m)
    case Clear(mask) => map k | k in m && And(SourceBit(k.protocol), mask) == 0 :: m[k]
  }

  function Seen(events: seq<Event>): Entries {
    if events == [] then map[] else Noted(Seen(events[..|events| - 1]), events[|events| - 1])
  }

  // ---- Slots that hold a map ----

  predicate IsEntry(n: Neighbor, k: Key) {
    n.occupied && n.mac == k.mac && n.sources == SourceBit(k.protocol)
  }

  predicate Holds(t: Table, k: Key, n: Neighbor) {
    exists i :: 0 <= i < |t| && t[i] == n && IsEntry(t[i], k)
  }

  ghost predicate IsMapOf(m: Entries, t: Table) {
    forall k, n :: Holds(t, k, n) <==> k in m && m[k] == n
  }

  lemma SourceBitsExact(p: Protocol, q: Protocol)
    ensures SourceBit(p) == SourceBit(q) <==> p == q
  {
  }

  /** Two slots with one key are one slot. */
  lemma OneSlot(t: Table, k: Key, i: nat, j: nat)
    requires TableOk(t) && i < |t| && j < |t| && IsEntry(t[i], k) && IsEntry(t[j], k)
    ensures i == j
  {
    SourceBitsDiffer(k.protocol, k.protocol);
    assert LiveAs(t[i], k.protocol) && LiveAs(t[j], k.protocol);
  }

  /** The entry the table looks up for a fresh neighbour is the one with its key. */
  lemma SameIsEntry(t: Table, p: Protocol, n: Neighbor, i: nat)
    requires TableOk(t) && i < |t| && n.sources == SourceBit(p)
    ensures SameEntry(n, t[i]) <==> IsEntry(t[i], Key(n.mac, p))
  {
    hide Storable, TableDistinct;
    if t[i].occupied {
      assert SlotOk(t[i]);
      OkSources(t[i], p);
    }
  }

  // ---- As many occupied slots as keys ----

  function Occupancy(t: Table): (c: nat)
    ensures c <= |t|
    ensures c == |t| <==> forall i :: 0 <= i < |t| ==> t[i].occupied
  {
    if t == [] then 0
    else
      var c, n := Occupancy(t[..|t| - 1]), |t| - 1;
      assert forall i :: 0 <= i < n ==> t[..n][i] == t[i];
      if t[n].occupied then c + 1 else c
  }

  function KeyOfSlot(n: Neighbor): Key {
    Key(n.mac, if n.sources == SourceBit(Lldp) then Lldp else if n.sources == SourceBit(Cdp) then Cdp else Eapol)
  }

  lemma SlotKey(n: Neighbor, k: Key)
    requires n.occupied && SlotOk(n)
    ensures IsEntry(n, k) <==> k == KeyOfSlot(n)
  {
    hide Storable;
    SourceBitsExact(ProtocolOf(n), k.protocol);
  }

  function SlotKeys(t: Table): set<Key> {
    set i | 0 <= i < |t| && t[i].occupied :: KeyOfSlot(t[i])
  }

  predicate KeysDistinct(t: Table) {
    forall i, j :: 0 <= i < j < |t| && t[i].occupied && t[j].occupied ==> KeyOfSlot(t[i]) != KeyOfSlot(t[j])
  }

  lemma {:induction false} KeysCounted(t: Table)
    requires KeysDistinct(t)
    ensures |SlotKeys(t)| == Occupancy(t)
  {
    hide KeyOfSlot, SlotKeys;
    if t == [] {
      NoSlotKeys();
    } else {
      KeysCounted(t[..|t| - 1]);
      LastSlotKey(t);
    }
  }

  lemma NoSlotKeys()
    ensures SlotKeys([]) == {}
  {
  }

  lemma LastSlotKey(t: Table)
    requires t != [] && KeysDistinct(t)
    ensures var last, before := t[|t| - 1], SlotKeys(t[..|t| - 1]);
      if last.occupied then KeyOfSlot(last) !in before && SlotKeys(t) == before + {KeyOfSlot(last)}
      else SlotKeys(t) == before
  {
    hide KeyOfSlot;
    var before := t[..|t| - 1];
    assert forall i :: 0 <= i < |before| ==> before[i] == t[i];
    assert forall i :: 0 <= i < |before| && t[i].occupied ==> KeyOfSlot(t[i]) in SlotKeys(before);
  }

  lemma OkDistinct(t: Table)
    requires TableOk(t)
    ensures KeysDistinct(t)
  {
    hide Storable, TableDistinct, KeyOfSlot, SlotOk;
    forall i, j | 0 <= i < j < |t| && t[i].occupied && t[j].occupied
      ensures KeyOfSlot(t[i]) != KeyOfSlot(t[j])
    {
      assert SlotOk(t[i]) && SlotOk(t[j]);
      SlotKey(t[i], KeyOfSlot(t[i]));
      SlotKey(t[j], KeyOfSlot(t[i]));
      if KeyOfSlot(t[i]) == KeyOfSlot(t[j]) {
        OneSlot(t, KeyOfSlot(t[i]), i, j);
      }
    }
  }

  /** The map has as many keys as the table has occupied slots. */
  lemma MapSize(m: Entries, t: Table)
    requires TableOk(t) && IsMapOf(m, t)
    ensures |m| == Occupancy(t)
  {
    hide KeyOfSlot, TableDistinct, IsEntry;
    OkDistinct(t);
    KeysCounted(t);
    forall k
      ensures k in m.Keys <==> k in SlotKeys(t)
    {
      if k in m {
        assert Holds(t, k, m[k]);
        var i :| 0 <= i < |t| && t[i] == m[k] && IsEntry(t[i], k);
        EntryOccupied(t[i], k);
        assert SlotOk(t[i]);
        SlotKey(t[i], k);
      }
      if k in SlotKeys(t) {
        var i :| 0 <= i < |t| && t[i].occupied && k == KeyOfSlot(t[i]);
        assert SlotOk(t[i]);
        SlotKey(t[i], k);
        assert Holds(t, k, t[i]);
      }
    }
    assert m.Keys == SlotKeys(t);
  }

  lemma EntryOccupied(n: Neighbor, k: Key)
    requires IsEntry(n, k)
    ensures n.occupied
  {
  }

  // ---- Steps ----

  /** One slot rewritten where its key belongs is that key set in the map. */
  lemma SlotWritten(m: Entries, t: Table, i: nat, n: Neighbor, p: Protocol)
    requires TableOk(t) && IsMapOf(m, t) && Fresh(p, n) && BelongsAt(t, n, i) && TableOk(t[i := n])
    ensures IsMapOf(m[Key(n.mac, p) := n], t[i := n])
  {
    hide Storable, TableOk, Renewed;
    var r, own := t[i := n], Key(n.mac, p);
    assert IsEntry(r[i], own) && Holds(r, own, n);
    SameIsEntry(t, p, n, i);
    forall k, x
      ensures Holds(r, k, x) <==> k in m[own := n] && m[own := n][k] == x
    {
      if k == own {
        if Holds(r, k, x) {
          var j :| 0 <= j < |r| && r[j] == x && IsEntry(r[j], k);
          OneSlot(r, k, i, j);
        }
      } else {
        OtherKey(t, r, i, k, own, x);
      }
    }
  }

  lemma OtherKey(t: Table, r: Table, i: nat, k: Key, own: Key, x: Neighbor)
    requires i < |t| == |r| && r == t[i := r[i]]
    requires k != own && IsEntry(r[i], own) && (t[i].occupied ==> IsEntry(t[i], own))
    ensures Holds(r, k, x) <==> Holds(t, k, x)
  {
    SourceBitsExact(k.protocol, own.protocol);
    if Holds(r, k, x) {
      var j :| 0 <= j < |r| && r[j] == x && IsEntry(r[j], k);
      assert t[j] == x;
    }
    if Holds(t, k, x) {
      var j :| 0 <= j < |t| && t[j] == x && IsEntry(t[j], k);
      assert r[j] == x;
    }
  }

  /** A frame's entry in the map and in the table is the same. */
  lemma EnteredIsRenewed(m: Entries, t: Table, p: Protocol, n: Neighbor)
    requires TableOk(t) && IsMapOf(m, t) && n.sources == SourceBit(p)
    ensures Entered(t, p, n) == Renewed(m, Key(n.mac, p), n)
  {
    hide TableOk, FindFrom, HasSource;
    if p == Eapol {
      var k, found := Key(n.mac, p), FindFrom(t, n.mac, SourceBit(Eapol), 0);
      if found.Some? {
        MatchIsEntry(t, n, found.value);
        assert Holds(t, k, t[found.value]);
      } else if k in m {
        assert Holds(t, k, m[k]);
        var i :| 0 <= i < |t| && t[i] == m[k] && IsEntry(t[i], k);
        MatchIsEntry(t, n, i);
      }
    }
  }

  lemma MatchIsEntry(t: Table, n: Neighbor, i: nat)
    requires TableOk(t) && i < |t| && n.sources == SourceBit(Eapol)
    ensures Matches(t[i], n.mac, SourceBit(Eapol)) <==> IsEntry(t[i], Key(n.mac, Eapol))
  {
    hide TableOk;
    SameIsEntry(t, Eapol, n, i);
  }

  lemma FrameStep(m: Entries, t: Table, p: Protocol, bytes: seq<byte>)
    requires TableOk(t) && IsMapOf(m, t)
    ensures IsMapOf(Noted(m, Frame(p, bytes)), Processed(t, p, bytes))
  {
    hide Storable, TableOk, Observed, Entered, IsMapOf, Renewed, Occupancy, Added;
    if Observed(p, bytes).Some? {
      var n := Observed(p, bytes).value;
      ObservedFresh(p, bytes);
      EnteredFresh(t, p, bytes);
      EnteredIsRenewed(m, t, p, n);
      EnteredMac(t, p, n);
      ProcessedKeepsOk(t, p, bytes);
      var e := Entered(t, p, n);
      AddedExact(t, e);
      RoomExact(m, t, p, e);
      if Added(t, e).Some? {
        var i: nat :| BelongsAt(t, e, i) && Added(t, e).value == t[i := e.(occupied := true)];
        SlotWritten(m, t, i, e, p);
      }
    }
  }

  lemma EnteredMac(t: Table, p: Protocol, n: Neighbor)
    ensures Entered(t, p, n).mac == n.mac
  {
  }

  /** The table takes an entry exactly when the map does. */
  lemma RoomExact(m: Entries, t: Table, p: Protocol, n: Neighbor)
    requires TableOk(t) && IsMapOf(m, t) && n.sources == SourceBit(p)
    ensures (exists i :: 0 <= i < |t| && (!t[i].occupied || SameEntry(n, t[i]))) <==> Key(n.mac, p) in m || |m| < 32
  {
    hide TableDistinct, SlotOk, SameEntry;
    var k := Key(n.mac, p);
    MapSize(m, t);
    if i :| 0 <= i < |t| && SameEntry(n, t[i]) {
      SameIsEntry(t, p, n, i);
      assert Holds(t, k, t[i]);
    }
    if k in m {
      assert Holds(t, k, m[k]);
      var i :| 0 <= i < |t| && t[i] == m[k] && IsEntry(t[i], k);
      SameIsEntry(t, p, n, i);
    }
  }

  lemma ClearStep(m: Entries, t: Table, mask: byte)
    requires TableOk(t) && IsMapOf(m, t)
    ensures IsMapOf(Noted(m, Clear(mask)), Cleared(t, mask))
  {
    hide TableOk, Holds, Cleared;
    var r, d := Cleared(t, mask), Noted(m, Clear(mask));
    forall k, x
      ensures Holds(r, k, x) <==> k in d && d[k] == x
    {
      ClearedHolds(t, mask, k, x);
    }
  }

  lemma ClearedHolds(t: Table, mask: byte, k: Key, x: Neighbor)
    requires TableOk(t)
    ensures Holds(Cleared(t, mask), k, x) <==> Holds(t, k, x) && And(SourceBit(k.protocol), mask) == 0
  {
    hide TableOk, ClearedSlot, IsEntry;
    var r := Cleared(t, mask);
    if Holds(r, k, x) {
      var i :| 0 <= i < |r| && r[i] == x && IsEntry(r[i], k);
      ClearedEntry(t, mask, i, k);
    }
    if Holds(t, k, x) && And(SourceBit(k.protocol), mask) == 0 {
      var i :| 0 <= i < |t| && t[i] == x && IsEntry(t[i], k);
      ClearedEntry(t, mask, i, k);
      assert r[i] == x && IsEntry(r[i], k);
    }
  }

  lemma ClearedEntry(t: Table, mask: byte, i: nat, k: Key)
    requires TableOk(t) && i < |t|
    ensures IsEntry(ClearedSlot(t[i], mask), k) <==> IsEntry(t[i], k) && And(SourceBit(k.protocol), mask) == 0
    ensures IsEntry(ClearedSlot(t[i], mask), k) ==> ClearedSlot(t[i], mask) == t[i]
  {
    hide Storable, ClearedSlot, TableDistinct;
    assert SlotOk(t[i]);
    ClearedExact(t[i], mask);
  }

  lemma BlankIsEmpty()
    ensures IsMapOf(map[], BlankTable())
  {
  }

  /** Over every run, the slots hold exactly the map of the latest neighbours seen, each key in one slot. */
  lemma {:induction false} TableIsMap(events: seq<Event>)
    ensures forall k, n :: Holds(After(events), k, n) <==> k in Seen(events) && Seen(events)[k] == n
    ensures |Seen(events)| <= 32
  {
    hide TableOk, Processed, Cleared, Noted, Holds;
    ReachableOk(events);
    if events == [] {
      BlankIsEmpty();
    } else {
      var earlier := events[..|events| - 1];
      ReachableOk(earlier);
      TableIsMap(earlier);
      match events[|events| - 1]
      case Frame(p, bytes) => FrameStep(Seen(earlier), After(earlier), p, bytes);
      case Clear(mask) => ClearStep(Seen(earlier), After(earlier), mask);
    }
    assert IsMapOf(Seen(events), After(events));
    MapSize(Seen(events), After(events));
    TableSlots(After(events));
  }

  lemma TableSlots(t: Table)
    requires TableOk(t)
    ensures |t| == 32
  {
  }

  predicate HasRoom(t: Table, k: Key) {
    exists i :: 0 <= i < |t| && (!t[i].occupied || IsEntry(t[i], k))
  }

  /** The neighbour as it was seen, except that an EAPOL frame without an identity may have kept a name. */
  predicate AsSeen(p: Protocol, seen: Neighbor, n: Neighbor) {
    if p == Eapol && seen.name[0] == 0 then n == seen.(name := n.name) else n == seen
  }

  /** So an accepted frame finds its neighbour in the table, when its key was there before or a slot was free. */
  lemma FrameIsEntered(events: seq<Event>, p: Protocol, bytes: seq<byte>)
    requires Observed(p, bytes).Some? && HasRoom(After(events), Key(Observed(p, bytes).value.mac, p))
    ensures var n, r := Observed(p, bytes).value, After(events + [Frame(p, bytes)]);
      exists x :: Holds(r, Key(n.mac, p), x) && AsSeen(p, n, x)
  {
    hide TableOk, Observed, Holds, HasRoom, AsSeen, Entered, After, Renewed;
    var n, t, m := Observed(p, bytes).value, After(events), Seen(events);
    var k := Key(n.mac, p);
    assert (events + [Frame(p, bytes)])[..|events|] == events;
    ReachableOk(events);
    TableIsMap(events);
    ObservedFresh(p, bytes);
    RoomFound(m, t, p, n);
    TableIsMap(events + [Frame(p, bytes)]);
    RenewedAsSeen(m, p, n);
    assert Holds(After(events + [Frame(p, bytes)]), k, Renewed(m, k, n));
  }

  lemma RoomFound(m: Entries, t: Table, p: Protocol, n: Neighbor)
    requires TableOk(t) && n.sources == SourceBit(p) && HasRoom(t, Key(n.mac, p))
    requires forall k, x :: Holds(t, k, x) <==> k in m && m[k] == x
    ensures Key(n.mac, p) in m || |m| < 32
  {
    hide TableOk, SameEntry, IsEntry, Holds;
    assert IsMapOf(m, t);
    var i :| 0 <= i < |t| && (!t[i].occupied || IsEntry(t[i], Key(n.mac, p)));
    SameIsEntry(t, p, n, i);
    RoomExact(m, t, p, n);
  }

  lemma RenewedAsSeen(m: Entries, p: Protocol, n: Neighbor)
    ensures AsSeen(p, n, Renewed(m, Key(n.mac, p), n))
  {
  }

  // ---- What a merge finds in the table ----

  /** The part of the map that a merge with the filter takes up, as the saved history stores it. */
  function Offered(m: Entries, filter: Filter): Entries {
    map k | k in m && (filter == All || filter == Only(k.protocol)) :: Restrict(k.protocol, m[k])
  }

  lemma OfferedEntry(t: Table, filter: Filter, i: nat, k: Key)
    requires TableOk(t) && i < |t| && t[i].occupied && t[i].mac == k.mac
    ensures Offers(t[i], filter, k) <==> IsEntry(t[i], k) && (filter == All || filter == Only(k.protocol))
    ensures LiveAs(t[i], k.protocol) <==> IsEntry(t[i], k)
  {
    hide Storable, TableDistinct;
    assert SlotOk(t[i]);
    OkSources(t[i], k.protocol);
  }

  lemma LiveKeyExact(m: Entries, t: Table, filter: Filter, k: Key)
    requires TableOk(t) && IsMapOf(m, t)
    ensures k in LiveKeys(t, filter) <==> k in m && (filter == All || filter == Only(k.protocol))
  {
    hide TableOk, Offers, IsEntry;
    if k in LiveKeys(t, filter) {
      var i, p :| 0 <= i < |t| && t[i].occupied && Offers(t[i], filter, Key(t[i].mac, p)) && k == Key(t[i].mac, p);
      OfferedEntry(t, filter, i, k);
      assert Holds(t, k, t[i]);
    }
    if k in m && (filter == All || filter == Only(k.protocol)) {
      assert Holds(t, k, m[k]);
      var i :| 0 <= i < |t| && t[i] == m[k] && IsEntry(t[i], k);
      EntryFields(t[i], k);
      OfferedEntry(t, filter, i, k);
      assert Offers(t[i], filter, Key(t[i].mac, k.protocol));
    }
  }

  lemma EntryFields(n: Neighbor, k: Key)
    requires IsEntry(n, k)
    ensures n.occupied && n.mac == k.mac && Key(n.mac, k.protocol) == k
  {
  }

  lemma LiveEntryExact(m: Entries, t: Table, filter: Filter, k: Key)
    requires TableOk(t) && IsMapOf(m, t) && k in LiveKeys(t, filter)
    ensures k in m && FindLive(t, filter, k) == Some(m[k])
  {
    hide TableOk, Offers, IsEntry, LiveKeys, FindLive, LiveAs;
    FindLiveExact(t, filter, k);
    var i :| 0 <= i < |t| && t[i] == FindLive(t, filter, k).value && LiveAs(t[i], k.protocol) && t[i].mac == k.mac;
    LiveOccupied(t[i], k.protocol);
    OfferedEntry(t, filter, i, k);
    assert Holds(t, k, t[i]);
  }

  lemma LiveOccupied(n: Neighbor, p: Protocol)
    requires LiveAs(n, p)
    ensures n.occupied
  {
  }

  /** Over every run, what a merge takes from the table is the latest neighbour seen for each key the filter admits. */
  lemma LiveMapIsSeen(events: seq<Event>, filter: Filter)
    ensures LiveMap(After(events), filter) == Offered(Seen(events), filter)
  {
    hide TableOk, LiveKeys, FindLive, Restrict, Holds, After, Seen;
    var t, m := After(events), Seen(events);
    ReachableOk(events);
    TableIsMap(events);
    assert IsMapOf(m, t);
    var live, offered := LiveMap(t, filter), Offered(m, filter);
    forall k
      ensures k in live <==> k in offered
      ensures k in live ==> live[k] == offered[k]
    {
      LiveKeyExact(m, t, filter, k);
      if k in live {
        LiveEntryExact(m, t, filter, k);
      }
    }
  }

  /**
   From the wire to the file: for every run and every valid saved list, a merge leaves a file
   that loads, with the saved neighbours overridden by the latest ones seen, up to 32.
   */
  lemma MergeKeepsSeen(events: seq<Event>, rs: seq<Record>, filter: Filter)
    requires FileValid(rs)
    ensures var m, full := Merged(rs, After(events), filter), Kept(rs) + Offered(Seen(events), filter);
      && FileValid(m) && Load(Some(FileBytes(m))) == Ready(m)
      && KeySet(rs) <= KeySet(m)
      && (forall k :: k in Contents(m) ==> k in full && Contents(m)[k] == full[k])
      && |m| == (if |full| <= 32 then |full| else 32)
      && (|full| <= 32 ==> Contents(m) == full)
  {
    hide Merged, KeySet, Contents, Kept, LiveMap, Offered, Load, FileBytes, RecordValid;
    ReachableMerge(events, rs, filter);
    LiveMapIsSeen(events, filter);
    ContentsKeys(Merged(rs, After(events), filter));
  }
}
