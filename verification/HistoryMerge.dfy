/**
 What a merge of the live table into the saved history must produce, and why the
 result is the map override of the two: old keys in their old order, then new keys
 in table order, no more than 32 in all.
 */
module HistoryMerge {
  import opened Bytes
  import opened Neighbors
  import opened NeighborDb
  import opened HistoryPayload
  import opened HistoryFile

  // ---- One record ----

  /** The record written for a neighbour. */
  function RecordOf(p: Protocol, n: Neighbor): Record {
    Record(p, FlagsOf(p, n), n.mac, EncodeItems(ItemsOf(p, n)))
  }

  /** An EAPOL entry has no port, management address or description. */
  predicate PlainEapol(p: Protocol, n: Neighbor) {
    p == Eapol ==> n.port[0] == 0 && n.managementAddress[0] == 0 && n.description[0] == 0
  }

  predicate Storable(p: Protocol, n: Neighbor) {
    StringsTerminated(p, n) && PlainEapol(p, n)
  }

  /** The presence word sets bits that the loader refuses exactly for an EAPOL entry with foreign texts. */
  lemma FlagsStorable(p: Protocol, n: Neighbor)
    ensures FlagsValid(p, FlagsOf(p, n)) <==> PlainEapol(p, n)
  {
    forall k | 0 <= k < 16
      ensures Bit(FlagsOf(p, n), k) == FlagSet(p, n, k)
    {
      FlagBit(p, n, k);
    }
    if PlainEapol(p, n) {
      forall k | 0 <= k < 16 && Bit(FlagsOf(p, n), k)
        ensures FlagAllowed(p, k)
      {
        assert FlagSet(p, n, k);
      }
    } else {
      assert FlagSet(p, n, 1) || FlagSet(p, n, 2) || FlagSet(p, n, 4);
    }
  }

  /** A written record loads back exactly when its neighbour is storable, and gives the protocol's own fields. */
  lemma RecordOfValid(p: Protocol, n: Neighbor)
    requires StringsTerminated(p, n)
    ensures RecordValid(RecordOf(p, n)) <==> Storable(p, n)
    ensures Decode(p, FlagsOf(p, n), EncodeItems(ItemsOf(p, n)), n.mac) == Some(Restrict(p, n))
  {
    hide Decode, Restrict;
    FlagsStorable(p, n);
    DecodeOfEncode(p, n);
    PayloadFits(p, n);
  }

  /** The neighbour a stored record stands for. */
  function Restored(r: Record): Neighbor
    requires RecordValid(r)
  {
    Decode(r.protocol, r.flags, r.payload, r.mac).value
  }

  /** A stored string's array ends in a NUL. */
  lemma ShortTextTerminated(text: seq<byte>, size: nat)
    requires |text| < size
    ensures Terminated(CharArray(text, size))
  {
    var a := CharArray(text, size);
    assert a[|text|] == 0;
  }

  lemma EmptyTextPlain(size: nat)
    requires size > 0
    ensures Zeros(size)[0] == 0
  {
  }

  /** Whatever decodes can be stored again. */
  lemma DecodedStorable(p: Protocol, flags: u16, payload: seq<byte>, mac: MacAddress)
    requires Decode(p, flags, payload, mac).Some?
    ensures Storable(p, Decode(p, flags, payload, mac).value) && Decode(p, flags, payload, mac).value.mac == mac
  {
    var items := ParseItems(ShapesOf(p, flags), payload).value;
    match p {
      case Lldp =>
        LldpRestoredTerminated(flags, items, mac);
      case Cdp =>
        CdpRestoredTerminated(flags, items, mac);
      case Eapol =>
        EapolRestoredTerminated(flags, items, mac);
    }
  }

  lemma RestoredStorable(r: Record)
    requires RecordValid(r)
    ensures Storable(r.protocol, Restored(r)) && Restored(r).mac == r.mac
  {
    hide Decode, Storable;
    DecodedStorable(r.protocol, r.flags, r.payload, r.mac);
  }

  lemma EapolRestoredTerminated(flags: u16, items: seq<Item>, mac: MacAddress)
    requires AllFit(items, ShapesOf(Eapol, flags))
    ensures Storable(Eapol, NeighborOf(Eapol, flags, items, mac))
    ensures NeighborOf(Eapol, flags, items, mac).mac == mac
  {
    assert Fits(items[4], ShapesOf(Eapol, flags)[4]);
    ShortTextTerminated(items[4].text, 64);
    EmptyTextPlain(64);
    EmptyTextPlain(48);
    EmptyTextPlain(128);
  }

  lemma CdpRestoredTerminated(flags: u16, items: seq<Item>, mac: MacAddress)
    requires AllFit(items, ShapesOf(Cdp, flags))
    ensures Storable(Cdp, NeighborOf(Cdp, flags, items, mac))
    ensures NeighborOf(Cdp, flags, items, mac).mac == mac
  {
    var shapes := ShapesOf(Cdp, flags);
    assert Fits(items[2], shapes[2]) && Fits(items[3], shapes[3]) && Fits(items[4], shapes[4]) &&
      Fits(items[5], shapes[5]);
    ShortTextTerminated(items[2].text, 64);
    ShortTextTerminated(items[3].text, 64);
    ShortTextTerminated(items[4].text, 48);
    ShortTextTerminated(items[5].text, 128);
  }

  lemma LldpRestoredTerminated(flags: u16, items: seq<Item>, mac: MacAddress)
    requires AllFit(items, ShapesOf(Lldp, flags))
    ensures Storable(Lldp, NeighborOf(Lldp, flags, items, mac))
    ensures NeighborOf(Lldp, flags, items, mac).mac == mac
  {
    SplitLldp(flags, items);
    var d, shapes := items[20..], LldpStringShapes(flags);
    assert Fits(d[0], shapes[0]) && Fits(d[1], shapes[1]) && Fits(d[2], shapes[2]);
    assert Fits(d[3], shapes[3]) && Fits(d[4], shapes[4]) && Fits(d[5], shapes[5]);
    ShortTextTerminated(d[0].text, 64);
    ShortTextTerminated(d[1].text, 64);
    ShortTextTerminated(d[2].text, 128);
    ShortTextTerminated(d[3].text, 64);
    ShortTextTerminated(d[4].text, 48);
    ShortTextTerminated(d[5].text, 64);
  }

  /** What becomes of a record that is carried over. */
  function Rewritten(r: Record): Record
    requires RecordValid(r)
  {
    RecordOf(r.protocol, Restored(r))
  }

  /** A record is carried over byte for byte exactly when its strings hold no NUL. */
  lemma KeptExactly(r: Record)
    requires RecordValid(r)
    ensures Rewritten(r) == r <==> StringsNulFree(r.protocol, r.flags, r.payload)
  {
    hide Decode, Storable, StringsNulFree, FlagsOf, EncodeItems, ItemsOf;
    RestoredStorable(r);
    StorableTerminated(r.protocol, Restored(r));
    if StringsNulFree(r.protocol, r.flags, r.payload) {
      EncodeOfDecode(r.protocol, r.flags, r.payload, r.mac);
    }
    WrittenNulFree(r.protocol, Restored(r));
  }

  lemma StorableTerminated(p: Protocol, n: Neighbor)
    requires Storable(p, n)
    ensures StringsTerminated(p, n)
  {
    hide StringsTerminated;
  }

  /** A carried-over record keeps its key and reads back with its texts cut at their NUL. */
  lemma RewrittenReads(r: Record)
    requires RecordValid(r)
    ensures RecordValid(Rewritten(r)) && KeyOf(Rewritten(r)) == KeyOf(r)
    ensures Restored(Rewritten(r)) == Restrict(r.protocol, Restored(r))
    ensures StringsNulFree(r.protocol, Rewritten(r).flags, Rewritten(r).payload)
  {
    hide Decode, Restrict, StringsNulFree, FlagsOf, EncodeItems, ItemsOf, RecordValid, StringsTerminated, FlagsValid;
    RestoredStorable(r);
    StorableTerminated(r.protocol, Restored(r));
    RestoredWritten(r.protocol, Restored(r));
    WrittenNulFree(r.protocol, Restored(r));
  }

  lemma TextNulFree(s: seq<byte>)
    ensures NulFree(Text(s))
  {
  }

  /** Every record this code writes has NUL-free strings. */
  lemma WrittenNulFree(p: Protocol, n: Neighbor)
    requires StringsTerminated(p, n)
    ensures var r := RecordOf(p, n); StringsNulFree(p, r.flags, r.payload)
  {
    ItemsFit(p, n);
    ParseItemsOfEncoding(ShapesOf(p, FlagsOf(p, n)), ItemsOf(p, n));
    var items := ItemsOf(p, n);
    forall k | 0 <= k < |items| && items[k].String?
      ensures NulFree(items[k].text)
    {
      ItemTextFromArray(p, n, k);
    }
  }

  lemma ItemTextFromArray(p: Protocol, n: Neighbor, k: nat)
    requires k < |ItemsOf(p, n)| && ItemsOf(p, n)[k].String?
    ensures NulFree(ItemsOf(p, n)[k].text)
  {
    TextNulFree(n.chassisId);
    TextNulFree(n.name);
    TextNulFree(n.description);
    TextNulFree(n.port);
    TextNulFree(n.managementAddress);
    TextNulFree(n.vlanName);
    if p == Lldp {
      if k >= 20 {
        assert ItemsOf(p, n)[k] == LldpStringItems(n)[k - 20];
      } else if k >= 16 {
        assert ItemsOf(p, n)[k] == LldpPowerTypeItems(n)[k - 16];
      } else if k >= 8 {
        assert ItemsOf(p, n)[k] == LldpPowerItems(n)[k - 8];
      } else {
        assert ItemsOf(p, n)[k] == LldpVlanItems(n)[k];
      }
    }
  }

  // ---- The merge ----

  /** The live entry of a key, when the filter lets it be used. */
  function FindLive(t: seq<Neighbor>, filter: Filter, k: Key): Option<Neighbor> {
    if !FilterMatches(filter, k.protocol) then None
    else
      match FindFrom(t, k.mac, SourceBit(k.protocol), 0)
      case None => None
      case Some(i) => Some(t[i])
  }

  /** What the merge writes in place of an old record. */
  function Updated(t: seq<Neighbor>, filter: Filter, r: Record): Record
    requires RecordValid(r)
  {
    match FindLive(t, filter, KeyOf(r))
    case Some(live) => RecordOf(r.protocol, live)
    case None => Rewritten(r)
  }

  function UpdatedAll(t: seq<Neighbor>, filter: Filter, rs: seq<Record>): (us: seq<Record>)
    requires AllValid(rs)
    ensures |us| == |rs|
  {
    if rs == [] then [] else UpdatedAll(t, filter, rs[..|rs| - 1]) + [Updated(t, filter, rs[|rs| - 1])]
  }

  function KeySet(rs: seq<Record>): set<Key> {
    set k | 0 <= k < |rs| :: KeyOf(rs[k])
  }

  /** The neighbour is live under the key and the filter asks for it. */
  predicate Offers(n: Neighbor, filter: Filter, k: Key) {
    n.mac == k.mac && HasSource(n, SourceBit(k.protocol)) && FilterMatches(filter, k.protocol)
  }

  /** A key that cannot be encoded is passed over. */
  function NewFor(n: Neighbor, filter: Filter, known: set<Key>, p: Protocol): seq<Record> {
    var k := Key(n.mac, p);
    if Offers(n, filter, k) && k !in known && StringsTerminated(p, n) then [RecordOf(p, n)] else []
  }

  function NewOf(n: Neighbor, filter: Filter, known: set<Key>): seq<Record> {
    NewFor(n, filter, known, Lldp) + NewFor(n, filter, known, Cdp) + NewFor(n, filter, known, Eapol)
  }

  /** New records of the listed slots, in order. */
  function NewAll(t: seq<Neighbor>, slots: seq<nat>, filter: Filter, known: set<Key>): seq<Record>
    requires forall k :: 0 <= k < |slots| ==> slots[k] < |t|
  {
    if slots == [] then [] else NewOf(t[slots[0]], filter, known) + NewAll(t, slots[1..], filter, known)
  }

  /** At most as many records as a file holds. */
  function Cut(rs: seq<Record>): seq<Record> {
    if |rs| <= MAX_RECORDS then rs else rs[..MAX_RECORDS]
  }

  /** Slots with an entry, in order. */
  function LiveSlots(t: seq<Neighbor>): (slots: seq<nat>)
    ensures forall k :: 0 <= k < |slots| ==> slots[k] < |t| && t[slots[k]].occupied
  {
    SlotsExact(t, Everyone, 0);
    var slots := SlotsFrom(t, Everyone, 0);
    assert forall k :: 0 <= k < |slots| ==> slots[k] in slots;
    slots
  }

  /** Every record there would be room for without the limit. */
  function Wanted(rs: seq<Record>, t: seq<Neighbor>, filter: Filter): seq<Record>
    requires AllValid(rs)
  {
    UpdatedAll(t, filter, rs) + NewAll(t, LiveSlots(t), filter, KeySet(rs))
  }

  function Merged(rs: seq<Record>, t: seq<Neighbor>, filter: Filter): seq<Record>
    requires AllValid(rs)
  {
    Cut(Wanted(rs, t, filter))
  }

  // ---- Tables the merge is run on ----

  predicate LiveAs(n: Neighbor, p: Protocol) {
    n.occupied && HasSource(n, SourceBit(p))
  }

  /** No two entries have the same address and a source in common. */
  predicate TableDistinct(t: seq<Neighbor>) {
    forall i, j, p: Protocol :: 0 <= i < j < |t| && LiveAs(t[i], p) && LiveAs(t[j], p) ==> t[i].mac != t[j].mac
  }

  predicate SlotStorable(n: Neighbor) {
    forall p: Protocol :: HasSource(n, SourceBit(p)) ==> Storable(p, n)
  }

  predicate TableStorable(t: seq<Neighbor>) {
    forall i :: 0 <= i < |t| && t[i].occupied ==> SlotStorable(t[i])
  }

  predicate SlotTerminated(n: Neighbor) {
    forall p: Protocol :: HasSource(n, SourceBit(p)) ==> StringsTerminated(p, n)
  }

  predicate TableTerminated(t: seq<Neighbor>) {
    forall i :: 0 <= i < |t| && t[i].occupied ==> SlotTerminated(t[i])
  }

  // ---- The old records ----

  lemma {:induction false} UpdatedAt(t: seq<Neighbor>, filter: Filter, rs: seq<Record>, i: nat)
    requires AllValid(rs) && i < |rs|
    ensures UpdatedAll(t, filter, rs)[i] == Updated(t, filter, rs[i])
  {
    hide Updated, RecordValid;
    var n := |rs| - 1;
    if i < n {
      UpdatedAt(t, filter, rs[..n], i);
    }
  }

  /** Updating keeps the key; the record stays loadable when the live entry is storable. */
  lemma UpdatedKeeps(t: seq<Neighbor>, filter: Filter, r: Record)
    requires RecordValid(r)
    ensures KeyOf(Updated(t, filter, r)) == KeyOf(r)
    ensures TableStorable(t) ==> RecordValid(Updated(t, filter, r))
  {
    hide Decode, RecordValid, Storable;
    RestoredStorable(r);
    match FindLive(t, filter, KeyOf(r)) {
      case Some(live) =>
        if TableStorable(t) {
          assert SlotStorable(live);
          StorableValid(r.protocol, live);
        }
      case None =>
        StorableValid(r.protocol, Restored(r));
    }
  }

  lemma StorableValid(p: Protocol, n: Neighbor)
    requires Storable(p, n)
    ensures RecordValid(RecordOf(p, n))
  {
    RecordOfValid(p, n);
  }

  // ---- The new records ----

  /** A new record of the slots: the key is offered by one of them and was not there before. */
  predicate NewRecordOk(t: seq<Neighbor>, slots: seq<nat>, filter: Filter, known: set<Key>, r: Record)
    requires forall k :: 0 <= k < |slots| ==> slots[k] < |t|
  {
    && KeyOf(r) !in known
    && exists k :: 0 <= k < |slots| && Offers(t[slots[k]], filter, KeyOf(r)) && r == RecordOf(r.protocol, t[slots[k]])
  }

  lemma NewOfExact(n: Neighbor, filter: Filter, known: set<Key>)
    ensures forall j :: 0 <= j < |NewOf(n, filter, known)| ==>
      var r := NewOf(n, filter, known)[j];
      KeyOf(r) !in known && Offers(n, filter, KeyOf(r)) && r == RecordOf(r.protocol, n)
    ensures forall p :: Offers(n, filter, Key(n.mac, p)) && Key(n.mac, p) !in known && StringsTerminated(p, n) ==>
      RecordOf(p, n) in NewOf(n, filter, known)
    ensures KeysDistinct(NewOf(n, filter, known))
  {
    var a, b, c := NewFor(n, filter, known, Lldp), NewFor(n, filter, known, Cdp), NewFor(n, filter, known, Eapol);
    var all := NewOf(n, filter, known);
    hide RecordOf, Offers, StringsTerminated;
    assert forall r :: r in a ==>
      r == RecordOf(Lldp, n) && Offers(n, filter, Key(n.mac, Lldp)) && Key(n.mac, Lldp) !in known;
    assert forall r :: r in b ==>
      r == RecordOf(Cdp, n) && Offers(n, filter, Key(n.mac, Cdp)) && Key(n.mac, Cdp) !in known;
    assert forall r :: r in c ==>
      r == RecordOf(Eapol, n) && Offers(n, filter, Key(n.mac, Eapol)) && Key(n.mac, Eapol) !in known;
    RecordKeys(n);
    forall p | Offers(n, filter, Key(n.mac, p)) && Key(n.mac, p) !in known && StringsTerminated(p, n)
      ensures RecordOf(p, n) in all
    {
      match p
      case Lldp => assert a[0] in all;
      case Cdp => assert b[0] in all;
      case Eapol => assert c[0] in all;
    }
  }

  lemma RecordKeys(n: Neighbor)
    ensures forall p :: KeyOf(RecordOf(p, n)) == Key(n.mac, p)
    ensures forall p :: RecordOf(p, n).protocol == p
  {
  }

  lemma {:induction false} NewAllSound(t: seq<Neighbor>, slots: seq<nat>, filter: Filter, known: set<Key>, j: nat)
    requires forall k :: 0 <= k < |slots| ==> slots[k] < |t|
    requires j < |NewAll(t, slots, filter, known)|
    ensures NewRecordOk(t, slots, filter, known, NewAll(t, slots, filter, known)[j])
    decreases |slots|
  {
    hide RecordOf, Offers;
    NewOfExact(t[slots[0]], filter, known);
    var first := NewOf(t[slots[0]], filter, known);
    if j >= |first| {
      NewAllSound(t, slots[1..], filter, known, j - |first|);
      var r := NewAll(t, slots, filter, known)[j];
      var k :| 0 <= k < |slots[1..]| && Offers(t[slots[1..][k]], filter, KeyOf(r)) &&
        r == RecordOf(r.protocol, t[slots[1..][k]]);
      assert slots[1..][k] == slots[k + 1];
    }
  }

  lemma {:induction false} NewAllComplete(t: seq<Neighbor>, slots: seq<nat>, filter: Filter, known: set<Key>, k: nat,
                                          p: Protocol)
    requires forall k :: 0 <= k < |slots| ==> slots[k] < |t|
    requires k < |slots|
    requires var n := t[slots[k]];
      Offers(n, filter, Key(n.mac, p)) && Key(n.mac, p) !in known && StringsTerminated(p, n)
    ensures RecordOf(p, t[slots[k]]) in NewAll(t, slots, filter, known)
    decreases |slots|
  {
    hide RecordOf, Offers, StringsTerminated;
    if k == 0 {
      NewOfExact(t[slots[0]], filter, known);
    } else {
      NewAllComplete(t, slots[1..], filter, known, k - 1, p);
    }
  }

  /** Strictly increasing slots, all with an entry. */
  predicate Ascending(t: seq<Neighbor>, slots: seq<nat>) {
    && (forall k :: 0 <= k < |slots| ==> slots[k] < |t| && t[slots[k]].occupied)
    && (forall a, b :: 0 <= a < b < |slots| ==> slots[a] < slots[b])
  }

  lemma {:induction false} NewAllDistinct(t: seq<Neighbor>, slots: seq<nat>, filter: Filter, known: set<Key>)
    requires TableDistinct(t) && Ascending(t, slots)
    ensures KeysDistinct(NewAll(t, slots, filter, known))
    decreases |slots|
  {
    hide RecordOf;
    if slots != [] {
      var first, more := NewOf(t[slots[0]], filter, known), NewAll(t, slots[1..], filter, known);
      NewOfExact(t[slots[0]], filter, known);
      NewAllDistinct(t, slots[1..], filter, known);
      forall i, j | 0 <= i < |first| && 0 <= j < |more|
        ensures KeyOf(first[i]) != KeyOf(more[j])
      {
        NewAllSound(t, slots[1..], filter, known, j);
        var k :| 0 <= k < |slots[1..]| && Offers(t[slots[1..][k]], filter, KeyOf(more[j]));
        assert slots[1..][k] == slots[k + 1] > slots[0];
        assert LiveAs(t[slots[0]], first[i].protocol) && LiveAs(t[slots[k + 1]], more[j].protocol);
      }
      DistinctConcat(first, more);
    }
  }

  lemma DistinctConcat(a: seq<Record>, b: seq<Record>)
    requires KeysDistinct(a) && KeysDistinct(b)
    requires forall i, j :: 0 <= i < |a| && 0 <= j < |b| ==> KeyOf(a[i]) != KeyOf(b[j])
    ensures KeysDistinct(a + b)
  {
  }

  // ---- The merged list ----

  lemma LiveSlotsAscending(t: seq<Neighbor>)
    ensures Ascending(t, LiveSlots(t))
    ensures forall i :: 0 <= i < |t| && t[i].occupied ==> i in LiveSlots(t)
  {
    SlotsExact(t, Everyone, 0);
  }

  /** Old keys keep their place. */
  lemma OldKeysKept(rs: seq<Record>, t: seq<Neighbor>, filter: Filter, i: nat)
    requires FileValid(rs) && i < |rs|
    ensures i < |Merged(rs, t, filter)|
    ensures KeyOf(Merged(rs, t, filter)[i]) == KeyOf(rs[i])
    ensures Merged(rs, t, filter)[i] == Updated(t, filter, rs[i])
  {
    hide RecordValid, Updated, NewAll, KeysDistinct;
    UpdatedAt(t, filter, rs, i);
    UpdatedKeeps(t, filter, rs[i]);
  }

  /** After the old keys come keys that were not there, each with the live entry that offers it. */
  lemma NewKeysFollow(rs: seq<Record>, t: seq<Neighbor>, filter: Filter, j: nat)
    requires FileValid(rs) && |rs| <= j < |Merged(rs, t, filter)|
    ensures NewRecordOk(t, LiveSlots(t), filter, KeySet(rs), Merged(rs, t, filter)[j])
  {
    hide RecordValid, KeysDistinct, NewAll, NewRecordOk, UpdatedAll;
    NewAllSound(t, LiveSlots(t), filter, KeySet(rs), j - |rs|);
  }

  lemma WantedDistinct(rs: seq<Record>, t: seq<Neighbor>, filter: Filter)
    requires FileValid(rs) && TableDistinct(t)
    ensures KeysDistinct(Wanted(rs, t, filter))
  {
    hide RecordValid, Updated, RecordOf, Offers;
    var us, more := UpdatedAll(t, filter, rs), NewAll(t, LiveSlots(t), filter, KeySet(rs));
    forall i | 0 <= i < |us|
      ensures KeyOf(us[i]) == KeyOf(rs[i])
    {
      UpdatedAt(t, filter, rs, i);
      UpdatedKeeps(t, filter, rs[i]);
    }
    LiveSlotsAscending(t);
    NewAllDistinct(t, LiveSlots(t), filter, KeySet(rs));
    forall i, j | 0 <= i < |us| && 0 <= j < |more|
      ensures KeyOf(us[i]) != KeyOf(more[j])
    {
      NewAllSound(t, LiveSlots(t), filter, KeySet(rs), j);
      assert KeyOf(rs[i]) in KeySet(rs);
    }
    DistinctConcat(us, more);
  }

  lemma WantedValid(rs: seq<Record>, t: seq<Neighbor>, filter: Filter, j: nat)
    requires FileValid(rs) && TableStorable(t) && j < |Wanted(rs, t, filter)|
    ensures RecordValid(Wanted(rs, t, filter)[j])
  {
    hide RecordValid, Updated, RecordOf, Storable;
    var us := UpdatedAll(t, filter, rs);
    if j < |us| {
      UpdatedAt(t, filter, rs, j);
      UpdatedKeeps(t, filter, rs[j]);
    } else {
      var slots := LiveSlots(t);
      NewAllSound(t, slots, filter, KeySet(rs), j - |us|);
      var r := Wanted(rs, t, filter)[j];
      var k :| 0 <= k < |slots| && Offers(t[slots[k]], filter, KeyOf(r)) && r == RecordOf(r.protocol, t[slots[k]]);
      assert SlotStorable(t[slots[k]]);
      StorableValid(r.protocol, t[slots[k]]);
    }
  }

  lemma AllValidFrom(rs: seq<Record>)
    requires forall k :: 0 <= k < |rs| ==> RecordValid(rs[k])
    ensures AllValid(rs)
  {
  }

  /** The merged list can be stored and loaded back. */
  lemma MergedReloads(rs: seq<Record>, t: seq<Neighbor>, filter: Filter)
    requires FileValid(rs) && TableDistinct(t) && TableStorable(t)
    ensures FileValid(Merged(rs, t, filter))
    ensures Load(Some(FileBytes(Merged(rs, t, filter)))) == Ready(Merged(rs, t, filter))
  {
    hide RecordValid;
    WantedDistinct(rs, t, filter);
    forall j | 0 <= j < |Wanted(rs, t, filter)|
      ensures RecordValid(Wanted(rs, t, filter)[j])
    {
      WantedValid(rs, t, filter, j);
    }
    AllValidFrom(Merged(rs, t, filter));
    LoadWritten(Merged(rs, t, filter));
  }

  // ---- The merge as map override ----

  function IndexOf(rs: seq<Record>, k: Key): (i: nat)
    requires k in KeySet(rs)
    ensures i < |rs| && KeyOf(rs[i]) == k
  {
    if KeyOf(rs[0]) == k then 0 else
      var j :| 0 <= j < |rs| && KeyOf(rs[j]) == k;
      assert rs[1..][j - 1] == rs[j];
      1 + IndexOf(rs[1..], k)
  }

  /** The saved neighbours by key. */
  function Contents(rs: seq<Record>): map<Key, Neighbor>
    requires AllValid(rs)
  {
    map k | k in KeySet(rs) :: Restored(rs[IndexOf(rs, k)])
  }

  lemma ContentsAt(rs: seq<Record>, i: nat)
    requires FileValid(rs) && i < |rs|
    ensures KeyOf(rs[i]) in Contents(rs) && Contents(rs)[KeyOf(rs[i])] == Restored(rs[i])
  {
    hide RecordValid, KeysDistinct, Restored;
    IndexOfUnique(rs, i);
  }

  function LiveKeys(t: seq<Neighbor>, filter: Filter): set<Key> {
    set i, p | 0 <= i < |t| && t[i].occupied && Offers(t[i], filter, Key(t[i].mac, p)) :: Key(t[i].mac, p)
  }

  lemma FindLiveExact(t: seq<Neighbor>, filter: Filter, k: Key)
    ensures FindLive(t, filter, k).Some? <==> k in LiveKeys(t, filter)
    ensures FindLive(t, filter, k).Some? ==>
      exists i :: 0 <= i < |t| && t[i] == FindLive(t, filter, k).value && LiveAs(t[i], k.protocol) && t[i].mac == k.mac
  {
    if k in LiveKeys(t, filter) {
      var i, p :| 0 <= i < |t| && t[i].occupied && Offers(t[i], filter, Key(t[i].mac, p)) && k == Key(t[i].mac, p);
      assert Matches(t[i], k.mac, SourceBit(k.protocol));
    }
    if FindLive(t, filter, k).Some? {
      var i := FindFrom(t, k.mac, SourceBit(k.protocol), 0).value;
      assert Offers(t[i], filter, Key(t[i].mac, k.protocol));
    }
  }

  /** The live neighbours the filter asks for, as the history would store them. */
  function LiveMap(t: seq<Neighbor>, filter: Filter): map<Key, Neighbor> {
    map k | k in LiveKeys(t, filter) :: FindLiveExact(t, filter, k); Restrict(k.protocol, FindLive(t, filter, k).value)
  }

  /** Every string of every record is free of NULs, as in any file this code has written. */
  predicate RecordsNulFree(rs: seq<Record>) {
    forall k :: 0 <= k < |rs| ==> StringsNulFree(rs[k].protocol, rs[k].flags, rs[k].payload)
  }

  /** The saved neighbours with their texts cut at their NUL, as anything that is written reads back. */
  function Kept(rs: seq<Record>): map<Key, Neighbor>
    requires AllValid(rs)
  {
    map k | k in Contents(rs) :: Restrict(k.protocol, Contents(rs)[k])
  }

  /** Nothing is cut in files without NULs. */
  lemma KeptIsContents(rs: seq<Record>)
    requires FileValid(rs) && RecordsNulFree(rs)
    ensures Kept(rs) == Contents(rs)
  {
    hide RecordValid, Restored, Restrict, KeysDistinct, StringsNulFree, Rewritten;
    forall k | k in Contents(rs)
      ensures Restrict(k.protocol, Contents(rs)[k]) == Contents(rs)[k]
    {
      var r := rs[IndexOf(rs, k)];
      RewrittenReads(r);
      KeptExactly(r);
    }
  }

  /** Saved neighbours overridden by the live ones. */
  function Override(rs: seq<Record>, t: seq<Neighbor>, filter: Filter): map<Key, Neighbor>
    requires AllValid(rs)
  {
    Kept(rs) + LiveMap(t, filter)
  }

  lemma RestoredWritten(p: Protocol, n: Neighbor)
    requires Storable(p, n)
    ensures RecordValid(RecordOf(p, n)) && Restored(RecordOf(p, n)) == Restrict(p, n)
  {
    RecordOfValid(p, n);
  }

  lemma IndexOfUnique(rs: seq<Record>, i: nat)
    requires KeysDistinct(rs) && i < |rs|
    ensures KeyOf(rs[i]) in KeySet(rs) && IndexOf(rs, KeyOf(rs[i])) == i
  {
    assert KeyOf(rs[i]) in KeySet(rs);
  }

  /** The one entry that is live under a key is the one the lookup finds. */
  lemma FindLiveUnique(t: seq<Neighbor>, filter: Filter, k: Key, s: nat)
    requires TableDistinct(t) && s < |t| && t[s].occupied && Offers(t[s], filter, k)
    ensures k in LiveKeys(t, filter) && FindLive(t, filter, k) == Some(t[s])
  {
    assert Key(t[s].mac, k.protocol) in LiveKeys(t, filter);
    FindLiveExact(t, filter, k);
    var i :| 0 <= i < |t| && t[i] == FindLive(t, filter, k).value && LiveAs(t[i], k.protocol) && t[i].mac == k.mac;
    assert LiveAs(t[s], k.protocol);
  }

  lemma OldEntry(rs: seq<Record>, t: seq<Neighbor>, filter: Filter, j: nat)
    requires FileValid(rs) && TableStorable(t) && j < |rs|
    ensures var r := Updated(t, filter, rs[j]);
      RecordValid(r) && KeyOf(r) in Override(rs, t, filter) && Restored(r) == Override(rs, t, filter)[KeyOf(r)]
  {
    hide RecordValid, Storable, Restored, RecordOf, Restrict, FindLive, Rewritten;
    var k := KeyOf(rs[j]);
    UpdatedKeeps(t, filter, rs[j]);
    FindLiveExact(t, filter, k);
    IndexOfUnique(rs, j);
    match FindLive(t, filter, k) {
      case Some(live) =>
        assert SlotStorable(live);
        RestoredWritten(k.protocol, live);
        assert k in LiveMap(t, filter);
      case None =>
        assert k !in LiveMap(t, filter) && k in Kept(rs);
        RewrittenReads(rs[j]);
    }
  }

  lemma NewEntry(rs: seq<Record>, t: seq<Neighbor>, filter: Filter, r: Record)
    requires FileValid(rs) && TableStorable(t) && TableDistinct(t)
    requires NewRecordOk(t, LiveSlots(t), filter, KeySet(rs), r)
    ensures RecordValid(r) && KeyOf(r) in Override(rs, t, filter)
    ensures Restored(r) == Override(rs, t, filter)[KeyOf(r)]
  {
    hide RecordValid, Storable, Restored, RecordOf, Restrict, FindLive, Contents, KeysDistinct;
    var slots, k := LiveSlots(t), KeyOf(r);
    var a :| 0 <= a < |slots| && Offers(t[slots[a]], filter, k) && r == RecordOf(r.protocol, t[slots[a]]);
    FindLiveUnique(t, filter, k, slots[a]);
    assert SlotStorable(t[slots[a]]);
    RestoredWritten(k.protocol, t[slots[a]]);
    assert k in LiveMap(t, filter);
  }

  lemma MergedEntry(rs: seq<Record>, t: seq<Neighbor>, filter: Filter, j: nat)
    requires FileValid(rs) && TableStorable(t) && TableDistinct(t)
    requires j < |Merged(rs, t, filter)|
    ensures var r := Merged(rs, t, filter)[j];
      RecordValid(r) && KeyOf(r) in Override(rs, t, filter) && Restored(r) == Override(rs, t, filter)[KeyOf(r)]
  {
    hide RecordValid, KeysDistinct, TableStorable, TableDistinct, Merged, Restored, Override, Updated, NewRecordOk;
    if j < |rs| {
      OldKeysKept(rs, t, filter, j);
      OldEntry(rs, t, filter, j);
    } else {
      NewKeysFollow(rs, t, filter, j);
      NewEntry(rs, t, filter, Merged(rs, t, filter)[j]);
    }
  }

  lemma {:induction false} KeySetSize(rs: seq<Record>)
    requires KeysDistinct(rs)
    ensures |KeySet(rs)| == |rs|
  {
    if rs != [] {
      var n := |rs| - 1;
      KeySetSize(rs[..n]);
      assert KeySet(rs) == KeySet(rs[..n]) + {KeyOf(rs[n])};
      assert forall i :: 0 <= i < n ==> KeyOf(rs[i]) != KeyOf(rs[n]);
    } else {
      assert KeySet(rs) == {};
    }
  }

  /** Nothing wanted is missing: every saved key and every live key. */
  lemma WantedKeys(rs: seq<Record>, t: seq<Neighbor>, filter: Filter)
    requires FileValid(rs) && TableDistinct(t) && TableStorable(t)
    ensures KeySet(rs) + LiveKeys(t, filter) <= KeySet(Wanted(rs, t, filter))
  {
    hide RecordValid, Updated, RecordOf, Offers;
    var w := Wanted(rs, t, filter);
    forall k | k in KeySet(rs)
      ensures k in KeySet(w)
    {
      var i := IndexOf(rs, k);
      UpdatedAt(t, filter, rs, i);
      UpdatedKeeps(t, filter, rs[i]);
      assert KeyOf(w[i]) == k;
    }
    forall k | k in LiveKeys(t, filter) && k !in KeySet(rs)
      ensures k in KeySet(w)
    {
      LiveKeyWanted(rs, t, filter, k);
    }
  }

  lemma LiveKeyWanted(rs: seq<Record>, t: seq<Neighbor>, filter: Filter, k: Key)
    requires AllValid(rs) && TableStorable(t) && k in LiveKeys(t, filter) && k !in KeySet(rs)
    ensures k in KeySet(Wanted(rs, t, filter))
  {
    hide RecordValid, UpdatedAll, NewAll, RecordOf, StringsTerminated, KeySet;
    var i, p :| 0 <= i < |t| && t[i].occupied && Offers(t[i], filter, Key(t[i].mac, p)) && k == Key(t[i].mac, p);
    LiveSlotsAscending(t);
    assert SlotStorable(t[i]);
    var slots := LiveSlots(t);
    var a :| 0 <= a < |slots| && slots[a] == i;
    NewAllComplete(t, slots, filter, KeySet(rs), a, p);
    RecordKeys(t[i]);
    KeyOfMember(Wanted(rs, t, filter), RecordOf(p, t[i]));
  }

  lemma KeyOfMember(rs: seq<Record>, r: Record)
    requires r in rs
    ensures KeyOf(r) in KeySet(rs)
  {
  }

  lemma MergedKeys(rs: seq<Record>, t: seq<Neighbor>, filter: Filter)
    requires FileValid(rs)
    ensures KeySet(rs) <= KeySet(Merged(rs, t, filter))
  {
    hide RecordValid, Updated, Merged;
    var m := Merged(rs, t, filter);
    forall k | k in KeySet(rs)
      ensures k in KeySet(m)
    {
      var i := IndexOf(rs, k);
      OldKeysKept(rs, t, filter, i);
      assert KeyOf(m[i]) == k;
    }
  }

  lemma MergedValues(rs: seq<Record>, t: seq<Neighbor>, filter: Filter, m: seq<Record>)
    requires FileValid(rs) && TableStorable(t) && TableDistinct(t)
    requires m == Merged(rs, t, filter) && AllValid(m)
    ensures forall k :: k in Contents(m) ==>
      k in Override(rs, t, filter) && Contents(m)[k] == Override(rs, t, filter)[k]
  {
    hide RecordValid, Restored, Override, Merged, TableDistinct, TableStorable;
    forall k | k in KeySet(m)
      ensures k in Override(rs, t, filter) && Contents(m)[k] == Override(rs, t, filter)[k]
    {
      MergedEntry(rs, t, filter, IndexOf(m, k));
    }
  }

  /**
   The merged file read back is the saved neighbours overridden by the live ones:
   no wrong value, every saved key, and as many keys as there is room for.
   */
  lemma MergedIsOverride(rs: seq<Record>, t: seq<Neighbor>, filter: Filter)
    requires FileValid(rs) && TableStorable(t) && TableDistinct(t)
    ensures var m, full := Merged(rs, t, filter), Override(rs, t, filter);
      && FileValid(m)
      && KeySet(rs) <= KeySet(m) <= full.Keys
      && (forall k :: k in Contents(m) ==> Contents(m)[k] == full[k])
      && |m| == (if |full| <= 32 then |full| else 32)
      && (|full| <= 32 ==> Contents(m) == full)
  {
    hide RecordValid, Contents, Override, Merged, Wanted, TableDistinct, TableStorable, KeysDistinct;
    var m, full := Merged(rs, t, filter), Override(rs, t, filter);
    MergedReloads(rs, t, filter);
    MergedKeys(rs, t, filter);
    MergedValues(rs, t, filter, m);
    OverrideSize(rs, t, filter);
    KeySetSize(m);
    MergedSize(rs, t, filter);
    ContentsKeys(m);
    SubmapComplete(Contents(m), full);
  }

  /** From a file without NULs, as this code writes them, nothing saved is altered. */
  lemma MergedIsExactOverride(rs: seq<Record>, t: seq<Neighbor>, filter: Filter)
    requires FileValid(rs) && RecordsNulFree(rs) && TableStorable(t) && TableDistinct(t)
    ensures var m, full := Merged(rs, t, filter), Contents(rs) + LiveMap(t, filter);
      && FileValid(m) && KeySet(rs) <= KeySet(m) <= full.Keys
      && (forall k :: k in Contents(m) ==> Contents(m)[k] == full[k])
      && (|full| <= 32 ==> Contents(m) == full)
  {
    hide RecordValid, Contents, Kept, LiveMap, Merged, RecordsNulFree, TableDistinct, TableStorable, KeysDistinct;
    MergedIsOverride(rs, t, filter);
    KeptIsContents(rs);
  }

  lemma MergedSize(rs: seq<Record>, t: seq<Neighbor>, filter: Filter)
    requires AllValid(rs)
    ensures var w := |Wanted(rs, t, filter)|; |Merged(rs, t, filter)| == if w <= MAX_RECORDS then w else MAX_RECORDS
  {
    hide RecordValid, Wanted;
  }

  lemma ContentsKeys(rs: seq<Record>)
    requires AllValid(rs) && KeysDistinct(rs)
    ensures Contents(rs).Keys == KeySet(rs) && |Contents(rs)| == |rs|
  {
    hide RecordValid, KeysDistinct;
    KeySetSize(rs);
    assert |Contents(rs)| == |Contents(rs).Keys|;
  }

  lemma SubmapComplete(part: map<Key, Neighbor>, full: map<Key, Neighbor>)
    requires forall k :: k in part ==> k in full && part[k] == full[k]
    ensures part.Keys <= full.Keys
    ensures |part| == |full| ==> part == full
  {
    if |part| == |full| {
      assert |part| == |part.Keys| && |full| == |full.Keys|;
      SubsetOfSameSize(part.Keys, full.Keys);
    }
  }

  lemma SubsetOfSameSize<T>(a: set<T>, b: set<T>)
    requires a <= b && |a| == |b|
    ensures a == b
  {
    if x :| x in b && x !in a {
      StrictSubsetSize(a, b);
    }
  }

  lemma {:induction false} StrictSubsetSize<T>(a: set<T>, b: set<T>)
    requires a < b
    ensures |a| < |b|
  {
    if x :| x in a {
      StrictSubsetSize(a - {x}, b - {x});
    }
  }

  /** The override has exactly the wanted keys. */
  lemma OverrideSize(rs: seq<Record>, t: seq<Neighbor>, filter: Filter)
    requires FileValid(rs) && TableDistinct(t) && TableStorable(t)
    ensures Override(rs, t, filter).Keys == KeySet(Wanted(rs, t, filter))
    ensures |Override(rs, t, filter)| == |Wanted(rs, t, filter)|
  {
    hide RecordValid, Updated, RecordOf, Restored, Restrict, Wanted, LiveKeys, KeysDistinct, TableDistinct;
    hide TableStorable;
    var w, full := Wanted(rs, t, filter), Override(rs, t, filter);
    WantedKeys(rs, t, filter);
    WantedDistinct(rs, t, filter);
    KeySetSize(w);
    assert full.Keys == KeySet(rs) + LiveKeys(t, filter);
    forall k | k in KeySet(w)
      ensures k in full
    {
      WantedKey(rs, t, filter, IndexOf(w, k));
    }
    assert full.Keys == KeySet(w);
    assert |full| == |full.Keys|;
  }

  lemma NewRecordLive(t: seq<Neighbor>, slots: seq<nat>, filter: Filter, known: set<Key>, r: Record)
    requires Ascending(t, slots) && NewRecordOk(t, slots, filter, known, r)
    ensures KeyOf(r) in LiveKeys(t, filter)
  {
    var k := KeyOf(r);
    var a :| 0 <= a < |slots| && Offers(t[slots[a]], filter, k);
    assert Key(t[slots[a]].mac, k.protocol) in LiveKeys(t, filter);
  }

  lemma WantedKey(rs: seq<Record>, t: seq<Neighbor>, filter: Filter, j: nat)
    requires FileValid(rs) && j < |Wanted(rs, t, filter)|
    ensures KeyOf(Wanted(rs, t, filter)[j]) in KeySet(rs) + LiveKeys(t, filter)
  {
    hide RecordValid, Updated, RecordOf, KeysDistinct, NewAll, NewRecordOk;
    if j < |rs| {
      UpdatedAt(t, filter, rs, j);
      UpdatedKeeps(t, filter, rs[j]);
      assert KeyOf(rs[j]) in KeySet(rs);
    } else {
      LiveSlotsAscending(t);
      NewAllSound(t, LiveSlots(t), filter, KeySet(rs), j - |rs|);
      NewRecordLive(t, LiveSlots(t), filter, KeySet(rs), Wanted(rs, t, filter)[j]);
    }
  }

  // ---- Table order ----

  lemma NewOfOrdered(n: Neighbor, filter: Filter, known: set<Key>, i: nat, j: nat)
    requires i < j < |NewOf(n, filter, known)|
    ensures var rs := NewOf(n, filter, known); ProtocolCode(rs[i].protocol) < ProtocolCode(rs[j].protocol)
  {
    hide RecordOf, Offers;
    RecordKeys(n);
  }

  /** New records come in slot order, and within a slot in protocol order; a and b are the slots' positions. */
  lemma {:induction false} NewAllOrdered(t: seq<Neighbor>, slots: seq<nat>, filter: Filter, known: set<Key>, i: nat,
                                         j: nat)
    returns (a: nat, b: nat)
    requires forall k :: 0 <= k < |slots| ==> slots[k] < |t|
    requires i < j < |NewAll(t, slots, filter, known)|
    ensures var rs := NewAll(t, slots, filter, known);
      && a <= b < |slots|
      && rs[i] == RecordOf(rs[i].protocol, t[slots[a]]) && rs[j] == RecordOf(rs[j].protocol, t[slots[b]])
      && (a == b ==> ProtocolCode(rs[i].protocol) < ProtocolCode(rs[j].protocol))
    decreases |slots|
  {
    hide RecordOf, Offers, NewOf;
    var first, more := NewOf(t[slots[0]], filter, known), NewAll(t, slots[1..], filter, known);
    var rs := NewAll(t, slots, filter, known);
    NewOfExact(t[slots[0]], filter, known);
    if j < |first| {
      NewOfOrdered(t[slots[0]], filter, known, i, j);
      return 0, 0;
    }
    if |first| <= i {
      a, b := NewAllOrdered(t, slots[1..], filter, known, i - |first|, j - |first|);
      return a + 1, b + 1;
    }
    NewAllSound(t, slots[1..], filter, known, j - |first|);
    var k :| 0 <= k < |slots[1..]| && Offers(t[slots[1..][k]], filter, KeyOf(rs[j])) &&
      rs[j] == RecordOf(rs[j].protocol, t[slots[1..][k]]);
    return 0, k + 1;
  }

  // ---- Clearing ----

  /** The records of the protocols the filter leaves alone. */
  function Remaining(rs: seq<Record>, filter: Filter): (kept: seq<Record>)
    requires AllValid(rs)
    ensures |kept| <= |rs|
  {
    if rs == [] then []
    else
      var n := |rs| - 1;
      var kept := Remaining(rs[..n], filter);
      if FilterMatches(filter, rs[n].protocol) then kept else kept + [Rewritten(rs[n])]
  }

  lemma {:induction false} RemainingExact(rs: seq<Record>, filter: Filter)
    requires AllValid(rs) && KeysDistinct(rs)
    ensures AllValid(Remaining(rs, filter)) && KeysDistinct(Remaining(rs, filter))
    ensures forall k :: k in KeySet(Remaining(rs, filter)) <==> k in KeySet(rs) && !FilterMatches(filter, k.protocol)
  {
    hide RecordValid, FilterMatches, Rewritten, KeySet, KeysDistinct, AllValid, RecordsNulFree;
    if rs == [] {
      EmptyKeySet();
      NothingRemains(filter);
    } else {
      var n := |rs| - 1;
      var before, r := rs[..n], rs[n];
      FrontValid(rs);
      var kept := Remaining(before, filter);
      RemainingExact(before, filter);
      KeySetSnoc(before, r);
      assert rs == before + [r];
      LastKeyNew(before, r);
      if !FilterMatches(filter, r.protocol) {
        RewrittenReads(r);
        var w := Rewritten(r);
        KeySetSnoc(kept, w);
        SnocDistinct(kept, w);
        AllValidSnoc(kept, w);
      }
    }
  }

  lemma NothingRemains(filter: Filter)
    ensures AllValid([]) && KeysDistinct([]) && Remaining([], filter) == []
  {
  }

  lemma FrontValid(rs: seq<Record>)
    requires AllValid(rs) && KeysDistinct(rs) && rs != []
    ensures AllValid(rs[..|rs| - 1]) && KeysDistinct(rs[..|rs| - 1]) && RecordValid(rs[|rs| - 1])
  {
    hide RecordValid;
  }

  lemma EmptyKeySet()
    ensures KeySet([]) == {}
  {
  }

  lemma KeySetSnoc(rs: seq<Record>, r: Record)
    ensures KeySet(rs + [r]) == KeySet(rs) + {KeyOf(r)}
  {
    assert forall i :: 0 <= i < |rs| ==> (rs + [r])[i] == rs[i];
    assert (rs + [r])[|rs|] == r;
  }

  lemma LastKeyNew(rs: seq<Record>, r: Record)
    requires KeysDistinct(rs + [r])
    ensures KeyOf(r) !in KeySet(rs)
  {
    var all := rs + [r];
    assert forall i :: 0 <= i < |rs| ==> all[i] == rs[i] && KeyOf(all[i]) != KeyOf(all[|rs|]);
  }

  lemma SnocDistinct(rs: seq<Record>, r: Record)
    requires KeysDistinct(rs) && KeyOf(r) !in KeySet(rs)
    ensures KeysDistinct(rs + [r])
  {
  }

  lemma {:induction false} RemainingFromOld(rs: seq<Record>, filter: Filter, i: nat) returns (j: nat)
    requires AllValid(rs) && i < |Remaining(rs, filter)|
    ensures j < |rs| && Remaining(rs, filter)[i] == Rewritten(rs[j])
  {
    hide RecordValid, FilterMatches, Rewritten;
    var n := |rs| - 1;
    if i < |Remaining(rs[..n], filter)| {
      j := RemainingFromOld(rs[..n], filter, i);
    } else {
      j := n;
    }
  }

  lemma RemainingNulFree(rs: seq<Record>, filter: Filter)
    requires AllValid(rs)
    ensures RecordsNulFree(Remaining(rs, filter))
  {
    hide Remaining, StringsNulFree, RecordValid, Restored, Restrict, Rewritten;
    var m := Remaining(rs, filter);
    forall i | 0 <= i < |m|
      ensures StringsNulFree(m[i].protocol, m[i].flags, m[i].payload)
    {
      var j := RemainingFromOld(rs, filter, i);
      RewrittenReads(rs[j]);
    }
  }

  lemma RemainingEntry(rs: seq<Record>, filter: Filter, m: seq<Record>, k: Key)
    requires AllValid(rs) && KeysDistinct(rs) && m == Remaining(rs, filter) && AllValid(m) && k in KeySet(m)
    ensures k in Contents(rs) && Contents(m)[k] == Restrict(k.protocol, Contents(rs)[k])
  {
    hide RecordValid, Remaining, KeysDistinct, Restored, Restrict, Rewritten;
    var j := RemainingFromOld(rs, filter, IndexOf(m, k));
    RewrittenReads(rs[j]);
    IndexOfUnique(rs, j);
  }

  /**
   Clearing removes exactly the filtered protocols and leaves every other saved neighbour
   as it was, apart from what follows a NUL in its texts.
   */
  lemma ClearedContents(rs: seq<Record>, filter: Filter)
    requires FileValid(rs)
    ensures var m := Remaining(rs, filter);
      && FileValid(m) && RecordsNulFree(m)
      && Load(Some(FileBytes(m))) == Ready(m)
      && Contents(m) == Without(Kept(rs), filter)
    ensures RecordsNulFree(rs) ==> Contents(Remaining(rs, filter)) == Without(Contents(rs), filter)
  {
    hide RecordValid, Restrict, Remaining, RecordsNulFree, KeysDistinct, AllValid, Contents, KeySet, Without;
    hide FilterMatches;
    WithoutExact(Kept(rs), filter);
    var m := Remaining(rs, filter);
    RemainingExact(rs, filter);
    LoadWritten(m);
    RemainingNulFree(rs, filter);
    ContentsKeys(m);
    ContentsKeys(rs);
    forall k | k in Contents(m)
      ensures k in Contents(rs) && Contents(m)[k] == Kept(rs)[k]
    {
      RemainingEntry(rs, filter, m, k);
    }
    SameMap(Contents(m), Without(Kept(rs), filter));
    if RecordsNulFree(rs) {
      KeptIsContents(rs);
    }
  }

  /** The entries of the protocols the filter leaves alone. */
  function Without(contents: map<Key, Neighbor>, filter: Filter): map<Key, Neighbor> {
    map k | k in contents && !(filter == All || filter == Only(k.protocol)) :: contents[k]
  }

  lemma WithoutExact(contents: map<Key, Neighbor>, filter: Filter)
    ensures forall k :: k in Without(contents, filter) <==> k in contents && !FilterMatches(filter, k.protocol)
    ensures forall k :: k in Without(contents, filter) ==> Without(contents, filter)[k] == contents[k]
  {
  }

  lemma SameMap<K, V>(a: map<K, V>, b: map<K, V>)
    requires a.Keys == b.Keys && forall k :: k in a ==> a[k] == b[k]
    ensures a == b
  {
  }

  // ---- Closure: what this code writes it can rewrite byte for byte ----

  lemma UpdatedNulFree(t: seq<Neighbor>, filter: Filter, r: Record)
    requires RecordValid(r) && TableStorable(t)
    ensures var u := Updated(t, filter, r); StringsNulFree(u.protocol, u.flags, u.payload)
  {
    hide RecordValid, Restored, StringsTerminated, StringsNulFree;
    match FindLive(t, filter, KeyOf(r)) {
      case Some(live) =>
        assert SlotStorable(live);
        WrittenNulFree(r.protocol, live);
      case None =>
        RestoredStorable(r);
        WrittenNulFree(r.protocol, Restored(r));
    }
  }

  lemma MergedNulFree(rs: seq<Record>, t: seq<Neighbor>, filter: Filter)
    requires FileValid(rs) && TableStorable(t)
    ensures RecordsNulFree(Merged(rs, t, filter))
  {
    hide RecordValid, Updated, RecordOf, Merged, StringsNulFree, StringsTerminated, KeysDistinct;
    var m := Merged(rs, t, filter);
    forall j | 0 <= j < |m|
      ensures StringsNulFree(m[j].protocol, m[j].flags, m[j].payload)
    {
      if j < |rs| {
        OldKeysKept(rs, t, filter, j);
        UpdatedNulFree(t, filter, rs[j]);
      } else {
        NewKeysFollow(rs, t, filter, j);
        var slots, r := LiveSlots(t), m[j];
        var k :| 0 <= k < |slots| && Offers(t[slots[k]], filter, KeyOf(r)) && r == RecordOf(r.protocol, t[slots[k]]);
        assert SlotStorable(t[slots[k]]);
        RecordNulFree(r.protocol, t[slots[k]]);
      }
    }
  }

  lemma RecordNulFree(p: Protocol, n: Neighbor)
    requires StringsTerminated(p, n)
    ensures var r := RecordOf(p, n); StringsNulFree(r.protocol, r.flags, r.payload)
  {
    WrittenNulFree(p, n);
  }

  // ---- A load that fails although the file is good ----

  lemma NothingSaved()
    ensures FileValid([]) && RecordsNulFree([]) && KeySet([]) == {}
  {
    hide RecordValid;
    EmptyKeySet();
  }

  lemma NothingSavedOverride(t: seq<Neighbor>, filter: Filter)
    requires AllValid([])
    ensures Override([], t, filter) == LiveMap(t, filter)
  {
    hide RecordValid, Restrict, LiveMap;
    EmptyKeySet();
    assert Kept([]) == map[];
  }

  /**
   When storage fails during the load, the merge goes on as if nothing had been saved
   and still reports success. What it writes is the live entries alone. That is what the
   merge should have written exactly when every saved key is live.
   */
  lemma FailedLoadExact(rs: seq<Record>, t: seq<Neighbor>, filter: Filter)
    requires FileValid(rs) && TableDistinct(t) && TableStorable(t) && |LiveKeys(t, filter)| <= MAX_RECORDS
    ensures FileValid(Merged([], t, filter)) && Contents(Merged([], t, filter)) == LiveMap(t, filter)
    ensures Contents(Merged([], t, filter)) == Override(rs, t, filter) <==> KeySet(rs) <= LiveKeys(t, filter)
  {
    hide RecordValid, TableDistinct, TableStorable, Merged, Contents, LiveKeys, Restored, Restrict, KeysDistinct;
    NothingSaved();
    MergedIsOverride([], t, filter);
    NothingSavedOverride(t, filter);
    assert |LiveMap(t, filter)| == |LiveMap(t, filter).Keys|;
    assert LiveMap(t, filter).Keys == LiveKeys(t, filter);
    ContentsKeys(rs);
    OverriddenEntirely(Kept(rs), LiveMap(t, filter));
  }

  /**
   A clear whose load failed on storage goes on likewise and leaves nothing. That is what
   it should have left exactly when the filter takes every saved key.
   */
  lemma FailedClearExact(rs: seq<Record>, filter: Filter)
    requires FileValid(rs)
    ensures FileValid(Remaining([], filter)) && Remaining([], filter) == []
    ensures Contents(Remaining([], filter)) == Without(Kept(rs), filter) <==>
      forall k :: k in KeySet(rs) ==> FilterMatches(filter, k.protocol)
  {
    hide RecordValid, KeysDistinct, Restored, Restrict, FilterMatches, KeySet, Contents, Without;
    WithoutExact(Kept(rs), filter);
    NothingSaved();
    ContentsKeys([]);
    ContentsKeys(rs);
    if k :| k in KeySet(rs) && !FilterMatches(filter, k.protocol) {
      assert k in Without(Kept(rs), filter);
    } else {
      SameMap(Contents([]), Without(Kept(rs), filter));
    }
  }

  /** What was saved before more was added is kept as it was. */
  lemma KeptEarlier(rs: seq<Record>, added: seq<Record>, k: Key)
    requires FileValid(rs) && FileValid(rs + added) && k in KeySet(rs)
    ensures k in KeySet(rs + added) && Kept(rs)[k] == Kept(rs + added)[k]
  {
    hide RecordValid, KeysDistinct, Restored, Restrict;
    var j := IndexOf(rs, k);
    assert (rs + added)[j] == rs[j];
    IndexOfUnique(rs + added, j);
  }

  /**
   Clearing the earlier records only, as through an index from before more were added, forgets
   the later ones. That is right exactly when the filter takes every key that was added.
   */
  lemma ClearedEarlierExact(rs: seq<Record>, added: seq<Record>, filter: Filter)
    requires FileValid(rs) && FileValid(rs + added)
    ensures FileValid(Remaining(rs, filter))
    ensures Contents(Remaining(rs, filter)) == Without(Kept(rs + added), filter) <==>
      forall k :: k in KeySet(rs + added) && !FilterMatches(filter, k.protocol) ==> k in KeySet(rs)
  {
    hide RecordValid, KeysDistinct, AllValid, Restored, Restrict, FilterMatches, KeySet, Contents, Remaining;
    hide RecordsNulFree, Without;
    WithoutExact(Kept(rs), filter);
    WithoutExact(Kept(rs + added), filter);
    ClearedContents(rs, filter);
    ContentsKeys(rs);
    ContentsKeys(rs + added);
    var part, whole := Without(Kept(rs), filter), Without(Kept(rs + added), filter);
    forall k | k in part
      ensures k in whole && part[k] == whole[k]
    {
      KeptEarlier(rs, added, k);
    }
    if forall k :: k in KeySet(rs + added) && !FilterMatches(filter, k.protocol) ==> k in KeySet(rs) {
      SameMap(part, whole);
    } else {
      var k :| k in KeySet(rs + added) && !FilterMatches(filter, k.protocol) && k !in KeySet(rs);
      assert k in whole && k !in part;
    }
  }

  lemma OverriddenEntirely<K, V>(a: map<K, V>, b: map<K, V>)
    ensures b == a + b <==> a.Keys <= b.Keys
  {
    if a.Keys <= b.Keys {
      SameMap(b, a + b);
    } else {
      var k :| k in a.Keys && k !in b.Keys;
      assert k in a + b;
    }
  }
}
