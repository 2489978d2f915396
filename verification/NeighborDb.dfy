/**
 The live table of discovered neighbours: 32 slots scanned and overwritten in place.
 The table may not be allocated, in which case it behaves as if it had no slots.
 */
module NeighborDb {
  import opened Bytes
  import opened Neighbors
  import G = StartupGuard

  const MAX_ENTRIES := 32

  // ---- The table as a sequence of slots ----

  /** Slot contents found by a lookup for the address and source. */
  predicate Matches(n: Neighbor, mac: MacAddress, source: byte) {
    n.occupied && n.mac == mac && HasSource(n, source)
  }

  /** First slot at or after i that matches. */
  function FindFrom(t: seq<Neighbor>, mac: MacAddress, source: byte, i: nat): (r: Option<nat>)
    requires i <= |t|
    ensures r.Some? ==> i <= r.value < |t| && Matches(t[r.value], mac, source)
    ensures r.Some? ==> forall k :: i <= k < r.value ==> !Matches(t[k], mac, source)
    ensures r.None? ==> forall k :: i <= k < |t| ==> !Matches(t[k], mac, source)
    decreases |t| - i
  {
    if i == |t| then None else if Matches(t[i], mac, source) then Some(i) else FindFrom(t, mac, source, i + 1)
  }

  /** First slot at or after i that is free. */
  function FreeFrom(t: seq<Neighbor>, i: nat): (r: Option<nat>)
    requires i <= |t|
    ensures r.Some? ==> i <= r.value < |t| && !t[r.value].occupied
    ensures r.Some? ==> forall k :: i <= k < r.value ==> t[k].occupied
    ensures r.None? ==> forall k :: i <= k < |t| ==> t[k].occupied
    decreases |t| - i
  {
    if i == |t| then None else if !t[i].occupied then Some(i) else FreeFrom(t, i + 1)
  }

  /** Which entries an enumeration visits. */
  datatype Select = Everyone | From(mask: byte)

  predicate Selected(n: Neighbor, select: Select) {
    n.occupied && (select.From? ==> HasSource(n, select.mask))
  }

  /** The selected slots at or after i, in slot order. */
  function SlotsFrom(t: seq<Neighbor>, select: Select, i: nat): seq<nat>
    requires i <= |t|
    decreases |t| - i
  {
    if i == |t| then []
    else if Selected(t[i], select) then [i] + SlotsFrom(t, select, i + 1)
    else SlotsFrom(t, select, i + 1)
  }

  /** The enumeration visits exactly the selected slots, each once, in increasing order. */
  lemma {:induction false} SlotsExact(t: seq<Neighbor>, select: Select, i: nat)
    requires i <= |t|
    ensures var s := SlotsFrom(t, select, i);
      && (forall a, b :: 0 <= a < b < |s| ==> s[a] < s[b])
      && (forall k :: k in s <==> i <= k < |t| && Selected(t[k], select))
    decreases |t| - i
  {
    if i < |t| {
      SlotsExact(t, select, i + 1);
      var s, more := SlotsFrom(t, select, i), SlotsFrom(t, select, i + 1);
      if Selected(t[i], select) {
        assert s == [i] + more;
        forall a, b | 0 <= a < b < |s|
          ensures s[a] < s[b]
        {
          assert s[b] == more[b - 1] && more[b - 1] in more;
        }
      }
    }
  }

  function Occupied(n: Neighbor): Neighbor {
    n.(occupied := true)
  }

  /** The table after an entry is added: in place of its namesake, else in the first free slot. */
  function Added(t: seq<Neighbor>, n: Neighbor): (r: Option<seq<Neighbor>>)
    ensures r.Some? ==> |r.value| == |t|
  {
    match FindFrom(t, n.mac, n.sources, 0)
    case Some(i) => Some(t[i := Occupied(n)])
    case None =>
      match FreeFrom(t, 0)
      case Some(i) => Some(t[i := Occupied(n)])
      case None => None
  }

  /** The slot holds an entry for the address with a source in common. */
  predicate SameEntry(n: Neighbor, m: Neighbor) {
    m.occupied && m.mac == n.mac && And(m.sources, n.sources) != 0
  }

  /** Slot i is where n belongs: its first entry, or the lowest free slot of a table without one. */
  predicate BelongsAt(t: seq<Neighbor>, n: Neighbor, i: nat) {
    && i < |t|
    && (SameEntry(n, t[i]) || (!t[i].occupied && forall k :: 0 <= k < |t| ==> !SameEntry(n, t[k])))
    && forall k :: 0 <= k < i ==> !SameEntry(n, t[k]) && (t[i].occupied || t[k].occupied)
  }

  /** An entry is refused only by a full table without its namesake; else it is put where it belongs, and only there. */
  lemma AddedExact(t: seq<Neighbor>, n: Neighbor)
    ensures Added(t, n).None? <==> forall k :: 0 <= k < |t| ==> t[k].occupied && !SameEntry(n, t[k])
    ensures Added(t, n).Some? ==>
      exists i: nat :: BelongsAt(t, n, i) && Added(t, n).value == t[i := n.(occupied := true)]
  {
    assert forall k :: 0 <= k < |t| ==> (SameEntry(n, t[k]) <==> Matches(t[k], n.mac, n.sources));
    var found, free := FindFrom(t, n.mac, n.sources, 0), FreeFrom(t, 0);
    if found.Some? {
      assert BelongsAt(t, n, found.value);
    } else if free.Some? {
      assert BelongsAt(t, n, free.value);
    }
  }

  /** One slot after the sources in the mask are forgotten. */
  function ClearedSlot(n: Neighbor, mask: byte): Neighbor {
    if !n.occupied then n
    else
      AndNotBound(n.sources, mask);
      var left := AndNot(n.sources, mask);
      if left == 0 then EMPTY else n.(sources := left)
  }

  lemma {:induction false} AndNotBound(a: nat, b: nat)
    ensures AndNot(a, b) <= a
  {
    if a > 0 {
      AndNotBound(a / 2, b / 2);
    }
  }

  // ---- The table in memory ----

  const POST_ALLOC_RESERVE := 1024
  const PASSIVE_DB: byte := 1

  /** Entries of a size whose table stays clear of the end of the address space. */
  predicate SizeOk(entrySize: nat) {
    MAX_ENTRIES * entrySize <= 0xFFFF_0000
  }

  /** What the guard is asked before the table is allocated: one block, and a reserve beside it. */
  function TableRequirements(entrySize: nat): G.Requirements
    requires SizeOk(entrySize)
  {
    var block := (MAX_ENTRIES * entrySize + 8 + 7) / 8 * 8;
    G.Requirements(block + POST_ALLOC_RESERVE, block)
  }

  /** When the guard says Ready, a first-fit allocator serves the table and the reserve stays free, up to the slack. */
  lemma TableServed(blocks: G.FreeList, freeHeap: u32, maxBlock: u32, entrySize: nat, slack: nat)
    requires SizeOk(entrySize) && G.Readings(blocks, freeHeap, maxBlock)
    requires G.Evaluate(freeHeap, maxBlock, TableRequirements(entrySize)) == G.Ready
    ensures var block := TableRequirements(entrySize).block;
      && block as int == G.TrueBlock(MAX_ENTRIES * entrySize)
      && var rest := G.Allocate(blocks, block, slack);
      rest.Some? && G.TotalFree(rest.value) >= 1024 - slack
  {
    hide G.Allocate, G.TotalFree;
    var block := TableRequirements(entrySize).block;
    assert G.HasBlock(blocks, block);
    G.AllocateExact(blocks, block, slack);
    G.AllocateCost(blocks, block, slack);
  }

  class Database {
    var neighbors: array?<Neighbor>

    ghost predicate Valid()
      reads this
    {
      neighbors != null ==> neighbors.Length == MAX_ENTRIES
    }

    function Table(): seq<Neighbor>
      reads this, neighbors
    {
      if neighbors == null then [] else neighbors[..]
    }

    constructor ()
      ensures Valid() && neighbors == null
    {
      neighbors := null;
    }

    /** Allocation of the zeroed table, after the guard has been asked; `granted` is the allocator's answer. */
    method Acquire(diagnostic: G.Snapshot, freeHeap: u32, maxBlock: u32, entrySize: nat, granted: bool)
      returns (answer: G.Answer)
      requires Valid() && SizeOk(entrySize)
      modifies this, diagnostic
      ensures Valid()
      ensures var guard := G.Evaluate(freeHeap, maxBlock, TableRequirements(entrySize));
        answer == if old(neighbors) != null then G.Ready
                  else if guard != G.Ready then guard
                  else if granted then G.Ready
                  else G.AllocationFailed
      ensures old(neighbors) != null ==> neighbors == old(neighbors)
      ensures old(neighbors) == null && answer == G.Ready ==>
        fresh(neighbors) && Table() == seq(MAX_ENTRIES, _ => EMPTY)
      ensures answer != G.Ready ==> neighbors == null
      ensures diagnostic.result == answer && diagnostic.valid == (answer != G.Ready)
      ensures old(neighbors) == null ==>
        var r := TableRequirements(entrySize);
        && diagnostic.freeHeap == freeHeap && diagnostic.maxBlock == maxBlock
        && diagnostic.requiredTotal == r.total && diagnostic.requiredBlock == r.block
    {
      if neighbors != null {
        diagnostic.Clear();
        return G.Ready;
      }
      answer := diagnostic.CheckCapture(freeHeap, maxBlock, TableRequirements(entrySize), PASSIVE_DB);
      if answer != G.Ready {
        return;
      }
      if !granted {
        diagnostic.CaptureFailure(freeHeap, maxBlock, TableRequirements(entrySize), PASSIVE_DB);
        return G.AllocationFailed;
      }
      neighbors := new Neighbor[MAX_ENTRIES](_ => EMPTY);
    }

    method Release()
      modifies this
      ensures Valid() && Table() == []
    {
      neighbors := null;
    }

    method CountSelected(select: Select) returns (count: nat)
      requires Valid()
      ensures count == |SlotsFrom(Table(), select, 0)|
    {
      count := 0;
      if neighbors == null {
        return;
      }
      ghost var t := Table();
      for i := 0 to MAX_ENTRIES
        invariant count + |SlotsFrom(t, select, i)| == |SlotsFrom(t, select, 0)|
      {
        if neighbors[i].occupied && (select.From? ==> HasSource(neighbors[i], select.mask)) {
          count := count + 1;
        }
      }
    }

    method GetSelected(select: Select, position: nat) returns (slot: Option<nat>)
      requires Valid()
      ensures var s := SlotsFrom(Table(), select, 0);
        slot == if position < |s| then Some(s[position]) else None
    {
      if neighbors == null {
        return None;
      }
      ghost var t := Table();
      ghost var all := SlotsFrom(t, select, 0);
      var current := 0;
      for i := 0 to MAX_ENTRIES
        invariant current <= |all| && current <= position
        invariant all[current..] == SlotsFrom(t, select, i)
      {
        if neighbors[i].occupied && (select.From? ==> HasSource(neighbors[i], select.mask)) {
          assert all[current..][0] == i;
          if current == position {
            return Some(i);
          }
          current := current + 1;
        }
      }
      return None;
    }

    method FindBySource(mac: MacAddress, source: byte) returns (slot: Option<nat>)
      requires Valid()
      ensures slot == FindFrom(Table(), mac, source, 0)
    {
      if neighbors == null {
        return None;
      }
      for i := 0 to MAX_ENTRIES
        invariant FindFrom(Table(), mac, source, 0) == FindFrom(Table(), mac, source, i)
      {
        if neighbors[i].occupied && neighbors[i].mac == mac && HasSource(neighbors[i], source) {
          return Some(i);
        }
      }
      return None;
    }

    method Add(n: Neighbor) returns (ok: bool)
      requires Valid()
      modifies neighbors
      ensures ok == (neighbors != null && Added(old(Table()), n).Some?)
      ensures Table() == if ok then Added(old(Table()), n).value else old(Table())
    {
      if neighbors == null {
        return false;
      }
      var existing := FindBySource(n.mac, n.sources);
      if existing.Some? {
        neighbors[existing.value] := n.(occupied := true);
        return true;
      }
      for i := 0 to MAX_ENTRIES
        invariant Table() == old(Table())
        invariant FreeFrom(Table(), 0) == FreeFrom(Table(), i)
      {
        if !neighbors[i].occupied {
          neighbors[i] := n.(occupied := true);
          return true;
        }
      }
      return false;
    }

    method Update(n: Neighbor) returns (ok: bool)
      requires Valid()
      modifies neighbors
      ensures var found := FindFrom(old(Table()), n.mac, n.sources, 0);
        ok == found.Some? && Table() == if ok then old(Table())[found.value := Occupied(n)] else old(Table())
    {
      var existing := FindBySource(n.mac, n.sources);
      if existing.None? {
        return false;
      }
      neighbors[existing.value] := n.(occupied := true);
      return true;
    }

    method ClearBySource(mask: byte)
      requires Valid()
      modifies neighbors
      ensures |Table()| == |old(Table())|
      ensures forall k :: 0 <= k < |Table()| ==> Table()[k] == ClearedSlot(old(Table())[k], mask)
    {
      if neighbors == null {
        return;
      }
      for i := 0 to MAX_ENTRIES
        invariant forall k :: 0 <= k < i ==> neighbors[k] == ClearedSlot(old(neighbors[k]), mask)
        invariant forall k :: i <= k < MAX_ENTRIES ==> neighbors[k] == old(neighbors[k])
      {
        if neighbors[i].occupied {
          AndNotBound(neighbors[i].sources, mask);
          neighbors[i] := neighbors[i].(sources := AndNot(neighbors[i].sources, mask));
          if neighbors[i].sources == 0 {
            neighbors[i] := EMPTY;
          }
        }
      }
    }
  }
}
