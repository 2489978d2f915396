/**
 The storage service as the saved-neighbour code uses it: two paths, file handles
 with a cursor, and calls any of which may fail.

 `faulted` records whether some call has failed, or come up short, without the disk
 contents being the reason. `seen` collects everything the history path has held
 since the last `Watch`.
 */
module Storage {
  import opened Bytes
  import opened Neighbors

  datatype Path = HistoryPath | TempPath

  type Disk = map<Path, seq<byte>>

  function At(disk: Disk, path: Path): Option<seq<byte>> {
    if path in disk then Some(disk[path]) else None
  }

  /** Contents after `data` is written at `position`. */
  function Overwritten(content: seq<byte>, position: nat, data: seq<byte>): (r: seq<byte>)
    requires position <= |content|
    ensures |r| == if position + |data| <= |content| then |content| else position + |data|
  {
    content[..position] + data + if position + |data| <= |content| then content[position + |data|..] else []
  }

  function Available(content: seq<byte>, position: nat, amount: nat): nat {
    if position >= |content| then 0 else if |content| - position < amount then |content| - position else amount
  }

  class Store {
    var disk: Disk
    ghost var faulted: bool
    ghost var seen: set<Option<seq<byte>>>

    constructor (contents: Disk)
      ensures disk == contents && !faulted && Watched()
    {
      disk := contents;
      faulted := false;
      seen := {At(contents, HistoryPath)};
    }

    function History(): Option<seq<byte>>
      reads this
    {
      At(disk, HistoryPath)
    }

    ghost predicate Watched()
      reads this
    {
      History() in seen
    }

    ghost method Watch()
      modifies this`seen
      ensures seen == {History()}
    {
      seen := {History()};
    }

    /** Rename replaces the target in one step, or changes nothing. */
    method Rename(from: Path, to: Path) returns (ok: bool)
      requires from != to
      modifies this
      ensures ok ==> from in old(disk) && disk == (old(disk) - {from})[to := old(disk)[from]] && faulted == old(faulted)
      ensures !ok ==> disk == old(disk) && (from in disk ==> faulted)
      ensures old(faulted) ==> faulted
      ensures seen == old(seen) + {History()}
    {
      var fault: bool := *;
      ok := from in disk && !fault;
      if ok {
        disk := (disk - {from})[to := disk[from]];
      } else {
        faulted := true;
      }
      seen := seen + {History()};
    }

    /** The result of a removal is never looked at. */
    method Remove(path: Path)
      modifies this
      ensures disk == old(disk) || disk == old(disk) - {path}
      ensures disk == old(disk) - {path} || faulted
      ensures old(faulted) ==> faulted
      ensures seen == old(seen) + {History()}
    {
      var fault: bool := *;
      if fault {
        faulted := true;
      } else {
        disk := disk - {path};
      }
      seen := seen + {History()};
    }
  }

  class File {
    const store: Store
    var open: Option<Path>
    var position: nat

    constructor (store: Store)
      ensures this.store == store && open == None
    {
      this.store := store;
      open := None;
      position := 0;
    }

    /** The file behind an open handle exists. */
    ghost predicate Reading(path: Path)
      reads this, store
    {
      open == Some(path) && path in store.disk
    }

    ghost function Content(): seq<byte>
      requires open.Some? && open.value in store.disk
      reads this, store
    {
      store.disk[open.value]
    }

    method OpenExisting(path: Path) returns (ok: bool)
      requires open.None?
      modifies this, store`faulted
      ensures ok ==> Reading(path) && position == 0
      ensures !ok ==> open.None?
      ensures store.faulted == (old(store.faulted) || (!ok && path in store.disk))
    {
      var fault: bool := *;
      ok := path in store.disk && !fault;
      if ok {
        open := Some(path);
        position := 0;
      } else if path in store.disk {
        store.faulted := true;
      }
    }

    /** Opening for writing empties the file, or fails with the file as it was or already emptied. */
    method CreateAlways(path: Path) returns (ok: bool)
      requires open.None?
      modifies this, store
      ensures ok ==> Reading(path) && position == 0 && store.disk == old(store.disk)[path := []]
      ensures !ok ==> open.None? && store.faulted
      ensures !ok ==> store.disk == old(store.disk) || store.disk == old(store.disk)[path := []]
      ensures ok ==> store.faulted == old(store.faulted)
      ensures store.seen == old(store.seen) + {store.History()}
    {
      var fault: bool := *;
      var reached: bool := *;
      ok := !fault;
      if ok || reached {
        store.disk := store.disk[path := []];
      }
      if ok {
        open := Some(path);
        position := 0;
      } else {
        store.faulted := true;
      }
      store.seen := store.seen + {store.History()};
    }

    /** The size, or zero when the service fails. */
    method Size() returns (size: nat)
      requires open.Some? && open.value in store.disk
      modifies store`faulted
      ensures size == |Content()| || (size == 0 && store.faulted)
      ensures old(store.faulted) ==> store.faulted
    {
      var fault: bool := *;
      if fault {
        store.faulted := true;
        return 0;
      }
      return |store.disk[open.value]|;
    }

    method Seek(offset: nat) returns (ok: bool)
      requires open.Some?
      modifies this`position, store`faulted
      ensures ok ==> position == offset
      ensures store.faulted == (old(store.faulted) || !ok)
    {
      ok := *;
      if ok {
        position := offset;
      } else {
        store.faulted := true;
      }
    }

    /** Up to `amount` bytes at the cursor; fewer than the file has there only on a fault. */
    method Read(amount: nat) returns (data: seq<byte>)
      requires open.Some? && open.value in store.disk
      modifies this`position, store`faulted
      ensures |data| <= Available(Content(), old(position), amount)
      ensures |data| > 0 ==> data == Content()[old(position)..old(position) + |data|]
      ensures position == old(position) + |data|
      ensures store.faulted == (old(store.faulted) || |data| < Available(Content(), old(position), amount))
    {
      var content := store.disk[open.value];
      var available := Available(content, position, amount);
      var delivered: int := *;
      if 0 <= delivered < available {
        store.faulted := true;
      } else {
        delivered := available;
      }
      data := if delivered == 0 then [] else content[position..position + delivered];
      position := position + delivered;
    }

    /** Writes a prefix of the data; all of it unless there is a fault. */
    method Write(data: seq<byte>) returns (written: nat)
      requires open.Some? && open.value in store.disk && position <= |Content()|
      modifies this`position, store
      ensures written <= |data| && position == old(position) + written
      ensures store.disk == old(store.disk)[open.value := Overwritten(old(Content()), old(position), data[..written])]
      ensures store.faulted == (old(store.faulted) || written < |data|)
      ensures store.seen == old(store.seen) + {store.History()}
    {
      var reached: int := *;
      written := |data|;
      if 0 <= reached < |data| {
        written := reached;
        store.faulted := true;
      }
      store.disk := store.disk[open.value := Overwritten(store.disk[open.value], position, data[..written])];
      position := position + written;
      store.seen := store.seen + {store.History()};
    }

    method Sync() returns (ok: bool)
      requires open.Some?
      modifies store`faulted
      ensures store.faulted == (old(store.faulted) || !ok)
    {
      ok := *;
      if !ok {
        store.faulted := true;
      }
    }

    method Close()
      modifies this
      ensures open.None?
    {
      open := None;
    }
  }
}
