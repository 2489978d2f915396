/**
 The heap preflight guard, and why its answer is enough: on any address-ordered free
 list with the readings it saw, a first-fit allocator that splits its blocks can serve
 the thread metadata, however it is cut into blocks, and then the stack.
 */
module StartupGuard {
  import opened Bytes
  import opened Neighbors

  const SIZE_MAX := 0xFFFF_FFFF
  const ALIGNMENT := 8
  const HEADER := 8
  const METADATA := 328
  const RESERVE := 1024

  // ---- The guard's arithmetic ----

  /** Addition that sticks at SIZE_MAX. */
  function AddSaturating(left: u32, right: u32): (sum: u32)
    ensures sum as int == if left as int + right as int > SIZE_MAX then SIZE_MAX else left as int + right as int
  {
    if left > SIZE_MAX - right then SIZE_MAX else left + right
  }

  /** Up to the next multiple of eight, or SIZE_MAX when there is none. */
  function AlignUp(value: u32): (r: u32)
    ensures r == SIZE_MAX || (r % 8 == 0 && value <= r < value + 8)
    ensures r == SIZE_MAX <==> value > SIZE_MAX - 7
  {
    if value > SIZE_MAX - (ALIGNMENT - 1) then SIZE_MAX else (value + ALIGNMENT - 1) / 8 * 8
  }

  function BlockSize(payload: u32): u32 {
    AlignUp(AddSaturating(payload, HEADER))
  }

  datatype Requirements = Requirements(total: u32, block: u32)

  function ThreadRequirements(stack: u32, additionalTotal: u32, additionalBlock: u32): Requirements {
    var thread := AddSaturating(METADATA, BlockSize(stack));
    Requirements(
      AddSaturating(AddSaturating(thread, additionalTotal), RESERVE),
      if thread > additionalBlock then thread else additionalBlock)
  }

  datatype Answer = Ready | InsufficientTotal | InsufficientBlock | AllocationFailed

  function Evaluate(freeHeap: u32, maxBlock: u32, r: Requirements): Answer {
    if freeHeap < r.total then InsufficientTotal
    else if maxBlock < r.block then InsufficientBlock
    else Ready
  }

  /** What the thread really needs, in unbounded arithmetic. */
  function TrueBlock(payload: nat): nat {
    (payload + 8 + 7) / 8 * 8
  }

  lemma BlockSizeTrue(payload: u32)
    ensures BlockSize(payload) as int == SIZE_MAX || BlockSize(payload) as int == TrueBlock(payload)
    ensures TrueBlock(payload) % 8 == 0 && TrueBlock(payload) >= payload as int + HEADER
  {
  }

  /**
   Saturation never understates: heap readings are multiples of eight, so they never
   reach SIZE_MAX, and a Ready answer means the true requirement is met.
   */
  lemma ReadyMeansEnough(freeHeap: u32, maxBlock: u32, stack: u32, additionalTotal: u32, additionalBlock: u32)
    requires freeHeap % 8 == 0 && maxBlock % 8 == 0
    requires Evaluate(freeHeap, maxBlock, ThreadRequirements(stack, additionalTotal, additionalBlock)) == Ready
    ensures freeHeap as int >= 328 + TrueBlock(stack) + additionalTotal as int + 1024
    ensures maxBlock as int >= 328 + TrueBlock(stack) && maxBlock >= additionalBlock
  {
    BlockSizeTrue(stack);
    assert freeHeap != SIZE_MAX && maxBlock != SIZE_MAX;
  }

  /** And nothing more is asked: readings that meet the true requirement get a Ready answer. */
  lemma EnoughMeansReady(freeHeap: u32, maxBlock: u32, stack: u32, additionalTotal: u32, additionalBlock: u32)
    requires freeHeap as int >= 328 + TrueBlock(stack) + additionalTotal as int + 1024
    requires maxBlock as int >= 328 + TrueBlock(stack) && maxBlock >= additionalBlock
    ensures Evaluate(freeHeap, maxBlock, ThreadRequirements(stack, additionalTotal, additionalBlock)) == Ready
  {
    BlockSizeTrue(stack);
  }

  /** The whole answer in unbounded arithmetic: the total is looked at first, then the largest block. */
  lemma AnswerExact(freeHeap: u32, maxBlock: u32, stack: u32, additionalTotal: u32, additionalBlock: u32)
    requires freeHeap % 8 == 0 && maxBlock % 8 == 0
    ensures Evaluate(freeHeap, maxBlock, ThreadRequirements(stack, additionalTotal, additionalBlock)) ==
      if freeHeap as int < 328 + TrueBlock(stack) + additionalTotal as int + 1024 then InsufficientTotal
      else if maxBlock as int < 328 + TrueBlock(stack) || maxBlock < additionalBlock then InsufficientBlock
      else Ready
  {
    BlockSizeTrue(stack);
    assert freeHeap != SIZE_MAX && maxBlock != SIZE_MAX;
  }

  class Snapshot {
    var freeHeap: u32
    var maxBlock: u32
    var requiredTotal: u32
    var requiredBlock: u32
    var boundary: byte
    var result: Answer
    var valid: bool

    constructor ()
      ensures !valid
    {
      freeHeap, maxBlock, requiredTotal, requiredBlock, boundary := 0, 0, 0, 0, 0;
      result, valid := Ready, false;
    }

    /** Evaluate and keep the numbers the decision was made on. */
    method CheckCapture(free: u32, largest: u32, r: Requirements, where: byte) returns (answer: Answer)
      modifies this
      ensures answer == Evaluate(free, largest, r) && result == answer && valid == (answer != Ready)
      ensures freeHeap == free && maxBlock == largest && requiredTotal == r.total && requiredBlock == r.block
      ensures boundary == where
    {
      answer := Evaluate(free, largest, r);
      freeHeap, maxBlock, requiredTotal, requiredBlock := free, largest, r.total, r.block;
      boundary, result := where, answer;
      valid := answer != Ready;
    }

    /** The allocator refused although the guard had said Ready. */
    method CaptureFailure(free: u32, largest: u32, r: Requirements, where: byte)
      modifies this
      ensures freeHeap == free && maxBlock == largest && requiredTotal == r.total && requiredBlock == r.block
      ensures boundary == where && result == AllocationFailed && valid
    {
      freeHeap, maxBlock, requiredTotal, requiredBlock := free, largest, r.total, r.block;
      boundary, result, valid := where, AllocationFailed, true;
    }

    method Clear()
      modifies this`valid, this`result, this`boundary
      ensures !valid && result == Ready && boundary == 0
    {
      valid, result, boundary := false, Ready, 0;
    }
  }

  // ---- The allocator ----

  /** Free block sizes in address order. */
  type FreeList = seq<nat>

  function TotalFree(blocks: FreeList): nat {
    if blocks == [] then 0 else blocks[0] + TotalFree(blocks[1..])
  }

  /** Some block has at least the size. */
  predicate HasBlock(blocks: FreeList, size: nat) {
    exists i :: 0 <= i < |blocks| && blocks[i] >= size
  }

  /**
   First fit: the first block that is large enough is cut. A remainder of at most
   `slack` bytes is not worth a block of its own and goes with the allocation.
   */
  function Allocate(blocks: FreeList, size: nat, slack: nat): (r: Option<FreeList>)
    decreases |blocks|
  {
    if blocks == [] then None
    else if blocks[0] >= size then
      Some(if blocks[0] - size > slack then [blocks[0] - size] + blocks[1..] else blocks[1..])
    else
      match Allocate(blocks[1..], size, slack)
      case None => None
      case Some(rest) => Some([blocks[0]] + rest)
  }

  function AllocateAll(blocks: FreeList, sizes: seq<nat>, slack: nat): Option<FreeList>
    decreases |sizes|
  {
    if sizes == [] then Some(blocks)
    else
      match Allocate(blocks, sizes[0], slack)
      case None => None
      case Some(rest) => AllocateAll(rest, sizes[1..], slack)
  }

  function Sum(sizes: seq<nat>): nat {
    if sizes == [] then 0 else sizes[0] + Sum(sizes[1..])
  }

  lemma HasBlockCons(a: nat, rest: FreeList, size: nat)
    ensures HasBlock([a] + rest, size) <==> a >= size || HasBlock(rest, size)
  {
    var all := [a] + rest;
    if HasBlock(rest, size) {
      var i :| 0 <= i < |rest| && rest[i] >= size;
      assert all[i + 1] >= size;
    }
    if a >= size {
      assert all[0] >= size;
    }
    if HasBlock(all, size) {
      var i :| 0 <= i < |all| && all[i] >= size;
      assert i > 0 ==> rest[i - 1] == all[i];
    }
  }

  /** An allocation succeeds exactly when some block is large enough. */
  lemma {:induction false} AllocateExact(blocks: FreeList, size: nat, slack: nat)
    ensures Allocate(blocks, size, slack).Some? <==> HasBlock(blocks, size)
    decreases |blocks|
  {
    if blocks != [] {
      assert blocks == [blocks[0]] + blocks[1..];
      HasBlockCons(blocks[0], blocks[1..], size);
      AllocateExact(blocks[1..], size, slack);
    }
  }

  /** It costs the size and at most the slack. */
  lemma {:induction false} AllocateCost(blocks: FreeList, size: nat, slack: nat)
    requires Allocate(blocks, size, slack).Some?
    ensures var left := TotalFree(Allocate(blocks, size, slack).value);
      TotalFree(blocks) - size - slack <= left <= TotalFree(blocks) - size
    decreases |blocks|
  {
    if blocks[0] < size {
      AllocateCost(blocks[1..], size, slack);
      var rest := Allocate(blocks[1..], size, slack).value;
      assert ([blocks[0]] + rest)[1..] == rest;
    } else if blocks[0] - size > slack {
      assert ([blocks[0] - size] + blocks[1..])[1..] == blocks[1..];
    }
  }

  /** A block that could serve this size and another one afterwards leaves room for the other. */
  lemma {:induction false} AllocateLeaves(blocks: FreeList, size: nat, later: nat, slack: nat)
    requires HasBlock(blocks, size + later) && later > slack
    ensures Allocate(blocks, size, slack).Some? && HasBlock(Allocate(blocks, size, slack).value, later)
    decreases |blocks|
  {
    assert blocks == [blocks[0]] + blocks[1..];
    HasBlockCons(blocks[0], blocks[1..], size + later);
    if blocks[0] >= size {
      if blocks[0] - size > slack {
        HasBlockCons(blocks[0] - size, blocks[1..], later);
        if HasBlock(blocks[1..], size + later) {
          SmallerBlock(blocks[1..], later, size + later);
        }
      } else {
        SmallerBlock(blocks[1..], later, size + later);
      }
    } else {
      AllocateLeaves(blocks[1..], size, later, slack);
      HasBlockCons(blocks[0], Allocate(blocks[1..], size, slack).value, later);
    }
  }

  lemma SmallerBlock(blocks: FreeList, small: nat, large: nat)
    requires HasBlock(blocks, large) && small <= large
    ensures HasBlock(blocks, small)
  {
    var i :| 0 <= i < |blocks| && blocks[i] >= large;
    assert blocks[i] >= small;
  }

  /** One block for everything is enough, however the first part is cut up. */
  lemma {:induction false} AllocateThenLast(blocks: FreeList, sizes: seq<nat>, last: nat, slack: nat)
    requires HasBlock(blocks, Sum(sizes) + last) && last > slack
    ensures AllocateAll(blocks, sizes, slack).Some?
    ensures var rest := AllocateAll(blocks, sizes, slack).value;
      HasBlock(rest, last) && TotalFree(rest) >= TotalFree(blocks) - Sum(sizes) - slack * |sizes|
    decreases |sizes|
  {
    hide Allocate, HasBlock, TotalFree;
    if sizes != [] {
      AllocateLeaves(blocks, sizes[0], Sum(sizes[1..]) + last, slack);
      AllocateCost(blocks, sizes[0], slack);
      AllocateThenLast(Allocate(blocks, sizes[0], slack).value, sizes[1..], last, slack);
      TimesSuccessor(slack, |sizes[1..]|);
    }
  }

  lemma TimesSuccessor(a: nat, n: nat)
    ensures a * (n + 1) == a * n + a
  {
  }

  /** The readings the guard takes from a free list. */
  predicate Readings(blocks: FreeList, freeHeap: u32, maxBlock: u32) {
    && (forall i :: 0 <= i < |blocks| ==> blocks[i] % 8 == 0 && blocks[i] <= maxBlock as int)
    && (maxBlock == 0 || exists i :: 0 <= i < |blocks| && blocks[i] == maxBlock as int)
    && TotalFree(blocks) == freeHeap as int
  }

  lemma {:induction false} ReadingsAligned(blocks: FreeList)
    requires forall i :: 0 <= i < |blocks| ==> blocks[i] % 8 == 0
    ensures TotalFree(blocks) % 8 == 0
  {
    if blocks != [] {
      ReadingsAligned(blocks[1..]);
    }
  }

  /** The guard answers Ready on the readings of the free list. */
  predicate Accepted(blocks: FreeList, freeHeap: u32, maxBlock: u32, stack: u32, additionalTotal: u32,
                     additionalBlock: u32) {
    && Readings(blocks, freeHeap, maxBlock)
    && Evaluate(freeHeap, maxBlock, ThreadRequirements(stack, additionalTotal, additionalBlock)) == Ready
  }

  /** A way to cut the thread metadata into allocations. */
  predicate IsMetadata(pieces: seq<nat>) {
    Sum(pieces) == 328 && forall i :: 0 <= i < |pieces| ==> pieces[i] > 0
  }

  /** The metadata blocks and then the stack block are served. */
  predicate Served(blocks: FreeList, metadata: seq<nat>, stack: u32, slack: nat) {
    var rest := AllocateAll(blocks, metadata, slack);
    rest.Some? && Allocate(rest.value, TrueBlock(stack), slack).Some?
  }

  /**
   If the guard says Ready, the metadata blocks and then the stack block are served, and
   the reserve and the additional bytes are still free, up to the slack of the blocks.
   The stack block must be larger than the slack.
   */
  lemma PreflightSufficient(blocks: FreeList, freeHeap: u32, maxBlock: u32, stack: u32, additionalTotal: u32,
                            additionalBlock: u32, metadata: seq<nat>, slack: nat)
    requires Accepted(blocks, freeHeap, maxBlock, stack, additionalTotal, additionalBlock)
    requires Sum(metadata) == 328 && slack < TrueBlock(stack)
    ensures Served(blocks, metadata, stack, slack)
    ensures var rest := AllocateAll(blocks, metadata, slack).value;
      TotalFree(Allocate(rest, TrueBlock(stack), slack).value) >=
        additionalTotal as int + 1024 - slack * (|metadata| + 1)
  {
    hide Allocate, AllocateAll, Evaluate;
    ReadingsAligned(blocks);
    assert maxBlock % 8 == 0;
    ReadyMeansEnough(freeHeap, maxBlock, stack, additionalTotal, additionalBlock);
    assert HasBlock(blocks, METADATA + TrueBlock(stack));
    AllocateThenLast(blocks, metadata, TrueBlock(stack), slack);
    var rest := AllocateAll(blocks, metadata, slack).value;
    AllocateExact(rest, TrueBlock(stack), slack);
    AllocateCost(rest, TrueBlock(stack), slack);
    TimesSuccessor(slack, |metadata|);
  }

  lemma {:induction false} SmallBlocks(n: nat)
    ensures TotalFree(seq(n, _ => 8)) == 8 * n
  {
    if n > 0 {
      assert seq(n, _ => 8)[1..] == seq(n - 1, _ => 8);
      SmallBlocks(n - 1);
    }
  }

  /** Some reading of the heap can make the guard say Ready for the stack. */
  predicate Attainable(stack: u32) {
    328 + TrueBlock(stack) + 1024 <= 0xFFFF_FFF8
  }

  /**
   Past that bound the claim fails for every stack that can be asked for: the free list
   is one block of just the metadata and the stack, and 128 blocks of 8. The guard says
   Ready, the metadata takes all of the large block, and no block is left for the stack.
   */
  lemma SmallStackFails(stack: u32, slack: nat) returns (blocks: FreeList, freeHeap: u32, maxBlock: u32)
    requires stack > 0 && TrueBlock(stack) <= slack && Attainable(stack)
    ensures Accepted(blocks, freeHeap, maxBlock, stack, 0, 0)
    ensures IsMetadata([METADATA]) && !Served(blocks, [METADATA], stack, slack)
  {
    hide Evaluate, ThreadRequirements;
    var rest: FreeList := seq(128, _ => 8);
    maxBlock := METADATA + TrueBlock(stack);
    freeHeap := maxBlock + RESERVE;
    blocks := [maxBlock as nat] + rest;
    SmallBlocks(128);
    assert blocks[0] == maxBlock as nat && blocks[1..] == rest;
    EnoughMeansReady(freeHeap, maxBlock, stack, 0, 0);
    assert TrueBlock(stack) > 8 && TrueBlock(stack) % 8 == 0;
    assert Readings(blocks, freeHeap, maxBlock);
    assert Allocate(blocks, METADATA, slack) == Some(rest);
    assert [METADATA][1..] == [] && Sum([METADATA][1..]) == 0;
    assert AllocateAll(blocks, [METADATA], slack) == Some(rest);
    AllocateExact(rest, TrueBlock(stack), slack);
  }

  /** Ready is enough on every free list, for every cut of the metadata and every additional demand. */
  ghost predicate Sufficient(stack: u32, slack: nat) {
    forall blocks: FreeList, freeHeap: u32, maxBlock: u32, additionalTotal: u32, additionalBlock: u32,
      metadata: seq<nat> ::
      Accepted(blocks, freeHeap, maxBlock, stack, additionalTotal, additionalBlock) && IsMetadata(metadata) ==>
        Served(blocks, metadata, stack, slack)
  }

  /**
   The guard is sufficient exactly when the stack block is larger than the slack; beyond
   the largest stack that any heap can hold it never says Ready.
   */
  lemma PreflightExact(stack: u32, slack: nat)
    requires stack > 0
    ensures Sufficient(stack, slack) <==> slack < TrueBlock(stack) || !Attainable(stack)
  {
    hide Served, Readings, Evaluate, ThreadRequirements;
    if slack >= TrueBlock(stack) && Attainable(stack) {
      var blocks, freeHeap, maxBlock := SmallStackFails(stack, slack);
      assert Accepted(blocks, freeHeap, maxBlock, stack, 0, 0) && IsMetadata([METADATA]);
    } else {
      forall blocks: FreeList, freeHeap: u32, maxBlock: u32, additionalTotal: u32, additionalBlock: u32,
        metadata: seq<nat> |
        Accepted(blocks, freeHeap, maxBlock, stack, additionalTotal, additionalBlock) && IsMetadata(metadata)
        ensures Served(blocks, metadata, stack, slack)
      {
        AcceptedAttainable(blocks, freeHeap, maxBlock, stack, additionalTotal, additionalBlock);
        PreflightSufficient(blocks, freeHeap, maxBlock, stack, additionalTotal, additionalBlock, metadata, slack);
      }
    }
  }

  lemma AcceptedAttainable(blocks: FreeList, freeHeap: u32, maxBlock: u32, stack: u32, additionalTotal: u32,
                           additionalBlock: u32)
    requires Accepted(blocks, freeHeap, maxBlock, stack, additionalTotal, additionalBlock)
    ensures Attainable(stack)
  {
    hide Evaluate, ThreadRequirements;
    ReadingsAligned(blocks);
    assert maxBlock % 8 == 0;
    ReadyMeansEnough(freeHeap, maxBlock, stack, additionalTotal, additionalBlock);
  }
}
