/**
 Resolving the next hop of a scan: the choice between target and gateway, the ARP
 attempts, and the round-robin cache of answers.
 */
module NextHop {
  import opened Bytes
  import opened Neighbors

  const CACHE_ENTRIES := 4
  const ATTEMPTS := 10

  type IpAddress = s: seq<byte> | |s| == 4 witness [0, 0, 0, 0]

  datatype Answer = Answer(ip: IpAddress, mac: MacAddress)

  // ---- What the cache stands for ----

  /** The answers still remembered: the last four ever stored. */
  predicate Remembered(history: seq<Answer>, k: int) {
    0 <= k < |history| && |history| - 4 <= k
  }

  ghost predicate Known(history: seq<Answer>, ip: IpAddress) {
    exists k :: Remembered(history, k) && history[k].ip == ip
  }

  ghost predicate Cached(history: seq<Answer>, ip: IpAddress, mac: MacAddress) {
    exists k :: Remembered(history, k) && history[k] == Answer(ip, mac)
  }

  /** No address is remembered twice, because an answer is only stored after a miss. */
  ghost predicate Distinct(history: seq<Answer>) {
    forall a, b :: Remembered(history, a) && Remembered(history, b) && history[a].ip == history[b].ip ==> a == b
  }

  /** The number of the answer that slot j holds after n answers; negative while the slot is empty. */
  function Held(n: nat, j: nat): int
    requires j < CACHE_ENTRIES
  {
    if j < n % CACHE_ENTRIES then n - n % CACHE_ENTRIES + j else n - n % CACHE_ENTRIES + j - CACHE_ENTRIES
  }

  /** The slots hold exactly the remembered answers, each in the slot its number says. */
  lemma HeldExact(n: nat, k: int)
    ensures (0 <= k < n && n - CACHE_ENTRIES <= k) <==>
      (0 <= k && exists j: nat :: j < CACHE_ENTRIES && Held(n, j) == k)
    ensures 0 <= k < n && n - CACHE_ENTRIES <= k ==> Held(n, k % CACHE_ENTRIES) == k
  {
    if 0 <= k < n && n - CACHE_ENTRIES <= k {
      assert Held(n, k % CACHE_ENTRIES) == k;
    }
  }

  /** One more answer takes the slot of the oldest. */
  lemma HeldNext(n: nat, j: nat)
    requires j < CACHE_ENTRIES
    ensures Held(n + 1, j) == if j == n % CACHE_ENTRIES then n else Held(n, j)
  {
  }

  /** An answer stays, and is the only one for its address, until four others have been stored. */
  lemma AnswerStays(history: seq<Answer>, later: seq<Answer>, k: nat, mac: MacAddress)
    requires k < |history| && |history| + |later| <= k + 4 && Distinct(history + later)
    ensures Cached(history + later, history[k].ip, mac) <==> mac == history[k].mac
  {
    assert Remembered(history + later, k) && (history + later)[k] == history[k];
  }

  // ---- The choice of the hop ----

  predicate SameSubnet(a: IpAddress, b: IpAddress, mask: IpAddress) {
    forall i :: 0 <= i < 4 ==> And(a[i], mask[i]) == And(b[i], mask[i])
  }

  lemma {:induction false} AndDigits(x: nat, y: nat, a: nat, b: nat, k: nat)
    requires a < Pow2(k) && b < Pow2(k)
    ensures And(Shl(x, k) + a, Shl(y, k) + b) == Shl(And(x, y), k) + And(a, b)
  {
    if k > 0 {
      AndDigits(x, y, a / 2, b / 2, k - 1);
      var v, w := Shl(x, k) + a, Shl(y, k) + b;
      assert v / 2 == Shl(x, k - 1) + a / 2 && w / 2 == Shl(y, k - 1) + b / 2;
      AndStep(v, w);
      AndStep(a, b);
    }
  }

  lemma AndStep(a: nat, b: nat)
    ensures And(a, b) == 2 * And(a / 2, b / 2) + (if a % 2 == 1 && b % 2 == 1 then 1 else 0)
  {
  }

  lemma AndByte(x: nat, y: nat, a: byte, b: byte)
    ensures And(256 * x + a, 256 * y + b) == 256 * And(x, y) + And(a, b) && And(a, b) < 256
  {
    assert Pow2(8) == 256;
    AndDigits(x, y, a, b, 8);
    ShlEight(x);
    ShlEight(y);
    ShlEight(And(x, y));
    AndBound(a, b);
  }

  lemma ShlEight(n: nat)
    ensures Shl(n, 8) == 256 * n
  {
    assert Shl(n, 1) == 2 * n;
    assert Shl(n, 3) == 8 * n;
    assert Shl(n, 5) == 32 * n;
    assert Shl(n, 7) == 128 * n;
  }

  lemma {:induction false} AndBound(a: nat, b: nat)
    ensures And(a, b) <= a
  {
    if a > 0 {
      AndBound(a / 2, b / 2);
    }
  }

  lemma AndWord(a: IpAddress, mask: IpAddress)
    ensures And(ReadBe32(a), ReadBe32(mask)) ==
      0x100_0000 * And(a[0], mask[0]) + 0x1_0000 * And(a[1], mask[1]) + 0x100 * And(a[2], mask[2]) + And(a[3], mask[3])
    ensures forall i :: 0 <= i < 4 ==> And(a[i], mask[i]) < 256
  {
    hide And;
    var x1: nat, y1: nat := a[0], mask[0];
    var x2: nat, y2: nat := 256 * x1 + a[1], 256 * y1 + mask[1];
    var x3: nat, y3: nat := 256 * x2 + a[2], 256 * y2 + mask[2];
    AndByte(0, 0, a[0], mask[0]);
    AndByte(x1, y1, a[1], mask[1]);
    AndByte(x2, y2, a[2], mask[2]);
    AndByte(x3, y3, a[3], mask[3]);
  }

  lemma SameDigits(a: nat, b: nat, c: nat, d: nat, e: nat, f: nat, g: nat, h: nat)
    requires a < 256 && b < 256 && c < 256 && d < 256 && e < 256 && f < 256 && g < 256 && h < 256
    ensures 0x100_0000 * a + 0x1_0000 * b + 0x100 * c + d == 0x100_0000 * e + 0x1_0000 * f + 0x100 * g + h <==>
      a == e && b == f && c == g && d == h
  {
  }

  /** Comparing byte by byte is comparing the network parts of the 32-bit addresses. */
  lemma SubnetOfWords(a: IpAddress, b: IpAddress, mask: IpAddress)
    ensures SameSubnet(a, b, mask) <==> And(ReadBe32(a), ReadBe32(mask)) == And(ReadBe32(b), ReadBe32(mask))
  {
    hide And, ReadBe32;
    AndWord(a, mask);
    AndWord(b, mask);
    SameDigits(And(a[0], mask[0]), And(a[1], mask[1]), And(a[2], mask[2]), And(a[3], mask[3]),
               And(b[0], mask[0]), And(b[1], mask[1]), And(b[2], mask[2]), And(b[3], mask[3]));
  }

  method InSubnet(a: IpAddress, b: IpAddress, mask: IpAddress) returns (same: bool)
    ensures same == SameSubnet(a, b, mask)
  {
    for i := 0 to 4
      invariant forall k :: 0 <= k < i ==> And(a[k], mask[k]) == And(b[k], mask[k])
    {
      if And(a[i], mask[i]) != And(b[i], mask[i]) {
        return false;
      }
    }
    return true;
  }

  /** What happens in one attempt: a cancellation before it, or a wait that ends with or without a reply. */
  datatype Attempt = Attempt(cancelled: bool, reply: Option<MacAddress>)

  /** The reply the attempts come to, when at most n are left. */
  function FirstReply(attempts: seq<Attempt>, n: nat): Option<MacAddress> {
    if n == 0 || attempts == [] || attempts[0].cancelled then None
    else if attempts[0].reply.Some? then attempts[0].reply
    else FirstReply(attempts[1..], n - 1)
  }

  /** A reply is used exactly when it comes in one of the first ten attempts with no cancellation up to it. */
  lemma {:induction false} FirstReplyExact(attempts: seq<Attempt>, n: nat, mac: MacAddress)
    ensures FirstReply(attempts, n) == Some(mac) <==>
      exists k :: 0 <= k < |attempts| && k < n && attempts[k].reply == Some(mac) && !attempts[k].cancelled &&
        forall i :: 0 <= i < k ==> !attempts[i].cancelled && attempts[i].reply == None
  {
    if n > 0 && attempts != [] && !attempts[0].cancelled && attempts[0].reply == None {
      var rest := attempts[1..];
      FirstReplyExact(rest, n - 1, mac);
      if FirstReply(rest, n - 1) == Some(mac) {
        var k :| 0 <= k < |rest| && k < n - 1 && rest[k].reply == Some(mac) && !rest[k].cancelled &&
          forall i :: 0 <= i < k ==> !rest[i].cancelled && rest[i].reply == None;
        assert attempts[k + 1] == rest[k];
        assert forall i :: 1 <= i < k + 1 ==> attempts[i] == rest[i - 1];
      } else {
        forall k | 0 <= k < |attempts| && k < n && attempts[k].reply == Some(mac) && !attempts[k].cancelled
          ensures exists i :: 0 <= i < k && !(!attempts[i].cancelled && attempts[i].reply == None)
        {
          assert attempts[k] == rest[k - 1];
          var i :| 0 <= i < k - 1 && !(!rest[i].cancelled && rest[i].reply == None);
          assert attempts[i + 1] == rest[i];
        }
      }
    }
  }

  // ---- The session ----

  datatype Slot = Slot(ip: IpAddress, mac: MacAddress, valid: bool)

  class Session {
    const cache: array<Slot>
    var next: nat
    const myIp: IpAddress
    const mask: IpAddress
    const gateway: IpAddress
    var gatewayMac: MacAddress
    ghost var history: seq<Answer>

    ghost predicate Valid()
      reads this, cache
    {
      && cache.Length == CACHE_ENTRIES && next == |history| % CACHE_ENTRIES && Distinct(history)
      && forall j: nat :: j < CACHE_ENTRIES ==> SlotHolds(cache[j], Held(|history|, j))
    }

    ghost predicate SlotHolds(slot: Slot, k: int)
      reads this
    {
      k < |history| && slot.valid == (k >= 0) && (k >= 0 ==> history[k] == Answer(slot.ip, slot.mac))
    }

    constructor (myIp: IpAddress, mask: IpAddress, gateway: IpAddress, gatewayMac: MacAddress)
      ensures Valid() && fresh(cache) && history == [] && this.myIp == myIp && this.mask == mask
      ensures this.gateway == gateway && this.gatewayMac == gatewayMac
    {
      cache := new Slot[CACHE_ENTRIES](_ => Slot([0, 0, 0, 0], [0, 0, 0, 0, 0, 0], false));
      next := 0;
      this.myIp, this.mask, this.gateway, this.gatewayMac := myIp, mask, gateway, gatewayMac;
      history := [];
    }

    method Lookup(ip: IpAddress) returns (r: Option<MacAddress>)
      requires Valid()
      ensures r.Some? <==> Known(history, ip)
      ensures r.Some? ==> Cached(history, ip, r.value)
    {
      for i := 0 to CACHE_ENTRIES
        invariant forall j: nat :: j < i ==> !(cache[j].valid && cache[j].ip == ip)
      {
        if cache[i].valid && cache[i].ip == ip {
          HeldExact(|history|, Held(|history|, i));
          assert Remembered(history, Held(|history|, i));
          return Some(cache[i].mac);
        }
      }
      forall k | Remembered(history, k)
        ensures history[k].ip != ip
      {
        HeldExact(|history|, k);
        assert SlotHolds(cache[k % CACHE_ENTRIES], k);
      }
      return None;
    }

    method Insert(ip: IpAddress, mac: MacAddress)
      requires Valid() && !Known(history, ip)
      modifies this`next, this`history, cache
      ensures Valid() && history == old(history) + [Answer(ip, mac)]
      ensures Cached(history, ip, mac)
    {
      ghost var n, before := |history|, history;
      cache[next] := Slot(ip, mac, true);
      next := (next + 1) % CACHE_ENTRIES;
      history := history + [Answer(ip, mac)];
      assert Remembered(history, n) && history[n] == Answer(ip, mac);
      forall j: nat | j < CACHE_ENTRIES
        ensures SlotHolds(cache[j], Held(|history|, j))
      {
        HeldNext(n, j);
      }
      assert forall k :: Remembered(history, k) && k < n ==> Remembered(before, k) && history[k] == before[k];
    }

    /**
     The MAC to send to, from the cache or from a reply to one of ten requests. `shared`
     says that the caller passed the session's own gateway array as the target.
     */
    method Resolve(target: IpAddress, shared: bool, attempts: seq<Attempt>) returns (r: Option<MacAddress>)
      requires Valid() && (shared ==> target == gateway)
      modifies this`next, this`history, this`gatewayMac, cache
      ensures Valid()
      ensures var hop := if SameSubnet(target, myIp, mask) then target else gateway;
        if Known(old(history), hop) then
          r.Some? && Cached(history, hop, r.value) && history == old(history) && gatewayMac == old(gatewayMac)
        else
          && r == FirstReply(attempts, 10)
          && history == old(history) + (if r.Some? then [Answer(hop, r.value)] else [])
          && gatewayMac == (if r.Some? && (shared || !SameSubnet(target, myIp, mask)) then r.value else old(gatewayMac))
    {
      var direct := InSubnet(target, myIp, mask);
      var hop := if direct then target else gateway;
      r := Lookup(hop);
      if r.Some? {
        return;
      }
      var k := 0;
      while k < ATTEMPTS && r.None? && k < |attempts| && !attempts[k].cancelled
        invariant k <= ATTEMPTS && k <= |attempts|
        invariant r.None? ==> FirstReply(attempts, ATTEMPTS) == FirstReply(attempts[k..], ATTEMPTS - k)
        invariant r.Some? ==> FirstReply(attempts, ATTEMPTS) == r
      {
        r := attempts[k].reply;
        k := k + 1;
      }
      if r.Some? {
        Insert(hop, r.value);
        if shared || !direct {
          gatewayMac := r.value;
        }
      }
    }
  }
}
