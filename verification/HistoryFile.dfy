/**
 The saved-neighbour file: a 20-byte header and up to 32 records, under two CRCs.

 Loading is the exact inverse of writing: a file loads to a list of records
 precisely when it is the file written for that list.
 */
module HistoryFile {
  import opened Bytes
  import opened Crc32
  import opened Neighbors
  import opened HistoryPayload

  const MAX_RECORDS := 32
  const HEADER_SIZE := 20
  const RECORD_HEADER_SIZE := 16
  const BODY_MAX := 32 * (16 + 463)
  const FILE_MAX := HEADER_SIZE + BODY_MAX
  const FORMAT_VERSION: byte := 1
  const RECORD_VERSION: byte := 1
  const MAGIC: seq<byte> := [0x50, 0x53, 0x48, 0x31]

  function ProtocolCode(p: Protocol): byte {
    match p
    case Lldp => 1
    case Cdp => 2
    case Eapol => 3
  }

  function ProtocolFor(code: byte): Option<Protocol> {
    if code == 1 then Some(Lldp)
    else if code == 2 then Some(Cdp)
    else if code == 3 then Some(Eapol)
    else None
  }

  // ---- Writing ----

  datatype Record = Record(protocol: Protocol, flags: u16, mac: MacAddress, payload: seq<byte>)

  datatype Key = Key(mac: MacAddress, protocol: Protocol)

  function KeyOf(r: Record): Key {
    Key(r.mac, r.protocol)
  }

  function RecordHeader(r: Record): (h: seq<byte>)
    requires |r.payload| <= PAYLOAD_MAX
    ensures |h| == RECORD_HEADER_SIZE
  {
    [RECORD_VERSION, ProtocolCode(r.protocol)] + Le16(r.flags) + Le16(|r.payload|) + r.mac + Le32(Crc(r.payload))
  }

  function RecordBytes(r: Record): seq<byte>
    requires |r.payload| <= PAYLOAD_MAX
  {
    RecordHeader(r) + r.payload
  }

  /** What a stored record must satisfy to be loaded. */
  predicate RecordValid(r: Record) {
    && |r.payload| <= PAYLOAD_MAX
    && FlagsValid(r.protocol, r.flags)
    && Decode(r.protocol, r.flags, r.payload, r.mac).Some?
  }

  predicate PayloadsFit(rs: seq<Record>) {
    forall k :: 0 <= k < |rs| ==> |rs[k].payload| <= PAYLOAD_MAX
  }

  function Body(rs: seq<Record>): (b: seq<byte>)
    requires PayloadsFit(rs)
    ensures |b| <= 479 * |rs|
  {
    if rs == [] then [] else RecordBytes(rs[0]) + Body(rs[1..])
  }

  function HeaderFields(count: byte, bodySize: u32, bodyCrc: u32): (h: seq<byte>)
    ensures |h| == 16
  {
    MAGIC + [FORMAT_VERSION, HEADER_SIZE, count, 0] + Le32(bodySize) + Le32(bodyCrc)
  }

  function FileHeader(count: byte, bodySize: u32, bodyCrc: u32): (h: seq<byte>)
    ensures |h| == HEADER_SIZE
  {
    var fields := HeaderFields(count, bodySize, bodyCrc);
    fields + Le32(Crc(fields))
  }

  function FileBytes(rs: seq<Record>): seq<byte>
    requires PayloadsFit(rs) && |rs| <= MAX_RECORDS
  {
    FileHeader(|rs|, |Body(rs)|, Crc(Body(rs))) + Body(rs)
  }

  predicate KeysDistinct(rs: seq<Record>) {
    forall i, j :: 0 <= i < j < |rs| ==> KeyOf(rs[i]) != KeyOf(rs[j])
  }

  predicate AllValid(rs: seq<Record>) {
    PayloadsFit(rs) && forall k :: 0 <= k < |rs| ==> RecordValid(rs[k])
  }

  /** A record list that a file can hold. */
  predicate FileValid(rs: seq<Record>) {
    |rs| <= MAX_RECORDS && AllValid(rs) && KeysDistinct(rs)
  }

  lemma AllValidSnoc(rs: seq<Record>, r: Record)
    requires AllValid(rs) && RecordValid(r)
    ensures AllValid(rs + [r])
  {
  }

  /** None of the records has one of the keys. */
  predicate KeysAvoid(rs: seq<Record>, seen: set<Key>) {
    forall k :: 0 <= k < |rs| ==> KeyOf(rs[k]) !in seen
  }

  lemma {:induction false} BodySnoc(rs: seq<Record>, r: Record)
    requires PayloadsFit(rs) && |r.payload| <= PAYLOAD_MAX
    ensures Body(rs + [r]) == Body(rs) + RecordBytes(r)
  {
    if rs == [] {
      assert rs + [r] == [r] && [r][1..] == [];
    } else {
      assert (rs + [r])[1..] == rs[1..] + [r];
      BodySnoc(rs[1..], r);
      ConcatAssociative(RecordBytes(rs[0]), Body(rs[1..]), RecordBytes(r));
    }
  }

  // ---- Loading ----

  datatype Loaded = Missing | Invalid | Ready(records: seq<Record>)

  /** The record at the front of the rest of the body. */
  function ParseRecord(body: seq<byte>): Option<(Record, seq<byte>)> {
    if |body| < RECORD_HEADER_SIZE || body[0] != RECORD_VERSION || ProtocolFor(body[1]).None? then None
    else
      var protocol := ProtocolFor(body[1]).value;
      var flags := ReadLe16(body[2..4]);
      var length := ReadLe16(body[4..6]);
      var mac := body[6..12];
      if !FlagsValid(protocol, flags) || length > PAYLOAD_MAX || length > |body| - RECORD_HEADER_SIZE then None
      else
        var payload := body[16..16 + length];
        if Crc(payload) != ReadLe32(body[12..16]) || Decode(protocol, flags, payload, mac).None? then None
        else Some((Record(protocol, flags, mac, payload), body[16 + length..]))
  }

  /** `count` records with keys not seen before, and nothing after them. */
  function ParseBody(body: seq<byte>, count: nat, seen: set<Key>): Option<seq<Record>> {
    if count == 0 then if body == [] then Some([]) else None
    else
      match ParseRecord(body)
      case None => None
      case Some((r, rest)) =>
        if KeyOf(r) in seen then None
        else
          match ParseBody(rest, count - 1, seen + {KeyOf(r)})
          case None => None
          case Some(rs) => Some([r] + rs)
  }

  predicate HeaderOk(file: seq<byte>) {
    && HEADER_SIZE <= |file| <= FILE_MAX
    && file[..4] == MAGIC
    && file[4] == FORMAT_VERSION && file[5] == HEADER_SIZE && file[7] == 0
    && file[6] <= MAX_RECORDS
    && ReadLe32(file[8..12]) <= BODY_MAX
    && |file| == HEADER_SIZE + ReadLe32(file[8..12])
    && Crc(file[..16]) == ReadLe32(file[16..20])
  }

  predicate BodyCrcOk(file: seq<byte>)
    requires |file| >= HEADER_SIZE
  {
    Crc(file[20..]) == ReadLe32(file[12..16])
  }

  /** The outcome of loading what the history path holds. */
  function Load(file: Option<seq<byte>>): Loaded {
    match file
    case None => Missing
    case Some(bytes) =>
      if !HeaderOk(bytes) || !BodyCrcOk(bytes) then Invalid
      else
        match ParseBody(bytes[20..], bytes[6], {})
        case None => Invalid
        case Some(rs) => Ready(rs)
  }

  // ---- Loading inverts writing ----

  lemma RecordHeaderFields(r: Record, rest: seq<byte>)
    requires |r.payload| <= PAYLOAD_MAX
    ensures var b := RecordBytes(r) + rest;
      && |b| == 16 + |r.payload| + |rest|
      && b[0] == RECORD_VERSION && b[1] == ProtocolCode(r.protocol)
      && b[2..4] == Le16(r.flags) && b[4..6] == Le16(|r.payload|)
      && b[6..12] == r.mac && b[12..16] == Le32(Crc(r.payload))
      && b[16..16 + |r.payload|] == r.payload && b[16 + |r.payload|..] == rest
  {
    hide Crc, Le16, Le32;
  }

  lemma ParseWrittenRecord(r: Record, rest: seq<byte>)
    requires RecordValid(r)
    ensures ParseRecord(RecordBytes(r) + rest) == Some((r, rest))
  {
    RecordHeaderFields(r, rest);
    ReadLe16OfLe16(r.flags);
    ReadLe16OfLe16(|r.payload|);
    ReadLe32OfLe32(Crc(r.payload));
  }

  lemma ParsedRecordWritten(body: seq<byte>)
    requires ParseRecord(body).Some?
    ensures var (r, rest) := ParseRecord(body).value;
      RecordValid(r) && body == RecordBytes(r) + rest
  {
    var (r, rest) := ParseRecord(body).value;
    Le16OfReadLe16(body[2..4]);
    Le16OfReadLe16(body[4..6]);
    Le32OfReadLe32(body[12..16]);
    RecordHeaderFields(r, rest);
    SamePieces(body, RecordBytes(r) + rest, |r.payload|);
  }

  /** Two record images with equal pieces are equal. */
  lemma SamePieces(a: seq<byte>, b: seq<byte>, length: nat)
    requires |a| >= 16 + length && |b| >= 16 + length
    requires a[0] == b[0] && a[1] == b[1] && a[2..4] == b[2..4] && a[4..6] == b[4..6]
    requires a[6..12] == b[6..12] && a[12..16] == b[12..16]
    requires a[16..16 + length] == b[16..16 + length] && a[16 + length..] == b[16 + length..]
    ensures a == b
  {
    assert a == a[..2] + a[2..4] + a[4..6] + a[6..12] + a[12..16] + a[16..16 + length] + a[16 + length..];
    assert b == b[..2] + b[2..4] + b[4..6] + b[6..12] + b[12..16] + b[16..16 + length] + b[16 + length..];
    assert a[..2] == b[..2];
  }

  /** Facts about a non-empty list, one element at a time. */
  lemma ListCons(r: Record, more: seq<Record>, seen: set<Key>)
    ensures AllValid([r] + more) <==> RecordValid(r) && AllValid(more)
    ensures KeysDistinct([r] + more) <==> KeysAvoid(more, {KeyOf(r)}) && KeysDistinct(more)
    ensures KeysAvoid([r] + more, seen) <==> KeyOf(r) !in seen && KeysAvoid(more, seen)
  {
    hide RecordValid, AllValid, KeysDistinct, KeysAvoid;
    AllValidCons(r, more);
    KeysDistinctCons(r, more);
    KeysAvoidCons(r, more, seen);
  }

  lemma AllValidCons(r: Record, more: seq<Record>)
    ensures AllValid([r] + more) <==> RecordValid(r) && AllValid(more)
  {
    var rs := [r] + more;
    assert rs[0] == r && forall k :: 0 <= k < |more| ==> more[k] == rs[k + 1];
    assert forall k :: 1 <= k < |rs| ==> rs[k] == more[k - 1];
  }

  lemma KeysDistinctCons(r: Record, more: seq<Record>)
    ensures KeysDistinct([r] + more) <==> KeysAvoid(more, {KeyOf(r)}) && KeysDistinct(more)
  {
    hide KeyOf;
    var rs := [r] + more;
    assert rs[0] == r && forall k :: 0 <= k < |more| ==> more[k] == rs[k + 1];
    assert forall k :: 1 <= k < |rs| ==> rs[k] == more[k - 1];
  }

  lemma KeysAvoidCons(r: Record, more: seq<Record>, seen: set<Key>)
    ensures KeysAvoid([r] + more, seen) <==> KeyOf(r) !in seen && KeysAvoid(more, seen)
  {
    hide KeyOf;
    var rs := [r] + more;
    assert rs[0] == r && forall k :: 0 <= k < |more| ==> more[k] == rs[k + 1];
    assert forall k :: 1 <= k < |rs| ==> rs[k] == more[k - 1];
  }

  lemma KeysAvoidUnion(rs: seq<Record>, a: set<Key>, b: set<Key>)
    ensures KeysAvoid(rs, a + b) <==> KeysAvoid(rs, a) && KeysAvoid(rs, b)
  {
  }

  lemma {:induction false} ParseWrittenBody(rs: seq<Record>, seen: set<Key>)
    requires AllValid(rs) && KeysAvoid(rs, seen) && KeysDistinct(rs)
    ensures ParseBody(Body(rs), |rs|, seen) == Some(rs)
    decreases |rs|
  {
    hide RecordValid, KeysAvoid, KeysDistinct;
    if rs != [] {
      var r, more := rs[0], rs[1..];
      assert rs == [r] + more;
      ListCons(r, more, seen);
      KeysAvoidUnion(more, seen, {KeyOf(r)});
      ParseWrittenRecord(r, Body(more));
      ParseWrittenBody(more, seen + {KeyOf(r)});
    }
  }

  lemma ParseBodyStep(body: seq<byte>, count: nat, seen: set<Key>, rs: seq<Record>)
    returns (r: Record, rest: seq<byte>, more: seq<Record>)
    requires count > 0 && ParseBody(body, count, seen) == Some(rs)
    ensures RecordValid(r) && body == RecordBytes(r) + rest
    ensures ParseBody(rest, count - 1, seen + {KeyOf(r)}) == Some(more)
    ensures KeyOf(r) !in seen && rs == [r] + more
  {
    ParsedRecordWritten(body);
    r, rest := ParseRecord(body).value.0, ParseRecord(body).value.1;
    more := ParseBody(rest, count - 1, seen + {KeyOf(r)}).value;
  }

  lemma PrependRecord(r: Record, more: seq<Record>, seen: set<Key>)
    requires RecordValid(r) && KeyOf(r) !in seen
    requires AllValid(more) && KeysAvoid(more, seen + {KeyOf(r)}) && KeysDistinct(more)
    ensures var rs := [r] + more;
      AllValid(rs) && KeysAvoid(rs, seen) && KeysDistinct(rs) && Body(rs) == RecordBytes(r) + Body(more)
  {
    ListCons(r, more, seen);
    KeysAvoidUnion(more, seen, {KeyOf(r)});
    assert ([r] + more)[1..] == more;
  }

  lemma ParsedEmptyBody(body: seq<byte>, seen: set<Key>, rs: seq<Record>)
    requires ParseBody(body, 0, seen) == Some(rs)
    ensures rs == [] && AllValid(rs) && KeysAvoid(rs, seen) && KeysDistinct(rs) && body == Body(rs)
  {
  }

  lemma {:induction false} ParsedBodyWritten(body: seq<byte>, count: nat, seen: set<Key>, rs: seq<Record>)
    requires ParseBody(body, count, seen) == Some(rs)
    ensures |rs| == count && AllValid(rs) && KeysAvoid(rs, seen) && KeysDistinct(rs) && body == Body(rs)
    decreases count
  {
    hide *;
    if count == 0 {
      ParsedEmptyBody(body, seen, rs);
    } else {
      var r, rest, more := ParseBodyStep(body, count, seen, rs);
      ParsedBodyWritten(rest, count - 1, seen + {KeyOf(r)}, more);
      PrependRecord(r, more, seen);
    }
  }

  lemma FileFields(rs: seq<Record>)
    requires PayloadsFit(rs) && |rs| <= MAX_RECORDS
    ensures var b, body := FileBytes(rs), Body(rs);
      && |b| == 20 + |body|
      && b[..4] == MAGIC && b[4] == FORMAT_VERSION && b[5] == HEADER_SIZE && b[6] == |rs| && b[7] == 0
      && b[8..12] == Le32(|body|) && b[12..16] == Le32(Crc(body))
      && b[..16] == HeaderFields(|rs|, |body|, Crc(body))
      && b[16..20] == Le32(Crc(b[..16])) && b[20..] == body
  {
    hide Crc, Le32, Body, PayloadsFit;
    var b, body := FileBytes(rs), Body(rs);
    var fields := HeaderFields(|rs|, |body|, Crc(body));
    assert b[..16] == fields;
    assert fields[..4] == MAGIC && fields[8..12] == Le32(|body|) && fields[12..16] == Le32(Crc(body));
  }

  lemma FieldChecks(b: seq<byte>, body: seq<byte>, count: byte)
    requires |body| <= BODY_MAX && count <= MAX_RECORDS && |b| == 20 + |body| && b[20..] == body
    requires b[..4] == MAGIC && b[4] == FORMAT_VERSION && b[5] == HEADER_SIZE && b[6] == count && b[7] == 0
    requires b[8..12] == Le32(|body|) && b[12..16] == Le32(Crc(body)) && b[16..20] == Le32(Crc(b[..16]))
    ensures HeaderOk(b) && BodyCrcOk(b)
  {
    ReadLe32OfLe32(|body|);
    ReadLe32OfLe32(Crc(body));
    ReadLe32OfLe32(Crc(b[..16]));
  }

  lemma WrittenChecks(rs: seq<Record>)
    requires PayloadsFit(rs) && |rs| <= MAX_RECORDS
    ensures HeaderOk(FileBytes(rs)) && BodyCrcOk(FileBytes(rs))
  {
    FileFields(rs);
    FieldChecks(FileBytes(rs), Body(rs), |rs|);
  }

  lemma LoadChecked(b: seq<byte>, body: seq<byte>, count: nat)
    requires HeaderOk(b) && BodyCrcOk(b) && b[20..] == body && b[6] == count
    ensures Load(Some(b)) == match ParseBody(body, count, {}) case None => Invalid case Some(rs) => Ready(rs)
  {
  }

  /** Writing a valid list and loading it back gives the list. */
  lemma LoadWritten(rs: seq<Record>)
    requires FileValid(rs)
    ensures Load(Some(FileBytes(rs))) == Ready(rs)
  {
    FileFields(rs);
    WrittenChecks(rs);
    ParseWrittenBody(rs, {});
    LoadChecked(FileBytes(rs), Body(rs), |rs|);
  }

  lemma ReadyChecks(b: seq<byte>)
    requires Load(Some(b)).Ready?
    ensures HeaderOk(b) && BodyCrcOk(b)
    ensures ParseBody(b[20..], b[6], {}) == Some(Load(Some(b)).records)
  {
  }

  /** Whatever loads is the file written for the list it loads to. */
  lemma LoadedIsWritten(b: seq<byte>)
    requires Load(Some(b)).Ready?
    ensures var rs := Load(Some(b)).records;
      FileValid(rs) && b == FileBytes(rs)
  {
    var rs := Load(Some(b)).records;
    ReadyChecks(b);
    ParsedBodyWritten(b[20..], b[6], {}, rs);
    CheckedHeader(b, rs);
  }

  lemma CheckedHeader(b: seq<byte>, rs: seq<Record>)
    requires HeaderOk(b) && BodyCrcOk(b) && PayloadsFit(rs) && |rs| == b[6] && b[20..] == Body(rs)
    ensures b == FileBytes(rs)
  {
    Le32OfReadLe32(b[8..12]);
    Le32OfReadLe32(b[12..16]);
    Le32OfReadLe32(b[16..20]);
    FileFields(rs);
    SameHeader(b, FileBytes(rs));
  }

  lemma SameHeader(a: seq<byte>, b: seq<byte>)
    requires |a| == |b| >= 20
    requires a[..4] == b[..4] && a[4] == b[4] && a[5] == b[5] && a[6] == b[6] && a[7] == b[7]
    requires a[8..12] == b[8..12] && a[12..16] == b[12..16] && a[20..] == b[20..]
    requires a[..16] == b[..16] ==> a[16..20] == b[16..20]
    ensures a == b
  {
    assert a[..16] == a[..4] + [a[4], a[5], a[6], a[7]] + a[8..12] + a[12..16];
    assert b[..16] == b[..4] + [b[4], b[5], b[6], b[7]] + b[8..12] + b[12..16];
    assert a == a[..16] + a[16..20] + a[20..];
    assert b == b[..16] + b[16..20] + b[20..];
  }

  /** A file loads to a record list exactly when it is the image of that list and the list is valid. */
  lemma LoadExact(b: seq<byte>, rs: seq<Record>)
    ensures Load(Some(b)) == Ready(rs) <==> FileValid(rs) && b == FileBytes(rs)
  {
    if Load(Some(b)) == Ready(rs) {
      LoadedIsWritten(b);
    }
    if FileValid(rs) && b == FileBytes(rs) {
      LoadWritten(rs);
    }
  }

  // ---- Corruption ----

  /** Equal pieces around a changed window. */
  lemma ChangedWindow(b: seq<byte>, c: seq<byte>, lo: nat, hi: nat)
    requires |b| == |c| && lo <= hi <= |b| && hi - lo <= 4
    requires b[..lo] == c[..lo] && b[hi..] == c[hi..] && b != c
    ensures Crc(b) != Crc(c)
  {
    assert b == b[..lo] + b[lo..hi] + b[hi..];
    assert c == c[..lo] + c[lo..hi] + c[hi..];
    BurstDetected(b[..lo], b[lo..hi], c[lo..hi], b[hi..]);
  }

  /** Up to four consecutive bytes changed inside the body of a loadable file make it unloadable. */
  lemma BodyBurstDetected(b: seq<byte>, c: seq<byte>, lo: nat, hi: nat)
    requires Load(Some(b)).Ready?
    requires |b| == |c| && HEADER_SIZE <= lo <= hi <= |b| && hi - lo <= 4
    requires b[..lo] == c[..lo] && b[hi..] == c[hi..] && b != c
    ensures Load(Some(c)) == Invalid
  {
    ReadyChecks(b);
    BodyPieces(b, c, lo, hi);
    ChangedWindow(b[20..], c[20..], lo - 20, hi - 20);
    if Load(Some(c)).Ready? {
      ReadyChecks(c);
    }
  }

  lemma BodyPieces(b: seq<byte>, c: seq<byte>, lo: nat, hi: nat)
    requires |b| == |c| && 20 <= lo <= hi <= |b|
    requires b[..lo] == c[..lo] && b[hi..] == c[hi..] && b != c
    ensures b[12..16] == c[12..16] && b[20..] != c[20..]
    ensures b[20..][..lo - 20] == c[20..][..lo - 20] && b[20..][hi - 20..] == c[20..][hi - 20..]
  {
    assert b[12..16] == b[..lo][12..16] && c[12..16] == c[..lo][12..16];
    assert b == b[..lo][..20] + b[20..] && c == c[..lo][..20] + c[20..];
    assert b[20..][..lo - 20] == b[..lo][20..] && c[20..][..lo - 20] == c[..lo][20..];
    assert b[20..][hi - 20..] == b[hi..] && c[20..][hi - 20..] == c[hi..];
  }

  /** Changing any one byte of a loadable file, header or body, makes it unloadable. */
  lemma OneByteDetected(b: seq<byte>, i: nat, v: byte)
    requires Load(Some(b)).Ready? && i < |b| && v != b[i]
    ensures Load(Some(b[i := v])) == Invalid
  {
    var c := b[i := v];
    ReadyChecks(b);
    assert b[..i] == c[..i] && b[i + 1..] == c[i + 1..];
    if i >= HEADER_SIZE {
      BodyBurstDetected(b, c, i, i + 1);
    } else {
      HeaderByteChanged(b, c, i);
      if Load(Some(c)).Ready? {
        ReadyChecks(c);
      }
    }
  }

  lemma HeaderByteChanged(b: seq<byte>, c: seq<byte>, i: nat)
    requires |b| == |c| >= 20 && i < 20 && c == b[i := c[i]] && c[i] != b[i]
    requires Crc(b[..16]) == ReadLe32(b[16..20])
    ensures Crc(c[..16]) != ReadLe32(c[16..20])
  {
    if i >= 16 {
      assert c[..16] == b[..16];
      Le32OfReadLe32(b[16..20]);
      Le32OfReadLe32(c[16..20]);
      assert b[16..20][i - 16] != c[16..20][i - 16];
    } else {
      assert c[16..20] == b[16..20];
      assert b[..16][i] != c[..16][i];
      assert b[..16][..i] == c[..16][..i] && b[..16][i + 1..] == c[..16][i + 1..];
      ChangedWindow(b[..16], c[..16], i, i + 1);
    }
  }
}
