/** The control-message bookkeeping of helperfiles/routing_telemetry4.cc: every control packet adds a
    row to the log and bumps three counter maps, which must stay in step with the log. Counters have
    the widths of the source: 64 bits for packets and bytes, 32 for the stream index. */
module ControlLog {
  import opened FiniteSums
  import RunPrefix

  const TWO_32: nat := 0x1_0000_0000
  const TWO_64: nat := 0x1_0000_0000_0000_0000

  type Address = a: nat | a < 0x1_0000_0000

  type Octet = b: nat | b < 256

  datatype RtKey = RtKey(node: nat, proto: nat, msgType: nat)

  datatype StreamKey = StreamKey(key: RtKey, dest: Address)

  datatype Direction = Tx | Rx

  /** What Classify finds out about a control message. */
  datatype RtId = RtId(proto: nat, msgType: nat, headerLen: nat, msgSeq: nat, dstSeq: nat, originator: Address)

  datatype IpHeader = IpHeader(source: Address, destination: Address, ttl: Octet)

  datatype Sizes = Sizes(ipPktBytes: nat, ipPayloadBytes: nat, udpPayloadBytes: nat)

  /** One call of LogCtrl. */
  datatype Message = Message(time: int, node: nat, dir: Direction, id: RtId, bytes: nat, ip: IpHeader, sizes: Sizes)

  datatype Row = Row(id: RunPrefix.RunId, message: Message, transferMode: nat, land: nat, isRerr: nat, streamIndex: nat)

  datatype Counters = Counters(pktCount: map<RtKey, nat>, byteCount: map<RtKey, nat>, streamIndex: map<StreamKey, nat>)

  const RT_AODV := 2
  const AODVTYPE_RERR := 3

  function KeyOf(m: Message): RtKey {
    RtKey(m.node, m.id.proto, m.id.msgType)
  }

  function StreamOf(m: Message): StreamKey {
    StreamKey(KeyOf(m), m.ip.destination)
  }

  /** 1 for a broadcast or multicast destination. */
  function TransferMode(ip: IpHeader): nat {
    if ip.destination == 0xffff_ffff || 0xe000_0000 <= ip.destination <= 0xefff_ffff then 1 else 0
  }

  /** 2 for an unknown originator, 0 if the sender is the originator, else 1. */
  function Land(m: Message): nat {
    if m.id.originator == 0 then 2 else if m.ip.source == m.id.originator then 0 else 1
  }

  function IsRerr(m: Message): nat {
    if m.id.proto == RT_AODV && m.id.msgType == AODVTYPE_RERR then 1 else 0
  }

  function Value<K>(m: map<K, nat>, k: K): nat {
    if k in m then m[k] else 0
  }

  function Bump<K>(m: map<K, nat>, k: K, amount: nat, modulus: nat): map<K, nat>
    requires modulus > 0
  {
    m[k := (Value(m, k) + amount) % modulus]
  }

  const NO_COUNTERS := Counters(map[], map[], map[])

  function CountersAfter(c: Counters, m: Message): Counters {
    Counters(
      Bump(c.pktCount, KeyOf(m), 1, TWO_64),
      Bump(c.byteCount, KeyOf(m), m.bytes, TWO_64),
      Bump(c.streamIndex, StreamOf(m), 1, TWO_32))
  }

  function RowFor(id: RunPrefix.RunId, c: Counters, m: Message): Row {
    Row(id, m, TransferMode(m.ip), Land(m), IsRerr(m), CountersAfter(c, m).streamIndex[StreamOf(m)])
  }

  // ---- Counting the log itself ----

  function RowKey(r: Row): RtKey { KeyOf(r.message) }

  function RowStream(r: Row): StreamKey { StreamOf(r.message) }

  function One(r: Row): nat { 1 }

  function RowBytes(r: Row): nat { r.message.bytes }

  ghost function Rows(log: seq<Row>, k: RtKey): nat { Weigh(log, RowKey, One, k) }

  ghost function Bytes(log: seq<Row>, k: RtKey): nat { Weigh(log, RowKey, RowBytes, k) }

  ghost function StreamRows(log: seq<Row>, sk: StreamKey): nat { Weigh(log, RowStream, One, sk) }

  /** The map has an entry for each class met in the log: its weight, up to the width of the counter. */
  ghost predicate Tracks<K(!new)>(m: map<K, nat>, log: seq<Row>, classOf: Row -> K, weight: Row -> nat, modulus: nat)
    requires modulus > 0
  {
    && (forall k :: k in m <==> Weigh(log, classOf, One, k) > 0)
    && (forall k :: k in m ==> m[k] == Weigh(log, classOf, weight, k) % modulus)
  }

  /** The maps say of the log what they should. */
  ghost predicate Agrees(c: Counters, log: seq<Row>) {
    && Tracks(c.pktCount, log, RowKey, One, TWO_64)
    && Tracks(c.byteCount, log, RowKey, RowBytes, TWO_64)
    && Tracks(c.streamIndex, log, RowStream, One, TWO_32)
  }

  /** Row i carries the number of rows of its stream up to itself. */
  ghost predicate Indexed(log: seq<Row>) {
    forall i :: 0 <= i < |log| ==> log[i].streamIndex == StreamRows(log[..i + 1], RowStream(log[i])) % TWO_32
  }

  lemma BumpTracks<K(!new)>(m: map<K, nat>, log: seq<Row>, r: Row, classOf: Row -> K, weight: Row -> nat, modulus: nat)
    requires (modulus == TWO_64 || modulus == TWO_32) && Tracks(m, log, classOf, weight, modulus)
    ensures Tracks(Bump(m, classOf(r), weight(r), modulus), log + [r], classOf, weight, modulus)
  {
    var c := classOf(r);
    var m' := Bump(m, c, weight(r), modulus);
    if c !in m {
      WeighNoneMet(log, classOf, weight, c);
    }
    forall k ensures k in m' <==> Weigh(log + [r], classOf, One, k) > 0 {
      WeighAppend(log, r, classOf, One, k);
    }
    forall k | k in m' ensures m'[k] == Weigh(log + [r], classOf, weight, k) % modulus {
      WeighAppend(log, r, classOf, weight, k);
      if k == c {
        AddResidue(Weigh(log, classOf, weight, c), weight(r));
      }
    }
  }

  lemma AddResidue(count: nat, amount: nat)
    ensures (count % TWO_64 + amount) % TWO_64 == (count + amount) % TWO_64
    ensures (count % TWO_32 + amount) % TWO_32 == (count + amount) % TWO_32
  {
    AddResidue64(count, amount);
    AddResidue32(count, amount);
  }

  lemma AddResidue64(count: nat, amount: nat)
    ensures (count % TWO_64 + amount) % TWO_64 == (count + amount) % TWO_64
  {
    var sum := count % TWO_64 + amount;
    assert count + amount == (count / TWO_64) * TWO_64 + sum;
    assert count + amount == (count / TWO_64 + sum / TWO_64) * TWO_64 + sum % TWO_64;
  }

  lemma AddResidue32(count: nat, amount: nat)
    ensures (count % TWO_32 + amount) % TWO_32 == (count + amount) % TWO_32
  {
    var sum := count % TWO_32 + amount;
    assert count + amount == (count / TWO_32) * TWO_32 + sum;
    assert count + amount == (count / TWO_32 + sum / TWO_32) * TWO_32 + sum % TWO_32;
  }

  lemma {:induction false} WeighNoneMet<K(!new)>(log: seq<Row>, classOf: Row -> K, weight: Row -> nat, k: K)
    requires Weigh(log, classOf, One, k) == 0
    ensures Weigh(log, classOf, weight, k) == 0
  {
    if log == [] {
    } else {
      WeighNoneMet(log[..|log| - 1], classOf, weight, k);
    }
  }

  lemma LogKeepsAgreement(id: RunPrefix.RunId, c: Counters, log: seq<Row>, m: Message)
    requires Agrees(c, log) && Indexed(log)
    ensures Agrees(CountersAfter(c, m), log + [RowFor(id, c, m)]) && Indexed(log + [RowFor(id, c, m)])
  {
    var r := RowFor(id, c, m);
    BumpTracks(c.pktCount, log, r, RowKey, One, TWO_64);
    BumpTracks(c.byteCount, log, r, RowKey, RowBytes, TWO_64);
    BumpTracks(c.streamIndex, log, r, RowStream, One, TWO_32);
    LogKeepsIndex(id, c, log, m);
  }

  lemma LogKeepsIndex(id: RunPrefix.RunId, c: Counters, log: seq<Row>, m: Message)
    requires Indexed(log) && Tracks(CountersAfter(c, m).streamIndex, log + [RowFor(id, c, m)], RowStream, One, TWO_32)
    ensures Indexed(log + [RowFor(id, c, m)])
  {
    var log' := log + [RowFor(id, c, m)];
    forall i | 0 <= i < |log'|
      ensures log'[i].streamIndex == StreamRows(log'[..i + 1], RowStream(log'[i])) % TWO_32
    {
      if i < |log| {
        assert log'[..i + 1] == log[..i + 1];
      } else {
        assert log'[..i + 1] == log';
      }
    }
  }

  lemma {:induction false} NoRowsNoBytes(log: seq<Row>, k: RtKey)
    ensures Rows(log, k) == 0 ==> Bytes(log, k) == 0
  {
    if log == [] {
    } else {
      NoRowsNoBytes(log[..|log| - 1], k);
    }
  }

  // ---- Whole sessions ----

  /** The counters and the log after a list of control messages. */
  function Session(id: RunPrefix.RunId, messages: seq<Message>): (Counters, seq<Row>) {
    if messages == [] then (NO_COUNTERS, [])
    else
      var (c, log) := Session(id, messages[..|messages| - 1]);
      var m := messages[|messages| - 1];
      (CountersAfter(c, m), log + [RowFor(id, c, m)])
  }

  /** In every reachable state the maps agree with the log and the log is indexed. */
  lemma {:induction false} SessionAgrees(id: RunPrefix.RunId, messages: seq<Message>)
    ensures Agrees(Session(id, messages).0, Session(id, messages).1) && Indexed(Session(id, messages).1)
    ensures |Session(id, messages).1| == |messages|
  {
    if messages == [] {
    } else {
      var front := messages[..|messages| - 1];
      SessionAgrees(id, front);
      LogKeepsAgreement(id, Session(id, front).0, Session(id, front).1, messages[|messages| - 1]);
    }
  }

  // ---- Stream indices have no gaps ----

  /** The stream indices of one stream, in the order of the log. */
  function IndicesOf(log: seq<Row>, sk: StreamKey): seq<nat> {
    if log == [] then []
    else
      var last := log[|log| - 1];
      IndicesOf(log[..|log| - 1], sk) + if RowStream(last) == sk then [last.streamIndex] else []
  }

  /** Read in order, the indices of a stream are 1, 2, 3 and so on, modulo 2^32. */
  lemma {:induction false} IndicesHaveNoGaps(log: seq<Row>, sk: StreamKey)
    requires Indexed(log)
    ensures |IndicesOf(log, sk)| == StreamRows(log, sk)
    ensures forall i :: 0 <= i < |IndicesOf(log, sk)| ==> IndicesOf(log, sk)[i] == (i + 1) % TWO_32
  {
    if log == [] {
    } else {
      var front, last := log[..|log| - 1], log[|log| - 1];
      forall i | 0 <= i < |front|
        ensures front[i].streamIndex == StreamRows(front[..i + 1], RowStream(front[i])) % TWO_32
      {
        assert front[..i + 1] == log[..i + 1];
      }
      IndicesHaveNoGaps(front, sk);
      assert log[..|log|] == log;
      assert last.streamIndex == StreamRows(log, RowStream(last)) % TWO_32;
    }
  }

  // ---- Conservation across the maps ----

  /** The stream index that a destination of key k stands at, or 0 for a stream of another key. */
  ghost function IndexFor(c: Counters, k: RtKey): StreamKey -> nat {
    (sk: StreamKey) => if sk.key == k then Value(c.streamIndex, sk) else 0
  }

  /** The sum of the stream indices over all destinations of key k. */
  ghost function StreamTotal(c: Counters, k: RtKey): nat {
    SumOver(c.streamIndex.Keys, IndexFor(c, k))
  }

  ghost function OneFor(k: RtKey): Row -> nat {
    (r: Row) => if RowKey(r) == k then 1 else 0
  }

  lemma {:induction false} SumIsRows(log: seq<Row>, k: RtKey)
    ensures Sum(log, OneFor(k)) == Rows(log, k)
  {
    if log == [] {
    } else {
      SumIsRows(log[..|log| - 1], k);
    }
  }

  /** The rows of a stream of key k, or 0 for a stream of another key. */
  ghost function RowsFor(log: seq<Row>, k: RtKey): StreamKey -> nat {
    (sk: StreamKey) => if sk.key == k then StreamRows(log, sk) else 0
  }

  /** Counted by destination, the rows of a key are all its rows. */
  lemma RowsByDestination(log: seq<Row>, k: RtKey, streams: set<StreamKey>)
    requires forall sk :: sk in streams <==> StreamRows(log, sk) > 0
    ensures SumOver(streams, RowsFor(log, k)) == Rows(log, k)
  {
    forall i | 0 <= i < |log| ensures RowStream(log[i]) in streams {
      WeighPositive(log, RowStream, One, RowStream(log[i]));
    }
    SumOfClasses(log, RowStream, OneFor(k), streams);
    SumIsRows(log, k);
    forall sk | sk in streams
      ensures Weigh(log, RowStream, OneFor(k), sk) == if sk.key == k then StreamRows(log, sk) else 0
    {
      if sk.key == k {
        WeighSame(log, RowStream, OneFor(k), One, sk);
      } else {
        WeighNone(log, RowStream, OneFor(k), sk);
      }
    }
    SumSame(streams, sk => Weigh(log, RowStream, OneFor(k), sk), RowsFor(log, k));
  }

  /** The packet count is the number of rows if and only if that is below 2^64; the stream indices add up
      to it if and only if none of the streams has reached 2^32. */
  lemma CrossMapConservation(c: Counters, log: seq<Row>, k: RtKey)
    requires Agrees(c, log)
    ensures Value(c.pktCount, k) == Rows(log, k) <==> Rows(log, k) < TWO_64
    ensures StreamTotal(c, k) == Rows(log, k) <==> forall dest :: StreamRows(log, StreamKey(k, dest)) < TWO_32
    ensures Rows(log, k) < TWO_64 ==>
      (StreamTotal(c, k) == Value(c.pktCount, k) <==> forall dest :: StreamRows(log, StreamKey(k, dest)) < TWO_32)
  {
    assert k !in c.pktCount ==> Rows(log, k) == 0;
    Residue(Rows(log, k), TWO_64);
    var streams := c.streamIndex.Keys;
    var rows := RowsFor(log, k);
    RowsByDestination(log, k, streams);
    SumOfResidues(streams, rows, IndexFor(c, k), TWO_32);
    if forall sk :: sk in streams ==> rows(sk) < TWO_32 {
      forall dest ensures StreamRows(log, StreamKey(k, dest)) < TWO_32 {
        var sk := StreamKey(k, dest);
        assert sk in streams ==> rows(sk) < TWO_32;
      }
    }
    if forall dest :: StreamRows(log, StreamKey(k, dest)) < TWO_32 {
      forall sk | sk in streams ensures rows(sk) < TWO_32 {
        assert sk.key == k ==> sk == StreamKey(k, sk.dest);
      }
    }
  }

  /** Likewise the byte count is the sum of the bytes of the rows, if and only if that is below 2^64. */
  lemma ByteConservation(c: Counters, log: seq<Row>, k: RtKey)
    requires Agrees(c, log)
    ensures Value(c.byteCount, k) == Bytes(log, k) <==> Bytes(log, k) < TWO_64
  {
    NoRowsNoBytes(log, k);
    Residue(Bytes(log, k), TWO_64);
  }

  // ---- The summary written by Stop ----

  datatype SummaryRow = SummaryRow(id: RunPrefix.RunId, key: RtKey, pkts: nat, bytes: nat)

  /** The order of the keys in a std::map. */
  predicate Less(a: RtKey, b: RtKey) {
    if a.node != b.node then a.node < b.node
    else if a.proto != b.proto then a.proto < b.proto
    else a.msgType < b.msgType
  }

  lemma LessIsTotal(a: RtKey, b: RtKey)
    ensures a == b || Less(a, b) || Less(b, a)
  {
  }

  ghost predicate SortedByKey(rows: seq<SummaryRow>) {
    forall i, j :: 0 <= i < j < |rows| ==> Less(rows[i].key, rows[j].key)
  }

  /** One row for each key, in order, with what the two maps hold for it. */
  ghost predicate IsSummary(id: RunPrefix.RunId, c: Counters, rows: seq<SummaryRow>) {
    && SortedByKey(rows)
    && (forall i :: 0 <= i < |rows| ==> rows[i].key in c.pktCount)
    && (forall i :: 0 <= i < |rows| ==>
      rows[i] == SummaryRow(id, rows[i].key, c.pktCount[rows[i].key], Value(c.byteCount, rows[i].key)))
    && (forall k :: k in c.pktCount ==> HasKey(rows, k))
  }

  ghost predicate HasKey(rows: seq<SummaryRow>, k: RtKey) {
    exists i :: 0 <= i < |rows| && rows[i].key == k
  }

  lemma OneKeyMore(rows: seq<SummaryRow>, row: SummaryRow, k: RtKey)
    ensures HasKey(rows + [row], k) <==> HasKey(rows, k) || row.key == k
  {
    var more := rows + [row];
    assert more[|rows|] == row;
    if i :| 0 <= i < |rows| && rows[i].key == k {
      assert more[i].key == k;
    }
  }

  lemma {:induction false} LeastExists(keys: set<RtKey>) returns (least: RtKey)
    requires keys != {}
    ensures least in keys && forall k :: k in keys ==> !Less(k, least)
    decreases keys
  {
    var x :| x in keys;
    least := x;
    if keys - {x} == {} {
      assert keys == {x};
    } else {
      var rest := LeastExists(keys - {x});
      least := if Less(rest, x) then rest else x;
      assert keys == (keys - {x}) + {x};
    }
  }

  ghost function SummaryPkts(r: SummaryRow): nat { r.pkts }

  ghost function SummaryBytes(r: SummaryRow): nat { r.bytes }

  ghost function SummaryKeys(rows: seq<SummaryRow>): set<RtKey> {
    set i | 0 <= i < |rows| :: rows[i].key
  }

  lemma {:induction false} SummarySums(rows: seq<SummaryRow>, pkts: RtKey -> nat, bytes: RtKey -> nat)
    requires SortedByKey(rows)
    requires forall i :: 0 <= i < |rows| ==> rows[i].pkts == pkts(rows[i].key) && rows[i].bytes == bytes(rows[i].key)
    ensures Sum(rows, SummaryPkts) == SumOver(SummaryKeys(rows), pkts)
    ensures Sum(rows, SummaryBytes) == SumOver(SummaryKeys(rows), bytes)
  {
    if rows == [] {
    } else {
      var front, last := rows[..|rows| - 1], rows[|rows| - 1];
      SummarySums(front, pkts, bytes);
      assert SummaryKeys(rows) - {last.key} == SummaryKeys(front) by {
        forall k | k in SummaryKeys(front) ensures k != last.key && k in SummaryKeys(rows) {
          var i :| 0 <= i < |front| && front[i].key == k;
          assert rows[i].key == k && Less(rows[i].key, last.key);
        }
        forall k | k in SummaryKeys(rows) && k != last.key ensures k in SummaryKeys(front) {
          var i :| 0 <= i < |rows| && rows[i].key == k;
          assert front[i].key == k;
        }
      }
      assert last.key in SummaryKeys(rows) by {
        assert rows[|rows| - 1].key == last.key;
      }
      SumRemove(SummaryKeys(rows), pkts, last.key);
      SumRemove(SummaryKeys(rows), bytes, last.key);
    }
  }

  lemma SummaryOfMaps(id: RunPrefix.RunId, c: Counters, rows: seq<SummaryRow>)
    requires IsSummary(id, c, rows)
    ensures Sum(rows, SummaryPkts) == SumOver(c.pktCount.Keys, PktsOf(c))
    ensures Sum(rows, SummaryBytes) == SumOver(c.pktCount.Keys, BytesOf(c))
  {
    assert SummaryKeys(rows) == c.pktCount.Keys by {
      forall k | k in c.pktCount.Keys ensures k in SummaryKeys(rows) {
        var i :| 0 <= i < |rows| && rows[i].key == k;
      }
    }
    SummarySums(rows, PktsOf(c), BytesOf(c));
  }

  ghost function PktsOf(c: Counters): RtKey -> nat { (k: RtKey) => Value(c.pktCount, k) }

  ghost function BytesOf(c: Counters): RtKey -> nat { (k: RtKey) => Value(c.byteCount, k) }

  lemma KeysCoverLog(c: Counters, log: seq<Row>)
    requires Agrees(c, log)
    ensures c.byteCount.Keys == c.pktCount.Keys
    ensures forall i :: 0 <= i < |log| ==> RowKey(log[i]) in c.pktCount.Keys
    ensures forall k :: k !in c.pktCount.Keys ==> Rows(log, k) == 0 && Bytes(log, k) == 0
  {
    forall k ensures k in c.byteCount <==> k in c.pktCount {
      assert k in c.byteCount <==> Weigh(log, RowKey, One, k) > 0;
    }
    forall i | 0 <= i < |log| ensures RowKey(log[i]) in c.pktCount.Keys {
      WeighPositive(log, RowKey, One, RowKey(log[i]));
    }
    forall k | k !in c.pktCount.Keys ensures Rows(log, k) == 0 && Bytes(log, k) == 0 {
      NoRowsNoBytes(log, k);
    }
  }

  /** The packets of the summary add up to the rows of the log if and only if no key has reached 2^64
      rows. */
  lemma SummaryPktsAddUp(id: RunPrefix.RunId, c: Counters, log: seq<Row>, rows: seq<SummaryRow>)
    requires Agrees(c, log) && IsSummary(id, c, rows)
    ensures Sum(rows, SummaryPkts) == |log| <==> forall k :: Rows(log, k) < TWO_64
  {
    var keys, f := c.pktCount.Keys, k => Weigh(log, RowKey, One, k);
    SummaryOfMaps(id, c, rows);
    KeysCoverLog(c, log);
    SumOfClasses(log, RowKey, One, keys);
    SumOfOnes(log, One);
    SumOfResidues(keys, f, PktsOf(c), TWO_64);
    assert forall k :: Rows(log, k) == f(k);
  }

  /** And its bytes add up to the bytes of the log if and only if no key has reached 2^64 bytes. */
  lemma SummaryBytesAddUp(id: RunPrefix.RunId, c: Counters, log: seq<Row>, rows: seq<SummaryRow>)
    requires Agrees(c, log) && IsSummary(id, c, rows)
    ensures Sum(rows, SummaryBytes) == Sum(log, RowBytes) <==> forall k :: Bytes(log, k) < TWO_64
  {
    var keys, f := c.pktCount.Keys, k => Weigh(log, RowKey, RowBytes, k);
    SummaryOfMaps(id, c, rows);
    KeysCoverLog(c, log);
    SumOfClasses(log, RowKey, RowBytes, keys);
    SumOfResidues(keys, f, BytesOf(c), TWO_64);
    assert forall k :: Bytes(log, k) == f(k);
  }

  /** The packets and the bytes of a summary are those of the log, each exactly when no count has wrapped. */
  ghost predicate AddsUp(rows: seq<SummaryRow>, log: seq<Row>) {
    && (Sum(rows, SummaryPkts) == |log| <==> forall k :: Rows(log, k) < TWO_64)
    && (Sum(rows, SummaryBytes) == Sum(log, RowBytes) <==> forall k :: Bytes(log, k) < TWO_64)
  }

  // ---- The counters in terms of the fields of the messages ----

  /** The counters of a log: for each node, protocol and type the number and the bytes of its messages,
      and with the destination too the number of its messages, modulo the widths of the counters. */
  ghost predicate CountsMessages(c: Counters, messages: seq<Message>) {
    && (forall n, p, t :: Value(c.pktCount, RtKey(n, p, t))
          == SumWhere(messages, IsOf(n, p, t), (m: Message) => 1) % 0x1_0000_0000_0000_0000)
    && (forall n, p, t :: Value(c.byteCount, RtKey(n, p, t))
          == SumWhere(messages, IsOf(n, p, t), (m: Message) => m.bytes) % 0x1_0000_0000_0000_0000)
    && (forall n, p, t, d :: Value(c.streamIndex, StreamKey(RtKey(n, p, t), d))
          == SumWhere(messages, IsOfTo(n, p, t, d), (m: Message) => 1) % 0x1_0000_0000)
  }

  ghost function IsOf(n: nat, p: nat, t: nat): Message -> bool {
    (m: Message) => m.node == n && m.id.proto == p && m.id.msgType == t
  }

  ghost function IsOfTo(n: nat, p: nat, t: nat, d: Address): Message -> bool {
    (m: Message) => m.node == n && m.id.proto == p && m.id.msgType == t && m.ip.destination == d
  }

  function MessagesOf(log: seq<Row>): (messages: seq<Message>)
    ensures |messages| == |log| && forall i :: 0 <= i < |log| ==> messages[i] == log[i].message
  {
    seq(|log|, i requires 0 <= i < |log| => log[i].message)
  }

  lemma KeyTells(r: Row, n: nat, p: nat, t: nat)
    ensures var m := r.message;
      && (RowKey(r) == RtKey(n, p, t) <==> m.node == n && m.id.proto == p && m.id.msgType == t)
      && RowStream(r) == StreamKey(RowKey(r), m.ip.destination)
  {
  }

  lemma WeighIsOf(log: seq<Row>, weight: Row -> nat, byMessage: Message -> nat, n: nat, p: nat, t: nat)
    requires forall r: Row :: weight(r) == byMessage(r.message)
    ensures Weigh(log, RowKey, weight, RtKey(n, p, t)) == SumWhere(MessagesOf(log), IsOf(n, p, t), byMessage)
  {
    var keep := (r: Row) => r.message.node == n && r.message.id.proto == p && r.message.id.msgType == t;
    var weigh := (r: Row) => byMessage(r.message);
    forall r: Row ensures RowKey(r) == RtKey(n, p, t) <==> keep(r) {
      KeyTells(r, n, p, t);
    }
    WeighIsSumWhere(log, RowKey, weight, RtKey(n, p, t), keep, weigh);
    SumWhereSame(log, keep, weigh, MessagesOf(log), IsOf(n, p, t), byMessage);
  }

  lemma WeighIsOfTo(log: seq<Row>, n: nat, p: nat, t: nat, d: Address)
    ensures StreamRows(log, StreamKey(RtKey(n, p, t), d))
      == SumWhere(MessagesOf(log), IsOfTo(n, p, t, d), (m: Message) => 1)
  {
    var keep := (r: Row) =>
      r.message.node == n && r.message.id.proto == p && r.message.id.msgType == t && r.message.ip.destination == d;
    forall r: Row ensures RowStream(r) == StreamKey(RtKey(n, p, t), d) <==> keep(r) {
      KeyTells(r, n, p, t);
    }
    WeighIsSumWhere(log, RowStream, One, StreamKey(RtKey(n, p, t), d), keep, (r: Row) => 1);
    SumWhereSame(log, keep, (r: Row) => 1, MessagesOf(log), IsOfTo(n, p, t, d), (m: Message) => 1);
  }

  lemma TracksValue<K(!new)>(m: map<K, nat>, log: seq<Row>, classOf: Row -> K, weight: Row -> nat, modulus: nat, k: K)
    requires modulus > 0 && Tracks(m, log, classOf, weight, modulus)
    ensures Value(m, k) == Weigh(log, classOf, weight, k) % modulus
  {
    if k !in m {
      WeighNoneMet(log, classOf, weight, k);
    }
  }

  /** Main result on the counters: whenever they agree with a log they are, key by key, the numbers and the
      bytes of its messages. */
  lemma AgreeingCountsMessages(c: Counters, log: seq<Row>)
    requires Agrees(c, log)
    ensures CountsMessages(c, MessagesOf(log))
  {
    forall n, p, t
      ensures Value(c.pktCount, RtKey(n, p, t))
        == SumWhere(MessagesOf(log), IsOf(n, p, t), (m: Message) => 1) % 0x1_0000_0000_0000_0000
      ensures Value(c.byteCount, RtKey(n, p, t))
        == SumWhere(MessagesOf(log), IsOf(n, p, t), (m: Message) => m.bytes) % 0x1_0000_0000_0000_0000
    {
      TracksValue(c.pktCount, log, RowKey, One, TWO_64, RtKey(n, p, t));
      TracksValue(c.byteCount, log, RowKey, RowBytes, TWO_64, RtKey(n, p, t));
      WeighIsOf(log, One, (m: Message) => 1, n, p, t);
      WeighIsOf(log, RowBytes, (m: Message) => m.bytes, n, p, t);
    }
    forall n, p, t, d
      ensures Value(c.streamIndex, StreamKey(RtKey(n, p, t), d))
        == SumWhere(MessagesOf(log), IsOfTo(n, p, t, d), (m: Message) => 1) % 0x1_0000_0000
    {
      TracksValue(c.streamIndex, log, RowStream, One, TWO_32, StreamKey(RtKey(n, p, t), d));
      WeighIsOfTo(log, n, p, t, d);
    }
  }

  /** So after any list of messages, whose log has them in order. */
  lemma {:induction false} SessionLogsMessages(id: RunPrefix.RunId, messages: seq<Message>)
    ensures MessagesOf(Session(id, messages).1) == messages
    ensures forall i :: 0 <= i < |messages| ==> |Session(id, messages).1| == |messages| && Session(id, messages).1[i].id == id
  {
    if messages == [] {
    } else {
      var front, last := messages[..|messages| - 1], messages[|messages| - 1];
      SessionLogsMessages(id, front);
      var log := Session(id, front).1;
      assert |log| == |MessagesOf(log)|;
      var row := RowFor(id, Session(id, front).0, last);
      assert MessagesOf(log + [row]) == MessagesOf(log) + [row.message];
    }
  }

  lemma SessionCounts(id: RunPrefix.RunId, messages: seq<Message>)
    ensures CountsMessages(Session(id, messages).0, messages)
  {
    SessionAgrees(id, messages);
    SessionLogsMessages(id, messages);
    AgreeingCountsMessages(Session(id, messages).0, Session(id, messages).1);
  }

  /** And each row carries the number of messages so far of its node, protocol and type to its
      destination, itself included. */
  lemma IndexCountsMessages(log: seq<Row>, i: nat)
    requires Indexed(log) && i < |log|
    ensures var m := log[i].message;
      log[i].streamIndex
        == SumWhere(MessagesOf(log[..i + 1]), IsOfTo(m.node, m.id.proto, m.id.msgType, m.ip.destination), (x: Message) => 1)
           % 0x1_0000_0000
  {
    var m := log[i].message;
    WeighIsOfTo(log[..i + 1], m.node, m.id.proto, m.id.msgType, m.ip.destination);
  }

  /** The columns: the first octet of a multicast destination is 224 to 239 and broadcast is all ones; land
      tells an unknown originator, a message from its originator, and one passed on; and the last marks
      an AODV route error. */
  lemma ColumnsMean(id: RunPrefix.RunId, c: Counters, m: Message)
    ensures var r := RowFor(id, c, m);
      && r.id == id && r.message == m
      && r.transferMode == (if 224 <= m.ip.destination / 0x100_0000 <= 239 || m.ip.destination == 0xffff_ffff then 1 else 0)
      && (r.land == 2 <==> m.id.originator == 0)
      && (r.land == 0 <==> m.id.originator != 0 && m.ip.source == m.id.originator)
      && (r.land == 1 <==> m.id.originator != 0 && m.ip.source != m.id.originator)
      && (r.isRerr == 1 <==> m.id.proto == 2 && m.id.msgType == 3) && r.isRerr <= 1
  {
    FirstOctet(m.ip.destination);
  }

  lemma FirstOctet(a: Address)
    ensures 0xe000_0000 <= a <= 0xefff_ffff <==> 224 <= a / 0x100_0000 <= 239
  {
  }

  /** A summary in terms of the messages: a row for each node, protocol and type that some message has,
      with the number and the bytes of those messages, modulo the width of a counter. */
  ghost predicate SummarizesMessages(id: RunPrefix.RunId, rows: seq<SummaryRow>, messages: seq<Message>) {
    && (forall i :: 0 <= i < |rows| ==> RowSummarizes(id, rows[i], messages))
    && (forall i :: 0 <= i < |messages| ==>
         HasKey(rows, RtKey(messages[i].node, messages[i].id.proto, messages[i].id.msgType)))
  }

  ghost predicate RowSummarizes(id: RunPrefix.RunId, row: SummaryRow, messages: seq<Message>) {
    var k := row.key;
    && row.id == id
    && row.pkts == SumWhere(messages, IsOf(k.node, k.proto, k.msgType), (m: Message) => 1) % 0x1_0000_0000_0000_0000
    && row.bytes == SumWhere(messages, IsOf(k.node, k.proto, k.msgType), (m: Message) => m.bytes) % 0x1_0000_0000_0000_0000
  }

  lemma SummaryMeans(id: RunPrefix.RunId, c: Counters, log: seq<Row>, rows: seq<SummaryRow>)
    requires Agrees(c, log) && IsSummary(id, c, rows)
    ensures SummarizesMessages(id, rows, MessagesOf(log))
  {
    AgreeingCountsMessages(c, log);
    forall i | 0 <= i < |rows| ensures RowSummarizes(id, rows[i], MessagesOf(log)) {
      var k := rows[i].key;
      assert k == RtKey(k.node, k.proto, k.msgType);
      assert rows[i].pkts == Value(c.pktCount, RtKey(k.node, k.proto, k.msgType));
      assert rows[i].bytes == Value(c.byteCount, RtKey(k.node, k.proto, k.msgType));
    }
    forall i | 0 <= i < |log|
      ensures HasKey(rows, RtKey(log[i].message.node, log[i].message.id.proto, log[i].message.id.msgType))
    {
      WeighPositive(log, RowKey, One, RowKey(log[i]));
    }
  }
}
