/** The TTL cache of helperfiles/routing_telemetry4.cc. A data packet leaves its TTL in the cache when it
    is first sent; when it is delivered, the hops it took are logged and the record is dropped. To bound
    its size the cache forgets old records and empties itself when it is too large. Times are in
    nanoseconds. */
module TtlCache {
  import opened Options

  const SECOND := 1_000_000_000
  const TTL_KEEP := 8 * SECOND
  const MAX_TTL_CACHE := 20000

  type Ttl = t: nat | t < 256

  type Uid = nat

  datatype TtlRec = TtlRec(ttl: Ttl, firstSeen: int)

  datatype Cache = Cache(initTtl: map<Uid, TtlRec>, lastEvict: int)

  /** A data packet sent or delivered. */
  datatype Event = Send(uid: Uid, ttl: Ttl, now: int) | Deliver(uid: Uid, ttl: Ttl, now: int)

  datatype HopRow = HopRow(now: int, uid: Uid, initTtl: Ttl, rxTtl: Ttl, hops: nat)

  // ---- The cache of the source ----

  /** The TTL is stored once. */
  function Store(m: map<Uid, TtlRec>, uid: Uid, ttl: Ttl, now: int): map<Uid, TtlRec> {
    if uid in m then m else m[uid := TtlRec(ttl, now)]
  }

  function Fresh(m: map<Uid, TtlRec>, now: int): map<Uid, TtlRec> {
    map uid | uid in m && now - m[uid].firstSeen <= TTL_KEEP :: m[uid]
  }

  /** At most once a second, drop the records that are too old. */
  function Evict(c: Cache, now: int): Cache {
    if now - c.lastEvict >= SECOND then Cache(Fresh(c.initTtl, now), now) else c
  }

  /** The cache before the hard cap is looked at. */
  function BeforeCap(c: Cache, uid: Uid, ttl: Ttl, now: int): Cache {
    Evict(c.(initTtl := Store(c.initTtl, uid, ttl, now)), now)
  }

  predicate Overflows(c: Cache, e: Event) {
    e.Send? && |BeforeCap(c, e.uid, e.ttl, e.now).initTtl| > MAX_TTL_CACHE
  }

  function RowOf(m: map<Uid, TtlRec>, e: Event): Option<HopRow> {
    if e.Deliver? && e.uid in m then
      var sent := m[e.uid].ttl;
      Some(HopRow(e.now, e.uid, sent, e.ttl, if sent < e.ttl then 0 else sent - e.ttl))
    else None
  }

  function Step(c: Cache, e: Event): Cache {
    match e
    case Send(uid, ttl, now) =>
      if Overflows(c, e) then BeforeCap(c, uid, ttl, now).(initTtl := map[]) else BeforeCap(c, uid, ttl, now)
    case Deliver(uid, _, _) => c.(initTtl := c.initTtl - {uid})
  }

  // ---- What one step does, in numbers ----

  /** Nanoseconds: an eviction is due one second after the last. */
  predicate IsDue(c: Cache, now: int) {
    now - c.lastEvict >= 1_000_000_000
  }

  /** What a send leaves of the records, before the cap: all that are there and the packet's own, but for
      those that are more than eight seconds old if an eviction is due. */
  ghost function Left(c: Cache, uid: Uid, now: int): set<Uid> {
    set u | u in c.initTtl.Keys + {uid} && !(IsDue(c, now) && u in c.initTtl && now - c.initTtl[u].firstSeen > 8_000_000_000)
  }

  /** A send moves the time of the last eviction exactly if one was due, whether or not it dropped
      anything. If it leaves at most 20000 records they all stay, each as it was first stored; if it
      leaves more, none does. */
  lemma SendMeans(c: Cache, uid: Uid, ttl: Ttl, now: int)
    ensures var next := Step(c, Send(uid, ttl, now));
      && next.lastEvict == (if IsDue(c, now) then now else c.lastEvict)
      && (|Left(c, uid, now)| > 20000 ==> next.initTtl == map[])
      && (|Left(c, uid, now)| <= 20000 ==> next.initTtl.Keys == Left(c, uid, now))
      && forall u :: u in next.initTtl ==>
           next.initTtl[u] == if u in c.initTtl then c.initTtl[u] else TtlRec(ttl, now)
  {
    var before := BeforeCap(c, uid, ttl, now);
    assert before.initTtl.Keys == Left(c, uid, now);
    assert |before.initTtl| == |before.initTtl.Keys|;
  }

  /** A delivery forgets the packet's record and nothing else. */
  lemma DeliverMeans(c: Cache, uid: Uid, ttl: Ttl, now: int)
    ensures var next := Step(c, Deliver(uid, ttl, now));
      && next.lastEvict == c.lastEvict && uid !in next.initTtl
      && forall u :: u != uid ==>
           (u in next.initTtl <==> u in c.initTtl) && (u in c.initTtl ==> next.initTtl[u] == c.initTtl[u])
  {
  }

  /** A row is logged for a delivery whose record is there, and its hops are how far the TTL has fallen
      since the record was made, never less than 0. */
  lemma RowMeans(m: map<Uid, TtlRec>, uid: Uid, ttl: Ttl, now: int)
    ensures RowOf(m, Deliver(uid, ttl, now)).Some? <==> uid in m
    ensures uid in m ==>
      var row := RowOf(m, Deliver(uid, ttl, now)).value;
      && row.now == now && row.uid == uid && row.rxTtl == ttl && row.initTtl == m[uid].ttl
      && (m[uid].ttl >= ttl ==> ttl + row.hops == m[uid].ttl)
      && (m[uid].ttl < ttl ==> row.hops == 0)
  {
  }

  // ---- The cache that never forgets ----

  function FullStep(m: map<Uid, TtlRec>, e: Event): map<Uid, TtlRec> {
    match e
    case Send(uid, ttl, now) => Store(m, uid, ttl, now)
    case Deliver(uid, _, _) => m - {uid}
  }

  // ---- Runs ----

  ghost predicate Next(cs: seq<Cache>, trace: seq<Event>, i: nat)
    requires i < |trace| && i + 1 < |cs|
  {
    cs[i + 1] == Step(cs[i], trace[i])
  }

  /** cs lists the states that the cache goes through. */
  ghost predicate IsRun(cs: seq<Cache>, trace: seq<Event>) {
    |cs| == |trace| + 1 && forall i: nat {:trigger Next(cs, trace, i)} :: i < |trace| ==> Next(cs, trace, i)
  }

  ghost predicate FullNext(ms: seq<map<Uid, TtlRec>>, trace: seq<Event>, i: nat)
    requires i < |trace| && i + 1 < |ms|
  {
    ms[i + 1] == FullStep(ms[i], trace[i])
  }

  ghost predicate IsFullRun(ms: seq<map<Uid, TtlRec>>, trace: seq<Event>) {
    |ms| == |trace| + 1 && forall i: nat {:trigger FullNext(ms, trace, i)} :: i < |trace| ==> FullNext(ms, trace, i)
  }

  /** The two caches handle the same trace, and at the start the full one holds what the other does. */
  ghost predicate BothRun(cs: seq<Cache>, ms: seq<map<Uid, TtlRec>>, trace: seq<Event>) {
    IsRun(cs, trace) && IsFullRun(ms, trace) && Within(cs[0], ms[0])
  }

  lemma OneStepMore(cs: seq<Cache>, trace: seq<Event>, e: Event, c: Cache)
    requires IsRun(cs, trace) && c == Step(cs[|trace|], e)
    ensures IsRun(cs + [c], trace + [e])
  {
    forall i: nat | i < |trace| + 1 ensures Next(cs + [c], trace + [e], i) {
      if i < |trace| {
        assert Next(cs, trace, i);
      }
    }
  }

  /** From every start there is such a run. */
  lemma {:induction false} RunExists(c: Cache, trace: seq<Event>) returns (cs: seq<Cache>)
    ensures IsRun(cs, trace) && cs[0] == c
  {
    if trace == [] {
      cs := [c];
    } else {
      var front, last := trace[..|trace| - 1], trace[|trace| - 1];
      var before := RunExists(c, front);
      var next := Step(before[|front|], last);
      cs := before + [next];
      OneStepMore(before, front, last, next);
      assert trace == front + [last];
    }
  }

  /** The clock never goes back. */
  ghost predicate Monotone(trace: seq<Event>) {
    forall i, j :: 0 <= i < j < |trace| ==> trace[i].now <= trace[j].now
  }

  /** No packet is sent on with a TTL above the one it was first sent with, as long as it has not been
      delivered: routers only lower it (section 3.1 of RFC 791). */
  ghost predicate TtlNeverGrows(ms: seq<map<Uid, TtlRec>>, trace: seq<Event>)
    requires |ms| > |trace|
  {
    forall i :: 0 <= i < |trace| && trace[i].Send? && trace[i].uid in ms[i] ==> trace[i].ttl <= ms[i][trace[i].uid].ttl
  }

  // ---- The bounded cache is simulated by the full one ----

  ghost predicate Within(c: Cache, m: map<Uid, TtlRec>) {
    forall uid :: uid in c.initTtl ==> uid in m
  }

  ghost predicate TtlsBelow(c: Cache, m: map<Uid, TtlRec>) {
    forall uid :: uid in c.initTtl && uid in m ==> c.initTtl[uid].ttl <= m[uid].ttl
  }

  lemma StepWithin(c: Cache, m: map<Uid, TtlRec>, e: Event)
    requires Within(c, m)
    ensures Within(Step(c, e), FullStep(m, e))
  {
  }

  lemma StepTtlsBelow(c: Cache, m: map<Uid, TtlRec>, e: Event)
    requires Within(c, m) && TtlsBelow(c, m)
    requires e.Send? && e.uid in m ==> e.ttl <= m[e.uid].ttl
    ensures TtlsBelow(Step(c, e), FullStep(m, e))
  {
  }

  lemma {:induction false} AlwaysWithin(cs: seq<Cache>, ms: seq<map<Uid, TtlRec>>, trace: seq<Event>, i: nat)
    requires BothRun(cs, ms, trace) && i <= |trace|
    ensures Within(cs[i], ms[i])
  {
    if i == 0 {
    } else {
      AlwaysWithin(cs, ms, trace, i - 1);
      assert Next(cs, trace, i - 1) && FullNext(ms, trace, i - 1);
      StepWithin(cs[i - 1], ms[i - 1], trace[i - 1]);
    }
  }

  lemma {:induction false} AlwaysTtlsBelow(cs: seq<Cache>, ms: seq<map<Uid, TtlRec>>, trace: seq<Event>, i: nat)
    requires BothRun(cs, ms, trace) && i <= |trace|
    requires TtlsBelow(cs[0], ms[0]) && TtlNeverGrows(ms, trace)
    ensures TtlsBelow(cs[i], ms[i])
  {
    if i == 0 {
    } else {
      AlwaysTtlsBelow(cs, ms, trace, i - 1);
      AlwaysWithin(cs, ms, trace, i - 1);
      assert Next(cs, trace, i - 1) && FullNext(ms, trace, i - 1);
      StepTtlsBelow(cs[i - 1], ms[i - 1], trace[i - 1]);
    }
  }

  /** Every row that the bounded cache logs answers to a row of the full one for the same packet,
      at the same time and with the same final TTL, and if no TTL grows it never shows more hops. */
  lemma EachRowHasCounterpart(cs: seq<Cache>, ms: seq<map<Uid, TtlRec>>, trace: seq<Event>, i: nat)
    requires BothRun(cs, ms, trace) && i < |trace|
    ensures var row, full := RowOf(cs[i].initTtl, trace[i]), RowOf(ms[i], trace[i]);
      row.Some? ==>
        && full.Some? && (row.value.now, row.value.uid, row.value.rxTtl) == (full.value.now, full.value.uid, full.value.rxTtl)
        && (TtlsBelow(cs[0], ms[0]) && TtlNeverGrows(ms, trace) ==> row.value.hops <= full.value.hops)
  {
    AlwaysWithin(cs, ms, trace, i);
    if TtlsBelow(cs[0], ms[0]) && TtlNeverGrows(ms, trace) {
      AlwaysTtlsBelow(cs, ms, trace, i);
    }
  }

  // ---- When the two agree ----

  /** The packet is first sent at i and not delivered before j, when at most eight seconds have passed. */
  ghost predicate InFlight(trace: seq<Event>, i: nat, j: nat) {
    && i < j < |trace| && trace[i].Send? && trace[j].now - trace[i].now <= TTL_KEEP
    && forall k :: i < k < j ==> !(trace[k].Deliver? && trace[k].uid == trace[i].uid)
  }

  ghost predicate Holds(m: map<Uid, TtlRec>, uid: Uid, record: TtlRec) {
    uid in m && m[uid] == record
  }

  lemma StepStores(c: Cache, e: Event)
    requires e.Send? && e.uid !in c.initTtl && !Overflows(c, e)
    ensures Holds(Step(c, e).initTtl, e.uid, TtlRec(e.ttl, e.now))
  {
  }

  lemma StepKeepsRecord(c: Cache, e: Event, uid: Uid, record: TtlRec)
    requires Holds(c.initTtl, uid, record) && !(e.Deliver? && e.uid == uid)
    requires e.now - record.firstSeen <= TTL_KEEP && !Overflows(c, e)
    ensures Holds(Step(c, e).initTtl, uid, record)
  {
  }

  lemma FullStepKeepsRecord(m: map<Uid, TtlRec>, e: Event, uid: Uid, record: TtlRec)
    requires Holds(m, uid, record) && !(e.Deliver? && e.uid == uid)
    ensures Holds(FullStep(m, e), uid, record)
  {
  }

  /** No packet overflows the cache from i to before j. */
  ghost predicate NoOverflow(cs: seq<Cache>, trace: seq<Event>, i: nat, j: nat) {
    j <= |trace| < |cs| && forall l :: i <= l < j ==> !Overflows(cs[l], trace[l])
  }

  lemma {:induction false} RecordStays(cs: seq<Cache>, ms: seq<map<Uid, TtlRec>>, trace: seq<Event>, i: nat, j: nat, k: nat)
    requires BothRun(cs, ms, trace) && Monotone(trace) && InFlight(trace, i, j) && NoOverflow(cs, trace, i, j)
    requires i < k <= j && trace[i].uid !in ms[i]
    ensures Holds(cs[k].initTtl, trace[i].uid, TtlRec(trace[i].ttl, trace[i].now))
    ensures Holds(ms[k], trace[i].uid, TtlRec(trace[i].ttl, trace[i].now))
    decreases k
  {
    var record := TtlRec(trace[i].ttl, trace[i].now);
    assert Next(cs, trace, k - 1) && FullNext(ms, trace, k - 1);
    assert !Overflows(cs[k - 1], trace[k - 1]);
    if k == i + 1 {
      AlwaysWithin(cs, ms, trace, i);
      StepStores(cs[i], trace[i]);
    } else {
      RecordStays(cs, ms, trace, i, j, k - 1);
      assert trace[k - 1].now <= trace[j].now;
      StepKeepsRecord(cs[k - 1], trace[k - 1], trace[i].uid, record);
      FullStepKeepsRecord(ms[k - 1], trace[k - 1], trace[i].uid, record);
    }
  }

  /** A packet that is delivered at most eight seconds after it was first sent, with no overflow in
      between, is logged exactly as the full cache would log it. */
  lemma TimelyDeliveryIsExact(cs: seq<Cache>, ms: seq<map<Uid, TtlRec>>, trace: seq<Event>, i: nat, j: nat)
    requires BothRun(cs, ms, trace) && Monotone(trace) && InFlight(trace, i, j) && NoOverflow(cs, trace, i, j)
    requires trace[i].uid !in ms[i] && trace[j].Deliver? && trace[j].uid == trace[i].uid
    ensures RowOf(cs[j].initTtl, trace[j]).Some?
    ensures RowOf(cs[j].initTtl, trace[j]) == RowOf(ms[j], trace[j])
    ensures RowOf(cs[j].initTtl, trace[j]).value.initTtl == trace[i].ttl
  {
    RecordStays(cs, ms, trace, i, j, j);
  }

  // ---- At most one eviction a second ----

  lemma {:induction false} LastEvictStays(cs: seq<Cache>, trace: seq<Event>, k: nat, l: nat)
    requires IsRun(cs, trace) && Monotone(trace) && k < l < |trace|
    requires trace[k].Send? && IsDue(cs[k], trace[k].now) && trace[l].now - trace[k].now < 1_000_000_000
    ensures cs[l].lastEvict == trace[k].now
    decreases l
  {
    var before, e := cs[l - 1], trace[l - 1];
    assert Next(cs, trace, l - 1);
    if l == k + 1 {
      SendMeans(before, e.uid, e.ttl, e.now);
    } else {
      LastEvictStays(cs, trace, k, l - 1);
      assert e.now <= trace[l].now;
      if e.Send? {
        SendMeans(before, e.uid, e.ttl, e.now);
      } else {
        DeliverMeans(before, e.uid, e.ttl, e.now);
      }
    }
  }

  /** Within a second after an eviction was due, under a clock that never goes back, no step drops a
      record, except that a delivery takes its own and that a new record on top of 20000 empties the
      cache. */
  lemma NothingDroppedForASecond(cs: seq<Cache>, trace: seq<Event>, k: nat, l: nat, u: Uid)
    requires IsRun(cs, trace) && Monotone(trace) && k < l < |trace|
    requires trace[k].Send? && IsDue(cs[k], trace[k].now) && trace[l].now - trace[k].now < 1_000_000_000
    requires u in cs[l].initTtl && !(trace[l].Deliver? && trace[l].uid == u)
    requires !(trace[l].Send? && trace[l].uid !in cs[l].initTtl && |cs[l].initTtl| >= 20000)
    requires |cs[0].initTtl| <= 20000
    ensures u in cs[l + 1].initTtl && cs[l + 1].initTtl[u] == cs[l].initTtl[u]
  {
    var c, e := cs[l], trace[l];
    assert Next(cs, trace, l);
    LastEvictStays(cs, trace, k, l);
    SizeIsBounded(cs, trace, l);
    if e.Send? {
      SendMeans(c, e.uid, e.ttl, e.now);
      assert Left(c, e.uid, e.now) == c.initTtl.Keys + {e.uid};
      assert e.uid in c.initTtl ==> c.initTtl.Keys + {e.uid} == c.initTtl.Keys;
      assert |c.initTtl| == |c.initTtl.Keys|;
    } else {
      DeliverMeans(c, e.uid, e.ttl, e.now);
    }
  }

  // ---- Exactly when the two agree ----

  /** The step drops the record: the cache overflows, or an eviction is due and the record too old. */
  ghost predicate Loses(c: Cache, e: Event, record: TtlRec) {
    Overflows(c, e) || (e.Send? && e.now - c.lastEvict >= SECOND && e.now - record.firstSeen > TTL_KEEP)
  }

  /** Send m puts the packet's record into the bounded cache, and nothing drops it before j. */
  ghost predicate KeptSince(cs: seq<Cache>, trace: seq<Event>, m: nat, j: nat)
    requires m < j <= |trace| < |cs| && trace[m].Send?
  {
    && trace[m].uid !in cs[m].initTtl
    && forall l :: m <= l < j ==> !Loses(cs[l], trace[l], TtlRec(trace[m].ttl, trace[m].now))
  }

  /** The packet has not been delivered from i to before j. */
  ghost predicate Undelivered(trace: seq<Event>, i: nat, j: nat) {
    i < j < |trace| && forall k :: i < k < j ==> !(trace[k].Deliver? && trace[k].uid == trace[i].uid)
  }

  lemma StepHolds(c: Cache, e: Event, uid: Uid, record: TtlRec)
    requires !(e.Deliver? && e.uid == uid)
    ensures Holds(Step(c, e).initTtl, uid, record) <==>
      !Loses(c, e, record)
      && (Holds(c.initTtl, uid, record)
          || (e.Send? && e.uid == uid && uid !in c.initTtl && record == TtlRec(e.ttl, e.now)))
  {
  }

  lemma {:induction false} KeptIsHeld(cs: seq<Cache>, trace: seq<Event>, m: nat, k: nat, j: nat)
    requires IsRun(cs, trace) && m < k <= j <= |trace| && trace[m].Send? && KeptSince(cs, trace, m, j)
    requires forall l :: m < l < j ==> !(trace[l].Deliver? && trace[l].uid == trace[m].uid)
    ensures Holds(cs[k].initTtl, trace[m].uid, TtlRec(trace[m].ttl, trace[m].now))
    decreases k
  {
    var c, e, record := cs[k - 1], trace[k - 1], TtlRec(trace[m].ttl, trace[m].now);
    assert Next(cs, trace, k - 1);
    assert !Loses(c, e, record);
    if k == m + 1 {
      HoldsAfter(c, e, trace[m].uid, record);
    } else {
      KeptIsHeld(cs, trace, m, k - 1, j);
      HoldsAfter(c, e, trace[m].uid, record);
    }
  }

  lemma HoldsAfter(c: Cache, e: Event, uid: Uid, record: TtlRec)
    requires !(e.Deliver? && e.uid == uid) && !Loses(c, e, record)
    requires Holds(c.initTtl, uid, record) || (e.Send? && e.uid == uid && uid !in c.initTtl && record == TtlRec(e.ttl, e.now))
    ensures Holds(Step(c, e).initTtl, uid, record)
  {
    StepHolds(c, e, uid, record);
  }

  /** What is held was put there by some send since, and kept. */
  lemma {:induction false} HeldWasKept(cs: seq<Cache>, trace: seq<Event>, i: nat, k: nat, uid: Uid, record: TtlRec)
    returns (m: nat)
    requires IsRun(cs, trace) && i < k <= |trace| && uid !in cs[i].initTtl
    requires forall l :: i <= l < k ==> !(trace[l].Deliver? && trace[l].uid == uid)
    requires Holds(cs[k].initTtl, uid, record)
    ensures i <= m < k && trace[m].Send? && trace[m].uid == uid && record == TtlRec(trace[m].ttl, trace[m].now)
    ensures KeptSince(cs, trace, m, k)
    decreases k
  {
    assert Next(cs, trace, k - 1);
    StepHolds(cs[k - 1], trace[k - 1], uid, record);
    if Holds(cs[k - 1].initTtl, uid, record) {
      m := HeldWasKept(cs, trace, i, k - 1, uid, record);
    } else {
      m := k - 1;
    }
  }

  lemma {:induction false} FullHolds(ms: seq<map<Uid, TtlRec>>, trace: seq<Event>, i: nat, k: nat)
    requires IsFullRun(ms, trace) && i < k <= |trace| && trace[i].Send? && trace[i].uid !in ms[i]
    requires forall l :: i < l < k ==> !(trace[l].Deliver? && trace[l].uid == trace[i].uid)
    ensures Holds(ms[k], trace[i].uid, TtlRec(trace[i].ttl, trace[i].now))
    decreases k
  {
    assert FullNext(ms, trace, k - 1);
    if k == i + 1 {
    } else {
      FullHolds(ms, trace, i, k - 1);
      FullStepKeepsRecord(ms[k - 1], trace[k - 1], trace[i].uid, TtlRec(trace[i].ttl, trace[i].now));
    }
  }

  /** The delivery at j of a packet first sent at i is logged as the full cache logs it if and only if
      some send of the packet with its first TTL put a record into the bounded cache that was kept: the
      first send, or one after the record was dropped. */
  lemma DeliveryIsExactIff(cs: seq<Cache>, ms: seq<map<Uid, TtlRec>>, trace: seq<Event>, i: nat, j: nat)
    requires BothRun(cs, ms, trace) && Undelivered(trace, i, j)
    requires trace[i].Send? && trace[i].uid !in ms[i] && trace[j].Deliver? && trace[j].uid == trace[i].uid
    ensures RowOf(cs[j].initTtl, trace[j]) == RowOf(ms[j], trace[j])
      <==> exists m :: i <= m < j && trace[m].Send? && trace[m].uid == trace[i].uid && trace[m].ttl == trace[i].ttl
                       && KeptSince(cs, trace, m, j)
  {
    var uid := trace[i].uid;
    FullHolds(ms, trace, i, j);
    AlwaysWithin(cs, ms, trace, i);
    if RowOf(cs[j].initTtl, trace[j]) == RowOf(ms[j], trace[j]) {
      var m := HeldWasKept(cs, trace, i, j, uid, cs[j].initTtl[uid]);
      assert trace[m].ttl == trace[i].ttl;
    }
    if m :| i <= m < j && trace[m].Send? && trace[m].uid == uid && trace[m].ttl == trace[i].ttl
            && KeptSince(cs, trace, m, j)
    {
      KeptIsHeld(cs, trace, m, j, j);
    }
  }

  /** Under the same conditions, the delivery is logged at all if and only if the record of some send of
      the packet was kept. So the row is there and shows the wrong TTL exactly when the send that was
      kept had another TTL than the first. */
  lemma DeliveryIsLoggedIff(cs: seq<Cache>, ms: seq<map<Uid, TtlRec>>, trace: seq<Event>, i: nat, j: nat)
    requires BothRun(cs, ms, trace) && Undelivered(trace, i, j)
    requires trace[i].Send? && trace[i].uid !in ms[i] && trace[j].Deliver? && trace[j].uid == trace[i].uid
    ensures RowOf(cs[j].initTtl, trace[j]).Some?
      <==> exists m :: i <= m < j && trace[m].Send? && trace[m].uid == trace[i].uid && KeptSince(cs, trace, m, j)
  {
    var uid := trace[i].uid;
    AlwaysWithin(cs, ms, trace, i);
    if RowOf(cs[j].initTtl, trace[j]).Some? {
      var m := HeldWasKept(cs, trace, i, j, uid, cs[j].initTtl[uid]);
    }
    if m :| i <= m < j && trace[m].Send? && trace[m].uid == uid && KeptSince(cs, trace, m, j) {
      KeptIsHeld(cs, trace, m, j, j);
    }
  }

  const LATE := 9 * SECOND

  lemma FirstSteps()
    ensures Step(Cache(map[], 0), Send(0, 64, 0)) == Cache(map[0 := TtlRec(64, 0)], 0)
    ensures Step(Cache(map[0 := TtlRec(64, 0)], 0), Send(1, 64, LATE)) == Cache(map[1 := TtlRec(64, LATE)], LATE)
  {
    var first, second := TtlRec(64, 0), TtlRec(64, LATE);
    var both := map[0 := first, 1 := second];
    assert Fresh(both, LATE) == map[1 := second];
    assert BeforeCap(Cache(map[0 := first], 0), 1, 64, LATE) == Cache(map[1 := second], LATE);
  }

  /** Both examples start alike: packet 0 is sent, and nine seconds later packet 1. */
  function LateSends(): seq<Event> {
    [Send(0, 64, 0), Send(1, 64, LATE)]
  }

  /** Then packet 0 is sent on and delivered. */
  function Resent(): seq<Event> {
    LateSends() + [Send(0, 60, LATE)] + [Deliver(0, 58, LATE)]
  }

  lemma LateStart() returns (cs: seq<Cache>)
    ensures IsRun(cs, LateSends()) && cs[0] == Cache(map[], 0)
    ensures cs[2] == Cache(map[1 := TtlRec(64, LATE)], LATE)
  {
    var c0, c1, c2 := Cache(map[], 0), Cache(map[0 := TtlRec(64, 0)], 0), Cache(map[1 := TtlRec(64, LATE)], LATE);
    var e0, e1 := Send(0, 64, 0), Send(1, 64, LATE);
    FirstSteps();
    OneStepMore([c0], [], e0, c1);
    OneStepMore([c0] + [c1], [] + [e0], e1, c2);
    cs := [c0] + [c1] + [c2];
    assert [] + [e0] + [e1] == [e0, e1];
  }

  lemma SentOn(c: Cache) returns (next: Cache)
    requires c == Cache(map[1 := TtlRec(64, LATE)], LATE)
    ensures next == Step(c, Send(0, 60, LATE)) && next.initTtl == map[0 := TtlRec(60, LATE), 1 := TtlRec(64, LATE)]
  {
    next := Step(c, Send(0, 60, LATE));
  }

  lemma ResentRun() returns (cs: seq<Cache>)
    ensures IsRun(cs, Resent()) && cs[0] == Cache(map[], 0)
    ensures cs[3].initTtl == map[0 := TtlRec(60, LATE), 1 := TtlRec(64, LATE)]
  {
    var before := LateStart();
    var c3 := SentOn(before[2]);
    OneStepMore(before, LateSends(), Send(0, 60, LATE), c3);
    var c4 := Step(c3, Deliver(0, 58, LATE));
    OneStepMore(before + [c3], LateSends() + [Send(0, 60, LATE)], Deliver(0, 58, LATE), c4);
    cs := before + [c3] + [c4];
  }

  /** What the full cache holds after the late sends. */
  function BothSent(): map<Uid, TtlRec> {
    map[0 := TtlRec(64, 0), 1 := TtlRec(64, LATE)]
  }

  function ResentFull(): seq<map<Uid, TtlRec>> {
    [map[], map[0 := TtlRec(64, 0)], BothSent(), BothSent(), FullStep(BothSent(), Deliver(0, 58, LATE))]
  }

  lemma ResentFullRun()
    ensures IsFullRun(ResentFull(), Resent()) && TtlNeverGrows(ResentFull(), Resent())
  {
    var ms, trace := ResentFull(), Resent();
    assert FullNext(ms, trace, 0) && FullNext(ms, trace, 1) && FullNext(ms, trace, 2) && FullNext(ms, trace, 3);
  }

  /** A packet whose record was dropped and that is then sent on is recorded again with its lower TTL:
      it is logged with two hops where it took six. */
  lemma LateResendLosesHops() returns (cs: seq<Cache>)
    ensures BothRun(cs, ResentFull(), Resent()) && cs[0] == Cache(map[], 0) && ResentFull()[0] == map[]
    ensures Monotone(Resent()) && TtlNeverGrows(ResentFull(), Resent())
    ensures RowOf(cs[3].initTtl, Resent()[3]) == Some(HopRow(LATE, 0, 60, 58, 2))
    ensures RowOf(ResentFull()[3], Resent()[3]) == Some(HopRow(LATE, 0, 64, 58, 6))
  {
    cs := ResentRun();
    ResentFullRun();
  }

  /** Or packet 0 is delivered at once. */
  function Unsent(): seq<Event> {
    LateSends() + [Deliver(0, 58, LATE)]
  }

  lemma UnsentRun() returns (cs: seq<Cache>)
    ensures IsRun(cs, Unsent()) && cs[0] == Cache(map[], 0) && cs[2].initTtl == map[1 := TtlRec(64, LATE)]
  {
    var before := LateStart();
    var c3 := Step(before[2], Deliver(0, 58, LATE));
    OneStepMore(before, LateSends(), Deliver(0, 58, LATE), c3);
    cs := before + [c3];
  }

  function UnsentFull(): seq<map<Uid, TtlRec>> {
    [map[], map[0 := TtlRec(64, 0)], BothSent(), FullStep(BothSent(), Deliver(0, 58, LATE))]
  }

  lemma UnsentFullRun()
    ensures IsFullRun(UnsentFull(), Unsent())
  {
    var ms, trace := UnsentFull(), Unsent();
    assert FullNext(ms, trace, 0) && FullNext(ms, trace, 1) && FullNext(ms, trace, 2);
  }

  /** Without being sent on it is not logged at all. */
  lemma LateDeliveryIsNotLogged() returns (cs: seq<Cache>)
    ensures BothRun(cs, UnsentFull(), Unsent()) && cs[0] == Cache(map[], 0) && UnsentFull()[0] == map[]
    ensures Monotone(Unsent())
    ensures RowOf(cs[2].initTtl, Unsent()[2]) == None
    ensures RowOf(UnsentFull()[2], Unsent()[2]) == Some(HopRow(LATE, 0, 64, 58, 6))
  {
    cs := UnsentRun();
    UnsentFullRun();
  }

  // ---- Bounds on size and age ----

  lemma {:induction false} SizeIsBounded(cs: seq<Cache>, trace: seq<Event>, i: nat)
    requires IsRun(cs, trace) && i <= |trace| && |cs[0].initTtl| <= MAX_TTL_CACHE
    ensures |cs[i].initTtl| <= MAX_TTL_CACHE
  {
    if i == 0 {
    } else {
      SizeIsBounded(cs, trace, i - 1);
      assert Next(cs, trace, i - 1);
      StepBounded(cs[i - 1], trace[i - 1]);
    }
  }

  lemma StepBounded(c: Cache, e: Event)
    requires |c.initTtl| <= MAX_TTL_CACHE
    ensures |Step(c, e).initTtl| <= MAX_TTL_CACHE
  {
    if e.Deliver? {
      RemoveShrinks(c.initTtl, e.uid);
    } else if Overflows(c, e) {
      assert Step(c, e).initTtl == map[];
    }
  }

  lemma RemoveShrinks(m: map<Uid, TtlRec>, uid: Uid)
    ensures |m - {uid}| <= |m|
  {
    assert (m - {uid}).Keys == m.Keys - {uid};
    assert |m - {uid}| == |(m - {uid}).Keys| && |m| == |m.Keys|;
  }

  /** No record was already more than eight seconds old at the last eviction. */
  ghost predicate Aged(c: Cache) {
    forall uid :: uid in c.initTtl ==> c.lastEvict - c.initTtl[uid].firstSeen <= TTL_KEEP
  }

  ghost predicate Young(c: Cache, now: int) {
    forall uid :: uid in c.initTtl ==> now - c.initTtl[uid].firstSeen < TTL_KEEP + SECOND
  }

  lemma StepAged(c: Cache, e: Event)
    requires Aged(c) && c.lastEvict - e.now <= TTL_KEEP
    ensures Aged(Step(c, e))
    ensures e.Send? ==> Young(Step(c, e), e.now)
  {
  }

  lemma {:induction false} AlwaysAged(cs: seq<Cache>, trace: seq<Event>, i: nat)
    requires IsRun(cs, trace) && i <= |trace| && Monotone(trace) && Aged(cs[0])
    requires trace != [] ==> cs[0].lastEvict - trace[0].now <= TTL_KEEP
    ensures Aged(cs[i])
    ensures i < |trace| ==> cs[i].lastEvict - trace[i].now <= TTL_KEEP
    ensures 0 < i && trace[i - 1].Send? ==> Young(cs[i], trace[i - 1].now)
  {
    if i == 0 {
    } else {
      AlwaysAged(cs, trace, i - 1);
      assert Next(cs, trace, i - 1);
      StepAged(cs[i - 1], trace[i - 1]);
      assert i < |trace| ==> trace[i - 1].now <= trace[i].now;
    }
  }

  /** After every data packet sent, all records are younger than nine seconds. */
  ghost predicate StaysYoung(cs: seq<Cache>, trace: seq<Event>)
    requires |cs| > |trace|
  {
    forall i :: 0 <= i < |trace| && trace[i].Send? ==> Young(cs[i + 1], trace[i].now)
  }

  /** A run of a simulation that starts at the given time with no records. The time of the last
      eviction is not reset between simulations. */
  ghost predicate IsSimulation(cs: seq<Cache>, trace: seq<Event>, lastEvict: int, start: int) {
    && IsRun(cs, trace) && cs[0] == Cache(map[], lastEvict)
    && Monotone(trace) && (trace != [] ==> trace[0].now >= start)
  }

  /** In all simulations that start at the given time the records stay younger than nine seconds,
      whatever is sent, if and only if the last eviction is not more than eight seconds ahead of it. */
  lemma YoungIffClockNotFarBack(lastEvict: int, start: int)
    ensures (forall cs, trace :: IsSimulation(cs, trace, lastEvict, start) ==> StaysYoung(cs, trace))
      <==> lastEvict - start <= TTL_KEEP
  {
    if lastEvict - start <= TTL_KEEP {
      forall cs, trace | IsSimulation(cs, trace, lastEvict, start) ensures StaysYoung(cs, trace) {
        SimulationStaysYoung(cs, trace, lastEvict, start);
      }
    } else {
      var cs, trace := OldRecordSurvives(lastEvict, start);
      assert IsSimulation(cs, trace, lastEvict, start) && !StaysYoung(cs, trace);
    }
  }

  lemma SimulationStaysYoung(cs: seq<Cache>, trace: seq<Event>, lastEvict: int, start: int)
    requires IsSimulation(cs, trace, lastEvict, start) && lastEvict - start <= TTL_KEEP
    ensures StaysYoung(cs, trace)
  {
    forall i | 0 <= i < |trace| && trace[i].Send? ensures Young(cs[i + 1], trace[i].now) {
      AlwaysAged(cs, trace, i + 1);
    }
  }

  /** Two packets, the second sent just before the eviction would run. */
  lemma OldRecordSurvives(lastEvict: int, start: int) returns (cs: seq<Cache>, trace: seq<Event>)
    requires lastEvict - start > TTL_KEEP
    ensures IsSimulation(cs, trace, lastEvict, start) && !StaysYoung(cs, trace)
  {
    var later := lastEvict + SECOND - 1;
    var first, second := TtlRec(64, start), TtlRec(64, later);
    trace := [Send(0, 64, start), Send(1, 64, later)];
    cs := [Cache(map[], lastEvict), Cache(map[0 := first], lastEvict), Cache(map[0 := first, 1 := second], lastEvict)];
    assert Next(cs, trace, 0) && Next(cs, trace, 1);
    assert !Young(cs[2], trace[1].now) by {
      assert 0 in cs[2].initTtl && cs[2].initTtl[0] == first;
    }
    assert trace[1].Send?;
  }
}
