/** The telemetry object itself: its state is updated in place by the trace callbacks, and the files it
    writes are the lists ctrlLog, sumLog and hopLog. */
module Telemetry {
  import opened FiniteSums
  import opened ControlLog
  import opened Options
  import opened RunPrefix
  import Cache = TtlCache

  /** The answer of Classify for a control message. */
  datatype Classified = Classified(id: RtId, bytes: nat)

  /** A row of hops as it is written, with the run and the addresses of the packet. */
  datatype HopLine = HopLine(id: RunId, source: Address, destination: Address, row: Cache.HopRow)

  class RoutingTelemetry {
    var started: bool
    var cfg: RoutingTelemetryConfig
    var ctrlLog: seq<Row>
    var sumLog: seq<SummaryRow>
    var hopLog: seq<HopLine>
    var pktCount: map<RtKey, nat>
    var byteCount: map<RtKey, nat>
    var streamIndex: map<StreamKey, nat>
    var initTtl: map<Cache.Uid, Cache.TtlRec>
    var lastTtlEvict: int

    ghost function TheCounters(): Counters
      reads this
    {
      Counters(pktCount, byteCount, streamIndex)
    }

    ghost function TheCache(): Cache.Cache
      reads this
    {
      Cache.Cache(initTtl, lastTtlEvict)
    }

    /** While a session runs the counters agree with its log; between sessions they are empty. */
    ghost predicate Valid()
      reads this
    {
      && (started ==> Agrees(TheCounters(), ctrlLog) && Indexed(ctrlLog))
      && (!started ==> TheCounters() == NO_COUNTERS)
      && (started ==> Labelled())
      && |initTtl| <= Cache.MAX_TTL_CACHE
    }

    /** All rows of a session carry its run. */
    ghost predicate Labelled()
      reads this
    {
      && (forall i :: 0 <= i < |ctrlLog| ==> ctrlLog[i].id == RunId(cfg.seed, cfg.run, cfg.routing))
      && (forall i :: 0 <= i < |sumLog| ==> sumLog[i].id == RunId(cfg.seed, cfg.run, cfg.routing))
      && (forall i :: 0 <= i < |hopLog| ==> hopLog[i].id == RunId(cfg.seed, cfg.run, cfg.routing))
    }

    constructor (cfg: RoutingTelemetryConfig)
      ensures this.cfg == cfg
      ensures Valid() && !started && TheCache() == Cache.Cache(map[], 0)
    {
      started, this.cfg := false, cfg;
      ctrlLog, sumLog, hopLog := [], [], [];
      pktCount, byteCount, streamIndex, initTtl, lastTtlEvict := map[], map[], map[], map[], 0;
    }

    /** A second Start is ignored; the first one opens new files. The TTL cache is left as it is. */
    method Start(cfg: RoutingTelemetryConfig)
      requires Valid()
      modifies this`started, this`cfg, this`ctrlLog, this`sumLog, this`hopLog
      ensures Valid() && started
      ensures this.cfg == if old(started) then old(this.cfg) else cfg
      ensures old(started) ==> ctrlLog == old(ctrlLog) && sumLog == old(sumLog) && hopLog == old(hopLog)
      ensures !old(started) ==> ctrlLog == [] && sumLog == [] && hopLog == []
    {
      if started {
        return;
      }
      started, this.cfg := true, cfg;
      ctrlLog, sumLog, hopLog := [], [], [];
    }

    /** Writes a summary row for each key in the order of the keys, then empties all maps. */
    method Stop()
      requires Valid()
      modifies this`started, this`sumLog, this`pktCount, this`byteCount, this`streamIndex, this`initTtl
      ensures Valid() && !started
      ensures !old(started) ==> sumLog == old(sumLog) && initTtl == old(initTtl)
      ensures old(started) ==> initTtl == map[] && TheCounters() == NO_COUNTERS
      ensures old(started) ==> |old(sumLog)| <= |sumLog| && sumLog[..|old(sumLog)|] == old(sumLog)
      ensures old(started) ==> IsSummary(IdOf(cfg), old(TheCounters()), sumLog[|old(sumLog)|..])
      ensures old(started) ==> AddsUp(sumLog[|old(sumLog)|..], ctrlLog)
      ensures old(started) ==> SummarizesMessages(IdOf(cfg), sumLog[|old(sumLog)|..], MessagesOf(ctrlLog))
    {
      if !started {
        return;
      }
      WriteSummary();
      Close();
    }

    method Close()
      modifies this`started, this`pktCount, this`byteCount, this`streamIndex, this`initTtl
      ensures Valid() && !started && initTtl == map[] && TheCounters() == NO_COUNTERS
    {
      pktCount, byteCount, streamIndex, initTtl := map[], map[], map[], map[];
      started := false;
    }

    method WriteSummary()
      requires Valid() && started
      modifies this`sumLog
      ensures |old(sumLog)| <= |sumLog| && sumLog[..|old(sumLog)|] == old(sumLog)
      ensures IsSummary(IdOf(cfg), TheCounters(), sumLog[|old(sumLog)|..])
      ensures AddsUp(sumLog[|old(sumLog)|..], ctrlLog)
      ensures SummarizesMessages(IdOf(cfg), sumLog[|old(sumLog)|..], MessagesOf(ctrlLog))
    {
      var rows := Summarize();
      SummaryPktsAddUp(IdOf(cfg), TheCounters(), ctrlLog, rows);
      SummaryBytesAddUp(IdOf(cfg), TheCounters(), ctrlLog, rows);
      SummaryMeans(IdOf(cfg), TheCounters(), ctrlLog, rows);
      sumLog := sumLog + rows;
      assert sumLog[|old(sumLog)|..] == rows;
    }

    /** The loop over the packet counts, which a std::map yields in the order of its keys. */
    method Summarize() returns (rows: seq<SummaryRow>)
      ensures IsSummary(IdOf(cfg), TheCounters(), rows)
    {
      rows := [];
      var todo := pktCount.Keys;
      while todo != {}
        invariant todo <= pktCount.Keys && SortedByKey(rows)
        invariant forall i :: 0 <= i < |rows| ==> rows[i].key in pktCount && rows[i].key !in todo
        invariant forall i :: 0 <= i < |rows| ==>
          rows[i] == SummaryRow(IdOf(cfg), rows[i].key, pktCount[rows[i].key], Value(byteCount, rows[i].key))
        invariant forall k :: k in pktCount && k !in todo ==> HasKey(rows, k)
        invariant forall i, k :: 0 <= i < |rows| && k in todo ==> Less(rows[i].key, k)
        decreases todo
      {
        ghost var least := LeastExists(todo);
        var k :| k in todo && forall other | other in todo :: !Less(other, k);
        forall other | other in todo && other != k ensures Less(k, other) {
          LessIsTotal(k, other);
        }
        var row := SummaryRow(IdOf(cfg), k, pktCount[k], Value(byteCount, k));
        forall key ensures HasKey(rows + [row], key) <==> HasKey(rows, key) || row.key == key {
          OneKeyMore(rows, row, key);
        }
        rows := rows + [row];
        todo := todo - {k};
      }
    }

    /** One bump in each map and one row in the log. Outside a session there is no log: the maps are
        bumped all the same, and then the null stream is dereferenced, which ends the program. */
    method LogCtrl(m: Message) returns (nullStream: bool)
      requires Valid()
      modifies this`ctrlLog, this`pktCount, this`byteCount, this`streamIndex
      ensures nullStream <==> !started
      ensures !nullStream ==> Valid() && CountsMessages(TheCounters(), MessagesOf(ctrlLog))
      ensures TheCounters() == CountersAfter(old(TheCounters()), m)
      ensures ctrlLog == old(ctrlLog) + if nullStream then [] else [RowFor(IdOf(cfg), old(TheCounters()), m)]
    {
      if started {
        LogKeepsAgreement(IdOf(cfg), TheCounters(), ctrlLog, m);
      }
      nullStream := Record(m);
      if started {
        AgreeingCountsMessages(TheCounters(), ctrlLog);
      }
    }

    method Record(m: Message) returns (nullStream: bool)
      modifies this`ctrlLog, this`pktCount, this`byteCount, this`streamIndex
      ensures nullStream <==> !started
      ensures TheCounters() == CountersAfter(old(TheCounters()), m)
      ensures ctrlLog == old(ctrlLog) + if nullStream then [] else [RowFor(IdOf(cfg), old(TheCounters()), m)]
    {
      var key := KeyOf(m);
      pktCount := pktCount[key := (Value(pktCount, key) + 1) % TWO_64];
      byteCount := byteCount[key := (Value(byteCount, key) + m.bytes) % TWO_64];
      var transferMode := if m.ip.destination == 0xffff_ffff || 0xe000_0000 <= m.ip.destination <= 0xefff_ffff then 1 else 0;
      var land := 2;
      if m.id.originator == 0 {
        land := 2;
      } else if m.ip.source == m.id.originator {
        land := 0;
      } else {
        land := 1;
      }
      var isRerr := 0;
      if m.id.proto == RT_AODV && m.id.msgType == AODVTYPE_RERR {
        isRerr := 1;
      }
      var sk := StreamKey(key, m.ip.destination);
      var streamIdx := (Value(streamIndex, sk) + 1) % TWO_32;
      streamIndex := streamIndex[sk := streamIdx];
      if !started {
        return true;
      }
      ctrlLog := ctrlLog + [Row(IdOf(cfg), m, transferMode, land, isRerr, streamIdx)];
      return false;
    }

    /** The loop over the records that drops those that are too old. */
    method DropOldRecords(now: int)
      modifies this`initTtl
      ensures initTtl == Cache.Fresh(old(initTtl), now)
    {
      var todo := initTtl.Keys;
      while todo != {}
        invariant todo <= initTtl.Keys <= old(initTtl).Keys
        invariant forall uid :: uid in initTtl ==> initTtl[uid] == old(initTtl)[uid]
        invariant forall uid :: uid in old(initTtl) && uid !in todo ==>
          (uid in initTtl <==> now - old(initTtl)[uid].firstSeen <= Cache.TTL_KEEP)
        decreases todo
      {
        var uid :| uid in todo;
        todo := todo - {uid};
        if now - initTtl[uid].firstSeen > Cache.TTL_KEEP {
          initTtl := initTtl - {uid};
        }
      }
    }

    /** A control packet sent is logged; a data packet goes through the cache. */
    method OnIpv4Tx(now: int, node: nat, header: Option<IpHeader>, uid: Cache.Uid,
                    control: Option<Classified>, sizes: Sizes) returns (nullStream: bool)
      requires Valid()
      modifies this
      ensures nullStream <==> header.Some? && control.Some? && !started
      ensures !nullStream ==> Valid()
      ensures started == old(started) && cfg == old(cfg) && sumLog == old(sumLog) && hopLog == old(hopLog)
      ensures header.None? || control.None? ==> TheCounters() == old(TheCounters()) && ctrlLog == old(ctrlLog)
      ensures header.Some? && control.Some? ==>
        var m := Message(now, node, Tx, control.value.id, control.value.bytes, header.value, sizes);
        TheCounters() == CountersAfter(old(TheCounters()), m)
        && ctrlLog == old(ctrlLog) + if nullStream then [] else [RowFor(IdOf(cfg), old(TheCounters()), m)]
      ensures TheCache()
        == if header.Some? && control.None? then Cache.Step(old(TheCache()), Cache.Send(uid, header.value.ttl, now)) else old(TheCache())
    {
      nullStream := false;
      if header.None? {
        return;
      }
      if control.Some? {
        nullStream := LogCtrl(Message(now, node, Tx, control.value.id, control.value.bytes, header.value, sizes));
      } else {
        CacheOnSend(now, uid, header.value.ttl);
      }
    }

    method CacheOnSend(now: int, uid: Cache.Uid, ttl: Cache.Ttl)
      requires |initTtl| <= Cache.MAX_TTL_CACHE
      modifies this`initTtl, this`lastTtlEvict
      ensures |initTtl| <= Cache.MAX_TTL_CACHE
      ensures TheCache() == Cache.Step(old(TheCache()), Cache.Send(uid, ttl, now))
    {
      Cache.StepBounded(TheCache(), Cache.Send(uid, ttl, now));
      if uid !in initTtl {
        initTtl := initTtl[uid := Cache.TtlRec(ttl, now)];
      }
      if now - lastTtlEvict >= Cache.SECOND {
        lastTtlEvict := now;
        DropOldRecords(now);
      }
      assert TheCache() == Cache.BeforeCap(old(TheCache()), uid, ttl, now);
      if |initTtl| > Cache.MAX_TTL_CACHE {
        initTtl := map[];
      }
    }

    /** A control packet delivered is logged; for a data packet whose first TTL is known a row of hops
        is written, if the file is open, and the record is dropped. */
    method OnIpv4Rx(now: int, node: nat, header: IpHeader, uid: Cache.Uid,
                    control: Option<Classified>, sizes: Sizes) returns (nullStream: bool)
      requires Valid()
      modifies this
      ensures nullStream <==> control.Some? && !started
      ensures !nullStream ==> Valid()
      ensures started == old(started) && cfg == old(cfg) && sumLog == old(sumLog)
      ensures control.None? ==> TheCounters() == old(TheCounters()) && ctrlLog == old(ctrlLog)
      ensures control.Some? ==>
        var m := Message(now, node, Rx, control.value.id, control.value.bytes, header, sizes);
        TheCounters() == CountersAfter(old(TheCounters()), m)
        && ctrlLog == old(ctrlLog) + if nullStream then [] else [RowFor(IdOf(cfg), old(TheCounters()), m)]
      ensures control.None? ==> TheCache() == Cache.Step(old(TheCache()), Cache.Deliver(uid, header.ttl, now))
      ensures control.Some? ==> TheCache() == old(TheCache()) && hopLog == old(hopLog)
      ensures control.None? ==>
        var row := Cache.RowOf(old(initTtl), Cache.Deliver(uid, header.ttl, now));
        hopLog == old(hopLog) + if started && row.Some? then [HopLine(IdOf(cfg), header.source, header.destination, row.value)] else []
    {
      nullStream := false;
      if control.Some? {
        nullStream := LogCtrl(Message(now, node, Rx, control.value.id, control.value.bytes, header, sizes));
      } else {
        Cache.StepBounded(TheCache(), Cache.Deliver(uid, header.ttl, now));
        if uid in initTtl {
          var sent := initTtl[uid].ttl;
          var hops := sent - header.ttl;
          if hops < 0 {
            hops := 0;
          }
          if started {
            var row := Cache.HopRow(now, uid, sent, header.ttl, hops);
            hopLog := hopLog + [HopLine(IdOf(cfg), header.source, header.destination, row)];
          }
        }
        initTtl := initTtl - {uid};
      }
    }
  }

  /** Starts the telemetry of a run under its normalized names. While another run is still recorded,
      the call is ignored. */
  method StartForRun(telemetry: RoutingTelemetry, scenarioId: string, routingName: string, seed: nat, runNumber: nat,
                     snapshotSeconds: real)
    requires telemetry.Valid()
    modifies telemetry
    ensures telemetry.Valid() && telemetry.started
    ensures telemetry.cfg == if old(telemetry.started) then old(telemetry.cfg)
                             else ConfigFor(scenarioId, routingName, seed, runNumber, snapshotSeconds)
    ensures !old(telemetry.started) ==>
      && telemetry.cfg.seed == seed && telemetry.cfg.run == runNumber && telemetry.cfg.snapshotPeriod == snapshotSeconds
      && telemetry.cfg.routing == Map(UpperChar, routingName)
      && telemetry.cfg.filePrefix == RunFiles(scenarioId, routingName, seed, runNumber)
    ensures telemetry.ctrlLog == if old(telemetry.started) then old(telemetry.ctrlLog) else []
    ensures telemetry.sumLog == if old(telemetry.started) then old(telemetry.sumLog) else []
    ensures telemetry.hopLog == if old(telemetry.started) then old(telemetry.hopLog) else []
    ensures telemetry.TheCounters() == old(telemetry.TheCounters()) && telemetry.TheCache() == old(telemetry.TheCache())
  {
    var normScenario := NormalizeScenario(scenarioId);
    var normRouting := NormalizeRouting(routingName);
    var prefix := BuildPrefix(normScenario, normRouting, seed, runNumber, "results");
    telemetry.Start(RoutingTelemetryConfig(seed, runNumber, normRouting, prefix, snapshotSeconds));
  }
}
