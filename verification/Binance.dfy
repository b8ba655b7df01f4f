/** The order book replica of exchange/binance.cpp. */
module Binance {
  import opened Wrappers
  import opened LevelBook
  import opened BinanceFeed

  datatype DepthInfo = DepthInfo(lastUpdateId: int, prevU: int)

  /** The entry that `infos[symbol]` refers to; a missing one is created with zeros. */
  function InfoOf(infos: map<string, DepthInfo>, symbol: string): DepthInfo {
    if symbol in infos then infos[symbol] else DepthInfo(0, 0)
  }

  class Exchange {
    var symbolAskbidTable: map<string, AskBidTable>
    var depthInfo: map<string, DepthInfo>
    var wsconnState: bool
    var streamed: set<string>  // the symbols in the address of the open stream

    constructor ()
      ensures symbolAskbidTable == map[] && depthInfo == map[] && StreamFits()
    {
      symbolAskbidTable, depthInfo := map[], map[];
      wsconnState, streamed := false, {};
    }

    /** The stream is open for the symbols that have a table, if there are any. */
    ghost predicate StreamFits()
      reads this
    {
      streamed == symbolAskbidTable.Keys && (wsconnState <==> streamed != {})
    }

    /** Terminating closes the stream for all symbols. */
    method Terminate()
      modifies this`wsconnState, this`streamed
      ensures !wsconnState && streamed == {}
    {
      wsconnState, streamed := false, {};
    }

    /** The thread connects to a stream of all stored symbols; without any it ends. */
    method StartStream()
      modifies this`wsconnState, this`streamed
      ensures symbolAskbidTable == map[] ==> wsconnState == old(wsconnState) && streamed == old(streamed)
      ensures symbolAskbidTable != map[] ==> StreamFits()
    {
      if symbolAskbidTable.Keys != {} {
        wsconnState, streamed := true, symbolAskbidTable.Keys;
      }
    }

    /** What is kept for a symbol; for an unknown one, what looking it up creates. */
    ghost function ReplicaOf(symbol: string): Replica
      reads this
    {
      Replica(InfoOf(depthInfo, symbol).lastUpdateId, TableOf(symbolAskbidTable, symbol))
    }

    /** Reads a snapshot; `None` stands for an answer that is not a JSON object. */
    method ParseSnapshotToMap(json: Option<Snapshot>, smb: string)
      modifies this`symbolAskbidTable, this`depthInfo
      ensures symbolAskbidTable == old(symbolAskbidTable)[smb :=
        if json.Some? then Loaded(json.value).table else AskBidTable(map[], map[])]
      ensures json.None? ==> depthInfo == old(depthInfo)
      ensures json.Some? ==> smb in depthInfo
      ensures json.Some? ==>
        depthInfo == old(depthInfo)[smb := DepthInfo(json.value.lastUpdateId, depthInfo[smb].prevU)]
    {
      hide StoreAll, TableOf;
      symbolAskbidTable := symbolAskbidTable[smb := TableOf(symbolAskbidTable, smb).(asks := map[])];
      symbolAskbidTable := symbolAskbidTable[smb := TableOf(symbolAskbidTable, smb).(bids := map[])];
      ghost var noAsks, empty := TableOf(old(symbolAskbidTable), smb).(asks := map[]), AskBidTable(map[], map[]);
      TableSetTwice(old(symbolAskbidTable), smb, noAsks, empty);
      if json.Some? {
        var d := json.value;
        var uninitialized: int := *;
        depthInfo := depthInfo[smb := DepthInfo(d.lastUpdateId, uninitialized)];
        StoreBids(d.bids, smb);
        ghost var bidsOnly := AskBidTable(map[], StoreAll(map[], d.bids));
        TableSetTwice(old(symbolAskbidTable), smb, empty, bidsOnly);
        StoreAsks(d.asks, smb);
        TableSetTwice(old(symbolAskbidTable), smb, bidsOnly, Loaded(d).table);
      }
    }

    method StoreBids(bids: seq<Level>, smb: string)
      requires smb in symbolAskbidTable
      modifies this`symbolAskbidTable
      ensures var t := old(symbolAskbidTable)[smb];
        symbolAskbidTable == old(symbolAskbidTable)[smb := t.(bids := StoreAll(t.bids, bids))]
    {
      ghost var t := symbolAskbidTable[smb];
      for i := 0 to |bids|
        invariant symbolAskbidTable == old(symbolAskbidTable)[smb := t.(bids := StoreAll(t.bids, bids[..i]))]
      {
        var item := bids[i];
        StoreAllSnoc(t.bids, bids[..i], item);
        assert bids[..i + 1] == bids[..i] + [item];
        var table := symbolAskbidTable[smb];
        symbolAskbidTable := symbolAskbidTable[smb := table.(bids := table.bids[item.price := item.amount])];
      }
      assert bids[..|bids|] == bids;
    }

    method StoreAsks(asks: seq<Level>, smb: string)
      requires smb in symbolAskbidTable
      modifies this`symbolAskbidTable
      ensures var t := old(symbolAskbidTable)[smb];
        symbolAskbidTable == old(symbolAskbidTable)[smb := t.(asks := StoreAll(t.asks, asks))]
    {
      ghost var t := symbolAskbidTable[smb];
      for i := 0 to |asks|
        invariant symbolAskbidTable == old(symbolAskbidTable)[smb := t.(asks := StoreAll(t.asks, asks[..i]))]
      {
        var item := asks[i];
        StoreAllSnoc(t.asks, asks[..i], item);
        assert asks[..i + 1] == asks[..i] + [item];
        var table := symbolAskbidTable[smb];
        symbolAskbidTable := symbolAskbidTable[smb := table.(asks := table.asks[item.price := item.amount])];
      }
      assert asks[..|asks|] == asks;
    }

    /** Handles a depth event. */
    method ParsePriceamountToMap(symbol: string, data: Event)
      modifies this`symbolAskbidTable, this`depthInfo
      ensures old(StreamFits()) && symbol in streamed ==> StreamFits()
      ensures symbolAskbidTable.Keys == old(symbolAskbidTable.Keys)
        + if Stores(data, InfoOf(old(depthInfo), symbol).lastUpdateId) then {symbol} else {}
      ensures ReplicaOf(symbol) == Step(old(ReplicaOf(symbol)), data)
      ensures forall s :: s != symbol ==> ReplicaOf(s) == old(ReplicaOf(s))
      ensures depthInfo == old(depthInfo)[symbol :=
        if data.last < InfoOf(old(depthInfo), symbol).lastUpdateId then InfoOf(old(depthInfo), symbol)
        else InfoOf(old(depthInfo), symbol).(prevU := data.last)]
      ensures symbolAskbidTable ==
        if data.last < InfoOf(old(depthInfo), symbol).lastUpdateId then old(symbolAskbidTable)
        else WithAsks(WithBids(old(symbolAskbidTable), symbol, Listed(data.bids)), symbol, Listed(data.asks))
    {
      hide WithAsks, WithBids, Apply;
      var info := InfoOf(depthInfo, symbol);
      depthInfo := depthInfo[symbol := info];
      if data.last < info.lastUpdateId {
        return;
      }
      depthInfo := depthInfo[symbol := info.(prevU := data.last)];
      ghost var infos := depthInfo;
      WithNothing(symbolAskbidTable, symbol);
      if data.bids.Some? {
        for i := 0 to |data.bids.value|
          invariant depthInfo == infos
          invariant symbolAskbidTable == WithBids(old(symbolAskbidTable), symbol, data.bids.value[..i])
        {
          var item := data.bids.value[i];
          var table := TableOf(symbolAskbidTable, symbol);
          WithBidsSnoc(old(symbolAskbidTable), symbol, data.bids.value[..i], item);
          assert data.bids.value[..i + 1] == data.bids.value[..i] + [item];
          if item.amount == 0.0 {
            symbolAskbidTable := symbolAskbidTable[symbol := table.(bids := table.bids - {item.price})];
          } else {
            symbolAskbidTable := symbolAskbidTable[symbol := table.(bids := table.bids[item.price := item.amount])];
          }
        }
        assert data.bids.value[..|data.bids.value|] == data.bids.value;
      }
      ghost var mid := symbolAskbidTable;
      WithNothing(mid, symbol);
      if data.asks.Some? {
        for i := 0 to |data.asks.value|
          invariant depthInfo == infos
          invariant symbolAskbidTable == WithAsks(mid, symbol, data.asks.value[..i])
        {
          var item := data.asks.value[i];
          var table := TableOf(symbolAskbidTable, symbol);
          WithAsksSnoc(mid, symbol, data.asks.value[..i], item);
          assert data.asks.value[..i + 1] == data.asks.value[..i] + [item];
          if item.amount == 0.0 {
            symbolAskbidTable := symbolAskbidTable[symbol := table.(asks := table.asks - {item.price})];
          } else {
            symbolAskbidTable := symbolAskbidTable[symbol := table.(asks := table.asks[item.price := item.amount])];
          }
        }
        assert data.asks.value[..|data.asks.value|] == data.asks.value;
      }
      SidesIndependent(old(symbolAskbidTable), symbol, Listed(data.asks), Listed(data.bids));
      TablesKept(old(symbolAskbidTable), symbol, Listed(data.asks), Listed(data.bids));
    }

    /** Events of all symbols, as they come: each replica takes the steps of its own events. */
    method Follow(events: seq<(string, Event)>)
      modifies this`symbolAskbidTable, this`depthInfo
      ensures forall s :: ReplicaOf(s) == Run(old(ReplicaOf(s)), EventsOf(events, s))
      ensures forall s :: s in symbolAskbidTable <==>
        s in old(symbolAskbidTable) || Creates(EventsOf(events, s), InfoOf(old(depthInfo), s).lastUpdateId)
    {
      hide Step, Stores;
      for i := 0 to |events|
        invariant forall s :: ReplicaOf(s) == Run(old(ReplicaOf(s)), EventsOf(events[..i], s))
        invariant forall s :: InfoOf(depthInfo, s).lastUpdateId == InfoOf(old(depthInfo), s).lastUpdateId
        invariant forall s :: s in symbolAskbidTable <==>
          s in old(symbolAskbidTable) || Creates(EventsOf(events[..i], s), InfoOf(old(depthInfo), s).lastUpdateId)
      {
        label before:
        ParsePriceamountToMap(events[i].0, events[i].1);
        forall s ensures ReplicaOf(s) == Run(old(ReplicaOf(s)), EventsOf(events[..i + 1], s)) {
          assert ReplicaOf(s) == if s == events[i].0 then Step(old@before(ReplicaOf(s)), events[i].1)
                                 else old@before(ReplicaOf(s));
          FollowStep(old(ReplicaOf(s)), events, i, s);
        }
        forall s ensures s in symbolAskbidTable <==>
          s in old(symbolAskbidTable) || Creates(EventsOf(events[..i + 1], s), InfoOf(old(depthInfo), s).lastUpdateId)
        {
          CreatesStep(InfoOf(old(depthInfo), s).lastUpdateId, events, i, s);
        }
      }
      assert events[..|events|] == events;
    }

    /**
     * Fetches a snapshot for an emptied table; only then does the stream start again. Until
     * then the old connection may deliver `late` events. Other symbols keep their tables,
     * without new snapshots for the events that no connection delivers.
     */
    method SubscribeDepth(symbol: string, snapshot: Option<Snapshot>, late: seq<(string, Event)>)
      modifies this
      ensures snapshot.Some? ==> ReplicaOf(symbol) == Loaded(snapshot.value)
      ensures snapshot.None? ==> TableOf(symbolAskbidTable, symbol) == AskBidTable(map[], map[])
      ensures forall s :: s != symbol ==> ReplicaOf(s) == Run(old(ReplicaOf(s)), EventsOf(late, s))
      ensures StreamFits()
      ensures forall s :: s in streamed <==>
        s == symbol || s in old(symbolAskbidTable) || Creates(EventsOf(late, s), InfoOf(old(depthInfo), s).lastUpdateId)
    {
      hide Run, EventsOf, Creates, StoreAll;
      symbolAskbidTable := symbolAskbidTable[symbol := AskBidTable(map[], map[])];
      if wsconnState {
        Terminate();
      }
      Follow(late);
      ParseSnapshotToMap(snapshot, symbol);
      assert symbol in symbolAskbidTable;
      StartStream();
    }

    /**
     * Until the stream starts again the old connection may deliver `late` events. The symbol is
     * forgotten, except for those; if one of them lists a level, its table comes back, and the
     * new stream carries the symbol again.
     */
    method CancelSubscribeDepth(symbol: string, late: seq<(string, Event)>)
      modifies this
      ensures ReplicaOf(symbol) == Run(Replica(0, AskBidTable(map[], map[])), EventsOf(late, symbol))
      ensures forall s :: s != symbol ==> ReplicaOf(s) == Run(old(ReplicaOf(s)), EventsOf(late, s))
      ensures symbol in symbolAskbidTable <==> Creates(EventsOf(late, symbol), 0)
      ensures forall s | s != symbol :: s in symbolAskbidTable <==>
        s in old(symbolAskbidTable) || Creates(EventsOf(late, s), InfoOf(old(depthInfo), s).lastUpdateId)
      ensures old(StreamFits()) ==> StreamFits()
    {
      hide Run, EventsOf, Creates, StoreAll;
      if symbol in symbolAskbidTable {
        symbolAskbidTable := symbolAskbidTable - {symbol};
      }
      depthInfo := depthInfo - {symbol};
      if wsconnState {
        Terminate();
      }
      Follow(late);
      if symbolAskbidTable.Keys != {} {
        StartStream();
      }
    }

    /**
     * A subscription followed by a stream with events of any symbols. If the symbol's own events
     * leave no gap, its replica shows levels of the server's book only; the others follow theirs.
     */
    method SubscribeAndFollow(symbol: string, snapshot: Snapshot, late: seq<(string, Event)>,
                              events: seq<(string, Event)>, ghost log: Log)
      requires SnapshotOf(log, snapshot) && Feed(log, snapshot.lastUpdateId, EventsOf(events, symbol))
      modifies this
      ensures ReplicaOf(symbol) == Run(Loaded(snapshot), EventsOf(events, symbol))
      ensures forall s :: s != symbol ==>
        ReplicaOf(s) == Run(Run(old(ReplicaOf(s)), EventsOf(late, s)), EventsOf(events, s))
      ensures var n := Position(snapshot.lastUpdateId, EventsOf(events, symbol));
        && 0 <= n <= |log.bids| == |log.asks|
        && Submap(ReplicaOf(symbol).table.bids, SideBook(log.bids, n))
        && Submap(ReplicaOf(symbol).table.asks, SideBook(log.asks, n))
    {
      SubscribeDepth(symbol, Some(snapshot), late);
      Follow(events);
      ReplicaIsSubmap(log, snapshot, EventsOf(events, symbol), true);
      ReplicaIsSubmap(log, snapshot, EventsOf(events, symbol), false);
    }
  }

  /** An event that is not dropped and lists a level: it looks up the symbol's table. */
  predicate Stores(e: Event, lastUpdateId: int) {
    e.last >= lastUpdateId && (Listed(e.bids) != [] || Listed(e.asks) != [])
  }

  ghost predicate Creates(es: seq<Event>, lastUpdateId: int) {
    exists i :: 0 <= i < |es| && Stores(es[i], lastUpdateId)
  }

  lemma CreatesStep(lastUpdateId: int, events: seq<(string, Event)>, i: nat, symbol: string)
    requires i < |events|
    ensures Creates(EventsOf(events[..i + 1], symbol), lastUpdateId) <==>
      Creates(EventsOf(events[..i], symbol), lastUpdateId)
        || (symbol == events[i].0 && Stores(events[i].1, lastUpdateId))
  {
    hide Stores;
    assert events[..i + 1][..i] == events[..i];
    var es, e := EventsOf(events[..i], symbol), events[i].1;
    assert (es + [e])[|es|] == e && forall k | 0 <= k < |es| :: (es + [e])[k] == es[k];
    if k :| 0 <= k < |es| && Stores(es[k], lastUpdateId) {
      assert Stores((es + [e])[k], lastUpdateId);
    }
  }

  /** A symbol's events in a stream. */
  function EventsOf(events: seq<(string, Event)>, symbol: string): seq<Event> {
    if events == [] then []
    else
      var before, e := EventsOf(events[..|events| - 1], symbol), events[|events| - 1];
      if e.0 == symbol then before + [e.1] else before
  }

  lemma FollowStep(r: Replica, events: seq<(string, Event)>, i: nat, symbol: string)
    requires i < |events|
    ensures var before := Run(r, EventsOf(events[..i], symbol));
      Run(r, EventsOf(events[..i + 1], symbol)) == if symbol == events[i].0 then Step(before, events[i].1) else before
  {
    hide Step;
    assert events[..i + 1][..i] == events[..i];
    var es := EventsOf(events[..i], symbol);
    assert (es + [events[i].1])[..|es|] == es;
  }

  lemma TableSetTwice(tables: map<string, AskBidTable>, symbol: string, t: AskBidTable, u: AskBidTable)
    ensures TableOf(tables[symbol := t], symbol) == t && tables[symbol := t][symbol := u] == tables[symbol := u]
  {
  }

  lemma {:induction false} StoreAllSnoc(b: book, ls: seq<Level>, l: Level)
    ensures StoreAll(b, ls + [l]) == StoreAll(b, ls)[l.price := l.amount]
    decreases ls
  {
    if ls == [] {
      assert [] + [l] == [l] && [l][1..] == [];
    } else {
      StoreAllSnoc(b[ls[0].price := ls[0].amount], ls[1..], l);
      assert (ls + [l])[1..] == ls[1..] + [l];
    }
  }
}
