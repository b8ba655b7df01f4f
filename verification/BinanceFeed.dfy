/** A snapshot and the numbered updates that follow it: the server's book and the client's replica. */
module BinanceFeed {
  import opened Wrappers
  import opened LevelBook

  /** A depth event: absolute amounts after the updates `first` to `last` (U and u in the message). */
  datatype Event = Event(first: int, last: int, bids: Option<seq<Level>>, asks: Option<seq<Level>>)

  datatype Snapshot = Snapshot(lastUpdateId: int, bids: seq<Level>, asks: seq<Level>)

  /** What the client keeps for one symbol. */
  datatype Replica = Replica(lastUpdateId: int, table: AskBidTable)

  /** The client's reaction to an event: older ones are dropped, all others applied. */
  function Step(r: Replica, e: Event): Replica {
    if e.last < r.lastUpdateId then r
    else r.(table := AskBidTable(Apply(r.table.asks, Listed(e.asks)), Apply(r.table.bids, Listed(e.bids))))
  }

  function Run(r: Replica, es: seq<Event>): Replica {
    if es == [] then r else Step(Run(r, es[..|es| - 1]), es[|es| - 1])
  }

  /** A snapshot's levels are stored as they come, zero or not. */
  function StoreAll(b: book, ls: seq<Level>): book
    decreases ls
  {
    if ls == [] then b else StoreAll(b[ls[0].price := ls[0].amount], ls[1..])
  }

  function Loaded(s: Snapshot): Replica {
    Replica(s.lastUpdateId, AskBidTable(StoreAll(map[], s.asks), StoreAll(map[], s.bids)))
  }

  // ----- one side of the server's book

  /** One side of the book after `n` updates; update number `i` is `log[i - 1]`. */
  function SideBook(log: seq<seq<Level>>, n: nat): book
    requires n <= |log|
  {
    if n == 0 then map[] else Apply(SideBook(log, n - 1), log[n - 1])
  }

  ghost predicate Touched(log: seq<seq<Level>>, i: int, j: int, p: real)
    requires 0 <= i && j <= |log|
  {
    exists k :: i <= k < j && LastWrite(log[k], p).Some?
  }

  /**
   * One side of an event fits the log: every level it lists has the amount after update
   * `last`, and it lists every price changed by the updates `first` to `last`.
   */
  ghost predicate Fits(log: seq<seq<Level>>, first: int, last: int, ls: seq<Level>) {
    && 1 <= first <= last <= |log|
    && (forall p :: LastWrite(ls, p).Some? ==> Outcome(LastWrite(ls, p), None) == Lookup(SideBook(log, last), p))
    && (forall p :: Touched(log, first - 1, last, p) ==> LastWrite(ls, p).Some?)
  }

  /**
   * The client's side after update `n`, from a snapshot at `start`: right on all known prices,
   * and empty elsewhere, where the server has changed nothing since the snapshot.
   */
  ghost predicate Tracks(client: book, log: seq<seq<Level>>, start: nat, n: nat, known: set<real>)
    requires start <= n <= |log|
  {
    && (forall p :: p in known ==> Lookup(client, p) == Lookup(SideBook(log, n), p))
    && (forall p :: p !in known ==> p !in client && Lookup(SideBook(log, n), p) == Lookup(SideBook(log, start), p))
  }

  lemma {:induction false} Untouched(log: seq<seq<Level>>, i: nat, j: nat, p: real)
    requires i <= j <= |log| && !Touched(log, i, j, p)
    ensures Lookup(SideBook(log, i), p) == Lookup(SideBook(log, j), p)
    decreases j
  {
    if i == j {
    } else {
      assert !Touched(log, i, j - 1, p);
      Untouched(log, i, j - 1, p);
      ApplyAt(SideBook(log, j - 1), log[j - 1], p);
    }
  }

  /** An event that leaves no gap moves the client's side to update `last`. */
  lemma SideStep(client: book, log: seq<seq<Level>>, start: nat, n: nat, known: set<real>,
                 first: int, last: int, ls: seq<Level>)
    requires start <= n <= last && Fits(log, first, last, ls) && first <= n + 1
    requires Tracks(client, log, start, n, known)
    ensures Tracks(Apply(client, ls), log, start, last, known + Prices(ls))
  {
    forall p
      ensures p in known + Prices(ls) ==> Lookup(Apply(client, ls), p) == Lookup(SideBook(log, last), p)
      ensures p !in known + Prices(ls) ==>
        p !in Apply(client, ls) && Lookup(SideBook(log, last), p) == Lookup(SideBook(log, start), p)
    {
      ApplyAt(client, ls, p);
      PricesWritten(ls, p);
      if LastWrite(ls, p).None? {
        assert !Touched(log, first - 1, last, p);
        assert !Touched(log, n, last, p);
        Untouched(log, n, last, p);
      }
      assert Lookup(Apply(client, ls), p).Some? <==> p in Apply(client, ls);
    }
  }

  // ----- both sides

  datatype Log = Log(bids: seq<seq<Level>>, asks: seq<seq<Level>>)

  /** The updates of a side. */
  function Updates(log: Log, bid: bool): seq<seq<Level>> {
    if bid then log.bids else log.asks
  }

  function Levels(e: Event, bid: bool): seq<Level> {
    Listed(if bid then e.bids else e.asks)
  }

  function Shown(s: Snapshot, bid: bool): seq<Level> {
    if bid then s.bids else s.asks
  }

  function BookOf(r: Replica, bid: bool): book {
    if bid then r.table.bids else r.table.asks
  }

  ghost predicate ValidEvent(log: Log, e: Event) {
    && Fits(log.bids, e.first, e.last, Listed(e.bids))
    && Fits(log.asks, e.first, e.last, Listed(e.asks))
  }

  /** The stream: no gap between events, and none between the snapshot and the first event. */
  ghost predicate Feed(log: Log, start: int, es: seq<Event>) {
    && ValidEvents(log, es)
    && (forall i | 0 < i < |es| :: es[i].first == es[i - 1].last + 1)
    && (es != [] ==> es[0].first <= start + 1)
  }

  /** Each level of a snapshot stands in the server's book; there may be more than the snapshot shows. */
  ghost predicate SideOf(b: book, ls: seq<Level>) {
    forall l | l in ls :: Lookup(b, l.price) == Some(l.amount)
  }

  ghost predicate SnapshotOf(log: Log, s: Snapshot) {
    && 0 <= s.lastUpdateId <= |log.bids| == |log.asks|
    && SideOf(SideBook(log.bids, s.lastUpdateId), s.bids)
    && SideOf(SideBook(log.asks, s.lastUpdateId), s.asks)
  }

  /** The snapshot shows every price of the server's book. */
  ghost predicate Complete(log: Log, s: Snapshot)
    requires SnapshotOf(log, s)
  {
    && SideBook(log.bids, s.lastUpdateId).Keys <= Prices(s.bids)
    && SideBook(log.asks, s.lastUpdateId).Keys <= Prices(s.asks)
  }

  /** The number of the last update that the client has caught up with. */
  function Position(start: int, es: seq<Event>): int {
    if es == [] || es[|es| - 1].last < start then start else es[|es| - 1].last
  }

  /** The prices of the snapshot and of the events that were applied. */
  function Known(s: Snapshot, es: seq<Event>, bid: bool): set<real> {
    if es == [] then Prices(Shown(s, bid))
    else
      var e, before := es[|es| - 1], Known(s, es[..|es| - 1], bid);
      if e.last < s.lastUpdateId then before else before + Prices(Levels(e, bid))
  }

  lemma {:induction false} StoreAllAt(b: book, ls: seq<Level>, server: book, p: real)
    requires SideOf(server, ls)
    ensures Lookup(StoreAll(b, ls), p) == if p in Prices(ls) then Lookup(server, p) else Lookup(b, p)
    decreases ls
  {
    if ls == [] {
    } else {
      assert ls[0] in ls && forall l :: l in ls[1..] ==> l in ls;
      StoreAllAt(b[ls[0].price := ls[0].amount], ls[1..], server, p);
      assert p in Prices(ls) <==> p == ls[0].price || p in Prices(ls[1..]) by {
        assert ls == [ls[0]] + ls[1..];
      }
    }
  }

  lemma {:induction false} StoreAllLast(b: book, ls: seq<Level>, p: real)
    ensures Lookup(StoreAll(b, ls), p) == if LastWrite(ls, p).Some? then LastWrite(ls, p) else Lookup(b, p)
    decreases ls
  {
    if ls == [] {
    } else {
      StoreAllLast(b[ls[0].price := ls[0].amount], ls[1..], p);
    }
  }

  /** A loaded snapshot has for each of its prices the amount listed last, zero or not, and no other price. */
  lemma LoadedShows(s: Snapshot, bid: bool, p: real)
    ensures (forall j | 0 <= j < |Shown(s, bid)| :: Shown(s, bid)[j].price != p) ==> p !in BookOf(Loaded(s), bid)
    ensures forall k | IsLast(Shown(s, bid), k, p) ::
      p in BookOf(Loaded(s), bid) && BookOf(Loaded(s), bid)[p] == Shown(s, bid)[k].amount
    ensures Loaded(s).lastUpdateId == s.lastUpdateId
  {
    hide StoreAll, LastWrite, IsLast;
    StoreAllLast(map[], Shown(s, bid), p);
    LastWriteAt(Shown(s, bid), p);
    InBook(BookOf(Loaded(s), bid), p);
  }

  lemma LoadedTracks(log: seq<seq<Level>>, start: nat, ls: seq<Level>)
    requires start <= |log| && SideOf(SideBook(log, start), ls)
    ensures Tracks(StoreAll(map[], ls), log, start, start, Prices(ls))
  {
    forall p ensures Lookup(StoreAll(map[], ls), p)
        == if p in Prices(ls) then Lookup(SideBook(log, start), p) else None
    {
      StoreAllAt(map[], ls, SideBook(log, start), p);
    }
    assert forall p :: p in StoreAll(map[], ls) <==> Lookup(StoreAll(map[], ls), p).Some?;
  }

  ghost predicate ValidEvents(log: Log, es: seq<Event>) {
    forall i | 0 <= i < |es| :: ValidEvent(log, es[i])
  }

  lemma PositionInLog(log: Log, s: Snapshot, es: seq<Event>)
    requires SnapshotOf(log, s) && ValidEvents(log, es)
    ensures s.lastUpdateId <= Position(s.lastUpdateId, es) <= |log.bids|
  {
    if es != [] {
      assert ValidEvent(log, es[|es| - 1]);
    }
  }

  lemma StepSide(r: Replica, e: Event, bid: bool)
    ensures Step(r, e).lastUpdateId == r.lastUpdateId
    ensures BookOf(Step(r, e), bid)
         == if e.last < r.lastUpdateId then BookOf(r, bid) else Apply(BookOf(r, bid), Levels(e, bid))
  {
  }

  /** Over any run of a gap-free feed the replica tracks the server, on either side. */
  lemma {:induction false} ReplicaTracks(log: Log, s: Snapshot, es: seq<Event>, bid: bool)
    requires SnapshotOf(log, s) && Feed(log, s.lastUpdateId, es)
    ensures s.lastUpdateId <= Position(s.lastUpdateId, es) <= |Updates(log, bid)|
    ensures Run(Loaded(s), es).lastUpdateId == s.lastUpdateId
    ensures Tracks(BookOf(Run(Loaded(s), es), bid), Updates(log, bid), s.lastUpdateId,
                   Position(s.lastUpdateId, es), Known(s, es, bid))
  {
    PositionInLog(log, s, es);
    if es == [] {
      LoadedTracks(Updates(log, bid), s.lastUpdateId, Shown(s, bid));
    } else {
      var start, k := s.lastUpdateId, |es| - 1;
      var before, e := es[..k], es[k];
      ReplicaTracks(log, s, before, bid);
      assert ValidEvent(log, e);
      if k > 0 {
        assert before[k - 1] == es[k - 1];
        assert e.first == es[k - 1].last + 1;
      }
      if e.last >= start {
        var client := BookOf(Run(Loaded(s), before), bid);
        SideStep(client, Updates(log, bid), start, Position(start, before), Known(s, before, bid),
                 e.first, e.last, Levels(e, bid));
      }
    }
  }

  ghost predicate Submap(b: book, c: book) {
    forall p | p in b :: p in c && b[p] == c[p]
  }

  lemma TracksSubmap(client: book, log: seq<seq<Level>>, start: nat, n: nat, known: set<real>)
    requires start <= n <= |log| && Tracks(client, log, start, n, known)
    ensures Submap(client, SideBook(log, n))
  {
    forall p | p in client ensures p in SideBook(log, n) && client[p] == SideBook(log, n)[p] {
      assert Lookup(client, p) == Lookup(SideBook(log, n), p);
    }
  }

  lemma TracksComplete(client: book, log: seq<seq<Level>>, start: nat, n: nat, known: set<real>)
    requires start <= n <= |log| && Tracks(client, log, start, n, known)
    requires SideBook(log, start).Keys <= known
    ensures client == SideBook(log, n)
  {
    forall p ensures Lookup(client, p) == Lookup(SideBook(log, n), p) {
      if p !in known {
        assert p !in SideBook(log, start);
      }
    }
    BooksEqual(client, SideBook(log, n));
  }

  /** Whatever depth the snapshot had, the replica never shows a level that the server does not have. */
  lemma ReplicaIsSubmap(log: Log, s: Snapshot, es: seq<Event>, bid: bool)
    requires SnapshotOf(log, s) && Feed(log, s.lastUpdateId, es)
    ensures 0 <= Position(s.lastUpdateId, es) <= |Updates(log, bid)|
    ensures Submap(BookOf(Run(Loaded(s), es), bid), SideBook(Updates(log, bid), Position(s.lastUpdateId, es)))
  {
    ReplicaTracks(log, s, es, bid);
    TracksSubmap(BookOf(Run(Loaded(s), es), bid), Updates(log, bid), s.lastUpdateId,
                 Position(s.lastUpdateId, es), Known(s, es, bid));
  }

  lemma {:induction false} KnownGrows(s: Snapshot, es: seq<Event>, bid: bool)
    ensures Prices(Shown(s, bid)) <= Known(s, es, bid)
  {
    if es == [] {
    } else {
      KnownGrows(s, es[..|es| - 1], bid);
    }
  }

  /** From a complete snapshot the replica is the server's book. */
  lemma ReplicaIsBook(log: Log, s: Snapshot, es: seq<Event>, bid: bool)
    requires SnapshotOf(log, s) && Feed(log, s.lastUpdateId, es) && Complete(log, s)
    ensures 0 <= Position(s.lastUpdateId, es) <= |Updates(log, bid)|
    ensures BookOf(Run(Loaded(s), es), bid) == SideBook(Updates(log, bid), Position(s.lastUpdateId, es))
  {
    ReplicaTracks(log, s, es, bid);
    KnownGrows(s, es, bid);
    TracksComplete(BookOf(Run(Loaded(s), es), bid), Updates(log, bid), s.lastUpdateId,
                   Position(s.lastUpdateId, es), Known(s, es, bid));
  }

  // ----- runs with gaps

  /** The update whose amount the replica has for a price: that of the last event applied that lists it. */
  function WrittenAt(s: Snapshot, es: seq<Event>, bid: bool, p: real): int {
    if es == [] then s.lastUpdateId
    else
      var e := es[|es| - 1];
      if e.last >= s.lastUpdateId && p in Prices(Levels(e, bid)) then e.last
      else WrittenAt(s, es[..|es| - 1], bid, p)
  }

  /**
   * After any valid events, whatever is missing between them, the replica has for each price
   * what the server had at the update that it was written at.
   */
  lemma {:induction false} ReplicaShows(log: Log, s: Snapshot, es: seq<Event>, bid: bool, p: real)
    requires SnapshotOf(log, s) && ValidEvents(log, es)
    ensures 0 <= WrittenAt(s, es, bid, p) <= |Updates(log, bid)|
    ensures Run(Loaded(s), es).lastUpdateId == s.lastUpdateId
    ensures Lookup(BookOf(Run(Loaded(s), es), bid), p)
         == if p in Known(s, es, bid) then Lookup(SideBook(Updates(log, bid), WrittenAt(s, es, bid, p)), p) else None
  {
    if es == [] {
      StoreAllAt(map[], Shown(s, bid), SideBook(Updates(log, bid), s.lastUpdateId), p);
    } else {
      var before, e := es[..|es| - 1], es[|es| - 1];
      ReplicaShows(log, s, before, bid, p);
      assert ValidEvent(log, e);
      assert Fits(Updates(log, bid), e.first, e.last, Levels(e, bid));
      StepSide(Run(Loaded(s), before), e, bid);
      ApplyAt(BookOf(Run(Loaded(s), before), bid), Levels(e, bid), p);
      PricesWritten(Levels(e, bid), p);
    }
  }

  /**
   * So after any valid events the replica is a submap of the server's book exactly when each
   * known price that the server had when it was written stands at the server as it did then.
   */
  lemma SubmapAfterGaps(log: Log, s: Snapshot, es: seq<Event>, bid: bool)
    requires SnapshotOf(log, s) && ValidEvents(log, es)
    ensures 0 <= Position(s.lastUpdateId, es) <= |Updates(log, bid)|
    ensures forall p :: 0 <= WrittenAt(s, es, bid, p) <= |Updates(log, bid)|
    ensures
      var client, updates := BookOf(Run(Loaded(s), es), bid), Updates(log, bid);
      var server := SideBook(updates, Position(s.lastUpdateId, es));
      Submap(client, server) <==>
        forall p | p in Known(s, es, bid) && p in SideBook(updates, WrittenAt(s, es, bid, p)) ::
          Lookup(server, p) == Lookup(SideBook(updates, WrittenAt(s, es, bid, p)), p)
  {
    hide SideBook, Lookup, Run, Known, WrittenAt, Submap;
    PositionInLog(log, s, es);
    var client, updates := BookOf(Run(Loaded(s), es), bid), Updates(log, bid);
    var server := SideBook(updates, Position(s.lastUpdateId, es));
    forall p
      ensures 0 <= WrittenAt(s, es, bid, p) <= |updates|
      ensures p in client <==> p in Known(s, es, bid) && p in SideBook(updates, WrittenAt(s, es, bid, p))
      ensures p in client ==> Lookup(client, p) == Lookup(SideBook(updates, WrittenAt(s, es, bid, p)), p)
    {
      ReplicaShows(log, s, es, bid, p);
      InBook(client, p);
      InBook(SideBook(updates, WrittenAt(s, es, bid, p)), p);
    }
    SubmapLookups(client, server);
  }

  lemma SubmapLookups(b: book, c: book)
    ensures Submap(b, c) <==> forall p | p in b :: Lookup(c, p) == Lookup(b, p)
  {
    if forall p | p in b :: Lookup(c, p) == Lookup(b, p) {
      forall p | p in b ensures p in c && b[p] == c[p] {
        assert Lookup(c, p) == Lookup(b, p);
      }
    }
  }

  /** No price that the client keeps has changed between its update `n` and the event's first. */
  ghost predicate GapHarmless(client: book, log: seq<seq<Level>>, n: nat, first: int, ls: seq<Level>)
    requires n <= |log| && 1 <= first <= |log| + 1
  {
    forall p | p in client && LastWrite(ls, p).None? ::
      Lookup(SideBook(log, first - 1), p) == Lookup(SideBook(log, n), p)
  }

  /** A listed price gets the server's amount, any other keeps its own; the server's is as before the event. */
  lemma EventAt(client: book, log: seq<seq<Level>>, first: int, last: int, ls: seq<Level>, p: real)
    requires Fits(log, first, last, ls)
    ensures LastWrite(ls, p).Some? ==> Lookup(Apply(client, ls), p) == Lookup(SideBook(log, last), p)
    ensures LastWrite(ls, p).None? ==> Lookup(Apply(client, ls), p) == Lookup(client, p)
    ensures LastWrite(ls, p).None? ==> Lookup(SideBook(log, last), p) == Lookup(SideBook(log, first - 1), p)
  {
    hide Apply, SideBook, LastWrite;
    ApplyAt(client, ls, p);
    if !Touched(log, first - 1, last, p) {
      Untouched(log, first - 1, last, p);
    }
  }

  lemma InBook(b: book, p: real)
    ensures p in b <==> Lookup(b, p).Some?
  {
  }

  /**
   * An event after a gap leaves a side a submap exactly when none of the prices that the client
   * keeps has changed at the server in the updates `n + 1` to `first - 1` that are missing.
   */
  lemma GapSide(client: book, log: seq<seq<Level>>, start: nat, n: nat, known: set<real>,
                first: int, last: int, ls: seq<Level>)
    requires start <= n < first && Fits(log, first, last, ls)
    requires Tracks(client, log, start, n, known)
    ensures Submap(Apply(client, ls), SideBook(log, last)) <==> GapHarmless(client, log, n, first, ls)
  {
    var after, server := Apply(client, ls), SideBook(log, last);
    forall p
      ensures p in client ==> Lookup(client, p) == Lookup(SideBook(log, n), p)
      ensures LastWrite(ls, p).Some? ==> Lookup(after, p) == Lookup(server, p)
      ensures LastWrite(ls, p).None? ==> (p in after <==> p in client) && Lookup(after, p) == Lookup(client, p)
      ensures LastWrite(ls, p).None? ==> Lookup(server, p) == Lookup(SideBook(log, first - 1), p)
    {
      hide Fits, Apply, SideBook, LastWrite, Lookup;
      EventAt(client, log, first, last, ls, p);
      InBook(after, p);
      InBook(client, p);
    }
    hide Apply, SideBook, LastWrite, Lookup, Submap, Tracks, Fits;
    SubmapLookups(after, server);
  }

  /** After a gap-free run, an event that skips updates leaves each side a submap under that condition. */
  lemma SubmapAfterGap(log: Log, s: Snapshot, es: seq<Event>, e: Event, bid: bool)
    requires SnapshotOf(log, s) && Feed(log, s.lastUpdateId, es) && ValidEvent(log, e)
    requires Position(s.lastUpdateId, es) < e.first
    ensures 0 <= Position(s.lastUpdateId, es) <= |Updates(log, bid)|
    ensures e.last <= |Updates(log, bid)|
    ensures var r, n := Run(Loaded(s), es), Position(s.lastUpdateId, es);
      Submap(BookOf(Step(r, e), bid), SideBook(Updates(log, bid), e.last)) <==>
        GapHarmless(BookOf(r, bid), Updates(log, bid), n, e.first, Levels(e, bid))
  {
    hide Run, Feed, Loaded, Tracks, Submap, GapHarmless, Apply, SideBook, Touched, Position, Known;
    var r, n := Run(Loaded(s), es), Position(s.lastUpdateId, es);
    ReplicaTracks(log, s, es, bid);
    StepSide(r, e, bid);
    assert Fits(Updates(log, bid), e.first, e.last, Levels(e, bid));
    GapSide(BookOf(r, bid), Updates(log, bid), s.lastUpdateId, n, Known(s, es, bid), e.first, e.last, Levels(e, bid));
  }

  // ----- the event that ends with the snapshot's own update

  /** The amounts that a list leaves on its prices are all in the table already. */
  ghost predicate AlreadyThere(b: book, ls: seq<Level>) {
    forall p | p in Prices(ls) && LastWrite(ls, p) != Some(0.0) :: p in b
  }

  lemma ReplayedSide(client: book, server: book, ls: seq<Level>)
    requires Submap(client, server)
    requires forall p :: LastWrite(ls, p).Some? ==> Outcome(LastWrite(ls, p), None) == Lookup(server, p)
    ensures Apply(client, ls) == client <==> AlreadyThere(client, ls)
  {
    forall p
      ensures Lookup(Apply(client, ls), p) == Lookup(client, p)
        <==> (p in Prices(ls) && LastWrite(ls, p) != Some(0.0) ==> p in client)
    {
      ApplyAt(client, ls, p);
      PricesWritten(ls, p);
    }
    if AlreadyThere(client, ls) {
      BooksEqual(Apply(client, ls), client);
    }
  }

  /**
   * The client drops events with `last` below the snapshot's number, not the one that equals it.
   * Applied to the snapshot, that event changes nothing exactly when every amount it carries
   * is on a price that the snapshot shows.
   */
  lemma ReplayedEvent(log: Log, s: Snapshot, e: Event)
    requires SnapshotOf(log, s) && ValidEvent(log, e) && e.last == s.lastUpdateId
    ensures Step(Loaded(s), e) == Loaded(s)
       <==> AlreadyThere(Loaded(s).table.bids, Listed(e.bids)) && AlreadyThere(Loaded(s).table.asks, Listed(e.asks))
  {
    ReplicaIsSubmap(log, s, [], true);
    ReplicaIsSubmap(log, s, [], false);
    ReplayedSide(Loaded(s).table.bids, SideBook(log.bids, e.last), Listed(e.bids));
    ReplayedSide(Loaded(s).table.asks, SideBook(log.asks, e.last), Listed(e.asks));
  }

  /** On a complete snapshot the condition always holds. */
  lemma ReplayedOnComplete(log: Log, s: Snapshot, e: Event)
    requires SnapshotOf(log, s) && ValidEvent(log, e) && e.last == s.lastUpdateId && Complete(log, s)
    ensures Step(Loaded(s), e) == Loaded(s)
  {
    ReplicaIsBook(log, s, [], true);
    ReplicaIsBook(log, s, [], false);
    var t := Loaded(s).table;
    forall p | p in Prices(Listed(e.bids)) && LastWrite(Listed(e.bids), p) != Some(0.0) ensures p in t.bids {
      PricesWritten(Listed(e.bids), p);
    }
    forall p | p in Prices(Listed(e.asks)) && LastWrite(Listed(e.asks), p) != Some(0.0) ensures p in t.asks {
      PricesWritten(Listed(e.asks), p);
    }
    ReplayedEvent(log, s, e);
  }

  lemma OneLevel(b: book, l: Level)
    ensures Apply(b, [l]) == ApplyLevel(b, l) && StoreAll(b, [l]) == b[l.price := l.amount]
    ensures forall p :: LastWrite([l], p) == (if l.price == p then Some(l.amount) else None)
  {
    assert [l][1..] == [];
  }

  lemma TwoLevels(b: book, k: Level, l: Level)
    ensures Apply(b, [k, l]) == ApplyLevel(ApplyLevel(b, k), l)
    ensures forall p :: LastWrite([k, l], p) ==
                        (if l.price == p then Some(l.amount) else if k.price == p then Some(k.amount) else None)
  {
    OneLevel(ApplyLevel(b, k), l);
    assert [k, l][1..] == [l];
  }

  /** With a depth-limited snapshot it can fail: here the event adds a price that the snapshot left out. */
  lemma ReplayedEventAddsLevel(log: Log, s: Snapshot, e: Event)
    requires log == Log([[Level(1.0, 5.0)], [Level(2.0, 3.0)]], [[], []])
    requires s == Snapshot(2, [Level(2.0, 3.0)], [])
    requires e == Event(1, 2, Some([Level(1.0, 5.0), Level(2.0, 3.0)]), None)
    ensures SnapshotOf(log, s) && ValidEvent(log, e) && e.last == s.lastUpdateId
    ensures Step(Loaded(s), e) != Loaded(s)
  {
    var k, l := Level(1.0, 5.0), Level(2.0, 3.0);
    OneLevel(map[], k);
    OneLevel(map[], l);
    OneLevel(map[1.0 := 5.0], l);
    TwoLevels(map[2.0 := 3.0], k, l);
    assert SideBook(log.bids, 1) == map[1.0 := 5.0];
    assert SideBook(log.bids, 2) == map[1.0 := 5.0, 2.0 := 3.0];
    assert SideBook(log.asks, 1) == map[] && SideBook(log.asks, 2) == map[];
    assert Loaded(s).table.bids == map[2.0 := 3.0];
    assert 1.0 in Step(Loaded(s), e).table.bids;
  }

  /** The client does not check that events follow each other: after a gap it can show a removed level. */
  lemma GapBreaksReplica(log: Log, s: Snapshot, e: Event)
    requires log == Log([[Level(1.0, 5.0)], [Level(1.0, 0.0)], [Level(2.0, 3.0)]], [[], [], []])
    requires s == Snapshot(1, [Level(1.0, 5.0)], [])
    requires e == Event(3, 3, Some([Level(2.0, 3.0)]), None)
    ensures SnapshotOf(log, s) && ValidEvent(log, e) && e.first > s.lastUpdateId + 1
    ensures !Submap(Step(Loaded(s), e).table.bids, SideBook(log.bids, e.last))
  {
    var k, z, l := Level(1.0, 5.0), Level(1.0, 0.0), Level(2.0, 3.0);
    OneLevel(map[], k);
    OneLevel(map[1.0 := 5.0], z);
    OneLevel(map[], l);
    assert SideBook(log.bids, 1) == map[1.0 := 5.0];
    assert SideBook(log.bids, 2) == map[];
    assert SideBook(log.bids, 3) == map[2.0 := 3.0];
    assert SideBook(log.asks, 1) == map[] && SideBook(log.asks, 2) == map[] && SideBook(log.asks, 3) == map[];
    assert Loaded(s).table.bids == map[1.0 := 5.0];
    assert 1.0 in BookOf(Loaded(s), true) && LastWrite(Levels(e, true), 1.0).None?;
    assert Lookup(SideBook(log.bids, 2), 1.0) != Lookup(SideBook(log.bids, 1), 1.0);
    SubmapAfterGap(log, s, [], e, true);
  }
}
