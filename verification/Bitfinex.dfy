/** The message handler of exchange/bitfinex.cpp and the book report of main.cpp. */
module Bitfinex {
  import opened Wrappers
  import opened Ordered
  import opened LevelBook
  import opened TradeTotals

  const BTC := "tBTCUSD"

  /** A book entry: how many orders stand at a price, and their amount, negative for asks. */
  datatype Entry = Entry(price: real, cnt: int, amt: real)

  datatype Trade = Trade(amt: real, price: real)

  /** What follows the channel id in an array message. */
  datatype Payload =
    | Executed(tag: string, trade: Trade)  // three elements, the last an array of four
    | Trades(trades: seq<Trade>)           // an array of arrays of four
    | Single(entry: Entry)                 // an array of three numbers
    | Entries(entries: seq<Entry>)         // an array of arrays of three
    | Other                                // anything without an array, such as a heartbeat

  datatype Message =
    | Subscribed(channel: string, symbol: string, chanId: int)
    | Data(chanId: int, payload: Payload)
    | Ignored  // neither an event about a channel nor an array

  datatype State = State(tables: map<string, AskBidTable>, tradeChanid: int, bookChanid: int,
                         subState: bool, totals: Totals)

  function Abs(x: real): real {
    if x < 0.0 then -x else x
  }

  /** A trade is added to the side's amount, and the amount so far, times the price, to its sum. */
  function AddTrade(t: Totals, tr: Trade): Totals {
    if tr.amt > 0.0 then
      var amount := t.bidAmount + tr.amt;
      t.(bidAmount := amount, bidSum := t.bidSum + amount * tr.price)
    else if tr.amt < 0.0 then
      var amount := t.askAmount + Abs(tr.amt);
      t.(askAmount := amount, askSum := t.askSum + amount * tr.price)
    else t
  }

  function AddTrades(t: Totals, trs: seq<Trade>): Totals {
    if trs == [] then t else AddTrade(AddTrades(t, trs[..|trs| - 1]), trs[|trs| - 1])
  }

  function SetEntry(t: AskBidTable, e: Entry): AskBidTable {
    if e.cnt > 0 then
      if e.amt > 0.0 then t.(bids := t.bids[e.price := e.amt])
      else if e.amt < 0.0 then t.(asks := t.asks[e.price := e.amt])
      else t
    else if e.cnt == 0 then
      if e.amt == 1.0 then t.(bids := t.bids - {e.price})
      else if e.amt == -1.0 then t.(asks := t.asks - {e.price})
      else t
    else t
  }

  /** Whether an entry reaches one of the statements that look up the table. */
  predicate Effective(e: Entry) {
    (e.cnt > 0 && e.amt != 0.0) || (e.cnt == 0 && (e.amt == 1.0 || e.amt == -1.0))
  }

  function PutEntry(tables: map<string, AskBidTable>, e: Entry): map<string, AskBidTable> {
    if Effective(e) then tables[BTC := SetEntry(TableOf(tables, BTC), e)] else tables
  }

  function PutEntries(tables: map<string, AskBidTable>, es: seq<Entry>): map<string, AskBidTable> {
    if es == [] then tables else PutEntry(PutEntries(tables, es[..|es| - 1]), es[|es| - 1])
  }

  /** The state after a message; None where an accessor meets a value of another type and aborts. */
  function Handled(s: State, msg: Message): Option<State> {
    match msg
    case Ignored => Some(s)
    case Subscribed(channel, symbol, id) =>
      if channel == "book" && symbol == BTC then Some(s.(bookChanid := id, subState := true))
      else if channel == "trades" && symbol == BTC then Some(s.(tradeChanid := id, subState := true))
      else Some(s)
    case Data(id, payload) =>
      if id == s.tradeChanid then OnTrades(s, payload)
      else if id == s.bookChanid then OnBook(s, payload)
      else Some(s)
  }

  function OnTrades(s: State, payload: Payload): Option<State> {
    match payload
    case Executed(tag, tr) => Some(if tag == "te" then s.(totals := AddTrade(s.totals, tr)) else s)
    case Trades(trs) => Some(if |trs| > 1 then s.(totals := AddTrades(s.totals, trs)) else s)
    case Single(_) => None
    case Entries(es) => if |es| > 1 then None else Some(s)
    case Other => Some(s)
  }

  function OnBook(s: State, payload: Payload): Option<State> {
    match payload
    case Single(e) => Some(s.(tables := PutEntry(s.tables, e)))
    case Entries(es) =>
      if |es| == 3 then None
      else if |es| > 3 then Some(s.(tables := PutEntries(s.tables, es)))
      else Some(s)
    case Trades(trs) => if |trs| >= 3 then None else Some(s)
    case Executed(_, _) => Some(s)
    case Other => Some(s)
  }

  function Run(s: State, msgs: seq<Message>): Option<State> {
    if msgs == [] then Some(s)
    else
      var r := Run(s, msgs[..|msgs| - 1]);
      if r.None? then None else Handled(r.value, msgs[|msgs| - 1])
  }

  /** The prices above come first when the tables are walked backwards. */
  predicate Above(x: real, y: real) {
    x > y
  }

  function Descending(b: book): (ks: seq<real>)
    ensures Ascending(ks, Above) && |ks| == |b| && forall k :: k in ks <==> k in b
  {
    InOrder(b.Keys, Above)
  }

  /** Price times amount over the first `n` prices. */
  function Worth(b: book, ks: seq<real>, n: nat): real
    requires n <= |ks| && forall k | k in ks :: k in b
  {
    if n == 0 then 0.0 else Worth(b, ks, n - 1) + Value(b[ks[n - 1]], ks[n - 1])
  }

  /** The report covers the seventeen highest prices of a side. */
  function ReportDepth(b: book): nat {
    if |Descending(b)| < 17 then |Descending(b)| else 17
  }

  function ReportSum(b: book): real {
    Worth(b, Descending(b), ReportDepth(b))
  }

  class Exchange {
    var symbolAskbidTable: map<string, AskBidTable>
    var tradeBtcChanid: int
    var bookBtcChanid: int
    var subState: bool
    var askAmount: real
    var bidAmount: real
    var askSum: real
    var bidSum: real
    var bookAsksum: real
    var bookBidsum: real

    ghost function Current(): State
      reads this
    {
      State(symbolAskbidTable, tradeBtcChanid, bookBtcChanid, subState, Totals(askAmount, bidAmount, askSum, bidSum))
    }

    method CountTrade(amt: real, price: real)
      modifies this`askAmount, this`bidAmount, this`askSum, this`bidSum
      ensures Current() == old(Current()).(totals := AddTrade(old(Current()).totals, Trade(amt, price)))
    {
      if amt > 0.0 {
        bidAmount := bidAmount + amt;
        bidSum := bidSum + bidAmount * price;
      } else if amt < 0.0 {
        askAmount := askAmount + Abs(amt);
        askSum := askSum + askAmount * price;
      }
    }

    method StoreEntry(price: real, cnt: int, amt: real)
      modifies this`symbolAskbidTable
      ensures symbolAskbidTable == PutEntry(old(symbolAskbidTable), Entry(price, cnt, amt))
    {
      var table := TableOf(symbolAskbidTable, BTC);
      if cnt > 0 {
        if amt > 0.0 {
          symbolAskbidTable := symbolAskbidTable[BTC := table.(bids := table.bids[price := amt])];
        } else if amt < 0.0 {
          symbolAskbidTable := symbolAskbidTable[BTC := table.(asks := table.asks[price := amt])];
        }
      } else if cnt == 0 {
        if amt == 1.0 {
          symbolAskbidTable := symbolAskbidTable[BTC := table.(bids := table.bids - {price})];
        } else if amt == -1.0 {
          symbolAskbidTable := symbolAskbidTable[BTC := table.(asks := table.asks - {price})];
        }
      }
    }

    /** `ok` is false where the original aborts. */
    method OnMessage(msg: Message) returns (ok: bool)
      modifies this`symbolAskbidTable, this`tradeBtcChanid, this`bookBtcChanid, this`subState
      modifies this`askAmount, this`bidAmount, this`askSum, this`bidSum
      ensures Handled(old(Current()), msg) == if ok then Some(Current()) else None
    {
      ok := true;
      match msg
      case Ignored =>
      case Subscribed(channel, symbol, id) =>
        if channel == "book" {
          if symbol == BTC {
            bookBtcChanid := id;
            subState := true;
          }
        } else if channel == "trades" {
          if symbol == BTC {
            tradeBtcChanid := id;
            subState := true;
          }
        }
      case Data(id, payload) =>
        if id == tradeBtcChanid {
          ok := OnTradeData(payload);
        } else if id == bookBtcChanid {
          ok := OnBookData(payload);
        }
    }

    method OnTradeData(payload: Payload) returns (ok: bool)
      modifies this`askAmount, this`bidAmount, this`askSum, this`bidSum
      ensures OnTrades(old(Current()), payload) == if ok then Some(Current()) else None
    {
      ok := true;
      match payload
      case Executed(tag, tr) =>
        if tag == "te" {
          CountTrade(tr.amt, tr.price);
        }
      case Trades(items) =>
        if |items| > 1 {
          for i := 0 to |items|
            invariant Current() == old(Current()).(totals := AddTrades(old(Current()).totals, items[..i]))
          {
            CountTrade(items[i].amt, items[i].price);
            assert items[..i + 1][..i] == items[..i];
          }
          assert items[..|items|] == items;
        }
      case Single(_) =>
        ok := false;
      case Entries(items) =>
        ok := |items| <= 1;
      case Other =>
    }

    method OnBookData(payload: Payload) returns (ok: bool)
      modifies this`symbolAskbidTable
      ensures OnBook(old(Current()), payload) == if ok then Some(Current()) else None
    {
      ok := true;
      match payload
      case Single(e) =>
        StoreEntry(e.price, e.cnt, e.amt);
      case Entries(items) =>
        if |items| == 3 {
          ok := false;
        } else if |items| > 3 {
          for i := 0 to |items|
            invariant symbolAskbidTable == PutEntries(old(symbolAskbidTable), items[..i])
          {
            StoreEntry(items[i].price, items[i].cnt, items[i].amt);
            assert items[..i + 1][..i] == items[..i];
          }
          assert items[..|items|] == items;
        }
      case Trades(items) =>
        ok := |items| < 3;
      case Executed(_, _) =>
      case Other =>
    }

    /** Walks a side's prices from the highest, up to the counter's limit. */
    method SumAsks(table: book)
      modifies this`bookAsksum
      ensures bookAsksum == old(bookAsksum) + ReportSum(table)
    {
      hide InOrder, Descending, Ascending;
      var ks := Descending(table);
      var cntAsk := 0;
      for i := 0 to |ks|
        invariant i == cntAsk <= 16 && bookAsksum == old(bookAsksum) + Worth(table, ks, i)
      {
        bookAsksum := bookAsksum + ks[i] * table[ks[i]];
        if cntAsk > 15 {
          break;
        }
        cntAsk := cntAsk + 1;
      }
    }

    method SumBids(table: book)
      modifies this`bookBidsum
      ensures bookBidsum == old(bookBidsum) + ReportSum(table)
    {
      hide InOrder, Descending, Ascending;
      var ks := Descending(table);
      var cntBid := 0;
      for i := 0 to |ks|
        invariant i == cntBid <= 16 && bookBidsum == old(bookBidsum) + Worth(table, ks, i)
      {
        bookBidsum := bookBidsum + ks[i] * table[ks[i]];
        if cntBid > 15 {
          break;
        }
        cntBid := cntBid + 1;
      }
    }

    /**
     * One pass of the report loop of main.cpp; a ratio is undefined where it divides by zero.
     * The sums start at zero in every pass but the first, for which nothing sets them. Looking
     * the tables up creates them.
     */
    method BookReport() returns (askbid: Option<real>, bidask: Option<real>)
      modifies this`symbolAskbidTable, this`bookAsksum, this`bookBidsum
      ensures bookAsksum == 0.0 && bookBidsum == 0.0
      ensures symbolAskbidTable == old(symbolAskbidTable)[BTC := TableOf(old(symbolAskbidTable), BTC)]
      ensures
        var asks := old(bookAsksum) + ReportSum(TableOf(symbolAskbidTable, "tBTCUSD").asks);
        var bids := old(bookBidsum) + ReportSum(TableOf(symbolAskbidTable, "tBTCUSD").bids);
        && askbid == (if bids == 0.0 then None else Some(asks / bids))
        && bidask == (if asks == 0.0 then None else Some(bids / asks))
    {
      hide ReportSum;
      var table := TableOf(symbolAskbidTable, BTC);
      symbolAskbidTable := symbolAskbidTable[BTC := table];
      SumAsks(table.asks);
      SumBids(table.bids);
      askbid := Ratio(bookAsksum, bookBidsum);
      bidask := Ratio(bookBidsum, bookAsksum);
      bookAsksum := 0.0;
      bookBidsum := 0.0;
    }

    /** The end of a window in bitfinextrade. */
    method TradeReport() returns (askbid: Option<real>, bidask: Option<real>)
      modifies this`askAmount, this`bidAmount, this`askSum, this`bidSum
      ensures Current() == old(Current()).(totals := ZERO)
      ensures askbid == if old(bidSum) == 0.0 then None else Some(old(askSum) / old(bidSum))
      ensures bidask == if old(askSum) == 0.0 then None else Some(old(bidSum) / old(askSum))
    {
      askbid := Ratio(askSum, bidSum);
      bidask := Ratio(bidSum, askSum);
      askAmount := 0.0;
      askSum := 0.0;
      bidAmount := 0.0;
      bidSum := 0.0;
    }
  }

  function Ratio(x: real, y: real): Option<real> {
    if y == 0.0 then None else Some(x / y)
  }

  // ----- signs

  ghost predicate Signed(t: AskBidTable) {
    (forall p | p in t.bids :: t.bids[p] > 0.0) && (forall p | p in t.asks :: t.asks[p] < 0.0)
  }

  ghost predicate PositivePrices(t: AskBidTable) {
    (forall p | p in t.bids :: p > 0.0) && (forall p | p in t.asks :: p > 0.0)
  }

  function EntriesOf(msg: Message): seq<Entry> {
    if msg.Data? && msg.payload.Single? then [msg.payload.entry]
    else if msg.Data? && msg.payload.Entries? then msg.payload.entries
    else []
  }

  ghost predicate PricesPositive(es: seq<Entry>) {
    forall i | 0 <= i < |es| :: es[i].price > 0.0
  }

  lemma {:induction false} PutEntriesSigned(tables: map<string, AskBidTable>, es: seq<Entry>)
    requires Signed(TableOf(tables, BTC))
    ensures Signed(TableOf(PutEntries(tables, es), BTC))
    ensures PricesPositive(es) && PositivePrices(TableOf(tables, BTC))
      ==> PositivePrices(TableOf(PutEntries(tables, es), BTC))
  {
    if es == [] {
    } else {
      PutEntriesSigned(tables, es[..|es| - 1]);
    }
  }

  lemma PutSingle(tables: map<string, AskBidTable>, e: Entry)
    ensures PutEntries(tables, [e]) == PutEntry(tables, e)
  {
    assert [e][..0] == [];
  }

  /** Over every run of messages, bids stay positive and asks negative, and prices keep their sign. */
  lemma {:induction false} RunSigned(s: State, msgs: seq<Message>)
    requires Signed(TableOf(s.tables, BTC)) && Run(s, msgs).Some?
    ensures Signed(TableOf(Run(s, msgs).value.tables, BTC))
    ensures PositivePrices(TableOf(s.tables, BTC)) && (forall i | 0 <= i < |msgs| :: PricesPositive(EntriesOf(msgs[i])))
      ==> PositivePrices(TableOf(Run(s, msgs).value.tables, BTC))
  {
    if msgs == [] {
    } else {
      var before, msg := msgs[..|msgs| - 1], msgs[|msgs| - 1];
      RunSigned(s, before);
      var t := Run(s, before).value.tables;
      PutEntriesSigned(t, EntriesOf(msg));
      if msg.Data? && msg.payload.Single? {
        PutSingle(t, msg.payload.entry);
      }
    }
  }

  lemma {:induction false} WorthSign(b: book, ks: seq<real>, n: nat, sign: real)
    requires n <= |ks| && forall k | k in ks :: k in b
    requires forall k | k in b :: k > 0.0 && b[k] * sign > 0.0
    ensures n > 0 ==> Worth(b, ks, n) * sign > 0.0
    ensures n == 0 ==> Worth(b, ks, n) == 0.0
  {
    if n == 0 {
    } else {
      WorthSign(b, ks, n - 1, sign);
      var k := ks[n - 1];
      assert k in b;
      PositiveProduct(k, b[k], sign);
      assert Worth(b, ks, n) * sign == Worth(b, ks, n - 1) * sign + (k * b[k]) * sign;
    }
  }

  lemma PositiveProduct(k: real, a: real, sign: real)
    requires k > 0.0 && a * sign > 0.0
    ensures (k * a) * sign > 0.0
  {
    assert (k * a) * sign == k * (a * sign);
  }

  lemma NotEmpty(b: book)
    ensures b != map[] ==> ReportDepth(b) > 0
  {
    if Descending(b) == [] {
      forall k ensures Lookup(b, k) == Lookup(map[], k) {
        assert k in Descending(b) <==> k in b;
      }
      BooksEqual(b, map[]);
    }
  }

  /**
   * With entries on both sides, at positive prices, neither report sum is zero and both
   * ratios are defined and negative; that is why their absolute values are shown.
   */
  lemma RatiosNegative(t: AskBidTable)
    requires Signed(t) && PositivePrices(t) && t.asks != map[] && t.bids != map[]
    ensures ReportSum(t.asks) < 0.0 < ReportSum(t.bids)
    ensures
      var askbid := Ratio(ReportSum(t.asks), ReportSum(t.bids));
      var bidask := Ratio(ReportSum(t.bids), ReportSum(t.asks));
      askbid.Some? && bidask.Some? && askbid.value < 0.0 && bidask.value < 0.0
  {
    NotEmpty(t.asks);
    NotEmpty(t.bids);
    WorthSign(t.asks, Descending(t.asks), ReportDepth(t.asks), -1.0);
    WorthSign(t.bids, Descending(t.bids), ReportDepth(t.bids), 1.0);
    NegativeRatio(ReportSum(t.asks), ReportSum(t.bids));
  }

  lemma NegativeRatio(x: real, y: real)
    requires x < 0.0 < y
    ensures x / y < 0.0 && y / x < 0.0
  {
    var q, r := x / y, y / x;
    assert q * y == x && r * x == y;
    NonNegativeProduct(q, y);
    NonNegativeProduct(r, -x);
  }

  lemma NonNegativeProduct(q: real, y: real)
    requires y >= 0.0
    ensures q >= 0.0 ==> q * y >= 0.0
  {
  }

  // ----- what the report adds up

  ghost predicate OnlyAt(ks: seq<real>, i: nat, p: real) {
    i < |ks| && ks[i] == p && forall j | 0 <= j < |ks| && j != i :: ks[j] != p
  }

  lemma WithoutMembers(ks: seq<real>, i: nat, p: real)
    requires OnlyAt(ks, i, p)
    ensures forall k :: k in Without(ks, i) <==> k in ks && k != p
  {
    forall k ensures k in Without(ks, i) <==> k in ks && k != p {
      if j :| 0 <= j < |ks| && ks[j] == k && k != p {
        WithoutAt(ks, i, if j < i then j else j - 1);
      }
      if j :| 0 <= j < |ks| - 1 && Without(ks, i)[j] == k {
        WithoutAt(ks, i, j);
      }
    }
  }

  lemma WorthStep(b: book, ks: seq<real>, n: nat)
    requires n < |ks| && forall k | k in ks :: k in b
    ensures Worth(b, ks, n + 1) == Worth(b, ks, n) + Value(b[ks[n]], ks[n])
  {
  }

  lemma {:induction false} WorthWithout(b: book, p: real, ks: seq<real>, i: nat, n: nat)
    requires p in b && OnlyAt(ks, i, p) && n < |ks| && forall k | k in ks :: k in b
    ensures forall k | k in Without(ks, i) :: k in b - {p}
    ensures n <= |Without(ks, i)|
    ensures Worth(b - {p}, Without(ks, i), n)
         == if n <= i then Worth(b, ks, n) else Worth(b, ks, n + 1) - Value(b[p], p)
  {
    WithoutMembers(ks, i, p);
    if n == 0 {
      if i == 0 {
        WorthStep(b, ks, 0);
      }
    } else {
      hide Worth, Without, Value;
      WorthWithout(b, p, ks, i, n - 1);
      WithoutAt(ks, i, n - 1);
      WorthStep(b - {p}, Without(ks, i), n - 1);
      WorthStep(b, ks, n - 1);
      WorthStep(b, ks, n);
    }
  }

  /** Where `p` stands among the prices; those above it come before. */
  lemma PlaceOf(b: book, p: real) returns (i: nat)
    requires p in b
    ensures OnlyAt(Descending(b), i, p)
    ensures forall q | q in b && q > p :: q in Descending(b)[..i]
  {
    hide Descending;
    var ks := Descending(b);
    i :| 0 <= i < |ks| && ks[i] == p;
    forall j | 0 <= j < |ks| && j != i ensures if j < i then ks[j] > p else ks[j] < p {
      assert if j < i then Above(ks[j], ks[i]) else Above(ks[i], ks[j]);
    }
    forall q | q in b && q > p ensures q in ks[..i] {
      var j :| 0 <= j < |ks| && ks[j] == q;
      assert ks[..i][j] == q;
    }
  }

  lemma DescendingWithout(b: book, p: real, i: nat)
    requires p in b && OnlyAt(Descending(b), i, p)
    ensures Descending(b - {p}) == Without(Descending(b), i)
  {
    var ks := Descending(b);
    AscendingWithout(ks, i, Above);
    hide Without, Ascending;
    WithoutMembers(ks, i, p);
    InOrderUnique(Without(ks, i), (b - {p}).Keys, Above);
  }

  /** A side without prices is worth nothing. */
  lemma ReportOfNothing()
    ensures ReportSum(map[]) == 0.0
  {
  }

  lemma ReportWithout(b: book, p: real)
    requires p in b && |b| <= 17
    ensures ReportSum(b) == ReportSum(b - {p}) + Value(b[p], p)
  {
    hide Descending, Worth, Without, OnlyAt, Value;
    var ks := Descending(b);
    var i := PlaceOf(b, p);
    DescendingWithout(b, p, i);
    Place(ks, i, p);
    WorthWithout(b, p, ks, i, |ks| - 1);
    WorthStep(b, ks, |ks| - 1);
    assert ReportSum(b) == Worth(b, ks, |ks|);
    assert ReportSum(b - {p}) == Worth(b - {p}, Without(ks, i), |ks| - 1);
  }

  /** With at most seventeen prices, each adds its price times its amount. */
  lemma ReportOfFew(b: book, p: real)
    requires p in b && |b| <= 17
    ensures ReportSum(b) == ReportSum(b - {p}) + p * b[p]
  {
    hide ReportSum;
    ReportWithout(b, p);
  }

  lemma Place(ks: seq<real>, i: nat, p: real)
    requires OnlyAt(ks, i, p)
    ensures i < |ks| && ks[i] == p && |Without(ks, i)| == |ks| - 1
  {
  }

  /** A price below seventeen others adds nothing. */
  lemma ReportOfMany(b: book, p: real, higher: set<real>)
    requires p in b && |higher| >= 17 && forall q | q in higher :: q in b && q > p
    ensures ReportSum(b) == ReportSum(b - {p})
  {
    hide Descending, Worth, Without, OnlyAt, Value;
    var ks := Descending(b);
    var i := PlaceOf(b, p);
    DescendingWithout(b, p, i);
    Place(ks, i, p);
    forall q | q in higher ensures q in ks[..i] {
      assert q in b && q > p;
    }
    SizeBound(higher, ks[..i]);
    WorthWithout(b, p, ks, i, 17);
  }

  /** Whole runs: after any messages with positive prices from empty tables, the report is sound. */
  lemma ReportAfterRun(s: State, msgs: seq<Message>)
    requires s.tables == map[] && Run(s, msgs).Some?
    requires forall i | 0 <= i < |msgs| :: PricesPositive(EntriesOf(msgs[i]))
    ensures var t := TableOf(Run(s, msgs).value.tables, BTC);
      t.asks != map[] && t.bids != map[] ==> ReportSum(t.asks) < 0.0 < ReportSum(t.bids)
  {
    RunSigned(s, msgs);
    var t := TableOf(Run(s, msgs).value.tables, BTC);
    if t.asks != map[] && t.bids != map[] {
      RatiosNegative(t);
    }
  }

  // ----- batches

  function AsSingles(chanId: int, es: seq<Entry>): seq<Message> {
    seq(|es|, i requires 0 <= i < |es| => Data(chanId, Single(es[i])))
  }

  lemma {:induction false} RunSingles(s: State, es: seq<Entry>)
    requires s.bookChanid != s.tradeChanid
    ensures Run(s, AsSingles(s.bookChanid, es)) == Some(s.(tables := PutEntries(s.tables, es)))
  {
    if es == [] {
    } else {
      RunSingles(s, es[..|es| - 1]);
      assert AsSingles(s.bookChanid, es)[..|es| - 1] == AsSingles(s.bookChanid, es[..|es| - 1]);
    }
  }

  // ----- entries as levels

  /** What an entry writes on a side: its amount, or zero to delete the price. */
  function Write(e: Entry, bid: bool): seq<Level> {
    if e.cnt > 0 && (if bid then e.amt > 0.0 else e.amt < 0.0) then [Level(e.price, e.amt)]
    else if e.cnt == 0 && e.amt == (if bid then 1.0 else -1.0) then [Level(e.price, 0.0)]
    else []
  }

  function Writes(es: seq<Entry>, bid: bool): seq<Level> {
    if es == [] then [] else Writes(es[..|es| - 1], bid) + Write(es[|es| - 1], bid)
  }

  function Written(t: AskBidTable, es: seq<Entry>): AskBidTable {
    AskBidTable(Apply(t.asks, Writes(es, false)), Apply(t.bids, Writes(es, true)))
  }

  ghost predicate AnyEffective(es: seq<Entry>) {
    exists i :: 0 <= i < |es| && Effective(es[i])
  }

  lemma WriteEntry(t: AskBidTable, e: Entry, asks: seq<Level>, bids: seq<Level>)
    ensures SetEntry(AskBidTable(Apply(t.asks, asks), Apply(t.bids, bids)), e)
         == AskBidTable(Apply(t.asks, asks + Write(e, false)), Apply(t.bids, bids + Write(e, true)))
    ensures !Effective(e) ==> Write(e, true) == [] && Write(e, false) == []
  {
    hide Apply;
    forall b: book, ls: seq<Level> ensures Apply(b, ls + []) == Apply(b, ls) {
      assert ls + [] == ls;
    }
    if Write(e, true) != [] {
      ApplySnoc(t.bids, bids, Write(e, true)[0]);
    }
    if Write(e, false) != [] {
      ApplySnoc(t.asks, asks, Write(e, false)[0]);
    }
  }

  lemma AnyEffectiveSnoc(es: seq<Entry>, e: Entry)
    ensures AnyEffective(es + [e]) <==> AnyEffective(es) || Effective(e)
  {
    hide Effective;
    var all := es + [e];
    assert all[|es|] == e;
    assert forall i | 0 <= i < |es| :: all[i] == es[i];
    if i :| 0 <= i < |es| && Effective(es[i]) {
      assert Effective(all[i]);
    }
  }

  function SetEntries(t: AskBidTable, es: seq<Entry>): AskBidTable {
    if es == [] then t else SetEntry(SetEntries(t, es[..|es| - 1]), es[|es| - 1])
  }

  lemma {:induction false} SetEntriesWrite(t: AskBidTable, es: seq<Entry>)
    ensures SetEntries(t, es) == Written(t, es)
  {
    if es == [] {
      assert Written(t, es) == t;
    } else {
      hide Apply, SetEntry, Write;
      var before, e := es[..|es| - 1], es[|es| - 1];
      SetEntriesWrite(t, before);
      WriteEntry(t, e, Writes(before, false), Writes(before, true));
    }
  }

  lemma PutAgain(tables: map<string, AskBidTable>, t: AskBidTable, e: Entry)
    ensures PutEntry(tables[BTC := t], e) == tables[BTC := SetEntry(t, e)]
    ensures !Effective(e) ==> SetEntry(t, e) == t
  {
    assert TableOf(tables[BTC := t], BTC) == t;
  }

  lemma {:induction false} PutEntriesSet(tables: map<string, AskBidTable>, es: seq<Entry>)
    ensures var t := SetEntries(TableOf(tables, BTC), es);
      PutEntries(tables, es) == if AnyEffective(es) then tables[BTC := t] else tables
    ensures !AnyEffective(es) ==> SetEntries(TableOf(tables, BTC), es) == TableOf(tables, BTC)
  {
    if es == [] {
      assert !AnyEffective(es);
    } else {
      hide SetEntry, Effective, AnyEffective, TableOf;
      var before, e := es[..|es| - 1], es[|es| - 1];
      assert es == before + [e];
      PutEntriesSet(tables, before);
      AnyEffectiveSnoc(before, e);
      PutAgain(tables, SetEntries(TableOf(tables, BTC), before), e);
    }
  }

  /** Entries act on each side as level lists do, so the last one for a price decides. */
  lemma EntriesApply(tables: map<string, AskBidTable>, es: seq<Entry>)
    ensures PutEntries(tables, es)
         == if AnyEffective(es) then tables[BTC := Written(TableOf(tables, BTC), es)] else tables
    ensures TableOf(PutEntries(tables, es), BTC) == Written(TableOf(tables, BTC), es)
  {
    hide AnyEffective, Written;
    SetEntriesWrite(TableOf(tables, BTC), es);
    PutEntriesSet(tables, es);
  }

  function SideOf(tables: map<string, AskBidTable>, bid: bool): book {
    if bid then TableOf(tables, BTC).bids else TableOf(tables, BTC).asks
  }

  /** Per price and side, the last entry wins; a price it deletes is absent. */
  lemma EntriesAt(tables: map<string, AskBidTable>, es: seq<Entry>, bid: bool, p: real)
    ensures Lookup(SideOf(PutEntries(tables, es), bid), p)
         == Outcome(LastWrite(Writes(es, bid), p), Lookup(SideOf(tables, bid), p))
  {
    hide Apply;
    EntriesApply(tables, es);
    ApplyAt(SideOf(tables, bid), Writes(es, bid), p);
  }

  /**
   * The tables have already what the entries say last on each price of either side; and the
   * pair of tables exists if an entry would look it up.
   */
  ghost predicate Needless(tables: map<string, AskBidTable>, es: seq<Entry>) {
    && Holds(SideOf(tables, true), Writes(es, true))
    && Holds(SideOf(tables, false), Writes(es, false))
    && (AnyEffective(es) ==> BTC in tables)
  }

  lemma SameTable(tables: map<string, AskBidTable>, t: AskBidTable)
    ensures tables[BTC := t] == tables <==> BTC in tables && tables[BTC] == t
  {
    assert tables[BTC := t][BTC] == t;
  }

  lemma EntriesChangeNothing(tables: map<string, AskBidTable>, es: seq<Entry>)
    ensures PutEntries(tables, es) == tables <==> Needless(tables, es)
  {
    hide Apply, Holds, AnyEffective, PutEntries;
    EntriesApply(tables, es);
    ApplyChangesNothing(SideOf(tables, true), Writes(es, true));
    ApplyChangesNothing(SideOf(tables, false), Writes(es, false));
    SameTable(tables, Written(TableOf(tables, BTC), es));
  }

  /**
   * A batch on the book channel acts as its entries one by one exactly when it has more than
   * three of them, or fewer than three that the tables have made needless: shorter batches are
   * dropped, and one of three is taken for a single entry and aborts.
   */
  lemma BatchAsSingles(s: State, es: seq<Entry>)
    requires s.bookChanid != s.tradeChanid
    ensures Handled(s, Data(s.bookChanid, Entries(es))) == Run(s, AsSingles(s.bookChanid, es))
       <==> |es| > 3 || (|es| < 3 && Needless(s.tables, es))
  {
    hide Needless;
    RunSingles(s, es);
    EntriesChangeNothing(s.tables, es);
  }

  // ----- trades

  predicate OnSide(tr: Trade, buy: bool) {
    if buy then tr.amt > 0.0 else tr.amt < 0.0
  }

  /** Amount times price, for one side. */
  function Notional(trs: seq<Trade>, buy: bool): real {
    if trs == [] then 0.0
    else
      var tr := trs[|trs| - 1];
      Notional(trs[..|trs| - 1], buy) + (if OnSide(tr, buy) then Value(Abs(tr.amt), tr.price) else 0.0)
  }

  function Volume(trs: seq<Trade>, buy: bool): real {
    if trs == [] then 0.0
    else
      var tr := trs[|trs| - 1];
      Volume(trs[..|trs| - 1], buy) + (if OnSide(tr, buy) then Abs(tr.amt) else 0.0)
  }

  /** The amount traded before, counted again with every trade. */
  function Excess(trs: seq<Trade>, buy: bool): real {
    if trs == [] then 0.0
    else
      var before, tr := trs[..|trs| - 1], trs[|trs| - 1];
      Excess(before, buy) + (if OnSide(tr, buy) then Value(Volume(before, buy), tr.price) else 0.0)
  }

  function AmountOf(t: Totals, buy: bool): real {
    if buy then t.bidAmount else t.askAmount
  }

  function SumOf(t: Totals, buy: bool): real {
    if buy then t.bidSum else t.askSum
  }

  /**
   * From a reset, a side's amount is the traded volume; its sum is the notional value plus,
   * for every trade, its price times the volume before it.
   */
  lemma {:induction false} TradeSums(trs: seq<Trade>, buy: bool)
    ensures AmountOf(AddTrades(ZERO, trs), buy) == Volume(trs, buy)
    ensures SumOf(AddTrades(ZERO, trs), buy) == Notional(trs, buy) + Excess(trs, buy)
  {
    hide AddTrade, Abs, OnSide, AmountOf, SumOf, Value;
    if trs == [] {
      NothingTraded(buy);
    } else {
      var before, tr := trs[..|trs| - 1], trs[|trs| - 1];
      TradeSums(before, buy);
      TradeStep(AddTrades(ZERO, before), tr, buy);
    }
  }

  lemma NothingTraded(buy: bool)
    ensures AmountOf(ZERO, buy) == 0.0 && SumOf(ZERO, buy) == 0.0
  {
  }

  lemma TradeStep(t: Totals, tr: Trade, buy: bool)
    ensures AmountOf(AddTrade(t, tr), buy) == AmountOf(t, buy) + (if OnSide(tr, buy) then Abs(tr.amt) else 0.0)
    ensures SumOf(AddTrade(t, tr), buy) == SumOf(t, buy)
      + (if OnSide(tr, buy) then Value(AmountOf(t, buy), tr.price) + Value(Abs(tr.amt), tr.price) else 0.0)
  {
    Distribute(AmountOf(t, buy), Abs(tr.amt), tr.price);
  }

  lemma Distribute(v: real, a: real, p: real)
    ensures (v + a) * p == v * p + a * p
  {
  }

  function TradeCount(trs: seq<Trade>, buy: bool): nat {
    if trs == [] then 0
    else TradeCount(trs[..|trs| - 1], buy) + (if OnSide(trs[|trs| - 1], buy) then 1 else 0)
  }

  /** Nothing is counted twice as long as a side has at most one trade; after that, everything is. */
  lemma {:induction false} ExcessSign(trs: seq<Trade>, buy: bool)
    requires forall i | 0 <= i < |trs| :: trs[i].price >= 0.0
    ensures TradeCount(trs, buy) == 0 ==> Volume(trs, buy) == 0.0
    ensures TradeCount(trs, buy) > 0 ==> Volume(trs, buy) > 0.0
    ensures Excess(trs, buy) >= 0.0
    ensures TradeCount(trs, buy) <= 1 ==> Excess(trs, buy) == 0.0
    ensures TradeCount(trs, buy) > 1 && (forall i | 0 <= i < |trs| :: trs[i].price > 0.0) ==> Excess(trs, buy) > 0.0
  {
    if trs == [] {
    } else {
      var before, tr := trs[..|trs| - 1], trs[|trs| - 1];
      ExcessSign(before, buy);
      ProductSign(Volume(before, buy), tr.price);
    }
  }

  lemma ProductSign(v: real, p: real)
    requires v >= 0.0 && p >= 0.0
    ensures Value(v, p) >= 0.0 && (v == 0.0 ==> Value(v, p) == 0.0)
    ensures v > 0.0 && p > 0.0 ==> Value(v, p) > 0.0
  {
  }

  /** With non-negative prices the sums are at least the notional values. */
  lemma SumsAtLeastNotional(trs: seq<Trade>, buy: bool)
    requires forall i | 0 <= i < |trs| :: trs[i].price >= 0.0
    ensures SumOf(AddTrades(ZERO, trs), buy) >= Notional(trs, buy)
  {
    TradeSums(trs, buy);
    ExcessSign(trs, buy);
  }

  /** With positive prices a side's sum is its notional value exactly when it had at most one trade. */
  lemma SumIsNotional(trs: seq<Trade>, buy: bool)
    requires forall i | 0 <= i < |trs| :: trs[i].price > 0.0
    ensures SumOf(AddTrades(ZERO, trs), buy) == Notional(trs, buy) <==> TradeCount(trs, buy) <= 1
  {
    TradeSums(trs, buy);
    ExcessSign(trs, buy);
  }

  /** The prices of a side's trades, summed. */
  function Prices(trs: seq<Trade>, buy: bool): real {
    if trs == [] then 0.0
    else Prices(trs[..|trs| - 1], buy) + (if OnSide(trs[|trs| - 1], buy) then trs[|trs| - 1].price else 0.0)
  }

  /** A side's sum after trades that did not begin at a reset. */
  lemma {:induction false} SumFrom(t: Totals, trs: seq<Trade>, buy: bool)
    ensures AmountOf(AddTrades(t, trs), buy) == AmountOf(t, buy) + AmountOf(AddTrades(ZERO, trs), buy)
    ensures SumOf(AddTrades(t, trs), buy)
         == SumOf(t, buy) + SumOf(AddTrades(ZERO, trs), buy) + Value(AmountOf(t, buy), Prices(trs, buy))
  {
    hide AddTrade, Abs, OnSide, AmountOf, SumOf, Value;
    if trs == [] {
      NothingTraded(buy);
      NoValue(AmountOf(t, buy));
    } else {
      var before, tr := trs[..|trs| - 1], trs[|trs| - 1];
      SumFrom(t, before, buy);
      TradeStep(AddTrades(t, before), tr, buy);
      TradeStep(AddTrades(ZERO, before), tr, buy);
      AddValues(AmountOf(t, buy), AmountOf(AddTrades(ZERO, before), buy), Prices(before, buy), tr.price);
    }
  }

  lemma NoValue(a: real)
    ensures Value(a, 0.0) == 0.0
  {
  }

  lemma ZeroValue(a: real, p: real)
    ensures Value(a, p) == 0.0 <==> a == 0.0 || p == 0.0
  {
  }

  lemma AddValues(a: real, b: real, p: real, q: real)
    ensures Value(a, p + q) == Value(a, p) + Value(a, q) && Value(a + b, q) == Value(a, q) + Value(b, q)
  {
  }

  lemma {:induction false} AddTradesAppend(t: Totals, xs: seq<Trade>, ys: seq<Trade>)
    ensures AddTrades(t, xs + ys) == AddTrades(AddTrades(t, xs), ys)
  {
    hide AddTrade;
    if ys == [] {
      assert xs + ys == xs;
    } else {
      AddTradesAppend(t, xs, ys[..|ys| - 1]);
      assert (xs + ys)[..|xs + ys| - 1] == xs + ys[..|ys| - 1];
    }
  }

  /**
   * A reset between two windows takes from the second one's sum the first one's volume times
   * the second one's prices; so window sums add up exactly when one of these is zero.
   */
  lemma ResetLoses(xs: seq<Trade>, ys: seq<Trade>, buy: bool)
    ensures SumOf(AddTrades(ZERO, xs + ys), buy)
         == SumOf(AddTrades(ZERO, xs), buy) + SumOf(AddTrades(ZERO, ys), buy) + Value(Volume(xs, buy), Prices(ys, buy))
    ensures SumOf(AddTrades(ZERO, xs + ys), buy) == SumOf(AddTrades(ZERO, xs), buy) + SumOf(AddTrades(ZERO, ys), buy)
       <==> Volume(xs, buy) == 0.0 || Prices(ys, buy) == 0.0
  {
    hide AmountOf, SumOf, Value;
    AddTradesAppend(ZERO, xs, ys);
    SumFrom(AddTrades(ZERO, xs), ys, buy);
    TradeSums(xs, buy);
    ZeroValue(Volume(xs, buy), Prices(ys, buy));
  }

  /** Each trade announced as executed and then as updated. */
  function Announced(chanId: int, trs: seq<Trade>): seq<Message> {
    if trs == [] then []
    else
      Announced(chanId, trs[..|trs| - 1])
      + [Data(chanId, Executed("te", trs[|trs| - 1]))] + [Data(chanId, Executed("tu", trs[|trs| - 1]))]
  }

  lemma RunSnoc(s: State, msgs: seq<Message>, msg: Message)
    ensures Run(s, msgs + [msg]) == var r := Run(s, msgs); if r.None? then None else Handled(r.value, msg)
  {
    assert (msgs + [msg])[..|msgs|] == msgs;
  }

  /** A trade announced twice is counted once. */
  lemma {:induction false} AnnouncedOnce(s: State, trs: seq<Trade>)
    ensures Run(s, Announced(s.tradeChanid, trs)) == Some(s.(totals := AddTrades(s.totals, trs)))
  {
    if trs == [] {
    } else {
      var before, tr := trs[..|trs| - 1], trs[|trs| - 1];
      AnnouncedOnce(s, before);
      var msgs := Announced(s.tradeChanid, before);
      RunSnoc(s, msgs, Data(s.tradeChanid, Executed("te", tr)));
      RunSnoc(s, msgs + [Data(s.tradeChanid, Executed("te", tr))], Data(s.tradeChanid, Executed("tu", tr)));
    }
  }

  // ----- what single entries and trades do

  /**
   * A positive count sets a level on the side of the amount's sign; count zero deletes one from
   * the bids for the amount 1 and from the asks for -1; nothing else has an effect.
   */
  lemma EntryEffect(tables: map<string, AskBidTable>, e: Entry)
    ensures
      var t := if "tBTCUSD" in tables then tables["tBTCUSD"] else AskBidTable(map[], map[]);
      PutEntry(tables, e) ==
        if e.cnt > 0 && e.amt > 0.0 then tables["tBTCUSD" := AskBidTable(t.asks, t.bids[e.price := e.amt])]
        else if e.cnt > 0 && e.amt < 0.0 then tables["tBTCUSD" := AskBidTable(t.asks[e.price := e.amt], t.bids)]
        else if e.cnt == 0 && e.amt == 1.0 then tables["tBTCUSD" := AskBidTable(t.asks, t.bids - {e.price})]
        else if e.cnt == 0 && e.amt == -1.0 then tables["tBTCUSD" := AskBidTable(t.asks - {e.price}, t.bids)]
        else tables
  {
  }

  lemma AddOne(t: Totals, tr: Trade)
    ensures AddTrades(t, [tr]) == AddTrade(t, tr)
  {
    assert [tr][..0] == [];
  }

  /** Positive amounts are bought, negative ones sold; the running amount is multiplied by the price. */
  lemma TradeEffect(t: Totals, amt: real, price: real)
    ensures AddTrades(t, [Trade(amt, price)]) ==
      if amt > 0.0 then
        t.(bidAmount := t.bidAmount + amt, bidSum := t.bidSum + (t.bidAmount + amt) * price)
      else if amt < 0.0 then
        t.(askAmount := t.askAmount - amt, askSum := t.askSum + (t.askAmount - amt) * price)
      else t
  {
    hide AddTrades;
    AddOne(t, Trade(amt, price));
  }

  // ----- whole runs, from the messages alone

  /** The id in the last answer to a subscription to `channel` for "tBTCUSD"; before any, `first`. */
  function ChannelId(channel: string, first: int, msgs: seq<Message>): int {
    if msgs == [] then first
    else
      match msgs[|msgs| - 1]
      case Subscribed(c, symbol, id) =>
        if c == channel && symbol == "tBTCUSD" then id else ChannelId(channel, first, msgs[..|msgs| - 1])
      case _ => ChannelId(channel, first, msgs[..|msgs| - 1])
  }

  function BookId(s: State, msgs: seq<Message>): int {
    ChannelId("book", s.bookChanid, msgs)
  }

  function TradeId(s: State, msgs: seq<Message>): int {
    ChannelId("trades", s.tradeChanid, msgs)
  }

  /** The entries that a message brings, alone or more than three together, under the book id. */
  function NewEntries(msg: Message, bookId: int, tradeId: int): seq<Entry> {
    if !msg.Data? || msg.chanId != bookId || msg.chanId == tradeId then []
    else
      match msg.payload
      case Single(e) => [e]
      case Entries(es) => if |es| > 3 then es else []
      case _ => []
  }

  /** The trades that it brings, as executed or more than one together, under the trade id. */
  function NewTrades(msg: Message, tradeId: int): seq<Trade> {
    if !msg.Data? || msg.chanId != tradeId then []
    else
      match msg.payload
      case Executed(tag, tr) => if tag == "te" then [tr] else []
      case Trades(trs) => if |trs| > 1 then trs else []
      case _ => []
  }

  /** All that came under the ids of their time. */
  function BookEntries(s: State, msgs: seq<Message>): seq<Entry> {
    if msgs == [] then []
    else
      var before := msgs[..|msgs| - 1];
      BookEntries(s, before) + NewEntries(msgs[|msgs| - 1], BookId(s, before), TradeId(s, before))
  }

  function TradesCounted(s: State, msgs: seq<Message>): seq<Trade> {
    if msgs == [] then []
    else
      var before := msgs[..|msgs| - 1];
      TradesCounted(s, before) + NewTrades(msgs[|msgs| - 1], TradeId(s, before))
  }

  /** A message that the handler reads as something else: entries where trades belong, and the reverse. */
  predicate Misread(msg: Message, bookId: int, tradeId: int) {
    && msg.Data?
    && if msg.chanId == tradeId then
         msg.payload.Single? || (msg.payload.Entries? && |msg.payload.entries| > 1)
       else
         msg.chanId == bookId
         && ((msg.payload.Entries? && |msg.payload.entries| == 3) || (msg.payload.Trades? && |msg.payload.trades| >= 3))
  }

  lemma {:induction false} PutEntriesAppend(tables: map<string, AskBidTable>, xs: seq<Entry>, ys: seq<Entry>)
    ensures PutEntries(tables, xs + ys) == PutEntries(PutEntries(tables, xs), ys)
  {
    hide PutEntry;
    if ys == [] {
      assert xs + ys == xs;
    } else {
      PutEntriesAppend(tables, xs, ys[..|ys| - 1]);
      assert (xs + ys)[..|xs + ys| - 1] == xs + ys[..|ys| - 1];
    }
  }

  /** The state that the messages describe. */
  function Described(s: State, msgs: seq<Message>): State {
    State(PutEntries(s.tables, BookEntries(s, msgs)), TradeId(s, msgs), BookId(s, msgs),
          s.subState || exists i :: 0 <= i < |msgs| && Answers(msgs[i]), AddTrades(s.totals, TradesCounted(s, msgs)))
  }

  predicate Answers(msg: Message) {
    msg.Subscribed? && msg.symbol == "tBTCUSD" && (msg.channel == "book" || msg.channel == "trades")
  }

  lemma AnyAnswer(msgs: seq<Message>, msg: Message)
    ensures (exists i :: 0 <= i < |msgs + [msg]| && Answers((msgs + [msg])[i]))
       <==> (exists i :: 0 <= i < |msgs| && Answers(msgs[i])) || Answers(msg)
  {
    hide Answers;
    var all := msgs + [msg];
    assert all[|msgs|] == msg && forall i | 0 <= i < |msgs| :: all[i] == msgs[i];
    if i :| 0 <= i < |msgs| && Answers(msgs[i]) {
      assert Answers(all[i]);
    }
  }

  lemma MessageEffect(s: State, msg: Message)
    ensures Handled(s, msg) ==
      if Misread(msg, s.bookChanid, s.tradeChanid) then None
      else Some(State(PutEntries(s.tables, NewEntries(msg, s.bookChanid, s.tradeChanid)),
                      ChannelId("trades", s.tradeChanid, [msg]), ChannelId("book", s.bookChanid, [msg]),
                      s.subState || Answers(msg), AddTrades(s.totals, NewTrades(msg, s.tradeChanid))))
  {
    hide PutEntry, AddTrade;
    assert [msg][..0] == [];
    if msg.Data? && msg.payload.Single? {
      PutSingle(s.tables, msg.payload.entry);
    }
    if msg.Data? && msg.payload.Executed? {
      AddOne(s.totals, msg.payload.trade);
    }
  }

  lemma ChannelIdSnoc(channel: string, first: int, before: seq<Message>, msg: Message)
    ensures ChannelId(channel, first, before + [msg]) == ChannelId(channel, ChannelId(channel, first, before), [msg])
  {
    assert (before + [msg])[..|before|] == before && [msg][..0] == [];
  }

  lemma DescribedSnoc(s: State, before: seq<Message>, msg: Message)
    ensures var d := Described(s, before);
      Described(s, before + [msg]) ==
        State(PutEntries(d.tables, NewEntries(msg, d.bookChanid, d.tradeChanid)),
              ChannelId("trades", d.tradeChanid, [msg]), ChannelId("book", d.bookChanid, [msg]),
              d.subState || Answers(msg), AddTrades(d.totals, NewTrades(msg, d.tradeChanid)))
  {
    hide PutEntries, AddTrades, NewEntries, NewTrades, ChannelId, Answers;
    assert (before + [msg])[..|before|] == before;
    ChannelIdSnoc("book", s.bookChanid, before, msg);
    ChannelIdSnoc("trades", s.tradeChanid, before, msg);
    AnyAnswer(before, msg);
    PutEntriesAppend(s.tables, BookEntries(s, before), NewEntries(msg, BookId(s, before), TradeId(s, before)));
    AddTradesAppend(s.totals, TradesCounted(s, before), NewTrades(msg, TradeId(s, before)));
  }

  ghost predicate NoneMisread(s: State, msgs: seq<Message>) {
    forall k | 0 <= k < |msgs| :: !Misread(msgs[k], BookId(s, msgs[..k]), TradeId(s, msgs[..k]))
  }

  lemma NoneMisreadSnoc(s: State, before: seq<Message>, msg: Message)
    ensures NoneMisread(s, before + [msg]) <==>
      NoneMisread(s, before) && !Misread(msg, BookId(s, before), TradeId(s, before))
  {
    hide Misread, BookId, TradeId;
    var all := before + [msg];
    assert forall k | 0 <= k <= |before| :: all[..k] == before[..k];
    assert before[..|before|] == before && all[|before|] == msg;
    if NoneMisread(s, all) {
      forall k | 0 <= k < |before| ensures !Misread(before[k], BookId(s, before[..k]), TradeId(s, before[..k])) {
        assert !Misread(all[k], BookId(s, all[..k]), TradeId(s, all[..k]));
      }
      assert !Misread(all[|before|], BookId(s, all[..|before|]), TradeId(s, all[..|before|]));
    }
  }

  /**
   * Every run leaves exactly what its messages describe: the ids of the last answers, the
   * entries and the trades that came under the ids of their time, and nothing of other data;
   * unless one of them is misread, which is exactly when the run aborts.
   */
  lemma {:induction false} RunDescribed(s: State, msgs: seq<Message>)
    ensures Run(s, msgs) == if NoneMisread(s, msgs) then Some(Described(s, msgs)) else None
  {
    if msgs == [] {
      assert Described(s, msgs) == s;
    } else {
      hide Handled, NoneMisread, Misread, Described, BookId, TradeId;
      var before, msg := msgs[..|msgs| - 1], msgs[|msgs| - 1];
      assert msgs == before + [msg];
      RunDescribed(s, before);
      NoneMisreadSnoc(s, before, msg);
      DescribedSnoc(s, before, msg);
      MessageEffect(Described(s, before), msg);
      DescribedIds(s, before);
    }
  }

  lemma DescribedIds(s: State, msgs: seq<Message>)
    ensures Described(s, msgs).bookChanid == BookId(s, msgs) && Described(s, msgs).tradeChanid == TradeId(s, msgs)
  {
  }

  /** From the first answer on: the book's entries are stored and the trades counted under their own ids. */
  lemma AnswersRoute(s: State, book: int, trades: int, e: Entry, tr: Trade)
    requires book != trades
    ensures Run(s, [Subscribed("book", "tBTCUSD", book), Subscribed("trades", "tBTCUSD", trades),
                    Data(book, Single(e)), Data(trades, Executed("te", tr))])
         == Some(State(PutEntry(s.tables, e), trades, book, true, AddTrade(s.totals, tr)))
  {
    hide PutEntry, AddTrade;
    var a, b := Subscribed("book", "tBTCUSD", book), Subscribed("trades", "tBTCUSD", trades);
    var c, d := Data(book, Single(e)), Data(trades, Executed("te", tr));
    assert [a, b, c, d] == [a, b, c] + [d] && [a, b, c] == [a, b] + [c] && [a, b] == [a] + [b] && [a] == [] + [a];
    RunSnoc(s, [a, b, c], d);
    RunSnoc(s, [a, b], c);
    RunSnoc(s, [a], b);
    RunSnoc(s, [], a);
  }
}
