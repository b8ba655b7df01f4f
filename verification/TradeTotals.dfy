/** The running trade totals of exchange/bitmex.cpp and exchange/huobipro.cpp, and the windows of main.cpp. */
module TradeTotals {

  datatype Totals = Totals(askAmount: real, bidAmount: real, askSum: real, bidSum: real)

  const ZERO: Totals := Totals(0.0, 0.0, 0.0, 0.0)

  /** A trade in a message: its side, amount and price. */
  datatype Item = Item(side: string, amount: real, price: real)

  function Value(amount: real, price: real): real {
    amount * price
  }

  function Plus(s: Totals, t: Totals): Totals {
    Totals(s.askAmount + t.askAmount, s.bidAmount + t.bidAmount, s.askSum + t.askSum, s.bidSum + t.bidSum)
  }

  /** How the two exchanges sort trades: bitmex skips unknown sides, huobi counts them as buys. */
  datatype Exchange = Bitmex | Huobi
  {
    predicate OnSide(side: string, ask: bool) {
      match this
      case Bitmex => side == if ask then "Sell" else "Buy"
      case Huobi => (side == "sell") == ask
    }
  }

  /** The trades of one side. */
  function Only(x: Exchange, ask: bool, items: seq<Item>): seq<Item> {
    if items == [] then []
    else if x.OnSide(items[0].side, ask) then [items[0]] + Only(x, ask, items[1..])
    else Only(x, ask, items[1..])
  }

  function Amount(items: seq<Item>): real {
    if items == [] then 0.0 else items[0].amount + Amount(items[1..])
  }

  /** The notional value: amount times price, summed. */
  function Notional(items: seq<Item>): real {
    if items == [] then 0.0 else Value(items[0].amount, items[0].price) + Notional(items[1..])
  }

  /** What a sequence of trades contributes to the totals. */
  function Contribution(x: Exchange, items: seq<Item>): Totals {
    Totals(Amount(Only(x, true, items)), Amount(Only(x, false, items)),
           Notional(Only(x, true, items)), Notional(Only(x, false, items)))
  }

  lemma {:induction false} SumsAppend(xs: seq<Item>, ys: seq<Item>)
    ensures Amount(xs + ys) == Amount(xs) + Amount(ys)
    ensures Notional(xs + ys) == Notional(xs) + Notional(ys)
  {
    hide Value;
    if xs == [] {
      assert xs + ys == ys;
    } else {
      SumsAppend(xs[1..], ys);
      assert (xs + ys)[1..] == xs[1..] + ys;
    }
  }

  lemma {:induction false} OnlyAppend(x: Exchange, ask: bool, xs: seq<Item>, ys: seq<Item>)
    ensures Only(x, ask, xs + ys) == Only(x, ask, xs) + Only(x, ask, ys)
  {
    hide Exchange.OnSide;
    if xs == [] {
      assert xs + ys == ys;
    } else {
      OnlyAppend(x, ask, xs[1..], ys);
      assert (xs + ys)[1..] == xs[1..] + ys;
    }
  }

  /** It does not matter how trades are divided over messages. */
  lemma ContributionAppend(x: Exchange, xs: seq<Item>, ys: seq<Item>)
    ensures Contribution(x, xs + ys) == Plus(Contribution(x, xs), Contribution(x, ys))
  {
    hide Value, Only, Amount, Notional;
    OnlyAppend(x, true, xs, ys);
    OnlyAppend(x, false, xs, ys);
    SumsAppend(Only(x, true, xs), Only(x, true, ys));
    SumsAppend(Only(x, false, xs), Only(x, false, ys));
  }

  lemma PlusAssociative(r: Totals, s: Totals, t: Totals)
    ensures Plus(Plus(r, s), t) == Plus(r, Plus(s, t))
  {
  }

  lemma OnlyOne(x: Exchange, ask: bool, i: Item)
    ensures Amount(Only(x, ask, [i])) == (if x.OnSide(i.side, ask) then i.amount else 0.0)
    ensures Notional(Only(x, ask, [i])) == (if x.OnSide(i.side, ask) then Value(i.amount, i.price) else 0.0)
  {
    hide Value, Exchange.OnSide;
    assert [i][1..] == [];
    assert Only(x, ask, [i]) == if x.OnSide(i.side, ask) then [i] else [];
  }

  lemma Snoc(x: Exchange, start: Totals, items: seq<Item>, n: nat)
    requires n < |items|
    ensures Plus(start, Contribution(x, items[..n + 1]))
         == Plus(Plus(start, Contribution(x, items[..n])), Contribution(x, [items[n]]))
  {
    hide Contribution;
    assert items[..n + 1] == items[..n] + [items[n]];
    ContributionAppend(x, items[..n], [items[n]]);
    PlusAssociative(start, Contribution(x, items[..n]), Contribution(x, [items[n]]));
  }

  /** A monitor's counters. */
  class Monitor {
    const exchange: Exchange
    var askAmount: real
    var bidAmount: real
    var askSum: real
    var bidSum: real

    ghost function Current(): Totals
      reads this
    {
      Totals(askAmount, bidAmount, askSum, bidSum)
    }

    /** The counters are not initialized by the original; they start at any values. */
    constructor (exchange: Exchange, start: Totals)
      ensures this.exchange == exchange && Current() == start
    {
      this.exchange := exchange;
      askAmount, bidAmount, askSum, bidSum := start.askAmount, start.bidAmount, start.askSum, start.bidSum;
    }

    method ParseTradedetailBitmex(data: seq<Item>)
      requires exchange.Bitmex?
      modifies this
      ensures Current() == Plus(old(Current()), Contribution(exchange, data))
    {
      hide Only, Amount, Notional;
      Nothing(exchange, Current());
      assert data[..0] == [];
      for i := 0 to |data|
        invariant Current() == Plus(old(Current()), Contribution(exchange, data[..i]))
      {
        var item := data[i];
        Snoc(exchange, old(Current()), data, i);
        OnlyOne(exchange, true, item);
        OnlyOne(exchange, false, item);
        if item.side == "Buy" {
          bidAmount := bidAmount + item.amount;
          bidSum := bidSum + item.amount * item.price;
        } else if item.side == "Sell" {
          askAmount := askAmount + item.amount;
          askSum := askSum + item.amount * item.price;
        }
      }
      assert data[..|data|] == data;
    }

    method ParseTradedetailHuobi(data: seq<Item>)
      requires exchange.Huobi?
      modifies this
      ensures Current() == Plus(old(Current()), Contribution(exchange, data))
    {
      hide Only, Amount, Notional;
      Nothing(exchange, Current());
      assert data[..0] == [];
      for i := 0 to |data|
        invariant Current() == Plus(old(Current()), Contribution(exchange, data[..i]))
      {
        var item := data[i];
        Snoc(exchange, old(Current()), data, i);
        OnlyOne(exchange, true, item);
        OnlyOne(exchange, false, item);
        if item.side == "sell" {
          askAmount := askAmount + item.amount;
          askSum := askSum + item.amount * item.price;
        } else {
          bidAmount := bidAmount + item.amount;
          bidSum := bidSum + item.amount * item.price;
        }
      }
      assert data[..|data|] == data;
    }

    /** Any messages from huobi: the counters grow by the totals of all their trades. */
    method RunHuobi(msgs: seq<seq<Item>>)
      requires exchange.Huobi?
      modifies this
      ensures Current() == Plus(old(Current()), Contribution(Huobi, Flattened(msgs)))
    {
      hide Contribution;
      Nothing(exchange, Current());
      for i := 0 to |msgs|
        invariant Current() == Plus(old(Current()), Contribution(Huobi, Flattened(msgs[..i])))
      {
        ParseTradedetailHuobi(msgs[i]);
        assert msgs[..i + 1][..i] == msgs[..i];
        ContributionAppend(Huobi, Flattened(msgs[..i]), msgs[i]);
        PlusAssociative(old(Current()), Contribution(Huobi, Flattened(msgs[..i])), Contribution(Huobi, msgs[i]));
      }
      assert msgs[..|msgs|] == msgs;
    }

    /** The messages of a window and its end. */
    method RunWindow(msgs: seq<seq<Item>>) returns (reported: Totals)
      requires exchange.Bitmex?
      modifies this
      ensures reported == Reported(Plus(old(Current()), Contribution(Bitmex, Flattened(msgs)))) && Current() == ZERO
    {
      hide Contribution;
      Nothing(exchange, Current());
      for i := 0 to |msgs|
        invariant Current() == Plus(old(Current()), Contribution(Bitmex, Flattened(msgs[..i])))
      {
        ParseTradedetailBitmex(msgs[i]);
        assert msgs[..i + 1][..i] == msgs[..i];
        ContributionAppend(Bitmex, Flattened(msgs[..i]), msgs[i]);
        PlusAssociative(old(Current()), Contribution(Bitmex, Flattened(msgs[..i])), Contribution(Bitmex, msgs[i]));
      }
      assert msgs[..|msgs|] == msgs;
      var askbid, bidask;
      reported, askbid, bidask := EndWindow();
    }

    /** Consecutive windows, of any messages each, from the reset at the end of an earlier one. */
    method RunWindows(windows: seq<seq<seq<Item>>>) returns (sum: Totals)
      requires exchange.Bitmex? && Current() == ZERO
      modifies this
      ensures sum == ReportedOver(Windows(windows)) && Current() == ZERO
    {
      hide Contribution, Reported, Flattened;
      sum := ZERO;
      for i := 0 to |windows|
        invariant sum == ReportedOver(Windows(windows[..i])) && Current() == ZERO
      {
        var reported := RunWindow(windows[i]);
        sum := Plus(sum, reported);
        FromZero(Contribution(Bitmex, Flattened(windows[i])));
        assert Windows(windows[..i + 1])[..i] == Windows(windows[..i]);
      }
      assert windows[..|windows|] == windows;
    }

    /** The end of a window in bitmextrade: a zero sum is reported as one; then all counters restart. */
    method EndWindow() returns (reported: Totals, askbid: real, bidask: real)
      modifies this
      ensures reported == Reported(old(Current())) && Current() == ZERO
      ensures reported.askSum != 0.0 && reported.bidSum != 0.0
      ensures askbid * reported.bidSum == reported.askSum && bidask * reported.askSum == reported.bidSum
    {
      if askSum == 0.0 {
        askSum := 1.0;
      }
      if bidSum == 0.0 {
        bidSum := 1.0;
      }
      askbid := askSum / bidSum;
      bidask := bidSum / askSum;
      reported := Totals(askAmount, bidAmount, askSum, bidSum);
      askAmount := 0.0;
      askSum := 0.0;
      bidAmount := 0.0;
      bidSum := 0.0;
    }
  }

  lemma Nothing(x: Exchange, t: Totals)
    ensures Plus(t, Contribution(x, [])) == t
  {
  }

  lemma FromZero(t: Totals)
    ensures Plus(ZERO, t) == t
  {
  }

  /** The trades of each window. */
  function Windows(windows: seq<seq<seq<Item>>>): (r: seq<seq<Item>>)
    ensures |r| == |windows| && forall i | 0 <= i < |r| :: r[i] == Flattened(windows[i])
  {
    seq(|windows|, i requires 0 <= i < |windows| => Flattened(windows[i]))
  }

  function Reported(t: Totals): Totals {
    t.(askSum := if t.askSum == 0.0 then 1.0 else t.askSum, bidSum := if t.bidSum == 0.0 then 1.0 else t.bidSum)
  }

  // ----- windows

  function Flattened(windows: seq<seq<Item>>): seq<Item> {
    if windows == [] then [] else Flattened(windows[..|windows| - 1]) + windows[|windows| - 1]
  }

  /** What consecutive windows contribute, each counted on its own. */
  function TotalOver(x: Exchange, windows: seq<seq<Item>>): Totals {
    if windows == [] then ZERO
    else Plus(TotalOver(x, windows[..|windows| - 1]), Contribution(x, windows[|windows| - 1]))
  }

  /** Window totals add up to the totals of all trades: a reset loses nothing. */
  lemma {:induction false} TotalsAddUp(x: Exchange, windows: seq<seq<Item>>)
    ensures TotalOver(x, windows) == Contribution(x, Flattened(windows))
  {
    hide Contribution;
    if windows == [] {
      Nothing(x, ZERO);
    } else {
      TotalsAddUp(x, windows[..|windows| - 1]);
      ContributionAppend(x, Flattened(windows[..|windows| - 1]), windows[|windows| - 1]);
    }
  }

  /** The sum of the reports that bitmextrade makes for consecutive windows. */
  function ReportedOver(windows: seq<seq<Item>>): Totals {
    if windows == [] then ZERO
    else Plus(ReportedOver(windows[..|windows| - 1]), Reported(Contribution(Bitmex, windows[|windows| - 1])))
  }

  /** How many windows have a zero sum on a side. */
  function Quiet(windows: seq<seq<Item>>, ask: bool): nat {
    if windows == [] then 0
    else
      var t := Contribution(Bitmex, windows[|windows| - 1]);
      Quiet(windows[..|windows| - 1], ask) + (if (if ask then t.askSum else t.bidSum) == 0.0 then 1 else 0)
  }

  /**
   * Bitmex's window reports add up to the totals of all trades, except that every window with
   * a zero sum adds one.
   */
  lemma {:induction false} WindowsAddUp(windows: seq<seq<Item>>)
    ensures ReportedOver(windows) == Plus(Contribution(Bitmex, Flattened(windows)),
      Totals(0.0, 0.0, Quiet(windows, true) as real, Quiet(windows, false) as real))
  {
    hide Contribution;
    if windows == [] {
      Nothing(Bitmex, ZERO);
    } else {
      var before, last := windows[..|windows| - 1], windows[|windows| - 1];
      WindowsAddUp(before);
      ContributionAppend(Bitmex, Flattened(before), last);
    }
  }

  /** The reports are exact exactly when neither side of any window has a zero sum. */
  lemma WindowsExact(windows: seq<seq<Item>>)
    ensures ReportedOver(windows) == Contribution(Bitmex, Flattened(windows))
       <==> Quiet(windows, true) == 0 && Quiet(windows, false) == 0
  {
    hide Contribution;
    WindowsAddUp(windows);
  }

  // ----- single trades

  /** "Buy" and "Sell" count for bitmex, and no other side; for huobi "sell" is a sale and all else bought. */
  lemma OneTrade(side: string, amount: real, price: real)
    ensures Contribution(Bitmex, [Item(side, amount, price)]) ==
      if side == "Buy" then Totals(0.0, amount, 0.0, amount * price)
      else if side == "Sell" then Totals(amount, 0.0, amount * price, 0.0)
      else Totals(0.0, 0.0, 0.0, 0.0)
    ensures Contribution(Huobi, [Item(side, amount, price)]) ==
      if side == "sell" then Totals(amount, 0.0, amount * price, 0.0)
      else Totals(0.0, amount, 0.0, amount * price)
  {
    hide Amount, Notional, Only;
    var item := Item(side, amount, price);
    OnlyOne(Bitmex, true, item);
    OnlyOne(Bitmex, false, item);
    OnlyOne(Huobi, true, item);
    OnlyOne(Huobi, false, item);
  }
}
