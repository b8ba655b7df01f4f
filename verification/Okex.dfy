/** The two-sided diff loop of exchange/okex.cpp and of the exchanges that copy it. */
module Okex {
  import opened Wrappers
  import opened LevelBook

  class Exchange {
    var symbolAskbidTable: map<string, AskBidTable>

    constructor ()
      ensures symbolAskbidTable == map[]
    {
      symbolAskbidTable := map[];
    }

    method ParsePriceamountToMap(symbol: string, asks: Option<seq<Level>>, bids: Option<seq<Level>>)
      modifies this
      ensures symbolAskbidTable
           == WithBids(WithAsks(old(symbolAskbidTable), symbol, Listed(asks)), symbol, Listed(bids))
    {
      if asks.Some? {
        for i := 0 to |asks.value|
          invariant symbolAskbidTable == WithAsks(old(symbolAskbidTable), symbol, asks.value[..i])
        {
          var item := asks.value[i];
          var table := TableOf(symbolAskbidTable, symbol);
          WithAsksSnoc(old(symbolAskbidTable), symbol, asks.value[..i], item);
          assert asks.value[..i + 1] == asks.value[..i] + [item];
          if item.amount == 0.0 {
            symbolAskbidTable := symbolAskbidTable[symbol := table.(asks := table.asks - {item.price})];
          } else {
            symbolAskbidTable := symbolAskbidTable[symbol := table.(asks := table.asks[item.price := item.amount])];
          }
        }
        assert asks.value[..|asks.value|] == asks.value;
      }
      ghost var mid := symbolAskbidTable;
      if bids.Some? {
        for i := 0 to |bids.value|
          invariant symbolAskbidTable == WithBids(mid, symbol, bids.value[..i])
        {
          var item := bids.value[i];
          var table := TableOf(symbolAskbidTable, symbol);
          WithBidsSnoc(mid, symbol, bids.value[..i], item);
          assert bids.value[..i + 1] == bids.value[..i] + [item];
          if item.amount == 0.0 {
            symbolAskbidTable := symbolAskbidTable[symbol := table.(bids := table.bids - {item.price})];
          } else {
            symbolAskbidTable := symbolAskbidTable[symbol := table.(bids := table.bids[item.price := item.amount])];
          }
        }
        assert bids.value[..|bids.value|] == bids.value;
      }
    }
  }
}
