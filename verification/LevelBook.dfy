/** Price tables and the level lists that change them. */
module LevelBook {
  import opened Wrappers

  /** A price with its new absolute amount; zero removes the price. */
  datatype Level = Level(price: real, amount: real)

  type book = map<real, real>

  datatype AskBidTable = AskBidTable(asks: book, bids: book)

  function Lookup(b: book, p: real): Option<real> {
    if p in b then Some(b[p]) else None
  }

  function ApplyLevel(b: book, l: Level): book {
    if l.amount == 0.0 then b - {l.price} else b[l.price := l.amount]
  }

  function Apply(b: book, ls: seq<Level>): book
    decreases ls
  {
    if ls == [] then b else Apply(ApplyLevel(b, ls[0]), ls[1..])
  }

  /** The amount that the list gives last for `p`. */
  function LastWrite(ls: seq<Level>, p: real): Option<real> {
    if ls == [] then None
    else
      var later := LastWrite(ls[1..], p);
      if later.Some? then later
      else if ls[0].price == p then Some(ls[0].amount) else None
  }

  /** What a price holds when the list's last word on it is `w` and it held `before`. */
  function Outcome(w: Option<real>, before: Option<real>): Option<real> {
    match w
    case None => before
    case Some(a) => if a == 0.0 then None else w
  }

  /** Per price, the last writer wins, and zero means absent. */
  lemma {:induction false} ApplyAt(b: book, ls: seq<Level>, p: real)
    ensures Lookup(Apply(b, ls), p) == Outcome(LastWrite(ls, p), Lookup(b, p))
    decreases ls
  {
    if ls == [] {
    } else {
      ApplyAt(ApplyLevel(b, ls[0]), ls[1..], p);
    }
  }

  lemma BooksEqual(b: book, c: book)
    requires forall p :: Lookup(b, p) == Lookup(c, p)
    ensures b == c
  {
    forall p ensures p in b <==> p in c {
      assert Lookup(b, p) == Lookup(c, p);
    }
    assert b.Keys == c.Keys;
    forall p | p in b ensures b[p] == c[p] {
      assert Lookup(b, p) == Lookup(c, p);
    }
  }

  /** The last level of a list for a price decides. */
  ghost predicate IsLast(ls: seq<Level>, k: int, p: real) {
    0 <= k < |ls| && ls[k].price == p && forall j | k < j < |ls| :: ls[j].price != p
  }

  lemma {:induction false} LastWriteAt(ls: seq<Level>, p: real)
    ensures (forall j | 0 <= j < |ls| :: ls[j].price != p) ==> LastWrite(ls, p) == None
    ensures forall k | IsLast(ls, k, p) :: LastWrite(ls, p) == Some(ls[k].amount)
  {
    if ls == [] {
    } else {
      LastWriteAt(ls[1..], p);
      forall k | IsLast(ls, k, p) ensures LastWrite(ls, p) == Some(ls[k].amount) {
        if k > 0 {
          assert ls[k] == ls[1..][k - 1];
          assert IsLast(ls[1..], k - 1, p);
        }
      }
    }
  }

  /** It sets the price's amount, or removes the price if its amount is zero; other prices keep theirs. */
  lemma LastLevel(b: book, ls: seq<Level>, p: real)
    ensures (forall j | 0 <= j < |ls| :: ls[j].price != p) ==>
      (p in Apply(b, ls) <==> p in b) && (p in b ==> Apply(b, ls)[p] == b[p])
    ensures forall k | IsLast(ls, k, p) ::
      if ls[k].amount == 0.0 then p !in Apply(b, ls) else p in Apply(b, ls) && Apply(b, ls)[p] == ls[k].amount
  {
    hide LastWrite, Apply;
    ApplyAt(b, ls, p);
    LastWriteAt(ls, p);
  }

  /** Two lists applied in turn act as their concatenation. */
  lemma {:induction false} ApplyAppend(b: book, xs: seq<Level>, ys: seq<Level>)
    ensures Apply(b, xs + ys) == Apply(Apply(b, xs), ys)
    decreases xs
  {
    if xs == [] {
      assert xs + ys == ys;
    } else {
      ApplyAppend(ApplyLevel(b, xs[0]), xs[1..], ys);
      assert (xs + ys)[1..] == xs[1..] + ys;
    }
  }

  /** Applying the same list again changes nothing. */
  lemma ApplyTwice(b: book, ls: seq<Level>)
    ensures Apply(Apply(b, ls), ls) == Apply(b, ls)
  {
    forall p ensures Lookup(Apply(Apply(b, ls), ls), p) == Lookup(Apply(b, ls), p) {
      ApplyAt(b, ls, p);
      ApplyAt(Apply(b, ls), ls, p);
    }
    BooksEqual(Apply(Apply(b, ls), ls), Apply(b, ls));
  }

  /** Lists with the same last words have the same effect, in whatever order they are written. */
  lemma SameLastWrites(b: book, xs: seq<Level>, ys: seq<Level>)
    requires forall p :: LastWrite(xs, p) == LastWrite(ys, p)
    ensures Apply(b, xs) == Apply(b, ys)
  {
    forall p ensures Lookup(Apply(b, xs), p) == Lookup(Apply(b, ys), p) {
      ApplyAt(b, xs, p);
      ApplyAt(b, ys, p);
    }
    BooksEqual(Apply(b, xs), Apply(b, ys));
  }

  function Prices(ls: seq<Level>): set<real> {
    set l | l in ls :: l.price
  }

  lemma {:induction false} PricesWritten(ls: seq<Level>, p: real)
    ensures p in Prices(ls) <==> LastWrite(ls, p).Some?
  {
    if ls == [] {
    } else {
      PricesWritten(ls[1..], p);
      assert ls == [ls[0]] + ls[1..];
      assert ls[0] in ls;
      assert forall l :: l in ls[1..] ==> l in ls;
    }
  }

  /** Each price that the list names holds already what the list says last. */
  predicate Holds(b: book, ls: seq<Level>) {
    forall p | p in Prices(ls) :: Outcome(LastWrite(ls, p), None) == Lookup(b, p)
  }

  /** A list changes nothing exactly when its last words hold already. */
  lemma ApplyChangesNothing(b: book, ls: seq<Level>)
    ensures Apply(b, ls) == b <==> Holds(b, ls)
  {
    forall p
      ensures Lookup(Apply(b, ls), p) == Lookup(b, p)
        <==> (p in Prices(ls) ==> Outcome(LastWrite(ls, p), None) == Lookup(b, p))
    {
      ApplyAt(b, ls, p);
      PricesWritten(ls, p);
    }
    if Holds(b, ls) {
      BooksEqual(Apply(b, ls), b);
    }
  }

  ghost predicate NoZeros(b: book) {
    forall p | p in b :: b[p] != 0.0
  }

  /** No diff ever stores a zero amount. */
  lemma {:induction false} ApplyKeepsNoZeros(b: book, ls: seq<Level>)
    requires NoZeros(b)
    ensures NoZeros(Apply(b, ls))
    decreases ls
  {
    if ls == [] {
    } else {
      ApplyKeepsNoZeros(ApplyLevel(b, ls[0]), ls[1..]);
    }
  }

  lemma ApplySnoc(b: book, ls: seq<Level>, l: Level)
    ensures Apply(b, ls + [l]) == ApplyLevel(Apply(b, ls), l)
  {
    ApplyAppend(b, ls, [l]);
    assert [l][1..] == [];
  }

  // ----- tables by symbol

  /** The table that `tables[symbol]` refers to; a missing one is created empty. */
  function TableOf(tables: map<string, AskBidTable>, symbol: string): AskBidTable {
    if symbol in tables then tables[symbol] else AskBidTable(map[], map[])
  }

  function Listed(side: Option<seq<Level>>): seq<Level> {
    match side
    case None => []
    case Some(ls) => ls
  }

  /** The tables after the levels of an ask side; without levels no table is created. */
  function WithAsks(tables: map<string, AskBidTable>, symbol: string, ls: seq<Level>): map<string, AskBidTable> {
    if ls == [] then tables
    else
      var t := TableOf(tables, symbol);
      tables[symbol := t.(asks := Apply(t.asks, ls))]
  }

  function WithBids(tables: map<string, AskBidTable>, symbol: string, ls: seq<Level>): map<string, AskBidTable> {
    if ls == [] then tables
    else
      var t := TableOf(tables, symbol);
      tables[symbol := t.(bids := Apply(t.bids, ls))]
  }

  lemma WithNothing(tables: map<string, AskBidTable>, symbol: string)
    ensures WithAsks(tables, symbol, []) == tables && WithBids(tables, symbol, []) == tables
  {
  }

  lemma WithAsksSnoc(tables: map<string, AskBidTable>, symbol: string, ls: seq<Level>, l: Level)
    ensures var t := TableOf(WithAsks(tables, symbol, ls), symbol);
      WithAsks(tables, symbol, ls + [l])
        == WithAsks(tables, symbol, ls)[symbol := t.(asks := ApplyLevel(t.asks, l))]
  {
    ApplySnoc(TableOf(tables, symbol).asks, ls, l);
  }

  lemma WithBidsSnoc(tables: map<string, AskBidTable>, symbol: string, ls: seq<Level>, l: Level)
    ensures var t := TableOf(WithBids(tables, symbol, ls), symbol);
      WithBids(tables, symbol, ls + [l])
        == WithBids(tables, symbol, ls)[symbol := t.(bids := ApplyLevel(t.bids, l))]
  {
    ApplySnoc(TableOf(tables, symbol).bids, ls, l);
  }

  lemma WithSides(tables: map<string, AskBidTable>, symbol: string, asks: seq<Level>, bids: seq<Level>)
    ensures WithBids(WithAsks(tables, symbol, asks), symbol, bids) ==
      var t := TableOf(tables, symbol);
      if asks == [] && bids == [] then tables
      else tables[symbol := AskBidTable(Apply(t.asks, asks), Apply(t.bids, bids))]
    ensures WithBids(WithAsks(tables, symbol, asks), symbol, bids)
         == WithAsks(WithBids(tables, symbol, bids), symbol, asks)
  {
    hide Apply;
    ApplyNothing(TableOf(tables, symbol).asks);
    ApplyNothing(TableOf(tables, symbol).bids);
  }

  /** The two sides of a diff do not interfere, nor do they touch other symbols' tables. */
  lemma SidesIndependent(tables: map<string, AskBidTable>, symbol: string, asks: seq<Level>, bids: seq<Level>)
    ensures WithBids(WithAsks(tables, symbol, asks), symbol, bids)
         == WithAsks(WithBids(tables, symbol, bids), symbol, asks)
    ensures var r := WithBids(WithAsks(tables, symbol, asks), symbol, bids);
      && TableOf(r, symbol).asks == Apply(TableOf(tables, symbol).asks, asks)
      && TableOf(r, symbol).bids == Apply(TableOf(tables, symbol).bids, bids)
      && forall s | s != symbol :: (s in r <==> s in tables) && TableOf(r, s) == TableOf(tables, s)
    ensures TableOf(tables, symbol) == if symbol in tables then tables[symbol] else AskBidTable(map[], map[])
  {
    hide Apply, WithAsks, WithBids;
    WithSides(tables, symbol, asks, bids);
    ApplyNothing(TableOf(tables, symbol).asks);
    ApplyNothing(TableOf(tables, symbol).bids);
  }

  /** A diff that lists a level creates the symbol's table if there is none, and no other. */
  lemma TablesKept(tables: map<string, AskBidTable>, symbol: string, asks: seq<Level>, bids: seq<Level>)
    ensures WithAsks(WithBids(tables, symbol, bids), symbol, asks).Keys
         == if asks == [] && bids == [] then tables.Keys else tables.Keys + {symbol}
  {
    hide Apply;
  }

  lemma ApplyNothing(b: book)
    ensures Apply(b, []) == b
  {
  }
}
