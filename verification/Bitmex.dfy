/** The stored order book of exchange/bitmex.cpp: rows in tables, and the top-ten report. */
module Bitmex {
  import Bits
  import opened Wrappers

  /** A row of a table; the generated primary key is not used by any statement. */
  datatype Row = Row(msgid: int, price: real, amount: real)

  type tables = map<string, seq<Row>>

  /** An element of a message's data; update and delete messages carry fewer fields. */
  datatype Item = Item(id: int, symbol: string, side: string, size: real, price: real)

  datatype Message = Message(action: string, data: seq<Item>)

  /** A statement on the table `name`. */
  datatype Op =
    | Insert(name: string, row: Row)
    | Update(name: string, id: int, amount: real)
    | Delete(name: string, id: int)
    | Clear(name: string)

  /** The conversion of a `double` to `int`, towards zero. */
  function Trunc(x: real): int {
    if x >= 0.0 then x.Floor else -((-x).Floor)
  }

  /** The nearest whole number, ties to even. */
  function Nearest(y: real): int {
    var below := y.Floor;
    var rest := y - below as real;
    if rest < 0.5 || (rest == 0.5 && below % 2 == 0) then below else below + 1
  }

  /** The number that `to_string` writes for a `double`: rounded to six decimals. */
  function SixDecimals(x: real): real {
    Nearest(x * 1000000.0) as real / 1000000.0
  }

  predicate HasSixDecimals(x: real) {
    (x * 1000000.0).Floor as real == x * 1000000.0
  }

  /** Stored numbers are off by half a millionth at most, and exact exactly with six decimals. */
  lemma SixDecimalsError(x: real)
    ensures -0.0000005 <= SixDecimals(x) - x <= 0.0000005
    ensures SixDecimals(x) == x <==> HasSixDecimals(x)
  {
    var y := SixDecimals(x) * 1000000.0;
    assert y == y.Floor as real;
  }

  /** Halfway between two numbers of six decimals the one with the even last digit is stored. */
  lemma HalfwayToEven(n: int)
    ensures SixDecimals((n as real + 0.5) / 1000000.0) == (if n % 2 == 0 then n else n + 1) as real / 1000000.0
  {
    var y := n as real + 0.5;
    assert y / 1000000.0 * 1000000.0 == y;
    assert y.Floor == n;
  }

  function UpdateRows(rows: seq<Row>, id: int, amount: real): seq<Row> {
    if rows == [] then []
    else [if rows[0].msgid == id then rows[0].(amount := amount) else rows[0]] + UpdateRows(rows[1..], id, amount)
  }

  function DeleteRows(rows: seq<Row>, id: int): seq<Row> {
    if rows == [] then []
    else (if rows[0].msgid == id then [] else [rows[0]]) + DeleteRows(rows[1..], id)
  }

  /** The rows of the statement's table afterwards. */
  function Changed(rows: seq<Row>, op: Op): seq<Row> {
    match op
    case Insert(_, row) => rows + [row]
    case Update(_, id, amount) => UpdateRows(rows, id, amount)
    case Delete(_, id) => DeleteRows(rows, id)
    case Clear(_) => []
  }

  /** A statement on a table that does not exist fails and changes nothing. */
  function Exec(ts: tables, op: Op): tables {
    if op.name in ts then ts[op.name := Changed(ts[op.name], op)] else ts
  }

  function Run(ts: tables, ops: seq<Op>): tables {
    if ops == [] then ts else Exec(Run(ts, ops[..|ops| - 1]), ops[|ops| - 1])
  }

  /** The statement for an item; other actions than these four have none. */
  function OpOf(action: string, i: Item): Op
    requires action in ["update", "insert", "delete", "partial"]
  {
    if action == "update" then Update(i.symbol + i.side, i.id, Trunc(i.size) as real)
    else if action == "delete" then Delete(i.symbol + i.side, i.id)
    else Insert(i.symbol + i.side, Row(i.id, SixDecimals(i.price), SixDecimals(i.size)))
  }

  /** Truncating a size goes towards zero, is off by less than one, and exact exactly for whole numbers. */
  lemma TruncError(x: real)
    ensures -1.0 < Trunc(x) as real - x < 1.0
    ensures if x >= 0.0 then 0.0 <= Trunc(x) as real <= x else x <= Trunc(x) as real <= 0.0
    ensures Trunc(x) as real == x <==> x == x.Floor as real
  {
    var n := Trunc(x);
    if n as real == x {
      assert x.Floor == n;
    }
    if x == x.Floor as real {
      assert -x == (-x.Floor) as real;
      assert (-x).Floor == -x.Floor;
    }
  }

  /** The statement stores the numbers that the item carries. */
  predicate StoresExactly(op: Op, i: Item) {
    match op
    case Insert(_, row) => row.price == i.price && row.amount == i.size
    case Update(_, _, amount) => amount == i.size
    case Delete(_, _) => true
    case Clear(_) => true
  }

  /** When a message's numbers are stored as they are: other conditions for updates than for inserts. */
  lemma StoredExactly(action: string, i: Item)
    requires action in ["update", "insert", "delete", "partial"]
    ensures StoresExactly(OpOf(action, i), i) <==>
      if action == "update" then i.size == i.size.Floor as real
      else action == "delete" || (HasSixDecimals(i.price) && HasSixDecimals(i.size))
  {
    hide Trunc, SixDecimals, HasSixDecimals;
    TruncError(i.size);
    SixDecimalsError(i.price);
    SixDecimalsError(i.size);
  }

  /** An update of six decimals that is not stored exactly, and off by more than half a millionth. */
  lemma UpdateTruncates(i: Item)
    requires i == Item(1, "XBTUSD", "Buy", 1.5, 0.0)
    ensures HasSixDecimals(i.size) && OpOf("update", i) == Update("XBTUSDBuy", 1, 1.0)
  {
    assert "XBTUSD" + "Buy" == "XBTUSDBuy";
  }

  function OpsOf(msg: Message): seq<Op> {
    if msg.action in ["update", "insert", "delete", "partial"] then
      seq(|msg.data|, i requires 0 <= i < |msg.data| => OpOf(msg.action, msg.data[i]))
    else []
  }

  function AllOps(msgs: seq<Message>): seq<Op> {
    if msgs == [] then [] else AllOps(msgs[..|msgs| - 1]) + OpsOf(msgs[|msgs| - 1])
  }

  lemma {:induction false} RunAppend(ts: tables, xs: seq<Op>, ys: seq<Op>)
    ensures Run(ts, xs + ys) == Run(Run(ts, xs), ys)
  {
    if ys == [] {
      assert xs + ys == xs;
    } else {
      RunAppend(ts, xs, ys[..|ys| - 1]);
      assert (xs + ys)[..|xs + ys| - 1] == xs + ys[..|ys| - 1];
    }
  }

  /** `select ... order by price limit 10` may return the rows in any order that is sorted by price. */
  ghost predicate IsOrdering(rows: seq<Row>, order: seq<Row>, desc: bool) {
    multiset(order) == multiset(rows) && InOrder(order, desc)
  }

  /** Whether `x` may stand before `y`. */
  predicate MayPrecede(x: Row, y: Row, desc: bool) {
    if desc then x.price >= y.price else x.price <= y.price
  }

  predicate InOrder(order: seq<Row>, desc: bool) {
    forall i, j | 0 <= i < j < |order| :: MayPrecede(order[i], order[j], desc)
  }

  function Worth(r: Row): real {
    r.price * (r.amount / 100.0)
  }

  function Sum(rows: seq<Row>): real {
    if rows == [] then 0.0 else Worth(rows[0]) + Sum(rows[1..])
  }

  function TopTen(order: seq<Row>): seq<Row> {
    if |order| <= 10 then order else order[..10]
  }

  class Exchange {
    var db: tables
    var mAsk: real
    var mBid: real

    constructor ()
      ensures db == map[]
    {
      db := map[];
    }

    /** Opens a new database in memory and creates the tables. */
    method InitTable()
      modifies this`db
      ensures db == EmptyTables() && db.Keys == {"XBTUSDSell", "XBTUSDBuy", "ETHUSDSell", "ETHUSDBuy"}
      ensures AllUnique(db)
      ensures forall name | name in db :: Contents(db[name]) == map[]
    {
      db := map[];
      for i := 0 to |TABLES|
        invariant db == map name | name in TABLES[..i] :: []
      {
        db := db[TABLES[i] := []];
        assert TABLES[..i + 1] == TABLES[..i] + [TABLES[i]];
      }
      assert TABLES[..|TABLES|] == TABLES;
    }

    /** A rejected statement, such as one on a table that does not exist, is only reported. */
    method InsertPrice(tablename: string, msgid: int, price: real, amount: real)
      modifies this`db
      ensures db == Exec(old(db), Insert(tablename, Row(msgid, SixDecimals(price), SixDecimals(amount))))
    {
      if tablename in db {
        db := db[tablename := db[tablename] + [Row(msgid, SixDecimals(price), SixDecimals(amount))]];
      }
    }

    method DeletePrice(tablename: string, msgid: int)
      modifies this`db
      ensures db == Exec(old(db), Delete(tablename, msgid))
    {
      if tablename in db {
        db := db[tablename := DeleteRows(db[tablename], msgid)];
      }
    }

    method UpdatePrice(tablename: string, msgid: int, amount: int)
      modifies this`db
      ensures db == Exec(old(db), Update(tablename, msgid, amount as real))
    {
      if tablename in db {
        db := db[tablename := UpdateRows(db[tablename], msgid, amount as real)];
      }
    }

    method ParsePriceamountToMap(action: string, data: seq<Item>)
      modifies this`db
      ensures db == Run(old(db), OpsOf(Message(action, data)))
    {
      ghost var ops := OpsOf(Message(action, data));
      if action == "update" {
        for i := 0 to |data|
          invariant db == Run(old(db), ops[..i])
        {
          UpdatePrice(data[i].symbol + data[i].side, data[i].id, Trunc(data[i].size));
          assert ops[..i + 1][..i] == ops[..i];
        }
      } else if action == "insert" {
        for i := 0 to |data|
          invariant db == Run(old(db), ops[..i])
        {
          InsertPrice(data[i].symbol + data[i].side, data[i].id, data[i].price, data[i].size);
          assert ops[..i + 1][..i] == ops[..i];
        }
      } else if action == "delete" {
        for i := 0 to |data|
          invariant db == Run(old(db), ops[..i])
        {
          DeletePrice(data[i].symbol + data[i].side, data[i].id);
          assert ops[..i + 1][..i] == ops[..i];
        }
      } else if action == "partial" {
        for i := 0 to |data|
          invariant db == Run(old(db), ops[..i])
        {
          InsertPrice(data[i].symbol + data[i].side, data[i].id, data[i].price, data[i].size);
          assert ops[..i + 1][..i] == ops[..i];
        }
      }
      assert ops[..|ops|] == ops;
    }

    /**
     * `order` is the order in which the engine walks the rows. Without the table the callback
     * is not called; without rows the sum is NULL, whose conversion fails: `ok` is false.
     */
    method SelectBidamount(tablename: string, order: seq<Row>) returns (ok: bool)
      requires tablename in db ==> IsOrdering(db[tablename], order, true)
      modifies this`mBid
      ensures ok <==> (tablename in db ==> db[tablename] != [])
      ensures mBid == if ok && tablename in db then Sum(TopTen(order)) else old(mBid)
    {
      ok := true;
      if tablename in db {
        ok := order != [];
        if ok {
          mBid := SumRows(TopTen(order));
        }
      }
    }

    method SelectAskamount(tablename: string, order: seq<Row>) returns (ok: bool)
      requires tablename in db ==> IsOrdering(db[tablename], order, false)
      modifies this`mAsk
      ensures ok <==> (tablename in db ==> db[tablename] != [])
      ensures mAsk == if ok && tablename in db then Sum(TopTen(order)) else old(mAsk)
    {
      ok := true;
      if tablename in db {
        ok := order != [];
        if ok {
          mAsk := SumRows(TopTen(order));
        }
      }
    }

    method ClearTableData(tablename: string)
      modifies this`db
      ensures db == Exec(old(db), Clear(tablename))
      ensures tablename in db ==> db[tablename] == []
    {
      if tablename in db {
        db := db[tablename := []];
      }
    }

    /**
     * A monitor's book from the start: after any messages each table holds the levels that
     * they leave, and its ids are unique throughout if and only if the inserted ones are fresh.
     */
    method FollowBook(msgs: seq<Message>)
      modifies this`db
      ensures db == Run(EmptyTables(), AllOps(msgs)) && db.Keys == EmptyTables().Keys
      ensures forall name | name in db :: Contents(db[name]) == MessagesMean(map[], name, msgs)
      ensures UniqueThroughout(EmptyTables(), AllOps(msgs)) <==> FreshInserts(EmptyTables(), AllOps(msgs))
      ensures FreshMessages(EmptyTables(), msgs) ==> AllUnique(db)
    {
      hide *;
      InitTable();
      NoOps(EmptyTables());
      for i := 0 to |msgs|
        invariant db == Run(EmptyTables(), AllOps(msgs[..i]))
      {
        AllOpsSnoc(EmptyTables(), msgs, i);
        ParsePriceamountToMap(msgs[i].action, msgs[i].data);
      }
      assert msgs[..|msgs|] == msgs;
      FromEmptyTables(msgs);
    }
  }

  /** The tables that the original creates. */
  const TABLES := ["XBTUSDSell", "XBTUSDBuy", "ETHUSDSell", "ETHUSDBuy"]

  function EmptyTables(): tables {
    map name | name in TABLES :: []
  }

  lemma NoOps(ts: tables)
    ensures Run(ts, AllOps([])) == ts
    ensures forall msgs: seq<Message> :: msgs[..0] == []
  {
  }

  lemma AllOpsSnoc(ts: tables, msgs: seq<Message>, i: nat)
    requires i < |msgs|
    ensures Run(ts, AllOps(msgs[..i + 1])) == Run(Run(ts, AllOps(msgs[..i])), OpsOf(msgs[i]))
    ensures msgs[i] == Message(msgs[i].action, msgs[i].data)
  {
    hide OpsOf, Run;
    assert msgs[..i + 1][..i] == msgs[..i];
    RunAppend(ts, AllOps(msgs[..i]), OpsOf(msgs[i]));
  }

  lemma FromEmptyTables(msgs: seq<Message>)
    ensures var ts := Run(EmptyTables(), AllOps(msgs));
      && ts.Keys == EmptyTables().Keys
      && (forall name | name in ts :: Contents(ts[name]) == MessagesMean(map[], name, msgs))
      && (FreshMessages(EmptyTables(), msgs) ==> AllUnique(ts))
    ensures UniqueThroughout(EmptyTables(), AllOps(msgs)) <==> FreshInserts(EmptyTables(), AllOps(msgs))
  {
    hide Run, LevelsAfter, MessagesMean, FreshMessages, UniqueThroughout, FreshInserts, AllOps;
    RunKeys(EmptyTables(), AllOps(msgs));
    forall name | name in EmptyTables()
      ensures Contents(Run(EmptyTables(), AllOps(msgs))[name]) == MessagesMean(map[], name, msgs)
    {
      RunRefines(EmptyTables(), AllOps(msgs), name);
      AllOpsMean(map[], name, msgs);
    }
    UniqueIffFresh(EmptyTables(), AllOps(msgs));
    if FreshMessages(EmptyTables(), msgs) {
      MessagesKeepUnique(EmptyTables(), msgs);
    }
  }

  method SumRows(rows: seq<Row>) returns (sum: real)
    ensures sum == Sum(rows)
  {
    sum := 0.0;
    for i := 0 to |rows|
      invariant sum == Sum(rows[..i])
    {
      assert rows[..i + 1] == rows[..i] + [rows[i]];
      SumAppend(rows[..i], [rows[i]]);
      assert [rows[i]][1..] == [];
      sum := sum + rows[i].price * (rows[i].amount / 100.0);
    }
    assert rows[..|rows|] == rows;
  }

  lemma {:induction false} SumAppend(xs: seq<Row>, ys: seq<Row>)
    ensures Sum(xs + ys) == Sum(xs) + Sum(ys)
  {
    hide Worth;
    if xs == [] {
      assert xs + ys == ys;
    } else {
      SumAppend(xs[1..], ys);
      assert (xs + ys)[1..] == xs[1..] + ys;
    }
  }

  // ----- rows as a map from ids to levels

  datatype Level = Level(price: real, amount: real)

  /** The latest row of each id. */
  function Contents(rows: seq<Row>): map<int, Level> {
    if rows == [] then map[]
    else
      var r := rows[|rows| - 1];
      Contents(rows[..|rows| - 1])[r.msgid := Level(r.price, r.amount)]
  }

  /** What a statement means for the map. */
  function ChangedLevels(m: map<int, Level>, op: Op): map<int, Level> {
    match op
    case Insert(_, r) => m[r.msgid := Level(r.price, r.amount)]
    case Update(_, id, amount) => if id in m then m[id := m[id].(amount := amount)] else m
    case Delete(_, id) => m - {id}
    case Clear(_) => map[]
  }

  /** The levels of the table `name` after a run of statements, of which only those on it matter. */
  function LevelsAfter(m: map<int, Level>, name: string, ops: seq<Op>): map<int, Level> {
    if ops == [] then m
    else
      var before, op := LevelsAfter(m, name, ops[..|ops| - 1]), ops[|ops| - 1];
      if op.name == name then ChangedLevels(before, op) else before
  }

  lemma UpdateCons(r: Row, rest: seq<Row>, id: int, amount: real)
    ensures UpdateRows([r] + rest, id, amount)
         == [if r.msgid == id then r.(amount := amount) else r] + UpdateRows(rest, id, amount)
  {
    assert ([r] + rest)[1..] == rest;
  }

  lemma {:induction false} UpdateAppend(xs: seq<Row>, ys: seq<Row>, id: int, amount: real)
    ensures UpdateRows(xs + ys, id, amount) == UpdateRows(xs, id, amount) + UpdateRows(ys, id, amount)
  {
    if xs == [] {
      assert xs + ys == ys;
    } else {
      hide UpdateRows;
      var r, rest := xs[0], xs[1..];
      assert xs == [r] + rest;
      Bits.Associative([r], rest, ys);
      UpdateCons(r, rest, id, amount);
      UpdateCons(r, rest + ys, id, amount);
      UpdateAppend(rest, ys, id, amount);
      Bits.Associative([if r.msgid == id then r.(amount := amount) else r],
                       UpdateRows(rest, id, amount), UpdateRows(ys, id, amount));
    }
  }

  lemma DeleteCons(r: Row, rest: seq<Row>, id: int)
    ensures DeleteRows([r] + rest, id) == (if r.msgid == id then [] else [r]) + DeleteRows(rest, id)
  {
    assert ([r] + rest)[1..] == rest;
  }

  lemma {:induction false} DeleteAppend(xs: seq<Row>, ys: seq<Row>, id: int)
    ensures DeleteRows(xs + ys, id) == DeleteRows(xs, id) + DeleteRows(ys, id)
  {
    if xs == [] {
      assert xs + ys == ys;
    } else {
      hide DeleteRows;
      var r, rest := xs[0], xs[1..];
      assert xs == [r] + rest;
      Bits.Associative([r], rest, ys);
      DeleteCons(r, rest, id);
      DeleteCons(r, rest + ys, id);
      DeleteAppend(rest, ys, id);
      Bits.Associative(if r.msgid == id then [] else [r], DeleteRows(rest, id), DeleteRows(ys, id));
    }
  }

  lemma ContentsSnoc(rows: seq<Row>, r: Row)
    ensures Contents(rows + [r]) == Contents(rows)[r.msgid := Level(r.price, r.amount)]
  {
    assert (rows + [r])[..|rows|] == rows;
  }

  lemma {:induction false} UpdateRefines(rows: seq<Row>, op: Op)
    requires op.Update?
    ensures Contents(Changed(rows, op)) == ChangedLevels(Contents(rows), op)
  {
    hide Contents;
    if rows == [] {
      NoRows();
    } else {
      var init, r := rows[..|rows| - 1], rows[|rows| - 1];
      var r' := if r.msgid == op.id then r.(amount := op.amount) else r;
      assert rows == init + [r];
      UpdateRefines(init, op);
      UpdateAppend(init, [r], op.id, op.amount);
      assert UpdateRows([r], op.id, op.amount) == [r'] by {
        assert [r][1..] == [];
      }
      ContentsSnoc(UpdateRows(init, op.id, op.amount), r');
      ContentsSnoc(init, r);
      UpdateKey(Contents(init), Level(r.price, r.amount), r.msgid, op);
    }
  }

  lemma UpdateKey(m: map<int, Level>, l: Level, k: int, op: Op)
    requires op.Update?
    ensures ChangedLevels(m[k := l], op)
         == ChangedLevels(m, op)[k := if k == op.id then l.(amount := op.amount) else l]
  {
  }

  lemma {:induction false} DeleteRefines(rows: seq<Row>, op: Op)
    requires op.Delete?
    ensures Contents(Changed(rows, op)) == ChangedLevels(Contents(rows), op)
  {
    hide Contents;
    assert Contents([]) == map[] by { NoRows(); }
    if rows == [] {
    } else {
      var init, r := rows[..|rows| - 1], rows[|rows| - 1];
      assert rows == init + [r];
      DeleteRefines(init, op);
      DeleteAppend(init, [r], op.id);
      ContentsSnoc(init, r);
      RemoveKey(Contents(init), r.msgid, op.id, Level(r.price, r.amount));
      if r.msgid != op.id {
        assert DeleteRows([r], op.id) == [r];
        ContentsSnoc(DeleteRows(init, op.id), r);
      } else {
        assert DeleteRows([r], op.id) == [];
        assert DeleteRows(init, op.id) + [] == DeleteRows(init, op.id);
      }
    }
  }

  lemma NoRows()
    ensures Contents([]) == map[]
  {
  }

  lemma RemoveKey(m: map<int, Level>, k: int, id: int, l: Level)
    ensures m[k := l] - {id} == if k == id then m - {id} else (m - {id})[k := l]
  {
  }

  /** Every statement acts on the rows as it should act on the map. */
  lemma ChangedRefines(rows: seq<Row>, op: Op)
    ensures Contents(Changed(rows, op)) == ChangedLevels(Contents(rows), op)
  {
    match op
    case Insert(_, row) => ContentsSnoc(rows, row);
    case Update(_, _, _) => UpdateRefines(rows, op);
    case Delete(_, _) => DeleteRefines(rows, op);
    case Clear(_) => NoRows();
  }

  /** Over every run each table's row list refines a map from ids to levels. */
  lemma {:induction false} RunRefines(ts: tables, ops: seq<Op>, name: string)
    requires name in ts
    ensures name in Run(ts, ops) && Contents(Run(ts, ops)[name]) == LevelsAfter(Contents(ts[name]), name, ops)
  {
    hide Changed, ChangedLevels, Contents;
    if ops == [] {
    } else {
      RunRefines(ts, ops[..|ops| - 1], name);
      ChangedRefines(Run(ts, ops[..|ops| - 1])[name], ops[|ops| - 1]);
    }
  }

  // ----- messages as maps

  /** What an item means for the levels of the table `name`. */
  function ItemMeans(m: map<int, Level>, name: string, action: string, i: Item): map<int, Level> {
    if i.symbol + i.side != name then m
    else if action == "update" then
      if i.id in m then m[i.id := Level(m[i.id].price, Trunc(i.size) as real)] else m
    else if action == "insert" || action == "partial" then
      m[i.id := Level(SixDecimals(i.price), SixDecimals(i.size))]
    else if action == "delete" then m - {i.id}
    else m
  }

  function ItemsMean(m: map<int, Level>, name: string, action: string, data: seq<Item>): map<int, Level> {
    if data == [] then m
    else ItemMeans(ItemsMean(m, name, action, data[..|data| - 1]), name, action, data[|data| - 1])
  }

  function MessagesMean(m: map<int, Level>, name: string, msgs: seq<Message>): map<int, Level> {
    if msgs == [] then m
    else
      var msg := msgs[|msgs| - 1];
      ItemsMean(MessagesMean(m, name, msgs[..|msgs| - 1]), name, msg.action, msg.data)
  }

  lemma {:induction false} LevelsAfterAppend(m: map<int, Level>, name: string, xs: seq<Op>, ys: seq<Op>)
    ensures LevelsAfter(m, name, xs + ys) == LevelsAfter(LevelsAfter(m, name, xs), name, ys)
  {
    hide ChangedLevels;
    if ys == [] {
      assert xs + ys == xs;
    } else {
      LevelsAfterAppend(m, name, xs, ys[..|ys| - 1]);
      assert (xs + ys)[..|xs + ys| - 1] == xs + ys[..|ys| - 1];
    }
  }

  lemma LevelsAfterOne(m: map<int, Level>, name: string, op: Op)
    ensures LevelsAfter(m, name, [op]) == if op.name == name then ChangedLevels(m, op) else m
  {
    assert [op][..0] == [];
  }

  lemma OpMeans(m: map<int, Level>, name: string, action: string, i: Item)
    requires action in ["update", "insert", "delete", "partial"]
    ensures LevelsAfter(m, name, [OpOf(action, i)]) == ItemMeans(m, name, action, i)
  {
    hide LevelsAfter, Trunc, SixDecimals;
    LevelsAfterOne(m, name, OpOf(action, i));
  }

  lemma OpsSnoc(action: string, data: seq<Item>, i: Item)
    requires action in ["update", "insert", "delete", "partial"]
    ensures OpsOf(Message(action, data + [i])) == OpsOf(Message(action, data)) + [OpOf(action, i)]
  {
    hide OpOf;
  }

  /** The statements of a message do what its items mean. */
  lemma {:induction false} OpsMean(m: map<int, Level>, name: string, action: string, data: seq<Item>)
    ensures LevelsAfter(m, name, OpsOf(Message(action, data))) == ItemsMean(m, name, action, data)
  {
    hide LevelsAfter, OpOf, ItemMeans;
    if data == [] {
      assert OpsOf(Message(action, data)) == [];
      NoLevels(m, name);
    } else {
      var before, i := data[..|data| - 1], data[|data| - 1];
      assert data == before + [i];
      OpsMean(m, name, action, before);
      if action in ["update", "insert", "delete", "partial"] {
        OpsSnoc(action, before, i);
        LevelsAfterAppend(m, name, OpsOf(Message(action, before)), [OpOf(action, i)]);
        OpMeans(ItemsMean(m, name, action, before), name, action, i);
      } else {
        OtherAction(ItemsMean(m, name, action, before), name, action, i);
      }
    }
  }

  lemma NoLevels(m: map<int, Level>, name: string)
    ensures LevelsAfter(m, name, []) == m
  {
  }

  lemma OtherAction(m: map<int, Level>, name: string, action: string, i: Item)
    requires action !in ["update", "insert", "delete", "partial"]
    ensures ItemMeans(m, name, action, i) == m
  {
  }

  lemma {:induction false} AllOpsMean(m: map<int, Level>, name: string, msgs: seq<Message>)
    ensures LevelsAfter(m, name, AllOps(msgs)) == MessagesMean(m, name, msgs)
  {
    hide LevelsAfter, OpsOf, ItemsMean;
    if msgs == [] {
      NoLevels(m, name);
    } else {
      var before, msg := msgs[..|msgs| - 1], msgs[|msgs| - 1];
      AllOpsMean(m, name, before);
      LevelsAfterAppend(m, name, AllOps(before), OpsOf(msg));
      OpsMean(MessagesMean(m, name, before), name, msg.action, msg.data);
      assert msg == Message(msg.action, msg.data);
    }
  }

  /** Statements for one symbol and side leave all other tables alone. */
  lemma {:induction false} OtherTables(ts: tables, ops: seq<Op>, name: string)
    requires forall i | 0 <= i < |ops| :: ops[i].name != name
    ensures Run(ts, ops).Keys == ts.Keys
    ensures name in ts ==> Run(ts, ops)[name] == ts[name]
  {
    if ops == [] {
    } else {
      OtherTables(ts, ops[..|ops| - 1], name);
    }
  }

  // ----- unique ids

  ghost predicate Unique(rows: seq<Row>) {
    forall i, j | 0 <= i < j < |rows| :: rows[i].msgid != rows[j].msgid
  }

  ghost predicate AllUnique(ts: tables) {
    forall name | name in ts :: Unique(ts[name])
  }

  /** Each row inserted into an existing table brings an id that the table does not hold. */
  ghost predicate FreshInserts(ts: tables, ops: seq<Op>) {
    forall k | 0 <= k < |ops| :: FreshInsert(Run(ts, ops[..k]), ops[k])
  }

  ghost predicate FreshInsert(ts: tables, op: Op) {
    op.Insert? && op.name in ts ==> op.row.msgid !in Contents(ts[op.name])
  }

  lemma {:induction false} ContentsKeys(rows: seq<Row>, id: int)
    ensures id in Contents(rows) <==> exists i :: 0 <= i < |rows| && rows[i].msgid == id
  {
    if rows == [] {
    } else {
      var n := |rows| - 1;
      ContentsKeys(rows[..n], id);
      if i :| 0 <= i < |rows| && rows[i].msgid == id {
        assert i < n ==> rows[..n][i].msgid == id;
      }
    }
  }

  lemma {:induction false} UpdateRowsAt(rows: seq<Row>, id: int, amount: real)
    ensures |UpdateRows(rows, id, amount)| == |rows|
    ensures forall i | 0 <= i < |rows| ::
      UpdateRows(rows, id, amount)[i] == if rows[i].msgid == id then rows[i].(amount := amount) else rows[i]
  {
    if rows == [] {
    } else {
      UpdateRowsAt(rows[1..], id, amount);
    }
  }

  lemma {:induction false} DeleteKeepsUnique(rows: seq<Row>, id: int)
    requires Unique(rows)
    ensures Unique(DeleteRows(rows, id))
    ensures forall i | 0 <= i < |DeleteRows(rows, id)| :: DeleteRows(rows, id)[i] in rows
  {
    if rows == [] {
    } else {
      DeleteKeepsUnique(rows[1..], id);
      var rest := DeleteRows(rows[1..], id);
      forall i | 0 <= i < |rest| ensures rest[i].msgid != rows[0].msgid && rest[i] in rows {
        var j :| 0 <= j < |rows[1..]| && rows[1..][j] == rest[i];
        assert rows[j + 1] == rest[i];
      }
    }
  }

  lemma ChangedUnique(rows: seq<Row>, op: Op)
    requires Unique(rows)
    ensures Unique(Changed(rows, op)) <==> (op.Insert? ==> op.row.msgid !in Contents(rows))
  {
    match op
    case Insert(_, row) =>
      ContentsKeys(rows, row.msgid);
      var after := rows + [row];
      if i :| 0 <= i < |rows| && rows[i].msgid == row.msgid {
        assert after[i].msgid == after[|rows|].msgid;
      }
    case Update(_, id, amount) =>
      UpdateRowsAt(rows, id, amount);
    case Delete(_, id) =>
      DeleteKeepsUnique(rows, id);
    case Clear(_) =>
  }

  lemma ExecUnique(ts: tables, op: Op)
    requires AllUnique(ts)
    ensures AllUnique(Exec(ts, op)) <==> FreshInsert(ts, op)
  {
    if op.name in ts {
      ChangedUnique(ts[op.name], op);
      assert op.name in Exec(ts, op);
    }
  }

  ghost predicate UniqueThroughout(ts: tables, ops: seq<Op>) {
    forall k | 0 <= k <= |ops| :: AllUnique(Run(ts, ops[..k]))
  }

  lemma UniqueThroughoutSnoc(ts: tables, ops: seq<Op>, op: Op)
    ensures UniqueThroughout(ts, ops + [op])
       <==> UniqueThroughout(ts, ops) && AllUnique(Run(ts, ops + [op]))
  {
    hide AllUnique, Run;
    var all := ops + [op];
    assert forall k | 0 <= k <= |ops| :: all[..k] == ops[..k];
    assert all[..|all|] == all;
    if UniqueThroughout(ts, all) {
      forall k | 0 <= k <= |ops| ensures AllUnique(Run(ts, ops[..k])) {
        assert AllUnique(Run(ts, all[..k]));
      }
    }
  }

  lemma FreshInsertsSnoc(ts: tables, ops: seq<Op>, op: Op)
    ensures FreshInserts(ts, ops + [op]) <==> FreshInserts(ts, ops) && FreshInsert(Run(ts, ops), op)
  {
    hide FreshInsert, Run;
    var all := ops + [op];
    assert forall k | 0 <= k <= |ops| :: all[..k] == ops[..k];
    assert ops[..|ops|] == ops;
    if FreshInserts(ts, all) {
      forall k | 0 <= k < |ops| ensures FreshInsert(Run(ts, ops[..k]), ops[k]) {
        assert FreshInsert(Run(ts, all[..k]), all[k]);
      }
      assert FreshInsert(Run(ts, all[..|ops|]), all[|ops|]);
    }
  }

  lemma NothingRun(ts: tables)
    ensures Run(ts, []) == ts && FreshInserts(ts, [])
    ensures UniqueThroughout(ts, []) <==> AllUnique(ts)
  {
    hide AllUnique;
    var none: seq<Op> := [];
    assert none[..0] == none;
    assert AllUnique(ts) ==> forall k | 0 <= k <= |none| :: none[..k] == none;
    if UniqueThroughout(ts, none) {
      assert AllUnique(Run(ts, none[..0]));
    }
  }

  lemma UniqueAtTheEnd(ts: tables, ops: seq<Op>)
    requires UniqueThroughout(ts, ops)
    ensures AllUnique(Run(ts, ops))
  {
    hide AllUnique, Run;
    assert ops[..|ops|] == ops;
  }

  lemma RunSnoc(ts: tables, ops: seq<Op>, op: Op)
    ensures Run(ts, ops + [op]) == Exec(Run(ts, ops), op)
  {
    hide Exec;
    assert (ops + [op])[..|ops|] == ops;
  }

  /** Ids stay unique in all tables throughout a run exactly when every inserted id is fresh. */
  lemma {:induction false} UniqueIffFresh(ts: tables, ops: seq<Op>)
    requires AllUnique(ts)
    ensures UniqueThroughout(ts, ops) <==> FreshInserts(ts, ops)
  {
    hide *;
    if ops == [] {
      NothingRun(ts);
    } else {
      var before, op := ops[..|ops| - 1], ops[|ops| - 1];
      assert ops == before + [op];
      UniqueIffFresh(ts, before);
      UniqueThroughoutSnoc(ts, before, op);
      FreshInsertsSnoc(ts, before, op);
      RunSnoc(ts, before, op);
      if UniqueThroughout(ts, before) {
        UniqueAtTheEnd(ts, before);
        ExecUnique(Run(ts, before), op);
      }
    }
  }

  lemma {:induction false} FreshInsertsAppend(ts: tables, xs: seq<Op>, ys: seq<Op>)
    ensures FreshInserts(ts, xs + ys) <==> FreshInserts(ts, xs) && FreshInserts(Run(ts, xs), ys)
  {
    hide FreshInsert, Exec;
    if ys == [] {
      assert xs + ys == xs;
    } else {
      var before, op := ys[..|ys| - 1], ys[|ys| - 1];
      assert ys == before + [op] && xs + ys == (xs + before) + [op];
      FreshInsertsAppend(ts, xs, before);
      FreshInsertsSnoc(ts, xs + before, op);
      FreshInsertsSnoc(Run(ts, xs), before, op);
      RunAppend(ts, xs, before);
    }
  }

  /** In a table that was empty before a run of inserts, only inserted ids occur. */
  lemma {:induction false} InsertedIds(ts: tables, ops: seq<Op>, name: string, id: int)
    requires name in ts && ts[name] == []
    requires forall i | 0 <= i < |ops| :: ops[i].Insert?
    ensures name in Run(ts, ops)
    ensures id in Contents(Run(ts, ops)[name]) ==>
      exists i :: 0 <= i < |ops| && ops[i].name == name && ops[i].row.msgid == id
  {
    if ops == [] {
    } else {
      var before, op := ops[..|ops| - 1], ops[|ops| - 1];
      InsertedIds(ts, before, name, id);
      if op.name == name {
        ContentsSnoc(Run(ts, before)[name], op.row);
      }
      if i :| 0 <= i < |before| && before[i].name == name && before[i].row.msgid == id {
        assert ops[i].name == name;
      }
    }
  }

  ghost predicate OnEmptyTables(ts: tables, ops: seq<Op>) {
    forall i | 0 <= i < |ops| && ops[i].name in ts :: ts[ops[i].name] == []
  }

  ghost predicate DistinctIds(ops: seq<Op>) {
    forall i, j | 0 <= i < j < |ops| && ops[i].Insert? && ops[j].Insert? && ops[i].name == ops[j].name ::
      ops[i].row.msgid != ops[j].row.msgid
  }

  /** A partial message on empty tables inserts fresh ids if its own ids are distinct. */
  lemma PartialIsFresh(ts: tables, msg: Message)
    requires msg.action == "partial" && OnEmptyTables(ts, OpsOf(msg)) && DistinctIds(OpsOf(msg))
    ensures FreshInserts(ts, OpsOf(msg))
  {
    var ops := OpsOf(msg);
    forall k | 0 <= k < |ops| ensures FreshInsert(Run(ts, ops[..k]), ops[k]) {
      var name, id := ops[k].name, ops[k].row.msgid;
      RunKeys(ts, ops[..k]);
      if name in ts {
        InsertedIds(ts, ops[..k], name, id);
      }
    }
  }

  lemma {:induction false} RunKeys(ts: tables, ops: seq<Op>)
    ensures Run(ts, ops).Keys == ts.Keys
  {
    if ops == [] {
    } else {
      RunKeys(ts, ops[..|ops| - 1]);
    }
  }

  ghost predicate FreshMessages(ts: tables, msgs: seq<Message>) {
    forall k | 0 <= k < |msgs| :: FreshInserts(Run(ts, AllOps(msgs[..k])), OpsOf(msgs[k]))
  }

  /** Ids are unique after every run of messages whose inserts are fresh where they arrive. */
  lemma {:induction false} MessagesKeepUnique(ts: tables, msgs: seq<Message>)
    requires AllUnique(ts) && FreshMessages(ts, msgs)
    ensures FreshInserts(ts, AllOps(msgs)) && AllUnique(Run(ts, AllOps(msgs)))
  {
    hide AllUnique, FreshInserts, UniqueThroughout, Run, OpsOf;
    if msgs == [] {
      NothingRun(ts);
    } else {
      var before, m := msgs[..|msgs| - 1], msgs[|msgs| - 1];
      forall k | 0 <= k < |before| ensures FreshInserts(Run(ts, AllOps(before[..k])), OpsOf(before[k])) {
        assert before[..k] == msgs[..k];
      }
      MessagesKeepUnique(ts, before);
      FreshInsertsAppend(ts, AllOps(before), OpsOf(m));
    }
    UniqueIffFresh(ts, AllOps(msgs));
    UniqueAtTheEnd(ts, AllOps(msgs));
  }

  // ----- the report

  lemma {:induction false} UniqueContents(rows: seq<Row>, r: Row)
    requires Unique(rows)
    ensures r in rows <==> r.msgid in Contents(rows) && Contents(rows)[r.msgid] == Level(r.price, r.amount)
    ensures multiset(rows)[r] == if r in rows then 1 else 0
  {
    if rows == [] {
    } else {
      var init, last := rows[..|rows| - 1], rows[|rows| - 1];
      assert rows == init + [last];
      UniqueContents(init, r);
      ContentsKeys(init, last.msgid);
      if r in init {
        var i :| 0 <= i < |init| && init[i] == r;
        assert rows[i].msgid != last.msgid;
      }
    }
  }

  /** Tables with unique ids and the same levels hold the same rows, whatever their history. */
  lemma SameRows(xs: seq<Row>, ys: seq<Row>)
    requires Unique(xs) && Unique(ys) && Contents(xs) == Contents(ys)
    ensures multiset(xs) == multiset(ys)
  {
    forall r: Row ensures multiset(xs)[r] == multiset(ys)[r] {
      UniqueContents(xs, r);
      UniqueContents(ys, r);
    }
  }

  lemma WithoutMultiset(s: seq<Row>, j: nat)
    requires j < |s|
    ensures multiset(s) == multiset(Without(s, j)) + multiset{s[j]}
  {
    assert s == s[..j] + [s[j]] + s[j + 1..];
  }

  lemma Cancel(a: multiset<Row>, b: multiset<Row>, r: Row)
    requires a + multiset{r} == b + multiset{r}
    ensures a == b
  {
    forall x: Row ensures a[x] == b[x] {
      assert (a + multiset{r})[x] == (b + multiset{r})[x];
    }
  }

  lemma MemberIndex(s: seq<Row>, t: seq<Row>, i: nat) returns (j: nat)
    requires multiset(s) == multiset(t) && i < |s|
    ensures j < |t| && t[j] == s[i]
  {
    assert s[i] in multiset(s);
    j :| 0 <= j < |t| && t[j] == s[i];
  }

  lemma SameLength(s: seq<Row>, t: seq<Row>)
    requires multiset(s) == multiset(t)
    ensures |s| == |t|
  {
    assert |s| == |multiset(s)| && |t| == |multiset(t)|;
  }

  lemma SumWithout(s: seq<Row>, j: nat)
    requires j < |s|
    ensures Sum(s) == Sum(Without(s, j)) + Worth(s[j])
  {
    hide Worth, Sum;
    assert s == s[..j] + ([s[j]] + s[j + 1..]);
    SumAppend(s[..j], [s[j]] + s[j + 1..]);
    SumCons(s[j], s[j + 1..]);
    SumAppend(s[..j], s[j + 1..]);
  }

  lemma SumCons(r: Row, rest: seq<Row>)
    ensures Sum([r] + rest) == Worth(r) + Sum(rest)
  {
    assert ([r] + rest)[1..] == rest;
  }

  lemma {:induction false} SumOfPermutation(xs: seq<Row>, ys: seq<Row>)
    requires multiset(xs) == multiset(ys)
    ensures Sum(xs) == Sum(ys)
  {
    hide Worth;
    SameLength(xs, ys);
    if xs == [] {
    } else {
      var j := MemberIndex(xs, ys, 0);
      WithoutMultiset(xs, 0);
      WithoutMultiset(ys, j);
      SumWithout(xs, 0);
      SumWithout(ys, j);
      Cancel(multiset(Without(xs, 0)), multiset(Without(ys, j)), xs[0]);
      SumOfPermutation(Without(xs, 0), Without(ys, j));
    }
  }

  /** With at most ten rows the report is the sum over the whole table, ties or not. */
  lemma ReportOfSmallTable(rows: seq<Row>, order: seq<Row>, desc: bool)
    requires IsOrdering(rows, order, desc) && |rows| <= 10
    ensures Sum(TopTen(order)) == Sum(rows)
  {
    SameLength(order, rows);
    SumOfPermutation(order, rows);
  }

  /** The order by price: the highest first for bids, the lowest first for asks. */
  lemma OrderedByPrice(rows: seq<Row>, order: seq<Row>)
    ensures IsOrdering(rows, order, true) <==>
      multiset(order) == multiset(rows) && forall i, j | 0 <= i < j < |order| :: order[i].price >= order[j].price
    ensures IsOrdering(rows, order, false) <==>
      multiset(order) == multiset(rows) && forall i, j | 0 <= i < j < |order| :: order[i].price <= order[j].price
  {
    if IsOrdering(rows, order, true) {
      forall i, j | 0 <= i < j < |order| ensures order[i].price >= order[j].price {
        assert MayPrecede(order[i], order[j], true);
      }
    }
    if IsOrdering(rows, order, false) {
      forall i, j | 0 <= i < j < |order| ensures order[i].price <= order[j].price {
        assert MayPrecede(order[i], order[j], false);
      }
    }
  }

  /** A row counts with its price times a hundredth of its amount. */
  lemma SumOfRow(r: Row)
    ensures Sum([r]) == r.price * (r.amount / 100.0)
  {
    assert [r][1..] == [];
  }

  /** From ten rows on, the report is the sum over the first ten and no more. */
  lemma SumOfTen(order: seq<Row>)
    requires |order| >= 10
    ensures Sum(TopTen(order)) ==
      Worth(order[0]) + Worth(order[1]) + Worth(order[2]) + Worth(order[3]) + Worth(order[4])
        + Worth(order[5]) + Worth(order[6]) + Worth(order[7]) + Worth(order[8]) + Worth(order[9])
  {
    hide Worth;
    assert TopTen(order) == order[..10];
    SumFirst(order, 10);
    SumFirst(order, 9);
    SumFirst(order, 8);
    SumFirst(order, 7);
    SumFirst(order, 6);
    SumFirst(order, 5);
    SumFirst(order, 4);
    SumFirst(order, 3);
    SumFirst(order, 2);
    SumFirst(order, 1);
  }

  lemma SumFirst(order: seq<Row>, n: nat)
    requires 0 < n <= |order|
    ensures Sum(order[..n]) == Sum(order[..n - 1]) + Worth(order[n - 1])
  {
    hide Worth;
    SumAppend(order[..n - 1], [order[n - 1]]);
    assert order[..n] == order[..n - 1] + [order[n - 1]];
    assert [order[n - 1]][1..] == [];
  }

  // ----- rows at equal prices

  lemma EqualStart(ys: seq<Row>, j: nat, k: nat, desc: bool)
    requires InOrder(ys, desc) && k <= j < |ys| && ys[j].price == ys[0].price
    ensures ys[k].price == ys[0].price
  {
    assert k == j || MayPrecede(ys[k], ys[j], desc);
    assert k == 0 || MayPrecede(ys[0], ys[k], desc);
  }

  lemma SameFirstPrice(xs: seq<Row>, ys: seq<Row>, desc: bool) returns (j: nat)
    requires multiset(xs) == multiset(ys) && xs != [] && InOrder(xs, desc) && InOrder(ys, desc)
    ensures j < |ys| && ys[j] == xs[0] && ys[0].price == xs[0].price
  {
    j := MemberIndex(xs, ys, 0);
    SameLength(xs, ys);
    var i := MemberIndex(ys, xs, 0);
    assert i == 0 || MayPrecede(xs[0], xs[i], desc);
    assert j == 0 || MayPrecede(ys[0], ys[j], desc);
  }

  lemma WithoutInOrder(ys: seq<Row>, j: nat, desc: bool)
    requires InOrder(ys, desc) && j < |ys|
    ensures InOrder(Without(ys, j), desc)
  {
    hide MayPrecede;
  }

  /** Two walks over the same rows meet the same prices. */
  lemma {:induction false} PricesAgree(xs: seq<Row>, ys: seq<Row>, desc: bool)
    requires multiset(xs) == multiset(ys) && InOrder(xs, desc) && InOrder(ys, desc)
    ensures |xs| == |ys| && forall k | 0 <= k < |xs| :: xs[k].price == ys[k].price
  {
    hide InOrder;
    SameLength(xs, ys);
    if xs == [] {
    } else {
      var j := SameFirstPrice(xs, ys, desc);
      var rest := Without(ys, j);
      WithoutMultiset(xs, 0);
      WithoutMultiset(ys, j);
      Cancel(multiset(Without(xs, 0)), multiset(rest), xs[0]);
      WithoutInOrder(xs, 0, desc);
      WithoutInOrder(ys, j, desc);
      PricesAgree(Without(xs, 0), rest, desc);
      forall k | 0 < k < |xs| ensures xs[k].price == ys[k].price {
        assert xs[k].price == Without(xs, 0)[k - 1].price == rest[k - 1].price;
        if k <= j {
          EqualStart(ys, j, k - 1, desc);
          EqualStart(ys, j, k, desc);
        }
      }
    }
  }

  /** Where the price changes after `k` rows, a row's price tells on which side it stands. */
  lemma HeadCount(xs: seq<Row>, k: nat, desc: bool, r: Row)
    requires InOrder(xs, desc) && k < |xs| && (k > 0 ==> xs[k - 1].price != xs[k].price)
    ensures multiset(xs[..k])[r] == if MayPrecede(xs[k], r, desc) then 0 else multiset(xs)[r]
  {
    hide InOrder, MayPrecede;
    assert xs == xs[..k] + xs[k..];
    forall i | 0 <= i < |xs| ensures MayPrecede(xs[k], xs[i], desc) <==> k <= i {
      Boundary(xs, k, i, desc);
    }
    assert forall i | 0 <= i < |xs[k..]| :: xs[k..][i] == xs[k + i];
  }

  lemma Boundary(xs: seq<Row>, k: nat, i: nat, desc: bool)
    requires InOrder(xs, desc) && k < |xs| && (k > 0 ==> xs[k - 1].price != xs[k].price) && i < |xs|
    ensures MayPrecede(xs[k], xs[i], desc) <==> k <= i
  {
    if i < k {
      assert MayPrecede(xs[k - 1], xs[k], desc);
      assert i == k - 1 || MayPrecede(xs[i], xs[k - 1], desc);
    } else {
      assert i == k || MayPrecede(xs[k], xs[i], desc);
    }
  }

  /** All walks have the same rows before a change of price, in whatever order. */
  lemma HeadsAgree(xs: seq<Row>, ys: seq<Row>, k: nat, desc: bool)
    requires multiset(xs) == multiset(ys) && InOrder(xs, desc) && InOrder(ys, desc)
    requires k <= |xs| && (0 < k < |xs| ==> xs[k - 1].price != xs[k].price)
    ensures k <= |ys| && Sum(xs[..k]) == Sum(ys[..k])
  {
    hide InOrder, Sum;
    PricesAgree(xs, ys, desc);
    if k < |xs| {
      forall r: Row ensures multiset(xs[..k])[r] == multiset(ys[..k])[r] {
        HeadCount(xs, k, desc, r);
        HeadCount(ys, k, desc, r);
      }
    } else {
      assert xs[..k] == xs && ys[..k] == ys;
    }
    SumOfPermutation(xs[..k], ys[..k]);
  }

  /** The first row with the price of row `k`. */
  function PriceStart(xs: seq<Row>, k: nat): (m: nat)
    requires k < |xs|
    ensures m <= k && (forall i | m <= i <= k :: xs[i].price == xs[k].price)
    ensures m > 0 ==> xs[m - 1].price != xs[m].price
  {
    if k == 0 || xs[k - 1].price != xs[k].price then k else PriceStart(xs, k - 1)
  }

  /**
   * Rows on both sides of the limit that share a price are worth the same; so it does not
   * matter which of them the limit cuts off.
   */
  predicate TieHarmless(order: seq<Row>) {
    forall i, j | 0 <= i < 10 <= j < |order| && order[i].price == order[j].price :: Worth(order[i]) == Worth(order[j])
  }

  lemma {:induction false} SumOfEqual(rows: seq<Row>, w: real)
    requires forall i | 0 <= i < |rows| :: Worth(rows[i]) == w
    ensures Sum(rows) == |rows| as real * w
  {
    hide Worth;
    if rows == [] {
    } else {
      SumOfEqual(rows[1..], w);
      assert |rows| as real * w == w + |rows[1..]| as real * w;
    }
  }

  /** Beyond the limit there is a tied row, so all tied rows of any walk have its worth. */
  lemma TiedWorth(xs: seq<Row>, ys: seq<Row>, i: nat, desc: bool)
    requires multiset(xs) == multiset(ys) && |xs| > 10 && xs[9].price == xs[10].price && TieHarmless(xs)
    requires InOrder(xs, desc) && i < |ys| && ys[i].price == xs[10].price
    ensures Worth(ys[i]) == Worth(xs[10])
  {
    hide Worth;
    var j := MemberIndex(ys, xs, i);
    assert Worth(xs[9]) == Worth(xs[10]);
    if j < 10 {
      assert Worth(xs[j]) == Worth(xs[10]);
    } else {
      assert Worth(xs[9]) == Worth(xs[j]);
    }
  }

  lemma TiedSum(xs: seq<Row>, ys: seq<Row>, m: nat, desc: bool)
    requires multiset(xs) == multiset(ys) && |xs| > 10 && xs[9].price == xs[10].price && TieHarmless(xs)
    requires InOrder(xs, desc) && m <= 10 <= |ys| && forall i | m <= i < 10 :: ys[i].price == xs[10].price
    ensures Sum(ys[..10]) == Sum(ys[..m]) + (10 - m) as real * Worth(xs[10])
  {
    hide Worth, TieHarmless, InOrder, Sum;
    forall i | 0 <= i < |ys[m..10]| ensures Worth(ys[m..10][i]) == Worth(xs[10]) {
      TiedWorth(xs, ys, m + i, desc);
    }
    SumOfEqual(ys[m..10], Worth(xs[10]));
    SumAppend(ys[..m], ys[m..10]);
    assert ys[..10] == ys[..m] + ys[m..10];
  }

  lemma TiesDoNotMatter(xs: seq<Row>, ys: seq<Row>, desc: bool)
    requires multiset(xs) == multiset(ys) && InOrder(xs, desc) && InOrder(ys, desc) && TieHarmless(xs)
    ensures Sum(TopTen(xs)) == Sum(TopTen(ys))
  {
    hide InOrder, Sum, TieHarmless, Worth;
    SameLength(xs, ys);
    if |xs| <= 10 {
      SumOfPermutation(xs, ys);
    } else if xs[9].price != xs[10].price {
      HeadsAgree(xs, ys, 10, desc);
    } else {
      var m := PriceStart(xs, 9);
      PricesAgree(xs, ys, desc);
      HeadsAgree(xs, ys, m, desc);
      TiedSum(xs, xs, m, desc);
      TiedSum(xs, ys, m, desc);
    }
  }

  /** A walk with two tied rows exchanged is another walk over the same rows. */
  lemma ExchangeTied(xs: seq<Row>, i: nat, j: nat, desc: bool)
    requires InOrder(xs, desc) && i < j < |xs| && xs[i].price == xs[j].price
    ensures var ys := xs[i := xs[j]][j := xs[i]]; IsOrdering(xs, ys, desc)
  {
    var ys := xs[i := xs[j]][j := xs[i]];
    assert multiset(ys) == multiset(xs);
    forall a, b | 0 <= a < b < |ys| ensures MayPrecede(ys[a], ys[b], desc) {
      assert ys[a].price == xs[a].price && ys[b].price == xs[b].price && MayPrecede(xs[a], xs[b], desc);
    }
  }

  lemma ExchangeSum(xs: seq<Row>, i: nat, j: nat)
    requires i < 10 <= j < |xs|
    ensures Sum(TopTen(xs[i := xs[j]][j := xs[i]])) == Sum(TopTen(xs)) - Worth(xs[i]) + Worth(xs[j])
  {
    hide Worth, Sum;
    var ys := xs[i := xs[j]][j := xs[i]];
    SumWithout(xs[..10], i);
    if |ys| > 10 {
      SumWithout(ys[..10], i);
      assert Without(ys[..10], i) == Without(xs[..10], i);
    }
  }

  /** The report is the same for every order the engine may choose exactly when ties are harmless. */
  lemma ReportDetermined(rows: seq<Row>, order: seq<Row>, desc: bool)
    requires IsOrdering(rows, order, desc)
    ensures (forall other | IsOrdering(rows, other, desc) :: Sum(TopTen(other)) == Sum(TopTen(order)))
       <==> TieHarmless(order)
  {
    hide InOrder, Sum, TopTen, Worth;
    if TieHarmless(order) {
      forall other | IsOrdering(rows, other, desc) ensures Sum(TopTen(other)) == Sum(TopTen(order)) {
        TiesDoNotMatter(order, other, desc);
      }
    } else {
      var i, j :| 0 <= i < 10 <= j < |order| && order[i].price == order[j].price && Worth(order[i]) != Worth(order[j]);
      ExchangeTied(order, i, j, desc);
      ExchangeSum(order, i, j);
      assert IsOrdering(rows, order[i := order[j]][j := order[i]], desc);
    }
  }

  ghost predicate DistinctPrices(m: map<int, Level>) {
    forall i, j | i in m && j in m && i != j :: m[i].price != m[j].price
  }

  lemma TwiceInSequence(s: seq<Row>, i: nat, j: nat)
    requires i < j < |s| && s[i] == s[j]
    ensures multiset(s)[s[i]] >= 2
  {
    assert s == s[..i] + [s[i]] + s[i + 1..j] + [s[j]] + s[j + 1..];
  }

  /** Distinct prices leave no ties. */
  lemma DistinctPricesNoTies(rows: seq<Row>, order: seq<Row>)
    requires Unique(rows) && DistinctPrices(Contents(rows)) && multiset(order) == multiset(rows)
    ensures forall i, j | 0 <= i < j < |order| :: order[i].price != order[j].price
  {
    forall i, j | 0 <= i < j < |order| ensures order[i].price != order[j].price {
      UniqueContents(rows, order[i]);
      UniqueContents(rows, order[j]);
      assert order[i] in multiset(order) && order[j] in multiset(order);
      if order[i] == order[j] {
        TwiceInSequence(order, i, j);
      }
    }
  }

  /**
   * The report depends on the current levels only: for any two histories that end with the
   * same levels, and any order in which the engine walks the rows, it is the same, if ties
   * at the limit are harmless; no order has a tie if the prices are distinct.
   */
  lemma ReportIndependentOfHistory(xs: seq<Row>, ys: seq<Row>, xorder: seq<Row>, yorder: seq<Row>, desc: bool)
    requires Unique(xs) && Unique(ys) && Contents(xs) == Contents(ys)
    requires IsOrdering(xs, xorder, desc) && IsOrdering(ys, yorder, desc)
    requires TieHarmless(xorder) || DistinctPrices(Contents(xs))
    ensures Sum(TopTen(xorder)) == Sum(TopTen(yorder))
  {
    hide Sum, InOrder, Worth, Contents, Unique;
    SameRows(xs, ys);
    if DistinctPrices(Contents(xs)) {
      DistinctPricesNoTies(xs, xorder);
    }
    TiesDoNotMatter(xorder, yorder, desc);
  }

  /**
   * Any two runs with fresh inserts that leave a table with the same levels give the same
   * report for it, under the same condition on ties.
   */
  lemma RunsReportAlike(ts: tables, xs: seq<Op>, ys: seq<Op>, name: string,
                        xorder: seq<Row>, yorder: seq<Row>, desc: bool)
    requires name in ts && AllUnique(ts) && FreshInserts(ts, xs) && FreshInserts(ts, ys)
    requires LevelsAfter(Contents(ts[name]), name, xs) == LevelsAfter(Contents(ts[name]), name, ys)
    requires TieHarmless(xorder) || DistinctPrices(LevelsAfter(Contents(ts[name]), name, xs))
    requires name in Run(ts, xs) && IsOrdering(Run(ts, xs)[name], xorder, desc)
    requires name in Run(ts, ys) && IsOrdering(Run(ts, ys)[name], yorder, desc)
    ensures Sum(TopTen(xorder)) == Sum(TopTen(yorder))
  {
    hide Run, LevelsAfter, FreshInserts, UniqueThroughout, IsOrdering, Sum, Contents;
    RunRefines(ts, xs, name);
    RunRefines(ts, ys, name);
    UniqueIffFresh(ts, xs);
    UniqueIffFresh(ts, ys);
    UniqueAtTheEnd(ts, xs);
    UniqueAtTheEnd(ts, ys);
    ReportIndependentOfHistory(Run(ts, xs)[name], Run(ts, ys)[name], xorder, yorder, desc);
  }

  /** An order for the report to walk always exists. */
  function Place(r: Row, order: seq<Row>, desc: bool): seq<Row> {
    if order == [] || MayPrecede(r, order[0], desc) then [r] + order
    else [order[0]] + Place(r, order[1..], desc)
  }

  function Arranged(rows: seq<Row>, desc: bool): seq<Row> {
    if rows == [] then [] else Place(rows[0], Arranged(rows[1..], desc), desc)
  }

  lemma {:induction false} PlaceMultiset(r: Row, order: seq<Row>, desc: bool)
    ensures multiset(Place(r, order, desc)) == multiset{r} + multiset(order)
  {
    if order == [] {
    } else {
      PlaceMultiset(r, order[1..], desc);
      assert order == [order[0]] + order[1..];
    }
  }

  lemma ConsInOrder(r: Row, order: seq<Row>, desc: bool)
    requires InOrder(order, desc) && forall k | 0 <= k < |order| :: MayPrecede(r, order[k], desc)
    ensures InOrder([r] + order, desc)
  {
    hide MayPrecede;
  }

  lemma {:induction false} PlaceInOrder(r: Row, order: seq<Row>, desc: bool)
    requires InOrder(order, desc)
    ensures InOrder(Place(r, order, desc), desc)
  {
    if order == [] || MayPrecede(r, order[0], desc) {
      forall k | 0 <= k < |order| ensures MayPrecede(r, order[k], desc) {
        assert k > 0 ==> MayPrecede(order[0], order[k], desc);
      }
      ConsInOrder(r, order, desc);
    } else {
      var rest := Place(r, order[1..], desc);
      PlaceInOrder(r, order[1..], desc);
      PlaceMultiset(r, order[1..], desc);
      forall k | 0 <= k < |rest| ensures MayPrecede(order[0], rest[k], desc) {
        assert rest[k] in multiset(rest);
        assert rest[k] == r || rest[k] in order[1..];
      }
      ConsInOrder(order[0], rest, desc);
    }
  }

  lemma {:induction false} OrderingExists(rows: seq<Row>, desc: bool)
    ensures IsOrdering(rows, Arranged(rows, desc), desc)
  {
    if rows == [] {
    } else {
      OrderingExists(rows[1..], desc);
      PlaceMultiset(rows[0], Arranged(rows[1..], desc), desc);
      PlaceInOrder(rows[0], Arranged(rows[1..], desc), desc);
      assert [rows[0]] + rows[1..] == rows;
    }
  }
}
