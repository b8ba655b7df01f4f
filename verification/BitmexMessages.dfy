/** What a message does to the rows and the levels of exchange/bitmex.cpp's tables, in terms of its items. */
module BitmexMessages {
  import Bits
  import opened Wrappers
  import opened Bitmex

  /** Whether item `i` is about the row or rows with `id` in the table `name`. */
  predicate Names(i: Item, name: string, id: int) {
    i.symbol + i.side == name && i.id == id
  }

  /** Item `k` is the last one about them. */
  ghost predicate IsLast(data: seq<Item>, k: int, name: string, id: int) {
    0 <= k < |data| && Names(data[k], name, id) && forall j | k < j < |data| :: !Names(data[j], name, id)
  }

  ghost predicate Unnamed(data: seq<Item>, name: string, id: int) {
    forall j | 0 <= j < |data| :: !Names(data[j], name, id)
  }

  // ----- levels

  lemma {:induction false} NothingNamed(m: map<int, Level>, name: string, action: string, data: seq<Item>, id: int)
    requires Unnamed(data, name, id)
    ensures var r := ItemsMean(m, name, action, data);
      (id in r <==> id in m) && (id in m ==> r[id] == m[id])
  {
    hide Trunc, SixDecimals;
    if data == [] {
    } else {
      var before := data[..|data| - 1];
      assert !Names(data[|data| - 1], name, id);
      NothingNamed(m, name, action, before, id);
    }
  }

  lemma {:induction false} LastItem(m: map<int, Level>, name: string, action: string, data: seq<Item>, id: int, k: nat)
    requires IsLast(data, k, name, id)
    ensures var r := ItemsMean(m, name, action, data);
      && (action == "delete" ==> id !in r)
      && (action == "insert" || action == "partial" ==>
            id in r && r[id] == Level(SixDecimals(data[k].price), SixDecimals(data[k].size)))
      && (action == "update" ==>
            (id in r <==> id in m) && (id in m ==> r[id] == Level(m[id].price, Trunc(data[k].size) as real)))
  {
    hide Trunc, SixDecimals;
    var n := |data| - 1;
    var before := data[..n];
    if k < n {
      assert !Names(data[n], name, id);
      LastItem(m, name, action, before, id, k);
    } else {
      Earlier(m, name, action, before, id);
    }
  }

  /** Items of an update or delete do not add an id, and no item of an update changes a price or drops an id. */
  lemma {:induction false} Earlier(m: map<int, Level>, name: string, action: string, data: seq<Item>, id: int)
    ensures var r := ItemsMean(m, name, action, data);
      action == "update" ==> (id in r <==> id in m) && (id in m ==> r[id].price == m[id].price)
  {
    hide Trunc, SixDecimals;
    if data == [] {
    } else {
      Earlier(m, name, action, data[..|data| - 1], id);
    }
  }

  lemma MessageMeans(ts: tables, name: string, msg: Message)
    requires name in ts
    ensures name in Run(ts, OpsOf(msg))
    ensures Contents(Run(ts, OpsOf(msg))[name]) == ItemsMean(Contents(ts[name]), name, msg.action, msg.data)
  {
    hide Run, OpsOf, Contents, ItemsMean;
    RunRefines(ts, OpsOf(msg), name);
    OpsMean(Contents(ts[name]), name, msg.action, msg.data);
    assert msg == Message(msg.action, msg.data);
  }

  /**
   * The last item about an id in the table `symbol + side` decides: it removes the id, sets its
   * rounded price and size, or, if the table has the id, sets its truncated size.
   */
  lemma MessageDecides(ts: tables, msg: Message, k: nat)
    requires k < |msg.data|
    requires var i := msg.data[k]; i.symbol + i.side in ts && IsLast(msg.data, k, i.symbol + i.side, i.id)
    ensures var i := msg.data[k];
      i.symbol + i.side in Run(ts, OpsOf(msg))
    ensures var i := msg.data[k]; var name := i.symbol + i.side;
      var before, after := Contents(ts[name]), Contents(Run(ts, OpsOf(msg))[name]);
      && (msg.action == "delete" ==> i.id !in after)
      && (msg.action == "insert" || msg.action == "partial" ==>
            i.id in after && after[i.id] == Level(SixDecimals(i.price), SixDecimals(i.size)))
      && (msg.action == "update" ==>
            (i.id in after <==> i.id in before)
            && (i.id in before ==> after[i.id] == Level(before[i.id].price, Trunc(i.size) as real)))
  {
    hide Run, OpsOf, Contents, ItemsMean, Trunc, SixDecimals, IsLast;
    var i := msg.data[k];
    MessageMeans(ts, i.symbol + i.side, msg);
    LastItem(Contents(ts[i.symbol + i.side]), i.symbol + i.side, msg.action, msg.data, i.id, k);
  }

  /** Levels that no item is about stay as they are. */
  lemma MessageKeeps(ts: tables, msg: Message, name: string, id: int)
    requires name in ts && Unnamed(msg.data, name, id)
    ensures name in Run(ts, OpsOf(msg))
    ensures var before, after := Contents(ts[name]), Contents(Run(ts, OpsOf(msg))[name]);
      (id in after <==> id in before) && (id in before ==> after[id] == before[id])
  {
    hide Run, OpsOf, Contents, ItemsMean, Unnamed;
    MessageMeans(ts, name, msg);
    NothingNamed(Contents(ts[name]), name, msg.action, msg.data, id);
  }

  // ----- rows

  /** No table is created or dropped, and those that no item is about keep their rows. */
  lemma OtherTablesKept(ts: tables, msg: Message, name: string)
    requires forall j | 0 <= j < |msg.data| :: msg.data[j].symbol + msg.data[j].side != name
    ensures Run(ts, OpsOf(msg)).Keys == ts.Keys
    ensures name in ts ==> Run(ts, OpsOf(msg))[name] == ts[name]
  {
    OtherTables(ts, OpsOf(msg), name);
  }

  lemma {:induction false} DeleteRowsCount(rows: seq<Row>, id: int, r: Row)
    ensures multiset(DeleteRows(rows, id))[r] == if r.msgid == id then 0 else multiset(rows)[r]
  {
    if rows == [] {
    } else {
      DeleteRowsCount(rows[1..], id, r);
      assert rows == [rows[0]] + rows[1..];
    }
  }

  /** The run of a message, item by item. */
  lemma RunItems(ts: tables, action: string, before: seq<Item>, i: Item)
    requires action in ["update", "insert", "delete", "partial"]
    ensures Run(ts, OpsOf(Message(action, before + [i])))
         == Exec(Run(ts, OpsOf(Message(action, before))), OpOf(action, i))
  {
    hide Exec, OpOf, OpsOf;
    OpsSnoc(action, before, i);
    RunSnoc(ts, OpsOf(Message(action, before)), OpOf(action, i));
  }

  /** A delete message removes exactly the rows with an item's id in that item's table. */
  lemma {:induction false} DeleteMessage(ts: tables, data: seq<Item>, name: string, r: Row)
    requires name in ts
    ensures var after := Run(ts, OpsOf(Message("delete", data)));
      name in after && multiset(after[name])[r] == if Unnamed(data, name, r.msgid) then multiset(ts[name])[r] else 0
  {
    if data == [] {
      assert OpsOf(Message("delete", data)) == [];
    } else {
      hide Run, OpsOf;
      var before, i := data[..|data| - 1], data[|data| - 1];
      assert data == before + [i];
      DeleteMessage(ts, before, name, r);
      RunItems(ts, "delete", before, i);
      UnnamedSnoc(before, i, name, r.msgid);
      if i.symbol + i.side == name {
        DeleteRowsCount(Run(ts, OpsOf(Message("delete", before)))[name], i.id, r);
      }
    }
  }

  lemma UnnamedSnoc(before: seq<Item>, i: Item, name: string, id: int)
    ensures Unnamed(before + [i], name, id) <==> Unnamed(before, name, id) && !Names(i, name, id)
  {
    hide Names;
    var all := before + [i];
    assert all[|before|] == i && forall j | 0 <= j < |before| :: all[j] == before[j];
    if Unnamed(all, name, id) {
      forall j | 0 <= j < |before| ensures !Names(before[j], name, id) {
        assert !Names(all[j], name, id);
      }
      assert !Names(all[|before|], name, id);
    }
  }

  /** The rows that items bring for the table `name`. */
  function NewRow(i: Item, name: string): seq<Row> {
    if i.symbol + i.side == name then [Row(i.id, SixDecimals(i.price), SixDecimals(i.size))] else []
  }

  function NewRows(data: seq<Item>, name: string): seq<Row> {
    if data == [] then [] else NewRows(data[..|data| - 1], name) + NewRow(data[|data| - 1], name)
  }

  lemma InsertStep(ts: tables, action: string, i: Item, name: string)
    requires name in ts && (action == "insert" || action == "partial")
    ensures name in Exec(ts, OpOf(action, i)) && Exec(ts, OpOf(action, i))[name] == ts[name] + NewRow(i, name)
  {
    hide SixDecimals;
  }

  /** Insert and partial messages append the items' rows to their tables, in order. */
  lemma {:induction false} InsertMessage(ts: tables, action: string, data: seq<Item>, name: string)
    requires name in ts && (action == "insert" || action == "partial")
    ensures name in Run(ts, OpsOf(Message(action, data)))
    ensures Run(ts, OpsOf(Message(action, data)))[name] == ts[name] + NewRows(data, name)
  {
    if data == [] {
      assert OpsOf(Message(action, data)) == [];
    } else {
      hide Run, OpsOf, OpOf, Exec, NewRow;
      var before, i := data[..|data| - 1], data[|data| - 1];
      assert data == before + [i];
      InsertMessage(ts, action, before, name);
      RunItems(ts, action, before, i);
      InsertStep(Run(ts, OpsOf(Message(action, before))), action, i, name);
      Bits.Associative(ts[name], NewRows(before, name), NewRow(i, name));
    }
  }

  /** The size in the last item about an id. */
  function LastSize(data: seq<Item>, name: string, id: int): Option<real> {
    if data == [] then None
    else
      var i := data[|data| - 1];
      if Names(i, name, id) then Some(i.size) else LastSize(data[..|data| - 1], name, id)
  }

  lemma {:induction false} LastSizeIs(data: seq<Item>, name: string, id: int)
    ensures Unnamed(data, name, id) ==> LastSize(data, name, id) == None
    ensures forall k | IsLast(data, k, name, id) :: LastSize(data, name, id) == Some(data[k].size)
  {
    hide Names;
    if data == [] {
    } else {
      var n := |data| - 1;
      if !Names(data[n], name, id) {
        LastSizeIs(data[..n], name, id);
        forall k | IsLast(data, k, name, id) ensures IsLast(data[..n], k, name, id) {
          assert k != n;
        }
        assert Unnamed(data, name, id) ==> Unnamed(data[..n], name, id);
      }
    }
  }

  lemma UpdateStep(ts: tables, i: Item, name: string, n: nat)
    requires name in ts && n < |ts[name]|
    ensures var after, r := Exec(ts, OpOf("update", i)), ts[name][n];
      && name in after && |after[name]| == |ts[name]|
      && after[name][n] == if Names(i, name, r.msgid) then r.(amount := Trunc(i.size) as real) else r
  {
    hide Trunc;
    if i.symbol + i.side == name {
      UpdateRowsAt(ts[name], i.id, Trunc(i.size) as real);
    }
  }

  lemma {:induction false} UpdateRun(ts: tables, data: seq<Item>, name: string, n: nat)
    requires name in ts && n < |ts[name]|
    ensures name in Run(ts, OpsOf(Message("update", data)))
    ensures var after, r := Run(ts, OpsOf(Message("update", data)))[name], ts[name][n];
      && |after| == |ts[name]|
      && after[n] == match LastSize(data, name, r.msgid)
                     case None => r
                     case Some(size) => Row(r.msgid, r.price, Trunc(size) as real)
  {
    if data == [] {
      assert OpsOf(Message("update", data)) == [];
    } else {
      hide Run, OpsOf, OpOf, Exec, Trunc;
      var before, i := data[..|data| - 1], data[|data| - 1];
      assert data == before + [i];
      UpdateRun(ts, before, name, n);
      RunItems(ts, "update", before, i);
      UpdateStep(Run(ts, OpsOf(Message("update", before))), i, name, n);
    }
  }

  /** An update message sets the amount of every row to the truncated size of the last item about it. */
  lemma UpdateMessage(ts: tables, data: seq<Item>, name: string, n: nat)
    requires name in ts && n < |ts[name]|
    ensures name in Run(ts, OpsOf(Message("update", data)))
    ensures var after, r := Run(ts, OpsOf(Message("update", data)))[name], ts[name][n];
      && |after| == |ts[name]|
      && (Unnamed(data, name, r.msgid) ==> after[n] == r)
      && forall k | IsLast(data, k, name, r.msgid) :: after[n] == Row(r.msgid, r.price, Trunc(data[k].size) as real)
  {
    hide Run, OpsOf, LastSize, Trunc, IsLast, Unnamed;
    UpdateRun(ts, data, name, n);
    LastSizeIs(data, name, ts[name][n].msgid);
  }
}
