/** The `orders` table and the statements `OrderDAO` runs against it. */
module OrderDao {
  import opened Wrappers
  import opened Calendar
  import opened OrderModel
  import Table
  import Sql

  // ---------------------------------------------------------------------------------------------
  // The WHERE and ORDER BY clauses of the queries

  /** The unfiltered `SELECT * FROM orders`. */
  predicate AnyOrder(o: Order) {
    true
  }

  /** `ORDER BY order_date DESC`: latest first, and a NULL date, the smallest value, last. */
  predicate OrderDateDescLe(a: Order, b: Order) {
    Sql.NullsFirstLe(b.orderDate, a.orderDate)
  }

  /** `WHERE status IN ('PENDING', 'IN_TRANSIT')`, on the status column's stored text. */
  predicate ActiveWhere(o: Order) {
    StatusName(o.status) == "PENDING" || StatusName(o.status) == "IN_TRANSIT"
  }

  /** `ORDER BY expected_delivery_date`: earliest first, a NULL date first of all. */
  predicate ExpectedDeliveryLe(a: Order, b: Order) {
    Sql.NullsFirstLe(a.expectedDeliveryDate, b.expectedDeliveryDate)
  }

  lemma OrderDateDescLeTotalPreorder()
    ensures Table.TotalPreorder(OrderDateDescLe)
  {
  }

  lemma ExpectedDeliveryLeTotalPreorder()
    ensures Table.TotalPreorder(ExpectedDeliveryLe)
  {
  }

  /** The active-orders query selects exactly the orders `isActiveOrder` holds for. */
  lemma ActiveWhereIsActiveOrder(o: Order)
    ensures ActiveWhere(o) == IsActiveOrder(o)
  {
  }

  // ---------------------------------------------------------------------------------------------
  // The rows the INSERT and the UPDATEs write

  /** The row `addOrder` inserts: the id the table hands out, every other column from `o`, and
      `order_date` today when `o` has none. */
  function Inserted(o: Order, id: int, today: Date): (r: Order)
    ensures r.id == id
    ensures r.(id := o.id, orderDate := o.orderDate) == o
    ensures o.orderDate.Some? ==> r.orderDate == o.orderDate
    ensures o.orderDate.None? ==> r.orderDate == Some(today)
  {
    var ordered := if o.orderDate.None? then Some(today) else o.orderDate;
    o.(id := id, orderDate := ordered)
  }

  /** The three UPDATE statements on `orders`: every column but id (`updateOrder`), the status alone
      (`updateOrderStatus`), or status DELIVERED with today as delivery date (`markAsDelivered`). */
  datatype OrderUpdate =
    | SetAll(order: Order)
    | SetStatusTo(status: OrderStatus)
    | MarkDelivered(today: Date)

  /** The row an UPDATE leaves behind: the SET columns changed, the rest, and always the id, kept. */
  function Apply(row: Order, u: OrderUpdate): (r: Order)
    ensures r.id == row.id
    ensures u.SetAll? ==> r.(id := u.order.id) == u.order
    ensures u.SetStatusTo? ==> r.status == u.status && r.(status := row.status) == row
    ensures u.MarkDelivered? ==> r.status == Delivered && r.actualDeliveryDate == Some(u.today)
    ensures u.MarkDelivered? ==> r.(status := row.status, actualDeliveryDate := row.actualDeliveryDate) == row
  {
    match u
    case SetAll(o) =>
      Order(row.id, o.equipmentId, o.equipmentName, o.quantity, o.orderDate, o.expectedDeliveryDate,
            o.actualDeliveryDate, o.status, o.supplier, o.totalCost)
    case SetStatusTo(s) => SetStatus(row, s)
    case MarkDelivered(today) => row.(status := Delivered, actualDeliveryDate := Some(today))
  }

  /** The table after `UPDATE orders SET ... WHERE id = ?`: as many rows, each with its own id, and
      every row with another id untouched. */
  function Updated(rows: seq<Order>, id: int, u: OrderUpdate): (r: seq<Order>)
    ensures |r| == |rows|
    ensures forall i :: 0 <= i < |rows| ==> r[i].id == rows[i].id
    ensures forall i :: 0 <= i < |rows| && rows[i].id != id ==> r[i] == rows[i]
  {
    seq(|rows|, i requires 0 <= i < |rows| => if rows[i].id == id then Apply(rows[i], u) else rows[i])
  }

  /** Cancelling an order takes it off the active list, whatever its status was; every other order
      stays on it or off it as before. */
  lemma CancelRemovesFromActive(rows: seq<Order>, id: int, o: Order)
    ensures var after := Table.Filter(Updated(rows, id, SetStatusTo(Cancelled)), IsActiveOrder);
            (o.id == id ==> o !in after) &&
            (o.id != id ==> (o in after <==> o in Table.Filter(rows, IsActiveOrder)))
  {
    var updated := Updated(rows, id, SetStatusTo(Cancelled));
    Table.FilterMembers(updated, IsActiveOrder, o);
    Table.FilterMembers(rows, IsActiveOrder, o);
    if o in updated {
      var i :| 0 <= i < |updated| && updated[i] == o;
      assert rows[i].id == id ==> !IsActiveOrder(o);
    }
    if o.id != id && o in rows {
      var i :| 0 <= i < |rows| && rows[i] == o;
      assert updated[i] == o;
    }
  }

  // ---------------------------------------------------------------------------------------------
  // The store

  /** The `orders` table: its rows in rowid order and the AUTOINCREMENT counter. */
  class OrderStore {
    var rows: seq<Order>
    /** The id the next INSERT receives: above every id the table has handed out. */
    var nextId: int

    ghost predicate Valid()
      reads this
    {
      && nextId >= 1
      && Table.KeysAscending(rows, IdOf)
      && forall i :: 0 <= i < |rows| ==> 1 <= rows[i].id < nextId
    }

    /** A freshly created, empty table. */
    constructor()
      ensures Valid()
      ensures rows == [] && nextId == 1
    {
      rows := [];
      nextId := 1;
    }

    /** `SELECT * FROM orders ORDER BY order_date DESC`: every order once, latest first. */
    method GetAllOrders() returns (list: seq<Order>)
      ensures Table.SortedBy(list, OrderDateDescLe)
      ensures multiset(list) == multiset(rows)
    {
      OrderDateDescLeTotalPreorder();
      list := Table.Select(rows, AnyOrder, OrderDateDescLe);
      Table.FilterKeepsAll(rows, AnyOrder);
    }

    /** `SELECT * FROM orders WHERE status IN ('PENDING', 'IN_TRANSIT') ORDER BY
        expected_delivery_date`: exactly the active orders, soonest expected first. */
    method GetActiveOrders() returns (list: seq<Order>)
      ensures Table.SortedBy(list, ExpectedDeliveryLe)
      ensures multiset(list) == multiset(Table.Filter(rows, IsActiveOrder))
    {
      ExpectedDeliveryLeTotalPreorder();
      list := Table.Select(rows, ActiveWhere, ExpectedDeliveryLe);
      forall o ensures ActiveWhere(o) == IsActiveOrder(o) {
        ActiveWhereIsActiveOrder(o);
      }
      Table.FilterSameRows(rows, ActiveWhere, IsActiveOrder);
    }

    /** `SELECT * FROM orders WHERE id = ?`: the order with that id, or nothing (Java `null`). */
    method GetOrderById(id: int) returns (o: Option<Order>)
      ensures o.None? <==> !Table.HasKey(rows, IdOf, id)
      ensures o.Some? ==> o.value in rows && o.value.id == id
    {
      var found := Table.Find(rows, IdOf, id);
      if found.Some? {
        return Some(rows[found.value]);
      }
      return None;
    }

    /** `addOrder`: one new row at the end, with a fresh id; every other row stays. The insert
        always affects one row (the engine does not check the equipment id against `equipments`). */
    method AddOrder(o: Order, today: Date) returns (ok: bool)
      requires Valid()
      modifies this
      ensures Valid()
      ensures ok
      ensures rows == old(rows) + [Inserted(o, old(nextId), today)]
      ensures nextId == old(nextId) + 1
    {
      rows := rows + [Inserted(o, nextId, today)];
      nextId := nextId + 1;
      ok := true;
    }

    /** An UPDATE ... WHERE id = ?: true exactly when a row has that id; that row changes as `u`
        says and no other row changes. */
    method UpdateWhere(id: int, u: OrderUpdate) returns (found: bool)
      requires Valid()
      modifies this
      ensures Valid()
      ensures found <==> Table.HasKey(old(rows), IdOf, id)
      ensures rows == Updated(old(rows), id, u)
      ensures !found ==> rows == old(rows)
      ensures nextId == old(nextId)
    {
      var at := Table.Find(rows, IdOf, id);
      found := at.Some?;
      if at.Some? {
        var k := at.value;
        forall j | 0 <= j < |rows| && j != k ensures rows[j].id != id {
          assert IdOf(rows[j]) != IdOf(rows[k]);
        }
        rows := rows[k := Apply(rows[k], u)];
      } else {
        assert rows == Updated(rows, id, u);
      }
    }

    /** `updateOrder`: every column but id, from `o`, on the row with `o`'s id. */
    method UpdateOrder(o: Order) returns (found: bool)
      requires Valid()
      modifies this
      ensures Valid()
      ensures found <==> Table.HasKey(old(rows), IdOf, o.id)
      ensures rows == Updated(old(rows), o.id, SetAll(o))
      ensures nextId == old(nextId)
    {
      found := UpdateWhere(o.id, SetAll(o));
    }

    /** `updateOrderStatus`: any status to any status, nothing else touched. */
    method UpdateOrderStatus(id: int, status: OrderStatus) returns (found: bool)
      requires Valid()
      modifies this
      ensures Valid()
      ensures found <==> Table.HasKey(old(rows), IdOf, id)
      ensures rows == Updated(old(rows), id, SetStatusTo(status))
      ensures nextId == old(nextId)
    {
      found := UpdateWhere(id, SetStatusTo(status));
    }

    /** `markAsDelivered`: status DELIVERED and delivery date today, whatever the status was. */
    method MarkAsDelivered(id: int, today: Date) returns (found: bool)
      requires Valid()
      modifies this
      ensures Valid()
      ensures found <==> Table.HasKey(old(rows), IdOf, id)
      ensures rows == Updated(old(rows), id, MarkDelivered(today))
      ensures nextId == old(nextId)
    {
      found := UpdateWhere(id, MarkDelivered(today));
    }

    /** `deleteOrder`: removes the row with that id, if any, and says whether there was one. */
    method DeleteOrder(id: int) returns (found: bool)
      requires Valid()
      modifies this
      ensures Valid()
      ensures found <==> Table.HasKey(old(rows), IdOf, id)
      ensures rows == Table.Delete(old(rows), IdOf, id)
      ensures |rows| == if found then |old(rows)| - 1 else |old(rows)|
      ensures nextId == old(nextId)
    {
      var at := Table.Find(rows, IdOf, id);
      found := at.Some?;
      Table.DeleteKeepsKeysAscending(rows, IdOf, id);
      Table.DeleteCount(rows, IdOf, id);
      ghost var before := rows;
      rows := Table.Delete(rows, IdOf, id);
      forall i | 0 <= i < |rows| ensures 1 <= rows[i].id < nextId {
        Table.DeleteMembers(before, IdOf, id, rows[i]);
      }
    }
  }
}
