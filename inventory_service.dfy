/** `InventoryService`: the one operation that spans both tables, and the dashboard figures. */
module InventoryService {
  import opened Calendar
  import JavaInt
  import Table
  import EquipmentModel
  import OrderModel
  import EquipmentDao
  import OrderDao

  type Equipment = EquipmentModel.Equipment

  // ---------------------------------------------------------------------------------------------
  // Quantities

  /** The total stock over `rows`, in unbounded integers. */
  function SumQuantities(rows: seq<Equipment>): int {
    if rows == [] then 0 else SumQuantities(rows[..|rows| - 1]) + rows[|rows| - 1].quantity
  }

  /** `IntStream.sum()` over the quantities: an int accumulator, added to left to right, wrapping
      on overflow at every step. */
  function IntStreamSum(rows: seq<Equipment>): (r: int)
    ensures JavaInt.InRange(r)
  {
    if rows == [] then 0 else JavaInt.Wrap(IntStreamSum(rows[..|rows| - 1]) + rows[|rows| - 1].quantity)
  }

  /** Wrapping at every step and wrapping once at the end agree: the stream's sum is the total
      stock, reduced into the int range. */
  lemma {:induction false} IntStreamSumIsWrappedTotal(rows: seq<Equipment>)
    ensures IntStreamSum(rows) == JavaInt.Wrap(SumQuantities(rows))
  {
    if rows != [] {
      var init := rows[..|rows| - 1];
      IntStreamSumIsWrappedTotal(init);
      JavaInt.WrapAdd(SumQuantities(init), rows[|rows| - 1].quantity);
    }
  }

  /** The equipment table after a delivery of `delta` units to the item with id `id`: that row's
      quantity is `quantity + delta` in int arithmetic, every other field and every other row as it
      was. */
  function AddToQuantity(rows: seq<Equipment>, id: int, delta: int): (r: seq<Equipment>)
    ensures |r| == |rows|
    ensures forall i :: 0 <= i < |rows| && rows[i].id != id ==> r[i] == rows[i]
    ensures forall i :: 0 <= i < |rows| && rows[i].id == id ==>
              r[i].(quantity := rows[i].quantity) == rows[i] &&
              r[i].quantity == JavaInt.Wrap(rows[i].quantity + delta)
  {
    seq(|rows|, i requires 0 <= i < |rows| =>
      if rows[i].id == id then rows[i].(quantity := JavaInt.Wrap(rows[i].quantity + delta)) else rows[i])
  }

  /** Writing back the row read by id, with its quantity raised, is the delivery's effect on the
      table: no other row has that id, so no other row is touched. */
  lemma UpdateReadBackIsAddToQuantity(rows: seq<Equipment>, e: Equipment, delta: int)
    requires Table.KeysAscending(rows, EquipmentModel.IdOf)
    requires e in rows
    ensures EquipmentDao.Updated(rows, e.(quantity := JavaInt.Wrap(e.quantity + delta)))
            == AddToQuantity(rows, e.id, delta)
  {
    var j :| 0 <= j < |rows| && rows[j] == e;
    forall i | 0 <= i < |rows| && i != j ensures rows[i].id != e.id {
      assert EquipmentModel.IdOf(rows[i]) != EquipmentModel.IdOf(rows[j]);
    }
  }

  /** Replacing one row changes the total stock by the difference of the two quantities. */
  lemma {:induction false} SumQuantitiesUpdate(rows: seq<Equipment>, k: int, e: Equipment)
    requires 0 <= k < |rows|
    ensures SumQuantities(rows[k := e]) == SumQuantities(rows) - rows[k].quantity + e.quantity
  {
    var n := |rows|;
    if k == n - 1 {
      assert rows[k := e][..n - 1] == rows[..n - 1];
    } else {
      assert rows[k := e][..n - 1] == rows[..n - 1][k := e];
      SumQuantitiesUpdate(rows[..n - 1], k, e);
    }
  }

  /** A delivery that does not wrap replaces the one row with that id by the same row with the
      quantity raised. */
  lemma AddToQuantityAt(rows: seq<Equipment>, id: int, delta: int, k: int)
    requires Table.KeysAscending(rows, EquipmentModel.IdOf)
    requires 0 <= k < |rows| && rows[k].id == id
    requires JavaInt.InRange(rows[k].quantity + delta)
    ensures AddToQuantity(rows, id, delta) == rows[k := rows[k].(quantity := rows[k].quantity + delta)]
  {
    var after := AddToQuantity(rows, id, delta);
    var delivered := rows[k].(quantity := rows[k].quantity + delta);
    forall i | 0 <= i < |rows| ensures after[i] == rows[k := delivered][i] {
      if i == k {
        assert after[k].(quantity := rows[k].quantity) == rows[k];
      } else {
        assert EquipmentModel.IdOf(rows[i]) != EquipmentModel.IdOf(rows[k]);
      }
    }
  }

  /** A delivery that does not wrap raises the total stock by exactly the delivered quantity. */
  lemma DeliveryRaisesTotal(rows: seq<Equipment>, id: int, delta: int)
    requires Table.KeysAscending(rows, EquipmentModel.IdOf)
    requires Table.HasKey(rows, EquipmentModel.IdOf, id)
    requires forall i :: 0 <= i < |rows| && rows[i].id == id ==> JavaInt.InRange(rows[i].quantity + delta)
    ensures SumQuantities(AddToQuantity(rows, id, delta)) == SumQuantities(rows) + delta
  {
    var k :| 0 <= k < |rows| && EquipmentModel.IdOf(rows[k]) == id;
    AddToQuantityAt(rows, id, delta, k);
    SumQuantitiesUpdate(rows, k, rows[k].(quantity := rows[k].quantity + delta));
  }

  // ---------------------------------------------------------------------------------------------
  // The service

  /** The service over the two tables it reaches through its DAOs. */
  class Inventory {
    const equipment: EquipmentDao.EquipmentStore
    const orders: OrderDao.OrderStore

    ghost predicate Valid()
      reads equipment, orders
    {
      equipment.Valid() && orders.Valid()
    }

    /** The service built over the database both DAOs connect to. */
    constructor(equipment: EquipmentDao.EquipmentStore, orders: OrderDao.OrderStore)
      requires equipment.Valid() && orders.Valid()
      ensures this.equipment == equipment && this.orders == orders
      ensures Valid()
    {
      this.equipment := equipment;
      this.orders := orders;
    }

    /** `markOrderAsDelivered`: first marks the order delivered, then, only if that matched a row,
        adds `quantity` to the stock of the item `equipmentId` (the caller's ids and quantity, not
        the order's). True exactly when both rows exist. When the order exists but the item does
        not, the answer is false yet the order stays delivered. */
    method MarkOrderAsDelivered(orderId: int, equipmentId: int, quantity: int, today: Date) returns (ok: bool)
      requires Valid()
      modifies equipment, orders
      ensures Valid()
      ensures orders.rows == OrderDao.Updated(old(orders.rows), orderId, OrderDao.MarkDelivered(today))
      ensures ok <==> (Table.HasKey(old(orders.rows), OrderModel.IdOf, orderId) &&
                       Table.HasKey(old(equipment.rows), EquipmentModel.IdOf, equipmentId))
      ensures equipment.rows == if ok then AddToQuantity(old(equipment.rows), equipmentId, quantity)
                                else old(equipment.rows)
      ensures equipment.nextId == old(equipment.nextId) && orders.nextId == old(orders.nextId)
    {
      ok := false;
      var delivered := orders.MarkAsDelivered(orderId, today);
      if delivered {
        var item := equipment.GetEquipmentById(equipmentId);
        if item.Some? {
          var e := item.value;
          UpdateReadBackIsAddToQuantity(equipment.rows, e, quantity);
          ok := equipment.UpdateEquipment(e.(quantity := JavaInt.Wrap(e.quantity + quantity)));
        }
      }
    }

    /** `addOrder`: records the order; no equipment quantity changes. */
    method AddOrder(o: OrderModel.Order, today: Date) returns (ok: bool)
      requires Valid()
      modifies orders
      ensures Valid()
      ensures ok
      ensures orders.rows == old(orders.rows) + [OrderDao.Inserted(o, old(orders.nextId), today)]
      ensures equipment.rows == old(equipment.rows)
    {
      ok := orders.AddOrder(o, today);
    }

    /** `getLowStockCount`: the length of the low-stock list. */
    method GetLowStockCount() returns (n: int)
      ensures n == |Table.Filter(equipment.rows, EquipmentModel.IsLowStock)|
    {
      var alerts := equipment.GetLowStockEquipment();
      n := |alerts|;
      assert |alerts| == |multiset(alerts)|;
    }

    /** `getExpiryAlertCount`: the length of the near-expiry list. */
    method GetExpiryAlertCount(today: Date) returns (n: int)
      ensures n == |Table.Filter(equipment.rows, EquipmentDao.NearExpiryRow(today))|
    {
      var alerts := equipment.GetEquipmentNearExpiry(today);
      n := |alerts|;
      assert |alerts| == |multiset(alerts)|;
    }

    /** `getActiveOrderCount`: the length of the active-orders list. */
    method GetActiveOrderCount() returns (n: int)
      ensures n == |Table.Filter(orders.rows, OrderModel.IsActiveOrder)|
    {
      var active := orders.GetActiveOrders();
      n := |active|;
      assert |active| == |multiset(active)|;
    }

    /** `getTotalEquipmentTypes`: the number of equipment rows. */
    method GetTotalEquipmentTypes() returns (n: int)
      requires Valid()
      ensures n == |equipment.rows|
    {
      var all := equipment.GetAllEquipment();
      n := |all|;
    }

    /** `getTotalEquipmentQuantity`: the total stock, reduced into the int range; the true total
        whenever that fits in an int. */
    method GetTotalEquipmentQuantity() returns (total: int)
      requires Valid()
      ensures total == JavaInt.Wrap(SumQuantities(equipment.rows))
      ensures JavaInt.InRange(SumQuantities(equipment.rows)) ==> total == SumQuantities(equipment.rows)
    {
      var all := equipment.GetAllEquipment();
      IntStreamSumIsWrappedTotal(all);
      total := IntStreamSum(all);
    }
  }
}
