/** A purchase order for an equipment item and its status. */
module OrderModel {
  import opened Wrappers
  import opened Calendar

  /** The four states an order can be in; the `orders` table's CHECK constraint admits no other. */
  datatype OrderStatus = Pending | InTransit | Delivered | Cancelled

  /** One order record. The all-arguments constructor and the setters are this datatype's
      constructor and its field updates. Dates that may be missing (Java `null`) are `Option`s. */
  datatype Order = Order(
    id: int,
    equipmentId: int,
    equipmentName: string,
    quantity: int,
    orderDate: Option<Date>,
    expectedDeliveryDate: Option<Date>,
    actualDeliveryDate: Option<Date>,
    status: OrderStatus,
    supplier: string,
    totalCost: real)

  /** The primary key, as a function value for the generic table operations. */
  function IdOf(o: Order): int {
    o.id
  }

  /** An order still awaited: neither delivered nor cancelled. */
  function IsActiveOrder(o: Order): (r: bool)
    ensures r <==> o.status != Delivered && o.status != Cancelled
  {
    o.status == Pending || o.status == InTransit
  }

  /** `setStatus`: the new status, every other field as it was. */
  function SetStatus(o: Order, status: OrderStatus): (r: Order)
    ensures r.status == status
    ensures r.(status := o.status) == o
  {
    o.(status := status)
  }

  /** `status.name()`, the text the `status` column stores: always one the table's CHECK
      constraint admits. */
  function StatusName(s: OrderStatus): (r: string)
    ensures r == "PENDING" || r == "IN_TRANSIT" || r == "DELIVERED" || r == "CANCELLED"
  {
    match s
    case Pending => "PENDING"
    case InTransit => "IN_TRANSIT"
    case Delivered => "DELIVERED"
    case Cancelled => "CANCELLED"
  }

  /** `OrderStatus.valueOf(text)`, which reads the column back; any other text is refused. */
  function ParseStatus(text: string): (r: Option<OrderStatus>)
    ensures r.Some? ==> StatusName(r.value) == text
    ensures forall s :: StatusName(s) == text ==> r == Some(s)
  {
    if text == "PENDING" then Some(Pending)
    else if text == "IN_TRANSIT" then Some(InTransit)
    else if text == "DELIVERED" then Some(Delivered)
    else if text == "CANCELLED" then Some(Cancelled)
    else None
  }
}
