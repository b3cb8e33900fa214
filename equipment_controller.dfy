/** The rules inside the equipment screen, without its widgets: the stock badge, the sort orders of
    the list, the search box, the order dialog and the add/edit form. */
module EquipmentController {
  import opened Wrappers
  import opened Calendar
  import opened JavaText
  import JavaInt
  import Table
  import opened EquipmentModel
  import OrderModel
  import EquipmentDao
  import InventoryService

  // ---------------------------------------------------------------------------------------------
  // The stock badge of a list cell

  datatype StockStatus = LowStock | Moderate | InStock

  /** The badge: "Low Stock" at or below the threshold, "Moderate" up to one and a half times the
      threshold (an int compared with the double `lowerLimit * 1.5`, exact here), "In Stock" above. */
  function StockStatusOf(e: Equipment): (s: StockStatus)
    ensures s == LowStock <==> e.quantity <= e.lowerLimit
    ensures s == Moderate <==> e.lowerLimit < e.quantity && 2 * e.quantity <= 3 * e.lowerLimit
    ensures s == InStock <==> e.lowerLimit < e.quantity && 2 * e.quantity > 3 * e.lowerLimit
  {
    if e.quantity <= e.lowerLimit then LowStock
    else if e.quantity as real <= e.lowerLimit as real * 1.5 then Moderate
    else InStock
  }

  /** The badge text. */
  function StockStatusLabel(s: StockStatus): string {
    match s
    case LowStock => "Low Stock"
    case Moderate => "Moderate"
    case InStock => "In Stock"
  }

  /** The badge says "Low Stock" exactly for the items the low-stock alert lists. */
  lemma LowStockBadgeIsLowStockAlert(e: Equipment)
    ensures StockStatusOf(e) == LowStock <==> IsLowStock(e)
  {
  }

  // ---------------------------------------------------------------------------------------------
  // Sorting the list

  /** `Integer.compare(x, y)`. */
  function IntegerCompare(x: int, y: int): (r: int)
    ensures r < 0 <==> x < y
    ensures r == 0 <==> x == y
    ensures -1 <= r <= 1
  {
    if x < y then -1 else if x == y then 0 else 1
  }

  /** `Double.compare(x, y)` on prices, which are never NaN. */
  function PriceCompare(x: real, y: real): (r: int)
    ensures r < 0 <==> x < y
    ensures r == 0 <==> x == y
    ensures -1 <= r <= 1
  {
    if x < y then -1 else if x == y then 0 else 1
  }

  /** The expiry comparator as the screen writes it: an undated first item compares as later, then
      an undated second item as earlier, then the dates decide (only the sign of
      `LocalDate.compareTo` matters to the sort). */
  function CompareExpiryAsWritten(a: Equipment, b: Equipment): (r: int)
    ensures a.expiryDate.None? ==> r > 0
    ensures a.expiryDate.Some? && b.expiryDate.None? ==> r < 0
    ensures a.expiryDate.Some? && b.expiryDate.Some? ==>
              (r < 0 <==> a.expiryDate.value < b.expiryDate.value) &&
              (r == 0 <==> a.expiryDate.value == b.expiryDate.value)
  {
    if a.expiryDate.None? then 1
    else if b.expiryDate.None? then -1
    else IntegerCompare(a.expiryDate.value, b.expiryDate.value)
  }

  /** With two undated items the comparator as written answers "later" in both directions, and even
      an undated item compared with itself is "later": it breaks the `Comparator` contract, under
      which `List.sort` may throw. */
  lemma ExpiryComparatorAsWrittenIsInconsistent(a: Equipment, b: Equipment)
    requires a.expiryDate.None? && b.expiryDate.None?
    ensures CompareExpiryAsWritten(a, b) > 0 && CompareExpiryAsWritten(b, a) > 0
    ensures CompareExpiryAsWritten(a, a) != 0
  {
  }

  /** The expiry order the screen means: dated items first by date, undated items after them and
      equal among themselves. */
  function CompareExpiry(a: Equipment, b: Equipment): (r: int)
    ensures a.expiryDate.None? && b.expiryDate.None? ==> r == 0
    ensures a.expiryDate.Some? && b.expiryDate.None? ==> r < 0
    ensures a.expiryDate.None? && b.expiryDate.Some? ==> r > 0
    ensures a.expiryDate.Some? && b.expiryDate.Some? ==>
              (r < 0 <==> a.expiryDate.value < b.expiryDate.value) &&
              (r == 0 <==> a.expiryDate.value == b.expiryDate.value)
  {
    match (a.expiryDate, b.expiryDate)
    case (None, None) => 0
    case (None, Some(_)) => 1
    case (Some(_), None) => -1
    case (Some(x), Some(y)) => IntegerCompare(x, y)
  }

  /** The corrected comparator differs from the written one only on two undated items. */
  lemma CompareExpiryAgreesWhenDated(a: Equipment, b: Equipment)
    requires a.expiryDate.Some? || b.expiryDate.Some?
    ensures CompareExpiry(a, b) == CompareExpiryAsWritten(a, b)
  {
  }

  /** The entries of the sort box: "Name (A-Z)", "Name (Z-A)", "Category", "Quantity (Low-High)",
      "Quantity (High-Low)", "Price (Low-High)", "Price (High-Low)" and "Expiry Date". */
  datatype SortOption =
    | NameAZ | NameZA | CategoryAZ | QuantityLowHigh | QuantityHighLow
    | PriceLowHigh | PriceHighLow | ExpiryDate

  /** The comparator each entry sorts with. */
  function Compare(option: SortOption, a: Equipment, b: Equipment): int {
    match option
    case NameAZ => CompareIgnoreCase(a.name, b.name)
    case NameZA => CompareIgnoreCase(b.name, a.name)
    case CategoryAZ => CompareIgnoreCase(a.category, b.category)
    case QuantityLowHigh => IntegerCompare(a.quantity, b.quantity)
    case QuantityHighLow => IntegerCompare(b.quantity, a.quantity)
    case PriceLowHigh => PriceCompare(a.unitPrice, b.unitPrice)
    case PriceHighLow => PriceCompare(b.unitPrice, a.unitPrice)
    case ExpiryDate => CompareExpiry(a, b)
  }

  /** Every comparator keeps the `Comparator` contract: swapping the operands flips the sign... */
  lemma CompareAntisymmetric(option: SortOption, a: Equipment, b: Equipment)
    ensures Compare(option, a, b) < 0 <==> Compare(option, b, a) > 0
    ensures Compare(option, a, b) == 0 <==> Compare(option, b, a) == 0
  {
    match option
    case NameAZ => CompareIgnoreCaseAntisymmetric(a.name, b.name);
    case NameZA => CompareIgnoreCaseAntisymmetric(a.name, b.name);
    case CategoryAZ => CompareIgnoreCaseAntisymmetric(a.category, b.category);
    case _ =>
  }

  /** ...and "no later than" is transitive. */
  lemma CompareTransitive(option: SortOption, a: Equipment, b: Equipment, c: Equipment)
    requires Compare(option, a, b) <= 0 && Compare(option, b, c) <= 0
    ensures Compare(option, a, c) <= 0
  {
    match option
    case NameAZ => CompareIgnoreCaseTransitive(a.name, b.name, c.name);
    case NameZA => CompareIgnoreCaseTransitive(c.name, b.name, a.name);
    case CategoryAZ => CompareIgnoreCaseTransitive(a.category, b.category, c.category);
    case _ =>
  }

  /** "compares no later than" under an entry's comparator. */
  function SortLe(option: SortOption): (Equipment, Equipment) -> bool {
    (a: Equipment, b: Equipment) => Compare(option, a, b) <= 0
  }

  lemma SortLeTotalPreorder(option: SortOption)
    ensures Table.TotalPreorder(SortLe(option))
  {
    forall a, b ensures SortLe(option)(a, b) || SortLe(option)(b, a) {
      CompareAntisymmetric(option, a, b);
    }
    forall a, b, c | SortLe(option)(a, b) && SortLe(option)(b, c) ensures SortLe(option)(a, c) {
      CompareTransitive(option, a, b, c);
    }
  }

  /** `handleSort`: the shown items, sorted by the chosen entry's comparator into a new list; with no
      entry chosen the list stays as it is. */
  function HandleSort(items: seq<Equipment>, choice: Option<SortOption>): (r: seq<Equipment>)
    ensures multiset(r) == multiset(items)
    ensures choice.None? ==> r == items
    ensures choice.Some? ==> Table.SortedBy(r, SortLe(choice.value))
  {
    match choice
    case None => items
    case Some(option) =>
      SortLeTotalPreorder(option);
      Table.SortBy(items, SortLe(option))
  }

  /** `s` back to front. */
  function Reversed<T>(s: seq<T>): (r: seq<T>)
    ensures |r| == |s|
    ensures forall i :: 0 <= i < |s| ==> r[i] == s[|s| - 1 - i]
  {
    if s == [] then [] else Reversed(s[1..]) + [s[0]]
  }

  /** "Quantity (High-Low)" is "Quantity (Low-High)" with the operands swapped, so a list is in the
      one order exactly when its reverse is in the other. */
  lemma QuantityHighLowIsReversedLowHigh(s: seq<Equipment>)
    ensures Table.SortedBy(s, SortLe(QuantityHighLow)) <==> Table.SortedBy(Reversed(s), SortLe(QuantityLowHigh))
  {
    var r := Reversed(s);
    var n := |s|;
    if Table.SortedBy(s, SortLe(QuantityHighLow)) {
      forall i, j | 0 <= i < j < n ensures SortLe(QuantityLowHigh)(r[i], r[j]) {
        assert SortLe(QuantityHighLow)(s[n - 1 - j], s[n - 1 - i]);
      }
    }
    if Table.SortedBy(r, SortLe(QuantityLowHigh)) {
      forall i, j | 0 <= i < j < n ensures SortLe(QuantityHighLow)(s[i], s[j]) {
        assert r[n - 1 - j] == s[j] && r[n - 1 - i] == s[i];
        assert SortLe(QuantityLowHigh)(r[n - 1 - j], r[n - 1 - i]);
      }
    }
  }

  /** After "Expiry Date", the dated items come first, by date, and the undated ones last. */
  lemma ExpirySortUndatedLast(s: seq<Equipment>, i: int, j: int)
    requires Table.SortedBy(s, SortLe(ExpiryDate))
    requires 0 <= i < j < |s|
    ensures s[i].expiryDate.None? ==> s[j].expiryDate.None?
    ensures s[i].expiryDate.Some? && s[j].expiryDate.Some? ==> s[i].expiryDate.value <= s[j].expiryDate.value
  {
    assert SortLe(ExpiryDate)(s[i], s[j]);
  }

  // ---------------------------------------------------------------------------------------------
  // The search box

  /** `handleSearch`: the trimmed text; when nothing is left, the whole table by id, otherwise the
      search results for it. */
  method HandleSearch(inventory: InventoryService.Inventory, text: string) returns (shown: seq<Equipment>)
    requires inventory.Valid()
    ensures Trim(text) == [] ==> shown == inventory.equipment.rows
    ensures Trim(text) != [] ==>
              Table.SortedBy(shown, EquipmentDao.NameLe) &&
              multiset(shown) == multiset(Table.Filter(inventory.equipment.rows, EquipmentDao.SearchWhere(Trim(text))))
  {
    var term := Trim(text);
    if term == [] {
      shown := inventory.equipment.GetAllEquipment();
    } else {
      shown := inventory.equipment.SearchEquipment(term);
    }
  }

  // ---------------------------------------------------------------------------------------------
  // The order dialog

  /** The order the dialog builds for the selected item: its id and name, the typed quantity,
      ordered today, PENDING, with the picked delivery date and the typed supplier, costing
      quantity times unit price; no order when the quantity is not an int. The id stays 0 until the
      table assigns one. */
  function PlaceOrder(selected: Equipment, quantityText: string, expectedDelivery: Option<Date>,
                      supplierText: string, today: Date): (r: Option<OrderModel.Order>)
    ensures r.None? <==> ParseInt(quantityText).None?
    ensures r.Some? ==> var o := r.value;
              && o.equipmentId == selected.id && o.equipmentName == selected.name
              && o.quantity == ParseInt(quantityText).value
              && o.orderDate == Some(today) && o.expectedDeliveryDate == expectedDelivery
              && o.actualDeliveryDate.None? && o.status == OrderModel.Pending
              && o.supplier == supplierText
              && o.totalCost == o.quantity as real * selected.unitPrice
    ensures r.Some? ==> OrderModel.IsActiveOrder(r.value)
  {
    match ParseInt(quantityText)
    case None => None
    case Some(quantity) =>
      Some(OrderModel.Order(0, selected.id, selected.name, quantity, Some(today), expectedDelivery, None,
                            OrderModel.Pending, supplierText, quantity as real * selected.unitPrice))
  }

  /** Typing back a quantity shown as text orders exactly that quantity. */
  lemma PlaceOrderQuantityRoundTrip(selected: Equipment, quantity: int, expectedDelivery: Option<Date>,
                                    supplierText: string, today: Date)
    requires JavaInt.InRange(quantity)
    ensures PlaceOrder(selected, ShowInt(quantity), expectedDelivery, supplierText, today).Some?
    ensures PlaceOrder(selected, ShowInt(quantity), expectedDelivery, supplierText, today).value.quantity == quantity
  {
    ParseShowRoundTrip(quantity);
  }

  // ---------------------------------------------------------------------------------------------
  // The add / edit form

  /** The form's fields: text fields as typed, the price as already read as a number, the date as
      picked. */
  datatype EquipmentForm = EquipmentForm(
    name: string,
    category: string,
    quantityText: string,
    lowerLimitText: string,
    unitPrice: real,
    expiryDate: Option<Date>,
    location: string,
    supplier: string)

  /** `createEquipmentForm` for an existing item: every field filled in from it. */
  function FormOf(e: Equipment): (f: EquipmentForm)
    ensures f.name == e.name && f.category == e.category && f.unitPrice == e.unitPrice
    ensures f.expiryDate == e.expiryDate && f.location == e.location && f.supplier == e.supplier
    ensures f.quantityText == ShowInt(e.quantity) && f.lowerLimitText == ShowInt(e.lowerLimit)
  {
    EquipmentForm(e.name, e.category, ShowInt(e.quantity), ShowInt(e.lowerLimit), e.unitPrice,
                  e.expiryDate, e.location, e.supplier)
  }

  /** A `new Equipment()`: id 0, no dates; its text fields, which the form always overwrites, are
      empty here. */
  const Blank: Equipment := Equipment(0, "", "", 0, 0, 0.0, None, "", "", None)

  /** `extractEquipmentFromForm`: the edited item, or a new one, with the eight form fields written
      in; a new item is dated today, an edited one keeps its id and date added. No item when a
      count field is not an int. */
  function ExtractEquipment(form: EquipmentForm, existing: Option<Equipment>, today: Date): (r: Option<Equipment>)
    ensures r.None? <==> ParseInt(form.quantityText).None? || ParseInt(form.lowerLimitText).None?
    ensures r.Some? ==> var e := r.value;
              && e.name == form.name && e.category == form.category
              && e.quantity == ParseInt(form.quantityText).value
              && e.lowerLimit == ParseInt(form.lowerLimitText).value
              && e.unitPrice == form.unitPrice && e.expiryDate == form.expiryDate
              && e.location == form.location && e.supplier == form.supplier
    ensures r.Some? && existing.Some? ==> r.value.id == existing.value.id && r.value.dateAdded == existing.value.dateAdded
    ensures r.Some? && existing.None? ==> r.value.id == 0 && r.value.dateAdded == Some(today)
  {
    match (ParseInt(form.quantityText), ParseInt(form.lowerLimitText))
    case (Some(quantity), Some(lowerLimit)) =>
      var base := if existing.Some? then existing.value else Blank.(dateAdded := Some(today));
      Some(base.(name := form.name, category := form.category, quantity := quantity,
                 lowerLimit := lowerLimit, unitPrice := form.unitPrice, expiryDate := form.expiryDate,
                 location := form.location, supplier := form.supplier))
    case _ => None
  }

  /** Opening the edit form and confirming it untouched gives the item back unchanged. */
  lemma EditUnchangedFormKeepsItem(e: Equipment, today: Date)
    requires JavaInt.InRange(e.quantity) && JavaInt.InRange(e.lowerLimit)
    ensures ExtractEquipment(FormOf(e), Some(e), today) == Some(e)
  {
    ParseShowRoundTrip(e.quantity);
    ParseShowRoundTrip(e.lowerLimit);
  }
}
