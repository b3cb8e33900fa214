/** An item of laboratory equipment and the rules read off its fields. */
module EquipmentModel {
  import opened Wrappers
  import opened Calendar
  import JavaInt

  /** Days from today within which an expiry date raises an alert (`plusDays(15)`). */
  const ExpiryWindow: int := 15

  /** One equipment record. The all-arguments constructor and the setters are this datatype's
      constructor and its field updates `e.(quantity := q)`. A missing expiry or date-added date
      (Java `null`) is `None`. */
  datatype Equipment = Equipment(
    id: int,
    name: string,
    category: string,
    quantity: int,
    lowerLimit: int,
    unitPrice: real,
    expiryDate: Option<Date>,
    location: string,
    supplier: string,
    dateAdded: Option<Date>)

  /** The primary key, as a function value for the generic table operations. */
  function IdOf(e: Equipment): int {
    e.id
  }

  /** The stock has fallen to the reorder threshold or below it. */
  predicate IsLowStock(e: Equipment) {
    e.quantity <= e.lowerLimit
  }

  /** The item expires at most `ExpiryWindow` days from `today`: the deadline day itself and every
      date already past count; an item without an expiry date never does. */
  function IsNearExpiry(e: Equipment, today: Date): (r: bool)
    ensures r <==> e.expiryDate.Some? && e.expiryDate.value - today <= ExpiryWindow
  {
    match e.expiryDate
    case None => false
    case Some(expiry) =>
      var deadline := today + ExpiryWindow;
      expiry < deadline || expiry == deadline
  }

  /** Days from `today` to the expiry date, negative once the item has expired; the largest int
      when there is no expiry date. The day count is a `long` cast to `int`. */
  function DaysUntilExpiry(e: Equipment, today: Date): (r: int)
    ensures JavaInt.InRange(r)
    ensures e.expiryDate.None? ==> r == JavaInt.IntMax
    ensures e.expiryDate.Some? && JavaInt.InRange(e.expiryDate.value - today) ==> r == e.expiryDate.value - today
  {
    match e.expiryDate
    case None => JavaInt.IntMax
    case Some(expiry) => JavaInt.Wrap(expiry - today)
  }

  /** For a dated item, "near expiry" and "at most 15 days left" agree whenever the day count fits
      in an int. */
  lemma NearExpiryIffFewDaysLeft(e: Equipment, today: Date)
    requires e.expiryDate.Some? && JavaInt.InRange(e.expiryDate.value - today)
    ensures IsNearExpiry(e, today) <==> DaysUntilExpiry(e, today) <= ExpiryWindow
  {
  }
}
