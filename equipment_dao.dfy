/** The `equipments` table and the statements `EquipmentDAO` runs against it. */
module EquipmentDao {
  import opened Wrappers
  import opened Calendar
  import opened EquipmentModel
  import Table
  import Sql

  // ---------------------------------------------------------------------------------------------
  // The WHERE and ORDER BY clauses of the queries, column by column

  /** `WHERE quantity <= lower_limit` */
  predicate LowStockWhere(e: Equipment) {
    e.quantity <= e.lowerLimit
  }

  /** `ORDER BY quantity` */
  predicate QuantityLe(a: Equipment, b: Equipment) {
    a.quantity <= b.quantity
  }

  /** `WHERE expiry_date IS NOT NULL AND expiry_date <= ?`, the parameter being today plus 15 days.
      The column and the parameter are date texts; comparing them as day numbers is exact for
      years 0000 to 9999. */
  function NearExpiryWhere(today: Date): Equipment -> bool {
    (e: Equipment) => e.expiryDate.Some? && e.expiryDate.value <= today + ExpiryWindow
  }

  /** The rows `Equipment.isNearExpiry` flags on `today`. */
  function NearExpiryRow(today: Date): Equipment -> bool {
    (e: Equipment) => IsNearExpiry(e, today)
  }

  /** `ORDER BY expiry_date` */
  predicate ExpiryLe(a: Equipment, b: Equipment) {
    Sql.NullsFirstLe(a.expiryDate, b.expiryDate)
  }

  /** The LIKE pattern a search builds around its term; the term's own `%` and `_` stay wildcards. */
  function SearchPattern(term: string): (p: string)
    ensures |p| == |term| + 2 && p[0] == '%' && p[|p| - 1] == '%' && p[1..|p| - 1] == term
  {
    "%" + term + "%"
  }

  /** `WHERE name LIKE ? OR category LIKE ?`, both parameters being the search pattern. */
  function SearchWhere(term: string): Equipment -> bool {
    (e: Equipment) => Sql.Like(SearchPattern(term), e.name) || Sql.Like(SearchPattern(term), e.category)
  }

  /** `ORDER BY name`, in the BINARY collation. */
  predicate NameLe(a: Equipment, b: Equipment) {
    Sql.BinaryLe(a.name, b.name)
  }

  // ---------------------------------------------------------------------------------------------
  // The rows the INSERT and the UPDATE write

  /** The row `addEquipment` inserts: the id the table hands out, every other column from `e`, and
      `date_added` today when `e` has none. */
  function Inserted(e: Equipment, id: int, today: Date): (r: Equipment)
    ensures r.id == id
    ensures r.(id := e.id, dateAdded := e.dateAdded) == e
    ensures e.dateAdded.Some? ==> r.dateAdded == e.dateAdded
    ensures e.dateAdded.None? ==> r.dateAdded == Some(today)
  {
    var added := if e.dateAdded.None? then Some(today) else e.dateAdded;
    e.(id := id, dateAdded := added)
  }

  /** The row `updateEquipment` leaves: the eight SET columns from `e`; id and date_added as they were. */
  function Overwritten(row: Equipment, e: Equipment): (r: Equipment)
    ensures r.id == row.id && r.dateAdded == row.dateAdded
    ensures r.(id := e.id, dateAdded := e.dateAdded) == e
  {
    Equipment(row.id, e.name, e.category, e.quantity, e.lowerLimit, e.unitPrice, e.expiryDate,
              e.location, e.supplier, row.dateAdded)
  }

  /** The table after `UPDATE equipments SET ... WHERE id = e.id`: as many rows, each with its own
      id, and every row with another id untouched. */
  function Updated(rows: seq<Equipment>, e: Equipment): (r: seq<Equipment>)
    ensures |r| == |rows|
    ensures forall i :: 0 <= i < |rows| ==> r[i].id == rows[i].id
    ensures forall i :: 0 <= i < |rows| && rows[i].id != e.id ==> r[i] == rows[i]
  {
    seq(|rows|, i requires 0 <= i < |rows| => if rows[i].id == e.id then Overwritten(rows[i], e) else rows[i])
  }

  // ---------------------------------------------------------------------------------------------
  // The ORDER BY keys are total preorders

  lemma QuantityLeTotalPreorder()
    ensures Table.TotalPreorder(QuantityLe)
  {
  }

  lemma ExpiryLeTotalPreorder()
    ensures Table.TotalPreorder(ExpiryLe)
  {
  }

  lemma NameLeTotalPreorder()
    ensures Table.TotalPreorder(NameLe)
  {
    forall a, b ensures NameLe(a, b) || NameLe(b, a) {
      Sql.BinaryLeTotal(a.name, b.name);
    }
    forall a, b, c | NameLe(a, b) && NameLe(b, c) ensures NameLe(a, c) {
      Sql.BinaryLeTransitive(a.name, b.name, c.name);
    }
  }

  // ---------------------------------------------------------------------------------------------
  // What the queries' WHERE clauses select

  /** The near-expiry query's date test is `Equipment.isNearExpiry`. */
  lemma NearExpiryWhereIsNearExpiry(today: Date, e: Equipment)
    ensures NearExpiryWhere(today)(e) == NearExpiryRow(today)(e)
  {
  }

  /** A search for a term without wildcards finds the rows whose name or category contains the
      term, ignoring the case of ASCII letters. */
  lemma SearchFindsSubstrings(term: string, e: Equipment)
    requires Sql.NoWildcards(term)
    ensures SearchWhere(term)(e) <==>
              Sql.ContainsIgnoreCase(e.name, term) || Sql.ContainsIgnoreCase(e.category, term)
  {
    Sql.LikeContains(term, e.name);
    Sql.LikeContains(term, e.category);
  }

  /** The term is not escaped: searching for `_` finds every row with a non-empty name or category. */
  lemma SearchUnderscoreFindsAll(e: Equipment)
    ensures SearchWhere("_")(e) <==> e.name != [] || e.category != []
  {
    assert SearchPattern("_") == "%_%";
    Sql.UnderscoreMatchesAnyNonEmpty(e.name);
    Sql.UnderscoreMatchesAnyNonEmpty(e.category);
  }

  // ---------------------------------------------------------------------------------------------
  // The store

  /** The `equipments` table: its rows in rowid order and the AUTOINCREMENT counter. */
  class EquipmentStore {
    var rows: seq<Equipment>
    /** The id the next INSERT receives: above every id the table has handed out. */
    var nextId: int

    ghost predicate Valid()
      reads this
    {
      && nextId >= 1
      && Table.KeysAscending(rows, IdOf)
      && forall i :: 0 <= i < |rows| ==> 1 <= rows[i].id < nextId
    }

    /** A freshly created, empty table. */
    constructor()
      ensures Valid()
      ensures rows == [] && nextId == 1
    {
      rows := [];
      nextId := 1;
    }

    /** `SELECT * FROM equipments ORDER BY id ASC`: every row once, ids strictly ascending. */
    method GetAllEquipment() returns (list: seq<Equipment>)
      requires Valid()
      ensures list == rows
      ensures Table.KeysAscending(list, IdOf)
    {
      list := [];
      var i := 0;
      while i < |rows|
        invariant 0 <= i <= |rows|
        invariant list == rows[..i]
      {
        list := list + [rows[i]];
        i := i + 1;
      }
    }

    /** `SELECT * FROM equipments WHERE id = ?`: the row with that id, or nothing (Java `null`). */
    method GetEquipmentById(id: int) returns (e: Option<Equipment>)
      requires Valid()
      ensures e.None? <==> !Table.HasKey(rows, IdOf, id)
      ensures e.Some? ==> e.value in rows && e.value.id == id
    {
      var found := Table.Find(rows, IdOf, id);
      if found.Some? {
        return Some(rows[found.value]);
      }
      return None;
    }

    /** `SELECT * FROM equipments WHERE quantity <= lower_limit ORDER BY quantity`: exactly the
        low-stock rows, fewest in stock first. */
    method GetLowStockEquipment() returns (list: seq<Equipment>)
      ensures Table.SortedBy(list, QuantityLe)
      ensures multiset(list) == multiset(Table.Filter(rows, IsLowStock))
    {
      QuantityLeTotalPreorder();
      list := Table.Select(rows, LowStockWhere, QuantityLe);
      Table.FilterSameRows(rows, LowStockWhere, IsLowStock);
    }

    /** `SELECT * FROM equipments WHERE expiry_date IS NOT NULL AND expiry_date <= ? ORDER BY
        expiry_date`: exactly the rows `isNearExpiry` flags on `today`, earliest expiry first. */
    method GetEquipmentNearExpiry(today: Date) returns (list: seq<Equipment>)
      ensures Table.SortedBy(list, ExpiryLe)
      ensures multiset(list) == multiset(Table.Filter(rows, NearExpiryRow(today)))
    {
      ExpiryLeTotalPreorder();
      list := Table.Select(rows, NearExpiryWhere(today), ExpiryLe);
      forall e ensures NearExpiryWhere(today)(e) == NearExpiryRow(today)(e) {
        NearExpiryWhereIsNearExpiry(today, e);
      }
      Table.FilterSameRows(rows, NearExpiryWhere(today), NearExpiryRow(today));
    }

    /** `SELECT * FROM equipments WHERE name LIKE ? OR category LIKE ? ORDER BY name`. */
    method SearchEquipment(term: string) returns (list: seq<Equipment>)
      ensures Table.SortedBy(list, NameLe)
      ensures multiset(list) == multiset(Table.Filter(rows, SearchWhere(term)))
    {
      NameLeTotalPreorder();
      list := Table.Select(rows, SearchWhere(term), NameLe);
    }

    /** `addEquipment`: one new row at the end, with a fresh id; every other row stays. The insert
        always affects one row. */
    method AddEquipment(e: Equipment, today: Date) returns (ok: bool)
      requires Valid()
      modifies this
      ensures Valid()
      ensures ok
      ensures rows == old(rows) + [Inserted(e, old(nextId), today)]
      ensures nextId == old(nextId) + 1
    {
      rows := rows + [Inserted(e, nextId, today)];
      nextId := nextId + 1;
      ok := true;
    }

    /** `updateEquipment`: true exactly when a row has `e`'s id; that row takes `e`'s eight SET
        columns and keeps its id and date_added; no other row changes. */
    method UpdateEquipment(e: Equipment) returns (found: bool)
      requires Valid()
      modifies this
      ensures Valid()
      ensures found <==> Table.HasKey(old(rows), IdOf, e.id)
      ensures rows == Updated(old(rows), e)
      ensures !found ==> rows == old(rows)
      ensures nextId == old(nextId)
    {
      var at := Table.Find(rows, IdOf, e.id);
      found := at.Some?;
      if at.Some? {
        var k := at.value;
        forall j | 0 <= j < |rows| && j != k ensures rows[j].id != e.id {
          assert IdOf(rows[j]) != IdOf(rows[k]);
        }
        rows := rows[k := Overwritten(rows[k], e)];
      } else {
        assert rows == Updated(rows, e);
      }
    }

    /** `deleteEquipment`: removes the row with that id, if any, and says whether there was one. */
    method DeleteEquipment(id: int) returns (found: bool)
      requires Valid()
      modifies this
      ensures Valid()
      ensures found <==> Table.HasKey(old(rows), IdOf, id)
      ensures rows == Table.Delete(old(rows), IdOf, id)
      ensures |rows| == if found then |old(rows)| - 1 else |old(rows)|
      ensures nextId == old(nextId)
    {
      var at := Table.Find(rows, IdOf, id);
      found := at.Some?;
      Table.DeleteKeepsKeysAscending(rows, IdOf, id);
      Table.DeleteCount(rows, IdOf, id);
      ghost var before := rows;
      rows := Table.Delete(rows, IdOf, id);
      forall i | 0 <= i < |rows| ensures 1 <= rows[i].id < nextId {
        Table.DeleteMembers(before, IdOf, id, rows[i]);
      }
    }
  }
}
