# Lab Inventory, modelled in Dafny

Lab Inventory is a desktop application that keeps the stock of a laboratory in a SQLite database. It has two tables.

- **equipments**: one row per item. A row holds the name, category, quantity, reorder threshold (`lower_limit`), unit price, optional expiry date, location, supplier and the date the item was added.
- **orders**: one row per purchase order. A row holds the item's id and name, the quantity, the order / expected / actual delivery dates, a status (`PENDING`, `IN_TRANSIT`, `DELIVERED`, `CANCELLED`), the supplier and the total cost.

Two DAO classes run fixed SQL against these tables. `InventoryService` combines them: it turns an order's delivery into a stock increase and computes the dashboard figures. The equipment screen adds these rules on top:
- a stock badge per item;
- eight sort orders for the list;
- a search box;
- an order dialog;
- an add/edit form.

At start-up, the application seeds the database from an SQL script. It drops blank lines and `--` comment lines, splits the rest at `;`, and runs every trimmed, non-empty piece.

This project models that core and proves what it promises.

- **Records and rules** (`equipment_model.dfy`, `order_model.dfy`).
  - `Equipment` and `Order` are datatypes. Their all-arguments constructors and setters are the datatype constructor and field updates.
  - A Java `null` date is `None`. Dates are day numbers, and "today" is always a parameter.
  - The model covers the low-stock test, the 15-day near-expiry test, the day count until expiry and the active-order test.
  - It also covers the status enum and how the status is stored as text and read back.
- **The tables** (`equipment_dao.dfy`, `order_dao.dfy`, with `table.dfy` and `sql.dfy`).
  - Each DAO is a class whose `rows` are kept in rowid order, together with the AUTOINCREMENT counter.
  - Every SELECT is proved to return exactly the rows its WHERE clause keeps, as a multiset, in the order of its ORDER BY.
  - Every WHERE clause is proved equal to the corresponding Java predicate. Dates are compared as day numbers, which matches SQLite's comparison of the stored date texts for years 0000 to 9999 only (see "## Left out").
  - INSERT, UPDATE and DELETE state the whole new table and keep the table's invariant: ids ascend and lie below the counter.
  - The SQLite semantics the queries depend on are written out:
    - LIKE is case-insensitive for ASCII letters, and `%` and `_` are wildcards;
    - BINARY collation for `ORDER BY name`;
    - NULL sorts first in ascending order.
- **The service** (`inventory_service.dfy`, `java_int.dfy`).
  - `markOrderAsDelivered` performs its two updates, including the partial effect when only the order exists.
  - The counts are the lengths of the DAO queries.
  - The total quantity is `IntStream.sum` with 32-bit wrap-around. It is proved equal to the exact total reduced into the int range. A delivery that does not overflow raises the exact total by exactly the delivered quantity.
- **The seed script** (`seed_script.dfy`, `java_text.dfy`). The read loop and the statement loop are methods, proved against a specification of the script's text. It is proved that:
  - every statement run is non-empty, trimmed and free of `;`;
  - a script written one statement per line runs exactly those statements, whatever `String.split` does with trailing empty pieces;
  - text after a `;` on the same line runs as a statement of its own.
- **The equipment screen** (`equipment_controller.dfy`).
  - The stock badge agrees with the low-stock alert.
  - Seven of the eight sort comparators satisfy the `Comparator` contract. The expiry comparator as written does not; see Findings.
  - Sorting permutes the list into the chosen order.
  - The search box trims its text and falls back to the full list.
  - The order dialog builds a PENDING order from a typed quantity, or none when the quantity is not an int.
  - Confirming an untouched edit form gives the item back unchanged.

Some details of the code that the model keeps as they are:
- **Search.** The search term is wrapped in `%…%` unescaped, so a `%` or `_` in it is a wildcard.
  - `EquipmentDao.SearchFindsSubstrings` proves that a term without wildcards finds exactly the names and categories that contain it, ignoring case.
  - `EquipmentDao.SearchUnderscoreFindsAll` shows that `_` finds every row with a non-empty name or category.
  - The case folding covers ASCII letters only, as SQLite's LIKE does.
- **Quantities.** Nothing enforces a non-negative quantity, so quantities here are any int.
- **Days until expiry.** `getDaysUntilExpiry` returns `Integer.MAX_VALUE` for an item without an expiry date.
- **Orders for missing items.** The orders table declares a foreign key to equipments, but SQLite does not enforce it unless asked to, and the code never asks. An order may therefore name an item that does not exist.

## Model

| member | source | states |
|---|---|---|
| EquipmentModel.IsLowStock | javaminiproject/src/main/java/com/labinventory/model/Equipment.java:113-115 | low stock when the quantity is at or below the reorder threshold; `EquipmentController.LowStockBadgeIsLowStockAlert` and `EquipmentDao.EquipmentStore.GetLowStockEquipment` tie it to the badge and the query |
| EquipmentModel.IsNearExpiry | javaminiproject/src/main/java/com/labinventory/model/Equipment.java:117-123 | near expiry exactly when there is an expiry date at most 15 days after today, past dates included |
| EquipmentModel.DaysUntilExpiry | javaminiproject/src/main/java/com/labinventory/model/Equipment.java:125-130 | always an int; `Integer.MAX_VALUE` without an expiry date; the exact day difference whenever it fits the `(int)` cast |
| EquipmentModel.NearExpiryIffFewDaysLeft | javaminiproject/src/main/java/com/labinventory/model/Equipment.java:117-130 | for a dated item, near expiry exactly when at most 15 days are left |
| OrderModel.IsActiveOrder | javaminiproject/src/main/java/com/labinventory/model/Order.java:118-120 | active exactly when neither DELIVERED nor CANCELLED |
| OrderModel.SetStatus | javaminiproject/src/main/java/com/labinventory/model/Order.java:98-100 | the new status, every other field unchanged |
| OrderModel.StatusName | javaminiproject/src/main/java/com/labinventory/database/OrderDAO.java:82 | the stored text is always one the `orders` table's CHECK constraint admits |
| OrderModel.ParseStatus | javaminiproject/src/main/java/com/labinventory/database/OrderDAO.java:197 | `valueOf` inverts `name()`: a text is read back as a status exactly when it is that status's name |
| JavaInt.Wrap | javaminiproject/src/main/java/com/labinventory/model/Equipment.java:129 | the narrowing to int lands in the int range and leaves an in-range value unchanged |
| JavaInt.WrapAdd | javaminiproject/src/main/java/com/labinventory/service/InventoryService.java:108-112 | wrapping an int sum part-way changes nothing once the sum is wrapped at the end |
| JavaText.Trim | javaminiproject/src/main/java/com/labinventory/LabInventoryApp.java:69 | `trim()`, defined as dropping leading then trailing chars up to U+0020; its shape is stated by `JavaText.TrimShape` |
| JavaText.TrimShape | javaminiproject/src/main/java/com/labinventory/LabInventoryApp.java:69 | `trim()` yields the middle slice of its argument with only whitespace (chars up to U+0020) around it; the result starts and ends with non-whitespace and is empty exactly for all-whitespace input |
| JavaText.TrimAroundWhitespace | javaminiproject/src/main/java/com/labinventory/LabInventoryApp.java:69 | whitespace on either side of a trimmed string is all that `trim()` removes |
| JavaText.CompareIgnoreCase | javaminiproject/src/main/java/com/labinventory/controller/EquipmentManagementController.java:85 | `compareToIgnoreCase` over ASCII-folded chars: the first differing folded char decides, else the length; its comparator laws are the next two rows |
| JavaText.CompareIgnoreCaseAntisymmetric | javaminiproject/src/main/java/com/labinventory/controller/EquipmentManagementController.java:84-92 | swapping the operands of `compareToIgnoreCase` negates the result |
| JavaText.CompareIgnoreCaseTransitive | javaminiproject/src/main/java/com/labinventory/controller/EquipmentManagementController.java:84-92 | `compareToIgnoreCase(a, b) <= 0` is transitive |
| JavaText.ParseInt | javaminiproject/src/main/java/com/labinventory/controller/EquipmentManagementController.java:340 | a parsed value is an int; only an optional sign followed by digits parses; unsigned input parses non-negative |
| JavaText.ParseIntAccepts | javaminiproject/src/main/java/com/labinventory/controller/EquipmentManagementController.java:340 | digits alone or after `+` parse to the number they denote, and digits after `-` to its negation, whenever the value is an int |
| JavaText.ParseShowRoundTrip | javaminiproject/src/main/java/com/labinventory/controller/EquipmentManagementController.java:394-395 | `Integer.parseInt(String.valueOf(n)) == n` for every int `n` |
| Sql.Like | javaminiproject/src/main/java/com/labinventory/database/EquipmentDAO.java:158 | SQLite's LIKE: `%` matches any run of chars, `_` any one char, other chars match ignoring ASCII case; its meaning for search patterns is stated by `Sql.LikeContains` and `Sql.UnderscoreMatchesAnyNonEmpty` |
| Sql.LikeContains | javaminiproject/src/main/java/com/labinventory/database/EquipmentDAO.java:158-165 | for a term without wildcards, `text LIKE '%term%'` holds exactly when the term occurs in the text, ignoring ASCII case |
| Sql.UnderscoreMatchesAnyNonEmpty | javaminiproject/src/main/java/com/labinventory/database/EquipmentDAO.java:163 | `LIKE '%_%'` matches exactly the non-empty texts |
| Sql.BinaryLeTotal | javaminiproject/src/main/java/com/labinventory/database/EquipmentDAO.java:158 | any two names are ordered one way or the other by BINARY collation |
| Sql.BinaryLeTransitive | javaminiproject/src/main/java/com/labinventory/database/EquipmentDAO.java:158 | BINARY collation order is transitive |
| Table.Select | javaminiproject/src/main/java/com/labinventory/database/EquipmentDAO.java:49-65 | the loop over the result set yields exactly the rows the WHERE clause keeps, each as often as the table holds it, in ORDER BY order |
| Table.FilterMembers | javaminiproject/src/main/java/com/labinventory/database/EquipmentDAO.java:51 | a row is selected exactly when it is in the table and satisfies the WHERE clause |
| Table.Find | javaminiproject/src/main/java/com/labinventory/database/EquipmentDAO.java:30-47 | `WHERE id = ?` finds a row with that id, the first one, or reports that none has it |
| Table.DeleteMembers | javaminiproject/src/main/java/com/labinventory/database/EquipmentDAO.java:140-154 | a row survives `DELETE ... WHERE id = ?` exactly when its id differs |
| Table.DeleteAbsent | javaminiproject/src/main/java/com/labinventory/database/EquipmentDAO.java:140-154 | deleting an id that no row has leaves the table unchanged |
| Table.DeleteKeepsKeysAscending | javaminiproject/src/main/java/com/labinventory/database/EquipmentDAO.java:140-154 | deleting keeps the ids strictly ascending |
| Table.DeleteCount | javaminiproject/src/main/java/com/labinventory/database/EquipmentDAO.java:140-154 | with distinct ids, the delete removes one row exactly when the id is present, else none |
| EquipmentDao.SearchPattern | javaminiproject/src/main/java/com/labinventory/database/EquipmentDAO.java:163 | the pattern is the term, unchanged, between two `%` |
| EquipmentDao.Inserted | javaminiproject/src/main/java/com/labinventory/database/EquipmentDAO.java:88-112 | the inserted row takes the new id, every column from the item, and today as date added when the item has none |
| EquipmentDao.Overwritten | javaminiproject/src/main/java/com/labinventory/database/EquipmentDAO.java:114-138 | the updated row takes the eight SET columns from the item and keeps its own id and date added |
| EquipmentDao.Updated | javaminiproject/src/main/java/com/labinventory/database/EquipmentDAO.java:114-138 | the table after the UPDATE: as many rows, every id kept, every row with another id untouched |
| EquipmentDao.QuantityLeTotalPreorder | javaminiproject/src/main/java/com/labinventory/database/EquipmentDAO.java:51 | `ORDER BY quantity` is a total preorder |
| EquipmentDao.ExpiryLeTotalPreorder | javaminiproject/src/main/java/com/labinventory/database/EquipmentDAO.java:70 | `ORDER BY expiry_date` (NULL first) is a total preorder |
| EquipmentDao.NameLeTotalPreorder | javaminiproject/src/main/java/com/labinventory/database/EquipmentDAO.java:158 | `ORDER BY name` is a total preorder |
| EquipmentDao.NearExpiryWhereIsNearExpiry | javaminiproject/src/main/java/com/labinventory/database/EquipmentDAO.java:67-86 | the near-expiry query's WHERE clause is exactly `Equipment.isNearExpiry` |
| EquipmentDao.SearchFindsSubstrings | javaminiproject/src/main/java/com/labinventory/database/EquipmentDAO.java:156-176 | for a wildcard-free term, the search keeps exactly the rows whose name or category contains the term, ignoring ASCII case |
| EquipmentDao.SearchUnderscoreFindsAll | javaminiproject/src/main/java/com/labinventory/database/EquipmentDAO.java:156-176 | searching for `_` keeps every row with a non-empty name or category |
| EquipmentDao.EquipmentStore.constructor | javaminiproject/src/main/java/com/labinventory/database/DatabaseManager.java:35-46 | a new table is empty, its counter at 1, and valid |
| EquipmentDao.EquipmentStore.GetAllEquipment | javaminiproject/src/main/java/com/labinventory/database/EquipmentDAO.java:12-28 | every row exactly once, ids strictly ascending |
| EquipmentDao.EquipmentStore.GetEquipmentById | javaminiproject/src/main/java/com/labinventory/database/EquipmentDAO.java:30-47 | null exactly when no row has the id; otherwise a row of the table with that id |
| EquipmentDao.EquipmentStore.GetLowStockEquipment | javaminiproject/src/main/java/com/labinventory/database/EquipmentDAO.java:49-65 | exactly the `isLowStock` rows, ascending by quantity |
| EquipmentDao.EquipmentStore.GetEquipmentNearExpiry | javaminiproject/src/main/java/com/labinventory/database/EquipmentDAO.java:67-86 | exactly the rows `isNearExpiry` flags today, earliest expiry first |
| EquipmentDao.EquipmentStore.SearchEquipment | javaminiproject/src/main/java/com/labinventory/database/EquipmentDAO.java:156-176 | exactly the rows whose name or category matches the LIKE pattern, by name |
| EquipmentDao.EquipmentStore.AddEquipment | javaminiproject/src/main/java/com/labinventory/database/EquipmentDAO.java:88-112 | appends the inserted row with the next id, keeps every other row, returns true and keeps the table valid |
| EquipmentDao.EquipmentStore.UpdateEquipment | javaminiproject/src/main/java/com/labinventory/database/EquipmentDAO.java:114-138 | true exactly when a row has the item's id; only that row changes, as `Overwritten` says |
| EquipmentDao.EquipmentStore.DeleteEquipment | javaminiproject/src/main/java/com/labinventory/database/EquipmentDAO.java:140-154 | true exactly when a row had the id; that row alone is gone; the table stays valid |
| OrderDao.OrderDateDescLeTotalPreorder | javaminiproject/src/main/java/com/labinventory/database/OrderDAO.java:15 | `ORDER BY order_date DESC` is a total preorder |
| OrderDao.ExpectedDeliveryLeTotalPreorder | javaminiproject/src/main/java/com/labinventory/database/OrderDAO.java:33 | `ORDER BY expected_delivery_date` is a total preorder |
| OrderDao.ActiveWhereIsActiveOrder | javaminiproject/src/main/java/com/labinventory/database/OrderDAO.java:31-47 | `status IN ('PENDING', 'IN_TRANSIT')` on the stored text is exactly `isActiveOrder` |
| OrderDao.Inserted | javaminiproject/src/main/java/com/labinventory/database/OrderDAO.java:68-93 | the inserted row takes the new id, every column from the order, and today as order date when the order has none |
| OrderDao.Apply | javaminiproject/src/main/java/com/labinventory/database/OrderDAO.java:95-173 | each UPDATE keeps the id; `updateOrder` sets every other column; `updateOrderStatus` sets only the status; `markAsDelivered` sets DELIVERED and today's delivery date and nothing else |
| OrderDao.Updated | javaminiproject/src/main/java/com/labinventory/database/OrderDAO.java:95-173 | the table after an UPDATE ... WHERE id = ?: as many rows, every id kept, every row with another id untouched |
| OrderDao.CancelRemovesFromActive | javaminiproject/src/main/java/com/labinventory/database/OrderDAO.java:139-155 | cancelling an order takes it off the active list, and every other order stays on or off it as before |
| OrderDao.OrderStore.constructor | javaminiproject/src/main/java/com/labinventory/database/DatabaseManager.java:50-62 | a new table is empty, its counter at 1, and valid |
| OrderDao.OrderStore.GetAllOrders | javaminiproject/src/main/java/com/labinventory/database/OrderDAO.java:13-29 | every order exactly once, latest order date first, undated last |
| OrderDao.OrderStore.GetActiveOrders | javaminiproject/src/main/java/com/labinventory/database/OrderDAO.java:31-47 | exactly the active orders, soonest expected delivery first |
| OrderDao.OrderStore.GetOrderById | javaminiproject/src/main/java/com/labinventory/database/OrderDAO.java:49-66 | null exactly when no row has the id; otherwise a row of the table with that id |
| OrderDao.OrderStore.AddOrder | javaminiproject/src/main/java/com/labinventory/database/OrderDAO.java:68-93 | appends the inserted row with the next id, keeps every other row, returns true and keeps the table valid |
| OrderDao.OrderStore.UpdateWhere | javaminiproject/src/main/java/com/labinventory/database/OrderDAO.java:95-173 | true exactly when a row has the id; only that row changes, as `Apply` says |
| OrderDao.OrderStore.UpdateOrder | javaminiproject/src/main/java/com/labinventory/database/OrderDAO.java:95-121 | true exactly when a row has the order's id; that row takes every column but the id |
| OrderDao.OrderStore.UpdateOrderStatus | javaminiproject/src/main/java/com/labinventory/database/OrderDAO.java:139-155 | true exactly when a row has the id; that row takes the new status, from any status |
| OrderDao.OrderStore.MarkAsDelivered | javaminiproject/src/main/java/com/labinventory/database/OrderDAO.java:157-173 | true exactly when a row has the id; that row becomes DELIVERED, delivered today, from any status |
| OrderDao.OrderStore.DeleteOrder | javaminiproject/src/main/java/com/labinventory/database/OrderDAO.java:123-137 | true exactly when a row had the id; that row alone is gone; the table stays valid |
| InventoryService.IntStreamSum | javaminiproject/src/main/java/com/labinventory/service/InventoryService.java:108-112 | the stream's sum is always an int |
| InventoryService.IntStreamSumIsWrappedTotal | javaminiproject/src/main/java/com/labinventory/service/InventoryService.java:108-112 | wrapping at every step equals the exact total wrapped once |
| InventoryService.AddToQuantity | javaminiproject/src/main/java/com/labinventory/service/InventoryService.java:91-94 | the delivered item's quantity becomes `quantity + delivered` in int arithmetic; every other field and every other row is unchanged |
| InventoryService.UpdateReadBackIsAddToQuantity | javaminiproject/src/main/java/com/labinventory/service/InventoryService.java:91-94 | updating with the row just read by id, quantity raised, touches that row alone |
| InventoryService.AddToQuantityAt | javaminiproject/src/main/java/com/labinventory/service/InventoryService.java:91-94 | a delivery that does not overflow replaces the one row with that id by the same row with `quantity + delivered` |
| InventoryService.SumQuantitiesUpdate | javaminiproject/src/main/java/com/labinventory/service/InventoryService.java:108-112 | replacing one row changes the total by the difference of the quantities |
| InventoryService.DeliveryRaisesTotal | javaminiproject/src/main/java/com/labinventory/service/InventoryService.java:87-112 | a delivery that does not overflow raises the total stock by exactly the delivered quantity |
| InventoryService.Inventory.constructor | javaminiproject/src/main/java/com/labinventory/service/InventoryService.java:10-17 | the service works over the two given tables, and is valid when both tables are |
| InventoryService.Inventory.MarkOrderAsDelivered | javaminiproject/src/main/java/com/labinventory/service/InventoryService.java:87-98 | the order is marked delivered whenever it exists; true exactly when both the order and the item exist; then, and only then, the item's quantity rises |
| InventoryService.Inventory.AddOrder | javaminiproject/src/main/java/com/labinventory/service/InventoryService.java:71-73 | records the order and leaves the equipment table alone |
| InventoryService.Inventory.GetLowStockCount | javaminiproject/src/main/java/com/labinventory/service/InventoryService.java:51-53 | the number of `isLowStock` rows |
| InventoryService.Inventory.GetExpiryAlertCount | javaminiproject/src/main/java/com/labinventory/service/InventoryService.java:55-57 | the number of rows `isNearExpiry` flags today |
| InventoryService.Inventory.GetActiveOrderCount | javaminiproject/src/main/java/com/labinventory/service/InventoryService.java:100-102 | the number of active orders |
| InventoryService.Inventory.GetTotalEquipmentTypes | javaminiproject/src/main/java/com/labinventory/service/InventoryService.java:104-106 | the number of equipment rows |
| InventoryService.Inventory.GetTotalEquipmentQuantity | javaminiproject/src/main/java/com/labinventory/service/InventoryService.java:108-112 | the total stock wrapped into the int range; the exact total whenever it fits |
| SeedScript.KeptTextAppend | javaminiproject/src/main/java/com/labinventory/LabInventoryApp.java:57-65 | the kept text of a script is the kept text of its parts, concatenated |
| SeedScript.Split | javaminiproject/src/main/java/com/labinventory/LabInventoryApp.java:67 | splitting at `;` yields at least one piece and no piece contains `;` |
| SeedScript.JoinSplit | javaminiproject/src/main/java/com/labinventory/LabInventoryApp.java:67 | rejoining the pieces with `;` gives back the text |
| SeedScript.SplitJoin | javaminiproject/src/main/java/com/labinventory/LabInventoryApp.java:67 | splitting pieces joined with `;` gives back the pieces |
| SeedScript.SplitAppend | javaminiproject/src/main/java/com/labinventory/LabInventoryApp.java:67 | the split of two texts joined by `;` is the two splits concatenated |
| SeedScript.DropTrailingEmpty | javaminiproject/src/main/java/com/labinventory/LabInventoryApp.java:67 | `String.split` drops exactly the trailing empty pieces |
| SeedScript.JavaSplit | javaminiproject/src/main/java/com/labinventory/LabInventoryApp.java:67 | no piece `String.split(";")` returns contains `;` |
| SeedScript.JavaSplitKeepsStatements | javaminiproject/src/main/java/com/labinventory/LabInventoryApp.java:67-77 | the statements run are the same whether or not trailing empty pieces are dropped |
| SeedScript.StatementsAppend | javaminiproject/src/main/java/com/labinventory/LabInventoryApp.java:68-77 | the statements of concatenated pieces are the two lists of statements concatenated |
| SeedScript.StatementsWellFormed | javaminiproject/src/main/java/com/labinventory/LabInventoryApp.java:68-77 | every statement run is non-empty, trimmed and free of `;` |
| SeedScript.ReadScript | javaminiproject/src/main/java/com/labinventory/LabInventoryApp.java:57-65 | the read loop keeps exactly the non-blank, non-comment lines, each followed by a newline |
| SeedScript.RunPieces | javaminiproject/src/main/java/com/labinventory/LabInventoryApp.java:68-77 | the loop runs, in order, the trimmed pieces that are not empty |
| SeedScript.SplitScript | javaminiproject/src/main/java/com/labinventory/LabInventoryApp.java:57-77 | the statements run are those of the kept text split at `;`, each non-empty, trimmed and free of `;` |
| SeedScript.ScriptOf | javaminiproject/src/main/java/com/labinventory/LabInventoryApp.java:57-77 | a script writes one statement per line, each ended by `;` |
| SeedScript.ScriptTextStatements | javaminiproject/src/main/java/com/labinventory/LabInventoryApp.java:57-77 | the kept text of such a script splits back into exactly its statements |
| SeedScript.TextAfterSemicolonRuns | javaminiproject/src/main/java/com/labinventory/LabInventoryApp.java:57-77 | text after `;` on a kept line is run as a statement of its own, even when it starts with `--` |
| SeedScript.ScriptRoundTrip | javaminiproject/src/main/java/com/labinventory/LabInventoryApp.java:57-77 | a script with one plain statement per line runs exactly those statements, in order |
| EquipmentController.StockStatusOf | javaminiproject/src/main/java/com/labinventory/controller/EquipmentManagementController.java:566-578 | "Low Stock" exactly at or below the threshold; "Moderate" exactly above it and up to 1.5 times it; "In Stock" exactly beyond that |
| EquipmentController.LowStockBadgeIsLowStockAlert | javaminiproject/src/main/java/com/labinventory/controller/EquipmentManagementController.java:566-569 | the "Low Stock" badge shows exactly for the items `isLowStock` flags |
| EquipmentController.IntegerCompare | javaminiproject/src/main/java/com/labinventory/controller/EquipmentManagementController.java:94 | negative, zero or positive exactly as the first int is below, equal to or above the second |
| EquipmentController.PriceCompare | javaminiproject/src/main/java/com/labinventory/controller/EquipmentManagementController.java:100 | negative, zero or positive exactly as the first price is below, equal to or above the second |
| EquipmentController.CompareExpiryAsWritten | javaminiproject/src/main/java/com/labinventory/controller/EquipmentManagementController.java:105-110 | an undated first item always compares as later; a dated item before an undated one as earlier; two dated items by date |
| EquipmentController.ExpiryComparatorAsWrittenIsInconsistent | javaminiproject/src/main/java/com/labinventory/controller/EquipmentManagementController.java:105-110 | for two undated items the written comparator says "later" both ways, and an undated item is "later" than itself |
| EquipmentController.CompareExpiry | javaminiproject/src/main/java/com/labinventory/controller/EquipmentManagementController.java:105-110 | undated items are equal among themselves and come after every dated item; dated items compare by date |
| EquipmentController.CompareExpiryAgreesWhenDated | javaminiproject/src/main/java/com/labinventory/controller/EquipmentManagementController.java:105-110 | the corrected comparator answers as the written one whenever either item is dated |
| EquipmentController.Compare | javaminiproject/src/main/java/com/labinventory/controller/EquipmentManagementController.java:83-111 | the comparator each sort entry uses, the expiry entry with the corrected comparator; its laws are the next three rows |
| EquipmentController.CompareAntisymmetric | javaminiproject/src/main/java/com/labinventory/controller/EquipmentManagementController.java:83-111 | every sort comparator flips its sign when the operands are swapped |
| EquipmentController.CompareTransitive | javaminiproject/src/main/java/com/labinventory/controller/EquipmentManagementController.java:83-111 | every sort comparator's "no later than" is transitive |
| EquipmentController.SortLeTotalPreorder | javaminiproject/src/main/java/com/labinventory/controller/EquipmentManagementController.java:83-111 | every sort comparator's "no later than" is a total preorder |
| EquipmentController.HandleSort | javaminiproject/src/main/java/com/labinventory/controller/EquipmentManagementController.java:76-115 | no choice leaves the list as it is; a choice yields a permutation of the list in that comparator's order |
| EquipmentController.QuantityHighLowIsReversedLowHigh | javaminiproject/src/main/java/com/labinventory/controller/EquipmentManagementController.java:93-98 | a list is in "Quantity (High-Low)" order exactly when its reverse is in "Quantity (Low-High)" order |
| EquipmentController.ExpirySortUndatedLast | javaminiproject/src/main/java/com/labinventory/controller/EquipmentManagementController.java:105-110 | after the expiry sort, no dated item follows an undated one, and dated items ascend by date |
| EquipmentController.HandleSearch | javaminiproject/src/main/java/com/labinventory/controller/EquipmentManagementController.java:64-73 | blank text (after trimming) shows the whole table by id; otherwise exactly the search results for the trimmed text, by name |
| EquipmentController.PlaceOrder | javaminiproject/src/main/java/com/labinventory/controller/EquipmentManagementController.java:337-357 | no order exactly when the quantity text is not an int; otherwise an active PENDING order for the selected item, ordered today, costing quantity times unit price |
| EquipmentController.PlaceOrderQuantityRoundTrip | javaminiproject/src/main/java/com/labinventory/controller/EquipmentManagementController.java:340 | typing an int's decimal text orders exactly that quantity |
| EquipmentController.FormOf | javaminiproject/src/main/java/com/labinventory/controller/EquipmentManagementController.java:385-420 | the edit form shows every field of the item, the counts as decimal text |
| EquipmentController.ExtractEquipment | javaminiproject/src/main/java/com/labinventory/controller/EquipmentManagementController.java:476-501 | no item exactly when a count field is not an int; otherwise the eight form fields written in; an edited item keeps its id and date added; a new one has id 0 and is dated today |
| EquipmentController.EditUnchangedFormKeepsItem | javaminiproject/src/main/java/com/labinventory/controller/EquipmentManagementController.java:167-219 | confirming an untouched edit form yields the item unchanged |

## Left out

- **The JDBC layer.** The model covers neither `DatabaseManager`'s connection handling nor the `SQLException` paths of every DAO method, which print and return an empty list, `null` or `false`. The tables are in-memory sequences, and the engine is assumed never to fail.
- **I/O and the clock.** Reading `java2.sql` from disk is out of scope; the script's lines are a parameter. `LocalDate.now()` is out of scope too; "today" is a parameter of every operation that reads it.
- **Running the seed statements.** `stmt.execute` on each statement is not modelled. The model yields the list of statements the loop hands to the engine, and a statement that fails is skipped. What the statements do to the tables is out of scope.
- **The JavaFX screen itself.** Widgets, dialogs, alerts, styling, list cells (other than the badge rule) and the file `HomeController.java` are not part of this model.
- **Plain forwarding.** The service's pass-through methods, which forward to a DAO unchanged, have no model of their own: the DAO methods are the model.
- **Floating point.** Prices and `totalCost` are exact reals. Rounding of `double`, `NaN` and `-0.0` in `Double.compare` are not modelled.
  - `EquipmentController.PriceCompare`: orders exact reals rather than doubles.
  - `EquipmentController.PlaceOrder`: does not model the rounding of `quantity * unitPrice`.
- **The price field.** `Double.parseDouble` of the form's price field is not modelled. The form holds the price as a number, so a malformed price is not represented.
- **In-place editing of the item.** `extractEquipmentFromForm` mutates the item it is given, and that item is shared with the list on screen. When a count field does not parse, the fields before it have already been overwritten before the uncaught `NumberFormatException`.
  - `EquipmentController.ExtractEquipment`: returns a new value, or `None` when a count does not parse. It does not capture the aliasing or the partial update.
- **Unicode.** Case folding in LIKE covers ASCII letters only, as SQLite's does. The model's `JavaText.CompareIgnoreCase` folds ASCII letters only; Java's `compareToIgnoreCase` folds all of Unicode. The model's `JavaText.ParseInt` accepts ASCII digits only; Java's `Integer.parseInt` also accepts other Unicode decimal digits. `trim()` works on chars up to U+0020, as Java's does.
- **Dates stored as text.** The tables hold every date as `LocalDate.toString()` text, and SQLite compares those texts in `expiry_date <= ?` and in the three date ORDER BYs. The model compares day numbers, which gives the same answer only for years 0000 to 9999: Java writes year 10000 as `+10000-01-01`, which sorts before every four-digit year.
  - `EquipmentDao.NearExpiryWhereIsNearExpiry`: holds for dates with four-digit years; a date past year 9999 passes the SQL test although `isNearExpiry` is false.
  - `EquipmentDao.EquipmentStore.GetEquipmentNearExpiry`: returns exactly the `isNearExpiry` rows, earliest first, for dates with four-digit years only.
  - `EquipmentDao.ExpiryLe`, `OrderDao.OrderDateDescLe`, `OrderDao.ExpectedDeliveryLe`: order dates as dates, which is the stored text order for four-digit years only.
- **Tie order.**
  - `Table.Select`: leaves open the order among rows that tie on the ORDER BY key, as SQL does.
  - `EquipmentController.HandleSort`: does not state that `List.sort` is stable; among items that compare equal, their order is not specified.
- **The exception from the broken comparator.** `List.sort` may throw when given the expiry comparator as written. The model sorts with the corrected comparator; see Findings.

## Findings

| source | as written | input that shows it | evidently intended | confidence | as-written member | corrected member |
|---|---|---|---|---|---|---|
| javaminiproject/src/main/java/com/labinventory/controller/EquipmentManagementController.java:105-110 | the expiry comparator returns 1 whenever the first item has no expiry date, even when the second has none either, and even for an item compared with itself | two equipment items, both without an expiry date: each compares as later than the other | undated items equal among themselves and sorted after every dated item | not executed | EquipmentController.ExpiryComparatorAsWrittenIsInconsistent | EquipmentController.CompareExpiry |
