# Logistics inventory ledger — a Dafny model

This project models the stock-keeping core of a Spring Boot logistics back end.

- `InventoryService` creates, updates, deletes and reads inventory items. It adjusts an item's quantity by a signed change and moves stock between warehouses (`transferInventory`). Each response carries a `needsRestock` flag.
- `WarehouseService` creates and updates warehouses. On the way it resolves the manager and defaults the capacity. It soft-deletes a warehouse by clearing `isActive`.
- `InventoryRepository` supplies the finder queries the services rely on.
- The `UserRole` enum decodes role strings (`fromValue`).
- `User.setRoleFromString` and `User.getRoleValue` wrap that decoder.

The tables live in one `Database` object (`store.dfy`):

- inventory items, warehouses and users, as maps keyed by id;
- the transfer log, as a sequence;
- two counters that stand for the generated keys.

Each service operation is a method on that object. An exception is a `Failure`/`Fail` value, and on failure no table changes. `updateInventoryQuantity` and `transferInventory` are transactional; the other writes change nothing on failure because every check comes before their first `save`. `Database.Valid()` is the invariant every operation keeps:

- SKUs are unique per warehouse;
- every item belongs to a stored warehouse;
- every manager is a stored user;
- keys lie below the next generated key;
- every logged transfer is `COMPLETED`.

`Ledger` describes a successful transfer as a function of the table before it (`Transferred`). It proves:

- stock is conserved;
- a merge adds to the destination's item and a create copies the source;
- moving stock into the source's own warehouse changes nothing;
- the invariants are kept.

`MoveStock` and `TransferInventory` are proved to perform exactly that change, by the same save-by-save steps the service takes.

Files:

- `wrappers.dfy`: `Option`, `Result`, `Outcome`.
- `user_role.dfy`: the role enum, Java's `trim`/`equalsIgnoreCase`/`toUpperCase` on ASCII, and `fromValue`.
- `user.dfy`: the `User` class with its role accessors.
- `entities.dfy`: the rows and the service exceptions.
- `inventory_repository.dfy`: the finder queries.
- `ledger.dfy`: the transfer specification.
- `store.dfy`: the database and its invariant.
- `inventory_service.dfy` and `warehouse_service.dfy`: the two services.

## Model

| member | source | states |
|---|---|---|
| UserRoles.ValueSpelling | src/main/java/com/logistics/logistics/model/UserRole.java:8-11 | each constant's value is non-empty lower snake case with no blank at either end |
| UserRoles.NameIsUpperValue | src/main/java/com/logistics/logistics/model/UserRole.java:8-11 | each constant's name is its value upper-cased |
| UserRoles.NameSpelling | src/main/java/com/logistics/logistics/model/UserRole.java:8-11 | each constant's name is its own upper case, non-empty, with no blank at either end |
| UserRoles.ValueCase | src/main/java/com/logistics/logistics/model/UserRole.java:8-11 | each value is its own lower case and upper-cases to the constant's name |
| UserRoles.ValueIsTrimmed | src/main/java/com/logistics/logistics/model/UserRole.java:8-11 | trimming a value gives it back |
| UserRoles.NameIsTrimmed | src/main/java/com/logistics/logistics/model/UserRole.java:8-11 | trimming or upper-casing a name gives it back |
| UserRoles.ValueIsCanonical | src/main/java/com/logistics/logistics/model/UserRole.java:8-22 | `toString` is the value; the value is its own lower-case and trimmed form, and its upper-case form is the constant's name |
| UserRoles.ValuesDistinctIgnoringCase | src/main/java/com/logistics/logistics/model/UserRole.java:8-11 | no two constants have values that are equal ignoring case, so the value match is unambiguous |
| UserRoles.AllRolesListsEveryRole | src/main/java/com/logistics/logistics/model/UserRole.java:33 | `values()` lists every constant |
| UserRoles.ValueOf | src/main/java/com/logistics/logistics/model/UserRole.java:39 | `valueOf` finds the constant with exactly that name, and none when no name matches |
| UserRoles.ToUpper | src/main/java/com/logistics/logistics/model/UserRole.java:39 | upper-casing keeps the length and maps each character |
| UserRoles.TrimStart | src/main/java/com/logistics/logistics/model/UserRole.java:30 | the leading part removed is all blank (chars up to U+0020) and what is kept starts with a non-blank |
| UserRoles.TrimEnd | src/main/java/com/logistics/logistics/model/UserRole.java:30 | the trailing part removed is all blank and what is kept ends with a non-blank |
| UserRoles.TrimIgnoresPadding | src/main/java/com/logistics/logistics/model/UserRole.java:30 | trimming ignores any blank padding added on either side |
| UserRoles.TrimOfPadded | src/main/java/com/logistics/logistics/model/UserRole.java:30 | a string without blank ends, padded by blanks, trims back to itself |
| UserRoles.EqualsIgnoreCaseIsUpperEquality | src/main/java/com/logistics/logistics/model/UserRole.java:34 | on ASCII, `equalsIgnoreCase` holds exactly when the upper-cased strings are equal |
| UserRoles.FirstValueMatch | src/main/java/com/logistics/logistics/model/UserRole.java:33-35 | the filter/findFirst result is a listed role whose value matches ignoring case; no result means no listed role matches |
| UserRoles.MatchesValueIffUpperIsName | src/main/java/com/logistics/logistics/model/UserRole.java:34-39 | a string matches a constant's value ignoring case exactly when its upper-case form is that constant's name |
| UserRoles.NameFallbackAddsNothing | src/main/java/com/logistics/logistics/model/UserRole.java:36-39 | whenever the name fallback would succeed, the value match has already returned the same constant |
| UserRoles.LookupFinds | src/main/java/com/logistics/logistics/model/UserRole.java:33-39 | the value match with its name fallback finds role `r` exactly when the trimmed input equals `r`'s value ignoring case |
| UserRoles.FromValueDecodesTo | src/main/java/com/logistics/logistics/model/UserRole.java:25-44 | a non-null input decodes to `r` exactly when its trimmed form equals `r`'s value ignoring case |
| UserRoles.FromValueCharacterization | src/main/java/com/logistics/logistics/model/UserRole.java:24-45 | null fails with "Value cannot be null"; otherwise the result is role `r` exactly when `r`'s value equals the trimmed input ignoring case; any other input fails with "Invalid role value" carrying the untrimmed input |
| UserRoles.ValueRoundTrip | src/main/java/com/logistics/logistics/model/UserRole.java:19-35 | `fromValue(r.getValue()) == r` for every role |
| UserRoles.NameRoundTrip | src/main/java/com/logistics/logistics/model/UserRole.java:8-39 | `fromValue(r.name()) == r` for every role |
| UserRoles.FromValueIgnoresPadding | src/main/java/com/logistics/logistics/model/UserRole.java:30 | blank padding on either side changes neither success nor the role decoded |
| UserRoles.FromValueIgnoresCase | src/main/java/com/logistics/logistics/model/UserRole.java:34 | inputs whose trimmed forms are equal ignoring case decode alike |
| UserRoles.DecodedValueIsLowerCaseOfInput | src/main/java/com/logistics/logistics/model/UserRole.java:30-35 | a decoded role's value is the lower-case form of the trimmed input |
| UserRoles.TrimStartSkipsWhitespace | src/main/java/com/logistics/logistics/model/UserRole.java:30 | blank prefixes vanish under `TrimStart` |
| UserRoles.TrimEndSkipsWhitespace | src/main/java/com/logistics/logistics/model/UserRole.java:30 | blank suffixes vanish under `TrimEnd` |
| UserRoles.TrimOfBlank | src/main/java/com/logistics/logistics/model/UserRole.java:30 | an all-blank string trims to the empty string |
| UserRoles.TrimStartAppend | src/main/java/com/logistics/logistics/model/UserRole.java:30 | how `TrimStart` distributes over concatenation |
| Users.User.RoleValueRoundTrip | src/main/java/com/logistics/logistics/model/User.java:53-55 | `getRoleValue()` is null exactly when no role is set (and `fromValue` then rejects it); otherwise it decodes back to the role |
| Users.User.SetRoleFromString | src/main/java/com/logistics/logistics/model/User.java:40-51 | null fails; an unrecognised string fails with "Invalid role" and leaves the role as it was; otherwise the role becomes `fromValue(s)` and `getRoleValue()` is the lower-case trimmed input |
| InventoryRepository.FindBySkuAndWarehouseAtMostOne | src/main/java/com/logistics/logistics/repository/InventoryRepository.java:16 | with SKUs unique per warehouse, `findBySkuAndWarehouse` matches at most one item |
| InventoryRepository.FindByWarehousePartitions | src/main/java/com/logistics/logistics/repository/InventoryRepository.java:14 | `findByWarehouse(w)` returns an item exactly when `w` owns it |
| InventoryRepository.BelowReorderPointByWarehouseIsRestriction | src/main/java/com/logistics/logistics/repository/InventoryRepository.java:20-24 | the per-warehouse reorder query is the unfiltered one intersected with the warehouse's items, hence a subset of it |
| InventoryRepository.ContainsTransitive | src/main/java/com/logistics/logistics/repository/InventoryRepository.java:18 | containment of substrings is transitive |
| InventoryRepository.FindByItemNameContainingMonotonic | src/main/java/com/logistics/logistics/repository/InventoryRepository.java:18 | the empty fragment matches every item; a longer fragment matches no more items than one inside it |
| Ledger.MergeTargetsAreFound | src/main/java/com/logistics/logistics/service/InventoryService.java:244 | the merge candidates are exactly the rows the SKU lookup returns |
| Ledger.TransferEffect | src/main/java/com/logistics/logistics/service/InventoryService.java:240-250 | the source loses `quantity` (or nothing, when the destination is its own warehouse); the destination's row with the SKU gains `quantity`; every other row is untouched |
| Ledger.TransferMerges | src/main/java/com/logistics/logistics/service/InventoryService.java:247-250 | when the destination stocks the SKU no row is created and that row gains exactly `quantity` |
| Ledger.TransferCreates | src/main/java/com/logistics/logistics/service/InventoryService.java:251-265 | otherwise exactly one row is added, in the destination, with `quantity` units and the source's name, description, SKU, reorder point, reorder quantity and unit price |
| Ledger.TransferWithinWarehouseIsIdentity | src/main/java/com/logistics/logistics/service/InventoryService.java:240-250 | a transfer into the source's own warehouse leaves the inventory table unchanged |
| Ledger.TransferKeepsSkuUnique | src/main/java/com/logistics/logistics/service/InventoryService.java:244-265 | a transfer never puts two rows with one SKU into a warehouse |
| Ledger.TransferKeepsStockNonNegative | src/main/java/com/logistics/logistics/service/InventoryService.java:208-241 | with `0 < quantity <= source.quantity`, no quantity becomes negative |
| Ledger.TransferConservesStock | src/main/java/com/logistics/logistics/service/InventoryService.java:240-265 | over any set of warehouses containing the source's and the destination, the total stock of the SKU is unchanged |
| Ledger.MergeConservesStock | src/main/java/com/logistics/logistics/service/InventoryService.java:240-250 | in the merge case the SKU's stock over the warehouses is unchanged |
| Ledger.CreateConservesStock | src/main/java/com/logistics/logistics/service/InventoryService.java:240-265 | in the create case the SKU's stock over the warehouses is unchanged |
| Ledger.QuantitySumRemove | src/main/java/com/logistics/logistics/service/InventoryService.java:240-265 | a sum of quantities can take any one item out first |
| Ledger.QuantitySumAgree | src/main/java/com/logistics/logistics/service/InventoryService.java:240-265 | sums over items with equal quantities are equal |
| Ledger.Debit | src/main/java/com/logistics/logistics/service/InventoryService.java:240-241 | the source loses `quantity` units; no SKU or owner changes |
| Ledger.Credit | src/main/java/com/logistics/logistics/service/InventoryService.java:249-250 | the found row gains `quantity` units |
| Ledger.DebitKeepsLookup | src/main/java/com/logistics/logistics/service/InventoryService.java:240-245 | the lookup after the debit finds what it would have found before |
| Ledger.MergeStepsTransfer | src/main/java/com/logistics/logistics/service/InventoryService.java:240-250 | debit then credit of the row found is the `Transferred` table |
| Ledger.CreateStepsTransfer | src/main/java/com/logistics/logistics/service/InventoryService.java:240-265 | debit then saving a copy when nothing is found is the `Transferred` table |
| Ledger.TransferToEmptyWarehouseExample | src/main/java/com/logistics/logistics/service/InventoryService.java:240-265 | 30 of 100 units moved to an empty warehouse leave 70 and create a 30-unit copy |
| Store.Database.constructor | src/main/java/com/logistics/logistics/service/InventoryService.java:28-31 | empty tables over the given users satisfy the invariant |
| InventoryService.IntAdd | src/main/java/com/logistics/logistics/service/InventoryService.java:158 | Java `int` addition: the result is in range and congruent to the exact sum modulo 2^32 |
| InventoryService.IntAddExact | src/main/java/com/logistics/logistics/service/InventoryService.java:158 | without overflow it is the exact sum |
| InventoryService.MapToInventoryResponse | src/main/java/com/logistics/logistics/service/InventoryService.java:275-292 | the response carries the item unchanged, its id and its warehouse's name, and `needsRestock` holds exactly when `quantity <= reorderPoint` |
| InventoryService.RespondAll | src/main/java/com/logistics/logistics/service/InventoryService.java:35-37 | one response per requested item, each describing that item |
| InventoryService.GetAllInventory | src/main/java/com/logistics/logistics/service/InventoryService.java:33-38 | a response for exactly every stored item |
| InventoryService.GetInventoryById | src/main/java/com/logistics/logistics/service/InventoryService.java:40-48 | succeeds exactly for a stored id, with that item; otherwise "Inventory not found" |
| InventoryService.GetInventoryByWarehouse | src/main/java/com/logistics/logistics/service/InventoryService.java:50-61 | an unknown warehouse fails; otherwise exactly the items it owns |
| InventoryService.GetItemsBelowReorderPoint | src/main/java/com/logistics/logistics/service/InventoryService.java:171-176 | exactly the items with `quantity <= reorderPoint`, each flagged `needsRestock` |
| InventoryService.GetItemsBelowReorderPointByWarehouse | src/main/java/com/logistics/logistics/service/InventoryService.java:178-190 | an unknown warehouse fails; otherwise exactly its items with `quantity <= reorderPoint`, each flagged |
| InventoryService.ReorderQueriesMatchNeedsRestock | src/main/java/com/logistics/logistics/repository/InventoryRepository.java:20-24 | both reorder queries select exactly the rows the service flags `needsRestock` |
| InventoryService.CreateInventory | src/main/java/com/logistics/logistics/service/InventoryService.java:63-94 | an unknown warehouse fails; a SKU the warehouse already stocks fails with the SKU and warehouse name; it succeeds exactly when the warehouse exists and the SKU is free there; the request is stored under a new key; SKU uniqueness is kept |
| InventoryService.OverwriteKeepsSkuUnique | src/main/java/com/logistics/logistics/service/InventoryService.java:111-118 | writing a row whose SKU no other row holds in its warehouse keeps SKUs unique |
| InventoryService.UpdateInventoryAsWritten | src/main/java/com/logistics/logistics/service/InventoryService.java:96-133 | as written: succeeds exactly for a stored item and warehouse when the SKU is unchanged or unused in the target warehouse |
| InventoryService.UpdateAsWrittenDuplicatesSku | src/main/java/com/logistics/logistics/service/InventoryService.java:111-127 | moving an item to a warehouse that already stocks its SKU is accepted as written and breaks SKU uniqueness |
| InventoryService.UpdateChecksAgreeWithinWarehouse | src/main/java/com/logistics/logistics/service/InventoryService.java:111-118 | when the warehouse stays the same, the corrected check and the written one accept the same updates |
| InventoryService.UpdateInventory | src/main/java/com/logistics/logistics/service/InventoryService.java:96-133 | unknown item, then unknown warehouse, then a SKU another row holds in the target warehouse fail; it succeeds exactly when none of these applies; the row is overwritten with the request; SKU uniqueness is kept |
| InventoryService.DeleteInventory | src/main/java/com/logistics/logistics/service/InventoryService.java:135-146 | an unknown id fails; otherwise exactly that row is removed |
| InventoryService.UpdateInventoryQuantity | src/main/java/com/logistics/logistics/service/InventoryService.java:148-169 | an unknown id fails; a 32-bit `current + change` below zero fails with no change; it succeeds exactly when the item exists and that sum is non-negative; otherwise only that quantity changes, to `current + change`; non-negative stock stays non-negative |
| InventoryService.TransferCheck | src/main/java/com/logistics/logistics/service/InventoryService.java:197-225 | the checks in source order: non-positive quantity, missing source, insufficient stock, missing destination, missing user; passing means all hold |
| InventoryService.TransferKeepsItemsConsistent | src/main/java/com/logistics/logistics/service/InventoryService.java:240-265 | a transfer into a stored warehouse keeps the item-table invariant |
| InventoryService.MoveStock | src/main/java/com/logistics/logistics/service/InventoryService.java:239-265 | the debit, lookup and merge-or-create steps produce exactly `Transferred`, and the key counter moves only when a row is created |
| InventoryService.TransferInventory | src/main/java/com/logistics/logistics/service/InventoryService.java:192-273 | the outcome is the first failing check, and then nothing changes; on success the inventory is `Transferred` and exactly one record is appended, from the source's warehouse, `COMPLETED` at `now` |
| WarehouseService.MapToWarehouseResponse | src/main/java/com/logistics/logistics/service/WarehouseService.java:161-173 | `managerId` and `managerName` are null exactly when the manager is, and are the manager's otherwise |
| WarehouseService.ResolveManager | src/main/java/com/logistics/logistics/service/WarehouseService.java:48-55 | a null id gives no manager, a stored id its user, any other id "Manager not found" |
| WarehouseService.CapacityOrDefault | src/main/java/com/logistics/logistics/service/WarehouseService.java:57-64 | a null capacity becomes the fallback, any other is kept |
| WarehouseService.ResolvedManagerIsStored | src/main/java/com/logistics/logistics/service/WarehouseService.java:49-55 | a resolved manager is the stored user with its id |
| WarehouseService.GetAllWarehouses | src/main/java/com/logistics/logistics/service/WarehouseService.java:26-31 | one response per stored warehouse, inactive ones included |
| WarehouseService.GetWarehouseById | src/main/java/com/logistics/logistics/service/WarehouseService.java:33-41 | succeeds exactly for a stored id; otherwise "Warehouse not found" |
| WarehouseService.GetWarehousesByManager | src/main/java/com/logistics/logistics/service/WarehouseService.java:147-159 | an unknown user fails; otherwise exactly the warehouses that user manages |
| WarehouseService.CreateWarehouse | src/main/java/com/logistics/logistics/service/WarehouseService.java:43-84 | an unknown manager fails wrapped as a create failure, with no change; it succeeds exactly when the manager id is null or names a user; a new warehouse is stored, active, with capacity 0 when none is given |
| WarehouseService.UpdateWarehouse | src/main/java/com/logistics/logistics/service/WarehouseService.java:86-130 | unknown id, then unknown manager, fail wrapped as an update failure, with no change; it succeeds exactly when neither applies; name, location and contacts are replaced, a null capacity keeps the old one, a null manager id clears the manager, `isActive` is kept |
| WarehouseService.DeactivateIsSoftAndIdempotent | src/main/java/com/logistics/logistics/service/WarehouseService.java:141-143 | a soft delete keeps every row, clears only that row's `isActive`, and repeating it changes nothing |
| WarehouseService.DeleteWarehouse | src/main/java/com/logistics/logistics/service/WarehouseService.java:132-145 | an unknown id fails; otherwise the warehouse stays stored, marked inactive |

## Left out

- Logging (`logger`, `System.out`) is not modelled.
- Transactions and concurrency: each operation is one atomic method that changes nothing when it fails. Isolation and locking are not modelled.
- Error values carry only what the exception message carries: `BelowZero`, `NonPositiveQuantity` and `InsufficientQuantity` have no payload, since the quantities appear only in the log lines.
- String comparison in queries: `findBySkuAndWarehouse`'s `sku =` and `findByItemNameContaining`'s `LIKE` are modelled as exact, case-sensitive comparisons. Under a case-insensitive database collation, a lookup for "abc" would also find an "ABC" row, and a transfer would merge instead of creating a row. The collation is not part of this model.
- The `IN_TRANSIT` record saved before the stock moves is visible only inside `TransferInventory`. Its final state is the `COMPLETED` record.
- Clock readings (`LocalDateTime.now()`, `createdAt`, `updatedAt`) are the `now` parameter. A transfer's `createdAt` and `completedAt` both take it. `updatedAt` is dropped from `InventoryResponse`.
- `BigDecimal` capacity and unit price are opaque `Decimal` values, only copied, or defaulted to `BigDecimal.ZERO`.
- Null boxed request fields (a null quantity, name or warehouse id) are not modelled. Bean-validation annotations on the request DTOs are not part of this model.
- Database constraints: the `Inventory`, `InventoryTransfer` and request classes are not part of this model, so column limits, unique keys and foreign keys are unknown.
  - `DeleteInventory` therefore removes a row even when transfer records refer to it.
- Result lists are maps keyed by id, so the order of `findAll` and the finders is not modelled.
- `WarehouseRepository`'s `findByIsActive`, `findByName` and `findByLocationContaining` are not called by the core, so they are not modelled.
- Transfers may target an inactive warehouse, as in the source. No property about `isActive` is claimed for transfers.
- `CreateInventory`/`UpdateInventory` store the requested quantity without a sign check. Non-negative stock is therefore a separate predicate that `UpdateInventoryQuantity` and `TransferInventory` keep, not part of `Valid`.
- TransferInventory: the destination's `quantity + quantity` is not wrapped at 32 bits; it is treated as unbounded. `UpdateInventoryQuantity` does model the wrap.
- UserRoles.ToUpper: Java's `toUpperCase`, `toLowerCase` and `equalsIgnoreCase` are modelled on ASCII letters only. Other characters are left unchanged. So the model rejects inputs that Java accepts through non-ASCII case mappings, such as "admın" (dotless i, U+0131) or "warehouſe_staff" (long s, U+017F). That upper-casing keeps the length holds only in the model: Java maps "ß" to "SS".
- Users.User: only id, username and role are modelled. Password, e-mail, timestamps and the Spring Security classes are left out.
- Authentication, the controllers and the frontend are outside the inventory core.

## Findings

| source | as written | input that shows it | evidently intended | confidence | as-written member | corrected member |
|---|---|---|---|---|---|---|
| src/main/java/com/logistics/logistics/service/InventoryService.java:111-118 | the per-warehouse SKU check runs only when the SKU string changes | the item with SKU "A" in warehouse 1 is updated to warehouse 2, which already stocks "A": the update is accepted and warehouse 2 holds two "A" rows | the check also runs when the warehouse changes, so the service keeps at most one row per SKU per warehouse, as `createInventory` does (a database unique key, if the entity declares one, would reject the save instead) | not executed | InventoryService.UpdateAsWrittenDuplicatesSku | InventoryService.UpdateInventory |
