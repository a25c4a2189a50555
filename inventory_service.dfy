/**
 * `InventoryService`: item CRUD, signed quantity adjustment, the reorder views and the stock transfer
 * between warehouses, as methods over the `Database` in which a thrown exception is a failure value and
 * leaves every table as it was.
 */
module InventoryService {
  import opened Wrappers
  import opened Users
  import opened Entities
  import opened InventoryRepository
  import opened Ledger
  import opened Store

  /** The request body for create and update. */
  datatype InventoryRequest = InventoryRequest(
    itemName: string,
    description: string,
    sku: string,
    quantity: int,
    reorderPoint: int,
    reorderQuantity: int,
    unitPrice: Decimal,
    warehouseId: WarehouseId)

  /** What every read and write hands back for one item. */
  datatype InventoryResponse = InventoryResponse(
    inventoryId: ItemId,
    itemName: string,
    description: string,
    sku: string,
    quantity: int,
    reorderPoint: int,
    reorderQuantity: int,
    unitPrice: Decimal,
    warehouseId: WarehouseId,
    warehouseName: string,
    needsRestock: bool)

  // ---------------------------------------------------------------------------
  // Java `int` arithmetic

  const IntMin: int := -0x8000_0000
  const IntMax: int := 0x7fff_ffff

  /** `a + b` on Java `int`s: the exact sum wrapped into the 32-bit range. */
  function IntAdd(a: int, b: int): (r: int)
    ensures IntMin <= r <= IntMax
    ensures (r - (a + b)) % 0x1_0000_0000 == 0
  {
    (a + b - IntMin) % 0x1_0000_0000 + IntMin
  }

  /** Without overflow the wrapped sum is the sum. */
  lemma IntAddExact(a: int, b: int)
    requires IntMin <= a + b <= IntMax
    ensures IntAdd(a, b) == a + b
  {
  }

  // ---------------------------------------------------------------------------
  // Responses

  /** `needsRestock`: the stock has fallen to the reorder point or below. */
  predicate NeedsRestock(item: InventoryItem) {
    item.quantity <= item.reorderPoint
  }

  /** The row a response describes, recovered from its fields. */
  function ResponseItem(r: InventoryResponse): InventoryItem {
    InventoryItem(r.itemName, r.description, r.sku, r.quantity, r.reorderPoint, r.reorderQuantity, r.unitPrice, r.warehouseId)
  }

  /** `mapToInventoryResponse`: the response loses nothing of the row and flags it exactly when it needs restocking. */
  function MapToInventoryResponse(id: ItemId, item: InventoryItem, warehouse: Warehouse): (r: InventoryResponse)
    ensures ResponseItem(r) == item && r.inventoryId == id && r.warehouseName == warehouse.name
    ensures r.needsRestock <==> item.quantity <= item.reorderPoint
  {
    InventoryResponse(id, item.itemName, item.description, item.sku, item.quantity, item.reorderPoint,
                      item.reorderQuantity, item.unitPrice, item.warehouseId, warehouse.name, NeedsRestock(item))
  }

  /** The response for stored item `id`, naming its warehouse. */
  function Respond(db: Database, id: ItemId): InventoryResponse
    reads db
    requires db.Valid() && id in db.inventory
  {
    MapToInventoryResponse(id, db.inventory[id], db.warehouses[db.inventory[id].warehouseId])
  }

  /** The responses for the stored items `ids`, keyed by id; list order is not modelled. */
  function RespondAll(db: Database, ids: set<ItemId>): (r: map<ItemId, InventoryResponse>)
    reads db
    requires db.Valid() && ids <= db.inventory.Keys
    ensures r.Keys == ids
    ensures forall id :: id in r ==> ResponseItem(r[id]) == db.inventory[id] && r[id].inventoryId == id
  {
    map id | id in ids :: Respond(db, id)
  }

  // ---------------------------------------------------------------------------
  // Reads

  /** `getAllInventory`: one response per stored item. */
  function GetAllInventory(db: Database): (r: map<ItemId, InventoryResponse>)
    reads db
    requires db.Valid()
    ensures r.Keys == db.inventory.Keys
    ensures forall id :: id in r ==> ResponseItem(r[id]) == db.inventory[id]
  {
    RespondAll(db, db.inventory.Keys)
  }

  /** `getInventoryById`: the item's response, or "Inventory not found" for an unknown id. */
  function GetInventoryById(db: Database, id: ItemId): (r: Result<InventoryResponse, ServiceError>)
    reads db
    requires db.Valid()
    ensures r.Success? <==> id in db.inventory
    ensures r.Failure? ==> r.error == InventoryNotFound(id)
    ensures r.Success? ==> ResponseItem(r.value) == db.inventory[id] && r.value.inventoryId == id
  {
    if id in db.inventory then Success(Respond(db, id)) else Failure(InventoryNotFound(id))
  }

  /** `getInventoryByWarehouse`: the items the warehouse owns, or "Warehouse not found". */
  function GetInventoryByWarehouse(db: Database, w: WarehouseId): (r: Result<map<ItemId, InventoryResponse>, ServiceError>)
    reads db
    requires db.Valid()
    ensures r.Success? <==> w in db.warehouses
    ensures r.Failure? ==> r.error == WarehouseNotFound(w)
    ensures r.Success? ==> forall id :: id in r.value <==> id in db.inventory && db.inventory[id].warehouseId == w
  {
    if w in db.warehouses then Success(RespondAll(db, FindByWarehouse(db.inventory, w))) else Failure(WarehouseNotFound(w))
  }

  /** `getItemsBelowReorderPoint`: exactly the items flagged `needsRestock`. */
  function GetItemsBelowReorderPoint(db: Database): (r: map<ItemId, InventoryResponse>)
    reads db
    requires db.Valid()
    ensures forall id :: id in r <==> id in db.inventory && NeedsRestock(db.inventory[id])
    ensures forall id :: id in r ==> r[id].needsRestock
  {
    RespondAll(db, FindItemsBelowReorderPoint(db.inventory))
  }

  /** `getItemsBelowReorderPointByWarehouse`: the warehouse's items flagged `needsRestock`, or "Warehouse not found". */
  function GetItemsBelowReorderPointByWarehouse(db: Database, w: WarehouseId): (r: Result<map<ItemId, InventoryResponse>, ServiceError>)
    reads db
    requires db.Valid()
    ensures r.Success? <==> w in db.warehouses
    ensures r.Failure? ==> r.error == WarehouseNotFound(w)
    ensures r.Success? ==> forall id :: id in r.value <==>
      id in db.inventory && db.inventory[id].warehouseId == w && NeedsRestock(db.inventory[id])
    ensures r.Success? ==> forall id :: id in r.value ==> r.value[id].needsRestock && r.value[id].warehouseId == w
  {
    if w in db.warehouses then Success(RespondAll(db, FindItemsBelowReorderPointByWarehouse(db.inventory, w)))
    else Failure(WarehouseNotFound(w))
  }

  /** The two reorder queries select exactly the rows `mapToInventoryResponse` flags. */
  lemma ReorderQueriesMatchNeedsRestock(inv: Inventory, w: WarehouseId, id: ItemId)
    requires id in inv
    ensures id in FindItemsBelowReorderPoint(inv) <==> NeedsRestock(inv[id])
    ensures id in FindItemsBelowReorderPointByWarehouse(inv, w) <==> NeedsRestock(inv[id]) && inv[id].warehouseId == w
  {
  }

  // ---------------------------------------------------------------------------
  // Create, update, delete

  /** The row a request describes. */
  function RequestedItem(request: InventoryRequest): InventoryItem {
    InventoryItem(request.itemName, request.description, request.sku, request.quantity, request.reorderPoint,
                  request.reorderQuantity, request.unitPrice, request.warehouseId)
  }

  /**
   * `createInventory`: an unknown warehouse fails, a SKU the warehouse already stocks fails, and otherwise
   * the request is stored under the next generated key.
   */
  method CreateInventory(db: Database, request: InventoryRequest) returns (result: Result<InventoryResponse, ServiceError>)
    requires db.Valid()
    modifies db
    ensures db.Valid()
    ensures request.warehouseId !in old(db.warehouses) ==> result == Failure(WarehouseNotFound(request.warehouseId))
    ensures request.warehouseId in old(db.warehouses) && FindBySkuAndWarehouse(old(db.inventory), request.sku, request.warehouseId) != {} ==>
      result == Failure(DuplicateSku(request.sku, old(db.warehouses[request.warehouseId].name)))
    ensures result.Success? <==>
      request.warehouseId in old(db.warehouses) && FindBySkuAndWarehouse(old(db.inventory), request.sku, request.warehouseId) == {}
    ensures result.Failure? ==> unchanged(db)
    ensures result.Success? ==>
      && db.inventory == old(db.inventory)[old(db.nextInventoryId) := RequestedItem(request)]
      && db.nextInventoryId == old(db.nextInventoryId) + 1
      && db.warehouses == old(db.warehouses) && db.users == old(db.users) && db.transfers == old(db.transfers)
      && db.nextWarehouseId == old(db.nextWarehouseId)
      && result.value == MapToInventoryResponse(old(db.nextInventoryId), RequestedItem(request), db.warehouses[request.warehouseId])
  {
    if request.warehouseId !in db.warehouses {
      return Failure(WarehouseNotFound(request.warehouseId));
    }
    var warehouse := db.warehouses[request.warehouseId];
    if FindBySkuAndWarehouse(db.inventory, request.sku, request.warehouseId) != {} {
      return Failure(DuplicateSku(request.sku, warehouse.name));
    }
    var id := db.nextInventoryId;
    OverwriteKeepsSkuUnique(db.inventory, id, RequestedItem(request));
    db.inventory := db.inventory[id := RequestedItem(request)];
    db.nextInventoryId := id + 1;
    result := Success(MapToInventoryResponse(id, RequestedItem(request), warehouse));
  }

  /** A row may take SKU `sku` in warehouse `w` when no other row has that SKU there. */
  predicate SkuFreeFor(inv: Inventory, id: ItemId, sku: string, w: WarehouseId) {
    FindBySkuAndWarehouse(inv, sku, w) <= {id}
  }

  /** Overwriting a row with a SKU free for it in its new warehouse keeps SKUs unique. */
  lemma {:induction false} OverwriteKeepsSkuUnique(inv: Inventory, id: ItemId, item: InventoryItem)
    requires SkuUnique(inv) && SkuFreeFor(inv, id, item.sku, item.warehouseId)
    ensures SkuUnique(inv[id := item])
  {
    forall j | j in inv && inv[j].sku == item.sku && inv[j].warehouseId == item.warehouseId
      ensures j == id
    {
      assert j in FindBySkuAndWarehouse(inv, item.sku, item.warehouseId);
    }
  }

  /**
   * `updateInventory` as written: the SKU lookup runs only when the SKU string changes, so an item moved
   * to another warehouse under its old SKU is never checked against that warehouse's stock.
   */
  function UpdateInventoryAsWritten(inv: Inventory, warehouses: map<WarehouseId, Warehouse>, id: ItemId, request: InventoryRequest)
    : (r: Result<Inventory, ServiceError>)
    ensures r.Success? ==> id in inv && r.value == inv[id := RequestedItem(request)]
    ensures r.Success? <==> (id in inv && request.warehouseId in warehouses &&
      (inv[id].sku == request.sku || FindBySkuAndWarehouse(inv, request.sku, request.warehouseId) == {}))
  {
    if id !in inv then Failure(InventoryNotFound(id))
    else if request.warehouseId !in warehouses then Failure(WarehouseNotFound(request.warehouseId))
    else if inv[id].sku != request.sku && FindBySkuAndWarehouse(inv, request.sku, request.warehouseId) != {} then
      Failure(DuplicateSku(request.sku, warehouses[request.warehouseId].name))
    else Success(inv[id := RequestedItem(request)])
  }

  /**
   * Two warehouses each stock SKU "A"; updating warehouse 1's item to move it to warehouse 2 with SKU
   * "A" is accepted by the code as written and leaves warehouse 2 with two "A" rows.
   */
  lemma UpdateAsWrittenDuplicatesSku()
    ensures var inv := map[1 := InventoryItem("bolt", "", "A", 5, 1, 10, Zero, 1), 2 := InventoryItem("bolt", "", "A", 7, 1, 10, Zero, 2)];
      var warehouses := map[1 := Warehouse("North", "", Zero, None, "", "", true), 2 := Warehouse("South", "", Zero, None, "", "", true)];
      var r := UpdateInventoryAsWritten(inv, warehouses, 1, InventoryRequest("bolt", "", "A", 5, 1, 10, Zero, 2));
      SkuUnique(inv) && r.Success? && !SkuUnique(r.value)
  {
    var inv := map[1 := InventoryItem("bolt", "", "A", 5, 1, 10, Zero, 1), 2 := InventoryItem("bolt", "", "A", 7, 1, 10, Zero, 2)];
    var after := inv[1 := InventoryItem("bolt", "", "A", 5, 1, 10, Zero, 2)];
    assert after[1].warehouseId == after[2].warehouseId && after[1].sku == after[2].sku;
  }

  /** Where the warehouse stays the same the corrected check and the one as written accept the same updates. */
  lemma UpdateChecksAgreeWithinWarehouse(inv: Inventory, id: ItemId, request: InventoryRequest)
    requires SkuUnique(inv) && id in inv && inv[id].warehouseId == request.warehouseId
    ensures SkuFreeFor(inv, id, request.sku, request.warehouseId) <==>
      (inv[id].sku == request.sku || FindBySkuAndWarehouse(inv, request.sku, request.warehouseId) == {})
  {
    if inv[id].sku == request.sku {
      forall j | j in FindBySkuAndWarehouse(inv, request.sku, request.warehouseId)
        ensures j == id
      {
      }
    }
  }

  /**
   * `updateInventory`, with the SKU check applied whenever the SKU or the warehouse changes: an unknown
   * item fails, then an unknown warehouse, then a SKU another row already has in the target warehouse;
   * otherwise the row is overwritten in place with the request.
   */
  method UpdateInventory(db: Database, id: ItemId, request: InventoryRequest) returns (result: Result<InventoryResponse, ServiceError>)
    requires db.Valid()
    modifies db
    ensures db.Valid()
    ensures id !in old(db.inventory) ==> result == Failure(InventoryNotFound(id))
    ensures id in old(db.inventory) && request.warehouseId !in old(db.warehouses) ==>
      result == Failure(WarehouseNotFound(request.warehouseId))
    ensures id in old(db.inventory) && request.warehouseId in old(db.warehouses) && !SkuFreeFor(old(db.inventory), id, request.sku, request.warehouseId) ==>
      result == Failure(DuplicateSku(request.sku, old(db.warehouses[request.warehouseId].name)))
    ensures result.Success? <==>
      id in old(db.inventory) && request.warehouseId in old(db.warehouses) && SkuFreeFor(old(db.inventory), id, request.sku, request.warehouseId)
    ensures result.Failure? ==> unchanged(db)
    ensures result.Success? ==>
      && id in old(db.inventory)
      && db.inventory == old(db.inventory)[id := RequestedItem(request)]
      && db.nextInventoryId == old(db.nextInventoryId)
      && db.warehouses == old(db.warehouses) && db.users == old(db.users) && db.transfers == old(db.transfers)
      && db.nextWarehouseId == old(db.nextWarehouseId)
      && result.value == MapToInventoryResponse(id, RequestedItem(request), db.warehouses[request.warehouseId])
  {
    if id !in db.inventory {
      return Failure(InventoryNotFound(id));
    }
    if request.warehouseId !in db.warehouses {
      return Failure(WarehouseNotFound(request.warehouseId));
    }
    var item := db.inventory[id];
    var warehouse := db.warehouses[request.warehouseId];
    if item.sku != request.sku || item.warehouseId != request.warehouseId {
      if FindBySkuAndWarehouse(db.inventory, request.sku, request.warehouseId) != {} {
        assert id !in FindBySkuAndWarehouse(db.inventory, request.sku, request.warehouseId);
        return Failure(DuplicateSku(request.sku, warehouse.name));
      }
    } else {
      UpdateChecksAgreeWithinWarehouse(db.inventory, id, request);
    }
    OverwriteKeepsSkuUnique(db.inventory, id, RequestedItem(request));
    db.inventory := db.inventory[id := RequestedItem(request)];
    result := Success(MapToInventoryResponse(id, RequestedItem(request), warehouse));
  }

  /** `deleteInventory`: an unknown id fails; otherwise the row is removed. */
  method DeleteInventory(db: Database, id: ItemId) returns (outcome: Outcome<ServiceError>)
    requires db.Valid()
    modifies db
    ensures db.Valid()
    ensures outcome.Pass? <==> id in old(db.inventory)
    ensures outcome.Fail? ==> outcome.error == InventoryNotFound(id) && unchanged(db)
    ensures outcome.Pass? ==>
      && db.inventory == old(db.inventory) - {id}
      && db.nextInventoryId == old(db.nextInventoryId)
      && db.warehouses == old(db.warehouses) && db.users == old(db.users) && db.transfers == old(db.transfers)
      && db.nextWarehouseId == old(db.nextWarehouseId)
  {
    if id !in db.inventory {
      return Fail(InventoryNotFound(id));
    }
    db.inventory := db.inventory - {id};
    outcome := Pass;
  }

  /**
   * `updateInventoryQuantity`: an unknown id fails; a change that would take the (32-bit) quantity below
   * zero fails; otherwise the quantity becomes `current + change`
   * and nothing else moves.
   */
  method UpdateInventoryQuantity(db: Database, id: ItemId, change: int) returns (result: Result<InventoryResponse, ServiceError>)
    requires db.Valid()
    modifies db
    ensures db.Valid()
    ensures id !in old(db.inventory) ==> result == Failure(InventoryNotFound(id))
    ensures id in old(db.inventory) && IntAdd(old(db.inventory[id].quantity), change) < 0 ==>
      result == Failure(BelowZero)
    ensures result.Success? <==> id in old(db.inventory) && IntAdd(old(db.inventory[id].quantity), change) >= 0
    ensures result.Failure? ==> unchanged(db)
    ensures result.Success? ==>
      && id in old(db.inventory)
      && var updated := old(db.inventory[id]).(quantity := IntAdd(old(db.inventory[id].quantity), change));
      && updated.quantity >= 0
      && db.inventory == old(db.inventory)[id := updated]
      && db.nextInventoryId == old(db.nextInventoryId)
      && db.warehouses == old(db.warehouses) && db.users == old(db.users) && db.transfers == old(db.transfers)
      && db.nextWarehouseId == old(db.nextWarehouseId)
      && result.value == Respond(db, id)
    ensures old(StockNonNegative(db.inventory)) ==> StockNonNegative(db.inventory)
  {
    if id !in db.inventory {
      return Failure(InventoryNotFound(id));
    }
    var item := db.inventory[id];
    var newQuantity := IntAdd(item.quantity, change);
    if newQuantity < 0 {
      return Failure(BelowZero);
    }
    db.inventory := db.inventory[id := item.(quantity := newQuantity)];
    result := Success(Respond(db, id));
  }

  // ---------------------------------------------------------------------------
  // Transfer

  /** The guard chain of `transferInventory`, in the order the checks run: the first failing check, or `Pass`. */
  function TransferCheck(db: Database, sourceId: ItemId, dest: WarehouseId, quantity: int, userId: UserId): (r: Outcome<ServiceError>)
    reads db
    ensures r.Pass? ==> quantity > 0 && sourceId in db.inventory && quantity <= db.inventory[sourceId].quantity
                        && dest in db.warehouses && userId in db.users
  {
    if quantity <= 0 then Fail(NonPositiveQuantity)
    else if sourceId !in db.inventory then Fail(SourceInventoryNotFound(sourceId))
    else if db.inventory[sourceId].quantity < quantity then Fail(InsufficientQuantity)
    else if dest !in db.warehouses then Fail(DestinationWarehouseNotFound(dest))
    else if userId !in db.users then Fail(UserNotFound(userId))
    else Pass
  }

  /** A transfer into a stored warehouse keeps the item table consistent, the counter moving past a created row. */
  lemma TransferKeepsItemsConsistent(inv: Inventory, next: ItemId, warehouses: map<WarehouseId, Warehouse>,
                                     sourceId: ItemId, dest: WarehouseId, quantity: int)
    requires ItemsConsistent(inv, next, warehouses) && sourceId in inv && dest in warehouses
    ensures ItemsConsistent(Transferred(inv, next, sourceId, dest, quantity),
                            if Merges(inv, sourceId, dest) then next else next + 1, warehouses)
  {
    TransferKeepsSkuUnique(inv, next, sourceId, dest, quantity);
  }

  /**
   * The stock movement inside `transferInventory`: debit the source, look the SKU up in the destination,
   * then credit the row found or save a copy of the source there under the next generated key.
   */
  method MoveStock(db: Database, sourceId: ItemId, dest: WarehouseId, quantity: int)
    requires ItemsConsistent(db.inventory, db.nextInventoryId, db.warehouses)
    requires sourceId in db.inventory && dest in db.warehouses
    modifies db`inventory, db`nextInventoryId
    ensures db.inventory == Transferred(old(db.inventory), old(db.nextInventoryId), sourceId, dest, quantity)
    ensures db.nextInventoryId == if Merges(old(db.inventory), sourceId, dest) then old(db.nextInventoryId) else old(db.nextInventoryId) + 1
    ensures ItemsConsistent(db.inventory, db.nextInventoryId, db.warehouses)
  {
    ghost var before := db.inventory;
    var source := db.inventory[sourceId];
    db.inventory := Debit(db.inventory, sourceId, quantity);
    DebitKeepsLookup(before, sourceId, quantity, source.sku, dest);
    TransferKeepsItemsConsistent(before, db.nextInventoryId, db.warehouses, sourceId, dest, quantity);

    var matches := FindBySkuAndWarehouse(db.inventory, source.sku, dest);
    if matches != {} {
      // Naming an element first gives the solver the witness it needs to show that `:|` can choose one.
      ghost var found := Pick(matches);
      var target :| target in matches;
      MergeStepsTransfer(before, db.nextInventoryId, sourceId, dest, quantity, target);
      db.inventory := Credit(db.inventory, target, quantity);
    } else {
      CreateStepsTransfer(before, db.nextInventoryId, sourceId, dest, quantity);
      db.inventory := db.inventory[db.nextInventoryId := CopyToWarehouse(source, dest, quantity)];
      db.nextInventoryId := db.nextInventoryId + 1;
    }
  }

  /**
   * `transferInventory`: every failed check leaves every table untouched; a transfer that passes them
   * records one transfer, completed at `now`, and leaves the inventory as `Transferred` describes: the
   * source debited, the destination's row for the SKU credited or a copy of the source created there.
   */
  method TransferInventory(db: Database, sourceId: ItemId, dest: WarehouseId, quantity: int, userId: UserId, now: Timestamp)
    returns (outcome: Outcome<ServiceError>)
    requires db.Valid()
    modifies db
    ensures db.Valid()
    ensures outcome == old(TransferCheck(db, sourceId, dest, quantity, userId))
    ensures outcome.Fail? ==> unchanged(db)
    ensures outcome.Pass? ==>
      && sourceId in old(db.inventory)
      && db.inventory == Transferred(old(db.inventory), old(db.nextInventoryId), sourceId, dest, quantity)
      && db.transfers == old(db.transfers) +
           [TransferRecord(old(db.inventory[sourceId].warehouseId), dest, sourceId, quantity, Completed, userId, now, Some(now))]
      && db.nextInventoryId == (if Merges(old(db.inventory), sourceId, dest) then old(db.nextInventoryId) else old(db.nextInventoryId) + 1)
      && db.warehouses == old(db.warehouses) && db.users == old(db.users) && db.nextWarehouseId == old(db.nextWarehouseId)
    ensures old(StockNonNegative(db.inventory)) ==> StockNonNegative(db.inventory)
  {
    outcome := TransferCheck(db, sourceId, dest, quantity, userId);
    if outcome.Fail? {
      return;
    }
    var record := TransferRecord(db.inventory[sourceId].warehouseId, dest, sourceId, quantity, InTransit, userId, now, None);
    db.transfers := db.transfers + [record];

    MoveStock(db, sourceId, dest, quantity);
    if StockNonNegative(old(db.inventory)) {
      TransferKeepsStockNonNegative(old(db.inventory), old(db.nextInventoryId), sourceId, dest, quantity);
    }

    db.transfers := db.transfers[|db.transfers| - 1 := record.(status := Completed, completedAt := Some(now))];
  }
}
