/**
 * What a successful `transferInventory` does to the inventory table, stated per item rather than as the
 * sequence of saves the service performs, and the conservation facts that follow from it.
 */
module Ledger {
  import opened Entities
  import opened InventoryRepository

  /** The item created in the destination when it has nothing with the source's SKU. */
  function CopyToWarehouse(source: InventoryItem, dest: WarehouseId, quantity: int): InventoryItem {
    InventoryItem(source.itemName, source.description, source.sku, quantity,
                  source.reorderPoint, source.reorderQuantity, source.unitPrice, dest)
  }

  /** Item `id` carries the source item's SKU in the destination warehouse: a candidate for the merge. */
  predicate IsMergeTarget(inv: Inventory, sourceId: ItemId, dest: WarehouseId, id: ItemId)
    requires sourceId in inv && id in inv
  {
    inv[id].sku == inv[sourceId].sku && inv[id].warehouseId == dest
  }

  /** The destination already stocks the source's SKU, so the transfer merges instead of creating. */
  predicate Merges(inv: Inventory, sourceId: ItemId, dest: WarehouseId)
    requires sourceId in inv
  {
    FindBySkuAndWarehouse(inv, inv[sourceId].sku, dest) != {}
  }

  /** The change in item `id`'s quantity: the source loses `quantity`, a merge target gains it. */
  function Delta(inv: Inventory, sourceId: ItemId, dest: WarehouseId, quantity: int, id: ItemId): int
    requires sourceId in inv && id in inv
  {
    (if id == sourceId then -quantity else 0) + (if IsMergeTarget(inv, sourceId, dest, id) then quantity else 0)
  }

  /**
   * The inventory after moving `quantity` units of item `sourceId` to warehouse `dest`: every existing item
   * changes by its `Delta`, and when the destination has no item with the SKU a copy appears under `newId`.
   */
  function Transferred(inv: Inventory, newId: ItemId, sourceId: ItemId, dest: WarehouseId, quantity: int): Inventory
    requires sourceId in inv && newId !in inv
  {
    var moved := map id | id in inv :: inv[id].(quantity := inv[id].quantity + Delta(inv, sourceId, dest, quantity, id));
    if Merges(inv, sourceId, dest) then moved else moved[newId := CopyToWarehouse(inv[sourceId], dest, quantity)]
  }

  // ---------------------------------------------------------------------------
  // Sums of quantities

  /** The summed quantity of the items `ids`. */
  ghost function QuantitySum(inv: Inventory, ids: set<ItemId>): int
    requires ids <= inv.Keys
    decreases ids
  {
    if ids == {} then 0 else var id := Pick(ids); inv[id].quantity + QuantitySum(inv, ids - {id})
  }

  /** The items with SKU `sku` held in the warehouses `ws`. */
  function Holdings(inv: Inventory, sku: string, ws: set<WarehouseId>): set<ItemId> {
    set id | id in inv && inv[id].sku == sku && inv[id].warehouseId in ws
  }

  /** The stock of SKU `sku` across the warehouses `ws`. */
  ghost function SkuStock(inv: Inventory, sku: string, ws: set<WarehouseId>): int {
    QuantitySum(inv, Holdings(inv, sku, ws))
  }

  /** Any one item can be taken out of a sum first. */
  lemma {:induction false} QuantitySumRemove(inv: Inventory, ids: set<ItemId>, x: ItemId)
    requires ids <= inv.Keys && x in ids
    ensures QuantitySum(inv, ids) == inv[x].quantity + QuantitySum(inv, ids - {x})
    decreases ids
  {
    var y := Pick(ids);
    if y != x {
      QuantitySumRemove(inv, ids - {y}, x);
      QuantitySumRemove(inv, ids - {x}, y);
      assert ids - {y} - {x} == ids - {x} - {y};
    }
  }

  /** Sums over items whose quantities agree in two tables are equal. */
  lemma {:induction false} QuantitySumAgree(a: Inventory, b: Inventory, ids: set<ItemId>)
    requires ids <= a.Keys && ids <= b.Keys
    requires forall id :: id in ids ==> a[id].quantity == b[id].quantity
    ensures QuantitySum(a, ids) == QuantitySum(b, ids)
    decreases ids
  {
    if ids != {} {
      var x := Pick(ids);
      QuantitySumRemove(a, ids, x);
      QuantitySumRemove(b, ids, x);
      QuantitySumAgree(a, b, ids - {x});
    }
  }

  // ---------------------------------------------------------------------------
  // Properties of a transfer

  /** The merge candidates are exactly what `findBySkuAndWarehouse` returns for the source's SKU. */
  lemma MergeTargetsAreFound(inv: Inventory, sourceId: ItemId, dest: WarehouseId)
    requires sourceId in inv
    ensures forall id :: id in inv ==> (IsMergeTarget(inv, sourceId, dest, id) <==> id in FindBySkuAndWarehouse(inv, inv[sourceId].sku, dest))
  {
  }

  /**
   * Quantities only: the source loses `quantity` unless the destination is its own warehouse (then the
   * merge hands the units straight back), the one merge target gains `quantity`, every other existing
   * item keeps its row, and in the create case the new row copies the source's descriptive fields.
   */
  lemma TransferEffect(inv: Inventory, newId: ItemId, sourceId: ItemId, dest: WarehouseId, quantity: int)
    requires SkuUnique(inv) && sourceId in inv && newId !in inv
    ensures var after := Transferred(inv, newId, sourceId, dest, quantity);
      && sourceId in after
      && after[sourceId] == inv[sourceId].(quantity := if dest == inv[sourceId].warehouseId then inv[sourceId].quantity
                                                       else inv[sourceId].quantity - quantity)
      && (forall id :: id in inv && id != sourceId && !IsMergeTarget(inv, sourceId, dest, id) ==> after[id] == inv[id])
      && (forall id :: id in inv && id != sourceId && IsMergeTarget(inv, sourceId, dest, id) ==>
            after[id] == inv[id].(quantity := inv[id].quantity + quantity))
  {
  }

  /** Merge case: no item is created, and the destination's item with the SKU gains exactly `quantity`. */
  lemma TransferMerges(inv: Inventory, newId: ItemId, sourceId: ItemId, dest: WarehouseId, quantity: int, target: ItemId)
    requires SkuUnique(inv) && sourceId in inv && newId !in inv
    requires target in FindBySkuAndWarehouse(inv, inv[sourceId].sku, dest) && target != sourceId
    ensures Transferred(inv, newId, sourceId, dest, quantity).Keys == inv.Keys
    ensures Transferred(inv, newId, sourceId, dest, quantity)[target].quantity == inv[target].quantity + quantity
  {
  }

  /**
   * Create case: exactly one item is added, under `newId`, in the destination, holding `quantity` units and
   * the source's name, description, SKU, reorder point, reorder quantity and unit price.
   */
  lemma TransferCreates(inv: Inventory, newId: ItemId, sourceId: ItemId, dest: WarehouseId, quantity: int)
    requires sourceId in inv && newId !in inv
    requires FindBySkuAndWarehouse(inv, inv[sourceId].sku, dest) == {}
    ensures var after := Transferred(inv, newId, sourceId, dest, quantity);
      && after.Keys == inv.Keys + {newId}
      && after[newId].quantity == quantity
      && after[newId].warehouseId == dest
      && after[newId].itemName == inv[sourceId].itemName
      && after[newId].description == inv[sourceId].description
      && after[newId].sku == inv[sourceId].sku
      && after[newId].reorderPoint == inv[sourceId].reorderPoint
      && after[newId].reorderQuantity == inv[sourceId].reorderQuantity
      && after[newId].unitPrice == inv[sourceId].unitPrice
  {
  }

  /** Moving stock into the source's own warehouse merges it back into the source: the table is unchanged. */
  lemma TransferWithinWarehouseIsIdentity(inv: Inventory, newId: ItemId, sourceId: ItemId, quantity: int)
    requires SkuUnique(inv) && sourceId in inv && newId !in inv
    ensures Transferred(inv, newId, sourceId, inv[sourceId].warehouseId, quantity) == inv
  {
    var dest := inv[sourceId].warehouseId;
    assert sourceId in FindBySkuAndWarehouse(inv, inv[sourceId].sku, dest);
    var after := Transferred(inv, newId, sourceId, dest, quantity);
    forall id | id in inv
      ensures after[id] == inv[id]
    {
    }
  }

  /** A transfer keeps at most one item per SKU in each warehouse. */
  lemma TransferKeepsSkuUnique(inv: Inventory, newId: ItemId, sourceId: ItemId, dest: WarehouseId, quantity: int)
    requires SkuUnique(inv) && sourceId in inv && newId !in inv
    ensures SkuUnique(Transferred(inv, newId, sourceId, dest, quantity))
  {
    var after := Transferred(inv, newId, sourceId, dest, quantity);
    MergeTargetsAreFound(inv, sourceId, dest);
  }

  /** A transfer that passed the quantity checks leaves no quantity negative. */
  lemma TransferKeepsStockNonNegative(inv: Inventory, newId: ItemId, sourceId: ItemId, dest: WarehouseId, quantity: int)
    requires StockNonNegative(inv) && sourceId in inv && newId !in inv
    requires 0 < quantity <= inv[sourceId].quantity
    ensures StockNonNegative(Transferred(inv, newId, sourceId, dest, quantity))
  {
  }

  /**
   * Conservation: over any set of warehouses that includes the source's and the destination, the stock of
   * the transferred SKU is the same before and after.
   */
  lemma TransferConservesStock(inv: Inventory, newId: ItemId, sourceId: ItemId, dest: WarehouseId, quantity: int,
                               ws: set<WarehouseId>)
    requires SkuUnique(inv) && sourceId in inv && newId !in inv
    requires inv[sourceId].warehouseId in ws && dest in ws
    ensures SkuStock(Transferred(inv, newId, sourceId, dest, quantity), inv[sourceId].sku, ws)
         == SkuStock(inv, inv[sourceId].sku, ws)
  {
    if dest == inv[sourceId].warehouseId {
      TransferWithinWarehouseIsIdentity(inv, newId, sourceId, quantity);
    } else if Merges(inv, sourceId, dest) {
      MergeConservesStock(inv, newId, sourceId, dest, quantity, ws);
    } else {
      CreateConservesStock(inv, newId, sourceId, dest, quantity, ws);
    }
  }

  /** Conservation when the destination already stocks the SKU: what the source loses, the target gains. */
  lemma MergeConservesStock(inv: Inventory, newId: ItemId, sourceId: ItemId, dest: WarehouseId, quantity: int,
                            ws: set<WarehouseId>)
    requires SkuUnique(inv) && sourceId in inv && newId !in inv
    requires inv[sourceId].warehouseId in ws && dest in ws
    requires dest != inv[sourceId].warehouseId && Merges(inv, sourceId, dest)
    ensures SkuStock(Transferred(inv, newId, sourceId, dest, quantity), inv[sourceId].sku, ws)
         == SkuStock(inv, inv[sourceId].sku, ws)
  {
    var sku := inv[sourceId].sku;
    var after := Transferred(inv, newId, sourceId, dest, quantity);
    var held := Holdings(inv, sku, ws);
    TransferEffect(inv, newId, sourceId, dest, quantity);
    MergeTargetsAreFound(inv, sourceId, dest);
    FindBySkuAndWarehouseAtMostOne(inv, sku, dest);
    var target := Pick(FindBySkuAndWarehouse(inv, sku, dest));
    assert sourceId in held && target != sourceId && target in held;
    assert Holdings(after, sku, ws) == held;
    var rest := held - {sourceId} - {target};
    forall id | id in rest
      ensures after[id].quantity == inv[id].quantity
    {
    }
    QuantitySumRemove(inv, held, sourceId);
    QuantitySumRemove(inv, held - {sourceId}, target);
    QuantitySumRemove(after, held, sourceId);
    QuantitySumRemove(after, held - {sourceId}, target);
    QuantitySumAgree(after, inv, rest);
  }

  /** Conservation when a copy is created: what the source loses, the new row holds. */
  lemma CreateConservesStock(inv: Inventory, newId: ItemId, sourceId: ItemId, dest: WarehouseId, quantity: int,
                             ws: set<WarehouseId>)
    requires SkuUnique(inv) && sourceId in inv && newId !in inv
    requires inv[sourceId].warehouseId in ws && dest in ws
    requires !Merges(inv, sourceId, dest)
    ensures SkuStock(Transferred(inv, newId, sourceId, dest, quantity), inv[sourceId].sku, ws)
         == SkuStock(inv, inv[sourceId].sku, ws)
  {
    var sku := inv[sourceId].sku;
    var after := Transferred(inv, newId, sourceId, dest, quantity);
    var held := Holdings(inv, sku, ws);
    TransferEffect(inv, newId, sourceId, dest, quantity);
    MergeTargetsAreFound(inv, sourceId, dest);
    assert sourceId in held;
    assert Holdings(after, sku, ws) == held + {newId};
    var rest := held - {sourceId};
    forall id | id in rest
      ensures after[id].quantity == inv[id].quantity
    {
    }
    QuantitySumRemove(after, held + {newId}, newId);
    assert held + {newId} - {newId} == held;
    QuantitySumRemove(after, held, sourceId);
    QuantitySumRemove(inv, held, sourceId);
    QuantitySumAgree(after, inv, rest);
  }

  // ---------------------------------------------------------------------------
  // The service's steps

  /** Saving the source with `quantity` fewer units. */
  function Debit(inv: Inventory, sourceId: ItemId, quantity: int): (r: Inventory)
    requires sourceId in inv
    ensures r.Keys == inv.Keys && r[sourceId].quantity == inv[sourceId].quantity - quantity
    ensures forall id :: id in inv ==> r[id].sku == inv[id].sku && r[id].warehouseId == inv[id].warehouseId
  {
    inv[sourceId := inv[sourceId].(quantity := inv[sourceId].quantity - quantity)]
  }

  /** Saving item `id` with `quantity` more units. */
  function Credit(inv: Inventory, id: ItemId, quantity: int): (r: Inventory)
    requires id in inv
    ensures r.Keys == inv.Keys && r[id].quantity == inv[id].quantity + quantity
  {
    inv[id := inv[id].(quantity := inv[id].quantity + quantity)]
  }

  /** The debit leaves the SKU lookup's answer as it was: it changes no SKU and no owner. */
  lemma DebitKeepsLookup(inv: Inventory, sourceId: ItemId, quantity: int, sku: string, w: WarehouseId)
    requires sourceId in inv
    ensures FindBySkuAndWarehouse(Debit(inv, sourceId, quantity), sku, w) == FindBySkuAndWarehouse(inv, sku, w)
  {
  }

  /** Debit, then credit the item the lookup found: the table `Transferred` describes. */
  lemma MergeStepsTransfer(inv: Inventory, newId: ItemId, sourceId: ItemId, dest: WarehouseId, quantity: int, target: ItemId)
    requires SkuUnique(inv) && sourceId in inv && newId !in inv
    requires target in FindBySkuAndWarehouse(Debit(inv, sourceId, quantity), inv[sourceId].sku, dest)
    ensures Credit(Debit(inv, sourceId, quantity), target, quantity) == Transferred(inv, newId, sourceId, dest, quantity)
  {
    DebitKeepsLookup(inv, sourceId, quantity, inv[sourceId].sku, dest);
    FindBySkuAndWarehouseAtMostOne(inv, inv[sourceId].sku, dest);
    MergeTargetsAreFound(inv, sourceId, dest);
    var steps := Credit(Debit(inv, sourceId, quantity), target, quantity);
    var after := Transferred(inv, newId, sourceId, dest, quantity);
    assert steps.Keys == after.Keys;
    forall id | id in inv
      ensures steps[id] == after[id]
    {
    }
  }

  /** Debit, then save a copy in the destination when the lookup found nothing: again `Transferred`. */
  lemma CreateStepsTransfer(inv: Inventory, newId: ItemId, sourceId: ItemId, dest: WarehouseId, quantity: int)
    requires sourceId in inv && newId !in inv
    requires FindBySkuAndWarehouse(Debit(inv, sourceId, quantity), inv[sourceId].sku, dest) == {}
    ensures Debit(inv, sourceId, quantity)[newId := CopyToWarehouse(inv[sourceId], dest, quantity)]
         == Transferred(inv, newId, sourceId, dest, quantity)
  {
    DebitKeepsLookup(inv, sourceId, quantity, inv[sourceId].sku, dest);
    MergeTargetsAreFound(inv, sourceId, dest);
  }

  /**
   * A worked case: 30 of the 100 units of an item in warehouse 1 moved to an empty warehouse 2 leave 70
   * behind and create a 30-unit copy, keyed by the next id.
   */
  lemma TransferToEmptyWarehouseExample()
    ensures var widget := InventoryItem("Widget", "Blue", "W-1", 100, 20, 50, Decimal(250, 2), 1);
      Transferred(map[1 := widget], 2, 1, 2, 30)
        == map[1 := widget.(quantity := 70), 2 := widget.(quantity := 30, warehouseId := 2)]
  {
    var widget := InventoryItem("Widget", "Blue", "W-1", 100, 20, 50, Decimal(250, 2), 1);
    assert FindBySkuAndWarehouse(map[1 := widget], "W-1", 2) == {};
  }
}
