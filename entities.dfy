/** The persisted entities the services work on, and the exceptions they throw. */
module Entities {
  import opened Wrappers
  import opened Users

  type ItemId = int
  type WarehouseId = int
  type Timestamp = int

  /** A `BigDecimal` as its unscaled value and scale; the core only copies these or defaults them. */
  datatype Decimal = Decimal(unscaled: int, scale: nat)

  /** `BigDecimal.ZERO`. */
  const Zero: Decimal := Decimal(0, 0)

  /** An `Inventory` row; its identity is its key in the store and `warehouseId` names its owning warehouse. */
  datatype InventoryItem = InventoryItem(
    itemName: string,
    description: string,
    sku: string,
    quantity: int,
    reorderPoint: int,
    reorderQuantity: int,
    unitPrice: Decimal,
    warehouseId: WarehouseId)

  /** A `Warehouse` row; `manager` is a reference to a user or null, `isActive` the soft-delete flag. */
  datatype Warehouse = Warehouse(
    name: string,
    location: string,
    capacity: Decimal,
    manager: Option<User>,
    contactPhone: string,
    contactEmail: string,
    isActive: bool)

  datatype TransferStatus = InTransit | Completed

  /** An `InventoryTransfer` row. */
  datatype TransferRecord = TransferRecord(
    sourceWarehouseId: WarehouseId,
    destinationWarehouseId: WarehouseId,
    inventoryId: ItemId,
    quantity: int,
    status: TransferStatus,
    initiatedBy: UserId,
    createdAt: Timestamp,
    completedAt: Option<Timestamp>)

  /** The exceptions the two services throw, one constructor per distinct message. */
  datatype ServiceError =
    | InventoryNotFound(inventoryId: ItemId)
    | WarehouseNotFound(warehouseId: WarehouseId)
    | ManagerNotFound(managerId: UserId)
    | DuplicateSku(sku: string, warehouseName: string)
    | BelowZero
    | NonPositiveQuantity
    | SourceInventoryNotFound(sourceId: ItemId)
    | InsufficientQuantity
    | DestinationWarehouseNotFound(destinationId: WarehouseId)
    | UserNotFound(userId: UserId)
    | CreateWarehouseFailed(cause: ServiceError)
    | UpdateWarehouseFailed(cause: ServiceError)
}
