/**
 * The database behind the repositories: the inventory, warehouse, user and transfer tables, with the
 * identity counters that stand for the generated keys.
 */
module Store {
  import opened Wrappers
  import opened Users
  import opened Entities
  import opened InventoryRepository

  class Database {
    var inventory: Inventory
    var nextInventoryId: ItemId
    var warehouses: map<WarehouseId, Warehouse>
    var nextWarehouseId: WarehouseId
    var users: map<UserId, User>
    var transfers: seq<TransferRecord>

    /**
     * What the services keep between calls: SKUs are unique per warehouse, every item belongs to a stored
     * warehouse, every manager is a stored user, keys lie below the next generated key, and every stored
     * transfer has been completed.
     */
    ghost predicate Valid()
      reads this
    {
      && ItemsConsistent(inventory, nextInventoryId, warehouses)
      && WarehousesConsistent(warehouses, nextWarehouseId, users)
      && UsersConsistent(users)
      && TransfersFinished(transfers)
    }

    /** Generated keys start at 1, as an identity column does. */
    constructor (users: map<UserId, User>)
      requires forall u :: u in users ==> users[u].userId == u
      ensures Valid()
      ensures inventory == map[] && warehouses == map[] && transfers == [] && this.users == users
    {
      inventory := map[];
      nextInventoryId := 1;
      warehouses := map[];
      nextWarehouseId := 1;
      this.users := users;
      transfers := [];
    }
  }

  /** A transfer that reached `COMPLETED`, with its completion time no earlier than its creation. */
  predicate Finished(t: TransferRecord) {
    t.status == Completed && t.completedAt.Some? && t.createdAt <= t.completedAt.value
  }

  /** SKUs are unique per warehouse, keys lie below the next generated key, and every owner is stored. */
  ghost predicate ItemsConsistent(inventory: Inventory, nextInventoryId: ItemId, warehouses: map<WarehouseId, Warehouse>) {
    && SkuUnique(inventory)
    && (forall id :: id in inventory ==> id < nextInventoryId && inventory[id].warehouseId in warehouses)
  }

  /** Keys lie below the next generated key, and every manager is the stored user with its id. */
  ghost predicate WarehousesConsistent(warehouses: map<WarehouseId, Warehouse>, nextWarehouseId: WarehouseId, users: map<UserId, User>) {
    && (forall w :: w in warehouses ==> w < nextWarehouseId)
    && (forall w :: w in warehouses && warehouses[w].manager.Some? ==> ManagedBy(warehouses[w], users))
  }

  /** The warehouse's manager is stored under its own id. */
  ghost predicate ManagedBy(w: Warehouse, users: map<UserId, User>)
    requires w.manager.Some?
  {
    w.manager.value.userId in users && users[w.manager.value.userId] == w.manager.value
  }

  /** Every user is stored under its own id. */
  ghost predicate UsersConsistent(users: map<UserId, User>) {
    forall u :: u in users ==> users[u].userId == u
  }

  /** Every stored transfer is finished. */
  ghost predicate TransfersFinished(transfers: seq<TransferRecord>) {
    forall i :: 0 <= i < |transfers| ==> Finished(transfers[i])
  }
}
