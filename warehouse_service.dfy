/**
 * `WarehouseService`: warehouse reads, create and update with manager resolution and capacity defaulting,
 * and the soft delete, as methods over the `Database`.
 */
module WarehouseService {
  import opened Wrappers
  import opened Users
  import opened Entities
  import opened Store

  /** The request body for create and update; a null capacity or manager id is `None`. */
  datatype WarehouseRequest = WarehouseRequest(
    name: string,
    location: string,
    capacity: Option<Decimal>,
    managerId: Option<UserId>,
    contactPhone: string,
    contactEmail: string)

  /** What every read and write hands back for one warehouse. */
  datatype WarehouseResponse = WarehouseResponse(
    warehouseId: WarehouseId,
    name: string,
    location: string,
    capacity: Decimal,
    managerId: Option<UserId>,
    managerName: Option<string>,
    contactPhone: string,
    contactEmail: string,
    isActive: bool)

  /**
   * `mapToWarehouseResponse`: the manager's id and name are null exactly when the warehouse has no
   * manager, and are that manager's otherwise; the other fields are the row's.
   */
  function MapToWarehouseResponse(id: WarehouseId, w: Warehouse): (r: WarehouseResponse)
    ensures r.managerId.None? <==> w.manager.None?
    ensures r.managerName.None? <==> w.manager.None?
    ensures w.manager.Some? ==> r.managerId == Some(w.manager.value.userId) && r.managerName == Some(w.manager.value.username)
    ensures r.warehouseId == id && r.name == w.name && r.location == w.location && r.capacity == w.capacity
    ensures r.contactPhone == w.contactPhone && r.contactEmail == w.contactEmail && r.isActive == w.isActive
  {
    WarehouseResponse(id, w.name, w.location, w.capacity,
                      if w.manager.Some? then Some(w.manager.value.userId) else None,
                      if w.manager.Some? then Some(w.manager.value.username) else None,
                      w.contactPhone, w.contactEmail, w.isActive)
  }

  /** The manager a request names: none for a null id, the stored user for a known id, "Manager not found" otherwise. */
  function ResolveManager(users: map<UserId, User>, managerId: Option<UserId>): (r: Result<Option<User>, ServiceError>)
    ensures managerId.None? ==> r == Success(None)
    ensures managerId.Some? && managerId.value in users ==> r == Success(Some(users[managerId.value]))
    ensures managerId.Some? && managerId.value !in users ==> r == Failure(ManagerNotFound(managerId.value))
  {
    match managerId
    case None => Success(None)
    case Some(m) => if m in users then Success(Some(users[m])) else Failure(ManagerNotFound(m))
  }

  /** The capacity to store: the requested one, or `fallback` when the request leaves it null. */
  function CapacityOrDefault(requested: Option<Decimal>, fallback: Decimal): (c: Decimal)
    ensures requested.Some? ==> c == requested.value
    ensures requested.None? ==> c == fallback
  {
    if requested.Some? then requested.value else fallback
  }

  /** The row a request describes, given its resolved manager, capacity and active flag. */
  function RequestedWarehouse(request: WarehouseRequest, manager: Option<User>, capacity: Decimal, isActive: bool): Warehouse {
    Warehouse(request.name, request.location, capacity, manager, request.contactPhone, request.contactEmail, isActive)
  }

  /** A resolved manager is stored under its own id, so it keeps the warehouse table consistent. */
  lemma ResolvedManagerIsStored(users: map<UserId, User>, managerId: Option<UserId>)
    requires UsersConsistent(users) && ResolveManager(users, managerId).Success?
    ensures var m := ResolveManager(users, managerId).value;
      m.Some? ==> m.value.userId in users && users[m.value.userId] == m.value
  {
  }

  // ---------------------------------------------------------------------------
  // Reads

  /** `getAllWarehouses`: one response per stored warehouse, active or not; list order is not modelled. */
  function GetAllWarehouses(db: Database): (r: map<WarehouseId, WarehouseResponse>)
    reads db
    ensures r.Keys == db.warehouses.Keys
    ensures forall w :: w in r ==> r[w] == MapToWarehouseResponse(w, db.warehouses[w])
  {
    map w | w in db.warehouses :: MapToWarehouseResponse(w, db.warehouses[w])
  }

  /** `getWarehouseById`: the warehouse's response, or "Warehouse not found". */
  function GetWarehouseById(db: Database, id: WarehouseId): (r: Result<WarehouseResponse, ServiceError>)
    reads db
    ensures r.Success? <==> id in db.warehouses
    ensures r.Failure? ==> r.error == WarehouseNotFound(id)
    ensures r.Success? ==> r.value.warehouseId == id && r.value.isActive == db.warehouses[id].isActive
  {
    if id in db.warehouses then Success(MapToWarehouseResponse(id, db.warehouses[id])) else Failure(WarehouseNotFound(id))
  }

  /** `getWarehousesByManager`: an unknown user fails; otherwise the warehouses that user manages. */
  function GetWarehousesByManager(db: Database, managerId: UserId): (r: Result<map<WarehouseId, WarehouseResponse>, ServiceError>)
    reads db
    ensures r.Success? <==> managerId in db.users
    ensures r.Failure? ==> r.error == ManagerNotFound(managerId)
    ensures r.Success? ==> forall w :: w in r.value <==>
      w in db.warehouses && db.warehouses[w].manager.Some? && db.warehouses[w].manager.value.userId == managerId
    ensures r.Success? ==> forall w :: w in r.value ==> r.value[w].managerId == Some(managerId)
  {
    if managerId !in db.users then Failure(ManagerNotFound(managerId))
    else Success(map w | w in db.warehouses && db.warehouses[w].manager.Some? && db.warehouses[w].manager.value.userId == managerId
                   :: MapToWarehouseResponse(w, db.warehouses[w]))
  }

  // ---------------------------------------------------------------------------
  // Writes

  /**
   * `createWarehouse`: a manager id that names no user fails, wrapped as "Failed to create warehouse";
   * otherwise a new active warehouse is stored under the next generated key, with capacity 0 when the
   * request gives none.
   */
  method CreateWarehouse(db: Database, request: WarehouseRequest) returns (result: Result<WarehouseResponse, ServiceError>)
    requires db.Valid()
    modifies db
    ensures db.Valid()
    ensures request.managerId.Some? && request.managerId.value !in old(db.users) ==>
      result == Failure(CreateWarehouseFailed(ManagerNotFound(request.managerId.value)))
    ensures result.Success? <==> ResolveManager(old(db.users), request.managerId).Success?
    ensures result.Failure? ==> unchanged(db)
    ensures result.Success? ==>
      && ResolveManager(old(db.users), request.managerId).Success?
      && var stored := RequestedWarehouse(request, ResolveManager(old(db.users), request.managerId).value,
                                          CapacityOrDefault(request.capacity, Zero), true);
      && db.warehouses == old(db.warehouses)[old(db.nextWarehouseId) := stored]
      && db.nextWarehouseId == old(db.nextWarehouseId) + 1
      && db.inventory == old(db.inventory) && db.nextInventoryId == old(db.nextInventoryId)
      && db.users == old(db.users) && db.transfers == old(db.transfers)
      && result.value == MapToWarehouseResponse(old(db.nextWarehouseId), stored)
  {
    var manager := ResolveManager(db.users, request.managerId);
    if manager.Failure? {
      return Failure(CreateWarehouseFailed(manager.error));
    }
    ResolvedManagerIsStored(db.users, request.managerId);
    var capacity := CapacityOrDefault(request.capacity, Zero);
    var warehouse := RequestedWarehouse(request, manager.value, capacity, true);
    var id := db.nextWarehouseId;
    db.warehouses := db.warehouses[id := warehouse];
    db.nextWarehouseId := id + 1;
    result := Success(MapToWarehouseResponse(id, warehouse));
  }

  /**
   * `updateWarehouse`: an unknown id, then an unknown manager id, fail, wrapped as "Failed to update
   * warehouse"; otherwise name, location and contacts are overwritten, a null capacity keeps the stored
   * one, a null manager id clears the manager, and the active flag is kept.
   */
  method UpdateWarehouse(db: Database, id: WarehouseId, request: WarehouseRequest) returns (result: Result<WarehouseResponse, ServiceError>)
    requires db.Valid()
    modifies db
    ensures db.Valid()
    ensures id !in old(db.warehouses) ==> result == Failure(UpdateWarehouseFailed(WarehouseNotFound(id)))
    ensures id in old(db.warehouses) && request.managerId.Some? && request.managerId.value !in old(db.users) ==>
      result == Failure(UpdateWarehouseFailed(ManagerNotFound(request.managerId.value)))
    ensures result.Success? <==> id in old(db.warehouses) && ResolveManager(old(db.users), request.managerId).Success?
    ensures result.Failure? ==> unchanged(db)
    ensures result.Success? ==>
      && id in old(db.warehouses)
      && ResolveManager(old(db.users), request.managerId).Success?
      && var stored := RequestedWarehouse(request, ResolveManager(old(db.users), request.managerId).value,
                                          CapacityOrDefault(request.capacity, old(db.warehouses[id].capacity)),
                                          old(db.warehouses[id].isActive));
      && db.warehouses == old(db.warehouses)[id := stored]
      && db.nextWarehouseId == old(db.nextWarehouseId)
      && db.inventory == old(db.inventory) && db.nextInventoryId == old(db.nextInventoryId)
      && db.users == old(db.users) && db.transfers == old(db.transfers)
      && result.value == MapToWarehouseResponse(id, stored)
  {
    if id !in db.warehouses {
      return Failure(UpdateWarehouseFailed(WarehouseNotFound(id)));
    }
    var current := db.warehouses[id];
    var manager := ResolveManager(db.users, request.managerId);
    if manager.Failure? {
      return Failure(UpdateWarehouseFailed(manager.error));
    }
    ResolvedManagerIsStored(db.users, request.managerId);
    var capacity := CapacityOrDefault(request.capacity, current.capacity);
    var warehouse := RequestedWarehouse(request, manager.value, capacity, current.isActive);
    db.warehouses := db.warehouses[id := warehouse];
    result := Success(MapToWarehouseResponse(id, warehouse));
  }

  /** The table after a soft delete of `id`: the row stays, marked inactive. */
  function Deactivate(warehouses: map<WarehouseId, Warehouse>, id: WarehouseId): map<WarehouseId, Warehouse>
    requires id in warehouses
  {
    warehouses[id := warehouses[id].(isActive := false)]
  }

  /**
   * A soft delete keeps every key and every other row, clears only the active flag of `id`, and doing it
   * twice is the same as doing it once.
   */
  lemma DeactivateIsSoftAndIdempotent(warehouses: map<WarehouseId, Warehouse>, id: WarehouseId)
    requires id in warehouses
    ensures Deactivate(warehouses, id).Keys == warehouses.Keys
    ensures Deactivate(warehouses, id)[id] == warehouses[id].(isActive := false)
    ensures forall w :: w in warehouses && w != id ==> Deactivate(warehouses, id)[w] == warehouses[w]
    ensures Deactivate(Deactivate(warehouses, id), id) == Deactivate(warehouses, id)
  {
  }

  /** `deleteWarehouse`: an unknown id fails; otherwise the warehouse is marked inactive and kept. */
  method DeleteWarehouse(db: Database, id: WarehouseId) returns (outcome: Outcome<ServiceError>)
    requires db.Valid()
    modifies db
    ensures db.Valid()
    ensures outcome.Pass? <==> id in old(db.warehouses)
    ensures outcome.Fail? ==> outcome.error == WarehouseNotFound(id) && unchanged(db)
    ensures outcome.Pass? ==>
      && db.warehouses == Deactivate(old(db.warehouses), id)
      && db.nextWarehouseId == old(db.nextWarehouseId)
      && db.inventory == old(db.inventory) && db.nextInventoryId == old(db.nextInventoryId)
      && db.users == old(db.users) && db.transfers == old(db.transfers)
  {
    if id !in db.warehouses {
      return Fail(WarehouseNotFound(id));
    }
    db.warehouses := Deactivate(db.warehouses, id);
    outcome := Pass;
  }
}
