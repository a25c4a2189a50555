/** The finder methods of `InventoryRepository` as filters over the inventory store. */
module InventoryRepository {
  import opened Entities

  /** The inventory table: rows by id. */
  type Inventory = map<ItemId, InventoryItem>

  /** `findByWarehouse`: the items the warehouse owns. */
  function FindByWarehouse(inv: Inventory, w: WarehouseId): set<ItemId> {
    set id | id in inv && inv[id].warehouseId == w
  }

  /** `findBySkuAndWarehouse`, as the set of rows the query matches; Spring returns the one row, or none. */
  function FindBySkuAndWarehouse(inv: Inventory, sku: string, w: WarehouseId): set<ItemId> {
    set id | id in inv && inv[id].sku == sku && inv[id].warehouseId == w
  }

  /** `f` occurs in `s` starting at index `k`. */
  predicate OccursAt(f: string, s: string, k: int) {
    0 <= k && k + |f| <= |s| && s[k..k + |f|] == f
  }

  /** `LIKE '%f%'` with `f` escaped, as derived queries ending in `Containing` issue it. */
  predicate Contains(s: string, f: string) {
    exists k | 0 <= k <= |s| :: OccursAt(f, s, k)
  }

  /** `findByItemNameContaining`: the items whose name contains the fragment. */
  function FindByItemNameContaining(inv: Inventory, fragment: string): set<ItemId> {
    set id | id in inv && Contains(inv[id].itemName, fragment)
  }

  /** `findItemsBelowReorderPoint`: `WHERE i.quantity <= i.reorderPoint`. */
  function FindItemsBelowReorderPoint(inv: Inventory): set<ItemId> {
    set id | id in inv && inv[id].quantity <= inv[id].reorderPoint
  }

  /** `findItemsBelowReorderPointByWarehouse`: `WHERE i.warehouse = ?1 AND i.quantity <= i.reorderPoint`. */
  function FindItemsBelowReorderPointByWarehouse(inv: Inventory, w: WarehouseId): set<ItemId> {
    set id | id in inv && inv[id].warehouseId == w && inv[id].quantity <= inv[id].reorderPoint
  }

  /** No warehouse holds two items with the same SKU: the rule the services keep so that `findBySkuAndWarehouse` is well defined. */
  ghost predicate SkuUnique(inv: Inventory) {
    forall i, j :: i in inv && j in inv && inv[i].warehouseId == inv[j].warehouseId && inv[i].sku == inv[j].sku ==> i == j
  }

  /** Every stored quantity is non-negative. */
  ghost predicate StockNonNegative(inv: Inventory) {
    forall id :: id in inv ==> inv[id].quantity >= 0
  }

  /** Under SKU uniqueness `findBySkuAndWarehouse` matches at most one row, so its `Optional` result is well defined. */
  lemma {:induction false} FindBySkuAndWarehouseAtMostOne(inv: Inventory, sku: string, w: WarehouseId)
    requires SkuUnique(inv)
    ensures |FindBySkuAndWarehouse(inv, sku, w)| <= 1
    ensures forall a, b :: a in FindBySkuAndWarehouse(inv, sku, w) && b in FindBySkuAndWarehouse(inv, sku, w) ==> a == b
  {
    var found := FindBySkuAndWarehouse(inv, sku, w);
    forall a, b | a in found && b in found
      ensures a == b
    {
      assert inv[b].sku == inv[a].sku && inv[b].warehouseId == inv[a].warehouseId;
    }
    SingletonOrEmpty(found);
  }

  /** Some element of a non-empty set. */
  ghost function Pick<T>(s: set<T>): (x: T)
    requires s != {}
    ensures x in s
  {
    var x :| x in s; x
  }

  lemma SingletonOrEmpty<T>(s: set<T>)
    requires forall a, b :: a in s && b in s ==> a == b
    ensures |s| <= 1
  {
    if s != {} {
      var a :| a in s;
      assert s == {a};
    }
  }

  /** Every item is found under its own warehouse and under no other one. */
  lemma FindByWarehousePartitions(inv: Inventory, id: ItemId, w: WarehouseId)
    requires id in inv
    ensures id in FindByWarehouse(inv, w) <==> w == inv[id].warehouseId
  {
  }

  /** The per-warehouse reorder query is the unfiltered one restricted to the warehouse's items. */
  lemma BelowReorderPointByWarehouseIsRestriction(inv: Inventory, w: WarehouseId)
    ensures FindItemsBelowReorderPointByWarehouse(inv, w) == FindItemsBelowReorderPoint(inv) * FindByWarehouse(inv, w)
    ensures FindItemsBelowReorderPointByWarehouse(inv, w) <= FindItemsBelowReorderPoint(inv)
  {
  }

  /** A fragment inside a fragment occurs in every string that contains the outer one. */
  lemma ContainsTransitive(s: string, f: string, g: string)
    requires Contains(s, f) && Contains(f, g)
    ensures Contains(s, g)
  {
    var k :| 0 <= k <= |s| && OccursAt(f, s, k);
    var j :| 0 <= j <= |f| && OccursAt(g, f, j);
    assert 0 <= k + j && k + j + |g| <= |s|;
    forall i | 0 <= i < |g|
      ensures s[k + j + i] == g[i]
    {
      assert g[i] == f[j..j + |g|][i] == f[j + i];
      assert f[j + i] == s[k..k + |f|][j + i];
    }
    assert s[k + j..k + j + |g|] == g;
    assert OccursAt(g, s, k + j);
  }

  /**
   * The name search matches every item for the empty fragment, and narrows as the fragment grows:
   * the items found for `f` are among those found for any fragment `g` inside `f`.
   */
  lemma FindByItemNameContainingMonotonic(inv: Inventory, f: string, g: string)
    requires Contains(f, g)
    ensures FindByItemNameContaining(inv, f) <= FindByItemNameContaining(inv, g)
    ensures FindByItemNameContaining(inv, []) == inv.Keys
  {
    forall id | id in FindByItemNameContaining(inv, f)
      ensures id in FindByItemNameContaining(inv, g)
    {
      ContainsTransitive(inv[id].itemName, f, g);
    }
    forall id | id in inv
      ensures id in FindByItemNameContaining(inv, [])
    {
      assert OccursAt([], inv[id].itemName, 0);
    }
  }
}
