/**
 * The pre-hook on `NetworkObject.Despawn`. Ordinary objects despawn as usual.
 * For the chute (the object carrying a `VentProp`) the hook clears the
 * inventory through `SetItems([], true)`, which also requests a full resync,
 * and vetoes the despawn.
 */
module Patches {
  import opened Engine
  import opened Helpers

  /** Returns whether the original despawn may run. */
  method PreventChuteDespawn(store: ItemManager, instance: NetworkObject) returns (proceed: bool)
    modifies store
    ensures proceed <==> !instance.hasVentProp
    ensures !instance.hasVentProp ==> unchanged(store)
    ensures instance.hasVentProp ==>
      && store.storedItems == []
      && store.blacklist == old(store.blacklist)
      && store.valueUpdates == old(store.valueUpdates) + (if store.chuteSpawned then 1 else 0)
      && store.itemsAllRequests == old(store.itemsAllRequests) + (if store.chuteSpawned then 1 else 0)
  {
    if !instance.hasVentProp {
      return true;
    }
    store.SetItems([], true);
    return false;
  }

  /** Intercepting the chute's despawn twice: both vetoed, the store stays empty, one resync per interception. */
  method DespawnChuteTwice(store: ItemManager) returns (first: bool, second: bool)
    modifies store
    ensures !first && !second
    ensures store.storedItems == [] && store.blacklist == old(store.blacklist)
    ensures store.itemsAllRequests == old(store.itemsAllRequests) + (if store.chuteSpawned then 2 else 0)
  {
    var chute := NetworkObject(true);
    first := PreventChuteDespawn(store, chute);
    assert store.storedItems == [];
    second := PreventChuteDespawn(store, chute);
  }
}
