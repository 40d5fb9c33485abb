/**
 * The game-engine objects the core reads, reduced to the attributes it uses.
 * Engine look-ups (`GetInstanceID`, `GetItemDataToSave`, component queries)
 * become plain fields holding their results.
 */
module Engine {
  import opened Wrappers

  type int32 = x: int | -0x8000_0000 <= x < 0x8000_0000

  predicate IsInt32(x: int) { -0x8000_0000 <= x < 0x8000_0000 }

  /** A spawn prefab; only whether it carries a `RagdollGrabbableObject` component matters. */
  datatype Prefab = Prefab(hasRagdollComponent: bool)

  /** An item definition (`Item`, the `itemProperties` of an object); `instanceId` is its `GetInstanceID()`. */
  datatype Item = Item(
    instanceId: int32,
    itemName: string,
    isScrap: bool,
    saveItemVariable: bool,
    spawnPrefab: Option<Prefab>)

  /** A live item in the world (`GrabbableObject`); `dataToSave` is what `GetItemDataToSave()` returns. */
  datatype GrabbableObject = GrabbableObject(
    itemProperties: Item,
    scrapValue: int32,
    dataToSave: int32,
    scrapPersistedThroughRounds: bool,
    itemUsedUp: bool)

  /** The local player (`PlayerControllerB`). */
  datatype Player = Player(
    isHoldingObject: bool,
    currentlyHeldObjectServer: Option<GrabbableObject>,
    isHost: bool)

  /** Symbolic keys of the hover tips the chute trigger can show. */
  datatype Reason =
    | NotHoldingItem
    | DisabledByHost
    | ChutePermissionMissing
    | NotInOrbit
    | InventoryFull
    | ItemBlacklisted
    | ItemNotAllowed

  /** The chute's `InteractTrigger`: whether it can be used and the tip shown when it cannot. */
  class InteractTrigger {
    var interactable: bool
    var disabledHoverTip: Option<Reason>

    constructor (interactable: bool, disabledHoverTip: Option<Reason>)
      ensures this.interactable == interactable && this.disabledHoverTip == disabledHoverTip
    {
      this.interactable := interactable;
      this.disabledHoverTip := disabledHoverTip;
    }
  }

  /** A `NetworkObject` about to be despawned; only whether it has a `VentProp` component matters. */
  datatype NetworkObject = NetworkObject(hasVentProp: bool)
}
