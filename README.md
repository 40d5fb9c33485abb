# ShipInventory core, modelled in Dafny

ShipInventory adds a chute to the ship that stores items. The host holds a list
of item records. Clients see a copy and ask the host to store items. This project
models four parts:

- **The item record** (`ItemData`): four fields. It is built from a live item and
  sent over the network field by field.
- **The inventory store** (`ItemManager`): one sequence of records. It offers a
  sorted copy, selection of instances, a checked total value, and one write
  funnel (`SetItems`) that `Add` and `Remove` use.
- **The blacklist and the trigger decision**: a comma-separated blacklist is parsed
  into normalised names. A first-match-wins rule chain decides whether the chute
  accepts the held item and which hover tip it shows.
- **The despawn guard**: a pre-hook on `NetworkObject.Despawn`. For the chute it
  clears the store, requests a full resync and vetoes the despawn.

Modules follow the source's namespaces:

- `Objects` (`item_data.dfy`): the record, its construction, and the byte codec.
- `Helpers` (`item_manager.dfy`): the store class `ItemManager`, the display sort, the checked sum, blacklist parsing and the decision `Decide`.
- `Patches` (`network_object_patches.dfy`): the guard.

Support modules:

- `Seqs`: LINQ `Where`, `Take` and `Select`, and `List<T>.Remove` and `IndexOf`.
- `Text`: `Split`, `Trim` and `ToLower`.
- `Engine`: engine objects as plain records.
- `Config`: the settings the core reads.
- `Wrappers`: `Option`.

The static class `ItemManager` is one object of the class `ItemManager`. Its
`storedItems` and `blacklist` fields are reassigned by its methods. Two ghost
counters stand for the notifications to the chute: `valueUpdates` counts
`UpdateValue` calls and `itemsAllRequests` counts `RequestItemsAll` calls. The
constant `chuteSpawned` stands for `ChuteInteract.Instance != null`. The source
calls both notifications through `?.`, so nothing is counted when there is no chute.

Engine look-ups become inputs:

- `GetInstanceID()` and `GetItemDataToSave()` are fields of `Engine.Item` and `Engine.GrabbableObject`.
- The `RagdollGrabbableObject` and `VentProp` component queries are booleans.
- `StartOfRound.Instance.inShipPhase` is an argument.
- The configuration values are a `Config.Settings` argument.
- `GetItemName()` is a function argument `nameOf`.
- The culture's `ToLower` is a per-character mapping `lowerChar`, which is how .NET maps case.

The hover tips are the symbolic keys of `Engine.Reason`. The literal
"Disabled by HOST" is `DisabledByHost`.

Serialisation writes `ID`, `SCRAP_VALUE`, `SAVE_DATA` and `PERSISTED_THROUGH_ROUNDS`,
in that order. Each 32-bit integer is 4 bytes of two's complement, least
significant first. The boolean is one byte, and a non-zero byte reads back as
true. A record is therefore 13 bytes. A buffer too short for a record decodes to
`None`, because the reader fails on it.

`Enumerable.Sum` over `int` is checked arithmetic. `GetTotalValue` therefore
returns `None` when a running total leaves the 32-bit range, where the source
throws. The fullness test is `count == MaxItemCount`, exactly as written. A store
that is already above the limit is not reported full (`OverCapacityIsNotFull`).

## Model

| member | source | states |
|---|---|---|
| `Objects.FromItem` | Objects/ItemData.cs:19-30 | The id is the definition's instance id. The scrap value is recorded only for scrap and is 0 otherwise. The saved data is recorded only when the definition declares a save variable and is 0 otherwise. The persistence flag is copied. |
| `Objects.SameKindSameId` | Objects/ItemData.cs:21 | Two items with the same definition get the same id, whatever their per-instance state. |
| `Objects.FromItemEqual` | Objects/ItemData.cs:14-29 | Two items give equal records exactly when they agree on the four recorded values: records are compared field by field. |
| `Objects.Encode` | Objects/ItemData.cs:34-40 | The encoding is always 13 bytes: the three integers at bytes 0-3, 4-7 and 8-11 in declaration order, and the flag at byte 12. |
| `Objects.Decode` | Objects/ItemData.cs:34-40 | Decoding fails exactly when fewer than 13 bytes are left. Otherwise it consumes exactly 13 bytes. |
| `Objects.DecodeEncodeInt32` | Objects/ItemData.cs:36-38 | Reading back a written 32-bit field gives the original value. |
| `Objects.EncodeDecodeInt32` | Objects/ItemData.cs:36-38 | Every 4 bytes are the encoding of the value they decode to. |
| `Objects.DecodeEncode` | Objects/ItemData.cs:34-40 | Decoding an encoded record, with any bytes after it, gives back the record and leaves those bytes. |
| `Objects.EncodeDecode` | Objects/ItemData.cs:34-40 | Any frame of at least 13 bytes whose flag byte is 0 or 1 is the encoding of the record it decodes to, followed by the rest. |
| `Objects.EncodeInjective` | Objects/ItemData.cs:34-40 | Distinct records have distinct encodings. |
| `Helpers.ItemManager.constructor` | Helpers/ItemManager.cs:13 | A new manager starts with an empty store and, as initialised at line 85, an empty blacklist. No notification has been sent. |
| `Helpers.ItemManager.GetItems` | Helpers/ItemManager.cs:20-22 | The result is a permutation of the stored items, sorted by name and then by scrap value. Records with equal keys keep their store order, as `OrderBy`/`ThenBy` are stable. The store is only read. |
| `Helpers.KeyLe` | Helpers/ItemManager.cs:21 | The display order: by name first (ordinal), then by scrap value for equal names. `KeyLeTotal` and `KeyLeTransitive` make it a total preorder. |
| `Helpers.SortForDisplay` | Helpers/ItemManager.cs:21 | The insertion sort gives a sorted permutation of its input. |
| `Helpers.SortStable` | Helpers/ItemManager.cs:21 | For every key, the records with that key appear in the sorted result in the same order as in the store. |
| `Helpers.ItemManager.GetInstances` | Helpers/ItemManager.cs:24-32 | The result is always a subsequence of the store, in store order. With count 1: at most one record, it equals `data`, and there is one exactly when `data` is stored. Otherwise: the first records of `data`'s kind in store order, exactly min(count, number stored of that kind) of them, or none when count <= 0. |
| `Helpers.ItemManager.GetTotalValue` | Helpers/ItemManager.cs:34 | The result is the sum of the stored scrap values. It is `None` exactly when some running total of the checked sum leaves the 32-bit range. |
| `Helpers.CheckedSum` | Helpers/ItemManager.cs:34 | The checked left-to-right accumulation that `Enumerable.Sum` performs. It gives `None` at the first running total outside the 32-bit range. Its properties are stated by `TotalValue` and `CheckedSumCorrect`. |
| `Helpers.TotalValue` | Helpers/ItemManager.cs:34 | The checked sum over any sequence gives its mathematical sum, and fails exactly when a running total overflows. |
| `Helpers.CheckedSumCorrect` | Helpers/ItemManager.cs:34 | Left-to-right checked accumulation from any start value succeeds exactly when every running total fits, and then gives the start plus the sum. |
| `Helpers.NonNegativeSumFits` | Helpers/ItemManager.cs:34 | With no negative value, the sum fails only when the final total exceeds the 32-bit maximum. |
| `Helpers.SumAppend` | Helpers/ItemManager.cs:53 | Appending a record adds exactly its scrap value to the sum. |
| `Helpers.SumRemoveFirst` | Helpers/ItemManager.cs:58-63 | Removing a stored record subtracts exactly its scrap value from the sum. |
| `Helpers.ItemManager.SetItems` | Helpers/ItemManager.cs:39-48 | The store becomes the new items. One occupancy notification is sent if the chute exists. One full resync is requested exactly when `updateAll` is set and the chute exists. |
| `Helpers.ItemManager.Add` | Helpers/ItemManager.cs:53 | The store becomes the old store plus the record at the end. The sum grows by its value. One notification is sent if the chute exists, and no full resync is requested. |
| `Helpers.ItemManager.Remove` | Helpers/ItemManager.cs:58-63 | The store loses the first equal record only. When the record is present the sum drops by its value. One notification is sent if the chute exists, and no full resync is requested. |
| `Seqs.RemoveFirst` | Helpers/ItemManager.cs:61 | `List<T>.Remove`: drop the first element equal to x, if any. Its properties are stated by the three lemmas below and `RemoveFirstAt`. |
| `Seqs.RemoveFirstAbsent` | Helpers/ItemManager.cs:61 | Removing an element that is not present leaves the sequence unchanged. |
| `Seqs.RemoveFirstMultiset` | Helpers/ItemManager.cs:61 | Removal takes away exactly one copy of the element from the multiset. When the element is present, the length drops by one. |
| `Seqs.RemoveFirstSubsequence` | Helpers/ItemManager.cs:61 | The remaining elements keep their order: the result is a subsequence of the input. |
| `Seqs.RemoveFirstAt` | Helpers/ItemManager.cs:60-62 | Removing the first element equal to x deletes exactly position i, where i is x's first occurrence. |
| `Seqs.IndexOf` | Helpers/ItemManager.cs:61 | The result is -1 exactly when x is absent. Otherwise it is the first position holding x. |
| `Seqs.Where` | Helpers/ItemManager.cs:28 | The result holds the elements satisfying the predicate, in order, as a subsequence of the input. Its length is their count, and it is empty exactly when none satisfies the predicate. |
| `Seqs.Take` | Helpers/ItemManager.cs:28-31 | The result is the first min(n, length) elements, and none when n <= 0. |
| `Seqs.Select` | Helpers/ItemManager.cs:90 | The result has one element per input element, each the function applied to the element at the same position. |
| `Seqs.SubsequencePrefix` | Helpers/ItemManager.cs:28 | Taking a prefix of a selection keeps it a subsequence of the store. |
| `Helpers.ItemManager.StoreItem` | Helpers/ItemManager.cs:68-80 | Without a chute, nothing is sent. Otherwise a store request carrying the record built from the item is emitted. |
| `Helpers.ItemManager.UpdateBlacklist` | Helpers/ItemManager.cs:86-92 | The blacklist becomes the parse of the text. The store and the notifications are untouched. |
| `Helpers.BlacklistSegments` | Helpers/ItemManager.cs:89 | `Split(',', RemoveEmptyEntries)`: the comma-separated segments except the empty ones, in order. White-space-only segments are kept. Its properties are stated by `BlacklistSegmentsOfText`. |
| `Helpers.ParseBlacklist` | Helpers/ItemManager.cs:88-91 | There is one entry per non-empty comma-separated segment, in input order. Each entry is that segment trimmed and lower-cased. |
| `Helpers.BlacklistSegmentsOfText` | Helpers/ItemManager.cs:89 | The kept segments are non-empty and comma-free. They are a subsequence of all segments, and the segments joined with commas give back the text. |
| `Helpers.WhiteSpaceSegmentIsEmptyEntry` | Helpers/ItemManager.cs:89-90 | A segment of white space only is kept and becomes the empty entry. |
| `Helpers.TwoSegments` | Helpers/ItemManager.cs:89 | Two non-empty comma-free names joined by a comma give exactly those two segments, as in "radio, jar". |
| `Helpers.NameMatchesSegment` | Helpers/ItemManager.cs:164 | An item whose lower-cased name equals a trimmed, lower-cased segment is blacklisted. |
| `Text.Split` | Helpers/ItemManager.cs:89 | Splitting always gives at least one segment, possibly empty. The lemmas below say that no segment contains the separator and that split and join are inverse. |
| `Text.SplitSegmentsHaveNoSeparator` | Helpers/ItemManager.cs:89 | No segment produced by splitting contains the separator. |
| `Text.JoinSplit` | Helpers/ItemManager.cs:89 | Joining the segments with the separator restores the text. |
| `Text.SplitJoin` | Helpers/ItemManager.cs:89 | Splitting a join of separator-free parts recovers the parts, so split and join are inverse. |
| `Text.TrimStart` | Helpers/ItemManager.cs:90 | The result is a suffix of the input. Everything dropped is white space, and the result does not start with white space. |
| `Text.TrimEnd` | Helpers/ItemManager.cs:90 | The result is a prefix of the input. Everything dropped is white space, and the result does not end with white space. |
| `Text.Trim` | Helpers/ItemManager.cs:90 | Trimming never lengthens the string, and a non-empty result neither starts nor ends with white space. |
| `Text.TrimIsInfix` | Helpers/ItemManager.cs:90 | The trimmed string is the contiguous slice of the input that starts after its leading white space. Everything before and after that slice is white space. |
| `Text.TrimEmpty` | Helpers/ItemManager.cs:90 | A string trims to the empty string exactly when it is all white space. |
| `Text.ToLower` | Helpers/ItemManager.cs:90 | Lower-casing keeps the length and maps every character through the culture's case mapping. |
| `Helpers.RadioIsBlacklisted` | Helpers/ItemManager.cs:86-92 | The blacklist "radio, jar" holds an item named "Radio", for any case mapping that lowers "Radio" to "radio" and keeps "radio". |
| `Helpers.BlacklistedItemRefused` | Helpers/ItemManager.cs:163-168 | With no override, EVERYONE permitted, no orbit requirement and room left, a held item on the blacklist is refused as BLACKLISTED. |
| `Helpers.Decide` | Helpers/ItemManager.cs:99-179 | The checks of `UpdateTrigger` in source order, each returning at once. Its properties are stated by `DecideIsFirstMatch`, `DenyMeansFirstFailingRule` and `AllowIff`. |
| `Helpers.PermissionDenied` | Helpers/ItemManager.cs:128-140 | NO_ONE refuses everybody, HOST_ONLY refuses clients, CLIENTS_ONLY refuses the host, and EVERYONE refuses nobody (see `PermissionTable`). |
| `Helpers.IsBlacklisted` | Helpers/ItemManager.cs:164 | The held item's lower-cased name is one of the blacklist entries. |
| `Helpers.NotAllowed` | Helpers/ItemManager.cs:172 | The item has no spawn prefab, or its prefab is a ragdoll, or it is used up. |
| `Helpers.ItemManager.UpdateTrigger` | Helpers/ItemManager.cs:97-180 | On acceptance the trigger becomes interactable and keeps its old tip. On a denial it becomes non-interactable and shows that denial's reason. |
| `Helpers.DecideIsFirstMatch` | Helpers/ItemManager.cs:99-179 | The decision equals the first-match evaluation of the eight-rule table, in source order, with acceptance as the fallback. |
| `Helpers.FirstMatchIsFirstApplicable` | Helpers/ItemManager.cs:99-179 | In a first-match chain the first applicable rule decides. When no rule applies, the fallback decides. |
| `Helpers.DenyMeansFirstFailingRule` | Helpers/ItemManager.cs:99-179 | A reason is reported exactly when its rule applies and no earlier rule does. Of several failing checks, the earliest one is shown. |
| `Helpers.AllowIff` | Helpers/ItemManager.cs:99-179 | The trigger accepts exactly when an object is held, the override is not NEVER, and either the override is ALL or every later check passes. |
| `Helpers.PermissionTable` | Helpers/ItemManager.cs:128-140 | EVERYONE is the only level that admits every caller, and NO_ONE the only one that admits none. HOST_ONLY refuses exactly clients, and CLIENTS_ONLY refuses exactly the host. |
| `Helpers.HostOnlyRefusesClients` | Helpers/ItemManager.cs:128-136 | A client holding an item under HOST_ONLY, without an override, is refused for permission, whatever the occupancy, blacklist or orbit state. |
| `Helpers.OverCapacityIsNotFull` | Helpers/ItemManager.cs:153 | The fullness check is an equality: occupancy above the limit is never reported full. |
| `Helpers.CapacityScenario` | Helpers/ItemManager.cs:153-158 | With capacity 1, an empty store on a new manager accepts a legal item (the returned first state). After its one deposit, the trigger reports the inventory full. |
| `Patches.PreventChuteDespawn` | Patches/NetworkObject_Patches.cs:13-24 | A non-chute object despawns (true) and nothing changes. For the chute the store is emptied, the blacklist is kept, one notification and one full resync are requested (given a chute instance), and the despawn is vetoed (false). |
| `Patches.DespawnChuteTwice` | Patches/NetworkObject_Patches.cs:21 | Intercepting the chute's despawn twice vetoes both and leaves the store empty (idempotent on contents). If the chute exists, it requests one resync per interception. |

## Left out

- Helpers.ItemManager.GetItems: names are compared by ordinal code-point order. The source uses the default, culture-sensitive string comparer, which the model does not have.
- `GetItemName()` (foreign, it looks names up elsewhere) is the `nameOf` argument.
- `ItemData.GetItem` (Objects/ItemData.cs:32): it reads `ItemManager.ALLOWED_ITEMS`, which is not part of this model.
- `Logger.Debug` calls: logging only.
- The text of the hover tips (`Lang.Get`): only the symbolic reason is modelled.
- `item.OnBroughtToShip()` in `StoreItem`: an engine callback. The `StoreItemServerRpc` send is the returned request.
- `ChuteInteract`: its `UpdateValue` and `RequestItemsAll` are counted only. The host's handling of store requests and the resync itself are not part of this model. Whether the chute exists is fixed when the manager is created.
- The byte layout of `BufferSerializer` (little-endian integers, one-byte boolean) is assumed. Only the field order is given by the source.
- Networking between host and clients, concurrency, and Harmony's patching mechanics: the model is one sequential host-side process.
- `Compatibility/LethalConfigCompatibility.cs`: configuration-menu registration with no logic of its own. The settings it exposes arrive as `Config.Settings`.
- The `Config.OverrideMode` values other than NEVER and ALL are one constructor, `NoOverride`. `Config.PermissionLevel` values other than the four named ones are not modelled. Both enums are defined outside the files modelled here.
- Lazy evaluation of the LINQ queries: stored sequences are never changed in place (`Add` builds a new sequence, `Remove` works on a copy), so the sequences behave as values.
