# Allmaps editor store, modelled in Dafny

This project models the state store of the Allmaps georeferencing editor
(`src/store/modules/maps.js` and `src/store/modules/ui.js`). The maps
store keeps an insertion-ordered dictionary of georeferenced maps, which
are keyed by map id. Each map has:

- an image;
- a pixel mask (the vertices of the polygon, in order);
- a dictionary of ground-control points (GCPs).

The store also keeps the maps that a bulk replacement retired. The UI
store holds the selection and session fields (active image, active map,
sidebar, drawer, callback, projects). It also works out previous/next
navigation over the key order of `maps` and looks up a project by the
callback's hostname.

The two stores form one root state, the class `Store.Store`.

- Mutations are the methods named `Commit...`.
- Actions are the methods with the action's own name.
- The maps store's actions commit the UI's `setActiveMapId` mutation
  directly, as the source does.
- A thrown `Error` becomes a `Fail(..)` outcome, and a failing action
  leaves the state unchanged.

Modules:

- `Wrappers`: `Option` (JavaScript `undefined` is `None`) and `Outcome`.
- `Dicts`: a JavaScript plain object used as a dictionary, i.e. a key
  sequence plus a map with the same domain.
  - `Put` is `Vue.set`: a new key is appended, an existing key keeps its
    place.
  - `Delete` is `Vue.delete`.
  - `Merge` is the object spread.
  - `Values` is `Object.values`.
  - `IndexOf` is `Array.prototype.indexOf`.
- `PixelMask`: splice-based insertion and removal (with JavaScript's
  clamping of the start index) and index assignment.
- `Maps`: the entities, and `{id, ...gcp}` construction (`MakeGcp`).
  - `FindOtherMapId` is the loop in `makeOtherMapActive`.
  - `GroupMapsByImageId` is the grouping loop behind `mapsByImageId`.
    Each is proved against a recursive reference function, and lemmas
    about that function show the grouping is a partition.
- `Ui`: the pure getters.
  - `previousMapId`/`nextMapId` use JavaScript's truncating `%`. They
    are proved inverse to each other over distinct, non-empty ids.
  - The first-match project lookup.
  - The drawer toggle.
- `Store`: the class, plus three scenario methods. These replay short
  edit sequences and assert the resulting selection and errors.

## Model

| member | source | states |
|---|---|---|
| Dicts.IndexOf | src/store/modules/ui.js:25 | -1 exactly when the key is absent; otherwise a position holding the key with no earlier occurrence |
| Dicts.IndexOfDistinct | src/store/modules/ui.js:25 | over distinct keys, `indexOf` of the key at position i is i |
| Dicts.Without | src/store/modules/maps.js:223-224 | removing a key leaves exactly the other keys, and an absent key changes nothing |
| Dicts.WithoutDistinct | src/store/modules/maps.js:223-224 | removing a key from distinct keys leaves them distinct |
| Dicts.WithoutSplice | src/store/modules/maps.js:223-224 | a key that occurs once leaves its position and the keys around it close the gap in order |
| Dicts.Dict.Put | src/store/modules/maps.js:211 | `Vue.set`: the entry is set, an existing key keeps its place, a new key is appended, the dictionary stays well-formed |
| Dicts.Dict.Delete | src/store/modules/maps.js:224 | `Vue.delete`: only that entry goes, its key leaves its place, an absent key changes nothing |
| Dicts.KeysNotIn | src/store/modules/maps.js:205 | the keys of the right side that the left side lacks: exactly those, without repeats |
| Dicts.KeysNotInOrder | src/store/modules/maps.js:205 | those keys keep the order they have on the right side |
| Dicts.IndexOfConcat | src/store/modules/ui.js:25 | `indexOf` on a concatenation finds a front key in the front, and any other key in the back shifted by the front's length |
| Dicts.Dict.Merge | src/store/modules/maps.js:205 | object spread: keys are the union, the right side wins on shared keys, left-only values are kept, left keys keep their order at the front, and the right-only keys follow in the right side's order |
| Dicts.Dict.Values | src/store/modules/maps.js:28 | `Object.values`: one value per key, in key order |
| Dicts.Empty | src/store/modules/maps.js:41-44 | the empty object `{}` is well-formed with no keys |
| Dicts.DeleteAfterPut | src/store/modules/maps.js:209-224 | inserting a new key and deleting it gives back the same dictionary, order included |
| Dicts.PutAfterDelete | src/store/modules/maps.js:209-224 | deleting a key and setting it back restores the entries, with the key moved to the end |
| PixelMask.SpliceStart | src/store/modules/maps.js:234 | the splice start: negative counts from the end, clamped to 0..length |
| PixelMask.InsertPoint | src/store/modules/maps.js:230-234 | `splice(i, 0, p)`: length + 1, `p` at the start position, earlier points kept, later ones shifted right |
| PixelMask.RemovePoint | src/store/modules/maps.js:258-260 | `splice(i, 1)`: length - 1 and later points shifted left when the start is inside the mask; otherwise unchanged |
| PixelMask.ReplacePoint | src/store/modules/maps.js:245-247 | `mask[i] = p`: only position i changes and the length is kept; at i = length the point is appended |
| PixelMask.RemoveAfterInsert | src/store/modules/maps.js:230-260 | removing at the index just inserted at restores the mask |
| PixelMask.InsertAfterRemove | src/store/modules/maps.js:230-260 | re-inserting the removed point at its index restores the mask |
| PixelMask.RemoveAfterInsertPastEnd | src/store/modules/maps.js:230-260 | past the end, insert appends and the remove at the same index finds nothing, so the point stays |
| PixelMask.ReplaceLastWins | src/store/modules/maps.js:245-247 | replacing a point by itself is the identity; of two replacements at one index the last wins |
| Maps.MakeGcp | src/store/modules/maps.js:271-277 | `{id: gcpId, ...gcp}`: "id" comes first, every payload field is kept and wins, and id == gcpId exactly when the payload has no other id |
| Maps.FirstOtherMapId | src/store/modules/maps.js:14-20 | none exactly when every key equals mapId; otherwise a key that differs from mapId, and no earlier key differs |
| Maps.FirstOtherOfDistinct | src/store/modules/maps.js:14-20 | over distinct keys: the first key, or the second if the first is mapId, or none |
| Maps.FindOtherMapId | src/store/modules/maps.js:14-20 | the `for ... break` loop finds the first key unequal to mapId |
| Maps.ImageIds | src/store/modules/maps.js:25-39 | the group keys: distinct, and exactly the image ids that occur |
| Maps.ImageIdsOrder | src/store/modules/maps.js:25-39 | the group keys are in first-appearance order: for each earlier key, its image's first map comes before the first map of any later key |
| Maps.MapsWithImage | src/store/modules/maps.js:25-39 | a group: exactly the maps with that image id |
| Maps.MapsWithImageSnoc | src/store/modules/maps.js:31-35 | one more map is pushed onto the end of its own image's group and changes no other group |
| Maps.MapsWithImageSingle | src/store/modules/maps.js:31-35 | a single map forms a one-element group of its own image and nothing else |
| Maps.MapsWithImageConcat | src/store/modules/maps.js:25-39 | the group of a concatenation is the front's group followed by the back's, so each group keeps the collection's order |
| Maps.MapsWithImageCount | src/store/modules/maps.js:25-39 | a map occurs in its own group as often as in the collection, and in no other group |
| Maps.GroupSizesSum | src/store/modules/maps.js:25-39 | the group sizes sum to the number of maps |
| Maps.GroupStep | src/store/modules/maps.js:28-36 | one iteration (create the bucket if missing, push) keeps the buckets equal to the groups of the prefix seen |
| Maps.GroupMapsByImageId | src/store/modules/maps.js:25-39 | the loop's result has the first-appearance image ids as keys, each holding its group |
| Maps.ActiveMap | src/store/modules/maps.js:47-51 | `activeMap` is the entry of the active id, and absent when there is none |
| Ui.JsRemainder | src/store/modules/ui.js:26 | JavaScript `%` for a positive divisor: the sign of the dividend, magnitude below the divisor, and exact values on the ranges the getters use |
| Ui.PreviousMapId | src/store/modules/ui.js:19-28 | none without an active id or maps; the preceding key, wrapping from the first to the last; for an absent id, the second-to-last key (or the only one) |
| Ui.NextMapId | src/store/modules/ui.js:30-39 | none without an active id or maps; the following key, wrapping from the last to the first; for an absent id, the first key |
| Ui.NextOfPrevious | src/store/modules/ui.js:19-39 | over distinct non-empty ids, next(previous(x)) == x and previous(next(x)) == x |
| Ui.WrapAroundExample | src/store/modules/ui.js:19-39 | with ids [a, b, c]: next of c is a, previous of c is b, previous of a is c |
| Ui.FirstProjectLabel | src/store/modules/ui.js:46-53 | none exactly when no project lists the hostname; otherwise the label of a project listing it, with no earlier project listing it |
| Ui.CallbackProject | src/store/modules/ui.js:41-54 | none without a truthy callback; otherwise the first-match lookup of the callback's hostname |
| Ui.FirstProjectWins | src/store/modules/ui.js:46-53 | the first project listing the hostname decides the label, whatever follows |
| Ui.ToggledDrawer | src/store/modules/ui.js:90-93 | the result is none exactly when that drawer was open; otherwise that drawer |
| Ui.ToggleTwice | src/store/modules/ui.js:90-93 | toggling the same drawer twice: it was open and stays open, otherwise it ends closed |
| Ui.ToggleOther | src/store/modules/ui.js:90-93 | toggling d and then a different e leaves e open |
| Store.Store.constructor | src/store/modules/ui.js:3-12 | the UI store's initial state (everything closed and undefined, loading false, no projects) together with the maps store's `state()` at src/store/modules/maps.js:41-44 (no maps, no previous maps) |
| Store.Store.CommitSetMaps | src/store/modules/maps.js:204-207 | previous maps become `{...previousMaps, ...maps}` and the new collection is installed |
| Store.Store.CommitInsertMap | src/store/modules/maps.js:209-221 | an id in use throws and changes nothing; otherwise the map is set under its id |
| Store.Store.CommitRemoveMap | src/store/modules/maps.js:223-224 | the map's entry is deleted |
| Store.Store.CommitInsertPixelMaskPoint | src/store/modules/maps.js:230-243 | only that map's mask changes, by the splice insertion |
| Store.Store.CommitReplacePixelMaskPoint | src/store/modules/maps.js:245-256 | only that map's mask changes, by the index assignment |
| Store.Store.CommitRemovePixelMaskPoint | src/store/modules/maps.js:258-269 | only that map's mask changes, by the splice removal |
| Store.Store.CommitInsertGcp | src/store/modules/maps.js:271-294 | only that map's GCPs change: `{id: gcpId, ...gcp}` set under gcpId |
| Store.Store.CommitReplaceGcp | src/store/modules/maps.js:296-319 | only that map's GCPs change: `{id: gcpId, ...gcp}` set under gcpId |
| Store.Store.CommitRemoveGcp | src/store/modules/maps.js:321-334 | only that map's GCPs change: gcpId deleted |
| Store.Store.MakeMapActive | src/store/modules/maps.js:3-7 | afterwards the map is active, with no check that it exists |
| Store.Store.MakeOtherMapActive | src/store/modules/maps.js:9-23 | when mapId is active, the first other key (or none) becomes active; otherwise nothing changes |
| Store.Store.MapsByImageId | src/store/modules/maps.js:53-55 | the current maps grouped by image id |
| Store.Store.PreviousMapsByImageId | src/store/modules/maps.js:57-59 | the retained maps grouped by image id |
| Store.Store.SetMaps | src/store/modules/maps.js:73-82 | the bulk replacement; a non-empty collection with a truthy first id has that map made active (and so existing) |
| Store.Store.ResetMaps | src/store/modules/maps.js:84-86 | every map is retired into previous maps, maps is empty, the active id is untouched |
| Store.Store.InsertMap | src/store/modules/maps.js:88-102 | an id in use throws and changes nothing; otherwise `{version: 1, id, image, pixelMask or [], gcps or {}}` is appended and made active; the active map keeps existing |
| Store.Store.RemoveMap | src/store/modules/maps.js:104-107 | the map is deleted; if it was active, the first other key (or none) becomes active, otherwise the selection stays; the active map keeps existing |
| Store.Store.InsertPixelMaskPoint | src/store/modules/maps.js:109-125 | an absent map throws and changes nothing; otherwise the point is spliced in and the map made active |
| Store.Store.ReplacePixelMaskPoint | src/store/modules/maps.js:127-139 | the point is replaced and the map made active |
| Store.Store.RemovePixelMaskPoint | src/store/modules/maps.js:141-149 | the point is spliced out and the map made active |
| Store.Store.InsertGcp | src/store/modules/maps.js:151-166 | an absent map or an existing GCP throws and changes nothing; otherwise the GCP is set; the active map keeps existing |
| Store.Store.ReplaceGcp | src/store/modules/maps.js:168-183 | an absent map or GCP throws and changes nothing; otherwise the GCP is overwritten; the active map keeps existing |
| Store.Store.RemoveGcp | src/store/modules/maps.js:185-200 | an absent map or GCP throws and changes nothing; otherwise only that GCP is deleted; the active map keeps existing |
| Store.Store.CommitReset | src/store/modules/ui.js:114-121 | the six session fields are reset, loading becomes true, projects and callback are untouched |
| Store.Store.CommitSetActiveImageId | src/store/modules/ui.js:122-124 | the image becomes active |
| Store.Store.CommitSetActiveMapId | src/store/modules/ui.js:125-127 | the given id (or none) becomes active |
| Store.Store.CommitSetSidebarOpen | src/store/modules/ui.js:128-130 | the sidebar is set as given |
| Store.Store.CommitSetDrawerOpen | src/store/modules/ui.js:131-133 | the open drawer is set as given |
| Store.Store.CommitSetProjects | src/store/modules/ui.js:134-136 | the projects are replaced wholesale |
| Store.Store.CommitSetCallback | src/store/modules/ui.js:137-139 | the callback is recorded |
| Store.Store.CallbackProject | src/store/modules/ui.js:41-54 | the nested scan with early return yields the first-match project label of the callback's hostname |
| Store.Store.Reset | src/store/modules/ui.js:58-60 | the reset mutation, leaving no active map |
| Store.Store.SetActiveImageId | src/store/modules/ui.js:62-76 | an unknown image throws and changes nothing; otherwise maps are retired and emptied, the image is active, no map is active, and the info load is requested exactly for embedded images |
| Store.Store.SetActiveMapId | src/store/modules/ui.js:78-82 | the id becomes active only when it is a key of maps; otherwise nothing changes |
| Store.Store.SetSidebarOpen | src/store/modules/ui.js:84-88 | afterwards the sidebar is as asked, so a repeated call changes nothing |
| Store.Store.ToggleDrawer | src/store/modules/ui.js:90-93 | the open drawer becomes the toggled one |
| Store.Store.SetCallback | src/store/modules/ui.js:95-101 | an absent or empty callback is ignored; otherwise it is recorded |

## Left out

- `src/lib/id.js` is not part of this model: ids are opaque strings.
- `setProjectsUrl` fetches the project list over the network; only its `setProjects` mutation is modelled.
- The `activeImage` getter and the `iiif/loadImageInfo` dispatch belong to the image store. The image catalogue is the parameter `images` (image id to "is embedded"), and the load is reported as the result `loadsImageInfo`.
- `Store.Store.CallbackProject`: `hostnameOf` stands for the `URL` constructor's hostname parse. The constructor's exception on a malformed callback is not modelled.
- Vue's reactivity is not modelled; `Vue.set`/`Vue.delete` are plain dictionary updates. The unused `source` and `gcp` parameters are dropped.
- Property names inherited from `Object.prototype` (such as `constructor`) are not modelled. Neither is the engine's ordering of integer-like keys before other keys: every key is taken to be an ordinary string key, ordered by insertion.
- Store.Store.ReplacePixelMaskPoint: requires the map to exist and the index to be within 0..length. The source has no check: a missing map throws a `TypeError`, an index past the end leaves holes, and a negative index sets a non-index property.
- Store.Store.RemovePixelMaskPoint: requires the map to exist; the source has no check and a missing map throws a `TypeError`.
- Maps.ActiveMap: with no active map, JavaScript looks up the key `"undefined"`; the model answers "no map" instead.
- The mutations change `map.pixelMask` and `map.gcps` in place, and the stored object is the one the caller passed. Map values are immutable here, so sharing between callers and the store is not modelled.
- `Store.Store.SetMaps` and `Store.Store.ResetMaps` do not promise that the active map exists afterwards. The source does not clear a stale active id there. `SetActiveImageId` clears it right after its reset, and this is proved.
- The GCP payload is opaque: each field holds an opaque `Value`, and pixel coordinates are never computed with.
- `Store.Store.SetCallback` takes the callback as an optional string; a non-string callback argument is not modelled.
