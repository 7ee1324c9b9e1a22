/**
 * The root state of the editor's store: the maps store (`maps`,
 * `previousMaps`) and the UI store (selection and session fields) in one
 * object. Methods named `Commit...` are the stores' mutations; the others
 * are their actions, which check their preconditions, commit, and keep the
 * active map pointed at the map being edited.
 */
module Store {
  import opened Wrappers
  import opened Dicts
  import opened PixelMask
  import opened Maps
  import opened Ui

  /** The errors the actions throw. */
  datatype Error =
    | MapNotFound(mapId: MapId)
    | MapAlreadyExists(mapId: MapId)
    | GcpNotFound(gcpId: GcpId)
    | GcpAlreadyExists(gcpId: GcpId)
    | ImageNotFound(imageId: ImageId)

  class Store {
    // maps store
    var maps: Dict<Map>
    var previousMaps: Dict<Map>
    // UI store
    var sidebarOpen: bool
    var drawerOpen: Option<string>
    var lastError: Option<string>
    var activeImageId: Option<ImageId>
    var activeMapId: Option<MapId>
    var loading: bool
    var projects: seq<Project>
    var callback: Option<string>

    /** Both map collections are well-formed ordered dictionaries. */
    ghost predicate Valid()
      reads this
    {
      && maps.Valid() && AllWellFormed(maps)
      && previousMaps.Valid() && AllWellFormed(previousMaps)
    }

    /** The active map, when there is one, is a key of `maps`. */
    predicate ActiveMapExists()
      reads this
    {
      activeMapId.None? || activeMapId.value in maps.entries
    }

    /** The two stores' initial `state()`. */
    constructor ()
      ensures Valid() && ActiveMapExists()
      ensures maps == Empty() && previousMaps == Empty()
      ensures !sidebarOpen && drawerOpen == None && lastError == None
      ensures activeImageId == None && activeMapId == None
      ensures !loading && projects == [] && callback == None
    {
      maps, previousMaps := Empty(), Empty();
      sidebarOpen, drawerOpen, lastError := false, None, None;
      activeImageId, activeMapId := None, None;
      loading, projects, callback := false, [], None;
    }

    // ---------------------------------------------------------------
    // Maps store: mutations
    // ---------------------------------------------------------------

    /** Retains the current maps in `previousMaps` (they win on a shared id) and installs `newMaps`. */
    method CommitSetMaps(newMaps: Dict<Map>)
      requires Valid() && newMaps.Valid() && AllWellFormed(newMaps)
      modifies this`maps, this`previousMaps
      ensures Valid()
      ensures previousMaps == old(previousMaps).Merge(old(maps))
      ensures maps == newMaps
    {
      previousMaps := previousMaps.Merge(maps);
      maps := newMaps;
    }

    /** Adds `m` under a new id at the end of the key order; an id in use throws. */
    method CommitInsertMap(mapId: MapId, m: Map) returns (r: Outcome<Error>)
      requires Valid() && m.gcps.Valid()
      modifies this`maps
      ensures Valid()
      ensures old(mapId in maps.entries) ==> r == Fail(MapAlreadyExists(mapId)) && maps == old(maps)
      ensures old(mapId !in maps.entries) ==> r == Pass && maps == old(maps).Put(mapId, m)
    {
      if mapId !in maps.entries {
        maps := maps.Put(mapId, m);
        r := Pass;
      } else {
        r := Fail(MapAlreadyExists(mapId));
      }
    }

    /** Deletes the map; an absent id changes nothing. */
    method CommitRemoveMap(mapId: MapId)
      requires Valid()
      modifies this`maps
      ensures Valid()
      ensures maps == old(maps).Delete(mapId)
    {
      maps := maps.Delete(mapId);
    }

    /** Splices `p` into the map's pixel mask at `index`; the map keeps its place. */
    method CommitInsertPixelMaskPoint(mapId: MapId, index: int, p: Point)
      requires Valid() && mapId in maps.entries
      modifies this`maps
      ensures Valid()
      ensures maps == old(maps).Put(mapId,
        old(maps.entries[mapId]).(pixelMask := InsertPoint(old(maps.entries[mapId].pixelMask), index, p)))
    {
      var m := maps.entries[mapId];
      maps := maps.Put(mapId, m.(pixelMask := InsertPoint(m.pixelMask, index, p)));
    }

    /** Overwrites the point at `index` of the map's pixel mask. */
    method CommitReplacePixelMaskPoint(mapId: MapId, index: int, p: Point)
      requires Valid() && mapId in maps.entries && 0 <= index <= |maps.entries[mapId].pixelMask|
      modifies this`maps
      ensures Valid()
      ensures maps == old(maps).Put(mapId,
        old(maps.entries[mapId]).(pixelMask := ReplacePoint(old(maps.entries[mapId].pixelMask), index, p)))
    {
      var m := maps.entries[mapId];
      maps := maps.Put(mapId, m.(pixelMask := ReplacePoint(m.pixelMask, index, p)));
    }

    /** Splices the point at `index` out of the map's pixel mask. */
    method CommitRemovePixelMaskPoint(mapId: MapId, index: int)
      requires Valid() && mapId in maps.entries
      modifies this`maps
      ensures Valid()
      ensures maps == old(maps).Put(mapId,
        old(maps.entries[mapId]).(pixelMask := RemovePoint(old(maps.entries[mapId].pixelMask), index)))
    {
      var m := maps.entries[mapId];
      maps := maps.Put(mapId, m.(pixelMask := RemovePoint(m.pixelMask, index)));
    }

    /** Stores `{id: gcpId, ...gcp}` under `gcpId` in the map's ground-control points. */
    method CommitInsertGcp(mapId: MapId, gcpId: GcpId, gcp: Dict<Value>)
      requires Valid() && mapId in maps.entries && gcp.Valid()
      modifies this`maps
      ensures Valid()
      ensures maps == old(maps).Put(mapId,
        old(maps.entries[mapId]).(gcps := old(maps.entries[mapId].gcps).Put(gcpId, MakeGcp(gcpId, gcp))))
    {
      var m := maps.entries[mapId];
      maps := maps.Put(mapId, m.(gcps := m.gcps.Put(gcpId, MakeGcp(gcpId, gcp))));
    }

    /** Overwrites the ground-control point `gcpId` with `{id: gcpId, ...gcp}`. */
    method CommitReplaceGcp(mapId: MapId, gcpId: GcpId, gcp: Dict<Value>)
      requires Valid() && mapId in maps.entries && gcp.Valid()
      modifies this`maps
      ensures Valid()
      ensures maps == old(maps).Put(mapId,
        old(maps.entries[mapId]).(gcps := old(maps.entries[mapId].gcps).Put(gcpId, MakeGcp(gcpId, gcp))))
    {
      var m := maps.entries[mapId];
      maps := maps.Put(mapId, m.(gcps := m.gcps.Put(gcpId, MakeGcp(gcpId, gcp))));
    }

    /** Deletes the ground-control point `gcpId` from the map. */
    method CommitRemoveGcp(mapId: MapId, gcpId: GcpId)
      requires Valid() && mapId in maps.entries
      modifies this`maps
      ensures Valid()
      ensures maps == old(maps).Put(mapId,
        old(maps.entries[mapId]).(gcps := old(maps.entries[mapId].gcps).Delete(gcpId)))
    {
      var m := maps.entries[mapId];
      maps := maps.Put(mapId, m.(gcps := m.gcps.Delete(gcpId)));
    }

    // ---------------------------------------------------------------
    // Maps store: selection side effects
    // ---------------------------------------------------------------

    /** `makeMapActive`: commits the UI mutation directly, bypassing the action's existence check. */
    method MakeMapActive(mapId: MapId)
      modifies this`activeMapId
      ensures activeMapId == Some(mapId)
    {
      if activeMapId != Some(mapId) {
        CommitSetActiveMapId(Some(mapId));
      }
    }

    /** `makeOtherMapActive`: when `mapId` is active, activates the first other key, or none. */
    method MakeOtherMapActive(mapId: MapId)
      modifies this`activeMapId
      ensures activeMapId == if old(activeMapId) == Some(mapId) then FirstOtherMapId(maps.keys, mapId)
                             else old(activeMapId)
    {
      if activeMapId != Some(mapId) {
        return;
      }
      var otherMapId := FindOtherMapId(maps.keys, mapId);
      CommitSetActiveMapId(otherMapId);
    }

    // ---------------------------------------------------------------
    // Maps store: getters that loop
    // ---------------------------------------------------------------

    /** The `mapsByImageId` getter. */
    method MapsByImageId() returns (groups: Dict<seq<Map>>)
      requires Valid()
      ensures groups.Valid() && groups.keys == ImageIds(maps.Values())
      ensures forall id :: id in groups.entries ==> groups.entries[id] == MapsWithImage(maps.Values(), id)
    {
      groups := GroupMapsByImageId(maps);
    }

    /** The `previousMapsByImageId` getter. */
    method PreviousMapsByImageId() returns (groups: Dict<seq<Map>>)
      requires Valid()
      ensures groups.Valid() && groups.keys == ImageIds(previousMaps.Values())
      ensures forall id :: id in groups.entries ==> groups.entries[id] == MapsWithImage(previousMaps.Values(), id)
    {
      groups := GroupMapsByImageId(previousMaps);
    }

    // ---------------------------------------------------------------
    // Maps store: actions
    // ---------------------------------------------------------------

    /** Replaces the collection; a non-empty one with a truthy first id has that map activated. */
    method SetMaps(newMaps: Dict<Map>)
      requires Valid() && newMaps.Valid() && AllWellFormed(newMaps)
      modifies this`maps, this`previousMaps, this`activeMapId
      ensures Valid()
      ensures previousMaps == old(previousMaps).Merge(old(maps))
      ensures maps == newMaps
      ensures activeMapId == if |newMaps.keys| > 0 && newMaps.keys[0] != "" then Some(newMaps.keys[0])
                             else old(activeMapId)
      ensures |newMaps.keys| > 0 && newMaps.keys[0] != "" ==> ActiveMapExists()
    {
      CommitSetMaps(newMaps);
      if |newMaps.keys| > 0 {
        var firstMapId := newMaps.keys[0];
        if firstMapId != "" {
          MakeMapActive(firstMapId);
        }
      }
    }

    /** `setMaps({})`: every current map moves to `previousMaps`; the active id is left as it was. */
    method ResetMaps()
      requires Valid()
      modifies this`maps, this`previousMaps, this`activeMapId
      ensures Valid()
      ensures previousMaps == old(previousMaps).Merge(old(maps))
      ensures maps == Empty()
      ensures activeMapId == old(activeMapId)
    {
      SetMaps(Empty());
    }

    /**
     * Creates `{version: 1, id: mapId, image, pixelMask, gcps}` (an absent
     * mask is `[]`, absent points `{}`) and activates it; an id in use throws.
     */
    method InsertMap(mapId: MapId, image: Image, pixelMask: Option<seq<Point>>, gcps: Option<Dict<Gcp>>)
      returns (r: Outcome<Error>)
      requires Valid()
      requires gcps.Some? ==> gcps.value.Valid()
      modifies this`maps, this`activeMapId
      ensures Valid()
      ensures old(mapId in maps.entries) ==>
        r == Fail(MapAlreadyExists(mapId)) && maps == old(maps) && activeMapId == old(activeMapId)
      ensures old(mapId !in maps.entries) ==>
        && r == Pass
        && maps == old(maps).Put(mapId, Map(1, mapId, image, pixelMask.GetOr([]), gcps.GetOr(Empty())))
        && activeMapId == Some(mapId)
      ensures old(ActiveMapExists()) ==> ActiveMapExists()
    {
      var m := Map(1, mapId, image, pixelMask.GetOr([]), gcps.GetOr(Empty()));
      r := CommitInsertMap(mapId, m);
      if r.Fail? {
        return;
      }
      MakeMapActive(mapId);
    }

    /** Moves the selection off `mapId` when it is active, then deletes it. */
    method RemoveMap(mapId: MapId)
      requires Valid()
      modifies this`maps, this`activeMapId
      ensures Valid()
      ensures maps == old(maps).Delete(mapId)
      ensures activeMapId == if old(activeMapId) == Some(mapId) then FirstOtherMapId(old(maps.keys), mapId)
                             else old(activeMapId)
      ensures old(ActiveMapExists()) ==> ActiveMapExists()
    {
      MakeOtherMapActive(mapId);
      CommitRemoveMap(mapId);
      if activeMapId.Some? && old(activeMapId) == Some(mapId) {
        var k :| 0 <= k < |old(maps.keys)| && old(maps.keys)[k] == activeMapId.value;
        assert activeMapId.value in old(maps.keys);
      }
    }

    /** Throws when the map is absent; otherwise splices `p` into its mask and activates it. */
    method InsertPixelMaskPoint(mapId: MapId, index: int, p: Point) returns (r: Outcome<Error>)
      requires Valid()
      modifies this`maps, this`activeMapId
      ensures Valid()
      ensures old(mapId !in maps.entries) ==>
        r == Fail(MapNotFound(mapId)) && maps == old(maps) && activeMapId == old(activeMapId)
      ensures old(mapId in maps.entries) ==>
        && r == Pass
        && maps == old(maps).Put(mapId,
             old(maps.entries[mapId]).(pixelMask := InsertPoint(old(maps.entries[mapId].pixelMask), index, p)))
        && activeMapId == Some(mapId)
      ensures old(ActiveMapExists()) ==> ActiveMapExists()
    {
      if mapId !in maps.entries {
        return Fail(MapNotFound(mapId));
      }
      CommitInsertPixelMaskPoint(mapId, index, p);
      MakeMapActive(mapId);
      r := Pass;
    }

    /** Overwrites the point at `index` and activates the map. */
    method ReplacePixelMaskPoint(mapId: MapId, index: int, p: Point)
      requires Valid() && mapId in maps.entries && 0 <= index <= |maps.entries[mapId].pixelMask|
      modifies this`maps, this`activeMapId
      ensures Valid()
      ensures maps == old(maps).Put(mapId,
        old(maps.entries[mapId]).(pixelMask := ReplacePoint(old(maps.entries[mapId].pixelMask), index, p)))
      ensures activeMapId == Some(mapId) && ActiveMapExists()
    {
      CommitReplacePixelMaskPoint(mapId, index, p);
      MakeMapActive(mapId);
    }

    /** Splices the point at `index` out and activates the map. */
    method RemovePixelMaskPoint(mapId: MapId, index: int)
      requires Valid() && mapId in maps.entries
      modifies this`maps, this`activeMapId
      ensures Valid()
      ensures maps == old(maps).Put(mapId,
        old(maps.entries[mapId]).(pixelMask := RemovePoint(old(maps.entries[mapId].pixelMask), index)))
      ensures activeMapId == Some(mapId) && ActiveMapExists()
    {
      CommitRemovePixelMaskPoint(mapId, index);
      MakeMapActive(mapId);
    }

    /** Throws when the map is absent or already has `gcpId`; otherwise stores `{id: gcpId, ...gcp}`. */
    method InsertGcp(mapId: MapId, gcpId: GcpId, gcp: Dict<Value>) returns (r: Outcome<Error>)
      requires Valid() && gcp.Valid()
      modifies this`maps
      ensures Valid()
      ensures old(mapId !in maps.entries) ==> r == Fail(MapNotFound(mapId)) && maps == old(maps)
      ensures old(mapId in maps.entries && gcpId in maps.entries[mapId].gcps.entries) ==>
        r == Fail(GcpAlreadyExists(gcpId)) && maps == old(maps)
      ensures old(mapId in maps.entries && gcpId !in maps.entries[mapId].gcps.entries) ==>
        && r == Pass
        && maps == old(maps).Put(mapId,
             old(maps.entries[mapId]).(gcps := old(maps.entries[mapId].gcps).Put(gcpId, MakeGcp(gcpId, gcp))))
      ensures old(ActiveMapExists()) ==> ActiveMapExists()
    {
      if mapId !in maps.entries {
        return Fail(MapNotFound(mapId));
      }
      if gcpId in maps.entries[mapId].gcps.entries {
        return Fail(GcpAlreadyExists(gcpId));
      }
      CommitInsertGcp(mapId, gcpId, gcp);
      r := Pass;
    }

    /** Throws when the map or the point is absent; otherwise overwrites the point. */
    method ReplaceGcp(mapId: MapId, gcpId: GcpId, gcp: Dict<Value>) returns (r: Outcome<Error>)
      requires Valid() && gcp.Valid()
      modifies this`maps
      ensures Valid()
      ensures old(mapId !in maps.entries) ==> r == Fail(MapNotFound(mapId)) && maps == old(maps)
      ensures old(mapId in maps.entries && gcpId !in maps.entries[mapId].gcps.entries) ==>
        r == Fail(GcpNotFound(gcpId)) && maps == old(maps)
      ensures old(mapId in maps.entries && gcpId in maps.entries[mapId].gcps.entries) ==>
        && r == Pass
        && maps == old(maps).Put(mapId,
             old(maps.entries[mapId]).(gcps := old(maps.entries[mapId].gcps).Put(gcpId, MakeGcp(gcpId, gcp))))
      ensures old(ActiveMapExists()) ==> ActiveMapExists()
    {
      if mapId !in maps.entries {
        return Fail(MapNotFound(mapId));
      }
      if gcpId !in maps.entries[mapId].gcps.entries {
        return Fail(GcpNotFound(gcpId));
      }
      CommitReplaceGcp(mapId, gcpId, gcp);
      r := Pass;
    }

    /** Throws when the map or the point is absent; otherwise deletes the point. */
    method RemoveGcp(mapId: MapId, gcpId: GcpId) returns (r: Outcome<Error>)
      requires Valid()
      modifies this`maps
      ensures Valid()
      ensures old(mapId !in maps.entries) ==> r == Fail(MapNotFound(mapId)) && maps == old(maps)
      ensures old(mapId in maps.entries && gcpId !in maps.entries[mapId].gcps.entries) ==>
        r == Fail(GcpNotFound(gcpId)) && maps == old(maps)
      ensures old(mapId in maps.entries && gcpId in maps.entries[mapId].gcps.entries) ==>
        && r == Pass
        && maps == old(maps).Put(mapId,
             old(maps.entries[mapId]).(gcps := old(maps.entries[mapId].gcps).Delete(gcpId)))
      ensures old(ActiveMapExists()) ==> ActiveMapExists()
    {
      if mapId !in maps.entries {
        return Fail(MapNotFound(mapId));
      }
      if gcpId !in maps.entries[mapId].gcps.entries {
        return Fail(GcpNotFound(gcpId));
      }
      CommitRemoveGcp(mapId, gcpId);
      r := Pass;
    }

    // ---------------------------------------------------------------
    // UI store: mutations
    // ---------------------------------------------------------------

    /** Restores the session fields; `loading` becomes true; `projects` and `callback` stay. */
    method CommitReset()
      modifies this`sidebarOpen, this`drawerOpen, this`lastError, this`activeImageId, this`activeMapId, this`loading
      ensures !sidebarOpen && drawerOpen == None && lastError == None
      ensures activeImageId == None && activeMapId == None
      ensures loading
    {
      sidebarOpen := false;
      drawerOpen := None;
      lastError := None;
      activeImageId := None;
      activeMapId := None;
      loading := true;
    }

    method CommitSetActiveImageId(imageId: ImageId)
      modifies this`activeImageId
      ensures activeImageId == Some(imageId)
    {
      activeImageId := Some(imageId);
    }

    method CommitSetActiveMapId(mapId: Option<MapId>)
      modifies this`activeMapId
      ensures activeMapId == mapId
    {
      activeMapId := mapId;
    }

    method CommitSetSidebarOpen(open: bool)
      modifies this`sidebarOpen
      ensures sidebarOpen == open
    {
      sidebarOpen := open;
    }

    method CommitSetDrawerOpen(drawer: Option<string>)
      modifies this`drawerOpen
      ensures drawerOpen == drawer
    {
      drawerOpen := drawer;
    }

    method CommitSetProjects(newProjects: seq<Project>)
      modifies this`projects
      ensures projects == newProjects
    {
      projects := newProjects;
    }

    method CommitSetCallback(newCallback: string)
      modifies this`callback
      ensures callback == Some(newCallback)
    {
      callback := Some(newCallback);
    }

    // ---------------------------------------------------------------
    // UI store: getters that loop
    // ---------------------------------------------------------------

    /**
     * The `callbackProject` getter: scans the projects and their hostnames
     * in order for the callback's hostname (`hostnameOf` stands for what the
     * `URL` constructor parses out of it).
     */
    method CallbackProject(hostnameOf: string -> string) returns (projectLabel: Option<string>)
      ensures projectLabel == Ui.CallbackProject(callback, projects, hostnameOf)
    {
      if !Truthy(callback) {
        return None;
      }
      var hostname := hostnameOf(callback.value);
      for i := 0 to |projects|
        invariant forall k :: 0 <= k < i ==> hostname !in projects[k].hostnames
      {
        var hostnames := projects[i].hostnames;
        for j := 0 to |hostnames|
          invariant hostname !in hostnames[..j]
        {
          if hostnames[j] == hostname {
            FirstProjectWins(projects, hostname, i);
            return Some(projects[i].projectLabel);
          }
        }
        assert hostnames[..|hostnames|] == hostnames;
      }
      projectLabel := None;
    }

    // ---------------------------------------------------------------
    // UI store: actions
    // ---------------------------------------------------------------

    /** The `reset` action. */
    method Reset()
      modifies this`sidebarOpen, this`drawerOpen, this`lastError, this`activeImageId, this`activeMapId, this`loading
      ensures !sidebarOpen && drawerOpen == None && lastError == None
      ensures activeImageId == None && activeMapId == None && ActiveMapExists()
      ensures loading
    {
      CommitReset();
    }

    /**
     * Throws when `imageId` is not in the image catalogue (`images` maps each
     * known image to whether it is embedded). Otherwise abandons the current
     * maps into `previousMaps`, selects the image and clears the active map.
     * `loadsImageInfo` says whether the image's descriptor load is requested.
     */
    method SetActiveImageId(imageId: ImageId, images: map<ImageId, bool>)
      returns (r: Outcome<Error>, loadsImageInfo: bool)
      requires Valid()
      modifies this`maps, this`previousMaps, this`activeImageId, this`activeMapId
      ensures Valid()
      ensures loadsImageInfo == (imageId in images && images[imageId])
      ensures imageId !in images ==>
        && r == Fail(ImageNotFound(imageId))
        && maps == old(maps) && previousMaps == old(previousMaps)
        && activeImageId == old(activeImageId) && activeMapId == old(activeMapId)
      ensures imageId in images ==>
        && r == Pass
        && previousMaps == old(previousMaps).Merge(old(maps))
        && maps == Empty()
        && activeImageId == Some(imageId)
        && activeMapId == None
      ensures old(ActiveMapExists()) ==> ActiveMapExists()
    {
      if imageId !in images {
        return Fail(ImageNotFound(imageId)), false;
      }
      ResetMaps();
      loadsImageInfo := images[imageId];
      CommitSetActiveImageId(imageId);
      CommitSetActiveMapId(None);
      r := Pass;
    }

    /** Activates `mapId` only when it is a key of `maps`. */
    method SetActiveMapId(mapId: MapId)
      modifies this`activeMapId
      ensures activeMapId == if mapId in maps.entries then Some(mapId) else old(activeMapId)
      ensures old(ActiveMapExists()) ==> ActiveMapExists()
    {
      if mapId in maps.entries {
        CommitSetActiveMapId(Some(mapId));
      }
    }

    /** Commits only a change; afterwards the sidebar is as asked. */
    method SetSidebarOpen(open: bool)
      modifies this`sidebarOpen
      ensures sidebarOpen == open
    {
      if sidebarOpen != open {
        CommitSetSidebarOpen(open);
      }
    }

    /** Opens `drawer`, or closes it when it is the one open. */
    method ToggleDrawer(drawer: string)
      modifies this`drawerOpen
      ensures drawerOpen == ToggledDrawer(old(drawerOpen), drawer)
    {
      CommitSetDrawerOpen(ToggledDrawer(drawerOpen, drawer));
    }

    /** Ignores an absent or empty callback; otherwise records it. */
    method SetCallback(newCallback: Option<string>)
      modifies this`callback
      ensures callback == if Truthy(newCallback) then newCallback else old(callback)
    {
      if newCallback.None? || |newCallback.value| == 0 {
        return;
      }
      CommitSetCallback(newCallback.value);
    }
  }

  /**
   * Starting with no maps: inserting `m1` and then `m2` activates each in
   * turn, and removing `m2` again moves the selection back to `m1`.
   */
  method InsertInsertRemoveScenario(image: Image)
  {
    var store := new Store();
    var r1 := store.InsertMap("m1", image, None, None);
    assert r1 == Pass && store.activeMapId == Some("m1");
    var r2 := store.InsertMap("m2", image, None, None);
    assert r2 == Pass && store.activeMapId == Some("m2");
    assert store.maps.keys == ["m1", "m2"];
    store.RemoveMap("m2");
    assert store.activeMapId == Some("m1");
    var r3 := store.InsertMap("m1", image, None, None);
    assert r3 == Fail(MapAlreadyExists("m1"));
  }

  /** A second `insertGcp` of the same id throws; `replaceGcp` and `removeGcp` of a missing id throw. */
  method GcpScenario(image: Image, gcp: Dict<Value>)
    requires gcp.Valid()
  {
    var store := new Store();
    var r := store.InsertMap("m1", image, None, None);
    r := store.InsertGcp("m1", "g1", gcp);
    assert r == Pass;
    r := store.InsertGcp("m1", "g1", gcp);
    assert r == Fail(GcpAlreadyExists("g1"));
    r := store.ReplaceGcp("m1", "g2", gcp);
    assert r == Fail(GcpNotFound("g2"));
    r := store.RemoveGcp("m1", "g2");
    assert r == Fail(GcpNotFound("g2"));
    r := store.RemoveGcp("m2", "g1");
    assert r == Fail(MapNotFound("m2"));
  }

  /** Two bulk replacements leave both earlier maps in `previousMaps`. */
  method SetMapsTwiceScenario(a: Map, b: Map, c: Map)
    requires a.gcps.Valid() && b.gcps.Valid() && c.gcps.Valid()
  {
    var store := new Store();
    var ab := Empty<Map>().Put("A", a).Put("B", b);
    store.SetMaps(ab);
    assert store.activeMapId == Some("A");
    store.SetMaps(Empty<Map>().Put("C", c));
    assert "A" in store.previousMaps.entries && "B" in store.previousMaps.entries;
    assert store.activeMapId == Some("C");
  }
}
