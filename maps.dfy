/**
 * The maps store's entities and its pure helpers: a georeferencing map
 * (pixel mask plus ground-control points for one image), the search for
 * another map to activate, and the grouping of maps by image.
 */
module Maps {
  import opened Wrappers
  import opened Dicts
  import opened PixelMask

  type MapId = Key
  type GcpId = Key
  type ImageId = string

  /** The source image; the store only reads its `id`. */
  datatype Image = Image(id: ImageId)

  /** A field value of a ground-control point: a string, or any other JSON value as an opaque token. */
  datatype Value = Text(text: string) | Opaque(token: int)

  /** A ground-control point is a plain object of named fields. */
  type Gcp = Dict<Value>

  datatype Map = Map(version: int, id: MapId, image: Image, pixelMask: seq<Point>, gcps: Dict<Gcp>)

  /** Every map in `d` keeps its ground-control points in a well-formed dictionary. */
  ghost predicate AllWellFormed(d: Dict<Map>) {
    forall k :: k in d.entries ==> d.entries[k].gcps.Valid()
  }

  /**
   * The stored point `{id: gcpId, ...gcp}`: field `id` comes first, and the
   * payload's own fields follow and win, its own `id` included.
   */
  function MakeGcp(gcpId: GcpId, gcp: Dict<Value>): (g: Gcp)
    requires gcp.Valid()
    ensures g.Valid()
    ensures g.entries.Keys == {"id"} + gcp.entries.Keys
    ensures |g.keys| > 0 && g.keys[0] == "id"
    ensures forall f :: f in gcp.entries ==> g.entries[f] == gcp.entries[f]
    ensures g.entries["id"] == Text(gcpId) <==> "id" !in gcp.entries || gcp.entries["id"] == Text(gcpId)
  {
    Dict(["id"], map["id" := Text(gcpId)]).Merge(gcp)
  }

  /** The first key of `mapIds`, in order, that is not `mapId`. */
  function FirstOtherMapId(mapIds: seq<MapId>, mapId: MapId): (r: Option<MapId>)
    ensures r.None? <==> forall i :: 0 <= i < |mapIds| ==> mapIds[i] == mapId
    ensures r.Some? ==> exists i :: 0 <= i < |mapIds| && mapIds[i] == r.value && r.value != mapId
                                  && forall j :: 0 <= j < i ==> mapIds[j] == mapId
  {
    if |mapIds| == 0 then None
    else if mapIds[0] != mapId then Some(mapIds[0])
    else
      var r := FirstOtherMapId(mapIds[1..], mapId);
      assert forall i :: 1 <= i < |mapIds| ==> mapIds[i] == mapIds[1..][i - 1];
      if r.Some? then
        var i :| 0 <= i < |mapIds[1..]| && mapIds[1..][i] == r.value && r.value != mapId
                 && forall j :: 0 <= j < i ==> mapIds[1..][j] == mapId;
        assert mapIds[i + 1] == r.value;
        r
      else r
  }

  /**
   * When the keys are distinct, the first other key is the first key, or the
   * second when the first is `mapId`; there is none only when `mapId` is the
   * sole key or there are no keys.
   */
  lemma FirstOtherOfDistinct(mapIds: seq<MapId>, mapId: MapId)
    requires Distinct(mapIds)
    ensures FirstOtherMapId(mapIds, mapId) ==
      if |mapIds| == 0 then None
      else if mapIds[0] != mapId then Some(mapIds[0])
      else if |mapIds| >= 2 then Some(mapIds[1])
      else None
  {
    if |mapIds| >= 2 && mapIds[0] == mapId {
      assert mapIds[1..][0] == mapIds[1];
    }
  }

  /** The `for ... of` loop with `break` that looks for a map to activate instead of `mapId`. */
  method FindOtherMapId(mapIds: seq<MapId>, mapId: MapId) returns (otherMapId: Option<MapId>)
    ensures otherMapId == FirstOtherMapId(mapIds, mapId)
  {
    otherMapId := None;
    for i := 0 to |mapIds|
      invariant FirstOtherMapId(mapIds[i..], mapId) == FirstOtherMapId(mapIds, mapId)
      invariant otherMapId == None
    {
      if mapIds[i] != mapId {
        otherMapId := Some(mapIds[i]);
        break;
      }
      assert mapIds[i..][1..] == mapIds[i + 1..];
    }
  }

  /** The distinct image ids of `values`, in order of first appearance. */
  function ImageIds(values: seq<Map>): (r: seq<ImageId>)
    ensures Distinct(r)
    ensures forall id :: id in r <==> exists i :: 0 <= i < |values| && values[i].image.id == id
  {
    if |values| == 0 then []
    else
      var p := ImageIds(values[..|values| - 1]);
      var id := values[|values| - 1].image.id;
      assert forall i :: 0 <= i < |values| - 1 ==> values[..|values| - 1][i] == values[i];
      if id in p then p
      else
        assert Distinct(p + [id]) by {
          forall i, j | 0 <= i < j < |p + [id]| ensures (p + [id])[i] != (p + [id])[j] {
            if j == |p| { assert (p + [id])[i] in p; }
          }
        }
        p + [id]
  }

  /** The maps of `values` whose image is `imageId`, in the order of `values`. */
  function MapsWithImage(values: seq<Map>, imageId: ImageId): (r: seq<Map>)
    ensures forall m :: m in r <==> m in values && m.image.id == imageId
    ensures |r| <= |values|
  {
    if |values| == 0 then []
    else
      var p := MapsWithImage(values[..|values| - 1], imageId);
      var m := values[|values| - 1];
      assert values == values[..|values| - 1] + [m];
      if m.image.id == imageId then p + [m] else p
  }

  /**
   * Each map occurs in the group of its own image exactly as often as in the
   * collection (once, for maps stored under distinct ids), and in no other group.
   */
  lemma {:induction false} MapsWithImageCount(values: seq<Map>, imageId: ImageId, m: Map)
    ensures multiset(MapsWithImage(values, imageId))[m] ==
      if m.image.id == imageId then multiset(values)[m] else 0
  {
    if |values| > 0 {
      var init := values[..|values| - 1];
      var last := values[|values| - 1];
      MapsWithImageCount(init, imageId, m);
      assert values == init + [last];
      assert multiset(values) == multiset(init) + multiset{last};
      var p := MapsWithImage(init, imageId);
      if last.image.id == imageId {
        assert MapsWithImage(values, imageId) == p + [last];
        assert multiset(p + [last]) == multiset(p) + multiset{last};
      } else {
        assert MapsWithImage(values, imageId) == p;
      }
    }
  }

  /** The image id of each map of `values`, position by position. */
  function IdsOf(values: seq<Map>): (ids: seq<ImageId>)
    ensures |ids| == |values|
    ensures forall i :: 0 <= i < |values| ==> ids[i] == values[i].image.id
  {
    seq(|values|, i requires 0 <= i < |values| => values[i].image.id)
  }

  /** The group keys are in order of first appearance: an earlier key's image shows up first in `values`. */
  lemma {:induction false} ImageIdsOrder(values: seq<Map>)
    ensures InOrderOf(ImageIds(values), IdsOf(values))
  {
    if |values| > 0 {
      var init := values[..|values| - 1];
      var id := values[|values| - 1].image.id;
      ImageIdsOrder(init);
      var p, ids0 := ImageIds(init), IdsOf(init);
      assert IdsOf(values) == ids0 + [id];
      forall x | x in p ensures x in ids0 {
        var k :| 0 <= k < |init| && init[k].image.id == x;
        assert ids0[k] == x;
      }
      if id in p {
        assert ImageIds(values) == p;
        InOrderExtend(p, ids0, [id]);
      } else {
        forall k | 0 <= k < |ids0| ensures ids0[k] != id {
          assert ids0[k] == init[k].image.id;
        }
        assert ImageIds(values) == p + [id];
        InOrderSnoc(p, ids0, id);
      }
    }
  }

  /** Appending one map extends its own image's group and no other. */
  lemma MapsWithImageSnoc(values: seq<Map>, m: Map, imageId: ImageId)
    ensures MapsWithImage(values + [m], imageId) ==
      if m.image.id == imageId then MapsWithImage(values, imageId) + [m] else MapsWithImage(values, imageId)
  {
    assert (values + [m])[..|values|] == values;
  }

  /** Grouping distributes over concatenation, so each group keeps the order of the collection. */
  lemma {:induction false} MapsWithImageConcat(a: seq<Map>, b: seq<Map>, imageId: ImageId)
    ensures MapsWithImage(a + b, imageId) == MapsWithImage(a, imageId) + MapsWithImage(b, imageId)
  {
    if |b| == 0 {
      assert a + b == a;
    } else {
      var init, m := b[..|b| - 1], b[|b| - 1];
      assert b == init + [m];
      assert a + b == (a + init) + [m];
      MapsWithImageConcat(a, init, imageId);
      MapsWithImageSnoc(a + init, m, imageId);
      MapsWithImageSnoc(init, m, imageId);
    }
  }

  /** A single map forms a group of its own image only. */
  lemma MapsWithImageSingle(m: Map, imageId: ImageId)
    ensures MapsWithImage([m], imageId) == if m.image.id == imageId then [m] else []
  {
    assert [m][..0] == [];
  }

  /** The sum of the sizes of the groups of `values` for the image ids `ids`. */
  function GroupSizes(values: seq<Map>, ids: seq<ImageId>): nat {
    if |ids| == 0 then 0 else |MapsWithImage(values, ids[0])| + GroupSizes(values, ids[1..])
  }

  /** Appending one map adds one to the group of its image and nothing to the others. */
  lemma {:induction false} GroupSizesAppend(values: seq<Map>, m: Map, ids: seq<ImageId>)
    requires Distinct(ids)
    ensures GroupSizes(values + [m], ids) ==
      GroupSizes(values, ids) + if m.image.id in ids then 1 else 0
  {
    if |ids| > 0 {
      assert (values + [m])[..|values + [m]| - 1] == values;
      assert Distinct(ids[1..]) by {
        forall i, j | 0 <= i < j < |ids[1..]| ensures ids[1..][i] != ids[1..][j] {
          assert ids[1..][i] == ids[i + 1] && ids[1..][j] == ids[j + 1];
        }
      }
      GroupSizesAppend(values, m, ids[1..]);
      assert ids == [ids[0]] + ids[1..];
    }
  }

  /** An image that no map of `values` has gets an empty group. */
  lemma MapsWithImageAbsent(values: seq<Map>, imageId: ImageId)
    requires imageId !in ImageIds(values)
    ensures MapsWithImage(values, imageId) == []
  {
  }

  /** How the two views of the collection grow when one map is appended. */
  lemma AppendStep(values: seq<Map>, m: Map)
    ensures ImageIds(values + [m]) ==
      if m.image.id in ImageIds(values) then ImageIds(values) else ImageIds(values) + [m.image.id]
    ensures forall id :: (MapsWithImage(values + [m], id) ==
      if m.image.id == id then MapsWithImage(values, id) + [m] else MapsWithImage(values, id))
  {
    assert (values + [m])[..|values|] == values;
  }

  /** The groups' sizes add up to the number of maps. */
  lemma {:induction false} GroupSizesSum(values: seq<Map>)
    ensures GroupSizes(values, ImageIds(values)) == |values|
  {
    if |values| > 0 {
      var init := values[..|values| - 1];
      var m := values[|values| - 1];
      assert values == init + [m];
      GroupSizesSum(init);
      var ids := ImageIds(init);
      if m.image.id in ids {
        GroupSizesAppend(init, m, ids);
      } else {
        var ids' := ids + [m.image.id];
        assert ImageIds(values) == ids';
        GroupSizesSplit(values, ids, [m.image.id]);
        GroupSizesAppend(init, m, ids);
        MapsWithImageAbsent(init, m.image.id);
        GroupSizesAppend(init, m, [m.image.id]);
      }
    }
  }

  /** The sum over a concatenation of id lists is the sum of the two sums. */
  lemma {:induction false} GroupSizesSplit(values: seq<Map>, a: seq<ImageId>, b: seq<ImageId>)
    ensures GroupSizes(values, a + b) == GroupSizes(values, a) + GroupSizes(values, b)
  {
    if |a| > 0 {
      assert (a + b)[1..] == a[1..] + b;
      GroupSizesSplit(values, a[1..], b);
    } else {
      assert a + b == b;
    }
  }

  /** `groups` holds, under each image id of `values` in first-appearance order, that image's maps. */
  ghost predicate GroupsOf(groups: Dict<seq<Map>>, values: seq<Map>) {
    && groups.Valid()
    && groups.keys == ImageIds(values)
    && forall id :: id in groups.entries ==> groups.entries[id] == MapsWithImage(values, id)
  }

  /** Pushing one more map onto the list of its image keeps the grouping exact. */
  lemma GroupStep(before: Dict<seq<Map>>, after: Dict<seq<Map>>, values: seq<Map>, m: Map)
    requires GroupsOf(before, values)
    requires var created := if m.image.id in before.entries then before else before.Put(m.image.id, []);
      after == created.Put(m.image.id, created.entries[m.image.id] + [m])
    ensures GroupsOf(after, values + [m])
  {
    AppendStep(values, m);
    forall id | id in after.entries
      ensures after.entries[id] == MapsWithImage(values + [m], id)
    {
      GroupStepAt(before, after, values, m, id);
    }
  }

  /** The step of `GroupStep` for the list of one image id. */
  lemma GroupStepAt(before: Dict<seq<Map>>, after: Dict<seq<Map>>, values: seq<Map>, m: Map, id: ImageId)
    requires GroupsOf(before, values)
    requires var created := if m.image.id in before.entries then before else before.Put(m.image.id, []);
      after == created.Put(m.image.id, created.entries[m.image.id] + [m])
    requires id in after.entries
    ensures after.entries[id] == MapsWithImage(values + [m], id)
  {
    AppendStep(values, m);
    if id != m.image.id {
      assert after.entries[id] == before.entries[id];
    } else if m.image.id !in before.entries {
      MapsWithImageAbsent(values, id);
    }
  }

  /**
   * `groupMapsByImageId`: walks `Object.values(mapsByMapId)` and pushes each
   * map onto the list for its image id, creating the list on first sight.
   */
  method GroupMapsByImageId(mapsByMapId: Dict<Map>) returns (mapsByImageId: Dict<seq<Map>>)
    requires mapsByMapId.Valid()
    ensures mapsByImageId.Valid()
    ensures mapsByImageId.keys == ImageIds(mapsByMapId.Values())
    ensures forall id :: id in mapsByImageId.entries ==>
      mapsByImageId.entries[id] == MapsWithImage(mapsByMapId.Values(), id)
  {
    var values := mapsByMapId.Values();
    mapsByImageId := Empty();
    for i := 0 to |values|
      invariant GroupsOf(mapsByImageId, values[..i])
    {
      var m := values[i];
      var imageId := m.image.id;
      assert values[..i + 1] == values[..i] + [m];
      ghost var before := mapsByImageId;
      if imageId !in mapsByImageId.entries {
        mapsByImageId := mapsByImageId.Put(imageId, []);
      }
      mapsByImageId := mapsByImageId.Put(imageId, mapsByImageId.entries[imageId] + [m]);
      GroupStep(before, mapsByImageId, values[..i], m);
    }
    assert values[..|values|] == values;
  }

  /** The `activeMap` getter: the map stored under the active id, if there is one. */
  function ActiveMap(maps: Dict<Map>, activeMapId: Option<MapId>): (r: Option<Map>)
    ensures r.Some? <==> activeMapId.Some? && activeMapId.value in maps.entries
    ensures r.Some? ==> r.value == maps.entries[activeMapId.value]
  {
    if activeMapId.Some? && activeMapId.value in maps.entries then Some(maps.entries[activeMapId.value])
    else None
  }
}
