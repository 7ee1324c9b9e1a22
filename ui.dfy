/**
 * The UI store's pure parts: its getters for previous/next map navigation
 * and for the callback's project, and the toggle rule of the drawer.
 */
module Ui {
  import opened Wrappers
  import opened Dicts
  import opened Maps

  /** An external project, recognised by the hostnames its callbacks come from. */
  datatype Project = Project(projectLabel: string, hostnames: seq<string>)

  /** JavaScript truthiness of an optional string: `undefined` and `""` are falsy. */
  predicate Truthy(s: Option<string>) {
    s.Some? && s.value != ""
  }

  /** JavaScript's `a % n` for `n > 0`: the remainder of the division truncated toward zero. */
  function JsRemainder(a: int, n: int): (r: int)
    requires n > 0
    ensures -n < r < n
    ensures a >= 0 ==> r >= 0
    ensures a < 0 ==> r <= 0
    ensures -n < a < n ==> r == a
    ensures n <= a < 2 * n ==> r == a - n
    ensures a == 2 * n ==> r == 0
  {
    if a >= 0 then
      RemainderOfSmall(a, n);
      a % n
    else
      RemainderOfSmall(-a, n);
      -((-a) % n)
  }

  /** Euclidean `%` on a non-negative dividend below `2 * n`. */
  lemma RemainderOfSmall(a: nat, n: int)
    requires n > 0
    ensures a < n ==> a % n == a
    ensures n <= a < 2 * n ==> a % n == a - n
    ensures a == 2 * n ==> a % n == 0
  {
  }

  /**
   * The `previousMapId` getter: the key before the active one in the order
   * of `maps`, wrapping around from the first key to the last.
   */
  function PreviousMapId(mapIds: seq<MapId>, activeMapId: Option<MapId>): (r: Option<MapId>)
    ensures !Truthy(activeMapId) || |mapIds| == 0 ==> r == None
    ensures Truthy(activeMapId) && activeMapId.value in mapIds ==>
      var i := IndexOf(mapIds, activeMapId.value);
      r == Some(mapIds[if i == 0 then |mapIds| - 1 else i - 1])
    ensures Truthy(activeMapId) && activeMapId.value !in mapIds && |mapIds| > 0 ==>
      r == Some(mapIds[if |mapIds| >= 2 then |mapIds| - 2 else 0])
  {
    if !Truthy(activeMapId) then None
    // `x % 0` is NaN, and `mapIds[NaN]` is undefined
    else if |mapIds| == 0 then None
    else
      var k := IndexOf(mapIds, activeMapId.value);
      var i := JsRemainder(k - 1 + |mapIds|, |mapIds|);
      assert i == if k == -1 then (if |mapIds| >= 2 then |mapIds| - 2 else 0)
                 else if k == 0 then |mapIds| - 1 else k - 1;
      Some(mapIds[i])
  }

  /**
   * The `nextMapId` getter: the key after the active one in the order of
   * `maps`, wrapping around from the last key to the first.
   */
  function NextMapId(mapIds: seq<MapId>, activeMapId: Option<MapId>): (r: Option<MapId>)
    ensures !Truthy(activeMapId) || |mapIds| == 0 ==> r == None
    ensures Truthy(activeMapId) && activeMapId.value in mapIds ==>
      var i := IndexOf(mapIds, activeMapId.value);
      r == Some(mapIds[if i == |mapIds| - 1 then 0 else i + 1])
    ensures Truthy(activeMapId) && activeMapId.value !in mapIds && |mapIds| > 0 ==>
      r == Some(mapIds[0])
  {
    if !Truthy(activeMapId) then None
    else if |mapIds| == 0 then None
    else
      var k := IndexOf(mapIds, activeMapId.value);
      var i := JsRemainder(k + 1 + |mapIds|, |mapIds|);
      assert i == if k == -1 || k == |mapIds| - 1 then 0 else k + 1;
      Some(mapIds[i])
  }

  /**
   * Over distinct, non-empty ids, stepping back and then forward (or forward
   * and then back) returns to the active map.
   */
  lemma NextOfPrevious(mapIds: seq<MapId>, activeMapId: MapId)
    requires Distinct(mapIds) && "" !in mapIds && activeMapId in mapIds
    ensures NextMapId(mapIds, PreviousMapId(mapIds, Some(activeMapId))) == Some(activeMapId)
    ensures PreviousMapId(mapIds, NextMapId(mapIds, Some(activeMapId))) == Some(activeMapId)
  {
    var n := |mapIds|;
    var i := IndexOf(mapIds, activeMapId);
    var p := if i == 0 then n - 1 else i - 1;
    var q := if i == n - 1 then 0 else i + 1;
    assert PreviousMapId(mapIds, Some(activeMapId)) == Some(mapIds[p]);
    assert NextMapId(mapIds, Some(activeMapId)) == Some(mapIds[q]);
    assert mapIds[p] in mapIds && mapIds[q] in mapIds;
    IndexOfDistinct(mapIds, p);
    IndexOfDistinct(mapIds, q);
    assert NextMapId(mapIds, Some(mapIds[p])) == Some(mapIds[i]);
    assert PreviousMapId(mapIds, Some(mapIds[q])) == Some(mapIds[i]);
  }

  /** With ids `[a, b, c]` and `c` active, the next map is `a` and the previous one `b`. */
  lemma WrapAroundExample(a: MapId, b: MapId, c: MapId)
    requires Distinct([a, b, c]) && "" !in [a, b, c]
    ensures NextMapId([a, b, c], Some(c)) == Some(a)
    ensures PreviousMapId([a, b, c], Some(c)) == Some(b)
    ensures PreviousMapId([a, b, c], Some(a)) == Some(c)
  {
    IndexOfDistinct([a, b, c], 0);
    IndexOfDistinct([a, b, c], 2);
  }

  /** The label of the first project, in list order, that lists `hostname`. */
  function FirstProjectLabel(projects: seq<Project>, hostname: string): (r: Option<string>)
    ensures r.None? <==> forall i :: 0 <= i < |projects| ==> hostname !in projects[i].hostnames
    ensures r.Some? ==> exists i :: 0 <= i < |projects| && hostname in projects[i].hostnames
                                  && r.value == projects[i].projectLabel
                                  && forall j :: 0 <= j < i ==> hostname !in projects[j].hostnames
  {
    if |projects| == 0 then None
    else if hostname in projects[0].hostnames then Some(projects[0].projectLabel)
    else
      var r := FirstProjectLabel(projects[1..], hostname);
      assert forall i :: 1 <= i < |projects| ==> projects[i] == projects[1..][i - 1];
      if r.Some? then
        var i :| 0 <= i < |projects[1..]| && hostname in projects[1..][i].hostnames
                 && r.value == projects[1..][i].projectLabel
                 && forall j :: 0 <= j < i ==> hostname !in projects[1..][j].hostnames;
        assert projects[i + 1] == projects[1..][i];
        r
      else r
  }

  /**
   * The `callbackProject` getter. `hostnameOf` stands for the hostname that
   * the `URL` constructor parses out of the callback.
   */
  function CallbackProject(callback: Option<string>, projects: seq<Project>, hostnameOf: string -> string): (r: Option<string>)
    ensures !Truthy(callback) ==> r == None
    ensures Truthy(callback) ==> r == FirstProjectLabel(projects, hostnameOf(callback.value))
  {
    if !Truthy(callback) then None else FirstProjectLabel(projects, hostnameOf(callback.value))
  }

  /** The first listing wins: once a project lists the hostname, later projects are not consulted. */
  lemma {:induction false} FirstProjectWins(projects: seq<Project>, hostname: string, i: nat)
    requires i < |projects| && hostname in projects[i].hostnames
    requires forall j :: 0 <= j < i ==> hostname !in projects[j].hostnames
    ensures FirstProjectLabel(projects, hostname) == Some(projects[i].projectLabel)
  {
    if i > 0 {
      assert hostname !in projects[0].hostnames;
      FirstProjectWins(projects[1..], hostname, i - 1);
    }
  }

  /** `toggleDrawer`: the drawer already open closes, any other drawer opens. */
  function ToggledDrawer(drawerOpen: Option<string>, drawer: string): (r: Option<string>)
    ensures r == None <==> drawerOpen == Some(drawer)
    ensures r != None ==> r == Some(drawer)
  {
    if drawerOpen == Some(drawer) then None else Some(drawer)
  }

  /** Toggling the same drawer twice restores the state, except that a drawer that was open elsewhere ends closed. */
  lemma ToggleTwice(drawerOpen: Option<string>, drawer: string)
    ensures ToggledDrawer(ToggledDrawer(drawerOpen, drawer), drawer) ==
      if drawerOpen == Some(drawer) then drawerOpen else None
  {
  }

  /** Toggling one drawer and then another leaves the second one open. */
  lemma ToggleOther(drawerOpen: Option<string>, drawer: string, other: string)
    requires other != drawer
    ensures ToggledDrawer(ToggledDrawer(drawerOpen, drawer), other) == Some(other)
  {
  }
}
