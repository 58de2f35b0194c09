/**
 Cameras look through a viewpoint: every world object has one, with the list of the cameras on
 it. Events of the object are passed to those cameras, which may leave the list meanwhile.
 Objects and cameras go by number.
 */
module Cameras {
  import opened Wrappers
  import opened Sequences

  /**
   A world object with its viewpoint: the cameras on it, and the grid cell it is in, 0 for none.
   Units and dynamic objects are viewable, players always active; a player's client has been
   shown the visible objects.
   */
  datatype Object = Object(
    inWorld: bool,
    mapId: nat,
    viewable: bool,
    active: bool,
    visible: set<nat>,
    cameras: seq<nat>,
    grid: nat)

  /** A player's camera: the object it looks through, and the cell whose broadcasts it gets. */
  datatype Camera = Camera(owner: nat, source: nat, reach: nat)

  /** What happened to the object a viewpoint belongs to. */
  datatype Event = AddedToWorld | RemovedFromWorld | GridChanged | VisibilityChanged | UpdateVisibility

  // ---------- Lists ----------

  lemma WithoutOne(a: seq<nat>, c: nat, b: seq<nat>)
    requires Distinct(a + [c] + b)
    ensures Without(a + [c] + b, {c}) == a + b
  {
    hide Without;
    var list := a + [c] + b;
    assert list[|a|] == c;
    forall x | x in a ensures x != c {
      var i :| 0 <= i < |a| && a[i] == x;
      assert list[i] == x;
    }
    forall x | x in b ensures x != c {
      var i :| 0 <= i < |b| && b[i] == x;
      assert list[|a| + 1 + i] == x;
    }
    WithoutConcat(a + [c], b, {c});
    WithoutConcat(a, [c], {c});
    WithoutNone(a, {c});
    WithoutNone(b, {c});
    WithoutAll(c);
  }

  lemma WithoutAll(c: nat)
    ensures Without([c], {c}) == []
  {
  }

  // ---------- The scene ----------

  /** All objects and cameras, and the objects on the maps' lists of active ones. */
  datatype Scene = Scene(objects: map<nat, Object>, cameras: map<nat, Camera>, listed: set<nat>)

  /** Every camera is in the list of its source. */
  predicate Attached(s: Scene) {
    forall c :: c in s.cameras ==> var camera := s.cameras[c];
      && camera.owner in s.objects && s.objects[camera.owner].active && s.objects[camera.owner].viewable
      && camera.source in s.objects && c in s.objects[camera.source].cameras
  }

  /** A list holds cameras on its own object only, and each once. */
  predicate Exclusive(s: Scene) {
    forall o :: o in s.objects ==>
      && Distinct(s.objects[o].cameras)
      && forall c :: c in s.objects[o].cameras ==> c in s.cameras && s.cameras[c].source == o
  }

  /** An object that only cameras keep active is on its map's list exactly while it has some. */
  predicate Listed(s: Scene) {
    forall o :: o in s.objects && !s.objects[o].active ==> (o in s.listed <==> s.objects[o].cameras != [])
  }

  predicate Good(s: Scene) {
    Attached(s) && Exclusive(s) && Listed(s)
  }

  predicate CanMove(s: Scene, c: nat, to: nat) {
    c in s.cameras && s.cameras[c].source in s.objects && to in s.objects && to != s.cameras[c].source
  }

  /** A camera leaves its source's list for the end of another object's. */
  function Moved(s: Scene, c: nat, to: nat): Scene {
    if !CanMove(s, c, to) then s
    else
      var from := s.cameras[c].source;
      var source, target := s.objects[from], s.objects[to];
      var left := Without(source.cameras, {c});
      Scene(
        s.objects[from := source.(cameras := left)][to := target.(cameras := target.cameras + [c])],
        s.cameras[c := s.cameras[c].(source := to, reach := target.grid)],
        (if source.active || left != [] then s.listed else s.listed - {from})
          + (if target.active || target.cameras != [] then {} else {to}))
  }

  lemma MovedObject(s: Scene, c: nat, to: nat, o: nat)
    requires CanMove(s, c, to) && o in s.objects
    ensures var t, from := Moved(s, c, to), s.cameras[c].source;
      && t.objects.Keys == s.objects.Keys && t.cameras.Keys == s.cameras.Keys
      && t.objects[o] == s.objects[o].(cameras :=
           if o == from then Without(s.objects[o].cameras, {c})
           else if o == to then s.objects[o].cameras + [c]
           else s.objects[o].cameras)
  {
    hide Without;
  }

  lemma MovedCamera(s: Scene, c: nat, to: nat, d: nat)
    requires CanMove(s, c, to) && d in s.cameras
    ensures var t := Moved(s, c, to);
      && d in t.cameras
      && t.cameras[d] == if d == c then s.cameras[d].(source := to, reach := s.objects[to].grid) else s.cameras[d]
  {
    hide Without;
  }

  lemma MovedIsGood(s: Scene, c: nat, to: nat)
    requires Good(s)
    ensures Good(Moved(s, c, to))
  {
    if CanMove(s, c, to) {
      MovedIsAttached(s, c, to);
      MovedIsExclusive(s, c, to);
      MovedIsListed(s, c, to);
      hide Moved;
    }
    hide Attached, Exclusive, Listed;
  }

  lemma MovedIsAttached(s: Scene, c: nat, to: nat)
    requires Attached(s) && CanMove(s, c, to)
    ensures Attached(Moved(s, c, to))
  {
    var t := Moved(s, c, to);
    MovedObject(s, c, to, to);
    hide Moved, Without;
    forall d | d in t.cameras
      ensures var camera := t.cameras[d];
        && camera.owner in t.objects && t.objects[camera.owner].active && t.objects[camera.owner].viewable
        && camera.source in t.objects && d in t.objects[camera.source].cameras
    {
      MovedCamera(s, c, to, d);
      MovedObject(s, c, to, s.cameras[d].owner);
      MovedObject(s, c, to, t.cameras[d].source);
      WithoutKeeps(s.objects[t.cameras[d].source].cameras, {c});
    }
  }

  lemma MovedIsExclusive(s: Scene, c: nat, to: nat)
    requires Attached(s) && Exclusive(s) && CanMove(s, c, to)
    ensures Exclusive(Moved(s, c, to))
  {
    var t := Moved(s, c, to);
    MovedObject(s, c, to, to);
    assert c !in s.objects[to].cameras;
    hide Moved, Without, Attached;
    forall o | o in t.objects
      ensures Distinct(t.objects[o].cameras)
        && forall d :: d in t.objects[o].cameras ==> d in t.cameras && t.cameras[d].source == o
    {
      MovedObject(s, c, to, o);
      WithoutKeeps(s.objects[o].cameras, {c});
      forall d | d in t.objects[o].cameras ensures d in t.cameras && t.cameras[d].source == o {
        MovedCamera(s, c, to, d);
      }
    }
  }

  lemma MovedIsListed(s: Scene, c: nat, to: nat)
    requires Attached(s) && Listed(s) && CanMove(s, c, to)
    ensures Listed(Moved(s, c, to))
  {
    var t := Moved(s, c, to);
    assert c in s.objects[s.cameras[c].source].cameras;
    MovedObject(s, c, to, to);
    hide Attached, Without;
    forall o | o in t.objects && !t.objects[o].active ensures o in t.listed <==> t.objects[o].cameras != [] {
      MovedObject(s, c, to, o);
    }
  }

  // ---------- One event ----------

  /** Whether a camera on the object an event happened to goes back to its owner. */
  predicate Goes(s: Scene, c: nat, event: Event) {
    && c in s.cameras && s.cameras[c].owner in s.objects
    && s.cameras[c].source != s.cameras[c].owner && s.objects[s.cameras[c].owner].inWorld
    && (event.RemovedFromWorld? || (event.VisibilityChanged? && s.cameras[c].source !in s.objects[s.cameras[c].owner].visible))
  }

  function SetReach(s: Scene, c: nat, cell: nat): Scene {
    if c in s.cameras then s.(cameras := s.cameras[c := s.cameras[c].(reach := cell)]) else s
  }

  /** One camera told of an event. */
  function Told(s: Scene, c: nat, event: Event): Scene {
    if !(c in s.cameras && s.cameras[c].source in s.objects) then s
    else if Goes(s, c, event) then Moved(s, c, s.cameras[c].owner)
    else match event
      case AddedToWorld => SetReach(s, c, s.objects[s.cameras[c].source].grid)
      case GridChanged => SetReach(s, c, s.objects[s.cameras[c].source].grid)
      case RemovedFromWorld => if s.cameras[c].source == s.cameras[c].owner then SetReach(s, c, 0) else s
      case VisibilityChanged => s
      case UpdateVisibility => s
  }

  /** The cameras of a list told of an event, one after another. */
  function AllTold(s: Scene, list: seq<nat>, event: Event): Scene {
    if list == [] then s
    else Told(AllTold(s, list[..|list| - 1], event), list[|list| - 1], event)
  }

  lemma SetReachIsGood(s: Scene, c: nat, cell: nat)
    requires Good(s)
    ensures Good(SetReach(s, c, cell))
  {
    hide Distinct;
    var t := SetReach(s, c, cell);
    assert forall d :: d in t.cameras ==> d in s.cameras && t.cameras[d].source == s.cameras[d].source && t.cameras[d].owner == s.cameras[d].owner;
    assert Attached(t) by { hide Exclusive, Listed; }
    assert Exclusive(t) by { hide Attached, Listed; }
    assert Listed(t) by { hide Attached, Exclusive; }
    hide Attached, Exclusive, Listed;
  }

  lemma ToldIsGood(s: Scene, c: nat, event: Event)
    requires Good(s)
    ensures Good(Told(s, c, event))
  {
    hide Good, SetReach, Moved, Goes;
    if c in s.cameras && s.cameras[c].source in s.objects {
      MovedIsGood(s, c, s.cameras[c].owner);
      SetReachIsGood(s, c, s.objects[s.cameras[c].source].grid);
      SetReachIsGood(s, c, 0);
    }
  }

  // ---------- The whole list ----------

  /** Those of a list that do not go back to their owners, in order. */
  function Staying(s: Scene, list: seq<nat>, event: Event): seq<nat> {
    if list == [] then []
    else
      var rest := Staying(s, list[..|list| - 1], event);
      var last := list[|list| - 1];
      if Goes(s, last, event) then rest else rest + [last]
  }

  /** Those that go back to the owner `home`, in order. */
  function Homing(s: Scene, list: seq<nat>, event: Event, home: nat): seq<nat> {
    if list == [] then []
    else
      var rest := Homing(s, list[..|list| - 1], event, home);
      var last := list[|list| - 1];
      if Goes(s, last, event) && s.cameras[last].owner == home then rest + [last] else rest
  }

  /** A camera after it was told of an event of its source. */
  function After(s: Scene, c: nat, event: Event): Camera
    requires c in s.cameras && s.cameras[c].source in s.objects && s.cameras[c].owner in s.objects
  {
    var camera := s.cameras[c];
    if Goes(s, c, event) then camera.(source := camera.owner, reach := s.objects[camera.owner].grid)
    else if event.AddedToWorld? || event.GridChanged? then camera.(reach := s.objects[camera.source].grid)
    else if event.RemovedFromWorld? && camera.source == camera.owner then camera.(reach := 0)
    else camera
  }

  /** The list of an object's cameras after the first `k` of those on `x` were told. */
  function ListAfter(s: Scene, x: nat, k: nat, event: Event, o: nat): seq<nat>
    requires x in s.objects && o in s.objects && k <= |s.objects[x].cameras|
  {
    var list := s.objects[x].cameras;
    if o == x then Staying(s, list[..k], event) + list[k..]
    else s.objects[o].cameras + Homing(s, list[..k], event, o)
  }

  /** The scene `t` after the first `k` of the cameras on `x` in `s` were told. */
  predicate Progress(s: Scene, x: nat, k: nat, event: Event, t: Scene)
    requires Attached(s) && x in s.objects && k <= |s.objects[x].cameras|
  {
    && t.objects.Keys == s.objects.Keys && t.cameras.Keys == s.cameras.Keys
    && (forall o :: o in s.objects ==> t.objects[o] == s.objects[o].(cameras := ListAfter(s, x, k, event, o)))
    && (forall c :: c in s.cameras ==>
          t.cameras[c] == if c in s.objects[x].cameras[..k] then After(s, c, event) else s.cameras[c])
  }

  lemma OneMore(s: Scene, x: nat, k: nat, event: Event, o: nat)
    requires x in s.objects && o in s.objects && k < |s.objects[x].cameras|
    ensures var list := s.objects[x].cameras; var c, rest := list[k], list[k + 1..];
      && (forall d :: d in list[..k + 1] <==> d in list[..k] || d == c)
      && ListAfter(s, x, k, event, x) == Staying(s, list[..k], event) + [c] + rest
      && ListAfter(s, x, k + 1, event, x) == Staying(s, list[..k], event) + (if Goes(s, c, event) then [] else [c]) + rest
      && (o != x ==>
            ListAfter(s, x, k + 1, event, o) ==
            ListAfter(s, x, k, event, o) + if Goes(s, c, event) && s.cameras[c].owner == o then [c] else [])
  {
    var list := s.objects[x].cameras;
    var c, rest := list[k], list[k + 1..];
    assert list[..k + 1][..k] == list[..k] && list[..k + 1][k] == c;
    assert list[k..] == [c] + rest;
    var kept := Staying(s, list[..k], event);
    assert kept + ([c] + rest) == kept + [c] + rest;
    assert kept + [] + rest == kept + rest;
    hide Goes;
  }

  /** A camera's turn comes before anything has changed for it. */
  lemma TurnIsNext(s: Scene, x: nat, k: nat, event: Event, t: Scene)
    requires Good(s) && Good(t) && x in s.objects && k < |s.objects[x].cameras| && Progress(s, x, k, event, t)
    ensures var list := s.objects[x].cameras; var c := list[k];
      && c !in list[..k] && c in s.cameras && s.cameras[c].source == x
      && c in t.cameras && t.cameras[c] == s.cameras[c] && x in t.objects && s.cameras[c].owner in s.objects
      && (Goes(t, c, event) <==> Goes(s, c, event))
      && Distinct(t.objects[x].cameras)
  {
    var c := s.objects[x].cameras[k];
    assert c !in s.objects[x].cameras[..k] by { hide Listed, Attached, Progress; }
    assert c in s.cameras && s.cameras[c].source == x by { hide Listed, Attached, Progress; }
    assert x in t.objects && Distinct(t.objects[x].cameras) by { hide Listed, Attached, ListAfter; }
    hide Exclusive, Listed, Distinct, ListAfter;
  }

  lemma ProgressFor(s: Scene, x: nat, k: nat, event: Event, t: Scene, o: nat)
    requires Good(s) && x in s.objects && k <= |s.objects[x].cameras| && Progress(s, x, k, event, t) && o in s.objects
    ensures t.objects.Keys == s.objects.Keys && t.cameras.Keys == s.cameras.Keys
    ensures t.objects[o] == s.objects[o].(cameras := ListAfter(s, x, k, event, o))
  {
    hide Good, ListAfter, After;
  }

  lemma ObjectStep(s: Scene, x: nat, k: nat, event: Event, t: Scene, o: nat)
    requires Good(s) && Good(t) && x in s.objects && k < |s.objects[x].cameras| && Progress(s, x, k, event, t)
    requires o in s.objects
    ensures var u := Told(t, s.objects[x].cameras[k], event);
      u.objects.Keys == s.objects.Keys && u.objects[o] == s.objects[o].(cameras := ListAfter(s, x, k + 1, event, o))
  {
    hide Good, Progress, Moved, ListAfter, Staying, Homing, Distinct, Without;
    var list := s.objects[x].cameras;
    var c := list[k];
    TurnIsNext(s, x, k, event, t);
    ProgressFor(s, x, k, event, t, o);
    ProgressFor(s, x, k, event, t, x);
    OneMore(s, x, k, event, o);
    if Goes(t, c, event) {
      MovedObject(t, c, t.cameras[c].owner, o);
      WithoutOne(Staying(s, list[..k], event), c, list[k + 1..]);
    }
  }

  lemma CameraStep(s: Scene, x: nat, k: nat, event: Event, t: Scene, d: nat)
    requires Good(s) && Good(t) && x in s.objects && k < |s.objects[x].cameras| && Progress(s, x, k, event, t)
    requires d in s.cameras && s.cameras[d].source in s.objects && s.cameras[d].owner in s.objects
    requires t.cameras[d] == if d in s.objects[x].cameras[..k] then After(s, d, event) else s.cameras[d]
    ensures var u := Told(t, s.objects[x].cameras[k], event);
      && u.cameras.Keys == s.cameras.Keys
      && u.cameras[d] == if d in s.objects[x].cameras[..k + 1] then After(s, d, event) else s.cameras[d]
  {
    hide Good, Progress, Moved, ListAfter, Distinct, Without;
    var c := s.objects[x].cameras[k];
    TurnIsNext(s, x, k, event, t);
    ProgressFor(s, x, k, event, t, x);
    ProgressFor(s, x, k, event, t, s.cameras[c].owner);
    OneMore(s, x, k, event, x);
    if Goes(t, c, event) {
      MovedObject(t, c, t.cameras[c].owner, x);
      MovedCamera(t, c, t.cameras[c].owner, d);
    }
  }

  lemma ObjectsStep(s: Scene, x: nat, k: nat, event: Event, t: Scene)
    requires Good(s) && Good(t) && x in s.objects && k < |s.objects[x].cameras| && Progress(s, x, k, event, t)
    ensures var u := Told(t, s.objects[x].cameras[k], event);
      && u.objects.Keys == s.objects.Keys
      && forall o :: o in s.objects ==> u.objects[o] == s.objects[o].(cameras := ListAfter(s, x, k + 1, event, o))
  {
    hide Told, Good, Progress, ListAfter, After;
    ObjectStep(s, x, k, event, t, x);
    forall o | o in s.objects {
      ObjectStep(s, x, k, event, t, o);
    }
  }

  lemma CamerasStep(s: Scene, x: nat, k: nat, event: Event, t: Scene)
    requires Good(s) && Good(t) && x in s.objects && k < |s.objects[x].cameras| && Progress(s, x, k, event, t)
    ensures var u, told := Told(t, s.objects[x].cameras[k], event), s.objects[x].cameras[..k + 1];
      && u.cameras.Keys == s.cameras.Keys
      && forall d :: d in s.cameras ==> u.cameras[d] == if d in told then After(s, d, event) else s.cameras[d]
  {
    hide Told, Exclusive, Listed, ListAfter, After;
    TurnIsNext(s, x, k, event, t);
    CameraStep(s, x, k, event, t, s.objects[x].cameras[k]);
    forall d | d in s.cameras {
      CameraStep(s, x, k, event, t, d);
    }
  }

  lemma ProgressStep(s: Scene, x: nat, k: nat, event: Event, t: Scene)
    requires Good(s) && Good(t) && x in s.objects && k < |s.objects[x].cameras| && Progress(s, x, k, event, t)
    ensures Progress(s, x, k + 1, event, Told(t, s.objects[x].cameras[k], event))
  {
    hide Told, Exclusive, Listed, ListAfter, After;
    ObjectsStep(s, x, k, event, t);
    CamerasStep(s, x, k, event, t);
  }

  lemma ProgressStart(s: Scene, x: nat, event: Event)
    requires Good(s) && x in s.objects
    ensures Progress(s, x, 0, event, s)
  {
    hide Exclusive, Listed, After;
    var list := s.objects[x].cameras;
    assert list[..0] == [] && list[0..] == list;
    forall o | o in s.objects ensures s.objects[o].cameras == ListAfter(s, x, 0, event, o) {
      assert s.objects[o].cameras + [] == s.objects[o].cameras;
    }
  }

  /** What telling the first `k` of the cameras on an object comes to. */
  lemma {:induction false} AllToldIs(s: Scene, x: nat, k: nat, event: Event)
    requires Good(s) && x in s.objects && k <= |s.objects[x].cameras|
    ensures var t := AllTold(s, s.objects[x].cameras[..k], event);
      Good(t) && Progress(s, x, k, event, t)
  {
    hide Attached, Exclusive, Listed, Progress, Told;
    var list := s.objects[x].cameras;
    if k == 0 {
      ProgressStart(s, x, event);
    } else {
      var t := AllTold(s, list[..k - 1], event);
      AllToldIs(s, x, k - 1, event);
      ToldIsGood(t, list[k - 1], event);
      ProgressStep(s, x, k - 1, event, t);
      assert list[..k][..k - 1] == list[..k - 1] && list[..k][k - 1] == list[k - 1];
    }
  }

  // ---------- What an event leaves behind ----------

  lemma {:induction false} StayingAre(s: Scene, list: seq<nat>, event: Event)
    ensures forall c :: c in Staying(s, list, event) <==> c in list && !Goes(s, c, event)
  {
    hide Goes;
    if list != [] {
      StayingAre(s, list[..|list| - 1], event);
    }
  }

  /**
   When an object leaves the world only its own cameras stay on it, and those whose owner is out
   of the world too; the others look through their owners again.
   */
  lemma OnlyOwnRemain(s: Scene, x: nat)
    requires Good(s) && x in s.objects
    ensures var list := s.objects[x].cameras;
      var t := AllTold(s, list, RemovedFromWorld);
      && Good(t) && x in t.objects && t.objects[x].cameras == Staying(s, list, RemovedFromWorld)
      && forall c :: c in list ==>
           && c in s.cameras && s.cameras[c].owner in s.objects && c in t.cameras
           && (c in t.objects[x].cameras <==> s.cameras[c].owner == x || !s.objects[s.cameras[c].owner].inWorld)
           && (c !in t.objects[x].cameras ==> t.cameras[c].source == s.cameras[c].owner)
  {
    var list := s.objects[x].cameras;
    assert list[..|list|] == list && list[|list|..] == [];
    AllToldIs(s, x, |list|, RemovedFromWorld);
    StayingAre(s, list, RemovedFromWorld);
    assert Staying(s, list, RemovedFromWorld) + [] == Staying(s, list, RemovedFromWorld);
    hide Listed, Distinct, Staying, Homing, AllTold;
  }

  /**
   What an event of an object does to every camera on it: a changed visibility sends those home
   whose owner, in the world, has not been shown the object; leaving the world sends home all whose
   owner is another object in the world, and its own get no broadcasts; a new cell is followed.
   Cameras elsewhere stay as they are.
   */
  lemma EachCameraAfter(s: Scene, x: nat, event: Event, c: nat)
    requires Good(s) && x in s.objects && c in s.cameras
    ensures s.cameras[c].owner in s.objects
    ensures var t := AllTold(s, s.objects[x].cameras, event);
      var cam := s.cameras[c];
      var owner := s.objects[cam.owner];
      var home := Camera(cam.owner, cam.owner, owner.grid);
      && c in t.cameras
      && t.cameras[c] == if cam.source != x then cam else
           match event
           case AddedToWorld => Camera(cam.owner, x, s.objects[x].grid)
           case GridChanged => Camera(cam.owner, x, s.objects[x].grid)
           case RemovedFromWorld =>
             if cam.owner == x then Camera(x, x, 0) else if owner.inWorld then home else cam
           case VisibilityChanged =>
             if cam.owner != x && owner.inWorld && x !in owner.visible then home else cam
           case UpdateVisibility => cam
  {
    hide Good, AllTold;
    ToldOnce(s, x, event, c);
  }

  lemma ToldOnce(s: Scene, x: nat, event: Event, c: nat)
    requires Good(s) && x in s.objects && c in s.cameras
    ensures s.cameras[c].owner in s.objects && s.cameras[c].source in s.objects
    ensures var t := AllTold(s, s.objects[x].cameras, event);
      c in t.cameras && t.cameras[c] == if s.cameras[c].source == x then After(s, c, event) else s.cameras[c]
  {
    hide Listed, Distinct, ListAfter, AllTold, After;
    var list := s.objects[x].cameras;
    assert list[..|list|] == list;
    AllToldIs(s, x, |list|, event);
    assert c in list <==> s.cameras[c].source == x;
  }

  /** Every camera gets the broadcasts of the cell its source is in. */
  predicate InReach(s: Scene, except: set<nat>) {
    forall c :: c in s.cameras && s.cameras[c].source in s.objects && s.cameras[c].source !in except ==>
      s.cameras[c].reach == s.objects[s.cameras[c].source].grid
  }

  /** A camera away from its owner, which is out of the world, cannot go back. */
  predicate Stuck(s: Scene, c: nat) {
    && c in s.cameras && s.cameras[c].owner != s.cameras[c].source
    && s.cameras[c].owner in s.objects && !s.objects[s.cameras[c].owner].inWorld
  }

  /**
   An event after which the object's cell is new brings every camera into reach of its source
   again; when the object left the world, just if no camera stayed on it that was not its own
   and still had a cell.
   */
  lemma EventRestoresReach(s: Scene, x: nat, event: Event)
    requires Good(s) && x in s.objects && InReach(s, {x})
    requires event.AddedToWorld? || event.GridChanged? || (event.RemovedFromWorld? && s.objects[x].grid == 0)
    ensures InReach(AllTold(s, s.objects[x].cameras, event), {}) <==>
      !event.RemovedFromWorld? || forall c :: c in s.cameras && s.cameras[c].source == x && Stuck(s, c) ==> s.cameras[c].reach == 0
  {
    hide Exclusive, Listed, Distinct, AllTold, ListAfter, Progress;
    var list := s.objects[x].cameras;
    assert list[..|list|] == list;
    AllToldIs(s, x, |list|, event);
    var t := AllTold(s, list, event);
    ProgressFor(s, x, |list|, event, t, x);
    forall c | c in s.cameras
      ensures t.cameras[c].source in t.objects
      ensures t.cameras[c].reach == t.objects[t.cameras[c].source].grid <==>
        !(event.RemovedFromWorld? && s.cameras[c].source == x && Stuck(s, c) && s.cameras[c].reach != 0)
    {
      hide InReach, Attached;
      ReachAfter(s, x, event, t, c);
    }
  }

  lemma ReachAfter(s: Scene, x: nat, event: Event, t: Scene, c: nat)
    requires Good(s) && x in s.objects && InReach(s, {x}) && c in s.cameras
    requires Progress(s, x, |s.objects[x].cameras|, event, t)
    requires event.AddedToWorld? || event.GridChanged? || (event.RemovedFromWorld? && s.objects[x].grid == 0)
    ensures c in t.cameras && t.cameras[c].source in t.objects
    ensures t.cameras[c].reach == t.objects[t.cameras[c].source].grid <==>
      !(event.RemovedFromWorld? && s.cameras[c].source == x && Stuck(s, c) && s.cameras[c].reach != 0)
  {
    hide Listed, Distinct, ListAfter;
    var list := s.objects[x].cameras;
    assert list[..|list|] == list;
    assert c in list <==> s.cameras[c].source == x;
    assert s.cameras[c].source != x ==> s.cameras[c].reach == s.objects[s.cameras[c].source].grid;
  }

  // ---------- The objects at work ----------

  class World {
    var objects: map<nat, Object>
    var cameras: map<nat, Camera>
    var activeNonPlayers: set<nat>

    ghost function View(): Scene
      reads this
    {
      Scene(objects, cameras, activeNonPlayers)
    }

    predicate IsInMap(o: nat, obj: nat)
      requires o in objects && obj in objects
      reads this`objects
    {
      objects[o].inWorld && objects[obj].inWorld && objects[o].mapId == objects[obj].mapId
    }

    predicate IsActiveObject(o: nat)
      requires o in objects
      reads this`objects
    {
      objects[o].active || objects[o].cameras != []
    }

    method Attach(o: nat, c: nat)
      requires o in objects
      modifies this`objects
      ensures objects == old(objects)[o := old(objects)[o].(cameras := old(objects)[o].cameras + [c])]
    {
      objects := objects[o := objects[o].(cameras := objects[o].cameras + [c])];
    }

    method Detach(o: nat, c: nat)
      requires o in objects
      modifies this`objects
      ensures objects == old(objects)[o := old(objects)[o].(cameras := Without(old(objects)[o].cameras, {c}))]
    {
      var kept, list := [], objects[o].cameras;
      for i := 0 to |list|
        invariant objects == old(objects) && kept == Without(list[..i], {c})
      {
        assert list[..i + 1] == list[..i] + [list[i]];
        WithoutConcat(list[..i], [list[i]], {c});
        if list[i] != c {
          kept := kept + [list[i]];
        }
      }
      assert list[..|list|] == list;
      objects := objects[o := objects[o].(cameras := kept)];
    }

    /** A player's camera begins on the player. */
    method NewCamera(c: nat, player: nat)
      requires Good(View()) && c !in cameras
      requires player in objects && objects[player].active && objects[player].viewable
      modifies this`objects, this`cameras
      ensures Good(View())
      ensures cameras == old(cameras)[c := Camera(player, player, 0)]
      ensures objects == old(objects)[player := old(objects)[player].(cameras := old(objects)[player].cameras + [c])]
    {
      NewIsGood(View(), c, player);
      hide Good;
      cameras := cameras[c := Camera(player, player, 0)];
      Attach(player, c);
    }

    /** The part of a change of view that takes effect. */
    method Move(c: nat, obj: nat)
      requires CanMove(View(), c, obj)
      modifies this
      ensures View() == Moved(old(View()), c, obj)
    {
      hide Without;
      var from := cameras[c].source;
      Detach(from, c);
      if !IsActiveObject(from) {
        activeNonPlayers := activeNonPlayers - {from};
      }
      cameras := cameras[c := cameras[c].(source := obj)];
      if !IsActiveObject(obj) {
        activeNonPlayers := activeNonPlayers + {obj};
      }
      Attach(obj, c);
      cameras := cameras[c := cameras[c].(reach := objects[obj].grid)];
    }

    method SetView(c: nat, obj: nat)
      requires Good(View()) && c in cameras && cameras[c].owner in objects && cameras[c].source in objects && obj in objects
      modifies this
      ensures Good(View())
      ensures View() ==
        if old(cameras[c].source != obj && objects[cameras[c].owner].inWorld && objects[obj].inWorld
               && objects[cameras[c].owner].mapId == objects[obj].mapId && objects[obj].viewable)
        then Moved(old(View()), c, obj) else old(View())
    {
      hide Good, Moved;
      if cameras[c].source == obj {
        return;
      }
      if !IsInMap(cameras[c].owner, obj) {
        return;
      }
      if !objects[obj].viewable {
        return;
      }
      MovedIsGood(View(), c, obj);
      Move(c, obj);
    }

    /** Tells one camera of an event of its source. */
    method Handle(c: nat, event: Event)
      requires Good(View()) && c in cameras && cameras[c].source in objects
      requires cameras[c].owner in objects && objects[cameras[c].owner].viewable
      modifies this
      ensures Good(View())
      ensures View() == Told(old(View()), c, event)
    {
      hide Good, Moved;
      ToldIsGood(View(), c, event);
      var owner, source := cameras[c].owner, cameras[c].source;
      match event {
        case AddedToWorld => cameras := cameras[c := cameras[c].(reach := objects[source].grid)];
        case GridChanged => cameras := cameras[c := cameras[c].(reach := objects[source].grid)];
        case RemovedFromWorld =>
          if source == owner {
            cameras := cameras[c := cameras[c].(reach := 0)];
          } else {
            SetView(c, owner);
          }
        case VisibilityChanged =>
          if source !in objects[owner].visible {
            SetView(c, owner);
          }
        case UpdateVisibility =>
      }
    }

    /** The element of a list after another; none at its end. */
    method Next(list: seq<nat>, c: nat, ghost at: nat) returns (next: Option<nat>)
      requires Distinct(list) && at < |list| && list[at] == c
      ensures next == if at + 1 < |list| then Some(list[at + 1]) else None
    {
      var i := 0;
      while list[i] != c
        invariant 0 <= i <= at
        decreases at - i
      {
        i := i + 1;
      }
      next := if i + 1 < |list| then Some(list[i + 1]) else None;
    }

    /** One turn of the loop: saves the next place in the list, then calls the camera. */
    method TellOne(x: nat, c: nat, event: Event, ghost s: Scene, ghost k: nat) returns (next: Option<nat>)
      requires Good(s) && x in s.objects && k < |s.objects[x].cameras| && c == s.objects[x].cameras[k]
      requires Good(View()) && Progress(s, x, k, event, View())
      modifies this
      ensures Good(View())
      ensures View() == Told(old(View()), c, event)
      ensures next == if k + 1 < |s.objects[x].cameras| then Some(s.objects[x].cameras[k + 1]) else None
    {
      hide Attached, Exclusive, Listed, Progress, Told, Distinct, Goes, ListAfter;
      ghost var list := s.objects[x].cameras;
      TurnIsNext(s, x, k, event, View());
      ProgressFor(s, x, k, event, View(), x);
      ProgressFor(s, x, k, event, View(), s.cameras[c].owner);
      OneMore(s, x, k, event, x);
      OwnerCanBeViewed(s, c);
      next := Next(objects[x].cameras, c, |Staying(s, list[..k], event)|);
      Handle(c, event);
    }

    /**
     Tells every camera on an object's viewpoint of an event, each once and in order. The place
     in the list is saved before each call, as the camera called may leave the list.
     */
    method CameraCall(x: nat, event: Event)
      requires Good(View()) && x in objects
      modifies this
      ensures Good(View())
      ensures View() == AllTold(old(View()), old(objects)[x].cameras, event)
    {
      hide Attached, Exclusive, Listed, Progress, Told, AllTold;
      ghost var s, list := View(), objects[x].cameras;
      ghost var k := 0;
      assert list[..0] == [] && list[..|list|] == list;
      AllToldIs(s, x, 0, event);
      Unfold(s, list, 0, event);
      var itr := if objects[x].cameras == [] then None else Some(objects[x].cameras[0]);
      while itr.Some?
        invariant k <= |list| && Good(View()) && Attached(s) && Progress(s, x, k, event, View())
        invariant View() == AllTold(s, list[..k], event)
        invariant itr == if k < |list| then Some(list[k]) else None
        decreases |list| - k
      {
        Unfold(s, list, k, event);
        itr := TellOne(x, itr.value, event, s, k);
        k := k + 1;
        AllToldIs(s, x, k, event);
      }
    }

    method SetGrid(x: nat, cell: nat)
      requires x in objects
      modifies this`objects
      ensures objects == old(objects)[x := old(objects)[x].(grid := cell)]
    {
      objects := objects[x := objects[x].(grid := cell)];
    }

    method EventAddedToWorld(x: nat, cell: nat)
      requires Good(View()) && x in objects
      modifies this
      ensures Good(View())
      ensures old(InReach(View(), {})) ==> InReach(View(), {})
    {
      GridIsGood(View(), x, cell);
      hide Good, InReach, AllTold;
      SetGrid(x, cell);
      ghost var s := View();
      CameraCall(x, AddedToWorld);
      if InReach(s, {x}) { EventRestoresReach(s, x, AddedToWorld); }
    }

    method EventGridChanged(x: nat, cell: nat)
      requires Good(View()) && x in objects
      modifies this
      ensures Good(View())
      ensures old(InReach(View(), {})) ==> InReach(View(), {})
    {
      GridIsGood(View(), x, cell);
      hide Good, InReach, AllTold;
      SetGrid(x, cell);
      ghost var s := View();
      CameraCall(x, GridChanged);
      if InReach(s, {x}) { EventRestoresReach(s, x, GridChanged); }
    }

    /** Afterwards only the object's own cameras are on it, and those that cannot go back. */
    method EventRemovedFromWorld(x: nat)
      requires Good(View()) && x in objects
      modifies this
      ensures Good(View()) && x in objects
      ensures forall c :: c in old(objects)[x].cameras ==>
        && c in old(cameras) && old(cameras)[c].owner in old(objects) && c in cameras
        && (c in objects[x].cameras <==> old(cameras)[c].owner == x || !old(objects)[old(cameras)[c].owner].inWorld)
        && (c !in objects[x].cameras ==> cameras[c].source == old(cameras)[c].owner)
    {
      GridIsGood(View(), x, 0);
      hide Good, InReach, AllTold, Staying;
      SetGrid(x, 0);
      OnlyOwnRemain(View(), x);
      CameraCall(x, RemovedFromWorld);
    }

    method EventViewPointVisibilityChanged(x: nat)
      requires Good(View()) && x in objects
      modifies this
      ensures Good(View())
      ensures View() == AllTold(old(View()), old(objects)[x].cameras, VisibilityChanged)
    {
      hide Good, AllTold;
      CameraCall(x, VisibilityChanged);
    }
  }

  lemma GridIsGood(s: Scene, x: nat, cell: nat)
    requires Good(s) && x in s.objects
    ensures var t := s.(objects := s.objects[x := s.objects[x].(grid := cell)]);
      Good(t) && (InReach(s, {}) ==> InReach(t, {x}))
  {
    hide Distinct;
    var t := s.(objects := s.objects[x := s.objects[x].(grid := cell)]);
    assert Attached(t) by { hide Exclusive, Listed; }
    assert Exclusive(t) by { hide Attached, Listed; }
    assert Listed(t) by { hide Attached, Exclusive; }
  }

  lemma Unfold(s: Scene, list: seq<nat>, k: nat, event: Event)
    requires k <= |list|
    ensures AllTold(s, [], event) == s
    ensures k < |list| ==> AllTold(s, list[..k + 1], event) == Told(AllTold(s, list[..k], event), list[k], event)
  {
    hide Told;
    if k < |list| {
      assert list[..k + 1][..k] == list[..k] && list[..k + 1][k] == list[k];
    }
  }

  lemma OwnerCanBeViewed(s: Scene, c: nat)
    requires Good(s) && c in s.cameras
    ensures s.cameras[c].owner in s.objects && s.objects[s.cameras[c].owner].viewable
  {
  }

  lemma NewIsGood(s: Scene, c: nat, player: nat)
    requires Good(s) && c !in s.cameras && player in s.objects && s.objects[player].active && s.objects[player].viewable
    ensures var o := s.objects[player];
      Good(Scene(s.objects[player := o.(cameras := o.cameras + [c])], s.cameras[c := Camera(player, player, 0)], s.listed))
  {
    var o := s.objects[player];
    var t := Scene(s.objects[player := o.(cameras := o.cameras + [c])], s.cameras[c := Camera(player, player, 0)], s.listed);
    assert Attached(t) by { hide Exclusive, Listed, Distinct; }
    assert Exclusive(t) by { hide Attached, Listed; }
    assert Listed(t) by { hide Attached, Exclusive; }
  }
}
