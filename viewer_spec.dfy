/**
 * The viewer's state machine on values. A ViewState gathers everything the
 * page keeps at module level (the scene, the registry of loaded models, the
 * selected and highlighted objects, the isolation snapshots) together with
 * the three pieces of page state the handlers change: whether the return
 * button and the tooltip are shown, and what the information panel holds.
 * Each event handler is a function from state to state; the class in
 * module Controller performs the same steps in place.
 */
module ViewerSpec {
  import opened SceneGraph
  import opened Descriptions

  /** The information panel: the page's initial content, the prompt shown after a return, or a bone. */
  datatype Panel = PageDefault | Prompt | BoneInfo(heading: string, text: string)

  datatype ViewState = ViewState(
    scene: Scene,
    models: map<string, Option<ObjectId>>,
    selected: Option<ObjectId>,
    highlighted: Option<ObjectId>,
    originalTransforms: map<ObjectId, Transform>,
    originalParents: map<ObjectId, Owner>,
    returnShown: bool,
    tooltipShown: bool,
    panel: Panel)

  /** The ids of the three lights the page adds to the scene before any model. */
  const AmbientLight: ObjectId := 0
  const DirectionalLight: ObjectId := 1
  const DirectionalLightBelow: ObjectId := 2

  const Origin := Vector3(0.0, 0.0, 0.0)
  const UnitScale := Vector3(1.0, 1.0, 1.0)

  function Light(position: Vector3): Node {
    Node(Other, "", "", true, false, Transform(position, Origin, UnitScale))
  }

  /** The registry as first declared: lower-case keys, none of them loaded. */
  const InitialModels: map<string, Option<ObjectId>> := map[
    "atlas" := None, "femur" := None, "axis" := None, "calcaneum" := None,
    "carpus" := None, "cervicalvertebrae" := None, "caudalvertebrae" := None,
    "fibula" := None, "humerus" := None, "lumbarvertebrae" := None,
    "mandible" := None, "metacarpus" := None, "metatarsus" := None,
    "patella" := None, "pelvis" := None, "phalanges" := None, "radius" := None,
    "rib" := None, "sacrum" := None, "scapula" := None, "skull" := None,
    "tarsus" := None, "thoracicvertebrae" := None, "tibia" := None,
    "ulna" := None, "nonames" := None]

  /**
   * The state before any asset has finished loading: the scene holds the
   * three lights at its root and nothing else, no model is registered yet,
   * nothing is selected or highlighted, and the panel shows its default.
   */
  function Initial(): (r: ViewState)
    ensures r.scene.top == [AmbientLight, DirectionalLight, DirectionalLightBelow]
    ensures r.scene.nodes.Keys == {AmbientLight, DirectionalLight, DirectionalLightBelow}
    ensures forall x :: x in r.scene.nodes ==> r.scene.nodes[x].kind == Other && x in r.scene.parent && r.scene.parent[x] == SceneRoot
    ensures forall name :: name in r.models ==> r.models[name] == None
    ensures r.selected == None && r.highlighted == None && r.originalParents == map[] && r.originalTransforms == map[]
    ensures !r.returnShown && !r.tooltipShown && r.panel == PageDefault
  {
    ViewState(
      Scene(
        map[AmbientLight := Light(Origin),
            DirectionalLight := Light(Vector3(8.0, 10.0, 8.0)),
            DirectionalLightBelow := Light(Vector3(0.0, -8.0, 0.0))],
        map[AmbientLight := SceneRoot, DirectionalLight := SceneRoot, DirectionalLightBelow := SceneRoot],
        [AmbientLight, DirectionalLight, DirectionalLightBelow]),
      InitialModels, None, None, map[], map[], false, false, PageDefault)
  }

  /** Turning off the emissive highlight of the object in a slot, if any. */
  function Unhighlight(sc: Scene, slot: Option<ObjectId>): (r: Scene)
    ensures r.parent == sc.parent && r.top == sc.top && r.nodes.Keys == sc.nodes.Keys
    ensures slot.Some? && slot.value in sc.nodes ==> r.nodes[slot.value] == sc.nodes[slot.value].(emissive := false)
    ensures forall x {:trigger r.nodes[x]} :: x in sc.nodes && slot != Some(x) ==> r.nodes[x] == sc.nodes[x]
  {
    if slot.Some? then SetEmissive(sc, slot.value, false) else sc
  }

  // ----- loading -----

  /**
   * What the loader hands its success callback: a parsed subtree of fresh
   * objects, consistently linked, in which every object but the root has a
   * parent inside the subtree.
   */
  ghost predicate Parsed(s: ViewState, sub: Scene, root: ObjectId) {
    && root in sub.nodes
    && sub.nodes.Keys !! s.scene.nodes.Keys
    && Linked(sub)
    && KnownOwners(sub)
    && sub.parent.Keys == sub.nodes.Keys - {root}
    && sub.top == []
  }

  /** A mesh gets a fresh non-emissive material, the label as name and the label's description. */
  function Tagged(n: Node, name: string, description: string): (r: Node)
    ensures r.kind == n.kind && r.visible == n.visible && r.transform == n.transform
    ensures n.kind != Mesh ==> r == n
    ensures n.kind == Mesh ==> r.name == name && r.description == description && !r.emissive
  {
    if n.kind == Mesh then n.(name := name, description := description, emissive := false) else n
  }

  /** The traversal of the loaded subtree: every mesh in it is tagged. */
  function TagMeshes(nodes: map<ObjectId, Node>, name: string, description: string): (r: map<ObjectId, Node>)
    ensures r.Keys == nodes.Keys
    ensures forall x {:trigger r[x]} :: x in nodes ==> r[x] == Tagged(nodes[x], name, description)
  {
    map x | x in nodes :: Tagged(nodes[x], name, description)
  }

  /**
   * The scene after the loaded subtree joins it: its meshes tagged with the
   * label and the description, its root named with the label and added to
   * the scene root as its last child.
   */
  function Adopt(sc: Scene, name: string, description: string, sub: Scene, root: ObjectId): (r: Scene)
    requires root in sub.nodes
    ensures r.nodes.Keys == sc.nodes.Keys + sub.nodes.Keys
    ensures |r.top| > 0 && r.top[|r.top| - 1] == root
  {
    var tagged := TagMeshes(sub.nodes, name, description);
    var named := tagged[root := tagged[root].(name := name)];
    Add(Merge(sc, sub.(nodes := named)), SceneRoot, root)
  }

  /**
   * The success callback of `loadModel(name, ...)`: tag the meshes, name the
   * root, register it under the label (replacing any earlier model of that
   * label) and add it to the scene.
   */
  function Load(s: ViewState, name: string, sub: Scene, root: ObjectId): (r: ViewState)
    requires root in sub.nodes
    ensures r.scene.nodes.Keys == s.scene.nodes.Keys + sub.nodes.Keys
    ensures r.models == s.models[name := Some(root)]
  {
    s.(scene := Adopt(s.scene, name, Describe(name), sub, root), models := s.models[name := Some(root)])
  }

  // ----- isolation and restoration -----

  /**
   * The visibility `isolateBone(o)` leaves on `x`: `o` is shown; among the
   * root's groups and meshes exactly `o` and `o`'s parent are shown; every
   * other object keeps its flag.
   */
  function IsolatedVisibility(sc: Scene, o: ObjectId, x: ObjectId): bool
    requires o in sc.parent && x in sc.nodes
  {
    if x == o then true
    else if x in sc.top && GroupOrMesh(sc.nodes[x]) then Wanted(IsolateRule(o, sc.parent[o]), x)
    else sc.nodes[x].visible
  }

  /**
   * The first steps of `isolateBone(o)`: the previous highlight, if it is
   * another object, is turned off; the pass over the root's children hides
   * every group and mesh but `o` and its parent; `o` is made visible.
   */
  function Hide(sc: Scene, slot: Option<ObjectId>, o: ObjectId): (r: Scene)
    requires o in sc.nodes && o in sc.parent
    ensures r.parent == sc.parent && r.top == sc.top && r.nodes.Keys == sc.nodes.Keys
    ensures forall x {:trigger r.nodes[x]} :: x in sc.nodes ==>
      r.nodes[x] == sc.nodes[x].(visible := IsolatedVisibility(sc, o, x),
                                 emissive := if slot == Some(x) && x != o then false else sc.nodes[x].emissive)
  {
    var sc0 := if slot.Some? && slot.value != o then Unhighlight(sc, slot) else sc;
    var sc1 := sc0.(nodes := ApplyVisibility(sc0.nodes, sc0.top, IsolateRule(o, sc.parent[o])));
    SetVisible(sc1, o, true)
  }

  /** `o.parent.remove(o)` followed by `scene.add(o)`. */
  function MoveToRoot(sc: Scene, o: ObjectId): (r: Scene)
    requires o in sc.parent
    ensures r.nodes == sc.nodes
  {
    Add(Remove(sc, sc.parent[o], o), SceneRoot, o)
  }

  /**
   * `isolateBone(o)`. The function reads and writes the object's material,
   * so only meshes can be isolated.
   */
  function IsolateBone(s: ViewState, o: ObjectId): (r: ViewState)
    requires o in s.scene.nodes && o in s.scene.parent && s.scene.nodes[o].kind == Mesh
    ensures r.scene.nodes.Keys == s.scene.nodes.Keys
    ensures r.selected == Some(o) && r.highlighted == Some(o)
    ensures Restorable(r)
  {
    s.(scene := SetEmissive(MoveToRoot(Hide(s.scene, s.highlighted, o), o), o, true),
       originalTransforms := s.originalTransforms[o := s.scene.nodes[o].transform],
       originalParents := s.originalParents[o := s.scene.parent[o]],
       selected := Some(o),
       returnShown := true,
       highlighted := Some(o))
  }

  /** The snapshot of the selected object, if any, is on record. */
  predicate Restorable(s: ViewState) {
    s.selected.Some? ==> s.selected.value in s.originalTransforms && s.selected.value in s.originalParents
  }

  /** Putting `o` back: its recorded transform is copied in and it is added to its recorded parent. */
  function Reattach(sc: Scene, o: ObjectId, t: Transform, owner: Owner): (r: Scene)
    ensures r.nodes.Keys == sc.nodes.Keys
    ensures forall x {:trigger r.nodes[x]} :: x in sc.nodes ==> r.nodes[x] == if x == o then sc.nodes[x].(transform := t) else sc.nodes[x]
  {
    Add(SetTransform(sc, o, t), owner, o)
  }

  /** The pass over the root's children that shows every group and mesh again. */
  function ShowAllTop(sc: Scene): (r: Scene)
    ensures r.parent == sc.parent && r.top == sc.top && r.nodes.Keys == sc.nodes.Keys
    ensures forall x {:trigger r.nodes[x]} :: x in sc.nodes ==>
      r.nodes[x] == if x in sc.top && GroupOrMesh(sc.nodes[x]) then sc.nodes[x].(visible := true) else sc.nodes[x]
  {
    sc.(nodes := ApplyVisibility(sc.nodes, sc.top, ShowAll))
  }

  /**
   * `restoreSkeleton()` exactly as written: the highlight reference is
   * dropped, but only the selected object's emissive colour is reset.
   */
  function RestoreAsWritten(s: ViewState): (r: ViewState)
    requires Restorable(s)
    ensures r.scene.nodes.Keys == s.scene.nodes.Keys
    ensures r.selected == None
    ensures s.selected.None? ==> r == s
    ensures s.selected.Some? ==> r.highlighted == None && !r.returnShown
    ensures s.selected.Some? && s.selected.value in s.scene.nodes ==>
      var o := s.selected.value;
      && r.scene.nodes[o].transform == s.originalTransforms[o]
      && !r.scene.nodes[o].emissive
      && (s.originalParents[o] != Under(o) ==> o in r.scene.parent && r.scene.parent[o] == s.originalParents[o])
    ensures s.selected.Some? ==>
      forall x :: x in r.scene.nodes && x in r.scene.top && GroupOrMesh(r.scene.nodes[x]) ==> r.scene.nodes[x].visible
  {
    if s.selected.None? then s
    else
      var o := s.selected.value;
      var back := Reattach(s.scene, o, s.originalTransforms[o], s.originalParents[o]);
      s.(scene := SetEmissive(ShowAllTop(back), o, false), returnShown := false, selected := None, highlighted := None)
  }

  /**
   * `restoreSkeleton()` with the highlight reference cleared together with
   * its emissive colour, so that no highlighted object is left without a
   * reference (see RestoreAsWritten for the code as written).
   */
  function RestoreSkeleton(s: ViewState): (r: ViewState)
    requires Restorable(s)
    ensures r.scene.nodes.Keys == s.scene.nodes.Keys
    ensures r.selected == None
    ensures s.selected.Some? ==> r.highlighted == None && !r.returnShown
  {
    if s.selected.None? then s
    else
      var t := RestoreAsWritten(s);
      t.(scene := Unhighlight(t.scene, s.highlighted))
  }

  /** The return button's click handler, with the corrected restore. */
  function ReturnClicked(s: ViewState): (r: ViewState)
    requires Restorable(s)
    ensures r.selected == None && r.panel == Prompt
    ensures s.selected.Some? ==> r.highlighted == None && !r.returnShown
  {
    RestoreSkeleton(s).(panel := Prompt, selected := None)
  }

  /**
   * The return button's click handler as written: the restore, the prompt
   * in the panel, and the selection cleared once more.
   */
  function ReturnClickedAsWritten(s: ViewState): (r: ViewState)
    requires Restorable(s)
    ensures r.selected == None && r.panel == Prompt && r.scene.nodes.Keys == s.scene.nodes.Keys
    ensures s.selected.None? ==> r == s.(panel := Prompt)
    ensures s.selected.Some? ==> r.highlighted == None && !r.returnShown
    ensures s.selected.Some? && s.selected.value in s.scene.nodes ==>
      var o := s.selected.value;
      && r.scene.nodes[o].transform == s.originalTransforms[o]
      && !r.scene.nodes[o].emissive
      && (s.originalParents[o] != Under(o) ==> o in r.scene.parent && r.scene.parent[o] == s.originalParents[o])
    ensures s.selected.Some? ==>
      forall x :: x in r.scene.nodes && x in r.scene.top && GroupOrMesh(r.scene.nodes[x]) ==> r.scene.nodes[x].visible
  {
    RestoreAsWritten(s).(panel := Prompt, selected := None)
  }

  /** Which restore the return button runs: the one the page has, or the corrected one. */
  datatype Version = AsWritten | Corrected

  function RestoreWith(v: Version, s: ViewState): ViewState
    requires Restorable(s)
  {
    if v == AsWritten then RestoreAsWritten(s) else RestoreSkeleton(s)
  }

  function ReturnWith(v: Version, s: ViewState): ViewState
    requires Restorable(s)
  {
    if v == AsWritten then ReturnClickedAsWritten(s) else ReturnClicked(s)
  }

  // ----- pointer events -----

  /** A first ray hit, when there is one, is an object of the scene. */
  ghost predicate IsHit(s: ViewState, hit: Option<ObjectId>) {
    hit.Some? ==> hit.value in s.scene.nodes && hit.value in s.scene.parent
  }

  /** A hover or click acts only on a visible mesh. */
  predicate VisibleMesh(s: ViewState, x: ObjectId)
    requires x in s.scene.nodes
  {
    s.scene.nodes[x].kind == Mesh && s.scene.nodes[x].visible
  }

  /** The `mousemove` handler, given the first hit of the ray query. */
  function MouseMove(s: ViewState, hit: Option<ObjectId>): (r: ViewState)
    requires IsHit(s, hit)
    ensures r.scene.nodes.Keys == s.scene.nodes.Keys
    ensures r.scene.parent == s.scene.parent && r.scene.top == s.scene.top
    ensures forall x {:trigger r.scene.nodes[x]} :: x in s.scene.nodes ==> r.scene.nodes[x].kind == s.scene.nodes[x].kind
    ensures r.selected == s.selected && r.originalParents == s.originalParents && r.originalTransforms == s.originalTransforms
  {
    match hit
    case None =>
      s.(scene := Unhighlight(s.scene, s.highlighted), highlighted := None, tooltipShown := false)
    case Some(h) =>
      if VisibleMesh(s, h) then
        if s.highlighted != Some(h) then
          s.(scene := SetEmissive(Unhighlight(s.scene, s.highlighted), h, true),
             highlighted := Some(h),
             tooltipShown := true)
        else s.(tooltipShown := true)
      else s
  }

  /** The canvas `click` handler, given the first hit of the ray query. */
  function Click(s: ViewState, hit: Option<ObjectId>): (r: ViewState)
    requires IsHit(s, hit)
    ensures r.scene.nodes.Keys == s.scene.nodes.Keys
    ensures Restorable(s) ==> Restorable(r)
  {
    match hit
    case None => s
    case Some(c) =>
      if VisibleMesh(s, c) && s.selected != Some(c) then
        var n := s.scene.nodes[c];
        IsolateBone(s, c).(panel := BoneInfo(n.name, PanelText(n.description)))
      else s
  }

  // ----- invariant and event sequences -----

  /** Every emissive mesh is the one the highlight slot refers to. */
  ghost predicate SingleHighlight(s: ViewState) {
    forall x :: x in s.scene.nodes && s.scene.nodes[x].kind == Mesh && s.scene.nodes[x].emissive ==> s.highlighted == Some(x)
  }

  /** The object in the highlight slot, if any, is a mesh shown highlighted. */
  ghost predicate SlotLit(s: ViewState) {
    s.highlighted.Some? ==>
      && s.highlighted.value in s.scene.nodes
      && s.scene.nodes[s.highlighted.value].kind == Mesh
      && s.scene.nodes[s.highlighted.value].emissive
  }

  /** The recorded parents name known objects, and never the object itself. */
  ghost predicate SnapshotsKnown(s: ViewState) {
    forall x :: x in s.originalParents ==>
      s.originalParents[x] != Under(x) && (s.originalParents[x].Under? ==> s.originalParents[x].id in s.scene.nodes)
  }

  /**
   * What holds between events on the page as written: the scene is well
   * formed, the selection is a mesh with its snapshot on record, and the
   * highlight slot refers to a highlighted mesh.
   */
  ghost predicate Consistent(s: ViewState) {
    && WellFormed(s.scene)
    && (s.selected.Some? ==> s.selected.value in s.scene.nodes && s.scene.nodes[s.selected.value].kind == Mesh)
    && Restorable(s)
    && SnapshotsKnown(s)
    && SlotLit(s)
  }

  /** What holds between events with the corrected restore: moreover no other mesh is highlighted. */
  ghost predicate Invariant(s: ViewState) {
    Consistent(s) && SingleHighlight(s)
  }

  datatype Event =
    | Loaded(name: string, sub: Scene, root: ObjectId)
    | Moved(hit: Option<ObjectId>)
    | Clicked(hit: Option<ObjectId>)
    | ReturnPressed

  /**
   * When an event can happen: a load brings a fresh subtree, a pointer hit is
   * an object of the scene, and the return button can be pressed only while
   * it is shown (it is hidden with `display: 'none'` otherwise).
   */
  ghost predicate Enabled(s: ViewState, e: Event) {
    match e
    case Loaded(_, sub, root) => Parsed(s, sub, root)
    case Moved(hit) => IsHit(s, hit)
    case Clicked(hit) => IsHit(s, hit)
    case ReturnPressed => s.returnShown && Restorable(s)
  }

  /** One event, handled with the given version of the restore. */
  ghost function Step(v: Version, s: ViewState, e: Event): ViewState
    requires Enabled(s, e)
  {
    match e
    case Loaded(name, sub, root) => Load(s, name, sub, root)
    case Moved(hit) => MouseMove(s, hit)
    case Clicked(hit) => Click(s, hit)
    case ReturnPressed => ReturnWith(v, s)
  }

  /** Each event of the sequence can be handled in the state its predecessors leave. */
  ghost predicate Admissible(v: Version, s: ViewState, events: seq<Event>)
    decreases |events|
  {
    events != [] ==> Enabled(s, events[0]) && Admissible(v, Step(v, s, events[0]), events[1..])
  }

  ghost function Run(v: Version, s: ViewState, events: seq<Event>): ViewState
    requires Admissible(v, s, events)
    decreases |events|
  {
    if events == [] then s else Run(v, Step(v, s, events[0]), events[1..])
  }
}
