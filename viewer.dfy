/**
 * The page's module-level state as one object whose handlers update it in
 * place, step by step as `src/script.js` does. Each handler is proved to
 * leave the state the matching function of module ViewerSpec computes, and
 * to keep the invariant of module ViewerInvariant.
 */
module Controller {
  import opened SceneGraph
  import opened Descriptions
  import opened ViewerSpec
  import opened ViewerInvariant

  /**
   * The `forEach` over the scene root's children: each group and mesh gets
   * the visibility `rule` wants, other objects are skipped.
   */
  method VisibilityPass(nodes: map<ObjectId, Node>, children: seq<ObjectId>, rule: VisibilityRule)
    returns (r: map<ObjectId, Node>)
    ensures r == ApplyVisibility(nodes, children, rule)
  {
    r := nodes;
    var i := 0;
    while i < |children|
      invariant 0 <= i <= |children|
      invariant r == ApplyVisibility(nodes, children[..i], rule)
    {
      var child := children[i];
      ApplyVisibilityStep(nodes, children[..i], child, rule);
      assert children[..i] + [child] == children[..i + 1];
      if child in r && GroupOrMesh(r[child]) {
        r := r[child := r[child].(visible := Wanted(rule, child))];
      }
      i := i + 1;
    }
    assert children[..i] == children;
  }

  /**
   * The `traverse` over a loaded subtree: every mesh gets a fresh material,
   * the label as its name and the label's description.
   */
  method TagAll(nodes: map<ObjectId, Node>, name: string, description: string)
    returns (r: map<ObjectId, Node>)
    ensures r == TagMeshes(nodes, name, description)
  {
    var todo := nodes.Keys;
    r := nodes;
    while todo != {}
      invariant todo <= nodes.Keys && r.Keys == nodes.Keys
      invariant forall x {:trigger r[x]} :: x in r ==>
        r[x] == if x in todo then nodes[x] else Tagged(nodes[x], name, description)
      decreases todo
    {
      var child :| child in todo;
      r := r[child := Tagged(nodes[child], name, description)];
      todo := todo - {child};
    }
    assert r == TagMeshes(nodes, name, description);
  }

  class Viewer {
    var scene: Scene
    var models: map<string, Option<ObjectId>>
    var selectedObject: Option<ObjectId>
    var previousHighlightedObject: Option<ObjectId>
    var originalTransforms: map<ObjectId, Transform>
    var originalParents: map<ObjectId, Owner>
    var returnButtonShown: bool
    var tooltipShown: bool
    var anatomyInfo: Panel

    /** The fields read as one value of the state machine. */
    function State(): ViewState
      reads this
    {
      ViewState(scene, models, selectedObject, previousHighlightedObject,
                originalTransforms, originalParents, returnButtonShown, tooltipShown, anatomyInfo)
    }

    ghost predicate Valid()
      reads this
    {
      Invariant(State())
    }

    /** The page after its set-up code: three lights in the scene, no model loaded yet. */
    constructor ()
      ensures Valid() && State() == Initial()
    {
      scene := Initial().scene;
      models := InitialModels;
      selectedObject := None;
      previousHighlightedObject := None;
      originalTransforms := map[];
      originalParents := map[];
      returnButtonShown := false;
      tooltipShown := false;
      anatomyInfo := PageDefault;
      InitialInvariant();
    }

    /**
     * The success callback of `loadModel`, closing over the label and the
     * description chosen for it: the traversal tags every mesh of the
     * parsed subtree, then the root is named, registered under the label
     * and added to the scene.
     */
    method OnModelLoaded(name: string, description: string, sub: Scene, root: ObjectId)
      requires root in sub.nodes
      modifies this
      ensures State() == old(State()).(scene := Adopt(old(scene), name, description, sub, root),
                                       models := old(models)[name := Some(root)])
    {
      var tagged := TagAll(sub.nodes, name, description);
      var named := tagged[root := tagged[root].(name := name)];
      models := models[name := Some(root)];
      var sc := Merge(scene, sub.(nodes := named));
      scene := Add(sc, SceneRoot, root);
    }

    /**
     * `loadModel(name, ...)`: the description is chosen from the label,
     * and once the parsed asset arrives the success callback runs; the page
     * stays valid.
     */
    method LoadModel(name: string, sub: Scene, root: ObjectId)
      requires Valid() && Parsed(State(), sub, root)
      modifies this
      ensures Valid() && State() == Load(old(State()), name, sub, root)
    {
      LoadKeepsInvariant(State(), name, sub, root);
      var description := Describe(name);
      OnModelLoaded(name, description, sub, root);
    }

    /**
     * The first half of `isolateBone(o)`: turn off the previous highlight
     * if it is another object, record the snapshot, hide the other groups
     * and meshes at the root and show `o`.
     */
    method HideOthers(o: ObjectId)
      requires o in scene.nodes && o in scene.parent
      modifies this
      ensures State() == old(State()).(scene := Hide(old(scene), old(previousHighlightedObject), o),
                                       originalTransforms := old(originalTransforms)[o := old(scene).nodes[o].transform],
                                       originalParents := old(originalParents)[o := old(scene).parent[o]])
    {
      var sc := scene;
      if previousHighlightedObject.Some? && previousHighlightedObject.value != o {
        sc := Unhighlight(sc, previousHighlightedObject);
      }
      originalTransforms := originalTransforms[o := sc.nodes[o].transform];
      originalParents := originalParents[o := sc.parent[o]];
      var shown := VisibilityPass(sc.nodes, sc.top, IsolateRule(o, sc.parent[o]));
      sc := sc.(nodes := shown);
      scene := SetVisible(sc, o, true);
    }

    /**
     * `isolateBone(o)`: the first half above, then `o` moves from its
     * parent to the root and is highlighted.
     */
    method IsolateBone(o: ObjectId)
      requires o in scene.nodes && o in scene.parent && scene.nodes[o].kind == Mesh
      modifies this
      ensures State() == ViewerSpec.IsolateBone(old(State()), o)
    {
      HideOthers(o);
      var sc := Remove(scene, scene.parent[o], o);
      sc := Add(sc, SceneRoot, o);
      scene := SetEmissive(sc, o, true);
      selectedObject := Some(o);
      returnButtonShown := true;
      previousHighlightedObject := Some(o);
    }

    /**
     * `restoreSkeleton()`: if an object is isolated, copy its recorded
     * transform back, add it to its recorded parent, show every group and
     * mesh at the root again, turn its highlight off, hide the return
     * button and clear both references.
     */
    method RestoreSkeleton()
      requires Restorable(State())
      modifies this
      ensures State() == RestoreAsWritten(old(State()))
    {
      if selectedObject.Some? {
        var o := selectedObject.value;
        var sc := SetTransform(scene, o, originalTransforms[o]);
        sc := Add(sc, originalParents[o], o);
        var shown := VisibilityPass(sc.nodes, sc.top, ShowAll);
        sc := sc.(nodes := shown);
        sc := SetEmissive(sc, o, false);
        returnButtonShown := false;
        selectedObject := None;
        scene := sc;
        previousHighlightedObject := None;
      }
    }

    /**
     * The `mousemove` handler when the first hit is a visible mesh: it takes
     * over the highlight unless it already holds it, and the tooltip shows.
     */
    method HoverOver(h: ObjectId)
      requires h in scene.nodes && h in scene.parent && VisibleMesh(State(), h)
      modifies this
      ensures State() == MouseMove(old(State()), Some(h))
    {
      if previousHighlightedObject != Some(h) {
        var sc := Unhighlight(scene, previousHighlightedObject);
        scene := SetEmissive(sc, h, true);
        previousHighlightedObject := Some(h);
      }
      tooltipShown := true;
    }

    /** The `mousemove` handler when the ray hits nothing: the highlight is turned off, the tooltip hidden. */
    method HoverNothing()
      modifies this
      ensures State() == MouseMove(old(State()), None)
    {
      scene := Unhighlight(scene, previousHighlightedObject);
      previousHighlightedObject := None;
      tooltipShown := false;
    }

    /** The `mousemove` handler, given the first hit of the ray query. */
    method OnMouseMove(hit: Option<ObjectId>)
      requires Valid() && IsHit(State(), hit)
      modifies this
      ensures Valid() && State() == MouseMove(old(State()), hit)
    {
      MouseMoveKeepsInvariant(State(), hit);
      match hit
      case None =>
        HoverNothing();
      case Some(hovered) =>
        if scene.nodes[hovered].kind == Mesh && scene.nodes[hovered].visible {
          HoverOver(hovered);
        }
    }

    /**
     * The body of the canvas `click` handler once the hit is a visible mesh
     * other than the selected one: isolate it and show its name and
     * description in the information panel.
     */
    method ShowBone(c: ObjectId)
      requires c in scene.nodes && c in scene.parent && VisibleMesh(State(), c) && selectedObject != Some(c)
      modifies this
      ensures State() == Click(old(State()), Some(c))
    {
      var n := scene.nodes[c];
      IsolateBone(c);
      anatomyInfo := BoneInfo(n.name, PanelText(n.description));
    }

    /** The canvas `click` handler, given the first hit of the ray query. */
    method OnClick(hit: Option<ObjectId>)
      requires Valid() && IsHit(State(), hit)
      modifies this
      ensures Valid() && State() == Click(old(State()), hit)
    {
      ClickKeepsInvariant(State(), hit);
      if hit.Some? {
        var clicked := hit.value;
        if scene.nodes[clicked].kind == Mesh && scene.nodes[clicked].visible && selectedObject != Some(clicked) {
          ShowBone(clicked);
        }
      }
    }

    /**
     * The restore followed by the prompt, with the selection cleared. Between
     * the restore and the prompt it also turns off the object the highlight
     * reference named before the restore, which the page as written leaves
     * highlighted (see ViewerSpec.RestoreSkeleton).
     */
    method RestoreAndPrompt()
      requires Restorable(State())
      modifies this
      ensures State() == ReturnClicked(old(State()))
    {
      var restoring := selectedObject.Some?;
      var slot := previousHighlightedObject;
      RestoreSkeleton();
      if restoring {
        scene := Unhighlight(scene, slot);
      }
      anatomyInfo := Prompt;
      selectedObject := None;
    }

    /** The return button's click handler, with the corrected restore; the page stays valid. */
    method OnReturnClick()
      requires Valid()
      modifies this
      ensures Valid() && State() == ReturnClicked(old(State()))
    {
      ReturnKeepsInvariant(State(), Corrected);
      RestoreAndPrompt();
    }
  }
}
