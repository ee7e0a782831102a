/**
 * What the viewer's handlers do: loading registers and adds a model,
 * isolating shows one bone out of its group, restoring puts it back,
 * hovering moves the single highlight, and clicking shows a description.
 */
module ViewerBehaviour {
  import opened SceneGraph
  import opened Descriptions
  import opened ViewerSpec
  import opened ViewerInvariant

  // ----- loading -----

  /** The scene after the loaded subtree joins it, for any description the meshes are tagged with. */
  lemma AdoptEffects(s: ViewState, name: string, description: string, sub: Scene, root: ObjectId)
    requires Consistent(s) && Parsed(s, sub, root)
    ensures var r := Adopt(s.scene, name, description, sub, root);
      && r.parent[root] == SceneRoot
      && r.top[|r.top| - 1] == root
      && (forall x :: x in s.scene.nodes ==> r.nodes[x] == s.scene.nodes[x] && r.parent[x] == s.scene.parent[x])
      && (forall x :: x in s.scene.top ==> x in r.top)
      && (forall x :: x in sub.nodes && x != root ==> r.parent[x] == sub.parent[x])
      && (forall x :: x in sub.nodes && sub.nodes[x].kind == Mesh ==>
            r.nodes[x].name == name && r.nodes[x].description == description && !r.nodes[x].emissive)
      && r.nodes[root].name == name
  {
    AdoptLinks(s.scene, name, description, sub, root);
    AdoptNodes(s.scene, name, description, sub, root);
  }

  /**
   * The success callback registers the root under the label and appends it
   * to the scene root; the meshes of the subtree carry the label and its
   * description; nothing already in the scene changes.
   */
  lemma LoadRegistersAndAdds(s: ViewState, name: string, sub: Scene, root: ObjectId)
    requires Consistent(s) && Parsed(s, sub, root)
    ensures var r := Load(s, name, sub, root);
      && r.models[name] == Some(root)
      && (forall k :: k in s.models && k != name ==> r.models[k] == s.models[k])
      && r.scene.parent[root] == SceneRoot
      && r.scene.top[|r.scene.top| - 1] == root
      && (forall x :: x in s.scene.nodes ==> r.scene.nodes[x] == s.scene.nodes[x] && r.scene.parent[x] == s.scene.parent[x])
      && (forall x :: x in s.scene.top ==> x in r.scene.top)
      && (forall x :: x in sub.nodes && x != root ==> r.scene.parent[x] == sub.parent[x])
      && (forall x :: x in sub.nodes && sub.nodes[x].kind == Mesh ==>
            r.scene.nodes[x].name == name && r.scene.nodes[x].description == Describe(name) && !r.scene.nodes[x].emissive)
      && r.scene.nodes[root].name == name
  {
    var d := Describe(name);
    AdoptEffects(s, name, d, sub, root);
    assert Load(s, name, sub, root).scene == Adopt(s.scene, name, d, sub, root);
  }

  /**
   * Two models loaded under the same label: the registry keeps the second,
   * and both roots stay children of the scene root.
   */
  lemma LoadTwiceLastWins(s: ViewState, name: string, sub1: Scene, root1: ObjectId, sub2: Scene, root2: ObjectId)
    requires Consistent(s) && Parsed(s, sub1, root1) && Parsed(Load(s, name, sub1, root1), sub2, root2)
    ensures var t := Load(Load(s, name, sub1, root1), name, sub2, root2);
      && t.models[name] == Some(root2)
      && root1 != root2
      && root1 in t.scene.top && root2 in t.scene.top
  {
    var s1 := Load(s, name, sub1, root1);
    LoadRegistersAndAdds(s, name, sub1, root1);
    LoadKeepsInvariant(s, name, sub1, root1);
    LoadRegistersAndAdds(s1, name, sub2, root2);
    var t := Load(s1, name, sub2, root2);
    assert WellFormed(t.scene) by { LoadKeepsInvariant(s1, name, sub2, root2); }
  }

  // ----- isolation and restoration -----

  /** Overwriting a key and then writing its old value back gives the map back. */
  lemma UpdateBack(m: map<ObjectId, Owner>, k: ObjectId, v: Owner)
    requires k in m
    ensures m[k := v][k := m[k]] == m
  {
  }

  /**
   * After `isolateBone(o)`, among the root's groups and meshes exactly `o`
   * and its former parent are shown, and `o` itself is shown highlighted.
   */
  lemma IsolateShowsOnlyClickedAndParent(s: ViewState, o: ObjectId)
    requires WellFormed(s.scene) && o in s.scene.nodes && s.scene.nodes[o].kind == Mesh
    ensures var r := IsolateBone(s, o); var p := s.scene.parent[o];
      && (forall x :: x in r.scene.nodes && x in r.scene.top && GroupOrMesh(r.scene.nodes[x]) ==>
            (r.scene.nodes[x].visible <==> x == o || Under(x) == p))
      && r.scene.nodes[o].visible && r.scene.nodes[o].emissive
  {
    IsolateLinks(s, o);
    var h := Hide(s.scene, s.highlighted, o);
    var r := IsolateBone(s, o);
    assert r.scene == SetEmissive(MoveToRoot(h, o), o, true);
    forall x | x in r.scene.nodes && x in r.scene.top && GroupOrMesh(r.scene.nodes[x])
      ensures r.scene.nodes[x].visible <==> x == o || Under(x) == s.scene.parent[o]
    {
      if x != o {
        var m := MoveToRoot(h, o);
        assert r.scene.nodes[x] == m.nodes[x] == h.nodes[x];
        assert x in s.scene.top && s.scene.nodes[x].kind == r.scene.nodes[x].kind;
        assert h.nodes[x].visible == IsolatedVisibility(s.scene, o, x) == Wanted(IsolateRule(o, s.scene.parent[o]), x);
      }
    }
  }

  /**
   * `isolateBone(o)` moves `o` out of its parent to the end of the scene
   * root's children, moves nothing else, and records the snapshot of `o`.
   */
  lemma IsolateMovesOnlyClicked(s: ViewState, o: ObjectId)
    requires WellFormed(s.scene) && o in s.scene.nodes && s.scene.nodes[o].kind == Mesh
    ensures var r := IsolateBone(s, o);
      && r.scene.parent == s.scene.parent[o := SceneRoot]
      && r.scene.top[|r.scene.top| - 1] == o
      && r.originalTransforms[o] == s.scene.nodes[o].transform
      && r.originalParents[o] == s.scene.parent[o]
      && r.selected == Some(o) && r.highlighted == Some(o) && r.returnShown
  {
    IsolateLinks(s, o);
  }

  /** `isolateBone(o)` changes no transform, and leaves the lights as they were. */
  lemma IsolateKeepsLightsAndTransforms(s: ViewState, o: ObjectId)
    requires SlotLit(s) && o in s.scene.nodes && o in s.scene.parent && s.scene.nodes[o].kind == Mesh
    ensures var r := IsolateBone(s, o);
      && (forall x :: x in s.scene.nodes && s.scene.nodes[x].kind == Other ==> r.scene.nodes[x] == s.scene.nodes[x])
      && (forall x :: x in s.scene.nodes ==> r.scene.nodes[x].transform == s.scene.nodes[x].transform)
  {
    var h := Hide(s.scene, s.highlighted, o);
    assert IsolateBone(s, o).scene == SetEmissive(MoveToRoot(h, o), o, true);
  }

  /** A restore that runs, as written or corrected, shows every group and mesh among the root's children. */
  lemma RestoreShowsTop(s: ViewState, v: Version)
    requires Restorable(s) && s.selected.Some? && s.selected.value in s.scene.nodes
    ensures var t := RestoreWith(v, s);
      forall x :: x in t.scene.nodes && x in t.scene.top && GroupOrMesh(t.scene.nodes[x]) ==> t.scene.nodes[x].visible
  {
    RestoreAgrees(s);
  }

  /** A restore that runs, as written or corrected, copies the recorded transform into the selection and no other. */
  lemma RestoreTransforms(s: ViewState, v: Version)
    requires Restorable(s) && s.selected.Some? && s.selected.value in s.scene.nodes
    ensures var o := s.selected.value; var t := RestoreWith(v, s);
      forall x :: x in s.scene.nodes ==>
        t.scene.nodes[x].transform == if x == o then s.originalTransforms[o] else s.scene.nodes[x].transform
  {
    var o := s.selected.value;
    var back := Reattach(s.scene, o, s.originalTransforms[o], s.originalParents[o]);
    assert RestoreAsWritten(s).scene == SetEmissive(ShowAllTop(back), o, false);
    RestoreAgrees(s);
  }

  /**
   * A restore that runs leaves every object other than a group or a mesh as
   * it was; the corrected one may also turn off the highlighted object.
   */
  lemma RestoreKeepsOthers(s: ViewState, v: Version)
    requires Restorable(s) && s.selected.Some? && s.selected.value in s.scene.nodes
    requires s.scene.nodes[s.selected.value].kind == Mesh
    ensures var t := RestoreWith(v, s);
      forall x :: x in s.scene.nodes && !GroupOrMesh(s.scene.nodes[x]) && (v == AsWritten || s.highlighted != Some(x)) ==>
        t.scene.nodes[x] == s.scene.nodes[x]
  {
    var o := s.selected.value;
    var back := Reattach(s.scene, o, s.originalTransforms[o], s.originalParents[o]);
    assert RestoreAsWritten(s).scene == SetEmissive(ShowAllTop(back), o, false);
    RestoreAgrees(s);
  }

  /** The object a restore shows or leaves alone: groups and meshes among the root's children are shown. */
  function Reshown(sc: Scene, x: ObjectId): Node
    requires x in sc.nodes
  {
    if x in sc.top && GroupOrMesh(sc.nodes[x]) then sc.nodes[x].(visible := true) else sc.nodes[x]
  }

  /**
   * The restore as written, on every object other than the selection: a
   * group or mesh among the root's children is shown, everything else
   * keeps its flags, highlighted or not.
   */
  lemma RestoreAsWrittenFrame(s: ViewState)
    requires Consistent(s) && s.selected.Some?
    ensures var o := s.selected.value; var t := RestoreAsWritten(s);
      forall x :: x in s.scene.nodes && x != o ==> t.scene.nodes[x] == Reshown(s.scene, x)
  {
    var o := s.selected.value;
    ReshownAfterReattach(s.scene, o, s.originalTransforms[o], s.originalParents[o]);
    assert RestoreAsWritten(s).scene == SetEmissive(ShowAllTop(Reattach(s.scene, o, s.originalTransforms[o], s.originalParents[o])), o, false);
  }

  /** The scene-level half of RestoreAsWrittenFrame: reattaching `o` and showing the root's children. */
  lemma ReshownAfterReattach(sc: Scene, o: ObjectId, t: Transform, owner: Owner)
    requires Linked(sc) && o in sc.nodes && owner != Under(o)
    ensures forall x :: x in sc.nodes && x != o ==>
      SetEmissive(ShowAllTop(Reattach(sc, o, t, owner)), o, false).nodes[x] == Reshown(sc, x)
  {
    var st := SetTransform(sc, o, t);
    assert Linked(st);
    AddKeepsLinked(st, owner, o);
    var back := Reattach(sc, o, t, owner);
    assert back == Add(st, owner, o);
    var shown := ShowAllTop(back);
    forall x | x in sc.nodes && x != o
      ensures SetEmissive(shown, o, false).nodes[x] == Reshown(sc, x)
    {
      assert back.nodes[x] == sc.nodes[x];
      assert x in back.top <==> x in sc.top;
      assert shown.nodes[x] == Reshown(sc, x);
    }
  }

  /**
   * Either restore, on every object other than the selection: as written it
   * does what RestoreAsWrittenFrame states; the corrected one also turns
   * off the object in the highlight slot. The return button leaves the
   * scene its restore leaves.
   */
  lemma RestoreFrame(s: ViewState, v: Version)
    requires Consistent(s) && s.selected.Some?
    ensures var o := s.selected.value; var t := RestoreWith(v, s);
      forall x :: x in s.scene.nodes && x != o ==>
        t.scene.nodes[x] == if v == Corrected && s.highlighted == Some(x) then Reshown(s.scene, x).(emissive := false) else Reshown(s.scene, x)
    ensures ReturnWith(v, s).scene == RestoreWith(v, s).scene
  {
    RestoreAsWrittenFrame(s);
    RestoreAgrees(s);
    ReturnIsRestore(s, v);
  }

  /** The return button is its restore followed by the prompt. */
  lemma ReturnIsRestore(s: ViewState, v: Version)
    requires Restorable(s)
    ensures ReturnWith(v, s) == RestoreWith(v, s).(panel := Prompt, selected := None)
  {
  }

  /**
   * A restore that runs, as written or corrected, puts the selection back
   * with its recorded transform under its recorded parent, turns its
   * highlight off, moves nothing else, hides the return button and clears
   * both references.
   */
  lemma RestoreEffects(s: ViewState, v: Version)
    requires Consistent(s) && s.selected.Some?
    ensures var o := s.selected.value; var t := RestoreWith(v, s);
      && t.scene.nodes[o].transform == s.originalTransforms[o]
      && !t.scene.nodes[o].emissive
      && t.scene.parent == s.scene.parent[o := s.originalParents[o]]
      && t.selected == None && t.highlighted == None && !t.returnShown
  {
    RestoreLinks(s, v);
    RestoreAgrees(s);
  }

  /** With nothing selected, either restore changes nothing, and the return button only resets the panel. */
  lemma RestoreWithoutSelectionIsNoop(s: ViewState, v: Version)
    requires Restorable(s) && s.selected.None?
    ensures RestoreWith(v, s) == s
    ensures ReturnWith(v, s) == s.(panel := Prompt)
  {
  }

  /**
   * Isolating a mesh and then restoring, as written or corrected, gives
   * back every link and the root's children (as a set; `o` may come back at
   * a different place).
   */
  lemma IsolateRestoreRoundTrip(s: ViewState, o: ObjectId, v: Version)
    requires WellFormed(s.scene) && SnapshotsKnown(s) && o in s.scene.nodes && s.scene.nodes[o].kind == Mesh
    ensures var t := RestoreWith(v, IsolateBone(s, o));
      && t.scene.parent == s.scene.parent
      && (forall x :: x in t.scene.top <==> x in s.scene.top)
  {
    var r := IsolateBone(s, o);
    IsolateLinks(s, o);
    IsolateSnapshots(s, o);
    RestoreLinks(r, v);
    var t := RestoreWith(v, r);
    assert r.originalParents[o] == s.scene.parent[o];
    assert t.scene.parent == s.scene.parent[o := SceneRoot][o := s.scene.parent[o]];
    UpdateBack(s.scene.parent, o, SceneRoot);
    assert Linked(t.scene) && Linked(s.scene);
  }

  /** Isolating a mesh and then restoring, as written or corrected, gives back every transform. */
  lemma IsolateRestoreTransforms(s: ViewState, o: ObjectId, v: Version)
    requires SlotLit(s) && o in s.scene.nodes && o in s.scene.parent && s.scene.nodes[o].kind == Mesh
    ensures var t := RestoreWith(v, IsolateBone(s, o));
      forall x :: x in s.scene.nodes ==> t.scene.nodes[x].transform == s.scene.nodes[x].transform
  {
    var r := IsolateBone(s, o);
    IsolateKeepsLightsAndTransforms(s, o);
    assert r.originalTransforms[o] == s.scene.nodes[o].transform;
    RestoreTransforms(r, v);
  }

  // ----- pointer events -----

  /**
   * Hovering a visible mesh makes it the one highlighted mesh and shows the
   * tooltip; nothing moves and the selection stays.
   */
  lemma HoverHighlightsOnlyHovered(s: ViewState, h: ObjectId)
    requires Invariant(s) && h in s.scene.nodes && h in s.scene.parent && VisibleMesh(s, h)
    ensures var r := MouseMove(s, Some(h));
      && r.highlighted == Some(h) && r.scene.nodes[h].emissive
      && (forall x :: x in r.scene.nodes && r.scene.nodes[x].kind == Mesh && r.scene.nodes[x].emissive ==> x == h)
      && r.tooltipShown
      && r.scene.parent == s.scene.parent && r.selected == s.selected
  {
    MouseMoveKeepsInvariant(s, Some(h));
  }

  /** A hover that hits nothing clears the highlight, hides the tooltip and keeps the selection. */
  lemma HoverNothingClears(s: ViewState)
    requires Invariant(s)
    ensures var r := MouseMove(s, None);
      && r.highlighted == None
      && (forall x :: x in r.scene.nodes && r.scene.nodes[x].kind == Mesh ==> !r.scene.nodes[x].emissive)
      && !r.tooltipShown
      && r.selected == s.selected && r.returnShown == s.returnShown
  {
    HoverNothingHighlight(s);
  }

  /** A hover whose first hit is not a visible mesh changes nothing, not even the tooltip. */
  lemma HoverIgnored(s: ViewState, h: ObjectId)
    requires h in s.scene.nodes && h in s.scene.parent && !VisibleMesh(s, h)
    ensures MouseMove(s, Some(h)) == s
  {
  }

  /**
   * A click that hits nothing, hits something other than a visible mesh,
   * or hits the selected mesh again changes nothing.
   */
  lemma ClickIgnored(s: ViewState, hit: Option<ObjectId>)
    requires IsHit(s, hit)
    requires hit.None? || !VisibleMesh(s, hit.value) || s.selected == hit
    ensures Click(s, hit) == s
  {
  }

  /**
   * A click on a visible mesh other than the selection isolates it and
   * shows its name with its description, or the fallback text.
   */
  lemma ClickIsolatesAndDescribes(s: ViewState, c: ObjectId)
    requires Consistent(s) && c in s.scene.nodes && VisibleMesh(s, c) && s.selected != Some(c)
    ensures var r := Click(s, Some(c)); var n := s.scene.nodes[c];
      && r.selected == Some(c) && r.highlighted == Some(c) && r.returnShown
      && r.scene.parent[c] == SceneRoot
      && r.panel == BoneInfo(n.name, if n.description == "" then NoDescription else n.description)
  {
    IsolateLinks(s, c);
  }

  /** A visible mesh of a freshly loaded model can be hit and carries the label and its text. */
  lemma LoadedMeshClickable(s: ViewState, name: string, sub: Scene, root: ObjectId, x: ObjectId)
    requires Consistent(s) && Parsed(s, sub, root)
    requires x in sub.nodes && sub.nodes[x].kind == Mesh && sub.nodes[x].visible
    ensures var l := Load(s, name, sub, root);
      && IsHit(l, Some(x)) && VisibleMesh(l, x) && l.selected != Some(x)
      && l.scene.nodes[x].name == name && l.scene.nodes[x].description == Describe(name)
  {
    AdoptEffects(s, name, Describe(name), sub, root);
    assert Load(s, name, sub, root).scene == Adopt(s.scene, name, Describe(name), sub, root);
    AdoptLinks(s.scene, name, Describe(name), sub, root);
  }

  /**
   * Clicking a mesh of a freshly loaded model shows the model's label as
   * the heading and the label's text from the table, or the fallback text
   * when the table has none.
   */
  lemma ClickAfterLoadShowsLabelText(s: ViewState, name: string, sub: Scene, root: ObjectId, x: ObjectId)
    requires Consistent(s) && Parsed(s, sub, root)
    requires x in sub.nodes && sub.nodes[x].kind == Mesh && sub.nodes[x].visible
    ensures var l := Load(s, name, sub, root);
      && IsHit(l, Some(x))
      && Click(l, Some(x)).panel == BoneInfo(name, if name in DescribedLabels then Describe(name) else NoDescription)
  {
    var l := Load(s, name, sub, root);
    LoadedMeshClickable(s, name, sub, root, x);
    LoadKeepsInvariant(s, name, sub, root);
    ClickIsolatesAndDescribes(l, x);
    DescribedExactlyListed(name);
  }

  /** Bones loaded under the labels that the table lacks show the fallback text when clicked. */
  lemma UnlistedBoneShowsFallback(s: ViewState, name: string, sub: Scene, root: ObjectId, x: ObjectId)
    requires name in {"Patella", "Molar", "Teeth", "Unnamed"}
    requires Consistent(s) && Parsed(s, sub, root)
    requires x in sub.nodes && sub.nodes[x].kind == Mesh && sub.nodes[x].visible
    ensures IsHit(Load(s, name, sub, root), Some(x))
    ensures Click(Load(s, name, sub, root), Some(x)).panel == BoneInfo(name, NoDescription)
  {
    UnlistedLabelsShowFallback(name);
    DescribedExactlyListed(name);
    ClickAfterLoadShowsLabelText(s, name, sub, root, x);
  }

  /**
   * A click that isolates `c` moves `c`, and only `c`, to the scene root,
   * and records its former parent; every other record stays.
   */
  lemma ClickMovesOnlyClicked(s: ViewState, c: ObjectId)
    requires WellFormed(s.scene) && c in s.scene.nodes && VisibleMesh(s, c) && s.selected != Some(c)
    ensures var r := Click(s, Some(c));
      && r.scene.parent == s.scene.parent[c := SceneRoot]
      && r.originalParents == s.originalParents[c := s.scene.parent[c]]
      && r.selected == Some(c)
  {
    IsolateMovesOnlyClicked(s, c);
  }

  /**
   * The return button, as written or corrected, moves the selection, and
   * only it, back to its recorded parent; the records stay.
   */
  lemma ReturnMovesOnlySelected(s: ViewState, v: Version)
    requires WellFormed(s.scene) && Restorable(s) && SnapshotsKnown(s)
    requires s.selected.Some? && s.selected.value in s.scene.nodes
    ensures var o := s.selected.value; var r := ReturnWith(v, s);
      && r.scene.parent == s.scene.parent[o := s.originalParents[o]]
      && r.originalParents == s.originalParents
      && r.selected == None && r.panel == Prompt
  {
    RestoreLinks(s, v);
    var t := RestoreWith(v, s);
    if v == AsWritten {
      assert ReturnWith(v, s) == t.(panel := Prompt, selected := None);
    } else {
      assert ReturnWith(v, s) == t.(panel := Prompt, selected := None);
    }
  }
}
