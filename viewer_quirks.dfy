/**
 * Behaviour of the page that follows from the code as written and that a
 * user may not expect: two quirks the model reproduces, and the stale
 * highlight left by `restoreSkeleton()` as written, next to the corrected
 * restore that keeps a single highlight.
 */
module ViewerQuirks {
  import opened SceneGraph
  import opened Descriptions
  import opened ViewerSpec
  import opened ViewerInvariant
  import opened ViewerBehaviour

  /**
   * A click on a second mesh while a first one is isolated isolates the
   * second without putting the first back: after the return button, the
   * first mesh is still a child of the scene root although its recorded
   * parent is the group it came from. This holds with the restore as
   * written and with the corrected one.
   */
  lemma ClickDuringIsolationLeavesFirstDetached(s: ViewState, a: ObjectId, g: ObjectId, b: ObjectId, v: Version)
    requires Consistent(s) && a in s.scene.nodes && a in s.scene.parent && VisibleMesh(s, a) && s.selected != Some(a)
    requires s.scene.parent[a] == Under(g)
    requires var s1 := Click(s, Some(a)); b in s1.scene.nodes && b in s1.scene.parent && VisibleMesh(s1, b) && b != a
    ensures var s3 := ReturnWith(v, Click(Click(s, Some(a)), Some(b)));
      && a in s3.scene.parent && s3.scene.parent[a] == SceneRoot
      && a in s3.originalParents && s3.originalParents[a] == Under(g)
      && s3.selected == None
  {
    var s1 := Click(s, Some(a));
    ClickMovesOnlyClicked(s, a);
    ClickKeepsInvariant(s, Some(a));
    assert s1.scene.parent[a] == SceneRoot && s1.originalParents[a] == Under(g);
    var s2 := Click(s1, Some(b));
    ClickMovesOnlyClicked(s1, b);
    ClickKeepsInvariant(s1, Some(b));
    assert s2.scene.parent[a] == SceneRoot && s2.originalParents[a] == Under(g);
    ReturnMovesOnlySelected(s2, v);
  }

  /**
   * Moving the pointer off every object while a mesh is isolated turns its
   * highlight off, although the mesh stays selected and isolated.
   */
  lemma HoverAwayClearsIsolationHighlight(s: ViewState, o: ObjectId)
    requires Invariant(s) && o in s.scene.nodes && VisibleMesh(s, o) && s.selected != Some(o)
    ensures var s2 := MouseMove(Click(s, Some(o)), None);
      && s2.selected == Some(o) && s2.returnShown
      && s2.highlighted == None && !s2.scene.nodes[o].emissive
  {
    ClickKeepsInvariant(s, Some(o));
    ClickIsolatesAndDescribes(s, o);
    HoverNothingClears(Click(s, Some(o)));
  }

  /**
   * `restoreSkeleton()` as written, when the highlighted mesh is not the
   * selected one (a mesh hovered inside the still-visible group of the
   * isolated one), drops the reference but leaves that mesh highlighted.
   */
  lemma RestoreAsWrittenLeavesStaleHighlight(s: ViewState)
    requires Invariant(s) && s.selected.Some? && s.highlighted.Some? && s.highlighted != s.selected
    ensures var t := RestoreAsWritten(s); var h := s.highlighted.value;
      && t.highlighted == None
      && h in t.scene.nodes && t.scene.nodes[h].kind == Mesh && t.scene.nodes[h].emissive
      && !SingleHighlight(t)
  {
    var o := s.selected.value;
    var back := Reattach(s.scene, o, s.originalTransforms[o], s.originalParents[o]);
    assert RestoreAsWritten(s).scene == SetEmissive(ShowAllTop(back), o, false);
  }

  /** After such a restore, hovering another mesh leaves two meshes highlighted. */
  lemma StaleHighlightThenSecond(s: ViewState, y: ObjectId)
    requires Invariant(s) && s.selected.Some? && s.highlighted.Some? && s.highlighted != s.selected
    requires var t := RestoreAsWritten(s);
      y in t.scene.nodes && y in t.scene.parent && VisibleMesh(t, y) && y != s.highlighted.value
    ensures var u := MouseMove(RestoreAsWritten(s), Some(y)); var h := s.highlighted.value;
      && u.scene.nodes[h].kind == Mesh && u.scene.nodes[h].emissive
      && u.scene.nodes[y].emissive
  {
    RestoreAsWrittenLeavesStaleHighlight(s);
  }

  /** `isolateBone(o)` leaves the kind and the visibility of every object below the root's children alone. */
  lemma IsolateKeepsNestedVisibility(s: ViewState, o: ObjectId, x: ObjectId)
    requires WellFormed(s.scene) && o in s.scene.nodes && s.scene.nodes[o].kind == Mesh
    requires x in s.scene.nodes && x in s.scene.parent && s.scene.parent[x].Under? && x != o
    ensures var r := IsolateBone(s, o);
      r.scene.nodes[x].kind == s.scene.nodes[x].kind && r.scene.nodes[x].visible == s.scene.nodes[x].visible
  {
    var h := Hide(s.scene, s.highlighted, o);
    assert IsolateBone(s, o).scene == SetEmissive(MoveToRoot(h, o), o, true);
    assert x !in s.scene.top;
    assert h.nodes[x].visible == IsolatedVisibility(s.scene, o, x);
  }

  /**
   * When the clicked mesh's parent is a group among the scene root's
   * children, the group stays shown after the isolation, and so does a sibling mesh of the
   * clicked one.
   */
  lemma ClickKeepsSiblingVisible(s: ViewState, a: ObjectId, b: ObjectId, g: ObjectId)
    requires Invariant(s) && a != b
    requires a in s.scene.nodes && a in s.scene.parent && VisibleMesh(s, a) && s.selected != Some(a)
    requires b in s.scene.nodes && b in s.scene.parent && VisibleMesh(s, b)
    requires s.scene.parent[a] == Under(g) && s.scene.parent[b] == Under(g)
    requires g in s.scene.top && g in s.scene.nodes && s.scene.nodes[g].kind == Group
    ensures var s1 := Click(s, Some(a));
      && Invariant(s1) && s1.selected == Some(a)
      && g in s1.scene.nodes && g in s1.scene.top && s1.scene.nodes[g].visible
      && b in s1.scene.nodes && b in s1.scene.parent && VisibleMesh(s1, b)
  {
    var s1 := Click(s, Some(a));
    ClickKeepsInvariant(s, Some(a));
    assert s1.scene == IsolateBone(s, a).scene && s1.selected == Some(a);
    IsolateKeepsNestedVisibility(s, a, b);
    IsolateLinks(s, a);
    IsolateShowsOnlyClickedAndParent(s, a);
  }

  /**
   * Hovering a visible mesh other than the isolated one and then pressing
   * the return button: as written, the hovered mesh stays highlighted with
   * no reference to it; with the corrected restore, no mesh is highlighted.
   */
  lemma HoverThenReturn(s1: ViewState, a: ObjectId, b: ObjectId)
    requires Invariant(s1) && s1.selected == Some(a) && a != b
    requires b in s1.scene.nodes && b in s1.scene.parent && VisibleMesh(s1, b)
    ensures var s2 := MouseMove(s1, Some(b));
      && s2.selected == Some(a) && s2.highlighted == Some(b)
      && !SingleHighlight(ReturnClickedAsWritten(s2))
      && SingleHighlight(ReturnClicked(s2)) && ReturnClicked(s2).highlighted == None
  {
    var s2 := MouseMove(s1, Some(b));
    MouseMoveKeepsInvariant(s1, Some(b));
    RestoreAsWrittenLeavesStaleHighlight(s2);
    assert ReturnClickedAsWritten(s2).scene == RestoreAsWritten(s2).scene;
    RestoreHighlight(s2);
    assert ReturnClicked(s2).scene == RestoreSkeleton(s2).scene;
  }

  /**
   * The stale highlight arises from any quiescent page holding two visible
   * meshes of one group that is a child of the scene root: click the first,
   * hover the second (its group stays shown), press the return button.
   */
  lemma SiblingHoverThenReturn(s: ViewState, a: ObjectId, b: ObjectId, g: ObjectId)
    requires Invariant(s) && a != b
    requires a in s.scene.nodes && a in s.scene.parent && VisibleMesh(s, a) && s.selected != Some(a)
    requires b in s.scene.nodes && b in s.scene.parent && VisibleMesh(s, b)
    requires s.scene.parent[a] == Under(g) && s.scene.parent[b] == Under(g)
    requires g in s.scene.top && g in s.scene.nodes && s.scene.nodes[g].kind == Group
    ensures var s2 := MouseMove(Click(s, Some(a)), Some(b));
      && s2.selected == Some(a) && s2.highlighted == Some(b)
      && !SingleHighlight(ReturnClickedAsWritten(s2))
      && SingleHighlight(ReturnClicked(s2)) && ReturnClicked(s2).highlighted == None
  {
    ClickKeepsSiblingVisible(s, a, b, g);
    HoverThenReturn(Click(s, Some(a)), a, b);
  }
}
