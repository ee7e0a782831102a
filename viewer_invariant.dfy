/**
 * What every handler of the viewer keeps. On the page as written the scene
 * stays well formed, the selection has its snapshot on record and the
 * highlight slot refers to a highlighted mesh (`Consistent`). With the
 * corrected restore, moreover, at most one mesh, the one the slot refers
 * to, is highlighted (`Invariant`).
 */
module ViewerInvariant {
  import opened SceneGraph
  import opened Descriptions
  import opened ViewerSpec

  lemma InitialInvariant()
    ensures Invariant(Initial())
    ensures Initial().scene.top == [AmbientLight, DirectionalLight, DirectionalLightBelow]
  {
  }

  /** The links after the loaded subtree joins the scene. */
  lemma AdoptLinks(sc: Scene, name: string, description: string, sub: Scene, root: ObjectId)
    requires WellFormed(sc) && root in sub.nodes && sub.nodes.Keys !! sc.nodes.Keys
    requires Linked(sub) && KnownOwners(sub) && sub.parent.Keys == sub.nodes.Keys - {root} && sub.top == []
    ensures var r := Adopt(sc, name, description, sub, root);
      && WellFormed(r)
      && r.parent == (sc.parent + sub.parent)[root := SceneRoot]
      && (forall x :: x != root ==> (x in r.top <==> x in sc.top))
  {
    var tagged := TagMeshes(sub.nodes, name, description);
    var b := sub.(nodes := tagged[root := tagged[root].(name := name)]);
    assert b.nodes.Keys == sub.nodes.Keys;
    assert Linked(b) && KnownOwners(b);
    AddSubtreeKeepsWellFormed(sc, b, root);
  }

  /** The objects after the loaded subtree joins the scene. */
  lemma AdoptNodes(sc: Scene, name: string, description: string, sub: Scene, root: ObjectId)
    requires root in sub.nodes && sub.nodes.Keys !! sc.nodes.Keys
    ensures var r := Adopt(sc, name, description, sub, root);
      && (forall x :: x in sc.nodes ==> r.nodes[x] == sc.nodes[x])
      && (forall x :: x in sub.nodes ==> r.nodes[x].kind == sub.nodes[x].kind && r.nodes[x].visible == sub.nodes[x].visible)
      && (forall x :: x in sub.nodes && sub.nodes[x].kind == Mesh ==>
            r.nodes[x].name == name && r.nodes[x].description == description && !r.nodes[x].emissive)
      && r.nodes[root].name == name
  {
  }

  /**
   * Adopting a parsed subtree keeps the page consistent, and keeps a single
   * highlight single, whatever description the meshes are tagged with.
   */
  lemma AdoptKeepsInvariant(s: ViewState, name: string, description: string, sub: Scene, root: ObjectId)
    requires Consistent(s) && Parsed(s, sub, root)
    ensures Consistent(s.(scene := Adopt(s.scene, name, description, sub, root)))
    ensures SingleHighlight(s) ==> SingleHighlight(s.(scene := Adopt(s.scene, name, description, sub, root)))
  {
    var r := s.(scene := Adopt(s.scene, name, description, sub, root));
    AdoptLinks(s.scene, name, description, sub, root);
    AdoptNodes(s.scene, name, description, sub, root);
    assert SnapshotsKnown(r);
    assert SlotLit(r);
    forall x | x in r.scene.nodes && r.scene.nodes[x].kind == Mesh && r.scene.nodes[x].emissive
      ensures x in s.scene.nodes
    {
    }
  }

  lemma LoadKeepsInvariant(s: ViewState, name: string, sub: Scene, root: ObjectId)
    requires Consistent(s) && Parsed(s, sub, root)
    ensures Consistent(Load(s, name, sub, root))
    ensures SingleHighlight(s) ==> SingleHighlight(Load(s, name, sub, root))
  {
    AdoptKeepsInvariant(s, name, Describe(name), sub, root);
    assert Load(s, name, sub, root).scene == Adopt(s.scene, name, Describe(name), sub, root);
  }

  /** Moving a known object to the root keeps the scene well formed and moves nothing else. */
  lemma MoveToRootLinks(sc: Scene, o: ObjectId)
    requires WellFormed(sc) && o in sc.nodes
    ensures WellFormed(MoveToRoot(sc, o))
    ensures MoveToRoot(sc, o).parent == sc.parent[o := SceneRoot]
    ensures forall x :: x != o ==> (x in MoveToRoot(sc, o).top <==> x in sc.top)
    ensures MoveToRoot(sc, o).top[|MoveToRoot(sc, o).top| - 1] == o
  {
    RemoveThenAdd(sc, o);
    AddKeepsWellFormed(sc, SceneRoot, o);
  }

  /** The links after `isolateBone(o)`: `o`, and only `o`, moves to the end of the root's children. */
  lemma IsolateLinks(s: ViewState, o: ObjectId)
    requires WellFormed(s.scene) && o in s.scene.nodes && s.scene.nodes[o].kind == Mesh
    ensures var r := IsolateBone(s, o);
      && WellFormed(r.scene)
      && r.scene.parent == s.scene.parent[o := SceneRoot]
      && (forall x :: x != o ==> (x in r.scene.top <==> x in s.scene.top))
      && r.scene.top[|r.scene.top| - 1] == o
  {
    var h := Hide(s.scene, s.highlighted, o);
    assert WellFormed(h);
    MoveToRootLinks(h, o);
  }

  /**
   * After `isolateBone(o)` the slot refers to the highlighted mesh `o`; if
   * the slot's object was the only highlighted mesh before, `o` is now.
   */
  lemma IsolateHighlight(s: ViewState, o: ObjectId)
    requires o in s.scene.nodes && o in s.scene.parent && s.scene.nodes[o].kind == Mesh
    ensures SlotLit(IsolateBone(s, o))
    ensures SingleHighlight(s) ==> SingleHighlight(IsolateBone(s, o))
  {
    var r := IsolateBone(s, o);
    var h := Hide(s.scene, s.highlighted, o);
    var m := MoveToRoot(h, o);
    assert r.scene == SetEmissive(m, o, true);
    forall x | SingleHighlight(s) && x in r.scene.nodes && r.scene.nodes[x].kind == Mesh && r.scene.nodes[x].emissive
      ensures x == o
    {
    }
  }

  /** The snapshot `isolateBone(o)` records names a known owner other than `o`. */
  lemma IsolateSnapshots(s: ViewState, o: ObjectId)
    requires WellFormed(s.scene) && SnapshotsKnown(s) && o in s.scene.nodes && s.scene.nodes[o].kind == Mesh
    ensures SnapshotsKnown(IsolateBone(s, o)) && Restorable(IsolateBone(s, o))
  {
    var r := IsolateBone(s, o);
    var p := s.scene.parent[o];
    assert r.originalParents == s.originalParents[o := p];
    assert r.scene.nodes.Keys == s.scene.nodes.Keys;
    forall x | x in r.originalParents
      ensures r.originalParents[x] != Under(x)
      ensures r.originalParents[x].Under? ==> r.originalParents[x].id in r.scene.nodes
    {
      if x == o {
        assert p != Under(o);
        assert p.Under? ==> p.id in s.scene.nodes;
      }
    }
  }

  lemma IsolateKeepsInvariant(s: ViewState, o: ObjectId)
    requires Consistent(s) && o in s.scene.nodes && s.scene.nodes[o].kind == Mesh
    ensures Consistent(IsolateBone(s, o))
    ensures SingleHighlight(s) ==> SingleHighlight(IsolateBone(s, o))
  {
    IsolateLinks(s, o);
    IsolateHighlight(s, o);
    IsolateSnapshots(s, o);
  }

  /** Putting `o` back under a known owner other than itself keeps the scene well formed and moves only `o`. */
  lemma ReattachLinks(sc: Scene, o: ObjectId, t: Transform, owner: Owner)
    requires WellFormed(sc) && o in sc.nodes && owner != Under(o)
    requires owner.Under? ==> owner.id in sc.nodes
    ensures WellFormed(Reattach(sc, o, t, owner))
    ensures Reattach(sc, o, t, owner).parent == sc.parent[o := owner]
    ensures forall x :: x != o ==> (x in Reattach(sc, o, t, owner).top <==> x in sc.top)
    ensures forall x :: x in sc.nodes ==>
      Reattach(sc, o, t, owner).nodes[x] == if x == o then sc.nodes[x].(transform := t) else sc.nodes[x]
  {
    var st := SetTransform(sc, o, t);
    assert WellFormed(st);
    AddKeepsWellFormed(st, owner, o);
  }

  /**
   * The restore as written and the corrected one differ only in the
   * emissive colour of the object in the highlight slot: same links, same
   * root children, same objects, same references and flags.
   */
  lemma RestoreAgrees(s: ViewState)
    requires Restorable(s)
    ensures var a := RestoreAsWritten(s); var c := RestoreSkeleton(s);
      && c == a.(scene := c.scene)
      && c.scene.parent == a.scene.parent && c.scene.top == a.scene.top && c.scene.nodes.Keys == a.scene.nodes.Keys
      && (forall x :: x in a.scene.nodes ==> c.scene.nodes[x] == a.scene.nodes[x].(emissive := c.scene.nodes[x].emissive))
      && (forall x :: x in a.scene.nodes && (s.selected.None? || s.highlighted != Some(x)) ==> c.scene.nodes[x] == a.scene.nodes[x])
  {
    if s.selected.Some? {
      var a := RestoreAsWritten(s);
      assert RestoreSkeleton(s) == a.(scene := Unhighlight(a.scene, s.highlighted));
    }
  }

  /** The scene the restore as written leaves has the links of the reattached scene. */
  lemma RestoreAsWrittenLinks(s: ViewState)
    requires WellFormed(s.scene) && Restorable(s) && SnapshotsKnown(s)
    requires s.selected.Some? && s.selected.value in s.scene.nodes
    ensures var o := s.selected.value; var r := RestoreAsWritten(s);
      && WellFormed(r.scene)
      && r.scene.parent == s.scene.parent[o := s.originalParents[o]]
      && (forall x :: x != o ==> (x in r.scene.top <==> x in s.scene.top))
  {
    var o := s.selected.value;
    var back := Reattach(s.scene, o, s.originalTransforms[o], s.originalParents[o]);
    ReattachLinks(s.scene, o, s.originalTransforms[o], s.originalParents[o]);
    var a := RestoreAsWritten(s);
    assert a.scene == SetEmissive(ShowAllTop(back), o, false);
    WellFormedByLinks(back, a.scene);
  }

  /**
   * The links after a restore that runs, as written or corrected: the
   * selection is back under its recorded parent, and nothing else moves.
   */
  lemma RestoreLinks(s: ViewState, v: Version)
    requires WellFormed(s.scene) && Restorable(s) && SnapshotsKnown(s)
    requires s.selected.Some? && s.selected.value in s.scene.nodes
    ensures var o := s.selected.value; var r := RestoreWith(v, s);
      && WellFormed(r.scene)
      && r.scene.parent == s.scene.parent[o := s.originalParents[o]]
      && (forall x :: x != o ==> (x in r.scene.top <==> x in s.scene.top))
  {
    RestoreAsWrittenLinks(s);
    if v == Corrected {
      RestoreAgrees(s);
      WellFormedByLinks(RestoreAsWritten(s).scene, RestoreSkeleton(s).scene);
    }
  }

  /** After the corrected restore runs, no mesh is highlighted and the slot is empty. */
  lemma RestoreHighlight(s: ViewState)
    requires SingleHighlight(s) && Restorable(s) && s.selected.Some? && s.selected.value in s.scene.nodes
    ensures var r := RestoreSkeleton(s);
      && r.highlighted == None
      && forall x :: x in r.scene.nodes ==> !r.scene.nodes[x].emissive || r.scene.nodes[x].kind != Mesh
  {
    var o := s.selected.value;
    var t := RestoreAsWritten(s);
    var back := Reattach(s.scene, o, s.originalTransforms[o], s.originalParents[o]);
    assert t.scene == SetEmissive(ShowAllTop(back), o, false);
    var r := RestoreSkeleton(s);
    forall x | x in r.scene.nodes && r.scene.nodes[x].kind == Mesh
      ensures !r.scene.nodes[x].emissive
    {
      if x != o && s.highlighted != Some(x) {
        assert r.scene.nodes[x].emissive == s.scene.nodes[x].emissive;
      }
    }
  }

  /** Either restore keeps the page consistent: the slot it leaves is empty. */
  lemma RestoreKeepsConsistent(s: ViewState, v: Version)
    requires Consistent(s)
    ensures Consistent(RestoreWith(v, s))
  {
    if s.selected.Some? {
      RestoreLinks(s, v);
      RestoreAgrees(s);
      var r := RestoreWith(v, s);
      assert SnapshotsKnown(r);
    }
  }

  /** The corrected restore keeps the invariant: no highlighted object is left without a reference. */
  lemma RestoreKeepsInvariant(s: ViewState)
    requires Invariant(s)
    ensures Invariant(RestoreSkeleton(s))
  {
    RestoreKeepsConsistent(s, Corrected);
    if s.selected.Some? {
      RestoreHighlight(s);
    }
  }

  /**
   * The return button keeps the page consistent, as written or corrected;
   * with the corrected restore it keeps the invariant.
   */
  lemma ReturnKeepsInvariant(s: ViewState, v: Version)
    requires Consistent(s)
    ensures Consistent(ReturnWith(v, s))
    ensures v == Corrected && Invariant(s) ==> Invariant(ReturnWith(v, s))
  {
    RestoreKeepsConsistent(s, v);
    if v == Corrected && Invariant(s) {
      RestoreKeepsInvariant(s);
    }
  }

  /** A handler that changes only flags of objects, and leaves the slot lit, keeps the page consistent. */
  lemma FlagsOnlyKeepConsistent(s: ViewState, r: ViewState)
    requires Consistent(s)
    requires r.scene.parent == s.scene.parent && r.scene.top == s.scene.top && r.scene.nodes.Keys == s.scene.nodes.Keys
    requires forall x :: x in s.scene.nodes ==> r.scene.nodes[x].kind == s.scene.nodes[x].kind
    requires r.selected == s.selected && r.originalParents == s.originalParents && r.originalTransforms == s.originalTransforms
    requires SlotLit(r)
    ensures Consistent(r)
  {
    assert WellFormed(r.scene);
    assert SnapshotsKnown(r);
  }

  /** Hovering a new mesh moves the slot, and a single highlight, to it. */
  lemma HoverNewMeshHighlight(s: ViewState, h: ObjectId)
    requires h in s.scene.nodes && h in s.scene.parent && VisibleMesh(s, h) && s.highlighted != Some(h)
    ensures SlotLit(MouseMove(s, Some(h)))
    ensures SingleHighlight(s) ==> SingleHighlight(MouseMove(s, Some(h)))
  {
    var r := MouseMove(s, Some(h));
    assert r.scene == SetEmissive(Unhighlight(s.scene, s.highlighted), h, true);
    forall x | SingleHighlight(s) && x in r.scene.nodes && r.scene.nodes[x].kind == Mesh && r.scene.nodes[x].emissive
      ensures x == h
    {
    }
  }

  /** Hovering nothing empties the slot; if its object was the only highlighted mesh, none is left. */
  lemma HoverNothingHighlight(s: ViewState)
    requires SingleHighlight(s)
    ensures MouseMove(s, None).highlighted == None
    ensures forall x :: x in MouseMove(s, None).scene.nodes && MouseMove(s, None).scene.nodes[x].kind == Mesh ==>
      !MouseMove(s, None).scene.nodes[x].emissive
  {
    var r := MouseMove(s, None);
    forall x | x in r.scene.nodes && r.scene.nodes[x].kind == Mesh
      ensures !r.scene.nodes[x].emissive
    {
      if s.highlighted != Some(x) {
        assert r.scene.nodes[x] == s.scene.nodes[x];
      }
    }
  }

  /** The `mousemove` handler keeps the page consistent, and a single highlight single. */
  lemma MouseMoveKeepsInvariant(s: ViewState, hit: Option<ObjectId>)
    requires Consistent(s) && IsHit(s, hit)
    ensures Consistent(MouseMove(s, hit))
    ensures SingleHighlight(s) ==> SingleHighlight(MouseMove(s, hit))
  {
    var r := MouseMove(s, hit);
    if hit.None? {
      if SingleHighlight(s) {
        HoverNothingHighlight(s);
      }
    } else if VisibleMesh(s, hit.value) && s.highlighted != hit {
      HoverNewMeshHighlight(s, hit.value);
    }
    FlagsOnlyKeepConsistent(s, r);
  }

  /** The canvas `click` handler keeps the page consistent, and a single highlight single. */
  lemma ClickKeepsInvariant(s: ViewState, hit: Option<ObjectId>)
    requires Consistent(s) && IsHit(s, hit)
    ensures Consistent(Click(s, hit))
    ensures SingleHighlight(s) ==> SingleHighlight(Click(s, hit))
  {
    if hit.Some? && VisibleMesh(s, hit.value) && s.selected != hit {
      IsolateKeepsInvariant(s, hit.value);
    }
  }

  /**
   * Every event keeps the page consistent, with either restore; with the
   * corrected restore every event keeps the invariant.
   */
  lemma StepKeepsInvariant(v: Version, s: ViewState, e: Event)
    requires Consistent(s) && Enabled(s, e)
    ensures Consistent(Step(v, s, e))
    ensures v == Corrected && Invariant(s) ==> Invariant(Step(v, s, e))
  {
    match e
    case Loaded(name, sub, root) => LoadKeepsInvariant(s, name, sub, root);
    case Moved(hit) => MouseMoveKeepsInvariant(s, hit);
    case Clicked(hit) => ClickKeepsInvariant(s, hit);
    case ReturnPressed => ReturnKeepsInvariant(s, v);
  }

  /**
   * Every admissible sequence of events keeps the page consistent, with
   * either restore; with the corrected restore it keeps the invariant.
   */
  lemma {:induction false} RunKeepsInvariant(v: Version, s: ViewState, events: seq<Event>)
    requires Consistent(s) && Admissible(v, s, events)
    ensures Consistent(Run(v, s, events))
    ensures v == Corrected && Invariant(s) ==> Invariant(Run(v, s, events))
    decreases |events|
  {
    if events != [] {
      StepKeepsInvariant(v, s, events[0]);
      RunKeepsInvariant(v, Step(v, s, events[0]), events[1..]);
    }
  }

  /**
   * On the page as written, whatever the events, the scene stays well
   * formed, the selection stays a mesh with its snapshot on record, and the
   * slot refers to a highlighted mesh.
   */
  lemma PageStaysConsistent(events: seq<Event>)
    requires Admissible(AsWritten, Initial(), events)
    ensures var r := Run(AsWritten, Initial(), events);
      && WellFormed(r.scene) && Restorable(r) && SnapshotsKnown(r) && SlotLit(r)
      && (r.selected.Some? ==> r.selected.value in r.scene.nodes && r.scene.nodes[r.selected.value].kind == Mesh)
  {
    InitialInvariant();
    RunKeepsInvariant(AsWritten, Initial(), events);
  }

  /** With the corrected restore, whatever the events from the initial page, at most one mesh is highlighted at a time. */
  lemma AtMostOneHighlighted(events: seq<Event>, x: ObjectId, y: ObjectId)
    requires Admissible(Corrected, Initial(), events)
    requires var r := Run(Corrected, Initial(), events);
      x in r.scene.nodes && y in r.scene.nodes
      && r.scene.nodes[x].kind == Mesh && r.scene.nodes[x].emissive
      && r.scene.nodes[y].kind == Mesh && r.scene.nodes[y].emissive
    ensures x == y
  {
    InitialInvariant();
    RunKeepsInvariant(Corrected, Initial(), events);
  }
}
