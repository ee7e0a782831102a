/**
 * An abstract scene graph: the part of the rendering engine's object model
 * that the viewer reads and writes. Objects are identified by ids; each has
 * a kind, a name, a description, a visibility flag, an emissive highlight
 * flag and a local transform. Parent and child links are kept in two maps
 * that the engine's `add` and `remove` keep consistent.
 */
module SceneGraph {

  datatype Option<T> = None | Some(value: T)

  type ObjectId = nat

  /** Groups and meshes are the "bones"; everything else (the lights) is Other. */
  datatype Kind = Group | Mesh | Other

  datatype Vector3 = Vector3(x: real, y: real, z: real)

  /** Position, rotation (Euler angles) and scale, compared only for equality. */
  datatype Transform = Transform(position: Vector3, rotation: Vector3, scale: Vector3)

  datatype Node = Node(
    kind: Kind,
    name: string,
    description: string,
    visible: bool,
    emissive: bool,
    transform: Transform)

  /** The owner of an object: the scene root itself or another object. */
  datatype Owner = SceneRoot | Under(id: ObjectId)

  /**
   * The objects, each object's parent link, and the scene root's ordered
   * list of children (`scene.children`). Membership of an object in the
   * children of any other owner is its parent link.
   */
  datatype Scene = Scene(
    nodes: map<ObjectId, Node>,
    parent: map<ObjectId, Owner>,
    top: seq<ObjectId>)

  predicate GroupOrMesh(n: Node) {
    n.kind == Group || n.kind == Mesh
  }

  predicate NoDup(s: seq<ObjectId>) {
    forall i, j :: 0 <= i < j < |s| ==> s[i] != s[j]
  }

  /** Whether `owner.children` holds `id`. */
  predicate ListedUnder(sc: Scene, owner: Owner, id: ObjectId) {
    if owner == SceneRoot then id in sc.top else id in sc.parent && sc.parent[id] == owner
  }

  /**
   * Parent links and the root's list agree: the list has no repetitions,
   * an object is in it exactly when its parent is the root, and no object
   * is its own parent.
   */
  ghost predicate Linked(sc: Scene) {
    && NoDup(sc.top)
    && (forall x :: x in sc.top <==> x in sc.parent && sc.parent[x] == SceneRoot)
    && (forall x :: x in sc.parent ==> sc.parent[x] != Under(x))
  }

  /** Every linked object, and every owner a link names, is a known object. */
  ghost predicate KnownOwners(sc: Scene) {
    forall x :: x in sc.parent ==> x in sc.nodes && (sc.parent[x].Under? ==> sc.parent[x].id in sc.nodes)
  }

  /** A scene in a quiescent state: linked, and every object is attached somewhere. */
  ghost predicate WellFormed(sc: Scene) {
    && Linked(sc)
    && KnownOwners(sc)
    && sc.parent.Keys == sc.nodes.Keys
  }

  /** `s` with the first occurrence of `x` removed (Array.prototype.splice at indexOf). */
  function WithoutFirst(s: seq<ObjectId>, x: ObjectId): (r: seq<ObjectId>)
    ensures x !in s ==> r == s
    ensures x in s ==> |r| == |s| - 1
    ensures forall y :: y in r ==> y in s
    ensures forall y :: y in s && y != x ==> y in r
    ensures NoDup(s) ==> NoDup(r) && x !in r
  {
    if s == [] then []
    else if s[0] == x then
      assert NoDup(s) ==> x !in s[1..] by {
        if NoDup(s) {
          forall k | 0 <= k < |s| - 1
            ensures s[1..][k] != x
          {
            assert s[1..][k] == s[k + 1];
          }
        }
      }
      s[1..]
    else
      var rest := WithoutFirst(s[1..], x);
      assert NoDup(s) ==> NoDup(s[1..]) && s[0] !in rest by {
        if NoDup(s) {
          forall k | 0 <= k < |s| - 1
            ensures s[1..][k] != s[0]
          {
            assert s[1..][k] == s[k + 1];
          }
        }
      }
      [s[0]] + rest
  }

  /** The engine's `owner.remove(id)`: unlink `id` if `owner` lists it, otherwise do nothing. */
  function Remove(sc: Scene, owner: Owner, id: ObjectId): (r: Scene)
    ensures r.nodes == sc.nodes
    ensures !ListedUnder(sc, owner, id) ==> r == sc
    ensures ListedUnder(sc, owner, id) ==> id !in r.parent
  {
    if ListedUnder(sc, owner, id) then
      sc.(parent := sc.parent - {id}, top := if owner == SceneRoot then WithoutFirst(sc.top, id) else sc.top)
    else sc
  }

  /** Taking `id` away from its current parent, if it has one (the first step of `add`). */
  function Detach(sc: Scene, id: ObjectId): (r: Scene)
    ensures r.nodes == sc.nodes
    ensures id !in sc.parent ==> r == sc
  {
    if id in sc.parent then Remove(sc, sc.parent[id], id) else sc
  }

  /** Linking an unattached `id` under `owner`, as its last child. */
  function Attach(sc: Scene, owner: Owner, id: ObjectId): (r: Scene)
    ensures r.nodes == sc.nodes
    ensures id in r.parent && r.parent[id] == owner
    ensures owner == SceneRoot ==> |r.top| > 0 && r.top[|r.top| - 1] == id
  {
    sc.(parent := sc.parent[id := owner], top := if owner == SceneRoot then sc.top + [id] else sc.top)
  }

  /**
   * The engine's `owner.add(id)`: refused when an object is added to itself;
   * otherwise `id` is first removed from its current parent, then appended
   * to `owner`'s children.
   */
  function Add(sc: Scene, owner: Owner, id: ObjectId): (r: Scene)
    ensures r.nodes == sc.nodes
    ensures owner == Under(id) ==> r == sc
    ensures owner != Under(id) ==> id in r.parent && r.parent[id] == owner
    ensures owner == SceneRoot ==> |r.top| > 0 && r.top[|r.top| - 1] == id
  {
    if owner == Under(id) then sc else Attach(Detach(sc, id), owner, id)
  }

  /** Well-formedness depends on the links and on which objects exist, not on what the objects hold. */
  lemma WellFormedByLinks(a: Scene, b: Scene)
    requires WellFormed(a) && b.parent == a.parent && b.top == a.top && b.nodes.Keys == a.nodes.Keys
    ensures WellFormed(b)
  {
  }

  /** Removing an object from the parent it is linked to unlinks it and nothing else. */
  lemma RemoveKeepsLinked(sc: Scene, id: ObjectId)
    requires Linked(sc) && id in sc.parent
    ensures Linked(Remove(sc, sc.parent[id], id))
    ensures Remove(sc, sc.parent[id], id).parent == sc.parent - {id}
    ensures forall x :: x in Remove(sc, sc.parent[id], id).top <==> x in sc.top && x != id
  {
    var owner := sc.parent[id];
    assert ListedUnder(sc, owner, id);
  }

  /** `add` keeps the links consistent and moves `id`, and only `id`, under `owner`. */
  lemma AddKeepsLinked(sc: Scene, owner: Owner, id: ObjectId)
    requires Linked(sc) && owner != Under(id)
    ensures Linked(Add(sc, owner, id))
    ensures Add(sc, owner, id).parent == sc.parent[id := owner]
    ensures forall x :: x != id ==> (x in Add(sc, owner, id).top <==> x in sc.top)
  {
    var d := Detach(sc, id);
    if id in sc.parent {
      RemoveKeepsLinked(sc, id);
    }
    assert id !in d.parent && id !in d.top;
    var r := Attach(d, owner, id);
    assert Add(sc, owner, id) == r;
    assert NoDup(r.top) by {
      if owner == SceneRoot {
        forall i, j | 0 <= i < j < |r.top|
          ensures r.top[i] != r.top[j]
        {
          if j == |r.top| - 1 {
            assert r.top[i] in d.top;
          }
        }
      }
    }
  }

  /** `add` of a known object under a known owner other than itself keeps the scene well formed. */
  lemma AddKeepsWellFormed(sc: Scene, owner: Owner, id: ObjectId)
    requires WellFormed(sc) && id in sc.nodes && owner != Under(id)
    requires owner.Under? ==> owner.id in sc.nodes
    ensures WellFormed(Add(sc, owner, id))
    ensures Add(sc, owner, id).parent == sc.parent[id := owner]
    ensures forall x :: x != id ==> (x in Add(sc, owner, id).top <==> x in sc.top)
  {
    AddKeepsLinked(sc, owner, id);
  }

  /**
   * Removing an object from its parent and then adding it to the scene root
   * is the same as adding it to the scene root directly.
   */
  lemma RemoveThenAdd(sc: Scene, id: ObjectId)
    requires Linked(sc) && id in sc.parent
    ensures Add(Remove(sc, sc.parent[id], id), SceneRoot, id) == Add(sc, SceneRoot, id)
  {
    assert ListedUnder(sc, sc.parent[id], id);
  }

  /** Two scenes side by side, as when a loaded subtree joins the scene's maps. */
  function Merge(a: Scene, b: Scene): (r: Scene)
    ensures r.nodes.Keys == a.nodes.Keys + b.nodes.Keys
    ensures r.top == a.top
  {
    Scene(a.nodes + b.nodes, a.parent + b.parent, a.top)
  }

  /** Merging a linked scene with a detached linked subtree of other objects keeps the links consistent. */
  lemma MergeKeepsLinked(a: Scene, b: Scene)
    requires Linked(a) && KnownOwners(a) && Linked(b) && KnownOwners(b)
    requires a.nodes.Keys !! b.nodes.Keys && b.top == []
    ensures Linked(Merge(a, b)) && KnownOwners(Merge(a, b))
    ensures Merge(a, b).parent == a.parent + b.parent
    ensures forall x :: x in a.parent ==> Merge(a, b).parent[x] == a.parent[x]
  {
    var r := Merge(a, b);
    forall x | x in a.parent
      ensures r.parent[x] == a.parent[x]
    {
      assert x in a.nodes;
    }
  }

  /**
   * A detached subtree of fresh objects, whose every object but the root
   * has its parent inside it, added to the scene root: the scene stays well
   * formed, the root becomes its last child, and no other link changes.
   */
  lemma AddSubtreeKeepsWellFormed(a: Scene, b: Scene, root: ObjectId)
    requires WellFormed(a) && Linked(b) && KnownOwners(b)
    requires root in b.nodes && b.parent.Keys == b.nodes.Keys - {root} && b.top == []
    requires a.nodes.Keys !! b.nodes.Keys
    ensures WellFormed(Add(Merge(a, b), SceneRoot, root))
    ensures Add(Merge(a, b), SceneRoot, root).parent == (a.parent + b.parent)[root := SceneRoot]
    ensures forall x :: x != root ==> (x in Add(Merge(a, b), SceneRoot, root).top <==> x in a.top)
  {
    MergeKeepsLinked(a, b);
    var merged := Merge(a, b);
    AddKeepsLinked(merged, SceneRoot, root);
  }

  /** Which top-level groups and meshes a visibility pass leaves shown. */
  datatype VisibilityRule =
    | IsolateRule(clicked: ObjectId, clickedParent: Owner)
    | ShowAll

  predicate Wanted(rule: VisibilityRule, x: ObjectId) {
    match rule
    case IsolateRule(c, p) => x == c || Under(x) == p
    case ShowAll => true
  }

  /**
   * A pass over `tops` in order, setting each group's and mesh's visibility
   * to what `rule` wants; other kinds of object are skipped.
   */
  function ApplyVisibility(nodes: map<ObjectId, Node>, tops: seq<ObjectId>, rule: VisibilityRule): (r: map<ObjectId, Node>)
    ensures r.Keys == nodes.Keys
    ensures forall x {:trigger r[x]} :: x in nodes ==>
      r[x] == if x in tops && GroupOrMesh(nodes[x]) then nodes[x].(visible := Wanted(rule, x)) else nodes[x]
  {
    if tops == [] then nodes
    else
      var done := ApplyVisibility(nodes, tops[..|tops| - 1], rule);
      var x := tops[|tops| - 1];
      assert forall y :: y in tops <==> y in tops[..|tops| - 1] || y == x;
      if x in done && GroupOrMesh(done[x]) then done[x := done[x].(visible := Wanted(rule, x))] else done
  }

  /** One more object at the end of the pass. */
  lemma ApplyVisibilityStep(nodes: map<ObjectId, Node>, tops: seq<ObjectId>, x: ObjectId, rule: VisibilityRule)
    ensures var done := ApplyVisibility(nodes, tops, rule);
      ApplyVisibility(nodes, tops + [x], rule)
        == if x in done && GroupOrMesh(done[x]) then done[x := done[x].(visible := Wanted(rule, x))] else done
  {
    assert (tops + [x])[..|tops + [x]| - 1] == tops;
  }

  function SetVisible(sc: Scene, id: ObjectId, on: bool): (r: Scene)
    ensures r.parent == sc.parent && r.top == sc.top && r.nodes.Keys == sc.nodes.Keys
    ensures id in sc.nodes ==> r.nodes[id] == sc.nodes[id].(visible := on)
    ensures forall x {:trigger r.nodes[x]} :: x in sc.nodes && x != id ==> r.nodes[x] == sc.nodes[x]
  {
    if id in sc.nodes then sc.(nodes := sc.nodes[id := sc.nodes[id].(visible := on)]) else sc
  }

  /** Setting a mesh material's emissive colour to red (on) or black (off). */
  function SetEmissive(sc: Scene, id: ObjectId, on: bool): (r: Scene)
    ensures r.parent == sc.parent && r.top == sc.top && r.nodes.Keys == sc.nodes.Keys
    ensures id in sc.nodes ==> r.nodes[id] == sc.nodes[id].(emissive := on)
    ensures forall x {:trigger r.nodes[x]} :: x in sc.nodes && x != id ==> r.nodes[x] == sc.nodes[x]
  {
    if id in sc.nodes then sc.(nodes := sc.nodes[id := sc.nodes[id].(emissive := on)]) else sc
  }

  function SetTransform(sc: Scene, id: ObjectId, t: Transform): (r: Scene)
    ensures r.parent == sc.parent && r.top == sc.top && r.nodes.Keys == sc.nodes.Keys
    ensures id in sc.nodes ==> r.nodes[id] == sc.nodes[id].(transform := t)
    ensures forall x {:trigger r.nodes[x]} :: x in sc.nodes && x != id ==> r.nodes[x] == sc.nodes[x]
  {
    if id in sc.nodes then sc.(nodes := sc.nodes[id := sc.nodes[id].(transform := t)]) else sc
  }
}
