# 3D cat anatomy viewer: selection, isolation and restore

This project models the interactive core of a browser page that shows a cat
skeleton built from separately loaded bone models (three.js r126). The page
keeps a few pieces of state at module level:
- the scene graph with three lights and one subtree per loaded model;
- a registry of loaded models;
- the selected object and the highlighted object;
- a snapshot (transform and parent) of every object ever isolated;
- whether the return button and the tooltip are shown;
- the text of the information panel.

Four kinds of event change that state:
- **loadModel**: a model finishes loading. Its meshes are tagged with the bone label and the label's description. The model is registered and added to the scene.
- **mousemove**: the mesh under the pointer takes over the red emissive highlight.
- **click**: the clicked mesh is isolated. Every other group and mesh at the scene root is hidden, except the clicked mesh's parent. The mesh moves to the root, is highlighted, and its name and description appear in the panel.
- **return button**: the isolated mesh goes back to its parent and transform, and every group and mesh at the root is shown again.

The model has three layers:
- **Values.** Modules `SceneGraph`, `Descriptions` and `ViewerSpec` state the page as a value (`ViewState`) and each handler as a function on it. The scene is a map from object ids to nodes, a parent map and the ordered child list of the scene root.
- **Lemmas.** `ViewerInvariant` proves that every handler keeps the page consistent: the scene stays well formed, the selection stays a mesh with its snapshot on record, and the highlight reference names a highlighted mesh. This holds for the return button as written and for a corrected one, and so for every event sequence from the initial page. With the corrected restore every handler also keeps a single highlight, so at most one mesh is ever highlighted; as written, two can be (see Findings). `ViewerBehaviour` proves what each handler does, and what a round trip through isolate and restore gives back. `ViewerQuirks` proves consequences of the code as written that a user may not expect.
- **Objects.** `Controller.Viewer` is a class whose fields are the module-level state. Its methods perform the handlers step by step. The two `forEach` passes over the scene root and the `traverse` over a loaded model are loops. Each method is proved to leave the state the matching function computes, and the event handlers are proved to keep the invariant. `RestoreSkeleton` is the restore as written; the return handler adds the correction.

The three.js operations the code relies on are modelled as r126 defines them:
- `Object3D.add` does nothing when an object is added to itself. Otherwise it first removes the object from its current parent, then appends it to the new one.
- `remove` takes the first occurrence out of the child list.
- A ray query does not look at the visibility of descendants, which is why both pointer handlers test `.visible` themselves.

## Model

| member | source | states |
|---|---|---|
| SceneGraph.Add | src/script.js:270-271 | adding an object to itself changes nothing; otherwise the object's parent becomes the new owner, and an object added to the scene root is its last child |
| SceneGraph.RemoveKeepsLinked | src/script.js:270 | removing an object from its parent keeps parents and child lists consistent, forgets only that object's parent and takes it off the root's list |
| SceneGraph.WithoutFirst | src/script.js:270 | the `splice` at `indexOf` inside r126 `remove` on the root's child list: an absent object leaves the list as it is; otherwise the list is one shorter, loses no other object and gains none, and a list without repetitions stays so and no longer holds the object |
| SceneGraph.Remove | src/script.js:270 | removing changes no object; removing an object its owner does not list changes nothing; otherwise the object loses its parent link |
| SceneGraph.AddKeepsLinked | src/script.js:271 | adding keeps parents and child lists consistent, changes the parent of the added object only, and leaves every other object's root membership alone |
| SceneGraph.AddKeepsWellFormed | src/script.js:307 | adding a known object to a known owner other than itself keeps the scene well formed, with only that object's parent changed |
| SceneGraph.RemoveThenAdd | src/script.js:270-271 | removing an object from its parent and then adding it to the root gives the same scene as adding it to the root directly |
| SceneGraph.MergeKeepsLinked | src/script.js:170 | joining a disjoint parsed subtree keeps both parent maps and adds nothing to the root's list |
| SceneGraph.AddSubtreeKeepsWellFormed | src/script.js:170 | adding a loaded subtree's root to the scene keeps the scene well formed; the root hangs under the scene root and every other parent is kept |
| SceneGraph.ApplyVisibility | src/script.js:260-265 | the pass over the root's children sets exactly the groups and meshes among them to the visibility the rule wants and leaves every other object unchanged |
| SceneGraph.ApplyVisibilityStep | src/script.js:310-314 | the pass over one more child equals the pass so far followed by that child's update |
| Descriptions.Describe | src/script.js:68-147 | the `switch` on the label: a label of the table gets its own text, any other label keeps the empty description it starts with (line 68) |
| Descriptions.DescribedExactlyListed | src/script.js:68-147 | a label has a non-empty description exactly when it is one of the 25 labels of the switch |
| Descriptions.PanelText | src/script.js:426 | the panel shows the description when it is non-empty and the fixed fallback otherwise, and never an empty text |
| Descriptions.UnlistedLabelsShowFallback | src/script.js:201-225 | the loaded labels Patella, Molar, Teeth and Unnamed have no description, so their meshes show the fallback |
| Descriptions.ListedLabelsShowOwnText | src/script.js:68-147 | a listed label's text is shown as it is, never the fallback |
| ViewerSpec.Initial | src/script.js:18-65 | the page starts with the three lights as the root's only children and only objects, every registry entry (declared at 38-65) empty, and the variables of 226-229 cleared: nothing selected or highlighted, no parent and no transform recorded, no button, no tooltip, the default panel |
| ViewerSpec.Unhighlight | src/script.js:244-247 | turning off the highlight slot's object resets only that object's emissive colour |
| ViewerSpec.Tagged | src/script.js:154-166 | a mesh gets the label as name, the description, and a non-emissive material; other objects are untouched |
| ViewerSpec.TagMeshes | src/script.js:153-167 | the traversal tags every object of the loaded subtree and keeps its ids |
| ViewerSpec.Adopt | src/script.js:153-170 | the scene after the callback holds the old objects and the loaded ones, with the loaded root as the last child of the scene root |
| ViewerSpec.Load | src/script.js:148-170 | the registry maps the label to the new root, replacing an earlier one, and the scene gains exactly the loaded objects |
| ViewerSpec.Hide | src/script.js:243-267 | the previous highlight, if another object, is turned off; among the root's groups and meshes only the clicked mesh and its parent stay shown; the clicked mesh is shown |
| ViewerSpec.MoveToRoot | src/script.js:270-271 | moving the clicked mesh to the root changes no node |
| ViewerSpec.IsolateBone | src/script.js:242-296 | after isolating, the clicked mesh is both selected and highlighted and its snapshot is on record |
| ViewerSpec.Reattach | src/script.js:301-307 | putting the selected object back changes only its transform, to the recorded one |
| ViewerSpec.ShowAllTop | src/script.js:310-314 | every group and mesh at the root is shown; nothing else changes |
| ViewerSpec.RestoreAsWritten | src/script.js:299-334 | restore as written: without a selection nothing changes; otherwise the selection, the highlight reference and the return button are cleared, the selected object gets its recorded transform and parent back and its highlight off, and every group and mesh at the root is shown (every other object: ViewerBehaviour.RestoreAsWrittenFrame) |
| ViewerSpec.RestoreSkeleton | src/script.js:299-334 | the corrected restore clears the selection, the highlight reference and the return button, like the restore as written (see RestoreAgrees) |
| ViewerSpec.ReturnClicked | src/script.js:436-444 | the return button with the corrected restore leaves no selection, no highlight reference, no return button, and shows the prompt (see Left out) |
| ViewerSpec.ReturnClickedAsWritten | src/script.js:436-444 | the return button as written: without a selection only the prompt changes; otherwise the references and the button are cleared, the selected object gets its recorded transform and parent back and its highlight off, every group and mesh at the root is shown, and the prompt appears (every other object: ViewerBehaviour.RestoreFrame) |
| ViewerSpec.MouseMove | src/script.js:364-399 | hovering changes no parent, child list, object kind, selection or snapshot |
| ViewerSpec.Click | src/script.js:418-432 | a click keeps the set of objects and keeps every selected object restorable |
| ViewerInvariant.InitialInvariant | src/script.js:18-28 | the page with its three lights, nothing selected and nothing highlighted satisfies the invariant |
| ViewerInvariant.AdoptLinks | src/script.js:153-170 | the scene stays well formed when a model is added; the root's parent becomes the scene root and the other parents are kept |
| ViewerInvariant.AdoptNodes | src/script.js:153-168 | old objects are unchanged; loaded objects keep kind and visibility; loaded meshes carry the label, the description and no highlight; the root carries the label |
| ViewerInvariant.AdoptKeepsInvariant | src/script.js:153-170 | adding a loaded model keeps the page consistent and a single highlight single, whatever the description |
| ViewerInvariant.LoadKeepsInvariant | src/script.js:148-170 | the success callback keeps the page consistent and a single highlight single |
| ViewerInvariant.MoveToRootLinks | src/script.js:270-271 | moving an object to the root keeps the scene well formed, changes only its parent, and makes it the root's last child |
| ViewerInvariant.IsolateLinks | src/script.js:242-296 | isolating keeps the scene well formed and changes only the clicked mesh's parent, to the scene root |
| ViewerInvariant.IsolateHighlight | src/script.js:243-247 | after isolating, the slot refers to the clicked mesh, which is highlighted; if only the slot's object was highlighted before, the clicked mesh is the only highlighted mesh |
| ViewerInvariant.IsolateSnapshots | src/script.js:250-257 | recorded parents stay known objects other than the object itself |
| ViewerInvariant.IsolateKeepsInvariant | src/script.js:242-296 | isolating a mesh keeps the page consistent and a single highlight single |
| ViewerInvariant.ReattachLinks | src/script.js:301-307 | putting an object back under a known owner keeps the scene well formed and changes only that object's parent and transform |
| ViewerInvariant.RestoreAgrees | src/script.js:320-332 | the restore as written and the corrected one differ only in the emissive colour of the object in the highlight slot |
| ViewerInvariant.RestoreAsWrittenLinks | src/script.js:299-314 | restore as written keeps the scene well formed and changes only the selected object's parent, back to the recorded one |
| ViewerInvariant.RestoreLinks | src/script.js:299-334 | restore, as written or corrected, keeps the scene well formed and changes only the selected object's parent, back to the recorded one |
| ViewerInvariant.RestoreHighlight | src/script.js:299-334 | from a page with at most one highlighted mesh, the one the highlight reference names, after the corrected restore, no mesh is highlighted and the slot is empty |
| ViewerInvariant.RestoreKeepsConsistent | src/script.js:299-334 | restore, as written or corrected, keeps the page consistent |
| ViewerInvariant.RestoreKeepsInvariant | src/script.js:299-334 | the corrected restore keeps the invariant, single highlight included |
| ViewerInvariant.ReturnKeepsInvariant | src/script.js:436-444 | the return button, as written or corrected, keeps the page consistent; with the corrected restore it keeps the invariant |
| ViewerInvariant.FlagsOnlyKeepConsistent | src/script.js:364-399 | a change to highlight and tooltip flags that leaves the slot referring to a highlighted mesh keeps the page consistent |
| ViewerInvariant.HoverNewMeshHighlight | src/script.js:369-380 | hovering a new visible mesh makes the slot refer to it, highlighted; if only the slot's object was highlighted before, the hovered mesh is the only highlighted mesh |
| ViewerInvariant.HoverNothingHighlight | src/script.js:390-395 | hovering nothing empties the slot; if only the slot's object was highlighted, no mesh is left highlighted |
| ViewerInvariant.MouseMoveKeepsInvariant | src/script.js:364-399 | the mousemove handler keeps the page consistent and a single highlight single |
| ViewerInvariant.ClickKeepsInvariant | src/script.js:418-432 | the click handler keeps the page consistent and a single highlight single |
| ViewerInvariant.StepKeepsInvariant | src/script.js:148-444 | any enabled event (load, move, click, return) keeps the page consistent with either restore, and keeps the invariant with the corrected restore |
| ViewerInvariant.RunKeepsInvariant | src/script.js:349-444 | every admissible sequence of events keeps the page consistent with either restore, and keeps the invariant with the corrected restore |
| ViewerInvariant.PageStaysConsistent | src/script.js:349-444 | on the page as written, after any event sequence from the initial page the scene is well formed, the selection is a mesh with its snapshot on record, and the highlight reference names a highlighted mesh |
| ViewerInvariant.AtMostOneHighlighted | src/script.js:349-444 | with the corrected restore, after any event sequence from the initial page at most one mesh is highlighted |
| ViewerBehaviour.AdoptEffects | src/script.js:153-170 | adding a model leaves the old objects and their parents alone, keeps the old root children, hangs the loaded root last under the scene root, keeps the subtree's parents, and tags its meshes |
| ViewerBehaviour.LoadRegistersAndAdds | src/script.js:148-170 | loading registers the root under the label, keeps the other registry entries, and adds the tagged subtree as the root's last child |
| ViewerBehaviour.LoadTwiceLastWins | src/script.js:169-170 | loading a label twice keeps the second root in the registry while both roots stay in the scene |
| ViewerBehaviour.IsolateShowsOnlyClickedAndParent | src/script.js:259-274 | after isolating, a group or mesh at the root is visible exactly when it is the clicked mesh or its former parent, and the clicked mesh is visible and highlighted |
| ViewerBehaviour.IsolateMovesOnlyClicked | src/script.js:249-295 | isolating changes only the clicked mesh's parent, to the root, makes it the root's last child, records its transform and parent, and shows the return button |
| ViewerBehaviour.IsolateKeepsLightsAndTransforms | src/script.js:242-296 | isolating leaves the lights unchanged and no transform moves |
| ViewerBehaviour.RestoreShowsTop | src/script.js:309-314 | after restore, as written or corrected, every group and mesh at the root is visible |
| ViewerBehaviour.RestoreTransforms | src/script.js:301-304 | restore, as written or corrected, gives the selected object its recorded transform and changes no other transform |
| ViewerBehaviour.RestoreKeepsOthers | src/script.js:299-334 | restore as written leaves lights and other non-group, non-mesh objects unchanged; the corrected one may also turn off the highlighted object |
| ViewerBehaviour.RestoreAsWrittenFrame | src/script.js:299-334 | restore as written, on every object other than the selection: a group or mesh among the root's children is shown and otherwise unchanged, and every other object, nested groups and meshes included, is left exactly as it was (a highlighted one stays highlighted) |
| ViewerBehaviour.RestoreFrame | src/script.js:299-334 | the same frame for either restore, where the corrected one also turns off the object in the highlight slot; the return button (436-444) leaves exactly the scene its restore leaves |
| ViewerBehaviour.RestoreEffects | src/script.js:299-334 | restore, as written or corrected, puts the selected object back under its recorded parent with its recorded transform and its highlight off, and clears selection, highlight reference and return button |
| ViewerBehaviour.RestoreWithoutSelectionIsNoop | src/script.js:300 | without a selection, restore as written or corrected changes nothing and the return button only sets the prompt |
| ViewerBehaviour.IsolateRestoreRoundTrip | src/script.js:242-334 | isolate then restore, as written or corrected, gives back every parent and the membership of the root's child list |
| ViewerBehaviour.IsolateRestoreTransforms | src/script.js:242-334 | isolate then restore, as written or corrected, gives back every transform |
| ViewerBehaviour.HoverHighlightsOnlyHovered | src/script.js:367-386 | from a page with at most one highlighted mesh, the one the highlight reference names, hovering a visible mesh makes it the only highlighted mesh, shows the tooltip and changes neither parents nor selection |
| ViewerBehaviour.HoverNothingClears | src/script.js:389-398 | from a page with at most one highlighted mesh, the one the highlight reference names, hovering nothing leaves no mesh highlighted and hides the tooltip, keeping selection and return button |
| ViewerBehaviour.HoverIgnored | src/script.js:367 | a hit that is not a visible mesh changes nothing |
| ViewerBehaviour.ClickIgnored | src/script.js:418-422 | no hit, a hit that is not a visible mesh, or the selected mesh changes nothing |
| ViewerBehaviour.ClickIsolatesAndDescribes | src/script.js:422-430 | clicking a visible unselected mesh selects, highlights and moves it to the root and shows its name with its description or the fallback |
| ViewerBehaviour.LoadedMeshClickable | src/script.js:153-170 | a visible mesh of a loaded model can be hit, is a visible mesh, and carries the label and its description |
| ViewerBehaviour.ClickAfterLoadShowsLabelText | src/script.js:68-170 | clicking a loaded mesh shows the label with its own text when the label is listed and the fallback otherwise |
| ViewerBehaviour.UnlistedBoneShowsFallback | src/script.js:201-225 | clicking a mesh loaded as Patella, Molar, Teeth or Unnamed shows the fallback text |
| ViewerBehaviour.ClickMovesOnlyClicked | src/script.js:418-432 | a click on a visible unselected mesh changes only its parent, to the root, and records its previous parent |
| ViewerBehaviour.ReturnMovesOnlySelected | src/script.js:436-444 | the return button, as written or corrected, changes only the selected object's parent, back to the recorded one, keeps the records and shows the prompt |
| ViewerQuirks.ClickDuringIsolationLeavesFirstDetached | src/script.js:418-444 | clicking a second mesh while one is isolated, then returning (as written or corrected), leaves the first one under the scene root although its recorded parent is its group |
| ViewerQuirks.HoverAwayClearsIsolationHighlight | src/script.js:389-395 | moving the pointer off every object turns off the isolated mesh's highlight while it stays selected |
| ViewerQuirks.RestoreAsWrittenLeavesStaleHighlight | src/script.js:320-332 | when the highlighted mesh is not the selected one, restore as written empties the slot but leaves that mesh highlighted |
| ViewerQuirks.StaleHighlightThenSecond | src/script.js:364-386 | after such a restore, hovering another mesh leaves two meshes highlighted |
| ViewerQuirks.IsolateKeepsNestedVisibility | src/script.js:259-264 | isolating leaves the kind and visibility of every object below the root's children unchanged |
| ViewerQuirks.ClickKeepsSiblingVisible | src/script.js:259-267 | when the clicked mesh's parent is a group among the root's children, that group stays shown and a sibling mesh stays a visible mesh after isolation |
| ViewerQuirks.HoverThenReturn | src/script.js:299-334 | hovering another visible mesh during isolation and then returning leaves a stale highlight as written and none with the corrected restore |
| ViewerQuirks.SiblingHoverThenReturn | src/script.js:242-444 | from any page satisfying the invariant with two visible meshes in one group that is a child of the scene root: click one, hover the other, press return; the stale highlight appears as written and not when corrected |
| Controller.VisibilityPass | src/script.js:260-265 | the loop over the root's children computes the visibility pass |
| Controller.TagAll | src/script.js:153-167 | the traversal loop tags every object of the loaded subtree |
| Controller.Viewer.constructor | src/script.js:18-28 | the new page is the initial state and satisfies the invariant |
| Controller.Viewer.OnModelLoaded | src/script.js:150-170 | the success callback leaves the tagged subtree added and registered |
| Controller.Viewer.LoadModel | src/script.js:67-170 | loading leaves the state Load computes and keeps the invariant |
| Controller.Viewer.HideOthers | src/script.js:243-267 | the first half of isolation leaves the scene Hide computes, with the snapshot recorded |
| Controller.Viewer.IsolateBone | src/script.js:242-296 | the method leaves the state IsolateBone computes |
| Controller.Viewer.RestoreSkeleton | src/script.js:299-334 | the method leaves the state the restore as written computes |
| Controller.Viewer.HoverOver | src/script.js:367-386 | hovering a visible mesh leaves the state MouseMove computes |
| Controller.Viewer.HoverNothing | src/script.js:389-398 | hovering nothing leaves the state MouseMove computes |
| Controller.Viewer.OnMouseMove | src/script.js:349-400 | the handler leaves the state MouseMove computes and keeps the invariant |
| Controller.Viewer.ShowBone | src/script.js:422-431 | isolating the clicked mesh and filling the panel leaves the state Click computes |
| Controller.Viewer.OnClick | src/script.js:403-433 | the handler leaves the state Click computes and keeps the invariant |
| Controller.Viewer.RestoreAndPrompt | src/script.js:436-444 | restore, then the correction, prompt and cleared selection leave the state ReturnClicked computes |
| Controller.Viewer.OnReturnClick | src/script.js:436-444 | the handler leaves the state ReturnClicked computes, with the corrected restore, and keeps the invariant |

## Left out

- Rendering, the camera, orbit controls, the bounding box used to frame an isolated bone, window resizing, and the animation loop: none of these changes the state modelled here.
- The ray query and pointer coordinates: each pointer handler takes the first hit as an input (an object of the scene, or none). Which object the ray meets first is not modelled, and neither is the query's filter that skips hidden children of the scene root with everything below them (src/script.js:362). Lemmas about a hover or click inside a group therefore require the group to be a child of the scene root that stays shown.
- Loading is asynchronous and the parsed asset is an input to the success callback. A load error only logs a message and is left out. Loads finish in any order, one at a time.
- The order of children inside a loaded group is not kept. Only the scene root's child list is a sequence, because only its order is observable here. Acyclicity of the scene graph is not tracked, because no operation here can create a cycle.
- Description texts are short summaries of the switch's texts. Only whether a label has a non-empty text affects behaviour.
- Tooltip text and position are left out; only whether the tooltip is shown is kept. The initial panel text comes from the page's HTML and is modelled as `PageDefault`.
- Colours and emissive intensities are one flag per object: highlighted (red) or not (black).
- A click on the return button also reaches the window's click handler. The model treats the two as separate events.
- The registry keeps the lower-case keys it is declared with, and loads add capitalised labels beside them. This is modelled as written.
- ReturnClicked: runs the corrected restore, which also turns off a highlighted mesh other than the selected one; the handler as written leaves that mesh lit (src/script.js:437, 320-332). ReturnClickedAsWritten is the handler as written; see Findings.
- Controller.Viewer: the class as a whole models the corrected page. Its invariant `Valid()` includes the single highlight, which only the corrected restore keeps, so OnMouseMove, OnClick and LoadModel require a state that only the corrected page guarantees, and OnReturnClick runs the corrected return handler through RestoreAndPrompt. Controller.Viewer.RestoreSkeleton alone is the restore as written; the page as written is modelled on values (ViewerSpec with `AsWritten`, ViewerInvariant.PageStaysConsistent).
- AtMostOneHighlighted: holds with the corrected restore only. On the page as written PageStaysConsistent holds, and two meshes can be highlighted (see Findings).
- ViewerSpec.IsolateBone: requires the isolated object to be a mesh, because the code reads and writes its material. Callers reach it only through the click handler, which checks this.

## Findings

| source | as written | input that shows it | evidently intended | confidence | as-written member | corrected member |
|---|---|---|---|---|---|---|
| src/script.js:320-332 | `restoreSkeleton` resets the emissive colour of the selected object only, then drops the reference to the highlighted object | click mesh A whose parent is a group among the scene root's children, hover mesh B of the same group (that group stays shown), press the return button from the keyboard (Tab to it, then Enter), so that no mousemove comes between: B stays red with no reference to it; hovering another mesh then leaves two red meshes. The keyboard press also reaches the window's click handler, with clientX = clientY = 0, so its ray starts at the page's top-left corner; the input assumes that ray meets no mesh, and such a click changes nothing (ViewerBehaviour.ClickIgnored). A press with the pointer behaves otherwise: the same click is raycast at the button's pixel after every group has been shown again, so a mesh under the button is isolated and selected there | the highlighted object's colour is reset together with its reference, so at most one mesh is ever red | not executed | ViewerQuirks.RestoreAsWrittenLeavesStaleHighlight | ViewerInvariant.RestoreKeepsInvariant |
