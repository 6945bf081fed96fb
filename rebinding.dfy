/**
 * The animation rebind window: copies every curve of a clip into a new clip
 * under a binding that keeps the property name and component type but whose
 * path is the target object's path from its hierarchy root.
 *
 * The target is a value of an arbitrary type `G`; the engine's
 * CalculateTransformPath(target.transform, target.transform.root) is the
 * function parameter `transformPath`, about which nothing is assumed.
 */
module Rebinding {
  import opened AnimationClips

  /** The form's initial clip name. */
  const DefaultNewClipName := "ModifiedAnimation"
  const MissingInputWarning := "Original clip or target object is not set."

  /** The binding a source binding is moved to. */
  function CreateNewBinding<G>(binding: EditorCurveBinding, targetObject: G, transformPath: G -> string): (r: EditorCurveBinding)
    ensures r.propertyName == binding.propertyName
    ensures r.componentType == binding.componentType
    ensures r.path == transformPath(targetObject)
  {
    EditorCurveBinding(transformPath(targetObject), binding.propertyName, binding.componentType)
  }

  /** The new binding does not depend on the original binding's path. */
  lemma NewBindingIgnoresPath<G>(binding: EditorCurveBinding, otherPath: string, targetObject: G, transformPath: G -> string)
    ensures CreateNewBinding(binding.(path := otherPath), targetObject, transformPath)
            == CreateNewBinding(binding, targetObject, transformPath)
  {
  }

  /** Two bindings are moved onto the same binding iff they agree on property name and component type. */
  lemma NewBindingsCollideIff<G>(a: EditorCurveBinding, b: EditorCurveBinding, targetObject: G, transformPath: G -> string)
    ensures CreateNewBinding(a, targetObject, transformPath) == CreateNewBinding(b, targetObject, transformPath)
            <==> a.propertyName == b.propertyName && a.componentType == b.componentType
  {
  }

  /**
   * The (new binding, original curve) pairs the window projects from the
   * source clip's bindings, in the engine's order.
   */
  function RebindWrites<G>(bindings: seq<EditorCurveBinding>, curves: map<EditorCurveBinding, AnimationCurve>,
                           targetObject: G, transformPath: G -> string): (writes: seq<CurveWrite>)
    requires forall b :: b in bindings ==> b in curves
  {
    seq(|bindings|, i requires 0 <= i < |bindings| =>
      (CreateNewBinding(bindings[i], targetObject, transformPath), curves[bindings[i]]))
  }

  /** The new clip's curves after the window's writes into a fresh clip. */
  function ReboundCurves<G>(bindings: seq<EditorCurveBinding>, curves: map<EditorCurveBinding, AnimationCurve>,
                            targetObject: G, transformPath: G -> string): map<EditorCurveBinding, AnimationCurve>
    requires forall b :: b in bindings ==> b in curves
  {
    CurvesAfter(map[], RebindWrites(bindings, curves, targetObject, transformPath))
  }

  /** The new clip's bindings are exactly the images of the source bindings. */
  lemma ReboundKeysAreImage<G>(bindings: seq<EditorCurveBinding>, curves: map<EditorCurveBinding, AnimationCurve>,
                               targetObject: G, transformPath: G -> string)
    requires forall b :: b in bindings ==> b in curves
    ensures ReboundCurves(bindings, curves, targetObject, transformPath).Keys
            == set b | b in bindings :: CreateNewBinding(b, targetObject, transformPath)
  {
    var writes := RebindWrites(bindings, curves, targetObject, transformPath);
    CurvesAfterKeys(map[], writes);
    forall b | b in bindings
      ensures CreateNewBinding(b, targetObject, transformPath) in set w | w in writes :: w.0
    {
      var i :| 0 <= i < |bindings| && bindings[i] == b;
      assert writes[i] in writes;
    }
  }

  /** Every binding of the new clip has the target's path: rebinding collapses all curves onto one object. */
  lemma ReboundOntoOnePath<G>(bindings: seq<EditorCurveBinding>, curves: map<EditorCurveBinding, AnimationCurve>,
                              targetObject: G, transformPath: G -> string)
    requires forall b :: b in bindings ==> b in curves
    ensures forall nb :: nb in ReboundCurves(bindings, curves, targetObject, transformPath) ==> nb.path == transformPath(targetObject)
  {
    ReboundKeysAreImage(bindings, curves, targetObject, transformPath);
  }

  /**
   * A source binding that no later binding with the same property name and
   * component type follows leaves its own curve, unmodified, under its new
   * binding: on a collision the later write wins.
   */
  lemma RebindLaterWins<G>(bindings: seq<EditorCurveBinding>, curves: map<EditorCurveBinding, AnimationCurve>,
                           targetObject: G, transformPath: G -> string, i: nat)
    requires forall b :: b in bindings ==> b in curves
    requires i < |bindings|
    requires forall j :: i < j < |bindings| ==>
               !(bindings[j].propertyName == bindings[i].propertyName && bindings[j].componentType == bindings[i].componentType)
    ensures var nb := CreateNewBinding(bindings[i], targetObject, transformPath);
            nb in ReboundCurves(bindings, curves, targetObject, transformPath)
            && ReboundCurves(bindings, curves, targetObject, transformPath)[nb] == curves[bindings[i]]
  {
    var writes := RebindWrites(bindings, curves, targetObject, transformPath);
    CurvesAfterLastWrite(map[], writes, i);
  }

  /** Every curve of the new clip is the curve of some source binding that was moved onto its binding. */
  lemma ReboundCurvesAreOriginal<G>(bindings: seq<EditorCurveBinding>, curves: map<EditorCurveBinding, AnimationCurve>,
                                    targetObject: G, transformPath: G -> string, nb: EditorCurveBinding)
    requires forall b :: b in bindings ==> b in curves
    requires nb in ReboundCurves(bindings, curves, targetObject, transformPath)
    ensures exists i :: 0 <= i < |bindings| && CreateNewBinding(bindings[i], targetObject, transformPath) == nb
                        && ReboundCurves(bindings, curves, targetObject, transformPath)[nb] == curves[bindings[i]]
  {
    var writes := RebindWrites(bindings, curves, targetObject, transformPath);
    var i := LastWriteTo(writes, nb);
    CurvesAfterLastWrite(map[], writes, i);
  }

  /**
   * Two curves of the same property on different objects collapse onto one
   * binding of the new clip, which keeps the curve listed last.
   */
  lemma CollisionExample<G>(targetObject: G, transformPath: G -> string, c1: AnimationCurve, c2: AnimationCurve)
    ensures var a := EditorCurveBinding("Hips/LeftLeg", "m_LocalPosition.x", "Transform");
            var b := EditorCurveBinding("Hips/RightLeg", "m_LocalPosition.x", "Transform");
            ReboundCurves([a, b], map[a := c1, b := c2], targetObject, transformPath)
            == map[EditorCurveBinding(transformPath(targetObject), "m_LocalPosition.x", "Transform") := c2]
  {
    var a := EditorCurveBinding("Hips/LeftLeg", "m_LocalPosition.x", "Transform");
    var b := EditorCurveBinding("Hips/RightLeg", "m_LocalPosition.x", "Transform");
    var nb := EditorCurveBinding(transformPath(targetObject), "m_LocalPosition.x", "Transform");
    var writes := RebindWrites([a, b], map[a := c1, b := c2], targetObject, transformPath);
    assert writes == [(nb, c1), (nb, c2)];
    assert writes[..1][..0] == [];
    assert CurvesAfter(map[], writes[..1]) == map[nb := c1];
    assert CurvesAfter(map[], writes) == map[nb := c1][nb := c2];
  }

  /**
   * The window's action. Without a source clip or a target it only warns
   * and creates nothing; otherwise it returns the new clip, named
   * `newClipName`, holding every source curve under its rebound binding,
   * ready to be saved.
   */
  method ModifyAnimationBindingsAndSaveNewClip<G>(originalClip: AnimationClip?, targetObject: Option<G>,
                                                  transformPath: G -> string, newClipName: string)
    returns (outcome: Outcome, newClip: AnimationClip?)
    requires originalClip != null ==> originalClip.Valid()
    ensures originalClip == null || targetObject.None? ==> outcome == Warned(MissingInputWarning) && newClip == null
    ensures originalClip != null && targetObject.Some? ==>
              && outcome == Saved(newClipName)
              && newClip != null && fresh(newClip) && newClip.Valid()
              && newClip.name == newClipName
              && newClip.curves == ReboundCurves(originalClip.bindings, originalClip.curves, targetObject.value, transformPath)
              && newClip.bindings == OrderAfter([], RebindWrites(originalClip.bindings, originalClip.curves, targetObject.value, transformPath))
  {
    if originalClip == null || targetObject.None? {
      outcome, newClip := Warned(MissingInputWarning), null;
      return;
    }
    var clip := new AnimationClip(newClipName);
    var newCurveBindings := RebindWrites(originalClip.bindings, originalClip.curves, targetObject.value, transformPath);
    for i := 0 to |newCurveBindings|
      invariant clip.Valid() && clip.name == newClipName
      invariant clip.curves == CurvesAfter(map[], newCurveBindings[..i])
      invariant clip.bindings == OrderAfter([], newCurveBindings[..i])
    {
      var item := newCurveBindings[i];
      clip.SetEditorCurve(item.0, item.1);
      assert newCurveBindings[..i + 1][..i] == newCurveBindings[..i];
    }
    assert newCurveBindings[..|newCurveBindings|] == newCurveBindings;
    outcome, newClip := Saved(newClipName), clip;
  }
}
