# Keyframe reducer and animation rebinder

This project models the sequential logic of two editor windows for a game
engine's animation clips. It also proves properties of that logic.

- **Keyframe reducer** (`KeyframeRe`). For every curve binding of a clip, the
  window picks one of four thresholds (position, rotation, scale, other) from
  the property name. It then runs a single forward pass over the curve's
  keyframes. A key is dropped when a key has already been retained and the
  new key's value lies strictly within the threshold of the *last retained*
  key. The reduced curve is stored under the identical binding in a new clip.
  Without a source clip, the window only warns.
- **Animation rebinder** (`Rebinding`). Each binding of a clip is mapped to
  a new binding. The new binding keeps the property name and component type.
  Its path is replaced by the target object's path from its hierarchy root.
  The original curve is stored under the new binding in a new clip, one write
  at a time in the engine's binding order. The path depends only on the
  target, so all curves land on one object's path. Curves of the same
  property and component type therefore collide, and the one listed last
  wins. Without a clip or a target, the window only warns.
- **Engine collaborator** (`AnimationClips`). A clip is a class holding its
  name, its binding order (what `GetCurveBindings` lists) and a map from
  binding to curve. `SetEditorCurve` is a map update: a binding new to the
  clip is appended to the order. `CurvesAfter` and `OrderAfter` give the
  state after a sequence of such writes.

Keyframe values, times, tangents and thresholds are `real`. `Mathf.Abs` is
real absolute value. `ToLower` lower-cases ASCII letters only. The engine's
`CalculateTransformPath(target.transform, target.transform.root)` is a
function parameter `transformPath` over an arbitrary target type, about
which nothing is assumed. A null clip is `AnimationClip?` and a null target
is `Option<G>.None`. The window's form fields (clip, thresholds, new clip
name, target) are parameters. The initial form values are the constants
`DefaultThresholds` and `DefaultNewClipName`.

The two top-level methods return an `Outcome`. A missing input gives
`Warned(message)`, no clip is created, and the method has no `modifies`
clause, so nothing is written. Otherwise they give `Saved(newClipName)` and
return the freshly created clip, whose contents are stated exactly. That
clip is what the engine would then persist.

## Model

| member | source | states |
|---|---|---|
| `KeyframeRe.ReduceKeyframes` | animations/KeyframeRe.cs:79-91 | the loop that tracks the last retained key returns exactly `Reduced(keys, threshold)`, the forward filter against the last retained key |
| `KeyframeRe.RetainedIff` | animations/KeyframeRe.cs:81-89 | key `i` is appended to the output iff no key was retained before it (exactly when `i == 0`), or it is at least `threshold` away in value from the last retained key; otherwise the output is unchanged |
| `KeyframeRe.ReduceFromSnoc` | animations/KeyframeRe.cs:82-89 | appending a key to the input appends it to the output exactly when it survives the most recently retained key |
| `KeyframeRe.ReducedIsSubsequence` | animations/KeyframeRe.cs:79-91 | the output is the input at strictly increasing positions, the first of them 0: nothing is reordered, duplicated or invented, and the first key is kept |
| `KeyframeRe.ReducedKeepsTimeOrder` | animations/KeyframeRe.cs:79-91 | a curve whose key times strictly increase still has strictly increasing times after reduction |
| `KeyframeRe.ReducedEdgeCases` | animations/KeyframeRe.cs:81-90 | output no longer than the input; empty output iff empty input; the first key is retained; a one-key curve is returned unchanged |
| `KeyframeRe.NonPositiveThresholdKeepsAll` | animations/KeyframeRe.cs:84 | with a threshold of zero or less, no key is dropped |
| `KeyframeRe.ReducedIsSpaced` | animations/KeyframeRe.cs:84-89 | any two consecutive retained keys differ in value by at least the threshold |
| `KeyframeRe.FixedPointIffSpaced` | animations/KeyframeRe.cs:84-89 | reduction leaves a curve unchanged iff its consecutive keys are already at least the threshold apart |
| `KeyframeRe.ReducedIdempotent` | animations/KeyframeRe.cs:84-89 | reducing a reduced curve again with the same threshold returns it unchanged |
| `KeyframeRe.ReductionExample` | animations/KeyframeRe.cs:84-89 | values 0, 0.02, 0.2, 0.21, 0.5 at threshold 0.1 keep the keys with values 0, 0.2 and 0.5 |
| `KeyframeRe.DriftExample` | animations/KeyframeRe.cs:84-88 | steps of 0.06 under threshold 0.1: the third key is 0.12 from the last retained key and survives, though only 0.06 from the previous input key |
| `KeyframeRe.Abs` | animations/KeyframeRe.cs:84 | the absolute value is non-negative and is `x` or `-x` |
| `KeyframeRe.LowerChar` | animations/KeyframeRe.cs:71 | an ASCII capital becomes its lower-case letter; every other character is unchanged; no capital remains |
| `KeyframeRe.ToLower` | animations/KeyframeRe.cs:71 | same length, each character lower-cased |
| `KeyframeRe.ContainsIff` | animations/KeyframeRe.cs:73-75 | the scanning substring test holds iff the word occurs at some index of the name |
| `KeyframeRe.ThresholdPriority` | animations/KeyframeRe.cs:71-77 | a name mentioning "position" (ignoring case) gets the position threshold; otherwise one mentioning "rotation" gets the rotation threshold; otherwise "scale" gets the scale threshold; a name mentioning none gets the other threshold |
| `KeyframeRe.ThresholdIgnoresCase` | animations/KeyframeRe.cs:71 | lower-casing the name beforehand does not change the threshold chosen |
| `KeyframeRe.PositionPropertyThreshold` | animations/KeyframeRe.cs:16-19 | `m_LocalPosition.x` gets the position threshold, 0.1 under the form's initial values |
| `KeyframeRe.PositionBeatsRotation` | animations/KeyframeRe.cs:73-74 | a name containing both "rotation" and "position" gets the position threshold |
| `KeyframeRe.RotationPropertyThreshold` | animations/KeyframeRe.cs:74 | `m_LocalRotation.w` gets the rotation threshold |
| `KeyframeRe.ScalePropertyThreshold` | animations/KeyframeRe.cs:75 | `m_LocalScale.z` gets the scale threshold |
| `KeyframeRe.EulerAnglesThreshold` | animations/KeyframeRe.cs:71-77 | the Euler rotation curve `localEulerAnglesRaw.y` mentions none of the words and gets the other threshold |
| `KeyframeRe.ReductionWritesCurves` | animations/KeyframeRe.cs:60-67 | writing the reduced curves of a clip's distinct bindings into an empty clip gives, under every identical binding and no other, the reduced form of that binding's own curve, with the threshold of its property name |
| `KeyframeRe.ReductionWritesOrder` | animations/KeyframeRe.cs:60-67 | the new clip lists the bindings in the source clip's order |
| `KeyframeRe.ReducedCurvesIdempotent` | animations/KeyframeRe.cs:60-67 | reducing the curves of a reduced clip again with the same thresholds changes nothing |
| `KeyframeRe.ReduceKeyframesForAllCurves` | animations/KeyframeRe.cs:58-69 | the loop leaves `newClip` valid and named as before, with exactly the curves and order produced by the writes (binding, reduced curve) in the source's binding order |
| `KeyframeRe.ReduceKeyframesAndSaveNewClip` | animations/KeyframeRe.cs:38-48 | with no clip: warning, no clip created; otherwise a fresh clip named `newClipName` whose curves are exactly the reduced source curves under the same bindings, in the same order |
| `Rebinding.CreateNewBinding` | animations/Rebinding.cs:57-65 | the new binding copies property name and component type; its path is the target's transform path |
| `Rebinding.NewBindingIgnoresPath` | animations/Rebinding.cs:61 | changing the original binding's path does not change the new binding |
| `Rebinding.NewBindingsCollideIff` | animations/Rebinding.cs:59-64 | two bindings are moved onto the same new binding iff they share property name and component type |
| `Rebinding.ReboundKeysAreImage` | animations/Rebinding.cs:41-52 | the new clip's bindings are exactly the images of the source bindings under `CreateNewBinding` |
| `Rebinding.ReboundOntoOnePath` | animations/Rebinding.cs:46-52 | every binding of the new clip has the target's path |
| `Rebinding.RebindLaterWins` | animations/Rebinding.cs:49-52 | a source binding that no later source binding collides with leaves its own curve, unmodified, under its new binding |
| `Rebinding.ReboundCurvesAreOriginal` | animations/Rebinding.cs:41-52 | every curve of the new clip is the unmodified curve of a source binding that was moved onto that binding |
| `Rebinding.CollisionExample` | animations/Rebinding.cs:49-52 | two `m_LocalPosition.x` curves on different paths collapse to one binding holding the second curve |
| `Rebinding.ModifyAnimationBindingsAndSaveNewClip` | animations/Rebinding.cs:31-55 | with no clip or no target: warning, no clip created; otherwise a fresh clip named `newClipName` holding exactly the state left by writing (new binding, original curve) for every source binding in order |
| `AnimationClips.AnimationClip.constructor` | animations/KeyframeRe.cs:46 | a new clip has the given name and no curves |
| `AnimationClips.AnimationClip.SetEditorCurve` | animations/KeyframeRe.cs:67 | storing a curve replaces the binding's curve, appends a binding new to the clip, and keeps the clip valid |
| `AnimationClips.CurvesAfterKeys` | animations/Rebinding.cs:49-52 | after a sequence of writes, the clip's bindings are its old ones plus those written |
| `AnimationClips.CurvesAfterLastWrite` | animations/Rebinding.cs:49-52 | a write that no later write to the same binding follows decides that binding's curve |
| `AnimationClips.LastWriteTo` | animations/Rebinding.cs:49-52 | every binding of a clip filled from empty was written, and there is a last write to it |
| `AnimationClips.CurvesAfterUntouched` | animations/Rebinding.cs:49-52 | a binding no write touches keeps its curve |
| `AnimationClips.OrderAfterMatchesCurves` | animations/KeyframeRe.cs:60-67 | after writes, the binding order is free of repeats and lists exactly the clip's bindings |
| `AnimationClips.OrderAfterFresh` | animations/KeyframeRe.cs:60-67 | writes to distinct, new bindings list them in the order written |

## Left out

- The editor windows themselves (`EditorWindow`, `OnGUI`, `[MenuItem]`, `Init`, the form widgets) are UI plumbing. The form fields are parameters of the two top-level methods.
- Saving is not modelled: `AssetDatabase.GetAssetPath`, `CreateAsset`, `SaveAssets`, and the output path built with `System.IO.Path.Combine`/`GetDirectoryName`. These are foreign asset I/O. The model returns the clip that would be saved and the `Saved` outcome.
- `Debug.Log`/`Debug.LogWarning` are represented only by the returned `Outcome` and its message.
- ReduceKeyframes: does not model IEEE single-precision rounding or NaN. Values and thresholds are `real`. Under floats a NaN value compares false, so its key would always be kept.
- ToLower: does not model culture-specific lower-casing (e.g., the Turkish dotted/dotless i). Only ASCII capitals are lowered.
- `CalculateTransformPath` and the transform hierarchy are not modelled. The path is an uninterpreted function parameter of the target.
- The engine's own order of `GetCurveBindings` is taken as the clip's `bindings` field. `SetEditorCurve` is assumed to append a binding new to the clip at the end. The engine may list bindings in another order. Nothing in either window depends on that order, except which write comes last.
- Laziness of the C# iterator (`yield return`) and of the LINQ `Select` is not modelled. Both are materialised as sequences. The source clip is never modified while they are consumed, so the results are the same.
- `AnimationCurve` is represented by its key sequence. `new AnimationCurve(keys)` is assumed to store the keys as given. Curves are values, so "the same curve object" in the rebinder is modelled as the same key sequence.
- `GetEditorCurve` returning null for a binding the clip does not hold cannot happen in the model, because both windows only ask for bindings the clip lists. `SetEditorCurve` with a null curve (which removes a binding) is never called by either window.
