/**
 * The part of the engine's animation API that both editor windows use:
 * keyframes, curves, curve bindings and animation clips. A clip is a map
 * from binding to curve together with the order in which the engine lists
 * its bindings; writing a curve under a binding is a map update.
 */
module AnimationClips {

  datatype Option<T> = None | Some(value: T)

  /** A time/value sample; time and tangents ride along untouched. */
  datatype Keyframe = Keyframe(time: real, value: real, inTangent: real, outTangent: real)

  /** An animation curve is represented by its keys, in time order. */
  type AnimationCurve = seq<Keyframe>

  /**
   * What a curve animates: the hierarchy path of the object, the component
   * type (the engine's `type` field) and the animated property.
   */
  datatype EditorCurveBinding = EditorCurveBinding(path: string, propertyName: string, componentType: string)

  /** One call of SetEditorCurve: the binding and the curve stored under it. */
  type CurveWrite = (EditorCurveBinding, AnimationCurve)

  /** What a menu command reports: a warning and no write, or the name of the saved clip. */
  datatype Outcome = Warned(message: string) | Saved(clipName: string)

  predicate Distinct<T(==)>(s: seq<T>)
  {
    forall i, j :: 0 <= i < j < |s| ==> s[i] != s[j]
  }

  /** The curves of a clip after the given writes were made to it, one after the other. */
  function CurvesAfter(curves: map<EditorCurveBinding, AnimationCurve>, writes: seq<CurveWrite>): map<EditorCurveBinding, AnimationCurve>
  {
    if writes == [] then curves
    else
      var w := writes[|writes| - 1];
      CurvesAfter(curves, writes[..|writes| - 1])[w.0 := w.1]
  }

  /** The binding order of a clip after the given writes: a binding new to the clip goes last. */
  function OrderAfter(order: seq<EditorCurveBinding>, writes: seq<CurveWrite>): seq<EditorCurveBinding>
  {
    if writes == [] then order
    else
      var before := OrderAfter(order, writes[..|writes| - 1]);
      var b := writes[|writes| - 1].0;
      if b in before then before else before + [b]
  }

  /** The clip holds exactly the bindings of the old clip and those written. */
  lemma {:induction false} CurvesAfterKeys(curves: map<EditorCurveBinding, AnimationCurve>, writes: seq<CurveWrite>)
    ensures CurvesAfter(curves, writes).Keys == curves.Keys + set w | w in writes :: w.0
  {
    if writes != [] {
      var front := writes[..|writes| - 1];
      CurvesAfterKeys(curves, front);
      assert writes == front + [writes[|writes| - 1]];
      assert (set w | w in writes :: w.0) == (set w | w in front :: w.0) + {writes[|writes| - 1].0};
    }
  }

  /** A write that no later write to the same binding follows decides that binding's curve. */
  lemma {:induction false} CurvesAfterLastWrite(curves: map<EditorCurveBinding, AnimationCurve>, writes: seq<CurveWrite>, i: nat)
    requires i < |writes|
    requires forall j :: i < j < |writes| ==> writes[j].0 != writes[i].0
    ensures writes[i].0 in CurvesAfter(curves, writes)
    ensures CurvesAfter(curves, writes)[writes[i].0] == writes[i].1
  {
    var front := writes[..|writes| - 1];
    if i < |writes| - 1 {
      forall j | i < j < |front| ensures front[j].0 != front[i].0 {
        assert front[j] == writes[j];
      }
      CurvesAfterLastWrite(curves, front, i);
    }
  }

  /** The position of the last write to `b`, which some write must touch for `b` to be in the result. */
  lemma {:induction false} LastWriteTo(writes: seq<CurveWrite>, b: EditorCurveBinding) returns (i: nat)
    requires b in CurvesAfter(map[], writes)
    ensures i < |writes| && writes[i].0 == b
    ensures forall j :: i < j < |writes| ==> writes[j].0 != b
  {
    var n := |writes| - 1;
    if writes[n].0 == b {
      i := n;
    } else {
      i := LastWriteTo(writes[..n], b);
    }
  }

  /** A binding no write touches keeps the curve it had. */
  lemma {:induction false} CurvesAfterUntouched(curves: map<EditorCurveBinding, AnimationCurve>, writes: seq<CurveWrite>, b: EditorCurveBinding)
    requires b in curves
    requires forall j :: 0 <= j < |writes| ==> writes[j].0 != b
    ensures b in CurvesAfter(curves, writes) && CurvesAfter(curves, writes)[b] == curves[b]
  {
    if writes != [] {
      var front := writes[..|writes| - 1];
      forall j | 0 <= j < |front| ensures front[j].0 != b {
        assert front[j] == writes[j];
      }
      CurvesAfterUntouched(curves, front, b);
    }
  }

  /** The binding order stays free of repetitions and lists exactly the clip's bindings. */
  lemma {:induction false} OrderAfterMatchesCurves(order: seq<EditorCurveBinding>, curves: map<EditorCurveBinding, AnimationCurve>, writes: seq<CurveWrite>)
    requires Distinct(order)
    requires forall b :: b in curves <==> b in order
    ensures Distinct(OrderAfter(order, writes))
    ensures forall b :: b in CurvesAfter(curves, writes) <==> b in OrderAfter(order, writes)
  {
    if writes != [] {
      OrderAfterMatchesCurves(order, curves, writes[..|writes| - 1]);
    }
  }

  /** Writes to distinct bindings that are all new to the clip list them in the order written. */
  lemma {:induction false} OrderAfterFresh(order: seq<EditorCurveBinding>, writes: seq<CurveWrite>)
    requires forall i, j :: 0 <= i < j < |writes| ==> writes[i].0 != writes[j].0
    requires forall i :: 0 <= i < |writes| ==> writes[i].0 !in order
    ensures OrderAfter(order, writes) == order + seq(|writes|, i requires 0 <= i < |writes| => writes[i].0)
  {
    if writes != [] {
      var n := |writes| - 1;
      var front := writes[..n];
      OrderAfterFresh(order, front);
      var keys := seq(n, i requires 0 <= i < n => front[i].0);
      assert writes[n].0 !in keys;
      assert seq(|writes|, i requires 0 <= i < |writes| => writes[i].0) == keys + [writes[n].0];
    }
  }

  class AnimationClip {
    var name: string
    /** The bindings in the order the engine's GetCurveBindings lists them. */
    var bindings: seq<EditorCurveBinding>
    var curves: map<EditorCurveBinding, AnimationCurve>

    ghost predicate Valid()
      reads this
    {
      Distinct(bindings) && forall b :: b in curves <==> b in bindings
    }

    /** A new, empty clip with the given name. */
    constructor (name: string)
      ensures Valid()
      ensures this.name == name && bindings == [] && curves == map[]
    {
      this.name := name;
      bindings := [];
      curves := map[];
    }

    /** The curve stored under one of the clip's bindings. */
    function GetEditorCurve(binding: EditorCurveBinding): AnimationCurve
      reads this
      requires binding in curves
    {
      curves[binding]
    }

    /** Stores `curve` under `binding`, replacing any curve stored there before. */
    method SetEditorCurve(binding: EditorCurveBinding, curve: AnimationCurve)
      requires Valid()
      modifies this
      ensures Valid()
      ensures name == old(name)
      ensures curves == old(curves)[binding := curve]
      ensures bindings == if binding in old(bindings) then old(bindings) else old(bindings) + [binding]
    {
      if binding !in bindings {
        bindings := bindings + [binding];
      }
      curves := curves[binding := curve];
    }
  }
}
