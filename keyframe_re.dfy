/**
 * The keyframe reducer window: drops every keyframe whose value lies
 * within a per-property threshold of the last keyframe it kept, and writes
 * the reduced curves under the same bindings into a new clip.
 */
module KeyframeRe {
  import opened AnimationClips

  /** The four thresholds of the window's form. */
  datatype Thresholds = Thresholds(position: real, rotation: real, scale: real, other: real)

  /** The form's initial values. */
  const DefaultThresholds := Thresholds(0.1, 0.01, 0.1, 0.01)
  const DefaultNewClipName := "OptimizedAnimation"
  const NoClipWarning := "No animation clip selected."

  function Abs(x: real): (r: real)
    ensures r >= 0.0 && (r == x || r == -x)
  {
    if x < 0.0 then -x else x
  }

  // ---------------------------------------------------------------------
  // Choosing a threshold from the property name

  /** ASCII lower-casing of one character. */
  function LowerChar(c: char): (d: char)
    ensures !('A' <= d <= 'Z')
    ensures 'A' <= c <= 'Z' ==> d as int == c as int + 32
    ensures !('A' <= c <= 'Z') ==> d == c
  {
    if 'A' <= c <= 'Z' then (c as int + 32) as char else c
  }

  function ToLower(s: string): (r: string)
    ensures |r| == |s|
    ensures forall i :: 0 <= i < |s| ==> r[i] == LowerChar(s[i])
  {
    seq(|s|, i requires 0 <= i < |s| => LowerChar(s[i]))
  }

  /** `word` occurs in `s` starting at index `i`. */
  predicate OccursAt(s: string, word: string, i: int)
  {
    0 <= i && i + |word| <= |s| && s[i..i + |word|] == word
  }

  /** Substring test, scanning left to right. */
  function Contains(s: string, word: string): bool
    decreases |s|
  {
    if |s| < |word| then false
    else s[..|word|] == word || Contains(s[1..], word)
  }

  lemma {:induction false} ContainsIff(s: string, word: string)
    ensures Contains(s, word) <==> exists i :: OccursAt(s, word, i)
    decreases |s|
  {
    if |s| < |word| {
      if i :| OccursAt(s, word, i) {
        assert false;
      }
    } else if s[..|word|] == word {
      assert OccursAt(s, word, 0);
    } else {
      ContainsIff(s[1..], word);
      if Contains(s[1..], word) {
        var i :| OccursAt(s[1..], word, i);
        assert s[i + 1..i + 1 + |word|] == s[1..][i..i + |word|];
        assert OccursAt(s, word, i + 1);
      }
      if i :| OccursAt(s, word, i) {
        assert i > 0;
        assert s[1..][i - 1..i - 1 + |word|] == s[i..i + |word|];
        assert OccursAt(s[1..], word, i - 1);
      }
    }
  }

  /** The property name mentions `word` when compared case-insensitively. */
  ghost predicate Mentions(propertyName: string, word: string)
  {
    exists i :: OccursAt(ToLower(propertyName), word, i)
  }

  /** The threshold for a binding's property, chosen from its lower-cased name. */
  function GetThresholdForProperty(th: Thresholds, propertyName: string): real
  {
    var p := ToLower(propertyName);
    if Contains(p, "position") then th.position
    else if Contains(p, "rotation") then th.rotation
    else if Contains(p, "scale") then th.scale
    else th.other
  }

  /**
   * "position" wins over "rotation", which wins over "scale", all compared
   * case-insensitively; a name mentioning none of them gets the "other"
   * threshold.
   */
  lemma ThresholdPriority(th: Thresholds, propertyName: string)
    ensures var r := GetThresholdForProperty(th, propertyName);
            && (Mentions(propertyName, "position") ==> r == th.position)
            && (!Mentions(propertyName, "position") && Mentions(propertyName, "rotation") ==> r == th.rotation)
            && ((!Mentions(propertyName, "position") && !Mentions(propertyName, "rotation")
                 && Mentions(propertyName, "scale")) ==> r == th.scale)
            && ((!Mentions(propertyName, "position") && !Mentions(propertyName, "rotation")
                 && !Mentions(propertyName, "scale")) ==> r == th.other)
  {
    var p := ToLower(propertyName);
    ContainsIff(p, "position");
    ContainsIff(p, "rotation");
    ContainsIff(p, "scale");
  }

  lemma ToLowerIdempotent(s: string)
    ensures ToLower(ToLower(s)) == ToLower(s)
  {
  }

  /** Lower-casing the name first does not change its threshold: the match ignores case. */
  lemma ThresholdIgnoresCase(th: Thresholds, propertyName: string)
    ensures GetThresholdForProperty(th, ToLower(propertyName)) == GetThresholdForProperty(th, propertyName)
  {
    ToLowerIdempotent(propertyName);
  }

  /** A word whose first two characters never stand side by side in `s` does not occur in it. */
  lemma {:induction false} NoOccurrence(s: string, word: string)
    requires |word| >= 2
    requires forall j :: 0 <= j < |s| - 1 ==> !(s[j] == word[0] && s[j + 1] == word[1])
    ensures forall i :: !OccursAt(s, word, i)
  {
    forall i ensures !OccursAt(s, word, i) {
      if 0 <= i && i + |word| <= |s| {
        var w := s[i..i + |word|];
        assert w[0] == s[i] && w[1] == s[i + 1];
      }
    }
  }

  /** The threshold values the examples below use: one distinct value per bucket. */
  const ExampleThresholds := Thresholds(1.0, 2.0, 3.0, 4.0)

  lemma PositionPropertyThreshold()
    ensures GetThresholdForProperty(ExampleThresholds, "m_LocalPosition.x") == 1.0
    ensures GetThresholdForProperty(DefaultThresholds, "m_LocalPosition.x") == 0.1
  {
    var name := "m_LocalPosition.x";
    assert Mentions(name, "position") by {
      var p := ToLower(name);
      assert p == "m_localposition.x";
      assert OccursAt(p, "position", 7);
    }
    ThresholdPriority(ExampleThresholds, name);
    ThresholdPriority(DefaultThresholds, name);
  }

  /** A name that mentions both rotation and position takes the position threshold. */
  lemma PositionBeatsRotation()
    ensures GetThresholdForProperty(ExampleThresholds, "RotationPosition") == 1.0
  {
    var name := "RotationPosition";
    assert Mentions(name, "position") by {
      var p := ToLower(name);
      assert p == "rotationposition";
      assert OccursAt(p, "position", 8);
    }
    ThresholdPriority(ExampleThresholds, name);
  }

  lemma RotationPropertyThreshold()
    ensures GetThresholdForProperty(ExampleThresholds, "m_LocalRotation.w") == 2.0
  {
    var name := "m_LocalRotation.w";
    assert !Mentions(name, "position") && Mentions(name, "rotation") by {
      var p := ToLower(name);
      assert p == "m_localrotation.w";
      NoOccurrence(p, "position");
      assert OccursAt(p, "rotation", 7);
    }
    ThresholdPriority(ExampleThresholds, name);
  }

  lemma ScalePropertyThreshold()
    ensures GetThresholdForProperty(ExampleThresholds, "m_LocalScale.z") == 3.0
  {
    var name := "m_LocalScale.z";
    assert !Mentions(name, "position") && !Mentions(name, "rotation") && Mentions(name, "scale") by {
      var p := ToLower(name);
      assert p == "m_localscale.z";
      NoOccurrence(p, "position");
      NoOccurrence(p, "rotation");
      assert OccursAt(p, "scale", 7);
    }
    ThresholdPriority(ExampleThresholds, name);
  }

  /**
   * The engine's Euler-angle rotation curves fall through to "other",
   * since their property name does not contain "rotation".
   */
  lemma EulerAnglesThreshold()
    ensures GetThresholdForProperty(ExampleThresholds, "localEulerAnglesRaw.y") == 4.0
  {
    var name := "localEulerAnglesRaw.y";
    assert !Mentions(name, "position") && !Mentions(name, "rotation") && !Mentions(name, "scale") by {
      var p := ToLower(name);
      assert p == "localeuleranglesraw.y";
      NoOccurrence(p, "position");
      NoOccurrence(p, "rotation");
      NoOccurrence(p, "scale");
    }
    ThresholdPriority(ExampleThresholds, name);
  }

  // ---------------------------------------------------------------------
  // Reducing one curve

  /**
   * Whether `key` survives: it is dropped exactly when a key was retained
   * before it and its value lies strictly within `threshold` of that key's.
   */
  predicate Keeps(lastKey: Option<Keyframe>, key: Keyframe, threshold: real)
  {
    !(lastKey.Some? && Abs(key.value - lastKey.value.value) < threshold)
  }

  /** The keys of `keys` that survive, when `lastKey` is the key retained before them. */
  function ReduceFrom(lastKey: Option<Keyframe>, keys: seq<Keyframe>, threshold: real): seq<Keyframe>
    decreases |keys|
  {
    if keys == [] then []
    else if Keeps(lastKey, keys[0], threshold) then [keys[0]] + ReduceFrom(Some(keys[0]), keys[1..], threshold)
    else ReduceFrom(lastKey, keys[1..], threshold)
  }

  /** The reduced curve: the forward filter started with no retained key. */
  function Reduced(keys: seq<Keyframe>, threshold: real): seq<Keyframe>
  {
    ReduceFrom(None, keys, threshold)
  }

  /** The most recently retained key after `kept` was emitted following `lastKey`. */
  function LastRetained(lastKey: Option<Keyframe>, kept: seq<Keyframe>): Option<Keyframe>
  {
    if kept == [] then lastKey else Some(kept[|kept| - 1])
  }

  /** The single forward pass over a curve's keys, remembering the last key it kept. */
  method ReduceKeyframes(keys: seq<Keyframe>, threshold: real) returns (kept: seq<Keyframe>)
    ensures kept == Reduced(keys, threshold)
  {
    var lastKey: Option<Keyframe> := None;
    kept := [];
    for i := 0 to |keys|
      invariant kept + ReduceFrom(lastKey, keys[i..], threshold) == Reduced(keys, threshold)
    {
      var key := keys[i];
      assert keys[i..] == [key] + keys[i + 1..];
      if lastKey.Some? && Abs(key.value - lastKey.value.value) < threshold {
        continue;
      }
      lastKey := Some(key);
      kept := kept + [key];
    }
  }

  /** Appending a key to the input appends it to the output exactly when it survives the last retained key. */
  lemma {:induction false} ReduceFromSnoc(lastKey: Option<Keyframe>, keys: seq<Keyframe>, key: Keyframe, threshold: real)
    ensures ReduceFrom(lastKey, keys + [key], threshold)
            == ReduceFrom(lastKey, keys, threshold)
               + (if Keeps(LastRetained(lastKey, ReduceFrom(lastKey, keys, threshold)), key, threshold) then [key] else [])
    decreases |keys|
  {
    if keys == [] {
      assert keys + [key] == [key];
    } else {
      assert (keys + [key])[0] == keys[0];
      assert (keys + [key])[1..] == keys[1..] + [key];
      if Keeps(lastKey, keys[0], threshold) {
        ReduceFromSnoc(Some(keys[0]), keys[1..], key, threshold);
      } else {
        ReduceFromSnoc(lastKey, keys[1..], key, threshold);
      }
    }
  }

  /**
   * Key `i` is retained iff no key was retained before it (it is the first
   * key) or its value differs by at least `threshold` from the last key
   * RETAINED before it.
   */
  lemma RetainedIff(keys: seq<Keyframe>, i: nat, threshold: real)
    requires i < |keys|
    ensures Reduced(keys[..i], threshold) == [] <==> i == 0
    ensures var before := Reduced(keys[..i], threshold);
            Reduced(keys[..i + 1], threshold)
            == if before == [] || Abs(keys[i].value - before[|before| - 1].value) >= threshold
               then before + [keys[i]]
               else before
  {
    assert keys[..i + 1] == keys[..i] + [keys[i]];
    ReduceFromSnoc(None, keys[..i], keys[i], threshold);
    if i > 0 {
      assert keys[..i] == [keys[0]] + keys[1..i];
    }
  }

  /** `sub` is `s` at the strictly increasing positions `idx`. */
  ghost predicate SubsequenceAt(sub: seq<Keyframe>, s: seq<Keyframe>, idx: seq<int>)
  {
    && |idx| == |sub|
    && (forall j :: 0 <= j < |idx| ==> 0 <= idx[j] < |s| && sub[j] == s[idx[j]])
    && (forall j, k :: 0 <= j < k < |idx| ==> idx[j] < idx[k])
  }

  /** Positions into `s[1..]` moved one to the right are positions into `s`. */
  function Shifted(idx: seq<int>): (r: seq<int>)
    ensures |r| == |idx| && forall j :: 0 <= j < |idx| ==> r[j] == idx[j] + 1
  {
    seq(|idx|, j requires 0 <= j < |idx| => idx[j] + 1)
  }

  lemma SubsequenceOfTail(sub: seq<Keyframe>, s: seq<Keyframe>, idx: seq<int>)
    requires s != [] && SubsequenceAt(sub, s[1..], idx)
    ensures SubsequenceAt(sub, s, Shifted(idx))
    ensures SubsequenceAt([s[0]] + sub, s, [0] + Shifted(idx))
  {
    var sh := Shifted(idx);
    forall j | 0 <= j < |sh| ensures 0 <= sh[j] < |s| && sub[j] == s[sh[j]] {
      assert s[1..][idx[j]] == s[idx[j] + 1];
    }
    var sub' := [s[0]] + sub;
    var idx' := [0] + sh;
    forall j | 0 <= j < |idx'| ensures 0 <= idx'[j] < |s| && sub'[j] == s[idx'[j]] {
      if j > 0 {
        assert sub'[j] == sub[j - 1] && idx'[j] == sh[j - 1];
      }
    }
  }

  lemma {:induction false} ReduceFromSubsequence(lastKey: Option<Keyframe>, keys: seq<Keyframe>, threshold: real)
    returns (idx: seq<int>)
    ensures SubsequenceAt(ReduceFrom(lastKey, keys, threshold), keys, idx)
    ensures keys != [] && Keeps(lastKey, keys[0], threshold) ==> idx != [] && idx[0] == 0
    decreases |keys|
  {
    if keys == [] {
      idx := [];
    } else if Keeps(lastKey, keys[0], threshold) {
      var rest := ReduceFromSubsequence(Some(keys[0]), keys[1..], threshold);
      SubsequenceOfTail(ReduceFrom(Some(keys[0]), keys[1..], threshold), keys, rest);
      idx := [0] + Shifted(rest);
    } else {
      var rest := ReduceFromSubsequence(lastKey, keys[1..], threshold);
      SubsequenceOfTail(ReduceFrom(lastKey, keys[1..], threshold), keys, rest);
      idx := Shifted(rest);
    }
  }

  /**
   * The reduced curve is the input at strictly increasing positions, the
   * first of them 0: nothing is reordered, repeated or invented, and the
   * first key is always retained.
   */
  lemma ReducedIsSubsequence(keys: seq<Keyframe>, threshold: real) returns (idx: seq<int>)
    ensures SubsequenceAt(Reduced(keys, threshold), keys, idx)
    ensures keys != [] ==> idx != [] && idx[0] == 0
  {
    idx := ReduceFromSubsequence(None, keys, threshold);
  }

  /** Keys whose times strictly increase. */
  predicate TimeOrdered(keys: seq<Keyframe>)
  {
    forall i, j :: 0 <= i < j < |keys| ==> keys[i].time < keys[j].time
  }

  /** A curve in time order stays in time order after reduction. */
  lemma ReducedKeepsTimeOrder(keys: seq<Keyframe>, threshold: real)
    requires TimeOrdered(keys)
    ensures TimeOrdered(Reduced(keys, threshold))
  {
    var idx := ReducedIsSubsequence(keys, threshold);
    var r := Reduced(keys, threshold);
    forall i, j | 0 <= i < j < |r| ensures r[i].time < r[j].time {
      assert r[i] == keys[idx[i]] && r[j] == keys[idx[j]] && idx[i] < idx[j];
    }
  }

  lemma {:induction false} ReduceFromShorter(lastKey: Option<Keyframe>, keys: seq<Keyframe>, threshold: real)
    ensures |ReduceFrom(lastKey, keys, threshold)| <= |keys|
    decreases |keys|
  {
    if keys != [] {
      ReduceFromShorter(Some(keys[0]), keys[1..], threshold);
      ReduceFromShorter(lastKey, keys[1..], threshold);
    }
  }

  /** The edge cases: no keys in, no keys out; one key passes unchanged; the output is never longer. */
  lemma ReducedEdgeCases(keys: seq<Keyframe>, threshold: real)
    ensures |Reduced(keys, threshold)| <= |keys|
    ensures Reduced(keys, threshold) == [] <==> keys == []
    ensures keys != [] ==> Reduced(keys, threshold)[0] == keys[0]
    ensures |keys| == 1 ==> Reduced(keys, threshold) == keys
  {
    ReduceFromShorter(None, keys, threshold);
    if |keys| == 1 {
      assert keys[1..] == [];
    }
  }

  lemma {:induction false} ReduceFromNonPositive(lastKey: Option<Keyframe>, keys: seq<Keyframe>, threshold: real)
    requires threshold <= 0.0
    ensures ReduceFrom(lastKey, keys, threshold) == keys
    decreases |keys|
  {
    if keys != [] {
      ReduceFromNonPositive(Some(keys[0]), keys[1..], threshold);
    }
  }

  /** With a threshold of zero or less, nothing is dropped. */
  lemma NonPositiveThresholdKeepsAll(keys: seq<Keyframe>, threshold: real)
    requires threshold <= 0.0
    ensures Reduced(keys, threshold) == keys
  {
    ReduceFromNonPositive(None, keys, threshold);
  }

  /** Consecutive keys differ in value by at least `threshold`. */
  predicate Spaced(keys: seq<Keyframe>, threshold: real)
  {
    forall i :: 0 < i < |keys| ==> Abs(keys[i].value - keys[i - 1].value) >= threshold
  }

  lemma {:induction false} ReduceFromSpaced(lastKey: Option<Keyframe>, keys: seq<Keyframe>, threshold: real)
    ensures var r := ReduceFrom(lastKey, keys, threshold);
            Spaced(r, threshold) && (r != [] ==> Keeps(lastKey, r[0], threshold))
    decreases |keys|
  {
    if keys != [] {
      ReduceFromSpaced(Some(keys[0]), keys[1..], threshold);
      ReduceFromSpaced(lastKey, keys[1..], threshold);
    }
  }

  lemma {:induction false} ReduceFromOfSpaced(lastKey: Option<Keyframe>, keys: seq<Keyframe>, threshold: real)
    requires Spaced(keys, threshold)
    requires keys != [] ==> Keeps(lastKey, keys[0], threshold)
    ensures ReduceFrom(lastKey, keys, threshold) == keys
    decreases |keys|
  {
    if keys != [] {
      var rest := keys[1..];
      assert Spaced(rest, threshold) by {
        forall i | 0 < i < |rest| ensures Abs(rest[i].value - rest[i - 1].value) >= threshold {
          assert rest[i] == keys[i + 1] && rest[i - 1] == keys[i];
        }
      }
      if rest != [] {
        assert rest[0] == keys[1];
      }
      ReduceFromOfSpaced(Some(keys[0]), rest, threshold);
    }
  }

  /** Any two consecutive retained keys differ in value by at least the threshold. */
  lemma ReducedIsSpaced(keys: seq<Keyframe>, threshold: real)
    ensures Spaced(Reduced(keys, threshold), threshold)
  {
    ReduceFromSpaced(None, keys, threshold);
  }

  /** A curve is left unchanged by reduction exactly when its keys are already spaced. */
  lemma FixedPointIffSpaced(keys: seq<Keyframe>, threshold: real)
    ensures Reduced(keys, threshold) == keys <==> Spaced(keys, threshold)
  {
    ReduceFromSpaced(None, keys, threshold);
    if Spaced(keys, threshold) {
      ReduceFromOfSpaced(None, keys, threshold);
    }
  }

  /** Reducing a reduced curve again with the same threshold changes nothing. */
  lemma ReducedIdempotent(keys: seq<Keyframe>, threshold: real)
    ensures Reduced(Reduced(keys, threshold), threshold) == Reduced(keys, threshold)
  {
    ReducedIsSpaced(keys, threshold);
    FixedPointIffSpaced(Reduced(keys, threshold), threshold);
  }

  /** A key with the given time and value and flat tangents. */
  function Key(time: real, value: real): Keyframe
  {
    Keyframe(time, value, 0.0, 0.0)
  }

  /** Values 0, 0.02, 0.2, 0.21, 0.5 at threshold 0.1 keep 0, 0.2 and 0.5. */
  lemma ReductionExample()
    ensures Reduced([Key(0.0, 0.0), Key(1.0, 0.02), Key(2.0, 0.2), Key(3.0, 0.21), Key(4.0, 0.5)], 0.1)
            == [Key(0.0, 0.0), Key(2.0, 0.2), Key(4.0, 0.5)]
  {
    var keys := [Key(0.0, 0.0), Key(1.0, 0.02), Key(2.0, 0.2), Key(3.0, 0.21), Key(4.0, 0.5)];
    assert ReduceFrom(Some(keys[4]), keys[5..], 0.1) == [];
    assert ReduceFrom(Some(keys[2]), keys[4..], 0.1) == [keys[4]];
    assert ReduceFrom(Some(keys[2]), keys[3..], 0.1) == [keys[4]];
    assert ReduceFrom(Some(keys[0]), keys[2..], 0.1) == [keys[2], keys[4]];
    assert ReduceFrom(Some(keys[0]), keys[1..], 0.1) == [keys[2], keys[4]];
  }

  /**
   * A slow drift is not lost: each step of 0.06 is below the threshold 0.1,
   * but the third key is 0.12 away from the last RETAINED key and survives.
   */
  lemma DriftExample()
    ensures Reduced([Key(0.0, 0.0), Key(1.0, 0.06), Key(2.0, 0.12)], 0.1) == [Key(0.0, 0.0), Key(2.0, 0.12)]
  {
    var keys := [Key(0.0, 0.0), Key(1.0, 0.06), Key(2.0, 0.12)];
    assert ReduceFrom(Some(keys[2]), keys[3..], 0.1) == [];
    assert ReduceFrom(Some(keys[0]), keys[2..], 0.1) == [keys[2]];
    assert ReduceFrom(Some(keys[0]), keys[1..], 0.1) == [keys[2]];
  }

  // ---------------------------------------------------------------------
  // Reducing every curve of a clip

  /** What a clip's curves become: each binding keeps its place and gets its own curve reduced. */
  ghost function ReducedCurves(curves: map<EditorCurveBinding, AnimationCurve>, th: Thresholds): map<EditorCurveBinding, AnimationCurve>
  {
    map b | b in curves :: Reduced(curves[b], GetThresholdForProperty(th, b.propertyName))
  }

  /** The SetEditorCurve calls the reduction makes, in the order of the source clip's bindings. */
  function ReductionWrites(bindings: seq<EditorCurveBinding>, curves: map<EditorCurveBinding, AnimationCurve>, th: Thresholds): (writes: seq<CurveWrite>)
    requires forall b :: b in bindings ==> b in curves
  {
    seq(|bindings|, i requires 0 <= i < |bindings| =>
      (bindings[i], Reduced(curves[bindings[i]], GetThresholdForProperty(th, bindings[i].propertyName))))
  }

  /** The reduction writes exactly the bindings given, each once, in their order. */
  lemma ReductionWritesBindings(bindings: seq<EditorCurveBinding>, curves: map<EditorCurveBinding, AnimationCurve>, th: Thresholds)
    requires forall b :: b in bindings ==> b in curves
    ensures var writes := ReductionWrites(bindings, curves, th);
            (set w | w in writes :: w.0) == set b | b in bindings
  {
    var writes := ReductionWrites(bindings, curves, th);
    forall b | b in bindings ensures b in set w | w in writes :: w.0 {
      var i :| 0 <= i < |bindings| && bindings[i] == b;
      assert writes[i] in writes;
    }
  }

  /**
   * Writing the reduced curves of a clip's distinct bindings into an empty
   * clip gives exactly the reduced clip.
   */
  lemma ReductionWritesCurves(bindings: seq<EditorCurveBinding>, curves: map<EditorCurveBinding, AnimationCurve>, th: Thresholds)
    requires Distinct(bindings)
    requires forall b :: b in curves <==> b in bindings
    ensures CurvesAfter(map[], ReductionWrites(bindings, curves, th)) == ReducedCurves(curves, th)
  {
    var writes := ReductionWrites(bindings, curves, th);
    var result := CurvesAfter(map[], writes);
    CurvesAfterKeys(map[], writes);
    ReductionWritesBindings(bindings, curves, th);
    assert result.Keys == curves.Keys;
    forall b | b in curves ensures result[b] == ReducedCurves(curves, th)[b] {
      var i :| 0 <= i < |bindings| && bindings[i] == b;
      CurvesAfterLastWrite(map[], writes, i);
    }
  }

  /** ... and lists the bindings in the source clip's order. */
  lemma ReductionWritesOrder(bindings: seq<EditorCurveBinding>, curves: map<EditorCurveBinding, AnimationCurve>, th: Thresholds)
    requires Distinct(bindings)
    requires forall b :: b in bindings ==> b in curves
    ensures OrderAfter([], ReductionWrites(bindings, curves, th)) == bindings
  {
    var writes := ReductionWrites(bindings, curves, th);
    OrderAfterFresh([], writes);
    assert seq(|writes|, i requires 0 <= i < |writes| => writes[i].0) == bindings;
  }

  /** Reducing the curves of an already reduced clip with the same thresholds changes nothing. */
  lemma ReducedCurvesIdempotent(curves: map<EditorCurveBinding, AnimationCurve>, th: Thresholds)
    ensures ReducedCurves(ReducedCurves(curves, th), th) == ReducedCurves(curves, th)
  {
    forall b | b in curves
      ensures ReducedCurves(ReducedCurves(curves, th), th)[b] == ReducedCurves(curves, th)[b]
    {
      ReducedIdempotent(curves[b], GetThresholdForProperty(th, b.propertyName));
    }
  }

  /**
   * For every binding of the source clip, in the engine's order, reduces its
   * curve with the threshold of its property and stores the result under the
   * identical binding in `newClip`.
   */
  method ReduceKeyframesForAllCurves(originalClip: AnimationClip, newClip: AnimationClip, th: Thresholds)
    requires originalClip.Valid() && newClip.Valid()
    requires originalClip != newClip
    modifies newClip
    ensures newClip.Valid() && newClip.name == old(newClip.name)
    ensures newClip.curves == CurvesAfter(old(newClip.curves), ReductionWrites(originalClip.bindings, originalClip.curves, th))
    ensures newClip.bindings == OrderAfter(old(newClip.bindings), ReductionWrites(originalClip.bindings, originalClip.curves, th))
  {
    var curveBindings := originalClip.bindings;
    ghost var writes := ReductionWrites(curveBindings, originalClip.curves, th);
    for i := 0 to |curveBindings|
      invariant newClip.Valid() && newClip.name == old(newClip.name)
      invariant newClip.curves == CurvesAfter(old(newClip.curves), writes[..i])
      invariant newClip.bindings == OrderAfter(old(newClip.bindings), writes[..i])
    {
      var binding := curveBindings[i];
      var curve := originalClip.GetEditorCurve(binding);
      var threshold := GetThresholdForProperty(th, binding.propertyName);
      var newKeys := ReduceKeyframes(curve, threshold);
      newClip.SetEditorCurve(binding, newKeys);
      assert writes[..i + 1][..i] == writes[..i];
    }
    assert writes[..|curveBindings|] == writes;
  }

  /**
   * The window's action. Without a source clip it only warns and creates
   * nothing; otherwise it returns the new clip, named `newClipName`, that
   * holds the reduced curves under the source's bindings, ready to be saved.
   */
  method ReduceKeyframesAndSaveNewClip(originalClip: AnimationClip?, th: Thresholds, newClipName: string)
    returns (outcome: Outcome, newClip: AnimationClip?)
    requires originalClip != null ==> originalClip.Valid()
    ensures originalClip == null ==> outcome == Warned(NoClipWarning) && newClip == null
    ensures originalClip != null ==>
              && outcome == Saved(newClipName)
              && newClip != null && fresh(newClip) && newClip.Valid()
              && newClip.name == newClipName
              && newClip.curves == ReducedCurves(originalClip.curves, th)
              && newClip.bindings == originalClip.bindings
  {
    if originalClip == null {
      outcome, newClip := Warned(NoClipWarning), null;
      return;
    }
    var clip := new AnimationClip(newClipName);
    ReduceKeyframesForAllCurves(originalClip, clip, th);
    ReductionWritesCurves(originalClip.bindings, originalClip.curves, th);
    ReductionWritesOrder(originalClip.bindings, originalClip.curves, th);
    outcome, newClip := Saved(newClipName), clip;
  }
}
