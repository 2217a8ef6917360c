/**
 * The part of the render context the set tag touches: a stack of variable
 * frames and the assign-score resource counter. A block that opens a scope
 * (a `for` loop) pushes a new innermost frame at the front; the last frame
 * is the base frame that outlives every push and pop.
 */
module Contexts {
  import opened Wrappers
  import opened Values

  type Frame = map<string, Value>

  /** What the assign score charges for a value; how it is measured is not part of this model. */
  type CostFunction = Value -> nat

  /** Value of `name` in the innermost frame that holds it. */
  function FindIn(scopes: seq<Frame>, name: string): (r: Option<Value>)
    ensures r.Some? <==> exists i | 0 <= i < |scopes| :: name in scopes[i]
    decreases |scopes|
  {
    if scopes == [] then None
    else if name in scopes[0] then Some(scopes[0][name])
    else
      var inner := FindIn(scopes[1..], name);
      assert forall i | 1 <= i < |scopes| :: scopes[i] == scopes[1..][i - 1];
      inner
  }

  /** The value found is the one in the first frame, from the front, that binds the name. */
  lemma {:induction false} FindInInnermost(scopes: seq<Frame>, name: string, i: nat)
    requires i < |scopes| && name in scopes[i]
    requires forall j | 0 <= j < i :: name !in scopes[j]
    ensures FindIn(scopes, name) == Some(scopes[i][name])
    decreases i
  {
    if i > 0 {
      assert forall j | 0 <= j < i - 1 :: scopes[1..][j] == scopes[j + 1];
      FindInInnermost(scopes[1..], name, i - 1);
    }
  }

  /** The frames after binding `name` to `v` in the last (base) frame. */
  function AssignLast(scopes: seq<Frame>, name: string, v: Value): (r: seq<Frame>)
    requires |scopes| > 0
  {
    scopes[..|scopes| - 1] + [scopes[|scopes| - 1][name := v]]
  }

  /** Only the base frame changes, and in it only `name`. */
  lemma AssignLastFrames(scopes: seq<Frame>, name: string, v: Value)
    requires |scopes| > 0
    ensures |AssignLast(scopes, name, v)| == |scopes|
    ensures forall i | 0 <= i < |scopes| - 1 :: AssignLast(scopes, name, v)[i] == scopes[i]
    ensures BindsIn(scopes[|scopes| - 1], AssignLast(scopes, name, v)[|scopes| - 1], name, v)
  {
  }

  /** `after` is `before` with `name` bound to `v`: no other name is added, dropped or changed. */
  predicate BindsIn(before: Frame, after: Frame, name: string, v: Value) {
    && name in after && after[name] == v
    && (forall m | m in after :: m == name || m in before)
    && (forall m | m in before && m != name :: m in after && after[m] == before[m])
  }

  /** A second write of the same name replaces the first. */
  lemma AssignLastTwice(scopes: seq<Frame>, name: string, v: Value, w: Value)
    requires |scopes| > 0
    ensures AssignLast(AssignLast(scopes, name, v), name, w) == AssignLast(scopes, name, w)
  {
    var r := AssignLast(scopes, name, v);
    assert r[..|r| - 1] == scopes[..|scopes| - 1];
    assert r[|r| - 1][name := w] == scopes[|scopes| - 1][name := w];
  }

  /** Writing the base frame under an inner frame is the same as writing it before the push. */
  lemma AssignLastUnderPush(inner: Frame, scopes: seq<Frame>, name: string, v: Value)
    requires |scopes| > 0
    ensures AssignLast([inner] + scopes, name, v) == [inner] + AssignLast(scopes, name, v)
  {
    var s := [inner] + scopes;
    assert s[..|s| - 1] == [inner] + scopes[..|scopes| - 1];
  }

  lemma {:induction false} FindInAppend(front: seq<Frame>, back: seq<Frame>, name: string)
    ensures FindIn(front + back, name) ==
      (if FindIn(front, name).Some? then FindIn(front, name) else FindIn(back, name))
    decreases |front|
  {
    if front == [] {
      assert front + back == back;
    } else {
      assert (front + back)[1..] == front[1..] + back;
      FindInAppend(front[1..], back, name);
    }
  }

  /**
   * After the set tag binds `name`, a lookup finds the new value unless a
   * frame nearer the front binds the same name and shadows it.
   */
  lemma FindAfterAssign(scopes: seq<Frame>, name: string, v: Value)
    requires |scopes| > 0
    ensures FindIn(AssignLast(scopes, name, v), name) ==
      (if FindIn(scopes[..|scopes| - 1], name).Some? then FindIn(scopes[..|scopes| - 1], name) else Some(v))
  {
    var front := scopes[..|scopes| - 1];
    var base := scopes[|scopes| - 1][name := v];
    FindInAppend(front, [base], name);
    assert FindIn([base], name) == Some(v);
  }

  /** Binding one name leaves every other lookup as it was. */
  lemma FindOtherName(scopes: seq<Frame>, name: string, v: Value, other: string)
    requires |scopes| > 0 && other != name
    ensures FindIn(AssignLast(scopes, name, v), other) == FindIn(scopes, other)
  {
    var front := scopes[..|scopes| - 1];
    var last := scopes[|scopes| - 1];
    FindInAppend(front, [last[name := v]], other);
    FindInAppend(front, [last], other);
    assert front + [last] == scopes;
    assert FindIn([last[name := v]], other) == FindIn([last], other) by {
      assert [last[name := v]][1..] == [] && [last][1..] == [];
    }
  }

  /**
   * A set inside a loop still holds once the loop's frame is popped, when
   * no frame between the loop and the base binds the name.
   */
  lemma SetSurvivesPop(inner: Frame, scopes: seq<Frame>, name: string, v: Value)
    requires |scopes| > 0 && FindIn(scopes[..|scopes| - 1], name).None?
    ensures FindIn(AssignLast([inner] + scopes, name, v)[1..], name) == Some(v)
  {
    AssignLastUnderPush(inner, scopes, name, v);
    assert ([inner] + AssignLast(scopes, name, v))[1..] == AssignLast(scopes, name, v);
    FindAfterAssign(scopes, name, v);
  }

  /** The render context: the frame stack and the assign-score counter. */
  class Context {
    var scopes: seq<Frame>
    var assignScore: nat
    const cost: CostFunction

    ghost predicate Valid()
      reads this
    {
      |scopes| > 0
    }

    constructor(base: Frame, cost: CostFunction)
      ensures Valid()
      ensures scopes == [base] && assignScore == 0 && this.cost == cost
    {
      scopes := [base];
      assignScore := 0;
      this.cost := cost;
    }

    /** Open a new innermost frame, as a `for` loop does. */
    method Push()
      requires Valid()
      modifies this
      ensures Valid()
      ensures scopes == [map[]] + old(scopes) && assignScore == old(assignScore)
    {
      scopes := [map[]] + scopes;
    }

    /** Close the innermost frame; the base frame cannot be popped. */
    method Pop() returns (ok: bool)
      requires Valid()
      modifies this
      ensures Valid()
      ensures ok <==> |old(scopes)| > 1
      ensures scopes == (if ok then old(scopes)[1..] else old(scopes))
      ensures assignScore == old(assignScore)
    {
      if |scopes| == 1 {
        ok := false;
      } else {
        scopes := scopes[1..];
        ok := true;
      }
    }

    /** Look a variable up, innermost frame first. */
    function Find(name: string): (r: Option<Value>)
      reads this
      ensures r.Some? <==> exists i | 0 <= i < |scopes| :: name in scopes[i]
    {
      FindIn(scopes, name)
    }

    /** Bind `name` in the base frame, `scopes.last`. */
    method AssignBase(name: string, v: Value)
      requires Valid()
      modifies this
      ensures Valid()
      ensures scopes == AssignLast(old(scopes), name, v) && assignScore == old(assignScore)
    {
      var n := |scopes|;
      scopes := scopes[..n - 1] + [scopes[n - 1][name := v]];
    }

    /** Charge the cost of a value to the assign score. */
    method IncrementUsedResources(v: Value)
      modifies this
      ensures scopes == old(scopes)
      ensures assignScore == old(assignScore) + cost(v)
    {
      assignScore := assignScore + cost(v);
    }
  }
}
