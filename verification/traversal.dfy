/**
 * `array_traverse` (src/Plugin.php:137-146): rebuild a nested array, recursing
 * into array values and handing every other value, with its own key, to a
 * callback.
 */
module Traversal {
  import opened Values

  /** A callback `function ($value, $key)`. */
  type Callback = (Value, Key) -> Value

  /** The value stored under key `k` after traversal. */
  function TraverseValue(v: Value, k: Key, f: Callback): Value
    decreases v, 1
  {
    if v.Arr? then Arr(Traverse(v.entries, f)) else f(v, k)
  }

  function Traverse(a: Array, f: Callback): (r: Array)
    ensures |r| == |a|
    ensures forall i :: 0 <= i < |a| ==> r[i].0 == a[i].0
    ensures forall i :: 0 <= i < |a| && !a[i].1.Arr? ==> r[i].1 == f(a[i].1, a[i].0)
    ensures forall i :: 0 <= i < |a| && a[i].1.Arr? ==>
      r[i].1.Arr? && |r[i].1.entries| == |a[i].1.entries|
    decreases Arr(a), 0
  {
    seq(|a|, i requires 0 <= i < |a| => (a[i].0, TraverseValue(a[i].1, a[i].0, f)))
  }

  /** Concatenation of a sequence of sequences. */
  function Flatten<T>(xs: seq<seq<T>>): seq<T> {
    if |xs| == 0 then [] else xs[0] + Flatten(xs[1..])
  }

  /** The non-array leaves reachable from the value `v` stored under `k`. */
  function LeavesOf(v: Value, k: Key): seq<(Key, Value)>
    decreases v, 1
  {
    if v.Arr? then Leaves(v.entries) else [(k, v)]
  }

  /** The non-array values of a nested array with their own keys, depth first. */
  function Leaves(a: Array): seq<(Key, Value)>
    decreases Arr(a), 0
  {
    Flatten(seq(|a|, i requires 0 <= i < |a| => LeavesOf(a[i].1, a[i].0)))
  }

  /** The nesting of a value with every leaf blanked out: what "shape" means. */
  function Skeleton(v: Value): Value
    decreases v
  {
    if v.Arr? then
      Arr(seq(|v.entries|, i requires 0 <= i < |v.entries| => (v.entries[i].0, Skeleton(v.entries[i].1))))
    else Null
  }

  /** `f` applied to each leaf, keeping the leaf's key. */
  function MapLeaves(ls: seq<(Key, Value)>, f: Callback): (r: seq<(Key, Value)>)
    ensures |r| == |ls|
    ensures forall i :: 0 <= i < |ls| ==> r[i] == (ls[i].0, f(ls[i].1, ls[i].0))
  {
    if |ls| == 0 then [] else [(ls[0].0, f(ls[0].1, ls[0].0))] + MapLeaves(ls[1..], f)
  }

  /** A callback that never turns a leaf into an array. */
  ghost predicate LeafPreserving(f: Callback) {
    forall v: Value, k: Key :: !v.Arr? ==> !f(v, k).Arr?
  }

  /** A callback that returns every leaf unchanged. */
  ghost predicate FixesLeaves(f: Callback) {
    forall v: Value, k: Key :: !v.Arr? ==> f(v, k) == v
  }

  /** Traversing with a callback that changes no leaf changes nothing. */
  lemma {:induction false} TraverseIdentity(a: Array, f: Callback)
    requires FixesLeaves(f)
    ensures Traverse(a, f) == a
    decreases Arr(a), 0
  {
    forall i | 0 <= i < |a| ensures TraverseValue(a[i].1, a[i].0, f) == a[i].1 {
      TraverseValueIdentity(a[i].1, a[i].0, f);
    }
  }

  lemma {:induction false} TraverseValueIdentity(v: Value, k: Key, f: Callback)
    requires FixesLeaves(f)
    ensures TraverseValue(v, k, f) == v
    decreases v, 1
  {
    if v.Arr? {
      TraverseIdentity(v.entries, f);
    }
  }

  /**
   * `r` has the shape of `a`: the same number of entries under the same keys,
   * and every nested array of `a` is an array in `r` of the same shape, at
   * every depth. A leaf of `a` may become anything.
   */
  predicate SameShape(a: Array, r: Array)
    decreases Arr(a), 0
  {
    && |r| == |a|
    && forall i :: 0 <= i < |a| ==> r[i].0 == a[i].0 && SameShapeValue(a[i].1, r[i].1)
  }

  predicate SameShapeValue(v: Value, w: Value)
    decreases v, 1
  {
    v.Arr? ==> w.Arr? && SameShape(v.entries, w.entries)
  }

  /**
   * Traversal keeps the shape whatever the callback returns: every key at
   * every depth stays in place, and every nested array stays a nested array.
   */
  lemma {:induction false} TraverseKeepsShape(a: Array, f: Callback)
    ensures SameShape(a, Traverse(a, f))
    decreases Arr(a), 0
  {
    var r := Traverse(a, f);
    forall i | 0 <= i < |a| ensures SameShapeValue(a[i].1, r[i].1) {
      TraverseValueKeepsShape(a[i].1, a[i].0, f);
    }
  }

  lemma {:induction false} TraverseValueKeepsShape(v: Value, k: Key, f: Callback)
    ensures SameShapeValue(v, TraverseValue(v, k, f))
    decreases v, 1
  {
    if v.Arr? {
      TraverseKeepsShape(v.entries, f);
    }
  }

  /**
   * When the callback yields no arrays, the result has exactly the nesting
   * and the keys of the input: nothing is added below a former leaf either.
   */
  lemma {:induction false} TraverseKeepsSkeleton(a: Array, f: Callback)
    requires LeafPreserving(f)
    ensures Skeleton(Arr(Traverse(a, f))) == Skeleton(Arr(a))
    decreases Arr(a), 0
  {
    var r := Traverse(a, f);
    forall i | 0 <= i < |a| ensures Skeleton(r[i].1) == Skeleton(a[i].1) {
      TraverseValueKeepsSkeleton(a[i].1, a[i].0, f);
    }
  }

  lemma {:induction false} TraverseValueKeepsSkeleton(v: Value, k: Key, f: Callback)
    requires LeafPreserving(f)
    ensures Skeleton(TraverseValue(v, k, f)) == Skeleton(v)
    decreases v, 1
  {
    if v.Arr? {
      TraverseKeepsSkeleton(v.entries, f);
    }
  }

  /**
   * The values `r` holds at the leaf positions of `a`, depth first, each with
   * the key of its position; a position `r` lacks contributes nothing.
   */
  function Along(a: Array, r: Array): seq<(Key, Value)>
    decreases Arr(a), 0
  {
    Flatten(seq(|a|, i requires 0 <= i < |a| => if i < |r| then AlongValue(a[i].1, a[i].0, r[i].1) else []))
  }

  function AlongValue(v: Value, k: Key, w: Value): seq<(Key, Value)>
    decreases v, 1
  {
    if v.Arr? then (if w.Arr? then Along(v.entries, w.entries) else []) else [(k, w)]
  }

  lemma {:induction false} MapLeavesAppend(x: seq<(Key, Value)>, y: seq<(Key, Value)>, f: Callback)
    ensures MapLeaves(x + y, f) == MapLeaves(x, f) + MapLeaves(y, f)
  {
    if |x| > 0 {
      assert (x + y)[1..] == x[1..] + y;
      MapLeavesAppend(x[1..], y, f);
    }
  }

  /** Mapping the leaves of each group and concatenating equals mapping the concatenation. */
  lemma {:induction false} MapLeavesFlatten(xs: seq<seq<(Key, Value)>>, ys: seq<seq<(Key, Value)>>, f: Callback)
    requires |xs| == |ys| && forall i :: 0 <= i < |xs| ==> ys[i] == MapLeaves(xs[i], f)
    ensures Flatten(ys) == MapLeaves(Flatten(xs), f)
  {
    if |xs| > 0 {
      MapLeavesFlatten(xs[1..], ys[1..], f);
      MapLeavesAppend(xs[0], Flatten(xs[1..]), f);
    }
  }

  /**
   * The callback sees exactly the non-array leaves, each once, in document
   * order and with its own key, and its answer lands at that leaf's
   * position, whatever it returns (an array included).
   */
  lemma {:induction false} TraverseVisitsLeaves(a: Array, f: Callback)
    ensures Along(a, Traverse(a, f)) == MapLeaves(Leaves(a), f)
    decreases Arr(a), 0
  {
    var r := Traverse(a, f);
    var xs := seq(|a|, i requires 0 <= i < |a| => LeavesOf(a[i].1, a[i].0));
    var ys := seq(|a|, i requires 0 <= i < |a| => if i < |r| then AlongValue(a[i].1, a[i].0, r[i].1) else []);
    forall i | 0 <= i < |a| ensures ys[i] == MapLeaves(xs[i], f) {
      TraverseValueVisitsLeaves(a[i].1, a[i].0, f);
    }
    MapLeavesFlatten(xs, ys, f);
  }

  lemma {:induction false} TraverseValueVisitsLeaves(v: Value, k: Key, f: Callback)
    ensures AlongValue(v, k, TraverseValue(v, k, f)) == MapLeaves(LeavesOf(v, k), f)
    decreases v, 1
  {
    if v.Arr? {
      TraverseVisitsLeaves(v.entries, f);
    }
  }
}
