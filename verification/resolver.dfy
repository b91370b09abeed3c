/**
 * `parse` (src/Plugin.php:100-120): resolve every leaf of an argument array
 * against the variable store. For a string leaf, in order of precedence:
 *   1. a callable reference (`::` after the first character, callable, and
 *      not under the key `validator`) is replaced by the result of calling it
 *      without its first character;
 *   2. `"$name"` whose variable is truthy is replaced by the stored value
 *      itself, of whatever type;
 *   3. otherwise every `{$name}` placeholder is interpolated.
 * Leaves that are not strings are kept.
 */
module Resolver {
  import opened Wrappers
  import opened Values
  import opened Environment
  import opened Traversal
  import opened Interpolation

  /** `needle` occurs in `hay` starting at position `j`. */
  predicate OccursAt(hay: string, needle: string, j: nat) {
    j + |needle| <= |hay| && hay[j..j + |needle|] == needle
  }

  lemma OccursAtTail(hay: string, needle: string, j: nat)
    requires |hay| > 0
    ensures OccursAt(hay, needle, j + 1) <==> OccursAt(hay[1..], needle, j)
  {
    if j + 1 + |needle| <= |hay| {
      assert hay[j + 1..j + 1 + |needle|] == hay[1..][j..j + |needle|];
    }
  }

  /** `strpos($hay, $needle)`: the position of the first occurrence, if any. */
  function StrPos(hay: string, needle: string): (r: Option<nat>)
    ensures r.Some? ==> OccursAt(hay, needle, r.value)
    ensures r.Some? ==> forall j: nat :: j < r.value ==> !OccursAt(hay, needle, j)
    ensures r.None? ==> forall j: nat :: !OccursAt(hay, needle, j)
  {
    if |hay| < |needle| then None
    else if hay[..|needle|] == needle then Some(0)
    else
      var rest := StrPos(hay[1..], needle);
      assert forall j: nat :: OccursAt(hay, needle, j + 1) <==> OccursAt(hay[1..], needle, j) by {
        forall j: nat ensures OccursAt(hay, needle, j + 1) <==> OccursAt(hay[1..], needle, j) {
          OccursAtTail(hay, needle, j);
        }
      }
      assert forall j: nat :: OccursAt(hay, needle, j) && j > 0 ==> OccursAt(hay[1..], needle, j - 1) by {
        forall j: nat | OccursAt(hay, needle, j) && j > 0 ensures OccursAt(hay[1..], needle, j - 1) {
          OccursAtTail(hay, needle, j - 1);
        }
      }
      match rest
      case None => None
      case Some(i) => Some(i + 1)
  }

  /**
   * The guard of the callable branch: `strpos($value, '::')` is truthy (a
   * first occurrence at a position above 0), the string is callable, and the
   * key is not `validator`.
   */
  predicate CallableFires(host: Host, s: string, key: Key)
    ensures CallableFires(host, s, key) ==> |s| >= 3
  {
    match StrPos(s, "::")
    case Some(i) => i > 0 && host.isCallable(s) && key != StrKey("validator")
    case None => false
  }

  /**
   * `strpos` is truthy exactly when `::` occurs somewhere but not at the very
   * start, so the callable branch needs that, a callable string, and a key
   * other than `validator`.
   */
  lemma CallableGuard(host: Host, s: string, key: Key)
    ensures CallableFires(host, s, key) <==>
      && !OccursAt(s, "::", 0) && (exists j: nat :: OccursAt(s, "::", j))
      && host.isCallable(s) && key != StrKey("validator")
  {
    match StrPos(s, "::")
    case Some(i) =>
    case None =>
  }

  /** `"$name"` names a variable whose stored value is truthy. */
  predicate IsDirectReference(s: string, vars: Vars) {
    |s| > 0 && s[0] == '$' && s[1..] in vars && Truthy(vars[s[1..]])
  }

  /** The callback `parse` hands to `array_traverse`; `args` is the whole unresolved array. */
  function ResolveLeaf(host: Host, vars: Vars, args: Array, key: Key, v: Value): (r: Value)
    ensures !IsStringable(v) ==> r == v
  {
    if !IsStringable(v) then v
    else if CallableFires(host, v.s, key) then host.invoke(v.s[1..], key, args, vars)
    else if IsDirectReference(v.s, vars) then vars[v.s[1..]]
    else Str(Interpolate(v.s, vars))
  }

  function Parse(host: Host, vars: Vars, args: Array): (r: Array)
    ensures |r| == |args|
    ensures forall i :: 0 <= i < |args| ==> r[i].0 == args[i].0
    ensures forall i :: 0 <= i < |args| && !args[i].1.Arr? && !args[i].1.Str? ==> r[i].1 == args[i].1
    ensures forall i :: 0 <= i < |args| && args[i].1.Arr? ==>
      r[i].1.Arr? && |r[i].1.entries| == |args[i].1.entries|
  {
    Traverse(args, (v, k) => ResolveLeaf(host, vars, args, k, v))
  }

  /**
   * `"$name"` with a truthy variable `name` becomes the stored value itself,
   * keeping its type (it may be an array), unless the callable branch fires.
   */
  lemma DirectReference(host: Host, vars: Vars, args: Array, key: Key, name: string)
    requires name in vars && Truthy(vars[name])
    requires !CallableFires(host, "$" + name, key)
    ensures ResolveLeaf(host, vars, args, key, Str("$" + name)) == vars[name]
  {
    assert ("$" + name)[1..] == name;
  }

  /**
   * `"$name"` whose variable is missing or falsy falls through to
   * interpolation, which returns it unchanged when it holds no brace.
   */
  lemma FalsyReferenceUnchanged(host: Host, vars: Vars, args: Array, key: Key, name: string)
    requires name !in vars || !Truthy(vars[name])
    requires '{' !in name
    requires !CallableFires(host, "$" + name, key)
    ensures ResolveLeaf(host, vars, args, key, Str("$" + name)) == Str("$" + name)
  {
    assert ("$" + name)[1..] == name;
    InterpolateNoBrace("$" + name, vars);
  }

  /**
   * A string under the key `validator` is never called while parsing; it is
   * resolved as a variable reference or a template instead.
   */
  lemma ValidatorNotCalled(host: Host, vars: Vars, args: Array, s: string)
    ensures ResolveLeaf(host, vars, args, StrKey("validator"), Str(s)) ==
      if IsDirectReference(s, vars) then vars[s[1..]] else Str(Interpolate(s, vars))
  {
  }

  /**
   * A string whose first `::` is at its very start is never called:
   * `strpos` returns 0, which PHP reads as false.
   */
  lemma LeadingColonsNotCalled(host: Host, s: string, key: Key)
    requires |s| >= 2 && s[..2] == "::"
    ensures !CallableFires(host, s, key)
  {
    assert StrPos(s, "::") == Some(0);
  }

  /** A string without a colon never takes the callable branch: `strpos` finds no `::`. */
  lemma NoColonNotCalled(host: Host, s: string, key: Key)
    requires ':' !in s
    ensures !CallableFires(host, s, key)
  {
    forall j: nat ensures !OccursAt(s, "::", j) {
      if j + 2 <= |s| {
        assert s[j..j + 2][0] == s[j];
      }
    }
  }

  /** When the callable branch fires, the leaf is the result of calling the string without its first character. */
  lemma CalledLeaf(host: Host, vars: Vars, args: Array, key: Key, s: string)
    requires CallableFires(host, s, key)
    ensures ResolveLeaf(host, vars, args, key, Str(s)) == host.invoke(s[1..], key, args, vars)
  {
  }

  /**
   * A string that is neither called nor a direct reference is interpolated:
   * it stays a string, with its placeholders replaced.
   */
  lemma InterpolatedLeaf(host: Host, vars: Vars, args: Array, key: Key, s: string)
    requires !CallableFires(host, s, key) && !IsDirectReference(s, vars)
    ensures ResolveLeaf(host, vars, args, key, Str(s)) == Str(Interpolate(s, vars))
  {
  }

  /**
   * The placeholder example: with `name` holding `"x"`, the leaf
   * `"prefix{$name}suffix"` becomes `"prefixxsuffix"`.
   */
  lemma PlaceholderExample(host: Host, args: Array, key: Key)
    ensures ResolveLeaf(host, map["name" := Str("x")], args, key, Str("prefix{$name}suffix")) == Str("prefixxsuffix")
  {
    var s := "prefix{$name}suffix";
    assert s == "prefix" + Placeholder("name") + "suffix";
    assert "prefix" + "x" + "suffix" == "prefixxsuffix";
    assert IsIdent("name") && '{' !in "prefix" && '{' !in "suffix";
    var vars := map["name" := Str("x")];
    NoColonNotCalled(host, s, key);
    InterpolatedLeaf(host, vars, args, key, s);
    InterpolateOne("prefix", "name", "suffix", vars, "x");
  }

  /**
   * Validators given as a list reach the callback under the integer keys
   * 0, 1, ..., which the strict `'validator' !== $key` test lets through: a
   * callable entry is called while parsing and replaced by its result.
   */
  lemma ValidatorListEntryCalled(host: Host, vars: Vars, s: string)
    requires CallableFires(host, s, IntKey(0))
    ensures var args := [(StrKey("validator"), Arr([(IntKey(0), Str(s))]))];
      Parse(host, vars, args) == [(StrKey("validator"), Arr([(IntKey(0), host.invoke(s[1..], IntKey(0), args, vars))]))]
  {
    var args := [(StrKey("validator"), Arr([(IntKey(0), Str(s))]))];
    var f: Callback := (v, k) => ResolveLeaf(host, vars, args, k, v);
    var listed := [(IntKey(0), Str(s))];
    var called := host.invoke(s[1..], IntKey(0), args, vars);
    assert f(Str(s), IntKey(0)) == called;
    assert Traverse(listed, f) == [(IntKey(0), called)];
    assert TraverseValue(Arr(listed), StrKey("validator"), f) == Arr([(IntKey(0), called)]);
    assert Parse(host, vars, args) == Traverse(args, f);
  }

  /**
   * With an empty store and nothing callable, parsing returns its input
   * unchanged: every reference and placeholder is left as written.
   */
  lemma ParseEmptyStore(host: Host, args: Array)
    requires forall s :: !host.isCallable(s)
    ensures Parse(host, map[], args) == args
  {
    var f: Callback := (v, k) => ResolveLeaf(host, map[], args, k, v);
    forall v: Value, k: Key | !v.Arr? ensures f(v, k) == v {
      if v.Str? {
        InterpolateInert(v.s, map[]);
      }
    }
    TraverseIdentity(args, f);
  }

  /**
   * Parsing keeps the argument array's nesting and keys at every depth,
   * whatever its leaves become (a `"$name"` leaf may become an array), and
   * each leaf position receives the resolution of the original leaf there.
   */
  lemma ParseKeepsShape(host: Host, vars: Vars, args: Array)
    ensures SameShape(args, Parse(host, vars, args))
    ensures Along(args, Parse(host, vars, args)) == MapLeaves(Leaves(args), (v, k) => ResolveLeaf(host, vars, args, k, v))
  {
    var f: Callback := (v, k) => ResolveLeaf(host, vars, args, k, v);
    TraverseKeepsShape(args, f);
    TraverseVisitsLeaves(args, f);
  }

  /**
   * With nothing callable and no array in the store, no leaf becomes an
   * array, so the result has exactly the nesting of the arguments.
   */
  lemma ParseKeepsSkeleton(host: Host, vars: Vars, args: Array)
    requires forall s :: !host.isCallable(s)
    requires forall name :: name in vars ==> !vars[name].Arr?
    ensures Skeleton(Arr(Parse(host, vars, args))) == Skeleton(Arr(args))
  {
    var f: Callback := (v, k) => ResolveLeaf(host, vars, args, k, v);
    forall v: Value, k: Key | !v.Arr? ensures !f(v, k).Arr? {
    }
    TraverseKeepsSkeleton(args, f);
  }
}
