/**
 * The small pure helpers the handlers use: `array_combine` with its
 * single-value broadcast (src/Plugin.php:148-154), the `required` validator
 * (src/Plugin.php:164-167), and the validator chain `insert` builds and runs
 * on every answer (src/Plugin.php:169-189).
 */
module Builtins {
  import opened Wrappers
  import opened Values
  import opened Keys

  // ---------------------------------------------------------------------------
  // `array_combine`

  /** `[c => v, c + 1 => v, …, n - 1 => v]`. */
  function Numbered(v: Value, c: nat, n: nat): (r: Array)
    ensures |r| == if c <= n then n - c else 0
    decreases n - c
  {
    if c >= n then [] else [(IntKey(c), v)] + Numbered(v, c + 1, n)
  }

  /** `$values[$count] = $v` for `$count` from `c` up to `n - 1`. */
  function Fill(values: Array, v: Value, c: nat, n: nat): Array
    decreases n - c
  {
    if c >= n then values else Fill(Put(values, IntKey(c), v), v, c + 1, n)
  }

  /**
   * The loop before the call (src/Plugin.php:149-151): a single value is
   * copied under the integer keys 1 to `n - 1`. It copies `$values[0]`,
   * which reads as null when that single value is not stored under 0.
   */
  function Broadcast(n: nat, values: Array): Array {
    if |values| == 1 then
      var first := match Get(values, IntKey(0)) case Some(v) => v case None => Null;
      Fill(values, first, 1, n)
    else values
  }

  /** Each key in turn stored with the value at its position; a repeated key keeps its first place and its last value. */
  function Pairs(keys: seq<Value>, values: seq<Value>): Array
    requires |keys| == |values|
    decreases |keys|
  {
    if |keys| == 0 then []
    else
      var n := |keys| - 1;
      Put(Pairs(keys[..n], values[..n]), ArrayKey(keys[n]), values[n])
  }

  /** PHP's `array_combine`: a ValueError (None) when the counts differ. */
  function Combine(keys: Array, values: Array): Option<Array> {
    if |keys| != |values| then None else Some(Pairs(ValuesOf(keys), ValuesOf(values)))
  }

  /** `array_combine` as the plugin defines it (src/Plugin.php:148-154). */
  function ArrayCombine(keys: Array, values: Array): Option<Array> {
    Combine(keys, Broadcast(|keys|, values))
  }

  /** Filling keys the array does not have appends them in order. */
  lemma {:induction false} FillAppends(a: Array, v: Value, c: nat, n: nat)
    requires forall j: nat :: c <= j < n ==> !HasKey(a, IntKey(j))
    ensures Fill(a, v, c, n) == a + Numbered(v, c, n)
    decreases n - c
  {
    if c < n {
      var a' := Put(a, IntKey(c), v);
      assert a' == a + [(IntKey(c), v)];
      forall j: nat | c + 1 <= j < n ensures !HasKey(a', IntKey(j)) {
        PutGet(a, IntKey(c), v, IntKey(j));
      }
      FillAppends(a', v, c + 1, n);
      assert a' + Numbered(v, c + 1, n) == a + ([(IntKey(c), v)] + Numbered(v, c + 1, n));
    }
  }

  /** Filling over one key the array already has overwrites it, so the array grows by one less. */
  lemma {:induction false} FillOverwritesOne(a: Array, v: Value, c: nat, n: nat, j0: nat)
    requires c <= j0 < n && HasKey(a, IntKey(j0))
    requires forall j: nat :: c <= j < n && j != j0 ==> !HasKey(a, IntKey(j))
    ensures |Fill(a, v, c, n)| == |a| + (n - c) - 1
    decreases n - c
  {
    var a' := Put(a, IntKey(c), v);
    forall j: nat | c + 1 <= j < n ensures HasKey(a', IntKey(j)) == HasKey(a, IntKey(j)) {
      PutGet(a, IntKey(c), v, IntKey(j));
    }
    if c == j0 {
      FillAppends(a', v, c + 1, n);
    } else {
      FillOverwritesOne(a', v, c + 1, n, j0);
    }
  }

  /**
   * How many values the call sees: a list of any other length is passed
   * as it is; a single value becomes one per key, except that a single
   * value stored under an integer key between 1 and `n - 1` is overwritten
   * by the copying and leaves one value too few.
   */
  lemma BroadcastLength(n: nat, values: Array)
    ensures |values| != 1 ==> Broadcast(n, values) == values
    ensures |values| == 1 ==>
      |Broadcast(n, values)| == if n == 0 then 1
                                else if values[0].0.IntKey? && 1 <= values[0].0.n < n then n - 1
                                else n
  {
    if |values| == 1 {
      var first := match Get(values, IntKey(0)) case Some(v) => v case None => Null;
      var k0 := values[0].0;
      if k0.IntKey? && 1 <= k0.n < n {
        forall j: nat | 1 <= j < n && j != k0.n ensures !HasKey(values, IntKey(j)) {
        }
        assert HasKey(values, k0);
        FillOverwritesOne(values, first, 1, n, k0.n);
      } else {
        FillAppends(values, first, 1, n);
      }
    }
  }

  /** When `array_combine` returns an array rather than throwing. */
  lemma ArrayCombineDefined(keys: Array, values: Array)
    ensures |values| != 1 ==> (ArrayCombine(keys, values).Some? <==> |keys| == |values|)
    ensures |values| == 1 ==>
      (ArrayCombine(keys, values).Some? <==>
        |keys| >= 1 && !(values[0].0.IntKey? && 1 <= values[0].0.n < |keys|))
  {
    BroadcastLength(|keys|, values);
  }

  /** A single value under key 0 becomes one copy per key, numbered from 0. */
  lemma BroadcastSingle(n: nat, v: Value)
    requires n >= 1
    ensures Broadcast(n, [(IntKey(0), v)]) == Numbered(v, 0, n)
  {
    var a := [(IntKey(0), v)];
    assert a[0].0 == IntKey(0);
    assert Get(a, IntKey(0)) == Some(v);
    forall j: nat | 1 <= j < n ensures !HasKey(a, IntKey(j)) {
    }
    FillAppends(a, v, 1, n);
  }

  /** Stored under a key that occurs no later in the list, a value is found under it. */
  lemma {:induction false} PairsGet(keys: seq<Value>, values: seq<Value>, i: nat)
    requires |keys| == |values| && i < |keys|
    requires forall j :: i < j < |keys| ==> ArrayKey(keys[j]) != ArrayKey(keys[i])
    ensures Get(Pairs(keys, values), ArrayKey(keys[i])) == Some(values[i])
    decreases |keys|
  {
    var n := |keys| - 1;
    var ks, vs := keys[..n], values[..n];
    assert Pairs(keys, values) == Put(Pairs(ks, vs), ArrayKey(keys[n]), values[n]);
    PutGet(Pairs(ks, vs), ArrayKey(keys[n]), values[n], ArrayKey(keys[i]));
    if i < n {
      assert ks[i] == keys[i] && vs[i] == values[i];
      assert forall j :: i < j < n ==> ks[j] == keys[j];
      PairsGet(ks, vs, i);
    }
  }

  /** Some value of `keys` becomes the array key `k`. */
  ghost predicate KeyFrom(keys: seq<Value>, k: Key) {
    exists i :: 0 <= i < |keys| && ArrayKey(keys[i]) == k
  }

  lemma KeyFromSnoc(keys: seq<Value>, k: Key)
    requires |keys| > 0
    ensures KeyFrom(keys, k) <==> KeyFrom(keys[..|keys| - 1], k) || ArrayKey(keys[|keys| - 1]) == k
  {
    var n := |keys| - 1;
    if KeyFrom(keys[..n], k) {
      var i :| 0 <= i < n && ArrayKey(keys[..n][i]) == k;
      assert ArrayKey(keys[i]) == k;
    }
    if KeyFrom(keys, k) {
      var i :| 0 <= i < |keys| && ArrayKey(keys[i]) == k;
      if i < n {
        assert ArrayKey(keys[..n][i]) == k;
      }
    }
  }

  /** The result holds exactly the keys of the key list. */
  lemma {:induction false} PairsKeys(keys: seq<Value>, values: seq<Value>, k: Key)
    requires |keys| == |values|
    ensures HasKey(Pairs(keys, values), k) <==> exists i :: 0 <= i < |keys| && ArrayKey(keys[i]) == k
    decreases |keys|
  {
    if |keys| > 0 {
      var n := |keys| - 1;
      PairsKeys(keys[..n], values[..n], k);
      var rest := Pairs(keys[..n], values[..n]);
      var r := Put(rest, ArrayKey(keys[n]), values[n]);
      assert Pairs(keys, values) == r;
      PutGet(rest, ArrayKey(keys[n]), values[n], k);
      assert HasKey(r, k) <==> Get(r, k).Some?;
      assert HasKey(rest, k) <==> Get(rest, k).Some?;
      KeyFromSnoc(keys, k);
    }
  }

  /** With keys that stay distinct as array keys, the pairing is positional. */
  lemma {:induction false} PairsPositional(keys: seq<Value>, values: seq<Value>)
    requires |keys| == |values|
    requires forall i, j :: 0 <= i < j < |keys| ==> ArrayKey(keys[i]) != ArrayKey(keys[j])
    ensures |Pairs(keys, values)| == |keys|
    ensures forall i :: 0 <= i < |keys| ==> Pairs(keys, values)[i] == (ArrayKey(keys[i]), values[i])
    decreases |keys|
  {
    if |keys| > 0 {
      var n := |keys| - 1;
      var rest := Pairs(keys[..n], values[..n]);
      PairsPositional(keys[..n], values[..n]);
      PairsKeys(keys[..n], values[..n], ArrayKey(keys[n]));
      assert !HasKey(rest, ArrayKey(keys[n]));
      assert Pairs(keys, values) == rest + [(ArrayKey(keys[n]), values[n])];
    }
  }

  /** When every value is the same, every key maps to it. */
  lemma {:induction false} PairsConstant(keys: seq<Value>, values: seq<Value>, v: Value, i: nat)
    requires |keys| == |values| && i < |keys|
    requires forall j :: 0 <= j < |values| ==> values[j] == v
    ensures Get(Pairs(keys, values), ArrayKey(keys[i])) == Some(v)
    decreases |keys|
  {
    var n := |keys| - 1;
    PutGet(Pairs(keys[..n], values[..n]), ArrayKey(keys[n]), values[n], ArrayKey(keys[i]));
    if i < n && ArrayKey(keys[n]) != ArrayKey(keys[i]) {
      PairsConstant(keys[..n], values[..n], v, i);
    }
  }

  /**
   * With exactly one value, stored under key 0 as a JSON list gives it,
   * every key is paired with that value.
   */
  lemma ArrayCombineBroadcasts(keys: Array, v: Value)
    requires |keys| >= 1
    ensures var r := ArrayCombine(keys, [(IntKey(0), v)]);
      && r.Some?
      && (forall i :: 0 <= i < |keys| ==> Get(r.value, ArrayKey(keys[i].1)) == Some(v))
      && (forall k :: HasKey(r.value, k) <==> exists i :: 0 <= i < |keys| && ArrayKey(keys[i].1) == k)
  {
    var n := |keys|;
    BroadcastSingle(n, v);
    var ks, vs := ValuesOf(keys), ValuesOf(Numbered(v, 0, n));
    forall j | 0 <= j < n ensures vs[j] == v {
      NumberedAt(v, 0, n, j);
    }
    forall i | 0 <= i < n ensures Get(Pairs(ks, vs), ArrayKey(keys[i].1)) == Some(v) {
      PairsConstant(ks, vs, v, i);
    }
    forall k ensures HasKey(Pairs(ks, vs), k) <==> exists i :: 0 <= i < n && ArrayKey(keys[i].1) == k {
      PairsKeys(ks, vs, k);
      if exists i :: 0 <= i < n && ArrayKey(keys[i].1) == k {
        var i :| 0 <= i < n && ArrayKey(keys[i].1) == k;
        assert ArrayKey(ks[i]) == k;
      }
    }
  }

  /** Nothing is numbered at position `i` but `c + i`. */
  lemma {:induction false} NumberedAt(v: Value, c: nat, n: nat, i: nat)
    requires c + i < n
    ensures Numbered(v, c, n)[i] == (IntKey(c + i), v)
    decreases i
  {
    if i > 0 {
      NumberedAt(v, c + 1, n, i - 1);
    }
  }

  /**
   * With as many values as keys, each key is paired with the value at the
   * same position; a key repeated (as an array key) keeps the last value.
   */
  lemma ArrayCombinePairs(keys: Array, values: Array, i: nat)
    requires |keys| == |values| && i < |keys|
    requires forall j :: i < j < |keys| ==> ArrayKey(keys[j].1) != ArrayKey(keys[i].1)
    ensures var r := ArrayCombine(keys, values);
      r.Some? && Get(r.value, ArrayKey(keys[i].1)) == Some(values[i].1)
  {
    BroadcastLength(|keys|, values);
    if |values| == 1 {
      assert Broadcast(|keys|, values) == Fill(values, match Get(values, IntKey(0)) case Some(v) => v case None => Null, 1, 1);
    }
    PairsGet(ValuesOf(keys), ValuesOf(values), i);
  }

  /** With as many values as keys and keys that stay distinct, the result is the two lists zipped. */
  lemma ArrayCombineZips(keys: Array, values: Array)
    requires |keys| == |values|
    requires forall i, j :: 0 <= i < j < |keys| ==> ArrayKey(keys[i].1) != ArrayKey(keys[j].1)
    ensures var r := ArrayCombine(keys, values);
      && r.Some? && |r.value| == |keys|
      && forall i :: 0 <= i < |keys| ==> r.value[i] == (ArrayKey(keys[i].1), values[i].1)
  {
    BroadcastLength(|keys|, values);
    if |values| == 1 {
      assert Broadcast(|keys|, values) == values;
    }
    PairsPositional(ValuesOf(keys), ValuesOf(values));
  }

  // ---------------------------------------------------------------------------
  // `required` and the validator chain

  /** A validator: the value it passes on, or the message it throws. */
  type Validator = Value -> Result<Value, string>

  const RequiredMessage := "Value is required"

  /** `self::class . '::required'`. */
  const RequiredName := "PiotrPress\\Composer\\Setuper\\Plugin::required"

  /** `required` (src/Plugin.php:164-167): null is refused, anything else passes unchanged. */
  function Required(v: Value): (r: Result<Value, string>)
    ensures r.Failure? <==> v.Null?
    ensures r.Success? ==> r.value == v
  {
    if v.Null? then Failure(RequiredMessage) else Success(v)
  }

  /**
   * The closure given to `askAndValidate` (src/Plugin.php:183-187): each
   * validator receives what the previous one returned; the first that throws
   * ends the chain with its message.
   */
  function ApplyChain(chain: seq<Validator>, v: Value): Result<Value, string>
    decreases |chain|
  {
    if |chain| == 0 then Success(v)
    else
      match chain[0](v)
      case Failure(m) => Failure(m)
      case Success(w) => ApplyChain(chain[1..], w)
  }

  /** Running two chains one after the other is running their concatenation. */
  lemma {:induction false} ApplyChainAppend(a: seq<Validator>, b: seq<Validator>, v: Value)
    ensures ApplyChain(a + b, v) ==
      match ApplyChain(a, v)
      case Success(w) => ApplyChain(b, w)
      case Failure(m) => Failure(m)
    decreases |a|
  {
    if |a| == 0 {
      assert a + b == b;
    } else {
      assert (a + b)[1..] == a[1..] + b;
      match a[0](v)
      case Failure(_) =>
      case Success(w) => ApplyChainAppend(a[1..], b, w);
    }
  }

  /** Validators apply in the declared order: `[v1, v2]` stores `v2(v1(x))`. */
  lemma ApplyChainInOrder(v1: Validator, v2: Validator, x: Value)
    ensures ApplyChain([v1, v2], x) ==
      match v1(x)
      case Success(y) => v2(y)
      case Failure(m) => Failure(m)
  {
    assert [v1, v2][1..] == [v2];
    assert [v2][1..] == [];
    match v1(x)
    case Failure(_) =>
    case Success(y) =>
      assert ApplyChain([v1, v2], x) == ApplyChain([v2], y);
      match v2(y)
      case Failure(_) =>
      case Success(w) =>
        assert ApplyChain([v2], y) == ApplyChain([], w);
  }

  /** With `required` in front, a null answer is refused before any other validator sees it. */
  lemma RequiredGuardsChain(chain: seq<Validator>, v: Value)
    ensures ApplyChain([Required] + chain, v) ==
      if v.Null? then Failure(RequiredMessage) else ApplyChain(chain, v)
  {
    assert ([Required] + chain)[1..] == chain;
  }

  /**
   * The validator list of `insert` (src/Plugin.php:172-176): the given ones
   * cast to an array (nothing when unset or null), with `required` put in
   * front when the `required` argument is truthy.
   */
  function ValidatorList(args: Array): seq<Value> {
    var given := match Get(args, StrKey("validator")) case Some(v) => ToArray(v) case None => [];
    (if RequiredSet(args) then [Str(RequiredName)] else []) + ValuesOf(given)
  }

  /** The `required` argument is given and truthy (a missing one defaults to false). */
  predicate RequiredSet(args: Array) {
    Get(args, StrKey("required")).Some? && Truthy(Get(args, StrKey("required")).value)
  }

  /**
   * What PHP can call: `is_callable` on a list entry, and the function it
   * names. `required` is a public static method, so it is always callable
   * and always itself.
   */
  datatype Binding = Binding(callable: Value -> bool, bind: Value -> Validator)

  predicate Callable(b: Binding, e: Value) {
    e == Str(RequiredName) || b.callable(e)
  }

  function Bound(b: Binding, e: Value): Validator {
    if e == Str(RequiredName) then Required else b.bind(e)
  }

  /**
   * The check before prompting (src/Plugin.php:178-180): the first entry
   * that is not callable is reported (as "Call to undefined function");
   * otherwise every entry becomes its validator, in order.
   */
  function BuildChain(b: Binding, entries: seq<Value>): (r: Result<seq<Validator>, Value>)
    decreases |entries|
  {
    if |entries| == 0 then Success([])
    else if !Callable(b, entries[0]) then Failure(entries[0])
    else
      match BuildChain(b, entries[1..])
      case Failure(e) => Failure(e)
      case Success(rest) => Success([Bound(b, entries[0])] + rest)
  }

  /** The chain is built exactly when every entry is callable, and then holds each entry's validator in order. */
  lemma {:induction false} BuildChainSucceeds(b: Binding, entries: seq<Value>)
    ensures BuildChain(b, entries).Success? <==> forall i :: 0 <= i < |entries| ==> Callable(b, entries[i])
    ensures BuildChain(b, entries).Success? ==>
      |BuildChain(b, entries).value| == |entries| &&
      forall i :: 0 <= i < |entries| ==> BuildChain(b, entries).value[i] == Bound(b, entries[i])
    decreases |entries|
  {
    if |entries| > 0 {
      BuildChainSucceeds(b, entries[1..]);
      assert forall i :: 1 <= i < |entries| ==> entries[1..][i - 1] == entries[i];
    }
  }

  /** A failed build names the first entry that is not callable. */
  lemma {:induction false} BuildChainReportsFirst(b: Binding, entries: seq<Value>)
    requires BuildChain(b, entries).Failure?
    ensures exists i :: (0 <= i < |entries|
      && BuildChain(b, entries).error == entries[i] && !Callable(b, entries[i])
      && forall j :: 0 <= j < i ==> Callable(b, entries[j]))
    decreases |entries|
  {
    if Callable(b, entries[0]) {
      BuildChainReportsFirst(b, entries[1..]);
      var i :| 0 <= i < |entries[1..]| &&
        BuildChain(b, entries[1..]).error == entries[1..][i] && !Callable(b, entries[1..][i]) &&
        forall j :: 0 <= j < i ==> Callable(b, entries[1..][j]);
      assert forall j :: 1 <= j < i + 1 ==> entries[j] == entries[1..][j - 1];
      assert entries[i + 1] == entries[1..][i];
    }
  }

  /** The chain `insert` runs on each answer, or the entry it refuses. */
  function InsertChain(b: Binding, args: Array): Result<seq<Validator>, Value> {
    BuildChain(b, ValidatorList(args))
  }

  /**
   * With `required` set, every answer passes `required` before the given
   * validators: null is refused, anything else goes on to them.
   */
  lemma InsertRequiredFirst(b: Binding, args: Array, v: Value)
    requires RequiredSet(args)
    requires InsertChain(b, args).Success?
    ensures var chain := InsertChain(b, args).value;
      |chain| >= 1 && ApplyChain(chain, v) == if v.Null? then Failure(RequiredMessage) else ApplyChain(chain[1..], v)
  {
    var entries := ValidatorList(args);
    BuildChainSucceeds(b, entries);
    var chain := InsertChain(b, args).value;
    assert entries[0] == Str(RequiredName);
    assert chain[0] == Required;
    assert chain == [Required] + chain[1..];
    RequiredGuardsChain(chain[1..], v);
  }

  /**
   * The chain is empty, so `insert` takes the plain `ask` path, exactly when
   * `required` is not set and the `validator` argument is unset, null or an
   * empty array: `isset` is false on null, and the `(array)` cast of an
   * empty array is empty while that of any other scalar is not.
   */
  lemma InsertChainEmpty(b: Binding, args: Array)
    ensures InsertChain(b, args) == Success([]) <==>
      && !RequiredSet(args)
      && (Get(args, StrKey("validator")).None? || Get(args, StrKey("validator")).value in {Null, Arr([])})
  {
    var entries := ValidatorList(args);
    BuildChainSucceeds(b, entries);
    var given := match Get(args, StrKey("validator")) case Some(v) => ToArray(v) case None => [];
    assert |entries| == (if RequiredSet(args) then 1 else 0) + |given|;
    if entries == [] {
      assert BuildChain(b, entries) == Success([]);
    } else {
      assert InsertChain(b, args) != Success([]);
    }
  }

  /**
   * A single validator given as a string is cast to a one-entry list: without
   * `required`, the chain is that function alone, or the build reports it
   * when it is not callable.
   */
  lemma InsertSingleValidator(b: Binding, args: Array, s: string)
    requires !RequiredSet(args) && Get(args, StrKey("validator")) == Some(Str(s))
    ensures InsertChain(b, args) == if Callable(b, Str(s)) then Success([Bound(b, Str(s))]) else Failure(Str(s))
  {
    var entries := ValidatorList(args);
    assert entries == [Str(s)];
    assert BuildChain(b, entries[1..]) == Success([]);
    assert [Bound(b, Str(s))] + [] == [Bound(b, Str(s))];
  }

  /**
   * The answer `insert` stores: the first one the chain accepts, as the chain
   * returns it; the prompt asks again after every refusal (None: no answer
   * was accepted).
   */
  function Accepted(chain: seq<Validator>, answers: seq<Value>): Option<Value>
    decreases |answers|
  {
    if |answers| == 0 then None
    else
      match ApplyChain(chain, answers[0])
      case Success(v) => Some(v)
      case Failure(_) => Accepted(chain, answers[1..])
  }

  /** The stored answer is the chain's output for some answer that every earlier one failed before. */
  lemma {:induction false} AcceptedIsFirstPassing(chain: seq<Validator>, answers: seq<Value>)
    requires Accepted(chain, answers).Some?
    ensures exists i :: (0 <= i < |answers|
      && ApplyChain(chain, answers[i]) == Success(Accepted(chain, answers).value)
      && forall j :: 0 <= j < i ==> ApplyChain(chain, answers[j]).Failure?)
    decreases |answers|
  {
    if ApplyChain(chain, answers[0]).Failure? {
      AcceptedIsFirstPassing(chain, answers[1..]);
      var i :| 0 <= i < |answers[1..]| &&
        ApplyChain(chain, answers[1..][i]) == Success(Accepted(chain, answers[1..]).value) &&
        forall j :: 0 <= j < i ==> ApplyChain(chain, answers[1..][j]).Failure?;
      assert forall j :: 1 <= j < i + 1 ==> answers[j] == answers[1..][j - 1];
      assert answers[i + 1] == answers[1..][i];
    }
  }

  /**
   * With no validators `insert` asks once instead of validating
   * (src/Plugin.php:182-188); the empty chain agrees: it takes the first
   * answer as it is.
   */
  lemma EmptyChainTakesFirstAnswer(answers: seq<Value>)
    requires |answers| > 0
    ensures Accepted([], answers) == Some(answers[0])
  {
    assert ApplyChain([], answers[0]) == Success(answers[0]);
  }
}
