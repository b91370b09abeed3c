/**
 * PHP values as the action engine sees them: the decoded JSON of a setup
 * entry, the variable store, and ordered PHP arrays.
 *
 * A PHP array is an ordered list of (key, value) pairs; keys are integers or
 * strings. Assigning to an existing key overwrites it in place, assigning to a
 * new key appends it. A string is a sequence of bytes; here each `char` stands
 * for one byte.
 */
module Values {
  import opened Wrappers

  datatype Key = IntKey(n: int) | StrKey(name: string)

  datatype Value =
    | Null
    | Bool(b: bool)
    | Int(i: int)
    | Str(s: string)
    | Arr(entries: seq<(Key, Value)>)

  /** A PHP array of values. */
  type Array = seq<(Key, Value)>

  /** The variable store: `$this->vars`. */
  type Vars = map<string, Value>

  /** True when no key occurs twice, as in every array PHP builds. */
  predicate DistinctKeys<K(==), V>(a: seq<(K, V)>) {
    forall i, j :: 0 <= i < j < |a| ==> a[i].0 != a[j].0
  }

  /** Does key `k` occur in `a`? (`array_key_exists`) */
  predicate HasKey<K(==), V>(a: seq<(K, V)>, k: K) {
    exists i :: 0 <= i < |a| && a[i].0 == k
  }

  /** Position of the first occurrence of key `k` in `a`. */
  function IndexOf<K(==), V>(a: seq<(K, V)>, k: K): (r: Option<nat>)
    ensures r.Some? ==> r.value < |a| && a[r.value].0 == k
    ensures r.Some? ==> forall j :: 0 <= j < r.value ==> a[j].0 != k
    ensures r.None? ==> !HasKey(a, k)
  {
    if |a| == 0 then None
    else if a[0].0 == k then Some(0)
    else
      match IndexOf(a[1..], k)
      case None => None
      case Some(i) => Some(i + 1)
  }

  /** Arrays with the same keys in the same order find every key at the same place. */
  lemma IndexOfSameKeys<K, V>(a: seq<(K, V)>, b: seq<(K, V)>, k: K)
    requires |a| == |b| && forall i :: 0 <= i < |a| ==> a[i].0 == b[i].0
    ensures IndexOf(a, k) == IndexOf(b, k)
  {
    if |a| > 0 && a[0].0 != k {
      IndexOfSameKeys(a[1..], b[1..], k);
    }
  }

  /** Appending a pair with another key does not move the first occurrence of `k`. */
  lemma IndexOfAppend<K, V>(a: seq<(K, V)>, p: (K, V), k: K)
    requires p.0 != k
    ensures IndexOf(a + [p], k) == IndexOf(a, k)
  {
    if |a| > 0 && a[0].0 != k {
      assert (a + [p])[1..] == a[1..] + [p];
      IndexOfAppend(a[1..], p, k);
    }
  }

  /** `$a[$k]`: the value stored under `k`, if any. */
  function Get<K(==), V>(a: seq<(K, V)>, k: K): (r: Option<V>)
    ensures r.Some? <==> HasKey(a, k)
    ensures r.Some? ==> (k, r.value) in a
    ensures r.Some? && DistinctKeys(a) ==> forall i :: 0 <= i < |a| && a[i].0 == k ==> a[i].1 == r.value
  {
    match IndexOf(a, k)
    case None => None
    case Some(i) => Some(a[i].1)
  }

  /** `$a[$k] = $v`: overwrite in place when `k` is present, otherwise append. */
  function Put<K(==), V>(a: seq<(K, V)>, k: K, v: V): (r: seq<(K, V)>)
    ensures HasKey(a, k) ==> |r| == |a| && forall i :: 0 <= i < |a| ==> r[i].0 == a[i].0
    ensures !HasKey(a, k) ==> r == a + [(k, v)]
  {
    match IndexOf(a, k)
    case Some(i) => a[i := (k, v)]
    case None => a + [(k, v)]
  }

  /** After `$a[$k] = $v`, `k` holds `v` and every other key what it held before. */
  lemma PutGet<K, V>(a: seq<(K, V)>, k: K, v: V, k': K)
    ensures Get(Put(a, k, v), k') == if k' == k then Some(v) else Get(a, k')
  {
    var r := Put(a, k, v);
    match IndexOf(a, k)
    case Some(i) =>
      IndexOfSameKeys(a, r, k');
      if k' == k {
        assert r[i] == (k, v);
      }
    case None =>
      if k' == k {
        assert r[|a|].0 == k;
      } else {
        IndexOfAppend(a, (k, v), k');
      }
  }

  /** Assignment never makes a key occur twice. */
  lemma PutDistinct<K, V>(a: seq<(K, V)>, k: K, v: V)
    requires DistinctKeys(a)
    ensures DistinctKeys(Put(a, k, v))
  {
  }

  /** PHP truthiness: `false`, `0`, `""`, `"0"`, `[]` and `null` are falsy. */
  predicate Truthy(v: Value) {
    match v
    case Null => false
    case Bool(b) => b
    case Int(i) => i != 0
    case Str(s) => s != "" && s != "0"
    case Arr(e) => |e| > 0
  }

  /** `is_scalar`: booleans, integers and strings (floats are not modelled). */
  predicate IsScalar(v: Value) {
    v.Bool? || v.Int? || v.Str?
  }

  /**
   * `is_stringable` (src/Plugin.php:133-135): a string, or an object with
   * `__toString`. Objects are not modelled, so only strings qualify.
   */
  predicate IsStringable(v: Value) {
    v.Str?
  }

  /** The decimal digit character for `d`. */
  function Digit(d: nat): (c: char)
    requires d < 10
    ensures '0' <= c <= '9'
  {
    ('0' as int + d) as char
  }

  /** Decimal text of a natural number, as PHP prints it. */
  function NatText(n: nat): (r: string)
    ensures |r| > 0 && forall i :: 0 <= i < |r| ==> '0' <= r[i] <= '9'
    decreases n
  {
    if n < 10 then [Digit(n)] else NatText(n / 10) + [Digit(n % 10)]
  }

  /**
   * The string PHP makes of a scalar: integers in decimal, `true` as "1",
   * `false` as "".
   */
  function Text(v: Value): string
    requires IsScalar(v) || IsStringable(v)
  {
    match v
    case Str(s) => s
    case Int(i) => if i < 0 then "-" + NatText(-i) else NatText(i)
    case Bool(b) => if b then "1" else ""
  }

  /** The `(array)` cast: arrays stay, `null` becomes `[]`, anything else `[0 => v]`. */
  function ToArray(v: Value): (r: Array)
    ensures v.Arr? ==> r == v.entries
    ensures v.Null? ==> r == []
    ensures !v.Arr? && !v.Null? ==> r == [(IntKey(0), v)]
  {
    match v
    case Arr(e) => e
    case Null => []
    case _ => [(IntKey(0), v)]
  }

  /** The values of an array, in order (`array_values`). */
  function ValuesOf<K, V>(a: seq<(K, V)>): (r: seq<V>)
    ensures |r| == |a| && forall i :: 0 <= i < |a| ==> r[i] == a[i].1
  {
    if |a| == 0 then [] else [a[0].1] + ValuesOf(a[1..])
  }
}
