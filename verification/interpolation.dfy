/**
 * Placeholder interpolation (src/Plugin.php:111-118): every `{$name}` in a
 * string, where `name` matches `[a-zA-Z_\x80-\xff][a-zA-Z0-9_\x80-\xff]*`, is
 * replaced by the text of the variable `name` when that variable holds a
 * scalar or stringable value, and left as written otherwise.
 *
 * The scan is the one `preg_replace_callback` performs: leftmost match first,
 * continuing after the end of each match, so replacement text is never
 * scanned again.
 */
module Interpolation {
  import opened Wrappers
  import opened Values

  predicate IsIdentStart(c: char) {
    ('a' <= c <= 'z') || ('A' <= c <= 'Z') || c == '_' || ('\U{80}' <= c <= '\U{ff}')
  }

  predicate IsIdentChar(c: char) {
    IsIdentStart(c) || ('0' <= c <= '9')
  }

  /** A name the placeholder pattern accepts. */
  predicate IsIdent(name: string) {
    |name| > 0 && IsIdentStart(name[0]) && forall i :: 1 <= i < |name| ==> IsIdentChar(name[i])
  }

  /** The placeholder `{$name}` as written in a string. */
  function Placeholder(name: string): string {
    "{$" + name + "}"
  }

  /** `s` begins with a placeholder whose name has `n` characters. */
  predicate PlaceholderOfLength(s: string, n: nat) {
    3 + n <= |s| && s[0] == '{' && s[1] == '$' && IsIdent(s[2..2 + n]) && s[2 + n] == '}'
  }

  /** Length of the longest prefix of `s` made of identifier characters. */
  function IdentRun(s: string): (n: nat)
    ensures n <= |s|
    ensures forall i :: 0 <= i < n ==> IsIdentChar(s[i])
    ensures n < |s| ==> !IsIdentChar(s[n])
  {
    if |s| == 0 || !IsIdentChar(s[0]) then 0 else 1 + IdentRun(s[1..])
  }

  /** The run of identifier characters ends at the first character that is not one. */
  lemma {:induction false} IdentRunExact(t: string, k: nat)
    requires k < |t| && !IsIdentChar(t[k])
    requires forall i :: 0 <= i < k ==> IsIdentChar(t[i])
    ensures IdentRun(t) == k
  {
    if k > 0 {
      IdentRunExact(t[1..], k - 1);
    }
  }

  /** Does the pattern match at the start of `s`? If so, the length of the captured name. */
  function PlaceholderAt(s: string): (r: Option<nat>)
    ensures r.Some? ==> PlaceholderOfLength(s, r.value)
  {
    if 3 <= |s| && s[0] == '{' && s[1] == '$' && IsIdentStart(s[2]) then
      var n := 1 + IdentRun(s[3..]);
      if 2 + n < |s| && s[2 + n] == '}' then Some(n) else None
    else None
  }

  /** The pattern finds every placeholder that begins the string, with its whole name. */
  lemma PlaceholderAtComplete(s: string, n: nat)
    requires PlaceholderOfLength(s, n)
    ensures PlaceholderAt(s) == Some(n)
  {
    assert s[2..2 + n][0] == s[2];
    forall i | 0 <= i < n - 1 ensures IsIdentChar(s[3..][i]) {
      assert s[3..][i] == s[2..2 + n][i + 1];
    }
    IdentRunExact(s[3..], n - 1);
  }

  /** A value the placeholder may be replaced by: `is_scalar` or `is_stringable`. */
  predicate Substitutable(v: Value) {
    IsScalar(v) || IsStringable(v)
  }

  /** The replacement for the placeholder of `name`. */
  function Substitute(name: string, vars: Vars): string {
    if name in vars && Substitutable(vars[name]) then Text(vars[name]) else Placeholder(name)
  }

  function Interpolate(s: string, vars: Vars): string
    decreases |s|
  {
    if |s| == 0 then ""
    else
      match PlaceholderAt(s)
      case Some(n) => Substitute(s[2..2 + n], vars) + Interpolate(s[3 + n..], vars)
      case None => [s[0]] + Interpolate(s[1..], vars)
  }

  /** Where no placeholder begins, the first character is copied and the scan moves on by one. */
  lemma InterpolateStep(s: string, vars: Vars)
    requires |s| > 0 && PlaceholderAt(s).None?
    ensures Interpolate(s, vars) == [s[0]] + Interpolate(s[1..], vars)
  {
  }

  /** Text without an opening brace passes through unchanged and does not disturb what follows. */
  lemma {:induction false} InterpolateLiteralPrefix(p: string, q: string, vars: Vars)
    requires '{' !in p
    ensures Interpolate(p + q, vars) == p + Interpolate(q, vars)
  {
    if |p| > 0 {
      var s := p + q;
      assert s[0] == p[0] && p[0] != '{';
      assert PlaceholderAt(s) == None;
      assert s[1..] == p[1..] + q;
      calc {
        Interpolate(s, vars);
        [s[0]] + Interpolate(s[1..], vars);
        { InterpolateLiteralPrefix(p[1..], q, vars); }
        [p[0]] + (p[1..] + Interpolate(q, vars));
        { assert p == [p[0]] + p[1..]; }
        p + Interpolate(q, vars);
      }
    } else {
      assert p + q == q;
    }
  }

  /** A string without an opening brace is returned as is. */
  lemma InterpolateNoBrace(s: string, vars: Vars)
    requires '{' !in s
    ensures Interpolate(s, vars) == s
  {
    InterpolateLiteralPrefix(s, "", vars);
    assert s + "" == s;
  }

  /** A placeholder at the start of a string is replaced, and scanning resumes right after it. */
  lemma InterpolateLeadingPlaceholder(name: string, q: string, vars: Vars)
    requires IsIdent(name)
    ensures Interpolate(Placeholder(name) + q, vars) == Substitute(name, vars) + Interpolate(q, vars)
  {
    var t := Placeholder(name) + q;
    var n := |name|;
    assert t == ['{', '$'] + name + ['}'] + q;
    assert t[2..2 + n] == name;
    assert t[3 + n..] == q;
    PlaceholderAtComplete(t, n);
  }

  /**
   * A placeholder is replaced by its variable's text when the variable is
   * scalar, and kept literally when it is missing or an array; the text after
   * it is scanned on, the replacement is not.
   */
  lemma InterpolatePlaceholder(p: string, name: string, q: string, vars: Vars)
    requires '{' !in p && IsIdent(name)
    ensures Interpolate(p + Placeholder(name) + q, vars) == p + Substitute(name, vars) + Interpolate(q, vars)
  {
    var t := Placeholder(name) + q;
    var sub, rest := Substitute(name, vars), Interpolate(q, vars);
    assert p + Placeholder(name) + q == p + t;
    InterpolateLiteralPrefix(p, t, vars);
    InterpolateLeadingPlaceholder(name, q, vars);
    assert p + (sub + rest) == p + sub + rest;
  }

  /** A single placeholder between brace-free texts, naming a string variable, becomes that string. */
  lemma InterpolateOne(p: string, name: string, q: string, vars: Vars, val: string)
    requires '{' !in p && '{' !in q && IsIdent(name)
    requires name in vars && vars[name] == Str(val)
    ensures Interpolate(p + Placeholder(name) + q, vars) == p + val + q
  {
    InterpolatePlaceholder(p, name, q, vars);
    InterpolateNoBrace(q, vars);
  }

  /** The text a placeholder match covers is the placeholder of its captured name. */
  lemma PlaceholderText(s: string, n: nat)
    requires PlaceholderOfLength(s, n)
    ensures s[..3 + n] == Placeholder(s[2..2 + n])
  {
    var t := Placeholder(s[2..2 + n]);
    assert |t| == 3 + n;
    forall i | 0 <= i < 3 + n ensures s[..3 + n][i] == t[i] {
      if 2 <= i < 2 + n {
        assert t[i] == s[2..2 + n][i - 2];
      }
    }
  }

  /** One step of the scan at a placeholder match. */
  lemma InterpolateAtMatch(s: string, n: nat, vars: Vars)
    requires PlaceholderAt(s) == Some(n)
    ensures s == Placeholder(s[2..2 + n]) + s[3 + n..]
    ensures Interpolate(s, vars) == Substitute(s[2..2 + n], vars) + Interpolate(s[3 + n..], vars)
  {
    PlaceholderText(s, n);
    assert s == s[..3 + n] + s[3 + n..];
  }

  /** No variable of `vars` is substituted into a placeholder. */
  predicate Inert(vars: Vars) {
    forall name :: name in vars ==> !Substitutable(vars[name])
  }

  /** With inert variables, a matched placeholder is kept as it is. */
  lemma InertMatch(s: string, n: nat, vars: Vars)
    requires Inert(vars) && PlaceholderAt(s) == Some(n)
    requires 3 + n <= |s| && Interpolate(s[3 + n..], vars) == s[3 + n..]
    ensures Interpolate(s, vars) == s
  {
    var name := s[2..2 + n];
    InterpolateAtMatch(s, n, vars);
    assert Substitute(name, vars) == Placeholder(name);
  }

  /** Without a match, the first character is copied. */
  lemma LiteralStep(s: string, vars: Vars)
    requires |s| > 0 && PlaceholderAt(s).None? && Interpolate(s[1..], vars) == s[1..]
    ensures Interpolate(s, vars) == s
  {
    assert s == [s[0]] + s[1..];
  }

  /** With no scalar variable to substitute, interpolation leaves every string unchanged. */
  lemma {:induction false} InterpolateInert(s: string, vars: Vars)
    requires Inert(vars)
    ensures Interpolate(s, vars) == s
    decreases |s|
  {
    if |s| > 0 {
      var m := PlaceholderAt(s);
      if m.Some? {
        var n := m.value;
        InterpolateInert(s[3 + n..], vars);
        InertMatch(s, n, vars);
      } else {
        InterpolateInert(s[1..], vars);
        LiteralStep(s, vars);
      }
    }
  }

  /**
   * Replacement text is not scanned again: a variable whose value is itself
   * a placeholder is substituted by that placeholder, literally.
   */
  lemma NoRescan(x: string, y: string, vars: Vars)
    requires IsIdent(x) && x in vars && vars[x] == Str(Placeholder(y))
    ensures Interpolate(Placeholder(x), vars) == Placeholder(y)
  {
    InterpolateLeadingPlaceholder(x, "", vars);
    assert Placeholder(x) + "" == Placeholder(x);
  }
}
