/**
 * The action registry `Plugin::$actions` (src/Plugin.php:16): for every event
 * name, the priority tiers in the order their priorities were first seen,
 * each holding its descriptors in registration order. Registration only ever
 * appends.
 */
module Registry {
  import opened Wrappers
  import opened Values
  import opened Environment
  import opened Resolver

  /** One priority tier: `$actions[$event][$priority]`. */
  datatype Tier = Tier(priority: int, actions: seq<Array>)

  type Registry = map<string, seq<Tier>>

  /** A PHP array never holds the same priority key twice. */
  predicate UniquePriorities(ts: seq<Tier>) {
    forall i, j :: 0 <= i < j < |ts| ==> ts[i].priority != ts[j].priority
  }

  predicate WellFormed(reg: Registry) {
    forall e :: e in reg ==> UniquePriorities(reg[e])
  }

  function Priorities(ts: seq<Tier>): set<int> {
    set i | 0 <= i < |ts| :: ts[i].priority
  }

  /** The descriptors of the tier with priority `p`; none when there is no such tier. */
  function TierActions(ts: seq<Tier>, p: int): seq<Array> {
    if |ts| == 0 then []
    else if ts[0].priority == p then ts[0].actions
    else TierActions(ts[1..], p)
  }

  /** `$actions[$e][$p]`, empty when absent. */
  function Lookup(reg: Registry, e: string, p: int): seq<Array> {
    if e in reg then TierActions(reg[e], p) else []
  }

  /** `array_sum(array_map('count', $tiers))`. */
  function TotalActions(ts: seq<Tier>): nat {
    if |ts| == 0 then 0 else |ts[0].actions| + TotalActions(ts[1..])
  }

  lemma {:induction false} TotalActionsAppend(x: seq<Tier>, y: seq<Tier>)
    ensures TotalActions(x + y) == TotalActions(x) + TotalActions(y)
  {
    if |x| > 0 {
      assert (x + y)[1..] == x[1..] + y;
      TotalActionsAppend(x[1..], y);
    } else {
      assert x + y == y;
    }
  }

  lemma Cons(t: Tier, ts: seq<Tier>)
    ensures Priorities([t] + ts) == {t.priority} + Priorities(ts)
    ensures forall q :: TierActions([t] + ts, q) == if t.priority == q then t.actions else TierActions(ts, q)
    ensures TotalActions([t] + ts) == |t.actions| + TotalActions(ts)
  {
    var s := [t] + ts;
    assert s[0] == t && s[1..] == ts;
    forall q | q in Priorities(s) ensures q in {t.priority} + Priorities(ts) {
      var i :| 0 <= i < |s| && s[i].priority == q;
      if i > 0 { assert ts[i - 1].priority == q; }
    }
    forall q | q in Priorities(ts) ensures q in Priorities(s) {
      var i :| 0 <= i < |ts| && ts[i].priority == q;
      assert s[i + 1].priority == q;
    }
  }

  lemma UniqueCons(t: Tier, ts: seq<Tier>)
    ensures UniquePriorities([t] + ts) <==> t.priority !in Priorities(ts) && UniquePriorities(ts)
  {
    var s := [t] + ts;
    assert forall i :: 0 <= i < |ts| ==> s[i + 1] == ts[i];
    if t.priority in Priorities(ts) {
      var i :| 0 <= i < |ts| && ts[i].priority == t.priority;
      assert s[0].priority == s[i + 1].priority;
    }
    if UniquePriorities(s) {
      forall i, j | 0 <= i < j < |ts| ensures ts[i].priority != ts[j].priority {
        assert s[i + 1].priority != s[j + 1].priority;
      }
    }
    if t.priority !in Priorities(ts) && UniquePriorities(ts) {
      forall i, j | 0 <= i < j < |s| ensures s[i].priority != s[j].priority {
        assert s[j] == ts[j - 1];
        if i == 0 {
          assert ts[j - 1].priority in Priorities(ts);
        } else {
          assert s[i] == ts[i - 1];
        }
      }
    }
  }

  /** `$tiers[$p][] = $d` on the tiers of one event. */
  function AppendToTiers(ts: seq<Tier>, p: int, d: Array): seq<Tier> {
    if |ts| == 0 then [Tier(p, [d])]
    else if ts[0].priority == p then [Tier(p, ts[0].actions + [d])] + ts[1..]
    else [ts[0]] + AppendToTiers(ts[1..], p, d)
  }

  /** The descriptor lands at the end of tier `p`; no other tier changes. */
  lemma {:induction false} AppendToTiersActions(ts: seq<Tier>, p: int, d: Array, q: int)
    ensures TierActions(AppendToTiers(ts, p, d), q) == TierActions(ts, q) + (if q == p then [d] else [])
  {
    var r := AppendToTiers(ts, p, d);
    if |ts| > 0 {
      if ts[0].priority == p {
        assert r[1..] == ts[1..];
      } else {
        assert r[1..] == AppendToTiers(ts[1..], p, d);
        AppendToTiersActions(ts[1..], p, d, q);
      }
    }
  }

  /** Tier `p` is created if it was missing, priorities stay distinct, and one descriptor is added. */
  lemma {:induction false} AppendToTiersShape(ts: seq<Tier>, p: int, d: Array)
    ensures Priorities(AppendToTiers(ts, p, d)) == Priorities(ts) + {p}
    ensures UniquePriorities(ts) ==> UniquePriorities(AppendToTiers(ts, p, d))
    ensures TotalActions(AppendToTiers(ts, p, d)) == TotalActions(ts) + 1
  {
    if |ts| == 0 {
      Cons(Tier(p, [d]), []);
      UniqueCons(Tier(p, [d]), []);
      assert [Tier(p, [d])] + [] == [Tier(p, [d])];
    } else {
      var head, tail := ts[0], ts[1..];
      assert ts == [head] + tail;
      Cons(head, tail);
      UniqueCons(head, tail);
      if head.priority == p {
        var t := Tier(p, head.actions + [d]);
        Cons(t, tail);
        UniqueCons(t, tail);
      } else {
        var rest := AppendToTiers(tail, p, d);
        AppendToTiersShape(tail, p, d);
        Cons(head, rest);
        UniqueCons(head, rest);
      }
    }
  }

  /** `self::$actions[$e][$p][] = $d` (src/Plugin.php:96). */
  function Append(reg: Registry, e: string, p: int, d: Array): Registry {
    reg[e := AppendToTiers(if e in reg then reg[e] else [], p, d)]
  }

  /** Appending changes the list of `(e, p)` alone, and only by adding `d` at its end. */
  lemma AppendLookup(reg: Registry, e: string, p: int, d: Array, e': string, p': int)
    ensures Lookup(Append(reg, e, p, d), e', p') == Lookup(reg, e', p') + (if e' == e && p' == p then [d] else [])
  {
    if e' == e {
      AppendToTiersActions(if e in reg then reg[e] else [], p, d, p');
    }
  }

  /**
   * Appending puts the descriptor at the end of its own event and priority,
   * creating them if needed, and leaves every other list as it was.
   */
  lemma AppendSpec(reg: Registry, e: string, p: int, d: Array)
    ensures Lookup(Append(reg, e, p, d), e, p) == Lookup(reg, e, p) + [d]
    ensures forall e', p' :: e' != e || p' != p ==> Lookup(Append(reg, e, p, d), e', p') == Lookup(reg, e', p')
    ensures Append(reg, e, p, d).Keys == reg.Keys + {e}
    ensures WellFormed(reg) ==> WellFormed(Append(reg, e, p, d))
  {
    AppendLookup(reg, e, p, d, e, p);
    forall e', p' ensures Lookup(Append(reg, e, p, d), e', p') == Lookup(reg, e', p') + (if e' == e && p' == p then [d] else []) {
      AppendLookup(reg, e, p, d, e', p');
    }
    AppendToTiersShape(if e in reg then reg[e] else [], p, d);
  }

  /** Every registered list for `reg` is a prefix of the one in `reg'`: nothing replaced or removed. */
  ghost predicate Extends(reg: Registry, reg': Registry) {
    reg.Keys <= reg'.Keys && forall e, p :: Lookup(reg, e, p) <= Lookup(reg', e, p)
  }

  // ---------------------------------------------------------------------------
  // `krsort`: tiers in descending priority

  predicate Descending(ts: seq<Tier>) {
    forall i, j :: 0 <= i < j < |ts| ==> ts[i].priority > ts[j].priority
  }

  lemma DescendingCons(t: Tier, ts: seq<Tier>)
    requires Descending(ts) && forall q :: q in Priorities(ts) ==> q < t.priority
    ensures Descending([t] + ts)
  {
    var s := [t] + ts;
    forall i, j | 0 <= i < j < |s| ensures s[i].priority > s[j].priority {
      assert s[j] == ts[j - 1];
      assert ts[j - 1].priority in Priorities(ts);
      if i > 0 { assert s[i] == ts[i - 1]; }
    }
  }

  lemma DescendingHead(ts: seq<Tier>)
    requires Descending(ts) && |ts| > 0
    ensures Descending(ts[1..])
    ensures forall q :: q in Priorities(ts[1..]) ==> q < ts[0].priority
  {
    forall q | q in Priorities(ts[1..]) ensures q < ts[0].priority {
      var i :| 0 <= i < |ts[1..]| && ts[1..][i].priority == q;
      assert ts[i + 1].priority == q;
    }
  }

  /** A tier above the first of descending tiers can go in front. */
  lemma DescendingTop(t: Tier, ts: seq<Tier>)
    requires Descending(ts) && (|ts| == 0 || t.priority > ts[0].priority)
    ensures Descending([t] + ts)
  {
    forall q | q in Priorities(ts) ensures q < t.priority {
      var i :| 0 <= i < |ts| && ts[i].priority == q;
      assert i == 0 || ts[0].priority > ts[i].priority;
    }
    DescendingCons(t, ts);
  }

  function InsertDescending(t: Tier, ts: seq<Tier>): (r: seq<Tier>)
    requires Descending(ts) && t.priority !in Priorities(ts)
    ensures Descending(r)
    ensures Priorities(r) == Priorities(ts) + {t.priority}
    ensures |r| == |ts| + 1
  {
    if |ts| == 0 || t.priority > ts[0].priority then
      DescendingTop(t, ts);
      Cons(t, ts);
      [t] + ts
    else
      TailAdmits(t, ts);
      var rest := InsertDescending(t, ts[1..]);
      InsertBelowHead(t, ts, rest);
      [ts[0]] + rest
  }

  /** A tier that does not go in front can be inserted into the rest. */
  lemma TailAdmits(t: Tier, ts: seq<Tier>)
    requires Descending(ts) && |ts| > 0 && t.priority !in Priorities(ts)
    ensures Descending(ts[1..]) && t.priority !in Priorities(ts[1..])
  {
    assert ts == [ts[0]] + ts[1..];
    Cons(ts[0], ts[1..]);
    DescendingHead(ts);
  }

  /** The first tier, put back in front of the rest with `t` inserted. */
  lemma InsertBelowHead(t: Tier, ts: seq<Tier>, rest: seq<Tier>)
    requires Descending(ts) && |ts| > 0 && t.priority !in Priorities(ts) && t.priority <= ts[0].priority
    requires Descending(rest) && Priorities(rest) == Priorities(ts[1..]) + {t.priority}
    ensures Descending([ts[0]] + rest)
    ensures Priorities([ts[0]] + rest) == Priorities(ts) + {t.priority}
  {
    assert ts == [ts[0]] + ts[1..];
    Cons(ts[0], ts[1..]);
    DescendingHead(ts);
    assert t.priority != ts[0].priority by {
      assert ts[0].priority in Priorities(ts);
    }
    Cons(ts[0], rest);
    DescendingCons(ts[0], rest);
  }

  /** Inserting a tier keeps every other tier's descriptors and adds its own. */
  lemma {:induction false} InsertKeepsContents(t: Tier, ts: seq<Tier>)
    requires Descending(ts) && t.priority !in Priorities(ts)
    ensures forall q :: TierActions(InsertDescending(t, ts), q) ==
                        if q == t.priority then t.actions else TierActions(ts, q)
    ensures TotalActions(InsertDescending(t, ts)) == TotalActions(ts) + |t.actions|
  {
    if |ts| == 0 || t.priority > ts[0].priority {
      Cons(t, ts);
    } else {
      var head, tail := ts[0], ts[1..];
      assert ts == [head] + tail;
      Cons(head, tail);
      DescendingHead(ts);
      var rest := InsertDescending(t, tail);
      assert InsertDescending(t, ts) == [head] + rest;
      assert head.priority != t.priority by {
        assert ts[0].priority in Priorities(ts);
      }
      InsertKeepsContents(t, tail);
      Cons(head, rest);
    }
  }

  /** Inserting a tier neither loses nor duplicates any tier. */
  lemma {:induction false} InsertIsPermutation(t: Tier, ts: seq<Tier>)
    requires Descending(ts) && t.priority !in Priorities(ts)
    ensures multiset(InsertDescending(t, ts)) == multiset(ts) + multiset{t}
  {
    if |ts| > 0 && t.priority <= ts[0].priority {
      var head, tail := ts[0], ts[1..];
      assert ts == [head] + tail;
      Cons(head, tail);
      DescendingHead(ts);
      InsertIsPermutation(t, tail);
      var rest := InsertDescending(t, tail);
      assert InsertDescending(t, ts) == [head] + rest;
      assert multiset([head] + rest) == multiset{head} + multiset(rest);
      assert multiset(ts) == multiset{head} + multiset(tail);
    }
  }

  /** `krsort($tiers)`: the same tiers, highest priority first. */
  function SortDescending(ts: seq<Tier>): (r: seq<Tier>)
    requires UniquePriorities(ts)
    ensures Descending(r)
    ensures Priorities(r) == Priorities(ts)
    ensures |r| == |ts|
  {
    if |ts| == 0 then []
    else
      Cons(ts[0], ts[1..]);
      assert ts == [ts[0]] + ts[1..];
      assert ts[0].priority !in Priorities(ts[1..]);
      InsertDescending(ts[0], SortDescending(ts[1..]))
  }

  /**
   * `krsort` only reorders: the sorted tiers are a permutation of the
   * registered ones, so each priority keeps its list and the event its total.
   */
  lemma {:induction false} SortKeepsContents(ts: seq<Tier>)
    requires UniquePriorities(ts)
    ensures multiset(SortDescending(ts)) == multiset(ts)
    ensures forall q :: TierActions(SortDescending(ts), q) == TierActions(ts, q)
    ensures TotalActions(SortDescending(ts)) == TotalActions(ts)
  {
    if |ts| > 0 {
      Cons(ts[0], ts[1..]);
      assert ts == [ts[0]] + ts[1..];
      assert ts[0].priority !in Priorities(ts[1..]);
      assert UniquePriorities(ts[1..]) by {
        UniqueCons(ts[0], ts[1..]);
      }
      var sorted := SortDescending(ts[1..]);
      SortKeepsContents(ts[1..]);
      InsertKeepsContents(ts[0], sorted);
      InsertIsPermutation(ts[0], sorted);
    }
  }

  lemma {:induction false} DescendingCount(ts: seq<Tier>)
    requires Descending(ts)
    ensures |Priorities(ts)| == |ts|
  {
    if |ts| > 0 {
      Cons(ts[0], ts[1..]);
      assert ts == [ts[0]] + ts[1..];
      DescendingCount(ts[1..]);
    }
  }

  /**
   * In descending order, the tier at index `k` is the one with exactly `k`
   * higher priorities: the (k+1)-th highest.
   */
  lemma DescendingRank(ts: seq<Tier>, k: nat)
    requires Descending(ts) && k < |ts|
    ensures |set q | q in Priorities(ts) && q > ts[k].priority| == k
  {
    var higher := set q | q in Priorities(ts) && q > ts[k].priority;
    assert higher == Priorities(ts[..k]) by {
      forall q | q in higher ensures q in Priorities(ts[..k]) {
        var i :| 0 <= i < |ts| && ts[i].priority == q;
        assert ts[..k][i].priority == q;
      }
      forall q | q in Priorities(ts[..k]) ensures q in higher {
        var i :| 0 <= i < k && ts[..k][i].priority == q;
        assert ts[i].priority == q;
      }
    }
    DescendingCount(ts[..k]);
  }

  // ---------------------------------------------------------------------------
  // `getSubscribedEvents` (src/Plugin.php:45-52)

  /** A subscription `['run', $priority]`. */
  datatype Listener = Listener(handler: string, priority: int)

  function Listeners(ts: seq<Tier>): seq<Listener> {
    seq(|ts|, i requires 0 <= i < |ts| => Listener("run", ts[i].priority))
  }

  function SubscribedEvents(reg: Registry): map<string, seq<Listener>> {
    map e | e in reg && |reg[e]| > 0 :: Listeners(reg[e])
  }

  /**
   * Every tier of every event is subscribed to `run` at its own priority, once:
   * the host will call `run` for an event exactly as many times as it has tiers.
   */
  lemma SubscriptionsMatchTiers(reg: Registry)
    requires WellFormed(reg)
    ensures forall e, p :: |Lookup(reg, e, p)| > 0 ==>
      e in SubscribedEvents(reg) && Listener("run", p) in SubscribedEvents(reg)[e]
    ensures forall e :: e in SubscribedEvents(reg) ==>
      |SubscribedEvents(reg)[e]| == |Priorities(reg[e])|
    ensures forall e, l :: e in SubscribedEvents(reg) && l in SubscribedEvents(reg)[e] ==>
      l.handler == "run" && l.priority in Priorities(reg[e])
  {
    forall e, p | |Lookup(reg, e, p)| > 0
      ensures e in SubscribedEvents(reg) && Listener("run", p) in SubscribedEvents(reg)[e]
    {
      var i := TierIndex(reg[e], p);
      assert Listeners(reg[e])[i] == Listener("run", p);
    }
    forall e | e in SubscribedEvents(reg) ensures |SubscribedEvents(reg)[e]| == |Priorities(reg[e])| {
      UniqueCount(reg[e]);
    }
  }

  /** A non-empty tier of priority `p` sits at some index. */
  lemma TierIndex(ts: seq<Tier>, p: int) returns (i: nat)
    requires |TierActions(ts, p)| > 0
    ensures i < |ts| && ts[i].priority == p
  {
    if ts[0].priority == p {
      i := 0;
    } else {
      var j := TierIndex(ts[1..], p);
      i := j + 1;
    }
  }

  lemma UniqueCount(ts: seq<Tier>)
    requires UniquePriorities(ts)
    ensures |Priorities(ts)| == |ts|
  {
    DescendingCount(SortDescending(ts));
    SortKeepsContents(ts);
  }

  // ---------------------------------------------------------------------------
  // `prepare` (src/Plugin.php:81-98)

  const EventKey := StrKey("event")
  const PriorityKey := StrKey("priority")

  /** `$x ?? $default` on a looked-up value. */
  function Coalesce(o: Option<Value>, default: Value): Value {
    match o
    case Some(v) => if v.Null? then default else v
    case None => default
  }

  /** Fill in `event = 'setup'` and `priority = 0` (src/Plugin.php:91-92). */
  function WithDefaults(args: Array): Array {
    var a := Put(args, EventKey, Coalesce(Get(args, EventKey), Str("setup")));
    Put(a, PriorityKey, Coalesce(Get(a, PriorityKey), Int(0)))
  }

  /** A missing or null `event` becomes `'setup'`; a given one is kept. */
  lemma WithDefaultsEvent(args: Array)
    ensures Get(WithDefaults(args), EventKey) == Some(Coalesce(Get(args, EventKey), Str("setup")))
  {
    var ev := Coalesce(Get(args, EventKey), Str("setup"));
    var a := Put(args, EventKey, ev);
    PutGet(args, EventKey, ev, EventKey);
    PutGet(a, PriorityKey, Coalesce(Get(a, PriorityKey), Int(0)), EventKey);
  }

  /** A missing or null `priority` becomes 0; a given one is kept. */
  lemma WithDefaultsPriority(args: Array)
    ensures Get(WithDefaults(args), PriorityKey) == Some(Coalesce(Get(args, PriorityKey), Int(0)))
  {
    var ev := Coalesce(Get(args, EventKey), Str("setup"));
    var a := Put(args, EventKey, ev);
    PutGet(args, EventKey, ev, PriorityKey);
    PutGet(a, PriorityKey, Coalesce(Get(a, PriorityKey), Int(0)), PriorityKey);
  }

  /** Every argument other than `event` and `priority` is kept, and keys stay distinct. */
  lemma WithDefaultsKeeps(args: Array, k: Key)
    requires k != EventKey && k != PriorityKey
    ensures Get(WithDefaults(args), k) == Get(args, k)
    ensures DistinctKeys(args) ==> DistinctKeys(WithDefaults(args))
  {
    var ev := Coalesce(Get(args, EventKey), Str("setup"));
    var a := Put(args, EventKey, ev);
    var p := Coalesce(Get(a, PriorityKey), Int(0));
    PutGet(args, EventKey, ev, k);
    PutGet(a, PriorityKey, p, k);
    if DistinctKeys(args) {
      PutDistinct(args, EventKey, ev);
      PutDistinct(a, PriorityKey, p);
    }
  }

  /** The event and priority of a descriptor that the schema lets through. */
  function Placement(d: Array): Option<(string, int)> {
    var e, p := Get(d, EventKey), Get(d, PriorityKey);
    if e.Some? && e.value.Str? && p.Some? && p.value.Int? then Some((e.value.s, p.value.i)) else None
  }

  /** `validate`, with the schema's typing of `event` (string) and `priority` (integer). */
  function Admit(host: Host, d: Array): Option<(string, int)> {
    if host.valid(d) then Placement(d) else None
  }

  /**
   * One setup entry made into a descriptor: a callable entry is called with
   * `(key, setup, vars)`, the result cast to an array, parsed, and defaulted
   * (src/Plugin.php:87-92).
   */
  function Descriptor(host: Host, vars: Vars, setup: Array, key: Key, raw: Value): Array {
    var produced := if raw.Str? && host.isCallable(raw.s) then host.invoke(raw.s, key, setup, vars) else raw;
    WithDefaults(Parse(host, vars, ToArray(produced)))
  }

  /** How `prepare` turns an entry of the setup, given its key, into a descriptor. */
  type Describe = (Key, Value) -> Array

  function Describer(host: Host, vars: Vars, setup: Array): Describe {
    (key, raw) => Descriptor(host, vars, setup, key, raw)
  }

  /** `validate` followed by reading the descriptor's event and priority. */
  type Admission = Array -> Option<(string, int)>

  function Admitter(host: Host): Admission {
    d => Admit(host, d)
  }

  /** The registry after `prepare`, and the key of the entry whose validation threw, if one did. */
  datatype Registration = Registration(registry: Registry, rejected: Option<Key>)

  function PrepareFrom(reg: Registry, admit: Admission, describe: Describe, setup: Array, i: nat): (r: Registration)
    requires i <= |setup|
    decreases |setup| - i
  {
    if i == |setup| then Registration(reg, None)
    else
      var d := describe(setup[i].0, setup[i].1);
      var placed := admit(d);
      if placed.None? then Registration(reg, Some(setup[i].0))
      else PrepareFrom(Append(reg, placed.value.0, placed.value.1, d), admit, describe, setup, i + 1)
  }

  /** `prepare($setup)` with the store `vars`. */
  function Prepare(reg: Registry, host: Host, vars: Vars, setup: Array): Registration {
    PrepareFrom(reg, Admitter(host), Describer(host, vars, setup), setup, 0)
  }

  /** The descriptors that pass validation from entry `i` on, up to the first that does not. */
  function Admitted(admit: Admission, describe: Describe, setup: Array, i: nat): (ds: seq<Array>)
    requires i <= |setup|
    ensures i + |ds| <= |setup|
    decreases |setup| - i
  {
    if i == |setup| then []
    else
      var d := describe(setup[i].0, setup[i].1);
      if admit(d).Some? then [d] + Admitted(admit, describe, setup, i + 1) else []
  }

  /** The descriptors of `ds` that belong to event `e` at priority `p`, in order. */
  function PlacedAt(ds: seq<Array>, admit: Admission, e: string, p: int): seq<Array> {
    if |ds| == 0 then []
    else (if admit(ds[0]) == Some((e, p)) then [ds[0]] else []) + PlacedAt(ds[1..], admit, e, p)
  }

  lemma PlacedAtCons(d: Array, rest: seq<Array>, admit: Admission, e: string, p: int)
    ensures PlacedAt([d] + rest, admit, e, p) == (if admit(d) == Some((e, p)) then [d] else []) + PlacedAt(rest, admit, e, p)
  {
    assert ([d] + rest)[1..] == rest;
  }

  lemma ConcatAssoc<T>(x: seq<T>, y: seq<T>, z: seq<T>)
    ensures x + y + z == x + (y + z)
  {
  }

  /**
   * Registration appends, in order, exactly the descriptors that pass
   * validation before the first that fails, each to the end of its own
   * event and priority.
   */
  lemma {:induction false} PrepareFromLookup(reg: Registry, admit: Admission, describe: Describe, setup: Array, i: nat, e: string, p: int)
    requires i <= |setup|
    ensures Lookup(PrepareFrom(reg, admit, describe, setup, i).registry, e, p)
      == Lookup(reg, e, p) + PlacedAt(Admitted(admit, describe, setup, i), admit, e, p)
    decreases |setup| - i
  {
    if i < |setup| {
      var d := describe(setup[i].0, setup[i].1);
      var a := admit(d);
      if a.Some? {
        var next := Append(reg, a.value.0, a.value.1, d);
        assert PrepareFrom(reg, admit, describe, setup, i) == PrepareFrom(next, admit, describe, setup, i + 1);
        var here: seq<Array> := if a == Some((e, p)) then [d] else [];
        AppendLookup(reg, a.value.0, a.value.1, d, e, p);
        assert Lookup(next, e, p) == Lookup(reg, e, p) + here;
        PrepareFromLookup(next, admit, describe, setup, i + 1, e, p);
        var rest := Admitted(admit, describe, setup, i + 1);
        assert Admitted(admit, describe, setup, i) == [d] + rest;
        PlacedAtCons(d, rest, admit, e, p);
        var tail := PlacedAt(rest, admit, e, p);
        assert PlacedAt([d] + rest, admit, e, p) == here + tail;
        var before := Lookup(reg, e, p);
        ConcatAssoc(before, here, tail);
        assert Lookup(PrepareFrom(next, admit, describe, setup, i + 1).registry, e, p) == before + here + tail;
      } else {
        assert Admitted(admit, describe, setup, i) == [];
      }
    } else {
      assert Admitted(admit, describe, setup, i) == [];
    }
  }

  lemma {:induction false} PrepareFromKeys(reg: Registry, admit: Admission, describe: Describe, setup: Array, i: nat)
    requires i <= |setup|
    ensures reg.Keys <= PrepareFrom(reg, admit, describe, setup, i).registry.Keys
    decreases |setup| - i
  {
    if i < |setup| {
      var d := describe(setup[i].0, setup[i].1);
      var a := admit(d);
      if a.Some? {
        var next := Append(reg, a.value.0, a.value.1, d);
        AppendSpec(reg, a.value.0, a.value.1, d);
        PrepareFromKeys(next, admit, describe, setup, i + 1);
      }
    }
  }

  lemma {:induction false} PrepareFromWellFormed(reg: Registry, admit: Admission, describe: Describe, setup: Array, i: nat)
    requires i <= |setup| && WellFormed(reg)
    ensures WellFormed(PrepareFrom(reg, admit, describe, setup, i).registry)
    decreases |setup| - i
  {
    if i < |setup| {
      var d := describe(setup[i].0, setup[i].1);
      var a := admit(d);
      if a.Some? {
        var next := Append(reg, a.value.0, a.value.1, d);
        AppendSpec(reg, a.value.0, a.value.1, d);
        PrepareFromWellFormed(next, admit, describe, setup, i + 1);
      }
    }
  }

  /**
   * Registration stops at the first entry that fails validation and names
   * it; it completes without rejection exactly when every entry passes.
   */
  lemma {:induction false} PrepareFromRejects(reg: Registry, admit: Admission, describe: Describe, setup: Array, i: nat)
    requires i <= |setup|
    ensures var n := i + |Admitted(admit, describe, setup, i)|;
      PrepareFrom(reg, admit, describe, setup, i).rejected == if n == |setup| then None else Some(setup[n].0)
    decreases |setup| - i
  {
    if i < |setup| {
      var d := describe(setup[i].0, setup[i].1);
      var a := admit(d);
      if a.Some? {
        var next := Append(reg, a.value.0, a.value.1, d);
        assert PrepareFrom(reg, admit, describe, setup, i) == PrepareFrom(next, admit, describe, setup, i + 1);
        PrepareFromRejects(next, admit, describe, setup, i + 1);
        assert |Admitted(admit, describe, setup, i)| == 1 + |Admitted(admit, describe, setup, i + 1)|;
      } else {
        assert Admitted(admit, describe, setup, i) == [];
      }
    }
  }

  /**
   * The whole of `prepare`: every list in the registry grows by exactly the
   * admitted descriptors placed there, and earlier entries are kept even
   * when a later one is rejected.
   */
  lemma PrepareAppends(reg: Registry, host: Host, vars: Vars, setup: Array, e: string, p: int)
    ensures Lookup(Prepare(reg, host, vars, setup).registry, e, p)
      == Lookup(reg, e, p) + PlacedAt(Admitted(Admitter(host), Describer(host, vars, setup), setup, 0), Admitter(host), e, p)
  {
    PrepareFromLookup(reg, Admitter(host), Describer(host, vars, setup), setup, 0, e, p);
  }

  /**
   * The whole of `prepare`, on failure: it names the first entry the schema
   * rejects, the one after the admitted prefix, and names none exactly when
   * every entry was admitted.
   */
  lemma PrepareStops(reg: Registry, host: Host, vars: Vars, setup: Array)
    ensures var r := Prepare(reg, host, vars, setup);
      var n := |Admitted(Admitter(host), Describer(host, vars, setup), setup, 0)|;
      && (r.rejected.None? <==> n == |setup|)
      && (r.rejected.Some? ==> n < |setup| && r.rejected.value == setup[n].0)
  {
    PrepareFromRejects(reg, Admitter(host), Describer(host, vars, setup), setup, 0);
  }

  /**
   * Registration never replaces or removes a registered descriptor, and
   * keeps every event's priorities distinct.
   */
  lemma PrepareExtends(reg: Registry, host: Host, vars: Vars, setup: Array)
    ensures Extends(reg, Prepare(reg, host, vars, setup).registry)
    ensures WellFormed(reg) ==> WellFormed(Prepare(reg, host, vars, setup).registry)
  {
    var admit, describe := Admitter(host), Describer(host, vars, setup);
    if WellFormed(reg) {
      PrepareFromWellFormed(reg, admit, describe, setup, 0);
    }
    var r := Prepare(reg, host, vars, setup);
    forall e, p ensures Lookup(reg, e, p) <= Lookup(r.registry, e, p) {
      PrepareFromLookup(reg, admit, describe, setup, 0, e, p);
    }
    forall e | e in reg ensures e in r.registry {
      PrepareFromKeys(reg, admit, describe, setup, 0);
    }
  }

  /** A single entry: either rejected with the registry unchanged, or appended after its tier's existing entries. */
  lemma PrepareOne(reg: Registry, host: Host, vars: Vars, key: Key, raw: Value)
    ensures var d := Descriptor(host, vars, [(key, raw)], key, raw);
      var r := Prepare(reg, host, vars, [(key, raw)]);
      match Admit(host, d)
      case None => r == Registration(reg, Some(key))
      case Some((e, p)) => r.rejected.None? && Lookup(r.registry, e, p) == Lookup(reg, e, p) + [d]
  {
    var setup := [(key, raw)];
    var d := Descriptor(host, vars, setup, key, raw);
    match Admit(host, d)
    case None =>
    case Some((e, p)) =>
      AppendSpec(reg, e, p, d);
      assert PrepareFrom(Append(reg, e, p, d), Admitter(host), Describer(host, vars, setup), setup, 1) == Registration(Append(reg, e, p, d), None);
  }
}
