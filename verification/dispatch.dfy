/**
 * The dispatch cursor `run` (src/Plugin.php:54-79). The host calls `run` once
 * per subscribed (event, priority) pair without saying which tier it means;
 * the plugin remembers the event it last saw, how many actions of that event
 * it has announced, and how many tiers it has taken. Each call takes the next
 * tier in descending priority and runs its descriptors in registration order,
 * resolving each one against the store the previous one left.
 */
module Dispatch {
  import opened Wrappers
  import opened Values
  import opened Environment
  import opened Resolver
  import opened Registry

  /** `$this->event`, `$this->action`, `$this->offset` (src/Plugin.php:18-20). */
  datatype Cursor = Cursor(event: string, action: nat, offset: nat)

  /** The cursor of a freshly constructed plugin. */
  const Initial := Cursor("setup", 0, 0)

  /** The progress line written before each action: `[index/total] Event: event Action: action`. */
  datatype Notice = Notice(index: nat, total: nat, event: string, action: Value)

  /** A handler invocation: the descriptor's `action` and the arguments resolved just before it. */
  datatype Call = Call(action: Value, args: Array)

  /** What one or more calls of `run` leave behind; `failed` when a call threw. */
  datatype Outcome = Outcome(cursor: Cursor, vars: Vars, notices: seq<Notice>, calls: seq<Call>, failed: bool)

  const ActionKey := StrKey("action")
  const VariableKey := StrKey("variable")
  const ValueKey := StrKey("value")

  /** `$args['action']`, null when absent. */
  function ActionOf(d: Array): Value {
    match Get(d, ActionKey)
    case Some(v) => v
    case None => Null
  }

  /**
   * The string a PHP array offset becomes: null is `""`, booleans are 0 and 1,
   * integers their decimal text; an array is an illegal offset and throws.
   */
  function OffsetText(v: Value): (r: Option<string>)
    ensures r.None? <==> v.Arr?
    ensures v.Str? ==> r == Some(v.s)
  {
    match v
    case Null => Some("")
    case Bool(b) => Some(if b then "1" else "0")
    case Int(_) => Some(Text(v))
    case Str(s) => Some(s)
    case Arr(_) => None
  }

  /**
   * `set` (src/Plugin.php:160-162): store `value` (null when absent) under
   * the name `variable`; None when the name is an array.
   */
  function SetVariable(args: Array, vars: Vars): (r: Option<Vars>)
    ensures r.Some? <==> (Get(args, VariableKey).None? || !Get(args, VariableKey).value.Arr?)
    ensures r.Some? && Get(args, VariableKey).Some? && Get(args, VariableKey).value.Str? ==>
      var name := Get(args, VariableKey).value.s;
      r.value.Keys == vars.Keys + {name} &&
      r.value[name] == (if Get(args, ValueKey).Some? then Get(args, ValueKey).value else Null) &&
      forall other :: other in vars && other != name ==> r.value[other] == vars[other]
  {
    var name := OffsetText(if Get(args, VariableKey).Some? then Get(args, VariableKey).value else Null);
    var value := if Get(args, ValueKey).Some? then Get(args, ValueKey).value else Null;
    if name.None? then None else Some(vars[name.value := value])
  }

  /** `$this->{$action}($args)`: `set` is modelled, every other handler is the host's. */
  function Execute(host: Host, action: Value, args: Array, vars: Vars): Option<Vars> {
    if action == Str("set") then SetVariable(args, vars)
    else if action.Str? then host.handle(action.s, args, vars)
    else None
  }

  /** The reset rule (src/Plugin.php:55-59). */
  function Enter(cur: Cursor, e: string): Cursor {
    if cur.event != e then Cursor(e, 0, 0) else cur
  }

  /**
   * What running a descriptor needs: how to resolve it against a store
   * (`parse`) and how to invoke its handler.
   */
  datatype Engine = Engine(resolve: (Vars, Array) -> Array, execute: (Value, Array, Vars) -> Option<Vars>)

  function EngineOf(host: Host): Engine {
    Engine((vars, d) => Parse(host, vars, d), (action, args, vars) => Execute(host, action, args, vars))
  }

  /** One descriptor run against `vars`: resolve it, then invoke its handler. */
  function Step(eng: Engine, vars: Vars, d: Array): Option<Vars> {
    eng.execute(ActionOf(d), eng.resolve(vars, d), vars)
  }

  /**
   * The store after the first `k` descriptors of a batch ran one after the
   * other, each seeing what the previous one left (a failed step leaves it
   * as it was).
   */
  function StoreAfter(eng: Engine, vars: Vars, batch: seq<Array>, k: nat): Vars
    requires k <= |batch|
  {
    if k == 0 then vars
    else
      var before := StoreAfter(eng, vars, batch, k - 1);
      match Step(eng, before, batch[k - 1])
      case Some(v) => v
      case None => before
  }

  /** Running the first descriptor, then the rest from the store it left, is running them all. */
  lemma {:induction false} StoreAfterCons(eng: Engine, vars: Vars, batch: seq<Array>, k: nat)
    requires k < |batch| && Step(eng, vars, batch[0]).Some?
    ensures StoreAfter(eng, vars, batch, k + 1) == StoreAfter(eng, Step(eng, vars, batch[0]).value, batch[1..], k)
  {
    if k > 0 {
      StoreAfterCons(eng, vars, batch, k - 1);
      assert batch[1..][k - 1] == batch[k];
    }
  }

  /**
   * The loop over one tier (src/Plugin.php:68-78): announce, resolve against
   * the live store, invoke; the first handler that throws ends the call.
   */
  function RunBatch(eng: Engine, cur: Cursor, vars: Vars, e: string, total: nat, batch: seq<Array>): (r: Outcome)
    ensures |r.notices| == |r.calls| <= |batch|
    ensures r.cursor == cur.(action := cur.action + |r.notices|)
    ensures !r.failed ==> |r.calls| == |batch|
    ensures r.failed ==> |r.calls| > 0
    decreases |batch|
  {
    if |batch| == 0 then Outcome(cur, vars, [], [], false)
    else
      var d := batch[0];
      var next := cur.(action := cur.action + 1);
      var notice := Notice(next.action, total, e, ActionOf(d));
      var args := eng.resolve(vars, d);
      var call := Call(ActionOf(d), args);
      var after := Step(eng, vars, d);
      if after.None? then Outcome(next, vars, [notice], [call], true)
      else
        var rest := RunBatch(eng, next, after.value, e, total, batch[1..]);
        Outcome(rest.cursor, rest.vars, [notice] + rest.notices, [call] + rest.calls, rest.failed)
  }

  /**
   * One notice per call and at most one per descriptor; the notices count on
   * from `start`, each naming `total` and the action of the descriptor at its
   * position, and the calls invoke those actions.
   */
  predicate Announced(r: Outcome, start: nat, total: nat, e: string, batch: seq<Array>) {
    && |r.notices| == |r.calls| <= |batch|
    && (forall k :: 0 <= k < |r.notices| ==> r.notices[k] == Notice(start + k + 1, total, e, ActionOf(batch[k])))
    && (forall k :: 0 <= k < |r.calls| ==> r.calls[k].action == ActionOf(batch[k]))
  }

  /**
   * Every action of the tier is announced before it runs, numbered on from
   * the cursor's counter, in registration order.
   */
  lemma {:induction false} RunBatchAnnounces(eng: Engine, cur: Cursor, vars: Vars, e: string, total: nat, batch: seq<Array>)
    ensures Announced(RunBatch(eng, cur, vars, e, total, batch), cur.action, total, e, batch)
    decreases |batch|
  {
    if |batch| > 0 {
      var after := Step(eng, vars, batch[0]);
      if after.Some? {
        var next := cur.(action := cur.action + 1);
        RunBatchAnnounces(eng, next, after.value, e, total, batch[1..]);
        var r := RunBatch(eng, cur, vars, e, total, batch);
        var rest := RunBatch(eng, next, after.value, e, total, batch[1..]);
        forall k | 1 <= k < |r.notices|
          ensures r.notices[k] == Notice(cur.action + k + 1, total, e, ActionOf(batch[k]))
          ensures r.calls[k].action == ActionOf(batch[k])
        {
          assert r.notices[k] == rest.notices[k - 1] && r.calls[k] == rest.calls[k - 1];
          assert batch[1..][k - 1] == batch[k];
        }
      }
    }
  }

  /** The store each descriptor after the first sees, through the recursive call. */
  lemma StoreAfterTail(eng: Engine, vars: Vars, batch: seq<Array>, k: nat)
    requires 1 <= k <= |batch| && Step(eng, vars, batch[0]).Some?
    ensures StoreAfter(eng, vars, batch, k) == StoreAfter(eng, Step(eng, vars, batch[0]).value, batch[1..], k - 1)
    ensures k < |batch| ==> batch[k] == batch[1..][k - 1]
  {
    StoreAfterCons(eng, vars, batch, k - 1);
  }

  /**
   * Each descriptor is resolved against the store every earlier descriptor of
   * the tier left, so a variable set by one action is visible to the next.
   */
  lemma {:induction false} RunBatchResolvesLive(eng: Engine, cur: Cursor, vars: Vars, e: string, total: nat, batch: seq<Array>)
    ensures var r := RunBatch(eng, cur, vars, e, total, batch);
      forall k :: 0 <= k < |r.calls| ==> r.calls[k].args == eng.resolve(StoreAfter(eng, vars, batch, k), batch[k])
    decreases |batch|
  {
    if |batch| > 0 {
      var after := Step(eng, vars, batch[0]);
      if after.Some? {
        var r := RunBatch(eng, cur, vars, e, total, batch);
        var next := cur.(action := cur.action + 1);
        var rest := RunBatch(eng, next, after.value, e, total, batch[1..]);
        RunBatchResolvesLive(eng, next, after.value, e, total, batch[1..]);
        forall k | 1 <= k < |r.calls|
          ensures r.calls[k].args == eng.resolve(StoreAfter(eng, vars, batch, k), batch[k])
        {
          assert r.calls[k] == rest.calls[k - 1];
          StoreAfterTail(eng, vars, batch, k);
        }
      }
    }
  }

  /**
   * Every action before the last one called succeeded; the last one failed
   * exactly when the call failed, and the store is what the successful ones
   * left.
   */
  lemma {:induction false} RunBatchStops(eng: Engine, cur: Cursor, vars: Vars, e: string, total: nat, batch: seq<Array>)
    ensures var r := RunBatch(eng, cur, vars, e, total, batch);
      && (forall k :: 0 <= k < |r.calls| ==>
            (Step(eng, StoreAfter(eng, vars, batch, k), batch[k]).None? <==> r.failed && k == |r.calls| - 1))
      && r.vars == StoreAfter(eng, vars, batch, |r.calls| - (if r.failed then 1 else 0))
    decreases |batch|
  {
    if |batch| > 0 {
      var after := Step(eng, vars, batch[0]);
      if after.Some? {
        var r := RunBatch(eng, cur, vars, e, total, batch);
        var next := cur.(action := cur.action + 1);
        var rest := RunBatch(eng, next, after.value, e, total, batch[1..]);
        RunBatchStops(eng, next, after.value, e, total, batch[1..]);
        forall k | 1 <= k < |r.calls|
          ensures Step(eng, StoreAfter(eng, vars, batch, k), batch[k]).None? <==> r.failed && k == |r.calls| - 1
        {
          StoreAfterTail(eng, vars, batch, k);
        }
        StoreAfterTail(eng, vars, batch, |r.calls| - (if r.failed then 1 else 0));
      }
    }
  }
  // ---------------------------------------------------------------------------
  // `run` itself

  /**
   * One call of `run` for event `e` (src/Plugin.php:54-79). An event nobody
   * registered makes `krsort` throw before the offset moves.
   */
  function Run(eng: Engine, reg: Registry, cur: Cursor, vars: Vars, e: string): (r: Outcome)
    requires WellFormed(reg)
    ensures r.cursor.event == e
    ensures e !in reg ==> r.failed && r.notices == [] && r.vars == vars
  {
    var c := Enter(cur, e);
    if e !in reg then Outcome(c, vars, [], [], true)
    else
      var tiers := SortDescending(reg[e]);
      var moved := c.(offset := c.offset + 1);
      if c.offset >= |tiers| then Outcome(moved, vars, [], [], false)
      else RunBatch(eng, moved, vars, e, TotalActions(reg[e]), tiers[c.offset].actions)
  }

  /** The offset `run` reads: the stored one for the same event, 0 for a new one. */
  function Resumed(cur: Cursor, e: string): nat {
    if cur.event == e then cur.offset else 0
  }

  /**
   * The cursor after `run`: a different event resets both counters, the same
   * event keeps them; the offset then moves by one, whether or not a tier is
   * left, and the action counter by one per announced action.
   */
  lemma RunCursor(eng: Engine, reg: Registry, cur: Cursor, vars: Vars, e: string)
    requires WellFormed(reg)
    ensures var r := Run(eng, reg, cur, vars, e);
      && r.cursor.event == e
      && r.cursor.offset == (if cur.event == e then cur.offset else 0) + (if e in reg then 1 else 0)
      && r.cursor.action == (if cur.event == e then cur.action else 0) + |r.notices|
  {
  }

  /**
   * Announcements count on from the cursor's action counter, one per action,
   * and always report the number of actions registered for the event.
   */
  lemma RunNotices(eng: Engine, reg: Registry, cur: Cursor, vars: Vars, e: string)
    requires WellFormed(reg) && e in reg
    ensures var r := Run(eng, reg, cur, vars, e);
      forall j :: 0 <= j < |r.notices| ==>
        r.notices[j].index == (if cur.event == e then cur.action else 0) + j + 1 &&
        r.notices[j].total == TotalActions(reg[e]) && r.notices[j].event == e
  {
    AnnouncesTier(eng, reg, cur, vars, e);
  }

  /** With a tier left at the offset, `run` is the batch runner on that tier. */
  lemma RunIsBatch(eng: Engine, reg: Registry, cur: Cursor, vars: Vars, e: string)
    requires WellFormed(reg) && e in reg && Enter(cur, e).offset < |SortDescending(reg[e])|
    ensures var c := Enter(cur, e);
      Run(eng, reg, cur, vars, e)
        == RunBatch(eng, c.(offset := c.offset + 1), vars, e, TotalActions(reg[e]), SortDescending(reg[e])[c.offset].actions)
  {
    var c := Enter(cur, e);
    var tiers := SortDescending(reg[e]);
    assert !(e !in reg) && !(c.offset >= |tiers|);
  }

  /** When a tier is left, `run` is the batch runner on it. */
  lemma AnnouncesTier(eng: Engine, reg: Registry, cur: Cursor, vars: Vars, e: string)
    requires WellFormed(reg) && e in reg
    ensures var r := Run(eng, reg, cur, vars, e);
      var k, tiers := Resumed(cur, e), SortDescending(reg[e]);
      && (k >= |tiers| ==> r.notices == [] && r.calls == [])
      && (k < |tiers| ==> Announced(r, Enter(cur, e).action, TotalActions(reg[e]), e, tiers[k].actions))
  {
    var c := Enter(cur, e);
    var tiers := SortDescending(reg[e]);
    var total := TotalActions(reg[e]);
    var moved := c.(offset := c.offset + 1);
    if c.offset < |tiers| {
      var batch := tiers[c.offset].actions;
      var r := RunBatch(eng, moved, vars, e, total, batch);
      RunIsBatch(eng, reg, cur, vars, e);
      RunBatchAnnounces(eng, moved, vars, e, total, batch);
      assert Announced(r, c.action, total, e, batch);
    } else {
      assert Run(eng, reg, cur, vars, e) == Outcome(moved, vars, [], [], false);
    }
  }

  /** The actions of `batch` were announced and called in order, all of them unless one failed. */
  predicate RanInOrder(r: Outcome, batch: seq<Array>) {
    && |r.notices| == |r.calls| <= |batch|
    && (forall j :: 0 <= j < |r.calls| ==> r.calls[j].action == ActionOf(batch[j]) && r.notices[j].action == ActionOf(batch[j]))
    && (!r.failed ==> |r.calls| == |batch|)
  }

  /**
   * The k-th call of `run` for an event (k counted from 0 since the event
   * began) runs the tier with exactly k higher priorities, its actions in
   * registration order.
   */
  lemma RunTakesKthHighestTier(eng: Engine, reg: Registry, cur: Cursor, vars: Vars, e: string)
    requires WellFormed(reg) && e in reg && Resumed(cur, e) < |reg[e]|
    ensures var r := Run(eng, reg, cur, vars, e);
      var k := Resumed(cur, e);
      exists p :: p in Priorities(reg[e]) &&
        |set q | q in Priorities(reg[e]) && q > p| == k &&
        RanInOrder(r, Lookup(reg, e, p))
  {
    var k := Resumed(cur, e);
    var tiers := SortDescending(reg[e]);
    SortKeepsContents(reg[e]);
    var t := tiers[k];
    AnnouncesTier(eng, reg, cur, vars, e);
    DescendingRank(tiers, k);
    assert t.priority in Priorities(tiers);
    TierActionsAt(tiers, k);
    assert Lookup(reg, e, t.priority) == t.actions;
  }

  /** In distinct priorities, the tier at index `k` is the one `TierActions` finds. */
  lemma {:induction false} TierActionsAt(ts: seq<Tier>, k: nat)
    requires UniquePriorities(ts) && k < |ts|
    ensures TierActions(ts, ts[k].priority) == ts[k].actions
  {
    if k > 0 {
      assert ts[0].priority != ts[k].priority;
      assert UniquePriorities(ts[1..]) by {
        forall i, j | 0 <= i < j < |ts| - 1 ensures ts[1..][i].priority != ts[1..][j].priority {
          assert ts[i + 1].priority != ts[j + 1].priority;
        }
      }
      TierActionsAt(ts[1..], k - 1);
    }
  }

  /** Once every tier of the event was taken, further calls do nothing but move the offset. */
  lemma RunPastLastTier(eng: Engine, reg: Registry, cur: Cursor, vars: Vars, e: string)
    requires WellFormed(reg) && e in reg && Resumed(cur, e) >= |Priorities(reg[e])|
    ensures Run(eng, reg, cur, vars, e) ==
      Outcome(Enter(cur, e).(offset := Resumed(cur, e) + 1), vars, [], [], false)
  {
    UniqueCount(reg[e]);
    SortKeepsContents(reg[e]);
  }

  // ---------------------------------------------------------------------------
  // A round: the host calling `run` once per subscribed tier

  /** One call of `run` for a fixed registry and event, as the host sees it. */
  type Runner = (Cursor, Vars) -> Outcome

  /** `run` for event `e`; a registry that is not well formed cannot arise and counts as a throw. */
  function RunFor(eng: Engine, reg: Registry, e: string): Runner {
    (c: Cursor, v: Vars) => if WellFormed(reg) then Run(eng, reg, c, v, e) else Outcome(c, v, [], [], true)
  }

  /** `n` successive calls of `step`, stopping at the first that throws. */
  function Repeat(step: Runner, cur: Cursor, vars: Vars, n: nat): Outcome
    decreases n
  {
    if n == 0 then Outcome(cur, vars, [], [], false)
    else
      var first := step(cur, vars);
      if first.failed then first
      else
        var rest := Repeat(step, first.cursor, first.vars, n - 1);
        Outcome(rest.cursor, rest.vars, first.notices + rest.notices, first.calls + rest.calls, rest.failed)
  }

  /** `n` successive calls of `run` for event `e`, stopping at the first that throws. */
  function Calls(eng: Engine, reg: Registry, cur: Cursor, vars: Vars, e: string, n: nat): Outcome {
    Repeat(RunFor(eng, reg, e), cur, vars, n)
  }

  lemma TotalActionsPrefix(ts: seq<Tier>, j: nat)
    requires j < |ts|
    ensures TotalActions(ts[..j + 1]) == TotalActions(ts[..j]) + |ts[j].actions|
  {
    assert ts[..j + 1] == ts[..j] + [ts[j]];
    TotalActionsAppend(ts[..j], [ts[j]]);
    assert [ts[j]][1..] == [];
  }

  /** Announcements numbered consecutively from `a + 1`. */
  predicate NumberedFrom(ns: seq<Notice>, a: nat) {
    forall m :: 0 <= m < |ns| ==> ns[m].index == a + m + 1
  }

  lemma NumberedConcat(x: seq<Notice>, y: seq<Notice>, a: nat)
    requires NumberedFrom(x, a) && NumberedFrom(y, a + |x|)
    ensures NumberedFrom(x + y, a)
  {
    forall m | 0 <= m < |x + y| ensures (x + y)[m].index == a + m + 1 {
      if m >= |x| {
        assert (x + y)[m] == y[m - |x|];
      }
    }
  }

  /** The call that takes tier `j` of the sorted tiers. */
  lemma RunAtTier(eng: Engine, reg: Registry, vars: Vars, e: string, j: nat, a: nat)
    requires WellFormed(reg) && e in reg && j < |reg[e]|
    ensures var r := Run(eng, reg, Cursor(e, a, j), vars, e);
      && NumberedFrom(r.notices, a)
      && (!r.failed ==> r.cursor == Cursor(e, a + |SortDescending(reg[e])[j].actions|, j + 1))
      && (!r.failed ==> |r.notices| == |SortDescending(reg[e])[j].actions|)
      && (!r.failed ==> CallActions(r.calls) == BatchActions(SortDescending(reg[e])[j].actions))
  {
    var batch := SortDescending(reg[e])[j].actions;
    var moved := Cursor(e, a, j + 1);
    RunAtOffset(eng, reg, vars, e, j, a);
    BatchNumbered(eng, moved, vars, e, TotalActions(reg[e]), batch);
  }

  /** On a cursor of the same event, `run` is the batch runner on the tier at the offset. */
  lemma RunAtOffset(eng: Engine, reg: Registry, vars: Vars, e: string, j: nat, a: nat)
    requires WellFormed(reg) && e in reg && j < |reg[e]|
    ensures j < |SortDescending(reg[e])|
    ensures Run(eng, reg, Cursor(e, a, j), vars, e)
      == RunBatch(eng, Cursor(e, a, j + 1), vars, e, TotalActions(reg[e]), SortDescending(reg[e])[j].actions)
  {
    var cur := Cursor(e, a, j);
    assert Enter(cur, e) == cur && cur.(offset := j + 1) == Cursor(e, a, j + 1);
    RunIsBatch(eng, reg, cur, vars, e);
  }

  /**
   * A batch numbers its announcements on from the counter it starts with
   * and, unless an action throws, calls every action of the batch in order.
   */
  lemma BatchNumbered(eng: Engine, cur: Cursor, vars: Vars, e: string, total: nat, batch: seq<Array>)
    ensures NumberedFrom(RunBatch(eng, cur, vars, e, total, batch).notices, cur.action)
    ensures var r := RunBatch(eng, cur, vars, e, total, batch);
      !r.failed ==> CallActions(r.calls) == BatchActions(batch)
  {
    RunBatchAnnounces(eng, cur, vars, e, total, batch);
  }

  /** The actions the calls invoked, in order. */
  function CallActions(calls: seq<Call>): (r: seq<Value>)
    ensures |r| == |calls|
    ensures forall i :: 0 <= i < |calls| ==> r[i] == calls[i].action
  {
    if |calls| == 0 then [] else [calls[0].action] + CallActions(calls[1..])
  }

  /** The actions of a tier's descriptors, in registration order. */
  function BatchActions(batch: seq<Array>): (r: seq<Value>)
    ensures |r| == |batch|
  {
    seq(|batch|, i requires 0 <= i < |batch| => ActionOf(batch[i]))
  }

  /** The actions of tiers `j` onwards, tier after tier. */
  function ActionsFrom(tiers: seq<Tier>, j: nat): seq<Value>
    decreases |tiers| - j
  {
    if j >= |tiers| then [] else BatchActions(tiers[j].actions) + ActionsFrom(tiers, j + 1)
  }

  lemma CallActionsConcat(x: seq<Call>, y: seq<Call>)
    ensures CallActions(x + y) == CallActions(x) + CallActions(y)
  {
    assert CallActions(x + y) == CallActions(x) + CallActions(y);
  }

  /**
   * `step`, called on a cursor that has taken `j` tiers and announced `a`
   * actions, takes tier `j`: it numbers its announcements from `a + 1` and,
   * unless it throws, calls exactly that tier's actions and moves past it.
   */
  ghost predicate TakesTier(step: Runner, e: string, tiers: seq<Tier>, j: nat, a: nat, v: Vars)
    requires j < |tiers|
  {
    var r := step(Cursor(e, a, j), v);
    && NumberedFrom(r.notices, a)
    && (!r.failed ==> r.cursor == Cursor(e, a + |tiers[j].actions|, j + 1) && |r.notices| == |tiers[j].actions|)
    && (!r.failed ==> CallActions(r.calls) == BatchActions(tiers[j].actions))
  }

  /**
   * Unless an action threw, `r` finished the round over `tiers` that had
   * taken `j` tiers and announced `a` actions: the cursor is past the last
   * tier, the rest of the actions were announced, numbered on from `a`, and
   * called tier by tier.
   */
  predicate Finished(r: Outcome, e: string, tiers: seq<Tier>, j: nat, a: nat) {
    !r.failed ==>
      && r.cursor == Cursor(e, TotalActions(tiers), |tiers|)
      && |r.notices| + a == TotalActions(tiers)
      && NumberedFrom(r.notices, a)
      && CallActions(r.calls) == ActionsFrom(tiers, j)
  }

  /** The remaining `|tiers| - j` calls of a round that has taken `j` tiers and announced `a` actions. */
  lemma {:induction false} RepeatRound(step: Runner, e: string, tiers: seq<Tier>, j: nat, a: nat, vars: Vars, n: nat)
    requires forall i: nat, b: nat, v: Vars :: i < |tiers| ==> TakesTier(step, e, tiers, i, b, v)
    requires j + n == |tiers| && a == TotalActions(tiers[..j])
    ensures Finished(Repeat(step, Cursor(e, a, j), vars, n), e, tiers, j, a)
    decreases n
  {
    if n == 0 {
      assert tiers[..j] == tiers;
      assert ActionsFrom(tiers, j) == [];
    } else {
      var first := step(Cursor(e, a, j), vars);
      assert TakesTier(step, e, tiers, j, a, vars);
      if !first.failed {
        TotalActionsPrefix(tiers, j);
        var a' := a + |tiers[j].actions|;
        RepeatRound(step, e, tiers, j + 1, a', first.vars, n - 1);
        var rest := Repeat(step, first.cursor, first.vars, n - 1);
        FinishedAfter(first, rest, e, tiers, j, a);
      }
    }
  }

  /** Taking tier `j` and then finishing the round finishes the round from tier `j`. */
  lemma FinishedAfter(first: Outcome, rest: Outcome, e: string, tiers: seq<Tier>, j: nat, a: nat)
    requires j < |tiers| && !first.failed && NumberedFrom(first.notices, a)
    requires |first.notices| == |tiers[j].actions| && CallActions(first.calls) == BatchActions(tiers[j].actions)
    requires Finished(rest, e, tiers, j + 1, a + |tiers[j].actions|)
    ensures Finished(Outcome(rest.cursor, rest.vars, first.notices + rest.notices, first.calls + rest.calls, rest.failed), e, tiers, j, a)
  {
    if !rest.failed {
      NumberedConcat(first.notices, rest.notices, a);
      CallActionsConcat(first.calls, rest.calls);
      assert ActionsFrom(tiers, j) == BatchActions(tiers[j].actions) + ActionsFrom(tiers, j + 1);
    }
  }

  /** Every call of `run` on a cursor inside the event's round takes the tier the cursor points at. */
  lemma RunTakesTiers(eng: Engine, reg: Registry, e: string)
    requires WellFormed(reg) && e in reg
    ensures var tiers := SortDescending(reg[e]);
      forall i: nat, b: nat, v: Vars :: i < |tiers| ==> TakesTier(RunFor(eng, reg, e), e, tiers, i, b, v)
  {
    var tiers := SortDescending(reg[e]);
    forall i: nat, b: nat, v | i < |tiers| ensures TakesTier(RunFor(eng, reg, e), e, tiers, i, b, v) {
      RunAtTier(eng, reg, v, e, i, b);
    }
  }

  /**
   * The remaining `n` calls of a round over the event's sorted tiers, which
   * hold the registered tiers' actions.
   */
  lemma RoundFrom(eng: Engine, reg: Registry, vars: Vars, e: string, j: nat, a: nat, n: nat)
    requires WellFormed(reg) && e in reg
    requires j + n == |reg[e]| && a == TotalActions(SortDescending(reg[e])[..j])
    ensures |SortDescending(reg[e])| == |reg[e]| && TotalActions(SortDescending(reg[e])) == TotalActions(reg[e])
    ensures Finished(Calls(eng, reg, Cursor(e, a, j), vars, e, n), e, SortDescending(reg[e]), j, a)
  {
    SortKeepsContents(reg[e]);
    var step, tiers := RunFor(eng, reg, e), SortDescending(reg[e]);
    RunTakesTiers(eng, reg, e);
    RepeatRound(step, e, tiers, j, a, vars, n);
    assert Calls(eng, reg, Cursor(e, a, j), vars, e, n) == Repeat(step, Cursor(e, a, j), vars, n);
  }

  /**
   * A full round: from a cursor that is fresh for the event, one call per
   * tier announces every registered action exactly once, numbered 1 to the
   * total, calls the actions tier by tier in descending priority and each
   * tier in registration order, leaves the counter at the total, and a
   * further call does nothing.
   */
  lemma FullRound(eng: Engine, reg: Registry, cur: Cursor, vars: Vars, e: string)
    requires WellFormed(reg) && e in reg && |reg[e]| > 0
    requires cur.event != e || (cur.action == 0 && cur.offset == 0)
    ensures var r := Calls(eng, reg, cur, vars, e, |reg[e]|);
      !r.failed ==>
        && r.cursor == Cursor(e, TotalActions(reg[e]), |reg[e]|)
        && |r.notices| == TotalActions(reg[e])
        && NumberedFrom(r.notices, 0)
        && CallActions(r.calls) == ActionsFrom(SortDescending(reg[e]), 0)
        && Run(eng, reg, r.cursor, r.vars, e) == Outcome(r.cursor.(offset := |reg[e]| + 1), r.vars, [], [], false)
  {
    assert SortDescending(reg[e])[..0] == [];
    RoundFrom(eng, reg, vars, e, 0, 0, |reg[e]|);
    CallsFromFresh(eng, reg, cur, vars, e, |reg[e]|);
    var r := Calls(eng, reg, cur, vars, e, |reg[e]|);
    if !r.failed {
      UniqueCount(reg[e]);
      RunPastLastTier(eng, reg, r.cursor, r.vars, e);
    }
  }

  /** A cursor left on another event behaves, for `e`, like a fresh one. */
  lemma CallsFromFresh(eng: Engine, reg: Registry, cur: Cursor, vars: Vars, e: string, n: nat)
    requires WellFormed(reg) && n > 0
    requires cur.event != e || (cur.action == 0 && cur.offset == 0)
    ensures Calls(eng, reg, cur, vars, e, n) == Calls(eng, reg, Cursor(e, 0, 0), vars, e, n)
  {
    assert Enter(cur, e) == Cursor(e, 0, 0);
  }

  // ---------------------------------------------------------------------------
  // Scenarios

  /**
   * A variable `set` by one action is seen by the next: once `name` holds a
   * truthy value, `"$name"` in a later descriptor resolves to that value.
   */
  lemma SetThenReference(host: Host, args: Array, vars: Vars, later: Array, key: Key, name: string, v: Value)
    requires Get(args, VariableKey) == Some(Str(name)) && Get(args, ValueKey) == Some(v) && Truthy(v)
    requires !CallableFires(host, "$" + name, key)
    ensures Execute(host, Str("set"), args, vars).Some?
    ensures ResolveLeaf(host, Execute(host, Str("set"), args, vars).value, later, key, Str("$" + name)) == v
  {
    var after := Execute(host, Str("set"), args, vars).value;
    assert after[name] == v;
    DirectReference(host, after, later, key, name);
  }

  /**
   * Two actions registered for one event at priorities 5 and 1 need two
   * calls of `run`: the first runs only the priority-5 action, the second
   * only the priority-1 action, whatever the handlers do.
   */
  lemma TwoTiersTwoCalls(eng: Engine, vars: Vars, high: Array, low: Array)
    ensures var reg := map["setup" := [Tier(5, [high]), Tier(1, [low])]];
      var first := Run(eng, reg, Initial, vars, "setup");
      var second := Run(eng, reg, first.cursor, first.vars, "setup");
      && first.cursor == Cursor("setup", 1, 1) && |first.calls| == 1 && first.calls[0].action == ActionOf(high)
      && second.cursor == Cursor("setup", 2, 2) && |second.calls| == 1 && second.calls[0].action == ActionOf(low)
  {
    var reg := map["setup" := [Tier(5, [high]), Tier(1, [low])]];
    var tiers := reg["setup"];
    var t5, t1 := Tier(5, [high]), Tier(1, [low]);
    assert WellFormed(reg);
    assert SortDescending([t1]) == InsertDescending(t1, []) == [t1];
    assert SortDescending(tiers) == InsertDescending(t5, [t1]) == tiers;
    assert TotalActions([t1]) == 1 + TotalActions([]);
    assert TotalActions(tiers) == 2;
    var first := Run(eng, reg, Initial, vars, "setup");
    assert first == RunBatch(eng, Cursor("setup", 0, 1), vars, "setup", 2, [high]);
    RunBatchAnnounces(eng, Cursor("setup", 0, 1), vars, "setup", 2, [high]);
    var second := Run(eng, reg, first.cursor, first.vars, "setup");
    assert second == RunBatch(eng, Cursor("setup", 1, 2), first.vars, "setup", 2, [low]);
    RunBatchAnnounces(eng, Cursor("setup", 1, 2), first.vars, "setup", 2, [low]);
  }
}
