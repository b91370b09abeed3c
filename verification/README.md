# Setup action engine: a Dafny model

This project models the engine inside the Composer plugin `Plugin`
(`src/Plugin.php`). The plugin runs the "setup" actions a package
declares. Under the Composer glue is a small deterministic engine:

- **Registry** (`prepare`, `getSubscribedEvents`). Each setup entry is
  produced (by a callable, when it names one) and cast to an array. It is
  resolved against the variable store and given `event = 'setup'` and
  `priority = 0` when those are missing. It is then validated and appended
  to `actions[event][priority]`. Every (event, priority) pair becomes one
  subscription of `run`.
- **Dispatch cursor** (`run`). The host calls `run` once per subscribed
  tier and does not say which tier it means. The plugin keeps
  `(event, action, offset)`:
  - an event name that differs from the stored one resets both counters;
  - each call takes the tier at `offset` in descending priority, then
    moves `offset` on;
  - each action is announced as `[action/total]` before it runs;
  - each action is resolved against the store as the earlier actions left
    it, then invoked. The first handler that throws ends the call.
- **Value resolver** (`parse` over `array_traverse`). It rewrites the
  leaves of a nested argument array. Its three cases, tried in order:
  - a callable reference is replaced by what the call returns;
  - `"$name"` is replaced by the stored value itself, when that value is
    truthy;
  - otherwise every `{$name}` placeholder is replaced by its variable's
    text.
- **Helpers**:
  - `array_combine`, which first copies a single value stored under key 0
    across every key;
  - the `set` handler;
  - the `required` validator;
  - the validator chain that `insert` builds and runs on each answer.

Registration stops at the first entry that fails validation. The entries
registered before it stay registered (src/Plugin.php:94-96).

Modules follow that structure:

| file | module | contents |
|---|---|---|
| `wrappers.dfy` | `Wrappers` | `Option`, `Result` |
| `values.dfy` | `Values` | PHP values, ordered arrays (`Get`, `Put`), truthiness, scalar text |
| `keys.dfy` | `Keys` | the array key a value becomes (integer-like strings become integers) |
| `traversal.dfy` | `Traversal` | `array_traverse`, leaves and skeleton of a nested array |
| `interpolation.dfy` | `Interpolation` | the `{$ident}` scan of `preg_replace_callback` |
| `environment.dfy` | `Environment` | what the engine cannot see: `is_callable`, `call_user_func`, the schema, other handlers |
| `resolver.dfy` | `Resolver` | `parse` and its three cases |
| `registry.dfy` | `Registry` | tiers, `krsort`, `getSubscribedEvents`, `prepare` |
| `dispatch.dfy` | `Dispatch` | the cursor, `run`, the `set` handler, rounds of calls |
| `builtins.dfy` | `Builtins` | `array_combine`, `required`, the `insert` validator chain |

Representation choices:
- A PHP array is a sequence of (key, value) pairs. Assigning to a present
  key overwrites it in place; assigning to a new key appends it.
- The registry maps each event to its tiers in insertion order. Every tier
  holds one priority and its descriptors.
- Dynamic dispatch is a `Host` record of total functions supplied by the
  caller: `is_callable`, `call_user_func`, the JSON-schema check, and
  handlers other than `set`. The dispatch lemmas go through an `Engine`
  record (resolve, execute). `EngineOf(host)` builds it from `parse` and the
  handlers.

## Model

| member | source | states |
|---|---|---|
| Values.PutGet | src/Plugin.php:151 | after `$a[$k] = $v`, `k` holds `v` and every other key holds what it held before |
| Keys.CanonicalIntText | src/Plugin.php:153 | a string becomes an integer key exactly when it is the decimal text of a 64-bit integer |
| Keys.StringKeyText | src/Plugin.php:153 | turning a string into an array key loses nothing: the key's text is the string |
| Keys.IntegerTextKey | src/Plugin.php:153 | the decimal text of a 64-bit integer becomes that integer key |
| Traversal.Traverse | src/Plugin.php:137-146 | same keys in the same order; non-array values are replaced by the callback's result for (value, key); nested arrays stay arrays of the same length |
| Traversal.TraverseIdentity | src/Plugin.php:137-146 | a callback that returns every leaf unchanged leaves the whole nested array unchanged |
| Traversal.TraverseKeepsShape | src/Plugin.php:137-146 | whatever the callback returns, every key at every depth is kept in order and every nested array stays an array of the same length |
| Traversal.TraverseVisitsLeaves | src/Plugin.php:137-146 | whatever the callback returns, the values at the input's leaf positions, depth first, are the callback applied to each original leaf with its own key |
| Traversal.TraverseKeepsSkeleton | src/Plugin.php:137-146 | when the callback turns no leaf into an array, the result has exactly the input's nesting and keys |
| Interpolation.IdentRun | src/Plugin.php:112 | the longest prefix of identifier characters: all within are identifier characters, the next is not |
| Interpolation.PlaceholderAt | src/Plugin.php:112 | a reported match is a well-formed `{$ident}` at the start of the string |
| Interpolation.PlaceholderAtComplete | src/Plugin.php:112 | every `{$ident}` that begins a string is matched, with its whole name |
| Interpolation.InterpolateStep | src/Plugin.php:111-118 | where no placeholder begins, the first character is copied and the scan goes on from the next one |
| Interpolation.InterpolateNoBrace | src/Plugin.php:111-118 | a string with no `{` comes back unchanged |
| Interpolation.InterpolateOne | src/Plugin.php:111-118 | `p{$name}q` with no `{` in `p` or `q` and `name` holding the string `x` becomes `pxq` |
| Interpolation.InterpolatePlaceholder | src/Plugin.php:111-118 | in `p{$name}q` with no `{` in `p`, the placeholder becomes its variable's text when that is scalar or a string, and stays literal otherwise; `q` is scanned on |
| Interpolation.InterpolateInert | src/Plugin.php:114-115 | with no scalar or string variable, every string comes back unchanged, placeholders included |
| Interpolation.NoRescan | src/Plugin.php:111-118 | a variable whose value is itself a placeholder is substituted by that placeholder, which is not expanded again |
| Resolver.StrPos | src/Plugin.php:105 | `strpos`: the first occurrence of the needle, or None when it never occurs |
| Resolver.CallableGuard | src/Plugin.php:105 | the callable branch is taken exactly when `::` occurs but not at position 0, the string is callable, and the key is not `validator` |
| Resolver.LeadingColonsNotCalled | src/Plugin.php:105 | a string starting with `::` is never called: `strpos` returns 0, which is falsy |
| Resolver.ValidatorNotCalled | src/Plugin.php:105 | a string under the key `validator` is never called while parsing |
| Resolver.NoColonNotCalled | src/Plugin.php:105 | a string without a colon is never called: `strpos` finds no `::` |
| Resolver.ValidatorListEntryCalled | src/Plugin.php:105 | validators given as a list reach the callback under the integer key 0, which the strict `'validator' !==` test lets through, so a callable entry is called while parsing |
| Resolver.ResolveLeaf | src/Plugin.php:102-103 | a value that is not a string is returned unchanged |
| Resolver.Parse | src/Plugin.php:100-120 | same keys in order; non-string, non-array leaves kept; nested arrays stay arrays of the same length |
| Resolver.CalledLeaf | src/Plugin.php:105-106 | when the callable branch fires, the leaf becomes the result of calling the string without its first character, with the key, the arguments and the store |
| Resolver.InterpolatedLeaf | src/Plugin.php:111-118 | a string that is neither called nor a truthy `"$name"` stays a string, interpolated |
| Resolver.PlaceholderExample | src/Plugin.php:111-118 | with `name` holding `"x"`, `"prefix{$name}suffix"` resolves to `"prefixxsuffix"` |
| Resolver.DirectReference | src/Plugin.php:108-109 | `"$name"` with a truthy variable becomes the stored value itself, with its type, even an array |
| Resolver.FalsyReferenceUnchanged | src/Plugin.php:108-118 | `"$name"` with a missing or falsy variable falls through to interpolation and comes back unchanged |
| Resolver.ParseEmptyStore | src/Plugin.php:100-120 | with an empty store and nothing callable, parsing returns its input unchanged |
| Resolver.ParseKeepsShape | src/Plugin.php:100-120 | parsing keeps every key at every depth and every nested array, and each leaf position receives the resolution of the original leaf there, with its key |
| Resolver.ParseKeepsSkeleton | src/Plugin.php:100-120 | with nothing callable and no array in the store, no leaf becomes an array, so the nesting is exactly the input's |
| Registry.AppendToTiersActions | src/Plugin.php:96 | the descriptor lands at the end of its priority's list; no other list changes |
| Registry.AppendToTiersShape | src/Plugin.php:96 | the priority is created if missing, priorities stay distinct, the event's total grows by one |
| Registry.AppendLookup | src/Plugin.php:96 | appending changes the list of its own (event, priority) alone, by adding the descriptor at its end |
| Registry.AppendSpec | src/Plugin.php:96 | as above for all pairs at once; the event becomes known; well-formedness is kept |
| Registry.InsertDescending | src/Plugin.php:62 | inserting a tier into tiers sorted by descending priority keeps them sorted and adds its priority |
| Registry.InsertKeepsContents | src/Plugin.php:62 | inserting a tier keeps every other priority's list and adds its own |
| Registry.InsertIsPermutation | src/Plugin.php:62 | inserting a tier neither loses nor duplicates one |
| Registry.SortDescending | src/Plugin.php:62 | `krsort`: tiers in strictly descending priority, with the same priorities and the same number of tiers |
| Registry.SortKeepsContents | src/Plugin.php:62 | `krsort` is a permutation: every priority keeps its list and the event keeps its total |
| Registry.DescendingRank | src/Plugin.php:62-64 | in descending order the tier at index k is the one with exactly k higher priorities |
| Registry.SubscriptionsMatchTiers | src/Plugin.php:45-52 | every registered tier is subscribed to `run` at its own priority, once per tier, and nothing else is subscribed |
| Registry.WithDefaultsEvent | src/Plugin.php:91 | a missing or null `event` becomes `'setup'`; a given one is kept |
| Registry.WithDefaultsPriority | src/Plugin.php:92 | a missing or null `priority` becomes 0; a given one is kept |
| Registry.WithDefaultsKeeps | src/Plugin.php:91-92 | every other argument keeps its value, and keys stay distinct |
| Registry.PrepareFromLookup | src/Plugin.php:86-97 | each list grows by exactly the descriptors admitted before the first rejection that belong to it, in order |
| Registry.PrepareFromRejects | src/Plugin.php:94 | registration stops at the first entry that fails validation and names it; none is named exactly when all pass |
| Registry.PrepareAppends | src/Plugin.php:81-98 | `prepare` as a whole: admitted descriptors are appended in order, earlier entries stay when a later one is rejected |
| Registry.PrepareStops | src/Plugin.php:86-97 | `prepare` as a whole names the first rejected entry, the one right after the admitted ones, and names none exactly when all were admitted |
| Registry.PrepareExtends | src/Plugin.php:96 | registration never replaces or removes a descriptor and keeps priorities distinct |
| Registry.PrepareOne | src/Plugin.php:86-96 | a single entry is either rejected with the registry unchanged or appended after its tier's existing entries |
| Dispatch.OffsetText | src/Plugin.php:161 | a variable name that is an array is an illegal offset; a string name is used as is |
| Dispatch.SetVariable | src/Plugin.php:160-162 | `set` stores `value` (null when absent) under `variable` and keeps every other variable; it fails only for an array name |
| Dispatch.RunBatch | src/Plugin.php:68-78 | one call per announcement, at most one per descriptor; the counter moves by one per announcement; all run unless one threw |
| Dispatch.RunBatchAnnounces | src/Plugin.php:69-77 | announcements are numbered on from the counter, carry the event's total, and name the descriptors' actions in registration order |
| Dispatch.RunBatchResolvesLive | src/Plugin.php:77 | each descriptor is resolved against the store the earlier descriptors of the tier left |
| Dispatch.RunBatchStops | src/Plugin.php:68-78 | every handler before the last one called succeeded; the last one threw exactly when the call failed; the store is what the successful ones left |
| Dispatch.Run | src/Plugin.php:54-79 | the stored event becomes the called one; an unregistered event throws before anything runs or the store changes |
| Dispatch.RunCursor | src/Plugin.php:55-64 | a new event resets `action` and `offset` to 0, the same event keeps them; `offset` then moves by one and `action` by one per announced action |
| Dispatch.RunNotices | src/Plugin.php:69-75 | announcements count on from the (possibly reset) counter and report the total number of actions of the event |
| Dispatch.AnnouncesTier | src/Plugin.php:61-78 | with a tier left at `offset`, `run` runs that tier of the sorted tiers; with none left it announces and calls nothing |
| Dispatch.RunTakesKthHighestTier | src/Plugin.php:61-78 | the k-th call for an event runs the tier with exactly k higher priorities, its actions in registration order |
| Dispatch.RunPastLastTier | src/Plugin.php:64-67 | once every tier was taken, a call only moves `offset` on |
| Dispatch.RunAtTier | src/Plugin.php:61-78 | the call at tier j numbers its announcements on from the counter, calls exactly tier j's actions in registration order, and moves past tier j |
| Dispatch.BatchNumbered | src/Plugin.php:68-78 | a tier's announcements are numbered on from the counter and, unless one throws, its actions are called in registration order |
| Dispatch.RepeatRound | src/Plugin.php:54-79 | repeated calls that each take the next tier end, unless one throws, with the counter at the total, the offset past the last tier, and the remaining tiers' actions called tier by tier |
| Dispatch.RunTakesTiers | src/Plugin.php:61-78 | every call on a cursor inside the round takes the tier the cursor points at |
| Dispatch.RoundFrom | src/Plugin.php:54-79 | the remaining calls of a round announce the remaining actions, numbered on, call the remaining tiers' actions in order, and end at the total |
| Dispatch.FullRound | src/Plugin.php:54-79 | from a fresh cursor, one call per tier announces every action once, numbered 1 to the total, and calls the actions tier by tier in descending priority, each tier in registration order; a further call does nothing |
| Dispatch.CallsFromFresh | src/Plugin.php:55-59 | a cursor left on another event behaves like a fresh one |
| Dispatch.SetThenReference | src/Plugin.php:160-162 | after `set name = v` with truthy `v`, `"$name"` in a later descriptor resolves to `v` |
| Dispatch.TwoTiersTwoCalls | src/Plugin.php:54-79 | two actions at priorities 5 and 1 need two calls: the first runs only the priority-5 action, the second only the priority-1 action |
| Builtins.Numbered | src/Plugin.php:150-151 | the run of integer keys c to n-1 has n-c entries |
| Builtins.FillAppends | src/Plugin.php:150-151 | copying under keys the array lacks appends them in order |
| Builtins.FillOverwritesOne | src/Plugin.php:150-151 | copying over one key the array already has leaves it one entry short |
| Builtins.BroadcastLength | src/Plugin.php:149-151 | a list of length other than 1 is passed as is; a single value becomes one per key, one fewer when it sits under an integer key from 1 to n-1 |
| Builtins.BroadcastSingle | src/Plugin.php:149-151 | a single value under key 0 becomes one copy per key, numbered from 0 |
| Builtins.ArrayCombineDefined | src/Plugin.php:148-154 | when the call returns an array rather than throwing a ValueError for unequal counts |
| Builtins.PairsGet | src/Plugin.php:153 | a key not repeated later in the key list holds the value at its position |
| Builtins.PairsKeys | src/Plugin.php:153 | the result holds exactly the keys of the key list |
| Builtins.PairsPositional | src/Plugin.php:153 | with keys that stay distinct, the i-th entry pairs the i-th key with the i-th value |
| Builtins.PairsConstant | src/Plugin.php:153 | when every value is the same, every key maps to it |
| Builtins.ArrayCombineBroadcasts | src/Plugin.php:148-154 | with exactly one value, under key 0, every key is paired with it and there are no other keys |
| Builtins.NumberedAt | src/Plugin.php:150-151 | the i-th copy sits under key c + i |
| Builtins.ArrayCombinePairs | src/Plugin.php:148-154 | with as many values as keys, each key holds its value, the last one when a key repeats |
| Builtins.ArrayCombineZips | src/Plugin.php:148-154 | with as many values as keys and distinct keys, the result is the two lists zipped |
| Builtins.Required | src/Plugin.php:164-167 | null is refused; any other value passes unchanged |
| Builtins.ApplyChainAppend | src/Plugin.php:183-187 | running two chains one after the other is running their concatenation |
| Builtins.ApplyChainInOrder | src/Plugin.php:183-187 | validators apply in the declared order: `[v1, v2]` yields `v2(v1(x))`, and a throw in `v1` stops the chain |
| Builtins.RequiredGuardsChain | src/Plugin.php:175-176 | with `required` in front, null is refused before any other validator sees it |
| Builtins.InsertChainEmpty | src/Plugin.php:172-188 | the chain is empty, so the plain prompt is used, exactly when `required` is unset or falsy and `validator` is unset, null or an empty array |
| Builtins.InsertSingleValidator | src/Plugin.php:173-180 | a single validator string is cast to a one-entry list: the chain is that function alone, or the build reports it when it is not callable |
| Builtins.BuildChainSucceeds | src/Plugin.php:178-180 | the chain is built exactly when every entry is callable, and holds each entry's validator in order |
| Builtins.BuildChainReportsFirst | src/Plugin.php:178-180 | a failed build names the first entry that is not callable |
| Builtins.InsertRequiredFirst | src/Plugin.php:172-187 | with `required` set, every answer passes `required` before the given validators |
| Builtins.AcceptedIsFirstPassing | src/Plugin.php:182-187 | the stored answer is the chain's output for the first answer it accepts |
| Builtins.EmptyChainTakesFirstAnswer | src/Plugin.php:182-188 | with no validators the first answer is stored as it is, as the plain prompt does |

## Left out

- Composer activation, autoloading and the IO and filesystem setup (src/Plugin.php:28-43). They are glue around the engine.
- A callable `$setup` as a whole (src/Plugin.php:82-84). The setup is taken as the array it yields.
- Objects. `is_stringable` is true only for strings here, and `__toString` objects are not modelled.
- Floats. No value is a float.
- The JSON-schema check (`validate`, src/Plugin.php:122-131). It reads `res/schema.json` and calls an external library. It is the `Host.valid` predicate. A descriptor it accepts is taken to have a string `event` and an integer `priority`, as the schema requires.
- `is_callable` and `call_user_func` (src/Plugin.php:87-88, 105-106). PHP dynamic dispatch is modelled as the host functions `isCallable` and `invoke`.
- `Builtins.Binding` stands in the same way for validator entries. Array-form callables are therefore only as callable as that oracle says.
- Handlers other than `set`: `write`, the prompts, the filesystem handlers and `replace` (src/Plugin.php:156-158, 169-299). They are console and filesystem I/O. A handler is `Host.handle`, returning the store it leaves or None when it throws.
- For `insert`, only the validator list, the callable check, the chain and the re-asking are modelled. The prompt text and the default answer are left out.
- The console line each action writes is modelled as a `Notice` (index, total, event, action), not as formatted text.
- The static `$actions` shared by every instance. A single registry value is passed explicitly instead.
- The event and priority of a registry entry are used as given. PHP would turn an integer-like event name into an integer key.
- Variables are a map from names to values. PHP's conversion of integer-like names to integer keys is the same for every store and lookup, so it does not change what a name finds.
- Warnings. Reading an undefined array key gives null, as PHP does. A host that turns warnings into exceptions is not modelled.
- Interpolation fails only on a PCRE engine error (backtracking limits). That is not modelled.
- The 64-bit width of `action` and `offset`. They are unbounded counters here. No realistic setup reaches 2^63 actions.
- `krsort` is modelled as an insertion sort. Only its result is used: the same tiers in descending priority.
- Dispatch.Run: states only the event and the unregistered-event failure. Everything else about one call is stated by RunCursor, AnnouncesTier, RunTakesKthHighestTier and RunPastLastTier.
- Resolver.ResolveLeaf: states only that non-strings pass through. Each string case has its own lemma: CalledLeaf, DirectReference, InterpolatedLeaf, with CallableGuard for when the call is made.
- `call_user_func` on a string that is not callable throws in PHP. `Host.invoke` is total; the resolver only calls it when `isCallable` holds.
- A setup entry that is an array-form callable (`[class, method]`) is called by PHP (src/Plugin.php:87-88). `Registry.Descriptor` calls only string entries and takes an array entry as the arguments themselves.
- PHP method names are case-insensitive, so an action `"Set"` runs `set`. The model routes only `"set"` to `SetVariable`; other spellings go to `Host.handle`.
