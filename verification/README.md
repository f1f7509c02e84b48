# Red-dot engine: a Dafny model

This project models `_RedDotSystem`, the red-dot ("attention badge") engine in
`assets/Scripts/RedDotSystem.ts`, and proves properties of it.

The engine keeps two registries:

- a **node registry**: red-dot nodes keyed by string, each with a parent, a child set, an
  on/off flag, a count and the UI nodes it is shown on;
- an **event registry**: for each key, a list of check functions, each bound to a target.

A one-second timer runs `_doEventCheck`. That call re-checks every key that has events,
propagating on/off changes up the parent chain, and then runs `RefreshAll`. `RefreshAll`
gives a badge to every UI node of an on-node, taking it from a pool or instantiating it, and
returns the badges of off-nodes to the pool.

## Modules

| file | module | what it holds |
|---|---|---|
| `outcomes.dfy` | `Outcomes` | `Option`, `Result`, and the two JavaScript errors the engine can raise: `TypeError` and stack-overflow `RangeError` |
| `ordered_map.dfy` | `OrderedMaps` | a JavaScript `Map` as an insertion-ordered key list plus a map |
| `model.dfy` | `RedDotModel` | nodes, events, bindings, the badge pool, the engine invariant `Wf`, and the badge bookkeeping lemmas |
| `priority_tree.dfy` | `PriorityTree` | the scratch slot tree `initRedDotTree` builds from priority paths, and a reference definition of slot ownership |
| `tree_build.dfy` | `TreeBuild` | `initRedDotTree`: registration and the depth-first linking walk |
| `node_registry.dfy` | `NodeRegistry` | `AddRedDotNode`, `RegisterNode`, `UnRegisterNode`, `setRedDotCount` |
| `event_registry.dfy` | `EventRegistry` | `RegisterEvent`, `UnRegisterEvent`, `UnRegisterEventByTarget` |
| `state_check.dfy` | `StateCheck` | `doEventStateCheck` and the re-check loop of `_doEventCheck` |
| `refresh.dfy` | `Refresh` | `refreshRedDot`, `recoverUINode`, `refreshRedDotCount`, `RefreshAll` |
| `engine.dfy` | `Engine` | `_doEventCheck` as one tick, and the theorems about a whole tick |

## How the model represents the engine

- **Engine state.** The state is an immutable `System(nodes, events, pool)`. Each operation is
  a function from the old state to a `Reply(value, newState)`.
- **Exceptions.** An operation that can throw returns `Result`, whose `Err` names the
  JavaScript error. The tick returns a `Run`, which records the error that cut it short,
  together with the changes already made.
- **Object references.** Node references are stored as registry keys. A node's `parent` and
  `children` are keys, and `children` is a duplicate-free sequence in insertion order, as a
  `Set` iterates.
- **Configuration order.** The configuration is a sequence of (key, priority path) entries.
  Its order is the order in which `for (const key in data)` (line 90) enumerates the
  configuration object. That is not the textual order: integer-like keys such as `"9"` come
  first, in ascending numeric order, and the other keys follow in insertion order. Slot
  ownership (`PriorityTree.ScratchOwner`), registration order and `Layered` all refer to this
  enumeration order.
- **Opaque objects.** UI nodes, event targets, check functions and badges are opaque
  identities (`nat`). A UI node is therefore never null or undefined; see "## Left out".
- **Check functions.** These are a parameter `probe: (Func, Target) -> int`. A result is
  truthy when it is not 0.
- **Badge pool.** The pool is a stack of free badges plus a counter of badges instantiated so
  far. `cc.instantiate` mints the next handle. `put` ignores a badge that is already free, as
  `cc.NodePool.put` does.
- **Invariant.** The engine invariant `Wf` has these parts:
  - both maps are well formed;
  - every parent is registered no later than its child;
  - every child is registered no earlier than its parent;
  - a UI node is attached to a red dot at most once;
  - no badge is held twice, or held and free at once.

  The tree builder establishes `Wf` (`InitWf`), and every operation preserves it (the `…Wf`
  lemmas). So the `Wf` precondition on the other members only says that the engine is in a
  reachable state.
- **Linked.** `Linked` is the stronger link property that `AddRedDotNode` preserves and that
  the tree builder establishes on layered configurations: a node that lists a child is named
  as that child's parent.

## Behaviour worth knowing

- **Self-parent nodes.** The tree builder makes an entry its own parent and its own child when
  its path skips a level, e.g. `1` and `1.1.1` with no `1.1` (`TreeBuild.InitSelfParent`).
  - `doEventStateCheck` then recurses into the node itself, once.
  - A change never reaches the node that lists the self-parent as a child
    (`Engine.SelfParentStaysStale`).
  - So the repair theorems assume `Linked`, which holds for every layered configuration.
- **The count pass always returns 0.** `refreshRedDotCount` never adds a node's own count,
  and a leaf returns 0, so the result is 0 everywhere and the label write never happens
  (`Refresh.RefreshCount`).
  - When a node with a positive count is its own child, the pass recurses forever and
    overflows the stack (`Refresh.RefreshCountFails`).
- **Counts are not clamped.** `setRedDotCount` stores the count as given; negative values are
  kept.
- **Check results are truthiness tests.** The engine tests check results for truthiness with
  `some`; it does not sum them.
- **Unregistering without a key.** `UnRegisterEvent` without a key looks only at the first
  list of the event registry, and `UnRegisterEventByTarget` throws on any non-empty list
  (see Findings).

## Model

| member | source | states |
|---|---|---|
| PriorityTree.InsertOwner | assets/Scripts/RedDotSystem.ts:99-110 | one entry's walk keeps every existing slot and its owner, creates exactly the missing slots on its path, and tags each with the walking key |
| PriorityTree.ScratchOwner | assets/Scripts/RedDotSystem.ts:90-110 | after all walks, a slot exists at a path exactly when some entry's path extends it, and it belongs to the first such entry in configuration order: a slot is never retagged |
| TreeBuild.InitRedDotTree | assets/Scripts/RedDotSystem.ts:83-164 | every configuration key is registered exactly once, in configuration order, off, with count 0 and no UI node; the event registry and the pool are untouched |
| TreeBuild.InitParent | assets/Scripts/RedDotSystem.ts:132-160 | a key's parent is none when an earlier entry already took the slot at its path, none at depth one, and otherwise the owner of the slot one level up |
| TreeBuild.InitChildren | assets/Scripts/RedDotSystem.ts:144-153 | a key lists `c` as a child exactly when `c` owns a child slot of some slot the key owns |
| TreeBuild.InitWf | assets/Scripts/RedDotSystem.ts:83-164 | the built tree satisfies the engine invariant |
| TreeBuild.InitLayered | assets/Scripts/RedDotSystem.ts:132-160 | when every proper prefix of a path belongs to an earlier entry, a first-owner entry's parent is the entry whose path is its own minus the last segment (none at depth one), and its children are exactly the first owners of its paths one segment longer |
| TreeBuild.InitLinked | assets/Scripts/RedDotSystem.ts:142-152 | in a layered configuration every listed child names its lister as parent |
| TreeBuild.InitSelfParent | assets/Scripts/RedDotSystem.ts:99-152 | an entry whose walk creates a slot above its last segment ends up as its own parent and its own child |
| NodeRegistry.AddRedDotNode | assets/Scripts/RedDotSystem.ts:181-206 | an existing key answers false and changes nothing; a new key under a registered parent answers true, adds an off leaf under that parent, appends it to the parent's child set and registration order, and changes nothing else; a new key without a registered parent throws `TypeError` |
| NodeRegistry.AddRootFails | assets/Scripts/RedDotSystem.ts:181-206 | with the default parent the call always throws, while the corrected version registers a root |
| NodeRegistry.AddRedDotNodeIntended | assets/Scripts/RedDotSystem.ts:181-206 | the corrected call fails only for a named but unregistered parent, and otherwise adds the node under the named parent, or as a root when none is named |
| NodeRegistry.AddAgrees | assets/Scripts/RedDotSystem.ts:181-206 | wherever the call as written succeeds, the corrected call gives the same result |
| NodeRegistry.AddRedDotNodeWf | assets/Scripts/RedDotSystem.ts:181-206 | adding a node preserves the engine invariant |
| NodeRegistry.AddRedDotNodeLinked | assets/Scripts/RedDotSystem.ts:188-200 | adding a node keeps every listed child naming its lister as parent |
| NodeRegistry.RegisterNode | assets/Scripts/RedDotSystem.ts:353-379 | an unknown key throws; a UI node already attached answers false and changes nothing; otherwise the UI node is appended without a badge, the answer is true, and nothing else changes; afterwards the UI node is attached |
| NodeRegistry.UnRegisterNode | assets/Scripts/RedDotSystem.ts:382-403 | answers true exactly when the key is registered and the UI node attached; then only the first binding of that UI node is removed, the others keep their order, and its badge goes back to the pool; otherwise nothing changes |
| NodeRegistry.RegisterThenUnregister | assets/Scripts/RedDotSystem.ts:353-403 | detaching a UI node right after attaching it restores the engine exactly and answers true |
| NodeRegistry.UnRegisterNodeUnbinds | assets/Scripts/RedDotSystem.ts:382-403 | after detaching, the UI node is no longer attached to that red dot |
| NodeRegistry.RegisterNodeWf | assets/Scripts/RedDotSystem.ts:353-379 | attaching preserves the engine invariant |
| NodeRegistry.UnRegisterNodeWf | assets/Scripts/RedDotSystem.ts:382-403 | detaching preserves the engine invariant, including badge uniqueness after the badge returns to the pool |
| NodeRegistry.SetRedDotCount | assets/Scripts/RedDotSystem.ts:405-414 | answers true exactly for a registered key, whose count becomes the given value unclamped; no other field or node changes, and an unknown key changes nothing |
| NodeRegistry.SetRedDotCountTwice | assets/Scripts/RedDotSystem.ts:405-414 | a second count overrides the first: setting twice equals setting the last value once |
| NodeRegistry.SetRedDotCountWf | assets/Scripts/RedDotSystem.ts:405-414 | setting a count preserves the engine invariant |
| EventRegistry.RegisterEvent | assets/Scripts/RedDotSystem.ts:209-239 | answers the fresh id exactly when a function is given and no event of the key's list applies it to the same target; then the list (created last in map order if absent) grows by exactly that event at its end and every other list is untouched; otherwise nothing changes |
| EventRegistry.RegisterEventDistinct | assets/Scripts/RedDotSystem.ts:224-232 | no list ever holds two events with the same function and target |
| EventRegistry.RegisterEventWf | assets/Scripts/RedDotSystem.ts:209-239 | registering preserves the engine invariant |
| EventRegistry.UnRegisterEvent | assets/Scripts/RedDotSystem.ts:246-289 | with a key: false exactly when the key has no list, otherwise the first event with the id is removed from that list alone and the rest keep their order; without a key: false exactly on an empty registry, otherwise only the first list in map order is searched |
| EventRegistry.RegisterThenUnregister | assets/Scripts/RedDotSystem.ts:209-289 | unregistering a just-registered event by its id and key answers true and restores the registry, up to an empty list left for a key that had none |
| EventRegistry.UnRegisterEventWf | assets/Scripts/RedDotSystem.ts:246-289 | unregistering preserves the engine invariant |
| EventRegistry.UnRegisterEventMissesLaterLists | assets/Scripts/RedDotSystem.ts:247-266 | an event in the second list survives an unregistration without a key that answers true, while the corrected version removes it |
| EventRegistry.UnRegisterEventIntended | assets/Scripts/RedDotSystem.ts:241-289 | the corrected call agrees with the original when a key is given, and without a key removes the first event with the id from every list |
| EventRegistry.IntendedRemovesEverywhere | assets/Scripts/RedDotSystem.ts:241-289 | when ids are unique within each list, no event with the id is left anywhere after the corrected call |
| EventRegistry.UnRegisterEventByTarget | assets/Scripts/RedDotSystem.ts:297-346 | throws `TypeError` exactly when some list in scope is non-empty; otherwise answers false and changes nothing, so no event is ever removed |
| EventRegistry.UnRegisterEventByTargetThrows | assets/Scripts/RedDotSystem.ts:308-311 | a one-event list makes the call throw with and without a key, while the corrected version removes the event |
| EventRegistry.UnRegisterEventByTargetIntended | assets/Scripts/RedDotSystem.ts:297-346 | the corrected call answers true exactly when some list in scope holds an event for the target, removes exactly those events from the lists in scope, keeps the order of the rest, and touches no other list |
| EventRegistry.IntendedDropsTarget | assets/Scripts/RedDotSystem.ts:297-346 | after the corrected call no list in scope holds an event for the target |
| EventRegistry.RegisterThenDropTarget | assets/Scripts/RedDotSystem.ts:209-346 | a just-registered event is found and removed by the corrected call on its target and key |
| EventRegistry.UnRegisterEventByTargetIntendedWf | assets/Scripts/RedDotSystem.ts:297-346 | the corrected call preserves the engine invariant |
| StateCheck.DoEventStateCheck | assets/Scripts/RedDotSystem.ts:417-455 | an unregistered key throws `TypeError`; otherwise the answer and the node's new flag are "some check of the key is truthy or some child is on", only on/off flags change, and only the node and its ancestors change |
| StateCheck.CheckRepairs | assets/Scripts/RedDotSystem.ts:417-455 | when listed children name their parents, a check leaves its node consistent with its checks and children, and leaves every node that was consistent still consistent |
| StateCheck.CheckEach | assets/Scripts/RedDotSystem.ts:166-170 | the re-check loop throws `TypeError` exactly when some key with events names no red dot, changes only on/off flags, and preserves the engine invariant |
| StateCheck.EventCheckRestores | assets/Scripts/RedDotSystem.ts:166-170 | when every node was consistent under the previous check results and every key with events names a red dot, and every listed child names its lister as parent, the loop ends with every node consistent under the new results |
| Refresh.Show | assets/Scripts/RedDotSystem.ts:465-473 | a UI node showing a badge keeps it and the pool; one without a badge takes the top free badge, or a newly minted one when the pool is empty |
| Refresh.ShowAll | assets/Scripts/RedDotSystem.ts:464-483 | every UI node of an on-node ends with a badge, those that had one keep it, and the badges held plus free grow by exactly the newly minted ones |
| Refresh.Hide | assets/Scripts/RedDotSystem.ts:519-527 | a UI node loses its badge, and the badge goes back to the pool |
| Refresh.HideAll | assets/Scripts/RedDotSystem.ts:485-488 | every UI node of an off-node ends without a badge, nothing is minted, and when badges are unique the pool gains exactly the badges that were held |
| Refresh.RefreshRedDot | assets/Scripts/RedDotSystem.ts:458-490 | refreshing one red dot changes only its UI nodes' badges and the pool, preserves the invariant, shows or hides as the state says, and touches no other node |
| Refresh.RefreshSettled | assets/Scripts/RedDotSystem.ts:458-490 | refreshing a red dot whose UI nodes already match its state performs no pool get or put and changes nothing |
| Refresh.RefreshCount | assets/Scripts/RedDotSystem.ts:497-517 | the count pass returns 0 whenever it returns, and otherwise fails with a stack overflow |
| Refresh.RefreshCountFails | assets/Scripts/RedDotSystem.ts:497-517 | the count pass overflows exactly when a chain of nodes with positive counts leads to a node with a positive count that is its own child |
| Refresh.RefreshFrom | assets/Scripts/RedDotSystem.ts:541-549 | the refresh loop changes only badges and the pool, preserves the invariant, leaves red dots it has not reached untouched, and, over non-null UI nodes, can only fail with a stack overflow |
| Refresh.RefreshAll | assets/Scripts/RedDotSystem.ts:530-550 | a full refresh changes only badges and the pool, preserves the invariant, and, over non-null UI nodes, can only fail with a stack overflow |
| Refresh.RefreshAllSettles | assets/Scripts/RedDotSystem.ts:530-550 | a full refresh completes exactly when no count pass diverges, and then every UI node of an on-node holds a badge and no UI node of an off-node does |
| Refresh.RefreshAllIdempotent | assets/Scripts/RedDotSystem.ts:530-550 | a second full refresh right after a complete one changes nothing, so it performs no pool get or put |
| Engine.DoEventCheck | assets/Scripts/RedDotSystem.ts:166-173 | one tick preserves the invariant, the event registry, every link and every count; it throws `TypeError` exactly when some key with events names no red dot, throws `RangeError` exactly when otherwise some count pass diverges, and completes otherwise, over non-null UI nodes |
| Engine.TickRestores | assets/Scripts/RedDotSystem.ts:166-173 | from a linked, consistent engine without dangling keys or diverging count passes, a tick completes, and every red dot is consistent with the new check results and settled |
| Engine.CheckIdle | assets/Scripts/RedDotSystem.ts:447-454 | checking a red dot that is already consistent stores the flag it already has and, since the flag did not flip, does not re-check its parent: the engine is unchanged |
| Engine.TickIdle | assets/Scripts/RedDotSystem.ts:166-173 | a tick on a consistent, settled engine with no dangling event keys and no diverging count pass changes nothing |
| Engine.InitQuiet | assets/Scripts/RedDotSystem.ts:83-164 | the tree built from a layered configuration is linked, consistent with all-zero checks, settled, and free of diverging count passes |
| Engine.FirstTick | assets/Scripts/RedDotSystem.ts:166-173 | from a layered configuration whose event keys are all configured, the first tick completes and leaves every red dot consistent and settled, whatever the checks return |
| Engine.SelfParentStaysStale | assets/Scripts/RedDotSystem.ts:450-452 | with a node that is its own parent but listed as another node's child, a tick turns the node on yet leaves the listing node off and inconsistent |

## Left out

- Rendering: the badge's parent, position, label text and `lab_count` are not modelled.
  Badges are opaque handles and the pool is a stack, because these are engine calls on
  floating-point geometry.
- `init` and `setInterval`: the timer is modelled as one call of `Engine.DoEventCheck`.
  Time is not modelled.
- `console.log` and `console.error`: output only.
- `nanoid`: the caller passes the new event id. `EventRegistry.RegisterThenUnregister` assumes the id is
  unused.
- `Number()` on path segments: a path is a `seq<nat>`, so a segment is a non-negative integer.
  Segments that convert to NaN, to a negative number or to a fraction are not modelled. An
  empty segment converts to 0, which the model represents.
- TreeBuild.InitRedDotTree: every path segment is treated as an array index. In the source a
  segment of 4294967295 or more makes `parent.child[idx]` (lines 101 and 105) a plain property
  rather than an array element. The linking loops (line 144 bounded by `length`, line 158 a
  `for…of`) never visit such a property, so its owner gets no parent and its parent lists no
  child. The model links it like any other slot. Its results (`TreeBuild.InitParent`,
  `TreeBuild.InitChildren`, `TreeBuild.InitLayered`) hold as the source behaves only for
  segments below 4294967295.
- NodeRegistry.RegisterNode: a null or undefined UI node is not modelled, because a target
  is a `nat`. The source accepts one (the `==` test at line 362, the push at lines 366-372),
  and `Main.ts` passes `btnMap` lookups that are undefined for a button missing from the
  scene. The first refresh that shows such a red dot takes a badge (line 470) and then throws
  `TypeError` at `node.uiTrans.getContentSize()` (line 474), which ends `RefreshAll` for every
  later red dot; later refreshes skip the binding because its badge is already set.
- Refresh.RefreshFrom, Refresh.RefreshAll and Engine.DoEventCheck: their failure conditions
  (only a stack overflow in the refresh, the exact `TypeError`/`RangeError` split of a tick)
  hold for engines whose UI nodes are all non-null. The `TypeError` from a null UI node
  described above is not modelled.
- The unused `maxLayer` parameter, the unused `event_serial_uid`, and the `name` field of a
  node are not modelled.
- `assets/Scripts/Main.ts` and `assets/Scripts/RedDotKey.ts` are not part of this model.
  They are UI wiring and an unused enum.
- `for … in` over the configuration: the model takes the entries already in enumeration
  order (integer-like keys ascending, then the rest in insertion order). Computing that order
  from the object's own keys is not modelled.
- Check functions: modelled as pure functions of (function, target) to integers. Side
  effects, non-numeric results and NaN are not modelled. Bound arguments are not passed by
  the source.
- Counts: a count is an integer. `count || 0` maps NaN and undefined to 0, and an absent
  count is modelled as 0.
- TreeBuild.InitRedDotTree: modelled only on an engine whose node registry is empty, as
  `init` leaves it. A second build over existing nodes is not modelled.
- TreeBuild.InitLayered: the full parent and child description is proved for layered
  configurations only. `TreeBuild.InitParent` and `TreeBuild.InitChildren` cover every
  configuration.
- StateCheck.DoEventStateCheck: requires a well-formed node registry whose parents are
  registered no later than their children, which the engine invariant `Wf` includes and every
  operation keeps. The recursion's termination measure, the position of the key in
  registration order, relies on it.
- StateCheck.CheckRepairs: requires `Linked`. Without it the repair fails, as
  `Engine.SelfParentStaysStale` shows.
- StateCheck.EventCheckRestores: requires `Linked` as well. Without it the repair fails, as
  `Engine.SelfParentStaysStale` shows.
- Engine.TickIdle: requires no dangling event key and no diverging count pass. On such inputs
  the tick throws (`TypeError` or `RangeError`), as `Engine.DoEventCheck` states.
- Engine.TickRestores: requires `Linked` for the same reason, and that the previous state was
  consistent.
- Refresh.RefreshCount: requires children to be registered after their parent (part of
  `Wf`), for the termination measure of the mutual recursion.
- Refresh.HideAll: the exact pool contents are stated only when badges are unique, which
  `Wf` guarantees.

## Findings

| source | as written | input that shows it | evidently intended | confidence | as-written member | corrected member |
|---|---|---|---|---|---|---|
| assets/Scripts/RedDotSystem.ts:308-311 | the removal loops start at `i = eventList.length` and stop before 0, so the first element read is `undefined` and `rdEvent.target` throws | any key whose list holds one event, with or without the key argument | visit every index from the last down to 0, removing each event bound to the target | high, not executed | EventRegistry.UnRegisterEventByTarget, EventRegistry.UnRegisterEventByTargetThrows | EventRegistry.UnRegisterEventByTargetIntended, EventRegistry.IntendedDropsTarget |
| assets/Scripts/RedDotSystem.ts:246-266 | without a key, the loop returns `true` inside its first iteration | registry `a: []`, `b: [e]`; unregistering `e`'s id without a key answers true and leaves `e` registered | search every list, as the doc comment of line 242 says | high, not executed | EventRegistry.UnRegisterEvent, EventRegistry.UnRegisterEventMissesLaterLists | EventRegistry.UnRegisterEventIntended, EventRegistry.IntendedRemovesEverywhere |
| assets/Scripts/RedDotSystem.ts:181-200 | the default `parentKey = null` yields `parent = null`, and `parent.child.add` throws | adding any new key without a parent key | register the node as a root | medium, not executed | NodeRegistry.AddRedDotNode, NodeRegistry.AddRootFails | NodeRegistry.AddRedDotNodeIntended, NodeRegistry.AddAgrees |
