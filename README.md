# Didact fiber reconciler, modelled in Dafny

Didact is a minimal React-style renderer. `createElement` builds plain element
objects. `render` starts a render cycle at a new work-in-progress root fiber.
An idle-time loop (`workLoop`) then performs one *unit of work*
(`performUnitOfWork`) per fiber. Each unit creates the fiber's DOM node if it
has none, or runs a function component with its `useState` hooks. It then
diffs the fiber's child elements against the fibers of the previous tree
(`reconcileChildren`), tagging each new fiber UPDATE or PLACEMENT and each
dropped old fiber DELETION. When the walk is over, `commitRoot` applies the
deletions and then the new tree to the DOM (`commitWork`, `commitDeletion`,
`updateDom`), and the tree becomes the current root.

The repository holds four versions of this program, and each one is modelled
as written:

- `Jsx` is js/index.jsx. It has function components, hooks and
  `commitDeletion`. Its `commitWork` returns right after a DELETION, and its
  `updateDom` re-adds every listener.
- `Ts` is ts/index.ts. It is the same design, but `updateDom` only subscribes
  new or changed listeners, `createDom` copies every prop as a plain property,
  and `commitWork` goes on into a deleted fiber's child and sibling.
- `HostOnly` is index.ts and its compiled form index.js. It has no function
  components, and `commitWork` writes directly to `fiber.parent.dom`.

## How the model is built

**Fibers and globals.**
- Fibers live in an arena (`seq<Fiber>`), and every pointer (`parent`, `child`,
  `sibling`, `alternate`) is an index.
- The well-formedness predicate `Fibers.WF` says that `parent` and `alternate`
  point to older fibers, and `child` and `sibling` to younger ones. This holds
  because fibers are only ever linked to fibers allocated after them. It makes
  every pointer walk terminate.
- The globals `wipRoot`, `currentRoot`, `nextUnitOfWork`, `deletions`,
  `wipFiber` and `hookIndex` are fields of one `World`. So are the DOM
  (`HostDom.Dom`) and a `halted` flag.

**Faults.**
- A JavaScript exception inside the idle callback (a `TypeError` or a
  `NotFoundError`) is never caught. It also skips the
  `requestIdleCallback(workLoop)` re-arm, so it stops rendering for good.
- The model records this as `halted`, together with the DOM as it was when the
  fault happened.

**The DOM.**
- The DOM is an arena of nodes, each with a property map, a set of listeners and
  ordered children, plus a log of the host calls that succeeded.
- `appendChild` moves a node. `removeChild` of a node that is not a child
  throws.

**Specification layer and imperative layer.**
- Each operation is first a function in the specification layer: modules
  `Elements`, `PropDiff`, `Fibers`, `Reconcile`, `Hooks`, `Commit` and
  `Work`.
- The class `Didact.Reconciler` then holds the same state in mutable fields.
  Its methods, with the source's loops and recursion, are proved to leave
  exactly the state the specification function gives.
- The commit phase is described by a `Commit.Plan`: the host calls a walk makes,
  in order, and whether the walk itself throws. The calls are then made on the
  host, which may throw as well.

**Where the code and the design description disagree, the model follows the
code:**
- `reconcileChildren` writes `prevSibling.sibling` through a null `prevSibling`
  when the old children outnumber the elements by two or more, so shrinking a
  list by two or more throws. It does not just queue the extra fibers for
  deletion.
- ts/index.ts, index.ts and index.js visit the child and sibling of a deleted
  fiber. Two adjacent deleted siblings therefore have the second node removed
  twice, and the second removal throws.
- The commit is not atomic: a throw part-way leaves the calls already made on
  the DOM.

## Model

| member | source | states |
|---|---|---|
| `Elements.CreateTextElement` | js/index.jsx:13-21 | a text element has type TEXT_ELEMENT and exactly the keys `nodeValue` (the text) and `children` (empty) |
| `Elements.Assign` | index.js:1-11 | after the merge, the key holds the assigned value |
| `Elements.AssignKeepsOthers` | index.js:1-11 | the merge leaves every other key's value as it was |
| `Elements.AssignKeyOrder` | index.js:1-11 | an existing key keeps its place in key order; a new key is added last |
| `Elements.CreateElement` | js/index.jsx:1-11 | the element has the given type |
| `Elements.CreateElementShape` | index.js:12-23 | every passed prop except `children` is kept; `children` overrides any passed one; it holds one element per child in order, with primitives turned into text elements; key order is the props' order, with `children` last unless it was already passed |
| `PropDiff.EventType` | js/index.jsx:52 | the event name is the key lower-cased with its first two characters dropped |
| `PropDiff.Walk` | js/index.jsx:39-42 | each filtered `forEach` only makes property or listener calls on the node being updated |
| `PropDiff.UpdateDom` | js/index.jsx:37-69 | `updateDom` only makes property or listener calls on its own node |
| `PropDiff.InitProps` | ts/index.ts:29-34 | the set-up of a new node only touches that node |
| `PropDiff.WalkMembers` | js/index.jsx:39-68 | a pass makes a call exactly for the walked keys its filter keeps, with the value under that key |
| `PropDiff.UpdateDomCalls` | js/index.jsx:37-69 | a call is made iff it clears a gone property, removes a gone or changed listener, assigns a changed property, or adds a listener (every `on*` key in js/index.jsx; only new or changed ones elsewhere) |
| `PropDiff.ClearGoneCalls` | js/index.jsx:39-42 | properties absent from the next props are set to "" |
| `PropDiff.UnsubscribeCalls` | js/index.jsx:45-54 | listeners that are gone or changed are removed with their old handler |
| `PropDiff.AssignChangedCalls` | js/index.jsx:57-60 | properties whose value differs are assigned the new value |
| `PropDiff.SubscribeCalls` | ts/index.ts:129-135 | listeners are added for every event key (js/index.jsx) or only for new or changed ones (other variants) |
| `PropDiff.UpdateDomOrder` | index.js:90-119 | outside js/index.jsx every removal precedes every addition, which precedes every property write; in js/index.jsx the listener additions come last |
| `PropDiff.UpdateDomSameIsSilent` | index.ts:102-134 | diffing props against themselves makes no call at all (ts/index.ts, index.ts, index.js) |
| `PropDiff.UpdateDomSameResubscribes` | js/index.jsx:62-68 | in js/index.jsx, diffing props against themselves re-adds every listener and makes no other call |
| `PropDiff.InitPropsCalls` | ts/index.ts:23-37 | a new node gets every non-`children` prop as a plain property (Ts, HostOnly); js/index.jsx goes through `updateDom` against `{}`: properties set, `on*` keys subscribed |
| `Fibers.AscendFirstSibling` | js/index.jsx:183-189 | the climb returns the sibling of the first fiber on the way up that has one; null iff none up to the root has one |
| `Fibers.NextUnitOrder` | js/index.jsx:180-189 | the next unit is the child if any, else the first sibling found walking up the parents, else null |
| `WalkOrder.WalkSteps` | js/index.jsx:180-189 | on a fixed tree whose `parent` links agree with its `child` and `sibling` links, following the next unit from a fiber visits its subtree and its later siblings' subtrees in pre-order, then climbs above their parent |
| `WalkOrder.PreOrderDistinct` | js/index.jsx:180-189 | on such a tree the pre-order lists no fiber twice |
| `WalkOrder.VisitsEachOnce` | js/index.jsx:170-190 | from a root, the walk visits every fiber of its tree exactly once, in pre-order, and then gives null |
| `WalkOrder.CommitVisitsPreOrder` | ts/index.ts:81-104 | outside js/index.jsx, `commitWork` visits the fibers in the same pre-order as the render walk |
| `Reconcile.ReconcileChildren` | js/index.jsx:254-306 | reconciling keeps the arena well formed, only grows it, and changes no global but `deletions` |
| `Reconcile.StepOk` | js/index.jsx:259-305 | one iteration keeps the loop invariant and decreases the measure |
| `ReconcileFacts.ReconcileIsFinal` | js/index.jsx:254-306 | the loop's closed form: new fibers linked in element order, the reconciled fiber's child set, unmatched old fibers tagged and queued in order, nothing else older changed |
| `ReconcileFacts.FaultIff` | js/index.jsx:297-301 | reconciling throws iff the old children outnumber the elements by two or more |
| `ReconcileFacts.PairsByPosition` | js/index.jsx:263-286 | element k meets only old child k: the same type gives an UPDATE keeping the old node, type and alternate with the element's props; otherwise a PLACEMENT with no node and no alternate |
| `ReconcileFacts.OldChildrenAccounted` | js/index.jsx:287-291 | every old child is either reused at its position or tagged DELETION and queued |
| `ReconcileFacts.DeletionsAreDropped` | ts/index.ts:276-280 | `deletions` grows by exactly the old children with no same-type element at their position |
| `ReconcileFacts.FinalDeletions` | index.ts:209-213 | the queued fibers follow old-chain order, appended after the ones already queued |
| `ReconcileFacts.ChildrenFollowElements` | js/index.jsx:297-303 | read along `child` and `sibling`, the new children are one fiber per element, in order |
| `ReconcileFacts.FinalNew` | js/index.jsx:267-285 | the fiber for element k sits at base+k, linked to the next one |
| `ReconcileFacts.FinalOld` | js/index.jsx:287-301 | older fibers keep every field except a DELETION tag on dropped children and the reconciled fiber's new `child` |
| `ReconcileFacts.LinkedChain` | ts/index.ts:286-291 | the new fibers form one sibling chain in allocation order |
| `ReconcileFacts.UnmatchedAreOld` | ts/index.ts:276-280 | a fiber is queued iff it is an old child with no same-type element at its position |
| `ReconcileFacts.UnmatchedHas` | ts/index.ts:276-280 | every unmatched old child is queued |
| `Hooks.ReplayAppend` | js/index.jsx:218-219 | replaying two queues in turn is replaying their concatenation |
| `Hooks.UseState` | js/index.jsx:207-237 | a `useState` call changes only the arena and advances `hookIndex` by one |
| `Hooks.RunHooks` | js/index.jsx:203 | a body's calls advance `hookIndex` by their number and return one state each |
| `Hooks.RunHooksAppends` | js/index.jsx:233-234 | the calls push one fresh hook per call onto the rendered fiber, and touch nothing else |
| `Hooks.RunHooksReads` | js/index.jsx:207-219 | call i reads hook `hookIndex + i` of the alternate with its queued actions applied in order, or its initial value |
| `Hooks.SetState` | ts/index.ts:206-215 | `setState` keeps the arena well formed |
| `Hooks.SetStateQueues` | ts/index.ts:206-215 | the action is appended to that hook's queue and every other hook, field and fiber is unchanged; without a committed root it throws after the push and changes nothing else; otherwise it adds a new root with the committed root's node and props, the committed root as alternate and no parent, child, sibling, tag or hooks, points `wipRoot` and the next unit at it and empties `deletions`; the committed root, the DOM, `wipFiber` and `hookIndex` are kept |
| `Hooks.QueuedActionApplies` | js/index.jsx:221-222 | on the next render the queued action is applied after the earlier ones |
| `Commit.CommitDeletion` | js/index.jsx:103-109 | `commitDeletion` makes at most one call |
| `Commit.CommitDeletionFirstDom` | ts/index.ts:106-112 | it removes the node of the first fiber down the `child` links that owns one; with none it throws without a call |
| `Commit.DomAncestorNearest` | js/index.jsx:84-88 | the DOM parent is the node of the nearest fiber up the parent links that owns one; with none the walk throws |
| `Commit.CommitWorkOwnEffectFirst` | js/index.jsx:79-101 | the walk throws when no ancestor owns a node; a PLACEMENT first appends its node to the nearest ancestor node; an UPDATE starts with the `updateDom` calls of its node; a DELETION starts with the `commitDeletion` calls, and in js/index.jsx that is the whole walk |
| `Commit.CommitWorkPreOrder` | js/index.jsx:79-101 | the walk is the fibers' own effects run one after the other in pre-order, stopping at the first throw; in js/index.jsx a deleted fiber's subtree and later siblings are skipped |
| `Commit.CommitRoot` | js/index.jsx:71-77 | the arena is unchanged; if nothing throws the work-in-progress root becomes the current root and `wipRoot` is null |
| `Commit.CommitAllAppend` | js/index.jsx:73 | committing a run of deletions is committing its parts in order |
| `Commit.CommitRootLog` | index.ts:67-76 | deletions are committed before the new tree: the host log grows by the deletions' calls then the tree's; it throws iff either walk or a host call throws |
| `Commit.ExecThen` | js/index.jsx:99-100 | running two walks in turn on the host is running their sequence |
| `Commit.DeletedSubtreeRevisited` | ts/index.ts:95-103 | js/index.jsx removes a deleted fiber's node only; the other variants also re-append its stale PLACEMENT child |
| `Commit.AdjacentDeletionsThrow` | index.js:76-84 | deleting two adjacent siblings: js/index.jsx removes each once; the others remove the second twice and throw |
| `Work.CreateDom` | index.js:34-46 | `createDom` keeps the arena and the roots |
| `Work.CreateDomEffect` | ts/index.ts:23-37 | `createDom` throws only for a function type; otherwise one new node set up from the props becomes the fiber's `dom`, and the log grows by exactly the creation calls |
| `Work.ReusedNodeNoHostCall` | index.js:125-127 | a fiber that already owns a node is visited without a host call |
| `Work.UpdateHostComponent` | js/index.jsx:243-252 | a host visit keeps the arena well formed and the roots as they were |
| `Work.UpdateFunctionComponent` | js/index.jsx:199-205 | a component visit keeps the arena well formed and the roots as they were |
| `Work.PerformUnitOfWork` | js/index.jsx:170-190 | a unit keeps the arena well formed and the roots as they were |
| `Work.Run` | js/index.jsx:142-146 | the loop keeps the arena well formed and the roots as they were |
| `Work.RunIdle` | index.ts:236-239 | with no unit left the loop does nothing |
| `Work.WorkLoop` | js/index.jsx:131-158 | the idle callback keeps the arena well formed |
| `Work.WorkLoopSplit` | js/index.jsx:142-152 | two idle periods with time for a and b units leave the same world as one with time for a+b: the result does not depend on where slices are cut |
| `Work.NoPartialCommit` | index.js:206-216 | after a period: a throw, or the walk still under way and nothing committed, or the walk over and the work-in-progress root committed |
| `Work.Render` | ts/index.ts:54-65 | `render` keeps the arena well formed |
| `WorkFacts.Entered` | js/index.jsx:200-202 | a visit makes the fiber `wipFiber`, zeroes `hookIndex` and clears its hooks, and changes no other fiber |
| `WorkFacts.ComponentStates` | js/index.jsx:207-219 | call i of the body returns the state read from hook i of the alternate |
| `WorkFacts.ComponentHooks` | js/index.jsx:233-234 | after the body the fiber holds exactly one fresh hook per call |
| `WorkFacts.SingleChild` | ts/index.ts:183-189 | reconciling one element throws iff there were three or more old children; otherwise it gives exactly one child of the element's type and props |
| `WorkFacts.ComponentVisit` | js/index.jsx:199-205 | a component visit: hooks read by position, one fresh hook per call, `hookIndex` equal to the number of calls, and exactly one child, the body's element |
| `WorkFacts.RenderRoot` | ts/index.ts:54-65 | `render` adds a root that owns the container with `[element]` as children and the committed root as alternate, points `wipRoot` and the next unit at it, and empties `deletions` |
| `WorkFacts.RenderFirstUnit` | js/index.jsx:112-122 | the first unit after `render` makes no host call and gives the root exactly one child, the element, unless the committed root had three or more children |
| `WorkFacts.RerenderReady` | index.js:223-308 | in the demo's second render the div's old children are the two h1, and only the first keeps its type |
| `WorkFacts.RerenderDemo` | index.js:154-201 | re-rendering the demo tags the first h1 UPDATE (same node), the p PLACEMENT and the second h1 DELETION, the only queued fiber |
| `Didact.Reconciler.constructor` | js/index.jsx:124-130 | the globals start null and empty |
| `Didact.Reconciler.Render` | js/index.jsx:112-122 | `render` leaves the state `Work.Render` specifies |
| `Didact.Reconciler.CreateDom` | js/index.jsx:22-31 | `createDom` leaves the state `Work.CreateDom` specifies |
| `Didact.Reconciler.ReconcileChildren` | js/index.jsx:254-306 | the in-place loop leaves the state `Reconcile.ReconcileChildren` specifies |
| `Didact.Reconciler.ReconcileOne` | js/index.jsx:260-304 | one iteration of that loop |
| `Didact.Reconciler.UpdateHostComponent` | js/index.jsx:243-252 | a host visit as specified |
| `Didact.Reconciler.UseState` | js/index.jsx:207-237 | the replay loop returns the specified state and pushes the specified hook |
| `Didact.Reconciler.CallHooks` | js/index.jsx:203 | the component body's `useState` calls, in order, leave the state and return the states `Hooks.RunHooks` specifies |
| `Didact.Reconciler.UpdateFunctionComponent` | js/index.jsx:199-205 | a component visit as specified |
| `Didact.Reconciler.PerformUnitOfWork` | js/index.jsx:170-190 | the `nextFiber` climb sets the specified next unit |
| `Didact.Reconciler.ApplyCalls` | js/index.jsx:37-69 | the host calls planned by `updateDom` or `createDom`, made one at a time, leave the DOM `HostDom.ApplyAll` gives; the first call that throws halts rendering and no call after it is made |
| `Didact.Reconciler.CommitDeletion` | js/index.jsx:103-109 | the recursive removal as specified |
| `Didact.Reconciler.CommitUpdate` | js/index.jsx:93-94 | the update of a reused node as specified |
| `Didact.Reconciler.OwnEffect` | ts/index.ts:93-100 | a fiber's own effect as specified |
| `Didact.Reconciler.HostOnlyEffect` | index.ts:83-92 | a fiber's own effect against `fiber.parent.dom` as specified |
| `Didact.Reconciler.CommitWork` | js/index.jsx:79-101 | the recursive walk as specified |
| `Didact.Reconciler.CommitRoot` | js/index.jsx:71-77 | `commitRoot` as specified |
| `Didact.Reconciler.RunUnits` | js/index.jsx:142-146 | the `while` loop over units leaves the state `Work.Run` specifies |
| `Didact.Reconciler.WorkLoop` | js/index.jsx:131-152 | the `while` loop over units, then the commit, as specified |
| `Didact.Reconciler.SetState` | js/index.jsx:221-231 | `setState` as specified |

## Left out

- The host DOM primitives (`document.createElement`, `createTextNode`,
  `appendChild`, `removeChild`, `add`/`removeEventListener`, property
  assignment) are modelled by their effect on an abstract node arena. The
  browser's checks on `appendChild` (cycles, moving an ancestor) are not
  modelled beyond rejecting a node appended to itself. Tag-name validation is
  modelled only as "a function type throws".
- `requestIdleCallback`, its re-arm and `deadline.timeRemaining()` are replaced
  by a budget: the number of units the idle period leaves time for.
- `console.log` calls are left out.
- The demo and application code is left out: `App`, `Counter`, `handleClick`,
  the element literals and `setTimeout`. The two index.js trees appear only as
  the `RerenderDemo` scenario.
- js/index.js is not part of this model. It is an earlier snapshot without
  fibers.
- The `__assign` polyfill is modelled by its meaning only, a key-wise merge
  with override. `Object.prototype` keys, `hasOwnProperty` and
  getters are not modelled.
- A prop list with a duplicate key is walked entry by entry, while `Get` reads
  the first entry. Real objects cannot hold a key twice.
- Children that are `null`, `false` or nested arrays are not modelled. A child
  is an element or a primitive turned into a text element.
- Event names are lower-cased on ASCII letters only.
- A function component is given as the initial values of its `useState` calls
  and a function from props and states to the element it returns. Components
  that call `useState` conditionally, or that throw, are not modelled.
- In ts/index.ts, index.js and index.ts, `deletions` starts as `null` until the first
  `render`. The model starts it empty, and `render` always runs first.
- Fiber identity, `instanceof Function` and the JSX transform are replaced by
  the `Kind` datatype.
- `WalkOrder.VisitsEachOnce` is proved on a fixed arena whose `parent` links
  agree with its `child` and `sibling` links. During a render the tree grows
  as each unit reconciles its children, and that growth is not followed step
  by step: the order is stated for the tree as it stands.
- Prop values are integers, strings, booleans and handler ids. Objects and
  arrays compared by identity (`!==`), floating-point numbers and `NaN` are
  not modelled.
- `Object.keys` lists integer-like keys first, in numeric order. The model
  walks keys in insertion order.
- `Work.ReusedNodeNoHostCall` holds by unfolding the definitions; it records the
  fact without needing a proof.
- The specification functions below have contracts that only give well-formedness, sizes or frame facts. What each one computes is stated by the lemmas named on its line:
- Work.WorkLoop: stated by `WorkLoopSplit` and `NoPartialCommit`.
- Work.Run: stated by `RunIdle` and `WorkLoopSplit`.
- Work.Render: stated by `RenderRoot` and `RenderFirstUnit`.
- Work.PerformUnitOfWork: stated by `NextUnitOrder`, `ComponentVisit` and `RenderFirstUnit`.
- Work.UpdateHostComponent: stated by `CreateDomEffect`, `ReusedNodeNoHostCall` and the reconcile lemmas.
- Work.UpdateFunctionComponent: stated by `ComponentVisit`.
- Work.CreateDom: stated by `CreateDomEffect`.
- Reconcile.ReconcileChildren: stated by `ReconcileIsFinal` and the lemmas derived from it.
- Elements.CreateElement: stated by `CreateElementShape`.
- PropDiff.Walk: stated by `WalkMembers`.
- PropDiff.UpdateDom: stated by `UpdateDomCalls`, `UpdateDomOrder`, `UpdateDomSameIsSilent` and `UpdateDomSameResubscribes`.
- PropDiff.InitProps: stated by `InitPropsCalls`.
- Hooks.UseState: stated by `RunHooksReads` and `RunHooksAppends`.
- Hooks.RunHooks: stated by `RunHooksReads` and `RunHooksAppends`.
- Hooks.SetState: stated by `SetStateQueues` and `QueuedActionApplies`.
- Commit.CommitDeletion: stated by `CommitDeletionFirstDom`.
