# ECS entity manager in Dafny

A model of the `EntityManager` of a small entity/component store, and of the behaviour its
unit tests (`ECSTest/UnitTests_01.cpp`) pin down.

A manager is built for a fixed list of component types (`UsedComponents<EntityState, ...>`).
Each type gets a bit position in the order of that list, so `EntityState` always owns bit 0.
An entity is a slot index. The manager keeps:

- one signature per slot: the set of component bits the entity carries;
- an `EntityState` column: `Active`, or `Destroyed` once the slot is freed;
- a free list: a stack of destroyed slots, reused last-in first-out;
- a live counter;
- one container per other component type: storage addressed directly by slot.

The model is split into modules:

| module | file | what it holds |
|---|---|---|
| `Signatures` | `signatures.dfy` | component ids, signatures as sets of bits, the query `Matching` (slots whose signature holds every filter bit, in ascending order), the live count, and lemmas about both |
| `Containers` | `containers.dfy` | the container class: `Get`, and `Set`, which grows the storage on demand |
| `Workers` | `workers.dfy` | the read-modify-write pass `Set(e, Get(e) + 1)` over a query result, as one worker or as two workers over the two halves |
| `EntityTable` | `table.dfy` | the manager's abstract value `Table`, its invariant `Inv`, one transition function per operation, and the lemmas about them |
| `Ecs` | `manager.dfy` | the class `EntityManager` with mutable fields, and each operation as a method or function proved against `EntityTable` |
| `UnitTest01` | `unit_tests.dfy` | every test method except the float one, as a verified method whose postcondition is what the test asserts |

`Inv` says five things:

- Slots and columns are consistent in shape.
- The free list holds distinct slots, exactly those without the `EntityState` bit, and their signatures are empty.
- The `EntityState` column agrees with the `EntityState` bit.
- Every set bit has a cell behind it.
- The live counter equals the number of slots carrying the `EntityState` bit.

Every manager method keeps `Valid()`, which is `Inv` of the manager's `Model()` plus ownership of the containers.

Longer tests are cut into step methods. In the four small scenarios (entity count, multiple components, reuse, inheritance), each step that hands the manager on to a later step states its signatures and free list afterwards (`InState`). The last step of each of them states only what the test asserts. In the bulk scenarios (1000 or 100 entities), the set-up steps start from an empty manager, `InState(m, w, [], [])`, and end with the signature of every slot. Their other steps state the counts and query results.

Component payloads are integers. Each test's expected values follow from the contracts:

- the handles 0, 1 and the recycled 0;
- the counts 1000, 666, 500, 100 and 50;
- the query results `[0, 2]`, `[2]` and `[1, 2]`;
- the value `i + 1` at result position `i`.

## Model

| member | source | states |
|---|---|---|
| Ecs.EntityManager.constructor | ECSTest/UnitTests_01.cpp:62-65 | a new manager is valid, registers ids 1 .. width-1 with empty containers, has no slots, an empty free list and count 0 |
| Ecs.EntityManager.EntityCount | ECSTest/UnitTests_01.cpp:65-81 | the count is the live counter, and it equals the length of the EntityState-only query |
| Ecs.EntityManager.CreateEntity | ECSTest/UnitTests_01.cpp:67-83 | returns the top of the free list, else the next new index; that slot's signature becomes exactly {EntityState}; the free list is popped; the count grows by one; the manager stays valid |
| Ecs.EntityManager.CreateEntityWithComponents | ECSTest/UnitTests_01.cpp:92-107 | returns the slot CreateEntity would, whose signature becomes EntityState plus exactly the supplied bits; other slots, the free list pop and the count are as for CreateEntity; with distinct types every supplied value reads back; no other slot's cell changes |
| Ecs.EntityManager.DestroyEntity | ECSTest/UnitTests_01.cpp:77-78 | on a live slot: clears the signature, marks it Destroyed, pushes it on the free list and drops the count by one; otherwise fails with NotLive and changes nothing |
| Ecs.EntityManager.HasComponent | ECSTest/UnitTests_01.cpp:95-102 | true exactly when the slot's signature holds the component's bit |
| Ecs.EntityManager.GetComponent | ECSTest/UnitTests_01.cpp:107 | the stored value when the slot is live and carries the component; otherwise NotLive or MissingComponent |
| Ecs.EntityManager.GetEntityState | ECSTest/UnitTests_01.cpp:71 | Active for a live slot, NotLive otherwise |
| Ecs.EntityManager.SetComponent | ECSTest/UnitTests_01.cpp:400-406 | on a live slot: stores the value (growing the container if needed) and sets the bit; otherwise fails and changes nothing; the manager stays valid |
| Ecs.EntityManager.RemoveComponent | ECSTest/UnitTests_01.cpp:432-438 | on a live slot: clears only that bit and leaves the cell; otherwise fails and changes nothing |
| Ecs.EntityManager.GetContainer | ECSTest/UnitTests_01.cpp:259 | returns the manager's own container of that type, so writes through it are what GetComponent reads |
| Ecs.EntityManager.GetEntities | ECSTest/UnitTests_01.cpp:168-173 | the scan returns exactly `Matching` of the signatures: the slots whose signature holds every filter bit, ascending |
| Containers.Store | ECSTest/UnitTests_01.cpp:266 | a write sets the slot to the value, keeps every other existing cell, and grows the storage to slot+1 only when the slot lies past its end |
| Containers.Container.Get | ECSTest/UnitTests_01.cpp:265 | returns the cell at the slot |
| Containers.Container.Set | ECSTest/UnitTests_01.cpp:266 | the cells become `Store` of the old cells |
| Workers.BumpedAt | ECSTest/UnitTests_01.cpp:263-267 | after the pass, each cell has grown by the number of times its slot occurs in the list |
| Workers.BumpedOnce | ECSTest/UnitTests_01.cpp:263-274 | over a strictly increasing list, listed cells gain exactly one and the others are untouched |
| Workers.BumpedComposes | ECSTest/UnitTests_01.cpp:312-316 | two passes in sequence equal one pass over the concatenated lists |
| Workers.BumpedReordered | ECSTest/UnitTests_01.cpp:312-316 | two lists holding the same slots equally often give the same cells |
| Workers.SwappedPasses | ECSTest/UnitTests_01.cpp:309-317 | two lists of increments give the same cells whichever runs first |
| Workers.SplitWorkers | ECSTest/UnitTests_01.cpp:309-317 | splitting the list anywhere and running the two parts in either order equals one pass over the whole list |
| Workers.HalvesDisjoint | ECSTest/UnitTests_01.cpp:309-317 | splitting a query result (strictly increasing) at any point leaves no slot on both sides, so the two workers write disjoint cells |
| Workers.IncrementRange | ECSTest/UnitTests_01.cpp:299-307 | the loop leaves the container as one pass over `entities[from..until]` |
| Workers.IncrementInHalves | ECSTest/UnitTests_01.cpp:309-317 | the two workers over `[0, size/2)` and `[size/2, size)` leave the container as one pass over the whole result |
| Signatures.MatchingExact | ECSTest/UnitTests_01.cpp:168-173 | a slot is in the query result exactly when it is allocated and its signature holds every filter bit |
| Signatures.MatchingAscending | ECSTest/UnitTests_01.cpp:272-274 | the query result is strictly increasing |
| Signatures.MatchingSnoc | ECSTest/UnitTests_01.cpp:155-158 | appending a slot appends its index to the result exactly when it matches |
| Signatures.MatchingPrefix | ECSTest/UnitTests_01.cpp:168-173 | the scan of the first n slots depends on those slots only |
| Signatures.MatchingAll | ECSTest/UnitTests_01.cpp:173 | when every slot matches, the result is 0, 1, ..., n-1 |
| Signatures.MatchingNone | ECSTest/UnitTests_01.cpp:396-398 | when no slot matches, the result is empty |
| Signatures.MatchingEvenSlots | ECSTest/UnitTests_01.cpp:237 | when exactly the even slots match, the result has (n+1)/2 entries |
| Signatures.MatchingOddSlots | ECSTest/UnitTests_01.cpp:440-441 | when exactly the odd slots match, the result has n/2 entries |
| Signatures.MatchingSkipsThirds | ECSTest/UnitTests_01.cpp:175-185 | when exactly the slots not divisible by 3 match, the result has n - (n+2)/3 entries |
| Signatures.NarrowedQuery | ECSTest/UnitTests_01.cpp:464-466 | adding a bit to the filter keeps exactly the results that carry that bit |
| Signatures.LiveCountUpdate | ECSTest/UnitTests_01.cpp:77-78 | changing one slot's signature moves the live count by the change in that slot's EntityState bit |
| Signatures.LiveAmongUpdate | ECSTest/UnitTests_01.cpp:77-78 | the same among the first n slots |
| Signatures.LiveCountSnoc | ECSTest/UnitTests_01.cpp:67-68 | appending a slot adds one to the live count exactly when it carries EntityState |
| Signatures.LiveAmongPrefix | ECSTest/UnitTests_01.cpp:67-68 | the live count of the first n slots depends on those slots only |
| Signatures.LiveAmongIsStateQuery | ECSTest/UnitTests_01.cpp:65-81 | the live count of the first n slots is the length of the EntityState-only scan of them |
| Signatures.LiveCountIsStateQuery | ECSTest/UnitTests_01.cpp:65-81 | the live count is the length of the EntityState-only query |
| EntityTable.EmptyColumns | ECSTest/UnitTests_01.cpp:62-64 | one empty column for each id 1 .. width-1, and no other |
| EntityTable.Empty | ECSTest/UnitTests_01.cpp:62-65 | the empty table satisfies the invariant, with no slots, an empty free list and count 0 |
| EntityTable.AttachAll | ECSTest/UnitTests_01.cpp:92 | attaching pairs keeps the registered ids, the number of slots and the width |
| EntityTable.AttachAllStep | ECSTest/UnitTests_01.cpp:117 | attaching one more pair is one more SetComponent |
| EntityTable.PopRemovesTop | ECSTest/UnitTests_01.cpp:134-143 | popping a stack of distinct slots removes exactly its top |
| EntityTable.CreateKeepsInv | ECSTest/UnitTests_01.cpp:67-83 | a create keeps the invariant |
| EntityTable.CreateNewSlotKeepsInv | ECSTest/UnitTests_01.cpp:67-75 | a create with an empty free list keeps the invariant |
| EntityTable.NewSlotShaped | ECSTest/UnitTests_01.cpp:67-75 | a new slot keeps slots and columns consistent |
| EntityTable.NewSlotFreeList | ECSTest/UnitTests_01.cpp:67-75 | a new slot keeps the free list sound |
| EntityTable.NewSlotCells | ECSTest/UnitTests_01.cpp:67-75 | a new slot has no bit without a cell |
| EntityTable.CreateReusedSlotKeepsInv | ECSTest/UnitTests_01.cpp:80-83 | a create that pops the free list keeps the invariant |
| EntityTable.CreateFacts | ECSTest/UnitTests_01.cpp:67-83 | a create hands out a slot that was not live (the free list's top, else a new one); the slot becomes live with exactly {EntityState} and reads Active; the count grows by one; other slots are unchanged |
| EntityTable.DestroyKeepsInv | ECSTest/UnitTests_01.cpp:77-78 | a destroy keeps the invariant |
| EntityTable.DestroyFacts | ECSTest/UnitTests_01.cpp:77-83 | destroying a live slot drops the count by one, clears every bit, makes it NotLive and the next slot handed out, and leaves other slots alone; destroying anything else fails and changes nothing |
| EntityTable.FreeListIsLifo | ECSTest/UnitTests_01.cpp:128-143 | after destroying a and then b, the next two creates hand out b and then a, each with only {EntityState}, and the count is back where it started |
| EntityTable.SetKeepsInv | ECSTest/UnitTests_01.cpp:400-406 | SetComponent keeps the invariant |
| EntityTable.SetFacts | ECSTest/UnitTests_01.cpp:400-409 | on a live slot the component becomes present and reads back the written value, the slot stays live and the count is unchanged; otherwise it fails and changes nothing |
| EntityTable.SetLeavesOthers | ECSTest/UnitTests_01.cpp:400-406 | every other (component, slot) pair reads as before |
| EntityTable.RemoveFacts | ECSTest/UnitTests_01.cpp:432-441 | on a live slot exactly that bit is cleared and reads MissingComponent, while the slot, the count, the cells and the other slots are unchanged; otherwise it fails and changes nothing |
| EntityTable.RemoveAbsentIsNoOp | ECSTest/UnitTests_01.cpp:436 | a rule the model adds, which no test exercises: removing a component a live slot lacks is a successful no-op |
| EntityTable.RemoveThenSetReadsNew | ECSTest/UnitTests_01.cpp:436 | a rule the model adds, which no test exercises: remove then set reads back only the new value |
| EntityTable.AttachAllKeeps | ECSTest/UnitTests_01.cpp:92 | attaching pairs to a live slot keeps the invariant and the slot live |
| EntityTable.AttachAllCells | ECSTest/UnitTests_01.cpp:92 | attaching to a slot leaves every other slot's cells alone |
| EntityTable.AttachAllSignature | ECSTest/UnitTests_01.cpp:117-126 | attaching sets exactly the supplied bits on the slot and touches no other slot, the state column, the free list or the count |
| EntityTable.AttachAllValues | ECSTest/UnitTests_01.cpp:104-107 | with distinct types, every attached value reads back |
| EntityTable.CreateWithShape | ECSTest/UnitTests_01.cpp:92-96 | a create with components is a create whose new signature also carries the supplied bits |
| EntityTable.CreateWithFacts | ECSTest/UnitTests_01.cpp:134-146 | the handed-out slot carries EntityState plus exactly the supplied bits, so a reused slot inherits nothing; it reads Active; the count grows by one; other slots keep their signatures |
| EntityTable.CreateWithCells | ECSTest/UnitTests_01.cpp:92 | a create with components writes no cell of any other slot |
| EntityTable.CreateWithValues | ECSTest/UnitTests_01.cpp:104-107 | each supplied component of a distinct type reads back its value |
| EntityTable.CountIsStateQuery | ECSTest/UnitTests_01.cpp:65-81 | the counter equals the length of the EntityState-only query |
| EntityTable.QueryYieldsLiveSlots | ECSTest/UnitTests_01.cpp:175-185 | a query with any bit never returns a destroyed slot |
| EntityTable.ColumnWriteKeepsInv | ECSTest/UnitTests_01.cpp:259-270 | rewriting a container through GetContainer without shrinking it keeps the invariant |
| UnitTest01.EntityCountTest | ECSTest/UnitTests_01.cpp:60-84 | counts 0, 1, 2, 1, 2; handles 0, 1, then the recycled 0; EntityState present and Active |
| UnitTest01.MultiComponentsTest | ECSTest/UnitTests_01.cpp:86-108 | counts 0..3; the int entity has both bits; the bare entity lacks int; the third reads back 99 |
| UnitTest01.EntityReuseWithDifferentComponents | ECSTest/UnitTests_01.cpp:110-147 | counts 0, 1, 2, 1, 0, 1, 2; the recycled handles are 0 and then 1; each recycled slot has only its new components |
| UnitTest01.GetOnlyLiveEntitiesForComponents | ECSTest/UnitTests_01.cpp:149-186 | 1000 created and matched; after destroying multiples of 3, 666 match, none destroyed |
| UnitTest01.GetEntitiesForComponents | ECSTest/UnitTests_01.cpp:188-238 | 1000 created; the three-bit query returns 500, all even |
| UnitTest01.DoSomeWork | ECSTest/UnitTests_01.cpp:240-276 | 1000 created; after one pass, GetComponent of result position i is i+1 |
| UnitTest01.DoSomeParallelWork | ECSTest/UnitTests_01.cpp:278-325 | the same with the pass split between two workers at size/2 |
| UnitTest01.AddComponents | ECSTest/UnitTests_01.cpp:378-410 | 100 created and matched; none has Position; after setting it on even slots, 50 match |
| UnitTest01.RemoveComponents | ECSTest/UnitTests_01.cpp:412-442 | 100 created and matched; after removing int from even slots, 50 match, all odd |
| UnitTest01.ComponentsThatInherit | ECSTest/UnitTests_01.cpp:444-471 | handles 0, 1, 2 and count 3; the Base query gives [0, 2], Base+Derived gives [2], Derived gives [1, 2] |
| UnitTest01.QueryEvery | ECSTest/UnitTests_01.cpp:173 | if every slot matches, the query is 0..n-1 |
| UnitTest01.QueryNothing | ECSTest/UnitTests_01.cpp:398 | if no slot matches, the query is empty |
| UnitTest01.QueryEvenSlots | ECSTest/UnitTests_01.cpp:409 | if the even slots match, the query is exactly those, (n+1)/2 of them |
| UnitTest01.QueryOddSlots | ECSTest/UnitTests_01.cpp:441 | if the odd slots match, the query is exactly those, n/2 of them |
| UnitTest01.QuerySkippingThirds | ECSTest/UnitTests_01.cpp:185 | if the slots not divisible by 3 match, the query is exactly those, n - (n+2)/3 of them |
| UnitTest01.BumpedEverySlot | ECSTest/UnitTests_01.cpp:272-274 | a pass over the result 0..n-1 adds one to each of the first n cells |
| UnitTest01.InheritedMatches | ECSTest/UnitTests_01.cpp:461-470 | the three queries over {0,1}, {0,2} and {0,1,2} give [0, 2], [2] and [1, 2] |

## Left out

- The implementation header `ECS/ECS.h` is not part of this model. The manager's behaviour on live slots and present components is taken from what the tests assert. What happens on a non-live slot, a missing component or an absent remove is the model's own choice, and no test exercises it.
- The process-wide `GetComponentID<T>` registry and the type-erased template dispatch. A component type is the natural number of its position in the `UsedComponents` list, with `EntityState` at 0.
- `MAX_COMPONENT_COUNT` is defined in the unseen header. The model takes `MaxComponents` to be 32, and only bounds the number of registered types with it.
- Payload types. Every component value is an `int`. Float, struct and `std::vector<int>` payloads are modelled by their presence bit and an integer value. The `Position`/`Velocity` operators are left out.
- `DoSomeParallelUpdates` is left out. It is float arithmetic, and it indexes the containers by loop counter rather than by entity handle.
- `std::async` concurrency. The two workers run one after the other. `Workers.SplitWorkers` proves that either order equals the single pass. That lemma needs no disjointness, because `+1` updates commute (`Workers.BumpedReordered` compares the multisets of slots). What makes the concurrent run race-free is a separate fact: the two halves of a query result share no slot. `Workers.HalvesDisjoint` proves it, but interleaving is not modelled.
- Containers grow only when a value is written (`Container.Set`), not when a slot is allocated. So a container can be shorter than the number of slots, and `Inv` promises a cell only behind a set bit (`CellsCover`). It does not promise that every container covers every allocated slot.
- Containers.Container.Get: requires the slot to lie inside the storage. A raw read of an allocated slot that was never written for that type is not modelled, because in this model that slot may lie past the container's end. A store whose containers cover every allocated slot would return whatever that cell last held.
- Workers.IncrementRange, Workers.IncrementInHalves: require every listed slot to lie inside the container. The tests meet this because every queried entity had the component set. The model does not derive it from allocation, because its containers grow only on write.
- Ecs.EntityManager.CreateEntityWithComponents, Ecs.EntityManager.GetComponent, Ecs.EntityManager.SetComponent, Ecs.EntityManager.RemoveComponent: require a registered id other than `EntityState` (id 0), and `CreateEntityWithComponents` requires this of every supplied type. The `EntityState` column is read through `GetEntityState` and written only by create and destroy. Setting or removing it directly would break the tie between the free list and bit 0. No test does either.
- Ecs.EntityManager.DestroyEntity, Ecs.EntityManager.GetComponent, Ecs.EntityManager.GetEntityState, Ecs.EntityManager.SetComponent, Ecs.EntityManager.RemoveComponent: the `NotLive` and `MissingComponent` results, and the rule that a failed call changes nothing, are added by the model. In the tests, `GetComponent` returns the bare value (lines 71, 107, 274 and 323), and the results of `DestroyEntity` and `RemoveComponent` are never read. No test calls an operation on a non-live slot or reads a missing component. `EntityTable.RemoveAbsentIsNoOp` and `EntityTable.RemoveThenSetReadsNew` state rules of this model, not assertions of the tests.
- `Measure`, `std::chrono` and `Logger::WriteMessage` are timing and logging only.
- Integer wrap-around. Values are unbounded, so `current + 1` never overflows; the tests stay far below the limits.
- The value of cells created when a container grows is never read by a test. The model fills them with 0, and no contract depends on that value.
- Queries do not add the `EntityState` bit implicitly. The comment on line 190 lists that as a TODO, and every modelled test sets it explicitly. The one test left out, `DoSomeParallelUpdates`, builds its filter from `Position` and `Velocity` only (lines 340-342), so it relies on how the unseen header handles that case.
- Ecs.EntityManager.CreateEntityWithComponents: reading back every supplied value is promised only when the supplied types are distinct. With a repeated type, the later value wins (`EntityTable.AttachAll` writes the pairs in order).
- Ecs.EntityManager.GetContainer: the container is shared with the manager. Callers must keep the manager valid themselves, as `ColumnWriteKeepsInv` lets the worker scenarios do. Growing the container is allowed; shrinking it is not modelled.
