/** The UnitTest01 test methods as verified scenarios. Each test becomes a method that drives
    a fresh EntityManager through the calls the test makes and returns what the test observes;
    its postcondition states the values the test asserts. Longer tests are cut into steps.
    In the small scenarios a step that hands the manager on states its signatures and free
    list afterwards (`InState`), and the last step states only what the test asserts. In the
    bulk scenarios the set-up steps start from `InState(m, w, [], [])` and end with the
    signature of every slot; the other steps state counts and query results. Component
    types are numbered in the order of the test's UsedComponents list, EntityState first. */
module UnitTest01 {
  import opened Signatures
  import opened Workers
  import opened EntityTable
  import opened Ecs

  /** The manager is valid, registers the component types `0 .. width - 1`, and its slot
      signatures and free list are exactly `sigs` and `free`. */
  ghost predicate InState(m: EntityManager, width: nat, sigs: seq<Signature>, free: seq<EntityIndex>)
    reads m, m.Repr
  {
    && m.Valid()
    && m.width == width
    && (forall id :: id in m.columns <==> 1 <= id < width)
    && m.signatures == sigs
    && m.freeList == free
  }

  /** The ids a one-element attach list sets. */
  lemma AttachedOne(a: Attach)
    ensures AttachedIds([a]) == {a.id}
  {
    assert [a][0].id == a.id;
  }

  /** The ids a two-element attach list sets. */
  lemma AttachedTwo(a: Attach, b: Attach)
    ensures AttachedIds([a, b]) == {a.id, b.id}
  {
    assert [a, b][0].id == a.id && [a, b][1].id == b.id;
  }

  // ---------------------------------------------------------------------------
  // EntityCountTest

  /** UsedComponents<EntityState>: counts 0, 1, 2, 1, 2 over create, create, destroy, create;
      the handles are 0, 1 and then the recycled 0, which reads Active again. */
  method EntityCountTest() returns (counts: seq<nat>, handles: seq<EntityIndex>,
                                   hasState: bool, states: seq<Result<EntityState>>)
    ensures counts == [0, 1, 2, 1, 2]
    ensures handles == [0, 1, 0]
    ensures hasState
    ensures states == [Ok(Active), Ok(Active)]
  {
    var m := new EntityManager(1);
    var n0 := m.EntityCount();
    var entity, n1, h, s0 := CountFirst(m);
    var other, n2 := CountSecond(m);
    var n3 := CountDestroy(m, entity);
    var again, n4, s1 := CountRecreate(m);
    counts := [n0, n1, n2, n3, n4];
    handles := [entity, other, again];
    hasState := h;
    states := [s0, s1];
  }

  method CountFirst(m: EntityManager) returns (entity: EntityIndex, n: nat, has: bool,
                                               state: Result<EntityState>)
    requires InState(m, 1, [], [])
    modifies m
    ensures InState(m, 1, [{0}], [])
    ensures entity == 0 && n == 1 && has && state == Ok(Active)
  {
    entity := m.CreateEntity();
    n := m.EntityCount();
    has := m.HasComponent(StateId, entity);
    state := m.GetEntityState(entity);
  }

  method CountSecond(m: EntityManager) returns (other: EntityIndex, n: nat)
    requires InState(m, 1, [{0}], [])
    modifies m
    ensures InState(m, 1, [{0}, {0}], [])
    ensures other == 1 && n == 2
  {
    other := m.CreateEntity();
    n := m.EntityCount();
  }

  method CountDestroy(m: EntityManager, entity: EntityIndex) returns (n: nat)
    requires InState(m, 1, [{0}, {0}], []) && entity == 0
    modifies m
    ensures InState(m, 1, [{}, {0}], [0])
    ensures n == 1
  {
    assert LiveAmong(m.signatures, 1) == 1;
    var _ := m.DestroyEntity(entity);
    n := m.EntityCount();
  }

  method CountRecreate(m: EntityManager) returns (again: EntityIndex, n: nat, state: Result<EntityState>)
    requires InState(m, 1, [{}, {0}], [0])
    modifies m
    ensures again == 0 && n == 2 && state == Ok(Active)
  {
    again := m.CreateEntity();
    n := m.EntityCount();
    state := m.GetEntityState(again);
  }

  // ---------------------------------------------------------------------------
  // MultiComponentsTest

  /** UsedComponents<EntityState, int>: a create with an int carries both bits, a bare create
      carries EntityState only, and the third entity reads back the int it was created with. */
  method MultiComponentsTest() returns (counts: seq<nat>, has: seq<bool>, third: Result<int>)
    ensures counts == [0, 1, 2, 3]
    ensures has == [true, true, true, false]
    ensures third == Ok(99)
  {
    var m := new EntityManager(2);
    var n0 := m.EntityCount();
    var n1, h0, h1 := MultiWithInt(m);
    var n2, h2, h3 := MultiBare(m);
    var n3, value := MultiThird(m);
    counts := [n0, n1, n2, n3];
    has := [h0, h1, h2, h3];
    third := value;
  }

  method MultiWithInt(m: EntityManager) returns (n: nat, hasState: bool, hasInt: bool)
    requires InState(m, 2, [], [])
    modifies m, m.Repr
    ensures InState(m, 2, [{0, 1}], [])
    ensures n == 1 && hasState && hasInt
  {
    AttachedOne(Attach(1, 123));
    var entity := m.CreateEntityWithComponents([Attach(1, 123)]);
    assert |m.signatures| == 1 && m.signatures[0] == {0, 1};
    n := m.EntityCount();
    hasState := m.HasComponent(StateId, entity);
    hasInt := m.HasComponent(1, entity);
  }

  method MultiBare(m: EntityManager) returns (n: nat, hasState: bool, hasInt: bool)
    requires InState(m, 2, [{0, 1}], [])
    modifies m
    ensures InState(m, 2, [{0, 1}, {0}], [])
    ensures n == 2 && hasState && !hasInt
  {
    var other := m.CreateEntity();
    n := m.EntityCount();
    hasState := m.HasComponent(StateId, other);
    hasInt := m.HasComponent(1, other);
  }

  method MultiThird(m: EntityManager) returns (n: nat, value: Result<int>)
    requires InState(m, 2, [{0, 1}, {0}], [])
    modifies m, m.Repr
    ensures n == 3 && value == Ok(99)
  {
    var third := m.CreateEntityWithComponents([Attach(1, 99)]);
    n := m.EntityCount();
    value := m.GetComponent(1, third);
  }

  // ---------------------------------------------------------------------------
  // EntityReuseWithDifferentComponents

  /** UsedComponents<EntityState, int, float, IntVec> (ids 0, 1, 2, 3): destroying slot 1 and
      then slot 0 makes the next two creates return 0 and then 1 (the free list is a stack),
      and each recycled slot carries only the components it was created with. */
  method EntityReuseWithDifferentComponents()
    returns (counts: seq<nat>, handles: seq<EntityIndex>, has: seq<bool>)
    ensures counts == [0, 1, 2, 1, 0, 1, 2]
    ensures handles == [0, 1, 0, 1]
    ensures has == [true, true, true, false, false, true, false, false, true, false, false]
  {
    var m := new EntityManager(4);
    var n0 := m.EntityCount();
    var first, n1, h0, h1 := ReuseFirst(m);
    var second, n2, h2, h3, h4 := ReuseSecond(m);
    var n3 := ReuseDestroySecond(m, second);
    var n4 := ReuseDestroyFirst(m, first);
    var second', n5, h5, h6, h7 := ReuseSecondAgain(m);
    var first', n6, h8, h9, h10 := ReuseFirstAgain(m);
    counts := [n0, n1, n2, n3, n4, n5, n6];
    handles := [first, second, second', first'];
    has := [h0, h1, h2, h3, h4, h5, h6, h7, h8, h9, h10];
  }

  method ReuseFirst(m: EntityManager) returns (first: EntityIndex, n: nat, hasInt: bool, hasVec: bool)
    requires InState(m, 4, [], [])
    modifies m, m.Repr
    ensures InState(m, 4, [{0, 1, 3}], [])
    ensures first == 0 && n == 1 && hasInt && hasVec
  {
    AttachedTwo(Attach(1, 123), Attach(3, 0));
    first := m.CreateEntityWithComponents([Attach(1, 123), Attach(3, 0)]);
    assert |m.signatures| == 1 && m.signatures[0] == {0, 1, 3};
    n := m.EntityCount();
    hasInt := m.HasComponent(1, first);
    hasVec := m.HasComponent(3, first);
  }

  method ReuseSecond(m: EntityManager)
    returns (second: EntityIndex, n: nat, hasFloat: bool, hasInt: bool, hasVec: bool)
    requires InState(m, 4, [{0, 1, 3}], [])
    modifies m, m.Repr
    ensures InState(m, 4, [{0, 1, 3}, {0, 2}], [])
    ensures second == 1 && n == 2 && hasFloat && !hasInt && !hasVec
  {
    AttachedOne(Attach(2, 111));
    second := m.CreateEntityWithComponents([Attach(2, 111)]);
    assert |m.signatures| == 2 && m.signatures[0] == {0, 1, 3} && m.signatures[1] == {0, 2};
    n := m.EntityCount();
    hasFloat := m.HasComponent(2, second);
    hasInt := m.HasComponent(1, second);
    hasVec := m.HasComponent(3, second);
  }

  method ReuseDestroySecond(m: EntityManager, second: EntityIndex) returns (n: nat)
    requires InState(m, 4, [{0, 1, 3}, {0, 2}], []) && second == 1
    modifies m
    ensures InState(m, 4, [{0, 1, 3}, {}], [1])
    ensures n == 1
  {
    var _ := m.DestroyEntity(second);
    n := m.EntityCount();
  }

  method ReuseDestroyFirst(m: EntityManager, first: EntityIndex) returns (n: nat)
    requires InState(m, 4, [{0, 1, 3}, {}], [1]) && first == 0
    modifies m
    ensures InState(m, 4, [{}, {}], [1, 0])
    ensures n == 0
  {
    assert LiveAmong(m.signatures, 1) == 1;
    var _ := m.DestroyEntity(first);
    n := m.EntityCount();
  }

  method ReuseSecondAgain(m: EntityManager)
    returns (second: EntityIndex, n: nat, hasFloat: bool, hasVec: bool, hasInt: bool)
    requires InState(m, 4, [{}, {}], [1, 0])
    modifies m, m.Repr
    ensures InState(m, 4, [{0, 2}, {}], [1])
    ensures second == 0 && n == 1 && hasFloat && !hasVec && !hasInt
  {
    AttachedOne(Attach(2, 99));
    second := m.CreateEntityWithComponents([Attach(2, 99)]);
    assert |m.signatures| == 2 && m.signatures[0] == {0, 2} && m.signatures[1] == {};
    n := m.EntityCount();
    hasFloat := m.HasComponent(2, second);
    hasVec := m.HasComponent(3, second);
    hasInt := m.HasComponent(1, second);
  }

  method ReuseFirstAgain(m: EntityManager)
    returns (first: EntityIndex, n: nat, hasVec: bool, hasFloat: bool, hasInt: bool)
    requires InState(m, 4, [{0, 2}, {}], [1])
    modifies m, m.Repr
    ensures first == 1 && n == 2 && hasVec && !hasFloat && !hasInt
  {
    AttachedOne(Attach(3, 1));
    first := m.CreateEntityWithComponents([Attach(3, 1)]);
    assert |m.signatures| == 2 && m.signatures[0] == {0, 2} && m.signatures[1] == {0, 3};
    n := m.EntityCount();
    hasVec := m.HasComponent(3, first);
    hasFloat := m.HasComponent(2, first);
    hasInt := m.HasComponent(1, first);
  }

  // ---------------------------------------------------------------------------
  // The queries the loop tests make, over the first `n` slots laid out in a pattern

  /** Every slot matches: the query lists 0, 1, ..., n - 1. */
  method QueryEvery(m: EntityManager, n: nat, filter: Signature) returns (entities: seq<EntityIndex>)
    requires m.Valid() && |m.signatures| == n
    requires forall k :: 0 <= k < n ==> Matches(m.signatures[k], filter)
    ensures |entities| == n && forall i :: 0 <= i < n ==> entities[i] == i
  {
    entities := m.GetEntities(filter);
    MatchingAll(m.signatures, n, filter);
  }

  /** No slot matches: the query is empty. */
  method QueryNothing(m: EntityManager, n: nat, filter: Signature) returns (entities: seq<EntityIndex>)
    requires m.Valid() && |m.signatures| == n
    requires forall k :: 0 <= k < n ==> !Matches(m.signatures[k], filter)
    ensures entities == []
  {
    entities := m.GetEntities(filter);
    MatchingNone(m.signatures, n, filter);
  }

  /** Exactly the even slots match: the query lists those, (n + 1) / 2 of them. */
  method QueryEvenSlots(m: EntityManager, n: nat, filter: Signature) returns (entities: seq<EntityIndex>)
    requires m.Valid() && |m.signatures| == n
    requires forall k :: 0 <= k < n ==> (Matches(m.signatures[k], filter) <==> k % 2 == 0)
    ensures |entities| == (n + 1) / 2
    ensures forall k: nat :: k in entities <==> k < n && k % 2 == 0
  {
    entities := m.GetEntities(filter);
    MatchingEvenSlots(m.signatures, n, filter);
    MatchingExact(m.signatures, n, filter);
  }

  /** Exactly the odd slots match: the query lists those, n / 2 of them. */
  method QueryOddSlots(m: EntityManager, n: nat, filter: Signature) returns (entities: seq<EntityIndex>)
    requires m.Valid() && |m.signatures| == n
    requires forall k :: 0 <= k < n ==> (Matches(m.signatures[k], filter) <==> k % 2 == 1)
    ensures |entities| == n / 2
    ensures forall k: nat :: k in entities <==> k < n && k % 2 == 1
  {
    entities := m.GetEntities(filter);
    MatchingOddSlots(m.signatures, n, filter);
    MatchingExact(m.signatures, n, filter);
  }

  /** Exactly the slots that are not multiples of three match. */
  method QuerySkippingThirds(m: EntityManager, n: nat, filter: Signature) returns (entities: seq<EntityIndex>)
    requires m.Valid() && |m.signatures| == n
    requires forall k :: 0 <= k < n ==> (Matches(m.signatures[k], filter) <==> k % 3 != 0)
    ensures |entities| == n - (n + 2) / 3
    ensures forall k: nat :: k in entities <==> k < n && k % 3 != 0
  {
    entities := m.GetEntities(filter);
    MatchingSkipsThirds(m.signatures, n, filter);
    MatchingExact(m.signatures, n, filter);
  }

  // ---------------------------------------------------------------------------
  // GetOnlyLiveEntitiesForComponents and GetEntitiesForComponents

  /** UsedComponents<EntityState, int, TestComponent> (ids 0, 1, 2): after 1000 creates with an
      int and a TestComponent the {EntityState, int} query returns all 1000; after destroying
      every slot whose index is a multiple of three it returns 666, none of them destroyed. */
  method GetOnlyLiveEntitiesForComponents()
    returns (initial: nat, created: nat, all: seq<EntityIndex>, live: seq<EntityIndex>)
    ensures initial == 0 && created == 1000
    ensures |all| == 1000
    ensures |live| == 666
    ensures forall k :: k in live ==> k % 3 != 0
  {
    var m := new EntityManager(3);
    initial := m.EntityCount();
    created, all := LiveSetUp(m);
    live := LiveAfterDestroy(m);
  }

  method LiveSetUp(m: EntityManager) returns (created: nat, all: seq<EntityIndex>)
    requires InState(m, 3, [], [])
    modifies m, m.Repr
    ensures m.Valid() && |m.signatures| == 1000
    ensures forall k :: 0 <= k < 1000 ==> m.signatures[k] == {0, 1, 2}
    ensures created == 1000 && |all| == 1000
  {
    CreateWithIntAndTest(m, 1000);
    created := m.EntityCount();
    all := QueryEvery(m, 1000, {0, 1});
  }

  method LiveAfterDestroy(m: EntityManager) returns (live: seq<EntityIndex>)
    requires m.Valid() && |m.signatures| == 1000
    requires forall k :: 0 <= k < 1000 ==> m.signatures[k] == {0, 1, 2}
    modifies m
    ensures |live| == 666
    ensures forall k :: k in live ==> k % 3 != 0
  {
    DestroyMultiplesOfThree(m, 1000);
    live := QuerySkippingThirds(m, 1000, {0, 1});
  }

  /** CreateEntityWithComponents on a manager with an empty free list: the entity takes a
      new slot at the end, carrying EntityState and the attached components. */
  method AppendEntity(m: EntityManager, attach: seq<Attach>) returns (e: EntityIndex)
    requires m.Valid() && m.freeList == []
    requires forall j :: 0 <= j < |attach| ==> attach[j].id in m.columns
    modifies m, m.Repr
    ensures m.Valid() && m.freeList == [] && m.count == old(m.count) + 1
    ensures e == old(|m.signatures|)
    ensures m.signatures == old(m.signatures) + [{StateId} + AttachedIds(attach)]
  {
    e := m.CreateEntityWithComponents(attach);
  }

  /** The creation loop: `n` entities, each with an int and a TestComponent. */
  method CreateWithIntAndTest(m: EntityManager, n: nat)
    requires InState(m, 3, [], [])
    modifies m, m.Repr
    ensures m.Valid() && m.count == n && |m.signatures| == n
    ensures forall k :: 0 <= k < n ==> m.signatures[k] == {0, 1, 2}
  {
    var i := 0;
    while i < n
      invariant 0 <= i <= n
      invariant m.Valid() && (forall id :: id in m.columns <==> 1 <= id < 3)
      invariant m.freeList == [] && m.count == i && |m.signatures| == i
      invariant forall k :: 0 <= k < i ==> m.signatures[k] == {0, 1, 2}
    {
      AttachedTwo(Attach(1, i), Attach(2, 0));
      var _ := AppendEntity(m, [Attach(1, i), Attach(2, 0)]);
      i := i + 1;
    }
  }

  /** The destroy loop: every slot below `n` whose index is a multiple of three. */
  method DestroyMultiplesOfThree(m: EntityManager, n: nat)
    requires m.Valid() && |m.signatures| == n
    requires forall k :: 0 <= k < n ==> m.signatures[k] == {0, 1, 2}
    modifies m
    ensures m.Valid() && |m.signatures| == n
    ensures forall k :: 0 <= k < n ==> m.signatures[k] == if k % 3 == 0 then {} else {0, 1, 2}
  {
    var i := 0;
    while i < n
      invariant 0 <= i <= n
      invariant m.Valid() && |m.signatures| == n
      invariant forall k :: 0 <= k < n ==>
                  m.signatures[k] == if k < i && k % 3 == 0 then {} else {0, 1, 2}
    {
      if i % 3 == 0 {
        var _ := m.DestroyEntity(i);
      }
      i := i + 1;
    }
  }

  /** UsedComponents<EntityState, int, TestComponent>: of 1000 entities with an int, the even
      ones also carry a TestComponent, so the query for all three bits returns 500. */
  method GetEntitiesForComponents() returns (initial: nat, created: nat, found: seq<EntityIndex>)
    ensures initial == 0 && created == 1000
    ensures |found| == 500
    ensures forall k :: k in found ==> k % 2 == 0
  {
    var m := new EntityManager(3);
    initial := m.EntityCount();
    CreateAlternating(m, 1000);
    created := m.EntityCount();
    found := QueryEvenSlots(m, 1000, {0, 1, 2});
  }

  /** The components the alternating creation loop gives slot `k`. */
  function Alternating(k: nat): Signature {
    if k % 2 == 0 then {0, 1, 2} else {0, 1}
  }

  /** The creation loop: `n` entities with an int, the even ones with a TestComponent too. */
  method CreateAlternating(m: EntityManager, n: nat)
    requires InState(m, 3, [], [])
    modifies m, m.Repr
    ensures m.Valid() && m.count == n && |m.signatures| == n
    ensures forall k :: 0 <= k < n ==> m.signatures[k] == Alternating(k)
  {
    var i := 0;
    while i < n
      invariant 0 <= i <= n
      invariant m.Valid() && (forall id :: id in m.columns <==> 1 <= id < 3)
      invariant m.freeList == [] && m.count == i && |m.signatures| == i
      invariant forall k :: 0 <= k < i ==> m.signatures[k] == Alternating(k)
    {
      var attach;
      if i % 2 == 0 {
        AttachedTwo(Attach(1, i), Attach(2, 0));
        attach := [Attach(1, i), Attach(2, 0)];
      } else {
        AttachedOne(Attach(1, i));
        attach := [Attach(1, i)];
      }
      assert {0} + AttachedIds(attach) == Alternating(i);
      var _ := AppendEntity(m, attach);
      i := i + 1;
    }
  }

  // ---------------------------------------------------------------------------
  // DoSomeWork and DoSomeParallelWork

  /** UsedComponents<EntityState, int>: 1000 entities created with their index as int; one pass
      of Set(e, Get(e) + 1) through the raw int container over the query result leaves
      i + 1 at the entity listed i-th. */
  method DoSomeWork() returns (created: nat, values: seq<Result<int>>)
    ensures created == 1000
    ensures |values| == 1000 && forall i :: 0 <= i < 1000 ==> values[i] == Ok(i + 1)
  {
    var m := new EntityManager(2);
    CreateWithIndex(m, 1000);
    created := m.EntityCount();
    var entities := QueryEvery(m, 1000, {0, 1});
    OneWorker(m, entities);
    values := ReadInts(m, entities);
  }

  /** The same with the pass split at the midpoint of the query result between two workers. */
  method DoSomeParallelWork() returns (created: nat, values: seq<Result<int>>)
    ensures created == 1000
    ensures |values| == 1000 && forall i :: 0 <= i < 1000 ==> values[i] == Ok(i + 1)
  {
    var m := new EntityManager(2);
    CreateWithIndex(m, 1000);
    created := m.EntityCount();
    var entities := QueryEvery(m, 1000, {0, 1});
    TwoWorkers(m, entities);
    values := ReadInts(m, entities);
  }

  /** The creation loop: `n` entities, the i-th with int i. */
  method CreateWithIndex(m: EntityManager, n: nat)
    requires InState(m, 2, [], [])
    modifies m, m.Repr
    ensures m.Valid() && (forall id :: id in m.columns <==> id == 1)
    ensures m.count == n && |m.signatures| == n && n <= |m.columns[1].cells|
    ensures forall k :: 0 <= k < n ==> m.signatures[k] == {0, 1}
    ensures forall k :: 0 <= k < n ==> m.columns[1].cells[k] == k
  {
    var i := 0;
    while i < n
      invariant 0 <= i <= n
      invariant m.Valid() && (forall id :: id in m.columns <==> id == 1)
      invariant m.freeList == [] && m.count == i && |m.signatures| == i
      invariant i <= |m.columns[1].cells|
      invariant forall k :: 0 <= k < i ==> m.signatures[k] == {0, 1}
      invariant forall k :: 0 <= k < i ==> m.columns[1].cells[k] == k
    {
      AttachedOne(Attach(1, i));
      var e := m.CreateEntityWithComponents([Attach(1, i)]);
      assert e == i && m.signatures[i] == {0, 1};
      assert m.Model().columns[1] == m.columns[1].cells;
      i := i + 1;
    }
  }

  /** The query result 0, 1, ..., n - 1 bumps every one of the first n cells once. */
  lemma BumpedEverySlot(cells: seq<int>, entities: seq<EntityIndex>)
    requires |entities| <= |cells|
    requires forall i :: 0 <= i < |entities| ==> entities[i] == i
    ensures forall i :: 0 <= i < |entities| ==> entities[i] < |cells|
    ensures forall k :: 0 <= k < |entities| ==> Bumped(cells, entities)[k] == cells[k] + 1
  {
    BumpedOnce(cells, entities);
    forall k | 0 <= k < |entities|
      ensures k in entities
    {
      assert entities[k] == k;
    }
  }

  /** The single-worker pass, through the raw container of int. */
  method OneWorker(m: EntityManager, entities: seq<EntityIndex>)
    requires m.Valid() && (forall id :: id in m.columns <==> id == 1)
    requires |entities| <= |m.columns[1].cells|
    requires forall i :: 0 <= i < |entities| ==> entities[i] == i
    modifies m.columns[1]
    ensures m.Valid()
    ensures |m.columns[1].cells| == |old(m.columns[1].cells)|
    ensures forall k :: 0 <= k < |entities| ==> m.columns[1].cells[k] == old(m.columns[1].cells[k]) + 1
  {
    ghost var before := m.Model();
    var ints := m.GetContainer(1);
    BumpedEverySlot(ints.cells, entities);
    IncrementRange(ints, entities, 0, |entities|);
    assert entities[0..|entities|] == entities;
    ColumnWriteKeepsInv(before, 1, ints.cells);
    assert m.Model() == before.(columns := before.columns[1 := ints.cells]);
  }

  /** The two-worker pass over the halves of the query result, through the raw container of int. */
  method TwoWorkers(m: EntityManager, entities: seq<EntityIndex>)
    requires m.Valid() && (forall id :: id in m.columns <==> id == 1)
    requires |entities| <= |m.columns[1].cells|
    requires forall i :: 0 <= i < |entities| ==> entities[i] == i
    modifies m.columns[1]
    ensures m.Valid()
    ensures |m.columns[1].cells| == |old(m.columns[1].cells)|
    ensures forall k :: 0 <= k < |entities| ==> m.columns[1].cells[k] == old(m.columns[1].cells[k]) + 1
  {
    ghost var before := m.Model();
    var ints := m.GetContainer(1);
    BumpedEverySlot(ints.cells, entities);
    IncrementInHalves(ints, entities);
    ColumnWriteKeepsInv(before, 1, ints.cells);
    assert m.Model() == before.(columns := before.columns[1 := ints.cells]);
  }

  /** The checking loop: GetComponent<int> of the entity listed i-th, for every i. */
  method ReadInts(m: EntityManager, entities: seq<EntityIndex>) returns (values: seq<Result<int>>)
    requires m.Valid() && (forall id :: id in m.columns <==> id == 1)
    requires |entities| <= |m.signatures|
    requires forall i :: 0 <= i < |entities| ==> entities[i] == i
    requires forall k :: 0 <= k < |entities| ==> m.signatures[k] == {0, 1}
    requires forall k :: 0 <= k < |entities| ==> k < |m.columns[1].cells| && m.columns[1].cells[k] == k + 1
    ensures |values| == |entities|
    ensures forall i :: 0 <= i < |entities| ==> values[i] == Ok(i + 1)
  {
    values := [];
    var i := 0;
    while i < |entities|
      invariant 0 <= i <= |entities|
      invariant |values| == i
      invariant forall j :: 0 <= j < i ==> values[j] == Ok(j + 1)
    {
      var v := m.GetComponent(1, entities[i]);
      values := values + [v];
      i := i + 1;
    }
  }

  // ---------------------------------------------------------------------------
  // AddComponents and RemoveComponents

  /** UsedComponents<EntityState, int, float, Position> (ids 0, 1, 2, 3): of 100 bare entities
      all match EntityState and none matches EntityState + Position; after SetComponent of a
      Position on the even ones, 50 match. */
  method AddComponents() returns (created: nat, all: seq<EntityIndex>, before: seq<EntityIndex>,
                                  after: seq<EntityIndex>)
    ensures created == 100
    ensures |all| == 100 && before == [] && |after| == 50
  {
    var m := new EntityManager(4);
    created, all, before := AddSetUp(m);
    after := AddPositions(m);
  }

  method AddSetUp(m: EntityManager) returns (created: nat, all: seq<EntityIndex>, before: seq<EntityIndex>)
    requires InState(m, 4, [], [])
    modifies m
    ensures m.Valid() && 3 in m.columns && |m.signatures| == 100
    ensures forall k :: 0 <= k < 100 ==> m.signatures[k] == {0}
    ensures created == 100 && |all| == 100 && before == []
  {
    CreateBare(m, 100);
    created := m.EntityCount();
    all := QueryEvery(m, 100, {0});
    before := QueryNothing(m, 100, {0, 3});
  }

  method AddPositions(m: EntityManager) returns (after: seq<EntityIndex>)
    requires m.Valid() && 3 in m.columns && |m.signatures| == 100
    requires forall k :: 0 <= k < 100 ==> m.signatures[k] == {0}
    modifies m, m.columns[3]
    ensures |after| == 50
  {
    SetPositionOnEven(m, 100);
    after := QueryEvenSlots(m, 100, {0, 3});
  }

  /** The creation loop: `n` entities with EntityState only. */
  method CreateBare(m: EntityManager, n: nat)
    requires InState(m, 4, [], [])
    modifies m
    ensures m.Valid() && (forall id :: id in m.columns <==> 1 <= id < 4)
    ensures m.count == n && |m.signatures| == n
    ensures forall k :: 0 <= k < n ==> m.signatures[k] == {0}
  {
    var i := 0;
    while i < n
      invariant 0 <= i <= n
      invariant m.Valid() && (forall id :: id in m.columns <==> 1 <= id < 4)
      invariant m.freeList == [] && m.count == i && |m.signatures| == i
      invariant forall k :: 0 <= k < i ==> m.signatures[k] == {0}
    {
      var _ := m.CreateEntity();
      i := i + 1;
    }
  }

  /** The loop of SetComponent<Position> on every even slot below `n`. */
  method SetPositionOnEven(m: EntityManager, n: nat)
    requires m.Valid() && 3 in m.columns && |m.signatures| == n
    requires forall k :: 0 <= k < n ==> m.signatures[k] == {0}
    modifies m, m.columns[3]
    ensures m.Valid() && |m.signatures| == n
    ensures forall k :: 0 <= k < n ==> m.signatures[k] == if k % 2 == 0 then {0, 3} else {0}
  {
    var i := 0;
    while i < n
      invariant 0 <= i <= n
      invariant m.Valid() && |m.signatures| == n
      invariant forall k :: 0 <= k < n ==>
                  m.signatures[k] == if k < i && k % 2 == 0 then {0, 3} else {0}
    {
      if i % 2 == 0 {
        var _ := m.SetComponent(3, i, 0);
      }
      i := i + 1;
    }
  }

  /** UsedComponents<EntityState, int, float, Position>: 100 entities created with an int and a
      float all match {EntityState, int, float}; after RemoveComponent<int> on the even ones,
      50 do, all of them odd. */
  method RemoveComponents() returns (created: nat, before: seq<EntityIndex>, after: seq<EntityIndex>)
    ensures created == 100
    ensures |before| == 100 && |after| == 50
    ensures forall k :: k in after ==> k % 2 == 1
  {
    var m := new EntityManager(4);
    created, before := RemoveSetUp(m);
    after := RemoveInts(m);
  }

  method RemoveSetUp(m: EntityManager) returns (created: nat, before: seq<EntityIndex>)
    requires InState(m, 4, [], [])
    modifies m, m.Repr
    ensures m.Valid() && 1 in m.columns && |m.signatures| == 100
    ensures forall k :: 0 <= k < 100 ==> m.signatures[k] == {0, 1, 2}
    ensures created == 100 && |before| == 100
  {
    CreateWithIntAndFloat(m, 100);
    created := m.EntityCount();
    before := QueryEvery(m, 100, {0, 1, 2});
  }

  method RemoveInts(m: EntityManager) returns (after: seq<EntityIndex>)
    requires m.Valid() && 1 in m.columns && |m.signatures| == 100
    requires forall k :: 0 <= k < 100 ==> m.signatures[k] == {0, 1, 2}
    modifies m
    ensures |after| == 50
    ensures forall k :: k in after ==> k % 2 == 1
  {
    RemoveIntOnEven(m, 100);
    after := QueryOddSlots(m, 100, {0, 1, 2});
  }

  /** The creation loop: `n` entities, each with an int and a float. */
  method CreateWithIntAndFloat(m: EntityManager, n: nat)
    requires InState(m, 4, [], [])
    modifies m, m.Repr
    ensures m.Valid() && (forall id :: id in m.columns <==> 1 <= id < 4)
    ensures m.count == n && |m.signatures| == n
    ensures forall k :: 0 <= k < n ==> m.signatures[k] == {0, 1, 2}
  {
    var i := 0;
    while i < n
      invariant 0 <= i <= n
      invariant m.Valid() && (forall id :: id in m.columns <==> 1 <= id < 4)
      invariant m.freeList == [] && m.count == i && |m.signatures| == i
      invariant forall k :: 0 <= k < i ==> m.signatures[k] == {0, 1, 2}
    {
      AttachedTwo(Attach(1, i), Attach(2, 99));
      var _ := AppendEntity(m, [Attach(1, i), Attach(2, 99)]);
      i := i + 1;
    }
  }

  /** The loop of RemoveComponent<int> on every even slot below `n`. */
  method RemoveIntOnEven(m: EntityManager, n: nat)
    requires m.Valid() && 1 in m.columns && |m.signatures| == n
    requires forall k :: 0 <= k < n ==> m.signatures[k] == {0, 1, 2}
    modifies m
    ensures m.Valid() && |m.signatures| == n
    ensures forall k :: 0 <= k < n ==> m.signatures[k] == if k % 2 == 0 then {0, 2} else {0, 1, 2}
  {
    var i := 0;
    while i < n
      invariant 0 <= i <= n
      invariant m.Valid() && |m.signatures| == n
      invariant forall k :: 0 <= k < n ==>
                  m.signatures[k] == if k < i && k % 2 == 0 then {0, 2} else {0, 1, 2}
    {
      if i % 2 == 0 {
        var _ := m.RemoveComponent(1, i);
      }
      i := i + 1;
    }
  }

  // ---------------------------------------------------------------------------
  // ComponentsThatInherit

  /** The query of three slots, spelled out slot by slot. */
  lemma MatchingOfThree(a: Signature, b: Signature, c: Signature, filter: Signature)
    ensures Matching([a, b, c], filter)
         == (if Matches(a, filter) then [0] else [])
          + (if Matches(b, filter) then [1] else [])
          + (if Matches(c, filter) then [2] else [])
  {
    var s := [a, b, c];
    assert s[0] == a && s[1] == b && s[2] == c;
    assert MatchingUpTo(s, 1, filter) == (if Matches(a, filter) then [0] else []);
    assert MatchingUpTo(s, 2, filter) == MatchingUpTo(s, 1, filter) + (if Matches(b, filter) then [1] else []);
  }

  /** The three queries of ComponentsThatInherit over its three slots. */
  lemma InheritedMatches()
    ensures Matching([{0, 1}, {0, 2}, {0, 1, 2}], {0, 1}) == [0, 2]
    ensures Matching([{0, 1}, {0, 2}, {0, 1, 2}], {0, 1, 2}) == [2]
    ensures Matching([{0, 1}, {0, 2}, {0, 1, 2}], {0, 2}) == [1, 2]
  {
    MatchingOfThree({0, 1}, {0, 2}, {0, 1, 2}, {0, 1});
    MatchingOfThree({0, 1}, {0, 2}, {0, 1, 2}, {0, 1, 2});
    MatchingOfThree({0, 1}, {0, 2}, {0, 1, 2}, {0, 2});
  }

  /** UsedComponents<EntityState, BaseComponent, DerivedComponent> (ids 0, 1, 2): a derived type
      is a component type of its own, so Base matches slots 0 and 2, Base and Derived only
      slot 2, and Derived slots 1 and 2. */
  method ComponentsThatInherit() returns (handles: seq<EntityIndex>, count: nat,
                                          base: seq<EntityIndex>, both: seq<EntityIndex>,
                                          derived: seq<EntityIndex>)
    ensures handles == [0, 1, 2] && count == 3
    ensures base == [0, 2] && both == [2] && derived == [1, 2]
  {
    var m := new EntityManager(3);
    var onlyBase := InheritBase(m);
    var onlyDerived := InheritDerived(m);
    var withBoth := InheritBoth(m);
    count := m.EntityCount();
    base, both, derived := InheritQueries(m);
    handles := [onlyBase, onlyDerived, withBoth];
  }

  method InheritQueries(m: EntityManager)
    returns (base: seq<EntityIndex>, both: seq<EntityIndex>, derived: seq<EntityIndex>)
    requires InState(m, 3, [{0, 1}, {0, 2}, {0, 1, 2}], [])
    ensures base == [0, 2] && both == [2] && derived == [1, 2]
  {
    InheritedMatches();
    base := m.GetEntities({0, 1});
    both := m.GetEntities({0, 1, 2});
    derived := m.GetEntities({0, 2});
  }

  method InheritBase(m: EntityManager) returns (onlyBase: EntityIndex)
    requires InState(m, 3, [], [])
    modifies m, m.Repr
    ensures InState(m, 3, [{0, 1}], [])
    ensures onlyBase == 0
  {
    AttachedOne(Attach(1, 0));
    onlyBase := m.CreateEntityWithComponents([Attach(1, 0)]);
    assert |m.signatures| == 1 && m.signatures[0] == {0, 1};
  }

  method InheritDerived(m: EntityManager) returns (onlyDerived: EntityIndex)
    requires InState(m, 3, [{0, 1}], [])
    modifies m, m.Repr
    ensures InState(m, 3, [{0, 1}, {0, 2}], [])
    ensures onlyDerived == 1
  {
    AttachedOne(Attach(2, 0));
    onlyDerived := m.CreateEntityWithComponents([Attach(2, 0)]);
    assert |m.signatures| == 2 && m.signatures[0] == {0, 1} && m.signatures[1] == {0, 2};
  }

  method InheritBoth(m: EntityManager) returns (withBoth: EntityIndex)
    requires InState(m, 3, [{0, 1}, {0, 2}], [])
    modifies m, m.Repr
    ensures InState(m, 3, [{0, 1}, {0, 2}, {0, 1, 2}], []) && m.count == 3
    ensures withBoth == 2
  {
    AttachedTwo(Attach(1, 0), Attach(2, 0));
    withBoth := m.CreateEntityWithComponents([Attach(1, 0), Attach(2, 0)]);
    assert |m.signatures| == 3 && m.signatures[2] == {0, 1, 2};
    assert m.signatures[0] == {0, 1} && m.signatures[1] == {0, 2};
  }
}
