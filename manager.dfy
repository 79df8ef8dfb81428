/** The entity manager: owns the slot signatures, the EntityState column, the
    free list, the live counter and one container per registered component
    type, and updates them in place. Its abstract value is an `EntityTable.Table`,
    and every operation is proved to move that value as the matching
    `EntityTable` function does. */
module Ecs {
  import opened Signatures
  import opened Containers
  import opened EntityTable

  class EntityManager {
    /** Number of registered component types; EntityState has bit 0. */
    const width: nat
    /** The container of each registered component type other than EntityState. */
    const columns: map<ComponentId, Container>
    /** The containers, as a set: the part of the heap the manager owns besides itself. */
    ghost const Repr: set<Container>
    var signatures: seq<Signature>
    /** The EntityState container: one state per slot. It stands for the store's own
        EntityState component storage and always agrees with bit 0 of the signatures;
        `Destroyed` is written on destroy but reads as NotLive through GetEntityState. */
    var states: seq<EntityState>
    var freeList: seq<EntityIndex>
    var count: nat

    /** Every container is in Repr. */
    ghost predicate Owned() {
      forall id :: id in columns ==> columns[id] in Repr
    }

    /** The cells of every container, by component type. */
    ghost function Cells(): map<ComponentId, seq<int>>
      requires Owned()
      reads Repr
    {
      map id | id in columns :: columns[id].cells
    }

    ghost function Model(): Table
      requires Owned()
      reads this, Repr
    {
      Table(width, signatures, states, freeList, count, Cells())
    }

    ghost predicate Valid()
      reads this, Repr
    {
      && Owned()
      && Inv(Model())
      // each component type has a container of its own
      && (forall a, b :: a in columns && b in columns && a != b ==> columns[a] != columns[b])
    }

    /** A manager for the component types `0 .. width - 1` (the UsedComponents list). */
    constructor (width: nat)
      requires 1 <= width <= MaxComponents
      ensures Valid() && Model() == Empty(width)
      ensures this.width == width && (forall id :: id in columns <==> 1 <= id < width)
      ensures signatures == [] && freeList == [] && count == 0
      ensures fresh(Repr)
    {
      var made: map<ComponentId, Container> := map[];
      var id := 1;
      while id < width
        invariant 1 <= id <= width
        invariant forall k :: k in made <==> 1 <= k < id
        invariant forall k :: k in made ==> fresh(made[k]) && made[k].cells == []
        invariant forall a, b :: a in made && b in made && a != b ==> made[a] != made[b]
      {
        var c := new Container();
        made := made[id := c];
        id := id + 1;
      }
      this.width := width;
      columns := made;
      Repr := made.Values;
      signatures, states, freeList, count := [], [], [], 0;
      new;
      assert Model() == Empty(width);
    }

    /** The number of live entities: the live counter, which always equals the number of
        slots the EntityState-only query returns. */
    function EntityCount(): (n: nat)
      requires Valid()
      reads this, Repr
      ensures n == Model().count
      ensures n == |Matching(Model().signatures, {StateId})|
    {
      CountIsStateQuery(Model());
      count
    }

    /** Hands out the most recently freed slot, else a new one, with only EntityState set. */
    method CreateEntity() returns (e: EntityIndex)
      requires Valid()
      modifies this
      ensures Valid()
      ensures e == NextSlot(old(Model()))
      ensures signatures == AfterCreate(old(Model())).signatures
      ensures states == AfterCreate(old(Model())).states
      ensures freeList == AfterCreate(old(Model())).freeList
      ensures count == old(count) + 1
    {
      ghost var before := Model();
      ghost var after := AfterCreate(before);
      CreateKeepsInv(before);
      if freeList == [] {
        e := |signatures|;
        signatures := signatures + [{StateId}];
        states := states + [Active];
        count := count + 1;
        assert signatures == after.signatures && states == after.states;
      } else {
        e := freeList[|freeList| - 1];
        signatures := signatures[e := {StateId}];
        states := states[e := Active];
        freeList := freeList[..|freeList| - 1];
        count := count + 1;
        assert signatures == after.signatures && states == after.states;
      }
      assert unchanged(Repr);
      assert Model() == after;
    }

    /** Creates an entity, then attaches each (component, value) pair in order. */
    method CreateEntityWithComponents(attach: seq<Attach>) returns (e: EntityIndex)
      requires Valid()
      requires forall i :: 0 <= i < |attach| ==> attach[i].id in columns
      modifies this, Repr
      ensures Valid()
      ensures e == NextSlot(old(Model()))
      ensures e < |signatures|
      ensures signatures == AfterCreate(old(Model())).signatures[e := {StateId} + AttachedIds(attach)]
      ensures states == AfterCreate(old(Model())).states
      ensures freeList == AfterCreate(old(Model())).freeList
      ensures count == old(count) + 1
      ensures Cells() == AfterCreateWith(old(Model()), attach).columns
      ensures DistinctIds(attach) ==>
                forall i :: 0 <= i < |attach| ==> Lookup(Model(), attach[i].id, e) == Ok(attach[i].value)
      ensures forall id :: id in columns ==> KeepsCellsExcept(old(columns[id].cells), columns[id].cells, e)
    {
      ghost var before := Model();
      CreateWithShape(before, attach);
      e := CreateThenAttach(attach);
    }

    /** CreateEntity followed by the attaching loop, as one move of the table. */
    method CreateThenAttach(attach: seq<Attach>) returns (e: EntityIndex)
      requires Valid()
      requires forall i :: 0 <= i < |attach| ==> attach[i].id in columns
      modifies this, Repr
      ensures Valid()
      ensures e == NextSlot(old(Model()))
      ensures Model() == AfterCreateWith(old(Model()), attach)
      ensures DistinctIds(attach) ==>
                forall i :: 0 <= i < |attach| ==> Lookup(Model(), attach[i].id, e) == Ok(attach[i].value)
      ensures forall id :: id in columns ==> KeepsCellsExcept(old(columns[id].cells), columns[id].cells, e)
    {
      ghost var before := Model();
      ghost var created := AfterCreate(before);
      assert created.columns.Keys == columns.Keys;
      e := CreateEntity();
      assert unchanged(Repr);
      assert Model() == created;
      AttachEach(e, attach, created);
      assert DistinctIds(attach) ==>
               forall i :: 0 <= i < |attach| ==> Lookup(Model(), attach[i].id, e) == Ok(attach[i].value)
      by {
        if DistinctIds(attach) {
          CreateWithValues(before, attach);
        }
      }
      assert forall id :: id in columns ==> KeepsCellsExcept(before.columns[id], columns[id].cells, e) by {
        CreateWithCells(before, attach);
      }
    }

    /** The attaching loop of CreateEntityWithComponents. */
    method AttachEach(e: EntityIndex, attach: seq<Attach>, ghost created: Table)
      requires Valid() && Model() == created
      requires forall i :: 0 <= i < |attach| ==> attach[i].id in columns
      requires created.columns.Keys == columns.Keys
      modifies this, Repr
      ensures Valid() && Model() == AttachAll(created, e, attach)
    {
      var i := 0;
      while i < |attach|
        invariant 0 <= i <= |attach|
        invariant Valid()
        invariant Model() == AttachAll(created, e, attach[..i])
      {
        AttachAllStep(created, e, attach, i);
        var _ := SetComponent(attach[i].id, e, attach[i].value);
        i := i + 1;
      }
      assert attach[..i] == attach;
    }

    /** Clears every component of a live entity and pushes its slot on the free list; on
        any other index it fails with NotLive and changes nothing. */
    method DestroyEntity(e: EntityIndex) returns (o: Outcome)
      requires Valid()
      modifies this
      ensures Valid()
      ensures o == AfterDestroy(old(Model()), e).1
      ensures signatures == AfterDestroy(old(Model()), e).0.signatures
      ensures states == AfterDestroy(old(Model()), e).0.states
      ensures freeList == AfterDestroy(old(Model()), e).0.freeList
      ensures count == AfterDestroy(old(Model()), e).0.count
    {
      ghost var before := Model();
      DestroyKeepsInv(before, e);
      if !(e < |signatures| && StateId in signatures[e]) {
        return Fail(NotLive);
      }
      LiveCountUpdate(signatures, e, {});
      signatures := signatures[e := {}];
      states := states[e := Destroyed];
      freeList := freeList + [e];
      count := count - 1;
      o := Done;
      assert unchanged(Repr);
      assert Model() == AfterDestroy(before, e).0;
    }

    /** Whether the slot's signature carries the component's bit. */
    function HasComponent(id: ComponentId, e: EntityIndex): (b: bool)
      requires Valid()
      reads this, Repr
      ensures b == Has(Model(), id, e)
    {
      e < |signatures| && id in signatures[e]
    }

    /** The value of a component of a live entity, or why there is none. */
    function GetComponent(id: ComponentId, e: EntityIndex): (r: Result<int>)
      requires Valid() && id in columns
      reads this, Repr
      ensures r == Lookup(Model(), id, e)
    {
      if !(e < |signatures| && StateId in signatures[e]) then Err(NotLive)
      else if id !in signatures[e] then Err(MissingComponent)
      else
        assert Model().columns[id] == columns[id].cells;
        Ok(columns[id].cells[e])
    }

    /** GetComponent<EntityState>. */
    function GetEntityState(e: EntityIndex): (r: Result<EntityState>)
      requires Valid()
      reads this, Repr
      ensures r == StateOf(Model(), e)
    {
      if !(e < |signatures| && StateId in signatures[e]) then Err(NotLive) else Ok(states[e])
    }

    /** Adds the component or overwrites its value. */
    method SetComponent(id: ComponentId, e: EntityIndex, v: int) returns (o: Outcome)
      requires Valid() && id in columns
      modifies this, columns[id]
      ensures Valid()
      ensures (Model(), o) == AfterSet(old(Model()), id, e, v)
    {
      ghost var before := Model();
      SetKeepsInv(before, id, e, v);
      if !(e < |signatures| && StateId in signatures[e]) {
        return Fail(NotLive);
      }
      columns[id].Set(e, v);
      signatures := signatures[e := signatures[e] + {id}];
      o := Done;
      assert Cells() == before.columns[id := columns[id].cells] by {
        forall k | k in columns && k != id
          ensures columns[k].cells == before.columns[k]
        {
          assert columns[k] != columns[id];
        }
      }
      assert Model() == AfterSet(before, id, e, v).0;
    }

    /** Clears the component's bit; removing an absent component is a no-op. */
    method RemoveComponent(id: ComponentId, e: EntityIndex) returns (o: Outcome)
      requires Valid() && id in columns
      modifies this
      ensures Valid()
      ensures (Model(), o) == AfterRemove(old(Model()), id, e)
    {
      ghost var before := Model();
      RemoveFacts(before, id, e);
      if !(e < |signatures| && StateId in signatures[e]) {
        return Fail(NotLive);
      }
      signatures := signatures[e := signatures[e] - {id}];
      o := Done;
      assert unchanged(Repr);
      assert Model() == AfterRemove(before, id, e).0;
    }

    /** The raw container of a component type, shared with the manager: writes through it are
        seen by GetComponent. */
    method GetContainer(id: ComponentId) returns (c: Container)
      requires id in columns
      ensures c == columns[id]
    {
      c := columns[id];
    }

    /** The slots whose signature holds every bit of `filter`, in ascending order. */
    method GetEntities(filter: Signature) returns (entities: seq<EntityIndex>)
      requires Valid()
      ensures entities == Matching(Model().signatures, filter)
    {
      entities := [];
      var k := 0;
      while k < |signatures|
        invariant 0 <= k <= |signatures|
        invariant entities == MatchingUpTo(signatures, k, filter)
      {
        if filter <= signatures[k] {
          entities := entities + [k];
        }
        k := k + 1;
      }
    }
  }
}
