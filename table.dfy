/** The entity table as a value: per-slot signatures, the EntityState column,
    the free list (a stack, last destroyed on top), the live counter and one
    int column per registered component type. Each operation of the entity
    manager is a function from the table before to the table after. */
module EntityTable {
  import opened Signatures
  import opened Containers

  datatype EntityState = Active | Destroyed

  /** Why a call on a slot failed; a failed call leaves the table as it was. */
  datatype Failure = NotLive | MissingComponent

  datatype Outcome = Done | Fail(failure: Failure)

  datatype Result<T> = Ok(value: T) | Err(failure: Failure)

  /** One (component type, value) pair passed to CreateEntityWithComponents. */
  datatype Attach = Attach(id: ComponentId, value: int)

  /** `width` component types are registered: EntityState as bit 0 and one int column
      for each of the bits 1 .. width - 1. */
  datatype Table = Table(
    width: nat,
    signatures: seq<Signature>,
    // the EntityState container; `StatesAgree` ties it to bit 0 of each signature
    states: seq<EntityState>,
    freeList: seq<EntityIndex>,
    count: nat,
    columns: map<ComponentId, seq<int>>)

  /** Registered ids, column keys and slot-parallel lengths. */
  ghost predicate Shaped(t: Table) {
    && 1 <= t.width <= MaxComponents
    && (forall id :: id in t.columns <==> 1 <= id < t.width)
    && |t.states| == |t.signatures|
    && (forall k, id :: 0 <= k < |t.signatures| && id in t.signatures[k] ==> id < t.width)
  }

  /** The free list holds distinct allocated slots: exactly those without the EntityState
      bit, and their signatures are cleared. */
  ghost predicate FreeListSound(t: Table) {
    && (forall i :: 0 <= i < |t.freeList| ==> t.freeList[i] < |t.signatures|)
    && (forall i, j :: 0 <= i < j < |t.freeList| ==> t.freeList[i] != t.freeList[j])
    && (forall k :: 0 <= k < |t.signatures| ==> (StateId in t.signatures[k] <==> k !in t.freeList))
    && (forall k :: 0 <= k < |t.signatures| && k in t.freeList ==> t.signatures[k] == {})
  }

  /** The EntityState column agrees with the EntityState bit. */
  ghost predicate StatesAgree(t: Table) {
    |t.states| == |t.signatures| &&
    forall k :: 0 <= k < |t.signatures| ==>
      t.states[k] == if StateId in t.signatures[k] then Active else Destroyed
  }

  /** A set bit always has a cell behind it. */
  ghost predicate CellsCover(t: Table) {
    forall id, k :: id in t.columns && 0 <= k < |t.signatures| && id in t.signatures[k] ==>
      k < |t.columns[id]|
  }

  ghost predicate Inv(t: Table) {
    && Shaped(t)
    && FreeListSound(t)
    && StatesAgree(t)
    && CellsCover(t)
    // the counter is maintained incrementally and equals the number of live slots
    && t.count == LiveCount(t.signatures)
  }

  /** One empty column for each of the ids 1 .. width - 1. */
  function EmptyColumns(width: nat): (m: map<ComponentId, seq<int>>)
    ensures forall id :: id in m <==> 1 <= id < width
    ensures forall id :: id in m ==> m[id] == []
  {
    if width <= 1 then map[] else EmptyColumns(width - 1)[width - 1 := []]
  }

  /** A manager for `width` component types, before any entity is created. */
  function Empty(width: nat): (t: Table)
    requires 1 <= width <= MaxComponents
    ensures Inv(t) && t.count == 0 && t.signatures == [] && t.freeList == []
    ensures forall id :: id in t.columns ==> t.columns[id] == []
  {
    Table(width, [], [], [], 0, EmptyColumns(width))
  }

  predicate Live(t: Table, e: EntityIndex) {
    e < |t.signatures| && StateId in t.signatures[e]
  }

  /** The slot the next create hands out: the top of the free list, else a new slot. */
  function NextSlot(t: Table): EntityIndex {
    if t.freeList == [] then |t.signatures| else t.freeList[|t.freeList| - 1]
  }

  /** CreateEntity: take NextSlot, reset its signature to {EntityState} and mark it Active. */
  function AfterCreate(t: Table): Table
    requires Inv(t)
  {
    var e := NextSlot(t);
    if t.freeList == [] then
      t.(signatures := t.signatures + [{StateId}], states := t.states + [Active], count := t.count + 1)
    else
      t.(signatures := t.signatures[e := {StateId}], states := t.states[e := Active],
         freeList := t.freeList[..|t.freeList| - 1], count := t.count + 1)
  }

  /** DestroyEntity: clear the signature, mark the slot Destroyed, push it on the free list. */
  function AfterDestroy(t: Table, e: EntityIndex): (Table, Outcome)
    requires Inv(t)
  {
    if !Live(t, e) then (t, Fail(NotLive))
    else
      LiveCountUpdate(t.signatures, e, {});
      (t.(signatures := t.signatures[e := {}], states := t.states[e := Destroyed],
          freeList := t.freeList + [e], count := t.count - 1), Done)
  }

  /** SetComponent: write the value (add or update) and set the component's bit. */
  function AfterSet(t: Table, id: ComponentId, e: EntityIndex, v: int): (Table, Outcome)
    requires id in t.columns
  {
    if !Live(t, e) then (t, Fail(NotLive))
    else
      (t.(signatures := t.signatures[e := t.signatures[e] + {id}],
          columns := t.columns[id := Store(t.columns[id], e, v)]), Done)
  }

  /** RemoveComponent: clear the component's bit; the cell is left as it is. */
  function AfterRemove(t: Table, id: ComponentId, e: EntityIndex): (Table, Outcome)
    requires id in t.columns
  {
    if !Live(t, e) then (t, Fail(NotLive))
    else (t.(signatures := t.signatures[e := t.signatures[e] - {id}]), Done)
  }

  /** Writes the pairs into slot `e` one after the other, as SetComponent does. */
  function AttachAll(t: Table, e: EntityIndex, attach: seq<Attach>): (r: Table)
    requires forall i :: 0 <= i < |attach| ==> attach[i].id in t.columns
    ensures r.columns.Keys == t.columns.Keys
    ensures |r.signatures| == |t.signatures| && r.width == t.width
    decreases |attach|
  {
    if attach == [] then t
    else
      var last := attach[|attach| - 1];
      AfterSet(AttachAll(t, e, attach[..|attach| - 1]), last.id, e, last.value).0
  }

  /** Attaching one more pair is one more SetComponent. */
  lemma AttachAllStep(t: Table, e: EntityIndex, attach: seq<Attach>, i: nat)
    requires i < |attach|
    requires forall j :: 0 <= j < |attach| ==> attach[j].id in t.columns
    ensures AttachAll(t, e, attach[..i + 1])
         == AfterSet(AttachAll(t, e, attach[..i]), attach[i].id, e, attach[i].value).0
  {
    assert attach[..i + 1][..i] == attach[..i];
  }

  /** CreateEntityWithComponents: a create followed by a SetComponent per pair. */
  function AfterCreateWith(t: Table, attach: seq<Attach>): Table
    requires Inv(t)
    requires forall i :: 0 <= i < |attach| ==> attach[i].id in t.columns
  {
    AttachAll(AfterCreate(t), NextSlot(t), attach)
  }

  /** HasComponent: whether the slot's signature has the component's bit. */
  function Has(t: Table, id: ComponentId, e: EntityIndex): bool {
    e < |t.signatures| && id in t.signatures[e]
  }

  /** GetComponent for an int column. */
  function Lookup(t: Table, id: ComponentId, e: EntityIndex): Result<int>
    requires Inv(t) && id in t.columns
  {
    if !Live(t, e) then Err(NotLive)
    else if id !in t.signatures[e] then Err(MissingComponent)
    else Ok(t.columns[id][e])
  }

  /** GetComponent<EntityState>. */
  function StateOf(t: Table, e: EntityIndex): Result<EntityState>
    requires Inv(t)
  {
    if !Live(t, e) then Err(NotLive) else Ok(t.states[e])
  }

  function AttachedIds(attach: seq<Attach>): set<ComponentId> {
    set i | 0 <= i < |attach| :: attach[i].id
  }

  predicate DistinctIds(attach: seq<Attach>) {
    forall i, j :: 0 <= i < j < |attach| ==> attach[i].id != attach[j].id
  }

  // ---------------------------------------------------------------------------
  // Lemmas

  /** Popping a stack of distinct slots removes exactly its top. */
  lemma PopRemovesTop(stack: seq<EntityIndex>)
    requires stack != []
    requires forall i, j :: 0 <= i < j < |stack| ==> stack[i] != stack[j]
    ensures forall k :: k in stack[..|stack| - 1] <==> k in stack && k != stack[|stack| - 1]
  {
    var n := |stack| - 1;
    forall k | k in stack && k != stack[n]
      ensures k in stack[..n]
    {
      var i :| 0 <= i < |stack| && stack[i] == k;
      assert stack[..n][i] == k;
    }
  }

  lemma CreateKeepsInv(t: Table)
    requires Inv(t)
    ensures Inv(AfterCreate(t))
  {
    if t.freeList == [] {
      CreateNewSlotKeepsInv(t);
    } else {
      CreateReusedSlotKeepsInv(t);
    }
  }

  lemma CreateNewSlotKeepsInv(t: Table)
    requires Inv(t) && t.freeList == []
    ensures Inv(AfterCreate(t))
  {
    var r := AfterCreate(t);
    LiveCountSnoc(t.signatures, {StateId});
    NewSlotShaped(t);
    NewSlotFreeList(t);
    assert StatesAgree(r) by {
      assert r.states == t.states + [Active];
    }
    NewSlotCells(t);
  }

  lemma NewSlotShaped(t: Table)
    requires Inv(t) && t.freeList == []
    ensures Shaped(AfterCreate(t))
  {
    var r := AfterCreate(t);
    forall k, id | 0 <= k < |r.signatures| && id in r.signatures[k]
      ensures id < r.width
    {
      if k < |t.signatures| { assert id in t.signatures[k]; }
    }
  }

  lemma NewSlotFreeList(t: Table)
    requires Inv(t) && t.freeList == []
    ensures FreeListSound(AfterCreate(t))
  {
    var r := AfterCreate(t);
    forall k | 0 <= k < |t.signatures|
      ensures StateId in r.signatures[k]
    {
      assert k !in t.freeList;
      assert r.signatures[k] == t.signatures[k];
    }
  }

  lemma NewSlotCells(t: Table)
    requires Inv(t) && t.freeList == []
    ensures CellsCover(AfterCreate(t))
  {
    var r := AfterCreate(t);
    forall id, k | id in r.columns && 0 <= k < |r.signatures| && id in r.signatures[k]
      ensures k < |r.columns[id]|
    {
      if k < |t.signatures| {
        assert id in t.signatures[k];
      } else {
        assert false;
      }
    }
  }

  lemma CreateReusedSlotKeepsInv(t: Table)
    requires Inv(t) && t.freeList != []
    ensures Inv(AfterCreate(t))
  {
    var r, e := AfterCreate(t), NextSlot(t);
    var n := |t.freeList| - 1;
    assert e in t.freeList by {
      assert t.freeList[n] == e;
    }
    PopRemovesTop(t.freeList);
    assert Shaped(r);
    assert FreeListSound(r) by {
      assert forall i :: 0 <= i < n ==> r.freeList[i] == t.freeList[i];
    }
    assert StatesAgree(r);
    assert CellsCover(r);
    LiveCountUpdate(t.signatures, e, {StateId});
  }

  /** A create hands out the top of the free list (else the next new slot), which was not
      live; the slot becomes live with exactly the EntityState bit, reads Active, and the
      count grows by one. Nothing else changes. */
  lemma CreateFacts(t: Table)
    requires Inv(t)
    ensures var r, e := AfterCreate(t), NextSlot(t);
      && Inv(r)
      && !Live(t, e) && Live(r, e)
      && r.signatures[e] == {StateId}
      && StateOf(r, e) == Ok(Active)
      && r.count == t.count + 1
      && |r.signatures| == (if t.freeList == [] then |t.signatures| + 1 else |t.signatures|)
      && r.freeList == (if t.freeList == [] then [] else t.freeList[..|t.freeList| - 1])
      && r.width == t.width && r.columns == t.columns
      && (forall k :: 0 <= k < |t.signatures| && k != e ==>
            r.signatures[k] == t.signatures[k] && r.states[k] == t.states[k])
  {
    CreateKeepsInv(t);
    if t.freeList != [] {
      assert t.freeList[|t.freeList| - 1] in t.freeList;
    }
  }

  lemma DestroyKeepsInv(t: Table, e: EntityIndex)
    requires Inv(t)
    ensures Inv(AfterDestroy(t, e).0)
  {
    if Live(t, e) {
      var r := AfterDestroy(t, e).0;
      LiveCountUpdate(t.signatures, e, {});
      assert forall k :: k in r.freeList <==> k in t.freeList || k == e;
      assert FreeListSound(r);
    }
  }

  /** Destroying a live slot drops the count by exactly one, clears every bit of the slot and
      makes it the next slot handed out; destroying anything else fails with NotLive and
      changes nothing. */
  lemma DestroyFacts(t: Table, e: EntityIndex)
    requires Inv(t)
    ensures var (r, o) := AfterDestroy(t, e);
      && Inv(r)
      && (Live(t, e) ==>
            && o == Done
            && r.count == t.count - 1
            && !Live(r, e) && NextSlot(r) == e
            && r.freeList == t.freeList + [e]
            && r.signatures[e] == {} && (forall id :: !Has(r, id, e))
            && StateOf(r, e) == Err(NotLive)
            && |r.signatures| == |t.signatures|
            && r.width == t.width && r.columns == t.columns
            && (forall k :: 0 <= k < |t.signatures| && k != e ==>
                  r.signatures[k] == t.signatures[k] && r.states[k] == t.states[k]))
      && (!Live(t, e) ==> o == Fail(NotLive) && r == t)
  {
    DestroyKeepsInv(t, e);
  }

  /** The free list is a stack: after destroying `a` and then `b`, the next two creates hand
      out `b` and then `a`, each with a fresh {EntityState} signature, and the count is back
      where it started. */
  lemma FreeListIsLifo(t: Table, a: EntityIndex, b: EntityIndex)
    requires Inv(t) && Live(t, a) && Live(t, b) && a != b
    ensures var t1 := AfterDestroy(t, a).0;
      Inv(t1) && var t2 := AfterDestroy(t1, b).0;
      && Inv(t2) && Inv(AfterCreate(t2))
      && NextSlot(t2) == b
      && NextSlot(AfterCreate(t2)) == a
      && AfterCreate(t2).signatures[b] == {StateId}
      && AfterCreate(AfterCreate(t2)).signatures[a] == {StateId}
      && AfterCreate(AfterCreate(t2)).count == t.count
  {
    var t1 := AfterDestroy(t, a).0;
    DestroyFacts(t, a);
    assert Live(t1, b) by {
      assert t1.signatures[b] == t.signatures[b];
    }
    var t2 := AfterDestroy(t1, b).0;
    DestroyFacts(t1, b);
    var t3 := AfterCreate(t2);
    CreateFacts(t2);
    assert t3.freeList == t1.freeList by {
      assert t2.freeList == t1.freeList + [b];
    }
    CreateFacts(t3);
  }

  lemma SetKeepsInv(t: Table, id: ComponentId, e: EntityIndex, v: int)
    requires Inv(t) && id in t.columns
    ensures Inv(AfterSet(t, id, e, v).0)
  {
    if Live(t, e) {
      LiveCountUpdate(t.signatures, e, t.signatures[e] + {id});
    }
  }

  /** SetComponent on a live slot: afterwards the component is present and reads back the
      value just written, the slot stays live and the count is unchanged. On a slot that is
      not live it fails and changes nothing. */
  lemma SetFacts(t: Table, id: ComponentId, e: EntityIndex, v: int)
    requires Inv(t) && id in t.columns
    ensures var (r, o) := AfterSet(t, id, e, v);
      && Inv(r)
      && (Live(t, e) ==>
            && o == Done && Has(r, id, e) && Lookup(r, id, e) == Ok(v)
            && r.signatures[e] == t.signatures[e] + {id}
            && Live(r, e) && r.count == t.count)
      && (!Live(t, e) ==> o == Fail(NotLive) && r == t)
  {
    SetKeepsInv(t, id, e, v);
  }

  /** SetComponent touches one (component, slot) pair: every other pair reads as before. */
  lemma SetLeavesOthers(t: Table, id: ComponentId, e: EntityIndex, v: int, id2: ComponentId, e2: EntityIndex)
    requires Inv(t) && id in t.columns && id2 in t.columns
    requires id2 != id || e2 != e
    ensures Inv(AfterSet(t, id, e, v).0)
    ensures Lookup(AfterSet(t, id, e, v).0, id2, e2) == Lookup(t, id2, e2)
  {
    SetKeepsInv(t, id, e, v);
  }

  /** RemoveComponent on a live slot clears exactly that component's bit and keeps the entity
      live; on a slot that is not live it fails and changes nothing. */
  lemma RemoveFacts(t: Table, id: ComponentId, e: EntityIndex)
    requires Inv(t) && id in t.columns
    ensures var (r, o) := AfterRemove(t, id, e);
      && Inv(r)
      && (Live(t, e) ==>
            && o == Done && !Has(r, id, e)
            && Lookup(r, id, e) == Err(MissingComponent)
            && r.signatures[e] == t.signatures[e] - {id}
            && Live(r, e) && r.count == t.count
            && r.freeList == t.freeList && r.states == t.states && r.columns == t.columns
            && r.width == t.width && |r.signatures| == |t.signatures|
            && (forall k :: 0 <= k < |t.signatures| && k != e ==> r.signatures[k] == t.signatures[k]))
      && (!Live(t, e) ==> o == Fail(NotLive) && r == t)
  {
    if Live(t, e) {
      LiveCountUpdate(t.signatures, e, t.signatures[e] - {id});
    }
  }

  /** Removing a component a live slot does not have is a successful no-op. */
  lemma RemoveAbsentIsNoOp(t: Table, id: ComponentId, e: EntityIndex)
    requires Inv(t) && id in t.columns && Live(t, e) && !Has(t, id, e)
    ensures AfterRemove(t, id, e) == (t, Done)
  {
    assert t.signatures[e] - {id} == t.signatures[e];
    assert t.signatures[e := t.signatures[e]] == t.signatures;
  }

  /** Removing a component and adding it again reads back only the new value. */
  lemma RemoveThenSetReadsNew(t: Table, id: ComponentId, e: EntityIndex, v: int)
    requires Inv(t) && id in t.columns && Live(t, e)
    ensures var r := AfterSet(AfterRemove(t, id, e).0, id, e, v).0;
      Inv(r) && Lookup(r, id, e) == Ok(v)
  {
    RemoveFacts(t, id, e);
    SetFacts(AfterRemove(t, id, e).0, id, e, v);
  }

  /** Writing pairs into a live slot keeps the table consistent and the slot live. */
  lemma {:induction false} AttachAllKeeps(t: Table, e: EntityIndex, attach: seq<Attach>)
    requires Inv(t) && Live(t, e)
    requires forall i :: 0 <= i < |attach| ==> attach[i].id in t.columns
    ensures Inv(AttachAll(t, e, attach)) && Live(AttachAll(t, e, attach), e)
  {
    if attach != [] {
      var n := |attach| - 1;
      AttachAllKeeps(t, e, attach[..n]);
      SetKeepsInv(AttachAll(t, e, attach[..n]), attach[n].id, e, attach[n].value);
    }
  }

  /** Writing pairs into slot `e` leaves the cells of every other slot alone. */
  lemma {:induction false} AttachAllCells(t: Table, e: EntityIndex, attach: seq<Attach>)
    requires forall i :: 0 <= i < |attach| ==> attach[i].id in t.columns
    ensures forall id :: id in t.columns ==>
              KeepsCellsExcept(t.columns[id], AttachAll(t, e, attach).columns[id], e)
  {
    if attach == [] {
      assert AttachAll(t, e, attach) == t;
    } else {
      var n := |attach| - 1;
      AttachAllCells(t, e, attach[..n]);
      var mid := AttachAll(t, e, attach[..n]);
      var r := AttachAll(t, e, attach);
      forall id | id in t.columns
        ensures KeepsCellsExcept(t.columns[id], r.columns[id], e)
      {
        assert KeepsCellsExcept(t.columns[id], mid.columns[id], e);
        if Live(mid, e) && id == attach[n].id {
          assert r.columns[id] == Store(mid.columns[id], e, attach[n].value);
        }
      }
    }
  }

  /** Writing pairs into a live slot sets exactly their bits on it and touches no other
      slot, the EntityState column, the free list or the count. */
  lemma {:induction false} AttachAllSignature(t: Table, e: EntityIndex, attach: seq<Attach>)
    requires Live(t, e)
    requires forall i :: 0 <= i < |attach| ==> attach[i].id in t.columns
    ensures var r := AttachAll(t, e, attach);
      && Live(r, e)
      && r.signatures == t.signatures[e := t.signatures[e] + AttachedIds(attach)]
      && r.states == t.states && r.freeList == t.freeList && r.count == t.count
  {
    if attach == [] {
      assert AttachedIds(attach) == {};
      assert t.signatures[e] + AttachedIds(attach) == t.signatures[e];
      assert t.signatures[e := t.signatures[e]] == t.signatures;
    } else {
      var n := |attach| - 1;
      var init := attach[..n];
      AttachAllSignature(t, e, init);
      assert AttachedIds(attach) == AttachedIds(init) + {attach[n].id} by {
        assert forall i :: 0 <= i < n ==> attach[i] == init[i];
      }
      var mid := AttachAll(t, e, init).signatures;
      var want := t.signatures[e := t.signatures[e] + AttachedIds(attach)];
      assert mid[e] + {attach[n].id} == want[e];
      assert |mid[e := mid[e] + {attach[n].id}]| == |want|;
      assert forall k :: 0 <= k < |want| ==> mid[e := mid[e] + {attach[n].id}][k] == want[k];
    }
  }

  /** Writing pairs with distinct component types into a live slot stores every value. */
  lemma {:induction false} AttachAllValues(t: Table, e: EntityIndex, attach: seq<Attach>, i: nat)
    requires Inv(t) && Live(t, e)
    requires forall j :: 0 <= j < |attach| ==> attach[j].id in t.columns
    requires DistinctIds(attach)
    requires i < |attach|
    ensures Inv(AttachAll(t, e, attach))
    ensures Lookup(AttachAll(t, e, attach), attach[i].id, e) == Ok(attach[i].value)
  {
    var n := |attach| - 1;
    var init, last := attach[..n], attach[n];
    AttachAllKeeps(t, e, init);
    var mid := AttachAll(t, e, init);
    assert AttachAll(t, e, attach) == AfterSet(mid, last.id, e, last.value).0;
    if i == n {
      SetFacts(mid, last.id, e, last.value);
    } else {
      assert init[i] == attach[i];
      assert DistinctIds(init) by {
        forall a, b | 0 <= a < b < |init|
          ensures init[a].id != init[b].id
        {
          assert init[a] == attach[a] && init[b] == attach[b];
        }
      }
      AttachAllValues(t, e, init, i);
      assert last.id != attach[i].id;
      SetLeavesOthers(mid, last.id, e, last.value, attach[i].id, e);
    }
  }

  /** A create with components is a create whose fresh signature also carries the supplied bits. */
  lemma CreateWithShape(t: Table, attach: seq<Attach>)
    requires Inv(t)
    requires forall i :: 0 <= i < |attach| ==> attach[i].id in t.columns
    ensures var c, r := AfterCreate(t), AfterCreateWith(t, attach);
      && NextSlot(t) < |c.signatures|
      && r.signatures == c.signatures[NextSlot(t) := {StateId} + AttachedIds(attach)]
      && r.states == c.states && r.freeList == c.freeList && r.count == c.count
      && r.width == t.width
  {
    CreateFacts(t);
    AttachAllSignature(AfterCreate(t), NextSlot(t), attach);
  }

  /** A create with components sets EntityState plus exactly the supplied bits on the slot it
      hands out (so a reused slot inherits no bit), the count grows by one, the free list is
      popped, and every other slot keeps its signature. */
  lemma CreateWithFacts(t: Table, attach: seq<Attach>)
    requires Inv(t)
    requires forall i :: 0 <= i < |attach| ==> attach[i].id in t.columns
    ensures var r, e := AfterCreateWith(t, attach), NextSlot(t);
      && Inv(r) && !Live(t, e) && Live(r, e)
      && r.signatures[e] == {StateId} + AttachedIds(attach)
      && StateOf(r, e) == Ok(Active)
      && r.count == t.count + 1
      && r.width == t.width
      && |r.signatures| == (if t.freeList == [] then |t.signatures| + 1 else |t.signatures|)
      && r.freeList == (if t.freeList == [] then [] else t.freeList[..|t.freeList| - 1])
      && (forall k :: 0 <= k < |t.signatures| && k != e ==> r.signatures[k] == t.signatures[k])
  {
    CreateFacts(t);
    AttachAllKeeps(AfterCreate(t), NextSlot(t), attach);
    CreateWithShape(t, attach);
  }

  /** A create with components writes no cell of any other slot. */
  lemma CreateWithCells(t: Table, attach: seq<Attach>)
    requires Inv(t)
    requires forall i :: 0 <= i < |attach| ==> attach[i].id in t.columns
    ensures forall id :: id in t.columns ==>
              KeepsCellsExcept(t.columns[id], AfterCreateWith(t, attach).columns[id], NextSlot(t))
  {
    assert AfterCreate(t).columns == t.columns;
    AttachAllCells(AfterCreate(t), NextSlot(t), attach);
  }

  /** After a create with components of distinct types, each supplied component reads back
      the value supplied for it. */
  lemma CreateWithValues(t: Table, attach: seq<Attach>)
    requires Inv(t)
    requires forall i :: 0 <= i < |attach| ==> attach[i].id in t.columns
    requires DistinctIds(attach)
    ensures Inv(AfterCreateWith(t, attach))
    ensures forall i :: 0 <= i < |attach| ==>
              Lookup(AfterCreateWith(t, attach), attach[i].id, NextSlot(t)) == Ok(attach[i].value)
  {
    CreateFacts(t);
    AttachAllKeeps(AfterCreate(t), NextSlot(t), attach);
    forall i | 0 <= i < |attach|
      ensures Lookup(AfterCreateWith(t, attach), attach[i].id, NextSlot(t)) == Ok(attach[i].value)
    {
      AttachAllValues(AfterCreate(t), NextSlot(t), attach, i);
    }
  }

  /** The counter always equals the number of slots the EntityState-only query returns. */
  lemma CountIsStateQuery(t: Table)
    requires Inv(t)
    ensures t.count == |Matching(t.signatures, {StateId})|
  {
    LiveCountIsStateQuery(t.signatures);
  }

  /** Destroyed and never-reused slots never match a query that asks for any bit. */
  lemma QueryYieldsLiveSlots(t: Table, filter: Signature)
    requires Inv(t) && filter != {}
    ensures forall k :: k in Matching(t.signatures, filter) ==> Live(t, k)
  {
    MatchingExact(t.signatures, |t.signatures|, filter);
  }

  /** Growing or rewriting a column through the raw container keeps the table consistent. */
  lemma ColumnWriteKeepsInv(t: Table, id: ComponentId, cells: seq<int>)
    requires Inv(t) && id in t.columns && |cells| >= |t.columns[id]|
    ensures Inv(t.(columns := t.columns[id := cells]))
  {
  }
}
