/** The bulk read-modify-write pattern run over a query result: fetch a raw
    container and, for each listed entity, write back its value plus one. The
    two-worker variant splits the list at its midpoint; the workers touch
    disjoint slots, and here they are run one after the other. */
module Workers {
  import opened Signatures
  import opened Containers

  /** The cells after incrementing, in order, the cell of every entity in `es`. */
  function Bumped(cells: seq<int>, es: seq<EntityIndex>): (r: seq<int>)
    requires forall i :: 0 <= i < |es| ==> es[i] < |cells|
    ensures |r| == |cells|
    decreases |es|
  {
    if es == [] then cells
    else
      var before := Bumped(cells, es[..|es| - 1]);
      var e := es[|es| - 1];
      Store(before, e, before[e] + 1)
  }

  /** Each cell grows by the number of times its slot occurs in the list. */
  lemma {:induction false} BumpedAt(cells: seq<int>, es: seq<EntityIndex>, k: nat)
    requires forall i :: 0 <= i < |es| ==> es[i] < |cells|
    requires k < |cells|
    ensures Bumped(cells, es)[k] == cells[k] + multiset(es)[k]
  {
    if es != [] {
      var init := es[..|es| - 1];
      BumpedAt(cells, init, k);
      assert es == init + [es[|es| - 1]];
    }
  }

  /** In a strictly increasing list every slot occurs at most once. */
  lemma {:induction false} IncreasingOccursOnce(es: seq<EntityIndex>, x: EntityIndex)
    requires StrictlyIncreasing(es)
    ensures multiset(es)[x] == if x in es then 1 else 0
  {
    if es != [] {
      var init := es[..|es| - 1];
      IncreasingOccursOnce(init, x);
      assert es == init + [es[|es| - 1]];
      assert forall i :: 0 <= i < |init| ==> init[i] == es[i];
    }
  }

  /** Over a list without repeats, the listed cells gain exactly one and the others are untouched. */
  lemma BumpedOnce(cells: seq<int>, es: seq<EntityIndex>)
    requires forall i :: 0 <= i < |es| ==> es[i] < |cells|
    requires StrictlyIncreasing(es)
    ensures forall k :: 0 <= k < |cells| ==>
              Bumped(cells, es)[k] == cells[k] + (if k in es then 1 else 0)
  {
    forall k | 0 <= k < |cells|
      ensures Bumped(cells, es)[k] == cells[k] + (if k in es then 1 else 0)
    {
      BumpedAt(cells, es, k);
      IncreasingOccursOnce(es, k);
    }
  }

  /** Running one list of increments after another is one pass over their concatenation. */
  lemma BumpedComposes(cells: seq<int>, a: seq<EntityIndex>, b: seq<EntityIndex>)
    requires forall i :: 0 <= i < |a| ==> a[i] < |cells|
    requires forall i :: 0 <= i < |b| ==> b[i] < |cells|
    ensures Bumped(Bumped(cells, a), b) == Bumped(cells, a + b)
  {
    var first := Bumped(cells, a);
    forall k | 0 <= k < |cells|
      ensures Bumped(first, b)[k] == Bumped(cells, a + b)[k]
    {
      BumpedAt(cells, a, k);
      BumpedAt(first, b, k);
      BumpedAt(cells, a + b, k);
    }
  }

  /** The order of the increments does not matter: two lists holding the same slots the same
      number of times give the same cells. */
  lemma BumpedReordered(cells: seq<int>, a: seq<EntityIndex>, b: seq<EntityIndex>)
    requires forall i :: 0 <= i < |a| ==> a[i] < |cells|
    requires multiset(a) == multiset(b)
    ensures forall i :: 0 <= i < |b| ==> b[i] < |cells|
    ensures Bumped(cells, a) == Bumped(cells, b)
  {
    forall i | 0 <= i < |b|
      ensures b[i] < |cells|
    {
      assert b[i] in multiset(b);
    }
    forall k | 0 <= k < |cells|
      ensures Bumped(cells, a)[k] == Bumped(cells, b)[k]
    {
      BumpedAt(cells, a, k);
      BumpedAt(cells, b, k);
    }
  }

  /** Two lists of increments, run in either order, give the same cells as one pass over
      their concatenation. */
  lemma SwappedPasses(cells: seq<int>, a: seq<EntityIndex>, b: seq<EntityIndex>)
    requires forall i :: 0 <= i < |a| ==> a[i] < |cells|
    requires forall i :: 0 <= i < |b| ==> b[i] < |cells|
    ensures Bumped(Bumped(cells, a), b) == Bumped(cells, a + b)
    ensures Bumped(Bumped(cells, b), a) == Bumped(cells, a + b)
  {
    BumpedComposes(cells, a, b);
    BumpedComposes(cells, b, a);
    assert multiset(b + a) == multiset(a + b);
    BumpedReordered(cells, b + a, a + b);
  }

  /** The two parts of a split list rejoin to the list. */
  lemma RejoinHalves(es: seq<EntityIndex>, mid: nat)
    requires mid <= |es|
    ensures es[..mid] + es[mid..] == es
  {
  }

  /** Splitting the list at any point and running the two parts in either order gives the
      same cells as one pass over the whole list. */
  lemma SplitWorkers(cells: seq<int>, es: seq<EntityIndex>, mid: nat)
    requires forall i :: 0 <= i < |es| ==> es[i] < |cells|
    requires mid <= |es|
    ensures Bumped(Bumped(cells, es[..mid]), es[mid..]) == Bumped(cells, es)
    ensures Bumped(Bumped(cells, es[mid..]), es[..mid]) == Bumped(cells, es)
  {
    var front, back := es[..mid], es[mid..];
    RejoinHalves(es, mid);
    SwappedPasses(cells, front, back);
  }

  /** The two workers never touch the same slot: when the list is a query result
      (strictly increasing), no slot occurs on both sides of any split point. */
  lemma HalvesDisjoint(es: seq<EntityIndex>, mid: nat)
    requires StrictlyIncreasing(es)
    requires mid <= |es|
    ensures multiset(es[..mid]) * multiset(es[mid..]) == multiset{}
  {
    forall x
      ensures (multiset(es[..mid]) * multiset(es[mid..]))[x] == 0
    {
      if x in es[..mid] {
        var i :| 0 <= i < mid && es[..mid][i] == x;
        assert forall j :: mid <= j < |es| ==> es[i] < es[j];
        assert x !in es[mid..];
      }
    }
  }

  /** One worker: increments the cells of `entities[from..until]` in place. */
  method IncrementRange(c: Container, entities: seq<EntityIndex>, from: nat, until: nat)
    requires from <= until <= |entities|
    requires forall i :: from <= i < until ==> entities[i] < |c.cells|
    modifies c
    ensures c.cells == Bumped(old(c.cells), entities[from..until])
  {
    var i := from;
    while i < until
      invariant from <= i <= until
      invariant |c.cells| == |old(c.cells)|
      invariant c.cells == Bumped(old(c.cells), entities[from..i])
    {
      var entity := entities[i];
      var current := c.Get(entity);
      c.Set(entity, current + 1);
      assert entities[from..i + 1][..i - from] == entities[from..i];
      i := i + 1;
    }
  }

  /** Two workers over the halves `[0, size/2)` and `[size/2, size)`, run one after the other. */
  method IncrementInHalves(c: Container, entities: seq<EntityIndex>)
    requires forall i :: 0 <= i < |entities| ==> entities[i] < |c.cells|
    modifies c
    ensures c.cells == Bumped(old(c.cells), entities)
  {
    var size := |entities|;
    IncrementRange(c, entities, 0, size / 2);
    IncrementRange(c, entities, size / 2, size);
    assert entities[0..size / 2] == entities[..size / 2];
    assert entities[size / 2..size] == entities[size / 2..];
    SplitWorkers(old(c.cells), entities, size / 2);
  }
}
