/** Component identities, entity signatures (the per-slot bitset of attached
    component types) and the query that selects slots by signature. */
module Signatures {
  /** Width of a signature bitset: the most component types one manager registers. */
  const MaxComponents: nat := 32

  /** A component type's bit position in a signature. */
  type ComponentId = nat

  /** A slot of the entity table. Handles are recycled after a destroy. */
  type EntityIndex = nat

  /** EntityState is registered first, so it owns bit 0; every live entity carries it. */
  const StateId: ComponentId := 0

  /** The set of bit positions that are set in a signature bitset. */
  type Signature = set<ComponentId>

  /** The query's bit test `(signature & filter) == filter`: every filter bit is set in the slot. */
  predicate Matches(sig: Signature, filter: Signature) {
    filter <= sig
  }

  /** The slots among the first `n` whose signature matches `filter`, in the ascending index
      order a scan yields them. */
  function MatchingUpTo(sigs: seq<Signature>, n: nat, filter: Signature): seq<EntityIndex>
    requires n <= |sigs|
    decreases n
  {
    if n == 0 then []
    else MatchingUpTo(sigs, n - 1, filter) + (if Matches(sigs[n - 1], filter) then [n - 1] else [])
  }

  /** The slots whose signature matches `filter`: the query over every allocated slot. */
  function Matching(sigs: seq<Signature>, filter: Signature): seq<EntityIndex> {
    MatchingUpTo(sigs, |sigs|, filter)
  }

  predicate StrictlyIncreasing(s: seq<nat>) {
    forall i, j :: 0 <= i < j < |s| ==> s[i] < s[j]
  }

  /** Number of slots among the first `n` carrying the EntityState bit. */
  function LiveAmong(sigs: seq<Signature>, n: nat): nat
    requires n <= |sigs|
    decreases n
  {
    if n == 0 then 0
    else LiveAmong(sigs, n - 1) + (if StateId in sigs[n - 1] then 1 else 0)
  }

  /** Number of slots carrying the EntityState bit, i.e. live slots. */
  function LiveCount(sigs: seq<Signature>): nat {
    LiveAmong(sigs, |sigs|)
  }

  /** The scan of the first `n` slots looks at nothing beyond them. */
  lemma {:induction false} MatchingPrefix(s: seq<Signature>, t: seq<Signature>, n: nat, filter: Signature)
    requires n <= |s| && n <= |t|
    requires forall k :: 0 <= k < n ==> s[k] == t[k]
    ensures MatchingUpTo(s, n, filter) == MatchingUpTo(t, n, filter)
  {
    if n > 0 {
      MatchingPrefix(s, t, n - 1, filter);
    }
  }

  /** Scanning one more slot appends that slot's index exactly when it matches. */
  lemma MatchingSnoc(sigs: seq<Signature>, sig: Signature, filter: Signature)
    ensures Matching(sigs + [sig], filter)
         == Matching(sigs, filter) + (if Matches(sig, filter) then [|sigs|] else [])
  {
    MatchingPrefix(sigs + [sig], sigs, |sigs|, filter);
  }

  /** The scan of the first `n` slots returns a slot if and only if it is one of them and its
      signature holds every filter bit. */
  lemma {:induction false} MatchingExact(sigs: seq<Signature>, n: nat, filter: Signature)
    requires n <= |sigs|
    ensures forall k: nat :: k in MatchingUpTo(sigs, n, filter) <==> k < n && Matches(sigs[k], filter)
  {
    if n > 0 {
      MatchingExact(sigs, n - 1, filter);
    }
  }

  /** The query result is in strictly ascending index order (so it has no duplicates). */
  lemma {:induction false} MatchingAscending(sigs: seq<Signature>, n: nat, filter: Signature)
    requires n <= |sigs|
    ensures StrictlyIncreasing(MatchingUpTo(sigs, n, filter))
  {
    if n > 0 {
      var prefix := MatchingUpTo(sigs, n - 1, filter);
      MatchingAscending(sigs, n - 1, filter);
      MatchingExact(sigs, n - 1, filter);
      assert forall i :: 0 <= i < |prefix| ==> prefix[i] in prefix;
    }
  }

  /** When each of the first `n` slots matches, the scan returns exactly 0, 1, ..., n - 1. */
  lemma {:induction false} MatchingAll(sigs: seq<Signature>, n: nat, filter: Signature)
    requires n <= |sigs|
    requires forall k :: 0 <= k < n ==> Matches(sigs[k], filter)
    ensures |MatchingUpTo(sigs, n, filter)| == n
    ensures forall i :: 0 <= i < n ==> MatchingUpTo(sigs, n, filter)[i] == i
  {
    if n > 0 {
      MatchingAll(sigs, n - 1, filter);
    }
  }

  /** When none of the first `n` slots matches, the scan returns nothing. */
  lemma {:induction false} MatchingNone(sigs: seq<Signature>, n: nat, filter: Signature)
    requires n <= |sigs|
    requires forall k :: 0 <= k < n ==> !Matches(sigs[k], filter)
    ensures MatchingUpTo(sigs, n, filter) == []
  {
    if n > 0 {
      MatchingNone(sigs, n - 1, filter);
    }
  }

  /** Matching exactly the even slots among the first `n` yields half of them, rounded up. */
  lemma {:induction false} MatchingEvenSlots(sigs: seq<Signature>, n: nat, filter: Signature)
    requires n <= |sigs|
    requires forall k :: 0 <= k < n ==> (Matches(sigs[k], filter) <==> k % 2 == 0)
    ensures |MatchingUpTo(sigs, n, filter)| == (n + 1) / 2
  {
    if n > 0 {
      MatchingEvenSlots(sigs, n - 1, filter);
    }
  }

  /** Matching exactly the odd slots among the first `n` yields half of them, rounded down. */
  lemma {:induction false} MatchingOddSlots(sigs: seq<Signature>, n: nat, filter: Signature)
    requires n <= |sigs|
    requires forall k :: 0 <= k < n ==> (Matches(sigs[k], filter) <==> k % 2 == 1)
    ensures |MatchingUpTo(sigs, n, filter)| == n / 2
  {
    if n > 0 {
      MatchingOddSlots(sigs, n - 1, filter);
    }
  }

  /** Matching every slot among the first `n` except the multiples of three drops
      ceil(n / 3) of them. */
  lemma {:induction false} MatchingSkipsThirds(sigs: seq<Signature>, n: nat, filter: Signature)
    requires n <= |sigs|
    requires forall k :: 0 <= k < n ==> (Matches(sigs[k], filter) <==> k % 3 != 0)
    ensures |MatchingUpTo(sigs, n, filter)| == n - (n + 2) / 3
  {
    if n > 0 {
      MatchingSkipsThirds(sigs, n - 1, filter);
    }
  }

  /** Adding one bit to a filter keeps exactly the matching slots that carry that bit:
      bits are independent, a component type never matches on behalf of another. */
  lemma NarrowedQuery(sigs: seq<Signature>, filter: Signature, id: ComponentId)
    ensures forall k: nat :: k in Matching(sigs, filter + {id})
              <==> k in Matching(sigs, filter) && k < |sigs| && id in sigs[k]
  {
    MatchingExact(sigs, |sigs|, filter);
    MatchingExact(sigs, |sigs|, filter + {id});
  }

  /** Rewriting slot `k` changes the count over the first `n` slots by the change in that
      slot's EntityState bit, when `k` is one of them. */
  lemma {:induction false} LiveAmongUpdate(sigs: seq<Signature>, k: nat, sig: Signature, n: nat)
    requires k < |sigs| && n <= |sigs|
    ensures LiveAmong(sigs[k := sig], n) + (if k < n && StateId in sigs[k] then 1 else 0)
         == LiveAmong(sigs, n) + (if k < n && StateId in sig then 1 else 0)
  {
    if n > 0 {
      LiveAmongUpdate(sigs, k, sig, n - 1);
    }
  }

  /** Rewriting one slot changes the live count by the change in that slot's EntityState bit. */
  lemma LiveCountUpdate(sigs: seq<Signature>, k: nat, sig: Signature)
    requires k < |sigs|
    ensures LiveCount(sigs[k := sig]) + (if StateId in sigs[k] then 1 else 0)
         == LiveCount(sigs) + (if StateId in sig then 1 else 0)
  {
    LiveAmongUpdate(sigs, k, sig, |sigs|);
  }

  /** The count over the first `n` slots looks at nothing beyond them. */
  lemma {:induction false} LiveAmongPrefix(s: seq<Signature>, t: seq<Signature>, n: nat)
    requires n <= |s| && n <= |t|
    requires forall k :: 0 <= k < n ==> s[k] == t[k]
    ensures LiveAmong(s, n) == LiveAmong(t, n)
  {
    if n > 0 {
      LiveAmongPrefix(s, t, n - 1);
    }
  }

  /** Allocating one more slot adds one to the live count exactly when it carries EntityState. */
  lemma LiveCountSnoc(sigs: seq<Signature>, sig: Signature)
    ensures LiveCount(sigs + [sig]) == LiveCount(sigs) + (if StateId in sig then 1 else 0)
  {
    LiveAmongPrefix(sigs + [sig], sigs, |sigs|);
  }

  /** The live count over the first `n` slots is the size of the EntityState query over them. */
  lemma {:induction false} LiveAmongIsStateQuery(sigs: seq<Signature>, n: nat)
    requires n <= |sigs|
    ensures LiveAmong(sigs, n) == |MatchingUpTo(sigs, n, {StateId})|
  {
    if n > 0 {
      LiveAmongIsStateQuery(sigs, n - 1);
    }
  }

  /** The live count is the size of the query for the EntityState bit alone. */
  lemma LiveCountIsStateQuery(sigs: seq<Signature>)
    ensures LiveCount(sigs) == |Matching(sigs, {StateId})|
  {
    LiveAmongIsStateQuery(sigs, |sigs|);
  }
}
