/** The pure side of the entity manager: the id sequences it keeps, the
    signature test of `GetEntitiesWith`, and the two orders in which the
    two generations return their matches. */
module EntityQueries {
  import opened Identity
  import opened ComponentStore

  /** A signature: the set of component-type ids an entity owns (the
      source's `std::bitset<MAX_COMPONENT_TYPES>`; bit i set iff i is in). */
  type Signature = set<ComponentType>

  /** `(entitySignature & required) == required`. */
  predicate Matches(sig: Signature, required: Signature)
  {
    required <= sig
  }

  /** The ids lo, lo+1, ..., hi-1. */
  function Ascending(lo: nat, hi: nat): (r: seq<Entity>)
    requires lo <= hi
    ensures |r| == hi - lo
    ensures forall k :: 0 <= k < |r| ==> r[k] == lo + k
  {
    seq(hi - lo, k => lo + k)
  }

  predicate NoDuplicates(s: seq<Entity>)
  {
    forall i, j :: 0 <= i < j < |s| ==> s[i] != s[j]
  }

  predicate Increasing(s: seq<Entity>)
  {
    forall i, j :: 0 <= i < j < |s| ==> s[i] < s[j]
  }

  /** `a` is `b` with some elements left out and the rest in their order. */
  predicate IsSubsequence(a: seq<Entity>, b: seq<Entity>)
    decreases |b|
  {
    if a == [] then true
    else if b == [] then false
    else if a[|a| - 1] == b[|b| - 1] then IsSubsequence(a[..|a| - 1], b[..|b| - 1])
    else IsSubsequence(a, b[..|b| - 1])
  }

  lemma AscendingIsIncreasing(lo: nat, hi: nat)
    requires lo <= hi
    ensures Increasing(Ascending(lo, hi)) && NoDuplicates(Ascending(lo, hi))
    ensures forall x :: x in Ascending(lo, hi) <==> lo <= x < hi
  {
    forall x | lo <= x < hi ensures x in Ascending(lo, hi) {
      assert Ascending(lo, hi)[x - lo] == x;
    }
  }

  /** The first occurrence of `x` removed (`vector::erase(std::find(...))`),
      or `s` unchanged when `x` does not occur. */
  function EraseFirst(s: seq<Entity>, x: Entity): (r: seq<Entity>)
    ensures x in s ==> |r| == |s| - 1
    ensures x !in s ==> r == s
    ensures forall y :: y in r ==> y in s
    ensures forall y :: y in s && y != x ==> y in r
    ensures IsSubsequence(r, s)
    ensures NoDuplicates(s) ==> NoDuplicates(r) && x !in r
  {
    if s == [] then []
    else if s[0] == x then
      SubsequenceOfSelf(s[1..]);
      SubsequenceDropFront(s[1..], s[0]);
      assert [s[0]] + s[1..] == s;
      s[1..]
    else
      var rest := EraseFirst(s[1..], x);
      SubsequenceConsBoth(rest, s[1..], s[0]);
      assert [s[0]] + s[1..] == s;
      var r := [s[0]] + rest;
      assert NoDuplicates(s) ==> NoDuplicates(r) && x !in r by {
        if NoDuplicates(s) {
          NoDuplicatesTail(s);
          NoDuplicatesCons(s[0], rest);
        }
      }
      r
  }

  /** The tail of a duplicate-free sequence is duplicate-free and lacks
      the head. */
  lemma NoDuplicatesTail(s: seq<Entity>)
    requires s != [] && NoDuplicates(s)
    ensures NoDuplicates(s[1..]) && s[0] !in s[1..]
  {
    assert forall i, j :: 0 <= i < j < |s[1..]| ==> s[1..][i] == s[i + 1] && s[1..][j] == s[j + 1];
  }

  /** A new element in front of a duplicate-free sequence keeps it so. */
  lemma NoDuplicatesCons(x: Entity, s: seq<Entity>)
    requires NoDuplicates(s) && x !in s
    ensures NoDuplicates([x] + s)
  {
    var r := [x] + s;
    forall i, j | 0 <= i < j < |r| ensures r[i] != r[j] {
      if i > 0 {
        assert r[i] == s[i - 1] && r[j] == s[j - 1];
      } else {
        assert r[j] in s;
      }
    }
  }

  lemma {:induction false} SubsequenceOfSelf(s: seq<Entity>)
    ensures IsSubsequence(s, s)
    decreases |s|
  {
    if s != [] {
      SubsequenceOfSelf(s[..|s| - 1]);
    }
  }

  /** Putting an element in front of the longer sequence keeps a subsequence. */
  lemma {:induction false} SubsequenceDropFront(a: seq<Entity>, x: Entity)
    requires IsSubsequence(a, a)
    ensures IsSubsequence(a, [x] + a)
    decreases |a|
  {
    SubsequenceGrowFront(a, a, x);
  }

  lemma {:induction false} SubsequenceGrowFront(a: seq<Entity>, b: seq<Entity>, x: Entity)
    requires IsSubsequence(a, b)
    ensures IsSubsequence(a, [x] + b)
    decreases |b|
  {
    if a != [] {
      var xb := [x] + b;
      if b == [] {
      } else {
        assert xb[..|xb| - 1] == [x] + b[..|b| - 1];
        assert xb[|xb| - 1] == b[|b| - 1];
        if a[|a| - 1] == b[|b| - 1] {
          SubsequenceGrowFront(a[..|a| - 1], b[..|b| - 1], x);
        } else {
          SubsequenceGrowFront(a, b[..|b| - 1], x);
        }
      }
    }
  }

  /** Putting the same element in front of both keeps a subsequence. */
  lemma {:induction false} SubsequenceConsBoth(a: seq<Entity>, b: seq<Entity>, x: Entity)
    requires IsSubsequence(a, b)
    ensures IsSubsequence([x] + a, [x] + b)
    decreases |b|
  {
    var xa, xb := [x] + a, [x] + b;
    if a == [] {
      assert xa[..|xa| - 1] == [];
      if b == [] {
      } else {
        assert xb[..|xb| - 1] == [x] + b[..|b| - 1];
        SubsequenceConsBoth(a, b[..|b| - 1], x);
      }
    } else if b != [] {
      assert xb[..|xb| - 1] == [x] + b[..|b| - 1];
      assert xa[..|xa| - 1] == [x] + a[..|a| - 1];
      if a[|a| - 1] == b[|b| - 1] {
        SubsequenceConsBoth(a[..|a| - 1], b[..|b| - 1], x);
      } else {
        SubsequenceConsBoth(a, b[..|b| - 1], x);
      }
    }
  }

  /** The ids of `ids`, in their order, whose signature matches `required`:
      the loop body of both `GetEntitiesWith` variants. Ids at or beyond
      the signature table are never matched. */
  function Matching(ids: seq<Entity>, sigs: seq<Signature>, required: Signature): (r: seq<Entity>)
    ensures forall x :: x in r <==> x in ids && x < |sigs| && Matches(sigs[x], required)
    ensures IsSubsequence(r, ids)
    ensures Increasing(ids) ==> Increasing(r)
    decreases |ids|
  {
    if ids == [] then []
    else
      var init := ids[..|ids| - 1];
      var x := ids[|ids| - 1];
      var prefix := Matching(init, sigs, required);
      assert forall y :: y in ids <==> y in init || y == x;
      if x < |sigs| && Matches(sigs[x], required) then
        var r := prefix + [x];
        assert r[..|r| - 1] == prefix && r[|r| - 1] == x;
        assert IsSubsequence(r, ids);
        assert Increasing(ids) ==> Increasing(r) by {
          if Increasing(ids) {
            assert Increasing(init);
            forall y | y in prefix ensures y < x {
              var k :| 0 <= k < |init| && init[k] == y;
              assert ids[k] == y;
            }
            forall i, j | 0 <= i < j < |r| ensures r[i] < r[j] {
              if j < |prefix| {
                assert r[i] == prefix[i] && r[j] == prefix[j];
              } else {
                assert r[i] == prefix[i] && prefix[i] in prefix;
              }
            }
          }
        }
        r
      else
        assert x !in prefix;
        SubsequenceSkipLast(prefix, ids);
        prefix
  }

  /** Dropping the last element of the longer sequence is harmless when
      the shorter one is already a subsequence of what remains. */
  lemma SubsequenceSkipLast(a: seq<Entity>, b: seq<Entity>)
    requires b != [] && IsSubsequence(a, b[..|b| - 1])
    requires a != [] ==> a[|a| - 1] != b[|b| - 1]
    ensures IsSubsequence(a, b)
  {
  }

  /** The ids of `ids` that `IsValid` accepts: not the sentinel, in range,
      and not waiting in `available`. */
  function ValidIds(ids: seq<Entity>, available: seq<Entity>): (r: seq<Entity>)
    ensures forall x :: x in r <==> x in ids && IsValidRange(x) && x !in available
    ensures IsSubsequence(r, ids)
    ensures Increasing(ids) ==> Increasing(r)
    decreases |ids|
  {
    if ids == [] then []
    else
      var init := ids[..|ids| - 1];
      var x := ids[|ids| - 1];
      var prefix := ValidIds(init, available);
      assert forall y :: y in ids <==> y in init || y == x;
      if IsValidRange(x) && x !in available then
        var r := prefix + [x];
        assert r[..|r| - 1] == prefix && r[|r| - 1] == x;
        assert IsSubsequence(r, ids);
        assert Increasing(ids) ==> Increasing(r) by {
          if Increasing(ids) {
            assert Increasing(init);
            forall y | y in prefix ensures y < x {
              var k :| 0 <= k < |init| && init[k] == y;
              assert ids[k] == y;
            }
            forall i, j | 0 <= i < j < |r| ensures r[i] < r[j] {
              if j < |prefix| {
                assert r[i] == prefix[i] && r[j] == prefix[j];
              } else {
                assert r[i] == prefix[i] && prefix[i] in prefix;
              }
            }
          }
        }
        r
      else
        assert x !in prefix;
        SubsequenceSkipLast(prefix, ids);
        prefix
  }

  /** The ids the `ECS/EntityManager.inl` query visits: 1 .. MAX_ENTITIES,
      the last one included. */
  function ScanRange(): (r: seq<Entity>)
    ensures Increasing(r)
    ensures forall x :: x in r <==> 1 <= x <= MAX_ENTITIES
  {
    AscendingIsIncreasing(1, MAX_ENTITIES + 1);
    Ascending(1, MAX_ENTITIES + 1)
  }

  /** One more id: it is kept at the end exactly when its signature matches. */
  lemma MatchingSnoc(ids: seq<Entity>, x: Entity, sigs: seq<Signature>, required: Signature)
    ensures Matching(ids + [x], sigs, required) ==
      Matching(ids, sigs, required) + (if x < |sigs| && Matches(sigs[x], required) then [x] else [])
  {
    assert (ids + [x])[..|ids|] == ids;
  }

  /** One more id in the scan: it is kept at the end exactly when `IsValid`
      accepts it. */
  lemma ValidIdsStep(entity: nat, available: seq<Entity>)
    requires 1 <= entity
    ensures ValidIds(Ascending(1, entity + 1), available) ==
      ValidIds(Ascending(1, entity), available) + (if IsValidRange(entity) && entity !in available then [entity] else [])
  {
    var ids := Ascending(1, entity + 1);
    assert ids[..|ids| - 1] == Ascending(1, entity);
    assert ids[|ids| - 1] == entity;
  }

  /** The loop of `GetEntitiesWith` in `src/ECS/EntityManager.h`: each id of
      `ids` in turn, kept when its signature holds every required type. */
  method FilterMatching(ids: seq<Entity>, sigs: seq<Signature>, required: Signature) returns (r: seq<Entity>)
    ensures r == Matching(ids, sigs, required)
  {
    r := [];
    for k := 0 to |ids|
      invariant r == Matching(ids[..k], sigs, required)
    {
      var x := ids[k];
      assert ids[..k + 1] == ids[..k] + [x];
      MatchingSnoc(ids[..k], x, sigs, required);
      if x < |sigs| && Matches(sigs[x], required) {
        r := r + [x];
      }
    }
    assert ids[..|ids|] == ids;
  }

  /** The loop of `GetEntitiesWith` in `ECS/EntityManager.inl`: the ids 1 ..
      MAX_ENTITIES in ascending order, each skipped unless `IsValid` accepts
      it, and kept when its signature holds every required type. */
  method ScanMatching(available: seq<Entity>, sigs: seq<Signature>, required: Signature) returns (r: seq<Entity>)
    ensures r == Matching(ValidIds(ScanRange(), available), sigs, required)
  {
    r := [];
    for entity := 1 to MAX_ENTITIES + 1
      invariant r == Matching(ValidIds(Ascending(1, entity), available), sigs, required)
    {
      ghost var valid := ValidIds(Ascending(1, entity), available);
      ValidIdsStep(entity, available);
      if !(IsValidRange(entity) && entity !in available) {
        assert ValidIds(Ascending(1, entity + 1), available) == valid;
        continue;
      }
      assert ValidIds(Ascending(1, entity + 1), available) == valid + [entity];
      MatchingSnoc(valid, entity, sigs, required);
      if entity < |sigs| && Matches(sigs[entity], required) {
        r := r + [entity];
      }
    }
  }

  // -------------------------------------------------------------------
  // The id pool: active entities and the queue of free ids
  // -------------------------------------------------------------------

  /** Every id in 1 .. MAX_ENTITIES-1 is in exactly one of `active` (the
      living entities, in creation order) and `available` (the free-id
      queue), neither holds 0 or an id out of range, and neither repeats. */
  ghost predicate Pool(active: seq<Entity>, available: seq<Entity>)
  {
    (forall x :: x in active ==> IsValidRange(x)) &&
    (forall x :: x in available ==> IsValidRange(x)) &&
    (forall x :: IsValidRange(x) ==> (x in active <==> x !in available)) &&
    NoDuplicates(active) && NoDuplicates(available)
  }

  /** The constructor's pool: nothing alive, every id queued in ascending order. */
  lemma FreshPool()
    ensures Pool([], Ascending(1, MAX_ENTITIES))
  {
    AscendingIsIncreasing(1, MAX_ENTITIES);
  }

  /** A sequence without repeats has as many distinct elements as entries. */
  lemma DistinctCard(s: seq<Entity>)
    requires NoDuplicates(s)
    ensures |set x | x in s| == |s|
  {
    InjectivePrefixCard(s, |s|);
    assert (set x | x in s) == (set i | 0 <= i < |s| :: s[i]);
  }

  /** The pool always accounts for all MAX_ENTITIES - 1 ids, so the queue is
      empty exactly when MAX_ENTITIES - 1 entities are alive. */
  lemma PoolSize(active: seq<Entity>, available: seq<Entity>)
    requires Pool(active, available)
    ensures |active| + |available| == MAX_ENTITIES - 1
    ensures available == [] <==> |active| == MAX_ENTITIES - 1
  {
    var live := set x | x in active;
    var free := set x | x in available;
    var all := set x | x in Ascending(1, MAX_ENTITIES);
    AscendingIsIncreasing(1, MAX_ENTITIES);
    DistinctCard(active);
    DistinctCard(available);
    DistinctCard(Ascending(1, MAX_ENTITIES));
    assert live + free == all;
    assert live * free == {};
    assert |live + free| == |live| + |free|;
  }

  /** CreateEntity pops the front of the queue and appends it to the living. */
  lemma PoolCreate(active: seq<Entity>, available: seq<Entity>)
    requires Pool(active, available) && available != []
    ensures available[0] !in active && IsValidRange(available[0])
    ensures Pool(active + [available[0]], available[1..])
  {
    var e := available[0];
    assert e in available;
    var a := active + [e];
    forall i, j | 0 <= i < j < |a| ensures a[i] != a[j] {
      if j < |active| {
        assert a[i] == active[i] && a[j] == active[j];
      } else {
        assert a[i] in active;
      }
    }
    forall x | IsValidRange(x) ensures x in a <==> x !in available[1..] {
      if x != e {
        assert x in available ==> x in available[1..] by {
          if x in available {
            var k :| 0 <= k < |available| && available[k] == x;
            assert k > 0;
            assert available[1..][k - 1] == x;
          }
        }
      } else {
        assert e !in available[1..] by {
          forall k | 0 <= k < |available| - 1 ensures available[1..][k] != e {
            assert available[1..][k] == available[k + 1];
          }
        }
      }
    }
  }

  /** DestroyEntity of a valid id takes it out of the living, keeping the
      others in order, and queues it at the back. */
  lemma PoolDestroy(active: seq<Entity>, available: seq<Entity>, e: Entity)
    requires Pool(active, available) && IsValidRange(e) && e !in available
    ensures e in active
    ensures |EraseFirst(active, e)| == |active| - 1
    ensures Pool(EraseFirst(active, e), available + [e])
  {
    var a := EraseFirst(active, e);
    var q := available + [e];
    forall i, j | 0 <= i < j < |q| ensures q[i] != q[j] {
      if j < |available| {
        assert q[i] == available[i] && q[j] == available[j];
      } else {
        assert q[i] in available;
      }
    }
  }

  // -------------------------------------------------------------------
  // The two queries compared
  // -------------------------------------------------------------------

  /** Over a consistent pool both `GetEntitiesWith` variants find the same
      entities: the living ones whose signature matches. The active-list
      variant returns them in creation order, the scan in ascending id order. */
  lemma QueriesAgree(active: seq<Entity>, available: seq<Entity>, sigs: seq<Signature>, required: Signature)
    requires Pool(active, available) && |sigs| == MAX_ENTITIES
    ensures forall x :: x in Matching(active, sigs, required) <==>
      x in Matching(ValidIds(ScanRange(), available), sigs, required)
    ensures forall x :: x in Matching(active, sigs, required) <==> x in active && Matches(sigs[x], required)
    ensures IsSubsequence(Matching(active, sigs, required), active)
    ensures Increasing(Matching(ValidIds(ScanRange(), available), sigs, required))
  {
    var scanned := ValidIds(ScanRange(), available);
    forall x ensures x in active <==> x in scanned {
      if x in active {
        assert IsValidRange(x);
      }
    }
  }
}
