/** Properties of the ordered entity container that relate several of its
    operations to each other or to an independent reference definition. */
module ListProperties {
  import opened Results
  import opened EntityList

  // ---------------------------------------------------------------------------
  // The reference descriptions determine the list completely.

  lemma RemovedAtUnique<T>(s: seq<T>, a: seq<T>, b: seq<T>, i: int)
    requires RemovedAt(s, a, i) && RemovedAt(s, b, i)
    ensures a == b
  {
  }

  // ---------------------------------------------------------------------------
  // Reading back what was written

  /** After `setEntity(i, e)` on a valid index, `getEntityByIndex(i)` is `e`,
      the size is unchanged and every other index reads as before; on an
      invalid index `setEntity` is an index error. */
  lemma SetThenGet<T>(s: seq<T>, i: int, e: T)
    ensures InRange(s, i) ==>
      && SetEntity(s, i, e).Success?
      && GetEntityByIndex(SetEntity(s, i, e).value, i) == Some(e)
      && Size(SetEntity(s, i, e).value) == Size(s)
      && forall j :: j != i ==> GetEntityByIndex(SetEntity(s, i, e).value, j) == GetEntityByIndex(s, j)
    ensures !InRange(s, i) ==> SetEntity(s, i, e) == Failure(IndexOutOfBounds(i))
  {
  }

  /** The permissive read agrees with the strict one-element slice: it is
      present exactly when `subList(i, i + 1)` succeeds, and holds its entity. */
  lemma GetByIndexIsUnitSlice<T>(s: seq<T>, i: int)
    ensures GetEntityByIndex(s, i).Some? <==> SubList(s, i, i + 1).Success?
    ensures GetEntityByIndex(s, i).Some? ==> SubList(s, i, i + 1).value == [GetEntityByIndex(s, i).value]
  {
  }

  /** `subList(0, k)` followed by `subList(k, size())` gives back the list. */
  lemma SubListSplit<T>(s: seq<T>, k: int)
    requires 0 <= k <= |s|
    ensures SubList(s, 0, k).Success? && SubList(s, k, |s|).Success?
    ensures SubList(s, 0, k).value + SubList(s, k, |s|).value == s
  {
  }

  // ---------------------------------------------------------------------------
  // Lookup by id

  /** The recursive lookup agrees with the stream it models: filter on the id,
      then take the first survivor if there is one. */
  lemma {:induction false} GetEntityByIdIsFindFirst<T, I>(s: seq<T>, getId: T -> I, id: I)
    ensures GetEntityById(s, getId, id)
      == (var t := FilterEntities(s, x => getId(x) == id); if t == [] then None else Some(t[0]))
  {
    if s != [] && getId(s[0]) != id {
      GetEntityByIdIsFindFirst(s[1..], getId, id);
    }
  }

  /** `getEntityById(id)` finds something exactly when `id` is among `getEntityIds()`. */
  lemma GetEntityByIdIffIdListed<T, I>(s: seq<T>, getId: T -> I, id: I)
    ensures GetEntityById(s, getId, id).Some? <==> id in GetEntityIds(s, getId)
  {
  }

  // ---------------------------------------------------------------------------
  // Positions of equal entities

  /** `indexOf` never passes `lastIndexOf`, and they meet exactly when the
      entity occurs once. */
  lemma IndexOfMeetsLastIndexOf<T>(s: seq<T>, e: T)
    ensures IndexOf(s, e) <= LastIndexOf(s, e)
    ensures ContainsEntity(s, e) ==>
      (IndexOf(s, e) == LastIndexOf(s, e)
       <==> forall j, k :: 0 <= j < k < |s| ==> s[j] != e || s[k] != e)
  {
  }

  // ---------------------------------------------------------------------------
  // Removal

  /** Removing by index what was just added gives back the entity and the list. */
  lemma AddThenRemoveAt<T>(s: seq<T>, e: T)
    ensures Size(AddEntity(s, e)) == Size(s) + 1
    ensures RemoveEntityAt(AddEntity(s, e), |s|) == Success(Step(e, s))
  {
    var r := RemoveEntityAt(AddEntity(s, e), |s|);
    assert r.value.list == s;
  }

  /** Removal by index shortens the list by exactly one. */
  lemma RemoveAtShrinks<T>(s: seq<T>, i: int)
    ensures RemoveEntityAt(s, i).Success? ==> Size(RemoveEntityAt(s, i).value.list) == Size(s) - 1
    ensures RemoveEntityAt(s, i).Failure? ==> !InRange(s, i)
  {
  }

  /** Removal by value is removal by index at `indexOf`; a missing entity is
      not-found. */
  lemma RemoveEntityIsRemoveAtIndexOf<T>(s: seq<T>, e: T)
    ensures IndexOf(s, e) == -1 ==> RemoveEntity(s, e) == Failure(NoSuchElement)
    ensures IndexOf(s, e) != -1 ==>
      RemoveEntity(s, e) == Success(RemoveEntityAt(s, IndexOf(s, e)).value.list)
  {
    var k := IndexOf(s, e);
    if k != -1 {
      RemovedAtUnique(s, RemoveEntity(s, e).value, RemoveEntityAt(s, k).value.list, k);
    }
  }

  /** Removing by value an entity that was just added, and was not there
      before, gives back the list. */
  lemma AddThenRemoveEntity<T>(s: seq<T>, e: T)
    requires !ContainsEntity(s, e)
    ensures RemoveEntity(AddEntity(s, e), e) == Success(s)
  {
    var t := AddEntity(s, e);
    assert IndexOf(t, e) == |s|;
    var r := RemoveEntity(t, e);
    assert r.value == s;
  }

  /** Filtering distributes over concatenation: it keeps the original order. */
  lemma {:induction false} FilterConcat<T>(a: seq<T>, b: seq<T>, p: T -> bool)
    ensures FilterEntities(a + b, p) == FilterEntities(a, p) + FilterEntities(b, p)
  {
    if a == [] {
      assert a + b == b;
    } else {
      assert (a + b)[1..] == a[1..] + b;
      FilterConcat(a[1..], b, p);
    }
  }

  /** Two complementary filters split the list between them. */
  lemma {:induction false} FilterSplitsSize<T>(s: seq<T>, p: T -> bool, q: T -> bool)
    requires forall x :: q(x) == !p(x)
    ensures |FilterEntities(s, p)| + |FilterEntities(s, q)| == |s|
  {
    if s != [] {
      FilterSplitsSize(s[1..], p, q);
    }
  }

  /** `removeAllEntities(c)` and `retainAllEntities(c)` partition the list:
      every occurrence ends up in exactly one of the two results. */
  lemma RemoveAllRetainAllPartition<T>(s: seq<T>, c: set<T>)
    ensures |RemoveAllEntities(s, c).list| + |RetainAllEntities(s, c).list| == |s|
    ensures multiset(RemoveAllEntities(s, c).list) + multiset(RetainAllEntities(s, c).list) == multiset(s)
  {
    FilterSplitsSize(s, x => x !in c, x => x in c);
  }

  /** `removeAllEntities(c)` works entity by entity and keeps the order: it
      distributes over concatenation, and on one entity it keeps it exactly
      when it is not in `c`. */
  lemma RemoveAllKeepsOrder<T>(a: seq<T>, b: seq<T>, c: set<T>, e: T)
    ensures RemoveAllEntities(a + b, c).list == RemoveAllEntities(a, c).list + RemoveAllEntities(b, c).list
    ensures RemoveAllEntities([e], c).list == if e in c then [] else [e]
  {
    FilterConcat(a, b, x => x !in c);
  }

  /** `retainAllEntities(c)` works entity by entity and keeps the order: it
      distributes over concatenation, and on one entity it keeps it exactly
      when it is in `c`. */
  lemma RetainAllKeepsOrder<T>(a: seq<T>, b: seq<T>, c: set<T>, e: T)
    ensures RetainAllEntities(a + b, c).list == RetainAllEntities(a, c).list + RetainAllEntities(b, c).list
    ensures RetainAllEntities([e], c).list == if e in c then [e] else []
  {
    FilterConcat(a, b, x => x in c);
  }

  /** Filtering then mapping equals mapping then filtering when the transform
      does not change whether the predicate holds. */
  lemma {:induction false} FilterMapCommute<T>(s: seq<T>, p: T -> bool, f: T -> T)
    requires forall x :: p(f(x)) == p(x)
    ensures MapEntities(FilterEntities(s, p), f) == FilterEntities(MapEntities(s, f), p)
  {
    if s != [] {
      FilterMapCommute(s[1..], p, f);
      assert MapEntities(s, f)[1..] == MapEntities(s[1..], f);
    }
  }

  /** `clear()` leaves nothing to read or remove. */
  lemma ClearEmpties<T>(s: seq<T>, i: int)
    ensures IsEmpty(Clear(s))
    ensures GetEntityByIndex(Clear(s), i).None?
    ensures RemoveEntityAt(Clear(s), i) == Failure(NoSuchElement)
  {
  }

  // ---------------------------------------------------------------------------
  // The compute family as instances of `compute`

  /** `computeIfPresent(i, f)` is `compute` with a remapper that leaves absent alone. */
  lemma ComputeIfPresentIsCompute<T>(s: seq<T>, i: int, f: (int, T) -> Option<T>)
    ensures ComputeIfPresent(s, i, f)
      == Compute(s, i, (j, o: Option<T>) => if o.Some? then f(j, o.value) else None)
  {
  }

  /** `computeIfAbsent(i, f)` is `compute` with a remapper that keeps a present
      entity and asks `f` otherwise. */
  lemma ComputeIfAbsentIsCompute<T>(s: seq<T>, i: int, f: int -> Option<T>)
    ensures ComputeIfAbsent(s, i, f)
      == Compute(s, i, (j, o: Option<T>) => if o.Some? then o else f(j))
  {
  }

  /** `merge(i, v, f)` is `compute` with a remapper that combines a present
      entity with `v` and falls back to `v` otherwise. */
  lemma MergeIsCompute<T>(s: seq<T>, i: int, v: Option<T>, f: (T, Option<T>) -> Option<T>)
    ensures Merge(s, i, v, f)
      == Compute(s, i, (j, o: Option<T>) => if o.Some? then f(o.value, v) else v)
  {
  }

  // ---------------------------------------------------------------------------
  // The out-of-range branch appends and forgets the requested index

  /** A value `compute` produces for an out-of-range index lands at position
      `size()`: reading the requested index back finds it only when that
      index was `size()` itself. */
  lemma ComputeAppendIgnoresIndex<T>(s: seq<T>, i: int, f: (int, Option<T>) -> Option<T>)
    requires !InRange(s, i) && f(i, None).Some?
    ensures GetEntityByIndex(Compute(s, i, f).list, |s|) == f(i, None)
    ensures GetEntityByIndex(Compute(s, i, f).list, i) == (if i == |s| then f(i, None) else None)
  {
  }

  /** Repeating `computeIfAbsent(i, f)` out of range: at `i == size()` the
      second call finds the appended entity and changes nothing; at any other
      out-of-range index it appends a second copy. */
  lemma ComputeIfAbsentTwice<T>(s: seq<T>, i: int, f: int -> Option<T>)
    requires !InRange(s, i) && f(i).Some?
    ensures var once := ComputeIfAbsent(s, i, f);
            var twice := ComputeIfAbsent(once.list, i, f);
            && twice.answer == f(i)
            && (i == |s| ==> twice.list == once.list)
            && (i != |s| ==> |twice.list| == |s| + 2)
  {
  }
}
