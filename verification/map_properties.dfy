/** Properties of the keyed entity container that relate several of its
    operations to each other or to an independent reference definition. */
module MapProperties {
  import opened Results
  import opened EntityMap

  // ---------------------------------------------------------------------------
  // The reference descriptions determine the entries completely.

  lemma DroppedAtUnique<K, T>(m: map<K, T>, a: map<K, T>, b: map<K, T>, k: K)
    requires DroppedAt(m, a, k) && DroppedAt(m, b, k)
    ensures a == b
  {
    assert a.Keys == b.Keys by {
      assert a.Keys == a.Keys - {k};
      assert b.Keys == b.Keys - {k};
    }
    forall k' | k' in a ensures a[k'] == b[k'] {
      assert k' in a.Keys - {k};
    }
  }

  // ---------------------------------------------------------------------------
  // Reading back what was written

  /** After `put(k, v)`, `getValueByKey(k)` is `v` and every other key reads
      as before. */
  lemma PutThenGet<K, T>(m: map<K, T>, k: K, v: T, k': K)
    ensures GetValueByKey(Put(m, k, v).entries, k') == if k' == k then Some(v) else GetValueByKey(m, k')
  {
  }

  /** `getOrDefault(k, d)` is `getValueByKey(k)` with absent read as `d`. */
  lemma GetOrDefaultIsGetOr<K, T>(m: map<K, T>, k: K, d: T)
    ensures GetOrDefault(m, k, d) == GetValueByKey(m, k).GetOr(d)
  {
  }

  /** `containsValue(v)` holds exactly when some key reads back `v`. */
  lemma ContainsValueIffSomeKey<K, T>(m: map<K, T>, v: T)
    ensures ContainsValue(m, v) <==> exists k :: GetValueByKey(m, k) == Some(v)
  {
    if ContainsValue(m, v) {
      var k :| k in m && m[k] == v;
      assert GetValueByKey(m, k) == Some(v);
    }
  }

  // ---------------------------------------------------------------------------
  // Sizes and removal

  /** `put` grows the map by one exactly when the key was new; a successful
      `removeEntity` shrinks it by one. */
  lemma SizeAfterPutAndRemove<K, T>(m: map<K, T>, k: K, v: T)
    ensures Size(Put(m, k, v).entries) == if ContainsKey(m, k) then Size(m) else Size(m) + 1
    ensures RemoveEntity(m, k).Success? ==> Size(RemoveEntity(m, k).value.entries) == Size(m) - 1
  {
  }

  /** Removing what was just put answers the put entity and leaves the map as
      it was, except that `k` no longer has an entry. */
  lemma PutThenRemoveEntity<K, T>(m: map<K, T>, k: K, v: T)
    ensures RemoveEntity(Put(m, k, v).entries, k) == Success(Step(v, m - {k}))
    ensures !ContainsKey(m, k) ==> RemoveEntity(Put(m, k, v).entries, k) == Success(Step(v, m))
  {
    var r := RemoveEntity(Put(m, k, v).entries, k);
    DroppedAtUnique(m, r.value.entries, m - {k}, k);
    if k !in m {
      assert m - {k} == m;
    }
  }

  /** `remove(k, v)` leaves an entry under another entity untouched, and when
      it does remove it leaves the same map as `removeEntity(k)`. */
  lemma RemoveIfEqualAgreesWithRemoveEntity<K, T>(m: map<K, T>, k: K, v: T)
    ensures ContainsKey(m, k) && m[k] != v ==> Remove(m, k, v) == Step(false, m)
    ensures Remove(m, k, v).answer ==>
      RemoveEntity(m, k).Success? && Remove(m, k, v).entries == RemoveEntity(m, k).value.entries
  {
  }

  /** `clear()` leaves nothing to read or remove. */
  lemma ClearEmpties<K, T>(m: map<K, T>, k: K)
    ensures IsEmpty(Clear(m))
    ensures GetValueByKey(Clear(m), k).None?
    ensures RemoveEntity(Clear(m), k) == Failure(NoSuchElement)
  {
  }

  // ---------------------------------------------------------------------------
  // The compute family as instances of `compute`

  /** `computeIfPresent(k, f)` is `compute` with a remapper that leaves absent alone. */
  lemma ComputeIfPresentIsCompute<K, T>(m: map<K, T>, k: K, f: (K, T) -> Option<T>)
    ensures ComputeIfPresent(m, k, f)
      == Compute(m, k, (j, o: Option<T>) => if o.Some? then f(j, o.value) else None)
  {
  }

  /** `computeIfAbsent(k, f)` is `compute` with a remapper that keeps a present
      entity and asks `f` otherwise. */
  lemma ComputeIfAbsentIsCompute<K, T>(m: map<K, T>, k: K, f: K -> Option<T>)
    ensures ComputeIfAbsent(m, k, f)
      == Compute(m, k, (j, o: Option<T>) => if o.Some? then o else f(j))
  {
  }

  /** `merge(k, v, f)` is `compute` with a remapper that combines a present
      entity with `v` and falls back to `v` otherwise. */
  lemma MergeIsCompute<K, T>(m: map<K, T>, k: K, v: T, f: (T, T) -> Option<T>)
    ensures Merge(m, k, v, f)
      == Compute(m, k, (j, o: Option<T>) => if o.Some? then f(o.value, v) else Some(v))
  {
  }

  /** `put`, `putIfAbsent` and `replace` leave the same entries as the compute
      operation with a remapper that always answers `v`. */
  lemma PutsAreComputes<K, T>(m: map<K, T>, k: K, v: T)
    ensures Put(m, k, v).entries == Compute(m, k, (j, o: Option<T>) => Some(v)).entries
    ensures PutIfAbsent(m, k, v).entries == ComputeIfAbsent(m, k, j => Some(v)).entries
    ensures Replace(m, k, v).entries == ComputeIfPresent(m, k, (j, o: T) => Some(v)).entries
  {
  }

  // ---------------------------------------------------------------------------
  // Repetition

  /** Calling `computeIfAbsent` twice with the same key: once the first call
      has stored an entity, the second answers it, changes nothing, and its
      own producer plays no part. */
  lemma ComputeIfAbsentTwice<K, T>(m: map<K, T>, k: K, f: K -> Option<T>, g: K -> Option<T>)
    requires ComputeIfAbsent(m, k, f).answer.Some?
    ensures var once := ComputeIfAbsent(m, k, f);
            ComputeIfAbsent(once.entries, k, g) == once
  {
  }

  /** A remapper that answers absent makes `computeIfPresent` remove the key. */
  lemma ComputeIfPresentToAbsentRemoves<K, T>(m: map<K, T>, k: K, f: (K, T) -> Option<T>)
    requires ContainsKey(m, k) && f(k, m[k]).None?
    ensures !ContainsKey(ComputeIfPresent(m, k, f).entries, k)
    ensures Size(ComputeIfPresent(m, k, f).entries) == Size(m) - 1
  {
  }
}
