/** The keyed entity container (`Util_Map`): a HashMap from key to entity,
    modelled as an immutable map. Stored entities are never null, so "key
    present" and "key mapped to a non-null value" coincide. Every operation
    takes the map before the call and yields what the Java method returns
    together with the map afterwards. */
module EntityMap {
  import opened Results

  /** What a call answers, and the entries it leaves behind. */
  datatype Step<K, T, R> = Step(answer: R, entries: map<K, T>)

  /** `m'` agrees with `m` on every key other than `k`. */
  ghost predicate SameExcept<K, T>(m: map<K, T>, m': map<K, T>, k: K) {
    && m'.Keys - {k} == m.Keys - {k}
    && forall k' :: k' in m && k' != k ==> k' in m' && m'[k'] == m[k']
  }

  /** `m'` maps `k` to `v` and agrees with `m` everywhere else. */
  ghost predicate StoredAt<K, T>(m: map<K, T>, m': map<K, T>, k: K, v: T) {
    k in m' && m'[k] == v && SameExcept(m, m', k)
  }

  /** `m'` has no entry for `k` and agrees with `m` everywhere else. */
  ghost predicate DroppedAt<K, T>(m: map<K, T>, m': map<K, T>, k: K) {
    k !in m' && SameExcept(m, m', k)
  }

  // ---------------------------------------------------------------------------
  // Reading

  /** `getValueByKey`: the entity under `k`, absent when there is none. */
  function GetValueByKey<K, T>(m: map<K, T>, k: K): (r: Option<T>)
    ensures r.None? <==> k !in m.Keys
    ensures r.Some? ==> r.value == m[k]
  {
    if k in m then Some(m[k]) else None
  }

  /** `getOrDefault`: the entity under `k`, or the fallback when `k` has no entry. */
  function GetOrDefault<K, T>(m: map<K, T>, k: K, fallback: T): (r: T)
    ensures k !in m ==> r == fallback
    ensures k in m ==> Some(r) == GetValueByKey(m, k)
  {
    if k in m then m[k] else fallback
  }

  /** `containsKey`: the key reads back an entity. */
  predicate ContainsKey<K, T>(m: map<K, T>, k: K)
    ensures ContainsKey(m, k) <==> GetValueByKey(m, k).Some?
  {
    k in m
  }

  /** `containsValue`: some key holds an equal entity. */
  predicate ContainsValue<K, T(==)>(m: map<K, T>, v: T)
    ensures ContainsValue(m, v) <==> exists k :: k in m && m[k] == v
  {
    v in m.Values
  }

  /** `size()`: the number of keys with an entry. */
  function Size<K, T>(m: map<K, T>): (r: nat)
    ensures r == |m.Keys|
    ensures r == 0 <==> m.Keys == {}
  {
    |m|
  }

  /** `isEmpty()`: no key has an entry. */
  predicate IsEmpty<K, T>(m: map<K, T>)
    ensures IsEmpty(m) <==> m.Keys == {}
  {
    |m| == 0
  }

  // ---------------------------------------------------------------------------
  // Writing

  /** `put` (and `addEntity`, which discards the answer): unconditional
      upsert, answering the previous entity. */
  function Put<K, T>(m: map<K, T>, k: K, v: T): (r: Step<K, T, Option<T>>)
    ensures r.answer == GetValueByKey(m, k)
    ensures StoredAt(m, r.entries, k, v)
  {
    Step(GetValueByKey(m, k), m[k := v])
  }

  /** `addAllEntities`: every entry of `other` is put, in turn. */
  function AddAllEntities<K, T>(m: map<K, T>, other: map<K, T>): (r: map<K, T>)
    ensures r.Keys == m.Keys + other.Keys
    ensures forall k :: k in other ==> r[k] == other[k]
    ensures forall k :: k in m && k !in other ==> r[k] == m[k]
  {
    m + other
  }

  /** `putIfAbsent`: stores only under a key without an entry; answers the
      previous entity. */
  function PutIfAbsent<K, T>(m: map<K, T>, k: K, v: T): (r: Step<K, T, Option<T>>)
    ensures r.answer == GetValueByKey(m, k)
    ensures k in m ==> r.entries == m
    ensures k !in m ==> StoredAt(m, r.entries, k, v)
  {
    if k in m then Step(Some(m[k]), m) else Step(None, m[k := v])
  }

  /** `replace`: stores only under a key that has an entry; answers the
      previous entity. */
  function Replace<K, T>(m: map<K, T>, k: K, v: T): (r: Step<K, T, Option<T>>)
    ensures r.answer == GetValueByKey(m, k)
    ensures k in m ==> StoredAt(m, r.entries, k, v)
    ensures k !in m ==> r.entries == m
  {
    if k in m then Step(Some(m[k]), m[k := v]) else Step(None, m)
  }

  // ---------------------------------------------------------------------------
  // Removing

  /** `removeEntity`: removes and answers the entity under `k`; a key with
      no entry raises NoSuchElementException. */
  function RemoveEntity<K, T>(m: map<K, T>, k: K): (r: Result<Step<K, T, T>>)
    ensures r.Success? <==> k in m
    ensures r.Failure? ==> r.error == NoSuchElement
    ensures r.Success? ==> Some(r.value.answer) == GetValueByKey(m, k)
    ensures r.Success? ==> DroppedAt(m, r.value.entries, k)
  {
    if k in m then Success(Step(m[k], m - {k})) else Failure(NoSuchElement)
  }

  /** `remove(key, value)`: removes the entry only if `k` is mapped to `v`;
      answers whether it did, and never fails. */
  function Remove<K, T(==)>(m: map<K, T>, k: K, v: T): (r: Step<K, T, bool>)
    ensures r.answer <==> GetValueByKey(m, k) == Some(v)
    ensures r.answer ==> DroppedAt(m, r.entries, k)
    ensures !r.answer ==> r.entries == m
  {
    if k in m && m[k] == v then Step(true, m - {k}) else Step(false, m)
  }

  /** `clear()`: no key is left. */
  function Clear<K, T>(m: map<K, T>): (r: map<K, T>)
    ensures r.Keys == {}
  {
    map[]
  }

  // ---------------------------------------------------------------------------
  // The compute family, with the `java.util.Map` default-method contracts

  /** `computeIfAbsent`: a present entity is answered and `f` is not asked;
      otherwise `f(k)` is stored when non-absent and answered either way. */
  function ComputeIfAbsent<K, T>(m: map<K, T>, k: K, f: K -> Option<T>): (r: Step<K, T, Option<T>>)
    ensures k in m ==> r == Step(GetValueByKey(m, k), m)
    ensures k !in m ==> r.answer == f(k)
    ensures k !in m && f(k).Some? ==> StoredAt(m, r.entries, k, f(k).value)
    ensures k !in m && f(k).None? ==> r.entries == m
  {
    if k in m then Step(Some(m[k]), m)
    else
      match f(k)
      case Some(v) => Step(Some(v), m[k := v])
      case None => Step(None, m)
  }

  /** `computeIfPresent`: nothing happens to a key without an entry; otherwise
      a non-absent `f(k, old)` is stored and an absent one removes `k`. */
  function ComputeIfPresent<K, T>(m: map<K, T>, k: K, f: (K, T) -> Option<T>): (r: Step<K, T, Option<T>>)
    ensures k !in m ==> r == Step(None, m)
    ensures k in m ==> r.answer == f(k, m[k])
    ensures k in m && r.answer.Some? ==> StoredAt(m, r.entries, k, r.answer.value)
    ensures k in m && r.answer.None? ==> DroppedAt(m, r.entries, k)
  {
    if k in m then
      match f(k, m[k])
      case Some(v) => Step(Some(v), m[k := v])
      case None => Step(None, m - {k})
    else Step(None, m)
  }

  /** `compute`: the remapper always runs, on the current entity or on
      absent; a non-absent result is stored, an absent one leaves `k` without
      an entry. */
  function Compute<K, T>(m: map<K, T>, k: K, f: (K, Option<T>) -> Option<T>): (r: Step<K, T, Option<T>>)
    ensures r.answer == f(k, GetValueByKey(m, k))
    ensures r.answer.Some? ==> StoredAt(m, r.entries, k, r.answer.value)
    ensures r.answer.None? ==> DroppedAt(m, r.entries, k)
  {
    match f(k, GetValueByKey(m, k))
    case Some(v) => Step(Some(v), m[k := v])
    case None => Step(None, m - {k})
  }

  /** `merge`: under a key without an entry `v` is stored and `f` is not
      asked; otherwise `f(old, v)` is stored, or `k` removed when it is
      absent. The value itself is never null (`HashMap.merge` rejects null). */
  function Merge<K, T>(m: map<K, T>, k: K, v: T, f: (T, T) -> Option<T>): (r: Step<K, T, Option<T>>)
    ensures k !in m ==> r.answer == Some(v) && StoredAt(m, r.entries, k, v)
    ensures k in m ==> r.answer == f(m[k], v)
    ensures k in m && r.answer.Some? ==> StoredAt(m, r.entries, k, r.answer.value)
    ensures k in m && r.answer.None? ==> DroppedAt(m, r.entries, k)
  {
    if k !in m then Step(Some(v), m[k := v])
    else
      match f(m[k], v)
      case Some(w) => Step(Some(w), m[k := w])
      case None => Step(None, m - {k})
  }
}
