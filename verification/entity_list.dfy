/** The ordered entity container (`Util_List`): an ArrayList of entities,
    modelled as an immutable sequence. Every operation takes the list before
    the call and yields what the Java method returns together with the list
    afterwards. */
module EntityList {
  import opened Results

  /** What a call answers, and the list it leaves behind. */
  datatype Step<T, R> = Step(answer: R, list: seq<T>)

  /** `0 <= i < size()`: the bounds test the container writes out by hand. */
  predicate InRange<T>(s: seq<T>, i: int) {
    0 <= i < |s|
  }

  // ---------------------------------------------------------------------------
  // Reference descriptions of the three ways one call can change the list.

  /** `s'` is `s` with position `i` holding `e` and every other position as before. */
  ghost predicate ReplacedAt<T>(s: seq<T>, s': seq<T>, i: int, e: T) {
    && 0 <= i < |s|
    && |s'| == |s|
    && s'[i] == e
    && forall j :: 0 <= j < |s| && j != i ==> s'[j] == s[j]
  }

  /** `s'` is `s` with position `i` taken out and the tail shifted down by one. */
  ghost predicate RemovedAt<T>(s: seq<T>, s': seq<T>, i: int) {
    && 0 <= i < |s|
    && |s'| == |s| - 1
    && (forall j :: 0 <= j < i ==> s'[j] == s[j])
    && (forall j :: i <= j < |s'| ==> s'[j] == s[j + 1])
  }

  /** `s'` is `s` with `e` added at the end. */
  ghost predicate Appended<T>(s: seq<T>, s': seq<T>, e: T) {
    && |s'| == |s| + 1
    && (forall j :: 0 <= j < |s| ==> s'[j] == s[j])
    && s'[|s|] == e
  }

  /** The list without position `i` (what `ArrayList.remove(int)` leaves). */
  function Without<T>(s: seq<T>, i: int): (r: seq<T>)
    requires 0 <= i < |s|
    ensures RemovedAt(s, r, i)
  {
    s[..i] + s[i + 1..]
  }

  // ---------------------------------------------------------------------------
  // Adding and replacing

  /** `addEntity`: always succeeds, the new entity goes last. */
  function AddEntity<T>(s: seq<T>, e: T): (r: seq<T>)
    ensures Appended(s, r, e)
  {
    s + [e]
  }

  /** `addAllEntities`: the other list's entities follow, in their order. */
  function AddAllEntities<T>(s: seq<T>, other: seq<T>): (r: seq<T>)
    ensures |r| == |s| + |other|
    ensures forall j :: 0 <= j < |s| ==> r[j] == s[j]
    ensures forall j :: 0 <= j < |other| ==> r[|s| + j] == other[j]
  {
    s + other
  }

  /** `setEntity`: replaces one position; out of range it is an index error. */
  function SetEntity<T>(s: seq<T>, i: int, e: T): (r: Result<seq<T>>)
    ensures r.Success? <==> InRange(s, i)
    ensures r.Success? ==> ReplacedAt(s, r.value, i, e)
    ensures r.Failure? ==> r.error == IndexOutOfBounds(i)
  {
    if InRange(s, i) then Success(s[i := e]) else Failure(IndexOutOfBounds(i))
  }

  /** `replaceAllEntities`: the operator applied to every position in place. */
  function ReplaceAllEntities<T>(s: seq<T>, op: T -> T): (r: seq<T>)
    ensures |r| == |s|
    ensures forall j :: 0 <= j < |s| ==> r[j] == op(s[j])
  {
    MapEntities(s, op)
  }

  // ---------------------------------------------------------------------------
  // Reading

  /** `getEntityById`: the first entity, in index order, whose id equals `id`;
      absent when none does. The entity's id accessor is the parameter `getId`. */
  function GetEntityById<T, I(==)>(s: seq<T>, getId: T -> I, id: I): (r: Option<T>)
    ensures r.None? <==> forall j :: 0 <= j < |s| ==> getId(s[j]) != id
    ensures r.Some? ==>
      exists i :: 0 <= i < |s| && s[i] == r.value && getId(s[i]) == id
                  && forall j :: 0 <= j < i ==> getId(s[j]) != id
  {
    if s == [] then None
    else if getId(s[0]) == id then
      Some(s[0])
    else
      var r := GetEntityById(s[1..], getId, id);
      assert r.Some? ==> exists i :: 1 <= i < |s| && s[i] == r.value && getId(s[i]) == id
                                     && forall j :: 0 <= j < i ==> getId(s[j]) != id by {
        if r.Some? {
          var k :| 0 <= k < |s[1..]| && s[1..][k] == r.value && getId(s[1..][k]) == id
                   && forall j :: 0 <= j < k ==> getId(s[1..][j]) != id;
          assert forall j :: 0 <= j < k + 1 ==> getId(s[j]) != id by {
            forall j | 0 <= j < k + 1 ensures getId(s[j]) != id {
              if j > 0 { assert s[j] == s[1..][j - 1]; }
            }
          }
        }
      }
      assert r.None? ==> forall j :: 0 <= j < |s| ==> getId(s[j]) != id by {
        if r.None? {
          forall j | 0 <= j < |s| ensures getId(s[j]) != id {
            if j > 0 { assert s[j] == s[1..][j - 1]; }
          }
        }
      }
      r
  }

  /** `getEntityIds`: the id of every entity, in index order, duplicates
      kept; each listed id finds an entity through `getEntityById`. */
  function GetEntityIds<T, I(==)>(s: seq<T>, getId: T -> I): (r: seq<I>)
    ensures |r| == |s|
    ensures forall j :: 0 <= j < |s| ==> r[j] == getId(s[j])
    ensures forall j :: 0 <= j < |r| ==> GetEntityById(s, getId, r[j]).Some?
  {
    MapEntities(s, getId)
  }

  /** `getEntityByIndex`: the bounds-checked read, absent instead of failing. */
  function GetEntityByIndex<T>(s: seq<T>, i: int): (r: Option<T>)
    ensures r.Some? <==> 0 <= i < |s|
    ensures r.Some? ==> r.value == s[i]
  {
    if InRange(s, i) then Some(s[i]) else None
  }

  /** `subList`: the positions `from` up to (not including) `to`. The range
      checks and the exception each one raises are those of `ArrayList.subList`. */
  function SubList<T>(s: seq<T>, from: int, to: int): (r: Result<seq<T>>)
    ensures r.Success? <==> 0 <= from <= to <= |s|
    ensures r.Success? ==>
      |r.value| == to - from && forall j :: 0 <= j < |r.value| ==> r.value[j] == s[from + j]
    ensures from < 0 ==> r.Failure? && r.error.IndexOutOfBounds?
    ensures 0 <= from && |s| < to ==> r.Failure? && r.error.IndexOutOfBounds?
    ensures 0 <= from && to <= |s| && to < from ==> r.Failure? && r.error.IllegalArgument?
  {
    if from < 0 then Failure(IndexOutOfBounds(from))
    else if to > |s| then Failure(IndexOutOfBounds(to))
    else if from > to then Failure(IllegalArgument(from, to))
    else Success(s[from..to])
  }

  /** `containsEntity`: membership by equality, i.e. some index holds `e`. */
  predicate ContainsEntity<T(==)>(s: seq<T>, e: T)
    ensures ContainsEntity(s, e) <==> exists j :: 0 <= j < |s| && s[j] == e
  {
    e in s
  }

  /** `size()`: exactly the indices below it can be read. */
  function Size<T>(s: seq<T>): (r: nat)
    ensures forall i :: GetEntityByIndex(s, i).Some? <==> 0 <= i < r
  {
    |s|
  }

  /** `isEmpty()`: no index can be read. */
  predicate IsEmpty<T>(s: seq<T>)
    ensures IsEmpty(s) <==> forall i :: GetEntityByIndex(s, i).None?
  {
    assert |s| != 0 ==> GetEntityByIndex(s, 0).Some?;
    |s| == 0
  }

  /** `indexOf`: the first position holding `e`, or -1 when there is none. */
  function IndexOf<T(==)>(s: seq<T>, e: T): (r: int)
    ensures -1 <= r < |s|
    ensures r == -1 <==> !ContainsEntity(s, e)
    ensures 0 <= r ==> s[r] == e && forall j :: 0 <= j < r ==> s[j] != e
  {
    if s == [] then -1
    else if s[0] == e then 0
    else
      var k := IndexOf(s[1..], e);
      if k == -1 then -1 else k + 1
  }

  /** `lastIndexOf`: the last position holding `e`, or -1 when there is none. */
  function LastIndexOf<T(==)>(s: seq<T>, e: T): (r: int)
    ensures -1 <= r < |s|
    ensures r == -1 <==> !ContainsEntity(s, e)
    ensures 0 <= r ==> s[r] == e && forall j :: r < j < |s| ==> s[j] != e
  {
    if s == [] then -1
    else if s[|s| - 1] == e then |s| - 1
    else
      assert s == s[..|s| - 1] + [s[|s| - 1]];
      LastIndexOf(s[..|s| - 1], e)
  }

  // ---------------------------------------------------------------------------
  // Removing

  /** `removeEntity(T)`: removes the first equal occurrence; with none it
      raises NoSuchElementException. The Java method's `true` is implied by
      success, so the model returns only the new list. */
  function RemoveEntity<T(==)>(s: seq<T>, e: T): (r: Result<seq<T>>)
    ensures r.Success? <==> ContainsEntity(s, e)
    ensures r.Failure? ==> r.error == NoSuchElement
    ensures r.Success? ==> RemovedAt(s, r.value, IndexOf(s, e))
  {
    if s == [] then Failure(NoSuchElement)
    else if s[0] == e then Success(s[1..])
    else
      match RemoveEntity(s[1..], e)
      case Success(t) => Success([s[0]] + t)
      case Failure(err) => Failure(err)
  }

  /** `removeEntity(int)`: removes and returns the entity at `i`; out of range
      it raises NoSuchElementException, not an index error. */
  function RemoveEntityAt<T>(s: seq<T>, i: int): (r: Result<Step<T, T>>)
    ensures r.Success? <==> InRange(s, i)
    ensures r.Failure? ==> r.error == NoSuchElement
    ensures r.Success? ==> r.value.answer == s[i] && RemovedAt(s, r.value.list, i)
  {
    if InRange(s, i) then Success(Step(s[i], Without(s, i))) else Failure(NoSuchElement)
  }

  /** `removeAllEntities`: drops every occurrence of every entity contained
      in `c` and keeps every other occurrence, in order; answers whether the
      list changed. */
  function RemoveAllEntities<T(==)>(s: seq<T>, c: set<T>): (r: Step<T, bool>)
    ensures forall j :: 0 <= j < |r.list| ==> r.list[j] in s && r.list[j] !in c
    ensures forall j :: 0 <= j < |s| && s[j] !in c ==> s[j] in r.list
    ensures r.answer <==> exists j :: 0 <= j < |s| && s[j] in c
    ensures r.answer <==> r.list != s
    ensures multiset(r.list) <= multiset(s)
    ensures forall x :: x in multiset(s) ==> multiset(r.list)[x] == if x in c then 0 else multiset(s)[x]
  {
    var t := FilterEntities(s, x => x !in c);
    FilterCounts(s, x => x !in c);
    Step(t != s, t)
  }

  /** `retainAllEntities`: keeps every occurrence of the entities contained
      in `c`, in order, and drops every other one; answers whether the list
      changed. */
  function RetainAllEntities<T(==)>(s: seq<T>, c: set<T>): (r: Step<T, bool>)
    ensures forall j :: 0 <= j < |r.list| ==> r.list[j] in s && r.list[j] in c
    ensures forall j :: 0 <= j < |s| && s[j] in c ==> s[j] in r.list
    ensures r.answer <==> exists j :: 0 <= j < |s| && s[j] !in c
    ensures r.answer <==> r.list != s
    ensures multiset(r.list) <= multiset(s)
    ensures forall x :: x in multiset(s) ==> multiset(r.list)[x] == if x in c then multiset(s)[x] else 0
  {
    var t := FilterEntities(s, x => x in c);
    FilterCounts(s, x => x in c);
    Step(t != s, t)
  }

  /** `clear()`: nothing is left to read. */
  function Clear<T>(s: seq<T>): (r: seq<T>)
    ensures forall i :: GetEntityByIndex(r, i).None?
  {
    []
  }

  // ---------------------------------------------------------------------------
  // Streams

  /** `filterEntities`: a new list of the entities satisfying the predicate,
      in their original order; each kept entity keeps its multiplicity. */
  function FilterEntities<T>(s: seq<T>, p: T -> bool): (r: seq<T>)
    ensures |r| <= |s|
    ensures forall j :: 0 <= j < |r| ==> r[j] in s && p(r[j])
    ensures forall j :: 0 <= j < |s| && p(s[j]) ==> s[j] in r
    ensures r == s <==> forall j :: 0 <= j < |s| ==> p(s[j])
  {
    if s == [] then []
    else
      var rest := FilterEntities(s[1..], p);
      if p(s[0]) then
        assert forall j :: 1 <= j < |s| ==> s[j] == s[1..][j - 1];
        [s[0]] + rest
      else
        rest
  }

  /** Filtering keeps every occurrence of an entity that satisfies `p` and
      none of one that does not. */
  lemma {:induction false} FilterCounts<T>(s: seq<T>, p: T -> bool)
    ensures multiset(FilterEntities(s, p)) <= multiset(s)
    ensures forall x :: x in multiset(s) ==>
      multiset(FilterEntities(s, p))[x] == if p(x) then multiset(s)[x] else 0
  {
    if s != [] {
      var t := s[1..];
      var rest := FilterEntities(t, p);
      FilterCounts(t, p);
      assert s == [s[0]] + t;
      var head := if p(s[0]) then multiset{s[0]} else multiset{};
      assert multiset(FilterEntities(s, p)) == head + multiset(rest) by {
        if p(s[0]) {
          assert FilterEntities(s, p) == [s[0]] + rest;
        }
      }
      forall x | x in multiset(s)
        ensures multiset(FilterEntities(s, p))[x] == if p(x) then multiset(s)[x] else 0
      {
        assert multiset(s)[x] == multiset{s[0]}[x] + multiset(t)[x];
        if x !in multiset(t) {
          assert multiset(rest)[x] == 0;
        }
      }
    }
  }

  /** `mapEntities`: a new list of the mapped entities, position for position. */
  function MapEntities<T, R>(s: seq<T>, f: T -> R): (r: seq<R>)
    ensures |r| == |s|
    ensures forall j :: 0 <= j < |s| ==> r[j] == f(s[j])
  {
    if s == [] then [] else [f(s[0])] + MapEntities(s[1..], f)
  }

  // ---------------------------------------------------------------------------
  // The index-based compute family. Inside the bounds these replace or remove
  // the entity at the index; outside they append at the END and ignore the
  // requested index.

  /** `computeIfAbsent(int, Function)`. */
  function ComputeIfAbsent<T>(s: seq<T>, i: int, f: int -> Option<T>): (r: Step<T, Option<T>>)
    ensures InRange(s, i) ==> r.answer == Some(s[i]) && r.list == s
    ensures !InRange(s, i) ==> r.answer == f(i)
    ensures !InRange(s, i) && f(i).Some? ==> Appended(s, r.list, f(i).value)
    ensures !InRange(s, i) && f(i).None? ==> r.list == s
  {
    if InRange(s, i) then Step(Some(s[i]), s)
    else
      match f(i)
      case Some(e) => Step(Some(e), AddEntity(s, e))
      case None => Step(None, s)
  }

  /** `computeIfPresent(int, BiFunction)`. */
  function ComputeIfPresent<T>(s: seq<T>, i: int, f: (int, T) -> Option<T>): (r: Step<T, Option<T>>)
    ensures !InRange(s, i) ==> r.answer.None? && r.list == s
    ensures InRange(s, i) ==> r.answer == f(i, s[i])
    ensures InRange(s, i) && f(i, s[i]).Some? ==> ReplacedAt(s, r.list, i, f(i, s[i]).value)
    ensures InRange(s, i) && f(i, s[i]).None? ==> RemovedAt(s, r.list, i)
  {
    if InRange(s, i) then
      match f(i, s[i])
      case Some(e) => Step(Some(e), s[i := e])
      case None => Step(None, Without(s, i))
    else Step(None, s)
  }

  /** `compute(int, BiFunction)`: the remapper always runs, on the current
      entity or on absent. */
  function Compute<T>(s: seq<T>, i: int, f: (int, Option<T>) -> Option<T>): (r: Step<T, Option<T>>)
    ensures r.answer == f(i, GetEntityByIndex(s, i))
    ensures InRange(s, i) && r.answer.Some? ==> ReplacedAt(s, r.list, i, r.answer.value)
    ensures InRange(s, i) && r.answer.None? ==> RemovedAt(s, r.list, i)
    ensures !InRange(s, i) && r.answer.Some? ==> Appended(s, r.list, r.answer.value)
    ensures !InRange(s, i) && r.answer.None? ==> r.list == s
  {
    var result := f(i, if InRange(s, i) then Some(s[i]) else None);
    if InRange(s, i) then
      match result
      case Some(e) => Step(result, s[i := e])
      case None => Step(result, Without(s, i))
    else
      match result
      case Some(e) => Step(result, AddEntity(s, e))
      case None => Step(result, s)
  }

  /** `merge(int, T, BiFunction)`: the given value may be absent; only the
      out-of-range branch tests it. */
  function Merge<T>(s: seq<T>, i: int, v: Option<T>, f: (T, Option<T>) -> Option<T>): (r: Step<T, Option<T>>)
    ensures InRange(s, i) ==> r.answer == f(s[i], v)
    ensures InRange(s, i) && f(s[i], v).Some? ==> ReplacedAt(s, r.list, i, f(s[i], v).value)
    ensures InRange(s, i) && f(s[i], v).None? ==> RemovedAt(s, r.list, i)
    ensures !InRange(s, i) ==> r.answer == v
    ensures !InRange(s, i) && v.Some? ==> Appended(s, r.list, v.value)
    ensures !InRange(s, i) && v.None? ==> r.list == s
  {
    if InRange(s, i) then
      match f(s[i], v)
      case Some(e) => Step(Some(e), s[i := e])
      case None => Step(None, Without(s, i))
    else
      match v
      case Some(e) => Step(v, AddEntity(s, e))
      case None => Step(None, s)
  }
}
