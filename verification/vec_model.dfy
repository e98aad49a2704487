/** The observable state of a small_vector<T, N> as a value, and the effect of
    each operation on it.  `n` is the inline capacity N and `elemSize` is
    sizeof(T).  The class in small_vector.dfy is proved against these functions. */
module VecModel {
  import opened SizeT
  import opened Failures

  /** The live elements `[0, size)`, the number of slots of the current
      storage, and whether that storage is the embedded inline buffer. */
  datatype Vec<T> = Vec(elems: seq<T>, capacity: nat, isInline: bool)

  /** The representation invariant on the three numbers a vector keeps:
      N is not zero, size <= capacity, N <= capacity <= max_size(), and the
      data pointer is the inline buffer exactly when capacity == N. */
  predicate Layout(n: nat, elemSize: nat, size: nat, capacity: nat, isInline: bool)
  {
    1 <= n && 1 <= elemSize &&
    size <= capacity && n <= capacity <= MaxSize(elemSize) &&
    (isInline <==> capacity == n)
  }

  predicate Wf<T>(n: nat, elemSize: nat, v: Vec<T>)
  {
    Layout(n, elemSize, |v.elems|, v.capacity, v.isInline)
  }

  /** The state the default constructor establishes. */
  function Default<T>(n: nat, elemSize: nat): (v: Vec<T>)
    requires 1 <= n && 1 <= elemSize && n <= MaxSize(elemSize)
    ensures Wf(n, elemSize, v)
    ensures v.elems == [] && v.capacity == n && v.isInline
  {
    Vec([], n, true)
  }

  /** The test the destructor and clear() use to decide whether to free the
      storage (`_capacity != N`): on a well-formed vector it holds exactly
      when the storage is a heap buffer. */
  function ReleasesStorage<T>(n: nat, elemSize: nat, v: Vec<T>): (r: bool)
    requires Wf(n, elemSize, v)
    ensures r <==> !v.isInline
  {
    v.capacity != n
  }

  /** _grow(add): the new capacity `cap + max(add, cap / 2)` computed in
      size_t, rejected with length_error when it wraps around or exceeds
      max_size(), then bad_alloc when the allocation fails. */
  function GrowCapacity(cap: nat, add: nat, elemSize: nat, allocOk: bool): (r: Result<nat>)
    requires 1 <= elemSize && cap <= SIZE_MAX && add <= SIZE_MAX
    ensures r.Ok? <==> allocOk && cap + Max(add, cap / 2) <= MaxSize(elemSize)
    ensures r.Ok? ==> r.value == cap + Max(add, cap / 2)
    ensures r.Ok? ==> r.value >= cap + add && r.value >= cap + cap / 2
    ensures r.Ok? ==> r.value * elemSize <= SIZE_MAX
    ensures r.Err? ==> (r.error == LengthError <==> cap + Max(add, cap / 2) > MaxSize(elemSize))
    ensures r.Err? ==> r.error == LengthError || r.error == BadAlloc
  {
    var newCap := Add(cap, Max(add, cap / 2));
    if newCap < cap || newCap > MaxSize(elemSize) then
      Err(LengthError)
    else if !allocOk then
      Err(BadAlloc)
    else
      ByteSizeFits(newCap, elemSize);
      Ok(newCap)
  }

  /** The capacity after making room for `need` slots: unchanged when they
      already fit, otherwise the result of _grow(need - cap). */
  function CapacityFor(cap: nat, need: nat, elemSize: nat, allocOk: bool): (r: Result<nat>)
    requires 1 <= elemSize && cap <= SIZE_MAX && need - cap <= SIZE_MAX
    ensures need <= cap ==> r == Ok(cap)
    ensures r.Ok? ==> r.value >= need && r.value >= cap
    ensures r.Ok? && need > cap ==> r.value >= cap + cap / 2 && r.value <= MaxSize(elemSize)
    ensures need > cap ==> r == GrowCapacity(cap, need - cap, elemSize, allocOk)
  {
    if need <= cap then Ok(cap) else GrowCapacity(cap, need - cap, elemSize, allocOk)
  }

  /** Whether a method's outcome and new state agree with a specification
      result: on success the state is the specified one, on failure the same
      error is reported and the state is the old one (strong guarantee). */
  ghost predicate Committed<T>(st: Outcome, spec: Result<Vec<T>>, before: Vec<T>, after: Vec<T>)
  {
    match spec
    case Ok(v) => st == Pass && after == v
    case Err(e) => st == Fail(e) && after == before
  }

  /** push_back(x) / emplace_back(x): grow by one only when full, then append. */
  function PushBack<T>(n: nat, elemSize: nat, v: Vec<T>, x: T, allocOk: bool): (r: Result<Vec<T>>)
    requires Wf(n, elemSize, v)
    ensures r.Ok? ==> Wf(n, elemSize, r.value) && r.value.elems == v.elems + [x]
    ensures |v.elems| < v.capacity ==> r == Ok(Vec(v.elems + [x], v.capacity, v.isInline))
    ensures |v.elems| == v.capacity && r.Ok? ==>
              r.value.capacity == v.capacity + Max(1, v.capacity / 2) && !r.value.isInline
    ensures |v.elems| == v.capacity ==>
              OutcomeOf(r) == OutcomeOf(GrowCapacity(v.capacity, 1, elemSize, allocOk))
    ensures r.Err? ==> |v.elems| == v.capacity
  {
    match CapacityFor(v.capacity, |v.elems| + 1, elemSize, allocOk)
    case Err(e) => Err(e)
    case Ok(c) => Ok(Vec(v.elems + [x], c, v.isInline && c == v.capacity))
  }

  /** Pushing each element of `xs` in order, stopping at the first failure:
      the body of the range constructor. */
  function PushAll<T>(n: nat, elemSize: nat, v: Vec<T>, xs: seq<T>, allocOk: bool): (r: Result<Vec<T>>)
    requires Wf(n, elemSize, v)
    ensures r.Ok? ==> Wf(n, elemSize, r.value) && r.value.elems == v.elems + xs
    ensures r.Ok? ==> r.value.capacity >= v.capacity
    ensures |v.elems| + |xs| <= v.capacity ==> r == Ok(Vec(v.elems + xs, v.capacity, v.isInline))
    ensures r.Err? ==> |v.elems| + |xs| > v.capacity
    decreases |xs|
  {
    if xs == [] then
      assert v.elems + xs == v.elems;
      Ok(v)
    else
      match PushBack(n, elemSize, v, xs[0], allocOk)
      case Err(e) => Err(e)
      case Ok(w) =>
        assert w.elems + xs[1..] == v.elems + xs;
        PushAll(n, elemSize, w, xs[1..], allocOk)
  }

  /** The elements after resizing to `newSize`: the old prefix, then copies of `fill`. */
  function Resized<T>(s: seq<T>, newSize: nat, fill: T): (r: seq<T>)
    ensures |r| == newSize
    ensures forall i :: 0 <= i < Min(|s|, newSize) ==> r[i] == s[i]
    ensures forall i :: |s| <= i < newSize ==> r[i] == fill
  {
    if newSize <= |s| then s[..newSize] else s + seq(newSize - |s|, _ => fill)
  }

  /** resize(newSize[, fill]): grow only when newSize exceeds the capacity. */
  function Resize<T>(n: nat, elemSize: nat, v: Vec<T>, newSize: nat, fill: T, allocOk: bool): (r: Result<Vec<T>>)
    requires Wf(n, elemSize, v) && newSize <= SIZE_MAX
    ensures r.Ok? ==> Wf(n, elemSize, r.value) && r.value.elems == Resized(v.elems, newSize, fill)
    ensures r.Ok? ==> r.value.capacity >= newSize && r.value.capacity >= v.capacity
    ensures newSize <= v.capacity ==> r == Ok(Vec(Resized(v.elems, newSize, fill), v.capacity, v.isInline))
    ensures r.Ok? && newSize > v.capacity ==> !r.value.isInline
    ensures newSize > v.capacity ==>
              OutcomeOf(r) == OutcomeOf(GrowCapacity(v.capacity, newSize - v.capacity, elemSize, allocOk))
    ensures r.Ok? && newSize > v.capacity ==>
              r.value.capacity == GrowCapacity(v.capacity, newSize - v.capacity, elemSize, allocOk).value
    ensures r.Err? ==> newSize > v.capacity
  {
    match CapacityFor(v.capacity, newSize, elemSize, allocOk)
    case Err(e) => Err(e)
    case Ok(c) => Ok(Vec(Resized(v.elems, newSize, fill), c, v.isInline && c == v.capacity))
  }

  /** clear(): back to the default-constructed state, whatever the storage was. */
  function Clear<T>(n: nat, elemSize: nat, v: Vec<T>): (r: Vec<T>)
    requires Wf(n, elemSize, v)
    ensures r == Default(n, elemSize)
  {
    Vec([], n, true)
  }

  /** shrink_to_fit() with the inline path corrected to capacity N. */
  function ShrinkToFit<T>(n: nat, elemSize: nat, v: Vec<T>, allocOk: bool): (r: Result<Vec<T>>)
    requires Wf(n, elemSize, v)
    ensures r.Ok? ==> Wf(n, elemSize, r.value) && r.value.elems == v.elems
    ensures r.Ok? ==> r.value.capacity == Max(n, |v.elems|) && (r.value.isInline <==> |v.elems| <= n)
    ensures v.capacity == n || |v.elems| == v.capacity ==> r == Ok(v)
    ensures r.Err? <==> !allocOk && n < |v.elems| < v.capacity
    ensures r.Err? ==> r.error == BadAlloc
  {
    if v.capacity == n || |v.elems| == v.capacity then
      Ok(v)
    else if |v.elems| > n then
      if allocOk then Ok(Vec(v.elems, |v.elems|, false)) else Err(BadAlloc)
    else
      Ok(Vec(v.elems, n, true))
  }

  /** The elements left by erasing `[first, last)`: nothing when the range
      is empty, otherwise the prefix before `first` followed by the tail from `last`. */
  function Erased<T>(s: seq<T>, first: nat, last: nat): (r: seq<T>)
    requires first < last ==> last <= |s|
    ensures first >= last ==> r == s
    ensures first < last ==> |r| == |s| - (last - first)
    ensures first < last ==> forall i :: 0 <= i < first ==> r[i] == s[i]
    ensures first < last ==> forall i :: first <= i < |r| ==> r[i] == s[i + (last - first)]
  {
    if first >= last then s else s[..first] + s[last..]
  }

  /** erase(first, last): the storage is left as it is. */
  function EraseRange<T>(n: nat, elemSize: nat, v: Vec<T>, first: nat, last: nat): (r: Vec<T>)
    requires Wf(n, elemSize, v) && (first < last ==> last <= |v.elems|)
    ensures Wf(n, elemSize, r)
    ensures r.capacity == v.capacity && r.isInline == v.isInline
    ensures r.elems == Erased(v.elems, first, last)
  {
    Vec(Erased(v.elems, first, last), v.capacity, v.isInline)
  }

  /** The iterator erase(first, last) returns: `last` for an empty range,
      otherwise `first`, where the old tail now starts. */
  function EraseNext(first: nat, last: nat): (r: nat)
    ensures first >= last ==> r == last
    ensures first < last ==> r == first
  {
    if first >= last then last else first
  }

  /** erase(pos), taken as erase(pos, pos + 1), removes exactly the element at
      `pos` and keeps the others in their original relative order. */
  lemma {:induction false} EraseOneRemovesExactlyOne<T>(n: nat, elemSize: nat, v: Vec<T>, pos: nat)
    requires Wf(n, elemSize, v) && pos < |v.elems|
    ensures var r := EraseRange(n, elemSize, v, pos, pos + 1);
            |r.elems| == |v.elems| - 1 &&
            r.elems == v.elems[..pos] + v.elems[pos + 1..] &&
            multiset(r.elems) + multiset{v.elems[pos]} == multiset(v.elems)
  {
    var s := v.elems;
    var r := EraseRange(n, elemSize, v, pos, pos + 1);
    assert r.elems == s[..pos] + s[pos + 1..];
    assert s == s[..pos] + [s[pos]] + s[pos + 1..];
    calc {
      multiset(s);
      multiset(s[..pos] + [s[pos]] + s[pos + 1..]);
      multiset(s[..pos]) + multiset{s[pos]} + multiset(s[pos + 1..]);
      multiset(r.elems) + multiset{s[pos]};
    }
  }

  /** A sequence of pushes leaves the pushed values, in order, after the old
      ones; a failed push leaves the state of the pushes before it. */
  lemma {:induction false} PushAllSplits<T>(n: nat, elemSize: nat, v: Vec<T>, xs: seq<T>, ys: seq<T>, allocOk: bool)
    requires Wf(n, elemSize, v)
    ensures PushAll(n, elemSize, v, xs + ys, allocOk) ==
            match PushAll(n, elemSize, v, xs, allocOk)
            case Err(e) => Err(e)
            case Ok(w) => PushAll(n, elemSize, w, ys, allocOk)
    decreases |xs|
  {
    if xs == [] {
      assert xs + ys == ys;
    } else {
      assert (xs + ys)[0] == xs[0];
      assert (xs + ys)[1..] == xs[1..] + ys;
      match PushBack(n, elemSize, v, xs[0], allocOk)
      case Err(e) =>
      case Ok(w) => PushAllSplits(n, elemSize, w, xs[1..], ys, allocOk);
    }
  }

  /** With N = 4 and 4-byte elements: four pushes stay inline, the fifth grows
      the capacity to 4 + max(1, 2) = 6 on the heap, erasing index 0 leaves
      2, 3, 4, 5, and shrink_to_fit moves them back inline with capacity 4. */
  lemma {:induction false} InlineToHeapAndBack()
    ensures PushAll(4, 4, Default(4, 4), [1, 2, 3, 4], true) == Ok(Vec([1, 2, 3, 4], 4, true))
    ensures PushAll(4, 4, Default(4, 4), [1, 2, 3, 4, 5], true) == Ok(Vec([1, 2, 3, 4, 5], 6, false))
    ensures EraseRange(4, 4, Vec([1, 2, 3, 4, 5], 6, false), 0, 1) == Vec([2, 3, 4, 5], 6, false)
    ensures ShrinkToFit(4, 4, Vec([2, 3, 4, 5], 6, false), true) == Ok(Vec([2, 3, 4, 5], 4, true))
  {
    var v4 := Vec([1, 2, 3, 4], 4, true);
    assert Default<int>(4, 4).elems + [1, 2, 3, 4] == [1, 2, 3, 4];
    assert PushAll(4, 4, Default(4, 4), [1, 2, 3, 4], true) == Ok(v4);
    PushAllSplits(4, 4, Default(4, 4), [1, 2, 3, 4], [5], true);
    assert [1, 2, 3, 4] + [5] == [1, 2, 3, 4, 5];
    assert PushBack(4, 4, v4, 5, true) == Ok(Vec([1, 2, 3, 4, 5], 6, false));
    assert PushAll(4, 4, v4, [5], true) == PushAll(4, 4, Vec([1, 2, 3, 4, 5], 6, false), [], true);
    assert [1, 2, 3, 4, 5][..0] + [1, 2, 3, 4, 5][1..] == [2, 3, 4, 5];
  }
}
