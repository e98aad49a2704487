/** Four members of small_vector modelled as the source writes them, each with
    the input that shows how it departs from the contract the rest of the
    model (VecModel, SmallVectors) implements. */
module AsWritten {
  import opened SizeT
  import opened Failures
  import opened VecModel

  /** shrink_to_fit() as written: `_capacity = _size` on both paths, also when
      the elements move back into the inline buffer. */
  function ShrinkToFitAsWritten<T>(n: nat, elemSize: nat, v: Vec<T>, allocOk: bool): (r: Result<Vec<T>>)
    requires Wf(n, elemSize, v)
    ensures r.Ok? ==> r.value.elems == v.elems
    ensures r.Ok? && r != Ok(v) ==> r.value.capacity == |v.elems|
  {
    if v.capacity == n || |v.elems| == v.capacity then
      Ok(v)
    else if |v.elems| > n then
      if allocOk then Ok(Vec(v.elems, |v.elems|, false)) else Err(BadAlloc)
    else
      Ok(Vec(v.elems, |v.elems|, true))
  }

  /** From any heap-mode vector holding fewer than N elements, the written
      shrink_to_fit() leaves the data in the inline buffer with a capacity that
      is not N, so the destructor's `_capacity != N` test frees the inline
      buffer. The corrected VecModel.ShrinkToFit keeps the invariant. */
  lemma ShrinkToFitAsWrittenBreaksInlineTest<T>(n: nat, elemSize: nat, v: Vec<T>)
    requires Wf(n, elemSize, v) && !v.isInline && |v.elems| < n
    ensures var r := ShrinkToFitAsWritten(n, elemSize, v, true);
            r.Ok? && r.value.isInline && r.value.capacity != n && !Wf(n, elemSize, r.value)
    ensures var r := VecModel.ShrinkToFit(n, elemSize, v, true);
            r.Ok? && r.value.isInline && r.value.capacity == n && Wf(n, elemSize, r.value)
  {
  }

  /** The scenario N = 4: five pushes move to a heap buffer of capacity 6,
      resize(2) keeps that buffer, and shrinking gives capacity 2 inline. */
  lemma ShrinkToFitAsWrittenExample()
    ensures var v := Vec([1, 2], 6, false);
            Wf(4, 4, v) &&
            ShrinkToFitAsWritten(4, 4, v, true) == Ok(Vec([1, 2], 2, true)) &&
            VecModel.ShrinkToFit(4, 4, v, true) == Ok(Vec([1, 2], 4, true))
  {
  }

  /** What `_data` designates. */
  datatype Pointer = Null | InlineBuffer | HeapBuffer

  /** `_data` of a vector: the inline buffer in inline mode, its heap buffer otherwise. */
  function DataPointer<T>(v: Vec<T>): (p: Pointer)
    ensures p != Null
    ensures p == InlineBuffer <==> v.isInline
  {
    if v.isInline then InlineBuffer else HeapBuffer
  }

  /** empty() as written: `!_data`, true only of a null pointer. */
  function EmptyAsWritten(data: Pointer): (r: bool)
    ensures r <==> data == Null
  {
    data == Null
  }

  /** A default-constructed vector has no elements, yet the written empty()
      reports it as non-empty; in fact it does so for every vector. */
  lemma EmptyAsWrittenOnDefault<T>(n: nat, elemSize: nat)
    requires 1 <= n && 1 <= elemSize && n <= MaxSize(elemSize)
    ensures Default<T>(n, elemSize).elems == [] && !EmptyAsWritten(DataPointer(Default<T>(n, elemSize)))
  {
  }

  /** The slots of the storage and which of them hold a live object. */
  datatype Slots = Slots(size: nat, live: set<nat>)

  /** Exactly the slots `[0, size)` are live. */
  ghost predicate LivePrefix(s: Slots)
  {
    forall i: nat :: i in s.live <==> i < s.size
  }

  /** erase(pos) as written: the object at `pos` is destroyed, nothing moves,
      `_size` stays, and no iterator is returned.  The overload is ill-formed
      once instantiated (`_data + pos` adds a `T*` to a `const T*`); this
      function models the evident reading of the text. */
  function EraseAtAsWritten(s: Slots, pos: nat): (r: (Slots, Option<nat>))
    requires LivePrefix(s) && pos < s.size
    ensures r.0.size == s.size && pos !in r.0.live && r.1 == None
  {
    (Slots(s.size, s.live - {pos}), None)
  }

  /** erase(pos) as meant: the tail moves down one slot, so the live slots are
      again a prefix, one shorter, and `pos` is returned. */
  function EraseAtSlots(s: Slots, pos: nat): (r: (Slots, Option<nat>))
    requires LivePrefix(s) && pos < s.size
    ensures LivePrefix(r.0) && r.0.size == s.size - 1 && r.1 == Some(pos)
  {
    (Slots(s.size - 1, s.live - {s.size - 1}), Some(pos))
  }

  /** After the written erase(pos) a destroyed slot lies inside `[0, size)`,
      which the destructor and every later operation treat as live. */
  lemma EraseAtAsWrittenLeavesDeadSlot(s: Slots, pos: nat)
    requires LivePrefix(s) && pos < s.size
    ensures !LivePrefix(EraseAtAsWritten(s, pos).0)
    ensures LivePrefix(EraseAtSlots(s, pos).0)
  {
    var r := EraseAtAsWritten(s, pos).0;
    assert pos < r.size && pos !in r.live;
  }

  /** The iterator erase(first, last) returns as written: `last` on the
      empty-range path, nothing on the path that removes elements.  The
      overload is also ill-formed once instantiated: `return last` converts a
      const_iterator to an iterator, and `std::move(last, it1, first)` mixes
      `const T*` with `T*` and writes through a const_iterator; this function
      models the control flow the text describes. */
  function EraseRangeResultAsWritten(first: nat, last: nat): (r: Option<nat>)
    ensures first >= last ==> r == Some(last)
    ensures first < last ==> r == None
  {
    if first >= last then Some(last) else None
  }

  /** Erasing `[0, 1)` returns no iterator as written, where the corrected
      erase returns EraseNext(0, 1) == 0, the new position of the tail. */
  lemma EraseRangeAsWrittenMissesResult()
    ensures EraseRangeResultAsWritten(0, 1) == None && EraseNext(0, 1) == 0
  {
  }
}
