/** til::small_vector<T, N>: a dynamic array that keeps up to N elements in an
    embedded buffer and moves them to a heap buffer of its own when that fills. */
module SmallVectors {
  import opened SizeT
  import opened Failures
  import opened VecModel

  /** std::uninitialized_move_n: the first `count` slots of `src` into `dst`. */
  method MoveElements<T>(src: array<T>, dst: array<T>, count: nat)
    requires count <= src.Length && count <= dst.Length && src != dst
    modifies dst
    ensures dst[..count] == old(src[..count])
    ensures dst[count..] == old(dst[count..])
  {
    var i := 0;
    while i < count
      invariant 0 <= i <= count
      invariant dst[..i] == src[..i]
      invariant dst[count..] == old(dst[count..])
    {
      dst[i] := src[i];
      i := i + 1;
    }
    assert dst[..count] == src[..count];
  }

  /** std::uninitialized_fill_n / uninitialized_value_construct_n over the slots `[from, to)`. */
  method FillSlots<T>(a: array<T>, from: nat, to: nat, value: T)
    requires from <= to <= a.Length
    modifies a
    ensures a[..from] == old(a[..from])
    ensures forall i :: from <= i < to ==> a[i] == value
  {
    var i := from;
    while i < to
      invariant from <= i <= to
      invariant a[..from] == old(a[..from])
      invariant forall k :: from <= k < i ==> a[k] == value
    {
      a[i] := value;
      i := i + 1;
    }
  }

  class SmallVector<T(==)> {
    /** The inline capacity N, sizeof(T), and the value-initialised `T{}`. */
    const N: nat
    const elemSize: nat
    const valueInit: T
    /** The embedded `_buffer[N]`. */
    const buffer: array<T>
    /** `_data`, `_capacity`, `_size`. */
    var data: array<T>
    var capacity: nat
    var size: nat

    ghost predicate Valid()
      reads this
    {
      buffer.Length == N && data.Length == capacity &&
      Layout(N, elemSize, size, capacity, data == buffer)
    }

    /** The abstract value: the live elements, the capacity and the storage mode. */
    ghost function Model(): (v: Vec<T>)
      reads this, data
      requires Valid()
      ensures Wf(N, elemSize, v)
    {
      Vec(data[..size], capacity, data == buffer)
    }

    /** The default constructor: empty, capacity N, data at the inline buffer. */
    constructor (n: nat, es: nat, init: T)
      requires 1 <= n && 1 <= es && n <= MaxSize(es)
      ensures Valid() && fresh(buffer)
      ensures N == n && elemSize == es && valueInit == init
      ensures Model() == Default(n, es)
    {
      var b := new T[n](_ => init);
      N, elemSize, valueInit := n, es, init;
      buffer, data := b, b;
      capacity, size := n, 0;
    }

    /** The iterator-range constructor: push_back of each element of `src` in
        order; an exception from a push_back propagates out of the constructor. */
    static method FromRange(n: nat, es: nat, init: T, src: seq<T>, allocOk: bool) returns (r: Result<SmallVector<T>>)
      requires 1 <= n && 1 <= es && n <= MaxSize(es)
      ensures r.Ok? <==> PushAll(n, es, Default(n, es), src, allocOk).Ok?
      ensures r.Ok? ==> fresh(r.value) && r.value.Valid() && r.value.N == n && r.value.elemSize == es
      ensures r.Ok? ==> r.value.Model() == PushAll(n, es, Default(n, es), src, allocOk).value
      ensures r.Ok? ==> r.value.Model().elems == src
      ensures r.Err? ==> r.error == PushAll(n, es, Default(n, es), src, allocOk).error
    {
      var v := new SmallVector(n, es, init);
      var i := 0;
      while i < |src|
        invariant 0 <= i <= |src|
        invariant fresh(v) && fresh(v.buffer) && fresh(v.data)
        invariant v.Valid() && v.N == n && v.elemSize == es
        invariant PushAll(n, es, v.Model(), src[i..], allocOk) == PushAll(n, es, Default(n, es), src, allocOk)
      {
        ghost var before := v.Model();
        var st := v.PushBack(src[i], allocOk);
        assert src[i..][0] == src[i] && src[i..][1..] == src[i + 1..];
        if st.Fail? {
          return Err(st.error);
        }
        i := i + 1;
      }
      assert PushAll(n, es, v.Model(), [], allocOk) == Ok(v.Model());
      return Ok(v);
    }

    /** The free test of the destructor (and of clear()): `_capacity != N`.
        It frees exactly when the storage is not the inline buffer. */
    function ReleasesHeap(): (r: bool)
      reads this
      requires Valid()
      ensures r <==> data != buffer
    {
      capacity != N
    }

    function Size(): (r: nat)
      reads this, data
      requires Valid()
      ensures r == |Model().elems|
    {
      size
    }

    function Capacity(): (r: nat)
      reads this, data
      requires Valid()
      ensures r == Model().capacity && r >= |Model().elems| && r >= N
    {
      capacity
    }

    /** empty(), as the size test it is meant to be. */
    function Empty(): (r: bool)
      reads this, data
      requires Valid()
      ensures r <==> Model().elems == []
    {
      size == 0
    }

    /** operator[]: unchecked, the caller guarantees `off < size()`. */
    function Get(off: nat): (r: T)
      reads this, data
      requires Valid() && off < size
      ensures r == Model().elems[off]
    {
      data[off]
    }

    function Front(): (r: T)
      reads this, data
      requires Valid() && size != 0
      ensures r == Model().elems[0]
    {
      data[0]
    }

    function Back(): (r: T)
      reads this, data
      requires Valid() && size != 0
      ensures r == Model().elems[|Model().elems| - 1]
    {
      data[size - 1]
    }

    /** at(off): out_of_range exactly when `off >= size()`. */
    function At(off: nat): (r: Result<T>)
      reads this, data
      requires Valid()
      ensures r.Err? <==> off >= |Model().elems|
      ensures r.Err? ==> r.error == OutOfRange
      ensures r.Ok? ==> r.value == Model().elems[off]
    {
      if off >= size then Err(OutOfRange) else Ok(data[off])
    }

    /** operator==: same length and equal elements in order; the capacity and
        the storage mode play no part. */
    function Equals(other: SmallVector<T>): (r: bool)
      reads this, data, other, other.data
      requires Valid() && other.Valid()
      ensures r <==> Model().elems == other.Model().elems
      ensures r <==> size == other.size && forall i :: 0 <= i < size ==> data[i] == other.data[i]
    {
      data[..size] == other.data[..other.size]
    }

    /** _grow(add): check the new capacity, allocate, move the elements over,
        then release the old storage if it was a heap buffer. */
    method Grow(add: nat, allocOk: bool) returns (st: Outcome)
      requires Valid() && 1 <= add <= SIZE_MAX
      modifies this
      ensures Valid()
      ensures OutcomeOf(GrowCapacity(old(capacity), add, elemSize, allocOk)) == st
      ensures st.Pass? ==> fresh(data)
      ensures st.Pass? ==> Model() == Vec(old(Model()).elems, GrowCapacity(old(capacity), add, elemSize, allocOk).value, false)
      ensures st.Fail? ==> unchanged(this)
    {
      var cap := capacity;
      var newCap := Add(cap, Max(add, cap / 2));
      if newCap < cap || newCap > MaxSize(elemSize) {
        return Fail(LengthError);
      }
      if !allocOk {
        return Fail(BadAlloc);
      }
      var heap := new T[newCap](_ => valueInit);
      MoveElements(data, heap, size);
      data, capacity := heap, newCap;
      st := Pass;
    }

    method PushBack(x: T, allocOk: bool) returns (st: Outcome)
      requires Valid()
      modifies this, data
      ensures Valid() && (data == old(data) || fresh(data))
      ensures Committed(st, VecModel.PushBack(N, elemSize, old(Model()), x, allocOk), old(Model()), Model())
    {
      if size == capacity {
        st := Grow(1, allocOk);
        if st.Fail? {
          return;
        }
      }
      data[size] := x;
      size := size + 1;
      st := Pass;
    }

    /** emplace_back(x): as push_back, and gives back (the index of) the new element. */
    method EmplaceBack(x: T, allocOk: bool) returns (r: Result<nat>)
      requires Valid()
      modifies this, data
      ensures Valid() && (data == old(data) || fresh(data))
      ensures Committed(OutcomeOf(r), VecModel.PushBack(N, elemSize, old(Model()), x, allocOk), old(Model()), Model())
      ensures r.Ok? ==> r.value == old(size) && Get(r.value) == x
    {
      if size == capacity {
        var st := Grow(1, allocOk);
        if st.Fail? {
          return Err(st.error);
        }
      }
      data[size] := x;
      size := size + 1;
      r := Ok(size - 1);
    }

    /** resize(newSize): new slots hold the value-initialised `T{}`. */
    method Resize(newSize: nat, allocOk: bool) returns (st: Outcome)
      requires Valid() && newSize <= SIZE_MAX
      modifies this, data
      ensures Valid() && (data == old(data) || fresh(data))
      ensures Committed(st, VecModel.Resize(N, elemSize, old(Model()), newSize, valueInit, allocOk), old(Model()), Model())
    {
      st := ResizeFill(newSize, valueInit, allocOk);
    }

    /** resize(newSize, value): new slots are copies of `value`. */
    method ResizeFill(newSize: nat, value: T, allocOk: bool) returns (st: Outcome)
      requires Valid() && newSize <= SIZE_MAX
      modifies this, data
      ensures Valid() && (data == old(data) || fresh(data))
      ensures Committed(st, VecModel.Resize(N, elemSize, old(Model()), newSize, value, allocOk), old(Model()), Model())
    {
      ghost var before := Model();
      ghost var spec := VecModel.Resize(N, elemSize, before, newSize, value, allocOk);
      if newSize < size {
        // the elements [newSize, size) are destroyed; nothing to do on values
      } else if newSize > size {
        if newSize > capacity {
          st := Grow(newSize - capacity, allocOk);
          if st.Fail? {
            assert OutcomeOf(spec) == st;
            return;
          }
        }
        FillSlots(data, size, newSize, value);
      }
      size := newSize;
      st := Pass;
      assert spec.Ok?;
      assert Model().elems == Resized(before.elems, newSize, value);
    }

    /** clear(): destroy the elements, free a heap buffer, go back to inline mode. */
    method Clear()
      requires Valid()
      modifies this
      ensures Valid() && data == buffer
      ensures Model() == VecModel.Clear(N, elemSize, old(Model()))
    {
      data := buffer;
      capacity := N;
      size := 0;
    }

    /** shrink_to_fit(), with capacity N (not size) when the elements move back
        into the inline buffer. */
    method ShrinkToFit(allocOk: bool) returns (st: Outcome)
      requires Valid()
      modifies this, buffer
      ensures Valid() && (data == old(data) || data == buffer || fresh(data))
      ensures Committed(st, VecModel.ShrinkToFit(N, elemSize, old(Model()), allocOk), old(Model()), Model())
    {
      if capacity == N || size == capacity {
        return Pass;
      }
      var target := buffer;
      if size > N {
        if !allocOk {
          return Fail(BadAlloc);
        }
        target := new T[size](_ => valueInit);
      }
      MoveElements(data, target, size);
      data := target;
      capacity := if size > N then size else N;
      st := Pass;
    }

    /** erase(first, last) on indices: move the tail `[last, size)` down to
        `first`, drop the surplus, and return where the tail now starts. */
    method EraseRange(first: nat, last: nat) returns (next: nat)
      requires Valid() && (first < last ==> last <= size)
      modifies this, data
      ensures Valid() && data == old(data)
      ensures Model() == VecModel.EraseRange(N, elemSize, old(Model()), first, last)
      ensures next == EraseNext(first, last)
    {
      if first >= last {
        return last;
      }
      ghost var s := data[..size];
      var gap := last - first;
      var i := first;
      while i < size - gap
        invariant Valid() && data == old(data) && size == |s| && capacity == old(capacity)
        invariant first <= i <= size - gap
        invariant data[..i] == Erased(s, first, last)[..i]
        invariant forall k :: i + gap <= k < size ==> data[k] == s[k]
      {
        data[i] := data[i + gap];
        i := i + 1;
      }
      size := size - gap;
      next := first;
    }

    /** erase(pos), as the one-element erase(pos, pos + 1) it is meant to be. */
    method EraseAt(pos: nat) returns (next: nat)
      requires Valid() && pos < size
      modifies this, data
      ensures Valid() && data == old(data)
      ensures Model() == VecModel.EraseRange(N, elemSize, old(Model()), pos, pos + 1)
      ensures |Model().elems| == |old(Model()).elems| - 1
      ensures next == pos
    {
      next := EraseRange(pos, pos + 1);
    }
  }
}
