/** Marcus::vector: a growable contiguous buffer. The buffer `data` is the
    allocation made for `cap` elements, of which the first `size` are live.
    Every operation is specified by the sequence `data[..size]` before and
    after, and by the capacity the growth policy of `reserve` produces. */
module Vectors {
  import opened Common
  import opened Seqs

  /** The capacity `reserve(n)` leaves behind when it is called with
      capacity `cap`: nothing changes below the current capacity, otherwise
      the buffer grows to the request or to twice the old capacity. */
  function Grown(cap: nat, n: nat): (c: nat)
  {
    if n < cap then cap else Max(n, 2 * cap)
  }

  /** `reserve` never shrinks, always covers the request (or keeps a
      capacity already above it), and a real growth at least doubles. */
  lemma GrownCovers(cap: nat, n: nat)
    ensures Grown(cap, n) >= cap && Grown(cap, n) >= n
    ensures Grown(cap, n) != cap ==> Grown(cap, n) >= 2 * cap && Grown(cap, n) >= n
    ensures n < cap ==> Grown(cap, n) == cap
  {
  }

  /** The backward shift loop of `Marcus::vector`'s inserts: moves
      a[j..size] to a[j+n..size+n], from the last element down, leaving
      a[..j] alone. */
  method ShiftRight<T>(a: array<T>, j: nat, size: nat, n: nat)
    requires j <= size && size + n <= a.Length
    modifies a
    ensures a[..j] == old(a[..j])
    ensures a[j + n..size + n] == old(a[j..size])
  {
    var i := size;
    while i != j
      invariant j <= i <= size
      invariant a[..i] == old(a[..i])
      invariant forall k :: i + n <= k < size + n ==> a[k] == old(a[k - n])
    {
      a[i + n - 1] := a[i - 1];
      i := i - 1;
    }
    forall k | 0 <= k < size - j
      ensures a[j + n..size + n][k] == old(a[j..size])[k]
    {
      assert a[j + n + k] == old(a[j + n + k - n]);
    }
  }

  /** The forward shift loop of `Marcus::vector::erase`: moves
      a[from..size] to a[from-diff..size-diff], leaving a[..from-diff]
      alone. */
  method ShiftLeft<T>(a: array<T>, from: nat, size: nat, diff: nat)
    requires diff <= from <= size <= a.Length
    modifies a
    ensures a[..from - diff] == old(a[..from - diff])
    ensures a[from - diff..size - diff] == old(a[from..size])
  {
    var j := from;
    while j != size
      invariant from <= j <= size
      invariant a[..from - diff] == old(a[..from - diff])
      invariant forall k :: from - diff <= k < j - diff ==> a[k] == old(a[k + diff])
      invariant forall k :: j <= k < size ==> a[k] == old(a[k])
    {
      a[j - diff] := a[j];
      j := j + 1;
    }
    forall k | 0 <= k < size - from
      ensures a[from - diff..size - diff][k] == old(a[from..size])[k]
    {
      assert a[from - diff + k] == old(a[from - diff + k + diff]);
    }
  }

  /** The buffer states of an insertion of `t` at `j` into the live
      prefix `s`: `d1` holds `s` with its tail from `j` shifted right by
      |t|, and `d2` is `d1` with the gap filled by `t`. */
  lemma ShiftedInsert<T>(s: seq<T>, j: nat, t: seq<T>, d1: seq<T>, d2: seq<T>)
    requires j <= |s| && |s| + |t| <= |d1| == |d2|
    requires d1[..j] == s[..j] && d1[j + |t|..|s| + |t|] == s[j..]
    requires d2[..j] == d1[..j] && d2[j..j + |t|] == t && d2[j + |t|..] == d1[j + |t|..]
    ensures d2[..|s| + |t|] == InsertAt(s, j, t)
  {
    var r := d2[..|s| + |t|];
    assert r[..j] == d2[..j] == s[..j];
    assert r[j..j + |t|] == t;
    assert r[j + |t|..] == d1[j + |t|..|s| + |t|] == s[j..];
    AssembleInsert(s, j, t, r);
  }

  /** The construct loop of insert(it, first, last): copies `src` into
      a[j..j+|src|] and touches nothing else. */
  method CopyInto<T>(a: array<T>, j: nat, src: seq<T>)
    requires j + |src| <= a.Length
    modifies a
    ensures a[..j] == old(a[..j])
    ensures a[j..j + |src|] == src
    ensures a[j + |src|..] == old(a[j + |src|..])
  {
    var i := j;
    while i != j + |src|
      invariant j <= i <= j + |src|
      invariant a[..j] == old(a[..j])
      invariant a[j..i] == src[..i - j]
      invariant a[j + |src|..] == old(a[j + |src|..])
    {
      a[i] := src[i - j];
      i := i + 1;
    }
  }

  /** The construct loop of insert(it, n, val): writes `val` into
      a[j..j+n] and touches nothing else. */
  method FillRun<T>(a: array<T>, j: nat, n: nat, val: T)
    requires j + n <= a.Length
    modifies a
    ensures a[..j] == old(a[..j])
    ensures a[j..j + n] == Repeat(val, n)
    ensures a[j + n..] == old(a[j + n..])
  {
    var i := j;
    while i != j + n
      invariant j <= i <= j + n
      invariant a[..j] == old(a[..j])
      invariant a[j..i] == Repeat(val, i - j)
      invariant a[j + n..] == old(a[j + n..])
    {
      a[i] := val;
      i := i + 1;
    }
  }

  class Vector<T(0)> {
    var data: array<T>
    var size: nat
    var cap: nat

    /** The object invariant: the live prefix fits in the buffer, whose
        length is the recorded capacity. */
    ghost predicate Valid()
      reads this
    {
      size <= cap == data.Length
    }

    /** The elements of the vector, in order. */
    function Contents(): (s: seq<T>)
      reads this, data
      requires Valid()
      ensures |s| == size
    {
      data[..size]
    }

    /** `vector()`: no buffer yet (nullptr), size and capacity 0. */
    constructor ()
      ensures Valid() && Contents() == [] && cap == 0 && fresh(data)
    {
      data := new T[0];
      size := 0;
      cap := 0;
    }

    /** `vector(n)`: `n` value-initialised elements, capacity exactly `n`. */
    constructor OfSize(n: nat, init: T)
      ensures Valid() && Contents() == Repeat(init, n) && cap == n && fresh(data)
    {
      var a := new T[n];
      var i := 0;
      while i != n
        invariant 0 <= i <= n
        invariant forall k :: 0 <= k < i ==> a[k] == init
      {
        a[i] := init;
        i := i + 1;
      }
      data := a;
      size, cap := n, n;
    }

    /** `vector(first, last)` and `vector(initializer_list)`: a copy of the
        range, capacity exactly its length. */
    constructor OfRange(src: seq<T>)
      ensures Valid() && Contents() == src && cap == |src| && fresh(data)
    {
      var a := new T[|src|];
      var i := 0;
      while i != |src|
        invariant 0 <= i <= |src|
        invariant a[..i] == src[..i]
      {
        a[i] := src[i];
        i := i + 1;
      }
      data := a;
      size, cap := |src|, |src|;
    }

    /** The copy constructor: a fresh buffer holding the other vector's
        elements, with capacity equal to its size. */
    constructor Copy(other: Vector<T>)
      requires other.Valid()
      ensures Valid() && Contents() == other.Contents() && cap == other.size
      ensures fresh(data)
    {
      var n := other.size;
      var a := new T[n];
      var i := 0;
      while i != n
        invariant 0 <= i <= n
        invariant a[..i] == other.data[..i]
      {
        a[i] := other.data[i];
        i := i + 1;
      }
      data := a;
      size, cap := n, n;
    }

    /** The move constructor: takes over the other vector's buffer and
        leaves it with no buffer and size and capacity 0. */
    constructor Move(other: Vector<T>)
      requires other.Valid()
      modifies other
      ensures Valid() && other.Valid()
      ensures data == old(other.data) && Contents() == old(other.Contents())
      ensures size == old(other.size) && cap == old(other.cap)
      ensures other.size == 0 && other.cap == 0 && other.Contents() == []
    {
      data, size, cap := other.data, other.size, other.cap;
      new;
      other.data := new T[0];
      other.size, other.cap := 0, 0;
    }

    /** Move assignment: a self-move changes nothing; otherwise this vector
        takes over the other's buffer and the other is left empty. */
    method MoveAssign(other: Vector<T>)
      requires Valid() && other.Valid()
      modifies this, other
      ensures Valid() && other.Valid()
      ensures other == this ==> data == old(data) && size == old(size) && cap == old(cap)
      ensures other != this ==>
        && data == old(other.data) && size == old(other.size) && cap == old(other.cap)
        && Contents() == old(other.Contents())
        && other.size == 0 && other.cap == 0 && other.Contents() == []
    {
      if other == this {
        return;
      }
      data, size, cap := other.data, other.size, other.cap;
      other.data := new T[0];
      other.size, other.cap := 0, 0;
    }

    /** `swap`: exchanges buffers, sizes and capacities. */
    method Swap(other: Vector<T>)
      requires Valid() && other.Valid()
      modifies this, other
      ensures Valid() && other.Valid()
      ensures data == old(other.data) && size == old(other.size) && cap == old(other.cap)
      ensures other.data == old(data) && other.size == old(size) && other.cap == old(cap)
      ensures Contents() == old(other.Contents()) && other.Contents() == old(Contents())
    {
      var d, s, c := data, size, cap;
      data, size, cap := other.data, other.size, other.cap;
      other.data, other.size, other.cap := d, s, c;
    }

    /** `clear`: no element is left; the buffer and capacity stay. */
    method Clear()
      requires Valid()
      modifies this
      ensures Valid() && Contents() == []
      ensures data == old(data) && cap == old(cap)
    {
      size := 0;
    }

    /** `reserve(n)`: below the current capacity nothing happens; otherwise
        the elements move to a fresh buffer of capacity Grown(cap, n). */
    method Reserve(n: nat)
      requires Valid()
      modifies this
      ensures Valid() && size == old(size) && Contents() == old(Contents())
      ensures cap == Grown(old(cap), n)
      ensures n < old(cap) ==> data == old(data)
      ensures n >= old(cap) ==> fresh(data)
    {
      if n < cap {
        return;
      }
      var m := Max(n, cap * 2);
      var oldData, oldCap := data, cap;
      if m == 0 {
        data := new T[0];  // `vector.hpp` stores nullptr
        cap := 0;
      } else {
        data := new T[m];
        cap := m;
      }
      if oldCap != 0 {
        var i := 0;
        while i != size
          invariant 0 <= i <= size
          invariant data[..i] == oldData[..i]
          modifies data
        {
          data[i] := oldData[i];
          i := i + 1;
        }
      }
    }

    /** `shrink_to_fit`: the elements move to a fresh buffer of exactly
        `size` slots. */
    method ShrinkToFit()
      requires Valid()
      modifies this
      ensures Valid() && cap == size == old(size)
      ensures Contents() == old(Contents()) && fresh(data)
    {
      var oldData, oldCap := data, cap;
      cap := size;
      if size == 0 {
        data := new T[0];  // `vector.hpp` stores nullptr
      } else {
        data := new T[size];
      }
      if oldCap != 0 {
        var i := 0;
        while i != size
          invariant 0 <= i <= size
          invariant data[..i] == oldData[..i]
          modifies data
        {
          data[i] := oldData[i];
          i := i + 1;
        }
      }
    }

    /** `push_back(val)`: appends `val`, growing the buffer when the element
        after it would not fit strictly below the capacity. */
    method PushBack(val: T)
      requires Valid()
      modifies this, data
      ensures Valid() && Contents() == old(Contents()) + [val]
      ensures cap == if old(size) + 1 >= old(cap) then Grown(old(cap), old(size) + 1) else old(cap)
      ensures data == old(data) || fresh(data)
    {
      if size + 1 >= cap {
        Reserve(size + 1);
      }
      data[size] := val;
      size := size + 1;
    }

    /** `emplace_back(args...)`: appends like push_back and returns the new
        last element. */
    method EmplaceBack(val: T) returns (r: T)
      requires Valid()
      modifies this, data
      ensures Valid() && Contents() == old(Contents()) + [val]
      ensures cap == if old(size) + 1 >= old(cap) then Grown(old(cap), old(size) + 1) else old(cap)
      ensures data == old(data) || fresh(data)
      ensures r == Contents()[size - 1]
    {
      PushBack(val);
      r := data[size - 1];
    }

    /** `pop_back`: drops the last element; the buffer is unchanged. */
    method PopBack()
      requires Valid() && size > 0
      modifies this
      ensures Valid() && Contents() == old(Contents())[..old(size) - 1]
      ensures data == old(data) && cap == old(cap)
    {
      size := size - 1;
    }

    /** `emplace(it, args...)` and the single-element `insert(it, val)`: the
        tail from index `j` moves one slot right and `val` lands at `j`;
        the returned position is `j`. */
    method Emplace(j: nat, val: T) returns (r: nat)
      requires Valid() && j <= size
      modifies this, data
      ensures Valid() && r == j
      ensures Contents() == InsertAt(old(Contents()), j, [val])
      ensures cap == Grown(old(cap), old(size) + 1)
      ensures data == old(data) || fresh(data)
    {
      ghost var s := Contents();
      Reserve(size + 1);
      ShiftRight(data, j, size, 1);
      ghost var shifted := data[..];
      size := size + 1;
      data[j] := val;
      r := j;
      assert data[..] == shifted[j := val];
      AssembleInsert(s, j, [val], data[..size]);
    }

    /** The first half of both multi-element inserts: room for `n` more,
        and the tail from `j` moved `n` slots right. */
    method OpenGap(j: nat, n: nat)
      requires Valid() && j <= size
      modifies this, data
      ensures Valid() && size == old(size) && size + n <= data.Length
      ensures cap == Grown(old(cap), old(size) + n)
      ensures data == old(data) || fresh(data)
      ensures data[..j] == old(Contents())[..j]
      ensures data[j + n..size + n] == old(Contents())[j..]
    {
      Reserve(size + n);
      ShiftRight(data, j, size, n);
    }

    /** `insert(it, n, val)`: with n == 0 nothing changes; otherwise the
        tail from `j` moves `n` slots right and the gap is filled with
        `val`. Either way the returned position is `j`. */
    method InsertCopies(j: nat, n: nat, val: T) returns (r: nat)
      requires Valid() && j <= size
      modifies this, data
      ensures Valid() && r == j
      ensures Contents() == InsertAt(old(Contents()), j, Repeat(val, n))
      ensures n == 0 ==> data == old(data) && cap == old(cap)
      ensures n != 0 ==> cap == Grown(old(cap), old(size) + n)
      ensures data == old(data) || fresh(data)
    {
      ghost var s := Contents();
      ghost var run := Repeat(val, n);
      if n == 0 {
        InsertNothing(s, j, run);
        return j;
      }
      OpenGap(j, n);
      ghost var d1 := data[..];
      FillRun(data, j, n, val);
      ShiftedInsert(s, j, run, d1, data[..]);
      size := size + n;
      r := j;
    }

    /** `insert(it, first, last)` and `insert(it, initializer_list)`: as
        insert(it, n, val), with the range copied in order into the gap. */
    method InsertRange(j: nat, src: seq<T>) returns (r: nat)
      requires Valid() && j <= size
      modifies this, data
      ensures Valid() && r == j
      ensures Contents() == InsertAt(old(Contents()), j, src)
      ensures src == [] ==> data == old(data) && cap == old(cap)
      ensures src != [] ==> cap == Grown(old(cap), old(size) + |src|)
      ensures data == old(data) || fresh(data)
    {
      ghost var s := Contents();
      var n := |src|;
      if n == 0 {
        InsertNothing(s, j, src);
        return j;
      }
      OpenGap(j, n);
      ghost var d1 := data[..];
      CopyInto(data, j, src);
      ShiftedInsert(s, j, src, d1, data[..]);
      size := size + n;
      r := j;
    }

    /** `erase(it)` at index `i`: the tail after `i` moves one slot left;
        the returned position is `i`, now holding the element that followed. */
    method Erase(i: nat) returns (r: nat)
      requires Valid() && i < size
      modifies this, data
      ensures Valid() && r == i
      ensures Contents() == Excise(old(Contents()), i, i + 1)
      ensures data == old(data) && cap == old(cap)
    {
      ghost var s := Contents();
      ShiftLeft(data, i + 1, size, 1);
      size := size - 1;
      r := i;
      AssembleExcise(s, i, i + 1, data[..size]);
    }

    /** `erase(first, last)`: the tail from `last` moves `last - first`
        slots left; the returned position is `first`. */
    method EraseRange(first: nat, last: nat) returns (r: nat)
      requires Valid() && first <= last <= size
      modifies this, data
      ensures Valid() && r == first
      ensures Contents() == Excise(old(Contents()), first, last)
      ensures data == old(data) && cap == old(cap)
    {
      ghost var s := Contents();
      ShiftLeft(data, last, size, last - first);
      size := size - (last - first);
      r := first;
      AssembleExcise(s, first, last, data[..size]);
    }

    /** `resize(n, val)`: shrinking keeps the first `n` elements; growing
        reserves `n` and fills the new slots with `val`. */
    method Resize(n: nat, val: T)
      requires Valid()
      modifies this, data
      ensures Valid() && size == n
      ensures Contents() == if n <= old(size) then old(Contents())[..n]
                            else old(Contents()) + Repeat(val, n - old(size))
      ensures cap == if n <= old(size) then old(cap) else Grown(old(cap), n)
      ensures n <= old(size) || n < old(cap) ==> data == old(data)
      ensures n > old(size) && n >= old(cap) ==> fresh(data)
    {
      ghost var s := Contents();
      if n < size {
        size := n;
      } else if n > size {
        Reserve(n);
        var i := size;
        while i != n
          invariant size <= i <= n
          invariant data[..size] == s
          invariant forall k :: size <= k < i ==> data[k] == val
          modifies data
        {
          data[i] := val;
          i := i + 1;
        }
        size := n;
        assert Contents() == s + Repeat(val, n - |s|);
      }
    }

    /** `assign(n, val)`: exactly `n` copies of `val`, in a buffer reserved
        for `n`. */
    method Assign(n: nat, val: T)
      requires Valid()
      modifies this, data
      ensures Valid() && Contents() == Repeat(val, n)
      ensures cap == Grown(old(cap), n)
      ensures n < old(cap) ==> data == old(data)
      ensures n >= old(cap) ==> fresh(data)
    {
      Clear();
      Reserve(n);
      size := n;
      var i := 0;
      while i != n
        invariant 0 <= i <= n
        invariant forall k :: 0 <= k < i ==> data[k] == val
        modifies data
      {
        data[i] := val;
        i := i + 1;
      }
    }

    /** `assign(first, last)` and `assign(initializer_list)`: exactly the
        range, in a buffer reserved for its length. */
    method AssignRange(src: seq<T>)
      requires Valid()
      modifies this, data
      ensures Valid() && Contents() == src
      ensures cap == Grown(old(cap), |src|)
      ensures |src| < old(cap) ==> data == old(data)
      ensures |src| >= old(cap) ==> fresh(data)
    {
      Clear();
      var n := |src|;
      Reserve(n);
      size := n;
      var i := 0;
      while i != n
        invariant 0 <= i <= n
        invariant data[..i] == src[..i]
        modifies data
      {
        data[i] := src[i];
        i := i + 1;
      }
    }

    /** `size()`. */
    function Size(): (r: nat)
      reads this, data
      requires Valid()
      ensures r == |Contents()|
    {
      size
    }

    /** `capacity()`: never below the size. */
    function Capacity(): (r: nat)
      reads this
      requires Valid()
      ensures r >= size && r == data.Length
    {
      cap
    }

    /** `empty()`. */
    function Empty(): (r: bool)
      reads this, data
      requires Valid()
      ensures r <==> Contents() == []
    {
      size == 0
    }

    /** `at(i)`: element `i`, or std::out_of_range("vector::at") exactly
        when `i` is not below the size. */
    function At(i: nat): (r: Result<T>)
      reads this, data
      requires Valid()
      ensures r.Ok? <==> i < |Contents()|
      ensures r.Ok? ==> r.value == Contents()[i]
      ensures r.Throw? ==> r.error == OutOfRange("vector::at")
    {
      if i >= size then Throw(OutOfRange("vector::at")) else Ok(data[i])
    }

    /** `operator[](i)`: unchecked, so the index must be live. */
    function Get(i: nat): (r: T)
      reads this, data
      requires Valid() && i < size
      ensures r == Contents()[i]
    {
      data[i]
    }

    /** `front()`: the first element of a non-empty vector. */
    function Front(): (r: T)
      reads this, data
      requires Valid() && size > 0
      ensures r == Contents()[0]
    {
      data[0]
    }

    /** `back()`: the last element of a non-empty vector. */
    function Back(): (r: T)
      reads this, data
      requires Valid() && size > 0
      ensures r == Contents()[|Contents()| - 1]
    {
      data[size - 1]
    }
  }

  /** push_back then pop_back gives back the original elements. */
  method PushPopRestores<T(0)>(v: Vector<T>, x: T)
    requires v.Valid()
    modifies v, v.data
    ensures v.Valid() && v.Contents() == old(v.Contents())
  {
    v.PushBack(x);
    v.PopBack();
  }

  /** Inserting a range and then erasing it gives back the original
      elements, at any position. */
  method InsertEraseRestores<T(0)>(v: Vector<T>, j: nat, src: seq<T>)
    requires v.Valid() && j <= v.size
    modifies v, v.data
    ensures v.Valid() && v.Contents() == old(v.Contents())
  {
    var p := v.InsertRange(j, src);
    EraseInserted(old(v.Contents()), j, src);
    var q := v.EraseRange(p, p + |src|);
  }

  /** The capacity after `k` push_backs into a default-constructed
      vector: the k-th push finds size k - 1 and grows when k reaches the
      capacity. */
  function PushedCap(k: nat): (c: nat)
    ensures k <= c
    ensures k >= 3 ==> k < c <= 2 * k
  {
    if k == 0 then 0
    else
      var c := PushedCap(k - 1);
      if k >= c then Grown(c, k) else c
  }

  /** Sixteen pushes: the capacity runs 1, 2, 4, 8, 8, 8, 8, 16, ...
      and ends at 32. */
  lemma PushedSixteen()
    ensures PushedCap(16) == 32
  {
    assert PushedCap(3) == 4;
    assert PushedCap(7) == 8;
    assert PushedCap(15) == 16;
  }

  /** The vector test without its printing: 16 push_backs leave capacity
      32; inserting {40, 41, 42} at index 3 fits without growing; before
      `bar = std::move(arr)` the sizes are 19 and 3, after it 0 and 19. */
  method VectorTest() returns (pushed: seq<int>, cap16: nat, inserted: seq<int>, capInserted: nat,
                               arrBefore: nat, barBefore: nat, arrSize: nat, barSize: nat)
    ensures pushed == seq(16, k => k) && cap16 == 32
    ensures inserted == [0, 1, 2, 40, 41, 42] + seq(13, k => k + 3) && capInserted == 32
    ensures arrBefore == 19 && barBefore == 3
    ensures arrSize == 0 && barSize == 19
  {
    var arr := new Vector<int>();
    for i := 0 to 16
      invariant arr.Valid() && fresh(arr) && fresh(arr.data)
      invariant arr.Contents() == seq(i, k => k) && arr.cap == PushedCap(i)
    {
      arr.PushBack(i);
      assert seq(i + 1, k => k) == seq(i, k => k) + [i];
    }
    PushedSixteen();
    pushed, cap16 := arr.Contents(), arr.Capacity();
    var _ := arr.InsertRange(3, [40, 41, 42]);
    inserted, capInserted := arr.Contents(), arr.Capacity();
    assert inserted == [0, 1, 2, 40, 41, 42] + seq(13, k => k + 3);
    var bar := new Vector<int>.OfSize(3, 0);
    arrBefore, barBefore := arr.Size(), bar.Size();
    bar.MoveAssign(arr);
    arrSize, barSize := arr.Size(), bar.Size();
  }
}
