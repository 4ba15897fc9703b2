/** Marcus::array<T, N>: a fixed-size aggregate holding exactly N elements
    in place. The length N is a constant of the object, and the element
    storage a Dafny array of that length. `array.hpp` has a separate
    specialisation for N == 0, with no storage, an `at` that always throws
    and no-op `fill` and `swap`; here it is the same class with N == 0, and
    the members whose behaviour differs test for it. Iterators are pointers
    into the storage and are modelled by their offsets from `begin()`. */
module Arrays {
  import opened Common
  import opened Seqs

  class Array<T(0)> {
    const N: nat
    /** `_M_elements`. */
    const elements: array<T>

    ghost predicate Valid()
    {
      elements.Length == N
    }

    /** Aggregate initialisation, `array<T, N>{s[0], ..., s[N-1]}`; the
        deduction guide makes N the number of initialisers. */
    constructor (s: seq<T>)
      ensures Valid() && N == |s| && elements[..] == s && fresh(elements)
    {
      N := |s|;
      elements := new T[|s|](k requires 0 <= k < |s| => s[k]);
    }

    /** `operator[]`: unchecked; `array.hpp` leaves an index at or past N
        undefined, which the precondition rules out. */
    function Get(i: nat): (r: T)
      reads elements
      requires Valid() && i < N
      ensures r == elements[..][i]
    {
      elements[i]
    }

    /** `at(i)`: the element when `i < N`, otherwise std::out_of_range. The
        general template says "array:at", the zero-length specialisation
        "array::at". */
    function At(i: nat): (r: Result<T>)
      reads elements
      requires Valid()
      ensures r.Ok? <==> i < N
      ensures r.Ok? ==> r.value == elements[..][i]
      ensures r.Throw? && N > 0 ==> r.error == OutOfRange("array:at")
      ensures N == 0 ==> r == Throw(OutOfRange("array::at"))
    {
      if N == 0 then Throw(OutOfRange("array::at"))
      else if i >= N then Throw(OutOfRange("array:at"))
      else Ok(elements[i])
    }

    /** `at` and `operator[]` agree wherever `at` does not throw. */
    lemma AtIsGet(i: nat)
      requires Valid() && i < N
      ensures At(i) == Ok(Get(i))
    {
    }

    /** `front()`: element 0 (unreachable in the zero-length case). */
    function Front(): (r: T)
      reads elements
      requires Valid() && N > 0
      ensures r == elements[..][0] && At(0) == Ok(r)
    {
      elements[0]
    }

    /** `back()`: element N - 1 (unreachable in the zero-length case). */
    function Back(): (r: T)
      reads elements
      requires Valid() && N > 0
      ensures r == elements[..][N - 1] && At(N - 1) == Ok(r)
    {
      elements[N - 1]
    }

    /** `size()`. */
    function Size(): (r: nat)
      requires Valid()
      ensures r == elements.Length
    {
      N
    }

    /** `max_size()`: a fixed-size array can hold no more than it has. */
    function MaxSize(): (r: nat)
      requires Valid()
      ensures r == Size()
    {
      N
    }

    /** `empty()`: false for the general template, true for the zero-length
        specialisation. */
    function Empty(): (r: bool)
      reads elements
      requires Valid()
      ensures r <==> Size() == 0
      ensures r <==> elements[..] == []
    {
      N == 0
    }

    /** `begin()`: the first element, or nullptr in the zero-length case;
        everything from it on is the whole array. */
    function Begin(): (p: nat)
      reads elements
      requires Valid()
      ensures p <= elements.Length && elements[p..] == elements[..]
    {
      0
    }

    /** `end()`: one past the last element; nullptr, like `begin()`, in the
        zero-length case. */
    function End(): (p: nat)
      reads elements
      requires Valid()
      ensures Begin() <= p && p - Begin() == elements.Length
      ensures elements[Begin()..p] == elements[..]
    {
      N
    }

    /** The elements between `begin()` and `end()` are the whole array,
        for N == 0 as well. */
    lemma IteratorSpan()
      requires Valid()
      ensures End() - Begin() == Size()
      ensures elements[Begin()..End()] == elements[..]
      ensures Empty() <==> Begin() == End()
    {
    }

    /** `fill(val)`: every element becomes `val`; nothing happens when
        N == 0. */
    method Fill(val: T)
      requires Valid()
      modifies elements
      ensures elements[..] == Repeat(val, N)
    {
      for i := 0 to N
        invariant forall k :: 0 <= k < i ==> elements[k] == val
      {
        elements[i] := val;
      }
      assert elements[..] == Repeat(val, N);
    }

    /** `swap(other)`: exchanges the elements pairwise, index by index.
        Both arrays have the same N, being of the same type; they may be
        the same storage, in which case nothing changes. */
    method Swap(other: Array<T>)
      requires Valid() && other.Valid() && other.N == N
      modifies elements, other.elements
      ensures elements[..] == old(other.elements[..])
      ensures other.elements[..] == old(elements[..])
    {
      for i := 0 to N
        invariant forall k :: 0 <= k < i ==> elements[k] == old(other.elements[k]) && other.elements[k] == old(elements[k])
        invariant forall k :: i <= k < N ==> elements[k] == old(elements[k]) && other.elements[k] == old(other.elements[k])
      {
        var t := elements[i];
        elements[i] := other.elements[i];
        other.elements[i] := t;
      }
    }
  }

  /** Swapping twice restores both arrays. */
  method SwapTwice<T(0)>(a: Array<T>, b: Array<T>)
    requires a.Valid() && b.Valid() && a.N == b.N
    modifies a.elements, b.elements
    ensures a.elements[..] == old(a.elements[..]) && b.elements[..] == old(b.elements[..])
  {
    a.Swap(b);
    a.Swap(b);
  }

  /** The `iota` helper of the array test: walks `begin()` to `end()`
      writing 0, 1, 2, ... */
  method Iota(a: Array<int>)
    requires a.Valid()
    modifies a.elements
    ensures forall k :: 0 <= k < a.N ==> a.elements[k] == k
  {
    var count := 0;
    var it := a.Begin();
    while it != a.End()
      invariant 0 <= it <= a.N && count == it
      invariant forall k :: 0 <= k < it ==> a.elements[k] == k
    {
      a.elements[it] := count;
      count := count + 1;
      it := it + 1;
    }
  }

  /** The array test's main: `array{2, 1, 0}` deduces N == 3 and walks
      as 2, 1, 0; after `iota` indexing gives 0, 1, 2, `front()` is 0,
      `back()` is 2, and the walk from `rbegin()` to `rend()`, an offset
      stepping down from `end()` to `begin()`, gives 2, 1, 0. */
  method ArrayTest() returns (initial: seq<int>, counted: seq<int>, front: int, back: int, backward: seq<int>)
    ensures initial == [2, 1, 0] && counted == [0, 1, 2]
    ensures front == 0 && back == 2 && backward == [2, 1, 0]
  {
    var a := new Array([2, 1, 0]);
    initial := a.elements[a.Begin()..a.End()];
    Iota(a);
    counted := [a.Get(0), a.Get(1), a.Get(2)];
    front := a.Front();
    back := a.Back();
    backward := [];
    var it := a.End();
    while it != a.Begin()
      invariant 0 <= it <= 3
      invariant backward == seq(3 - it, k requires 0 <= k < 3 - it => 2 - k)
    {
      backward := backward + [a.elements[it - 1]];
      it := it - 1;
    }
  }
}
