/** Reference definitions on element sequences. Every container operation is
    specified by one of these applied to the sequence of elements it held
    before, and the lemmas here state what those definitions mean. */
module Seqs {

  /** `n` copies of `v`, the effect of `assign(n, v)` or `insert(pos, n, v)`. */
  function Repeat<T>(v: T, n: nat): (r: seq<T>)
    ensures |r| == n
    ensures forall k :: 0 <= k < |r| ==> r[k] == v
  {
    if n == 0 then [] else Repeat(v, n - 1) + [v]
  }

  /** `s` backwards, what a walk from `rbegin()` to `rend()` yields. */
  function Reverse<T>(s: seq<T>): (r: seq<T>)
    ensures |r| == |s|
    ensures forall k :: 0 <= k < |s| ==> r[k] == s[|s| - 1 - k]
  {
    if s == [] then [] else Reverse(s[1..]) + [s[0]]
  }

  /** `s` with `t` placed so that its first element lands at position `j`. */
  function InsertAt<T>(s: seq<T>, j: nat, t: seq<T>): (r: seq<T>)
    requires j <= |s|
    ensures |r| == |s| + |t|
  {
    s[..j] + t + s[j..]
  }

  /** `s` without the positions in [first, last). */
  function Excise<T>(s: seq<T>, first: nat, last: nat): (r: seq<T>)
    requires first <= last <= |s|
    ensures |r| == |s| - (last - first)
  {
    s[..first] + s[last..]
  }

  /** `s` without its elements equal to `v`, the rest in their order. */
  function RemoveAll<T(==)>(s: seq<T>, v: T): (r: seq<T>)
  {
    if s == [] then []
    else (if s[0] == v then [] else [s[0]]) + RemoveAll(s[1..], v)
  }

  /** `s` without its elements that satisfy `p`, the rest in their order. */
  function RemoveWhere<T>(s: seq<T>, p: T -> bool): (r: seq<T>)
  {
    if s == [] then []
    else (if p(s[0]) then [] else [s[0]]) + RemoveWhere(s[1..], p)
  }

  /** How many elements of `s` satisfy `p`. */
  function CountWhere<T>(s: seq<T>, p: T -> bool): (c: nat)
  {
    if s == [] then 0
    else (if p(s[0]) then 1 else 0) + CountWhere(s[1..], p)
  }

  /** The element at each position of an insertion: the old prefix, then the
      inserted run, then the old tail shifted right by |t|. */
  lemma InsertAtIndex<T>(s: seq<T>, j: nat, t: seq<T>, k: nat)
    requires j <= |s| && k < |s| + |t|
    ensures |InsertAt(s, j, t)| == |s| + |t|
    ensures InsertAt(s, j, t)[k] ==
            if k < j then s[k] else if k < j + |t| then t[k - j] else s[k - |t|]
  {
  }

  /** A sequence that agrees with `s` before `j`, holds `t` next and then
      the rest of `s` is the insertion of `t` at `j`. */
  lemma AssembleInsert<T>(s: seq<T>, j: nat, t: seq<T>, r: seq<T>)
    requires j <= |s| && |r| == |s| + |t|
    requires r[..j] == s[..j]
    requires r[j..j + |t|] == t
    requires r[j + |t|..] == s[j..]
    ensures r == InsertAt(s, j, t)
  {
    assert r == r[..j] + r[j..j + |t|] + r[j + |t|..];
  }

  /** A sequence that agrees with `s` before `first` and then holds the
      rest of `s` from `last` is `s` with [first, last) erased. */
  lemma AssembleExcise<T>(s: seq<T>, first: nat, last: nat, r: seq<T>)
    requires first <= last <= |s| && |r| == |s| - (last - first)
    requires r[..first] == s[..first]
    requires r[first..] == s[last..]
    ensures r == Excise(s, first, last)
  {
    assert r == r[..first] + r[first..];
  }

  /** Every position of an insertion at once. */
  lemma InsertAtAll<T>(s: seq<T>, j: nat, t: seq<T>)
    requires j <= |s|
    ensures |InsertAt(s, j, t)| == |s| + |t|
    ensures forall k :: 0 <= k < j ==> InsertAt(s, j, t)[k] == s[k]
    ensures forall k :: 0 <= k < |t| ==> InsertAt(s, j, t)[j + k] == t[k]
    ensures forall k :: j + |t| <= k < |s| + |t| ==> InsertAt(s, j, t)[k] == s[k - |t|]
  {
  }

  /** Inserting nothing changes nothing. */
  lemma InsertNothing<T>(s: seq<T>, j: nat, t: seq<T>)
    requires j <= |s| && |t| == 0
    ensures InsertAt(s, j, t) == s
  {
    assert s[..j] + s[j..] == s;
  }

  /** Erasing what was just inserted gives back the original sequence. */
  lemma EraseInserted<T>(s: seq<T>, j: nat, t: seq<T>)
    requires j <= |s|
    ensures j + |t| <= |InsertAt(s, j, t)|
    ensures Excise(InsertAt(s, j, t), j, j + |t|) == s
  {
    var r := InsertAt(s, j, t);
    assert r[..j] == s[..j];
    assert r[j + |t|..] == s[j..];
    assert s[..j] + s[j..] == s;
  }

  /** Erasing a range keeps the prefix and shifts the tail left. */
  lemma ExciseIndex<T>(s: seq<T>, first: nat, last: nat, k: nat)
    requires first <= last <= |s| && k < |s| - (last - first)
    ensures |Excise(s, first, last)| == |s| - (last - first)
    ensures Excise(s, first, last)[k] ==
            if k < first then s[k] else s[k + (last - first)]
  {
  }

  /** Inserting elements other than `x` brings in no `x`. */
  lemma InsertAtMembers<T>(s: seq<T>, j: nat, t: seq<T>, x: T)
    requires j <= |s| && x !in s && x !in t
    ensures x !in InsertAt(s, j, t)
  {
    assert InsertAt(s, j, t) == s[..j] + t + s[j..];
  }

  /** Erasing elements brings in no new ones. */
  lemma ExciseMembers<T>(s: seq<T>, first: nat, last: nat, x: T)
    requires first <= last <= |s| && x !in s
    ensures x !in Excise(s, first, last)
  {
    assert Excise(s, first, last) == s[..first] + s[last..];
  }

  /** Every position of an erasure at once. */
  lemma ExciseAll<T>(s: seq<T>, first: nat, last: nat)
    requires first <= last <= |s|
    ensures |Excise(s, first, last)| == |s| - (last - first)
    ensures forall k :: 0 <= k < first ==> Excise(s, first, last)[k] == s[k]
    ensures forall k :: first <= k < |s| - (last - first) ==> Excise(s, first, last)[k] == s[k + (last - first)]
  {
  }

  /** Inserting at either end is concatenation. */
  lemma InsertAtEnds<T>(s: seq<T>, t: seq<T>)
    ensures InsertAt(s, 0, t) == t + s
    ensures InsertAt(s, |s|, t) == s + t
  {
    assert s[..0] == [] && s[0..] == s;
    assert s[..|s|] == s && s[|s|..] == [];
  }

  /** Inserting `u` right after an inserted run `t` extends the run. */
  lemma InsertAtExtend<T>(s: seq<T>, j: nat, t: seq<T>, u: seq<T>)
    requires j <= |s|
    ensures j + |t| <= |InsertAt(s, j, t)|
    ensures InsertAt(InsertAt(s, j, t), j + |t|, u) == InsertAt(s, j, t + u)
  {
    var r := InsertAt(s, j, t);
    assert r[..j + |t|] == s[..j] + t;
    assert r[j + |t|..] == s[j..];
  }

  /** `cur` is `orig` with a run of `k` elements placed at `i`: the
      prefix before `i` and everything after the run are `orig`'s. */
  ghost predicate RunAt<T>(orig: seq<T>, cur: seq<T>, i: nat, k: nat)
  {
    i <= |orig| && |cur| == |orig| + k && cur[..i] == orig[..i] && cur[i + k..] == orig[i..]
  }

  /** Inserting `x` at the end of such a run makes the run one longer. */
  lemma InsertAfterRun<T>(orig: seq<T>, cur: seq<T>, r: seq<T>, i: nat, k: nat, q: nat, x: T)
    requires RunAt(orig, cur, i, k) && q == i + k && r == InsertAt(cur, q, [x])
    ensures RunAt(orig, r, i, k + 1)
  {
    assert r == cur[..i + k] + [x] + cur[i + k..];
    assert r[..i] == cur[..i];
    assert r[i + k + 1..] == cur[i + k..];
  }

  /** One more copy inserted right after a run of `k0` copies of `v` at
      `j` (so at `pos`) gives a run of `k` copies, for k == k0 + 1. */
  lemma InsertCopyGrows<T>(s: seq<T>, j: nat, v: T, k0: nat, k: nat, pos: nat)
    requires j <= |s| && k == k0 + 1 && pos == j + k0
    ensures pos <= |InsertAt(s, j, Repeat(v, k0))|
    ensures InsertAt(InsertAt(s, j, Repeat(v, k0)), pos, [v]) == InsertAt(s, j, Repeat(v, k))
  {
    InsertAtExtend(s, j, Repeat(v, k0), [v]);
    assert Repeat(v, k0) + [v] == Repeat(v, k);
  }

  /** Element `k0` of `src` inserted right after the first `k0` ones
      (inserted at `j`, so at `pos`) gives the first `k`, for k == k0 + 1. */
  lemma InsertRangeGrows<T>(s: seq<T>, j: nat, src: seq<T>, k0: nat, k: nat, pos: nat)
    requires j <= |s| && k0 < |src| && k == k0 + 1 && pos == j + k0
    ensures pos <= |InsertAt(s, j, src[..k0])|
    ensures InsertAt(InsertAt(s, j, src[..k0]), pos, [src[k0]]) == InsertAt(s, j, src[..k])
  {
    InsertAtExtend(s, j, src[..k0], [src[k0]]);
    assert src[..k0] + [src[k0]] == src[..k];
  }

  /** Erasing the position just after an erased range [first, last)
      extends the range to [first, next), for next == last + 1. */
  lemma ExciseExtend<T>(s: seq<T>, first: nat, last: nat, next: nat)
    requires first <= last < |s| && next == last + 1
    ensures first < |Excise(s, first, last)|
    ensures Excise(Excise(s, first, last), first, first + 1) == Excise(s, first, next)
  {
    var r := Excise(s, first, last);
    assert r[..first] == s[..first];
    assert r[first + 1..] == s[last + 1..];
  }

  /** Erasing the element just after a prefix `a`, where the rest is the
      suffix of `s` from `t`, leaves `a` and the suffix from `next`. */
  lemma ExciseAfter<T>(a: seq<T>, s: seq<T>, t: nat, next: nat)
    requires t < |s| && next == t + 1
    ensures Excise(a + s[t..], |a|, |a| + 1) == a + s[next..]
  {
    assert (a + s[t..])[..|a|] == a;
    assert (a + s[t..])[|a| + 1..] == s[next..];
  }

  /** Moving element `t` of `s` across to the prefix `a`. */
  lemma ShiftHead<T>(a: seq<T>, s: seq<T>, t: nat, next: nat)
    requires t < |s| && next == t + 1
    ensures a + s[t..] == (a + [s[t]]) + s[next..]
    ensures (a + s[t..])[|a|] == s[t]
  {
    assert s[t..] == [s[t]] + s[next..];
  }

  /** Filtering a prefix one element longer. */
  lemma RemoveAllPrefix<T>(s: seq<T>, t: nat, next: nat, v: T)
    requires t < |s| && next == t + 1
    ensures s[t] == v ==> RemoveAll(s[..next], v) == RemoveAll(s[..t], v)
    ensures s[t] != v ==> RemoveAll(s[..next], v) == RemoveAll(s[..t], v) + [s[t]]
  {
    assert s[..next] == s[..t] + [s[t]];
    RemoveAllAppend(s[..t], [s[t]], v);
    assert [s[t]][1..] == [];
  }

  /** Filtering and counting a prefix one element longer. */
  lemma RemoveWherePrefix<T>(s: seq<T>, t: nat, next: nat, p: T -> bool)
    requires t < |s| && next == t + 1
    ensures p(s[t]) ==> RemoveWhere(s[..next], p) == RemoveWhere(s[..t], p)
    ensures !p(s[t]) ==> RemoveWhere(s[..next], p) == RemoveWhere(s[..t], p) + [s[t]]
    ensures CountWhere(s[..next], p) == CountWhere(s[..t], p) + (if p(s[t]) then 1 else 0)
  {
    assert s[..next] == s[..t] + [s[t]];
    RemoveWhereAppend(s[..t], [s[t]], p);
    CountWhereAppend(s[..t], [s[t]], p);
    assert [s[t]][1..] == [];
  }

  lemma {:induction false} RemoveWhereAppend<T>(a: seq<T>, b: seq<T>, p: T -> bool)
    ensures RemoveWhere(a + b, p) == RemoveWhere(a, p) + RemoveWhere(b, p)
  {
    if a == [] {
      assert a + b == b;
    } else {
      assert (a + b)[1..] == a[1..] + b;
      RemoveWhereAppend(a[1..], b, p);
    }
  }

  lemma {:induction false} CountWhereAppend<T>(a: seq<T>, b: seq<T>, p: T -> bool)
    ensures CountWhere(a + b, p) == CountWhere(a, p) + CountWhere(b, p)
  {
    if a == [] {
      assert a + b == b;
    } else {
      assert (a + b)[1..] == a[1..] + b;
      CountWhereAppend(a[1..], b, p);
    }
  }

  lemma {:induction false} RemoveAllAppend<T>(a: seq<T>, b: seq<T>, v: T)
    ensures RemoveAll(a + b, v) == RemoveAll(a, v) + RemoveAll(b, v)
  {
    if a == [] {
      assert a + b == b;
    } else {
      assert (a + b)[1..] == a[1..] + b;
      RemoveAllAppend(a[1..], b, v);
    }
  }

  /** `RemoveWhere` deletes exactly the elements satisfying `p`: what is left
      satisfies `p` nowhere, and its length drops by the count of deleted
      ones. */
  lemma {:induction false} RemoveWhereDeletes<T>(s: seq<T>, p: T -> bool)
    ensures forall k :: 0 <= k < |RemoveWhere(s, p)| ==> !p(RemoveWhere(s, p)[k])
    ensures |RemoveWhere(s, p)| + CountWhere(s, p) == |s|
  {
    if s != [] {
      RemoveWhereDeletes(s[1..], p);
    }
  }

  /** Every element that does not satisfy `p` keeps its multiplicity. */
  lemma {:induction false} RemoveWhereKeeps<T>(s: seq<T>, p: T -> bool)
    ensures forall x :: !p(x) ==> multiset(RemoveWhere(s, p))[x] == multiset(s)[x]
  {
    if s != [] {
      RemoveWhereKeeps(s[1..], p);
      assert s == [s[0]] + s[1..];
    }
  }

  /** A predicate that holds nowhere in `s` deletes nothing. */
  lemma {:induction false} RemoveWhereNone<T>(s: seq<T>, p: T -> bool)
    requires forall k :: 0 <= k < |s| ==> !p(s[k])
    ensures RemoveWhere(s, p) == s
    ensures CountWhere(s, p) == 0
  {
    if s != [] {
      RemoveWhereNone(s[1..], p);
    }
  }

  /** `RemoveAll` deletes exactly the copies of `v`: none is left, the length
      drops by the number of copies, and every other value keeps its
      multiplicity. */
  lemma {:induction false} RemoveAllDeletes<T>(s: seq<T>, v: T)
    ensures v !in RemoveAll(s, v)
    ensures |RemoveAll(s, v)| + multiset(s)[v] == |s|
    ensures multiset(RemoveAll(s, v)) == multiset(s)[v := 0]
  {
    if s != [] {
      RemoveAllDeletes(s[1..], v);
      assert s == [s[0]] + s[1..];
    }
  }

  /** `remove(v)` is `remove_if` with the predicate "equals v". */
  lemma {:induction false} RemoveAllIsRemoveWhere<T>(s: seq<T>, v: T, p: T -> bool)
    requires forall x :: p(x) == (x == v)
    ensures RemoveAll(s, v) == RemoveWhere(s, p)
    ensures multiset(s)[v] == CountWhere(s, p)
  {
    if s != [] {
      RemoveAllIsRemoveWhere(s[1..], v, p);
      assert s == [s[0]] + s[1..];
    }
  }
}
