/** Marcus::list: a circular doubly linked list threaded through a sentinel
    node `dummy`, with a size counter. The ghost sequence `nodes` lists the
    value nodes in link order and `contents` their values; the object
    invariant says that following `next` from the sentinel visits exactly
    `nodes` and comes back, that `prev` mirrors `next`, and that `size`
    counts the nodes. Iterators are node references; wherever a method takes
    one, a ghost index says which position it denotes (-1 and |nodes| both
    denote the sentinel, that is `end()`). */
module Lists {
  import opened Seqs

  /** ListBaseNode / ListValueNode. The sentinel's `value` is never read. */
  class Node<T(0)> {
    var next: Node?<T>
    var prev: Node?<T>
    var value: T

    /** A value node, not yet linked. */
    constructor (value: T)
      ensures this.value == value
    {
      this.value := value;
    }

    /** A sentinel linked to itself, as `list()` leaves `_dummy`. */
    constructor Sentinel()
      ensures next == this && prev == this
    {
      new;
      next := this;
      prev := this;
    }
  }

  /** The node at position `k` of the ring `ns` closed by the sentinel `d`. */
  ghost function Ring<T(0)>(ns: seq<Node<T>>, d: Node<T>, k: int): Node<T>
    requires -1 <= k <= |ns|
  {
    if 0 <= k < |ns| then ns[k] else d
  }

  /** No node occurs twice in `ns`. */
  ghost predicate Distinct<T(0)>(ns: seq<Node<T>>)
  {
    forall a, b :: 0 <= a < b < |ns| ==> ns[a] != ns[b]
  }

  /** Different nodes sit at different positions. */
  lemma RingApart<T(0)>(ns: seq<Node<T>>, d: Node<T>, a: int, b: int)
    requires -1 <= a <= |ns| && -1 <= b <= |ns| && Ring(ns, d, a) != Ring(ns, d, b)
    ensures a != b
  {
  }

  /** In a ring of distinct nodes that excludes the sentinel, a node has
      one position. */
  lemma RingInjective<T(0)>(ns: seq<Node<T>>, d: Node<T>, a: nat, b: nat)
    requires d !in ns && Distinct(ns)
    requires a <= |ns| && b <= |ns| && Ring(ns, d, a) == Ring(ns, d, b)
    ensures a == b
  {
  }

  /** After erasing [first, last), position `first` holds what was at
      position `last`. */
  lemma RingExcise<T(0)>(ns: seq<Node<T>>, d: Node<T>, first: nat, last: nat)
    requires first <= last <= |ns|
    ensures Ring(Excise(ns, first, last), d, first) == Ring(ns, d, last)
  {
  }

  /** A node inserted at position `j` is at position `j`. */
  lemma RingInsertAt<T(0)>(ns: seq<Node<T>>, d: Node<T>, j: nat, x: Node<T>)
    requires j <= |ns|
    ensures Ring(InsertAt(ns, j, [x]), d, j) == x
  {
  }

  /** Inserting at position `j` leaves the positions before `j` alone. */
  lemma RingInsertBefore<T(0)>(ns: seq<Node<T>>, d: Node<T>, j: nat, x: Node<T>, k: nat)
    requires k < j <= |ns|
    ensures Ring(InsertAt(ns, j, [x]), d, k) == Ring(ns, d, k)
  {
  }

  class List<T(0,==)> {
    const dummy: Node<T>
    var size: nat
    ghost var nodes: seq<Node<T>>
    ghost var contents: seq<T>
    /** The objects the list owns: itself, the sentinel and the value nodes. */
    ghost var Repr: set<object>

    ghost predicate Valid()
      reads this, Repr
    {
      && this in Repr && dummy in Repr
      && dummy !in nodes
      && |contents| == |nodes| == size
      && (forall k :: 0 <= k < |nodes| ==> nodes[k] in Repr && nodes[k].value == contents[k])
      && (forall k {:trigger nodes[k].next} :: 0 <= k < |nodes| ==> nodes[k].next == Ring(nodes, dummy, k + 1))
      && (forall k {:trigger nodes[k].prev} :: 0 <= k < |nodes| ==> nodes[k].prev == Ring(nodes, dummy, k - 1))
      && dummy.next == Ring(nodes, dummy, 0) && dummy.prev == Ring(nodes, dummy, |nodes| - 1)
    }

    /** Position `a` and a later position `b` hold different nodes: were
        they the same node, their successors would be the same too, and so
        on up to the sentinel, which is no value node. */
    lemma {:induction false} PositionsApart(a: nat, b: nat)
      requires Valid() && a < b <= |nodes|
      ensures Ring(nodes, dummy, a) != Ring(nodes, dummy, b)
      decreases |nodes| - b
    {
      if b < |nodes| {
        PositionsApart(a + 1, b + 1);
        assert nodes[a].next == Ring(nodes, dummy, a + 1);
        assert nodes[b].next == Ring(nodes, dummy, b + 1);
      }
    }

    /** A valid ring visits no node twice. */
    lemma NodesDistinct()
      requires Valid()
      ensures Distinct(nodes)
    {
      forall a, b | 0 <= a < b < |nodes|
        ensures nodes[a] != nodes[b]
      {
        PositionsApart(a, b);
      }
    }

    /** The first and the last node each occur once. */
    lemma EndsApart()
      requires Valid()
      ensures forall k :: 0 <= k < |nodes| - 1 ==> nodes[k] != dummy.prev
      ensures forall k :: 0 < k < |nodes| ==> nodes[k] != dummy.next
    {
      forall k | 0 <= k < |nodes| - 1
        ensures nodes[k] != dummy.prev
      {
        PositionsApart(k, |nodes| - 1);
      }
      forall k | 0 < k < |nodes|
        ensures nodes[k] != dummy.next
      {
        PositionsApart(0, k);
      }
    }

    /** The successor of position `k` is position `k'`, for k' == k + 1. */
    lemma NextIs(k: nat, k': nat)
      requires Valid() && k < |nodes| && k' == k + 1
      ensures nodes[k].next == Ring(nodes, dummy, k')
    {
    }

    /** `list()`: an empty list whose sentinel links to itself. */
    constructor ()
      ensures Valid() && fresh(Repr) && contents == [] && size == 0
      ensures dummy.next == dummy && dummy.prev == dummy
    {
      dummy := new Node.Sentinel();
      size := 0;
      nodes := [];
      contents := [];
      new;
      Repr := {this, dummy};
    }

    /** `empty()`: the sentinel's successor is the sentinel itself. */
    function Empty(): (r: bool)
      reads this, Repr
      requires Valid()
      ensures r <==> size == 0
      ensures r <==> contents == []
    {
      dummy.next == dummy
    }

    /** `size()`. */
    function Size(): (r: nat)
      reads this, Repr
      requires Valid()
      ensures r == |contents|
    {
      size
    }

    /** `front()`: the value after the sentinel. */
    function Front(): (r: T)
      reads this, Repr
      requires Valid() && size > 0
      ensures r == contents[0]
    {
      dummy.next.value
    }

    /** `back()`: the value before the sentinel. */
    function Back(): (r: T)
      reads this, Repr
      requires Valid() && size > 0
      ensures r == contents[|contents| - 1]
    {
      dummy.prev.value
    }

    /** The value nodes `ns` are threaded forwards from the sentinel and
        backwards to it, and `tail` is the last one (the sentinel when there
        is none); the forward link out of `tail` is not yet set. */
    ghost predicate Chain(ns: seq<Node<T>>, vs: seq<T>, tail: Node<T>)
      reads dummy, set n | n in ns
    {
      && dummy !in ns && Distinct(ns)
      && |vs| == |ns|
      && (forall k :: 0 <= k < |ns| ==> ns[k].value == vs[k])
      && (forall k {:trigger ns[k].next} :: 0 <= k < |ns| - 1 ==> ns[k].next == ns[k + 1])
      && (forall k {:trigger ns[k].prev} :: 0 <= k < |ns| ==> ns[k].prev == Ring(ns, dummy, k - 1))
      && (0 < |ns| ==> dummy.next == ns[0])
      && tail == Ring(ns, dummy, |ns| - 1)
    }

    /** Linking the tail `pre` of a chain back to the sentinel closes the
        ring. */
    method Close(ghost ns: seq<Node<T>>, ghost vs: seq<T>, pre: Node<T>)
      requires Chain(ns, vs, pre)
      modifies dummy, pre
      ensures Threaded(ns, vs)
    {
      dummy.prev := pre;
      pre.next := dummy;
    }

    /** One step of `_uninit_assign`: a fresh node holding `v` is hung after
        the tail `pre` of a chain, which it extends. */
    method Hang(ghost ns: seq<Node<T>>, ghost vs: seq<T>, pre: Node<T>, v: T) returns (node: Node<T>)
      requires Chain(ns, vs, pre)
      modifies pre
      ensures fresh(node) && node.value == v
      ensures Chain(ns + [node], vs + [v], node)
    {
      node := new Node(v);
      pre.next := node;
      node.prev := pre;
    }

    /** `_uninit_assign(first, last)`: threads fresh nodes holding `src`, in
        order, after the sentinel, then closes the ring. Whatever the list
        held before is dropped without being visited. */
    method UninitAssign(src: seq<T>)
      modifies this, dummy
      ensures Valid() && contents == src && size == |src|
      ensures fresh(Repr - {this, dummy})
    {
      size := 0;
      Repr := {this, dummy};
      var pre := dummy;
      ghost var ns: seq<Node<T>> := [];
      var k := 0;
      while k < |src|
        invariant k <= |src| && |ns| == k && size == k
        invariant Chain(ns, src[..k], pre)
        invariant this in Repr && dummy in Repr && forall x :: x in ns ==> x in Repr
        invariant fresh(Repr - {this, dummy})
      {
        var node := Hang(ns, src[..k], pre, src[k]);
        assert src[..k + 1] == src[..k] + [src[k]];
        ns := ns + [node];
        Repr := Repr + {node};
        pre := node;
        k := k + 1;
        size := size + 1;
      }
      assert src[..k] == src;
      nodes, contents := ns, src;
      Close(ns, src, pre);
      ThreadedValid(ns, src);
    }

    /** `_uninit_assign(n, val)`: the same with `n` copies of `val`; the
        size is stored once, after the nodes are hung (`list.hpp` stores it
        just after closing the ring, which neither reads nor writes it). */
    method UninitAssignCopies(n: nat, val: T)
      modifies this, dummy
      ensures Valid() && contents == Repeat(val, n) && size == n
      ensures fresh(Repr - {this, dummy})
    {
      Repr := {this, dummy};
      var pre := dummy;
      ghost var ns: seq<Node<T>> := [];
      for k := 0 to n
        invariant |ns| == k
        invariant Chain(ns, Repeat(val, k), pre)
        invariant this in Repr && dummy in Repr && forall x :: x in ns ==> x in Repr
        invariant fresh(Repr - {this, dummy})
      {
        var node := Hang(ns, Repeat(val, k), pre, val);
        ns := ns + [node];
        Repr := Repr + {node};
        pre := node;
      }
      nodes, contents := ns, Repeat(val, n);
      size := n;
      Close(ns, Repeat(val, n), pre);
      ThreadedValid(ns, Repeat(val, n));
    }

    /** `list(first, last)`. */
    constructor OfRange(src: seq<T>)
      ensures Valid() && fresh(Repr) && contents == src
    {
      dummy := new Node.Sentinel();
      new;
      UninitAssign(src);
    }

    /** `list(n, val)`. */
    constructor OfSize(n: nat, val: T)
      ensures Valid() && fresh(Repr) && contents == Repeat(val, n)
    {
      dummy := new Node.Sentinel();
      new;
      UninitAssignCopies(n, val);
    }

    /** Walking `cbegin()` to `cend()`: the values in link order. */
    method Values() returns (s: seq<T>)
      requires Valid()
      ensures s == contents
    {
      s := [];
      var cur := dummy.next;
      while cur != dummy
        invariant |s| <= |nodes| && cur == Ring(nodes, dummy, |s|)
        invariant s == contents[..|s|]
        decreases |nodes| - |s|
      {
        s := s + [cur.value];
        cur := cur.next;
      }
    }

    /** Walking `crbegin()` to `crend()`: the values against link order,
        following `prev` from the sentinel. */
    method ReverseValues() returns (s: seq<T>)
      requires Valid()
      ensures s == Reverse(contents)
    {
      s := [];
      var cur := dummy.prev;
      while cur != dummy
        invariant |s| <= |nodes| && cur == Ring(nodes, dummy, |nodes| - 1 - |s|)
        invariant forall k :: 0 <= k < |s| ==> s[k] == contents[|nodes| - 1 - k]
        decreases |nodes| - |s|
      {
        s := s + [cur.value];
        cur := cur.prev;
      }
    }

    /** `list(const list &)`: `_uninit_assign` over the other list's range. */
    constructor Copy(other: List<T>)
      requires other.Valid()
      ensures Valid() && fresh(Repr) && contents == other.contents
    {
      dummy := new Node.Sentinel();
      new;
      var s := other.Values();
      UninitAssign(s);
    }

    /** `clear()`: walks the nodes (destroying and freeing each, which here
        means giving them up), then self-links the sentinel. */
    method Clear()
      requires Valid()
      modifies this, dummy
      ensures Valid() && contents == [] && size == 0 && Repr == {this, dummy}
      ensures dummy.next == dummy && dummy.prev == dummy
    {
      var cur := dummy.next;
      ghost var k := 0;
      while cur != dummy
        invariant k <= |nodes| && cur == Ring(nodes, dummy, k)
        decreases |nodes| - k
      {
        cur := cur.next;
        k := k + 1;
      }
      dummy.prev := dummy;
      dummy.next := dummy;
      size := 0;
      nodes, contents := [], [];
      Repr := {this, dummy};
    }

    /** `assign(first, last)`. */
    method Assign(src: seq<T>)
      requires Valid()
      modifies Repr
      ensures Valid() && contents == src && size == |src|
      ensures fresh(Repr - old(Repr))
    {
      Clear();
      UninitAssign(src);
    }

    /** `assign(n, val)`. */
    method AssignCopies(n: nat, val: T)
      requires Valid()
      modifies Repr
      ensures Valid() && contents == Repeat(val, n) && size == n
      ensures fresh(Repr - old(Repr))
    {
      Clear();
      UninitAssignCopies(n, val);
    }

    /** The link half of `_uninit_move_assign(other)`: points the other
        list's end nodes at this sentinel, copies the other sentinel's links
        into this one and self-links the other sentinel. */
    method AdoptLinks(other: List<T>)
      requires other.Valid() && dummy !in other.Repr
      modifies dummy, other.Repr - {other}
      ensures Threaded(old(other.nodes), old(other.contents))
      ensures other.dummy.next == other.dummy && other.dummy.prev == other.dummy
      ensures forall k :: 0 <= k < |old(other.nodes)| ==> old(other.nodes[k]) in old(other.Repr) && old(other.nodes[k]) != other.dummy
    {
      other.EndsApart();
      ghost var N, C := other.nodes, other.contents;
      var od := other.dummy;
      var prev := od.prev;
      var next := od.next;
      prev.next := dummy;
      next.prev := dummy;
      dummy.next, dummy.prev := od.next, od.prev;
      od.prev := od;
      od.next := od;
    }

    /** `_uninit_move_assign(other)`: after the links, the size moves over
        and the other list is left empty. */
    method UninitMoveAssign(other: List<T>)
      requires other.Valid() && this in Repr && dummy in Repr && Repr !! other.Repr
      modifies Repr, other.Repr
      ensures Valid() && other.Valid() && Repr !! other.Repr
      ensures nodes == old(other.nodes) && contents == old(other.contents) && size == old(other.size)
      ensures other.contents == [] && other.size == 0
      ensures other.dummy.next == other.dummy && other.dummy.prev == other.dummy
      ensures Repr == old(Repr) + (old(other.Repr) - {other, other.dummy})
    {
      AdoptLinks(other);
      size := other.size;
      other.size := 0;
      nodes, contents := other.nodes, other.contents;
      Repr := Repr + (other.Repr - {other, other.dummy});
      other.nodes, other.contents := [], [];
      other.Repr := {other, other.dummy};
      ThreadedValid(old(other.nodes), old(other.contents));
    }

    /** The value nodes `ns` hold `vs` and are threaded, forwards and
        backwards, into a ring closed by the sentinel. */
    ghost predicate Threaded(ns: seq<Node<T>>, vs: seq<T>)
      reads dummy, set n | n in ns
    {
      && dummy !in ns && |vs| == |ns|
      && (forall k :: 0 <= k < |ns| ==> ns[k].value == vs[k])
      && (forall k {:trigger ns[k].next} :: 0 <= k < |ns| ==> ns[k].next == Ring(ns, dummy, k + 1))
      && (forall k {:trigger ns[k].prev} :: 0 <= k < |ns| ==> ns[k].prev == Ring(ns, dummy, k - 1))
      && dummy.next == Ring(ns, dummy, 0) && dummy.prev == Ring(ns, dummy, |ns| - 1)
    }

    /** A threaded ring recorded as the list's nodes and contents, all in the
        footprint, is a valid list. */
    lemma ThreadedValid(ns: seq<Node<T>>, vs: seq<T>)
      requires Threaded(ns, vs) && nodes == ns && contents == vs && size == |ns|
      requires this in Repr && dummy in Repr && forall k :: 0 <= k < |ns| ==> ns[k] in Repr
      ensures Valid()
    {
    }


    /** `list(list &&other)`: takes over the other list's nodes and leaves it
        empty. */
    constructor Move(other: List<T>)
      requires other.Valid()
      modifies other.Repr
      ensures Valid() && other.Valid() && Repr !! other.Repr
      ensures contents == old(other.contents) && size == old(other.size)
      ensures other.contents == [] && other.size == 0
      ensures Repr == {this, dummy} + (old(other.Repr) - {other, other.dummy})
    {
      dummy := new Node.Sentinel();
      new;
      Repr := {this, dummy};
      UninitMoveAssign(other);
    }

    /** `cur` is fresh and now sits between `pre` and `nxt`, the old
        positions i-1 and i, and is recorded at position `i`; no other link
        or value changed. */
    twostate predicate Linked(i: nat, new cur: Node<T>)
      reads *
    {
      && old(Valid()) && i <= |old(nodes)|
      && var N, pre, nxt := old(nodes), Ring(old(nodes), dummy, i - 1), Ring(old(nodes), dummy, i);
      && Distinct(N)
      && fresh(cur)
      && nodes == InsertAt(N, i, [cur])
      && contents == InsertAt(old(contents), i, [cur.value])
      && size == old(size) + 1
      && Repr == old(Repr) + {cur}
      && cur.next == nxt && cur.prev == pre && pre.next == cur && nxt.prev == cur
      && (forall k :: 0 <= k < |N| && N[k] != pre ==> N[k].next == old(N[k].next))
      && (forall k :: 0 <= k < |N| && N[k] != nxt ==> N[k].prev == old(N[k].prev))
      && (forall k :: 0 <= k < |N| ==> N[k].value == old(N[k].value))
      && (dummy != pre ==> dummy.next == old(dummy.next))
      && (dummy != nxt ==> dummy.prev == old(dummy.prev))
    }

    twostate lemma LinkedNext(i: nat, new cur: Node<T>)
      requires Linked(i, cur)
      ensures forall k {:trigger nodes[k].next} :: 0 <= k < |nodes| ==> nodes[k].next == Ring(nodes, dummy, k + 1)
    {
      var N, pre, nxt := old(nodes), Ring(old(nodes), dummy, i - 1), Ring(old(nodes), dummy, i);
      InsertAtAll(N, i, [cur]);
      forall k | 0 <= k < |nodes|
        ensures nodes[k].next == Ring(nodes, dummy, k + 1)
      {
        if k < i - 1 {
          assert nodes[k] == N[k] && N[k] != pre && nodes[k + 1] == N[k + 1];
          assert N[k].next == old(N[k].next);
        } else if k > i {
          assert nodes[k] == N[k - 1] && N[k - 1] != pre;
          assert N[k - 1].next == old(N[k - 1].next);
        }
      }
    }

    twostate lemma LinkedPrev(i: nat, new cur: Node<T>)
      requires Linked(i, cur)
      ensures forall k {:trigger nodes[k].prev} :: 0 <= k < |nodes| ==> nodes[k].prev == Ring(nodes, dummy, k - 1)
    {
      var N, pre, nxt := old(nodes), Ring(old(nodes), dummy, i - 1), Ring(old(nodes), dummy, i);
      InsertAtAll(N, i, [cur]);
      forall k | 0 <= k < |nodes|
        ensures nodes[k].prev == Ring(nodes, dummy, k - 1)
      {
        if k < i {
          assert nodes[k] == N[k] && N[k] != nxt;
          assert N[k].prev == old(N[k].prev);
        } else if k > i + 1 {
          assert nodes[k] == N[k - 1] && N[k - 1] != nxt && nodes[k - 1] == N[k - 2];
          assert N[k - 1].prev == old(N[k - 1].prev);
        }
      }
    }

    twostate lemma LinkedValues(i: nat, new cur: Node<T>)
      requires Linked(i, cur)
      ensures forall k :: 0 <= k < |nodes| ==> nodes[k] in Repr && nodes[k].value == contents[k]
    {
      var N, pre, nxt := old(nodes), Ring(old(nodes), dummy, i - 1), Ring(old(nodes), dummy, i);
      InsertAtAll(N, i, [cur]);
      InsertAtAll(old(contents), i, [cur.value]);
      forall k | 0 <= k < |nodes|
        ensures nodes[k] in Repr && nodes[k].value == contents[k]
      {
        if k < i {
          assert N[k].value == old(N[k].value);
        } else if k > i {
          assert N[k - 1].value == old(N[k - 1].value);
        }
      }
    }

    twostate lemma LinkedEnds(i: nat, new cur: Node<T>)
      requires Linked(i, cur)
      ensures this in Repr && dummy in Repr && dummy !in nodes && |contents| == |nodes| == size
      ensures dummy.next == Ring(nodes, dummy, 0) && dummy.prev == Ring(nodes, dummy, |nodes| - 1)
    {
      var N, pre, nxt := old(nodes), Ring(old(nodes), dummy, i - 1), Ring(old(nodes), dummy, i);
      InsertAtMembers(N, i, [cur], dummy);
      if i > 0 {
        assert dummy != pre;
      }
      if i < |N| {
        assert dummy != nxt;
      }
    }

    /** Linking a fresh node between the nodes at positions i-1 and i of a
        valid list, and recording it at position i, gives a valid list. */
    twostate lemma LinkedKeepsValid(i: nat, new cur: Node<T>)
      requires Linked(i, cur)
      ensures Valid()
    {
      LinkedNext(i, cur);
      LinkedPrev(i, cur);
      LinkedValues(i, cur);
      LinkedEnds(i, cur);
    }

    /** The four link writes of `emplace`: `cur` goes between `pre` and
        `nxt`, which may be one node (the sentinel of an empty list). */
    method Link(pre: Node<T>, cur: Node<T>, nxt: Node<T>)
      requires cur != pre && cur != nxt
      modifies pre, cur, nxt
      ensures cur.prev == pre && cur.next == nxt && pre.next == cur && nxt.prev == cur
      ensures pre != nxt ==> pre.prev == old(pre.prev) && nxt.next == old(nxt.next)
      ensures cur.value == old(cur.value) && pre.value == old(pre.value) && nxt.value == old(nxt.value)
    {
      cur.prev := pre;
      pre.next := cur;
      cur.next := nxt;
      nxt.prev := cur;
    }

    /** `emplace(pos, args...)`: links a new node holding `val` just before
        `pos`, the node at position `i`, and returns it. */
    method Emplace(pos: Node<T>, ghost i: nat, val: T) returns (it: Node<T>)
      requires Valid() && i <= |nodes| && pos == Ring(nodes, dummy, i)
      modifies Repr
      ensures Valid() && fresh(it) && it.value == val
      ensures nodes == InsertAt(old(nodes), i, [it])
      ensures contents == InsertAt(old(contents), i, [val])
      ensures size == old(size) + 1
      ensures Repr == old(Repr) + {it}
    {
      NodesDistinct();
      ghost var N := nodes;
      var cur := new Node(val);
      var nxt := pos;
      var pre := nxt.prev;
      Link(pre, cur, nxt);
      size := size + 1;
      nodes := InsertAt(nodes, i, [cur]);
      contents := InsertAt(contents, i, [val]);
      Repr := Repr + {cur};
      it := cur;
      LinkedKeepsValid(i, cur);
    }

    /** `insert(pos, val)`: the same as `emplace`. */
    method Insert(pos: Node<T>, ghost i: nat, val: T) returns (it: Node<T>)
      requires Valid() && i <= |nodes| && pos == Ring(nodes, dummy, i)
      modifies Repr
      ensures Valid() && fresh(it) && it.value == val
      ensures nodes == InsertAt(old(nodes), i, [it])
      ensures contents == InsertAt(old(contents), i, [val])
      ensures size == old(size) + 1
      ensures i < |nodes| && it == nodes[i]
      ensures Repr == old(Repr) + {it}
    {
      ghost var N := nodes;
      it := Emplace(pos, i, val);
      RingInsertAt(N, dummy, i, it);
    }

    /** `emplace_back(args...)`: links a new node between the last node and
        the sentinel and returns its value. */
    method EmplaceBack(val: T) returns (r: T)
      requires Valid()
      modifies Repr
      ensures Valid() && r == val
      ensures contents == old(contents) + [val]
      ensures size == old(size) + 1
      ensures RunAt(old(nodes), nodes, |old(nodes)|, 1)
      ensures fresh(Repr - old(Repr))
    {
      NodesDistinct();
      ghost var N := nodes;
      var node := new Node(val);
      var pre := dummy.prev;
      Link(pre, node, dummy);
      size := size + 1;
      InsertAtEnds(nodes, [node]);
      InsertAtEnds(contents, [val]);
      nodes := nodes + [node];
      contents := contents + [val];
      Repr := Repr + {node};
      LinkedKeepsValid(|N|, node);
      r := node.value;
    }

    /** `emplace_front(args...)`: links a new node between the sentinel and
        the first node and returns its value. */
    method EmplaceFront(val: T) returns (r: T)
      requires Valid()
      modifies Repr
      ensures Valid() && r == val
      ensures contents == [val] + old(contents)
      ensures size == old(size) + 1
      ensures RunAt(old(nodes), nodes, 0, 1)
      ensures fresh(Repr - old(Repr))
    {
      NodesDistinct();
      ghost var N := nodes;
      var node := new Node(val);
      var nxt := dummy.next;
      Link(dummy, node, nxt);
      size := size + 1;
      InsertAtEnds(nodes, [node]);
      InsertAtEnds(contents, [val]);
      nodes := [node] + nodes;
      contents := [val] + contents;
      Repr := Repr + {node};
      LinkedKeepsValid(0, node);
      r := node.value;
    }

    /** `push_back(val)`. */
    method PushBack(val: T)
      requires Valid()
      modifies Repr
      ensures Valid() && contents == old(contents) + [val] && size == old(size) + 1
      ensures RunAt(old(nodes), nodes, |old(nodes)|, 1)
      ensures fresh(Repr - old(Repr))
    {
      var _ := EmplaceBack(val);
    }

    /** `push_front(val)`. */
    method PushFront(val: T)
      requires Valid()
      modifies Repr
      ensures Valid() && contents == [val] + old(contents) && size == old(size) + 1
      ensures RunAt(old(nodes), nodes, 0, 1)
      ensures fresh(Repr - old(Repr))
    {
      var _ := EmplaceFront(val);
    }

    /** `insert(pos, n, val)`: emplaces `val` before `pos` `n` times, so the
        copies land in order, and returns the first one inserted, or `pos`
        itself when `n` is 0. */
    method InsertCopies(pos: Node<T>, ghost i: nat, n: nat, val: T) returns (r: Node<T>)
      requires Valid() && i <= |nodes| && pos == Ring(nodes, dummy, i)
      modifies Repr
      ensures Valid() && contents == InsertAt(old(contents), i, Repeat(val, n))
      ensures size == old(size) + n
      ensures i <= |nodes| && r == Ring(nodes, dummy, i)
      ensures n == 0 ==> r == pos
      ensures n > 0 ==> fresh(r)
      ensures RunAt(old(nodes), nodes, i, n)
      ensures fresh(Repr - old(Repr))
    {
      ghost var C, N0 := contents, nodes;
      var p := pos;
      var orig := pos;
      var hasOrig := false;
      var m := n;
      ghost var k := 0;
      ghost var q := i;
      assert InsertAt(C, i, Repeat(val, 0)) == C;
      while m != 0
        invariant Valid() && k + m == n && q == i + k && q <= |nodes|
        invariant contents == InsertAt(C, i, Repeat(val, k))
        invariant size == old(size) + k
        invariant p == Ring(nodes, dummy, q)
        invariant orig == Ring(nodes, dummy, i)
        invariant hasOrig <==> 0 < k
        invariant !hasOrig ==> orig == pos
        invariant hasOrig ==> fresh(orig)
        invariant RunAt(N0, nodes, i, k)
        invariant fresh(Repr - old(Repr))
        decreases m
      {
        ghost var before := nodes;
        ghost var q0, k0 := q, k;
        p := Emplace(p, q0, val);
        InsertAfterRun(N0, before, nodes, i, k0, q0, p);
        RingInsertAt(before, dummy, q0, p);
        if !hasOrig {
          hasOrig := true;
          orig := p;
        } else {
          RingInsertBefore(before, dummy, q0, p, i);
        }
        k := k + 1;
        q := q + 1;
        InsertCopyGrows(C, i, val, k0, k, q0);
        NextIs(q0, q);
        p := p.next;
        m := m - 1;
      }
      r := orig;
    }

    /** `insert(pos, first, last)`: emplaces the elements of `src` before
        `pos` in order and returns the first one inserted, or `pos` itself
        when `src` is empty. */
    method InsertRange(pos: Node<T>, ghost i: nat, src: seq<T>) returns (r: Node<T>)
      requires Valid() && i <= |nodes| && pos == Ring(nodes, dummy, i)
      modifies Repr
      ensures Valid() && contents == InsertAt(old(contents), i, src)
      ensures size == old(size) + |src|
      ensures i <= |nodes| && r == Ring(nodes, dummy, i)
      ensures src == [] ==> r == pos
      ensures src != [] ==> fresh(r)
      ensures RunAt(old(nodes), nodes, i, |src|)
      ensures fresh(Repr - old(Repr))
    {
      ghost var C, N0 := contents, nodes;
      var p := pos;
      var orig := pos;
      var hasOrig := false;
      var k := 0;
      ghost var q := i;
      assert InsertAt(C, i, src[..0]) == C;
      while k < |src|
        invariant Valid() && k <= |src| && q == i + k && q <= |nodes|
        invariant contents == InsertAt(C, i, src[..k])
        invariant size == old(size) + k
        invariant p == Ring(nodes, dummy, q)
        invariant orig == Ring(nodes, dummy, i)
        invariant hasOrig <==> 0 < k
        invariant !hasOrig ==> orig == pos
        invariant hasOrig ==> fresh(orig)
        invariant RunAt(N0, nodes, i, k)
        invariant fresh(Repr - old(Repr))
      {
        ghost var before := nodes;
        ghost var q0, k0 := q, k;
        p := Emplace(p, q0, src[k]);
        InsertAfterRun(N0, before, nodes, i, k0, q0, p);
        RingInsertAt(before, dummy, q0, p);
        if !hasOrig {
          hasOrig := true;
          orig := p;
        } else {
          RingInsertBefore(before, dummy, q0, p, i);
        }
        k := k + 1;
        q := q + 1;
        InsertRangeGrows(C, i, src, k0, k, q0);
        NextIs(q0, q);
        p := p.next;
      }
      assert src[..k] == src;
      r := orig;
    }

    /** `pos` was at position `i` of the old ring between `pre` and `nxt`,
        which now point at each other; it has been dropped from `nodes` and
        from the footprint, and no other link or value changed. */
    twostate predicate Unlinked(i: nat)
      reads *
    {
      && old(Valid()) && i < |old(nodes)|
      && var N, pre, nxt := old(nodes), Ring(old(nodes), dummy, i - 1), Ring(old(nodes), dummy, i + 1);
      && Distinct(N)
      && nodes == Excise(N, i, i + 1)
      && contents == Excise(old(contents), i, i + 1)
      && size == old(size) - 1
      && Repr == old(Repr) - {N[i]}
      && pre.next == nxt && nxt.prev == pre
      && (forall k :: 0 <= k < |N| && N[k] != pre ==> N[k].next == old(N[k].next))
      && (forall k :: 0 <= k < |N| && N[k] != nxt ==> N[k].prev == old(N[k].prev))
      && (forall k :: 0 <= k < |N| ==> N[k].value == old(N[k].value))
      && (dummy != pre ==> dummy.next == old(dummy.next))
      && (dummy != nxt ==> dummy.prev == old(dummy.prev))
    }

    twostate lemma UnlinkedNext(i: nat)
      requires Unlinked(i)
      ensures forall k {:trigger nodes[k].next} :: 0 <= k < |nodes| ==> nodes[k].next == Ring(nodes, dummy, k + 1)
    {
      var N, pre, nxt := old(nodes), Ring(old(nodes), dummy, i - 1), Ring(old(nodes), dummy, i + 1);
      ExciseAll(N, i, i + 1);
      forall k | 0 <= k < |nodes|
        ensures nodes[k].next == Ring(nodes, dummy, k + 1)
      {
        if k < i - 1 {
          assert nodes[k] == N[k] && N[k] != pre && nodes[k + 1] == N[k + 1];
          assert N[k].next == old(N[k].next);
        } else if k >= i {
          assert nodes[k] == N[k + 1] && N[k + 1] != pre;
          assert N[k + 1].next == old(N[k + 1].next);
        }
      }
    }

    twostate lemma UnlinkedPrev(i: nat)
      requires Unlinked(i)
      ensures forall k {:trigger nodes[k].prev} :: 0 <= k < |nodes| ==> nodes[k].prev == Ring(nodes, dummy, k - 1)
    {
      var N, pre, nxt := old(nodes), Ring(old(nodes), dummy, i - 1), Ring(old(nodes), dummy, i + 1);
      ExciseAll(N, i, i + 1);
      forall k | 0 <= k < |nodes|
        ensures nodes[k].prev == Ring(nodes, dummy, k - 1)
      {
        if k < i {
          assert nodes[k] == N[k] && N[k] != nxt;
          assert N[k].prev == old(N[k].prev);
        } else if k > i {
          assert nodes[k] == N[k + 1] && N[k + 1] != nxt && nodes[k - 1] == N[k];
          assert N[k + 1].prev == old(N[k + 1].prev);
        }
      }
    }

    twostate lemma UnlinkedValues(i: nat)
      requires Unlinked(i)
      ensures forall k :: 0 <= k < |nodes| ==> nodes[k] in Repr && nodes[k].value == contents[k]
    {
      var N, pre, nxt := old(nodes), Ring(old(nodes), dummy, i - 1), Ring(old(nodes), dummy, i + 1);
      ExciseAll(N, i, i + 1);
      ExciseAll(old(contents), i, i + 1);
      forall k | 0 <= k < |nodes|
        ensures nodes[k] in Repr && nodes[k].value == contents[k]
      {
        if k < i {
          assert N[k] != N[i] && N[k].value == old(N[k].value);
        } else {
          assert N[k + 1] != N[i] && N[k + 1].value == old(N[k + 1].value);
        }
      }
    }

    twostate lemma UnlinkedEnds(i: nat)
      requires Unlinked(i)
      ensures Ring(old(nodes), dummy, i + 1) == Ring(nodes, dummy, i)
      ensures dummy.next == Ring(nodes, dummy, 0) && dummy.prev == Ring(nodes, dummy, |nodes| - 1)
    {
      var N, pre, nxt := old(nodes), Ring(old(nodes), dummy, i - 1), Ring(old(nodes), dummy, i + 1);
      RingExcise(N, dummy, i, i + 1);
      if i > 0 {
        ExciseIndex(N, i, i + 1, 0);
        assert dummy != pre;
      }
      if i < |N| - 1 {
        ExciseIndex(N, i, i + 1, |N| - 2);
        assert dummy != nxt;
      } else if i > 0 {
        ExciseIndex(N, i, i + 1, i - 1);
      }
    }

    twostate lemma UnlinkedFrame(i: nat)
      requires Unlinked(i)
      ensures this in Repr && dummy in Repr && dummy !in nodes && |contents| == |nodes| == size
    {
      ExciseMembers(old(nodes), i, i + 1, dummy);
    }

    /** Pointing the neighbours of position `i` at each other and dropping
        that position gives a valid list, in which the node that followed
        is now at position `i`. */
    twostate lemma UnlinkedKeepsValid(i: nat)
      requires Unlinked(i)
      ensures Valid() && Ring(old(nodes), dummy, i + 1) == Ring(nodes, dummy, i)
    {
      UnlinkedNext(i);
      UnlinkedPrev(i);
      UnlinkedValues(i);
      UnlinkedEnds(i);
      UnlinkedFrame(i);
    }

    /** `erase(pos)`: unlinks the node at position `i`, frees it, and
        returns the node that followed it. */
    method Erase(pos: Node<T>, ghost i: nat) returns (r: Node<T>)
      requires Valid() && i < |nodes| && pos == nodes[i]
      modifies Repr
      ensures Valid() && nodes == Excise(old(nodes), i, i + 1)
      ensures contents == Excise(old(contents), i, i + 1)
      ensures size == old(size) - 1
      ensures r == Ring(nodes, dummy, i)
      ensures Repr == old(Repr) - {pos}
    {
      NodesDistinct();
      ghost var N := nodes;
      var node := pos;
      var nxt := node.next;
      var pre := node.prev;
      pre.next := nxt;
      nxt.prev := pre;
      size := size - 1;
      nodes := Excise(nodes, i, i + 1);
      contents := Excise(contents, i, i + 1);
      Repr := Repr - {pos};
      r := nxt;
      UnlinkedKeepsValid(i);
    }

    /** `erase(first, last)`: erases from `first` (position `i`) until it
        reaches `last` (position `j`), and returns `last`. */
    method EraseRange(first: Node<T>, ghost i: nat, last: Node<T>, ghost j: nat) returns (r: Node<T>)
      requires Valid() && i <= j <= |nodes|
      requires first == Ring(nodes, dummy, i) && last == Ring(nodes, dummy, j)
      modifies Repr
      ensures Valid() && nodes == Excise(old(nodes), i, j)
      ensures contents == Excise(old(contents), i, j)
      ensures size == old(size) - (j - i)
      ensures r == last && r == Ring(nodes, dummy, i)
      ensures Repr <= old(Repr)
    {
      NodesDistinct();
      ghost var N, C := nodes, contents;
      var cur := first;
      ghost var k := i;
      assert Excise(N, i, i) == N && Excise(C, i, i) == C;
      while cur != last
        invariant Valid() && i <= k <= j
        invariant nodes == Excise(N, i, k) && contents == Excise(C, i, k)
        invariant cur == Ring(nodes, dummy, i) && cur == Ring(N, dummy, k)
        invariant Repr <= old(Repr)
        decreases j - k
      {
        RingApart(N, dummy, k, j);
        ghost var k0 := k;
        k := k + 1;
        ExciseExtend(N, i, k0, k);
        ExciseExtend(C, i, k0, k);
        cur := Erase(cur, i);
        RingExcise(N, dummy, i, k);
      }
      RingInjective(N, dummy, k, j);
      r := cur;
    }

    /** `pop_front()`: erases `begin()`; `list.hpp` leaves the empty case
        undefined. */
    method PopFront()
      requires Valid() && size > 0
      modifies Repr
      ensures Valid() && contents == old(contents[1..]) && size == old(size) - 1
      ensures Repr <= old(Repr)
    {
      var _ := Erase(dummy.next, 0);
    }

    /** `pop_back()`: erases the node before `end()`. */
    method PopBack()
      requires Valid() && size > 0
      modifies Repr
      ensures Valid() && contents == old(contents[..|contents| - 1]) && size == old(size) - 1
      ensures Repr <= old(Repr)
    {
      var _ := Erase(dummy.prev, |nodes| - 1);
    }

    /** `remove(val)`: erases every node holding `val`, keeping the others
        in order, and returns how many it erased. */
    method Remove(val: T) returns (count: nat)
      requires Valid()
      modifies Repr
      ensures Valid() && contents == RemoveAll(old(contents), val)
      ensures count == multiset(old(contents))[val]
      ensures size == old(size) - count
      ensures Repr <= old(Repr)
      ensures forall x :: x in nodes ==> x in old(nodes)
    {
      ghost var C := contents;
      var first := dummy.next;
      var last := dummy;
      count := 0;
      ghost var t, w := 0, 0;
      ghost var done: seq<T> := [];
      assert C[..0] == [] && C[0..] == C;
      while first != last
        invariant Valid() && t <= |C|
        invariant done == RemoveAll(C[..t], val)
        invariant contents == done + C[t..] && w == |done|
        invariant first == Ring(nodes, dummy, w) && count + w == t
        invariant Repr <= old(Repr)
        invariant forall x :: x in nodes ==> x in old(nodes)
        decreases |C| - t
      {
        RingApart(nodes, dummy, w, |nodes|);
        ghost var t0, w0, d0 := t, w, done;
        t := t + 1;
        ShiftHead(d0, C, t0, t);
        RemoveAllPrefix(C, t0, t, val);
        if first.value == val {
          ExciseAfter(d0, C, t0, t);
          first := Erase(first, w0);
          count := count + 1;
        } else {
          done := d0 + [C[t0]];
          w := w + 1;
          NextIs(w0, w);
          first := first.next;
        }
      }
      assert C[..t] == C && C[t..] == [];
      RemoveAllDeletes(C, val);
    }

    /** `remove_if(pred)`: erases every node whose value satisfies `p`,
        keeping the others in order, and returns how many it erased. */
    method RemoveIf(p: T -> bool) returns (count: nat)
      requires Valid()
      modifies Repr
      ensures Valid() && contents == RemoveWhere(old(contents), p)
      ensures count == CountWhere(old(contents), p)
      ensures size == old(size) - count
      ensures Repr <= old(Repr)
      ensures forall x :: x in nodes ==> x in old(nodes)
    {
      ghost var C := contents;
      var first := dummy.next;
      var last := dummy;
      count := 0;
      ghost var t, w := 0, 0;
      ghost var done: seq<T> := [];
      assert C[..0] == [] && C[0..] == C;
      while first != last
        invariant Valid() && t <= |C|
        invariant done == RemoveWhere(C[..t], p) && count == CountWhere(C[..t], p)
        invariant contents == done + C[t..] && w == |done|
        invariant first == Ring(nodes, dummy, w) && count + w == t
        invariant Repr <= old(Repr)
        invariant forall x :: x in nodes ==> x in old(nodes)
        decreases |C| - t
      {
        RingApart(nodes, dummy, w, |nodes|);
        ghost var t0, w0, d0 := t, w, done;
        t := t + 1;
        ShiftHead(d0, C, t0, t);
        RemoveWherePrefix(C, t0, t, p);
        if p(first.value) {
          ExciseAfter(d0, C, t0, t);
          first := Erase(first, w0);
          count := count + 1;
        } else {
          done := d0 + [C[t0]];
          w := w + 1;
          NextIs(w0, w);
          first := first.next;
        }
      }
      assert C[..t] == C && C[t..] == [];
    }
  }

  /** Lines 12-13 of the list test: erasing the first two of
      {1, 2, 4, 5, 6} leaves {4, 5, 6}. */
  method TestErasePrefix() returns (arr: List<int>)
    ensures arr.Valid() && fresh(arr.Repr) && arr.contents == [4, 5, 6]
  {
    arr := new List<int>.OfRange([1, 2, 4, 5, 6]);
    var first := arr.dummy.next;
    arr.NextIs(0, 1);
    arr.NextIs(1, 2);
    var last := first.next.next;
    var _ := arr.EraseRange(first, 0, last, 2);
    assert Excise([1, 2, 4, 5, 6], 0, 2) == [4, 5, 6];
  }

  /** Lines 14-17 of the list test: {40, 41, 42} goes in front, then
      100..102 at the back, one at a time. */
  method TestInsertPushBack(arr: List<int>)
    requires arr.Valid() && arr.contents == [4, 5, 6]
    modifies arr.Repr
    ensures arr.Valid() && arr.contents == [40, 41, 42, 4, 5, 6, 100, 101, 102]
    ensures fresh(arr.Repr - old(arr.Repr))
  {
    var _ := arr.InsertRange(arr.dummy.next, 0, [40, 41, 42]);
    ghost var mid := arr.contents;
    assert mid == [40, 41, 42, 4, 5, 6];
    for i := 0 to 3
      invariant arr.Valid() && fresh(arr.Repr - old(arr.Repr))
      invariant arr.contents == mid + seq(i, k => 100 + k)
    {
      arr.PushBack(100 + i);
    }
  }

  /** Lines 18-20 of the list test: 200..202 go in front, one at a time,
      so they end up in reverse order. */
  method TestPushFront(arr: List<int>)
    requires arr.Valid() && arr.contents == [40, 41, 42, 4, 5, 6, 100, 101, 102]
    modifies arr.Repr
    ensures arr.Valid() && arr.contents == [202, 201, 200, 40, 41, 42, 4, 5, 6, 100, 101, 102]
    ensures fresh(arr.Repr - old(arr.Repr))
  {
    ghost var mid := arr.contents;
    for i := 0 to 3
      invariant arr.Valid() && fresh(arr.Repr - old(arr.Repr))
      invariant |arr.contents| == i + |mid| && arr.contents[i..] == mid
      invariant forall k :: 0 <= k < i ==> arr.contents[k] == 200 + i - 1 - k
    {
      arr.PushFront(200 + i);
    }
  }

  /** Lines 27-39 of the list test: a copy walked backwards yields the
      values in reverse; erased from its second position to the end it
      keeps one element; erasing that one empties it. */
  method TestCopyErase(arr: List<int>) returns (backward: seq<int>, n1: nat, e1: bool, n2: nat, e2: bool)
    requires arr.Valid() && |arr.contents| > 0
    ensures backward == Reverse(arr.contents)
    ensures n1 == 1 && !e1 && n2 == 0 && e2
  {
    var arr2 := new List<int>.Copy(arr);
    backward := arr2.ReverseValues();
    arr2.NextIs(0, 1);
    var second := arr2.dummy.next.next;
    var _ := arr2.EraseRange(second, 1, arr2.dummy, |arr2.nodes|);
    n1, e1 := arr2.Size(), arr2.Empty();
    var _ := arr2.Erase(arr2.dummy.next, 0);
    n2, e2 := arr2.Size(), arr2.Empty();
  }

  /** The list test without its printing: the twelve values walked
      forwards, the copy walked backwards, `arr.size()`, the copy's sizes
      and emptiness after its two erasures, and the size of
      `list<int>(3)`, which holds three zeros. */
  method ListTest() returns (filled: seq<int>, backward: seq<int>, n0: nat, n1: nat, e1: bool, n2: nat, e2: bool, n3: nat)
    ensures filled == [202, 201, 200, 40, 41, 42, 4, 5, 6, 100, 101, 102]
    ensures backward == [102, 101, 100, 6, 5, 4, 42, 41, 40, 200, 201, 202]
    ensures n0 == 12 && n1 == 1 && !e1 && n2 == 0 && e2 && n3 == 3
  {
    var arr := TestErasePrefix();
    TestInsertPushBack(arr);
    TestPushFront(arr);
    filled := arr.Values();
    backward, n1, e1, n2, e2 := TestCopyErase(arr);
    assert backward == [102, 101, 100, 6, 5, 4, 42, 41, 40, 200, 201, 202];
    n0 := arr.Size();
    var arr3 := new List<int>.OfSize(3, 0);
    n3 := arr3.Size();
  }
}
