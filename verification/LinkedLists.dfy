/**
  The doubly linked list library of libs/common/finstypes.c: nodes as heap objects, the list as an
  object with the struct's fields and the ghost sequence of its nodes.
 */
module LinkedLists {
  import opened Prelude
  import ListOrder

  /** struct list_node; no function of the library changes the data of a node. */
  class Node<T(==)> {
    var next: Node?<T>
    var prev: Node?<T>
    const data: T
    ghost var owner: LinkedList?<T>  // the list this node is linked into

    constructor (data: T)
      ensures this.data == data && next == null && prev == null && owner == null
    {
      this.data, next, prev, owner := data, null, null, null;
    }
  }

  /** p holds at position k and nowhere before it. */
  predicate FirstAt<X>(xs: seq<X>, p: X -> bool, k: int) {
    0 <= k < |xs| && p(xs[k]) && forall j :: 0 <= j < k ==> !p(xs[j])
  }

  /** The first element p holds of. */
  function First<X>(xs: seq<X>, p: X -> bool): (r: Option<X>)
    ensures r.Some? ==> exists k :: FirstAt(xs, p, k) && xs[k] == r.value
    ensures r.None? ==> forall k :: 0 <= k < |xs| ==> !p(xs[k])
  {
    if xs == [] then None
    else if p(xs[0]) then assert FirstAt(xs, p, 0); Some(xs[0])
    else
      var r := First(xs[1..], p);
      assert forall j :: 1 <= j < |xs| ==> xs[j] == xs[1..][j - 1];
      assert forall k :: FirstAt(xs[1..], p, k) ==> FirstAt(xs, p, k + 1);
      r
  }

  /** xs without its first occurrence of x. */
  function Without<X(==)>(xs: seq<X>, x: X): seq<X> {
    if xs == [] then []
    else if xs[0] == x then xs[1..]
    else [xs[0]] + Without(xs[1..], x)
  }

  /** Copies, made by f, of the elements p holds of, in order. */
  function Picked<X>(xs: seq<X>, p: X -> bool, f: X -> X): seq<X> {
    if xs == [] then []
    else (if p(xs[0]) then [f(xs[0])] else []) + Picked(xs[1..], p, f)
  }

  function MapSeq<X, Y>(xs: seq<X>, f: X -> Y): (r: seq<Y>)
    ensures |r| == |xs| && forall i :: 0 <= i < |xs| ==> r[i] == f(xs[i])
  {
    seq(|xs|, i requires 0 <= i < |xs| => f(xs[i]))
  }

  ghost function DataOf<T>(nodes: seq<Node<T>>): (ds: seq<T>)
    ensures |ds| == |nodes| && forall i :: 0 <= i < |ds| ==> ds[i] == nodes[i].data
  {
    seq(|nodes|, i requires 0 <= i < |nodes| => nodes[i].data)
  }

  /** The nodes for whose data `equal` answers b, in order. */
  ghost function Chosen<T>(nodes: seq<Node<T>>, equal: T -> bool, b: bool): seq<Node<T>> {
    if nodes == [] then []
    else if equal(nodes[0].data) == b then [nodes[0]] + Chosen(nodes[1..], equal, b)
    else Chosen(nodes[1..], equal, b)
  }

  /** An acyclic chain: consecutive nodes point at each other, the ends point nowhere. */
  ghost predicate Chained<T>(nodes: seq<Node<T>>)
    reads nodes
  {
    && (forall i {:trigger nodes[i].next} :: 0 <= i < |nodes| ==>
          nodes[i].next == if i + 1 < |nodes| then nodes[i + 1] else null)
    && (forall i {:trigger nodes[i].prev} :: 0 <= i < |nodes| ==>
          nodes[i].prev == if i > 0 then nodes[i - 1] else null)
  }

  /** A chain has no node twice: following prev from two places at once would reach null at different times. */
  lemma {:induction false} ChainedAt<T>(nodes: seq<Node<T>>, i: nat, j: nat)
    requires Chained(nodes) && i < j < |nodes|
    ensures nodes[i] != nodes[j]
    decreases i
  {
    if i > 0 {
      ChainedAt(nodes, i - 1, j - 1);
      assert nodes[i].prev == nodes[i - 1] && nodes[j].prev == nodes[j - 1];
    } else {
      assert nodes[i].prev == null && nodes[j].prev == nodes[j - 1];
    }
  }

  lemma ChainedDistinct<T>(nodes: seq<Node<T>>)
    requires Chained(nodes)
    ensures forall i, j :: 0 <= i < j < |nodes| ==> nodes[i] != nodes[j]
  {
    forall i, j | 0 <= i < j < |nodes| ensures nodes[i] != nodes[j] { ChainedAt(nodes, i, j); }
  }

  /** struct linked_list */
  class LinkedList<T(==)> {
    const max: nat
    var len: nat
    var front: Node?<T>
    var end: Node?<T>
    ghost var nodes: seq<Node<T>>

    /** The chain is well formed, belongs to this list, and front and end are its ends. */
    ghost predicate Linked()
      reads this, nodes
    {
      && Chained(nodes)
      && (forall i {:trigger nodes[i].owner} :: 0 <= i < |nodes| ==> nodes[i].owner == this)
      && front == (if nodes == [] then null else nodes[0])
      && end == (if nodes == [] then null else nodes[|nodes| - 1])
      && max < U32
    }

    ghost predicate Valid()
      reads this, nodes
    {
      Linked() && len == |nodes| < U32
    }

    ghost function Contents(): seq<T>
      reads this
    {
      DataOf(nodes)
    }

    /** list_create */
    constructor (max: nat)
      requires max < U32
      ensures Valid() && nodes == [] && this.max == max
    {
      this.max := max;
      len, front, end, nodes := 0, null, null, [];
    }

    /** list_prepend; len is a __u32 */
    method Prepend(data: T)
      requires Valid()
      modifies this, nodes
      ensures Linked() && len == (old(len) + 1) % U32 && (Valid() <==> old(len) + 1 < U32)
      ensures |nodes| == |old(nodes)| + 1 && fresh(nodes[0]) && nodes[1..] == old(nodes)
      ensures Contents() == [data] + old(Contents())
    {
      ghost var was := nodes;
      var node := new Node(data);
      LinkFirst(node);
      DataOfFirst(node, was);
    }

    /** The assignments by which list_prepend hangs a node before the first one. */
    method LinkFirst(node: Node<T>)
      requires Valid() && node.owner == null
      modifies this, nodes, node
      ensures Linked() && len == (old(len) + 1) % U32 && (Valid() <==> old(len) + 1 < U32)
      ensures nodes == [node] + old(nodes)
    {
      ghost var was := nodes;
      if len == 0 {
        node.next, node.prev := front, null;
        end := node;
      } else {
        LinkBefore(node, front, was);
      }
      front := node;
      len := (len + 1) % U32;
      node.owner := this;
      nodes := [node] + was;
    }

    /** list_append; len is a __u32 */
    method Append(data: T)
      requires Valid()
      modifies this, nodes
      ensures Linked() && len == (old(len) + 1) % U32 && (Valid() <==> old(len) + 1 < U32)
      ensures |nodes| == |old(nodes)| + 1 && nodes[..|old(nodes)|] == old(nodes) && fresh(nodes[|old(nodes)|])
      ensures Contents() == old(Contents()) + [data]
    {
      var node := new Node(data);
      LinkLast(node);
    }

    /** The assignments by which list_append and list_remove_all hang a node behind the last one. */
    method LinkLast(node: Node<T>)
      requires Valid() && node.owner == null
      modifies this, nodes, node
      ensures Linked() && len == (old(len) + 1) % U32 && (Valid() <==> old(len) + 1 < U32)
      ensures nodes == old(nodes) + [node]
    {
      ChainedDistinct(nodes);
      node.next := null;
      if len == 0 {
        node.prev := null;
        front := node;
      } else {
        node.prev := end;
        end.next := node;
      }
      end := node;
      len := (len + 1) % U32;
      node.owner := this;
      nodes := nodes + [node];
    }

    /** list_remove_front; NULL when the list is empty */
    method RemoveFront() returns (data: Option<T>)
      requires Valid()
      modifies this, nodes
      ensures Valid()
      ensures old(nodes) == [] ==> data.None? && nodes == []
      ensures old(nodes) != [] ==> data == Some(old(Contents())[0]) && nodes == old(nodes)[1..]
      ensures old(nodes) != [] ==> Contents() == old(Contents())[1..]
    {
      if len == 0 { return None; }
      ChainedDistinct(nodes);
      var node := front;
      if end == node {
        front, end := null, null;
      } else {
        front := node.next;
        front.prev := null;
      }
      len := len - 1;
      nodes := nodes[1..];
      return Some(node.data);
    }

    /** list_remove and list_remove_all take out a node that has neighbours on both sides. */
    method UnlinkInside(node: Node<T>, ghost before: seq<Node<T>>, ghost after: seq<Node<T>>)
      requires Valid() && nodes == before + [node] + after && before != [] && after != []
      modifies this, nodes
      ensures Valid() && nodes == before + after && node.owner == null
    {
      AroundNode(nodes, before, node, after);
      Bypass(node, before, after, before[|before| - 1], after[0]);
      len := len - 1;
      node.owner := null;
      nodes := before + after;
    }

    /** They take out the first node, the last one, or the only one. */
    method UnlinkAtEnd(node: Node<T>, ghost before: seq<Node<T>>, ghost after: seq<Node<T>>)
      requires Valid() && nodes == before + [node] + after && (before == [] || after == [])
      modifies this, nodes
      ensures Valid() && nodes == before + after && node.owner == null
    {
      ghost var k, was := |before|, nodes;
      assert was[k] == node;
      ChainedDistinct(nodes);
      if front == node {
        if end == node {
          front, end := null, null;
        } else {
          front := front.next;
          front.prev := null;
        }
      } else {
        end := node.prev;
        end.next := null;
      }
      len := len - 1;
      node.owner := null;
      nodes := before + after;
      assert forall j {:trigger nodes[j]} :: 0 <= j < |nodes| ==> nodes[j] == was[if j < k then j else j + 1];
    }

    /** The cases in which list_remove and list_remove_all take a node out of the chain. */
    method Unlink(node: Node<T>, ghost before: seq<Node<T>>, ghost after: seq<Node<T>>)
      requires Valid() && nodes == before + [node] + after
      modifies this, nodes
      ensures Valid() && nodes == before + after && node.owner == null
    {
      assert nodes[|before|] == node;
      ChainedDistinct(nodes);
      if front == node || end == node {
        UnlinkAtEnd(node, before, after);
      } else {
        UnlinkInside(node, before, after);
      }
    }

    /** list_remove */
    method Remove(data: T)
      requires Valid()
      modifies this, nodes
      ensures Valid() && Contents() == Without(old(Contents()), data)
      ensures data !in old(Contents()) ==> nodes == old(nodes)
      ensures data in old(Contents()) ==>
        exists k :: 0 <= k < |old(nodes)| && old(nodes)[k].data == data && data !in old(Contents())[..k]
                    && nodes == old(nodes)[..k] + old(nodes)[k + 1..]
    {
      ghost var ds := Contents();
      if len == 0 { return; }
      var node, i := FindNode(data);
      if node != null {
        WithoutAt(ds, data, i);
        UnlinkAt(node, i);
      } else {
        assert ds[..i] == ds;
        WithoutAbsent(ds, data);
      }
    }

    /** The walk of list_remove to the first node with this data. */
    method FindNode(data: T) returns (node: Node?<T>, ghost i: nat)
      requires Valid()
      ensures i <= |nodes| && node == (if i < |nodes| then nodes[i] else null) && data !in Contents()[..i]
      ensures node != null ==> node.data == data
    {
      node := front;
      i := 0;
      while node != null
        invariant i <= |nodes| && node == (if i < |nodes| then nodes[i] else null) && data !in Contents()[..i]
        decreases |nodes| - i
      {
        if node.data == data { return; }
        node := node.next;
        i := i + 1;
      }
    }

    method UnlinkAt(node: Node<T>, ghost i: nat)
      requires Valid() && i < |nodes| && node == nodes[i]
      modifies this, nodes
      ensures Valid() && nodes == old(nodes)[..i] + old(nodes)[i + 1..]
      ensures Contents() == old(Contents())[..i] + old(Contents())[i + 1..]
    {
      DataOfRest(nodes, i);
      assert nodes == nodes[..i] + [node] + nodes[i + 1..];
      Unlink(node, nodes[..i], nodes[i + 1..]);
    }

    /** list_find and list_find1 with its parameter bound */
    method Find(equal: T -> bool) returns (data: Option<T>)
      requires Valid()
      ensures data == First(Contents(), equal)
    {
      var comp := front;
      ghost var i := 0;
      while comp != null
        invariant 0 <= i <= |nodes| && comp == (if i < |nodes| then nodes[i] else null)
        invariant First(Contents(), equal) == First(Contents()[i..], equal)
        decreases |nodes| - i
      {
        var next := comp.next;
        if equal(comp.data) {
          return Some(comp.data);
        } else {
          comp := next;
          i := i + 1;
        }
      }
      return None;
    }

    /** A copy of `data` at the end of the result of list_filter, if `equal` accepts it. */
    method AppendPicked(data: T, equal: T -> bool, clone: T -> T)
      requires Valid() && len + 1 < U32
      modifies this, nodes
      ensures Valid() && old(nodes) <= nodes && |nodes| <= |old(nodes)| + 1
      ensures |nodes| > |old(nodes)| ==> fresh(nodes[|old(nodes)|])
      ensures Contents() == old(Contents()) + Picked([data], equal, clone)
    {
      if equal(data) {
        Append(clone(data));
      }
    }

    /** The loop of list_filter. */
    method CopyInto(ret: LinkedList<T>, equal: T -> bool, clone: T -> T)
      requires Valid() && ret.Valid() && ret != this && ret.nodes == []
      modifies ret
      ensures ret.Valid() && fresh(ret.nodes) && ret.Contents() == Picked(Contents(), equal, clone)
    {
      var comp := front;
      ghost var i := 0;
      ghost var ds := Contents();
      while comp != null
        invariant 0 <= i <= |nodes| && comp == (if i < |nodes| then nodes[i] else null)
        invariant fresh(ret.nodes) && ret.Valid() && |ret.nodes| <= i
        invariant ret.Contents() == Picked(ds[..i], equal, clone)
        decreases |nodes| - i
      {
        var next := comp.next;
        PickedNext(ds, i, equal, clone);
        ret.AppendPicked(comp.data, equal, clone);
        comp := next;
        i := i + 1;
      }
      assert ds[..i] == ds;
    }

    /** list_filter and list_filter1 with its parameter bound */
    method FilterClone(equal: T -> bool, clone: T -> T) returns (ret: LinkedList<T>)
      requires Valid()
      ensures fresh(ret) && fresh(ret.nodes) && ret.Valid() && ret.max == max
      ensures ret.Contents() == Picked(Contents(), equal, clone)
    {
      ret := new LinkedList<T>(max);
      CopyInto(ret, equal, clone);
    }

    /** list_clone, which is list_filter with a test that always holds */
    method Clone(clone: T -> T) returns (ret: LinkedList<T>)
      requires Valid()
      ensures fresh(ret) && fresh(ret.nodes) && ret.Valid() && ret.max == max
      ensures ret.Contents() == MapSeq(Contents(), clone)
    {
      var always := (_: T) => true;
      ret := FilterClone(always, clone);
      PickedAll(Contents(), always, clone);
    }

    /** One node leaves this list and joins the end of `ret`; both lists draw their nodes from `pool`. */
    method MoveTo(ret: LinkedList<T>, node: Node<T>, ghost before: seq<Node<T>>, ghost after: seq<Node<T>>,
                  ghost pool: set<Node<T>>)
      requires Valid() && ret.Valid() && ret != this && nodes == before + [node] + after && ret.len + 1 < U32
      requires Within(nodes, pool) && Within(ret.nodes, pool)
      modifies this, ret, pool
      ensures Valid() && nodes == before + after
      ensures ret.Valid() && ret.nodes == old(ret.nodes) + [node]
      ensures Within(nodes, pool) && Within(ret.nodes, pool)
    {
      WithinWithout(before, node, after, pool);
      DisjointLists(this, ret);
      Unlink(node, before, after);
      DisjointLists(this, ret);
      ret.LinkLast(node);
    }

    /** One turn of the loop of list_remove_all. */
    method SiftOne(ret: LinkedList<T>, comp: Node<T>, equal: T -> bool,
                   ghost kept: seq<Node<T>>, ghost after: seq<Node<T>>, ghost pool: set<Node<T>>)
      returns (next: Node?<T>)
      requires Valid() && ret.Valid() && ret != this && nodes == kept + [comp] + after && ret.len + 1 < U32
      requires Within(nodes, pool) && Within(ret.nodes, pool)
      modifies this, ret, pool
      ensures Valid() && ret.Valid() && Within(nodes, pool) && Within(ret.nodes, pool)
      ensures next == if after == [] then null else after[0]
      ensures nodes == (if equal(comp.data) then kept else kept + [comp]) + after
      ensures ret.nodes == if equal(comp.data) then old(ret.nodes) + [comp] else old(ret.nodes)
    {
      NextInChain(nodes, kept, comp, after);
      next := comp.next;
      if equal(comp.data) {
        MoveTo(ret, comp, kept, after, pool);
      }
    }

    /** The loop of list_remove_all. */
    method SiftAll(ret: LinkedList<T>, equal: T -> bool, ghost all: seq<Node<T>>, ghost pool: set<Node<T>>)
      requires Valid() && ret.Valid() && ret != this && nodes == all && ret.nodes == []
      requires Within(nodes, pool)
      modifies this, ret, pool
      ensures Valid() && ret.Valid()
      ensures nodes == Chosen(all, equal, false) && ret.nodes == Chosen(all, equal, true)
    {
      var comp := front;
      ghost var kept: seq<Node<T>>, rest := [], all;
      while comp != null
        invariant Valid() && ret.Valid() && Within(nodes, pool) && Within(ret.nodes, pool)
        invariant nodes == kept + rest && comp == (if rest == [] then null else rest[0])
        invariant |ret.nodes| + |rest| < U32
        invariant kept + Chosen(rest, equal, false) == Chosen(all, equal, false)
        invariant ret.nodes + Chosen(rest, equal, true) == Chosen(all, equal, true)
        decreases |rest|
      {
        ghost var first, after := rest[0], rest[1..];
        HeadSplit(kept, rest);
        ChosenStep(kept, ret.nodes, first, after, equal);
        comp := SiftOne(ret, comp, equal, kept, after, pool);
        kept := if equal(first.data) then kept else kept + [first];
        rest := after;
      }
    }

    /** list_remove_all: an in-place stable partition */
    method RemoveAll(equal: T -> bool) returns (ret: LinkedList<T>)
      requires Valid()
      modifies this, nodes
      ensures fresh(ret) && ret.max == max && Valid() && ret.Valid()
      ensures nodes == Chosen(old(nodes), equal, false)
      ensures ret.nodes == Chosen(old(nodes), equal, true)
    {
      ret := new LinkedList<T>(max);
      SiftAll(ret, equal, nodes, set n | n in nodes);
    }

    /** list_space, in 32-bit unsigned arithmetic */
    function Space(): nat
      reads this
    {
      (max - len) % U32
    }

    /** The walk of list_join and list_split to the node at index k. */
    method Walk(k: nat) returns (comp: Node?<T>)
      requires Linked()
      ensures comp == if k < |nodes| then nodes[k] else null
    {
      var i := 0;
      comp := front;
      while comp != null
        invariant 0 <= i <= k && i <= |nodes| && comp == if i < |nodes| then nodes[i] else null
        decreases |nodes| - i
      {
        if i == k { break; }
        comp := comp.next;
        i := i + 1;
      }
    }

    /** The first k nodes leave the list, still chained to each other; `comp` is the first to stay. */
    method CutOff(k: nat, comp: Node<T>) returns (first: Node<T>, last: Node<T>)
      requires Valid() && 0 < k < |nodes| && comp == nodes[k]
      modifies this, nodes
      ensures Valid() && nodes == old(nodes)[k..]
      ensures Loose(old(nodes)[..k]) && first == old(nodes)[0] && last == old(nodes)[k - 1]
    {
      ghost var was := nodes;
      ChainedDistinct(was);
      first, last := front, comp.prev;
      comp.prev.next := null;
      comp.prev := null;
      front := comp;
      len := len - k;
      forall i | 0 <= i < k { was[i].owner := null; }
      nodes := was[k..];
    }

    /** Loose nodes are hung behind the last node; len is left to the caller. */
    method Attach(first: Node<T>, last: Node<T>, ghost moved: seq<Node<T>>)
      requires Linked() && Loose(moved) && moved != [] && first == moved[0] && last == moved[|moved| - 1]
      requires len == 0 <==> nodes == []
      modifies this`front, this`end, this`nodes, nodes, moved
      ensures Linked() && nodes == old(nodes) + moved
    {
      ghost var mine := nodes;
      ChainedDistinct(mine);
      ChainedDistinct(moved);
      DisjointLoose(this, moved);
      if len == 0 {
        front := first;
      } else {
        end.next := first;
        first.prev := end;
      }
      end := last;
      forall i | 0 <= i < |moved| { moved[i].owner := this; }
      nodes := mine + moved;
    }

    /** The branch of list_join in which all of `other` fits. */
    method JoinAll(other: LinkedList<T>)
      requires Valid() && other.Valid() && other != this && other.nodes != []
      modifies this, nodes, other, other.nodes
      ensures Linked() && nodes == old(nodes) + old(other.nodes) && len == (old(len) + old(other.len)) % U32
      ensures other.Valid() && other.nodes == []
    {
      DisjointLists(this, other);
      var first, last := other.Vacate();
      Attach(first, last, old(other.nodes));
      len := (len + other.len) % U32;
      other.len := 0;
    }

    /** All nodes leave the list; len is left to the caller. */
    method Vacate() returns (first: Node<T>, last: Node<T>)
      requires Valid() && nodes != []
      modifies this`front, this`end, this`nodes, nodes
      ensures Linked() && nodes == []
      ensures Loose(old(nodes)) && first == old(nodes)[0] && last == old(nodes)[|old(nodes)| - 1]
    {
      first, last := front, end;
      front, end := null, null;
      forall i | 0 <= i < |nodes| { nodes[i].owner := null; }
      nodes := [];
    }

    /** The branch of list_join in which only `space` nodes of `other` fit; len is not raised. */
    method JoinSome(other: LinkedList<T>, space: nat)
      requires Valid() && other.Valid() && other != this && 0 < space < other.len
      modifies this, nodes, other, other.nodes
      ensures Linked() && nodes == old(nodes) + old(other.nodes)[..space] && len == old(len)
      ensures other.Valid() && other.nodes == old(other.nodes)[space..]
    {
      DisjointLists(this, other);
      var comp := other.Walk(space);
      var first, last := other.CutOff(space, comp);
      DisjointLists(this, other);
      DisjointLoose(other, old(other.nodes)[..space]);
      Attach(first, last, old(other.nodes)[..space]);
    }

    /**
      list_join. The nodes of `other` that fit are moved, in order; the result says whether all did. In
      the branch where only some fit, len is not raised, so the list stays well formed exactly when all
      fit, and their number fits a __u32, or there is no space at all.
     */
    method Join(other: LinkedList<T>) returns (all: bool)
      requires Valid() && other.Valid() && other != this
      modifies this, nodes, other, other.nodes
      ensures Linked() && other.Valid()
      ensures var k := if old(other.len) <= old(Space()) then old(other.len) else old(Space());
        && nodes == old(nodes) + old(other.nodes)[..k] && other.nodes == old(other.nodes)[k..]
        && all == (k == old(other.len)) && len == (old(len) + if all then k else 0) % U32
      ensures Valid() <==>
        (old(other.len) <= old(Space()) && old(len) + old(other.len) < U32) || old(Space()) == 0
    {
      if other.len == 0 { return true; }
      var space := Space();
      if other.len <= space {
        JoinAll(other);
        return true;
      } else if space > 0 {
        JoinSome(other, space);
        return false;
      }
      return false;
    }

    /** The nodes after `comp`, the one at index k - 1, leave the list, still chained to each other. */
    method CutTail(k: nat, comp: Node<T>) returns (first: Node<T>, last: Node<T>)
      requires Valid() && 0 < k < |nodes| && comp == nodes[k - 1]
      modifies this, nodes
      ensures Valid() && nodes == old(nodes)[..k]
      ensures Loose(old(nodes)[k..]) && first == old(nodes)[k] && last == old(nodes)[|old(nodes)| - 1]
    {
      ghost var was := nodes;
      ChainedDistinct(was);
      first, last := comp.next, end;
      first.prev := null;
      end := comp;
      comp.next := null;
      len := k;
      forall i | k <= i < |was| { was[i].owner := null; }
      nodes := was[..k];
    }

    /**
      list_split: the nodes after `index` move to the result. index + 1 is computed in 32 bits, so with
      the largest index on a list that is not empty the walk runs off the end; `fault` stands for the
      access through NULL that follows.
     */
    method Split(index: nat) returns (ret: LinkedList<T>, fault: bool)
      requires Valid() && index < U32
      modifies this, nodes
      ensures fault <==> index + 1 == U32 && old(nodes) != []
      ensures fresh(ret) && ret.max == max && Valid() && ret.Valid()
      ensures !fault ==>
        var k := if index + 1 < |old(nodes)| then index + 1 else |old(nodes)|;
        nodes == old(nodes)[..k] && ret.nodes == old(nodes)[k..]
    {
      ret := new LinkedList<T>(max);
      fault := false;
      if (index + 1) % U32 < len {
        var comp := Walk(index);
        if comp == null { return ret, true; }
        TailInto(ret, index, comp);
      }
    }

    /** The assignments of list_split. */
    method TailInto(ret: LinkedList<T>, index: nat, comp: Node<T>)
      requires Valid() && index + 1 < |nodes| && comp == nodes[index]
      requires ret.Valid() && ret.nodes == [] && ret != this
      modifies this, nodes, ret
      ensures Valid() && nodes == old(nodes)[..index + 1]
      ensures ret.Valid() && ret.nodes == old(nodes)[index + 1..]
    {
      ghost var tail := nodes[index + 1..];
      var count := len - (index + 1);
      var first, last := CutTail(index + 1, comp);
      DisjointLoose(this, tail);
      ret.Attach(first, last, tail);
      ret.len := count;
    }

    /** Splitting and joining again gives back the same nodes, if the list respected its maximum. */
    method SplitThenJoin(index: nat) returns (all: bool)
      requires Valid() && index + 1 < U32 && len <= max
      modifies this, nodes
      ensures Valid() && nodes == old(nodes) && all
    {
      var rest, fault := Split(index);
      all := Join(rest);
    }

    /** A new node between two neighbours, as list_add puts it there. */
    method InsertBetween(temp: Node<T>, data: T, ghost a: seq<Node<T>>, ghost b: seq<Node<T>>)
      requires Valid() && nodes == a + b && a != [] && b != [] && temp == a[|a| - 1]
      modifies this, nodes
      ensures Linked() && len == (old(len) + 1) % U32 && (Valid() <==> old(len) + 1 < U32)
      ensures |nodes| == |a| + 1 + |b| && nodes[..|a|] == a && nodes[|a| + 1..] == b
      ensures nodes[|a|].data == data && fresh(nodes[|a|])
    {
      var node := new Node(data);
      LinkInside(node, temp, a, b);
    }

    method LinkInside(node: Node<T>, temp: Node<T>, ghost a: seq<Node<T>>, ghost b: seq<Node<T>>)
      requires Valid() && nodes == a + b && a != [] && b != [] && temp == a[|a| - 1] && node.owner == null
      modifies this, nodes, node
      ensures Linked() && len == (old(len) + 1) % U32 && (Valid() <==> old(len) + 1 < U32)
      ensures nodes == a + [node] + b
    {
      assert nodes[|a| - 1] == temp && nodes[|a|] == b[0];
      BetweenIndex(a, node, b);
      LinkBetween(node, temp, a, b, b[0]);
      len := (len + 1) % U32;
      node.owner := this;
      nodes := a + [node] + b;
    }

    /** The scan of list_add from the second element on: the node before the place, and the last answer. */
    method FindPlace(data: T, comparer: (T, T) -> int) returns (temp: Node<T>, ret: int, ghost k: nat)
      requires Valid() && nodes != []
      ensures k == ListOrder.Stop(Contents(), data, comparer, 1)
      ensures k < |nodes| ==> temp == nodes[k - 1] && ret == comparer(data, Contents()[k])
      ensures k == |nodes| ==> ret == 1
    {
      temp := front;
      k := 1;
      while temp.next != null
        invariant 0 < k <= |nodes| && temp == nodes[k - 1]
        invariant ListOrder.Stop(Contents(), data, comparer, 1) == ListOrder.Stop(Contents(), data, comparer, k)
        decreases |nodes| - k
      {
        ret := comparer(data, temp.next.data);
        if ret == -1 || ret == 0 { return; }
        temp := temp.next;
        k := k + 1;
      }
      ret := 1;
    }

    /** The rest of list_add once front and end have been ruled out. */
    method AddInside(data: T, comparer: (T, T) -> int) returns (o: ListOrder.Outcome)
      requires Valid() && nodes != []
      modifies this, nodes
      ensures Linked() && (Valid() <==> !(o.Added? && old(len) + 1 == U32))
      ensures var s, k := old(Contents()), ListOrder.Stop(old(Contents()), data, comparer, 1);
        if k == |s| then o.NoPlace? && nodes == old(nodes)
        else if comparer(data, s[k]) == -1 then o.Added? && Contents() == ListOrder.InsertAt(s, k, data)
        else o.Refused? && nodes == old(nodes)
    {
      var temp, ret, k := FindPlace(data, comparer);
      if ret == -1 {
        ghost var was := nodes;
        InsertBetween(temp, data, was[..k], was[k..]);
        DataInsert(was, nodes, k);
        return ListOrder.Added;
      } else if ret == 0 {
        return ListOrder.Refused;
      }
      return ListOrder.NoPlace;
    }

    /** list_add */
    method Add(data: T, comparer: (T, T) -> int) returns (o: ListOrder.Outcome)
      requires Valid()
      modifies this, nodes
      ensures (o, Contents()) == ListOrder.AddTo(old(Contents()), data, comparer)
      ensures Linked() && (Valid() <==> !(o.Added? && old(len) + 1 == U32))
    {
      ghost var s := Contents();
      if len == 0 {
        Append(data);
        assert Contents() == [data];
        return ListOrder.Added;
      }
      var ret := comparer(data, front.data);
      if ret == -1 {
        Prepend(data);
        assert Contents() == ListOrder.InsertAt(s, 0, data);
        return ListOrder.Added;
      } else if ret == 0 {
        return ListOrder.Refused;
      }
      ret := comparer(data, end.data);
      if ret == 1 {
        Append(data);
        assert Contents() == ListOrder.InsertAt(s, |s|, data);
        return ListOrder.Added;
      } else if ret == 0 {
        return ListOrder.Refused;
      }
      o := AddInside(data, comparer);
    }
  }

  /** The two assignments that lead the chain past a node. */
  method Bypass<T(==)>(node: Node<T>, ghost before: seq<Node<T>>, ghost after: seq<Node<T>>,
                       ghost left: Node<T>, ghost right: Node<T>)
    requires Chained(before + [node] + after) && before != [] && after != []
    requires left == before[|before| - 1] && right == after[0]
    modifies left`next, right`prev
    ensures Chained(before + after)
  {
    ghost var was, k := before + [node] + after, |before|;
    AroundNode(was, before, node, after);
    ChainedDistinct(was);
    assert was[k].next == after[0] && was[k].prev == before[k - 1];
    node.next.prev := node.prev;
    node.prev.next := node.next;
  }

  lemma BetweenIndex<T>(a: seq<Node<T>>, node: Node<T>, b: seq<Node<T>>)
    ensures forall j {:trigger (a + [node] + b)[j]} :: 0 <= j < |a| + 1 + |b| ==>
      (a + [node] + b)[j] == if j < |a| then (a + b)[j] else if j == |a| then node else (a + b)[j - 1]
  {
  }

  /** The four assignments that put a new node between two neighbours. */
  method LinkBetween<T(==)>(node: Node<T>, left: Node<T>, ghost a: seq<Node<T>>, ghost b: seq<Node<T>>,
                            ghost right: Node<T>)
    requires Chained(a + b) && a != [] && b != [] && left == a[|a| - 1] && right == b[0]
    requires forall i {:trigger (a + b)[i]} :: 0 <= i < |a + b| ==> (a + b)[i] != node
    modifies node`next, node`prev, left`next, right`prev
    ensures Chained(a + [node] + b)
  {
    ghost var was, k := a + b, |a|;
    ChainedDistinct(was);
    assert was[k - 1] == left && was[k] == right && left.next == right;
    node.next := left.next;
    node.prev := left;
    left.next.prev := node;
    left.next := node;
    ghost var now := a + [node] + b;
    assert forall j {:trigger now[j]} :: 0 <= j < |now| ==>
        now[j] == if j < k then was[j] else if j == k then node else was[j - 1];
  }

  lemma DataOfRest<T>(nodes: seq<Node<T>>, k: nat)
    requires k < |nodes|
    ensures DataOf(nodes[..k] + nodes[k + 1..]) == DataOf(nodes)[..k] + DataOf(nodes)[k + 1..]
  {
    var rest := nodes[..k] + nodes[k + 1..];
    forall j | 0 <= j < |rest| ensures DataOf(rest)[j] == (DataOf(nodes)[..k] + DataOf(nodes)[k + 1..])[j] {
      assert rest[j] == nodes[if j < k then j else j + 1];
    }
  }

  lemma DataOfFirst<T>(node: Node<T>, a: seq<Node<T>>)
    ensures DataOf([node] + a) == [node.data] + DataOf(a)
  {
    var now := [node] + a;
    forall i | 0 <= i < |now| ensures DataOf(now)[i] == ([node.data] + DataOf(a))[i] {
      if i > 0 { assert now[i] == a[i - 1]; }
    }
  }

  /** The three assignments that put a new node before the first. */
  method LinkBefore<T(==)>(node: Node<T>, first: Node<T>, ghost a: seq<Node<T>>)
    requires Chained(a) && a != [] && first == a[0] && forall i :: 0 <= i < |a| ==> a[i] != node
    modifies node`next, node`prev, first`prev
    ensures Chained([node] + a)
  {
    ChainedDistinct(a);
    node.next := first;
    node.prev := null;
    first.prev := node;
    ghost var now := [node] + a;
    assert forall i {:trigger now[i]} :: 0 < i < |now| ==> now[i] == a[i - 1];
  }

  /** Where the nodes around one of them stand in the chain, and that it is none of them. */
  lemma AroundNode<T>(nodes: seq<Node<T>>, before: seq<Node<T>>, node: Node<T>, after: seq<Node<T>>)
    requires Chained(nodes) && nodes == before + [node] + after
    ensures nodes[|before|] == node
    ensures forall i {:trigger before[i]} :: 0 <= i < |before| ==> before[i] == nodes[i] && before[i] != node
    ensures forall i {:trigger after[i]} :: 0 <= i < |after| ==> after[i] == nodes[|before| + 1 + i] && after[i] != node
  {
    var k := |before|;
    forall i | 0 <= i < k ensures before[i] == nodes[i] && before[i] != node { ChainedAt(nodes, i, k); }
    forall i | 0 <= i < |after| ensures after[i] == nodes[k + 1 + i] && after[i] != node { ChainedAt(nodes, k, k + 1 + i); }
  }

  /** Chained nodes that belong to no list. */
  ghost predicate Loose<T>(nodes: seq<Node<T>>)
    reads nodes
  {
    Chained(nodes) && forall i {:trigger nodes[i].owner} :: 0 <= i < |nodes| ==> nodes[i].owner == null
  }

  lemma DataInsert<T>(was: seq<Node<T>>, nodes: seq<Node<T>>, k: nat)
    requires k <= |was| && |nodes| == |was| + 1 && nodes[..k] == was[..k] && nodes[k + 1..] == was[k..]
    ensures DataOf(nodes) == ListOrder.InsertAt(DataOf(was), k, nodes[k].data)
  {
    var ds := ListOrder.InsertAt(DataOf(was), k, nodes[k].data);
    forall i | 0 <= i < |nodes| ensures nodes[i].data == ds[i] {
      if i < k { assert nodes[i] == nodes[..k][i] == was[i]; }
      if i > k { assert nodes[i] == nodes[k + 1..][i - k - 1] == was[i - 1]; }
    }
  }

  lemma HeadSplit<X>(before: seq<X>, rest: seq<X>)
    requires rest != []
    ensures rest == [rest[0]] + rest[1..]
    ensures before + rest == before + [rest[0]] + rest[1..]
  {
  }

  lemma NextInChain<T>(nodes: seq<Node<T>>, before: seq<Node<T>>, node: Node<T>, after: seq<Node<T>>)
    requires Chained(nodes) && nodes == before + [node] + after
    ensures node.next == if after == [] then null else after[0]
  {
    assert nodes[|before|] == node;
    assert after != [] ==> nodes[|before| + 1] == after[0];
  }

  /** Takes from b where the flag is set and from a where it is not. */
  function Interleave<X>(flags: seq<bool>, a: seq<X>, b: seq<X>): seq<X> {
    if flags == [] then a + b
    else if flags[0] then (if b == [] then a else [b[0]] + Interleave(flags[1..], a, b[1..]))
    else (if a == [] then b else [a[0]] + Interleave(flags[1..], a[1..], b))
  }

  /**
    The two lists of list_remove_all, interleaved by the answers of the test, give back the original:
    no node is lost, added or moved past another one of its kind.
   */
  lemma {:induction false} ChosenInterleave<T>(nodes: seq<Node<T>>, equal: T -> bool)
    ensures Interleave(MapSeq(DataOf(nodes), equal), Chosen(nodes, equal, false), Chosen(nodes, equal, true)) == nodes
  {
    if nodes != [] {
      var first, rest := nodes[0], nodes[1..];
      var kept, moved := Chosen(rest, equal, false), Chosen(rest, equal, true);
      ChosenInterleave(rest, equal);
      AnswersHead(nodes, equal);
      InterleaveStep(MapSeq(DataOf(rest), equal), kept, moved, first, equal(first.data));
      HeadSplit([], nodes);
    }
  }

  lemma AnswersHead<T>(nodes: seq<Node<T>>, equal: T -> bool)
    requires nodes != []
    ensures MapSeq(DataOf(nodes), equal) == [equal(nodes[0].data)] + MapSeq(DataOf(nodes[1..]), equal)
  {
  }

  lemma InterleaveStep<X>(flags: seq<bool>, a: seq<X>, b: seq<X>, x: X, flag: bool)
    ensures Interleave([flag] + flags, if flag then a else [x] + a, if flag then [x] + b else b)
         == [x] + Interleave(flags, a, b)
  {
    assert ([flag] + flags)[1..] == flags;
    assert ([x] + a)[1..] == a && ([x] + b)[1..] == b;
  }

  lemma ChosenStep<T>(kept: seq<Node<T>>, moved: seq<Node<T>>, node: Node<T>, after: seq<Node<T>>, equal: T -> bool)
    ensures kept + Chosen([node] + after, equal, false)
         == (if equal(node.data) then kept else kept + [node]) + Chosen(after, equal, false)
    ensures moved + Chosen([node] + after, equal, true)
         == (if equal(node.data) then moved + [node] else moved) + Chosen(after, equal, true)
  {
    assert ([node] + after)[1..] == after;
  }

  ghost predicate Within<T>(nodes: seq<Node<T>>, pool: set<Node<T>>) {
    forall i :: 0 <= i < |nodes| ==> nodes[i] in pool
  }

  lemma WithinWithout<T>(before: seq<Node<T>>, node: Node<T>, after: seq<Node<T>>, pool: set<Node<T>>)
    requires Within(before + [node] + after, pool)
    ensures Within(before + after, pool) && node in pool
  {
    var was := before + [node] + after;
    assert was[|before|] == node;
    forall j | 0 <= j < |before + after| ensures (before + after)[j] in pool {
      assert (before + after)[j] == was[if j < |before| then j else j + 1];
    }
  }

  lemma DisjointLoose<T>(a: LinkedList<T>, loose: seq<Node<T>>)
    requires a.Linked() && Loose(loose)
    ensures forall i, j :: 0 <= i < |a.nodes| && 0 <= j < |loose| ==> a.nodes[i] != loose[j]
  {
    forall i, j | 0 <= i < |a.nodes| && 0 <= j < |loose| ensures a.nodes[i] != loose[j] {
      assert a.nodes[i].owner == a && loose[j].owner == null;
    }
  }

  /** Different lists share no node. */
  lemma DisjointLists<T>(a: LinkedList<T>, b: LinkedList<T>)
    requires a.Linked() && b.Linked() && a != b
    ensures forall i, j :: 0 <= i < |a.nodes| && 0 <= j < |b.nodes| ==> a.nodes[i] != b.nodes[j]
  {
    forall i, j | 0 <= i < |a.nodes| && 0 <= j < |b.nodes| ensures a.nodes[i] != b.nodes[j] {
      assert a.nodes[i].owner == a && b.nodes[j].owner == b;
    }
  }

  /** The positions at which p holds, in order. */
  ghost predicate Positions<X>(at: seq<nat>, xs: seq<X>, p: X -> bool) {
    && (forall n :: 0 <= n < |at| ==> at[n] < |xs| && p(xs[at[n]]))
    && (forall m, n :: 0 <= m < n < |at| ==> at[m] < at[n])
    && (forall i :: 0 <= i < |xs| && p(xs[i]) ==> i in at)
  }

  /** What list_filter copies is what is at those positions, and nothing else. */
  lemma {:induction false} PickedByPosition<X>(xs: seq<X>, p: X -> bool, f: X -> X) returns (at: seq<nat>)
    ensures Positions(at, xs, p)
    ensures |Picked(xs, p, f)| == |at| && forall n :: 0 <= n < |at| ==> Picked(xs, p, f)[n] == f(xs[at[n]])
  {
    at := [];
    if xs != [] {
      var n := |xs| - 1;
      var before := PickedByPosition(xs[..n], p, f);
      PickedNext(xs, n, p, f);
      assert xs[..n + 1] == xs;
      at := if p(xs[n]) then before + [n] else before;
      PositionsNext(before, at, xs, p);
      assert forall m :: 0 <= m < |before| ==> at[m] == before[m] && xs[..n][before[m]] == xs[at[m]];
    }
  }

  lemma PositionsNext<X>(before: seq<nat>, at: seq<nat>, xs: seq<X>, p: X -> bool)
    requires xs != [] && Positions(before, xs[..|xs| - 1], p)
    requires at == if p(xs[|xs| - 1]) then before + [|xs| - 1] else before
    ensures Positions(at, xs, p)
  {
    var n := |xs| - 1;
    assert forall i :: 0 <= i < n ==> xs[..n][i] == xs[i];
    forall i | 0 <= i < |xs| && p(xs[i]) ensures i in at {
      if i < n {
        assert i in before;
      } else {
        assert at[|before|] == n;
      }
    }
  }

  lemma {:induction false} PickedAppend<X>(xs: seq<X>, x: X, p: X -> bool, f: X -> X)
    ensures Picked(xs + [x], p, f) == Picked(xs, p, f) + Picked([x], p, f)
  {
    if xs == [] {
      assert xs + [x] == [x];
    } else {
      PickedAppend(xs[1..], x, p, f);
      assert (xs + [x])[1..] == xs[1..] + [x];
    }
  }

  lemma PickedNext<X>(xs: seq<X>, i: nat, p: X -> bool, f: X -> X)
    requires i < |xs|
    ensures Picked(xs[..i + 1], p, f) == Picked(xs[..i], p, f) + Picked([xs[i]], p, f)
  {
    PickedAppend(xs[..i], xs[i], p, f);
    assert xs[..i] + [xs[i]] == xs[..i + 1];
  }

  lemma {:induction false} PickedAll<X>(xs: seq<X>, p: X -> bool, f: X -> X)
    requires forall x :: p(x)
    ensures Picked(xs, p, f) == MapSeq(xs, f)
  {
    if xs != [] { PickedAll(xs[1..], p, f); }
  }

  lemma {:induction false} WithoutAt<X>(xs: seq<X>, x: X, k: nat)
    requires k < |xs| && xs[k] == x && x !in xs[..k]
    ensures Without(xs, x) == xs[..k] + xs[k + 1..]
  {
    if k > 0 {
      assert xs[0] == xs[..k][0] && xs[1..][..k - 1] == xs[..k][1..];
      WithoutAt(xs[1..], x, k - 1);
    }
  }

  lemma {:induction false} WithoutAbsent<X>(xs: seq<X>, x: X)
    requires x !in xs
    ensures Without(xs, x) == xs
  {
    if xs != [] { WithoutAbsent(xs[1..], x); }
  }

  /** A list of max 2 with one node, joined with two: one node moves and the list says it has one. */
  method JoinMiscounts<T(==)>(x: T) returns (list: LinkedList<T>, all: bool)
    ensures fresh(list) && list.Linked() && !list.Valid() && !all
    ensures list.Contents() == [x, x] && list.len == 1
  {
    list := ListOf([x], 2);
    var other := ListOf([x, x], 2);
    all := list.Join(other);
  }

  method ListOf<T(==)>(xs: seq<T>, max: nat) returns (list: LinkedList<T>)
    requires |xs| < U32 && max < U32
    ensures fresh(list) && fresh(list.nodes) && list.Valid() && list.max == max && list.Contents() == xs
  {
    list := new LinkedList<T>(max);
    for i := 0 to |xs|
      invariant fresh(list) && fresh(list.nodes) && list.Valid() && list.max == max && list.Contents() == xs[..i]
    {
      list.Append(xs[i]);
    }
    assert xs[..|xs|] == xs;
  }

  /** list_split at the largest index of a __u32, on a list with one node: the walk runs off the end. */
  method SplitRunsOff<T(==)>(x: T) returns (fault: bool)
    ensures fault
  {
    var list := ListOf([x], 2);
    var rest;
    rest, fault := list.Split(U32 - 1);
  }
}
