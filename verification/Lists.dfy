/** The linked list of src/list.c, relinked in place, with its deleting iterator. */
module Lists {
  import opened Bytes
  import opened ListSpec

  /** `ListNode`; the object is compared as an address, `MapNode` holds a key and a value instead. */
  class Node<T> {
    var next: Node?<T>
    var obj: T

    constructor (obj: T)
      ensures this.obj == obj && next == null
    {
      this.obj, next := obj, null;
    }
  }

  /** The node at a place of the chain, null behind its end. */
  ghost function NodeAt<T>(nodes: seq<Node<T>>, i: nat): Node?<T> {
    if i < |nodes| then nodes[i] else null
  }

  ghost predicate Chained<T>(nodes: seq<Node<T>>)
    reads nodes
  {
    forall i :: 0 <= i < |nodes| ==> nodes[i].next == NodeAt(nodes, i + 1)
  }

  ghost predicate Holds<T>(nodes: seq<Node<T>>, objs: seq<T>)
    reads nodes
  {
    |nodes| == |objs| && forall i :: 0 <= i < |nodes| ==> nodes[i].obj == objs[i]
  }

  class LinkedList<T(==)> {
    var node: Node?<T>
    /** The nodes in their order, and the objects they hold. */
    ghost var Nodes: seq<Node<T>>
    ghost var Contents: seq<T>

    ghost predicate Valid()
      reads this, Nodes
    {
      node == NodeAt(Nodes, 0) && Distinct(Nodes) && Chained(Nodes) && Holds(Nodes, Contents)
    }

    constructor ()
      ensures Valid() && Contents == []
    {
      node, Nodes, Contents := null, [], [];
    }

    /** `list_len` */
    method Len() returns (len: nat)
      requires Valid()
      ensures len == |Contents|
    {
      len := 0;
      var n := node;
      while n != null
        invariant len <= |Nodes| && n == NodeAt(Nodes, len)
        decreases |Nodes| - len
      {
        len := len + 1;
        n := n.next;
      }
    }

    /** `_get_node_at` */
    method GetNodeAt(idx: int) returns (n: Node?<T>)
      requires Valid()
      ensures n == if HasAt(|Nodes|, idx) then Nodes[FixIndex(|Nodes|, idx)] else null
    {
      var len := Len();
      var fixed := FixIndex(len, idx);
      n := null;
      if fixed >= 0 {
        n := node;
        for i := 0 to fixed
          invariant n == NodeAt(Nodes, i)
        {
          n := n.next;
        }
      }
    }

    /** `list_set_at`; the node keeps its place. */
    method SetAt(idx: int, obj: T) returns (ok: bool)
      requires Valid()
      modifies this`Contents, Nodes
      ensures Valid() && Nodes == old(Nodes)
      ensures ok == HasAt(|Nodes|, idx) && Contents == ListSpec.SetAt(old(Contents), idx, obj)
    {
      var n := GetNodeAt(idx);
      if n == null {
        return false;
      }
      SetObj(n, FixIndex(|Nodes|, idx), obj);
      return true;
    }

    /** `listnode_set_obj` */
    method SetObj(n: Node<T>, ghost i: nat, obj: T)
      requires Valid() && i < |Nodes| && n == Nodes[i]
      modifies this`Contents, n`obj
      ensures Valid() && Contents == old(Contents)[i := obj]
    {
      n.obj := obj;
      Contents := Contents[i := obj];
    }

    /** `list_append` */
    method Append(obj: T)
      requires Valid()
      modifies this, Nodes
      ensures Valid() && Contents == old(Contents) + [obj]
      ensures |Nodes| > 0 && fresh(Nodes[|Nodes| - 1]) && Nodes == old(Nodes) + [Nodes[|Nodes| - 1]]
    {
      var newNode := new Node<T>(obj);
      if node == null {
        node := newNode;
      } else {
        var n: Node<T> := node;
        ghost var i := 0;
        while n.next != null
          invariant 0 <= i < |Nodes| && n == Nodes[i]
          decreases |Nodes| - i
        {
          n := n.next;
          i := i + 1;
        }
        n.next := newNode;
      }
      Nodes, Contents := Nodes + [newNode], Contents + [obj];
    }

    /** `_remove_node`: the first node that holds the object is unlinked. */
    method Remove(obj: T) returns (ok: bool)
      requires Valid()
      modifies this, Nodes
      ensures Valid() && Contents == ListSpec.Remove(old(Contents), obj)
      ensures ok == (obj in old(Contents))
      ensures Nodes == if ok then Without(old(Nodes), Find(old(Contents), obj)) else old(Nodes)
    {
      var n := node;
      var prev: Node?<T> := null;
      ghost var i := 0;
      while n != null && n.obj != obj
        invariant 0 <= i <= |Nodes| && n == NodeAt(Nodes, i)
        invariant prev == if i == 0 then null else Nodes[i - 1]
        invariant forall k :: 0 <= k < i ==> Contents[k] != obj
        decreases |Nodes| - i
      {
        prev := n;
        n := n.next;
        i := i + 1;
      }
      FindIs(Contents, obj, i);
      ok := n != null;
      if ok {
        Unlink(prev, n, i);
      }
    }

    /** Takes the i-th node out of the chain. */
    method Unlink(prev: Node?<T>, n: Node<T>, ghost i: nat)
      requires Valid() && i < |Nodes| && n == Nodes[i]
      requires prev == if i == 0 then null else Nodes[i - 1]
      modifies this, Nodes
      ensures Valid() && Nodes == Without(old(Nodes), i) && Contents == Without(old(Contents), i)
    {
      hide Distinct;
      hide NodeAt;
      Bypass(prev, n, i);
      HoldsWithout(Nodes, Contents, i);
      assert |Contents| == |Nodes|;
      hide Holds;
      ChainedWithout(Nodes, i);
      hide Chained;
      Nodes, Contents := Without(Nodes, i), Without(Contents, i);
    }

    method Bypass(prev: Node?<T>, n: Node<T>, ghost i: nat)
      requires Valid() && i < |Nodes| && n == Nodes[i]
      requires prev == if i == 0 then null else Nodes[i - 1]
      modifies this`node, (if prev == null then {} else {prev})`next
      ensures node == NodeAt(Nodes, if i == 0 then 1 else 0)
      ensures forall k :: 0 <= k < |Nodes| ==> Nodes[k].next == NodeAt(Nodes, if k + 1 == i then i + 1 else k + 1)
    {
      hide Holds;
      if prev == null {
        node := n.next;
      } else {
        prev.next := n.next;
      }
    }

    /** `_remove_node_at`: the node in front of the index is searched for with `idx - 1`. */
    method RemoveAt(idx: int) returns (obj: Option<T>)
      requires Valid()
      modifies this, Nodes
      ensures Valid() && (obj.Some? <==> HasAt(|old(Nodes)|, idx))
      ensures obj.Some? ==> obj == Some(old(Contents)[FixIndex(|old(Nodes)|, idx)])
      ensures Contents == ListSpec.RemoveAt(old(Contents), idx)
      ensures Nodes == ListSpec.RemoveAt(old(Nodes), idx)
    {
      var len := Len();
      var i := FixIndex(len, idx);
      var prev: Node?<T> := null;
      var rmNode: Node?<T> := null;
      PreviousIndex(len, idx);
      RemoveAtIs(Contents, idx);
      RemoveAtIs(Nodes, idx);
      assert node == NodeAt(Nodes, 0) && |Nodes| == |Contents| == len;
      hide Valid;
      hide FixIndex;
      hide HasAt;
      hide ListSpec.RemoveAt;
      if i == 0 {
        rmNode := node;
      } else if i > 0 {
        prev := GetNodeAt(idx - 1);
        if prev != null {
          ChainAt(FixIndex(len, idx - 1));
          rmNode := prev.next;
        }
      }
      obj := None;
      if rmNode != null {
        ObjAt(i);
        obj := Some(rmNode.obj);
        Unlink(prev, rmNode, i);
      }
    }

    lemma ObjAt(k: nat)
      requires Valid() && k < |Nodes|
      ensures |Nodes| == |Contents| && Nodes[k].obj == Contents[k]
    {
    }

    lemma ChainAt(k: nat)
      requires Valid() && k < |Nodes|
      ensures Nodes[k].next == NodeAt(Nodes, k + 1)
    {
    }

    /** `list_sort_in`: the new node goes in front of the first object that compares greater. */
    method SortIn(obj: T, cmp: (T, T) -> int)
      requires Valid()
      modifies this, Nodes
      ensures Valid() && Contents == ListSpec.SortIn(old(Contents), obj, cmp)
      ensures var p := SortPos(old(Contents), obj, cmp); LinkedAt(old(Nodes), Nodes, p) && fresh(Nodes[p])
    {
      var prev: Node?<T> := null;
      var n := node;
      ghost var i := 0;
      while n != null && cmp(n.obj, obj) <= 0
        invariant 0 <= i <= |Nodes| && n == NodeAt(Nodes, i)
        invariant prev == if i == 0 then null else Nodes[i - 1]
        invariant forall k :: 0 <= k < i ==> cmp(Contents[k], obj) <= 0
        decreases |Nodes| - i
      {
        prev := n;
        n := n.next;
        i := i + 1;
      }
      SortPosIs(Contents, obj, cmp, i);
      Link(prev, obj, i);
    }

    /** Puts a new node into the i-th place of the chain. */
    method Link(prev: Node?<T>, obj: T, ghost i: nat)
      requires Valid() && i <= |Nodes|
      requires prev == if i == 0 then null else Nodes[i - 1]
      modifies this, Nodes
      ensures Valid() && Contents == With(old(Contents), obj, i)
      ensures LinkedAt(old(Nodes), Nodes, i) && fresh(Nodes[i])
    {
      hide With;
      hide NodeAt;
      var newNode := new Node<T>(obj);
      SetPointers(prev, newNode, i);
      hide Distinct;
      HoldsWith(Nodes, newNode, Contents, i);
      assert |Contents| == |Nodes|;
      hide Holds;
      ChainedWith(Nodes, newNode, i);
      hide Chained;
      WithAt(Nodes, newNode, i);
      Nodes, Contents := With(Nodes, newNode, i), With(Contents, obj, i);
    }

    method SetPointers(prev: Node?<T>, newNode: Node<T>, ghost i: nat)
      requires Valid() && i <= |Nodes| && newNode !in Nodes
      requires prev == if i == 0 then null else Nodes[i - 1]
      modifies this`node, (if prev == null then {} else {prev})`next, newNode`next
      ensures node == if i == 0 then newNode else NodeAt(Nodes, 0)
      ensures newNode.next == NodeAt(Nodes, i)
      ensures forall k :: 0 <= k < |Nodes| ==> Nodes[k].next == if k + 1 == i then newNode else NodeAt(Nodes, k + 1)
    {
      hide Holds;
      if prev != null {
        newNode.next := prev.next;
        prev.next := newNode;
      } else {
        newNode.next := node;
        node := newNode;
      }
    }

    /** `_next` of the iterator: the object, and the node behind it. */
    method Next(next: Node<T>, ghost k: nat) returns (obj: T, behind: Node?<T>)
      requires Valid() && k < |Nodes| && next == Nodes[k]
      ensures obj == Contents[k] && behind == NodeAt(Nodes, k + 1)
    {
      return next.obj, next.next;
    }

    /** `_del_obj` of the iterator: the node it remembers moves up to the freed place. */
    method DelObj(idx: nat, next: Node?<T>)
      requires Valid() && idx < |Nodes| && next == NodeAt(Nodes, idx + 1)
      modifies this, Nodes
      ensures Valid() && next == NodeAt(Nodes, idx)
      ensures |Nodes| == |Contents| && Contents == Without(old(Contents), idx)
      ensures forall k :: 0 <= k < |Nodes| ==> Nodes[k] in old(Nodes)
    {
      IndexInside(|Nodes|, idx);
      WithoutPlaces(Nodes, idx);
      RemoveAtIs(Nodes, idx);
      RemoveAtIs(Contents, idx);
      hide ListSpec.RemoveAt;
      hide Chained;
      hide Distinct;
      var _ := RemoveAt(idx);
    }

    /** One round of `filter`. */
    method FilterRound(node: Node<T>, at: int, keep: T -> bool,
                       ghost all: seq<T>, ghost visited: seq<T>, ghost was: seq<T>)
      returns (obj: T, next: Node?<T>, idx: int, ghost kept: seq<T>)
      requires Valid() && |Nodes| == |Contents| && Filtering(all, visited, was, Contents, keep)
      requires at + 1 == |was| && node == NodeAt(Nodes, at + 1)
      modifies this, Nodes
      ensures Valid() && |Nodes| == |Contents| && Filtering(all, visited + [obj], kept, Contents, keep)
      ensures idx + 1 == |kept| && next == NodeAt(Nodes, idx + 1)
      ensures |visited| < |all| && forall k :: 0 <= k < |Nodes| ==> Nodes[k] in old(Nodes)
    {
      hide Valid;
      hide Filtering;
      kept, idx := was, at + 1;
      NextPlace(Nodes, idx, node);
      FilterAdvances(all, visited, kept, Contents, keep);
      obj, next := Next(node, idx);
      if !keep(obj) {
        DelObj(idx, next);
        idx := idx - 1;
      } else {
        kept := kept + [obj];
      }
    }

    /**
     * `filter` over a list: the iterator remembers the next node, so the current one may be
     * deleted; its index then steps back.
     */
    method Filter(keep: T -> bool) returns (visited: seq<T>)
      requires Valid()
      modifies this, Nodes
      ensures Valid() && visited == old(Contents) && Contents == Kept(old(Contents), keep)
    {
      hide Filtering;
      visited := [];
      var next := node;
      var idx := -1;
      ghost var all, nodes := Contents, Nodes;
      ghost var kept: seq<T> := [];
      FilterBegins(all, keep);
      while next != null
        invariant Filtering(all, visited, kept, Contents, keep)
        invariant Valid() && idx + 1 == |kept| && next == NodeAt(Nodes, idx + 1)
        invariant |Nodes| == |Contents| && forall k :: 0 <= k < |Nodes| ==> Nodes[k] in nodes
        decreases |all| - |visited|
      {
        hide Valid;
        hide NodeAt;
        var obj;
        obj, next, idx, kept := FilterRound(next, idx, keep, all, visited, kept);
        visited := visited + [obj];
      }
      FilterEnds(all, visited, kept, Contents, keep);
    }
  }

  /** A new node at the i-th place, and the old ones in their order. */
  ghost predicate LinkedAt<T>(before: seq<Node<T>>, after: seq<Node<T>>, i: nat) {
    i <= |before| && |after| == |before| + 1 && after == With(before, after[i], i)
  }

  lemma WithAt<T>(s: seq<T>, x: T, i: nat)
    requires i <= |s|
    ensures With(s, x, i)[i] == x
  {
  }

  lemma NextPlace<T>(nodes: seq<Node<T>>, k: nat, next: Node<T>)
    requires next == NodeAt(nodes, k)
    ensures k < |nodes| && next == nodes[k]
  {
  }

  ghost function With<T>(s: seq<T>, x: T, i: nat): (r: seq<T>)
    requires i <= |s|
    ensures |r| == |s| + 1
  {
    s[..i] + [x] + s[i..]
  }

  lemma WithoutPlaces<T>(s: seq<T>, i: nat)
    requires i < |s|
    ensures var r := Without(s, i);
            |r| == |s| - 1 && forall k :: 0 <= k < |r| ==> r[k] == s[if k < i then k else k + 1]
    ensures Distinct(s) ==> Distinct(Without(s, i))
  {
    var r := s[..i] + s[i + 1..];
    assert forall k :: 0 <= k < |r| ==> r[k] == s[if k < i then k else k + 1];
  }

  lemma WithPlaces<T>(s: seq<T>, x: T, i: nat)
    requires i <= |s|
    ensures var r := With(s, x, i);
            |r| == |s| + 1 && r[i] == x && forall k :: 0 <= k < |r| && k != i ==> r[k] == s[if k < i then k else k - 1]
    ensures Distinct(s) && x !in s ==> Distinct(With(s, x, i))
  {
    var r := s[..i] + [x] + s[i..];
    assert r[i] == x && forall k :: 0 <= k < |r| && k != i ==> r[k] == s[if k < i then k else k - 1];
  }

  lemma HoldsWithout<T>(nodes: seq<Node<T>>, objs: seq<T>, i: nat)
    requires Holds(nodes, objs) && i < |nodes|
    ensures Holds(Without(nodes, i), Without(objs, i))
  {
    WithoutPlaces(nodes, i);
    WithoutPlaces(objs, i);
    hide Without;
  }

  lemma HoldsWith<T>(nodes: seq<Node<T>>, n: Node<T>, objs: seq<T>, i: nat)
    requires Holds(nodes, objs) && i <= |nodes|
    ensures Holds(With(nodes, n, i), With(objs, n.obj, i))
  {
    WithPlaces(nodes, n, i);
    WithPlaces(objs, n.obj, i);
    hide With;
  }

  /** The chain is closed around a node that was taken out. */
  lemma ChainedWithout<T>(nodes: seq<Node<T>>, i: nat)
    requires i < |nodes| && Distinct(nodes)
    requires forall k :: 0 <= k < |nodes| ==> nodes[k].next == NodeAt(nodes, if k + 1 == i then i + 1 else k + 1)
    ensures Distinct(Without(nodes, i)) && Chained(Without(nodes, i))
    ensures NodeAt(Without(nodes, i), 0) == NodeAt(nodes, if i == 0 then 1 else 0)
  {
    WithoutPlaces(nodes, i);
    hide Without;
    hide Distinct;
  }

  lemma ChainedWith<T>(nodes: seq<Node<T>>, n: Node<T>, i: nat)
    requires i <= |nodes| && Distinct(nodes) && n !in nodes && n.next == NodeAt(nodes, i)
    requires forall k :: 0 <= k < |nodes| ==> nodes[k].next == if k + 1 == i then n else NodeAt(nodes, k + 1)
    ensures Distinct(With(nodes, n, i)) && Chained(With(nodes, n, i))
    ensures NodeAt(With(nodes, n, i), 0) == if i == 0 then n else NodeAt(nodes, 0)
  {
    WithPlaces(nodes, n, i);
    hide With;
    hide Distinct;
  }

  lemma RemoveAtIs<T>(s: seq<T>, idx: int)
    ensures HasAt(|s|, idx) ==> ListSpec.RemoveAt(s, idx) == Without(s, FixIndex(|s|, idx))
    ensures !HasAt(|s|, idx) ==> ListSpec.RemoveAt(s, idx) == s
    ensures HasAt(|s|, idx) <==> 0 <= FixIndex(|s|, idx) < |s|
  {
  }

  lemma IndexInside(len: nat, idx: nat)
    requires idx < len
    ensures HasAt(len, idx) && FixIndex(len, idx) == idx
  {
  }

  /** Where the search for the previous node ends up. */
  lemma PreviousIndex(len: nat, idx: int)
    ensures 0 < FixIndex(len, idx) < len ==> HasAt(len, idx - 1) && FixIndex(len, idx - 1) == FixIndex(len, idx) - 1
    ensures 0 < FixIndex(len, idx) == len && HasAt(len, idx - 1) ==> FixIndex(len, idx - 1) == len - 1
  {
  }

  lemma FindIs<T>(s: seq<T>, x: T, i: nat)
    requires i <= |s| && (i < |s| ==> s[i] == x) && forall k :: 0 <= k < i ==> s[k] != x
    ensures Find(s, x) == i
  {
  }

  lemma SortPosIs<T>(s: seq<T>, x: T, cmp: (T, T) -> int, i: nat)
    requires i <= |s| && (i < |s| ==> cmp(s[i], x) > 0) && forall k :: 0 <= k < i ==> cmp(s[k], x) <= 0
    ensures SortPos(s, x, cmp) == i
  {
  }
}
