/** The map of src/map.c: a chain of nodes with a key and a value each, and its deleting iterator. */
module Maps {
  import opened Bytes
  import opened Values
  import opened ListSpec
  import opened Lists

  class LinkedMap {
    /** The nodes form the same kind of chain as those of a list, with `self->node` at its head. */
    const chain: LinkedList<Entry>

    ghost predicate Valid()
      reads chain, chain.Nodes
    {
      chain.Valid() && DistinctKeys(chain.Contents)
    }

    constructor ()
      ensures Valid() && fresh(chain) && chain.Contents == [] && chain.Nodes == []
    {
      chain := new LinkedList<Entry>();
      new;
      assert chain.Nodes == [];
    }

    /** `_node_by_key` */
    method NodeByKey(key: CString) returns (n: Node?<Entry>, ghost i: nat)
      requires Valid()
      ensures n == NodeAt(chain.Nodes, FindKey(chain.Contents, key))
      ensures i == FindKey(chain.Contents, key)
    {
      n, i := chain.node, 0;
      while n != null && n.obj.key != key
        invariant i <= |chain.Nodes| && n == NodeAt(chain.Nodes, i)
        invariant forall k :: 0 <= k < i ==> chain.Contents[k].key != key
        decreases |chain.Nodes| - i
      {
        n, i := n.next, i + 1;
      }
      FindKeyIs(chain.Contents, key, i);
    }

    /** `map_get` */
    method Get(key: CString) returns (value: Option<V>)
      requires Valid()
      ensures value == MapGet(chain.Contents, key)
    {
      var n, _ := NodeByKey(key);
      value := if n != null then Some(n.obj.value) else None;
    }

    /** `map_set`: the value of a known key is overwritten in its node. */
    method Set(key: CString, value: V)
      requires Valid()
      modifies chain, chain.Nodes
      ensures Valid() && chain.Contents == MapSet(old(chain.Contents), key, value)
      ensures if FindKey(old(chain.Contents), key) < |old(chain.Contents)| then chain.Nodes == old(chain.Nodes)
              else LinkedAt(old(chain.Nodes), chain.Nodes, |old(chain.Nodes)|) && fresh(chain.Nodes[|old(chain.Nodes)|])
    {
      MapSetGet(chain.Contents, key, value, key);
      var n, i := NodeByKey(key);
      if n != null {
        chain.SetObj(n, i, Entry(key, value));
      } else {
        ghost var nodes := chain.Nodes;
        chain.Append(Entry(key, value));
        AppendedAt(nodes, chain.Nodes);
      }
    }

    /** `_remove_node_by_key` and its callers */
    method RemoveKey(key: CString) returns (value: Option<V>)
      requires Valid()
      modifies chain, chain.Nodes
      ensures Valid() && chain.Contents == MapRemove(old(chain.Contents), key)
      ensures value == MapGet(old(chain.Contents), key)
      ensures var i := FindKey(old(chain.Contents), key);
              chain.Nodes == if i < |old(chain.Nodes)| then Without(old(chain.Nodes), i) else old(chain.Nodes)
    {
      MapRemoveGet(chain.Contents, key, key);
      var n := chain.node;
      var prev: Node?<Entry> := null;
      ghost var i := 0;
      while n != null && n.obj.key != key
        invariant 0 <= i <= |chain.Nodes| && n == NodeAt(chain.Nodes, i)
        invariant prev == if i == 0 then null else chain.Nodes[i - 1]
        invariant forall k :: 0 <= k < i ==> chain.Contents[k].key != key
        decreases |chain.Nodes| - i
      {
        prev := n;
        n := n.next;
        i := i + 1;
      }
      FindKeyIs(chain.Contents, key, i);
      if n == null {
        return None;
      }
      value := Some(n.obj.value);
      chain.Unlink(prev, n, i);
    }

    /** One round of `filter`: a rejected node is deleted by its key. */
    method FilterRound(node: Node<Entry>, at: int, keep: V -> bool,
                       ghost all: seq<Entry>, ghost visited: seq<Entry>, ghost was: seq<Entry>)
      returns (value: V, next: Node?<Entry>, idx: int, ghost e: Entry, ghost kept: seq<Entry>)
      requires Valid() && |chain.Nodes| == |chain.Contents|
      requires Filtering(all, visited, was, chain.Contents, KeepValue(keep))
      requires at + 1 == |was| && node == NodeAt(chain.Nodes, at + 1)
      modifies chain, chain.Nodes
      ensures Valid() && |chain.Nodes| == |chain.Contents|
      ensures Filtering(all, visited + [e], kept, chain.Contents, KeepValue(keep)) && value == e.value
      ensures idx + 1 == |kept| && next == NodeAt(chain.Nodes, idx + 1)
      ensures |visited| < |all| && forall k :: 0 <= k < |chain.Nodes| ==> chain.Nodes[k] in old(chain.Nodes)
    {
      hide Filtering;
      hide Holds;
      kept, idx := was, at + 1;
      NextPlace(chain.Nodes, idx, node);
      FilterAdvances(all, visited, kept, chain.Contents, KeepValue(keep));
      e := chain.Contents[idx];
      var obj;
      obj, next := chain.Next(node, idx);
      value := obj.value;
      if !keep(value) {
        FindKeyIs(chain.Contents, obj.key, idx);
        WithoutPlaces(chain.Nodes, idx);
        var _ := RemoveKey(obj.key);
        idx := idx - 1;
      } else {
        kept := kept + [e];
      }
    }

    /** `filter` over a map */
    method Filter(keep: V -> bool) returns (visited: seq<V>)
      requires Valid()
      modifies chain, chain.Nodes
      ensures Valid() && chain.Contents == Kept(old(chain.Contents), KeepValue(keep))
      ensures visited == ValuesOf(old(chain.Contents))
    {
      hide Filtering;
      visited := [];
      var next := chain.node;
      var idx := -1;
      ghost var all, nodes := chain.Contents, chain.Nodes;
      ghost var seen: seq<Entry> := [];
      ghost var kept: seq<Entry> := [];
      FilterBegins(all, KeepValue(keep));
      while next != null
        invariant Filtering(all, seen, kept, chain.Contents, KeepValue(keep)) && visited == ValuesOf(seen)
        invariant Valid() && idx + 1 == |kept| && next == NodeAt(chain.Nodes, idx + 1)
        invariant |chain.Nodes| == |chain.Contents| && forall k :: 0 <= k < |chain.Nodes| ==> chain.Nodes[k] in nodes
        decreases |all| - |seen|
      {
        hide Valid;
        hide NodeAt;
        var value; ghost var e;
        value, next, idx, e, kept := FilterRound(next, idx, keep, all, seen, kept);
        ValuesSplit(seen, e);
        visited, seen := visited + [value], seen + [e];
      }
      FilterEnds(all, seen, kept, chain.Contents, KeepValue(keep));
    }
  }

  lemma AppendedAt(before: seq<Node<Entry>>, after: seq<Node<Entry>>)
    requires |after| > 0 && after == before + [after[|after| - 1]]
    ensures LinkedAt(before, after, |before|)
  {
    assert before[..|before|] == before && before[|before|..] == [];
  }

  function KeepValue(keep: V -> bool): Entry -> bool {
    (e: Entry) => keep(e.value)
  }

  function ValuesOf(entries: seq<Entry>): seq<V> {
    if entries == [] then [] else [entries[0].value] + ValuesOf(entries[1..])
  }

  lemma {:induction false} ValuesSplit(entries: seq<Entry>, e: Entry)
    ensures ValuesOf(entries + [e]) == ValuesOf(entries) + [e.value]
  {
    if entries == [] {
      assert [e][1..] == [];
    } else {
      ValuesSplit(entries[1..], e);
      assert (entries + [e])[1..] == entries[1..] + [e];
    }
  }
}
