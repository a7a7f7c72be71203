/** The global list of handles on which a run is executing: a singly linked list,
    changed in place. */
module RunState {

  /** A handle is known by its address only. */
  type Handle = nat

  /** The list without the first occurrence of `h`. */
  function RemoveFirst(s: seq<Handle>, h: Handle): (r: seq<Handle>)
    ensures h !in s ==> r == s
    ensures h in s ==> |r| == |s| - 1
  {
    if s == [] then [] else if s[0] == h then s[1..] else [s[0]] + RemoveFirst(s[1..], h)
  }

  /** Removing takes away one occurrence of `h` and no other handle. */
  lemma {:induction false} RemoveFirstCount(s: seq<Handle>, h: Handle)
    ensures multiset(RemoveFirst(s, h)) == multiset(s) - multiset{h}
  {
    if s != [] {
      assert s == [s[0]] + s[1..];
      if s[0] != h {
        RemoveFirstCount(s[1..], h);
      }
    }
  }

  /** Where the first occurrence sits; the rest of the list keeps its order. */
  lemma {:induction false} RemoveFirstSplit(s: seq<Handle>, h: Handle, k: nat)
    requires k < |s| && s[k] == h && h !in s[..k]
    ensures RemoveFirst(s, h) == s[..k] + s[k + 1..]
    decreases k
  {
    if k != 0 {
      assert s[0] in s[..k];
      assert s[1..][..k - 1] == s[1..k];
      forall x | x in s[1..k] ensures x in s[..k] {
      }
      RemoveFirstSplit(s[1..], h, k - 1);
      assert s[..k] == [s[0]] + s[1..k];
    }
  }

  class Node {
    const handle: Handle
    var next: Node?

    constructor (handle: Handle, next: Node?)
      ensures this.handle == handle && this.next == next
    {
      this.handle, this.next := handle, next;
    }
  }

  ghost function Handles(nodes: seq<Node>): (s: seq<Handle>)
    ensures |s| == |nodes| && forall i | 0 <= i < |s| :: s[i] == nodes[i].handle
  {
    seq(|nodes|, i requires 0 <= i < |nodes| => nodes[i].handle)
  }

  ghost function At(nodes: seq<Node>, i: nat): Node? {
    if i < |nodes| then nodes[i] else null
  }

  /** Linked in order, the last one to nothing: no cycle, no sharing. */
  ghost predicate Chain(head: Node?, nodes: seq<Node>)
    reads nodes
  {
    && head == At(nodes, 0)
    && (forall i | 0 <= i < |nodes| :: nodes[i].next == At(nodes, i + 1))
    && (forall i, j | 0 <= i < j < |nodes| :: nodes[i] != nodes[j])
  }

  class RunStates {
    var head: Node?
    ghost var nodes: seq<Node>

    ghost predicate Valid()
      reads this, nodes
    {
      Chain(head, nodes)
    }

    ghost function Contents(): (s: seq<Handle>)
      reads this
    {
      Handles(nodes)
    }

    constructor ()
      ensures Valid() && nodes == []
    {
      head, nodes := null, [];
    }

    /** `memory` is whether the allocation succeeds. */
    method Add(handle: Handle, memory: bool) returns (ok: bool)
      requires Valid()
      modifies this
      ensures Valid() && ok == memory
      ensures Contents() == if ok then [handle] + old(Contents()) else old(Contents())
      ensures forall n | n in nodes :: n in old(nodes) || fresh(n)
    {
      if !memory {
        return false;
      }
      ghost var before := nodes;
      var state := new Node(handle, head);
      head := state;
      nodes := [state] + before;
      assert state !in before;
      forall k | 0 <= k < |nodes| ensures nodes[k].next == At(nodes, k + 1) {
        Pushed(state, before, k);
      }
      DistinctPush(state, before);
      HandlesPush(state, before);
      return true;
    }

    method Find(handle: Handle) returns (p: Node?)
      requires Valid()
      ensures p != null <==> handle in Contents()
      ensures p != null ==> p in nodes && p.handle == handle
    {
      p := head;
      ghost var i := 0;
      while p != null
        invariant i <= |nodes| && p == At(nodes, i)
        invariant handle !in Contents()[..i]
        decreases |nodes| - i
      {
        assert Contents()[i] == p.handle;
        if p.handle == handle {
          return;
        }
        assert Contents()[..i + 1] == Contents()[..i] + [p.handle];
        p := p.next;
        i := i + 1;
      }
      assert Contents()[..i] == Contents();
    }

    /** The source dereferences the head without a test, so the list must not be empty. */
    method Clear(handle: Handle)
      requires Valid() && head != null
      modifies this, nodes
      ensures Valid()
      ensures Contents() == RemoveFirst(old(Contents()), handle)
      ensures forall n | n in nodes :: n in old(nodes)
    {
      ghost var all := Contents();
      var p := head;
      if p.handle == handle {
        head := p.next;
        nodes := nodes[1..];
        assert Contents() == all[1..];
        return;
      }
      var q := p;
      p := p.next;
      ghost var i := 1;
      while p != null
        invariant 1 <= i <= |nodes| && q == nodes[i - 1] && p == At(nodes, i)
        invariant handle !in all[..i]
        decreases |nodes| - i
      {
        assert all[i] == p.handle;
        if p.handle == handle {
          RemoveFirstSplit(all, handle, i);
          Unlink(q, p, i);
          return;
        }
        assert all[..i + 1] == all[..i] + [p.handle];
        q := p;
        p := p.next;
        i := i + 1;
      }
      assert all[..i] == all;
    }

    /** Takes node `i` out of the chain, behind its predecessor. */
    method Unlink(q: Node, p: Node, ghost i: nat)
      requires Valid() && 1 <= i < |nodes| && q == nodes[i - 1] && p == nodes[i]
      modifies this, q
      ensures Valid() && nodes == old(nodes[..i] + nodes[i + 1..])
      ensures Contents() == old(Contents()[..i] + Contents()[i + 1..])
    {
      ghost var before := nodes;
      q.next := p.next;
      nodes := before[..i] + before[i + 1..];
      forall k | 0 <= k < |nodes| ensures nodes[k].next == At(nodes, k + 1) {
        Spliced(before, i, k);
      }
      Distinct(before, i);
      assert Contents() == Handles(before)[..i] + Handles(before)[i + 1..];
    }
  }

  lemma Pushed(x: Node, nodes: seq<Node>, k: nat)
    requires k <= |nodes|
    ensures var s := [x] + nodes;
            s[k] == (if k == 0 then x else nodes[k - 1]) && At(s, k + 1) == At(nodes, k)
  {
  }

  lemma DistinctPush(x: Node, nodes: seq<Node>)
    requires x !in nodes && forall j, k | 0 <= j < k < |nodes| :: nodes[j] != nodes[k]
    ensures var s := [x] + nodes; forall j, k | 0 <= j < k < |s| :: s[j] != s[k]
  {
  }

  lemma HandlesPush(x: Node, nodes: seq<Node>)
    ensures Handles([x] + nodes) == [x.handle] + Handles(nodes)
  {
  }

  lemma Spliced(nodes: seq<Node>, i: nat, k: nat)
    requires 1 <= i < |nodes| && k < |nodes| - 1
    ensures var s := nodes[..i] + nodes[i + 1..];
            && s[k] == nodes[if k < i then k else k + 1]
            && At(s, k + 1) == At(nodes, if k + 1 < i then k + 1 else k + 2)
  {
  }

  lemma Distinct(nodes: seq<Node>, i: nat)
    requires i < |nodes| && forall j, k | 0 <= j < k < |nodes| :: nodes[j] != nodes[k]
    ensures var s := nodes[..i] + nodes[i + 1..];
            forall j, k | 0 <= j < k < |s| :: s[j] != s[k]
  {
  }
}
