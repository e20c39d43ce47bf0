/** The cycle collector of src/cycle_gc.c: an intrusive list of tracked containers and trial deletion over it. */
module CycleGc {
  import opened Sequences
  import opened RefGraph

  datatype Kind = Array | Record | Tuple | Map

  /** A container object together with its embedded collector node. */
  class Node {
    var prev: Node?
    var next: Node?
    var owner: CycleGc?
    var gcRefs: int
    var reachable: bool
    const kind: Kind
    var refCount: int
    var slots: seq<Value<Node>>
    ghost var live: bool

    constructor (kind: Kind, slots: seq<Value<Node>>)
      ensures this.kind == kind && this.slots == slots
      ensures prev == null && next == null && owner == null && gcRefs == 0 && !reachable
      ensures refCount == 1 && live
    {
      this.kind, this.slots := kind, slots;
      prev, next, owner, gcRefs, reachable := null, null, null, 0, false;
      refCount, live := 1, true;
    }
  }

  /** Position i of the list, or null beyond either end. */
  function At(s: seq<Node>, i: int): Node? {
    if 0 <= i < |s| then s[i] else null
  }

  class CycleGc {
    var head: Node?
    var tail: Node?
    var trackedCount: int
    var allocationsSinceCollect: int
    var threshold: int
    var isCollecting: bool
    var lastReclaimed: int
    var totalCollections: int
    ghost var tracked: seq<Node>

    /** head, tail, prev, next, owner and the count describe the sequence `tracked`. */
    ghost predicate Linked()
      reads this`head, this`tail, this`trackedCount, this`tracked
      reads tracked`prev, tracked`next, tracked`owner
    {
      && Distinct(tracked)
      && trackedCount == |tracked|
      && head == At(tracked, 0)
      && tail == At(tracked, |tracked| - 1)
      && (forall i {:trigger tracked[i].owner} :: 0 <= i < |tracked| ==> tracked[i].owner == this)
      && (forall i {:trigger tracked[i].prev} :: 0 <= i < |tracked| ==> tracked[i].prev == At(tracked, i - 1))
      && (forall i {:trigger tracked[i].next} :: 0 <= i < |tracked| ==> tracked[i].next == At(tracked, i + 1))
    }

    constructor ()
      ensures Linked() && tracked == []
      ensures threshold == 256 && !isCollecting
    {
      head, tail, trackedCount, tracked := null, null, 0, [];
      allocationsSinceCollect, threshold, isCollecting := 0, 256, false;
      lastReclaimed, totalCollections := 0, 0;
    }

    /** Appends a node that no collector owns; a node that already has an owner is left alone. */
    method Track(node: Node)
      requires Linked()
      modifies this`head, this`tail, this`trackedCount, this`allocationsSinceCollect, this`tracked
      modifies node`owner, node`prev, node`next, tracked`next
      ensures Linked()
      ensures old(node.owner) != null ==> tracked == old(tracked) && unchanged(node)
      ensures old(node.owner) == null ==>
        && tracked == old(tracked) + [node]
        && allocationsSinceCollect == old(allocationsSinceCollect) + 1
    {
      if node.owner != null {
        return;
      }
      node.owner := this;
      node.prev := tail;
      node.next := null;
      if tail != null {
        tail.next := node;
      } else {
        head := node;
      }
      tail := node;
      trackedCount := trackedCount + 1;
      allocationsSinceCollect := allocationsSinceCollect + 1;
      tracked := tracked + [node];
    }

    /** Once the neighbours of position i point past it, the list without it is linked. */
    lemma Unlinked(s: seq<Node>, i: nat)
      requires i < |s| && Distinct(s) && tracked == Without(s, i) && trackedCount == |s| - 1
      requires head == if i == 0 then At(s, 1) else At(s, 0)
      requires tail == if i == |s| - 1 then At(s, |s| - 2) else At(s, |s| - 1)
      requires forall k {:trigger s[k].owner} :: 0 <= k < |s| && k != i ==> s[k].owner == this
      requires forall k {:trigger s[k].prev} :: 0 <= k < |s| && k != i ==>
        s[k].prev == if k == i + 1 then At(s, i - 1) else At(s, k - 1)
      requires forall k {:trigger s[k].next} :: 0 <= k < |s| && k != i ==>
        s[k].next == if k == i - 1 then At(s, i + 1) else At(s, k + 1)
      ensures Linked()
    {
      forall k | 0 <= k < |tracked|
        ensures tracked[k].owner == this
        ensures tracked[k].prev == At(tracked, k - 1) && tracked[k].next == At(tracked, k + 1)
      {
        var l := if k < i then k else k + 1;
        assert tracked[k] == s[l];
        assert s[l].owner == this;
        assert s[l].prev == if l == i + 1 then At(s, i - 1) else At(s, l - 1);
        assert s[l].next == if l == i - 1 then At(s, i + 1) else At(s, l + 1);
      }
    }

    /** Lets the neighbours of a node point past it. */
    method Bypass(node: Node, ghost i: nat)
      requires Linked() && i < |tracked| && tracked[i] == node
      modifies this`head, this`tail, tracked`prev, tracked`next
      ensures head == if i == 0 then At(tracked, 1) else At(tracked, 0)
      ensures tail == if i == |tracked| - 1 then At(tracked, |tracked| - 2) else At(tracked, |tracked| - 1)
      ensures forall k {:trigger tracked[k].prev} :: 0 <= k < |tracked| && k != i ==>
        tracked[k].prev == if k == i + 1 then At(tracked, i - 1) else At(tracked, k - 1)
      ensures forall k {:trigger tracked[k].next} :: 0 <= k < |tracked| && k != i ==>
        tracked[k].next == if k == i - 1 then At(tracked, i + 1) else At(tracked, k + 1)
    {
      if node.prev != null {
        node.prev.next := node.next;
      } else {
        head := node.next;
      }
      if node.next != null {
        node.next.prev := node.prev;
      } else {
        tail := node.prev;
      }
    }

    /** Unlinks a node; one that no collector owns is left alone. */
    method Untrack(node: Node)
      requires Linked()
      requires node.owner == this ==> node in tracked
      requires node.owner == this || node.owner == null
      modifies this`head, this`tail, this`trackedCount, this`tracked
      modifies tracked`owner, tracked`prev, tracked`next
      ensures Linked()
      ensures old(node.owner) == null ==> tracked == old(tracked) && unchanged(node)
      ensures old(node.owner) == this ==> node.owner == null && node.prev == null && node.next == null
      ensures old(node.owner) == this ==>
        exists i :: 0 <= i < |old(tracked)| && old(tracked)[i] == node && tracked == Without(old(tracked), i)
    {
      if node.owner == null {
        return;
      }
      ghost var s := tracked;
      ghost var i :| 0 <= i < |s| && s[i] == node;
      Bypass(node, i);
      node.prev := null;
      node.next := null;
      node.owner := null;
      if trackedCount > 0 {
        trackedCount := trackedCount - 1;
      }
      tracked := Without(s, i);
      Unlinked(s, i);
    }

    /** The list as an array, in order. */
    method Snapshot() returns (nodes: seq<Node>)
      requires Linked()
      ensures nodes == tracked
    {
      nodes := [];
      var n := head;
      while n != null && |nodes| < trackedCount
        invariant |nodes| <= |tracked|
        invariant nodes == tracked[..|nodes|]
        invariant n == At(tracked, |nodes|)
        decreases |tracked| - |nodes|
      {
        assert tracked[|nodes|].next == At(tracked, |nodes| + 1);
        nodes := nodes + [n];
        n := n.next;
      }
    }

    method InitRefs(nodes: seq<Node>)
      requires forall n :: n in nodes ==> n.owner == this
      modifies nodes`gcRefs, nodes`reachable
      ensures forall n :: n in nodes ==> n.gcRefs == n.refCount && !n.reachable
    {
      var i := 0;
      while i < |nodes|
        invariant i <= |nodes|
        invariant forall n :: n in nodes[..i] ==> n.gcRefs == n.refCount && !n.reachable
      {
        if nodes[i].owner == this {
          nodes[i].gcRefs := nodes[i].refCount;
          nodes[i].reachable := false;
        }
        i := i + 1;
      }
      assert nodes[..i] == nodes;
    }

    /** Takes one count off every tracked child, once for each slot that refers to it. */
    method SubtractChildren(node: Node, nodes: seq<Node>)
      requires forall n :: n in nodes ==> n.owner == this
      requires forall v :: v in node.slots && v.Container? ==> v.obj in nodes
      modifies nodes`gcRefs
      ensures forall t :: t in nodes ==> t.gcRefs == old(t.gcRefs) - Mult(node.slots, t)
    {
      var i := 0;
      while i < |node.slots|
        invariant i <= |node.slots|
        invariant forall t :: t in nodes ==> t.gcRefs == old(t.gcRefs) - Mult(node.slots[..i], t)
      {
        assert node.slots[..i + 1][..i] == node.slots[..i];
        if node.slots[i].Container? && node.slots[i].obj.owner == this {
          var child := node.slots[i].obj;
          child.gcRefs := child.gcRefs - 1;
        }
        i := i + 1;
      }
      assert node.slots[..i] == node.slots;
    }

    /** Removes every reference that comes from a tracked container. */
    method SubtractInternal(nodes: seq<Node>, ghost g: Graph<Node>)
      requires forall n :: n in nodes ==> n.owner == this
      requires Closed(nodes, g) && forall n :: n in nodes ==> n.slots == g[n]
      modifies nodes`gcRefs
      ensures forall t :: t in nodes ==> t.gcRefs == old(t.gcRefs) - InEdges<Node>(nodes, g, t)
    {
      var i := 0;
      while i < |nodes|
        invariant i <= |nodes|
        invariant forall t :: t in nodes ==> t.gcRefs == old(t.gcRefs) - InEdges<Node>(nodes[..i], g, t)
      {
        assert nodes[..i + 1][..i] == nodes[..i];
        if nodes[i].owner == this {
          SubtractChildren(nodes[i], nodes);
        }
        i := i + 1;
      }
      assert nodes[..i] == nodes;
    }

    // -------------------------------------------------------------------------------------------
    // Marking
    // -------------------------------------------------------------------------------------------

    /** The marked nodes are live, the stack holds marked nodes once each, and every marked node that is neither
        on the stack nor set aside has all its children marked. */
    ghost predicate Marking(nodes: seq<Node>, g: Graph<Node>, ext: map<Node, nat>, stack: seq<Node>, aside: set<Node>)
      requires forall n :: n in nodes ==> n in g && n in ext
      reads nodes`reachable
    {
      && Distinct(stack)
      && (forall n :: n in stack ==> n in nodes && n.reachable)
      && (forall n :: n in nodes && n.reachable ==> Live(nodes, g, ext, n))
      && (forall m, t ::
            m in nodes && t in nodes && Container(t) in g[m] && m.reachable && m !in stack && m !in aside ==>
              t.reachable)
    }

    ghost function Unmarked(nodes: seq<Node>): set<Node>
      reads nodes`reachable
    {
      set n | n in nodes && !n.reachable
    }

    /** Marks a node and pushes it, unless it is marked already or the stack is full. */
    method MarkReachable(start: Node, stack: seq<Node>, cap: nat) returns (top: seq<Node>)
      modifies start`reachable
      ensures old(start.reachable) || |stack| >= cap ==> top == stack && start.reachable == old(start.reachable)
      ensures !old(start.reachable) && |stack| < cap ==> top == stack + [start] && start.reachable
    {
      if start.reachable {
        return stack;
      }
      if |stack| >= cap {
        return stack;
      }
      start.reachable := true;
      top := stack + [start];
    }

    /** An unmarked node always finds room: the stack holds other nodes, each once. */
    lemma RoomOnStack(stack: seq<Node>, nodes: seq<Node>, n: Node)
      requires Distinct(stack) && n in nodes && n !in stack && forall m :: m in stack ==> m in nodes
      ensures |stack| < |nodes|
    {
      DistinctBound(stack + [n], nodes);
    }

    method MarkChild(node: Node, child: Node, stack: seq<Node>, nodes: seq<Node>,
                     ghost g: Graph<Node>, ghost ext: map<Node, nat>)
      returns (top: seq<Node>)
      requires forall n :: n in nodes ==> n in g && n in ext
      requires node in nodes && child in nodes && Container(child) in g[node]
      requires node.reachable && node !in stack && Marking(nodes, g, ext, stack, {node})
      modifies nodes`reachable
      ensures child.reachable && node !in top && Marking(nodes, g, ext, top, {node})
      ensures forall n :: n in nodes && old(n.reachable) ==> n.reachable
      ensures Unmarked(nodes) <= old(Unmarked(nodes))
      ensures Unmarked(nodes) == old(Unmarked(nodes)) ==> top == stack
    {
      hide Live;
      LiveStep(nodes, g, ext, node, child);
      if !child.reachable {
        RoomOnStack(stack, nodes, child);
        assert child in old(Unmarked(nodes));
      }
      top := MarkReachable(child, stack, |nodes|);
      assert child !in Unmarked(nodes);
    }

    method MarkChildren(node: Node, stack: seq<Node>, nodes: seq<Node>, ghost g: Graph<Node>, ghost ext: map<Node, nat>)
      returns (top: seq<Node>)
      requires forall n :: n in nodes ==> n.owner == this && n in g && n in ext
      requires Closed(nodes, g) && node in nodes && node.slots == g[node]
      requires node.reachable && node !in stack && Marking(nodes, g, ext, stack, {node})
      modifies nodes`reachable
      ensures Marking(nodes, g, ext, top, {})
      ensures forall n :: n in nodes && old(n.reachable) ==> n.reachable
      ensures Unmarked(nodes) <= old(Unmarked(nodes))
      ensures Unmarked(nodes) == old(Unmarked(nodes)) ==> top == stack
    {
      hide Marking, Unmarked, Live;
      top := stack;
      var i := 0;
      while i < |node.slots|
        invariant i <= |node.slots| && node !in top && node.reachable
        invariant Marking(nodes, g, ext, top, {node})
        invariant forall n :: n in nodes && old(n.reachable) ==> n.reachable
        invariant forall k :: 0 <= k < i && node.slots[k].Container? ==> node.slots[k].obj.reachable
        invariant Unmarked(nodes) <= old(Unmarked(nodes))
        invariant Unmarked(nodes) == old(Unmarked(nodes)) ==> top == stack
      {
        if node.slots[i].Container? && node.slots[i].obj.owner == this {
          top := MarkChild(node, node.slots[i].obj, top, nodes, g, ext);
        }
        i := i + 1;
      }
      ChildrenMarked(node, nodes, g, ext, top);
    }

    /** A node whose children are all marked need not be set aside. */
    lemma ChildrenMarked(node: Node, nodes: seq<Node>, g: Graph<Node>, ext: map<Node, nat>, stack: seq<Node>)
      requires forall n :: n in nodes ==> n in g && n in ext
      requires node in nodes && node.slots == g[node] && Marking(nodes, g, ext, stack, {node})
      requires forall k :: 0 <= k < |node.slots| && node.slots[k].Container? ==> node.slots[k].obj.reachable
      ensures Marking(nodes, g, ext, stack, {})
    {
    }

    method MarkRoots(nodes: seq<Node>, ghost g: Graph<Node>, ghost ext: map<Node, nat>) returns (stack: seq<Node>)
      requires forall n :: n in nodes ==> n.owner == this && n in g && n in ext
      requires forall n :: n in nodes ==> !n.reachable && n.gcRefs == ext[n]
      modifies nodes`reachable
      ensures Marking(nodes, g, ext, stack, {})
      ensures forall n :: n in nodes && ext[n] > 0 ==> n.reachable
    {
      stack := [];
      var i := 0;
      while i < |nodes|
        invariant i <= |nodes|
        invariant Distinct(stack) && forall n :: n in stack ==> n in nodes
        invariant forall n :: n in nodes ==> (n.reachable <==> n in stack)
        invariant forall n :: n in stack ==> ext[n] > 0
        invariant forall n :: n in nodes[..i] && ext[n] > 0 ==> n.reachable
      {
        var node := nodes[i];
        if node.owner == this && node.gcRefs > 0 {
          if !node.reachable { RoomOnStack(stack, nodes, node); }
          stack := MarkReachable(node, stack, |nodes|);
        }
        i := i + 1;
      }
      assert nodes[..i] == nodes;
      forall n | n in nodes && n.reachable ensures Live(nodes, g, ext, n) {
        LiveRoot(nodes, g, ext, n);
      }
    }

    method MarkLoop(nodes: seq<Node>, roots: seq<Node>, ghost g: Graph<Node>, ghost ext: map<Node, nat>)
      requires forall n :: n in nodes ==> n.owner == this && n in g && n in ext
      requires Closed(nodes, g) && forall n :: n in nodes ==> n.slots == g[n]
      requires Marking(nodes, g, ext, roots, {})
      modifies nodes`reachable
      ensures Marking(nodes, g, ext, [], {})
      ensures forall n :: n in nodes && old(n.reachable) ==> n.reachable
    {
      var stack := roots;
      while |stack| > 0
        invariant Marking(nodes, g, ext, stack, {})
        invariant forall n :: n in nodes && old(n.reachable) ==> n.reachable
        decreases Unmarked(nodes), |stack|
      {
        var top := |stack| - 1;
        var node := stack[top];
        assert forall m :: m in stack <==> m in stack[..top] || m == node;
        stack := MarkChildren(node, stack[..top], nodes, g, ext);
      }
    }

    /** After trial deletion and marking, exactly the live nodes are marked. */
    method MarkLive(nodes: seq<Node>, ghost g: Graph<Node>, ghost ext: map<Node, nat>)
      requires forall n :: n in nodes ==> n.owner == this && n in g && n in ext
      requires Closed(nodes, g) && forall n :: n in nodes ==> n.slots == g[n]
      requires forall n :: n in nodes ==> n.refCount == ext[n] + InEdges<Node>(nodes, g, n)
      modifies nodes`gcRefs, nodes`reachable
      ensures forall n :: n in nodes ==> n.gcRefs == ext[n]
      ensures forall n :: n in nodes ==> (n.reachable <==> Live(nodes, g, ext, n))
    {
      hide Marking, Live, InEdges;
      InitRefs(nodes);
      SubtractInternal(nodes, g);
      var stack := MarkRoots(nodes, g, ext);
      MarkLoop(nodes, stack, g, ext);
      MarkedIsLive(nodes, g, ext);
    }

    /** Marking that has run out of stack has found everything. */
    lemma MarkedIsLive(nodes: seq<Node>, g: Graph<Node>, ext: map<Node, nat>)
      requires forall n :: n in nodes ==> n in g && n in ext
      requires Marking(nodes, g, ext, [], {})
      requires forall n :: n in nodes && ext[n] > 0 ==> n.reachable
      ensures forall n :: n in nodes ==> (n.reachable <==> Live(nodes, g, ext, n))
    {
      hide Live;
      var marked := set n | n in nodes && n.reachable;
      ClosedSetHoldsAllLive(nodes, g, ext, marked);
    }

    method CollectUnreachable(nodes: seq<Node>) returns (garbage: seq<Node>)
      requires Distinct(nodes) && forall n :: n in nodes ==> n.owner == this
      ensures Distinct(garbage)
      ensures forall n :: n in garbage <==> n in nodes && !n.reachable
    {
      garbage := [];
      var i := 0;
      while i < |nodes|
        invariant i <= |nodes|
        invariant Distinct(garbage)
        invariant forall n :: n in garbage <==> n in nodes[..i] && !n.reachable
      {
        if nodes[i].owner == this && !nodes[i].reachable {
          garbage := garbage + [nodes[i]];
        }
        i := i + 1;
      }
      assert nodes[..i] == nodes;
    }

    // -------------------------------------------------------------------------------------------
    // Breaking the cycles
    // -------------------------------------------------------------------------------------------

    /** Every count is the outside references, a hold if there is one, and the slots that refer to the node. */
    ghost predicate Counted(nodes: seq<Node>, ext: map<Node, nat>, held: set<Node>)
      reads nodes`slots, nodes`refCount
    {
      && (forall n :: n in nodes ==> n in ext)
      && forall n :: n in nodes ==>
        n.refCount == ext[n] + (if n in held then 1 else 0) + InEdges<Node>(nodes, GraphOf(nodes), n)
    }

    /** Every node outside the garbage is kept by an outside reference or by another one outside the garbage. */
    ghost predicate Supported(nodes: seq<Node>, ext: map<Node, nat>, garbage: set<Node>)
      reads nodes`slots
    {
      && (forall n :: n in nodes ==> n in ext)
      && forall n: Node :: n in nodes && n !in garbage ==>
        ext[n] > 0 || exists m :: m in nodes && m !in garbage && Container(n) in m.slots
    }

    ghost predicate SlotsTracked(nodes: seq<Node>)
      reads nodes`slots
    {
      forall n, v :: n in nodes && v in n.slots && v.Container? ==> v.obj in nodes
    }

    /** obj_*_release up to the test for zero. */
    method DecRef(node: Node) returns (dead: bool)
      requires node.live
      modifies node`refCount
      ensures node.refCount == old(node.refCount) - 1
      ensures dead <==> node.refCount <= 0
    {
      node.refCount := node.refCount - 1;
      dead := node.refCount <= 0;
    }

    /** Takes a hold on every garbage node. */
    method HoldAll(garbage: seq<Node>, ghost nodes: seq<Node>, ghost ext: map<Node, nat>)
      requires Distinct(garbage) && forall n :: n in garbage ==> n in nodes && n.live
      requires Counted(nodes, ext, {})
      modifies garbage`refCount
      ensures Counted(nodes, ext, Members(garbage))
    {
      var i := 0;
      while i < |garbage|
        invariant i <= |garbage|
        invariant Counted(nodes, ext, Members(garbage[..i]))
      {
        hide InEdges;
        ghost var before := Members(garbage[..i]);
        assert Members(garbage[..i + 1]) == before + {garbage[i]};
        garbage[i].refCount := garbage[i].refCount + 1;
        i := i + 1;
      }
      assert garbage[..i] == garbage;
    }

    /** How the counts move when slot i of a node is emptied. */
    lemma SlotEmptied(nodes: seq<Node>, g: Graph<Node>, node: Node, i: nat, t: Node)
      requires forall n :: n in nodes ==> n in g
      requires Distinct(nodes) && node in nodes && i < |g[node]|
      ensures InEdges<Node>(nodes, g[node := g[node][i := Plain]], t)
              == InEdges<Node>(nodes, g, t) - if g[node][i] == Container(t) then 1 else 0
    {
      InEdgesUpdate(nodes, g, node, g[node][i := Plain], t);
      MultClear(g[node], i, t);
    }

    /** value_free on one slot of a garbage node: the referenced container loses one count and never its last. */
    method FreeSlot(node: Node, i: nat, ghost nodes: seq<Node>, ghost ext: map<Node, nat>, ghost garbage: set<Node>)
      requires Distinct(nodes) && node in nodes && node in garbage && i < |node.slots|
      requires SlotsTracked(nodes) && forall n :: n in nodes ==> n.live
      requires Counted(nodes, ext, garbage) && Supported(nodes, ext, garbage)
      modifies node`slots, nodes`refCount
      ensures node.slots == old(node.slots)[i := Plain]
      ensures SlotsTracked(nodes) && Counted(nodes, ext, garbage) && Supported(nodes, ext, garbage)
    {
      hide InEdges;
      ghost var g := GraphOf(nodes);
      ghost var h := g[node := g[node][i := Plain]];
      var v := node.slots[i];
      assert g[node] == node.slots;
      node.slots := node.slots[i := Plain];
      assert GraphOf(nodes) == h;
      forall t: Node | t in nodes
        ensures InEdges<Node>(nodes, h, t) == InEdges<Node>(nodes, g, t) - if v == Container(t) then 1 else 0
      {
        SlotEmptied(nodes, g, node, i, t);
      }
      if v.Container? {
        ghost var child := v.obj;
        StillReferenced(nodes, h, ext, garbage, child);
        var dead := DecRef(v.obj);
        assert !dead;
      }
    }

    lemma StillReferenced(nodes: seq<Node>, h: Graph<Node>, ext: map<Node, nat>, garbage: set<Node>, t: Node)
      requires h == GraphOf(nodes) && t in nodes && Supported(nodes, ext, garbage)
      ensures t in garbage || ext[t] > 0 || InEdges<Node>(nodes, h, t) > 0
    {
      if t !in garbage && ext[t] == 0 {
        var m :| m in nodes && m !in garbage && Container(t) in m.slots;
        InEdgesPositive(nodes, h, m, t);
      }
    }

    ghost predicate AllPlain(slots: seq<Value<Node>>) {
      forall i :: 0 <= i < |slots| ==> slots[i] == Plain
    }

    /** cycle_gc_clear_children: empties every slot, then resets the length of all containers but records. */
    method ClearChildren(node: Node, ghost nodes: seq<Node>, ghost ext: map<Node, nat>, ghost garbage: set<Node>)
      requires Distinct(nodes) && node in nodes && node in garbage
      requires SlotsTracked(nodes) && forall n :: n in nodes ==> n.live
      requires Counted(nodes, ext, garbage) && Supported(nodes, ext, garbage)
      modifies node`slots, nodes`refCount
      ensures AllPlain(node.slots)
      ensures SlotsTracked(nodes) && Counted(nodes, ext, garbage) && Supported(nodes, ext, garbage)
    {
      hide Counted, Supported, SlotsTracked;
      var i := 0;
      while i < |node.slots|
        invariant i <= |node.slots|
        invariant forall k :: 0 <= k < i ==> node.slots[k] == Plain
        invariant SlotsTracked(nodes) && Counted(nodes, ext, garbage) && Supported(nodes, ext, garbage)
      {
        FreeSlot(node, i, nodes, ext, garbage);
        i := i + 1;
      }
      if !node.kind.Record? {
        ResetLength(node, nodes, ext, garbage);
      }
    }

    /** Forgetting plain slots changes no count. */
    method ResetLength(node: Node, ghost nodes: seq<Node>, ghost ext: map<Node, nat>, ghost garbage: set<Node>)
      requires Distinct(nodes) && node in nodes && node in garbage && AllPlain(node.slots)
      requires SlotsTracked(nodes) && Counted(nodes, ext, garbage) && Supported(nodes, ext, garbage)
      modifies node`slots
      ensures node.slots == []
      ensures SlotsTracked(nodes) && Counted(nodes, ext, garbage) && Supported(nodes, ext, garbage)
    {
      hide InEdges;
      ghost var g := GraphOf(nodes);
      assert g[node] == node.slots;
      node.slots := [];
      assert GraphOf(nodes) == g[node := []];
      forall t: Node | t in nodes
        ensures InEdges<Node>(nodes, g[node := []], t) == InEdges<Node>(nodes, g, t)
      {
        InEdgesUpdate<Node>(nodes, g, node, [], t);
        MultPlain<Node>(g[node], t);
        MultPlain<Node>([], t);
      }
    }

    method ClearAll(garbage: seq<Node>, ghost nodes: seq<Node>, ghost ext: map<Node, nat>)
      requires Distinct(nodes) && forall n :: n in garbage ==> n in nodes
      requires SlotsTracked(nodes) && forall n :: n in nodes ==> n.live
      requires Counted(nodes, ext, Members(garbage)) && Supported(nodes, ext, Members(garbage))
      modifies garbage`slots, nodes`refCount
      ensures forall n :: n in garbage ==> AllPlain(n.slots)
      ensures SlotsTracked(nodes) && Counted(nodes, ext, Members(garbage)) && Supported(nodes, ext, Members(garbage))
    {
      hide Counted, Supported, SlotsTracked;
      var i := 0;
      while i < |garbage|
        invariant i <= |garbage|
        invariant forall n :: n in garbage[..i] ==> AllPlain(n.slots)
        invariant SlotsTracked(nodes)
        invariant Counted(nodes, ext, Members(garbage)) && Supported(nodes, ext, Members(garbage))
      {
        ClearChildren(garbage[i], nodes, ext, Members(garbage));
        i := i + 1;
      }
      assert garbage[..i] == garbage;
    }

    /** With the garbage emptied and nothing else referring to it, each garbage node's count is its hold alone. */
    lemma OnlyTheHoldIsLeft(nodes: seq<Node>, ext: map<Node, nat>, garbage: seq<Node>)
      requires Counted(nodes, ext, Members(garbage))
      requires forall n :: n in garbage ==> n in nodes && AllPlain(n.slots) && ext[n] == 0
      requires forall m, u: Node :: m in nodes && m !in garbage && u in garbage ==> Container(u) !in m.slots
      ensures forall n :: n in garbage ==> n.refCount == 1
    {
      forall u | u in garbage ensures u.refCount == 1 {
        InEdgesZero(nodes, GraphOf(nodes), u);
      }
    }

    /** obj_*_release of the hold: the last count goes, so the object is untracked and freed, with no child left. */
    method DropHold(node: Node, ghost ext: map<Node, nat>, ghost held: set<Node>)
      requires Linked() && node in tracked && node in held && node.live
      requires node.refCount == 1 && AllPlain(node.slots) && Counted(tracked, ext, held)
      modifies this`head, this`tail, this`trackedCount, this`tracked
      modifies tracked`owner, tracked`prev, tracked`next, node`refCount, node`live
      ensures Linked() && !node.live && node.owner == null
      ensures exists i :: 0 <= i < |old(tracked)| && old(tracked)[i] == node && tracked == Without(old(tracked), i)
      ensures Counted(tracked, ext, held - {node})
    {
      hide InEdges, Linked, Without, GraphOf;
      ghost var before, g := tracked, GraphOf(tracked);
      TrackedFacts(node);
      var dead := DecRef(node);
      assert dead;
      Untrack(node);
      node.live := false;
      ghost var i :| 0 <= i < |before| && before[i] == node && tracked == Without(before, i);
      StillDistinct(before, i);
      DropPreservesCounts(before, i, g, node);
    }

    lemma TrackedFacts(node: Node)
      requires Linked() && node in tracked
      ensures node.owner == this && Distinct(tracked)
    {
      var k :| 0 <= k < |tracked| && tracked[k] == node;
      assert tracked[k].owner == this;
    }

    lemma StillDistinct(before: seq<Node>, i: nat)
      requires Distinct(before) && i < |before|
      ensures forall n :: n in Without(before, i) <==> n in before && n != before[i]
    {
      Others(before, i);
    }

    lemma DropPreservesCounts(before: seq<Node>, i: nat, g: Graph<Node>, node: Node)
      requires Distinct(before) && i < |before| && before[i] == node && tracked == Without(before, i)
      requires g == GraphOf(before) && AllPlain(node.slots)
      ensures forall t :: t in tracked ==>
        InEdges<Node>(tracked, GraphOf(tracked), t) == InEdges<Node>(before, g, t)
    {
      forall t | t in tracked
        ensures InEdges<Node>(tracked, GraphOf(tracked), t) == InEdges<Node>(before, g, t)
      {
        InEdgesWithout(before, g, i, t);
        MultPlain(g[node], t);
        InEdgesSame(tracked, g, GraphOf(tracked), t);
      }
    }

    method DropAll(garbage: seq<Node>, ghost ext: map<Node, nat>)
      requires Linked() && Distinct(garbage)
      requires forall u :: u in garbage ==> u in tracked && u.live && u.refCount == 1 && AllPlain(u.slots)
      requires Counted(tracked, ext, Members(garbage))
      modifies this`head, this`tail, this`trackedCount, this`tracked
      modifies tracked`owner, tracked`prev, tracked`next, garbage`refCount, garbage`live
      ensures Linked() && Counted(tracked, ext, {})
      ensures forall n :: n in tracked <==> n in old(tracked) && n !in garbage
      ensures forall u :: u in garbage ==> !u.live
      ensures |tracked| == |old(tracked)| - |garbage|
    {
      hide Linked, Counted;
      var i := 0;
      assert garbage[0..] == garbage;
      while i < |garbage|
        invariant i <= |garbage| && Linked()
        invariant Counted(tracked, ext, Members(garbage[i..]))
        invariant forall n :: n in tracked <==> n in old(tracked) && n !in garbage[..i]
        invariant forall k :: 0 <= k < i ==> !garbage[k].live
        invariant forall k :: i <= k < |garbage| ==> garbage[k].live && garbage[k].refCount == 1
        invariant |tracked| == |old(tracked)| - i
      {
        ghost var before := tracked;
        var u := garbage[i];
        assert u in garbage && u !in garbage[..i];
        Within(tracked, old(tracked));
        Within([u], garbage);
        assert Members(garbage[i..]) - {u} == Members(garbage[i + 1..]);
        TrackedFacts(u);
        DropHold(u, ext, Members(garbage[i..]));
        ghost var k :| 0 <= k < |before| && before[k] == u && tracked == Without(before, k);
        StillDistinct(before, k);
        assert forall n :: n in garbage[..i + 1] <==> n in garbage[..i] || n == u;
        i := i + 1;
      }
      assert garbage[..i] == garbage && Members(garbage[i..]) == {};
    }

    /** What marking exactly the live nodes says about the rest. */
    lemma Verdict(nodes: seq<Node>, ext: map<Node, nat>, garbage: seq<Node>)
      requires forall n :: n in nodes ==> n in ext
      requires forall n :: n in garbage <==> n in nodes && !Live(nodes, GraphOf(nodes), ext, n)
      ensures Supported(nodes, ext, Members(garbage))
      ensures forall u :: u in garbage ==> ext[u] == 0
      ensures forall m, u: Node :: m in nodes && m !in garbage && u in garbage ==> Container(u) !in m.slots
    {
      hide LiveWithin;
      var g := GraphOf(nodes);
      forall u | u in garbage ensures ext[u] == 0 {
        if ext[u] > 0 { LiveRoot(nodes, g, ext, u); }
      }
      forall m, u: Node | m in nodes && m !in garbage && u in garbage ensures Container(u) !in m.slots {
        if Container(u) in m.slots { LiveStep<Node>(nodes, g, ext, m, u); }
      }
      forall n: Node | n in nodes && n !in garbage
        ensures ext[n] > 0 || exists m :: m in nodes && m !in garbage && Container(n) in m.slots
      {
        var k: nat :| n in LiveWithin(nodes, g, ext, k);
        LiveHasSupport<Node>(nodes, g, ext, n, k);
      }
    }

    /** Trial deletion and marking: the unmarked nodes are exactly the ones nothing outside leads to. */
    method FindGarbage(ghost ext: map<Node, nat>) returns (garbage: seq<Node>)
      requires Linked() && SlotsTracked(tracked) && Counted(tracked, ext, {})
      modifies tracked`gcRefs, tracked`reachable
      ensures Distinct(garbage)
      ensures forall n :: n in garbage <==> n in tracked && !Live(tracked, GraphOf(tracked), ext, n)
    {
      hide Live, InEdges;
      var nodes := Snapshot();
      ghost var g := GraphOf(nodes);
      assert forall n :: n in nodes ==> n.slots == g[n];
      AllOwned();
      MarkLive(nodes, g, ext);
      garbage := CollectUnreachable(nodes);
    }

    lemma AllOwned()
      requires Linked()
      ensures forall n :: n in tracked ==> n.owner == this
    {
      forall n | n in tracked ensures n.owner == this {
        TrackedFacts(n);
      }
    }

    /** Hold all, clear all, drop all. */
    method Reclaim(garbage: seq<Node>, ghost ext: map<Node, nat>)
      requires Linked() && SlotsTracked(tracked) && Counted(tracked, ext, {})
      requires forall n :: n in tracked ==> n.live
      requires Distinct(garbage)
      requires forall n :: n in garbage <==> n in tracked && !Live(tracked, GraphOf(tracked), ext, n)
      modifies this`head, this`tail, this`trackedCount, this`tracked
      modifies tracked`owner, tracked`prev, tracked`next, tracked`refCount, tracked`live, garbage`slots
      ensures Linked() && SlotsTracked(tracked) && Counted(tracked, ext, {})
      ensures forall n :: n in tracked <==> n in old(tracked) && n !in garbage
      ensures forall u :: u in garbage ==> !u.live
      ensures forall n :: n in tracked ==> n.live
      ensures |tracked| == |old(tracked)| - |garbage|
    {
      hide InEdges, Live, Linked;
      ghost var nodes := tracked;
      assert Distinct(nodes) by { LinkedDistinct(); }
      Verdict(nodes, ext, garbage);
      Within(garbage, nodes);
      HoldAll(garbage, nodes, ext);
      ClearAll(garbage, nodes, ext);
      OnlyTheHoldIsLeft(nodes, ext, garbage);
      DropAll(garbage, ext);
    }

    /** Containment, in the form a frame check can use. */
    lemma Within(a: seq<Node>, b: seq<Node>)
      requires forall n :: n in a ==> n in b
      ensures forall i :: 0 <= i < |a| ==> a[i] in b
    {
    }

    lemma LinkedDistinct()
      requires Linked()
      ensures Distinct(tracked) && trackedCount == |tracked|
    {
    }

    /** The collection itself, between the bookkeeping: find the garbage and reclaim it. */
    method Sweep(ghost ext: map<Node, nat>) returns (reclaimed: nat)
      requires Linked() && SlotsTracked(tracked) && Counted(tracked, ext, {})
      requires forall n :: n in tracked ==> n.live
      modifies this`head, this`tail, this`trackedCount, this`tracked, tracked
      ensures Linked() && SlotsTracked(tracked) && Counted(tracked, ext, {})
      ensures forall n :: n in tracked <==> n in old(tracked) && old(Live(tracked, GraphOf(tracked), ext, n))
      ensures forall n :: n in old(tracked) ==> (n.live <==> n in tracked)
      ensures forall n :: n in tracked ==> n.slots == old(n.slots)
      ensures |tracked| == |old(tracked)| - reclaimed
      ensures forall n :: n in tracked ==> Live(tracked, GraphOf(tracked), ext, n)
    {
      hide Linked, Live, Counted, SlotsTracked, GraphOf, Distinct;
      ghost var nodes, g := tracked, GraphOf(tracked);
      AllPresent(nodes, ext);
      var garbage := FindGarbage(ext);
      Within(garbage, tracked);
      Reclaim(garbage, ext);
      reclaimed := |garbage|;
      SurvivorsSame(g);
      KeptStaysLive(nodes, g, tracked, GraphOf(tracked), ext);
    }

    /** vm_gc_collect. */
    method Collect(ghost ext: map<Node, nat>) returns (reclaimed: int)
      requires Linked() && SlotsTracked(tracked) && Counted(tracked, ext, {})
      requires forall n :: n in tracked ==> n.live
      modifies this, tracked
      ensures Linked() && SlotsTracked(tracked) && Counted(tracked, ext, {})
      ensures old(isCollecting) ==> reclaimed == 0 && tracked == old(tracked)
      ensures !old(isCollecting) ==>
        forall n :: n in tracked <==> n in old(tracked) && old(Live(tracked, GraphOf(tracked), ext, n))
      ensures forall n :: n in old(tracked) ==> (n.live <==> n in tracked)
      ensures forall n :: n in tracked ==> n.slots == old(n.slots)
      ensures |tracked| == |old(tracked)| - reclaimed
      ensures !old(isCollecting) ==> !isCollecting
      ensures !old(isCollecting) ==> forall n :: n in tracked ==> Live(tracked, GraphOf(tracked), ext, n)
    {
      hide Linked, Live, Counted, SlotsTracked, GraphOf, Distinct;
      if isCollecting {
        return 0;
      }
      LinkedDistinct();
      if trackedCount <= 0 {
        return 0;
      }
      isCollecting := true;
      totalCollections := totalCollections + 1;
      lastReclaimed := 0;
      reclaimed := Sweep(ext);
      lastReclaimed := reclaimed;
      allocationsSinceCollect := 0;
      isCollecting := false;
    }

    lemma AllPresent(nodes: seq<Node>, ext: map<Node, nat>)
      requires Counted(nodes, ext, {})
      ensures forall n :: n in nodes ==> n in GraphOf(nodes) && n in ext && GraphOf(nodes)[n] == n.slots
    {
    }

    lemma SurvivorsSame(g: Graph<Node>)
      requires forall n :: n in tracked ==> n in g && g[n] == n.slots
      ensures forall n :: n in tracked ==> n in GraphOf(tracked) && GraphOf(tracked)[n] == g[n]
    {
    }
  }

  ghost function GraphOf(nodes: seq<Node>): Graph<Node>
    reads nodes`slots
  {
    map n | n in nodes :: n.slots
  }
}