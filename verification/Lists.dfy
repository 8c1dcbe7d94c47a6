/** The doubly linked list and the queue built on it. */
module Lists {

  // ----- sequences

  /** The position of the first match, or the length if there is none. */
  function IndexOf<T(==)>(s: seq<T>, d: T): (k: nat)
    ensures k <= |s| && (k < |s| ==> s[k] == d)
    ensures forall j :: 0 <= j < k ==> s[j] != d
    ensures k < |s| <==> d in s
  {
    if s == [] then 0 else if s[0] == d then 0 else IndexOf(s[1..], d) + 1
  }

  function Without<T>(s: seq<T>, k: nat): seq<T> {
    if k < |s| then s[..k] + s[k + 1..] else s
  }

  lemma WithoutAt<T>(s: seq<T>, k: nat)
    requires k < |s|
    ensures |Without(s, k)| == |s| - 1
    ensures forall i {:trigger Without(s, k)[i]} :: 0 <= i < |s| - 1 ==>
              Without(s, k)[i] == s[if i < k then i else i + 1]
  {
  }

  function RemoveFirst<T(==)>(s: seq<T>, d: T): seq<T> {
    Without(s, IndexOf(s, d))
  }

  /** Removing takes out one match and nothing else, and keeps the order. */
  lemma RemovesOne<T>(s: seq<T>, d: T)
    ensures multiset(RemoveFirst(s, d)) == multiset(s) - multiset{d}
    ensures d in s ==> var k := IndexOf(s, d); s == RemoveFirst(s, d)[..k] + [d] + RemoveFirst(s, d)[k..]
  {
    var k := IndexOf(s, d);
    if k < |s| {
      TakeOut(s, k);
    }
  }

  lemma TakeOut<T>(s: seq<T>, k: nat)
    requires k < |s|
    ensures var r := Without(s, k);
            s == r[..k] + [s[k]] + r[k..] && multiset(s) == multiset(r) + multiset{s[k]}
  {
    var r := Without(s, k);
    assert r[..k] == s[..k] && r[k..] == s[k + 1..];
    assert s == s[..k] + [s[k]] + s[k + 1..];
  }

  // ----- the list

  type Data = nat  // the address a node points to

  class Node {
    var data: Data
    var prev: Node?
    var next: Node?

    constructor (data: Data, prev: Node?, next: Node?)
      ensures this.data == data && this.prev == prev && this.next == next
    {
      this.data := data;
      this.prev := prev;
      this.next := next;
    }
  }

  /** The node at a position, null outside the list. */
  ghost function At(nodes: seq<Node>, i: int): Node? {
    if 0 <= i < |nodes| then nodes[i] else null
  }

  class List {
    var head: Node?
    var tail: Node?
    ghost var nodes: seq<Node>    // the nodes in order
    ghost var contents: seq<Data>       // their data
    ghost var storage: set<Node>  // the nodes allocated for this list and not freed

    ghost predicate Valid()
      reads this, nodes
    {
      && |contents| == |nodes|
      && head == At(nodes, 0) && tail == At(nodes, |nodes| - 1)
      && (forall i {:trigger nodes[i]} :: 0 <= i < |nodes| ==> nodes[i] in storage)
      && (forall i {:trigger nodes[i].data} :: 0 <= i < |nodes| ==> nodes[i].data == contents[i])
      && (forall i {:trigger nodes[i].next} :: 0 <= i < |nodes| ==> nodes[i].next == At(nodes, i + 1))
      && (forall i {:trigger nodes[i].prev} :: 0 <= i < |nodes| ==> nodes[i].prev == At(nodes, i - 1))
      && (forall i, j :: 0 <= i < j < |nodes| ==> nodes[i] != nodes[j])
    }

    constructor ()
      ensures Valid() && contents == [] && nodes == [] && storage == {}
    {
      head := null;
      tail := null;
      nodes := [];
      contents := [];
      storage := {};
    }

    // ----- walking along the links

    /** The node reached from the head by following next k times. */
    ghost function Ahead(k: nat): Node?
      reads this, nodes
      requires Valid()
    {
      if k == 0 then head
      else
        var n := Ahead(k - 1);
        if n in nodes then n.next else null
    }

    /** The node reached from the tail by following prev k times. */
    ghost function Behind(k: nat): Node?
      reads this, nodes
      requires Valid()
    {
      if k == 0 then tail
      else
        var n := Behind(k - 1);
        if n in nodes then n.prev else null
    }

    lemma {:induction false} WalkAhead(k: nat)
      requires Valid()
      ensures Ahead(k) == At(nodes, k)
    {
      if k > 0 {
        WalkAhead(k - 1);
      }
    }

    lemma {:induction false} WalkBehind(k: nat)
      requires Valid()
      ensures Behind(k) == At(nodes, |nodes| - 1 - k)
    {
      if k > 0 {
        WalkBehind(k - 1);
      }
    }

    /** Both walks end after as many nodes as there are data, and each is the reverse of the other. */
    lemma WalksMirror(k: nat)
      requires Valid()
      ensures Ahead(k) == null <==> k >= |contents|
      ensures Behind(k) == null <==> k >= |contents|
      ensures k < |contents| ==> Ahead(k).data == contents[k] && Behind(k) == Ahead(|contents| - 1 - k)
    {
      WalkAhead(k);
      WalkBehind(k);
      if k < |contents| {
        WalkAhead(|contents| - 1 - k);
      }
    }

    // ----- reading

    method Size() returns (num: nat)
      requires Valid()
      ensures num == |contents|
    {
      num := 0;
      var node := head;
      while node != null
        invariant num <= |nodes| && node == At(nodes, num)
        decreases |nodes| - num
      {
        node := node.next;
        num := num + 1;
      }
    }

    predicate Empty()
      requires Valid()
      reads this, nodes
      ensures Empty() <==> contents == []
    {
      head == null
    }

    method Front() returns (d: Data)
      requires Valid() && contents != []
      ensures d == contents[0]
    {
      d := head.data;
    }

    method Back() returns (d: Data)
      requires Valid() && contents != []
      ensures d == contents[|contents| - 1]
    {
      d := tail.data;
    }

    /** The loop shared by list_find and list_remove: the first node with the data, or null. */
    method FirstMatch(d: Data) returns (node: Node?)
      requires Valid()
      ensures node == At(nodes, IndexOf(contents, d))
    {
      ghost var i := 0;
      node := head;
      while node != null && node.data != d
        invariant i <= |nodes| && node == At(nodes, i) && forall j :: 0 <= j < i ==> contents[j] != d
        decreases |nodes| - i
      {
        node := node.next;
        i := i + 1;
      }
    }

    method Find(d: Data) returns (found: bool)
      requires Valid()
      ensures found <==> d in contents
    {
      var node := FirstMatch(d);
      found := node != null;
    }

    // ----- changing

    method PushFront(d: Data)
      requires Valid()
      modifies this, nodes
      ensures Valid() && contents == [d] + old(contents)
      ensures nodes[1..] == old(nodes) && fresh(nodes[0]) && storage == old(storage) + {nodes[0]}
    {
      var node := new Node(d, null, head);
      head := node;
      if head.next != null {
        head.next.prev := head;
      }
      if tail == null {
        tail := head;
      }
      nodes := [node] + nodes;
      contents := [d] + contents;
      storage := storage + {node};
    }

    method PushBack(d: Data)
      requires Valid()
      modifies this, nodes
      ensures Valid() && contents == old(contents) + [d]
      ensures |nodes| > 0 && nodes[..|nodes| - 1] == old(nodes) && fresh(nodes[|nodes| - 1])
      ensures storage == old(storage) + {nodes[|nodes| - 1]}
    {
      var node := new Node(d, tail, null);
      tail := node;
      if tail.prev != null {
        tail.prev.next := tail;
      }
      if head == null {
        head := tail;
      }
      nodes := nodes + [node];
      contents := contents + [d];
      storage := storage + {node};
    }

    method PopFront() returns (d: Data)
      requires Valid() && contents != []
      modifies this, nodes
      ensures Valid() && old(contents) == [d] + contents
      ensures nodes == old(nodes)[1..] && storage == old(storage) - {old(nodes)[0]}
    {
      var node := head;
      d := node.data;
      head := node.next;
      storage := storage - {node};
      nodes := nodes[1..];
      contents := contents[1..];
      if head == null {
        tail := null;
      } else {
        head.prev := null;
      }
    }

    method PopBack() returns (d: Data)
      requires Valid() && contents != []
      modifies this, nodes
      ensures Valid() && old(contents) == contents + [d]
      ensures nodes == old(nodes)[..|old(nodes)| - 1] && storage == old(storage) - {old(nodes)[|old(nodes)| - 1]}
    {
      var node := tail;
      d := node.data;
      tail := node.prev;
      storage := storage - {node};
      nodes := nodes[..|nodes| - 1];
      contents := contents[..|contents| - 1];
      if tail == null {
        head := null;
      } else {
        tail.next := null;
      }
    }

    /** Takes the first match out of the list; its node stays in the storage, where nothing will free it. */
    method Remove(d: Data)
      requires Valid()
      modifies this, nodes
      ensures Valid() && contents == RemoveFirst(old(contents), d)
              && nodes == Without(old(nodes), old(IndexOf(contents, d)))
      ensures storage == old(storage)
    {
      hide IndexOf;
      var node := FirstMatch(d);
      if node == null {
        return;
      }
      Unlink(node, IndexOf(contents, d));
    }

    /** A sequence of nodes all linked up but for node k, which the links skip. */
    ghost predicate Skips(ns: seq<Node>, k: nat)
      reads ns
    {
      && (forall i {:trigger ns[i].next} :: 0 <= i < |ns| && i != k ==>
            ns[i].next == At(ns, if i == k - 1 then k + 1 else i + 1))
      && (forall i {:trigger ns[i].prev} :: 0 <= i < |ns| && i != k ==>
            ns[i].prev == At(ns, if i == k + 1 then k - 1 else i - 1))
    }

    lemma Relinked(ns: seq<Node>, k: nat)
      requires k < |ns| && Skips(ns, k)
      ensures var ws := Without(ns, k);
              && (forall i {:trigger ws[i].next} :: 0 <= i < |ws| ==> ws[i].next == At(ws, i + 1))
              && (forall i {:trigger ws[i].prev} :: 0 <= i < |ws| ==> ws[i].prev == At(ws, i - 1))
    {
      WithoutAt(ns, k);
      hide Without;
    }

    /** The part of list_remove after the search. */
    method Unlink(node: Node, ghost k: nat)
      requires Valid() && k < |nodes| && node == nodes[k]
      modifies this, nodes
      ensures Valid() && contents == Without(old(contents), k) && nodes == Without(old(nodes), k)
      ensures storage == old(storage)
    {
      Bypass(node, k);
      Relinked(nodes, k);
      WithoutAt(nodes, k);
      WithoutAt(contents, k);
      hide Without;
      nodes := Without(nodes, k);
      contents := Without(contents, k);
    }

    method Bypass(node: Node, ghost k: nat)
      requires Valid() && k < |nodes| && node == nodes[k]
      modifies this`head, this`tail, nodes
      ensures Skips(nodes, k)
      ensures head == At(nodes, if k == 0 then 1 else 0)
              && tail == At(nodes, if k == |nodes| - 1 then k - 1 else |nodes| - 1)
      ensures forall i {:trigger nodes[i].data} :: 0 <= i < |nodes| ==> nodes[i].data == old(nodes[i].data)
    {
      if node.prev != null {
        node.prev.next := node.next;
      } else {
        head := node.next;
      }
      if node.next != null {
        node.next.prev := node.prev;
      } else {
        tail := node.prev;
      }
    }

    /** The loop of list_destroy: it ends, and frees all nodes of the list but none that were removed before. */
    method Clear()
      requires Valid()
      modifies this, nodes
      ensures Valid() && contents == [] && forall n :: n in storage <==> n in old(storage) && n !in old(nodes)
    {
      ghost var k := 0;
      while head != null
        invariant Valid() && k <= |old(nodes)| && nodes == old(nodes)[k..]
        invariant forall n :: n in storage <==> n in old(storage) && n !in old(nodes)[..k]
        decreases |contents|
      {
        var d := PopFront();
        assert old(nodes)[..k + 1] == old(nodes)[..k] + [old(nodes)[k]];
        k := k + 1;
      }
      assert old(nodes)[..k] == old(nodes);
    }
  }

  // ----- the queue

  class Queue {
    const list: List

    constructor ()
      ensures fresh(list) && list.Valid() && list.contents == []
    {
      list := new List();
    }

    method Enqueue(d: Data)
      requires list.Valid()
      modifies list, list.nodes
      ensures list.Valid() && list.contents == Queued(old(list.contents), Put(d)).0
      ensures fresh((set n | n in list.nodes) - (set n | n in old(list.nodes)))
    {
      list.PushBack(d);
    }

    method Dequeue() returns (d: Data)
      requires list.Valid() && list.contents != []
      modifies list, list.nodes
      ensures list.Valid() && (list.contents, [d]) == Queued(old(list.contents), Get)
    {
      d := list.PopFront();
    }
  }

  datatype QueueOp<T> = Put(d: T) | Get

  /** What an operation leaves in the queue and what it hands out. */
  function Queued<T>(s: seq<T>, op: QueueOp<T>): (seq<T>, seq<T>) {
    match op
    case Put(d) => (s + [d], [])
    case Get => if s == [] then ([], []) else (s[1..], s[..1])
  }

  function RunQueue<T>(s: seq<T>, ops: seq<QueueOp<T>>): (seq<T>, seq<T>)
    decreases |ops|
  {
    if ops == [] then (s, [])
    else
      var (s1, out) := Queued(s, ops[0]);
      var (s2, outs) := RunQueue(s1, ops[1..]);
      (s2, out + outs)
  }

  function Inputs<T>(ops: seq<QueueOp<T>>): seq<T> {
    if ops == [] then [] else (if ops[0].Put? then [ops[0].d] else []) + Inputs(ops[1..])
  }

  /**
   First in, first out, over any run: what came out followed by what is left is what was
   there followed by what came in.
   */
  lemma {:induction false} FirstInFirstOut<T>(s: seq<T>, ops: seq<QueueOp<T>>)
    ensures var (s1, outs) := RunQueue(s, ops); outs + s1 == s + Inputs(ops)
    decreases |ops|
  {
    if ops != [] {
      var (s1, out) := Queued(s, ops[0]);
      var (s2, outs) := RunQueue(s1, ops[1..]);
      FirstInFirstOut(s1, ops[1..]);
      calc {
        (out + outs) + s2;
        out + (outs + s2);
        out + (s1 + Inputs(ops[1..]));
        (out + s1) + Inputs(ops[1..]);
        s + Inputs(ops);
      }
    }
  }
}
