/** A doubly linked list whose head keeps a stale back link after a removal at the front. */
module LinkedList {

  class Node<T> {
    var prev: Node?<T>
    var next: Node?<T>
    const value: T

    constructor (value: T)
      ensures this.value == value && prev == null && next == null
    {
      this.value := value;
      prev, next := null, null;
    }
  }

  ghost function Nth<T>(ns: seq<Node<T>>, i: int): Node?<T> {
    if 0 <= i < |ns| then ns[i] else null
  }

  /** Forward links everywhere; back links everywhere but at the head. */
  ghost predicate Links<T>(ns: seq<Node<T>>, n: nat)
    requires n <= |ns|
    reads ns
  {
    n == 0 || (Links(ns, n - 1) && ns[n - 1].next == Nth(ns, n) && (n > 1 ==> ns[n - 1].prev == ns[n - 2]))
  }

  ghost predicate AllDistinct<T>(ns: seq<Node<T>>) {
    forall i, j :: 0 <= i < j < |ns| ==> ns[i] != ns[j]
  }

  ghost predicate AllLinked<T>(ns: seq<Node<T>>, n: nat)
    requires n <= |ns|
    reads ns
  {
    forall i :: 0 <= i < n ==> ns[i].next == Nth(ns, i + 1) && (i > 0 ==> ns[i].prev == Nth(ns, i - 1))
  }

  lemma {:induction false} LinksIntro<T>(ns: seq<Node<T>>, n: nat)
    requires n <= |ns| && AllLinked(ns, n)
    ensures Links(ns, n)
  {
    if n == 0 {
    } else {
      LinksIntro(ns, n - 1);
    }
  }

  lemma {:induction false} LinksElim<T>(ns: seq<Node<T>>, n: nat)
    requires n <= |ns| && Links(ns, n)
    ensures AllLinked(ns, n)
  {
    if n == 0 {
    } else {
      LinksElim(ns, n - 1);
    }
  }

  lemma {:induction false} Peek<T>(ns: seq<Node<T>>, i: nat)
    requires Links(ns, |ns|) && i < |ns|
    ensures ns[i].next == Nth(ns, i + 1) && (i > 0 ==> ns[i].prev == ns[i - 1])
  {
    LinksElim(ns, |ns|);
  }

  ghost function Values<T>(ns: seq<Node<T>>): (s: seq<T>)
    ensures |s| == |ns| && forall i :: 0 <= i < |ns| ==> s[i] == ns[i].value
  {
    seq(|ns|, i requires 0 <= i < |ns| => ns[i].value)
  }

  class LinkedList<T> {
    var head: Node?<T>
    var count: int
    ghost var nodes: seq<Node<T>>

    ghost predicate Valid()
      reads this, nodes
    {
      count == |nodes| && head == Nth(nodes, 0) && AllDistinct(nodes) && Links(nodes, |nodes|)
    }

    ghost function Contents(): seq<T>
      reads this
    {
      Values(nodes)
    }

    constructor ()
      ensures Valid() && Contents() == []
    {
      head, count, nodes := null, 0, [];
    }

    method At(index: nat) returns (x: T)
      requires Valid() && index < |Contents()|
      ensures x == Contents()[index]
    {
      var node := NodeAt(head, index, nodes);
      x := node.value;
    }

    method PushBack(x: T)
      requires Valid()
      modifies this, nodes
      ensures Valid() && Contents() == old(Contents()) + [x]
      ensures forall n :: n in nodes ==> n in old(nodes) || fresh(n)
    {
      hide Links, AllDistinct;
      count := count + 1;
      var node := new Node(x);
      ghost var ns := nodes;
      nodes := ns + [node];
      if head != null {
        var tail := TailOf(head, ns);
        LinkLast(tail, node, ns);
      } else {
        head := node;
        assert nodes == [node];
        SingleNode(node);
      }
    }

    method PushFront(x: T)
      requires Valid()
      modifies this, nodes
      ensures Valid() && Contents() == [x] + old(Contents())
      ensures forall n :: n in nodes ==> n in old(nodes) || fresh(n)
    {
      hide Links, AllDistinct;
      count := count + 1;
      var node := new Node(x);
      ghost var ns := nodes;
      nodes := [node] + ns;
      var oldHead := head;
      head := node;
      if oldHead != null {
        LinkFirst(oldHead, node, ns);
      } else {
        assert nodes == [node];
        SingleNode(node);
      }
    }

    /** Returns the removed value. */
    method Remove(index: nat) returns (x: T)
      requires Valid() && index < |Contents()|
      modifies this, nodes
      ensures Valid() && x == old(Contents())[index]
      ensures Contents() == old(Contents())[..index] + old(Contents())[index + 1..]
      ensures forall n :: n in nodes ==> n in old(nodes)
    {
      hide Without, AllDistinct, Values, Links, Nth;
      ghost var ns := nodes;
      WithoutNth(ns, index);
      WithoutValues(ns, index);
      count := count - 1;
      nodes := Without(ns, index);
      x, head := TakeOut(head, index, ns);
    }
  }

  /** Unlinks a node; returns its value and the head of the list without it. */
  method TakeOut<T>(head: Node?<T>, index: nat, ghost ns: seq<Node<T>>) returns (x: T, head': Node?<T>)
    requires index < |ns| && head == Nth(ns, 0) && Links(ns, |ns|) && AllDistinct(ns)
    modifies ns
    ensures x == ns[index].value && head' == Nth(Without(ns, index), 0) && Links(Without(ns, index), |ns| - 1)
  {
    assert Nth(ns, 0) == ns[0];
    WithoutNth(ns, index);
    hide Without, AllDistinct, Links, Nth, Values;
    if index == 0 {
      Peek(ns, 0);
      x := head.value;
      head' := head.next;
      DropHead(ns);
    } else {
      var node := NodeAt(head, index, ns);
      x, head' := node.value, head;
      Unlink(node, ns, index);
    }
  }

  lemma {:induction false} SingleNode<T>(node: Node<T>)
    requires node.next == null
    ensures Links([node], 1) && AllDistinct([node])
  {
  }

  /** Walks to the last node. */
  method TailOf<T>(head: Node<T>, ghost ns: seq<Node<T>>) returns (tail: Node<T>)
    requires |ns| > 0 && Links(ns, |ns|) && head == ns[0]
    ensures tail == ns[|ns| - 1]
  {
    hide Links;
    tail := head;
    ghost var i := 0;
    while tail.next != null
      invariant 0 <= i < |ns| && tail == ns[i]
      decreases |ns| - i
    {
      Peek(ns, i);
      tail, i := tail.next, i + 1;
    }
    Peek(ns, i);
  }

  /** Walks `index` links from the head. */
  method NodeAt<T>(head: Node?<T>, index: nat, ghost ns: seq<Node<T>>) returns (node: Node<T>)
    requires Links(ns, |ns|) && index < |ns| && head == ns[0]
    ensures node == ns[index]
  {
    node := head;
    for i := 0 to index
      invariant node == ns[i]
    {
      Peek(ns, i);
      node := node.next;
    }
  }

  lemma {:induction false} TailNth<T>(ns: seq<Node<T>>, k: nat)
    requires |ns| > 0
    ensures Nth(ns[1..], k) == Nth(ns, k + 1) && Without(ns, 0) == ns[1..]
  {
  }

  lemma {:induction false} DropHead<T>(ns: seq<Node<T>>)
    requires |ns| > 0 && Links(ns, |ns|)
    ensures Links(Without(ns, 0), |ns| - 1)
  {
    hide Nth, Without, Links, AllDistinct;
    var r := ns[1..];
    LinksElim(ns, |ns|);
    TailNth(ns, 0);
    forall k | 0 <= k < |r| ensures r[k].next == Nth(r, k + 1) && (k > 0 ==> r[k].prev == Nth(r, k - 1)) {
      assert r[k] == ns[k + 1];
      TailNth(ns, k + 1);
      if k > 0 { TailNth(ns, k - 1); }
    }
    LinksIntro(r, |r|);
  }

  method LinkLast<T>(tail: Node<T>, node: Node<T>, ghost ns: seq<Node<T>>)
    requires |ns| > 0 && tail == ns[|ns| - 1] && Links(ns, |ns|) && AllDistinct(ns) && node !in ns && node.next == null
    modifies tail, node
    ensures Links(ns + [node], |ns| + 1) && AllDistinct(ns + [node])
  {
    LinksElim(ns, |ns|);
    tail.next := node;
    node.prev := tail;
    LinksIntro(ns + [node], |ns| + 1);
  }

  lemma {:induction false} Prepended<T>(ns: seq<Node<T>>, node: Node<T>)
    requires |ns| > 0 && AllDistinct(ns) && node !in ns && node.next == ns[0] && ns[0].prev == node
    requires ns[0].next == Nth(ns, 1)
    requires forall k :: 0 < k < |ns| ==> ns[k].next == Nth(ns, k + 1) && ns[k].prev == Nth(ns, k - 1)
    ensures Links([node] + ns, |ns| + 1) && AllDistinct([node] + ns)
  {
    var ns' := [node] + ns;
    forall k | 0 <= k < |ns'| ensures ns'[k].next == Nth(ns', k + 1) && (k > 0 ==> ns'[k].prev == Nth(ns', k - 1)) {
      if k > 0 { assert ns'[k] == ns[k - 1]; }
    }
    LinksIntro(ns', |ns'|);
  }

  method LinkFirst<T>(head: Node<T>, node: Node<T>, ghost ns: seq<Node<T>>)
    requires |ns| > 0 && head == ns[0] && Links(ns, |ns|) && AllDistinct(ns) && node !in ns
    modifies head, node
    ensures Links([node] + ns, |ns| + 1) && AllDistinct([node] + ns)
  {
    LinksElim(ns, |ns|);
    head.prev := node;
    node.next := head;
    Prepended(ns, node);
  }

  ghost function Without<T>(ns: seq<Node<T>>, i: nat): (r: seq<Node<T>>)
    requires i < |ns|
    ensures |r| == |ns| - 1 && forall n :: n in r ==> n in ns
  {
    ns[..i] + ns[i + 1..]
  }

  lemma {:induction false} WithoutNth<T>(ns: seq<Node<T>>, i: nat)
    requires i < |ns| && AllDistinct(ns)
    ensures AllDistinct(Without(ns, i))
    ensures forall k {:trigger Nth(Without(ns, i), k)} :: Nth(Without(ns, i), k) == Nth(ns, if k < i then k else k + 1)
  {
  }

  lemma {:induction false} WithoutValues<T>(ns: seq<Node<T>>, i: nat)
    requires i < |ns|
    ensures |Values(ns)| == |ns| && Values(ns)[i] == ns[i].value
    ensures |Without(ns, i)| == |ns| - 1 && forall n :: n in Without(ns, i) ==> n in ns
    ensures Values(Without(ns, i)) == Values(ns)[..i] + Values(ns)[i + 1..]
  {
  }

  lemma {:induction false} Unlinked<T>(ns: seq<Node<T>>, i: nat)
    requires 0 < i < |ns| && AllDistinct(ns)
    requires forall k :: 0 <= k < |ns| && k != i && k != i - 1 ==> ns[k].next == Nth(ns, k + 1)
    requires forall k :: 0 < k < |ns| && k != i && k != i + 1 ==> ns[k].prev == Nth(ns, k - 1)
    requires ns[i - 1].next == Nth(ns, i + 1)
    requires i + 1 < |ns| ==> ns[i + 1].prev == Nth(ns, i - 1)
    ensures AllLinked(Without(ns, i), |ns| - 1)
  {
    var r := Without(ns, i);
    WithoutNth(ns, i);
    hide Nth;
    forall k | 0 <= k < |r| ensures r[k].next == Nth(r, k + 1) && (k > 0 ==> r[k].prev == Nth(r, k - 1)) {
      if k < i { assert r[k] == ns[k]; } else { assert r[k] == ns[k + 1]; }
    }
  }

  /** The predecessor of a node skips it; all other forward links stay. */
  method SkipForward<T>(node: Node<T>, ghost ns: seq<Node<T>>, ghost i: nat)
    requires 0 < i < |ns| && node == ns[i] && AllLinked(ns, |ns|) && AllDistinct(ns)
    modifies ns
    ensures forall k :: 0 <= k < |ns| ==> ns[k].prev == old(ns[k].prev)
    ensures ns[i - 1].next == Nth(ns, i + 1)
    ensures forall k :: 0 <= k < |ns| && k != i - 1 ==> ns[k].next == Nth(ns, k + 1)
  {
    NthIs(ns, i);
    hide Nth;
    if node.prev != null {
      node.prev.next := node.next;
    }
  }

  /** The successor of a node skips it; all other back links but the head's stay. */
  method SkipBack<T>(node: Node<T>, ghost ns: seq<Node<T>>, ghost i: nat)
    requires 0 < i < |ns| && node == ns[i] && AllDistinct(ns) && node.next == Nth(ns, i + 1)
    requires forall k :: 0 < k < |ns| ==> ns[k].prev == Nth(ns, k - 1)
    modifies ns
    ensures forall k :: 0 <= k < |ns| ==> ns[k].next == old(ns[k].next)
    ensures i + 1 < |ns| ==> ns[i + 1].prev == Nth(ns, i - 1)
    ensures forall k :: 0 < k < |ns| && k != i + 1 ==> ns[k].prev == Nth(ns, k - 1)
  {
    NthIs(ns, i);
    hide Nth;
    if node.next != null {
      node.next.prev := node.prev;
    }
  }

  /** Takes a node other than the head out of the list. */
  method Unlink<T>(node: Node<T>, ghost ns: seq<Node<T>>, ghost i: nat)
    requires 0 < i < |ns| && node == ns[i] && Links(ns, |ns|) && AllDistinct(ns)
    modifies ns
    ensures Links(Without(ns, i), |ns| - 1)
  {
    hide Nth, Links, Without, AllDistinct;
    LinksElim(ns, |ns|);
    SkipForward(node, ns, i);
    SkipBack(node, ns, i);
    Unlinked(ns, i);
    LinksIntro(Without(ns, i), |ns| - 1);
  }

  lemma {:induction false} NthIs<T>(ns: seq<Node<T>>, i: nat)
    requires 0 < i < |ns|
    ensures Nth(ns, i - 1) == ns[i - 1]
    ensures if i + 1 < |ns| then Nth(ns, i + 1) == ns[i + 1] else Nth(ns, i + 1) == null
  {
  }
}
