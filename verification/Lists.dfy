/** Intrusive circular doubly linked lists.  `List(head, s)` says that the ring through `head`
    holds the nodes s, in order; every operation is an operation on the sequence s. */
module Lists {
  import opened Sequences

  class Node {
    var prev: Node
    var next: Node

    /** A node alone in its ring: an empty list. */
    constructor ()
      ensures List(this, [])
    {
      prev, next := this, this;
    }
  }

  function Succ(n: nat, i: nat): nat {
    if i + 1 == n then 0 else i + 1
  }

  ghost predicate Ring(c: seq<Node>)
    reads c
  {
    && |c| > 0 && Distinct(c)
    && (forall i :: 0 <= i < |c| ==> c[i].next == c[Succ(|c|, i)])
    && (forall i :: 0 <= i < |c| ==> c[Succ(|c|, i)].prev == c[i])
  }

  ghost predicate List(head: Node, s: seq<Node>)
    reads head, s
  {
    Ring([head] + s)
  }

  /** Makes head the head of an empty list, whatever its links were. */
  method InitListHead(head: Node)
    modifies head
    ensures List(head, [])
  {
    head.next := head;
    head.prev := head;
  }

  method ListEmpty(head: Node, ghost s: seq<Node>) returns (empty: bool)
    requires List(head, s)
    ensures empty <==> s == []
  {
    empty := head.next == head;
    assert ([head] + s)[0] == head && (s != [] ==> ([head] + s)[1] == s[0]);
  }

  /** A ring can be read from any of its nodes. */
  lemma Rotate(c: seq<Node>, i: nat)
    requires Ring(c) && i <= |c|
    ensures Ring(c[i..] + c[..i])
  {
    var d := c[i..] + c[..i];
    var n := |c|;
    forall k | 0 <= k < n ensures d[k].next == d[Succ(n, k)] && d[Succ(n, k)].prev == d[k] {
      var m := if k + i < n then k + i else k + i - n;
      assert d[k] == c[m] && d[Succ(n, k)] == c[Succ(n, m)];
    }
  }

  /** Links n between the i-th node of a ring and its successor. */
  method AddBetween(n: Node, prev: Node, next: Node, ghost c: seq<Node>, ghost i: nat)
    requires Ring(c) && i < |c| && prev == c[i] && next == c[Succ(|c|, i)] && n !in c
    modifies n, prev, next
    ensures Ring(c[..i + 1] + [n] + c[i + 1..])
  {
    ghost var a, b := c[..i + 1], c[i + 1..];
    assert c == a + b;
    Rotate(c, i + 1);
    LastAndFirst(c, i);
    LinkLast(n, prev, next, b + a);
    Rotate((b + a) + [n], |b|);
    Halves(b, a, n);
  }

  lemma LastAndFirst(c: seq<Node>, i: nat)
    requires i < |c|
    ensures (c[i + 1..] + c[..i + 1])[|c| - 1] == c[i] && (c[i + 1..] + c[..i + 1])[0] == c[Succ(|c|, i)]
  {
  }

  lemma Halves(b: seq<Node>, a: seq<Node>, n: Node)
    ensures ((b + a) + [n])[|b|..] == a + [n] && ((b + a) + [n])[..|b|] == b
  {
  }

  method LinkLast(n: Node, prev: Node, next: Node, ghost r: seq<Node>)
    requires Ring(r) && prev == r[|r| - 1] && next == r[0] && n !in r
    modifies n, prev, next
    ensures Ring(r + [n])
  {
    n.next := next;
    n.prev := prev;
    next.prev := n;
    prev.next := n;
  }

  /** Inserts at the front. */
  method ListAdd(n: Node, head: Node, ghost s: seq<Node>)
    requires List(head, s) && n != head && n !in s
    modifies n, head, s
    ensures List(head, [n] + s)
  {
    ghost var c := [head] + s;
    assert head == c[0] && head.next == c[Succ(|c|, 0)];
    AddBetween(n, head, head.next, c, 0);
    assert c[..1] + [n] + c[1..] == [head] + ([n] + s);
  }

  /** Inserts at the back. */
  method ListAddTail(n: Node, head: Node, ghost s: seq<Node>)
    requires List(head, s) && n != head && n !in s
    modifies n, head, s
    ensures List(head, s + [n])
  {
    ghost var c := [head] + s;
    ghost var last := |c| - 1;
    assert Succ(|c|, last) == 0 && c[0] == head;
    assert head.prev == c[last];
    AddBetween(n, head.prev, head, c, last);
    assert c[..last + 1] + [n] + c[last + 1..] == [head] + (s + [n]);
  }

  /** Unlinks the i-th node; its own links are left as they were. */
  method ListDel(e: Node, ghost head: Node, ghost s: seq<Node>, ghost i: nat)
    requires List(head, s) && i < |s| && e == s[i]
    modifies head, s
    ensures List(head, s[..i] + s[i + 1..])
    ensures e.next == old(e.next) && e.prev == old(e.prev)
  {
    ghost var c := [head] + s;
    ghost var r := c[i + 2..] + c[..i + 1];
    Rotate(c, i + 2);
    assert c[i + 2..] + c[..i + 2] == r + [e];
    UnlinkLast(e, r);
    Rotate(r, |s| - i - 1);
    assert r[|s| - i - 1..] + r[..|s| - i - 1] == [head] + (s[..i] + s[i + 1..]);
  }

  method UnlinkLast(e: Node, ghost r: seq<Node>)
    requires |r| > 0 && Ring(r + [e])
    modifies r
    ensures Ring(r) && e.next == old(e.next) && e.prev == old(e.prev)
  {
    ghost var c := r + [e];
    assert c[|r|] == e && Succ(|c|, |r|) == 0 && Succ(|c|, |r| - 1) == |r|;
    assert e.next == r[0] && e.prev == r[|r| - 1];
    assert forall k :: 0 <= k < |r| - 1 ==> c[k].next == c[Succ(|c|, k)] && c[Succ(|c|, k)].prev == c[k];
    var n := e.next;
    var p := e.prev;
    p.next := n;
    n.prev := p;
    assert forall k :: 0 <= k < |r| ==> r[k] == c[k];
  }

  /** Unlinks and returns the first node; the code asserts that there is one. */
  method ListDelHead(head: Node, ghost s: seq<Node>) returns (e: Node)
    requires List(head, s) && s != []
    modifies head, s
    ensures e == s[0] && List(head, s[1..])
  {
    var empty := ListEmpty(head, s);
    assert !empty;
    e := head.next;
    assert ([head] + s)[0] == head && ([head] + s)[1] == s[0];
    ListDel(e, head, s, 0);
    assert s[..0] + s[1..] == s[1..];
  }
}
