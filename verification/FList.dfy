/** The circular doubly linked list of include/flist.h. */
module FList {
  import opened Base

  /** struct flist_head together with the structure it is embedded in, which item stands for. */
  class Node {
    const item: int
    var next: Node?
    var prev: Node?

    constructor (item: int)
      ensures this.item == item
    {
      this.item := item;
      next, prev := null, null;
    }
  }

  ghost function At(head: Node, s: seq<Node>, i: int): Node {
    if 0 <= i < |s| then s[i] else head
  }

  /** From head the list runs through s and back to head, in both directions. */
  ghost predicate Ring(head: Node, s: seq<Node>)
    reads head, s
  {
    && head !in s && NoDup(s)
    && head.next == At(head, s, 0) && head.prev == At(head, s, |s| - 1)
    && (forall i {:trigger s[i].next} :: 0 <= i < |s| ==> s[i].next == At(head, s, i + 1))
    && (forall i {:trigger s[i].prev} :: 0 <= i < |s| ==> s[i].prev == At(head, s, i - 1))
  }

  ghost function Items(s: seq<Node>): seq<int> {
    seq(|s|, i requires 0 <= i < |s| => s[i].item)
  }

  /** INIT_FLIST_HEAD. */
  method InitHead(head: Node)
    modifies head
    ensures Ring(head, []) && head.next == head && head.prev == head
  {
    head.next := head;
    head.prev := head;
  }

  /** __flist_add, between two neighbours of the list. */
  method AddBetween(n: Node, prev: Node, next: Node, ghost head: Node, ghost s: seq<Node>, ghost i: nat)
    requires Ring(head, s) && n != head && n !in s
    requires i <= |s| && prev == At(head, s, i - 1) && next == At(head, s, i)
    modifies n`next, n`prev, prev`next, next`prev
    ensures Ring(head, s[..i] + [n] + s[i..])
  {
    next.prev := n;
    n.next := next;
    n.prev := prev;
    prev.next := n;
    ghost var r := s[..i] + [n] + s[i..];
    Inserted(s, n, i);
    forall k | 0 <= k < |r|
      ensures r[k].next == At(head, r, k + 1) && r[k].prev == At(head, r, k - 1)
    {
    }
  }

  lemma Inserted(s: seq<Node>, n: Node, i: nat)
    requires i <= |s| && NoDup(s) && n !in s
    ensures var r := s[..i] + [n] + s[i..];
            && NoDup(r)
            && forall k :: 0 <= k < |r| ==> r[k] == if k < i then s[k] else if k == i then n else s[k - 1]
  {}

  method AddTail(n: Node, head: Node, ghost s: seq<Node>)
    requires Ring(head, s) && n != head && n !in s
    modifies n, head, s
    ensures Ring(head, s + [n])
  {
    AddBetween(n, head.prev, head, head, s, |s|);
    assert s[..|s|] + [n] + s[|s|..] == s + [n];
  }

  method AddFirst(n: Node, head: Node, ghost s: seq<Node>)
    requires Ring(head, s) && n != head && n !in s
    modifies n, head, s
    ensures Ring(head, [n] + s)
  {
    AddBetween(n, head, head.next, head, s, 0);
    assert s[..0] + [n] + s[0..] == [n] + s;
  }

  /** __flist_del. */
  method DelBetween(prev: Node, next: Node, ghost head: Node, ghost s: seq<Node>, ghost i: nat)
    requires Ring(head, s) && i < |s| && prev == At(head, s, i - 1) && next == At(head, s, i + 1)
    modifies prev`next, next`prev
    ensures Ring(head, Delete(s, i))
  {
    next.prev := prev;
    prev.next := next;
    ghost var r := Delete(s, i);
    DeleteInside(s, i);
    forall k | 0 <= k < |r|
      ensures r[k].next == At(head, r, k + 1)
    {
      if k < i - 1 { assert r[k] == s[k]; } else if k == i - 1 { assert r[k] == prev; } else { assert r[k] == s[k + 1]; }
    }
    forall k | 0 <= k < |r|
      ensures r[k].prev == At(head, r, k - 1)
    {
      if k < i { assert r[k] == s[k]; } else if k == i { assert r[k] == next; } else { assert r[k] == s[k + 1]; }
    }
  }

  /** flist_del. */
  method Del(entry: Node, ghost head: Node, ghost s: seq<Node>, ghost i: nat)
    requires Ring(head, s) && i < |s| && s[i] == entry
    modifies entry, head, s
    ensures Ring(head, Delete(s, i)) && entry.next == null && entry.prev == null
  {
    DelBetween(entry.prev, entry.next, head, s, i);
    DeleteInside(s, i);
    entry.next := null;
    entry.prev := null;
  }

  method Empty(head: Node, ghost s: seq<Node>) returns (empty: bool)
    requires Ring(head, s)
    ensures empty <==> s == []
  {
    empty := head.next == head;
  }

  /** flist_for_each_safe with every entry deleted on the way: each is met once, in order. */
  method Drain(head: Node, ghost s: seq<Node>) returns (met: seq<int>)
    requires Ring(head, s)
    modifies head, s
    ensures Ring(head, []) && met == Items(s)
  {
    met := [];
    var pos := head.next;
    var n := pos.next;
    ghost var rest := s;
    assert [] + Items(s) == Items(s);
    while pos != head
      invariant Ring(head, rest) && (forall i :: 0 <= i < |rest| ==> rest[i] in s)
      invariant pos == At(head, rest, 0) && (rest != [] ==> n == At(head, rest, 1))
      invariant met + Items(rest) == Items(s)
      decreases |rest|
    {
      assert pos == rest[0];
      Del(pos, head, rest, 0);
      FirstItem(met, rest);
      met := met + [pos.item];
      rest := Delete(rest, 0);
      pos := n;
      n := pos.next;
    }
  }

  lemma FirstItem(met: seq<int>, rest: seq<Node>)
    requires rest != []
    ensures met + [rest[0].item] + Items(Delete(rest, 0)) == met + Items(rest)
    ensures forall x :: x in Delete(rest, 0) ==> x in rest
  {}
}
