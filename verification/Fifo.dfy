/**
 The intrusive first-in first-out queue: its elements are linked by pointers kept within
 the elements themselves.
 */
module Fifo {
  import opened Sequences

  class Element<T> {
    var next: Element?<T>
    var enqueued: bool
    var item: T

    constructor (item: T)
      ensures next == null && !enqueued && this.item == item
    {
      next, enqueued, this.item := null, false, item;
    }
  }

  /** What the `next` pointer of an element in a queue refers to. */
  function Succ<T>(s: seq<Element<T>>, i: nat): Element?<T> {
    if i + 1 < |s| then s[i + 1] else null
  }

  /** The element and its successor at position `j` once position `k` is dropped. */
  lemma SuccAfterDrop<T>(s: seq<Element<T>>, k: nat, j: nat)
    requires 0 < k < |s| && j < |s| - 1
    ensures Drop(s, k)[j] == s[if j < k then j else j + 1]
    ensures Succ(Drop(s, k), j) == Succ(s, if j < k - 1 then j else j + 1)
  {
  }

  class Queue<T> {
    var head: Element?<T>
    var tail: Element?<T>
    ghost var contents: seq<Element<T>>

    ghost predicate Valid()
      reads this, contents
    {
      && Distinct(contents)
      && (contents == [] ==> head == null && tail == null)
      && (contents != [] ==> head == contents[0] && tail == contents[|contents| - 1])
      && (forall i {:trigger contents[i].next} :: 0 <= i < |contents| ==> contents[i].next == Succ(contents, i))
      && forall e :: e in contents ==> e.enqueued
    }

    constructor ()
      ensures Valid() && contents == []
    {
      head, tail, contents := null, null, [];
    }

    method Empty() returns (empty: bool)
      requires Valid()
      ensures empty <==> contents == []
    {
      empty := tail == null;
    }

    method Enqueue(e: Element<T>)
      requires Valid() && e !in contents
      modifies this, contents, e
      ensures Valid() && contents == old(contents) + [e]
      ensures e.item == old(e.item)
      ensures forall c :: c in old(contents) ==> c.item == old(c.item) && c.enqueued
    {
      e.next := null;
      e.enqueued := true;
      if tail == null {
        head, tail, contents := e, e, [e];
        return;
      }
      tail.next := e;
      tail := e;
      contents := contents + [e];
    }

    /** Remove the head, if any. */
    method Dequeue() returns (result: Element?<T>)
      requires Valid()
      modifies this, contents
      ensures Valid()
      ensures old(contents) == [] ==> result == null && contents == []
      ensures old(contents) != [] ==>
                && result == old(contents)[0] && contents == old(contents)[1..]
                && result.next == null && !result.enqueued
      ensures forall c :: c in old(contents) ==> c.item == old(c.item) && (c in contents ==> c.enqueued)
    {
      result := head;
      if head == tail {
        head, tail := null, null;
      } else {
        head := head.next;
      }
      if result != null {
        result.next := null;
        result.enqueued := false;
        contents := contents[1..];
      }
    }

    /** The element in front of one that is behind the head, if that one is in the queue. */
    method Predecessor(qe: Element<T>) returns (e: Element?<T>, ghost i: nat)
      requires Valid() && contents != [] && qe != head
      ensures qe in contents <==> e != null
      ensures e != null ==> i + 1 < |contents| && e == contents[i] && qe == contents[i + 1]
    {
      e, i := head, 0;
      while e.next != null && e.next != qe
        invariant e != null && i < |contents| && e == contents[i]
        invariant qe !in contents[..i + 1]
        decreases |contents| - i
      {
        e := e.next;
        i := i + 1;
      }
      if e.next == null {
        assert contents[..i + 1] == contents;
        e := null;
      }
    }

    /** Skip the successor of an element in the list. */
    method Unlink(e: Element<T>, ghost i: nat)
      requires Valid() && i + 1 < |contents| && e == contents[i]
      modifies this, contents
      ensures Valid() && contents == old(Drop(contents, i + 1))
      ensures forall c :: c in old(contents) ==> c.item == old(c.item) && c.enqueued
    {
      ghost var was := contents;
      assert e.next == was[i + 1] && was[i + 1].next == Succ(was, i + 1);
      e.next := e.next.next;
      if e.next == null {
        tail := e;
      }
      contents := Drop(contents, i + 1);
      DropMeaning(was, i + 1);
      forall j | 0 <= j < |contents|
        ensures contents[j].next == Succ(contents, j)
      {
        SuccAfterDrop(was, i + 1, j);
        ghost var k := if j <= i then j else j + 1;
        assert contents[j] == was[k] && (j != i ==> was[k] != e);
        assert j != i ==> was[k].next == old(was[k].next) == Succ(was, k);
      }
    }

    method UnlinkHead()
      requires Valid() && contents != []
      modifies this, contents
      ensures Valid() && contents == old(contents[1..])
      ensures forall c :: c in old(contents) ==> c.item == old(c.item) && c.enqueued
    {
      head := head.next;
      if head == null {
        tail := null;
      }
      contents := contents[1..];
    }

    /** Remove an element wherever it is in the queue; nothing changes if it is not. */
    method Remove(qe: Element<T>)
      requires Valid()
      modifies this, contents
      ensures Valid() && contents == Without(old(contents), qe)
      ensures qe in old(contents) ==> qe.next == null && !qe.enqueued
      ensures forall c :: c in old(contents) ==> c.item == old(c.item) && (c in contents ==> c.enqueued)
    {
      WithoutMeaning(contents, qe);
      if tail == null {
        return;
      }
      if qe == head {
        UnlinkHead();
      } else {
        var e, i := Predecessor(qe);
        if e == null {
          WithoutAbsent(contents, qe);
          return;
        }
        WithoutAt(contents, i + 1);
        Unlink(e, i);
      }
      qe.next := null;
      qe.enqueued := false;
    }
  }
}
