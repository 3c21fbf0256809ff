/** SIMPLEQ and STAILQ, whose macros are the same but for the field names: forward
    links, and a tail pointer in the head. */
module Simpleq {
  import opened Cells
  import opened SeqOps

  ghost predicate IsSimpleq(head: Cell, s: seq<Cell>)
    reads head, s
  {
    head !in s && IsChain(head.next, s) && IsTailed(head, s)
  }

  method Init(head: Cell)
    modifies head
    ensures IsSimpleq(head, [])
  {
    head.next := null;
    head.prev := head;
  }

  method InsertHead(head: Cell, elm: Cell, ghost s: seq<Cell>)
    requires IsSimpleq(head, s) && elm != head && elm !in s
    modifies head, elm
    ensures IsSimpleq(head, [elm] + s)
  {
    DistinctConcat([elm], s);
    elm.next := head.next;
    if elm.next == null {
      head.prev := elm;
    }
    head.next := elm;
  }

  method InsertTail(head: Cell, elm: Cell, ghost s: seq<Cell>)
    requires IsSimpleq(head, s) && elm != head && elm !in s
    modifies head, elm, s
    ensures IsSimpleq(head, s + [elm])
  {
    DistinctConcat(s, [elm]);
    if s != [] {
      OnlyAt(s, |s| - 1);
    }
    elm.next := null;
    head.prev.next := elm;
    head.prev := elm;
  }

  method InsertAfter(head: Cell, listelm: Cell, elm: Cell, ghost s: seq<Cell>)
    requires IsSimpleq(head, s) && listelm in s && elm != head && elm !in s
    modifies head, elm, s
    ensures IsSimpleq(head, Put(s, After(listelm), elm))
  {
    OnlyAround(s, IndexOf(s, listelm));
    elm.next := listelm.next;
    if elm.next == null {
      head.prev := elm;
    }
    listelm.next := elm;
  }

  method RemoveHead(head: Cell, ghost s: seq<Cell>)
    requires IsSimpleq(head, s) && s != []
    modifies head
    ensures IsSimpleq(head, Without(s, s[0]))
  {
    OnlyAt(s, 0);
    head.next := head.next.next;
    if head.next == null {
      head.prev := head;
    }
  }

  method RemoveAfter(head: Cell, elm: Cell, ghost s: seq<Cell>)
    requires IsSimpleq(head, s) && HasNext(s, elm)
    modifies head, s
    ensures IsSimpleq(head, Without(s, NextOf(s, elm)))
  {
    OnlyAround(s, IndexOf(s, elm));
    OnlyAt(s, IndexOf(s, elm) + 1);
    elm.next := elm.next.next;
    if elm.next == null {
      head.prev := elm;
    }
  }

  /** The linear scan stops in front of `elm`. */
  method Remove(head: Cell, elm: Cell, ghost s: seq<Cell>)
    requires IsSimpleq(head, s) && elm in s
    modifies head, s
    ensures IsSimpleq(head, Without(s, elm))
  {
    if head.next == elm {
      OnlyAt(s, 0);
      RemoveHead(head, s);
    } else {
      var curelm: Cell := head.next;
      ghost var i: nat := 0;
      OnlyAt(s, IndexOf(s, elm));
      while curelm.next != elm
        invariant i < IndexOf(s, elm) && curelm == s[i]
        decreases |s| - i
      {
        curelm := curelm.next;
        i := i + 1;
      }
      OnlyAround(s, i);
      curelm.next := curelm.next.next;
      if curelm.next == null {
        head.prev := curelm;
      }
    }
  }

  method Concat(head1: Cell, head2: Cell, ghost s1: seq<Cell>, ghost s2: seq<Cell>)
    requires IsSimpleq(head1, s1) && IsSimpleq(head2, s2)
    requires head1 != head2 && head1 !in s2 && head2 !in s1 && forall x :: x in s1 ==> x !in s2
    modifies head1, head2, s1
    ensures IsSimpleq(head1, s1 + s2) && IsSimpleq(head2, [])
  {
    ghost var r := s1 + s2;
    DistinctConcat(s1, s2);
    if s2 == [] {
      assert r == s1;
    } else if s1 != [] {
      OnlyAt(s1, |s1| - 1);
    }
    forall i, j | 0 <= i < |s1| && 0 <= j < |s2| ensures s1[i] != s2[j] {
      assert s1[i] in s1 && s2[j] in s2;
    }
    assert forall k {:trigger r[k]} :: 0 <= k < |r| ==> r[k] == (if k < |s1| then s1[k] else s2[k - |s1|]);
    if head2.next != null {
      head1.prev.next := head2.next;
      head1.prev := head2.prev;
      Init(head2);
    }
  }

  /** SIMPLEQ_LAST: the element that contains the slot addressed by the tail pointer. */
  function Last(head: Cell): Cell?
    reads head
  {
    if head.next == null then null else head.prev
  }

  lemma {:induction false} LastIsLast(head: Cell, s: seq<Cell>)
    requires IsSimpleq(head, s)
    ensures Last(head) == (if s == [] then null else s[|s| - 1])
  {
  }
}
