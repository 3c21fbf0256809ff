/** SLIST: heads and entries of one forward link each. */
module Slist {
  import opened Cells
  import opened SeqOps

  ghost predicate IsSlist(head: Cell, s: seq<Cell>)
    reads head, s
  {
    head !in s && IsChain(head.next, s)
  }

  method Init(head: Cell)
    modifies head
    ensures IsSlist(head, [])
  {
    head.next := null;
  }

  method InsertHead(head: Cell, elm: Cell, ghost s: seq<Cell>)
    requires IsSlist(head, s) && elm != head && elm !in s
    modifies head, elm
    ensures IsSlist(head, [elm] + s)
  {
    DistinctConcat([elm], s);
    elm.next := head.next;
    head.next := elm;
  }

  method InsertAfter(ghost head: Cell, slistelm: Cell, elm: Cell, ghost s: seq<Cell>)
    requires IsSlist(head, s) && slistelm in s && elm != head && elm !in s
    modifies slistelm, elm
    ensures IsSlist(head, Put(s, After(slistelm), elm))
  {
    OnlyAround(s, IndexOf(s, slistelm));
    elm.next := slistelm.next;
    slistelm.next := elm;
  }

  method RemoveHead(head: Cell, ghost s: seq<Cell>)
    requires IsSlist(head, s) && s != []
    modifies head
    ensures IsSlist(head, Without(s, s[0]))
  {
    OnlyAt(s, 0);
    head.next := head.next.next;
  }

  method RemoveAfter(ghost head: Cell, slistelm: Cell, ghost s: seq<Cell>)
    requires IsSlist(head, s) && HasNext(s, slistelm)
    modifies slistelm
    ensures IsSlist(head, Without(s, NextOf(s, slistelm)))
  {
    OnlyAround(s, IndexOf(s, slistelm));
    OnlyAt(s, IndexOf(s, slistelm) + 1);
    slistelm.next := slistelm.next.next;
  }

  /** The linear scan stops in front of `elm`. */
  method Remove(head: Cell, elm: Cell, ghost s: seq<Cell>)
    requires IsSlist(head, s) && elm in s
    modifies head, s
    ensures IsSlist(head, Without(s, elm))
  {
    if head.next == elm {
      OnlyAt(s, 0);
      RemoveHead(head, s);
    } else {
      var curelm: Cell := head.next;
      ghost var i: nat := 0;
      OnlyAt(s, IndexOf(s, elm));
      while curelm.next != elm
        invariant i < IndexOf(s, elm) && curelm == s[i]
        decreases |s| - i
      {
        curelm := curelm.next;
        i := i + 1;
      }
      OnlyAround(s, i);
      curelm.next := curelm.next.next;
    }
  }
}
