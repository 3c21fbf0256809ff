/** LIST: a head of one forward link, entries linked both ways. */
module List {
  import opened Cells
  import opened SeqOps

  ghost predicate IsList(head: Cell, s: seq<Cell>)
    reads head, s
  {
    head !in s && IsChain(head.next, s) && IsBackLinked(head, s)
  }

  /** LIST_MOVE carries the forward chain over, but the first member goes on naming
      the old head as the owner of the slot in front of it. */
  ghost predicate IsMoved(from: Cell, to: Cell, s: seq<Cell>)
    reads from, to, s
  {
    && from !in s && to !in s && from != to
    && from.next == null && IsChain(to.next, s) && IsBackLinked(from, s)
  }

  /** A list as it was built or as LIST_MOVE left it: `front` is the head that the
      first member names. */
  ghost predicate IsListOrMoved(front: Cell, head: Cell, s: seq<Cell>)
    reads front, head, s
  {
    if front == head then IsList(head, s) else IsMoved(front, head, s)
  }

  method Init(head: Cell)
    modifies head
    ensures IsList(head, [])
  {
    head.next := null;
  }

  /** The head insertion re-points the first member, so it repairs a moved list, on
      which only the debugging check objects. */
  method InsertHead(build: Build, head: Cell, elm: Cell, ghost front: Cell, ghost s: seq<Cell>)
      returns (aborted: bool)
    requires IsListOrMoved(front, head, s) && elm != head && elm != front && elm !in s
    modifies head, elm, s
    ensures IsList(head, [elm] + s)
    ensures aborted <==> build.Debug? && front != head && s != []
  {
    DistinctConcat([elm], s);
    if s != [] {
      OnlyAt(s, 0);
    }
    aborted := build.Debug? && !InsertHeadCheck(head);
    elm.next := head.next;
    if elm.next != null {
      head.next.prev := elm;
    }
    head.next := elm;
    elm.prev := head;
  }

  method InsertAfter(build: Build, ghost head: Cell, listelm: Cell, elm: Cell, ghost s: seq<Cell>)
      returns (aborted: bool)
    requires IsList(head, s) && listelm in s && elm != head && elm !in s
    modifies elm, s
    ensures IsList(head, Put(s, After(listelm), elm)) && !aborted
  {
    OnlyAround(s, IndexOf(s, listelm));
    PutAround(s, After(listelm), elm);
    aborted := build.Debug? && !OpCheck(listelm);
    elm.next := listelm.next;
    if elm.next != null {
      listelm.next.prev := elm;
    }
    listelm.next := elm;
    elm.prev := listelm;
  }

  method InsertBefore(build: Build, ghost head: Cell, listelm: Cell, elm: Cell, ghost s: seq<Cell>)
      returns (aborted: bool)
    requires IsList(head, s) && listelm in s && elm != head && elm !in s
    modifies head, elm, s
    ensures IsList(head, Put(s, Before(listelm), elm)) && !aborted
  {
    OnlyAround(s, IndexOf(s, listelm));
    PutAround(s, Before(listelm), elm);
    aborted := build.Debug? && !OpCheck(listelm);
    elm.prev := listelm.prev;
    elm.next := listelm;
    listelm.prev.next := elm;
    listelm.prev := elm;
  }

  /** The two writes of LIST_REMOVE.  No head and no loop: the element alone says which
      slot to rewrite. */
  method Unlink(elm: Cell, ghost front: Cell, ghost s: seq<Cell>)
    requires front !in s && elm in s && IsChain(s[0], s) && IsBackLinked(front, s)
    modifies front, s
    ensures var r := Without(s, elm); IsChain(if r == [] then null else r[0], r) && IsBackLinked(front, r)
    ensures front.next == (if elm == s[0] then elm.next else old(front.next))
    ensures elm.next == old(elm.next) && elm.prev == old(elm.prev)
  {
    OnlyAround(s, IndexOf(s, elm));
    WithoutAround(s, elm);
    if elm.next != null {
      elm.next.prev := elm.prev;
    }
    elm.prev.next := elm.next;
  }

  /** On a moved list the first member names the old head, so its removal is lost on the
      new head and puts the other members back on the old one. */
  method Remove(build: Build, ghost head: Cell, elm: Cell, ghost front: Cell, ghost s: seq<Cell>)
      returns (aborted: bool)
    requires IsListOrMoved(front, head, s) && elm in s
    modifies front, s
    ensures front == head ==> IsList(head, Without(s, elm)) && !aborted
    ensures front != head && elm != s[0] ==> IsMoved(front, head, Without(s, elm)) && !aborted
    ensures front != head && elm == s[0] ==>
      head.next == elm && IsList(front, Without(s, elm)) && aborted == build.Debug?
    ensures build.Release? ==> elm.next == old(elm.next) && elm.prev == old(elm.prev)
    ensures build.Debug? ==> elm.next == build.poison && elm.prev == build.poison
  {
    OnlyAround(s, IndexOf(s, elm));
    Gone(s, elm);
    aborted := build.Debug? && !OpCheck(elm);
    Unlink(elm, front, s);
    PostRemove(build, elm);
  }

  method Replace(build: Build, ghost head: Cell, elm: Cell, elm2: Cell, ghost s: seq<Cell>)
    requires IsList(head, s) && elm in s && elm2 != head && elm2 !in s
    modifies head, elm2, s
    ensures IsList(head, Swapped(s, elm, elm2))
    ensures build.Release? ==> elm.next == old(elm.next) && elm.prev == old(elm.prev)
    ensures build.Debug? ==> elm.next == build.poison && elm.prev == build.poison
  {
    OnlyAround(s, IndexOf(s, elm));
    elm2.next := elm.next;
    if elm2.next != null {
      elm2.next.prev := elm2;
    }
    elm2.prev := elm.prev;
    elm2.prev.next := elm2;
    assert IsList(head, Swapped(s, elm, elm2));
    SwappedOut(s, elm, elm2);
    PostRemove(build, elm);
  }

  method Move(head1: Cell, head2: Cell, ghost s: seq<Cell>)
    requires IsList(head1, s) && head2 !in s
    modifies head1, head2
    ensures head1 != head2 ==> IsMoved(head1, head2, s)
    ensures head1 == head2 ==> IsList(head2, [])
  {
    Init(head2);
    if head1.next != null {
      head2.next := head1.next;
      Init(head1);
    }
  }

  /** So the target is a well-formed list exactly when nothing was moved. */
  lemma {:induction false} MovedIsListOnlyIfEmpty(from: Cell, to: Cell, s: seq<Cell>)
    requires IsMoved(from, to, s)
    ensures IsList(to, s) <==> s == []
  {
    if s != [] {
      assert s[0].prev == from;
    }
  }

  /** The debugging checks notice exactly then, at the head and at the first member. */
  lemma {:induction false} ChecksNoticeMove(from: Cell, to: Cell, s: seq<Cell>)
    requires IsMoved(from, to, s)
    ensures InsertHeadCheck(to) <==> s == []
    ensures s != [] ==> !OpCheck(s[0])
    ensures forall i :: 0 < i < |s| ==> OpCheck(s[i])
  {
    forall i | 0 < i < |s| ensures OpCheck(s[i]) {
      assert s[i].prev == s[i - 1] && s[i - 1].next == s[i];
      if i + 1 < |s| {
        assert s[i + 1].prev == s[i];
      }
    }
    if s != [] {
      assert s[0].prev == from;
    }
  }
}
