/** TAILQ: a head of first element and tail pointer, entries linked both ways. */
module Tailq {
  import opened Cells
  import opened SeqOps

  /** `head` is a tail queue holding exactly the members `s`, in that order.  The
      predicate fixes every link of the head and of each member. */
  ghost predicate IsTailq(head: Cell, s: seq<Cell>)
    reads head, s
  {
    head !in s && IsChain(head.next, s) && IsBackLinked(head, s) && IsTailed(head, s)
  }

  /** The links of the head and of each member, as they are. */
  ghost function Links(head: Cell, s: seq<Cell>): seq<(Cell?, Cell)>
    reads head, s
  {
    seq(|s| + 1, k requires 0 <= k <= |s| reads head, s =>
      if k == 0 then (head.next, head.prev) else (s[k - 1].next, s[k - 1].prev))
  }

  /** The links that a queue of the members `s` has, whatever the heap. */
  ghost function LinksFor(head: Cell, s: seq<Cell>): seq<(Cell?, Cell)> {
    seq(|s| + 1, k requires 0 <= k <= |s| =>
      (if k < |s| then s[k] else null,
       if k == 0 then (if s == [] then head else s[|s| - 1]) else if k == 1 then head else s[k - 2]))
  }

  lemma {:induction false} LinksDetermined(head: Cell, s: seq<Cell>)
    requires Distinct(s) && head !in s
    ensures IsTailq(head, s) <==> Links(head, s) == LinksFor(head, s)
  {
    var a, b := Links(head, s), LinksFor(head, s);
    if IsTailq(head, s) {
      forall k | 0 <= k <= |s| ensures a[k] == b[k] {
        if k > 0 {
          assert s[k - 1].next == (if k < |s| then s[k] else null);
          assert s[k - 1].prev == (if k == 1 then head else s[k - 2]);
        }
      }
    } else if a == b {
      assert a[0] == b[0];
      assert head.next == (if s == [] then null else s[0]) && head.prev == (if s == [] then head else s[|s| - 1]);
      forall i | 0 <= i < |s|
        ensures s[i].next == (if i + 1 < |s| then s[i + 1] else null)
        ensures s[i].prev == (if i == 0 then head else s[i - 1])
      {
        assert a[i + 1] == b[i + 1];
      }
    }
  }

  predicate InsertTailCheck(head: Cell)
    reads head, head.prev
  {
    head.prev.next == null
  }

  predicate PreRemoveCheck(head: Cell, elm: Cell)
    reads head, elm
  {
    elm.next == null ==> head.prev == elm
  }

  method Init(head: Cell)
    modifies head
    ensures IsTailq(head, [])
  {
    head.next := null;
    head.prev := head;
  }

  method InsertHead(build: Build, head: Cell, elm: Cell, ghost s: seq<Cell>) returns (aborted: bool)
    requires IsTailq(head, s) && elm != head && elm !in s
    modifies head, elm, s
    ensures IsTailq(head, [elm] + s) && !aborted
  {
    DistinctConcat([elm], s);
    if s != [] {
      OnlyAt(s, 0);
    }
    aborted := build.Debug? && !InsertHeadCheck(head);
    elm.next := head.next;
    if elm.next != null {
      head.next.prev := elm;
    } else {
      head.prev := elm;
    }
    head.next := elm;
    elm.prev := head;
  }

  method InsertTail(build: Build, head: Cell, elm: Cell, ghost s: seq<Cell>) returns (aborted: bool)
    requires IsTailq(head, s) && elm != head && elm !in s
    modifies head, elm, s
    ensures IsTailq(head, s + [elm]) && !aborted
  {
    DistinctConcat(s, [elm]);
    if s != [] {
      OnlyAt(s, |s| - 1);
    }
    aborted := build.Debug? && !InsertTailCheck(head);
    elm.next := null;
    elm.prev := head.prev;
    head.prev.next := elm;
    head.prev := elm;
  }

  method InsertAfter(build: Build, head: Cell, listelm: Cell, elm: Cell, ghost s: seq<Cell>) returns (aborted: bool)
    requires IsTailq(head, s) && listelm in s && elm != head && elm !in s
    modifies head, elm, s
    ensures IsTailq(head, Put(s, After(listelm), elm)) && !aborted
  {
    OnlyAround(s, IndexOf(s, listelm));
    PutAround(s, After(listelm), elm);
    aborted := build.Debug? && !OpCheck(listelm);
    elm.next := listelm.next;
    if elm.next != null {
      elm.next.prev := elm;
    } else {
      head.prev := elm;
    }
    listelm.next := elm;
    elm.prev := listelm;
  }

  method InsertBefore(build: Build, ghost head: Cell, listelm: Cell, elm: Cell, ghost s: seq<Cell>)
      returns (aborted: bool)
    requires IsTailq(head, s) && listelm in s && elm != head && elm !in s
    modifies head, elm, s
    ensures IsTailq(head, Put(s, Before(listelm), elm)) && !aborted
  {
    OnlyAround(s, IndexOf(s, listelm));
    PutAround(s, Before(listelm), elm);
    aborted := build.Debug? && !OpCheck(listelm);
    elm.prev := listelm.prev;
    elm.next := listelm;
    listelm.prev.next := elm;
    listelm.prev := elm;
  }

  /** The pointer writes of TAILQ_REMOVE. */
  method Unlink(head: Cell, elm: Cell, ghost s: seq<Cell>)
    requires IsTailq(head, s) && elm in s
    modifies head, s
    ensures IsTailq(head, Without(s, elm))
    ensures elm.next == old(elm.next) && elm.prev == old(elm.prev)
  {
    OnlyAround(s, IndexOf(s, elm));
    WithoutAround(s, elm);
    if elm.next != null {
      elm.next.prev := elm.prev;
    } else {
      head.prev := elm.prev;
    }
    elm.prev.next := elm.next;
  }

  method Remove(build: Build, head: Cell, elm: Cell, ghost s: seq<Cell>) returns (aborted: bool)
    requires IsTailq(head, s) && elm in s
    modifies head, s
    ensures IsTailq(head, Without(s, elm)) && !aborted
    ensures build.Release? ==> elm.next == old(elm.next) && elm.prev == old(elm.prev)
    ensures build.Debug? ==> elm.next == build.poison && elm.prev == build.poison
  {
    ChecksPass(head, s, IndexOf(s, elm));
    Gone(s, elm);
    aborted := build.Debug? && !(PreRemoveCheck(head, elm) && OpCheck(elm));
    Unlink(head, elm, s);
    PostRemove(build, elm);
  }

  /** The pointer writes of TAILQ_REPLACE. */
  method Relink(head: Cell, elm: Cell, elm2: Cell, ghost s: seq<Cell>)
    requires IsTailq(head, s) && elm in s && elm2 != head && elm2 !in s
    modifies head, elm2, s
    ensures IsTailq(head, Swapped(s, elm, elm2))
    ensures elm.next == old(elm.next) && elm.prev == old(elm.prev)
  {
    OnlyAround(s, IndexOf(s, elm));
    elm2.next := elm.next;
    if elm2.next != null {
      elm2.next.prev := elm2;
    } else {
      head.prev := elm2;
    }
    elm2.prev := elm.prev;
    elm2.prev.next := elm2;
  }

  method Replace(build: Build, head: Cell, elm: Cell, elm2: Cell, ghost s: seq<Cell>)
    requires IsTailq(head, s) && elm in s && elm2 != head && elm2 !in s
    modifies head, elm2, s
    ensures IsTailq(head, Swapped(s, elm, elm2))
    ensures build.Release? ==> elm.next == old(elm.next) && elm.prev == old(elm.prev)
    ensures build.Debug? ==> elm.next == build.poison && elm.prev == build.poison
  {
    SwappedOut(s, elm, elm2);
    Relink(head, elm, elm2, s);
    PostRemove(build, elm);
  }

  method Concat(head1: Cell, head2: Cell, ghost s1: seq<Cell>, ghost s2: seq<Cell>)
    requires IsTailq(head1, s1) && IsTailq(head2, s2)
    requires head1 != head2 && head1 !in s2 && head2 !in s1 && forall x :: x in s1 ==> x !in s2
    modifies head1, head2, s1, s2
    ensures IsTailq(head1, s1 + s2) && IsTailq(head2, [])
  {
    ghost var r := s1 + s2;
    DistinctConcat(s1, s2);
    if s2 == [] {
      assert r == s1;
    } else {
      OnlyAt(s2, 0);
      if s1 != [] {
        OnlyAt(s1, |s1| - 1);
      }
    }
    forall i, j | 0 <= i < |s1| && 0 <= j < |s2| ensures s1[i] != s2[j] {
      assert s1[i] in s1 && s2[j] in s2;
    }
    assert forall k {:trigger r[k]} :: 0 <= k < |r| ==> r[k] == (if k < |s1| then s1[k] else s2[k - |s1|]);
    if head2.next != null {
      head1.prev.next := head2.next;
      head2.next.prev := head1.prev;
      head1.prev := head2.prev;
      Init(head2);
    }
  }

  /** TAILQ_LAST: the cell that owns the last `next` slot is read as a head. */
  function Last(head: Cell): Cell?
    reads head, head.prev, head.prev.prev
  {
    head.prev.prev.next
  }

  /** TAILQ_PREV: the cell that owns the previous `next` slot is read as a head. */
  function Prev(elm: Cell): Cell?
    reads elm, elm.prev, elm.prev.prev
  {
    elm.prev.prev.next
  }

  lemma {:induction false} LastIsLast(head: Cell, s: seq<Cell>)
    requires IsTailq(head, s)
    ensures Last(head) == (if s == [] then null else s[|s| - 1])
  {
    if s != [] {
      assert s[|s| - 1].prev == (if |s| == 1 then head else s[|s| - 2]);
    }
  }

  lemma {:induction false} PrevIsPredecessor(head: Cell, s: seq<Cell>, i: nat)
    requires IsTailq(head, s) && i < |s|
    ensures Prev(s[i]) == (if i == 0 then null else s[i - 1])
  {
    if i == 0 {
      LastIsLast(head, s);
      assert s[|s| - 1].next == null;
    } else {
      assert s[i].prev == s[i - 1] && s[i - 1].prev == (if i == 1 then head else s[i - 2]);
      if i > 1 {
        assert s[i - 2].next == s[i - 1];
      }
    }
  }

  method ForeachReverse(head: Cell, ghost s: seq<Cell>) returns (visited: seq<Cell>)
    requires IsTailq(head, s)
    ensures visited == Reverse(s)
  {
    LastIsLast(head, s);
    visited := [];
    var v := Last(head);
    while v != null
      invariant |visited| <= |s| && forall j :: 0 <= j < |visited| ==> visited[j] == s[|s| - 1 - j]
      invariant v == (if |visited| < |s| then s[|s| - 1 - |visited|] else null)
      decreases |s| - |visited|
    {
      PrevIsPredecessor(head, s, |s| - 1 - |visited|);
      visited := visited + [v];
      v := Prev(v);
    }
  }

  /** TAILQ_FOREACH_SAFE whose body removes the members that `p` accepts. */
  method ForeachSafeRemove(build: Build, head: Cell, p: Cell -> bool, ghost s: seq<Cell>)
      returns (visited: seq<Cell>, aborted: bool)
    requires IsTailq(head, s)
    modifies head, s
    ensures visited == s && IsTailq(head, Rejects(s, p)) && !aborted
  {
    visited, aborted := [], false;
    ghost var r: seq<Cell>, i: nat := s, 0;
    var v := head.next;
    while v != null
      invariant |visited| == i <= |s|
      invariant forall j {:trigger visited[j]} :: 0 <= j < i ==> visited[j] == s[j]
      invariant v == (if i < |s| then s[i] else null)
      invariant r == Swept(s, i, p) && IsTailq(head, r) && !aborted
      decreases |s| - i
    {
      ghost var n := SweptAt(s, i, p);
      var elm: Cell := v;
      visited := visited + [elm];
      var next := elm.next;
      i := i + 1;
      if p(elm) {
        aborted := Remove(build, head, elm, r);
        r := Without(r, elm);
      }
      v := next;
    }
    SweepsReject(s, p);
  }

  /** TAILQ_FOREACH_REVERSE_SAFE whose body removes the members that `p` accepts. */
  method ForeachReverseSafeRemove(build: Build, head: Cell, p: Cell -> bool, ghost s: seq<Cell>)
      returns (visited: seq<Cell>, aborted: bool)
    requires IsTailq(head, s)
    modifies head, s
    ensures visited == Reverse(s) && IsTailq(head, Rejects(s, p)) && !aborted
  {
    visited, aborted := [], false;
    ghost var r: seq<Cell>, i: nat := s, |s|;
    LastIsLast(head, s);
    var v := Last(head);
    while v != null
      invariant i <= |s| && |visited| == |s| - i
      invariant forall j {:trigger visited[j]} :: 0 <= j < |visited| ==> visited[j] == s[|s| - 1 - j]
      invariant v == (if i > 0 then s[i - 1] else null)
      invariant r == SweptBack(s, i, p) && IsTailq(head, r) && !aborted
      decreases i
    {
      i := i - 1;
      SweptBackAt(s, i, p);
      PrevIsPredecessor(head, r, i);
      var elm: Cell := v;
      visited := visited + [elm];
      var prev := Prev(elm);
      if p(elm) {
        aborted := Remove(build, head, elm, r);
        r := Without(r, elm);
      }
      v := prev;
    }
    SweepsReject(s, p);
  }

  /** Any insertion followed by TAILQ_REMOVE restores every link of the queue. */
  method InsertThenRemove(build: Build, head: Cell, place: Place<Cell>, elm: Cell, ghost s: seq<Cell>)
      returns (aborted: bool)
    requires IsTailq(head, s) && Names(s, place) && elm != head && elm !in s
    modifies head, elm, s
    ensures IsTailq(head, s) && !aborted
    ensures head.next == old(head.next) && head.prev == old(head.prev)
    ensures forall k :: 0 <= k < |s| ==> s[k].next == old(s[k].next)
    ensures forall k :: 0 <= k < |s| ==> s[k].prev == old(s[k].prev)
  {
    InsertionUndone(s, place, elm);
    EndPlaces(s, elm);
    var early;
    match place {
      case AtHead => early := InsertHead(build, head, elm, s);
      case AtTail => early := InsertTail(build, head, elm, s);
      case After(m) => early := InsertAfter(build, head, m, elm, s);
      case Before(m) => early := InsertBefore(build, head, m, elm, s);
    }
    var late := Remove(build, head, elm, Put(s, place, elm));
    aborted := early || late;
  }

  ghost function AtEnd(s: seq<Cell>, atHead: bool, elm: Cell): seq<Cell> {
    Put(s, if atHead then AtHead else AtTail, elm)
  }

  /** Inserts at one end by the macro for that end. */
  method InsertAtEnd(build: Build, head: Cell, atHead: bool, elm: Cell, ghost s: seq<Cell>) returns (aborted: bool)
    requires IsTailq(head, s) && elm != head && elm !in s
    modifies head, elm, s
    ensures IsTailq(head, AtEnd(s, atHead, elm)) && !aborted
  {
    EndPlaces(s, elm);
    if atHead {
      aborted := InsertHead(build, head, elm, s);
    } else {
      aborted := InsertTail(build, head, elm, s);
    }
  }

  /** Inserts at one end by the macro that names the member standing there. */
  method InsertBesideEnd(build: Build, head: Cell, atHead: bool, elm: Cell, ghost s: seq<Cell>) returns (aborted: bool)
    requires IsTailq(head, s) && s != [] && elm != head && elm !in s
    modifies head, elm, s
    ensures IsTailq(head, AtEnd(s, atHead, elm)) && !aborted
  {
    EndPlaces(s, elm);
    SeqOps.EndInsertionsAgree(s, elm);
    if atHead {
      aborted := InsertBefore(build, head, head.next, elm, s);
    } else {
      LastIsLast(head, s);
      aborted := InsertAfter(build, head, Last(head), elm, s);
    }
  }

  /** Inserts beside the member at one end, takes the links of head, element and members,
      removes the element and inserts it at that end: the links are the same again. */
  method EndInsertionsAgree(build: Build, head: Cell, atHead: bool, elm: Cell, ghost s: seq<Cell>)
      returns (aborted: bool, ghost beside: seq<(Cell?, Cell)>)
    requires IsTailq(head, s) && s != [] && elm != head && elm !in s
    modifies head, elm, s
    ensures IsTailq(head, AtEnd(s, atHead, elm)) && !aborted
    ensures Links(head, AtEnd(s, atHead, elm)) == beside
  {
    ghost var r := AtEnd(s, atHead, elm);
    InsertionUndone(s, if atHead then AtHead else AtTail, elm);
    aborted := InsertBesideEnd(build, head, atHead, elm, s);
    LinksDetermined(head, r);
    beside := Links(head, r);
    var late := Remove(build, head, elm, r);
    aborted := aborted || late;
    late := InsertAtEnd(build, head, atHead, elm, s);
    aborted := aborted || late;
    LinksDetermined(head, r);
  }

  lemma {:induction false} ChecksPass(head: Cell, s: seq<Cell>, i: nat)
    requires IsTailq(head, s) && i < |s|
    ensures OpCheck(s[i]) && PreRemoveCheck(head, s[i])
  {
    assert s[i].prev == (if i == 0 then head else s[i - 1]);
    assert s[i].next == (if i + 1 < |s| then s[i + 1] else null);
    if i > 0 {
      assert s[i - 1].next == s[i];
    }
    if i + 1 < |s| {
      assert s[i + 1].prev == s[i];
    }
  }

  /** What the checks of the tail find, on a forward chain whose tail pointer, right or
      wrong, stays among head and members. */
  lemma {:induction false} TailChecksMean(head: Cell, s: seq<Cell>)
    requires head !in s && IsChain(head.next, s) && (head.prev == head || head.prev in s)
    ensures InsertTailCheck(head) <==> IsTailed(head, s)
    ensures forall i :: 0 <= i < |s| ==> (PreRemoveCheck(head, s[i]) <==> (i == |s| - 1 ==> IsTailed(head, s)))
  {
    DistinctPairwise(s);
    if head.prev != head {
      var j := IndexOf(s, head.prev);
      assert s[j].next == (if j + 1 < |s| then s[j + 1] else null);
    }
    forall i | 0 <= i < |s| ensures s[i].next == null <==> i == |s| - 1 {
      assert s[i].next == (if i + 1 < |s| then s[i + 1] else null);
    }
  }

  /** On a non-empty forward chain the debugging checks, asked of the head and of
      every member, pass exactly when all back links and the tail are right. */
  lemma {:induction false} ChecksCharacterise(head: Cell, s: seq<Cell>)
    requires s != [] && head !in s && IsChain(head.next, s)
    ensures IsTailq(head, s) <==>
      && InsertHeadCheck(head)
      && (forall i :: 0 <= i < |s| ==> OpCheck(s[i]))
      && PreRemoveCheck(head, s[|s| - 1])
  {
    ChecksFindBackLinks(head, s);
    assert s[|s| - 1].next == null;
  }
}
