/** CIRCLEQ: both links are element addresses, and the head itself stands at both
    ends (`CIRCLEQ_END`). */
module Circleq {
  import opened Cells
  import opened SeqOps

  /** The forward walk: from the head through the members and back to the head. */
  ghost predicate IsRing(head: Cell, s: seq<Cell>)
    reads head, s
  {
    && Distinct(s) && head !in s && head.next == (if s == [] then head else s[0])
    && forall i {:trigger s[i].next} :: 0 <= i < |s| ==> s[i].next == (if i + 1 < |s| then s[i + 1] else head)
  }

  ghost predicate IsCircleq(head: Cell, s: seq<Cell>)
    reads head, s
  {
    IsRing(head, s) && head.prev == (if s == [] then head else s[|s| - 1]) && IsBackLinked(head, s)
  }

  predicate HeadCheck(head: Cell)
    reads head, head.next, head.prev
  {
    && (head.next != head ==> head.next != null && head.next.prev == head)
    && (head.prev != head ==> head.prev.next == head)
  }

  predicate ElmCheck(head: Cell, elm: Cell)
    reads head, elm, elm.next, elm.prev
  {
    && (if elm.next == head then head.prev == elm else elm.next != null && elm.next.prev == elm)
    && (if elm.prev == head then head.next == elm else elm.prev.next == elm)
  }

  method Init(head: Cell)
    modifies head
    ensures IsCircleq(head, [])
  {
    head.next := head;
    head.prev := head;
  }

  method InsertAfter(build: Build, head: Cell, listelm: Cell, elm: Cell, ghost s: seq<Cell>) returns (aborted: bool)
    requires IsCircleq(head, s) && listelm in s && elm != head && elm !in s
    modifies head, elm, s
    ensures IsCircleq(head, Put(s, After(listelm), elm)) && !aborted
  {
    ChecksPass(head, s, IndexOf(s, listelm));
    OnlyAround(s, IndexOf(s, listelm));
    PutAround(s, After(listelm), elm);
    aborted := build.Debug? && !(HeadCheck(head) && ElmCheck(head, listelm));
    elm.next := listelm.next;
    elm.prev := listelm;
    if listelm.next == head {
      head.prev := elm;
    } else {
      listelm.next.prev := elm;
    }
    listelm.next := elm;
  }

  method InsertBefore(build: Build, head: Cell, listelm: Cell, elm: Cell, ghost s: seq<Cell>) returns (aborted: bool)
    requires IsCircleq(head, s) && listelm in s && elm != head && elm !in s
    modifies head, elm, s
    ensures IsCircleq(head, Put(s, Before(listelm), elm)) && !aborted
  {
    ChecksPass(head, s, IndexOf(s, listelm));
    OnlyAround(s, IndexOf(s, listelm));
    PutAround(s, Before(listelm), elm);
    ghost var i := IndexOf(s, listelm);
    assert listelm.prev == (if i == 0 then head else s[i - 1]);
    aborted := build.Debug? && !(HeadCheck(head) && ElmCheck(head, listelm));
    elm.next := listelm;
    elm.prev := listelm.prev;
    if listelm.prev == head {
      head.next := elm;
    } else {
      listelm.prev.next := elm;
    }
    listelm.prev := elm;
  }

  method InsertHead(build: Build, head: Cell, elm: Cell, ghost s: seq<Cell>) returns (aborted: bool)
    requires IsCircleq(head, s) && elm != head && elm !in s
    modifies head, elm, s
    ensures IsCircleq(head, [elm] + s) && !aborted
  {
    DistinctConcat([elm], s);
    if s != [] {
      ChecksPass(head, s, 0);
      OnlyAt(s, 0);
    }
    aborted := build.Debug? && !HeadCheck(head);
    elm.next := head.next;
    elm.prev := head;
    if head.prev == head {
      head.prev := elm;
    } else {
      head.next.prev := elm;
    }
    head.next := elm;
  }

  method InsertTail(build: Build, head: Cell, elm: Cell, ghost s: seq<Cell>) returns (aborted: bool)
    requires IsCircleq(head, s) && elm != head && elm !in s
    modifies head, elm, s
    ensures IsCircleq(head, s + [elm]) && !aborted
  {
    DistinctConcat(s, [elm]);
    if s != [] {
      ChecksPass(head, s, 0);
      OnlyAt(s, |s| - 1);
    }
    aborted := build.Debug? && !HeadCheck(head);
    elm.next := head;
    elm.prev := head.prev;
    if head.next == head {
      head.next := elm;
    } else {
      head.prev.next := elm;
    }
    head.prev := elm;
  }

  /** The debugging checks of CIRCLEQ_REMOVE. */
  method CheckAt(build: Build, head: Cell, elm: Cell, ghost s: seq<Cell>) returns (aborted: bool)
    requires IsCircleq(head, s) && elm in s
    ensures !aborted
  {
    ChecksPass(head, s, IndexOf(s, elm));
    aborted := build.Debug? && !(HeadCheck(head) && ElmCheck(head, elm));
  }

  /** The pointer writes of CIRCLEQ_REMOVE. */
  method Unlink(head: Cell, elm: Cell, ghost s: seq<Cell>)
    requires IsCircleq(head, s) && elm in s
    modifies head, s
    ensures IsCircleq(head, Without(s, elm))
    ensures elm.next == old(elm.next) && elm.prev == old(elm.prev)
  {
    OnlyAround(s, IndexOf(s, elm));
    WithoutAround(s, elm);
    if elm.next == head {
      head.prev := elm.prev;
    } else {
      elm.next.prev := elm.prev;
    }
    if elm.prev == head {
      head.next := elm.next;
    } else {
      elm.prev.next := elm.next;
    }
  }

  method Remove(build: Build, head: Cell, elm: Cell, ghost s: seq<Cell>) returns (aborted: bool)
    requires IsCircleq(head, s) && elm in s
    modifies head, s
    ensures IsCircleq(head, Without(s, elm)) && !aborted
    ensures build.Release? ==> elm.next == old(elm.next) && elm.prev == old(elm.prev)
    ensures build.Debug? ==> elm.next == build.poison && elm.prev == build.poison
  {
    aborted := CheckAt(build, head, elm, s);
    Gone(s, elm);
    Unlink(head, elm, s);
    PostRemove(build, elm);
  }

  lemma {:induction false} ChecksPass(head: Cell, s: seq<Cell>, i: nat)
    requires IsCircleq(head, s) && i < |s|
    ensures HeadCheck(head) && ElmCheck(head, s[i])
  {
    assert s[0].prev == head && s[|s| - 1].next == head;
    assert s[i].prev == (if i == 0 then head else s[i - 1]);
    assert s[i].next == (if i + 1 < |s| then s[i + 1] else head);
    if i > 0 {
      assert s[i - 1].next == s[i];
    }
    if i + 1 < |s| {
      assert s[i + 1].prev == s[i];
    }
  }

  /** What the head check finds when the walk back from the head, right or wrong, starts
      among head and members. */
  lemma {:induction false} HeadCheckMeans(head: Cell, s: seq<Cell>)
    requires IsRing(head, s) && (head.prev == head || head.prev in s)
    ensures HeadCheck(head) <==>
      (s != [] ==> s[0].prev == head) && (head.prev == head || head.prev == s[|s| - 1])
  {
    DistinctPairwise(s);
    if head.prev != head {
      var j := IndexOf(s, head.prev);
      assert s[j].next == (if j + 1 < |s| then s[j + 1] else head);
    }
  }

  /** What the check of a member finds when its back link stays among head and members. */
  lemma {:induction false} ElmCheckMeans(head: Cell, s: seq<Cell>, i: nat)
    requires IsRing(head, s) && i < |s| && (s[i].prev == head || s[i].prev in s)
    ensures ElmCheck(head, s[i]) <==>
      && (if i + 1 < |s| then s[i + 1].prev == s[i] else head.prev == s[i])
      && s[i].prev == if i == 0 then head else s[i - 1]
  {
    DistinctPairwise(s);
    assert s[i].next == (if i + 1 < |s| then s[i + 1] else head);
    if s[i].prev != head {
      var j := IndexOf(s, s[i].prev);
      assert s[j].next == (if j + 1 < |s| then s[j + 1] else head);
    }
    if i > 0 {
      assert s[i - 1].next == s[i];
    }
  }

  /** On a forward ring of members the debugging checks, asked of the head and of every
      member, pass exactly when the backward walk is right too. */
  lemma {:induction false} ChecksCharacterise(head: Cell, s: seq<Cell>)
    requires s != [] && IsRing(head, s)
    ensures IsCircleq(head, s) <==> HeadCheck(head) && forall i :: 0 <= i < |s| ==> ElmCheck(head, s[i])
  {
    if IsCircleq(head, s) {
      forall i | 0 <= i < |s| ensures HeadCheck(head) && ElmCheck(head, s[i]) {
        ChecksPass(head, s, i);
      }
      ChecksPass(head, s, 0);
    } else if HeadCheck(head) && forall i :: 0 <= i < |s| ==> ElmCheck(head, s[i]) {
      assert s[|s| - 1].next == head && ElmCheck(head, s[|s| - 1]);
      forall i | 0 <= i < |s| ensures s[i].prev == (if i == 0 then head else s[i - 1]) {
        if i > 0 {
          assert ElmCheck(head, s[i - 1]) && s[i - 1].next == s[i];
        }
      }
    }
  }

  method Foreach(head: Cell, ghost s: seq<Cell>) returns (visited: seq<Cell>)
    requires IsCircleq(head, s)
    ensures visited == s
  {
    visited := [];
    var v := head.next;
    while v != head
      invariant |visited| <= |s|
      invariant forall j {:trigger visited[j]} :: 0 <= j < |visited| ==> visited[j] == s[j]
      invariant v == (if |visited| < |s| then s[|visited|] else head)
      decreases |s| - |visited|
    {
      visited := visited + [v];
      v := v.next;
    }
  }

  method ForeachReverse(head: Cell, ghost s: seq<Cell>) returns (visited: seq<Cell>)
    requires IsCircleq(head, s)
    ensures visited == Reverse(s)
  {
    visited := [];
    ghost var i: nat := |s|;
    var v := head.prev;
    while v != head
      invariant i <= |s| && |visited| == |s| - i
      invariant forall j {:trigger visited[j]} :: 0 <= j < |visited| ==> visited[j] == s[|s| - 1 - j]
      invariant v == (if i > 0 then s[i - 1] else head)
      decreases i
    {
      visited := visited + [v];
      v := v.prev;
      i := i - 1;
    }
  }

  function LoopNext(head: Cell, elm: Cell): Cell?
    reads head, elm
  {
    if elm.next == head then head.next else elm.next
  }

  function LoopPrev(head: Cell, elm: Cell): Cell
    reads head, elm
  {
    if elm.prev == head then head.prev else elm.prev
  }

  /** The loop steps are inverse permutations of the members. */
  lemma {:induction false} LoopStepsInverse(head: Cell, s: seq<Cell>, x: Cell)
    requires IsCircleq(head, s) && x in s
    ensures var n := LoopNext(head, x); n != null && n in s && LoopPrev(head, n) == x
    ensures var p := LoopPrev(head, x); p in s && LoopNext(head, p) == x
  {
    var i, n := IndexOf(s, x), |s|;
    var j := if i + 1 < n then i + 1 else 0;
    var k := if i > 0 then i - 1 else n - 1;
    assert s[i].next == (if i + 1 < n then s[i + 1] else head);
    assert s[i].prev == (if i > 0 then s[i - 1] else head);
    assert s[j].prev == (if j > 0 then s[j - 1] else head);
    assert s[k].next == (if k + 1 < n then s[k + 1] else head);
  }

  ghost function LoopWalk(head: Cell, s: seq<Cell>, i: nat, steps: nat): (x: Cell)
    requires IsCircleq(head, s) && i < |s|
    reads head, s
    ensures x in s
  {
    if steps == 0 then s[i]
    else
      var y := LoopWalk(head, s, i, steps - 1);
      LoopStepsInverse(head, s, y);
      LoopNext(head, y)
  }

  /** `k` reduced modulo `n`. */
  ghost function Wrap(k: nat, n: nat): (r: nat)
    requires n > 0
    ensures r < n
  {
    if k < n then k else Wrap(k - n, n)
  }

  lemma {:induction false} WrapNext(k: nat, n: nat)
    requires n > 0
    ensures Wrap(k + 1, n) == (if Wrap(k, n) + 1 < n then Wrap(k, n) + 1 else 0)
  {
    if k >= n {
      WrapNext(k - n, n);
    }
  }

  lemma {:induction false} LoopWalkIsRotation(head: Cell, s: seq<Cell>, i: nat, steps: nat)
    requires IsCircleq(head, s) && i < |s|
    ensures LoopWalk(head, s, i, steps) == s[Wrap(i + steps, |s|)]
  {
    if steps > 0 {
      LoopWalkIsRotation(head, s, i, steps - 1);
      WrapNext(i + steps - 1, |s|);
      var j := Wrap(i + steps - 1, |s|);
      assert s[j].next == (if j + 1 < |s| then s[j + 1] else head);
    }
  }

  /** As many CIRCLEQ_LOOP_NEXT steps as there are members return to the start, and
      no smaller positive number does. */
  lemma {:induction false} FullTurn(head: Cell, s: seq<Cell>, i: nat, steps: nat)
    requires IsCircleq(head, s) && i < |s| && 0 < steps <= |s|
    ensures LoopWalk(head, s, i, steps) == s[i] <==> steps == |s|
  {
    LoopWalkIsRotation(head, s, i, steps);
    OnlyAt(s, i);
  }
}
