/** The storage that the queue macros write.

    A back link or a tail pointer of `sys-queue.h` is the address of a `next` slot.
    Such an address identifies the structure that owns the slot, so it is modelled
    by a reference to that owner: `*p = x` becomes `p.next := x`.  Heads and
    entries have the same two words in the same order, which is what allows
    TAILQ_LAST and TAILQ_PREV to read an entry as if it were a head; they
    share one class here.  The families with one word per head or entry leave the
    other one alone, and CIRCLEQ keeps element addresses in both. */
module Cells {
  import opened SeqOps

  class Cell {
    var next: Cell?  // first element of a head, next element of an entry
    var prev: Cell   // owner of the last `next` slot (head) or of the previous one (entry)

    constructor ()
    {
      next, prev := null, this;
    }
  }

  /** With QUEUEDEBUG the macros check links first, and overwrite the links of a
      removed element by the pointer constant 1, for which `poison` stands. */
  datatype Build = Release | Debug(poison: Cell)

  /** The debugging check of a head insertion (LIST and TAILQ). */
  predicate InsertHeadCheck(head: Cell)
    reads head, head.next
  {
    head.next != null ==> head.next.prev == head
  }

  /** The debugging check of an operation at a member (LIST and TAILQ). */
  predicate OpCheck(elm: Cell)
    reads elm, elm.next, elm.prev
  {
    && (elm.next != null ==> elm.next.prev == elm)
    && elm.prev.next == elm
  }

  /** The POSTREMOVE step of a removal. */
  method PostRemove(build: Build, elm: Cell)
    modifies elm
    ensures build.Release? ==> elm.next == old(elm.next) && elm.prev == old(elm.prev)
    ensures build.Debug? ==> elm.next == build.poison && elm.prev == build.poison
  {
    if build.Debug? {
      elm.next := build.poison;
      elm.prev := build.poison;
    }
  }

  /** The forward links: from `first`, the members `s` in order, then NULL. */
  ghost predicate IsChain(first: Cell?, s: seq<Cell>)
    reads s
  {
    && Distinct(s)
    && first == (if s == [] then null else s[0])
    && forall i {:trigger s[i].next} :: 0 <= i < |s| ==> s[i].next == (if i + 1 < |s| then s[i + 1] else null)
  }

  /** The back links: each member knows the owner of the slot that points at it. */
  ghost predicate IsBackLinked(head: Cell, s: seq<Cell>)
    reads s
  {
    forall i {:trigger s[i].prev} :: 0 <= i < |s| ==> s[i].prev == (if i == 0 then head else s[i - 1])
  }

  /** The tail pointer owns the final slot: the last member's, or the head's own. */
  ghost predicate IsTailed(head: Cell, s: seq<Cell>)
    reads head
  {
    head.prev == (if s == [] then head else s[|s| - 1])
  }

  /** FOREACH of the NULL-ended families: SLIST, LIST, SIMPLEQ, STAILQ and TAILQ. */
  method Foreach(head: Cell, ghost s: seq<Cell>) returns (visited: seq<Cell>)
    requires IsChain(head.next, s)
    ensures visited == s
  {
    visited := [];
    var v := head.next;
    while v != null
      invariant |visited| <= |s| && forall j :: 0 <= j < |visited| ==> visited[j] == s[j]
      invariant v == (if |visited| < |s| then s[|visited|] else null)
      decreases |s| - |visited|
    {
      visited := visited + [v];
      v := v.next;
    }
  }

  /** What the check of a head insertion and that of a member find, on a forward chain whose
      back links, right or wrong, stay among head and members. */
  lemma {:induction false} ChecksMean(head: Cell, s: seq<Cell>, i: nat)
    requires IsChain(head.next, s) && head !in s && i < |s|
    requires s[i].prev == head || s[i].prev in s
    ensures InsertHeadCheck(head) <==> s[0].prev == head
    ensures OpCheck(s[i]) <==>
      (i + 1 < |s| ==> s[i + 1].prev == s[i]) && s[i].prev == if i == 0 then head else s[i - 1]
  {
    DistinctPairwise(s);
    assert s[i].next == (if i + 1 < |s| then s[i + 1] else null);
    if s[i].prev != head {
      var j := IndexOf(s, s[i].prev);
      assert s[j].next == (if j + 1 < |s| then s[j + 1] else null);
    }
    if i > 0 {
      assert s[i - 1].next == s[i];
    }
  }

  /** Asked of the head and of every member, the two checks pass exactly when all back
      links are right. */
  lemma {:induction false} ChecksFindBackLinks(head: Cell, s: seq<Cell>)
    requires IsChain(head.next, s) && head !in s
    ensures IsBackLinked(head, s) <==> InsertHeadCheck(head) && forall i :: 0 <= i < |s| ==> OpCheck(s[i])
  {
    if IsBackLinked(head, s) {
      forall i | 0 <= i < |s| ensures OpCheck(s[i]) {
        assert s[i].prev == (if i == 0 then head else s[i - 1]);
        ChecksMean(head, s, i);
        assert i + 1 < |s| ==> s[i + 1].prev == s[i];
      }
    } else if InsertHeadCheck(head) && forall i :: 0 <= i < |s| ==> OpCheck(s[i]) {
      forall i | 0 <= i < |s| ensures s[i].prev == (if i == 0 then head else s[i - 1]) {
        if i > 0 {
          assert OpCheck(s[i - 1]) && s[i - 1].next == s[i];
        }
      }
    }
  }
}
