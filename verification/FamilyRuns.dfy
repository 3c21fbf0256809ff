/** Runs of queue macros over several queues of all five families, alive at once and
    taking their elements from one pool. */
module FamilyRuns {
  import opened Cells
  import opened SeqOps
  import opened QueueRuns
  import Slist
  import List
  import Simpleq
  import Tailq
  import Circleq

  datatype Family = SLIST | LIST | SIMPLEQ | TAILQ | CIRCLEQ

  ghost predicate IsQueue(family: Family, head: Cell, s: seq<Cell>)
    reads head, s
  {
    match family
    case SLIST => Slist.IsSlist(head, s)
    case LIST => List.IsList(head, s)
    case SIMPLEQ => Simpleq.IsSimpleq(head, s)
    case TAILQ => Tailq.IsTailq(head, s)
    case CIRCLEQ => Circleq.IsCircleq(head, s)
  }

  /** The operations that `sys-queue.h` offers for each family, but for LIST_MOVE, which
      leaves no well-formed list behind (`List.MovedIsListOnlyIfEmpty`).  STAILQ has those of
      SIMPLEQ except RemoveAfter. */
  predicate Offers<T>(family: Family, op: Op<T>) {
    match family
    case SLIST => op.Init? || IsRemoval(op) || (op.Insert? && (op.place.AtHead? || op.place.After?))
    case LIST => op.Init? || op.Remove? || op.Replace? || (op.Insert? && !op.place.AtTail?)
    case SIMPLEQ => op.Init? || IsRemoval(op) || op.Concat? || (op.Insert? && !op.place.Before?)
    case TAILQ => !op.RemoveHead? && !op.RemoveAfter?
    case CIRCLEQ => op.Init? || op.Remove? || op.Insert?
  }

  /** An operation is within reach when its queue exists and has it; queues are concatenated
      within a family. */
  lemma {:induction false} OfferedAt<T>(families: seq<Family>, op: Op<T>, q: nat, r: nat)
    ensures !op.Concat? ==> (OffersAt(families, op) <==> op.q < |families| && Offers(families[op.q], op))
    ensures OffersAt(families, Op<T>.Concat(q, r)) <==>
      q < |families| && r < |families| && families[q] == families[r] && (families[q] == SIMPLEQ || families[q] == TAILQ)
  {
  }

  predicate IsRemoval<T>(op: Op<T>) {
    op.Remove? || op.RemoveHead? || op.RemoveAfter?
  }

  predicate OffersAt<T>(families: seq<Family>, op: Op<T>) {
    && op.q < |families| && Offers(families[op.q], op)
    && (op.Concat? ==> op.q2 < |families| && families[op.q2] == families[op.q])
  }

  /** The same by operation: the families that have it. */
  lemma {:induction false} OfferedBy<T>(f: Family, q: nat, r: nat, x: T, y: T)
    ensures Offers(f, Op<T>.Init(q)) && Offers(f, Remove(q, x)) && Offers(f, Insert(q, AtHead, x))
    ensures Offers(f, Insert(q, AtTail, x)) <==> f == SIMPLEQ || f == TAILQ || f == CIRCLEQ
    ensures Offers(f, Insert(q, After(x), y))
    ensures Offers(f, Insert(q, Before(x), y)) <==> f == LIST || f == TAILQ || f == CIRCLEQ
    ensures Offers(f, Op<T>.RemoveHead(q)) <==> f == SLIST || f == SIMPLEQ
    ensures Offers(f, RemoveAfter(q, x)) <==> f == SLIST || f == SIMPLEQ
    ensures Offers(f, Replace(q, x, y)) <==> f == LIST || f == TAILQ
    ensures Offers(f, Op<T>.Concat(q, r)) <==> f == SIMPLEQ || f == TAILQ
  {
  }

  ghost predicate AllQueues(families: seq<Family>, heads: seq<Cell>, w: seq<seq<Cell>>)
    reads heads, Members(w)
  {
    && |families| == |heads| && Separate(heads, w)
    && forall q :: 0 <= q < |w| ==> IsQueue(families[q], heads[q], w[q])
  }

  /** The caller's duty for an operation on a single queue. */
  ghost predicate Ready(head: Cell, s: seq<Cell>, op: Op<Cell>) {
    && !op.Concat?
    && (op.Insert? ==> Names(s, op.place))
    && (op.Remove? || op.Replace? ==> op.elm in s)
    && (op.RemoveHead? ==> s != [])
    && (op.RemoveAfter? ==> HasNext(s, op.elm))
    && forall x :: x in NewElements(op) ==> x != head && x !in s
  }

  method EditSlist(head: Cell, op: Op<Cell>, ghost s: seq<Cell>)
    requires Slist.IsSlist(head, s) && Offers(SLIST, op) && Ready(head, s, op)
    modifies head, s, NewElements(op)
    ensures Slist.IsSlist(head, Edited(s, op))
  {
    match op
    case Init(_) => Slist.Init(head);
    case Remove(_, elm) => Slist.Remove(head, elm, s);
    case RemoveHead(_) => Slist.RemoveHead(head, s);
    case RemoveAfter(_, elm) => Slist.RemoveAfter(head, elm, s);
    case Insert(_, place, elm) =>
      EndPlaces(s, elm);
      match place {
        case AtHead => Slist.InsertHead(head, elm, s);
        case After(m) => Slist.InsertAfter(head, m, elm, s);
      }
  }

  method EditList(build: Build, head: Cell, op: Op<Cell>, ghost s: seq<Cell>) returns (aborted: bool)
    requires List.IsList(head, s) && Offers(LIST, op) && Ready(head, s, op)
    modifies head, s, NewElements(op)
    ensures List.IsList(head, Edited(s, op)) && !aborted
  {
    aborted := false;
    match op
    case Init(_) => List.Init(head);
    case Remove(_, elm) => aborted := List.Remove(build, head, elm, head, s);
    case Replace(_, elm, elm2) => List.Replace(build, head, elm, elm2, s);
    case Insert(_, place, elm) =>
      EndPlaces(s, elm);
      match place {
        case AtHead => aborted := List.InsertHead(build, head, elm, head, s);
        case After(m) => aborted := List.InsertAfter(build, head, m, elm, s);
        case Before(m) => aborted := List.InsertBefore(build, head, m, elm, s);
      }
  }

  method EditSimpleq(head: Cell, op: Op<Cell>, ghost s: seq<Cell>)
    requires Simpleq.IsSimpleq(head, s) && Offers(SIMPLEQ, op) && Ready(head, s, op)
    modifies head, s, NewElements(op)
    ensures Simpleq.IsSimpleq(head, Edited(s, op))
  {
    match op
    case Init(_) => Simpleq.Init(head);
    case Remove(_, elm) => Simpleq.Remove(head, elm, s);
    case RemoveHead(_) => Simpleq.RemoveHead(head, s);
    case RemoveAfter(_, elm) => Simpleq.RemoveAfter(head, elm, s);
    case Insert(_, place, elm) =>
      EndPlaces(s, elm);
      match place {
        case AtHead => Simpleq.InsertHead(head, elm, s);
        case AtTail => Simpleq.InsertTail(head, elm, s);
        case After(m) => Simpleq.InsertAfter(head, m, elm, s);
      }
  }

  method EditTailq(build: Build, head: Cell, op: Op<Cell>, ghost s: seq<Cell>) returns (aborted: bool)
    requires Tailq.IsTailq(head, s) && Offers(TAILQ, op) && Ready(head, s, op)
    modifies head, s, NewElements(op)
    ensures Tailq.IsTailq(head, Edited(s, op)) && !aborted
  {
    aborted := false;
    match op
    case Init(_) => Tailq.Init(head);
    case Remove(_, elm) => aborted := Tailq.Remove(build, head, elm, s);
    case Replace(_, elm, elm2) => Tailq.Replace(build, head, elm, elm2, s);
    case Insert(_, place, elm) =>
      EndPlaces(s, elm);
      match place {
        case AtHead => aborted := Tailq.InsertHead(build, head, elm, s);
        case AtTail => aborted := Tailq.InsertTail(build, head, elm, s);
        case After(m) => aborted := Tailq.InsertAfter(build, head, m, elm, s);
        case Before(m) => aborted := Tailq.InsertBefore(build, head, m, elm, s);
      }
  }

  method EditCircleq(build: Build, head: Cell, op: Op<Cell>, ghost s: seq<Cell>) returns (aborted: bool)
    requires Circleq.IsCircleq(head, s) && Offers(CIRCLEQ, op) && Ready(head, s, op)
    modifies head, s, NewElements(op)
    ensures Circleq.IsCircleq(head, Edited(s, op)) && !aborted
  {
    aborted := false;
    match op
    case Init(_) => Circleq.Init(head);
    case Remove(_, elm) => aborted := Circleq.Remove(build, head, elm, s);
    case Insert(_, place, elm) =>
      EndPlaces(s, elm);
      match place {
        case AtHead => aborted := Circleq.InsertHead(build, head, elm, s);
        case AtTail => aborted := Circleq.InsertTail(build, head, elm, s);
        case After(m) => aborted := Circleq.InsertAfter(build, head, m, elm, s);
        case Before(m) => aborted := Circleq.InsertBefore(build, head, m, elm, s);
      }
  }

  method Edit(build: Build, family: Family, head: Cell, op: Op<Cell>, ghost s: seq<Cell>) returns (aborted: bool)
    requires IsQueue(family, head, s) && Offers(family, op) && Ready(head, s, op)
    modifies head, s, NewElements(op)
    ensures IsQueue(family, head, Edited(s, op)) && !aborted
  {
    aborted := false;
    match family
    case SLIST => EditSlist(head, op, s);
    case LIST => aborted := EditList(build, head, op, s);
    case SIMPLEQ => EditSimpleq(head, op, s);
    case TAILQ => aborted := EditTailq(build, head, op, s);
    case CIRCLEQ => aborted := EditCircleq(build, head, op, s);
  }

  method Concat(family: Family, head1: Cell, head2: Cell, ghost s1: seq<Cell>, ghost s2: seq<Cell>)
    requires family.SIMPLEQ? || family.TAILQ?
    requires IsQueue(family, head1, s1) && IsQueue(family, head2, s2)
    requires head1 != head2 && head1 !in s2 && head2 !in s1 && forall x :: x in s1 ==> x !in s2
    modifies head1, head2, s1, s2
    ensures IsQueue(family, head1, s1 + s2) && IsQueue(family, head2, [])
  {
    if family == SIMPLEQ {
      Simpleq.Concat(head1, head2, s1, s2);
    } else {
      Tailq.Concat(head1, head2, s1, s2);
    }
  }

  method Dispatch(build: Build, families: seq<Family>, heads: seq<Cell>, op: Op<Cell>, ghost w: seq<seq<Cell>>)
      returns (aborted: bool)
    requires AllQueues(families, heads, w) && Legal(heads, w, op) && OffersAt(families, op)
    modifies Touched(heads, w, op)
    ensures IsQueue(families[op.q], heads[op.q], Step(heads, w, op)[op.q]) && !aborted
    ensures op.Concat? ==> IsQueue(families[op.q2], heads[op.q2], Step(heads, w, op)[op.q2])
  {
    DistinctPairwise(heads);
    aborted := false;
    match op
    case Concat(q, q2) => Concat(families[q], heads[q], heads[q2], w[q], w[q2]);
    case _ => aborted := Edit(build, families[op.q], heads[op.q], op, w[op.q]);
  }

  method Apply(build: Build, families: seq<Family>, heads: seq<Cell>, op: Op<Cell>, ghost w: seq<seq<Cell>>)
      returns (aborted: bool)
    requires AllQueues(families, heads, w) && Legal(heads, w, op) && OffersAt(families, op)
    modifies Touched(heads, w, op)
    ensures AllQueues(families, heads, Step(heads, w, op)) && !aborted
  {
    StepKeepsSeparate(heads, w, op);
    ghost var v := Step(heads, w, op);
    aborted := Dispatch(build, families, heads, op, w);
    forall r | 0 <= r < |v| ensures IsQueue(families[r], heads[r], v[r]) {
      if !Involves(op, r) {
        OthersUntouched(heads, w, op, r);
        assert old(IsQueue(families[r], heads[r], w[r]));
        assert unchanged(heads[r]) && forall k :: 0 <= k < |w[r]| ==> unchanged(w[r][k]);
      }
    }
  }

  /** Any legal run, from any well-formed queues: no debugging check fires, and the heap
      ends as the same run on sequences says. */
  method RunAll(build: Build, families: seq<Family>, heads: seq<Cell>, ops: seq<Op<Cell>>, ghost w: seq<seq<Cell>>)
      returns (aborted: bool)
    requires AllQueues(families, heads, w) && LegalRun(heads, w, ops)
    requires forall n :: 0 <= n < |ops| ==> OffersAt(families, ops[n])
    modifies heads, Members(w), Newcomers(ops)
    ensures AllQueues(families, heads, Run(heads, w, ops)) && !aborted
    decreases |ops|
  {
    aborted := false;
    if ops != [] {
      StepKeepsSeparate(heads, w, ops[0]);
      TouchedWithin(heads, w, ops[0]);
      NewcomersSplit(ops);
      aborted := Apply(build, families, heads, ops[0], w);
      var later := RunAll(build, families, heads, ops[1..], Step(heads, w, ops[0]));
      aborted := aborted || later;
    }
  }

  /** The same from the INIT macro of every head. */
  method RunFromInit(build: Build, families: seq<Family>, heads: seq<Cell>, ops: seq<Op<Cell>>) returns (aborted: bool)
    requires |families| == |heads| && Distinct(heads) && LegalRun(heads, Empty(heads), ops)
    requires forall n :: 0 <= n < |ops| ==> OffersAt(families, ops[n])
    modifies heads, Newcomers(ops)
    ensures AllQueues(families, heads, Run(heads, Empty(heads), ops)) && !aborted
  {
    DistinctPairwise(heads);
    for n := 0 to |heads|
      invariant forall k :: 0 <= k < n ==> IsQueue(families[k], heads[k], [])
    {
      match families[n]
      case SLIST => Slist.Init(heads[n]);
      case LIST => List.Init(heads[n]);
      case SIMPLEQ => Simpleq.Init(heads[n]);
      case TAILQ => Tailq.Init(heads[n]);
      case CIRCLEQ => Circleq.Init(heads[n]);
    }
    aborted := RunAll(build, families, heads, ops, Empty(heads));
  }
}
