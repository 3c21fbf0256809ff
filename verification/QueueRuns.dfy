/** Runs of queue operations on several queues at once, on pure sequences.  `w[q]`
    holds the members of the queue whose head is `heads[q]`. */
module QueueRuns {
  import opened SeqOps

  datatype Op<T> =
    | Init(q: nat)
    | Insert(q: nat, place: Place<T>, elm: T)
    | Remove(q: nat, elm: T)
    | RemoveHead(q: nat)
    | RemoveAfter(q: nat, elm: T)
    | Replace(q: nat, elm: T, elm2: T)
    | Concat(q: nat, q2: nat)

  ghost predicate Separate<T>(heads: seq<T>, w: seq<seq<T>>) {
    && |heads| == |w| && Distinct(heads)
    && (forall q :: 0 <= q < |w| ==> Distinct(w[q]))
    && (forall q, r :: 0 <= q < |w| && 0 <= r < |w| ==> heads[r] !in w[q])
    && (forall q, r, x :: 0 <= q < |w| && 0 <= r < |w| && q != r && x in w[q] ==> x !in w[r])
  }

  ghost predicate Unqueued<T>(heads: seq<T>, w: seq<seq<T>>, x: T) {
    x !in heads && forall q :: 0 <= q < |w| ==> x !in w[q]
  }

  /** What the macros expect of their caller: existing queues, a new element in no
      queue, an old one in the queue named, something to remove at the head or behind a
      member, and two different queues to concatenate. */
  ghost predicate Legal<T>(heads: seq<T>, w: seq<seq<T>>, op: Op<T>) {
    && op.q < |w|
    && match op
       case Init(_) => true
       case Insert(q, place, x) => Names(w[q], place) && Unqueued(heads, w, x)
       case Remove(q, x) => x in w[q]
       case RemoveHead(q) => w[q] != []
       case RemoveAfter(q, x) => HasNext(w[q], x)
       case Replace(q, x, y) => x in w[q] && Unqueued(heads, w, y)
       case Concat(q, q2) => q2 < |w| && q != q2
  }

  /** What an operation on one queue makes of its members. */
  ghost function Edited<T>(s: seq<T>, op: Op<T>): seq<T>
    requires op.Insert? ==> Names(s, op.place)
    requires op.Remove? || op.Replace? ==> op.elm in s
    requires op.RemoveHead? ==> s != []
    requires op.RemoveAfter? ==> HasNext(s, op.elm)
    requires !op.Concat?
  {
    match op
    case Init(_) => []
    case Insert(_, place, x) => Put(s, place, x)
    case Remove(_, x) => Without(s, x)
    case RemoveHead(_) => Without(s, s[0])
    case RemoveAfter(_, x) => Without(s, NextOf(s, x))
    case Replace(_, x, y) => Swapped(s, x, y)
  }

  ghost function Step<T>(heads: seq<T>, w: seq<seq<T>>, op: Op<T>): seq<seq<T>>
    requires Legal(heads, w, op)
  {
    if op.Concat? then w[op.q := w[op.q] + w[op.q2]][op.q2 := []]
    else w[op.q := Edited(w[op.q], op)]
  }

  /** The elements an operation may bring into a queue. */
  ghost function NewElements<T>(op: Op<T>): set<T> {
    if op.Insert? then {op.elm}
    else if op.Replace? then {op.elm2}
    else {}
  }

  ghost function Newcomers<T>(ops: seq<Op<T>>): set<T> {
    set n, x | 0 <= n < |ops| && x in NewElements(ops[n]) :: x
  }

  lemma {:induction false} NewcomersSplit<T>(ops: seq<Op<T>>)
    requires ops != []
    ensures NewElements(ops[0]) <= Newcomers(ops) && Newcomers(ops[1..]) <= Newcomers(ops)
  {
  }

  ghost function Empty<T>(heads: seq<T>): seq<seq<T>> {
    seq(|heads|, _ => [])
  }

  ghost function Members<T>(w: seq<seq<T>>): (m: set<T>)
    ensures forall q, k :: 0 <= q < |w| && 0 <= k < |w[q]| ==> w[q][k] in m
  {
    var m := set q, x | 0 <= q < |w| && x in w[q] :: x;
    assert forall q, k :: 0 <= q < |w| && 0 <= k < |w[q]| ==> w[q][k] in w[q];
    m
  }

  /** The elements an operation may write: those of the queues it names. */
  ghost function Touched<T>(heads: seq<T>, w: seq<seq<T>>, op: Op<T>): (t: set<T>)
    requires |heads| == |w| && Legal(heads, w, op)
  {
    {heads[op.q]} + (set x | x in w[op.q]) + NewElements(op)
    + (if op.Concat? then {heads[op.q2]} + (set x | x in w[op.q2]) else {})
  }

  lemma {:induction false} TouchedWithin<T>(heads: seq<T>, w: seq<seq<T>>, op: Op<T>)
    requires |heads| == |w| && Legal(heads, w, op)
    ensures Touched(heads, w, op) <= (set h | h in heads) + Members(w) + NewElements(op)
  {
  }

  ghost predicate Involves<T>(op: Op<T>, r: nat) {
    r == op.q || (op.Concat? && r == op.q2)
  }

  lemma {:induction false} OthersUntouched<T>(heads: seq<T>, w: seq<seq<T>>, op: Op<T>, r: nat)
    requires Separate(heads, w) && Legal(heads, w, op) && r < |w| && !Involves(op, r)
    ensures heads[r] !in Touched(heads, w, op)
    ensures forall k :: 0 <= k < |w[r]| ==> w[r][k] !in Touched(heads, w, op)
  {
    DistinctPairwise(heads);
    assert forall k :: 0 <= k < |w[r]| ==> w[r][k] in w[r];
  }

  lemma {:induction false} UpdateKeepsSeparate<T>(heads: seq<T>, w: seq<seq<T>>, q: nat, s: seq<T>)
    requires Separate(heads, w) && q < |w| && Distinct(s)
    requires forall x :: x in s ==> x in w[q] || Unqueued(heads, w, x)
    ensures Separate(heads, w[q := s])
  {
  }

  /** A step leaves every queue it does not name alone, and no element is ever in
      two queues. */
  lemma {:induction false} StepKeepsSeparate<T>(heads: seq<T>, w: seq<seq<T>>, op: Op<T>)
    requires Separate(heads, w) && Legal(heads, w, op)
    ensures Separate(heads, Step(heads, w, op))
    ensures Members(Step(heads, w, op)) <= Members(w) + NewElements(op)
    ensures forall r :: 0 <= r < |w| && !Involves(op, r) ==> Step(heads, w, op)[r] == w[r]
  {
    var v := Step(heads, w, op);
    if op.Concat? {
      DistinctConcat(w[op.q], w[op.q2]);
      UpdateKeepsSeparate(heads, w, op.q2, []);
      UpdateKeepsSeparate(heads, w[op.q2 := []], op.q, v[op.q]);
      assert w[op.q2 := []][op.q := v[op.q]] == v;
    } else {
      UpdateKeepsSeparate(heads, w, op.q, v[op.q]);
    }
  }

  ghost predicate LegalRun<T>(heads: seq<T>, w: seq<seq<T>>, ops: seq<Op<T>>)
    decreases |ops|
  {
    ops == [] || (Legal(heads, w, ops[0]) && LegalRun(heads, Step(heads, w, ops[0]), ops[1..]))
  }

  ghost function Run<T>(heads: seq<T>, w: seq<seq<T>>, ops: seq<Op<T>>): seq<seq<T>>
    requires LegalRun(heads, w, ops)
    decreases |ops|
  {
    if ops == [] then w else Run(heads, Step(heads, w, ops[0]), ops[1..])
  }

  lemma {:induction false} RunKeepsSeparate<T>(heads: seq<T>, w: seq<seq<T>>, ops: seq<Op<T>>)
    requires Separate(heads, w) && LegalRun(heads, w, ops)
    ensures Separate(heads, Run(heads, w, ops))
    decreases |ops|
  {
    if ops != [] {
      StepKeepsSeparate(heads, w, ops[0]);
      RunKeepsSeparate(heads, Step(heads, w, ops[0]), ops[1..]);
    }
  }

  // ----- what a run comes to -----

  /** Run is the operations one after the other: nothing happens without an operation, and
      one more operation is one more step, from where the others led. */
  lemma {:induction false} RunAppend<T>(heads: seq<T>, w: seq<seq<T>>, ops: seq<Op<T>>, op: Op<T>)
    ensures LegalRun(heads, w, []) && Run(heads, w, []) == w
    ensures LegalRun(heads, w, ops + [op]) <==> LegalRun(heads, w, ops) && Legal(heads, Run(heads, w, ops), op)
    ensures LegalRun(heads, w, ops + [op]) ==> Run(heads, w, ops + [op]) == Step(heads, Run(heads, w, ops), op)
    decreases |ops|
  {
    var longer := ops + [op];
    if ops == [] {
      assert longer[1..] == [];
    } else {
      assert longer[1..] == ops[1..] + [op] && longer[0] == ops[0];
      if Legal(heads, w, ops[0]) {
        RunAppend(heads, Step(heads, w, ops[0]), ops[1..], op);
      }
    }
  }

  lemma {:induction false} RunConcat<T>(heads: seq<T>, w: seq<seq<T>>, ops: seq<Op<T>>, more: seq<Op<T>>)
    requires LegalRun(heads, w, ops) && LegalRun(heads, Run(heads, w, ops), more)
    ensures LegalRun(heads, w, ops + more) && Run(heads, w, ops + more) == Run(heads, Run(heads, w, ops), more)
    decreases |ops|
  {
    if ops == [] {
      assert ops + more == more;
    } else {
      var v := Step(heads, w, ops[0]);
      TailOfConcat(ops, more);
      RunConcat(heads, v, ops[1..], more);
      RunFirst(heads, w, ops);
      RunFirst(heads, w, ops + more);
    }
  }

  lemma {:induction false} TailOfConcat<A>(s: seq<A>, t: seq<A>)
    requires s != []
    ensures (s + t)[0] == s[0] && (s + t)[1..] == s[1..] + t
  {
  }

  lemma {:induction false} RunFirst<T>(heads: seq<T>, w: seq<seq<T>>, ops: seq<Op<T>>)
    requires ops != [] && Legal(heads, w, ops[0]) && LegalRun(heads, Step(heads, w, ops[0]), ops[1..])
    ensures LegalRun(heads, w, ops) && Run(heads, w, ops) == Run(heads, Step(heads, w, ops[0]), ops[1..])
  {
  }

  lemma {:induction false} RunTwo<T>(heads: seq<T>, w: seq<seq<T>>, first: Op<T>, second: Op<T>)
    requires Legal(heads, w, first) && Legal(heads, Step(heads, w, first), second)
    ensures LegalRun(heads, w, [first, second])
    ensures Run(heads, w, [first, second]) == Step(heads, Step(heads, w, first), second)
  {
    assert [first, second][1..] == [second] && [second][1..] == [];
    assert Run(heads, Step(heads, w, first), [second]) == Step(heads, Step(heads, w, first), second);
  }

  /** A new element may be put in anywhere and taken out again, by any removal that hits
      it, and the queues are as before. */
  lemma {:induction false} InsertionRunUndone<T>(heads: seq<T>, w: seq<seq<T>>, q: nat, place: Place<T>, x: T)
    requires Separate(heads, w) && q < |w|
    requires x !in heads && forall r :: 0 <= r < |w| ==> x !in w[r]
    requires match place case After(m) => m in w[q] case Before(m) => m in w[q] case _ => true
    ensures var ops := [Insert(q, place, x), Remove(q, x)]; LegalRun(heads, w, ops) && Run(heads, w, ops) == w
    ensures place.AtHead? ==>
      var ops := [Insert(q, place, x), RemoveHead(q)]; LegalRun(heads, w, ops) && Run(heads, w, ops) == w
    ensures place.After? ==>
      var ops := [Insert(q, place, x), RemoveAfter(q, place.member)];
      LegalRun(heads, w, ops) && Run(heads, w, ops) == w
  {
    var v := Step(heads, w, Insert(q, place, x));
    InsertionUndone(w[q], place, x);
    assert v[q := w[q]] == w;
    RunTwo(heads, w, Insert(q, place, x), Remove(q, x));
    match place {
      case AtHead => RunTwo(heads, w, Insert(q, place, x), RemoveHead(q));
      case After(m) =>
        InsertedIsNext(w[q], m, x);
        RunTwo(heads, w, Insert(q, place, x), RemoveAfter(q, m));
      case _ =>
    }
  }

  /** A member may be replaced by a new element and that by the old one again. */
  lemma {:induction false} ReplacementRunUndone<T>(heads: seq<T>, w: seq<seq<T>>, q: nat, x: T, y: T)
    requires Separate(heads, w) && q < |w| && x in w[q]
    requires y !in heads && forall r :: 0 <= r < |w| ==> y !in w[r]
    ensures var ops := [Replace(q, x, y), Replace(q, y, x)]; LegalRun(heads, w, ops) && Run(heads, w, ops) == w
  {
    var v := Step(heads, w, Replace(q, x, y));
    SwappedOut(w[q], x, y);
    SwappedBack(w[q], x, y);
    assert v[q := w[q]] == w;
    RunTwo(heads, w, Replace(q, x, y), Replace(q, y, x));
  }

  /** Two different queues may be concatenated, and any queue may be initialised. */
  lemma {:induction false} ConcatAndInitRuns<T>(heads: seq<T>, w: seq<seq<T>>, q: nat, r: nat)
    requires q < |w| && r < |w| && q != r
    ensures LegalRun(heads, w, [Concat(q, r)]) && Run(heads, w, [Concat(q, r)]) == w[q := w[q] + w[r]][r := []]
    ensures LegalRun(heads, w, [Init(q)]) && Run(heads, w, [Init(q)]) == w[q := []]
  {
    assert [Op<T>.Concat(q, r)][1..] == [] && [Op<T>.Init(q)][1..] == [];
  }

  ghost function TailInsertions<T>(q: nat, xs: seq<T>): (ops: seq<Op<T>>)
    ensures |ops| == |xs| && forall i :: 0 <= i < |ops| ==> ops[i] == Insert(q, AtTail, xs[i])
  {
    seq(|xs|, i requires 0 <= i < |xs| => Insert(q, AtTail, xs[i]))
  }

  ghost function HeadRemovals<T>(q: nat, n: nat): (ops: seq<Op<T>>)
    ensures |ops| == n && forall i :: 0 <= i < n ==> ops[i] == RemoveHead(q)
  {
    seq(n, _ => RemoveHead(q))
  }

  lemma {:induction false} DistinctLess<T>(xs: seq<T>)
    requires xs != [] && Distinct(xs)
    ensures var less, x := xs[..|xs| - 1], xs[|xs| - 1];
      Distinct(less) && Within(less, xs) && x in xs && x !in less
  {
    DistinctPairwise(xs);
    DistinctPairwise(xs[..|xs| - 1]);
  }

  lemma {:induction false} TailInsertionsRun<T>(heads: seq<T>, w: seq<seq<T>>, q: nat, xs: seq<T>)
    requires q < |w| && Distinct(xs)
    requires forall x, r :: x in xs && 0 <= r < |w| ==> x !in w[r]
    requires forall x :: x in xs ==> x !in heads
    ensures LegalRun(heads, w, TailInsertions(q, xs))
    ensures Run(heads, w, TailInsertions(q, xs)) == w[q := w[q] + xs]
    decreases |xs|
  {
    if xs == [] {
      assert w[q] + xs == w[q] && w[q := w[q] + xs] == w;
      assert TailInsertions(q, xs) == [];
    } else {
      var n := |xs| - 1;
      var less, x := xs[..n], xs[n];
      DistinctLess(xs);
      TailInsertionsRun(heads, w, q, less);
      assert TailInsertions(q, xs) == TailInsertions(q, less) + [Insert(q, AtTail, x)];
      var v := w[q := w[q] + less];
      RunAppend(heads, w, TailInsertions(q, less), Insert(q, AtTail, x));
      EndPlaces(v[q], x);
      assert w[q] + less + [x] == w[q] + xs;
    }
  }

  lemma {:induction false} HeadRemovalsRun<T>(heads: seq<T>, w: seq<seq<T>>, q: nat, n: nat)
    requires q < |w| && Distinct(w[q]) && n <= |w[q]|
    ensures LegalRun(heads, w, HeadRemovals(q, n)) && Run(heads, w, HeadRemovals(q, n)) == w[q := w[q][n..]]
    decreases n
  {
    if n == 0 {
      assert w[q := w[q][0..]] == w;
      assert HeadRemovals<T>(q, n) == [];
    } else {
      var left := w[q][n - 1..];
      HeadRemovalsRun(heads, w, q, n - 1);
      assert HeadRemovals<T>(q, n) == HeadRemovals(q, n - 1) + [RemoveHead(q)];
      RunAppend(heads, w, HeadRemovals(q, n - 1), RemoveHead(q));
      DistinctPairwise(w[q]);
      DistinctPairwise(left);
      WithoutFirst(left);
      assert left[1..] == w[q][n..];
    }
  }

  /** First in, first out: elements put in at the tail leave at the head, behind those that
      were there and in their order. */
  lemma {:induction false} FirstInFirstOut<T>(heads: seq<T>, w: seq<seq<T>>, q: nat, xs: seq<T>, n: nat)
    requires Separate(heads, w) && q < |w| && Distinct(xs) && n <= |w[q]| + |xs|
    requires forall x, r :: x in xs && 0 <= r < |w| ==> x !in w[r]
    requires forall x :: x in xs ==> x !in heads
    ensures var ops := TailInsertions(q, xs) + HeadRemovals(q, n);
      LegalRun(heads, w, ops) && Run(heads, w, ops) == w[q := (w[q] + xs)[n..]]
  {
    var v := w[q := w[q] + xs];
    TailInsertionsRun(heads, w, q, xs);
    DistinctConcat(w[q], xs);
    HeadRemovalsRun(heads, v, q, n);
    RunConcat(heads, w, TailInsertions(q, xs), HeadRemovals(q, n));
  }
}
