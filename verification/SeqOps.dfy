/** Pure sequence operations: the abstract meaning of the queue macros.  A queue is
    the sequence of its members, first to last, and no member occurs twice. */
module SeqOps {

  ghost predicate Apart<T>(s: seq<T>, i: nat, j: nat) {
    i < j < |s| ==> s[i] != s[j]
  }

  /** No element occurs twice.  (Kept behind `Apart`, so that a proof brings in only
      the pairs it asks for, through the lemmas below.) */
  ghost predicate Distinct<T>(s: seq<T>) {
    forall i: nat, j: nat :: Apart(s, i, j)
  }

  ghost predicate Within<T>(r: seq<T>, s: seq<T>) {
    forall x :: x in r ==> x in s
  }

  /** An index of `x`; the only one when `s` is distinct. */
  ghost function IndexOf<T>(s: seq<T>, x: T): (i: nat)
    requires x in s
    ensures i < |s| && s[i] == x
  {
    var i: nat :| i < |s| && s[i] == x;
    i
  }

  lemma {:induction false} DistinctPairwise<T>(s: seq<T>)
    ensures Distinct(s) <==> forall i, j :: 0 <= i < j < |s| ==> s[i] != s[j]
  {
    if Distinct(s) {
      forall i, j | 0 <= i < j < |s| ensures s[i] != s[j] {
        assert Apart(s, i, j);
      }
    }
  }

  /** A member of a distinct sequence stands at one index only. */
  lemma {:induction false} OnlyAt<T>(s: seq<T>, i: nat)
    requires Distinct(s) && i < |s|
    ensures IndexOf(s, s[i]) == i
    ensures forall k {:trigger s[k]} :: 0 <= k < |s| && k != i ==> s[k] != s[i]
  {
    DistinctPairwise(s);
  }

  /** The same for an index and those next to it. */
  lemma {:induction false} OnlyAround<T>(s: seq<T>, i: nat)
    requires Distinct(s) && i < |s|
    ensures IndexOf(s, s[i]) == i
    ensures forall k {:trigger s[k]} :: 0 <= k < |s| && k != i ==> s[k] != s[i]
    ensures i > 0 ==> forall k {:trigger s[k]} :: 0 <= k < |s| && k != i - 1 ==> s[k] != s[i - 1]
    ensures i + 1 < |s| ==> forall k {:trigger s[k]} :: 0 <= k < |s| && k != i + 1 ==> s[k] != s[i + 1]
  {
    DistinctPairwise(s);
  }

  /** `s` with an occurrence of `x` taken out. */
  ghost function Without<T>(s: seq<T>, x: T): (r: seq<T>)
    requires x in s
    ensures Within(r, s) && (Distinct(s) ==> Distinct(r))
  {
    var i := IndexOf(s, x);
    var r := seq(|s| - 1, k requires 0 <= k < |s| - 1 => if k < i then s[k] else s[k + 1]);
    DistinctPairwise(s);
    DistinctPairwise(r);
    r
  }

  /** `x` is a member, and not the last one. */
  ghost predicate HasNext<T>(s: seq<T>, x: T) {
    x in s && x != s[|s| - 1]
  }

  ghost function NextOf<T>(s: seq<T>, x: T): (y: T)
    requires HasNext(s, x)
    ensures y in s
  {
    s[IndexOf(s, x) + 1]
  }

  /** Index by index, what is left without a member. */
  lemma {:induction false} WithoutAround<T>(s: seq<T>, x: T)
    requires x in s
    ensures var r, i := Without(s, x), IndexOf(s, x);
      |r| == |s| - 1 && forall k {:trigger r[k]} :: 0 <= k < |r| ==> r[k] == if k < i then s[k] else s[k + 1]
  {
  }

  lemma {:induction false} Gone<T>(s: seq<T>, x: T)
    requires Distinct(s) && x in s
    ensures x !in Without(s, x)
  {
    OnlyAt(s, IndexOf(s, x));
  }

  lemma {:induction false} SwappedOut<T>(s: seq<T>, x: T, y: T)
    requires Distinct(s) && x in s && y !in s
    ensures x !in Swapped(s, x, y)
  {
    OnlyAt(s, IndexOf(s, x));
  }

  /** `s` with `x` put in so that it gets index `i`. */
  ghost function PutAt<T>(s: seq<T>, i: nat, x: T): (r: seq<T>)
    requires i <= |s|
    ensures Distinct(s) && x !in s ==> Distinct(r)
  {
    var r := seq(|s| + 1, k requires 0 <= k < |s| + 1 => if k < i then s[k] else if k == i then x else s[k - 1]);
    DistinctPairwise(s);
    DistinctPairwise(r);
    r
  }

  datatype Place<T> = AtHead | AtTail | After(member: T) | Before(member: T)

  ghost predicate Names<T>(s: seq<T>, place: Place<T>) {
    place.After? || place.Before? ==> place.member in s
  }

  ghost function PlaceIndex<T>(s: seq<T>, place: Place<T>): (i: nat)
    requires Names(s, place)
    ensures i <= |s|
  {
    match place
    case AtHead => 0
    case AtTail => |s|
    case After(m) => IndexOf(s, m) + 1
    case Before(m) => IndexOf(s, m)
  }

  ghost function Put<T>(s: seq<T>, place: Place<T>, x: T): seq<T>
    requires Names(s, place)
  {
    PutAt(s, PlaceIndex(s, place), x)
  }

  ghost function Swapped<T>(s: seq<T>, x: T, y: T): (r: seq<T>)
    requires x in s
    ensures Distinct(s) && y !in s ==> Distinct(r)
  {
    var r := s[IndexOf(s, x) := y];
    DistinctPairwise(s);
    DistinctPairwise(r);
    r
  }

  ghost function Reverse<T>(s: seq<T>): seq<T> {
    seq(|s|, k requires 0 <= k < |s| => s[|s| - 1 - k])
  }

  /** The members that the predicate rejects, in order: what is left after removing
      every member it accepts. */
  ghost function Rejects<T>(s: seq<T>, p: T -> bool): seq<T> {
    if s == [] then []
    else if p(s[0]) then Rejects(s[1..], p)
    else [s[0]] + Rejects(s[1..], p)
  }

  /** Index by index, what putting `x` in next to a member makes. */
  lemma {:induction false} PutAround<T>(s: seq<T>, place: Place<T>, x: T)
    requires Names(s, place)
    ensures var r, i := Put(s, place, x), PlaceIndex(s, place);
      && |r| == |s| + 1
      && forall k {:trigger r[k]} :: 0 <= k < |r| ==> r[k] == if k < i then s[k] else if k == i then x else s[k - 1]
  {
  }

  lemma {:induction false} DistinctConcat<T>(s: seq<T>, t: seq<T>)
    requires Distinct(s) && Distinct(t) && forall x :: x in s ==> x !in t
    ensures Distinct(s + t)
  {
    DistinctPairwise(s);
    DistinctPairwise(t);
    DistinctPairwise(s + t);
    forall i, j | 0 <= i < j < |s + t| ensures (s + t)[i] != (s + t)[j] {
      if i < |s| <= j {
        assert (s + t)[i] in s && (s + t)[j] in t;
      }
    }
  }

  lemma {:induction false} EndPlaces<T>(s: seq<T>, x: T)
    ensures Put(s, AtHead, x) == [x] + s
    ensures Put(s, AtTail, x) == s + [x]
  {
  }

  /** Inserting before the first or after the last member is inserting at that end. */
  lemma {:induction false} EndInsertionsAgree<T>(s: seq<T>, x: T)
    requires Distinct(s) && s != []
    ensures Put(s, Before(s[0]), x) == [x] + s
    ensures Put(s, After(s[|s| - 1]), x) == s + [x]
  {
    OnlyAt(s, 0);
    OnlyAt(s, |s| - 1);
  }

  /** Putting a new element in and taking it out again changes nothing. */
  lemma {:induction false} InsertionUndone<T>(s: seq<T>, place: Place<T>, x: T)
    requires Distinct(s) && x !in s && Names(s, place)
    ensures x in Put(s, place, x) && Without(Put(s, place, x), x) == s
  {
    var r := Put(s, place, x);
    assert r[PlaceIndex(s, place)] == x;
    OnlyAt(r, PlaceIndex(s, place));
  }

  lemma {:induction false} InsertedIsNext<T>(s: seq<T>, m: T, x: T)
    requires Distinct(s) && m in s && x !in s
    ensures var r := Put(s, After(m), x); HasNext(r, m) && NextOf(r, m) == x
  {
    var r, i := Put(s, After(m), x), IndexOf(s, m);
    assert r[i] == m && r[i + 1] == x;
    OnlyAt(r, i);
  }

  lemma {:induction false} SwappedBack<T>(s: seq<T>, x: T, y: T)
    requires Distinct(s) && x in s && y !in s
    ensures y in Swapped(s, x, y) && Swapped(Swapped(s, x, y), y, x) == s
  {
    var r, i := Swapped(s, x, y), IndexOf(s, x);
    assert r[i] == y;
    OnlyAt(r, i);
  }

  lemma {:induction false} WithoutFirst<T>(s: seq<T>)
    requires Distinct(s) && s != []
    ensures Without(s, s[0]) == s[1..]
  {
    OnlyAt(s, 0);
  }

  /** Walking back, the last member comes first. */
  lemma {:induction false} ReverseAppend<T>(s: seq<T>, x: T)
    ensures Reverse(s + [x]) == [x] + Reverse(s)
  {
  }

  /** Counted from the end, `r` agrees with `s` at the index that `j` has in `s`. */
  ghost predicate SameFromEnd<T>(r: seq<T>, s: seq<T>, j: nat) {
    j < |s| <= |r| + j && r[|r| - |s| + j] == s[j]
  }

  ghost predicate SameFromStart<T>(r: seq<T>, s: seq<T>, j: nat) {
    j < |s| && j < |r| && r[j] == s[j]
  }

  /** `s` after a front-to-back sweep has dealt with its first `i` members, taking out
      the ones that `p` accepts. */
  ghost function Swept<T>(s: seq<T>, i: nat, p: T -> bool): seq<T>
    requires i <= |s|
  {
    if i == 0 then s
    else
      var r := Swept(s, i - 1, p);
      if p(s[i - 1]) && s[i - 1] in r then Without(r, s[i - 1]) else r
  }

  /** `s` after a back-to-front sweep has left only its first `i` members to do. */
  ghost function SweptBack<T>(s: seq<T>, i: nat, p: T -> bool): seq<T>
    requires i <= |s|
    decreases |s| - i
  {
    if i == |s| then s
    else
      var r := SweptBack(s, i + 1, p);
      if p(s[i]) && s[i] in r then Without(r, s[i]) else r
  }

  lemma {:induction false} SweptShape<T>(s: seq<T>, i: nat, p: T -> bool)
    requires Distinct(s) && i <= |s|
    ensures var r := Swept(s, i, p);
      Within(r, s) && Distinct(r) && |s| - i <= |r| && forall j: nat :: i <= j < |s| ==> SameFromEnd(r, s, j)
  {
    if i > 0 {
      SweptShape(s, i - 1, p);
      var r, q := Swept(s, i - 1, p), Swept(s, i, p);
      assert SameFromEnd(r, s, i - 1);
      OnlyAt(r, |r| - |s| + i - 1);
      assert forall j: nat :: i <= j < |s| && SameFromEnd(r, s, j) ==> SameFromEnd(q, s, j);
    }
  }

  lemma {:induction false} SweptBackShape<T>(s: seq<T>, i: nat, p: T -> bool)
    requires Distinct(s) && i <= |s|
    ensures var r := SweptBack(s, i, p);
      Within(r, s) && Distinct(r) && i <= |r| && forall j: nat :: j < i ==> SameFromStart(r, s, j)
    decreases |s| - i
  {
    if i < |s| {
      SweptBackShape(s, i + 1, p);
      var r, q := SweptBack(s, i + 1, p), SweptBack(s, i, p);
      assert SameFromStart(r, s, i);
      OnlyAt(r, i);
      assert forall j: nat :: j < i && SameFromStart(r, s, j) ==> SameFromStart(q, s, j);
    }
  }

  /** What the sweep finds when `i` members are done: at index `n` the next one, with its
      successor behind it, among members of `s`. */
  lemma {:induction false} SweptAt<T>(s: seq<T>, i: nat, p: T -> bool) returns (n: nat)
    requires Distinct(s) && i < |s|
    ensures var r := Swept(s, i, p);
      && n < |r| && r[n] == s[i]
      && (if i + 1 < |s| then n + 1 < |r| && r[n + 1] == s[i + 1] else n + 1 == |r|)
      && (forall k :: 0 <= k < |r| ==> r[k] in s)
      && Swept(s, i + 1, p) == if p(s[i]) then Without(r, s[i]) else r
  {
    SweptShape(s, i, p);
    var r := Swept(s, i, p);
    assert SameFromEnd(r, s, i) && (i + 1 < |s| ==> SameFromEnd(r, s, i + 1));
    n := |r| - |s| + i;
  }

  /** What the other sweep finds when `i + 1` members are left to do: the last of them, with
      its predecessor in front of it, among members of `s`. */
  lemma {:induction false} SweptBackAt<T>(s: seq<T>, i: nat, p: T -> bool)
    requires Distinct(s) && i < |s|
    ensures var r := SweptBack(s, i + 1, p);
      && i < |r| && r[i] == s[i] && (i > 0 ==> r[i - 1] == s[i - 1])
      && (forall k :: 0 <= k < |r| ==> r[k] in s)
      && SweptBack(s, i, p) == if p(s[i]) then Without(r, s[i]) else r
  {
    SweptBackShape(s, i + 1, p);
    var r := SweptBack(s, i + 1, p);
    assert SameFromStart(r, s, i) && (i > 0 ==> SameFromStart(r, s, i - 1));
  }

  lemma {:induction false} RejectsAppend<T>(s: seq<T>, x: T, p: T -> bool)
    ensures Rejects(s + [x], p) == Rejects(s, p) + (if p(x) then [] else [x])
  {
    if s == [] {
      assert s + [x] == [x];
    } else {
      RejectsAppend(s[1..], x, p);
      assert (s + [x])[1..] == s[1..] + [x];
    }
  }

  lemma {:induction false} WithoutAt<T>(s: seq<T>, x: T, t: seq<T>)
    requires Distinct(s + [x] + t)
    ensures x in s + [x] + t && Without(s + [x] + t, x) == s + t
  {
    var r := s + [x] + t;
    assert r[|s|] == x;
    OnlyAt(r, |s|);
  }

  lemma {:induction false} RejectsFrom<T>(s: seq<T>, i: nat, p: T -> bool)
    requires i < |s|
    ensures Rejects(s[i..], p) == (if p(s[i]) then [] else [s[i]]) + Rejects(s[i + 1..], p)
  {
    assert s[i..][1..] == s[i + 1..];
  }

  lemma {:induction false} Regroup<T>(s: seq<T>, i: nat, t: seq<T>)
    requires i < |s|
    ensures s[..i + 1] + t == s[..i] + [s[i]] + t
    ensures s[..i + 1] + t == s[..i] + ([s[i]] + t)
    ensures t + s[i..] == t + [s[i]] + s[i + 1..]
  {
  }

  lemma {:induction false} SweptSplit<T>(s: seq<T>, i: nat, p: T -> bool)
    requires Distinct(s) && i <= |s|
    ensures Swept(s, i, p) == Rejects(s[..i], p) + s[i..]
  {
    if i > 0 {
      var x, kept := s[i - 1], Rejects(s[..i - 1], p);
      SweptSplit(s, i - 1, p);
      SweptShape(s, i - 1, p);
      Regroup(s, i - 1, kept);
      assert s[..i] == s[..i - 1] + [x];
      RejectsAppend(s[..i - 1], x, p);
      WithoutAt(kept, x, s[i..]);
    }
  }

  lemma {:induction false} SweptBackSplit<T>(s: seq<T>, i: nat, p: T -> bool)
    requires Distinct(s) && i <= |s|
    ensures SweptBack(s, i, p) == s[..i] + Rejects(s[i..], p)
    decreases |s| - i
  {
    if i < |s| {
      var x, kept := s[i], Rejects(s[i + 1..], p);
      SweptBackSplit(s, i + 1, p);
      SweptBackShape(s, i + 1, p);
      Regroup(s, i, kept);
      RejectsFrom(s, i, p);
      WithoutAt(s[..i], x, kept);
    }
  }

  /** Either sweep leaves exactly the rejected members, in order. */
  lemma {:induction false} SweepsReject<T>(s: seq<T>, p: T -> bool)
    requires Distinct(s)
    ensures Swept(s, |s|, p) == Rejects(s, p) == SweptBack(s, 0, p)
  {
    SweptSplit(s, |s|, p);
    SweptBackSplit(s, 0, p);
    assert s[..|s|] == s && s[0..] == s;
  }

  lemma {:induction false} RejectsMembers<T>(s: seq<T>, p: T -> bool, x: T)
    ensures x in Rejects(s, p) <==> x in s && !p(x)
  {
    if s != [] {
      assert s == [s[0]] + s[1..];
      RejectsMembers(s[1..], p, x);
    }
  }
}
