/** Archives that end early: what the reader makes of a written entry that is cut off
    after any number of bytes. */
module NewcCut {
  import opened Hex
  import opened Newc
  import opened NewcFormat

  /** The name without the last byte that was read. */
  function CutName(e: CpioEntry, c: nat): seq<Byte> {
    if c <= 110 then []
    else if c <= 110 + |e.name| then e.name[..c - 111]
    else e.name
  }

  function CutData(e: CpioEntry, c: nat): seq<Byte> {
    if c <= DataStart(e) then []
    else if c <= DataStart(e) + |e.data| then e.data[..c - DataStart(e)]
    else e.data
  }

  lemma {:induction false} SliceOfCut<T>(w: seq<T>, c: nat, i: nat, j: nat)
    requires c <= |w| && i <= j
    ensures Slice(w[..c], i, j) == if c <= i then [] else Slice(w, i, if j <= c then j else c)
  {
  }

  lemma {:induction false} SliceOfSlice<T>(w: seq<T>, k: nat, i: nat, j: nat)
    requires i <= j <= k
    ensures Slice(Slice(w, 0, k), i, j) == Slice(w, i, j)
  {
  }

  lemma {:induction false} SlicePrefix<T>(w: seq<T>, i: nat, j: nat, k: nat)
    requires i <= j <= k <= |w|
    ensures |Slice(w, i, k)| == k - i && Slice(w, i, j) == Slice(w, i, k)[..j - i]
  {
  }

  lemma {:induction false} WrittenSize(e: CpioEntry)
    requires Fits(e)
    ensures |WriteEntry(e)| == DataStart(e) + |e.data| + Padding(|e.data|)
  {
    HeaderField(e, 0);
    EntryIs(e, 110 + |e.name| + 1, DataStart(e), Padding(|e.data|));
  }

  lemma {:induction false} ColumnOfEntry(e: CpioEntry, k: nat)
    requires Fits(e) && k < 13
    ensures Slice(WriteEntry(e), 6 + 8 * k, 14 + 8 * k) == Fixed(FieldAt(e, 6 + 8 * k), 8)
  {
    EntryWritten(e, 110 + |e.name| + 1, DataStart(e), DataStart(e) + |e.data|);
    SliceOfSlice(WriteEntry(e), 110, 6 + 8 * k, 14 + 8 * k);
    ColumnWritten(e, k);
  }

  lemma {:induction false} NumeralIn(b: seq<Byte>, k: nat, v: nat)
    requires k <= 12 && v < FIELD_LIMIT && Slice(b, 6 + 8 * k, 14 + 8 * k) == Fixed(v, 8)
    ensures HasNumeral(b, k) && Column(b, 6 + 8 * k) == v
  {
    EightDigits();
    FixedValue(v, 8);
  }

  lemma {:induction false} CutText(e: CpioEntry, c: nat, k: nat)
    requires Fits(e) && 1 <= k <= 11 && 14 + 8 * k <= c <= |WriteEntry(e)|
    ensures Slice(WriteEntry(e)[..c], 6 + 8 * k, 14 + 8 * k) == Fixed(FieldAt(e, 6 + 8 * k), 8)
  {
    SliceOfCut(WriteEntry(e), c, 6 + 8 * k, 14 + 8 * k);
    ColumnOfEntry(e, k);
  }

  lemma {:induction false} FieldBound(e: CpioEntry, from: nat)
    requires Fits(e)
    ensures FieldAt(e, from) < FIELD_LIMIT
  {
  }

  /** A field whose columns are still there. */
  lemma {:induction false} CutField(e: CpioEntry, c: nat, k: nat)
    requires Fits(e) && 1 <= k <= 11 && 14 + 8 * k <= c <= |WriteEntry(e)|
    ensures HasNumeral(WriteEntry(e)[..c], k) && Column(WriteEntry(e)[..c], 6 + 8 * k) == FieldAt(e, 6 + 8 * k)
  {
    CutText(e, c, k);
    FieldBound(e, 6 + 8 * k);
    NumeralIn(WriteEntry(e)[..c], k, FieldAt(e, 6 + 8 * k));
  }

  /** The size of the name may lose digits, but one will do. */
  lemma {:induction false} CutNamesize(e: CpioEntry, c: nat)
    requires Fits(e) && 94 < c < 102 <= |WriteEntry(e)|
    ensures HasNumeral(WriteEntry(e)[..c], 11)
  {
    var w := WriteEntry(e);
    SliceOfCut(w, c, 94, 102);
    SlicePrefix(w, 94, c, 102);
    ColumnOfEntry(e, 11);
    DigitsLeft(w[..c], 11, Fixed(FieldAt(e, 94), 8), c - 94);
  }

  lemma {:induction false} DigitsLeft(b: seq<Byte>, k: nat, digits: seq<Byte>, n: nat)
    requires IsHex(digits) && 0 < n <= |digits| && Slice(b, 6 + 8 * k, 14 + 8 * k) == digits[..n]
    ensures HasNumeral(b, k)
  {
    assert forall i :: 0 <= i < n ==> digits[..n][i] == digits[i];
  }

  lemma {:induction false} CutNumbers(e: CpioEntry, c: nat)
    requires Fits(e) && 94 < c <= |WriteEntry(e)|
    ensures var h := Take(WriteEntry(e)[..c], HEADER_SIZE);
      && HasNumbers(h)
      && (forall k :: 1 <= k <= 10 ==> Numbers(h)[k] == FieldAt(e, 6 + 8 * k))
      && (c >= 102 ==> Numbers(h)[11] == |e.name| + 1)
  {
    var b := WriteEntry(e)[..c];
    WrittenSize(e);
    forall k | 1 <= k <= 11 ensures HasNumeral(b, k) {
      if k <= 10 || c >= 102 {
        CutField(e, c, k);
      } else {
        CutNamesize(e, c);
      }
    }
    HeaderNumbers(b);
    forall k | 1 <= k <= 11 && (k <= 10 || c >= 102)
      ensures Numbers(Take(b, HEADER_SIZE))[k] == FieldAt(e, 6 + 8 * k)
    {
      NumberColumn(b, k);
      CutField(e, c, k);
    }
  }

  lemma {:induction false} PrefixOfName(name: seq<Byte>, k: nat)
    requires 0 < k <= |name| + 1
    ensures DropLast((name + [0])[..k]) == name[..k - 1]
  {
  }

  lemma {:induction false} CutNameRead(e: CpioEntry, c: nat)
    requires Fits(e) && 110 < c < |WriteEntry(e)|
    ensures DropLast(Slice(WriteEntry(e)[..c], 110, 110 + |e.name| + 1)) == CutName(e, c)
  {
    var w, n := WriteEntry(e), 110 + |e.name| + 1;
    var m := if c < n then c else n;
    EntryWritten(e, n, DataStart(e), DataStart(e) + |e.data|);
    SliceOfCut(w, c, 110, n);
    SlicePrefix(w, 110, m, n);
    PrefixOfName(e.name, m - 110);
  }

  lemma {:induction false} CutDataRead(e: CpioEntry, c: nat)
    requires Fits(e) && 110 < c < |WriteEntry(e)|
    ensures Slice(WriteEntry(e)[..c], DataStart(e), DataStart(e) + |e.data|) == CutData(e, c)
  {
    var w, d, m := WriteEntry(e), DataStart(e), DataStart(e) + |e.data|;
    EntryWritten(e, 110 + |e.name| + 1, d, m);
    SliceOfCut(w, c, d, m);
    if d < c < m {
      SlicePrefix(w, d, c, m);
    } else if c == m {
      assert e.data[..|e.data|] == e.data;
    }
  }

  lemma {:induction false} Replaced(e: CpioEntry, n: seq<nat>, name: seq<Byte>, data: seq<Byte>)
    requires |n| == 12 && forall k :: 1 <= k <= 10 ==> n[k] == FieldAt(e, 6 + 8 * k)
    ensures CpioEntry(name, n[1], n[2], n[3], n[4], n[5], n[7], n[8], n[9], n[10], data)
         == e.(name := name, data := data)
    ensures n[6] == |e.data|
  {
    assert n[1] == FieldAt(e, 14) && n[2] == FieldAt(e, 22) && n[3] == FieldAt(e, 30) && n[4] == FieldAt(e, 38);
    assert n[5] == FieldAt(e, 46) && n[6] == FieldAt(e, 54) && n[7] == FieldAt(e, 62) && n[8] == FieldAt(e, 70);
    assert n[9] == FieldAt(e, 78) && n[10] == FieldAt(e, 86);
  }

  lemma {:induction false} NothingThere(b: seq<Byte>, i: nat, j: nat)
    requires |b| <= i <= j
    ensures Slice(b, i, j) == [] && Drop(b, i) == [] && Drop(b, j) == []
  {
  }

  lemma {:induction false} BodyLeft(b: seq<Byte>, n: seq<nat>, d: nat, e: CpioEntry, name: seq<Byte>, data: seq<Byte>)
    requires |n| == 12 && d == 110 + n[11] + Padding(110 + n[11])
    requires forall k :: 1 <= k <= 10 ==> n[k] == FieldAt(e, 6 + 8 * k)
    requires DropLast(Slice(b, 110, 110 + n[11])) == name && Slice(b, d, d + |e.data|) == data
    requires |b| <= d + |e.data| + Padding(|e.data|)
    ensures ParseBody(n, Drop(b, HEADER_SIZE)) ==
      if IsUtf8(name) then Entry(e.(name := name, data := data), []) else NoEntry(BadName)
  {
    var end := d + |e.data| + Padding(|e.data|);
    Replaced(e, n, name, data);
    BodyMeans(n, b, d, end);
    NothingThere(b, end, end);
  }

  /** `b` is what is left of `e` behind the header when `c` bytes are left. */
  ghost predicate IsLeft(b: seq<Byte>, e: CpioEntry, c: nat) {
    && |b| == c < DataStart(e) + |e.data| + Padding(|e.data|)
    && (c > 110 ==>
      && DropLast(Slice(b, 110, 110 + |e.name| + 1)) == CutName(e, c)
      && Slice(b, DataStart(e), DataStart(e) + |e.data|) == CutData(e, c))
  }

  lemma {:induction false} CutIsLeft(e: CpioEntry, c: nat)
    requires Fits(e) && c < |WriteEntry(e)|
    ensures IsLeft(WriteEntry(e)[..c], e, c)
  {
    WrittenSize(e);
    if c > 110 {
      CutNameRead(e, c);
      CutDataRead(e, c);
    }
  }

  lemma {:induction false} CutBody(b: seq<Byte>, e: CpioEntry, c: nat, n: seq<nat>)
    requires IsLeft(b, e, c) && |n| == 12
    requires forall k :: 1 <= k <= 10 ==> n[k] == FieldAt(e, 6 + 8 * k)
    requires c >= 102 ==> n[11] == |e.name| + 1
    ensures ParseBody(n, Drop(b, HEADER_SIZE)) ==
      if IsUtf8(CutName(e, c)) then Entry(e.(name := CutName(e, c), data := CutData(e, c)), []) else NoEntry(BadName)
  {
    var d := 110 + n[11] + Padding(110 + n[11]);
    if c <= 110 {
      NothingThere(b, 110, 110 + n[11]);
      NothingThere(b, d, d + |e.data|);
    }
    BodyLeft(b, n, d, e, CutName(e, c), CutData(e, c));
  }

  lemma {:induction false} ParseLast(b: seq<Byte>, e: CpioEntry)
    requires b != [] && ParseEntry(b) == Entry(e, [])
    ensures Parse(b) == Ok([e], [])
  {
    assert Parse([]) == Ok([], []);
    assert [e] + [] == [e];
  }

  /** A written entry, cut off after `c` bytes: within the magic or the numbers it is
      refused, later it is read with what is left of name and data, unless the cut breaks
      a character of the name. */
  lemma {:induction false} CutEntry(e: CpioEntry, c: nat)
    requires Fits(e) && 0 < c < |WriteEntry(e)|
    ensures Parse(WriteEntry(e)[..c]) ==
      if c < 6 then Err(BadMagic)
      else if c <= 94 then Err(BadNumber)
      else if !IsUtf8(CutName(e, c)) then Err(BadName)
      else Ok([e.(name := CutName(e, c), data := CutData(e, c))], [])
  {
    var w, b := WriteEntry(e), WriteEntry(e)[..c];
    HeaderMeans(b);
    CutMagic(e, c);
    if 6 <= c <= 94 {
      NothingThere(b, 94, 102);
      assert !HasNumeral(b, 11);
      HeaderNumbers(b);
    } else if 94 < c {
      CutNumbers(e, c);
      CutIsLeft(e, c);
      CutBody(b, e, c, Numbers(Take(b, HEADER_SIZE)));
      if IsUtf8(CutName(e, c)) {
        ParseLast(b, e.(name := CutName(e, c), data := CutData(e, c)));
      }
    }
  }

  lemma {:induction false} CutMagic(e: CpioEntry, c: nat)
    requires Fits(e) && c <= |WriteEntry(e)|
    ensures Slice(WriteEntry(e)[..c], 0, 6) == MAGIC <==> c >= 6
  {
    var w := WriteEntry(e);
    SliceOfCut(w, c, 0, 6);
    EntryWritten(e, 110 + |e.name| + 1, DataStart(e), DataStart(e) + |e.data|);
    SliceOfSlice(w, 110, 0, 6);
    assert Slice(Header(e), 0, 6) == MAGIC;
  }

  /** Reading goes on behind written entries as it would without them. */
  lemma {:induction false} ParseBehind(before: seq<CpioEntry>, rest: seq<Byte>)
    requires forall i :: 0 <= i < |before| ==> Fits(before[i]) && before[i].name != TRAILER
    ensures Parse(Write(before, rest)) == Prepend(before, Parse(rest))
    decreases |before|
  {
    if before != [] {
      var more := before[1..];
      assert forall i :: 0 <= i < |more| ==> more[i] == before[i + 1];
      ParseBehind(more, rest);
      ParseWritten(before[0], Write(more, rest));
      PrependTwice(before[0], more, Parse(rest));
      HeadAndTail(before);
    } else {
      PrependNone(Parse(rest));
    }
  }

  lemma {:induction false} PrependNone(a: Archive)
    ensures Prepend([], a) == a
  {
    if a.Ok? {
      assert [] + a.entries == a.entries;
    }
  }

  lemma {:induction false} PrependTwice(e: CpioEntry, es: seq<CpioEntry>, a: Archive)
    ensures Prepend([e], Prepend(es, a)) == Prepend([e] + es, a)
  {
    if a.Ok? {
      assert [e] + (es + a.entries) == [e] + es + a.entries;
    }
  }

  /** An archive cut off anywhere within an entry: those in front of it are read as they
      were, and the last one as `CutEntry` says. */
  lemma {:induction false} CutArchive(before: seq<CpioEntry>, e: CpioEntry, c: nat)
    requires forall i :: 0 <= i < |before| ==> Fits(before[i]) && before[i].name != TRAILER
    requires Fits(e) && 95 <= c < |WriteEntry(e)| && IsUtf8(CutName(e, c))
    ensures Parse(Write(before, WriteEntry(e)[..c])) ==
      Ok(before + [e.(name := CutName(e, c), data := CutData(e, c))], [])
  {
    ParseBehind(before, WriteEntry(e)[..c]);
    CutEntry(e, c);
  }
}
