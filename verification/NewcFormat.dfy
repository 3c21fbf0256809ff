/** The newc format by byte offsets: which columns of a header hold what, what each read
    returns when the archive ends early, and what is refused with which error. */
module NewcFormat {
  import opened Hex
  import opened Newc

  // ----- Python's slices -----

  /** `b[from:to]`. */
  function Slice<T>(b: seq<T>, from: nat, to: nat): seq<T>
    requires from <= to
  {
    var size := if |b| <= from then 0 else if |b| <= to then |b| - from else to - from;
    seq(size, i requires 0 <= i < size => b[from + i])
  }

  /** A read takes what is there, up to `n` bytes, from the front. */
  lemma {:induction false} ReadSplits<T>(s: seq<T>, n: nat)
    ensures Take(s, n) + Drop(s, n) == s
    ensures |Take(s, n)| == if n <= |s| then n else |s|
  {
    DropIs(s, n);
  }

  lemma {:induction false} TakeOfDrop<T>(b: seq<T>, from: nat, n: nat)
    ensures Take(Drop(b, from), n) == Slice(b, from, from + n)
  {
    DropIs(b, from);
  }

  lemma {:induction false} HeaderStart(b: seq<Byte>)
    ensures Take(Take(b, HEADER_SIZE), 6) == Slice(b, 0, 6)
  {
  }

  lemma {:induction false} HeaderText(b: seq<Byte>, k: nat)
    requires k <= 12
    ensures FieldText(Take(b, HEADER_SIZE), k) == Slice(b, 6 + 8 * k, 14 + 8 * k)
  {
  }

  // ----- the reader -----

  /** Field `k` is refused when it is empty or holds anything but digits. */
  predicate HasNumeral(b: seq<Byte>, k: nat) {
    var text := Slice(b, 6 + 8 * k, 14 + 8 * k);
    |text| > 0 && forall i :: 0 <= i < |text| ==> IsHexDigit(text[i])
  }

  lemma {:induction false} HeaderNumbers(b: seq<Byte>)
    ensures HasNumbers(Take(b, HEADER_SIZE)) <==> forall k :: 1 <= k <= 11 ==> HasNumeral(b, k)
  {
    var h := Take(b, HEADER_SIZE);
    forall k | 1 <= k <= 11 ensures IsNumber(FieldText(h, k)) <==> HasNumeral(b, k) {
      HeaderText(b, k);
    }
    if forall k :: 1 <= k <= 11 ==> HasNumeral(b, k) {
      forall k | 1 <= k <= 11 ensures IsNumber(FieldText(h, k)) {
        assert HasNumeral(b, k);
      }
    } else {
      var k :| 1 <= k <= 11 && !HasNumeral(b, k);
      assert !IsNumber(FieldText(h, k));
    }
  }

  /** The number in columns `from` to `from + 8`, 0 if there is none. */
  function Column(b: seq<Byte>, from: nat): nat {
    var text := Slice(b, from, from + 8);
    if IsHex(text) then Value(text) else 0
  }

  lemma {:induction false} NumberColumn(b: seq<Byte>, k: nat)
    requires HasNumbers(Take(b, HEADER_SIZE)) && 1 <= k <= 11
    ensures Numbers(Take(b, HEADER_SIZE))[k] == Column(b, 6 + 8 * k)
  {
    NumberAt(Take(b, HEADER_SIZE), k);
    HeaderText(b, k);
  }

  lemma {:induction false} SliceBehind<T>(b: seq<T>, n: nat, m: nat, size: nat)
    ensures Take(Drop(Drop(b, n), m), size) == Slice(b, n + m, n + m + size)
  {
    DropTwice(b, n, m);
    TakeOfDrop(b, n + m, size);
  }

  lemma {:induction false} BodySlices<T>(b: seq<T>, size: nat, d: nat, filesize: nat, end: nat)
    requires 110 <= d && 110 <= end
    ensures var body := Drop(b, 110);
      && Take(body, size) == Slice(b, 110, 110 + size)
      && Take(Drop(body, d - 110), filesize) == Slice(b, d, d + filesize)
      && Drop(body, end - 110) == Drop(b, end)
  {
    TakeOfDrop(b, 110, size);
    SliceBehind(b, 110, d - 110, filesize);
    DropTwice(b, 110, end - 110);
  }

  /** The reader behind the header, for every byte string: the name without its last byte,
      and as much of the data as there is, from the next multiple of 4 on. */
  lemma {:induction false} BodyMeans(n: seq<nat>, b: seq<Byte>, d: nat, end: nat)
    requires |n| == 12 && d == 110 + n[11] + Padding(110 + n[11]) && end == d + n[6] + Padding(n[6])
    ensures var name, data := DropLast(Slice(b, 110, 110 + n[11])), Slice(b, d, d + n[6]);
      ParseBody(n, Drop(b, HEADER_SIZE)) ==
      if IsUtf8(name)
      then Entry(CpioEntry(name, n[1], n[2], n[3], n[4], n[5], n[7], n[8], n[9], n[10], data), Drop(b, end))
      else NoEntry(BadName)
  {
    BodySlices(b, n[11], d, n[6], end);
    BodyIs(n, Drop(b, 110), Slice(b, 110, 110 + n[11]), Slice(b, d, d + n[6]), Drop(b, end));
  }

  /** The numbers that the reader takes from the header. */
  lemma {:induction false} HeaderColumns(b: seq<Byte>)
    requires HasNumbers(Take(b, HEADER_SIZE))
    ensures var n := Numbers(Take(b, HEADER_SIZE));
      && n[1] == Column(b, 14) && n[2] == Column(b, 22) && n[3] == Column(b, 30) && n[4] == Column(b, 38)
      && n[5] == Column(b, 46) && n[6] == Column(b, 54) && n[7] == Column(b, 62) && n[8] == Column(b, 70)
      && n[9] == Column(b, 78) && n[10] == Column(b, 86) && n[11] == Column(b, 94)
  {
    NumberColumn(b, 1);
    NumberColumn(b, 2);
    NumberColumn(b, 3);
    NumberColumn(b, 4);
    NumberColumn(b, 5);
    NumberColumn(b, 6);
    NumberColumn(b, 7);
    NumberColumn(b, 8);
    NumberColumn(b, 9);
    NumberColumn(b, 10);
    NumberColumn(b, 11);
  }

  /** The reader of the header, for every byte string: the errors in the order in which
      they are looked for. */
  lemma {:induction false} HeaderMeans(b: seq<Byte>)
    ensures var h := Take(b, HEADER_SIZE);
      ParseEntry(b) ==
      if Slice(b, 0, 6) != MAGIC then NoEntry(BadMagic)
      else if !HasNumbers(h) then NoEntry(BadNumber)
      else ParseBody(Numbers(h), Drop(b, HEADER_SIZE))
  {
    HeaderStart(b);
  }

  // ----- the writer -----

  function Ascii(text: string): seq<Byte>
    requires forall i :: 0 <= i < |text| ==> text[i] as int < 128
  {
    seq(|text|, i requires 0 <= i < |text| => text[i] as int as Byte)
  }

  lemma {:induction false} Spelling()
    ensures MAGIC == Ascii("070701") && TRAILER == Ascii("TRAILER!!!")
  {
  }

  /** The field in the eight columns from `from` on. */
  function FieldAt(e: CpioEntry, from: nat): nat {
    match from
    case 14 => e.mode
    case 22 => e.uid
    case 30 => e.gid
    case 38 => e.nlink
    case 46 => e.mtime
    case 54 => |e.data|
    case 62 => e.devmajor
    case 70 => e.devminor
    case 78 => e.rdevmajor
    case 86 => e.rdevminor
    case 94 => |e.name| + 1
    case _ => 0
  }

  /** The writer, column by column. */
  lemma {:induction false} ColumnWritten(e: CpioEntry, k: nat)
    requires Fits(e) && k < 13
    ensures |Header(e)| == 110 && Slice(Header(e), 6 + 8 * k, 14 + 8 * k) == Fixed(FieldAt(e, 6 + 8 * k), 8)
  {
    HeaderField(e, k);
    FieldAtColumn(e, k);
    WholeHeaderText(Header(e), k);
  }

  lemma {:induction false} FieldAtColumn(e: CpioEntry, k: nat)
    requires k < 13
    ensures FieldAt(e, 6 + 8 * k) == Fields(e)[k]
  {
  }

  lemma {:induction false} WholeHeaderText(h: seq<Byte>, k: nat)
    requires |h| == HEADER_SIZE && k <= 12
    ensures Slice(h, 6 + 8 * k, 14 + 8 * k) == FieldText(h, k)
  {
    assert Take(h, HEADER_SIZE) == h;
    HeaderText(h, k);
  }

  /** The reader, column by column; the size of the data says how many bytes to ask for. */
  lemma {:induction false} ColumnRead(b: seq<Byte>, k: nat)
    requires ParseEntry(b).Entry? && 1 <= k <= 10 && k != 6
    ensures FieldAt(ParseEntry(b).entry, 6 + 8 * k) == Column(b, 6 + 8 * k)
  {
    HeaderMeans(b);
    NumberColumn(b, k);
    var n := Numbers(Take(b, HEADER_SIZE));
    BodyEntry(n, Drop(b, HEADER_SIZE), k);
  }

  lemma {:induction false} BodyEntry(n: seq<nat>, body: seq<Byte>, k: nat)
    requires |n| == 12 && ParseBody(n, body).Entry? && 1 <= k <= 10 && k != 6
    ensures FieldAt(ParseBody(n, body).entry, 6 + 8 * k) == n[k]
  {
  }

  /** The header of any entry, also of one that does not fit. */
  lemma {:induction false} HeaderSpelt(e: CpioEntry)
    ensures Header(e) == MAGIC + (Padded(0, 8) + (Padded(e.mode, 8) + (Padded(e.uid, 8) + (Padded(e.gid, 8)
      + (Padded(e.nlink, 8) + (Padded(e.mtime, 8) + (Padded(|e.data|, 8) + (Padded(e.devmajor, 8)
      + (Padded(e.devminor, 8) + (Padded(e.rdevmajor, 8) + (Padded(e.rdevminor, 8)
      + (Padded(|e.name| + 1, 8) + (Padded(0, 8) + [])))))))))))))
  {
    var f := Fields(e);
    assert Words(f, 13) == [];
    assert Words(f, 12) == Padded(f[12], 8) + Words(f, 13);
    assert Words(f, 11) == Padded(f[11], 8) + Words(f, 12);
    assert Words(f, 10) == Padded(f[10], 8) + Words(f, 11);
    assert Words(f, 9) == Padded(f[9], 8) + Words(f, 10);
    assert Words(f, 8) == Padded(f[8], 8) + Words(f, 9);
    assert Words(f, 7) == Padded(f[7], 8) + Words(f, 8);
    assert Words(f, 6) == Padded(f[6], 8) + Words(f, 7);
    assert Words(f, 5) == Padded(f[5], 8) + Words(f, 6);
    assert Words(f, 4) == Padded(f[4], 8) + Words(f, 5);
    assert Words(f, 3) == Padded(f[3], 8) + Words(f, 4);
    assert Words(f, 2) == Padded(f[2], 8) + Words(f, 3);
    assert Words(f, 1) == Padded(f[1], 8) + Words(f, 2);
  }

  /** Where the data of an entry start: at the next multiple of 4 behind the name and its
      terminator. */
  function DataStart(e: CpioEntry): (d: nat)
    ensures d % 4 == 0 && 110 + |e.name| < d <= 110 + |e.name| + 4
  {
    110 + |e.name| + 1 + Padding(110 + |e.name| + 1)
  }

  lemma {:induction false} Concatenated(h: seq<Byte>, raw: seq<Byte>, z1: seq<Byte>, data: seq<Byte>, z2: seq<Byte>)
    ensures var s, i, j, k := h + raw + z1 + data + z2, |h| + |raw|, |h| + |raw| + |z1|, |h| + |raw| + |z1| + |data|;
      && |s| == k + |z2| && Slice(s, 0, |h|) == h && Slice(s, |h|, i) == raw && Slice(s, i, j) == z1
      && Slice(s, j, k) == data && Slice(s, k, |s|) == z2
  {
  }

  lemma {:induction false} PartsWritten(
      h: seq<Byte>, name: seq<Byte>, z1: seq<Byte>, data: seq<Byte>, z2: seq<Byte>, n: nat, d: nat, m: nat)
    requires |h| == 110 && n == 110 + |name| + 1 && d == n + |z1| && m == d + |data|
    ensures var w := h + (name + [0]) + z1 + data + z2;
      && |w| == m + |z2| && Slice(w, 0, 110) == h && Slice(w, 110, n) == name + [0] && Slice(w, n, d) == z1
      && Slice(w, d, m) == data && Slice(w, m, |w|) == z2
  {
    Concatenated(h, name + [0], z1, data, z2);
  }

  lemma {:induction false} EntryIs(e: CpioEntry, n: nat, d: nat, z: nat)
    requires n == 110 + |e.name| + 1 && d == DataStart(e) && z == Padding(|e.data|)
    ensures WriteEntry(e) == Header(e) + (e.name + [0]) + Zeros(d - n) + e.data + Zeros(z)
  {
    assert d - n == Padding(HEADER_SIZE + |e.name| + 1);
  }

  lemma {:induction false} PaddedToFour(d: nat, n: nat, total: nat)
    requires d % 4 == 0 && total == d + n + Padding(n)
    ensures total % 4 == 0 && d + n <= total < d + n + 4
  {
  }

  /** The bytes of a written entry: header, name and terminator up to `n`, zeros up to `d`,
      data up to `m`, and zeros up to a multiple of 4. */
  lemma {:induction false} EntryWritten(e: CpioEntry, n: nat, d: nat, m: nat)
    requires Fits(e) && n == 110 + |e.name| + 1 && d == DataStart(e) && m == d + |e.data|
    ensures var w := WriteEntry(e);
      && |w| % 4 == 0 && m <= |w| < m + 4
      && Slice(w, 0, 110) == Header(e) && Slice(w, 110, n) == e.name + [0] && Slice(w, n, d) == Zeros(d - n)
      && Slice(w, d, m) == e.data && Slice(w, m, |w|) == Zeros(|w| - m)
  {
    var h, z := Header(e), Padding(|e.data|);
    HeaderField(e, 0);
    EntryIs(e, n, d, z);
    PartsWritten(h, e.name, Zeros(d - n), e.data, Zeros(z), n, d, m);
    PaddedToFour(d, |e.data|, |WriteEntry(e)|);
  }

  lemma {:induction false} ZerosAreZero(n: nat)
    ensures forall i :: 0 <= i < |Zeros(n)| ==> Zeros(n)[i] == 0
  {
  }
}
