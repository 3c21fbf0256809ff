/** What parse-then-write does to the bytes of an archive none of whose reads is cut
    short and all of whose names have a terminator.  Such an archive is taken apart into
    raw entries and a suffix. */
module NewcLayout {
  import opened Hex
  import opened Newc

  datatype RawEntry = RawEntry(
    header: seq<Byte>, name: seq<Byte>, end: Byte, pad1: seq<Byte>, data: seq<Byte>, pad2: seq<Byte>)

  predicate IsPadded(r: RawEntry) {
    |r.header| == HEADER_SIZE && |r.pad1| == Padding(HEADER_SIZE + |r.name| + 1) && |r.pad2| == Padding(|r.data|)
  }

  predicate IsWhole(r: RawEntry) {
    && IsPadded(r) && Take(r.header, 6) == MAGIC && HasNumbers(r.header) && IsUtf8(r.name)
    && Numbers(r.header)[11] == |r.name| + 1 && Numbers(r.header)[6] == |r.data|
  }

  function RawBytes(r: RawEntry): seq<Byte> {
    r.header + (r.name + [r.end]) + r.pad1 + r.data + r.pad2
  }

  function Bytes(raws: seq<RawEntry>, suffix: seq<Byte>): seq<Byte>
    decreases |raws|
  {
    if raws == [] then suffix else RawBytes(raws[0]) + Bytes(raws[1..], suffix)
  }

  predicate IsComplete(raws: seq<RawEntry>, suffix: seq<Byte>)
    decreases |raws|
  {
    if raws == [] then suffix == []
    else IsWhole(raws[0]) && (if raws[0].name == TRAILER then |raws| == 1 else IsComplete(raws[1..], suffix))
  }

  /** The header byte at offset `i` after parse-then-write: inode and check become zeros,
      the digits of the other fields lose their upper case, the magic stays. */
  function CanonHeaderByte(i: nat, was: Byte): Byte {
    if i < 6 then was
    else if i < 14 || i >= 102 then 0x30
    else Lower(was)
  }

  function CanonHeaderBytes(header: seq<Byte>): seq<Byte> {
    seq(|header|, i requires 0 <= i < |header| => CanonHeaderByte(i, header[i]))
  }

  /** The entry after parse-then-write: name and data as they were, name terminator and
      padding turned to zero bytes, and every part of the same length. */
  function CanonRaw(r: RawEntry): RawEntry {
    RawEntry(CanonHeaderBytes(r.header), r.name, 0, Zeros(|r.pad1|), r.data, Zeros(|r.pad2|))
  }

  function CanonAll(raws: seq<RawEntry>): (c: seq<RawEntry>)
    ensures |c| == |raws| && forall i :: 0 <= i < |raws| ==> c[i] == CanonRaw(raws[i])
  {
    seq(|raws|, i requires 0 <= i < |raws| => CanonRaw(raws[i]))
  }

  function EntryOf(r: RawEntry): CpioEntry
    requires HasNumbers(r.header)
  {
    MakeEntry(Numbers(r.header), r.name, r.data)
  }

  predicate AllNumbered(raws: seq<RawEntry>) {
    forall i {:trigger raws[i]} :: 0 <= i < |raws| ==> HasNumbers(raws[i].header)
  }

  function EntriesOf(raws: seq<RawEntry>): (es: seq<CpioEntry>)
    requires AllNumbered(raws)
    ensures |es| == |raws| && forall i :: 0 <= i < |raws| ==> es[i] == EntryOf(raws[i])
  {
    seq(|raws|, i requires 0 <= i < |raws| => EntryOf(raws[i]))
  }

  lemma {:induction false} EntriesOfCons(raws: seq<RawEntry>)
    requires raws != [] && AllNumbered(raws)
    ensures AllNumbered(raws[1..]) && EntriesOf(raws) == [EntryOf(raws[0])] + EntriesOf(raws[1..])
  {
    var es, more := EntriesOf(raws), EntriesOf(raws[1..]);
    forall i | 0 <= i < |more| ensures es[i + 1] == more[i] {
      assert raws[1..][i] == raws[i + 1];
    }
    Cons(es, more);
  }

  lemma {:induction false} Cons<T>(s: seq<T>, t: seq<T>)
    requires |s| == |t| + 1 && forall i :: 0 <= i < |t| ==> s[i + 1] == t[i]
    ensures s == [s[0]] + t
  {
  }

  lemma {:induction false} CompleteIsWhole(raws: seq<RawEntry>, suffix: seq<Byte>, k: nat)
    requires IsComplete(raws, suffix) && k < |raws|
    ensures IsWhole(raws[k])
    decreases |raws|
  {
    if k > 0 {
      CompleteIsWhole(raws[1..], suffix, k - 1);
    }
  }

  lemma {:induction false} CompleteIsNumbered(raws: seq<RawEntry>, suffix: seq<Byte>)
    requires IsComplete(raws, suffix)
    ensures AllNumbered(raws)
  {
    forall i | 0 <= i < |raws| ensures HasNumbers(raws[i].header) {
      CompleteIsWhole(raws, suffix, i);
    }
  }

  lemma {:induction false} WholeFits(r: RawEntry)
    requires IsWhole(r)
    ensures Fits(EntryOf(r))
  {
    forall k | 1 <= k <= 11 ensures Numbers(r.header)[k] < FIELD_LIMIT {
      NumberFits(r.header, k);
    }
  }

  lemma {:induction false} RawEntryParses(r: RawEntry, rest: seq<Byte>)
    requires IsWhole(r)
    ensures ParseEntry(RawBytes(r) + rest) == Entry(EntryOf(r), rest) && Fits(EntryOf(r))
    ensures Parse(RawBytes(r) + rest) ==
      (if r.name == TRAILER then Ok([EntryOf(r)], rest) else Prepend([EntryOf(r)], Parse(rest)))
  {
    Reassociate(r.header, r.name + [r.end], r.pad1, r.data, r.pad2, rest);
    TakeDrop(r.header, (r.name + [r.end]) + (r.pad1 + (r.data + (r.pad2 + rest))));
    BodyRead(Numbers(r.header), r.name, r.end, r.pad1, r.data, r.pad2, rest);
    WholeFits(r);
  }

  lemma {:induction false} HeaderByte(e: CpioEntry, k: nat, j: nat)
    requires Fits(e) && k < 13 && j < 8
    ensures |Header(e)| == HEADER_SIZE && Header(e)[6 + 8 * k + j] == Fixed(Fields(e)[k], 8)[j]
  {
    WordAt(Fields(e), 0, k);
    var w := Words(Fields(e), 0);
    assert w[8 * k..8 * k + 8][j] == w[8 * k + j];
  }

  lemma {:induction false} FieldByte(header: seq<Byte>, k: nat, j: nat)
    requires |header| == HEADER_SIZE && HasNumbers(header) && 1 <= k <= 11 && j < 8
    ensures Fixed(Numbers(header)[k], 8)[j] == Lower(header[6 + 8 * k + j])
  {
    var t := FieldText(header, k);
    assert |t| == 8 && t[j] == header[6 + 8 * k + j];
    NumberAt(header, k);
    FixedOfValue(t);
  }

  lemma {:induction false} FieldsOfMade(n: seq<nat>, name: seq<Byte>, data: seq<Byte>)
    requires |n| == 12 && n[11] == |name| + 1 && n[6] == |data|
    ensures var f := Fields(MakeEntry(n, name, data));
      f[0] == 0 && f[12] == 0 && forall k :: 1 <= k <= 11 ==> f[k] == n[k]
  {
  }

  lemma {:induction false} FieldRewritten(header: seq<Byte>, e: CpioEntry, k: nat, j: nat)
    requires |header| == HEADER_SIZE && HasNumbers(header) && k < 13 && j < 8 && Fits(e)
    requires Fields(e)[0] == 0 && Fields(e)[12] == 0
    requires forall k :: 1 <= k <= 11 ==> Fields(e)[k] == Numbers(header)[k]
    ensures var i := 6 + 8 * k + j; |Header(e)| == HEADER_SIZE && Header(e)[i] == CanonHeaderByte(i, header[i])
  {
    HeaderByte(e, k, j);
    if 1 <= k <= 11 {
      FieldByte(header, k, j);
    } else {
      FixedZero(8);
    }
  }

  lemma {:induction false} MagicRewritten(header: seq<Byte>, e: CpioEntry, i: nat)
    requires |header| == HEADER_SIZE && Take(header, 6) == MAGIC && i < 6 && Fits(e)
    ensures |Header(e)| == HEADER_SIZE && Header(e)[i] == header[i]
  {
    HeaderByte(e, 0, 0);
    MagicBytes(header, Words(Fields(e), 0), i);
  }

  lemma {:induction false} HeaderRewritten(header: seq<Byte>, e: CpioEntry, i: nat)
    requires |header| == HEADER_SIZE && Take(header, 6) == MAGIC && HasNumbers(header) && i < HEADER_SIZE && Fits(e)
    requires Fields(e)[0] == 0 && Fields(e)[12] == 0
    requires forall k :: 1 <= k <= 11 ==> Fields(e)[k] == Numbers(header)[k]
    ensures |Header(e)| == HEADER_SIZE && Header(e)[i] == CanonHeaderByte(i, header[i])
  {
    if i < 6 {
      MagicRewritten(header, e, i);
    } else {
      FieldRewritten(header, e, (i - 6) / 8, (i - 6) % 8);
    }
  }

  lemma {:induction false} MagicBytes(header: seq<Byte>, words: seq<Byte>, i: nat)
    requires |header| >= 6 && Take(header, 6) == MAGIC && i < 6
    ensures (MAGIC + words)[i] == header[i]
  {
    assert Take(header, 6)[i] == header[i];
  }

  lemma {:induction false} CanonHeader(header: seq<Byte>, e: CpioEntry)
    requires |header| == HEADER_SIZE && Take(header, 6) == MAGIC && HasNumbers(header) && Fits(e)
    requires Fields(e)[0] == 0 && Fields(e)[12] == 0
    requires forall k :: 1 <= k <= 11 ==> Fields(e)[k] == Numbers(header)[k]
    ensures Header(e) == CanonHeaderBytes(header)
  {
    HeaderRewritten(header, e, 0);
    forall i | 0 <= i < HEADER_SIZE ensures Header(e)[i] == CanonHeaderByte(i, header[i]) {
      HeaderRewritten(header, e, i);
    }
  }

  lemma {:induction false} RawEntryRewritten(r: RawEntry)
    requires IsWhole(r)
    ensures WriteEntry(EntryOf(r)) == RawBytes(CanonRaw(r))
  {
    WholeFits(r);
    FieldsOfMade(Numbers(r.header), r.name, r.data);
    CanonHeader(r.header, EntryOf(r));
  }

  lemma {:induction false} BytesCons(r: RawEntry, more: seq<RawEntry>, suffix: seq<Byte>)
    ensures Bytes([r] + more, suffix) == RawBytes(r) + Bytes(more, suffix)
  {
    assert ([r] + more)[1..] == more;
  }

  lemma {:induction false} CanonAllCons(raws: seq<RawEntry>)
    requires raws != []
    ensures CanonAll(raws) == [CanonRaw(raws[0])] + CanonAll(raws[1..])
  {
  }

  lemma {:induction false} PrependOne(e: CpioEntry, es: seq<CpioEntry>, suffix: seq<Byte>)
    ensures Prepend([e], Ok(es, suffix)) == Ok([e] + es, suffix)
  {
  }

  lemma {:induction false} RawLayoutKept(raws: seq<RawEntry>, suffix: seq<Byte>)
    requires IsComplete(raws, suffix)
    ensures AllNumbered(raws)
    ensures var es := EntriesOf(raws);
      Parse(Bytes(raws, suffix)) == Ok(es, suffix) && Write(es, suffix) == Bytes(CanonAll(raws), suffix)
    decreases |raws|
  {
    CompleteIsNumbered(raws, suffix);
    if raws != [] {
      var r, more := raws[0], raws[1..];
      RawEntryParses(r, Bytes(more, suffix));
      EntriesOfCons(raws);
      RawEntryRewritten(r);
      CanonAllCons(raws);
      BytesCons(CanonRaw(r), CanonAll(more), suffix);
      var es := EntriesOf(more);
      if r.name == TRAILER {
        assert more == [];
      } else {
        RawLayoutKept(more, suffix);
      }
      PrependOne(EntryOf(r), es, suffix);
      WriteCons(EntryOf(r), es, suffix);
    }
  }

  // ----- archives as bytes -----

  /** Where the parts behind the header of an entry start: the name terminator, the
      padding, the data, the second padding and what follows the entry. */
  datatype Places = Places(end: nat, pad1: nat, data: nat, pad2: nat, rest: nat)

  predicate InOrder(p: Places) {
    HEADER_SIZE <= p.end < p.pad1 == p.end + 1 <= p.data <= p.pad2 <= p.rest
  }

  function PlacesOf(namesize: nat, filesize: nat): (p: Places)
    requires namesize > 0
    ensures InOrder(p)
  {
    var pad1 := HEADER_SIZE + namesize;
    var data := pad1 + Padding(pad1);
    var pad2 := data + filesize;
    Places(pad1 - 1, pad1, data, pad2, pad2 + Padding(filesize))
  }

  /** All reads of the first entry of `b` return as many bytes as they ask for, its fields
      are numbers, and its name is a text with a terminator. */
  predicate IsUncut(b: seq<Byte>) {
    && |b| >= HEADER_SIZE && Take(b[..HEADER_SIZE], 6) == MAGIC && HasNumbers(b[..HEADER_SIZE])
    && IsUncutBody(b, Numbers(b[..HEADER_SIZE]))
  }

  predicate IsUncutBody(b: seq<Byte>, n: seq<nat>)
    requires |n| == 12
  {
    && n[11] > 0 && PlacesOf(n[11], n[6]).rest <= |b|
    && IsUtf8(b[HEADER_SIZE..PlacesOf(n[11], n[6]).end])
  }

  function FirstPlaces(b: seq<Byte>): (p: Places)
    requires IsUncut(b)
    ensures InOrder(p) && p.rest <= |b|
  {
    var n := Numbers(b[..HEADER_SIZE]);
    PlacesOf(n[11], n[6])
  }

  function RawAt(b: seq<Byte>, p: Places): RawEntry
    requires InOrder(p) && p.rest <= |b|
  {
    RawEntry(b[..HEADER_SIZE], b[HEADER_SIZE..p.end], b[p.end],
             b[p.pad1..p.data], b[p.data..p.pad2], b[p.pad2..p.rest])
  }

  function FirstRaw(b: seq<Byte>): RawEntry
    requires IsUncut(b)
  {
    RawAt(b, FirstPlaces(b))
  }

  function Behind(b: seq<Byte>): (rest: seq<Byte>)
    requires IsUncut(b)
    ensures |rest| < |b|
  {
    b[FirstPlaces(b).rest..]
  }

  /** No read of the archive is cut short, up to its trailer or its end. */
  predicate IsCompleteArchive(b: seq<Byte>)
    decreases |b|
  {
    b == [] || (IsUncut(b) && (FirstRaw(b).name == TRAILER || IsCompleteArchive(Behind(b))))
  }

  function RawsOf(b: seq<Byte>): seq<RawEntry>
    requires IsCompleteArchive(b)
    decreases |b|
  {
    if b == [] then []
    else if FirstRaw(b).name == TRAILER then [FirstRaw(b)]
    else [FirstRaw(b)] + RawsOf(Behind(b))
  }

  function SuffixOf(b: seq<Byte>): seq<Byte>
    requires IsCompleteArchive(b)
    decreases |b|
  {
    if b == [] then []
    else if FirstRaw(b).name == TRAILER then Behind(b)
    else SuffixOf(Behind(b))
  }

  lemma {:induction false} RawAtBytes(b: seq<Byte>, p: Places)
    requires InOrder(p) && p.rest <= |b|
    ensures b == RawBytes(RawAt(b, p)) + b[p.rest..]
  {
  }

  lemma {:induction false} FirstRawWhole(b: seq<Byte>)
    requires IsUncut(b)
    ensures IsWhole(FirstRaw(b)) && b == RawBytes(FirstRaw(b)) + Behind(b)
  {
    RawAtBytes(b, FirstPlaces(b));
  }

  lemma {:induction false} CompleteCons(r: RawEntry, more: seq<RawEntry>, suffix: seq<Byte>)
    requires IsWhole(r) && (if r.name == TRAILER then more == [] else IsComplete(more, suffix))
    ensures IsComplete([r] + more, suffix)
  {
    assert ([r] + more)[1..] == more;
  }

  /** Every complete archive is its raw entries and its suffix. */
  lemma {:induction false} TakenApart(b: seq<Byte>)
    requires IsCompleteArchive(b)
    ensures IsComplete(RawsOf(b), SuffixOf(b)) && b == Bytes(RawsOf(b), SuffixOf(b))
    decreases |b|
  {
    if b != [] {
      var r, rest := FirstRaw(b), Behind(b);
      FirstRawWhole(b);
      if r.name != TRAILER {
        TakenApart(rest);
        CompleteCons(r, RawsOf(rest), SuffixOf(rest));
        BytesCons(r, RawsOf(rest), SuffixOf(rest));
      } else {
        CompleteCons(r, [], rest);
        BytesCons(r, [], rest);
        assert [r] + [] == [r];
      }
    }
  }

  lemma {:induction false} RawBytesAt(r: RawEntry, p: Places, rest: seq<Byte>)
    requires InOrder(p) && |r.header| == HEADER_SIZE && p.end == HEADER_SIZE + |r.name|
    requires p.data == p.pad1 + |r.pad1| && p.pad2 == p.data + |r.data| && p.rest == p.pad2 + |r.pad2|
    ensures var b := RawBytes(r) + rest; p.rest <= |b| && RawAt(b, p) == r && b[p.rest..] == rest
    ensures var b := RawBytes(r) + rest; b[..HEADER_SIZE] == r.header && b[HEADER_SIZE..p.end] == r.name
  {
    var named := r.name + [r.end];
    Reassociate(r.header, named, r.pad1, r.data, r.pad2, rest);
    Parts(RawBytes(r) + rest, r.header, named, r.pad1, r.data, r.pad2, rest);
    NameAndEnd(RawBytes(r) + rest, HEADER_SIZE, r.name, r.end);
  }

  lemma {:induction false} Parts<T>(
      s: seq<T>, a: seq<T>, b: seq<T>, c: seq<T>, d: seq<T>, e: seq<T>, rest: seq<T>)
    requires s == a + (b + (c + (d + (e + rest))))
    ensures var i, j, k, l := |a| + |b|, |a| + |b| + |c|, |a| + |b| + |c| + |d|, |a| + |b| + |c| + |d| + |e|;
      && l <= |s| && s[..|a|] == a && s[|a|..i] == b && s[i..j] == c && s[j..k] == d && s[k..l] == e && s[l..] == rest
  {
    Peel(s, 0, a, b + (c + (d + (e + rest))));
    Peel(s, |a|, b, c + (d + (e + rest)));
    Peel(s, |a| + |b|, c, d + (e + rest));
    Peel(s, |a| + |b| + |c|, d, e + rest);
    Peel(s, |a| + |b| + |c| + |d|, e, rest);
  }

  /** The next part of `b`, from offset `o` on. */
  lemma {:induction false} Peel<T>(b: seq<T>, o: nat, first: seq<T>, rest: seq<T>)
    requires o <= |b| && b[o..] == first + rest
    ensures o + |first| <= |b| && b[o..o + |first|] == first && b[o + |first|..] == rest
  {
    assert b[o..][..|first|] == b[o..o + |first|] && b[o..][|first|..] == b[o + |first|..];
  }

  lemma {:induction false} NameAndEnd<T>(b: seq<T>, o: nat, name: seq<T>, end: T)
    requires o + |name| < |b| && b[o..o + |name| + 1] == name + [end]
    ensures b[o..o + |name|] == name && b[o + |name|] == end
  {
    assert b[o..o + |name| + 1][..|name|] == b[o..o + |name|];
    assert b[o..o + |name| + 1][|name|] == b[o + |name|];
  }

  lemma {:induction false} WholeIsFirst(r: RawEntry, rest: seq<Byte>)
    requires IsWhole(r)
    ensures var b := RawBytes(r) + rest; IsUncut(b) && FirstRaw(b) == r && Behind(b) == rest
  {
    var n := Numbers(r.header);
    RawBytesAt(r, PlacesOf(n[11], n[6]), rest);
  }

  /** And whole entries, the trailer nowhere but last, make a complete archive. */
  lemma {:induction false} PutTogether(raws: seq<RawEntry>, suffix: seq<Byte>)
    requires IsComplete(raws, suffix)
    ensures var b := Bytes(raws, suffix); IsCompleteArchive(b) && RawsOf(b) == raws && SuffixOf(b) == suffix
    decreases |raws|
  {
    if raws != [] {
      WholeIsFirst(raws[0], Bytes(raws[1..], suffix));
      HeadAndTail(raws);
      if raws[0].name != TRAILER {
        PutTogether(raws[1..], suffix);
      }
    }
  }

  /** Parsing a complete archive and writing it back gives the canonical archive. */
  lemma {:induction false} LayoutKept(b: seq<Byte>)
    requires IsCompleteArchive(b)
    ensures var raws, suffix := RawsOf(b), SuffixOf(b);
      && IsComplete(raws, suffix) && b == Bytes(raws, suffix) && AllNumbered(raws)
      && Parse(b) == Ok(EntriesOf(raws), suffix)
      && Write(EntriesOf(raws), suffix) == Bytes(CanonAll(raws), suffix)
  {
    TakenApart(b);
    RawLayoutKept(RawsOf(b), SuffixOf(b));
  }

  /** What parse-then-write makes of `b`. */
  function Rewritten(b: seq<Byte>): seq<Byte>
    requires Parse(b).Ok?
  {
    Write(Parse(b).entries, Parse(b).suffix)
  }

  /** Where an entry, its data and the suffix start: offset `k` entries into an archive. */
  function OffsetOf(raws: seq<RawEntry>, k: nat): nat
    requires k <= |raws|
  {
    if k == 0 then 0 else OffsetOf(raws, k - 1) + |RawBytes(raws[k - 1])|
  }

  function DataOffsetOf(raws: seq<RawEntry>, k: nat): nat
    requires k < |raws|
  {
    OffsetOf(raws, k) + |raws[k].header| + |raws[k].name| + 1 + |raws[k].pad1|
  }

  lemma {:induction false} BytesFrom(raws: seq<RawEntry>, suffix: seq<Byte>, k: nat)
    requires k < |raws|
    ensures Bytes(raws[k..], suffix) == RawBytes(raws[k]) + Bytes(raws[k + 1..], suffix)
  {
    assert raws[k..][1..] == raws[k + 1..];
  }

  /** The bytes from offset `k` entries on are the entries from `k` on. */
  lemma {:induction false} StandsAt(raws: seq<RawEntry>, suffix: seq<Byte>, k: nat)
    requires k <= |raws|
    ensures var o := OffsetOf(raws, k);
      o <= |Bytes(raws, suffix)| && Bytes(raws, suffix)[o..] == Bytes(raws[k..], suffix)
  {
    if k > 0 {
      StandsAt(raws, suffix, k - 1);
      BytesFrom(raws, suffix, k - 1);
      Peel(Bytes(raws, suffix), OffsetOf(raws, k - 1), RawBytes(raws[k - 1]), Bytes(raws[k..], suffix));
    } else {
      assert raws[0..] == raws;
    }
  }

  lemma {:induction false} DataInRaw(r: RawEntry, rest: seq<Byte>)
    ensures var d := |r.header| + |r.name| + 1 + |r.pad1|;
      d + |r.data| <= |RawBytes(r) + rest| && (RawBytes(r) + rest)[d..d + |r.data|] == r.data
  {
  }

  /** `data` stand in `b` at offset `d`. */
  predicate StandsIn(b: seq<Byte>, d: nat, data: seq<Byte>) {
    d + |data| <= |b| && b[d..d + |data|] == data
  }

  /** The data of entry `k` stand at their offset. */
  lemma {:induction false} DataStandsAt(raws: seq<RawEntry>, suffix: seq<Byte>, k: nat)
    requires k < |raws|
    ensures StandsIn(Bytes(raws, suffix), DataOffsetOf(raws, k), raws[k].data)
  {
    StandsAt(raws, suffix, k);
    BytesFrom(raws, suffix, k);
    DataInRaw(raws[k], Bytes(raws[k + 1..], suffix));
    var o := OffsetOf(raws, k);
    SliceBehind(Bytes(raws, suffix), o, DataOffsetOf(raws, k) - o, |raws[k].data|);
  }

  lemma {:induction false} SliceBehind<T>(b: seq<T>, o: nat, from: nat, n: nat)
    requires o + from + n <= |b|
    ensures b[o..][from..from + n] == b[o + from..o + from + n]
  {
  }

  lemma {:induction false} CanonOffsets(raws: seq<RawEntry>, k: nat)
    requires k <= |raws|
    ensures OffsetOf(CanonAll(raws), k) == OffsetOf(raws, k)
    ensures k < |raws| ==> DataOffsetOf(CanonAll(raws), k) == DataOffsetOf(raws, k)
  {
    if k > 0 {
      CanonOffsets(raws, k - 1);
    }
  }

  lemma {:induction false} PaddedAligned(r: RawEntry)
    requires IsPadded(r)
    ensures |RawBytes(r)| % 4 == 0 && (|r.header| + |r.name| + 1 + |r.pad1|) % 4 == 0
  {
    var named := HEADER_SIZE + |r.name| + 1;
    assert |RawBytes(r)| == (named + Padding(named)) + (|r.data| + Padding(|r.data|));
    SumAligned(named + Padding(named), |r.data| + Padding(|r.data|));
  }

  lemma {:induction false} SumAligned(a: nat, b: nat)
    requires a % 4 == 0 && b % 4 == 0
    ensures (a + b) % 4 == 0
  {
  }

  lemma {:induction false} PaddedOffsets(raws: seq<RawEntry>, k: nat)
    requires k <= |raws| && forall i {:trigger IsPadded(raws[i])} :: 0 <= i < |raws| ==> IsPadded(raws[i])
    ensures OffsetOf(raws, k) % 4 == 0
    ensures k < |raws| ==> DataOffsetOf(raws, k) % 4 == 0
    decreases k
  {
    if k > 0 {
      PaddedOffsets(raws, k - 1);
      assert IsPadded(raws[k - 1]);
      PaddedAligned(raws[k - 1]);
      SumAligned(OffsetOf(raws, k - 1), |RawBytes(raws[k - 1])|);
    }
    if k < |raws| {
      var r := raws[k];
      assert IsPadded(r);
      PaddedAligned(r);
      SumAligned(OffsetOf(raws, k), |r.header| + |r.name| + 1 + |r.pad1|);
    }
  }

  /** Parse-then-write leaves every entry and the suffix where they stood: at the offset of
      raw entry `k` in `b`, its canonical form stands in what is written. */
  lemma {:induction false} OffsetsKept(b: seq<Byte>, k: nat)
    requires IsCompleteArchive(b) && k <= |RawsOf(b)|
    ensures Parse(b).Ok?
    ensures var raws, suffix, o := RawsOf(b), SuffixOf(b), OffsetOf(RawsOf(b), k);
      && o <= |b| && o <= |Rewritten(b)|
      && b[o..] == Bytes(raws[k..], suffix)
      && Rewritten(b)[o..] == Bytes(CanonAll(raws)[k..], suffix)
  {
    LayoutKept(b);
    StandsAt(RawsOf(b), SuffixOf(b), k);
    StandsAt(CanonAll(RawsOf(b)), SuffixOf(b), k);
    CanonOffsets(RawsOf(b), k);
  }

  lemma {:induction false} RawDataKept(raws: seq<RawEntry>, suffix: seq<Byte>, k: nat)
    requires AllNumbered(raws) && k < |raws|
    ensures var d, data := DataOffsetOf(raws, k), EntriesOf(raws)[k].data;
      StandsIn(Bytes(raws, suffix), d, data) && StandsIn(Bytes(CanonAll(raws), suffix), d, data)
  {
    DataStandsAt(raws, suffix, k);
    DataStandsAt(CanonAll(raws), suffix, k);
    CanonOffsets(raws, k);
  }

  /** And the data of every entry, unchanged. */
  lemma {:induction false} DataKept(b: seq<Byte>, k: nat)
    requires IsCompleteArchive(b) && k < |RawsOf(b)|
    ensures Parse(b).Ok? && k < |Parse(b).entries|
    ensures var d, data := DataOffsetOf(RawsOf(b), k), Parse(b).entries[k].data;
      StandsIn(b, d, data) && StandsIn(Rewritten(b), d, data)
  {
    LayoutKept(b);
    RawDataKept(RawsOf(b), SuffixOf(b), k);
  }

  /** In a complete archive every entry, all data, and the suffix start at a multiple of 4. */
  lemma {:induction false} OffsetsAligned(b: seq<Byte>, k: nat)
    requires IsCompleteArchive(b) && k <= |RawsOf(b)|
    ensures OffsetOf(RawsOf(b), k) % 4 == 0
    ensures k < |RawsOf(b)| ==> DataOffsetOf(RawsOf(b), k) % 4 == 0
  {
    TakenApart(b);
    forall i | 0 <= i < |RawsOf(b)| ensures IsPadded(RawsOf(b)[i]) {
      CompleteIsWhole(RawsOf(b), SuffixOf(b), i);
    }
    PaddedOffsets(RawsOf(b), k);
  }

  lemma {:induction false} LengthKept(b: seq<Byte>)
    requires IsCompleteArchive(b)
    ensures Parse(b).Ok? && |Rewritten(b)| == |b| && Parse(b).suffix == SuffixOf(b)
  {
    LayoutKept(b);
    RawLengthKept(RawsOf(b), SuffixOf(b));
  }

  lemma {:induction false} RawLengthKept(raws: seq<RawEntry>, suffix: seq<Byte>)
    ensures |Bytes(CanonAll(raws), suffix)| == |Bytes(raws, suffix)|
    decreases |raws|
  {
    if raws != [] {
      RawLengthKept(raws[1..], suffix);
      CanonAllCons(raws);
      BytesCons(CanonRaw(raws[0]), CanonAll(raws[1..]), suffix);
    }
  }
}
