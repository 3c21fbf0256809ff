/** The newc cpio format as pure functions: what `write_newc_archive` emits and what
    `parse_newc_archive` accepts, with Python's clipping reads and slices. */
module Newc {
  import opened Hex

  /** `name` is the UTF-8 encoding of the entry's name. */
  datatype CpioEntry = CpioEntry(
    name: seq<Byte>, mode: nat, uid: nat, gid: nat, nlink: nat, mtime: nat,
    devmajor: nat, devminor: nat, rdevmajor: nat, rdevminor: nat, data: seq<Byte>)

  datatype Error = BadMagic | BadNumber | BadName

  datatype Archive = Ok(entries: seq<CpioEntry>, suffix: seq<Byte>) | Err(error: Error)

  const MAGIC: seq<Byte> := [0x30, 0x37, 0x30, 0x37, 0x30, 0x31]  // 070701
  const TRAILER: seq<Byte> := [0x54, 0x52, 0x41, 0x49, 0x4C, 0x45, 0x52, 0x21, 0x21, 0x21]  // TRAILER!!!
  const HEADER_SIZE: nat := 110

  // ----- UTF-8 (RFC 3629, section 4) -----

  predicate IsTail(b: Byte) { 0x80 <= b <= 0xBF }

  /** The length of the well-formed character that `s` starts with, or 0. */
  function CharLength(s: seq<Byte>): (n: nat)
    ensures n <= |s| && n <= 4
  {
    if s == [] then 0
    else if s[0] <= 0x7F then 1
    else if |s| >= 2 && 0xC2 <= s[0] <= 0xDF && IsTail(s[1]) then 2
    else if |s| >= 3 && IsTail(s[1]) && IsTail(s[2])
      && ((s[0] == 0xE0 && s[1] >= 0xA0) || 0xE1 <= s[0] <= 0xEC
          || (s[0] == 0xED && s[1] <= 0x9F) || 0xEE <= s[0] <= 0xEF)
    then 3
    else if |s| >= 4 && IsTail(s[1]) && IsTail(s[2]) && IsTail(s[3])
      && ((s[0] == 0xF0 && s[1] >= 0x90) || 0xF1 <= s[0] <= 0xF3 || (s[0] == 0xF4 && s[1] <= 0x8F))
    then 4
    else 0
  }

  predicate IsUtf8(s: seq<Byte>) {
    s == [] || (CharLength(s) > 0 && IsUtf8(s[CharLength(s)..]))
  }

  // ----- writing -----

  /** The zero bytes after `n` bytes, up to the next multiple of 4. */
  function Padding(n: nat): (p: nat)
    ensures p < 4 && (n + p) % 4 == 0
  {
    (4 - n % 4) % 4
  }

  function Zeros(n: nat): (s: seq<Byte>)
    ensures |s| == n
  {
    seq(n, _ => 0)
  }

  /** The thirteen numbers of a header, in order. */
  function Fields(e: CpioEntry): (f: seq<nat>)
    ensures |f| == 13
  {
    [0, e.mode, e.uid, e.gid, e.nlink, e.mtime, |e.data|, e.devmajor, e.devminor, e.rdevmajor, e.rdevminor,
     |e.name| + 1, 0]
  }

  /** The numerals of `f` from index `k` on. */
  function Words(f: seq<nat>, k: nat): seq<Byte>
    decreases |f| - k
  {
    if k >= |f| then [] else Padded(f[k], 8) + Words(f, k + 1)
  }

  function Header(e: CpioEntry): seq<Byte> {
    MAGIC + Words(Fields(e), 0)
  }

  function WriteEntry(e: CpioEntry): seq<Byte> {
    Header(e) + (e.name + [0]) + Zeros(Padding(HEADER_SIZE + |e.name| + 1)) + e.data + Zeros(Padding(|e.data|))
  }

  function Write(entries: seq<CpioEntry>, suffix: seq<Byte>): seq<Byte>
    decreases |entries|
  {
    if entries == [] then suffix else WriteEntry(entries[0]) + Write(entries[1..], suffix)
  }

  // ----- parsing -----

  function Take<T>(s: seq<T>, n: nat): (r: seq<T>)
    ensures |r| <= n && |r| <= |s|
  {
    if n <= |s| then s[..n] else s
  }

  function Drop<T>(s: seq<T>, n: nat): (r: seq<T>)
    ensures |r| == if n <= |s| then |s| - n else 0
    decreases |s|
  {
    if n == 0 || s == [] then s else Drop(s[1..], n - 1)
  }

  /** The digits of field `k`: a slice of the header that the read may have cut short. */
  function FieldText(header: seq<Byte>, k: nat): seq<Byte> {
    var from := 6 + 8 * k;
    var size := if |header| <= from then 0 else if |header| <= from + 8 then |header| - from else 8;
    seq(size, i requires 0 <= i < size => header[from + i])
  }

  predicate IsNumber(text: seq<Byte>) {
    text != [] && IsHex(text)
  }

  /** The parser reads the fields from mode to namesize, not inode and check. */
  predicate HasNumbers(header: seq<Byte>) {
    forall k :: 1 <= k <= 11 ==> IsNumber(FieldText(header, k))
  }

  /** The numbers read from a header, each at its field's index. */
  function Numbers(header: seq<Byte>): (n: seq<nat>)
    requires HasNumbers(header)
    ensures |n| == 12
  {
    [0] + NumbersFrom(header, 1)
  }

  function NumbersFrom(header: seq<Byte>, k: nat): (n: seq<nat>)
    requires HasNumbers(header) && 1 <= k <= 12
    ensures |n| == 12 - k
    decreases |header|, 12 - k
  {
    if k == 12 then [] else [Value(FieldText(header, k))] + NumbersFrom(header, k + 1)
  }

  lemma {:induction false} NumberFrom(header: seq<Byte>, j: nat, k: nat)
    requires HasNumbers(header) && 1 <= j <= k <= 11
    ensures NumbersFrom(header, j)[k - j] == Value(FieldText(header, k))
    decreases 12 - j
  {
    if j < k {
      NumberFrom(header, j + 1, k);
    }
  }

  lemma {:induction false} NumberAt(header: seq<Byte>, k: nat)
    requires HasNumbers(header) && 1 <= k <= 11
    ensures Numbers(header)[k] == Value(FieldText(header, k))
  {
    NumberFrom(header, 1, k);
  }

  /** `raw[:-1]`. */
  function DropLast<T>(raw: seq<T>): seq<T> {
    if raw == [] then [] else raw[..|raw| - 1]
  }

  datatype EntryRead = Entry(entry: CpioEntry, rest: seq<Byte>) | NoEntry(error: Error)

  function MakeEntry(n: seq<nat>, name: seq<Byte>, data: seq<Byte>): CpioEntry
    requires |n| == 12
  {
    CpioEntry(name, n[1], n[2], n[3], n[4], n[5], n[7], n[8], n[9], n[10], data)
  }

  /** What follows the header: name, padding, data, padding. */
  function ParseBody(n: seq<nat>, b: seq<Byte>): (r: EntryRead)
    requires |n| == 12
    ensures r.Entry? ==> |r.rest| <= |b|
  {
    var namesize, filesize := n[11], n[6];
    var name := DropLast(Take(b, namesize));
    var start := namesize + Padding(HEADER_SIZE + namesize);
    if !IsUtf8(name) then NoEntry(BadName)
    else Entry(MakeEntry(n, name, Take(Drop(b, start), filesize)), Drop(b, start + filesize + Padding(filesize)))
  }

  function ParseEntry(b: seq<Byte>): (r: EntryRead)
    ensures r.Entry? && b != [] ==> |r.rest| < |b|
  {
    var header := Take(b, HEADER_SIZE);
    if Take(header, 6) != MAGIC then NoEntry(BadMagic)
    else if !HasNumbers(header) then NoEntry(BadNumber)
    else ParseBody(Numbers(header), Drop(b, HEADER_SIZE))
  }

  /** `archive` with `entries` in front of its own. */
  function Prepend(entries: seq<CpioEntry>, archive: Archive): Archive {
    match archive
    case Ok(more, suffix) => Ok(entries + more, suffix)
    case Err(e) => Err(e)
  }

  function Parse(b: seq<Byte>): Archive
    decreases |b|
  {
    if b == [] then Ok([], [])
    else
      match ParseEntry(b)
      case NoEntry(e) => Err(e)
      case Entry(entry, rest) =>
        if entry.name == TRAILER then Ok([entry], rest) else Prepend([entry], Parse(rest))
  }

  // ----- round trip -----

  /** Every number of the header has a place of eight digits, and the name is a text. */
  predicate Fits(e: CpioEntry) {
    && IsUtf8(e.name) && |e.name| + 1 < FIELD_LIMIT && |e.data| < FIELD_LIMIT
    && e.mode < FIELD_LIMIT && e.uid < FIELD_LIMIT && e.gid < FIELD_LIMIT && e.nlink < FIELD_LIMIT
    && e.mtime < FIELD_LIMIT && e.devmajor < FIELD_LIMIT && e.devminor < FIELD_LIMIT
    && e.rdevmajor < FIELD_LIMIT && e.rdevminor < FIELD_LIMIT
  }

  /** The archives that survive: entries that fit, up to a trailer, which must be the
      last; without a trailer there can be no suffix. */
  predicate Writable(entries: seq<CpioEntry>, suffix: seq<Byte>)
    decreases |entries|
  {
    if entries == [] then suffix == []
    else Fits(entries[0]) && (if entries[0].name == TRAILER then |entries| == 1 else Writable(entries[1..], suffix))
  }

  ghost predicate AllFit(entries: seq<CpioEntry>) {
    forall i :: 0 <= i < |entries| ==> Fits(entries[i])
  }

  /** The trailer is nowhere but last, and only a trailer has bytes behind it. */
  ghost predicate TrailerEnds(entries: seq<CpioEntry>, suffix: seq<Byte>) {
    && (forall i :: 0 <= i < |entries| - 1 ==> entries[i].name != TRAILER)
    && (suffix != [] ==> entries != [] && entries[|entries| - 1].name == TRAILER)
  }

  lemma {:induction false} AllFitSplit(entries: seq<CpioEntry>)
    requires entries != []
    ensures AllFit(entries) <==> Fits(entries[0]) && AllFit(entries[1..])
  {
    var more := entries[1..];
    if Fits(entries[0]) && AllFit(more) {
      forall i | 0 <= i < |entries| ensures Fits(entries[i]) {
        assert i > 0 ==> entries[i] == more[i - 1];
      }
    }
  }

  lemma {:induction false} TrailerEndsSplit(entries: seq<CpioEntry>, suffix: seq<Byte>)
    requires |entries| > 1
    ensures TrailerEnds(entries, suffix) <==> entries[0].name != TRAILER && TrailerEnds(entries[1..], suffix)
  {
    var more := entries[1..];
    assert forall i :: 0 <= i < |more| ==> more[i] == entries[i + 1];
    assert forall i :: 0 < i < |entries| ==> entries[i] == more[i - 1];
  }

  lemma {:induction false} WritableMeans(entries: seq<CpioEntry>, suffix: seq<Byte>)
    ensures Writable(entries, suffix) <==> AllFit(entries) && TrailerEnds(entries, suffix)
    decreases |entries|
  {
    if entries != [] {
      AllFitSplit(entries);
      if |entries| > 1 {
        TrailerEndsSplit(entries, suffix);
      }
      WritableMeans(entries[1..], suffix);
    }
  }

  lemma {:induction false} WordAt(f: seq<nat>, from: nat, k: nat)
    requires forall j :: 0 <= j < |f| ==> f[j] < FIELD_LIMIT
    requires from <= k < |f|
    ensures var w := Words(f, from);
      |w| == 8 * (|f| - from) && w[8 * (k - from)..8 * (k - from) + 8] == Fixed(f[k], 8)
    decreases |f| - from
  {
    EightDigits();
    PaddedFits(f[from], 8);
    var w, p, more := Words(f, from), Padded(f[from], 8), Words(f, from + 1);
    if from + 1 == |f| {
      assert more == [] && w[0..8] == p;
    } else if from == k {
      WordAt(f, from + 1, k + 1);
      assert w[0..8] == p;
    } else {
      WordAt(f, from + 1, k);
      assert w[8 * (k - from)..8 * (k - from) + 8] == more[8 * (k - from - 1)..8 * (k - from - 1) + 8];
    }
  }

  lemma {:induction false} FieldOfHeader(words: seq<Byte>, k: nat)
    requires 8 * k + 8 <= |words|
    ensures FieldText(MAGIC + words, k) == words[8 * k..8 * k + 8]
  {
    var t := FieldText(MAGIC + words, k);
    assert |t| == 8;
    assert forall i :: 0 <= i < 8 ==> t[i] == words[8 * k..8 * k + 8][i];
  }

  lemma {:induction false} HeaderField(e: CpioEntry, k: nat)
    requires Fits(e) && k < 13
    ensures |Header(e)| == HEADER_SIZE
    ensures FieldText(Header(e), k) == Fixed(Fields(e)[k], 8)
    ensures IsNumber(FieldText(Header(e), k)) && Value(FieldText(Header(e), k)) == Fields(e)[k]
  {
    WordAt(Fields(e), 0, k);
    EightDigits();
    FixedValue(Fields(e)[k], 8);
    FieldOfHeader(Words(Fields(e), 0), k);
  }

  lemma {:induction false} TakeDrop<T>(a: seq<T>, b: seq<T>)
    ensures Take(a + b, |a|) == a && Drop(a + b, |a|) == b
  {
    DropIs(a + b, |a|);
  }

  lemma {:induction false} DropIs<T>(s: seq<T>, n: nat)
    ensures Drop(s, n) == if n <= |s| then s[n..] else []
    decreases |s|
  {
    if n > 0 && s != [] {
      DropIs(s[1..], n - 1);
      assert n <= |s| ==> s[1..][n - 1..] == s[n..];
    }
  }

  lemma {:induction false} DropTwice<T>(b: seq<T>, n: nat, m: nat)
    ensures Drop(Drop(b, n), m) == Drop(b, n + m)
    decreases |b|
  {
    if n > 0 && b != [] {
      DropTwice(b[1..], n - 1, m);
    }
  }

  lemma {:induction false} MagicFirst(words: seq<Byte>)
    ensures Take(MAGIC + words, 6) == MAGIC
  {
  }

  lemma {:induction false} HeaderRead(e: CpioEntry)
    requires Fits(e)
    ensures var h := Header(e);
      && |h| == HEADER_SIZE && Take(h, 6) == MAGIC && HasNumbers(h)
      && forall k :: 1 <= k <= 11 ==> Numbers(h)[k] == Fields(e)[k]
  {
    var h := Header(e);
    MagicFirst(Words(Fields(e), 0));
    HeaderField(e, 0);
    forall k | 1 <= k <= 11 ensures IsNumber(FieldText(h, k)) {
      HeaderField(e, k);
    }
    forall k | 1 <= k <= 11 ensures Numbers(h)[k] == Fields(e)[k] {
      HeaderField(e, k);
      NumberAt(h, k);
    }
  }

  lemma {:induction false} NumbersMakeEntry(n: seq<nat>, e: CpioEntry)
    requires |n| == 12 && forall k :: 1 <= k <= 11 ==> n[k] == Fields(e)[k]
    ensures n[11] == |e.name| + 1 && n[6] == |e.data| && MakeEntry(n, e.name, e.data) == e
  {
  }

  lemma {:induction false} BodyPieces<T>(raw: seq<T>, pad1: seq<T>, data: seq<T>, pad2: seq<T>, rest: seq<T>)
    ensures var body := raw + (pad1 + (data + (pad2 + rest)));
      && Take(body, |raw|) == raw && Take(Drop(body, |raw| + |pad1|), |data|) == data
      && Drop(body, |raw| + |pad1| + |data| + |pad2|) == rest
  {
    var atData := data + (pad2 + rest);
    var body := raw + (pad1 + atData);
    TakeDrop(raw, pad1 + atData);
    TakeDrop(pad1, atData);
    TakeDrop(data, pad2 + rest);
    TakeDrop(pad2, rest);
    DropTwice(body, |raw|, |pad1|);
    DropTwice(body, |raw| + |pad1|, |data|);
    DropTwice(body, |raw| + |pad1| + |data|, |pad2|);
  }

  lemma {:induction false} BodyIs(n: seq<nat>, body: seq<Byte>, raw: seq<Byte>, data: seq<Byte>, rest: seq<Byte>)
    requires |n| == 12 && raw == Take(body, n[11])
    requires var start := n[11] + Padding(HEADER_SIZE + n[11]);
      data == Take(Drop(body, start), n[6]) && rest == Drop(body, start + n[6] + Padding(n[6]))
    ensures ParseBody(n, body) ==
      if IsUtf8(DropLast(raw))
      then Entry(CpioEntry(DropLast(raw), n[1], n[2], n[3], n[4], n[5], n[7], n[8], n[9], n[10], data), rest)
      else NoEntry(BadName)
  {
  }

  /** The body of an uncut entry, whatever its name terminator and padding bytes are. */
  lemma {:induction false} BodyRead(
      n: seq<nat>, name: seq<Byte>, end: Byte, pad1: seq<Byte>, data: seq<Byte>, pad2: seq<Byte>, rest: seq<Byte>)
    requires |n| == 12 && n[11] == |name| + 1 && n[6] == |data| && IsUtf8(name)
    requires |pad1| == Padding(HEADER_SIZE + |name| + 1) && |pad2| == Padding(|data|)
    ensures ParseBody(n, (name + [end]) + (pad1 + (data + (pad2 + rest)))) == Entry(MakeEntry(n, name, data), rest)
  {
    var raw := name + [end];
    BodyPieces(raw, pad1, data, pad2, rest);
    assert DropLast(raw) == name;
    BodyIs(n, raw + (pad1 + (data + (pad2 + rest))), raw, data, rest);
  }

  lemma {:induction false} Reassociate<T>(a: seq<T>, b: seq<T>, c: seq<T>, d: seq<T>, e: seq<T>, f: seq<T>)
    ensures a + b + c + d + e + f == a + (b + (c + (d + (e + f))))
  {
  }

  lemma {:induction false} EntryRoundTrip(e: CpioEntry, rest: seq<Byte>)
    requires Fits(e)
    ensures ParseEntry(WriteEntry(e) + rest) == Entry(e, rest)
  {
    var h := Header(e);
    var z1, z2 := Zeros(Padding(HEADER_SIZE + |e.name| + 1)), Zeros(Padding(|e.data|));
    Reassociate(h, e.name + [0], z1, e.data, z2, rest);
    HeaderRead(e);
    TakeDrop(h, (e.name + [0]) + (z1 + (e.data + (z2 + rest))));
    NumbersMakeEntry(Numbers(h), e);
    BodyRead(Numbers(h), e.name, 0, z1, e.data, z2, rest);
  }

  lemma {:induction false} ParseWritten(e: CpioEntry, rest: seq<Byte>)
    requires Fits(e)
    ensures Parse(WriteEntry(e) + rest) == (if e.name == TRAILER then Ok([e], rest) else Prepend([e], Parse(rest)))
  {
    EntryRoundTrip(e, rest);
    HeaderRead(e);
  }

  lemma {:induction false} HeadAndTail<T>(s: seq<T>)
    requires s != []
    ensures [s[0]] + s[1..] == s
  {
  }

  lemma {:induction false} WriteCons(e: CpioEntry, more: seq<CpioEntry>, suffix: seq<Byte>)
    ensures Write([e] + more, suffix) == WriteEntry(e) + Write(more, suffix)
    ensures Writable([e] + more, suffix) <==>
      Fits(e) && (if e.name == TRAILER then more == [] else Writable(more, suffix))
  {
    assert ([e] + more)[1..] == more;
  }

  lemma {:induction false} RoundTripCons(e: CpioEntry, more: seq<CpioEntry>, suffix: seq<Byte>)
    requires Writable([e] + more, suffix)
    requires e.name != TRAILER ==> Parse(Write(more, suffix)) == Ok(more, suffix)
    ensures Parse(Write([e] + more, suffix)) == Ok([e] + more, suffix)
  {
    WriteCons(e, more, suffix);
    ParseWritten(e, Write(more, suffix));
    if e.name == TRAILER {
      assert [e] + more == [e];
    }
  }

  lemma {:induction false} RoundTrip(entries: seq<CpioEntry>, suffix: seq<Byte>)
    requires Writable(entries, suffix)
    ensures Parse(Write(entries, suffix)) == Ok(entries, suffix)
    decreases |entries|
  {
    if entries != [] {
      var e, more := entries[0], entries[1..];
      if e.name != TRAILER {
        RoundTrip(more, suffix);
      }
      HeadAndTail(entries);
      RoundTripCons(e, more, suffix);
    }
  }

  lemma {:induction false} NumberFits(header: seq<Byte>, k: nat)
    requires HasNumbers(header) && 1 <= k <= 11
    ensures Numbers(header)[k] < FIELD_LIMIT
  {
    var t := FieldText(header, k);
    NumberAt(header, k);
    ValueBound(t);
    EightDigits();
    Power16Monotone(|t|, 8);
  }

  lemma {:induction false} Power16Monotone(m: nat, n: nat)
    requires m <= n
    ensures Power16(m) <= Power16(n)
  {
    if m < n {
      Power16Monotone(m, n - 1);
    }
  }

  lemma {:induction false} ParsedEntryFits(b: seq<Byte>)
    requires ParseEntry(b).Entry?
    ensures Fits(ParseEntry(b).entry)
  {
    var h := Take(b, HEADER_SIZE);
    forall k | 1 <= k <= 11 ensures Numbers(h)[k] < FIELD_LIMIT {
      NumberFits(h, k);
    }
  }

  /** Whatever the parser accepts, it returns entries and a suffix that survive. */
  lemma {:induction false} ParsedIsWritable(b: seq<Byte>)
    requires Parse(b).Ok?
    ensures Writable(Parse(b).entries, Parse(b).suffix)
    decreases |b|
  {
    if b != [] {
      ParsedEntryFits(b);
      var e, rest := ParseEntry(b).entry, ParseEntry(b).rest;
      if e.name == TRAILER {
        assert Parse(b) == Ok([e], rest);
      } else {
        assert Parse(b) == Prepend([e], Parse(rest));
        ParsedIsWritable(rest);
        assert ([e] + Parse(rest).entries)[1..] == Parse(rest).entries;
      }
    }
  }

  /** Write-then-parse is the identity on exactly the writable archives. */
  lemma {:induction false} RoundTripExactly(entries: seq<CpioEntry>, suffix: seq<Byte>)
    ensures Parse(Write(entries, suffix)) == Ok(entries, suffix) <==> Writable(entries, suffix)
  {
    if Writable(entries, suffix) {
      RoundTrip(entries, suffix);
    } else if Parse(Write(entries, suffix)) == Ok(entries, suffix) {
      ParsedIsWritable(Write(entries, suffix));
    }
  }

  /** Parse-then-write, on any bytes the parser accepts, short reads included, gives
      bytes with the same meaning; doing it again changes no byte. */
  lemma {:induction false} NormalForm(b: seq<Byte>)
    requires Parse(b).Ok?
    ensures var n := Write(Parse(b).entries, Parse(b).suffix);
      Parse(n) == Parse(b) && Write(Parse(n).entries, Parse(n).suffix) == n
  {
    ParsedIsWritable(b);
    RoundTrip(Parse(b).entries, Parse(b).suffix);
  }
}
