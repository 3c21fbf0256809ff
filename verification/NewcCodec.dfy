/** `parse_newc_archive` and `write_newc_archive` as loops over a stream. */
module NewcCodec {
  import opened Hex
  import opened Newc

  /** A file opened for reading, by the bytes not read yet: `read(n)` returns what is
      left when that is less than `n`. */
  class Stream {
    var unread: seq<Byte>

    constructor (data: seq<Byte>)
      ensures unread == data
    {
      unread := data;
    }

    method Read(n: nat) returns (chunk: seq<Byte>)
      modifies this
      ensures chunk == Take(old(unread), n) && unread == Drop(old(unread), n)
    {
      chunk, unread := Take(unread, n), Drop(unread, n);
    }

    method ReadAll() returns (chunk: seq<Byte>)
      modifies this
      ensures chunk == old(unread) && unread == []
    {
      chunk, unread := unread, [];
    }
  }

  lemma {:induction false} PrependNothing(entries: seq<CpioEntry>, suffix: seq<Byte>)
    ensures Prepend(entries, Ok([], suffix)) == Ok(entries, suffix)
  {
  }

  lemma {:induction false} NothingPrepended(archive: Archive)
    ensures Prepend([], archive) == archive
  {
    if archive.Ok? {
      assert [] + archive.entries == archive.entries;
    }
  }

  lemma {:induction false} ParseStep(b: seq<Byte>, read: EntryRead)
    requires b != [] && ParseEntry(b) == read
    ensures Parse(b) ==
      match read
      case NoEntry(e) => Err(e)
      case Entry(entry, rest) => if entry.name == TRAILER then Ok([entry], rest) else Prepend([entry], Parse(rest))
  {
  }

  lemma {:induction false} PrependAppend(entries: seq<CpioEntry>, entry: CpioEntry, archive: Archive)
    ensures Prepend(entries, Prepend([entry], archive)) == Prepend(entries + [entry], archive)
  {
    if archive.Ok? {
      assert entries + ([entry] + archive.entries) == entries + [entry] + archive.entries;
    }
  }

  /** A file opened for writing. */
  class Sink {
    var written: seq<Byte>

    constructor ()
      ensures written == []
    {
      written := [];
    }

    method Write(chunk: seq<Byte>)
      modifies this
      ensures written == old(written) + chunk
    {
      written := written + chunk;
    }
  }

  /** One read after the other, by offsets from the first. */
  lemma {:induction false} ReadsJoin(b: seq<Byte>, n: nat, m: nat, k: nat, l: nat)
    ensures Drop(Drop(b, n), m) == Drop(b, n + m)
    ensures Drop(Drop(Drop(b, n + m), k), l) == Drop(b, n + m + k + l)
  {
    DropTwice(b, n, m);
    DropTwice(b, n + m, k);
    DropTwice(b, n + m + k, l);
  }

  /** The padding behind `n` bytes is read if there is any. */
  method SkipPadding(stream: Stream, n: nat)
    modifies stream
    ensures stream.unread == Drop(old(stream.unread), Padding(n))
  {
    var padding := Padding(n);
    if padding != 0 {
      var _ := stream.Read(padding);
    }
  }

  /** What the parser's loop does behind the numbers of a header. */
  method ReadBody(n: seq<nat>, stream: Stream) returns (read: EntryRead)
    requires |n| == 12
    modifies stream
    ensures read == ParseBody(n, old(stream.unread))
    ensures read.Entry? ==> read.rest == stream.unread
  {
    var namesize, filesize := n[11], n[6];
    ReadsJoin(stream.unread, namesize, Padding(HEADER_SIZE + namesize), filesize, Padding(filesize));
    var rawName := stream.Read(namesize);
    SkipPadding(stream, HEADER_SIZE + namesize);
    var name := DropLast(rawName);
    if !IsUtf8(name) {
      return NoEntry(BadName);
    }
    var data := stream.Read(filesize);
    SkipPadding(stream, filesize);
    BodyIs(n, old(stream.unread), rawName, data, stream.unread);
    read := Entry(MakeEntry(n, name, data), stream.unread);
  }

  method ParseNewcArchive(stream: Stream) returns (archive: Archive)
    modifies stream
    ensures archive == Parse(old(stream.unread))
  {
    var entries: seq<CpioEntry> := [];
    ghost var b := stream.unread;
    NothingPrepended(Parse(b));
    while true
      invariant b == stream.unread && Parse(old(stream.unread)) == Prepend(entries, Parse(b))
      decreases |b|
    {
      var header := stream.Read(HEADER_SIZE);
      if header == [] {
        PrependNothing(entries, []);
        break;
      }
      if Take(header, 6) != MAGIC {
        ParseStep(b, NoEntry(BadMagic));
        return Err(BadMagic);
      }
      if !HasNumbers(header) {
        ParseStep(b, NoEntry(BadNumber));
        return Err(BadNumber);
      }
      var read := ReadBody(Numbers(header), stream);
      ParseStep(b, read);
      if read.NoEntry? {
        return Err(read.error);
      }
      PrependAppend(entries, read.entry, Ok([], read.rest));
      PrependAppend(entries, read.entry, Parse(read.rest));
      entries := entries + [read.entry];
      PrependNothing(entries, read.rest);
      b := stream.unread;
      if read.entry.name == TRAILER {
        break;
      }
    }
    var trailingData := stream.ReadAll();
    archive := Ok(entries, trailingData);
  }

  lemma {:induction false} WriteFrom(entries: seq<CpioEntry>, i: nat, suffix: seq<Byte>)
    requires i < |entries|
    ensures Write(entries[i..], suffix) == WriteEntry(entries[i]) + Write(entries[i + 1..], suffix)
  {
    assert entries[i..][1..] == entries[i + 1..];
  }

  lemma {:induction false} Associate<T>(a: seq<T>, b: seq<T>, c: seq<T>)
    ensures a + (b + c) == a + b + c
  {
  }

  method WriteCpioEntry(entry: CpioEntry, sink: Sink)
    modifies sink
    ensures sink.written == old(sink.written) + WriteEntry(entry)
  {
    var namesize := |entry.name| + 1;
    sink.Write(Header(entry));
    sink.Write(entry.name + [0]);
    sink.Write(Zeros(Padding(HEADER_SIZE + namesize)));
    sink.Write(entry.data);
    sink.Write(Zeros(Padding(|entry.data|)));
    Reassociate(old(sink.written), Header(entry), entry.name + [0], Zeros(Padding(HEADER_SIZE + namesize)),
                entry.data, Zeros(Padding(|entry.data|)));
    WriteEntryNested(entry);
  }

  lemma {:induction false} WriteEntryNested(e: CpioEntry)
    ensures WriteEntry(e) ==
      Header(e) + ((e.name + [0]) + (Zeros(Padding(HEADER_SIZE + |e.name| + 1)) + (e.data + Zeros(Padding(|e.data|)))))
  {
    Reassociate(Header(e), e.name + [0], Zeros(Padding(HEADER_SIZE + |e.name| + 1)),
                e.data, Zeros(Padding(|e.data|)), []);
  }

  method WriteNewcArchive(entries: seq<CpioEntry>, sink: Sink, trailingData: seq<Byte>)
    modifies sink
    ensures sink.written == old(sink.written) + Write(entries, trailingData)
  {
    assert entries[0..] == entries;
    for i := 0 to |entries|
      invariant sink.written + Write(entries[i..], trailingData) == old(sink.written) + Write(entries, trailingData)
    {
      WriteFrom(entries, i, trailingData);
      Associate(sink.written, WriteEntry(entries[i]), Write(entries[i + 1..], trailingData));
      WriteCpioEntry(entries[i], sink);
    }
    sink.Write(trailingData);
  }
}
