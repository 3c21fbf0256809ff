/** Archives written by others: hexadecimal letters of either case. */
module NewcCase {
  import opened Hex
  import opened Newc
  import opened NewcLayout

  lemma {:induction false} FieldCase(h: seq<Byte>, t: seq<Byte>, k: nat)
    requires SameButCase(h, t)
    ensures SameButCase(FieldText(h, k), FieldText(t, k))
  {
  }

  lemma {:induction false} NumbersCase(h: seq<Byte>, t: seq<Byte>)
    requires SameButCase(h, t) && HasNumbers(h)
    ensures HasNumbers(t) && Numbers(t) == Numbers(h)
  {
    forall k | 1 <= k <= 11 ensures IsNumber(FieldText(t, k)) {
      FieldCase(h, t, k);
      CaseInsensitive(FieldText(h, k), FieldText(t, k));
    }
    forall k | 0 <= k < 12 ensures Numbers(t)[k] == Numbers(h)[k] {
      if k > 0 {
        NumberAt(h, k);
        NumberAt(t, k);
        FieldCase(h, t, k);
        CaseInsensitive(FieldText(h, k), FieldText(t, k));
      }
    }
  }

  lemma {:induction false} MagicCase(h: seq<Byte>, t: seq<Byte>)
    requires SameButCase(h, t) && Take(h, 6) == MAGIC
    ensures Take(t, 6) == MAGIC
  {
    forall i | 0 <= i < 6 ensures t[i] == MAGIC[i] {
      assert h[i] == Take(h, 6)[i];
    }
  }

  /** The same raw entry, but for the case of letters in its header. */
  ghost predicate IsRecased(r: RawEntry, q: RawEntry) {
    q == r.(header := q.header) && SameButCase(r.header, q.header)
  }

  lemma {:induction false} RecasedWhole(r: RawEntry, q: RawEntry)
    requires IsWhole(r) && IsRecased(r, q)
    ensures IsWhole(q) && EntryOf(q) == EntryOf(r)
  {
    NumbersCase(r.header, q.header);
    MagicCase(r.header, q.header);
  }

  lemma {:induction false} RecasedComplete(raws: seq<RawEntry>, recased: seq<RawEntry>, suffix: seq<Byte>)
    requires IsComplete(raws, suffix) && |recased| == |raws|
    requires forall i {:trigger raws[i]} {:trigger recased[i]} :: 0 <= i < |raws| ==> IsRecased(raws[i], recased[i])
    ensures IsComplete(recased, suffix)
    decreases |raws|
  {
    if raws != [] {
      RecasedWhole(raws[0], recased[0]);
      if raws[0].name != TRAILER {
        assert forall i {:trigger raws[1..][i]} {:trigger recased[1..][i]} :: 0 <= i < |raws| - 1 ==>
          raws[1..][i] == raws[i + 1] && recased[1..][i] == recased[i + 1];
        RecasedComplete(raws[1..], recased[1..], suffix);
      }
    }
  }

  /** Two archives that differ in the case of header letters only say the same. */
  lemma {:induction false} CaseDoesNotMatter(raws: seq<RawEntry>, recased: seq<RawEntry>, suffix: seq<Byte>)
    requires IsComplete(raws, suffix) && |recased| == |raws|
    requires forall i {:trigger raws[i]} {:trigger recased[i]} :: 0 <= i < |raws| ==> IsRecased(raws[i], recased[i])
    ensures Parse(Bytes(recased, suffix)) == Parse(Bytes(raws, suffix))
  {
    RecasedComplete(raws, recased, suffix);
    RawLayoutKept(raws, suffix);
    RawLayoutKept(recased, suffix);
    SameEntries(raws, recased, suffix);
  }

  lemma {:induction false} SameEntries(raws: seq<RawEntry>, recased: seq<RawEntry>, suffix: seq<Byte>)
    requires IsComplete(raws, suffix) && |recased| == |raws| && AllNumbered(raws) && AllNumbered(recased)
    requires forall i {:trigger raws[i]} {:trigger recased[i]} :: 0 <= i < |raws| ==> IsRecased(raws[i], recased[i])
    ensures EntriesOf(recased) == EntriesOf(raws)
  {
    forall i | 0 <= i < |raws| ensures EntryOf(recased[i]) == EntryOf(raws[i]) {
      CompleteIsWhole(raws, suffix, i);
      RecasedWhole(raws[i], recased[i]);
    }
  }

  // ----- what the writer writes -----

  function WrittenRaw(e: CpioEntry): RawEntry {
    RawEntry(Header(e), e.name, 0, Zeros(Padding(HEADER_SIZE + |e.name| + 1)), e.data, Zeros(Padding(|e.data|)))
  }

  function WrittenRaws(entries: seq<CpioEntry>): (raws: seq<RawEntry>)
    ensures |raws| == |entries|
  {
    seq(|entries|, i requires 0 <= i < |entries| => WrittenRaw(entries[i]))
  }

  lemma {:induction false} WrittenWhole(e: CpioEntry)
    requires Fits(e)
    ensures IsWhole(WrittenRaw(e)) && EntryOf(WrittenRaw(e)) == e && RawBytes(WrittenRaw(e)) == WriteEntry(e)
  {
    HeaderRead(e);
    NumbersMakeEntry(Numbers(Header(e)), e);
  }

  /** Every archive that fits is written as a complete archive of these raw entries. */
  lemma {:induction false} WrittenIsComplete(entries: seq<CpioEntry>, suffix: seq<Byte>)
    requires Writable(entries, suffix)
    ensures IsComplete(WrittenRaws(entries), suffix) && Bytes(WrittenRaws(entries), suffix) == Write(entries, suffix)
    ensures IsCompleteArchive(Write(entries, suffix)) && RawsOf(Write(entries, suffix)) == WrittenRaws(entries)
    decreases |entries|
  {
    if entries != [] {
      var e, more := entries[0], entries[1..];
      WrittenWhole(e);
      Cons(WrittenRaws(entries), WrittenRaws(more));
      BytesCons(WrittenRaw(e), WrittenRaws(more), suffix);
      if e.name != TRAILER {
        WrittenIsComplete(more, suffix);
        CompleteCons(WrittenRaw(e), WrittenRaws(more), suffix);
      } else {
        assert more == [] && WrittenRaws(more) == [];
        CompleteCons(WrittenRaw(e), [], suffix);
      }
    }
    PutTogether(WrittenRaws(entries), suffix);
  }

  function RaisedRaws(raws: seq<RawEntry>): (raised: seq<RawEntry>)
    ensures |raised| == |raws|
    ensures forall i :: 0 <= i < |raws| ==> raised[i] == raws[i].(header := Raised(raws[i].header))
  {
    seq(|raws|, i requires 0 <= i < |raws| => raws[i].(header := Raised(raws[i].header)))
  }

  /** A written archive with all header letters raised to upper case, as other programs
      write it, is read as the same entries and suffix. */
  lemma {:induction false} UpperCaseArchive(entries: seq<CpioEntry>, suffix: seq<Byte>)
    requires Writable(entries, suffix)
    ensures Parse(Bytes(RaisedRaws(WrittenRaws(entries)), suffix)) == Ok(entries, suffix)
  {
    var raws := WrittenRaws(entries);
    WrittenIsComplete(entries, suffix);
    forall i | 0 <= i < |raws| ensures IsRecased(raws[i], RaisedRaws(raws)[i]) {
      RaisedIsSame(raws[i].header);
    }
    CaseDoesNotMatter(raws, RaisedRaws(raws), suffix);
    RoundTrip(entries, suffix);
  }
}
