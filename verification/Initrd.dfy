/** The initrd rebuild: the extract, replace and verify loops over archive entries. */
module Initrd {
  import opened Hex
  import opened Newc
  import opened NewcFormat
  import opened NewcCodec
  import opened Options

  const INIT: seq<Byte> := [0x69, 0x6E, 0x69, 0x74]  // init
  const ROOTFS: seq<Byte> := [0x72, 0x6F, 0x6F, 0x74, 0x66, 0x73, 0x2E, 0x73, 0x71, 0x73, 0x68]  // rootfs.sqsh

  lemma {:induction false} Spelling()
    ensures INIT == Ascii("init") && ROOTFS == Ascii("rootfs.sqsh")
  {
  }

  ghost predicate Contains(entries: seq<CpioEntry>, name: seq<Byte>) {
    exists i :: 0 <= i < |entries| && entries[i].name == name
  }

  /** `data` belongs to the last entry of that name: each match overwrites the file. */
  ghost predicate IsLastData(entries: seq<CpioEntry>, name: seq<Byte>, data: Option<seq<Byte>>) {
    match data
    case None => !Contains(entries, name)
    case Some(d) =>
      exists i :: 0 <= i < |entries| && entries[i].name == name && entries[i].data == d
        && forall j :: i < j < |entries| ==> entries[j].name != name
  }

  ghost predicate IsFirstData(entries: seq<CpioEntry>, name: seq<Byte>, data: Option<seq<Byte>>) {
    match data
    case None => !Contains(entries, name)
    case Some(d) =>
      exists i :: 0 <= i < |entries| && entries[i].name == name && entries[i].data == d
        && forall j :: 0 <= j < i ==> entries[j].name != name
  }

  method ExtractStock(entries: seq<CpioEntry>) returns (init: Option<seq<Byte>>, rootfs: Option<seq<Byte>>)
    ensures IsLastData(entries, INIT, init) && IsLastData(entries, ROOTFS, rootfs)
  {
    init, rootfs := None, None;
    for i := 0 to |entries|
      invariant IsLastData(entries[..i], INIT, init) && IsLastData(entries[..i], ROOTFS, rootfs)
    {
      ghost var before, after := entries[..i], entries[..i + 1];
      assert after[i] == entries[i] && forall j :: 0 <= j < i ==> after[j] == before[j];
      if entries[i].name == INIT {
        init := Some(entries[i].data);
      } else if entries[i].name == ROOTFS {
        rootfs := Some(entries[i].data);
      }
    }
    assert entries[..|entries|] == entries;
  }

  method FindRootfs(entries: seq<CpioEntry>) returns (data: Option<seq<Byte>>)
    ensures IsFirstData(entries, ROOTFS, data)
  {
    for i := 0 to |entries|
      invariant forall j :: 0 <= j < i ==> entries[j].name != ROOTFS
    {
      if entries[i].name == ROOTFS {
        return Some(entries[i].data);
      }
    }
    return None;
  }

  /** `after` is `before` with the image as the data of every entry named ROOTFS, and
      nothing else changed: same entries in the same order, same metadata. */
  ghost predicate IsRebuilt(before: seq<CpioEntry>, after: seq<CpioEntry>, image: seq<Byte>) {
    && |after| == |before|
    && forall i :: 0 <= i < |before| ==>
      after[i] == if before[i].name == ROOTFS then before[i].(data := image) else before[i]
  }

  /** Field by field. */
  lemma {:induction false} RebuiltMeans(before: seq<CpioEntry>, after: seq<CpioEntry>, image: seq<Byte>)
    ensures IsRebuilt(before, after, image) <==>
      && |after| == |before|
      && forall i :: 0 <= i < |after| ==>
        var b, a := before[i], after[i];
        && a.name == b.name && a.mode == b.mode && a.uid == b.uid && a.gid == b.gid && a.nlink == b.nlink
        && a.mtime == b.mtime && a.devmajor == b.devmajor && a.devminor == b.devminor
        && a.rdevmajor == b.rdevmajor && a.rdevminor == b.rdevminor
        && a.data == if b.name == ROOTFS then image else b.data
  {
  }

  method RebuildEntries(entries: seq<CpioEntry>, image: seq<Byte>) returns (rebuilt: seq<CpioEntry>)
    ensures IsRebuilt(entries, rebuilt, image)
  {
    rebuilt := [];
    for i := 0 to |entries|
      invariant IsRebuilt(entries[..i], rebuilt, image)
    {
      var e := entries[i];
      if e.name == ROOTFS {
        rebuilt := rebuilt + [CpioEntry(e.name, e.mode, e.uid, e.gid, e.nlink, e.mtime,
                                        e.devmajor, e.devminor, e.rdevmajor, e.rdevminor, image)];
      } else {
        rebuilt := rebuilt + [e];
      }
    }
    assert entries[..|entries|] == entries;
  }

  lemma {:induction false} ReplacedFits(e: CpioEntry, image: seq<Byte>)
    requires Fits(e)
    ensures Fits(e.(data := image)) <==> |image| < FIELD_LIMIT
  {
  }

  lemma {:induction false} RebuiltAllFit(before: seq<CpioEntry>, after: seq<CpioEntry>, image: seq<Byte>)
    requires AllFit(before) && IsRebuilt(before, after, image)
    ensures AllFit(after) <==> (Contains(before, ROOTFS) ==> |image| < FIELD_LIMIT)
  {
    forall i | 0 <= i < |before|
      ensures Fits(after[i]) <==> (before[i].name == ROOTFS ==> |image| < FIELD_LIMIT)
    {
      ReplacedFits(before[i], image);
    }
  }

  lemma {:induction false} RebuiltTrailerEnds(
      before: seq<CpioEntry>, after: seq<CpioEntry>, suffix: seq<Byte>, image: seq<Byte>)
    requires IsRebuilt(before, after, image)
    ensures TrailerEnds(after, suffix) <==> TrailerEnds(before, suffix)
  {
    assert forall i :: 0 <= i < |before| ==> after[i].name == before[i].name;
  }

  lemma {:induction false} RebuiltWritable(
      before: seq<CpioEntry>, after: seq<CpioEntry>, suffix: seq<Byte>, image: seq<Byte>)
    requires Writable(before, suffix) && IsRebuilt(before, after, image)
    ensures Writable(after, suffix) <==> (Contains(before, ROOTFS) ==> |image| < FIELD_LIMIT)
  {
    WritableMeans(before, suffix);
    WritableMeans(after, suffix);
    RebuiltAllFit(before, after, image);
    RebuiltTrailerEnds(before, after, suffix, image);
  }

  /** The rebuilt entries survive write-then-parse exactly when the image's length still
      has a place of eight digits in the header. */
  lemma {:induction false} RebuiltSurvives(
      before: seq<CpioEntry>, after: seq<CpioEntry>, suffix: seq<Byte>, image: seq<Byte>)
    requires Writable(before, suffix) && IsRebuilt(before, after, image) && Contains(before, ROOTFS)
    ensures Parse(Write(after, suffix)) == Ok(after, suffix) <==> |image| < FIELD_LIMIT
  {
    RoundTripExactly(after, suffix);
    RebuiltWritable(before, after, suffix, image);
  }

  /** Verification takes the first match; as every match was replaced it gets the image. */
  lemma {:induction false} FirstMatchIsImage(
      before: seq<CpioEntry>, after: seq<CpioEntry>, image: seq<Byte>, found: Option<seq<Byte>>)
    requires IsRebuilt(before, after, image) && IsFirstData(after, ROOTFS, found)
    ensures found == if Contains(before, ROOTFS) then Some(image) else None
  {
    if Contains(before, ROOTFS) {
      var i :| 0 <= i < |before| && before[i].name == ROOTFS;
      assert after[i].name == ROOTFS;
    }
  }

  datatype Outcome =
    | Rebuilt(initrd: seq<Byte>, verified: seq<Byte>)
    | Unparsable(error: Error)
    | MissingStock
    | UnparsableRebuild(error: Error)
    | MissingRootfs

  /** What the verification says of the rebuilt bytes, as they are read back. */
  ghost predicate IsVerdict(outcome: Outcome, initrd: seq<Byte>) {
    match Parse(initrd)
    case Err(e) => outcome == UnparsableRebuild(e)
    case Ok(found, _) =>
      if Contains(found, ROOTFS)
      then outcome.Rebuilt? && outcome.initrd == initrd && IsFirstData(found, ROOTFS, Some(outcome.verified))
      else outcome == MissingRootfs
  }

  /** No entry that is read back has data of 4 GiB or more. */
  lemma {:induction false} FoundIsShort(initrd: seq<Byte>, data: seq<Byte>)
    requires Parse(initrd).Ok? && IsFirstData(Parse(initrd).entries, ROOTFS, Some(data))
    ensures |data| < FIELD_LIMIT
  {
    ParsedIsWritable(initrd);
    WritableMeans(Parse(initrd).entries, Parse(initrd).suffix);
  }

  /** Verification obtains the new image exactly when that is below 4 GiB. */
  lemma {:induction false} ImageVerified(
      before: seq<CpioEntry>, after: seq<CpioEntry>, suffix: seq<Byte>, image: seq<Byte>, outcome: Outcome)
    requires Writable(before, suffix) && IsRebuilt(before, after, image) && Contains(before, ROOTFS)
    requires IsVerdict(outcome, Write(after, suffix))
    ensures outcome.Rebuilt? && outcome.verified == image <==> |image| < FIELD_LIMIT
  {
    RebuiltSurvives(before, after, suffix, image);
    if |image| < FIELD_LIMIT {
      FirstMatchIsImage(before, after, image, if Contains(after, ROOTFS) then Some(outcome.verified) else None);
    } else if outcome.Rebuilt? {
      FoundIsShort(Write(after, suffix), outcome.verified);
    }
  }

  /** From the stock initrd to the verified rebuilt one.  The new image stands for what
      mksquashfs returns. */
  method RebuildInitrd(stock: seq<Byte>, image: seq<Byte>) returns (outcome: Outcome)
    ensures match Parse(stock)
      case Err(e) => outcome == Unparsable(e)
      case Ok(entries, suffix) =>
        if Contains(entries, INIT) && Contains(entries, ROOTFS) then
          exists rebuilt ::
            && IsRebuilt(entries, rebuilt, image) && IsVerdict(outcome, Write(rebuilt, suffix))
            && (Parse(Write(rebuilt, suffix)) == Ok(rebuilt, suffix) <==> |image| < FIELD_LIMIT)
            && (outcome.Rebuilt? && outcome.verified == image <==> |image| < FIELD_LIMIT)
        else outcome == MissingStock
  {
    var input := new Stream(stock);
    var archive := ParseNewcArchive(input);
    if archive.Err? {
      return Unparsable(archive.error);
    }
    var entries, suffix := archive.entries, archive.suffix;
    var init, rootfs := ExtractStock(entries);
    if init.None? || rootfs.None? {
      return MissingStock;
    }
    var rebuilt := RebuildEntries(entries, image);
    var sink := new Sink();
    WriteNewcArchive(rebuilt, sink, suffix);
    assert sink.written == Write(rebuilt, suffix);
    outcome := Verify(sink.written);
    ParsedIsWritable(stock);
    RebuiltSurvives(entries, rebuilt, suffix, image);
    ImageVerified(entries, rebuilt, suffix, image, outcome);
  }

  method Verify(initrd: seq<Byte>) returns (outcome: Outcome)
    ensures IsVerdict(outcome, initrd)
  {
    var output := new Stream(initrd);
    var archive := ParseNewcArchive(output);
    if archive.Err? {
      return UnparsableRebuild(archive.error);
    }
    var found := FindRootfs(archive.entries);
    match found
    case None => outcome := MissingRootfs;
    case Some(data) => outcome := Rebuilt(initrd, data);
  }
}
