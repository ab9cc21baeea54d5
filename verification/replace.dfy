/** The replacement itself: the part of `Replace` in UMDReplaceK/Program.cs:177-347
    that locates the old file, splices the new contents into the image and
    updates every field that depends on the sizes and locations that moved. */
module Replacement {
  import opened Bytes
  import opened Layout
  import opened Names
  import opened Outcomes
  import opened Buffer
  import opened Navigator
  import opened PathTables
  import opened Toc

  /** Everything read from the image before it is edited. */
  datatype Plan = Plan(
    record: nat,        // byte offset of the replaced file's directory record
    fileLba: u32,       // first sector of the old contents
    oldSize: u32,       // old size in bytes
    oldSectors: nat,    // sectors the old contents occupy
    newSize: u32,       // new size in bytes
    newSectors: nat,    // sectors the new contents occupy
    diff: int,          // signed change in the number of sectors
    imageSectors: u32,  // volume space size of the primary volume descriptor
    rootLba: u32,       // location of the root directory
    rootLength: u32)    // size of the root directory

  /** Lines 201-212: the search for the target from the root directory, where
      an offset of 0 also means "not found". */
  function FindRecord(s: seq<byte>, target: string, rootLba: u32, rootLength: u32, fuel: nat): (r: Result<nat>)
    ensures r.Ok? ==> r.value > 0 && RecordReadable(s, r.value) && MatchesUnder(target, "", EntryName(s, r.value))
    ensures r == Err(FileNotFound) <==>
              var found := ScanDir(s, target, "", rootLba, rootLength, fuel);
              found.NotFound? || found == Found(0)
  {
    match ScanDir(s, target, "", rootLba, rootLength, fuel)
    case Failed(f) => Err(f)
    case NotFound => Err(FileNotFound)
    case Found(o) => if o == 0 then Err(FileNotFound) else Ok(o)
  }

  /** Lines 177-221: the descriptor fields, the new file's size in sectors,
      the normalised target path, the search for it and the old file's size
      and location. */
  function Locate(s: seq<byte>, oldName: string, newSize: u32, fuel: nat): (r: Result<Plan>)
    requires newSize < 0x8000_0000
    ensures r.Ok? ==>
              var p := r.value;
              RecordReadable(s, p.record) && p.record > 0 && |oldName| > 0 &&
              MatchesUnder(NormalizeTarget(oldName), "", EntryName(s, p.record))
    ensures r.Ok? ==>
              var p := r.value;
              p.newSize == newSize && p.oldSize == U32At(s, p.record + SizeField) &&
              p.fileLba == U32At(s, p.record + LbaField) &&
              p.newSectors == SectorsFor(newSize) &&
              p.newSectors * SectorSize >= newSize > (p.newSectors - 1) * SectorSize &&
              p.oldSectors == SectorsFor(p.oldSize) &&
              p.diff == p.newSectors - p.oldSectors
    ensures r == Err(FileNotFound) <==>
              Descriptor(RootSizeField) + 4 <= |s| && |oldName| > 0 &&
              var found := ScanDir(s, NormalizeTarget(oldName), "", U32At(s, Descriptor(RootFolderLbaField)),
                                   U32At(s, Descriptor(RootSizeField)), fuel);
              found.NotFound? || found == Found(0)
  {
    if Descriptor(RootSizeField) + 4 > |s| then Err(OutOfRange)
    else
      var imageSectors := U32At(s, Descriptor(TotalSectorsField));
      var rootLba := U32At(s, Descriptor(RootFolderLbaField));
      var rootLength := U32At(s, Descriptor(RootSizeField));
      if |oldName| == 0 then Err(EmptyName)
      else
        match FindRecord(s, NormalizeTarget(oldName), rootLba, rootLength, fuel)
        case Err(f) => Err(f)
        case Ok(o) => Ok(PlanAt(s, o, newSize, imageSectors, rootLba, rootLength))
  }

  /** Lines 214-221: the old file's size and location read from its record at
      `o`, and the signed change in sectors. */
  function PlanAt(s: seq<byte>, o: nat, newSize: u32, imageSectors: u32, rootLba: u32, rootLength: u32): (p: Plan)
    requires RecordReadable(s, o) && newSize < 0x8000_0000
    ensures p.record == o && p.newSize == newSize && p.imageSectors == imageSectors
    ensures p.rootLba == rootLba && p.rootLength == rootLength
    ensures p.oldSize == U32At(s, o + SizeField) && p.fileLba == U32At(s, o + LbaField)
    ensures p.newSectors == SectorsFor(newSize)
    ensures p.newSectors * SectorSize >= newSize > (p.newSectors - 1) * SectorSize
    ensures p.oldSectors == SectorsFor(p.oldSize) && p.diff == p.newSectors - p.oldSectors
  {
    var newSectors := SectorsFor(newSize);
    var oldSize := U32At(s, o + SizeField);
    var oldSectors := SectorsFor(oldSize);
    var fileLba := U32At(s, o + LbaField);
    SignedDifference(newSectors, oldSectors);
    var diff := ToInt32(AddWrap(newSectors, -(oldSectors as int)));
    Plan(o, fileLba, oldSize, oldSectors, newSize, newSectors, diff, imageSectors, rootLba, rootLength)
  }

  /** The spliced image: the old extent of `p` replaced by the new contents
      padded to whole sectors. */
  function WithContents(s: seq<byte>, p: Plan, data: seq<byte>): seq<byte>
    requires |data| <= p.newSectors * SectorSize
    requires p.fileLba * SectorSize + p.oldSectors * SectorSize <= |s|
  {
    Spliced(s, p.fileLba * SectorSize, p.oldSectors * SectorSize, Padded(data, p.newSectors))
  }

  /** Lines 293-308: the size field of the replaced record rewritten, in
      both byte orders, when the size changed; nothing is written when it
      did not. */
  function WithSize(s: seq<byte>, p: Plan): (r: Result<seq<byte>>)
    ensures p.newSize == p.oldSize ==> r == Ok(s)
    ensures r.Err? <==> p.newSize != p.oldSize && p.record + SizeField + 8 > |s|
    ensures r.Ok? ==> |r.value| == |s|
    ensures r.Ok? && p.newSize != p.oldSize ==>
              U32At(r.value, p.record + SizeField) == p.newSize && BothEndianAgree(r.value, p.record + SizeField)
    ensures r.Ok? ==> forall k :: 0 <= k < |s| && !(p.record + SizeField <= k < p.record + SizeField + 8) ==> r.value[k] == s[k]
  {
    if p.newSize == p.oldSize then Ok(s)
    else if p.record + SizeField + 8 > |s| then Err(OutOfRange)
    else Ok(WithBothEndian(s, p.record + SizeField, p.newSize))
  }

  /** Lines 310-323: the volume space size moved by `diff` sectors, in both
      byte orders, when the sector count changed; the descriptor is left
      alone when it did not. */
  function WithSectorCount(s: seq<byte>, p: Plan): (r: Result<seq<byte>>)
    ensures p.diff == 0 ==> r == Ok(s)
    ensures r.Err? <==> p.diff != 0 && Descriptor(TotalSectorsField) + 8 > |s|
    ensures r.Ok? ==> |r.value| == |s|
    ensures r.Ok? && p.diff != 0 ==>
              U32At(r.value, Descriptor(TotalSectorsField)) == AddWrap(p.imageSectors, p.diff) &&
              BothEndianAgree(r.value, Descriptor(TotalSectorsField))
    ensures r.Ok? ==> forall k :: 0 <= k < |s| && !(Descriptor(TotalSectorsField) <= k < Descriptor(TotalSectorsField) + 8) ==> r.value[k] == s[k]
  {
    if p.diff == 0 then Ok(s)
    else if Descriptor(TotalSectorsField) + 8 > |s| then Err(OutOfRange)
    else Ok(WithBothEndian(s, Descriptor(TotalSectorsField), AddWrap(p.imageSectors, p.diff)))
  }

  /** Lines 263-322: the old extent replaced by the new contents padded to
      whole sectors, then the record's size and the volume space size. */
  function Resize(s: seq<byte>, p: Plan, data: seq<byte>): (r: Result<seq<byte>>)
    requires |data| <= p.newSectors * SectorSize
    ensures r.Ok? ==> |r.value| == |s| - p.oldSectors * SectorSize + p.newSectors * SectorSize
  {
    if p.fileLba * SectorSize + p.oldSectors * SectorSize > |s| then Err(OutOfRange)
    else
      match WithSize(WithContents(s, p, data), p)
      case Err(f) => Err(f)
      case Ok(s2) => WithSectorCount(s2, p)
  }

  /** The image after the replacement, and the change in its number of sectors. */
  datatype Replaced = Replaced(image: seq<byte>, diff: int)

  /** The whole replacement: locate, resize, renumber the path tables (only
      when the sector count changed, lines 310-342) and renumber the
      directory records of the whole tree (always, line 347). A name that
      names no record fails as the lookup does; otherwise the image grows or
      shrinks by exactly `diff` whole sectors, and `diff` is the new
      contents' sector count minus the old contents'. */
  function ReplaceImage(s: seq<byte>, oldName: string, data: seq<byte>, fuel: nat): (r: Result<Replaced>)
    requires |data| < 0x8000_0000
    ensures Locate(s, oldName, |data|, fuel).Err? ==> r == Err(Locate(s, oldName, |data|, fuel).fault)
    ensures r.Ok? ==>
              Locate(s, oldName, |data|, fuel).Ok? &&
              var p := Locate(s, oldName, |data|, fuel).value;
              MatchesUnder(NormalizeTarget(oldName), "", EntryName(s, p.record)) &&
              |r.value.image| == |s| + r.value.diff * SectorSize &&
              r.value.diff == SectorsFor(|data|) - SectorsFor(U32At(s, p.record + SizeField))
  {
    hide *;
    match Locate(s, oldName, |data|, fuel)
    case Err(f) => Err(f)
    case Ok(p) =>
      match Resize(s, p, data)
      case Err(f) => Err(f)
      case Ok(s2) =>
        assert |s2| == |s| + p.diff * SectorSize;
        match (if p.diff != 0 then UpdateTables(s2, p.fileLba, p.diff, 0) else Ok(s2))
        case Err(f) => Err(f)
        case Ok(s3) =>
          match TocDir(s3, p.rootLba, p.rootLength, p.record, p.fileLba, p.diff, fuel)
          case Err(f) => Err(f)
          case Ok(w) =>
            ReplacedSize(s, oldName, data, fuel, p, w.image);
            Ok(Replaced(w.image, p.diff))
  }

  /** An image as long as the resized one has grown by `diff` sectors, the
      difference of the sector counts of the new and the old contents. */
  lemma ReplacedSize(s: seq<byte>, oldName: string, data: seq<byte>, fuel: nat, p: Plan, t: seq<byte>)
    requires |data| < 0x8000_0000
    requires Locate(s, oldName, |data|, fuel) == Ok(p)
    requires |t| == |s| - p.oldSectors * SectorSize + p.newSectors * SectorSize
    ensures |t| == |s| + p.diff * SectorSize
    ensures p.diff == SectorsFor(|data|) - SectorsFor(U32At(s, p.record + SizeField))
  {
    hide *;
  }

  // ---------------------------------------------------------------------
  // Properties.

  /** The two field writes of the resize land in front of the old extent when
      the replaced record and the volume space size precede it, as they do in
      an image whose directories are recorded before file data. */
  predicate FieldsBeforeExtent(p: Plan) {
    p.record + SizeField + 8 <= p.fileLba * SectorSize &&
    Descriptor(TotalSectorsField) + 8 <= p.fileLba * SectorSize
  }

  /** From the old extent on, the resized image is the spliced one. */
  lemma ResizeKeepsSplice(s: seq<byte>, p: Plan, data: seq<byte>)
    requires |data| <= p.newSectors * SectorSize
    requires Resize(s, p, data).Ok? && FieldsBeforeExtent(p)
    ensures var r := Resize(s, p, data).value;
            var s1 := WithContents(s, p, data);
            |r| == |s1| && forall k :: p.fileLba * SectorSize <= k < |s1| ==> r[k] == s1[k]
  {
  }

  /** In front of the old extent the resize writes only the record's size
      field, and only when the size changed, and the volume space size, and
      only when the sector count changed: every other byte there is kept. */
  lemma ResizeKeepsFront(s: seq<byte>, p: Plan, data: seq<byte>)
    requires |data| <= p.newSectors * SectorSize
    requires Resize(s, p, data).Ok?
    ensures var r := Resize(s, p, data).value;
            forall k :: 0 <= k < p.fileLba * SectorSize &&
                        !(p.newSize != p.oldSize && p.record + SizeField <= k < p.record + SizeField + 8) &&
                        !(p.diff != 0 && Descriptor(TotalSectorsField) <= k < Descriptor(TotalSectorsField) + 8)
                        ==> r[k] == s[k]
  {
    hide Padded, WithBothEndian;
    var s1 := WithContents(s, p, data);
    assert forall k :: 0 <= k < p.fileLba * SectorSize ==> s1[k] == s[k] by {
      assert s1[..p.fileLba * SectorSize] == s[..p.fileLba * SectorSize];
    }
  }

  /** The old extent now holds the new contents padded with zeros, and
      everything after it has moved by the difference in sectors. */
  lemma ResizeStoresContents(s: seq<byte>, p: Plan, data: seq<byte>)
    requires |data| <= p.newSectors * SectorSize
    requires Resize(s, p, data).Ok? && FieldsBeforeExtent(p)
    requires p.diff == p.newSectors - p.oldSectors
    ensures var r := Resize(s, p, data).value;
            var at := p.fileLba * SectorSize;
            r[at..at + p.newSectors * SectorSize] == Padded(data, p.newSectors) &&
            (forall k :: at + p.oldSectors * SectorSize <= k < |s| ==> r[k + p.diff * SectorSize] == s[k])
  {
    hide WithSize, WithSectorCount, WithBothEndian, Padded;
    var r := Resize(s, p, data).value;
    var at := p.fileLba * SectorSize;
    var s1 := WithContents(s, p, data);
    ResizeKeepsSplice(s, p, data);
    assert r[at..at + p.newSectors * SectorSize] == s1[at..at + p.newSectors * SectorSize];
  }

  /** A changed size is written to the record in both byte orders. */
  lemma ResizeStoresSize(s: seq<byte>, p: Plan, data: seq<byte>)
    requires |data| <= p.newSectors * SectorSize
    requires Resize(s, p, data).Ok? && FieldsBeforeExtent(p) && p.newSize != p.oldSize
    requires p.diff == 0 || p.record + SizeField + 8 <= Descriptor(TotalSectorsField)
             || Descriptor(TotalSectorsField) + 8 <= p.record + SizeField
    ensures var r := Resize(s, p, data).value;
            U32At(r, p.record + SizeField) == p.newSize && BothEndianAgree(r, p.record + SizeField)
  {
    var f := p.record + SizeField;
    var s2 := WithBothEndian(WithContents(s, p, data), f, p.newSize);
    var r := Resize(s, p, data).value;
    SameField(r, s2, f);
  }

  /** A changed sector count is added to the volume space size, in both byte orders. */
  lemma ResizeStoresSectorCount(s: seq<byte>, p: Plan, data: seq<byte>)
    requires |data| <= p.newSectors * SectorSize
    requires Resize(s, p, data).Ok? && p.diff != 0
    ensures var r := Resize(s, p, data).value;
            U32At(r, Descriptor(TotalSectorsField)) == AddWrap(p.imageSectors, p.diff) &&
            BothEndianAgree(r, Descriptor(TotalSectorsField))
  {
  }

  /** The image the path-table step leaves: the resized image with the four
      tables renumbered when the sector count changed. */
  function AfterTables(s2: seq<byte>, p: Plan): Result<seq<byte>> {
    if p.diff != 0 then UpdateTables(s2, p.fileLba, p.diff, 0) else Ok(s2)
  }

  /** When the lookup, the resize, the path-table step and the walk give
      `p`, `s2`, `s3` and `w`, the replacement's image is the walk's; its new
      extent still holds the new contents padded with zeros, provided neither
      a path-table record nor a directory record the walk moved has its
      location field inside that extent, and the two field writes of the
      resize land in front of it. */
  lemma ReplaceStoresContents(s: seq<byte>, oldName: string, data: seq<byte>, fuel: nat,
                              p: Plan, s2: seq<byte>, s3: seq<byte>, w: Walk)
    requires |data| < 0x8000_0000
    requires Locate(s, oldName, |data|, fuel) == Ok(p) && FieldsBeforeExtent(p)
    requires Resize(s, p, data) == Ok(s2) && AfterTables(s2, p) == Ok(s3)
    requires TocDir(s3, p.rootLba, p.rootLength, p.record, p.fileLba, p.diff, fuel) == Ok(w)
    requires p.diff != 0 ==>
               DescriptorReadable(s2) && TablesApart(s2) &&
               forall k :: p.fileLba * SectorSize <= k < (p.fileLba + p.newSectors) * SectorSize ==> !Renumberable(s2, 4, k)
    requires forall k :: p.fileLba * SectorSize <= k < (p.fileLba + p.newSectors) * SectorSize ==> !Touched(w.shifted, k)
    ensures ReplaceImage(s, oldName, data, fuel) == Ok(Replaced(w.image, p.diff))
    ensures (p.fileLba + p.newSectors) * SectorSize <= |w.image|
    ensures w.image[p.fileLba * SectorSize..(p.fileLba + p.newSectors) * SectorSize] == Padded(data, p.newSectors)
  {
    var at := p.fileLba * SectorSize;
    var end := (p.fileLba + p.newSectors) * SectorSize;
    ReplaceImageSteps(s, oldName, data, fuel, p, s2, s3, w);
    hide *;
    ResizedExtent(s, p, data, s2);
    TablesKeepExtent(s2, p, at, end);
    WalkKeepsExtent(s3, w, p, fuel, at, end);
  }

  /** The successful replacement is its three steps in a row. */
  lemma ReplaceImageSteps(s: seq<byte>, oldName: string, data: seq<byte>, fuel: nat,
                          p: Plan, s2: seq<byte>, s3: seq<byte>, w: Walk)
    requires |data| < 0x8000_0000
    requires Locate(s, oldName, |data|, fuel) == Ok(p)
    requires Resize(s, p, data) == Ok(s2) && AfterTables(s2, p) == Ok(s3)
    requires TocDir(s3, p.rootLba, p.rootLength, p.record, p.fileLba, p.diff, fuel) == Ok(w)
    ensures ReplaceImage(s, oldName, data, fuel) == Ok(Replaced(w.image, p.diff))
  {
    hide Locate, Resize, UpdateTables, TocDir, Confined, MatchesUnder;
  }

  /** The resized image's new extent, as a slice. */
  lemma ResizedExtent(s: seq<byte>, p: Plan, data: seq<byte>, s2: seq<byte>)
    requires |data| <= p.newSectors * SectorSize
    requires Resize(s, p, data) == Ok(s2) && FieldsBeforeExtent(p)
    requires p.diff == p.newSectors - p.oldSectors
    ensures (p.fileLba + p.newSectors) * SectorSize <= |s2|
    ensures s2[p.fileLba * SectorSize..(p.fileLba + p.newSectors) * SectorSize] == Padded(data, p.newSectors)
  {
    ResizeStoresContents(s, p, data);
  }

  /** The path-table step keeps the bytes `at .. end` when none of them is a
      location field of a record of a present table. */
  lemma TablesKeepExtent(s2: seq<byte>, p: Plan, at: nat, end: nat)
    requires end <= |s2| && AfterTables(s2, p).Ok?
    requires p.diff != 0 ==>
               DescriptorReadable(s2) && TablesApart(s2) &&
               forall k :: at <= k < end ==> !Renumberable(s2, 4, k)
    ensures |AfterTables(s2, p).value| == |s2|
    ensures at <= end ==> AfterTables(s2, p).value[at..end] == s2[at..end]
  {
    if p.diff != 0 {
      assert AfterTables(s2, p) == UpdateTables(s2, p.fileLba, p.diff, 0);
      hide *;
      UpdateTablesRenumbers(s2, p.fileLba, p.diff);
    }
  }

  /** The walk keeps the bytes `at .. end` when none of them is a location
      field of a record it moved. */
  lemma WalkKeepsExtent(s3: seq<byte>, w: Walk, p: Plan, fuel: nat, at: nat, end: nat)
    requires end <= |s3|
    requires TocDir(s3, p.rootLba, p.rootLength, p.record, p.fileLba, p.diff, fuel) == Ok(w)
    requires forall k :: at <= k < end ==> !Touched(w.shifted, k)
    ensures |w.image| == |s3|
    ensures at <= end ==> w.image[at..end] == s3[at..end]
  {
    var r := TocDir(s3, p.rootLba, p.rootLength, p.record, p.fileLba, p.diff, fuel);
    assert Confined(s3, r);
    forall k | at <= k < end ensures w.image[k] == s3[k] {
      assert !Touched(r.value.shifted, k);
    }
  }

  // ---------------------------------------------------------------------
  // The methods, as `Replace` runs them once the two files are in memory.

  /** Lines 177-221 as statements: reads only. */
  method LocateFile(iso: Image, oldName: string, newSize: u32, fuel: nat) returns (r: Result<Plan>)
    requires newSize < 0x8000_0000
    ensures r == Locate(iso.bytes, oldName, newSize, fuel)
  {
    if Descriptor(RootSizeField) + 4 > |iso.bytes| {
      return Err(OutOfRange);
    }
    // get data from the primary volume descriptor
    var imageSectors := iso.ReadU32(Descriptor(TotalSectorsField));
    var rootLba := iso.ReadU32(Descriptor(RootFolderLbaField));
    var rootLength := iso.ReadU32(Descriptor(RootSizeField));
    if |oldName| == 0 {
      return Err(EmptyName);
    }
    var target := NormalizeTarget(oldName);
    // search 'oldname' in the image
    var found := FindFile(iso, target, rootLba, rootLength, fuel);
    if found.Err? {
      return Err(found.fault);
    }
    var o := found.value;
    var p := ReadPlan(iso, o, newSize, imageSectors, rootLba, rootLength);
    return Ok(p);
  }

  /** Lines 214-221 as statements. */
  method ReadPlan(iso: Image, o: nat, newSize: u32, imageSectors: u32, rootLba: u32, rootLength: u32) returns (p: Plan)
    requires RecordReadable(iso.bytes, o) && newSize < 0x8000_0000
    ensures p == PlanAt(iso.bytes, o, newSize, imageSectors, rootLba, rootLength)
  {
    // get new data from the new file
    var newFileSectors := SectorsFor(newSize);
    // get data from the old file
    var oldFilesize := iso.ReadU32(o + SizeField);
    var oldFileSectors := SectorsFor(oldFilesize);
    var fileLba := iso.ReadU32(o + LbaField);
    // size difference in sectors
    var diff := ToInt32(AddWrap(newFileSectors, -(oldFileSectors as int)));
    p := Plan(o, fileLba, oldFilesize, oldFileSectors, newSize, newFileSectors, diff, imageSectors, rootLba, rootLength);
  }

  /** Lines 201-212 as statements. */
  method FindFile(iso: Image, target: string, rootLba: u32, rootLength: u32, fuel: nat) returns (r: Result<nat>)
    ensures r == FindRecord(iso.bytes, target, rootLba, rootLength, fuel)
  {
    var found := Search(iso, target, "", rootLba, rootLength, fuel);
    if found.Failed? {
      return Err(found.fault);
    }
    if found.NotFound? || found.offset == 0 {
      return Err(FileNotFound);
    }
    return Ok(found.offset);
  }

  /** Lines 263-322 as statements. */
  method ResizeImage(iso: Image, p: Plan, data: seq<byte>) returns (ok: bool)
    requires |data| <= p.newSectors * SectorSize
    modifies iso
    ensures ok <==> Resize(old(iso.bytes), p, data).Ok?
    ensures ok ==> iso.bytes == Resize(old(iso.bytes), p, data).value
  {
    hide Padded, WithBothEndian;
    // update the new file
    var at := p.fileLba * SectorSize;
    if at + p.oldSectors * SectorSize > |iso.bytes| {
      return false;
    }
    ghost var s := iso.bytes;
    iso.Splice(at, p.oldSectors * SectorSize, Padded(data, p.newSectors));
    ghost var s1 := iso.bytes;
    assert s1 == WithContents(s, p, data);
    if p.newSize != p.oldSize {
      // update the file size
      if p.record + SizeField + 8 > |iso.bytes| {
        return false;
      }
      iso.WriteBothEndian(p.record + SizeField, p.newSize);
    }
    assert WithSize(s1, p) == Ok(iso.bytes);
    ghost var s2 := iso.bytes;
    if p.diff != 0 {
      // update the primary volume descriptor
      if Descriptor(TotalSectorsField) + 8 > |iso.bytes| {
        return false;
      }
      iso.WriteBothEndian(Descriptor(TotalSectorsField), AddWrap(p.imageSectors, p.diff));
    }
    assert WithSectorCount(s2, p) == Ok(iso.bytes);
    return true;
  }

  /** Replaces the file `oldName` of the image by `data`; returns the change
      in the image's number of sectors. */
  method Replace(iso: Image, oldName: string, data: seq<byte>, fuel: nat) returns (r: Result<int>)
    requires |data| < 0x8000_0000
    modifies iso
    ensures r.Ok? <==> ReplaceImage(old(iso.bytes), oldName, data, fuel).Ok?
    ensures r.Ok? ==> iso.bytes == ReplaceImage(old(iso.bytes), oldName, data, fuel).value.image &&
                      r.value == ReplaceImage(old(iso.bytes), oldName, data, fuel).value.diff
    ensures r == Err(FileNotFound) <==> Locate(old(iso.bytes), oldName, |data|, fuel) == Err(FileNotFound)
  {
    var located := LocateFile(iso, oldName, |data|, fuel);
    if located.Err? {
      return Err(located.fault);
    }
    var p := located.value;
    var resized := ResizeImage(iso, p, data);
    if !resized {
      return Err(OutOfRange);
    }
    ghost var s2 := iso.bytes;
    if p.diff != 0 {
      // update the path tables
      var ok := UpdatePathTables(iso, p.fileLba, p.diff);
      if !ok {
        return Err(OutOfRange);
      }
    }
    assert (if p.diff != 0 then UpdateTables(s2, p.fileLba, p.diff, 0) else Ok(s2)) == Ok(iso.bytes);
    // update the file/folder LBAs
    var ok := TOC(iso, p.rootLba, p.rootLength, p.record, p.fileLba, p.diff, fuel);
    if !ok {
      return Err(OutOfRange);
    }
    return Ok(p.diff);
  }
}
