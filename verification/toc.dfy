/** Renumbering the directory records of the whole tree: `TOC` in
    UMDReplaceK/Program.cs:514-573. Every record whose extent lies after the
    replaced file's has its location field (a both-byte field at +2, section
    9.1.3 of ECMA-119) moved by `diff` sectors; subdirectories are walked
    with the location they have after that move. */
module Toc {
  import opened Bytes
  import opened Layout
  import opened Names
  import opened Outcomes
  import opened Buffer
  import opened Navigator

  /** Whether the record at offset `o` with location `lba` moves. Records past
      the old extent move; so do records that share its location (zero-length
      files) and come after the replaced record, which sits at `found`. */
  predicate ShouldShift(lba: u32, o: nat, found: nat, lbaOld: u32): (move: bool)
    ensures lba < lbaOld ==> !move
    ensures lba > lbaOld ==> move
    ensures lba == lbaOld ==> (move <==> o > found)
    ensures o == found ==> (move <==> lba > lbaOld)
  {
    lba > lbaOld || (lba == lbaOld && o > found)
  }

  /** The location of the record at `o` moved by `diff`, written in both byte orders. */
  function ShiftRecord(s: seq<byte>, o: nat, diff: int): (r: seq<byte>)
    requires o + SizeField <= |s|
    ensures |r| == |s|
    ensures U32At(r, o + LbaField) == AddWrap(U32At(s, o + LbaField), diff)
    ensures BothEndianAgree(r, o + LbaField)
    ensures forall k :: 0 <= k < |s| && !(o + LbaField <= k < o + SizeField) ==> r[k] == s[k]
  {
    WithBothEndian(s, o + LbaField, AddWrap(U32At(s, o + LbaField), diff))
  }

  /** Moving a consistent record by `diff` and then by `-diff` restores it. */
  lemma {:induction false} ShiftRecordInverse(s: seq<byte>, o: nat, diff: int)
    requires o + SizeField <= |s| && BothEndianAgree(s, o + LbaField)
    ensures ShiftRecord(ShiftRecord(s, o, diff), o, -diff) == s
  {
    var v := U32At(s, o + LbaField);
    var moved := AddWrap(v, diff);
    AddWrapInverse(v, diff);
    assert ShiftRecord(s, o, diff) == WithBothEndian(s, o + LbaField, moved);
    WithBothEndianLast(s, o + LbaField, moved, v);
    WithBothEndianSame(s, o + LbaField);
  }

  // ---------------------------------------------------------------------
  // The walk, as functions threading the image through the tree. A walk
  // returns the new image and the offsets of the records it moved, in order.

  datatype Walk = Walk(image: seq<byte>, shifted: seq<nat>)

  /** `first` moved before the rest of the walk `r`. */
  function Prefix(first: seq<nat>, r: Result<Walk>): Result<Walk> {
    if r.Err? then r else Ok(Walk(r.value.image, first + r.value.shifted))
  }

  /** The walk of the directory of `len` bytes at sector `lba`, and of
      every directory below it. Like every part of the walk, it keeps the
      image's length and changes nothing outside the location fields of the
      records it lists as moved. */
  function TocDir(s: seq<byte>, lba: u32, len: u32, found: nat, lbaOld: u32, diff: int, fuel: nat): (r: Result<Walk>)
    ensures Confined(s, r)
    decreases fuel, 3, 0
  {
    TocSectors(s, lba, SectorsFor(len), 0, found, lbaOld, diff, fuel)
  }

  function TocSectors(s: seq<byte>, lba: nat, n: nat, i: nat, found: nat, lbaOld: u32, diff: int, fuel: nat): (r: Result<Walk>)
    ensures Confined(s, r)
    decreases fuel, 2, n - i
  {
    if i >= n then Ok(Walk(s, []))
    else
      match TocSector(s, SectorBase(lba, i), 0, found, lbaOld, diff, fuel)
      case Err(f) => Err(f)
      case Ok(w) =>
        var rest := TocSectors(w.image, lba, n, i + 1, found, lbaOld, diff, fuel);
        PrefixConfined(s, w, rest, Prefix(w.shifted, rest));
        Prefix(w.shifted, rest)
  }

  function TocSector(s: seq<byte>, base: nat, pos: nat, found: nat, lbaOld: u32, diff: int, fuel: nat): (r: Result<Walk>)
    ensures Confined(s, r)
    decreases fuel, 1, SectorSize - pos
  {
    if pos >= SectorSize then Ok(Walk(s, []))
    else if base + pos >= |s| then Err(OutOfRange)
    else if s[base + pos] == 0 then Ok(Walk(s, []))
    else if !RecordReadable(s, base + pos) then Err(OutOfRange)
    else
      match TocRecord(s, base + pos, found, lbaOld, diff, fuel)
      case Err(f) => Err(f)
      case Ok(w) =>
        var rest := TocSector(w.image, base, pos + s[base + pos] as int, found, lbaOld, diff, fuel);
        PrefixConfined(s, w, rest, Prefix(w.shifted, rest));
        Prefix(w.shifted, rest)
  }

  /** The first half of a record's visit: its location field moved when it
      should be, and the record listed as moved. */
  function MoveRecord(s: seq<byte>, o: nat, found: nat, lbaOld: u32, diff: int): (w: Walk)
    requires o + SizeField <= |s|
    ensures |w.image| == |s|
  {
    if ShouldShift(U32At(s, o + LbaField), o, found, lbaOld) then Walk(ShiftRecord(s, o, diff), [o])
    else Walk(s, [])
  }

  /** A record's location gains `diff`, in both copies, exactly when it lies
      past the old extent or shares its location and follows the replaced
      record; any other record, the replaced one included, is left as it is. */
  lemma MoveRecordShifts(s: seq<byte>, o: nat, found: nat, lbaOld: u32, diff: int)
    requires o + SizeField <= |s|
    ensures var lba := U32At(s, o + LbaField);
            var w := MoveRecord(s, o, found, lbaOld, diff);
            (ShouldShift(lba, o, found, lbaOld) <==> w.shifted == [o]) &&
            (ShouldShift(lba, o, found, lbaOld) ==>
               U32At(w.image, o + LbaField) == AddWrap(lba, diff) && BothEndianAgree(w.image, o + LbaField)) &&
            (!ShouldShift(lba, o, found, lbaOld) ==> w.image == s && w.shifted == [])
    ensures o == found && U32At(s, o + LbaField) == lbaOld ==> MoveRecord(s, o, found, lbaOld, diff).image == s
  {
  }

  lemma MoveRecordConfined(s: seq<byte>, o: nat, found: nat, lbaOld: u32, diff: int)
    requires o + SizeField <= |s|
    ensures Confined(s, Ok(MoveRecord(s, o, found, lbaOld, diff)))
  {
    if ShouldShift(U32At(s, o + LbaField), o, found, lbaOld) {
      ShiftRecordConfined(s, o, diff);
    }
  }

  /** One record: moved if it should be, then, unless it is "." or "..", walked
      into if it is a directory, at its location after the move. A record
      that should move is the first its visit lists as moved. */
  function TocRecord(s: seq<byte>, o: nat, found: nat, lbaOld: u32, diff: int, fuel: nat): (r: Result<Walk>)
    requires RecordReadable(s, o)
    ensures Confined(s, r)
    ensures r.Ok? && ShouldShift(U32At(s, o + LbaField), o, found, lbaOld) ==>
              |r.value.shifted| > 0 && r.value.shifted[0] == o
    decreases fuel, 0, 0
  {
    var m := MoveRecord(s, o, found, lbaOld, diff);
    MoveRecordConfined(s, o, found, lbaOld, diff);
    if IsDotEntry(NameString(RecordName(s, o))) || !IsDirectory(m.image[o + FlagsField]) then Ok(m)
    else if fuel == 0 then Err(TooDeep)
    else
      var sub := TocDir(m.image, U32At(m.image, o + LbaField), U32At(m.image, o + SizeField), found, lbaOld, diff, fuel - 1);
      PrefixConfined(s, m, sub, Prefix(m.shifted, sub));
      Prefix(m.shifted, sub)
  }

  // ---------------------------------------------------------------------
  // What the walk changes.

  /** Byte `k` lies in the location field (+2..+9) of one of the moved records. */
  ghost predicate Touched(shifted: seq<nat>, k: nat) {
    exists j :: 0 <= j < |shifted| && shifted[j] + LbaField <= k < shifted[j] + SizeField
  }

  lemma TouchedCat(a: seq<nat>, b: seq<nat>, k: nat)
    ensures Touched(a + b, k) <==> Touched(a, k) || Touched(b, k)
  {
    if Touched(a + b, k) {
      var j :| 0 <= j < |a + b| && (a + b)[j] + LbaField <= k < (a + b)[j] + SizeField;
      if j >= |a| {
        assert (a + b)[j] == b[j - |a|];
      }
    }
    if Touched(b, k) {
      var j :| 0 <= j < |b| && b[j] + LbaField <= k < b[j] + SizeField;
      assert (a + b)[j + |a|] == b[j];
    }
    if Touched(a, k) {
      var j :| 0 <= j < |a| && a[j] + LbaField <= k < a[j] + SizeField;
      assert (a + b)[j] == a[j];
    }
  }

  /** A walk keeps the image's length and changes no byte outside the
      location fields of the records it moved. */
  ghost predicate Confined(s: seq<byte>, r: Result<Walk>) {
    r.Ok? ==>
      |r.value.image| == |s| &&
      forall k {:trigger Touched(r.value.shifted, k)} ::
        0 <= k < |s| && !Touched(r.value.shifted, k) ==> r.value.image[k] == s[k]
  }

  /** Confinement composes along a walk. */
  lemma PrefixConfined(s: seq<byte>, w: Walk, r: Result<Walk>, whole: Result<Walk>)
    requires Confined(s, Ok(w)) && Confined(w.image, r) && whole == Prefix(w.shifted, r)
    ensures Confined(s, whole)
  {
    if r.Ok? {
      forall k | 0 <= k < |s| && !Touched(w.shifted + r.value.shifted, k)
        ensures r.value.image[k] == s[k]
      {
        TouchedCat(w.shifted, r.value.shifted, k);
      }
    }
  }

  lemma ShiftRecordConfined(s: seq<byte>, o: nat, diff: int)
    requires o + SizeField <= |s|
    ensures Confined(s, Ok(Walk(ShiftRecord(s, o, diff), [o])))
  {
    var r := ShiftRecord(s, o, diff);
    forall k | 0 <= k < |s| && !Touched([o], k)
      ensures r[k] == s[k]
    {
      assert [o][0] == o;
    }
  }

  /** A walk that moves no record leaves the image exactly as it was. */
  lemma TocDirNothingMovedIsIdentity(s: seq<byte>, lba: u32, len: u32, found: nat, lbaOld: u32, diff: int, fuel: nat)
    requires TocDir(s, lba, len, found, lbaOld, diff, fuel).Ok?
    requires TocDir(s, lba, len, found, lbaOld, diff, fuel).value.shifted == []
    ensures TocDir(s, lba, len, found, lbaOld, diff, fuel).value.image == s
  {
    var w := TocDir(s, lba, len, found, lbaOld, diff, fuel).value;
    forall k | 0 <= k < |s| ensures w.image[k] == s[k] {
      assert !Touched(w.shifted, k);
    }
  }

  // ---------------------------------------------------------------------
  // The methods.

  lemma PrefixNil(r: Result<Walk>)
    ensures Prefix([], r) == r
  {
    if r.Ok? {
      assert [] + r.value.shifted == r.value.shifted;
    }
  }

  lemma PrefixPrefix(a: seq<nat>, b: seq<nat>, r: Result<Walk>)
    ensures Prefix(a, Prefix(b, r)) == Prefix(a + b, r)
  {
    if r.Ok? {
      assert a + (b + r.value.shifted) == (a + b) + r.value.shifted;
    }
  }

  /** One step of the walk through a sector: the record at `pos`, then the
      rest of the sector from `next` in the image `t` that record left. */
  lemma TocSectorStep(s: seq<byte>, base: nat, pos: nat, found: nat, lbaOld: u32, diff: int, fuel: nat,
                      w: Walk, t: seq<byte>, next: nat)
    requires RecordHere(s, base, pos) && TocRecord(s, base + pos, found, lbaOld, diff, fuel) == Ok(w)
    requires t == w.image && next == pos + s[base + pos] as int
    ensures TocSector(s, base, pos, found, lbaOld, diff, fuel) == Prefix(w.shifted, TocSector(t, base, next, found, lbaOld, diff, fuel))
  {
    hide *;
    TocSectorUnfold(s, base, pos, found, lbaOld, diff, fuel);
  }

  lemma TocSectorUnfold(s: seq<byte>, base: nat, pos: nat, found: nat, lbaOld: u32, diff: int, fuel: nat)
    requires RecordHere(s, base, pos) && TocRecord(s, base + pos, found, lbaOld, diff, fuel).Ok?
    ensures var w := TocRecord(s, base + pos, found, lbaOld, diff, fuel).value;
            TocSector(s, base, pos, found, lbaOld, diff, fuel)
            == Prefix(w.shifted, TocSector(w.image, base, pos + s[base + pos] as int, found, lbaOld, diff, fuel))
  {
    hide TocRecord, TocDir, TocSectors, Prefix;
  }

  /** A walk known to continue as `whole`, which is `shifted` followed by
      `rest`, continues as `rest` once `shifted` is done. */
  lemma PrefixAdvance(done: seq<nat>, progress: seq<nat>, shifted: seq<nat>, whole: Result<Walk>, rest: Result<Walk>, goal: Result<Walk>)
    requires whole == Prefix(shifted, rest) && progress == done + shifted && Prefix(done, whole) == goal
    ensures Prefix(progress, rest) == goal
  {
    PrefixPrefix(done, shifted, rest);
  }

  /** `TOC(originalIso, lba, len, found, lbaOld, diff)` on the directory of
      `len` bytes at sector `lba`. */
  method TOC(iso: Image, lba: u32, len: u32, found: nat, lbaOld: u32, diff: int, fuel: nat) returns (ok: bool)
    modifies iso
    ensures ok <==> TocDir(old(iso.bytes), lba, len, found, lbaOld, diff, fuel).Ok?
    ensures ok ==> iso.bytes == TocDir(old(iso.bytes), lba, len, found, lbaOld, diff, fuel).value.image
    decreases fuel, 3
  {
    ghost var goal := TocDir(iso.bytes, lba, len, found, lbaOld, diff, fuel);
    ghost var done: seq<nat> := [];
    var totalSectors := SectorsFor(len);
    var i := 0;
    PrefixNil(goal);
    while i < totalSectors
      invariant 0 <= i <= totalSectors
      invariant Prefix(done, TocSectors(iso.bytes, lba, totalSectors, i, found, lbaOld, diff, fuel)) == goal
    {
      ghost var step := TocSector(iso.bytes, SectorBase(lba, i), 0, found, lbaOld, diff, fuel);
      var sectorOk := TocSectorWalk(iso, SectorBase(lba, i), found, lbaOld, diff, fuel);
      if !sectorOk {
        return false;
      }
      PrefixPrefix(done, step.value.shifted, TocSectors(iso.bytes, lba, totalSectors, i + 1, found, lbaOld, diff, fuel));
      done := done + step.value.shifted;
      i := i + 1;
    }
    return true;
  }

  /** `TOC`'s inner loop: the records of the sector at `base`, up to the
      first one whose length byte is zero. */
  method TocSectorWalk(iso: Image, base: nat, found: nat, lbaOld: u32, diff: int, fuel: nat) returns (ok: bool)
    modifies iso
    ensures ok <==> TocSector(old(iso.bytes), base, 0, found, lbaOld, diff, fuel).Ok?
    ensures ok ==> iso.bytes == TocSector(old(iso.bytes), base, 0, found, lbaOld, diff, fuel).value.image
    decreases fuel, 2
  {
    ghost var goal := TocSector(iso.bytes, base, 0, found, lbaOld, diff, fuel);
    ghost var done: seq<nat> := [];
    PrefixNil(goal);
    var pos := 0;
    while pos < SectorSize
      invariant Prefix(done, TocSector(iso.bytes, base, pos, found, lbaOld, diff, fuel)) == goal
      decreases SectorSize - pos
    {
      var o := base + pos;
      if o >= |iso.bytes| {
        return false;
      }
      // field size
      var nBytes := iso.bytes[o];
      if nBytes == 0 {
        break;
      }
      if o + NameField > |iso.bytes| || o + NameField + iso.bytes[o + NameLenField] as int > |iso.bytes| {
        return false;
      }
      var stepOk;
      stepOk, pos, done := TocSectorVisit(iso, base, pos, found, lbaOld, diff, fuel, done, goal);
      if !stepOk {
        return false;
      }
    }
    return true;
  }

  /** One turn of `TOC`'s inner loop: the record at `pos` visited, and the
      position of the next record. */
  method TocSectorVisit(iso: Image, base: nat, pos: nat, found: nat, lbaOld: u32, diff: int, fuel: nat,
                        ghost done: seq<nat>, ghost goal: Result<Walk>)
    returns (ok: bool, next: nat, ghost progress: seq<nat>)
    requires RecordHere(iso.bytes, base, pos)
    requires Prefix(done, TocSector(iso.bytes, base, pos, found, lbaOld, diff, fuel)) == goal
    modifies iso
    ensures next > pos
    ensures !ok ==> goal.Err?
    ensures ok ==> Prefix(progress, TocSector(iso.bytes, base, next, found, lbaOld, diff, fuel)) == goal
    decreases fuel, 1
  {
    ghost var before := iso.bytes;
    ghost var step := TocRecord(iso.bytes, base + pos, found, lbaOld, diff, fuel);
    progress := done;
    next := pos + iso.bytes[base + pos] as int;
    ok := TocRecordStep(iso, base + pos, found, lbaOld, diff, fuel);
    if ok {
      progress := done + step.value.shifted;
      TocSectorStep(before, base, pos, found, lbaOld, diff, fuel, step.value, iso.bytes, next);
      PrefixAdvance(done, progress, step.value.shifted, TocSector(before, base, pos, found, lbaOld, diff, fuel),
                    TocSector(iso.bytes, base, next, found, lbaOld, diff, fuel), goal);
    }
  }

  /** The body of `TOC`'s inner loop for the record at `o`. */
  method TocRecordStep(iso: Image, o: nat, found: nat, lbaOld: u32, diff: int, fuel: nat) returns (ok: bool)
    requires RecordReadable(iso.bytes, o)
    modifies iso
    ensures ok <==> TocRecord(old(iso.bytes), o, found, lbaOld, diff, fuel).Ok?
    ensures ok ==> iso.bytes == TocRecord(old(iso.bytes), o, found, lbaOld, diff, fuel).value.image
    decreases fuel, 0
  {
    ghost var s := iso.bytes;
    // name size
    var nChars := iso.bytes[o + NameLenField];
    var name := ReadName(iso, o + NameField, nChars as int);
    var newLba := MoveRecordStep(iso, o, found, lbaOld, diff);
    // check the name except for '.' and '..' entries
    if !IsDotEntry(name) && IsDirectory(iso.bytes[o + FlagsField]) {
      if fuel == 0 {
        return false;
      }
      var newLen := iso.ReadU32(o + SizeField);
      ok := TOC(iso, newLba, newLen, found, lbaOld, diff, fuel - 1);
      return;
    }
    return true;
  }

  /** The location update of `TOC`'s inner loop; answers the location the
      record has afterwards. */
  method MoveRecordStep(iso: Image, o: nat, found: nat, lbaOld: u32, diff: int) returns (newLba: u32)
    requires o + SizeField <= |iso.bytes|
    modifies iso
    ensures iso.bytes == MoveRecord(old(iso.bytes), o, found, lbaOld, diff).image
    ensures newLba == U32At(iso.bytes, o + LbaField)
  {
    // position
    newLba := iso.ReadU32(o + LbaField);
    if ShouldShift(newLba, o, found, lbaOld) {
      // update sector if needed
      newLba := AddWrap(newLba, diff);
      iso.WriteBothEndian(o + LbaField, newLba);
    }
  }
}
