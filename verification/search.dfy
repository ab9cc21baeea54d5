/** Path resolution over the directory tree: `Search` in
    UMDReplaceK/Program.cs:422-475, with the sector arithmetic and the
    matching of files as the code's comments and constants intend. */
module Navigator {
  import opened Bytes
  import opened Layout
  import opened Names
  import opened Outcomes
  import opened Buffer

  /** What a search yields: the byte offset of the matching directory record,
      nothing, or a failure. */
  datatype Lookup = Found(offset: nat) | NotFound | Failed(fault: Fault)

  /** The first of two searches in sequence: the second runs only when the
      first found nothing. */
  function Then(r: Lookup, rest: Lookup): Lookup {
    if r.NotFound? then rest else r
  }

  /** The identifier of the record at `o` as it appears in a path. */
  function EntryName(s: seq<byte>, o: nat): string
    requires RecordReadable(s, o)
  {
    StripVersion(NameString(RecordName(s, o)))
  }

  // ---------------------------------------------------------------------
  // The search, as a function: sector by sector, record by record, each
  // subdirectory searched before its own path is compared and before the
  // records that follow it.

  /** The search of the directory of `len` bytes at sector `lba`, whose own
      path is `path`. Whatever it returns is sound: a found record is readable
      and its path, which runs from `path` through some chain of directories
      to the record's identifier, matches the target; a failure is a read
      past the end of the image or a tree deeper than `fuel`. */
  function ScanDir(s: seq<byte>, target: string, path: string, lba: u32, len: u32, fuel: nat): (r: Lookup)
    ensures Sound(s, r, target, path)
    decreases fuel, 3, 0
  {
    ScanSectors(s, target, path, lba, SectorsFor(len), 0, fuel)
  }

  function ScanSectors(s: seq<byte>, target: string, path: string, lba: nat, n: nat, i: nat, fuel: nat): (r: Lookup)
    ensures Sound(s, r, target, path)
    decreases fuel, 2, n - i
  {
    if i >= n then NotFound
    else Then(ScanSector(s, target, path, SectorBase(lba, i), 0, fuel),
              ScanSectors(s, target, path, lba, n, i + 1, fuel))
  }

  /** There is a record at `pos` of the sector at `base`: the walk has not left
      the sector, its length byte is non-zero and the record can be read. */
  predicate RecordHere(s: seq<byte>, base: nat, pos: nat) {
    pos < SectorSize && base + pos < |s| && s[base + pos] != 0 && RecordReadable(s, base + pos)
  }

  function ScanSector(s: seq<byte>, target: string, path: string, base: nat, pos: nat, fuel: nat): (r: Lookup)
    ensures Sound(s, r, target, path)
    decreases fuel, 1, SectorSize - pos
  {
    if pos >= SectorSize then NotFound
    else if base + pos >= |s| then Failed(OutOfRange)
    else if s[base + pos] == 0 then NotFound
    else if !RecordReadable(s, base + pos) then Failed(OutOfRange)
    else Then(ScanRecord(s, target, path, base + pos, fuel),
              ScanSector(s, target, path, base, pos + s[base + pos] as int, fuel))
  }

  /** One record: "." and ".." are skipped, a directory is searched and then
      compared, a file is compared. A record found here is this one or one
      below it, so its path runs through this record's. */
  function ScanRecord(s: seq<byte>, target: string, path: string, o: nat, fuel: nat): (r: Lookup)
    requires RecordReadable(s, o)
    ensures Sound(s, r, target, path)
    ensures IsDotEntry(NameString(RecordName(s, o))) ==> r == NotFound
    decreases fuel, 0, 0
  {
    if IsDotEntry(NameString(RecordName(s, o))) then NotFound
    else
      var p := ChildPath(path, EntryName(s, o));
      var here := if EqualsIgnoreCase(target, p) then (MatchSplits(target, path, EntryName(s, o)); Found(o)) else NotFound;
      if IsDirectory(s[o + FlagsField]) then
        if fuel == 0 then Failed(TooDeep)
        else
          var sub := ScanDir(s, target, p, U32At(s, o + LbaField), U32At(s, o + SizeField), fuel - 1);
          if sub.Found? then (MatchUnderParent(target, path, EntryName(s, o), EntryName(s, sub.offset)); Then(sub, here))
          else Then(sub, here)
      else here
  }

  // ---------------------------------------------------------------------
  // Reference definition: every record of the tree with its path, in the
  // order of a depth-first walk (a directory's contents before the
  // directory itself).

  datatype Entry = Entry(offset: nat, path: string)

  function Cat(a: Result<seq<Entry>>, b: Result<seq<Entry>>): Result<seq<Entry>> {
    if a.Err? then a else if b.Err? then b else Ok(a.value + b.value)
  }

  function ListDir(s: seq<byte>, path: string, lba: u32, len: u32, fuel: nat): Result<seq<Entry>>
    decreases fuel, 3, 0
  {
    ListSectors(s, path, lba, SectorsFor(len), 0, fuel)
  }

  function ListSectors(s: seq<byte>, path: string, lba: nat, n: nat, i: nat, fuel: nat): Result<seq<Entry>>
    decreases fuel, 2, n - i
  {
    if i >= n then Ok([])
    else Cat(ListSector(s, path, SectorBase(lba, i), 0, fuel), ListSectors(s, path, lba, n, i + 1, fuel))
  }

  function ListSector(s: seq<byte>, path: string, base: nat, pos: nat, fuel: nat): Result<seq<Entry>>
    decreases fuel, 1, SectorSize - pos
  {
    if pos >= SectorSize then Ok([])
    else if base + pos >= |s| then Err(OutOfRange)
    else if s[base + pos] == 0 then Ok([])
    else if !RecordReadable(s, base + pos) then Err(OutOfRange)
    else Cat(ListRecord(s, path, base + pos, fuel), ListSector(s, path, base, pos + s[base + pos] as int, fuel))
  }

  function ListRecord(s: seq<byte>, path: string, o: nat, fuel: nat): Result<seq<Entry>>
    requires RecordReadable(s, o)
    decreases fuel, 0, 0
  {
    if IsDotEntry(NameString(RecordName(s, o))) then Ok([])
    else
      var p := ChildPath(path, EntryName(s, o));
      if IsDirectory(s[o + FlagsField]) then
        if fuel == 0 then Err(TooDeep)
        else Cat(ListDir(s, p, U32At(s, o + LbaField), U32At(s, o + SizeField), fuel - 1), Ok([Entry(o, p)]))
      else Ok([Entry(o, p)])
  }

  /** The first listed record whose path equals the target, ignoring case. */
  function FirstMatch(es: seq<Entry>, target: string): (r: Lookup)
    ensures r.Found? || r.NotFound?
    ensures r.NotFound? <==> forall k :: 0 <= k < |es| ==> !EqualsIgnoreCase(target, es[k].path)
    ensures r.Found? ==> exists k :: 0 <= k < |es| && es[k].offset == r.offset
                                  && EqualsIgnoreCase(target, es[k].path)
                                  && forall j :: 0 <= j < k ==> !EqualsIgnoreCase(target, es[j].path)
  {
    if es == [] then NotFound
    else if EqualsIgnoreCase(target, es[0].path) then Found(es[0].offset)
    else
      var r := FirstMatch(es[1..], target);
      assert forall k :: 1 <= k < |es| ==> es[k] == es[1..][k - 1];
      r
  }

  lemma {:induction false} FirstMatchCat(a: seq<Entry>, b: seq<Entry>, target: string)
    ensures FirstMatch(a + b, target) == Then(FirstMatch(a, target), FirstMatch(b, target))
  {
    if a == [] {
      assert a + b == b;
    } else {
      assert (a + b)[0] == a[0];
      assert (a + b)[1..] == a[1..] + b;
      FirstMatchCat(a[1..], b, target);
    }
  }

  /** A search result `r` agrees with a listing `l`: when the listing succeeds
      the search returns its first match, and the search reports "not found"
      only when the listing succeeds. */
  predicate Agrees(r: Lookup, l: Result<seq<Entry>>, target: string) {
    (l.Ok? ==> r == FirstMatch(l.value, target)) && (r.NotFound? ==> l.Ok?)
  }

  lemma AgreesCat(r1: Lookup, l1: Result<seq<Entry>>, r2: Lookup, l2: Result<seq<Entry>>, target: string)
    requires Agrees(r1, l1, target) && Agrees(r2, l2, target)
    ensures Agrees(Then(r1, r2), Cat(l1, l2), target)
  {
    if l1.Ok? && l2.Ok? {
      FirstMatchCat(l1.value, l2.value, target);
    }
  }

  /** The search returns the first record of the depth-first listing whose
      path matches, and reports "not found" only after listing the whole tree
      without a failure. */
  lemma {:induction false} ScanDirIsFirstMatch(s: seq<byte>, target: string, path: string, lba: u32, len: u32, fuel: nat)
    ensures ListDir(s, path, lba, len, fuel).Ok? ==>
              ScanDir(s, target, path, lba, len, fuel) == FirstMatch(ListDir(s, path, lba, len, fuel).value, target)
    ensures ScanDir(s, target, path, lba, len, fuel).NotFound? ==> ListDir(s, path, lba, len, fuel).Ok?
    decreases fuel, 3, 0
  {
    ScanSectorsIsFirstMatch(s, target, path, lba, SectorsFor(len), 0, fuel);
  }

  lemma {:induction false} ScanSectorsIsFirstMatch(s: seq<byte>, target: string, path: string, lba: nat, n: nat, i: nat, fuel: nat)
    ensures Agrees(ScanSectors(s, target, path, lba, n, i, fuel), ListSectors(s, path, lba, n, i, fuel), target)
    decreases fuel, 2, n - i
  {
    if i < n {
      var base := SectorBase(lba, i);
      ScanSectorIsFirstMatch(s, target, path, base, 0, fuel);
      ScanSectorsIsFirstMatch(s, target, path, lba, n, i + 1, fuel);
      AgreesCat(ScanSector(s, target, path, base, 0, fuel), ListSector(s, path, base, 0, fuel),
                ScanSectors(s, target, path, lba, n, i + 1, fuel), ListSectors(s, path, lba, n, i + 1, fuel), target);
    }
  }

  lemma {:induction false} ScanSectorIsFirstMatch(s: seq<byte>, target: string, path: string, base: nat, pos: nat, fuel: nat)
    ensures Agrees(ScanSector(s, target, path, base, pos, fuel), ListSector(s, path, base, pos, fuel), target)
    decreases fuel, 1, SectorSize - pos
  {
    hide ScanRecord, ListRecord, ScanDir, ListDir;
    if RecordHere(s, base, pos) {
      var next := pos + s[base + pos] as int;
      ScanRecordIsFirstMatch(s, target, path, base + pos, fuel);
      ScanSectorIsFirstMatch(s, target, path, base, next, fuel);
      AgreesCat(ScanRecord(s, target, path, base + pos, fuel), ListRecord(s, path, base + pos, fuel),
                ScanSector(s, target, path, base, next, fuel), ListSector(s, path, base, next, fuel), target);
    }
  }

  lemma {:induction false} ScanRecordIsFirstMatch(s: seq<byte>, target: string, path: string, o: nat, fuel: nat)
    requires RecordReadable(s, o)
    ensures Agrees(ScanRecord(s, target, path, o, fuel), ListRecord(s, path, o, fuel), target)
    decreases fuel, 0, 0
  {
    if !IsDotEntry(NameString(RecordName(s, o))) && IsDirectory(s[o + FlagsField]) && fuel > 0 {
      var p := ChildPath(path, EntryName(s, o));
      var lba, len := U32At(s, o + LbaField), U32At(s, o + SizeField);
      ScanDirIsFirstMatch(s, target, p, lba, len, fuel - 1);
      var here := if EqualsIgnoreCase(target, p) then Found(o) else NotFound;
      assert Agrees(here, Ok([Entry(o, p)]), target);
      AgreesCat(ScanDir(s, target, p, lba, len, fuel - 1), ListDir(s, p, lba, len, fuel - 1),
                here, Ok([Entry(o, p)]), target);
    }
  }

  /** `target` equals, ignoring case, a path of the form `path + "/" + … + "/" + name`. */
  predicate MatchesUnder(target: string, path: string, name: string) {
    |target| >= |path| + 1 + |name|
    && EqualsIgnoreCase(target[..|path| + 1], path + "/")
    && EqualsIgnoreCase(target[|target| - |name| - 1..], "/" + name)
  }

  /** A search result is sound when it is a readable record whose identifier
      ends the target under the searched directory's path, and a search fails
      only on a read past the end of the image or on a hierarchy too deep. */
  predicate Sound(s: seq<byte>, r: Lookup, target: string, path: string) {
    (r.Found? ==> RecordReadable(s, r.offset) && MatchesUnder(target, path, EntryName(s, r.offset))) &&
    (r.Failed? ==> r.fault == OutOfRange || r.fault == TooDeep)
  }

  lemma MatchSplits(target: string, path: string, name: string)
    requires EqualsIgnoreCase(target, ChildPath(path, name))
    ensures MatchesUnder(target, path, name)
  {
    var p := ChildPath(path, name);
    assert p[..|path| + 1] == path + "/";
    assert p[|p| - |name| - 1..] == "/" + name;
  }

  lemma MatchUnderParent(target: string, path: string, dir: string, name: string)
    requires MatchesUnder(target, ChildPath(path, dir), name)
    ensures MatchesUnder(target, path, name)
  {
    var p := ChildPath(path, dir);
    assert (p + "/")[..|path| + 1] == path + "/";
    assert target[..|path| + 1] == target[..|p| + 1][..|path| + 1];
  }

  // ---------------------------------------------------------------------
  // The search as the C# code runs it: loops over sectors and records,
  // recursion into subdirectories, early return.

  /** Builds the identifier one character at a time, as `name += ToChar(...)` does. */
  method ReadName(iso: Image, at: nat, n: nat) returns (name: string)
    requires at + n <= |iso.bytes|
    ensures name == NameString(iso.bytes[at..at + n])
  {
    name := "";
    var j := 0;
    while j < n
      invariant 0 <= j <= n
      invariant name == NameString(iso.bytes[at..at + j])
    {
      name := name + [ByteChar(iso.bytes[at + j])];
      j := j + 1;
    }
  }

  /** `Search(originalIso, fileName, path, lba, len)`: the offset of the first
      record, in search order, whose path matches `fileName`. Reads only. */
  method Search(iso: Image, fileName: string, path: string, lba: u32, len: u32, fuel: nat) returns (r: Lookup)
    ensures r == ScanDir(iso.bytes, fileName, path, lba, len, fuel)
    decreases fuel, 2
  {
    var totalSectors := SectorsFor(len);
    var i := 0;
    while i < totalSectors
      invariant 0 <= i <= totalSectors
      invariant ScanSectors(iso.bytes, fileName, path, lba, totalSectors, i, fuel) == ScanDir(iso.bytes, fileName, path, lba, len, fuel)
    {
      var found := SearchSector(iso, fileName, path, SectorBase(lba, i), fuel);
      if !found.NotFound? {
        return found;
      }
      i := i + 1;
    }
    return NotFound;
  }

  /** `Search`'s inner loop: the records of the sector at `base`, up to the
      first one whose length byte is zero. */
  method SearchSector(iso: Image, fileName: string, path: string, base: nat, fuel: nat) returns (r: Lookup)
    ensures r == ScanSector(iso.bytes, fileName, path, base, 0, fuel)
    decreases fuel, 1
  {
    hide ScanRecord, ScanDir;
    var position := 0;
    while position < SectorSize
      invariant ScanSector(iso.bytes, fileName, path, base, position, fuel) == ScanSector(iso.bytes, fileName, path, base, 0, fuel)
      decreases SectorSize - position
    {
      var o := base + position;
      if o >= |iso.bytes| {
        return Failed(OutOfRange);
      }
      // field size
      var nBytes := iso.bytes[o];
      if nBytes == 0 {
        break;
      }
      if o + NameField > |iso.bytes| || o + NameField + iso.bytes[o + NameLenField] as int > |iso.bytes| {
        return Failed(OutOfRange);
      }
      var here := SearchRecord(iso, fileName, path, o, fuel);
      ScanSectorStep(iso.bytes, fileName, path, base, position, fuel);
      if !here.NotFound? {
        return here;
      }
      position := position + nBytes as int;
    }
    return NotFound;
  }

  /** One step of the walk through a sector. */
  lemma ScanSectorStep(s: seq<byte>, target: string, path: string, base: nat, pos: nat, fuel: nat)
    requires RecordHere(s, base, pos)
    ensures ScanSector(s, target, path, base, pos, fuel)
            == Then(ScanRecord(s, target, path, base + pos, fuel),
                    ScanSector(s, target, path, base, pos + s[base + pos] as int, fuel))
  {
  }

  /** The body of `Search`'s inner loop for the record at `o`: "." and ".."
      are skipped, a directory is searched and then compared, a file is
      compared. */
  method SearchRecord(iso: Image, fileName: string, path: string, o: nat, fuel: nat) returns (r: Lookup)
    requires RecordReadable(iso.bytes, o)
    ensures r == ScanRecord(iso.bytes, fileName, path, o, fuel)
    decreases fuel, 0
  {
    var nChars := iso.bytes[o + NameLenField];
    var name := ReadName(iso, o + NameField, nChars as int);
    var stripped := StripVersion(name);
    if !IsDotEntry(name) {
      var newPath := ChildPath(path, stripped);
      if IsDirectory(iso.bytes[o + FlagsField]) {
        if fuel == 0 {
          return Failed(TooDeep);
        }
        var newLba := iso.ReadU32(o + LbaField);
        var newLen := iso.ReadU32(o + SizeField);
        var found := Search(iso, fileName, newPath, newLba, newLen, fuel - 1);
        if !found.NotFound? {
          return found;
        } else if EqualsIgnoreCase(fileName, newPath) {
          return Found(o);
        }
      } else if EqualsIgnoreCase(fileName, newPath) {
        return Found(o);
      }
    }
    return NotFound;
  }
}
