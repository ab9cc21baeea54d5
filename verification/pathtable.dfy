/** Path-table renumbering: `PathTable` in UMDReplaceK/Program.cs:477-512 and
    the loop over the four path tables at lines 328-341. A path-table record
    (section 9.4 of ECMA-119) holds its identifier length at +0 and the
    extent location of its directory, four bytes in the byte order of its
    table, at +2. */
module PathTables {
  import opened Bytes
  import opened Layout
  import opened Outcomes
  import opened Buffer

  /** Bytes one path-table record occupies: 8 plus the identifier length,
      padded to an even count. */
  function EntrySize(n: byte): (k: nat)
    ensures k >= 8 && k % 2 == 0
    ensures k == 8 + n as int || k == 9 + n as int
  {
    8 + n as int + n as int % 2
  }

  /** Entries `i` and `j > i` start at least 8 bytes apart, so the location
      fields (+2..+5) of different entries never overlap. */
  predicate Spaced(es: seq<nat>) {
    forall i, j :: 0 <= i < j < |es| ==> es[i] + 8 <= es[j]
  }

  /** The absolute offsets of the records of the table at `base`, walking from
      `pos` until `len` bytes are covered or a record of identifier length 0
      ends the table. */
  function TableEntries(s: seq<byte>, base: nat, len: nat, pos: nat): (r: Result<seq<nat>>)
    ensures r.Ok? ==> Spaced(r.value)
    ensures r.Ok? ==> forall j :: 0 <= j < |r.value| ==>
                        base + pos <= r.value[j] < base + len && r.value[j] + 6 <= |s| && s[r.value[j]] != 0
    decreases len - pos
  {
    if pos >= len then Ok([])
    else if base + pos >= |s| then Err(OutOfRange)
    else if s[base + pos] == 0 then Ok([])
    else if base + pos + 6 > |s| then Err(OutOfRange)
    else
      match TableEntries(s, base, len, pos + EntrySize(s[base + pos]))
      case Err(f) => Err(f)
      case Ok(rest) =>
        assert forall j :: 0 <= j < |rest| ==> base + pos + 8 <= rest[j];
        Ok([base + pos] + rest)
  }

  /** A table walk reads only the bytes from its current position on. */
  lemma {:induction false} TableEntriesFrame(s: seq<byte>, t: seq<byte>, base: nat, len: nat, pos: nat)
    requires |s| == |t|
    requires forall k :: base + pos <= k < |s| ==> s[k] == t[k]
    ensures TableEntries(s, base, len, pos) == TableEntries(t, base, len, pos)
    decreases len - pos
  {
    if pos < len && base + pos + 6 <= |s| && s[base + pos] != 0 {
      TableEntriesFrame(s, t, base, len, pos + EntrySize(s[base + pos]));
    }
  }

  // ---------------------------------------------------------------------
  // The renumbering of one location field.

  /** A four-byte location field read in its table's byte order. */
  function FieldLba(f: seq<byte>, big: bool): u32
    requires |f| == 4
  {
    if big then BE32(f) else LE32(f)
  }

  /** The location of the record at `e`, read in its table's byte order. */
  function TableLba(s: seq<byte>, e: nat, big: bool): u32
    requires e + 6 <= |s|
  {
    FieldLba(Word(s, e + 2), big)
  }

  /** A location after the replaced extent moves by `diff` sectors (in `uint`
      arithmetic); one at or before it stays. */
  function Renumbered(v: u32, lbaOld: u32, diff: int): (r: u32)
    ensures v <= lbaOld ==> r == v
    ensures v > lbaOld && 0 <= v + diff < U32_LIMIT ==> r == v + diff
    ensures v > lbaOld ==> (r - v - diff) % U32_LIMIT == 0
  {
    if v > lbaOld then AddWrap(v, diff) else v
  }

  /** The `uint` the C# code hands to `GetBytes` to store `n` in a table of
      the given byte order. */
  function Stored(n: u32, big: bool): u32 {
    if big then ChangeEndian(n) else n
  }

  /** A stored location reads back as itself in the table's byte order. */
  lemma StoredReadsBack(n: u32, big: bool)
    ensures FieldLba(Encode32(Stored(n, big)), big) == n
  {
    if big {
      ChangeEndianStoresBigEndian(n);
    } else {
      DecodeEncode(n);
    }
  }

  /** The new content of a location field: the location, read in the table's
      byte order, is shifted when it lies past `lbaOld` and written back in
      that order. */
  function NewField(f: seq<byte>, lbaOld: u32, diff: int, big: bool): (g: seq<byte>)
    requires |f| == 4
    ensures |g| == 4
    ensures FieldLba(g, big) == Renumbered(FieldLba(f, big), lbaOld, diff)
    ensures FieldLba(f, big) <= lbaOld ==> g == f
  {
    var v := FieldLba(f, big);
    if v > lbaOld then
      var n := AddWrap(v, diff);
      StoredReadsBack(n, big);
      Encode32(Stored(n, big))
    else f
  }

  // ---------------------------------------------------------------------
  // Rewriting the location fields of a table.

  /** The location field of the record at `e` renumbered. */
  function RewriteField(s: seq<byte>, e: nat, lbaOld: u32, diff: int, big: bool): (r: seq<byte>)
    requires e + 6 <= |s|
    ensures |r| == |s|
    ensures Word(r, e + 2) == NewField(Word(s, e + 2), lbaOld, diff, big)
    ensures forall k :: 0 <= k < |s| && !(e + 2 <= k < e + 6) ==> r[k] == s[k]
  {
    OverwriteWord(s, e + 2, NewField(Word(s, e + 2), lbaOld, diff, big));
    Overwrite(s, e + 2, NewField(Word(s, e + 2), lbaOld, diff, big))
  }

  /** Every record listed at `es` has its location field inside `n` bytes. */
  predicate Fits(es: seq<nat>, n: nat) {
    forall j :: 0 <= j < |es| ==> es[j] + 6 <= n
  }

  /** The location fields of the records at `es[i..]` renumbered, in order. */
  function RewriteFields(s: seq<byte>, es: seq<nat>, i: nat, lbaOld: u32, diff: int, big: bool): (r: seq<byte>)
    requires i <= |es| && Fits(es, |s|)
    ensures |r| == |s|
    decreases |es| - i
  {
    if i == |es| then s
    else RewriteFields(RewriteField(s, es[i], lbaOld, diff, big), es, i + 1, lbaOld, diff, big)
  }

  /** The loop of `PathTable` from table position `pos` on: it walks the
      records and renumbers each one's location field as it goes. */
  function RewriteTable(s: seq<byte>, base: nat, len: nat, pos: nat, lbaOld: u32, diff: int, big: bool): (r: Result<seq<byte>>)
    ensures r.Ok? ==> |r.value| == |s|
    decreases len - pos
  {
    if pos >= len then Ok(s)
    else if base + pos >= |s| then Err(OutOfRange)
    else if s[base + pos] == 0 then Ok(s)
    else if base + pos + 6 > |s| then Err(OutOfRange)
    else RewriteTable(RewriteField(s, base + pos, lbaOld, diff, big), base, len, pos + EntrySize(s[base + pos]), lbaOld, diff, big)
  }

  /** One step of the walk: the record at `base + pos` is renumbered and the
      walk goes on after it. */
  lemma RewriteTableStep(s: seq<byte>, base: nat, len: nat, pos: nat, lbaOld: u32, diff: int, big: bool)
    requires pos < len && base + pos + 6 <= |s| && s[base + pos] != 0
    ensures RewriteTable(s, base, len, pos, lbaOld, diff, big)
            == RewriteTable(RewriteField(s, base + pos, lbaOld, diff, big), base, len, pos + EntrySize(s[base + pos]), lbaOld, diff, big)
  {
  }

  /** Renumbering from record `i` on never touches a byte before that record's
      location field. */
  lemma {:induction false} RewriteFieldsBelow(s: seq<byte>, es: seq<nat>, i: nat, lbaOld: u32, diff: int, big: bool)
    requires Spaced(es) && i < |es| && Fits(es, |s|)
    ensures forall k :: 0 <= k < |s| && k < es[i] + 2 ==> RewriteFields(s, es, i, lbaOld, diff, big)[k] == s[k]
    decreases |es| - i
  {
    hide RewriteField;
    if i + 1 < |es| {
      RewriteFieldsBelow(RewriteField(s, es[i], lbaOld, diff, big), es, i + 1, lbaOld, diff, big);
    }
  }

  /** The location field of record `i` ends up renumbered. */
  lemma RewriteFieldsAtFirst(s: seq<byte>, es: seq<nat>, i: nat, lbaOld: u32, diff: int, big: bool)
    requires Spaced(es) && i < |es| && Fits(es, |s|)
    ensures Word(RewriteFields(s, es, i, lbaOld, diff, big), es[i] + 2) == NewField(Word(s, es[i] + 2), lbaOld, diff, big)
  {
    hide RewriteField;
    var e := es[i];
    var s1 := RewriteField(s, e, lbaOld, diff, big);
    var r := RewriteFields(s1, es, i + 1, lbaOld, diff, big);
    assert RewriteFields(s, es, i, lbaOld, diff, big) == r;
    if i + 1 < |es| {
      RewriteFieldsBelow(s1, es, i + 1, lbaOld, diff, big);
    }
    SameWord(r, s1, e + 2);
  }

  /** Each location field from record `i` on ends up as the renumbering of
      its original content. */
  lemma {:induction false} RewriteFieldsAt(s: seq<byte>, es: seq<nat>, i: nat, j: nat, lbaOld: u32, diff: int, big: bool)
    requires Spaced(es) && i <= j < |es| && Fits(es, |s|)
    ensures Word(RewriteFields(s, es, i, lbaOld, diff, big), es[j] + 2) == NewField(Word(s, es[j] + 2), lbaOld, diff, big)
    decreases j - i
  {
    hide RewriteField;
    if j == i {
      RewriteFieldsAtFirst(s, es, i, lbaOld, diff, big);
    } else {
      var s1 := RewriteField(s, es[i], lbaOld, diff, big);
      assert RewriteFields(s, es, i, lbaOld, diff, big) == RewriteFields(s1, es, i + 1, lbaOld, diff, big);
      RewriteFieldsAt(s1, es, i + 1, j, lbaOld, diff, big);
      SameWord(s1, s, es[j] + 2);
    }
  }

  /** Byte `k` lies in the location field of one of the records at `es`. */
  ghost predicate InField(es: seq<nat>, k: nat) {
    exists j :: 0 <= j < |es| && es[j] + 2 <= k < es[j] + 6
  }

  /** Every byte outside the listed location fields is left alone. */
  lemma {:induction false} RewriteFieldsFrame(s: seq<byte>, es: seq<nat>, i: nat, lbaOld: u32, diff: int, big: bool)
    requires i <= |es| && Fits(es, |s|)
    ensures forall k :: 0 <= k < |s| && !InField(es, k) ==> RewriteFields(s, es, i, lbaOld, diff, big)[k] == s[k]
    decreases |es| - i
  {
    hide RewriteField;
    if i < |es| {
      var s1 := RewriteField(s, es[i], lbaOld, diff, big);
      RewriteFieldsFrame(s1, es, i + 1, lbaOld, diff, big);
      forall k | 0 <= k < |s| && !InField(es, k)
        ensures RewriteFields(s, es, i, lbaOld, diff, big)[k] == s[k]
      {
        assert !(es[i] + 2 <= k < es[i] + 6);
      }
    }
  }

  /** Renumbering `[e] + rest` from record `i + 1` on is renumbering `rest`
      from record `i` on. */
  lemma {:induction false} RewriteFieldsShift(s: seq<byte>, e: nat, rest: seq<nat>, i: nat, lbaOld: u32, diff: int, big: bool)
    requires i <= |rest| && Fits([e] + rest, |s|)
    ensures Fits(rest, |s|)
    ensures RewriteFields(s, [e] + rest, i + 1, lbaOld, diff, big) == RewriteFields(s, rest, i, lbaOld, diff, big)
    decreases |rest| - i
  {
    hide RewriteField;
    assert forall j :: 0 <= j < |rest| ==> rest[j] == ([e] + rest)[j + 1];
    if i < |rest| {
      assert ([e] + rest)[i + 1] == rest[i];
      RewriteFieldsShift(RewriteField(s, rest[i], lbaOld, diff, big), e, rest, i + 1, lbaOld, diff, big);
    }
  }

  /** The walk fails exactly when the table cannot be read, and otherwise
      renumbers exactly the fields of the records the table lists. */
  lemma {:induction false} RewriteTableIsRewriteFields(s: seq<byte>, base: nat, len: nat, pos: nat, lbaOld: u32, diff: int, big: bool)
    ensures RewriteTable(s, base, len, pos, lbaOld, diff, big).Ok? <==> TableEntries(s, base, len, pos).Ok?
    ensures TableEntries(s, base, len, pos).Ok? ==>
              RewriteTable(s, base, len, pos, lbaOld, diff, big).value
              == RewriteFields(s, TableEntries(s, base, len, pos).value, 0, lbaOld, diff, big)
    decreases len - pos
  {
    hide RewriteField, Renumbered, TableIsBigEndian, U32At;
    if pos < len && base + pos + 6 <= |s| && s[base + pos] != 0 {
      var e := base + pos;
      var next := pos + EntrySize(s[e]);
      var s1 := RewriteField(s, e, lbaOld, diff, big);
      RewriteTableIsRewriteFields(s1, base, len, next, lbaOld, diff, big);
      TableEntriesFrame(s, s1, base, len, next);
      if TableEntries(s, base, len, pos).Ok? {
        var rest := TableEntries(s, base, len, next).value;
        var es := TableEntries(s, base, len, pos).value;
        assert es == [e] + rest;
        assert RewriteFields(s, es, 0, lbaOld, diff, big) == RewriteFields(s1, es, 1, lbaOld, diff, big);
        RewriteFieldsShift(s1, e, rest, 0, lbaOld, diff, big);
      }
    }
  }

  // ---------------------------------------------------------------------
  // What `PathTable` does to a readable table.

  /** Renumbering the listed records: each location, read in the table's
      byte order, gains `diff` exactly when it lies past `lbaOld`, and the
      field of a record at or before `lbaOld` keeps its bytes. */
  lemma RenumberFieldsAt(s: seq<byte>, es: seq<nat>, j: nat, lbaOld: u32, diff: int, big: bool, r: seq<byte>, e: nat)
    requires Spaced(es) && j < |es|
    requires Fits(es, |s|)
    requires r == RewriteFields(s, es, 0, lbaOld, diff, big) && e == es[j]
    ensures e + 6 <= |r| && TableLba(r, e, big) == Renumbered(TableLba(s, e, big), lbaOld, diff)
    ensures TableLba(s, e, big) <= lbaOld ==> Word(r, e + 2) == Word(s, e + 2)
  {
    hide RewriteFields, Overwrite;
    RewriteFieldsAt(s, es, 0, j, lbaOld, diff, big);
  }

  /** `PathTable` on a readable table succeeds and keeps the image's length. */
  lemma RenumberTableSucceeds(s: seq<byte>, base: nat, len: nat, lbaOld: u32, diff: int, big: bool)
    requires TableEntries(s, base, len, 0).Ok?
    ensures RewriteTable(s, base, len, 0, lbaOld, diff, big).Ok?
    ensures |RewriteTable(s, base, len, 0, lbaOld, diff, big).value| == |s|
  {
    RewriteTableIsRewriteFields(s, base, len, 0, lbaOld, diff, big);
  }

  /** What `PathTable` does to each record of a readable table: its location,
      read in the table's byte order, gains `diff` exactly when it lies past
      `lbaOld`, and a record at or before `lbaOld` keeps its bytes. */
  lemma RenumberTableAt(s: seq<byte>, base: nat, len: nat, lbaOld: u32, diff: int, big: bool, j: nat)
    requires TableEntries(s, base, len, 0).Ok? && j < |TableEntries(s, base, len, 0).value|
    ensures RewriteTable(s, base, len, 0, lbaOld, diff, big).Ok?
    ensures var e := TableEntries(s, base, len, 0).value[j];
            var r := RewriteTable(s, base, len, 0, lbaOld, diff, big).value;
            e + 6 <= |r| && TableLba(r, e, big) == Renumbered(TableLba(s, e, big), lbaOld, diff) &&
            (TableLba(s, e, big) <= lbaOld ==> Word(r, e + 2) == Word(s, e + 2))
  {
    hide RewriteTable, RewriteFields, RewriteField, NewField, Overwrite;
    var es := TableEntries(s, base, len, 0).value;
    RewriteTableIsRewriteFields(s, base, len, 0, lbaOld, diff, big);
    RenumberFieldsAt(s, es, j, lbaOld, diff, big, RewriteTable(s, base, len, 0, lbaOld, diff, big).value, es[j]);
  }

  /** `PathTable` changes no byte outside the location fields of the records
      of the table. */
  lemma RenumberTableFrame(s: seq<byte>, base: nat, len: nat, lbaOld: u32, diff: int, big: bool)
    requires TableEntries(s, base, len, 0).Ok?
    ensures RewriteTable(s, base, len, 0, lbaOld, diff, big).Ok?
    ensures var es := TableEntries(s, base, len, 0).value;
            var r := RewriteTable(s, base, len, 0, lbaOld, diff, big).value;
            |r| == |s| && forall k :: 0 <= k < |s| && !InField(es, k) ==> r[k] == s[k]
  {
    RewriteTableIsRewriteFields(s, base, len, 0, lbaOld, diff, big);
    RewriteFieldsFrame(s, TableEntries(s, base, len, 0).value, 0, lbaOld, diff, big);
  }

  /** The body of the loop in `PathTable`: the location of the record at `e`
      is read in the table's byte order and, when it lies past `lbaOld`,
      shifted by `diff` and written back in that order. */
  method RenumberRecord(iso: Image, e: nat, lbaOld: u32, diff: int, sw: bool)
    requires e + 6 <= |iso.bytes|
    modifies iso
    ensures iso.bytes == RewriteField(old(iso.bytes), e, lbaOld, diff, sw)
  {
    ghost var f := Word(iso.bytes, e + 2);
    // position
    var newLba := iso.ReadU32(e + 2);
    if sw {
      newLba := ChangeEndian(newLba);
      ChangeEndianReadsBigEndian(f);
    }
    assert newLba == FieldLba(f, sw);
    // update needed
    if newLba > lbaOld {
      newLba := AddWrap(newLba, diff);
      if sw {
        newLba := ChangeEndian(newLba);
      }
      iso.WriteU32(e + 2, newLba);
    } else {
      assert NewField(f, lbaOld, diff, sw) == f;
      assert iso.bytes == Overwrite(iso.bytes, e + 2, f);
    }
  }

  /** `PathTable(originalIso, lba, len, lbaOld, diff, sw)`: renumbers the
      table of `len` bytes at sector `lba`; `sw` says the table is big-endian. */
  method PathTable(iso: Image, lba: u32, len: u32, lbaOld: u32, diff: int, sw: bool) returns (ok: bool)
    modifies iso
    ensures ok <==> RewriteTable(old(iso.bytes), lba * SectorSize, len, 0, lbaOld, diff, sw).Ok?
    ensures ok ==> iso.bytes == RewriteTable(old(iso.bytes), lba * SectorSize, len, 0, lbaOld, diff, sw).value
  {
    hide RewriteField;
    var base := lba * SectorSize;
    var pos := 0;
    while pos < len
      invariant RewriteTable(iso.bytes, base, len, pos, lbaOld, diff, sw)
                == RewriteTable(old(iso.bytes), base, len, 0, lbaOld, diff, sw)
      decreases len - pos
    {
      var e := base + pos;
      if e >= |iso.bytes| {
        return false;
      }
      // field size
      var nBytes := iso.bytes[e];
      if nBytes == 0 {
        break;
      }
      if e + 6 > |iso.bytes| {
        return false;
      }
      RewriteTableStep(iso.bytes, base, len, pos, lbaOld, diff, sw);
      RenumberRecord(iso, e, lbaOld, diff, sw);
      pos := pos + EntrySize(nBytes);
    }
    return true;
  }

  /** Tables 2 and 3 (the type M tables, location fields at 148 and 152) are
      big-endian, which is what `i & 2` selects. */
  predicate TableIsBigEndian(i: nat): (big: bool)
    ensures i < 4 ==> (big <==> TablePathLbaField + 4 * i >= 148)
  {
    (i / 2) % 2 == 1
  }

  /** The location `UpdateTables` hands to the walk of table `i` is the
      location field read little-endian for the type L tables (at 140 and
      144) and big-endian for the type M tables (at 148 and 152). */
  lemma TableLocationByType(s: seq<byte>, i: nat)
    requires i < 4 && Descriptor(TablePathLbaField + 4 * i) + 4 <= |s|
    ensures var f := Descriptor(TablePathLbaField + 4 * i);
            var raw := U32At(s, f);
            (if TableIsBigEndian(i) then ChangeEndian(raw) else raw)
              == (if TablePathLbaField + 4 * i >= 148 then U32BEAt(s, f) else U32At(s, f))
  {
    var f := Descriptor(TablePathLbaField + 4 * i);
    if TableIsBigEndian(i) {
      ChangeEndianReadsBigEndian(Word(s, f));
    }
  }

  /** The location of table `i`, read in the byte order of its type, as the
      loop at lines 328-341 hands it to `PathTable`. */
  function TableLocation(s: seq<byte>, i: nat): u32
    requires Descriptor(TablePathLbaField + 4 * i) + 4 <= |s|
  {
    var raw := U32At(s, Descriptor(TablePathLbaField + 4 * i));
    if TableIsBigEndian(i) then ChangeEndian(raw) else raw
  }

  /** The loop over the four path-table location fields of the primary volume
      descriptor, from table `i` on; a location of 0 means the table is absent. */
  function UpdateTables(s: seq<byte>, lbaOld: u32, diff: int, i: nat): (r: Result<seq<byte>>)
    ensures r.Ok? ==> |r.value| == |s|
    decreases 4 - i
  {
    if i >= 4 then Ok(s)
    else if Descriptor(TablePathLbaField + 4 * i) + 4 > |s| then Err(OutOfRange)
    else
      var tblLen := U32At(s, Descriptor(TablePathLenField));
      if U32At(s, Descriptor(TablePathLbaField + 4 * i)) == 0 then UpdateTables(s, lbaOld, diff, i + 1)
      else
        match RewriteTable(s, TableLocation(s, i) * SectorSize, tblLen, 0, lbaOld, diff, TableIsBigEndian(i))
        case Err(f) => Err(f)
        case Ok(t) => UpdateTables(t, lbaOld, diff, i + 1)
  }

  // ---------------------------------------------------------------------
  // What the loop over the four tables does, for tables that lie apart.

  /** The descriptor holds the path table size and all four locations. */
  predicate DescriptorReadable(s: seq<byte>) {
    Descriptor(TablePathLbaField + 16) <= |s|
  }

  /** Table `i` is present: its location field is not 0. */
  predicate Present(s: seq<byte>, i: nat)
    requires i < 4 && DescriptorReadable(s)
  {
    U32At(s, Descriptor(TablePathLbaField + 4 * i)) != 0
  }

  /** The records of table `i`, as its walk lists them. */
  function Entries(s: seq<byte>, i: nat): Result<seq<nat>>
    requires i < 4 && DescriptorReadable(s)
  {
    TableEntries(s, TableLocation(s, i) * SectorSize, U32At(s, Descriptor(TablePathLenField)), 0)
  }

  /** The bytes the walk of table `i` reads or writes, from its start up to
      the end of the location field of a record starting in its last byte. */
  function RegionStart(s: seq<byte>, i: nat): nat
    requires i < 4 && DescriptorReadable(s)
  {
    TableLocation(s, i) * SectorSize
  }

  function RegionEnd(s: seq<byte>, i: nat): nat
    requires i < 4 && DescriptorReadable(s)
  {
    RegionStart(s, i) + U32At(s, Descriptor(TablePathLenField)) + 6
  }

  predicate InRegion(s: seq<byte>, i: nat, k: nat)
    requires i < 4 && DescriptorReadable(s)
  {
    RegionStart(s, i) <= k < RegionEnd(s, i)
  }

  /** Byte `k` is one of the descriptor fields the loop reads (132..155). */
  predicate InTableFields(k: nat) {
    Descriptor(TablePathLenField) <= k < Descriptor(TablePathLbaField + 16)
  }

  /** The present tables can all be walked, and neither overlap one another
      nor the descriptor fields that locate them. */
  predicate TablesApart(s: seq<byte>)
    requires DescriptorReadable(s)
  {
    (forall i :: 0 <= i < 4 && Present(s, i) ==> Entries(s, i).Ok?) &&
    (forall i :: 0 <= i < 4 && Present(s, i) ==>
       RegionEnd(s, i) <= Descriptor(TablePathLenField) || Descriptor(TablePathLbaField + 16) <= RegionStart(s, i)) &&
    (forall i, j :: 0 <= i < j < 4 && Present(s, i) && Present(s, j) ==>
       RegionEnd(s, i) <= RegionStart(s, j) || RegionEnd(s, j) <= RegionStart(s, i))
  }

  /** Byte `k` is a location field of a record of one of the present tables
      before table `n`. */
  ghost predicate Renumberable(s: seq<byte>, n: nat, k: nat)
    requires DescriptorReadable(s)
    decreases n
  {
    n > 0 &&
    (Renumberable(s, n - 1, k) ||
     (n - 1 < 4 && Present(s, n - 1) && Entries(s, n - 1).Ok? && InField(Entries(s, n - 1).value, k)))
  }

  /** `t` is `s` with the tables before `n` renumbered: no byte outside their
      records' location fields differs, and every such location, read in its
      table's byte order, gains `diff` exactly when it lies past `lbaOld`. */
  ghost predicate Settled(s: seq<byte>, t: seq<byte>, lbaOld: u32, diff: int, n: nat)
    requires DescriptorReadable(s) && TablesApart(s)
  {
    |t| == |s| && SettledFrame(s, t, n) && SettledFields(s, t, lbaOld, diff, n)
  }

  ghost predicate SettledFrame(s: seq<byte>, t: seq<byte>, n: nat)
    requires DescriptorReadable(s) && |t| == |s|
  {
    forall k :: 0 <= k < |s| && !Renumberable(s, n, k) ==> t[k] == s[k]
  }

  ghost predicate SettledFields(s: seq<byte>, t: seq<byte>, lbaOld: u32, diff: int, n: nat)
    requires DescriptorReadable(s) && TablesApart(s) && |t| == |s|
  {
    forall i, j :: 0 <= i < n && i < 4 && Present(s, i) && 0 <= j < |Entries(s, i).value| ==>
      TableLba(t, Entries(s, i).value[j], TableIsBigEndian(i))
      == Renumbered(TableLba(s, Entries(s, i).value[j], TableIsBigEndian(i)), lbaOld, diff)
  }

  /** A table walk reads only the table's own bytes. */
  lemma {:induction false} TableEntriesWindow(s: seq<byte>, t: seq<byte>, base: nat, len: nat, pos: nat)
    requires |s| == |t|
    requires forall k :: base + pos <= k < base + len && k < |s| ==> s[k] == t[k]
    ensures TableEntries(s, base, len, pos) == TableEntries(t, base, len, pos)
    decreases len - pos
  {
    if pos < len && base + pos < |s| && s[base + pos] != 0 && base + pos + 6 <= |s| {
      TableEntriesWindow(s, t, base, len, pos + EntrySize(s[base + pos]));
    }
  }

  /** A location field of a record of table `i` lies in that table's region. */
  lemma FieldInRegion(s: seq<byte>, i: nat, k: nat)
    requires i < 4 && DescriptorReadable(s) && Entries(s, i).Ok? && InField(Entries(s, i).value, k)
    ensures InRegion(s, i, k)
  {
  }

  /** A byte outside the regions of the present tables before `n` is no
      location field of theirs. */
  lemma {:induction false} NotRenumberable(s: seq<byte>, n: nat, k: nat)
    requires DescriptorReadable(s)
    requires forall i :: 0 <= i < n && i < 4 && Present(s, i) ==> !InRegion(s, i, k)
    ensures !Renumberable(s, n, k)
  {
    if n > 0 {
      NotRenumberable(s, n - 1, k);
      if n - 1 < 4 && Present(s, n - 1) && Entries(s, n - 1).Ok? && InField(Entries(s, n - 1).value, k) {
        FieldInRegion(s, n - 1, k);
      }
    }
  }

  /** Each present table, walked in turn, finds the records it would find in
      the image before the loop, and the loop goes on from the image its walk
      leaves. */
  lemma {:induction false} UpdateTablesFrom(s: seq<byte>, t: seq<byte>, lbaOld: u32, diff: int, n: nat)
    requires n <= 4 && DescriptorReadable(s) && TablesApart(s)
    requires Settled(s, t, lbaOld, diff, n)
    ensures UpdateTables(t, lbaOld, diff, n).Ok?
    ensures Settled(s, UpdateTables(t, lbaOld, diff, n).value, lbaOld, diff, 4)
    decreases 4 - n
  {
    if n < 4 {
      hide Settled, SettledFrame, SettledFields, TablesApart, RewriteTable, TableEntries, Entries, U32At;
      DescriptorKept(s, t, lbaOld, diff, n);
      if !Present(s, n) {
        SettledSkip(s, t, lbaOld, diff, n);
        UpdateTablesFrom(s, t, lbaOld, diff, n + 1);
      } else {
        var big := TableIsBigEndian(n);
        var base := RegionStart(s, n);
        var len := U32At(s, Descriptor(TablePathLenField));
        TableKept(s, t, lbaOld, diff, n);
        RenumberTableSucceeds(t, base, len, lbaOld, diff, big);
        var t2 := RewriteTable(t, base, len, 0, lbaOld, diff, big).value;
        SettledStep(s, t, t2, lbaOld, diff, n);
        UpdateTablesFrom(s, t2, lbaOld, diff, n + 1);
      }
    }
  }

  /** The descriptor fields the loop reads are no location field of a
      renumbered record, so they read as before the loop. */
  lemma DescriptorKept(s: seq<byte>, t: seq<byte>, lbaOld: u32, diff: int, n: nat)
    requires n < 4 && DescriptorReadable(s) && TablesApart(s)
    requires Settled(s, t, lbaOld, diff, n)
    ensures U32At(t, Descriptor(TablePathLenField)) == U32At(s, Descriptor(TablePathLenField))
    ensures U32At(t, Descriptor(TablePathLbaField + 4 * n)) == U32At(s, Descriptor(TablePathLbaField + 4 * n))
  {
    hide SettledFields, Entries;
    forall k: nat | InTableFields(k) ensures t[k] == s[k] {
      NotRenumberable(s, n, k);
    }
    SameWord(t, s, Descriptor(TablePathLenField));
    SameWord(t, s, Descriptor(TablePathLbaField + 4 * n));
  }

  /** The bytes of table `n` read as before the loop, so its walk lists the
      same records. */
  lemma TableKept(s: seq<byte>, t: seq<byte>, lbaOld: u32, diff: int, n: nat)
    requires n < 4 && DescriptorReadable(s) && TablesApart(s) && Present(s, n)
    requires Settled(s, t, lbaOld, diff, n)
    ensures TableEntries(t, RegionStart(s, n), U32At(s, Descriptor(TablePathLenField)), 0) == Entries(s, n)
  {
    hide SettledFields, TableEntries, U32At;
    forall k: nat | InRegion(s, n, k) && k < |s| ensures t[k] == s[k] {
      NotRenumberable(s, n, k);
    }
    TableEntriesWindow(t, s, RegionStart(s, n), U32At(s, Descriptor(TablePathLenField)), 0);
  }

  /** An absent table is skipped. */
  lemma SettledSkip(s: seq<byte>, t: seq<byte>, lbaOld: u32, diff: int, n: nat)
    requires n < 4 && DescriptorReadable(s) && TablesApart(s) && !Present(s, n)
    requires Settled(s, t, lbaOld, diff, n)
    ensures Settled(s, t, lbaOld, diff, n + 1)
  {
    hide TableEntries, TableLba, Renumbered, Entries;
    assert forall k :: Renumberable(s, n + 1, k) == Renumberable(s, n, k);
  }

  /** Walking present table `n` over an image settled up to `n` settles it up
      to `n + 1`. */
  lemma SettledStep(s: seq<byte>, t: seq<byte>, t2: seq<byte>, lbaOld: u32, diff: int, n: nat)
    requires n < 4 && DescriptorReadable(s) && TablesApart(s) && Present(s, n)
    requires Settled(s, t, lbaOld, diff, n)
    requires TableEntries(t, RegionStart(s, n), U32At(s, Descriptor(TablePathLenField)), 0) == Entries(s, n)
    requires RewriteTable(t, RegionStart(s, n), U32At(s, Descriptor(TablePathLenField)), 0, lbaOld, diff, TableIsBigEndian(n))
             == Ok(t2)
    ensures Settled(s, t2, lbaOld, diff, n + 1)
  {
    var big := TableIsBigEndian(n);
    var base := RegionStart(s, n);
    var len := U32At(s, Descriptor(TablePathLenField));
    RenumberTableFrame(t, base, len, lbaOld, diff, big);
    SettledFrameStep(s, t, t2, n);
    SettledFieldsStep(s, t, t2, lbaOld, diff, n);
  }

  lemma SettledFrameStep(s: seq<byte>, t: seq<byte>, t2: seq<byte>, n: nat)
    requires n < 4 && DescriptorReadable(s) && TablesApart(s) && Present(s, n)
    requires |t| == |s| == |t2| && SettledFrame(s, t, n)
    requires forall k :: 0 <= k < |s| && !InField(Entries(s, n).value, k) ==> t2[k] == t[k]
    ensures SettledFrame(s, t2, n + 1)
  {
    assert Entries(s, n).Ok?;
    hide TableEntries, Entries, TablesApart;
    forall k | 0 <= k < |s| && !Renumberable(s, n + 1, k) ensures t2[k] == s[k] {
      assert !InField(Entries(s, n).value, k);
    }
  }

  lemma SettledFieldsStep(s: seq<byte>, t: seq<byte>, t2: seq<byte>, lbaOld: u32, diff: int, n: nat)
    requires n < 4 && DescriptorReadable(s) && TablesApart(s) && Present(s, n)
    requires Settled(s, t, lbaOld, diff, n) && |t2| == |s|
    requires TableEntries(t, RegionStart(s, n), U32At(s, Descriptor(TablePathLenField)), 0) == Entries(s, n)
    requires RewriteTable(t, RegionStart(s, n), U32At(s, Descriptor(TablePathLenField)), 0, lbaOld, diff, TableIsBigEndian(n))
             == Ok(t2)
    requires forall k :: 0 <= k < |s| && !InField(Entries(s, n).value, k) ==> t2[k] == t[k]
    ensures SettledFields(s, t2, lbaOld, diff, n + 1)
  {
    var big := TableIsBigEndian(n);
    var base := RegionStart(s, n);
    var len := U32At(s, Descriptor(TablePathLenField));
    hide RewriteTable, TableEntries, Renumbered, TableLba, Entries, SettledFrame, U32At;
    forall i, j | 0 <= i < n + 1 && i < 4 && Present(s, i) && 0 <= j < |Entries(s, i).value|
      ensures TableLba(t2, Entries(s, i).value[j], TableIsBigEndian(i))
              == Renumbered(TableLba(s, Entries(s, i).value[j], TableIsBigEndian(i)), lbaOld, diff)
    {
      if i < n {
        EarlierTableKept(s, t, t2, lbaOld, diff, n, i, j);
      } else {
        RenumberTableAt(t, base, len, lbaOld, diff, big, j);
        CurrentTableFresh(s, t, lbaOld, diff, n, j);
      }
    }
  }

  /** The walk of table `n` leaves the location fields of an earlier table alone. */
  lemma EarlierTableKept(s: seq<byte>, t: seq<byte>, t2: seq<byte>, lbaOld: u32, diff: int, n: nat, i: nat, j: nat)
    requires n < 4 && DescriptorReadable(s) && TablesApart(s) && Present(s, n)
    requires i < n && Present(s, i) && j < |Entries(s, i).value|
    requires |t| == |s| && |t2| == |s|
    requires forall k :: 0 <= k < |s| && !InField(Entries(s, n).value, k) ==> t2[k] == t[k]
    ensures TableLba(t2, Entries(s, i).value[j], TableIsBigEndian(i)) == TableLba(t, Entries(s, i).value[j], TableIsBigEndian(i))
  {
    hide TableEntries;
    var e := Entries(s, i).value[j];
    forall k | e + 2 <= k < e + 6 ensures t2[k] == t[k] {
      assert InField(Entries(s, i).value, k);
      FieldInRegion(s, i, k);
      if InField(Entries(s, n).value, k) {
        FieldInRegion(s, n, k);
        assert false;
      }
    }
    SameWord(t2, t, e + 2);
  }

  /** Before its walk, the location fields of table `n` hold their values
      from before the loop. */
  lemma CurrentTableFresh(s: seq<byte>, t: seq<byte>, lbaOld: u32, diff: int, n: nat, j: nat)
    requires n < 4 && DescriptorReadable(s) && TablesApart(s) && Present(s, n)
    requires Settled(s, t, lbaOld, diff, n) && j < |Entries(s, n).value|
    ensures TableLba(t, Entries(s, n).value[j], TableIsBigEndian(n)) == TableLba(s, Entries(s, n).value[j], TableIsBigEndian(n))
  {
    hide TableEntries, Renumbered;
    var e := Entries(s, n).value[j];
    forall k | e + 2 <= k < e + 6 ensures t[k] == s[k] {
      assert InField(Entries(s, n).value, k);
      FieldInRegion(s, n, k);
      NotRenumberable(s, n, k);
    }
    SameWord(t, s, e + 2);
  }

  /** The loop over the four tables, for tables that can be walked and lie
      apart: it succeeds, a table whose location field is 0 is skipped, every
      record of a present table has its location, read in its table's byte
      order, moved by `diff` exactly when it lies past `lbaOld`, and no other
      byte changes. */
  lemma UpdateTablesRenumbers(s: seq<byte>, lbaOld: u32, diff: int)
    requires DescriptorReadable(s) && TablesApart(s)
    ensures UpdateTables(s, lbaOld, diff, 0).Ok?
    ensures var r := UpdateTables(s, lbaOld, diff, 0).value;
            |r| == |s| &&
            (forall k :: 0 <= k < |s| && !Renumberable(s, 4, k) ==> r[k] == s[k]) &&
            (forall i, j :: 0 <= i < 4 && Present(s, i) && 0 <= j < |Entries(s, i).value| ==>
               TableLba(r, Entries(s, i).value[j], TableIsBigEndian(i))
               == Renumbered(TableLba(s, Entries(s, i).value[j], TableIsBigEndian(i)), lbaOld, diff))
  {
    UpdateTablesFrom(s, s, lbaOld, diff, 0);
  }

  /** Lines 328-341: every present path table is renumbered in its own byte order. */
  method UpdatePathTables(iso: Image, lbaOld: u32, diff: int) returns (ok: bool)
    modifies iso
    ensures ok <==> UpdateTables(old(iso.bytes), lbaOld, diff, 0).Ok?
    ensures ok ==> iso.bytes == UpdateTables(old(iso.bytes), lbaOld, diff, 0).value
  {
    var i := 0;
    while i < 4
      invariant 0 <= i <= 4
      invariant UpdateTables(iso.bytes, lbaOld, diff, i) == UpdateTables(old(iso.bytes), lbaOld, diff, 0)
    {
      if Descriptor(TablePathLbaField + 4 * i) + 4 > |iso.bytes| {
        return false;
      }
      var tblLen := iso.ReadU32(Descriptor(TablePathLenField));
      var tblLba := iso.ReadU32(Descriptor(TablePathLbaField + 4 * i));
      if tblLba != 0 {
        var big := TableIsBigEndian(i);
        if big {
          tblLba := ChangeEndian(tblLba);
        }
        var done := PathTable(iso, tblLba, tblLen, lbaOld, diff, big);
        if !done {
          return false;
        }
      }
      i := i + 1;
    }
    return true;
  }
}
