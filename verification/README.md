# UMDReplaceK in Dafny

UMDReplaceK replaces one file inside a PSP UMD disc image: an ISO 9660 (ECMA-119)
image of 2048-byte mode-0 sectors that the tool holds in memory as one `List<byte>`.
The replacement works in several steps:

1. The tool reads the volume space size and the root directory from the primary
   volume descriptor in sector 16.
2. It looks up the file by its path (`Search`).
3. It cuts the old extent out of the image and puts the new contents, padded to
   whole sectors, in its place.
4. It rewrites the file's data length in both byte orders.
5. When the file's sector count changed, it rewrites the volume space size.
6. Also when the sector count changed, it moves every location after the old
   extent by `diff` sectors in each of the four path tables (`PathTable`).
7. In all cases it moves those same locations in every directory record of the
   tree (`TOC`).

Most numbers are both-byte fields (section 7.3.3 of ECMA-119): the value
little-endian, then the same value big-endian, which the code writes as
`ChangeEndian(v)` stored little-endian.

The model has these modules:

- `Bytes`: 32-bit values and their four-byte encodings, `ChangeEndian`, and
  `uint` wrap-around.
- `Layout`: sector and field offsets, and the splice and overwrite edits.
- `Names`: identifiers and paths.
- `Buffer`: the image, a class whose `bytes` the edits reassign.
- `Navigator`: `Search`.
- `PathTables`: `PathTable`, and the loop over the four tables.
- `Toc`: `TOC`.
- `Replacement`: the body of `Replace` between reading the two files and
  writing the image back.
- `Findings`: the places where the code does not do what it evidently means.

Each C# routine that loops or edits the buffer is a method. Each method is
proved equal to a function on `seq<byte>`, and the properties are proved as
lemmas about those functions. An exception the C# code would raise on a read
or an edit past the end of the buffer becomes an `Err` result.

The model follows what the comments, the constants and ECMA-119 show the code
means, which differs from the letter of the code in the places listed under
"## Findings":

- Byte offsets are `LBA * 2048 + position`: in `Search` (lines 432-466), in
  `PathTable` (lines 484-509) and in `TOC` (lines 526-565).
- The primary volume descriptor lives at byte `16 * 2048`.
- A length byte is read as one byte.
- Files are matched as well as directories.
- Path-table positions accumulate.
- Tables 2 and 3 are big-endian.
- The big-endian copy of a moved location holds that location.
- `Search` stops a sector at a zero length byte, as `TOC` does.

## Model

| member | source | states |
|---|---|---|
| Bytes.Encode32 | UMDReplaceK/Program.cs:304 | `BitConverter.GetBytes(uint)` yields exactly four bytes |
| Bytes.DecodeEncode | UMDReplaceK/Program.cs:508-509 | a value written with `GetBytes` reads back with `ToUInt32` as itself |
| Bytes.EncodeDecode | UMDReplaceK/Program.cs:492 | four bytes read with `ToUInt32` and written back with `GetBytes` are the same four bytes |
| Bytes.EncodeInjective | UMDReplaceK/Program.cs:508-509 | two values have the same encoding exactly when they are equal |
| Bytes.ChangeEndian | UMDReplaceK/Program.cs:574-577 | the result's four bytes are the argument's four bytes in reverse order |
| Bytes.ChangeEndianInvolutive | UMDReplaceK/Program.cs:574-577 | applying `ChangeEndian` twice gives the value back |
| Bytes.ChangeEndianStoresBigEndian | UMDReplaceK/Program.cs:299-307 | storing `ChangeEndian(v)` little-endian stores `v` big-endian |
| Bytes.ChangeEndianReadsBigEndian | UMDReplaceK/Program.cs:492-496 | reading four bytes little-endian and applying `ChangeEndian` reads them big-endian |
| Bytes.AddWrap | UMDReplaceK/Program.cs:501 | `newLBA += (uint)diff` is the exact sum when that is in range, and otherwise wraps once by 2^32 |
| Bytes.AddWrapInverse | UMDReplaceK/Program.cs:550 | moving a location by `diff` and then by `-diff` restores it, wrap-around included |
| Bytes.ToInt32 | UMDReplaceK/Program.cs:219 | reading the bits of a `uint` as `int` gives a 32-bit signed value congruent to it modulo 2^32 |
| Bytes.SignedDifference | UMDReplaceK/Program.cs:219 | for counts below 2^31, `diff` is the true signed difference newSectors - oldSectors |
| Layout.Descriptor | UMDReplaceK/Program.cs:179-181 | a field offset below 2048 lies in sector 16 at that position |
| Layout.SectorBase | UMDReplaceK/Program.cs:545 | sector `lba + i` starts at a multiple of 2048, namely `(lba + i) * 2048` |
| Layout.SectorsFor | UMDReplaceK/Program.cs:215 | `(size + 2047) / 2048` is the least sector count that covers `size`, and is 0 once the `uint` sum wraps |
| Layout.Word | UMDReplaceK/Program.cs:484 | `GetRange(off, 4)` yields four bytes |
| Layout.U32AtReadsBack | UMDReplaceK/Program.cs:214 | `ToUInt32(GetRange(off, 4))` loses nothing: writing the value back with `GetBytes` gives the same four bytes |
| Layout.Spliced | UMDReplaceK/Program.cs:285-288 | bytes before the edit are kept, the inserted bytes follow, the old tail follows shifted by inserted minus removed, and the length changes by that amount |
| Layout.Overwrite | UMDReplaceK/Program.cs:508-509 | removing and inserting the same number of bytes replaces exactly those bytes and keeps the length |
| Layout.WithBothEndian | UMDReplaceK/Program.cs:299-307 | after the two writes the field reads `v` little-endian at `off` and big-endian at `off + 4`, and no other byte changes |
| Layout.WithBothEndianSame | UMDReplaceK/Program.cs:552-556 | rewriting a consistent both-byte field with its own value changes nothing |
| Layout.WithBothEndianLast | UMDReplaceK/Program.cs:552-556 | a second write of a both-byte field wipes out the first |
| Layout.Padded | UMDReplaceK/Program.cs:288 | the new contents padded to whole sectors begin with the contents and end in zeros |
| Layout.RecordName | UMDReplaceK/Program.cs:435-440 | the identifier has as many bytes as the length byte at +32 says |
| Layout.IsDirectoryMask | UMDReplaceK/Program.cs:454 | the directory test is the flag bit `flags & 0x02` of C |
| Names.NameString | UMDReplaceK/Program.cs:436-440 | the name string has one character per identifier byte, with the same code |
| Names.StripVersion | UMDReplaceK/Program.cs:443-447 | a trailing `;1` is removed, and any other identifier is left alone |
| Names.ChildPath | UMDReplaceK/Program.cs:453 | the child path is the parent's path, a `/` and the name |
| Names.DotEntries | UMDReplaceK/Program.cs:450 | the records skipped as `.` and `..` are exactly those whose identifier is the single byte 0 or the single byte 1 |
| Names.EqualsIgnoreCaseIsUpperEqual | UMDReplaceK/Program.cs:464 | two paths are equal ignoring case exactly when they are equal once both are put in upper case |
| Names.EqualsIgnoreCaseEquivalence | UMDReplaceK/Program.cs:464 | case-insensitive comparison is reflexive, symmetric and transitive |
| Names.Slashes | UMDReplaceK/Program.cs:198-199 | every backslash becomes a slash, and every other character is kept |
| Names.NormalizeTarget | UMDReplaceK/Program.cs:192-199 | the target starts with `/`, holds no backslash, and is the name with slashes, with `/` added in front when it had no separator |
| Names.SeparatorsEquivalent | UMDReplaceK/Program.cs:192-199 | a leading `/`, a leading `\` or none, and backslashes for slashes, all name the same target |
| Buffer.Image.RemoveRange | UMDReplaceK/Program.cs:286 | the bytes `at .. at + count` are removed |
| Buffer.Image.InsertRange | UMDReplaceK/Program.cs:288 | `ins` is inserted at `at` |
| Buffer.Image.Splice | UMDReplaceK/Program.cs:285-288 | a removal followed by an insertion at the same place is `Spliced` |
| Buffer.Image.ReadU32 | UMDReplaceK/Program.cs:214 | `ToUInt32(GetRange(off, 4))` is the little-endian value at `off`; the buffer is unchanged |
| Buffer.Image.WriteU32 | UMDReplaceK/Program.cs:508-509 | the `RemoveRange`/`InsertRange` pair overwrites four bytes with the value's encoding |
| Buffer.Image.WriteBothEndian | UMDReplaceK/Program.cs:302-307 | the two write pairs leave the buffer as `WithBothEndian` |
| Navigator.FirstMatch | UMDReplaceK/Program.cs:459-467 | the result is "not found" exactly when no listed path matches; otherwise it is the first matching record |
| Navigator.FirstMatchCat | UMDReplaceK/Program.cs:459-463 | searching two listings in a row is searching the second only when the first has no match |
| Navigator.ScanDirIsFirstMatch | UMDReplaceK/Program.cs:422-475 | the search returns the first record, in depth-first order with a directory's contents before the directory, whose path matches; it reports "not found" only after the whole tree was listed without a failure |
| Navigator.ScanDir | UMDReplaceK/Program.cs:422-475 | a found record is readable and its path, `/`-joined below the searched directory's path, matches the target; the search fails only on a read past the end or a tree deeper than the fuel |
| Navigator.ScanRecord | UMDReplaceK/Program.cs:443-467 | `.` and `..` are never found and never searched; a record found here is this one or one below it, and its path matches the target |
| Navigator.ReadName | UMDReplaceK/Program.cs:436-440 | the character loop builds the identifier of the record |
| Navigator.Search | UMDReplaceK/Program.cs:422-475 | the loops over sectors and records, with early return, compute the search function; `Search` only reads |
| Navigator.SearchSector | UMDReplaceK/Program.cs:429-470 | the inner loop walks one sector's records up to a zero length byte |
| Navigator.ScanSectorStep | UMDReplaceK/Program.cs:429 | the walk of a sector goes from one record to the next by the record's length byte |
| Navigator.SearchRecord | UMDReplaceK/Program.cs:443-468 | one record: `.` and `..` are skipped, a directory is searched before its own path is compared, a file is compared |
| PathTables.EntrySize | UMDReplaceK/Program.cs:481 | the stride `8 + n + (n & 1)` is at least 8 and even |
| PathTables.TableEntries | UMDReplaceK/Program.cs:481-490 | the records of a table start at least 8 bytes apart, inside the table, each with a non-zero identifier length |
| PathTables.TableEntriesFrame | UMDReplaceK/Program.cs:481-490 | the walk of a table reads only the bytes from its position on |
| PathTables.StoredReadsBack | UMDReplaceK/Program.cs:502-509 | a location written in the table's byte order reads back as itself in that order |
| PathTables.Renumbered | UMDReplaceK/Program.cs:499-501 | a location at or before `lbaOld` is kept; a later one gains `diff`, exactly when the sum is a `uint` and modulo 2^32 otherwise |
| PathTables.NewField | UMDReplaceK/Program.cs:492-510 | the rewritten field holds the location plus `diff` when that location is past `lbaOld`, and is unchanged otherwise |
| PathTables.RewriteField | UMDReplaceK/Program.cs:492-510 | one record's location field is rewritten, and no other byte changes |
| PathTables.RewriteFields | UMDReplaceK/Program.cs:481-511 | renumbering a list of records keeps the image's length |
| PathTables.RewriteTable | UMDReplaceK/Program.cs:481-511 | the table loop keeps the image's length |
| PathTables.RewriteTableStep | UMDReplaceK/Program.cs:481-511 | one turn of the loop renumbers the record and moves on by its stride |
| PathTables.RewriteFieldsAt | UMDReplaceK/Program.cs:481-511 | each listed record's field ends up renumbered once, whatever the other records do |
| PathTables.RewriteFieldsFrame | UMDReplaceK/Program.cs:481-511 | no byte outside the listed location fields changes |
| PathTables.RewriteTableIsRewriteFields | UMDReplaceK/Program.cs:481-511 | the loop fails exactly when the table cannot be walked, and otherwise renumbers the walked records in order |
| PathTables.RenumberTableSucceeds | UMDReplaceK/Program.cs:477-512 | on a readable table `PathTable` succeeds and keeps the image's length |
| PathTables.RenumberTableAt | UMDReplaceK/Program.cs:492-510 | each record's location, read in the table's byte order, gains `diff` exactly when it is past `lbaOld`; a record at or before `lbaOld` keeps its bytes |
| PathTables.RenumberTableFrame | UMDReplaceK/Program.cs:507-509 | `PathTable` changes no byte outside the location fields of the table's records |
| PathTables.RenumberRecord | UMDReplaceK/Program.cs:491-510 | the loop body leaves the buffer as `RewriteField` |
| PathTables.PathTable | UMDReplaceK/Program.cs:477-512 | the loop succeeds exactly when the table walk does, and leaves the buffer as `RewriteTable` |
| PathTables.TableLocationByType | UMDReplaceK/Program.cs:331-338 | the location of a type L table (fields 140, 144) is read little-endian, and that of a type M table (fields 148, 152) big-endian |
| PathTables.TableIsBigEndian | UMDReplaceK/Program.cs:335 | of the four location fields, those at 148 and 152 (the type M tables) are the big-endian ones |
| PathTables.UpdateTables | UMDReplaceK/Program.cs:328-341 | renumbering the four tables keeps the image's length |
| PathTables.UpdateTablesRenumbers | UMDReplaceK/Program.cs:328-341 | when the present tables are readable and lie apart from each other and from the descriptor's table fields, the loop succeeds; every record of every present table, read in its table's byte order, holds its location renumbered; and no byte outside those records' location fields changes |
| PathTables.UpdatePathTables | UMDReplaceK/Program.cs:328-341 | the loop over the four location fields skips a location of 0 and renumbers every other table in its byte order |
| Toc.ShouldShift | UMDReplaceK/Program.cs:547 | a record before the old extent never moves and one after it always does; one at the old extent's location moves exactly when it comes after the replaced record; the record at `found` moves only when it lies past the old extent |
| Toc.ShiftRecord | UMDReplaceK/Program.cs:547-556 | the record's location gains `diff` and both copies agree; no byte outside +2..+9 changes |
| Toc.ShiftRecordInverse | UMDReplaceK/Program.cs:550-556 | moving a consistent record by `diff` and back by `-diff` restores the image |
| Toc.MoveRecord | UMDReplaceK/Program.cs:541-557 | moving a record keeps the image's length |
| Toc.MoveRecordShifts | UMDReplaceK/Program.cs:544-557 | a location moves, in both copies, exactly when it is past `lbaOld` or equals it in a record after the replaced one; the replaced record keeps its location |
| Toc.TocDir | UMDReplaceK/Program.cs:514-572 | the walk of the tree keeps the image's length and changes only the location fields of the records it lists as moved |
| Toc.TocRecord | UMDReplaceK/Program.cs:533-569 | one record's visit changes only the location fields of the records it lists as moved; a record that should move is the first of them |
| Toc.TocDirNothingMovedIsIdentity | UMDReplaceK/Program.cs:514-572 | a walk that moves no record leaves the image as it was |
| Toc.TocSectorStep | UMDReplaceK/Program.cs:523-531 | the walk of a sector visits a record, then goes on from the next record in the image that visit left |
| Toc.TOC | UMDReplaceK/Program.cs:514-572 | the sector loop succeeds exactly when the walk of the directory does, and leaves the buffer as that walk |
| Toc.TocSectorWalk | UMDReplaceK/Program.cs:523-570 | the record loop of one sector does the same for the walk of that sector |
| Toc.TocSectorVisit | UMDReplaceK/Program.cs:523-570 | one turn of the record loop advances past the record and keeps the rest of the walk as planned |
| Toc.TocRecordStep | UMDReplaceK/Program.cs:533-569 | one record is moved and then, if it is a directory other than `.` or `..`, walked at its new location |
| Toc.MoveRecordStep | UMDReplaceK/Program.cs:541-557 | the location update leaves the buffer as `MoveRecord`, and answers the location the record now holds |
| Replacement.FindRecord | UMDReplaceK/Program.cs:201-212 | a found record is readable, at a non-zero offset, and its path matches the target; "file not found" is exactly a search with no match, or one that answers offset 0 |
| Replacement.Locate | UMDReplaceK/Program.cs:177-221 | the plan holds the matched record, the old size and location read from it, the ceiling sector counts and their difference; "file not found" is exactly a search of the normalised name from the root with no match |
| Replacement.PlanAt | UMDReplaceK/Program.cs:213-219 | the old size and location come from the record; the new sector count is the least that covers the new size; `diff` is the signed difference of the counts |
| Replacement.WithSize | UMDReplaceK/Program.cs:293-308 | nothing is written when the size is unchanged; otherwise the field reads the new size in both byte orders, no other byte changes, and the write fails only when the field lies past the end |
| Replacement.WithSectorCount | UMDReplaceK/Program.cs:310-323 | nothing is written when `diff` is 0; otherwise the volume space size reads `imageSectors + diff` (wrapping as `uint`) in both byte orders, no other byte changes, and the write fails only when the field lies past the end |
| Replacement.Resize | UMDReplaceK/Program.cs:263-323 | the image's length changes by the new minus the old extent's size in whole sectors |
| Replacement.ReplaceImage | UMDReplaceK/Program.cs:177-347 | a failed lookup fails the replacement with the same fault; a replacement that succeeds replaced the record the name matches, grew the image by exactly `diff` sectors, and `diff` is the new sector count minus the old |
| Replacement.ReplaceStoresContents | UMDReplaceK/Program.cs:263-347 | after the resize, the path-table step and the walk, the replacement's image is the walk's, and the file's new extent still holds the new contents padded with zeros, when no path-table record and no moved directory record has its location field inside that extent |
| Replacement.ResizeKeepsFront | UMDReplaceK/Program.cs:263-323 | in front of the old extent the resize changes only the size field, when the size changed, and the volume space size, when `diff` is not 0 |
| Replacement.ResizeKeepsSplice | UMDReplaceK/Program.cs:285-288 | from the old extent on, the resized image is the spliced one |
| Replacement.ResizeStoresContents | UMDReplaceK/Program.cs:285-288 | the extent holds the new contents padded with zeros, and every byte after the old extent has moved by `diff` sectors |
| Replacement.ResizeStoresSize | UMDReplaceK/Program.cs:294-308 | a changed size is stored at +10 little-endian and at +14 big-endian |
| Replacement.ResizeStoresSectorCount | UMDReplaceK/Program.cs:310-323 | when `diff` is not 0, the volume space size at 80 becomes `imageSectors + diff` and the copy at 84 holds it big-endian |
| Replacement.LocateFile | UMDReplaceK/Program.cs:177-221 | the statements compute `Locate` and only read |
| Replacement.ReadPlan | UMDReplaceK/Program.cs:213-219 | the statements compute `PlanAt` |
| Replacement.FindFile | UMDReplaceK/Program.cs:201-212 | the statements compute `FindRecord` |
| Replacement.ResizeImage | UMDReplaceK/Program.cs:263-323 | the splice and the two conditional field writes leave the buffer as `Resize` |
| Replacement.Replace | UMDReplaceK/Program.cs:177-347 | the whole sequence succeeds exactly when `ReplaceImage` does, leaves its image and answers its `diff`; it reports "file not found" exactly when the lookup does |
| Findings.DescriptorUnscaled | UMDReplaceK/Program.cs:179-181 | as written, descriptor fields are read from sector 0 |
| Findings.NewSectorsAsWritten | UMDReplaceK/Program.cs:190 | as written, sizes of one to 2049 sectors count as 0 sectors and a size under one sector as 0x1FFFFF |
| Findings.BackslashNeverFound | UMDReplaceK/Program.cs:199 | as written, a name with a leading backslash is never found |
| Findings.NewFileNotSpliced | UMDReplaceK/Program.cs:190-263 | as written, a new file of 2048 to 4196351 bytes counts as 0 sectors, so the old extent stays in place while `diff` counts it as gone |
| Findings.EmptyFileNotSpliced | UMDReplaceK/Program.cs:263 | as written, an empty new file leaves the old extent in place while `diff` counts it as gone |
| Findings.SpliceMisaligned | UMDReplaceK/Program.cs:286-288 | as written, the splice leaves an image that is not a whole number of sectors |
| Findings.OptionalTypeMTable | UMDReplaceK/Program.cs:335 | as written, table 3 is treated as little-endian |
| Findings.ZeroLengthEndsSector | UMDReplaceK/Program.cs:429 | as written, a zero length byte does not advance the position; the model ends the sector there |
| Findings.RecordOffsetUnscaled | UMDReplaceK/Program.cs:432 | as written, consecutive sectors are read one byte apart |
| Findings.OneByteToChar | UMDReplaceK/Program.cs:435 | as written, `ToChar` on a one-byte range fails |
| Findings.FourByteToChar | UMDReplaceK/Program.cs:456 | as written, a subdirectory's location keeps only 16 bits |
| Findings.StripDirectoryName | UMDReplaceK/Program.cs:444-447 | as written, a directory identifier loses its last two characters |
| Findings.ParentEntry | UMDReplaceK/Program.cs:450 | as written, `..` is not skipped and a file named `1` is |
| Findings.FlagOffsetUnscaled | UMDReplaceK/Program.cs:454 | as written, records at the same position of different directories share one flags byte |
| Findings.HiddenDirectory | UMDReplaceK/Program.cs:563 | as written, a directory with another flag bit set is not walked |
| Findings.FileNotCompared | UMDReplaceK/Program.cs:454-467 | as written, a file whose path is the target is not found |
| Findings.FoundPositionProduct | UMDReplaceK/Program.cs:466 | as written, the reported offset falls at another position of the sector |
| Findings.SizeFieldOffsets | UMDReplaceK/Program.cs:303-307 | as written, the size is read and written away from the record |
| Findings.TableWalkStalls | UMDReplaceK/Program.cs:481 | as written, the table walk can stay on one record |
| Findings.PathTableLength | UMDReplaceK/Program.cs:484 | as written, a record's length is read from four bytes and comes out huge |
| Findings.DirectoryRecordLength | UMDReplaceK/Program.cs:526 | as written, a directory record's length is read from four bytes and comes out huge |
| Findings.TocSectorCount | UMDReplaceK/Program.cs:517 | as written, `TOC` walks as many sectors as the image has |
| Findings.TocReadMissesSector | UMDReplaceK/Program.cs:542 | as written, the location is read from the first sector whatever the sector walked |
| Findings.ShiftRecordNameLength | UMDReplaceK/Program.cs:556 | as written, the two copies of a moved location disagree |
| Findings.TocSectorOverrun | UMDReplaceK/Program.cs:523 | as written, the walk of a sector filled to its last byte runs on into the next sector and moves that sector's first record, which the next sector's own walk visits and moves as well |
| Findings.ChangeEndianCast | UMDReplaceK/Program.cs:576 | as written, `ChangeEndian` always fails |

## Left out

- Argument checking and usage text of `Main` (lines 44-74). The file handling of `Replace` (lines 76-175 and 349-419) is left out too: reading the two files, writing the image back, renaming files, and the exit codes of its exception handlers. The model starts from the two files' bytes in memory and ends with the edited image.
- Console output (lines 183-186, 261, 297, 313, 326, 345, 441) is left out; it is output only.
- The commented-out streaming copy (lines 228-258, 265-283) and the constants `BLOCKSIZE`, `TMPNAME`, `mode` and `DESCRIPTOR_SIG_*` are dead code and not modelled.
- `(int)` casts of buffer positions: the C# code throws for a position of 2^31 or more. The model's offsets are unbounded, and only the end of the buffer is checked.
- Names.EqualsIgnoreCase: folds ASCII letters only and compares character by character. `InvariantCultureIgnoreCase` is a culture-aware comparison: it also folds the letters of Latin-1 (identifier bytes 0xC0-0xFF), and, depending on the runtime's globalization mode, may ignore zero-weight characters such as NUL, so two paths of different lengths can compare equal.
- Navigator.Search: the recursion into subdirectories is bounded by a `fuel` depth, and running out of it is the failure `TooDeep`. The C# recursion has no bound. The same holds for Navigator.ScanDir, Toc.TOC and Toc.TocDir.
- Replacement.ResizeStoresSize: the size field is written at the record's offset as it was before the splice. When the record lies after the old extent, the splice has moved it and the write lands elsewhere. The model writes where the code writes. The lemma only covers records and descriptor fields in front of the extent (`FieldsBeforeExtent`). Replacement.ResizeStoresContents and Replacement.ResizeKeepsSplice assume the same.
- Replacement.ReplaceStoresContents: the end-to-end claim takes as hypotheses that no path-table record and no moved directory record has its location field inside the new extent, and that the tables are readable and lie apart. The code checks none of these. When a field does lie inside, the later steps overwrite the new contents there.
- Replacement.Replace: a failed path-table or `TOC` walk is reported as `OutOfRange`, and the image after any failure is not stated. The C# process dies with the exception and never writes the image back.
- The root directory record inside the primary volume descriptor (bytes 156-189) is not renumbered, by the code or by the model.
- The path-table location fields of the descriptor (bytes 140-155), the root location `rootLba` and the replaced record's offset `found` are never moved, by the code or by the model. When a path table or a directory lies after the old extent, the later walks read it at its old, stale position.
- Navigator.ScanRecord: when the search below a directory answers a record at byte 0, the model stops there with that answer, while lines 459-463 treat 0 as "not found" and go on to compare the directory itself. Byte 0 lies in the system area, which holds no directory record.
- Toc.TocDir: states which bytes a walk may change, but not, for the whole tree, that each moved record met the shift condition when visited. That condition is stated one record at a time by Toc.MoveRecordShifts.

## Findings

| source | as written | input that shows it | evidently intended | confidence | as-written member | corrected member |
|---|---|---|---|---|---|---|
| UMDReplaceK/Program.cs:179-181 | descriptor fields at `DESCRIPTOR_LBA + field`, i.e. byte 16 + 80 | volume space size read at byte 96, in sector 0 | byte `16 * 2048 + field` of the primary volume descriptor | not executed; high | Findings.AsWrittenDescriptor, Findings.DescriptorUnscaled | Layout.Descriptor |
| UMDReplaceK/Program.cs:190 | `(size / 2048 - 1) / 2048` in `uint` | 4096 bytes give 0 sectors, 100 bytes give 0x1FFFFF | the ceiling `(size + 2047) / 2048` of line 215 | not executed; high | Findings.AsWrittenNewSectors, Findings.NewSectorsAsWritten | Layout.SectorsFor |
| UMDReplaceK/Program.cs:199 | `oldName.Replace("\\", "/")` result discarded | `\A` stays `\A` and matches no path | backslashes become slashes | not executed; high | Findings.AsWrittenTarget, Findings.BackslashNeverFound | Names.NormalizeTarget |
| UMDReplaceK/Program.cs:263 | splice only when the new sector count is not 0 | with line 190 as written, any new file of 2048 to 4196351 bytes, which that line counts as 0 sectors: image unchanged, `diff` = -oldSectors; once line 190 is corrected, an empty new file over a one-sector file: image unchanged, `diff` = -1 | always replace the old extent | not executed; medium | Findings.AsWrittenContents, Findings.NewFileNotSpliced, Findings.EmptyFileNotSpliced | Replacement.ReplaceImage |
| UMDReplaceK/Program.cs:286-288 | remove `oldFileSectors` bytes at byte `fileLBA`, insert the unpadded data | one sector over a one-sector file grows the image by 2047 bytes | remove `oldSectors * 2048` bytes at `fileLBA * 2048`, insert the data padded to whole sectors | not executed; high | Findings.AsWrittenSplice, Findings.SpliceMisaligned | Replacement.ResizeStoresContents |
| UMDReplaceK/Program.cs:335 | `i == 0x2` selects the big-endian tables | table 3 (field 152) is read little-endian | C's `i & 2`: tables 2 and 3 are type M | not executed; high | Findings.AsWrittenTableIsBigEndian, Findings.OptionalTypeMTable | PathTables.TableLocationByType |
| UMDReplaceK/Program.cs:429 | no stop at a zero length byte; `position += 0` | a sector whose records end before byte 2048 | end the sector, as `TOC` does at 527-531 | not executed; high | Findings.AsWrittenNextPosition, Findings.ZeroLengthEndsSector | Navigator.SearchSector |
| UMDReplaceK/Program.cs:432 | records read at `lba + i + position` | the root at sector 22 read from byte 22 | `(lba + i) * 2048 + position` | not executed; high | Findings.AsWrittenRecordOffset, Findings.RecordOffsetUnscaled | Layout.SectorBase |
| UMDReplaceK/Program.cs:435 | `BitConverter.ToChar` on a one-byte range | any record: `ToChar` needs two bytes | read the byte itself | not executed; high | Findings.AsWrittenToChar, Findings.OneByteToChar | Names.NameString |
| UMDReplaceK/Program.cs:456 | subdirectory location read with `ToChar` | location 0x10000 read as 0 | `ToUInt32` | not executed; high | Findings.AsWrittenToChar, Findings.FourByteToChar | Navigator.ScanRecord |
| UMDReplaceK/Program.cs:444-447 | last two characters dropped whenever there are more than two | directory `DATA` searched as `DA` | drop a trailing `;1` only | not executed; medium | Findings.AsWrittenStrip, Findings.StripDirectoryName | Names.StripVersion |
| UMDReplaceK/Program.cs:450 | `..` test compares with the character `'1'` | identifier byte 1 (`..`) walked into; file `1` skipped | byte value 1 | not executed; high | Findings.AsWrittenIsDotEntry, Findings.ParentEntry | Navigator.SearchRecord |
| UMDReplaceK/Program.cs:454 | flags read at `position + 25` | records at position 0 of two directories share one flags byte | flags of the record itself | not executed; high | Findings.AsWrittenFlagOffset, Findings.FlagOffsetUnscaled | Navigator.SearchRecord |
| UMDReplaceK/Program.cs:563 | `flags == 0x02` | a hidden directory, flags 3 | C's `flags & 0x02` | not executed; medium | Findings.AsWrittenIsDirectory, Findings.HiddenDirectory | Layout.IsDirectoryMask |
| UMDReplaceK/Program.cs:454-467 | paths compared only in the directory branch | a file record whose path is the target | compare files as well | not executed; high | Findings.AsWrittenScanRecord, Findings.FileNotCompared | Navigator.ScanDirIsFirstMatch |
| UMDReplaceK/Program.cs:466 | `(lba + i) * (2048 + position)` | byte 34 of sector 20 reported as byte 680 | `(lba + i) * 2048 + position` | not executed; high | Findings.AsWrittenFoundPosition, Findings.FoundPositionProduct | Layout.SectorBase |
| UMDReplaceK/Program.cs:303-307 | size written at `foundLBA + foundOffset + 10`, read (214) at `foundOffset + 10` | record at byte 40994: read at 44, written at 64 | the record's own +10 | not executed; high | Findings.AsWrittenSizeWrite, Findings.SizeFieldOffsets | Replacement.ResizeStoresSize |
| UMDReplaceK/Program.cs:481 | `pos = 8 + n + (n & 1)` | a record at 10 with a two-byte identifier: the walk stays at 10 | `pos += 8 + n + (n & 1)` | not executed; high | Findings.AsWrittenTableNext, Findings.TableWalkStalls | PathTables.TableEntries |
| UMDReplaceK/Program.cs:484 | path-table length byte read with `ToUInt32` | root record, location 20: length 0x140001 | one byte | not executed; high | Findings.AsWrittenLength, Findings.PathTableLength | PathTables.EntrySize |
| UMDReplaceK/Program.cs:526 | directory record length byte read with `ToUInt32` | 34-byte record at location 22: length 0x160022 | one byte | not executed; high | Findings.AsWrittenLength, Findings.DirectoryRecordLength | Toc.TocSectorStep |
| UMDReplaceK/Program.cs:517 | `TOC` walks `Count / 2048` sectors | a one-sector directory of a 100-sector image walked over 100 sectors | the directory's own sectors | not executed; medium | Findings.AsWrittenTocSectors, Findings.TocSectorCount | Toc.TOC |
| UMDReplaceK/Program.cs:523 | records of each sector walked while `pos < len`, the directory's size | a two-sector directory whose first sector is filled to byte 2048: the first record of the second sector is moved by the walks of both sectors | stop at the end of the sector, `pos < sectorData`, as `Search` does at 429 | not executed; medium | Findings.AsWrittenTocSector, Findings.TocSectorOverrun | Toc.TocSector |
| UMDReplaceK/Program.cs:542 | location read at `lba + pos + 2`, without `i`; size likewise at 565 | a record in a directory's second sector | the record's own +2 and +10 | not executed; high | Findings.AsWrittenTocLbaRead, Findings.TocReadMissesSector | Toc.MoveRecordStep |
| UMDReplaceK/Program.cs:556 | big-endian copy written with `ChangeEndian(name.Length)` | any moved record whose new location is not its identifier length | `ChangeEndian(newLBA)` | not executed; high | Findings.AsWrittenShiftRecord, Findings.ShiftRecordNameLength | Toc.ShiftRecord |
| UMDReplaceK/Program.cs:576 | `(byte[])GetBytes(value).Reverse()`, a cast the runtime refuses | any call | reverse the four bytes | not executed; medium | Findings.AsWrittenChangeEndian, Findings.ChangeEndianCast | Bytes.ChangeEndian |
