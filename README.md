# xize core in Dafny

xize is a Rust clone of btrfs `compsize`. For every file it asks the kernel,
through the `BTRFS_IOC_TREE_SEARCH_V2` ioctl (magic 0x94, number 17), for the
file's EXTENT_DATA items (key type 108). It decodes each returned record and
classifies it as an inline, regular or preallocated extent. It then adds the
record's disk, uncompressed and referenced byte counts to per-compression
buckets. A set of physical extent ids makes sure that disk and uncompressed
bytes of a shared extent are counted once.

This project models that core and proves properties of it:

- `le.dfy` (`LittleEndian`): fixed-width unsigned integers and their
  little-endian encoding, with the round trip and injectivity of the encoding.
- `btrfs.dfy` (`Btrfs`, src/btrfs.rs):
  - the 32-byte search header and the 53-byte file-extent item, decoded field
    by field at their offsets, with encoders and byte-level round trips;
  - the compression and extent-type codes;
  - `IoctlSearchItem::parse`, whose outcomes are an extent, a hole, an error or
    a panic, each tied to its exact condition;
  - `IoctlSearchKey::new`, and which items a key selects.
- `session.dfy` (`SearchSession`): the paging protocol of src/btrfs.rs
  `Sv2ItemIter` on values. The state is the key, the records of the current
  page not yet returned, and the last-page flag. The kernel is a pager: a
  function from the search key to a page of records or an errno.
- `search_iter.dfy` (`SearchIter`): `Sv2Args` and `Sv2ItemIter` as classes.
  - The reused 64 KiB buffer is an `array<u8>` that the kernel oracle
    overwrites, and the iterator walks it with a byte cursor.
  - Each method is proved to move the abstract session exactly as the
    value-level protocol does.
- `pagination.dfy` (`Pagination`): a kernel that holds an inode's records in
  offset order and returns pages of at most cap records. Against it, opening a
  search and calling `next` until it ends returns every record exactly once, in
  order, for every cap above 512.
  - The records' offsets must all be below u64::MAX: a page ending at that
    offset faults, because moving one past it overflows.
  - src/btrfs.rs treats a page of 512 records or fewer as the last one, so a
    kernel that stops a page at 512 records or fewer before the end would end
    the search early.
  - The 64 KiB buffer holds 771 records of 85 bytes (a 32-byte header and a
    53-byte regular extent item), so a page of regular extents that the buffer
    cuts short still holds more than 512 records.
- `inline_btrfs.dfy` (`InlineBtrfs`): the `mod btrfs` declared inside
  src/main.rs, which is the code the program is actually built from. Nothing
  declares `mod btrfs;` or `mod scale;`, so src/btrfs.rs and src/scale.rs are
  an unlinked later revision. The main.rs revision differs in three places:
  - a hole is an extent of id 0;
  - the next page resumes at the last record's own offset;
  - no end check follows a reload.

  This module models that `parse` and that iterator, and proves the
  differences.
- `compsize.dfy` (`Compsize`, src/main.rs):
  - `add_file` as a function on the accumulator's state, with the class
    `Compsize` (its `stat` buckets an array) proved to follow it;
  - `build_final`, and the per-record loop of `do_file`;
  - the deduplication properties over whole runs of references.
- `scale.dfy` (`Scaling`, src/scale.rs): the integer part of the human-readable
  scaling. This is the divide-by-base loop and the choice of unit; the f64
  division and the string formatting are left out.

Rust's debug-build overflow checks are modelled as explicit outcomes:

- `len - 21` on a short inline record (`Btrfs.Panic.InlineLengthUnderflow`);
- `offset + 1` at `u64::MAX` (`SearchSession.Fault.OffsetOverflow`);
- `nrest_item -= 1` from zero (`InlineBtrfs.Fault.CountUnderflow`).

The `panic!` on an unknown compression or extent-type code is also an outcome
(`Btrfs.Panicked`). The code panics, and the model follows the code.

## Model

| member | source | states |
|---|---|---|
| LittleEndian.ToLe | src/btrfs.rs:32-36 | the width-byte little-endian encoding of n decodes back to n |
| LittleEndian.ToLeFromLe | src/btrfs.rs:32-36 | re-encoding a decoded byte string gives the same bytes |
| LittleEndian.FromLeInjective | src/btrfs.rs:32-36 | two equal-width byte strings that decode to the same number are equal |
| LittleEndian.U64Le | src/btrfs.rs:32-34 | the 8-byte encoding of a u64 is read back by `u64::from_le` at offset 0 |
| Btrfs.DecodeHeader | src/btrfs.rs:28-38 | `IoctlSearchHeader::from_le_raw`: transid, objectid and offset read as LE u64 at 0, 8 and 16, type and len as LE u32 at 24 and 28; no contract of its own, its inverse is `EncodeHeader` and `HeaderBytesRoundTrip` |
| Btrfs.EncodeHeader | src/btrfs.rs:21-38 | the 32-byte header layout: transid, objectid, offset as LE u64 at 0, 8, 16; type, len as LE u32 at 24, 28; decoding gives the header back |
| Btrfs.HeaderDecodeInjective | src/btrfs.rs:28-38 | header decoding is injective on 32-byte strings |
| Btrfs.HeaderBytesRoundTrip | src/btrfs.rs:28-38 | every 32-byte string is the encoding of the header it decodes to |
| Btrfs.DecodeItem | src/btrfs.rs:58-73 | `FileExtentItem::from_le_raw`, the packed item: the ten fields read at their offsets (u64, u8 and u16 fields little-endian); no contract of its own, its inverse is `EncodeItem` and `ItemBytesRoundTrip` |
| Btrfs.EncodeItem | src/btrfs.rs:44-73 | the packed 53-byte item layout (generation 0, ram_bytes 8, compression 16, encryption 17, other_encoding 18, type 20, disk_bytenr 21, disk_num_bytes 29, offset 37, num_bytes 45); decoding gives the item back |
| Btrfs.ItemDecodeInjective | src/btrfs.rs:58-73 | item decoding is injective on 53-byte strings |
| Btrfs.ItemBytesRoundTrip | src/btrfs.rs:44-73 | every 53-byte string is the encoding of the item it decodes to |
| Btrfs.InlineHeaderIsPrefix | src/btrfs.rs:57 | the six inline-header fields depend only on the first 21 bytes |
| Btrfs.DecodeSearchItem | src/btrfs.rs:150-155 | `from_le_raw`: the header from the first 32 bytes, the item from the 53 after them; no contract of its own, see `SearchItemBytesRoundTrip` |
| Btrfs.SearchItemBytesRoundTrip | src/btrfs.rs:150-155 | a record read from a buffer re-encodes to the 85 bytes it was read from; later bytes play no part |
| Btrfs.EncodeSearchItem | src/btrfs.rs:150-155 | a record is the 32-byte header followed by the item; decoding the concatenation gives both back |
| Btrfs.CompressionIndex | src/btrfs.rs:91-93 | `as_usize` of a compression is always a valid bucket index (< 4) |
| Btrfs.CompressionFromCode | src/btrfs.rs:94-102 | codes 0..3, and only those, decode to a compression whose index is the code; any other code is reported as invalid |
| Btrfs.CompressionIndexRoundTrip | src/btrfs.rs:90-102 | `from_usize(as_usize(c)) == c` for every compression |
| Btrfs.ExtentTypeCode | src/btrfs.rs:14-16 | every extent type's on-disk code is below 3 |
| Btrfs.ExtentTypeFromCode | src/btrfs.rs:120-129 | codes 0..2, and only those, decode to the extent type with that code; any other code is reported as invalid |
| Btrfs.Parse | src/btrfs.rs:156-201 | each outcome holds exactly under its condition: panic for an unknown code or an inline record shorter than 21, naming the unknown compression first, then the unknown type, then the inline length; hole for a 53-byte non-inline record with disk_bytenr 0; error for a wrong length (reported as that length) or else a disk_bytenr off the 4 KiB grid (reported as that disk_bytenr); inline extent = (len − 21, ram_bytes, ram_bytes) with id 0; other extents have id·4096 = disk_bytenr and (disk_num_bytes, ram_bytes, num_bytes) |
| Btrfs.ExtentIdInjective | src/btrfs.rs:184-189 | the `>> 12` id loses nothing: equal ids of found non-inline extents mean equal disk_bytenr |
| Btrfs.NewSearchKey | src/btrfs.rs:224-244 | a fresh key has tree 0, nr_items u32::MAX, and selects exactly the inode's EXTENT_DATA items at any offset and transaction |
| Btrfs.ResumedKeySelects | src/btrfs.rs:295 | the key with min_offset = m selects exactly the inode's EXTENT_DATA items at offset ≥ m |
| SearchSession.Loaded | src/btrfs.rs:309-311 | after a successful ioctl the pending records are the page, nr_items is its size and nothing else of the key changes, last ⇔ size ≤ 512; a fresh page never needs another load at once, and it is finished exactly when empty |
| SearchSession.Finished | src/btrfs.rs:317-319 | `finish`: nothing pending and the page was the last; no contract of its own, `NeedIoctl` and `Take` state its role |
| SearchSession.NeedIoctl | src/btrfs.rs:314-316 | a load is needed exactly when nothing is pending and the session is not finished |
| SearchSession.Take | src/btrfs.rs:288-297 | ends exactly when finished, changing nothing; otherwise the cursor moves past the pending record and the flag stays; that record is returned, or, only for the last record of a page at offset u64::MAX, the fault is an offset overflow; min_offset becomes one past the last record of a used-up page, and otherwise the key is unchanged |
| SearchSession.Next | src/btrfs.rs:284-298 | fused once the last page is used up; mid-page exactly the next record is returned and nothing else changes; the last record of a page moves min_offset one past it (overflow only at u64::MAX); a used-up non-last page is replaced by the kernel's next page (errno → fault changing nothing, an empty page ends); min_offset changes only after a page's last record, nr_items only on a reload, no other key field ever |
| SearchSession.QueryOnlyWhenNeeded | src/btrfs.rs:314-316 | when `need_ioctl` is false, `next` does not depend on the kernel |
| SearchSession.Start | src/btrfs.rs:320-333 | `new` queries with nr_items = u32::MAX and min_offset = 0 (nothing else reset); after the load pending is the page, nr_items is its size, last ⇔ size ≤ 512; an ioctl error is returned |
| SearchSession.Open | src/btrfs.rs:264-271 | `search_file` resets the whole key for the inode before the first load; it fails exactly when that first query fails, with the query's errno; otherwise pending is the page, nr_items its size, last ⇔ size ≤ 512 |
| Pagination.ResumedPage | src/btrfs.rs:302-313 | after i records, the resumed query returns the next records, as many as the buffer and nr_items allow |
| Pagination.ReloadKeepsProgress | src/btrfs.rs:302-313 | a reload keeps the session's record of progress |
| Pagination.TakeKeepsProgress | src/btrfs.rs:288-297 | taking from a loaded page returns the next record, or ends once all are returned |
| Pagination.NextKeepsProgress | src/btrfs.rs:284-298 | each `next` returns the next record of the inode, or ends exactly when all are returned |
| Pagination.DrainRest | src/btrfs.rs:284-298 | from any point, calling `next` until it ends returns the remaining records in order and then ends |
| Pagination.OpenStartsProgress | src/btrfs.rs:264-271 | a search opened on a well-behaved kernel starts with nothing returned |
| Pagination.DrainFromStart | src/btrfs.rs:281-300 | from a session that has returned nothing, draining returns every record |
| Pagination.SessionReturnsEveryRecord | src/btrfs.rs:294-296 | pagination is invisible: open, then `next` until `None`, returns exactly the inode's records, in order, each once, for any page capacity above 512 |
| SearchIter.PagerOf | src/btrfs.rs:302-313 | the kernel seen as a pager returns at most nr_items records, and fails exactly when the ioctl does |
| SearchIter.Sv2Args.constructor | src/btrfs.rs:256-262 | the key of inode 0 and a zeroed 65536-byte buffer |
| SearchIter.Sv2Args.SetKey | src/btrfs.rs:264-266 | the whole key is reset for the inode |
| SearchIter.Sv2Args.SearchFile | src/btrfs.rs:268-271 | the iterator returned is in the session `Open` starts, or the ioctl's errno is returned |
| SearchIter.Sv2ItemIter.constructor | src/btrfs.rs:320-330 | nr_items = u32::MAX, min_offset = 0, cursor, count and flag cleared |
| SearchIter.Sv2ItemIter.New | src/btrfs.rs:320-333 | the iterator is in the session `Start` gives on the old key, or the errno is returned |
| SearchIter.Sv2ItemIter.CallIoctl | src/btrfs.rs:302-313 | on success the buffer holds the kernel's bytes, nr_items its count, pos = 0, nrest = count, last ⇔ count ≤ 512, and the abstract session is `Loaded`; on failure nothing changes |
| SearchIter.Sv2ItemIter.Next | src/btrfs.rs:284-298 | the new state and the result are exactly those of `SearchSession.Next` on the old state; a failed ioctl changes nothing |
| SearchIter.Sv2ItemIter.TakeItem | src/btrfs.rs:288-297 | after the reload, `next` is `SearchSession.Take`: end, or the record at the cursor with min_offset moved one past a used-up page |
| SearchIter.Sv2ItemIter.Advance | src/btrfs.rs:291-293 | the record at the cursor is returned, pos advances by 32 + len, nrest drops by one |
| InlineBtrfs.Parse | src/main.rs:188-241 | agrees with src/btrfs.rs `parse` except on a hole, which becomes a found extent of id 0 with an all-zero stat; never reports a hole |
| InlineBtrfs.QueryKey | src/main.rs:373 | the key sent has min_offset = the kept offset, every other field unchanged |
| InlineBtrfs.Loaded | src/main.rs:380-382 | the pending records are the page, the key is the one sent with nr_items = page size, finish ⇔ size ≤ 512, the kept offset stays: the same load as src/btrfs.rs on the key sent |
| InlineBtrfs.Take | src/main.rs:361-367 | nothing pending: the count underflows and nothing changes; otherwise the next record is returned with key and flag unchanged, and the kept offset becomes a used-up page's last record's offset |
| InlineBtrfs.SessionNext | src/main.rs:353-368 | fused once finished; mid-page exactly the next record is returned and nothing else changes; a reload queries from the kept offset, not one past it, with an errno leaving only min_offset set; the reloaded key has nr_items = page size; an empty reload underflows the count; the kept offset changes only to a used-up page's last record |
| InlineBtrfs.Start | src/main.rs:385-399 | the same first query and first page as the src/btrfs.rs revision |
| InlineBtrfs.DrainPage | src/main.rs:353-368 | draining returns the current page's records, then continues from the used-up state |
| InlineBtrfs.FirstPage | src/main.rs:385-399 | a file with more than 512 records gets a first page of min(cap, count) records and expects more |
| InlineBtrfs.SecondQuery | src/main.rs:372-384 | the query after the first page returns the page's last record first, so one more call drains exactly that record |
| InlineBtrfs.BoundaryRecordRepeated | src/main.rs:364-366 | a file with more than 512 records gets the first page's last record twice, whether or not that page held the whole file |
| InlineBtrfs.Open | src/main.rs:332-339 | `search_file` then this revision's `new`: the same first query and page as src/btrfs.rs `Open`, failing exactly when it fails and with the same errno, with kept offset 0 |
| InlineBtrfs.SearchFile | src/main.rs:332-339 | the iterator returned is in the session this revision's `Open` starts |
| InlineBtrfs.Sv2ItemIter.constructor | src/main.rs:385-396 | nr_items = u32::MAX, min_offset = 0, offset, cursor, count and flag cleared |
| InlineBtrfs.Sv2ItemIter.New | src/main.rs:385-399 | the iterator is in the session `Start` gives on the old key, or the errno is returned |
| InlineBtrfs.Sv2ItemIter.CallIoctl | src/main.rs:372-384 | min_offset is set to the kept offset before the query; then the same load as src/btrfs.rs |
| InlineBtrfs.Sv2ItemIter.Next | src/main.rs:353-368 | the new state and result are exactly those of `SessionNext` on the old state |
| InlineBtrfs.Sv2ItemIter.TakeItem | src/main.rs:361-367 | decode at the cursor (underflow from a zero count), keep the offset of a used-up page's last record |
| InlineBtrfs.Sv2ItemIter.Advance | src/main.rs:361-363 | the record at the cursor is returned, pos advances by 32 + len, nrest drops by one |
| Compsize.Empty | src/main.rs:431-448 | `new`: no files, references or ids, four compression buckets and the prealloc bucket all zero |
| Compsize.Plus | src/main.rs:455-457 | adding stats adds each of disk, uncomp and refd |
| Compsize.Credit | src/main.rs:461-465 | refd is always credited; disk and uncomp only for an inline extent or an id not seen before |
| Compsize.Account | src/main.rs:449-476 | inline: ninline + 1 and all three figures into `stat[comp]`, nothing else changes; regular: nref + 1, id remembered, `stat[comp]` gets the credit; prealloc: nref + 1, id remembered, only `prealloc` changes |
| Compsize.AccountAll | src/main.rs:449-476 | `add_file` over a run: every reference is counted once in ninline or nref, nfile is untouched, no id is forgotten |
| Compsize.Final | src/main.rs:477-486 | `build_final`: the counters and buckets are copied and nextent is the number of distinct ids seen |
| Compsize.AccountTotal | src/main.rs:449-476 | one `add_file` raises each figure's total over the five buckets by exactly its credit |
| Compsize.AccountAllTotal | src/main.rs:449-476 | over a run of references each figure's total rises by what the run credits, id by id |
| Compsize.AccountAllExtents | src/main.rs:417 | the seen set becomes exactly the ids of the regular and prealloc references |
| Compsize.AccountAllCounts | src/main.rs:452-474 | inline references are counted in ninline, all others in nref |
| Compsize.RefdAlwaysCredited | src/main.rs:465 | referenced bytes are never deduplicated |
| Compsize.SeenIdsCreditNothing | src/main.rs:461-464 | references to ids already seen credit no disk or uncompressed bytes beyond inline ones |
| Compsize.AccountedTwice | src/main.rs:461-472 | each id is credited once: accounting the same references again adds only inline disk and uncompressed bytes |
| Compsize.AccountAllGrows | src/main.rs:449-476 | every counter, bucket figure and the seen set only grow |
| Compsize.FinalFromEmpty | src/main.rs:477-486 | from `new`, the final nextent is the number of distinct ids, ninline and nref count the references |
| Compsize.Scan | src/main.rs:495-500 | the outcome of a file is completed, died or aborted, and at most one extent is found per record |
| Compsize.ScanOutcome | src/main.rs:496-499 | a file completes exactly when every record parses to an extent or a hole; otherwise a record was rejected or panicked; every found extent comes from a record |
| Compsize.Extents | src/main.rs:496-499 | the reference: the extents of all records that parse to one, in order, at most one per record and each from a record |
| Compsize.ExtentsSnoc | src/main.rs:496-499 | one record more appends its extent, if it has one |
| Compsize.ScanCompleted | src/main.rs:495-500 | a completed scan found exactly `Extents` of all records, in order |
| Compsize.ScanFirstFailure | src/main.rs:496-499 | a scan stops at the first record neither extent nor hole: it found exactly `Extents` of the records before it, and its outcome is that record's `die!` or panic |
| Compsize.ScanStops | src/main.rs:498 | once a record fails, no later record changes the outcome |
| Compsize.HoleIsSkipped | src/btrfs.rs:181-183 | a hole changes nothing in the accumulator |
| Compsize.HoleCountedAsWritten | src/main.rs:213-223 | under main.rs `parse` a hole adds a reference and puts id 0 in the seen set |
| Compsize.Compsize.constructor | src/main.rs:431-448 | the accumulator starts empty |
| Compsize.Compsize.AddFile | src/main.rs:449-476 | the new state is `Account` of the old |
| Compsize.Compsize.BuildFinal | src/main.rs:477-486 | the final figures copy the counters and buckets, with nextent = number of ids seen |
| Compsize.Compsize.DoFile | src/main.rs:491-509 | nfile + 1 exactly once; a failed search stops the file; otherwise the state is the old one with each scanned extent accounted in order, and the outcome is the scan's |
| Compsize.Compsize.AccountRecords | src/main.rs:495-500 | the record loop accounts exactly the extents the scan finds, and returns its outcome |
| Scaling.Base | src/scale.rs:10-15 | 1024 for Binary, 1000 for Metric |
| Scaling.Suffix | src/scale.rs:43-46 | "iB" for Binary, "B" for Metric |
| Scaling.Default | src/scale.rs:29-35 | the default scale is human-readable, with base 1024 and suffix "iB" |
| Scaling.QuotientIsDivision | src/scale.rs:50-53 | dividing k times by the base is dividing once by base^k |
| Scaling.QuotientShrinks | src/scale.rs:50-53 | more divisions never leave a larger number |
| Scaling.SixthPowerBound | src/scale.rs:1 | a u64 divided six times is below one base, so "E" is the largest unit needed |
| Scaling.Reduce | src/scale.rs:47-53 | the loop ends with num ≤ 10·base, num = the input divided cnt times, no division one too many, a division only when the input exceeded ten bases, and cnt ≤ 6 (≤ 5 when num ≥ base) |
| Scaling.DisplayDivisions | src/scale.rs:50-58 | a display stands for the first division count leaving at most ten bases, and is a whole count exactly when less than one base is left |
| Scaling.FirstDivisionsUnique | src/scale.rs:50-53 | the first division count leaving at most ten bases is unique |
| Scaling.DisplayUnique | src/scale.rs:54-58 | a number has at most one display: `Displays` fixes the unit, the number shown and the form |
| Scaling.ScaleAsWritten | src/scale.rs:38-62 | Custom(0) gives the plain number; Custom(n ≠ 0) is unimplemented; Human panics for every number below one base and shows every other number by `Displays`: a whole count 10 ≤ n < base of the unit below the first one holding at most ten bases (scale.rs:54-55), else one decimal of that unit (scale.rs:56-58) |
| Scaling.ScaleNumber | src/scale.rs:38-62 | as written, except a number below one base is a plain byte count; from one base on the same display, which `DisplayUnique` makes the only one allowed (so 10240 is "10.0 KiB", not "10 KiB") |

## Left out

- The ioctl itself is a kernel oracle: a function from the search key to a filled buffer and count, or an errno. The model assumes a well-formed reply: at most nr_items records, all readable inside the 64 KiB buffer. Only the `nr_items` write-back into the key is modelled.
- The unsafe pointer-cast decoding, and its over-read past short inline records or the buffer's end. Records are decoded field by field, always reading 85 bytes.
- Directory walking, `symlink_metadata`, opening files, argument handling, `main` and `println!`: these are I/O.
- `die!` and process exit, and the `Errno::NOTTY` message choice. A failed search is the outcome `NotSearchable`, a rejected record `Died`, a panic `Aborted`.
- Compsize.Compsize.DoFile: takes the sequence of records the search iterator yields, rather than driving the iterator. That the src/btrfs.rs iterator yields exactly the inode's records is `Pagination.SessionReturnsEveryRecord`.
- Compsize.Compsize.DoFile: uses src/btrfs.rs `parse`, which skips holes, not the main.rs `parse` the built program uses (see Findings).
- u64 wrap-around of the accumulators' sums: counters and stats are unbounded naturals.
- The f64 one-decimal division and all string formatting in src/scale.rs. A result records the integer shown, the unit index into "KMGTPE", and the suffix.
- The `todo!()` for `Custom(n)` with n ≠ 0: it is the outcome `Unimplemented`.
- The reserved `unused*` fields of the search key, `buf_size`, and `Compression::name`.
- The commented-out older code in src/main.rs. It is used only as evidence of intended behaviour.
- Release-build wrap-around of `offset + 1`, `len - 21` and `nrest_item -= 1`. The debug-build panic is modelled.

## Findings

| source | as written | input that shows it | evidently intended | confidence | as-written member | corrected member |
|---|---|---|---|---|---|---|
| src/scale.rs:54-55 | below one unit the loop never runs, and `UNITS[cnt - 1]` is indexed with cnt = 0 | `Scale(Binary, Human)` on 5 (any number below 1024) | print the plain byte count, as `Custom(0)` does | not executed; high | Scaling.ScaleAsWritten | Scaling.ScaleNumber |
| src/main.rs:364-366 | the next page resumes at the last record's own offset (`min_offset = offset`) | a file with more than 512 EXTENT_DATA records | resume one past it, as src/btrfs.rs:295 does, so each record is returned once | not executed; high | InlineBtrfs.BoundaryRecordRepeated | Pagination.SessionReturnsEveryRecord |
| src/main.rs:213-223 | a hole is returned as an extent of id 0 with a zero stat, so it counts as a reference and puts 0 in the seen set | a regular record of length 53 with disk_bytenr 0 | skip the hole, as src/btrfs.rs:181-183 and the commented src/main.rs:564-566 do | not executed; high | Compsize.HoleCountedAsWritten | Compsize.HoleIsSkipped |
