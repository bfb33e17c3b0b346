/** The record codec and extent classifier of src/btrfs.rs: the 32-byte search
    header, the 53-byte file-extent item (21-byte header for inline extents),
    the compression and extent-type codes, `IoctlSearchItem::parse` and the
    search key that `Sv2Args::search_file` installs. */
module Btrfs {
  import opened LittleEndian

  const ExtentDataKey: u32 := 108

  const FileExtentInline: u8 := 0
  const FileExtentReg: u8 := 1
  const FileExtentPrealloc: u8 := 2

  const SearchHeaderSize: nat := 32
  const FileExtentItemSize: nat := 53
  const InlineHeaderSize: nat := 21
  /** Bytes read for one record: the header plus a full extent item. */
  const SearchItemSize: nat := SearchHeaderSize + FileExtentItemSize

  /** Extents start on 4 KiB boundaries: the low 12 bits of a disk byte number are zero. */
  const ExtentAlign: nat := 0x1000

  datatype SearchHeader = SearchHeader(transid: u64, objectid: u64, offset: u64, typ: u32, len: u32)

  datatype FileExtentItem = FileExtentItem(
    generation: u64,
    ramBytes: u64,
    compression: u8,
    encryption: u8,
    otherEncoding: u16,
    typ: u8,
    // the four fields below exist only for regular and preallocated extents
    diskBytenr: u64,
    diskNumBytes: u64,
    offset: u64,
    numBytes: u64)

  datatype SearchItem = SearchItem(header: SearchHeader, item: FileExtentItem)

  // ---------------------------------------------------------------------------
  // Field-by-field little-endian decoding and its inverse

  /** `IoctlSearchHeader::from_le_raw`: the five fields read little-endian at 0, 8, 16, 24 and 28. */
  function DecodeHeader(b: seq<u8>): SearchHeader
    requires |b| >= SearchHeaderSize
  {
    SearchHeader(LeU64(b, 0), LeU64(b, 8), LeU64(b, 16), LeU32(b, 24), LeU32(b, 28))
  }

  /** The 32 bytes the kernel writes for a header; decoding them gives the header back. */
  function EncodeHeader(h: SearchHeader): (b: seq<u8>)
    ensures |b| == SearchHeaderSize
    ensures DecodeHeader(b) == h
  {
    var b := U64Le(h.transid) + U64Le(h.objectid) + U64Le(h.offset) + U32Le(h.typ) + U32Le(h.len);
    assert b[0..8] == U64Le(h.transid);
    assert b[8..16] == U64Le(h.objectid);
    assert b[16..24] == U64Le(h.offset);
    assert b[24..28] == U32Le(h.typ);
    assert b[28..32] == U32Le(h.len);
    b
  }

  /** Header decoding is injective on 32-byte strings. */
  lemma HeaderDecodeInjective(a: seq<u8>, b: seq<u8>)
    requires |a| == SearchHeaderSize == |b|
    requires DecodeHeader(a) == DecodeHeader(b)
    ensures a == b
  {
    assert LeU64(a, 0) == LeU64(b, 0);
    SliceEqual(a, b, 0, 8);
    assert LeU64(a, 8) == LeU64(b, 8);
    SliceEqual(a, b, 8, 16);
    assert LeU64(a, 16) == LeU64(b, 16);
    SliceEqual(a, b, 16, 24);
    assert LeU32(a, 24) == LeU32(b, 24);
    SliceEqual(a, b, 24, 28);
    assert LeU32(a, 28) == LeU32(b, 28);
    SliceEqual(a, b, 28, 32);
    assert forall k | 0 <= k < |a| :: a[k] == b[k];
  }

  /** Every 32-byte string is the encoding of the header it decodes to. */
  lemma HeaderBytesRoundTrip(b: seq<u8>)
    requires |b| == SearchHeaderSize
    ensures EncodeHeader(DecodeHeader(b)) == b
  {
    HeaderDecodeInjective(EncodeHeader(DecodeHeader(b)), b);
  }

  /** Two strings whose slices decode to the same number agree on that slice. */
  lemma SliceEqual(a: seq<u8>, b: seq<u8>, lo: nat, hi: nat)
    requires lo <= hi <= |a| && hi <= |b|
    requires FromLe(a[lo..hi]) == FromLe(b[lo..hi])
    ensures forall k | lo <= k < hi :: a[k] == b[k]
  {
    FromLeInjective(a[lo..hi], b[lo..hi]);
    assert forall k | lo <= k < hi :: a[k] == a[lo..hi][k - lo] && b[k] == b[lo..hi][k - lo];
  }

  /** `FileExtentItem::from_le_raw`: the packed fields read little-endian at their offsets. */
  function DecodeItem(b: seq<u8>): FileExtentItem
    requires |b| >= FileExtentItemSize
  {
    FileExtentItem(
      LeU64(b, 0), LeU64(b, 8), b[16], b[17], LeU16(b, 18), b[20],
      LeU64(b, 21), LeU64(b, 29), LeU64(b, 37), LeU64(b, 45))
  }

  /** The packed 53-byte layout of an extent item; decoding it gives the item back. */
  function EncodeItem(i: FileExtentItem): (b: seq<u8>)
    ensures |b| == FileExtentItemSize
    ensures DecodeItem(b) == i
  {
    var head := ItemHead(i);
    var tail := ItemTail(i);
    HeadDecodes(i, tail);
    TailDecodes(head, i);
    head + tail
  }

  /** The fields of the first 21 bytes read back whatever follows them. */
  lemma HeadDecodes(i: FileExtentItem, tail: seq<u8>)
    requires |tail| == 32
    ensures var b := ItemHead(i) + tail;
            && LeU64(b, 0) == i.generation && LeU64(b, 8) == i.ramBytes
            && b[16] == i.compression && b[17] == i.encryption
            && LeU16(b, 18) == i.otherEncoding && b[20] == i.typ
  {
    var head := ItemHead(i);
    ItemHeadFields(i);
    PrefixSlice(head, tail, 0, 8);
    PrefixSlice(head, tail, 8, 16);
    PrefixSlice(head, tail, 18, 20);
  }

  /** The fields of the last 32 bytes read back whatever precedes them. */
  lemma TailDecodes(head: seq<u8>, i: FileExtentItem)
    requires |head| == InlineHeaderSize
    ensures var b := head + ItemTail(i);
            && LeU64(b, 21) == i.diskBytenr && LeU64(b, 29) == i.diskNumBytes
            && LeU64(b, 37) == i.offset && LeU64(b, 45) == i.numBytes
  {
    var tail := ItemTail(i);
    ItemTailFields(i);
    SuffixSlice(head, tail, 0, 8);
    SuffixSlice(head, tail, 8, 16);
    SuffixSlice(head, tail, 16, 24);
    SuffixSlice(head, tail, 24, 32);
  }

  /** The first 21 bytes of an encoded item: the part an inline item shares. */
  function ItemHead(i: FileExtentItem): seq<u8>
  {
    U64Le(i.generation) + U64Le(i.ramBytes) + [i.compression, i.encryption] + U16Le(i.otherEncoding) + [i.typ]
  }

  function ItemTail(i: FileExtentItem): seq<u8>
  {
    U64Le(i.diskBytenr) + U64Le(i.diskNumBytes) + U64Le(i.offset) + U64Le(i.numBytes)
  }

  lemma ItemHeadFields(i: FileExtentItem)
    ensures var h := ItemHead(i);
            && |h| == InlineHeaderSize
            && h[0..8] == U64Le(i.generation) && h[8..16] == U64Le(i.ramBytes)
            && h[16] == i.compression && h[17] == i.encryption
            && h[18..20] == U16Le(i.otherEncoding) && h[20] == i.typ
  {
  }

  lemma ItemTailFields(i: FileExtentItem)
    ensures var t := ItemTail(i);
            && |t| == 32
            && t[0..8] == U64Le(i.diskBytenr) && t[8..16] == U64Le(i.diskNumBytes)
            && t[16..24] == U64Le(i.offset) && t[24..32] == U64Le(i.numBytes)
  {
  }

  lemma PrefixSlice(a: seq<u8>, c: seq<u8>, lo: nat, hi: nat)
    requires lo <= hi <= |a|
    ensures (a + c)[lo..hi] == a[lo..hi]
  {
  }

  lemma SuffixSlice(a: seq<u8>, c: seq<u8>, lo: nat, hi: nat)
    requires lo <= hi <= |c|
    ensures (a + c)[|a| + lo..|a| + hi] == c[lo..hi]
  {
  }

  /** Item decoding is injective on 53-byte strings. */
  lemma ItemDecodeInjective(a: seq<u8>, b: seq<u8>)
    requires |a| == FileExtentItemSize == |b|
    requires DecodeItem(a) == DecodeItem(b)
    ensures a == b
  {
    assert LeU64(a, 0) == LeU64(b, 0);
    SliceEqual(a, b, 0, 8);
    assert LeU64(a, 8) == LeU64(b, 8);
    SliceEqual(a, b, 8, 16);
    assert LeU16(a, 18) == LeU16(b, 18);
    SliceEqual(a, b, 18, 20);
    assert LeU64(a, 21) == LeU64(b, 21);
    SliceEqual(a, b, 21, 29);
    assert LeU64(a, 29) == LeU64(b, 29);
    SliceEqual(a, b, 29, 37);
    assert LeU64(a, 37) == LeU64(b, 37);
    SliceEqual(a, b, 37, 45);
    assert LeU64(a, 45) == LeU64(b, 45);
    SliceEqual(a, b, 45, 53);
    forall k | 0 <= k < |a|
      ensures a[k] == b[k]
    {
      if k < 16 {
      } else if k < 21 {
        assert k == 16 || k == 17 || 18 <= k < 20 || k == 20;
      } else if k < 37 {
      } else {
      }
    }
  }

  /** Every 53-byte string is the encoding of the item it decodes to. */
  lemma ItemBytesRoundTrip(b: seq<u8>)
    requires |b| == FileExtentItemSize
    ensures EncodeItem(DecodeItem(b)) == b
  {
    ItemDecodeInjective(EncodeItem(DecodeItem(b)), b);
  }

  /** The inline header is the first 21 bytes: generation, ram_bytes and the four
      code fields do not depend on anything after them. */
  lemma InlineHeaderIsPrefix(a: seq<u8>, b: seq<u8>)
    requires |a| >= FileExtentItemSize && |b| >= FileExtentItemSize
    requires a[..InlineHeaderSize] == b[..InlineHeaderSize]
    ensures DecodeItem(a).generation == DecodeItem(b).generation
    ensures DecodeItem(a).ramBytes == DecodeItem(b).ramBytes
    ensures DecodeItem(a).compression == DecodeItem(b).compression
    ensures DecodeItem(a).encryption == DecodeItem(b).encryption
    ensures DecodeItem(a).otherEncoding == DecodeItem(b).otherEncoding
    ensures DecodeItem(a).typ == DecodeItem(b).typ
  {
    assert a[0..8] == a[..InlineHeaderSize][0..8];
    assert b[0..8] == b[..InlineHeaderSize][0..8];
    assert a[8..16] == a[..InlineHeaderSize][8..16];
    assert b[8..16] == b[..InlineHeaderSize][8..16];
    assert a[18..20] == a[..InlineHeaderSize][18..20];
    assert b[18..20] == b[..InlineHeaderSize][18..20];
    assert a[16] == a[..InlineHeaderSize][16] && a[17] == a[..InlineHeaderSize][17];
    assert a[20] == a[..InlineHeaderSize][20];
  }

  /** One record as `IoctlSearchItem::from_le_raw` reads it: the header, then
      53 item bytes whatever the declared length. */
  function DecodeSearchItem(b: seq<u8>): SearchItem
    requires |b| >= SearchItemSize
  {
    SearchItem(DecodeHeader(b[..SearchHeaderSize]), DecodeItem(b[SearchHeaderSize..]))
  }

  /** An item is read from its first 53 bytes only. */
  lemma ItemPrefix(c: seq<u8>, d: seq<u8>)
    requires |c| >= FileExtentItemSize && |d| >= FileExtentItemSize
    requires c[..FileExtentItemSize] == d[..FileExtentItemSize]
    ensures DecodeItem(c) == DecodeItem(d)
  {
    assert forall k | 0 <= k < FileExtentItemSize :: c[k] == c[..FileExtentItemSize][k] && d[k] == d[..FileExtentItemSize][k];
    assert c[0..8] == d[0..8] && c[8..16] == d[8..16] && c[18..20] == d[18..20];
    assert c[21..29] == d[21..29] && c[29..37] == d[29..37] && c[37..45] == d[37..45] && c[45..53] == d[45..53];
  }

  function EncodeSearchItem(x: SearchItem): (b: seq<u8>)
    ensures |b| == SearchItemSize
    ensures DecodeSearchItem(b) == x
  {
    var h := EncodeHeader(x.header);
    var i := EncodeItem(x.item);
    assert (h + i)[..SearchHeaderSize] == h;
    assert (h + i)[SearchHeaderSize..] == i;
    h + i
  }

  /** A record re-encodes to the 85 bytes it was read from; anything after them is ignored. */
  lemma SearchItemBytesRoundTrip(b: seq<u8>)
    requires |b| >= SearchItemSize
    ensures EncodeSearchItem(DecodeSearchItem(b)) == b[..SearchItemSize]
  {
    var h, i := b[..SearchHeaderSize], b[SearchHeaderSize..SearchItemSize];
    var x := DecodeSearchItem(b);
    assert x.header == DecodeHeader(h);
    ItemPrefix(b[SearchHeaderSize..], i);
    assert x.item == DecodeItem(i);
    HeaderBytesRoundTrip(h);
    assert EncodeHeader(x.header) == h;
    ItemBytesRoundTrip(i);
    assert EncodeItem(x.item) == i;
    assert EncodeSearchItem(x) == EncodeHeader(x.header) + EncodeItem(x.item);
    SplitPrefix(b, SearchHeaderSize, SearchItemSize);
  }

  lemma SplitPrefix(b: seq<u8>, k: nat, n: nat)
    requires k <= n <= |b|
    ensures b[..k] + b[k..n] == b[..n]
  {
  }

  // ---------------------------------------------------------------------------
  // Compression and extent-type codes

  datatype Compression = None | Zlib | Lzo | Zstd

  /** A small on-disk code decoded into an enum, or the code that has no variant
      (the source panics on such a code). */
  datatype Decoded<T> = Known(value: T) | Unknown(code: nat)

  /** `Compression::as_usize`: the bucket index of a compression, always below 4. */
  function CompressionIndex(c: Compression): (i: nat)
    ensures i < 4
  {
    match c
    case None => 0
    case Zlib => 1
    case Lzo => 2
    case Zstd => 3
  }

  /** `Compression::from_usize`: codes 0..3 name the four compressions, any other is invalid. */
  function CompressionFromCode(n: nat): (r: Decoded<Compression>)
    ensures r.Known? <==> n < 4
    ensures r.Known? ==> CompressionIndex(r.value) == n
    ensures r.Unknown? ==> r.code == n
  {
    match n
    case 0 => Known(None)
    case 1 => Known(Zlib)
    case 2 => Known(Lzo)
    case 3 => Known(Zstd)
    case _ => Unknown(n)
  }

  /** `as_usize` inverts `from_usize`: the index of a compression decodes back to it. */
  lemma CompressionIndexRoundTrip(c: Compression)
    ensures CompressionFromCode(CompressionIndex(c)) == Known(c)
  {
  }

  datatype ExtentType = Inline | Regular | Prealloc

  /** The on-disk code of each extent type (BTRFS_FILE_EXTENT_INLINE, _REG, _PREALLOC). */
  function ExtentTypeCode(t: ExtentType): (n: u8)
    ensures n < 3
  {
    match t
    case Inline => FileExtentInline
    case Regular => FileExtentReg
    case Prealloc => FileExtentPrealloc
  }

  /** `ExtentType::from_u8`: codes 0..2 name the three types, any other is invalid. */
  function ExtentTypeFromCode(n: u8): (r: Decoded<ExtentType>)
    ensures r.Known? <==> n < 3
    ensures r.Known? ==> ExtentTypeCode(r.value) == n
    ensures r.Unknown? ==> r.code == n
  {
    if n == FileExtentInline then Known(Inline)
    else if n == FileExtentReg then Known(Regular)
    else if n == FileExtentPrealloc then Known(Prealloc)
    else Unknown(n)
  }

  // ---------------------------------------------------------------------------
  // The classifier

  /** Identity of a physical extent; `id` is meaningless for inline extents. */
  datatype ExtentKey = ExtentKey(typ: ExtentType, id: u64)

  /** Bytes on disk, uncompressed bytes and bytes referenced by this file range.
      Unbounded here: the u64 wrap-around of the source's sums is not modelled. */
  datatype ExtentStat = ExtentStat(disk: nat, uncomp: nat, refd: nat)

  /** One classified extent reference: `(ExtentKey, Compression, ExtentStat)`. */
  datatype FileStat = FileStat(key: ExtentKey, comp: Compression, stat: ExtentStat)

  datatype ParseError = BadLength(len: u32) | Misaligned(diskBytenr: u64)

  /** What aborts the program instead of returning: an unknown code (`panic!`) or
      the u64 subtraction `len - 21` overflowing (a debug-build panic). */
  datatype Panic = InvalidCompression(code: nat) | InvalidExtentType(code: nat) | InlineLengthUnderflow(len: u32)

  /** `Result<Option<(ExtentKey, Compression, ExtentStat)>, String>` plus the panics. */
  datatype ParseOutcome = Found(fs: FileStat) | Hole | Rejected(error: ParseError) | Panicked(panic: Panic)

  predicate KnownCodes(i: FileExtentItem)
  {
    i.compression < 4 && i.typ < 3
  }

  /** `IoctlSearchItem::parse`. */
  function Parse(x: SearchItem): (r: ParseOutcome)
    // a panic exactly for an unknown code or an inline record shorter than its header
    ensures r.Panicked? <==> !KnownCodes(x.item) || (x.item.typ == FileExtentInline && x.header.len < InlineHeaderSize)
    // a hole: a full-length non-inline record whose disk byte number is zero
    ensures r.Hole? <==> KnownCodes(x.item) && x.item.typ != FileExtentInline
                         && x.header.len == FileExtentItemSize && x.item.diskBytenr == 0
    // an error: a non-inline record of the wrong length, or a disk byte number off the 4 KiB grid
    ensures r.Rejected? <==> KnownCodes(x.item) && x.item.typ != FileExtentInline
                             && (x.header.len != FileExtentItemSize
                                 || (x.item.diskBytenr != 0 && x.item.diskBytenr % ExtentAlign != 0))
    ensures r.Rejected? && r.error.BadLength? ==> r.error.len == x.header.len
    // the length is checked before the alignment
    ensures r.Rejected? ==> (r.error.BadLength? <==> x.header.len != FileExtentItemSize)
    // the compression code is checked first, then the type code, then the inline length
    ensures r.Panicked? ==> (r.panic == InvalidCompression(x.item.compression) <==> x.item.compression >= 4)
    ensures r.Panicked? && x.item.compression < 4 ==> (r.panic == InvalidExtentType(x.item.typ) <==> x.item.typ >= 3)
    ensures r.Panicked? && KnownCodes(x.item) ==> r.panic == InlineLengthUnderflow(x.header.len)
    ensures r.Rejected? && r.error.Misaligned? ==> r.error.diskBytenr == x.item.diskBytenr
    // a found extent carries the record's own codes
    ensures r.Found? ==> CompressionIndex(r.fs.comp) == x.item.compression
                         && ExtentTypeCode(r.fs.key.typ) == x.item.typ
    // inline: disk bytes are the payload after the 21-byte header, all of ram_bytes is referenced
    ensures r.Found? && r.fs.key.typ == Inline ==>
              r.fs.key.id == 0
              && r.fs.stat == ExtentStat(x.header.len - InlineHeaderSize, x.item.ramBytes, x.item.ramBytes)
    // regular or prealloc: the id counts 4 KiB blocks, the stat is disk_num_bytes, ram_bytes, num_bytes
    ensures r.Found? && r.fs.key.typ != Inline ==>
              x.header.len == FileExtentItemSize && x.item.diskBytenr != 0
              && r.fs.key.id * ExtentAlign == x.item.diskBytenr
              && r.fs.stat == ExtentStat(x.item.diskNumBytes, x.item.ramBytes, x.item.numBytes)
  {
    var hlen := x.header.len;
    var ramBytes := x.item.ramBytes;
    var comp := CompressionFromCode(x.item.compression);
    var ty := ExtentTypeFromCode(x.item.typ);
    if comp.Unknown? then Panicked(InvalidCompression(comp.code))
    else if ty.Unknown? then Panicked(InvalidExtentType(ty.code))
    else if ty.value == Inline then
      if hlen < InlineHeaderSize then Panicked(InlineLengthUnderflow(hlen))
      else Found(FileStat(ExtentKey(Inline, 0), comp.value, ExtentStat(hlen - InlineHeaderSize, ramBytes, ramBytes)))
    else if hlen != FileExtentItemSize then Rejected(BadLength(hlen))
    else if x.item.diskBytenr == 0 then Hole
    // `disk_bytenr & 0xfff != 0`
    else if x.item.diskBytenr % ExtentAlign != 0 then Rejected(Misaligned(x.item.diskBytenr))
    // `disk_bytenr >> 12`
    else Found(FileStat(ExtentKey(ty.value, x.item.diskBytenr / ExtentAlign), comp.value,
                        ExtentStat(x.item.diskNumBytes, ramBytes, x.item.numBytes)))
  }

  /** Dropping the 12 alignment bits loses nothing: two found non-inline extents
      with the same id start at the same disk byte. */
  lemma ExtentIdInjective(x: SearchItem, y: SearchItem)
    requires Parse(x).Found? && Parse(x).fs.key.typ != Inline
    requires Parse(y).Found? && Parse(y).fs.key.typ != Inline
    requires Parse(x).fs.key.id == Parse(y).fs.key.id
    ensures x.item.diskBytenr == y.item.diskBytenr
  {
  }

  // ---------------------------------------------------------------------------
  // The search key (the reserved `unused*` fields are always zero and are left out)

  datatype SearchKey = SearchKey(
    treeId: u64,
    minObjectid: u64, maxObjectid: u64,
    minOffset: u64, maxOffset: u64,
    minTransid: u64, maxTransid: u64,
    minType: u32, maxType: u32,
    nrItems: u32)

  /** btrfs orders items by (objectid, type, offset), lexicographically. */
  predicate KeyLe(o1: nat, t1: nat, f1: nat, o2: nat, t2: nat, f2: nat)
  {
    o1 < o2 || (o1 == o2 && (t1 < t2 || (t1 == t2 && f1 <= f2)))
  }

  /** The items a search key asks the kernel for: item keys between the minimum
      and the maximum key, with a transaction id in range. */
  predicate Selects(k: SearchKey, h: SearchHeader)
  {
    && KeyLe(k.minObjectid, k.minType, k.minOffset, h.objectid, h.typ, h.offset)
    && KeyLe(h.objectid, h.typ, h.offset, k.maxObjectid, k.maxType, k.maxOffset)
    && k.minTransid <= h.transid <= k.maxTransid
  }

  /** `IoctlSearchKey::new(ino)`: the key of a fresh search of one inode. */
  function NewSearchKey(ino: u64): (k: SearchKey)
    ensures k.treeId == 0 && k.nrItems == U32_MAX
    // every extent-data record of the inode, any offset, any transaction
    ensures forall h :: Selects(k, h) <==> h.objectid == ino && h.typ == ExtentDataKey
  {
    SearchKey(0, ino, ino, 0, U64_MAX, 0, U64_MAX, ExtentDataKey, ExtentDataKey, U32_MAX)
  }

  /** The key of a search of inode ino resumed at offset m: it selects exactly
      the inode's extent-data records at or after m. */
  lemma ResumedKeySelects(ino: u64, m: u64, n: u32, h: SearchHeader)
    ensures Selects(NewSearchKey(ino).(minOffset := m, nrItems := n), h)
            <==> h.objectid == ino && h.typ == ExtentDataKey && h.offset >= m
  {
  }
}
