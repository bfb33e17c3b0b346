/** `Sv2Args` and `Sv2ItemIter` of src/btrfs.rs as classes: the reused 64 KiB
    buffer is an array the kernel overwrites, the iterator walks it with a byte
    cursor. Each method is proved to follow the value-level protocol of
    session.dfy. The ioctl itself is a kernel oracle: a function from the search
    key to what the call leaves behind. */
module SearchIter {
  import opened LittleEndian
  import opened Btrfs
  import opened SearchSession

  const BufSize: nat := 65536

  /** A successful ioctl writes back the number of records it found (into
      `key.nr_items`) and fills the buffer; a failed one returns an errno. */
  datatype KernelReply = Filled(count: u32, bytes: seq<u8>) | Errno(code: nat)

  type Kernel = SearchKey -> KernelReply

  /** The records laid out back to back from byte pos: each is a header and its
      `len` payload bytes, and reading one takes 85 bytes (header and full item).
      Fewer than n when the bytes run out. */
  function Records(b: seq<u8>, pos: nat, n: nat): (r: seq<SearchItem>)
    ensures |r| <= n
    decreases n
  {
    if n == 0 || pos + SearchItemSize > |b| then []
    else [RecordAt(b, pos)] + Records(b, RecordEnd(b, pos), n - 1)
  }

  /** The record whose header starts at byte pos. */
  function RecordAt(b: seq<u8>, pos: nat): SearchItem
    requires pos + SearchItemSize <= |b|
  {
    DecodeSearchItem(b[pos..pos + SearchItemSize])
  }

  /** Where the next header starts: after this header and its `len` payload bytes. */
  function RecordEnd(b: seq<u8>, pos: nat): nat
    requires pos + SearchItemSize <= |b|
  {
    pos + SearchHeaderSize + RecordAt(b, pos).header.len
  }

  /** What the model requires of the kernel: a full buffer, at most `nr_items`
      records, and every record readable inside the buffer. */
  ghost predicate ReplyWellFormed(k: SearchKey, r: KernelReply)
  {
    r.Filled? ==> |r.bytes| == BufSize && r.count <= k.nrItems && |Records(r.bytes, 0, r.count)| == r.count
  }

  ghost predicate KernelWellFormed(kernel: Kernel)
  {
    forall k :: ReplyWellFormed(k, kernel(k))
  }

  /** The kernel seen as a pager: the records it lays out in the buffer. */
  function PagerOf(kernel: Kernel): (p: Pager)
    requires KernelWellFormed(kernel)
    ensures PagerRespectsLimit(p)
    ensures forall k :: kernel(k).Errno? <==> p(k).IoctlError?
  {
    (k: SearchKey) =>
      match kernel(k)
      case Filled(c, bytes) => Page(Records(bytes, 0, c))
      case Errno(e) => IoctlError(e)
  }

  datatype IoctlStatus = IoctlOk | IoctlErr(errno: nat)

  datatype IterResult = IterOk(iter: Sv2ItemIter) | IterErr(errno: nat)

  /** `Sv2Args`: the search key and the buffer, reused from file to file. */
  class Sv2Args {
    var key: SearchKey
    const buf: array<u8>

    /** `Sv2Args::new`. */
    constructor ()
      ensures key == NewSearchKey(0)
      ensures fresh(buf) && buf.Length == BufSize
      ensures forall i :: 0 <= i < BufSize ==> buf[i] == 0
    {
      key := NewSearchKey(0);
      buf := new u8[BufSize](_ => 0);
    }

    /** `Sv2Args::set_key`. */
    method SetKey(ino: u64)
      modifies this
      ensures key == NewSearchKey(ino)
    {
      key := NewSearchKey(ino);
    }

    /** `Sv2Args::search_file`: reset the key for the inode and start an iterator. */
    method SearchFile(kernel: Kernel, ino: u64) returns (r: IterResult)
      requires buf.Length == BufSize && KernelWellFormed(kernel)
      modifies this, buf
      ensures r.IterOk? ==>
                && fresh(r.iter) && r.iter.args == this && r.iter.kernel == kernel
                && r.iter.Valid()
                && Open(ino, PagerOf(kernel)) == Opened(r.iter.Abstract())
      ensures r.IterErr? ==> Open(ino, PagerOf(kernel)) == OpenFailed(r.errno)
    {
      SetKey(ino);
      r := Sv2ItemIter.New(this, kernel);
    }
  }

  class Sv2ItemIter {
    const args: Sv2Args
    const kernel: Kernel
    var pos: nat
    var nrestItem: u32
    var last: bool

    /** The buffer holds nrest_item readable records from the cursor on. */
    ghost predicate Valid()
      reads this, args, args.buf
    {
      && args.buf.Length == BufSize
      && KernelWellFormed(kernel)
      && |Records(args.buf[..], pos, nrestItem)| == nrestItem
    }

    /** The session this iterator is in: the key, the records still to be returned, the flag. */
    ghost function Abstract(): Session
      reads this, args, args.buf
    {
      Session(args.key, Records(args.buf[..], pos, nrestItem), last)
    }

    /** The struct literal of `new`, after its two key resets. */
    constructor (args: Sv2Args, kernel: Kernel)
      modifies args
      ensures this.args == args && this.kernel == kernel
      ensures pos == 0 && nrestItem == 0 && !last
      ensures args.key == old(args.key).(nrItems := U32_MAX, minOffset := 0)
    {
      args.key := args.key.(nrItems := U32_MAX, minOffset := 0);
      this.args := args;
      this.kernel := kernel;
      pos, nrestItem, last := 0, 0, false;
    }

    /** `Sv2ItemIter::new`: reset `nr_items` and `min_offset`, then load the first page. */
    static method New(args: Sv2Args, kernel: Kernel) returns (r: IterResult)
      requires args.buf.Length == BufSize && KernelWellFormed(kernel)
      modifies args, args.buf
      ensures r.IterOk? ==>
                && fresh(r.iter) && r.iter.args == args && r.iter.kernel == kernel
                && r.iter.Valid()
                && Start(old(args.key), PagerOf(kernel)) == Opened(r.iter.Abstract())
      ensures r.IterErr? ==> Start(old(args.key), PagerOf(kernel)) == OpenFailed(r.errno)
    {
      var it := new Sv2ItemIter(args, kernel);
      assert Records(args.buf[..], 0, 0) == [];
      var st := it.CallIoctl();
      if st.IoctlErr? {
        return IterErr(st.errno);
      }
      return IterOk(it);
    }

    /** `need_ioctl`. */
    predicate NeedIoctl()
      reads this
    {
      nrestItem == 0 && !last
    }

    /** `finish`. */
    predicate Finish()
      reads this
    {
      nrestItem == 0 && last
    }

    /** `call_ioctl`: the kernel fills the buffer and writes back the count; the
        cursor returns to the start and a page of at most 512 records is the last. */
    method CallIoctl() returns (st: IoctlStatus)
      requires args.buf.Length == BufSize && KernelWellFormed(kernel)
      modifies this, args, args.buf
      ensures Valid() || st.IoctlErr?
      ensures match kernel(old(args.key))
              case Errno(e) =>
                st == IoctlErr(e) && unchanged(this) && unchanged(args) && unchanged(args.buf)
              case Filled(count, bytes) =>
                && st == IoctlOk
                && args.buf[..] == bytes
                && args.key == old(args.key).(nrItems := count)
                && pos == 0 && nrestItem == count && (last <==> count <= LastPageItems)
                && Abstract() == Loaded(old(Abstract()), Records(bytes, 0, count))
    {
      var reply := kernel(args.key);
      assert ReplyWellFormed(args.key, reply);
      match reply
      case Errno(e) =>
        return IoctlErr(e);
      case Filled(count, bytes) =>
        forall i | 0 <= i < BufSize {
          args.buf[i] := bytes[i];
        }
        assert args.buf[..] == bytes;
        args.key := args.key.(nrItems := count);
        nrestItem := count;
        last := nrestItem <= LastPageItems;
        pos := 0;
        return IoctlOk;
    }

    /** `Iterator::next`: reload if the page is used up and was not the last,
        then end or return the record at the cursor. */
    method Next() returns (r: NextResult)
      requires Valid()
      modifies this, args, args.buf
      ensures Valid() || r.Fault?
      ensures r.Fault? && r.fault.IoctlFailed? ==> unchanged(this) && unchanged(args) && unchanged(args.buf)
      ensures SearchSession.Next(old(Abstract()), PagerOf(kernel)) == Step(Abstract(), r)
    {
      ghost var s0 := Abstract();
      ghost var pager := PagerOf(kernel);
      if NeedIoctl() {
        var st := CallIoctl();
        if st.IoctlErr? {
          assert pager(s0.key) == IoctlError(st.errno);
          return Fault(IoctlFailed(st.errno));
        }
        assert Abstract() == Loaded(s0, pager(s0.key).items);
        assert SearchSession.Next(s0, pager) == Take(Abstract());
      } else {
        assert SearchSession.Next(s0, pager) == Take(s0);
      }
      r := TakeItem();
    }

    /** The part of `next` after the reload: end if the last page is used up,
        else return the record at the cursor and, when the page is used up,
        move `min_offset` one past it. */
    method TakeItem() returns (r: NextResult)
      requires Valid() && !NeedIoctl()
      modifies this, args
      ensures Valid() || r.Fault?
      ensures Step(Abstract(), r) == Take(old(Abstract()))
    {
      if Finish() {
        return End;
      }
      var item := Advance();
      if nrestItem == 0 {
        if item.header.offset == U64_MAX {
          return Fault(OffsetOverflow);
        }
        ghost var b := args.buf[..];
        args.key := args.key.(minOffset := item.header.offset + 1);
        assert args.buf[..] == b;
      }
      return Yield(item);
    }

    /** Decode the record at the cursor, move the cursor past its header and
        payload, and count it off. */
    method Advance() returns (item: SearchItem)
      requires Valid() && nrestItem > 0
      modifies this
      ensures Valid() && last == old(last)
      ensures item == old(Abstract()).pending[0]
      ensures Abstract() == old(Abstract()).(pending := old(Abstract()).pending[1..])
      ensures pos == old(pos) + SearchHeaderSize + item.header.len && nrestItem == old(nrestItem) - 1
    {
      ghost var b := args.buf[..];
      RecordsUnfold(b, pos, nrestItem);
      item := DecodeSearchItem(args.buf[pos..pos + SearchItemSize]);
      assert item == RecordAt(b, pos);
      pos := pos + SearchHeaderSize + item.header.len;
      nrestItem := nrestItem - 1;
      assert args.buf[..] == b;
    }
  }

  /** The first of n readable records sits at the cursor; the other n - 1 follow it. */
  lemma RecordsUnfold(b: seq<u8>, pos: nat, n: nat)
    requires n > 0 && |Records(b, pos, n)| == n
    ensures pos + SearchItemSize <= |b|
    ensures Records(b, pos, n)[0] == RecordAt(b, pos)
    ensures Records(b, pos, n)[1..] == Records(b, RecordEnd(b, pos), n - 1)
    ensures |Records(b, RecordEnd(b, pos), n - 1)| == n - 1
  {
  }
}
