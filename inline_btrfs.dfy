/** The `mod btrfs` declared inside src/main.rs: the revision the program is
    actually built from. Its codec, key and argument block are those of
    src/btrfs.rs (module Btrfs, class SearchIter.Sv2Args); what differs is
    `parse` (a hole is an extent of id 0) and the iterator, which keeps the last
    offset itself, resumes AT it rather than one past it, and does not check for
    the end again after a reload. */
module InlineBtrfs {
  import opened LittleEndian
  import opened Btrfs
  import SearchSession
  import SearchIter
  import Pagination

  // ---------------------------------------------------------------------------
  // parse

  /** main.rs `IoctlSearchItem::parse`: the btrfs.rs classification, except that
      a hole is returned as an extent of id 0 with an all-zero stat. */
  function Parse(x: SearchItem): (r: ParseOutcome)
    ensures !r.Hole?
    // wherever btrfs.rs does not see a hole, both revisions agree
    ensures !Btrfs.Parse(x).Hole? ==> r == Btrfs.Parse(x)
    // where it sees one, this revision reports a zero-sized extent of id 0 of the record's type
    ensures Btrfs.Parse(x).Hole? ==>
              && r.Found? && r.fs.key.id == 0 && r.fs.stat == ExtentStat(0, 0, 0)
              && r.fs.key.typ != Inline
              && ExtentTypeCode(r.fs.key.typ) == x.item.typ
              && CompressionIndex(r.fs.comp) == x.item.compression
  {
    var hlen := x.header.len;
    var ramBytes := x.item.ramBytes;
    var comp := CompressionFromCode(x.item.compression);
    var ty := ExtentTypeFromCode(x.item.typ);
    if comp.Unknown? then Panicked(InvalidCompression(comp.code))
    else if ty.Unknown? then Panicked(InvalidExtentType(ty.code))
    else if ty.value == Inline then
      if hlen < InlineHeaderSize then Panicked(InlineLengthUnderflow(hlen))
      else Found(FileStat(ExtentKey(Inline, 0), comp.value, ExtentStat(hlen - InlineHeaderSize, ramBytes, ramBytes)))
    else if hlen != FileExtentItemSize then Rejected(BadLength(hlen))
    else if x.item.diskBytenr == 0 then Found(FileStat(ExtentKey(ty.value, 0), comp.value, ExtentStat(0, 0, 0)))
    else if x.item.diskBytenr % ExtentAlign != 0 then Rejected(Misaligned(x.item.diskBytenr))
    else Found(FileStat(ExtentKey(ty.value, x.item.diskBytenr / ExtentAlign), comp.value,
                        ExtentStat(x.item.diskNumBytes, ramBytes, x.item.numBytes)))
  }

  // ---------------------------------------------------------------------------
  // The search session of this revision, on values

  /** As SearchSession.Session, plus the iterator's own copy of the last offset
      (`offset`); `finish` is the last-page flag. */
  datatype Session = Session(key: SearchKey, pending: seq<SearchItem>, offset: u64, finish: bool)

  /** `unwrap` of a failed ioctl, or `nrest_item -= 1` from zero (a debug-build panic). */
  datatype Fault = IoctlFailed(errno: nat) | CountUnderflow

  datatype NextResult = Yield(item: SearchItem) | End | Fault(fault: Fault)

  datatype Step = Step(next: Session, out: NextResult)

  /** The key `call_ioctl` sends: `min_offset` is set to the kept offset first. */
  function QueryKey(s: Session): (k: SearchKey)
    // the search starts at the kept offset; no other field of the key changes
    ensures k.minOffset == s.offset
    ensures k == s.key.(minOffset := k.minOffset)
  {
    s.key.(minOffset := s.offset)
  }

  /** The state after a successful `call_ioctl`. */
  function Loaded(s: Session, items: seq<SearchItem>): (r: Session)
    requires |items| <= U32_MAX
    ensures r.pending == items && r.offset == s.offset
    ensures r.key == s.key.(minOffset := s.offset, nrItems := |items|)
    ensures r.finish <==> |items| <= SearchSession.LastPageItems
    // the same load as the later revision, on the key sent with the kept offset
    ensures var t := SearchSession.Loaded(SearchSession.Session(QueryKey(s), [], false), items);
            r.key == t.key && r.pending == t.pending && r.finish == t.last
  {
    Session(QueryKey(s).(nrItems := |items|), items, s.offset, |items| <= SearchSession.LastPageItems)
  }

  /** Decode and return the record at the cursor; when the page is used up,
      remember its offset as the next starting point. */
  function Take(s: Session): (r: Step)
    // the count underflows when nothing is left; otherwise the record at the cursor comes out
    ensures r.out.Fault? <==> s.pending == []
    ensures s.pending == [] ==> r == Step(s, Fault(CountUnderflow))
    ensures s.pending != [] ==>
              && r.out == Yield(s.pending[0]) && r.next.pending == s.pending[1..]
              && r.next.key == s.key && r.next.finish == s.finish
              && r.next.offset == if |s.pending| == 1 then s.pending[0].header.offset else s.offset
  {
    if s.pending == [] then Step(s, Fault(CountUnderflow))
    else
      var item := s.pending[0];
      var rest := s.pending[1..];
      Step(s.(pending := rest, offset := if rest == [] then item.header.offset else s.offset), Yield(item))
  }

  /** main.rs `Sv2ItemIter::next`. */
  function SessionNext(s: Session, pager: SearchSession.Pager): (r: Step)
    requires SearchSession.PagerRespectsLimit(pager)
    // fused once the last page is used up
    ensures s.pending == [] && s.finish ==> r == Step(s, End)
    // a record of the current page is returned in order; the key and the flag stay
    ensures s.pending != [] ==>
              && r.out == Yield(s.pending[0]) && r.next.pending == s.pending[1..]
              && r.next.key == s.key && r.next.finish == s.finish
    // in the middle of a page nothing else changes
    ensures |s.pending| > 1 ==> r == Step(s.(pending := s.pending[1..]), Yield(s.pending[0]))
    // a reload resumes at the offset of the last record returned, not one past it
    ensures s.pending == [] && !s.finish ==>
              match pager(QueryKey(s))
              case IoctlError(e) => r == Step(s.(key := QueryKey(s)), Fault(IoctlFailed(e)))
              case Page(items) =>
                && r.next.key == QueryKey(s).(nrItems := |items|)
                && (r.next.finish <==> |items| <= SearchSession.LastPageItems)
                && (items == [] ==> r.out == Fault(CountUnderflow) && r.next.pending == [])
                && (items != [] ==> r.out == Yield(items[0]) && r.next.pending == items[1..])
    // the offset kept for the next query is that of the last record of a used-up page,
    // and it changes at no other time
    ensures r.out.Yield? && r.next.pending == [] ==> r.next.offset == r.out.item.header.offset
    ensures !(r.out.Yield? && r.next.pending == []) ==> r.next.offset == s.offset
    // this revision never reports the end straight after a reload
    ensures r.out.End? ==> r.next == s
  {
    if s.pending == [] then
      if s.finish then Step(s, End)
      else
        match pager(QueryKey(s))
        case IoctlError(e) => Step(s.(key := QueryKey(s)), Fault(IoctlFailed(e)))
        case Page(items) => Take(Loaded(s, items))
    else Take(s)
  }

  datatype OpenResult = Opened(session: Session) | OpenFailed(errno: nat)

  /** main.rs `Sv2ItemIter::new` on the key left in the arguments. */
  function Start(key: SearchKey, pager: SearchSession.Pager): (r: OpenResult)
    requires SearchSession.PagerRespectsLimit(pager)
    // the same first query, and the same first page, as the btrfs.rs revision
    ensures var other := SearchSession.Start(key, pager);
            && (r.OpenFailed? <==> other.OpenFailed?)
            && (r.OpenFailed? ==> r.errno == other.errno)
            && (r.Opened? ==> r.session.key == other.session.key && r.session.pending == other.session.pending
                              && r.session.finish == other.session.last && r.session.offset == 0)
  {
    var s := Session(key.(nrItems := U32_MAX, minOffset := 0), [], 0, false);
    match pager(QueryKey(s))
    case IoctlError(e) => OpenFailed(e)
    case Page(items) => Opened(Loaded(s, items))
  }

  /** `Sv2Args::search_file` followed by this revision's `new`. */
  function Open(ino: u64, pager: SearchSession.Pager): (r: OpenResult)
    requires SearchSession.PagerRespectsLimit(pager)
    // the same first query and page as the later revision's `Open`, with offset 0 kept
    ensures var other := SearchSession.Open(ino, pager);
            && (r.OpenFailed? <==> other.OpenFailed?)
            && (r.OpenFailed? ==> r.errno == other.errno)
            && (r.Opened? ==> r.session.key == other.session.key && r.session.pending == other.session.pending
                              && r.session.finish == other.session.last && r.session.offset == 0)
  {
    Start(NewSearchKey(ino), pager)
  }

  /** The records returned over at most fuel calls of `next`. */
  function Drain(s: Session, pager: SearchSession.Pager, fuel: nat): seq<SearchItem>
    requires SearchSession.PagerRespectsLimit(pager)
    decreases fuel
  {
    if fuel == 0 then []
    else
      var st := SessionNext(s, pager);
      match st.out
      case Yield(x) => [x] + Drain(st.next, pager, fuel - 1)
      case End => []
      case Fault(_) => []
  }

  /** The session once its current page is used up. */
  function UsedUp(s: Session): Session
    requires s.pending != []
  {
    s.(pending := [], offset := s.pending[|s.pending| - 1].header.offset)
  }

  /** Draining returns the records of the current page, then goes on from the used-up state. */
  lemma {:induction false} DrainPage(s: Session, pager: SearchSession.Pager, fuel: nat)
    requires SearchSession.PagerRespectsLimit(pager)
    requires s.pending != [] && fuel >= |s.pending|
    ensures Drain(s, pager, fuel) == s.pending + Drain(UsedUp(s), pager, fuel - |s.pending|)
    decreases |s.pending|
  {
    var st := Take(s);
    assert SessionNext(s, pager) == st;
    assert Drain(s, pager, fuel) == [s.pending[0]] + Drain(st.next, pager, fuel - 1);
    if |s.pending| > 1 {
      DrainPage(st.next, pager, fuel - 1);
      assert UsedUp(st.next) == UsedUp(s);
      assert s.pending == [s.pending[0]] + st.next.pending;
    } else {
      assert st.next == UsedUp(s);
    }
  }

  /** Opening a search of a file with more than 512 records loads the first
      page, of at most cap records, and leaves the session expecting more pages:
      finish is set only by a page of 512 records or fewer. */
  lemma FirstPage(recs: seq<SearchItem>, ino: u64, cap: nat)
    requires Pagination.FileRecords(recs, ino)
    requires SearchSession.LastPageItems < cap <= U32_MAX && SearchSession.LastPageItems < |recs|
    ensures var m := Pagination.Min(cap, |recs|);
            Open(ino, Pagination.ModelPager(recs, cap))
            == Opened(Session(NewSearchKey(ino).(nrItems := m), recs[..m], 0, false))
  {
    var key := NewSearchKey(ino);
    forall j | 0 <= j < |recs| ensures Selects(key, recs[j].header) {}
    Pagination.SelectedSuffix(recs, key, 0);
  }

  /** The query after the first page asks for the records from the last one
      returned on, so it returns that record first. */
  lemma SecondQuery(recs: seq<SearchItem>, ino: u64, cap: nat)
    requires Pagination.FileRecords(recs, ino)
    requires SearchSession.LastPageItems < cap <= U32_MAX && SearchSession.LastPageItems < |recs|
    ensures var m := Pagination.Min(cap, |recs|);
            var u := Session(NewSearchKey(ino).(nrItems := m), [], recs[m - 1].header.offset, false);
            && SessionNext(u, Pagination.ModelPager(recs, cap)).out == Yield(recs[m - 1])
            && Drain(u, Pagination.ModelPager(recs, cap), 1) == [recs[m - 1]]
  {
    var m := Pagination.Min(cap, |recs|);
    var o := recs[m - 1].header.offset;
    var k := NewSearchKey(ino).(minOffset := o, nrItems := m);
    forall j | 0 <= j < |recs|
      ensures Selects(k, recs[j].header) <==> m - 1 <= j
    {
      ResumedKeySelects(ino, o, m, recs[j].header);
    }
    Pagination.SelectedSuffix(recs, k, m - 1);
    DrainOne(Session(NewSearchKey(ino).(nrItems := m), [], o, false), Pagination.ModelPager(recs, cap));
  }

  /** The record at a page boundary is returned twice. Against the same kernel
      under which the btrfs.rs session returns every record once
      (Pagination.SessionReturnsEveryRecord), a file with more than 512 records
      gets, after the first page of m records, the last record of that page
      again; this holds whether or not the first page held the whole file. */
  lemma BoundaryRecordRepeated(recs: seq<SearchItem>, ino: u64, cap: nat)
    requires Pagination.FileRecords(recs, ino)
    requires SearchSession.LastPageItems < cap <= U32_MAX && SearchSession.LastPageItems < |recs|
    ensures var m := Pagination.Min(cap, |recs|);
            var started := Open(ino, Pagination.ModelPager(recs, cap));
            && started.Opened?
            && Drain(started.session, Pagination.ModelPager(recs, cap), m + 1) == recs[..m] + [recs[m - 1]]
  {
    var m := Pagination.Min(cap, |recs|);
    var pager := Pagination.ModelPager(recs, cap);
    FirstPage(recs, ino, cap);
    var s := Open(ino, pager).session;
    DrainPage(s, pager, m + 1);
    assert UsedUp(s) == Session(NewSearchKey(ino).(nrItems := m), [], recs[m - 1].header.offset, false);
    SecondQuery(recs, ino, cap);
  }

  /** One call that returns a record drains exactly that record. */
  lemma DrainOne(u: Session, pager: SearchSession.Pager)
    requires SearchSession.PagerRespectsLimit(pager) && SessionNext(u, pager).out.Yield?
    ensures Drain(u, pager, 1) == [SessionNext(u, pager).out.item]
  {
    assert Drain(SessionNext(u, pager).next, pager, 0) == [];
  }

  // ---------------------------------------------------------------------------
  // The iterator of this revision, over the argument block of src/btrfs.rs

  datatype IterResult = IterOk(iter: Sv2ItemIter) | IterErr(errno: nat)

  /** `Sv2Args::search_file` of this revision: reset the key, start an iterator. */
  method SearchFile(args: SearchIter.Sv2Args, kernel: SearchIter.Kernel, ino: u64) returns (r: IterResult)
    requires args.buf.Length == SearchIter.BufSize && SearchIter.KernelWellFormed(kernel)
    modifies args, args.buf
    ensures r.IterOk? ==>
              && fresh(r.iter) && r.iter.args == args && r.iter.kernel == kernel && r.iter.Valid()
              && Open(ino, SearchIter.PagerOf(kernel)) == Opened(r.iter.Abstract())
    ensures r.IterErr? ==> Open(ino, SearchIter.PagerOf(kernel)) == OpenFailed(r.errno)
  {
    args.SetKey(ino);
    r := Sv2ItemIter.New(args, kernel);
  }

  class Sv2ItemIter {
    const args: SearchIter.Sv2Args
    const kernel: SearchIter.Kernel
    var pos: nat
    var offset: u64
    var nrestItem: u32
    var finish: bool

    ghost predicate Valid()
      reads this, args, args.buf
    {
      && args.buf.Length == SearchIter.BufSize
      && SearchIter.KernelWellFormed(kernel)
      && |SearchIter.Records(args.buf[..], pos, nrestItem)| == nrestItem
    }

    ghost function Abstract(): Session
      reads this, args, args.buf
    {
      Session(args.key, SearchIter.Records(args.buf[..], pos, nrestItem), offset, finish)
    }

    /** The struct literal of `new`, after its two key resets. */
    constructor (args: SearchIter.Sv2Args, kernel: SearchIter.Kernel)
      modifies args
      ensures this.args == args && this.kernel == kernel
      ensures pos == 0 && offset == 0 && nrestItem == 0 && !finish
      ensures args.key == old(args.key).(nrItems := U32_MAX, minOffset := 0)
    {
      args.key := args.key.(nrItems := U32_MAX, minOffset := 0);
      this.args := args;
      this.kernel := kernel;
      pos, offset, nrestItem, finish := 0, 0, 0, false;
    }

    /** main.rs `Sv2ItemIter::new`. */
    static method New(args: SearchIter.Sv2Args, kernel: SearchIter.Kernel) returns (r: IterResult)
      requires args.buf.Length == SearchIter.BufSize && SearchIter.KernelWellFormed(kernel)
      modifies args, args.buf
      ensures r.IterOk? ==>
                && fresh(r.iter) && r.iter.args == args && r.iter.kernel == kernel && r.iter.Valid()
                && Start(old(args.key), SearchIter.PagerOf(kernel)) == Opened(r.iter.Abstract())
      ensures r.IterErr? ==> Start(old(args.key), SearchIter.PagerOf(kernel)) == OpenFailed(r.errno)
    {
      var it := new Sv2ItemIter(args, kernel);
      var st := it.CallIoctl();
      if st.IoctlErr? {
        return IterErr(st.errno);
      }
      return IterOk(it);
    }

    /** main.rs `call_ioctl`: set `min_offset` to the kept offset, then query. */
    method CallIoctl() returns (st: SearchIter.IoctlStatus)
      requires args.buf.Length == SearchIter.BufSize && SearchIter.KernelWellFormed(kernel)
      modifies this, args, args.buf
      ensures Valid() || st.IoctlErr?
      ensures match kernel(old(args.key).(minOffset := offset))
              case Errno(e) =>
                && st == SearchIter.IoctlErr(e) && unchanged(this) && unchanged(args.buf)
                && args.key == old(args.key).(minOffset := offset)
              case Filled(count, bytes) =>
                && st == SearchIter.IoctlOk
                && args.buf[..] == bytes
                && args.key == old(args.key).(minOffset := offset, nrItems := count)
                && pos == 0 && nrestItem == count && offset == old(offset)
                && (finish <==> count <= SearchSession.LastPageItems)
    {
      args.key := args.key.(minOffset := offset);
      var reply := kernel(args.key);
      assert SearchIter.ReplyWellFormed(args.key, reply);
      match reply
      case Errno(e) =>
        return SearchIter.IoctlErr(e);
      case Filled(count, bytes) =>
        forall i | 0 <= i < SearchIter.BufSize {
          args.buf[i] := bytes[i];
        }
        assert args.buf[..] == bytes;
        args.key := args.key.(nrItems := count);
        nrestItem := count;
        finish := nrestItem <= SearchSession.LastPageItems;
        pos := 0;
        return SearchIter.IoctlOk;
    }

    /** main.rs `Iterator::next`. */
    method Next() returns (r: NextResult)
      requires Valid()
      modifies this, args, args.buf
      ensures Valid() || r.Fault?
      ensures SessionNext(old(Abstract()), SearchIter.PagerOf(kernel)) == Step(Abstract(), r)
    {
      if nrestItem == 0 {
        if finish {
          return End;
        }
        var st := CallIoctl();
        if st.IoctlErr? {
          return Fault(IoctlFailed(st.errno));
        }
      }
      r := TakeItem();
    }

    /** The part of `next` after the reload: decode the record at the cursor,
        count it off and, when the page is used up, keep its offset. */
    method TakeItem() returns (r: NextResult)
      requires Valid()
      modifies this
      ensures Valid() || r.Fault?
      ensures Step(Abstract(), r) == Take(old(Abstract()))
    {
      if nrestItem == 0 {
        return Fault(CountUnderflow);
      }
      var item := Advance();
      if nrestItem == 0 {
        offset := item.header.offset;
      }
      return Yield(item);
    }

    /** Decode the record at the cursor, move the cursor past its header and
        payload, and count it off. */
    method Advance() returns (item: SearchItem)
      requires Valid() && nrestItem > 0
      modifies this
      ensures Valid() && finish == old(finish) && offset == old(offset)
      ensures item == old(Abstract()).pending[0]
      ensures Abstract() == old(Abstract()).(pending := old(Abstract()).pending[1..])
      ensures pos == old(pos) + SearchHeaderSize + item.header.len && nrestItem == old(nrestItem) - 1
    {
      ghost var b := args.buf[..];
      SearchIter.RecordsUnfold(b, pos, nrestItem);
      item := DecodeSearchItem(args.buf[pos..pos + SearchItemSize]);
      assert item == SearchIter.RecordAt(b, pos);
      pos := pos + SearchHeaderSize + item.header.len;
      nrestItem := nrestItem - 1;
      assert args.buf[..] == b;
    }
  }
}
