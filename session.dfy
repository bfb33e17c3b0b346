/** The paginated search protocol of `Sv2ItemIter` in src/btrfs.rs, stated on
    values: the search key, the records of the current page still to be
    returned and the last-page flag. The kernel is a pager, a function from the
    search key to the page of records it returns (or an errno). The class in
    search_iter.dfy walks the byte buffer and is proved to follow `Next`. */
module SearchSession {
  import opened LittleEndian
  import opened Btrfs

  /** A page of at most this many items is taken to be the last one. */
  const LastPageItems: nat := 512

  datatype PageReply = Page(items: seq<SearchItem>) | IoctlError(errno: nat)

  type Pager = SearchKey -> PageReply

  /** The kernel returns at most `nr_items` records. */
  ghost predicate PagerRespectsLimit(pager: Pager)
  {
    forall k :: pager(k).Page? ==> |pager(k).items| <= k.nrItems
  }

  /** `pending` are the records of the loaded page not yet returned, in order
      (`nrest_item == |pending|`); `last` is the last-page flag. */
  datatype Session = Session(key: SearchKey, pending: seq<SearchItem>, last: bool)

  /** `unwrap` of a failed ioctl, or `offset + 1` overflowing u64 (a debug-build panic). */
  datatype Fault = IoctlFailed(errno: nat) | OffsetOverflow

  datatype NextResult = Yield(item: SearchItem) | End | Fault(fault: Fault)

  datatype Step = Step(next: Session, out: NextResult)

  /** The state after a successful `call_ioctl`: the kernel wrote back the number
      of records found, the cursor is at the start of the new page. */
  function Loaded(s: Session, items: seq<SearchItem>): (r: Session)
    requires |items| <= U32_MAX
    ensures r.pending == items && r.key == s.key.(nrItems := |items|)
    ensures r.last <==> |items| <= LastPageItems
    // a page just loaded never asks for another load: an empty page is a short one
    ensures !NeedIoctl(r)
    ensures Finished(r) <==> items == []
  {
    Session(s.key.(nrItems := |items|), items, |items| <= LastPageItems)
  }

  /** `finish`: nothing is pending and the page was the last. */
  predicate Finished(s: Session)
  {
    s.pending == [] && s.last
  }

  /** `need_ioctl`: nothing is pending and more pages may follow. */
  predicate NeedIoctl(s: Session): (b: bool)
    // a state needs a load, is finished, or has a record to return: exactly one of these
    ensures b <==> s.pending == [] && !Finished(s)
  {
    s.pending == [] && !s.last
  }

  /** The part of `next` after the reload: end, or return the record at the
      cursor and, when the page is used up, move `min_offset` past it. */
  function Take(s: Session): (r: Step)
    requires !NeedIoctl(s)
    ensures r.out.End? <==> Finished(s)
    ensures r.out.End? ==> r.next == s
    ensures !Finished(s) ==> r.next.pending == s.pending[1..] && r.next.last == s.last
    // the record at the cursor comes out, unless moving past it would overflow the offset
    ensures r.out.Fault? ==> |s.pending| == 1 && s.pending[0].header.offset == U64_MAX
    ensures r.out.Fault? ==> r.out.fault == OffsetOverflow
    ensures r.out.Yield? ==> r.out.item == s.pending[0]
    // `min_offset` moves one past the last record of a used-up page; otherwise the key stays
    ensures r.out.Yield? && |s.pending| == 1 ==> s.pending[0].header.offset < U64_MAX
    ensures r.out.Yield? && |s.pending| == 1 ==> r.next.key == s.key.(minOffset := s.pending[0].header.offset + 1)
    ensures !(r.out.Yield? && |s.pending| == 1) ==> r.next.key == s.key
  {
    if Finished(s) then Step(s, End)
    else
      var item := s.pending[0];
      var rest := s.pending[1..];
      if rest != [] then Step(s.(pending := rest), Yield(item))
      else if item.header.offset == U64_MAX then Step(s.(pending := rest), Fault(OffsetOverflow))
      else Step(Session(s.key.(minOffset := item.header.offset + 1), rest, s.last), Yield(item))
  }

  /** `Sv2ItemIter::next`. */
  function Next(s: Session, pager: Pager): (r: Step)
    requires PagerRespectsLimit(pager)
    // fused: once the last page is used up, every call ends and changes nothing
    ensures Finished(s) ==> r == Step(s, End)
    // a record of the current page is returned in order, the cursor moves past it
    ensures s.pending != [] ==>
              r.next.pending == s.pending[1..] && r.next.last == s.last
              && (r.out == Yield(s.pending[0]) || (r.out == Fault(OffsetOverflow) && s.pending[0].header.offset == U64_MAX))
    // in the middle of a page nothing else changes
    ensures |s.pending| > 1 ==> r == Step(s.(pending := s.pending[1..]), Yield(s.pending[0]))
    // a used-up page that was not the last one is replaced by the kernel's next page
    ensures NeedIoctl(s) ==>
              match pager(s.key)
              case IoctlError(e) => r == Step(s, Fault(IoctlFailed(e)))
              case Page(items) =>
                (items == [] ==> r == Step(Loaded(s, items), End))
                && (items != [] ==> r.next.pending == items[1..] && r.next.key.nrItems == |items|
                                    && (r.next.last <==> |items| <= LastPageItems)
                                    && (r.out == Yield(items[0])
                                        || (r.out == Fault(OffsetOverflow) && |items| == 1
                                            && items[0].header.offset == U64_MAX)))
    // the next query starts one past the last record of a used-up page
    ensures r.out.Yield? && r.next.pending == [] ==> r.next.key.minOffset == r.out.item.header.offset + 1
    // `min_offset` changes only then, `nr_items` only on a reload, and nothing else of the key
    ensures !(r.out.Yield? && r.next.pending == []) ==> r.next.key.minOffset == s.key.minOffset
    ensures !NeedIoctl(s) ==> r.next.key.nrItems == s.key.nrItems
    ensures r.next.key == s.key.(minOffset := r.next.key.minOffset, nrItems := r.next.key.nrItems)
    // an end leaves the session finished
    ensures r.out.End? ==> Finished(r.next)
  {
    if NeedIoctl(s) then
      match pager(s.key)
      case IoctlError(e) => Step(s, Fault(IoctlFailed(e)))
      case Page(items) => Take(Loaded(s, items))
    else Take(s)
  }

  /** Whether a call to `next` queries the kernel: only when the page is used up
      and it was not the last; otherwise the result does not depend on the pager. */
  lemma QueryOnlyWhenNeeded(s: Session, p1: Pager, p2: Pager)
    requires PagerRespectsLimit(p1) && PagerRespectsLimit(p2)
    requires !NeedIoctl(s)
    ensures Next(s, p1) == Next(s, p2)
  {
  }

  datatype OpenResult = Opened(session: Session) | OpenFailed(errno: nat)

  /** `Sv2ItemIter::new` on the key left in the arguments: set `nr_items` to
      u32::MAX and `min_offset` to 0 (nothing else is reset) and load the first page. */
  function Start(key: SearchKey, pager: Pager): (r: OpenResult)
    requires PagerRespectsLimit(pager)
    ensures var first := key.(nrItems := U32_MAX, minOffset := 0);
            && (pager(first).IoctlError? <==> r.OpenFailed?)
            && (r.OpenFailed? ==> r.errno == pager(first).errno)
            && (r.Opened? ==>
                  var items := pager(first).items;
                  && r.session.key == first.(nrItems := |items|)
                  && r.session.pending == items
                  && (r.session.last <==> |items| <= LastPageItems))
  {
    var first := key.(nrItems := U32_MAX, minOffset := 0);
    match pager(first)
    case IoctlError(e) => OpenFailed(e)
    case Page(items) => Opened(Loaded(Session(first, [], false), items))
  }

  /** `Sv2Args::search_file`: reset the whole key for the inode, then `new`. The
      first query asks for every extent-data record of the inode. */
  function Open(ino: u64, pager: Pager): (r: OpenResult)
    requires PagerRespectsLimit(pager)
    ensures pager(NewSearchKey(ino)).IoctlError? <==> r.OpenFailed?
    ensures r.OpenFailed? ==> r.errno == pager(NewSearchKey(ino)).errno
    ensures r.Opened? ==>
              var items := pager(NewSearchKey(ino)).items;
              && r.session.key == NewSearchKey(ino).(nrItems := |items|)
              && r.session.pending == items
              && (r.session.last <==> |items| <= LastPageItems)
  {
    Start(NewSearchKey(ino), pager)
  }

  datatype Stop = Ended | Faulted(fault: Fault) | OutOfFuel

  /** The records a session returns over at most fuel calls of `next`, and why it
      stopped (the iterator as `for_each` drives it). */
  function Drain(s: Session, pager: Pager, fuel: nat): (seq<SearchItem>, Stop)
    requires PagerRespectsLimit(pager)
    decreases fuel
  {
    if fuel == 0 then ([], OutOfFuel)
    else
      var st := Next(s, pager);
      match st.out
      case Yield(x) => var (rest, stop) := Drain(st.next, pager, fuel - 1); ([x] + rest, stop)
      case End => ([], Ended)
      case Fault(f) => ([], Faulted(f))
  }
}
