/** The btrfs.rs search session against a model of the kernel: the inode's
    extent-data records sorted by offset, of which a query returns, in order,
    those the key selects, at most `nr_items` of them and at most as many as the
    buffer holds. When the buffer holds more than 512 records, the session
    returns every record exactly once, in order: the same sequence a single
    unpaginated pass would give. */
module Pagination {
  import opened LittleEndian
  import opened Btrfs
  import opened SearchSession

  /** The extent-data records of inode ino as the kernel keeps them: all of that
      inode, offsets strictly increasing and below u64::MAX. */
  ghost predicate FileRecords(recs: seq<SearchItem>, ino: u64)
  {
    && (forall j :: 0 <= j < |recs| ==>
          recs[j].header.objectid == ino && recs[j].header.typ == ExtentDataKey
          && recs[j].header.offset < U64_MAX)
    && (forall j, l :: 0 <= j < l < |recs| ==> recs[j].header.offset < recs[l].header.offset)
  }

  function Min(a: nat, b: nat): nat
  {
    if a <= b then a else b
  }

  /** The records a key selects, in order. */
  function Selected(recs: seq<SearchItem>, k: SearchKey): (r: seq<SearchItem>)
    ensures |r| <= |recs|
  {
    if recs == [] then []
    else (if Selects(k, recs[0].header) then [recs[0]] else []) + Selected(recs[1..], k)
  }

  /** The kernel holding recs, with a buffer that fits cap records. */
  function ModelPager(recs: seq<SearchItem>, cap: nat): (p: Pager)
    ensures PagerRespectsLimit(p)
  {
    (k: SearchKey) =>
      var sel := Selected(recs, k);
      Page(sel[..Min(|sel|, Min(cap, k.nrItems))])
  }


  /** When the key rejects exactly the records before index i, it selects recs[i..]. */
  lemma {:induction false} SelectedSuffix(recs: seq<SearchItem>, k: SearchKey, i: nat)
    requires i <= |recs|
    requires forall j :: 0 <= j < i ==> !Selects(k, recs[j].header)
    requires forall j :: i <= j < |recs| ==> Selects(k, recs[j].header)
    ensures Selected(recs, k) == recs[i..]
  {
    if recs != [] {
      SelectedSuffix(recs[1..], k, if i == 0 then 0 else i - 1);
      if i == 0 {
        assert recs == [recs[0]] + recs[1..];
      }
    }
  }

  /** What holds of the session after i records have been returned. */
  ghost predicate Progress(s: Session, recs: seq<SearchItem>, ino: u64, i: nat)
  {
    && s.key == NewSearchKey(ino).(minOffset := s.key.minOffset, nrItems := s.key.nrItems)
    && i + |s.pending| <= |recs|
    && s.pending == recs[i..i + |s.pending|]
    && (!s.last ==> s.key.nrItems > LastPageItems)
    && (s.last ==> i + |s.pending| == |recs|)
    && (NeedIoctl(s) ==>
          (forall j :: 0 <= j < i ==> recs[j].header.offset < s.key.minOffset)
          && (forall j :: i <= j < |recs| ==> recs[j].header.offset >= s.key.minOffset))
  }

  /** A query resumed after the first i records returns the next records. */
  lemma ResumedPage(recs: seq<SearchItem>, ino: u64, cap: nat, s: Session, i: nat)
    requires FileRecords(recs, ino) && Progress(s, recs, ino, i) && NeedIoctl(s)
    ensures var items := ModelPager(recs, cap)(s.key).items;
            |items| == Min(|recs| - i, Min(cap, s.key.nrItems)) && items == recs[i..i + |items|]
  {
    forall j | 0 <= j < |recs|
      ensures Selects(s.key, recs[j].header) <==> recs[j].header.offset >= s.key.minOffset
    {
      ResumedKeySelects(ino, s.key.minOffset, s.key.nrItems, recs[j].header);
    }
    SelectedSuffix(recs, s.key, i);
  }

  /** Reloading a used-up page keeps the progress: the new page holds the next records. */
  lemma ReloadKeepsProgress(recs: seq<SearchItem>, ino: u64, cap: nat, s: Session, i: nat)
    requires FileRecords(recs, ino) && cap > LastPageItems
    requires Progress(s, recs, ino, i) && NeedIoctl(s)
    ensures ModelPager(recs, cap)(s.key).Page?
    ensures Progress(Loaded(s, ModelPager(recs, cap)(s.key).items), recs, ino, i)
  {
    ResumedPage(recs, ino, cap, s, i);
  }

  /** Taking from a loaded page returns the next record, or ends once all are returned. */
  lemma TakeKeepsProgress(recs: seq<SearchItem>, ino: u64, t: Session, i: nat)
    requires FileRecords(recs, ino)
    requires Progress(t, recs, ino, i) && !NeedIoctl(t)
    ensures var r := Take(t);
            || (r.out == End && i == |recs|)
            || (i < |recs| && r.out == Yield(recs[i]) && Progress(r.next, recs, ino, i + 1))
  {
    if !Finished(t) {
      assert t.pending[0] == recs[i];
      if |t.pending| == 1 {
        forall j | 0 <= j < |recs|
          ensures j <= i ==> recs[j].header.offset <= recs[i].header.offset
          ensures j > i ==> recs[j].header.offset > recs[i].header.offset
        {
        }
      }
    }
  }

  /** Each call of `next` returns the next record, or ends once all are returned. */
  lemma NextKeepsProgress(recs: seq<SearchItem>, ino: u64, cap: nat, s: Session, i: nat)
    requires FileRecords(recs, ino) && cap > LastPageItems
    requires Progress(s, recs, ino, i)
    ensures var r := Next(s, ModelPager(recs, cap));
            || (r.out == End && i == |recs|)
            || (i < |recs| && r.out == Yield(recs[i]) && Progress(r.next, recs, ino, i + 1))
  {
    var pager := ModelPager(recs, cap);
    if NeedIoctl(s) {
      ReloadKeepsProgress(recs, ino, cap, s, i);
      var t := Loaded(s, pager(s.key).items);
      assert Next(s, pager) == Take(t);
      TakeKeepsProgress(recs, ino, t, i);
    } else {
      assert Next(s, pager) == Take(s);
      TakeKeepsProgress(recs, ino, s, i);
    }
  }

  /** One call of `next` inside `Drain` that yields recs[i], followed by the rest. */
  lemma DrainYields(recs: seq<SearchItem>, i: nat, s: Session, pager: Pager, fuel: nat)
    requires PagerRespectsLimit(pager) && fuel > 0 && i < |recs|
    requires Next(s, pager).out == Yield(recs[i])
    requires Drain(Next(s, pager).next, pager, fuel - 1) == (recs[i + 1..], Ended)
    ensures Drain(s, pager, fuel) == (recs[i..], Ended)
  {
    var d := Drain(s, pager, fuel);
    assert d.0 == [recs[i]] + recs[i + 1..] && d.1 == Ended;
    assert recs[i..] == [recs[i]] + recs[i + 1..];
  }

  /** One call of `next` inside `Drain`, when it ends. */
  lemma DrainEnds(s: Session, pager: Pager, fuel: nat)
    requires PagerRespectsLimit(pager) && fuel > 0 && Next(s, pager).out == End
    ensures Drain(s, pager, fuel) == ([], Ended)
  {
  }

  /** Draining a session that has returned i records returns the rest and ends. */
  lemma {:induction false} DrainRest(recs: seq<SearchItem>, ino: u64, cap: nat, s: Session, i: nat, fuel: nat)
    requires FileRecords(recs, ino) && cap > LastPageItems
    requires Progress(s, recs, ino, i)
    requires fuel >= |recs| - i + 1
    ensures Drain(s, ModelPager(recs, cap), fuel) == (recs[i..], Ended)
    decreases fuel
  {
    var pager := ModelPager(recs, cap);
    NextKeepsProgress(recs, ino, cap, s, i);
    var r := Next(s, pager);
    if r.out.Yield? {
      DrainRest(recs, ino, cap, r.next, i + 1, fuel - 1);
      DrainYields(recs, i, s, pager, fuel);
    } else {
      assert r.out == End && i == |recs|;
      DrainEnds(s, pager, fuel);
      assert recs[i..] == [];
    }
  }

  /** Opening the search loads the first page: the session starts with no record returned. */
  lemma OpenStartsProgress(recs: seq<SearchItem>, ino: u64, cap: nat)
    requires FileRecords(recs, ino) && cap > LastPageItems
    ensures Open(ino, ModelPager(recs, cap)).Opened?
    ensures Progress(Open(ino, ModelPager(recs, cap)).session, recs, ino, 0)
  {
    var pager := ModelPager(recs, cap);
    var key := NewSearchKey(ino);
    forall j | 0 <= j < |recs| ensures Selects(key, recs[j].header) {}
    SelectedSuffix(recs, key, 0);
    var items := pager(key).items;
    assert items == recs[..Min(|recs|, Min(cap, U32_MAX))];
    var s := Open(ino, pager).session;
    assert s.pending == recs[0..|s.pending|];
  }

  /** From a session that has returned nothing, draining returns every record. */
  lemma DrainFromStart(recs: seq<SearchItem>, ino: u64, cap: nat, s: Session)
    requires FileRecords(recs, ino) && cap > LastPageItems
    requires Progress(s, recs, ino, 0)
    ensures Drain(s, ModelPager(recs, cap), |recs| + 1) == (recs, Ended)
  {
    DrainRest(recs, ino, cap, s, 0, |recs| + 1);
    var d := Drain(s, ModelPager(recs, cap), |recs| + 1);
    assert d.0 == recs[0..] && d.1 == Ended;
    assert recs[0..] == recs;
  }

  /** Pagination is invisible: opening a search of inode ino and calling `next`
      until it ends returns exactly the inode's records, in order, each once. */
  lemma SessionReturnsEveryRecord(recs: seq<SearchItem>, ino: u64, cap: nat)
    requires FileRecords(recs, ino) && cap > LastPageItems
    ensures var started := Open(ino, ModelPager(recs, cap));
            started.Opened? && Drain(started.session, ModelPager(recs, cap), |recs| + 1) == (recs, Ended)
  {
    OpenStartsProgress(recs, ino, cap);
    DrainFromStart(recs, ino, cap, Open(ino, ModelPager(recs, cap)).session);
  }
}
