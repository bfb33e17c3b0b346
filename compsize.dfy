/** The `Compsize` accumulator of src/main.rs: per-type counters, four
    compression buckets and a prealloc bucket, and the set of physical extent
    ids already seen, so that disk and uncompressed bytes of an extent shared by
    several references are counted once. `Account` states `add_file` on values;
    the class `Compsize` is proved to follow it. */
module Compsize {
  import opened LittleEndian
  import opened Btrfs
  import InlineBtrfs

  const Zero: ExtentStat := ExtentStat(0, 0, 0)

  /** The three byte counts of a stat, to state one fact for all three at once. */
  datatype Part = Disk | Uncomp | Refd

  function Get(e: ExtentStat, p: Part): nat
  {
    match p
    case Disk => e.disk
    case Uncomp => e.uncomp
    case Refd => e.refd
  }

  function Plus(a: ExtentStat, b: ExtentStat): (r: ExtentStat)
    ensures forall p :: Get(r, p) == Get(a, p) + Get(b, p)
  {
    ExtentStat(a.disk + b.disk, a.uncomp + b.uncomp, a.refd + b.refd)
  }

  /** The accumulator's state: `nfile`, `ninline`, `nref`, `prealloc`, the four
      buckets of `stat` (indexed by compression) and `extents`. */
  datatype Totals = Totals(nfile: nat, ninline: nat, nref: nat, prealloc: ExtentStat,
                           stat: seq<ExtentStat>, extents: set<u64>)

  /** `CompsizeStat`: the final figures. */
  datatype CompsizeStat = CompsizeStat(nfile: nat, ninline: nat, nref: nat, nextent: nat,
                                       prealloc: ExtentStat, stat: seq<ExtentStat>)

  /** `Compsize::new`. */
  function Empty(): (r: Totals)
    ensures r.nfile == 0 && r.ninline == 0 && r.nref == 0 && r.extents == {}
    // four compression buckets, and nothing counted in any of the five
    ensures |r.stat| == 4 && r.prealloc == Zero
    ensures forall k | 0 <= k < |r.stat| :: r.stat[k] == Zero
  {
    Totals(0, 0, 0, Zero, [Zero, Zero, Zero, Zero], {})
  }

  /** What a reference adds to its bucket: everything for an inline extent,
      only `refd` for a regular or prealloc extent whose id was already seen. */
  function Credit(seen: set<u64>, fs: FileStat): (r: ExtentStat)
    ensures r.refd == fs.stat.refd
    ensures fs.key.typ == Inline || fs.key.id !in seen ==> r == fs.stat
    ensures fs.key.typ != Inline && fs.key.id in seen ==> r.disk == 0 && r.uncomp == 0
  {
    if fs.key.typ != Inline && fs.key.id in seen then ExtentStat(0, 0, fs.stat.refd) else fs.stat
  }

  /** `Compsize::add_file`. */
  function Account(t: Totals, fs: FileStat): (r: Totals)
    requires |t.stat| == 4
    ensures |r.stat| == 4 && r.nfile == t.nfile
    // an inline extent: counted as inline, its bucket gets all three figures, nothing else changes
    ensures fs.key.typ == Inline ==>
              && r.ninline == t.ninline + 1 && r.nref == t.nref
              && r.extents == t.extents && r.prealloc == t.prealloc
              && r.stat == t.stat[CompressionIndex(fs.comp) := Plus(t.stat[CompressionIndex(fs.comp)], fs.stat)]
    // a regular or prealloc extent: one more reference, its id is remembered
    ensures fs.key.typ != Inline ==>
              r.ninline == t.ninline && r.nref == t.nref + 1 && r.extents == t.extents + {fs.key.id}
    // disk and uncompressed bytes only for an id not seen before; referenced bytes always
    ensures fs.key.typ == Regular ==>
              && r.prealloc == t.prealloc
              && r.stat == t.stat[CompressionIndex(fs.comp) := Plus(t.stat[CompressionIndex(fs.comp)], Credit(t.extents, fs))]
    // prealloc extents go to their own bucket; the compression buckets are untouched
    ensures fs.key.typ == Prealloc ==>
              r.stat == t.stat && r.prealloc == Plus(t.prealloc, Credit(t.extents, fs))
  {
    var c := CompressionIndex(fs.comp);
    match fs.key.typ
    case Inline =>
      t.(ninline := t.ninline + 1, stat := t.stat[c := Plus(t.stat[c], fs.stat)])
    case Regular =>
      t.(nref := t.nref + 1, extents := t.extents + {fs.key.id},
         stat := t.stat[c := Plus(t.stat[c], Credit(t.extents, fs))])
    case Prealloc =>
      t.(nref := t.nref + 1, extents := t.extents + {fs.key.id},
         prealloc := Plus(t.prealloc, Credit(t.extents, fs)))
  }

  /** `add_file` for each reference in turn. */
  function AccountAll(t: Totals, fss: seq<FileStat>): (r: Totals)
    requires |t.stat| == 4
    ensures |r.stat| == 4 && r.nfile == t.nfile
    // every reference is counted once, as inline or not, and no id is forgotten
    ensures r.ninline + r.nref == t.ninline + t.nref + |fss|
    ensures t.extents <= r.extents
    decreases |fss|
  {
    if fss == [] then t else AccountAll(Account(t, fss[0]), fss[1..])
  }

  /** `Compsize::build_final`. */
  function Final(t: Totals): (r: CompsizeStat)
    // the counters and buckets are copied; nextent is the number of distinct ids seen
    ensures r.nfile == t.nfile && r.ninline == t.ninline && r.nref == t.nref
    ensures r.prealloc == t.prealloc && r.stat == t.stat
    ensures r.nextent == |t.extents|
  {
    CompsizeStat(t.nfile, t.ninline, t.nref, |t.extents|, t.prealloc, t.stat)
  }

  // ---------------------------------------------------------------------------
  // What a run of references adds up to

  /** The physical ids of the regular and prealloc references. */
  function Ids(fss: seq<FileStat>): set<u64>
  {
    if fss == [] then {}
    else (if fss[0].key.typ != Inline then {fss[0].key.id} else {}) + Ids(fss[1..])
  }

  function InlineCount(fss: seq<FileStat>): (n: nat)
    ensures n <= |fss|
  {
    if fss == [] then 0 else (if fss[0].key.typ == Inline then 1 else 0) + InlineCount(fss[1..])
  }

  /** The sum of one figure over the buckets. */
  function Sum(s: seq<ExtentStat>, p: Part): nat
  {
    if s == [] then 0 else Get(s[0], p) + Sum(s[1..], p)
  }

  /** One figure summed over all five buckets. */
  function Total(t: Totals, p: Part): nat
  {
    Sum(t.stat, p) + Get(t.prealloc, p)
  }

  /** What a run of references credits, each one against the ids seen before it. */
  function RunCredit(fss: seq<FileStat>, seen: set<u64>, p: Part): nat
  {
    if fss == [] then 0
    else Get(Credit(seen, fss[0]), p) + RunCredit(fss[1..], seen + (if fss[0].key.typ != Inline then {fss[0].key.id} else {}), p)
  }

  function RunSum(fss: seq<FileStat>, p: Part): nat
  {
    if fss == [] then 0 else Get(fss[0].stat, p) + RunSum(fss[1..], p)
  }

  function InlineSum(fss: seq<FileStat>, p: Part): nat
  {
    if fss == [] then 0 else (if fss[0].key.typ == Inline then Get(fss[0].stat, p) else 0) + InlineSum(fss[1..], p)
  }

  lemma {:induction false} SumUpdate(s: seq<ExtentStat>, c: nat, e: ExtentStat, p: Part)
    requires c < |s|
    ensures Sum(s[c := e], p) + Get(s[c], p) == Sum(s, p) + Get(e, p)
  {
    if c > 0 {
      SumUpdate(s[1..], c - 1, e, p);
      assert s[c := e][1..] == s[1..][c - 1 := e];
    } else {
      assert s[c := e][1..] == s[1..];
    }
  }

  /** One `add_file` adds its credit to the total of every figure. */
  lemma AccountTotal(t: Totals, fs: FileStat, p: Part)
    requires |t.stat| == 4
    ensures Total(Account(t, fs), p) == Total(t, p) + Get(Credit(t.extents, fs), p)
  {
    var c := CompressionIndex(fs.comp);
    if fs.key.typ == Inline {
      SumUpdate(t.stat, c, Plus(t.stat[c], fs.stat), p);
    } else if fs.key.typ == Regular {
      SumUpdate(t.stat, c, Plus(t.stat[c], Credit(t.extents, fs)), p);
    }
  }

  /** Every figure's total grows by what the run credits, id by id. */
  lemma {:induction false} AccountAllTotal(t: Totals, fss: seq<FileStat>, p: Part)
    requires |t.stat| == 4
    ensures Total(AccountAll(t, fss), p) == Total(t, p) + RunCredit(fss, t.extents, p)
    decreases |fss|
  {
    if fss != [] {
      var u := Account(t, fss[0]);
      AccountTotal(t, fss[0], p);
      assert u.extents == t.extents + (if fss[0].key.typ != Inline then {fss[0].key.id} else {});
      AccountAllTotal(u, fss[1..], p);
    }
  }

  /** The set of seen ids becomes exactly the ids of the references accounted. */
  lemma {:induction false} AccountAllExtents(t: Totals, fss: seq<FileStat>)
    requires |t.stat| == 4
    ensures AccountAll(t, fss).extents == t.extents + Ids(fss)
    decreases |fss|
  {
    if fss != [] {
      AccountAllExtents(Account(t, fss[0]), fss[1..]);
    }
  }

  /** Inline references are counted in `ninline`, all others in `nref`. */
  lemma {:induction false} AccountAllCounts(t: Totals, fss: seq<FileStat>)
    requires |t.stat| == 4
    ensures AccountAll(t, fss).ninline == t.ninline + InlineCount(fss)
    ensures AccountAll(t, fss).nref == t.nref + |fss| - InlineCount(fss)
    decreases |fss|
  {
    if fss != [] {
      AccountAllCounts(Account(t, fss[0]), fss[1..]);
    }
  }

  /** Referenced bytes are never deduplicated: every reference adds all of its `refd`. */
  lemma {:induction false} RefdAlwaysCredited(fss: seq<FileStat>, seen: set<u64>)
    ensures RunCredit(fss, seen, Refd) == RunSum(fss, Refd)
  {
    if fss != [] {
      RefdAlwaysCredited(fss[1..], seen + (if fss[0].key.typ != Inline then {fss[0].key.id} else {}));
    }
  }

  /** References to ids already seen credit no disk or uncompressed bytes beyond their inline ones. */
  lemma {:induction false} SeenIdsCreditNothing(fss: seq<FileStat>, seen: set<u64>, p: Part)
    requires p != Refd && Ids(fss) <= seen
    ensures RunCredit(fss, seen, p) == InlineSum(fss, p)
  {
    if fss != [] {
      SeenIdsCreditNothing(fss[1..], seen + (if fss[0].key.typ != Inline then {fss[0].key.id} else {}), p);
    }
  }

  /** Each extent is counted once: accounting the same references a second time
      adds no disk or uncompressed bytes except those of inline extents, which
      have no id to share. */
  lemma AccountedTwice(t: Totals, fss: seq<FileStat>, p: Part)
    requires |t.stat| == 4 && p != Refd
    ensures Total(AccountAll(AccountAll(t, fss), fss), p) == Total(AccountAll(t, fss), p) + InlineSum(fss, p)
  {
    var once := AccountAll(t, fss);
    AccountAllExtents(t, fss);
    AccountAllTotal(once, fss, p);
    SeenIdsCreditNothing(fss, once.extents, p);
  }

  /** Totals only ever grow. */
  ghost predicate Grows(t: Totals, u: Totals)
  {
    && t.nfile <= u.nfile && t.ninline <= u.ninline && t.nref <= u.nref
    && t.extents <= u.extents && |t.stat| == |u.stat|
    && (forall p :: Get(t.prealloc, p) <= Get(u.prealloc, p))
    && (forall i, p :: 0 <= i < |t.stat| ==> Get(t.stat[i], p) <= Get(u.stat[i], p))
  }

  lemma {:induction false} AccountAllGrows(t: Totals, fss: seq<FileStat>)
    requires |t.stat| == 4
    ensures Grows(t, AccountAll(t, fss))
    decreases |fss|
  {
    if fss != [] {
      var u := Account(t, fss[0]);
      assert Grows(t, u);
      AccountAllGrows(u, fss[1..]);
    }
  }

  /** From an empty accumulator, the final figures count every inline and other
      reference and every distinct physical extent. */
  lemma FinalFromEmpty(fss: seq<FileStat>)
    ensures var f := Final(AccountAll(Empty(), fss));
            && f.ninline == InlineCount(fss)
            && f.nref == |fss| - InlineCount(fss)
            && f.nextent == |Ids(fss)|
  {
    AccountAllCounts(Empty(), fss);
    AccountAllExtents(Empty(), fss);
  }

  // ---------------------------------------------------------------------------
  // One file: parse each record the search returns and account it

  datatype Search = Searched(records: seq<SearchItem>) | SearchFailed(errno: nat)

  /** How a file ends: all records accounted, the search could not start, a
      record was rejected (`die!`), or parsing panicked. */
  datatype FileOutcome = Completed | NotSearchable(errno: nat) | Died(error: ParseError) | Aborted(panic: Panic)

  datatype Scanned = Scanned(found: seq<FileStat>, outcome: FileOutcome)

  /** The extents parsed from records, in order, up to the first record that
      fails; holes are skipped. */
  function Scan(records: seq<SearchItem>): (r: Scanned)
    ensures r.outcome.Completed? || r.outcome.Died? || r.outcome.Aborted?
    ensures |r.found| <= |records|
    decreases |records|
  {
    if records == [] then Scanned([], Completed)
    else Extend(Scan(records[..|records| - 1]), records[|records| - 1])
  }

  /** One more record: once a record has failed nothing more is parsed. */
  function Extend(prev: Scanned, x: SearchItem): Scanned
  {
    if !prev.outcome.Completed? then prev
    else
      match Parse(x)
      case Found(fs) => Scanned(prev.found + [fs], Completed)
      case Hole => prev
      case Rejected(e) => Scanned(prev.found, Died(e))
      case Panicked(p) => Scanned(prev.found, Aborted(p))
  }

  /** A scan completes exactly when every record parses to an extent or a hole;
      it stops at a record that was rejected or panicked; and everything it
      found was parsed from one of the records. */
  lemma {:induction false} ScanOutcome(records: seq<SearchItem>)
    ensures var r := Scan(records);
            && (r.outcome.Completed? <==>
                  forall i :: 0 <= i < |records| ==> Parse(records[i]).Found? || Parse(records[i]).Hole?)
            && (r.outcome.Died? ==> exists i :: 0 <= i < |records| && Parse(records[i]) == Rejected(r.outcome.error))
            && (r.outcome.Aborted? ==> exists i :: 0 <= i < |records| && Parse(records[i]) == Panicked(r.outcome.panic))
            && (forall f :: f in r.found ==> exists i :: 0 <= i < |records| && Parse(records[i]) == Found(f))
    decreases |records|
  {
    if records != [] {
      var n := |records| - 1;
      var init := records[..n];
      ScanOutcome(init);
      assert forall i :: 0 <= i < n ==> init[i] == records[i];
      assert records == init + [records[n]];
    }
  }

  /** Whether a record parses to an extent or a hole, so that scanning goes on. */
  predicate Accepted(x: SearchItem)
  {
    Parse(x).Found? || Parse(x).Hole?
  }

  /** The extents of every record that parses to one, in order, whatever the
      other records parse to: the reference the scan is measured against. */
  function Extents(records: seq<SearchItem>): (e: seq<FileStat>)
    ensures |e| <= |records|
    ensures forall f :: f in e ==> exists i :: 0 <= i < |records| && Parse(records[i]) == Found(f)
  {
    if records == [] then []
    else (if Parse(records[0]).Found? then [Parse(records[0]).fs] else []) + Extents(records[1..])
  }

  /** One record more appends its extent, if it has one. */
  lemma {:induction false} ExtentsSnoc(records: seq<SearchItem>, x: SearchItem)
    ensures Extents(records + [x]) == Extents(records) + (if Parse(x).Found? then [Parse(x).fs] else [])
  {
    if records != [] {
      assert (records + [x])[1..] == records[1..] + [x];
      ExtentsSnoc(records[1..], x);
    }
  }

  /** A completed scan found exactly the extents of all the records, in order. */
  lemma {:induction false} ScanCompleted(records: seq<SearchItem>)
    ensures Scan(records).outcome.Completed? ==> Scan(records).found == Extents(records)
    decreases |records|
  {
    if records != [] {
      var n := |records| - 1;
      var init := records[..n];
      ScanCompleted(init);
      ExtentsSnoc(init, records[n]);
      assert records == init + [records[n]];
    }
  }

  /** A scan that fails stops at the first record that is neither an extent nor
      a hole: it found exactly the extents before that record, and its outcome
      is that record's rejection or panic. */
  lemma ScanFirstFailure(records: seq<SearchItem>, k: nat)
    requires k < |records| && !Accepted(records[k])
    requires forall i :: 0 <= i < k ==> Accepted(records[i])
    ensures Scan(records).found == Extents(records[..k])
    ensures Parse(records[k]).Rejected? ==> Scan(records).outcome == Died(Parse(records[k]).error)
    ensures Parse(records[k]).Panicked? ==> Scan(records).outcome == Aborted(Parse(records[k]).panic)
  {
    var init := records[..k];
    ScanOutcome(init);
    assert Scan(init).outcome.Completed?;
    ScanCompleted(init);
    ScanStep(records, k);
    ScanStops(records, k + 1);
  }

  /** The findings of holes: a hole record changes nothing in the accumulator,
      whereas the parse of src/main.rs turns it into a reference to extent 0,
      counted in `nref` and, the first time, in `nextent`. */
  lemma HoleIsSkipped(t: Totals, x: SearchItem)
    requires |t.stat| == 4 && Parse(x).Hole?
    ensures AccountAll(t, Scan([x]).found) == t
    ensures Scan([x]).outcome == Completed
  {
    assert [x][..0] == [];
  }

  lemma HoleCountedAsWritten(t: Totals, x: SearchItem)
    requires |t.stat| == 4 && Parse(x).Hole?
    ensures InlineBtrfs.Parse(x).Found?
    ensures var r := Account(t, InlineBtrfs.Parse(x).fs);
            && r.nref == t.nref + 1
            && 0 in r.extents
            && (0 !in t.extents ==> |r.extents| == |t.extents| + 1)
  {
    var fs := InlineBtrfs.Parse(x).fs;
    assert fs.key.id == 0 && fs.key.typ != Inline;
  }

  // ---------------------------------------------------------------------------
  // The accumulator as the program keeps it

  class Compsize {
    var nfile: nat
    var ninline: nat
    var nref: nat
    var prealloc: ExtentStat
    const stat: array<ExtentStat>
    var extents: set<u64>

    ghost predicate Valid()
      reads this
    {
      stat.Length == 4
    }

    ghost function State(): Totals
      reads this, stat
    {
      Totals(nfile, ninline, nref, prealloc, stat[..], extents)
    }

    /** `Compsize::new`. */
    constructor ()
      ensures Valid() && fresh(stat)
      ensures State() == Empty()
    {
      nfile, ninline, nref := 0, 0, 0;
      prealloc := Zero;
      stat := new ExtentStat[4](_ => Zero);
      extents := {};
      new;
      assert stat[..] == [Zero, Zero, Zero, Zero];
    }

    /** `Compsize::add_file`. */
    method AddFile(fs: FileStat)
      requires Valid()
      modifies this, stat
      ensures Valid()
      ensures State() == Account(old(State()), fs)
    {
      var c := CompressionIndex(fs.comp);
      match fs.key.typ
      case Inline =>
        ninline := ninline + 1;
        stat[c] := Plus(stat[c], fs.stat);
      case Regular =>
        nref := nref + 1;
        var credit := Credit(extents, fs);
        extents := extents + {fs.key.id};
        stat[c] := Plus(stat[c], credit);
      case Prealloc =>
        nref := nref + 1;
        var credit := Credit(extents, fs);
        extents := extents + {fs.key.id};
        prealloc := Plus(prealloc, credit);
    }

    /** `Compsize::build_final`. */
    function BuildFinal(): (r: CompsizeStat)
      requires Valid()
      reads this, stat
      ensures r == Final(State())
      ensures r.nextent == |extents|
    {
      CompsizeStat(nfile, ninline, nref, |extents|, prealloc, stat[..])
    }

    /** `do_file`: count the file, then parse and account each record the
        search returns, in order, stopping at the first one that fails. */
    method DoFile(search: Search) returns (outcome: FileOutcome)
      requires Valid()
      modifies this, stat
      ensures Valid()
      ensures search.SearchFailed? ==>
                outcome == NotSearchable(search.errno) && State() == old(State()).(nfile := old(nfile) + 1)
      ensures search.Searched? ==>
                && outcome == Scan(search.records).outcome
                && State() == AccountAll(old(State()).(nfile := old(nfile) + 1), Scan(search.records).found)
    {
      nfile := nfile + 1;
      match search
      case SearchFailed(e) =>
        outcome := NotSearchable(e);
      case Searched(records) =>
        outcome := AccountRecords(records);
    }

    /** The loop of `do_file` over the records of one file. */
    method AccountRecords(records: seq<SearchItem>) returns (outcome: FileOutcome)
      requires Valid()
      modifies this, stat
      ensures Valid()
      ensures outcome == Scan(records).outcome
      ensures State() == AccountAll(old(State()), Scan(records).found)
    {
      ghost var start := State();
      var i := 0;
      while i < |records|
        invariant 0 <= i <= |records| && Valid()
        invariant Scan(records[..i]).outcome == Completed
        invariant State() == AccountAll(start, Scan(records[..i]).found)
        decreases |records| - i
      {
        ScanStep(records, i);
        AccountStep(start, Scan(records[..i]), records[i]);
        match Parse(records[i]) {
          case Found(fs) =>
            AddFile(fs);
          case Hole =>
          case Rejected(e) =>
            ScanStops(records, i + 1);
            return Died(e);
          case Panicked(p) =>
            ScanStops(records, i + 1);
            return Aborted(p);
        }
        i := i + 1;
      }
      assert records[..i] == records;
      return Completed;
    }
  }

  /** A scan that takes one record more accounts what that record parses to. */
  lemma AccountStep(t: Totals, prev: Scanned, x: SearchItem)
    requires |t.stat| == 4 && prev.outcome.Completed?
    ensures Parse(x).Found? ==>
              && Extend(prev, x).outcome.Completed?
              && AccountAll(t, Extend(prev, x).found) == Account(AccountAll(t, prev.found), Parse(x).fs)
    ensures Parse(x).Hole? ==> Extend(prev, x) == prev
  {
    if Parse(x).Found? {
      AccountAllSnoc(t, prev.found, Parse(x).fs);
    }
  }

  lemma {:induction false} AccountAllSnoc(t: Totals, fss: seq<FileStat>, fs: FileStat)
    requires |t.stat| == 4
    ensures AccountAll(t, fss + [fs]) == Account(AccountAll(t, fss), fs)
    decreases |fss|
  {
    if fss == [] {
      assert [fs][1..] == [];
    } else {
      assert (fss + [fs])[1..] == fss[1..] + [fs];
      AccountAllSnoc(Account(t, fss[0]), fss[1..], fs);
    }
  }

  /** Once a prefix fails, longer inputs fail the same way. */
  lemma {:induction false} ScanStops(records: seq<SearchItem>, i: nat)
    requires 0 < i <= |records| && !Scan(records[..i]).outcome.Completed?
    ensures Scan(records) == Scan(records[..i])
    decreases |records| - i
  {
    if i < |records| {
      ScanStep(records, i);
      ScanStops(records, i + 1);
    } else {
      assert records[..i] == records;
    }
  }

  /** Scanning one record more extends the scan of the shorter prefix. */
  lemma ScanStep(records: seq<SearchItem>, i: nat)
    requires i < |records|
    ensures Scan(records[..i + 1]) == Extend(Scan(records[..i]), records[i])
  {
    var longer := records[..i + 1];
    assert longer[..|longer| - 1] == records[..i];
  }
}
