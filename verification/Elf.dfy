/** The ELF segment loader: which pages it asks for, what it leaves in memory,
    and how the table of its earlier requests bears on both. */
module Elf {
  import opened Bytes
  import opened Machine

  const RECORDS: nat := 32

  /* ---- segments ---- */

  datatype Segment = Segment(paddr: u64, memsz: u64, offset: u64, filesz: u64)
  {
    /** The tests a segment has to pass against the file it is loaded from. */
    predicate WellFormed(file: seq<byte>) {
      filesz <= memsz && offset + filesz <= |file| && paddr + memsz < TWO_64
    }

    function FirstPage(): nat { paddr / PAGE }

    /** The first page after the segment. */
    function EndPage(): nat { FirstPage() + (paddr % PAGE + memsz + 4095) / PAGE }

    /** Whether rounding the end up to a page stays within 64 bits. */
    predicate RoundsUp() { EndPage() < PAGES }

    /** The end of the page loop as 64-bit arithmetic has it. */
    function LoopEnd(): nat
    {
      (FirstPage() + Low64(paddr % PAGE + memsz + 4095) / PAGE) % PAGES
    }

    function Pages(): set<nat> { Run(FirstPage(), EndPage() - FirstPage()) }

    /** The pages the loop visits. */
    function Visited(): (v: set<nat>)
      ensures forall p :: p in v <==> FirstPage() <= p < LoopEnd()
    {
      Run(FirstPage(), if LoopEnd() <= FirstPage() then 0 else LoopEnd() - FirstPage())
    }

    /** What the segment makes of memory: its file bytes, then zeros. */
    function Applied(m: map<nat, byte>, file: seq<byte>): map<nat, byte>
      requires WellFormed(file)
    {
      Stored(Stored(m, paddr, file[offset..offset + filesz]), paddr + filesz, Zeros(memsz - filesz))
    }

    /** The byte a loaded segment puts at an address of its own. */
    function ByteAt(file: seq<byte>, a: nat): byte
      requires WellFormed(file) && paddr <= a < paddr + memsz
    {
      if a < paddr + filesz then file[offset + (a - paddr)] else 0
    }
  }

  /** The loop visits exactly the segment's pages, or none at all: when rounding
      up leaves 64 bits, every page of the segment goes unrequested. */
  lemma LoopEndExact(s: Segment, file: seq<byte>)
    requires s.WellFormed(file)
    ensures s.FirstPage() <= s.EndPage() <= PAGES
    ensures s.RoundsUp() ==> s.LoopEnd() == s.EndPage() && s.Visited() == s.Pages()
    ensures !s.RoundsUp() ==> s.LoopEnd() <= s.FirstPage() < s.EndPage() && s.Visited() == {}
  {
    var first, total := s.FirstPage(), s.paddr % PAGE + s.memsz;
    assert s.paddr == PAGE * first + s.paddr % PAGE;
    assert PAGE * first + total < TWO_64;
  }

  /** In bytes: the pages with a byte between the segment's first and its end, unless the
      end lies in the last page of the address space, when there are none. */
  lemma VisitedAre(s: Segment, p: nat)
    requires s.paddr + s.memsz < TWO_64
    ensures p in s.Visited() <==>
            && s.paddr + s.memsz <= 0xFFFF_FFFF_FFFF_F000
            && 4096 * p < s.paddr + s.memsz && s.paddr < 4096 * (p + 1)
  {
    var first, total := s.FirstPage(), s.paddr % PAGE + s.memsz;
    assert s.paddr == PAGE * first + s.paddr % PAGE;
    var n := (total + 4095) / PAGE;
    assert PAGE * n < total + 4096 <= PAGE * n + 4096;
    if s.paddr + s.memsz <= 0xFFFF_FFFF_FFFF_F000 {
      assert s.LoopEnd() == first + n;
    } else {
      assert s.LoopEnd() <= first;
    }
  }

  /** There are such segments: one byte in the last page of the address space. */
  lemma LoopCanMissEveryPage(file: seq<byte>)
    ensures var s := Segment(TWO_64 - 4096, 1, 0, 0);
            s.WellFormed(file) && !s.RoundsUp() && s.LoopEnd() == 0 && s.Pages() == {PAGES - 1}
  {
  }

  /** Byte by byte: a loaded segment decides its own extent and nothing else. */
  lemma AppliedBytes(s: Segment, m: map<nat, byte>, file: seq<byte>, a: nat)
    requires s.WellFormed(file)
    ensures var m' := s.Applied(m, file);
            if s.paddr <= a < s.paddr + s.memsz then a in m' && m'[a] == s.ByteAt(file, a)
            else (a in m' <==> a in m) && (a in m ==> m'[a] == m[a])
  {
  }

  /* ---- the table of earlier requests ---- */

  datatype Record = Record(base: nat, pages: nat)

  function Recorded(rs: seq<Record>, n: nat): set<nat>
    requires n <= |rs|
  {
    if n == 0 then {} else Recorded(rs, n - 1) + Run(rs[n - 1].base, rs[n - 1].pages)
  }

  lemma {:induction false} RecordedAgrees(rs: seq<Record>, ts: seq<Record>, n: nat)
    requires n <= |rs| && n <= |ts| && forall i :: 0 <= i < n ==> rs[i] == ts[i]
    ensures Recorded(rs, n) == Recorded(ts, n)
  {
    if n > 0 {
      RecordedAgrees(rs, ts, n - 1);
    }
  }

  predicate Begins(s: set<nat>, p: nat) { p == 0 || p - 1 !in s }

  /** The pages of a set that begin a stretch of it. */
  function Starts(s: set<nat>): set<nat>
  {
    set p | p in s && Begins(s, p)
  }

  lemma {:induction false} SubsetSmaller(a: set<nat>, b: set<nat>)
    requires a <= b
    ensures |a| <= |b|
  {
    if a != {} {
      var x :| x in a;
      SubsetSmaller(a - {x}, b - {x});
    }
  }

  /** Filling a hole from `p` up to `q` starts a new stretch only if the page before
      it is outside, and ends one if the page after it is inside. */
  lemma HoleFilled(s: set<nat>, p: nat, q: nat)
    requires p < q && Run(p, q - p) !! s
    ensures var t := s + Run(p, q - p);
            |Starts(t)| <= |Starts(s)| + (if p > 0 && p - 1 in s then 0 else 1) - (if q in s then 1 else 0)
  {
    var t := s + Run(p, q - p);
    var rest := if q in s then Starts(s) - {q} else Starts(s);
    if q in s {
      assert q - 1 in Run(p, q - p) && q in Starts(s);
    }
    var more: set<nat> := if p > 0 && p - 1 in s then {} else {p};
    forall x | x in Starts(t)
      ensures x in rest + more
    {
      assert Begins(t, x);
      assert x in Run(p, q - p) && x != p ==> x - 1 in t;
    }
    SubsetSmaller(Starts(t), rest + more);
  }

  ghost predicate Disjoint(rs: seq<Record>, n: nat)
    requires n <= |rs|
  {
    forall i, j :: 0 <= i < j < n ==> Run(rs[i].base, rs[i].pages) !! Run(rs[j].base, rs[j].pages)
  }

  lemma {:induction false} RecordedContains(rs: seq<Record>, n: nat, i: nat)
    requires i < n <= |rs|
    ensures Run(rs[i].base, rs[i].pages) <= Recorded(rs, n)
    decreases n
  {
    if i < n - 1 {
      RecordedContains(rs, n - 1, i);
    }
  }

  lemma OneMoreRecord(rs: seq<Record>, n: nat, r: Record)
    requires n < |rs| && Disjoint(rs, n) && Recorded(rs, n) !! Run(r.base, r.pages)
    ensures var ts := rs[n := r];
            Recorded(ts, n + 1) == Recorded(rs, n) + Run(r.base, r.pages) && Disjoint(ts, n + 1)
  {
    var ts := rs[n := r];
    RecordedAgrees(rs, ts, n);
    forall i | 0 <= i < n
      ensures Run(ts[i].base, ts[i].pages) !! Run(r.base, r.pages)
    {
      RecordedContains(rs, n, i);
    }
  }

  /** How many gaps there are between pages of `known` from `first` up to `end`. */
  function Gaps(known: set<nat>, first: nat, end: nat): nat
    decreases end
  {
    if end <= first then 0
    else Gaps(known, first, end - 1)
         + if end - 1 !in known && (end - 1 == first || end - 2 in known) then 1 else 0
  }

  lemma {:induction false} GapPassed(known: set<nat>, first: nat, p: nat, q: nat)
    requires first <= p < q && (p == first || p - 1 in known) && forall x :: p <= x < q ==> x !in known
    ensures Gaps(known, first, q) == Gaps(known, first, p) + 1
    decreases q
  {
    if p + 1 < q {
      GapPassed(known, first, p, q - 1);
    }
  }

  lemma GapsStep(known: set<nat>, first: nat, p: nat)
    ensures p <= first ==> Gaps(known, first, p) == 0
    ensures first <= p && p in known ==> Gaps(known, first, p + 1) == Gaps(known, first, p)
  {
  }

  lemma {:induction false} GapsMonotone(known: set<nat>, first: nat, p: nat, q: nat)
    requires p <= q
    ensures Gaps(known, first, p) <= Gaps(known, first, q)
    decreases q
  {
    if p < q {
      GapsMonotone(known, first, p, q - 1);
    }
  }

  /** Filling every gap up to `end` takes at most two more requests than it closes
      stretches, and one fewer where the last gap is closed on both sides. */
  lemma {:induction false} GapsAndStarts(s: set<nat>, first: nat, end: nat)
    requires first <= end
    ensures Gaps(s, first, end) + |Starts(s + Run(first, end - first))|
            <= |Starts(s)| + (if end == first then 0 else if end - 1 !in s && end !in s then 2 else 1)
    decreases end
  {
    hide Starts;
    if first == end {
      assert s + Run(first, 0) == s;
    } else {
      var t := s + Run(first, end - 1 - first);
      GapsAndStarts(s, first, end - 1);
      if end - 1 in s {
        assert s + Run(first, end - first) == t;
      } else {
        assert s + Run(first, end - first) == t + Run(end - 1, 1);
        HoleFilled(t, end - 1, end);
      }
    }
  }

  /** What the table comes to remember of a segment's pages, `asked` runs having been
      granted before: those in gaps that still find a record free. */
  function Kept(known: set<nat>, asked: nat, first: nat, end: nat): set<nat>
  {
    set p: nat | first <= p < end && p !in known && asked + Gaps(known, first, p + 1) <= RECORDS
  }

  lemma KeptRun(known: set<nat>, asked: nat, first: nat, p: nat, q: nat)
    requires first <= p < q && (p == first || p - 1 in known) && forall x :: p <= x < q ==> x !in known
    ensures Kept(known, asked, first, q)
            == Kept(known, asked, first, p)
               + if asked + Gaps(known, first, p) < RECORDS then Run(p, q - p) else {}
  {
    hide Gaps;
    forall y | p < y <= q
      ensures Gaps(known, first, y) == Gaps(known, first, p) + 1
    {
      GapPassed(known, first, p, y);
    }
  }

  /** A page already known adds nothing, nor does any page to a full table; and as
      long as there are records for every gap, everything is kept. */
  lemma KeptBounds(known: set<nat>, asked: nat, first: nat, end: nat)
    ensures end <= first ==> Kept(known, asked, first, end) == {}
    ensures end in known ==> Kept(known, asked, first, end + 1) == Kept(known, asked, first, end)
    ensures forall p :: first <= p <= end ==> Kept(known, asked, first, p) <= Kept(known, asked, first, end)
    ensures asked >= RECORDS ==> Kept(known, asked, first, end) == {}
    ensures asked + Gaps(known, first, end) <= RECORDS && first <= end ==>
              known + Kept(known, asked, first, end) == known + Run(first, end - first)
  {
    hide Gaps;
    forall p | first <= p < end
      ensures Gaps(known, first, p + 1) <= Gaps(known, first, end)
      ensures p !in known ==> Gaps(known, first, p + 1) > 0
    {
      GapsMonotone(known, first, p + 1, end);
      if p !in known {
        UnknownIsGap(known, first, p);
      }
    }
  }

  lemma {:induction false} UnknownIsGap(known: set<nat>, first: nat, p: nat)
    requires first <= p && p !in known
    ensures Gaps(known, first, p + 1) > 0
    decreases p
  {
    if first < p && p - 1 !in known {
      UnknownIsGap(known, first, p - 1);
    }
  }

  /** How things stand once the pages from `first` up to `page` are claimed, given what was
      known, free, owned and asked for before. */
  ghost predicate Claimed(first: nat, page: nat, known0: set<nat>, free0: set<nat>, owned0: set<nat>, asked0: nat,
                          known: set<nat>, free: set<nat>, owned: set<nat>, asked: nat)
  {
    && (forall p :: p in owned <==> p in owned0 || first <= p < page)
    && owned + free == owned0 + free0 && owned !! free
    && (forall p :: first <= p < page ==> p in known0 || p in free0)
    && asked == asked0 + Gaps(known0, first, page)
    && known == known0 + Kept(known0, asked0, first, page)
    && known0 <= owned0 && owned0 !! free0
  }

  lemma NothingClaimed(first: nat, end: nat, known0: set<nat>, free0: set<nat>, owned0: set<nat>, asked0: nat)
    requires known0 <= owned0 && owned0 !! free0
    ensures Claimed(first, first, known0, free0, owned0, asked0, known0, free0, owned0, asked0)
    ensures Gaps(known0, first, first) == 0 && Kept(known0, asked0, first, first) == {}
    ensures end <= first ==> Gaps(known0, first, end) == 0 && Kept(known0, asked0, first, end) == {}
  {
    hide Kept, Gaps;
    GapsStep(known0, first, first);
    GapsStep(known0, first, end);
    KeptBounds(known0, asked0, first, first);
    KeptBounds(known0, asked0, first, end);
  }

  /** What this says of the pages up to `end`. */
  lemma SoFar(first: nat, page: nat, end: nat, known0: set<nat>, free0: set<nat>, owned0: set<nat>, asked0: nat,
              known: set<nat>, free: set<nat>, owned: set<nat>, asked: nat)
    requires Claimed(first, page, known0, free0, owned0, asked0, known, free, owned, asked) && first <= page
    ensures owned + free == owned0 + free0 && owned0 <= owned
    ensures forall p :: p in owned <==> p in owned0 || first <= p < page
    ensures forall p :: first <= p < page ==> p in known0 || p in free0
    ensures forall p :: page <= p ==> (p in known <==> p in known0) && (p in free <==> p in free0)
    ensures asked0 <= asked == asked0 + Gaps(known0, first, page)
    ensures page <= end ==> asked <= asked0 + Gaps(known0, first, end)
    ensures page <= end ==> known <= known0 + Kept(known0, asked0, first, end)
    ensures known == known0 + Kept(known0, asked0, first, page)
  {
    assert forall p :: page <= p ==> p !in Kept(known0, asked0, first, page);
    assert forall p :: p in owned + free <==> p in owned0 + free0;
    if page <= end {
      hide Kept, Gaps;
      GapsMonotone(known0, first, page, end);
      KeptBounds(known0, asked0, first, end);
    }
  }

  /** A gap is claimed in one run, which is recorded if there is a record left. */
  lemma GapClaimed(first: nat, page: nat, run: nat, known0: set<nat>, free0: set<nat>, owned0: set<nat>, asked0: nat,
                   known: set<nat>, free: set<nat>, owned: set<nat>, asked: nat)
    requires Claimed(first, page, known0, free0, owned0, asked0, known, free, owned, asked) && first <= page
    requires run > 0 && known !! Run(page, run) && (page == first || page in known0 || page - 1 in known0)
    ensures page !in known0
    ensures Run(page, run) <= free ==>
              Claimed(first, page + run, known0, free0, owned0, asked0,
                      if asked < RECORDS then known + Run(page, run) else known,
                      free - Run(page, run), owned + Run(page, run), asked + 1)
    ensures page + run in known ==> page + run in known0
    ensures known0 == owned0 ==> Run(page, run) !! owned
  {
    hide Kept, Gaps, Run;
    assert page in Run(page, run);
    assert forall p :: p in Run(page, run) ==> p !in known0;
    GapPassed(known0, first, page, page + run);
    KeptRun(known0, asked0, first, page, page + run);
    KeptInside(known0, asked0, first, page);
    if Run(page, run) <= free {
      assert owned + Run(page, run) + (free - Run(page, run)) == owned + free;
      assert forall p :: p in Run(page, run) ==> p in free0;
    }
  }

  lemma KeptInside(known: set<nat>, asked: nat, first: nat, end: nat)
    ensures forall p :: p in Kept(known, asked, first, end) ==> first <= p < end
  {
  }

  /** A page the table knows is passed over. */
  lemma KnownPassed(first: nat, page: nat, known0: set<nat>, free0: set<nat>, owned0: set<nat>, asked0: nat,
                    known: set<nat>, free: set<nat>, owned: set<nat>, asked: nat)
    requires Claimed(first, page, known0, free0, owned0, asked0, known, free, owned, asked) && first <= page
    requires page in known
    ensures Claimed(first, page + 1, known0, free0, owned0, asked0, known, free, owned, asked) && page in known0
  {
    hide Kept, Gaps;
    KeptInside(known0, asked0, first, page);
    GapsStep(known0, first, page);
    KeptBounds(known0, asked0, first, page);
  }

  /* ---- the loader ---- */

  /** The loader's statics, the machine it loads into, and (ghost) what the firmware
      has granted it: which pages, in how many runs, and whether it ever asked
      for a page again that it had been granted already. */
  class Loader {
    const machine: Firmware
    const records: array<Record>
    var count: nat
    ghost var owned: set<nat>
    ghost var grants: nat
    ghost var askedAgain: bool

    ghost predicate Valid()
      reads this, machine, records
    {
      && records.Length == RECORDS && count <= RECORDS
      && Known() <= owned && owned !! machine.free
      && (if grants <= RECORDS then count == grants && Known() == owned else count == RECORDS && Known() != owned)
      && Disjoint(records[..], count)
    }

    /** The pages the table remembers. */
    ghost function Known(): set<nat>
      requires count <= records.Length
      reads this`count, records
    {
      Recorded(records[..], count)
    }

    constructor (machine: Firmware)
      ensures Valid() && this.machine == machine && fresh(records)
      ensures owned == {} && grants == 0 && count == 0 && !askedAgain
    {
      this.machine := machine;
      records := new Record[RECORDS](_ => Record(0, 0));
      count, owned, grants, askedAgain := 0, {}, 0, false;
    }

    method PageAllocated(page: nat) returns (yes: bool)
      requires Valid()
      ensures yes <==> page in Known()
    {
      for i := 0 to count
        invariant page !in Recorded(records[..], i)
      {
        var r := records[i];
        if r.pages != 0 && page >= r.base && page < r.base + r.pages {
          RecordedContains(records[..], count, i);
          return true;
        }
      }
      yes := false;
    }

    /** Once the table is full, further records are dropped without a word. */
    method RecordAllocation(base: nat, pages: nat)
      requires records.Length == RECORDS && count <= RECORDS && Disjoint(records[..], count)
      requires Known() !! Run(base, pages)
      modifies this`count, records
      ensures count == Min(old(count) + 1, RECORDS) && Disjoint(records[..], count)
      ensures Known() == if old(count) < RECORDS then old(Known()) + Run(base, pages) else old(Known())
    {
      if count < RECORDS {
        ghost var was := records[..];
        OneMoreRecord(was, count, Record(base, pages));
        records[count] := Record(base, pages);
        assert records[..] == was[count := Record(base, pages)];
        count := count + 1;
      }
    }

    /** Asks for a run none of which the table knows, and records it if granted. */
    method Request(page: nat, run: nat) returns (ok: bool)
      requires Valid() && run > 0 && Known() !! Run(page, run)
      modifies this, records, machine`free
      ensures Valid()
      ensures ok <==> Run(page, run) <= old(machine.free)
      ensures machine.free == if ok then old(machine.free) - Run(page, run) else old(machine.free)
      ensures owned == if ok then old(owned) + Run(page, run) else old(owned)
      ensures grants == old(grants) + if ok then 1 else 0
      ensures Known() == if ok && old(grants) < RECORDS then old(Known()) + Run(page, run) else old(Known())
      ensures askedAgain <==> old(askedAgain) || !(Run(page, run) !! old(owned))
    {
      askedAgain := askedAgain || !(Run(page, run) !! owned);
      ok := machine.AllocateAt(page, run);
      if ok {
        RecordAllocation(page, run);
        owned := owned + Run(page, run);
        grants := grants + 1;
      }
    }

    /** How far the pages from `page` on are unknown to the table, up to `end`. */
    method Extend(page: nat, end: nat) returns (run: nat)
      requires Valid() && page < end && page !in Known()
      ensures 0 < run <= end - page && Known() !! Run(page, run)
      ensures page + run == end || page + run in Known()
    {
      run := 0;
      while page + run < end
        invariant run <= end - page && Known() !! Run(page, run)
        invariant run == 0 ==> page !in Known()
      {
        var known := PageAllocated(page + run);
        if known {
          break;
        }
        run := run + 1;
      }
    }
  
    /** The page loop: asks for what of `first..end` the table does not know, in
        runs as long as can be. It fails exactly if one of those pages is taken. */
    method ClaimPages(first: nat, end: nat) returns (ok: bool)
      requires Valid()
      modifies this, records, machine`free
      ensures Valid()
      ensures ok <==> forall p :: first <= p < end ==> p in old(Known()) || p in old(machine.free)
      ensures owned + machine.free == old(owned + machine.free) && old(owned) <= owned
      ensures forall p :: p in owned && p !in old(owned) ==> first <= p < end
      ensures ok ==> forall p :: first <= p < end ==> p in owned
      ensures old(grants) <= grants <= old(grants) + Gaps(old(Known()), first, end)
      ensures ok ==> grants == old(grants) + Gaps(old(Known()), first, end)
      ensures Known() <= old(Known()) + Kept(old(Known()), old(grants), first, end)
      ensures ok ==> Known() == old(Known()) + Kept(old(Known()), old(grants), first, end)
      ensures ok || old(Known()) == old(owned) ==> askedAgain == old(askedAgain)
    {
      hide Recorded, Disjoint, Run, Gaps, Known, Kept, Claimed;
      ghost var known0, free0, owned0, asked0 := Known(), machine.free, owned, grants;
      NothingClaimed(first, end, known0, free0, owned0, asked0);
      var page := first;
      while page < end
        invariant Valid() && first <= page && (page <= end || page == first)
        invariant Claimed(first, page, known0, free0, owned0, asked0, Known(), machine.free, owned, grants)
        invariant first < page < end ==> page in known0 || page - 1 in known0
        invariant askedAgain == old(askedAgain)
        decreases end - page
      {
        SoFar(first, page, end, known0, free0, owned0, asked0, Known(), machine.free, owned, grants);
        var known := PageAllocated(page);
        if !known {
          var run := Extend(page, end);
          ghost var known1, free1, owned1 := Known(), machine.free, owned;
          GapClaimed(first, page, run, known0, free0, owned0, asked0, known1, free1, owned1, grants);
          ok := Request(page, run);
          if !ok {
            return;
          }
          page := page + run;
        } else {
          KnownPassed(first, page, known0, free0, owned0, asked0, Known(), machine.free, owned, grants);
          page := page + 1;
        }
      }
      SoFar(first, page, end, known0, free0, owned0, asked0, Known(), machine.free, owned, grants);
      ok := true;
    }

    /** `load_segment`. It succeeds exactly for a well-formed segment whose every
        page the loop visits is already in the table or free for the asking. */
    method LoadSegment(s: Segment, file: seq<byte>) returns (ok: bool)
      requires Valid() && |file| < TWO_64
      modifies this, records, machine
      ensures Valid()
      ensures ok <==> s.WellFormed(file) && forall p :: p in s.Visited() ==> p in old(Known()) || p in old(machine.free)
      ensures machine.mem == if ok then s.Applied(old(machine.mem), file) else old(machine.mem)
      ensures owned + machine.free == old(owned + machine.free) && old(owned) <= owned <= old(owned) + s.Visited()
      ensures ok ==> owned == old(owned) + s.Visited()
      ensures old(grants) <= grants <= old(grants) + Gaps(old(Known()), s.FirstPage(), s.LoopEnd())
      ensures ok ==> grants == old(grants) + Gaps(old(Known()), s.FirstPage(), s.LoopEnd())
      ensures Known() <= old(Known()) + Kept(old(Known()), old(grants), s.FirstPage(), s.LoopEnd())
      ensures ok ==> Known() == old(Known()) + Kept(old(Known()), old(grants), s.FirstPage(), s.LoopEnd())
      ensures ok || old(Known()) == old(owned) ==> askedAgain == old(askedAgain)
    {
      hide Recorded, Disjoint, Run, Stored, Gaps, Known, Kept;
      if s.filesz > s.memsz {
        return false;
      }
      if s.offset + s.filesz >= TWO_64 || s.offset + s.filesz > |file| {
        return false;
      }
      if s.paddr + s.memsz >= TWO_64 {
        return false;
      }
      var pageBase := s.paddr / PAGE;
      var pageOffset := s.paddr % PAGE;
      var totalSize := pageOffset + s.memsz;
      var numPages := Low64(totalSize + 4095) / PAGE;
      ok := ClaimPages(pageBase, (pageBase + numPages) % PAGES);
      if !ok {
        return;
      }
      machine.CopyTo(s.paddr, file[s.offset..s.offset + s.filesz]);
      if s.memsz > s.filesz {
        machine.Clear(s.paddr + s.filesz, s.memsz - s.filesz);
      } else {
        StoredNothing(machine.mem, s.paddr + s.filesz, Zeros(0));
      }
    }
  }

  /* ---- program headers ---- */

  const PT_LOAD: u32 := 1

  datatype Header = Header(kind: u32, segment: Segment)

  function HeaderSize(is64: bool): nat { if is64 then 56 else 32 }

  function HeaderAt(is64: bool, file: seq<byte>, o: nat): Header
    requires o + HeaderSize(is64) <= |file|
  {
    if is64 then
      Header(U32At(file, o), Segment(U64At(file, o + 24), U64At(file, o + 40), U64At(file, o + 8), U64At(file, o + 32)))
    else
      Header(U32At(file, o), Segment(U32At(file, o + 12), U32At(file, o + 20), U32At(file, o + 4), U32At(file, o + 16)))
  }

  /** The segments to load from the `i`th header of the table on; a table that runs
      off the end of the file ends there. */
  function Segments(is64: bool, file: seq<byte>, phoff: nat, phnum: nat, i: nat): seq<Segment>
    requires i <= phnum
    decreases phnum - i
  {
    var o := phoff + i * HeaderSize(is64);
    if i == phnum || o + HeaderSize(is64) > |file| then []
    else
      var h := HeaderAt(is64, file, o);
      (if h.kind == PT_LOAD then [h.segment] else []) + Segments(is64, file, phoff, phnum, i + 1)
  }

  /* ---- what a run of segments comes to ---- */

  predicate WellFormed(segs: seq<Segment>, n: nat, file: seq<byte>)
    requires n <= |segs|
  {
    forall i :: 0 <= i < n ==> segs[i].WellFormed(file)
  }

  /** Memory after the first `n` segments, applied in order. */
  function AppliedAll(m: map<nat, byte>, segs: seq<Segment>, n: nat, file: seq<byte>): map<nat, byte>
    requires n <= |segs| && WellFormed(segs, n, file)
  {
    if n == 0 then m else segs[n - 1].Applied(AppliedAll(m, segs, n - 1, file), file)
  }

  /** The last of the first `n` segments that covers address `a`. */
  function LastOver(segs: seq<Segment>, n: nat, a: nat): (r: Option<nat>)
    requires n <= |segs|
    ensures r.Some? ==> r.value < n && segs[r.value].paddr <= a < segs[r.value].paddr + segs[r.value].memsz
    ensures forall i :: (if r.Some? then r.value < i else 0 <= i) && i < n ==>
              !(segs[i].paddr <= a < segs[i].paddr + segs[i].memsz)
  {
    if n == 0 then None
    else if segs[n - 1].paddr <= a < segs[n - 1].paddr + segs[n - 1].memsz then Some(n - 1)
    else LastOver(segs, n - 1, a)
  }

  /** Every byte of the image: the last segment over an address decides it, and an
      address no segment covers keeps what it had. */
  lemma {:induction false} ImageBytes(m: map<nat, byte>, segs: seq<Segment>, n: nat, file: seq<byte>, a: nat)
    requires n <= |segs| && WellFormed(segs, n, file)
    ensures var m' := AppliedAll(m, segs, n, file);
            match LastOver(segs, n, a)
            case Some(k) => a in m' && m'[a] == segs[k].ByteAt(file, a)
            case None => (a in m' <==> a in m) && (a in m ==> m'[a] == m[a])
  {
    hide Stored, Run, U64At, U32At;
    if n > 0 {
      ImageBytes(m, segs, n - 1, file, a);
      AppliedBytes(segs[n - 1], AppliedAll(m, segs, n - 1, file), file, a);
    }
  }

  /** Every page the loop visits for the first `n` segments. */
  function AllPages(segs: seq<Segment>, n: nat): set<nat>
    requires n <= |segs|
  {
    if n == 0 then {} else AllPages(segs, n - 1) + segs[n - 1].Visited()
  }

  /** How many runs of pages are asked for to load the first `n` segments. */
  function Asked(segs: seq<Segment>, n: nat): nat
    requires n <= |segs|
  {
    if n == 0 then 0
    else Asked(segs, n - 1) + Gaps(Remembered(segs, n - 1), segs[n - 1].FirstPage(), segs[n - 1].LoopEnd())
  }

  /** The pages the table knows once the first `n` segments are loaded. */
  function Remembered(segs: seq<Segment>, n: nat): set<nat>
    requires n <= |segs|
  {
    if n == 0 then {}
    else
      var known := Remembered(segs, n - 1);
      known + Kept(known, Asked(segs, n - 1), segs[n - 1].FirstPage(), segs[n - 1].LoopEnd())
  }

  /** The `i`th segment can be loaded after those before it: it is well formed, and its
      pages were free to begin with, those that earlier segments took being remembered. */
  ghost predicate LoadsAfter(segs: seq<Segment>, i: nat, file: seq<byte>, free: set<nat>)
    requires i < |segs|
  {
    && segs[i].WellFormed(file) && segs[i].Visited() <= free
    && segs[i].Visited() * AllPages(segs, i) <= Remembered(segs, i)
  }

  ghost predicate Loadable(segs: seq<Segment>, n: nat, file: seq<byte>, free: set<nat>)
    requires n <= |segs|
  {
    forall i :: 0 <= i < n ==> LoadsAfter(segs, i, file, free)
  }

  lemma {:induction false} AllPagesFree(segs: seq<Segment>, n: nat, file: seq<byte>, free: set<nat>)
    requires n <= |segs| && Loadable(segs, n, file, free)
    ensures AllPages(segs, n) <= free
  {
    if n > 0 {
      AllPagesFree(segs, n - 1, file, free);
      assert LoadsAfter(segs, n - 1, file, free);
    }
  }

  /** The table knows nothing but what the loader owns, and all of it as long as there
      were no more requests than records. */
  lemma {:induction false} RememberedOwned(segs: seq<Segment>, n: nat)
    requires n <= |segs|
    ensures Remembered(segs, n) <= AllPages(segs, n)
    ensures Asked(segs, n) <= RECORDS ==> Remembered(segs, n) == AllPages(segs, n)
  {
    hide Gaps;
    if n > 0 {
      RememberedOwned(segs, n - 1);
      var s := segs[n - 1];
      KeptBounds(Remembered(segs, n - 1), Asked(segs, n - 1), s.FirstPage(), s.LoopEnd());
    }
  }

  lemma {:induction false} AskedMonotone(segs: seq<Segment>, i: nat, n: nat)
    requires i <= n <= |segs|
    ensures Asked(segs, i) <= Asked(segs, n)
    decreases n
  {
    if i < n {
      AskedMonotone(segs, i, n - 1);
    }
  }

  /** Two requests a segment at the most, and fewer the more stretches they leave. */
  lemma {:induction false} TwoRequestsEach(segs: seq<Segment>, n: nat)
    requires n <= |segs| && 2 * n <= RECORDS
    ensures Asked(segs, n) + |Starts(AllPages(segs, n))| <= 2 * n
  {
    hide Starts, Gaps, Kept;
    if n == 0 {
      assert Starts({}) == {} by { NoStarts(); }
    } else {
      TwoRequestsEach(segs, n - 1);
      RememberedOwned(segs, n - 1);
      var s, before := segs[n - 1], AllPages(segs, n - 1);
      if s.FirstPage() <= s.LoopEnd() {
        GapsAndStarts(before, s.FirstPage(), s.LoopEnd());
        assert AllPages(segs, n) == before + Run(s.FirstPage(), s.LoopEnd() - s.FirstPage());
      } else {
        GapsStep(before, s.FirstPage(), s.LoopEnd());
        assert AllPages(segs, n) == before;
      }
    }
  }

  lemma NoStarts()
    ensures Starts({}) == {}
  {
  }

  /** The most segments whose last is sure to find every earlier page remembered. */
  const FEW: nat := 17

  /** No record is dropped before the last segment is reached. */
  ghost predicate NothingDropped(segs: seq<Segment>)
  {
    |segs| <= FEW || Asked(segs, |segs| - 1) <= RECORDS
  }

  lemma AllRemembered(segs: seq<Segment>, i: nat)
    requires i < |segs| && NothingDropped(segs)
    ensures Asked(segs, i) <= RECORDS && Remembered(segs, i) == AllPages(segs, i)
  {
    hide Starts, Gaps, Kept;
    if |segs| <= FEW {
      TwoRequestsEach(segs, i);
    } else {
      AskedMonotone(segs, i, |segs| - 1);
    }
    RememberedOwned(segs, i);
  }

  /** As long as no record is dropped, segments load exactly if each is well formed and
      every page of it was free to begin with; which of them share pages, and in how
      many pieces, does not matter. */
  lemma CompleteUnlessDropped(segs: seq<Segment>, file: seq<byte>, free: set<nat>)
    requires NothingDropped(segs)
    ensures Loadable(segs, |segs|, file, free)
            <==> forall i :: 0 <= i < |segs| ==> segs[i].WellFormed(file) && segs[i].Visited() <= free
  {
    hide Gaps, Kept;
    forall i | 0 <= i < |segs|
      ensures LoadsAfter(segs, i, file, free) <==> segs[i].WellFormed(file) && segs[i].Visited() <= free
    {
      AllRemembered(segs, i);
    }
  }

  /** So load any seventeen. */
  lemma SeventeenLoad(segs: seq<Segment>, file: seq<byte>, free: set<nat>)
    requires |segs| <= 17
    ensures Loadable(segs, |segs|, file, free)
            <==> forall i :: 0 <= i < |segs| ==> segs[i].WellFormed(file) && segs[i].Visited() <= free
  {
    hide Loadable, Segment.Visited, Segment.WellFormed;
    CompleteUnlessDropped(segs, file, free);
  }

  /** A loader that has asked for nothing yet. */
  ghost predicate Fresh(loader: Loader)
    reads loader
  {
    loader.owned == {} && loader.grants == 0 && !loader.askedAgain
  }

  /** A fresh loader, then given `segs[..n]`, all of which loaded: it owns their pages
      and no others, and asked for none of them twice. */
  ghost predicate Clean(loader: Loader, segs: seq<Segment>, n: nat, file: seq<byte>, free0: set<nat>)
    requires n <= |segs|
    reads loader, loader.machine, loader.records
  {
    && loader.Valid()
    && loader.owned == AllPages(segs, n) && loader.machine.free == free0 - AllPages(segs, n)
    && loader.Known() == Remembered(segs, n) && loader.grants == Asked(segs, n)
    && Loadable(segs, n, file, free0)
    && !loader.askedAgain
  }

  /** One more segment for a clean loader: it loads exactly if it is well formed and its
      pages were free, those that are the loader's already being remembered. */
  method LoadNext(loader: Loader, s: Segment, file: seq<byte>,
                  ghost segs: seq<Segment>, ghost n: nat, ghost free0: set<nat>)
    returns (ok: bool)
    requires loader.Valid() && |file| < TWO_64 && n < |segs| && segs[n] == s
    modifies loader, loader.records, loader.machine
    ensures loader.Valid()
    ensures ok ==> s.WellFormed(file)
    ensures loader.machine.mem == if ok then s.Applied(old(loader.machine.mem), file) else old(loader.machine.mem)
    ensures old(Clean(loader, segs, n, file, free0)) ==>
              && (ok <==> Loadable(segs, n + 1, file, free0))
              && (ok ==> Clean(loader, segs, n + 1, file, free0))
              && (ok || NothingDropped(segs) ==> !loader.askedAgain)
  {
    hide Recorded, Disjoint, Run, Gaps, Kept, Loader.Known;
    ghost var clean := Clean(loader, segs, n, file, free0);
    if clean {
      AllPagesFree(segs, n, file, free0);
      RememberedOwned(segs, n);
      if NothingDropped(segs) {
        AllRemembered(segs, n);
      }
    }
    ok := loader.LoadSegment(s, file);
    if clean {
      assert ok <==> LoadsAfter(segs, n, file, free0);
      assert Loadable(segs, n + 1, file, free0) <==> Loadable(segs, n, file, free0) && LoadsAfter(segs, n, file, free0);
    }
  }

  /** The program-header loop of either ELF class. */
  method LoadTable(loader: Loader, is64: bool, file: seq<byte>, phoff: nat, phnum: nat) returns (ok: bool)
    requires loader.Valid() && |file| < TWO_64
    modifies loader, loader.records, loader.machine
    ensures loader.Valid()
    ensures var segs := Segments(is64, file, phoff, phnum, 0);
            ok ==> WellFormed(segs, |segs|, file)
                   && loader.machine.mem == AppliedAll(old(loader.machine.mem), segs, |segs|, file)
    ensures var segs, free0 := Segments(is64, file, phoff, phnum, 0), old(loader.machine.free);
            old(Fresh(loader)) ==>
              && (ok <==> Loadable(segs, |segs|, file, free0))
              && (ok ==> Clean(loader, segs, |segs|, file, free0))
              && (ok || NothingDropped(segs) ==> !loader.askedAgain)
  {
    hide Clean, Loadable, Segment.Applied, HeaderAt, Segments, Loader.Valid, NothingDropped;
    ghost var segs, free0, mem0 := Segments(is64, file, phoff, phnum, 0), loader.machine.free, loader.machine.mem;
    ghost var fresh0 := Fresh(loader);
    ghost var n := 0;
    CleanStart(loader, segs, file);
    for i := 0 to phnum
      invariant loader.Valid() && n <= |segs| && segs[n..] == Segments(is64, file, phoff, phnum, i)
      invariant WellFormed(segs, n, file) && loader.machine.mem == AppliedAll(mem0, segs, n, file)
      invariant fresh0 ==> Clean(loader, segs, n, file, free0)
    {
      var off := phoff + i * HeaderSize(is64);
      if off + HeaderSize(is64) > |file| {
        HeaderPastEnd(is64, file, phoff, phnum, i);
        break;
      }
      var header := HeaderAt(is64, file, off);
      NextHeader(is64, file, phoff, phnum, i, segs, n);
      if header.kind != PT_LOAD {
        continue;
      }
      ok := LoadNext(loader, header.segment, file, segs, n, free0);
      if !ok {
        NotLoadable(segs, n + 1, file, free0);
        return;
      }
      n := n + 1;
    }
    ok := true;
    TableEnds(is64, file, phoff, phnum);
    assert n == |segs|;
    CleanLoads(loader, segs, n, file, free0);
  }

  lemma NextHeader(is64: bool, file: seq<byte>, phoff: nat, phnum: nat, i: nat, segs: seq<Segment>, n: nat)
    requires i < phnum && n <= |segs| && segs[n..] == Segments(is64, file, phoff, phnum, i)
    requires phoff + i * HeaderSize(is64) + HeaderSize(is64) <= |file|
    ensures var h := HeaderAt(is64, file, phoff + i * HeaderSize(is64));
            var rest := Segments(is64, file, phoff, phnum, i + 1);
            if h.kind == PT_LOAD then n < |segs| && segs[n] == h.segment && segs[n + 1..] == rest
            else segs[n..] == rest
  {
    var h := HeaderAt(is64, file, phoff + i * HeaderSize(is64));
    if h.kind == PT_LOAD {
      assert segs[n] == segs[n..][0];
      assert segs[n + 1..] == segs[n..][1..];
    }
  }

  lemma HeaderPastEnd(is64: bool, file: seq<byte>, phoff: nat, phnum: nat, i: nat)
    requires i < phnum && |file| < phoff + i * HeaderSize(is64) + HeaderSize(is64)
    ensures Segments(is64, file, phoff, phnum, i) == []
  {
  }

  lemma TableEnds(is64: bool, file: seq<byte>, phoff: nat, phnum: nat)
    ensures Segments(is64, file, phoff, phnum, phnum) == []
  {
  }

  lemma CleanStart(loader: Loader, segs: seq<Segment>, file: seq<byte>)
    requires loader.Valid()
    ensures Fresh(loader) ==> Clean(loader, segs, 0, file, loader.machine.free)
  {
  }

  lemma CleanLoads(loader: Loader, segs: seq<Segment>, n: nat, file: seq<byte>, free0: set<nat>)
    requires n <= |segs|
    ensures Clean(loader, segs, n, file, free0) ==> Loadable(segs, n, file, free0) && !loader.askedAgain
  {
  }

  lemma NotLoadable(segs: seq<Segment>, n: nat, file: seq<byte>, free0: set<nat>)
    requires n <= |segs|
    ensures !Loadable(segs, n, file, free0) ==> !Loadable(segs, |segs|, file, free0)
  {
  }

  /* ---- what a full table costs ---- */

  /** With the table full, a segment on fresh pages loads, and then can never be
      loaded over: the firmware is asked again for pages the table forgot, and refuses. */
  method FullTableForgets(loader: Loader, s: Segment, file: seq<byte>) returns (first: bool, second: bool)
    requires loader.Valid() && |file| < TWO_64 && loader.count == RECORDS
    requires s.WellFormed(file) && s.RoundsUp() && s.FirstPage() < s.EndPage()
    requires s.Pages() <= loader.machine.free
    modifies loader, loader.records, loader.machine
    ensures first && !second
  {
    hide Recorded, Disjoint, Run, Gaps, Kept, Loader.Known;
    LoopEndExact(s, file);
    assert s.FirstPage() in s.Pages();
    KeptBounds(loader.Known(), loader.grants, s.FirstPage(), s.LoopEnd());
    first := loader.LoadSegment(s, file);
    assert s.FirstPage() in loader.owned && s.FirstPage() !in loader.Known();
    second := loader.LoadSegment(s, file);
  }

  /* ---- seventeen is the most there can be ---- */

  /** `k` single pages with one free page before each: 1, 3, 5, and so on. */
  function OddPages(k: nat): set<nat>
  {
    if k == 0 then {} else OddPages(k - 1) + {2 * k - 1}
  }

  lemma {:induction false} OddPagesAre(k: nat, p: nat)
    ensures p in OddPages(k) <==> p % 2 == 1 && p < 2 * k
  {
    if k > 0 {
      OddPagesAre(k - 1, p);
    }
  }

  lemma {:induction false} OddGaps(k: nat, n: nat)
    requires n <= k
    ensures Gaps(OddPages(k), 0, 2 * n + 1) == n + 1
  {
    OddPagesAre(k, 2 * n);
    if n > 0 {
      OddGaps(k, n - 1);
      OddPagesAre(k, 2 * n - 1);
      assert Gaps(OddPages(k), 0, 2 * n) == n;
    }
  }

  function OnePage(p: nat): Segment
    requires p < 100
  {
    Segment(PAGE * p, 1, 0, 0)
  }

  lemma OnePageLoops(p: nat)
    requires p < 100
    ensures OnePage(p).FirstPage() == p && OnePage(p).LoopEnd() == p + 1 && OnePage(p).WellFormed([])
    ensures OnePage(p).Visited() == {p}
  {
  }

  /** Sixteen single pages apart, one segment over them all, and one of its pages again. */
  function Eighteen(): (segs: seq<Segment>)
    ensures |segs| == 18
  {
    seq(18, i requires 0 <= i < 18 =>
      if i < 16 then OnePage(2 * i + 1) else if i == 16 then Segment(0, 33 * PAGE, 0, 0) else OnePage(32))
  }

  lemma OnePageAdds(known: set<nat>, asked: nat, p: nat)
    requires p !in known && asked < RECORDS
    ensures Gaps(known, p, p + 1) == 1 && Kept(known, asked, p, p + 1) == {p}
  {
    hide Kept;
    GapsStep(known, p, p);
    GapPassed(known, p, p, p + 1);
    KeptRun(known, asked, p, p, p + 1);
    KeptBounds(known, asked, p, p);
    assert Run(p, 1) == {p};
  }

  lemma {:induction false} SixteenApart(k: nat)
    requires k <= 16
    ensures AllPages(Eighteen(), k) == Remembered(Eighteen(), k) == OddPages(k) && Asked(Eighteen(), k) == k
  {
    hide Gaps, Kept, Run, Segment.Visited;
    if k > 0 {
      SixteenApart(k - 1);
      var p := 2 * k - 1;
      assert Eighteen()[k - 1] == OnePage(p);
      OnePageLoops(p);
      OddPagesAre(k - 1, p);
      OnePageAdds(OddPages(k - 1), k - 1, p);
    }
  }

  lemma SixteenLoad()
    ensures Loadable(Eighteen(), 16, [], Run(0, 33))
  {
    hide Remembered, AllPages, Run, OddPages;
    forall i | 0 <= i < 16
      ensures LoadsAfter(Eighteen(), i, [], Run(0, 33))
    {
      assert Eighteen()[i] == OnePage(2 * i + 1);
      OnePageLoops(2 * i + 1);
      SixteenApart(i);
    }
  }

  /** Eighteen segments over free pages, every one of them well formed, need not load:
      the first seventeen take one run more than there are records. */
  lemma EighteenCanFail()
    ensures var segs, free := Eighteen(), Run(0, 33);
            && (forall i :: 0 <= i < 18 ==> segs[i].WellFormed([]) && segs[i].RoundsUp() && segs[i].Pages() <= free)
            && Loadable(segs, 17, [], free) && Asked(segs, 17) == RECORDS + 1
            && !Loadable(segs, 18, [], free)
  {
    hide Gaps, Kept, OddPages, Run;
    var segs, over := Eighteen(), Eighteen()[16];
    SixteenApart(16);
    SixteenLoad();
    OddGaps(16, 16);
    OddPagesAre(16, 32);
    OnePageLoops(32);
    assert over.FirstPage() == 0 && over.LoopEnd() == 33;
    assert LoadsAfter(segs, 16, [], Run(0, 33));
    assert 32 in AllPages(segs, 17) && 32 !in Remembered(segs, 17) by { hide Loadable; LastGapForgotten(); }
    assert !LoadsAfter(segs, 17, [], Run(0, 33));
    forall i | 0 <= i < 18
      ensures segs[i].WellFormed([]) && segs[i].RoundsUp() && segs[i].Pages() <= Run(0, 33)
    {
      if i != 16 {
        OnePageLoops(if i < 16 then 2 * i + 1 else 32);
      }
    }
  }

  lemma LastGapForgotten()
    ensures 32 !in Kept(OddPages(16), 16, 0, 33)
  {
    hide OddPages, Gaps;
    OddGaps(16, 16);
  }
}
